/** Finite directed graphs, walks and mutual reachability. */
module Digraphs {

  type Node = nat

  /** `out[n]` lists the targets of the edges leaving `n`, in order and with repetitions. */
  datatype Graph = Graph(out: map<Node, seq<Node>>) {
    predicate Valid() {
      forall n, j :: n in out && 0 <= j < |out[n]| ==> out[n][j] in out
    }
  }

  predicate Edge(g: Graph, a: Node, b: Node) {
    a in g.out && b in g.out[a]
  }

  ghost predicate Walk(g: Graph, w: seq<Node>) {
    && w != []
    && forall i :: 0 <= i < |w| - 1 ==> Edge(g, w[i], w[i + 1])
  }

  ghost predicate Reach(g: Graph, a: Node, b: Node) {
    exists w :: Walk(g, w) && w[0] == a && w[|w| - 1] == b
  }

  lemma ReachRefl(g: Graph, a: Node)
    ensures Reach(g, a, a)
  {
    assert Walk(g, [a]);
  }

  lemma ReachEdge(g: Graph, a: Node, b: Node)
    requires Edge(g, a, b)
    ensures Reach(g, a, b)
  {
    var w := [a, b];
    assert Walk(g, w) && w[0] == a && w[|w| - 1] == b;
  }

  lemma ReachTrans(g: Graph, a: Node, b: Node, c: Node)
    requires Reach(g, a, b) && Reach(g, b, c)
    ensures Reach(g, a, c)
  {
    var u :| Walk(g, u) && u[0] == a && u[|u| - 1] == b;
    var v :| Walk(g, v) && v[0] == b && v[|v| - 1] == c;
    var w := u + v[1..];
    forall i | 0 <= i < |w| - 1
      ensures Edge(g, w[i], w[i + 1])
    {
      if i < |u| - 1 {
        assert Edge(g, u[i], u[i + 1]);
      } else {
        var k := i - (|u| - 1);
        assert w[i] == v[k] && w[i + 1] == v[k + 1];
        assert Edge(g, v[k], v[k + 1]);
      }
    }
    assert Walk(g, w) && w[0] == a && w[|w| - 1] == c;
  }

  /** A set that every edge leaving it comes back to contains all it reaches. */
  lemma ReachInClosed(g: Graph, a: Node, b: Node, C: set<Node>)
    requires a in C && Reach(g, a, b)
    requires forall x, y :: x in C && Edge(g, x, y) ==> y in C
    ensures b in C
  {
    var w :| Walk(g, w) && w[0] == a && w[|w| - 1] == b;
    var i := 0;
    while i < |w| - 1
      invariant 0 <= i < |w| && w[i] in C
    {
      assert Edge(g, w[i], w[i + 1]);
      i := i + 1;
    }
  }

  ghost predicate Mutual(g: Graph, a: Node, b: Node) {
    Reach(g, a, b) && Reach(g, b, a)
  }

  /** `C` is one whole class of mutual reachability. */
  ghost predicate IsComponent(g: Graph, C: set<Node>) {
    C != {} && forall x, y :: x in C ==> (y in C <==> Mutual(g, x, y))
  }

  lemma SubsetSize(a: set<Node>, b: set<Node>)
    requires a <= b
    ensures |a| <= |b| && (|a| == |b| ==> a == b)
  {
    assert b == a + (b - a);
  }
}
