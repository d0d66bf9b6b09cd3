/** Dominance in a control-flow graph, defined by walks, and the natural loops it induces. */
module Dominance {
  import opened Digraphs

  /** A control-flow graph: blocks 0 to n - 1, entered at 0, every one of them reachable. */
  ghost predicate IsCfg(g: Graph, n: nat) {
    && g.Valid()
    && 0 < n && (forall b :: b in g.out <==> b < n)
    && (forall b :: b in g.out ==> Reach(g, 0, b))
  }

  ghost predicate WalkWithout(g: Graph, h: Node, w: seq<Node>, a: Node, b: Node) {
    Walk(g, w) && w[0] == a && w[|w| - 1] == b && h !in w
  }

  /** `a` reaches `b` along blocks other than `h`. */
  ghost predicate ReachWithout(g: Graph, h: Node, a: Node, b: Node) {
    exists w :: WalkWithout(g, h, w, a, b)
  }

  /** Every walk from the entry to `b` meets `a`. */
  ghost predicate Dominates(g: Graph, a: Node, b: Node) {
    !ReachWithout(g, a, 0, b)
  }

  lemma Subwalk(g: Graph, w: seq<Node>, i: nat, j: nat)
    requires Walk(g, w) && i <= j < |w|
    ensures Walk(g, w[i..j + 1]) && w[i..j + 1][0] == w[i] && w[i..j + 1][j - i] == w[j]
  {
    var v := w[i..j + 1];
    forall k | 0 <= k < |v| - 1
      ensures Edge(g, v[k], v[k + 1])
    {
      assert Edge(g, w[i + k], w[i + k + 1]);
    }
  }

  lemma WithoutTrans(g: Graph, h: Node, a: Node, b: Node, c: Node)
    requires ReachWithout(g, h, a, b) && ReachWithout(g, h, b, c)
    ensures ReachWithout(g, h, a, c)
  {
    var u :| WalkWithout(g, h, u, a, b);
    var v :| WalkWithout(g, h, v, b, c);
    var w := u + v[1..];
    forall i | 0 <= i < |w| - 1
      ensures Edge(g, w[i], w[i + 1])
    {
      if i < |u| - 1 {
        assert Edge(g, u[i], u[i + 1]);
      } else {
        var k := i - (|u| - 1);
        assert Edge(g, v[k], v[k + 1]);
      }
    }
    assert WalkWithout(g, h, w, a, c);
  }

  lemma WithoutEdge(g: Graph, h: Node, a: Node, b: Node)
    requires Edge(g, a, b) && h != a && h != b
    ensures ReachWithout(g, h, a, b)
  {
    assert WalkWithout(g, h, [a, b], a, b);
  }

  /** A stretch of a walk that misses `h`. */
  lemma Stretch(g: Graph, h: Node, w: seq<Node>, i: nat, j: nat)
    requires Walk(g, w) && i <= j < |w| && forall k :: i <= k <= j ==> w[k] != h
    ensures ReachWithout(g, h, w[i], w[j])
  {
    Subwalk(g, w, i, j);
    var v := w[i..j + 1];
    assert WalkWithout(g, h, v, w[i], w[j]);
  }

  lemma DominatesSelf(g: Graph, a: Node)
    ensures Dominates(g, a, a)
  {
  }

  lemma DominatesTrans(g: Graph, a: Node, b: Node, c: Node)
    requires Dominates(g, a, b) && Dominates(g, b, c)
    ensures Dominates(g, a, c)
  {
    forall w | WalkWithout(g, a, w, 0, c)
      ensures false
    {
      assert b in w by {
        if b !in w {
          assert WalkWithout(g, b, w, 0, c);
        }
      }
      var i :| 0 <= i < |w| && w[i] == b;
      Stretch(g, a, w, 0, i);
    }
  }

  /** The first meeting of a walk from the entry with `a` or `b`, when it meets one of them. */
  lemma First(w: seq<Node>, a: Node, b: Node) returns (i: nat)
    requires a in w
    ensures i < |w| && w[i] in {a, b} && forall k :: 0 <= k < i ==> w[k] !in {a, b}
  {
    i := 0;
    while w[i] != a && w[i] != b
      invariant i < |w| && forall k :: 0 <= k < i ==> w[k] !in {a, b}
      invariant exists k :: i <= k < |w| && w[k] == a
      decreases |w| - i
    {
      i := i + 1;
    }
  }

  lemma Last(w: seq<Node>, a: Node, b: Node) returns (i: nat)
    requires a in w
    ensures i < |w| && w[i] in {a, b} && forall k :: i < k < |w| ==> w[k] !in {a, b}
  {
    i := |w| - 1;
    while w[i] != a && w[i] != b
      invariant i < |w| && forall k :: i < k < |w| ==> w[k] !in {a, b}
      invariant exists k :: 0 <= k <= i && w[k] == a
      decreases i
    {
      i := i - 1;
    }
  }

  lemma MeetsDominator(g: Graph, a: Node, b: Node, w: seq<Node>)
    requires Dominates(g, a, b) && Walk(g, w) && w[0] == 0 && w[|w| - 1] == b
    ensures a in w
  {
    if a !in w {
      assert WalkWithout(g, a, w, 0, b);
    }
  }

  lemma DominatesAntisym(g: Graph, a: Node, b: Node)
    requires Reach(g, 0, a) && Dominates(g, a, b) && Dominates(g, b, a)
    ensures a == b
  {
    if a != b {
      var w :| Walk(g, w) && w[0] == 0 && w[|w| - 1] == a;
      var i := First(w, a, b);
      if w[i] == a {
        Stretch(g, b, w, 0, i);
      } else {
        Stretch(g, a, w, 0, i);
      }
    }
  }

  /** The dominators of a reachable block form a chain. */
  lemma DominatorsChain(g: Graph, a: Node, b: Node, c: Node)
    requires Reach(g, 0, c) && Dominates(g, a, c) && Dominates(g, b, c)
    ensures Dominates(g, a, b) || Dominates(g, b, a)
  {
    if a == b {
      DominatesSelf(g, a);
    } else {
      var w :| Walk(g, w) && w[0] == 0 && w[|w| - 1] == c;
      MeetsDominator(g, a, c, w);
      var i := Last(w, a, b);
      if w[i] == a {
        Stretch(g, b, w, i, |w| - 1);
        if ReachWithout(g, b, 0, a) {
          WithoutTrans(g, b, 0, a, c);
        }
      } else {
        Stretch(g, a, w, i, |w| - 1);
        if ReachWithout(g, a, 0, b) {
          WithoutTrans(g, a, 0, b, c);
        }
      }
    }
  }

  /** From a block `b` one gets to what it dominates without going back to a strict dominator `a` of `b`. */
  lemma DownWithout(g: Graph, a: Node, b: Node, c: Node)
    requires Reach(g, 0, a) && Reach(g, 0, c) && a != b && Dominates(g, a, b) && Dominates(g, b, c)
    ensures ReachWithout(g, a, b, c)
  {
    var w :| Walk(g, w) && w[0] == 0 && w[|w| - 1] == c;
    MeetsDominator(g, b, c, w);
    var i := Last(w, b, a);
    if w[i] == b {
      Stretch(g, a, w, i, |w| - 1);
    } else {
      Stretch(g, b, w, i, |w| - 1);
      if Dominates(g, b, a) {
        DominatesAntisym(g, a, b);
      }
      WithoutTrans(g, b, 0, a, c);
      assert false;
    }
  }

  // ----- Natural loops

  ghost predicate BackEdge(g: Graph, t: Node, h: Node) {
    Edge(g, t, h) && Dominates(g, h, t)
  }

  /** The natural loop of the back edge from `t` to `h`. */
  ghost predicate InLoop(g: Graph, h: Node, t: Node, x: Node) {
    x == h || (x in g.out && Dominates(g, h, x) && ReachWithout(g, h, x, t))
  }

  /** All natural loops with head `h` together. */
  ghost predicate InLoops(g: Graph, h: Node, x: Node) {
    exists t :: BackEdge(g, t, h) && InLoop(g, h, t, x)
  }

  /** A walk that stays out of the inner head stays out of the outer head. */
  lemma InnerWithoutOuter(g: Graph, h: Node, k: Node, x: Node, t: Node)
    requires Reach(g, 0, h) && h != k && Dominates(g, h, k) && Dominates(g, k, t) && ReachWithout(g, k, x, t)
    ensures ReachWithout(g, h, x, t)
  {
    var w :| WalkWithout(g, k, w, x, t);
    if h in w {
      var i :| 0 <= i < |w| && w[i] == h;
      Stretch(g, k, w, i, |w| - 1);
      if Dominates(g, k, h) {
        DominatesAntisym(g, h, k);
      }
      WithoutTrans(g, k, 0, h, t);
      assert false;
    }
    assert WalkWithout(g, h, w, x, t);
  }

  /** Once the loops of two heads meet, the inner head lies in the outer head's loops. */
  lemma InnerHeadInside(g: Graph, h: Node, k: Node, b: Node) returns (t: Node)
    requires Reach(g, 0, h) && Reach(g, 0, b) && h != k && Dominates(g, h, k) && InLoops(g, h, b) && InLoops(g, k, b)
    ensures BackEdge(g, t, h) && ReachWithout(g, h, k, t)
  {
    t :| BackEdge(g, t, h) && InLoop(g, h, t, b);
    DominatesSelf(g, k);
    assert Dominates(g, k, b);
    if b == h {
      DominatesAntisym(g, h, k);
    }
    DownWithout(g, h, k, b);
    WithoutTrans(g, h, k, b, t);
  }

  /** Loops that meet are nested: all of the inner head's loops lie in the outer head's. */
  lemma LoopsNest(g: Graph, h: Node, k: Node, b: Node, x: Node)
    requires g.Valid() && (forall c :: c in g.out ==> Reach(g, 0, c)) && h in g.out && k in g.out && b in g.out
    requires h != k && Dominates(g, h, k) && InLoops(g, h, b) && InLoops(g, k, b) && InLoops(g, k, x)
    ensures InLoops(g, h, x) && x != h
  {
    var t := InnerHeadInside(g, h, k, b);
    var u :| BackEdge(g, u, k) && InLoop(g, k, u, x);
    DominatesSelf(g, k);
    if x == h {
      DominatesAntisym(g, h, k);
    }
    DominatesTrans(g, h, k, x);
    if x != k {
      InnerWithoutOuter(g, h, k, x, u);
      var w :| WalkWithout(g, h, w, x, u);
      assert w[|w| - 1] == u;
      WithoutEdge(g, h, u, k);
      WithoutTrans(g, h, x, u, k);
      WithoutTrans(g, h, x, k, t);
    }
    assert InLoop(g, h, t, x);
  }
}
