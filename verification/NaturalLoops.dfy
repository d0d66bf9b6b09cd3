/** The loop finder of the allocation analyser: natural loops of one function and their nesting tree. */
module NaturalLoops {
  import opened Options
  import opened Digraphs
  import opened Dominance

  /** The map of visited blocks that the path search shares between its recursive calls. */
  class Visited {
    var seen: set<Node>

    constructor (h: Node)
      ensures seen == {h}
    {
      seen := {h};
    }
  }

  ghost predicate WalkOutside(g: Graph, X: set<Node>, w: seq<Node>, a: Node, b: Node) {
    Walk(g, w) && w[0] == a && w[|w| - 1] == b && forall i :: 0 <= i < |w| ==> w[i] !in X
  }

  ghost predicate ReachOutside(g: Graph, X: set<Node>, a: Node, b: Node) {
    exists w :: WalkOutside(g, X, w, a, b)
  }

  /** Every edge from a newly seen block leads to a seen one. */
  ghost predicate ClosedIn(g: Graph, old': set<Node>, seen: set<Node>) {
    forall x, y :: x in seen && x !in old' && Edge(g, x, y) ==> y in seen
  }

  lemma StaysSeen(g: Graph, X: set<Node>, seen: set<Node>, a: Node, b: Node)
    requires a in seen && ReachOutside(g, X, a, b) && ClosedIn(g, X, seen)
    ensures b in seen && b !in X
  {
    var w :| WalkOutside(g, X, w, a, b);
    var i := 0;
    while i < |w| - 1
      invariant i < |w| && w[i] in seen
    {
      assert Edge(g, w[i], w[i + 1]);
      i := i + 1;
    }
  }

  lemma ExtendOutside(g: Graph, X: set<Node>, Y: set<Node>, a: Node, b: Node, c: Node)
    requires Edge(g, a, b) && a !in X && X <= Y && ReachOutside(g, Y, b, c)
    ensures ReachOutside(g, X, a, c)
  {
    var w :| WalkOutside(g, Y, w, b, c);
    var v := [a] + w;
    forall i | 0 <= i < |v| - 1
      ensures Edge(g, v[i], v[i + 1])
    {
      assert i > 0 ==> Edge(g, w[i - 1], w[i]);
    }
    assert WalkOutside(g, X, v, a, c);
  }

  /** Whether a path leads from `cur` to `target` outside the blocks seen before. */
  method BlockPath1(g: Graph, cur: Node, target: Node, v: Visited) returns (found: bool)
    requires g.Valid() && cur in g.out && cur !in v.seen
    modifies v
    ensures old(v.seen) + {cur} <= v.seen
    ensures found ==> ReachOutside(g, old(v.seen), cur, target)
    ensures !found ==> target !in v.seen - old(v.seen) && ClosedIn(g, old(v.seen), v.seen)
    decreases g.out.Keys - v.seen
  {
    ghost var X := v.seen;
    v.seen := v.seen + {cur};
    if cur == target {
      assert WalkOutside(g, X, [cur], cur, target);
      return true;
    }
    for j := 0 to |g.out[cur]|
      invariant X + {cur} <= v.seen && target !in v.seen - X
      invariant ClosedIn(g, X + {cur}, v.seen)
      invariant forall k :: 0 <= k < j ==> g.out[cur][k] in v.seen
    {
      var bp := g.out[cur][j];
      if bp !in v.seen {
        ghost var Y := v.seen;
        var sub := BlockPath1(g, bp, target, v);
        if sub {
          ExtendOutside(g, X, Y, cur, bp, target);
          return true;
        }
      }
    }
    return false;
  }

  /** The path search answers exactly whether a path exists. */
  lemma PathExact(g: Graph, X: set<Node>, seen: set<Node>, a: Node, b: Node, found: bool)
    requires a in seen
    requires found ==> ReachOutside(g, X, a, b)
    requires !found ==> b !in seen - X && ClosedIn(g, X, seen)
    ensures found <==> ReachOutside(g, X, a, b)
  {
    if !found && ReachOutside(g, X, a, b) {
      StaysSeen(g, X, seen, a, b);
    }
  }

  lemma OutsideIsWithout(g: Graph, h: Node, a: Node, b: Node)
    ensures ReachOutside(g, {h}, a, b) <==> ReachWithout(g, h, a, b)
  {
    if w :| WalkOutside(g, {h}, w, a, b) {
      assert WalkWithout(g, h, w, a, b);
    }
    if w :| WalkWithout(g, h, w, a, b) {
      assert WalkOutside(g, {h}, w, a, b);
    }
  }

  /** A loop found so far. */
  datatype Loop = Loop(head: Node, blocks: set<Node>)

  /** What the SSA package's Dominates answers. */
  ghost predicate IsDominance(g: Graph, dom: (Node, Node) -> bool) {
    forall a, b :: a in g.out && b in g.out ==> (dom(a, b) <==> Dominates(g, a, b))
  }

  method NLoop(g: Graph, n: nat, dom: (Node, Node) -> bool, h: Node, t: Node) returns (l: Loop)
    requires IsCfg(g, n) && IsDominance(g, dom) && h < n && t < n
    ensures l.head == h
    ensures forall x: Node :: x in l.blocks <==> InLoop(g, h, t, x)
  {
    var blocks: set<Node> := {h};
    for bb := 0 to n
      invariant forall x: Node :: x in blocks <==> x == h || (x < bb && InLoop(g, h, t, x))
    {
      if bb != h && dom(h, bb) {
        var v := new Visited(h);
        var found := BlockPath1(g, bb, t, v);
        PathExact(g, {h}, v.seen, bb, t, found);
        OutsideIsWithout(g, h, bb, t);
        if found {
          blocks := blocks + {bb};
        }
      }
    }
    l := Loop(h, blocks);
  }

  // ----- Collecting and merging

  ghost predicate HoldsLoop(g: Graph, l: Loop, t: Node) {
    forall x: Node :: InLoop(g, l.head, t, x) ==> x in l.blocks
  }

  /** `l` joins some of the natural loops of its head, at least one. */
  ghost predicate IsPart(g: Graph, l: Loop) {
    && l.head in g.out && l.head in l.blocks
    && IsHead(g, l.head)
    && (forall x :: x in l.blocks ==> InLoops(g, l.head, x))
  }

  ghost predicate CoveredBy(g: Graph, nats: seq<Loop>, t: Node, h: Node) {
    exists l :: l in nats && l.head == h && HoldsLoop(g, l, t)
  }

  ghost predicate Parts(g: Graph, nats: seq<Loop>) {
    forall l :: l in nats ==> IsPart(g, l)
  }

  ghost predicate Covers(g: Graph, nats: seq<Loop>) {
    forall t, h :: BackEdge(g, t, h) ==> CoveredBy(g, nats, t, h)
  }

  ghost predicate HeadsDistinct(nats: seq<Loop>) {
    forall i, j :: 0 <= i < |nats| && 0 <= j < |nats| && i != j ==> nats[i].head != nats[j].head
  }

  lemma PartOf(g: Graph, l: Loop, t: Node)
    requires g.Valid() && BackEdge(g, t, l.head) && forall x: Node :: x in l.blocks <==> InLoop(g, l.head, t, x)
    ensures IsPart(g, l) && HoldsLoop(g, l, t)
  {
    assert l.head in g.out;
  }

  method CollectLoops(g: Graph, n: nat, dom: (Node, Node) -> bool) returns (nats: seq<Loop>)
    requires IsCfg(g, n) && IsDominance(g, dom)
    ensures Parts(g, nats) && Covers(g, nats)
  {
    nats := [];
    for bb := 0 to n
      invariant Parts(g, nats)
      invariant forall t: Node, h: Node :: t < bb && BackEdge(g, t, h) ==> CoveredBy(g, nats, t, h)
    {
      for j := 0 to |g.out[bb]|
        invariant Parts(g, nats)
        invariant forall t: Node, h: Node :: t < bb && BackEdge(g, t, h) ==> CoveredBy(g, nats, t, h)
        invariant forall h: Node :: h in g.out[bb][..j] && BackEdge(g, bb, h) ==> CoveredBy(g, nats, bb, h)
      {
        var suc := g.out[bb][j];
        assert g.out[bb][..j + 1] == g.out[bb][..j] + [suc];
        if dom(suc, bb) {
          var l := NLoop(g, n, dom, suc, bb);
          PartOf(g, l, bb);
          AddLoop(g, nats, l, bb);
          nats := nats + [l];
        }
      }
      assert g.out[bb][..|g.out[bb]|] == g.out[bb];
    }
  }

  lemma AddLoop(g: Graph, nats: seq<Loop>, l: Loop, t: Node)
    requires Parts(g, nats) && IsPart(g, l) && HoldsLoop(g, l, t)
    ensures Parts(g, nats + [l]) && CoveredBy(g, nats + [l], t, l.head)
    ensures forall u, h :: CoveredBy(g, nats, u, h) ==> CoveredBy(g, nats + [l], u, h)
  {
    assert l in nats + [l];
    forall u, h | CoveredBy(g, nats, u, h)
      ensures CoveredBy(g, nats + [l], u, h)
    {
      var k :| k in nats && k.head == h && HoldsLoop(g, k, u);
      assert k in nats + [l];
    }
  }

  function Joined(nats: seq<Loop>, i: nat, j: nat): seq<Loop>
    requires i < |nats| && j < |nats| && i != j
  {
    var r := nats[i := Loop(nats[i].head, nats[i].blocks + nats[j].blocks)];
    r[..j] + r[j + 1..]
  }

  lemma JoinedIn(nats: seq<Loop>, i: nat, j: nat, k: nat)
    requires i < |nats| && j < |nats| && i != j && k < |nats|
    ensures k != i && k != j ==> nats[k] in Joined(nats, i, j)
    ensures Loop(nats[i].head, nats[i].blocks + nats[j].blocks) in Joined(nats, i, j)
  {
    var r := nats[i := Loop(nats[i].head, nats[i].blocks + nats[j].blocks)];
    var q := Joined(nats, i, j);
    assert r[i] == q[if i < j then i else i - 1];
    assert k != j ==> r[k] == q[if k < j then k else k - 1];
  }

  lemma JoinParts(g: Graph, nats: seq<Loop>, i: nat, j: nat)
    requires Parts(g, nats) && i < |nats| && j < |nats| && i != j && nats[i].head == nats[j].head
    ensures Parts(g, Joined(nats, i, j))
  {
    var m := Loop(nats[i].head, nats[i].blocks + nats[j].blocks);
    assert IsPart(g, m) by {
      assert IsPart(g, nats[i]) && IsPart(g, nats[j]);
    }
    hide IsPart;
    forall l | l in Joined(nats, i, j)
      ensures IsPart(g, l)
    {
      assert l == m || l in nats;
    }
  }

  lemma JoinCovers(g: Graph, nats: seq<Loop>, i: nat, j: nat, t: Node, h: Node)
    requires i < |nats| && j < |nats| && i != j && nats[i].head == nats[j].head && CoveredBy(g, nats, t, h)
    ensures CoveredBy(g, Joined(nats, i, j), t, h)
  {
    var m := Loop(nats[i].head, nats[i].blocks + nats[j].blocks);
    var k :| 0 <= k < |nats| && nats[k].head == h && HoldsLoop(g, nats[k], t);
    JoinedIn(nats, i, j, k);
    assert k == i || k == j ==> HoldsLoop(g, m, t);
  }

  lemma JoinKeeps(g: Graph, nats: seq<Loop>, i: nat, j: nat)
    requires Parts(g, nats) && Covers(g, nats) && i < |nats| && j < |nats| && i != j && nats[i].head == nats[j].head
    ensures Parts(g, Joined(nats, i, j)) && Covers(g, Joined(nats, i, j))
  {
    hide Parts, CoveredBy, BackEdge, Joined;
    JoinParts(g, nats, i, j);
    forall t, h | BackEdge(g, t, h)
      ensures CoveredBy(g, Joined(nats, i, j), t, h)
    {
      JoinCovers(g, nats, i, j, t, h);
    }
  }

  /** The loop that merges loops sharing a head, two at a time, until no two do. */
  method MergeLoops(g: Graph, nats0: seq<Loop>) returns (nats: seq<Loop>)
    requires Parts(g, nats0) && Covers(g, nats0)
    ensures Parts(g, nats) && Covers(g, nats) && HeadsDistinct(nats)
  {
    nats := nats0;
    var changed := true;
    while changed
      invariant Parts(g, nats) && Covers(g, nats)
      invariant !changed ==> HeadsDistinct(nats)
      decreases |nats|, changed
    {
      changed := false;
      ghost var size := |nats|;
      var i := 0;
      while i < |nats| && !changed
        invariant Parts(g, nats) && Covers(g, nats)
        invariant if changed then |nats| < size else |nats| == size
        invariant !changed ==> i <= |nats| && forall a, b :: 0 <= a < i && 0 <= b < |nats| && a != b ==>
                  nats[a].head != nats[b].head
        decreases !changed, |nats| - i
      {
        var j := 0;
        while j < |nats| && !changed
          invariant Parts(g, nats) && Covers(g, nats)
          invariant if changed then |nats| < size else |nats| == size && i < size
          invariant !changed ==> j <= |nats| && forall a, b :: 0 <= a < i && 0 <= b < |nats| && a != b ==>
                    nats[a].head != nats[b].head
          invariant !changed ==> forall b :: 0 <= b < j && b != i ==> nats[i].head != nats[b].head
          decreases !changed, |nats| - j
        {
          if i != j && nats[i].head == nats[j].head {
            JoinKeeps(g, nats, i, j);
            changed := true;
            nats := nats[i := Loop(nats[i].head, nats[i].blocks + nats[j].blocks)];
            nats := nats[..j] + nats[j + 1..];
          } else {
            j := j + 1;
          }
        }
        if !changed {
          i := i + 1;
        }
      }
    }
  }

  ghost predicate IsHead(g: Graph, h: Node) {
    exists t :: BackEdge(g, t, h)
  }

  /** Each loop is all of its head's natural loops, and every head of a back edge has one. */
  ghost predicate Exact(g: Graph, nats: seq<Loop>) {
    && (forall i :: 0 <= i < |nats| ==> nats[i].head in g.out && IsHead(g, nats[i].head))
    && (forall i, x :: 0 <= i < |nats| ==> (x in nats[i].blocks <==> InLoops(g, nats[i].head, x)))
    && (forall h :: IsHead(g, h) ==> exists i :: 0 <= i < |nats| && nats[i].head == h)
  }

  lemma MergedExact(g: Graph, nats: seq<Loop>)
    requires Parts(g, nats) && Covers(g, nats) && HeadsDistinct(nats)
    ensures Exact(g, nats)
  {
    forall i, x | 0 <= i < |nats|
      ensures x in nats[i].blocks <==> InLoops(g, nats[i].head, x)
    {
      assert IsPart(g, nats[i]);
      if InLoops(g, nats[i].head, x) {
        var t :| BackEdge(g, t, nats[i].head) && InLoop(g, nats[i].head, t, x);
        assert CoveredBy(g, nats, t, nats[i].head);
        var k :| 0 <= k < |nats| && nats[k].head == nats[i].head && HoldsLoop(g, nats[k], t);
        assert k == i;
      }
    }
    forall h | IsHead(g, h)
      ensures exists i :: 0 <= i < |nats| && nats[i].head == h
    {
      var t :| BackEdge(g, t, h);
      assert CoveredBy(g, nats, t, h);
    }
    assert forall i :: 0 <= i < |nats| ==> IsPart(g, nats[i]);
  }

  // ----- Nesting

  ghost predicate Apart(a: set<Node>, b: set<Node>) {
    a !! b || a < b || b < a
  }

  /** The loops of two heads are disjoint or one lies strictly inside the other. */
  lemma LoopsApart(g: Graph, n: nat, nats: seq<Loop>, i: nat, j: nat)
    requires IsCfg(g, n) && Exact(g, nats) && HeadsDistinct(nats) && i < |nats| && j < |nats| && i != j
    ensures Apart(nats[i].blocks, nats[j].blocks)
  {
    var h, k := nats[i].head, nats[j].head;
    if b :| b in nats[i].blocks && b in nats[j].blocks {
      InLoopsDominated(g, h, b);
      InLoopsDominated(g, k, b);
      DominatorsChain(g, h, k, b);
      if Dominates(g, h, k) {
        InnerSmaller(g, n, nats, i, j, b);
      } else {
        InnerSmaller(g, n, nats, j, i, b);
      }
    }
  }

  lemma InLoopsDominated(g: Graph, h: Node, x: Node)
    requires g.Valid() && InLoops(g, h, x)
    ensures x in g.out && Dominates(g, h, x) && InLoops(g, h, h)
  {
    var t :| BackEdge(g, t, h) && InLoop(g, h, t, x);
    DominatesSelf(g, h);
    assert InLoop(g, h, t, h);
  }

  lemma LoopNonEmpty(g: Graph, n: nat, nats: seq<Loop>, i: nat)
    requires IsCfg(g, n) && Exact(g, nats) && i < |nats|
    ensures nats[i].head in nats[i].blocks
  {
    var t :| BackEdge(g, t, nats[i].head);
    assert InLoop(g, nats[i].head, t, nats[i].head);
  }

  lemma InnerSmaller(g: Graph, n: nat, nats: seq<Loop>, i: nat, j: nat, b: Node)
    requires IsCfg(g, n) && Exact(g, nats) && HeadsDistinct(nats) && i < |nats| && j < |nats| && i != j
    requires b in nats[i].blocks && b in nats[j].blocks && Dominates(g, nats[i].head, nats[j].head)
    ensures nats[j].blocks < nats[i].blocks
  {
    var h, k := nats[i].head, nats[j].head;
    InLoopsDominated(g, h, b);
    forall x | x in nats[j].blocks
      ensures x in nats[i].blocks && x != h
    {
      LoopsNest(g, h, k, b, x);
    }
    assert h in nats[i].blocks;
  }

  /** The check that loops overlap in nothing or in the whole smaller one; it panics otherwise. */
  method CheckNested(g: Graph, n: nat, nats: seq<Loop>)
    requires IsCfg(g, n) && Exact(g, nats) && HeadsDistinct(nats)
  {
    for i := 0 to |nats| {
      for j := 0 to |nats| {
        if i != j {
          var sm := |nats[i].blocks|;
          if |nats[j].blocks| < sm {
            sm := |nats[j].blocks|;
          }
          var same := |nats[i].blocks * nats[j].blocks|;
          OverlapSize(g, n, nats, i, j);
          if same != 0 && same != sm {
            assert false; // panic("partial still")
          }
        }
      }
    }
  }

  /** The size of an overlap is nothing or that of the smaller loop. */
  lemma OverlapSize(g: Graph, n: nat, nats: seq<Loop>, i: nat, j: nat)
    requires IsCfg(g, n) && Exact(g, nats) && HeadsDistinct(nats) && i < |nats| && j < |nats| && i != j
    ensures var a, b := nats[i].blocks, nats[j].blocks;
            |a * b| == 0 || |a * b| == if |b| < |a| then |b| else |a|
  {
    var a, b := nats[i].blocks, nats[j].blocks;
    LoopsApart(g, n, nats, i, j);
    if a !! b {
      assert a * b == {};
    } else if a < b {
      assert a * b == a;
      SubsetSize(a, b);
    } else {
      assert a * b == b;
      SubsetSize(b, a);
    }
  }

  ghost predicate SortedBySize(nats: seq<Loop>) {
    forall i, j :: 0 <= i < j < |nats| ==> |nats[i].blocks| <= |nats[j].blocks|
  }

  ghost predicate SameLoops(a: seq<Loop>, b: seq<Loop>) {
    |a| == |b| && forall l :: l in a <==> l in b
  }

  lemma SwapSame(nats: seq<Loop>, i: nat)
    requires 0 < i < |nats| && HeadsDistinct(nats)
    ensures var r := nats[i - 1 := nats[i]][i := nats[i - 1]]; SameLoops(nats, r) && HeadsDistinct(r)
  {
    var r := nats[i - 1 := nats[i]][i := nats[i - 1]];
    forall l
      ensures l in nats <==> l in r
    {
      if l in nats {
        var k :| 0 <= k < |nats| && nats[k] == l;
        assert r[if k == i then i - 1 else if k == i - 1 then i else k] == l;
      }
      if l in r {
        var k :| 0 <= k < |r| && r[k] == l;
        assert nats[if k == i then i - 1 else if k == i - 1 then i else k] == l;
      }
    }
  }

  /** Stands for the library sort, which may leave loops of one size in any order. */
  method SortLoops(nats0: seq<Loop>) returns (nats: seq<Loop>)
    requires HeadsDistinct(nats0)
    ensures SortedBySize(nats) && HeadsDistinct(nats) && SameLoops(nats0, nats)
  {
    nats := nats0;
    for i := 0 to |nats|
      invariant |nats| == |nats0| && HeadsDistinct(nats) && SameLoops(nats0, nats)
      invariant SortedBySize(nats[..i])
    {
      var j := i;
      while j > 0 && |nats[j].blocks| < |nats[j - 1].blocks|
        invariant 0 <= j <= i && |nats| == |nats0| && HeadsDistinct(nats) && SameLoops(nats0, nats)
        invariant forall a, b :: 0 <= a < b <= i && b != j ==> |nats[a].blocks| <= |nats[b].blocks|
      {
        SwapSame(nats, j);
        nats := nats[j - 1 := nats[j]][j := nats[j - 1]];
        j := j - 1;
      }
    }
    assert nats[..|nats|] == nats;
  }

  lemma SortedExact(g: Graph, a: seq<Loop>, b: seq<Loop>)
    requires Exact(g, a) && SameLoops(a, b)
    ensures Exact(g, b)
  {
    forall h | IsHead(g, h)
      ensures exists i :: 0 <= i < |b| && b[i].head == h
    {
      var i :| 0 <= i < |a| && a[i].head == h;
      assert a[i] in b;
    }
    forall i | 0 <= i < |b|
      ensures b[i].head in g.out && IsHead(g, b[i].head) &&
              forall x: Node :: x in b[i].blocks <==> InLoops(g, b[i].head, x)
    {
      assert b[i] in a;
      var k :| 0 <= k < |a| && a[k] == b[i];
    }
  }

  // ----- The loop tree

  /** The first later loop, in order of size, that contains loop `i`. */
  ghost predicate IsParent(nats: seq<Loop>, i: nat, p: Option<nat>)
    requires i < |nats|
  {
    && (p.Some? ==> i < p.value < |nats| && nats[i].blocks <= nats[p.value].blocks)
    && (forall k :: i < k < |nats| && (p.Some? ==> k < p.value) ==> !(nats[i].blocks <= nats[k].blocks))
  }

  ghost predicate AreParents(nats: seq<Loop>, pars: seq<Option<nat>>) {
    |pars| == |nats| && forall i :: 0 <= i < |nats| ==> IsParent(nats, i, pars[i])
  }

  method FindParents(nats: seq<Loop>) returns (pars: seq<Option<nat>>)
    ensures AreParents(nats, pars)
  {
    pars := [];
    for i := 0 to |nats|
      invariant |pars| == i && forall k :: 0 <= k < i ==> IsParent(nats, k, pars[k])
    {
      var p: Option<nat> := None;
      var j := i + 1;
      while j < |nats| && p == None
        invariant i < j <= |nats|
        invariant p == None ==> forall k :: i < k < j ==> !(nats[i].blocks <= nats[k].blocks)
        invariant p.Some? ==> IsParent(nats, i, p)
        decreases |nats| - j, p == None
      {
        if nats[i].blocks <= nats[j].blocks {
          p := Some(j);
        } else {
          j := j + 1;
        }
      }
      pars := pars + [p];
    }
  }

  ghost predicate IsLoopForest(g: Graph, n: nat, nats: seq<Loop>) {
    IsCfg(g, n) && Exact(g, nats) && HeadsDistinct(nats) && SortedBySize(nats)
  }

  /** The parent is the smallest loop strictly around a loop, and only outermost loops have none. */
  lemma ParentSmallest(g: Graph, n: nat, nats: seq<Loop>, pars: seq<Option<nat>>, i: nat, k: nat)
    requires IsLoopForest(g, n, nats) && AreParents(nats, pars) && i < |nats| && k < |nats| && k != i
    requires nats[i].blocks <= nats[k].blocks
    ensures pars[i].Some? && nats[i].blocks < nats[pars[i].value].blocks <= nats[k].blocks &&
            nats[i].blocks < nats[k].blocks
    ensures i < k && pars[i].value <= k
  {
    assert IsParent(nats, i, pars[i]);
    NonEmptyApart(g, n, nats, i, k);
    SubsetSize(nats[i].blocks, nats[k].blocks);
    assert i < k;
    var p := pars[i].value;
    NonEmptyApart(g, n, nats, i, p);
    if p != k {
      LoopsApart(g, n, nats, p, k);
      var b :| b in nats[i].blocks;
      assert b in nats[p].blocks && b in nats[k].blocks;
      if nats[k].blocks < nats[p].blocks {
        SubsetSize(nats[k].blocks, nats[p].blocks);
      }
    }
  }

  lemma NonEmptyApart(g: Graph, n: nat, nats: seq<Loop>, i: nat, k: nat)
    requires IsCfg(g, n) && Exact(g, nats) && HeadsDistinct(nats) && i < |nats| && k < |nats| && k != i
    requires nats[i].blocks <= nats[k].blocks
    ensures nats[i].blocks < nats[k].blocks && nats[i].blocks != {}
  {
    LoopsApart(g, n, nats, i, k);
    LoopsApart(g, n, nats, k, i);
    LoopNonEmpty(g, n, nats, i);
  }

  /** `j` is `i` or an ancestor of `i` in the tree. */
  ghost predicate Above(pars: seq<Option<nat>>, i: nat, j: nat)
    decreases |pars| - i
  {
    i == j || (i < |pars| && pars[i].Some? && i < pars[i].value && Above(pars, pars[i].value, j))
  }

  lemma {:induction false} EnclosingAbove(g: Graph, n: nat, nats: seq<Loop>, pars: seq<Option<nat>>, i: nat, j: nat)
    requires IsLoopForest(g, n, nats) && AreParents(nats, pars) && i < |nats| && j < |nats| &&
             nats[i].blocks < nats[j].blocks
    ensures Above(pars, i, j)
    decreases |nats| - i
  {
    ParentSmallest(g, n, nats, pars, i, j);
    var p := pars[i].value;
    if p != j {
      NonEmptyApart(g, n, nats, p, j);
      EnclosingAbove(g, n, nats, pars, p, j);
    }
  }

  datatype LoopTree = LoopTree(nats: seq<Loop>, pars: seq<Option<nat>>, nests: seq<seq<nat>>, loops: seq<nat>)

  /** `cs` lists, in order, exactly the loops before `m` whose parent is `p`. */
  ghost predicate ListsChildren(pars: seq<Option<nat>>, p: Option<nat>, cs: seq<nat>, m: nat) {
    && (forall c: nat :: c in cs <==> c < m && c < |pars| && pars[c] == p)
    && (forall i, j :: 0 <= i < j < |cs| ==> cs[i] < cs[j])
  }

  ghost predicate TreeOk(t: LoopTree, m: nat) {
    && |t.pars| == |t.nests| == |t.nats|
    && (forall p :: 0 <= p < |t.nests| ==> ListsChildren(t.pars, Some(p), t.nests[p], m))
    && ListsChildren(t.pars, None, t.loops, m)
  }

  lemma NextChild(pars: seq<Option<nat>>, p: Option<nat>, cs: seq<nat>, m: nat)
    requires ListsChildren(pars, p, cs, m) && m < |pars|
    ensures ListsChildren(pars, p, if pars[m] == p then cs + [m] else cs, m + 1)
  {
    var ds := cs + [m];
    assert ds[|cs|] == m;
    assert forall c: nat :: c in ds <==> c in cs || c == m;
    assert forall k :: 0 <= k < |cs| ==> cs[k] in cs && ds[k] == cs[k];
  }

  /** One more loop goes to the list of its parent, or to the outermost ones. */
  lemma NextLoop(t: LoopTree, i: nat)
    requires i < |t.nats| && TreeOk(t, i) && (t.pars[i].Some? ==> t.pars[i].value < |t.nests|)
    ensures t.pars[i].Some? ==> TreeOk(t.(nests := t.nests[t.pars[i].value := t.nests[t.pars[i].value] + [i]]), i + 1)
    ensures t.pars[i].None? ==> TreeOk(t.(loops := t.loops + [i]), i + 1)
  {
    hide ListsChildren;
    NextChild(t.pars, None, t.loops, i);
    forall p | 0 <= p < |t.nests|
      ensures ListsChildren(t.pars, Some(p), if t.pars[i] == Some(p) then t.nests[p] + [i] else t.nests[p], i + 1)
    {
      NextChild(t.pars, Some(p), t.nests[p], i);
    }
  }

  lemma NoLoops(t: LoopTree)
    requires |t.pars| == |t.nests| == |t.nats| && t.loops == [] && forall p :: 0 <= p < |t.nests| ==> t.nests[p] == []
    ensures TreeOk(t, 0)
  {
  }

  method BuildTree(nats: seq<Loop>, pars: seq<Option<nat>>) returns (t: LoopTree)
    requires AreParents(nats, pars)
    ensures t.nats == nats && t.pars == pars && TreeOk(t, |nats|)
  {
    hide TreeOk;
    t := LoopTree(nats, pars, seq(|nats|, _ => []), []);
    NoLoops(t);
    for i := 0 to |nats|
      invariant t.nats == nats && t.pars == pars && |t.nests| == |nats| && TreeOk(t, i)
    {
      assert IsParent(nats, i, pars[i]);
      NextLoop(t, i);
      match pars[i]
      case Some(p) =>
        t := t.(nests := t.nests[p := t.nests[p] + [i]]);
      case None =>
        t := t.(loops := t.loops + [i]);
    }
  }

  // ----- Visiting the tree

  predicate Below(cs: seq<nat>, m: nat) {
    forall k :: 0 <= k < |cs| ==> cs[k] < m
  }

  /** What a loop contains comes before it. */
  ghost predicate Nests(nests: seq<seq<nat>>) {
    forall p :: 0 <= p < |nests| ==> Below(nests[p], p)
  }

  /** The order in which natl_t.iter visits loop `i` and what it contains. */
  function Iter(nests: seq<seq<nat>>, i: nat): seq<nat>
    requires Nests(nests) && i < |nests|
    decreases i, 1, 0
  {
    IterAll(nests, nests[i], i) + [i]
  }

  function IterAll(nests: seq<seq<nat>>, cs: seq<nat>, m: nat): seq<nat>
    requires Nests(nests) && m <= |nests| && Below(cs, m)
    decreases m, 0, |cs|
  {
    if cs == [] then [] else IterAll(nests, cs[..|cs| - 1], m) + Iter(nests, cs[|cs| - 1])
  }

  ghost predicate IsTree(t: LoopTree) {
    && TreeOk(t, |t.nats|) && Nests(t.nests)
    && (forall i :: 0 <= i < |t.pars| && t.pars[i].Some? ==> i < t.pars[i].value < |t.pars|)
  }

  lemma {:induction false} AboveLater(pars: seq<Option<nat>>, i: nat, j: nat)
    requires Above(pars, i, j)
    ensures i <= j
    decreases |pars| - i
  {
    if i != j {
      AboveLater(pars, pars[i].value, j);
    }
  }

  /** Two ancestors of one loop are themselves one above the other. */
  lemma {:induction false} AboveChain(pars: seq<Option<nat>>, x: nat, a: nat, b: nat)
    requires Above(pars, x, a) && Above(pars, x, b)
    ensures Above(pars, a, b) || Above(pars, b, a)
    decreases |pars| - x
  {
    if x != a && x != b {
      AboveChain(pars, pars[x].value, a, b);
    }
  }

  lemma {:induction false} AboveTrans(pars: seq<Option<nat>>, x: nat, a: nat, b: nat)
    requires Above(pars, x, a) && Above(pars, a, b)
    ensures Above(pars, x, b)
    decreases |pars| - x
  {
    if x != a {
      AboveTrans(pars, pars[x].value, a, b);
    }
  }

  lemma {:induction false} IterIsBelow(t: LoopTree, i: nat, x: nat)
    requires IsTree(t) && i < |t.nests|
    ensures x in Iter(t.nests, i) <==> Above(t.pars, x, i)
    decreases i, 1, 0
  {
    IterAllIsBelow(t, t.nests[i], i, x);
    if Above(t.pars, x, i) && x != i {
      ChildAbove(t, x, i);
    }
    if c: nat :| c in t.nests[i] && Above(t.pars, x, c) {
      AboveTrans(t.pars, x, c, i);
    }
  }

  lemma {:induction false} IterAllIsBelow(t: LoopTree, cs: seq<nat>, m: nat, x: nat)
    requires IsTree(t) && m <= |t.nests| && Below(cs, m)
    ensures x in IterAll(t.nests, cs, m) <==> exists c: nat :: c in cs && Above(t.pars, x, c)
    decreases m, 0, |cs|
  {
    if cs != [] {
      var init, c := cs[..|cs| - 1], cs[|cs| - 1];
      assert cs == init + [c];
      IterAllIsBelow(t, init, m, x);
      IterIsBelow(t, c, x);
    }
  }

  /** A loop strictly below `i` is below or is one of its children. */
  lemma {:induction false} ChildAbove(t: LoopTree, x: nat, i: nat)
    requires IsTree(t) && i < |t.nests| && Above(t.pars, x, i) && x != i
    ensures exists c: nat :: c in t.nests[i] && Above(t.pars, x, c)
    decreases |t.pars| - x
  {
    var p := t.pars[x].value;
    if p == i {
      assert x in t.nests[i] && Above(t.pars, x, x);
    } else {
      ChildAbove(t, p, i);
      var c: nat :| c in t.nests[i] && Above(t.pars, p, c);
      assert Above(t.pars, x, c);
    }
  }

  ghost predicate NoRepeats(s: seq<nat>) {
    forall i, j :: 0 <= i < j < |s| ==> s[i] != s[j]
  }

  lemma NoRepeatsConcat(a: seq<nat>, b: seq<nat>)
    requires NoRepeats(a) && NoRepeats(b) && forall x: nat :: x in a ==> x !in b
    ensures NoRepeats(a + b)
  {
    var s := a + b;
    forall i, j | 0 <= i < j < |s|
      ensures s[i] != s[j]
    {
      if i < |a| <= j {
        assert s[i] in a && b[j - |a|] in b;
      }
    }
  }

  lemma {:induction false} IterOnce(t: LoopTree, i: nat)
    requires IsTree(t) && i < |t.nests|
    ensures NoRepeats(Iter(t.nests, i))
    decreases i, 1, 0
  {
    IterAllOnce(t, Some(i), t.nests[i], i);
    forall x: nat | x in IterAll(t.nests, t.nests[i], i)
      ensures x != i
    {
      IterAllIsBelow(t, t.nests[i], i, x);
      var c: nat :| c in t.nests[i] && Above(t.pars, x, c);
      AboveLater(t.pars, x, c);
    }
    NoRepeatsConcat(IterAll(t.nests, t.nests[i], i), [i]);
    assert Iter(t.nests, i) == IterAll(t.nests, t.nests[i], i) + [i];
  }

  lemma {:induction false} IterAllOnce(t: LoopTree, p: Option<nat>, cs: seq<nat>, m: nat)
    requires IsTree(t) && m <= |t.nests|
    requires Below(cs, m) && forall k :: 0 <= k < |cs| ==> t.pars[cs[k]] == p
    requires p.Some? ==> m <= p.value
    requires forall i, j :: 0 <= i < j < |cs| ==> cs[i] != cs[j]
    ensures NoRepeats(IterAll(t.nests, cs, m))
    decreases m, 0, |cs|
  {
    if cs != [] {
      var init, c := cs[..|cs| - 1], cs[|cs| - 1];
      IterAllOnce(t, p, init, m);
      IterOnce(t, c);
      forall x: nat | x in IterAll(t.nests, init, m)
        ensures x !in Iter(t.nests, c)
      {
        IterAllIsBelow(t, init, m, x);
        IterIsBelow(t, c, x);
        var d: nat :| d in init && Above(t.pars, x, d);
        if Above(t.pars, x, c) {
          SiblingsApart(t, p, x, c, d);
        }
      }
      NoRepeatsConcat(IterAll(t.nests, init, m), Iter(t.nests, c));
    }
  }

  lemma SiblingsApart(t: LoopTree, p: Option<nat>, x: nat, c: nat, d: nat)
    requires IsTree(t) && c < |t.pars| && d < |t.pars| && t.pars[c] == p == t.pars[d]
    requires Above(t.pars, x, c) && Above(t.pars, x, d)
    ensures c == d
  {
    AboveChain(t.pars, x, c, d);
    if c != d && p.Some? {
      if Above(t.pars, c, d) {
        AboveLater(t.pars, p.value, d);
      } else {
        AboveLater(t.pars, p.value, c);
      }
    }
  }

  /** A stretch of the visit is the visit of any one loop in it. */
  lemma {:induction false} IterContains(t: LoopTree, i: nat, y: nat) returns (u: seq<nat>, v: seq<nat>)
    requires IsTree(t) && i < |t.nests| && y in Iter(t.nests, i)
    ensures y < |t.nests| && Iter(t.nests, i) == u + Iter(t.nests, y) + v
    decreases i, 1, 0
  {
    if y == i {
      u, v := [], [];
    } else {
      assert y in IterAll(t.nests, t.nests[i], i);
      u, v := IterAllContains(t, t.nests[i], i, y);
      v := v + [i];
    }
  }

  lemma {:induction false} IterAllContains(t: LoopTree, cs: seq<nat>, m: nat, y: nat) returns (u: seq<nat>, v: seq<nat>)
    requires IsTree(t) && m <= |t.nests| && Below(cs, m) && y in IterAll(t.nests, cs, m)
    ensures y < |t.nests| && IterAll(t.nests, cs, m) == u + Iter(t.nests, y) + v
    decreases m, 0, |cs|
  {
    var init, c := cs[..|cs| - 1], cs[|cs| - 1];
    if y in Iter(t.nests, c) {
      u, v := IterContains(t, c, y);
      u := IterAll(t.nests, init, m) + u;
    } else {
      u, v := IterAllContains(t, init, m, y);
      v := v + Iter(t.nests, c);
    }
  }

  ghost predicate Before(s: seq<nat>, x: nat, y: nat) {
    exists i, j :: 0 <= i < j < |s| && s[i] == x && s[j] == y
  }

  /** The order in which funcloops_t.iter visits all loops. */
  function VisitOrder(t: LoopTree): seq<nat>
    requires Nests(t.nests) && Below(t.loops, |t.nests|)
  {
    IterAll(t.nests, t.loops, |t.nests|)
  }

  /** Every loop is visited exactly once. */
  lemma VisitedOnce(t: LoopTree)
    requires IsTree(t)
    ensures Below(t.loops, |t.nests|) && NoRepeats(VisitOrder(t))
    ensures forall x: nat :: x in VisitOrder(t) <==> x < |t.nats|
  {
    RootsBelow(t);
    IterAllOnce(t, None, t.loops, |t.nests|);
    forall x: nat
      ensures x in VisitOrder(t) <==> x < |t.nats|
    {
      IterAllIsBelow(t, t.loops, |t.nests|, x);
      if x < |t.nats| {
        var r := RootOf(t, x);
      } else if c: nat :| c in t.loops && Above(t.pars, x, c) {
        AboveLater(t.pars, x, c);
      }
    }
  }

  lemma RootsBelow(t: LoopTree)
    requires IsTree(t)
    ensures Below(t.loops, |t.nests|) && forall k :: 0 <= k < |t.loops| ==> t.pars[t.loops[k]] == None
  {
    forall k | 0 <= k < |t.loops|
      ensures t.loops[k] < |t.nests| && t.pars[t.loops[k]] == None
    {
      assert t.loops[k] in t.loops;
    }
  }

  lemma {:induction false} RootOf(t: LoopTree, x: nat) returns (r: nat)
    requires IsTree(t) && x < |t.nats|
    ensures r in t.loops && Above(t.pars, x, r)
    decreases |t.nats| - x
  {
    if t.pars[x] == None {
      r := x;
    } else {
      r := RootOf(t, t.pars[x].value);
    }
  }

  /** A loop is visited before every loop above it in the tree. */
  lemma BelowFirst(t: LoopTree, x: nat, y: nat)
    requires IsTree(t) && x < |t.nats| && y < |t.nats| && x != y && Above(t.pars, x, y)
    ensures Below(t.loops, |t.nests|) && Before(VisitOrder(t), x, y)
  {
    VisitedOnce(t);
    var u, v := IterAllContains(t, t.loops, |t.nests|, y);
    IterIsBelow(t, y, x);
    var inner := Iter(t.nests, y);
    var k :| 0 <= k < |inner| && inner[k] == x;
    var order := VisitOrder(t);
    assert order == u + inner + v;
    assert order[|u| + k] == x && order[|u| + |inner| - 1] == y;
  }

  /** Finds the loops of a function and their nesting. */
  method FuncLoops(g: Graph, n: nat, dom: (Node, Node) -> bool) returns (t: LoopTree)
    requires IsCfg(g, n) && IsDominance(g, dom)
    ensures IsLoopForest(g, n, t.nats) && AreParents(t.nats, t.pars) && IsTree(t)
    ensures Below(t.loops, |t.nests|) && NoRepeats(VisitOrder(t)) &&
            (forall x: nat :: x in VisitOrder(t) <==> x < |t.nats|)
    ensures forall i: nat, j: nat :: i < |t.nats| && j < |t.nats| && i != j ==>
            Apart(t.nats[i].blocks, t.nats[j].blocks)
    ensures forall i: nat, j: nat :: i < |t.nats| && j < |t.nats| && t.nats[i].blocks < t.nats[j].blocks ==>
            Before(VisitOrder(t), i, j)
  {
    hide Exact, Parts, Covers, IsCfg, SortedBySize, TreeOk;
    var nats := CollectLoops(g, n, dom);
    nats := MergeLoops(g, nats);
    MergedExact(g, nats);
    CheckNested(g, n, nats);
    ghost var merged := nats;
    nats := SortLoops(nats);
    SortedExact(g, merged, nats);
    var pars := FindParents(nats);
    t := BuildTree(nats, pars);
    BuiltIsTree(t);
    VisitedOnce(t);
    forall i: nat, j: nat | i < |t.nats| && j < |t.nats| && i != j
      ensures Apart(t.nats[i].blocks, t.nats[j].blocks)
    {
      LoopsApart(g, n, nats, i, j);
    }
    forall i: nat, j: nat | i < |t.nats| && j < |t.nats| && t.nats[i].blocks < t.nats[j].blocks
      ensures Before(VisitOrder(t), i, j)
    {
      EnclosingAbove(g, n, nats, pars, i, j);
      BelowFirst(t, i, j);
    }
  }

  lemma BuiltIsTree(t: LoopTree)
    requires TreeOk(t, |t.nats|) && AreParents(t.nats, t.pars)
    ensures IsTree(t)
  {
    assert forall i :: 0 <= i < |t.nats| ==> IsParent(t.nats, i, t.pars[i]);
    forall p | 0 <= p < |t.nests|
      ensures Below(t.nests[p], p)
    {
      forall k | 0 <= k < |t.nests[p]|
        ensures t.nests[p][k] < p
      {
        assert t.nests[p][k] in t.nests[p];
      }
    }
  }
}
