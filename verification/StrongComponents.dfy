/** The path-based strong component search that the allocation analyser runs over the call graph. */
module StrongComponents {
  import opened Digraphs

  type Numbers = map<Node, int>

  /** `s` lists the nodes of `X`, each once, by increasing visit number. */
  ghost predicate Lists(nums: Numbers, s: seq<Node>, X: set<Node>) {
    && (forall i :: 0 <= i < |s| ==> s[i] in X && s[i] in nums)
    && (forall n :: n in X ==> n in s)
    && (forall i, j :: 0 <= i < j < |s| ==> nums[s[i]] < nums[s[j]])
  }

  ghost predicate Numbered(g: Graph, nums: Numbers, num: int) {
    && nums.Keys <= g.out.Keys
    && num >= 1
    && (forall n :: n in nums ==> 1 <= nums[n] < num)
  }

  /** P holds the first node of every segment of S. */
  ghost predicate Starts(nums: Numbers, P: seq<Node>, S: seq<Node>, live: set<Node>) {
    && (forall i :: 0 <= i < |P| ==> P[i] in live && P[i] in nums)
    && (forall i, j :: 0 <= i < j < |P| ==> nums[P[i]] < nums[P[j]])
    && (S != [] ==> P != [] && P[0] == S[0])
  }

  /** The segment of visit number `y` is that of `x` or a later one. */
  ghost predicate Ahead(nums: Numbers, P: seq<Node>, x: int, y: int) {
    forall i :: 0 <= i < |P| && P[i] in nums && nums[P[i]] <= x ==> nums[P[i]] <= y
  }

  /** A live node reaches its own segment and every later one. */
  ghost predicate ReachesAhead(g: Graph, nums: Numbers, P: seq<Node>, live: set<Node>) {
    && live <= nums.Keys
    && forall a, b :: a in live && b in live && Ahead(nums, P, nums[a], nums[b]) ==> Reach(g, a, b)
  }

  ghost predicate Leads(nums: Numbers, P: seq<Node>, added: set<Node>, n: Node, w: Node) {
    w in added || (w in nums && n in nums && Ahead(nums, P, nums[n], nums[w]))
  }

  /** A scanned edge of a live node leads ahead or into a finished component. */
  ghost predicate ScannedAhead(g: Graph, nums: Numbers, P: seq<Node>, live: set<Node>, added: set<Node>,
                               scanned: map<Node, nat>) {
    forall n, j :: n in live && n in scanned && n in g.out && 0 <= j < scanned[n] && j < |g.out[n]| ==>
        Leads(nums, P, added, n, g.out[n][j])
  }

  /** Only the nodes of `open`, whose calls are still running, have edges left to scan. */
  ghost predicate ScanCounts(g: Graph, nums: Numbers, open: set<Node>, scanned: map<Node, nat>) {
    && scanned.Keys == nums.Keys <= g.out.Keys
    && (forall n :: n in scanned ==> scanned[n] <= |g.out[n]|)
    && (forall n :: n in scanned && n !in open ==> scanned[n] == |g.out[n]|)
  }

  ghost predicate EdgeClosed(g: Graph, added: set<Node>) {
    forall a, b :: a in added && Edge(g, a, b) ==> b in added
  }

  ghost predicate Components(g: Graph, added: set<Node>, comps: seq<set<Node>>) {
    && (forall i :: 0 <= i < |comps| ==> IsComponent(g, comps[i]) && |comps[i]| > 1 && comps[i] <= added)
    && (forall i, j :: 0 <= i < j < |comps| ==> comps[i] !! comps[j])
    && (forall C, n :: IsComponent(g, C) && n in C && n in added ==> C <= added && (|C| > 1 ==> C in comps))
  }

  lemma VisitReaches(g: Graph, nums: Numbers, P: seq<Node>, live: set<Node>, k: int, u: Node, v: Node)
    requires ReachesAhead(g, nums, P, live) && v !in nums
    requires forall n :: n in nums ==> nums[n] < k
    requires forall i :: 0 <= i < |P| ==> P[i] in nums
    requires live != {} ==> u in live && Edge(g, u, v) && forall i :: 0 <= i < |P| ==> nums[P[i]] <= nums[u]
    ensures ReachesAhead(g, nums[v := k], P + [v], live + {v})
  {
    var nums', P' := nums[v := k], P + [v];
    ReachRefl(g, v);
    forall a, b | a in live + {v} && b in live + {v} && Ahead(nums', P', nums'[a], nums'[b])
      ensures Reach(g, a, b)
    {
      if a == v {
        assert P'[|P|] == v;
      } else if b == v {
        assert Ahead(nums, P, nums[a], nums[u]);
        ReachEdge(g, u, v);
        ReachTrans(g, a, u, v);
      } else {
        assert forall i :: 0 <= i < |P| ==> P'[i] == P[i];
        assert Ahead(nums, P, nums[a], nums[b]);
      }
    }
  }

  lemma VisitScanned(g: Graph, nums: Numbers, P: seq<Node>, live: set<Node>, added: set<Node>, scanned: map<Node, nat>,
                     k: int, v: Node)
    requires ScannedAhead(g, nums, P, live, added, scanned) && v !in nums
    requires forall n :: n in nums ==> nums[n] < k
    requires forall i :: 0 <= i < |P| ==> P[i] in nums
    requires live <= nums.Keys
    ensures ScannedAhead(g, nums[v := k], P + [v], live + {v}, added, scanned[v := 0])
  {
    var nums', P', scanned' := nums[v := k], P + [v], scanned[v := 0];
    forall n, j | n in live + {v} && n in scanned' && n in g.out && 0 <= j < scanned'[n] && j < |g.out[n]|
      ensures Leads(nums', P', added, n, g.out[n][j])
    {
      assert Leads(nums, P, added, n, g.out[n][j]);
    }
  }

  lemma ScanOne(g: Graph, nums: Numbers, P: seq<Node>, live: set<Node>, added: set<Node>, scanned: map<Node, nat>,
                v: Node)
    requires ScannedAhead(g, nums, P, live, added, scanned)
    requires v in scanned && v in g.out && scanned[v] < |g.out[v]| && Leads(nums, P, added, v, g.out[v][scanned[v]])
    ensures ScannedAhead(g, nums, P, live, added, scanned[v := scanned[v] + 1])
  {
  }

  /** Dropping from P every start after `w` is sound when `v`, in the last segment, has an edge to `w`. */
  lemma MergeReaches(g: Graph, nums: Numbers, P: seq<Node>, live: set<Node>, v: Node, w: Node, k: nat)
    requires ReachesAhead(g, nums, P, live) && v in live && w in live && Edge(g, v, w)
    requires forall i :: 0 <= i < |P| ==> P[i] in nums && nums[P[i]] <= nums[v]
    requires k <= |P| && forall i :: k <= i < |P| ==> nums[P[i]] > nums[w]
    ensures ReachesAhead(g, nums, P[..k], live)
  {
    forall a, b | a in live && b in live && Ahead(nums, P[..k], nums[a], nums[b])
      ensures Reach(g, a, b)
    {
      if !Ahead(nums, P, nums[a], nums[b]) {
        assert Ahead(nums, P, nums[a], nums[v]);
        assert Ahead(nums, P, nums[w], nums[b]) by { MergeAhead(nums, P, k, nums[a], nums[b], nums[w]); }
        ReachEdge(g, v, w);
        ReachTrans(g, a, v, w);
        ReachTrans(g, a, w, b);
      }
    }
  }

  lemma MergeAhead(nums: Numbers, P: seq<Node>, k: nat, a: int, b: int, w: int)
    requires forall i :: 0 <= i < |P| ==> P[i] in nums
    requires k <= |P| && forall i :: k <= i < |P| ==> nums[P[i]] > w
    requires Ahead(nums, P[..k], a, b) && !Ahead(nums, P, a, b)
    ensures Ahead(nums, P, w, b)
  {
    forall i | 0 <= i < |P| && nums[P[i]] <= w
      ensures nums[P[i]] <= b
    {
      assert P[..k][i] == P[i];
      var j :| 0 <= j < |P| && nums[P[j]] <= a && nums[P[j]] > b;
    }
  }

  lemma FewerStarts(g: Graph, nums: Numbers, P: seq<Node>, Q: seq<Node>, live: set<Node>, added: set<Node>,
                    scanned: map<Node, nat>)
    requires ScannedAhead(g, nums, P, live, added, scanned) && Q <= P
    ensures ScannedAhead(g, nums, Q, live, added, scanned)
  {
    forall n, j | n in live && n in scanned && n in g.out && 0 <= j < scanned[n] && j < |g.out[n]|
      ensures Leads(nums, Q, added, n, g.out[n][j])
    {
      assert Leads(nums, P, added, n, g.out[n][j]);
    }
  }

  /** The nodes of S from position `i` on: what one run of the pop loop collects. */
  ghost function Segment(S: seq<Node>, i: nat): set<Node>
    requires i <= |S|
  {
    set n | n in S[i..]
  }

  lemma SegmentByNumber(nums: Numbers, S: seq<Node>, live: set<Node>, i: nat, n: Node)
    requires Lists(nums, S, live) && live <= nums.Keys && i < |S|
    ensures n in Segment(S, i) <==> n in live && nums[n] >= nums[S[i]]
  {
    if n in live {
      var j :| 0 <= j < |S| && S[j] == n;
      assert j >= i ==> S[i..][j - i] == n;
    }
    if n in S[i..] {
      var j :| 0 <= j < |S[i..]| && S[i..][j] == n;
      assert S[i + j] == n;
    }
  }

  /** Nothing leaves the last segment but into finished components. */
  lemma SegmentClosed(g: Graph, nums: Numbers, P: seq<Node>, live: set<Node>, added: set<Node>, scanned: map<Node, nat>,
                      comp: set<Node>, v: Node)
    requires ScannedAhead(g, nums, P, live, added, scanned) && nums.Keys == live + added
    requires P != [] && P[|P| - 1] == v && v in nums
    requires forall n :: n in comp <==> n in live && nums[n] >= nums[v]
    requires forall n :: n in comp ==> n in scanned && n in g.out && scanned[n] == |g.out[n]|
    ensures forall a, b :: a in comp && Edge(g, a, b) ==> b in comp + added
  {
    forall a, b | a in comp && Edge(g, a, b)
      ensures b in comp + added
    {
      var j :| 0 <= j < |g.out[a]| && g.out[a][j] == b;
      assert Leads(nums, P, added, a, b);
      assert P[|P| - 1] == v;
    }
  }

  /** Hence the last segment is a component. */
  lemma SegmentIsComponent(g: Graph, nums: Numbers, P: seq<Node>, live: set<Node>, added: set<Node>,
                           comp: set<Node>, v: Node)
    requires ReachesAhead(g, nums, P, live) && EdgeClosed(g, added) && live !! added
    requires v in live && forall n :: n in comp <==> n in live && nums[n] >= nums[v]
    requires forall i :: 0 <= i < |P| ==> P[i] in nums && nums[P[i]] <= nums[v]
    requires forall a, b :: a in comp && Edge(g, a, b) ==> b in comp + added
    ensures IsComponent(g, comp)
  {
    forall x, y | x in comp
      ensures y in comp <==> Mutual(g, x, y)
    {
      if y in comp {
        assert Ahead(nums, P, nums[x], nums[y]) && Ahead(nums, P, nums[y], nums[x]);
      } else if Mutual(g, x, y) {
        ReachInClosed(g, x, y, comp + added);
        ReachInClosed(g, y, x, added);
        assert false;
      }
    }
    assert v in comp;
  }

  lemma SameComponent(g: Graph, C: set<Node>, D: set<Node>, n: Node)
    requires IsComponent(g, C) && IsComponent(g, D) && n in C && n in D
    ensures C == D
  {
    forall y
      ensures y in C <==> y in D
    {
      assert y in C <==> Mutual(g, n, y);
    }
  }

  lemma AddComponent(g: Graph, added: set<Node>, comps: seq<set<Node>>, comp: set<Node>)
    requires Components(g, added, comps) && IsComponent(g, comp) && comp !! added
    ensures Components(g, added + comp, if |comp| > 1 then comps + [comp] else comps)
  {
    var comps' := if |comp| > 1 then comps + [comp] else comps;
    forall C, n | IsComponent(g, C) && n in C && n in added + comp
      ensures C <= added + comp && (|C| > 1 ==> C in comps')
    {
      if n in comp {
        SameComponent(g, C, comp, n);
        assert |comp| > 1 ==> comps'[|comps|] == comp;
      } else {
        assert C <= added && (|C| > 1 ==> C in comps);
        assert forall D :: D in comps ==> D in comps';
      }
    }
    forall i, j | 0 <= i < j < |comps'|
      ensures comps'[i] !! comps'[j]
    {
      assert comps'[i] == comps[i] <= added;
    }
  }

  lemma DropSegmentLists(nums: Numbers, S: seq<Node>, live: set<Node>, i: nat, comp: set<Node>)
    requires Lists(nums, S, live) && i <= |S| && comp == Segment(S, i)
    ensures Lists(nums, S[..i], live - comp)
  {
    var T := S[..i];
    forall j | 0 <= j < |T|
      ensures T[j] in live - comp
    {
      assert forall k :: 0 <= k < |S[i..]| ==> S[i..][k] == S[i + k];
    }
    forall n | n in live - comp
      ensures n in T
    {
      assert S == T + S[i..];
    }
  }

  lemma DropSegmentReaches(g: Graph, nums: Numbers, P: seq<Node>, live: set<Node>, comp: set<Node>, v: Node)
    requires ReachesAhead(g, nums, P, live) && P != [] && P[|P| - 1] == v && v in nums
    requires forall n :: n in comp <==> n in live && nums[n] >= nums[v]
    ensures ReachesAhead(g, nums, P[..|P| - 1], live - comp)
  {
    var Q := P[..|P| - 1];
    forall a, b | a in live - comp && b in live - comp && Ahead(nums, Q, nums[a], nums[b])
      ensures Reach(g, a, b)
    {
      forall i | 0 <= i < |P| && P[i] in nums && nums[P[i]] <= nums[a]
        ensures nums[P[i]] <= nums[b]
      {
        assert Q[i] == P[i];
      }
      assert Ahead(nums, P, nums[a], nums[b]);
    }
  }

  lemma DropSegmentScanned(g: Graph, nums: Numbers, P: seq<Node>, live: set<Node>, added: set<Node>,
                           scanned: map<Node, nat>,
                           comp: set<Node>)
    requires ScannedAhead(g, nums, P, live, added, scanned)
    ensures ScannedAhead(g, nums, P, live - comp, added + comp, scanned)
  {
    forall n, j | n in live - comp && n in scanned && n in g.out && 0 <= j < scanned[n] && j < |g.out[n]|
      ensures Leads(nums, P, added + comp, n, g.out[n][j])
    {
      assert Leads(nums, P, added, n, g.out[n][j]);
    }
  }

  /** The struct `h.ms`. */
  datatype Marks = Marks(P: seq<Node>, S: seq<Node>, nums: Numbers, added: set<Node>, num: int, comps: seq<set<Node>>) {
    ghost function Live(): set<Node> {
      nums.Keys - added
    }
  }

  /** Both stacks hold live nodes in visiting order; only `open` nodes have edges left. */
  ghost predicate Shape(g: Graph, m: Marks, scanned: map<Node, nat>, open: set<Node>) {
    && g.Valid()
    && Numbered(g, m.nums, m.num)
    && m.added <= m.nums.Keys
    && Lists(m.nums, m.S, m.Live())
    && Starts(m.nums, m.P, m.S, m.Live())
    && ScanCounts(g, m.nums, open, scanned)
    && open <= m.Live()
  }

  /** What the marks say about reachability; `base` components were there before the search from `root` began. */
  ghost predicate Meaning(g: Graph, m: Marks, scanned: map<Node, nat>, root: Node, base: nat) {
    && ReachesAhead(g, m.nums, m.P, m.Live())
    && ScannedAhead(g, m.nums, m.P, m.Live(), m.added, scanned)
    && EdgeClosed(g, m.added)
    && base <= |m.comps|
    && Components(g, m.added, m.comps[base..])
    && RootReaches(g, root, m.nums)
  }

  ghost predicate RootReaches(g: Graph, root: Node, nums: Numbers) {
    forall n :: n in nums ==> Reach(g, root, n)
  }

  function Visited(m: Marks, v: Node): Marks {
    m.(nums := m.nums[v := m.num], num := m.num + 1, S := m.S + [v], P := m.P + [v])
  }

  lemma VisitLists(nums: Numbers, S: seq<Node>, P: seq<Node>, live: set<Node>, k: int, v: Node)
    requires Lists(nums, S, live) && Starts(nums, P, S, live) && v !in nums
    requires forall n :: n in nums ==> nums[n] < k
    requires live <= nums.Keys
    requires S == [] ==> P == []
    ensures Lists(nums[v := k], S + [v], live + {v})
    ensures Starts(nums[v := k], P + [v], S + [v], live + {v})
  {
    var T := S + [v];
    assert T[|S|] == v;
    forall n | n in live + {v}
      ensures n in T
    {
      if n in live {
        var i :| 0 <= i < |S| && S[i] == n;
        assert T[i] == n;
      }
    }
  }

  lemma VisitCounts(g: Graph, nums: Numbers, num: int, open: set<Node>, scanned: map<Node, nat>, v: Node)
    requires ScanCounts(g, nums, open, scanned) && Numbered(g, nums, num) && v in g.out && v !in nums
    ensures ScanCounts(g, nums[v := num], open + {v}, scanned[v := 0])
    ensures Numbered(g, nums[v := num], num + 1)
  {
  }

  lemma VisitRootReaches(g: Graph, root: Node, nums: Numbers, u: Node, v: Node, k: int)
    requires RootReaches(g, root, nums)
    requires v == root || (u in nums && Edge(g, u, v))
    ensures RootReaches(g, root, nums[v := k])
  {
    if v == root {
      ReachRefl(g, v);
    } else {
      ReachEdge(g, u, v);
      ReachTrans(g, root, u, v);
    }
  }

  /** `u` is the node whose call makes the visit, if there is one; all of P starts at or before it. */
  ghost predicate MayVisit(g: Graph, m: Marks, root: Node, open: set<Node>, u: Node, v: Node) {
    && v in g.out && v !in m.nums
    && (open == {} ==> m.S == [] && v == root)
    && (open != {} ==> u in open && Edge(g, u, v) && Tops(m, u))
  }

  /** Every segment starts at or before `u`, so that `u` lies in the last one. */
  ghost predicate Tops(m: Marks, u: Node) {
    u in m.nums && forall i :: 0 <= i < |m.P| ==> m.P[i] in m.nums && m.nums[m.P[i]] <= m.nums[u]
  }

  lemma VisitShape(g: Graph, m: Marks, scanned: map<Node, nat>, root: Node, open: set<Node>, u: Node, v: Node)
    requires Shape(g, m, scanned, open) && MayVisit(g, m, root, open, u, v)
    ensures Shape(g, Visited(m, v), scanned[v := 0], open + {v})
  {
    var m' := Visited(m, v);
    assert m'.Live() == m.Live() + {v};
    if m.P != [] {
      assert m.P[0] in m.Live();
    }
    VisitLists(m.nums, m.S, m.P, m.Live(), m.num, v);
    VisitCounts(g, m.nums, m.num, open, scanned, v);
  }

  lemma VisitMeaning(g: Graph, m: Marks, scanned: map<Node, nat>, root: Node, base: nat, open: set<Node>, u: Node,
                     v: Node)
    requires Shape(g, m, scanned, open) && MayVisit(g, m, root, open, u, v)
    requires Meaning(g, m, scanned, root, base)
    ensures Meaning(g, Visited(m, v), scanned[v := 0], root, base)
  {
    var m' := Visited(m, v);
    assert m'.Live() == m.Live() + {v};
    VisitReaches(g, m.nums, m.P, m.Live(), m.num, u, v);
    VisitScanned(g, m.nums, m.P, m.Live(), m.added, scanned, m.num, v);
    VisitRootReaches(g, root, m.nums, u, v, m.num);
  }

  lemma ScanInv(g: Graph, m: Marks, scanned: map<Node, nat>, root: Node, base: nat, open: set<Node>, v: Node)
    requires Shape(g, m, scanned, open) && Meaning(g, m, scanned, root, base)
    requires v in open && scanned[v] < |g.out[v]| && Leads(m.nums, m.P, m.added, v, g.out[v][scanned[v]])
    ensures Shape(g, m, scanned[v := scanned[v] + 1], open)
    ensures Meaning(g, m, scanned[v := scanned[v] + 1], root, base)
  {
    ScanOne(g, m.nums, m.P, m.Live(), m.added, scanned, v);
  }

  /** The search meets an edge from `v` to the live node `w` and drops every start after `w`. */
  ghost predicate MayMerge(g: Graph, m: Marks, v: Node, w: Node, k: nat) {
    && Tops(m, v) && v in m.Live() && w in m.Live() && Edge(g, v, w)
    && 1 <= k <= |m.P| && m.nums[m.P[k - 1]] <= m.nums[w]
    && forall i :: k <= i < |m.P| ==> m.nums[m.P[i]] > m.nums[w]
  }

  lemma MergeShape(g: Graph, m: Marks, scanned: map<Node, nat>, open: set<Node>, v: Node, w: Node, k: nat)
    requires Shape(g, m, scanned, open) && MayMerge(g, m, v, w, k)
    ensures Shape(g, m.(P := m.P[..k]), scanned, open)
    ensures Leads(m.nums, m.P[..k], m.added, v, w)
  {
    forall i | 0 <= i < k
      ensures m.nums[m.P[i]] <= m.nums[w]
    {
      assert i == k - 1 || m.nums[m.P[i]] < m.nums[m.P[k - 1]];
    }
  }

  lemma MergeMeaning(g: Graph, m: Marks, scanned: map<Node, nat>, root: Node, base: nat, v: Node, w: Node, k: nat)
    requires Meaning(g, m, scanned, root, base) && MayMerge(g, m, v, w, k)
    ensures Meaning(g, m.(P := m.P[..k]), scanned, root, base)
  {
    MergeReaches(g, m.nums, m.P, m.Live(), v, w, k);
    FewerStarts(g, m.nums, m.P, m.P[..k], m.Live(), m.added, scanned);
  }

  /** The marks once the segment from `S[i]` on has become a component. */
  function Closed(m: Marks, i: nat, comp: set<Node>): Marks
    requires i <= |m.S| && m.P != []
  {
    m.(S := m.S[..i], P := m.P[..|m.P| - 1], added := m.added + comp,
    comps := if |comp| > 1 then m.comps + [comp] else m.comps)
  }

  ghost predicate MayClose(g: Graph, m: Marks, scanned: map<Node, nat>, open: set<Node>, v: Node, i: nat,
                           comp: set<Node>) {
    && i < |m.S| && m.S[i] == v && v in m.nums
    && m.P != [] && m.P[|m.P| - 1] == v
    && comp == Segment(m.S, i)
    && v !in open && v in scanned && v in g.out && scanned[v] == |g.out[v]|
    && forall n :: n in open ==> n in m.nums && m.nums[n] < m.nums[v]
  }

  ghost predicate FromNumber(nums: Numbers, live: set<Node>, v: Node, comp: set<Node>) {
    v in live && v in nums && forall n :: n in comp <==> n in live && n in nums && nums[n] >= nums[v]
  }

  lemma SegmentFrom(nums: Numbers, S: seq<Node>, live: set<Node>, i: nat)
    requires Lists(nums, S, live) && live <= nums.Keys && i < |S|
    ensures FromNumber(nums, live, S[i], Segment(S, i))
  {
    forall n
      ensures n in Segment(S, i) <==> n in live && n in nums && nums[n] >= nums[S[i]]
    {
      SegmentByNumber(nums, S, live, i, n);
    }
  }

  lemma DropSegmentStarts(nums: Numbers, P: seq<Node>, S: seq<Node>, live: set<Node>, i: nat, comp: set<Node>)
    requires Starts(nums, P, S, live) && i < |S| && P != [] && P[|P| - 1] == S[i]
    requires Lists(nums, S, live) && FromNumber(nums, live, S[i], comp)
    ensures Starts(nums, P[..|P| - 1], S[..i], live - comp)
  {
    assert i > 0 ==> nums[S[0]] < nums[S[i]];
  }

  lemma CloseShape(g: Graph, m: Marks, scanned: map<Node, nat>, open: set<Node>, v: Node, i: nat, comp: set<Node>)
    requires Shape(g, m, scanned, open + {v}) && MayClose(g, m, scanned, open, v, i, comp)
    ensures Shape(g, Closed(m, i, comp), scanned, open)
  {
    hide Lists, Starts, Numbered;
    SegmentFrom(m.nums, m.S, m.Live(), i);
    assert Closed(m, i, comp).Live() == m.Live() - comp;
    DropSegmentLists(m.nums, m.S, m.Live(), i, comp);
    DropSegmentStarts(m.nums, m.P, m.S, m.Live(), i, comp);
  }

  lemma CloseComponent(g: Graph, m: Marks, scanned: map<Node, nat>, open: set<Node>, v: Node, i: nat, comp: set<Node>)
    requires Shape(g, m, scanned, open + {v}) && MayClose(g, m, scanned, open, v, i, comp)
    requires ReachesAhead(g, m.nums, m.P, m.Live()) && EdgeClosed(g, m.added)
    requires ScannedAhead(g, m.nums, m.P, m.Live(), m.added, scanned)
    ensures FromNumber(m.nums, m.Live(), v, comp) && IsComponent(g, comp) && EdgeClosed(g, m.added + comp)
  {
    SegmentFrom(m.nums, m.S, m.Live(), i);
    SegmentClosed(g, m.nums, m.P, m.Live(), m.added, scanned, comp, v);
    SegmentIsComponent(g, m.nums, m.P, m.Live(), m.added, comp, v);
  }

  lemma CloseAhead(g: Graph, m: Marks, scanned: map<Node, nat>, v: Node, comp: set<Node>)
    requires ReachesAhead(g, m.nums, m.P, m.Live())
    requires ScannedAhead(g, m.nums, m.P, m.Live(), m.added, scanned)
    requires m.P != [] && m.P[|m.P| - 1] == v && FromNumber(m.nums, m.Live(), v, comp)
    ensures ReachesAhead(g, m.nums, m.P[..|m.P| - 1], m.Live() - comp)
    ensures ScannedAhead(g, m.nums, m.P[..|m.P| - 1], m.Live() - comp, m.added + comp, scanned)
  {
    DropSegmentReaches(g, m.nums, m.P, m.Live(), comp, v);
    DropSegmentScanned(g, m.nums, m.P, m.Live(), m.added, scanned, comp);
    FewerStarts(g, m.nums, m.P, m.P[..|m.P| - 1], m.Live() - comp, m.added + comp, scanned);
  }

  lemma CloseMeaning(g: Graph, m: Marks, scanned: map<Node, nat>, root: Node, base: nat, v: Node, i: nat,
                     comp: set<Node>)
    requires Meaning(g, m, scanned, root, base)
    requires i <= |m.S| && m.P != [] && m.P[|m.P| - 1] == v
    requires FromNumber(m.nums, m.Live(), v, comp) && IsComponent(g, comp) && EdgeClosed(g, m.added + comp)
    ensures Meaning(g, Closed(m, i, comp), scanned, root, base)
  {
    hide Components, ReachesAhead, ScannedAhead, IsComponent;
    var m' := Closed(m, i, comp);
    assert m'.Live() == m.Live() - comp;
    CloseAhead(g, m, scanned, v, comp);
    assert Components(g, m'.added, m'.comps[base..]) by {
      AddComponent(g, m.added, m.comps[base..], comp);
      assert (m.comps + [comp])[base..] == m.comps[base..] + [comp];
    }
  }

  lemma CloseInv(g: Graph, m: Marks, scanned: map<Node, nat>, root: Node, base: nat, open: set<Node>, v: Node,
                 i: nat, comp: set<Node>)
    requires Shape(g, m, scanned, open + {v}) && Meaning(g, m, scanned, root, base)
    requires MayClose(g, m, scanned, open, v, i, comp)
    ensures Shape(g, Closed(m, i, comp), scanned, open)
    ensures Meaning(g, Closed(m, i, comp), scanned, root, base)
  {
    hide Shape, ReachesAhead, ScannedAhead, Components, RootReaches, IsComponent, EdgeClosed, FromNumber;
    CloseShape(g, m, scanned, open, v, i, comp);
    CloseComponent(g, m, scanned, open, v, i, comp);
    CloseMeaning(g, m, scanned, root, base, v, i, comp);
  }

  /** What a call leaves to its caller: P cut back at most, S, the numbers and the components only extended. */
  ghost predicate Within(m: Marks, m': Marks) {
    && m'.P <= m.P && m.S <= m'.S && m.comps <= m'.comps && NumbersExtend(m, m')
  }

  ghost predicate NumbersExtend(m: Marks, m': Marks) {
    && m.num <= m'.num
    && m.nums.Keys <= m'.nums.Keys
    && (forall n :: n in m.nums ==> m'.nums[n] == m.nums[n])
    && (forall n :: n in m'.nums && n !in m.nums ==> m'.nums[n] >= m.num)
  }

  lemma WithinTops(m: Marks, m': Marks, v: Node)
    requires Tops(m, v) && Within(m, m')
    ensures Tops(m', v)
  {
    forall i | 0 <= i < |m'.P|
      ensures m'.P[i] in m'.nums && m'.nums[m'.P[i]] <= m'.nums[v]
    {
      assert m'.P[i] == m.P[i];
    }
  }

  lemma WithinTrans(m: Marks, m': Marks, m'': Marks)
    requires Within(m, m') && Within(m', m'')
    ensures Within(m, m'')
  {
  }

  lemma VisitTops(g: Graph, m: Marks, scanned: map<Node, nat>, open: set<Node>, v: Node)
    requires Shape(g, m, scanned, open) && v !in m.nums
    ensures Tops(Visited(m, v), v) && Numbered(g, m.nums, m.num)
    ensures v !in open && open <= m.nums.Keys && open <= scanned.Keys && (m.S == [] ==> m.P == [])
  {
    if m.P != [] {
      assert m.P[0] in m.Live();
    }
  }

  /** Leaving `v` with its segment closed or its start dropped. */
  lemma WithinLeave(g: Graph, m: Marks, m': Marks, v: Node)
    requires Numbered(g, m.nums, m.num) && v !in m.nums && NumbersExtend(Visited(m, v), m') && m.S <= m'.S &&
             m.comps <= m'.comps
    requires m'.P <= m.P + [v] && (m'.P != [] ==> m'.P[|m'.P| - 1] != v)
    ensures Within(m, m') && v in m'.nums
  {
    assert m'.P == (m.P + [v])[..|m'.P|];
  }

  /** An edge to a node that its own call has just numbered leads ahead. */
  lemma TreeEdgeLeads(g: Graph, m: Marks, m': Marks, v: Node, w: Node)
    requires Numbered(g, m.nums, m.num) && Within(m, m')
    requires v in m.nums && w !in m.nums && w in m'.nums
    ensures Leads(m'.nums, m'.P, m'.added, v, w)
  {
  }

  lemma LeaveShape(g: Graph, m: Marks, scanned: map<Node, nat>, open: set<Node>, v: Node)
    requires Shape(g, m, scanned, open + {v}) && scanned[v] == |g.out[v]|
    ensures Shape(g, m, scanned, open)
  {
  }

  lemma ShapeFacts(g: Graph, m: Marks, scanned: map<Node, nat>, open: set<Node>, v: Node)
    requires Shape(g, m, scanned, open) && v in open
    ensures v in m.Live() && v in scanned && v in g.out && Numbered(g, m.nums, m.num)
    ensures g.Valid() && m.P != [] && m.added <= m.nums.Keys && open <= scanned.Keys
    ensures Lists(m.nums, m.S, m.Live()) && Starts(m.nums, m.P, m.S, m.Live())
  {
  }

  lemma MayCloseAt(g: Graph, m0: Marks, m: Marks, scanned: map<Node, nat>, open: set<Node>, v: Node)
    requires Numbered(g, m0.nums, m0.num) && v !in m0.nums && Within(Visited(m0, v), m) && open <= m0.nums.Keys
    requires v in scanned && v in g.out && scanned[v] == |g.out[v]|
    requires m.P != [] && m.P[|m.P| - 1] == v
    ensures |m0.S| < |m.S| && MayClose(g, m, scanned, open, v, |m0.S|, Segment(m.S, |m0.S|))
  {
    assert m.S[|m0.S|] == (m0.S + [v])[|m0.S|] == v;
  }

  lemma CloseWithin(g: Graph, m0: Marks, m: Marks, v: Node, comp: set<Node>)
    requires Numbered(g, m0.nums, m0.num) && v !in m0.nums && Within(Visited(m0, v), m)
    requires m.P != [] && m.P[|m.P| - 1] == v && |m0.S| <= |m.S|
    requires Starts(m.nums, m.P, m.S, m.Live())
    ensures Within(m0, Closed(m, |m0.S|, comp)) && v in m.nums
    ensures Closed(m, |m0.S|, comp).S == m0.S
  {
    var m' := Closed(m, |m0.S|, comp);
    assert m.S[..|m0.S|] == (m0.S + [v])[..|m0.S|] == m0.S;
    WithinLeave(g, m0, m', v);
  }

  lemma LeaveWithin(g: Graph, m0: Marks, m: Marks, v: Node)
    requires Numbered(g, m0.nums, m0.num) && v !in m0.nums && Within(Visited(m0, v), m)
    requires m.P != [] && m.P[|m.P| - 1] != v
    ensures Within(m0, m) && v in m.nums && m0.P != []
  {
    WithinLeave(g, m0, m, v);
  }

  /** The running calls of `open` have scanned no further edge. */
  ghost predicate Untouched(open: set<Node>, scanned: map<Node, nat>, scanned': map<Node, nat>) {
    forall n :: n in open ==> n in scanned && n in scanned' && scanned'[n] == scanned[n]
  }

  lemma UntouchedBut(open: set<Node>, scanned: map<Node, nat>, v: Node, k: nat, scanned': map<Node, nat>)
    requires v !in open && open <= scanned.Keys && Untouched(open, scanned[v := k], scanned')
    ensures Untouched(open, scanned, scanned')
  {
  }

  /** The lookup `nums[n]` of a Go map: 0 for a node that was never visited. */
  function Num(nums: Numbers, n: Node): int {
    if n in nums then nums[n] else 0
  }

  /** `cs` holds exactly the components of two or more nodes that `root` reaches, each once. */
  ghost predicate AllComponents(g: Graph, root: Node, cs: seq<set<Node>>) {
    && (forall i, n :: 0 <= i < |cs| && n in cs[i] ==> Reach(g, root, n))
    && (forall i :: 0 <= i < |cs| ==> IsComponent(g, cs[i]) && |cs[i]| > 1)
    && (forall i, j :: 0 <= i < j < |cs| ==> cs[i] !! cs[j])
    && (forall C, n :: IsComponent(g, C) && |C| > 1 && n in C && Reach(g, root, n) ==> C in cs)
  }

  lemma SearchComplete(g: Graph, m: Marks, scanned: map<Node, nat>, root: Node, base: nat)
    requires Shape(g, m, scanned, {}) && Meaning(g, m, scanned, root, base) && m.S == [] && root in m.nums
    ensures AllComponents(g, root, m.comps[base..])
  {
    hide IsComponent, Starts, ReachesAhead, ScannedAhead, ScanCounts, Numbered;
    forall n | n in m.nums
      ensures n in m.added
    {
      assert n in m.Live() ==> n in m.S;
    }
    forall n | Reach(g, root, n)
      ensures n in m.added
    {
      ReachInClosed(g, root, n, m.added);
    }
  }

  /** Every node of a valid graph lies in a component. */
  lemma ComponentOf(g: Graph, n: Node) returns (C: set<Node>)
    requires g.Valid() && n in g.out
    ensures n in C && IsComponent(g, C)
    ensures forall k :: k in C <==> Mutual(g, n, k)
  {
    C := set k | k in g.out && Mutual(g, n, k);
    ReachRefl(g, n);
    forall k
      ensures k in C <==> Mutual(g, n, k)
    {
      if Mutual(g, n, k) {
        ReachInClosed(g, n, k, g.out.Keys);
      }
    }
    forall x, y | x in C
      ensures y in C <==> Mutual(g, x, y)
    {
      if y in C {
        ReachTrans(g, x, n, y);
        ReachTrans(g, y, n, x);
      } else if Mutual(g, x, y) {
        ReachTrans(g, n, x, y);
        ReachTrans(g, y, x, n);
      }
    }
  }

  /** `n` can call itself again through some other function. */
  ghost predicate MutuallyRecursive(g: Graph, n: Node) {
    exists k :: k != n && Mutual(g, n, k)
  }

  ghost predicate InSome(cs: seq<set<Node>>, n: Node) {
    exists i :: 0 <= i < |cs| && n in cs[i]
  }

  lemma InSomeSplit(cs: seq<set<Node>>, ds: seq<set<Node>>, n: Node)
    requires cs <= ds
    ensures InSome(ds, n) <==> InSome(cs, n) || InSome(ds[|cs|..], n)
  {
    var es := ds[|cs|..];
    if InSome(ds, n) {
      var i :| 0 <= i < |ds| && n in ds[i];
      assert if i < |cs| then n in cs[i] else n in es[i - |cs|];
    }
    if InSome(cs, n) {
      var i :| 0 <= i < |cs| && n in cs[i];
      assert n in ds[i];
    }
    if InSome(es, n) {
      var i :| 0 <= i < |es| && n in es[i];
      assert n in ds[|cs| + i];
    }
  }

  lemma FreshInv(g: Graph, m: Marks, root: Node)
    requires g.Valid() && root in g.out && m.nums == map[] && m.added == {} && m.num == 1 && m.P == [] && m.S == []
    ensures Shape(g, m, map[], {}) && Meaning(g, m, map[], root, |m.comps|) && MayVisit(g, m, root, {}, root, root)
  {
  }

  /** The components mark exactly the reachable nodes that are mutually recursive with another one. */
  lemma MarkedAreRecursive(g: Graph, root: Node, cs: seq<set<Node>>, n: Node)
    requires g.Valid() && root in g.out && AllComponents(g, root, cs)
    ensures InSome(cs, n) <==> Reach(g, root, n) && MutuallyRecursive(g, n)
  {
    if InSome(cs, n) {
      var i :| 0 <= i < |cs| && n in cs[i];
      if cs[i] <= {n} {
        SubsetSize(cs[i], {n});
        assert false;
      }
      var k :| k in cs[i] && k != n;
      assert Mutual(g, n, k);
    } else if Reach(g, root, n) && MutuallyRecursive(g, n) {
      ReachInClosed(g, root, n, g.out.Keys);
      var C := ComponentOf(g, n);
      var k :| k != n && Mutual(g, n, k);
      assert {n, k} <= C;
      SubsetSize({n, k}, C);
      assert false;
    }
  }

  class Analyser {
    const g: Graph
    var ms: Marks
    var nomemo: set<Node>
    ghost var scanned: map<Node, nat>

    constructor (g: Graph)
      ensures this.g == g && ms.comps == [] && nomemo == {}
    {
      this.g := g;
      ms := Marks([], [], map[], {}, 0, []);
      nomemo := {};
      scanned := map[];
    }

    /** The inner loop over P: drops every start numbered above `w`. */
    method DropStarts(v: Node, w: Node, ghost open: set<Node>) returns (ghost k: nat)
      requires Shape(g, ms, scanned, open) && Tops(ms, v) && v in ms.Live() && w in ms.Live() && Edge(g, v, w)
      modifies this`ms
      ensures k <= |old(ms).P| && ms == old(ms).(P := old(ms).P[..k])
      ensures MayMerge(g, old(ms), v, w, k)
    {
      k := |ms.P|;
      assert w in ms.S;
      assert ms.nums[ms.P[0]] <= ms.nums[w];
      while ms.nums[ms.P[|ms.P| - 1]] > ms.nums[w]
        invariant 1 <= k <= |old(ms).P| && ms == old(ms).(P := old(ms).P[..k])
        invariant forall i :: k <= i < |old(ms).P| ==> ms.nums[old(ms).P[i]] > ms.nums[w]
        decreases k
      {
        ms := ms.(P := ms.P[..|ms.P| - 1]);
        k := k - 1;
      }
    }

    /** The loop that pops S down to and including `v`; it panics on a node it already popped. */
    method PopComponent(v: Node, ghost i: nat, ghost live: set<Node>) returns (newcomp: set<Node>)
      requires i < |ms.S| && ms.S[i] == v && Lists(ms.nums, ms.S, live)
      modifies this`ms
      ensures ms == old(ms).(S := old(ms).S[..i])
      ensures newcomp == Segment(old(ms).S, i)
    {
      newcomp := {};
      ghost var S := ms.S;
      while true
        invariant i < |ms.S| <= |S| && ms == old(ms).(S := S[..|ms.S|])
        invariant newcomp == Segment(S, |ms.S|)
        decreases |ms.S|
      {
        ghost var k := |ms.S| - 1;
        var nn := ms.S[|ms.S| - 1];
        ms := ms.(S := ms.S[..|ms.S| - 1]);
        if nn in newcomp {
          assert false; // panic("double add")
        }
        assert S[k..] == [nn] + S[k + 1..];
        newcomp := newcomp + {nn};
        if nn == v {
          assert k == i;
          break;
        }
      }
    }

    method MarkStrong1(node: Node, ghost root: Node, ghost base: nat, ghost u: Node, ghost open: set<Node>)
      requires Shape(g, ms, scanned, open) && Meaning(g, ms, scanned, root, base)
      requires MayVisit(g, ms, root, open, u, node)
      modifies this`ms, this`scanned
      ensures Shape(g, ms, scanned, open) && Meaning(g, ms, scanned, root, base)
      ensures Within(old(ms), ms) && node in ms.nums
      ensures Untouched(open, old(scanned), scanned)
      ensures open == {} ==> ms.S == []
      decreases g.out.Keys - ms.nums.Keys, 0
    {
      hide Shape, Meaning, Within, Untouched;
      var mn := Num(ms.nums, node);
      if mn != 0 {
        assert false; // panic("visit twice")
      }
      VisitTops(g, ms, scanned, open, node);
      VisitShape(g, ms, scanned, root, open, u, node);
      VisitMeaning(g, ms, scanned, root, base, open, u, node);
      ms := ms.(nums := ms.nums[node := ms.num], num := ms.num + 1, S := ms.S + [node], P := ms.P + [node]);
      scanned := scanned[node := 0];
      assert ms == Visited(old(ms), node);
      ScanEdges(node, root, base, open);
      UntouchedBut(open, old(scanned), node, 0, scanned);
      Finish(node, root, base, open, old(ms));
    }

    /** The loop over the out-edges of `node`. */
    method ScanEdges(node: Node, ghost root: Node, ghost base: nat, ghost open: set<Node>)
      requires Shape(g, ms, scanned, open + {node}) && Meaning(g, ms, scanned, root, base)
      requires node !in open && Tops(ms, node) && scanned[node] == 0
      modifies this`ms, this`scanned
      ensures Shape(g, ms, scanned, open + {node}) && Meaning(g, ms, scanned, root, base)
      ensures Within(old(ms), ms) && scanned[node] == |g.out[node]|
      ensures Untouched(open, old(scanned), scanned)
      decreases g.out.Keys - ms.nums.Keys, 2
    {
      hide Shape, Meaning;
      ShapeFacts(g, ms, scanned, open + {node}, node);
      for j := 0 to |g.out[node]|
        invariant Shape(g, ms, scanned, open + {node}) && Meaning(g, ms, scanned, root, base)
        invariant Within(old(ms), ms) && node in scanned && scanned[node] == j
        invariant Untouched(open, old(scanned), scanned)
      {
        WithinTops(old(ms), ms, node);
        ghost var m := ms;
        ScanEdge(node, j, root, base, open);
        WithinTrans(old(ms), m, ms);
      }
    }

    method ScanEdge(node: Node, j: nat, ghost root: Node, ghost base: nat, ghost open: set<Node>)
      requires Shape(g, ms, scanned, open + {node}) && Meaning(g, ms, scanned, root, base)
      requires node !in open && Tops(ms, node) && scanned[node] == j < |g.out[node]|
      modifies this`ms, this`scanned
      ensures Shape(g, ms, scanned, open + {node}) && Meaning(g, ms, scanned, root, base)
      ensures Within(old(ms), ms) && node in scanned && scanned[node] == j + 1
      ensures Untouched(open, old(scanned), scanned)
      decreases g.out.Keys - ms.nums.Keys, 1
    {
      hide Shape, Meaning, Starts, Lists;
      ghost var open' := open + {node};
      ShapeFacts(g, ms, scanned, open', node);
      var callee := g.out[node][j];
      var wnum := Num(ms.nums, callee);
      ghost var m := ms;
      if wnum == 0 {
        MarkStrong1(callee, root, base, node, open');
        TreeEdgeLeads(g, m, ms, node, callee);
      } else if callee !in ms.added {
        ghost var k := DropStarts(node, callee, open');
        MergeShape(g, m, scanned, open', node, callee, k);
        MergeMeaning(g, m, scanned, root, base, node, callee, k);
      }
      ScanInv(g, ms, scanned, root, base, open', node);
      scanned := scanned[node := scanned[node] + 1];
    }

    /** What follows the loop: a node that starts its segment makes it a component. */
    method Finish(node: Node, ghost root: Node, ghost base: nat, ghost open: set<Node>, ghost m0: Marks)
      requires Shape(g, ms, scanned, open + {node}) && Meaning(g, ms, scanned, root, base)
      requires node !in open && scanned[node] == |g.out[node]|
      requires Numbered(g, m0.nums, m0.num) && node !in m0.nums && Within(Visited(m0, node), ms)
      requires open <= m0.nums.Keys
      modifies this`ms
      ensures Shape(g, ms, scanned, open) && Meaning(g, ms, scanned, root, base)
      ensures Within(m0, ms) && node in ms.nums
      ensures m0.P == [] ==> ms.S == m0.S
    {
      hide Shape, Meaning, Within, Starts, Lists, MayClose, Visited, Numbered;
      ghost var m := ms;
      ShapeFacts(g, m, scanned, open + {node}, node);
      if ms.P[|ms.P| - 1] == node {
        MayCloseAt(g, m0, m, scanned, open, node);
        var newcomp := PopComponent(node, |m0.S|, ms.Live());
        CloseInv(g, m, scanned, root, base, open, node, |m0.S|, newcomp);
        CloseWithin(g, m0, m, node, newcomp);
        ms := ms.(added := ms.added + newcomp);
        if |newcomp| > 1 {
          ms := ms.(comps := ms.comps + [newcomp]);
        }
        ms := ms.(P := ms.P[..|ms.P| - 1]);
        assert ms == Closed(m, |m0.S|, newcomp);
      } else {
        LeaveShape(g, ms, scanned, open, node);
        LeaveWithin(g, m0, ms, node);
      }
    }

    /** Marks from `root`; false stands for the panic on a function that is not in the graph. */
    method MarkStrong(root: Node) returns (ok: bool)
      requires g.Valid()
      modifies this
      ensures ok <==> root in g.out
      ensures ok ==> old(ms.comps) <= ms.comps
      ensures ok ==> AllComponents(g, root, ms.comps[|old(ms.comps)|..])
      ensures ok ==> forall n :: n in nomemo <==>
                (n in old(nomemo) || InSome(old(ms.comps), n) || (Reach(g, root, n) && MutuallyRecursive(g, n)))
    {
      ms := ms.(num := 1, nums := map[], added := {}, P := [], S := []);
      scanned := map[];
      if root !in g.out {
        return false;
      }
      ghost var comps := ms.comps;
      FreshInv(g, ms, root);
      MarkStrong1(root, root, |comps|, root, {});
      SearchComplete(g, ms, scanned, root, |comps|);
      MarkNoMemo();
      forall n
        ensures n in nomemo <==> n in old(nomemo) || InSome(comps, n) || (Reach(g, root, n) && MutuallyRecursive(g, n))
      {
        InSomeSplit(comps, ms.comps, n);
        MarkedAreRecursive(g, root, ms.comps[|comps|..], n);
      }
      return true;
    }

    method MarkNoMemo()
      modifies this`nomemo
      ensures forall n :: n in nomemo <==> n in old(nomemo) || InSome(ms.comps, n)
    {
      for i := 0 to |ms.comps|
        invariant forall n :: n in nomemo <==> n in old(nomemo) || InSome(ms.comps[..i], n)
      {
        nomemo := nomemo + ms.comps[i];
        forall n
          ensures InSome(ms.comps[..i + 1], n) <==> InSome(ms.comps[..i], n) || n in ms.comps[i]
        {
          InSomeSplit(ms.comps[..i], ms.comps[..i + 1], n);
        }
      }
      assert ms.comps[..|ms.comps|] == ms.comps;
    }
  }
}
