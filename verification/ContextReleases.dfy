/** What a cancellation gives back: the place among the children of a live context, and the timer. */
module ContextReleases {
  import opened Options
  import opened Contexts

  /** The context that cancels `c` is canceled. */
  ghost predicate ParentDone(tree: Tree, nodes: seq<Ctx>, c: nat)
    requires ValidTree(tree)
  {
    Up(tree, c).Some? && Up(tree, c).value < |nodes| && nodes[Up(tree, c).value].err.Some?
  }

  /** `g` is timerCtx.cancel on `c`. */
  predicate TimerOn(g: Frame, c: nat) {
    g.Timer? && g.c == c
  }

  /** A call that cancels one context only, called by `prev` if there is one, has its reason on the stack or above. */
  ghost predicate Founded(tree: Tree, nodes: seq<Ctx>, ready: set<nat>, prev: Option<Frame>, g: Frame)
    requires ValidTree(tree)
  {
    match g
    case Core(c, _, remove, _) =>
      && (c in ready || ParentDone(tree, nodes, c))
      && (remove || ParentDone(tree, nodes, c) || (prev.Some? && TimerOn(prev.value, c) && prev.value.remove))
      && (IsCancel(tree, c) && tree[c].timed ==> prev.Some? && TimerOn(prev.value, c))
    case Timer(c, _, remove, _) => (c in ready || ParentDone(tree, nodes, c)) && (remove || ParentDone(tree, nodes, c))
    case Register(_, c, pc) => prev == None && (c in ready <==> pc.Linked?)
    case Arm(c, _) => IsCancel(tree, c) && tree[c].timed
    case _ => true
  }

  function Prev(st: seq<Frame>, i: nat): Option<Frame>
    requires i <= |st|
  {
    if i == 0 then None else Some(st[i - 1])
  }

  ghost predicate StackFounded(tree: Tree, nodes: seq<Ctx>, ready: set<nat>, st: seq<Frame>)
    requires ValidTree(tree)
  {
    forall i :: 0 <= i < |st| ==> Founded(tree, nodes, ready, Prev(st, i), st[i])
  }

  ghost predicate AllFounded(tree: Tree, nodes: seq<Ctx>, ready: set<nat>, threads: seq<seq<Frame>>)
    requires ValidTree(tree)
  {
    forall t :: 0 <= t < |threads| ==> StackFounded(tree, nodes, ready, threads[t])
  }

  predicate Differ(st: seq<Frame>, st': seq<Frame>) {
    st != [] && st' != [] && st[0].Register? && st'[0].Register? ==> st[0].c != st'[0].c
  }

  /** Only one call derives a context. */
  ghost predicate Unique(threads: seq<seq<Frame>>) {
    forall t, u :: 0 <= t < |threads| && 0 <= u < |threads| && t != u ==> Differ(threads[t], threads[u])
  }

  /** A context that nobody may use yet has an error only from above. */
  ghost predicate Untouched(tree: Tree, nodes: seq<Ctx>, ready: set<nat>)
    requires ValidTree(tree)
  {
    forall c :: 0 <= c < |nodes| && c !in ready && nodes[c].err.Some? ==> ParentDone(tree, nodes, c)
  }

  /** A call that will take `c` out of the children of its parent. */
  predicate Owes(g: Frame, c: nat) {
    match g
    case Core(d, _, remove, pc) => d == c && remove && (pc.Closing? || pc.Loop?)
    case Timer(d, _, remove, pc) => d == c && remove && (pc.Begin? || pc.AwaitCore?)
    case Remove(_, d, _) => d == c
    case _ => false
  }

  ghost predicate Owed(threads: seq<seq<Frame>>, c: nat) {
    exists t, i :: 0 <= t < |threads| && 0 <= i < |threads[t]| && Owes(threads[t][i], c)
  }

  ghost predicate Stopping(threads: seq<seq<Frame>>, c: nat) {
    exists t, i :: 0 <= t < |threads| && 0 <= i < |threads[t]| && TimerOn(threads[t][i], c)
  }

  /** A canceled context is listed by a live one only as long as a call is about to change that. */
  ghost predicate Listed(nodes: seq<Ctx>, threads: seq<seq<Frame>>) {
    forall p, c :: 0 <= p < |nodes| && 0 <= c < |nodes| && c in nodes[p].children && nodes[c].err.Some? ==>
        nodes[p].err.Some? || Owed(threads, c)
  }

  /** Only contexts with a deadline have a timer, and a canceled one only as long as a call is about to stop it. */
  ghost predicate Timed(tree: Tree, nodes: seq<Ctx>, threads: seq<seq<Frame>>) {
    forall c :: 0 <= c < |nodes| && nodes[c].timer ==>
        IsCancel(tree, c) && tree[c].timed && (nodes[c].err.Some? ==> Stopping(threads, c))
  }

  ghost predicate ReleaseInv(tree: Tree, s: State)
    requires ValidTree(tree)
  {
    && s.ready <= s.made
    && AllFounded(tree, s.nodes, s.ready, s.threads)
    && Unique(s.threads)
    && Untouched(tree, s.nodes, s.ready)
    && Listed(s.nodes, s.threads)
    && Timed(tree, s.nodes, s.threads)
  }

  // ----- One frame's step

  /** No step takes back an error. */
  ghost predicate ErrsStay(nodes: seq<Ctx>, nodes': seq<Ctx>) {
    |nodes| == |nodes'| && forall n :: 0 <= n < |nodes| && nodes[n].err.Some? ==> nodes'[n].err == nodes[n].err
  }

  lemma FoundedStays(tree: Tree, nodes: seq<Ctx>, nodes': seq<Ctx>, ready: set<nat>, ready': set<nat>,
                     prev: Option<Frame>, g: Frame)
    requires ValidTree(tree) && Founded(tree, nodes, ready, prev, g) && ErrsStay(nodes, nodes') && ready <= ready'
    requires g.Register? ==> (g.c in ready <==> g.c in ready')
    ensures Founded(tree, nodes', ready', prev, g)
  {
  }

  /** What a step puts in the place of `f` is founded, too. */
  ghost predicate StepsFounded(tree: Tree, nodes: seq<Ctx>, ready: set<nat>, prev: Option<Frame>, fs: seq<Frame>)
    requires ValidTree(tree)
  {
    && |fs| <= 2
    && (fs != [] ==> Founded(tree, nodes, ready, prev, fs[0]))
    && (|fs| == 2 ==> Founded(tree, nodes, ready, Some(fs[0]), fs[1]))
  }

  function ReadyAfter(ready: set<nat>, f: Frame): set<nat> {
    if f.Register? && f.register.Await? then ready + {f.c} else ready
  }

  lemma CoreFounded(tree: Tree, nodes: seq<Ctx>, ready: set<nat>, prev: Option<Frame>, t: nat, f: Frame, x: Ctx,
                    fs: seq<Frame>)
    requires ValidTree(tree) && MayStep(tree, nodes, t, f, x, fs) && Founded(tree, nodes, ready, prev, f)
    requires f.Core? && !Wants(f)
    ensures StepsFounded(tree, nodes[NodeOf(f) := x], ready, prev, fs)
  {
    hide Calm, TopOk;
    if f.core.Loop? && f.core.rem != {} {
      var d := fs[1].c;
      assert ChildrenOk(tree, f.c, nodes[f.c].children) && d in nodes[f.c].children && Up(tree, d) == Some(f.c);
      assert ParentDone(tree, nodes[NodeOf(f) := x], d);
    }
  }

  lemma TimerFounded(tree: Tree, nodes: seq<Ctx>, ready: set<nat>, prev: Option<Frame>, t: nat, f: Frame, x: Ctx,
                     fs: seq<Frame>)
    requires ValidTree(tree) && MayStep(tree, nodes, t, f, x, fs) && Founded(tree, nodes, ready, prev, f)
    requires f.Timer? && !Wants(f)
    ensures StepsFounded(tree, nodes[NodeOf(f) := x], ready, prev, fs)
  {
    hide Calm, TopOk;
  }

  lemma RegisterFounded(tree: Tree, nodes: seq<Ctx>, ready: set<nat>, prev: Option<Frame>, t: nat, f: Frame, x: Ctx,
                        fs: seq<Frame>)
    requires ValidTree(tree) && MayStep(tree, nodes, t, f, x, fs) && Founded(tree, nodes, ready, prev, f)
    requires f.Register? && !Wants(f)
    ensures StepsFounded(tree, nodes[NodeOf(f) := x], ReadyAfter(ready, f), prev, fs)
  {
    hide Calm, TopOk;
  }

  lemma AcquireFounded(tree: Tree, nodes: seq<Ctx>, ready: set<nat>, prev: Option<Frame>, t: nat, f: Frame, x: Ctx,
                       fs: seq<Frame>)
    requires ValidTree(tree) && MayStep(tree, nodes, t, f, x, fs) && Founded(tree, nodes, ready, prev, f)
    requires Wants(f) || f.Remove? || f.Lazy? || f.Arm?
    ensures StepsFounded(tree, nodes[NodeOf(f) := x], ready, prev, fs)
  {
    hide Calm, TopOk, NodesOk;
  }

  lemma StepFounded(tree: Tree, nodes: seq<Ctx>, ready: set<nat>, prev: Option<Frame>, t: nat, f: Frame, x: Ctx,
                    fs: seq<Frame>)
    requires ValidTree(tree) && MayStep(tree, nodes, t, f, x, fs) && Founded(tree, nodes, ready, prev, f)
    ensures NodeOf(f) < |nodes| && StepsFounded(tree, nodes[NodeOf(f) := x], ReadyAfter(ready, f), prev, fs)
  {
    FrameNode(tree, nodes, t, f);
    hide MayStep, StepsFounded, Founded;
    if Wants(f) {
      AcquireFounded(tree, nodes, ready, prev, t, f, x, fs);
    } else {
      match f
      case Core(_, _, _, _) => CoreFounded(tree, nodes, ready, prev, t, f, x, fs);
      case Timer(_, _, _, _) => TimerFounded(tree, nodes, ready, prev, t, f, x, fs);
      case Register(_, _, _) => RegisterFounded(tree, nodes, ready, prev, t, f, x, fs);
      case _ => AcquireFounded(tree, nodes, ready, prev, t, f, x, fs);
    }
  }

  // ----- The rest of the state

  lemma OwnFounded(tree: Tree, nodes: seq<Ctx>, nodes': seq<Ctx>, ready: set<nat>, ready': set<nat>,
                   below: seq<Frame>, f: Frame, fs: seq<Frame>)
    requires ValidTree(tree) && StackFounded(tree, nodes, ready, below + [f])
    requires ErrsStay(nodes, nodes') && ready' == ReadyAfter(ready, f)
    requires StepsFounded(tree, nodes', ready', Prev(below, |below|), fs)
    ensures StackFounded(tree, nodes', ready', below + fs)
  {
    hide Founded, ErrsStay;
    var st, st' := below + [f], below + fs;
    assert st[|below|] == f && Founded(tree, nodes, ready, Prev(st, |below|), f);
    forall i | 0 <= i < |st'|
      ensures Founded(tree, nodes', ready', Prev(st', i), st'[i])
    {
      if i < |below| {
        assert st[i] == st'[i] == below[i] && Prev(st, i) == Prev(st', i);
        RegisterFirst(tree, nodes, ready, Prev(st, |below|), f);
        FoundedStays(tree, nodes, nodes', ready, ready', Prev(st, i), st[i]);
      } else if i == |below| {
        assert Prev(st', i) == Prev(below, |below|);
      }
    }
  }

  lemma RegisterFirst(tree: Tree, nodes: seq<Ctx>, ready: set<nat>, prev: Option<Frame>, f: Frame)
    requires ValidTree(tree) && Founded(tree, nodes, ready, prev, f)
    ensures f.Register? ==> prev == None
  {
  }

  lemma OtherFounded(tree: Tree, nodes: seq<Ctx>, nodes': seq<Ctx>, ready: set<nat>, ready': set<nat>, st: seq<Frame>)
    requires ValidTree(tree) && StackFounded(tree, nodes, ready, st) && ErrsStay(nodes, nodes') && ready <= ready'
    requires st != [] && st[0].Register? ==> (st[0].c in ready <==> st[0].c in ready')
    ensures StackFounded(tree, nodes', ready', st)
  {
    hide Founded, ErrsStay;
    forall i | 0 <= i < |st|
      ensures Founded(tree, nodes', ready', Prev(st, i), st[i])
    {
      assert Founded(tree, nodes, ready, Prev(st, i), st[i]);
      RegisterFirst(tree, nodes, ready, Prev(st, i), st[i]);
      FoundedStays(tree, nodes, nodes', ready, ready', Prev(st, i), st[i]);
    }
  }

  /** What a step may add to a context: an error, a child or a timer. */
  lemma StepAdds(tree: Tree, nodes: seq<Ctx>, t: nat, f: Frame, x: Ctx, fs: seq<Frame>)
    requires ValidTree(tree) && MayStep(tree, nodes, t, f, x, fs)
    ensures var n := nodes[NodeOf(f)];
            && (n.err.Some? ==> x.err == n.err)
            && (x.err.Some? && n.err == None ==> f.Core? && fs == [f.(core := Closing)])
            && (forall d :: d in x.children && d !in n.children ==>
                  f.Register? && f.register.LinkHeld? && d == f.c && n.err == None)
            && (x.timer && !n.timer ==> f.Arm? && x.err == None)
            && (f.Timer? ==> fs == [] ==> !x.timer)
            && (f.Timer? && fs != [] ==> TimerOn(fs[0], f.c))
            && (fs != [] && fs[0].Register? ==> f.Register? && f.c == fs[0].c)
  {
    hide Calm, TopOk, CoreOk;
  }

  /** A call that owes a removal goes on owing it until it is done. */
  lemma OwesOn(tree: Tree, nodes: seq<Ctx>, t: nat, f: Frame, x: Ctx, fs: seq<Frame>, c: nat) returns (k: nat)
    requires ValidTree(tree) && MayStep(tree, nodes, t, f, x, fs) && Owes(f, c) && Up(tree, c).Some?
    ensures if f.Remove? && f.held then NodeOf(f) == Up(tree, c).value && c !in x.children
            else k < |fs| && Owes(fs[k], c)
  {
    hide Calm, TopOk, CoreOk, NodesOk;
    k := if |fs| == 2 && Owes(fs[1], c) then 1 else 0;
  }

  /** Where a goroutine's stack was and is the same. */
  lemma OwedStays(threads: seq<seq<Frame>>, t: nat, below: seq<Frame>, f: Frame, fs: seq<Frame>, c: nat)
    requires t < |threads| && threads[t] == below + [f] && Owed(threads, c)
    ensures Owed(threads[t := below + fs], c) || Owes(f, c)
  {
    var u, i :| 0 <= u < |threads| && 0 <= i < |threads[u]| && Owes(threads[u][i], c);
    if u != t || i < |below| {
      assert threads[t := below + fs][u][i] == threads[u][i];
    }
  }

  lemma OwedBy(threads: seq<seq<Frame>>, t: nat, i: nat, c: nat)
    requires t < |threads| && i < |threads[t]| && Owes(threads[t][i], c)
    ensures Owed(threads, c)
  {
  }

  lemma StoppingStays(threads: seq<seq<Frame>>, t: nat, below: seq<Frame>, f: Frame, fs: seq<Frame>, c: nat)
    requires t < |threads| && threads[t] == below + [f] && Stopping(threads, c)
    requires TimerOn(f, c) ==> fs != [] && TimerOn(fs[0], c)
    ensures Stopping(threads[t := below + fs], c)
  {
    var u, i :| 0 <= u < |threads| && 0 <= i < |threads[u]| && TimerOn(threads[u][i], c);
    var threads' := threads[t := below + fs];
    if u != t || i < |below| {
      assert threads'[u][i] == threads[u][i];
    } else {
      assert threads'[t][|below|] == fs[0];
    }
  }

  /** A child that gets its error: who called for that still owes its removal, or its parent is canceled. */
  lemma NewlyOwed(tree: Tree, nodes: seq<Ctx>, ready: set<nat>, threads: seq<seq<Frame>>, t: nat, below: seq<Frame>,
                  f: Frame, p: nat)
    requires ValidTree(tree) && f.Core? && f.core.Held? && Up(tree, f.c) == Some(p) && p < |nodes|
    requires t < |threads| && threads[t] == below + [f.(core := Closing)]
    requires Founded(tree, nodes, ready, Prev(below, |below|), f)
    requires below != [] ==> Calls(below[|below| - 1], f)
    ensures nodes[p].err.Some? || Owed(threads, f.c)
  {
    if f.remove {
      assert threads[t][|below|] == f.(core := Closing);
      OwedBy(threads, t, |below|, f.c);
    } else if !ParentDone(tree, nodes, f.c) {
      assert threads[t][|below| - 1] == below[|below| - 1];
      OwedBy(threads, t, |below| - 1, f.c);
    }
  }

  /** The facts about the call that runs. */
  ghost predicate Running(tree: Tree, s: State, t: nat, below: seq<Frame>, f: Frame, x: Ctx, fs: seq<Frame>)
    requires ValidTree(tree)
  {
    && MayStep(tree, s.nodes, t, f, x, fs) && NodesOk(tree, s.nodes)
    && t < |s.threads| && s.threads[t] == below + [f]
    && Founded(tree, s.nodes, s.ready, Prev(below, |below|), f)
    && (below != [] ==> Calls(below[|below| - 1], f))
  }

  lemma RunListed(tree: Tree, s: State, t: nat, below: seq<Frame>, f: Frame, x: Ctx, fs: seq<Frame>)
    requires ValidTree(tree) && Running(tree, s, t, below, f, x, fs)
    requires Listed(s.nodes, s.threads) && Untouched(tree, s.nodes, s.ready)
    ensures Listed(s.nodes[NodeOf(f) := x], s.threads[t := below + fs])
  {
    var nodes, n := s.nodes, NodeOf(f);
    var nodes', threads' := nodes[n := x], s.threads[t := below + fs];
    StepAdds(tree, nodes, t, f, x, fs);
    forall p, c | 0 <= p < |nodes'| && 0 <= c < |nodes'| && c in nodes'[p].children && nodes'[c].err.Some?
      ensures nodes'[p].err.Some? || Owed(threads', c)
    {
      if c in nodes[p].children {
        ListedOne(tree, s, t, below, f, x, fs, p, c);
      } else {
        NotLinkedLate(tree, s, t, below, f, x, fs, p, c);
      }
    }
  }

  lemma ListedOne(tree: Tree, s: State, t: nat, below: seq<Frame>, f: Frame, x: Ctx, fs: seq<Frame>, p: nat, c: nat)
    requires ValidTree(tree) && Running(tree, s, t, below, f, x, fs) && Listed(s.nodes, s.threads)
    requires p < |s.nodes| && c < |s.nodes| && c in s.nodes[p].children
    requires var nodes' := s.nodes[NodeOf(f) := x]; c in nodes'[p].children && nodes'[c].err.Some?
    ensures s.nodes[NodeOf(f) := x][p].err.Some? || Owed(s.threads[t := below + fs], c)
  {
    hide MayStep, Founded, Calls, Owed;
    StepAdds(tree, s.nodes, t, f, x, fs);
    assert ChildrenOk(tree, p, s.nodes[p].children);
    if s.nodes[c].err.Some? {
      if s.nodes[p].err == None {
        OwedStays(s.threads, t, below, f, fs, c);
        if Owes(f, c) {
          var k := OwesOn(tree, s.nodes, t, f, x, fs, c);
          if k < |fs| && Owes(fs[k], c) {
            assert s.threads[t := below + fs][t][|below| + k] == fs[k];
            OwedBy(s.threads[t := below + fs], t, |below| + k, c);
          }
        }
      }
    } else {
      CoreIsHeld(tree, s.nodes, t, f, x, fs);
      NewlyOwed(tree, s.nodes, s.ready, s.threads[t := below + fs], t, below, f, p);
    }
  }

  lemma CoreIsHeld(tree: Tree, nodes: seq<Ctx>, t: nat, f: Frame, x: Ctx, fs: seq<Frame>)
    requires ValidTree(tree) && MayStep(tree, nodes, t, f, x, fs)
    requires x.err.Some? && nodes[NodeOf(f)].err == None
    ensures f.Core? && f.core.Held? && f.c == NodeOf(f)
  {
    hide Calm, TopOk, CoreOk;
  }

  /** A context has no error when it is linked to a live one. */
  lemma NotLinkedLate(tree: Tree, s: State, t: nat, below: seq<Frame>, f: Frame, x: Ctx, fs: seq<Frame>, p: nat, c: nat)
    requires ValidTree(tree) && Running(tree, s, t, below, f, x, fs) && Untouched(tree, s.nodes, s.ready)
    requires p < |s.nodes| && c < |s.nodes| && c !in s.nodes[p].children
    requires c in s.nodes[NodeOf(f) := x][p].children
    ensures s.nodes[NodeOf(f) := x][c].err == None
  {
    StepAdds(tree, s.nodes, t, f, x, fs);
    assert Up(tree, c) == Some(p) && c !in s.ready;
  }

  lemma RunTimed(tree: Tree, s: State, t: nat, below: seq<Frame>, f: Frame, x: Ctx, fs: seq<Frame>)
    requires ValidTree(tree) && Running(tree, s, t, below, f, x, fs) && Timed(tree, s.nodes, s.threads)
    ensures Timed(tree, s.nodes[NodeOf(f) := x], s.threads[t := below + fs])
  {
    var nodes, n := s.nodes, NodeOf(f);
    var nodes', threads' := nodes[n := x], s.threads[t := below + fs];
    StepAdds(tree, nodes, t, f, x, fs);
    hide MayStep, Stopping, NodesOk;
    forall c | 0 <= c < |nodes'| && nodes'[c].timer
      ensures IsCancel(tree, c) && tree[c].timed && (nodes'[c].err.Some? ==> Stopping(threads', c))
    {
      if nodes[c].timer && nodes[c].err.Some? {
        StoppingStays(s.threads, t, below, f, fs, c);
      } else if nodes[c].timer && nodes'[c].err.Some? {
        assert threads'[t][|below| - 1] == below[|below| - 1];
        StoppedBy(threads', t, |below| - 1, c);
      }
    }
  }

  lemma StoppedBy(threads: seq<seq<Frame>>, t: nat, i: nat, c: nat)
    requires t < |threads| && i < |threads[t]| && TimerOn(threads[t][i], c)
    ensures Stopping(threads, c)
  {
  }

  lemma RunUntouched(tree: Tree, s: State, t: nat, below: seq<Frame>, f: Frame, x: Ctx, fs: seq<Frame>)
    requires ValidTree(tree) && Running(tree, s, t, below, f, x, fs) && Untouched(tree, s.nodes, s.ready)
    ensures ErrsStay(s.nodes, s.nodes[NodeOf(f) := x])
    ensures Untouched(tree, s.nodes[NodeOf(f) := x], ReadyAfter(s.ready, f))
  {
    StepAdds(tree, s.nodes, t, f, x, fs);
    hide MayStep, NodesOk;
  }

  lemma RunUnique(tree: Tree, s: State, t: nat, below: seq<Frame>, f: Frame, x: Ctx, fs: seq<Frame>)
    requires ValidTree(tree) && Running(tree, s, t, below, f, x, fs) && Unique(s.threads)
    ensures Unique(s.threads[t := below + fs])
    ensures forall u :: 0 <= u < |s.threads| && u != t && s.threads[u] != [] && s.threads[u][0].Register? && f.Register?
              ==> s.threads[u][0].c != f.c
  {
    StepAdds(tree, s.nodes, t, f, x, fs);
    RegisterFirst(tree, s.nodes, s.ready, Prev(below, |below|), f);
    hide MayStep, NodesOk, Founded, Calls;
    var threads' := s.threads[t := below + fs];
    forall u | 0 <= u < |s.threads| && u != t
      ensures Differ(threads'[t], s.threads[u]) && Differ(s.threads[u], threads'[t])
      ensures Differ(s.threads[u], s.threads[t])
    {
      assert Differ(s.threads[t], s.threads[u]);
      assert below != [] && below + fs != [] ==> (below + fs)[0] == (below + [f])[0];
    }
    forall u | 0 <= u < |s.threads| && u != t && s.threads[u] != [] && s.threads[u][0].Register? && f.Register?
      ensures s.threads[u][0].c != f.c
    {
      assert Differ(s.threads[u], s.threads[t]) && (below + [f])[0] == f;
    }
  }

  lemma RunFounded(tree: Tree, s: State, t: nat, below: seq<Frame>, f: Frame, x: Ctx, fs: seq<Frame>)
    requires ValidTree(tree) && Running(tree, s, t, below, f, x, fs) && Unique(s.threads)
    requires AllFounded(tree, s.nodes, s.ready, s.threads) && ErrsStay(s.nodes, s.nodes[NodeOf(f) := x])
    ensures AllFounded(tree, s.nodes[NodeOf(f) := x], ReadyAfter(s.ready, f), s.threads[t := below + fs])
  {
    FrameNode(tree, s.nodes, t, f);
    hide StackFounded, StepsFounded, MayStep, Founded, ErrsStay, Calls;
    var nodes', ready', threads' := s.nodes[NodeOf(f) := x], ReadyAfter(s.ready, f), s.threads[t := below + fs];
    RunUnique(tree, s, t, below, f, x, fs);
    StepFounded(tree, s.nodes, s.ready, Prev(below, |below|), t, f, x, fs);
    forall u | 0 <= u < |s.threads|
      ensures StackFounded(tree, nodes', ready', threads'[u])
    {
      if u == t {
        OwnFounded(tree, s.nodes, nodes', s.ready, ready', below, f, fs);
      } else {
        OtherFounded(tree, s.nodes, nodes', s.ready, ready', s.threads[u]);
      }
    }
  }

  lemma RunsNow(tree: Tree, s: State, s': State, t: nat, below: seq<Frame>, f: Frame, x: Ctx, fs: seq<Frame>)
    requires ValidTree(tree) && Inv(tree, s) && Run(tree, s, s', t, below, f, x, fs)
    requires StackFounded(tree, s.nodes, s.ready, s.threads[t])
    ensures Running(tree, s, t, below, f, x, fs)
  {
    hide LocksOk, Covered, FromReady, PastOk, FrameStep, FrameOk, TopOk, Founded, Calls, RegistersMade;
    TopOfStack(tree, s.nodes, t, below, f);
    var st := below + [f];
    assert StackOk(tree, s.nodes, t, st) && st[|below|] == f;
    assert Founded(tree, s.nodes, s.ready, Prev(st, |below|), st[|below|]) && Prev(st, |below|) == Prev(below, |below|);
    if below != [] {
      assert Calls(st[|below| - 1], st[|below|]) && st[|below| - 1] == below[|below| - 1];
    }
  }

  lemma RunReleases(tree: Tree, s: State, s': State, t: nat, below: seq<Frame>, f: Frame, x: Ctx, fs: seq<Frame>)
    requires ValidTree(tree) && Inv(tree, s) && ReleaseInv(tree, s) && Run(tree, s, s', t, below, f, x, fs)
    ensures ReleaseInv(tree, s')
  {
    RunsNow(tree, s, s', t, below, f, x, fs);
    if f.Register? && f.register.Await? {
      RegistersOf(s.threads[t], s.made, below, f);
    }
    hide Inv, Running, AllFounded, Unique, Untouched, Listed, Timed, FrameStep;
    RunUntouched(tree, s, t, below, f, x, fs);
    RunFounded(tree, s, t, below, f, x, fs);
    RunUnique(tree, s, t, below, f, x, fs);
    RunListed(tree, s, t, below, f, x, fs);
    RunTimed(tree, s, t, below, f, x, fs);
  }

  // ----- Taking up a call

  /** An idle goroutine takes up a call; some contexts may become usable at once. */
  lemma StartReleases(tree: Tree, s: State, s': State, t: nat, fs: seq<Frame>)
    requires ValidTree(tree) && ReleaseInv(tree, s) && t < |s.threads| && s.threads[t] == [] && |fs| <= 1
    requires s'.nodes == s.nodes && s'.threads == s.threads[t := fs] && s.ready <= s'.ready <= s'.made
    requires fs != [] ==> Founded(tree, s.nodes, s'.ready, None, fs[0])
    requires forall u :: 0 <= u < |s.threads| && s.threads[u] != [] && s.threads[u][0].Register? ==>
               (s.threads[u][0].c in s.ready <==> s.threads[u][0].c in s'.ready) && Differ(fs, s.threads[u])
    ensures ReleaseInv(tree, s')
  {
    hide Founded;
    forall u | 0 <= u < |s.threads|
      ensures StackFounded(tree, s'.nodes, s'.ready, s'.threads[u])
    {
      if u != t {
        OtherFounded(tree, s.nodes, s'.nodes, s.ready, s'.ready, s.threads[u]);
      }
    }
    forall c | Owed(s.threads, c)
      ensures Owed(s'.threads, c)
    {
      var u, i :| 0 <= u < |s.threads| && 0 <= i < |s.threads[u]| && Owes(s.threads[u][i], c);
      OwedBy(s'.threads, u, i, c);
    }
    forall c | Stopping(s.threads, c)
      ensures Stopping(s'.threads, c)
    {
      var u, i :| 0 <= u < |s.threads| && 0 <= i < |s.threads[u]| && TimerOn(s.threads[u][i], c);
      StoppedBy(s'.threads, u, i, c);
    }
  }

  lemma CallReleases(tree: Tree, s: State, s': State, t: nat, c: nat, e: Error)
    requires ValidTree(tree) && ReleaseInv(tree, s) && StartCall(tree, s, s', t, c, e)
    ensures ReleaseInv(tree, s')
  {
    hide StackFounded, Unique, Untouched, Listed, Timed;
    StartReleases(tree, s, s', t, s'.threads[t]);
  }

  /** The context that a call derives is not usable by itself: it has a context above it. */
  lemma RegisterKnown(tree: Tree, s: State, u: nat)
    requires ValidTree(tree) && Inv(tree, s) && u < |s.threads| && s.threads[u] != [] && s.threads[u][0].Register?
    ensures s.threads[u][0].c in s.made && Up(tree, s.threads[u][0].c).Some?
  {
    hide LocksOk, Covered, FromReady, PastOk, NodesOk;
    assert FrameOk(tree, s.nodes, u, s.threads[u][0]);
  }

  lemma DeriveReleases(tree: Tree, s: State, s': State, t: nat, c: nat, fs: seq<Frame>)
    requires ValidTree(tree) && Inv(tree, s) && ReleaseInv(tree, s) && StartDerive(tree, s, s', t, c, fs)
    ensures ReleaseInv(tree, s')
  {
    hide Inv, StackFounded, Unique, Untouched, Listed, Timed;
    var gs := s'.threads[t];
    forall u | 0 <= u < |s.threads| && s.threads[u] != [] && s.threads[u][0].Register?
      ensures (s.threads[u][0].c in s.ready <==> s.threads[u][0].c in s'.ready) && Differ(gs, s.threads[u])
    {
      RegisterKnown(tree, s, u);
    }
    StartReleases(tree, s, s', t, gs);
  }

  lemma ReleaseNext(tree: Tree, s: State, s': State)
    requires ValidTree(tree) && Inv(tree, s) && ReleaseInv(tree, s) && Next(tree, s, s')
    ensures ReleaseInv(tree, s')
  {
    hide Inv, ReleaseInv, Run, StartCall, StartDerive;
    if t, below, f, x, fs :| Run(tree, s, s', t, below, f, x, fs) {
      RunReleases(tree, s, s', t, below, f, x, fs);
    } else if t, c, e :| StartCall(tree, s, s', t, c, e) {
      CallReleases(tree, s, s', t, c, e);
    } else {
      var t, c, fs :| StartDerive(tree, s, s', t, c, fs);
      DeriveReleases(tree, s, s', t, c, fs);
    }
  }

  lemma {:induction false} TraceReleases(tree: Tree, run: seq<State>, i: nat)
    requires ValidTree(tree) && Trace(tree, run) && i < |run|
    ensures ReleaseInv(tree, run[i])
  {
    if i == 0 {
      assert Init(tree, run[0]);
    } else {
      hide Inv, Next, Init, ReleaseInv;
      TraceReleases(tree, run, i - 1);
      TraceInv(tree, run, i - 1);
      ReleaseNext(tree, run[i - 1], run[i]);
    }
  }

  /**
   * In every run, when no call is in progress, a canceled context has no children and no timer, and no context lists
   * it as a child.
   */
  lemma CancelReleases(tree: Tree, run: seq<State>, i: nat, c: nat)
    requires ValidTree(tree) && Trace(tree, run) && i < |run| && c < |run[i].nodes| && run[i].nodes[c].err.Some?
    requires forall t :: 0 <= t < |run[i].threads| ==> run[i].threads[t] == []
    ensures run[i].nodes[c].children == {} && !run[i].nodes[c].timer
    ensures forall p :: 0 <= p < |run[i].nodes| ==> c !in run[i].nodes[p].children
  {
    hide Next, Init, StacksOk, Covered, FromReady, PastOk;
    TraceInv(tree, run, i);
    TraceReleases(tree, run, i);
    AllFree(run[i].nodes, run[i].threads);
  }

  lemma AllFree(nodes: seq<Ctx>, threads: seq<seq<Frame>>)
    requires LocksOk(nodes, threads) && forall t :: 0 <= t < |threads| ==> threads[t] == []
    ensures forall n :: 0 <= n < |nodes| ==> nodes[n].lock == None
  {
  }

  /** In every run a context whose WithDeadline has returned in time has its timer running, until it is canceled. */
  lemma DeadlineArmed(tree: Tree, run: seq<State>, i: nat, c: nat)
    requires ValidTree(tree) && Trace(tree, run) && i < |run| && c in run[i].past.armed
    ensures c < |run[i].nodes| && (run[i].nodes[c].timer || run[i].nodes[c].err.Some?)
  {
    hide Next, Init, StacksOk, Covered, FromReady;
    TraceInv(tree, run, i);
  }

  /** In every run a context whose Done has returned has its channel, closed just when it is canceled. */
  lemma DoneGiven(tree: Tree, run: seq<State>, i: nat, c: nat)
    requires ValidTree(tree) && Trace(tree, run) && i < |run| && c in run[i].past.watched
    ensures c < |run[i].nodes| && run[i].nodes[c].done != NoChan
    ensures run[i].nodes[c].lock == None ==> (run[i].nodes[c].done == ClosedChan <==> run[i].nodes[c].err.Some?)
  {
    hide Next, Init, StacksOk, Covered, FromReady;
    TraceInv(tree, run, i);
  }
}
