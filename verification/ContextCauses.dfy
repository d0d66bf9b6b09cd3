/** Why contexts are canceled, and what cancellation gives back. */
module ContextCauses {
  import opened Options
  import opened Contexts

  // ----- Why a context is canceled

  /** `n`, or a context that it was derived from, was asked to cancel with `e`. */
  ghost predicate Caused(tree: Tree, asked: set<Request>, n: nat, e: Error)
    requires ValidTree(tree)
  {
    exists a: nat :: Request(a, e) in asked && DerivedFrom(tree, a, n)
  }

  ghost predicate FrameCaused(tree: Tree, asked: set<Request>, f: Frame)
    requires ValidTree(tree)
  {
    f.Core? || f.Timer? ==> Caused(tree, asked, f.c, f.err)
  }

  /** Only contexts that can be canceled are asked to, and deadlines pass only where there is one. */
  ghost predicate AskedOk(tree: Tree, asked: set<Request>) {
    forall q :: q in asked ==> IsCancel(tree, q.c) && (q.err == DeadlineExceeded ==> tree[q.c].timed)
  }

  ghost predicate CauseInv(tree: Tree, s: State)
    requires ValidTree(tree)
  {
    && (forall n :: 0 <= n < |s.nodes| && s.nodes[n].err.Some? ==> Caused(tree, s.past.asked, n, s.nodes[n].err.value))
    && (forall t, i :: 0 <= t < |s.threads| && 0 <= i < |s.threads[t]| ==>
          FrameCaused(tree, s.past.asked, s.threads[t][i]))
    && AskedOk(tree, s.past.asked)
  }

  lemma {:induction false} DerivedTrans(tree: Tree, a: nat, b: nat, c: nat)
    requires ValidTree(tree) && DerivedFrom(tree, a, b) && DerivedFrom(tree, b, c)
    ensures DerivedFrom(tree, a, c)
    decreases c
  {
    if b != c {
      DerivedTrans(tree, a, b, tree[c].parent);
    }
  }

  lemma {:induction false} OwnerDerived(tree: Tree, c: nat)
    requires ValidTree(tree) && c < |tree| && Owner(tree, c).Some?
    ensures DerivedFrom(tree, Owner(tree, c).value, c)
  {
    if tree[c].Value? {
      OwnerDerived(tree, tree[c].parent);
    }
  }

  /** What cancels a context cancels those below it. */
  lemma CausedBelow(tree: Tree, asked: set<Request>, c: nat, e: Error)
    requires ValidTree(tree) && Up(tree, c).Some? && Caused(tree, asked, Up(tree, c).value, e)
    ensures Caused(tree, asked, c, e)
  {
    hide DerivedFrom;
    var p := Up(tree, c).value;
    OwnerDerived(tree, tree[c].parent);
    ParentDerived(tree, p, c);
    var a: nat :| Request(a, e) in asked && DerivedFrom(tree, a, p);
    DerivedTrans(tree, a, p, c);
  }

  lemma ParentDerived(tree: Tree, a: nat, c: nat)
    requires ValidTree(tree) && c < |tree| && !tree[c].Empty? && DerivedFrom(tree, a, tree[c].parent)
    ensures DerivedFrom(tree, a, c)
  {
  }

  lemma CausedMore(tree: Tree, asked: set<Request>, more: set<Request>, n: nat, e: Error)
    requires ValidTree(tree) && asked <= more && Caused(tree, asked, n, e)
    ensures Caused(tree, more, n, e)
  {
  }

  lemma CausedSelf(tree: Tree, asked: set<Request>, n: nat, e: Error)
    requires ValidTree(tree) && Request(n, e) in asked
    ensures Caused(tree, asked, n, e)
  {
    assert DerivedFrom(tree, n, n);
  }

  /** One step of a call passes on only an error that it was given. */
  lemma StepCaused(tree: Tree, nodes: seq<Ctx>, past: History, t: nat, f: Frame, x: Ctx, fs: seq<Frame>, last: bool)
    requires ValidTree(tree) && MayStep(tree, nodes, t, f, x, fs) && FrameCaused(tree, past.asked, f)
    requires forall n :: 0 <= n < |nodes| && nodes[n].err.Some? ==> Caused(tree, past.asked, n, nodes[n].err.value)
    ensures var asked := Recorded(past, f, fs, last).asked;
            && (x.err.Some? ==> Caused(tree, asked, NodeOf(f), x.err.value))
            && forall i :: 0 <= i < |fs| ==> FrameCaused(tree, asked, fs[i])
  {
    hide Caused, Calm, TopOk;
    var asked := Recorded(past, f, fs, last).asked;
    if x.err.Some? && x.err == nodes[NodeOf(f)].err {
      CausedMore(tree, past.asked, asked, NodeOf(f), x.err.value);
    }
    if f.Core? || f.Timer? {
      assert ChildrenOk(tree, NodeOf(f), nodes[NodeOf(f)].children);
      if |fs| == 2 && (fs[1].Core? || fs[1].Timer?) && fs[1].c != f.c {
        CausedBelow(tree, asked, fs[1].c, f.err);
      }
    } else if f.Register? && f.register.LinkHeld? && nodes[f.p].err.Some? {
      CausedBelow(tree, asked, f.c, nodes[f.p].err.value);
    } else if f.Register? && fs != [] && fs[0].Timer? {
      CausedSelf(tree, asked, f.c, DeadlineExceeded);
    }
  }

  lemma RunCaused(tree: Tree, s: State, s': State, t: nat, below: seq<Frame>, f: Frame, x: Ctx, fs: seq<Frame>)
    requires ValidTree(tree) && Inv(tree, s) && CauseInv(tree, s) && Run(tree, s, s', t, below, f, x, fs)
    ensures CauseInv(tree, s')
  {
    hide Caused, FrameStep, FrameOk, StackOk, LocksOk, Covered, FromReady, PastOk, RegistersMade;
    TopOfStack(tree, s.nodes, t, below, f);
    assert s.threads[t][|below|] == f && FrameCaused(tree, s.past.asked, f);
    StepCaused(tree, s.nodes, s.past, t, f, x, fs, below + fs == []);
    PassedIsTimed(tree, s.nodes, t, f, x, fs);
    CausedStay(tree, s, s'.past.asked);
    forall u, i | 0 <= u < |s'.threads| && 0 <= i < |s'.threads[u]|
      ensures FrameCaused(tree, s'.past.asked, s'.threads[u][i])
    {
      if u != t || i < |below| {
        assert s'.threads[u][i] == s.threads[u][i];
      } else {
        assert s'.threads[u][i] == fs[i - |below|];
      }
    }
  }

  lemma PassedIsTimed(tree: Tree, nodes: seq<Ctx>, t: nat, f: Frame, x: Ctx, fs: seq<Frame>)
    requires ValidTree(tree) && MayStep(tree, nodes, t, f, x, fs)
    ensures f.Register? && fs != [] && fs[0].Timer? ==> IsCancel(tree, f.c) && tree[f.c].timed
  {
  }

  /** More requests take no cause away. */
  lemma CausedStay(tree: Tree, s: State, more: set<Request>)
    requires ValidTree(tree) && CauseInv(tree, s) && s.past.asked <= more
    ensures forall n :: 0 <= n < |s.nodes| && s.nodes[n].err.Some? ==> Caused(tree, more, n, s.nodes[n].err.value)
    ensures forall t, i :: 0 <= t < |s.threads| && 0 <= i < |s.threads[t]| ==> FrameCaused(tree, more, s.threads[t][i])
  {
    hide Caused;
    forall n | 0 <= n < |s.nodes| && s.nodes[n].err.Some?
      ensures Caused(tree, more, n, s.nodes[n].err.value)
    {
      CausedMore(tree, s.past.asked, more, n, s.nodes[n].err.value);
    }
    forall t, i | 0 <= t < |s.threads| && 0 <= i < |s.threads[t]|
      ensures FrameCaused(tree, more, s.threads[t][i])
    {
      var f := s.threads[t][i];
      assert FrameCaused(tree, s.past.asked, f);
      if f.Core? || f.Timer? {
        CausedMore(tree, s.past.asked, more, f.c, f.err);
      }
    }
  }

  /** A goroutine that takes up a call. */
  lemma StartCaused(tree: Tree, s: State, s': State, t: nat, fs: seq<Frame>)
    requires ValidTree(tree) && CauseInv(tree, s) && t < |s.threads| && s'.nodes == s.nodes
    requires s'.threads == s.threads[t := fs] && s.past.asked <= s'.past.asked && AskedOk(tree, s'.past.asked)
    requires forall i :: 0 <= i < |fs| ==> FrameCaused(tree, s'.past.asked, fs[i])
    ensures CauseInv(tree, s')
  {
    hide FrameCaused, Caused, AskedOk;
    CausedStay(tree, s, s'.past.asked);
  }

  lemma CauseNext(tree: Tree, s: State, s': State)
    requires ValidTree(tree) && Inv(tree, s) && CauseInv(tree, s) && Next(tree, s, s')
    ensures CauseInv(tree, s')
  {
    hide Inv, CauseInv, Run, StartCall, StartDerive;
    if t, below, f, x, fs :| Run(tree, s, s', t, below, f, x, fs) {
      RunCaused(tree, s, s', t, below, f, x, fs);
    } else if t, c, e :| StartCall(tree, s, s', t, c, e) {
      CallCaused(tree, s, s', t, c, e);
    } else {
      var t, c, fs :| StartDerive(tree, s, s', t, c, fs);
      DeriveCaused(tree, s, s', t, c, fs);
    }
  }

  lemma CallCaused(tree: Tree, s: State, s': State, t: nat, c: nat, e: Error)
    requires ValidTree(tree) && CauseInv(tree, s) && StartCall(tree, s, s', t, c, e)
    ensures CauseInv(tree, s')
  {
    hide CauseInv, Caused;
    CauseAsked(tree, s);
    var fs := s'.threads[t];
    if fs != [Lazy(c, false)] {
      CausedSelf(tree, s'.past.asked, c, e);
    }
    StartCaused(tree, s, s', t, fs);
  }

  lemma CauseAsked(tree: Tree, s: State)
    requires ValidTree(tree) && CauseInv(tree, s)
    ensures AskedOk(tree, s.past.asked)
  {
  }

  lemma DeriveCaused(tree: Tree, s: State, s': State, t: nat, c: nat, fs: seq<Frame>)
    requires ValidTree(tree) && CauseInv(tree, s) && StartDerive(tree, s, s', t, c, fs)
    ensures CauseInv(tree, s')
  {
    hide CauseInv, Caused;
    CauseAsked(tree, s);
    var gs := s'.threads[t];
    if gs != [] && gs[0].Timer? {
      CausedSelf(tree, s'.past.asked, c, DeadlineExceeded);
    }
    StartCaused(tree, s, s', t, gs);
  }

  lemma {:induction false} TraceCaused(tree: Tree, run: seq<State>, i: nat)
    requires ValidTree(tree) && Trace(tree, run) && i < |run|
    ensures CauseInv(tree, run[i])
  {
    if i == 0 {
      assert Init(tree, run[0]);
    } else {
      hide Inv, Next, Init, CauseInv;
      TraceCaused(tree, run, i - 1);
      TraceInv(tree, run, i - 1);
      CauseNext(tree, run[i - 1], run[i]);
    }
  }

  /**
   * In every run a context that has an error was asked to cancel with that error, or a context that it was derived
   * from was; and only a context with a deadline is asked to with DeadlineExceeded.
   */
  lemma CanceledForCause(tree: Tree, run: seq<State>, i: nat, n: nat)
    requires ValidTree(tree) && Trace(tree, run) && i < |run| && n < |run[i].nodes| && run[i].nodes[n].err.Some?
    ensures exists a: nat :: Request(a, run[i].nodes[n].err.value) in run[i].past.asked && DerivedFrom(tree, a, n)
    ensures forall q :: q in run[i].past.asked ==> IsCancel(tree, q.c) && (q.err == DeadlineExceeded ==>
                                                                            tree[q.c].timed)
  {
    hide Next, Init, DerivedFrom;
    TraceCaused(tree, run, i);
  }
}
