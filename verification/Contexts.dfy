/** Cancellation of contexts by any number of goroutines, as a transition system. */
module Contexts {
  import opened Options

  datatype Error = Canceled | DeadlineExceeded

  /** How a context was derived; a context's parent is always an earlier one. */
  datatype Kind = Empty | Value(parent: nat) | Cancel(parent: nat, timed: bool)

  /** Every context that a run will ever derive. Runs differ in when each of them is made. */
  type Tree = seq<Kind>

  ghost predicate ValidTree(tree: Tree) {
    forall i :: 0 <= i < |tree| && !tree[i].Empty? ==> tree[i].parent < i
  }

  predicate IsCancel(tree: Tree, c: nat) {
    c < |tree| && tree[c].Cancel?
  }

  /** `a` is `c` or an ancestor of it, with only value contexts below. */
  ghost predicate ValuesUpTo(tree: Tree, c: nat, a: nat)
    requires ValidTree(tree) && c < |tree|
  {
    a == c || (tree[c].Value? && ValuesUpTo(tree, tree[c].parent, a))
  }

  /** parentCancelCtx: the nearest context that can be canceled, from `c` upwards; none if a root comes first. */
  function Owner(tree: Tree, c: nat): (r: Option<nat>)
    requires ValidTree(tree) && c < |tree|
    ensures r.Some? ==> r.value <= c && IsCancel(tree, r.value) && ValuesUpTo(tree, c, r.value)
    ensures r == None ==> exists a :: 0 <= a <= c && ValuesUpTo(tree, c, a) && tree[a].Empty?
  {
    match tree[c]
    case Empty => None
    case Value(p) => Owner(tree, p)
    case Cancel(_, _) => Some(c)
  }

  /** The context whose cancellation cancels `c`. */
  function Up(tree: Tree, c: nat): (r: Option<nat>)
    requires ValidTree(tree)
    ensures r.Some? ==> r.value < c && IsCancel(tree, r.value) && IsCancel(tree, c)
  {
    if IsCancel(tree, c) then Owner(tree, tree[c].parent) else None
  }

  datatype Chan = NoChan | OpenChan | ClosedChan

  /** The fields of a cancelCtx or timerCtx that its mutex protects, and the mutex's holder. */
  datatype Ctx = Ctx(lock: Option<nat>, err: Option<Error>, done: Chan, children: set<nat>, timer: bool)

  /** What `for`-loops, calls and lock operations a goroutine is in the middle of. */
  datatype CorePc = Want | Held | Closing | Loop(rem: set<nat>, cur: Option<nat>)
  datatype TimerPc = Begin | AwaitCore | AwaitRemove | StopWant | StopHeld
  datatype RegisterPc = DoneWant | DoneHeld | LinkWant | LinkHeld | Await | Linked

  datatype Frame =
    | Core(c: nat, err: Error, remove: bool, core: CorePc)            // cancelCtx.cancel
    | Timer(c: nat, err: Error, remove: bool, timer: TimerPc)         // timerCtx.cancel
    | Remove(p: nat, c: nat, held: bool)                              // removeChild
    | Register(p: nat, c: nat, register: RegisterPc)                  // propagateCancel
    | Lazy(c: nat, held: bool)                                        // Done
    | Arm(c: nat, held: bool)                                         // the end of WithDeadline

  /** A cancel function was called, or a deadline has passed. */
  datatype Request = Request(c: nat, err: Error)

  /** What has happened so far: what was asked for; the contexts on which a call of the cancel function has returned,
      or one of Done; and those whose WithDeadline has returned before the deadline. */
  datatype History = History(asked: set<Request>, returned: set<nat>, watched: set<nat>, armed: set<nat>)

  /** `ready` holds the contexts that may be used, `made` those whose derivation has begun. */
  datatype State = State(nodes: seq<Ctx>, threads: seq<seq<Frame>>, made: set<nat>, ready: set<nat>, past: History)

  /** The one context whose mutex the frame is about. */
  function NodeOf(f: Frame): nat {
    match f
    case Remove(p, _, _) => p
    case Register(p, _, _) => p
    case _ => f.c
  }

  predicate Holds(f: Frame) {
    match f
    case Core(_, _, _, pc) => !pc.Want?
    case Timer(_, _, _, pc) => pc.StopHeld?
    case Remove(_, _, held) => held
    case Register(_, _, pc) => pc.DoneHeld? || pc.LinkHeld? || pc.Await? || pc.Linked?
    case Lazy(_, held) => held
    case Arm(_, held) => held
  }

  predicate Wants(f: Frame) {
    match f
    case Core(_, _, _, pc) => pc.Want?
    case Timer(_, _, _, pc) => pc.StopWant?
    case Remove(_, _, held) => !held
    case Register(_, _, pc) => pc.DoneWant? || pc.LinkWant?
    case Lazy(_, held) => !held
    case Arm(_, held) => !held
  }

  function CancelFrame(tree: Tree, c: nat, e: Error, remove: bool): Frame
    requires IsCancel(tree, c)
  {
    if tree[c].timed then Timer(c, e, remove, Begin) else Core(c, e, remove, Want)
  }

  /** The frame after its mutex has been taken. */
  function Acquired(f: Frame): Frame
    requires Wants(f)
  {
    match f
    case Core(c, e, rm, _) => Core(c, e, rm, Held)
    case Timer(c, e, rm, _) => Timer(c, e, rm, StopHeld)
    case Remove(p, c, _) => Remove(p, c, true)
    case Register(p, c, pc) => Register(p, c, if pc.DoneWant? then DoneHeld else LinkHeld)
    case Lazy(c, _) => Lazy(c, true)
    case Arm(c, _) => Arm(c, true)
  }

  /** `make(chan struct{})` when there is no channel yet. */
  function Made(d: Chan): Chan {
    if d == NoChan then OpenChan else d
  }

  /** One step of cancelCtx.cancel once the mutex is held: `x` is the context's new state, `fs` what replaces the
      frame. */
  ghost predicate CoreStep(tree: Tree, f: Frame, n: Ctx, x: Ctx, fs: seq<Frame>)
    requires ValidTree(tree) && f.Core? && Holds(f)
  {
    match f.core
    case Held =>
      if n.err.Some? then x == n.(lock := None) && fs == []
      else x == n.(err := Some(f.err)) && fs == [f.(core := Closing)]
    case Closing =>
      x == n.(done := ClosedChan) && fs == [f.(core := Loop(n.children, None))]
    case Loop(rem, _) =>
      if rem != {} then
        x == n && exists d :: d in rem && IsCancel(tree, d) &&
                              fs == [f.(core := Loop(rem - {d}, Some(d))), CancelFrame(tree, d, f.err, false)]
      else
        && x == n.(children := {}, lock := None)
        && fs == if f.remove && Up(tree, f.c).Some? then [Remove(Up(tree, f.c).value, f.c, false)] else []
  }

  ghost predicate TimerStep(tree: Tree, f: Frame, n: Ctx, x: Ctx, fs: seq<Frame>)
    requires ValidTree(tree) && f.Timer? && !Wants(f)
  {
    match f.timer
    case Begin => x == n && fs == [f.(timer := AwaitCore), Core(f.c, f.err, false, Want)]
    case AwaitCore =>
      x == n && fs == if f.remove && Up(tree, f.c).Some?
                      then [f.(timer := AwaitRemove), Remove(Up(tree, f.c).value, f.c, false)]
                      else [f.(timer := StopWant)]
    case AwaitRemove => x == n && fs == [f.(timer := StopWant)]
    case StopHeld => x == n.(timer := false, lock := None) && fs == []
  }

  /** The frames that may follow propagateCancel: WithCancel returns, WithDeadline goes on. */
  ghost predicate AfterRegister(tree: Tree, c: nat, fs: seq<Frame>)
    requires IsCancel(tree, c)
  {
    if tree[c].timed then fs == [Arm(c, false)] || fs == [Timer(c, DeadlineExceeded, true, Begin)] else fs == []
  }

  ghost predicate RegisterStep(tree: Tree, f: Frame, n: Ctx, x: Ctx, fs: seq<Frame>)
    requires ValidTree(tree) && f.Register? && Holds(f) && IsCancel(tree, f.c)
  {
    match f.register
    case DoneHeld => x == n.(done := Made(n.done), lock := None) && fs == [f.(register := LinkWant)]
    case LinkHeld =>
      if n.err.Some? then x == n && fs == [f.(register := Await), CancelFrame(tree, f.c, n.err.value, false)]
      else x == n.(children := n.children + {f.c}) && fs == [f.(register := Await)]
    case Await => x == n && fs == [f.(register := Linked)]
    case Linked => x == n.(lock := None) && AfterRegister(tree, f.c, fs)
  }

  /** One step of a goroutine whose innermost call is `f`. Only the context NodeOf(f) changes, to `x`. */
  ghost predicate FrameStep(tree: Tree, t: nat, f: Frame, n: Ctx, x: Ctx, fs: seq<Frame>)
    requires ValidTree(tree)
  {
    if Wants(f) then
      n.lock == None && x == n.(lock := Some(t)) && fs == [Acquired(f)]
    else
      match f
      case Core(_, _, _, _) => CoreStep(tree, f, n, x, fs)
      case Timer(_, _, _, _) => TimerStep(tree, f, n, x, fs)
      case Remove(_, c, _) => x == n.(children := n.children - {c}, lock := None) && fs == []
      case Register(_, c, _) => IsCancel(tree, c) && RegisterStep(tree, f, n, x, fs)
      case Lazy(_, _) => x == n.(done := Made(n.done), lock := None) && fs == []
      case Arm(_, _) => x == n.(timer := n.timer || n.err == None, lock := None) && fs == []
  }

  /** Innermost call last: `t` runs `f`, the calls in `below` wait for it. */
  ghost predicate Run(tree: Tree, s: State, s': State, t: nat, below: seq<Frame>, f: Frame, x: Ctx, fs: seq<Frame>)
    requires ValidTree(tree)
  {
    && t < |s.threads| && s.threads[t] == below + [f]
    && NodeOf(f) < |s.nodes| && FrameStep(tree, t, f, s.nodes[NodeOf(f)], x, fs)
    && s' == State(
               s.nodes[NodeOf(f) := x],
               s.threads[t := below + fs],
               s.made,
               if f.Register? && f.register.Await? then s.ready + {f.c} else s.ready,
               Recorded(s.past, f, fs, below + fs == []))
  }

  /** The history after a step from `f` to `fs`, which may be the last one of a goroutine's call. */
  function Recorded(past: History, f: Frame, fs: seq<Frame>, last: bool): History {
    History(
      if f.Register? && fs != [] && fs[0].Timer? then past.asked + {Request(f.c, DeadlineExceeded)} else past.asked,
      if last && (f.Core? || f.Timer? || f.Remove?) then past.returned + {f.c} else past.returned,
      if last && f.Lazy? then past.watched + {f.c} else past.watched,
      if last && f.Arm? then past.armed + {f.c} else past.armed)
  }

  /** Takes note that `c` is to be canceled with `e`. */
  function Asked(past: History, c: nat, e: Error): History {
    past.(asked := past.asked + {Request(c, e)})
  }

  /** An idle goroutine calls the cancel function of a usable context or its Done, or runs for a timer that fires. */
  ghost predicate StartCall(tree: Tree, s: State, s': State, t: nat, c: nat, e: Error) {
    && t < |s.threads| && s.threads[t] == []
    && c in s.ready && IsCancel(tree, c)
    && (|| (&& (e == DeadlineExceeded ==> tree[c].timed && c < |s.nodes| && s.nodes[c].timer)
            && s' == s.(threads := s.threads[t := [CancelFrame(tree, c, e, true)]], past := Asked(s.past, c, e)))
        || s' == s.(threads := s.threads[t := [Lazy(c, false)]]))
  }

  /** An idle goroutine derives `c` from a usable parent: WithCancel, WithDeadline, WithValue or Background. */
  ghost predicate StartDerive(tree: Tree, s: State, s': State, t: nat, c: nat, fs: seq<Frame>)
    requires ValidTree(tree)
  {
    && t < |s.threads| && s.threads[t] == []
    && c < |tree| && c !in s.made && (!tree[c].Empty? ==> tree[c].parent in s.ready)
    && if Up(tree, c).Some? then
         s' == s.(made := s.made + {c}, threads := s.threads[t := [Register(Up(tree, c).value, c, DoneWant)]])
       else
         && (if IsCancel(tree, c) then AfterRegister(tree, c, fs) else fs == [])
         && s' == s.(made := s.made + {c}, ready := s.ready + {c}, threads := s.threads[t := fs],
                     past := if fs != [] && fs[0].Timer? then Asked(s.past, c, DeadlineExceeded) else s.past)
  }

  ghost predicate Next(tree: Tree, s: State, s': State)
    requires ValidTree(tree)
  {
    || (exists t, below, f, x, fs :: Run(tree, s, s', t, below, f, x, fs))
    || (exists t, c, e :: StartCall(tree, s, s', t, c, e))
    || (exists t, c, fs :: StartDerive(tree, s, s', t, c, fs))
  }

  ghost predicate Init(tree: Tree, s: State) {
    && |s.nodes| == |tree|
    && (forall i :: 0 <= i < |s.nodes| ==> s.nodes[i] == Ctx(None, None, NoChan, {}, false))
    && (forall t :: 0 <= t < |s.threads| ==> s.threads[t] == [])
    && s.made == s.ready == {} && s.past == History({}, {}, {}, {})
  }

  ghost predicate Trace(tree: Tree, run: seq<State>)
    requires ValidTree(tree)
  {
    && run != [] && Init(tree, run[0])
    && forall i :: 0 <= i < |run| - 1 ==> Next(tree, run[i], run[i + 1])
  }

  // ----- The invariant

  /** Canceled, with nothing left to pass on. */
  predicate Settled(n: Ctx) {
    n.err.Some? && n.children == {}
  }

  /** No cancellation of this context is under way. */
  predicate Calm(n: Ctx) {
    && (n.done == ClosedChan <==> n.err.Some?)
    && (n.err.Some? ==> n.children == {})
  }

  ghost predicate CoreOk(nodes: seq<Ctx>, t: nat, f: Frame)
    requires f.Core?
  {
    f.core.Want? ||
    (&& f.c < |nodes| && nodes[f.c].lock == Some(t)
     && match f.core
        case Want => true
        case Held => Calm(nodes[f.c])
        case Closing => nodes[f.c].err.Some? && nodes[f.c].done != ClosedChan
        case Loop(rem, cur) =>
          && nodes[f.c].err.Some? && nodes[f.c].done == ClosedChan
          && rem <= nodes[f.c].children
          && (cur.Some? ==> cur.value in nodes[f.c].children)
          && forall d :: d in nodes[f.c].children && d !in rem && cur != Some(d) ==> d < |nodes| && Settled(nodes[d]))
  }

  /** What holds of a call in progress, wherever it is on its goroutine's stack. */
  ghost predicate FrameOk(tree: Tree, nodes: seq<Ctx>, t: nat, f: Frame)
    requires ValidTree(tree)
  {
    && |nodes| == |tree| && IsCancel(tree, NodeOf(f))
    && (Holds(f) ==> nodes[NodeOf(f)].lock == Some(t))
    && (Holds(f) && !f.Core? ==> Calm(nodes[NodeOf(f)]))
    && match f
       case Core(_, _, _, _) => CoreOk(nodes, t, f)
       case Timer(c, _, rm, pc) =>
         && tree[c].timed && (pc.AwaitRemove? ==> rm)
         && (pc.AwaitRemove? || pc.StopWant? || pc.StopHeld? ==> Settled(nodes[c]))
       case Remove(p, c, _) => c < |nodes| && Up(tree, c) == Some(p) && Settled(nodes[c])
       case Register(p, c, pc) =>
         && c < |nodes| && Up(tree, c) == Some(p)
         && (pc.Linked? ==> c in nodes[p].children || Settled(nodes[c]))
       case _ => true
  }

  predicate Cancels(g: Frame, c: nat) {
    (g.Core? || g.Timer?) && g.c == c && !g.remove
  }

  /** `f` has called `g` and waits for it. */
  ghost predicate Calls(f: Frame, g: Frame) {
    match f
    case Core(_, _, _, Loop(_, Some(d))) => Cancels(g, d)
    case Timer(c, _, _, AwaitCore) => Cancels(g, c) && g.Core?
    case Timer(c, _, _, AwaitRemove) => g.Remove? && g.c == c
    case Register(_, c, Await) => Cancels(g, c)
    case _ => false
  }

  /** What a call in progress may rely on once the call it made has returned. */
  ghost predicate TopOk(nodes: seq<Ctx>, f: Frame) {
    match f
    case Core(_, _, _, Loop(_, Some(d))) => d < |nodes| && Settled(nodes[d])
    case Timer(c, _, _, AwaitCore) => c < |nodes| && Settled(nodes[c])
    case Register(p, c, Await) => c < |nodes| && p < |nodes| && (c in nodes[p].children || Settled(nodes[c]))
    case _ => true
  }

  ghost predicate StackOk(tree: Tree, nodes: seq<Ctx>, t: nat, st: seq<Frame>)
    requires ValidTree(tree)
  {
    && (forall i :: 0 <= i < |st| ==> FrameOk(tree, nodes, t, st[i]))
    && (forall i :: 0 <= i < |st| - 1 ==> Calls(st[i], st[i + 1]))
    && (st != [] ==> TopOk(nodes, st[|st| - 1]))
  }

  ghost predicate HeldBy(st: seq<Frame>, n: nat) {
    exists i :: 0 <= i < |st| && Holds(st[i]) && NodeOf(st[i]) == n
  }

  /** A usable context is listed by the one that cancels it, or is itself settled. */
  ghost predicate Covered(tree: Tree, nodes: seq<Ctx>, ready: set<nat>)
    requires ValidTree(tree) && |nodes| == |tree|
  {
    forall d :: d in ready && Up(tree, d).Some? ==> d in nodes[Up(tree, d).value].children || Settled(nodes[d])
  }

  ghost predicate ChildrenOk(tree: Tree, n: nat, children: set<nat>)
    requires ValidTree(tree)
  {
    forall d :: d in children ==> d < |tree| && Up(tree, d) == Some(n)
  }

  ghost predicate NodesOk(tree: Tree, nodes: seq<Ctx>)
    requires ValidTree(tree)
  {
    && |nodes| == |tree|
    && (forall n :: 0 <= n < |nodes| ==> ChildrenOk(tree, n, nodes[n].children))
    && (forall n :: 0 <= n < |nodes| && nodes[n].lock == None ==> Calm(nodes[n]))
  }

  /** Every context in `cs` was derived from a usable one. */
  ghost predicate FromReady(tree: Tree, cs: set<nat>, ready: set<nat>) {
    forall d :: d in cs ==> d < |tree| && (!tree[d].Empty? ==> tree[d].parent in ready)
  }

  ghost predicate RegistersMade(st: seq<Frame>, made: set<nat>) {
    forall i :: 0 <= i < |st| && st[i].Register? ==> st[i].c in made
  }

  ghost predicate StacksOk(tree: Tree, s: State)
    requires ValidTree(tree)
  {
    forall t :: 0 <= t < |s.threads| ==> StackOk(tree, s.nodes, t, s.threads[t]) && RegistersMade(s.threads[t], s.made)
  }

  /** Whoever is recorded as holding a mutex has a call that holds it. */
  ghost predicate LocksOk(nodes: seq<Ctx>, threads: seq<seq<Frame>>) {
    forall n :: 0 <= n < |nodes| && nodes[n].lock.Some? ==>
        nodes[n].lock.value < |threads| && HeldBy(threads[nodes[n].lock.value], n)
  }

  /** What the calls that have returned have left behind. */
  ghost predicate PastOk(nodes: seq<Ctx>, past: History) {
    && (forall c :: c in past.returned ==> c < |nodes| && Settled(nodes[c]))
    && (forall c :: c in past.watched ==> c < |nodes| && nodes[c].done != NoChan)
    && (forall c :: c in past.armed ==> c < |nodes| && (nodes[c].timer || nodes[c].err.Some?))
  }

  ghost predicate Inv(tree: Tree, s: State)
    requires ValidTree(tree)
  {
    && NodesOk(tree, s.nodes)
    && Covered(tree, s.nodes, s.ready)
    && FromReady(tree, s.made, s.ready)
    && FromReady(tree, s.ready, s.ready)
    && StacksOk(tree, s)
    && LocksOk(s.nodes, s.threads)
    && PastOk(s.nodes, s.past)
  }

  lemma InitInv(tree: Tree, s: State)
    requires ValidTree(tree) && Init(tree, s)
    ensures Inv(tree, s)
  {
  }

  // ----- One frame's step, on its own

  /** How a step of `t` may change a context: under its own lock, keeping what is settled. */
  ghost predicate TouchOk(t: nat, n: Ctx, x: Ctx) {
    && (x != n ==> (n.lock == None || n.lock == Some(t)) && (x.lock == None || x.lock == Some(t)))
    && (n.err.Some? ==> x.err == n.err)
    && (n.done == ClosedChan ==> x.done == ClosedChan)
    && (Settled(n) ==> Settled(x))
    && (n.done != NoChan ==> x.done != NoChan)
    && (n.timer ==> x.timer || x.err.Some?)
  }

  /** Whatever waits for `f` may as well wait for `g`. */
  predicate Replaces(f: Frame, g: Frame) {
    match f
    case Core(c, _, rm, _) => if g.Remove? then rm else g.Core? && g.c == c && g.remove == rm
    case Timer(c, _, rm, _) => g.Timer? && g.c == c && g.remove == rm
    case Remove(_, c, _) => g.Remove? && g.c == c
    case _ => true
  }

  ghost predicate FramesGood(tree: Tree, nodes: seq<Ctx>, t: nat, f: Frame, fs: seq<Frame>)
    requires ValidTree(tree)
  {
    && |fs| <= 2
    && (forall i :: 0 <= i < |fs| ==> FrameOk(tree, nodes, t, fs[i]))
    && (|fs| == 2 ==> Calls(fs[0], fs[1]))
    && (fs != [] ==> TopOk(nodes, fs[|fs| - 1]) && Replaces(f, fs[0]))
    && (forall i :: 0 <= i < |fs| && fs[i].Register? ==> f.Register? && f.c == fs[i].c)
  }

  ghost predicate NodeGood(tree: Tree, nodes: seq<Ctx>, t: nat, f: Frame, x: Ctx, fs: seq<Frame>)
    requires ValidTree(tree) && NodeOf(f) < |nodes|
  {
    var n := NodeOf(f);
    && TouchOk(t, nodes[n], x)
    && (if Wants(f) || Holds(f) then x.lock == Some(t) ==> HeldBy(fs, n) else x == nodes[n])
    && (x.lock == None ==> Calm(x))
    && ChildrenOk(tree, n, x.children)
    && (forall d :: d in nodes[n].children && d !in x.children ==> d != n && d < |nodes| && Settled(nodes[d]))
    && (fs == [] && (f.Core? || f.Timer?) ==> Settled(x))
    && (fs == [] && f.Lazy? ==> x.done != NoChan)
    && (fs == [] && f.Arm? ==> x.timer || x.err.Some?)
  }

  ghost predicate StepGood(tree: Tree, nodes: seq<Ctx>, t: nat, f: Frame, x: Ctx, fs: seq<Frame>)
    requires ValidTree(tree)
  {
    && NodeOf(f) < |nodes|
    && NodeGood(tree, nodes, t, f, x, fs)
    && FramesGood(tree, nodes[NodeOf(f) := x], t, f, fs)
  }

  ghost predicate MayStep(tree: Tree, nodes: seq<Ctx>, t: nat, f: Frame, x: Ctx, fs: seq<Frame>)
    requires ValidTree(tree)
  {
    && NodesOk(tree, nodes) && FrameOk(tree, nodes, t, f) && TopOk(nodes, f)
    && FrameStep(tree, t, f, nodes[NodeOf(f)], x, fs)
  }

  lemma AcquireGood(tree: Tree, nodes: seq<Ctx>, t: nat, f: Frame, x: Ctx, fs: seq<Frame>)
    requires ValidTree(tree) && MayStep(tree, nodes, t, f, x, fs) && Wants(f)
    ensures StepGood(tree, nodes, t, f, x, fs)
  {
    assert Holds(fs[0]) && NodeOf(fs[0]) == NodeOf(f);
  }

  lemma CoreHeldGood(tree: Tree, nodes: seq<Ctx>, t: nat, f: Frame, x: Ctx, fs: seq<Frame>)
    requires ValidTree(tree) && MayStep(tree, nodes, t, f, x, fs) && f.Core? && (f.core.Held? || f.core.Closing?)
    ensures StepGood(tree, nodes, t, f, x, fs)
  {
    if fs != [] {
      assert Holds(fs[0]) && NodeOf(fs[0]) == NodeOf(f);
    }
  }

  lemma CoreLoopGood(tree: Tree, nodes: seq<Ctx>, t: nat, f: Frame, x: Ctx, fs: seq<Frame>)
    requires ValidTree(tree) && MayStep(tree, nodes, t, f, x, fs) && f.Core? && f.core.Loop? && f.core.rem != {}
    ensures StepGood(tree, nodes, t, f, x, fs)
  {
    assert nodes[NodeOf(f) := x] == nodes;
    assert Holds(fs[0]) && NodeOf(fs[0]) == NodeOf(f);
  }

  /** At the end of the loop every child has been canceled. */
  lemma CoreEndGood(tree: Tree, nodes: seq<Ctx>, t: nat, f: Frame, x: Ctx, fs: seq<Frame>)
    requires ValidTree(tree) && MayStep(tree, nodes, t, f, x, fs) && f.Core? && f.core.Loop? && f.core.rem == {}
    ensures StepGood(tree, nodes, t, f, x, fs)
  {
    var n := nodes[f.c];
    forall d | d in n.children
      ensures d != f.c && d < |nodes| && Settled(nodes[d])
    {
      assert Up(tree, d) == Some(f.c);
    }
  }

  lemma TimerGood(tree: Tree, nodes: seq<Ctx>, t: nat, f: Frame, x: Ctx, fs: seq<Frame>)
    requires ValidTree(tree) && MayStep(tree, nodes, t, f, x, fs) && f.Timer? && !Wants(f)
    ensures StepGood(tree, nodes, t, f, x, fs)
  {
    if !f.timer.StopHeld? {
      assert nodes[NodeOf(f) := x] == nodes;
    }
  }

  lemma RegisterLinkGood(tree: Tree, nodes: seq<Ctx>, t: nat, f: Frame, x: Ctx, fs: seq<Frame>)
    requires ValidTree(tree) && MayStep(tree, nodes, t, f, x, fs) && f.Register? && (f.register.LinkHeld? ||
             f.register.Await?)
    ensures StepGood(tree, nodes, t, f, x, fs)
  {
    assert Holds(fs[0]) && NodeOf(fs[0]) == NodeOf(f);
  }

  lemma RegisterReleaseGood(tree: Tree, nodes: seq<Ctx>, t: nat, f: Frame, x: Ctx, fs: seq<Frame>)
    requires ValidTree(tree) && MayStep(tree, nodes, t, f, x, fs) && f.Register? && (f.register.DoneHeld? ||
             f.register.Linked?)
    ensures StepGood(tree, nodes, t, f, x, fs)
  {
  }

  lemma RemoveGood(tree: Tree, nodes: seq<Ctx>, t: nat, f: Frame, x: Ctx, fs: seq<Frame>)
    requires ValidTree(tree) && MayStep(tree, nodes, t, f, x, fs) && f.Remove? && !Wants(f)
    ensures StepGood(tree, nodes, t, f, x, fs)
  {
    assert f.c != f.p;
  }

  lemma SmallGood(tree: Tree, nodes: seq<Ctx>, t: nat, f: Frame, x: Ctx, fs: seq<Frame>)
    requires ValidTree(tree) && MayStep(tree, nodes, t, f, x, fs) && (f.Lazy? || f.Arm?) && !Wants(f)
    ensures StepGood(tree, nodes, t, f, x, fs)
  {
  }

  lemma FrameStepGood(tree: Tree, nodes: seq<Ctx>, t: nat, f: Frame, x: Ctx, fs: seq<Frame>)
    requires ValidTree(tree) && MayStep(tree, nodes, t, f, x, fs)
    ensures StepGood(tree, nodes, t, f, x, fs)
  {
    hide MayStep, StepGood;
    if Wants(f) {
      AcquireGood(tree, nodes, t, f, x, fs);
    } else {
      match f
      case Core(_, _, _, Loop(rem, _)) =>
        if rem == {} {
          CoreEndGood(tree, nodes, t, f, x, fs);
        } else {
          CoreLoopGood(tree, nodes, t, f, x, fs);
        }
      case Core(_, _, _, _) => CoreHeldGood(tree, nodes, t, f, x, fs);
      case Timer(_, _, _, _) => TimerGood(tree, nodes, t, f, x, fs);
      case Remove(_, _, _) => RemoveGood(tree, nodes, t, f, x, fs);
      case Register(_, _, pc) =>
        if pc.LinkHeld? || pc.Await? {
          RegisterLinkGood(tree, nodes, t, f, x, fs);
        } else {
          RegisterReleaseGood(tree, nodes, t, f, x, fs);
        }
      case _ => SmallGood(tree, nodes, t, f, x, fs);
    }
  }

  // ----- The rest of the state

  /** A change to one context disturbs no call that does not hold it. */
  lemma FrameStays(tree: Tree, nodes: seq<Ctx>, t: nat, f: Frame, n: nat, x: Ctx)
    requires ValidTree(tree) && FrameOk(tree, nodes, t, f) && n < |nodes|
    requires Settled(nodes[n]) ==> Settled(x)
    requires Holds(f) ==> NodeOf(f) != n
    ensures FrameOk(tree, nodes[n := x], t, f)
    ensures TopOk(nodes, f) ==> TopOk(nodes[n := x], f)
  {
  }

  lemma OtherStackStays(tree: Tree, nodes: seq<Ctx>, u: nat, st: seq<Frame>, t: nat, n: nat, x: Ctx)
    requires ValidTree(tree) && StackOk(tree, nodes, u, st) && u != t
    requires n < |nodes| && TouchOk(t, nodes[n], x)
    ensures StackOk(tree, nodes[n := x], u, st)
  {
    if x == nodes[n] {
      assert nodes[n := x] == nodes;
    } else {
      forall i | 0 <= i < |st|
        ensures FrameOk(tree, nodes[n := x], u, st[i])
        ensures TopOk(nodes, st[i]) ==> TopOk(nodes[n := x], st[i])
      {
        FrameStays(tree, nodes, u, st[i], n, x);
      }
    }
  }

  /** `b` is canceled through `a`, directly or not. */
  ghost predicate Under(tree: Tree, a: nat, b: nat)
    requires ValidTree(tree)
    decreases b
  {
    Up(tree, b).Some? && (Up(tree, b).value == a || Under(tree, a, Up(tree, b).value))
  }

  lemma UnderIsLater(tree: Tree, a: nat, b: nat)
    requires ValidTree(tree) && Under(tree, a, b)
    ensures a < b
    decreases b
  {
    if Up(tree, b).value != a {
      UnderIsLater(tree, a, Up(tree, b).value);
    }
  }

  /** A goroutine's locks run down the tree: every later call is about a context under each one it holds. */
  lemma HeldRunDown(tree: Tree, nodes: seq<Ctx>, t: nat, st: seq<Frame>, i: nat, j: nat)
    requires ValidTree(tree) && NodesOk(tree, nodes) && StackOk(tree, nodes, t, st)
    requires i < j < |st| && Holds(st[i])
    ensures Under(tree, NodeOf(st[i]), NodeOf(st[j]))
    decreases j
  {
    var f, g := st[j - 1], st[j];
    assert FrameOk(tree, nodes, t, f) && FrameOk(tree, nodes, t, g) && Calls(f, g);
    if j == i + 1 {
      assert f.Core? ==> ChildrenOk(tree, f.c, nodes[f.c].children);
    } else {
      HeldRunDown(tree, nodes, t, st, i, j - 1);
      assert Calls(st[j - 2], f);
      assert !(f.Timer? && f.timer.AwaitRemove?);
      assert f.Core? ==> ChildrenOk(tree, f.c, nodes[f.c].children);
    }
  }

  /** When `f` is done, whatever waited for it may rely on what it waited for. */
  lemma ReturnsTo(tree: Tree, nodes: seq<Ctx>, t: nat, h: Frame, f: Frame, x: Ctx)
    requires ValidTree(tree) && Calls(h, f) && FrameOk(tree, nodes, t, f) && FrameOk(tree, nodes, t, h)
    requires f.Core? || f.Timer? ==> Settled(x)
    ensures NodeOf(f) < |nodes| && TopOk(nodes[NodeOf(f) := x], h)
  {
  }

  lemma CallsReplaced(h: Frame, f: Frame, g: Frame)
    requires Calls(h, f) && Replaces(f, g)
    ensures Calls(h, g)
  {
  }

  lemma LowerFramesStay(tree: Tree, nodes: seq<Ctx>, t: nat, below: seq<Frame>, f: Frame, x: Ctx, i: nat)
    requires ValidTree(tree) && NodesOk(tree, nodes) && StackOk(tree, nodes, t, below + [f]) && i < |below|
    requires NodeOf(f) < |nodes| && TouchOk(t, nodes[NodeOf(f)], x)
    ensures FrameOk(tree, nodes[NodeOf(f) := x], t, below[i])
  {
    var st := below + [f];
    assert st[i] == below[i] && st[|below|] == f;
    if Holds(below[i]) {
      HeldRunDown(tree, nodes, t, st, i, |below|);
      UnderIsLater(tree, NodeOf(below[i]), NodeOf(f));
    }
    FrameStays(tree, nodes, t, below[i], NodeOf(f), x);
  }

  lemma OwnStackGood(tree: Tree, nodes: seq<Ctx>, t: nat, below: seq<Frame>, f: Frame, x: Ctx, fs: seq<Frame>)
    requires ValidTree(tree) && NodesOk(tree, nodes) && StackOk(tree, nodes, t, below + [f])
    requires StepGood(tree, nodes, t, f, x, fs)
    ensures StackOk(tree, nodes[NodeOf(f) := x], t, below + fs)
  {
    hide FrameOk, TopOk, Calls, NodesOk, Replaces;
    var nodes', st, st' := nodes[NodeOf(f) := x], below + [f], below + fs;
    assert st[|below|] == f && FrameOk(tree, nodes, t, f);
    forall i | 0 <= i < |st'|
      ensures FrameOk(tree, nodes', t, st'[i])
    {
      if i < |below| {
        LowerFramesStay(tree, nodes, t, below, f, x, i);
      }
    }
    if below != [] {
      var h := below[|below| - 1];
      assert st[|below| - 1] == h && Calls(h, f) && FrameOk(tree, nodes, t, h);
      if fs == [] {
        ReturnsTo(tree, nodes, t, h, f, x);
      } else {
        CallsReplaced(h, f, fs[0]);
      }
    }
    forall i | 0 <= i < |st'| - 1
      ensures Calls(st'[i], st'[i + 1])
    {
      if i < |below| - 1 {
        assert Calls(st[i], st[i + 1]);
      }
    }
  }

  lemma RunNodes(tree: Tree, nodes: seq<Ctx>, t: nat, f: Frame, x: Ctx, fs: seq<Frame>)
    requires ValidTree(tree) && NodesOk(tree, nodes) && NodeOf(f) < |nodes| && NodeGood(tree, nodes, t, f, x, fs)
    ensures NodesOk(tree, nodes[NodeOf(f) := x])
  {
  }

  lemma RunCovered(tree: Tree, nodes: seq<Ctx>, ready: set<nat>, t: nat, f: Frame, x: Ctx, fs: seq<Frame>)
    requires ValidTree(tree) && |nodes| == |tree| && Covered(tree, nodes, ready)
    requires NodeOf(f) < |nodes| && NodeGood(tree, nodes, t, f, x, fs)
    ensures Covered(tree, nodes[NodeOf(f) := x], ready)
  {
    var nodes' := nodes[NodeOf(f) := x];
    forall d | d in ready && Up(tree, d).Some?
      ensures d in nodes'[Up(tree, d).value].children || Settled(nodes'[d])
    {
      assert d in nodes[Up(tree, d).value].children || Settled(nodes[d]);
    }
  }

  /** The context that propagateCancel has just taken care of becomes usable. */
  lemma RunReady(tree: Tree, nodes: seq<Ctx>, made: set<nat>, ready: set<nat>, t: nat, f: Frame)
    requires ValidTree(tree) && FrameOk(tree, nodes, t, f) && TopOk(nodes, f) && f.Register? && f.register.Await?
    requires Covered(tree, nodes, ready) && FromReady(tree, made, ready) && FromReady(tree, ready, ready) && f.c in made
    ensures Covered(tree, nodes, ready + {f.c}) && FromReady(tree, made, ready + {f.c}) &&
            FromReady(tree, ready + {f.c}, ready + {f.c})
  {
  }

  lemma RunLocks(tree: Tree, nodes: seq<Ctx>, threads: seq<seq<Frame>>, t: nat, below: seq<Frame>, f: Frame,
                 x: Ctx, fs: seq<Frame>)
    requires ValidTree(tree) && LocksOk(nodes, threads) && t < |threads| && threads[t] == below + [f]
    requires NodeOf(f) < |nodes| && NodeGood(tree, nodes, t, f, x, fs)
    ensures LocksOk(nodes[NodeOf(f) := x], threads[t := below + fs])
  {
    var nodes', st' := nodes[NodeOf(f) := x], below + fs;
    forall n | 0 <= n < |nodes| && nodes'[n].lock == Some(t)
      ensures HeldBy(st', n)
    {
      if n == NodeOf(f) && (Wants(f) || Holds(f)) {
        var i :| 0 <= i < |fs| && Holds(fs[i]) && NodeOf(fs[i]) == n;
        assert st'[|below| + i] == fs[i];
      } else {
        var i :| 0 <= i < |below + [f]| && Holds((below + [f])[i]) && NodeOf((below + [f])[i]) == n;
        assert st'[i] == below[i];
      }
    }
    assert forall u :: 0 <= u < |threads| && u != t ==> threads[t := st'][u] == threads[u];
  }

  lemma RunPast(tree: Tree, nodes: seq<Ctx>, past: History, t: nat, f: Frame, x: Ctx, fs: seq<Frame>, last: bool)
    requires ValidTree(tree) && PastOk(nodes, past) && FrameOk(tree, nodes, t, f) && (last ==> fs == [])
    requires NodeOf(f) < |nodes| && NodeGood(tree, nodes, t, f, x, fs)
    ensures PastOk(nodes[NodeOf(f) := x], Recorded(past, f, fs, last))
  {
  }

  lemma RunRegisters(made: set<nat>, below: seq<Frame>, f: Frame, fs: seq<Frame>)
    requires RegistersMade(below + [f], made)
    requires forall i :: 0 <= i < |fs| && fs[i].Register? ==> f.Register? && f.c == fs[i].c
    ensures RegistersMade(below + fs, made) && (f.Register? ==> f.c in made)
  {
    assert (below + [f])[|below|] == f;
    forall i | 0 <= i < |below + fs| && (below + fs)[i].Register?
      ensures (below + fs)[i].c in made
    {
      assert i < |below| ==> (below + [f])[i] == below[i];
    }
  }

  lemma RunStacks(tree: Tree, s: State, s': State, t: nat, below: seq<Frame>, f: Frame, x: Ctx, fs: seq<Frame>)
    requires ValidTree(tree) && NodesOk(tree, s.nodes) && StacksOk(tree, s)
    requires Run(tree, s, s', t, below, f, x, fs) && StepGood(tree, s.nodes, t, f, x, fs)
    ensures StacksOk(tree, s')
  {
    hide StackOk, NodesOk, FrameStep, NodeGood, FrameOk, RegistersMade;
    forall u | 0 <= u < |s'.threads|
      ensures StackOk(tree, s'.nodes, u, s'.threads[u]) && RegistersMade(s'.threads[u], s'.made)
    {
      if u == t {
        OwnStackGood(tree, s.nodes, t, below, f, x, fs);
        RunRegisters(s.made, below, f, fs);
      } else {
        TouchOfGood(tree, s.nodes, t, f, x, fs);
        OtherStackStays(tree, s.nodes, u, s.threads[u], t, NodeOf(f), x);
      }
    }
  }

  lemma TouchOfGood(tree: Tree, nodes: seq<Ctx>, t: nat, f: Frame, x: Ctx, fs: seq<Frame>)
    requires ValidTree(tree) && StepGood(tree, nodes, t, f, x, fs)
    ensures TouchOk(t, nodes[NodeOf(f)], x)
  {
  }

  lemma TopOfStack(tree: Tree, nodes: seq<Ctx>, t: nat, below: seq<Frame>, f: Frame)
    requires ValidTree(tree) && StackOk(tree, nodes, t, below + [f])
    ensures FrameOk(tree, nodes, t, f) && TopOk(nodes, f)
  {
    assert (below + [f])[|below|] == f;
  }

  lemma RunInv(tree: Tree, s: State, s': State, t: nat, below: seq<Frame>, f: Frame, x: Ctx, fs: seq<Frame>)
    requires ValidTree(tree) && Inv(tree, s) && Run(tree, s, s', t, below, f, x, fs)
    ensures Inv(tree, s') && TouchOk(t, s.nodes[NodeOf(f)], x)
  {
    hide StackOk, FrameStep, NodeGood, FrameOk, TopOk, Covered, FromReady, LocksOk, PastOk, RegistersMade,
        FramesGood;
    TopOfStack(tree, s.nodes, t, below, f);
    FrameStepGood(tree, s.nodes, t, f, x, fs);
    TouchOfGood(tree, s.nodes, t, f, x, fs);
    RunNodes(tree, s.nodes, t, f, x, fs);
    RunStacks(tree, s, s', t, below, f, x, fs);
    RunLocks(tree, s.nodes, s.threads, t, below, f, x, fs);
    RunPast(tree, s.nodes, s.past, t, f, x, fs, below + fs == []);
    RunCovered(tree, s.nodes, s.ready, t, f, x, fs);
    if f.Register? && f.register.Await? {
      RegistersOf(s.threads[t], s.made, below, f);
      RunReady(tree, s.nodes, s.made, s.ready, t, f);
      RunCovered(tree, s.nodes, s.ready + {f.c}, t, f, x, fs);
    }
  }

  lemma RegistersOf(st: seq<Frame>, made: set<nat>, below: seq<Frame>, f: Frame)
    requires RegistersMade(st, made) && st == below + [f] && f.Register?
    ensures f.c in made
  {
    assert st[|below|] == f;
  }

  /** An idle goroutine takes up a call that holds nothing yet. */
  lemma StartStacks(tree: Tree, s: State, made: set<nat>, t: nat, fs: seq<Frame>)
    requires ValidTree(tree) && StacksOk(tree, s) && LocksOk(s.nodes, s.threads) && t < |s.threads| &&
             s.threads[t] == []
    requires s.made <= made && |fs| <= 1
    requires fs != [] ==> FrameOk(tree, s.nodes, t, fs[0]) && TopOk(s.nodes, fs[0]) && (fs[0].Register? ==>
             fs[0].c in made)
    ensures StacksOk(tree, s.(made := made, threads := s.threads[t := fs]))
    ensures LocksOk(s.nodes, s.threads[t := fs])
  {
    hide FrameOk, TopOk, Calls;
    var threads' := s.threads[t := fs];
    forall n | 0 <= n < |s.nodes| && s.nodes[n].lock.Some?
      ensures s.nodes[n].lock.value < |threads'| && HeldBy(threads'[s.nodes[n].lock.value], n)
    {
      assert HeldBy(s.threads[s.nodes[n].lock.value], n);
    }
  }

  lemma StartCallInv(tree: Tree, s: State, s': State, t: nat, c: nat, e: Error)
    requires ValidTree(tree) && Inv(tree, s) && StartCall(tree, s, s', t, c, e)
    ensures Inv(tree, s')
  {
    hide StacksOk, LocksOk, Covered, FromReady, PastOk;
    var fs := if s'.threads[t] == [Lazy(c, false)] then [Lazy(c, false)] else [CancelFrame(tree, c, e, true)];
    assert FrameOk(tree, s.nodes, t, fs[0]) && TopOk(s.nodes, fs[0]);
    StartStacks(tree, s, s.made, t, fs);
    StacksReady(tree, s.(made := s.made, threads := s.threads[t := fs]), s');
    AskedPast(s.nodes, s.past, c, e);
  }

  lemma DeriveReady(tree: Tree, nodes: seq<Ctx>, made: set<nat>, ready: set<nat>, c: nat)
    requires ValidTree(tree) && |nodes| == |tree| && c < |tree| && (!tree[c].Empty? ==> tree[c].parent in ready)
    requires Covered(tree, nodes, ready) && FromReady(tree, made, ready) && FromReady(tree, ready, ready)
    ensures FromReady(tree, made + {c}, ready)
    ensures Up(tree, c).None? ==> Covered(tree, nodes, ready + {c})
    ensures FromReady(tree, made + {c}, ready + {c}) && FromReady(tree, ready + {c}, ready + {c})
  {
  }

  lemma StartDeriveInv(tree: Tree, s: State, s': State, t: nat, c: nat, fs: seq<Frame>)
    requires ValidTree(tree) && Inv(tree, s) && StartDerive(tree, s, s', t, c, fs)
    ensures Inv(tree, s')
  {
    hide StacksOk, LocksOk, Covered, FromReady, PastOk;
    DeriveReady(tree, s.nodes, s.made, s.ready, c);
    var fs' := s'.threads[t];
    assert fs' != [] ==> FrameOk(tree, s.nodes, t, fs'[0]) && TopOk(s.nodes, fs'[0]);
    StartStacks(tree, s, s.made + {c}, t, fs');
    StacksReady(tree, s.(made := s.made + {c}, threads := s.threads[t := fs']), s');
    AskedPast(s.nodes, s.past, c, DeadlineExceeded);
  }

  lemma StacksReady(tree: Tree, s: State, s': State)
    requires ValidTree(tree) && StacksOk(tree, s) && s' == s.(ready := s'.ready, past := s'.past)
    ensures StacksOk(tree, s')
  {
  }

  lemma AskedPast(nodes: seq<Ctx>, past: History, c: nat, e: Error)
    requires PastOk(nodes, past)
    ensures PastOk(nodes, Asked(past, c, e))
  {
  }

  ghost predicate Stable(s: State, s': State) {
    && |s.nodes| == |s'.nodes| && s.ready <= s'.ready
    && s.past.asked <= s'.past.asked && s.past.returned <= s'.past.returned
    && forall n :: 0 <= n < |s.nodes| ==>
         && (s.nodes[n].err.Some? ==> s'.nodes[n].err == s.nodes[n].err)
         && (s.nodes[n].done == ClosedChan ==> s'.nodes[n].done == ClosedChan)
  }

  /** Every step keeps the invariant, every error and every closed channel. */
  lemma NextInv(tree: Tree, s: State, s': State)
    requires ValidTree(tree) && Inv(tree, s) && Next(tree, s, s')
    ensures Inv(tree, s') && Stable(s, s')
  {
    hide Inv, FrameStep;
    if t, below, f, x, fs :| Run(tree, s, s', t, below, f, x, fs) {
      RunInv(tree, s, s', t, below, f, x, fs);
    } else if t, c, e :| StartCall(tree, s, s', t, c, e) {
      StartCallInv(tree, s, s', t, c, e);
    } else {
      var t, c, fs :| StartDerive(tree, s, s', t, c, fs);
      StartDeriveInv(tree, s, s', t, c, fs);
    }
  }

  lemma {:induction false} TraceInv(tree: Tree, run: seq<State>, i: nat)
    requires ValidTree(tree) && Trace(tree, run) && i < |run|
    ensures Inv(tree, run[i])
  {
    hide Inv, Next, Init;
    if i == 0 {
      InitInv(tree, run[0]);
    } else {
      TraceInv(tree, run, i - 1);
      NextInv(tree, run[i - 1], run[i]);
    }
  }

  // ----- What cancellation promises

  /** `b` was derived from `a`, through any kinds of contexts, or is `a`. */
  ghost predicate DerivedFrom(tree: Tree, a: nat, b: nat)
    requires ValidTree(tree)
    decreases b
  {
    a == b || (b < |tree| && !tree[b].Empty? && DerivedFrom(tree, a, tree[b].parent))
  }

  lemma {:induction false} OwnerUnder(tree: Tree, a: nat, b: nat)
    requires ValidTree(tree) && IsCancel(tree, a) && b < |tree| && DerivedFrom(tree, a, b)
    ensures Owner(tree, b).Some? && (Owner(tree, b).value == a || Under(tree, a, Owner(tree, b).value))
    decreases b
  {
    if a != b {
      OwnerUnder(tree, a, tree[b].parent);
    }
  }

  lemma {:induction false} OwnerReady(tree: Tree, ready: set<nat>, b: nat)
    requires ValidTree(tree) && FromReady(tree, ready, ready) && b in ready && Owner(tree, b).Some?
    ensures Owner(tree, b).value in ready
    decreases b
  {
    if tree[b].Value? {
      OwnerReady(tree, ready, tree[b].parent);
    }
  }

  /** Below a settled context every usable context is settled. */
  lemma {:induction false} SettledDown(tree: Tree, s: State, a: nat, b: nat)
    requires ValidTree(tree) && Covered.requires(tree, s.nodes, s.ready) && Covered(tree, s.nodes, s.ready) &&
             FromReady(tree, s.ready, s.ready)
    requires a < |s.nodes| && Settled(s.nodes[a]) && Under(tree, a, b) && b in s.ready
    ensures b < |s.nodes| && Settled(s.nodes[b])
    decreases b
  {
    var p := Up(tree, b).value;
    if p != a {
      OwnerReady(tree, s.ready, tree[b].parent);
      SettledDown(tree, s, a, p);
    }
  }

  /** In every run: once a cancel call on `c` has returned, every usable context derived from `c` has its error
      set, and its channel is closed whenever nobody holds its lock. */
  lemma CancelReaches(tree: Tree, run: seq<State>, i: nat, c: nat, b: nat)
    requires ValidTree(tree) && Trace(tree, run) && i < |run|
    requires c in run[i].past.returned && b in run[i].ready && DerivedFrom(tree, c, b) && IsCancel(tree, b)
    requires IsCancel(tree, c)
    ensures b < |run[i].nodes| && run[i].nodes[b].err.Some?
    ensures run[i].nodes[b].lock == None ==> run[i].nodes[b].done == ClosedChan
  {
    hide Next, Init, StacksOk, LocksOk;
    TraceInv(tree, run, i);
    if b != c {
      OwnerUnder(tree, c, tree[b].parent);
      SettledDown(tree, run[i], c, b);
    }
  }

  /** In every run errors, once set, and channels, once closed, stay so. */
  lemma {:induction false} CanceledForGood(tree: Tree, run: seq<State>, i: nat, j: nat, n: nat)
    requires ValidTree(tree) && Trace(tree, run) && i <= j < |run| && n < |tree|
    ensures n < |run[i].nodes| && n < |run[j].nodes|
    ensures run[i].nodes[n].err.Some? ==> run[j].nodes[n].err == run[i].nodes[n].err
    ensures run[i].nodes[n].done == ClosedChan ==> run[j].nodes[n].done == ClosedChan
    ensures run[i].past.returned <= run[j].past.returned && run[i].ready <= run[j].ready
    decreases j
  {
    hide Next, Init, StacksOk, LocksOk, Covered, FromReady, PastOk;
    TraceInv(tree, run, i);
    if i < j {
      CanceledForGood(tree, run, i, j - 1, n);
      TraceInv(tree, run, j - 1);
      NextInv(tree, run[j - 1], run[j]);
    }
  }

  /** In every run a context nobody has locked has a closed channel exactly when it has an error. */
  lemma DoneIffCanceled(tree: Tree, run: seq<State>, i: nat, n: nat)
    requires ValidTree(tree) && Trace(tree, run) && i < |run| && n < |tree|
    ensures n < |run[i].nodes|
    ensures run[i].nodes[n].lock == None ==> (run[i].nodes[n].done == ClosedChan <==> run[i].nodes[n].err.Some?)
  {
    hide Next, Init, StacksOk, LocksOk, Covered, FromReady, PastOk;
    TraceInv(tree, run, i);
  }

  /** In every run a goroutine about to close a context's channel finds it not yet closed. */
  lemma NeverClosedTwice(tree: Tree, run: seq<State>, i: nat, t: nat, k: nat)
    requires ValidTree(tree) && Trace(tree, run) && i < |run| && t < |run[i].threads| && k < |run[i].threads[t]|
    requires run[i].threads[t][k].Core? && run[i].threads[t][k].core.Closing?
    ensures var c := run[i].threads[t][k].c; c < |run[i].nodes| && run[i].nodes[c].done != ClosedChan
  {
    hide Next, Init, LocksOk, Covered, FromReady, PastOk, NodesOk;
    TraceInv(tree, run, i);
    assert FrameOk(tree, run[i].nodes, t, run[i].threads[t][k]);
  }

  // ----- No deadlock

  /** In every run a goroutine waits only for the lock of a context under each context it has locked. */
  lemma WaitsDown(tree: Tree, run: seq<State>, i: nat, t: nat, k: nat)
    requires ValidTree(tree) && Trace(tree, run) && i < |run| && t < |run[i].threads|
    requires var st := run[i].threads[t]; k < |st| && Holds(st[k]) && Wants(st[|st| - 1])
    ensures var st := run[i].threads[t]; Under(tree, NodeOf(st[k]), NodeOf(st[|st| - 1]))
  {
    hide Next, Init, LocksOk, Covered, FromReady, PastOk, NodesOk, StackOk, Under;
    TraceInv(tree, run, i);
    var st := run[i].threads[t];
    HeldRunDown(tree, run[i].nodes, t, st, k, |st| - 1);
  }

  ghost predicate CanRun(tree: Tree, s: State, t: nat)
    requires ValidTree(tree)
  {
    exists s', below, f, x, fs :: Run(tree, s, s', t, below, f, x, fs)
  }

  /** A call that waits for no lock, or for a free one, has a next step. */
  lemma FrameMoves(tree: Tree, nodes: seq<Ctx>, t: nat, f: Frame) returns (x: Ctx, fs: seq<Frame>)
    requires ValidTree(tree) && NodesOk(tree, nodes) && FrameOk(tree, nodes, t, f)
    requires Wants(f) ==> nodes[NodeOf(f)].lock == None
    ensures FrameStep(tree, t, f, nodes[NodeOf(f)], x, fs)
  {
    var n := nodes[NodeOf(f)];
    x, fs := n, [];
    if Wants(f) {
      x, fs := n.(lock := Some(t)), [Acquired(f)];
    } else {
      match f
      case Core(_, _, _, _) => x, fs := CoreMoves(tree, nodes, t, f);
      case Timer(_, _, _, Begin) => fs := [f.(timer := AwaitCore), Core(f.c, f.err, false, Want)];
      case Timer(_, _, _, AwaitCore) =>
        fs := if f.remove && Up(tree, f.c).Some?
        then [f.(timer := AwaitRemove), Remove(Up(tree, f.c).value, f.c, false)]
        else [f.(timer := StopWant)];
      case Timer(_, _, _, AwaitRemove) => fs := [f.(timer := StopWant)];
      case Timer(_, _, _, StopHeld) => x := n.(timer := false, lock := None);
      case Remove(_, c, _) => x := n.(children := n.children - {c}, lock := None);
      case Register(_, _, _) => x, fs := RegisterMoves(tree, nodes, t, f);
      case Lazy(_, _) => x := n.(done := Made(n.done), lock := None);
      case Arm(_, _) => x := n.(timer := n.timer || n.err == None, lock := None);
    }
  }

  lemma CoreMoves(tree: Tree, nodes: seq<Ctx>, t: nat, f: Frame) returns (x: Ctx, fs: seq<Frame>)
    requires ValidTree(tree) && NodesOk(tree, nodes) && FrameOk(tree, nodes, t, f) && f.Core? && !Wants(f)
    ensures CoreStep(tree, f, nodes[f.c], x, fs)
  {
    var n := nodes[f.c];
    x, fs := n, [];
    match f.core
    case Held =>
      x := if n.err.Some? then n.(lock := None) else n.(err := Some(f.err));
      fs := if n.err.Some? then [] else [f.(core := Closing)];
    case Closing => x, fs := n.(done := ClosedChan), [f.(core := Loop(n.children, None))];
    case Loop(rem, _) =>
      if rem != {} {
        var d :| d in rem;
        assert ChildrenOk(tree, f.c, n.children);
        fs := [f.(core := Loop(rem - {d}, Some(d))), CancelFrame(tree, d, f.err, false)];
      } else {
        x := n.(children := {}, lock := None);
        fs := if f.remove && Up(tree, f.c).Some? then [Remove(Up(tree, f.c).value, f.c, false)] else [];
      }
  }

  lemma RegisterMoves(tree: Tree, nodes: seq<Ctx>, t: nat, f: Frame) returns (x: Ctx, fs: seq<Frame>)
    requires ValidTree(tree) && FrameOk(tree, nodes, t, f) && f.Register? && !Wants(f)
    ensures IsCancel(tree, f.c) && RegisterStep(tree, f, nodes[f.p], x, fs)
  {
    var n := nodes[f.p];
    x, fs := n, [];
    match f.register
    case DoneHeld => x, fs := n.(done := Made(n.done), lock := None), [f.(register := LinkWant)];
    case LinkHeld =>
      if n.err.Some? {
        fs := [f.(register := Await), CancelFrame(tree, f.c, n.err.value, false)];
      } else {
        x, fs := n.(children := n.children + {f.c}), [f.(register := Await)];
      }
    case Await => fs := [f.(register := Linked)];
    case Linked =>
      x := n.(lock := None);
      fs := if tree[f.c].timed then [Arm(f.c, false)] else [];
  }

  /** From a goroutine in a call, the chain of lock holders leads to one that can move. */
  lemma {:induction false} SomeoneMoves(tree: Tree, s: State, t: nat) returns (u: nat)
    requires ValidTree(tree) && Inv(tree, s) && t < |s.threads| && s.threads[t] != []
    ensures u < |s.threads| && CanRun(tree, s, u)
    decreases var f := s.threads[t][|s.threads[t]| - 1]; |s.nodes| - NodeOf(f),
              if Wants(s.threads[t][|s.threads[t]| - 1]) then 1 else 0
  {
    hide Covered, FromReady, PastOk, FrameOk, TopOk, Calls, NodesOk, FrameStep, RegistersMade;
    var st := s.threads[t];
    var below, f := st[..|st| - 1], st[|st| - 1];
    var n := NodeOf(f);
    assert st == below + [f] && FrameOk(tree, s.nodes, t, f);
    FrameNode(tree, s.nodes, t, f);
    if Wants(f) && s.nodes[n].lock.Some? {
      var v := s.nodes[n].lock.value;
      LaterWaits(tree, s, n);
      u := SomeoneMoves(tree, s, v);
    } else {
      var x, fs := FrameMoves(tree, s.nodes, t, f);
      u := t;
      var s' := State(
        s.nodes[n := x],
        s.threads[t := below + fs],
        s.made,
        if f.Register? && f.register.Await? then s.ready + {f.c} else s.ready,
        Recorded(s.past, f, fs, below + fs == []));
      assert Run(tree, s, s', t, below, f, x, fs);
    }
  }

  lemma FrameNode(tree: Tree, nodes: seq<Ctx>, t: nat, f: Frame)
    requires ValidTree(tree) && FrameOk(tree, nodes, t, f)
    ensures NodeOf(f) < |nodes|
  {
  }

  /** The goroutine that holds `n` is in a call about a later context, or about `n` and not waiting. */
  lemma LaterWaits(tree: Tree, s: State, n: nat)
    requires ValidTree(tree) && NodesOk(tree, s.nodes) && StacksOk(tree, s) && LocksOk(s.nodes, s.threads)
    requires n < |s.nodes| && s.nodes[n].lock.Some?
    ensures var v := s.nodes[n].lock.value;
            && v < |s.threads| && s.threads[v] != []
            && var g := s.threads[v][|s.threads[v]| - 1]; NodeOf(g) > n || (NodeOf(g) == n && !Wants(g))
  {
    hide StackOk, NodesOk;
    var v := s.nodes[n].lock.value;
    var st := s.threads[v];
    var k :| 0 <= k < |st| && Holds(st[k]) && NodeOf(st[k]) == n;
    if k < |st| - 1 {
      HeldRunDown(tree, s.nodes, v, st, k, |st| - 1);
      UnderIsLater(tree, n, NodeOf(st[|st| - 1]));
    }
  }

  /** In every run, as long as some goroutine is in a call, some goroutine's call can take a step. */
  lemma NoDeadlock(tree: Tree, run: seq<State>, i: nat, t: nat)
    requires ValidTree(tree) && Trace(tree, run) && i < |run| && t < |run[i].threads| && run[i].threads[t] != []
    ensures exists u :: 0 <= u < |run[i].threads| && CanRun(tree, run[i], u)
  {
    hide Inv, CanRun, Next, Init;
    TraceInv(tree, run, i);
    var u := SomeoneMoves(tree, run[i], t);
  }
}
