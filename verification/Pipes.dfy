/** The synchronous in-memory pipe, used by any number of goroutines at once, as a transition system. */
module Pipes {
  import opened Options
  import Integers

  type Bytes = seq<bv8>

  datatype Error = ErrClosedPipe | EOF | Other(id: nat)

  /** Where a goroutine is. A Write carries its position `k` in lock order, its argument, what is left of it and
      the count so far. Both sides of a handshake note whom they met. The close-error functions carry the first of
      their two atomic loads once it is done. */
  datatype Thread =
    | Idle
    | WCheck(b: Bytes)
    | WLock(b: Bytes)
    | WSelect(k: nat, b: Bytes, rest: Bytes, n: nat)
    | WAck(k: nat, b: Bytes, rest: Bytes, n: nat, reader: nat)
    | WFail(k: nat, b: Bytes, rest: Bytes, n: nat, seen: Option<Option<Error>>)
    | WReject(seen: Option<Option<Error>>)
    | RCheck(size: nat)
    | RSelect(size: nat)
    | RAck(data: Bytes, from: nat)
    | RFail(seen: Option<Option<Error>>)
    | Closing(write: bool, arg: Option<Error>, stored: bool)

  datatype Result = Running | Returned(n: nat, err: Option<Error>)

  /** A Write that got the lock: its argument, how much of it was passed on, what it returned, and whether it was
      started on a closed pipe. */
  datatype Entry = Entry(data: Bytes, n: nat, result: Result, late: bool)

  /** What a Read received: of the slice `rest` that Write number `write` had left, into a buffer of `size` bytes. */
  datatype Piece = Piece(data: Bytes, size: nat, rest: Bytes, write: nat, late: bool)

  /** A call that failed, with its count and, for a Write that got the lock, its number. `saw` is whether its own end
      had been closed when it looked. */
  datatype Failure = Failure(write: bool, k: Option<nat>, n: nat, err: Error, late: bool, saw: bool)

  /** The calls of each goroutine: the one it started last, whether that was on a closed pipe, and whether it found
      its own end closed. */
  datatype Call = Call(start: Thread, late: bool, saw: bool)

  /** `wrMu`, `done`, `rerr` and `werr` are the pipe. The rest is history: the calls, the Writes in lock order, what
      the Reads received in handshake order, the calls that failed, and the arguments of the closes that stored. */
  datatype State = State(
    threads: seq<Thread>, wrMu: Option<nat>, done: bool, rerr: Option<Error>, werr: Option<Error>,
    calls: seq<Call>, log: seq<Entry>, got: seq<Piece>, failures: seq<Failure>,
    rargs: set<Option<Error>>, wargs: set<Option<Error>>)

  predicate InWrite(th: Thread) {
    th.WSelect? || th.WAck? || th.WFail?
  }

  // ----- Steps

  ghost predicate Start(s: State, s': State, t: nat) {
    && t < |s.threads| && s.threads[t].Idle?
    && t < |s.calls|
    && exists th: Thread :: (th.WCheck? || th.RCheck? || (th.Closing? && !th.stored)) &&
        s' == s.(threads := s.threads[t := th], calls := s.calls[t := Call(th, s.done, false)])
  }

  ghost predicate WriteStep(s: State, s': State, t: nat) {
    && t < |s.threads| && t < |s.calls|
    && match s.threads[t]
       case WCheck(b) => s' == s.(threads := s.threads[t := if s.done then WReject(None) else WLock(b)])
       case WLock(b) =>
         && s.wrMu == None
         && s' == s.(wrMu := Some(t), threads := s.threads[t := WSelect(|s.log|, b, b, 0)],
                     log := s.log + [Logged(s.calls[t])])
       case WSelect(k, b, rest, n) => s.done && s' == s.(threads := s.threads[t := WFail(k, b, rest, n, None)])
       case _ => false
  }

  function Logged(call: Call): Entry {
    Entry(if call.start.WCheck? then call.start.b else [], 0, Running, call.late)
  }

  /** The error of writeCloseError from its two loads. */
  function CloseError(mine: Option<Error>, theirs: Option<Error>): Error {
    if mine == None && theirs.Some? then theirs.value else ErrClosedPipe
  }

  /** Takes note of what was found at the first load. */
  function Noted(s: State, t: nat, args: set<Option<Error>>): seq<Call>
    requires t < |s.calls|
  {
    s.calls[t := s.calls[t].(saw := args != {})]
  }

  ghost predicate FailStep(s: State, s': State, t: nat) {
    && t < |s.threads| && t < |s.calls|
    && var call := s.calls[t];
       match s.threads[t]
       case WReject(None) =>
         s' == s.(threads := s.threads[t := WReject(Some(s.werr))], calls := Noted(s, t, s.wargs))
       case WReject(Some(w)) =>
         s' == s.(threads := s.threads[t := Idle],
                  failures := s.failures + [Failure(true, None, 0, CloseError(w, s.rerr), call.late, call.saw)])
       case WFail(k, b, rest, n, None) =>
         s' == s.(threads := s.threads[t := WFail(k, b, rest, n, Some(s.werr))], calls := Noted(s, t, s.wargs))
       case WFail(k, b, rest, n, Some(w)) =>
         && k < |s.log|
         && s' == s.(threads := s.threads[t := Idle], wrMu := None,
                     failures := s.failures + [Failure(true, Some(k), n, CloseError(w, s.rerr), call.late, call.saw)],
                     log := s.log[k := s.log[k].(result := Returned(n, Some(CloseError(w, s.rerr))))])
       case RFail(None) =>
         s' == s.(threads := s.threads[t := RFail(Some(s.rerr))], calls := Noted(s, t, s.rargs))
       case RFail(Some(r)) =>
         s' == s.(threads := s.threads[t := Idle],
                  failures := s.failures + [Failure(false, None, 0, CloseError(r, s.werr), call.late, call.saw)])
       case _ => false
  }

  ghost predicate ReadStep(s: State, s': State, t: nat) {
    && t < |s.threads|
    && match s.threads[t]
       case RCheck(size) => s' == s.(threads := s.threads[t := if s.done then RFail(None) else RSelect(size)])
       case RSelect(size) => s.done && s' == s.(threads := s.threads[t := RFail(None)])
       case _ => false
  }

  ghost predicate CloseStep(s: State, s': State, t: nat) {
    && t < |s.threads| && s.threads[t].Closing?
    && var th := s.threads[t];
       if th.stored then s' == s.(threads := s.threads[t := Idle], done := true)
       else if th.write then
         s' == s.(threads := s.threads[t := th.(stored := true)], wargs := s.wargs + {th.arg},
                  werr := Some(if th.arg == None then EOF else th.arg.value))
       else
         s' == s.(threads := s.threads[t := th.(stored := true)], rargs := s.rargs + {th.arg},
                  rerr := Some(if th.arg == None then ErrClosedPipe else th.arg.value))
  }

  /** The rendezvous on wrCh: reader `r` gets the slice of writer `w` and copies what fits. */
  ghost predicate Transfer(s: State, s': State, w: nat, r: nat) {
    && w < |s.threads| && r < |s.threads| && s.threads[w].WSelect? && s.threads[r].RSelect? && r < |s.calls|
    && var wr := s.threads[w];
       var data := wr.rest[..Integers.Min(s.threads[r].size, |wr.rest|)];
       s' == s.(threads := s.threads[w := WAck(wr.k, wr.b, wr.rest, wr.n, r)][r := RAck(data, w)],
                got := s.got + [Received(s.calls[r], data, wr)])
  }

  function Received(call: Call, data: Bytes, wr: Thread): Piece
    requires wr.WSelect?
  {
    Piece(data, if call.start.RCheck? then call.start.size else 0, wr.rest, wr.k, call.late)
  }

  /** The rendezvous on rdCh between any reader and any writer that are at it. A count beyond the slice would panic. */
  ghost predicate Ack(s: State, s': State, w: nat, r: nat) {
    && w < |s.threads| && r < |s.threads| && s.threads[w].WAck? && s.threads[r].RAck?
    && var wr := s.threads[w];
       var nw := |s.threads[r].data|;
       && nw <= |wr.rest| && wr.k < |s.log|
       && var e := s.log[wr.k].(n := wr.n + nw);
          var rest := wr.rest[nw..];
          if rest == [] then
            s' == s.(threads := s.threads[w := Idle][r := Idle], wrMu := None,
                log := s.log[wr.k := e.(result := Returned(wr.n + nw, None))])
          else
            s' == s.(threads := s.threads[w := WSelect(wr.k, wr.b, rest, wr.n + nw)][r := Idle],
                log := s.log[wr.k := e])
  }

  ghost predicate Next(s: State, s': State) {
    || (exists t: nat :: Start(s, s', t))
    || (exists t: nat :: WriteStep(s, s', t))
    || (exists t: nat :: FailStep(s, s', t))
    || (exists t: nat :: ReadStep(s, s', t))
    || (exists t: nat :: CloseStep(s, s', t))
    || (exists w: nat, r: nat :: Transfer(s, s', w, r))
    || (exists w: nat, r: nat :: Ack(s, s', w, r))
  }

  ghost predicate Init(s: State) {
    && (forall t :: 0 <= t < |s.threads| ==> s.threads[t].Idle?)
    && |s.calls| == |s.threads|
    && s == State(s.threads, None, false, None, None, s.calls, [], [], [], {}, {})
  }

  ghost predicate Trace(run: seq<State>) {
    run != [] && Init(run[0]) && forall i :: 0 <= i < |run| - 1 ==> Next(run[i], run[i + 1])
  }

  // ----- The invariant

  /** The Write that holds the lock is the last one logged. While it waits for an ack, the reader it met owes it one. */
  ghost predicate WriterOk(s: State, t: nat)
    requires t < |s.threads|
  {
    var th := s.threads[t];
    InWrite(th) ==>
      && s.wrMu == Some(t) && s.log != [] && th.k == |s.log| - 1
      && th.n <= |th.b| && th.rest == th.b[th.n..]
      && s.log[th.k].data == th.b && s.log[th.k].n == th.n && s.log[th.k].result == Running
      && (th.WAck? ==> th.reader < |s.threads| && s.threads[th.reader].RAck? && s.threads[th.reader].from == t)
  }

  /** A reader between its copy and its ack: the writer it copied from waits for just that ack. */
  ghost predicate ReaderOk(s: State, t: nat)
    requires t < |s.threads|
  {
    var th := s.threads[t];
    th.RAck? ==>
      && th.from < |s.threads| && s.threads[th.from].WAck? && s.threads[th.from].reader == t
      && th.data <= s.threads[th.from].rest
      && s.got != [] && th.data == s.got[|s.got| - 1].data && s.got[|s.got| - 1].write == s.threads[th.from].k
  }

  ghost predicate EntryOk(e: Entry) {
    && e.n <= |e.data|
    && (e.result.Returned? ==> e.result.n == e.n)
    && (e.result.Returned? && e.result.err == None ==> e.n == |e.data|)
  }

  /** All but the Write that holds the lock have returned. */
  ghost predicate LogOk(s: State) {
    && (forall i :: 0 <= i < |s.log| ==> EntryOk(s.log[i]))
    && (forall i :: 0 <= i < |s.log| ==> s.log[i].result.Returned? || (s.wrMu.Some? && i == |s.log| - 1))
    && (s.wrMu.Some? ==> s.wrMu.value < |s.threads| && InWrite(s.threads[s.wrMu.value]))
  }

  /** What the Reads have received. */
  function Flatten(got: seq<Piece>): Bytes {
    if got == [] then [] else Flatten(got[..|got| - 1]) + got[|got| - 1].data
  }

  /** The first n bytes of every Write, in lock order. */
  function Accepted(log: seq<Entry>): Bytes {
    if log == [] then [] else
    var e := log[|log| - 1];
    Accepted(log[..|log| - 1]) + if e.n <= |e.data| then e.data[..e.n] else e.data
  }

  /** The bytes copied but not yet acknowledged. */
  ghost function InFlight(s: State): Bytes {
    if s.wrMu.Some? && s.wrMu.value < |s.threads| && s.threads[s.wrMu.value].WAck? && s.got != []
    then s.got[|s.got| - 1].data else []
  }

  ghost predicate ActorsOk(s: State) {
    forall t :: 0 <= t < |s.threads| ==> WriterOk(s, t) && ReaderOk(s, t)
  }

  ghost predicate StreamInv(s: State) {
    && ActorsOk(s) && LogOk(s)
    && Flatten(s.got) == Accepted(s.log) + InFlight(s)
  }

  /** What a call in progress has to do with how it was started. */
  ghost predicate CallOk(th: Thread, call: Call, done: bool) {
    && (!th.Idle? && call.late ==> done)
    && match th
       case WCheck(b) => call.start == WCheck(b)
       case WLock(b) => call.start == WCheck(b) && !call.late
       case WSelect(_, b, _, _) => call.start == WCheck(b) && !call.late
       case WAck(_, b, _, _, _) => call.start == WCheck(b) && !call.late
       case WFail(_, b, _, _, _) => call.start == WCheck(b) && !call.late
       case RCheck(size) => call.start == RCheck(size)
       case RSelect(size) => call.start == RCheck(size) && !call.late
       case RAck(_, _) => call.start.RCheck? && !call.late
       case WReject(_) => call.start.WCheck?
       case RFail(_) => call.start.RCheck?
       case Closing(_, _, _) => call.start.Closing?
       case Idle => true
  }

  ghost predicate CallInv(s: State) {
    |s.calls| == |s.threads| && forall t :: 0 <= t < |s.threads| ==> CallOk(s.threads[t], s.calls[t], s.done)
  }

  lemma CallNext(s: State, s': State)
    requires CallInv(s) && Next(s, s')
    ensures CallInv(s')
  {
    hide CallInv, Start, ReadStep, CloseStep, WriteStep, FailStep, Transfer, Ack;
    if w: nat, r: nat :| Transfer(s, s', w, r) || Ack(s, s', w, r) {
      HandshakeCalls(s, s', w, r);
    } else {
      var t: nat :| Start(s, s', t) || ReadStep(s, s', t) || CloseStep(s, s', t) || WriteStep(s, s', t) ||
          FailStep(s, s', t);
      StepCalls(s, s', t);
    }
  }

  lemma HandshakeCalls(s: State, s': State, w: nat, r: nat)
    requires CallInv(s) && (Transfer(s, s', w, r) || Ack(s, s', w, r))
    ensures CallInv(s')
  {
    assert CallOk(s.threads[w], s.calls[w], s.done) && CallOk(s.threads[r], s.calls[r], s.done);
  }

  lemma StepCalls(s: State, s': State, t: nat)
    requires CallInv(s)
    requires Start(s, s', t) || ReadStep(s, s', t) || CloseStep(s, s', t) || WriteStep(s, s', t) || FailStep(s, s', t)
    ensures CallInv(s')
  {
    assert CallOk(s.threads[t], s.calls[t], s.done);
    forall u | 0 <= u < |s'.threads| && u != t
      ensures CallOk(s'.threads[u], s'.calls[u], s'.done)
    {
      assert CallOk(s.threads[u], s.calls[u], s.done);
    }
  }

  /** A step that leaves the handshake alone. */
  ghost predicate Aside(s: State, s': State, t: nat) {
    && t < |s.threads| == |s'.threads| && s'.threads == s.threads[t := s'.threads[t]]
    && s'.wrMu == s.wrMu && s'.log == s.log && s'.got == s.got
    && var th, th' := s.threads[t], s'.threads[t];
       && !th.RAck? && !th'.RAck? && !th.WAck? && !th'.WAck?
       && (InWrite(th) <==> InWrite(th'))
       && (InWrite(th) ==> th'.k == th.k && th'.b == th.b && th'.rest == th.rest && th'.n == th.n)
  }

  lemma AsideStream(s: State, s': State, t: nat)
    requires StreamInv(s) && Aside(s, s', t)
    ensures StreamInv(s')
  {
    forall u | 0 <= u < |s'.threads|
      ensures WriterOk(s', u) && ReaderOk(s', u)
    {
      assert WriterOk(s, u) && ReaderOk(s, u);
    }
  }

  lemma LockActors(s: State, s': State, t: nat)
    requires ActorsOk(s) && LogOk(s) && WriteStep(s, s', t) && s.threads[t].WLock?
    requires CallOk(s.threads[t], s.calls[t], s.done)
    ensures ActorsOk(s')
  {
    hide LogOk;
    forall u | 0 <= u < |s'.threads|
      ensures WriterOk(s', u)
    {
      assert WriterOk(s, u);
    }
    forall u | 0 <= u < |s'.threads|
      ensures ReaderOk(s', u)
    {
      assert ReaderOk(s, u);
    }
  }

  lemma LockLog(s: State, s': State, t: nat)
    requires LogOk(s) && WriteStep(s, s', t) && s.threads[t].WLock?
    ensures LogOk(s') && Accepted(s'.log) == Accepted(s.log)
  {
    assert s'.log[..|s.log|] == s.log;
  }

  lemma LockStream(s: State, s': State, t: nat)
    requires StreamInv(s) && CallInv(s) && WriteStep(s, s', t) && s.threads[t].WLock?
    ensures StreamInv(s')
  {
    assert CallOk(s.threads[t], s.calls[t], s.done);
    hide ActorsOk, LogOk, CallInv, CallOk, Accepted, Flatten;
    LockActors(s, s', t);
    LockLog(s, s', t);
  }

  lemma NobodyOwes(s: State, w: nat, u: nat)
    requires ActorsOk(s) && w < |s.threads| && s.threads[w].WSelect? && u < |s.threads|
    ensures !s.threads[u].RAck?
  {
    assert WriterOk(s, w) && ReaderOk(s, u);
    var v := if s.threads[u].RAck? then s.threads[u].from else w;
    assert WriterOk(s, v);
  }

  lemma TransferStream(s: State, s': State, w: nat, r: nat)
    requires StreamInv(s) && Transfer(s, s', w, r)
    ensures StreamInv(s')
  {
    assert WriterOk(s, w);
    forall u: nat | u < |s.threads|
      ensures !s.threads[u].RAck?
    {
      NobodyOwes(s, w, u);
    }
    forall u | 0 <= u < |s'.threads|
      ensures WriterOk(s', u) && ReaderOk(s', u)
    {
      assert WriterOk(s, u) && ReaderOk(s, u);
    }
    assert s'.got[..|s.got|] == s.got;
  }

  /** The reader and the writer at an acknowledgement are the two that met. */
  lemma AckPair(s: State, w: nat, r: nat)
    requires ActorsOk(s) && w < |s.threads| && r < |s.threads| && s.threads[w].WAck? && s.threads[r].RAck?
    ensures s.threads[r].from == w && s.threads[w].reader == r
    ensures s.threads[r].data <= s.threads[w].rest
  {
    assert ReaderOk(s, r) && WriterOk(s, s.threads[r].from) && WriterOk(s, w);
  }

  lemma AckAccepted(s: State, s': State, w: nat, r: nat)
    requires StreamInv(s) && Ack(s, s', w, r)
    ensures Accepted(s'.log) == Accepted(s.log) + s.threads[r].data
    ensures s'.log[..|s.log| - 1] == s.log[..|s.log| - 1]
  {
    hide Accepted;
    AckPair(s, w, r);
    assert WriterOk(s, w);
    AcceptedGrows(s.log, s'.log[|s.log| - 1], s.threads[r].data);
  }

  /** The last Write has passed on `d` more. */
  lemma AcceptedGrows(log: seq<Entry>, e: Entry, d: Bytes)
    requires log != [] && e.data == log[|log| - 1].data && e.n == log[|log| - 1].n + |d| <= |e.data|
    requires d == e.data[log[|log| - 1].n..e.n]
    ensures Accepted(log[|log| - 1 := e]) == Accepted(log) + d
    ensures log[|log| - 1 := e][..|log| - 1] == log[..|log| - 1]
  {
    var n := log[|log| - 1].n;
    assert e.data[..n] + d == e.data[..e.n];
  }

  lemma AckActors(s: State, s': State, w: nat, r: nat)
    requires StreamInv(s) && Ack(s, s', w, r)
    ensures ActorsOk(s')
  {
    AckPair(s, w, r);
    assert WriterOk(s, w) && ReaderOk(s, r);
    forall u | 0 <= u < |s'.threads|
      ensures WriterOk(s', u)
    {
      assert WriterOk(s, u);
    }
    forall u | 0 <= u < |s'.threads|
      ensures ReaderOk(s', u)
    {
      assert ReaderOk(s, u);
    }
  }

  lemma AckLog(s: State, s': State, w: nat, r: nat)
    requires StreamInv(s) && Ack(s, s', w, r)
    ensures LogOk(s')
  {
    hide Flatten, Accepted;
    AckPair(s, w, r);
    assert WriterOk(s, w);
    hide ActorsOk;
  }

  lemma AckStream(s: State, s': State, w: nat, r: nat)
    requires StreamInv(s) && Ack(s, s', w, r)
    ensures StreamInv(s')
  {
    AckPair(s, w, r);
    AckAccepted(s, s', w, r);
    AckActors(s, s', w, r);
    AckLog(s, s', w, r);
    assert WriterOk(s, w) && ReaderOk(s, r);
    hide ActorsOk, LogOk, Accepted, Flatten;
  }

  lemma FailStream(s: State, s': State, t: nat)
    requires StreamInv(s) && FailStep(s, s', t) && s.threads[t].WFail? && s.threads[t].seen.Some?
    ensures StreamInv(s')
  {
    assert WriterOk(s, t);
    forall u | 0 <= u < |s'.threads|
      ensures WriterOk(s', u) && ReaderOk(s', u)
    {
      assert WriterOk(s, u) && ReaderOk(s, u);
    }
    assert s'.log[..|s.log| - 1] == s.log[..|s.log| - 1];
  }

  lemma StepsAside(s: State, s': State, t: nat)
    requires || Start(s, s', t) || ReadStep(s, s', t) || CloseStep(s, s', t)
             || (WriteStep(s, s', t) && !s.threads[t].WLock?)
             || (FailStep(s, s', t) && !(s.threads[t].WFail? && s.threads[t].seen.Some?))
    ensures Aside(s, s', t)
  {
  }

  lemma StreamNext(s: State, s': State)
    requires StreamInv(s) && CallInv(s) && Next(s, s')
    ensures StreamInv(s')
  {
    hide StreamInv, CallInv, Start, ReadStep, CloseStep, WriteStep, FailStep, Transfer, Ack, Aside;
    if w: nat, r: nat :| Transfer(s, s', w, r) {
      TransferStream(s, s', w, r);
    } else if w: nat, r: nat :| Ack(s, s', w, r) {
      AckStream(s, s', w, r);
    } else {
      var t: nat :| Start(s, s', t) || ReadStep(s, s', t) || CloseStep(s, s', t) || WriteStep(s, s', t) ||
          FailStep(s, s', t);
      StepThread(s, s', t);
      if WriteStep(s, s', t) && s.threads[t].WLock? {
        LockStream(s, s', t);
      } else if FailStep(s, s', t) && s.threads[t].WFail? && s.threads[t].seen.Some? {
        FailStream(s, s', t);
      } else {
        StepsAside(s, s', t);
        AsideStream(s, s', t);
      }
    }
  }

  lemma StepThread(s: State, s': State, t: nat)
    requires Start(s, s', t) || ReadStep(s, s', t) || CloseStep(s, s', t) || WriteStep(s, s', t) || FailStep(s, s', t)
    ensures t < |s.threads|
  {
  }

  // ----- Pieces

  /** A piece fills the buffer or empties the slice, which is the end of what its Write was given. */
  ghost predicate PieceOk(p: Piece, log: seq<Entry>) {
    && p.data <= p.rest && |p.data| <= p.size && (|p.data| < p.size ==> p.data == p.rest)
    && p.write < |log| && EndsWith(log[p.write].data, p.rest)
    && !p.late
  }

  predicate EndsWith(b: Bytes, rest: Bytes) {
    |rest| <= |b| && rest == b[|b| - |rest|..]
  }

  /** Some Read has met Write number `k`. */
  ghost predicate Met(got: seq<Piece>, k: nat) {
    exists j :: 0 <= j < |got| && got[j].write == k
  }

  predicate Succeeded(e: Entry) {
    e.result.Returned? && e.result.err == None
  }

  /** A failing call returns what it has passed on. */
  ghost predicate CountOk(f: Failure, log: seq<Entry>) {
    match f.k
    case None => f.n == 0
    case Some(k) => f.write && k < |log| && f.n == log[k].n && log[k].result == Returned(f.n, Some(f.err)) && !f.late
  }

  ghost predicate PieceInv(s: State) {
    && (forall j :: 0 <= j < |s.got| ==> PieceOk(s.got[j], s.log))
    && (forall k :: 0 <= k < |s.log| ==> !s.log[k].late)
    && (forall k :: 0 <= k < |s.log| && Succeeded(s.log[k]) ==> Met(s.got, k))
    && (forall j :: 0 <= j < |s.failures| ==> CountOk(s.failures[j], s.log))
  }

  /** Pieces and Writes stay what they are. */
  lemma PiecesStay(s: State, s': State)
    requires PieceInv(s) && s'.got == s.got && |s.log| <= |s'.log|
    requires forall k :: 0 <= k < |s.log| ==> s'.log[k].data == s.log[k].data
    ensures forall j :: 0 <= j < |s'.got| ==> PieceOk(s'.got[j], s'.log)
  {
    forall j | 0 <= j < |s'.got|
      ensures PieceOk(s'.got[j], s'.log)
    {
      assert PieceOk(s.got[j], s.log);
    }
  }

  /** What a call has returned stays so while a Write is still under way. */
  lemma CountsStay(s: State, s': State, k: nat)
    requires PieceInv(s) && s'.failures == s.failures && k < |s.log| == |s'.log| && s.log[k].result.Running?
    requires forall i :: 0 <= i < |s.log| && i != k ==> s'.log[i] == s.log[i]
    ensures forall j :: 0 <= j < |s'.failures| ==> CountOk(s'.failures[j], s'.log)
  {
    forall j | 0 <= j < |s'.failures|
      ensures CountOk(s'.failures[j], s'.log)
    {
      assert CountOk(s.failures[j], s.log);
    }
  }

  lemma TransferPieces(s: State, s': State, w: nat, r: nat)
    requires PieceInv(s) && StreamInv(s) && CallInv(s) && Transfer(s, s', w, r)
    ensures PieceInv(s')
  {
    hide Flatten, Accepted;
    assert WriterOk(s, w) && CallOk(s.threads[r], s.calls[r], s.done);
    forall j | 0 <= j < |s'.got|
      ensures PieceOk(s'.got[j], s'.log)
    {
      if j < |s.got| {
        assert s'.got[j] == s.got[j] && PieceOk(s.got[j], s.log);
      }
    }
    forall k | 0 <= k < |s.log| && Succeeded(s.log[k])
      ensures Met(s'.got, k)
    {
      var j :| 0 <= j < |s.got| && s.got[j].write == k;
      assert s'.got[j] == s.got[j];
    }
  }

  lemma AckPieces(s: State, s': State, w: nat, r: nat)
    requires PieceInv(s) && StreamInv(s) && Ack(s, s', w, r)
    ensures PieceInv(s')
  {
    hide Flatten, Accepted, PieceOk;
    AckPair(s, w, r);
    assert WriterOk(s, w) && ReaderOk(s, r);
    PiecesStay(s, s');
    CountsStay(s, s', s.threads[w].k);
    assert Met(s.got, s.threads[w].k) by {
      assert s.got[|s.got| - 1].write == s.threads[w].k;
    }
  }

  lemma StepPieces(s: State, s': State, t: nat)
    requires PieceInv(s) && StreamInv(s) && CallInv(s)
    requires Start(s, s', t) || ReadStep(s, s', t) || CloseStep(s, s', t) || WriteStep(s, s', t)
    ensures PieceInv(s')
  {
    hide Flatten, Accepted, PieceOk, LogOk, Met, CountOk;
    assert CallOk(s.threads[t], s.calls[t], s.done);
    hide StreamInv, CallInv;
    PiecesStay(s, s');
    CountsKept(s, s');
  }

  lemma CountsKept(s: State, s': State)
    requires PieceInv(s) && s'.failures == s.failures && s.log <= s'.log
    ensures forall j :: 0 <= j < |s'.failures| ==> CountOk(s'.failures[j], s'.log)
  {
    forall j | 0 <= j < |s'.failures|
      ensures CountOk(s'.failures[j], s'.log)
    {
      assert CountOk(s.failures[j], s.log);
    }
  }

  lemma FailPieces(s: State, s': State, t: nat)
    requires PieceInv(s) && StreamInv(s) && CallInv(s) && FailStep(s, s', t)
    ensures PieceInv(s')
  {
    hide Flatten, Accepted, PieceOk, LogOk, Met;
    assert CallOk(s.threads[t], s.calls[t], s.done) && WriterOk(s, t);
    hide StreamInv, CallInv;
    PiecesStay(s, s');
  }

  lemma PieceNext(s: State, s': State)
    requires PieceInv(s) && StreamInv(s) && CallInv(s) && Next(s, s')
    ensures PieceInv(s')
  {
    hide PieceInv, StreamInv, CallInv, Start, ReadStep, CloseStep, WriteStep, FailStep, Transfer, Ack;
    if w: nat, r: nat :| Transfer(s, s', w, r) {
      TransferPieces(s, s', w, r);
    } else if w: nat, r: nat :| Ack(s, s', w, r) {
      AckPieces(s, s', w, r);
    } else {
      var t: nat :| Start(s, s', t) || ReadStep(s, s', t) || CloseStep(s, s', t) || WriteStep(s, s', t) ||
          FailStep(s, s', t);
      if FailStep(s, s', t) {
        FailPieces(s, s', t);
      } else {
        StepPieces(s, s', t);
      }
    }
  }

  // ----- Errors

  /** `e` was given to a close, as it was or, for nil, as `missing`. */
  predicate Given(e: Error, args: set<Option<Error>>, missing: Error) {
    Some(e) in args || (e == missing && None in args)
  }

  /** What a failing call has loaded: its own end's error, if it found one, or else that of the other end. */
  ghost predicate LoadOk(seen: Option<Option<Error>>, saw: bool, theirs: Option<Error>) {
    && (seen == Some(None) ==> theirs.Some?)
    && (seen.Some? ==> (seen.value.Some? <==> saw))
  }

  ghost predicate FailOk(s: State, t: nat)
    requires t < |s.threads| && t < |s.calls|
  {
    match s.threads[t]
    case WReject(seen) => s.done && LoadOk(seen, s.calls[t].saw, s.rerr)
    case WFail(_, _, _, _, seen) => s.done && LoadOk(seen, s.calls[t].saw, s.rerr)
    case RFail(seen) => s.done && LoadOk(seen, s.calls[t].saw, s.werr)
    case Closing(write, _, stored) => stored ==> if write then s.werr.Some? else s.rerr.Some?
    case _ => true
  }

  /** A failing call that found its own end closed returns ErrClosedPipe, any other what closed the other end. */
  ghost predicate FailureOk(f: Failure, rargs: set<Option<Error>>, wargs: set<Option<Error>>) {
    if f.saw then f.err == ErrClosedPipe
    else if f.write then Given(f.err, rargs, ErrClosedPipe)
    else Given(f.err, wargs, EOF)
  }

  /** The stored error of an end is one that closed it. */
  predicate StoredOk(err: Option<Error>, args: set<Option<Error>>, missing: Error) {
    match err
    case None => args == {}
    case Some(e) => Given(e, args, missing)
  }

  ghost predicate ErrorInv(s: State) {
    && |s.calls| == |s.threads|
    && (forall t :: 0 <= t < |s.threads| ==> FailOk(s, t))
    && (s.done ==> s.rerr.Some? || s.werr.Some?)
    && StoredOk(s.rerr, s.rargs, ErrClosedPipe) && StoredOk(s.werr, s.wargs, EOF)
    && (forall j :: 0 <= j < |s.failures| ==> FailureOk(s.failures[j], s.rargs, s.wargs))
  }

  /** No step takes back a close or a stored error. */
  ghost predicate Grows(s: State, s': State) {
    && |s'.threads| == |s.threads| && |s'.calls| == |s.calls|
    && (s.done ==> s'.done)
    && (s.rerr.Some? ==> s'.rerr.Some?) && (s.werr.Some? ==> s'.werr.Some?)
    && s.rargs <= s'.rargs && s.wargs <= s'.wargs
  }

  lemma OthersFail(s: State, s': State, t: nat)
    requires Grows(s, s') && t < |s.threads| && t < |s.calls| && FailOk(s, t)
    requires s'.threads[t] == s.threads[t] && s'.calls[t] == s.calls[t]
    ensures FailOk(s', t)
  {
  }

  lemma StepErrors(s: State, s': State, t: nat)
    requires ErrorInv(s)
    requires Start(s, s', t) || ReadStep(s, s', t) || WriteStep(s, s', t)
    ensures ErrorInv(s')
  {
    assert FailOk(s, t);
    forall u | 0 <= u < |s'.threads| && u != t
      ensures FailOk(s', u)
    {
      OthersFail(s, s', u);
    }
  }

  lemma FailErrors(s: State, s': State, t: nat)
    requires ErrorInv(s) && FailStep(s, s', t)
    ensures ErrorInv(s')
  {
    assert FailOk(s, t);
    forall u | 0 <= u < |s'.threads| && u != t
      ensures FailOk(s', u)
    {
      OthersFail(s, s', u);
    }
  }

  lemma CloseErrors(s: State, s': State, t: nat)
    requires ErrorInv(s) && CloseStep(s, s', t)
    ensures ErrorInv(s')
  {
    assert FailOk(s, t);
    forall u | 0 <= u < |s'.threads| && u != t
      ensures FailOk(s', u)
    {
      OthersFail(s, s', u);
    }
  }

  lemma HandshakeErrors(s: State, s': State, w: nat, r: nat)
    requires ErrorInv(s) && (Transfer(s, s', w, r) || Ack(s, s', w, r))
    ensures ErrorInv(s')
  {
    forall u | 0 <= u < |s'.threads| && u != w && u != r
      ensures FailOk(s', u)
    {
      OthersFail(s, s', u);
    }
  }

  lemma ErrorNext(s: State, s': State)
    requires ErrorInv(s) && Next(s, s')
    ensures ErrorInv(s')
  {
    hide ErrorInv, Start, ReadStep, CloseStep, WriteStep, FailStep, Transfer, Ack;
    if w: nat, r: nat :| Transfer(s, s', w, r) || Ack(s, s', w, r) {
      HandshakeErrors(s, s', w, r);
    } else {
      var t: nat :| Start(s, s', t) || ReadStep(s, s', t) || CloseStep(s, s', t) || WriteStep(s, s', t) ||
          FailStep(s, s', t);
      if CloseStep(s, s', t) {
        CloseErrors(s, s', t);
      } else if FailStep(s, s', t) {
        FailErrors(s, s', t);
      } else {
        StepErrors(s, s', t);
      }
    }
  }

  // ----- What every run keeps

  lemma {:induction false} TraceInv(run: seq<State>, i: nat)
    requires Trace(run) && i < |run|
    ensures StreamInv(run[i]) && CallInv(run[i]) && PieceInv(run[i]) && ErrorInv(run[i])
  {
    hide Next, Flatten, Accepted;
    if i == 0 {
      NothingFlows();
    } else {
      hide StreamInv, CallInv, PieceInv, ErrorInv;
      TraceInv(run, i - 1);
      CallNext(run[i - 1], run[i]);
      StreamNext(run[i - 1], run[i]);
      PieceNext(run[i - 1], run[i]);
      ErrorNext(run[i - 1], run[i]);
    }
  }

  lemma NothingFlows()
    ensures Flatten([]) == [] == Accepted([])
  {
  }

  /** In every run the Reads have received, in handshake order, exactly the first n bytes of every Write in lock
      order, and then at most the one piece whose count its writer is about to learn. */
  lemma BytesInOrder(run: seq<State>, i: nat)
    requires Trace(run) && i < |run|
    ensures Flatten(run[i].got) == Accepted(run[i].log) + InFlight(run[i])
    ensures run[i].wrMu == None ==> Flatten(run[i].got) == Accepted(run[i].log)
  {
    TraceInv(run, i);
  }

  /** In every run a Write that returned without an error passed on all its bytes, and no Write passed on more. */
  lemma NilMeansAll(run: seq<State>, i: nat, k: nat)
    requires Trace(run) && i < |run| && k < |run[i].log|
    ensures run[i].log[k].n <= |run[i].log[k].data|
    ensures Succeeded(run[i].log[k]) ==> run[i].log[k].result.n == |run[i].log[k].data|
    ensures run[i].log[k].result.Returned? ==> run[i].log[k].result.n == run[i].log[k].n
  {
    TraceInv(run, i);
    assert EntryOk(run[i].log[k]);
  }

  /** In every run an acknowledgement can only reach the writer whose slice was read, and its count fits that slice. */
  lemma AckReachesWriter(run: seq<State>, i: nat, w: nat, r: nat)
    requires Trace(run) && i < |run| && w < |run[i].threads| && r < |run[i].threads|
    requires run[i].threads[w].WAck? && run[i].threads[r].RAck?
    ensures run[i].threads[r].from == w
    ensures |run[i].threads[r].data| <= |run[i].threads[w].rest| && run[i].threads[w].k < |run[i].log|
  {
    TraceInv(run, i);
    AckPair(run[i], w, r);
    assert WriterOk(run[i], w);
  }

  /** In every run a reader that owes an acknowledgement can deliver it. */
  lemma AckNeverStuck(run: seq<State>, i: nat, r: nat)
    requires Trace(run) && i < |run| && r < |run[i].threads| && run[i].threads[r].RAck?
    ensures run[i].threads[r].from < |run[i].threads|
    ensures exists s' :: Ack(run[i], s', run[i].threads[r].from, r)
  {
    hide Next, StreamInv, PieceInv, ErrorInv, CallInv, Ack, Init;
    TraceInv(run, i);
    AckMoves(run[i], r);
  }

  lemma AckMoves(s: State, r: nat)
    requires StreamInv(s) && r < |s.threads| && s.threads[r].RAck?
    ensures s.threads[r].from < |s.threads| && exists s' :: Ack(s, s', s.threads[r].from, r)
  {
    hide Accepted, Flatten;
    var w := s.threads[r].from;
    assert ReaderOk(s, r) && WriterOk(s, w);
    var wr, nw := s.threads[w], |s.threads[r].data|;
    var e, rest := s.log[wr.k].(n := wr.n + nw), wr.rest[nw..];
    var s' := if rest == [] then
      s.(threads := s.threads[w := Idle][r := Idle], wrMu := None,
         log := s.log[wr.k := e.(result := Returned(wr.n + nw, None))])
    else
      s.(threads := s.threads[w := WSelect(wr.k, wr.b, rest, wr.n + nw)][r := Idle], log := s.log[wr.k := e]);
    assert Ack(s, s', w, r);
  }

  /**
   * In every run a Read gets as much of what the Write it meets has left as its buffer holds: fewer bytes than the
   * buffer only if they are the last ones.
   */
  lemma PiecesFit(run: seq<State>, i: nat, j: nat)
    requires Trace(run) && i < |run| && j < |run[i].got|
    ensures var p := run[i].got[j];
            && p.data <= p.rest && |p.data| <= p.size && (|p.data| < p.size ==> p.data == p.rest)
            && p.write < |run[i].log| && EndsWith(run[i].log[p.write].data, p.rest)
  {
    TraceInv(run, i);
    assert PieceOk(run[i].got[j], run[i].log);
  }

  /** In every run a Write that returned without an error has met a Read, even if it had nothing to write. */
  lemma NilMeansMet(run: seq<State>, i: nat, k: nat)
    requires Trace(run) && i < |run| && k < |run[i].log| && Succeeded(run[i].log[k])
    ensures Met(run[i].got, k)
  {
    TraceInv(run, i);
  }

  /**
   * In every run a Read that finds its own end closed returns ErrClosedPipe, and any other failing Read an error that
   * CloseWrite was given, or EOF for nil; and the same for Write with the two ends exchanged, and ErrClosedPipe for
   * nil.
   */
  lemma FailureCauses(run: seq<State>, i: nat, j: nat)
    requires Trace(run) && i < |run| && j < |run[i].failures|
    ensures FailureOk(run[i].failures[j], run[i].rargs, run[i].wargs) && CountOk(run[i].failures[j], run[i].log)
  {
    TraceInv(run, i);
  }

  /** In every run a call that was started on a closed pipe hands nothing over. */
  lemma LateGetsNothing(run: seq<State>, i: nat)
    requires Trace(run) && i < |run|
    ensures forall j :: 0 <= j < |run[i].got| ==> !run[i].got[j].late
    ensures forall k :: 0 <= k < |run[i].log| ==> !run[i].log[k].late
  {
    TraceInv(run, i);
    forall j | 0 <= j < |run[i].got|
      ensures !run[i].got[j].late
    {
      assert PieceOk(run[i].got[j], run[i].log);
    }
  }

  /** And in every run such a Read or Write, when it returns, fails with a count of zero. */
  lemma LateFails(run: seq<State>, i: nat, t: nat)
    requires Trace(run) && i + 1 < |run| && t < |run[i].threads| && t < |run[i].calls| && t < |run[i + 1].threads|
    requires run[i].calls[t].late && !run[i].calls[t].start.Closing?
    requires !run[i].threads[t].Idle? && run[i + 1].threads[t].Idle?
    ensures |run[i + 1].failures| == |run[i].failures| + 1
    ensures var f := run[i + 1].failures[|run[i].failures|];
            f.late && f.n == 0 && f.write == run[i].calls[t].start.WCheck?
  {
    hide StreamInv, PieceInv, ErrorInv, CallInv, Start, ReadStep, CloseStep, WriteStep, FailStep, Transfer, Ack;
    TraceInv(run, i);
    var s, s' := run[i], run[i + 1];
    assert Next(s, s');
    if w: nat, r: nat :| Transfer(s, s', w, r) || Ack(s, s', w, r) {
      LateStays(s, s', w, r, t);
      assert false;
    } else {
      var u: nat :| Start(s, s', u) || ReadStep(s, s', u) || CloseStep(s, s', u) || WriteStep(s, s', u) ||
          FailStep(s, s', u);
      LateReturns(s, s', u, t);
    }
  }

  /** A handshake is none of a late call. */
  lemma LateStays(s: State, s': State, w: nat, r: nat, t: nat)
    requires CallInv(s) && (Transfer(s, s', w, r) || Ack(s, s', w, r)) && t < |s.threads| && s.calls[t].late
    ensures t < |s'.threads| && s'.threads[t] == s.threads[t]
  {
    assert CallOk(s.threads[w], s.calls[w], s.done) && CallOk(s.threads[r], s.calls[r], s.done);
  }

  lemma LateReturns(s: State, s': State, u: nat, t: nat)
    requires CallInv(s) && t < |s.threads| && s.calls[t].late && !s.calls[t].start.Closing? && !s.threads[t].Idle?
    requires Start(s, s', u) || ReadStep(s, s', u) || CloseStep(s, s', u) || WriteStep(s, s', u) || FailStep(s, s', u)
    requires t < |s'.threads| && s'.threads[t].Idle?
    ensures |s'.failures| == |s.failures| + 1
    ensures var f := s'.failures[|s.failures|]; f.late && f.n == 0 && f.write == s.calls[t].start.WCheck?
  {
    assert CallOk(s.threads[t], s.calls[t], s.done);
  }

  /** A step that a thread takes by itself. */
  ghost predicate OwnStep(s: State, s': State, t: nat) {
    WriteStep(s, s', t) || FailStep(s, s', t) || ReadStep(s, s', t) || CloseStep(s, s', t)
  }

  /** The call that `t` waits for: the Write that has the lock, or itself. */
  function WaitsFor(s: State, t: nat): nat
    requires t < |s.threads|
  {
    if s.threads[t].WLock? && s.wrMu.Some? then s.wrMu.value else t
  }

  /** The next step of call `u`: its acknowledgement, if it gives or awaits one, or a step by itself. */
  ghost predicate NextStep(s: State, s': State, u: nat)
    requires u < |s.threads|
  {
    match s.threads[u]
    case WAck(_, _, _, _, reader) => Ack(s, s', u, reader)
    case RAck(_, from) => Ack(s, s', from, u)
    case _ => OwnStep(s, s', u)
  }

  /** A call not at a handshake or at the lock moves on its own once the pipe is closed. */
  lemma MovesAlone(s: State, t: nat) returns (s': State)
    requires StreamInv(s) && CallInv(s) && s.done && t < |s.threads|
    requires var th := s.threads[t]; !th.Idle? && !th.WAck? && !th.RAck? && (th.WLock? ==> s.wrMu == None)
    ensures OwnStep(s, s', t)
  {
    assert WriterOk(s, t);
    var call := s.calls[t];
    match s.threads[t]
    case WCheck(b) => s' := s.(threads := s.threads[t := WReject(None)]);
    case WLock(b) =>
      s' := s.(wrMu := Some(t), log := s.log + [Logged(call)], threads := s.threads[t := WSelect(|s.log|, b, b, 0)]);
    case WSelect(k, b, rest, n) => s' := s.(threads := s.threads[t := WFail(k, b, rest, n, None)]);
    case WFail(k, b, rest, n, None) =>
      s' := s.(threads := s.threads[t := WFail(k, b, rest, n, Some(s.werr))], calls := Noted(s, t, s.wargs));
    case WFail(k, b, rest, n, Some(w)) =>
      s' := s.(threads := s.threads[t := Idle], wrMu := None,
               failures := s.failures + [Failure(true, Some(k), n, CloseError(w, s.rerr), call.late, call.saw)],
               log := s.log[k := s.log[k].(result := Returned(n, Some(CloseError(w, s.rerr))))]);
    case WReject(None) =>
      s' := s.(threads := s.threads[t := WReject(Some(s.werr))], calls := Noted(s, t, s.wargs));
    case WReject(Some(w)) =>
      s' := s.(threads := s.threads[t := Idle],
               failures := s.failures + [Failure(true, None, 0, CloseError(w, s.rerr), call.late, call.saw)]);
    case RCheck(_) => s' := s.(threads := s.threads[t := RFail(None)]);
    case RSelect(_) => s' := s.(threads := s.threads[t := RFail(None)]);
    case RFail(None) => s' := s.(threads := s.threads[t := RFail(Some(s.rerr))], calls := Noted(s, t, s.rargs));
    case RFail(Some(r)) =>
      s' := s.(threads := s.threads[t := Idle],
               failures := s.failures + [Failure(false, None, 0, CloseError(r, s.werr), call.late, call.saw)]);
    case Closing(_, _, _) => s' := CloseMoves(s, t);
  }

  lemma CloseMoves(s: State, t: nat) returns (s': State)
    requires t < |s.threads| && s.threads[t].Closing?
    ensures CloseStep(s, s', t)
  {
    var th := s.threads[t];
    s' := if th.stored then s.(threads := s.threads[t := Idle], done := true)
    else if th.write then
      s.(threads := s.threads[t := th.(stored := true)], wargs := s.wargs + {th.arg},
         werr := Some(if th.arg == None then EOF else th.arg.value))
    else
      s.(threads := s.threads[t := th.(stored := true)], rargs := s.rargs + {th.arg},
         rerr := Some(if th.arg == None then ErrClosedPipe else th.arg.value));
  }

  /**
   * In every run, once the pipe is closed, no call is left hanging: each call in progress can take its next step
   * at once, and so can the Write that has the lock if it is that which the call waits for.
   */
  lemma CloseReleasesAll(run: seq<State>, i: nat, t: nat)
    requires Trace(run) && i < |run| && run[i].done && t < |run[i].threads| && !run[i].threads[t].Idle?
    ensures var u := WaitsFor(run[i], t);
            u < |run[i].threads| && !run[i].threads[u].Idle? && !(run[i].threads[u].WLock? && run[i].wrMu.Some?) &&
            exists s' :: NextStep(run[i], s', u)
  {
    hide Next, OwnStep, Ack;
    TraceInv(run, i);
    var s := run[i];
    var u := WaitsFor(s, t);
    assert WriterOk(s, u) && ReaderOk(s, u);
    if s.threads[u].WAck? {
      AckNeverStuck(run, i, s.threads[u].reader);
      var s' :| Ack(s, s', u, s.threads[u].reader);
      assert NextStep(s, s', u);
    } else if s.threads[u].RAck? {
      AckNeverStuck(run, i, u);
      var s' :| Ack(s, s', s.threads[u].from, u);
      assert NextStep(s, s', u);
    } else {
      var s' := MovesAlone(s, u);
      assert NextStep(s, s', u);
    }
  }

  // ----- A pipe closed at both ends

  lemma Extend(run: seq<State>, s: State)
    requires Trace(run) && Next(run[|run| - 1], s)
    ensures Trace(run + [s])
  {
    var longer := run + [s];
    forall i | 0 <= i < |longer| - 1
      ensures Next(longer[i], longer[i + 1])
    {
      if i < |run| - 1 {
        assert longer[i] == run[i] && longer[i + 1] == run[i + 1];
      }
    }
  }

  /** The first goroutine closes an end. */
  lemma Closes(run: seq<State>, write: bool, arg: Option<Error>) returns (longer: seq<State>)
    requires Trace(run)
    requires var s := run[|run| - 1]; 0 < |s.threads| == |s.calls| && s.threads[0].Idle?
    ensures Trace(longer)
    ensures var s, s' := run[|run| - 1], longer[|longer| - 1];
            && 0 < |s'.threads| == |s'.calls| && s'.threads[0].Idle? && s'.done && s'.failures == s.failures
            && s'.wargs == (if write then s.wargs + {arg} else s.wargs)
            && s'.rargs == (if write then s.rargs else s.rargs + {arg})
  {
    var s := run[|run| - 1];
    var th := Closing(write, arg, false);
    var s1 := s.(threads := s.threads[0 := th], calls := s.calls[0 := Call(th, s.done, false)]);
    var s2 := CloseMoves(s1, 0);
    var s3 := CloseMoves(s2, 0);
    assert Start(s, s1, 0) && CloseStep(s1, s2, 0) && CloseStep(s2, s3, 0);
    hide Trace, Start, CloseStep;
    Extend(run, s1);
    Extend(run + [s1], s2);
    Extend(run + [s1] + [s2], s3);
    longer := run + [s1] + [s2] + [s3];
  }

  /** The first goroutine reads from a closed pipe. */
  lemma ReadsClosed(run: seq<State>) returns (longer: seq<State>)
    requires Trace(run)
    requires var s := run[|run| - 1]; 0 < |s.threads| == |s.calls| && s.threads[0].Idle? && s.done
    ensures Trace(longer)
    ensures var s, s' := run[|run| - 1], longer[|longer| - 1];
            && s'.wargs == s.wargs && s'.rargs == s.rargs && |s'.failures| == |s.failures| + 1
            && var f := s'.failures[|s.failures|]; !f.write && f.late && (f.saw <==> s.rargs != {})
  {
    var s := run[|run| - 1];
    var th := RCheck(1);
    var s1 := s.(threads := s.threads[0 := th], calls := s.calls[0 := Call(th, s.done, false)]);
    var s2 := s1.(threads := s1.threads[0 := RFail(None)]);
    var s3 := s2.(threads := s2.threads[0 := RFail(Some(s.rerr))], calls := Noted(s2, 0, s.rargs));
    var call := s3.calls[0];
    var s4 := s3.(threads := s3.threads[0 := Idle],
    failures := s3.failures + [Failure(false, None, 0, CloseError(s.rerr, s.werr), call.late, call.saw)]);
    assert Start(s, s1, 0) && ReadStep(s1, s2, 0) && FailStep(s2, s3, 0) && FailStep(s3, s4, 0);
    hide Trace, Start, ReadStep, FailStep;
    Extend(run, s1);
    Extend(run + [s1], s2);
    Extend(run + [s1] + [s2], s3);
    Extend(run + [s1] + [s2] + [s3], s4);
    longer := run + [s1] + [s2] + [s3] + [s4];
  }

  /** After CloseRead(nil) and CloseWrite(err) with some other error, a Read returns ErrClosedPipe, not that error. */
  lemma ClosedAtBothEnds() returns (run: seq<State>)
    ensures Trace(run)
    ensures var s := run[|run| - 1];
            && s.wargs == {Some(Other(7))}
            && s.failures != [] && !s.failures[0].write && s.failures[0].err == ErrClosedPipe
  {
    var s := State([Idle], None, false, None, None, [Call(Idle, false, false)], [], [], [], {}, {});
    assert Trace([s]);
    hide Trace;
    run := Closes([s], false, None);
    run := Closes(run, true, Some(Other(7)));
    run := ReadsClosed(run);
    FailureCauses(run, |run| - 1, 0);
  }
}
