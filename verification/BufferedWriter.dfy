/** The buffered writer: nothing is lost, doubled or reordered, whatever the writer under it does. */
module BufferedWriter {
  import opened Options
  import opened Utf8
  import opened Buffers

  datatype Error = ShortWrite | Other(code: int)

  /** How one Write goes: at most `n` bytes are taken; whether it fails. */
  datatype Response = Response(n: nat, fail: Option<int>)

  /** How many of `len` bytes a Write takes, and its error. */
  function Reply(script: seq<Response>, len: nat): (nat, Option<Error>) {
    if script == [] then (len, None)
    else (if script[0].n < len then script[0].n else len,
          if script[0].fail.Some? then Some(Other(script[0].fail.value)) else None)
  }

  /** The writer underneath. When its script has ended it takes everything. */
  class Sink {
    var sent: Bytes
    var script: seq<Response>
    /** The errors that its Writes have returned. */
    ghost var told: set<Error>
    /** Whether a Write has taken less than it was given, and returned no error. */
    ghost var short: bool

    constructor (script: seq<Response>)
      ensures sent == [] && this.script == script && told == {} && !short
    {
      sent, this.script, told, short := [], script, {}, false;
    }

    /** Each call takes one step of the script, while there is one. */
    method Write(p: Bytes) returns (n: nat, err: Option<Error>)
      modifies this
      ensures n <= |p| && sent == old(sent) + p[..n] && (n, err) == Reply(old(script), |p|)
      ensures old(script) == [] ==> script == [] && n == |p| && err == None
      ensures old(script) != [] ==> script == old(script)[1..]
      ensures told == old(told) + (if err.Some? then {err.value} else {})
      ensures short == (old(short) || (n < |p| && err == None))
    {
      n, err := |p|, None;
      if script != [] {
        if script[0].n < n {
          n := script[0].n;
        }
        if script[0].fail.Some? {
          err := Some(Other(script[0].fail.value));
        }
        script := script[1..];
      }
      sent := sent + p[..n];
      told := told + if err.Some? then {err.value} else {};
      short := short || (n < |p| && err == None);
    }
  }

  datatype Op = Write(p: Bytes) | WriteString(s: Bytes) | WriteByte(c: Byte) | Flush

  /** The bytes that an operation offers. */
  function Offered(op: Op): Bytes {
    match op
    case Write(p) => p
    case WriteString(s) => s
    case WriteByte(c) => [c]
    case Flush => []
  }

  /** The counts and errors that a run returned: short only with an error, and nothing after one. */
  ghost predicate Told(ops: seq<Op>, counts: seq<nat>, errs: seq<Option<Error>>, now: Option<Error>) {
    && |counts| == |errs| <= |ops|
    && (forall i :: 0 <= i < |counts| ==> counts[i] <= |Offered(ops[i])|)
    && (forall i :: 0 <= i < |counts| && errs[i] == None ==> counts[i] == |Offered(ops[i])|)
    && (forall i :: 0 <= i < |counts| && errs[i] != None ==> now == errs[i])
    && (forall i, j :: 0 <= i < j < |counts| && errs[i] != None ==> errs[j] == errs[i] && counts[j] == 0)
  }

  /** Nothing is accepted, and each call tells the same error. */
  ghost predicate Refused(counts: seq<nat>, errs: seq<Option<Error>>, e: Option<Error>) {
    (forall i :: 0 <= i < |counts| ==> counts[i] == 0) && (forall i :: 0 <= i < |errs| ==> errs[i] == e)
  }

  /** The accepted prefixes, one after the other. */
  ghost function Accepted(ops: seq<Op>, counts: seq<nat>): Bytes
    requires |counts| <= |ops|
  {
    if counts == [] then []
    else var k := |counts| - 1;
      Accepted(ops, counts[..k]) + Prefix(Offered(ops[k]), counts[k])
  }

  function Prefix(p: Bytes, k: nat): Bytes {
    if k <= |p| then p[..k] else p
  }

  class Writer {
    const wr: Sink
    const buf: array<Byte>
    var err: Option<Error>
    var n: nat

    ghost predicate Valid()
      reads this, wr
    {
      n <= buf.Length && buf.Length > 0 && ErrKnown()
    }

    /** The error is one of the writer underneath, or it wrote short. */
    ghost predicate ErrKnown()
      reads this`err, wr
    {
      err.Some? ==> err.value in wr.told || (err.value.ShortWrite? && wr.short)
    }

    /** What was sent, and what waits in the buffer. */
    ghost function Stream(): Bytes
      requires n <= buf.Length
      reads this, wr, buf
    {
      wr.sent + buf[..n]
    }

    /** After an error nothing more is sent, and the error stays. */
    twostate predicate Sticky()
      reads this, wr
    {
      old(err) != None ==> err == old(err) && wr.sent == old(wr.sent) && wr.script == old(wr.script)
    }

    constructor (wr: Sink, size: int)
      ensures Valid() && fresh(buf) && this.wr == wr && n == 0 && err == None
    {
      this.wr := wr;
      buf := new Byte[if size <= 0 then 4096 else size](_ => 0);
      n, err := 0, None;
    }

    method Flush() returns (e: Option<Error>)
      requires Valid()
      modifies this`err, this`n, buf, wr
      ensures Valid() && Stream() == old(Stream()) && Sticky()
      ensures e == err && (e == None ==> n == 0 && wr.sent == Stream())
      ensures |wr.script| <= |old(wr.script)|
      ensures old(err != None || n == 0) ==> unchanged(wr) && e == old(err)
      ensures old(err == None && n > 0) ==>
                var (k, f) := Reply(old(wr.script), old(n));
                e == if f == None && k < old(n) then Some(ShortWrite) else f
    {
      if err != None {
        return err;
      }
      if n == 0 {
        return None;
      }
      ghost var sent, held := wr.sent, buf[..n];
      var k;
      k, e := wr.Write(buf[..n]);
      assert sent + held == (sent + held[..k]) + held[k..];
      if k < n && e == None {
        e := Some(ShortWrite);
      }
      if e != None {
        var rest := buf[k..n];
        assert rest == held[k..];
        if 0 < k < n {
          Put(buf, 0, rest);
        }
        assert buf[..n - k] == rest;
        n := n - k;
        err := e;
        return;
      }
      assert held[k..] == [];
      n := 0;
      return None;
    }

    /** Copies as much of `p` as there is room for. */
    method Append(p: Bytes) returns (k: nat)
      requires Valid()
      modifies this`n, buf
      ensures Valid() && k <= |p| && n == old(n) + k
      ensures k == if |p| <= buf.Length - old(n) then |p| else buf.Length - old(n)
      ensures Stream() == old(Stream()) + p[..k]
    {
      k := if |p| <= buf.Length - n then |p| else buf.Length - n;
      ghost var held := buf[..n];
      Put(buf, n, p[..k]);
      n := n + k;
      assert buf[..n] == held + p[..k];
      assert wr.sent + (held + p[..k]) == (wr.sent + held) + p[..k];
    }

    /** Straight from `p` to the writer underneath. */
    method WriteDirect(p: Bytes) returns (k: nat)
      requires Valid() && n == 0 && err == None
      modifies this`err, wr
      ensures Valid() && k <= |p| && Stream() == old(Stream()) + p[..k]
      ensures old(wr.script) == [] ==> k == |p| && wr.script == []
      ensures old(wr.script) != [] ==> |wr.script| < |old(wr.script)|
    {
      k, err := wr.Write(p);
      assert buf[..n] == [];
    }

    method Write(p0: Bytes) returns (nn: nat, e: Option<Error>)
      requires Valid()
      modifies this, buf, wr
      ensures Valid() && nn <= |p0| && Stream() == old(Stream()) + p0[..nn] && Sticky()
      ensures e == err && (e == None ==> nn == |p0|) && (old(err) != None ==> nn == 0)
      ensures |p0| <= old(buf.Length - n) ==> unchanged(wr) && e == old(err)
    {
      hide Stream;
      nn := 0;
      var p := p0;
      assert p0[..0] == [];
      while |p| > buf.Length - n && err == None
        invariant Valid() && nn <= |p0| && p == p0[nn..] && Stream() == old(Stream()) + p0[..nn]
        invariant old(err) != None || |p0| <= old(buf.Length - n) ==>
                    nn == 0 && n == old(n) && err == old(err) && unchanged(wr)
        decreases if err == None then 1 else 0, |wr.script|, |p|, n
      {
        var k;
        if n == 0 {
          k := WriteDirect(p);
        } else {
          k := Append(p);
          var _ := Flush();
        }
        Onward(p0, nn, p, k, old(Stream()), Stream());
        nn := nn + k;
        p := p[k..];
      }
      if err != None {
        return nn, err;
      }
      var k := Append(p);
      Onward(p0, nn, p, k, old(Stream()), Stream());
      nn := nn + k;
      return nn, None;
    }

    method WriteByte(c: Byte) returns (e: Option<Error>)
      requires Valid()
      modifies this, buf, wr
      ensures Valid() && e == err && Sticky()
      ensures Stream() == old(Stream()) + (if e == None then [c] else [])
      ensures old(n < buf.Length) ==> unchanged(wr) && e == old(err)
    {
      if err != None {
        return err;
      }
      if buf.Length - n <= 0 {
        var f := Flush();
        if f != None {
          return err;
        }
      }
      var k := Append([c]);
      assert [c][..1] == [c];
      return None;
    }

    method WriteString(s0: Bytes) returns (nn: nat, e: Option<Error>)
      requires Valid()
      modifies this, buf, wr
      ensures Valid() && nn <= |s0| && Stream() == old(Stream()) + s0[..nn] && Sticky()
      ensures e == err && (e == None ==> nn == |s0|) && (old(err) != None ==> nn == 0)
      ensures |s0| <= old(buf.Length - n) ==> unchanged(wr) && e == old(err)
    {
      hide Stream;
      nn := 0;
      var s := s0;
      assert s0[..0] == [];
      while |s| > buf.Length - n && err == None
        invariant Valid() && nn <= |s0| && s == s0[nn..] && Stream() == old(Stream()) + s0[..nn]
        invariant old(err) != None || |s0| <= old(buf.Length - n) ==>
                    nn == 0 && n == old(n) && err == old(err) && unchanged(wr)
        decreases if err == None then 1 else 0, |s|, n
      {
        var k := Append(s);
        Onward(s0, nn, s, k, old(Stream()), Stream());
        nn := nn + k;
        s := s[k..];
        var _ := Flush();
      }
      if err != None {
        return nn, err;
      }
      var k := Append(s);
      Onward(s0, nn, s, k, old(Stream()), Stream());
      nn := nn + k;
      return nn, None;
    }

    /** One operation: how many bytes were accepted, and the error. */
    method Do(op: Op) returns (k: nat, e: Option<Error>)
      requires Valid()
      modifies this, buf, wr
      ensures Valid() && Sticky() && e == err && k <= |Offered(op)|
      ensures Stream() == old(Stream()) + Offered(op)[..k]
      ensures (e == None ==> k == |Offered(op)|) && (old(err) != None ==> k == 0)
      ensures op.Flush? && e == None ==> n == 0
    {
      match op {
        case Write(p) => k, e := Write(p);
        case WriteString(s) => k, e := WriteString(s);
        case WriteByte(c) =>
          e := WriteByte(c);
          k := if e == None then 1 else 0;
        case Flush =>
          e := Flush();
          k := 0;
      }
    }

    /**
     * Any run of operations: what was sent and what is held grows by exactly what was accepted, in order. A run
     * that starts after an error sends nothing, so what was sent at the first error stays all that is sent.
     */
    method Run(ops: seq<Op>) returns (counts: seq<nat>, errs: seq<Option<Error>>)
      requires Valid()
      modifies this, buf, wr
      ensures Valid() && |counts| == |ops| && Told(ops, counts, errs, err)
      ensures wr.told == {} && !wr.short ==> forall i :: 0 <= i < |errs| ==> errs[i] == None
      ensures Stream() == old(Stream()) + Accepted(ops, counts)
      ensures ops != [] && ops[|ops| - 1].Flush? && errs[|ops| - 1] == None ==> wr.sent == Stream()
      ensures Sticky() && (old(err) != None ==> Refused(counts, errs, old(err)) && Accepted(ops, counts) == [])
    {
      hide Offered, Told, Accepted, Stream;
      counts, errs := [], [];
      ToldNothing(ops, err);
      for i := 0 to |ops|
        invariant Valid() && |counts| == |errs| == i && Told(ops, counts, errs, err)
        invariant Stream() == old(Stream()) + Accepted(ops, counts)
        invariant i > 0 && ops[i - 1].Flush? && errs[i - 1] == None ==> wr.sent == Stream()
        invariant Sticky() && (old(err) != None ==> Refused(counts, errs, old(err)) && Accepted(ops, counts) == [])
      {
        ghost var was := err;
        var k, e := Do(ops[i]);
        ToldNext(ops, counts, errs, was, k, e);
        if n == 0 {
          NothingHeld();
        }
        counts, errs := counts + [k], errs + [e];
      }
      ToldHealthy(ops, counts, errs, err);
    }

    lemma NothingHeld()
      requires Valid() && n == 0
      ensures wr.sent == Stream()
    {
      assert buf[..n] == [];
    }
  }

  lemma ToldHealthy(ops: seq<Op>, counts: seq<nat>, errs: seq<Option<Error>>, now: Option<Error>)
    requires Told(ops, counts, errs, now)
    ensures now == None ==> forall i :: 0 <= i < |errs| ==> errs[i] == None
  {
  }

  lemma ToldNothing(ops: seq<Op>, now: Option<Error>)
    ensures Told(ops, [], [], now) && Accepted(ops, []) == []
  {
  }

  lemma ToldNext(ops: seq<Op>, counts: seq<nat>, errs: seq<Option<Error>>, was: Option<Error>, k: nat,
                 now: Option<Error>)
    requires |counts| < |ops| && Told(ops, counts, errs, was)
    requires var offered := Offered(ops[|counts|]);
             k <= |offered| && (now == None ==> k == |offered|) && (was != None ==> now == was && k == 0)
    ensures Told(ops, counts + [k], errs + [now], now)
    ensures Accepted(ops, counts + [k]) == Accepted(ops, counts) + Offered(ops[|counts|])[..k]
  {
    hide Offered, Accepted;
    AcceptedNext(ops, counts, k);
    var cs, es := counts + [k], errs + [now];
    forall i | 0 <= i < |cs|
      ensures cs[i] <= |Offered(ops[i])| && if es[i] == None then cs[i] == |Offered(ops[i])| else now == es[i]
    {
      if i < |counts| {
        assert cs[i] == counts[i] && es[i] == errs[i];
      }
    }
  }

  lemma AcceptedNext(ops: seq<Op>, counts: seq<nat>, k: nat)
    requires |counts| < |ops| && k <= |Offered(ops[|counts|])|
    ensures Accepted(ops, counts + [k]) == Accepted(ops, counts) + Offered(ops[|counts|])[..k]
  {
    hide Offered;
    assert (counts + [k])[..|counts|] == counts;
  }

  lemma Onward(p0: Bytes, nn: nat, p: Bytes, k: nat, before: Bytes, now: Bytes)
    requires nn <= |p0| && p == p0[nn..] && k <= |p| && now == before + p0[..nn] + p[..k]
    ensures now == before + p0[..nn + k] && p[k..] == p0[nn + k..]
  {
    assert p0[..nn + k] == p0[..nn] + p[..k];
  }
}
