/** The buffered reader: what it hands out is the stream of the reader under it, whatever the pieces. */
module BufferedReader {
  import opened Options
  import opened Utf8
  import opened ByteSearch
  import opened Buffers
  import opened ByteSource
  import opened LineScanner
  import Integers

  const MIN_SIZE := 16

  /** `d` ends at the first `delim` in it. */
  ghost predicate EndsAtFirst(d: Bytes, delim: Byte) {
    d != [] && d[|d| - 1] == delim && delim !in d[..|d| - 1]
  }

  datatype Call =
    | Read(size: nat)
    | ReadByte
    | ReadSlice(delim: Byte)
    | ReadBytes(delim: Byte)
    | ReadLine
    | Peek(n: int)
    | Discard(n: int)
    | UnreadByte

  /**
   * What a call did with the stream: it read `n` bytes, read `n` bytes and kept a carriage return back, skipped
   * `n` bytes, put a byte back, asked the reader for more while bytes are held, or did nothing.
   */
  datatype Result = Took(n: nat) | KeptBack(n: nat) | Skipped(n: nat) | Returned | Asked | Nothing

  predicate Fits(call: Call, res: Result) {
    match call
    case Peek(_) => res.Asked? || res.Nothing?
    case Discard(_) => res.Skipped?
    case UnreadByte => res.Returned? || res.Nothing?
    case ReadLine => res.Took? || res.KeptBack?
    case _ => res.Took?
  }

  /**
   * What a call does with `held` bytes in the buffer, if it gets `more` from the reader: it asks only when it needs
   * to, and a read takes all that it can.
   */
  predicate Served(call: Call, res: Result, held: int, more: int) {
    held >= 0 && more >= 0 &&
    match call
    case Read(size) => res.Took? && res.n == Integers.Min(size, held + more) && (size == 0 || held > 0 ==> more == 0)
    case ReadByte => res.Took? && res.n == Integers.Min(1, held + more) && (held > 0 ==> more == 0)
    case ReadSlice(_) => res.Took? && (res.n == 0 ==> held + more == 0)
    case ReadBytes(_) => res.Took? && (res.n == 0 ==> held + more == 0)
    case ReadLine => (res.Took? && (res.n == 0 ==> held + more == 0)) || res.KeptBack?
    case Peek(n) => n <= held ==> more == 0
    case Discard(n) =>
      res.Skipped? && res.n == (if n <= 0 then 0 else Integers.Min(n, held + more)) && (n <= held ==> more == 0)
    case UnreadByte => more == 0
  }

  /** All that, call by call; `given` is how much the reader has handed out before each of them and in the end. */
  ghost predicate AllServed(calls: seq<Call>, results: seq<Result>, given: seq<int>) {
    && |results| <= |calls| && |given| == |results| + 1
    && forall i :: 0 <= i < |results| ==> ServedAt(calls, results, given, i)
  }

  predicate ServedAt(calls: seq<Call>, results: seq<Result>, given: seq<int>, i: nat)
    requires i < |results| <= |calls| && |given| == |results| + 1
  {
    Served(calls[i], results[i], given[i] - ViewOf(results[..i]).at, given[i + 1] - given[i])
  }

  lemma ServedNext(calls: seq<Call>, results: seq<Result>, given: seq<int>, res: Result, now: int)
    requires AllServed(calls, results, given) && |results| < |calls|
    requires Served(calls[|results|], res, given[|results|] - ViewOf(results).at, now - given[|results|])
    ensures AllServed(calls, results + [res], given + [now])
  {
    hide Served, ViewOf;
    var rs, gs := results + [res], given + [now];
    forall i | 0 <= i < |rs|
      ensures ServedAt(calls, rs, gs, i)
    {
      assert rs[..i] == results[..i];
      if i == |results| {
        assert results[..i] == results;
      } else {
        assert ServedAt(calls, results, given, i);
      }
    }
  }

  /** Where a client is: how many bytes it has consumed, and which byte of the stream was the last one read. */
  datatype View = View(at: nat, mark: int)

  function Next(v: View, res: Result): View {
    match res
    case Took(n) => if n > 0 then View(v.at + n, v.at + n - 1) else v
    case KeptBack(n) => View(v.at + n, v.at + n)
    case Skipped(n) => View(v.at + n, v.mark)
    case Returned => View(if v.at > 0 then v.at - 1 else 0, -1)
    case Asked => v
    case Nothing => v
  }

  function ViewOf(results: seq<Result>): View {
    if results == [] then View(0, -1) else Next(ViewOf(results[..|results| - 1]), results[|results| - 1])
  }

  /** Whether the reader was asked for more since something was last consumed. */
  function AskedSince(results: seq<Result>): bool {
    results != [] && AskedNext(AskedSince(results[..|results| - 1]), results[|results| - 1])
  }

  function AskedNext(asked: bool, res: Result): bool {
    match res
    case Took(n) => n == 0 && asked
    case KeptBack(_) => false
    case Skipped(n) => n == 0 && asked
    case Returned => false
    case Asked => true
    case Nothing => asked
  }

  /** When UnreadByte fails: nothing was read since the last byte put back, or Peek has asked the reader since. */
  predicate Refused(results: seq<Result>) {
    ViewOf(results).mark < 0 || AskedSince(results)
  }

  /** Every result is one of its call, and UnreadByte failed exactly where it is refused. */
  predicate Answered(calls: seq<Call>, results: seq<Result>) {
    results == [] ||
    var k := |results| - 1;
    var before := results[..k];
    && k < |calls| && Answered(calls, before) && Fits(calls[k], results[k])
    && (calls[k].UnreadByte? ==> (results[k].Returned? <==> !Refused(before)))
  }

  /** The byte last read is the same as the one last consumed. */
  predicate Restores(s: Bytes, v: View) {
    0 <= v.mark < |s| && 0 < v.at <= |s| && s[v.mark] == s[v.at - 1]
  }

  /** Every byte that was put back was put back where the last byte read and the last one consumed are the same. */
  predicate Unbroken(s: Bytes, results: seq<Result>) {
    results == [] ||
    var before := results[..|results| - 1];
    Unbroken(s, before) && (results[|results| - 1].Returned? ==> Restores(s, ViewOf(before)))
  }

  /** The bytes handed out are those of the stream, but for the scars. */
  ghost predicate Faithful(t: Bytes, g: Bytes, scars: set<nat>) {
    |t| == |g| && forall p: nat :: p in scars <==> p < |t| && t[p] != g[p]
  }

  lemma FaithfulGrows(t: Bytes, g: Bytes, scars: set<nat>, d: Bytes)
    requires Faithful(t, g, scars)
    ensures Faithful(t + d, g + d, scars)
  {
    forall p: nat
      ensures p in scars <==> p < |t + d| && (t + d)[p] != (g + d)[p]
    {
    }
  }

  /** `last` is the byte at `mark`, if there is one. */
  ghost predicate MarkIs(t: Bytes, used: nat, mark: int, last: int) {
    && -1 <= last < 256 && -1 <= mark < |t| && (last >= 0 <==> mark >= 0)
    && (mark >= 0 ==> used > 0 && t[mark] == last)
  }

  lemma MarkGrows(t: Bytes, used: nat, mark: int, last: int, d: Bytes, now: nat)
    requires MarkIs(t, used, mark, last) && (used > 0 ==> now > 0)
    ensures MarkIs(t + d, now, mark, last) && MarkIs(t, now, mark, last)
  {
  }

  lemma MarkSet(t: Bytes, used: nat)
    requires 0 < used <= |t|
    ensures MarkIs(t, used, used - 1, t[used - 1])
  {
  }

  lemma MarkNone(t: Bytes, used: nat)
    ensures MarkIs(t, used, -1, -1)
  {
  }

  /** What would be put back is the byte last consumed. */
  predicate KnownAt(t: Bytes, v: View) {
    v.mark >= 0 ==> Restores(t, v)
  }

  /** That after bytes were skipped. */
  lemma KnownAfter(was: Bytes, t: Bytes, from: nat, used: nat, mark: int)
    requires was <= t && from <= used <= |t| && from <= |was| && mark < |was|
    ensures used == from ==> (KnownAt(t, View(used, mark)) <==> KnownAt(was, View(from, mark)))
    ensures used > from && mark == from - 1 >= 0 ==>
              (KnownAt(t, View(used, mark)) <==> t[used - 1] == t[from - 1])
  {
  }

  lemma LastIsKnown(t: Bytes, used: nat)
    requires 0 < used <= |t|
    ensures KnownAt(t, View(used, used - 1))
  {
  }

  /** That after a byte was kept back. */
  lemma KeptIsKnown(t: Bytes, used: nat, c: Byte)
    requires 0 < used < |t| && t[used] == RETURN && c == t[used - 1]
    ensures KnownAt(t, View(used, used)) <==> c == RETURN
  {
  }

  class Reader {
    const src: Source
    const buf: array<Byte>
    var r: nat
    var w: nat
    var err: Option<Error>
    var lastByte: int
    /**
     * The stream as far as it was read from `src`, as it is handed out: the same bytes, until UnreadByte puts
     * back another one.
     */
    ghost var text: Bytes
    /** Where it differs from the stream. */
    ghost var scars: set<nat>
    /** How many bytes of it have been consumed. */
    ghost var used: nat
    /** Which byte of the stream was the last one read, or -1. */
    ghost var mark: int
    /** No error but the end of the stream has been met. */
    ghost var clean: bool

    ghost predicate Valid()
      reads this, src, buf
    {
      && r <= w <= buf.Length && buf.Length >= MIN_SIZE && used <= |text| == |src.given|
      && InStep()
      && Faithful(text, src.given, scars)
      && MarkIs(text, used, mark, lastByte)
      && Known()
    }

    /** The buffer holds what was read and not yet consumed. */
    ghost predicate InStep()
      requires r <= w <= buf.Length && used <= |text|
      reads this`r, this`w, this`used, this`text, buf
    {
      buf[r..w] == text[used..]
    }

    ghost predicate Known()
      reads this`err, this`clean, src
    {
      && (err == Some(Eof) ==> src.data == [])
      && ErrKnown(err)
      && (!clean ==> src.failed || src.longestIdle >= MAX_EMPTY_READS)
    }

    /** Where no byte can be put in front of what is held. */
    ghost predicate AtFront()
      reads this`r, this`w
    {
      r == 0 && w > 0
    }

    /** That after a call that consumed so much. */
    twostate predicate FrontAfter(n: nat)
      reads this
    {
      AtFront() == (n == 0 && old(AtFront()))
    }

    /** An error is one that was told, or comes from too many empty reads; while all is clean, it is the end. */
    ghost predicate ErrKnown(e: Option<Error>)
      reads this`clean, src
    {
      e.Some? ==> (clean ==> e.value.Eof?) &&
                  (((e.value.Eof? || e.value.Other?) && e.value in src.told) ||
                   (e.value.NoProgress? && src.longestIdle >= MAX_EMPTY_READS))
    }

    /** What unreading would put back is the last byte consumed. */
    ghost predicate LastKnown()
      reads this`mark, this`used, this`text
    {
      KnownAt(text, View(used, mark))
    }

    constructor (src: Source, size: nat)
      requires src.given == []
      ensures Valid() && this.src == src && fresh(buf) && buf.Length == if size < MIN_SIZE then MIN_SIZE else size
      ensures scars == {} && used == 0 && mark == -1 && clean && err == None && r == w
    {
      this.src := src;
      buf := new Byte[if size < MIN_SIZE then MIN_SIZE else size](_ => 0);
      r, w, err, lastByte := 0, 0, None, -1;
      text, scars, used, mark, clean := [], {}, 0, -1, true;
    }

    /** What reading never changes. */
    twostate predicate Grown()
      reads this, src
    {
      && old(text) <= text && scars == old(scars)
      && src.All() == old(src.All()) && old(src.told) <= src.told && old(src.longestIdle) <= src.longestIdle
      && (clean ==> old(clean))
      && (old(src.script) == [] ==> src.script == [] && clean == old(clean))
    }

    /** Moves the data to the front. */
    method Slide()
      requires Valid()
      modifies this`r, this`w, buf
      ensures Valid() && r == 0 && w == old(w - r)
    {
      if r > 0 {
        ghost var pending := buf[r..w];
        Put(buf, 0, buf[r..w]);
        w := w - r;
        r := 0;
        assert buf[r..w] == pending;
      }
    }

    lemma PrefixHeld()
      requires r <= w <= buf.Length && used <= |text| && InStep()
      ensures buf[..w][r..] == text[used..]
    {
    }

    /** Takes note of `n` bytes that were read behind those held. */
    method Received(n: nat, ghost given: Bytes)
      requires r <= w <= w + n <= buf.Length && used <= |text| == |given| && buf[..w][r..] == text[used..]
      requires src.given == given + buf[w..w + n] && Faithful(text, given, scars) && MarkIs(text, used, mark, lastByte)
      modifies this`w, this`text
      ensures w == old(w) + n && text == old(text) + buf[old(w)..w] && |text| == |src.given|
      ensures InStep() && Faithful(text, src.given, scars) && MarkIs(text, used, mark, lastByte)
    {
      hide Faithful, MarkIs;
      ghost var d := buf[w..w + n];
      HeldGrows(buf[..], r, w, n, buf[..w], text[used..], text, used, d);
      FaithfulGrows(text, given, scars, d);
      MarkGrows(text, used, mark, lastByte, d, used);
      text := text + d;
      w := w + n;
      assert buf[r..w] == buf[..][r..w];
    }

    /** One read into the free part of the buffer. */
    method ReadOnce() returns (n: nat, e: Option<Error>)
      requires Valid() && w < buf.Length
      modifies this`w, this`clean, this`text, buf, src
      ensures Valid() && Grown() && |src.data| + n == |old(src.data)| && w == old(w) + n
      ensures e == Some(Eof) ==> src.data == []
      ensures ErrKnown(e)
      ensures src.idle == if n > 0 then 0 else old(src.idle) + 1
      ensures src.longestIdle >= src.idle
      ensures old(src.script) == [] ==> n > 0 || e != None
      ensures (n, e) == Reply(old(src.script), old(src.data), buf.Length - old(w))
    {
      hide Reply, Faithful, MarkIs, InStep, Source.All;
      PrefixHeld();
      n, e := src.Read(buf, w);
      Received(n, old(src.given));
      clean := clean && (e == None || e == Some(Eof));
    }

    /** Reads a new chunk into the buffer. */
    method Fill()
      requires Valid() && w - r < buf.Length
      modifies this`r, this`w, this`err, this`clean, this`text, buf, src
      ensures Valid() && Grown()
      ensures err != None || |src.data| < |old(src.data)|
      ensures w - r >= old(w - r) && (err == None ==> w - r > old(w - r)) && r == 0
    {
      Slide();
      if w >= buf.Length {
        assert false; // panic("bufio: tried to fill full buffer")
      }
      var i := MAX_EMPTY_READS;
      while i > 0
        invariant Valid() && Grown() && w == old(w - r) < buf.Length && r == 0 && err == old(err)
        invariant 0 <= i <= MAX_EMPTY_READS && src.idle >= MAX_EMPTY_READS - i && |src.data| == |old(src.data)|
        invariant i < MAX_EMPTY_READS ==> src.longestIdle >= src.idle && old(src.script) != []
      {
        var n, e := ReadOnce();
        if e != None {
          err := e;
          return;
        }
        if n > 0 {
          return;
        }
        i := i - 1;
      }
      err, clean := Some(NoProgress), false;
    }

    method ReadErr() returns (e: Option<Error>)
      requires Valid()
      modifies this`err
      ensures Valid() && err == None && e == old(err) && ErrKnown(e) && (e == Some(Eof) ==> src.data == [])
      ensures e != Some(BufferFull)
    {
      e := err;
      err := None;
    }

    /** Takes `n` bytes of the buffer. */
    method Take(n: nat) returns (d: Bytes)
      requires Valid() && n <= w - r
      modifies this`r, this`used
      ensures Valid() && r == old(r) + n && used == old(used) + n
      ensures d == text[old(used)..used] == old(buf[r..w])[..n]
      ensures n > 0 ==> d[n - 1] == buf[r - 1] == text[used - 1]
    {
      hide Faithful, MarkIs;
      d := buf[r..r + n];
      assert d == buf[r..w][..n] == text[used..][..n];
      assert buf[r + n..w] == buf[r..w][n..];
      assert text[used + n..] == text[used..][n..];
      MarkGrows(text, used, mark, lastByte, [], used + n);
      r, used := r + n, used + n;
    }

    /** The next `n` bytes, or as many as there are, without consuming them. */
    method Peek(n: int) returns (d: Bytes, e: Option<Error>)
      requires Valid()
      modifies this`r, this`w, this`err, this`clean, this`text, buf, src
      ensures Valid() && Grown()
      ensures d <= text[used..]
      ensures if e == None then |d| == n else |d| < n || n < 0
      ensures (e == Some(BufferFull) <==> n > buf.Length) && (e == Some(NegativeCount) <==> n < 0)
      ensures e == Some(Eof) ==> src.data == []
      ensures n >= 0 && e != None ==> d == text[used..]
      ensures 0 <= n <= old(w - r) ==> e == None
      ensures 0 <= n <= buf.Length ==> ErrKnown(e)
      ensures w - r >= old(w - r)
      ensures if old(w - r < n && w - r < buf.Length && err == None) then r == 0
              else r == old(r) && w == old(w) && text == old(text) && unchanged(src)
    {
      hide Faithful, MarkIs;
      if n < 0 {
        return [], Some(NegativeCount);
      }
      while w - r < n && w - r < buf.Length && err == None
        invariant Valid() && Grown() && w - r >= old(w - r)
        invariant if old(w - r < n && w - r < buf.Length && err == None)
                  then r == 0 || (r == old(r) && w == old(w) && err == None)
                  else r == old(r) && w == old(w) && err == old(err) && text == old(text) && unchanged(src)
        decreases if err == None then 1 else 0, |src.data|
      {
        Fill();
      }
      if n > buf.Length {
        return buf[r..w], Some(BufferFull);
      }
      var avail := w - r;
      if avail < n {
        e := ReadErr();
        if e == None {
          e := Some(BufferFull);
        }
        return buf[r..w], e;
      }
      FrontOf(buf[..], r, w, n);
      return buf[r..r + n], None;
    }

    /** Skips the next `n` bytes; the byte to be unread stays what it was. */
    method Discard(n: int) returns (discarded: nat, e: Option<Error>)
      requires Valid()
      modifies this`r, this`w, this`err, this`clean, this`used, this`text, buf, src
      ensures Valid() && Grown() && used == old(used) + discarded
      ensures if e == None then discarded == n else discarded < n || n < 0
      ensures n < 0 <==> e == Some(NegativeCount)
      ensures n < 0 ==> discarded == 0 && unchanged(src) && r == old(r) && w == old(w)
      ensures 0 <= n <= old(w - r) ==> e == None && unchanged(src) && r == old(r) + n && w == old(w)
      ensures e != None && n >= 0 ==> used == |text| && (e == Some(Eof) ==> src.data == []) && ErrKnown(e)
      ensures FrontAfter(discarded)
      ensures discarded == 0 ==> (LastKnown() <==> old(LastKnown()))
      ensures discarded > 0 && mark == old(used) - 1 >= 0 ==> (LastKnown() <==> text[used - 1] == text[old(used) - 1])
    {
      hide InStep, Faithful, MarkIs, KnownAt;
      MarkBounds();
      discarded, e := 0, None;
      if n < 0 {
        e := Some(NegativeCount);
      } else if n > 0 {
        discarded, e := Skip(n);
      }
      KnownAfter(old(text), text, old(used), used, mark);
    }

    /** The loop of Discard. */
    method Skip(n: nat) returns (discarded: nat, e: Option<Error>)
      requires Valid() && n > 0
      modifies this`r, this`w, this`err, this`clean, this`used, this`text, buf, src
      ensures Valid() && Grown() && used == old(used) + discarded
      ensures if e == None then discarded == n else discarded < n
      ensures n <= old(w - r) ==> e == None && unchanged(src) && text == old(text) && r == old(r) + n && w == old(w)
      ensures e != None ==> used == |text| && (e == Some(Eof) ==> src.data == []) && ErrKnown(e)
      ensures FrontAfter(discarded)
    {
      hide InStep, Faithful, MarkIs, Known, Source.All;
      var remain := n;
      while true
        invariant Valid() && Grown() && 0 < remain <= n && used == old(used) + (n - remain)
        invariant n <= old(w - r) ==> remain == n
        invariant if remain == n then unchanged(src) && text == old(text) && r == old(r) && w == old(w) else r > 0
        decreases remain
      {
        var skip := w - r;
        if skip == 0 {
          Fill();
          skip := w - r;
        }
        if skip > remain {
          skip := remain;
        }
        var _ := Take(skip);
        remain := remain - skip;
        if remain == 0 {
          return n, None;
        }
        if err != None {
          NothingHeld();
          e := ReadErr();
          return n - remain, e;
        }
      }
    }

    /** Reads into `p`; at most one read of the stream. */
    method Read(p: array<Byte>) returns (n: nat, e: Option<Error>)
      requires Valid() && p != buf
      modifies this, p, buf, src
      ensures Valid() && Grown() && n <= p.Length && used == old(used) + n
      ensures p[..n] == text[old(used)..used]
      ensures e == Some(Eof) ==> src.data == [] && (p.Length > 0 ==> used == |text|)
      ensures mark == (if n > 0 then used - 1 else old(mark)) && FrontAfter(n)
      ensures p.Length == 0 || old(r < w || err != None) ==> unchanged(src) && text == old(text)
      ensures p.Length > 0 && old(r < w) ==> n == Integers.Min(p.Length, old(w - r)) && e == None && err == old(err)
      ensures p.Length == 0 || old(r == w && err != None) ==> n == 0 && e == old(err) && err == None
      ensures p.Length > 0 && old(r == w && err == None) ==>
                var room := if p.Length >= buf.Length then p.Length else buf.Length;
                var (k, f) := Reply(old(src.script), old(src.data), room);
                && n == Integers.Min(p.Length, k) && |text| == |old(text)| + k
                && (if p.Length >= buf.Length || k == 0 then e == f && err == None else e == None && err == f)
    {
      hide InStep, Reply, Faithful, MarkIs;
      n := p.Length;
      if n == 0 {
        e := ReadErr();
        return 0, e;
      }
      if r == w {
        if err != None {
          NothingHeld();
          e := ReadErr();
          return 0, e;
        }
        if p.Length >= buf.Length {
          n, e := ReadDirect(p);
          return;
        }
        n := ReadInto();
        if n == 0 {
          NothingHeld();
          e := ReadErr();
          return 0, e;
        }
      }
      n := CopyOut(p);
      e := None;
    }

    lemma NothingHeld()
      requires Valid() && r == w
      ensures used == |text|
    {
      assert |buf[r..w]| == 0;
    }

    /** One read into the empty buffer. */
    method ReadInto() returns (n: nat)
      requires Valid() && r == w && err == None
      modifies this`r, this`w, this`err, this`clean, this`text, buf, src
      ensures Valid() && Grown() && r == 0 && w == n && |text| == |old(text)| + n
      ensures (n, err) == Reply(old(src.script), old(src.data), buf.Length)
    {
      hide Reply;
      r, w := 0, 0;
      assert buf[r..w] == [];
      var e;
      n, e := ReadOnce();
      err := e;
    }

    /** Copies as much as there is and as `p` can hold. */
    method CopyOut(p: array<Byte>) returns (n: nat)
      requires Valid() && p != buf && r < w && p.Length > 0
      modifies this`r, this`used, this`lastByte, this`mark, p
      ensures Valid() && n == Integers.Min(p.Length, old(w - r)) && used == old(used) + n && mark == used - 1 && r > 0
      ensures p[..n] == text[old(used)..used]
    {
      hide InStep, Faithful, MarkIs;
      n := if p.Length < w - r then p.Length else w - r;
      var d := Take(n);
      CopyTo(p, d);
      MarkSet(text, used);
      lastByte, mark := buf[r - 1], used - 1;
    }

    /** A large read with an empty buffer goes straight into `p`. */
    method ReadDirect(p: array<Byte>) returns (n: nat, e: Option<Error>)
      requires Valid() && p != buf && r == w && err == None
      modifies this, p, src
      ensures Valid() && Grown() && n <= p.Length && used == old(used) + n
      ensures p[..n] == text[old(used)..used]
      ensures e == Some(Eof) ==> used == |text| && src.data == []
      ensures r == old(r) && w == old(w) && err == None && mark == if n > 0 then used - 1 else old(mark)
      ensures (n, e) == Reply(old(src.script), old(src.data), p.Length) && |text| == |old(text)| + n
    {
      hide Reply, Faithful, MarkIs, InStep;
      n, e := ReadPast(p);
      if n > 0 {
        MarkSet(text, used);
        assert p[n - 1] == p[..n][n - 1] == text[used - 1];
        lastByte, mark := p[n - 1], used - 1;
      }
    }

    /** One read of the stream past the empty buffer. */
    method ReadPast(p: array<Byte>) returns (n: nat, e: Option<Error>)
      requires Valid() && p != buf && r == w && err == None
      modifies this`clean, this`text, this`used, p, src
      ensures Valid() && Grown() && n <= p.Length && used == old(used) + n
      ensures p[..n] == text[old(used)..used]
      ensures e == Some(Eof) ==> used == |text| && src.data == []
      ensures (n, e) == Reply(old(src.script), old(src.data), p.Length) && |text| == |old(text)| + n
    {
      hide Reply, Faithful, MarkIs, InStep, Source.All;
      NothingHeld();
      n, e := src.Read(p, 0);
      Passed(p[0..0 + n], old(src.given));
      clean := clean && (e == None || e == Some(Eof));
    }

    /** Takes note of bytes that were read past an empty buffer. */
    ghost method Passed(d: Bytes, given: Bytes)
      requires r == w <= buf.Length && used == |text| == |given| && src.given == given + d
      requires Faithful(text, given, scars) && MarkIs(text, used, mark, lastByte)
      modifies this`used, this`text
      ensures used == old(used) + |d| == |text| == |src.given| && text == old(text) + d && text[old(used)..used] == d
      ensures InStep() && Faithful(text, src.given, scars) && MarkIs(text, used, mark, lastByte)
    {
      hide Faithful, MarkIs;
      FaithfulGrows(text, given, scars, d);
      MarkGrows(text, used, mark, lastByte, d, used + |d|);
      text, used := text + d, used + |d|;
      assert buf[r..w] == [] == text[used..];
    }

    method ReadByte() returns (c: Byte, e: Option<Error>)
      requires Valid()
      modifies this, buf, src
      ensures Valid() && Grown()
      ensures e == None ==> used == old(used) + 1 && c == text[old(used)] && mark == used - 1
      ensures e != None ==> used == old(used) == |text| && mark == old(mark) && ErrKnown(e)
      ensures FrontAfter(used - old(used))
      ensures e == Some(Eof) ==> src.data == []
      ensures old(r < w || err != None) ==> unchanged(src) && text == old(text)
      ensures e == (if old(r < w) then None else if old(err) != None then old(err) else e)
      ensures e != None ==> err == None
    {
      hide InStep, Faithful, MarkIs;
      while r == w
        invariant Valid() && Grown() && used == old(used) && mark == old(mark) && (r == w ==> old(!AtFront()))
        invariant old(r < w || err != None) ==> unchanged(src) && text == old(text) && r == old(r) && w == old(w)
        invariant old(r < w || err != None) ==> err == old(err)
        decreases if err == None then 1 else 0, |src.data|
      {
        if err != None {
          NothingHeld();
          e := ReadErr();
          return 0, e;
        }
        Fill();
      }
      var d := Take(1);
      MarkSet(text, used);
      lastByte, mark := d[0], used - 1;
      return d[0], None;
    }

    /** Puts the byte last read back, in the place of the byte last consumed. */
    method UnreadByte() returns (e: Option<Error>)
      requires Valid()
      modifies this`r, this`w, this`lastByte, this`text, this`scars, this`mark, this`used, buf
      ensures Valid()
      ensures e == if old(mark < 0 || AtFront()) then Some(InvalidUnreadByte) else None
      ensures e != None ==> used == old(used) && text == old(text) && scars == old(scars) && mark == old(mark)
      ensures e != None ==> r == old(r) && w == old(w)
      ensures e == None ==> used == old(used) - 1 && mark == -1 && text == old(text[used - 1 := text[mark]])
      ensures e == None ==> (text == old(text) <==> Restores(old(text), old(View(used, mark))))
      ensures e == None ==> scars == Rescarred(old(scars), used, text[used] != src.given[used])
    {
      hide Restores, Faithful;
      if lastByte < 0 || (r == 0 && w > 0) {
        return Some(InvalidUnreadByte);
      }
      ghost var pending, at := buf[r..w], used - 1;
      PutByte(lastByte);
      Replaced(text, at, lastByte, pending);
      PutsBack(text, View(used, mark));
      FaithfulPatched(text, src.given, scars, at, lastByte);
      text := text[at := lastByte];
      scars := Rescarred(scars, at, text[at] != src.given[at]);
      MarkNone(text, at);
      used, lastByte, mark := at, -1, -1;
      return None;
    }

    /** Makes room for a byte in front of what is held. */
    method PutByte(c: Byte)
      requires r <= w <= buf.Length && buf.Length > 0 && (r > 0 || w == 0)
      modifies this`r, this`w, buf
      ensures r < w <= buf.Length && buf[r..w] == [c] + old(buf[r..w])
    {
      ghost var pending := buf[r..w];
      if r > 0 {
        r := r - 1;
      } else {
        w := 1;
      }
      buf[r] := c;
      assert buf[r..w] == [c] + pending;
    }

    lemma NoErr()
      ensures ErrKnown(None)
    {
    }

    /** How much of what is held goes up to and with the first `delim`; 0 if it is not there. */
    method HeldAt(delim: Byte) returns (n: nat)
      requires r <= w <= buf.Length
      ensures if n > 0 then n <= w - r && EndsAtFirst(buf[r..w][..n], delim) && delim in buf[r..w]
              else delim !in buf[r..w]
    {
      var i := IndexByte(buf[r..w], delim);
      if i >= 0 {
        FirstAt(buf[r..w], i, delim);
        return i + 1;
      }
      assert buf[r..w][..w - r] == buf[r..w];
      return 0;
    }

    /** Looks for `delim`, with more and more of the stream in the buffer: how much to take, and the error. */
    method Seek(delim: Byte) returns (n: nat, e: Option<Error>)
      requires Valid()
      modifies this`r, this`w, this`err, this`clean, this`text, buf, src
      ensures Valid() && Grown() && n <= w - r && w - r >= old(w - r)
      ensures if e == None then n > 0 && EndsAtFirst(buf[r..w][..n], delim) else n == w - r && delim !in buf[r..w]
      ensures e == Some(BufferFull) ==> n == buf.Length
      ensures e == Some(Eof) ==> src.data == []
      ensures e == Some(BufferFull) || ErrKnown(e)
      ensures old(delim in buf[r..w] || err != None) ==> unchanged(src) && text == old(text)
      ensures e == (if old(delim in buf[r..w]) then None else if old(err) != None then old(err) else e)
      ensures e != None ==> err == None
    {
      hide InStep, Faithful, MarkIs, ErrKnown, EndsAtFirst, Source.All, Known;
      ghost var has, pending := delim in buf[r..w], err;
      while true
        invariant Valid() && Grown() && w - r >= old(w - r)
        invariant has || pending != None ==> unchanged(src) && text == old(text) && err == pending
        invariant has || pending != None ==> (delim in buf[r..w] <==> has)
        decreases if err == None then 1 else 0, |src.data|
      {
        var i := HeldAt(delim);
        if i > 0 {
          NoErr();
          return i, None;
        }
        if err != None {
          e := ReadErr();
          return w - r, e;
        }
        if w - r >= buf.Length {
          return w - r, Some(BufferFull);
        }
        Fill();
      }
    }

    /** The end has been reached, unless something went wrong. */
    ghost predicate AtEnd()
      reads this, src
    {
      used == |text| && (clean ==> src.data == [])
    }

    method ReadSlice(delim: Byte) returns (line: Bytes, e: Option<Error>)
      requires Valid()
      modifies this, buf, src
      ensures Valid() && Grown() && used >= old(used)
      ensures line == text[old(used)..used]
      ensures if e == None then EndsAtFirst(line, delim) else delim !in line
      ensures e == Some(BufferFull) ==> line == buf[..] && r == w == buf.Length
      ensures e == Some(Eof) ==> src.data == []
      ensures e == Some(BufferFull) || ErrKnown(e)
      ensures old(delim in buf[r..w] || err != None) ==> unchanged(src) && text == old(text)
      ensures e == (if old(delim in buf[r..w]) then None else if old(err) != None then old(err) else e)
      ensures e != None ==> err == None && (e != Some(BufferFull) ==> AtEnd())
      ensures |line| <= buf.Length && mark == if line != [] then used - 1 else old(mark)
      ensures FrontAfter(|line|)
    {
      hide EndsAtFirst, InStep, Faithful, MarkIs;
      var n;
      n, e := Seek(delim);
      Held();
      if e != None {
        assert buf[r..w][..n] == buf[r..w];
        assert n == buf.Length ==> buf[r..w] == buf[..];
      }
      line := Take(n);
      var i := |line| - 1;
      if i >= 0 {
        MarkSet(text, used);
        lastByte, mark := line[i], used - 1;
      }
    }

    lemma Held()
      requires Valid()
      ensures w - r == |text| - used
    {
      assert |buf[r..w]| == |text[used..]|;
    }

    /** A line, or a fragment of one that is too long for the buffer. */
    method ReadLine() returns (line: Bytes, isPrefix: bool, e: Option<Error>)
      requires Valid()
      modifies this, buf, src
      ensures Valid() && Grown() && used >= old(used)
      ensures var d := text[old(used)..used];
              if e != None then
                line == [] && !isPrefix && d == [] && AtEnd() && ErrKnown(e) && err == None
              else if isPrefix then
                line == d != [] && NEWLINE !in d && r > 0 &&
                (d[|d| - 1] == RETURN ==> used < |text| && text[used] == RETURN)
              else if NEWLINE in d then
                EndsAtFirst(d, NEWLINE) && line == DropCR(d[..|d| - 1])
              else
                line == d != [] && AtEnd()
      ensures used <= old(used) + buf.Length && FrontAfter(used - old(used))
      ensures isPrefix ==> |line| == buf.Length || |line| == buf.Length - 1
      ensures e == None && isPrefix && |line| < buf.Length ==>
                mark == used < |text| && text[mark] == RETURN && (LastKnown() <==> line[|line| - 1] == RETURN)
      ensures e == None && !(isPrefix && |line| < buf.Length) ==> mark == used - 1 && LastKnown()
      ensures e != None ==> mark == old(mark) && (LastKnown() <==> old(LastKnown()))
    {
      hide InStep, Faithful, MarkIs, KnownAt, DropCR, ErrKnown, AtEnd, Known, Source.All;
      MarkBounds();
      line, e := ReadSlice(NEWLINE);
      if e == Some(BufferFull) {
        line := Fragment(line);
        return line, true, None;
      }
      isPrefix := false;
      if |line| == 0 {
        KnownAfter(old(text), text, old(used), used, mark);
        return;
      }
      LastIsKnown(text, used);
      e := None;
      if line[|line| - 1] == NEWLINE {
        line := StripEnd(line);
      }
    }

    /** A full buffer without a newline: a carriage return at its end is kept back. */
    method Fragment(full: Bytes) returns (line: Bytes)
      requires Valid() && r == w == buf.Length && full == buf[..] && NEWLINE !in full && mark == used - 1
      requires |full| <= used && full == text[used - |full|..used]
      modifies this`r, this`used
      ensures Valid() && old(used) - |full| < used <= old(used) && line == text[old(used) - |full|..used] && r > 0
      ensures NEWLINE !in line && (line[|line| - 1] == RETURN ==> used < |text| && text[used] == RETURN)
      ensures |line| == |full| || |line| == |full| - 1
      ensures if |line| < |full|
              then mark == used < |text| && text[mark] == RETURN && (LastKnown() <==> line[|line| - 1] == RETURN)
              else mark == used - 1 && LastKnown()
    {
      hide InStep, Faithful, MarkIs, KnownAt, Known;
      line := full;
      LastIsKnown(text, used);
      if |line| > 0 && line[|line| - 1] == RETURN {
        if r == 0 {
          assert false; // panic("bufio: tried to rewind past start of buffer")
        }
        PutBack(line);
        line := line[..|line| - 1];
        KeptIsKnown(text, used, line[|line| - 1]);
      }
    }

    /** Puts the carriage return at the end of a full buffer back. */
    method PutBack(line: Bytes)
      requires Valid() && r == w == buf.Length && line == buf[..] && line[|line| - 1] == RETURN
      requires |line| <= used && line == text[used - |line|..used]
      modifies this`r, this`used
      ensures Valid() && r == old(r) - 1 && used == old(used) - 1 && used < |text| && text[used] == RETURN
      ensures line[..|line| - 1] == text[old(used) - |line|..used]
    {
      hide Faithful, MarkIs;
      NothingHeld();
      MarkGrows(text, used, mark, lastByte, [], used - 1);
      assert line[|line| - 1] == text[used - 1];
      assert buf[r - 1..w] == [RETURN] == text[used - 1..];
      r, used := r - 1, used - 1;
    }

    /** Everything up to and with `delim`, however long. */
    method ReadBytes(delim: Byte) returns (d: Bytes, e: Option<Error>)
      requires Valid()
      modifies this, buf, src
      ensures Valid() && Grown() && used >= old(used)
      ensures d == text[old(used)..used]
      ensures if e == None then EndsAtFirst(d, delim) else delim !in d && used == |text|
      ensures e == Some(Eof) ==> src.data == []
      ensures ErrKnown(e) && (e != None ==> err == None)
      ensures mark == if d != [] then used - 1 else old(mark)
      ensures FrontAfter(|d|)
    {
      hide InStep, LastKnown, Flat, EndsAtFirst, Faithful, MarkIs;
      var full: seq<Bytes> := [];
      var frag;
      FlatNone();
      while true
        invariant Valid() && Grown() && used >= old(used) && mark == if Flat(full) != [] then used - 1 else old(mark)
        invariant Flat(full) == text[old(used)..used] && delim !in Flat(full) && FrontAfter(|Flat(full)|)
        decreases |src.All()| - used
      {
        ghost var given, from := text, used;
        frag, e := ReadSlice(delim);
        SliceGrows(given, text, old(used), from, used);
        if e == None {
          JoinEnds(Flat(full), frag, delim);
          break;
        }
        if e != Some(BufferFull) {
          break;
        }
        FlatNext(full, frag);
        full := full + [frag];
      }
      d := Collect(full, frag);
    }

    /** Every line of the stream, by ReadLine, with the fragments of long lines put together. */
    method ReadAllLines() returns (lines: seq<Bytes>)
      requires Valid() && used == 0 && clean && scars == {}
      modifies this, buf, src
      ensures Valid() && src.All() == old(src.All())
      ensures clean ==> lines == TextLines(old(src.All()))
      ensures !clean ==> src.failed || src.longestIdle >= MAX_EMPTY_READS
    {
      hide InStep, LastKnown, TextLines, DropCR, EndsLine, Faithful, MarkIs;
      lines := [];
      var line: Bytes := [];
      NoTextLines(text);
      while true
        invariant Valid() && src.All() == old(src.All()) && |line| <= used && scars == {}
        invariant clean ==> Reading(text, used, src.data == [], lines, line)
        decreases |src.All()| - used
      {
        ghost var given, from, ended, before := text, used, src.data == [], clean;
        var frag, isPrefix, e := ReadLine();
        if clean {
          ReadingGrows(given, text, from, ended, src.data == [], lines, line);
        }
        if e != None {
          if clean {
            ReadingEnds(text, lines, line);
            Unscarred();
            assert src.All() == src.given;
          }
          if line != [] {
            lines := lines + [line];
          }
          break;
        }
        if clean {
          ReadingStep(text, from, used, src.data == [], lines, line, frag, isPrefix);
        }
        line := line + frag;
        if !isPrefix {
          lines := lines + [line];
          line := [];
        }
      }
    }

    /** How the client's view changes with a call, and that the call was served. */
    twostate predicate Followed(call: Call, res: Result)
      reads this, src
    {
      && View(used, mark) == Next(old(View(used, mark)), res) && Fits(call, res)
      && (mark >= 0 ==> AtFront() == AskedNext(old(AtFront()), res))
      && Served(call, res, old(|src.given| - used), |src.given| - |old(src.given)|)
    }

    /** One call: what it returned, what it did, and how the client's view changes. */
    method Do(call: Call) returns (out: Bytes, ghost res: Result)
      requires Valid()
      modifies this, buf, src
      ensures Valid() && src.All() == old(src.All()) && Followed(call, res)
      ensures call.UnreadByte? ==> (res.Returned? <==> !old(mark < 0 || AtFront()))
      ensures call.Peek? ==> (res.Asked? <==> old(w - r < call.n && w - r < buf.Length && err == None) && w > 0)
      ensures res.Took? && !call.ReadLine? ==> out == text[old(used)..used]
      ensures res.KeptBack? ==> res.n > 1
      ensures !res.Returned? ==> Grown()
      ensures res.Returned? ==> old(mark >= 0 && used > 0) && src.given == old(src.given)
      ensures res.Returned? ==> text == old(text[used - 1 := text[mark]])
      ensures res.Returned? ==> scars == Rescarred(old(scars), used, text[used] != src.given[used])
    {
      hide InStep, Faithful, Rescarred, MarkIs, Known, Followed, AtFront, Source.All;
      match call {
        case Read(_) => out, res := DoRead(call);
        case ReadByte => out, res := DoRead(call);
        case ReadSlice(_) => out, res := DoRead(call);
        case ReadBytes(_) => out, res := DoRead(call);
        case ReadLine => out, res := DoLine();
        case Peek(n) => out, res := DoPeek(n);
        case Discard(n) => res := DoDiscard(n); out := [];
        case UnreadByte => res := DoUnread(); out := [];
      }
    }

    /** A call that reads. */
    method DoRead(call: Call) returns (out: Bytes, ghost res: Result)
      requires Valid() && (call.Read? || call.ReadByte? || call.ReadSlice? || call.ReadBytes?)
      modifies this, buf, src
      ensures Valid() && Grown() && used >= old(used) && out == text[old(used)..used]
      ensures res == Took(|out|) && Followed(call, res)
    {
      hide InStep, LastKnown, EndsAtFirst, Restores, Reply, Faithful, MarkIs, Known, Source.All, ErrKnown;
      Held();
      match call {
        case Read(size) =>
          var p := new Byte[size](_ => 0);
          var n, e := Read(p);
          out := p[..n];
        case ReadByte =>
          var c, e := ReadByte();
          out := if e == None then [c] else [];
        case ReadSlice(delim) =>
          var e;
          out, e := ReadSlice(delim);
          EndsNotEmpty(out, delim);
        case ReadBytes(delim) =>
          var e;
          out, e := ReadBytes(delim);
          EndsNotEmpty(out, delim);
        case _ =>
          assert false;
      }
      res := Took(|out|);
    }

    method DoLine() returns (line: Bytes, ghost res: Result)
      requires Valid()
      modifies this, buf, src
      ensures Valid() && Grown() && Followed(Call.ReadLine, res) && (res.KeptBack? ==> res.n > 1)
      ensures res.Took? || res.KeptBack?
    {
      hide InStep, LastKnown, EndsAtFirst, Restores, Faithful, MarkIs, Known, DropCR, Source.All, ErrKnown;
      var isPrefix, e;
      line, isPrefix, e := ReadLine();
      res := if isPrefix && |line| < buf.Length then KeptBack(used - old(used)) else Took(used - old(used));
    }

    method DoPeek(n: int) returns (d: Bytes, ghost res: Result)
      requires Valid()
      modifies this, buf, src
      ensures Valid() && Grown() && Followed(Call.Peek(n), res) && (res.Asked? || res.Nothing?)
      ensures res.Asked? <==> old(w - r < n && w - r < buf.Length && err == None) && w > 0
    {
      hide InStep, Faithful, MarkIs, Known, Source.All, ErrKnown;
      Held();
      var e;
      d, e := Peek(n);
      res := if old(w - r < n && w - r < buf.Length && err == None) && w > 0 then Asked else Nothing;
    }

    method DoDiscard(n: int) returns (ghost res: Result)
      requires Valid()
      modifies this, buf, src
      ensures Valid() && Grown() && Followed(Call.Discard(n), res) && res.Skipped?
    {
      hide InStep, LastKnown, Faithful, MarkIs, Known, Source.All, ErrKnown;
      Held();
      var k, e := Discard(n);
      res := Skipped(k);
    }

    method DoUnread() returns (ghost res: Result)
      requires Valid()
      modifies this, buf, src
      ensures Valid() && unchanged(src) && Followed(Call.UnreadByte, res) && (res.Returned? || res.Nothing?)
      ensures res.Returned? <==> !old(mark < 0 || AtFront())
      ensures if res.Returned?
              then old(mark >= 0 && used > 0) && text == old(text[used - 1 := text[mark]]) &&
                   scars == Rescarred(old(scars), used, text[used] != src.given[used])
              else Grown()
    {
      hide InStep, Restores, Faithful, Rescarred, MarkIs, Known;
      MarkBounds();
      Held();
      var e := UnreadByte();
      res := if e == None then Returned else Nothing;
    }

    lemma MarkBounds()
      requires Valid()
      ensures mark >= 0 ==> used > 0 && mark < |text|
    {
    }

    lemma Unscarred()
      requires Faithful(text, src.given, scars)
      ensures scars == {} <==> text == src.given
    {
      if scars == {} {
        forall p: nat | p < |text|
          ensures text[p] == src.given[p]
        {
          assert p !in scars;
        }
      }
    }

    /**
     * Every run of calls: what is consumed, held and unread is the stream if and only if every byte put back was
     * the last one consumed.
     */
    method Run(calls: seq<Call>) returns (ghost results: seq<Result>, ghost given: seq<int>)
      requires Valid() && scars == {} && used == 0 && mark == -1
      modifies this, buf, src
      ensures Valid() && |results| == |calls| && src.All() == old(src.All())
      ensures AllServed(calls, results, given) && |given| == |calls| + 1
      ensures given[0] == |old(src.given)| && given[|calls|] == |src.given|
      ensures View(used, mark) == ViewOf(results) && Answered(calls, results)
      ensures text[..used] + buf[r..w] + src.data == old(src.All()) <==> Unbroken(old(src.All()), results)
    {
      hide LastKnown, Restores, InStep, Faithful, Unbroken, Rescarred, MarkIs, Known, Answered, AskedSince, Fits,
          Served, AllServed;
      results, given := [], [|src.given|];
      NoResults(src.All(), calls);
      for i := 0 to |calls|
        invariant Valid() && src.All() == old(src.All()) && |results| == i
        invariant AllServed(calls, results, given) && |given| == i + 1
        invariant given[0] == |old(src.given)| && given[i] == |src.given|
        invariant View(used, mark) == ViewOf(results) && Scarred(scars, View(used, mark))
        invariant scars == {} <==> Unbroken(src.All(), results)
        invariant Answered(calls, results) && (mark >= 0 ==> AtFront() == AskedSince(results))
      {
        ghost var was, view := scars, View(used, mark);
        MarkBounds();
        if mark >= 0 {
          PutBackScars(src.All());
        }
        ghost var scar := mark >= 0 && text[mark] != src.given[used - 1];
        var out;
        ghost var res;
        out, res := Do(calls[i]);
        Extends(src.All(), results, res);
        Answers(calls, results, res);
        ScarsStay(was, view, res);
        if res.Returned? {
          ScarsAfter(was, used, scar, View(used, mark));
        }
        ServedNext(calls, results, given, res, |src.given|);
        results, given := results + [res], given + [|src.given|];
      }
      Unscarred();
      HeldIs();
      StreamWhole(text, used, buf[r..w], src.given, src.data);
    }

    lemma HeldIs()
      requires Valid()
      ensures buf[r..w] == text[used..] && |text| == |src.given|
    {
    }

    /** Putting back leaves no scar on an unscarred text just when it restores the byte last consumed. */
    lemma PutBackScars(all: Bytes)
      requires Valid() && all == src.All() && mark >= 0
      ensures used > 0 && |text| == |src.given| && mark < |text|
      ensures scars == {} ==> (text[mark] == src.given[used - 1] <==> Restores(all, View(used, mark)))
      ensures used - 1 in scars && mark == used - 1 ==> text[mark] != src.given[used - 1]
    {
      if scars == {} {
        Unscarred();
      }
    }
  }

  /** The scars after a byte was put back at `at`. */
  ghost function Rescarred(scars: set<nat>, at: nat, scar: bool): set<nat> {
    if scar then scars + {at} else scars - {at}
  }

  lemma Replaced(g: Bytes, at: nat, c: Byte, pending: Bytes)
    requires at < |g| && pending == g[at + 1..]
    ensures g[at := c][at..] == [c] + pending
  {
  }

  lemma FaithfulPatched(t: Bytes, g: Bytes, scars: set<nat>, at: nat, c: Byte)
    requires Faithful(t, g, scars) && at < |t|
    ensures |t| == |g| && Faithful(t[at := c], g, Rescarred(scars, at, c != g[at]))
  {
  }

  lemma HeldGrows(b: Bytes, r: nat, w: nat, n: nat, before: Bytes, pending: Bytes, t: Bytes, used: nat, d: Bytes)
    requires r <= w <= w + n <= |b| && b[..w] == before && d == b[w..w + n]
    requires used <= |t| && pending == t[used..] == before[r..]
    ensures b[r..w + n] == (t + d)[used..]
  {
    assert b[r..w + n] == before[r..] + d;
  }

  lemma PutsBack(s: Bytes, v: View)
    requires 0 <= v.mark < |s| && 0 < v.at <= |s|
    ensures s[v.at - 1 := s[v.mark]] == s <==> Restores(s, v)
  {
    assert s[v.at - 1 := s[v.mark]][v.at - 1] == s[v.mark];
  }

  lemma Extends(s: Bytes, results: seq<Result>, res: Result)
    ensures ViewOf(results + [res]) == Next(ViewOf(results), res)
    ensures Unbroken(s, results + [res]) <==> Unbroken(s, results) && (res.Returned? ==> Restores(s, ViewOf(results)))
  {
    hide Restores, Next;
    assert (results + [res])[..|results|] == results;
  }

  lemma Answers(calls: seq<Call>, results: seq<Result>, res: Result)
    ensures AskedSince(results + [res]) == AskedNext(AskedSince(results), res)
    ensures |results| < |calls| && Answered(calls, results) && Fits(calls[|results|], res) &&
            (calls[|results|].UnreadByte? ==> (res.Returned? <==> !Refused(results))) ==>
              Answered(calls, results + [res])
  {
    hide Fits, AskedNext, Refused;
    assert (results + [res])[..|results|] == results;
  }

  /** Right after a call that read something, unreading succeeds and restores, whatever happened before. */
  lemma ReadThenUnread(s: Bytes, results: seq<Result>, n: nat)
    requires n > 0 && ViewOf(results).at + n <= |s|
    ensures !Refused(results + [Took(n)]) && Restores(s, ViewOf(results + [Took(n)]))
  {
    hide ViewOf, Unbroken, AskedSince;
    Extends(s, results, Took(n));
    Answers([], results, Took(n));
  }

  lemma NoResults(s: Bytes, calls: seq<Call>)
    ensures ViewOf([]) == View(0, -1) && Unbroken(s, []) && Answered(calls, []) && !AskedSince([])
    ensures forall n: int :: AllServed(calls, [], [n])
  {
  }

  /** Consumed, held and unread bytes are the stream just when nothing was changed. */
  lemma StreamWhole(t: Bytes, at: nat, held: Bytes, g: Bytes, data: Bytes)
    requires at <= |t| == |g| && held == t[at..]
    ensures t[..at] + held + data == g + data <==> t == g
  {
    assert t[..at] + held == t;
    assert (t + data)[..|t|] == t && (g + data)[..|t|] == g;
  }

  /** Where a scar can be: not where the client may still put a byte back. */
  ghost predicate Scarred(scars: set<nat>, v: View) {
    -1 <= v.mark <= v.at && forall p :: p in scars ==> Behind(p, v)
  }

  predicate Behind(p: nat, v: View) {
    if v.mark < 0 then p <= v.at else p < v.at && p <= v.mark && (v.mark == v.at ==> p + 1 < v.at)
  }

  /** No call mends a scar. */
  lemma ScarsStay(scars: set<nat>, v: View, res: Result)
    requires Scarred(scars, v) && (res.KeptBack? ==> res.n > 1) && (res.Returned? ==> v.mark >= 0 && v.at > 0)
    ensures !res.Returned? ==> Scarred(scars, Next(v, res))
    ensures res.Returned? ==> Scarred(scars + {v.at - 1}, Next(v, res))
    ensures res.Returned? && v.at - 1 in scars ==> v.mark == v.at - 1
  {
  }

  /** The scars after a byte was put back, where no scar is mended. */
  lemma ScarsAfter(scars: set<nat>, at: nat, scar: bool, v: View)
    requires (at in scars ==> scar) && Scarred(scars + {at}, v)
    ensures Rescarred(scars, at, scar) == {} <==> scars == {} && !scar
    ensures Scarred(Rescarred(scars, at, scar), v)
  {
    if !scar {
      assert Rescarred(scars, at, scar) == scars;
    } else {
      assert at in Rescarred(scars, at, scar);
    }
  }

  // ----- Where the stream breaks

  /** Of the two bytes a and b, reading a, skipping b and unreading makes the next read return a, not b. */
  method UnreadAfterDiscard() returns (c: Byte, e: Option<Error>)
    ensures e == None && c == 0x61
  {
    hide Reply, Faithful, MarkIs, KnownAt, Restores;
    var src := new Source([0x61, 0x62], []);
    var b := new Reader(src, MIN_SIZE);
    b.Unscarred();
    assert src.All() == [0x61, 0x62];
    var first, e1 := b.ReadByte();
    b.Unscarred();
    assert e1 == None && first == src.All()[0];
    var n, e2 := b.Discard(1);
    assert e2 == None && b.used == 2 && b.mark == 0;
    b.Unscarred();
    var u := b.UnreadByte();
    assert u == None && b.text[1] == 0x61;
    c, e := b.ReadByte();
  }

  /** Of seventeen bytes, reading one and peeking at the next sixteen makes unreading the one fail. */
  method UnreadAfterPeek() returns (c: Byte, u: Option<Error>)
    ensures u == Some(InvalidUnreadByte) && c == 0x61
  {
    hide Reply, Faithful, MarkIs, KnownAt, Restores;
    var data: Bytes := seq(17, _ => 0x61);
    var src := new Source(data, []);
    var b := new Reader(src, MIN_SIZE);
    assert src.All() == data;
    var e;
    c, e := b.ReadByte();
    b.Unscarred();
    b.Held();
    assert e == None && c == src.All()[0];
    assert src.data != [];
    var d, e1 := b.Peek(MIN_SIZE);
    b.Held();
    u := b.UnreadByte();
  }

  /** A line too long for the buffer: fifteen times a, then the end of the line. */
  const LONG_LINE: Bytes := seq(15, _ => 0x61) + [RETURN, NEWLINE]

  /** What ReadLine can make of it with a buffer of sixteen. */
  lemma KeptBackOnly(line: Bytes, isPrefix: bool, e: Option<Error>, used: nat, text: Bytes, ended: bool)
    requires text <= LONG_LINE && used <= |text| && used <= 16 && (ended ==> text == LONG_LINE)
    requires var d := text[0..used];
             if e != None then used == |text| && ended
             else if isPrefix then
               line == d && |d| in {15, 16} && (d[|d| - 1] == RETURN ==> used < |text| && text[used] == RETURN)
             else if NEWLINE in d then EndsAtFirst(d, NEWLINE) else used == |text| && ended
    ensures e == None && isPrefix && line == LONG_LINE[..15]
  {
    assert LONG_LINE[15] == RETURN && LONG_LINE[16] == NEWLINE && NEWLINE !in LONG_LINE[..16];
    assert text[0..used] == LONG_LINE[..used];
    assert forall x :: x in LONG_LINE[..used] ==> x in LONG_LINE[..16];
    assert LONG_LINE[..16][15] == RETURN;
  }

  /** Unreading after ReadLine kept a carriage return back makes the next read return that, not the last a. */
  method UnreadAfterReadLine() returns (line: Bytes, c: Byte, e: Option<Error>)
    ensures line == LONG_LINE[..15] && LONG_LINE[14] == 0x61
    ensures e == None && c == RETURN
  {
    hide Reply, Faithful, MarkIs, KnownAt, Restores, DropCR;
    var src := new Source(LONG_LINE, []);
    var b := new Reader(src, MIN_SIZE);
    b.Unscarred();
    assert src.All() == LONG_LINE;
    var isPrefix, e1;
    line, isPrefix, e1 := b.ReadLine();
    b.Unscarred();
    assert src.data == [] ==> src.given == LONG_LINE;
    KeptBackOnly(line, isPrefix, e1, b.used, b.text, src.data == []);
    var u := b.UnreadByte();
    c, e := b.ReadByte();
  }

  /** A reader that tells the end with the last byte: so does a large Read. */
  method EofWithBytes() returns (n: nat, e: Option<Error>)
    ensures n == 1 && e == Some(Eof)
  {
    var src := new Source([0x61], [Response(1, true, None)]);
    var b := new Reader(src, MIN_SIZE);
    var p := new Byte[MIN_SIZE](_ => 0);
    n, e := b.Read(p);
  }

  /** A line without its newline, and without a carriage return before that. */
  method StripEnd(line: Bytes) returns (r: Bytes)
    requires line != []
    ensures r == DropCR(line[..|line| - 1])
  {
    var drop := 1;
    if |line| > 1 && line[|line| - 2] == RETURN {
      drop := 2;
    }
    r := line[..|line| - drop];
  }

  method CopyTo(p: array<Byte>, d: Bytes)
    requires |d| <= p.Length
    modifies p
    ensures p[..|d|] == d
  {
    Put(p, 0, d);
    assert p[..|d|] == p[..][..|d|];
  }

  // ----- Fragments put together

  lemma SliceGrows(g: Bytes, h: Bytes, base: nat, from: nat, to: nat)
    requires g <= h && base <= from <= |g| && from <= to <= |h|
    ensures h[base..to] == g[base..from] + h[from..to]
  {
  }

  function Flat(ps: seq<Bytes>): Bytes {
    if ps == [] then [] else Flat(ps[..|ps| - 1]) + ps[|ps| - 1]
  }

  lemma FlatNext(ps: seq<Bytes>, p: Bytes)
    ensures Flat(ps + [p]) == Flat(ps) + p
  {
    assert (ps + [p])[..|ps|] == ps;
  }

  lemma FlatStep(ps: seq<Bytes>, i: nat)
    requires i < |ps|
    ensures Flat(ps[..i + 1]) == Flat(ps[..i]) + ps[i]
  {
    assert ps[..i + 1] == ps[..i] + [ps[i]];
    FlatNext(ps[..i], ps[i]);
  }

  lemma {:induction false} FlatRoom(ps: seq<Bytes>, i: nat)
    requires i <= |ps|
    ensures |Flat(ps[..i])| <= |Flat(ps)|
    decreases |ps| - i
  {
    if i < |ps| {
      FlatStep(ps, i);
      FlatRoom(ps, i + 1);
    } else {
      assert ps[..i] == ps;
    }
  }

  lemma JoinEnds(a: Bytes, b: Bytes, delim: Byte)
    requires delim !in a && EndsAtFirst(b, delim)
    ensures EndsAtFirst(a + b, delim)
  {
    assert (a + b)[..|a + b| - 1] == a + b[..|b| - 1];
  }

  /** Allocates what the fragments need and copies them in. */
  method Collect(full: seq<Bytes>, frag: Bytes) returns (d: Bytes)
    ensures d == Flat(full) + frag
  {
    hide Flat;
    var n := FlatLength(full);
    var b := new Byte[n + |frag|](_ => 0);
    n := 0;
    FlatNone();
    for i := 0 to |full|
      invariant n == |Flat(full[..i])| <= |Flat(full)| && b[..n] == Flat(full[..i])
    {
      FlatStep(full, i);
      FlatRoom(full, i + 1);
      ghost var done := b[..n];
      Put(b, n, full[i]);
      n := n + |full[i]|;
      assert b[..n] == done + full[i];
    }
    assert full[..|full|] == full;
    Put(b, n, frag);
    assert b[..] == Flat(full) + frag;
    return b[..];
  }

  lemma FlatNone()
    ensures Flat([]) == []
  {
  }

  method FlatLength(full: seq<Bytes>) returns (n: nat)
    ensures n == |Flat(full)|
  {
    hide Flat;
    n := 0;
    FlatNone();
    for i := 0 to |full|
      invariant n == |Flat(full[..i])|
    {
      FlatStep(full, i);
      n := n + |full[i]|;
    }
    assert full[..|full|] == full;
  }

  lemma FrontOf(b: Bytes, r: nat, w: nat, n: nat)
    requires r <= r + n <= w <= |b|
    ensures b[r..r + n] == b[r..w][..n]
  {
  }

  lemma FirstAt(d: Bytes, i: nat, delim: Byte)
    requires i < |d| && d[i] == delim && delim !in d[..i]
    ensures EndsAtFirst(d[..i + 1], delim) && delim in d
  {
    assert d[..i + 1][..i] == d[..i];
  }

  lemma EndsNotEmpty(d: Bytes, delim: Byte)
    ensures EndsAtFirst(d, delim) ==> d != []
  {
  }

  // ----- Lines put together

  lemma {:induction false} TextLinesAppend(a: Bytes, b: Bytes)
    requires EndsLine(a)
    ensures TextLines(a + b) == TextLines(a) + TextLines(b)
  {
    hide ByteIndex, DropCR, TextLines;
    if a == [] {
      assert a + b == b;
      NoTextLines([]);
    } else {
      var i := LineBreak(a, b);
      TextLinesFirst(a, i);
      TextLinesFirst(a + b, i);
      TextLinesAppend(a[i + 1..], b);
    }
  }

  lemma TextLinesFirst(d: Bytes, i: nat)
    requires d != [] && ByteIndex(d, NEWLINE) == i
    ensures TextLines(d) == [DropCR(d[..i])] + TextLines(d[i + 1..])
  {
    hide ByteIndex, DropCR;
  }

  lemma NoTextLines(g: Bytes)
    ensures TextLines(g[..0]) == [] && EndsLine(g[..0])
  {
  }

  lemma OneTextLine(d: Bytes)
    requires d != []
    ensures NEWLINE !in d ==> TextLines(d) == [d]
    ensures EndsAtFirst(d, NEWLINE) ==> TextLines(d) == [DropCR(d[..|d| - 1])]
  {
    hide ByteIndex, DropCR;
    if NEWLINE !in d {
      IndexNone(d);
    } else if EndsAtFirst(d, NEWLINE) {
      IndexIs(d, |d| - 1);
      assert d[|d|..] == [];
    }
  }

  /** Midway: the lines before the current one, and its fragments so far. */
  ghost predicate Reading(g: Bytes, used: nat, ended: bool, lines: seq<Bytes>, line: Bytes) {
    && |line| <= used <= |g|
    && line == g[used - |line|..used]
    && lines == TextLines(g[..used - |line|])
    && NEWLINE !in line
    && (EndsLine(g[..used - |line|]) || (ended && used == |g| && line == []))
    && (line != [] && line[|line| - 1] == RETURN ==> used < |g| && g[used] == RETURN)
  }

  lemma ReadingGrows(g: Bytes, h: Bytes, used: nat, ended: bool, endedNow: bool, lines: seq<Bytes>, line: Bytes)
    requires g <= h && Reading(g, used, ended, lines, line) && (ended ==> g == h && endedNow)
    ensures Reading(h, used, endedNow, lines, line)
  {
    hide TextLines, EndsLine;
    assert h[..used - |line|] == g[..used - |line|];
    assert h[used - |line|..used] == g[used - |line|..used];
  }

  lemma ReadingEnds(g: Bytes, lines: seq<Bytes>, line: Bytes)
    requires Reading(g, |g|, true, lines, line)
    ensures TextLines(g) == if line != [] then lines + [line] else lines
  {
    hide TextLines, EndsLine;
    var a := g[..|g| - |line|];
    assert g == a + line;
    if line != [] {
      TextLinesAppend(a, line);
      OneTextLine(line);
    } else {
      assert a == g;
    }
  }

  /** One more fragment. */
  lemma ReadingStep(g: Bytes, from: nat, to: nat, ended: bool, lines: seq<Bytes>, line: Bytes, frag: Bytes,
                    isPrefix: bool)
    requires Reading(g, from, ended, lines, line) && from < to <= |g|
    requires var d := g[from..to];
             if isPrefix then
               frag == d && NEWLINE !in d && (d[|d| - 1] == RETURN ==> to < |g| && g[to] == RETURN)
             else if NEWLINE in d then
               EndsAtFirst(d, NEWLINE) && frag == DropCR(d[..|d| - 1])
             else
               frag == d && ended && to == |g|
    ensures isPrefix ==> Reading(g, to, ended, lines, line + frag)
    ensures !isPrefix ==> Reading(g, to, ended, lines + [line + frag], [])
  {
    hide TextLines, EndsLine, DropCR;
    if isPrefix {
      ReadingOn(g, from, to, ended, lines, line);
    } else {
      ReadingLine(g, from, to, ended, lines, line, frag);
    }
  }

  lemma ReadingOn(g: Bytes, from: nat, to: nat, ended: bool, lines: seq<Bytes>, line: Bytes)
    requires Reading(g, from, ended, lines, line) && from < to <= |g| && NEWLINE !in g[from..to]
    requires g[to - 1] == RETURN ==> to < |g| && g[to] == RETURN
    ensures Reading(g, to, ended, lines, line + g[from..to])
  {
    hide TextLines, EndsLine;
    var longer := line + g[from..to];
    Longer(g, from, to, line, longer);
    assert to - |longer| == from - |line|;
  }

  lemma Longer(g: Bytes, from: nat, to: nat, line: Bytes, longer: Bytes)
    requires |line| <= from < to <= |g| && line == g[from - |line|..from] && longer == line + g[from..to]
    requires NEWLINE !in line && NEWLINE !in g[from..to]
    ensures longer == g[from - |line|..to] && longer[|longer| - 1] == g[to - 1] && NEWLINE !in longer
  {
  }

  lemma ReadingLine(g: Bytes, from: nat, to: nat, ended: bool, lines: seq<Bytes>, line: Bytes, frag: Bytes)
    requires Reading(g, from, ended, lines, line) && from < to <= |g|
    requires var d := g[from..to];
             if NEWLINE in d then EndsAtFirst(d, NEWLINE) && frag == DropCR(d[..|d| - 1])
             else frag == d && ended && to == |g|
    ensures Reading(g, to, ended, lines + [line + frag], [])
  {
    hide TextLines, EndsLine, DropCR, EndsAtFirst;
    var begin, d := from - |line|, g[from..to];
    assert d[0] == g[from];
    if NEWLINE in d {
      EndedFragment(line, d);
      LastIsNewline(g, from, to);
      LastEnds(g, to);
    } else {
      OpenFragment(line, d);
    }
    LineDone(g, begin, from, to, lines, line, line + frag);
    ReadingAfresh(g, to, ended, lines + [line + frag]);
  }

  lemma LastIsNewline(g: Bytes, from: nat, to: nat)
    requires from < to <= |g| && EndsAtFirst(g[from..to], NEWLINE)
    ensures g[to - 1] == NEWLINE
  {
    assert g[from..to][to - 1 - from] == g[to - 1];
  }

  lemma LineDone(g: Bytes, begin: nat, from: nat, to: nat, lines: seq<Bytes>, line: Bytes, whole: Bytes)
    requires begin <= from <= to <= |g| && line == g[begin..from] && lines == TextLines(g[..begin])
    requires EndsLine(g[..begin]) && TextLines(line + g[from..to]) == [whole]
    ensures TextLines(g[..to]) == lines + [whole]
  {
    hide TextLines, EndsLine;
    assert g[..to] == g[..begin] + (line + g[from..to]);
    TextLinesAppend(g[..begin], line + g[from..to]);
  }

  lemma ReadingAfresh(g: Bytes, to: nat, ended: bool, lines: seq<Bytes>)
    requires to <= |g| && lines == TextLines(g[..to]) && (EndsLine(g[..to]) || (ended && to == |g|))
    ensures Reading(g, to, ended, lines, [])
  {
    hide TextLines, EndsLine;
    assert g[to..to] == [];
  }

  lemma OpenFragment(line: Bytes, d: Bytes)
    requires NEWLINE !in line && NEWLINE !in d && d != []
    ensures TextLines(line + d) == [line + d]
  {
    hide TextLines;
    OneTextLine(line + d);
  }

  /** The last fragment of a line, with its end. */
  lemma EndedFragment(line: Bytes, d: Bytes)
    requires NEWLINE !in line && EndsAtFirst(d, NEWLINE)
    requires line != [] && line[|line| - 1] == RETURN ==> d[0] == RETURN
    ensures TextLines(line + d) == [line + DropCR(d[..|d| - 1])]
  {
    hide TextLines, DropCR;
    OneTextLine(line + d);
    JoinEnds(line, d, NEWLINE);
    DropJoined(line, d[..|d| - 1]);
    assert (line + d)[..|line + d| - 1] == line + d[..|d| - 1];
  }

  lemma DropJoined(a: Bytes, b: Bytes)
    requires b != [] || a == [] || a[|a| - 1] != RETURN
    ensures DropCR(a + b) == a + DropCR(b)
  {
    if b == [] {
      assert a + b == a;
    } else if b[|b| - 1] == RETURN {
      assert (a + b)[..|a + b| - 1] == a + b[..|b| - 1];
    }
  }
}
