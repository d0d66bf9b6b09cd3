/** The scanner over lines: whatever the pieces in which the input comes, its tokens are the input's lines. */
module LineScanner {
  import opened Options
  import opened Utf8
  import opened ByteSearch
  import opened Buffers
  import opened ByteSource
  import Splitting

  const NEWLINE: Byte := 0x0A
  const RETURN: Byte := 0x0D

  const START_SIZE := 4096
  const MAX_INT := 0x7FFF_FFFF_FFFF_FFFF

  // ----- Lines

  function DropCR(d: Bytes): Bytes {
    if |d| > 0 && d[|d| - 1] == RETURN then d[..|d| - 1] else d
  }

  /** How far to advance, and the token if there is one. */
  function ScanLines(d: Bytes, atEof: bool): (r: (int, Option<Bytes>))
    ensures 0 <= r.0 <= |d| && (r.1.Some? <==> r.0 > 0)
    ensures r.1 == None ==> NEWLINE !in d && (atEof ==> d == [])
  {
    if atEof && |d| == 0 then (0, None) else
    var i := ByteIndex(d, NEWLINE);
    assert d[..|d|] == d;
    if i >= 0 then (i + 1, Some(DropCR(d[..i])))
    else if atEof then (|d|, Some(DropCR(d)))
    else (0, None)
  }

  /** The lines of a text, each without its newline and a carriage return before it; the last may have no end. */
  function Lines(d: Bytes): seq<Bytes> {
    if d == [] then [] else
    var i := ByteIndex(d, NEWLINE);
    if i < 0 then [DropCR(d)] else [DropCR(d[..i])] + Lines(d[i + 1..])
  }

  /** The lines of a text: an ended line without its end, a last one without an end as it is. */
  function TextLines(d: Bytes): seq<Bytes> {
    if d == [] then [] else
    var i := ByteIndex(d, NEWLINE);
    if i < 0 then [d] else [DropCR(d[..i])] + TextLines(d[i + 1..])
  }

  /**
   * The end of a line is a newline and a carriage return before it. The scanner also drops a carriage return
   * that has no newline after it, at the end of the text: its lines are those of the text if and only if there
   * is none.
   */
  lemma {:induction false} LinesAsPromised(d: Bytes)
    ensures Lines(d) == TextLines(d) <==> d == [] || d[|d| - 1] != RETURN
  {
    hide ByteIndex, DropCR;
    if d != [] {
      var i := ByteIndex(d, NEWLINE);
      if i < 0 {
        DropsNothing(d);
      } else {
        var rest := d[i + 1..];
        LinesAsPromised(rest);
        SameFront(DropCR(d[..i]), Lines(rest), TextLines(rest));
        LastOfRest(d, i);
      }
    }
  }

  lemma DropsNothing(d: Bytes)
    requires d != []
    ensures [DropCR(d)] == [d] <==> d[|d| - 1] != RETURN
  {
    assert [DropCR(d)][0] == DropCR(d) && [d][0] == d;
  }

  lemma SameFront(p: Bytes, a: seq<Bytes>, b: seq<Bytes>)
    ensures [p] + a == [p] + b <==> a == b
  {
    assert ([p] + a)[1..] == a && ([p] + b)[1..] == b;
  }

  lemma LastOfRest(d: Bytes, i: nat)
    requires i < |d| && d[i] == NEWLINE
    ensures d[|d| - 1] != RETURN <==> d[i + 1..] == [] || d[i + 1..][|d| - i - 2] != RETURN
  {
  }

  /** A letter and a carriage return: the scanner loses the carriage return. */
  lemma ReturnLost()
    ensures Lines([0x61, RETURN]) == [[0x61]] && TextLines([0x61, RETURN]) == [[0x61, RETURN]]
  {
    hide ByteIndex;
    var d: Bytes := [0x61, RETURN];
    IndexNone(d);
    assert DropCR(d) == d[..1] == [0x61];
  }

  predicate EndsLine(d: Bytes) {
    d == [] || d[|d| - 1] == NEWLINE
  }

  lemma {:induction false} IndexIs(d: Bytes, i: nat)
    requires i < |d| && d[i] == NEWLINE && NEWLINE !in d[..i]
    ensures ByteIndex(d, NEWLINE) == i
  {
    if i > 0 {
      assert d[0] == d[..i][0];
      assert d[1..][..i - 1] == d[..i][1..];
      IndexIs(d[1..], i - 1);
    }
  }

  lemma IndexNone(d: Bytes)
    requires NEWLINE !in d
    ensures ByteIndex(d, NEWLINE) == -1
  {
    hide ByteIndex;
  }

  /** Text after whole lines gives its lines after theirs. */
  lemma {:induction false} LinesAppend(a: Bytes, b: Bytes)
    requires EndsLine(a)
    ensures Lines(a + b) == Lines(a) + Lines(b)
  {
    hide ByteIndex, DropCR, Lines;
    if a == [] {
      assert a + b == b;
      NoLines(a);
    } else {
      var i := LineBreak(a, b);
      LinesFirst(a, i);
      LinesFirst(a + b, i);
      LinesAppend(a[i + 1..], b);
      LinesRegroup(DropCR(a[..i]), Lines(a[i + 1..]), Lines(b));
    }
  }

  lemma LinesRegroup(p: Bytes, a: seq<Bytes>, b: seq<Bytes>)
    ensures [p] + (a + b) == ([p] + a) + b
  {
  }

  lemma LinesFirst(d: Bytes, i: nat)
    requires d != [] && ByteIndex(d, NEWLINE) == i
    ensures Lines(d) == [DropCR(d[..i])] + Lines(d[i + 1..])
  {
    hide ByteIndex, DropCR;
  }

  /** The first line of whole lines is the first line of them and more. */
  lemma LineBreak(a: Bytes, b: Bytes) returns (i: nat)
    requires a != [] && EndsLine(a)
    ensures i < |a| && ByteIndex(a, NEWLINE) == ByteIndex(a + b, NEWLINE) == i
    ensures (a + b)[..i] == a[..i] && (a + b)[i + 1..] == a[i + 1..] + b && EndsLine(a[i + 1..])
  {
    hide ByteIndex;
    assert a[..|a|] == a && a[|a| - 1] in a;
    i := ByteIndex(a, NEWLINE);
    assert (a + b)[..i] == a[..i];
    IndexIs(a + b, i);
  }

  /** A line ended by "\r\n", or by "\n" without a carriage return before it, is all that stands before that. */
  lemma LineAsWritten(line: Bytes, rest: Bytes, cr: bool)
    requires 0x0A !in line && (cr || line == [] || line[|line| - 1] != 0x0D)
    ensures var d := line + (if cr then [0x0D] else []) + [0x0A] + rest;
            Lines(d) == [line] + Lines(rest) && TextLines(d) == [line] + TextLines(rest)
  {
    hide ByteIndex;
    var before := line + if cr then [0x0D] else [];
    var d := before + [0x0A] + rest;
    var i := |before|;
    assert d[..i] == before && d[i + 1..] == rest;
    IndexIs(d, i);
    if cr {
      assert before[..|line|] == line;
    } else {
      assert before == line;
    }
  }

  /** A last line without an end: the scanner drops one carriage return from it. */
  lemma OpenAsWritten(line: Bytes)
    requires 0x0A !in line && line != []
    ensures TextLines(line) == [line]
    ensures Lines(line) == [if line[|line| - 1] == 0x0D then line[..|line| - 1] else line]
  {
    hide ByteIndex;
    IndexNone(line);
  }

  /** The first byte found is the first match of a one-byte string. */
  lemma IndexIsFind(d: Bytes)
    ensures ByteIndex(d, NEWLINE) == Find(d, [NEWLINE])
  {
    hide ByteIndex, Find;
    var r := ByteIndex(d, NEWLINE);
    IndexOne(d, [NEWLINE], r);
    IndexUnique(d, [NEWLINE], r);
  }

  function DropEach(ps: seq<Bytes>): seq<Bytes> {
    seq(|ps|, i requires 0 <= i < |ps| => DropCR(ps[i]))
  }

  /** The pieces but for an empty last one. */
  function NoEmptyEnd(ps: seq<Bytes>): seq<Bytes> {
    if ps != [] && ps[|ps| - 1] == [] then ps[..|ps| - 1] else ps
  }

  /** The first line and the pieces after it. */
  lemma SplitFront(d: Bytes)
    requires Find(d, [NEWLINE]) >= 0
    ensures Splitting.Split(d, [NEWLINE], 0, -1)
         == [d[..Find(d, [NEWLINE])]] + Splitting.Split(d[Find(d, [NEWLINE]) + 1..], [NEWLINE], 0, -1)
  {
    hide Find;
  }

  lemma DropFront(p: Bytes, ps: seq<Bytes>)
    requires ps != []
    ensures DropEach(NoEmptyEnd([p] + ps)) == [DropCR(p)] + DropEach(NoEmptyEnd(ps))
  {
    hide DropCR;
    assert NoEmptyEnd([p] + ps) == [p] + NoEmptyEnd(ps);
  }

  /** The lines are what splitting at the newlines gives, less the nothing after a last newline. */
  lemma {:induction false} LinesAreSplit(d: Bytes)
    ensures Lines(d) == DropEach(NoEmptyEnd(Splitting.Split(d, [NEWLINE], 0, -1)))
  {
    hide ByteIndex, Find, DropCR, DropEach, NoEmptyEnd;
    IndexIsFind(d);
    var i := Find(d, [NEWLINE]);
    if i < 0 {
      assert Splitting.Split(d, [NEWLINE], 0, -1) == [d];
      DropOne(d);
    } else {
      LinesAreSplit(d[i + 1..]);
      SplitFront(d);
      DropFront(d[..i], Splitting.Split(d[i + 1..], [NEWLINE], 0, -1));
    }
  }

  lemma DropOne(d: Bytes)
    ensures DropEach(NoEmptyEnd([d])) == if d == [] then [] else [DropCR(d)]
  {
  }

  /** A token that Scan may return: the next line of `g`, ended by a newline or by the end of all. */
  ghost predicate IsLine(g: Bytes, from: nat, to: nat, t: Bytes, last: bool) {
    && from < to <= |g|
    && if NEWLINE in g[from..] then
         g[to - 1] == NEWLINE && NEWLINE !in g[from..to - 1] && t == DropCR(g[from..to - 1])
       else
         last && to == |g| && t == DropCR(g[from..])
  }

  lemma LineAdds(g: Bytes, from: nat, to: nat, t: Bytes, last: bool)
    requires IsLine(g, from, to, t, last) && EndsLine(g[..from])
    ensures Lines(g[..to]) == Lines(g[..from]) + [t]
    ensures EndsLine(g[..to]) || (last && to == |g|)
  {
    hide ByteIndex, Lines, DropCR, EndsLine;
    assert g[..to] == g[..from] + g[from..to];
    LinesAppend(g[..from], g[from..to]);
    if NEWLINE in g[from..] {
      assert g[from..to][..to - 1 - from] == g[from..to - 1];
      EndedLine(g[from..to], t);
      LastEnds(g, to);
    } else {
      assert g[from..to] == g[from..];
      OpenLine(g[from..to], t);
    }
  }

  lemma LineMoves(g: Bytes, from: nat, to: nat, t: Bytes, last: bool)
    requires IsLine(g, from, to, t, last)
    ensures from < to <= |g|
  {
  }

  lemma LastEnds(g: Bytes, to: nat)
    requires 0 < to <= |g| && g[to - 1] == NEWLINE
    ensures EndsLine(g[..to])
  {
  }

  lemma EndedLine(line: Bytes, t: Bytes)
    requires line != [] && line[|line| - 1] == NEWLINE && NEWLINE !in line[..|line| - 1]
    requires t == DropCR(line[..|line| - 1])
    ensures Lines(line) == [t]
  {
    hide ByteIndex, DropCR;
    IndexIs(line, |line| - 1);
    assert line[|line|..] == [];
  }

  lemma OpenLine(line: Bytes, t: Bytes)
    requires line != [] && NEWLINE !in line && t == DropCR(line)
    ensures Lines(line) == [t]
  {
    hide ByteIndex, DropCR;
    IndexNone(line);
  }

  // ----- Lines that are too long

  /** `n` bytes in a row without a newline, and `more` bytes after them. */
  ghost predicate HasRun(d: Bytes, n: nat, more: nat) {
    exists i :: IsRun(d, i, n, more)
  }

  predicate IsRun(d: Bytes, i: int, n: nat, more: nat) {
    0 <= i && i + n + more <= |d| && NEWLINE !in d[i..i + n]
  }

  /** A line of at most `n` bytes with its newline makes no run, nor does an open one of less than `n` + `more`. */
  lemma RunsNot(g: Bytes, from: nat, to: nat, n: nat, more: nat)
    requires from <= to <= |g| && n > 0 && EndsLine(g[..from]) && !HasRun(g[..from], n, 0)
    requires if NEWLINE in g[from..to] then to - from <= n && g[to - 1] == NEWLINE else to - from < n + more
    ensures !HasRun(g[..to], n, if NEWLINE in g[from..to] then 0 else more)
  {
    var after := if NEWLINE in g[from..to] then 0 else more;
    forall i
      ensures !IsRun(g[..to], i, n, after)
    {
      if 0 <= i && i + n + after <= to {
        if i + n <= from {
          assert !IsRun(g[..from], i, n, 0);
          assert g[..to][i..i + n] == g[..from][i..i + n];
        } else if i < from {
          assert g[..from][from - 1] == g[from - 1];
          assert g[..to][i..i + n][from - 1 - i] == g[from - 1];
        } else {
          assert g[..to][i..i + n][n - 1] == g[i + n - 1];
        }
      }
    }
  }

  lemma LessRun(d: Bytes, n: nat)
    ensures HasRun(d, n, 1) ==> HasRun(d, n, 0)
  {
    if i :| IsRun(d, i, n, 1) {
      assert IsRun(d, i, n, 0);
    }
  }

  lemma NoRuns(n: nat)
    requires n > 0
    ensures !HasRun([], n, 0)
  {
  }

  // ----- The scanner

  class Scanner {
    const src: Source
    const maxTokenSize: nat
    var token: Option<Bytes>
    var buf: array<Byte>
    var start: nat
    var end: nat
    var err: Option<Error>
    var empties: nat
    /** The size of the buffer that the caller provides. */
    ghost const first: nat
    /** How many bytes of the input are behind. */
    ghost var used: nat

    ghost predicate Valid()
      reads this, src, buf
    {
      Sound() && EndTold()
    }

    ghost predicate Sound()
      reads this, src, buf
    {
      && start <= end <= buf.Length
      && first <= buf.Length <= Capacity()
      && used <= |src.given|
      && buf[start..end] == src.given[used..]
      && (err == Some(Eof) ==> src.data == [])
    }

    /** The largest size of the buffer. */
    ghost function Capacity(): nat {
      if first <= maxTokenSize then maxTokenSize else first
    }

    /** The end is known just when it was told; if it was told late, there was still room for more. */
    ghost predicate EndTold()
      reads this`err, this`used, src
    {
      && (err == None ==> !src.early)
      && (err == Some(Eof) ==> Capacity() > 0)
      && (err == Some(Eof) && !src.early ==> |src.given| - used < Capacity())
    }

    constructor (src: Source, buf: array<Byte>, maxTokenSize: nat)
      requires src.given == [] && !src.early
      ensures Valid() && this.src == src && this.buf == buf && this.maxTokenSize == maxTokenSize
      ensures used == 0 && err == None && first == buf.Length
    {
      this.src, this.buf, this.maxTokenSize := src, buf, maxTokenSize;
      token, start, end, err, empties := None, 0, 0, None, 0;
      first, used := buf.Length, 0;
    }

    /** Records the first error; the end of the input gives way to another one. */
    method SetErr(e: Error)
      modifies this`err
      ensures err == if old(err) == None || old(err) == Some(Eof) then Some(e) else old(err)
    {
      if err == None || err == Some(Eof) {
        err := Some(e);
      }
    }

    /** What there was not room for: more than the largest buffer, and no newline in it. */
    ghost predicate NoRoom()
      requires used <= |src.given|
      reads this, src
    {
      && NEWLINE !in src.given[used..]
      && (|src.given| - used >= Capacity() || (first < maxTokenSize && |src.given| - used > MAX_INT / 2))
      && !src.early
    }

    /** Moves the data to the front, and gets a larger buffer when it is full. */
    method MakeRoom()
      requires Valid() && err == None && (end > start ==> NEWLINE !in src.given[used..])
      modifies this`buf, this`start, this`end, this`err, buf
      ensures Valid() && (buf == old(buf) || fresh(buf))
      ensures err == None ==> end < buf.Length
      ensures err != None ==> err == Some(TooLong) && NoRoom()
    {
      ghost var pending := src.given[used..];
      if start > 0 && (end == buf.Length || start > buf.Length / 2) {
        Put(buf, 0, buf[start..end]);
        end := end - start;
        start := 0;
        assert buf[start..end] == pending;
      }
      if end == buf.Length {
        if buf.Length >= maxTokenSize || buf.Length > MAX_INT / 2 {
          assert start == 0;
          SetErr(TooLong);
          return;
        }
        Grow();
      }
    }

    method Grow()
      requires Sound() && end == buf.Length < maxTokenSize
      modifies this`buf, this`start, this`end
      ensures Sound() && fresh(buf) && end < buf.Length <= maxTokenSize
    {
      ghost var pending := src.given[used..];
      var newSize := buf.Length * 2;
      if newSize == 0 {
        newSize := START_SIZE;
      }
      if newSize > maxTokenSize {
        newSize := maxTokenSize;
      }
      var newBuf := new Byte[newSize](_ => 0);
      var data := buf[start..end];
      Put(newBuf, 0, data);
      buf := newBuf;
      end := end - start;
      start := 0;
      assert buf[start..end] == buf[..][..|data|] == data == pending;
    }

    /** What reading leaves as it was. */
    twostate predicate Grown()
      reads this, src
    {
      && old(src.given) <= src.given
      && src.All() == old(src.All())
      && (old(src.failed) ==> src.failed) && old(src.told) <= src.told
      && (old(src.script) == [] ==> src.script == [])
    }

    /** One read into the free part of the buffer. */
    method ReadOnce() returns (n: nat, e: Option<Error>)
      requires Sound() && err == None && end < buf.Length
      modifies this`end, buf, src
      ensures Sound() && Grown() && |src.data| + n == |old(src.data)| && end == old(end) + n
      ensures src.early == (old(src.early) || (n > 0 && e == Some(Eof)))
      ensures src.longestIdle >= src.idle
      ensures old(src.script) == [] ==> (e == None || e == Some(Eof)) && (n > 0 || e != None)
      ensures e == Some(Eof) ==> src.data == []
      ensures e.Some? ==> e.value in src.told && (e.value.Eof? || (e.value.Other? && src.failed))
      ensures src.idle == if n > 0 then 0 else old(src.idle) + 1
    {
      hide Reply;
      ghost var pending, given := src.given[used..], src.given;
      n, e := src.Read(buf, end);
      assert buf[start..end + n] == buf[..end][start..] + buf[end..end + n];
      assert old(buf[start..end]) == old(buf[..end])[start..];
      assert src.given[used..] == pending + buf[end..end + n];
      end := end + n;
    }

    /** Reads until there is something, an error, or too many empty reads. */
    method ReadMore()
      requires Valid() && err == None && end < buf.Length
      modifies this`end, this`err, this`empties, buf, src
      ensures Valid() && Grown()
      ensures err != None || |src.data| < |old(src.data)|
      ensures err == Some(Eof) ==> src.data == []
      ensures err == Some(NoProgress) ==> src.longestIdle > MAX_EMPTY_READS
      ensures old(src.script) == [] ==> err == None || err == Some(Eof)
      ensures err.Some? ==> err.value.Eof? || err.value.NoProgress? || (err.value.Other? && src.failed)
      ensures err.Some? && !err.value.NoProgress? ==> err.value in src.told
    {
      var loop := 0;
      while true
        invariant Valid() && Grown() && err == None && end < buf.Length
        invariant loop <= MAX_EMPTY_READS && src.idle >= loop && |src.data| == |old(src.data)|
        invariant loop > 0 ==> old(src.script) != []
        decreases MAX_EMPTY_READS - loop
      {
        var n, e := ReadOnce();
        if e != None {
          SetErr(e.value);
          break;
        }
        if n > 0 {
          empties := 0;
          break;
        }
        loop := loop + 1;
        if loop > MAX_EMPTY_READS {
          SetErr(NoProgress);
          break;
        }
      }
    }

    /** Consumes `n` bytes of the buffer, if there are so many. */
    method Advance(n: int) returns (ok: bool)
      requires Valid()
      modifies this`start, this`used, this`err
      ensures ok == (0 <= n <= old(end - start))
      ensures ok ==> Valid() && used == old(used) + n && start == old(start) + n && err == old(err)
      ensures !ok ==> used == old(used) && start == old(start)
      ensures !ok && (old(err) == None || old(err) == Some(Eof)) ==>
                err == Some(if n < 0 then NegativeAdvance else AdvanceTooFar)
      ensures !ok && old(err) != None && old(err) != Some(Eof) ==> err == old(err)
    {
      if n < 0 {
        SetErr(NegativeAdvance);
        return false;
      }
      if n > end - start {
        SetErr(AdvanceTooFar);
        return false;
      }
      assert src.given[used + n..] == src.given[used..][n..];
      assert buf[start + n..end] == buf[start..end][n..];
      start, used := start + n, used + n;
      return true;
    }

    /** The split function on what is in the buffer. */
    method Split() returns (found: bool)
      requires Valid() && (end > start || err != None)
      modifies this`token, this`start, this`empties, this`used, this`err
      ensures Valid() && err == old(err)
      ensures found ==> token.Some? && IsLine(src.given, old(used), used, token.value, err != None)
      ensures !found ==> used == old(used) && start == old(start) && NEWLINE !in src.given[used..]
      ensures !found && err != None ==> used == |src.given|
      ensures used - old(used) <= buf.Length
      ensures err == Some(Eof) && !src.early ==> used - old(used) < Capacity()
    {
      hide ScanLines, IsLine;
      var advance, tok := TakeLine();
      var ok := Advance(advance);
      if !ok {
        assert false; // an advance beyond the data
      }
      token := tok;
      if tok != None {
        if err == None || advance > 0 {
          empties := 0;
        } else {
          assert false; // panic("bufio.Scan: too many empty tokens without progressing")
        }
        return true;
      }
      return false;
    }

    method TakeLine() returns (n: int, tok: Option<Bytes>)
      requires Valid() && (end > start || err != None)
      ensures 0 <= n <= end - start && used + n <= |src.given|
      ensures tok.Some? ==> n > 0 && IsLine(src.given, used, used + n, tok.value, err != None)
      ensures tok == None ==> n == 0 && NEWLINE !in src.given[used..] && (err != None ==> used == |src.given|)
    {
      hide ScanLines, IsLine;
      var data := buf[start..end];
      var r := ScanLines(data, err != None);
      n, tok := r.0, r.1;
      SplitLine(src.given, used, err != None);
    }

    method Clear()
      requires Valid() && used == |src.given|
      modifies this`start, this`end
      ensures Valid()
    {
      start, end := 0, 0;
    }

    method Scan() returns (more: bool)
      requires Valid()
      modifies this, buf, src
      ensures Valid() && Grown() && (buf == old(buf) || fresh(buf))
      ensures more ==> token.Some? && IsLine(src.given, old(used), used, token.value, err != None)
      ensures !more ==> used == old(used) && err != None
      ensures !more && (old(err) != None || err != Some(TooLong)) ==> used == |src.given|
      ensures !more && old(err) == None && err == Some(TooLong) ==> NoRoom()
      ensures old(err) == None ==> ErrCause()
      ensures old(err) != None ==> err == old(err) && unchanged(src)
      ensures more && old(err) != Some(TooLong) ==> err != Some(TooLong)
      ensures old(err) != None ==> (more <==> old(used) < |src.given|)
      ensures more ==> used - old(used) <= buf.Length
      ensures more && err == Some(Eof) && !src.early ==> used - old(used) < Capacity()
      ensures old(src.script) == [] && old(err) == None ==> err == None || err == Some(Eof) || err == Some(TooLong)
    {
      hide IsLine, Source.All, NoRoom, Sound, EndTold;
      while true
        invariant Valid() && Grown() && (buf == old(buf) || fresh(buf)) && used == old(used)
        invariant old(err) == None ==> ErrCause() && err != Some(TooLong)
        invariant old(err) != None ==> err == old(err) && unchanged(src)
        invariant old(src.script) == [] && old(err) == None ==> err == None || err == Some(Eof)
        decreases if err == None then 1 else 0, |src.data|
      {
        if end > start || err != None {
          var found := Split();
          if found {
            LineMoves(src.given, old(used), used, token.value, err != None);
            return true;
          }
        }
        if err != None {
          Clear();
          return false;
        }
        MakeRoom();
        if err != None {
          return false;
        }
        ReadMore();
      }
    }

    /**
     * A call after one that returned false: it returns false too, unless the line was too long. Then it returns
     * what is held of that line as a token.
     */
    method ScanAgain() returns (more: bool, again: bool)
      requires Valid() && err == None
      modifies this, buf, src
      ensures Valid() && Grown()
      ensures !more ==> (again <==> err == Some(TooLong) && old(used) < |src.given|)
      ensures !more && again ==> token == Some(DropCR(src.given[old(used)..])) && used == |src.given|
    {
      more := Scan();
      if more {
        return true, false;
      }
      again := Scan();
    }

    /** Where an error comes from. */
    ghost predicate ErrCause()
      reads this, src
    {
      match err
      case None => true
      case Some(Eof) => src.data == [] && Eof in src.told
      case Some(NoProgress) => src.longestIdle > MAX_EMPTY_READS
      case Some(TooLong) => true
      case Some(Other(_)) => src.failed && err.value in src.told
      case _ => false
    }

    /** Runs of bytes without a newline are shorter than the largest buffer. */
    ghost predicate ShortLines(d: Bytes) {
      forall i, j :: 0 <= i <= j <= |d| && NEWLINE !in d[i..j] ==> j - i < maxTokenSize
    }

    /** Scanning to the end: the tokens are the lines of all that was read. */
    method ScanAll() returns (tokens: seq<Bytes>)
      requires Valid() && used == 0 && err == None
      modifies this, buf, src
      ensures err != None && ErrCause() && src.All() == old(src.All())
      ensures used <= |src.given| && tokens == Lines(src.given[..used])
      ensures if err == Some(TooLong) then NoRoom() else used == |src.given|
      ensures err == Some(Eof) ==> tokens == Lines(old(src.All()))
      ensures !src.failed && src.longestIdle <= MAX_EMPTY_READS && maxTokenSize <= MAX_INT / 2 ==>
                (err == Some(TooLong) <==> HasRun(old(src.All()), Capacity(), if src.early then 1 else 0))
      ensures ShortLines(old(src.All())) && maxTokenSize <= MAX_INT / 2 ==> err != Some(TooLong)
      ensures buf.Length <= Capacity()
    {
      hide IsLine, Lines, EndsLine, HasRun, NoRoom, ShortLines, EndTold;
      tokens := [];
      NoLines(src.given);
      if Capacity() > 0 {
        NoRuns(Capacity());
        assert src.given[..0] == [];
      }
      while true
        invariant Valid() && src.All() == old(src.All()) && (buf == old(buf) || fresh(buf)) && used <= |src.given|
        invariant tokens == Lines(src.given[..used]) && ErrCause() && err != Some(TooLong)
        invariant EndsLine(src.given[..used]) || (err != None && used == |src.given|)
        invariant Capacity() > 0 ==> !HasRun(src.given[..used], Capacity(), Slack(EndsLine(src.given[..used])))
        decreases |src.All()| - used
      {
        ghost var given, from := src.given, used;
        var more := Scan();
        assert src.given[..from] == given[..from];
        if !more {
          Outcome(tokens);
          break;
        }
        LineMoves(src.given, from, used, token.value, err != None);
        LineAdds(src.given, from, used, token.value, err != None);
        NoRunAdds(from);
        tokens := tokens + [token.value];
      }
    }

    /** How much more than a full buffer an open line at the end may not have. */
    ghost function Slack(ended: bool): nat
      reads this`err, src
    {
      if ended || (err == Some(Eof) && !src.early) then 0 else 1
    }

    /** What it means that scanning has ended. */
    lemma Outcome(tokens: seq<Bytes>)
      requires Valid() && err != None && ErrCause() && tokens == Lines(src.given[..used])
      requires if err == Some(TooLong) then NoRoom() else used == |src.given|
      requires Capacity() > 0 ==> !HasRun(src.given[..used], Capacity(), Slack(EndsLine(src.given[..used])))
      ensures err == Some(Eof) ==> tokens == Lines(src.All())
      ensures !src.failed && src.longestIdle <= MAX_EMPTY_READS && maxTokenSize <= MAX_INT / 2 ==>
                (err == Some(TooLong) <==> HasRun(src.All(), Capacity(), if src.early then 1 else 0))
      ensures ShortLines(src.All()) && maxTokenSize <= MAX_INT / 2 ==> err != Some(TooLong)
    {
      hide Lines, EndsLine, HasRun;
      TooLongMeans();
      RunWitness();
      LessRun(src.given, Capacity());
      assert src.given[..|src.given|] == src.given;
      assert src.data == [] ==> src.All() == src.given;
    }

    /** What there was no room for is a run. */
    lemma RunWitness()
      requires used <= |src.given|
      ensures NoRoom() && maxTokenSize <= MAX_INT / 2 ==> HasRun(src.All(), Capacity(), 0)
    {
      if NoRoom() && maxTokenSize <= MAX_INT / 2 {
        var d, n := src.All(), Capacity();
        assert d[used..used + n] == src.given[used..][..n];
        assert IsRun(d, used, n, 0);
      }
    }

    /** A token more makes no run. */
    lemma NoRunAdds(from: nat)
      requires Valid() && token.Some? && IsLine(src.given, from, used, token.value, err != None)
      requires Capacity() > 0 && EndsLine(src.given[..from]) && !HasRun(src.given[..from], Capacity(), 0)
      requires used - from <= buf.Length && (err == Some(Eof) && !src.early ==> used - from < Capacity())
      ensures !HasRun(src.given[..used], Capacity(), Slack(EndsLine(src.given[..used])))
    {
      hide HasRun, Lines;
      var g := src.given;
      var more := if err == Some(Eof) && !src.early then 0 else 1;
      assert NEWLINE in g[from..] ==> g[used - 1] in g[from..used];
      assert NEWLINE in g[from..used] ==> NEWLINE in g[from..];
      RunsNot(g, from, used, Capacity(), more);
      if NEWLINE in g[from..] {
        LastEnds(g, used);
      }
    }

    lemma TooLongMeans()
      requires used <= |src.given|
      ensures NoRoom() && ShortLines(src.All()) ==> maxTokenSize > MAX_INT / 2
    {
      var d, i, j := src.All(), used, |src.given|;
      assert d[i..j] == src.given[used..];
    }
  }

  /** Three bytes and a buffer of two: the first call returns false, the next one true, with half a line. */
  method TokenAfterTooLong() returns (first: bool, second: bool, token: Option<Bytes>)
    ensures !first && second && token == Some([0x61, 0x61])
  {
    hide Lines, HasRun, Scanner.ErrCause, IsLine;
    var d := [0x61, 0x61, 0x61];
    var src := new Source(d, []);
    var buf := new Byte[2](_ => 0);
    var s := new Scanner(src, buf, 2);
    first := s.Scan();
    assert src.given <= src.All() == d && NEWLINE !in src.given;
    assert |src.given| + |src.data| == 3;
    if first {
      LastLine(src.given, 0, s.used, s.token.value, s.err != None);
      assert false;
    }
    assert s.err == Some(TooLong) && |src.given| == 2;
    assert src.given[0..] == [0x61, 0x61];
    second := s.Scan();
    token := s.token;
    LastLine(src.given, 0, s.used, token.value, true);
  }

  lemma LastLine(g: Bytes, from: nat, to: nat, t: Bytes, last: bool)
    requires IsLine(g, from, to, t, last) && NEWLINE !in g
    ensures last && to == |g| && t == DropCR(g[from..])
  {
  }

  lemma NoLines(g: Bytes)
    ensures Lines(g[..0]) == [] && EndsLine(g[..0])
  {
  }

  lemma SplitLine(g: Bytes, from: nat, last: bool)
    requires from <= |g| && (last || g[from..] != [])
    ensures var (n, t) := ScanLines(g[from..], last);
            t.Some? ==> IsLine(g, from, from + n, t.value, last)
  {
    hide ByteIndex, DropCR;
    var d := g[from..];
    var i := ByteIndex(d, NEWLINE);
    if i >= 0 {
      assert g[from..from + i] == d[..i];
      assert d[i] in d;
    } else {
      assert d[..|d|] == d;
    }
  }
}
