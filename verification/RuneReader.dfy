/** The adapter that reads runes one byte at a time from a plain reader. */
module RuneReader {
  import opened Utf8

  lemma AsciiFront(p: Bytes)
    requires p != [] && p[0] < RUNE_SELF
    ensures DecodeRune(p) == (p[0], 1)
  {
  }

  class ReadRune {
    var input: Bytes // what the reader has still to give before EOF
    var buf: array<Byte>
    var pending: nat
    var pendBuf: array<Byte>
    var peekRune: int

    /** Every pending byte but the last continues a sequence and so starts none. */
    ghost predicate Valid()
      reads this, buf, pendBuf
    {
      && buf.Length == UTF_MAX && pendBuf.Length == UTF_MAX && buf != pendBuf
      && pending < UTF_MAX
      && (forall i :: 0 <= i < pending - 1 ==> Continues(pendBuf[i]))
    }

    /** The bytes not yet decoded. */
    ghost function Left(): Bytes
      requires Valid()
      reads this, buf, pendBuf
    {
      pendBuf[..pending] + input
    }

    /** The runes still to come. */
    ghost function Runes(): seq<nat>
      requires Valid()
      reads this, buf, pendBuf
    {
      (if peekRune >= 0 then [peekRune] else []) + DecodeAll(Left())
    }

    constructor (input: Bytes)
      ensures Valid() && fresh(buf) && fresh(pendBuf)
      ensures peekRune == -1 && pending == 0 && this.input == input && Runes() == DecodeAll(input)
    {
      this.input := input;
      buf := new Byte[UTF_MAX](_ => 0);
      pendBuf := new Byte[UTF_MAX](_ => 0);
      pending := 0;
      peekRune := -1;
      new;
      assert Left() == input;
      assert Runes() == DecodeAll(input);
    }

    /** The next byte, left over or read; false stands for EOF. */
    method ReadByte() returns (b: Byte, ok: bool)
      requires Valid()
      modifies this`input, this`pending, pendBuf
      ensures Valid() && peekRune == old(peekRune)
      ensures ok <==> old(Left()) != []
      ensures ok ==> old(Left()) == [b] + Left()
      ensures !ok ==> Left() == []
      ensures pending == if old(pending) > 0 then old(pending) - 1 else 0
      ensures old(pending) > 1 ==> Continues(b)
    {
      if pending > 0 {
        b, ok := pendBuf[0], true;
        ghost var was := pendBuf[..];
        forall i | 0 <= i < UTF_MAX - 1 {
          pendBuf[i] := pendBuf[i + 1];
        }
        pending := pending - 1;
        assert pendBuf[..pending] == was[1..pending + 1];
        assert was[..pending + 1] == [b] + was[1..pending + 1];
        return;
      }
      if input == [] {
        return 0, false;
      }
      pendBuf[0] := input[0];
      input := input[1..];
      return pendBuf[0], true;
    }

    /** Gathers bytes after the first until they make a full rune or the input ends. */
    method Gather(ghost all: Bytes) returns (n: nat)
      requires Valid() && all == [buf[0]] + Left() && buf[0] >= RUNE_SELF
      requires pending > 0 ==> Continues(buf[0])
      modifies this`input, this`pending, pendBuf, buf
      ensures Valid() && peekRune == old(peekRune)
      ensures 1 <= n <= UTF_MAX && all == buf[..n] + Left() && DecodeRune(buf[..n]) == DecodeRune(all)
      ensures n > 1 ==> pending == 0
      ensures forall i :: 1 <= i < n - 1 ==> Continues(buf[i])
    {
      n := 1;
      while !FullRune(buf[..n])
        invariant Valid() && peekRune == old(peekRune)
        invariant 1 <= n <= UTF_MAX && all == buf[..n] + Left()
        invariant pending > 0 ==> n == 1 && Continues(buf[0])
        invariant forall i :: 1 <= i < n - 1 ==> Continues(buf[i])
        decreases UTF_MAX - n
      {
        ghost var was := buf[..n];
        NotFullContinues(was);
        var b, ok := ReadByte();
        buf[n] := b;
        assert buf[..n] == was;
        if !ok {
          assert buf[..n] + Left() == buf[..n];
          return;
        }
        assert buf[..n + 1] == was + [b];
        n := n + 1;
      }
      FullRuneDecides(buf[..n], Left());
    }

    /** Decodes the next rune of the bytes left. */
    method Decode() returns (rr: nat, size: nat, ok: bool)
      requires Valid()
      modifies this`input, this`pending, pendBuf, buf
      ensures Valid() && peekRune == old(peekRune)
      ensures ok <==> old(Left()) != []
      ensures ok ==> (rr, size) == DecodeRune(old(Left())) && Left() == old(Left())[size..]
      ensures !ok ==> Left() == []
    {
      hide DecodeRune;
      ghost var all := Left();
      rr, size := 0, 0;
      var b;
      b, ok := ReadByte();
      if !ok {
        return;
      }
      buf[0] := b;
      if b < RUNE_SELF { // fast check for common ASCII case
        AsciiFront(all);
        rr, size := b, 1;
      } else {
        var n := Gather(all);
        var d := DecodeRune(buf[..n]);
        rr, size := d.0, d.1;
        assert all[size..] == buf[size..n] + Left();
        if size < n {
          Keep(size, n);
        }
      }
    }

    /** The next rune; false stands for EOF. */
    method Next() returns (rr: nat, size: int, ok: bool)
      requires Valid()
      modifies this, pendBuf, buf
      ensures Valid() && buf == old(buf) && pendBuf == old(pendBuf)
      ensures ok <==> old(Runes()) != []
      ensures ok ==> old(Runes()) == [rr] + Runes() && peekRune == -1 - rr
      ensures !ok ==> Runes() == [] && peekRune == old(peekRune)
      ensures ok && old(peekRune) >= 0 ==> size == RuneLen(rr) && Left() == old(Left())
      ensures ok && old(peekRune) < 0 ==> (rr, size) == DecodeRune(old(Left())) && Left() == old(Left())[size..]
    {
      hide DecodeRune;
      if peekRune >= 0 {
        rr := peekRune;
        peekRune := -1 - peekRune;
        size := RuneLen(rr);
        return rr, size, true;
      }
      rr, size, ok := Decode();
      if ok {
        peekRune := -1 - rr;
      }
    }

    /** Saves the bytes of `buf` that did not belong to the rune. */
    method Keep(size: nat, n: nat)
      requires Valid() && 1 <= size < n <= UTF_MAX && pending == 0
      requires forall i :: 1 <= i < n - 1 ==> Continues(buf[i])
      modifies this`pending, pendBuf
      ensures Valid() && Left() == buf[size..n] + input
    {
      forall i | 0 <= i < n - size {
        pendBuf[pending + i] := buf[size + i];
      }
      pending := pending + (n - size);
      assert pendBuf[..pending] == buf[size..n];
    }

    /** Gives the last rune back. Before any read that is U+0000, since peekRune starts at -1. */
    method UnreadRune() returns (ok: bool)
      requires Valid()
      modifies this`peekRune
      ensures Valid() && (ok <==> old(peekRune) < 0)
      ensures ok ==> peekRune == -1 - old(peekRune) && Runes() == [-1 - old(peekRune)] + old(Runes())
      ensures !ok ==> Runes() == old(Runes())
    {
      if peekRune >= 0 {
        return false;
      }
      peekRune := -1 - peekRune;
      return true;
    }

    /** Reading to the end gives the runes of the whole stream decoded at once. */
    method ReadAll() returns (runes: seq<nat>)
      requires Valid()
      modifies this, pendBuf, buf
      ensures runes == old(Runes())
    {
      runes := [];
      var ok := true;
      while ok
        invariant Valid() && buf == old(buf) && pendBuf == old(pendBuf)
        invariant old(Runes()) == runes + Runes()
        invariant !ok ==> Runes() == []
        decreases |Runes()|, ok
      {
        var rr, size;
        rr, size, ok := Next();
        if ok {
          runes := runes + [rr];
        }
      }
    }
  }
}
