/** HTML escaping, and unescaping in place over a copy of the input. */
module HtmlEscape {
  import opened Utf8
  import opened Buffers
  import opened ByteSearch
  import Integers

  const AMPERSAND: Byte := 0x26
  const HASH: Byte := 0x23
  const SEMICOLON: Byte := 0x3B

  const LONGEST_WITHOUT_SEMICOLON := 6

  /** What the Windows-1252 numbers 0x80 to 0x9F stand for. */
  const REPLACEMENTS: seq<nat> := [
    0x20AC, 0x0081, 0x201A, 0x0192, 0x201E, 0x2026, 0x2020, 0x2021,
    0x02C6, 0x2030, 0x0160, 0x2039, 0x0152, 0x008D, 0x017D, 0x008F,
    0x0090, 0x2018, 0x2019, 0x201C, 0x201D, 0x2022, 0x2013, 0x2014,
    0x02DC, 0x2122, 0x0161, 0x203A, 0x0153, 0x009D, 0x017E, 0x0178]

  /** The named references, for one and for two runes. */
  datatype Table = Table(one: map<Bytes, nat>, two: map<Bytes, (nat, nat)>) {
    function One(name: Bytes): nat {
      if name in one then one[name] else 0
    }

    function Two(name: Bytes): (nat, nat) {
      if name in two then two[name] else (0, 0)
    }

    /** No rune takes more room than the reference to it. */
    ghost predicate Fits() {
      && (forall k :: k in one ==> |EncodeRune(one[k])| <= 1 + |k|)
      && (forall k :: k in two ==> |EncodeRune(two[k].0)| + |EncodeRune(two[k].1)| <= 1 + |k|)
    }
  }

  // ----- Numeric references

  function Digit(c: Byte, hex: bool): int {
    if 0x30 <= c <= 0x39 then c - 0x30
    else if hex && 0x61 <= c <= 0x66 then c - 0x61 + 10
    else if hex && 0x41 <= c <= 0x46 then c - 0x41 + 10
    else -1
  }

  /** The end of the digits that start at `i`. */
  function DigitsEnd(s: Bytes, i: nat, hex: bool): (k: nat)
    requires i <= |s|
    ensures i <= k <= |s| && (k < |s| ==> Digit(s[k], hex) < 0)
    ensures forall j :: i <= j < k ==> Digit(s[j], hex) >= 0
    decreases |s| - i
  {
    if i < |s| && Digit(s[i], hex) >= 0 then DigitsEnd(s, i + 1, hex) else i
  }

  function Base(hex: bool): nat {
    if hex then 16 else 10
  }

  /** The number that digits write. */
  function Number(ds: Bytes, hex: bool): int {
    if ds == [] then 0
    else Base(hex) * Number(ds[..|ds| - 1], hex) + Digit(ds[|ds| - 1], hex)
  }

  /** Two's complement of 32 bits. */
  function Int32(v: int): (r: int)
    ensures -0x8000_0000 <= r <= 0x7FFF_FFFF
  {
    (v + 0x8000_0000) % TWO32 - 0x8000_0000
  }

  lemma Int32Step(hex: bool, v: int, d: int)
    ensures Int32(Base(hex) * Int32(v) + d) == Int32(Base(hex) * v + d)
  {
    var k := (v + 0x8000_0000) / TWO32;
    assert Int32(v) == v - TWO32 * k;
    if hex {
      Whole(16 * v + d + 0x8000_0000, -16 * k);
    } else {
      Whole(10 * v + d + 0x8000_0000, -10 * k);
    }
  }

  lemma Whole(a: int, m: int)
    ensures (a + TWO32 * m) % TWO32 == a % TWO32
  {
  }

  /** The rune of a number: old Windows numbers are translated, invalid ones replaced. */
  function RuneOf(x: int): int {
    if 0x80 <= x <= 0x9F then REPLACEMENTS[x - 0x80]
    else if x == 0 || 0xD800 <= x <= 0xDFFF || x > 0x10FFFF then RUNE_ERROR
    else x
  }

  // ----- Named references

  predicate IsAlnum(c: Byte) {
    0x61 <= c <= 0x7A || 0x41 <= c <= 0x5A || 0x30 <= c <= 0x39
  }

  function NameEnd(s: Bytes, i: nat): (k: nat)
    requires i <= |s|
    ensures i <= k <= |s| && (k < |s| ==> !IsAlnum(s[k])) && forall j :: i <= j < k ==> IsAlnum(s[j])
    decreases |s| - i
  {
    if i < |s| && IsAlnum(s[i]) then NameEnd(s, i + 1) else i
  }

  /** Past a semicolon, if there is one at `k`. */
  function PastSemicolon(s: Bytes, k: nat): (i: nat)
    requires k <= |s|
    ensures k <= i <= |s|
  {
    if k < |s| && s[k] == SEMICOLON then k + 1 else k
  }

  /** The longest of the names of 2 to `j` bytes at the front that the table has, or 0. */
  function LongestName(t: Table, name: Bytes, j: int): (r: nat)
    requires j <= |name|
    ensures r > 0 ==> 1 < r <= j && t.One(name[..r]) != 0
    ensures forall k :: r < k <= j && k > 1 ==> t.One(name[..k]) == 0
  {
    if j <= 1 then 0 else if t.One(name[..j]) != 0 then j else LongestName(t, name, j - 1)
  }

  // ----- What a reference stands for

  /** The bytes for the reference at the front, and how much of the input it takes. */
  function Reference(t: Table, s: Bytes): (r: (Bytes, nat))
    requires s != []
    ensures 1 <= r.1 <= |s|
  {
    if |s| <= 1 then (s[..1], 1)
    else if s[1] == HASH then NumericReference(s)
    else NamedReference(t, s, PastSemicolon(s, NameEnd(s, 1)))
  }

  function NumericReference(s: Bytes): (r: (Bytes, nat))
    requires |s| >= 2
    ensures 1 <= r.1 <= |s| && |r.0| <= r.1
  {
    if |s| <= 3 then (s[..1], 1) else
    var hex := s[2] == 0x78 || s[2] == 0x58;
    var begin := if hex then 3 else 2;
    var k := DigitsEnd(s, begin, hex);
    var i := PastSemicolon(s, k);
    if i <= 3 then (s[..1], 1) else (EncodeRune(RuneOf(Int32(Number(s[begin..k], hex)))), i)
  }

  function NamedReference(t: Table, s: Bytes, i: nat): (r: (Bytes, nat))
    requires 1 <= i <= |s|
    ensures 1 <= r.1 <= |s|
  {
    var name := s[1..i];
    if name == [] then (s[..i], i)
    else if t.One(name) != 0 then (EncodeRune(t.One(name)), i)
    else if t.Two(name).0 != 0 then (EncodeRune(t.Two(name).0) + EncodeRune(t.Two(name).1), i)
    else
      var j := LongestName(t, name, Integers.Min(|name| - 1, LONGEST_WITHOUT_SEMICOLON));
      if j > 0 then (EncodeRune(t.One(name[..j])), j + 1) else (s[..i], i)
  }

  lemma ReferenceFits(t: Table, s: Bytes)
    requires s != [] && t.Fits()
    ensures |Reference(t, s).0| <= Reference(t, s).1
  {
    hide EncodeRune, NameEnd, DigitsEnd, LongestName;
  }

  // ----- When a numeric reference is the rune of its number

  predicate IsHex(s: Bytes) {
    |s| > 2 && (s[2] == 0x78 || s[2] == 0x58)
  }

  function Front(s: Bytes): nat {
    if IsHex(s) then 3 else 2
  }

  /** How much the digits and what stands before them take. */
  function DigitsTo(s: Bytes): (k: nat)
    requires |s| >= 2
    ensures Front(s) <= k <= |s|
  {
    DigitsEnd(s, Front(s), IsHex(s))
  }

  /** The digits of a reference, which may be none. */
  function Digits(s: Bytes): Bytes
    requires |s| >= 2
  {
    s[Front(s)..DigitsTo(s)]
  }

  predicate Ended(s: Bytes)
    requires |s| >= 2
  {
    DigitsTo(s) < |s| && s[DigitsTo(s)] == SEMICOLON
  }

  /** What a numeric reference means: the rune of the number that is written; without a digit it is none. */
  function Meant(s: Bytes): (Bytes, nat)
    requires |s| >= 2
  {
    if Digits(s) == [] then (s[..1], 1)
    else (EncodeRune(RuneOf(Number(Digits(s), IsHex(s)))), PastSemicolon(s, DigitsTo(s)))
  }

  predicate IsScalar(x: int) {
    x != 0 && IsRune(x)
  }

  /** A number too large is read as one of 32 bits, which may be that of another rune. */
  predicate Wraps(n: nat) {
    n >= TWO32 && IsScalar(n % TWO32) && n % TWO32 != RUNE_ERROR
  }

  /** What makes the code read a numeric reference otherwise than it is meant. */
  predicate Misread(s: Bytes)
    requires |s| >= 2
  {
    if Digits(s) == [] then IsHex(s) && Ended(s)
    else (!IsHex(s) && |Digits(s)| == 1 && !Ended(s)) || Wraps(NumberIn(s))
  }

  function NumberIn(s: Bytes): nat
    requires |s| >= 2
  {
    NumberNat(Digits(s), IsHex(s));
    Number(Digits(s), IsHex(s))
  }

  lemma {:induction false} NumberNat(ds: Bytes, hex: bool)
    requires forall i :: 0 <= i < |ds| ==> Digit(ds[i], hex) >= 0
    ensures Number(ds, hex) >= 0
  {
    hide Digit;
    if ds != [] {
      NumberNat(ds[..|ds| - 1], hex);
    }
  }

  /** Different runes have different bytes. */
  lemma SameRune(x: int, y: int)
    requires IsScalar(x) && IsScalar(y)
    ensures EncodeRune(x) == EncodeRune(y) <==> x == y
  {
    hide EncodeRune, DecodeRune;
    EncodeDecodes(x, []);
    EncodeDecodes(y, []);
  }

  lemma RuneOfScalar(x: int)
    ensures if IsScalar(x) then IsScalar(RuneOf(x)) && (RuneOf(x) == RUNE_ERROR <==> x == RUNE_ERROR)
            else EncodeRune(RuneOf(x)) == EncodeRune(RUNE_ERROR)
  {
  }

  /** Reading a number in 32 bits gives another rune exactly when it wraps to one. */
  lemma WrapExactly(n: nat)
    ensures EncodeRune(RuneOf(Int32(n))) == EncodeRune(RuneOf(n)) <==> !Wraps(n)
  {
    hide EncodeRune, RuneOf;
    var x := Int32(n);
    RuneOfScalar(n);
    RuneOfScalar(x);
    if n >= TWO32 {
      SameRune(RUNE_ERROR, if IsScalar(x) then RuneOf(x) else RUNE_ERROR);
    }
  }

  /** A numeric reference is read as it is meant exactly when it is none of those. */
  lemma NumericExactly(s: Bytes)
    requires |s| >= 2
    ensures NumericReference(s) == Meant(s) <==> !Misread(s)
  {
    hide EncodeRune, RuneOf, Int32, Wraps, Number, DigitsEnd;
    if Digits(s) != [] {
      WrapExactly(NumberIn(s));
    }
  }

  lemma DigitsEndIs(s: Bytes, i: nat, hex: bool, k: nat)
    requires i <= k <= |s| && (k < |s| ==> Digit(s[k], hex) < 0)
    requires forall j :: i <= j < k ==> Digit(s[j], hex) >= 0
    ensures DigitsEnd(s, i, hex) == k
  {
    hide DigitsEnd, Digit;
  }

  /** "4294967361", which is 65 too large for 32 bits. */
  const WRAPPING: Bytes := [0x34, 0x32, 0x39, 0x34, 0x39, 0x36, 0x37, 0x33, 0x36, 0x31]

  lemma WrappingNumber()
    ensures Number(WRAPPING, false) == TWO32 + 65
  {
    hide Number;
    EmptyNumber(WRAPPING);
    NumberStep(WRAPPING, 0, 0, false);
    NumberStep(WRAPPING, 0, 1, false);
    NumberStep(WRAPPING, 0, 2, false);
    NumberStep(WRAPPING, 0, 3, false);
    NumberStep(WRAPPING, 0, 4, false);
    NumberStep(WRAPPING, 0, 5, false);
    NumberStep(WRAPPING, 0, 6, false);
    NumberStep(WRAPPING, 0, 7, false);
    NumberStep(WRAPPING, 0, 8, false);
    NumberStep(WRAPPING, 0, 9, false);
    assert WRAPPING[0..10] == WRAPPING;
  }

  lemma EmptyNumber(ds: Bytes)
    ensures Number(ds[0..0], false) == 0
  {
  }

  /** "&#4294967361;" is read as an A. */
  lemma WrappedReference(t: Table)
    ensures Reference(t, [AMPERSAND, HASH] + WRAPPING + [SEMICOLON]) == ([0x41], 13)
  {
    hide DigitsEnd, Number, EncodeRune, RuneOf, Int32;
    var s := [AMPERSAND, HASH] + WRAPPING + [SEMICOLON];
    DigitsEndIs(s, 2, false, 12);
    assert s[2..12] == WRAPPING;
    WrappingNumber();
    WrappedRune();
  }

  lemma WrappedRune()
    ensures EncodeRune(RuneOf(Int32(TWO32 + 65))) == [0x41]
  {
    SmallRune(65);
    assert Int32(TWO32 + 65) == Int32(65);
  }

  /** "&#x;" is read as U+FFFD, and "&#9 " is not read at all. */
  lemma DigitsMisread(t: Table)
    ensures Reference(t, [AMPERSAND, HASH, 0x78, SEMICOLON]) == (EncodeRune(RUNE_ERROR), 4)
    ensures Reference(t, [AMPERSAND, HASH, 0x39, 0x20]) == ([AMPERSAND], 1)
  {
    hide DigitsEnd, EncodeRune;
    var s, u := [AMPERSAND, HASH, 0x78, SEMICOLON], [AMPERSAND, HASH, 0x39, 0x20];
    DigitsEndIs(s, 3, true, 3);
    assert s[3..3] == [];
    DigitsEndIs(u, 2, false, 3);
    assert u[..1] == [AMPERSAND];
  }

  /** What unescaping makes of a text. */
  function Unescaped(t: Table, s: Bytes): Bytes {
    if s == [] then []
    else if s[0] != AMPERSAND then [s[0]] + Unescaped(t, s[1..])
    else Reference(t, s).0 + Unescaped(t, s[Reference(t, s).1..])
  }

  lemma {:induction false} UnescapedPlain(t: Table, p: Bytes, s: Bytes)
    requires AMPERSAND !in p
    ensures Unescaped(t, p + s) == p + Unescaped(t, s)
  {
    hide Reference;
    if p == [] {
      assert p + s == s;
    } else {
      assert (p + s)[1..] == p[1..] + s;
      UnescapedPlain(t, p[1..], s);
      assert p == [p[0]] + p[1..];
    }
  }

  /** Unescaping never lengthens a text. */
  lemma {:induction false} UnescapedShrinks(t: Table, s: Bytes)
    requires t.Fits()
    ensures |Unescaped(t, s)| <= |s|
  {
    hide Reference;
    if s != [] {
      if s[0] != AMPERSAND {
        UnescapedShrinks(t, s[1..]);
      } else {
        ReferenceFits(t, s);
        UnescapedShrinks(t, s[Reference(t, s).1..]);
      }
    }
  }

  // ----- Unescaping in place

  /** The digit loop: the value is kept in 32 bits all along. */
  method ScanNumber(s: Bytes, begin: nat, hex: bool) returns (x: int, i: nat)
    requires begin <= |s|
    ensures i == PastSemicolon(s, DigitsEnd(s, begin, hex))
    ensures x == Int32(Number(s[begin..DigitsEnd(s, begin, hex)], hex))
  {
    hide Int32, Number, Base;
    i := begin;
    x := 0;
    assert s[begin..i] == [];
    Int32Zero();
    while i < |s|
      invariant begin <= i <= |s| && DigitsEnd(s, begin, hex) == DigitsEnd(s, i, hex)
      invariant x == Int32(Number(s[begin..i], hex))
    {
      var c := s[i];
      if Digit(c, hex) >= 0 {
        NumberStep(s, begin, i, hex);
        Int32Step(hex, Number(s[begin..i], hex), Digit(c, hex));
        x := Int32(Base(hex) * x + Digit(c, hex));
        i := i + 1;
        continue;
      }
      if c == SEMICOLON {
        i := i + 1;
      }
      return;
    }
  }

  lemma NumberStep(s: Bytes, begin: nat, i: nat, hex: bool)
    requires begin <= i < |s|
    ensures Number(s[begin..i + 1], hex) == Base(hex) * Number(s[begin..i], hex) + Digit(s[i], hex)
  {
    hide Base, Digit;
    assert s[begin..i + 1][..i - begin] == s[begin..i];
  }

  lemma Int32Zero()
    ensures Int32(Number([], false)) == 0 && Int32(Number([], true)) == 0
  {
  }

  method ScanName(s: Bytes) returns (i: nat)
    requires s != []
    ensures i == PastSemicolon(s, NameEnd(s, 1))
  {
    i := 1;
    while i < |s|
      invariant 1 <= i <= |s| && NameEnd(s, 1) == NameEnd(s, i)
    {
      var c := s[i];
      i := i + 1;
      if IsAlnum(c) {
        continue;
      }
      if c != SEMICOLON {
        i := i - 1;
      }
      return;
    }
  }

  method FindLongestName(t: Table, name: Bytes) returns (r: nat)
    requires name != []
    ensures r == LongestName(t, name, Integers.Min(|name| - 1, LONGEST_WITHOUT_SEMICOLON))
  {
    var maxLen := |name| - 1;
    if maxLen > LONGEST_WITHOUT_SEMICOLON {
      maxLen := LONGEST_WITHOUT_SEMICOLON;
    }
    var j := maxLen;
    while j > 1
      invariant j <= maxLen && LongestName(t, name, maxLen) == LongestName(t, name, j)
    {
      if t.One(name[..j]) != 0 {
        return j;
      }
      j := j - 1;
    }
    return 0;
  }

  /** What the array holds after a reference at `src` has been replaced by `out` at `dst`. */
  twostate predicate Replaced(b: array<Byte>, dst: nat, src: nat, dst1: nat, src1: nat, out: Bytes)
    requires dst <= src <= b.Length
    reads b
  {
    && dst1 == dst + |out| <= src1 <= b.Length
    && b[..dst1] == old(b[..dst]) + out
    && b[src1..] == old(b[src1..])
  }

  method PutReference(b: array<Byte>, dst: nat, src: nat, out: Bytes, n: nat) returns (dst1: nat, src1: nat)
    requires dst <= src && src + n <= b.Length && |out| <= n
    modifies b
    ensures src1 == src + n && Replaced(b, dst, src, dst1, src1, out)
  {
    Put(b, dst, out);
    dst1, src1 := dst + |out|, src + n;
    assert b[..dst1] == b[..][..dst1];
    assert b[src1..] == b[..][src1..];
  }

  method UnescapeEntity(t: Table, b: array<Byte>, dst: nat, src: nat) returns (dst1: nat, src1: nat)
    requires t.Fits() && dst <= src < b.Length && b[src] == AMPERSAND
    modifies b
    ensures src1 == src + Reference(t, old(b[src..])).1
    ensures Replaced(b, dst, src, dst1, src1, Reference(t, old(b[src..])).0)
  {
    hide EncodeRune, DigitsEnd, NameEnd, LongestName, RuneOf, Int32, Replaced;
    var s := b[src..];
    ReferenceFits(t, s);
    if |s| <= 1 {
      dst1, src1 := PutReference(b, dst, src, [b[src]], 1);
      assert s[..1] == [s[0]];
      return;
    }
    if s[1] == HASH {
      dst1, src1 := UnescapeNumeric(b, dst, src);
      return;
    }
    dst1, src1 := UnescapeNamed(t, b, dst, src);
  }

  method UnescapeNumeric(b: array<Byte>, dst: nat, src: nat) returns (dst1: nat, src1: nat)
    requires dst <= src && src + 2 <= b.Length
    modifies b
    ensures src1 == src + NumericReference(old(b[src..])).1
    ensures Replaced(b, dst, src, dst1, src1, NumericReference(old(b[src..])).0)
  {
    hide EncodeRune, DigitsEnd, RuneOf, Int32;
    var s := b[src..];
    assert s[..1] == [b[src]];
    if |s| <= 3 {
      dst1, src1 := PutReference(b, dst, src, [b[src]], 1);
      return;
    }
    var i, hex := 2, false;
    if s[i] == 0x78 || s[i] == 0x58 {
      hex := true;
      i := i + 1;
    }
    var x;
    x, i := ScanNumber(s, i, hex);
    if i <= 3 {
      dst1, src1 := PutReference(b, dst, src, [b[src]], 1);
      return;
    }
    dst1, src1 := PutReference(b, dst, src, EncodeRune(RuneOf(x)), i);
  }

  method UnescapeNamed(t: Table, b: array<Byte>, dst: nat, src: nat) returns (dst1: nat, src1: nat)
    requires t.Fits() && dst <= src && src + 2 <= b.Length
    modifies b
    ensures var s := old(b[src..]); var r := NamedReference(t, s, PastSemicolon(s, NameEnd(s, 1)));
            src1 == src + r.1 && Replaced(b, dst, src, dst1, src1, r.0)
  {
    hide EncodeRune, NameEnd, LongestName;
    var s := b[src..];
    var i := ScanName(s);
    var name := s[1..i];
    if name != [] {
      var x := t.One(name);
      if x != 0 {
        dst1, src1 := PutReference(b, dst, src, EncodeRune(x), i);
        return;
      }
      var y := t.Two(name);
      if y.0 != 0 {
        dst1, src1 := PutReference(b, dst, src, EncodeRune(y.0) + EncodeRune(y.1), i);
        return;
      }
      var j := FindLongestName(t, name);
      if j > 0 {
        dst1, src1 := PutReference(b, dst, src, EncodeRune(t.One(name[..j])), j + 1);
        return;
      }
    }
    dst1, src1 := PutReference(b, dst, src, b[src..src + i], i);
  }

  /** The cursors keep apart what is written and what is still to be read. */
  ghost predicate Midway(t: Table, s: Bytes, b: array<Byte>, dst: nat, src: nat)
    reads b
  {
    && dst <= src <= |s| == b.Length
    && b[src..] == s[src..]
    && Unescaped(t, s) == b[..dst] + Unescaped(t, s[src..])
  }

  method UnescapeString(t: Table, s: Bytes) returns (r: Bytes)
    requires t.Fits()
    ensures r == Unescaped(t, s)
  {
    hide Reference, Unescaped, Midway;
    var i := IndexByte(s, AMPERSAND);
    if i < 0 {
      assert s[..|s|] == s;
      PlainOnly(t, s);
      return s;
    }
    var b := new Byte[|s|](k requires 0 <= k < |s| => s[k]);
    Begin(t, s, b, i);
    var dst: nat, src: nat := EntityNext(t, s, b, i, i);
    while src < |s|
      invariant src <= |s| && Midway(t, s, b, dst, src)
    {
      Bounds(t, s, b, dst, src);
      if s[src] == AMPERSAND {
        i := 0;
      } else {
        i := IndexByte(s[src..], AMPERSAND);
      }
      if i < 0 {
        assert s[src..][..|s[src..]|] == s[src..];
        dst := CopyRest(t, s, b, dst, src);
        return b[..dst];
      }
      if i > 0 {
        CopyNext(t, s, b, dst, src, i);
      }
      dst, src := EntityNext(t, s, b, dst + i, src + i);
    }
    NothingMore(t, s, b, dst, src);
    return b[..dst];
  }

  lemma Bounds(t: Table, s: Bytes, b: array<Byte>, dst: nat, src: nat)
    requires Midway(t, s, b, dst, src)
    ensures dst <= src <= |s| == b.Length
  {
  }

  lemma Begin(t: Table, s: Bytes, b: array<Byte>, i: nat)
    requires b.Length == |s| && (forall k :: 0 <= k < |s| ==> b[k] == s[k]) && i <= |s| && AMPERSAND !in s[..i]
    ensures Midway(t, s, b, i, i)
  {
    hide Unescaped;
    UnescapedPlain(t, s[..i], s[i..]);
    assert s == s[..i] + s[i..];
    assert b[..i] == s[..i];
  }

  method EntityNext(t: Table, s: Bytes, b: array<Byte>, dst: nat, src: nat) returns (dst1: nat, src1: nat)
    requires t.Fits() && Midway(t, s, b, dst, src) && src < |s| && s[src] == AMPERSAND
    modifies b
    ensures Midway(t, s, b, dst1, src1) && src < src1 <= |s|
  {
    hide Reference, Unescaped;
    ghost var done := b[..dst];
    assert b[src] == b[src..][0];
    dst1, src1 := UnescapeEntity(t, b, dst, src);
    Follow(t, s, src, src1, done, b[..dst1]);
    assert old(b[src1..]) == old(b[src..])[src1 - src..];
    assert s[src1..] == s[src..][src1 - src..];
  }

  method CopyNext(t: Table, s: Bytes, b: array<Byte>, dst: nat, src: nat, i: nat)
    requires Midway(t, s, b, dst, src) && src + i <= |s| && AMPERSAND !in s[src..][..i]
    modifies b
    ensures Midway(t, s, b, dst + i, src + i)
  {
    hide Unescaped;
    ghost var before := b[..dst];
    var plain := s[src..src + i];
    assert plain == s[src..][..i];
    var _ := CopyPlain(b, dst, src, plain);
    Skip(t, s, src, i, before, plain, b[..dst + i]);
    assert s[src + i..] == s[src..][i..];
  }

  method CopyRest(t: Table, s: Bytes, b: array<Byte>, dst: nat, src: nat) returns (dst1: nat)
    requires Midway(t, s, b, dst, src) && AMPERSAND !in s[src..]
    modifies b
    ensures dst1 <= b.Length && b[..dst1] == Unescaped(t, s)
  {
    hide Unescaped;
    PlainOnly(t, s[src..]);
    dst1 := CopyPlain(b, dst, src, s[src..]);
  }

  lemma PlainOnly(t: Table, s: Bytes)
    requires AMPERSAND !in s
    ensures Unescaped(t, s) == s
  {
    UnescapedPlain(t, s, []);
    assert s + [] == s;
  }

  lemma NothingMore(t: Table, s: Bytes, b: array<Byte>, dst: nat, src: nat)
    requires Midway(t, s, b, dst, src) && src == |s|
    ensures dst <= b.Length && b[..dst] == Unescaped(t, s)
  {
    assert s[src..] == [];
  }

  /** Copies text of the input from `src` down to `dst`. */
  method CopyPlain(b: array<Byte>, dst: nat, src: nat, plain: Bytes) returns (dst1: nat)
    requires dst <= src && src + |plain| <= b.Length
    modifies b
    ensures dst1 == dst + |plain| && b[..dst1] == old(b[..dst]) + plain
    ensures b[src + |plain|..] == old(b[src..])[|plain|..]
  {
    Put(b, dst, plain);
    dst1 := dst + |plain|;
    assert b[..dst1] == b[..][..dst1];
    assert b[src + |plain|..] == b[..][src + |plain|..];
  }

  lemma Skip(t: Table, s: Bytes, src: nat, i: nat, before: Bytes, plain: Bytes, now: Bytes)
    requires src + i <= |s| && plain == s[src..src + i] && AMPERSAND !in plain && now == before + plain
    ensures before + Unescaped(t, s[src..]) == now + Unescaped(t, s[src + i..])
  {
    hide Unescaped;
    UnescapedPlain(t, plain, s[src + i..]);
    assert s[src..] == plain + s[src + i..];
    assert before + (plain + Unescaped(t, s[src + i..])) == now + Unescaped(t, s[src + i..]);
  }

  lemma Follow(t: Table, s: Bytes, at: nat, next: nat, done: Bytes, now: Bytes)
    requires at < |s| && s[at] == AMPERSAND && next == at + Reference(t, s[at..]).1
    requires now == done + Reference(t, s[at..]).0
    ensures done + Unescaped(t, s[at..]) == now + Unescaped(t, s[next..])
  {
    hide Reference;
    assert s[at..][next - at..] == s[next..];
    var r := Reference(t, s[at..]);
    assert done + (r.0 + Unescaped(t, s[next..])) == now + Unescaped(t, s[next..]);
  }

  // ----- Escaping, and the round trip

  const AMP: Bytes := [0x61, 0x6D, 0x70, SEMICOLON]
  const LT: Bytes := [0x6C, 0x74, SEMICOLON]
  const GT: Bytes := [0x67, 0x74, SEMICOLON]

  function EscapedByte(c: Byte): Bytes {
    if c == AMPERSAND then [AMPERSAND] + AMP
    else if c == 0x27 then [AMPERSAND, HASH, 0x33, 0x39, SEMICOLON]
    else if c == 0x3C then [AMPERSAND] + LT
    else if c == 0x3E then [AMPERSAND] + GT
    else if c == 0x22 then [AMPERSAND, HASH, 0x33, 0x34, SEMICOLON]
    else [c]
  }

  function Escaped(s: Bytes): Bytes {
    if s == [] then [] else EscapedByte(s[0]) + Escaped(s[1..])
  }

  /** The three named references that escaping uses. */
  predicate KnowsEscapes(t: Table) {
    t.One(AMP) == 0x26 && t.One(LT) == 0x3C && t.One(GT) == 0x3E
  }

  lemma NameEndsAt(s: Bytes, k: nat)
    requires 1 <= k < |s| && s[k] == SEMICOLON && forall j :: 1 <= j < k ==> IsAlnum(s[j])
    ensures PastSemicolon(s, NameEnd(s, 1)) == k + 1
  {
    hide NameEnd;
    var e := NameEnd(s, 1);
  }

  lemma NamedEscape(t: Table, name: Bytes, rest: Bytes)
    requires name in {AMP, LT, GT} && t.One(name) in {0x26, 0x3C, 0x3E}
    ensures Reference(t, [AMPERSAND] + name + rest) == ([t.One(name)], |name| + 1)
  {
    hide NameEnd, DigitsEnd, LongestName;
    var s := [AMPERSAND] + name + rest;
    forall j | 1 <= j < |name|
      ensures IsAlnum(s[j])
    {
      assert s[j] == name[j - 1];
    }
    assert s[|name|] == name[|name| - 1];
    NameEndsAt(s, |name|);
    assert s[1..|name| + 1] == name;
    assert s[1] == name[0];
  }

  /** Two decimal digits and a semicolon. */
  lemma TwoDigits(s: Bytes, d: Byte, e: Byte)
    requires |s| >= 5 && 0x30 <= d <= 0x39 && 0x30 <= e <= 0x39 && s[2..5] == [d, e, SEMICOLON]
    ensures DigitsEnd(s, 2, false) == 4 && s[4] == SEMICOLON
    ensures Number(s[2..4], false) == 10 * (d - 0x30) + (e - 0x30)
  {
    assert s[2] == s[2..5][0] && s[3] == s[2..5][1] && s[4] == s[2..5][2];
    assert DigitsEnd(s, 4, false) == 4;
    assert DigitsEnd(s, 3, false) == 4;
    assert s[2..4] == [d, e];
    assert [d, e][..1] == [d];
    assert [d][..0] == [];
    assert Number([d], false) == d - 0x30;
  }

  lemma SmallRune(x: nat)
    requires 0 < x < 0x80
    ensures EncodeRune(RuneOf(Int32(x))) == [x]
  {
    hide Int32;
    SmallInt32(x);
  }

  lemma SmallInt32(x: nat)
    requires x < 0x80
    ensures Int32(x) == x
  {
  }

  lemma NumericEscape(t: Table, d: Byte, rest: Bytes)
    requires 0x30 <= d <= 0x39
    ensures Reference(t, [AMPERSAND, HASH, 0x33, d, SEMICOLON] + rest) == ([30 + d - 0x30], 5)
  {
    hide DigitsEnd, NameEnd, LongestName, Number, EncodeRune, RuneOf, Int32;
    var s := [AMPERSAND, HASH, 0x33, d, SEMICOLON] + rest;
    assert s[1] == HASH && s[2] == 0x33;
    assert s[2..5] == [0x33, d, SEMICOLON];
    TwoDigits(s, 0x33, d);
    SmallRune(30 + d - 0x30);
  }

  lemma ReferenceToByte(t: Table, c: Byte, rest: Bytes)
    requires KnowsEscapes(t) && EscapedByte(c)[0] == AMPERSAND
    ensures Reference(t, EscapedByte(c) + rest) == ([c], |EscapedByte(c)|)
  {
    hide Reference;
    if c == 0x27 {
      NumericEscape(t, 0x39, rest);
    } else if c == 0x22 {
      NumericEscape(t, 0x34, rest);
    } else {
      NamedEscape(t, EscapedByte(c)[1..], rest);
      assert EscapedByte(c) == [AMPERSAND] + EscapedByte(c)[1..];
    }
  }

  /** Unescaping undoes escaping, on every byte string. */
  lemma {:induction false} UnescapeEscape(t: Table, s: Bytes)
    requires KnowsEscapes(t)
    ensures Unescaped(t, Escaped(s)) == s
  {
    hide Reference, KnowsEscapes, EscapedByte;
    if s != [] {
      var c, rest := s[0], Escaped(s[1..]);
      UnescapeEscape(t, s[1..]);
      EscapedFront(c);
      assert s == [c] + s[1..];
      var e := EscapedByte(c) + rest;
      if EscapedByte(c)[0] == AMPERSAND {
        ReferenceToByte(t, c, rest);
        assert e[|EscapedByte(c)|..] == rest;
      } else {
        assert e[1..] == rest;
      }
    }
  }

  lemma EscapedFront(c: Byte)
    ensures EscapedByte(c) != [] && (EscapedByte(c)[0] != AMPERSAND ==> EscapedByte(c) == [c])
  {
  }
}
