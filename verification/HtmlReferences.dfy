/** What character references stand for, as they are written. */
module HtmlReferences {
  import Integers
  import opened Utf8
  import opened Numerals
  import opened HtmlEscape

  // ----- Numbers

  /** What the HTML standard puts in the place of the numbers from 0x80 to 0x9F. */
  function Windows1252(n: nat): nat {
    match n
    case 0x80 => 0x20AC
    case 0x82 => 0x201A
    case 0x83 => 0x0192
    case 0x84 => 0x201E
    case 0x85 => 0x2026
    case 0x86 => 0x2020
    case 0x87 => 0x2021
    case 0x88 => 0x02C6
    case 0x89 => 0x2030
    case 0x8A => 0x0160
    case 0x8B => 0x2039
    case 0x8C => 0x0152
    case 0x8E => 0x017D
    case 0x91 => 0x2018
    case 0x92 => 0x2019
    case 0x93 => 0x201C
    case 0x94 => 0x201D
    case 0x95 => 0x2022
    case 0x96 => 0x2013
    case 0x97 => 0x2014
    case 0x98 => 0x02DC
    case 0x99 => 0x2122
    case 0x9A => 0x0161
    case 0x9B => 0x203A
    case 0x9C => 0x0153
    case 0x9E => 0x017E
    case 0x9F => 0x0178
    case _ => n
  }

  /** The rune of a number: U+FFFD if there is none. */
  function RuneFor(n: nat): nat {
    if n == 0 || n > 0x10FFFF || 0xD800 <= n <= 0xDFFF then 0xFFFD else Windows1252(n)
  }

  lemma RuneAsGiven(n: nat)
    ensures RuneOf(n) == RuneFor(n)
  {
  }

  lemma DigitReads(d: nat, upper: bool)
    requires d < 16
    ensures Digit(DigitOf(d, upper), true) == d && (d < 10 ==> Digit(DigitOf(d, upper), false) == d)
    ensures DigitOf(d, upper) !in {0x78, 0x58, SEMICOLON}
  {
  }

  /** The digits of a number read as that number. */
  lemma {:induction false} NumeralReads(n: nat, hex: bool, upper: bool)
    ensures var ds := Numeral(n, if hex then 16 else 10, upper);
            && Number(ds, hex) == n
            && (forall i :: 0 <= i < |ds| ==> Digit(ds[i], hex) >= 0 && ds[i] !in {0x78, 0x58})
  {
    hide Digit, DigitOf;
    var base := if hex then 16 else 10;
    var ds := Numeral(n, base, upper);
    DigitReads(n % base, upper);
    if n < base {
      assert ds[..0] == [];
    } else {
      NumeralReads(n / base, hex, upper);
      assert ds[..|ds| - 1] == Numeral(n / base, base, upper);
    }
  }

  /** A reference by number: decimal, or hexadecimal after an x or an X. */
  function NumericText(n: nat, hex: bool, upper: bool, mark: Byte): Bytes {
    [AMPERSAND, HASH] + (if hex then [mark] else []) + Numeral(n, if hex then 16 else 10, upper) + [SEMICOLON]
  }

  /** The parts of such a reference. */
  lemma TextParts(n: nat, hex: bool, upper: bool, mark: Byte, rest: Bytes)
    ensures var ds, text := Numeral(n, if hex then 16 else 10, upper), NumericText(n, hex, upper, mark);
            var s, begin := text + rest, if hex then 3 else 2;
            && |text| == begin + |ds| + 1 && s[0] == AMPERSAND && s[1] == HASH && s[2] == (if hex then mark else ds[0])
            && s[begin..begin + |ds|] == ds && s[begin + |ds|] == SEMICOLON && s[|text|..] == rest
  {
    hide Numeral;
  }

  lemma NumberTaken(s: Bytes, hex: bool, ds: Bytes)
    requires var begin := if hex then 3 else 2;
             && |s| > begin + |ds| && ds != [] && s[begin..begin + |ds|] == ds && s[begin + |ds|] == SEMICOLON
             && IsHex(s) == hex
    requires forall i :: 0 <= i < |ds| ==> Digit(ds[i], hex) >= 0
    ensures NumericReference(s) == (EncodeRune(RuneOf(Int32(Number(ds, hex)))), (if hex then 3 else 2) + |ds| + 1)
  {
    hide EncodeRune, RuneOf, Int32, Number, DigitsEnd, Digit;
    DigitsTaken(s, if hex then 3 else 2, hex, ds);
  }

  lemma ReferenceTaken(t: Table, s: Bytes)
    requires s != [] && s[0] == AMPERSAND
    ensures Unescaped(t, s) == Reference(t, s).0 + Unescaped(t, s[Reference(t, s).1..])
    ensures |s| > 1 && s[1] == HASH ==> Reference(t, s) == NumericReference(s)
  {
    hide NumericReference, NamedReference;
  }

  /**
   * A reference by number, in decimal or in hexadecimal digits of either case, stands for the rune of that number, as
   * long as the number does not wrap to that of another rune.
   */
  lemma NumberMeans(t: Table, n: nat, hex: bool, upper: bool, mark: Byte, rest: Bytes)
    requires mark in {0x78, 0x58} && !Wraps(n)
    ensures var text := NumericText(n, hex, upper, mark);
            Unescaped(t, text + rest) == EncodeRune(RuneFor(n)) + Unescaped(t, rest)
  {
    hide EncodeRune, RuneOf, Int32, Wraps, Number, Numeral, Digit, RuneFor, NumericReference, Reference, Unescaped;
    var ds, text := Numeral(n, if hex then 16 else 10, upper), NumericText(n, hex, upper, mark);
    TextParts(n, hex, upper, mark, rest);
    NumeralReads(n, hex, upper);
    hide NumericText;
    NumberTaken(text + rest, hex, ds);
    ReferenceTaken(t, text + rest);
    WrapExactly(n);
    RuneAsGiven(n);
  }

  lemma DigitsTaken(s: Bytes, begin: nat, hex: bool, ds: Bytes)
    requires begin + |ds| < |s| && s[begin..begin + |ds|] == ds && s[begin + |ds|] == SEMICOLON
    requires forall i :: 0 <= i < |ds| ==> Digit(ds[i], hex) >= 0
    ensures DigitsEnd(s, begin, hex) == begin + |ds|
  {
    hide DigitsEnd;
    forall j | begin <= j < begin + |ds|
      ensures Digit(s[j], hex) >= 0
    {
      assert s[j] == ds[j - begin];
    }
    DigitsEndIs(s, begin, hex, begin + |ds|);
  }

  // ----- Names

  /** Letters and digits. */
  predicate IsName(name: Bytes) {
    forall i :: 0 <= i < |name| ==> IsLetterOrDigit(name[i])
  }

  predicate IsLetterOrDigit(b: Byte) {
    0x30 <= b <= 0x39 || 0x41 <= b <= 0x5A || 0x61 <= b <= 0x7A
  }

  /** The bytes for a name that the table has, in the order of its runes. */
  function NameBytes(t: Table, name: Bytes): Bytes {
    if t.One(name) != 0 then EncodeRune(t.One(name)) else EncodeRune(t.Two(name).0) + EncodeRune(t.Two(name).1)
  }

  /** A name goes as far as its letters and digits, and a semicolon after them. */
  lemma NameTaken(s: Bytes, name: Bytes, rest: Bytes)
    requires IsName(name) && s == [AMPERSAND] + name + rest
    requires rest == [] || rest[0] == SEMICOLON || !IsLetterOrDigit(rest[0])
    ensures NameEnd(s, 1) == |name| + 1
    ensures PastSemicolon(s, NameEnd(s, 1)) == |name| + if rest != [] && rest[0] == SEMICOLON then 2 else 1
  {
    hide NameEnd;
    var e := NameEnd(s, 1);
    assert forall j :: 1 <= j <= |name| ==> s[j] == name[j - 1];
    assert rest != [] ==> s[|name| + 1] == rest[0];
  }

  /** A name with its semicolon that the table has stands for its one rune, or for its two runes in order. */
  lemma NameMeans(t: Table, name: Bytes, rest: Bytes)
    requires name != [] && IsName(name)
    requires var whole := name + [SEMICOLON]; t.One(whole) != 0 || t.Two(whole).0 != 0
    ensures Unescaped(t, [AMPERSAND] + name + [SEMICOLON] + rest)
         == NameBytes(t, name + [SEMICOLON]) + Unescaped(t, rest)
  {
    hide EncodeRune, NameEnd, LongestName, Unescaped;
    var s := [AMPERSAND] + name + ([SEMICOLON] + rest);
    assert [AMPERSAND] + name + [SEMICOLON] + rest == s;
    NameTaken(s, name, [SEMICOLON] + rest);
    assert s[1..|name| + 2] == name + [SEMICOLON] && s[1] == name[0] && s[|name| + 2..] == rest;
    ReferenceTaken(t, s);
  }

  /** So does a name without a semicolon that the table has, if no letter or digit follows. */
  lemma OpenNameMeans(t: Table, name: Bytes, rest: Bytes)
    requires name != [] && IsName(name) && (t.One(name) != 0 || t.Two(name).0 != 0)
    requires rest == [] || (rest[0] != SEMICOLON && !IsLetterOrDigit(rest[0]))
    ensures Unescaped(t, [AMPERSAND] + name + rest) == NameBytes(t, name) + Unescaped(t, rest)
  {
    hide EncodeRune, NameEnd, LongestName, Unescaped;
    var s := [AMPERSAND] + name + rest;
    NameTaken(s, name, rest);
    assert s[1..|name| + 1] == name && s[1] == name[0] && s[|name| + 1..] == rest;
    ReferenceTaken(t, s);
  }

  /**
   * Where the whole name is in no table, the longest name of two to six bytes in front of it that stands for one rune
   * is taken, and unescaping goes on after it.
   */
  lemma LongestNameMeans(t: Table, name: Bytes, more: Bytes, rest: Bytes)
    requires 2 <= |name| <= 6 && IsName(name) && IsName(more) && t.One(name) != 0
    requires rest == [] || !IsLetterOrDigit(rest[0])
    requires var whole := name + more + if rest != [] && rest[0] == SEMICOLON then [SEMICOLON] else [];
             && |whole| > |name| && t.One(whole) == 0 && t.Two(whole).0 == 0
             && forall k :: |name| < k < |whole| && k <= 6 ==> t.One(whole[..k]) == 0
    ensures Unescaped(t, [AMPERSAND] + name + more + rest) == EncodeRune(t.One(name)) + Unescaped(t, more + rest)
  {
    hide EncodeRune, NameEnd, LongestName, Unescaped, PastSemicolon, Reference, IsName;
    var s := [AMPERSAND] + (name + more) + rest;
    assert [AMPERSAND] + name + more + rest == s && s[|name| + 1..] == more + rest;
    var whole := name + more + if rest != [] && rest[0] == SEMICOLON then [SEMICOLON] else [];
    NamesJoin(name, more);
    NamedAt(t, s, name + more, rest);
    assert whole[..|name|] == name;
    LongestIs(t, whole, |name|);
    ReferenceTaken(t, s);
  }

  lemma NamesJoin(a: Bytes, b: Bytes)
    requires IsName(a) && IsName(b)
    ensures IsName(a + b)
  {
  }

  /** The reference that a name makes. */
  lemma NamedAt(t: Table, s: Bytes, name: Bytes, rest: Bytes)
    requires name != [] && IsName(name) && s == [AMPERSAND] + name + rest && (rest == [] || !IsLetterOrDigit(rest[0]))
    ensures var whole := name + if rest != [] && rest[0] == SEMICOLON then [SEMICOLON] else [];
            && |whole| < |s| && s[1..|whole| + 1] == whole && Reference(t, s) == NamedReference(t, s, |whole| + 1)
  {
    hide NameEnd, NamedReference, NumericReference;
    NameTaken(s, name, rest);
    assert s[1] == name[0];
  }

  lemma LongestIs(t: Table, whole: Bytes, k: nat)
    requires 2 <= k <= 6 && k < |whole| && t.One(whole[..k]) != 0
    requires forall j :: k < j < |whole| && j <= 6 ==> t.One(whole[..j]) == 0
    ensures LongestName(t, whole, Integers.Min(|whole| - 1, LONGEST_WITHOUT_SEMICOLON)) == k
  {
    hide LongestName;
    var r := LongestName(t, whole, Integers.Min(|whole| - 1, LONGEST_WITHOUT_SEMICOLON));
  }

  // ----- What is not a reference

  /** An ampersand before anything but a letter, a digit or a number sign is copied. */
  lemma LoneAmpersand(t: Table, rest: Bytes)
    requires rest == [] || (rest[0] != HASH && rest[0] != SEMICOLON && !IsLetterOrDigit(rest[0]))
    ensures Unescaped(t, [AMPERSAND] + rest) == [AMPERSAND] + Unescaped(t, rest)
  {
    hide NameEnd, LongestName, Unescaped;
    var s := [AMPERSAND] + rest;
    var none: Bytes := [];
    assert s == [AMPERSAND] + none + rest;
    NameTaken(s, none, rest);
    assert s[1..] == rest && s[..1] == [AMPERSAND];
    ReferenceTaken(t, s);
  }

  /** A name that the table does not have, nor any name in front of it, is copied with its semicolon. */
  lemma UnknownName(t: Table, name: Bytes, rest: Bytes)
    requires name != [] && IsName(name) && (rest == [] || !IsLetterOrDigit(rest[0]))
    requires var whole := name + if rest != [] && rest[0] == SEMICOLON then [SEMICOLON] else [];
             && t.One(whole) == 0 && t.Two(whole).0 == 0
             && forall k :: 1 < k < |whole| && k <= 6 ==> t.One(whole[..k]) == 0
    ensures Unescaped(t, [AMPERSAND] + name + rest) == [AMPERSAND] + name + Unescaped(t, rest)
  {
    hide NameEnd, LongestName, Unescaped, PastSemicolon, Reference, IsName;
    var s := [AMPERSAND] + name + rest;
    NamedAt(t, s, name, rest);
    var end: Bytes := if rest != [] && rest[0] == SEMICOLON then [SEMICOLON] else [];
    var i := |name + end| + 1;
    NoneLongest(t, name + end);
    ReferenceTaken(t, s);
    assert s[..i] == [AMPERSAND] + name + end;
    if end == [] {
      assert s[i..] == rest;
    } else {
      assert s[i..] == rest[1..] && rest == end + rest[1..];
      UnescapedPlain(t, end, rest[1..]);
      assert [AMPERSAND] + name + end + Unescaped(t, rest[1..]) == [AMPERSAND] + name + (end + Unescaped(t, rest[1..]));
    }
  }

  lemma NoneLongest(t: Table, whole: Bytes)
    requires whole != [] && forall k :: 1 < k < |whole| && k <= 6 ==> t.One(whole[..k]) == 0
    ensures LongestName(t, whole, Integers.Min(|whole| - 1, LONGEST_WITHOUT_SEMICOLON)) == 0
  {
    hide LongestName;
    var r := LongestName(t, whole, Integers.Min(|whole| - 1, LONGEST_WITHOUT_SEMICOLON));
  }

  // ----- Escaped text

  predicate IsSpecial(b: Byte) {
    b in {0x3C, 0x3E, 0x27, 0x22, 0x26}
  }

  lemma EscapedByteSafe(c: Byte)
    ensures forall i :: 0 <= i < |EscapedByte(c)| ==> EscapedByte(c)[i] == AMPERSAND || !IsSpecial(EscapedByte(c)[i])
    ensures if IsSpecial(c) then |EscapedByte(c)| > 1 else EscapedByte(c) == [c]
  {
  }

  /** Escaped text holds none of the five characters but the ampersands of its references. */
  lemma {:induction false} EscapedSafe(s: Bytes)
    ensures forall i :: 0 <= i < |Escaped(s)| ==> Escaped(s)[i] == AMPERSAND || !IsSpecial(Escaped(s)[i])
  {
    hide EscapedByte, IsSpecial;
    if s != [] {
      EscapedSafe(s[1..]);
      EscapedByteSafe(s[0]);
    }
  }

  /** Escaping changes only these five. */
  lemma {:induction false} EscapedSame(s: Bytes)
    ensures Escaped(s) == s <==> forall i :: 0 <= i < |s| ==> !IsSpecial(s[i])
  {
    hide EscapedByte, IsSpecial;
    if s != [] {
      EscapedSame(s[1..]);
      EscapedLonger(s[1..]);
      EscapedByteSafe(s[0]);
      if IsSpecial(s[0]) {
        assert |Escaped(s)| > |s|;
      } else {
        assert s == [s[0]] + s[1..];
        assert Escaped(s)[1..] == Escaped(s[1..]);
        assert forall i :: 0 <= i < |s[1..]| ==> s[1..][i] == s[i + 1];
        assert forall i :: 0 < i < |s| ==> s[i] == s[1..][i - 1];
      }
    }
  }

  lemma {:induction false} EscapedLonger(s: Bytes)
    ensures |Escaped(s)| >= |s|
  {
    if s != [] {
      EscapedLonger(s[1..]);
    }
  }
}
