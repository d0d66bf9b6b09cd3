/** UTF-8 decoding, by specification of the standard package. */
module Utf8 {
  import Integers

  type Byte = b: nat | b < 256
  type Bytes = seq<Byte>

  const RUNE_ERROR := 0xFFFD
  const RUNE_SELF := 0x80
  const UTF_MAX := 4

  /** The length a first byte announces; 1 for ASCII and for bytes that start nothing. */
  function Announced(b: Byte): (n: nat)
    ensures 1 <= n <= UTF_MAX
  {
    if 0xC2 <= b <= 0xDF then 2 else if 0xE0 <= b <= 0xEF then 3 else if 0xF0 <= b <= 0xF4 then 4 else 1
  }

  /** Whether `c` may follow the first byte `b` of a longer sequence. */
  predicate Second(b: Byte, c: Byte) {
    (if b == 0xE0 then 0xA0 else if b == 0xF0 then 0x90 else 0x80) <= c <=
    (if b == 0xED then 0x9F else if b == 0xF4 then 0x8F else 0xBF)
  }

  predicate Continues(c: Byte) {
    0x80 <= c <= 0xBF
  }

  predicate FullRune(p: Bytes) {
    p != [] &&
    (|p| >= Announced(p[0]) || (|p| > 1 && !Second(p[0], p[1])) || (|p| > 2 && !Continues(p[2])))
  }

  /** A whole valid sequence of several bytes at the front. */
  predicate ValidFront(p: Bytes)
    requires p != []
  {
    var n := Announced(p[0]);
    && 2 <= n <= |p| && Second(p[0], p[1]) && (n > 2 ==> Continues(p[2])) && (n > 3 ==> Continues(p[3]))
  }

  /** The first rune and its width; a byte that starts no valid sequence is U+FFFD of width 1. */
  function DecodeRune(p: Bytes): (r: (nat, nat))
    ensures if p == [] then r == (RUNE_ERROR, 0) else 1 <= r.1 <= |p| && r.1 <= UTF_MAX
  {
    if p == [] then (RUNE_ERROR, 0)
    else if p[0] < RUNE_SELF then (p[0], 1)
    else if !ValidFront(p) then (RUNE_ERROR, 1)
    else if Announced(p[0]) == 2 then (Low(p[0], 32) * 0x40 + Low(p[1], 64), 2)
    else if Announced(p[0]) == 3 then (Low(p[0], 16) * 0x1000 + Low(p[1], 64) * 0x40 + Low(p[2], 64), 3)
    else (Low(p[0], 8) * 0x4_0000 + Low(p[1], 64) * 0x1000 + Low(p[2], 64) * 0x40 + Low(p[3], 64), 4)
  }

  /** The low bits of a byte. */
  function Low(b: Byte, m: nat): (r: nat)
    requires m > 0
    ensures r < m
  {
    var v: int := b;
    v % m
  }

  /** Decoding a whole byte string at once. */
  function DecodeAll(p: Bytes): seq<nat> {
    if p == [] then [] else [DecodeRune(p).0] + DecodeAll(p[DecodeRune(p).1..])
  }

  function RuneLen(r: nat): int {
    if r <= 0x7F then 1
    else if r <= 0x7FF then 2
    else if 0xD800 <= r <= 0xDFFF then -1
    else if r <= 0xFFFF then 3
    else if r <= 0x10FFFF then 4
    else -1
  }

  /** What follows a full rune does not change how it is decoded. */
  lemma FullRuneDecides(p: Bytes, q: Bytes)
    requires FullRune(p)
    ensures DecodeRune(p + q) == DecodeRune(p)
  {
    assert (p + q)[0] == p[0];
    assert |p| > 1 ==> (p + q)[1] == p[1];
    assert |p| > 2 ==> (p + q)[2] == p[2];
    assert |p| > 3 ==> (p + q)[3] == p[3];
  }

  /** Cutting a string after its first character does not change that character. */
  lemma PrefixFirst(s: Bytes, p: Bytes)
    requires s != [] && p <= s && |p| >= DecodeRune(s).1
    ensures DecodeRune(p) == DecodeRune(s)
  {
    assert p[0] == s[0];
    assert |p| > 1 ==> p[1] == s[1];
    assert |p| > 2 ==> p[2] == s[2];
    assert |p| > 3 ==> p[3] == s[3];
  }

  /** Bytes that are not a full rune yet are a first byte and continuation bytes. */
  lemma NotFullContinues(p: Bytes)
    requires p != [] && !FullRune(p)
    ensures |p| < UTF_MAX && p[0] >= RUNE_SELF && forall i :: 1 <= i < |p| ==> Continues(p[i])
  {
  }

  /** The encoding of a rune; whatever is not a rune is written as U+FFFD. */
  function EncodeRune(r: int): (p: Bytes)
    ensures 1 <= |p| <= UTF_MAX
  {
    if 0 <= r <= 0x7F then [r]
    else if 0 <= r <= 0x7FF then [0xC0 + r / 0x40, 0x80 + r % 0x40]
    else if r < 0 || r > 0x10FFFF || 0xD800 <= r <= 0xDFFF then [0xEF, 0xBF, 0xBD]
    else if r <= 0xFFFF then [0xE0 + r / 0x40 / 0x40, 0x80 + r / 0x40 % 0x40, 0x80 + r % 0x40]
    else [0xF0 + r / 0x40 / 0x40 / 0x40, 0x80 + r / 0x40 / 0x40 % 0x40, 0x80 + r / 0x40 % 0x40, 0x80 + r % 0x40]
  }

  predicate IsRune(r: int) {
    0 <= r <= 0x10FFFF && !(0xD800 <= r <= 0xDFFF)
  }

  lemma LowOf(c: nat, d: nat, m: nat)
    requires d < m && c * m + d < 256
    ensures Low(c * m + d, m) == d
  {
    Integers.Unique(c * m + d, m, c, d);
  }

  lemma TwoBytes(r: int, q: Bytes)
    requires 0x7F < r <= 0x7FF
    ensures DecodeRune(EncodeRune(r) + q) == (r, 2)
  {
    hide Low;
    LowOf(6, r / 0x40, 32);
    LowOf(2, r % 0x40, 64);
    var p := EncodeRune(r) + q;
    assert p[0] == 0xC0 + r / 0x40 && p[1] == 0x80 + r % 0x40;
  }

  lemma DecodeThree(a: nat, b: nat, c: nat, p: Bytes)
    requires a < 16 && b < 64 && c < 64 && |p| >= 3 && p[..3] == [0xE0 + a, 0x80 + b, 0x80 + c]
    requires (a == 0 ==> b >= 0x20) && (a == 13 ==> b < 0x20)
    ensures DecodeRune(p) == (a * 0x1000 + b * 0x40 + c, 3)
  {
    hide Low;
    LowOf(14, a, 16);
    LowOf(2, b, 64);
    LowOf(2, c, 64);
    assert p[0] == p[..3][0] && p[1] == p[..3][1] && p[2] == p[..3][2];
  }

  lemma ThreeBytes(r: int, q: Bytes)
    requires 0x7FF < r <= 0xFFFF && IsRune(r)
    ensures DecodeRune(EncodeRune(r) + q) == (r, 3)
  {
    hide DecodeRune;
    var a, b, c := r / 0x40 / 0x40, r / 0x40 % 0x40, r % 0x40;
    assert r == a * 0x1000 + b * 0x40 + c;
    assert (EncodeRune(r) + q)[..3] == EncodeRune(r);
    DecodeThree(a, b, c, EncodeRune(r) + q);
  }

  lemma DecodeFour(a: nat, b: nat, c: nat, d: nat, p: Bytes)
    requires a <= 4 && b < 64 && c < 64 && d < 64 && |p| >= 4 && p[..4] == [0xF0 + a, 0x80 + b, 0x80 + c, 0x80 + d]
    requires (a == 0 ==> b >= 0x10) && (a == 4 ==> b < 0x10)
    ensures DecodeRune(p) == (a * 0x4_0000 + b * 0x1000 + c * 0x40 + d, 4)
  {
    hide Low;
    LowOf(30, a, 8);
    LowOf(2, b, 64);
    LowOf(2, c, 64);
    LowOf(2, d, 64);
    assert p[0] == p[..4][0] && p[1] == p[..4][1] && p[2] == p[..4][2] && p[3] == p[..4][3];
  }

  lemma FourDigits(r: nat, s: nat, t: nat)
    requires s == r / 0x40 && t == s / 0x40
    ensures r == t / 0x40 * 0x4_0000 + t % 0x40 * 0x1000 + s % 0x40 * 0x40 + r % 0x40
  {
  }

  lemma FourBytes(r: int, q: Bytes)
    requires 0xFFFF < r <= 0x10FFFF
    ensures DecodeRune(EncodeRune(r) + q) == (r, 4)
  {
    hide DecodeRune;
    var a, b, c, d := r / 0x40 / 0x40 / 0x40, r / 0x40 / 0x40 % 0x40, r / 0x40 % 0x40, r % 0x40;
    FourDigits(r, r / 0x40, r / 0x40 / 0x40);
    assert (EncodeRune(r) + q)[..4] == EncodeRune(r);
    DecodeFour(a, b, c, d, EncodeRune(r) + q);
  }

  /** Decoding undoes encoding, whatever follows. */
  lemma EncodeDecodes(r: int, q: Bytes)
    requires IsRune(r)
    ensures DecodeRune(EncodeRune(r) + q) == (r, RuneLen(r))
  {
    if r <= 0x7F {
      assert (EncodeRune(r) + q)[0] == r;
    } else if r <= 0x7FF {
      TwoBytes(r, q);
    } else if r <= 0xFFFF {
      ThreeBytes(r, q);
    } else {
      FourBytes(r, q);
    }
  }

  // ----- What the encoding is

  /** `b` is `tag` and a value below `m`. */
  predicate Tagged(b: Byte, tag: int, m: int) {
    tag <= b < tag + m
  }

  /** What `b` carries besides its tag. */
  function Payload(b: Byte, tag: int): int {
    var v: int := b;
    v - tag
  }

  /** `p` is the encoding of `r`: the fewest bytes, six bits in each after the first, and no surrogate. */
  predicate Encodes(p: Bytes, r: int) {
    match |p|
    case 1 => 0 <= r < 0x80 && p[0] == r
    case 2 =>
      && Tagged(p[0], 0xC0, 0x20) && Tagged(p[1], 0x80, 0x40)
      && 0x80 <= r < 0x800 && r == Payload(p[0], 0xC0) * 0x40 + Payload(p[1], 0x80)
    case 3 =>
      && Tagged(p[0], 0xE0, 0x10) && Tagged(p[1], 0x80, 0x40) && Tagged(p[2], 0x80, 0x40)
      && 0x800 <= r < 0x1_0000 && !(0xD800 <= r <= 0xDFFF)
      && r == Payload(p[0], 0xE0) * 0x1000 + Payload(p[1], 0x80) * 0x40 + Payload(p[2], 0x80)
    case 4 =>
      && Tagged(p[0], 0xF0, 8) && Tagged(p[1], 0x80, 0x40) && Tagged(p[2], 0x80, 0x40) && Tagged(p[3], 0x80, 0x40)
      && 0x1_0000 <= r <= 0x10FFFF
      && r == Payload(p[0], 0xF0) * 0x4_0000 + Payload(p[1], 0x80) * 0x1000 + Payload(p[2], 0x80) * 0x40
              + Payload(p[3], 0x80)
    case _ => false
  }

  /** EncodeRune writes the encoding of a rune, and for anything else that of U+FFFD. */
  lemma EncodeIs(r: int)
    ensures if IsRune(r) then Encodes(EncodeRune(r), r) else EncodeRune(r) == EncodeRune(RUNE_ERROR)
  {
    var q := r / 0x40;
    assert r == q * 0x40 + r % 0x40;
    var q2 := q / 0x40;
    assert q == q2 * 0x40 + q % 0x40;
    assert q2 == q2 / 0x40 * 0x40 + q2 % 0x40;
  }

  lemma LowIs(b: Byte, tag: nat, m: nat)
    requires Tagged(b, tag, m) && (tag, m) in {(0x80, 0x40), (0xC0, 0x20), (0xE0, 0x10), (0xF0, 8)}
    ensures Low(b, m) == b - tag
  {
  }

  /** A valid sequence at the front is decoded to the rune that it encodes. */
  lemma ValidDecodes(p: Bytes)
    requires p != [] && (p[0] < RUNE_SELF || ValidFront(p))
    ensures var (r, n) := DecodeRune(p); Encodes(p[..n], r)
  {
    hide Low;
    if p[0] >= RUNE_SELF {
      LowIs(p[1], 0x80, 0x40);
      if Announced(p[0]) == 2 {
        LowIs(p[0], 0xC0, 0x20);
      } else if Announced(p[0]) == 3 {
        LowIs(p[0], 0xE0, 0x10);
        LowIs(p[2], 0x80, 0x40);
      } else {
        LowIs(p[0], 0xF0, 8);
        LowIs(p[2], 0x80, 0x40);
        LowIs(p[3], 0x80, 0x40);
      }
    }
  }

  /** Nothing else is an encoding. */
  lemma InvalidEncodesNone(p: Bytes, k: nat, r: int)
    requires p != [] && p[0] >= RUNE_SELF && !ValidFront(p) && k <= |p|
    ensures !Encodes(p[..k], r)
  {
  }

  /**
   * Decoding gives the rune whose encoding the string starts with, and its width; if it starts with the encoding of
   * none, U+FFFD of width 1.
   */
  lemma DecodeExactly(p: Bytes)
    requires p != []
    ensures var (r, n) := DecodeRune(p);
            Encodes(p[..n], r) || ((r, n) == (RUNE_ERROR, 1) && forall k, q :: 0 <= k <= |p| ==> !Encodes(p[..k], q))
  {
    hide Encodes, ValidFront;
    if p[0] < RUNE_SELF || ValidFront(p) {
      ValidDecodes(p);
    } else {
      forall k, q | 0 <= k <= |p|
        ensures !Encodes(p[..k], q)
      {
        InvalidEncodesNone(p, k, q);
      }
    }
  }

  /** Bytes that are not a full rune yet are the beginning of the encoding of a rune. */
  lemma NotFullBegins(p: Bytes) returns (q: Bytes)
    requires p != [] && !FullRune(p)
    ensures q != [] && DecodeRune(p + q).1 == |p + q| && Encodes(p + q, DecodeRune(p + q).0)
  {
    var n := Announced(p[0]);
    var second: Byte := if p[0] == 0xE0 then 0xA0 else if p[0] == 0xF0 then 0x90 else 0x80;
    q := if |p| > 1 then [0x80] else [second];
    if |p| + 1 < n {
      q := q + [0x80];
    }
    if |p| + 2 < n {
      q := q + [0x80];
    }
    var s := p + q;
    assert |s| == n && s[0] == p[0] && (if |p| > 1 then s[1] == p[1] else s[1] == second);
    assert n > 2 ==> s[2] == if |p| > 2 then p[2] else 0x80;
    assert n > 3 ==> s[3] == 0x80;
    assert ValidFront(s);
    ValidDecodes(s);
    assert s[..n] == s;
  }
}
