/** IEEE 754 binary64 numbers as bit patterns. */
module Floats {
  import opened Integers

  function Pow2(n: nat): (r: nat)
    ensures r > 0
  {
    if n == 0 then 1 else 2 * Pow2(n - 1)
  }

  lemma Pow2Zero()
    ensures Pow2(0) == 1 && Pow2(1) == 2
  {
  }

  lemma {:induction false} Pow2Add(a: nat, b: nat)
    ensures Pow2(a + b) == Pow2(a) * Pow2(b)
  {
    if a > 0 {
      Pow2Add(a - 1, b);
      assert Pow2(a) * Pow2(b) == 2 * (Pow2(a - 1) * Pow2(b));
    }
  }

  lemma Pow2Mono(a: nat, b: nat)
    requires a <= b
    ensures Pow2(a) <= Pow2(b)
  {
    Pow2Add(a, b - a);
    MulGrows(Pow2(a), Pow2(b - a));
  }

  lemma MulGrows(a: nat, b: nat)
    requires b > 0
    ensures a <= a * b
  {
  }

  const TWO52: nat := 0x10_0000_0000_0000
  const TWO53: nat := 0x20_0000_0000_0000
  const TWO63: nat := 0x8000_0000_0000_0000
  const TWO64: nat := 0x1_0000_0000_0000_0000

  const MASK: nat := 0x7FF
  const BIAS := 1023
  const HALF_BITS: nat := 0x3FE0_0000_0000_0000
  const ONE_BITS: nat := 0x3FF0_0000_0000_0000
  const INF: nat := 0x7FF0_0000_0000_0000
  const NAN: nat := 0x7FF8_0000_0000_0001

  /** The pattern of a float64. */
  type Bits = b: nat | b < TWO64

  /** A finite number that is not negative; its patterns are ordered as the numbers are. */
  predicate IsMagnitude(b: nat) {
    b < INF
  }

  /** The pattern without its sign. */
  function Abs(b: Bits): nat {
    b % TWO63
  }

  predicate IsNegative(b: Bits) {
    b >= TWO63
  }

  lemma AbsOf(x: Bits)
    ensures Abs(x) == if IsNegative(x) then x - TWO63 else x
  {
  }

  predicate IsNaN(b: Bits) {
    Abs(b) > INF
  }

  predicate IsZero(b: Bits) {
    Abs(b) == 0
  }

  /** The exponent field. */
  function Field(b: nat): nat {
    (b / TWO52) % 2048
  }

  /** The value of a non-negative finite number in units of the least positive one, 2 to the -1074. */
  function Val(b: nat): nat
    requires IsMagnitude(b)
  {
    var e := b / TWO52;
    if e == 0 then b else (TWO52 + b % TWO52) * Pow2(e - 1)
  }

  /** The distance from a number to the next one. */
  function Ulp(b: nat): nat {
    var e := b / TWO52;
    if e == 0 then 1 else Pow2(e - 1)
  }

  lemma ValStep(b: nat)
    requires IsMagnitude(b + 1)
    ensures Val(b + 1) == Val(b) + Ulp(b)
  {
    var e, f := b / TWO52, b % TWO52;
    if f + 1 < TWO52 {
      assert (b + 1) / TWO52 == e && (b + 1) % TWO52 == f + 1;
      Distribute(TWO52 + f, 1, Pow2(if e == 0 then 0 else e - 1));
    } else {
      assert (b + 1) / TWO52 == e + 1 && (b + 1) % TWO52 == 0;
      if e > 0 {
        Distribute(TWO52 + f, 1, Pow2(e - 1));
        assert TWO52 * Pow2(e) == (2 * TWO52) * Pow2(e - 1);
      }
    }
  }

  /** Patterns and values are ordered alike. */
  lemma {:induction false} ValMono(a: nat, b: nat)
    requires a <= b && IsMagnitude(b)
    ensures Val(a) <= Val(b)
    decreases b - a
  {
    if a < b {
      ValMono(a, b - 1);
      ValStep(b - 1);
    }
  }

  /** A pattern with a given exponent field and significand. */
  lemma ValOf(e: nat, f: nat)
    requires 0 < e < MASK && f < TWO52
    ensures IsMagnitude(e * TWO52 + f)
    ensures Val(e * TWO52 + f) == (TWO52 + f) * Pow2(e - 1) && Ulp(e * TWO52 + f) == Pow2(e - 1)
  {
    assert (e * TWO52 + f) / TWO52 == e && (e * TWO52 + f) % TWO52 == f;
  }

  lemma Pow2Next(k: nat)
    ensures Pow2(k + 1) == 2 * Pow2(k)
  {
  }

  lemma Pow2Of53()
    ensures Pow2(53) == TWO53 && Pow2(54) == 2 * TWO53 && Pow2(52) == TWO52
  {
    assert Pow2(10) == 1024;
    Pow2Add(10, 10);
    Pow2Add(20, 6);
    Pow2Add(26, 26);
    assert Pow2(6) == 64;
  }

  lemma UlpPositive(b: nat)
    ensures Ulp(b) > 0
  {
  }
}
