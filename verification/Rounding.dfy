/** Rounding to an integer on the bits of a float64. */
module Rounding {
  import opened Floats
  import opened Integers

  const SHIFT: nat := 52

  /** The number one in the unit of Val. */
  ghost function One(): nat {
    Pow2(1074)
  }

  /** What Trunc makes of a magnitude. */
  ghost function Whole(v: nat): int {
    v / One()
  }

  /** The simple definition of Round, on magnitudes: away from zero when the rest is at least one half. */
  ghost function SlowRound(v: nat): int {
    if 2 * (v % One()) >= One() then Whole(v) + 1 else Whole(v)
  }

  /** The simple definition of RoundToEven, on magnitudes. */
  ghost function SlowRoundToEven(v: nat): int {
    var d := 2 * (v % One());
    if d > One() || (d == One() && Whole(v) % 2 != 0) then Whole(v) + 1 else Whole(v)
  }

  /** `y` is the float64 of the sign of `x` whose magnitude is the integer `k`. */
  ghost predicate IsInteger(x: Bits, y: Bits, k: int) {
    && IsNegative(y) == IsNegative(x)
    && IsMagnitude(Abs(y)) && Val(Abs(y)) == k * One()
  }

  /** `bits & signMask`. */
  function SignBit(b: Bits): Bits {
    if IsNegative(b) then TWO63 else 0
  }

  /** `bits &^ (D - 1)` for a power of two. */
  function ClearLow(b: int, D: nat): int
    requires D > 0
  {
    b - b % D
  }

  lemma DivMod(n: nat, D: nat, P: nat)
    requires D > 0 && P > 0
    ensures (n * P) / (D * P) == n / D && (n * P) % (D * P) == (n % D) * P
  {
    var t, r := n / D, n % D;
    assert n == t * D + r;
    assert n * P == t * (D * P) + r * P;
    assert r * P < D * P by { assert (D - r) * P > 0; }
    Unique(n * P, D * P, t, r * P);
  }

  /** Adding `h` and clearing the low bits moves n to the next multiple of D exactly when its rest reaches D - h. */
  lemma AddAndClear(n: nat, D: nat, h: nat)
    requires 0 < D && h < D
    ensures ClearLow(n + h, D) == (n / D + if n % D + h >= D then 1 else 0) * D
  {
    var t, r := n / D, n % D;
    var c := if r + h >= D then 1 else 0;
    Unique(n + h, D, t + c, r + h - c * D);
  }

  /** A pattern whose significand may have reached 2^53: the carry goes into the exponent. */
  lemma CarryPattern(n: nat, E: nat)
    requires TWO52 <= n <= TWO53 && E < 2045
    ensures IsMagnitude(n + E * TWO52) && Val(n + E * TWO52) == n * Pow2(E)
  {
    Pow2Next(E);
    hide Pow2, Val;
    if n == TWO53 {
      ValOf(E + 2, 0);
    } else {
      ValOf(E + 1, n - TWO52);
    }
  }

  /** What the two functions do with a number of magnitude at least one that may have a fraction: add, then clear. */
  lemma BigRounds(a: nat, d: nat, h: nat)
    requires IsMagnitude(a) && 1 <= d <= 52 && a / TWO52 == BIAS + 52 - d && h < Pow2(d)
    ensures 0 <= ClearLow(a + h, Pow2(d)) < INF
    ensures Val(ClearLow(a + h, Pow2(d))) == (Whole(Val(a)) + Carry(a, d, h)) * One()
    ensures Whole(Val(a)) == Significand(a) / Pow2(d)
  {
    var E := BIAS + 51 - d;
    var n, D, P := Significand(a), Pow2(d), Pow2(E);
    BigValue(a, d);
    Split52(d);
    hide Pow2, Val, One, ClearLow;
    DivMod(n, D, P);
    AddAndClear(n, D, h);
    TopBound(n, D, h, Pow2(52 - d));
    BigClear(a, n, h, D, E, Pow2(52 - d));
    CarryPattern(ClearLow(n + h, D), E);
    Assoc(n / D + Carry(a, d, h), D, P);
  }

  function Significand(a: nat): nat {
    TWO52 + a % TWO52
  }

  /** Whether adding `h` to the fraction, of weight less than 2^d, carries. */
  function Carry(a: nat, d: nat, h: nat): nat {
    if Significand(a) % Pow2(d) + h >= Pow2(d) then 1 else 0
  }

  lemma BigValue(a: nat, d: nat)
    requires IsMagnitude(a) && 1 <= d <= 52 && a / TWO52 == BIAS + 52 - d
    ensures Val(a) == Significand(a) * Pow2(BIAS + 51 - d) && One() == Pow2(d) * Pow2(BIAS + 51 - d)
    ensures a == Significand(a) + (BIAS + 51 - d) * TWO52
  {
    Pow2Add(d, BIAS + 51 - d);
  }

  lemma BigClear(a: nat, n: nat, h: nat, D: nat, E: nat, J: nat)
    requires a == n + E * TWO52 && D > 0 && J * D == TWO52
    ensures ClearLow(a + h, D) == ClearLow(n + h, D) + E * TWO52
  {
    Assoc(E, J, D);
    ClearShift(n + h, E * TWO52, D, E * J);
  }

  lemma Split52(d: nat)
    requires d <= 52
    ensures Pow2(52 - d) * Pow2(d) == TWO52
  {
    Pow2Add(52 - d, d);
    Pow2Of53();
  }

  /** Clearing low bits commutes with adding a multiple. */
  lemma ClearShift(m: int, k: int, D: nat, j: int)
    requires D > 0 && k == j * D
    ensures ClearLow(m + k, D) == ClearLow(m, D) + k
  {
    var t, r := m / D, m % D;
    assert (t + j) * D == t * D + j * D;
    Unique(m + k, D, t + j, r);
  }

  lemma ClearRange(m: int, D: nat)
    requires D > 0
    ensures m >= 0 ==> ClearLow(m, D) >= 0
    ensures m < D ==> ClearLow(m, D) <= 0
  {
    var t, r := m / D, m % D;
    assert ClearLow(m, D) == t * D;
    if m >= 0 && t < 0 {
      Apart(0, t, D);
    } else if m < D && t > 0 {
      Apart(t, 0, D);
    }
  }

  lemma TopBound(n: nat, D: nat, h: nat, J: nat)
    requires TWO52 <= n < TWO53 && D > 0 && J * D == TWO52 && h < D
    ensures TWO52 <= ClearLow(n + h, D) <= TWO53
  {
    ClearShift(n + h - TWO52, TWO52, D, J);
    ClearRange(n + h - TWO52, D);
    assert (2 * J) * D == TWO53;
    ClearShift(n + h - TWO53, TWO53, D, 2 * J);
    ClearRange(n + h - TWO53, D);
  }

  // ----- The two functions

  const TWO51: nat := 0x8_0000_0000_0000

  /** What the shifted constants are. */
  lemma Shifts(e: nat)
    requires e <= 51
    ensures TWO51 / Pow2(e) == Pow2(51 - e)
    ensures (TWO52 - 1) / Pow2(e) == Pow2(52 - e) - 1
    ensures (TWO51 - 1) / Pow2(e) == Pow2(51 - e) - 1
    ensures Pow2(52 - e) == 2 * Pow2(51 - e)
  {
    hide Pow2;
    Split52(e);
    Pow2Next(51 - e);
    Quotients(Pow2(51 - e), Pow2(e));
  }

  lemma Quotients(A: nat, B: nat)
    requires (2 * A) * B == TWO52 && B > 0
    ensures TWO51 / B == A && (TWO52 - 1) / B == 2 * A - 1 && (TWO51 - 1) / B == A - 1
  {
    Twofold(A, B);
    Unique(TWO51, B, A, 0);
    Sub1(2 * A, B);
    Unique(TWO52 - 1, B, 2 * A - 1, B - 1);
    Sub1(A, B);
    Unique(TWO51 - 1, B, A - 1, B - 1);
  }

  lemma Twofold(A: int, B: int)
    ensures (2 * A) * B == 2 * (A * B)
  {
  }

  lemma Sub1(a: int, b: int)
    ensures (a - 1) * b + (b - 1) == a * b - 1
  {
  }

  lemma KnownValues()
    ensures Val(ONE_BITS) == One() && 2 * Val(HALF_BITS) == One()
  {
    ValOf(BIAS, 0);
    ValOf(BIAS - 1, 0);
    HalfValue();
  }

  lemma StrictMono(a: nat, b: nat)
    requires a < b && IsMagnitude(b)
    ensures Val(a) < Val(b)
  {
    hide Val, Ulp;
    ValMono(a, b - 1);
    ValStep(b - 1);
    UlpPositive(b - 1);
  }

  /** Below one half, and from one half to one. */
  lemma SmallValues(a: nat)
    requires IsMagnitude(a)
    ensures a / TWO52 < BIAS - 1 ==> 2 * Val(a) < One()
    ensures a / TWO52 == BIAS - 1 ==> One() <= 2 * Val(a) && Val(a) < One() && (2 * Val(a) == One() <==> a % TWO52 == 0)
    ensures Val(ONE_BITS) == One()
  {
    hide Val, One;
    KnownValues();
    if a < HALF_BITS {
      StrictMono(a, HALF_BITS);
    } else if a < ONE_BITS {
      StrictMono(a, ONE_BITS);
      if a > HALF_BITS {
        StrictMono(HALF_BITS, a);
      }
    }
  }

  lemma HalfValue()
    ensures TWO52 * Pow2(BIAS - 1) == One() && 2 * (TWO52 * Pow2(BIAS - 2)) == One()
  {
    Pow2Of53();
    Pow2Add(52, BIAS - 1);
    Pow2Next(BIAS - 2);
    hide Pow2;
    Assoc(TWO52, 2, Pow2(BIAS - 2));
  }

  lemma Fraction(v: nat)
    requires v < One()
    ensures Whole(v) == 0 && v % One() == v
  {
    hide Pow2;
    Unique(v, One(), 0, v);
  }

  lemma LargeValues(a: nat)
    requires IsMagnitude(a) && a / TWO52 >= BIAS + 52
    ensures Val(a) % One() == 0 && Val(a) == Whole(Val(a)) * One()
  {
    var E := a / TWO52 - 1;
    var n := Significand(a);
    assert Val(a) == n * Pow2(E);
    Pow2Add(E - 1074, 1074);
    hide Pow2, Val;
    Assoc(n, Pow2(E - 1074), One());
    Unique(Val(a), One(), n * Pow2(E - 1074), 0);
  }

  lemma FieldOfSigned(x: Bits)
    ensures IsNegative(x) ==> Abs(x) == x - TWO63
    ensures !IsNegative(x) ==> Abs(x) == x
    ensures Abs(x) == x - SignBit(x) && (x / TWO52) % 2048 == Abs(x) / TWO52 && x % TWO52 == Abs(x) % TWO52
  {
  }

  lemma ClearSign(m: int, D: nat, J: nat)
    requires D > 0 && J * D == TWO52
    ensures ClearLow(m + TWO63, D) == ClearLow(m, D) + TWO63
  {
    hide ClearLow;
    Assoc(2048, J, D);
    ClearShift(m, TWO63, D, 2048 * J);
  }

  /** The sign bit is out of reach of both the addition and the clearing. */
  lemma SignedClear(x: Bits, h: nat, d: nat)
    requires d <= 52
    ensures ClearLow(x + h, Pow2(d)) == ClearLow(Abs(x) + h, Pow2(d)) + SignBit(x)
  {
    hide Pow2, Abs, ClearLow;
    AbsOf(x);
    if IsNegative(x) {
      Split52(d);
      ClearSign(Abs(x) + h, Pow2(d), Pow2(52 - d));
      assert x + h == Abs(x) + h + TWO63;
    }
  }

  lemma Signed(x: Bits, a: nat)
    requires a < TWO63
    ensures a + SignBit(x) < TWO64
    ensures var y: Bits := a + SignBit(x); Abs(y) == a && IsNegative(y) == IsNegative(x)
  {
  }

  /** The fraction carries exactly when it is at least one half. */
  lemma HalfCarries(a: nat, d: nat)
    requires IsMagnitude(a) && 1 <= d <= 52 && a / TWO52 == BIAS + 52 - d
    ensures SlowRound(Val(a)) == Whole(Val(a)) + Carry(a, d, Pow2(d - 1))
    ensures Whole(Val(a)) % 2 == 0 ==> SlowRoundToEven(Val(a)) == Whole(Val(a)) + Carry(a, d, Pow2(d - 1) - 1)
    ensures Whole(Val(a)) % 2 != 0 ==> SlowRoundToEven(Val(a)) == Whole(Val(a)) + Carry(a, d, Pow2(d - 1))
  {
    BigValue(a, d);
    Pow2Next(d - 1);
    hide Pow2, Val, One, Whole;
    var n, D, P := Significand(a), Pow2(d), Pow2(BIAS + 51 - d);
    DivMod(n, D, P);
    Compare(n % D, Pow2(d - 1), P);
    assert 2 * (Val(a) % One()) == 2 * ((n % D) * P);
    assert One() == 2 * (Pow2(d - 1) * P) by { Assoc(2, Pow2(d - 1), P); }
  }

  /** `bits += h` followed by `bits &^= D - 1`, on a number of magnitude at least one that may have a fraction. */
  lemma BigResult(x: Bits, d: nat, h: nat, k: int)
    requires IsMagnitude(Abs(x)) && 1 <= d <= 52 && Abs(x) / TWO52 == BIAS + 52 - d && h < Pow2(d)
    requires k == Whole(Val(Abs(x))) + Carry(Abs(x), d, h)
    ensures 0 <= ClearLow(x + h, Pow2(d)) < TWO64 && IsInteger(x, ClearLow(x + h, Pow2(d)), k)
  {
    hide Val, Carry, Whole, One, Pow2, ClearLow, Abs;
    BigRounds(Abs(x), d, h);
    SignedClear(x, h, d);
    Signed(x, ClearLow(Abs(x) + h, Pow2(d)));
  }

  lemma SmallResult(x: Bits)
    requires IsMagnitude(Abs(x)) && Abs(x) / TWO52 < BIAS
    ensures IsInteger(x, SignBit(x), 0) && SignBit(x) + ONE_BITS < TWO64 && IsInteger(x, SignBit(x) + ONE_BITS, 1)
    ensures SlowRound(Val(Abs(x))) == if Abs(x) / TWO52 == BIAS - 1 then 1 else 0
    ensures SlowRoundToEven(Val(Abs(x))) == if Abs(x) / TWO52 == BIAS - 1 && Abs(x) % TWO52 != 0 then 1 else 0
  {
    SmallValues(Abs(x));
    assert Val(0) == 0;
    Fraction(Val(Abs(x)));
    Signed(x, 0);
    Signed(x, ONE_BITS);
    hide Val, One;
  }

  lemma LargeResult(x: Bits)
    requires IsMagnitude(Abs(x)) && Abs(x) / TWO52 >= BIAS + 52
    ensures IsInteger(x, x, SlowRound(Val(Abs(x)))) && IsInteger(x, x, SlowRoundToEven(Val(Abs(x))))
  {
    LargeValues(Abs(x));
    OnePositive();
    hide Val, One, Whole;
  }

  lemma OnePositive()
    ensures One() > 0
  {
  }

  method Round(x: Bits) returns (y: Bits)
    ensures IsMagnitude(Abs(x)) ==> IsInteger(x, y, SlowRound(Val(Abs(x))))
    ensures !IsMagnitude(Abs(x)) ==> y == x
  {
    hide IsInteger, SlowRound, SlowRoundToEven, Val, ClearLow, Abs, Carry, Whole, Pow2;
    FieldOfSigned(x);
    var bits: int := x;
    var e := (bits / TWO52) % 2048;
    if e < BIAS {
      SmallResult(x);
      bits := SignBit(x);
      if e == BIAS - 1 {
        bits := bits + ONE_BITS;
      }
    } else if e < BIAS + SHIFT {
      e := e - BIAS;
      Shifts(e);
      HalfCarries(Abs(x), 52 - e);
      BigResult(x, 52 - e, Pow2(51 - e), SlowRound(Val(Abs(x))));
      bits := bits + TWO51 / Pow2(e);
      bits := ClearLow(bits, (TWO52 - 1) / Pow2(e) + 1);
    } else if IsMagnitude(Abs(x)) {
      LargeResult(x);
    }
    y := bits;
  }

  /** The last bit of the integer part, found where the exponent field begins when there is no other. */
  lemma ParityBit(x: Bits, d: nat)
    requires IsMagnitude(Abs(x)) && 1 <= d <= 52 && Abs(x) / TWO52 == BIAS + 52 - d
    ensures (x / Pow2(d)) % 2 == Whole(Val(Abs(x))) % 2
  {
    hide Pow2, Val, Abs, One, Significand;
    var n, E := Significand(Abs(x)), BIAS + 51 - d;
    BigValue(Abs(x), d);
    Split52(d);
    ParityOfPower(d);
    FieldOfSigned(x);
    DivMod(n, Pow2(d), Pow2(E));
    SameParity(n, Pow2(d), Pow2(52 - d), E + if IsNegative(x) then 2048 else 0, x);
  }

  lemma SameParity(n: nat, D: nat, J: nat, k: nat, x: int)
    requires D > 0 && J * D == TWO52 && x == n + k * TWO52 && (J % 2 == 0 || k % 2 == 0)
    ensures (x / D) % 2 == (n / D) % 2
  {
    ShiftedQuotient(n, D, J, k, x);
    EvenSum(n / D, k, J);
  }

  lemma ParityOfPower(d: nat)
    requires d <= 52
    ensures d < 52 ==> Pow2(52 - d) % 2 == 0
  {
    if d < 52 {
      Pow2Next(51 - d);
      Unique(Pow2(52 - d), 2, Pow2(51 - d), 0);
    }
  }

  lemma ShiftedQuotient(n: nat, D: nat, J: nat, k: nat, x: int)
    requires D > 0 && J * D == TWO52 && x == n + k * TWO52
    ensures x / D == n / D + k * J
  {
    Assoc(k, J, D);
    var t := n / D;
    assert (t + k * J) * D == t * D + (k * J) * D;
    Unique(x, D, t + k * J, n % D);
  }

  lemma EvenSum(t: int, k: int, J: int)
    requires J % 2 == 0 || k % 2 == 0
    ensures (t + k * J) % 2 == t % 2
  {
    if J % 2 == 0 {
      assert k * J == 2 * (k * (J / 2));
    } else {
      assert k * J == 2 * ((k / 2) * J);
    }
  }

  /** A right shift of a uint64 by any count. */
  function Shr(v: int, n: nat): int {
    if n < 64 then v / Pow2(n) else 0
  }

  lemma EvenShifts(e: nat, odd: int)
    requires e < SHIFT && 0 <= odd < 2
    ensures Shr(TWO51 - 1 + odd, e) == Pow2(51 - e) - 1 + odd && Shr(TWO52 - 1, e) == Pow2(52 - e) - 1
    ensures Pow2(52 - e) == 2 * Pow2(51 - e)
  {
    Shifts(e);
  }

  lemma ShiftedOut(e: nat, odd: int)
    requires e >= SHIFT && 0 <= odd < 2
    ensures Shr(TWO51 - 1 + odd, e) == 0 && Shr(TWO52 - 1, e) == 0
  {
    if e < 64 {
      Pow2Of53();
      Pow2Mono(52, e);
      hide Pow2;
      Unique(TWO51 - 1 + odd, Pow2(e), 0, TWO51 - 1 + odd);
      Unique(TWO52 - 1, Pow2(e), 0, TWO52 - 1);
    }
  }

  lemma ClearNone(b: int)
    ensures ClearLow(b, 1) == b
  {
  }

  /** Half a unit less one, and the lowest bit, is what to add. */
  lemma EvenResult(x: Bits, e: nat, odd: int)
    requires e < SHIFT && Abs(x) / TWO52 == BIAS + e && odd == Shr(x, (SHIFT - e) % TWO64) % 2
    ensures Shr(TWO52 - 1, e) >= 0
    ensures var y := ClearLow(x + Shr(TWO51 - 1 + odd, e), Shr(TWO52 - 1, e) + 1);
            0 <= y < TWO64 && IsInteger(x, y, SlowRoundToEven(Val(Abs(x))))
  {
    hide IsInteger, SlowRound, SlowRoundToEven, Val, ClearLow, Abs, Carry, Whole, Pow2;
    assert odd == (x / Pow2(52 - e)) % 2;
    hide Shr;
    MagnitudeBelow(Abs(x), e);
    EvenShifts(e, odd);
    HalfCarries(Abs(x), 52 - e);
    ParityBit(x, 52 - e);
    BigResult(x, 52 - e, Pow2(51 - e) - 1 + odd, SlowRoundToEven(Val(Abs(x))));
  }

  lemma MagnitudeBelow(a: nat, e: nat)
    requires e < SHIFT && a / TWO52 == BIAS + e
    ensures IsMagnitude(a)
  {
  }

  /** The case of at least one, with the bits from the exponent's lowest on. */
  method EvenBits(x: Bits, e: nat) returns (y: Bits)
    requires Abs(x) / TWO52 == BIAS + e
    ensures IsMagnitude(Abs(x)) ==> IsInteger(x, y, SlowRoundToEven(Val(Abs(x))))
    ensures !IsMagnitude(Abs(x)) ==> y == x
  {
    hide IsInteger, SlowRound, SlowRoundToEven, Val, ClearLow, Abs, Carry, Whole, Pow2, Shr;
    FieldOfSigned(x);
    var bits: int := x;
    var odd := Shr(x, (SHIFT - e) % TWO64) % 2;
    if e < SHIFT {
      EvenResult(x, e, odd);
    } else {
      ShiftedOut(e, odd);
      ClearNone(bits);
      if IsMagnitude(Abs(x)) {
        LargeResult(x);
      }
    }
    bits := bits + Shr(TWO51 - 1 + odd, e);
    bits := ClearLow(bits, Shr(TWO52 - 1, e) + 1);
    y := bits;
  }

  method RoundToEven(x: Bits) returns (y: Bits)
    ensures IsMagnitude(Abs(x)) ==> IsInteger(x, y, SlowRoundToEven(Val(Abs(x))))
    ensures !IsMagnitude(Abs(x)) ==> y == x
  {
    hide IsInteger, SlowRound, SlowRoundToEven, Val, ClearLow, Abs, Carry, Whole, Pow2;
    FieldOfSigned(x);
    var bits: int := x;
    var e := (bits / TWO52) % 2048;
    if e >= BIAS {
      e := e - BIAS;
      y := EvenBits(x, e);
      return;
    } else if e == BIAS - 1 && bits % TWO52 != 0 {
      SmallResult(x);
      bits := SignBit(x) + ONE_BITS;
    } else {
      SmallResult(x);
      bits := SignBit(x);
    }
    y := bits;
  }
}
