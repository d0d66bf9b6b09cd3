/** Frexp, Ldexp, Mod and Remainder of float64 numbers. */
module Remainders {
  import opened Floats
  import opened Integers

  predicate IsFinite(b: Bits) {
    Abs(b) < INF
  }

  /** The value of a finite number in units of 2 to the -1074. */
  function SVal(b: Bits): int
    requires IsFinite(b)
  {
    var v: int := Val(Abs(b));
    if IsNegative(b) then -v else v
  }

  /** `v` units are the value of a float64. */
  ghost predicate Representable(v: int) {
    exists b: nat :: IsMagnitude(b) && Val(b) == v
  }

  /** Every magnitude has at most 53 significant bits. */
  lemma Significand(b: nat) returns (m: nat, k: nat)
    requires IsMagnitude(b)
    ensures m < TWO53 && k <= 2045 && Val(b) == m * Pow2(k)
  {
    var e := b / TWO52;
    if e == 0 {
      m, k := b, 0;
    } else {
      m, k := TWO52 + b % TWO52, e - 1;
    }
  }

  /** Every representable value has a pattern. */
  lemma {:induction false} PatternOf(m: nat, k: nat) returns (b: nat)
    requires m < TWO53 && k <= 2045
    ensures IsMagnitude(b) && Val(b) == m * Pow2(k)
    decreases k
  {
    if m >= TWO52 {
      hide Val, Pow2;
      ValOf(k + 1, m - TWO52);
      b := (k + 1) * TWO52 + (m - TWO52);
    } else if k == 0 {
      b := m;
    } else {
      b := PatternOf(2 * m, k - 1);
      assert (2 * m) * Pow2(k - 1) == m * Pow2(k);
    }
  }

  /** A difference of two floats within a factor of two of each other is a float. */
  lemma Sterbenz(a: nat, b: nat)
    requires IsMagnitude(a) && IsMagnitude(b) && Val(b) <= Val(a) <= 2 * Val(b)
    ensures Representable(Val(a) - Val(b))
  {
    hide Val, Pow2;
    var m, i := Significand(a);
    var n, j := Significand(b);
    if i <= j {
      Common(m, i, n, j);
      CommonPart(m - n * Pow2(j - i), i, m);
    } else {
      Common(n, j, m, i);
      CommonPart(m * Pow2(i - j) - n, j, n);
    }
  }

  lemma Common(m: int, i: nat, n: int, j: nat)
    requires i <= j
    ensures m * Pow2(i) - n * Pow2(j) == (m - n * Pow2(j - i)) * Pow2(i)
    ensures n * Pow2(j) - m * Pow2(i) == (n * Pow2(j - i) - m) * Pow2(i)
  {
    Pow2Add(j - i, i);
    hide Pow2;
    Assoc(n, Pow2(j - i), Pow2(i));
    Minus(m, n * Pow2(j - i), Pow2(i));
    Minus(n * Pow2(j - i), m, Pow2(i));
  }

  lemma Minus(a: int, b: int, c: int)
    ensures (a - b) * c == a * c - b * c
  {
  }

  /** c * 2^i between 0 and m * 2^i with a small m is representable. */
  lemma CommonPart(c: int, i: nat, m: nat)
    requires 0 <= c * Pow2(i) <= m * Pow2(i) && m < TWO53 && i <= 2045
    ensures Representable(c * Pow2(i))
  {
    hide Pow2, Val;
    var p := Pow2(i);
    if c < 0 {
      Apart(0, c, p);
    } else if c > m {
      Apart(c, m, p);
    } else {
      var b := PatternOf(c, i);
    }
  }

  /** A float64 operation whose exact result is a float64 returns it. */
  method ExactResult(v: int) returns (c: Bits)
    requires Representable(if v < 0 then -v else v)
    ensures IsFinite(c) && SVal(c) == v && IsNegative(c) == (v < 0)
  {
    var a: nat :| a < INF && Val(a) == if v < 0 then -v else v;
    c := if v < 0 then a + TWO63 else a;
    AbsOf(c);
  }

  /** The significand of a normal number. */
  function Sig(a: nat): nat {
    TWO52 + a % TWO52
  }

  lemma NormalValue(a: nat)
    requires IsMagnitude(a) && TWO52 <= a
    ensures 0 < a / TWO52 < MASK && Val(a) == Sig(a) * Pow2(a / TWO52 - 1)
  {
  }

  /** A finite number other than zero made normal: f == y * 2^-s. */
  method Normalize(f: Bits) returns (y: Bits, s: nat)
    requires IsFinite(f) && !IsZero(f)
    ensures IsFinite(y) && TWO52 <= Abs(y) && IsNegative(y) == IsNegative(f)
    ensures (s == 0 || s == 52) && Val(Abs(y)) == Val(Abs(f)) * Pow2(s)
    ensures s == 52 ==> Abs(f) < TWO52
  {
    if Abs(f) < TWO52 {
      ScaledSubnormal(Abs(f));
      hide Pow2;
      Pow2Of53();
      y := ExactResult(SVal(f) * TWO52);
      s := 52;
      SubnormalUp(Abs(f), Abs(y));
    } else {
      y, s := f, 0;
    }
  }

  lemma ScaledSubnormal(a: nat)
    requires 0 < a < TWO52
    ensures Val(a) == a && Representable(a * TWO52)
  {
    Pow2Of53();
    var b := PatternOf(a, 52);
  }

  lemma SubnormalUp(a: nat, b: nat)
    requires 0 < a < TWO52 && IsMagnitude(b) && Val(b) == a * TWO52
    ensures TWO52 <= b
  {
    MulLeq(1, a, TWO52);
  }

  /** f == frac * 2^exp. */
  ghost predicate Scales(f: nat, frac: nat, exp: int)
    requires IsMagnitude(f) && IsMagnitude(frac)
  {
    -1073 <= exp <= 1024 && Val(f) * Pow2(1074) == Val(frac) * Pow2(exp + 1074)
  }

  /** Replacing the exponent field of a pattern. */
  function WithField(b: Bits, e: nat): int {
    b - Field(b) * TWO52 + e * TWO52
  }

  lemma FieldReplaced(b: Bits, e: nat)
    requires e < MASK
    ensures 0 <= WithField(b, e) < TWO64 && Abs(WithField(b, e)) == e * TWO52 + Abs(b) % TWO52
    ensures IsNegative(WithField(b, e)) == IsNegative(b) && Field(b) == Abs(b) / TWO52
  {
    AbsOf(b);
  }

  lemma FracScales(f: nat, g: nat, s: nat, frac: nat, exp: int)
    requires IsMagnitude(f) && IsMagnitude(g) && TWO52 <= g && (s == 0 || s == 52) && Val(g) == Val(f) * Pow2(s)
    requires s == 52 ==> f < TWO52
    requires frac == (BIAS - 1) * TWO52 + g % TWO52 && exp == g / TWO52 - BIAS + 1 - s
    requires f > 0
    ensures HALF_BITS <= frac < ONE_BITS && Scales(f, frac, exp)
  {
    hide Val, Pow2;
    NormalValue(g);
    ValOf(BIAS - 1, g % TWO52);
    ExpRange(f, g, s);
    var n, F := Sig(g), g / TWO52;
    Joined(Val(f), s, 1074 - s);
    Joined(n, F - 1, 1074 - s);
    Joined(n, BIAS - 2, exp + 1074);
  }

  lemma Joined(n: int, a: nat, b: nat)
    ensures (n * Pow2(a)) * Pow2(b) == n * Pow2(a + b)
  {
    Pow2Add(a, b);
    hide Pow2;
    Assoc(n, Pow2(a), Pow2(b));
  }

  lemma ExpRange(f: nat, g: nat, s: nat)
    requires IsMagnitude(f) && IsMagnitude(g) && TWO52 <= g && (s == 0 || s == 52) && Val(g) == Val(f) * Pow2(s)
    requires s == 52 ==> f < TWO52
    ensures -1073 <= g / TWO52 - BIAS + 1 - s <= 1024
  {
  }

  method Frexp(f: Bits) returns (frac: Bits, exp: int)
    ensures -1073 <= exp <= 1024
    ensures IsZero(f) || !IsFinite(f) ==> frac == f && exp == 0
    ensures IsFinite(f) && !IsZero(f) ==>
              && HALF_BITS <= Abs(frac) < ONE_BITS && IsNegative(frac) == IsNegative(f)
              && Scales(Abs(f), Abs(frac), exp)
  {
    hide Val, Scales, Abs, Pow2;
    if IsZero(f) || !IsFinite(f) {
      return f, 0;
    }
    var x, s := Normalize(f);
    exp := -s + Field(x) - BIAS + 1;
    FieldReplaced(x, BIAS - 1);
    frac := WithField(x, BIAS - 1);
    FracScales(Abs(f), Abs(x), s, Abs(frac), exp);
    FracRange(Abs(f), Abs(frac), exp);
  }

  lemma FracRange(f: nat, frac: nat, exp: int)
    requires IsMagnitude(f) && IsMagnitude(frac) && Scales(f, frac, exp)
    ensures -1073 <= exp <= 1024
  {
  }

  /** The least value that overflows. */
  ghost function Overflow(): nat {
    Pow2(2098)
  }

  lemma MagnitudeBelow(b: nat)
    requires IsMagnitude(b)
    ensures Val(b) < Overflow()
  {
    hide Pow2, Val;
    var m, k := Significand(b);
    Pow2Of53();
    Pow2Add(53, k);
    Pow2Mono(53 + k, 2098);
    MulLess(m, TWO53, Pow2(k));
  }

  lemma Cancel(a: int, b: int, p: nat)
    requires p > 0 && a * p == b * p
    ensures a == b
  {
    Compare(a, b, p);
  }

  /** `w` is the integer nearest to a / b, the even one of two. */
  ghost predicate IsNearest(a: int, b: int, w: int) {
    var d := 2 * (a - w * b);
    -b <= d <= b && (d == b || d == -b ==> w % 2 == 0)
  }

  lemma SameRatio(a: int, b: int, c: int, d: int, w: int)
    requires b > 0 && d > 0 && a * d == c * b && IsNearest(a, b, w)
    ensures IsNearest(c, d, w)
  {
    var x, y := 2 * (a - w * b), 2 * (c - w * d);
    CrossTerms(a, b, c, d, w);
    Compare(b, x, d);
    Compare(x, -b, d);
    Compare(d, y, b);
    Compare(y, -d, b);
    Negated(b, d);
  }

  lemma CrossTerms(a: int, b: int, c: int, d: int, w: int)
    requires a * d == c * b
    ensures (2 * (a - w * b)) * d == (2 * (c - w * d)) * b
  {
    assert (2 * (a - w * b)) * d == 2 * (a * d) - 2 * (w * b * d);
    assert (2 * (c - w * d)) * b == 2 * (c * b) - 2 * (w * d * b);
  }

  lemma Negated(b: int, d: int)
    ensures (-b) * d == -(b * d) && (-d) * b == -(b * d) && d * b == b * d
  {
  }

  /** A value below one unit rounds to nothing just when it is at most a half. */
  lemma NearestNothing(a: int, b: int)
    requires 0 <= a < b
    ensures IsNearest(a, b, 0) <==> 2 * a <= b
  {
  }

  function Up(exp: int): nat {
    if exp > 0 then exp else 0
  }

  function Down(exp: int): nat {
    if exp < 0 then -exp else 0
  }

  /** A scaled value and the significand it has. */
  lemma ScaledValue(v: nat, g: nat, s: nat, up: nat)
    requires IsMagnitude(g) && TWO52 <= g && Val(g) == v * Pow2(s)
    ensures (v * Pow2(up)) * Pow2(s) == Sig(g) * Pow2(g / TWO52 - 1 + up)
  {
    hide Val, Pow2;
    NormalValue(g);
    Joined(Sig(g), g / TWO52 - 1, up);
    Joined(v, s, up);
    Joined(v, up, s);
  }

  /** Where such a value lies between powers of two. */
  lemma ScaledBounds(A: nat, s: nat, n: nat, j: nat, t: nat)
    requires A * Pow2(s) == n * Pow2(j) && TWO52 <= n < TWO53
    ensures 52 + j >= t + s ==> A >= Pow2(t)
    ensures 53 + j <= t + s ==> A < Pow2(t)
  {
    hide Pow2;
    Pow2Of53();
    Pow2Add(t, s);
    if 52 + j >= t + s {
      Pow2Add(52, j);
      MulLeq(TWO52, n, Pow2(j));
      Pow2Mono(t + s, 52 + j);
      Compare(A, Pow2(t), Pow2(s));
    } else if 53 + j <= t + s {
      Pow2Add(53, j);
      MulLess(n, TWO53, Pow2(j));
      Pow2Mono(53 + j, t + s);
      Compare(A, Pow2(t), Pow2(s));
    }
  }

  /** A number shifted; scaling by a power of two as one operation. */
  function Shift(n: int, k: nat): int {
    n * Pow2(k)
  }

  lemma ShiftShift(n: int, a: nat, b: nat)
    ensures Shift(Shift(n, a), b) == Shift(n, a + b)
  {
    hide Pow2;
    Joined(n, a, b);
  }

  lemma ShiftCancel(x: int, y: int, k: nat)
    requires Shift(x, k) == Shift(y, k)
    ensures x == y
  {
    hide Pow2;
    Cancel(x, y, Pow2(k));
  }

  /** A new exponent field gives the scaled value, or 2^m times that. */
  lemma FieldScales(v: nat, g: nat, s: nat, up: nat, down: nat, m: nat, e: nat)
    requires IsMagnitude(g) && TWO52 <= g && Val(g) == Shift(v, s)
    requires 0 < e < MASK && e + s + down == g / TWO52 + up + m
    ensures IsMagnitude(e * TWO52 + g % TWO52)
    ensures Shift(Val(e * TWO52 + g % TWO52), down) == Shift(Shift(v, up), m)
  {
    hide Val, Shift;
    var n, F := Sig(g), g / TWO52;
    ShiftedValue(g);
    FieldValue(e, g % TWO52);
    ShiftShift(n, e - 1, down);
    ShiftShift(n, e - 1 + down, s);
    ShiftShift(n, F - 1, up + m);
    ShiftShift(v, s, up + m);
    ShiftShift(v, up, m);
    ShiftShift(v, up + m, s);
    ShiftCancel(Shift(n, e - 1 + down), Shift(v, up + m), s);
  }

  lemma ShiftedValue(g: nat)
    requires IsMagnitude(g) && TWO52 <= g
    ensures g / TWO52 > 0 && Val(g) == Shift(Sig(g), g / TWO52 - 1)
  {
    hide Val, Pow2;
    NormalValue(g);
  }

  lemma FieldValue(e: nat, f: nat)
    requires 0 < e < MASK && f < TWO52
    ensures IsMagnitude(e * TWO52 + f) && Val(e * TWO52 + f) == Shift(TWO52 + f, e - 1)
  {
    hide Val, Pow2;
    ValOf(e, f);
  }

  lemma OverflowTimes(down: nat)
    ensures Overflow() * Pow2(down) == Pow2(2098 + down)
  {
    Pow2Add(2098, down);
  }

  /** The product with 2^-52 of a number below 2^-970: rounded to whole units, ties to even. */
  method TimesTiny(y: Bits) returns (r: Bits)
    requires IsFinite(y) && 1 <= Abs(y) / TWO52 <= 52
    ensures IsNegative(r) == IsNegative(y) && IsFinite(r)
    ensures IsNearest(Val(Abs(y)), TWO52, Val(Abs(r)))
  {
    hide Val, Pow2, Abs;
    TinyBound(Abs(y));
    var W: int := Val(Abs(y));
    var w, rest := W / TWO52, W % TWO52;
    if 2 * rest > TWO52 || (2 * rest == TWO52 && w % 2 == 1) {
      w := w + 1;
    }
    UnitValue(w);
    r := if IsNegative(y) then TWO63 + w else w;
    AbsOf(r);
  }

  lemma TinyBound(a: nat)
    requires IsMagnitude(a) && 1 <= a / TWO52 <= 52
    ensures Val(a) < TWO52 * TWO52
  {
    hide Pow2, Val;
    NormalValue(a);
    Pow2Mono(a / TWO52 - 1, 51);
    Pow2Of53();
    Pow2Next(51);
    MulLess(Sig(a), TWO53, Pow2(a / TWO52 - 1));
    MulLeq(Pow2(a / TWO52 - 1), Pow2(51), TWO53);
  }

  lemma UnitValue(w: nat)
    requires w <= TWO52
    ensures IsMagnitude(w) && Val(w) == w
  {
    Pow2Zero();
  }

  /** frac * 2^exp is a / b units. */
  ghost function Scaled(frac: Bits, exp: int): (r: (nat, nat))
    requires IsFinite(frac)
    ensures r.1 > 0
  {
    (Val(Abs(frac)) * Pow2(Up(exp)), Pow2(Down(exp)))
  }

  /** What Ldexp makes of a / b units: an infinity, nothing, or the nearest number. */
  ghost predicate IsScaled(a: nat, b: nat, r: Bits) {
    if a >= Overflow() * b then Abs(r) == INF
    else if a < b then Abs(r) == 0
    else IsFinite(r) && IsNearest(a, b, Val(Abs(r)))
  }

  /** An exponent as the program holds it. */
  const MIN_INT: int := -0x8000_0000_0000_0000
  const MAX_INT: int := 0x7FFF_FFFF_FFFF_FFFF

  type Int64 = i: int | MIN_INT <= i <= MAX_INT

  predicate FitsInt(v: int) {
    MIN_INT <= v <= MAX_INT
  }

  /** Two's complement of 64 bits. */
  function Wrap64(v: int): (r: int)
    ensures FitsInt(r)
  {
    (v - MIN_INT) % TWO64 + MIN_INT
  }

  lemma WrapTwice(a: int, b: int)
    ensures Wrap64(Wrap64(a) + b) == Wrap64(a + b)
  {
    var k := (a - MIN_INT) / TWO64;
    assert Wrap64(a) == a - TWO64 * k;
    Turns(a + b - MIN_INT, -k);
  }

  lemma Turns(v: int, k: int)
    ensures (v + TWO64 * k) % TWO64 == v % TWO64
  {
  }

  /** A sum a little out of range comes out at the other end. */
  lemma WrapEnds(v: int)
    requires MIN_INT - 2048 <= v <= MAX_INT + 2048
    ensures Wrap64(v) == if v < MIN_INT then v + TWO64 else if v <= MAX_INT then v else v - TWO64
  {
  }

  /** The largest power of two in a positive number. */
  function Log2(v: nat): nat
    requires v > 0
  {
    if v == 1 then 0 else 1 + Log2(v / 2)
  }

  lemma Doubles(k: nat)
    ensures k > 0 ==> Pow2(k) == 2 * Pow2(k - 1) >= 2
    ensures Pow2(k + 1) == 2 * Pow2(k) && (k == 0 ==> Pow2(k + 1) == 2)
  {
  }

  lemma {:induction false} Log2Is(v: nat, k: nat)
    requires v > 0 && Pow2(k) <= v < Pow2(k + 1)
    ensures Log2(v) == k
    decreases v
  {
    Doubles(k);
    if v > 1 {
      Log2Is(v / 2, k - 1);
    }
  }

  /** The binary exponent of a number: it lies between 2^e and 2^(e+1). */
  ghost function Exponent(frac: Bits): int
    requires IsFinite(frac) && !IsZero(frac)
  {
    Positive(Abs(frac));
    Log2(Val(Abs(frac))) - 1074
  }

  lemma Positive(a: nat)
    requires IsMagnitude(a) && a > 0
    ensures Val(a) > 0
  {
    ScaledPositive(a, 0);
  }

  lemma ExponentIs(frac: Bits, g: nat, s: nat)
    requires IsFinite(frac) && !IsZero(frac) && IsMagnitude(g) && TWO52 <= g && Val(g) == Val(Abs(frac)) * Pow2(s)
    requires s == 0 || s == 52
    ensures Exponent(frac) == g / TWO52 - s - BIAS && -1075 < Exponent(frac) < 1024
  {
    hide Val, Pow2, Abs;
    var v, F := Val(Abs(frac)), g / TWO52;
    Positive(Abs(frac));
    NormalValue(g);
    ScaledBounds(v, s, Sig(g), F - 1, 51 + F - s);
    ScaledBounds(v, s, Sig(g), F - 1, 52 + F - s);
    Log2Is(v, 51 + F - s);
  }

  /** What Ldexp returns: the scaled number while the sum of the exponents fits, and the wrong end when it does not. */
  ghost predicate LdexpResult(frac: Bits, exp: int, r: Bits)
    requires IsFinite(frac) && !IsZero(frac)
  {
    var t := exp + Exponent(frac);
    && IsNegative(r) == IsNegative(frac)
    && if t > MAX_INT then Abs(r) == 0
       else if t < MIN_INT then Abs(r) == INF
       else IsScaled(Scaled(frac, exp).0, Scaled(frac, exp).1, r)
  }

  /** Scaling is right if and only if the exponents add up without wrapping around. */
  method Ldexp(frac: Bits, exp: Int64) returns (r: Bits)
    ensures IsZero(frac) || !IsFinite(frac) ==> r == frac
    ensures IsFinite(frac) && !IsZero(frac) ==> LdexpResult(frac, exp, r)
    ensures IsFinite(frac) && !IsZero(frac) ==>
              (IsScaled(Scaled(frac, exp).0, Scaled(frac, exp).1, r) <==> FitsInt(exp + Exponent(frac)))
  {
    hide Val, Abs, Pow2, Overflow, IsScaled, Exponent, Wrap64;
    if IsZero(frac) || !IsFinite(frac) {
      return frac;
    }
    var x, s := Normalize(frac);
    ghost var v, g := Val(Abs(frac)), Abs(x);
    FieldReplaced(x, 0);
    ExponentIs(frac, g, s);
    var e := Wrap64(exp - s);
    WrapTwice(exp - s, Field(x) - BIAS);
    e := Wrap64(e + (Field(x) - BIAS));
    WrapEnds(exp - s + Field(x) - BIAS);
    if e < -1074 {
      r := if IsNegative(x) then TWO63 else 0;
      AbsOf(r);
      LdexpOut(frac, g, s, exp, r);
      return;
    }
    if e > 1023 {
      r := if IsNegative(x) then TWO63 + INF else INF;
      AbsOf(r);
      LdexpOut(frac, g, s, exp, r);
      return;
    }
    if e < -1022 {
      FieldReplaced(x, e + 52 + BIAS);
      var y: Bits := WithField(x, e + 52 + BIAS);
      AbsField(e + 52 + BIAS, g);
      r := TimesTiny(y);
      Pow2Of53();
      ScaledIn(v, g, s, exp, 52, y, r);
    } else {
      FieldReplaced(x, e + BIAS);
      r := WithField(x, e + BIAS);
      WholeNearest(Val(Abs(r)));
      ScaledIn(v, g, s, exp, 0, r, r);
    }
  }

  /** Nothing and the infinity are right for a sum out of the range of exponents, and wrong for one that wrapped. */
  lemma LdexpOut(frac: Bits, g: nat, s: nat, exp: Int64, r: Bits)
    requires IsFinite(frac) && !IsZero(frac) && (s == 0 || s == 52)
    requires IsMagnitude(g) && TWO52 <= g && Val(g) == Val(Abs(frac)) * Pow2(s)
    requires IsNegative(r) == IsNegative(frac)
    requires var e := Wrap64(exp - s + g / TWO52 - BIAS); (e < -1074 && Abs(r) == 0) || (e > 1023 && Abs(r) == INF)
    ensures LdexpResult(frac, exp, r)
    ensures IsScaled(Scaled(frac, exp).0, Scaled(frac, exp).1, r) <==> FitsInt(exp + Exponent(frac))
  {
    hide Val, Pow2, Abs, Exponent, Wrap64, Overflow;
    ExponentIs(frac, g, s);
    WrapEnds(exp - s + g / TWO52 - BIAS);
    ScaledRange(Val(Abs(frac)), g, s, exp);
  }

  lemma AbsField(e: nat, g: nat)
    requires 0 < e < MASK
    ensures (e * TWO52 + g % TWO52) / TWO52 == e && IsMagnitude(e * TWO52 + g % TWO52)
  {
  }

  lemma WholeNearest(w: int)
    ensures IsNearest(w, Pow2(0), w)
  {
    Pow2Zero();
  }

  /** The exponent is out of range just when the scaled value is. */
  lemma ScaledRange(v: nat, g: nat, s: nat, exp: int)
    requires IsMagnitude(g) && TWO52 <= g && Val(g) == v * Pow2(s)
    ensures var e, a, b := exp - s + g / TWO52 - BIAS, v * Pow2(Up(exp)), Pow2(Down(exp));
            (a < b <==> e < -1074) && (a >= Overflow() * b <==> e > 1023)
  {
    hide Val, Pow2, Overflow;
    NormalValue(g);
    var up, down := Up(exp), Down(exp);
    ScaledValue(v, g, s, up);
    ScaledBounds(v * Pow2(up), s, Sig(g), g / TWO52 - 1 + up, down);
    ScaledBounds(v * Pow2(up), s, Sig(g), g / TWO52 - 1 + up, 2098 + down);
    OverflowTimes(down);
  }

  /** In range, the new field holds the value times 2^m, which the product with 2^-m rounds. */
  lemma ScaledIn(v: nat, g: nat, s: nat, exp: int, m: nat, y: Bits, r: Bits)
    requires IsMagnitude(g) && TWO52 <= g && Val(g) == v * Pow2(s)
    requires -1074 <= exp - s + g / TWO52 - BIAS <= 1023 && 0 < exp - s + g / TWO52 + m < MASK
    requires Abs(y) == (exp - s + g / TWO52 + m) * TWO52 + g % TWO52
    requires IsFinite(y) && IsFinite(r) && IsNearest(Val(Abs(y)), Pow2(m), Val(Abs(r)))
    ensures IsScaled(v * Pow2(Up(exp)), Pow2(Down(exp)), r)
  {
    hide Val, Pow2, Abs, IsNearest, Overflow;
    ScaledRange(v, g, s, exp);
    var up, down := Up(exp), Down(exp);
    FieldScales(v, g, s, up, down, m, exp - s + g / TWO52 + m);
    SameRatio(Val(Abs(y)), Pow2(m), v * Pow2(up), Pow2(down), Val(Abs(r)));
  }

  /** Scaling up is exact unless it overflows. */
  lemma ScaledByPower(y: Bits, k: nat, z: Bits)
    requires IsFinite(y) && !IsZero(y) && IsScaled(Scaled(y, k).0, Scaled(y, k).1, z)
    requires Val(Abs(y)) * Pow2(k) < Overflow()
    ensures IsFinite(z) && Val(Abs(z)) == Val(Abs(y)) * Pow2(k)
  {
    hide Val, Overflow, Abs, IsScaled, Pow2;
    Pow2Zero();
    ScaledPositive(Abs(y), k);
    ScaledUp(Val(Abs(y)) * Pow2(k), z);
  }

  lemma ScaledUp(a: nat, r: Bits)
    requires 0 < a < Overflow() && IsScaled(a, 1, r)
    ensures IsFinite(r) && Val(Abs(r)) == a
  {
    hide Val, Overflow, Abs;
  }

  /** Ldexp is the inverse of Frexp. */
  method FrexpLdexp(f: Bits) returns (r: Bits)
    ensures r == f
  {
    hide Val, Abs, Pow2, Scales, IsScaled, Exponent;
    var frac, exp := Frexp(f);
    r := Ldexp(frac, exp);
    if IsFinite(f) && !IsZero(f) {
      FractionNotZero(frac);
      SmallExponent(frac);
      Unscaled(f, frac, exp);
      BackAgain(Val(Abs(f)), Scaled(frac, exp).0, Scaled(frac, exp).1, r);
      SameNumber(f, r);
    }
  }

  lemma FractionNotZero(frac: Bits)
    requires HALF_BITS <= Abs(frac) < ONE_BITS
    ensures IsFinite(frac) && !IsZero(frac)
  {
  }

  lemma Unscaled(f: Bits, frac: Bits, exp: int)
    requires IsFinite(f) && IsFinite(frac) && !IsZero(f) && Scales(Abs(f), Abs(frac), exp)
    ensures Scaled(frac, exp).0 == Val(Abs(f)) * Scaled(frac, exp).1 && 0 < Val(Abs(f)) < Overflow()
  {
    hide Val, Abs, Overflow;
    var v, n, up, down := Val(Abs(f)), Val(Abs(frac)), Up(exp), Down(exp);
    ScaledPositive(Abs(f), 0);
    MagnitudeBelow(Abs(f));
    hide Shift;
    AsShift(v, n, exp);
    ShiftShift(v, 1074, down);
    ShiftShift(v, down, 1074);
    ShiftShift(n, exp + 1074, down);
    ShiftShift(n, up, 1074);
    ShiftCancel(Shift(v, down), Shift(n, up), 1074);
    ShiftIs(v, down);
    ShiftIs(n, up);
  }

  lemma ShiftIs(n: int, k: nat)
    ensures Shift(n, k) == n * Pow2(k)
  {
  }

  lemma AsShift(v: int, n: int, exp: int)
    requires exp + 1074 >= 0 && v * Pow2(1074) == n * Pow2(exp + 1074)
    ensures Shift(v, 1074) == Shift(n, exp + 1074)
  {
    hide Pow2;
  }

  lemma BackAgain(v: nat, a: nat, b: nat, r: Bits)
    requires b > 0 && a == v * b && 0 < v < Overflow() && IsScaled(a, b, r)
    ensures IsFinite(r) && Val(Abs(r)) == v
  {
    hide Val, Overflow, Abs, IsNearest;
    Compare(v, Overflow(), b);
    Compare(v, 1, b);
    NearestWhole(v, b, Val(Abs(r)));
  }

  lemma NearestWhole(v: int, b: int, w: int)
    requires b > 0 && IsNearest(v * b, b, w)
    ensures w == v
  {
    if v > w {
      Apart(v, w, b);
    } else if v < w {
      Apart(w, v, b);
    }
  }

  lemma SameNumber(f: Bits, r: Bits)
    requires IsFinite(f) && IsFinite(r) && Val(Abs(f)) == Val(Abs(r)) && IsNegative(f) == IsNegative(r)
    ensures f == r
  {
    hide Val;
    if Abs(f) < Abs(r) {
      ValMono(Abs(f) + 1, Abs(r));
      ValStep(Abs(f));
    } else if Abs(r) < Abs(f) {
      ValMono(Abs(r) + 1, Abs(f));
      ValStep(Abs(r));
    }
    UlpPositive(Abs(f));
    UlpPositive(Abs(r));
  }

  /** The number nearest to a / b units, or an infinity if that is too large. */
  ghost predicate IsRounded(a: nat, b: nat, r: Bits) {
    if a >= Overflow() * b then Abs(r) == INF else IsFinite(r) && IsNearest(a, b, Val(Abs(r)))
  }

  /**
   * The result is the product rounded if and only if the exponents add up without wrapping around and the
   * product is not strictly between a half and one of the least positive number, where nothing is returned.
   */
  lemma LdexpNearest(frac: Bits, exp: Int64, r: Bits)
    requires IsFinite(frac) && !IsZero(frac) && LdexpResult(frac, exp, r)
    ensures var (a, b) := Scaled(frac, exp);
            IsRounded(a, b, r) <==> FitsInt(exp + Exponent(frac)) && !(b < 2 * a && a < b)
  {
    hide Val, Pow2, Overflow, Abs, IsNearest, Exponent;
    var (a, b) := Scaled(frac, exp);
    OverflowLarge(b);
    ExponentRange(frac, exp);
    if a < b {
      NearestNothing(a, b);
      ZeroValue();
    }
  }

  lemma OverflowLarge(b: nat)
    requires b > 0
    ensures Overflow() * b >= b
  {
    MulGrows(b, Overflow());
  }

  /** The scaled value is out of range when the sum of the exponents is. */
  lemma ExponentRange(frac: Bits, exp: int)
    requires IsFinite(frac) && !IsZero(frac)
    ensures var (a, b) := Scaled(frac, exp);
            (a < b <==> exp + Exponent(frac) < -1074) && (a >= Overflow() * b <==> exp + Exponent(frac) > 1023)
  {
    hide Val, Pow2, Overflow, Abs, Exponent;
    var g, s := NormalForm(Abs(frac));
    ExponentIs(frac, g, s);
    ScaledRange(Val(Abs(frac)), g, s, exp);
  }

  lemma NormalForm(a: nat) returns (g: nat, s: nat)
    requires IsMagnitude(a) && a > 0
    ensures IsMagnitude(g) && TWO52 <= g && (s == 0 || s == 52) && Val(g) == Val(a) * Pow2(s)
  {
    if a >= TWO52 {
      Pow2Zero();
      g, s := a, 0;
    } else {
      ScaledSubnormal(a);
      g :| IsMagnitude(g) && Val(g) == a * TWO52;
      s := 52;
      SubnormalUp(a, g);
      Pow2Of53();
    }
  }

  lemma SmallExponent(frac: Bits)
    requires IsFinite(frac) && !IsZero(frac)
    ensures -1075 < Exponent(frac) < 1024
  {
    hide Val, Pow2, Abs, Exponent;
    var g, s := NormalForm(Abs(frac));
    ExponentIs(frac, g, s);
  }

  /** A quarter times the least power: the sum of the exponents wraps, and the result is an infinity. */
  lemma WrapsToInfinity(r: Bits)
    requires IsFinite(QUARTER_BITS) && !IsZero(QUARTER_BITS) && LdexpResult(QUARTER_BITS, MIN_INT, r)
    ensures Abs(r) == INF && Scaled(QUARTER_BITS, MIN_INT).0 < Scaled(QUARTER_BITS, MIN_INT).1
  {
    hide Abs, Pow2, Overflow;
    QuarterExponent();
    ExponentRange(QUARTER_BITS, MIN_INT);
  }

  /** Twice the greatest power: the sum of the exponents wraps, and the result is nothing. */
  lemma WrapsToNothing(r: Bits)
    requires IsFinite(TWO_BITS) && !IsZero(TWO_BITS) && LdexpResult(TWO_BITS, MAX_INT, r)
    ensures Abs(r) == 0 && Scaled(TWO_BITS, MAX_INT).0 >= Overflow() * Scaled(TWO_BITS, MAX_INT).1
  {
    hide Abs, Pow2, Overflow;
    QuarterExponent();
    ExponentRange(TWO_BITS, MAX_INT);
  }

  const QUARTER_BITS: Bits := 0x3FD0_0000_0000_0000
  const TWO_BITS: Bits := 0x4000_0000_0000_0000

  lemma QuarterExponent()
    ensures IsFinite(QUARTER_BITS) && !IsZero(QUARTER_BITS) && Exponent(QUARTER_BITS) == -2
    ensures IsFinite(TWO_BITS) && !IsZero(TWO_BITS) && Exponent(TWO_BITS) == 1
  {
    hide Pow2, Val, Exponent;
    Pow2Zero();
    ExponentIs(QUARTER_BITS, QUARTER_BITS, 0);
    ExponentIs(TWO_BITS, TWO_BITS, 0);
  }

  /** Three quarters times 2^-1074 is such a value. */
  lemma ThreeQuarters()
    ensures var (a, b) := Scaled(0x3FE8_0000_0000_0000, -1074); b < 2 * a && a < b && !IsNearest(a, b, 0)
  {
    hide Pow2;
    var f := 0x3FE8_0000_0000_0000;
    ValOf(1022, 0x8_0000_0000_0000);
    Pow2Of53();
    Pow2Add(52, 1021);
    Pow2Next(1073);
    Pow2Zero();
  }

  lemma ScaledPositive(a: nat, k: nat)
    requires IsMagnitude(a) && a > 0
    ensures Val(a) > 0 && Val(a) * Pow2(k) > 0
  {
    ValMono(1, a);
    assert Val(1) == 1;
    hide Val, Pow2;
    MulLess(0, Val(a), Pow2(k));
  }

  // ----- Mod

  /** Comparing fractions and exponents finds the largest power of two multiple of y that fits into r. */
  lemma PowerFits(Fr: nat, Er: nat, Fy: nat, Ey: nat, H: nat, k: int)
    requires H <= Fr < 2 * H && H <= Fy < 2 * H && Fr * Pow2(Er) >= Fy * Pow2(Ey)
    requires k == if Fr < Fy then Er - 1 - Ey else Er - Ey
    ensures k >= 0
    ensures (Fy * Pow2(Ey)) * Pow2(k) <= Fr * Pow2(Er) < 2 * ((Fy * Pow2(Ey)) * Pow2(k))
  {
    hide Pow2;
    if k < 0 {
      TooSmall(Fr, Er, Fy, Ey, H);
    } else {
      Joined(Fy, Ey, k);
      PowerFitsTo(Fr, Fy, Er, Ey + k, H);
    }
  }

  lemma PowerFitsTo(Fr: nat, Fy: nat, Er: nat, E: nat, H: nat)
    requires H <= Fr < 2 * H && H <= Fy < 2 * H && Er == if Fr < Fy then E + 1 else E
    ensures Fy * Pow2(E) <= Fr * Pow2(Er) < 2 * (Fy * Pow2(E))
  {
    hide Pow2;
    if Fr < Fy {
      Pow2Next(E);
      Between(Fr, Fy, Pow2(E));
    } else {
      MulLeq(Fy, Fr, Pow2(E));
      MulLess(Fr, 2 * Fy, Pow2(E));
      Assoc(2, Fy, Pow2(E));
    }
  }

  lemma Between(a: nat, b: nat, p: nat)
    requires a < b < 2 * a && p > 0
    ensures b * p <= a * (2 * p) < 2 * (b * p)
  {
    Swap(a, 2, p);
    Assoc(a, 2, p);
    Assoc(2, b, p);
    MulLess(b, 2 * a, p);
    MulLess(2 * a, 2 * b, p);
  }

  lemma TooSmall(Fr: nat, Er: nat, Fy: nat, Ey: nat, H: nat)
    requires H <= Fr < 2 * H && H <= Fy < 2 * H && (if Fr < Fy then Er <= Ey else Er < Ey)
    ensures Fr * Pow2(Er) < Fy * Pow2(Ey)
  {
    if Fr < Fy {
      Pow2Mono(Er, Ey);
      hide Pow2;
      MulLess(Fr, Fy, Pow2(Er));
      MulLeq(Pow2(Er), Pow2(Ey), Fy);
    } else {
      Pow2Mono(Er + 1, Ey);
      Pow2Next(Er);
      hide Pow2;
      MulLess(Fr, 2 * Fy, Pow2(Er));
      MulLeq(2 * Pow2(Er), Pow2(Ey), Fy);
      Assoc(Fy, 2, Pow2(Er));
    }
  }

  lemma FracBounds(frac: nat)
    requires HALF_BITS <= frac < ONE_BITS
    ensures Pow2(1073) <= Val(frac) < 2 * Pow2(1073)
  {
    hide Pow2, Val;
    ValOf(BIAS - 1, 0);
    ValOf(BIAS, 0);
    Pow2Of53();
    Pow2Add(52, BIAS - 2);
    Pow2Add(52, BIAS - 1);
    Pow2Next(1073);
    ValMono(HALF_BITS, frac);
    ValMono(frac, ONE_BITS - 1);
    ValStep(ONE_BITS - 1);
    UlpPositive(ONE_BITS - 1);
  }

  lemma ModStep(r: nat, y: nat, rfr: nat, rexp: int, yfr: nat, yexp: int, k: int)
    requires IsMagnitude(r) && IsMagnitude(y) && Val(r) >= Val(y)
    requires HALF_BITS <= rfr < ONE_BITS && HALF_BITS <= yfr < ONE_BITS
    requires Scales(r, rfr, rexp) && Scales(y, yfr, yexp)
    requires k == if Val(rfr) < Val(yfr) then rexp - 1 - yexp else rexp - yexp
    ensures k >= 0 && Val(y) * Pow2(k) <= Val(r) < 2 * (Val(y) * Pow2(k))
  {
    hide Pow2, Val;
    var U := Pow2(1074);
    FracBounds(rfr);
    FracBounds(yfr);
    MulLeq(Val(y), Val(r), U);
    PowerFits(Val(rfr), rexp + 1074, Val(yfr), yexp + 1074, Pow2(1073), k);
    Swap(Val(y), U, Pow2(k));
    Compare(Val(r), Val(y) * Pow2(k), U);
    Assoc(2, Val(y) * Pow2(k), U);
    Compare(2 * (Val(y) * Pow2(k)), Val(r), U);
  }

  lemma Swap(a: int, b: int, c: int)
    ensures (a * b) * c == (a * c) * b
  {
  }

  /** x - trunc(x/y)*y on magnitudes, with the sign of x. */
  ghost predicate IsMod(x: Bits, y: Bits, r: Bits)
    requires IsFinite(x) && IsFinite(y) && !IsZero(y)
  {
    && IsFinite(r) && IsNegative(r) == IsNegative(x)
    && Val(Abs(y)) > 0 && Val(Abs(r)) == Val(Abs(x)) % Val(Abs(y))
  }

  lemma ModMinus(a: int, y: int, k: nat)
    requires y > 0
    ensures (a - y * k) % y == a % y
  {
    var t := (a - y * k) / y;
    assert a == (t + k) * y + (a - y * k) % y;
    Unique(a, y, t + k, (a - y * k) % y);
  }

  lemma ModSmall(a: int, y: int)
    requires 0 <= a < y
    ensures a % y == a
  {
    Unique(a, y, 0, a);
  }

  predicate IsInf(b: Bits) {
    Abs(b) == INF
  }

  function Negate(b: Bits): (r: Bits)
    ensures Abs(r) == Abs(b) && IsNegative(r) != IsNegative(b)
  {
    AbsOf(b);
    if IsNegative(b) then b - TWO63 else b + TWO63
  }

  /** The loop of mod, for magnitudes: every product and difference in it is exact, and the rest falls. */
  method ModLoop(x: Bits, y: Bits) returns (r: Bits)
    requires IsFinite(x) && IsFinite(y) && !IsNegative(x) && !IsNegative(y) && !IsZero(y)
    ensures IsFinite(r) && !IsNegative(r) && Val(Abs(y)) > 0 && Val(Abs(r)) == Val(Abs(x)) % Val(Abs(y))
  {
    hide Val, Abs, Scales, Pow2, Representable, Overflow, Exponent, IsScaled, LdexpResult;
    var yfr, yexp := Frexp(y);
    ScaledPositive(Abs(y), 0);
    ghost var Y := Val(Abs(y));
    r := x;
    while Val(Abs(r)) >= Val(Abs(y))
      invariant IsFinite(r) && !IsNegative(r) && Val(Abs(r)) % Y == Val(Abs(x)) % Y
      decreases Val(Abs(r))
    {
      ZeroValue();
      var rfr, rexp := Frexp(r);
      ghost var k := if Val(Abs(rfr)) < Val(Abs(yfr)) then rexp - 1 - yexp else rexp - yexp;
      ModStep(Abs(r), Abs(y), Abs(rfr), rexp, Abs(yfr), yexp, k);
      if Val(Abs(rfr)) < Val(Abs(yfr)) {
        rexp := rexp - 1;
      }
      MagnitudeBelow(Abs(r));
      var z := Ldexp(y, rexp - yexp);
      SmallExponent(y);
      ScaledByPower(y, k, z);
      Sterbenz(Abs(r), Abs(z));
      ScaledPositive(Abs(y), k);
      ModMinus(Val(Abs(r)), Y, Pow2(k));
      r := ExactResult(Val(Abs(r)) - Val(Abs(z)));
    }
    ModSmall(Val(Abs(r)), Y);
  }

  lemma ZeroValue()
    ensures Val(0) == 0
  {
  }

  method Mod(x: Bits, y: Bits) returns (r: Bits)
    ensures IsZero(y) || IsInf(x) || IsNaN(x) || IsNaN(y) ==> r == NAN
    ensures IsFinite(x) && IsInf(y) ==> r == x
    ensures IsFinite(x) && IsFinite(y) && !IsZero(y) ==> IsMod(x, y, r)
  {
    hide Val, Abs;
    if IsZero(y) || IsInf(x) || IsNaN(x) || IsNaN(y) {
      return NAN;
    }
    var y' := if IsNegative(y) then Negate(y) else y;
    var sign := IsNegative(x) && !IsZero(x);
    r := if sign then Negate(x) else x;
    if IsInf(y') {
      // Frexp(Inf) is (Inf, 0) and no finite r reaches it
    } else if IsZero(r) { // a zero of either sign is below y
      ModZero(Abs(y'));
    } else {
      r := ModLoop(r, y');
    }
    if sign {
      r := Negate(r);
    }
  }

  lemma ModZero(a: nat)
    requires IsMagnitude(a) && a > 0
    ensures Val(a) > 0 && Val(0) == 0 && Val(0) % Val(a) == 0
  {
    ScaledPositive(a, 0);
    hide Val;
    ZeroValue();
    ModSmall(Val(0), Val(a));
  }

  // ----- Remainder

  /** The value nearest x/y among the integers, half way cases going to the even one, gives the remainder. */
  ghost predicate IsNearestRemainder(x: int, y: int, d: int, q: int) {
    && d == x - q * y
    && -Size(y) <= 2 * d <= Size(y)
    && (2 * Size(d) == Size(y) ==> q % 2 == 0)
  }

  function Size(v: int): int {
    if v < 0 then -v else v
  }

  const TINY: nat := 0x0020_0000_0000_0000
  const HALF_MAX: nat := 0x7FDF_FFFF_FFFF_FFFF

  lemma Twice(a: nat)
    requires IsMagnitude(a) && a <= HALF_MAX
    ensures Representable(2 * Val(a))
  {
    var m, k := Significand(a);
    var e := a / TWO52;
    if e == 0 {
      DoubledSmall(a);
    } else {
      hide Pow2;
      ValOf(e + 1, a % TWO52);
      NormalValue(a);
      Pow2Next(e - 1);
      assert Val((e + 1) * TWO52 + a % TWO52) == 2 * Val(a) by { Doubled(Sig(a), Pow2(e - 1)); }
    }
  }

  lemma Doubled(n: int, p: int)
    ensures n * (2 * p) == 2 * (n * p)
  {
  }

  lemma DoubledSmall(a: nat)
    requires a < TWO52
    ensures Val(a) == a && Representable(2 * a)
  {
    Pow2Zero();
    var b := PatternOf(2 * a, 0);
  }

  /** A number of at least Tiny has an exact half. */
  lemma Halved(a: nat)
    requires IsMagnitude(a) && TINY <= a
    ensures Val(a) % 2 == 0 && Representable(Val(a) / 2)
  {
    hide Pow2, Val;
    var e := a / TWO52;
    NormalValue(a);
    Pow2Next(e - 2);
    ValOf(e - 1, a % TWO52);
    Doubled(Sig(a), Pow2(e - 2));
  }

  /** Above HalfMax twice a number is more than any number. */
  lemma TwiceMax(a: nat, b: nat)
    requires IsMagnitude(a) && IsMagnitude(b) && a > HALF_MAX
    ensures Val(b) < 2 * Val(a)
  {
    hide Val, Pow2;
    MagnitudeBelow(b);
    ValMono(HALF_MAX + 1, a);
    ValOf(2046, 0);
    Pow2Of53();
    Pow2Add(52, 2045);
    Pow2Next(2097);
  }

  /** The last step, from a rest below 2y. */
  lemma NearestOf(x: nat, y: nat, r: nat, q: int)
    requires y > 0 && x == q * y + r && q % 2 == 0 && r < 2 * y
    ensures 2 * r <= y ==> IsNearestRemainder(x, y, r, q)
    ensures y < 2 * r < 3 * y ==> IsNearestRemainder(x, y, r - y, q + 1)
    ensures 3 * y <= 2 * r ==> IsNearestRemainder(x, y, r - 2 * y, q + 2)
  {
    Distribute1(q, y);
  }

  lemma Distribute1(q: int, y: int)
    ensures (q + 1) * y == q * y + y && (q + 2) * y == q * y + 2 * y
  {
  }

  lemma EvenQuotient(X: nat, Y: nat) returns (q: int)
    requires Y > 0
    ensures q % 2 == 0 && X == q * Y + X % (2 * Y) && X % (2 * Y) < 2 * Y
  {
    var t := X / (2 * Y);
    q := 2 * t;
    Division(X, 2 * Y);
    Doubled(t, Y);
    Assoc(2, t, Y);
  }

  lemma Division(a: int, b: int)
    requires b > 0
    ensures a == (a / b) * b + a % b && 0 <= a % b < b
  {
  }

  /** Both differences the end of the function takes are exact. */
  lemma FirstDifference(a: nat, b: nat)
    requires IsMagnitude(a) && IsMagnitude(b) && Val(b) <= 2 * Val(a) && Val(a) <= 2 * Val(b)
    ensures Representable(Size(Val(a) - Val(b)))
  {
    hide Val, Representable;
    if Val(a) >= Val(b) {
      Sterbenz(a, b);
    } else {
      Sterbenz(b, a);
    }
  }

  lemma SmallTwice(a: nat, b: nat)
    requires IsMagnitude(a) && b < TINY && Val(a) < 2 * Val(b)
    ensures Representable(2 * Val(a))
  {
    hide Val, Pow2, Representable;
    if a >= TINY + TWO52 {
      ValMono(TINY + TWO52, a);
      ValMono(b, TINY);
      ValOf(2, 0);
      ValOf(3, 0);
      Pow2Next(1);
    } else {
      Twice(a);
    }
  }

  /** What is known of the first operand before the final comparisons: a rest below 2y after an even quotient. */
  ghost predicate Rest(X: nat, a: Bits, b: Bits, q: int) {
    && IsFinite(a) && IsFinite(b) && !IsNegative(b) && SVal(a) >= 0 && SVal(b) > 0
    && q % 2 == 0 && X == q * SVal(b) + SVal(a) && SVal(a) < 2 * SVal(b)
  }

  lemma AbsValue(a: Bits)
    requires IsFinite(a)
    ensures Val(Abs(a)) == Size(SVal(a)) && (!IsNegative(a) ==> SVal(a) == Val(Abs(a)))
  {
  }

  /** The final branch for y < Tiny. */
  method ReduceTiny(a: Bits, b: Bits, ghost X: nat, ghost q: int) returns (r: Bits, ghost p: int)
    requires Rest(X, a, b, q) && b < TINY
    ensures IsFinite(r) && IsNearestRemainder(X, SVal(b), SVal(r), p)
    ensures SVal(r) == 0 ==> IsNegative(r) == IsNegative(a)
  {
    hide Val, Representable, IsNearestRemainder, SVal;
    PositiveSign(a);
    AbsOf(b);
    AbsValue(a);
    AbsValue(b);
    NearestOf(X, SVal(b), SVal(a), q);
    r, p := a, q;
    SmallTwice(Abs(a), b);
    var twice := ExactResult(2 * SVal(r));
    if SVal(twice) > SVal(b) {
      FirstDifference(Abs(a), b);
      r := ExactResult(SVal(r) - SVal(b));
      p := q + 1;
      AbsValue(r);
      SmallTwice(Abs(r), b);
      twice := ExactResult(2 * SVal(r));
      if SVal(twice) >= SVal(b) {
        FirstDifference(Abs(r), b);
        r := ExactResult(SVal(r) - SVal(b));
        p := q + 2;
      }
    }
  }

  /** The final branch for the other y. */
  method ReduceLarge(a: Bits, b: Bits, ghost X: nat, ghost q: int) returns (r: Bits, ghost p: int)
    requires Rest(X, a, b, q) && b >= TINY
    ensures IsFinite(r) && IsNearestRemainder(X, SVal(b), SVal(r), p)
    ensures SVal(r) == 0 ==> IsNegative(r) == IsNegative(a)
  {
    hide Val, Representable, IsNearestRemainder, SVal;
    PositiveSign(a);
    AbsOf(b);
    AbsValue(a);
    AbsValue(b);
    NearestOf(X, SVal(b), SVal(a), q);
    Halved(b);
    r, p := a, q;
    var yHalf := ExactResult(SVal(b) / 2);
    if SVal(r) > SVal(yHalf) {
      FirstDifference(Abs(a), b);
      r := ExactResult(SVal(r) - SVal(b));
      p := q + 1;
      AbsValue(r);
      if SVal(r) >= SVal(yHalf) {
        FirstDifference(Abs(r), b);
        r := ExactResult(SVal(r) - SVal(b));
        p := q + 2;
      }
    }
  }

  /** `Mod(x, y+y)` where that does not overflow. */
  method RestBelowTwice(a: Bits, b: Bits) returns (r: Bits, ghost q: int)
    requires IsFinite(a) && IsFinite(b) && !IsNegative(b) && !IsZero(b) && SVal(a) >= 0
    ensures Rest(SVal(a), r, b, q)
    ensures IsNegative(r) == IsNegative(a)
  {
    hide Val, Representable, SVal, IsMod;
    AbsOf(b);
    AbsValue(a);
    AbsValue(b);
    ScaledPositive(b, 0);
    if b <= HALF_MAX {
      Twice(b);
      var bb := ExactResult(2 * SVal(b));
      AbsValue(bb);
      ZeroValue();
      r := Mod(a, bb);
      ModFacts(a, bb, r);
      q := EvenQuotient(SVal(a), SVal(b));
    } else {
      TwiceMax(b, Abs(a));
      r, q := a, 0;
    }
  }

  lemma ModFacts(a: Bits, b: Bits, r: Bits)
    requires IsFinite(a) && IsFinite(b) && !IsZero(b) && SVal(a) >= 0 && SVal(b) > 0 && IsMod(a, b, r)
    ensures IsFinite(r) && SVal(r) == SVal(a) % SVal(b) && IsNegative(r) == IsNegative(a)
  {
    AbsOf(a);
    if IsNegative(a) {
      NegativeZero(a);
      ModSmall(0, SVal(b));
    }
  }

  lemma NegativeZero(a: Bits)
    requires IsFinite(a) && IsNegative(a) && SVal(a) >= 0
    ensures SVal(a) == 0 && Val(Abs(a)) == 0
  {
  }

  method Remainder(x: Bits, y: Bits) returns (r: Bits)
    ensures IsZero(y) || IsInf(x) || IsNaN(x) || IsNaN(y) ==> r == NAN
    ensures IsFinite(x) && IsInf(y) ==> r == x
    ensures IsFinite(x) && IsFinite(y) && !IsZero(y) ==>
              IsFinite(r) && exists q :: IsNearestRemainder(SVal(x), SVal(y), SVal(r), q)
    ensures IsFinite(x) && IsFinite(y) && !IsZero(y) && SVal(r) == 0 ==>
              (IsNegative(r) == IsNegative(x) <==> !(IsNegative(x) && Abs(x) == Abs(y)))
  {
    hide Val, IsNearestRemainder, Rest, SVal;
    if IsNaN(x) || IsNaN(y) || IsInf(x) || IsZero(y) {
      return NAN;
    }
    if IsInf(y) {
      return x;
    }
    AbsValue(x);
    AbsValue(y);
    ScaledPositive(Abs(y), 0);
    var sign := IsNegative(x) && !IsZero(x);
    var a := if sign then Negate(x) else x;
    var b := if IsNegative(y) then Negate(y) else y;
    SignedPair(x, a);
    SignedPair(y, b);
    ZeroSign(x, y, a, b);
    if a == b {
      ZeroBits();
      EqualNearest(SVal(x), SVal(y));
      return 0;
    }
    var c, q := RestBelowTwice(a, b);
    var d: Bits;
    ghost var p: int;
    if b < TINY {
      d, p := ReduceTiny(c, b, SVal(a), q);
    } else {
      d, p := ReduceLarge(c, b, SVal(a), q);
    }
    r := if sign then Negate(d) else d;
    NegatedValue(d);
    SignOf(x);
    FlipNearest(SVal(x), SVal(y), SVal(a), SVal(b), SVal(d), p, SVal(r));
  }

  /** Minus one by one: the remainder is zero without the sign of x. */
  method MinusOne() returns (r: Bits)
    ensures r == 0
  {
    hide SVal, IsNearestRemainder, Val;
    var x, y: Bits := TWO63 + ONE_BITS, ONE_BITS;
    r := Remainder(x, y);
    AbsOf(x);
    AbsOf(y);
    AbsOf(r);
    AbsValue(x);
    AbsValue(y);
    SignOf(x);
    SignOf(r);
    Positive(ONE_BITS);
    WholeRest(SVal(x), SVal(y), SVal(r));
    NotZeroValue(r);
  }

  lemma WholeRest(x: int, v: int, d: int)
    requires v > 0 && x == -v && exists q :: IsNearestRemainder(x, v, d, q)
    ensures d == 0
  {
    var q :| IsNearestRemainder(x, v, d, q);
    assert d == (-1 - q) * v;
    if q > -1 {
      Apart(0, -1 - q, v);
    } else if q < -1 {
      Apart(-1 - q, 0, v);
    }
  }

  lemma NotZeroValue(r: Bits)
    requires IsFinite(r) && SVal(r) == 0
    ensures Abs(r) == 0
  {
    if Abs(r) > 0 {
      Positive(Abs(r));
    }
  }

  /** Dropping the sign of a negative number, or keeping the number. */
  lemma SignedPair(x: Bits, a: Bits)
    requires IsFinite(x) && Abs(a) == Abs(x) && (IsZero(x) || !IsNegative(a))
    ensures IsFinite(a) && SVal(a) == Size(SVal(x))
  {
    if IsZero(x) {
      ZeroValue();
    }
  }

  lemma PositiveSign(a: Bits)
    requires IsFinite(a)
    ensures SVal(a) > 0 ==> !IsNegative(a)
  {
  }

  /** A result of zero has the sign of x, but for the zero that is returned when the magnitudes are equal. */
  lemma ZeroSign(x: Bits, y: Bits, a: Bits, b: Bits)
    requires Abs(a) == Abs(x) && Abs(b) == Abs(y) && !IsNegative(b) && !IsZero(y)
    requires if IsNegative(x) && !IsZero(x) then !IsNegative(a) else a == x
    ensures IsNegative(x) ==> (a == b <==> Abs(x) == Abs(y))
    ensures IsNegative(a) == (IsNegative(x) && IsZero(x))
  {
    AbsOf(a);
    AbsOf(b);
  }

  lemma SignOf(x: Bits)
    requires IsFinite(x)
    ensures SVal(x) < 0 <==> IsNegative(x) && !IsZero(x)
  {
    if IsZero(x) {
      ZeroValue();
    } else {
      ScaledPositive(Abs(x), 0);
    }
  }

  lemma ZeroBits()
    ensures Abs(0) == 0 && IsFinite(0) && SVal(0) == 0
  {
  }

  lemma EqualNearest(x: int, y: int)
    requires Size(x) == Size(y) > 0
    ensures exists q :: IsNearestRemainder(x, y, 0, q)
  {
    var q := if x == y then 1 else -1;
    assert IsNearestRemainder(x, y, 0, q);
  }

  lemma NegatedValue(d: Bits)
    requires IsFinite(d)
    ensures IsFinite(Negate(d)) && SVal(Negate(d)) == -SVal(d)
  {
  }

  /** The remainder of the magnitudes with the sign of x is that of x and y. */
  lemma FlipNearest(x: int, y: int, X: int, Y: int, d: int, p: int, r: int)
    requires X == Size(x) && Y == Size(y) && r == (if x < 0 then -d else d) && IsNearestRemainder(X, Y, d, p)
    ensures exists q :: IsNearestRemainder(x, y, r, q)
  {
    var q := if (x < 0) == (y < 0) then p else -p;
    assert q * y == if x < 0 then -(p * Y) else p * Y;
    assert IsNearestRemainder(x, y, r, q);
  }
}
