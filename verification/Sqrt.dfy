/** The digit-by-digit square root. */
module Sqrt {
  import opened Floats
  import opened Integers

  ghost predicate IsFloorRoot(q: nat, m: nat) {
    q * q <= m < (q + 1) * (q + 1)
  }

  predicate IsExactRoot(q: nat, m: nat) {
    q * q == m
  }

  lemma TakeDigit(m: nat, q: nat, ix: nat, r: nat)
    requires ix * r == m - q * q && 2 * q + r <= ix
    ensures (2 * (ix - (2 * q + r))) * r == 2 * (m - (q + r) * (q + r))
    ensures (q + r) * (q + r) <= m
  {
    var t := 2 * q + r;
    calc {
      m - (q + r) * (q + r);
      m - q * q - t * r;
      ix * r - t * r;
      (ix - t) * r;
    }
  }

  lemma SkipDigit(m: nat, q: nat, ix: nat, r: nat)
    requires ix * r == m - q * q && 2 * q + r > ix && r > 0
    ensures (2 * ix) * r == 2 * (m - q * q)
    ensures (q + r) * (q + r) > m
  {
    var t := 2 * q + r;
    assert ix * r < t * r by { MulLess(ix, t, r); }
    assert t * r == (q + r) * (q + r) - q * q;
  }

  /** The remainder stays small enough that no shift loses a bit. */
  lemma RemainderBound(m: nat, q: nat, ix: nat, R: nat)
    requires R > 0 && ix * R == 2 * (m - q * q) && m < (q + R) * (q + R)
    ensures ix < 4 * q + 2 * R
  {
    assert (q + R) * (q + R) - q * q == (2 * q + R) * R;
    assert (4 * q + 2 * R) * R == 2 * ((2 * q + R) * R);
    if ix >= 4 * q + 2 * R {
      MulLeq(4 * q + 2 * R, ix, R);
    }
  }

  // uint64 arithmetic

  /** A sum that wraps around; exact while it fits. */
  function Add64(a: nat, b: nat): (r: nat)
    ensures r < TWO64 && (a + b < TWO64 ==> r == a + b)
  {
    (a + b) % TWO64
  }

  /** A shift by one that drops the top bit; exact while it fits. */
  function Shl64(a: nat): (r: nat)
    ensures r < TWO64 && (2 * a < TWO64 ==> r == 2 * a)
  {
    (2 * a) % TWO64
  }

  lemma RootAtLeast(q: nat, n0: nat)
    requires TWO53 <= n0 && n0 * TWO53 < (q + 1) * (q + 1)
    ensures TWO53 <= q
  {
    MulLeq(TWO53, n0, TWO53);
    if q + 1 <= TWO53 {
      SquareMono(q + 1, TWO53);
    }
  }

  /** With digits of weight less than 2^k to come: twice the root so far, and the scaled remainder. */
  ghost predicate DigitInv(m: nat, q: nat, s: nat, ix: nat, k: nat) {
    && s == 2 * q && ix * Pow2(k) == 2 * (m - q * q)
    && q * q <= m < (q + Pow2(k)) * (q + Pow2(k))
    && q + Pow2(k) <= 2 * TWO53
  }

  lemma DigitStep(m: nat, q: nat, s: nat, ix: nat, k: nat)
    requires DigitInv(m, q, s, ix, k) && k > 0
    ensures ix < 8 * TWO53 && s + Pow2(k) <= 4 * TWO53
    ensures Pow2(k) == 2 * Pow2(k - 1) && Pow2(k - 1) / 2 == if k == 1 then 0 else Pow2(k - 2)
    ensures s + Pow2(k - 1) <= ix ==> DigitInv(m, q + Pow2(k - 1), s + Pow2(k), 2 * (ix - (s + Pow2(k - 1))), k - 1)
    ensures s + Pow2(k - 1) > ix ==> DigitInv(m, q, s, 2 * ix, k - 1)
  {
    var r := Pow2(k - 1);
    RemainderBound(m, q, ix, Pow2(k));
    HalfRemainder(ix, r, m - q * q);
    if s + r <= ix {
      TakeDigit(m, q, ix, r);
    } else {
      SkipDigit(m, q, ix, r);
    }
  }

  /** The loop over the moving bit `r`. It never loses a bit and ends with the floor of the root of n0 * 2^53. */
  method Digits(n0: nat) returns (q: nat, ix: nat)
    requires TWO53 <= n0 < 4 * TWO53
    ensures IsFloorRoot(q, n0 * TWO53)
    ensures ix == 0 <==> IsExactRoot(q, n0 * TWO53)
    ensures TWO53 <= q < 2 * TWO53
  {
    ghost var k: nat, m := 54, n0 * TWO53;
    Pow2Of53();
    ix, q := n0, 0;
    var s, r := 0, TWO53;
    DigitsBegin(n0);
    hide DigitInv, Pow2, IsFloorRoot, IsExactRoot, Add64, Shl64;
    while r != 0
      invariant k <= 54 && r == if k == 0 then 0 else Pow2(k - 1)
      invariant DigitInv(m, q, s, ix, k)
      decreases k
    {
      DigitStep(m, q, s, ix, k);
      var t := Add64(s, r);
      if t <= ix {
        s := Add64(t, r);
        ix := ix - t;
        q := Add64(q, r);
      }
      ix := Shl64(ix);
      r := r / 2;
      k := k - 1;
    }
    DigitsEnd(n0, q, s, ix);
  }

  lemma DigitsBegin(n0: nat)
    requires TWO53 <= n0 < 4 * TWO53
    ensures DigitInv(n0 * TWO53, 0, 0, n0, 54)
  {
    Pow2Of53();
    MulLess(n0, 4 * TWO53, TWO53);
  }

  lemma DigitsEnd(n0: nat, q: nat, s: nat, ix: nat)
    requires TWO53 <= n0 && DigitInv(n0 * TWO53, q, s, ix, 0)
    ensures IsFloorRoot(q, n0 * TWO53) && TWO53 <= q < 2 * TWO53
    ensures ix == 0 <==> IsExactRoot(q, n0 * TWO53)
  {
    RootAtLeast(q, n0);
  }

  lemma HalfRemainder(ix: nat, r: nat, d: int)
    requires ix * (2 * r) == 2 * d
    ensures ix * r == d
  {
    assert ix * (2 * r) == 2 * (ix * r);
  }

  /** The last bit rounds to the nearest integer; half of the root is never half way between two. */
  lemma RoundedRoot(q: nat, m: nat, Q: nat, k: nat)
    requires IsFloorRoot(q, m) && m % 2 == 0 && Q == (if IsExactRoot(q, m) then q else q + q % 2) / 2
    ensures k < Q ==> (k + Q) * (k + Q) < m
    ensures k > Q ==> (k + Q) * (k + Q) > m
  {
    OddSquare(q);
    if k < Q {
      SquareMono(k + Q, if q * q == m || q % 2 == 0 then q - 1 else q);
      assert q > 0 ==> (q - 1) * (q - 1) < q * q;
    } else if k > Q {
      SquareMono(q + 1, k + Q);
    }
  }

  lemma TwiceParity(x: nat, y: nat, o: nat)
    requires x == 2 * y + o && o < 2
    ensures x % 2 == o
  {
  }

  lemma OddSquare(q: nat)
    ensures (q * q) % 2 == q % 2
  {
    var h := q / 2;
    var p := h * q;
    if q % 2 == 0 {
      TwiceParity(q * q, p, 0) by { assert (2 * h) * q == 2 * p; }
    } else {
      TwiceParity(q * q, p + h, 1) by { assert (2 * h + 1) * q == 2 * p + q; }
    }
  }

  lemma SquareMono(a: nat, b: nat)
    requires a <= b
    ensures a * a <= b * b
  {
    MulLeq(a, b, a);
    MulLeq(a, b, b);
  }

  // ----- The whole function

  /** Four times the square of the exact root of `x`, in the unit of Val. */
  ghost function FourSquare(x: nat): nat
    requires IsMagnitude(x)
  {
    4 * Val(x) * Pow2(1074)
  }

  /** The exact root of `x` lies strictly nearer to `y` than to any other finite number: it is on the side of `y` of
      every midpoint, and on no midpoint. */
  ghost predicate IsNearestRoot(x: nat, y: nat)
    requires IsMagnitude(x)
  {
    && IsMagnitude(y)
    && (forall z :: 0 <= z < y ==> Square(Val(z) + Val(y)) < FourSquare(x))
    && (forall z :: y < z && IsMagnitude(z) ==> Square(Val(z) + Val(y)) > FourSquare(x))
  }

  function Square(a: nat): nat {
    a * a
  }

  lemma ScaledSquare(a: nat, p: nat)
    ensures Square(a * p) == a * a * (p * p)
  {
    assert (a * p) * (a * p) == (a * a) * (p * p);
  }

  lemma SquareLess(a: nat, b: nat)
    requires a < b
    ensures Square(a) < Square(b)
  {
    SquareMono(a, b);
    assert b * b - a * a == (b - a) * (b + a);
  }

  /** The pattern made of the significand `Q` and the exponent field `E + 1`. */
  lemma RootPattern(Q: nat, E: nat)
    requires TWO52 <= Q < TWO53 && E < 2045
    ensures var y := Q + E * TWO52; IsMagnitude(y) && Val(y) == Q * Pow2(E) && Ulp(y) == Pow2(E)
  {
    hide Val, Ulp, Pow2;
    ValOf(E + 1, Q - TWO52);
  }

  lemma SquareLeq(a: nat, b: nat)
    requires a <= b
    ensures Square(a) <= Square(b)
  {
    SquareMono(a, b);
  }

  /** Scaling by `p`: a value at most (Q-1)p is below the root when the midpoint of Q-1 and Q is. */
  lemma ScaledBelow(v: nat, Q: nat, p: nat, m: nat)
    requires Q > 0 && p > 0 && v <= (Q - 1) * p && Square(2 * Q - 1) < m
    ensures Square(v + Q * p) < m * (p * p)
  {
    Distribute(Q - 1, Q, p);
    SquareLeq(v + Q * p, (2 * Q - 1) * p);
    ScaledSquare(2 * Q - 1, p);
    MulLess(Square(2 * Q - 1), m, p * p);
  }

  lemma ScaledBelowPower(v: nat, Q: nat, p: nat, m: nat)
    requires p > 0 && v < Q * p && Square(2 * Q) <= m
    ensures Square(v + Q * p) < m * (p * p)
  {
    Distribute(Q, Q, p);
    SquareLess(v + Q * p, (2 * Q) * p);
    ScaledSquare(2 * Q, p);
    MulLeq(Square(2 * Q), m, p * p);
  }

  lemma ScaledAbove(v: nat, Q: nat, p: nat, m: nat)
    requires p > 0 && v >= (Q + 1) * p && Square(2 * Q + 1) > m
    ensures Square(v + Q * p) > m * (p * p)
  {
    Distribute(Q + 1, Q, p);
    SquareLeq((2 * Q + 1) * p, v + Q * p);
    ScaledSquare(2 * Q + 1, p);
    MulLess(m, Square(2 * Q + 1), p * p);
  }

  lemma BelowValue(Q: nat, E: nat, z: nat)
    requires TWO52 <= Q < TWO53 && E < 2045 && z < Q + E * TWO52
    ensures IsMagnitude(z) && Val(z) < Q * Pow2(E) && (Q > TWO52 ==> Val(z) <= (Q - 1) * Pow2(E))
  {
    hide Val, Ulp, Pow2;
    var y := Q + E * TWO52;
    RootPattern(Q, E);
    ValMono(z, y - 1);
    ValStep(y - 1);
    UlpPositive(y - 1);
    if Q > TWO52 {
      RootPattern(Q - 1, E);
    }
  }

  lemma AboveValue(Q: nat, E: nat, z: nat)
    requires TWO52 <= Q < TWO53 && E < 2045 && z > Q + E * TWO52 && IsMagnitude(z)
    ensures Val(z) >= (Q + 1) * Pow2(E)
  {
    hide Val, Ulp, Pow2;
    var y := Q + E * TWO52;
    RootPattern(Q, E);
    ValStep(y);
    ValMono(y + 1, z);
    Distribute(Q, 1, Pow2(E));
  }

  /** A significand that rounds the scaled root makes the nearest number. */
  lemma NearestPattern(x: nat, q: nat, m: nat, Q: nat, E: nat)
    requires IsMagnitude(x) && IsFloorRoot(q, m) && m % 2 == 0 && Square(TWO53) <= m
    requires Q == (if IsExactRoot(q, m) then q else q + q % 2) / 2 && TWO52 <= Q < TWO53 && E < 2045
    requires FourSquare(x) == m * (Pow2(E) * Pow2(E))
    ensures IsNearestRoot(x, Q + E * TWO52)
  {
    hide Val, Ulp, Pow2, FourSquare, IsFloorRoot, IsExactRoot;
    var y, p := Q + E * TWO52, Pow2(E);
    RootPattern(Q, E);
    RoundedRoot(q, m, Q, Q - 1);
    RoundedRoot(q, m, Q, Q + 1);
    forall z | 0 <= z < y
      ensures Square(Val(z) + Val(y)) < FourSquare(x)
    {
      BelowValue(Q, E, z);
      if Q == TWO52 {
        ScaledBelowPower(Val(z), Q, p, m);
      } else {
        ScaledBelow(Val(z), Q, p, m);
      }
    }
    forall z | y < z && IsMagnitude(z)
      ensures Square(Val(z) + Val(y)) > FourSquare(x)
    {
      AboveValue(Q, E, z);
      ScaledAbove(Val(z), Q, p, m);
    }
  }

  lemma RootTop(q: nat, n0: nat)
    requires n0 <= 4 * TWO53 - 4 && IsFloorRoot(q, n0 * TWO53)
    ensures q <= 2 * TWO53 - 2
  {
    MulLeq(n0, 4 * TWO53 - 4, TWO53);
    var c: nat := 2 * TWO53 - 1;
    if q >= c {
      SquareMono(c, q);
    }
  }

  /** `x` is n * 2^(e - 52) with a significand of 53 bits. */
  ghost predicate Normalized(x: nat, n: nat, e: int)
    requires IsMagnitude(x)
  {
    && TWO52 <= n < TWO53 && -1074 <= e <= 1023
    && FourSquare(x) == n * Pow2(e + 2098)
  }

  lemma NormalNormalized(x: nat, n: nat, e: int)
    requires IsMagnitude(x) && TWO52 <= x && n == TWO52 + x % TWO52 && e == x / TWO52 - BIAS
    ensures Normalized(x, n, e)
  {
    var f := x / TWO52;
    ScaleUp(n, f - 1, 1074, FourSquare(x)) by { assert Val(x) == n * Pow2(f - 1); }
  }

  lemma ScaleUp(n: nat, a: nat, b: nat, r: nat)
    requires r == 4 * (n * Pow2(a)) * Pow2(b)
    ensures r == n * Pow2(a + b + 2)
  {
    Pow2Add(a, b);
    assert Pow2(a + b + 2) == 4 * Pow2(a + b);
    assert 4 * (n * Pow2(a)) * Pow2(b) == n * (4 * (Pow2(a) * Pow2(b)));
  }

  lemma SubnormalNormalized(x: nat, n: nat, k: nat)
    requires 0 < x < TWO52 && n == x * Pow2(k) && TWO52 <= n < TWO53 && k <= 52
    ensures Normalized(x, n, -1022 - k)
  {
    hide Pow2;
    Pow2Zero();
    ScaleUp(x, 0, 1074, FourSquare(x)) by { assert Val(x) == x; }
    Pow2Add(k, 1076 - k);
    assert n * Pow2(1076 - k) == x * (Pow2(k) * Pow2(1076 - k));
  }

  /** Doubling an odd-exponent significand and once more for the extra bit leaves an even power of two. */
  lemma EvenPower(n: nat, o: nat, E: nat, n0: nat)
    requires o < 2 && n0 == if o == 1 then 4 * n else 2 * n
    ensures n * Pow2(54 + o + 2 * E) == (n0 * TWO53) * (Pow2(E) * Pow2(E))
  {
    hide Pow2;
    Pow2Add(54 + o, 2 * E);
    Pow2Add(E, E);
    PowerAbove53(o);
    Regrouped(n, Pow2(54 + o), Pow2(E) * Pow2(E), n0 * TWO53);
  }

  lemma PowerAbove53(o: nat)
    requires o < 2
    ensures Pow2(54 + o) == if o == 1 then 4 * TWO53 else 2 * TWO53
  {
    Pow2Of53();
  }

  lemma Regrouped(n: int, r: int, p: int, m: int)
    requires n * r == m
    ensures n * (r * p) == m * p
  {
    Assoc(n, r, p);
  }

  lemma EvenTimes(n0: nat)
    requires n0 % 2 == 0
    ensures (n0 * TWO53) % 2 == 0
  {
    TwiceParity(n0 * TWO53, n0 * TWO52, 0);
  }

  lemma EncodeRoot(x: nat, n: nat, e: int, n0: nat, q: nat, Q: nat)
    requires IsMagnitude(x) && Normalized(x, n, e) && n0 == (if e % 2 == 1 then 4 * n else 2 * n)
    requires IsFloorRoot(q, n0 * TWO53) && TWO53 <= q
    requires Q == (if IsExactRoot(q, n0 * TWO53) then q else q + q % 2) / 2
    ensures 0 <= e / 2 + 1022 < 2045 && IsNearestRoot(x, Q + (e / 2 + 1022) * TWO52)
    ensures Q < TWO53 && Q + (e / 2 + 1022) * TWO52 < INF
  {
    hide FourSquare, IsNearestRoot, Pow2, IsFloorRoot, IsExactRoot;
    NormalizedRange(x, n, e);
    HalfExponent(e);
    var E := e / 2 + 1022;
    EvenPower(n, e % 2, E, n0);
    EvenTimes(n0);
    RootTop(q, n0);
    MulLeq(TWO53, n0, TWO53);
    NearestPattern(x, q, n0 * TWO53, Q, E);
  }

  lemma HalfExponent(e: int)
    requires -1074 <= e <= 1023
    ensures 0 <= e / 2 + 1022 < 2045 && e + 2098 == 54 + e % 2 + 2 * (e / 2 + 1022)
  {
  }

  lemma NormalizedRange(x: nat, n: nat, e: int)
    requires IsMagnitude(x) && Normalized(x, n, e)
    ensures TWO52 <= n < TWO53 && -1074 <= e <= 1023
  {
  }

  lemma ShiftsBound(x: nat, k: nat)
    requires x > 0 && x * Pow2(k) < TWO52
    ensures k < 52
  {
    Pow2Of53();
    MulLeq(1, x, Pow2(k));
    if k >= 52 {
      Pow2Mono(52, k);
    }
  }

  /** The loop that shifts a subnormal number until bit 52 is set. */
  method NormalizeSubnormal(x: nat) returns (ix: nat, k: nat)
    requires 0 < x < TWO52
    ensures ix == x * Pow2(k) && TWO52 <= ix < TWO53 && k <= 52
  {
    Pow2Zero();
    hide Pow2, Shl64;
    ix, k := x, 0;
    while (ix / TWO52) % 2 == 0
      invariant ix == x * Pow2(k) && 0 < ix < TWO53 && k <= 52
      decreases TWO53 - ix
    {
      ShiftsBound(x, k);
      ShiftedOnce(x, k);
      ix := Shl64(ix);
      k := k + 1;
    }
  }

  lemma ShiftedOnce(x: nat, k: nat)
    ensures x * Pow2(k + 1) == 2 * (x * Pow2(k))
  {
  }

  /** The exponent field and the rest of a pattern without a sign. */
  lemma FieldIs(x: nat)
    requires x < INF
    ensures (x / TWO52) % 2048 == x / TWO52 && x - x / TWO52 * TWO52 == x % TWO52
    ensures x < TWO52 <==> x / TWO52 == 0
    ensures TWO52 <= x < TWO53 ==> x / TWO52 == 1
  {
  }

  /** The significand and the exponent of a positive number: the normalisation before the digit loop. */
  method Normalize(x: nat) returns (ix: nat, exp: int)
    requires 0 < x < INF
    ensures Normalized(x, ix, exp)
  {
    hide Pow2, Normalized, FourSquare;
    FieldIs(x);
    ix, exp := x, (x / TWO52) % 2048;
    if exp == 0 {
      var k: nat;
      ix, k := NormalizeSubnormal(x);
      FieldIs(ix);
      SubnormalNormalized(x, ix, k);
      exp := 1 - k;
    } else {
      NormalNormalized(x, TWO52 + x % TWO52, exp - BIAS);
    }
    exp := exp - BIAS;
    ix := ix - ((ix / TWO52) % 2048) * TWO52;
    ix := ix + TWO52; // bit 52 is clear
  }

  /** The square root of a float64, special cases and subnormal numbers included. */
  method SqrtBits(x: Bits) returns (y: Bits)
    ensures IsZero(x) || IsNaN(x) || x == INF ==> y == x
    ensures IsNegative(x) && !IsZero(x) && !IsNaN(x) ==> y == NAN
    ensures 0 < x < INF ==> IsNearestRoot(x, y)
  {
    hide IsNearestRoot, IsFloorRoot, IsExactRoot, Normalized, Shl64, Add64;
    if IsZero(x) || IsNaN(x) || x == INF {
      return x;
    }
    if IsNegative(x) {
      return NAN;
    }
    var ix, exp := Normalize(x);
    NormalizedRange(x, ix, exp);
    ghost var n, e := ix, exp;
    if exp % 2 == 1 {
      ix := Shl64(ix);
    }
    exp := exp / 2;
    ix := Shl64(ix);
    var q, rest := Digits(ix);
    EncodeRoot(x, n, e, ix, q, (if IsExactRoot(q, ix * TWO53) then q else q + q % 2) / 2);
    if rest != 0 {
      q := Add64(q, q % 2);
    }
    y := q / 2 + (exp - 1 + BIAS) * TWO52;
  }
}
