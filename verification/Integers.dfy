/** Small facts of multiplication and division. */
module Integers {

  function Min(a: int, b: int): int {
    if a <= b then a else b
  }

  lemma MulLess(a: nat, b: nat, c: nat)
    requires a < b && c > 0
    ensures a * c < b * c
  {
  }

  lemma MulLeq(a: nat, b: nat, c: nat)
    requires a <= b
    ensures a * c <= b * c
  {
  }

  lemma Apart(t: int, t': int, b: int)
    requires t > t' && b > 0
    ensures t * b >= t' * b + b
  {
    assert t * b == t' * b + (t - t') * b;
    assert (t - t') * b == b + (t - t' - 1) * b;
  }

  lemma OneQuotient(b: int, t: int, r: int, t': int, r': int)
    requires t * b + r == t' * b + r' && 0 <= r < b && 0 <= r' < b
    ensures t == t' && r == r'
  {
    if t > t' {
      Apart(t, t', b);
    } else if t < t' {
      Apart(t', t, b);
    }
  }

  lemma Unique(a: int, b: int, t: int, r: int)
    requires b > 0 && a == t * b + r && 0 <= r < b
    ensures a / b == t && a % b == r
  {
    OneQuotient(b, t, r, a / b, a % b);
  }

  lemma Assoc(a: int, b: int, c: int)
    ensures (a * b) * c == a * (b * c)
  {
  }

  lemma Compare(r: int, H: int, P: int)
    requires P > 0
    ensures r * P >= H * P <==> r >= H
    ensures r * P == H * P <==> r == H
  {
    if r > H {
      Apart(r, H, P);
    } else if r < H {
      Apart(H, r, P);
    }
  }

  lemma Distribute(a: int, b: int, c: int)
    ensures (a + b) * c == a * c + b * c
  {
  }
}
