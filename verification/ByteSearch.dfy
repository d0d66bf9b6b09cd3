/** Searching for a byte string: brute force, byte skipping and Rabin-Karp. */
module ByteSearch {
  import opened Utf8
  import Integers

  // ----- What a search is for

  predicate MatchAt(s: Bytes, sep: Bytes, i: int) {
    0 <= i && i + |sep| <= |s| && s[i..i + |sep|] == sep
  }

  /** `r` is the least match, or -1 where there is none. */
  ghost predicate IsIndex(s: Bytes, sep: Bytes, r: int) {
    && (r == -1 || MatchAt(s, sep, r))
    && forall i :: 0 <= i && (r == -1 || i < r) ==> !MatchAt(s, sep, i)
  }

  /** The first place where `pat` occurs, or -1. */
  function Find(s: Bytes, pat: Bytes): (r: int)
    ensures -1 <= r && (r >= 0 ==> r + |pat| <= |s| && s[r..r + |pat|] == pat)
  {
    if pat <= s then 0
    else if s == [] then -1
    else
      var r := Find(s[1..], pat);
      if r < 0 then -1 else r + 1
  }

  lemma MatchShift(s: Bytes, sep: Bytes, k: nat, i: nat)
    requires k <= |s|
    ensures MatchAt(s[k..], sep, i) <==> MatchAt(s, sep, k + i)
  {
    if i + |sep| <= |s| - k {
      assert s[k..][i..i + |sep|] == s[k + i..k + i + |sep|];
    }
  }

  /** Find is the least match, and the only one. */
  lemma {:induction false} FindIsIndex(s: Bytes, sep: Bytes)
    ensures IsIndex(s, sep, Find(s, sep))
  {
    if sep <= s {
      assert s[0..|sep|] == sep;
    } else if s == [] {
      assert !MatchAt(s, sep, 0);
    } else {
      FindIsIndex(s[1..], sep);
      var r := Find(s[1..], sep);
      assert !MatchAt(s, sep, 0) by {
        if |sep| <= |s| {
          assert s[0..|sep|] == s[..|sep|];
        }
      }
      forall i | 1 <= i && (r == -1 || i < r + 1)
        ensures !MatchAt(s, sep, i)
      {
        MatchShift(s, sep, 1, i - 1);
      }
      if r >= 0 {
        MatchShift(s, sep, 1, r);
      }
    }
  }

  lemma NoneBefore(s: Bytes, sep: Bytes)
    requires sep != [] && Find(s, sep) >= 0
    ensures Find(s[..Find(s, sep)], sep) == -1
  {
    hide Find;
    var m := Find(s, sep);
    FindIsIndex(s, sep);
    forall i | 0 <= i
      ensures !MatchAt(s[..m], sep, i)
    {
      if i + |sep| <= m {
        assert s[..m][i..i + |sep|] == s[i..i + |sep|];
        assert !MatchAt(s, sep, i);
      }
    }
    IndexUnique(s[..m], sep, -1);
  }

  lemma IndexUnique(s: Bytes, sep: Bytes, r: int)
    requires IsIndex(s, sep, r)
    ensures r == Find(s, sep)
  {
    hide Find;
    FindIsIndex(s, sep);
  }

  /** A search that starts at `k`, where nothing matches before. */
  lemma IndexFrom(s: Bytes, sep: Bytes, k: nat, r: int)
    requires k <= |s| && IsIndex(s[k..], sep, r)
    requires forall i :: 0 <= i < k ==> !MatchAt(s, sep, i)
    ensures IsIndex(s, sep, if r < 0 then -1 else k + r)
  {
    forall i | k <= i && (r < 0 || i < k + r)
      ensures !MatchAt(s, sep, i)
    {
      MatchShift(s, sep, k, i - k);
    }
    if r >= 0 {
      MatchShift(s, sep, k, r);
    }
  }

  // ----- The rolling hash

  const PRIME := 16777619
  const TWO32 := 0x1_0000_0000

  function Wrap(x: int): (r: int)
    ensures 0 <= r < TWO32
  {
    x % TWO32
  }

  function Power(b: int, n: nat): int {
    if n == 0 then 1 else b * Power(b, n - 1)
  }

  /** The polynomial that the hash takes modulo 2^32. */
  function Poly(s: Bytes): int {
    if s == [] then 0 else Poly(s[..|s| - 1]) * PRIME + s[|s| - 1]
  }

  function Hash(s: Bytes): int {
    Wrap(Poly(s))
  }

  lemma WrapShift(x: int, m: int)
    ensures Wrap(x + TWO32 * m) == Wrap(x)
  {
  }

  lemma Quotient(x: int) returns (q: int)
    ensures x == TWO32 * q + Wrap(x)
  {
    q := x / TWO32;
  }

  lemma WrapMul(a: int, b: int)
    ensures Wrap(Wrap(a) * b) == Wrap(a * b)
  {
    hide Wrap;
    var q := Quotient(a);
    Integers.Distribute(TWO32 * q, Wrap(a), b);
    Integers.Assoc(TWO32, q, b);
    WrapShift(Wrap(a) * b, q * b);
  }

  lemma WrapAdd(a: int, b: int)
    ensures Wrap(Wrap(a) + b) == Wrap(a + b)
  {
    hide Wrap;
    var q := Quotient(a);
    WrapShift(Wrap(a) + b, q);
  }

  lemma Commute(a: int, b: int)
    ensures a * b == b * a
  {
  }

  lemma WrapSub(a: int, b: int)
    ensures Wrap(a - Wrap(b)) == Wrap(a - b)
  {
    hide Wrap;
    var q := Quotient(b);
    WrapShift(a - b, q);
  }

  /** One more byte at the end. */
  lemma HashNext(h: int, s: Bytes, c: Byte)
    requires h == Hash(s)
    ensures Wrap(Wrap(h * PRIME) + c) == Hash(s + [c])
  {
    hide Wrap;
    WrapMul(Poly(s), PRIME);
    WrapAdd(Poly(s) * PRIME, c);
    assert (s + [c])[..|s|] == s;
  }

  /** Taking off the first byte takes off its power. */
  lemma {:induction false} PolyFront(c: Byte, s: Bytes)
    ensures Poly([c] + s) == Power(PRIME, |s|) * c + Poly(s)
  {
    if s == [] {
      assert [c] + s == [c];
      assert [c][..0] == [];
    } else {
      var n := |s| - 1;
      assert ([c] + s)[..n + 1] == [c] + s[..n];
      PolyFront(c, s[..n]);
      Rotate(Power(PRIME, n), c, Poly(s[..n]));
    }
  }

  lemma Rotate(p: int, c: int, x: int)
    ensures (p * c + x) * PRIME == (PRIME * p) * c + x * PRIME
  {
  }

  /** The window moves on by one byte: the hash of its new content from that of the old. */
  lemma HashRolls(h: int, pow: int, first: Byte, mid: Bytes, last: Byte)
    requires h == Hash([first] + mid) && pow == Wrap(Power(PRIME, |mid| + 1))
    ensures Wrap(Wrap(Wrap(h * PRIME) + last) - Wrap(pow * first)) == Hash(mid + [last])
  {
    hide Wrap, Poly, Power;
    HashNext(h, [first] + mid, last);
    assert [first] + mid + [last] == [first] + (mid + [last]);
    PolyFront(first, mid + [last]);
    var p := Power(PRIME, |mid| + 1);
    WrapMul(p, first);
    var whole := Poly([first] + mid + [last]);
    WrapSub(Wrap(whole), p * first);
    WrapAdd(whole, -(p * first));
  }

  // ----- hashStr

  lemma {:induction false} PowerWrap(b: int, n: nat)
    ensures Wrap(Power(Wrap(b), n)) == Wrap(Power(b, n))
  {
    hide Wrap;
    if n > 0 {
      PowerWrap(b, n - 1);
      WrapMul(b, Power(Wrap(b), n - 1));
      Commute(b, Power(Wrap(b), n - 1));
      WrapMul(Power(Wrap(b), n - 1), b);
      WrapMul(Power(b, n - 1), b);
      Commute(b, Power(b, n - 1));
    }
  }

  lemma {:induction false} PowerSquare(b: int, k: nat)
    ensures Power(b * b, k) == Power(b, 2 * k)
  {
    if k > 0 {
      PowerSquare(b, k - 1);
      assert Power(b, 2 * k) == b * Power(b, 2 * k - 1) == b * (b * Power(b, 2 * k - 2));
      Integers.Assoc(b, b, Power(b, 2 * k - 2));
    }
  }

  lemma SameTimes(c: int, a: int, b: int)
    requires Wrap(a) == Wrap(b)
    ensures Wrap(c * a) == Wrap(c * b)
  {
    hide Wrap;
    WrapMul(a, c);
    WrapMul(b, c);
    Commute(a, c);
    Commute(b, c);
  }

  /** Squaring the base halves the exponent. */
  lemma HalfPower(pow: int, sq: int, k: nat)
    ensures Wrap(pow * Power(Wrap(sq * sq), k)) == Wrap(pow * Power(sq, 2 * k))
  {
    hide Wrap, Power;
    PowerWrap(sq * sq, k);
    PowerSquare(sq, k);
    SameTimes(pow, Power(Wrap(sq * sq), k), Power(sq, 2 * k));
  }

  /** One round of repeated squaring. */
  lemma SquareStep(pow: int, sq: int, i: nat, k: nat)
    requires i == 2 * k || i == 2 * k + 1
    ensures Wrap(pow * Power(sq, i)) == Wrap((if i == 2 * k then pow else Wrap(pow * sq)) * Power(Wrap(sq * sq), k))
  {
    hide Wrap, Power;
    if i == 2 * k {
      HalfPower(pow, sq, k);
    } else {
      HalfPower(Wrap(pow * sq), sq, k);
      OddPower(pow, sq, k);
    }
  }

  lemma OddPower(pow: int, sq: int, k: nat)
    ensures Wrap(Wrap(pow * sq) * Power(sq, 2 * k)) == Wrap(pow * Power(sq, 2 * k + 1))
  {
    hide Wrap, Power;
    WrapMul(pow * sq, Power(sq, 2 * k));
    PowerNext(sq, 2 * k);
    Integers.Assoc(pow, sq, Power(sq, 2 * k));
  }

  lemma PowerNext(b: int, n: nat)
    ensures Power(b, n + 1) == b * Power(b, n)
  {
  }

  method HashStr(sep: Bytes) returns (hash: int, pow: int)
    ensures hash == Hash(sep) && pow == Wrap(Power(PRIME, |sep|))
  {
    hide Wrap, Power;
    hash := HashPrefix(sep, |sep|);
    assert sep[..|sep|] == sep;
    var sq;
    pow, sq := 1, PRIME;
    var i: nat := |sep|;
    while i > 0
      invariant 0 <= pow < TWO32 && Wrap(Power(PRIME, |sep|)) == Wrap(pow * Power(sq, i))
    {
      SquareStep(pow, sq, i, i / 2);
      if i % 2 != 0 {
        pow := Wrap(pow * sq);
      }
      sq := Wrap(sq * sq);
      i := i / 2;
    }
    PowerEnds(sq, pow);
  }

  lemma PowerEnds(b: int, pow: int)
    requires 0 <= pow < TWO32
    ensures Wrap(pow * Power(b, 0)) == pow
  {
  }

  /** The hash of the first `n` bytes. */
  method HashPrefix(s: Bytes, n: nat) returns (h: int)
    requires n <= |s|
    ensures h == Hash(s[..n])
  {
    hide Wrap, Poly;
    h := 0;
    HashEmpty();
    assert s[..0] == [];
    for i := 0 to n
      invariant h == Hash(s[..i])
    {
      HashNext(h, s[..i], s[i]);
      assert s[..i] + [s[i]] == s[..i + 1];
      h := Wrap(Wrap(h * PRIME) + s[i]);
    }
  }

  lemma HashEmpty()
    ensures Hash([]) == 0
  {
  }

  // ----- Rabin-Karp

  method IndexRabinKarp(s: Bytes, sep: Bytes) returns (r: int)
    requires 0 < |sep| <= |s|
    ensures IsIndex(s, sep, r)
  {
    hide Wrap, Poly, Power, Hash;
    var hashsep, pow := HashStr(sep);
    var n := |sep|;
    var h := HashPrefix(s, n);
    assert s[..n] == s[0..n];
    if h == hashsep && s[..n] == sep {
      return 0;
    }
    var i := n;
    while i < |s|
      invariant n <= i <= |s| && h == Hash(s[i - n..i])
      invariant forall k :: 0 <= k <= i - n ==> !MatchAt(s, sep, k)
    {
      Rolls(s, n, i, h, pow);
      h := Wrap(h * PRIME);
      h := Wrap(h + s[i]);
      h := Wrap(h - Wrap(pow * s[i - n]));
      i := i + 1;
      if h == hashsep && s[i - n..i] == sep {
        return i - n;
      }
      assert !MatchAt(s, sep, i - n);
    }
    return -1;
  }

  lemma Rolls(s: Bytes, n: nat, i: nat, h: int, pow: int)
    requires 0 < n <= i < |s| && h == Hash(s[i - n..i]) && pow == Wrap(Power(PRIME, n))
    ensures Wrap(Wrap(Wrap(h * PRIME) + s[i]) - Wrap(pow * s[i - n])) == Hash(s[i + 1 - n..i + 1])
  {
    hide Wrap, Poly, Power, Hash;
    var mid := s[i - n + 1..i];
    assert s[i - n..i] == [s[i - n]] + mid;
    assert s[i + 1 - n..i + 1] == mid + [s[i]];
    HashRolls(h, pow, s[i - n], mid, s[i]);
  }

  // ----- Index

  /** The routines of the processor: where they are used, and how many misses they bear. */
  datatype Machine = Machine(maxLen: nat, maxBruteForce: nat, cutover: int -> int)

  /** The first place of a byte, or -1. */
  function ByteIndex(s: Bytes, c: Byte): (r: int)
    ensures -1 <= r < |s| && c !in s[..if r < 0 then |s| else r] && (r >= 0 ==> s[r] == c)
  {
    if s == [] then -1
    else if s[0] == c then 0
    else
      var r := ByteIndex(s[1..], c);
      ByteIndexStep(s, c, r);
      if r < 0 then -1 else r + 1
  }

  lemma ByteIndexStep(s: Bytes, c: Byte, r: int)
    requires s != [] && s[0] != c && -1 <= r < |s| - 1 && c !in s[1..][..if r < 0 then |s| - 1 else r]
    ensures c !in s[..if r < 0 then |s| else r + 1]
  {
    var stop := if r < 0 then |s| else r + 1;
    assert s[..stop] == [s[0]] + s[1..][..stop - 1];
  }

  method IndexByte(s: Bytes, c: Byte) returns (r: int)
    ensures r == ByteIndex(s, c)
  {
    r := 0;
    assert s[0..] == s;
    while r < |s|
      invariant 0 <= r <= |s|
      invariant ByteIndex(s, c) == var k := ByteIndex(s[r..], c); if k < 0 then -1 else r + k
    {
      if s[r] == c {
        return;
      }
      assert s[r..][1..] == s[r + 1..];
      r := r + 1;
    }
    return -1;
  }

  /** Matches start with the first byte of what is searched. */
  lemma NoMatchWithout(s: Bytes, sep: Bytes, i: nat, c: Byte)
    requires sep != [] && sep[0] == c && i < |s| && s[i] != c
    ensures !MatchAt(s, sep, i)
  {
    if i + |sep| <= |s| {
      assert s[i..i + |sep|][0] == s[i];
    }
  }

  lemma NoMatchShort(s: Bytes, sep: Bytes, k: int)
    requires k > |s| - |sep|
    ensures forall i :: i >= k ==> !MatchAt(s, sep, i)
  {
  }

  /** Skips to where the first byte of `sep` is next; -1 if it is nowhere. */
  method SkipTo(s: Bytes, sep: Bytes, i: nat, lim: nat) returns (j: int)
    requires sep != [] && i < lim <= |s| && lim == |s| - |sep| + 1
    requires forall k :: 0 <= k < i ==> !MatchAt(s, sep, k)
    ensures j == -1 ==> IsIndex(s, sep, -1)
    ensures j != -1 ==> i <= j < lim && forall k :: 0 <= k < j ==> !MatchAt(s, sep, k)
  {
    hide MatchAt;
    var c := sep[0];
    j := i;
    if s[i] != c {
      var o := IndexByte(s[i..lim], c);
      var stop := if o < 0 then lim else i + o;
      forall k | i <= k < stop
        ensures !MatchAt(s, sep, k)
      {
        assert s[k] == s[i..lim][..stop - i][k - i];
        NoMatchWithout(s, sep, k, c);
      }
      NoMatchShort(s, sep, lim);
      if o < 0 {
        return -1;
      }
      j := i + o;
    }
  }

  method Index(m: Machine, s: Bytes, sep: Bytes) returns (r: int)
    ensures IsIndex(s, sep, r)
  {
    hide IsIndex, MatchAt;
    var n := |sep|;
    if n == 0 {
      IndexZero(s, sep);
      return 0;
    } else if n == 1 {
      r := IndexByte(s, sep[0]);
      IndexOne(s, sep, r);
      return;
    } else if n == |s| {
      IndexWhole(s, sep);
      return if sep == s then 0 else -1;
    } else if n > |s| {
      IndexLong(s, sep);
      return -1;
    } else if n <= m.maxLen {
      if |s| <= m.maxBruteForce {
        FindIsIndex(s, sep);
        return Find(s, sep);
      }
      r := IndexSmall(m, s, sep);
    } else {
      r := IndexLarge(s, sep);
    }
  }

  lemma IndexZero(s: Bytes, sep: Bytes)
    requires sep == []
    ensures IsIndex(s, sep, 0)
  {
    assert s[0..0] == [];
  }

  lemma IndexOne(s: Bytes, sep: Bytes, r: int)
    requires |sep| == 1 && -1 <= r < |s| && sep[0] !in s[..if r < 0 then |s| else r] && (r >= 0 ==> s[r] == sep[0])
    ensures IsIndex(s, sep, r)
  {
    hide MatchAt;
    var stop := if r < 0 then |s| else r;
    forall i | 0 <= i < stop
      ensures !MatchAt(s, sep, i)
    {
      assert s[i] == s[..stop][i];
      NoMatchWithout(s, sep, i, sep[0]);
    }
    NoMatchShort(s, sep, |s|);
    if r >= 0 {
      MatchOne(s, sep, r);
    }
  }

  lemma MatchOne(s: Bytes, sep: Bytes, r: nat)
    requires |sep| == 1 && r < |s| && s[r] == sep[0]
    ensures MatchAt(s, sep, r)
  {
    assert s[r..r + 1] == sep;
  }

  lemma IndexWhole(s: Bytes, sep: Bytes)
    requires |sep| == |s|
    ensures IsIndex(s, sep, if sep == s then 0 else -1)
  {
    assert s[0..|sep|] == s;
  }

  lemma IndexLong(s: Bytes, sep: Bytes)
    requires |sep| > |s|
    ensures IsIndex(s, sep, -1)
  {
  }

  lemma IndexFound(s: Bytes, sep: Bytes, i: nat)
    requires i + |sep| <= |s| && s[i..i + |sep|] == sep && forall k :: 0 <= k < i ==> !MatchAt(s, sep, k)
    ensures IsIndex(s, sep, i)
  {
  }

  lemma IndexNowhere(s: Bytes, sep: Bytes, i: nat)
    requires i > |s| - |sep| && forall k :: 0 <= k < i ==> !MatchAt(s, sep, k)
    ensures IsIndex(s, sep, -1)
  {
  }

  /** Byte skipping until there are too many misses; then the routine of the processor. */
  method IndexSmall(m: Machine, s: Bytes, sep: Bytes) returns (r: int)
    requires 1 < |sep| < |s|
    ensures IsIndex(s, sep, r)
  {
    hide IsIndex, MatchAt;
    var lim := |s| - |sep| + 1;
    var i, fails := 0, 0;
    while i < lim
      invariant 0 <= i <= lim && forall k :: 0 <= k < i ==> !MatchAt(s, sep, k)
    {
      var j := SkipTo(s, sep, i, lim);
      if j < 0 {
        return -1;
      }
      i := j;
      if s[i..i + |sep|] == sep {
        IndexFound(s, sep, i);
        return i;
      }
      Missed(s, sep, i);
      fails := fails + 1;
      i := i + 1;
      if fails > m.cutover(i) {
        var r1 := Find(s[i..], sep);
        FindIsIndex(s[i..], sep);
        IndexFrom(s, sep, i, r1);
        return if r1 >= 0 then r1 + i else -1;
      }
    }
    IndexNowhere(s, sep, i);
    return -1;
  }

  lemma Missed(s: Bytes, sep: Bytes, i: nat)
    requires i + |sep| <= |s| && s[i..i + |sep|] != sep
    ensures !MatchAt(s, sep, i)
  {
  }

  /** Byte skipping until there are too many misses; then Rabin-Karp. */
  method IndexLarge(s: Bytes, sep: Bytes) returns (r: int)
    requires 1 < |sep| < |s|
    ensures IsIndex(s, sep, r)
  {
    hide IsIndex, MatchAt;
    var lim := |s| - |sep| + 1;
    var i, fails := 0, 0;
    while i < lim
      invariant 0 <= i <= lim && forall k :: 0 <= k < i ==> !MatchAt(s, sep, k)
    {
      var o := SkipTo(s, sep, i, lim);
      if o < 0 {
        return -1;
      }
      i := o;
      if s[i..i + |sep|] == sep {
        IndexFound(s, sep, i);
        return i;
      }
      Missed(s, sep, i);
      i := i + 1;
      fails := fails + 1;
      if fails >= 4 + i / 16 && i < lim {
        var j := IndexRabinKarp(s[i..], sep);
        IndexFrom(s, sep, i, j);
        if j < 0 {
          return -1;
        }
        return i + j;
      }
    }
    IndexNowhere(s, sep, i);
    return -1;
  }
}
