/** Splitting, joining and replacing in byte strings. */
module Splitting {
  import opened Utf8
  import opened ByteSearch
  import opened Buffers
  import Integers

  // ----- Join

  /** The pieces, each after the separator. */
  function After(ps: seq<Bytes>, sep: Bytes): Bytes {
    if ps == [] then [] else sep + ps[0] + After(ps[1..], sep)
  }

  function Joined(ps: seq<Bytes>, sep: Bytes): Bytes {
    if ps == [] then [] else ps[0] + After(ps[1..], sep)
  }

  function SumLengths(ps: seq<Bytes>): nat {
    if ps == [] then 0 else SumLengths(ps[..|ps| - 1]) + |ps[|ps| - 1]|
  }

  lemma {:induction false} SumFront(ps: seq<Bytes>)
    requires ps != []
    ensures SumLengths(ps) == |ps[0]| + SumLengths(ps[1..])
  {
    var n := |ps| - 1;
    if n > 0 {
      SumFront(ps[..n]);
      assert ps[1..][..n - 1] == ps[..n][1..];
    }
  }

  lemma {:induction false} AfterLength(ps: seq<Bytes>, sep: Bytes)
    ensures |After(ps, sep)| == |sep| * |ps| + SumLengths(ps)
  {
    if ps != [] {
      AfterLength(ps[1..], sep);
      SumFront(ps);
      assert |sep| * |ps| == |sep| * (|ps| - 1) + |sep|;
    }
  }

  /** Copies two texts one after the other; there is room, as `rest` is still to come. */
  method Emit(t: array<Byte>, w: nat, a: Bytes, b: Bytes, ghost rest: Bytes) returns (w1: nat)
    requires w + |a + b + rest| <= t.Length
    modifies t
    ensures w1 == w + |a| + |b| && t[..w1] == old(t[..w]) + a + b
    ensures t[..w1] + rest == old(t[..w]) + (a + b + rest)
  {
    ghost var done := t[..w];
    Put(t, w, a);
    w1 := w + |a|;
    assert t[..w1] == done + a;
    Put(t, w1, b);
    w1 := w1 + |b|;
    assert t[..w1] == done + a + b;
    Regroup(done, a, b, rest);
  }

  method TotalLength(ps: seq<Bytes>) returns (n: nat)
    ensures n == SumLengths(ps)
  {
    n := 0;
    for i := 0 to |ps|
      invariant n == SumLengths(ps[..i])
    {
      assert ps[..i + 1][..i] == ps[..i];
      n := n + |ps[i]|;
    }
    assert ps[..|ps|] == ps;
  }

  method Join(ps: seq<Bytes>, sep: Bytes) returns (r: Bytes)
    ensures r == Joined(ps, sep)
  {
    hide After, SumLengths, Joined;
    if |ps| == 0 {
      JoinedNone(sep);
      return [];
    }
    if |ps| == 1 {
      NoneAfter(ps[0], sep);
      assert ps == [ps[0]];
      return ps[0];
    }
    var n := TotalLength(ps);
    n := |sep| * (|ps| - 1) + n;
    JoinedLength(ps, sep);
    var b := new Byte[n](_ => 0);
    FillJoined(b, ps, sep);
    return b[..];
  }

  lemma JoinedLength(ps: seq<Bytes>, sep: Bytes)
    requires ps != []
    ensures |Joined(ps, sep)| == |sep| * (|ps| - 1) + SumLengths(ps)
  {
    AfterLength(ps[1..], sep);
    SumFront(ps);
  }

  method FillJoined(b: array<Byte>, ps: seq<Bytes>, sep: Bytes)
    requires ps != [] && b.Length == |Joined(ps, sep)|
    modifies b
    ensures b[..] == Joined(ps, sep)
  {
    hide After;
    Put(b, 0, ps[0]);
    var bp := |ps[0]|;
    assert b[..bp] == ps[0];
    for i := 1 to |ps|
      invariant 0 <= bp <= b.Length && b[..bp] + After(ps[i..], sep) == Joined(ps, sep)
    {
      AfterStep(ps, i, sep);
      bp := Emit(b, bp, sep, ps[i], After(ps[i + 1..], sep));
    }
    assert ps[|ps|..] == [];
    NoneAfter(b[..bp], sep);
    assert b[..bp] == b[..];
  }

  lemma NoneAfter(p: Bytes, sep: Bytes)
    ensures p + After([], sep) == p && Joined([p], sep) == p
  {
    assert [p][1..] == [];
    assert p + [] == p;
  }

  lemma AfterStep(ps: seq<Bytes>, i: nat, sep: Bytes)
    requires i < |ps|
    ensures After(ps[i..], sep) == sep + ps[i] + After(ps[i + 1..], sep)
  {
    assert ps[i..][1..] == ps[i + 1..];
  }

  lemma Regroup(a: Bytes, b: Bytes, c: Bytes, d: Bytes)
    ensures a + (b + c + d) == a + b + c + d
  {
  }

  /** One piece more in front. */
  lemma JoinedFront(p: Bytes, ps: seq<Bytes>, sep: Bytes)
    requires ps != []
    ensures Joined([p] + ps, sep) == p + sep + Joined(ps, sep)
  {
    assert ([p] + ps)[1..] == ps;
    assert p + (sep + ps[0] + After(ps[1..], sep)) == p + sep + (ps[0] + After(ps[1..], sep));
  }

  // ----- Count

  /** The matches that a search from the left finds without overlap. */
  function CountOf(s: Bytes, sep: Bytes): nat
    requires sep != []
  {
    var i := Find(s, sep);
    if i < 0 then 0 else 1 + CountOf(s[i + |sep|..], sep)
  }

  function CountByte(s: Bytes, c: Byte): nat {
    if s == [] then 0 else (if s[0] == c then 1 else 0) + CountByte(s[1..], c)
  }

  lemma {:induction false} CountOne(s: Bytes, sep: Bytes)
    requires |sep| == 1
    ensures CountOf(s, sep) == CountByte(s, sep[0])
  {
    if s != [] {
      CountOne(s[1..], sep);
      if s[0] == sep[0] {
        assert s[..1] == sep;
      } else {
        var r := Find(s[1..], sep);
        if r >= 0 {
          assert s[r + 1 + 1..] == s[1..][r + 1..];
        }
      }
    }
  }

  /** Matches at or after `k`, no two of which overlap. */
  ghost predicate Apart(s: Bytes, sep: Bytes, k: nat, ms: set<nat>) {
    && (forall m :: m in ms ==> k <= m && MatchAt(s, sep, m))
    && (forall a, b :: a in ms && b in ms && a < b ==> a + |sep| <= b)
  }

  /** Where the search finds its next match, and that there is none before. */
  lemma NextMatch(s: Bytes, sep: Bytes, k: nat)
    requires k <= |s| && sep != []
    ensures var i := Find(s[k..], sep);
            if i < 0 then forall m :: m >= k ==> !MatchAt(s, sep, m)
            else k + i + |sep| <= |s| && MatchAt(s, sep, k + i) && forall m :: k <= m < k + i ==> !MatchAt(s, sep, m)
  {
    hide Find, MatchAt;
    FindIsIndex(s[k..], sep);
    forall m | m >= k
      ensures MatchAt(s, sep, m) <==> MatchAt(s[k..], sep, m - k)
    {
      MatchShift(s, sep, k, m - k);
    }
  }

  /** At most one of the matches overlaps the first one. */
  lemma OneLess(s: Bytes, sep: Bytes, k: nat, i: nat, ms: set<nat>)
    requires Apart(s, sep, k, ms) && forall m :: k <= m < i ==> !MatchAt(s, sep, m)
    ensures var rest := set m | m in ms && m >= i + |sep|;
            Apart(s, sep, i + |sep|, rest) && |ms| <= 1 + |rest|
  {
    hide MatchAt;
    var rest := set m | m in ms && m >= i + |sep|;
    if ms != rest {
      var x :| x in ms && x !in rest;
      assert ms == rest + {x};
    }
  }

  /** No set of matches without overlap is larger than the count. */
  lemma {:induction false} CountLargest(s: Bytes, sep: Bytes, k: nat, ms: set<nat>)
    requires k <= |s| && sep != [] && Apart(s, sep, k, ms)
    ensures |ms| <= CountOf(s[k..], sep)
    decreases |s| - k
  {
    hide Find, MatchAt;
    NextMatch(s, sep, k);
    var i := Find(s[k..], sep);
    if i < 0 {
      assert ms == {};
    } else {
      var next := k + i + |sep|;
      OneLess(s, sep, k, k + i, ms);
      CountLargest(s, sep, next, set m | m in ms && m >= next);
      assert s[k..][i + |sep|..] == s[next..];
    }
  }

  /** And one of them is as large. */
  lemma {:induction false} CountReached(s: Bytes, sep: Bytes, k: nat) returns (ms: set<nat>)
    requires k <= |s| && sep != []
    ensures Apart(s, sep, k, ms) && |ms| == CountOf(s[k..], sep)
    decreases |s| - k
  {
    hide Find, MatchAt;
    NextMatch(s, sep, k);
    var i := Find(s[k..], sep);
    if i < 0 {
      ms := {};
    } else {
      var next := k + i + |sep|;
      ms := CountReached(s, sep, next);
      ms := ms + {k + i};
      assert s[k..][i + |sep|..] == s[next..];
    }
  }

  /** How often `pat` can be replaced: also in front and after every rune when it is empty. */
  function Times(s: Bytes, pat: Bytes, first: bool): nat {
    if pat == [] then |DecodeAll(s)| + (if first then 1 else 0) else CountOf(s, pat)
  }

  method Count(m: Machine, s0: Bytes, sep: Bytes) returns (n: nat)
    ensures n == if sep == [] then |Runes(s0)| + 1 else CountOf(s0, sep)
  {
    hide IsIndex, Find, DecodeAll, Runes;
    if |sep| == 0 {
      RunesCount(s0);
      return |DecodeAll(s0)| + 1;
    }
    if |sep| == 1 {
      CountOne(s0, sep);
      return CountByte(s0, sep[0]);
    }
    n := 0;
    var s := s0;
    while true
      invariant n + CountOf(s, sep) == CountOf(s0, sep)
      decreases |s|
    {
      var i := Index(m, s, sep);
      IndexUnique(s, sep, i);
      if i == -1 {
        return;
      }
      n := n + 1;
      s := s[i + |sep|..];
    }
  }

  // ----- Split

  /** Cuts before (with `save` bytes after) the start of the matches, into at most `n` pieces. */
  function Pieces(s: Bytes, sep: Bytes, save: nat, n: nat): (ps: seq<Bytes>)
    requires sep != [] && save <= |sep| && n >= 1
    ensures ps != []
  {
    var m := Find(s, sep);
    if n == 1 || m < 0 then [s] else [s[..m + save]] + Pieces(s[m + |sep|..], sep, save, n - 1)
  }

  /** The first `n` - 1 runes and the rest. */
  function Exploded(s: Bytes, n: nat): seq<Bytes> {
    if s == [] then []
    else if n <= 1 then [s]
    else [s[..DecodeRune(s).1]] + Exploded(s[DecodeRune(s).1..], n - 1)
  }

  function Runes(s: Bytes): seq<Bytes> {
    if s == [] then [] else [s[..DecodeRune(s).1]] + Runes(s[DecodeRune(s).1..])
  }

  /** What the split functions return. */
  function Split(s: Bytes, sep: Bytes, save: nat, n: int): seq<Bytes>
    requires save <= |sep|
  {
    if n == 0 then []
    else if sep == [] then (if n < 0 then Runes(s) else Exploded(s, n))
    else Pieces(s, sep, save, if n < 0 then CountOf(s, sep) + 1 else n)
  }

  lemma {:induction false} ExplodedAll(s: Bytes, n: nat)
    requires n >= |s|
    ensures Exploded(s, n) == Runes(s)
  {
    hide DecodeRune;
    if s != [] {
      var w := DecodeRune(s).1;
      if n > 1 {
        ExplodedAll(s[w..], n - 1);
      } else {
        assert s[..w] == s && s[w..] == [];
      }
    }
  }

  /** With a limit the last piece is what the other runes leave. */
  lemma {:induction false} ExplodedIs(s: Bytes, n: nat)
    requires n >= 1
    ensures if n > |Runes(s)| then Exploded(s, n) == Runes(s)
            else |Exploded(s, n)| == n && Exploded(s, n)[..n - 1] == Runes(s)[..n - 1]
  {
    hide DecodeRune;
    if s != [] && n > 1 {
      var w := DecodeRune(s).1;
      ExplodedIs(s[w..], n - 1);
      if n <= |Runes(s)| {
        assert Runes(s)[..n - 1] == [s[..w]] + Runes(s[w..])[..n - 2];
        assert Exploded(s, n)[..n - 1] == [s[..w]] + Exploded(s[w..], n - 1)[..n - 2];
      }
    } else if s != [] {
      assert |Runes(s)| >= 1;
    }
  }

  /** Stores the next piece. */
  method Store(a: array<Bytes>, i: nat, p: Bytes, ghost rest: seq<Bytes>)
    requires i < a.Length
    modifies a
    ensures a[..i + 1] == old(a[..i]) + [p]
    ensures a[..i + 1] + rest == old(a[..i]) + ([p] + rest)
  {
    a[i] := p;
    assert a[..i + 1] == old(a[..i]) + [p];
  }

  method Explode(s0: Bytes, n0: int) returns (r: seq<Bytes>)
    ensures r == if n0 <= 0 then Runes(s0) else Exploded(s0, n0)
  {
    hide DecodeRune, Exploded, Runes;
    var n := n0;
    if n <= 0 {
      n := |s0|;
      ExplodedAll(s0, n);
    }
    var a := new Bytes[n](_ => []);
    var na, s := 0, s0;
    assert a[..0] + Exploded(s0, n) == Exploded(s0, n);
    while |s| > 0
      invariant 0 <= na <= n && (s != [] ==> na < n)
      invariant a[..na] + Exploded(s, n - na) == Exploded(s0, n)
      invariant n0 <= 0 ==> n - na >= |s|
      decreases |s|
    {
      ExplodedStep(s, n - na);
      if na + 1 >= n {
        Store(a, na, s, []);
        na := na + 1;
        return a[..na];
      }
      var size := DecodeRune(s).1;
      Store(a, na, s[..size], Exploded(s[size..], n - na - 1));
      s := s[size..];
      na := na + 1;
    }
    NoneExploded(a[..na], n - na);
    return a[..na];
  }

  lemma ExplodedStep(s: Bytes, n: nat)
    requires s != []
    ensures Exploded(s, n) == if n <= 1 then [s]
                              else [s[..DecodeRune(s).1]] + Exploded(s[DecodeRune(s).1..], n - 1)
  {
  }

  lemma NoneExploded(done: seq<Bytes>, n: nat)
    ensures done + Exploded([], n) == done
  {
  }

  method GenSplit(m: Machine, s0: Bytes, sep: Bytes, save: nat, n0: int) returns (r: seq<Bytes>)
    requires save <= |sep|
    ensures r == Split(s0, sep, save, n0)
  {
    hide IsIndex, Find, Runes, Exploded, Pieces;
    var n := n0;
    if n == 0 {
      return [];
    }
    if |sep| == 0 {
      r := Explode(s0, n);
      return;
    }
    if n < 0 {
      n := Count(m, s0, sep);
      n := n + 1;
    }
    var a := new Bytes[n](_ => []);
    var k := CutInto(m, a, s0, sep, save);
    return a[..k];
  }

  /** Cuts into no more pieces than there is room for. */
  method CutInto(m: Machine, a: array<Bytes>, s0: Bytes, sep: Bytes, save: nat) returns (i: nat)
    requires a.Length > 0 && save <= |sep| && sep != []
    modifies a
    ensures i <= a.Length && a[..i] == Pieces(s0, sep, save, a.Length)
  {
    hide IsIndex, Find, Pieces;
    var n, s := a.Length - 1, s0;
    i := 0;
    assert a[..0] + Pieces(s, sep, save, n + 1) == Pieces(s, sep, save, n + 1);
    while i < n
      invariant 0 <= i <= n && a[..i] + Pieces(s, sep, save, n - i + 1) == Pieces(s0, sep, save, n + 1)
    {
      var k := Index(m, s, sep);
      IndexUnique(s, sep, k);
      if k < 0 {
        break;
      }
      PiecesStep(s, sep, save, n - i + 1);
      Store(a, i, s[..k + save], Pieces(s[k + |sep|..], sep, save, n - i));
      s := s[k + |sep|..];
      i := i + 1;
    }
    PiecesEnd(s, sep, save, n - i + 1);
    Store(a, i, s, []);
    i := i + 1;
  }

  lemma PiecesStep(s: Bytes, sep: Bytes, save: nat, n: nat)
    requires sep != [] && save <= |sep| && n > 1 && Find(s, sep) >= 0
    ensures Pieces(s, sep, save, n) == [s[..Find(s, sep) + save]] + Pieces(s[Find(s, sep) + |sep|..], sep, save, n - 1)
  {
    hide Find;
  }

  lemma PiecesEnd(s: Bytes, sep: Bytes, save: nat, n: nat)
    requires sep != [] && save <= |sep| && (n == 1 || (n > 1 && Find(s, sep) < 0))
    ensures Pieces(s, sep, save, n) == [s]
  {
  }

  // ----- What a split means

  /** Joining the pieces with the separator gives the text back. */
  lemma {:induction false} JoinPieces(s: Bytes, sep: Bytes, n: nat)
    requires sep != [] && n >= 1
    ensures Joined(Pieces(s, sep, 0, n), sep) == s
  {
    hide Find, Joined;
    var m := Find(s, sep);
    if n == 1 || m < 0 {
      NoneAfter(s, sep);
    } else {
      var rest := s[m + |sep|..];
      JoinPieces(rest, sep, n - 1);
      JoinedFront(s[..m], Pieces(rest, sep, 0, n - 1), sep);
      assert s == s[..m] + s[m..m + |sep|] + rest;
    }
  }

  /** So do the pieces of SplitAfter, put one after the other. */
  lemma {:induction false} ConcatPieces(s: Bytes, sep: Bytes, n: nat)
    requires sep != [] && n >= 1
    ensures Joined(Pieces(s, sep, |sep|, n), []) == s
  {
    hide Find, Joined;
    var m := Find(s, sep);
    if n == 1 || m < 0 {
      NoneAfter(s, []);
    } else {
      var rest := s[m + |sep|..];
      ConcatPieces(rest, sep, n - 1);
      JoinedFront(s[..m + |sep|], Pieces(rest, sep, |sep|, n - 1), []);
      assert s == s[..m + |sep|] + [] + rest;
    }
  }

  lemma {:induction false} JoinExploded(s: Bytes, n: nat)
    requires n >= 1
    ensures Joined(Exploded(s, n), []) == s
  {
    hide Joined, DecodeRune;
    if s == [] {
      assert Joined([], []) == [] by { JoinedNone([]); }
    } else if n == 1 {
      NoneAfter(s, []);
    } else {
      var w := DecodeRune(s).1;
      JoinExploded(s[w..], n - 1);
      if s[w..] == [] {
        assert s[..w] == s;
        assert Exploded(s, n) == [s];
        NoneAfter(s, []);
      } else {
        JoinedFront(s[..w], Exploded(s[w..], n - 1), []);
        assert s == s[..w] + [] + s[w..];
      }
    }
  }

  lemma JoinedNone(sep: Bytes)
    ensures Joined([], sep) == []
  {
  }

  /** Join undoes SplitN, and the pieces of SplitAfterN concatenate, for every separator and every n but 0. */
  lemma JoinSplit(s: Bytes, sep: Bytes, n: int)
    requires n != 0
    ensures Joined(Split(s, sep, 0, n), sep) == s && Joined(Split(s, sep, |sep|, n), []) == s
  {
    hide Joined, Exploded, Runes, Pieces;
    if sep == [] {
      var k := if n < 0 then |s| + 1 else n;
      JoinExploded(s, k);
      if n < 0 {
        ExplodedAll(s, k);
      }
    } else {
      var k := if n < 0 then CountOf(s, sep) + 1 else n;
      JoinPieces(s, sep, k);
      ConcatPieces(s, sep, k);
    }
  }

  /** There are as many pieces as matches and one more, unless `n` is less. */
  lemma {:induction false} PiecesSize(s: Bytes, sep: Bytes, save: nat, n: nat)
    requires sep != [] && save <= |sep| && n >= 1
    ensures |Pieces(s, sep, save, n)| == Integers.Min(n, CountOf(s, sep) + 1)
  {
    hide Find;
    var m := Find(s, sep);
    if n > 1 && m >= 0 {
      PiecesSize(s[m + |sep|..], sep, save, n - 1);
    }
  }

  /** No piece but a last one that is the unsplit remainder holds the separator. */
  lemma {:induction false} PiecesClean(s: Bytes, sep: Bytes, n: nat, i: nat)
    requires sep != [] && n >= 1 && i < |Pieces(s, sep, 0, n)|
    requires i + 1 < |Pieces(s, sep, 0, n)| || n > CountOf(s, sep)
    ensures Find(Pieces(s, sep, 0, n)[i], sep) == -1
    decreases n
  {
    hide Find;
    var m := Find(s, sep);
    if n > 1 && m >= 0 {
      if i == 0 {
        NoneBefore(s, sep);
      } else {
        PiecesClean(s[m + |sep|..], sep, n - 1, i - 1);
      }
    }
  }

  /** SplitAfter keeps the separator on every piece but the last. */
  lemma {:induction false} SplitAfterKeeps(s: Bytes, sep: Bytes, n: nat, i: nat)
    requires sep != [] && n >= 1 && i < |Pieces(s, sep, 0, n)|
    ensures |Pieces(s, sep, |sep|, n)| == |Pieces(s, sep, 0, n)|
    ensures Pieces(s, sep, |sep|, n)[i]
         == Pieces(s, sep, 0, n)[i] + (if i + 1 < |Pieces(s, sep, 0, n)| then sep else [])
    decreases n
  {
    hide Find;
    var m := Find(s, sep);
    if n > 1 && m >= 0 {
      var rest := s[m + |sep|..];
      SplitAfterKeeps(rest, sep, n - 1, if i == 0 then 0 else i - 1);
      assert s[..m + |sep|] == s[..m] + s[m..m + |sep|];
    } else {
      assert s + [] == s;
    }
  }

  /** Splitting around nothing gives the runes, one piece each. */
  lemma {:induction false} RunesAreRunes(s: Bytes, i: nat)
    requires i < |Runes(s)| == |DecodeAll(s)|
    ensures DecodeRune(Runes(s)[i]) == (DecodeAll(s)[i], |Runes(s)[i]|)
    decreases |s|
  {
    hide DecodeRune;
    var w := DecodeRune(s).1;
    PrefixFirst(s, s[..w]);
    if i > 0 {
      RunesAreRunes(s[w..], i - 1);
    }
  }

  lemma {:induction false} RunesCount(s: Bytes)
    ensures |Runes(s)| == |DecodeAll(s)|
  {
    hide DecodeRune;
    if s != [] {
      RunesCount(s[DecodeRune(s).1..]);
    }
  }

  // ----- Replace

  /** How far it is to the next replacement. */
  function Gap(s: Bytes, pat: Bytes, first: bool): (j: nat)
    requires Times(s, pat, first) > 0
    ensures j + |pat| <= |s| && s[j..j + |pat|] == pat
  {
    if pat == [] then (if first then 0 else DecodeRune(s).1) else Find(s, pat)
  }

  /** The text between the first `k` replacements. */
  function Cut(s: Bytes, pat: Bytes, k: nat, first: bool): (ps: seq<Bytes>)
    requires k <= Times(s, pat, first)
    ensures |ps| == k + 1
    decreases k
  {
    if k == 0 then [s]
    else
      TimesStep(s, pat, first);
      var j := Gap(s, pat, first);
      [s[..j]] + Cut(s[j + |pat|..], pat, k - 1, false)
  }

  lemma TimesStep(s: Bytes, pat: Bytes, first: bool)
    requires Times(s, pat, first) > 0
    ensures Times(s[Gap(s, pat, first) + |pat|..], pat, false) == Times(s, pat, first) - 1
  {
    hide DecodeRune, Find;
    if pat == [] && first {
      assert s[0..] == s;
    }
  }

  /** Putting `pat` back gives the text. */
  lemma {:induction false} CutJoins(s: Bytes, pat: Bytes, k: nat, first: bool)
    requires k <= Times(s, pat, first)
    ensures Joined(Cut(s, pat, k, first), pat) == s
    decreases k
  {
    hide Gap, Joined, Times;
    if k == 0 {
      NoneAfter(s, pat);
    } else {
      CutStep(s, pat, k, first, pat);
      var j := Gap(s, pat, first);
      CutJoins(s[j + |pat|..], pat, k - 1, false);
      assert s == s[..j] + s[j..j + |pat|] + s[j + |pat|..];
    }
  }

  lemma CutStep(s: Bytes, pat: Bytes, k: nat, first: bool, sep: Bytes)
    requires 0 < k <= Times(s, pat, first)
    ensures var j := Gap(s, pat, first);
            k - 1 <= Times(s[j + |pat|..], pat, false) &&
            Joined(Cut(s, pat, k, first), sep) == s[..j] + sep + Joined(Cut(s[j + |pat|..], pat, k - 1, false), sep)
  {
    hide Gap, Joined, Times;
    TimesStep(s, pat, first);
    var j := Gap(s, pat, first);
    JoinedFront(s[..j], Cut(s[j + |pat|..], pat, k - 1, false), sep);
  }

  /** The length of the output is known beforehand. */
  lemma {:induction false} CutLength(s: Bytes, pat: Bytes, k: nat, first: bool, sub: Bytes)
    requires k <= Times(s, pat, first)
    ensures |Joined(Cut(s, pat, k, first), sub)| == |s| + k * (|sub| - |pat|)
    decreases k
  {
    hide Gap, Joined, Times;
    if k == 0 {
      NoneAfter(s, sub);
    } else {
      CutStep(s, pat, k, first, sub);
      var j := Gap(s, pat, first);
      CutLength(s[j + |pat|..], pat, k - 1, false, sub);
      Peel(k, |sub| - |pat|);
    }
  }

  lemma Peel(k: int, d: int)
    ensures k * d == (k - 1) * d + d
  {
  }

  /** For a non-empty `pat` the text between replacements is what SplitN gives. */
  lemma {:induction false} CutIsSplit(s: Bytes, pat: Bytes, k: nat, n: nat, first: bool)
    requires pat != [] && k == Integers.Min(n, CountOf(s, pat))
    ensures Cut(s, pat, k, first) == Pieces(s, pat, 0, n + 1)
    decreases n
  {
    hide Find;
    if k > 0 {
      CutIsSplit(s[Find(s, pat) + |pat|..], pat, k - 1, n - 1, false);
    }
  }

  /** How many replacements a call makes. */
  function Limit(s: Bytes, pat: Bytes, n: int): nat {
    if n < 0 then Times(s, pat, true) else Integers.Min(n, Times(s, pat, true))
  }

  /** The pieces, with `sub` after each of the first `k`. */
  function AfterEach(rs: seq<Bytes>, sub: Bytes, k: nat): Bytes {
    if rs == [] then []
    else rs[0] + (if k > 0 then sub + AfterEach(rs[1..], sub, k - 1) else AfterEach(rs[1..], sub, 0))
  }

  /** Nothing is replaced by `sub`, in front and after the runes, `n` times at most. */
  function Interspersed(s: Bytes, sub: Bytes, n: int): Bytes {
    var k := if n < 0 then |Runes(s)| + 1 else n;
    if k == 0 then s else sub + AfterEach(Runes(s), sub, k - 1)
  }

  lemma {:induction false} AfterNone(s: Bytes, sub: Bytes)
    ensures AfterEach(Runes(s), sub, 0) == s
  {
    hide DecodeRune;
    if s != [] {
      var w := DecodeRune(s).1;
      AfterNone(s[w..], sub);
      assert s == s[..w] + s[w..];
    }
  }

  lemma {:induction false} AfterMore(rs: seq<Bytes>, sub: Bytes, k: nat)
    requires k >= |rs|
    ensures AfterEach(rs, sub, k) == AfterEach(rs, sub, |rs|)
  {
    if rs != [] {
      AfterMore(rs[1..], sub, k - 1);
    }
  }

  /** With an empty pattern the text is cut around its runes. */
  lemma {:induction false} CutAfterRunes(s: Bytes, sub: Bytes, k: nat)
    requires k <= Times(s, [], false)
    ensures Joined(Cut(s, [], k, false), sub) == AfterEach(Runes(s), sub, k)
    decreases k
  {
    hide DecodeRune, Joined, Cut;
    if k == 0 {
      CutNone(s, [], sub, false);
      AfterNone(s, sub);
    } else {
      CutStep(s, [], k, false, sub);
      var w := DecodeRune(s).1;
      CutAfterRunes(s[w..], sub, k - 1);
      var rest := AfterEach(Runes(s[w..]), sub, k - 1);
      assert s[..w] + sub + rest == s[..w] + (sub + rest);
    }
  }

  lemma CutIsInterspersed(s: Bytes, sub: Bytes, n: int)
    ensures Joined(Cut(s, [], Limit(s, [], n), true), sub) == Interspersed(s, sub, n)
  {
    hide DecodeRune, Joined, Cut, DecodeAll, Runes, AfterEach;
    RunesCount(s);
    var k := Limit(s, [], n);
    if k == 0 {
      CutNone(s, [], sub, true);
    } else {
      CutStep(s, [], k, true, sub);
      assert s[0..] == s && s[..0] == [];
      CutAfterRunes(s, sub, k - 1);
      assert [] + sub + AfterEach(Runes(s), sub, k - 1) == sub + AfterEach(Runes(s), sub, k - 1);
      AfterMore(Runes(s), sub, if n < 0 then |Runes(s)| else if n - 1 >= |Runes(s)| then n - 1 else |Runes(s)|);
    }
  }

  /** The first `n0` matches, or all of them, are replaced: what SplitN leaves between them is joined with `sub`. */
  method Replace(m: Machine, s: Bytes, pat: Bytes, sub: Bytes, n0: int) returns (r: Bytes)
    ensures r == if pat == [] then Interspersed(s, sub, n0)
                 else Joined(Split(s, pat, 0, if n0 < 0 then -1 else n0 + 1), sub)
  {
    hide Joined, Cut, Split, Interspersed, Limit;
    r := ReplaceCut(m, s, pat, sub, n0);
    if pat == [] {
      CutIsInterspersed(s, sub, n0);
    } else {
      ReplaceIsJoin(s, pat, sub, n0);
    }
  }

  lemma TimesIs(s: Bytes, pat: Bytes)
    ensures Times(s, pat, true) == if pat == [] then |Runes(s)| + 1 else CountOf(s, pat)
  {
    RunesCount(s);
  }

  /** The loop of Replace, by the cuts it makes. */
  method ReplaceCut(m: Machine, s: Bytes, pat: Bytes, sub: Bytes, n0: int) returns (r: Bytes)
    ensures r == Joined(Cut(s, pat, Limit(s, pat, n0), true), sub)
  {
    hide Joined, Cut, Find, DecodeRune, IsIndex, Times, Runes, CountOf;
    TimesIs(s, pat);
    var n := n0;
    var c := 0;
    if n != 0 {
      c := Count(m, s, pat);
    }
    if c == 0 {
      CutNone(s, pat, sub, true);
      return s;
    }
    if n < 0 || c < n {
      n := c;
    }
    CutLength(s, pat, n, true, sub);
    Peeled(s, pat, n, sub);
    var t := new Byte[|s| + n * (|sub| - |pat|)](_ => 0);
    var w, start := 0, 0;
    assert s[0..] == s && t[..0] == [];
    for i := 0 to n
      invariant 0 <= start <= |s| && 0 <= w <= t.Length && n - i <= Times(s[start..], pat, i == 0)
      invariant t[..w] + Joined(Cut(s[start..], pat, n - i, i == 0), sub) == Joined(Cut(s, pat, n, true), sub)
    {
      CutStep(s[start..], pat, n - i, i == 0, sub);
      ghost var gap, done := Gap(s[start..], pat, i == 0), t[..w];
      var j := start;
      if |pat| == 0 {
        if i > 0 {
          j := j + DecodeRune(s[start..]).1;
        }
      } else {
        var k := Index(m, s[start..], pat);
        IndexUnique(s[start..], pat, k);
        j := j + k;
      }
      assert j == start + gap && s[start..j] == s[start..][..gap];
      assert s[j + |pat|..] == s[start..][gap + |pat|..];
      w := Emit(t, w, s[start..j], sub, Joined(Cut(s[j + |pat|..], pat, n - i - 1, false), sub));
      start := j + |pat|;
    }
    CutNone(s[start..], pat, sub, n == 0);
    Put(t, w, s[start..]);
    w := w + |s[start..]|;
    return t[..w];
  }

  lemma CutNone(s: Bytes, pat: Bytes, sub: Bytes, first: bool)
    ensures Joined(Cut(s, pat, 0, first), sub) == s
  {
    NoneAfter(s, sub);
  }

  lemma Peeled(s: Bytes, pat: Bytes, n: nat, sub: Bytes)
    requires n <= Times(s, pat, true)
    ensures |s| + n * (|sub| - |pat|) >= 0
  {
    CutLength(s, pat, n, true, sub);
  }

  /** Replacing is splitting and joining with the replacement. */
  lemma ReplaceIsJoin(s: Bytes, pat: Bytes, sub: Bytes, n: int)
    requires pat != []
    ensures Joined(Cut(s, pat, Limit(s, pat, n), true), sub)
         == Joined(Split(s, pat, 0, if n < 0 then -1 else n + 1), sub)
  {
    hide Joined, Cut, Pieces;
    CutIsSplit(s, pat, Limit(s, pat, n), if n < 0 then CountOf(s, pat) else n, true);
  }
}
