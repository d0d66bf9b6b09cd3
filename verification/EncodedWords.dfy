/** RFC 2047 encoded-words: the Q encoding with word splitting, and the header decoder. */
module EncodedWords {
  import opened Options
  import opened Utf8
  import opened ByteSearch

  const MAX_WORD := 75
  const MAX_CONTENT := MAX_WORD - 10 - 2 // less the opening "=?UTF-8?q?" and the closing "?="

  const QUESTION: Byte := 0x3F
  const EQUALS: Byte := 0x3D
  const SPACE: Byte := 0x20
  const UNDERSCORE: Byte := 0x5F
  const SMALL_Q: Byte := 0x71

  const START: Bytes := [EQUALS, QUESTION]
  const CLOSE: Bytes := [QUESTION, EQUALS]

  // ----- Q encoding of bytes

  predicate IsPlain(b: Byte) {
    0x21 <= b <= 0x7E && b != EQUALS && b != QUESTION && b != UNDERSCORE
  }

  function UpperHex(d: nat): Byte
    requires d < 16
  {
    if d < 10 then 0x30 + d else 0x41 + (d - 10)
  }

  function High(b: Byte): (d: nat)
    ensures d < 16
  {
    var v: int := b;
    v / 16
  }

  function QByte(b: Byte): Bytes {
    if b == SPACE then [UNDERSCORE]
    else if IsPlain(b) then [b]
    else [EQUALS, UpperHex(High(b)), UpperHex(Low(b, 16))]
  }

  /** What writeQString writes. */
  function Q(s: Bytes): Bytes {
    if s == [] then [] else Q(s[..|s| - 1]) + QByte(s[|s| - 1])
  }

  lemma {:induction false} QConcat(a: Bytes, b: Bytes)
    ensures Q(a + b) == Q(a) + Q(b)
  {
    hide QByte;
    if b == [] {
      assert a + b == a;
    } else {
      var c, last := b[..|b| - 1], QByte(b[|b| - 1]);
      assert (a + b)[..|a + b| - 1] == a + c;
      QConcat(a, c);
      assert (Q(a) + Q(c)) + last == Q(a) + (Q(c) + last);
    }
  }

  method WriteQString(s: Bytes) returns (buf: Bytes)
    ensures buf == Q(s)
  {
    buf := [];
    for i := 0 to |s|
      invariant buf == Q(s[..i])
    {
      var b := s[i];
      assert s[..i + 1][..i] == s[..i];
      if b == SPACE {
        buf := buf + [UNDERSCORE];
      } else if 0x21 <= b <= 0x7E && b != EQUALS && b != QUESTION && b != UNDERSCORE {
        buf := buf + [b];
      } else {
        buf := buf + [EQUALS] + [UpperHex(High(b))] + [UpperHex(Low(b, 16))];
      }
    }
    assert s[..|s|] == s;
  }

  // ----- Q decoding of bytes

  function FromHex(b: Byte): Option<nat> {
    if 0x30 <= b <= 0x39 then Some(b - 0x30)
    else if 0x41 <= b <= 0x46 then Some(b - 0x41 + 10)
    else if 0x61 <= b <= 0x66 then Some(b - 0x61 + 10)
    else None
  }

  function ReadHexByte(a: Byte, b: Byte): Option<Byte> {
    match (FromHex(a), FromHex(b))
    case (Some(h), Some(l)) => if h < 16 && l < 16 then Some(h * 16 + l) else None
    case _ => None
  }

  predicate IsText(c: Byte) {
    0x20 <= c <= 0x7E || c == 0x0A || c == 0x0D || c == 0x09
  }

  /** The first decoded byte and how many encoded bytes it took. */
  function QStep(s: Bytes): (r: Option<(Byte, nat)>)
    requires s != []
    ensures r.Some? ==> 1 <= r.value.1 <= |s|
  {
    var c := s[0];
    if c == UNDERSCORE then Some((SPACE, 1))
    else if c == EQUALS then
      if |s| < 3 || ReadHexByte(s[1], s[2]).None? then None else Some((ReadHexByte(s[1], s[2]).value, 3))
    else if IsText(c) then Some((c, 1))
    else None
  }

  function QDecoded(s: Bytes): Option<Bytes> {
    if s == [] then Some([])
    else match QStep(s)
      case None => None
      case Some((b, w)) =>
        match QDecoded(s[w..])
        case None => None
        case Some(rest) => Some([b] + rest)
  }

  lemma QDecodedStep(a: Bytes, t: Bytes)
    requires t != []
    ensures QStep(t).None? ==> Prepend(a, QDecoded(t)) == None
    ensures QStep(t).Some? ==>
              Prepend(a, QDecoded(t)) == Prepend(a + [QStep(t).value.0], QDecoded(t[QStep(t).value.1..]))
  {
    if QStep(t).Some? {
      var (b, w) := QStep(t).value;
      var r := QDecoded(t[w..]);
      if r.Some? {
        assert a + ([b] + r.value) == (a + [b]) + r.value;
      }
    }
  }

  lemma QDecodedEnds(s: Bytes, a: Bytes)
    ensures Prepend([], QDecoded(s)) == QDecoded(s) && Prepend(a, QDecoded([])) == Some(a)
  {
    if QDecoded(s).Some? {
      assert [] + QDecoded(s).value == QDecoded(s).value;
    }
    assert a + [] == a;
  }

  /** The loop over the encoded text, filling a buffer of its length. */
  method QDecode(s: Bytes) returns (r: Option<Bytes>)
    ensures r == QDecoded(s)
  {
    hide QDecoded, Prepend;
    var dec := new Byte[|s|](_ => 0);
    var n, i := 0, 0;
    assert s[0..] == s;
    QDecodedEnds(s, []);
    while i < |s|
      invariant 0 <= n <= i <= |s|
      invariant QDecoded(s) == Prepend(dec[..n], QDecoded(s[i..]))
    {
      var c := s[i];
      ghost var rest, done := s[i..], dec[..n];
      QDecodedStep(done, rest);
      if c == UNDERSCORE {
        dec[n] := SPACE;
      } else if c == EQUALS {
        if i + 2 >= |s| {
          return None;
        }
        var b := ReadHexByte(s[i + 1], s[i + 2]);
        if b == None {
          return None;
        }
        dec[n] := b.value;
        i := i + 2;
      } else if IsText(c) {
        dec[n] := c;
      } else {
        return None;
      }
      i := i + 1;
      n := n + 1;
      assert s[i..] == rest[QStep(rest).value.1..];
      assert dec[..n] == done + [QStep(rest).value.0];
    }
    assert s[i..] == [];
    QDecodedEnds([], dec[..n]);
    return Some(dec[..n]);
  }

  function Prepend(a: Bytes, r: Option<Bytes>): Option<Bytes> {
    match r
    case None => None
    case Some(b) => Some(a + b)
  }

  lemma QByteDecodes(b: Byte, rest: Bytes)
    ensures QByte(b) + rest != [] && QStep(QByte(b) + rest) == Some((b, |QByte(b)|))
    ensures QUESTION !in QByte(b)
  {
    var s := QByte(b) + rest;
    if b != SPACE && !IsPlain(b) {
      assert s[0] == EQUALS && s[1] == UpperHex(High(b)) && s[2] == UpperHex(Low(b, 16));
    } else {
      assert s[0] == QByte(b)[0];
    }
  }

  lemma {:induction false} QFront(a: Bytes)
    requires a != []
    ensures Q(a) == QByte(a[0]) + Q(a[1..])
  {
    assert a == [a[0]] + a[1..];
    QConcat([a[0]], a[1..]);
    assert Q([a[0]]) == Q([]) + QByte(a[0]);
  }

  /** Decoding undoes encoding, and encoded text holds no question mark. */
  lemma {:induction false} QRoundTrip(s: Bytes)
    ensures QDecoded(Q(s)) == Some(s) && QUESTION !in Q(s)
  {
    if s != [] {
      QFront(s);
      QByteDecodes(s[0], Q(s[1..]));
      QRoundTrip(s[1..]);
      assert Q(s)[|QByte(s[0])|..] == Q(s[1..]);
      assert s == [s[0]] + s[1..];
    }
  }

  // ----- Splitting into words

  /** Some letter case of "UTF-8". */
  predicate IsUtf8(cs: Bytes) {
    && |cs| == 5
    && cs[0] in {0x55, 0x75} && cs[1] in {0x54, 0x74} && cs[2] in {0x46, 0x66} && cs[3] == 0x2D && cs[4] == 0x38
  }

  function Open(cs: Bytes): Bytes {
    START + cs + [QUESTION, SMALL_Q, QUESTION]
  }

  function Word(cs: Bytes, c: Bytes): Bytes {
    Open(cs) + Q(c) + CLOSE
  }

  /** The bytes that must stay in one word: one character, or one byte that belongs to none. */
  function Unit(s: Bytes): (w: nat)
    requires s != []
    ensures 1 <= w <= |s| && w == DecodeRune(s).1
  {
    if s[0] == SPACE || IsPlain(s[0]) then 1 else DecodeRune(s).1
  }

  function EncLen(s: Bytes): nat
    requires s != []
  {
    if s[0] == SPACE || IsPlain(s[0]) then 1 else 3 * Unit(s)
  }

  lemma UnitLength(s: Bytes)
    requires s != []
    ensures |Q(s[..Unit(s)])| == EncLen(s) <= 12
  {
    var u := s[..Unit(s)];
    QFront(u);
    if |u| > 1 {
      QFront(u[1..]);
      if |u| > 2 {
        QFront(u[1..][1..]);
        if |u| > 3 {
          QFront(u[1..][1..][1..]);
        }
      }
    }
  }

  /** A piece put in front of the first one. */
  function Grow(u: Bytes, ps: seq<Bytes>): (r: seq<Bytes>)
    requires ps != []
    ensures |r| == |ps| && r[0] == u + ps[0] && r[1..] == ps[1..]
  {
    [u + ps[0]] + ps[1..]
  }

  /** The length of the current word once the next unit is in it. */
  function NextLen(s: Bytes, cur: nat): nat
    requires s != []
  {
    if cur + EncLen(s) > MAX_CONTENT then EncLen(s) else cur + EncLen(s)
  }

  /** How the content is cut into words when the current one already holds `cur` bytes; the first piece goes into it. */
  function Pieces(s: Bytes, cur: nat): (ps: seq<Bytes>)
    ensures |ps| > 0
  {
    if s == [] then [[]]
    else
      var grown := Grow(s[..Unit(s)], Pieces(s[Unit(s)..], NextLen(s, cur)));
      if cur + EncLen(s) > MAX_CONTENT then [[]] + grown else grown
  }

  /** The words of the pieces, separated by spaces. */
  function Words(cs: Bytes, ps: seq<Bytes>): Bytes
    requires ps != []
  {
    if |ps| == 1 then Word(cs, ps[0]) else Word(cs, ps[0]) + [SPACE] + Words(cs, ps[1..])
  }

  /** What is written after the opening of the first word. */
  function Tail(cs: Bytes, ps: seq<Bytes>): Bytes
    requires ps != []
  {
    if |ps| == 1 then Q(ps[0]) + CLOSE else Q(ps[0]) + CLOSE + [SPACE] + Words(cs, ps[1..])
  }

  lemma WordsTail(cs: Bytes, ps: seq<Bytes>)
    requires ps != []
    ensures Words(cs, ps) == Open(cs) + Tail(cs, ps)
    ensures Tail(cs, [[]] + ps) == CLOSE + [SPACE] + Open(cs) + Tail(cs, ps)
  {
    hide Open, Q;
    if |ps| == 1 {
      Regroup(Open(cs), Q(ps[0]), CLOSE, []);
    } else {
      Regroup(Open(cs), Q(ps[0]), CLOSE, [SPACE] + Words(cs, ps[1..]));
      Spaced(Word(cs, ps[0]), Words(cs, ps[1..]));
      Spaced(Q(ps[0]) + CLOSE, Words(cs, ps[1..]));
    }
    EmptyTail(cs, ps);
    Spaced2(CLOSE + [SPACE], Open(cs), Tail(cs, ps), Words(cs, ps));
  }

  lemma Regroup(a: Bytes, b: Bytes, c: Bytes, d: Bytes)
    ensures a + b + c + d == a + (b + c + d) && a + b + c == a + (b + c)
  {
  }

  lemma Spaced(a: Bytes, b: Bytes)
    ensures a + [SPACE] + b == a + ([SPACE] + b)
  {
  }

  lemma Spaced2(a: Bytes, b: Bytes, c: Bytes, d: Bytes)
    requires d == b + c
    ensures a + d == a + b + c
  {
  }

  lemma EmptyTail(cs: Bytes, ps: seq<Bytes>)
    requires ps != []
    ensures Tail(cs, [[]] + ps) == CLOSE + [SPACE] + Words(cs, ps)
  {
    hide Q, Words;
    QEmpty();
    assert ([[]] + ps)[1..] == ps;
    assert [] + CLOSE == CLOSE;
  }

  lemma QEmpty()
    ensures Q([]) == []
  {
  }

  lemma TailGrows(cs: Bytes, u: Bytes, ps: seq<Bytes>)
    requires ps != []
    ensures Tail(cs, Grow(u, ps)) == Q(u) + Tail(cs, ps)
  {
    hide Open, Q, Words, Grow;
    QConcat(u, ps[0]);
  }

  lemma EmitStep(cs: Bytes, t: Bytes, cur: nat)
    requires t != []
    ensures var w, tail := Unit(t), Tail(cs, Pieces(t[Unit(t)..], NextLen(t, cur)));
            Tail(cs, Pieces(t, cur)) ==
            (if cur + EncLen(t) > MAX_CONTENT then CLOSE + [SPACE] + Open(cs) else []) + Q(t[..w]) + tail
  {
    hide Q, Unit, EncLen, Open, Words, Tail, Grow, NextLen;
    var rest := Pieces(t[Unit(t)..], NextLen(t, cur));
    TailGrows(cs, t[..Unit(t)], rest);
    WordsTail(cs, Grow(t[..Unit(t)], rest));
  }

  lemma NoPieces(cs: Bytes, cur: nat)
    ensures Tail(cs, Pieces([], cur)) == CLOSE
  {
    QEmpty();
  }

  /** What encodeWord writes: words of whole characters for UTF-8, one word for any other charset. */
  ghost function EncodedWord(cs: Bytes, s: Bytes): Bytes {
    if IsUtf8(cs) then Words(cs, Pieces(s, 0)) else Word(cs, s)
  }

  /** encodeWord with the Q encoding. */
  method EncodeWord(cs: Bytes, s: Bytes) returns (buf: Bytes)
    ensures buf == EncodedWord(cs, s)
  {
    hide Q, DecodeRune, Pieces, Words, Tail, Open, IsUtf8;
    buf := Open(cs);
    if !IsUtf8(cs) {
      var q := WriteQString(s);
      return buf + q + CLOSE;
    }
    var i, currentLen: nat := 0, 0;
    assert s[0..] == s;
    WordsTail(cs, Pieces(s, 0));
    while i < |s|
      invariant 0 <= i <= |s|
      invariant Words(cs, Pieces(s, 0)) == buf + Tail(cs, Pieces(s[i..], currentLen))
    {
      ghost var t := s[i..];
      var b := s[i];
      var runeLen: nat, encLen: nat;
      if 0x20 <= b <= 0x7E && b != EQUALS && b != QUESTION && b != UNDERSCORE {
        runeLen, encLen := 1, 1;
      } else {
        runeLen := DecodeRune(s[i..]).1;
        encLen := 3 * runeLen;
      }
      assert runeLen == Unit(t) && encLen == EncLen(t);
      EmitStep(cs, t, currentLen);
      if currentLen + encLen > MAX_CONTENT {
        buf := buf + (CLOSE + [SPACE] + Open(cs));
        currentLen := 0;
      }
      var q := WriteQString(s[i..i + runeLen]);
      assert s[i..i + runeLen] == t[..runeLen] && s[i + runeLen..] == t[runeLen..];
      buf := buf + q;
      currentLen := currentLen + encLen;
      i := i + runeLen;
    }
    assert s[i..] == [];
    NoPieces(cs, currentLen);
    buf := buf + CLOSE;
  }

  /** No piece is too long for a word. */
  lemma {:induction false} PiecesFit(s: Bytes, cur: nat)
    requires cur <= MAX_CONTENT
    ensures |Q(Pieces(s, cur)[0])| <= MAX_CONTENT - cur
    ensures forall k :: 0 <= k < |Pieces(s, cur)| ==> |Q(Pieces(s, cur)[k])| <= MAX_CONTENT
  {
    hide Q, Unit, EncLen, Grow;
    QEmpty();
    if s != [] {
      UnitLength(s);
      var u, rest := s[..Unit(s)], Pieces(s[Unit(s)..], NextLen(s, cur));
      PiecesFit(s[Unit(s)..], NextLen(s, cur));
      QConcat(u, rest[0]);
      var grown := Grow(u, rest);
      forall k | 0 <= k < |grown|
        ensures |Q(grown[k])| <= MAX_CONTENT
      {
        assert k > 0 ==> grown[k] == grown[1..][k - 1] == rest[k];
      }
    }
  }

  /** Every word is at most 75 bytes long. */
  lemma WordsFit(cs: Bytes, s: Bytes, k: nat)
    requires IsUtf8(cs) && k < |Pieces(s, 0)|
    ensures |Word(cs, Pieces(s, 0)[k])| <= MAX_WORD
  {
    hide Q, Pieces;
    PiecesFit(s, 0);
  }

  function Concat(ps: seq<Bytes>): Bytes {
    if ps == [] then [] else ps[0] + Concat(ps[1..])
  }

  lemma ConcatGrow(u: Bytes, ps: seq<Bytes>)
    requires ps != []
    ensures Concat(Grow(u, ps)) == u + Concat(ps)
  {
    hide Grow;
    var g := Grow(u, ps);
    assert Concat(g) == g[0] + Concat(g[1..]);
  }

  lemma ConcatEmpty(ps: seq<Bytes>)
    ensures Concat([[]] + ps) == Concat(ps)
  {
    assert ([[]] + ps)[1..] == ps;
  }

  lemma {:induction false} PiecesConcat(s: Bytes, cur: nat)
    ensures Concat(Pieces(s, cur)) == s
  {
    hide Unit, NextLen, EncLen, Grow, Concat;
    if s == [] {
      var none: seq<Bytes> := [];
      ConcatEmpty(none);
      assert [[]] + none == Pieces(s, cur);
      NoConcat();
    } else {
      var u, rest := s[..Unit(s)], Pieces(s[Unit(s)..], NextLen(s, cur));
      PiecesConcat(s[Unit(s)..], NextLen(s, cur));
      ConcatGrow(u, rest);
      ConcatEmpty(Grow(u, rest));
    }
  }

  lemma NoConcat()
    ensures Concat([]) == []
  {
  }

  // ----- Characters stay whole

  /** The characters of the pieces, each piece decoded on its own. */
  function DecodePieces(ps: seq<Bytes>): seq<nat> {
    if ps == [] then [] else DecodeAll(ps[0]) + DecodePieces(ps[1..])
  }

  lemma FirstPiecePrefix(s: Bytes, cur: nat)
    ensures Pieces(s, cur)[0] <= s
  {
    PiecesConcat(s, cur);
    var ps := Pieces(s, cur);
    assert Concat(ps) == ps[0] + Concat(ps[1..]);
  }

  /** Each word decodes on its own to whole characters: together they give the characters of the text. */
  lemma {:induction false} CharactersWhole(s: Bytes, cur: nat)
    ensures DecodePieces(Pieces(s, cur)) == DecodeAll(s)
  {
    hide Unit, NextLen, EncLen, DecodeRune;
    if s == [] {
      assert DecodePieces([[]]) == DecodeAll([]) + DecodePieces([]);
    } else {
      var w, next := Unit(s), NextLen(s, cur);
      var u, rest := s[..w], Pieces(s[w..], next);
      CharactersWhole(s[w..], next);
      FirstPiecePrefix(s[w..], next);
      FirstCharacter(s, rest[0]);
      DecodeGrow(u, rest, DecodeRune(s).0);
      assert ([[]] + Grow(u, rest))[1..] == Grow(u, rest);
    }
  }

  lemma FirstCharacter(s: Bytes, p: Bytes)
    requires s != [] && p <= s[DecodeRune(s).1..]
    ensures DecodeAll(s[..DecodeRune(s).1] + p) == [DecodeRune(s).0] + DecodeAll(p)
  {
    hide DecodeRune;
    var w := DecodeRune(s).1;
    var q := s[..w] + p;
    assert q <= s;
    PrefixFirst(s, q);
    assert q[w..] == p;
  }

  lemma DecodeGrow(u: Bytes, rest: seq<Bytes>, r: nat)
    requires rest != [] && DecodeAll(u + rest[0]) == [r] + DecodeAll(rest[0])
    ensures DecodePieces(Grow(u, rest)) == [r] + DecodePieces(rest)
  {
    hide Grow, DecodeAll;
  }

  // ----- Decoding a header

  /** The parts of the first thing in a header that looks like an encoded-word. */
  datatype Found = Found(start: nat, charset: Bytes, encoding: Byte, text: Bytes, end: nat)

  function NextWord(h: Bytes): (f: Option<Found>)
    ensures f.Some? ==> f.value.start + |f.value.text| + 6 <= f.value.end <= |h|
  {
    var start := Find(h, START);
    if start < 0 then None else
    match WordHere(h[start..])
    case None => None
    case Some(f) => Some(f.(start := start, end := start + f.end))
  }

  /** The parts of the word that a "=?" at the front opens, if they are all there. */
  function WordHere(t: Bytes): (f: Option<Found>)
    requires |t| >= 2
    ensures f.Some? ==> f.value.start == 0 && |f.value.text| + 6 <= f.value.end <= |t|
  {
    var i := Find(t[2..], [QUESTION]);
    if i < 0 then None else
    var cur := 2 + i + 1;
    if |t| < cur + 4 || t[cur + 1] != QUESTION then None else
    var j := Find(t[cur + 2..], CLOSE);
    if j < 0 then None else
    Some(Found(0, t[2..2 + i], t[cur], t[cur + 2..cur + 2 + j], cur + 2 + j + 2))
  }

  predicate IsBlank(b: Byte) {
    b == 0x20 || b == 0x09 || b == 0x0A || b == 0x0D
  }

  predicate HasNonWhitespace(s: Bytes) {
    exists i :: 0 <= i < |s| && !IsBlank(s[i])
  }

  /** `cs` is the ASCII name `low`, whatever the case; the long s folds to an s as well. */
  predicate Folds(cs: Bytes, low: Bytes) {
    if low == [] || cs == [] then low == [] && cs == []
    else if 0x41 <= cs[0] <= 0x5A then cs[0] + 0x20 == low[0] && Folds(cs[1..], low[1..])
    else if cs[0] == low[0] then Folds(cs[1..], low[1..])
    else low[0] == 0x73 && |cs| > 1 && cs[..2] == [0xC5, 0xBF] && Folds(cs[2..], low[1..])
  }

  const ISO_8859_1: Bytes := [0x69, 0x73, 0x6F, 0x2D, 0x38, 0x38, 0x35, 0x39, 0x2D, 0x31]
  const US_ASCII: Bytes := [0x75, 0x73, 0x2D, 0x61, 0x73, 0x63, 0x69, 0x69]

  predicate BuiltIn(cs: Bytes) {
    IsUtf8(cs) || Folds(cs, ISO_8859_1) || Folds(cs, US_ASCII)
  }

  /** A Latin-1 byte is the rune of the same number; in ASCII a high byte is no character. */
  function Converted(b: Byte, latin: bool): Bytes {
    EncodeRune(if latin || b < RUNE_SELF then b else RUNE_ERROR)
  }

  function ConvertedAll(content: Bytes, latin: bool): Bytes {
    if content == [] then []
    else ConvertedAll(content[..|content| - 1], latin) + Converted(content[|content| - 1], latin)
  }

  /** Base64, and the client's charset reader if there is one, which are given from outside. */
  datatype Codec = Codec(base64: Bytes -> Option<Bytes>, reader: Option<(Bytes, Bytes) -> Option<Bytes>>) {
    function Convert(cs: Bytes, content: Bytes): Option<Bytes> {
      if IsUtf8(cs) then Some(content)
      else if Folds(cs, ISO_8859_1) then Some(ConvertedAll(content, true))
      else if Folds(cs, US_ASCII) then Some(ConvertedAll(content, false))
      else match reader
        case None => None
        case Some(read) => read(cs, content)
    }

    method ConvertText(cs: Bytes, content: Bytes) returns (r: Option<Bytes>)
      ensures r == Convert(cs, content)
    {
      hide IsUtf8, Folds, EncodeRune;
      if IsUtf8(cs) {
        return Some(content);
      }
      var latin := Folds(cs, ISO_8859_1);
      if latin || Folds(cs, US_ASCII) {
        var buf: Bytes := [];
        for i := 0 to |content|
          invariant buf == ConvertedAll(content[..i], latin)
        {
          assert content[..i + 1][..i] == content[..i];
          if latin {
            buf := buf + EncodeRune(content[i]);
          } else if content[i] >= RUNE_SELF {
            buf := buf + EncodeRune(RUNE_ERROR);
          } else {
            buf := buf + EncodeRune(content[i]);
          }
        }
        assert content[..|content|] == content;
        return Some(buf);
      }
      match reader
      case None => return None;
      case Some(read) => return read(cs, content);
    }
  }

  function DecodeText(codec: Codec, encoding: Byte, text: Bytes): Option<Bytes> {
    if encoding == 0x42 || encoding == 0x62 then codec.base64(text)
    else if encoding == 0x51 || encoding == 0x71 then QDecoded(text)
    else None
  }

  function Kept(h: Bytes, start: nat, between: bool): Bytes
    requires start <= |h|
  {
    if start > 0 && (!between || HasNonWhitespace(h[..start])) then h[..start] else []
  }

  /** What the loop of DecodeHeader makes of the rest of a header; None when a conversion fails. */
  function Decoded(codec: Codec, h: Bytes, between: bool): Option<Bytes>
    decreases |h|
  {
    match NextWord(h)
    case None => Some(h)
    case Some(f) =>
      match DecodeText(codec, f.encoding, f.text)
      case None => Prepend(h[..f.start + 2], Decoded(codec, h[f.start + 2..], false))
      case Some(content) =>
        match codec.Convert(f.charset, content)
        case None => None
        case Some(text) => Prepend(Kept(h, f.start, between) + text, Decoded(codec, h[f.end..], true))
  }

  lemma PrependAssoc(a: Bytes, b: Bytes, r: Option<Bytes>)
    ensures Prepend(a, Prepend(b, r)) == Prepend(a + b, r)
  {
    if r.Some? {
      assert a + (b + r.value) == (a + b) + r.value;
    }
  }

  lemma PrependNothing(a: Bytes, r: Option<Bytes>)
    ensures Prepend([], r) == r && Prepend(a, None) == None
  {
    if r.Some? {
      assert [] + r.value == r.value;
    }
  }

  /** The loop of DecodeHeader. */
  method DecodeHeader(codec: Codec, header0: Bytes) returns (r: Option<Bytes>)
    ensures r == Decoded(codec, header0, false)
  {
    hide QDecoded, Prepend, NextWord, Find;
    var i := Find(header0, START);
    if i == -1 {
      NoStart(header0);
      return Some(header0);
    }
    var buf, header := header0[..i], header0[i..];
    SkipPlain(codec, header0);
    var betweenWords := false;
    while true
      invariant Decoded(codec, header0, false) == Prepend(buf, Decoded(codec, header, betweenWords))
      decreases |header|
    {
      var f := NextWord(header);
      if f == None {
        break;
      }
      var Found(start, charset, encoding, text, end) := f.value;
      var content := DecodeText(codec, encoding, text);
      if content == None {
        PrependAssoc(buf, header[..start + 2], Decoded(codec, header[start + 2..], false));
        betweenWords := false;
        buf := buf + header[..start + 2];
        header := header[start + 2..];
        continue;
      }
      ghost var kept := Kept(header, start, betweenWords);
      ghost var before := buf;
      if start > 0 && (!betweenWords || HasNonWhitespace(header[..start])) {
        buf := buf + header[..start];
      }
      assert buf == before + kept;
      var converted := codec.ConvertText(charset, content.value);
      PrependNothing(before, None);
      if converted == None {
        return None;
      }
      PrependAssoc(before, kept + converted.value, Decoded(codec, header[end..], true));
      buf := buf + converted.value;
      assert buf == before + (kept + converted.value);
      header := header[end..];
      betweenWords := true;
    }
    Finished(buf, header);
    return Some(buf + header);
  }

  lemma Finished(a: Bytes, b: Bytes)
    ensures Prepend(a, Some(b)) == Some(a + b)
  {
  }

  lemma NoStart(h: Bytes)
    requires Find(h, START) == -1
    ensures NextWord(h) == None
  {
  }

  lemma FindAgain(h: Bytes, pat: Bytes)
    requires Find(h, pat) >= 0
    ensures Find(h[Find(h, pat)..], pat) == 0
  {
    var r := Find(h, pat);
    assert h[r..][..|pat|] == pat;
  }

  /** Before the first "=?" everything is copied. */
  lemma SkipPlain(codec: Codec, h: Bytes)
    requires Find(h, START) >= 0
    ensures Decoded(codec, h, false) == Prepend(h[..Find(h, START)], Decoded(codec, h[Find(h, START)..], false))
  {
    hide Find, NextWord, DecodeText, HasNonWhitespace;
    var i := Find(h, START);
    var t := h[i..];
    ShiftWord(h);
    match NextWord(h)
    case None =>
      assert h[..i] + t == h;
    case Some(f) =>
      assert h[f.start + 2..] == t[2..] && h[..f.start + 2] == h[..i] + t[..2];
      assert h[f.end..] == t[f.end - i..];
      match DecodeText(codec, f.encoding, f.text) {
        case None => PrependAssoc(h[..i], t[..2], Decoded(codec, t[2..], false));
        case Some(content) =>
          match codec.Convert(f.charset, content) {
            case None => PrependNothing(h[..i], None);
            case Some(text) =>
              PrependAssoc(h[..i], text, Decoded(codec, h[f.end..], true));
              assert Kept(h, i, false) == h[..i] && Kept(t, 0, false) == [];
              assert [] + text == text;
          }
      }
  }

  lemma ShiftWord(h: Bytes)
    requires Find(h, START) >= 0
    ensures var i := Find(h, START);
            match NextWord(h)
            case None => NextWord(h[i..]) == None
            case Some(f) => f.start == i && NextWord(h[i..]) == Some(f.(start := 0, end := f.end - i))
  {
    hide Find, WordHere;
    FindAgain(h, START);
    var i := Find(h, START);
    assert h[i..][0..] == h[i..];
  }

  // ----- The round trip

  /** The text in front of a pattern it cannot be mistaken for. */
  lemma {:induction false} FindAfter(a: Bytes, pat: Bytes, b: Bytes)
    requires pat != [] && pat[0] !in a
    ensures Find(a + pat + b, pat) == |a|
  {
    if a == [] {
      assert (a + pat + b)[..|pat|] == pat;
    } else {
      assert (a + pat + b)[1..] == a[1..] + pat + b;
      FindAfter(a[1..], pat, b);
    }
  }

  /** The pieces of a header from its first word on. */
  lemma WordParts(cs: Bytes, e: Byte, text: Bytes, rest: Bytes, t: Bytes)
    requires t == START + cs + [QUESTION, e, QUESTION] + text + CLOSE + rest
    ensures |t| >= |cs| + |text| + 7 && t[2..] == cs + [QUESTION] + t[|cs| + 3..]
    ensures t[|cs| + 3] == e && t[|cs| + 4] == QUESTION && t[|cs| + 5..] == text + CLOSE + rest
    ensures t[2..2 + |cs|] == cs && t[|cs| + 5..|cs| + 5 + |text|] == text
  {
  }

  /** The decoder takes a word apart just as it was put together. */
  lemma WordTaken(cs: Bytes, e: Byte, text: Bytes, rest: Bytes, t: Bytes)
    requires t == START + cs + [QUESTION, e, QUESTION] + text + CLOSE + rest
    requires QUESTION !in cs && QUESTION !in text
    ensures WordHere(t) == Some(Found(0, cs, e, text, |cs| + |text| + 7))
  {
    hide Find, WordHere;
    WordParts(cs, e, text, rest, t);
    FindAfter(cs, [QUESTION], t[|cs| + 3..]);
    FindAfter(text, CLOSE, rest);
    Assemble(t, |cs|, |text|);
  }

  lemma Assemble(t: Bytes, k: nat, j: nat)
    requires |t| >= k + j + 7 && Find(t[2..], [QUESTION]) == k && t[k + 4] == QUESTION
    requires Find(t[k + 5..], CLOSE) == j
    ensures WordHere(t) == Some(Found(0, t[2..2 + k], t[k + 3], t[k + 5..k + 5 + j], k + j + 7))
  {
    hide Find;
  }

  /** The decoder finds a word after text that cannot open one. */
  lemma WordFound(before: Bytes, cs: Bytes, e: Byte, text: Bytes, rest: Bytes, t: Bytes)
    requires t == START + cs + [QUESTION, e, QUESTION] + text + CLOSE + rest
    requires EQUALS !in before && QUESTION !in cs && QUESTION !in text
    ensures NextWord(before + t) == Some(Found(|before|, cs, e, text, |before| + |cs| + |text| + 7))
  {
    hide Find, WordHere;
    WordTaken(cs, e, text, rest, t);
    assert before + START + t[2..] == before + t;
    FindAfter(before, START, t[2..]);
    assert (before + t)[|before|..] == t;
  }

  lemma {:induction false} DecodeWords(codec: Codec, cs: Bytes, ps: seq<Bytes>, before: Bytes, between: bool)
    requires IsUtf8(cs) && ps != []
    requires before == if between then [SPACE] else []
    ensures Decoded(codec, before + Words(cs, ps), between) == Some(Concat(ps))
    decreases |ps|
  {
    hide Decoded, Word, IsUtf8, Concat;
    var rest := if |ps| == 1 then [] else [SPACE] + Words(cs, ps[1..]);
    assert before + Word(cs, ps[0]) + rest == before + Words(cs, ps);
    Utf8NoQuestion(cs);
    DecodeOne(codec, cs, ps[0], before, rest, between);
    if |ps| == 1 {
      NothingLeft(codec);
      assert ps == [ps[0]];
      ConcatOne(ps[0]);
      assert ps[0] + [] == ps[0];
    } else {
      DecodeWords(codec, cs, ps[1..], [SPACE], true);
      ConcatFirst(ps);
    }
  }

  lemma ConcatOne(c: Bytes)
    ensures Concat([c]) == c
  {
    assert [c][1..] == [];
    assert c + [] == c;
  }

  lemma ConcatFirst(ps: seq<Bytes>)
    requires ps != []
    ensures Concat(ps) == ps[0] + Concat(ps[1..])
  {
  }

  /** One word in front of the rest, after the space that follows a word. */
  lemma DecodeOne(codec: Codec, cs: Bytes, c: Bytes, before: Bytes, rest: Bytes, between: bool)
    requires QUESTION !in cs
    requires before == if between then [SPACE] else []
    ensures Decoded(codec, before + Word(cs, c) + rest, between)
         == match codec.Convert(cs, c)
            case None => None
            case Some(text) => Prepend(text, Decoded(codec, rest, true))
  {
    hide Q, NextWord, QDecoded, IsUtf8, Word, HasNonWhitespace, Find, Kept;
    QRoundTrip(c);
    var t := Word(cs, c) + rest;
    WordIs(cs, c);
    WordFound(before, cs, SMALL_Q, Q(c), rest, t);
    assert before + Word(cs, c) + rest == before + t;
    WordLength(cs, Q(c), rest, t);
    assert (before + t)[|before| + |cs| + |Q(c)| + 7..] == rest;
    BlankDropped(before + t, before, between);
    assert forall x: Bytes :: [] + x == x;
  }

  lemma WordLength(cs: Bytes, text: Bytes, rest: Bytes, t: Bytes)
    requires t == START + cs + [QUESTION, SMALL_Q, QUESTION] + text + CLOSE + rest
    ensures |t| >= |cs| + |text| + 7 && t[|cs| + |text| + 7..] == rest
  {
  }

  lemma BlankDropped(h: Bytes, before: Bytes, between: bool)
    requires before <= h && before == if between then [SPACE] else []
    ensures Kept(h, |before|, between) == []
  {
    assert h[..|before|] == before;
  }

  lemma WordIs(cs: Bytes, c: Bytes)
    ensures Word(cs, c) == START + cs + [QUESTION, SMALL_Q, QUESTION] + Q(c) + CLOSE
  {
  }

  lemma Utf8NoQuestion(cs: Bytes)
    requires IsUtf8(cs)
    ensures QUESTION !in cs
  {
  }

  lemma NothingLeft(codec: Codec)
    ensures Decoded(codec, [], true) == Some([])
  {
    assert Find([], START) == -1;
  }

  /** Decoding what encodeWord wrote gives the text back; for another charset, its conversion. */
  lemma WordRoundTrip(codec: Codec, cs: Bytes, s: Bytes)
    requires QUESTION !in cs
    ensures Decoded(codec, EncodedWord(cs, s), false) == codec.Convert(cs, s)
  {
    hide Decoded, Pieces, Words, Concat, IsUtf8, Word;
    if IsUtf8(cs) {
      PiecesConcat(s, 0);
      DecodeWords(codec, cs, Pieces(s, 0), [], false);
      assert [] + Words(cs, Pieces(s, 0)) == Words(cs, Pieces(s, 0));
    } else {
      DecodeOne(codec, cs, s, [], [], false);
      assert [] + Word(cs, s) + [] == Word(cs, s);
      NothingLeft(codec);
      assert forall x: Bytes :: x + [] == x;
    }
  }

  // ----- Encode, which leaves plain text alone

  predicate Unprintable(b: Byte) {
    (b < 0x20 || b > 0x7E) && b != 0x09
  }

  predicate NeedsIt(s: Bytes) {
    exists i :: 0 <= i < |s| && Unprintable(s[i])
  }

  lemma FirstRune(s: Bytes)
    requires s != []
    ensures var (b, w) := DecodeRune(s);
            if Unprintable(s[0]) then (b < 0x20 || b > 0x7E) && b != 0x09
            else b == s[0] && w == 1
  {
  }

  /** The loop of needsEncoding goes over characters, and asks the same as a look at every byte. */
  method NeedsEncoding(s: Bytes) returns (r: bool)
    ensures r == NeedsIt(s)
  {
    hide DecodeRune;
    var i := 0;
    while i < |s|
      invariant 0 <= i <= |s|
      invariant forall k :: 0 <= k < i ==> !Unprintable(s[k])
    {
      FirstRune(s[i..]);
      var (b, w) := DecodeRune(s[i..]);
      if (b < 0x20 || b > 0x7E) && b != 0x09 {
        assert Unprintable(s[i]);
        return true;
      }
      i := i + w;
    }
    return false;
  }

  method Encode(cs: Bytes, s: Bytes) returns (r: Bytes)
    ensures r == if NeedsIt(s) then EncodedWord(cs, s) else s
  {
    hide NeedsIt, EncodedWord;
    var needs := NeedsEncoding(s);
    if !needs {
      return s;
    }
    r := EncodeWord(cs, s);
  }

  /** Whether the text already holds something that the decoder takes for an encoded-word. */
  predicate HoldsWord(codec: Codec, h: Bytes)
    decreases |h|
  {
    match NextWord(h)
    case None => false
    case Some(f) => DecodeText(codec, f.encoding, f.text).Some? || HoldsWord(codec, h[f.start + 2..])
  }

  /** Whether a word that the decoder finds is in a charset that only the client's reader may know. */
  predicate HoldsForeign(codec: Codec, h: Bytes)
    decreases |h|
  {
    match NextWord(h)
    case None => false
    case Some(f) =>
      if DecodeText(codec, f.encoding, f.text).None? then HoldsForeign(codec, h[f.start + 2..])
      else !BuiltIn(f.charset) || HoldsForeign(codec, h[f.end..])
  }

  /** Decoded base64 is no longer than its text. */
  ghost predicate Shortens(codec: Codec) {
    forall t :: codec.base64(t).Some? ==> |codec.base64(t).value| <= |t|
  }

  ghost predicate AtMost(r: Bytes, n: int) {
    |r| <= n || HasHigh(r)
  }

  ghost predicate HasHigh(r: Bytes) {
    exists i :: 0 <= i < |r| && r[i] >= RUNE_SELF
  }

  lemma HighJoins(a: Bytes, b: Bytes, n: int, m: int)
    requires AtMost(a, n) && AtMost(b, m)
    ensures AtMost(a + b, n + m)
  {
    if HasHigh(a) {
      var i :| 0 <= i < |a| && a[i] >= RUNE_SELF;
      assert (a + b)[i] == a[i];
    } else if HasHigh(b) {
      var i :| 0 <= i < |b| && b[i] >= RUNE_SELF;
      assert (a + b)[|a| + i] == b[i];
    }
  }

  lemma {:induction false} QShortens(t: Bytes)
    ensures QDecoded(t).Some? ==> |QDecoded(t).value| <= |t|
  {
    if t != [] && QStep(t).Some? {
      QShortens(t[QStep(t).value.1..]);
    }
  }

  lemma ConvertedByte(b: Byte, latin: bool)
    ensures AtMost(Converted(b, latin), 1)
  {
    if b >= RUNE_SELF {
      assert Converted(b, latin)[0] >= RUNE_SELF;
    }
  }

  /** A built-in conversion lengthens only by bytes above ASCII. */
  lemma {:induction false} ConvertedSize(c: Bytes, latin: bool)
    ensures AtMost(ConvertedAll(c, latin), |c|)
  {
    hide Converted, AtMost;
    if c == [] {
      EmptySize();
    } else {
      var n := |c| - 1;
      ConvertedSize(c[..n], latin);
      ConvertedByte(c[n], latin);
      HighJoins(ConvertedAll(c[..n], latin), Converted(c[n], latin), n, 1);
    }
  }

  lemma EmptySize()
    ensures AtMost([], 0)
  {
  }

  lemma WordShortens(codec: Codec, f: Found)
    requires Shortens(codec) && DecodeText(codec, f.encoding, f.text).Some? && BuiltIn(f.charset)
    ensures var c := DecodeText(codec, f.encoding, f.text).value;
            codec.Convert(f.charset, c).Some? && AtMost(codec.Convert(f.charset, c).value, |f.text|)
  {
    hide QDecoded, HasHigh, ConvertedAll, IsUtf8, Folds;
    QShortens(f.text);
    var c := DecodeText(codec, f.encoding, f.text).value;
    ConvertedSize(c, true);
    ConvertedSize(c, false);
  }

  /** Without a word in it, a header is decoded to itself; with one, the result is shorter or not ASCII. */
  lemma {:induction false} DecodedSize(codec: Codec, h: Bytes, between: bool)
    requires Shortens(codec) && !HoldsForeign(codec, h)
    ensures Decoded(codec, h, between).Some?
    ensures var r := Decoded(codec, h, between).value;
            if HoldsWord(codec, h) then AtMost(r, |h| - 1) else r == h
    decreases |h|
  {
    hide NextWord, DecodeText, HasHigh, HasNonWhitespace, Shortens, BuiltIn, IsUtf8, Folds, ConvertedAll;
    match NextWord(h)
    case None =>
    case Some(f) =>
      if DecodeText(codec, f.encoding, f.text).None? {
        DecodedSize(codec, h[f.start + 2..], false);
        var r := Decoded(codec, h[f.start + 2..], false).value;
        assert h == h[..f.start + 2] + h[f.start + 2..];
        if HoldsWord(codec, h) {
          HighJoins(h[..f.start + 2], r, f.start + 2, |h| - f.start - 3);
        }
      } else {
        WordShortens(codec, f);
        var c := DecodeText(codec, f.encoding, f.text).value;
        var text := codec.Convert(f.charset, c).value;
        DecodedSize(codec, h[f.end..], true);
        var r := Decoded(codec, h[f.end..], true).value;
        var kept := Kept(h, f.start, between);
        HighJoins(kept, text, f.start, |f.text|);
        HighJoins(kept + text, r, f.start + |f.text|, |h| - f.end);
      }
  }

  /** A word that is decoded: the name of its charset, and the bytes that it stands for. */
  datatype WordText = WordText(charset: Bytes, content: Bytes)

  /** The words that the decoder finds in a header, in order. */
  function FoundWords(codec: Codec, h: Bytes): seq<WordText>
    decreases |h|
  {
    match NextWord(h)
    case None => []
    case Some(f) =>
      match DecodeText(codec, f.encoding, f.text)
      case None => FoundWords(codec, h[f.start + 2..])
      case Some(content) => [WordText(f.charset, content)] + FoundWords(codec, h[f.end..])
  }

  /** The charset reader has an error for this word, or there is no reader where one would be asked. */
  predicate Refuses(codec: Codec, w: WordText) {
    !BuiltIn(w.charset) && (codec.reader == None || codec.reader.value(w.charset, w.content) == None)
  }

  /** Decoding a header fails exactly when the reader refuses one of its words, or is missing for one. */
  lemma {:induction false} FailsExactly(codec: Codec, h: Bytes, between: bool)
    ensures Decoded(codec, h, between) == None <==> exists w :: w in FoundWords(codec, h) && Refuses(codec, w)
    decreases |h|
  {
    hide NextWord, DecodeText, IsUtf8, Folds, ConvertedAll;
    match NextWord(h)
    case None =>
    case Some(f) =>
      match DecodeText(codec, f.encoding, f.text)
      case None => FailsExactly(codec, h[f.start + 2..], false);
      case Some(content) =>
        var w := WordText(f.charset, content);
        FailsExactly(codec, h[f.end..], true);
        assert w in FoundWords(codec, h);
        assert Refuses(codec, w) <==> codec.Convert(f.charset, content) == None;
  }

  /** Without a charset reader decoding fails exactly when there is a word in a foreign charset. */
  lemma {:induction false} ForeignFails(codec: Codec, h: Bytes, between: bool)
    ensures codec.reader == None ==> (Decoded(codec, h, between) == None <==> HoldsForeign(codec, h))
    decreases |h|
  {
    hide NextWord, DecodeText, IsUtf8, Folds, ConvertedAll;
    match NextWord(h)
    case None =>
    case Some(f) =>
      ForeignFails(codec, h[f.start + 2..], false);
      ForeignFails(codec, h[f.end..], true);
  }

  /**
   * Encode and DecodeHeader undo each other when the text is encoded or holds no word already, and only then,
   * unless the text holds a word in a foreign charset and there is a charset reader for it.
   */
  lemma RoundTripExactly(codec: Codec, cs: Bytes, s: Bytes)
    requires IsUtf8(cs) && Shortens(codec)
    ensures var back := Decoded(codec, if NeedsIt(s) then EncodedWord(cs, s) else s, false) == Some(s);
            && (NeedsIt(s) || !HoldsWord(codec, s) ==> back)
            && (back ==> NeedsIt(s) || !HoldsWord(codec, s) || (codec.reader.Some? && HoldsForeign(codec, s)))
  {
    hide Decoded, HoldsWord, Shortens, EncodedWord, HoldsForeign;
    if NeedsIt(s) {
      Utf8NoQuestion(cs);
      WordRoundTrip(codec, cs, s);
    } else if !HoldsWord(codec, s) {
      NoWordDecodes(codec, s, false);
    } else if !HoldsForeign(codec, s) {
      DecodedSize(codec, s, false);
      PlainIsLow(s);
    } else if codec.reader == None {
      ForeignFails(codec, s, false);
    }
  }

  lemma PlainIsLow(s: Bytes)
    requires !NeedsIt(s)
    ensures !HasHigh(s)
  {
    forall i | 0 <= i < |s|
      ensures s[i] < RUNE_SELF
    {
      assert !Unprintable(s[i]);
    }
  }

  const FOREIGN_WORD: Bytes := START + [0x78] + [QUESTION, SMALL_Q, QUESTION] + [] + CLOSE + []

  /** With a charset reader anything may come back: here one writes the word again that it was given. */
  lemma ReaderRewrites(base64: Bytes -> Option<Bytes>)
    ensures var codec := Codec(base64, Some((_: Bytes, _: Bytes) => Some(FOREIGN_WORD)));
            !NeedsIt(FOREIGN_WORD) && HoldsWord(codec, FOREIGN_WORD) && HoldsForeign(codec, FOREIGN_WORD) &&
            Decoded(codec, FOREIGN_WORD, false) == Some(FOREIGN_WORD)
  {
    hide NextWord, Word, Q, Decoded;
    var codec := Codec(base64, Some((_: Bytes, _: Bytes) => Some(FOREIGN_WORD)));
    var cs: Bytes := [0x78];
    WordFound([], cs, SMALL_Q, [], [], FOREIGN_WORD);
    assert [] + FOREIGN_WORD == FOREIGN_WORD;
    assert QDecoded([]) == Some([]) && !BuiltIn(cs);
    QEmpty();
    WordIs(cs, []);
    assert FOREIGN_WORD == [] + Word(cs, []) + [];
    DecodeOne(codec, cs, [], [], [], false);
    NothingLeft(codec);
    assert FOREIGN_WORD + [] == FOREIGN_WORD;
  }

  lemma {:induction false} NoWordDecodes(codec: Codec, h: Bytes, between: bool)
    requires !HoldsWord(codec, h)
    ensures Decoded(codec, h, between) == Some(h)
    decreases |h|
  {
    hide NextWord, DecodeText;
    match NextWord(h)
    case None =>
    case Some(f) =>
      NoWordDecodes(codec, h[f.start + 2..], false);
      assert h == h[..f.start + 2] + h[f.start + 2..];
  }

  /** A printable text that is a word itself: it is not encoded, and it is decoded to nothing. */
  lemma WordAsText(codec: Codec)
    ensures var s := START + [0x75, 0x74, 0x66, 0x2D, 0x38, QUESTION, SMALL_Q, QUESTION] + CLOSE;
            !NeedsIt(s) && HoldsWord(codec, s) && Decoded(codec, s, false) == Some([])
  {
    hide NextWord, Word, Decoded, Q;
    var cs: Bytes := [0x75, 0x74, 0x66, 0x2D, 0x38];
    var s := START + [0x75, 0x74, 0x66, 0x2D, 0x38, QUESTION, SMALL_Q, QUESTION] + CLOSE;
    assert s == START + cs + [QUESTION, SMALL_Q, QUESTION] + [] + CLOSE + [];
    WordFound([], cs, SMALL_Q, [], [], s);
    assert [] + s == s;
    QEmpty();
    WordIs(cs, []);
    assert s == [] + Word(cs, []) + [];
    DecodeOne(codec, cs, [], [], [], false);
    NothingLeft(codec);
    PrependNothing([], Some([]));
    assert IsUtf8(cs) && QDecoded([]) == Some([]);
  }

  /** Without a reader decoding fails on such a word, though no reader has given an error. */
  lemma NoReaderFails(base64: Bytes -> Option<Bytes>)
    ensures Decoded(Codec(base64, None), FOREIGN_WORD, false) == None
  {
    hide NextWord, Decoded;
    var codec := Codec(base64, None);
    var cs: Bytes := [0x78];
    WordFound([], cs, SMALL_Q, [], [], FOREIGN_WORD);
    assert [] + FOREIGN_WORD == FOREIGN_WORD;
    assert QDecoded([]) == Some([]) && !BuiltIn(cs);
    ForeignFails(codec, FOREIGN_WORD, false);
  }
}
