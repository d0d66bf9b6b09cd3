/** What the header decoder makes of a header, word by word as they are written. */
module HeaderWords {
  import opened Options
  import opened Utf8
  import opened ByteSearch
  import opened EncodedWords
  import opened Numerals

  /** The parts of an encoded-word. */
  datatype Written = Written(charset: Bytes, encoding: Byte, text: Bytes)

  function Text(w: Written): Bytes {
    [0x3D, 0x3F] + w.charset + [0x3F, w.encoding, 0x3F] + w.text + [0x3F, 0x3D]
  }

  /** No "?" in the charset, and the text ends with the first "?=". */
  predicate IsWord(w: Written) {
    0x3F !in w.charset && Find(w.text, [0x3F, 0x3D]) == -1
  }

  /** No "=?" in it. */
  predicate OpensNone(t: Bytes) {
    Find(t, [0x3D, 0x3F]) == -1
  }

  /** Two bytes are found right after a text that does not hold them. */
  lemma {:induction false} FindRightAfter(a: Bytes, x: Byte, y: Byte, b: Bytes)
    requires x != y && Find(a, [x, y]) == -1
    ensures Find(a + [x, y] + b, [x, y]) == |a|
  {
    var s := a + [x, y] + b;
    if a == [] {
      assert s[..2] == [x, y];
    } else {
      assert s[1..] == a[1..] + [x, y] + b;
      FindRightAfter(a[1..], x, y, b);
      assert s[0] == a[0] && s[1] == if |a| > 1 then a[1] else x;
      assert |a| > 1 ==> a[..2] == [a[0], a[1]];
      assert s[..2] == [s[0], s[1]];
    }
  }

  lemma WordHereIs(w: Written, rest: Bytes)
    requires IsWord(w)
    ensures WordHere(Text(w) + rest) == Some(Found(0, w.charset, w.encoding, w.text, |Text(w)|))
  {
    hide Find, WordHere;
    var h, k := Text(w) + rest, |w.charset|;
    TextIs(w, rest);
    hide Text;
    WordParts(w.charset, w.encoding, w.text, rest, h);
    FindAfter(w.charset, [QUESTION], h[k + 3..]);
    FindRightAfter(w.text, QUESTION, EQUALS, rest);
    Assemble(h, k, |w.text|);
  }

  lemma TextIs(w: Written, rest: Bytes)
    ensures Text(w) + rest == START + w.charset + [QUESTION, w.encoding, QUESTION] + w.text + CLOSE + rest
    ensures |Text(w)| == |w.charset| + |w.text| + 7 && Text(w)[..2] == START
  {
  }

  lemma StartsAt(t: Bytes, h: Bytes)
    requires OpensNone(t) && START <= h
    ensures Find(t + h, START) == |t| && (t + h)[|t|..] == h
  {
    hide Find;
    assert h == START + h[2..];
    assert t + START + h[2..] == t + h;
    FindRightAfter(t, EQUALS, QUESTION, h[2..]);
  }

  /** A word is found after text that opens none, and taken apart as it was written. */
  lemma WordIsFound(t: Bytes, w: Written, rest: Bytes)
    requires OpensNone(t) && IsWord(w)
    ensures NextWord(t + Text(w) + rest) == Some(Found(|t|, w.charset, w.encoding, w.text, |t| + |Text(w)|))
  {
    hide Find, WordHere, Text;
    var h := Text(w) + rest;
    TextIs(w, rest);
    WordHereIs(w, rest);
    assert START <= h;
    StartsAt(t, h);
    assert t + Text(w) + rest == t + h;
  }

  /** What is found is a word after text that opens none. */
  lemma FoundIsWord(h: Bytes)
    requires NextWord(h).Some?
    ensures var f := NextWord(h).value;
            var w := Written(f.charset, f.encoding, f.text);
            && f.end == f.start + |Text(w)| && h == h[..f.start] + Text(w) + h[f.end..]
            && OpensNone(h[..f.start]) && IsWord(w)
  {
    hide Find;
    var start := Find(h, START);
    NoneBefore(h, START);
    var t := h[start..];
    assert t[..2] == START by {
      assert h[start..start + 2] == START;
    }
    HereIsWord(t);
    var f := WordHere(t).value;
    assert h == h[..start] + t;
    assert h[start + f.end..] == t[f.end..];
  }

  lemma HereIsWord(t: Bytes)
    requires |t| >= 2 && t[..2] == START && WordHere(t).Some?
    ensures var f := WordHere(t).value;
            var w := Written(f.charset, f.encoding, f.text);
            f.end == |Text(w)| && t == Text(w) + t[f.end..] && IsWord(w)
  {
    hide Find, Text;
    var i := Find(t[2..], [QUESTION]);
    var cur := 2 + i + 1;
    var j := Find(t[cur + 2..], CLOSE);
    NoneBefore(t[2..], [QUESTION]);
    assert t[2..][..i] == t[2..2 + i];
    NotThere(t[2..2 + i], QUESTION);
    NoneBefore(t[cur + 2..], CLOSE);
    assert t[cur + 2..][..j] == t[cur + 2..cur + 2 + j];
    FoundByte(t, 2, i);
    FoundClose(t, cur + 2, j);
    WordJoined(t, i, j);
  }

  lemma FoundByte(t: Bytes, k: nat, i: nat)
    requires k <= |t| && i < |t| - k && t[k..][i..i + 1] == [QUESTION]
    ensures t[k + i] == QUESTION
  {
    assert t[k..][i..i + 1][0] == t[k + i];
  }

  lemma FoundClose(t: Bytes, k: nat, j: nat)
    requires k <= |t| && j + 2 <= |t| - k && t[k..][j..j + 2] == CLOSE
    ensures t[k + j..k + j + 2] == CLOSE
  {
    assert t[k..][j..j + 2] == t[k + j..k + j + 2];
  }

  lemma WordJoined(t: Bytes, i: nat, j: nat)
    requires 7 + i + j <= |t| && t[..2] == START && t[2 + i] == QUESTION && t[4 + i] == QUESTION
    requires t[5 + i + j..7 + i + j] == CLOSE
    ensures var w := Written(t[2..2 + i], t[3 + i], t[5 + i..5 + i + j]);
            |Text(w)| == 7 + i + j && t == Text(w) + t[7 + i + j..]
  {
    assert t == t[..2] + t[2..2 + i] + t[2 + i..5 + i] + t[5 + i..5 + i + j] + t[5 + i + j..7 + i + j]
             + t[7 + i + j..];
    assert t[2 + i..5 + i] == [QUESTION, t[3 + i], QUESTION];
  }

  lemma {:induction false} NotThere(s: Bytes, b: Byte)
    requires Find(s, [b]) == -1
    ensures b !in s
  {
    if s != [] {
      NotThere(s[1..], b);
      assert s[..1] == [s[0]];
    }
  }

  // ----- Decoding

  /** Space, tab, newline and carriage return. */
  predicate AllBlank(t: Bytes) {
    forall i :: 0 <= i < |t| ==> t[i] in {0x20, 0x09, 0x0A, 0x0D}
  }

  lemma BlankIs(t: Bytes)
    ensures HasNonWhitespace(t) <==> !AllBlank(t)
  {
    if HasNonWhitespace(t) {
      var i :| 0 <= i < |t| && !IsBlank(t[i]);
      assert t[i] !in {0x20, 0x09, 0x0A, 0x0D};
    } else {
      forall i | 0 <= i < |t|
        ensures t[i] in {0x20, 0x09, 0x0A, 0x0D}
      {
        assert IsBlank(t[i]);
      }
    }
  }

  /** What a word stands for, if its text and its charset are known. */
  function Meaning(codec: Codec, w: Written): Option<Bytes> {
    match DecodeText(codec, w.encoding, w.text)
    case None => None
    case Some(content) => codec.Convert(w.charset, content)
  }

  /** There is a word in `h` after text that opens none. */
  ghost predicate HoldsSome(h: Bytes) {
    exists t, w, rest :: OpensNone(t) && IsWord(w) && h == t + Text(w) + rest
  }

  /** Text in which no word can be found stays as it is. */
  lemma NoWord(codec: Codec, h: Bytes, between: bool)
    ensures HoldsSome(h) || Decoded(codec, h, between) == Some(h)
  {
    hide NextWord, IsWord, OpensNone, Text, Find;
    if NextWord(h).Some? {
      FoundIsWord(h);
      var f := NextWord(h).value;
      var t, w, rest := h[..f.start], Written(f.charset, f.encoding, f.text), h[f.end..];
      assert OpensNone(t) && IsWord(w) && h == t + Text(w) + rest;
    }
  }

  /** Decoding up to the first word: the text before it is dropped only if it is blank and follows another word. */
  lemma FirstWord(codec: Codec, t: Bytes, w: Written, rest: Bytes, between: bool)
    requires OpensNone(t) && IsWord(w)
    ensures var h := t + Text(w) + rest;
            Decoded(codec, h, between) ==
            if DecodeText(codec, w.encoding, w.text) == None then
              Prepend(t + START, Decoded(codec, h[|t| + 2..], false))
            else if Meaning(codec, w) == None then
              None
            else
              Prepend((if between && AllBlank(t) then [] else t) + Meaning(codec, w).value, Decoded(codec, rest, true))
  {
    hide NextWord, DecodeText, Find, HasNonWhitespace, AllBlank;
    var h := t + Text(w) + rest;
    WordIsFound(t, w, rest);
    BlankIs(t);
    assert h[..|t|] == t && h[|t| + |Text(w)|..] == rest;
    assert h[..|t| + 2] == t + START;
    BlankNothing();
  }

  lemma BlankNothing()
    ensures AllBlank([])
  {
  }

  /**
   * Two words with text between them that opens none: what they stand for, and the text between them unless all of it
   * is blank.
   */
  lemma BetweenWords(codec: Codec, v: Written, t: Bytes, w: Written, rest: Bytes)
    requires IsWord(v) && IsWord(w) && OpensNone(t) && Meaning(codec, v).Some? && Meaning(codec, w).Some?
    ensures Decoded(codec, Text(v) + t + Text(w) + rest, false)
         == Prepend(Meaning(codec, v).value + (if AllBlank(t) then [] else t) + Meaning(codec, w).value,
                    Decoded(codec, rest, true))
  {
    hide Decoded, AllBlank, Find, DecodeText;
    var after := t + Text(w) + rest;
    assert [] + Text(v) + after == Text(v) + t + Text(w) + rest;
    OpensNothing();
    FirstWord(codec, [], v, after, false);
    FirstWord(codec, t, w, rest, true);
    var a, b, kept := Meaning(codec, v).value, Meaning(codec, w).value, if AllBlank(t) then [] else t;
    assert [] + a == a;
    PrependAssoc(a, kept + b, Decoded(codec, rest, true));
    assert a + (kept + b) == a + kept + b;
  }

  lemma OpensNothing()
    ensures OpensNone([])
  {
  }

  /** The letter between the question marks says how the text is to be read. */
  lemma LettersKnown(codec: Codec, e: Byte, text: Bytes)
    ensures DecodeText(codec, e, text) == if e in {0x42, 0x62} then codec.base64(text)
                                          else if e in {0x51, 0x71} then QDecoded(text) else None
  {
  }

  // ----- Charsets

  /** The text that a byte string is in Latin-1: each byte is the rune of the same number. */
  lemma {:induction false} LatinRunes(c: Bytes)
    ensures DecodeAll(ConvertedAll(c, true)) == c
  {
    hide EncodeRune, DecodeRune;
    if c != [] {
      LatinRunes(c[1..]);
      ConvertedFront(c, true);
      EncodeDecodes(c[0], ConvertedAll(c[1..], true));
      RuneFirst(c[0], ConvertedAll(c[1..], true));
      assert c == [c[0]] + c[1..];
    }
  }

  /** In ASCII a byte is its own rune, or U+FFFD above 0x7F. */
  lemma {:induction false} AsciiRunes(c: Bytes)
    ensures |DecodeAll(ConvertedAll(c, false))| == |c|
    ensures forall i :: 0 <= i < |c| ==> DecodeAll(ConvertedAll(c, false))[i] == if c[i] < 0x80 then c[i] else 0xFFFD
  {
    hide EncodeRune, DecodeRune;
    if c != [] {
      AsciiRunes(c[1..]);
      ConvertedFront(c, false);
      var r := if c[0] < 0x80 then c[0] else 0xFFFD;
      RuneFirst(r, ConvertedAll(c[1..], false));
      assert forall i :: 0 < i < |c| ==> c[i] == c[1..][i - 1];
    }
  }

  lemma {:induction false} ConvertedFront(c: Bytes, latin: bool)
    requires c != []
    ensures ConvertedAll(c, latin) == Converted(c[0], latin) + ConvertedAll(c[1..], latin)
  {
    hide Converted;
    if |c| == 1 {
      assert ConvertedAll(c[..0], latin) == [];
      assert c[1..] == [];
      assert Converted(c[0], latin) + [] == Converted(c[0], latin) == [] + Converted(c[0], latin);
    } else {
      var n := |c| - 1;
      ConvertedFront(c[..n], latin);
      assert c[..n][1..] == c[1..][..n - 1] && c[1..][n - 1] == c[n];
      var a, b, d := Converted(c[0], latin), ConvertedAll(c[1..][..n - 1], latin), Converted(c[n], latin);
      assert (a + b) + d == a + (b + d);
    }
  }

  lemma RuneFirst(r: int, rest: Bytes)
    requires IsRune(r)
    ensures DecodeAll(EncodeRune(r) + rest) == [r] + DecodeAll(rest)
  {
    hide DecodeRune;
    EncodeDecodes(r, rest);
    EncodeSize(r);
    assert (EncodeRune(r) + rest)[|EncodeRune(r)|..] == rest;
  }

  lemma EncodeSize(r: int)
    requires IsRune(r)
    ensures |EncodeRune(r)| == RuneLen(r)
  {
  }

  function Lower(b: Byte): Byte {
    if 0x41 <= b <= 0x5A then b + 0x20 else b
  }

  /** A charset name in ASCII is known whatever the case of its letters. */
  lemma {:induction false} FoldsAnyCase(cs: Bytes, low: Bytes)
    requires forall i :: 0 <= i < |cs| ==> cs[i] < 0x80
    requires forall i :: 0 <= i < |low| ==> !(0x41 <= low[i] <= 0x5A)
    ensures Folds(cs, low) <==> |cs| == |low| && forall i :: 0 <= i < |cs| ==> Lower(cs[i]) == low[i]
  {
    if cs != [] && low != [] {
      FoldsAnyCase(cs[1..], low[1..]);
      assert forall i :: 0 < i < |cs| ==> cs[i] == cs[1..][i - 1];
      assert forall i :: 0 < i < |low| ==> low[i] == low[1..][i - 1];
      assert forall i :: 0 <= i < |cs[1..]| ==> cs[1..][i] == cs[i + 1];
    }
  }

  lemma NamesDiffer(cs: Bytes)
    ensures IsUtf8(cs) ==> !Folds(cs, ISO_8859_1) && !Folds(cs, US_ASCII)
    ensures !(Folds(cs, ISO_8859_1) && Folds(cs, US_ASCII))
  {
    if |cs| > 1 {
      assert US_ASCII[1..][0] == 0x73;
      assert Folds(cs[1..], US_ASCII[1..]) ==> cs[1] in {0x53, 0x73, 0xC5};
    }
  }

  /** What ASCII makes of a byte string. */
  ghost predicate AsAscii(rs: seq<nat>, c: Bytes) {
    |rs| == |c| && forall i :: 0 <= i < |c| ==> rs[i] == if c[i] < 0x80 then c[i] else 0xFFFD
  }

  /** The three charsets that are built in. */
  lemma BuiltInConverts(codec: Codec, cs: Bytes, c: Bytes)
    ensures IsUtf8(cs) ==> codec.Convert(cs, c) == Some(c)
    ensures Folds(cs, ISO_8859_1) ==> codec.Convert(cs, c).Some? && DecodeAll(codec.Convert(cs, c).value) == c
    ensures Folds(cs, US_ASCII) ==> codec.Convert(cs, c).Some? && AsAscii(DecodeAll(codec.Convert(cs, c).value), c)
  {
    hide ConvertedAll, DecodeAll, Folds;
    NamesDiffer(cs);
    LatinRunes(c);
    AsciiRunes(c);
  }

  // ----- The Q encoding

  /** Visible ASCII without "=", "?" and "_". */
  predicate IsLiteral(b: Byte) {
    0x21 <= b <= 0x7E && b !in {0x3D, 0x3F, 0x5F}
  }

  /** How a byte is written: an underscore for the space, itself, or "=" and two upper case digits. */
  lemma QByteIs(b: Byte)
    ensures QByte(b) == if b == 0x20 then [0x5F]
                        else if IsLiteral(b) then [b]
                        else [0x3D, DigitOf(High(b), true), DigitOf(Low(b, 16), true)]
    ensures High(b) * 16 + Low(b, 16) == b
  {
    HexIs(High(b), true);
    HexIs(Low(b, 16), true);
  }

  /** A digit of either case has its value, and only a digit has one. */
  lemma HexIs(d: nat, upper: bool)
    requires d < 16
    ensures FromHex(DigitOf(d, upper)) == Some(d) && UpperHex(d) == DigitOf(d, true)
  {
  }

  lemma HexOnly(b: Byte) returns (upper: bool)
    ensures FromHex(b).Some? ==> FromHex(b).value < 16 && b == DigitOf(FromHex(b).value, upper)
  {
    upper := b < 0x60;
  }

  /** `u` is a way to write `b`: an underscore, the character itself, or "=" and two digits of any case. */
  ghost predicate Stands(u: Bytes, b: Byte) {
    || (u == [0x5F] && b == 0x20)
    || (u == [b] && (0x20 <= b <= 0x7E || b in {0x09, 0x0A, 0x0D}) && b !in {0x3D, 0x5F})
    || (|u| == 3 && exists h, l, up, up' :: 0 <= h < 16 && 0 <= l < 16 && b == h * 16 + l && AsHex(u, h, l, up, up'))
  }

  predicate AsHex(u: Bytes, h: nat, l: nat, up: bool, up': bool)
    requires h < 16 && l < 16
  {
    u == [0x3D, DigitOf(h, up), DigitOf(l, up')]
  }

  /** `us` are ways to write the bytes of `s`, one after the other. */
  ghost predicate Spells(us: seq<Bytes>, s: Bytes) {
    |us| == |s| && forall i :: 0 <= i < |s| ==> Stands(us[i], s[i])
  }

  lemma HexReads(u: Bytes, h: nat, l: nat, up: bool, up': bool, rest: Bytes)
    requires h < 16 && l < 16 && AsHex(u, h, l, up, up')
    ensures u + rest != [] && |u| == 3 && QStep(u + rest) == Some((h * 16 + l, 3))
  {
    hide DigitOf, FromHex, IsText;
    HexIs(h, up);
    HexIs(l, up');
    assert (u + rest)[0] == 0x3D && (u + rest)[1] == DigitOf(h, up) && (u + rest)[2] == DigitOf(l, up');
  }

  /** Decoding reads each way to write a byte. */
  lemma StepReads(u: Bytes, b: Byte, rest: Bytes)
    requires Stands(u, b)
    ensures u + rest != [] && QStep(u + rest) == Some((b, |u|))
  {
    hide AsHex, ReadHexByte;
    if |u| == 1 {
      assert (u + rest)[0] == u[0];
    } else {
      hide QStep;
      var h, l, up, up' :| 0 <= h < 16 && 0 <= l < 16 && b == h * 16 + l && AsHex(u, h, l, up, up');
      HexReads(u, h, l, up, up', rest);
    }
  }

  /** And nothing else. */
  lemma StepStands(t: Bytes)
    requires t != [] && QStep(t).Some?
    ensures var (b, w) := QStep(t).value; Stands(t[..w], b)
  {
    hide DigitOf, FromHex;
    if t[0] == EQUALS {
      var up := HexOnly(t[1]);
      var up' := HexOnly(t[2]);
      var h, l := FromHex(t[1]).value, FromHex(t[2]).value;
      assert AsHex(t[..3], h, l, up, up');
    }
  }

  /** Text decodes to `s` if and only if it is the bytes of `s`, each written in one of these ways. */
  lemma {:induction false} QReads(us: seq<Bytes>, s: Bytes)
    requires Spells(us, s)
    ensures QDecoded(Concat(us)) == Some(s)
  {
    hide Stands, QStep;
    if s != [] {
      var rest := Concat(us[1..]);
      assert Stands(us[0], s[0]);
      assert Spells(us[1..], s[1..]) by {
        assert forall i :: 0 <= i < |s[1..]| ==> us[1..][i] == us[i + 1] && s[1..][i] == s[i + 1];
      }
      QReads(us[1..], s[1..]);
      StepReads(us[0], s[0], rest);
      assert (us[0] + rest)[|us[0]|..] == rest;
      assert s == [s[0]] + s[1..];
    }
  }

  lemma {:induction false} QSpelled(t: Bytes) returns (us: seq<Bytes>)
    requires QDecoded(t).Some?
    ensures Spells(us, QDecoded(t).value) && Concat(us) == t
  {
    hide Stands, QStep;
    us := [];
    if t != [] {
      var (b, w) := QStep(t).value;
      StepStands(t);
      var rest := QSpelled(t[w..]);
      us := [t[..w]] + rest;
      assert us[1..] == rest && t == t[..w] + t[w..];
      var s, s' := QDecoded(t).value, QDecoded(t[w..]).value;
      assert s == [b] + s';
      forall i | 0 <= i < |s|
        ensures Stands(us[i], s[i])
      {
        if i > 0 {
          assert us[i] == rest[i - 1] && s[i] == s'[i - 1];
        }
      }
    }
  }

  // ----- Splitting

  /** A word that has `had` bytes and then `p` would be longer than 75 with the first character of `next`. */
  predicate Full(had: nat, p: Bytes, next: Bytes) {
    next != [] && 10 + had + |Q(p)| + EncLen(next) + 2 > 75
  }

  /** No word but the last has room for another character; the first had `cur` bytes before. */
  predicate Filled(ps: seq<Bytes>, cur: nat) {
    |ps| > 1 ==> Full(cur, ps[0], ps[1]) && Filled(ps[1..], 0)
  }

  lemma FilledGrow(u: Bytes, ps: seq<Bytes>, cur: nat, next: nat)
    requires ps != [] && Filled(ps, next) && next == cur + |Q(u)|
    ensures Filled(Grow(u, ps), cur)
  {
    hide Q, EncLen;
    QConcat(u, ps[0]);
    var g := Grow(u, ps);
    if |g| > 1 {
      assert g[1] == g[1..][0] == ps[1];
    }
  }

  lemma FilledNew(ps: seq<Bytes>, cur: nat)
    requires ps != [] && ps[0] != [] && Filled(ps, 0) && cur + EncLen(ps[0]) > MAX_CONTENT
    ensures Filled([[]] + ps, cur)
  {
    hide EncLen;
    QEmpty();
    assert ([[]] + ps)[1..] == ps;
  }

  /** Words are filled as far as their length allows. */
  lemma {:induction false} PiecesFilled(s: Bytes, cur: nat)
    ensures Filled(Pieces(s, cur), cur)
  {
    hide EncLen, Q, Grow, Filled, DecodeRune;
    if s == [] {
      FilledOne([], cur);
    } else {
      var w, next := Unit(s), NextLen(s, cur);
      var u, rest := s[..w], Pieces(s[w..], next);
      PiecesFilled(s[w..], next);
      UnitLength(s);
      if cur + EncLen(s) > MAX_CONTENT {
        FilledGrow(u, rest, 0, next);
        FirstPiecePrefix(s[w..], next);
        SameUnit(s, u + rest[0]);
        FilledNew(Grow(u, rest), cur);
      } else {
        FilledGrow(u, rest, cur, next);
      }
    }
  }

  lemma FilledOne(p: Bytes, cur: nat)
    ensures Filled([p], cur)
  {
  }

  lemma SameUnit(s: Bytes, p: Bytes)
    requires s != [] && p <= s && |p| >= Unit(s)
    ensures EncLen(p) == EncLen(s)
  {
    hide DecodeRune;
    PrefixFirst(s, p);
    assert p[0] == s[0];
  }

  // ----- What is encoded

  /** Tab, and ASCII from the space to the tilde. */
  predicate IsPrintable(b: Byte) {
    b == 0x09 || 0x20 <= b <= 0x7E
  }

  /** Text is encoded exactly when some byte of it is not printable ASCII. */
  lemma NeedsIs(s: Bytes)
    ensures NeedsIt(s) <==> exists i :: 0 <= i < |s| && !IsPrintable(s[i])
  {
    if NeedsIt(s) {
      var i :| 0 <= i < |s| && Unprintable(s[i]);
      assert !IsPrintable(s[i]);
    }
    if i :| 0 <= i < |s| && !IsPrintable(s[i]) {
      assert Unprintable(s[i]);
    }
  }

  lemma {:induction false} QPrintable(c: Bytes)
    ensures forall i :: 0 <= i < |Q(c)| ==> IsPrintable(Q(c)[i])
  {
    hide QByte;
    if c != [] {
      QPrintable(c[..|c| - 1]);
      QBytePrintable(c[|c| - 1]);
    }
  }

  lemma QBytePrintable(b: Byte)
    ensures forall i :: 0 <= i < |QByte(b)| ==> IsPrintable(QByte(b)[i])
  {
  }
}
