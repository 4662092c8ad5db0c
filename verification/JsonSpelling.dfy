/** What a JSON string body spells, character by character (section 7 of RFC 8259, with the scanner's own
    rules for `\u` digits and surrogates), and that decoding reads exactly that. */
module JsonSpelling {
  import opened Text
  import opened JsonStrings

  // ---------------------------------------------------------------- UTF-8 by numbers

  /** The code point that the bytes of one character stand for. */
  function CodePoint(c: string): int
    requires 1 <= |c| <= 4
  {
    var b := c[0] as int;
    if |c| == 1 then b
    else if |c| == 2 then (b - 0xC0) * 0x40 + (c[1] as int - 0x80)
    else if |c| == 3 then (b - 0xE0) * 0x1000 + (c[1] as int - 0x80) * 0x40 + (c[2] as int - 0x80)
    else (b - 0xF0) * 0x40000 + (c[1] as int - 0x80) * 0x1000 + (c[2] as int - 0x80) * 0x40 + (c[3] as int - 0x80)
  }

  ghost predicate IsChar(c: string) {
    c != "" && FirstUnit(c) == Unit(|c|, true)
  }

  lemma CharLength(c: string)
    requires IsChar(c)
    ensures 1 <= |c| <= 4
  {
  }

  lemma EncodedTwo(n: nat)
    requires 0x80 <= n < 0x800
    ensures |EncodeUtf8(n)| == 2 && CodePoint(EncodeUtf8(n)) == n
  {
  }

  lemma EncodedThree(n: nat)
    requires 0x800 <= n < 0x10000 && IsScalar(n)
    ensures |EncodeUtf8(n)| == 3 && CodePoint(EncodeUtf8(n)) == n
  {
  }

  lemma EncodedFour(n: nat)
    requires 0x10000 <= n && IsScalar(n)
    ensures |EncodeUtf8(n)| == 4 && CodePoint(EncodeUtf8(n)) == n
  {
    var q := n / 0x40;
    var r := q / 0x40;
    assert n == q * 0x40 + n % 0x40 && q == r * 0x40 + q % 0x40 && r == r / 0x40 * 0x40 + r % 0x40;
    assert n / 0x1000 == r && n / 0x40000 == r / 0x40;
  }

  /** Encoding a code point gives a character that stands for it. */
  lemma CodePointOfEncoded(n: nat)
    requires IsScalar(n)
    ensures IsChar(EncodeUtf8(n)) && 1 <= |EncodeUtf8(n)| <= 4 && CodePoint(EncodeUtf8(n)) == n
  {
    if n < 0x80 {
      assert EncodeUtf8(n) == [n as char];
    } else if n < 0x800 {
      EncodedTwo(n);
    } else if n < 0x10000 {
      EncodedThree(n);
    } else {
      EncodedFour(n);
    }
    hide EncodeUtf8, CodePoint;
  }

  lemma PointTwo(a: int, b: int)
    requires 0xC2 <= a < 0xE0 && 0x80 <= b < 0xC0
    ensures var n := (a - 0xC0) * 0x40 + (b - 0x80);
            0x80 <= n < 0x800 && 0xC0 + n / 0x40 == a && 0x80 + n % 0x40 == b
  {
  }

  lemma PointThree(a: int, b: int, c: int)
    requires 0xE0 <= a < 0xF0 && 0x80 <= b < 0xC0 && 0x80 <= c < 0xC0
    requires a == 0xE0 ==> b >= 0xA0
    requires a == 0xED ==> b < 0xA0
    ensures var n := (a - 0xE0) * 0x1000 + (b - 0x80) * 0x40 + (c - 0x80);
            && 0x800 <= n < 0x10000 && IsScalar(n)
            && 0xE0 + n / 0x1000 == a && 0x80 + n / 0x40 % 0x40 == b && 0x80 + n % 0x40 == c
  {
  }

  lemma PointFour(a: int, b: int, c: int, d: int)
    requires 0xF0 <= a <= 0xF4 && 0x80 <= b < 0xC0 && 0x80 <= c < 0xC0 && 0x80 <= d < 0xC0
    requires a == 0xF0 ==> b >= 0x90
    requires a == 0xF4 ==> b < 0x90
    ensures var n := (a - 0xF0) * 0x40000 + (b - 0x80) * 0x1000 + (c - 0x80) * 0x40 + (d - 0x80);
            && 0x10000 <= n < 0x110000
            && 0xF0 + n / 0x40000 == a && 0x80 + n / 0x1000 % 0x40 == b && 0x80 + n / 0x40 % 0x40 == c
            && 0x80 + n % 0x40 == d
  {
    var q := (a - 0xF0) * 0x40 + (b - 0x80);
    var r := q * 0x40 + (c - 0x80);
    var n := r * 0x40 + (d - 0x80);
    assert n == (a - 0xF0) * 0x40000 + (b - 0x80) * 0x1000 + (c - 0x80) * 0x40 + (d - 0x80);
    assert n / 0x40 == r && r / 0x40 == q && q / 0x40 == a - 0xF0;
    assert n / 0x1000 == q && n / 0x40000 == q / 0x40;
  }

  /** Every character is the encoding of the code point it stands for. */
  lemma EncodedCodePoint(c: string)
    requires IsChar(c)
    ensures 1 <= |c| <= 4 && CodePoint(c) >= 0 && IsScalar(CodePoint(c)) && EncodeUtf8(CodePoint(c)) == c
  {
    if |c| == 1 {
      assert c == [c[0]];
    } else if |c| == 2 {
      PointTwo(c[0] as int, c[1] as int);
      assert c == [c[0], c[1]];
    } else if |c| == 3 {
      PointThree(c[0] as int, c[1] as int, c[2] as int);
      assert c == [c[0], c[1], c[2]];
    } else {
      PointFour(c[0] as int, c[1] as int, c[2] as int, c[3] as int);
      assert c == [c[0], c[1], c[2], c[3]];
    }
  }

  /** The UTF-8 text of a list of code points. */
  function Utf8Text(points: seq<nat>): string
    requires forall i :: 0 <= i < |points| ==> IsScalar(points[i])
  {
    if points == [] then "" else EncodeUtf8(points[0]) + Utf8Text(points[1..])
  }

  // ---------------------------------------------------------------- how a character is written

  /** The four bytes `h` are the digits of `v`; a plus sign may stand for a first zero. */
  predicate Quad(h: string, v: nat) {
    && |h| == 4 && v < 0x10000
    && (HexDigit(h[0], v / 0x1000) || (h[0] == '+' && v / 0x1000 == 0))
    && HexDigit(h[1], v / 0x100 % 16) && HexDigit(h[2], v / 16 % 16) && HexDigit(h[3], v % 16)
  }

  /** `e` is a `\u` escape of value `v`. */
  ghost predicate UnicodeEscape(e: string, v: nat) {
    |e| == 6 && e[0] == '\\' && e[1] == 'u' && Quad(e[2..], v)
  }

  ghost predicate WritesPlain(e: string, n: nat) {
    IsScalar(n) && n >= 0x20 && n != 0x22 && n != 0x5C && e == EncodeUtf8(n)
  }

  /** The two-character escapes. */
  predicate WritesShort(e: string, n: nat) {
    || (e == "\\\"" && n == 0x22)
    || (e == "\\\\" && n == 0x5C)
    || (e == "\\/" && n == 0x2F)
    || (e == "\\b" && n == 0x08)
    || (e == "\\f" && n == 0x0C)
    || (e == "\\n" && n == 0x0A)
    || (e == "\\r" && n == 0x0D)
    || (e == "\\t" && n == 0x09)
  }

  /** A `\u` escape on its own; a surrogate stands for U+FFFD. */
  ghost predicate WritesUnicode(e: string, n: nat) {
    exists v: nat :: UnicodeEscape(e, v) && n == if 0xD800 <= v < 0xE000 then 0xFFFD else v
  }

  /** A high surrogate and the `\u` escape after it: the character of the pair, or U+FFFD. */
  ghost predicate WritesPair(e: string, n: nat) {
    |e| == 12 && exists hi: nat, lo: nat :: UnicodeEscape(e[..6], hi) && UnicodeEscape(e[6..], lo) && 0xD800 <= hi < 0xDC00
                                  && n == if 0xDC00 <= lo < 0xE000 then 0x10000 + (hi - 0xD800) * 0x400 + (lo - 0xDC00)
                                          else 0xFFFD
  }

  /** `e` is a lone high surrogate, which must not stand before another `\u` escape. */
  ghost predicate IsHigh(e: string) {
    exists v: nat :: UnicodeEscape(e, v) && 0xD800 <= v < 0xDC00
  }

  /** `e`, in front of `rest`, writes the code point `n`. */
  ghost predicate Writes(e: string, rest: string, n: nat) {
    || WritesPlain(e, n)
    || WritesShort(e, n)
    || (WritesUnicode(e, n) && !(IsHigh(e) && StartsUnicode(rest)))
    || WritesPair(e, n)
  }

  /** `b` is a concatenation of writings of `points`. */
  ghost predicate Spells(b: string, points: seq<nat>)
    decreases |points|
  {
    if points == [] then b == ""
    else exists k :: 0 < k <= |b| && Writes(b[..k], b[k..], points[0]) && Spells(b[k..], points[1..])
  }

  // ---------------------------------------------------------------- digits

  lemma Nibbles(a: nat, b: nat, c: nat, d: nat)
    requires a < 16 && b < 16 && c < 16 && d < 16
    ensures var v := a * 0x1000 + b * 0x100 + c * 0x10 + d;
            v < 0x10000 && v / 0x1000 == a && v / 0x100 % 16 == b && v / 16 % 16 == c && v % 16 == d
  {
    var v := a * 0x1000 + b * 0x100 + c * 0x10 + d;
    assert v == (a * 0x100 + b * 0x10 + c) * 16 + d;
    assert v == (a * 16 + b) * 0x100 + (c * 16 + d);
    assert v / 16 == a * 0x100 + b * 0x10 + c && v / 0x100 == a * 16 + b;
  }

  lemma Rejoined(v: nat)
    requires v < 0x10000
    ensures v / 0x1000 * 0x1000 + v / 0x100 % 16 * 0x100 + v / 16 % 16 * 0x10 + v % 16 == v && v / 0x1000 < 16
  {
  }

  lemma QuadIs(h: string, v: nat)
    ensures Quad(h, v) <==> |h| == 4 && HexQuad(h) == Some(v)
  {
    hide HexDigit, IsHex, HexValue;
    if |h| == 4 {
      if Quad(h, v) {
        DigitIs(h[0], v / 0x1000);
        DigitIs(h[1], v / 0x100 % 16);
        DigitIs(h[2], v / 16 % 16);
        DigitIs(h[3], v % 16);
        PlusIsNoDigit();
        Rejoined(v);
      }
      if HexQuad(h) == Some(v) {
        var a := if h[0] == '+' then 0 else HexValue(h[0]);
        Nibbles(a, HexValue(h[1]), HexValue(h[2]), HexValue(h[3]));
        DigitIs(h[0], a);
        DigitIs(h[1], HexValue(h[1]));
        DigitIs(h[2], HexValue(h[2]));
        DigitIs(h[3], HexValue(h[3]));
      }
    }
  }

  lemma PlusIsNoDigit()
    ensures !IsHex('+')
  {
  }

  // ---------------------------------------------------------------- what is spelled is decoded

  /** `b` starts with a writing of `n` that takes `k` bytes. */
  ghost predicate Step(b: string, k: nat, n: nat) {
    && 0 < k <= |b| && TokenLen(b) > 0 && IsScalar(n)
    && (IsBody(b[k..]) ==> IsBody(b)) && Decode(b) == EncodeUtf8(n) + Decode(b[k..])
  }

  lemma QuadOfSlice(b: string, i: nat)
    requires i + 4 <= |b|
    ensures HexQuad(b[i..]) == HexQuad(b[i..i + 4])
  {
    assert forall j :: 0 <= j < 4 ==> b[i..][j] == b[i..i + 4][j];
  }

  lemma EscapeAt(b: string, v: nat)
    requires |b| >= 6
    ensures UnicodeEscape(b[..6], v) <==> StartsUnicode(b) && HexQuad(b[2..]) == Some(v)
  {
    QuadOfSlice(b, 2);
    assert b[..6][2..] == b[2..6];
    QuadIs(b[2..6], v);
    hide HexQuad, Quad;
  }

  lemma UnicodeTokenIs(b: string)
    requires StartsUnicode(b) && HexQuad(b[2..]).Some?
    ensures TokenLen(b) == 6
  {
  }

  lemma PlainStep(b: string, k: nat, n: nat)
    requires 0 < k <= |b| && WritesPlain(b[..k], n)
    ensures Step(b, k, n) && IsChar(b[..k])
  {
    var c := b[..k];
    CodePointOfEncoded(n);
    if n >= 0x80 {
      assert c[0] == b[0];
      HighChar(n);
      assert forall i :: 0 <= i < k ==> b[i] == c[i];
    } else {
      assert c == [n as char] && b[0] == c[0];
    }
    assert forall i :: 0 <= i < k ==> IsPlain(b[i]);
    assert TokenLen(b) > 0;
    hide EncodeUtf8, Decode, IsBody, IsPlain, FirstUnit;
    DecodePlainRun(b, k);
    BodyPlainRun(b, k);
  }

  lemma HighChar(n: nat)
    requires IsScalar(n) && n >= 0x80
    ensures forall i :: 0 <= i < |EncodeUtf8(n)| ==> 0x80 <= EncodeUtf8(n)[i] as int
  {
  }

  lemma ShortStep(b: string, k: nat, n: nat)
    requires 0 < k <= |b| && WritesShort(b[..k], n)
    ensures k == 2 && b[0] == '\\' && Step(b, k, n)
    ensures forall i :: 0 <= i < k ==> b[i] as int < 0x80
  {
    assert k == 2 && b[..k][0] == b[0] && b[..k][1] == b[1];
    DecodeUnfold(b);
  }

  lemma LoneStep(b: string, k: nat, n: nat)
    requires 0 < k <= |b| && WritesUnicode(b[..k], n) && !(IsHigh(b[..k]) && StartsUnicode(b[k..]))
    ensures k == 6 && Step(b, k, n) && AllAscii(b[..k])
  {
    var v: nat :| UnicodeEscape(b[..k], v) && n == if 0xD800 <= v < 0xE000 then 0xFFFD else v;
    assert k == 6;
    EscapeAt(b, v);
    UnicodeTokenIs(b);
    EscapeIsAscii(b[..k], v);
    assert !StartsPair(b);
    DecodeUnfold(b);
    hide HexQuad, Quad, UnicodeEscape, Decode;
  }

  ghost predicate AllAscii(s: string) {
    forall i :: 0 <= i < |s| ==> s[i] as int < 0x80
  }

  lemma EscapeIsAscii(e: string, v: nat)
    requires UnicodeEscape(e, v)
    ensures AllAscii(e)
  {
    var h := e[2..];
    QuadIs(h, v);
    assert forall i :: 2 <= i < 6 ==> e[i] == h[i - 2];
    hide Quad;
  }

  lemma PairIs(b: string, hi: nat, lo: nat)
    requires |b| >= 12 && UnicodeEscape(b[..6], hi) && UnicodeEscape(b[6..12], lo) && 0xD800 <= hi < 0xDC00
    ensures StartsPair(b) && TokenLen(b) == 6 && HexQuad(b[2..]) == Some(hi) && HexQuad(b[8..]) == Some(lo)
    ensures IsBody(b[12..]) ==> IsBody(b)
  {
    var t := b[6..];
    assert b[6..12] == t[..6];
    EscapeAt(b, hi);
    EscapeAt(t, lo);
    UnicodeTokenIs(b);
    UnicodeTokenIs(t);
    hide HexQuad, UnicodeEscape, TokenLen;
    assert t[2..] == b[8..] && t[6..] == b[12..];
  }

  lemma PairCharIs(hi: nat, lo: nat)
    requires 0xD800 <= hi < 0xDC00 && lo < 0x10000
    ensures PairChar(hi, lo) == if 0xDC00 <= lo < 0xE000 then 0x10000 + (hi - 0xD800) * 0x400 + (lo - 0xDC00) else 0xFFFD
  {
  }

  lemma PairStep(b: string, k: nat, n: nat)
    requires 0 < k <= |b| && WritesPair(b[..k], n)
    ensures k == 12 && Step(b, k, n) && AllAscii(b[..k])
  {
    var e := b[..k];
    var hi: nat, lo: nat :| UnicodeEscape(e[..6], hi) && UnicodeEscape(e[6..], lo) && 0xD800 <= hi < 0xDC00
                            && n == if 0xDC00 <= lo < 0xE000 then 0x10000 + (hi - 0xD800) * 0x400 + (lo - 0xDC00)
                                    else 0xFFFD;
    EscapeIsAscii(e[..6], hi);
    EscapeIsAscii(e[6..], lo);
    SplitAt(e, 6);
    hide UnicodeEscape, WritesPair, HexQuad, Decode, TokenLen, IsBody, PairChar, EncodeUtf8;
    assert e[..6] == b[..6] && e[6..] == b[6..12];
    PairIs(b, hi, lo);
    PairCharIs(hi, lo);
    DecodeUnfold(b);
    hide StartsPair;
  }

  lemma WritesStep(b: string, k: nat, n: nat)
    requires 0 < k <= |b| && Writes(b[..k], b[k..], n)
    ensures Step(b, k, n) && ValidUtf8(b[..k])
  {
    hide Step, WritesPlain, WritesShort, WritesUnicode, WritesPair, IsHigh, StartsUnicode;
    if WritesPlain(b[..k], n) {
      PlainStep(b, k, n);
      assert b[..k][k..] == "";
    } else if WritesShort(b[..k], n) {
      ShortStep(b, k, n);
      ValidAscii(b[..k]);
    } else if WritesPair(b[..k], n) {
      PairStep(b, k, n);
      ValidAscii(b[..k]);
    } else {
      LoneStep(b, k, n);
      ValidAscii(b[..k]);
    }
  }

  ghost predicate Scalars(points: seq<nat>) {
    forall i :: 0 <= i < |points| ==> IsScalar(points[i])
  }

  lemma ScalarsCons(points: seq<nat>)
    requires points != [] && IsScalar(points[0]) && Scalars(points[1..])
    ensures Scalars(points)
  {
    assert forall i :: 1 <= i < |points| ==> points[i] == points[1..][i - 1];
  }

  lemma {:induction false} SpelledIsDecoded(b: string, points: seq<nat>)
    requires Spells(b, points)
    ensures Scalars(points) && ValidUtf8(b) && IsBody(b) && Decode(b) == Utf8Text(points)
    decreases |points|
  {
    if points == [] {
    } else {
      var k :| 0 < k <= |b| && Writes(b[..k], b[k..], points[0]) && Spells(b[k..], points[1..]);
      hide Writes, Decode, IsBody, ValidUtf8, Spells, EncodeUtf8, IsScalar;
      SpelledIsDecoded(b[k..], points[1..]);
      WritesStep(b, k, points[0]);
      hide Writes;
      ValidConcat(b[..k], b[k..]);
      SplitAt(b, k);
      ScalarsCons(points);
    }
  }

  // ---------------------------------------------------------------- what is decoded is spelled

  /** The code point that `b` starts with, and how many bytes it takes. */
  lemma NextWriting(b: string) returns (k: nat, n: nat)
    requires b != "" && IsBody(b) && ValidUtf8(b)
    ensures 0 < k <= |b| && Writes(b[..k], b[k..], n) && IsBody(b[k..]) && ValidUtf8(b[k..])
  {
    if b[0] as int >= 0x80 {
      k := FirstUnit(b).len;
      FirstUnitAlone(b);
      FirstUnitBytes(b);
      BodyPlainRun(b, k);
      n := HighWriting(b[..k]);
    } else if IsPlain(b[0]) {
      k, n := 1, b[0] as int;
      assert b[..1] == [b[0]];
      assert WritesPlain(b[..1], n);
      assert TokenLen(b) == 1;
    } else {
      k := StepLen(b);
      StepInBody(b);
      StepEndsAscii(b);
      ValidSplit(b, k - 1);
      n := EscapeWriting(b);
    }
  }

  lemma LowCode(n: nat)
    requires IsScalar(n)
    ensures n < 0x80 ==> EncodeUtf8(n)[0] as int == n
  {
  }

  lemma HighWriting(c: string) returns (n: nat)
    requires IsChar(c) && c[0] as int >= 0x80
    ensures WritesPlain(c, n)
  {
    EncodedCodePoint(c);
    n := CodePoint(c);
    LowCode(n);
    hide FirstUnit, EncodeUtf8, CodePoint;
  }

  lemma EscapeWriting(b: string) returns (n: nat)
    requires b != "" && IsBody(b) && b[0] == '\\'
    ensures TokenLen(b) > 0 && Writes(b[..StepLen(b)], b[StepLen(b)..], n)
  {
    if TokenLen(b) == 2 {
      assert StepLen(b) == 2;
      assert b[..2] == ['\\', b[1]];
      n := ShortEscapeValue(b[1]) as int;
      assert WritesShort(b[..2], n);
    } else {
      var hi := HexQuad(b[2..]).value;
      EscapeAt(b, hi);
      if StartsPair(b) {
        n := PairWriting(b);
      } else {
        n := LoneChar(hi);
        assert WritesUnicode(b[..6], n);
        NotHighBefore(b, hi);
      }
    }
  }

  lemma NotHighBefore(b: string, hi: nat)
    requires IsBody(b) && TokenLen(b) == 6 && !StartsPair(b) && HexQuad(b[2..]) == Some(hi)
    ensures !(IsHigh(b[..6]) && StartsUnicode(b[6..]))
  {
    if IsHigh(b[..6]) && StartsUnicode(b[6..]) {
      var v: nat :| UnicodeEscape(b[..6], v) && 0xD800 <= v < 0xDC00;
      EscapeAt(b, v);
      UnicodeToken(b[6..]);
      DropTwo(b);
    }
  }

  lemma DropTwo(b: string)
    requires |b| >= 8
    ensures b[6..][2..] == b[8..]
  {
  }

  lemma PairWriting(b: string) returns (n: nat)
    requires StartsPair(b)
    ensures |b| >= 12 && WritesPair(b[..12], n)
  {
    var t := b[6..];
    assert t[2..] == b[8..];
    var hi, lo := HexQuad(b[2..]).value, HexQuad(b[8..]).value;
    EscapeAt(b, hi);
    EscapeAt(t, lo);
    assert b[..12][..6] == b[..6] && b[..12][6..] == t[..6];
    n := if 0xDC00 <= lo < 0xE000 then 0x10000 + (hi - 0xD800) * 0x400 + (lo - 0xDC00) else 0xFFFD;
  }

  lemma {:induction false} DecodedIsSpelled(b: string) returns (points: seq<nat>)
    requires IsBody(b) && ValidUtf8(b)
    ensures Spells(b, points)
    decreases |b|
  {
    points := [];
    if b != "" {
      hide Writes, Decode, IsBody, ValidUtf8;
      var k, n := NextWriting(b);
      var more := DecodedIsSpelled(b[k..]);
      points := [n] + more;
      assert points[1..] == more;
    }
  }

  /** `b` is a concatenation of writings of the characters of `t`. */
  ghost predicate SpellsText(b: string, t: string) {
    exists points :: Scalars(points) && Spells(b, points) && t == Utf8Text(points)
  }

  /** A text is the decoding of a string body exactly when the body spells it, character by character. */
  lemma DecodeExact(b: string, t: string)
    ensures ValidUtf8(b) && IsBody(b) && Decode(b) == t <==> SpellsText(b, t)
  {
    hide ValidUtf8, IsBody, Decode, Spells, Utf8Text;
    if SpellsText(b, t) {
      var points :| Scalars(points) && Spells(b, points) && t == Utf8Text(points);
      SpelledIsDecoded(b, points);
    }
    if ValidUtf8(b) && IsBody(b) && Decode(b) == t {
      var points := DecodedIsSpelled(b);
      SpelledIsDecoded(b, points);
    }
  }

  /** The text that stands for ill-formed bytes is the character U+FFFD. */
  lemma ReplacementIs()
    ensures REPLACEMENT == EncodeUtf8(0xFFFD)
  {
  }

  lemma {:induction false} EscapeConcat(style: Style, a: string, b: string)
    ensures Escape(style, a + b) == Escape(style, a) + Escape(style, b)
  {
    hide EscapeByte;
    if a == "" {
      assert a + b == b;
    } else {
      EscapeConcat(style, a[1..], b);
      assert (a + b)[1..] == a[1..] + b;
      var x, y, z := EscapeByte(style, a[0]), Escape(style, a[1..]), Escape(style, b);
      assert x + (y + z) == x + y + z;
    }
  }

  lemma LowerDigit(n: nat)
    requires n < 16
    ensures LowerHex(n) == "0123456789abcdef"[n]
  {
    var h := "0123456789abcdef";
    assert h[0] == '0' && h[1] == '1' && h[2] == '2' && h[3] == '3' && h[4] == '4' && h[5] == '5' && h[6] == '6'
           && h[7] == '7' && h[8] == '8' && h[9] == '9' && h[10] == 'a' && h[11] == 'b' && h[12] == 'c' && h[13] == 'd'
           && h[14] == 'e' && h[15] == 'f';
  }

  /** How the two escapers write each byte: quote, backslash, line feed, carriage return and tab have short
      escapes, backspace and form feed only in serde's style, and the other controls four digits. */
  lemma EscapeExact(style: Style, c: char)
    ensures Escape(style, "") == ""
    ensures Escape(style, [c]) ==
            if c as int == 0x22 then "\\\"" else if c as int == 0x5C then "\\\\" else if c as int == 0x0A then "\\n"
            else if c as int == 0x0D then "\\r" else if c as int == 0x09 then "\\t"
            else if style == Serde && c as int == 0x08 then "\\b" else if style == Serde && c as int == 0x0C then "\\f"
            else if c as int < 0x20 then "\\u00" + ["0123456789abcdef"[c as int / 16], "0123456789abcdef"[c as int % 16]]
            else [c]
  {
    assert [c][1..] == "";
    assert Escape(style, [c]) == EscapeByte(style, c) + "";
    if c as int < 0x20 {
      LowerDigit(c as int / 16);
      LowerDigit(c as int % 16);
    }
    hide LowerHex;
  }
}
