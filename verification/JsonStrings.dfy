/** JSON strings (section 7 of RFC 8259, with the scanner's own rule for `\u` digits): the bytes
    between the quotes, the text they stand for, and the escapers that write such bytes. */
module JsonStrings {
  import opened Text

  // ---------------------------------------------------------------- the grammar of a string body

  predicate IsPlain(c: char) {
    c != '"' && c != '\\' && c as int >= 0x20
  }

  predicate IsShortEscape(c: char) {
    c == '"' || c == '\\' || c == '/' || c == 'b' || c == 'f' || c == 'n' || c == 'r' || c == 't'
  }

  function ShortEscapeValue(c: char): char
    requires IsShortEscape(c)
  {
    match c
    case 'b' => 0x08 as char
    case 'f' => 0x0C as char
    case 'n' => '\n'
    case 'r' => '\r'
    case 't' => '\t'
    case _ => c
  }

  /** The value of the four bytes after `\u`: four hexadecimal digits, or `+` and three. */
  function HexQuad(s: string): (r: Option<nat>)
    ensures r.Some? ==> r.value < 0x10000 && |s| >= 4
  {
    if |s| < 4 || !(IsHex(s[0]) || s[0] == '+') || !IsHex(s[1]) || !IsHex(s[2]) || !IsHex(s[3]) then None
    else
      Some((if s[0] == '+' then 0 else HexValue(s[0]) * 0x1000)
           + HexValue(s[1]) * 0x100 + HexValue(s[2]) * 0x10 + HexValue(s[3]))
  }

  predicate StartsUnicode(s: string) {
    |s| >= 2 && s[0] == '\\' && s[1] == 'u'
  }

  /** The length of the string character that `s` starts with; 0 when there is none. */
  function TokenLen(s: string): (n: nat)
    ensures n <= |s|
  {
    if s == "" then 0
    else if IsPlain(s[0]) then 1
    else if s[0] == '\\' && |s| >= 2 && IsShortEscape(s[1]) then 2
    else if StartsUnicode(s) && HexQuad(s[2..]).Some? then 6
    else 0
  }

  predicate IsBody(b: string) {
    b == "" || (TokenLen(b) > 0 && IsBody(b[TokenLen(b)..]))
  }

  /** The length of the body that ends at the first closing quote. */
  function BodyLen(s: string): Option<nat> {
    if s == "" then None
    else if s[0] == '"' then Some(0)
    else if TokenLen(s) == 0 then None
    else match BodyLen(s[TokenLen(s)..])
      case None => None
      case Some(k) => Some(TokenLen(s) + k)
  }

  lemma BodyLenUnfold(s: string)
    requires TokenLen(s) > 0
    ensures var r := BodyLen(s[TokenLen(s)..]);
            BodyLen(s) == if r.Some? then Some(TokenLen(s) + r.value) else None
  {
  }

  lemma TokenOfPrefix(b: string, r: string)
    requires TokenLen(b) > 0
    ensures TokenLen(b + r) == TokenLen(b)
    ensures (b + r)[TokenLen(b)..] == b[TokenLen(b)..] + r
  {
    if TokenLen(b) == 6 {
      assert forall i :: 0 <= i < 4 ==> (b + r)[2..][i] == b[2..][i];
    }
  }

  lemma TokenOfTake(s: string, k: nat)
    requires 0 < TokenLen(s) <= k <= |s|
    ensures TokenLen(s[..k]) == TokenLen(s) && s[..k][TokenLen(s)..] == s[TokenLen(s)..][..k - TokenLen(s)]
  {
    if TokenLen(s) == 6 {
      assert forall i :: 0 <= i < 4 ==> s[..k][2..][i] == s[2..][i];
    }
  }

  lemma {:induction false} BodyLenSound(s: string)
    requires BodyLen(s).Some?
    ensures var k := BodyLen(s).value; k < |s| && s[k] == '"' && IsBody(s[..k])
    decreases |s|
  {
    if s[0] != '"' {
      var n := TokenLen(s);
      BodyLenSound(s[n..]);
      hide TokenLen;
      var k := BodyLen(s).value;
      TokenOfTake(s, k);
    }
  }

  lemma {:induction false} BodyLenComplete(b: string, q: string)
    requires IsBody(b) && q != "" && q[0] == '"'
    ensures BodyLen(b + q) == Some(|b|)
    decreases |b|
  {
    if b == "" {
      assert b + q == q;
    } else {
      hide TokenLen, BodyLen;
      TokenOfPrefix(b, q);
      BodyLenUnfold(b + q);
      BodyLenComplete(b[TokenLen(b)..], q);
    }
  }

  // ---------------------------------------------------------------- the text of a body

  predicate IsHighSurrogate(n: nat) {
    0xD800 <= n < 0xDC00
  }

  predicate IsLowSurrogate(n: nat) {
    0xDC00 <= n < 0xE000
  }

  predicate IsScalar(n: nat) {
    n < 0xD800 || 0xE000 <= n < 0x110000
  }

  /** The UTF-8 bytes of one character. */
  function EncodeUtf8(n: nat): (s: string)
    requires IsScalar(n)
    ensures s != "" && FirstUnit(s) == Unit(|s|, true)
  {
    if n < 0x80 then [n as char]
    else if n < 0x800 then [(0xC0 + n / 0x40) as char, (0x80 + n % 0x40) as char]
    else if n < 0x10000 then
      [(0xE0 + n / 0x1000) as char, (0x80 + n / 0x40 % 0x40) as char, (0x80 + n % 0x40) as char]
    else
      [(0xF0 + n / 0x40000) as char, (0x80 + n / 0x1000 % 0x40) as char,
       (0x80 + n / 0x40 % 0x40) as char, (0x80 + n % 0x40) as char]
  }

  /** A lone `\u` escape; a surrogate becomes U+FFFD. */
  function LoneChar(n: nat): (c: nat)
    requires n < 0x10000
    ensures IsScalar(c)
  {
    if IsScalar(n) then n else 0xFFFD
  }

  /** A high surrogate and the `\u` escape after it; a pair that does not combine is one U+FFFD. */
  function PairChar(hi: nat, lo: nat): (c: nat)
    requires IsHighSurrogate(hi) && lo < 0x10000
    ensures IsScalar(c)
  {
    if IsLowSurrogate(lo) then 0x10000 + (hi - 0xD800) * 0x400 + (lo - 0xDC00) else 0xFFFD
  }

  /** Whether `b` starts with two `\u` escapes that are read together. */
  predicate StartsPair(b: string) {
    && TokenLen(b) == 6
    && IsHighSurrogate(HexQuad(b[2..]).value)
    && StartsUnicode(b[6..])
    && HexQuad(b[8..]).Some?
  }

  /** How many bytes of `b` the next decoded character takes. */
  function StepLen(b: string): (n: nat)
    requires TokenLen(b) > 0
    ensures 0 < n <= |b|
  {
    if StartsPair(b) then 12 else TokenLen(b)
  }

  /** The bytes the next decoded character stands for. */
  function StepText(b: string): (t: string)
    requires TokenLen(b) > 0
    ensures t != ""
  {
    if StartsPair(b) then EncodeUtf8(PairChar(HexQuad(b[2..]).value, HexQuad(b[8..]).value))
    else if TokenLen(b) == 6 then EncodeUtf8(LoneChar(HexQuad(b[2..]).value))
    else if TokenLen(b) == 2 then [ShortEscapeValue(b[1])]
    else [b[0]]
  }

  /** The text of a body; what follows the last string character is ignored. */
  function Decode(b: string): string {
    if TokenLen(b) == 0 then "" else StepText(b) + Decode(b[StepLen(b)..])
  }

  lemma UnicodeToken(b: string)
    requires IsBody(b) && StartsUnicode(b)
    ensures TokenLen(b) == 6 && HexQuad(b[2..]).Some? && IsBody(b[6..])
  {
  }

  /** Decoding steps through a body without leaving it. */
  lemma StepInBody(b: string)
    requires b != "" && IsBody(b)
    ensures TokenLen(b) > 0 && IsBody(b[StepLen(b)..])
  {
    if StartsPair(b) {
      UnicodeToken(b[6..]);
      assert b[6..][6..] == b[12..];
    }
  }

  lemma DecodeUnfold(b: string)
    requires TokenLen(b) > 0
    ensures Decode(b) == StepText(b) + Decode(b[StepLen(b)..])
  {
  }

  lemma DecodePlainByte(b: string)
    requires b != "" && IsPlain(b[0])
    ensures Decode(b) == [b[0]] + Decode(b[1..])
  {
  }

  /** Bytes from 0x80 up are plain, so a whole character is decoded as itself. */
  lemma {:induction false} DecodePlainRun(b: string, n: nat)
    requires n <= |b| && forall i :: 0 <= i < n ==> IsPlain(b[i])
    ensures Decode(b) == b[..n] + Decode(b[n..])
  {
    hide Decode;
    if n == 0 {
      assert b[0..] == b;
    } else {
      DecodePlainRun(b, n - 1);
      DecodePlainByte(b[n - 1..]);
      Grow(b, n, Decode(b[n..]));
    }
  }

  lemma {:induction false} BodyPlainRun(b: string, n: nat)
    requires n <= |b| && forall i :: 0 <= i < n ==> IsPlain(b[i])
    ensures IsBody(b) <==> IsBody(b[n..])
  {
    if n == 0 {
      assert b[0..] == b;
    } else {
      BodyPlainRun(b, n - 1);
      assert b[n - 1..][1..] == b[n..];
    }
  }

  lemma StepEndsAscii(b: string)
    requires TokenLen(b) > 0 && b[0] as int < 0x80
    ensures b[StepLen(b) - 1] as int < 0x80
    ensures FirstUnit(StepText(b)) == Unit(|StepText(b)|, true)
  {
    if StartsPair(b) {
      assert IsHex(b[8..][3]);
    }
  }

  lemma {:induction false} DecodeIsValid(b: string)
    requires IsBody(b) && ValidUtf8(b)
    ensures ValidUtf8(Decode(b))
    decreases |b|
  {
    if b == "" {
    } else {
      DecodeUnfold(b);
      hide Decode, StepText, StepLen, FirstUnit;
      var n := FirstUnit(b).len;
      if n > 1 {
        FirstUnitBytes(b);
        DecodePlainRun(b, n);
        BodyPlainRun(b, n);
        DecodeIsValid(b[n..]);
        FirstUnitAlone(b);
        ValidCons(b[..n], Decode(b[n..]));
      } else {
        var k := StepLen(b);
        StepInBody(b);
        StepEndsAscii(b);
        ValidSplit(b, k - 1);
        DecodeIsValid(b[k..]);
        ValidCons(StepText(b), Decode(b[k..]));
      }
    }
  }

  // ---------------------------------------------------------------- escaping

  /** Which control characters an escaper writes in the short form. */
  datatype Style = Serde | Logger

  function EscapeByte(style: Style, c: char): string {
    if c == '"' then "\\\""
    else if c == '\\' then "\\\\"
    else if c == '\n' then "\\n"
    else if c == '\r' then "\\r"
    else if c == '\t' then "\\t"
    else if style.Serde? && c as int == 0x08 then "\\b"
    else if style.Serde? && c as int == 0x0C then "\\f"
    else if c as int < 0x20 then ['\\', 'u', '0', '0', LowerHex(c as int / 16), LowerHex(c as int % 16)]
    else [c]
  }

  /** `serde_json::to_string` and the logger's `push_json_string`, without the quotes. */
  function Escape(style: Style, s: string): string {
    if s == "" then "" else EscapeByte(style, s[0]) + Escape(style, s[1..])
  }

  lemma EscapedByteIsToken(style: Style, c: char, r: string)
    ensures var e := EscapeByte(style, c);
            TokenLen(e + r) == |e| > 0 && !StartsPair(e + r) && StepText(e + r) == [c] && (e + r)[|e|..] == r
  {
    var e := EscapeByte(style, c);
    var b := e + r;
    if |e| == 6 {
      var h := b[2..];
      assert h[0] == e[2] && h[1] == e[3] && h[2] == e[4] && h[3] == e[5];
      assert HexQuad(h) == Some(c as int);
    }
  }

  lemma EscapedByteDecodes(style: Style, c: char, r: string)
    requires IsBody(r)
    ensures var b := EscapeByte(style, c) + r;
            IsBody(b) && Decode(b) == [c] + Decode(r)
  {
    hide EscapeByte, TokenLen, StartsPair, StepText;
    EscapedByteIsToken(style, c, r);
  }

  /** Reading back an escaped string gives the string, whatever bytes it holds. */
  lemma {:induction false} DecodeEscape(style: Style, s: string)
    ensures IsBody(Escape(style, s)) && Decode(Escape(style, s)) == s
  {
    hide EscapeByte, TokenLen, StepText, StepLen;
    if s != "" {
      DecodeEscape(style, s[1..]);
      EscapedByteDecodes(style, s[0], Escape(style, s[1..]));
      hide Decode, IsBody;
    }
  }

  lemma EscapeHighByte(style: Style, s: string)
    requires s != "" && 0x80 <= s[0] as int
    ensures Escape(style, s) == [s[0]] + Escape(style, s[1..])
  {
  }

  lemma {:induction false} EscapeHighRun(style: Style, s: string, n: nat)
    requires n <= |s| && forall i :: 0 <= i < n ==> 0x80 <= s[i] as int
    ensures Escape(style, s) == s[..n] + Escape(style, s[n..])
  {
    hide Escape;
    if n == 0 {
      assert s[0..] == s;
    } else {
      EscapeHighRun(style, s, n - 1);
      EscapeHighByte(style, s[n - 1..]);
      Grow(s, n, Escape(style, s[n..]));
    }
  }

  lemma EscapedByteIsAscii(style: Style, c: char)
    requires c as int < 0x80
    ensures forall i :: 0 <= i < |EscapeByte(style, c)| ==> EscapeByte(style, c)[i] as int < 0x80
  {
  }

  lemma {:induction false} EscapeIsValid(style: Style, s: string)
    requires ValidUtf8(s)
    ensures ValidUtf8(Escape(style, s))
    decreases |s|
  {
    if s == "" {
    } else {
      hide FirstUnit, EscapeByte;
      var n := FirstUnit(s).len;
      EscapeIsValid(style, s[n..]);
      if n > 1 {
        FirstUnitBytes(s);
        EscapeHighRun(style, s, n);
        hide Escape;
        FirstUnitAlone(s);
        ValidCons(s[..n], Escape(style, s[n..]));
      } else {
        EscapedByteIsAscii(style, s[0]);
        ValidAscii(EscapeByte(style, s[0]));
        ValidConcat(EscapeByte(style, s[0]), Escape(style, s[1..]));
      }
    }
  }
}
