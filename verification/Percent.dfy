/** Percent escapes of URL paths and queries (src/util.rs). */
module Percent {
  import opened Text

  // ---------------------------------------------------------------- decoding

  predicate StartsEscape(s: string) {
    |s| >= 3 && s[0] == '%' && IsHex(s[1]) && IsHex(s[2])
  }

  function EscapeValue(s: string): char
    requires StartsEscape(s)
  {
    (HexValue(s[1]) * 16 + HexValue(s[2])) as char
  }

  /** The bytes that `s` stands for; none when an escape is malformed. */
  function RawDecode(s: string, plus: bool): Option<string> {
    if s == "" then Some("")
    else if s[0] == '%' then
      if !StartsEscape(s) then None
      else match RawDecode(s[3..], plus)
        case None => None
        case Some(t) => Some([EscapeValue(s)] + t)
    else match RawDecode(s[1..], plus)
      case None => None
      case Some(t) => Some([if plus && s[0] == '+' then ' ' else s[0]] + t)
  }

  function PercentDecode(s: string, plus: bool): Option<string> {
    match RawDecode(s, plus)
    case None => None
    case Some(t) => Some(Lossy(t))
  }

  function Attach(out: string, r: Option<string>): Option<string> {
    match r
    case None => None
    case Some(t) => Some(out + t)
  }

  lemma RawStep(s: string, plus: bool, i: nat, out: string)
    requires i < |s|
    ensures s[i] == '%' && i + 2 < |s| && IsHex(s[i + 1]) && IsHex(s[i + 2]) ==>
              Attach(out, RawDecode(s[i..], plus)) ==
              Attach(out + [(HexValue(s[i + 1]) * 16 + HexValue(s[i + 2])) as char], RawDecode(s[i + 3..], plus))
    ensures s[i] == '%' && !(i + 2 < |s| && IsHex(s[i + 1]) && IsHex(s[i + 2])) ==> RawDecode(s[i..], plus) == None
    ensures s[i] != '%' ==>
              Attach(out, RawDecode(s[i..], plus)) ==
              Attach(out + [if plus && s[i] == '+' then ' ' else s[i]], RawDecode(s[i + 1..], plus))
  {
    var t := s[i..];
    if s[i] == '%' {
      if StartsEscape(t) {
        assert t[3..] == s[i + 3..];
        var c := EscapeValue(t);
        var r := RawDecode(s[i + 3..], plus);
        assert r.Some? ==> out + ([c] + r.value) == out + [c] + r.value;
      }
    } else {
      assert t[1..] == s[i + 1..];
      var c := if plus && s[i] == '+' then ' ' else s[i];
      var r := RawDecode(s[i + 1..], plus);
      assert r.Some? ==> out + ([c] + r.value) == out + [c] + r.value;
    }
  }

  /** Text without escapes decodes to itself. */
  lemma {:induction false} RawDecodePlain(s: string, plus: bool)
    requires '%' !in s && (plus ==> '+' !in s)
    ensures RawDecode(s, plus) == Some(s)
  {
    if s != "" {
      RawDecodePlain(s[1..], plus);
      assert [s[0]] + s[1..] == s;
    }
  }

  method DecodePercent(s: string, plus: bool) returns (r: Option<string>)
    requires ValidUtf8(s)
    ensures r == PercentDecode(s, plus)
  {
    if !('%' in s || (plus && '+' in s)) {
      RawDecodePlain(s, plus);
      LossyOnValid(s);
      return Some(s);
    }
    hide RawDecode, Lossy, ValidUtf8;
    var out := "";
    var i := 0;
    assert s[0..] == s;
    AttachNothing(RawDecode(s, plus));
    while i < |s|
      invariant 0 <= i <= |s|
      invariant RawDecode(s, plus) == Attach(out, RawDecode(s[i..], plus))
    {
      RawStep(s, plus, i, out);
      if s[i] == '%' {
        if i + 1 >= |s| || !IsHex(s[i + 1]) || i + 2 >= |s| || !IsHex(s[i + 2]) {
          return None;
        }
        out := out + [(HexValue(s[i + 1]) * 16 + HexValue(s[i + 2])) as char];
        i := i + 3;
      } else if s[i] == '+' && plus {
        out := out + " ";
        i := i + 1;
      } else {
        out := out + [s[i]];
        i := i + 1;
      }
    }
    RawDecodeEnd(s, plus, out);
    LossyChecked(out);
    r := Some(if ValidUtf8(out) then out else Lossy(out));
  }

  lemma LossyChecked(s: string)
    ensures ValidUtf8(s) ==> Lossy(s) == s
  {
    if ValidUtf8(s) {
      LossyOnValid(s);
    }
  }

  lemma AttachNothing(r: Option<string>)
    ensures Attach("", r) == r
  {
    if r.Some? {
      assert "" + r.value == r.value;
    }
  }

  lemma RawDecodeEnd(s: string, plus: bool, out: string)
    ensures Attach(out, RawDecode(s[|s|..], plus)) == Some(out)
  {
    assert out + "" == out;
  }

  // ---------------------------------------------------------------- escaping

  predicate IsUnreserved(c: char) {
    'A' <= c <= 'Z' || 'a' <= c <= 'z' || IsDigit(c) || c == '-' || c == '_' || c == '.' || c == '~'
  }

  /** The bytes `escape_path` keeps. */
  predicate KeptInPath(c: char) {
    IsUnreserved(c) || c == '$' || c == '&' || c == '+' || c == ',' || c == '/' || c == ':' || c == ';'
    || c == '=' || c == '@'
  }

  function HexEscape(c: char): string {
    ['%', UpperHex(c as int / 16 % 16), UpperHex(c as int % 16)]
  }

  function PathByte(c: char): string {
    if KeptInPath(c) then [c] else HexEscape(c)
  }

  function QueryByte(c: char): string {
    if IsUnreserved(c) then [c] else if c == ' ' then "+" else HexEscape(c)
  }

  function EscapePath(s: string): string {
    if s == "" then "" else PathByte(s[0]) + EscapePath(s[1..])
  }

  function QueryEscape(s: string): string {
    if s == "" then "" else QueryByte(s[0]) + QueryEscape(s[1..])
  }

  lemma PathStep(s: string, i: nat, out: string)
    requires i < |s|
    ensures out + EscapePath(s[i..]) == out + PathByte(s[i]) + EscapePath(s[i + 1..])
  {
    hide PathByte;
    assert s[i..][1..] == s[i + 1..];
  }

  lemma PathEnd(s: string)
    requires s == ""
    ensures EscapePath(s) == ""
  {
  }

  method EscapePathLoop(s: string) returns (out: string)
    ensures out == EscapePath(s)
  {
    hide EscapePath, KeptInPath;
    out := "";
    assert s[0..] == s;
    for i := 0 to |s|
      invariant EscapePath(s) == out + EscapePath(s[i..])
    {
      PathStep(s, i, out);
      if KeptInPath(s[i]) {
        out := out + [s[i]];
      } else {
        out := out + ['%', UpperHex(s[i] as int / 16 % 16), UpperHex(s[i] as int % 16)];
      }
    }
    PathEnd(s[|s|..]);
  }

  lemma QueryStep(s: string, i: nat, out: string)
    requires i < |s|
    ensures out + QueryEscape(s[i..]) == out + QueryByte(s[i]) + QueryEscape(s[i + 1..])
  {
    hide QueryByte;
    assert s[i..][1..] == s[i + 1..];
  }

  lemma QueryEnd(s: string)
    requires s == ""
    ensures QueryEscape(s) == ""
  {
  }

  method QueryEscapeLoop(s: string) returns (out: string)
    ensures out == QueryEscape(s)
  {
    hide QueryEscape, IsUnreserved;
    out := "";
    assert s[0..] == s;
    for i := 0 to |s|
      invariant QueryEscape(s) == out + QueryEscape(s[i..])
    {
      QueryStep(s, i, out);
      if IsUnreserved(s[i]) {
        out := out + [s[i]];
      } else if s[i] == ' ' {
        out := out + "+";
      } else {
        out := out + ['%', UpperHex(s[i] as int / 16 % 16), UpperHex(s[i] as int % 16)];
      }
    }
    QueryEnd(s[|s|..]);
  }

  // ---------------------------------------------------------------- round trips

  lemma {:induction false} ValidIsBytes(s: string)
    requires ValidUtf8(s)
    ensures All(IsByte, s)
    decreases |s|
  {
    if s != "" {
      hide FirstUnit;
      var n := FirstUnit(s).len;
      ValidIsBytes(s[n..]);
      if s[0] as int >= 0x80 {
        FirstUnitBytes(s);
      }
      assert forall i :: n <= i < |s| ==> s[i] == s[n..][i - n];
    }
  }

  lemma HexEscapeDecodes(c: char, r: string, plus: bool)
    requires IsByte(c)
    ensures RawDecode(HexEscape(c) + r, plus) == Attach([c], RawDecode(r, plus))
  {
    var s := HexEscape(c) + r;
    assert s[3..] == r;
    assert StartsEscape(s) && EscapeValue(s) == c;
  }

  lemma PlainByteDecodes(c: char, r: string, plus: bool)
    requires c != '%' && !(plus && c == '+')
    ensures RawDecode([c] + r, plus) == Attach([c], RawDecode(r, plus))
  {
    assert ([c] + r)[1..] == r;
  }

  /** Decoding undoes `escape_path`, whatever follows. */
  lemma {:induction false} EscapePathDecodes(s: string)
    requires All(IsByte, s)
    ensures RawDecode(EscapePath(s), false) == Some(s)
  {
    hide RawDecode;
    if s == "" {
      RawDecodePlain("", false);
    } else {
      assert IsByte(s[0]);
      EscapePathDecodes(s[1..]);
      if KeptInPath(s[0]) {
        PlainByteDecodes(s[0], EscapePath(s[1..]), false);
      } else {
        HexEscapeDecodes(s[0], EscapePath(s[1..]), false);
      }
      assert [s[0]] + s[1..] == s;
    }
  }

  lemma {:induction false} QueryEscapeDecodes(s: string)
    requires All(IsByte, s)
    ensures RawDecode(QueryEscape(s), true) == Some(s)
  {
    hide RawDecode;
    if s == "" {
      RawDecodePlain("", true);
    } else {
      assert IsByte(s[0]);
      QueryEscapeDecodes(s[1..]);
      if IsUnreserved(s[0]) {
        PlainByteDecodes(s[0], QueryEscape(s[1..]), true);
      } else if s[0] == ' ' {
        SpaceDecodes(QueryEscape(s[1..]));
      } else {
        HexEscapeDecodes(s[0], QueryEscape(s[1..]), true);
      }
      assert [s[0]] + s[1..] == s;
    }
  }

  lemma SpaceDecodes(r: string)
    ensures RawDecode("+" + r, true) == Attach(" ", RawDecode(r, true))
  {
    assert ("+" + r)[1..] == r;
  }

  lemma PathRoundTrips(s: string)
    requires ValidUtf8(s)
    ensures PercentDecode(EscapePath(s), false) == Some(s)
  {
    ValidIsBytes(s);
    EscapePathDecodes(s);
    LossyOnValid(s);
  }

  lemma QueryRoundTrips(s: string)
    requires ValidUtf8(s)
    ensures PercentDecode(QueryEscape(s), true) == Some(s)
  {
    ValidIsBytes(s);
    QueryEscapeDecodes(s);
    LossyOnValid(s);
  }

  /** Decoded text is always valid UTF-8. */
  lemma DecodedIsValid(s: string, plus: bool)
    requires PercentDecode(s, plus).Some?
    ensures ValidUtf8(PercentDecode(s, plus).value)
  {
    LossyIsValid(RawDecode(s, plus).value);
  }

  // ---------------------------------------------------------------- which bytes come out

  predicate EscapedInPath(c: char) {
    KeptInPath(c) || c == '%'
  }

  predicate EscapedInQuery(c: char) {
    IsUnreserved(c) || c == '%' || c == '+'
  }

  lemma {:induction false} EscapePathBytes(s: string)
    ensures All(EscapedInPath, EscapePath(s))
  {
    if s != "" {
      EscapePathBytes(s[1..]);
      assert All(EscapedInPath, PathByte(s[0]));
    }
  }

  lemma {:induction false} QueryEscapeBytes(s: string)
    ensures All(EscapedInQuery, QueryEscape(s))
  {
    if s != "" {
      QueryEscapeBytes(s[1..]);
      assert All(EscapedInQuery, QueryByte(s[0]));
    }
  }

  lemma {:induction false} EscapePathConcat(a: string, b: string)
    ensures EscapePath(a + b) == EscapePath(a) + EscapePath(b)
  {
    if a == "" {
      assert a + b == b;
      assert "" + EscapePath(b) == EscapePath(b);
    } else {
      assert (a + b)[1..] == a[1..] + b;
      EscapePathConcat(a[1..], b);
      assert PathByte(a[0]) + (EscapePath(a[1..]) + EscapePath(b)) == PathByte(a[0]) + EscapePath(a[1..]) + EscapePath(b);
    }
  }

  /** `escape_path` changes a text exactly when some byte of it is not kept. */
  lemma {:induction false} EscapePathKeeps(s: string)
    ensures All(KeptInPath, s) ==> EscapePath(s) == s
    ensures !All(KeptInPath, s) ==> |EscapePath(s)| > |s|
    ensures |EscapePath(s)| >= |s|
  {
    if s != "" {
      EscapePathKeeps(s[1..]);
      assert [s[0]] + s[1..] == s;
      assert All(KeptInPath, s) <==> KeptInPath(s[0]) && All(KeptInPath, s[1..]);
    }
  }

  // ---------------------------------------------------------------- byte by byte

  const UPPER_HEX: string := "0123456789ABCDEF"

  lemma HexDigitIs(n: nat)
    requires n < 16
    ensures UpperHex(n) == UPPER_HEX[n]
  {
    var h := UPPER_HEX;
    assert h[0] == '0' && h[1] == '1' && h[2] == '2' && h[3] == '3' && h[4] == '4' && h[5] == '5' && h[6] == '6'
           && h[7] == '7' && h[8] == '8' && h[9] == '9' && h[10] == 'A' && h[11] == 'B' && h[12] == 'C' && h[13] == 'D'
           && h[14] == 'E' && h[15] == 'F';
  }

  predicate IsAlphanumeric(c: char) {
    'A' <= c <= 'Z' || 'a' <= c <= 'z' || '0' <= c <= '9'
  }

  lemma HexEscapeIs(c: char)
    requires IsByte(c)
    ensures HexEscape(c) == ['%', UPPER_HEX[c as int / 16], UPPER_HEX[c as int % 16]]
  {
    HexDigitIs(c as int / 16);
    HexDigitIs(c as int % 16);
    hide UpperHex, UPPER_HEX;
    assert c as int / 16 % 16 == c as int / 16;
  }

  lemma PathByteIs(c: char)
    requires IsByte(c)
    ensures PathByte(c) == if IsAlphanumeric(c) || c in "-_.~$&+,/:;=@" then [c]
                           else ['%', UPPER_HEX[c as int / 16], UPPER_HEX[c as int % 16]]
  {
    HexEscapeIs(c);
    hide HexEscape, UPPER_HEX;
  }

  lemma OneByte(c: char)
    ensures EscapePath([c]) == PathByte(c) && QueryEscape([c]) == QueryByte(c)
  {
    hide PathByte, QueryByte;
    assert [c][1..] == "";
  }

  /** Path escaping byte by byte: letters, digits and `-_.~$&+,/:;=@` are kept, every other byte becomes
      a percent sign and its two digits in capitals. */
  lemma EscapePathExact(a: string, b: string, c: char)
    requires IsByte(c)
    ensures EscapePath("") == "" && EscapePath(a + b) == EscapePath(a) + EscapePath(b)
    ensures EscapePath([c]) == if IsAlphanumeric(c) || c in "-_.~$&+,/:;=@" then [c]
                               else ['%', UPPER_HEX[c as int / 16], UPPER_HEX[c as int % 16]]
  {
    EscapePathConcat(a, b);
    OneByte(c);
    PathByteIs(c);
    hide PathByte, UPPER_HEX;
  }

  lemma {:induction false} QueryEscapeConcat(a: string, b: string)
    ensures QueryEscape(a + b) == QueryEscape(a) + QueryEscape(b)
  {
    hide QueryByte;
    if a == "" {
      assert a + b == b;
    } else {
      QueryEscapeConcat(a[1..], b);
      assert (a + b)[1..] == a[1..] + b;
      var x, y, z := QueryByte(a[0]), QueryEscape(a[1..]), QueryEscape(b);
      assert QueryEscape(a + b) == x + (y + z);
      assert x + (y + z) == x + y + z;
    }
  }

  lemma QueryByteIs(c: char)
    requires IsByte(c)
    ensures QueryByte(c) == if IsAlphanumeric(c) || c in "-_.~" then [c] else if c == ' ' then "+"
                            else ['%', UPPER_HEX[c as int / 16], UPPER_HEX[c as int % 16]]
  {
    HexEscapeIs(c);
    hide HexEscape, UPPER_HEX;
  }

  /** Query escaping byte by byte: letters, digits and `-_.~` are kept, a space becomes a plus sign, and
      every other byte a percent sign and its two digits. */
  lemma QueryEscapeExact(a: string, b: string, c: char)
    requires IsByte(c)
    ensures QueryEscape("") == "" && QueryEscape(a + b) == QueryEscape(a) + QueryEscape(b)
    ensures QueryEscape([c]) == if IsAlphanumeric(c) || c in "-_.~" then [c] else if c == ' ' then "+"
                                else ['%', UPPER_HEX[c as int / 16], UPPER_HEX[c as int % 16]]
  {
    QueryEscapeConcat(a, b);
    OneByte(c);
    QueryByteIs(c);
    hide QueryByte, UPPER_HEX;
  }

  /** Percent decoding byte by byte: a percent sign must be followed by two hexadecimal digits, which give
      the byte; a plus sign is a space when asked for; every other byte is kept. */
  lemma RawDecodeExact(c: char, a: char, b: char, s: string, v: nat, w: nat, plus: bool)
    ensures RawDecode("", plus) == Some("")
    ensures c != '%' ==> RawDecode([c] + s, plus) == Attach([if plus && c == '+' then ' ' else c], RawDecode(s, plus))
    ensures HexDigit(a, v) && HexDigit(b, w) ==>
              RawDecode(['%', a, b] + s, plus) == Attach([(v * 16 + w) as char], RawDecode(s, plus))
    ensures !IsHex(a) || !IsHex(b) ==> RawDecode(['%', a, b] + s, plus) == None
    ensures RawDecode(['%'], plus) == None && RawDecode(['%', a], plus) == None
  {
    DigitIs(a, v);
    DigitIs(b, w);
    hide HexDigit, IsHex, HexValue;
    assert ([c] + s)[1..] == s && (['%', a, b] + s)[3..] == s;
  }
}
