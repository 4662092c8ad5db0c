/** Text log lines (src/logging.rs): quoting, which can be undone, and whole records, which can be
    read back. */
module LogText {
  import opened Text
  import opened JsonStrings
  import opened LogRecord
  import opened LogJson
  import Timestamp
  import ScanSpec
  import JsonSpelling

  // ---------------------------------------------------------------- characters

  /** The first character of a text. */
  function FirstChar(s: string): (c: string)
    requires s != ""
    ensures 0 < |c| <= |s| && c == s[..|c|]
  {
    s[..FirstUnit(s).len]
  }

  function AfterChar(s: string): (t: string)
    requires s != ""
    ensures |t| < |s|
  {
    s[FirstUnit(s).len..]
  }

  /** `char::is_control`: U+0000 to U+001F and U+007F to U+009F. */
  predicate IsControlChar(c: string) {
    || (|c| == 1 && (c[0] as int < 0x20 || c[0] as int == 0x7F))
    || (|c| == 2 && c[0] as int == 0xC2 && 0x80 <= c[1] as int < 0xA0)
  }

  /** The number of a control character. */
  function ControlCode(c: string): (n: nat)
    requires IsControlChar(c)
    ensures n < 0xA0 && EncodeUtf8(n) == c
  {
    c[|c| - 1] as int
  }

  predicate IsAwkward(c: string) {
    c == " " || c == "=" || c == "\"" || IsControlChar(c) || c == REPLACEMENT
  }

  predicate AnyAwkward(s: string) {
    s != "" && (IsAwkward(FirstChar(s)) || AnyAwkward(AfterChar(s)))
  }

  predicate NeedsQuoting(s: string) {
    s == "" || AnyAwkward(s)
  }

  function QuoteChar(c: string): string {
    if c == "\"" then "\\\""
    else if c == "\\" then "\\\\"
    else if c == "\n" then "\\n"
    else if c == "\r" then "\\r"
    else if c == "\t" then "\\t"
    else if IsControlChar(c) then ['\\', 'x', LowerHex(ControlCode(c) / 16), LowerHex(ControlCode(c) % 16)]
    else c
  }

  function QuoteBody(s: string): string {
    if s == "" then "" else QuoteChar(FirstChar(s)) + QuoteBody(AfterChar(s))
  }

  function TextString(s: string): string {
    if NeedsQuoting(s) then "\"" + (QuoteBody(s) + "\"") else s
  }

  // ---------------------------------------------------------------- the loops

  method NeedsQuotingLoop(s: string) returns (r: bool)
    ensures r == NeedsQuoting(s)
  {
    hide FirstChar, AfterChar, IsAwkward;
    if s == "" {
      return true;
    }
    var rest := s;
    while rest != ""
      invariant AnyAwkward(s) == AnyAwkward(rest)
      decreases |rest|
    {
      if IsAwkward(FirstChar(rest)) {
        return true;
      }
      rest := AfterChar(rest);
    }
    return false;
  }

  /** `push_text_string`. */
  method PushTextString(buffer: string, s: string) returns (out: string)
    ensures out == buffer + TextString(s)
  {
    hide FirstChar, AfterChar, NeedsQuoting, QuoteChar;
    var quoted := NeedsQuotingLoop(s);
    if !quoted {
      return buffer + s;
    }
    out := buffer + "\"";
    var rest := s;
    while rest != ""
      invariant out + QuoteBody(rest) == buffer + ("\"" + QuoteBody(s))
      decreases |rest|
    {
      BodyStep(rest, out);
      var e := QuoteCharOf(FirstChar(rest));
      out := out + e;
      rest := AfterChar(rest);
    }
    assert out + "" == out;
    Quoted(buffer, QuoteBody(s));
    out := out + "\"";
  }

  lemma BodyStep(s: string, out: string)
    requires s != ""
    ensures out + QuoteBody(s) == out + QuoteChar(FirstChar(s)) + QuoteBody(AfterChar(s))
  {
    hide FirstChar, AfterChar, QuoteChar;
  }

  lemma Quoted(buffer: string, body: string)
    ensures buffer + ("\"" + body) + "\"" == buffer + ("\"" + (body + "\""))
  {
  }

  method QuoteCharOf(c: string) returns (e: string)
    ensures e == QuoteChar(c)
  {
    match c
    case "\"" => return "\\\"";
    case "\\" => return "\\\\";
    case "\n" => return "\\n";
    case "\r" => return "\\r";
    case "\t" => return "\\t";
    case _ =>
      if IsControlChar(c) {
        return "\\x" + [LowerHex(ControlCode(c) / 16), LowerHex(ControlCode(c) % 16)];
      }
      return c;
  }

  // ---------------------------------------------------------------- reading a quoted text

  function Unquoted(c: char): char {
    match c
    case 'n' => '\n'
    case 'r' => '\r'
    case 't' => '\t'
    case _ => c
  }

  /** The text after an opening quote, and what follows the closing one. */
  function ReadQuoted(t: string): (r: Option<(string, string)>)
    ensures r.Some? ==> |r.value.1| < |t|
  {
    if t == "" then None
    else if t[0] == '"' then Some(("", t[1..]))
    else if t[0] != '\\' then ScanSpec.Prepend([t[0]], ReadQuoted(t[1..]))
    else if |t| < 2 then None
    else if t[1] != 'x' then ScanSpec.Prepend([Unquoted(t[1])], ReadQuoted(t[2..]))
    else if |t| < 4 || !IsHex(t[2]) || !IsHex(t[3]) then None
    else ScanSpec.Prepend(EncodeUtf8(HexValue(t[2]) * 16 + HexValue(t[3])), ReadQuoted(t[4..]))
  }

  predicate EndsWord(c: char) {
    c == ' ' || c == '\n'
  }

  /** A value: quoted, or up to the next space or newline. */
  function ReadValue(t: string): (r: Option<(string, string)>)
    ensures r.Some? ==> |r.value.1| <= |t|
  {
    if t != "" && t[0] == '"' then ReadQuoted(t[1..])
    else
      var n := Span(c => !EndsWord(c), t);
      Some((t[..n], t[n..]))
  }

  /** Bytes that stand for themselves. */
  lemma {:induction false} ReadPlain(u: string, k: string)
    requires forall i :: 0 <= i < |u| ==> u[i] != '"' && u[i] != '\\'
    ensures ReadQuoted(u + k) == ScanSpec.Prepend(u, ReadQuoted(k))
  {
    if u == "" {
      assert u + k == k;
      ScanSpec.PrependNothing(ReadQuoted(k));
    } else {
      ReadPlain(u[1..], k);
      assert (u + k)[1..] == u[1..] + k;
      ScanSpec.PrependTwice([u[0]], u[1..], ReadQuoted(k));
      assert [u[0]] + u[1..] == u;
    }
  }

  lemma ReadEscaped(e: char, k: string)
    requires e != 'x'
    ensures ReadQuoted(['\\', e] + k) == ScanSpec.Prepend([Unquoted(e)], ReadQuoted(k))
  {
    assert (['\\', e] + k)[2..] == k;
  }

  lemma ReadHex(n: nat, k: string)
    requires n < 0xA0
    ensures ReadQuoted(['\\', 'x', LowerHex(n / 16), LowerHex(n % 16)] + k) == ScanSpec.Prepend(EncodeUtf8(n), ReadQuoted(k))
  {
    hide EncodeUtf8;
    assert (['\\', 'x', LowerHex(n / 16), LowerHex(n % 16)] + k)[4..] == k;
  }

  ghost predicate IsChar(c: string) {
    c != "" && FirstUnit(c) == Unit(|c|, true)
  }

  lemma CharBytes(c: string)
    requires IsChar(c)
    ensures |c| == 1 || forall i :: 0 <= i < |c| ==> 0x80 <= c[i] as int
  {
    if c[0] as int >= 0x80 {
      FirstUnitBytes(c);
    }
  }

  lemma ShortQuotes(c: string)
    ensures c == "\"" ==> QuoteChar(c) == ['\\', '"']
    ensures c == "\\" ==> QuoteChar(c) == ['\\', '\\']
    ensures c == "\n" ==> QuoteChar(c) == ['\\', 'n']
    ensures c == "\r" ==> QuoteChar(c) == ['\\', 'r']
    ensures c == "\t" ==> QuoteChar(c) == ['\\', 't']
  {
  }

  /** A quoted character is read back as the character. */
  lemma CharReads(c: string, k: string)
    requires IsChar(c)
    ensures ReadQuoted(QuoteChar(c) + k) == ScanSpec.Prepend(c, ReadQuoted(k))
  {
    ShortQuotes(c);
    if c == "\"" {
      ReadEscaped('"', k);
    } else if c == "\\" {
      ReadEscaped('\\', k);
    } else if c == "\n" {
      ReadEscaped('n', k);
    } else if c == "\r" {
      ReadEscaped('r', k);
    } else if c == "\t" {
      ReadEscaped('t', k);
    } else {
      hide ReadQuoted, EncodeUtf8, FirstUnit;
      if IsControlChar(c) {
        ReadHex(ControlCode(c), k);
      } else {
        CharBytes(c);
        PlainChar(c);
        ReadPlain(c, k);
      }
    }
  }

  lemma PlainChar(c: string)
    requires c != "" && c != "\"" && c != "\\" && (|c| == 1 || forall i :: 0 <= i < |c| ==> 0x80 <= c[i] as int)
    ensures forall i :: 0 <= i < |c| ==> c[i] != '"' && c[i] != '\\'
  {
    if |c| == 1 {
      assert c == [c[0]];
    }
  }

  lemma FirstCharIs(s: string)
    requires s != "" && ValidUtf8(s)
    ensures IsChar(FirstChar(s)) && ValidUtf8(AfterChar(s)) && s == FirstChar(s) + AfterChar(s)
  {
    FirstUnitAlone(s);
  }

  lemma {:induction false} BodyReads(s: string, k: string)
    requires ValidUtf8(s)
    ensures ReadQuoted(QuoteBody(s) + ("\"" + k)) == Some((s, k))
    decreases |s|
  {
    hide ReadQuoted, FirstChar, AfterChar, QuoteChar, ValidUtf8;
    if s == "" {
      assert QuoteBody(s) + ("\"" + k) == "\"" + k;
      ReadClose(k);
    } else {
      FirstCharIs(s);
      BodyReads(AfterChar(s), k);
      var c, t := FirstChar(s), AfterChar(s);
      CharReads(c, QuoteBody(t) + ("\"" + k));
      assert QuoteBody(s) + ("\"" + k) == QuoteChar(c) + (QuoteBody(t) + ("\"" + k));
    }
  }

  lemma ReadClose(k: string)
    ensures ReadQuoted("\"" + k) == Some(("", k))
  {
    assert ("\"" + k)[1..] == k;
  }

  /** A text that needs no quotes has no quote, space or control character. */
  lemma {:induction false} BareBytes(s: string)
    requires ValidUtf8(s) && !AnyAwkward(s)
    ensures forall i :: 0 <= i < |s| ==> s[i] != '"' && s[i] != ' ' && s[i] != '=' && s[i] as int >= 0x20
    decreases |s|
  {
    if s != "" {
      hide FirstChar, AfterChar, ValidUtf8;
      FirstCharIs(s);
      BareBytes(AfterChar(s));
      BareChar(FirstChar(s));
    }
  }

  lemma BareChar(c: string)
    requires IsChar(c) && !IsAwkward(c)
    ensures forall i :: 0 <= i < |c| ==> c[i] != '"' && c[i] != ' ' && c[i] != '=' && c[i] as int >= 0x20
  {
    CharBytes(c);
    hide FirstUnit;
    if |c| == 1 {
      assert c == [c[0]];
    }
  }

  /** A written text is read back as it was, and so is what follows it. */
  lemma TextStringReads(s: string, k: string)
    requires ValidUtf8(s) && k != "" && EndsWord(k[0])
    ensures ReadValue(TextString(s) + k) == Some((s, k))
  {
    hide ReadQuoted, QuoteBody, AnyAwkward, ValidUtf8;
    if NeedsQuoting(s) {
      BodyReads(s, k);
      var t := QuoteBody(s) + ("\"" + k);
      assert TextString(s) + k == "\"" + t;
      assert ("\"" + t)[1..] == t;
    } else {
      BareBytes(s);
      WordReads(s, k);
    }
  }

  lemma WordReads(s: string, k: string)
    requires s != "" && s[0] != '"' && (forall i :: 0 <= i < |s| ==> !EndsWord(s[i])) && k != "" && EndsWord(k[0])
    ensures ReadValue(s + k) == Some((s, k))
  {
    SpanOfPrefix(c => !EndsWord(c), s, k);
  }

  /** `push_text_string` is injective. */
  lemma TextStringInjective(a: string, b: string)
    requires ValidUtf8(a) && ValidUtf8(b) && TextString(a) == TextString(b)
    ensures a == b
  {
    hide TextString, ReadValue, ValidUtf8;
    TextStringReads(a, "\n");
    TextStringReads(b, "\n");
  }

  // ---------------------------------------------------------------- no control characters

  /** No character of `s` is a control character. */
  predicate NoControl(s: string) {
    s == "" || (!IsControlChar(FirstChar(s)) && NoControl(AfterChar(s)))
  }

  lemma NoControlChar(c: string, t: string)
    requires IsChar(c) && !IsControlChar(c) && NoControl(t) && ValidUtf8(t)
    ensures NoControl(c + t) && ValidUtf8(c + t)
  {
    FirstUnitOfPrefix(c, t);
    hide FirstUnit;
    Cut(c, t);
  }

  /** Printable ASCII in front. */
  lemma {:induction false} NoControlAscii(a: string, t: string)
    requires (forall i :: 0 <= i < |a| ==> 0x20 <= a[i] as int < 0x7F) && NoControl(t) && ValidUtf8(t)
    ensures NoControl(a + t) && ValidUtf8(a + t)
  {
    hide FirstUnit, NoControl, ValidUtf8;
    if a == "" {
      assert a + t == t;
    } else {
      NoControlAscii(a[1..], t);
      AsciiIsChar(a[0]);
      NoControlChar([a[0]], a[1..] + t);
      assert a + t == [a[0]] + (a[1..] + t);
    }
  }

  lemma AsciiIsChar(c: char)
    requires 0x20 <= c as int < 0x7F
    ensures IsChar([c]) && !IsControlChar([c])
  {
  }

  lemma QuotedIsPrintable(c: string)
    requires IsChar(c) && QuoteChar(c) != c
    ensures forall i :: 0 <= i < |QuoteChar(c)| ==> 0x20 <= QuoteChar(c)[i] as int < 0x7F
  {
    ShortQuotes(c);
    hide EncodeUtf8, FirstUnit;
  }

  lemma UnquotedIsPrintable(c: string)
    requires QuoteChar(c) == c
    ensures !IsControlChar(c)
  {
    ShortQuotes(c);
    assert IsControlChar(c) && c != "\n" && c != "\r" && c != "\t" ==> |QuoteChar(c)| == 4;
  }

  lemma {:induction false} BodyHasNoControl(s: string, k: string)
    requires ValidUtf8(s) && NoControl(k) && ValidUtf8(k)
    ensures NoControl(QuoteBody(s) + k) && ValidUtf8(QuoteBody(s) + k)
    decreases |s|
  {
    hide FirstChar, AfterChar, QuoteChar, ValidUtf8, NoControl;
    if s == "" {
      assert QuoteBody(s) + k == k;
    } else {
      FirstCharIs(s);
      var c, t := FirstChar(s), AfterChar(s);
      BodyHasNoControl(t, k);
      var rest := QuoteBody(t) + k;
      assert QuoteBody(s) + k == QuoteChar(c) + rest;
      if QuoteChar(c) == c {
        UnquotedIsPrintable(c);
        NoControlChar(c, rest);
      } else {
        QuotedIsPrintable(c);
        NoControlAscii(QuoteChar(c), rest);
      }
    }
  }

  lemma {:induction false} BareHasNoControl(s: string)
    requires ValidUtf8(s) && !AnyAwkward(s)
    ensures NoControl(s)
    decreases |s|
  {
    if s != "" {
      BareHasNoControl(AfterChar(s));
    }
  }

  lemma QuoteAlone()
    ensures NoControl("\"") && ValidUtf8("\"")
  {
  }

  /** `push_text_string` writes no control character, whatever the text. */
  lemma TextStringHasNoControl(s: string)
    requires ValidUtf8(s)
    ensures NoControl(TextString(s)) && ValidUtf8(TextString(s))
  {
    hide NoControl, ValidUtf8, QuoteBody, AnyAwkward;
    if NeedsQuoting(s) {
      QuoteAlone();
      BodyHasNoControl(s, "\"");
      NoControlAscii("\"", QuoteBody(s) + "\"");
    } else {
      BareHasNoControl(s);
    }
  }

  lemma {:induction false} NoControlNoNewline(s: string)
    requires NoControl(s) && ValidUtf8(s)
    ensures '\n' !in s
    decreases |s|
  {
    if s != "" {
      FirstCharIs(s);
      NoControlNoNewline(AfterChar(s));
      CharBytes(FirstChar(s));
      hide FirstChar, AfterChar, NoControl, ValidUtf8, FirstUnit;
      NoNewlineIn(FirstChar(s));
    }
  }

  lemma NoNewlineIn(c: string)
    requires !IsControlChar(c) && (|c| == 1 || forall i :: 0 <= i < |c| ==> 0x80 <= c[i] as int)
    ensures '\n' !in c
  {
  }

  // ---------------------------------------------------------------- records

  function Spaced(items: seq<string>): string {
    if items == [] then "" else if |items| == 1 then items[0] else items[0] + (" " + Spaced(items[1..]))
  }

  /** What a reader gets for a value. */
  function PlainText(v: LogValue): string {
    match v
    case Str(s) => s
    case Int(i) => IntText(i)
    case Bool(b) => BoolText(b)
    case List(items) => "[" + (Spaced(items) + "]")
    case Duration(nanos) => FormatDuration(nanos)
  }

  /** `push_text_value`. */
  function TextValue(v: LogValue): string {
    match v
    case Str(_) => TextString(PlainText(v))
    case List(_) => TextString(PlainText(v))
    case _ => PlainText(v)
  }

  function TextField(a: Attr): string {
    a.key + ("=" + TextValue(a.value))
  }

  /** The fields from the second on, and the newline. */
  function TextRest(fields: seq<Attr>): (r: string)
    ensures r != "" && EndsWord(r[0])
  {
    if fields == [] then "\n" else " " + (TextField(fields[0]) + TextRest(fields[1..]))
  }

  function TextLine(fields: seq<Attr>): string
    requires fields != []
  {
    TextField(fields[0]) + TextRest(fields[1..])
  }

  method PushTextValue(buffer: string, v: LogValue) returns (out: string)
    ensures out == buffer + TextValue(v)
  {
    match v
    case Str(s) => out := PushTextString(buffer, s);
    case Int(i) => out := buffer + IntText(i);
    case Bool(b) => out := buffer + BoolText(b);
    case List(items) => out := PushTextString(buffer, "[" + (Spaced(items) + "]"));
    case Duration(nanos) => out := buffer + FormatDuration(nanos);
  }

  /** The text branch of `Logger::log`. */
  method TextRecord(time: Option<int>, level: Level, msg: string, own: seq<Attr>, attrs: seq<Attr>)
    returns (line: string)
    ensures line == TextLine(RecordFields(time, level, msg, own, attrs))
  {
    hide TextString, TextValue, TextRest, TextField, Timestamp.FormatTime;
    line := "";
    if time.Some? {
      line := line + "time=";
      line := line + Timestamp.FormatTime(time.value);
      line := line + " ";
    }
    line := line + "level=";
    line := line + LevelName(level);
    line := line + " msg=";
    line := PushTextString(line, msg);
    ghost var fields := RecordFields(time, level, msg, own, attrs);
    var all := own + attrs;
    TextHead(time, level, msg, all);
    assert all[0..] == all;
    for i := 0 to |all|
      invariant TextLine(fields) == line + TextRest(all[i..])
    {
      TextStep(all, i, line);
      line := line + " ";
      line := line + all[i].key;
      line := line + "=";
      line := PushTextValue(line, all[i].value);
    }
    TextEnd(all[|all|..]);
    line := line + "\n";
  }

  lemma TextStep(all: seq<Attr>, i: nat, line: string)
    requires i < |all|
    ensures line + TextRest(all[i..]) ==
            line + " " + all[i].key + "=" + TextValue(all[i].value) + TextRest(all[i + 1..])
  {
    hide TextValue;
    assert all[i..][1..] == all[i + 1..];
  }

  lemma TextEnd(fields: seq<Attr>)
    requires fields == []
    ensures TextRest(fields) == "\n"
  {
  }

  lemma TextRestCons(a: Attr, rest: seq<Attr>)
    ensures TextRest([a] + rest) == " " + (TextField(a) + TextRest(rest))
  {
    hide TextField;
    assert ([a] + rest)[1..] == rest;
  }

  /** A word is written as it is. */
  lemma {:induction false} WordIsNotAwkward(s: string)
    requires All(IsWordByte, s)
    ensures !AnyAwkward(s)
  {
    if s != "" {
      assert IsWordByte(s[0]);
      var c := FirstChar(s);
      assert |c| == 1;
      WordIsNotAwkward(s[1..]);
    }
  }

  lemma WordField(key: string, s: string)
    requires IsWord(s)
    ensures TextField(Attr(key, Str(s))) == key + ("=" + s)
  {
    WordIsNotAwkward(s);
    hide AnyAwkward, All;
  }

  lemma StrTextField(key: string, s: string)
    ensures TextField(Attr(key, Str(s))) == key + ("=" + TextString(s))
  {
    hide TextString;
  }

  lemma TextHead(time: Option<int>, level: Level, msg: string, rest: seq<Attr>)
    ensures var start := if time.Some? then "" + "time=" + Timestamp.FormatTime(time.value) + " " else "";
            TextLine(Head(time, level, msg) + rest) ==
            start + "level=" + LevelName(level) + " msg=" + TextString(msg) + TextRest(rest)
  {
    LevelIsWord(level);
    hide TextString, TextRest, TextField, Timestamp.FormatTime, LevelName, IsWord;
    var l, m := Attr("level", Str(LevelName(level))), Attr("msg", Str(msg));
    WordField("level", LevelName(level));
    StrTextField("msg", msg);
    TextRestCons(m, rest);
    if time.Some? {
      TimeIsWord(time.value);
      var t := Attr("time", Str(Timestamp.FormatTime(time.value)));
      WordField("time", Timestamp.FormatTime(time.value));
      TextRestCons(l, [m] + rest);
      assert Head(time, level, msg) + rest == [t] + ([l] + ([m] + rest));
      assert ([t] + ([l] + ([m] + rest)))[1..] == [l] + ([m] + rest);
      HeadGlue(Timestamp.FormatTime(time.value), LevelName(level), TextString(msg), TextRest(rest));
    } else {
      assert Head(time, level, msg) + rest == [l] + ([m] + rest);
      assert ([l] + ([m] + rest))[1..] == [m] + rest;
      LevelGlue("", LevelName(level), TextString(msg), TextRest(rest));
    }
  }

  lemma LevelGlue(start: string, l: string, m: string, r: string)
    ensures start + (("level" + ("=" + l)) + (" " + (("msg" + ("=" + m)) + r)))
            == start + "level=" + l + " msg=" + m + r
  {
    assert "level" + ("=" + l) == "level=" + l;
    assert " " + (("msg" + ("=" + m)) + r) == " msg=" + m + r;
  }

  lemma HeadGlue(t: string, l: string, m: string, r: string)
    ensures ("time" + ("=" + t)) + (" " + (("level" + ("=" + l)) + (" " + (("msg" + ("=" + m)) + r))))
            == "" + "time=" + t + " " + "level=" + l + " msg=" + m + r
  {
    var start := "" + "time=" + t + " ";
    LevelGlue(start, l, m, r);
    assert ("time" + ("=" + t)) + " " == start;
  }

  // ---------------------------------------------------------------- reading a record

  type Shown = (string, string)

  /** The keys and values of a line: each key ends at the first `=`. */
  function ReadLine(t: string): Option<seq<Shown>>
    decreases |t|
  {
    var n := Find('=', t);
    if n == |t| then None
    else
      match ReadValue(t[n + 1..])
      case None => None
      case Some((v, rest)) =>
        if rest == "\n" then Some([(t[..n], v)])
        else if rest == "" || rest[0] != ' ' then None
        else
          match ReadLine(rest[1..])
          case None => None
          case Some(more) => Some([(t[..n], v)] + more)
  }

  function ShownFields(fields: seq<Attr>): seq<Shown> {
    seq(|fields|, i requires 0 <= i < |fields| => (fields[i].key, PlainText(fields[i].value)))
  }

  lemma {:induction false} SpacedIsValid(items: seq<string>)
    requires ValidValue(List(items))
    ensures ValidUtf8(Spaced(items))
  {
    hide FirstUnit;
    if |items| > 1 {
      SpacedIsValid(items[1..]);
      ValidAscii(" ");
      ValidConcat(" ", Spaced(items[1..]));
      ValidConcat(items[0], " " + Spaced(items[1..]));
    }
  }

  lemma ListIsValid(items: seq<string>)
    requires ValidValue(List(items))
    ensures ValidUtf8(PlainText(List(items)))
  {
    hide ValidUtf8, Spaced;
    SpacedIsValid(items);
    ValidAscii("[");
    ValidAscii("]");
    ValidConcat(Spaced(items), "]");
    ValidConcat("[", Spaced(items) + "]");
  }

  lemma PlainWordReads(s: string, k: string)
    requires IsWord(s) && k != "" && EndsWord(k[0])
    ensures ReadValue(s + k) == Some((s, k))
  {
    assert forall i :: 0 <= i < |s| ==> IsWordByte(s[i]);
    WordReads(s, k);
  }

  lemma ValueReads(v: LogValue, k: string)
    requires ValidValue(v) && k != "" && EndsWord(k[0])
    ensures ReadValue(TextValue(v) + k) == Some((PlainText(v), k))
  {
    hide ReadValue, ValidUtf8, TextString, IntText, FormatDuration, IsWord, Spaced;
    match v
    case Str(s) => TextStringReads(s, k);
    case Int(i) =>
      IntIsWord(i);
      PlainWordReads(IntText(i), k);
    case Bool(b) =>
      BoolIsWord(b);
      PlainWordReads(BoolText(b), k);
    case List(items) =>
      ListIsValid(items);
      TextStringReads(PlainText(v), k);
    case Duration(nanos) =>
      DurationIsWord(nanos);
      PlainWordReads(FormatDuration(nanos), k);
  }

  lemma BoolIsWord(b: bool)
    ensures IsWord(BoolText(b))
  {
  }

  ghost predicate KeysWithoutEquals(fields: seq<Attr>) {
    forall i :: 0 <= i < |fields| ==> '=' !in fields[i].key
  }

  lemma LineReads(a: Attr, k: string)
    requires '=' !in a.key && ValidValue(a.value) && k != "" && EndsWord(k[0])
    ensures var t := TextField(a) + k; var n := Find('=', t);
            n == |a.key| < |t| && t[..n] == a.key && ReadValue(t[n + 1..]) == Some((PlainText(a.value), k))
  {
    hide TextValue, ReadValue, PlainText, ValidValue;
    var v := TextValue(a.value) + k;
    var t := TextField(a) + k;
    assert t == a.key + ("=" + v);
    FindOfPrefix('=', a.key, "=" + v);
    assert t[|a.key| + 1..] == v;
    ValueReads(a.value, k);
  }

  lemma ReadLast(t: string, v: string)
    requires var n := Find('=', t); n < |t| && ReadValue(t[n + 1..]) == Some((v, "\n"))
    ensures ReadLine(t) == Some([(t[..Find('=', t)], v)])
  {
    hide ReadValue, Find;
  }

  lemma ReadMore(t: string, v: string, rest: string)
    requires var n := Find('=', t); n < |t| && ReadValue(t[n + 1..]) == Some((v, rest))
    requires rest != "" && rest[0] == ' ' && ReadLine(rest[1..]).Some?
    ensures ReadLine(t) == Some([(t[..Find('=', t)], v)] + ReadLine(rest[1..]).value)
  {
    hide ReadValue, Find;
  }

  lemma RestIs(fields: seq<Attr>)
    ensures fields == [] ==> TextRest(fields) == "\n"
    ensures fields != [] ==> TextRest(fields)[0] == ' ' && TextRest(fields)[1..] == TextLine(fields)
  {
    hide TextField;
  }

  lemma ShownCons(fields: seq<Attr>)
    requires fields != []
    ensures ShownFields(fields) == [(fields[0].key, PlainText(fields[0].value))] + ShownFields(fields[1..])
  {
    hide PlainText;
  }

  lemma {:induction false} FieldsRead(fields: seq<Attr>)
    requires fields != [] && ValidAttrs(fields) && KeysWithoutEquals(fields)
    ensures ReadLine(TextLine(fields)) == Some(ShownFields(fields))
  {
    hide TextField, PlainText, ValidValue, ValidUtf8, ReadValue, ReadLine, Find, ShownFields, TextRest;
    var rest := fields[1..];
    LineReads(fields[0], TextRest(rest));
    RestIs(rest);
    ShownCons(fields);
    if rest == [] {
      ReadLast(TextLine(fields), PlainText(fields[0].value));
      NoneShown((fields[0].key, PlainText(fields[0].value)));
    } else {
      assert forall i :: 0 <= i < |rest| ==> rest[i] == fields[i + 1];
      FieldsRead(rest);
      ReadMore(TextLine(fields), PlainText(fields[0].value), TextRest(rest));
    }
  }

  /** The first key of a line that is read ends before the first equals sign. */
  lemma FirstKeyRead(t: string)
    requires ReadLine(t).Some?
    ensures ReadLine(t).value != [] && '=' !in ReadLine(t).value[0].0
  {
    FindIsFirst('=', t);
    hide ReadValue, Find;
  }

  /** What is read of a line after its first field. */
  lemma RestRead(t: string, v: string, rest: string)
    requires var n := Find('=', t); n < |t| && ReadValue(t[n + 1..]) == Some((v, rest))
    requires rest != "" && rest[0] == ' ' && ReadLine(t).Some?
    ensures ReadLine(rest[1..]).Some? && ReadLine(t).value[1..] == ReadLine(rest[1..]).value
  {
    hide ReadValue, Find;
  }

  lemma {:induction false} ReadKeys(fields: seq<Attr>)
    requires fields != [] && ValidAttrs(fields) && ReadLine(TextLine(fields)) == Some(ShownFields(fields))
    ensures KeysWithoutEquals(fields)
  {
    hide TextField, PlainText, ValidValue, ValidUtf8, ReadValue, ReadLine, Find, ShownFields, TextRest;
    var rest := fields[1..];
    FirstKeyRead(TextLine(fields));
    ShownCons(fields);
    if rest != [] {
      LineReads(fields[0], TextRest(rest));
      RestIs(rest);
      RestRead(TextLine(fields), PlainText(fields[0].value), TextRest(rest));
      assert ShownFields(fields)[1..] == ShownFields(rest);
      assert forall i :: 0 <= i < |rest| ==> rest[i] == fields[i + 1];
      ReadKeys(rest);
      assert forall i :: 1 <= i < |fields| ==> fields[i] == rest[i - 1];
    }
  }

  /** `ReadLine`, which ends a key at its first equals sign, reads a text record back, every key and the
      plain text of every value in order, if and only if no key holds an equals sign. */
  lemma TextLineReads(fields: seq<Attr>)
    requires fields != [] && ValidAttrs(fields)
    ensures ReadLine(TextLine(fields)) == Some(ShownFields(fields)) <==> KeysWithoutEquals(fields)
  {
    hide ReadLine, TextLine, ShownFields, ValidAttrs, KeysWithoutEquals;
    if KeysWithoutEquals(fields) {
      FieldsRead(fields);
    }
    if ReadLine(TextLine(fields)) == Some(ShownFields(fields)) {
      ReadKeys(fields);
    }
  }

  /** Every value is written as its plain text would be. */
  lemma TextValueIs(v: LogValue)
    ensures TextValue(v) == TextString(PlainText(v))
  {
    hide IntText, FormatDuration, Spaced, AnyAwkward, IsWord;
    match v
    case Int(i) =>
      IntIsWord(i);
      WordIsBare(IntText(i));
    case Bool(b) =>
      BoolIsWord(b);
      WordIsBare(BoolText(b));
    case Duration(nanos) =>
      DurationIsWord(nanos);
      WordIsBare(FormatDuration(nanos));
    case _ =>
  }

  lemma WordIsBare(s: string)
    requires IsWord(s)
    ensures TextString(s) == s
  {
    WordIsNotAwkward(s);
    hide AnyAwkward, All;
  }

  lemma {:induction false} SameShownRest(a: seq<Attr>, b: seq<Attr>)
    requires ShownFields(a) == ShownFields(b)
    ensures TextRest(a) == TextRest(b)
  {
    hide TextField, PlainText;
    assert |ShownFields(a)| == |a| && |ShownFields(b)| == |b|;
    if a != [] {
      SameShown(a, b);
      SameShownRest(a[1..], b[1..]);
    }
  }

  lemma SameShown(a: seq<Attr>, b: seq<Attr>)
    requires ShownFields(a) == ShownFields(b) && a != [] && b != []
    ensures TextField(a[0]) == TextField(b[0]) && ShownFields(a[1..]) == ShownFields(b[1..])
  {
    hide PlainText, TextValue, TextString;
    assert ShownFields(a)[0] == (a[0].key, PlainText(a[0].value)) && ShownFields(b)[0] == (b[0].key, PlainText(b[0].value));
    assert ShownFields(a[1..]) == ShownFields(a)[1..] && ShownFields(b[1..]) == ShownFields(b)[1..];
    TextValueIs(a[0].value);
    TextValueIs(b[0].value);
  }

  /** Among records whose keys hold no equals sign, two have the same line if and only if they show the
      same keys and texts in the same order. */
  lemma TextLineInjective(a: seq<Attr>, b: seq<Attr>)
    requires a != [] && b != [] && ValidAttrs(a) && ValidAttrs(b) && KeysWithoutEquals(a) && KeysWithoutEquals(b)
    ensures TextLine(a) == TextLine(b) <==> ShownFields(a) == ShownFields(b)
  {
    hide ShownFields, TextField, TextRest, ReadLine, ValidAttrs, KeysWithoutEquals;
    if TextLine(a) == TextLine(b) {
      FieldsRead(a);
      FieldsRead(b);
    }
    if ShownFields(a) == ShownFields(b) {
      SameShown(a, b);
      SameShownRest(a[1..], b[1..]);
    }
  }

  lemma NoneShown(x: Shown)
    ensures [x] + ShownFields([]) == [x]
  {
  }

  // ---------------------------------------------------------------- one line

  lemma TextValueHasNoNewline(v: LogValue)
    requires ValidValue(v)
    ensures '\n' !in TextValue(v)
  {
    hide ValidUtf8, TextString, IntText, FormatDuration, All, Spaced, NoControl;
    match v
    case Str(s) =>
      TextStringHasNoControl(s);
      NoControlNoNewline(TextString(s));
    case Int(i) =>
      IntIsWord(i);
      WordHasNoNewline(IntText(i));
    case Bool(b) =>
    case List(items) =>
      ListIsValid(items);
      TextStringHasNoControl(PlainText(v));
      NoControlNoNewline(TextString(PlainText(v)));
    case Duration(nanos) =>
      DurationIsWord(nanos);
      WordHasNoNewline(FormatDuration(nanos));
  }

  lemma TextFieldHasNoNewline(a: Attr)
    requires ValidValue(a.value) && '\n' !in a.key
    ensures '\n' !in TextField(a)
  {
    hide TextValue;
    TextValueHasNoNewline(a.value);
  }

  ghost predicate KeysWithoutNewline(fields: seq<Attr>) {
    forall i :: 0 <= i < |fields| ==> '\n' !in fields[i].key
  }

  lemma OneLineParts(a: string, b: string)
    requires OneLine(a + b) && b != ""
    ensures '\n' !in a && OneLine(b)
  {
    var t := a + b;
    assert t[..|t| - 1] == a + b[..|b| - 1];
  }

  lemma NewlineInKey(a: Attr)
    ensures '\n' in a.key ==> '\n' in TextField(a)
  {
    hide TextValue;
  }

  /** One field more. */
  lemma TextLineCons(fields: seq<Attr>)
    requires fields != [] && ValidAttrs(fields)
    ensures OneLine(TextLine(fields)) <==>
            '\n' !in fields[0].key && (|fields| > 1 ==> OneLine(TextLine(fields[1..])))
  {
    hide TextField, ValidUtf8, ValidValue, OneLine, TextRest;
    var rest := fields[1..];
    var k := TextRest(rest);
    RestIs(rest);
    assert rest != [] ==> k == " " + TextLine(rest);
    assert ValidValue(fields[0].value);
    if OneLine(TextLine(fields)) {
      OneLineParts(TextField(fields[0]), k);
      NewlineInKey(fields[0]);
      if rest != [] {
        TextLineSome(rest);
        OneLineParts(" ", TextLine(rest));
      }
    }
    if '\n' !in fields[0].key && (rest != [] ==> OneLine(TextLine(rest))) {
      TextFieldHasNoNewline(fields[0]);
      NewlineAlone();
      if rest != [] {
        OneLineCons(" ", TextLine(rest));
      }
      OneLineCons(TextField(fields[0]), k);
    }
  }

  lemma TextLineSome(fields: seq<Attr>)
    requires fields != []
    ensures TextLine(fields) != ""
  {
    hide TextField;
  }

  lemma NewlineAlone()
    ensures OneLine("\n")
  {
  }

  /** A text record is one line if and only if no key holds a newline, whatever its message and
      values. */
  lemma {:induction false} TextIsOneLine(fields: seq<Attr>)
    requires fields != [] && ValidAttrs(fields)
    ensures OneLine(TextLine(fields)) <==> KeysWithoutNewline(fields)
  {
    hide TextLine, ValidUtf8, ValidValue, OneLine;
    TextLineCons(fields);
    if |fields| > 1 {
      var rest := fields[1..];
      assert forall i :: 0 <= i < |rest| ==> rest[i] == fields[i + 1];
      TextIsOneLine(rest);
      assert forall i :: 1 <= i < |fields| ==> fields[i] == rest[i - 1];
    }
  }

  /** A key that breaks a record in two, and a key that makes one field look like two: for every value
      `v` and text `t`, the record `a=t b=v` is also the record of the single key `a=t b`. */
  lemma BadKeys(v: LogValue, t: string)
    requires ValidValue(v)
    ensures !OneLine(TextLine([Attr("a\nb", v)]))
    ensures var one, two := [Attr("a=" + (TextString(t) + " b"), v)], [Attr("a", Str(t)), Attr("b", v)];
            TextLine(one) == TextLine(two) && ShownFields(one) != ShownFields(two)
  {
    var broken := [Attr("a\nb", v)];
    ValidAscii("a\nb");
    assert '\n' == "a\nb"[1];
    hide OneLine, ValidUtf8, ValidValue, TextString;
    TextIsOneLine(broken);
    assert '\n' in broken[0].key;
    LooksLikeTwo(v, t);
  }

  lemma LooksLikeTwo(v: LogValue, t: string)
    ensures var one, two := [Attr("a=" + (TextString(t) + " b"), v)], [Attr("a", Str(t)), Attr("b", v)];
            TextLine(one) == TextLine(two) && |ShownFields(one)| == 1 && |ShownFields(two)| == 2
  {
    var b := Attr("b", v);
    var one, two := [Attr("a=" + (TextString(t) + " b"), v)], [Attr("a", Str(t)), b];
    StrTextField("a", t);
    TextRestCons(b, []);
    TextEnd([]);
    assert one[1..] == [] && two[1..] == [b] + [];
    hide TextRest, TextString, TextValue;
    assert "a=" == "a" + "=" && " b" == " " + "b";
    Merged("a", "=", TextString(t), " ", "b", TextValue(v), "\n");
  }

  lemma Merged(a: string, e: string, x: string, sp: string, b: string, y: string, k: string)
    ensures (a + e) + (x + (sp + b)) + (e + y) + k == (a + (e + x)) + (sp + ((b + (e + y)) + k))
  {
    var p, q := (a + e) + (x + (sp + b)), a + (e + x);
    assert p == q + (sp + b);
    assert sp + ((b + (e + y)) + k) == (sp + b) + ((e + y) + k);
  }

  // ---------------------------------------------------------------- what is quoted

  /** The characters that make a text need quotes: space, equals sign, double quote, U+FFFD and the
      control characters. */
  lemma AwkwardExact(c: string)
    requires JsonSpelling.IsChar(c)
    ensures 1 <= |c| <= 4
    ensures var n := JsonSpelling.CodePoint(c);
            IsAwkward(c) <==> n == 0x20 || n == 0x3D || n == 0x22 || n == 0xFFFD || n < 0x20 || 0x7F <= n < 0xA0
  {
    JsonSpelling.EncodedCodePoint(c);
    JsonSpelling.ReplacementIs();
    var n := JsonSpelling.CodePoint(c);
    assert |c| == 1 ==> c == [c[0]];
    if n == 0xFFFD {
      assert c == REPLACEMENT;
    }
    JsonSpelling.CodePointOfEncoded(0xFFFD);
    hide FirstUnit;
  }

  /** A text needs quotes exactly when it is empty or one of its characters does. */
  lemma QuotingConcat(c: string, s: string)
    requires JsonSpelling.IsChar(c)
    ensures NeedsQuoting("") && (NeedsQuoting(c + s) <==> IsAwkward(c) || (s != "" && NeedsQuoting(s)))
  {
    FirstUnitOfPrefix(c, s);
    hide FirstUnit, IsAwkward;
    Cut(c, s);
    assert FirstChar(c + s) == c && AfterChar(c + s) == s;
    assert AnyAwkward(c + s) <==> IsAwkward(c) || AnyAwkward(s);
  }

  lemma {:induction false} SpacedConcat(a: seq<string>, b: seq<string>)
    requires a != [] && b != []
    ensures Spaced(a + b) == Spaced(a) + (" " + Spaced(b))
  {
    if |a| > 1 {
      SpacedConcat(a[1..], b);
      assert (a + b)[1..] == a[1..] + b;
      var x, y, z := a[0], Spaced(a[1..]), " " + Spaced(b);
      assert Spaced(a + b) == x + (" " + (y + z));
      assert x + (" " + (y + z)) == (x + (" " + y)) + z;
    } else {
      assert (a + b)[1..] == b && a == [a[0]];
    }
  }

  /** A list is written as its items between brackets, a space between any two. */
  lemma ListText(a: seq<string>, b: seq<string>, item: string)
    ensures PlainText(List([])) == "[]" && PlainText(List([item])) == "[" + (item + "]")
    ensures a != [] && b != [] ==>
              PlainText(List(a + b)) == PlainText(List(a))[..|PlainText(List(a))| - 1] + (" " + PlainText(List(b))[1..])
  {
    if a != [] && b != [] {
      SpacedConcat(a, b);
      hide Spaced;
      var x, y := Spaced(a), Spaced(b);
      assert ("[" + (x + "]"))[..|x| + 1] == "[" + x && ("[" + (y + "]"))[1..] == y + "]";
      assert "[" + ((x + (" " + y)) + "]") == ("[" + x) + (" " + (y + "]"));
    }
  }

  const LOWER_HEX: string := "0123456789abcdef"

  lemma LowerHexIs(n: nat)
    requires n < 16
    ensures LowerHex(n) == LOWER_HEX[n]
  {
    var h := LOWER_HEX;
    assert h[0] == '0' && h[1] == '1' && h[2] == '2' && h[3] == '3' && h[4] == '4' && h[5] == '5' && h[6] == '6'
           && h[7] == '7' && h[8] == '8' && h[9] == '9' && h[10] == 'a' && h[11] == 'b' && h[12] == 'c' && h[13] == 'd'
           && h[14] == 'e' && h[15] == 'f';
  }

  /** How the characters of a quoted text are written: five short escapes, two digits for the other
      control characters, and the rest as they are. */
  lemma QuoteExact(c: string)
    requires JsonSpelling.IsChar(c)
    ensures 1 <= |c| <= 4
    ensures var n := JsonSpelling.CodePoint(c);
            QuoteChar(c) ==
            if n == 0x22 then "\\\"" else if n == 0x5C then "\\\\" else if n == 0x0A then "\\n"
            else if n == 0x0D then "\\r" else if n == 0x09 then "\\t"
            else if 0 <= n < 0x20 || 0x7F <= n < 0xA0 then ['\\', 'x', LOWER_HEX[n / 16], LOWER_HEX[n % 16]]
            else c
  {
    JsonSpelling.EncodedCodePoint(c);
    assert |c| == 1 ==> c == [c[0]];
    if IsControlChar(c) {
      LowerHexIs(ControlCode(c) / 16);
      LowerHexIs(ControlCode(c) % 16);
    }
    hide FirstUnit, LowerHex, LOWER_HEX;
  }
}
