/** Log records and the plain text of their values (src/logging.rs). */
module LogRecord {
  import opened Text
  import opened Timestamp

  datatype Level = Debug | Info | Warn | Error

  /** An attribute value; a duration is in nanoseconds. */
  datatype LogValue = Str(s: string) | Int(i: int) | Bool(b: bool) | List(items: seq<string>) | Duration(nanos: nat)

  datatype Attr = Attr(key: string, value: LogValue)

  function LevelName(level: Level): string {
    match level
    case Debug => "DEBUG"
    case Info => "INFO"
    case Warn => "WARN"
    case Error => "ERROR"
  }

  function Rank(level: Level): nat {
    match level
    case Debug => 0
    case Info => 1
    case Warn => 2
    case Error => 3
  }

  /** What a record says, in order: the time when it is on, the level, the message, the logger's own
      attributes and those of the call. */
  function RecordFields(time: Option<int>, level: Level, msg: string, own: seq<Attr>, attrs: seq<Attr>): (r: seq<Attr>)
    ensures r != []
  {
    Head(time, level, msg) + (own + attrs)
  }

  function Head(time: Option<int>, level: Level, msg: string): (r: seq<Attr>)
    ensures r != []
  {
    (if time.Some? then [Attr("time", Str(FormatTime(time.value)))] else [])
    + [Attr("level", Str(LevelName(level))), Attr("msg", Str(msg))]
  }

  // ---------------------------------------------------------------- plain texts

  function IntText(i: int): string {
    if i < 0 then "-" + Decimal(-i) else Decimal(i)
  }

  function BoolText(b: bool): string {
    if b then "true" else "false"
  }

  function TrimZeros(s: string): string {
    if s != "" && s[|s| - 1] == '0' then TrimZeros(s[..|s| - 1]) else s
  }

  /** `format_duration`: rounded to milliseconds, in the manner of Go. */
  function FormatDuration(nanos: nat): string {
    var ms := (nanos / 1000 + 500) / 1000;
    if ms == 0 then "0s"
    else if ms < 1000 then Decimal(ms) + "ms"
    else
      var total, frac := ms / 1000, ms % 1000;
      var hours, minutes, secs := total / 3600, total % 3600 / 60, total % 60;
      (if hours > 0 then Decimal(hours) + "h" else "")
      + ((if hours > 0 || minutes > 0 then Decimal(minutes) + "m" else "")
         + (Decimal(secs) + ((if frac == 0 then "" else "." + TrimZeros(Padded(frac, 3))) + "s")))
  }

  // ---------------------------------------------------------------- words

  /** Printable ASCII without the characters that make a text need quotes. */
  predicate IsWordByte(c: char) {
    0x21 <= c as int < 0x7F && c != '=' && c != '"' && c != '\\'
  }

  predicate IsWord(s: string) {
    s != "" && All(IsWordByte, s)
  }

  lemma WordConcat(a: string, b: string)
    requires All(IsWordByte, a) && All(IsWordByte, b)
    ensures All(IsWordByte, a + b)
  {
  }

  lemma DecimalIsWord(n: nat)
    ensures IsWord(Decimal(n))
  {
    var s := Decimal(n);
    forall i | 0 <= i < |s|
      ensures IsWordByte(s[i])
    {
      assert IsDigit(s[i]);
    }
  }

  lemma PaddedIsWord(n: nat, w: nat)
    ensures IsWord(Padded(n, w))
  {
    hide Decimal;
    DecimalIsWord(n);
    var d := Decimal(n);
    if |d| < w {
      WordConcat(ZeroDigits(w - |d|), d);
    }
  }

  lemma {:induction false} TrimmedIsWord(s: string)
    requires All(IsWordByte, s)
    ensures All(IsWordByte, TrimZeros(s))
  {
    if s != "" && s[|s| - 1] == '0' {
      TrimmedIsWord(s[..|s| - 1]);
    }
  }

  lemma IntIsWord(i: int)
    ensures IsWord(IntText(i))
  {
    hide Decimal;
    if i < 0 {
      DecimalIsWord(-i);
      WordConcat("-", Decimal(-i));
    } else {
      DecimalIsWord(i);
    }
  }

  lemma DurationIsWord(nanos: nat)
    ensures IsWord(FormatDuration(nanos))
  {
    hide Decimal, TrimZeros, Padded, All;
    var ms := (nanos / 1000 + 500) / 1000;
    if ms == 0 {
      SmallWords();
    } else if ms < 1000 {
      SmallWords();
      DecimalIsWord(ms);
      WordConcat(Decimal(ms), "ms");
    } else {
      var total, frac := ms / 1000, ms % 1000;
      ClockIsWord(total / 3600, total % 3600 / 60, total % 60, frac);
    }
  }

  lemma SmallWords()
    ensures All(IsWordByte, "0s") && All(IsWordByte, "ms") && All(IsWordByte, "h") && All(IsWordByte, "m")
    ensures All(IsWordByte, "s") && All(IsWordByte, ".") && All(IsWordByte, "")
  {
  }

  lemma ClockIsWord(hours: nat, minutes: nat, secs: nat, frac: nat)
    ensures IsWord((if hours > 0 then Decimal(hours) + "h" else "")
                   + ((if hours > 0 || minutes > 0 then Decimal(minutes) + "m" else "")
                      + (Decimal(secs) + ((if frac == 0 then "" else "." + TrimZeros(Padded(frac, 3))) + "s"))))
  {
    hide Decimal, TrimZeros, Padded, All;
    SmallWords();
    DecimalIsWord(hours);
    DecimalIsWord(minutes);
    DecimalIsWord(secs);
    PaddedIsWord(frac, 3);
    TrimmedIsWord(Padded(frac, 3));
    WordConcat(Decimal(hours), "h");
    WordConcat(Decimal(minutes), "m");
    WordConcat(".", TrimZeros(Padded(frac, 3)));
    var f := if frac == 0 then "" else "." + TrimZeros(Padded(frac, 3));
    WordConcat(f, "s");
    WordConcat(Decimal(secs), f + "s");
    var m := if hours > 0 || minutes > 0 then Decimal(minutes) + "m" else "";
    WordConcat(m, Decimal(secs) + (f + "s"));
    WordConcat(if hours > 0 then Decimal(hours) + "h" else "", m + (Decimal(secs) + (f + "s")));
  }

  lemma FieldIsWord(n: nat, w: nat, sep: string, rest: string)
    requires All(IsWordByte, sep) && All(IsWordByte, rest)
    ensures IsWord(Padded(n, w) + (sep + rest))
  {
    hide Padded;
    PaddedIsWord(n, w);
    WordConcat(sep, rest);
    WordConcat(Padded(n, w), sep + rest);
  }

  lemma TimeIsWord(instant: int)
    ensures IsWord(FormatTime(instant))
  {
    hide Padded, FieldsOf, NonNegative, IsWord;
    var f := FieldsOf(instant);
    WordsOfTime();
    var ms := Padded(NonNegative(f.millis), 3) + "Z";
    FieldIsWord(NonNegative(f.millis), 3, "Z", "");
    assert "Z" + "" == "Z";
    WordParts(ms);
    var s := Padded(NonNegative(f.second), 2) + ("." + ms);
    FieldIsWord(NonNegative(f.second), 2, ".", ms);
    WordParts(s);
    var mi := Padded(NonNegative(f.minute), 2) + (":" + s);
    FieldIsWord(NonNegative(f.minute), 2, ":", s);
    WordParts(mi);
    var h := Padded(NonNegative(f.hour), 2) + (":" + mi);
    FieldIsWord(NonNegative(f.hour), 2, ":", mi);
    WordParts(h);
    var d := Padded(NonNegative(f.date.day), 2) + ("T" + h);
    FieldIsWord(NonNegative(f.date.day), 2, "T", h);
    WordParts(d);
    var mo := Padded(NonNegative(f.date.month), 2) + ("-" + d);
    FieldIsWord(NonNegative(f.date.month), 2, "-", d);
    WordParts(mo);
    FieldIsWord(NonNegative(f.date.year), 4, "-", mo);
  }

  lemma WordsOfTime()
    ensures All(IsWordByte, "Z") && All(IsWordByte, ".") && All(IsWordByte, ":") && All(IsWordByte, "T")
    ensures All(IsWordByte, "-") && All(IsWordByte, "")
  {
  }

  lemma WordParts(s: string)
    requires IsWord(s)
    ensures All(IsWordByte, s)
  {
  }

  lemma LevelIsWord(level: Level)
    ensures IsWord(LevelName(level))
  {
  }

  // ---------------------------------------------------------------- lines

  /** A single newline, at the end. */
  predicate OneLine(s: string) {
    s != "" && s[|s| - 1] == '\n' && '\n' !in s[..|s| - 1]
  }

  lemma OneLineCons(a: string, b: string)
    requires '\n' !in a && OneLine(b)
    ensures OneLine(a + b)
  {
    assert (a + b)[..|a + b| - 1] == a + b[..|b| - 1];
  }

  lemma WordHasNoNewline(s: string)
    requires All(IsWordByte, s)
    ensures '\n' !in s
  {
  }

  /** The levels in order, by name. */
  lemma LevelsExact(a: Level, b: Level)
    ensures LevelName(Debug) == "DEBUG" && LevelName(Info) == "INFO" && LevelName(Warn) == "WARN" && LevelName(Error) == "ERROR"
    ensures Rank(Debug) < Rank(Info) < Rank(Warn) < Rank(Error)
    ensures LevelName(a) == LevelName(b) <==> a == b
  {
    assert |LevelName(Debug)| == 5 && |LevelName(Info)| == 4 && |LevelName(Warn)| == 4 && |LevelName(Error)| == 5;
    assert LevelName(Debug)[0] == 'D' && LevelName(Info)[0] == 'I' && LevelName(Warn)[0] == 'W' && LevelName(Error)[0] == 'E';
  }

  /** Printed numbers and truth values can be read. */
  lemma IntExact(i: int, b: bool)
    ensures i >= 0 ==> All(IsDigit, IntText(i)) && DecimalValue(IntText(i)) == i
    ensures i < 0 ==> IntText(i)[0] == '-' && All(IsDigit, IntText(i)[1..]) && DecimalValue(IntText(i)[1..]) == -i
    ensures BoolText(true) == "true" && BoolText(false) == "false" && BoolText(b) == if b then "true" else "false"
  {
    if i < 0 {
      DecimalRoundTrip(-i);
      assert IntText(i)[1..] == Decimal(-i);
    } else {
      DecimalRoundTrip(i);
    }
  }
}
