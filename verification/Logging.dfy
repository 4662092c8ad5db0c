/** The logger (`Logger` in src/logging.rs) and what reaches its sink. */
module Logging {
  import opened Text
  import opened LogRecord
  import opened LogJson
  import opened LogText

  datatype Format = TextFormat | JsonFormat

  datatype Config = Config(level: Level, format: Format, time: bool)

  class Sink {
    var text: string

    constructor ()
      ensures text == ""
    {
      text := "";
    }
  }

  /** The line of a record. */
  function Line(format: Format, fields: seq<Attr>): string
    requires fields != []
  {
    match format
    case TextFormat => TextLine(fields)
    case JsonFormat => JsonLine(fields)
  }

  class Logger {
    const config: Config
    const sink: Sink
    const attrs: seq<Attr>

    constructor (config: Config, sink: Sink, attrs: seq<Attr>)
      ensures this.config == config && this.sink == sink && this.attrs == attrs
    {
      this.config, this.sink, this.attrs := config, sink, attrs;
    }

    /** A logger on the same sink, each of whose records is the record this logger would make of the
        same call with `more` in front of the call's attributes. */
    method With(more: seq<Attr>) returns (r: Logger)
      ensures r.config == config && r.sink == sink
      ensures forall time, level, msg, attrs' ::
                RecordFields(time, level, msg, r.attrs, attrs') == RecordFields(time, level, msg, attrs, more + attrs')
    {
      r := new Logger(config, sink, attrs + more);
      forall time, level, msg, attrs'
        ensures RecordFields(time, level, msg, r.attrs, attrs') == RecordFields(time, level, msg, attrs, more + attrs')
      {
        assert attrs + more + attrs' == attrs + (more + attrs');
      }
    }

    /** Adds the record's line to the sink when the level is enabled; `now` is the clock. */
    method Log(now: int, level: Level, msg: string, more: seq<Attr>)
      requires ValidUtf8(msg) && ValidAttrs(attrs) && ValidAttrs(more)
      modifies sink
      ensures var fields := RecordFields(if config.time then Some(now) else None, level, msg, attrs, more);
              sink.text == old(sink.text) + if Rank(level) < Rank(config.level) then "" else Line(config.format, fields)
    {
      if Rank(level) < Rank(config.level) {
        return;
      }
      var time := if config.time then Some(now) else None;
      var line;
      match config.format {
        case TextFormat => line := TextRecord(time, level, msg, attrs, more);
        case JsonFormat => line := JsonRecord(time, level, msg, attrs, more);
      }
      sink.text := sink.text + line;
    }
  }

  // ---------------------------------------------------------------- what a sink holds

  function Lines(format: Format, records: seq<seq<Attr>>): string
    requires forall i :: 0 <= i < |records| ==> records[i] != []
  {
    if records == [] then "" else Line(format, records[0]) + Lines(format, records[1..])
  }

  /** The record's line is one line. */
  ghost predicate FitsLine(format: Format, fields: seq<Attr>) {
    format.TextFormat? ==> KeysWithoutNewline(fields)
  }

  function CountNewlines(s: string): nat {
    if s == "" then 0 else (if s[0] == '\n' then 1 else 0) + CountNewlines(s[1..])
  }

  lemma {:induction false} CountConcat(a: string, b: string)
    ensures CountNewlines(a + b) == CountNewlines(a) + CountNewlines(b)
  {
    if a == "" {
      assert a + b == b;
    } else {
      CountConcat(a[1..], b);
      assert (a + b)[1..] == a[1..] + b;
    }
  }

  lemma {:induction false} CountNone(s: string)
    ensures CountNewlines(s) == 0 <==> '\n' !in s
  {
    if s != "" {
      CountNone(s[1..]);
      assert s == [s[0]] + s[1..];
    }
  }

  lemma CountOne(s: string)
    requires s != "" && s[|s| - 1] == '\n'
    ensures CountNewlines(s) >= 1 && (CountNewlines(s) == 1 <==> OneLine(s))
  {
    var n := |s| - 1;
    CountNone(s[..n]);
    CountConcat(s[..n], "\n");
    assert s == s[..n] + "\n";
    assert CountNewlines("\n") == 1 + CountNewlines("\n"[1..]);
  }

  lemma EndsInNewline(a: string, b: string)
    requires b != "" && b[|b| - 1] == '\n'
    ensures (a + b)[|a + b| - 1] == '\n'
  {
  }

  lemma {:induction false} TextRestEnds(fields: seq<Attr>)
    ensures TextRest(fields)[|TextRest(fields)| - 1] == '\n'
  {
    hide TextField;
    if fields != [] {
      TextRestEnds(fields[1..]);
      EndsInNewline(" " + TextField(fields[0]), TextRest(fields[1..]));
      assert TextRest(fields) == " " + TextField(fields[0]) + TextRest(fields[1..]);
    }
  }

  lemma LineEnds(format: Format, fields: seq<Attr>)
    requires fields != []
    ensures Line(format, fields) != "" && Line(format, fields)[|Line(format, fields)| - 1] == '\n'
  {
    hide TextField, TextRest, JsonLine;
    if format.TextFormat? {
      TextRestEnds(fields[1..]);
      EndsInNewline(TextField(fields[0]), TextRest(fields[1..]));
    } else {
      JsonIsOneLine(fields);
    }
  }

  lemma LineIsOneLine(format: Format, fields: seq<Attr>)
    requires fields != [] && ValidAttrs(fields)
    ensures OneLine(Line(format, fields)) <==> FitsLine(format, fields)
  {
    hide TextLine, JsonLine, OneLine;
    if format.TextFormat? {
      TextIsOneLine(fields);
    } else {
      JsonIsOneLine(fields);
    }
  }

  /** A sink holds a line for every record, and as many lines as records if and only if the format is
      JSON or no key of any record holds a newline. */
  lemma {:induction false} LinesCountRecords(format: Format, records: seq<seq<Attr>>)
    requires forall i :: 0 <= i < |records| ==> records[i] != [] && ValidAttrs(records[i])
    ensures CountNewlines(Lines(format, records)) >= |records|
    ensures CountNewlines(Lines(format, records)) == |records| <==>
            forall i :: 0 <= i < |records| ==> FitsLine(format, records[i])
  {
    hide ValidAttrs, FitsLine, Line, CountNewlines, OneLine;
    if records == [] {
      CountNone("");
    } else {
      var first, rest := Line(format, records[0]), records[1..];
      LineEnds(format, records[0]);
      LineIsOneLine(format, records[0]);
      CountOne(first);
      LinesCountRecords(format, rest);
      CountConcat(first, Lines(format, rest));
      assert forall i :: 1 <= i < |records| ==> records[i] == rest[i - 1];
      assert forall i :: 0 <= i < |rest| ==> rest[i] == records[i + 1];
    }
  }
}
