/** JSON log lines (src/logging.rs): each is a text the repository's own scanner accepts, and it
    stands for exactly the record. */
module LogJson {
  import opened Text
  import opened JsonStrings
  import opened Json
  import opened JsonProofs
  import opened Meaning
  import opened LogRecord
  import Timestamp

  // ---------------------------------------------------------------- the text

  function JsonString(s: string): string {
    "\"" + (Escape(Logger, s) + "\"")
  }

  /** The items from the second on, and the closing bracket. */
  function JsonItems(items: seq<string>): string {
    if items == [] then "]" else "," + (JsonString(items[0]) + JsonItems(items[1..]))
  }

  function JsonValue(v: LogValue): string {
    match v
    case Str(s) => JsonString(s)
    case Int(i) => IntText(i)
    case Bool(b) => BoolText(b)
    case List(items) => if items == [] then "[]" else "[" + (JsonString(items[0]) + JsonItems(items[1..]))
    case Duration(nanos) => Decimal(nanos)
  }

  function JsonField(a: Attr): string {
    JsonString(a.key) + (":" + JsonValue(a.value))
  }

  /** The fields from the second on, the closing brace and the newline. */
  function JsonRest(fields: seq<Attr>): string {
    if fields == [] then "}\n" else "," + (JsonField(fields[0]) + JsonRest(fields[1..]))
  }

  function JsonLine(fields: seq<Attr>): string
    requires fields != []
  {
    "{" + (JsonField(fields[0]) + JsonRest(fields[1..]))
  }

  // ---------------------------------------------------------------- the loops

  /** `push_json_string`, character by character. */
  method PushJsonString(buffer: string, s: string) returns (out: string)
    requires ValidUtf8(s)
    ensures out == buffer + JsonString(s)
  {
    hide FirstUnit, ValidUtf8, Escape, EscapeByte;
    out := buffer + "\"";
    var i := 0;
    EscapeNone();
    assert s[0..] == s && s[..0] == "";
    while i < |s|
      invariant i <= |s| && ValidUtf8(s[i..])
      invariant out == buffer + ("\"" + Escape(Logger, s[..i]))
      decreases |s| - i
    {
      var n := FirstUnit(s[i..]).len;
      CharStep(s, i);
      var e;
      if n > 1 {
        e := s[i..i + n];
      } else {
        e := EscapeChar(s[i]);
      }
      Appended(buffer, Escape(Logger, s[..i]), e);
      out := out + e;
      i := i + n;
    }
    assert s[..i] == s;
    Appended(buffer, Escape(Logger, s), "\"");
    out := out + "\"";
  }

  lemma EscapeNone()
    ensures Escape(Logger, "") == ""
  {
  }

  lemma Appended(buffer: string, body: string, e: string)
    ensures buffer + ("\"" + body) + e == buffer + ("\"" + (body + e))
  {
  }

  method EscapeChar(c: char) returns (e: string)
    ensures e == EscapeByte(Logger, c)
  {
    match c
    case '"' => return "\\\"";
    case '\\' => return "\\\\";
    case '\n' => return "\\n";
    case '\r' => return "\\r";
    case '\t' => return "\\t";
    case _ =>
      if c as int < 0x20 {
        return "\\u00" + [LowerHex(c as int / 16), LowerHex(c as int % 16)];
      }
      return [c];
  }

  lemma {:induction false} EscapeConcat(a: string, b: string)
    ensures Escape(Logger, a + b) == Escape(Logger, a) + Escape(Logger, b)
  {
    hide EscapeByte;
    if a == "" {
      assert a + b == b;
    } else {
      EscapeConcat(a[1..], b);
      assert (a + b)[1..] == a[1..] + b;
    }
  }

  lemma EscapeOne(c: char)
    ensures Escape(Logger, [c]) == EscapeByte(Logger, c)
  {
    hide EscapeByte;
  }

  lemma EscapeHighChar(u: string)
    requires forall i :: 0 <= i < |u| ==> 0x80 <= u[i] as int
    ensures Escape(Logger, u) == u
  {
    EscapeHighRun(Logger, u, |u|);
    assert u[..|u|] == u && u[|u|..] == "";
  }

  /** The character at `i`: what it adds to the escaped text, and where the next one starts. */
  lemma CharStep(s: string, i: nat)
    requires i < |s| && ValidUtf8(s[i..])
    ensures var n := FirstUnit(s[i..]).len;
            && i + n <= |s| && ValidUtf8(s[i + n..])
            && Escape(Logger, s[..i + n]) ==
               Escape(Logger, s[..i]) + (if n > 1 then s[i..i + n] else EscapeByte(Logger, s[i]))
  {
    hide FirstUnit, Escape, EscapeByte;
    var t := s[i..];
    var n := FirstUnit(t).len;
    assert t[n..] == s[i + n..] && t[..n] == s[i..i + n] && t[0] == s[i];
    assert s[..i + n] == s[..i] + s[i..i + n];
    EscapeConcat(s[..i], s[i..i + n]);
    if n > 1 {
      FirstUnitBytes(t);
      EscapeHighChar(t[..n]);
    } else {
      assert s[i..i + n] == [s[i]];
      EscapeOne(s[i]);
    }
  }

  ghost predicate ValidValue(v: LogValue) {
    match v
    case Str(s) => ValidUtf8(s)
    case List(items) => forall i :: 0 <= i < |items| ==> ValidUtf8(items[i])
    case _ => true
  }

  ghost predicate ValidAttrs(attrs: seq<Attr>) {
    forall i :: 0 <= i < |attrs| ==> ValidUtf8(attrs[i].key) && ValidValue(attrs[i].value)
  }

  method PushJsonList(buffer: string, items: seq<string>) returns (out: string)
    requires ValidValue(List(items))
    ensures out == buffer + JsonValue(List(items))
  {
    hide JsonString, ValidUtf8;
    out := buffer + "[";
    if items == [] {
      assert "[" + "]" == "[]";
    }
    for i := 0 to |items|
      invariant i == 0 ==> out == buffer + "["
      invariant i > 0 ==> buffer + JsonValue(List(items)) == out + JsonItems(items[i..])
    {
      ItemsStep(items, i);
      ghost var before := out;
      if i > 0 {
        out := out + ",";
      }
      out := PushJsonString(out, items[i]);
      ItemAdded(buffer, before, JsonString(items[i]), JsonItems(items[i + 1..]));
    }
    out := out + "]";
  }

  lemma ItemsStep(items: seq<string>, i: nat)
    requires i < |items|
    ensures JsonItems(items[i..]) == "," + (JsonString(items[i]) + JsonItems(items[i + 1..]))
    ensures i == 0 ==> JsonValue(List(items)) == "[" + (JsonString(items[0]) + JsonItems(items[1..]))
  {
    assert items[i..][1..] == items[i + 1..];
  }

  lemma ItemAdded(buffer: string, before: string, item: string, rest: string)
    ensures before + ("," + (item + rest)) == before + "," + item + rest
    ensures buffer + ("[" + (item + rest)) == buffer + "[" + item + rest
  {
  }

  method PushJsonValue(buffer: string, v: LogValue) returns (out: string)
    requires ValidValue(v)
    ensures out == buffer + JsonValue(v)
  {
    match v
    case Str(s) => out := PushJsonString(buffer, s);
    case Int(i) => out := buffer + IntText(i);
    case Bool(b) => out := buffer + BoolText(b);
    case List(items) => out := PushJsonList(buffer, items);
    case Duration(nanos) => out := buffer + Decimal(nanos);
  }

  /** The JSON branch of `Logger::log`. */
  method JsonRecord(time: Option<int>, level: Level, msg: string, own: seq<Attr>, attrs: seq<Attr>)
    returns (line: string)
    requires ValidUtf8(msg) && ValidAttrs(own) && ValidAttrs(attrs)
    ensures line == JsonLine(RecordFields(time, level, msg, own, attrs))
  {
    hide ValidUtf8, JsonString, JsonValue, JsonRest, JsonField, Timestamp.FormatTime;
    line := "{";
    if time.Some? {
      line := line + "\"time\":";
      var t := FormatTimeOf(time.value);
      line := PushJsonString(line, t);
      line := line + ",";
    }
    line := line + "\"level\":";
    LevelIsValid(level);
    line := PushJsonString(line, LevelName(level));
    line := line + ",\"msg\":";
    line := PushJsonString(line, msg);
    ghost var fields := RecordFields(time, level, msg, own, attrs);
    HeadText(time, level, msg, own + attrs);
    var all := own + attrs;
    assert all[0..] == all;
    for i := 0 to |all|
      invariant JsonLine(fields) == line + JsonRest(all[i..])
    {
      FieldStep(all, i, line);
      line := line + ",";
      line := PushJsonString(line, all[i].key);
      line := line + ":";
      line := PushJsonValue(line, all[i].value);
    }
    FieldsEnd(all[|all|..]);
    line := line + "}";
    line := line + "\n";
  }

  /** The printed time, which is ASCII. */
  method FormatTimeOf(instant: int) returns (s: string)
    ensures s == Timestamp.FormatTime(instant) && ValidUtf8(s)
  {
    s := Timestamp.FormatTime(instant);
    TimeIsWord(instant);
    hide Timestamp.FormatTime;
    WordIsValid(s);
  }

  lemma WordIsValid(s: string)
    requires IsWord(s)
    ensures ValidUtf8(s)
  {
    assert forall i :: 0 <= i < |s| ==> IsWordByte(s[i]);
    ValidAscii(s);
  }

  lemma LevelIsValid(level: Level)
    ensures ValidUtf8(LevelName(level))
  {
    LevelIsWord(level);
    hide LevelName;
    WordIsValid(LevelName(level));
  }

  lemma FieldStep(all: seq<Attr>, i: nat, line: string)
    requires i < |all|
    ensures line + JsonRest(all[i..]) ==
            line + "," + JsonString(all[i].key) + ":" + JsonValue(all[i].value) + JsonRest(all[i + 1..])
  {
    hide JsonString, JsonValue;
    assert all[i..][1..] == all[i + 1..];
  }

  lemma FieldsEnd(fields: seq<Attr>)
    requires fields == []
    ensures JsonRest(fields) == "}\n" && "}\n" == "}" + "\n"
  {
  }

  lemma PlainKeys()
    ensures JsonString("time") + ":" == "\"time\":"
    ensures JsonString("level") + ":" == "\"level\":"
    ensures JsonString("msg") + ":" == "\"msg\":"
  {
    hide JsonString;
    PlainKey("time", "\"time\":");
    PlainKey("level", "\"level\":");
    PlainKey("msg", "\"msg\":");
  }

  lemma PlainKey(key: string, printed: string)
    requires All(IsWordByte, key) && printed == "\"" + key + "\":"
    ensures JsonString(key) + ":" == printed
  {
    EscapeWord(key);
    hide Escape;
  }

  lemma {:induction false} EscapeWord(s: string)
    requires All(IsWordByte, s)
    ensures Escape(Logger, s) == s
  {
    if s != "" {
      assert IsWordByte(s[0]);
      EscapeWord(s[1..]);
    }
  }

  lemma RestCons(a: Attr, rest: seq<Attr>)
    ensures JsonRest([a] + rest) == "," + (JsonField(a) + JsonRest(rest))
  {
    hide JsonField;
    assert ([a] + rest)[1..] == rest;
  }

  lemma StrField(key: string, s: string)
    ensures JsonField(Attr(key, Str(s))) == (JsonString(key) + ":") + JsonString(s)
  {
    hide JsonString;
    assert JsonValue(Str(s)) == JsonString(s);
  }

  /** The head of a record, as the source writes it. */
  lemma HeadText(time: Option<int>, level: Level, msg: string, rest: seq<Attr>)
    ensures var start := if time.Some? then "{" + "\"time\":" + JsonString(Timestamp.FormatTime(time.value)) + "," else "{";
            JsonLine(Head(time, level, msg) + rest) ==
            start + "\"level\":" + JsonString(LevelName(level)) + ",\"msg\":" + JsonString(msg) + JsonRest(rest)
  {
    hide JsonString, JsonRest, JsonField, Timestamp.FormatTime, LevelName;
    PlainKeys();
    var l, m := Attr("level", Str(LevelName(level))), Attr("msg", Str(msg));
    StrField("level", LevelName(level));
    StrField("msg", msg);
    RestCons(m, rest);
    if time.Some? {
      var t := Attr("time", Str(Timestamp.FormatTime(time.value)));
      StrField("time", Timestamp.FormatTime(time.value));
      RestCons(l, [m] + rest);
      assert Head(time, level, msg) + rest == [t] + ([l] + ([m] + rest));
      assert ([t] + ([l] + ([m] + rest)))[1..] == [l] + ([m] + rest);
      TimeGlue(JsonString(Timestamp.FormatTime(time.value)), JsonString(LevelName(level)), JsonString(msg), JsonRest(rest));
    } else {
      assert Head(time, level, msg) + rest == [l] + ([m] + rest);
      assert ([l] + ([m] + rest))[1..] == [m] + rest;
      HeadGlue("{", JsonString(LevelName(level)), JsonString(msg), JsonRest(rest));
    }
  }

  lemma HeadGlue(start: string, l: string, m: string, r: string)
    ensures start + (("\"level\":" + l) + ("," + (("\"msg\":" + m) + r))) ==
            start + "\"level\":" + l + ",\"msg\":" + m + r
  {
    var key, next := "\"level\":", "," + (("\"msg\":" + m) + r);
    assert next == ",\"msg\":" + m + r;
    assert start + ((key + l) + next) == start + key + l + next;
  }

  lemma TimeGlue(t: string, l: string, m: string, r: string)
    ensures "{" + (("\"time\":" + t) + ("," + (("\"level\":" + l) + ("," + (("\"msg\":" + m) + r))))) ==
            "{" + "\"time\":" + t + "," + "\"level\":" + l + ",\"msg\":" + m + r
  {
    var start := "{" + "\"time\":" + t + ",";
    var next := ("\"level\":" + l) + ("," + (("\"msg\":" + m) + r));
    assert "{" + (("\"time\":" + t) + ("," + next)) == start + next;
    HeadGlue(start, l, m, r);
  }

  // ---------------------------------------------------------------- the syntax tree

  function TextNode(s: string): Node {
    Node("", Text(Escape(Logger, s)))
  }

  function IntNum(i: int): Num {
    if i < 0 then Num("-", Decimal(-i), "", "") else Num("", Decimal(i), "", "")
  }

  function ItemsFor(items: seq<string>): Items
    requires items != []
  {
    Items(TextNode(items[0]), "", if |items| == 1 then None else Some(ItemsFor(items[1..])))
  }

  function ValueFor(v: LogValue): Value {
    match v
    case Str(s) => Text(Escape(Logger, s))
    case Int(i) => Number(IntNum(i))
    case Bool(b) => Literal(BoolText(b))
    case List(items) => if items == [] then EmptyArray("") else Array(ItemsFor(items))
    case Duration(nanos) => Number(IntNum(nanos))
  }

  function MembersFor(fields: seq<Attr>): Members
    requires fields != []
  {
    Members("", Escape(Logger, fields[0].key), "", Node("", ValueFor(fields[0].value)), "",
            if |fields| == 1 then None else Some(MembersFor(fields[1..])))
  }

  function RecordDoc(fields: seq<Attr>): Doc
    requires fields != []
  {
    Doc(Node("", Object(MembersFor(fields))), "\n")
  }

  /** The trees the values stand for. */
  function ValueTree(v: LogValue): Tree {
    match v
    case Str(s) => TString(s)
    case Int(i) => TNumber(IntText(i))
    case Bool(b) => TLiteral(BoolText(b))
    case List(items) => TArray(seq(|items|, i requires 0 <= i < |items| => TString(items[i])))
    case Duration(nanos) => TNumber(Decimal(nanos))
  }

  function FieldTrees(fields: seq<Attr>): seq<Field> {
    seq(|fields|, i requires 0 <= i < |fields| => Field(fields[i].key, ValueTree(fields[i].value)))
  }

  // ---------------------------------------------------------------- the tree prints the text

  lemma StringPrints(s: string, k: string)
    ensures ValueText(Text(Escape(Logger, s)), k) == JsonString(s) + k
  {
    hide Escape;
  }

  lemma NumberPrints(i: int, k: string)
    ensures NumText(IntNum(i), k) == IntText(i) + k
  {
    hide Decimal;
  }

  lemma {:induction false} ItemsPrint(items: seq<string>, k: string)
    requires items != []
    ensures ItemsText(ItemsFor(items), k) == JsonString(items[0]) + (JsonItems(items[1..]) + k)
  {
    hide JsonString, Escape;
    var i := ItemsFor(items);
    var rest := items[1..];
    if |items| == 1 {
      StringPrints(items[0], "]" + k);
      LastItems(i, k);
    } else {
      ItemsPrint(rest, k);
      var tail := "," + ItemsText(ItemsFor(rest), k);
      MoreItems(i, k);
      StringPrints(items[0], tail);
      assert items[2..] == rest[1..];
    }
  }

  lemma LastItems(i: Items, k: string)
    requires i.x.before == "" && i.after == "" && i.tail.None?
    ensures ItemsText(i, k) == ValueText(i.x.v, "]" + k)
  {
    hide ValueText;
    assert "" + ("]" + k) == "]" + k;
    assert "" + ValueText(i.x.v, "]" + k) == ValueText(i.x.v, "]" + k);
  }

  lemma MoreItems(i: Items, k: string)
    requires i.x.before == "" && i.after == "" && i.tail.Some?
    ensures ItemsText(i, k) == ValueText(i.x.v, "," + ItemsText(i.tail.value, k))
  {
    hide ValueText;
    var t := "," + ItemsText(i.tail.value, k);
    assert "" + t == t;
    assert "" + ValueText(i.x.v, t) == ValueText(i.x.v, t);
  }

  lemma ValuePrints(v: LogValue, k: string)
    ensures ValueText(ValueFor(v), k) == JsonValue(v) + k
  {
    hide JsonString, Escape, Decimal, ItemsText, JsonItems, ItemsFor;
    match v
    case Str(s) => StringPrints(s, k);
    case Int(i) => NumberPrints(i, k);
    case Bool(b) =>
    case List(items) =>
      if items != [] {
        ItemsPrint(items, k);
      } else {
        assert "[" + ("" + ("]" + k)) == "[]" + k;
      }
    case Duration(nanos) => NumberPrints(nanos, k);
  }

  lemma MembersOpen(m: Members, k: string)
    requires m.before == "" && m.mid == "" && m.x.before == "" && m.after == ""
    ensures var t := if m.tail.Some? then "," + MembersText(m.tail.value, k) else "}" + k;
            MembersText(m, k) == "\"" + (m.key + ("\"" + (":" + ValueText(m.x.v, t))))
  {
    hide ValueText, NodeText, MembersText;
    var t := if m.tail.Some? then "," + MembersText(m.tail.value, k) else "}" + k;
    MembersUnfold(m, k);
    NodeUnfold(m.x, m.after + t);
    assert "" + t == t;
    NoPads(m.key, ValueText(m.x.v, t));
  }

  lemma MembersUnfold(m: Members, k: string)
    ensures var t := if m.tail.Some? then "," + MembersText(m.tail.value, k) else "}" + k;
            MembersText(m, k) ==
            m.before + ("\"" + (m.key + ("\"" + (m.mid + (":" + NodeText(m.x, m.after + t))))))
  {
  }

  lemma NodeUnfold(x: Node, k: string)
    ensures NodeText(x, k) == x.before + ValueText(x.v, k)
  {
  }

  lemma NoPads(key: string, v: string)
    ensures "" + ("\"" + (key + ("\"" + ("" + (":" + ("" + v)))))) == "\"" + (key + ("\"" + (":" + v)))
  {
    assert "" + v == v;
    assert "" + (":" + v) == ":" + v;
  }

  lemma {:induction false} MembersPrint(fields: seq<Attr>)
    requires fields != []
    ensures MembersText(MembersFor(fields), "\n") == JsonField(fields[0]) + JsonRest(fields[1..])
  {
    hide MembersText, Escape, JsonValue, JsonField, JsonRest, ValueFor, ValueText;
    var m, rest := MembersFor(fields), fields[1..];
    var t := if m.tail.Some? then "," + MembersText(m.tail.value, "\n") else "}" + "\n";
    RestEnds();
    if rest != [] {
      MembersPrint(rest);
      RestCons(rest[0], rest[1..]);
      assert [rest[0]] + rest[1..] == rest;
    }
    assert t == JsonRest(rest);
    MembersOpen(m, "\n");
    ValuePrints(fields[0].value, t);
    FieldIs(fields[0], t);
  }

  lemma RestEnds()
    ensures JsonRest([]) == "}" + "\n"
  {
  }

  lemma FieldIs(a: Attr, t: string)
    ensures "\"" + (Escape(Logger, a.key) + ("\"" + (":" + (JsonValue(a.value) + t)))) == JsonField(a) + t
  {
    hide Escape, JsonValue;
  }

  lemma LineIsDoc(fields: seq<Attr>)
    requires fields != []
    ensures DocText(RecordDoc(fields)) == JsonLine(fields)
  {
    hide MembersText, JsonField, JsonRest, MembersFor;
    MembersPrint(fields);
    var v := Object(MembersFor(fields));
    assert ValueText(v, "\n") == "{" + MembersText(MembersFor(fields), "\n");
    assert NodeText(Node("", v), "\n") == ValueText(v, "\n");
  }

  // ---------------------------------------------------------------- well-formed, and what it means

  lemma {:induction false} ItemsAreGood(items: seq<string>)
    requires items != []
    ensures var i := ItemsFor(items);
            WfItems(i) && NestingItems(i) == 0
            && TreesOf(i) == seq(|items|, k requires 0 <= k < |items| => TString(items[k]))
  {
    hide Escape, Decode, IsBody;
    DecodeEscape(Logger, items[0]);
    assert WfValue(TextNode(items[0]).v);
    assert WfNode(TextNode(items[0]));
    if |items| > 1 {
      ItemsAreGood(items[1..]);
    }
  }

  lemma NumberIsGood(i: int)
    ensures WfNum(IntNum(i)) && NumText(IntNum(i), "") == IntText(i)
  {
    NumberPrints(i, "");
    assert IntText(i) + "" == IntText(i);
  }

  lemma ValueIsGood(v: LogValue)
    ensures WfValue(ValueFor(v)) && Nesting(ValueFor(v)) <= 1 && TreeOf(ValueFor(v)) == ValueTree(v)
  {
    hide Escape, Decode, IsBody, Decimal, IntNum, WfNum, NumText, IntText;
    match v
    case Str(s) => DecodeEscape(Logger, s);
    case Int(i) => NumberIsGood(i);
    case Bool(b) =>
    case List(items) =>
      if items != [] {
        ItemsAreGood(items);
      }
    case Duration(nanos) =>
      NumberIsGood(nanos);
      NatText(nanos);
  }

  lemma NatText(n: nat)
    ensures IntText(n) == Decimal(n)
  {
  }

  lemma {:induction false} MembersAreGood(fields: seq<Attr>)
    requires fields != []
    ensures var m := MembersFor(fields);
            WfMembers(m) && NestingMembers(m) <= 1 && FieldsOf(m) == FieldTrees(fields)
  {
    hide Escape, Decode, IsBody, ValueFor, ValueTree, WfValue, Nesting, TreeOf;
    DecodeEscape(Logger, fields[0].key);
    ValueIsGood(fields[0].value);
    if |fields| > 1 {
      MembersAreGood(fields[1..]);
    }
  }

  lemma RecordIsGood(fields: seq<Attr>)
    requires fields != []
    ensures var d := RecordDoc(fields);
            WfDoc(d) && Nesting(d.x.v) <= 2 && TreeOf(d.x.v) == TObject(FieldTrees(fields))
  {
    hide MembersFor, FieldTrees, WfMembers, NestingMembers, FieldsOf;
    MembersAreGood(fields);
    var d := RecordDoc(fields);
    assert WfValue(d.x.v);
    assert WfNode(d.x);
  }

  /** Every JSON log line, for any message and attributes, is accepted by the scanner's grammar, and
      it stands for the object of exactly the record's fields in order: every key and string comes
      back as it was given. */
  lemma JsonLineMeans(fields: seq<Attr>)
    requires fields != []
    ensures ParseDoc(JsonLine(fields)) == Some(RecordDoc(fields))
    ensures TreeOf(RecordDoc(fields).x.v) == TObject(FieldTrees(fields))
  {
    LineIsDoc(fields);
    RecordIsGood(fields);
    hide JsonLine, FieldTrees, DocText, RecordDoc, WfDoc;
    ParseExact(JsonLine(fields), RecordDoc(fields));
  }

  lemma SameValueText(v: LogValue, w: LogValue)
    requires ValueTree(v) == ValueTree(w)
    ensures JsonValue(v) == JsonValue(w)
  {
    hide JsonString, JsonItems, Decimal, IntText;
    if v.List? {
      var x, y := ValueTree(v).items, ValueTree(w).items;
      assert |v.items| == |x| == |w.items|;
      forall i | 0 <= i < |x|
        ensures v.items[i] == w.items[i]
      {
        assert x[i] == TString(v.items[i]) && y[i] == TString(w.items[i]);
      }
      assert v.items == w.items;
    }
  }

  lemma {:induction false} SameRest(a: seq<Attr>, b: seq<Attr>)
    requires FieldTrees(a) == FieldTrees(b)
    ensures JsonRest(a) == JsonRest(b)
  {
    hide JsonString, JsonValue, ValueTree;
    assert |FieldTrees(a)| == |a| && |FieldTrees(b)| == |b|;
    if a != [] {
      SameField(a, b);
      SameTail(a, b);
      SameRest(a[1..], b[1..]);
    }
  }

  lemma SameField(a: seq<Attr>, b: seq<Attr>)
    requires FieldTrees(a) == FieldTrees(b) && a != [] && b != []
    ensures JsonField(a[0]) == JsonField(b[0])
  {
    hide JsonString, JsonValue, ValueTree;
    assert FieldTrees(a)[0] == Field(a[0].key, ValueTree(a[0].value));
    assert FieldTrees(b)[0] == Field(b[0].key, ValueTree(b[0].value));
    SameValueText(a[0].value, b[0].value);
  }

  lemma SameTail(a: seq<Attr>, b: seq<Attr>)
    requires FieldTrees(a) == FieldTrees(b) && a != [] && b != []
    ensures FieldTrees(a[1..]) == FieldTrees(b[1..])
  {
    hide ValueTree;
    assert FieldTrees(a[1..]) == FieldTrees(a)[1..];
    assert FieldTrees(b[1..]) == FieldTrees(b)[1..];
  }

  /** Two records have the same line if and only if they are the same to a reader of JSON, to whom an
      integer and a duration are both numbers. */
  lemma JsonLineInjective(a: seq<Attr>, b: seq<Attr>)
    requires a != [] && b != []
    ensures JsonLine(a) == JsonLine(b) <==> FieldTrees(a) == FieldTrees(b)
  {
    hide JsonField, JsonRest, FieldTrees, RecordDoc, TreeOf;
    if JsonLine(a) == JsonLine(b) {
      JsonLineMeans(a);
      JsonLineMeans(b);
    }
    if FieldTrees(a) == FieldTrees(b) {
      SameField(a, b);
      SameTail(a, b);
      SameRest(a[1..], b[1..]);
    }
  }

  // ---------------------------------------------------------------- one line

  lemma {:induction false} JsonStringHasNoNewline(s: string)
    ensures '\n' !in JsonString(s)
  {
    if s != "" {
      JsonStringHasNoNewline(s[1..]);
      assert '\n' !in EscapeByte(Logger, s[0]);
      assert Escape(Logger, s) == EscapeByte(Logger, s[0]) + Escape(Logger, s[1..]);
    }
  }

  lemma {:induction false} ItemsHaveNoNewline(items: seq<string>)
    ensures '\n' !in JsonItems(items)
  {
    hide JsonString;
    if items != [] {
      JsonStringHasNoNewline(items[0]);
      ItemsHaveNoNewline(items[1..]);
    }
  }

  lemma ValueHasNoNewline(v: LogValue)
    ensures '\n' !in JsonValue(v)
  {
    hide JsonString, IntText, Decimal, All, JsonItems;
    match v
    case Str(s) => JsonStringHasNoNewline(s);
    case Int(i) =>
      IntIsWord(i);
      WordHasNoNewline(IntText(i));
    case Bool(b) =>
    case List(items) =>
      if items != [] {
        JsonStringHasNoNewline(items[0]);
        ItemsHaveNoNewline(items[1..]);
      }
    case Duration(nanos) =>
      DecimalIsWord(nanos);
      WordHasNoNewline(Decimal(nanos));
  }

  lemma FieldHasNoNewline(a: Attr)
    ensures '\n' !in JsonField(a)
  {
    hide JsonString, JsonValue;
    JsonStringHasNoNewline(a.key);
    ValueHasNoNewline(a.value);
  }

  lemma {:induction false} RestIsOneLine(fields: seq<Attr>)
    ensures OneLine(JsonRest(fields))
  {
    hide JsonField;
    if fields == [] {
      assert "}\n"[..1] == "}";
    } else {
      var rest := JsonRest(fields[1..]);
      RestIsOneLine(fields[1..]);
      FieldHasNoNewline(fields[0]);
      hide OneLine;
      OneLineCons(JsonField(fields[0]), rest);
      OneLineCons(",", JsonField(fields[0]) + rest);
    }
  }

  /** A JSON record is one line, whatever its message, keys and values. */
  lemma JsonIsOneLine(fields: seq<Attr>)
    requires fields != []
    ensures OneLine(JsonLine(fields))
  {
    hide JsonField, JsonRest, OneLine;
    RestIsOneLine(fields[1..]);
    FieldHasNoNewline(fields[0]);
    OneLineCons(JsonField(fields[0]), JsonRest(fields[1..]));
    OneLineCons("{", JsonField(fields[0]) + JsonRest(fields[1..]));
  }

  // ---------------------------------------------------------------- whole records

  /** What a record starts with: its time when times are on, its level and its message. */
  function HeadFields(time: Option<int>, level: Level, msg: string): seq<Field> {
    (if time.Some? then [Field("time", TString(Timestamp.FormatTime(time.value)))] else [])
    + [Field("level", TString(LevelName(level))), Field("msg", TString(msg))]
  }

  /** A JSON record is the object of time, level, message and attributes, the logger's own before the
      call's. */
  lemma RecordMeans(time: Option<int>, level: Level, msg: string, own: seq<Attr>, attrs: seq<Attr>)
    ensures var fields := RecordFields(time, level, msg, own, attrs);
            && ParseDoc(JsonLine(fields)) == Some(RecordDoc(fields))
            && TreeOf(RecordDoc(fields).x.v) == TObject(HeadFields(time, level, msg) + FieldTrees(own) + FieldTrees(attrs))
  {
    var fields := RecordFields(time, level, msg, own, attrs);
    hide JsonLine, RecordDoc, TreeOf, FieldTrees, Head, HeadFields, ParseDoc;
    JsonLineMeans(fields);
    HeadTrees(time, level, msg);
    FieldTreesConcat(own, attrs);
    FieldTreesConcat(Head(time, level, msg), own + attrs);
    var h := HeadFields(time, level, msg);
    assert h + (FieldTrees(own) + FieldTrees(attrs)) == h + FieldTrees(own) + FieldTrees(attrs);
  }

  lemma FieldTreesConcat(a: seq<Attr>, b: seq<Attr>)
    ensures FieldTrees(a + b) == FieldTrees(a) + FieldTrees(b)
  {
    hide ValueTree;
  }

  lemma HeadTrees(time: Option<int>, level: Level, msg: string)
    ensures FieldTrees(Head(time, level, msg)) == HeadFields(time, level, msg)
  {
    hide Timestamp.FormatTime, LevelName;
  }
}
