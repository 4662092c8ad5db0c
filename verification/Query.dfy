/** Query strings and their redaction for logs (src/util.rs). */
module Query {
  import opened Text
  import opened Percent

  type Pair = (string, string)

  // ---------------------------------------------------------------- parsing

  /** `str::split`: the texts between the separators; there is always one. */
  function SplitOn(c: char, s: string): (parts: seq<string>)
    ensures parts != []
    decreases |s|
  {
    var n := Find(c, s);
    if n == |s| then [s] else [s[..n]] + SplitOn(c, s[n + 1..])
  }

  datatype Part = Skip | Bad | Good(pair: Pair)

  function KeyOf(part: string): string {
    part[..Find('=', part)]
  }

  function ValueOf(part: string): string {
    var n := Find('=', part);
    if n == |part| then "" else part[n + 1..]
  }

  function ReadPart(part: string): Part {
    if part == "" then Skip
    else if ';' in part then Bad
    else
      var k, v := PercentDecode(KeyOf(part), true), PercentDecode(ValueOf(part), true);
      if k.Some? && v.Some? then Good((k.value, v.value)) else Bad
  }

  function PairsOf(parts: seq<string>): seq<Pair> {
    if parts == [] then []
    else (match ReadPart(parts[0])
          case Good(p) => [p]
          case _ => []) + PairsOf(parts[1..])
  }

  predicate AnyBad(parts: seq<string>) {
    parts != [] && (ReadPart(parts[0]).Bad? || AnyBad(parts[1..]))
  }

  /** The well-formed pairs, and whether some pair was malformed. */
  function ParseQuery(raw: string): (seq<Pair>, bool) {
    var parts := SplitOn('&', raw);
    (PairsOf(parts), AnyBad(parts))
  }

  method ReadPartOf(part: string) returns (r: Part)
    requires ValidUtf8(part)
    ensures r == ReadPart(part)
  {
    hide ValidUtf8, PercentDecode, Find;
    if part == "" {
      return Skip;
    }
    if ';' in part {
      return Bad;
    }
    PiecesAreValid(part);
    var key := DecodePercent(KeyOf(part), true);
    var value := DecodePercent(ValueOf(part), true);
    if key.Some? && value.Some? {
      return Good((key.value, value.value));
    }
    return Bad;
  }

  method ParseQueryLoop(raw: string) returns (pairs: seq<Pair>, malformed: bool)
    requires ValidUtf8(raw)
    ensures (pairs, malformed) == ParseQuery(raw)
  {
    hide ValidUtf8, ReadPart, SplitOn, PairsOf, AnyBad;
    var parts := SplitOn('&', raw);
    PartsAreValid('&', raw);
    pairs, malformed := [], false;
    assert parts[0..] == parts;
    for i := 0 to |parts|
      invariant PairsOf(parts) == pairs + PairsOf(parts[i..])
      invariant AnyBad(parts) == (malformed || AnyBad(parts[i..]))
    {
      PartStep(parts, i, pairs);
      var r := ReadPartOf(parts[i]);
      match r
      case Skip =>
      case Bad => malformed := true;
      case Good(p) => pairs := pairs + [p];
    }
    NoParts(parts[|parts|..], pairs);
  }

  /** What the part at `i` adds. */
  lemma PartStep(parts: seq<string>, i: nat, pairs: seq<Pair>)
    requires i < |parts|
    ensures AnyBad(parts[i..]) == (ReadPart(parts[i]).Bad? || AnyBad(parts[i + 1..]))
    ensures match ReadPart(parts[i])
            case Good(p) => pairs + PairsOf(parts[i..]) == pairs + [p] + PairsOf(parts[i + 1..])
            case _ => PairsOf(parts[i..]) == PairsOf(parts[i + 1..])
  {
    hide ReadPart;
    assert parts[i..][1..] == parts[i + 1..] && parts[i..][0] == parts[i];
  }

  lemma NoParts(parts: seq<string>, pairs: seq<Pair>)
    requires parts == []
    ensures pairs + PairsOf(parts) == pairs && !AnyBad(parts)
  {
  }

  lemma {:induction false} PartsAreValid(c: char, s: string)
    requires ValidUtf8(s) && c as int < 0x80
    ensures forall i :: 0 <= i < |SplitOn(c, s)| ==> ValidUtf8(SplitOn(c, s)[i])
    decreases |s|
  {
    hide ValidUtf8, Find;
    var n := Find(c, s);
    if n < |s| {
      ValidSplit(s, n);
      PartsAreValid(c, s[n + 1..]);
    }
  }

  lemma PiecesAreValid(part: string)
    requires ValidUtf8(part)
    ensures ValidUtf8(KeyOf(part)) && ValidUtf8(ValueOf(part))
  {
    hide ValidUtf8, Find;
    var n := Find('=', part);
    if n < |part| {
      ValidSplit(part, n);
    } else {
      assert part[..n] == part;
      ValidAscii("");
    }
  }

  // ---------------------------------------------------------------- redacting

  const REDACTED: string := "redacted"

  predicate IsSensitive(key: string) {
    Lower(key) in ["api_key", "apikey", "access_token", "token", "auth", "password"]
  }

  /** Keeps the first pair of each sensitive key, with its value replaced, and every other pair. */
  function Redact(pairs: seq<Pair>, seen: seq<string>): seq<Pair>
    decreases |pairs|
  {
    if pairs == [] then []
    else
      var (key, value) := pairs[0];
      if !IsSensitive(key) then [pairs[0]] + Redact(pairs[1..], seen)
      else if key in seen then Redact(pairs[1..], seen)
      else [(key, REDACTED)] + Redact(pairs[1..], seen + [key])
  }

  method RedactLoop(pairs: seq<Pair>) returns (out: seq<Pair>)
    ensures out == Redact(pairs, [])
  {
    hide IsSensitive;
    out := [];
    var seen: seq<string> := [];
    assert pairs[0..] == pairs;
    for i := 0 to |pairs|
      invariant Redact(pairs, []) == out + Redact(pairs[i..], seen)
    {
      assert pairs[i..][1..] == pairs[i + 1..] && pairs[i..][0] == pairs[i];
      var (key, value) := pairs[i];
      if IsSensitive(key) {
        if key in seen {
          continue;
        }
        seen := seen + [key];
        value := REDACTED;
      }
      out := out + [(key, value)];
    }
  }

  // ---------------------------------------------------------------- stable sorting by key

  /** In front of the first pair whose key is not smaller. */
  function Insert(p: Pair, pairs: seq<Pair>): seq<Pair> {
    if pairs == [] || !Less(pairs[0].0, p.0) then [p] + pairs
    else [pairs[0]] + Insert(p, pairs[1..])
  }

  /** The stable sort by key. */
  function SortByKey(pairs: seq<Pair>): seq<Pair> {
    if pairs == [] then [] else Insert(pairs[0], SortByKey(pairs[1..]))
  }

  predicate KeysInOrder(pairs: seq<Pair>) {
    forall i :: 0 <= i < |pairs| - 1 ==> !Less(pairs[i + 1].0, pairs[i].0)
  }

  /** The values of a key, in order. */
  function Values(key: string, pairs: seq<Pair>): seq<string> {
    if pairs == [] then []
    else (if pairs[0].0 == key then [pairs[0].1] else []) + Values(key, pairs[1..])
  }

  lemma {:induction false} InsertInOrder(p: Pair, pairs: seq<Pair>)
    requires KeysInOrder(pairs)
    ensures KeysInOrder(Insert(p, pairs))
    ensures pairs != [] ==> Insert(p, pairs)[0] == p || Insert(p, pairs)[0] == pairs[0]
  {
    if pairs == [] {
    } else if !Less(pairs[0].0, p.0) {
      var out := [p] + pairs;
      assert forall i :: 1 <= i < |out| ==> out[i] == pairs[i - 1];
    } else {
      var rest := pairs[1..];
      assert forall i :: 0 <= i < |rest| ==> rest[i] == pairs[i + 1];
      InsertInOrder(p, rest);
      var out, tail := Insert(p, pairs), Insert(p, rest);
      hide Insert, Less;
      assert out == [pairs[0]] + tail;
      HeadOfInsert(p, rest);
      LessNotBoth(pairs[0].0, p.0);
      assert forall i :: 1 <= i < |out| ==> out[i] == tail[i - 1];
    }
  }

  lemma LessNotBoth(a: string, b: string)
    requires Less(a, b)
    ensures !Less(b, a)
  {
    if Less(b, a) {
      LessTransitive(a, b, a);
      LessIrreflexive(a);
    }
  }

  lemma HeadOfInsert(p: Pair, pairs: seq<Pair>)
    ensures Insert(p, pairs) != []
    ensures Insert(p, pairs)[0] == p || (pairs != [] && Insert(p, pairs)[0] == pairs[0])
  {
  }

  lemma {:induction false} InsertValues(p: Pair, pairs: seq<Pair>, key: string)
    ensures Values(key, Insert(p, pairs)) == (if p.0 == key then [p.1] else []) + Values(key, pairs)
  {
    hide Less;
    LessIrreflexive(p.0);
    if pairs == [] || !Less(pairs[0].0, p.0) {
      ValuesCons(p, pairs, key);
    } else {
      InsertValues(p, pairs[1..], key);
      ValuesCons(pairs[0], Insert(p, pairs[1..]), key);
      ValuesCons(pairs[0], pairs[1..], key);
      assert [pairs[0]] + pairs[1..] == pairs;
    }
  }

  /** The sorted pairs are in key order and keep the values of every key, in order. */
  lemma {:induction false} SortIsStable(pairs: seq<Pair>, key: string)
    ensures KeysInOrder(SortByKey(pairs)) && Values(key, SortByKey(pairs)) == Values(key, pairs)
  {
    if pairs != [] {
      SortIsStable(pairs[1..], key);
      hide SortByKey, Insert;
      SortUnfold(pairs);
      InsertInOrder(pairs[0], SortByKey(pairs[1..]));
      InsertValues(pairs[0], SortByKey(pairs[1..]), key);
    }
  }

  lemma SortUnfold(pairs: seq<Pair>)
    requires pairs != []
    ensures SortByKey(pairs) == Insert(pairs[0], SortByKey(pairs[1..]))
  {
  }

  lemma {:induction false} SortSorted(pairs: seq<Pair>)
    requires KeysInOrder(pairs)
    ensures SortByKey(pairs) == pairs
  {
    if pairs != [] {
      assert forall i :: 0 <= i < |pairs| - 1 ==> pairs[1..][i] == pairs[i + 1];
      SortSorted(pairs[1..]);
      assert [pairs[0]] + pairs[1..] == pairs;
    }
  }

  /** What redaction leaves of each key. */
  lemma {:induction false} RedactValues(pairs: seq<Pair>, seen: seq<string>, key: string)
    ensures Values(key, Redact(pairs, seen)) ==
            if !IsSensitive(key) then Values(key, pairs)
            else if key in seen || Values(key, pairs) == [] then []
            else [REDACTED]
    decreases |pairs|
  {
    hide IsSensitive;
    if pairs != [] {
      var head, rest := pairs[0], pairs[1..];
      if !IsSensitive(head.0) {
        RedactValues(rest, seen, key);
        ValuesCons(head, Redact(rest, seen), key);
      } else if head.0 in seen {
        RedactValues(rest, seen, key);
      } else {
        RedactValues(rest, seen + [head.0], key);
        ValuesCons((head.0, REDACTED), Redact(rest, seen + [head.0]), key);
      }
    }
  }

  lemma ValuesCons(p: Pair, pairs: seq<Pair>, key: string)
    ensures Values(key, [p] + pairs) == (if p.0 == key then [p.1] else []) + Values(key, pairs)
  {
    assert ([p] + pairs)[1..] == pairs;
  }

  // ---------------------------------------------------------------- printing

  function Printed(p: Pair): string {
    QueryEscape(p.0) + ("=" + QueryEscape(p.1))
  }

  function PrintQuery(pairs: seq<Pair>): string {
    if pairs == [] then ""
    else if |pairs| == 1 then Printed(pairs[0])
    else Printed(pairs[0]) + ("&" + PrintQuery(pairs[1..]))
  }

  method PrintQueryLoop(pairs: seq<Pair>) returns (out: string)
    ensures out == PrintQuery(pairs)
  {
    hide QueryEscape;
    out := "";
    for i := 0 to |pairs|
      invariant out == PrintQuery(pairs[..i])
      invariant i > 0 <==> out != ""
    {
      PrintSnoc(pairs[..i], pairs[i]);
      assert pairs[..i + 1] == pairs[..i] + [pairs[i]];
      if out != "" {
        out := out + "&";
      }
      var key := QueryEscapeLoop(pairs[i].0);
      out := out + key;
      out := out + "=";
      var value := QueryEscapeLoop(pairs[i].1);
      out := out + value;
    }
    assert pairs[..|pairs|] == pairs;
  }

  lemma {:induction false} PrintSnoc(pairs: seq<Pair>, p: Pair)
    ensures var before := if pairs == [] then "" else PrintQuery(pairs) + "&";
            PrintQuery(pairs + [p]) == before + QueryEscape(p.0) + "=" + QueryEscape(p.1)
  {
    hide QueryEscape;
    if pairs == [] {
      assert pairs + [p] == [p];
    } else {
      PrintSnoc(pairs[1..], p);
      assert (pairs + [p])[1..] == pairs[1..] + [p];
    }
  }

  /** `sanitize_raw_query`. */
  function Sanitize(raw: string): string {
    if raw == "" then ""
    else
      var (pairs, malformed) := ParseQuery(raw);
      if malformed then raw else PrintQuery(SortByKey(Redact(pairs, [])))
  }

  method SanitizeRawQuery(raw: string) returns (out: string)
    requires ValidUtf8(raw)
    ensures out == Sanitize(raw)
  {
    hide ParseQuery, Redact, SortByKey, PrintQuery;
    if raw == "" {
      return "";
    }
    var pairs, malformed := ParseQueryLoop(raw);
    if malformed {
      return raw;
    }
    pairs := RedactLoop(pairs);
    pairs := SortByKey(pairs);
    out := PrintQueryLoop(pairs);
  }

  // ---------------------------------------------------------------- reading back

  ghost predicate ValidPairs(pairs: seq<Pair>) {
    forall i :: 0 <= i < |pairs| ==> ValidUtf8(pairs[i].0) && ValidUtf8(pairs[i].1)
  }

  lemma EscapedHasNoSeparator(s: string)
    ensures var e := QueryEscape(s); '&' !in e && '=' !in e && ';' !in e
  {
    hide QueryEscape;
    QueryEscapeBytes(s);
    var e := QueryEscape(s);
    forall i | 0 <= i < |e|
      ensures e[i] != '&' && e[i] != '=' && e[i] != ';'
    {
      assert EscapedInQuery(e[i]);
    }
  }

  /** A printed pair is read back as that pair. */
  lemma PrintedReads(p: Pair)
    requires ValidUtf8(p.0) && ValidUtf8(p.1)
    ensures '&' !in Printed(p) && ReadPart(Printed(p)) == Good(p)
  {
    hide QueryEscape, PercentDecode, ValidUtf8;
    EscapedHasNoSeparator(p.0);
    EscapedHasNoSeparator(p.1);
    QueryRoundTrips(p.0);
    QueryRoundTrips(p.1);
    var k, v := QueryEscape(p.0), QueryEscape(p.1);
    FindOfPrefix('=', k, "=" + v);
    assert (k + ("=" + v))[|k| + 1..] == v;
  }

  lemma SplitAtSeparator(c: char, a: string, b: string)
    requires c !in a
    ensures SplitOn(c, a + ([c] + b)) == [a] + SplitOn(c, b)
  {
    FindOfPrefix(c, a, [c] + b);
    assert (a + ([c] + b))[|a| + 1..] == b;
  }

  lemma SplitWithout(c: char, a: string)
    requires c !in a
    ensures SplitOn(c, a) == [a]
  {
    FindOfPrefix(c, a, "");
    assert a + "" == a;
  }

  lemma {:induction false} PrintReadsBack(pairs: seq<Pair>)
    requires ValidPairs(pairs)
    ensures ParseQuery(PrintQuery(pairs)) == (pairs, false)
  {
    hide ReadPart, Printed, SplitOn, ValidUtf8;
    if pairs == [] {
      SplitWithout('&', "");
      EmptyPart();
      PartStep([""], 0, []);
      NoParts([""][1..], []);
      assert [""][0..] == [""];
    } else {
      PrintedReads(pairs[0]);
      var part, rest := Printed(pairs[0]), pairs[1..];
      if |pairs| == 1 {
        SplitWithout('&', part);
        PartStep([part], 0, []);
        NoParts([part][1..], [pairs[0]]);
        assert [part][0..] == [part] && pairs == [pairs[0]];
      } else {
        PrintReadsBack(rest);
        SplitAtSeparator('&', part, PrintQuery(rest));
        var parts := SplitOn('&', PrintQuery(rest));
        assert ([part] + parts)[1..] == parts;
        assert pairs == [pairs[0]] + rest;
      }
    }
  }

  lemma EmptyPart()
    ensures ReadPart("") == Skip
  {
  }

  // ---------------------------------------------------------------- everything parsed is valid

  lemma {:induction false} ParsedIsValid(parts: seq<string>)
    ensures ValidPairs(PairsOf(parts))
  {
    hide ValidUtf8, PercentDecode, Find;
    if parts != [] {
      ParsedIsValid(parts[1..]);
      var part := parts[0];
      if ReadPart(part).Good? {
        DecodedIsValid(KeyOf(part), true);
        DecodedIsValid(ValueOf(part), true);
      }
    }
  }

  lemma {:induction false} RedactedIsValid(pairs: seq<Pair>, seen: seq<string>)
    requires ValidPairs(pairs)
    ensures ValidPairs(Redact(pairs, seen))
    decreases |pairs|
  {
    hide ValidUtf8, IsSensitive;
    ValidAscii(REDACTED);
    if pairs != [] {
      var rest := pairs[1..];
      assert forall i :: 0 <= i < |rest| ==> rest[i] == pairs[i + 1];
      RedactedIsValid(rest, seen);
      RedactedIsValid(rest, seen + [pairs[0].0]);
    }
  }

  lemma {:induction false} InsertedIsValid(p: Pair, pairs: seq<Pair>)
    requires ValidPairs(pairs) && ValidUtf8(p.0) && ValidUtf8(p.1)
    ensures ValidPairs(Insert(p, pairs))
  {
    hide ValidUtf8, Less;
    if pairs != [] && Less(pairs[0].0, p.0) {
      assert forall i :: 0 <= i < |pairs[1..]| ==> pairs[1..][i] == pairs[i + 1];
      InsertedIsValid(p, pairs[1..]);
    }
  }

  lemma {:induction false} SortedIsValid(pairs: seq<Pair>)
    requires ValidPairs(pairs)
    ensures ValidPairs(SortByKey(pairs))
  {
    hide ValidUtf8, Insert;
    if pairs != [] {
      assert forall i :: 0 <= i < |pairs[1..]| ==> pairs[1..][i] == pairs[i + 1];
      SortedIsValid(pairs[1..]);
      InsertedIsValid(pairs[0], SortByKey(pairs[1..]));
    }
  }

  // ---------------------------------------------------------------- the main results

  /** For a well-formed query, the sanitised query parses without malformation, its pairs are in key
      order, and each key has the values it had, in order, except that a sensitive key that occurred
      is there once with the value `redacted`. */
  lemma SanitizeExact(raw: string, key: string)
    requires !ParseQuery(raw).1
    ensures var before, after := ParseQuery(raw).0, ParseQuery(Sanitize(raw));
            && !after.1 && KeysInOrder(after.0)
            && Values(key, after.0) ==
               if !IsSensitive(key) then Values(key, before)
               else if Values(key, before) == [] then [] else [REDACTED]
  {
    var pairs := ParseQuery(raw).0;
    SanitizedPairs(raw);
    hide ParseQuery, Redact, SortByKey, IsSensitive, KeysInOrder;
    RedactValues(pairs, [], key);
    SortIsStable(Redact(pairs, []), key);
  }

  lemma SanitizedPairs(raw: string)
    requires !ParseQuery(raw).1
    ensures ParseQuery(Sanitize(raw)) == (SortByKey(Redact(ParseQuery(raw).0, [])), false)
    ensures Sanitize(raw) == PrintQuery(SortByKey(Redact(ParseQuery(raw).0, [])))
  {
    var pairs := ParseQuery(raw).0;
    ParsedIsValid(SplitOn('&', raw));
    RedactedIsValid(pairs, []);
    SortedIsValid(Redact(pairs, []));
    PrintReadsBack(SortByKey(Redact(pairs, [])));
    if raw == "" {
      PrintReadsBack([]);
    }
  }

  /** Nothing is left to redact. */
  ghost predicate Clean(pairs: seq<Pair>, seen: seq<string>) {
    forall key :: IsSensitive(key) ==>
                    Values(key, pairs) == [] || (key !in seen && Values(key, pairs) == [REDACTED])
  }

  lemma {:induction false} RedactClean(pairs: seq<Pair>, seen: seq<string>)
    requires Clean(pairs, seen)
    ensures Redact(pairs, seen) == pairs
    decreases |pairs|
  {
    hide IsSensitive;
    if pairs != [] {
      var head, rest := pairs[0], pairs[1..];
      assert pairs == [head] + rest;
      if IsSensitive(head.0) {
        assert Values(head.0, pairs) == [head.1] + Values(head.0, rest);
        assert Values(head.0, pairs)[0] == head.1;
        assert Values(head.0, rest) == [] && head.1 == REDACTED && head.0 !in seen;
        forall key | IsSensitive(key)
          ensures Values(key, rest) == [] || (key !in seen + [head.0] && Values(key, rest) == [REDACTED])
        {
        }
        RedactClean(rest, seen + [head.0]);
      } else {
        forall key | IsSensitive(key)
          ensures Values(key, rest) == [] || (key !in seen && Values(key, rest) == [REDACTED])
        {
          assert head.0 != key;
        }
        RedactClean(rest, seen);
      }
    }
  }

  /** Sanitising twice is sanitising once, for every input. */
  lemma SanitizeTwice(raw: string)
    ensures Sanitize(Sanitize(raw)) == Sanitize(raw)
  {
    if !ParseQuery(raw).1 {
      SanitizedPairs(raw);
      var pairs := ParseQuery(raw).0;
      var out := SortByKey(Redact(pairs, []));
      hide ParseQuery, Redact, SortByKey, IsSensitive;
      forall key | IsSensitive(key)
        ensures Values(key, out) == [] || (key !in [] && Values(key, out) == [REDACTED])
      {
        RedactValues(pairs, [], key);
        SortIsStable(Redact(pairs, []), key);
      }
      RedactClean(out, []);
      SortIsStable(Redact(pairs, []), "");
      SortSorted(out);
    }
  }

  // ---------------------------------------------------------------- parsing, part by part

  function JoinWith(c: char, parts: seq<string>): string {
    if parts == [] then "" else if |parts| == 1 then parts[0] else parts[0] + ([c] + JoinWith(c, parts[1..]))
  }

  /** The parts hold no separator and, joined by it, are the text. */
  lemma {:induction false} SplitExact(c: char, s: string)
    ensures JoinWith(c, SplitOn(c, s)) == s && forall i :: 0 <= i < |SplitOn(c, s)| ==> c !in SplitOn(c, s)[i]
    decreases |s|
  {
    var n := Find(c, s);
    FindIsFirst(c, s);
    hide Find;
    if n == |s| {
      assert s[..n] == s;
    } else {
      SplitExact(c, s[n + 1..]);
      var rest := SplitOn(c, s[n + 1..]);
      assert ([s[..n]] + rest)[1..] == rest;
      SplitAround(s, n);
    }
  }

  /** A part that is not empty is malformed when it holds a semicolon; otherwise it is a key and, after
      its first equals sign, a value, which are decoded, and malformed when one cannot be. */
  lemma PartExact(key: string, value: Option<string>)
    requires '=' !in key
    ensures var part := key + (if value.Some? then "=" + value.value else "");
            ReadPart(part) ==
            if part == "" then Skip
            else if ';' in part then Bad
            else
              var k, v := PercentDecode(key, true), PercentDecode(if value.Some? then value.value else "", true);
              if k.Some? && v.Some? then Good((k.value, v.value)) else Bad
  {
    var tail := if value.Some? then "=" + value.value else "";
    FindOfPrefix('=', key, tail);
    hide Find, PercentDecode;
    var part := key + tail;
    if value.Some? {
      assert part[|key| + 1..] == value.value;
    } else {
      assert part == key;
    }
  }

  /** Pairs are collected in order, and one malformed part is enough. */
  lemma {:induction false} PartsConcat(a: seq<string>, b: seq<string>)
    ensures PairsOf(a + b) == PairsOf(a) + PairsOf(b) && (AnyBad(a + b) <==> AnyBad(a) || AnyBad(b))
  {
    hide ReadPart;
    if a == [] {
      assert a + b == b;
    } else {
      PartsConcat(a[1..], b);
      assert (a + b)[1..] == a[1..] + b;
      var x := match ReadPart(a[0]) case Good(p) => [p] case _ => [];
      assert PairsOf(a + b) == x + (PairsOf(a[1..]) + PairsOf(b));
      assert x + (PairsOf(a[1..]) + PairsOf(b)) == x + PairsOf(a[1..]) + PairsOf(b);
    }
  }

  /** Exactly these keys are redacted, in any case, and to this word. */
  lemma SensitiveExact(key: string)
    ensures REDACTED == "redacted"
    ensures IsSensitive(key) <==>
            || Lower(key) == "api_key" || Lower(key) == "apikey" || Lower(key) == "access_token"
            || Lower(key) == "token" || Lower(key) == "auth" || Lower(key) == "password"
  {
    hide Lower;
  }
}
