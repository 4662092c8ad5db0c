/** The recogniser seen from the cursor: what is left and what has been found after each construct,
    one step at a time. The scanner's methods are proved against these steps. */
module ScanSteps {
  import opened Text
  import opened JsonStrings
  import opened Json
  import opened JsonProofs
  import opened ScanSpec

  datatype Seen = Rejected | Seen(rest: string, found: seq<Found>)

  function After(acc: seq<Found>, e: Seen): Seen {
    match e
    case Rejected => Rejected
    case Seen(rest, found) => Seen(rest, acc + found)
  }

  function SeeNode(s: string, stack: seq<Segment>, total: nat): Seen {
    match ParseNode(s, |stack|)
    case Fail => Rejected
    case Ok(x, rest) => Seen(rest, FoundNode(x, rest, stack, total))
  }

  function SeeValue(r: Parsed<Value>, stack: seq<Segment>, total: nat): Seen {
    match r
    case Fail => Rejected
    case Ok(v, rest) => Seen(rest, FoundValue(v, rest, stack, total))
  }

  function SeeItems(s: string, stack: seq<Segment>, index: nat, total: nat): Seen {
    match ParseItems(s, |stack|)
    case Fail => Rejected
    case Ok(i, rest) => Seen(rest, FoundItems(i, rest, stack, index, total))
  }

  function SeeMembers(s: string, stack: seq<Segment>, total: nat): Seen {
    match ParseMembers(s, |stack|)
    case Fail => Rejected
    case Ok(m, rest) => Seen(rest, FoundMembers(m, rest, stack, total))
  }

  // ---------------------------------------------------------------- values

  lemma NodeStep(s: string, stack: seq<Segment>, total: nat)
    ensures SeeNode(s, stack, total) ==
            if |stack| > MAX_DEPTH then Rejected
            else SeeValue(ParseValue(s[Span(IsWs, s)..], |stack|), stack, total)
  {
    hide ParseValue, FoundValue, Span;
  }

  lemma SpanTwice(s: string)
    ensures var t := s[Span(IsWs, s)..]; Span(IsWs, t) == 0 && t[0..] == t
  {
    SpanIsRun(IsWs, s);
  }

  /** White space in front of a value changes nothing. */
  lemma NodeSkip(s: string, stack: seq<Segment>, total: nat)
    ensures SeeNode(s[Span(IsWs, s)..], stack, total) == SeeNode(s, stack, total)
  {
    hide SeeNode, SeeValue, ParseValue, Span;
    NodeStep(s, stack, total);
    NodeStep(s[Span(IsWs, s)..], stack, total);
    SpanTwice(s);
  }

  lemma TextStep(t: string, depth: nat)
    requires t != "" && t[0] == '"'
    ensures ParseValue(t, depth) == ParseText(t)
  {
    hide ParseText, ParseObject, ParseArray, ParseNumber, ParseLiteral;
  }

  lemma StringStep(t: string, stack: seq<Segment>, total: nat)
    requires t != "" && t[0] == '"'
    ensures SeeValue(ParseValue(t, |stack|), stack, total) ==
            match ReadBody(t[1..])
            case None => Rejected
            case Some((v, rest)) =>
              Seen(rest, if IsUrl(v) then [Found(total - |t|, total - |rest|, PathText(stack), v)] else [])
  {
    hide ReadBody, Decode, PathText, ParseValue, ParseText, IsUrl, FoundValue;
    TextStep(t, |stack|);
    TextReads(t);
    var r := ParseText(t);
    if r.Ok? {
      FoundText(r.value.body, r.rest, stack, total);
    }
  }

  lemma TextReads(t: string)
    requires t != ""
    ensures var r := ParseText(t);
            if r.Fail? then ReadBody(t[1..]) == None
            else r.value.Text? && ReadBody(t[1..]) == Some((Decode(r.value.body), r.rest))
                 && |t| == |r.value.body| + |r.rest| + 2
  {
    hide BodyLen, Decode, IsBody;
    if BodyLen(t[1..]).Some? {
      BodyLenSound(t[1..]);
    }
  }

  lemma FoundText(b: string, k: string, stack: seq<Segment>, total: nat)
    ensures FoundValue(Text(b), k, stack, total) ==
            if IsUrl(Decode(b))
            then [Found(total - (|b| + |k| + 2), total - |k|, PathText(stack), Decode(b))] else []
  {
    hide Decode, PathText, IsUrl;
  }

  lemma ArrayStep(t: string, stack: seq<Segment>, total: nat)
    requires t != "" && t[0] == '['
    ensures SeeValue(ParseValue(t, |stack|), stack, total) ==
            (var s := t[1..];
             var n := Span(IsWs, s);
             if n < |s| && s[n] == ']' then Seen(s[n + 1..], []) else SeeItems(s, stack, 0, total))
  {
    hide ParseItems, FoundItems, Span;
  }

  lemma ObjectStep(t: string, stack: seq<Segment>, total: nat)
    requires t != "" && t[0] == '{'
    ensures SeeValue(ParseValue(t, |stack|), stack, total) ==
            (var s := t[1..];
             var n := Span(IsWs, s);
             if n < |s| && s[n] == '}' then Seen(s[n + 1..], []) else SeeMembers(s, stack, total))
  {
    hide ParseMembers, FoundMembers, Span;
  }

  /** Literals and numbers; anything else is rejected. */
  function SeeScalar(t: string): Seen
    requires t != ""
  {
    var r :=
      if t[0] == 't' then ParseLiteral("true", t)
      else if t[0] == 'f' then ParseLiteral("false", t)
      else if t[0] == 'n' then ParseLiteral("null", t)
      else Fail;
    if t[0] == '-' || IsDigit(t[0]) then
      match ParseNumber(t)
      case Fail => Rejected
      case Ok(_, rest) => Seen(rest, [])
    else
      match r
      case Fail => Rejected
      case Ok(_, rest) => Seen(rest, [])
  }

  lemma ScalarStep(t: string, stack: seq<Segment>, total: nat)
    requires t != "" && t[0] != '{' && t[0] != '[' && t[0] != '"'
    ensures SeeValue(ParseValue(t, |stack|), stack, total) == SeeScalar(t)
  {
    hide ParseNumber;
  }

  // ---------------------------------------------------------------- items and members

  lemma ItemsStep(s: string, stack: seq<Segment>, index: nat, total: nat)
    ensures SeeItems(s, stack, index, total) ==
            match SeeNode(s, stack + [Index(index)], total)
            case Rejected => Rejected
            case Seen(s1, f) =>
              var n := Span(IsWs, s1);
              if n < |s1| && s1[n] == ',' then After(f, SeeItems(s1[n + 1..], stack, index + 1, total))
              else if n < |s1| && s1[n] == ']' then Seen(s1[n + 1..], f)
              else Rejected
  {
    hide ParseNode, FoundNode, Span, ItemsText;
    var p := ParseNode(s, |stack| + 1);
    if p.Ok? && |stack| <= MAX_DEPTH {
      var n := Span(IsWs, p.rest);
      if n < |p.rest| {
        SplitAround(p.rest, n);
        var q := ParseItems(p.rest[n + 1..], |stack|);
        if p.rest[n] == ',' && q.Ok? {
          ItemsSound(p.rest[n + 1..], |stack|);
        }
      }
    } else if p.Ok? {
      DepthFails(s, |stack|);
    }
  }

  lemma DepthFails(s: string, depth: nat)
    requires depth >= MAX_DEPTH
    ensures ParseNode(s, depth + 1).Fail?
  {
    hide ParseValue;
  }

  lemma ItemsSkip(s: string, stack: seq<Segment>, index: nat, total: nat)
    ensures SeeItems(s[Span(IsWs, s)..], stack, index, total) == SeeItems(s, stack, index, total)
  {
    hide SeeItems, SeeNode, Span;
    ItemsStep(s, stack, index, total);
    ItemsStep(s[Span(IsWs, s)..], stack, index, total);
    NodeSkip(s, stack + [Index(index)], total);
  }

  /** The key of a member, up to and including the colon. */
  function SeeOpening(s: string): Option<(string, string)> {
    match ParseOpening(s)
    case Fail => None
    case Ok(o, rest) => Some((Decode(o.key), rest))
  }

  lemma OpeningStep(s: string)
    ensures SeeOpening(s) ==
            var t := s[Span(IsWs, s)..];
            if t == "" || t[0] != '"' then None else
            match ReadBody(t[1..])
            case None => None
            case Some((key, s1)) =>
              var m := Span(IsWs, s1);
              if m < |s1| && s1[m] == ':' then Some((key, s1[m + 1..])) else None
  {
    hide BodyLen, Decode, Span;
    var n := Span(IsWs, s);
    if n < |s| {
      DropDrop(s, n, n + 1);
    }
  }

  lemma MembersStep(s: string, stack: seq<Segment>, total: nat)
    ensures SeeMembers(s, stack, total) ==
            match SeeOpening(s)
            case None => Rejected
            case Some((key, s0)) =>
              match SeeNode(s0, stack + [Key(key)], total)
              case Rejected => Rejected
              case Seen(s1, f) =>
                var n := Span(IsWs, s1);
                if n < |s1| && s1[n] == ',' then After(f, SeeMembers(s1[n + 1..], stack, total))
                else if n < |s1| && s1[n] == '}' then Seen(s1[n + 1..], f)
                else Rejected
  {
    hide ParseNode, ParseOpening, FoundNode, Span, MembersText, Decode;
    if ParseOpening(s).Ok? {
      var s0 := ParseOpening(s).rest;
      var p := ParseNode(s0, |stack| + 1);
      if p.Ok? && |stack| <= MAX_DEPTH {
        var n := Span(IsWs, p.rest);
        if n < |p.rest| {
          SplitAround(p.rest, n);
          var q := ParseMembers(p.rest[n + 1..], |stack|);
          if p.rest[n] == ',' && q.Ok? {
            MembersSound(p.rest[n + 1..], |stack|);
          }
        }
      } else if p.Ok? {
        DepthFails(s0, |stack|);
      }
    }
  }

  lemma MembersSkip(s: string, stack: seq<Segment>, total: nat)
    ensures SeeMembers(s[Span(IsWs, s)..], stack, total) == SeeMembers(s, stack, total)
  {
    hide SeeMembers, SeeNode, SeeOpening, Span, ReadBody;
    MembersStep(s, stack, total);
    MembersStep(s[Span(IsWs, s)..], stack, total);
    OpeningStep(s);
    OpeningStep(s[Span(IsWs, s)..]);
    SpanTwice(s);
  }
}
