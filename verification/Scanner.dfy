/** The scanner of src/rewrite.rs: one pass over the bytes with a cursor, a stack of segments and
    a growing list of found strings. */
module Scanner {
  import opened Text
  import opened JsonStrings
  import opened Json
  import opened ScanSpec
  import opened ScanSteps
  import opened JsonProofs

  /** `str::is_char_boundary`; slicing a `&str` anywhere else panics. */
  predicate IsCharBoundary(s: string, i: nat) {
    i == |s| || (i < |s| && !IsContinuation(s[i]))
  }

  function AfterSign(s: string): string {
    if s != "" && s[0] == '-' then s[1..] else s
  }

  /** The parts of a number in the order the scanner skips them. */
  lemma NumberParts(s: string)
    ensures var t := AfterSign(s);
            if t == "" || !IsDigit(t[0]) then ParseNumber(s).Fail? else
              var u := t[IntLen(t)..];
              if FracLen(u).None? then ParseNumber(s).Fail? else
                var w := u[FracLen(u).value..];
                if ExpLen(w).None? then ParseNumber(s).Fail?
                else ParseNumber(s).Ok? && ParseNumber(s).rest == w[ExpLen(w).value..]
  {
    hide FracLen, ExpLen, IntLen;
    assert s[0..] == s;
  }

  class Scanner {
    const text: string
    var pos: nat
    var stack: seq<Segment>
    var found: seq<Found>

    ghost predicate Valid()
      reads this
    {
      pos <= |text| && ValidUtf8(text)
    }

    ghost function Rest(): string
      requires Valid()
      reads this
    {
      text[pos..]
    }

    constructor (text: string)
      requires ValidUtf8(text)
      ensures Valid() && this.text == text && pos == 0 && stack == [] && found == []
    {
      this.text := text;
      pos, stack, found := 0, [], [];
    }

    method SkipWs()
      requires Valid()
      modifies this`pos
      ensures Valid() && Rest() == old(Rest())[Span(IsWs, old(Rest()))..]
      ensures pos == old(pos) + Span(IsWs, old(Rest()))
    {
      hide Span;
      ghost var begin := pos;
      while pos < |text| && IsWs(text[pos])
        invariant begin <= pos <= |text|
        invariant Span(IsWs, text[begin..]) == pos - begin + Span(IsWs, text[pos..])
      {
        SpanAt(IsWs, text, pos);
        pos := pos + 1;
      }
      SpanAt(IsWs, text, pos);
      DropDrop(text, begin, pos);
    }

    method Literal(word: string) returns (ok: bool)
      requires Valid() && word != ""
      modifies this`pos
      ensures Valid()
      ensures var r := ParseLiteral(word, old(Rest())); ok == r.Ok? && (ok ==> Rest() == r.rest)
    {
      ok := word <= text[pos..];
      if ok {
        pos := pos + |word|;
      }
    }

    /** Skips digits; reports whether there were any. */
    method Digits() returns (some: bool)
      requires Valid()
      modifies this`pos
      ensures Valid() && some == (Span(IsDigit, old(Rest())) > 0)
      ensures Rest() == old(Rest())[Span(IsDigit, old(Rest()))..]
      ensures pos == old(pos) + Span(IsDigit, old(Rest()))
    {
      hide Span;
      var begin := pos;
      while pos < |text| && IsDigit(text[pos])
        invariant begin <= pos <= |text|
        invariant Span(IsDigit, text[begin..]) == pos - begin + Span(IsDigit, text[pos..])
      {
        SpanAt(IsDigit, text, pos);
        pos := pos + 1;
      }
      SpanAt(IsDigit, text, pos);
      DropDrop(text, begin, pos);
      some := pos > begin;
    }

    method Frac() returns (ok: bool)
      requires Valid()
      modifies this`pos
      ensures Valid()
      ensures var r := FracLen(old(Rest())); ok == r.Some? && (ok ==> Rest() == old(Rest())[r.value..])
    {
      ok := true;
      if pos < |text| && text[pos] == '.' {
        pos := pos + 1;
        assert Rest() == old(Rest())[1..];
        ok := Digits();
      }
    }

    method Exp() returns (ok: bool)
      requires Valid()
      modifies this`pos
      ensures Valid()
      ensures var r := ExpLen(old(Rest())); ok == r.Some? && (ok ==> Rest() == old(Rest())[r.value..])
    {
      ok := true;
      ghost var s := Rest();
      if pos < |text| && (text[pos] == 'e' || text[pos] == 'E') {
        pos := pos + 1;
        if pos < |text| && IsSign(text[pos]) {
          pos := pos + 1;
        }
        assert Rest() == s[if |s| >= 2 && IsSign(s[1]) then 2 else 1..];
        ok := Digits();
      }
    }

    method Number() returns (ok: bool)
      requires Valid()
      modifies this`pos
      ensures Valid()
      ensures var r := ParseNumber(old(Rest())); ok == r.Ok? && (ok ==> Rest() == r.rest)
    {
      hide FracLen, ExpLen, Span, ParseNumber;
      NumberParts(Rest());
      ghost var s := Rest();
      if pos < |text| && text[pos] == '-' {
        pos := pos + 1;
      }
      assert Rest() == AfterSign(s);
      hide AfterSign;
      if pos == |text| || !IsDigit(text[pos]) {
        return false;
      }
      ghost var t := Rest();
      if text[pos] == '0' {
        pos := pos + 1;
      } else {
        var _ := Digits();
      }
      assert Rest() == t[IntLen(t)..];
      hide IntLen;
      ok := Frac();
      if ok {
        ok := Exp();
      }
    }

    /** The value of a `\u` escape, with the cursor on the `u`; it ends on the last digit. */
    method Hex4() returns (r: Option<nat>)
      requires Valid() && pos < |text|
      modifies this`pos
      ensures Valid() && r == HexQuad(text[old(pos) + 1..])
      ensures r.Some? ==> pos == old(pos) + 4 < |text|
    {
      if pos + 5 > |text| {
        return None;
      }
      var digits := text[pos + 1..pos + 5];
      assert forall j :: 0 <= j < 4 ==> digits[j] == text[pos + 1..][j];
      r := HexQuad(digits);
      if r.Some? {
        pos := pos + 4;
      }
    }

    /** One escape, starting at the backslash. */
    method EscapeSequence() returns (r: Option<string>)
      requires Valid() && pos < |text| && text[pos] == '\\'
      modifies this`pos
      ensures Valid()
      ensures var s := old(Rest());
              if r.None? then ReadBody(s).None?
              else TokenLen(s) > 0 && r.value == StepText(s) && Rest() == s[StepLen(s)..]
    {
      hide HexQuad, ReadBody, EncodeUtf8;
      ghost var s, begin := Rest(), pos;
      pos := pos + 1;
      if pos == |text| {
        ReadNothing(s);
        return None;
      }
      var c := text[pos];
      if IsShortEscape(c) {
        r := Some([ShortEscapeValue(c)]);
      } else if c == 'u' {
        assert text[pos + 1..] == s[2..];
        var hi := Hex4();
        if hi.None? {
          ReadNothing(s);
          return None;
        }
        assert text[pos + 1..] == s[6..];
        if IsHighSurrogate(hi.value) && "\\u" <= text[pos + 1..] {
          pos := pos + 2;
          assert text[pos + 1..] == s[8..] == s[6..][2..];
          var lo := Hex4();
          if lo.None? {
            SecondEscapeFails(s);
            return None;
          }
          r := Some(EncodeUtf8(PairChar(hi.value, lo.value)));
        } else {
          r := Some(EncodeUtf8(LoneChar(hi.value)));
        }
      } else {
        ReadNothing(s);
        return None;
      }
      pos := pos + 1;
      DropDrop(text, begin, pos);
    }

    /** A quoted string, with the cursor on its first quote: its text is the decoded body. */
    method String() returns (r: Option<string>)
      requires Valid() && pos < |text| && text[pos] == '"'
      modifies this`pos
      ensures Valid()
      ensures var b := ReadBody(old(Rest())[1..]);
              r.Some? == b.Some? && (r.Some? ==> r.value == b.value.0 && Rest() == b.value.1)
    {
      hide ReadBody, FirstUnit, ValidUtf8;
      ValidSplit(text, pos);
      pos := pos + 1;
      var start := pos;
      DropDrop(text, start - 1, start);
      while pos < |text| && text[pos] != '\\'
        invariant start <= pos <= |text|
        invariant forall i :: start <= i < pos ==> IsPlain(text[i])
      {
        if text[pos] == '"' {
          ValidStart(text[start..]);
          assert IsCharBoundary(text, start) && IsCharBoundary(text, pos);
          PlainThenQuote(text, start, pos);
          r := Some(text[start..pos]);
          pos := pos + 1;
          return;
        }
        if text[pos] as int < 0x20 {
          PlainThenStop(text, start, pos);
          return None;
        }
        pos := pos + 1;
      }
      if pos == |text| {
        PlainThenStop(text, start, pos);
        return None;
      }
      PlainPrefix(text, start, pos);
      ValidSplit(text, pos);
      r := SlowString(start);
    }

    /** A string from its first backslash on; what came before it is plain. */
    method SlowString(start: nat) returns (r: Option<string>)
      requires Valid() && start <= pos && ValidUtf8(text[pos..])
      requires ReadBody(text[start..]) == Prepend(text[start..pos], ReadBody(Rest()))
      modifies this`pos
      ensures Valid()
      ensures var b := ReadBody(text[start..]);
              r.Some? == b.Some? && (r.Some? ==> r.value == b.value.0 && Rest() == b.value.1)
    {
      hide ReadBody, Prepend, TokenLen, StepLen, StepText, FirstUnit, ValidUtf8;
      var out := text[start..pos];
      while pos < |text| && text[pos] != '"'
        invariant pos <= |text| && ValidUtf8(text[pos..]) && ValidUtf8(text)
        invariant ReadBody(text[start..]) == Prepend(out, ReadBody(text[pos..]))
        decreases |text| - pos
      {
        ghost var s := Rest();
        if text[pos] == '\\' {
          var e := EscapeSequence();
          if e.None? {
            PrependToNone(out);
            return None;
          }
          TokenStep(out, s);
          out := out + e.value;
        } else if text[pos] as int < 0x20 {
          NotPlain(s);
          PrependToNone(out);
          return None;
        } else {
          ValidStart(s);
          assert IsCharBoundary(text, pos);
          var n := FirstUnit(text[pos..]).len;
          WholeChar(out, s);
          DropDrop(text, pos, pos + n);
          assert text[pos..pos + n] == s[..n];
          out := out + text[pos..pos + n];
          pos := pos + n;
        }
      }
      if pos == |text| {
        NotPlain(text[pos..]);
        PrependToNone(out);
        return None;
      }
      ReadEnd(out, text, pos);
      pos := pos + 1;
      r := Some(out);
    }

    /** Builds the path text of the current stack. */
    method Path() returns (out: string)
      ensures out == PathText(stack)
    {
      out := "";
      assert stack[..|stack|] == stack;
      for i := 0 to |stack|
        invariant out == PathText(stack[..i])
      {
        assert stack[..i + 1][..i] == stack[..i];
        if out != "" {
          out := out + ".";
        }
        match stack[i]
        case Index(index) => out := out + Decimal(index);
        case Key(key) =>
          ghost var before := out;
          assert key[0..] == key && before + EscapeKey(key) == out + EscapeKey(key);
          for j := 0 to |key|
            invariant before + EscapeKey(key) == out + EscapeKey(key[j..])
          {
            EscapeKeyStep(key, j, out);
            if IsPathSpecial(key[j]) {
              out := out + "\\";
            }
            out := out + [key[j]];
          }
      }
    }

    /** One value after any white space. */
    method Value() returns (ok: bool)
      requires Valid()
      modifies this
      ensures Valid()
      ensures ok == SeeNode(old(Rest()), old(stack), |text|).Seen?
      ensures ok ==> var e := SeeNode(old(Rest()), old(stack), |text|);
                     Rest() == e.rest && stack == old(stack) && found == old(found) + e.found
      decreases |text| - pos, 1
    {
      hide SeeNode, SeeValue, ParseValue, Span, ValidUtf8;
      NodeStep(Rest(), stack, |text|);
      if |stack| > MAX_DEPTH {
        return false;
      }
      SkipWs();
      if pos == |text| {
        EmptyStep(stack, |text|);
        return false;
      }
      var c := text[pos];
      if c == '{' {
        ok := Object();
      } else if c == '[' {
        ok := Array();
      } else if c == '"' {
        ok := StringValue();
      } else {
        ScalarStep(Rest(), stack, |text|);
        if c == 't' {
          ok := Literal("true");
        } else if c == 'f' {
          ok := Literal("false");
        } else if c == 'n' {
          ok := Literal("null");
        } else if c == '-' || IsDigit(c) {
          ok := Number();
        } else {
          ok := false;
        }
        assert found == found + [];
      }
    }

    /** A string value: recorded when it looks like a URL. */
    method StringValue() returns (ok: bool)
      requires Valid() && pos < |text| && text[pos] == '"'
      modifies this`pos, this`found
      ensures Valid()
      ensures var e := SeeValue(ParseValue(old(Rest()), |stack|), stack, |text|);
              ok == e.Seen? && (ok ==> Rest() == e.rest && found == old(found) + e.found)
    {
      hide SeeValue, ParseValue, ReadBody, PathText, ValidUtf8, IsUrl;
      StringStep(Rest(), stack, |text|);
      var start := pos;
      var value := String();
      if value.None? {
        return false;
      }
      if IsUrl(value.value) {
        var path := Path();
        found := found + [Found(start, pos, path, value.value)];
      } else {
        assert found == found + [];
      }
      ok := true;
    }

    /** Skips white space and `close` when it comes next. */
    method Closes(close: char) returns (yes: bool)
      requires Valid()
      modifies this`pos
      ensures Valid()
      ensures var s := old(Rest());
              var n := Span(IsWs, s);
              && yes == (n < |s| && s[n] == close)
              && Rest() == (if yes then s[n + 1..] else s[n..])
    {
      hide Span, ValidUtf8;
      ghost var s := Rest();
      SkipWs();
      yes := pos < |text| && text[pos] == close;
      if yes {
        DropDrop(text, pos, pos + 1);
        DropDrop(s, Span(IsWs, s), Span(IsWs, s) + 1);
        pos := pos + 1;
      }
    }

    method Array() returns (ok: bool)
      requires Valid() && pos < |text| && text[pos] == '['
      modifies this
      ensures Valid()
      ensures ok == SeeValue(ParseValue(old(Rest()), |old(stack)|), old(stack), |text|).Seen?
      ensures ok ==> var e := SeeValue(ParseValue(old(Rest()), |old(stack)|), old(stack), |text|);
                     Rest() == e.rest && stack == old(stack) && found == old(found) + e.found
      decreases |text| - pos, 0
    {
      hide SeeValue, SeeItems, SeeNode, ParseValue, Span, ValidUtf8;
      ArrayStep(Rest(), stack, |text|);
      pos := pos + 1;
      DropDrop(text, pos - 1, pos);
      ghost var s := Rest();
      ok := Closes(']');
      if ok {
        assert found == found + [];
        return;
      }
      ItemsSkip(s, stack, 0, |text|);
      ok := Items();
    }

    /** A value one level down, and the white space after it. */
    method Child(seg: Segment) returns (ok: bool)
      requires Valid()
      modifies this
      ensures Valid()
      ensures ok == SeeNode(old(Rest()), old(stack) + [seg], |text|).Seen?
      ensures ok ==> var e := SeeNode(old(Rest()), old(stack) + [seg], |text|);
                     && Rest() == e.rest[Span(IsWs, e.rest)..]
                     && stack == old(stack) && found == old(found) + e.found && pos > old(pos)
      decreases |text| - pos, 2
    {
      hide SeeNode, Span, ValidUtf8;
      ghost var outer, rest := stack, Rest();
      stack := stack + [seg];
      ok := Value();
      if ok {
        NodeShrinks(rest, outer + [seg], |text|);
        stack := stack[..|stack| - 1];
        SkipWs();
      }
    }

    /** The items of an array, up to and including the closing bracket. */
    method Items() returns (ok: bool)
      requires Valid()
      modifies this
      ensures Valid()
      ensures ok == SeeItems(old(Rest()), old(stack), 0, |text|).Seen?
      ensures ok ==> var e := SeeItems(old(Rest()), old(stack), 0, |text|);
                     Rest() == e.rest && stack == old(stack) && found == old(found) + e.found
      decreases |text| - pos, 3
    {
      hide SeeItems, SeeNode, Span, ValidUtf8;
      ghost var s := Rest();
      ghost var outer, before, acc := stack, found, [];
      AfterNothing(SeeItems(Rest(), outer, 0, |text|));
      var index := 0;
      while true
        invariant old(pos) <= pos <= |text| && ValidUtf8(text)
        invariant stack == outer && found == before + acc
        invariant SeeItems(s, outer, 0, |text|) == After(acc, SeeItems(Rest(), outer, index, |text|))
        decreases |text| - pos
      {
        ItemsStep(Rest(), outer, index, |text|);
        ghost var e := SeeNode(Rest(), outer + [Index(index)], |text|);
        ok := Child(Index(index));
        if !ok {
          return;
        }
        index := index + 1;
        if pos == |text| {
          return false;
        }
        DropDrop(e.rest, Span(IsWs, e.rest), Span(IsWs, e.rest) + 1);
        DropDrop(text, pos, pos + 1);
        Assoc(before, acc, e.found);
        if text[pos] == ',' {
          pos := pos + 1;
          AfterTwice(acc, e.found, SeeItems(Rest(), outer, index, |text|));
          acc := acc + e.found;
        } else if text[pos] == ']' {
          pos := pos + 1;
          return true;
        } else {
          return false;
        }
      }
    }

    method Object() returns (ok: bool)
      requires Valid() && pos < |text| && text[pos] == '{'
      modifies this
      ensures Valid()
      ensures ok == SeeValue(ParseValue(old(Rest()), |old(stack)|), old(stack), |text|).Seen?
      ensures ok ==> var e := SeeValue(ParseValue(old(Rest()), |old(stack)|), old(stack), |text|);
                     Rest() == e.rest && stack == old(stack) && found == old(found) + e.found
      decreases |text| - pos, 0
    {
      hide SeeValue, SeeMembers, SeeNode, SeeOpening, ParseValue, Span, ValidUtf8;
      ObjectStep(Rest(), stack, |text|);
      pos := pos + 1;
      DropDrop(text, pos - 1, pos);
      ghost var s := Rest();
      ok := Closes('}');
      if ok {
        assert found == found + [];
        return;
      }
      MembersSkip(s, stack, |text|);
      ok := Members();
    }

    /** The members of an object, up to and including the closing brace. */
    method Members() returns (ok: bool)
      requires Valid()
      modifies this
      ensures Valid()
      ensures ok == SeeMembers(old(Rest()), old(stack), |text|).Seen?
      ensures ok ==> var e := SeeMembers(old(Rest()), old(stack), |text|);
                     Rest() == e.rest && stack == old(stack) && found == old(found) + e.found
      decreases |text| - pos, 3
    {
      hide SeeMembers, SeeNode, SeeOpening, Span, ValidUtf8;
      ghost var s := Rest();
      ghost var outer, before, acc := stack, found, [];
      AfterNothing(SeeMembers(Rest(), outer, |text|));
      while true
        invariant old(pos) <= pos <= |text| && ValidUtf8(text)
        invariant stack == outer && found == before + acc
        invariant SeeMembers(s, outer, |text|) == After(acc, SeeMembers(Rest(), outer, |text|))
        decreases |text| - pos
      {
        MembersStep(Rest(), outer, |text|);
        var key := Key();
        if key.None? {
          return false;
        }
        ghost var e := SeeNode(Rest(), outer + [Segment.Key(key.value)], |text|);
        ok := Child(Segment.Key(key.value));
        if !ok {
          return;
        }
        if pos == |text| {
          return false;
        }
        DropDrop(e.rest, Span(IsWs, e.rest), Span(IsWs, e.rest) + 1);
        DropDrop(text, pos, pos + 1);
        Assoc(before, acc, e.found);
        if text[pos] == ',' {
          pos := pos + 1;
          AfterTwice(acc, e.found, SeeMembers(Rest(), outer, |text|));
          acc := acc + e.found;
        } else if text[pos] == '}' {
          pos := pos + 1;
          return true;
        } else {
          return false;
        }
      }
    }

    /** The key of a member and its colon. */
    method Key() returns (key: Option<string>)
      requires Valid()
      modifies this`pos
      ensures Valid()
      ensures var o := SeeOpening(old(Rest()));
              key.Some? == o.Some? && (key.Some? ==> key.value == o.value.0 && Rest() == o.value.1)
      ensures key.Some? ==> pos > old(pos)
    {
      hide SeeOpening, ReadBody, Span, ValidUtf8;
      OpeningStep(Rest());
      SkipWs();
      if pos == |text| || text[pos] != '"' {
        return None;
      }
      ghost var t := Rest();
      key := String();
      if key.None? {
        return;
      }
      ReadShrinks(t[1..]);
      SkipWs();
      if pos == |text| || text[pos] != ':' {
        return None;
      }
      pos := pos + 1;
    }
  }

  /** A scan of a whole text. */
  method ScanText(text: string) returns (r: Option<seq<Found>>)
    requires ValidUtf8(text)
    ensures r == Scan(text)
  {
    hide Scan, SeeNode, Span, ValidUtf8;
    var scanner := new Scanner(text);
    assert scanner.Rest() == text;
    DocStep(text);
    var ok := scanner.Value();
    if !ok {
      return None;
    }
    scanner.SkipWs();
    if scanner.pos != |text| {
      return None;
    }
    AfterNothing(SeeNode(text, [], |text|));
    r := Some(scanner.found);
  }

  lemma DocStep(text: string)
    ensures Scan(text) ==
            match SeeNode(text, [], |text|)
            case Rejected => None
            case Seen(rest, found) => if Span(IsWs, rest) == |rest| then Some(found) else None
  {
    hide ParseNode, NodeText, FoundNode, Span;
    if ParseNode(text, 0).Ok? {
      NodeSound(text, 0);
    }
  }

  lemma EscapeKeyStep(key: string, j: nat, out: string)
    requires j < |key|
    ensures var c := if IsPathSpecial(key[j]) then ['\\', key[j]] else [key[j]];
            out + EscapeKey(key[j..]) == out + c + EscapeKey(key[j + 1..])
            && (IsPathSpecial(key[j]) ==> out + "\\" + [key[j]] == out + c)
  {
    assert key[j..][1..] == key[j + 1..];
  }

  lemma PlainPrefix(s: string, start: nat, pos: nat)
    requires start <= pos <= |s| && forall i :: start <= i < pos ==> IsPlain(s[i])
    ensures ReadBody(s[start..]) == Prepend(s[start..pos], ReadBody(s[pos..]))
  {
    hide ReadBody;
    ReadPlainRun(s[start..], pos - start);
    assert s[start..][..pos - start] == s[start..pos];
    DropDrop(s, start, pos);
  }

  lemma ValidStart(s: string)
    requires ValidUtf8(s) && s != ""
    ensures !IsContinuation(s[0])
  {
  }

  lemma NotPlain(s: string)
    requires s == "" || s[0] as int < 0x20
    ensures ReadBody(s) == None
  {
    ReadNothing(s);
  }

  lemma PlainThenQuote(s: string, start: nat, pos: nat)
    requires start <= pos < |s| && s[pos] == '"' && forall i :: start <= i < pos ==> IsPlain(s[i])
    ensures ReadBody(s[start..]) == Some((s[start..pos], s[pos + 1..]))
  {
    hide ReadBody;
    PlainPrefix(s, start, pos);
    ReadQuote(s[pos..]);
    DropDrop(s, pos, pos + 1);
    assert s[start..pos] + "" == s[start..pos];
  }

  lemma PlainThenStop(s: string, start: nat, pos: nat)
    requires start <= pos <= |s| && (pos < |s| ==> s[pos] as int < 0x20)
    requires forall i :: start <= i < pos ==> IsPlain(s[i])
    ensures ReadBody(s[start..]) == None
  {
    hide ReadBody;
    PlainPrefix(s, start, pos);
    NotPlain(s[pos..]);
  }

  lemma SecondEscapeFails(s: string)
    requires TokenLen(s) == 6 && !StartsPair(s)
    requires IsHighSurrogate(HexQuad(s[2..]).value) && StartsUnicode(s[6..])
    ensures ReadBody(s) == None
  {
    hide HexQuad, IsHighSurrogate;
    assert s[6..][2..] == s[8..];
    ReadNothing(s[6..]);
    ReadStep(s);
  }

  lemma TokenStep(out: string, s: string)
    requires ValidUtf8(s) && TokenLen(s) > 0 && s[0] == '\\'
    ensures var n := StepLen(s);
            ValidUtf8(s[n..]) && Prepend(out, ReadBody(s)) == Prepend(out + StepText(s), ReadBody(s[n..]))
  {
    hide TokenLen, StepLen, StepText, ReadBody, Prepend, FirstUnit, ValidUtf8;
    StepEndsAscii(s);
    ValidSplit(s, StepLen(s) - 1);
    ReadStep(s);
    PrependTwice(out, StepText(s), ReadBody(s[StepLen(s)..]));
  }

  /** A whole character that is not a quote, a backslash or a control is read as itself. */
  lemma WholeChar(out: string, s: string)
    requires ValidUtf8(s) && s != "" && IsPlain(s[0])
    ensures var n := FirstUnit(s).len;
            ValidUtf8(s[n..]) && Prepend(out, ReadBody(s)) == Prepend(out + s[..n], ReadBody(s[n..]))
  {
    hide ReadBody, FirstUnit, Prepend;
    var n := FirstUnit(s).len;
    if s[0] as int >= 0x80 {
      FirstUnitBytes(s);
    }
    ReadPlainRun(s, n);
    PrependTwice(out, s[..n], ReadBody(s[n..]));
  }

  lemma PrependToNone(out: string)
    ensures Prepend(out, None) == None
  {
  }

  lemma ReadEnd(out: string, s: string, pos: nat)
    requires pos < |s| && s[pos] == '"'
    ensures Prepend(out, ReadBody(s[pos..])) == Some((out, s[pos + 1..]))
  {
    hide ReadBody;
    ReadQuote(s[pos..]);
    DropDrop(s, pos, pos + 1);
    assert out + "" == out;
  }

  lemma EmptyStep(stack: seq<Segment>, total: nat)
    ensures SeeValue(ParseValue("", |stack|), stack, total) == Rejected
  {
  }

  lemma NodeShrinks(s: string, stack: seq<Segment>, total: nat)
    requires SeeNode(s, stack, total).Seen?
    ensures |SeeNode(s, stack, total).rest| < |s|
  {
  }

  lemma Assoc(a: seq<Found>, b: seq<Found>, c: seq<Found>)
    ensures a + b + c == a + (b + c)
  {
  }

  lemma AfterNothing(e: Seen)
    ensures After([], e) == e
  {
    if e.Seen? {
      assert [] + e.found == e.found;
    }
  }

  lemma AfterTwice(a: seq<Found>, b: seq<Found>, e: Seen)
    ensures After(a, After(b, e)) == After(a + b, e)
  {
    if e.Seen? {
      assert a + (b + e.found) == a + b + e.found;
    }
  }
}
