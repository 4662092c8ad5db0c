/** The recogniser of `Json` accepts exactly the JSON texts within the depth limit. */
module JsonProofs {
  import opened Text
  import opened JsonStrings
  import opened Json

  // ---------------------------------------------------------------- numbers

  lemma FracSound(s: string)
    requires FracLen(s).Some?
    ensures IsFrac(s[..FracLen(s).value])
  {
    var f := FracLen(s).value;
    if f > 0 {
      SpanIsRun(IsDigit, s[1..]);
      assert s[..f][1..] == s[1..][..f - 1];
    }
  }

  lemma ExpSound(s: string)
    requires ExpLen(s).Some?
    ensures IsExp(s[..ExpLen(s).value])
  {
    var e := ExpLen(s).value;
    if e > 0 {
      var sign := if |s| >= 2 && IsSign(s[1]) then 1 else 0;
      SpanIsRun(IsDigit, s[1 + sign..]);
      assert s[..e][1 + sign..] == s[1 + sign..][..e - 1 - sign];
    }
  }

  lemma IntSound(s: string)
    requires s != "" && IsDigit(s[0])
    ensures IsInt(s[..IntLen(s)])
  {
    SpanIsRun(IsDigit, s);
  }

  function SignLen(s: string): (n: nat)
    ensures n <= |s| && (n == 0 || (n == 1 && s[0] == '-'))
  {
    if s != "" && s[0] == '-' then 1 else 0
  }

  /** The parts of a number, by their lengths. */
  lemma NumberShape(s: string)
    requires ParseNumber(s).Ok?
    ensures var t := s[SignLen(s)..];
            && t != "" && IsDigit(t[0])
            && var u := t[IntLen(t)..];
            && FracLen(u).Some?
            && var w := u[FracLen(u).value..];
            && ExpLen(w).Some?
            && var e := ExpLen(w).value;
            ParseNumber(s) == Ok(Num(s[..SignLen(s)], t[..IntLen(t)], u[..FracLen(u).value], w[..e]), w[e..])
  {
    hide FracLen, ExpLen, IntLen, IsDigit;
    assert s[..0] == "";
  }

  lemma NumberSound(s: string)
    requires ParseNumber(s).Ok?
    ensures var r := ParseNumber(s); WfNum(r.value) && s == NumText(r.value, r.rest)
  {
    hide FracLen, ExpLen, IntLen, IsFrac, IsExp, IsInt, ParseNumber, IsDigit;
    NumberShape(s);
    var t := s[SignLen(s)..];
    IntSound(t);
    var u := t[IntLen(t)..];
    FracSound(u);
    var w := u[FracLen(u).value..];
    ExpSound(w);
    assert SignLen(s) == 1 ==> s[..1] == "-";
    SplitFour(s, SignLen(s), IntLen(t), FracLen(u).value, ExpLen(w).value);
  }

  lemma FracComplete(f: string, k: string)
    requires IsFrac(f) && (k == "" || (!IsDigit(k[0]) && k[0] != '.'))
    ensures FracLen(f + k) == Some(|f|)
  {
    if f == "" {
      assert f + k == k;
    } else {
      assert (f + k)[1..] == f[1..] + k;
      SpanOfPrefix(IsDigit, f[1..], k);
    }
  }

  lemma ExpComplete(e: string, k: string)
    requires IsExp(e) && (k == "" || (!IsDigit(k[0]) && k[0] != 'e' && k[0] != 'E'))
    ensures ExpLen(e + k) == Some(|e|)
  {
    if e == "" {
      assert e + k == k;
    } else {
      var sign := if |e| >= 2 && IsSign(e[1]) then 1 else 0;
      assert IsDigits(e[1 + sign..]) by {
        if sign == 1 {
          assert e[1..][0] == e[1];
        }
      }
      assert (e + k)[1 + sign..] == e[1 + sign..] + k;
      SpanOfPrefix(IsDigit, e[1 + sign..], k);
    }
  }

  /** Text that may follow a value: nothing, white space, a comma or a closing bracket. */
  predicate Delimits(k: string) {
    k == "" || IsWs(k[0]) || k[0] == ',' || k[0] == ']' || k[0] == '}'
  }

  lemma IntComplete(i: string, k: string)
    requires IsInt(i) && (k == "" || !IsDigit(k[0]))
    ensures i + k != "" && IsDigit((i + k)[0]) && IntLen(i + k) == |i|
  {
    if i != "0" {
      SpanOfPrefix(IsDigit, i, k);
    }
  }

  lemma ExpStart(e: string, k: string)
    requires IsExp(e) && Delimits(k)
    ensures e + k == "" || (!IsDigit((e + k)[0]) && (e + k)[0] != '.')
    ensures k == "" || (!IsDigit(k[0]) && k[0] != 'e' && k[0] != 'E')
  {
  }

  lemma FracStart(f: string, k: string)
    requires IsFrac(f) && (k == "" || !IsDigit(k[0]))
    ensures f + k == "" || !IsDigit((f + k)[0])
  {
  }

  lemma NumberComplete(n: Num, k: string)
    requires WfNum(n) && Delimits(k)
    ensures ParseNumber(NumText(n, k)) == Ok(n, k)
  {
    hide FracLen, ExpLen, IntLen, IsFrac, IsExp, IsInt, Delimits;
    var w := n.exp + k;
    var u := n.frac + w;
    var t := n.whole + u;
    ExpStart(n.exp, k);
    FracStart(n.frac, w);
    IntComplete(n.whole, u);
    FracComplete(n.frac, w);
    ExpComplete(n.exp, k);
    Cut(n.sign, t);
    assert n.sign == "" ==> n.sign + t == t;
    assert (n.sign + t)[0] == '-' <==> n.sign == "-";
    Cut(n.whole, u);
    Cut(n.frac, w);
    Cut(n.exp, k);
  }

  // ---------------------------------------------------------------- soundness

  lemma {:induction false} NodeSound(s: string, depth: nat)
    requires ParseNode(s, depth).Ok?
    ensures var r := ParseNode(s, depth);
            WfNode(r.value) && s == NodeText(r.value, r.rest) && depth + Nesting(r.value.v) <= MAX_DEPTH
    decreases |s|, 2
  {
    SpanIsRun(IsWs, s);
    ValueSound(s[Span(IsWs, s)..], depth);
    SplitAt(s, Span(IsWs, s));
  }

  lemma {:induction false} ValueSound(s: string, depth: nat)
    requires depth <= MAX_DEPTH && ParseValue(s, depth).Ok?
    ensures var r := ParseValue(s, depth);
            WfValue(r.value) && s == ValueText(r.value, r.rest) && depth + Nesting(r.value) <= MAX_DEPTH
    decreases |s|, 1
  {
    hide ParseArray, ParseObject, ParseNumber, NumText, ItemsText, MembersText, BodyLen, IsBody,
         WfItems, WfMembers, WfNum, NestingItems, NestingMembers;
    if s[0] == '{' {
      ObjectSound(s[1..], depth);
    } else if s[0] == '[' {
      ArraySound(s[1..], depth);
    } else if s[0] == '"' {
      BodyLenSound(s[1..]);
    } else if s[0] == '-' || IsDigit(s[0]) {
      NumberSound(s);
    }
  }

  lemma {:induction false} ArraySound(s: string, depth: nat)
    requires depth <= MAX_DEPTH && ParseArray(s, depth).Ok?
    ensures var r := ParseArray(s, depth);
            WfValue(r.value) && "[" + s == ValueText(r.value, r.rest) && depth + Nesting(r.value) <= MAX_DEPTH
    decreases |s|, 4
  {
    hide ParseItems, ItemsText, WfItems, NestingItems, Span;
    var n := Span(IsWs, s);
    SpanIsRun(IsWs, s);
    if n < |s| && s[n] == ']' {
      SplitAround(s, n);
    } else {
      ItemsSound(s, depth);
    }
  }

  lemma {:induction false} ItemsSound(s: string, depth: nat)
    requires depth <= MAX_DEPTH && ParseItems(s, depth).Ok?
    ensures var r := ParseItems(s, depth);
            WfItems(r.value) && s == ItemsText(r.value, r.rest) && depth + 1 + NestingItems(r.value) <= MAX_DEPTH
    decreases |s|, 3
  {
    hide ParseNode, WfNode, NodeText, Nesting, Span;
    NodeSound(s, depth + 1);
    var s1 := ParseNode(s, depth + 1).rest;
    var n := Span(IsWs, s1);
    SpanIsRun(IsWs, s1);
    SplitAround(s1, n);
    if s1[n] == ',' {
      ItemsSound(s1[n + 1..], depth);
    }
  }

  lemma {:induction false} ObjectSound(s: string, depth: nat)
    requires depth <= MAX_DEPTH && ParseObject(s, depth).Ok?
    ensures var r := ParseObject(s, depth);
            WfValue(r.value) && "{" + s == ValueText(r.value, r.rest) && depth + Nesting(r.value) <= MAX_DEPTH
    decreases |s|, 4
  {
    hide ParseMembers, MembersText, WfMembers, NestingMembers, Span;
    var n := Span(IsWs, s);
    SpanIsRun(IsWs, s);
    if n < |s| && s[n] == '}' {
      SplitAround(s, n);
    } else {
      MembersSound(s, depth);
    }
  }

  /** The opening of a member followed by `k`. */
  function OpeningText(o: Opening, k: string): string {
    o.before + ("\"" + (o.key + ("\"" + (o.mid + (":" + k)))))
  }

  predicate WfOpening(o: Opening) {
    All(IsWs, o.before) && IsBody(o.key) && All(IsWs, o.mid)
  }

  lemma OpeningSound(s: string)
    requires ParseOpening(s).Ok?
    ensures var r := ParseOpening(s); WfOpening(r.value) && s == OpeningText(r.value, r.rest)
  {
    hide BodyLen, IsBody, Span, All;
    var n := Span(IsWs, s);
    var t := s[n + 1..];
    BodyLenSound(t);
    var k := BodyLen(t).value;
    var s1 := t[k + 1..];
    var m := Span(IsWs, s1);
    SpanIsRun(IsWs, s);
    SpanIsRun(IsWs, s1);
    SplitAroundThree(s, n, k, m);
  }

  lemma {:induction false} MembersSound(s: string, depth: nat)
    requires depth <= MAX_DEPTH && ParseMembers(s, depth).Ok?
    ensures var r := ParseMembers(s, depth);
            WfMembers(r.value) && s == MembersText(r.value, r.rest)
            && depth + 1 + NestingMembers(r.value) <= MAX_DEPTH
    decreases |s|, 3
  {
    hide ParseNode, ParseOpening, WfNode, NodeText, Nesting, Span, BodyLen, IsBody;
    OpeningSound(s);
    var s0 := ParseOpening(s).rest;
    NodeSound(s0, depth + 1);
    var s1 := ParseNode(s0, depth + 1).rest;
    var n := Span(IsWs, s1);
    SpanIsRun(IsWs, s1);
    SplitAround(s1, n);
    if s1[n] == ',' {
      MembersSound(s1[n + 1..], depth);
    }
  }

  // ---------------------------------------------------------------- completeness

  /** The end of an item: white space, then a comma or the closing bracket. */
  lemma AfterSplits(after: string, c: char, k: string)
    requires All(IsWs, after) && !IsWs(c)
    ensures var s := after + ([c] + k);
            var n := Span(IsWs, s);
            n == |after| && n < |s| && s[..n] == after && s[n] == c && s[n + 1..] == k
  {
    SpanOfPrefix(IsWs, after, [c] + k);
  }

  lemma EmptyArrayComplete(p: string, k: string, depth: nat)
    requires All(IsWs, p)
    ensures ParseArray(p + ("]" + k), depth) == Ok(EmptyArray(p), k)
  {
    hide ParseItems;
    AfterSplits(p, ']', k);
  }

  lemma EmptyObjectComplete(p: string, k: string, depth: nat)
    requires All(IsWs, p)
    ensures ParseObject(p + ("}" + k), depth) == Ok(EmptyObject(p), k)
  {
    hide ParseMembers;
    AfterSplits(p, '}', k);
  }

  lemma {:induction false} NodeComplete(x: Node, k: string, depth: nat)
    requires WfNode(x) && Delimits(k) && depth + Nesting(x.v) <= MAX_DEPTH
    ensures var s := NodeText(x, k);
            var n := Span(IsWs, s);
            n < |s| && s[n] != ']' && s[n] != '}' && ParseNode(s, depth) == Ok(x, k)
    decreases x, 1
  {
    hide ParseValue, ValueText, WfValue, Nesting;
    ValueComplete(x.v, k, depth);
    SpanOfPrefix(IsWs, x.before, ValueText(x.v, k));
  }

  lemma LiteralComplete(w: string, k: string, depth: nat)
    requires IsLiteral(w)
    ensures ParseValue(w + k, depth) == Ok(Literal(w), k)
  {
    assert (w + k)[|w|..] == k;
  }

  lemma TextComplete(b: string, k: string)
    requires IsBody(b)
    ensures ParseText("\"" + (b + ("\"" + k))) == Ok(Text(b), k)
  {
    hide BodyLen, IsBody;
    var s := "\"" + (b + ("\"" + k));
    assert s[1..] == b + ("\"" + k);
    BodyLenComplete(b, "\"" + k);
    assert (b + ("\"" + k))[|b| + 1..] == k;
  }

  lemma {:induction false} ValueComplete(v: Value, k: string, depth: nat)
    requires WfValue(v) && Delimits(k) && depth + Nesting(v) <= MAX_DEPTH
    ensures var s := ValueText(v, k);
            s != "" && !IsWs(s[0]) && s[0] != ']' && s[0] != '}' && ParseValue(s, depth) == Ok(v, k)
    decreases v, 0
  {
    hide ParseArray, ParseObject, ParseNumber, ParseText, ItemsText, MembersText, IsBody,
         WfItems, WfMembers, NestingItems, NestingMembers;
    var s := ValueText(v, k);
    match v
    case Literal(w) =>
      LiteralComplete(w, k, depth);
    case Number(n) =>
      NumberComplete(n, k);
    case Text(b) =>
      TextComplete(b, k);
    case EmptyArray(p) =>
      assert s[1..] == p + ("]" + k);
      EmptyArrayComplete(p, k, depth);
    case Array(items) =>
      assert s[1..] == ItemsText(items, k);
      ItemsComplete(items, k, depth);
    case EmptyObject(p) =>
      assert s[1..] == p + ("}" + k);
      EmptyObjectComplete(p, k, depth);
    case Object(members) =>
      assert s[1..] == MembersText(members, k);
      MembersComplete(members, k, depth);
  }

  lemma {:induction false} ItemsComplete(i: Items, k: string, depth: nat)
    requires WfItems(i) && depth + 1 + NestingItems(i) <= MAX_DEPTH
    ensures var s := ItemsText(i, k);
            ParseItems(s, depth) == Ok(i, k) && ParseArray(s, depth) == Ok(Array(i), k)
    decreases i, 2
  {
    hide ParseNode, NodeText, WfNode, Nesting, Span;
    var k1 := if i.tail.Some? then "," + ItemsText(i.tail.value, k) else "]" + k;
    if i.tail.Some? {
      ItemsComplete(i.tail.value, k, depth);
      AfterSplits(i.after, ',', ItemsText(i.tail.value, k));
    } else {
      AfterSplits(i.after, ']', k);
    }
    NodeComplete(i.x, i.after + k1, depth + 1);
  }

  lemma OpeningOf(s: string, n: nat, len: nat, m: nat)
    requires n == Span(IsWs, s) < |s| && s[n] == '"' && BodyLen(s[n + 1..]) == Some(len) && len < |s[n + 1..]|
    requires var s1 := s[n + 1..][len + 1..]; m == Span(IsWs, s1) < |s1| && s1[m] == ':'
    ensures var s1 := s[n + 1..][len + 1..];
            ParseOpening(s) == Ok(Opening(s[..n], s[n + 1..][..len], s1[..m]), s1[m + 1..])
  {
    hide BodyLen, Span;
  }

  lemma OpeningComplete(o: Opening, k: string)
    requires WfOpening(o)
    ensures ParseOpening(OpeningText(o, k)) == Ok(o, k)
    ensures var s := OpeningText(o, k); var n := Span(IsWs, s); n < |s| && s[n] == '"'
  {
    hide BodyLen, IsBody, Span, ParseOpening, All;
    var s1 := o.mid + ([':'] + k);
    var s2 := o.key + (['"'] + s1);
    var s := o.before + (['"'] + s2);
    assert OpeningText(o, k) == s;
    AfterSplits(o.before, '"', s2);
    BodyLenComplete(o.key, ['"'] + s1);
    Cut(o.key, ['"'] + s1);
    assert s2[|o.key| + 1..] == s1;
    AfterSplits(o.mid, ':', k);
    OpeningOf(s, |o.before|, |o.key|, |o.mid|);
  }

  lemma {:induction false} MembersComplete(m: Members, k: string, depth: nat)
    requires WfMembers(m) && depth + 1 + NestingMembers(m) <= MAX_DEPTH
    ensures var s := MembersText(m, k);
            ParseMembers(s, depth) == Ok(m, k) && ParseObject(s, depth) == Ok(Object(m), k)
    decreases m, 2
  {
    hide ParseNode, ParseOpening, NodeText, WfNode, Nesting, Span, IsBody;
    var k1 := if m.tail.Some? then "," + MembersText(m.tail.value, k) else "}" + k;
    if m.tail.Some? {
      MembersComplete(m.tail.value, k, depth);
      AfterSplits(m.after, ',', MembersText(m.tail.value, k));
    } else {
      AfterSplits(m.after, '}', k);
    }
    NodeComplete(m.x, m.after + k1, depth + 1);
    OpeningComplete(Opening(m.before, m.key, m.mid), NodeText(m.x, m.after + k1));
  }

  // ---------------------------------------------------------------- whole texts

  /** `s` is a JSON text whose values sit in at most 512 containers, and `d` is its tree. */
  ghost predicate Denotes(s: string, d: Doc) {
    WfDoc(d) && Nesting(d.x.v) <= 512 && DocText(d) == s
  }

  /** The recogniser finds a tree exactly when there is one, and there is at most one. */
  lemma ParseExact(s: string, d: Doc)
    ensures ParseDoc(s) == Some(d) <==> Denotes(s, d)
  {
    if ParseDoc(s) == Some(d) {
      NodeSound(s, 0);
      SpanIsRun(IsWs, d.after);
      assert d.after[..|d.after|] == d.after;
    }
    if Denotes(s, d) {
      NodeComplete(d.x, d.after, 0);
      SpanOfPrefix(IsWs, d.after, "");
      assert d.after + "" == d.after;
    }
  }

  // ---------------------------------------------------------------- the terminals of the grammar

  /** Section 2 of RFC 8259: white space is space, tab, line feed and carriage return. */
  lemma WhiteSpaceExact(c: char)
    ensures IsWs(c) <==> c as int == 0x20 || c as int == 0x09 || c as int == 0x0A || c as int == 0x0D
  {
  }

  predicate DigitRun(s: string) {
    s != "" && forall i :: 0 <= i < |s| ==> s[i] in "0123456789"
  }

  lemma DigitsExact(s: string)
    ensures IsDigits(s) <==> DigitRun(s)
  {
    forall i | 0 <= i < |s|
      ensures IsDigit(s[i]) <==> s[i] in "0123456789"
    {
    }
  }

  /** Section 6 of RFC 8259: an optional minus sign, an integer without leading zeros, an optional
      fraction and an optional exponent with an optional sign. */
  lemma NumberExact(n: Num)
    ensures WfNum(n) <==>
            && (n.sign == "" || n.sign == "-")
            && (n.whole == "0" || (DigitRun(n.whole) && n.whole[0] != '0'))
            && (n.frac == "" || (n.frac[0] == '.' && DigitRun(n.frac[1..])))
            && (n.exp == "" || ((n.exp[0] == 'e' || n.exp[0] == 'E')
                                && (DigitRun(n.exp[1..])
                                    || (|n.exp| >= 2 && (n.exp[1] == '+' || n.exp[1] == '-') && DigitRun(n.exp[2..])))))
  {
    DigitsExact(n.whole);
    if n.frac != "" {
      DigitsExact(n.frac[1..]);
    }
    if n.exp != "" {
      DigitsExact(n.exp[1..]);
    }
    if |n.exp| >= 2 {
      DigitsExact(n.exp[2..]);
    }
    hide IsDigits, DigitRun;
  }
}
