/** A spliced text is valid UTF-8 again, so it can be scanned again. */
module SpliceUtf8 {
  import opened Text
  import opened JsonStrings
  import opened Json
  import opened JsonProofs
  import opened ScanSpec
  import opened Splice

  ghost predicate KeepsUtf8(f: Rewrite) {
    forall s :: ValidUtf8(s) && f(s).Some? ==> ValidUtf8(f(s).value)
  }

  /** The span of `g` is a quoted string that decodes to its value. */
  predicate QuotedAt(text: string, g: Found) {
    && 0 <= g.start && g.start + 2 <= g.end <= |text|
    && text[g.start] == '"' && text[g.end - 1] == '"'
    && IsBody(text[g.start + 1..g.end - 1]) && g.value == Decode(text[g.start + 1..g.end - 1])
  }

  ghost predicate AllQuoted(text: string, fs: seq<Found>) {
    forall i :: 0 <= i < |fs| ==> QuotedAt(text, fs[i])
  }

  lemma AllQuotedConcat(text: string, a: seq<Found>, b: seq<Found>)
    requires AllQuoted(text, a) && AllQuoted(text, b)
    ensures AllQuoted(text, a + b)
  {
  }

  lemma TextIsQuoted(text: string, b: string, k: string, stack: seq<Segment>)
    requires EndsWith(text, ValueText(Text(b), k)) && IsBody(b)
    ensures AllQuoted(text, FoundValue(Text(b), k, stack, |text|))
  {
    hide Decode, PathText, IsUrl, IsBody;
    var s := ValueText(Text(b), k);
    TextAppend(b, k);
    var p := |text| - |s|;
    var q := |text| - |k|;
    assert text[p..] == s;
    assert text[p] == s[0] && text[q - 1] == s[|b| + 1];
    assert text[p + 1..q - 1] == s[1..|b| + 1] == b;
  }

  lemma {:induction false} FoundQuoted(text: string, v: Value, k: string, stack: seq<Segment>)
    requires EndsWith(text, ValueText(v, k)) && WfValue(v)
    ensures AllQuoted(text, FoundValue(v, k, stack, |text|))
    decreases v, 0
  {
    hide EndsWith, QuotedAt, FoundItems, FoundMembers, ItemsText, MembersText, IsBody;
    match v
    case Text(b) => TextIsQuoted(text, b, k, stack);
    case Array(i) =>
      EndsTail(text, "[", ItemsText(i, k));
      ItemsQuoted(text, i, k, stack, 0);
    case Object(m) =>
      EndsTail(text, "{", MembersText(m, k));
      MembersQuoted(text, m, k, stack);
    case _ =>
  }

  lemma {:induction false} ItemsQuoted(text: string, i: Items, k: string, stack: seq<Segment>, index: nat)
    requires EndsWith(text, ItemsText(i, k)) && WfItems(i)
    ensures AllQuoted(text, FoundItems(i, k, stack, index, |text|))
    decreases i, 1
  {
    hide EndsWith, AllQuoted, FoundValue, ValueText, ItemsText, ItemsEnd, WfValue;
    var e := ItemsEnd(i, k);
    ItemsTextEnd(i, k);
    EndsTail(text, i.x.before, ValueText(i.x.v, e));
    FoundQuoted(text, i.x.v, e, stack + [Index(index)]);
    var a := FoundValue(i.x.v, e, stack + [Index(index)], |text|);
    NoneQuoted(text);
    if i.tail.Some? {
      var t := i.tail.value;
      ValueEnds(text, i.x.v, e);
      EndsTail(text, i.after, "," + ItemsText(t, k));
      EndsTail(text, ",", ItemsText(t, k));
      ItemsQuoted(text, t, k, stack, index + 1);
      AllQuotedConcat(text, a, FoundItems(t, k, stack, index + 1, |text|));
    } else {
      AllQuotedConcat(text, a, []);
    }
  }

  lemma {:induction false} MembersQuoted(text: string, m: Members, k: string, stack: seq<Segment>)
    requires EndsWith(text, MembersText(m, k)) && WfMembers(m)
    ensures AllQuoted(text, FoundMembers(m, k, stack, |text|))
    decreases m, 1
  {
    hide EndsWith, AllQuoted, FoundValue, ValueText, MembersText, MembersEnd, WfValue, Decode;
    var e := MembersEnd(m, k);
    MembersTextEnd(m, k);
    EndsTail(text, MemberStart(m), ValueText(m.x.v, e));
    var inner := stack + [Key(Decode(m.key))];
    FoundQuoted(text, m.x.v, e, inner);
    var a := FoundValue(m.x.v, e, inner, |text|);
    NoneQuoted(text);
    if m.tail.Some? {
      var t := m.tail.value;
      ValueEnds(text, m.x.v, e);
      EndsTail(text, m.after, "," + MembersText(t, k));
      EndsTail(text, ",", MembersText(t, k));
      MembersQuoted(text, t, k, stack);
      AllQuotedConcat(text, a, FoundMembers(t, k, stack, |text|));
    } else {
      AllQuotedConcat(text, a, []);
    }
  }

  lemma NoneQuoted(text: string)
    ensures AllQuoted(text, [])
  {
  }

  /** A quote of a valid text cuts it into valid texts, wherever the cut from the left is. */
  lemma ValidAround(text: string, last: nat, i: nat)
    requires last <= i < |text| && ValidUtf8(text[last..]) && text[i] as int < 0x80
    ensures ValidUtf8(text[last..i]) && ValidUtf8(text[i + 1..])
  {
    hide ValidUtf8;
    var s := text[last..];
    ValidSplit(s, i - last);
    assert s[..i - last] == text[last..i];
    DropDrop(text, last, i + 1);
  }

  lemma QuoteIsValid(u: string)
    requires ValidUtf8(u)
    ensures ValidUtf8(Quote(u))
  {
    hide Escape, FirstUnit;
    EscapeIsValid(Serde, u);
    ValidAscii("\"");
    ValidConcat(Escape(Serde, u), "\"");
    ValidConcat("\"", Escape(Serde, u) + "\"");
  }

  lemma SpanIsValid(text: string, last: nat, g: Found)
    requires QuotedAt(text, g) && last <= g.start && ValidUtf8(text[last..])
    ensures ValidUtf8(text[last..g.start]) && ValidUtf8(text[g.end..]) && ValidUtf8(g.value)
  {
    hide ValidUtf8, IsBody, Decode;
    ValidAround(text, last, g.start);
    ValidAround(text, g.start + 1, g.end - 1);
    DecodeIsValid(text[g.start + 1..g.end - 1]);
  }

  lemma {:induction false} SplicedIsValid(text: string, fs: seq<Found>, f: Rewrite, last: nat)
    requires Sorted(fs, last, |text|) && last <= |text| && ValidUtf8(text[last..])
    requires AllQuoted(text, fs) && KeepsUtf8(f)
    ensures ValidUtf8(Spliced(text, fs, f, last))
    decreases fs
  {
    if fs == [] {
    } else {
      hide ValidUtf8, QuotedAt, Quote;
      var g := fs[0];
      SpanInText(text, g);
      SpanIsValid(text, last, g);
      match f(g.value)
      case None =>
        SortedFrom(fs[1..], last, g.end, |text|);
        SplicedIsValid(text, fs[1..], f, last);
      case Some(u) =>
        SplicedIsValid(text, fs[1..], f, g.end);
        QuoteIsValid(u);
        ValidConcat(Quote(u), Spliced(text, fs[1..], f, g.end));
        ValidConcat(text[last..g.start], Quote(u) + Spliced(text, fs[1..], f, g.end));
    }
  }

  lemma SpanInText(text: string, g: Found)
    requires QuotedAt(text, g)
    ensures 0 <= g.start < g.end <= |text|
  {
  }

  /** Splicing a valid accepted text gives valid UTF-8 again. */
  lemma SpliceKeepsUtf8(text: string, d: Doc, f: Rewrite)
    requires ValidUtf8(text) && Denotes(text, d) && KeepsUtf8(f)
    ensures Sorted(FoundDoc(d), 0, |text|) && AllQuoted(text, FoundDoc(d))
    ensures ValidUtf8(Spliced(text, FoundDoc(d), f, 0))
  {
    hide ValidUtf8, Spliced, QuotedAt;
    var v, k := d.x.v, d.after;
    EndsSelf(d.x.before, ValueText(v, k));
    FoundQuoted(text, v, k, []);
    FoundSorted(v, k, [], |text|);
    SortedFrom(FoundDoc(d), 0, |text| - |ValueText(v, k)|, |text| - |k|);
    SortedTo(FoundDoc(d), 0, |text| - |k|, |text|);
    assert text[0..] == text;
    SplicedIsValid(text, FoundDoc(d), f, 0);
  }
}
