/** Splicing replacements into a JSON text, and what it does to the tree the text stands for. */
module Splice {
  import opened Text
  import opened JsonStrings
  import opened Json
  import opened JsonProofs
  import opened ScanSpec

  /** A partial rewriting of string values. */
  type Rewrite = string -> Option<string>

  function Quote(s: string): string {
    "\"" + (Escape(Serde, s) + "\"")
  }

  // ---------------------------------------------------------------- spans

  /** The spans of `fs` are in order, apart and inside [from, to]. */
  predicate Sorted(fs: seq<Found>, from: int, to: int) {
    if fs == [] then from <= to
    else from <= fs[0].start < fs[0].end && Sorted(fs[1..], fs[0].end, to)
  }

  lemma {:induction false} SortedBounds(fs: seq<Found>, from: int, to: int)
    requires Sorted(fs, from, to)
    ensures from <= to
  {
    if fs != [] {
      SortedBounds(fs[1..], fs[0].end, to);
    }
  }

  lemma {:induction false} SortedConcat(a: seq<Found>, b: seq<Found>, from: int, mid: int, to: int)
    requires Sorted(a, from, mid) && Sorted(b, mid, to)
    ensures Sorted(a + b, from, to)
  {
    if a == [] {
      assert a + b == b;
      if b == [] {
      } else {
        assert Sorted(b[1..], b[0].end, to);
      }
    } else {
      assert (a + b)[1..] == a[1..] + b;
      SortedConcat(a[1..], b, a[0].end, mid, to);
    }
  }

  lemma SortedFrom(fs: seq<Found>, low: int, from: int, to: int)
    requires low <= from && Sorted(fs, from, to)
    ensures Sorted(fs, low, to)
  {
  }

  lemma SortedTo(fs: seq<Found>, from: int, to: int, high: int)
    requires to <= high && Sorted(fs, from, to)
    ensures Sorted(fs, from, high)
  {
    assert fs + [] == fs;
    SortedConcat(fs, [], from, to, high);
  }

  lemma ItemsTextEnd(i: Items, k: string)
    ensures ItemsText(i, k) == i.x.before + ValueText(i.x.v, ItemsEnd(i, k))
    ensures ItemsEnd(i, k) == i.after + (if i.tail.Some? then "," + ItemsText(i.tail.value, k) else "]" + k)
  {
  }

  /** The text of a member in front of its value. */
  function MemberStart(m: Members): string {
    m.before + ("\"" + (m.key + ("\"" + (m.mid + (":" + m.x.before)))))
  }

  lemma MembersTextEnd(m: Members, k: string)
    ensures MembersText(m, k) == MemberStart(m) + ValueText(m.x.v, MembersEnd(m, k))
    ensures MembersEnd(m, k) == m.after + (if m.tail.Some? then "," + MembersText(m.tail.value, k) else "}" + k)
  {
    hide ValueText;
    var t := ValueText(m.x.v, MembersEnd(m, k));
    var a := m.x.before;
    assert (":" + a) + t == ":" + (a + t);
    assert (m.mid + (":" + a)) + t == m.mid + ((":" + a) + t);
    assert ("\"" + (m.mid + (":" + a))) + t == "\"" + ((m.mid + (":" + a)) + t);
    assert (m.key + ("\"" + (m.mid + (":" + a)))) + t == m.key + (("\"" + (m.mid + (":" + a))) + t);
  }

  /** The spans found in a value lie inside its text. */
  lemma {:induction false} FoundSorted(v: Value, k: string, stack: seq<Segment>, total: nat)
    ensures Sorted(FoundValue(v, k, stack, total), total - |ValueText(v, k)|, total - |k|)
    decreases v
  {
    match v
    case Text(b) =>
      hide Decode, PathText, IsUrl;
    case Array(items) =>
      ItemsSorted(items, k, stack, 0, total);
      SortedFrom(FoundItems(items, k, stack, 0, total), total - |ValueText(v, k)|,
                 total - |ItemsText(items, k)|, total - |k|);
    case Object(members) =>
      MembersSorted(members, k, stack, total);
      SortedFrom(FoundMembers(members, k, stack, total), total - |ValueText(v, k)|,
                 total - |MembersText(members, k)|, total - |k|);
    case _ =>
  }

  lemma {:induction false} ItemsSorted(i: Items, k: string, stack: seq<Segment>, index: nat, total: nat)
    ensures Sorted(FoundItems(i, k, stack, index, total), total - |ItemsText(i, k)|, total - |k|)
    decreases i
  {
    hide ValueText, ItemsText, ItemsEnd, FoundValue;
    ItemsTextEnd(i, k);
    var e := ItemsEnd(i, k);
    var a := FoundValue(i.x.v, e, stack + [Index(index)], total);
    FoundSorted(i.x.v, e, stack + [Index(index)], total);
    SortedFrom(a, total - |ItemsText(i, k)|, total - |ValueText(i.x.v, e)|, total - |e|);
    if i.tail.Some? {
      var t := i.tail.value;
      ItemsSorted(t, k, stack, index + 1, total);
      var b := FoundItems(t, k, stack, index + 1, total);
      SortedFrom(b, total - |e|, total - |ItemsText(t, k)|, total - |k|);
      SortedConcat(a, b, total - |ItemsText(i, k)|, total - |e|, total - |k|);
    } else {
      SortedConcat(a, [], total - |ItemsText(i, k)|, total - |e|, total - |k|);
    }
  }

  lemma {:induction false} MembersSorted(m: Members, k: string, stack: seq<Segment>, total: nat)
    ensures Sorted(FoundMembers(m, k, stack, total), total - |MembersText(m, k)|, total - |k|)
    decreases m
  {
    hide ValueText, MembersText, MembersEnd, FoundValue, Decode;
    MembersTextEnd(m, k);
    var e := MembersEnd(m, k);
    var inner := stack + [Key(Decode(m.key))];
    var a := FoundValue(m.x.v, e, inner, total);
    FoundSorted(m.x.v, e, inner, total);
    SortedFrom(a, total - |MembersText(m, k)|, total - |ValueText(m.x.v, e)|, total - |e|);
    if m.tail.Some? {
      var t := m.tail.value;
      MembersSorted(t, k, stack, total);
      var b := FoundMembers(t, k, stack, total);
      SortedFrom(b, total - |e|, total - |MembersText(t, k)|, total - |k|);
      SortedConcat(a, b, total - |MembersText(m, k)|, total - |e|, total - |k|);
    } else {
      SortedConcat(a, [], total - |MembersText(m, k)|, total - |e|, total - |k|);
    }
  }

  // ---------------------------------------------------------------- splicing

  /** The text from `last` on, with every span that `f` rewrites replaced. */
  function Spliced(text: string, fs: seq<Found>, f: Rewrite, last: int): string
    requires 0 <= last && Sorted(fs, last, |text|)
  {
    SortedBounds(fs, last, |text|);
    if fs == [] then text[last..]
    else
      SortedBounds(fs[1..], fs[0].end, |text|);
      match f(fs[0].value)
      case None => SortedFrom(fs[1..], last, fs[0].end, |text|); Spliced(text, fs[1..], f, last)
      case Some(u) => text[last..fs[0].start] + (Quote(u) + Spliced(text, fs[1..], f, fs[0].end))
  }

  /** Bytes in front of the first span are kept. */
  lemma {:induction false} SplicedSkip(text: string, fs: seq<Found>, f: Rewrite, last: int, mid: int)
    requires 0 <= last <= mid <= |text| && Sorted(fs, mid, |text|)
    ensures Sorted(fs, last, |text|)
    ensures Spliced(text, fs, f, last) == text[last..mid] + Spliced(text, fs, f, mid)
    decreases fs
  {
    SortedFrom(fs, last, mid, |text|);
    if fs == [] {
      assert text[last..] == text[last..mid] + text[mid..];
    } else {
      SortedBounds(fs[1..], fs[0].end, |text|);
      var s := fs[0].start;
      match f(fs[0].value)
      case None =>
        SortedFrom(fs[1..], mid, fs[0].end, |text|);
        SplicedSkip(text, fs[1..], f, last, mid);
      case Some(u) =>
        assert text[last..s] == text[last..mid] + text[mid..s];
    }
  }

  // ---------------------------------------------------------------- rewriting the syntax tree

  function RewriteNode(x: Node, f: Rewrite): Node {
    Node(x.before, RewriteValue(x.v, f))
  }

  /** The same tree with the strings that `f` rewrites replaced, and nothing else changed. */
  function RewriteValue(v: Value, f: Rewrite): Value {
    match v
    case Text(b) =>
      if IsUrl(Decode(b)) && f(Decode(b)).Some? then Text(Escape(Serde, f(Decode(b)).value)) else v
    case Array(items) => Array(RewriteItems(items, f))
    case Object(members) => Object(RewriteMembers(members, f))
    case _ => v
  }

  function RewriteItems(i: Items, f: Rewrite): Items {
    Items(RewriteNode(i.x, f), i.after, if i.tail.Some? then Some(RewriteItems(i.tail.value, f)) else None)
  }

  function RewriteMembers(m: Members, f: Rewrite): Members {
    m.(x := RewriteNode(m.x, f),
       tail := if m.tail.Some? then Some(RewriteMembers(m.tail.value, f)) else None)
  }

  function RewriteDoc(d: Doc, f: Rewrite): Doc {
    Doc(RewriteNode(d.x, f), d.after)
  }

  lemma {:induction false} RewriteIsWf(v: Value, f: Rewrite)
    requires WfValue(v)
    ensures WfValue(RewriteValue(v, f)) && Nesting(RewriteValue(v, f)) == Nesting(v)
    decreases v
  {
    match v
    case Text(b) =>
      if IsUrl(Decode(b)) && f(Decode(b)).Some? {
        DecodeEscape(Serde, f(Decode(b)).value);
      }
    case Array(items) => RewriteItemsIsWf(items, f);
    case Object(members) => RewriteMembersIsWf(members, f);
    case _ =>
  }

  lemma {:induction false} RewriteItemsIsWf(i: Items, f: Rewrite)
    requires WfItems(i)
    ensures WfItems(RewriteItems(i, f)) && NestingItems(RewriteItems(i, f)) == NestingItems(i)
    decreases i
  {
    RewriteIsWf(i.x.v, f);
    if i.tail.Some? {
      RewriteItemsIsWf(i.tail.value, f);
    }
  }

  lemma {:induction false} RewriteMembersIsWf(m: Members, f: Rewrite)
    requires WfMembers(m)
    ensures WfMembers(RewriteMembers(m, f)) && NestingMembers(RewriteMembers(m, f)) == NestingMembers(m)
    decreases m
  {
    RewriteIsWf(m.x.v, f);
    if m.tail.Some? {
      RewriteMembersIsWf(m.tail.value, f);
    }
  }

  // ---------------------------------------------------------------- splicing prints the rewritten tree

  predicate EndsWith(text: string, s: string) {
    |s| <= |text| && text[|text| - |s|..] == s
  }

  /** A text in front of `k` is skipped: splicing keeps it. */
  lemma SkipTo(text: string, a: string, k: string, fs: seq<Found>, f: Rewrite)
    requires EndsWith(text, a + k) && Sorted(fs, |text| - |k|, |text|)
    ensures EndsWith(text, k) && Sorted(fs, |text| - |a + k|, |text|)
    ensures Spliced(text, fs, f, |text| - |a + k|) == a + Spliced(text, fs, f, |text| - |k|)
  {
    hide Sorted, Spliced;
    var last, mid := |text| - |a + k|, |text| - |k|;
    SortedFrom(fs, last, mid, |text|);
    SplicedSkip(text, fs, f, last, mid);
    Cut(a, k);
    assert text[last..mid] == text[last..][..|a|];
    DropDrop(text, last, mid);
  }

  lemma SkipTwo(text: string, a: string, b: string, k: string, fs: seq<Found>, f: Rewrite)
    requires EndsWith(text, a + (b + k)) && EndsWith(text, k) && Sorted(fs, |text| - |k|, |text|)
    ensures Sorted(fs, |text| - |a + (b + k)|, |text|)
    ensures Spliced(text, fs, f, |text| - |a + (b + k)|) == a + (b + Spliced(text, fs, f, |text| - |k|))
  {
    hide Sorted, Spliced;
    EndsTail(text, a, b + k);
    SkipTo(text, b, k, fs, f);
    SkipTo(text, a, b + k, fs, f);
  }

  /** The rewritten print of `v`, going on with the rest spliced. */
  lemma {:induction false} SpliceValue(text: string, v: Value, k: string, stack: seq<Segment>,
                                       rest: seq<Found>, f: Rewrite)
    requires EndsWith(text, ValueText(v, k)) && EndsWith(text, k) && Sorted(rest, |text| - |k|, |text|)
    ensures var fs := FoundValue(v, k, stack, |text|) + rest;
            && Sorted(fs, |text| - |ValueText(v, k)|, |text|)
            && Spliced(text, fs, f, |text| - |ValueText(v, k)|)
               == ValueText(RewriteValue(v, f), Spliced(text, rest, f, |text| - |k|))
    decreases v
  {
    hide Sorted, Spliced, EndsWith;
    FoundSorted(v, k, stack, |text|);
    SortedConcat(FoundValue(v, k, stack, |text|), rest, |text| - |ValueText(v, k)|, |text| - |k|, |text|);
    match v
    case Text(b) => SpliceText(text, b, k, stack, rest, f);
    case Array(items) => SpliceArray(text, items, k, stack, rest, f);
    case Object(members) => SpliceObject(text, members, k, stack, rest, f);
    case _ => SpliceScalar(text, v, k, rest, f);
  }

  lemma SpliceScalar(text: string, v: Value, k: string, rest: seq<Found>, f: Rewrite)
    requires EndsWith(text, ValueText(v, k)) && Sorted(rest, |text| - |k|, |text|)
    requires v.Literal? || v.Number? || v.EmptyArray? || v.EmptyObject?
    ensures Sorted([] + rest, |text| - |ValueText(v, k)|, |text|)
    ensures Spliced(text, [] + rest, f, |text| - |ValueText(v, k)|) == ValueText(v, Spliced(text, rest, f, |text| - |k|))
  {
    hide Sorted, Spliced, ValueText;
    assert [] + rest == rest;
    ScalarText(v, k);
    SkipTo(text, ValueText(v, ""), k, rest, f);
    ScalarText(v, Spliced(text, rest, f, |text| - |k|));
  }

  lemma ScalarText(v: Value, k: string)
    requires v.Literal? || v.Number? || v.EmptyArray? || v.EmptyObject?
    ensures ValueText(v, k) == ValueText(v, "") + k
  {
    match v
    case Literal(w) => assert w + "" == w;
    case Number(n) => NumTextAppend(n, k);
    case EmptyArray(p) => PadAppend("[", p, "]", k);
    case EmptyObject(p) => PadAppend("{", p, "}", k);
  }

  lemma PadAppend(a: string, p: string, b: string, k: string)
    ensures a + (p + (b + k)) == a + (p + (b + "")) + k
  {
    assert b + "" == b;
    assert p + b + k == p + (b + k);
  }

  lemma NumTextAppend(n: Num, k: string)
    ensures NumText(n, k) == NumText(n, "") + k
  {
    var e := n.exp + "";
    assert n.exp + k == e + k;
    assert n.frac + (e + k) == n.frac + e + k;
    assert n.whole + (n.frac + e + k) == n.whole + (n.frac + e) + k;
    assert n.sign + (n.whole + (n.frac + e) + k) == n.sign + (n.whole + (n.frac + e)) + k;
  }

  /** One step of splicing: the first span is replaced or passed over. */
  lemma SplicedStep(text: string, g: Found, rest: seq<Found>, f: Rewrite)
    requires 0 <= g.start && Sorted([g] + rest, g.start, |text|) && Sorted(rest, g.end, |text|) && g.end <= |text|
    ensures match f(g.value)
            case None => Sorted(rest, g.start, |text|)
                         && Spliced(text, [g] + rest, f, g.start) == Spliced(text, rest, f, g.start)
            case Some(u) => Spliced(text, [g] + rest, f, g.start) == Quote(u) + Spliced(text, rest, f, g.end)
  {
    hide Quote;
    var fs := [g] + rest;
    assert fs[1..] == rest;
    SortedFrom(rest, g.start, g.end, |text|);
    match f(g.value)
    case None =>
    case Some(u) =>
      var t := Quote(u) + Spliced(text, rest, f, g.end);
      assert text[g.start..g.start] + t == t;
  }

  lemma SpliceText(text: string, b: string, k: string, stack: seq<Segment>, rest: seq<Found>, f: Rewrite)
    requires EndsWith(text, ValueText(Text(b), k)) && Sorted(rest, |text| - |k|, |text|)
    requires var v := Text(b);
             Sorted(FoundValue(v, k, stack, |text|) + rest, |text| - |ValueText(v, k)|, |text|)
    ensures var v := Text(b);
            Spliced(text, FoundValue(v, k, stack, |text|) + rest, f, |text| - |ValueText(v, k)|)
            == ValueText(RewriteValue(v, f), Spliced(text, rest, f, |text| - |k|))
  {
    var v := Text(b);
    TextAppend(b, k);
    TextAppend(b, Spliced(text, rest, f, |text| - |k|));
    hide Decode, PathText, IsUrl, Escape, EndsWith, Spliced, Sorted, ValueText;
    if !IsUrl(Decode(b)) {
      assert [] + rest == rest;
      SkipTo(text, ValueText(v, ""), k, rest, f);
    } else {
      var g := FoundValue(v, k, stack, |text|)[0];
      SplicedStep(text, g, rest, f);
      match f(Decode(b))
      case None =>
        SkipTo(text, ValueText(v, ""), k, rest, f);
      case Some(u) =>
        TextAppend(Escape(Serde, u), Spliced(text, rest, f, |text| - |k|));
    }
  }

  lemma TextAppend(b: string, k: string)
    ensures ValueText(Text(b), k) == ValueText(Text(b), "") + k == "\"" + (b + "\"") + k
  {
    assert "\"" + "" == "\"";
    assert b + ("\"" + k) == b + "\"" + k;
  }

  lemma {:induction false} SpliceArray(text: string, i: Items, k: string, stack: seq<Segment>,
                                       rest: seq<Found>, f: Rewrite)
    requires EndsWith(text, ValueText(Array(i), k)) && EndsWith(text, k) && Sorted(rest, |text| - |k|, |text|)
    ensures var v := Array(i);
            var fs := FoundValue(v, k, stack, |text|) + rest;
            && Sorted(fs, |text| - |ValueText(v, k)|, |text|)
            && Spliced(text, fs, f, |text| - |ValueText(v, k)|)
               == ValueText(RewriteValue(v, f), Spliced(text, rest, f, |text| - |k|))
    decreases i, 2
  {
    hide ItemsText, FoundItems, RewriteItems;
    EndsTail(text, "[", ItemsText(i, k));
    SpliceItems(text, i, k, stack, 0, rest, f);
    SkipTo(text, "[", ItemsText(i, k), FoundItems(i, k, stack, 0, |text|) + rest, f);
  }

  lemma EndsTail(text: string, a: string, b: string)
    requires EndsWith(text, a + b)
    ensures EndsWith(text, b)
  {
    assert text[|text| - |b|..] == (a + b)[|a|..];
  }

  lemma FoundItemsUnfold(i: Items, k: string, stack: seq<Segment>, index: nat, total: nat, rest: seq<Found>)
    ensures FoundItems(i, k, stack, index, total) + rest ==
            FoundValue(i.x.v, ItemsEnd(i, k), stack + [Index(index)], total)
            + MoreItems(i, k, stack, index, total, rest)
  {
    hide FoundValue, ItemsEnd;
  }

  lemma FoundMembersUnfold(m: Members, k: string, stack: seq<Segment>, total: nat, rest: seq<Found>)
    ensures FoundMembers(m, k, stack, total) + rest ==
            FoundValue(m.x.v, MembersEnd(m, k), stack + [Key(Decode(m.key))], total)
            + MoreMembers(m, k, stack, total, rest)
  {
    hide FoundValue, MembersEnd, Decode;
  }

  /** What is found after the first of `i`. */
  function MoreItems(i: Items, k: string, stack: seq<Segment>, index: nat, total: nat, rest: seq<Found>): seq<Found> {
    if i.tail.Some? then FoundItems(i.tail.value, k, stack, index + 1, total) + rest else rest
  }

  lemma {:induction false} SpliceItemsEnd(text: string, i: Items, k: string, stack: seq<Segment>, index: nat, 
                                          rest: seq<Found>, f: Rewrite)
    requires EndsWith(text, ItemsEnd(i, k)) && EndsWith(text, k) && Sorted(rest, |text| - |k|, |text|)
    ensures var more := MoreItems(i, k, stack, index, |text|, rest);
            && Sorted(more, |text| - |ItemsEnd(i, k)|, |text|)
            && Spliced(text, more, f, |text| - |ItemsEnd(i, k)|)
               == ItemsEnd(RewriteItems(i, f), Spliced(text, rest, f, |text| - |k|))
    decreases i, 0
  {
    assert |k| <= |text|;
    hide ItemsText, FoundItems, Spliced, EndsWith, Sorted, RewriteValue;
    var more := MoreItems(i, k, stack, index, |text|, rest);
    if i.tail.Some? {
      var t := i.tail.value;
      EndsTail(text, i.after, "," + ItemsText(t, k));
      EndsTail(text, ",", ItemsText(t, k));
      SpliceItems(text, t, k, stack, index + 1, rest, f);
      SkipTwo(text, i.after, ",", ItemsText(t, k), more, f);
    } else {
      EndsTail(text, i.after, "]" + k);
      SkipTwo(text, i.after, "]", k, more, f);
    }
  }

  lemma {:induction false} SpliceItems(text: string, i: Items, k: string, stack: seq<Segment>, index: nat, 
                                       rest: seq<Found>, f: Rewrite)
    requires EndsWith(text, ItemsText(i, k)) && EndsWith(text, k) && Sorted(rest, |text| - |k|, |text|)
    ensures var fs := FoundItems(i, k, stack, index, |text|) + rest;
            && Sorted(fs, |text| - |ItemsText(i, k)|, |text|)
            && Spliced(text, fs, f, |text| - |ItemsText(i, k)|)
               == ItemsText(RewriteItems(i, f), Spliced(text, rest, f, |text| - |k|))
    decreases i, 1
  {
    assert |k| <= |text|;
    hide ValueText, ItemsText, ItemsEnd, FoundValue, FoundItems, MoreItems, Spliced, EndsWith, Sorted, Decode;
    var e := ItemsEnd(i, k);
    var inner := stack + [Index(index)];
    ItemsTextEnd(i, k);
    ItemsTextEnd(RewriteItems(i, f), Spliced(text, rest, f, |text| - |k|));
    EndsTail(text, i.x.before, ValueText(i.x.v, e));
    ValueEnds(text, i.x.v, e);
    var more := MoreItems(i, k, stack, index, |text|, rest);
    FoundItemsUnfold(i, k, stack, index, |text|, rest);
    SpliceItemsEnd(text, i, k, stack, index, rest, f);
    SpliceValue(text, i.x.v, e, inner, more, f);
    SkipTo(text, i.x.before, ValueText(i.x.v, e), FoundItems(i, k, stack, index, |text|) + rest, f);
  }

  lemma {:induction false} SpliceObject(text: string, m: Members, k: string, stack: seq<Segment>,
                                        rest: seq<Found>, f: Rewrite)
    requires EndsWith(text, ValueText(Object(m), k)) && EndsWith(text, k) && Sorted(rest, |text| - |k|, |text|)
    ensures var v := Object(m);
            var fs := FoundValue(v, k, stack, |text|) + rest;
            && Sorted(fs, |text| - |ValueText(v, k)|, |text|)
            && Spliced(text, fs, f, |text| - |ValueText(v, k)|)
               == ValueText(RewriteValue(v, f), Spliced(text, rest, f, |text| - |k|))
    decreases m, 2
  {
    hide MembersText, FoundMembers, RewriteMembers;
    EndsTail(text, "{", MembersText(m, k));
    SpliceMembers(text, m, k, stack, rest, f);
    SkipTo(text, "{", MembersText(m, k), FoundMembers(m, k, stack, |text|) + rest, f);
  }

  /** What is found after the first of `m`. */
  function MoreMembers(m: Members, k: string, stack: seq<Segment>, total: nat, rest: seq<Found>): seq<Found> {
    if m.tail.Some? then FoundMembers(m.tail.value, k, stack, total) + rest else rest
  }

  lemma {:induction false} SpliceMembersEnd(text: string, m: Members, k: string, stack: seq<Segment>, 
                                          rest: seq<Found>, f: Rewrite)
    requires EndsWith(text, MembersEnd(m, k)) && EndsWith(text, k) && Sorted(rest, |text| - |k|, |text|)
    ensures var more := MoreMembers(m, k, stack, |text|, rest);
            && Sorted(more, |text| - |MembersEnd(m, k)|, |text|)
            && Spliced(text, more, f, |text| - |MembersEnd(m, k)|)
               == MembersEnd(RewriteMembers(m, f), Spliced(text, rest, f, |text| - |k|))
    decreases m, 0
  {
    assert |k| <= |text|;
    hide MembersText, FoundMembers, Spliced, EndsWith, Sorted, RewriteValue;
    var more := MoreMembers(m, k, stack, |text|, rest);
    if m.tail.Some? {
      var t := m.tail.value;
      EndsTail(text, m.after, "," + MembersText(t, k));
      EndsTail(text, ",", MembersText(t, k));
      SpliceMembers(text, t, k, stack, rest, f);
      SkipTwo(text, m.after, ",", MembersText(t, k), more, f);
    } else {
      EndsTail(text, m.after, "}" + k);
      SkipTwo(text, m.after, "}", k, more, f);
    }
  }

  lemma {:induction false} SpliceMembers(text: string, m: Members, k: string, stack: seq<Segment>, 
                                       rest: seq<Found>, f: Rewrite)
    requires EndsWith(text, MembersText(m, k)) && EndsWith(text, k) && Sorted(rest, |text| - |k|, |text|)
    ensures var fs := FoundMembers(m, k, stack, |text|) + rest;
            && Sorted(fs, |text| - |MembersText(m, k)|, |text|)
            && Spliced(text, fs, f, |text| - |MembersText(m, k)|)
               == MembersText(RewriteMembers(m, f), Spliced(text, rest, f, |text| - |k|))
    decreases m, 1
  {
    assert |k| <= |text|;
    hide ValueText, MembersText, MembersEnd, FoundValue, FoundMembers, MoreMembers, Spliced, EndsWith, Sorted, Decode;
    var e := MembersEnd(m, k);
    var inner := stack + [Key(Decode(m.key))];
    MembersTextEnd(m, k);
    MembersTextEnd(RewriteMembers(m, f), Spliced(text, rest, f, |text| - |k|));
    EndsTail(text, MemberStart(m), ValueText(m.x.v, e));
    ValueEnds(text, m.x.v, e);
    var more := MoreMembers(m, k, stack, |text|, rest);
    FoundMembersUnfold(m, k, stack, |text|, rest);
    SpliceMembersEnd(text, m, k, stack, rest, f);
    SpliceValue(text, m.x.v, e, inner, more, f);
    SkipTo(text, MemberStart(m), ValueText(m.x.v, e), FoundMembers(m, k, stack, |text|) + rest, f);
  }

  // ---------------------------------------------------------------- suffixes

  lemma EndsTrans(a: string, b: string, c: string)
    requires EndsWith(a, b) && EndsWith(b, c)
    ensures EndsWith(a, c)
  {
    assert a[|a| - |c|..] == a[|a| - |b|..][|b| - |c|..];
  }

  lemma EndsAppend(a: string, b: string, c: string)
    requires EndsWith(b, c)
    ensures EndsWith(a + b, c)
  {
    assert (a + b)[|a + b| - |b|..] == b;
    EndsTrans(a + b, b, c);
  }

  lemma EndsSelf(a: string, k: string)
    ensures EndsWith(a + k, k)
  {
    assert k[0..] == k;
    EndsAppend(a, k, k);
  }

  /** What follows a value at the end of a text ends the text. */
  lemma ValueEnds(text: string, v: Value, k: string)
    requires EndsWith(text, ValueText(v, k))
    ensures EndsWith(text, k)
  {
    ValueEndsWith(v, k);
    EndsTrans(text, ValueText(v, k), k);
  }

  lemma {:induction false} ValueEndsWith(v: Value, k: string)
    ensures EndsWith(ValueText(v, k), k)
    decreases v, 0
  {
    hide EndsWith;
    match v
    case Text(b) =>
      TextAppend(b, k);
      EndsSelf("\"" + (b + "\""), k);
    case Array(items) =>
      ItemsEndsWith(items, k);
      EndsAppend("[", ItemsText(items, k), k);
    case Object(members) =>
      MembersEndsWith(members, k);
      EndsAppend("{", MembersText(members, k), k);
    case _ =>
      ScalarText(v, k);
      EndsSelf(ValueText(v, ""), k);
  }

  lemma {:induction false} ItemsEndsWith(i: Items, k: string)
    ensures EndsWith(ItemsText(i, k), k)
    decreases i, 1
  {
    hide EndsWith, ValueText, ItemsText, ItemsEnd;
    var e := ItemsEnd(i, k);
    ItemsTextEnd(i, k);
    if i.tail.Some? {
      ItemsEndsWith(i.tail.value, k);
      EndsAppend(",", ItemsText(i.tail.value, k), k);
      EndsAppend(i.after, "," + ItemsText(i.tail.value, k), k);
    } else {
      EndsSelf("]", k);
      EndsAppend(i.after, "]" + k, k);
    }
    ValueEndsWith(i.x.v, e);
    EndsTrans(ValueText(i.x.v, e), e, k);
    EndsAppend(i.x.before, ValueText(i.x.v, e), k);
  }

  lemma {:induction false} MembersEndsWith(m: Members, k: string)
    ensures EndsWith(MembersText(m, k), k)
    decreases m, 1
  {
    hide EndsWith, ValueText, MembersText, MembersEnd;
    var e := MembersEnd(m, k);
    MembersTextEnd(m, k);
    if m.tail.Some? {
      MembersEndsWith(m.tail.value, k);
      EndsAppend(",", MembersText(m.tail.value, k), k);
      EndsAppend(m.after, "," + MembersText(m.tail.value, k), k);
    } else {
      EndsSelf("}", k);
      EndsAppend(m.after, "}" + k, k);
    }
    ValueEndsWith(m.x.v, e);
    EndsTrans(ValueText(m.x.v, e), e, k);
    EndsAppend(MemberStart(m), ValueText(m.x.v, e), k);
  }
}
