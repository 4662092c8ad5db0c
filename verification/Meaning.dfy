/** The trees JSON texts stand for, and what a scan and a splice mean on them. */
module Meaning {
  import opened Text
  import opened JsonStrings
  import opened Json
  import opened JsonProofs
  import opened ScanSpec
  import opened Splice

  /** A JSON value without its spelling: strings are decoded, numbers keep their text, members and
      items keep their order. */
  datatype Tree =
    | TLiteral(word: string)
    | TNumber(digits: string)
    | TString(text: string)
    | TArray(items: seq<Tree>)
    | TObject(members: seq<Field>)

  datatype Field = Field(key: string, value: Tree)

  function TreeOf(v: Value): Tree {
    match v
    case Literal(w) => TLiteral(w)
    case Number(n) => TNumber(NumText(n, ""))
    case Text(b) => TString(Decode(b))
    case EmptyArray(_) => TArray([])
    case Array(i) => TArray(TreesOf(i))
    case EmptyObject(_) => TObject([])
    case Object(m) => TObject(FieldsOf(m))
  }

  function TreesOf(i: Items): seq<Tree> {
    [TreeOf(i.x.v)] + (if i.tail.Some? then TreesOf(i.tail.value) else [])
  }

  function FieldsOf(m: Members): seq<Field> {
    [Field(Decode(m.key), TreeOf(m.x.v))] + (if m.tail.Some? then FieldsOf(m.tail.value) else [])
  }

  // ---------------------------------------------------------------- rewriting a tree

  /** The tree with every string value for which `f` gives a result replaced by that result. */
  function MapTree(t: Tree, f: Rewrite): Tree {
    match t
    case TString(s) => if f(s).Some? then TString(f(s).value) else t
    case TArray(ts) => TArray(MapTrees(ts, f))
    case TObject(ms) => TObject(MapFields(ms, f))
    case _ => t
  }

  function MapTrees(ts: seq<Tree>, f: Rewrite): seq<Tree> {
    if ts == [] then [] else [MapTree(ts[0], f)] + MapTrees(ts[1..], f)
  }

  function MapFields(ms: seq<Field>, f: Rewrite): seq<Field> {
    if ms == [] then [] else [Field(ms[0].key, MapTree(ms[0].value, f))] + MapFields(ms[1..], f)
  }

  /** `f` rewrites nothing but URLs. */
  ghost predicate OnlyUrls(f: Rewrite) {
    forall s :: f(s).Some? ==> IsUrl(s)
  }

  lemma {:induction false} RewriteMeans(v: Value, f: Rewrite)
    requires OnlyUrls(f)
    ensures TreeOf(RewriteValue(v, f)) == MapTree(TreeOf(v), f)
    decreases v
  {
    match v
    case Text(b) =>
      hide Decode, Escape, IsUrl;
      if f(Decode(b)).Some? {
        DecodeEscape(Serde, f(Decode(b)).value);
      }
    case Array(i) => RewriteItemsMeans(i, f);
    case Object(m) => RewriteMembersMeans(m, f);
    case _ =>
  }

  lemma {:induction false} RewriteItemsMeans(i: Items, f: Rewrite)
    requires OnlyUrls(f)
    ensures TreesOf(RewriteItems(i, f)) == MapTrees(TreesOf(i), f)
    decreases i
  {
    hide TreeOf, MapTree, RewriteValue, OnlyUrls;
    RewriteMeans(i.x.v, f);
    assert TreesOf(i)[1..] == if i.tail.Some? then TreesOf(i.tail.value) else [];
    if i.tail.Some? {
      RewriteItemsMeans(i.tail.value, f);
    }
  }

  lemma {:induction false} RewriteMembersMeans(m: Members, f: Rewrite)
    requires OnlyUrls(f)
    ensures FieldsOf(RewriteMembers(m, f)) == MapFields(FieldsOf(m), f)
    decreases m
  {
    hide TreeOf, MapTree, RewriteValue, OnlyUrls, Decode;
    RewriteMeans(m.x.v, f);
    assert FieldsOf(m)[1..] == if m.tail.Some? then FieldsOf(m.tail.value) else [];
    if m.tail.Some? {
      RewriteMembersMeans(m.tail.value, f);
    }
  }

  // ---------------------------------------------------------------- the splice theorem

  /** Splicing an accepted text gives an accepted text of the rewritten tree: the same tree except
      that each string value `f` rewrites is exactly the rewritten string. */
  lemma SplicePreservesMeaning(text: string, d: Doc, f: Rewrite)
    requires ParseDoc(text) == Some(d) && OnlyUrls(f)
    ensures Sorted(FoundDoc(d), 0, |text|)
    ensures var out := Spliced(text, FoundDoc(d), f, 0);
            && out == DocText(RewriteDoc(d, f))
            && ParseDoc(out) == Some(RewriteDoc(d, f))
            && TreeOf(RewriteDoc(d, f).x.v) == MapTree(TreeOf(d.x.v), f)
  {
    ParseExact(text, d);
    SpliceDoc(text, d, f);
    RewriteIsWf(d.x.v, f);
    RewriteMeans(d.x.v, f);
    ParseExact(DocText(RewriteDoc(d, f)), RewriteDoc(d, f));
  }

  lemma SpliceDoc(text: string, d: Doc, f: Rewrite)
    requires text == DocText(d)
    ensures Sorted(FoundDoc(d), 0, |text|)
    ensures Spliced(text, FoundDoc(d), f, 0) == DocText(RewriteDoc(d, f))
  {
    var v, k := d.x.v, d.after;
    assert EndsWith(text, ValueText(v, k)) by {
      EndsSelf(d.x.before, ValueText(v, k));
    }
    ValueEnds(text, v, k);
    var fs := FoundValue(v, k, [], |text|);
    hide Spliced, FoundValue, ValueText;
    assert fs + [] == fs;
    SpliceValue(text, v, k, [], [], f);
    SplicedNothing(text, k, f);
    SkipTo(text, d.x.before, ValueText(v, k), fs, f);
  }

  lemma SplicedNothing(text: string, k: string, f: Rewrite)
    requires EndsWith(text, k)
    ensures Sorted([], |text| - |k|, |text|) && Spliced(text, [], f, |text| - |k|) == k
  {
  }

  // ---------------------------------------------------------------- what a scan reports

  /** The string values of a tree in document order, each with its route from the root. */
  function Strings(t: Tree, stack: seq<Segment>): seq<(seq<Segment>, string)> {
    match t
    case TString(s) => [(stack, s)]
    case TArray(ts) => StringsIn(ts, stack, 0)
    case TObject(ms) => StringsOf(ms, stack)
    case _ => []
  }

  function StringsIn(ts: seq<Tree>, stack: seq<Segment>, index: nat): seq<(seq<Segment>, string)> {
    if ts == [] then []
    else Strings(ts[0], stack + [Index(index)]) + StringsIn(ts[1..], stack, index + 1)
  }

  function StringsOf(ms: seq<Field>, stack: seq<Segment>): seq<(seq<Segment>, string)> {
    if ms == [] then []
    else Strings(ms[0].value, stack + [Key(ms[0].key)]) + StringsOf(ms[1..], stack)
  }

  /** Path and text of the URLs among `ss`. */
  function UrlReports(ss: seq<(seq<Segment>, string)>): seq<(string, string)> {
    if ss == [] then []
    else (if IsUrl(ss[0].1) then [(PathText(ss[0].0), ss[0].1)] else []) + UrlReports(ss[1..])
  }

  function Reports(fs: seq<Found>): seq<(string, string)> {
    if fs == [] then [] else [(fs[0].path, fs[0].value)] + Reports(fs[1..])
  }

  lemma {:induction false} UrlReportsConcat(a: seq<(seq<Segment>, string)>, b: seq<(seq<Segment>, string)>)
    ensures UrlReports(a + b) == UrlReports(a) + UrlReports(b)
  {
    hide IsUrl, PathText;
    if a == [] {
      assert a + b == b;
    } else {
      assert (a + b)[1..] == a[1..] + b;
      UrlReportsConcat(a[1..], b);
    }
  }

  lemma {:induction false} ReportsConcat(a: seq<Found>, b: seq<Found>)
    ensures Reports(a + b) == Reports(a) + Reports(b)
  {
    if a == [] {
      assert a + b == b;
    } else {
      assert (a + b)[1..] == a[1..] + b;
      ReportsConcat(a[1..], b);
    }
  }

  /** A scan reports, in document order, exactly the string values that look like URLs. */
  lemma {:induction false} FoundAreUrls(v: Value, k: string, stack: seq<Segment>, total: nat)
    ensures Reports(FoundValue(v, k, stack, total)) == UrlReports(Strings(TreeOf(v), stack))
    decreases v
  {
    match v
    case Text(b) =>
      hide Decode, PathText, IsUrl;
      assert [(stack, Decode(b))][1..] == [];
    case Array(i) => ItemsAreUrls(i, k, stack, 0, total);
    case Object(m) => MembersAreUrls(m, k, stack, total);
    case _ =>
  }

  lemma {:induction false} ItemsAreUrls(i: Items, k: string, stack: seq<Segment>, index: nat, total: nat)
    ensures Reports(FoundItems(i, k, stack, index, total)) == UrlReports(StringsIn(TreesOf(i), stack, index))
    decreases i
  {
    hide FoundValue, Strings, TreeOf, Reports, UrlReports;
    var e, inner := ItemsEnd(i, k), stack + [Index(index)];
    FoundAreUrls(i.x.v, e, inner, total);
    var fs, ss := FoundValue(i.x.v, e, inner, total), Strings(TreeOf(i.x.v), inner);
    var ts := TreesOf(i);
    if i.tail.Some? {
      var t := i.tail.value;
      ItemsAreUrls(t, k, stack, index + 1, total);
      assert ts[1..] == TreesOf(t);
      ReportsConcat(fs, FoundItems(t, k, stack, index + 1, total));
      UrlReportsConcat(ss, StringsIn(TreesOf(t), stack, index + 1));
    } else {
      assert fs + [] == fs && ss + [] == ss && ts[1..] == [];
    }
  }

  lemma {:induction false} MembersAreUrls(m: Members, k: string, stack: seq<Segment>, total: nat)
    ensures Reports(FoundMembers(m, k, stack, total)) == UrlReports(StringsOf(FieldsOf(m), stack))
    decreases m
  {
    hide FoundValue, Strings, TreeOf, Reports, UrlReports, Decode;
    var e, inner := MembersEnd(m, k), stack + [Key(Decode(m.key))];
    FoundAreUrls(m.x.v, e, inner, total);
    var fs, ss := FoundValue(m.x.v, e, inner, total), Strings(TreeOf(m.x.v), inner);
    var ms := FieldsOf(m);
    if m.tail.Some? {
      var t := m.tail.value;
      MembersAreUrls(t, k, stack, total);
      assert ms[1..] == FieldsOf(t);
      ReportsConcat(fs, FoundMembers(t, k, stack, total));
      UrlReportsConcat(ss, StringsOf(FieldsOf(t), stack));
    } else {
      assert fs + [] == fs && ss + [] == ss && ms[1..] == [];
    }
  }

  /** `scan` succeeds exactly on the JSON texts within the depth limit, and then reports exactly
      the URLs among the string values, in document order, with their paths. */
  lemma ScanExact(text: string)
    ensures Scan(text).Some? <==> exists d :: Denotes(text, d)
    ensures forall d :: Denotes(text, d) ==>
              && Scan(text).Some? && Sorted(Scan(text).value, 0, |text|)
              && Reports(Scan(text).value) == UrlReports(Strings(TreeOf(d.x.v), []))
  {
    hide ParseDoc, Denotes, FoundDoc, DocText;
    if Scan(text).Some? {
      var d := ParseDoc(text).value;
      ParseExact(text, d);
    }
    forall d | Denotes(text, d)
      ensures Scan(text).Some? && Sorted(Scan(text).value, 0, |text|)
      ensures Reports(Scan(text).value) == UrlReports(Strings(TreeOf(d.x.v), []))
    {
      ParseExact(text, d);
      DocReports(text, d);
    }
  }

  lemma DocReports(text: string, d: Doc)
    requires Denotes(text, d)
    ensures Sorted(FoundDoc(d), 0, |text|)
    ensures Reports(FoundDoc(d)) == UrlReports(Strings(TreeOf(d.x.v), []))
  {
    SpliceDoc(text, d, _ => None);
    FoundAreUrls(d.x.v, d.after, [], |text|);
  }

  // ---------------------------------------------------------------- routes

  /** Following `route` from `t` leads to the string `s`. */
  ghost predicate At(t: Tree, route: seq<Segment>, s: string)
    decreases route
  {
    if route == [] then t == TString(s)
    else match route[0]
      case Index(i) => t.TArray? && i < |t.items| && At(t.items[i], route[1..], s)
      case Key(key) =>
        t.TObject? && exists j :: 0 <= j < |t.members| && t.members[j].key == key && At(t.members[j].value, route[1..], s)
  }

  /** Every reported string is at its route. */
  lemma {:induction false} StringsAreAt(t: Tree, stack: seq<Segment>, r: seq<Segment>, s: string)
    requires (r, s) in Strings(t, stack)
    ensures stack <= r && At(t, r[|stack|..], s)
    decreases t, 1
  {
    match t
    case TString(_) =>
    case TArray(ts) =>
      var i := StringsInAt(ts, stack, 0, r, s);
    case TObject(ms) =>
      var j := StringsOfAt(ms, stack, r, s);
    case _ =>
  }

  lemma {:induction false} StringsInAt(ts: seq<Tree>, stack: seq<Segment>, index: nat, r: seq<Segment>, s: string)
      returns (i: nat)
    requires (r, s) in StringsIn(ts, stack, index)
    ensures i < |ts| && stack + [Index(index + i)] <= r && At(ts[i], r[|stack| + 1..], s)
    decreases ts, 0
  {
    if (r, s) in Strings(ts[0], stack + [Index(index)]) {
      StringsAreAt(ts[0], stack + [Index(index)], r, s);
      i := 0;
    } else {
      var j := StringsInAt(ts[1..], stack, index + 1, r, s);
      i := j + 1;
    }
  }

  lemma {:induction false} StringsOfAt(ms: seq<Field>, stack: seq<Segment>, r: seq<Segment>, s: string)
      returns (j: nat)
    requires (r, s) in StringsOf(ms, stack)
    ensures j < |ms| && stack + [Key(ms[j].key)] <= r && At(ms[j].value, r[|stack| + 1..], s)
    decreases ms, 0
  {
    if (r, s) in Strings(ms[0].value, stack + [Key(ms[0].key)]) {
      StringsAreAt(ms[0].value, stack + [Key(ms[0].key)], r, s);
      j := 0;
    } else {
      var i := StringsOfAt(ms[1..], stack, r, s);
      j := i + 1;
    }
  }

  /** Every string at a route is reported. */
  lemma {:induction false} AtIsReported(t: Tree, stack: seq<Segment>, route: seq<Segment>, s: string)
    requires At(t, route, s)
    ensures (stack + route, s) in Strings(t, stack)
    decreases route
  {
    if route == [] {
      assert stack + route == stack;
    } else {
      match route[0]
      case Index(i) =>
        var inner := stack + [Index(i)];
        AtIsReported(t.items[i], inner, route[1..], s);
        assert inner + route[1..] == stack + route;
        InStringsIn(t.items, stack, 0, i, (stack + route, s));
      case Key(key) =>
        var j :| 0 <= j < |t.members| && t.members[j].key == key && At(t.members[j].value, route[1..], s);
        var inner := stack + [Key(key)];
        AtIsReported(t.members[j].value, inner, route[1..], s);
        assert inner + route[1..] == stack + route;
        InStringsOf(t.members, stack, j, (stack + route, s));
    }
  }

  lemma {:induction false} InStringsIn(ts: seq<Tree>, stack: seq<Segment>, index: nat, i: nat, e: (seq<Segment>, string))
    requires i < |ts| && e in Strings(ts[i], stack + [Index(index + i)])
    ensures e in StringsIn(ts, stack, index)
  {
    if i > 0 {
      InStringsIn(ts[1..], stack, index + 1, i - 1, e);
    }
  }

  lemma {:induction false} InStringsOf(ms: seq<Field>, stack: seq<Segment>, j: nat, e: (seq<Segment>, string))
    requires j < |ms| && e in Strings(ms[j].value, stack + [Key(ms[j].key)])
    ensures e in StringsOf(ms, stack)
  {
    if j > 0 {
      InStringsOf(ms[1..], stack, j - 1, e);
    }
  }

  /** The strings of a tree are reported with exactly the routes that lead to them. */
  lemma RoutesExact(t: Tree, r: seq<Segment>, s: string)
    ensures (r, s) in Strings(t, []) <==> At(t, r, s)
  {
    if (r, s) in Strings(t, []) {
      StringsAreAt(t, [], r, s);
      assert r[0..] == r;
    }
    if At(t, r, s) {
      AtIsReported(t, [], r, s);
      assert [] + r == r;
    }
  }
}
