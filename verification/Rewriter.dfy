/** The rewriter of PlaybackInfo bodies (src/rewrite.rs). */
module Rewriter {
  import opened Text
  import opened JsonProofs
  import opened Json
  import opened ScanSpec
  import opened Splice
  import opened SpliceUtf8
  import opened Meaning
  import Scanner
  import opened Percent
  import opened Urls
  import opened Hosts
  import JsonStrings

  datatype RewriteEvent =
    RewriteEvent(path: string, original: string, rewritten: string, scheme: string, host: string)

  /** `rewrite_url` as a rewriting of strings. */
  function UrlRewrite(c: Settings): Rewrite {
    raw => match RewriteUrl(c, raw)
           case None => None
           case Some(r) => Some(r.url)
  }

  /** The rewrites made in `fs`, in order. */
  function EventsOf(c: Settings, fs: seq<Found>): seq<RewriteEvent> {
    if fs == [] then []
    else (match RewriteUrl(c, fs[0].value)
          case None => []
          case Some(r) => [RewriteEvent(fs[0].path, fs[0].value, r.url, r.scheme, r.host)])
         + EventsOf(c, fs[1..])
  }

  function Registered(m: Schemes, events: seq<RewriteEvent>): Schemes {
    if events == [] then m
    else
      var n := |events| - 1;
      Allowed(Registered(m, events[..n]), events[n].host, events[n].scheme)
  }

  lemma ScanSorted(text: string)
    requires Scan(text).Some?
    ensures Sorted(Scan(text).value, 0, |text|)
  {
    var d := ParseDoc(text).value;
    ParseExact(text, d);
    SpliceDoc(text, d, _ => None);
  }

  /** The body that is served: spliced when it is JSON, as it came otherwise. */
  function Served(c: Settings, body: string): string {
    if ValidUtf8(body) && Scan(body).Some? then
      ScanSorted(body); Spliced(body, Scan(body).value, UrlRewrite(c), 0)
    else body
  }

  function EventsIn(c: Settings, body: string): seq<RewriteEvent> {
    if ValidUtf8(body) && Scan(body).Some? then EventsOf(c, Scan(body).value) else []
  }

  // ---------------------------------------------------------------- the main result

  lemma UrlRewriteIsProper(c: Settings)
    requires ValidSettings(c)
    ensures OnlyUrls(UrlRewrite(c)) && KeepsUtf8(UrlRewrite(c))
  {
    forall s | UrlRewrite(c)(s).Some?
      ensures IsUrl(s) && (ValidUtf8(s) ==> ValidUtf8(UrlRewrite(c)(s).value))
    {
      RewritesOnlyUrls(c, s);
      if ValidUtf8(s) {
        RewriteKeepsUtf8(c, s);
      }
    }
  }

  /** A served body is valid UTF-8 and accepted again when the body was, and denotes the same tree
      except that each string value `rewrite_url` rewrites is exactly what it gives. A body that is
      not UTF-8 or not accepted is served unchanged. */
  lemma ServedMeansTheSame(c: Settings, body: string)
    requires ValidSettings(c)
    ensures var out := Served(c, body);
            if !ValidUtf8(body) then out == body else
            match ParseDoc(body)
            case None => out == body
            case Some(d) =>
              && ValidUtf8(out) && ParseDoc(out) == Some(RewriteDoc(d, UrlRewrite(c)))
              && TreeOf(ParseDoc(out).value.x.v) == MapTree(TreeOf(d.x.v), UrlRewrite(c))
  {
    hide Spliced, FoundDoc, RewriteDoc, TreeOf, MapTree, ValidUtf8, OnlyUrls, KeepsUtf8;
    if ValidUtf8(body) && ParseDoc(body).Some? {
      var d := ParseDoc(body).value;
      UrlRewriteIsProper(c);
      ParseExact(body, d);
      SplicePreservesMeaning(body, d, UrlRewrite(c));
      SpliceKeepsUtf8(body, d, UrlRewrite(c));
    }
  }

  lemma {:induction false} NothingSpliced(c: Settings, text: string, fs: seq<Found>)
    requires Sorted(fs, 0, |text|) && EventsOf(c, fs) == []
    ensures Spliced(text, fs, UrlRewrite(c), 0) == text
    decreases fs
  {
    if fs == [] {
      assert text[0..] == text;
    } else {
      hide RewriteUrl;
      SortedFrom(fs[1..], 0, fs[0].end, |text|);
      NothingSpliced(c, text, fs[1..]);
    }
  }

  // ---------------------------------------------------------------- the rewriter

  class Rewriter {
    const settings: Settings
    const registry: Registry

    constructor (scheme: string, host: string, path: string, registry: Registry,
                 sign: Option<(string, string) -> string>)
      requires ValidUtf8(path)
      ensures this.registry == registry
      ensures var d := PercentDecode(path, false);
              settings == Settings(scheme, host, if d.Some? then d.value else path, sign)
    {
      var d := DecodePercent(path, false);
      this.settings := Settings(scheme, host, if d.Some? then d.value else path, sign);
      this.registry := registry;
    }

    method RewriteOne(raw: string) returns (r: Option<Rewritten>)
      requires ValidUtf8(raw)
      modifies registry
      ensures r == RewriteUrl(settings, raw)
      ensures registry.schemes ==
              if r.Some? then Allowed(old(registry.schemes), r.value.host, r.value.scheme) else old(registry.schemes)
    {
      hide PercentDecode, ValidUtf8, JoinUrlPath, EscapePath;
      var parts := SplitUrl(raw);
      if parts.None? {
        return None;
      }
      var p := parts.value;
      RawPathIsValid(raw);
      hide SplitUrl;
      var path := DecodePercent(p.rawPath, false);
      if path.None? {
        return None;
      }
      registry.Allow(p.host, p.scheme);
      var segments := ["_proxy"];
      if settings.sign.Some? {
        segments := segments + [settings.sign.value(p.scheme, p.host)];
      }
      segments := segments + [p.scheme, p.host, TrimStart(path.value)];
      assert segments == PathParts(settings, p, path.value);
      var joined := JoinUrlPathLoop(settings.publicPath, segments);
      var escaped := EscapePathLoop(joined);
      var url := settings.scheme + "://" + settings.host + escaped;
      if p.query != "" {
        url := url + "?" + p.query;
      }
      assert p.query != "" ==> url == settings.scheme + "://" + settings.host + escaped + ("?" + p.query);
      assert p.query == "" ==> url == url + "";
      r := Some(Rewritten(url, p.scheme, p.host));
    }

    /** Rewrites a body: the new body if there is anything to rewrite, and what was rewritten. */
    method RewritePlaybackInfo(body: string) returns (out: Option<string>, events: seq<RewriteEvent>)
      modifies registry
      ensures events == EventsIn(settings, body) && (out.Some? <==> events != [])
      ensures (if out.Some? then out.value else body) == Served(settings, body)
      ensures registry.schemes == Registered(old(registry.schemes), events)
    {
      out, events := None, [];
      if !ValidUtf8(body) {
        return;
      }
      var found := Scanner.ScanText(body);
      if found.None? {
        return;
      }
      ScanSorted(body);
      ScanValuesValid(body);
      out, events := SpliceFound(body, found.value);
    }

    /** The single pass over the found strings. */
    method SpliceFound(body: string, fs: seq<Found>) returns (out: Option<string>, events: seq<RewriteEvent>)
      requires Sorted(fs, 0, |body|) && forall i :: 0 <= i < |fs| ==> ValidUtf8(fs[i].value)
      modifies registry
      ensures events == EventsOf(settings, fs) && (out.Some? <==> events != [])
      ensures (if out.Some? then out.value else body) == Spliced(body, fs, UrlRewrite(settings), 0)
      ensures registry.schemes == Registered(old(registry.schemes), events)
    {
      out, events := None, [];
      assert registry.schemes == Registered(registry.schemes, []);
      hide Scan, ValidUtf8, RewriteUrl, Spliced, EventsOf, Sorted, Registered, Quote, UrlRewrite;
      ghost var before := registry.schemes;
      ghost var f := UrlRewrite(settings);
      var last := 0;
      var buf := "";
      assert fs[0..] == fs && "" + Spliced(body, fs, f, 0) == Spliced(body, fs, f, 0);
      assert [] + EventsOf(settings, fs) == EventsOf(settings, fs);
      for i := 0 to |fs|
        invariant 0 <= last <= |body| && Sorted(fs[i..], last, |body|)
        invariant Spliced(body, fs, f, 0) == buf + Spliced(body, fs[i..], f, last)
        invariant EventsOf(settings, fs) == events + EventsOf(settings, fs[i..])
        invariant out == if events == [] then None else Some(buf)
        invariant events == [] ==> last == 0 && buf == ""
        invariant registry.schemes == Registered(before, events)
      {
        var item := fs[i];
        assert fs[i..][1..] == fs[i + 1..] && fs[i..][0] == item;
        SpliceOne(body, fs[i..], settings, last, buf);
        EventStep(settings, fs[i..], events);
        var r := RewriteOne(item.value);
        if r.Some? {
          var e := RewriteEvent(item.path, item.value, r.value.url, r.value.scheme, r.value.host);
          RegisteredSnoc(before, events, e);
          buf := buf + body[last..item.start];
          buf := buf + Quote(r.value.url);
          last := item.end;
          events := events + [e];
          out := Some(buf);
        }
      }
      assert fs[|fs|..] == [];
      SplicedEnd(body, f, last);
      EventsEnd(settings, events);
      if out.Some? {
        buf := buf + body[last..];
        out := Some(buf);
      } else {
        NothingSpliced(settings, body, fs);
      }
    }
  }

  /** One found string: its span is replaced, or nothing happens. */
  lemma SpliceOne(text: string, fs: seq<Found>, c: Settings, last: nat, buf: string)
    requires fs != [] && last <= |text| && Sorted(fs, last, |text|)
    ensures var g := fs[0];
            && last <= g.start <= g.end <= |text| && Sorted(fs[1..], g.end, |text|) && Sorted(fs[1..], last, |text|)
            && var f := UrlRewrite(c);
               match RewriteUrl(c, g.value)
               case None => Spliced(text, fs, f, last) == Spliced(text, fs[1..], f, last)
               case Some(r) =>
                 buf + Spliced(text, fs, f, last) ==
                 buf + text[last..g.start] + Quote(r.url) + Spliced(text, fs[1..], f, g.end)
  {
    hide RewriteUrl;
    var f := UrlRewrite(c);
    var g := fs[0];
    SortedBounds(fs[1..], g.end, |text|);
    SortedFrom(fs[1..], last, g.end, |text|);
    match f(g.value)
    case None =>
    case Some(u) =>
      var rest := Spliced(text, fs[1..], f, g.end);
      assert Spliced(text, fs, f, last) == text[last..g.start] + (Quote(u) + rest);
      hide Spliced, Quote;
      Regroup(buf, text[last..g.start], Quote(u), rest);
  }

  lemma SplicedEnd(text: string, f: Rewrite, last: nat)
    requires last <= |text|
    ensures Sorted([], last, |text|) && Spliced(text, [], f, last) == text[last..]
  {
  }

  lemma EventsEnd(c: Settings, events: seq<RewriteEvent>)
    ensures events + EventsOf(c, []) == events
  {
  }

  lemma Regroup(a: string, b: string, c: string, d: string)
    ensures a + (b + (c + d)) == a + b + c + d
  {
    assert b + (c + d) == b + c + d;
    assert a + (b + c + d) == a + (b + c) + d;
    assert a + (b + c) == a + b + c;
  }

  lemma EventStep(c: Settings, fs: seq<Found>, events: seq<RewriteEvent>)
    requires fs != []
    ensures match RewriteUrl(c, fs[0].value)
            case None => EventsOf(c, fs) == EventsOf(c, fs[1..])
            case Some(r) =>
              events + EventsOf(c, fs) ==
              events + [RewriteEvent(fs[0].path, fs[0].value, r.url, r.scheme, r.host)] + EventsOf(c, fs[1..])
  {
    hide RewriteUrl;
  }

  lemma RegisteredSnoc(m: Schemes, events: seq<RewriteEvent>, e: RewriteEvent)
    ensures Registered(m, events + [e]) == Allowed(Registered(m, events), e.host, e.scheme)
  {
    assert (events + [e])[..|events|] == events;
  }

  lemma ScanValuesValid(text: string)
    requires ValidUtf8(text) && Scan(text).Some?
    ensures forall i :: 0 <= i < |Scan(text).value| ==> ValidUtf8(Scan(text).value[i].value)
  {
    hide ValidUtf8, ParseDoc, FoundDoc, Denotes, QuotedAt;
    var d := ParseDoc(text).value;
    ParseExact(text, d);
    SpliceKeepsUtf8(text, d, _ => None);
    var fs := FoundDoc(d);
    assert text[0..] == text;
    forall i | 0 <= i < |fs|
      ensures ValidUtf8(fs[i].value)
    {
      assert QuotedAt(text, fs[i]);
      SpanInText(text, fs[i]);
      SpanIsValid(text, 0, fs[i]);
    }
  }

  lemma RawPathIsValid(raw: string)
    requires ValidUtf8(raw) && SplitUrl(raw).Some?
    ensures ValidUtf8(SplitUrl(raw).value.rawPath)
  {
    hide ValidUtf8, ValidHost, AfterLast;
    var scheme := SchemeOf(raw).value;
    var n := |scheme| + 3;
    assert raw[n - 1] == '/';
    ValidSplit(raw, n - 1);
    BeforeFirstIsValid('#', raw[n..]);
    var rest := BeforeFirst('#', raw[n..]);
    BeforeFirstIsValid('?', rest);
    FromFirstIsValid(BeforeFirst('?', rest));
  }

  lemma FromFirstIsValid(s: string)
    requires ValidUtf8(s)
    ensures ValidUtf8(s[|BeforeFirst('/', s)|..])
  {
    var n := Find('/', s);
    if n < |s| {
      ValidSplit(s, n);
    }
  }
}
