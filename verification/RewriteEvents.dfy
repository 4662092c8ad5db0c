/** What a rewrite reports and registers. */
module RewriteEvents {
  import opened Text
  import opened Json
  import opened JsonProofs
  import opened ScanSpec
  import opened Meaning
  import opened Urls
  import opened Hosts
  import opened Rewriter

  /** `e` is the report of a rewrite of the string at `route`. */
  ghost predicate ReportsAt(c: Settings, t: Tree, route: seq<Segment>, e: RewriteEvent) {
    && At(t, route, e.original) && e.path == PathText(route)
    && RewriteUrl(c, e.original) == Some(Rewritten(e.rewritten, e.scheme, e.host))
  }

  lemma {:induction false} EventsOfFound(c: Settings, fs: seq<Found>, e: RewriteEvent)
    ensures e in EventsOf(c, fs) <==>
            (e.path, e.original) in Reports(fs) && RewriteUrl(c, e.original) == Some(Rewritten(e.rewritten, e.scheme, e.host))
  {
    hide RewriteUrl;
    if fs != [] {
      EventsOfFound(c, fs[1..], e);
    }
  }

  lemma {:induction false} UrlReportsHave(ss: seq<(seq<Segment>, string)>, path: string, s: string)
    ensures (path, s) in UrlReports(ss) <==> IsUrl(s) && exists r :: (r, s) in ss && PathText(r) == path
  {
    hide PathText, IsUrl;
    if ss != [] {
      UrlReportsHave(ss[1..], path, s);
      var first := ss[0];
      assert ss == [first] + ss[1..];
      if first.1 == s && PathText(first.0) == path {
        assert (first.0, s) in ss;
      }
      if exists r :: (r, s) in ss[1..] && PathText(r) == path {
        var r :| (r, s) in ss[1..] && PathText(r) == path;
        assert (r, s) in ss;
      }
    }
  }

  /** The events of a body are exactly the rewrites of the strings of its tree: each with the path of a
      route that leads to it, its text, and what it is rewritten to. */
  lemma EventsExact(c: Settings, body: string, d: Doc, e: RewriteEvent)
    requires ValidUtf8(body) && ParseDoc(body) == Some(d)
    ensures e in EventsIn(c, body) <==> exists route :: ReportsAt(c, TreeOf(d.x.v), route, e)
  {
    var t := TreeOf(d.x.v);
    ParseExact(body, d);
    DocReports(body, d);
    if RewriteUrl(c, e.original).Some? {
      RewritesOnlyUrls(c, e.original);
    }
    hide ParseDoc, TreeOf, Denotes, FoundDoc, RewriteUrl, ValidUtf8, Strings, UrlReports, PathText, At, EventsOf, Reports, IsUrl;
    EventsOfFound(c, FoundDoc(d), e);
    UrlReportsHave(Strings(t, []), e.path, e.original);
    if e in EventsIn(c, body) {
      var r :| (r, e.original) in Strings(t, []) && PathText(r) == e.path;
      RoutesExact(t, r, e.original);
      assert ReportsAt(c, t, r, e);
    }
    if exists route :: ReportsAt(c, t, route, e) {
      var r :| ReportsAt(c, t, r, e);
      RoutesExact(t, r, e.original);
      assert (r, e.original) in Strings(t, []);
    }
  }

  /** A body that is not UTF-8 or not JSON is not reported on. */
  lemma NoEvents(c: Settings, body: string)
    requires !ValidUtf8(body) || ParseDoc(body).None?
    ensures EventsIn(c, body) == []
  {
  }

  /** After a rewrite the registry holds what it held and the host of every event. */
  lemma {:induction false} RegisteredExact(m: Schemes, events: seq<RewriteEvent>, host: string)
    ensures host in Registered(m, events) <==> host in m || (host != "" && exists i :: 0 <= i < |events| && events[i].host == host)
    decreases |events|
  {
    if events != [] {
      var n := |events| - 1;
      RegisteredExact(m, events[..n], host);
      AllowedExact(Registered(m, events[..n]), events[n].host, events[n].scheme, host);
      hide Registered, Allowed;
      assert forall i :: 0 <= i < n ==> events[..n][i] == events[i];
    }
  }
}
