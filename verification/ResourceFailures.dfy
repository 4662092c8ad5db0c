/** URLs that are rewritten and not served back. */
module ResourceFailures {
  import opened Text
  import opened Percent
  import opened Urls
  import opened UrlParts
  import opened Hosts
  import opened Crypto
  import opened SessionMap
  import opened Resource
  import opened BasePath
  import opened AuthStore
  import opened ResourceRun

  // ---------------------------------------------------------------- a run with a restart

  lemma RunGoesOn(site: Site, es: seq<Edge>, events: seq<Event>, event: Event)
    requires IsRun(site, es, events) && MayHappen(es[|events|], event)
    ensures IsRun(site, es + [Next(site, es[|events|], event)], events + [event])
  {
    hide MayHappen, Next, Configured;
    var more, all := es + [Next(site, es[|events|], event)], events + [event];
    forall i | 0 <= i < |all|
      ensures MayHappen(more[i], all[i]) && more[i + 1] == Next(site, more[i], all[i])
    {
      assert i < |events| ==> MayHappen(es[i], events[i]) && es[i + 1] == Next(site, es[i], events[i]);
    }
  }

  lemma RewriteKeepsWorld(site: Site, e: Edge, raw: string)
    requires e.world.memory.Some?
    ensures Next(site, e, Rewrote(raw)).world == e.world
  {
    hide RewriteUrl, SettingsAt;
  }

  lemma StartsAfresh(w: World, random: string)
    requires w.memory.None? && random != "" && (w.file == Missing || w.file == Saved(random, map[]))
    ensures MayRun(w, Start(random, true))
    ensures Run(w, Start(random, true)).memory == Some(Memory(random, map[]))
    ensures Run(w, Start(random, true)).file == Saved(random, map[])
  {
  }

  /** Start, rewrite, stop, start again. */
  lemma RestartRun(site: Site, raw: string, random: string) returns (es: seq<Edge>, events: seq<Event>)
    requires random != ""
    ensures IsRun(site, es, events) && |es| == 5 && |events| == 4 && events[1] == Rewrote(raw) && IsStart(events[3])
    ensures es[4].world.memory.Some?
  {
    var start := Change(Start(random, true));
    var e0 := Edge(World(None, Missing, None), Configured(map[], site.initial));
    es, events := [e0], [];
    assert IsRun(site, es, events);
    hide IsRun, Configured, OpenFile;
    StartsAfresh(e0.world, random);
    RunGoesOn(site, es, events, start);
    es, events := es + [Next(site, e0, start)], events + [start];
    var e1 := es[1];
    RunGoesOn(site, es, events, Rewrote(raw));
    RewriteKeepsWorld(site, e1, raw);
    es, events := es + [Next(site, e1, Rewrote(raw))], events + [Rewrote(raw)];
    var e2 := es[2];
    RunGoesOn(site, es, events, Change(Stop));
    es, events := es + [Next(site, e2, Change(Stop))], events + [Change(Stop)];
    var e3 := es[3];
    StartsAfresh(e3.world, random);
    RunGoesOn(site, es, events, start);
    es, events := es + [Next(site, e3, start)], events + [start];
  }

  // ---------------------------------------------------------------- two URLs

  lemma BareTail()
    ensures Trim("/x") == "x"
  {
    assert TrimStart("/x") == "x" by {
      assert "/x"[1..] == "x";
    }
  }

  const PLAIN_HOST: string := "h"
  const BRACKETS: string := "[::1]"
  const PATH: string := "/x"
  const PLAIN_URL: string := "http://h/x"
  const BRACKETED_URL: string := "http://[::1]/x"

  function PartsOf(host: string): Parts {
    Parts("http", host, PATH, "")
  }

  function PiecesOf(host: string): Pieces {
    Pieces("http", None, host, PATH, None, None)
  }

  lemma TextIs(host: string)
    ensures UrlText(PiecesOf(host)) == "http" + "://" + (host + PATH)
  {
    assert "" + host + PATH + "" + "" == host + PATH;
  }

  lemma PathDecodes()
    ensures PercentDecode(PATH, false) == Some(PATH)
  {
    ValidAscii(PATH);
    RawDecodePlain(PATH, false);
    LossyOnValid(PATH);
  }

  lemma PlainHostIs()
    ensures GoodPieces(PiecesOf(PLAIN_HOST)) && All(KeptInPath, PLAIN_HOST) && UrlText(PiecesOf(PLAIN_HOST)) == PLAIN_URL
  {
    UrlParts.NoLast(':', PLAIN_HOST);
    TextIs(PLAIN_HOST);
    assert "http" + "://" + (PLAIN_HOST + PATH) == PLAIN_URL;
    hide UrlText;
  }

  lemma PlainUrlIs()
    ensures SplitUrl(PLAIN_URL) == Some(PartsOf(PLAIN_HOST)) && PercentDecode(PATH, false) == Some(PATH)
    ensures All(KeptInPath, PLAIN_HOST) && Trim(PATH) != ""
  {
    PlainHostIs();
    BareTail();
    PathDecodes();
    hide SplitUrl, PercentDecode, All, Trim, PLAIN_URL, GoodPieces, UrlText;
    SplitOfText(PiecesOf(PLAIN_HOST));
  }

  /** `http://h/x`, rewritten before a restart of a route without configured hosts, is refused after it
      for its host. */
  lemma ForgottenUrl(site: Site, random: string, token: Option<string>) returns (es: seq<Edge>, events: seq<Event>)
    requires random != "" && site.initial == [] && Trim(site.publicPath) == ""
    requires site.suite.Some? ==> Sound(site.suite.value)
    ensures IsRun(site, es, events) && |es| == 5 && |events| == 4 && events[1] == Rewrote(PLAIN_URL)
    ensures var printed := RewrittenPath(SettingsAt(site, es[1]), PartsOf(PLAIN_HOST), PATH);
            RESOURCE_PREFIX <= printed
            && ProxyResource(StateAt(site, es[4]), printed, None, token) == HostNotAllowed
  {
    PlainUrlIs();
    hide IsRun, SplitUrl, PercentDecode, RewrittenPath, ProxyResource, Trim, All, Sound, PLAIN_URL, PLAIN_HOST, PATH,
         SettingsAt, StateAt, ServedBack, Verify;
    es, events := RestartRun(site, PLAIN_URL, random);
    RestartForgets(site, es, events, 1, 4, PLAIN_URL, PATH, token);
  }

  lemma BracketsAre()
    ensures ValidHost(BRACKETS) && !All(KeptInPath, BRACKETS)
  {
    FindOfPrefix(']', "[::1", "]");
    assert "[::1" + "]" == BRACKETS;
    assert BRACKETS[5..] == "";
    assert !KeptInPath(BRACKETS[0]);
  }

  lemma BracketedText()
    ensures UrlText(PiecesOf(BRACKETS)) == BRACKETED_URL && NoControls(BRACKETED_URL)
  {
    TextIs(BRACKETS);
    hide UrlText;
    assert "http" + "://" == "http://" && BRACKETS + PATH == "[::1]/x";
    assert "http://" + "[::1]/x" == BRACKETED_URL;
  }

  lemma BracketedUrlIs()
    ensures SplitUrl(BRACKETED_URL) == Some(PartsOf(BRACKETS)) && PercentDecode(PATH, false) == Some(PATH)
  {
    BracketsAre();
    BracketedText();
    PathDecodes();
    hide ValidHost, SplitUrl, PercentDecode, UrlText, NoControls, BRACKETED_URL;
    assert GoodPieces(PiecesOf(BRACKETS));
    SplitOfText(PiecesOf(BRACKETS));
  }

  /** `http://[::1]/x` is rewritten and never served back: brackets are escaped in the path. */
  lemma BracketedHost(st: RouteState, c: Settings, token: Option<string>, query: Option<string>)
    requires MayEnter(st, c, token)
    ensures RewriteUrl(c, BRACKETED_URL).Some?
    ensures !ServedBack(st, RewrittenPath(c, PartsOf(BRACKETS), PATH), token, PartsOf(BRACKETS), PATH, query)
  {
    BracketedUrlIs();
    BracketsAre();
    hide SplitUrl, PercentDecode, RewrittenPath, RewriteUrl, MayEnter, ServedBack, All, BRACKETED_URL, BRACKETS, PATH;
    UrlSplits(c, BRACKETED_URL, PATH);
    RoundTrip(st, c, token, BRACKETED_URL, PATH, query);
  }
}
