/** The resource endpoint (`proxy_resource` in src/server/route.rs) against the URLs the rewriter
    hands out. */
module Resource {
  import opened Text
  import opened Percent
  import opened Urls
  import opened UrlParts
  import opened Hosts
  import opened Crypto
  import opened SessionMap

  const RESOURCE_PREFIX: string := "/_proxy/"

  datatype Auth = Auth(suite: Suite, secret: string, sessions: Sessions)

  /** What a route's resource endpoint reads: its key, the auth store when enabled, the registry. */
  datatype RouteState = RouteState(key: string, auth: Option<Auth>, registry: Schemes)

  datatype Decision =
    | InvalidScheme
    | MissingHost
    | NotAuthorized
    | HostNotAllowed
    | Forward(scheme: string, host: string, rest: string, target: string)

  predicate IsHttpScheme(s: string) {
    s == "http" || s == "https"
  }

  /** The text before the first slash, and what follows it. */
  function SplitFirst(path: string): (string, Option<string>) {
    var n := Find('/', path);
    if n == |path| then (path, None) else (path[..n], Some(path[n + 1..]))
  }

  predicate Authorized(a: Auth, key: string, first: string, scheme: string, host: string, token: Option<string>) {
    if IsHttpScheme(first) then IsValid(a.sessions, if token.Some? then token.value else "", key)
    else Verify(a.suite, a.secret, first, [key, scheme, host])
  }

  function Target(scheme: string, host: string, rest: string, query: Option<string>): string {
    scheme + "://" + host + "/" + rest + (if query.Some? then "?" + query.value else "")
  }

  /** The segments of a path after the resource prefix: the first one, scheme, host and the rest. */
  datatype Reading = NoScheme | NoHost | Reading(first: string, scheme: string, host: string, rest: string)

  function ReadPath(auth: bool, path: string): Reading {
    var (first, after) := SplitFirst(path);
    var (scheme, remainder) :=
      if auth && !IsHttpScheme(first) && after.Some? then SplitFirst(after.value) else (first, after);
    if remainder.None? || !IsHttpScheme(scheme) then NoScheme else
    var (host, rest) := SplitFirst(remainder.value);
    if rest.None? || host == "" then NoHost else Reading(first, scheme, host, rest.value)
  }

  /** The decision for a request path under the resource prefix; `token` is the access token the
      request carries. */
  function ProxyResource(st: RouteState, path: string, query: Option<string>, token: Option<string>): Decision
    requires RESOURCE_PREFIX <= path
  {
    match ReadPath(st.auth.Some?, path[|RESOURCE_PREFIX|..])
    case NoScheme => InvalidScheme
    case NoHost => MissingHost
    case Reading(first, scheme, host, rest) =>
      if st.auth.Some? && !Authorized(st.auth.value, st.key, first, scheme, host, token) then NotAuthorized
      else if host !in st.registry then HostNotAllowed
      else Forward(scheme, host, rest, Target(scheme, host, rest, query))
  }

  // ---------------------------------------------------------------- the path the rewriter prints

  /** The signature segment of a rewritten path, with its slash. */
  function SignatureSegment(c: Settings, p: Parts): string {
    if c.sign.Some? then c.sign.value(p.scheme, p.host) + "/" else ""
  }

  function PathTail(path: string): string {
    if Trim(path) == "" then "" else "/" + EscapePath(Trim(path))
  }

  function PrintedPath(c: Settings, p: Parts, path: string): string {
    RESOURCE_PREFIX + (SignatureSegment(c, p) + (p.scheme + ("/" + (EscapePath(p.host) + PathTail(path)))))
  }

  /** Signatures are texts of the URL-safe alphabet, 22 characters long. */
  ghost predicate SoundSigner(c: Settings) {
    c.sign.Some? ==> forall scheme, host :: IsSignature(c.sign.value(scheme, host))
  }

  predicate IsSignature(s: string) {
    |s| == 22 && All(IsUrlSafe, s)
  }

  predicate GoodParts(p: Parts) {
    && IsHttpScheme(p.scheme) && p.host != "" && '/' !in p.host
    && ValidHost(p.host) && NoMarks(p.host) && '@' !in p.host && NoControls(p.host)
  }

  lemma NoSlash(s: string)
    requires s != "" && '/' !in s
    ensures Trim(s) == s
  {
    assert s[0] in s && s[|s| - 1] in s;
    TrimNothing(s);
  }

  lemma SignatureHasNoSlash(s: string)
    requires IsSignature(s)
    ensures '/' !in s && All(KeptInPath, s) && !IsHttpScheme(s)
  {
    assert forall i :: 0 <= i < |s| ==> IsUrlSafe(s[i]);
  }

  lemma SchemeIsPlain(s: string)
    requires IsHttpScheme(s)
    ensures '/' !in s && All(KeptInPath, s) && s != ""
  {
  }

  lemma JoinCons(part: string, parts: seq<string>)
    requires part != "" && '/' !in part
    ensures JoinParts([part] + parts) == "/" + (part + JoinParts(parts))
  {
    hide Trim;
    NoSlash(part);
    assert ([part] + parts)[1..] == parts;
    assert "/" + part + JoinParts(parts) == "/" + (part + JoinParts(parts));
  }

  lemma JoinLast(path: string)
    ensures JoinParts([TrimStart(path)]) == if Trim(path) == "" then "" else "/" + Trim(path)
  {
    hide Trim, TrimStart;
    TrimTwice(path);
    var parts := [TrimStart(path)];
    assert parts[1..] == [];
    assert JoinParts([]) == "";
    assert "/" + Trim(path) + "" == "/" + Trim(path);
  }

  lemma JoinBase(base: string, parts: seq<string>)
    requires Trim(base) == ""
    ensures JoinParts([base] + parts) == JoinParts(parts)
  {
    hide Trim;
    assert ([base] + parts)[1..] == parts;
    assert "" + JoinParts(parts) == JoinParts(parts);
  }

  /** The end of the joined path: scheme, host and resource path. */
  function JoinedEnd(p: Parts, path: string): string {
    "/" + (p.scheme + ("/" + (p.host + (if Trim(path) == "" then "" else "/" + Trim(path)))))
  }

  lemma JoinedPath(c: Settings, p: Parts, path: string)
    requires GoodParts(p) && SoundSigner(c) && Trim(c.publicPath) == ""
    ensures JoinUrlPath(c.publicPath, PathParts(c, p, path)) ==
            "/" + ("_proxy" + (if c.sign.Some? then "/" + (c.sign.value(p.scheme, p.host) + JoinedEnd(p, path))
                               else JoinedEnd(p, path)))
  {
    hide JoinParts, Trim, TrimStart, IsSignature, IsHttpScheme;
    var end := [p.scheme, p.host, TrimStart(path)];
    SchemeIsPlain(p.scheme);
    JoinCons(p.scheme, [p.host, TrimStart(path)]);
    JoinCons(p.host, [TrimStart(path)]);
    JoinLast(path);
    assert [p.scheme] + [p.host, TrimStart(path)] == end;
    assert [p.host] + [TrimStart(path)] == [p.host, TrimStart(path)];
    JoinBase(c.publicPath, PathParts(c, p, path));
    if c.sign.Some? {
      var sig := c.sign.value(p.scheme, p.host);
      assert IsSignature(sig);
      SignatureHasNoSlash(sig);
      SignatureNotEmpty(sig);
      JoinCons(sig, end);
      JoinCons("_proxy", [sig] + end);
      assert PathParts(c, p, path) == ["_proxy"] + ([sig] + end);
    } else {
      JoinCons("_proxy", end);
      assert PathParts(c, p, path) == ["_proxy"] + end;
    }
  }

  lemma SignatureNotEmpty(s: string)
    requires IsSignature(s)
    ensures s != ""
  {
  }

  lemma EscapeKept(a: string, b: string)
    requires All(KeptInPath, a)
    ensures EscapePath(a + b) == a + EscapePath(b)
  {
    EscapePathConcat(a, b);
    EscapePathKeeps(a);
  }

  lemma EscapeEnd(p: Parts, path: string)
    requires GoodParts(p)
    ensures EscapePath(JoinedEnd(p, path)) == "/" + (p.scheme + ("/" + (EscapePath(p.host) + PathTail(path))))
  {
    hide EscapePath, Trim, IsHttpScheme;
    SchemeIsPlain(p.scheme);
    var t := if Trim(path) == "" then "" else "/" + Trim(path);
    assert EscapePath(t) == PathTail(path) by {
      EscapeNothing();
      EscapeKept("/", Trim(path));
    }
    EscapePathConcat(p.host, t);
    EscapeKept("/", p.host + t);
    EscapeKept(p.scheme, "/" + (p.host + t));
    EscapeKept("/", p.scheme + ("/" + (p.host + t)));
  }

  lemma EscapeNothing()
    ensures EscapePath("") == ""
  {
  }

  /** The rewriter's escaped, joined path, spelled out. */
  lemma PathIsPrinted(c: Settings, p: Parts, path: string)
    requires GoodParts(p) && SoundSigner(c) && Trim(c.publicPath) == ""
    ensures RewrittenPath(c, p, path) == PrintedPath(c, p, path)
  {
    hide EscapePath, JoinUrlPath, PathTail, Trim, JoinedEnd, IsSignature;
    JoinedPath(c, p, path);
    EscapeEnd(p, path);
    var e := JoinedEnd(p, path);
    var tail := p.scheme + ("/" + (EscapePath(p.host) + PathTail(path)));
    if c.sign.Some? {
      var sig := c.sign.value(p.scheme, p.host);
      assert IsSignature(sig);
      SignatureHasNoSlash(sig);
      EscapeKept(sig, e);
      EscapeKept("/", sig + e);
      EscapeKept("_proxy", "/" + (sig + e));
      EscapeKept("/", "_proxy" + ("/" + (sig + e)));
      PrefixGlue(sig + ("/" + tail));
      assert sig + "/" + tail == sig + ("/" + tail);
    } else {
      EscapeKept("_proxy", e);
      EscapeKept("/", "_proxy" + e);
      PrefixGlue(tail);
      assert "" + tail == tail;
    }
  }

  lemma PrefixGlue(s: string)
    ensures "/" + ("_proxy" + ("/" + s)) == RESOURCE_PREFIX + s
  {
  }

  // ---------------------------------------------------------------- reading it back

  lemma SplitAtSlash(a: string, b: string)
    requires '/' !in a
    ensures SplitFirst(a + ("/" + b)) == (a, Some(b))
  {
    FindOfPrefix('/', a, "/" + b);
    assert (a + ("/" + b))[|a| + 1..] == b;
  }

  lemma SplitNoSlash(a: string)
    requires '/' !in a
    ensures SplitFirst(a) == (a, None)
  {
    FindOfPrefix('/', a, "");
    assert a + "" == a;
  }

  lemma {:induction false} EscapeKeepsSlashes(s: string)
    requires '/' !in s
    ensures '/' !in EscapePath(s)
    ensures s != "" ==> EscapePath(s) != ""
  {
    if s != "" {
      assert '/' !in PathByte(s[0]) by {
        assert s[0] in s;
      }
      EscapeKeepsSlashes(s[1..]);
    }
  }

  /** How the endpoint may be reached: without auth by unsigned URLs; with auth by URLs signed with
      the store's secret, or unsigned with a token of this route. */
  ghost predicate MayEnter(st: RouteState, c: Settings, token: Option<string>) {
    match st.auth
    case None => c.sign.None?
    case Some(a) =>
      if c.sign.Some? then
        Sound(a.suite)
        && forall scheme, host :: c.sign.value(scheme, host) == Sign(a.suite, a.secret, [st.key, scheme, host])
      else Sound(a.suite) && token.Some? && IsValid(a.sessions, token.value, st.key)
  }

  lemma EntrySigner(st: RouteState, c: Settings, token: Option<string>)
    requires MayEnter(st, c, token)
    ensures SoundSigner(c)
  {
    if c.sign.Some? {
      var a := st.auth.value;
      forall scheme, host
        ensures IsSignature(c.sign.value(scheme, host))
      {
        SignedVerifies(a.suite, a.secret, [st.key, scheme, host]);
      }
    }
  }

  /** The text after the resource prefix is read back into its parts. */
  lemma ReadPrinted(c: Settings, p: Parts, path: string, auth: bool)
    requires GoodParts(p) && SoundSigner(c) && (c.sign.Some? ==> auth)
    ensures RESOURCE_PREFIX <= PrintedPath(c, p, path)
    ensures ReadPath(auth, PrintedPath(c, p, path)[|RESOURCE_PREFIX|..]) ==
            if Trim(path) == "" then NoHost
            else Reading(if c.sign.Some? then c.sign.value(p.scheme, p.host) else p.scheme,
                         p.scheme, EscapePath(p.host), EscapePath(Trim(path)))
  {
    hide EscapePath, Trim, SplitFirst;
    var host := EscapePath(p.host);
    var end := host + PathTail(path);
    var tail := p.scheme + ("/" + end);
    Cut(RESOURCE_PREFIX, SignatureSegment(c, p) + tail);
    SchemeIsPlain(p.scheme);
    EscapeKeepsSlashes(p.host);
    SplitAtSlash(p.scheme, end);
    if Trim(path) == "" {
      assert end == host;
      SplitNoSlash(host);
    } else {
      SplitAtSlash(host, EscapePath(Trim(path)));
    }
    if c.sign.Some? {
      var sig := c.sign.value(p.scheme, p.host);
      assert IsSignature(sig);
      SignatureHasNoSlash(sig);
      assert sig + "/" + tail == sig + ("/" + tail);
      SplitAtSlash(sig, tail);
    } else {
      assert "" + tail == tail;
    }
  }

  /** What a request must carry is there, for the host as it was rewritten. */
  lemma Entered(st: RouteState, c: Settings, token: Option<string>, p: Parts)
    requires GoodParts(p) && MayEnter(st, c, token) && st.auth.Some?
    ensures var first := if c.sign.Some? then c.sign.value(p.scheme, p.host) else p.scheme;
            Authorized(st.auth.value, st.key, first, p.scheme, p.host, token)
  {
    if c.sign.Some? {
      var a := st.auth.value;
      SignedVerifies(a.suite, a.secret, [st.key, p.scheme, p.host]);
      SignatureHasNoSlash(Sign(a.suite, a.secret, [st.key, p.scheme, p.host]));
    }
  }

  /** The endpoint's decision on a printed path. */
  lemma ReadBack(st: RouteState, c: Settings, token: Option<string>, p: Parts, path: string, query: Option<string>)
    requires GoodParts(p) && MayEnter(st, c, token)
    ensures RESOURCE_PREFIX <= PrintedPath(c, p, path)
    ensures var d := ProxyResource(st, PrintedPath(c, p, path), query, token);
            var rest := EscapePath(Trim(path));
            if Trim(path) == "" then d == MissingHost
            else if EscapePath(p.host) == p.host && p.host in st.registry then
              d == Forward(p.scheme, p.host, rest, Target(p.scheme, p.host, rest, query))
            else d.Forward? ==> d.host == EscapePath(p.host) && d.host in st.registry
  {
    hide EscapePath, Trim, Target, ReadPath, PrintedPath, Authorized;
    EntrySigner(st, c, token);
    ReadPrinted(c, p, path, st.auth.Some?);
    if st.auth.Some? {
      Entered(st, c, token, p);
    }
  }

  /** No fragment mark and no control character, as in the query of every request. */
  predicate CleanQuery(query: Option<string>) {
    '#' !in OrEmpty(query) && NoControls(OrEmpty(query))
  }

  /** What is fetched is the URL of this scheme, host and query, and of a path that decodes to `path`
      without its outer slashes; read as a URL it has these parts. */
  ghost predicate Fetches(target: string, p: Parts, path: string, query: Option<string>) {
    exists rawPath ::
      && PercentDecode(rawPath, false) == Some("/" + Trim(path))
      && target == UrlText(Pieces(p.scheme, None, p.host, rawPath, query, None))
      && (CleanQuery(query) ==> SplitUrl(target) == Some(Parts(p.scheme, p.host, rawPath, OrEmpty(query))))
  }

  /** What the endpoint makes of a printed path is what the rewritten URL said. */
  ghost predicate SameResource(d: Decision, p: Parts, path: string, query: Option<string>) {
    && d.Forward? && d.scheme == p.scheme && d.host == p.host
    && PercentDecode(d.rest, false) == Some(Trim(path))
    && Fetches(d.target, p, path, query)
  }

  lemma EscapedIsClean(s: string)
    ensures NoMarks(EscapePath(s)) && NoControls(EscapePath(s))
  {
    hide EscapePath;
    EscapePathBytes(s);
    var t := EscapePath(s);
    forall i | 0 <= i < |t|
      ensures t[i] != '?' && t[i] != '#' && !IsControl(t[i])
    {
      assert EscapedInPath(t[i]);
    }
  }

  lemma NoControlsConcat(a: string, b: string)
    ensures NoControls(a + b) <==> NoControls(a) && NoControls(b)
  {
    if NoControls(a + b) {
      forall i | 0 <= i < |a|
        ensures 0x20 <= a[i] as int && a[i] as int != 0x7F
      {
        assert (a + b)[i] == a[i];
      }
      forall i | 0 <= i < |b|
        ensures 0x20 <= b[i] as int && b[i] as int != 0x7F
      {
        assert (a + b)[|a| + i] == b[i];
      }
    }
  }

  lemma ShortTextsAreClean()
    ensures NoControls("http") && NoControls("https") && NoControls("://") && NoControls("") && NoControls("/")
    ensures NoControls("?")
  {
  }

  lemma TargetIsClean(p: Parts, rawPath: string, query: Option<string>)
    requires GoodParts(p) && NoControls(rawPath) && CleanQuery(query)
    ensures NoControls(UrlText(Pieces(p.scheme, None, p.host, rawPath, query, None)))
  {
    ShortTextsAreClean();
    assert NoControls(p.scheme);
    var q := After('?', query);
    assert NoControls(q) by {
      if query.Some? {
        assert q == "?" + query.value;
        NoControlsConcat("?", query.value);
      }
    }
    hide NoControls, After;
    var front := "" + p.host + rawPath + q + "";
    NoControlsConcat("", p.host);
    NoControlsConcat("" + p.host, rawPath);
    NoControlsConcat("" + p.host + rawPath, q);
    NoControlsConcat("" + p.host + rawPath + q, "");
    NoControlsConcat(p.scheme, "://");
    NoControlsConcat(p.scheme + "://", front);
    NothingAfter();
  }

  lemma NothingAfter()
    ensures After('#', None) == "" && Before(None) == ""
  {
  }

  lemma TargetText(scheme: string, host: string, rest: string, query: Option<string>)
    ensures Target(scheme, host, rest, query) == UrlText(Pieces(scheme, None, host, "/" + rest, query, None))
  {
    var q := if query.Some? then "?" + query.value else "";
    assert After('?', query) == q;
    NothingAfter();
    var head := scheme + "://";
    assert "" + host + ("/" + rest) + q + "" == host + "/" + rest + q;
    assert head + (host + "/" + rest + q) == head + host + "/" + rest + q;
  }

  lemma TargetFetches(p: Parts, path: string, query: Option<string>)
    requires GoodParts(p) && ValidUtf8(path)
    ensures Fetches(Target(p.scheme, p.host, EscapePath(Trim(path)), query), p, path, query)
  {
    var t := Trim(path);
    var rawPath := "/" + EscapePath(t);
    TrimIsValid(path);
    assert PercentDecode(rawPath, false) == Some("/" + t) by {
      EscapeKept("/", t);
      ValidAscii("/");
      ValidConcat("/", t);
      PathRoundTrips("/" + t);
    }
    EscapedIsClean(t);
    ShortTextsAreClean();
    hide EscapePath, Trim, PercentDecode, ValidHost, IsControl, ValidUtf8, SplitUrl;
    TargetText(p.scheme, p.host, EscapePath(t), query);
    var u := Pieces(p.scheme, None, p.host, rawPath, query, None);
    if CleanQuery(query) {
      NoControlsConcat("/", EscapePath(t));
      TargetIsClean(p, rawPath, query);
      NotIn('?', "/", EscapePath(t));
      NotIn('#', "/", EscapePath(t));
      hide NoControls, UrlText;
      assert GoodPieces(u);
      SplitOfText(u);
    }
  }

  /** For a route without a base path: the endpoint takes the printed path back exactly when every
      byte of the host is one `escape_path` keeps, the path has a character that is not a slash and
      the host is registered. */
  lemma PrintedServed(st: RouteState, c: Settings, token: Option<string>, p: Parts, path: string, query: Option<string>)
    requires GoodParts(p) && ValidUtf8(path) && MayEnter(st, c, token)
    ensures RESOURCE_PREFIX <= PrintedPath(c, p, path)
    ensures SameResource(ProxyResource(st, PrintedPath(c, p, path), query, token), p, path, query)
            <==> All(KeptInPath, p.host) && Trim(path) != "" && p.host in st.registry
  {
    hide PrintedPath, Trim, EscapePath, ProxyResource, PercentDecode, Target, ValidUtf8, MayEnter, Fetches, ValidHost;
    ReadBack(st, c, token, p, path, query);
    EscapePathKeeps(p.host);
    TrimIsValid(path);
    PathRoundTrips(Trim(path));
    TargetFetches(p, path, query);
  }

  /** The parts of a URL that is rewritten. */
  lemma PartsAreGood(raw: string)
    requires SplitUrl(raw).Some?
    ensures GoodParts(SplitUrl(raw).value) && CleanQuery(Some(SplitUrl(raw).value.query))
  {
    var u := TextOfSplit(raw);
    hide SplitUrl, ValidHost, IsControl, NoControls, Before, After;
    var rest := RestText(u);
    var a := Before(u.user) + u.host;
    NoControlsConcat(u.scheme + "://", rest);
    NoControlsConcat(a + u.path + After('?', u.query), After('#', u.fragment));
    NoControlsConcat(a + u.path, After('?', u.query));
    NoControlsConcat(a, u.path);
    NoControlsConcat(Before(u.user), u.host);
    QueryIsClean(u.query);
    HostIsThere(u.host);
  }

  lemma HostIsThere(host: string)
    requires ValidHost(host)
    ensures host != ""
  {
  }

  lemma QueryIsClean(query: Option<string>)
    requires NoControls(After('?', query))
    ensures NoControls(OrEmpty(query))
  {
    if query.Some? {
      NoControlsConcat("?", query.value);
      assert After('?', query) == "?" + query.value;
    }
  }

  /** A printed path whose host is not registered is refused for that reason. */
  lemma PrintedRefused(st: RouteState, c: Settings, token: Option<string>, p: Parts, path: string, query: Option<string>)
    requires GoodParts(p) && MayEnter(st, c, token) && Trim(path) != "" && All(KeptInPath, p.host)
    requires p.host !in st.registry
    ensures RESOURCE_PREFIX <= PrintedPath(c, p, path)
    ensures ProxyResource(st, PrintedPath(c, p, path), query, token) == HostNotAllowed
  {
    EscapePathKeeps(p.host);
    hide EscapePath, Trim, Target, ReadPath, PrintedPath, Authorized;
    EntrySigner(st, c, token);
    ReadPrinted(c, p, path, st.auth.Some?);
    if st.auth.Some? {
      Entered(st, c, token, p);
    }
  }

  lemma EscapedHasNoMarks(s: string)
    ensures '?' !in EscapePath(s) && '#' !in EscapePath(s)
  {
    hide EscapePath;
    EscapePathBytes(s);
    var t := EscapePath(s);
    forall i | 0 <= i < |t|
      ensures t[i] != '?' && t[i] != '#'
    {
      assert EscapedInPath(t[i]);
    }
  }

  function QueryPart(query: string): string {
    if query == "" then "" else "?" + query
  }

  lemma SplitsAtQuestion(printed: string, query: string)
    requires '?' !in printed
    ensures BeforeFirst('?', printed + QueryPart(query)) == printed
    ensures AfterFirst('?', printed + QueryPart(query)) == query
  {
    FindOfPrefix('?', printed, QueryPart(query));
    if query != "" {
      assert (printed + QueryPart(query))[|printed| + 1..] == query;
    }
  }

  /** A client splits the rewritten URL into exactly that path and the original query. */
  lemma UrlSplits(c: Settings, raw: string, path: string)
    requires SplitUrl(raw).Some? && PercentDecode(SplitUrl(raw).value.rawPath, false) == Some(path)
    ensures var p := SplitUrl(raw).value;
            var printed := RewrittenPath(c, p, path);
            && RewriteUrl(c, raw) ==
               Some(Rewritten(c.scheme + "://" + c.host + printed + QueryPart(p.query), p.scheme, p.host))
            && '#' !in printed && '#' !in p.query
            && BeforeFirst('?', printed + QueryPart(p.query)) == printed
            && AfterFirst('?', printed + QueryPart(p.query)) == p.query
  {
    QueryBytes(raw);
    var p := SplitUrl(raw).value;
    hide SplitUrl, JoinUrlPath, EscapePath, BeforeFirst, AfterFirst, PercentDecode;
    EscapedHasNoMarks(JoinUrlPath(c.publicPath, PathParts(c, p, path)));
    SplitsAtQuestion(RewrittenPath(c, p, path), p.query);
  }
}
