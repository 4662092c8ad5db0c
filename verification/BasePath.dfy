/** Routes whose public URL has a base path, and the round trip of every route. The endpoint looks for
    its prefix at the start of a path, so under a base path no rewritten URL is served back. */
module BasePath {
  import opened Text
  import opened Percent
  import opened Urls
  import opened Hosts
  import opened Crypto
  import opened SessionMap
  import opened Resource

  // ---------------------------------------------------------------- counting slashes

  function Slashes(s: string): nat {
    if s == "" then 0 else (if s[0] == '/' then 1 else 0) + Slashes(s[1..])
  }

  lemma {:induction false} SlashesConcat(a: string, b: string)
    ensures Slashes(a + b) == Slashes(a) + Slashes(b)
  {
    if a == "" {
      assert a + b == b;
    } else {
      SlashesConcat(a[1..], b);
      assert (a + b)[1..] == a[1..] + b;
    }
  }

  lemma {:induction false} NoSlashes(s: string)
    ensures Slashes(s) == 0 <==> '/' !in s
  {
    if s != "" {
      NoSlashes(s[1..]);
      assert s == [s[0]] + s[1..];
    }
  }

  lemma OneSlash()
    ensures Slashes("/") == 1
  {
    assert "/"[1..] == "";
  }

  lemma SlashesOfByte(c: char)
    ensures Slashes(PathByte(c)) == if c == '/' then 1 else 0
  {
    NoSlashes(PathByte(c));
    OneSlash();
  }

  lemma {:induction false} EscapeSlashes(s: string)
    ensures Slashes(EscapePath(s)) == Slashes(s)
  {
    hide PathByte;
    if s != "" {
      EscapeSlashes(s[1..]);
      SlashesOfByte(s[0]);
      SlashesConcat(PathByte(s[0]), EscapePath(s[1..]));
    }
  }

  /** Every slash of an escaped text is one of the decoded text. */
  lemma {:induction false} RawSlashes(s: string)
    requires RawDecode(s, false).Some?
    ensures Slashes(RawDecode(s, false).value) >= Slashes(s)
    ensures s != "" ==> RawDecode(s, false).value != ""
  {
    if s == "" {
    } else if s[0] == '%' {
      RawSlashes(s[3..]);
      var t := RawDecode(s[3..], false).value;
      assert ([EscapeValue(s)] + t)[1..] == t;
      NoSlashes(s[..3]);
      SlashesConcat(s[..3], s[3..]);
      SplitAt(s, 3);
    } else {
      RawSlashes(s[1..]);
      var t := RawDecode(s[1..], false).value;
      assert ([s[0]] + t)[1..] == t;
    }
  }

  /** The bytes of an ill-formed piece are not ASCII. */
  lemma UnitSlashes(s: string)
    requires s != ""
    ensures var u := FirstUnit(s);
            Slashes(if u.ok then s[..u.len] else REPLACEMENT) == Slashes(s[..u.len])
  {
    var u := FirstUnit(s);
    if !u.ok {
      NoSlashes(s[..u.len]);
      NoSlashes(REPLACEMENT);
    }
  }

  lemma {:induction false} LossySlashes(s: string)
    ensures Slashes(Lossy(s)) == Slashes(s)
    ensures s != "" ==> Lossy(s) != ""
    decreases |s|
  {
    if s != "" {
      var u := FirstUnit(s);
      LossySlashes(s[u.len..]);
      UnitSlashes(s);
      hide FirstUnit;
      SlashesConcat(if u.ok then s[..u.len] else REPLACEMENT, Lossy(s[u.len..]));
      SlashesConcat(s[..u.len], s[u.len..]);
      SplitAt(s, u.len);
    }
  }

  lemma DecodedSlashes(s: string)
    requires PercentDecode(s, false).Some?
    ensures Slashes(PercentDecode(s, false).value) >= Slashes(s)
    ensures PercentDecode(s, false).value == "" ==> s == ""
  {
    RawSlashes(s);
    LossySlashes(RawDecode(s, false).value);
  }

  // ---------------------------------------------------------------- what the endpoint takes off

  lemma SplitSlashes(s: string)
    requires SplitFirst(s).1.Some?
    ensures var (a, b) := SplitFirst(s);
            '/' !in a && s == a + ("/" + b.value) && Slashes(s) == 1 + Slashes(b.value)
  {
    var n := Find('/', s);
    FindIsFirst('/', s);
    SplitAround(s, n);
    NoSlashes(s[..n]);
    SlashesConcat(s[..n], "/" + s[n + 1..]);
    SlashesConcat("/", s[n + 1..]);
    OneSlash();
  }

  lemma EndsAfter(a: string, b: string)
    ensures (a + ("/" + b))[|a| + 1..] == b
    ensures b == "" ==> (a + ("/" + b))[|a + ("/" + b)| - 1] == '/'
  {
  }

  /** Scheme and host, and the first segment when it is not a scheme, come off with a slash each. */
  lemma ReadSlashes(auth: bool, path: string)
    requires ReadPath(auth, path).Reading?
    ensures var r := ReadPath(auth, path);
            && r.first == SplitFirst(path).0
            && Slashes(path) == Slashes(r.rest) + (if auth && !IsHttpScheme(r.first) then 3 else 2)
            && (r.rest == "" ==> path != "" && path[|path| - 1] == '/')
  {
    hide SplitFirst, Slashes;
    var (first, after) := SplitFirst(path);
    SplitSlashes(path);
    EndsAfter(first, after.value);
    if auth && !IsHttpScheme(first) {
      var (scheme, remainder) := SplitFirst(after.value);
      SplitSlashes(after.value);
      var (host, rest) := SplitFirst(remainder.value);
      SplitSlashes(remainder.value);
      EndsAfter(scheme, remainder.value);
      EndsAfter(host, rest.value);
    } else {
      var (host, rest) := SplitFirst(after.value);
      SplitSlashes(after.value);
      EndsAfter(host, rest.value);
    }
  }

  // ---------------------------------------------------------------- the path under a base path

  lemma BasePrinted(c: Settings, p: Parts, path: string)
    requires GoodParts(p) && SoundSigner(c) && Trim(c.publicPath) != ""
    ensures RewrittenPath(c, p, path) == "/" + (EscapePath(Trim(c.publicPath)) + PrintedPath(c, p, path))
  {
    var root := c.(publicPath := "");
    var base, parts := Trim(c.publicPath), PathParts(c, p, path);
    assert PathParts(root, p, path) == parts;
    assert Trim("") == "";
    PathIsPrinted(root, p, path);
    assert PrintedPath(root, p, path) == PrintedPath(c, p, path);
    JoinedPath(root, p, path);
    JoinBase("", parts);
    hide Trim, EscapePath, PathParts, PrintedPath, GoodParts, JoinedEnd, SoundSigner;
    var joined := JoinParts(parts);
    assert JoinUrlPath("", parts) == joined;
    assert ([c.publicPath] + parts)[1..] == parts;
    assert JoinUrlPath(c.publicPath, parts) == "/" + (base + joined);
    EscapeSlash(base + joined);
    EscapePathConcat(base, joined);
  }

  lemma EscapeSlash(s: string)
    ensures EscapePath("/" + s) == "/" + EscapePath(s)
  {
    EscapeKept("/", s);
  }

  lemma PrintedSlashes(c: Settings, p: Parts, path: string)
    requires GoodParts(p) && SoundSigner(c)
    ensures Slashes(PrintedPath(c, p, path)) ==
            3 + (if c.sign.Some? then 1 else 0) + (if Trim(path) == "" then 0 else 1 + Slashes(Trim(path)))
    ensures var t := PrintedPath(c, p, path); Trim(path) == "" ==> t[|t| - 1] != '/'
  {
    hide Slashes, EscapePath, Trim, IsHttpScheme, IsSignature;
    OneSlash();
    var host := EscapePath(p.host);
    var tail, sig := PathTail(path), SignatureSegment(c, p);
    SchemeIsPlain(p.scheme);
    NoSlashes(p.scheme);
    NoSlashes(p.host);
    EscapeSlashes(p.host);
    EscapeSlashes(Trim(path));
    NoSlashes(host);
    EscapeKeepsSlashes(p.host);
    SlashesConcat("/", EscapePath(Trim(path)));
    NoSlashes("");
    SlashesConcat(host, tail);
    SlashesConcat("/", host + tail);
    SlashesConcat(p.scheme, "/" + (host + tail));
    var end := p.scheme + ("/" + (host + tail));
    SignatureSlashes(c, p);
    SlashesConcat(sig, end);
    PrefixSlashes();
    SlashesConcat(RESOURCE_PREFIX, sig + end);
    if Trim(path) == "" {
      assert host + tail == host;
      LastOf(RESOURCE_PREFIX + (sig + (p.scheme + "/")), host);
      assert PrintedPath(c, p, path) == RESOURCE_PREFIX + (sig + (p.scheme + "/")) + host;
    }
  }

  lemma LastOf(a: string, b: string)
    requires b != "" && '/' !in b
    ensures (a + b)[|a + b| - 1] != '/'
  {
    assert b[|b| - 1] in b;
  }

  lemma PrefixSlashes()
    ensures Slashes(RESOURCE_PREFIX) == 2
  {
    NoSlashes("_proxy");
    OneSlash();
    SlashesConcat("/", "_proxy");
    SlashesConcat("/" + "_proxy", "/");
    assert RESOURCE_PREFIX == "/" + "_proxy" + "/";
  }

  lemma SignatureSlashes(c: Settings, p: Parts)
    requires SoundSigner(c)
    ensures Slashes(SignatureSegment(c, p)) == if c.sign.Some? then 1 else 0
  {
    hide Slashes;
    NoSlashes("");
    OneSlash();
    if c.sign.Some? {
      var sig := c.sign.value(p.scheme, p.host);
      assert IsSignature(sig);
      SignatureHasNoSlash(sig);
      NoSlashes(sig);
      SlashesConcat(sig, "/");
    }
  }

  /** A base path of one segment that looks like the prefix: what follows starts with `_proxy`. */
  lemma OneSegmentBase(base: string, rest: string)
    requires '/' !in base && RESOURCE_PREFIX <= "/" + (base + (RESOURCE_PREFIX + rest))
    ensures SplitFirst(("/" + (base + (RESOURCE_PREFIX + rest)))[|RESOURCE_PREFIX|..]).0 == "_proxy"
  {
    var tail := "_proxy" + ("/" + rest);
    var all := "/" + (base + (RESOURCE_PREFIX + rest));
    assert RESOURCE_PREFIX + rest == "/" + tail;
    assert all[1..] == base + ("/" + tail);
    var x := all[|RESOURCE_PREFIX|..];
    SplitAt(all, |RESOURCE_PREFIX|);
    assert all == RESOURCE_PREFIX + x;
    assert RESOURCE_PREFIX + x == "/" + ("_proxy" + ("/" + x));
    assert all[1..] == "_proxy" + ("/" + x);
    hide SplitFirst;
    SplitAtSlash(base, tail);
    SplitAtSlash("_proxy", x);
    SplitAtSlash("_proxy", rest);
  }

  // ---------------------------------------------------------------- never served back

  lemma SignatureLength(a: Auth, signature: string, parts: seq<string>)
    requires Sound(a.suite) && Verify(a.suite, a.secret, signature, parts)
    ensures |signature| == 22
  {
  }

  /** How many slashes are left for the upstream of a path in front of which `front` stands. */
  lemma LeftOver(front: string, tail: string, auth: bool)
    requires RESOURCE_PREFIX <= "/" + (front + tail) && tail != ""
    requires ReadPath(auth, ("/" + (front + tail))[|RESOURCE_PREFIX|..]).Reading?
    ensures var r := ReadPath(auth, ("/" + (front + tail))[|RESOURCE_PREFIX|..]);
            && Slashes(r.rest) + (if auth && !IsHttpScheme(r.first) then 3 else 2) + 1 == Slashes(front) + Slashes(tail)
            && (r.rest == "" ==> tail[|tail| - 1] == '/')
  {
    hide Slashes, ReadPath;
    var printed := "/" + (front + tail);
    var x := printed[|RESOURCE_PREFIX|..];
    ReadSlashes(auth, x);
    SplitAt(printed, |RESOURCE_PREFIX|);
    assert printed[..|RESOURCE_PREFIX|] == RESOURCE_PREFIX;
    SlashesConcat(RESOURCE_PREFIX, x);
    PrefixSlashes();
    SlashesConcat("/", front + tail);
    SlashesConcat(front, tail);
    OneSlash();
    assert x != "" ==> x[|x| - 1] == tail[|tail| - 1];
  }

  /** An unsigned path whose first segment is taken for a signature comes from a longer base path. */
  lemma SignedBase(st: RouteState, c: Settings, token: Option<string>, p: Parts, path: string, base: string)
    requires MayEnter(st, c, token) && st.auth.Some? && c.sign.None?
    requires RESOURCE_PREFIX <= "/" + (base + PrintedPath(c, p, path))
    requires var r := ReadPath(true, ("/" + (base + PrintedPath(c, p, path)))[|RESOURCE_PREFIX|..]);
             r.Reading? && !IsHttpScheme(r.first) && Authorized(st.auth.value, st.key, r.first, r.scheme, r.host, token)
    ensures Slashes(base) > 0
  {
    var x := ("/" + (base + PrintedPath(c, p, path)))[|RESOURCE_PREFIX|..];
    var r := ReadPath(true, x);
    hide ReadPath, Slashes, EscapePath, Verify;
    SignatureLength(st.auth.value, r.first, [st.key, r.scheme, r.host]);
    NoSlashes(base);
    if '/' !in base {
      var more := p.scheme + ("/" + (EscapePath(p.host) + PathTail(path)));
      assert "" + more == more;
      OneSegmentBase(base, more);
      hide PrintedPath, IsHttpScheme;
      ReadSlashes(true, x);
    }
  }

  /** What a forwarded path under a base path leaves for the upstream. */
  lemma LeftUnderBase(st: RouteState, c: Settings, token: Option<string>, p: Parts, path: string, query: Option<string>)
    requires GoodParts(p) && MayEnter(st, c, token) && Trim(c.publicPath) != ""
    requires RESOURCE_PREFIX <= RewrittenPath(c, p, path)
    requires ProxyResource(st, RewrittenPath(c, p, path), query, token).Forward?
    ensures var rest := ProxyResource(st, RewrittenPath(c, p, path), query, token).rest;
            if Trim(path) == "" then rest != "" else Slashes(rest) > Slashes(Trim(path))
  {
    EntrySigner(st, c, token);
    BasePrinted(c, p, path);
    PrintedSlashes(c, p, path);
    var base, tail := EscapePath(Trim(c.publicPath)), PrintedPath(c, p, path);
    assert tail != "";
    hide Slashes, EscapePath, Trim, RewrittenPath, SoundSigner, ReadPath, GoodParts, Target, PrintedPath, Authorized, IsHttpScheme;
    LeftOver(base, tail, st.auth.Some?);
    var r := ReadPath(st.auth.Some?, ("/" + (base + tail))[|RESOURCE_PREFIX|..]);
    if st.auth.Some? && c.sign.None? && !IsHttpScheme(r.first) {
      SignedBase(st, c, token, p, path, base);
    }
    hide MayEnter;
  }

  /** No URL of a route with a base path is served back. */
  lemma NotServedUnderBase(st: RouteState, c: Settings, token: Option<string>, p: Parts, path: string, query: Option<string>)
    requires GoodParts(p) && MayEnter(st, c, token) && Trim(c.publicPath) != ""
    requires RESOURCE_PREFIX <= RewrittenPath(c, p, path)
    ensures !SameResource(ProxyResource(st, RewrittenPath(c, p, path), query, token), p, path, query)
  {
    var d := ProxyResource(st, RewrittenPath(c, p, path), query, token);
    hide ProxyResource, RewrittenPath, Trim, Slashes, MayEnter;
    if SameResource(d, p, path, query) {
      LeftUnderBase(st, c, token, p, path, query);
      DecodedSlashes(d.rest);
    }
  }

  /** The endpoint recognises a printed path and serves it for the same scheme, host and decoded
      path. */
  ghost predicate ServedBack(st: RouteState, printed: string, token: Option<string>, p: Parts, path: string,
                             query: Option<string>)
  {
    RESOURCE_PREFIX <= printed && SameResource(ProxyResource(st, printed, query, token), p, path, query)
  }

  /** Rewrite then serve. Every URL the rewriter rewrites is served back if and only if the public URL
      has no base path, every byte of the host is one `escape_path` keeps, the decoded path has a
      character that is not a slash, and the host is registered. */
  lemma RoundTrip(st: RouteState, c: Settings, token: Option<string>, raw: string, path: string, query: Option<string>)
    requires SplitUrl(raw).Some? && PercentDecode(SplitUrl(raw).value.rawPath, false) == Some(path)
    requires MayEnter(st, c, token)
    ensures var p := SplitUrl(raw).value;
            ServedBack(st, RewrittenPath(c, p, path), token, p, path, query) <==>
              Trim(c.publicPath) == "" && All(KeptInPath, p.host) && Trim(path) != "" && p.host in st.registry
  {
    PartsAreGood(raw);
    var p := SplitUrl(raw).value;
    DecodedIsValid(p.rawPath, false);
    EntrySigner(st, c, token);
    if Trim(c.publicPath) == "" {
      PathIsPrinted(c, p, path);
      hide SplitUrl, RewrittenPath, Trim, ProxyResource, MayEnter, SameResource;
      PrintedServed(st, c, token, p, path, query);
    } else {
      hide SplitUrl, RewrittenPath, Trim, ProxyResource, MayEnter, SameResource;
      if RESOURCE_PREFIX <= RewrittenPath(c, p, path) {
        NotServedUnderBase(st, c, token, p, path, query);
      }
    }
  }

  // ---------------------------------------------------------------- exactly what is forwarded

  /** `path` reads `/_proxy/scheme/host/rest`. */
  ghost predicate Unsigned(path: string, scheme: string, host: string, rest: string) {
    path == "/_proxy/" + (scheme + ("/" + (host + ("/" + rest))))
  }

  /** `path` reads `/_proxy/signature/scheme/host/rest`. */
  ghost predicate Signed(path: string, signature: string, scheme: string, host: string, rest: string) {
    path == "/_proxy/" + (signature + ("/" + (scheme + ("/" + (host + ("/" + rest))))))
  }

  ghost predicate GoodNames(scheme: string, host: string) {
    (scheme == "http" || scheme == "https") && host != "" && '/' !in host
  }

  /** With auth on, an unsigned path needs a token of the route and a signed one a signature that verifies;
      with auth off only unsigned paths are understood. */
  ghost predicate MayForward(st: RouteState, path: string, scheme: string, host: string, rest: string, token: Option<string>) {
    || (Unsigned(path, scheme, host, rest)
        && (st.auth.Some? ==> token.Some? && IsValid(st.auth.value.sessions, token.value, st.key)))
    || (st.auth.Some? && exists signature :: SignedFor(st, path, signature, scheme, host, rest))
  }

  ghost predicate SignedFor(st: RouteState, path: string, signature: string, scheme: string, host: string, rest: string) {
    && st.auth.Some? && Signed(path, signature, scheme, host, rest)
    && '/' !in signature && signature != "http" && signature != "https"
    && Verify(st.auth.value.suite, st.auth.value.secret, signature, [st.key, scheme, host])
  }

  lemma PlainReads(auth: bool, scheme: string, host: string, rest: string)
    requires GoodNames(scheme, host)
    ensures ReadPath(auth, scheme + ("/" + (host + ("/" + rest)))) == Reading(scheme, scheme, host, rest)
  {
    hide SplitFirst;
    SchemeIsPlain(scheme);
    SplitAtSlash(scheme, host + ("/" + rest));
    SplitAtSlash(host, rest);
  }

  lemma SignedReads(signature: string, scheme: string, host: string, rest: string)
    requires GoodNames(scheme, host) && '/' !in signature && !IsHttpScheme(signature)
    ensures ReadPath(true, signature + ("/" + (scheme + ("/" + (host + ("/" + rest)))))) == Reading(signature, scheme, host, rest)
  {
    hide SplitFirst;
    SchemeIsPlain(scheme);
    SplitAtSlash(signature, scheme + ("/" + (host + ("/" + rest))));
    SplitAtSlash(scheme, host + ("/" + rest));
    SplitAtSlash(host, rest);
  }

  lemma ReadingIs(auth: bool, path: string)
    requires ReadPath(auth, path).Reading?
    ensures var r := ReadPath(auth, path);
            && GoodNames(r.scheme, r.host) && '/' !in r.first
            && (if auth && !IsHttpScheme(r.first) then path == r.first + ("/" + (r.scheme + ("/" + (r.host + ("/" + r.rest)))))
                else r.first == r.scheme && path == r.scheme + ("/" + (r.host + ("/" + r.rest))))
  {
    hide SplitFirst, Slashes;
    var (first, after) := SplitFirst(path);
    SplitSlashes(path);
    var (scheme, remainder) :=
      if auth && !IsHttpScheme(first) && after.Some? then SplitFirst(after.value) else (first, after);
    if auth && !IsHttpScheme(first) {
      SplitSlashes(after.value);
    }
    SplitSlashes(remainder.value);
  }

  lemma ForwardedMay(st: RouteState, path: string, query: Option<string>, token: Option<string>)
    requires RESOURCE_PREFIX <= path && ProxyResource(st, path, query, token).Forward?
    ensures var d := ProxyResource(st, path, query, token);
            GoodNames(d.scheme, d.host) && d.host in st.registry && MayForward(st, path, d.scheme, d.host, d.rest, token)
  {
    var x := path[|RESOURCE_PREFIX|..];
    SplitAt(path, |RESOURCE_PREFIX|);
    assert path == RESOURCE_PREFIX + x;
    hide ReadPath, Verify, Target, GoodNames;
    var r := ReadPath(st.auth.Some?, x);
    ReadingIs(st.auth.Some?, x);
    if st.auth.Some? && !IsHttpScheme(r.first) {
      assert SignedFor(st, path, r.first, r.scheme, r.host, r.rest);
    }
  }

  lemma MayForwardDoes(st: RouteState, path: string, query: Option<string>, token: Option<string>,
                       scheme: string, host: string, rest: string)
    requires RESOURCE_PREFIX <= path && GoodNames(scheme, host) && host in st.registry
    requires MayForward(st, path, scheme, host, rest, token)
    ensures ProxyResource(st, path, query, token) == Forward(scheme, host, rest, Target(scheme, host, rest, query))
  {
    hide ReadPath, Verify, Target;
    if Unsigned(path, scheme, host, rest) && (st.auth.Some? ==> token.Some? && IsValid(st.auth.value.sessions, token.value, st.key)) {
      Cut(RESOURCE_PREFIX, scheme + ("/" + (host + ("/" + rest))));
      PlainReads(st.auth.Some?, scheme, host, rest);
    } else {
      var signature :| SignedFor(st, path, signature, scheme, host, rest);
      Cut(RESOURCE_PREFIX, signature + ("/" + (scheme + ("/" + (host + ("/" + rest))))));
      SignedReads(signature, scheme, host, rest);
    }
  }

  /** The endpoint forwards exactly the paths of these two forms, to registered hosts. */
  lemma ForwardsExactly(st: RouteState, path: string, query: Option<string>, token: Option<string>,
                        scheme: string, host: string, rest: string)
    requires RESOURCE_PREFIX <= path
    ensures var d := ProxyResource(st, path, query, token);
            d.Forward? && d.scheme == scheme && d.host == host && d.rest == rest <==>
            GoodNames(scheme, host) && host in st.registry && MayForward(st, path, scheme, host, rest, token)
  {
    hide ProxyResource, GoodNames, MayForward;
    if ProxyResource(st, path, query, token).Forward? {
      ForwardedMay(st, path, query, token);
    }
    if GoodNames(scheme, host) && host in st.registry && MayForward(st, path, scheme, host, rest, token) {
      MayForwardDoes(st, path, query, token, scheme, host, rest);
    }
  }
}
