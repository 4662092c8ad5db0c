/** The resource endpoint over whole runs: rewrites register hosts, the session store changes, and the
    process stops and starts. The registry lives in memory only. */
module ResourceRun {
  import opened Text
  import opened Percent
  import opened Urls
  import opened UrlParts
  import opened Hosts
  import opened Crypto
  import opened SessionMap
  import opened Resource
  import opened BasePath
  import opened AuthStore

  // ---------------------------------------------------------------- the endpoint

  /** A route's resource endpoint on the shared registry and, with auth on, the session store. */
  class Endpoint {
    const key: string
    const registry: Registry
    const suite: Suite
    const store: Store?

    constructor (key: string, registry: Registry, suite: Suite, store: Store?)
      ensures this.key == key && this.registry == registry && this.suite == suite && this.store == store
    {
      this.key, this.registry, this.suite, this.store := key, registry, suite, store;
    }

    /** What the endpoint can see. */
    ghost function View(): RouteState
      reads registry, if store == null then {} else {store}
    {
      RouteState(key, if store == null then None else Some(Auth(suite, store.secret, store.sessions)), registry.schemes)
    }

    /** `proxy_resource`, up to the forwarding. */
    method Proxy(path: string, query: Option<string>, token: Option<string>) returns (d: Decision)
      requires RESOURCE_PREFIX <= path
      ensures d == ProxyResource(View(), path, query, token)
    {
      hide Verify, SplitFirst;
      var rest := path[|RESOURCE_PREFIX|..];
      var (first, remainder) := SplitFirst(rest);
      var scheme := first;
      if store != null && !IsHttpScheme(first) && remainder.Some? {
        var (s, r) := SplitFirst(remainder.value);
        scheme, remainder := s, r;
      }
      if remainder.None? || !IsHttpScheme(scheme) {
        return InvalidScheme;
      }
      var (host, tail) := SplitFirst(remainder.value);
      if tail.None? || host == "" {
        return MissingHost;
      }
      if store != null {
        if IsHttpScheme(first) {
          var session := store.Lookup(if token.Some? then token.value else "");
          if session.None? || session.value.route != key {
            return NotAuthorized;
          }
        } else if !Verify(suite, store.secret, first, [key, scheme, host]) {
          return NotAuthorized;
        }
      }
      var registered := registry.Lookup(host);
      if registered.None? {
        return HostNotAllowed;
      }
      var target := scheme + "://" + host + "/" + tail.value;
      if query.Some? {
        target := target + ("?" + query.value);
      } else {
        assert target + "" == target;
      }
      return Forward(scheme, host, tail.value, target);
    }
  }

  // ---------------------------------------------------------------- runs

  /** A route: its key, its public URL, the configured hosts, and the suite when auth is on. */
  datatype Site = Site(key: string, scheme: string, host: string, publicPath: string, initial: seq<string>,
                       suite: Option<Suite>)

  /** The session store with its file, and the registry. */
  datatype Edge = Edge(world: World, registry: Schemes)

  datatype Event = Rewrote(raw: string) | Change(op: Operation)

  /** The rewriter's settings: with auth on, URLs are signed with the store's secret. */
  function SettingsAt(site: Site, e: Edge): Settings {
    var sign :=
      if site.suite.Some? && e.world.memory.Some? then
        Some((scheme, host) => Sign(site.suite.value, e.world.memory.value.secret, [site.key, scheme, host]))
      else None;
    Settings(site.scheme, site.host, site.publicPath, sign)
  }

  function StateAt(site: Site, e: Edge): RouteState {
    var auth :=
      if site.suite.Some? && e.world.memory.Some? then
        Some(Auth(site.suite.value, e.world.memory.value.secret, e.world.memory.value.sessions))
      else None;
    RouteState(site.key, auth, e.registry)
  }

  predicate MayHappen(e: Edge, event: Event) {
    match event
    case Rewrote(_) => e.world.memory.Some?
    case Change(op) => MayRun(e.world, op)
  }

  function Next(site: Site, e: Edge, event: Event): Edge
    requires MayHappen(e, event)
  {
    match event
    case Rewrote(raw) =>
      (match RewriteUrl(SettingsAt(site, e), raw)
       case None => e
       case Some(r) => e.(registry := Allowed(e.registry, r.host, r.scheme)))
    case Change(op) =>
      Edge(Run(e.world, op), if op.Start? then Configured(map[], site.initial) else e.registry)
  }

  /** A run from any state file. */
  ghost predicate IsRun(site: Site, es: seq<Edge>, events: seq<Event>) {
    && |es| == |events| + 1 && es[0].world.memory.None? && es[0].world.saved.None?
    && es[0].registry == Configured(map[], site.initial)
    && forall i :: 0 <= i < |events| ==> MayHappen(es[i], events[i]) && es[i + 1] == Next(site, es[i], events[i])
  }

  // ---------------------------------------------------------------- the registry

  /** The host and scheme that rewriting `raw` registers. */
  function Registers(raw: string): Option<(string, string)> {
    match SplitUrl(raw)
    case None => None
    case Some(p) => if PercentDecode(p.rawPath, false).Some? then Some((p.host, p.scheme)) else None
  }

  lemma RewriteRegisters(c: Settings, raw: string)
    ensures RewriteUrl(c, raw).Some? <==> Registers(raw).Some?
    ensures Registers(raw).Some? ==>
              RewriteUrl(c, raw).value.host == Registers(raw).value.0 != ""
              && RewriteUrl(c, raw).value.scheme == Registers(raw).value.1
  {
    hide PercentDecode, RewrittenPath;
    if SplitUrl(raw).Some? {
      HostBytes(raw);
    }
    hide SplitUrl;
  }

  predicate IsStart(event: Event) {
    event.Change? && event.op.Start?
  }

  /** `host` was registered by a rewrite, and the process has not started again since. */
  ghost predicate RewrittenSince(events: seq<Event>, n: nat, host: string)
    requires n <= |events|
  {
    exists i :: 0 <= i < n && Registered(events, i, n, host)
  }

  ghost predicate Registered(events: seq<Event>, i: nat, n: nat, host: string)
    requires i < n <= |events|
  {
    && events[i].Rewrote? && Registers(events[i].raw).Some? && Registers(events[i].raw).value.0 == host
    && forall k :: i < k < n ==> !IsStart(events[k])
  }

  /** The event registers `host`. */
  predicate Adds(event: Event, host: string) {
    event.Rewrote? && Registers(event.raw).Some? && Registers(event.raw).value.0 == host
  }

  lemma RewrittenStep(events: seq<Event>, n: nat, host: string)
    requires 0 < n <= |events|
    ensures RewrittenSince(events, n, host) <==>
            Adds(events[n - 1], host) || (RewrittenSince(events, n - 1, host) && !IsStart(events[n - 1]))
  {
    hide Registers;
    if RewrittenSince(events, n - 1, host) && !IsStart(events[n - 1]) {
      var i :| 0 <= i < n - 1 && Registered(events, i, n - 1, host);
      assert Registered(events, i, n, host);
    }
    if RewrittenSince(events, n, host) {
      var i :| 0 <= i < n && Registered(events, i, n, host);
      assert i < n - 1 ==> Registered(events, i, n - 1, host);
    }
    if Adds(events[n - 1], host) {
      assert Registered(events, n - 1, n, host);
    }
  }

  /** At any point of any run the registry holds exactly the configured hosts and those of rewrites
      since the last start, and only the schemes `http` and `https`. */
  lemma {:induction false} RegistryExact(site: Site, es: seq<Edge>, events: seq<Event>, n: nat, host: string)
    requires IsRun(site, es, events) && n < |es|
    ensures host in es[n].registry <==> (host != "" && host in site.initial) || RewrittenSince(events, n, host)
    ensures CleanRegistry(es[n].registry)
  {
    if n == 0 {
      ConfiguredExact(map[], site.initial, host);
      ConfiguredIsClean(site.initial);
    } else {
      RegistryExact(site, es, events, n - 1, host);
      assert MayHappen(es[n - 1], events[n - 1]) && es[n] == Next(site, es[n - 1], events[n - 1]);
      hide Next, Adds, RewrittenSince, CleanRegistry, IsRun, MayHappen, IsStart;
      RewrittenStep(events, n, host);
      RegistryStep(site, es[n - 1], events[n - 1], host);
    }
  }

  /** What one event does to the registry. */
  lemma RegistryStep(site: Site, e: Edge, event: Event, host: string)
    requires MayHappen(e, event) && CleanRegistry(e.registry)
    ensures CleanRegistry(Next(site, e, event).registry)
    ensures host in Next(site, e, event).registry <==>
            if IsStart(event) then host != "" && host in site.initial
            else host in e.registry || Adds(event, host)
  {
    hide RewriteUrl, Registers, SettingsAt, Configured, CleanRegistry, Allowed, Run, MayRun;
    if event.Rewrote? {
      RewriteRegisters(SettingsAt(site, e), event.raw);
      if Registers(event.raw).Some? {
        var r := Registers(event.raw).value;
        AllowedKeepsClean(e.registry, r.0, r.1);
        AllowedHolds(e.registry, r.0, r.1, host);
      }
    } else {
      ConfiguredExact(map[], site.initial, host);
      ConfiguredIsClean(site.initial);
    }
  }

  lemma AllowedHolds(m: Schemes, added: string, scheme: string, host: string)
    requires added != ""
    ensures host in Allowed(m, added, scheme) <==> host in m || host == added
  {
  }

  lemma ConfiguredIsClean(initial: seq<string>)
    ensures CleanRegistry(Configured(map[], initial))
  {
    forall host | host in Configured(map[], initial)
      ensures host != "" && Configured(map[], initial)[host] == "https"
    {
      ConfiguredExact(map[], initial, host);
    }
  }

  /** Without a start in between, a registered host stays registered. */
  lemma {:induction false} RegisteredForGood(site: Site, es: seq<Edge>, events: seq<Event>, i: nat, j: nat)
    requires IsRun(site, es, events) && i <= j < |es| && forall k :: i <= k < j ==> !IsStart(events[k])
    ensures es[i].registry.Keys <= es[j].registry.Keys
    decreases j - i
  {
    if i < j {
      RegisteredForGood(site, es, events, i, j - 1);
      hide RewriteUrl, SettingsAt, Configured;
      assert es[j] == Next(site, es[j - 1], events[j - 1]);
    }
  }

  /** In every run the endpoint forwards only to a host that is configured or was rewritten since the
      last start; with auth on, the request also carries a token of this route or a signature that
      verifies for this route, scheme and host. */
  lemma ForwardsSafely(site: Site, es: seq<Edge>, events: seq<Event>, n: nat,
                       path: string, query: Option<string>, token: Option<string>)
    requires IsRun(site, es, events) && n < |es| && RESOURCE_PREFIX <= path
    requires ProxyResource(StateAt(site, es[n]), path, query, token).Forward?
    ensures var st := StateAt(site, es[n]);
            var d := ProxyResource(st, path, query, token);
            && d.host != "" && IsHttpScheme(d.scheme)
            && (d.host in site.initial || RewrittenSince(events, n, d.host))
            && (st.auth.Some? ==>
                  var a := st.auth.value;
                  || (token.Some? && IsValid(a.sessions, token.value, st.key))
                  || Verify(a.suite, a.secret, SplitFirst(path[|RESOURCE_PREFIX|..]).0, [st.key, d.scheme, d.host]))
  {
    hide Verify, SplitFirst, RewrittenSince, Target, IsRun;
    RegistryExact(site, es, events, n, ProxyResource(StateAt(site, es[n]), path, query, token).host);
  }

  // ---------------------------------------------------------------- the secret

  lemma {:induction false} WorldKeepsFile(site: Site, es: seq<Edge>, events: seq<Event>, n: nat)
    requires IsRun(site, es, events) && n < |es|
    ensures FileIsLastSave(es[0].world.file, es[n].world)
  {
    if n > 0 {
      WorldKeepsFile(site, es, events, n - 1);
      WorldStep(site, es[0].world.file, es[n - 1], events[n - 1]);
    }
  }

  lemma WorldStep(site: Site, first: File, e: Edge, event: Event)
    requires MayHappen(e, event) && FileIsLastSave(first, e.world)
    ensures FileIsLastSave(first, Next(site, e, event).world)
    ensures var t := Next(site, e, event).world;
            HasSecret(e.world.file) ==> HasSecret(t.file) && t.file.secret == e.world.file.secret
  {
    hide RewriteUrl, SettingsAt, FileIsLastSave, Run;
    if event.Change? {
      OperationKeepsFile(first, e.world, event.op);
    }
  }

  /** Every process of a run uses the same secret. */
  lemma {:induction false} SameSecret(site: Site, es: seq<Edge>, events: seq<Event>, i: nat, j: nat)
    requires IsRun(site, es, events) && i <= j < |es| && es[i].world.memory.Some?
    ensures HasSecret(es[j].world.file) && es[j].world.file.secret == es[i].world.memory.value.secret
    ensures es[j].world.memory.Some? ==> es[j].world.memory.value.secret == es[i].world.memory.value.secret
    decreases j - i
  {
    WorldKeepsFile(site, es, events, j);
    if i < j {
      SameSecret(site, es, events, i, j - 1);
      WorldKeepsFile(site, es, events, j - 1);
      WorldStep(site, es[0].world.file, es[j - 1], events[j - 1]);
    }
  }

  // ---------------------------------------------------------------- rewrite, then serve

  lemma EntersLater(site: Site, es: seq<Edge>, events: seq<Event>, i: nat, j: nat, token: Option<string>)
    requires IsRun(site, es, events) && i <= j < |es| && es[i].world.memory.Some? && es[j].world.memory.Some?
    requires site.suite.Some? ==> Sound(site.suite.value)
    ensures MayEnter(StateAt(site, es[j]), SettingsAt(site, es[i]), token)
  {
    hide Sign, Sound, IsRun;
    SameSecret(site, es, events, i, j);
  }

  function QueryOf(p: Parts): Option<string> {
    if p.query == "" then None else Some(p.query)
  }

  /** Rewrite then serve, over runs with restarts: a URL that was rewritten is served back at a later
      point of the run, by this process or a later one, for the same scheme, host, decoded path and
      query, if and only if the public URL has no base path, the host has only bytes `escape_path`
      keeps, the path is not bare, and the host is configured or was rewritten since the last start. */
  lemma RewrittenThenServed(site: Site, es: seq<Edge>, events: seq<Event>, i: nat, j: nat,
                            raw: string, path: string, token: Option<string>)
    requires IsRun(site, es, events) && i < j < |es| && events[i] == Rewrote(raw) && es[j].world.memory.Some?
    requires site.suite.Some? ==> Sound(site.suite.value)
    requires SplitUrl(raw).Some? && PercentDecode(SplitUrl(raw).value.rawPath, false) == Some(path)
    ensures var p, c := SplitUrl(raw).value, SettingsAt(site, es[i]);
            var printed := RewrittenPath(c, p, path);
            && RewriteUrl(c, raw) ==
               Some(Rewritten(c.scheme + "://" + c.host + printed + QueryPart(p.query), p.scheme, p.host))
            && (ServedBack(StateAt(site, es[j]), printed, token, p, path, QueryOf(p)) <==>
                  && Trim(site.publicPath) == "" && All(KeptInPath, p.host) && Trim(path) != ""
                  && (p.host in site.initial || RewrittenSince(events, j, p.host)))
  {
    var p, c := SplitUrl(raw).value, SettingsAt(site, es[i]);
    PartsAreGood(raw);
    assert MayHappen(es[i], events[i]);
    hide SplitUrl, PercentDecode, MayEnter, Trim, RewrittenPath, RewriteUrl, ServedBack, IsRun, RewrittenSince, All;
    UrlSplits(c, raw, path);
    EntersLater(site, es, events, i, j, token);
    RegistryExact(site, es, events, j, p.host);
    RoundTrip(StateAt(site, es[j]), c, token, raw, path, QueryOf(p));
  }

  lemma RegisteredHere(events: seq<Event>, i: nat, j: nat, raw: string)
    requires i < j <= |events| && events[i] == Rewrote(raw) && Registers(raw).Some?
    requires forall k :: i < k < j ==> !IsStart(events[k])
    ensures RewrittenSince(events, j, Registers(raw).value.0)
  {
    hide Registers;
    assert Registered(events, i, j, Registers(raw).value.0);
  }

  /** Within the process that rewrote it, nothing but the URL itself and the public URL matters. */
  lemma ServedInProcess(site: Site, es: seq<Edge>, events: seq<Event>, i: nat, j: nat,
                        raw: string, path: string, token: Option<string>)
    requires IsRun(site, es, events) && i < j < |es| && events[i] == Rewrote(raw) && es[j].world.memory.Some?
    requires (site.suite.Some? ==> Sound(site.suite.value)) && forall k :: i < k < j ==> !IsStart(events[k])
    requires SplitUrl(raw).Some? && PercentDecode(SplitUrl(raw).value.rawPath, false) == Some(path)
    ensures var p := SplitUrl(raw).value;
            ServedBack(StateAt(site, es[j]), RewrittenPath(SettingsAt(site, es[i]), p, path), token, p, path, QueryOf(p))
            <==> Trim(site.publicPath) == "" && All(KeptInPath, p.host) && Trim(path) != ""
  {
    RegisteredHere(events, i, j, raw);
    assert Registers(raw).value.0 == SplitUrl(raw).value.host;
    hide SplitUrl, PercentDecode, Trim, RewrittenPath, ServedBack, IsRun, RewrittenSince, All, SettingsAt, StateAt;
    RewrittenThenServed(site, es, events, i, j, raw, path, token);
  }

  lemma StartAddsNothing(event: Event, host: string)
    requires IsStart(event)
    ensures !Adds(event, host)
  {
  }

  /** Right after a restart, a URL whose host is not configured is not served. If nothing else stands
      in the way it is refused for its host, although its signature verifies under the new process. */
  lemma RestartForgets(site: Site, es: seq<Edge>, events: seq<Event>, i: nat, j: nat,
                       raw: string, path: string, token: Option<string>)
    requires IsRun(site, es, events) && i < j < |es| && events[i] == Rewrote(raw) && es[j].world.memory.Some?
    requires (site.suite.Some? ==> Sound(site.suite.value)) && IsStart(events[j - 1])
    requires SplitUrl(raw).Some? && PercentDecode(SplitUrl(raw).value.rawPath, false) == Some(path)
    requires SplitUrl(raw).value.host !in site.initial
    ensures var p, c := SplitUrl(raw).value, SettingsAt(site, es[i]);
            var printed := RewrittenPath(c, p, path);
            && !ServedBack(StateAt(site, es[j]), printed, token, p, path, QueryOf(p))
            && (Trim(site.publicPath) == "" && All(KeptInPath, p.host) && Trim(path) != "" ==>
                  && RESOURCE_PREFIX <= printed
                  && ProxyResource(StateAt(site, es[j]), printed, QueryOf(p), token) == HostNotAllowed)
            && (site.suite.Some? ==>
                  && c.sign.Some?
                  && Verify(site.suite.value, es[j].world.memory.value.secret, c.sign.value(p.scheme, p.host),
                            [site.key, p.scheme, p.host]))
  {
    var p, c := SplitUrl(raw).value, SettingsAt(site, es[i]);
    PartsAreGood(raw);
    assert |es| == |events| + 1;
    assert MayHappen(es[i], events[i]);
    hide SplitUrl, PercentDecode, Trim, RewrittenPath, ServedBack, IsRun, RewrittenSince, All, Sound, KeptInPath, Adds,
         Verify, Sign, ProxyResource, MayEnter;
    RewrittenThenServed(site, es, events, i, j, raw, path, token);
    RewrittenStep(events, j, p.host);
    StartAddsNothing(events[j - 1], p.host);
    RegistryExact(site, es, events, j, p.host);
    SameSecret(site, es, events, i, j);
    EntersLater(site, es, events, i, j, token);
    if site.suite.Some? {
      SignedVerifies(site.suite.value, es[i].world.memory.value.secret, [site.key, p.scheme, p.host]);
    }
    if Trim(site.publicPath) == "" && All(KeptInPath, p.host) && Trim(path) != "" {
      RefusedForHost(StateAt(site, es[j]), c, token, p, path, QueryOf(p));
    }
  }

  lemma RefusedForHost(st: RouteState, c: Settings, token: Option<string>, p: Parts, path: string, query: Option<string>)
    requires GoodParts(p) && MayEnter(st, c, token) && Trim(path) != "" && All(KeptInPath, p.host)
    requires p.host !in st.registry && Trim(c.publicPath) == ""
    ensures RESOURCE_PREFIX <= RewrittenPath(c, p, path)
    ensures ProxyResource(st, RewrittenPath(c, p, path), query, token) == HostNotAllowed
  {
    hide RewrittenPath, PrintedPath, ProxyResource, MayEnter, Trim;
    EntrySigner(st, c, token);
    PathIsPrinted(c, p, path);
    PrintedRefused(st, c, token, p, path, query);
  }
}
