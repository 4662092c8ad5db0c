/** The allowed-users gate: its path rules (src/server/auth_gate.rs), what it does with a request and
    with the upstream's answer (src/server/route.rs), and its runs. */
module Gate {
  import opened Text
  import opened Urls
  import opened Query
  import opened Crypto
  import opened SessionMap
  import opened Resource
  import opened AuthStore

  // ---------------------------------------------------------------- path rules

  function LowerAll(parts: seq<string>): (r: seq<string>)
    ensures |r| == |parts|
  {
    seq(|parts|, i requires 0 <= i < |parts| => Lower(parts[i]))
  }

  predicate IsBase(s: string) {
    s == "emby" || s == "mediabrowser"
  }

  /** `emby_path_segments`. */
  function Segments(path: string): seq<string> {
    var trimmed := Trim(path);
    if trimmed == "" then []
    else
      var all := LowerAll(SplitOn('/', trimmed));
      if IsBase(all[0]) then all[1..] else all
  }

  predicate Matches(segments: seq<string>, want: seq<string>) {
    |segments| == |want| && forall i :: 0 <= i < |want| ==> want[i] == "*" || segments[i] == want[i]
  }

  const BY_NAME: seq<string> := ["users", "authenticatebyname"]
  const BY_ID: seq<string> := ["users", "*", "authenticate"]
  const LOGOUT: seq<string> := ["sessions", "logout"]

  predicate IsLogin(segments: seq<string>) {
    Matches(segments, BY_NAME) || Matches(segments, BY_ID)
  }

  predicate IsLoginPath(path: string) {
    var segments := Segments(path);
    exists i :: 0 <= i < |segments| && segments[i] == "users" && IsLogin(segments[i..])
  }

  const PUBLIC: seq<seq<string>> := [
    ["favicon.ico"], ["system", "info", "public"], ["system", "ping"], BY_NAME, BY_ID,
    ["branding", "configuration"], ["branding", "css"], ["branding", "css.css"]
  ]

  predicate IsPublic(verb: string, segments: seq<string>) {
    || segments == []
    || (exists k :: 0 <= k < |PUBLIC| && Matches(segments, PUBLIC[k]))
    || segments[0] == "web"
    || ((verb == "GET" || verb == "HEAD") && "images" in segments)
  }

  function Joined(parts: seq<string>): string {
    if parts == [] then "" else if |parts| == 1 then parts[0] else parts[0] + ("/" + Joined(parts[1..]))
  }

  lemma LowerConcat(a: string, b: string)
    ensures Lower(a + b) == Lower(a) + Lower(b)
  {
  }

  lemma LowerAllCons(a: string, rest: seq<string>)
    ensures LowerAll([a] + rest) == [Lower(a)] + LowerAll(rest)
  {
  }

  lemma JoinedCons(a: string, rest: seq<string>)
    requires rest != []
    ensures Joined([a] + rest) == a + ("/" + Joined(rest))
  {
    assert ([a] + rest)[1..] == rest;
  }

  lemma LowerSlash(s: string)
    requires '/' !in s
    ensures '/' !in Lower(s)
  {
    forall i | 0 <= i < |s|
      ensures LowerByte(s[i]) != '/'
    {
      assert s[i] in s;
    }
  }

  lemma SlashIsLower()
    ensures Lower("/") == "/"
  {
  }

  lemma {:induction false} SplitSpells(s: string)
    ensures var parts := LowerAll(SplitOn('/', s));
            Joined(parts) == Lower(s) && forall i :: 0 <= i < |parts| ==> '/' !in parts[i]
    decreases |s|
  {
    hide Lower, Joined, LowerAll, SplitOn;
    var n := Find('/', s);
    FindIsFirst('/', s);
    hide Find;
    LowerSlash(s[..n]);
    if n == |s| {
      assert s[..n] == s;
      SplitWithout('/', s);
      LowerAllOne(s);
      JoinedOne(Lower(s));
    } else {
      SplitSpells(s[n + 1..]);
      SplitAtSeparator('/', s[..n], s[n + 1..]);
      var rest := SplitOn('/', s[n + 1..]);
      LowerAllCons(s[..n], rest);
      JoinedCons(Lower(s[..n]), LowerAll(rest));
      LowerConcat(s[..n], "/" + s[n + 1..]);
      LowerConcat("/", s[n + 1..]);
      SlashIsLower();
      SplitAround(s, n);
    }
  }

  lemma LowerAllOne(s: string)
    ensures LowerAll([s]) == [Lower(s)]
  {
  }

  lemma JoinedOne(s: string)
    ensures Joined([s]) == s
  {
  }

  /** The segments hold no slash and, joined, spell the trimmed path in lower case, after `emby` or
      `mediabrowser` when the path starts with it; otherwise they spell all of it. */
  lemma SegmentsSpell(path: string)
    ensures var segments, spelled := Segments(path), Lower(Trim(path));
            && (forall i :: 0 <= i < |segments| ==> '/' !in segments[i])
            && (|| (spelled == Joined(segments) && (segments != [] ==> segments[0] != "emby" && segments[0] != "mediabrowser"))
                || ((spelled == "emby" || spelled == "mediabrowser") && segments == [])
                || (segments != [] && (spelled == "emby" + ("/" + Joined(segments)) || spelled == "mediabrowser" + ("/" + Joined(segments)))))
  {
    var t := Trim(path);
    SplitSpells(t);
    hide Lower, Trim, SplitOn;
    if t == "" {
      LowerEmpty();
    } else {
      var all := LowerAll(SplitOn('/', t));
      hide LowerAll;
      if IsBase(all[0]) && |all| > 1 {
        JoinedCons(all[0], all[1..]);
        assert [all[0]] + all[1..] == all;
      }
    }
  }

  lemma LowerEmpty()
    ensures Lower("") == "" && Joined([]) == ""
  {
  }

  /** A login path is one that ends in a login endpoint. */
  lemma LoginPathShape(path: string)
    ensures var s := Segments(path);
            var n := |s|;
            IsLoginPath(path) <==>
              || (n >= 2 && s[n - 2] == "users" && s[n - 1] == "authenticatebyname")
              || (n >= 3 && s[n - 3] == "users" && s[n - 1] == "authenticate")
  {
    hide Segments, IsLogin;
    var s := Segments(path);
    var n := |s|;
    forall i | 0 <= i < n
      ensures IsLogin(s[i..]) <==> EndsInLogin(s, i)
    {
      TailIsLogin(s, i);
    }
    if n >= 2 && EndsInLogin(s, n - 2) {
      assert s[n - 2] == "users";
    }
    if n >= 3 && EndsInLogin(s, n - 3) {
      assert s[n - 3] == "users";
    }
  }

  ghost predicate EndsInLogin(s: seq<string>, i: nat)
    requires i < |s|
  {
    || (i + 2 == |s| && s[i] == "users" && s[i + 1] == "authenticatebyname")
    || (i + 3 == |s| && s[i] == "users" && s[i + 2] == "authenticate")
  }

  lemma TailIsLogin(s: seq<string>, i: nat)
    requires i < |s|
    ensures IsLogin(s[i..]) <==> EndsInLogin(s, i)
  {
    var t := s[i..];
    assert |t| == |s| - i && t[0] == s[i];
    assert |t| > 1 ==> t[1] == s[i + 1];
    assert |t| > 2 ==> t[2] == s[i + 2];
  }

  /** Which login endpoints a client without a session can reach: those with nothing in front of
      them, and those the other public rules cover. A logout is never public or a login. */
  lemma LoginIsPublic(verb: string, path: string)
    requires IsLoginPath(path)
    ensures var s := Segments(path);
            IsPublic(verb, s) <==>
              IsLogin(s) || s[0] == "web" || ((verb == "GET" || verb == "HEAD") && "images" in s)
    ensures !Matches(Segments(path), LOGOUT)
  {
    hide Segments, IsLogin, Matches, IsLoginPath;
    var s := Segments(path);
    LoginPathShape(path);
    LoginLength(s);
    if IsLogin(s) {
      LoginIsListed(s);
    }
    forall k | 0 <= k < |PUBLIC| && Matches(s, PUBLIC[k])
      ensures IsLogin(s)
    {
      ListedLogin(s, k);
    }
    assert !Matches(s, LOGOUT) by {
      LogoutLength(s);
    }
  }

  lemma LoginLength(s: seq<string>)
    requires |s| >= 2 && (s[|s| - 1] == "authenticatebyname" || s[|s| - 1] == "authenticate")
    ensures |s[|s| - 1]| == 18 || |s[|s| - 1]| == 12
  {
  }

  lemma LogoutLength(s: seq<string>)
    ensures Matches(s, LOGOUT) ==> |s| == 2 && |s[1]| == 6
  {
  }

  lemma LoginIsListed(s: seq<string>)
    requires IsLogin(s)
    ensures exists k :: 0 <= k < |PUBLIC| && Matches(s, PUBLIC[k])
  {
    hide Matches;
    assert PUBLIC[3] == BY_NAME && PUBLIC[4] == BY_ID;
  }

  lemma LastMatches(s: seq<string>, want: seq<string>)
    requires Matches(s, want) && want != [] && want[|want| - 1] != "*"
    ensures |s| == |want| && s[|s| - 1] == want[|want| - 1]
  {
  }

  /** Of the listed public endpoints only the logins end like a login. */
  lemma ListedLogin(s: seq<string>, k: nat)
    requires k < |PUBLIC| && Matches(s, PUBLIC[k]) && s != []
    requires |s[|s| - 1]| == 18 || |s[|s| - 1]| == 12
    ensures IsLogin(s)
  {
    hide Matches;
    if k != 3 && k != 4 {
      var want := PUBLIC[k];
      assert |want[|want| - 1]| in {11, 6, 4, 13, 3, 7};
      LastMatches(s, want);
    }
  }

  lemma LogoutIsPrivate(verb: string, segments: seq<string>)
    requires Matches(segments, LOGOUT)
    ensures !IsPublic(verb, segments) && segments == LOGOUT
  {
  }

  // ---------------------------------------------------------------- one request

  datatype Request = Request(route: string, verb: string, path: string, token: Option<string>)

  datatype Verdict = ToResource | NoUsers | Forwarded | Unauthorized

  /** The head of `handle_with_auth`. */
  function Decide(m: Memory, q: Request): Verdict {
    if RESOURCE_PREFIX <= q.path then ToResource
    else if Matches(Segments(q.path), ["users", "public"]) then NoUsers
    else if IsPublic(q.verb, Segments(q.path)) then Forwarded
    else if q.token.Some? && IsValid(m.sessions, q.token.value, q.route) then Forwarded
    else Unauthorized
  }

  /** The allowed users, lower-cased by `fold` (`str::to_lowercase`). */
  datatype Config = Config(fold: string -> string, allowed: set<string>)

  /** What comes back for a forwarded request. `Failed` is an error before a readable body. */
  datatype Answer = Failed | Answer(status: nat, token: string, userId: string, user: string, at: string)

  /** The answer hands an access token to an allowed user. */
  predicate Accepted(cfg: Config, a: Answer) {
    a.Answer? && a.status == 200 && a.token != "" && cfg.fold(a.user) in cfg.allowed
  }

  /** What the answer does to the session store: a login stores the token. */
  function AnswerEffect(cfg: Config, q: Request, a: Answer, writes: bool): Option<Operation> {
    if IsLoginPath(q.path) && Accepted(cfg, a)
    then Some(Operation.Insert(a.token, Session(q.route, a.userId, a.user, a.at), writes))
    else None
  }

  /** What ends a forwarded request: a logout removes the token. */
  function EndEffect(q: Request, writes: bool): Option<Operation> {
    if !IsPublic(q.verb, Segments(q.path)) && Matches(Segments(q.path), LOGOUT) && q.token.Some?
    then Some(Drop(q.token.value, writes))
    else None
  }

  function Apply(w: World, op: Option<Operation>): World
    requires op.Some? ==> MayRun(w, op.value)
  {
    if op.Some? then Run(w, op.value) else w
  }

  /** What the client of a login gets: the upstream's answer as it is, an error because there was none
      to read, the answer with its token, an error because the session could not be saved, or a
      refusal, after which a token is revoked upstream. */
  datatype LoginReply = Passed | NoAnswer | LoginStored | LoginBroken | LoginRefused(revoke: bool)

  /** A route's handler on the shared store. */
  class Handler {
    const route: string
    const cfg: Config
    const store: Store

    constructor (route: string, cfg: Config, store: Store)
      ensures this.route == route && this.cfg == cfg && this.store == store
    {
      this.route, this.cfg, this.store := route, cfg, store;
    }

    /** Up to the forwarding of the request. */
    method Enter(verb: string, path: string, token: Option<string>) returns (v: Verdict)
      ensures v == Decide(store.Contents(), Request(route, verb, path, token))
    {
      if RESOURCE_PREFIX <= path {
        return ToResource;
      }
      var segments := Segments(path);
      hide Segments;
      if Matches(segments, ["users", "public"]) {
        return NoUsers;
      }
      if IsPublic(verb, segments) {
        return Forwarded;
      }
      if token.None? {
        return Unauthorized;
      }
      var session := store.Lookup(token.value);
      if session.Some? && session.value.route == route {
        return Forwarded;
      }
      return Unauthorized;
    }

    /** The store and its file, as a world. */
    ghost function Before(): World
      reads store, if store.disk == null then {} else {store.disk}
    {
      World(Some(store.Contents()), if store.disk == null then Missing else store.disk.file, None)
    }

    /** `handle_login_response`, for an answer on a login path. The client gets the token only when
        the session was stored and, with a state file, saved. */
    method Login(path: string, a: Answer, writes: bool) returns (r: LoginReply)
      requires IsLoginPath(path)
      modifies store
      modifies if store.disk == null then {} else {store.disk}
      ensures forall verb, token ::
                var after := Apply(old(Before()), AnswerEffect(cfg, Request(route, verb, path, token), a, writes));
                after.memory == Some(store.Contents()) && (store.disk != null ==> after.file == store.disk.file)
      ensures r == LoginStored <==> Accepted(cfg, a) && (store.disk == null || writes)
      ensures Accepted(cfg, a) <==> r == LoginStored || r == LoginBroken
      ensures r == NoAnswer <==> a.Failed?
      ensures r == Passed <==> a.Answer? && a.status != 200
      ensures r.LoginRefused? ==> r.revoke == (a.token != "")
    {
      hide IsLoginPath;
      if a.Failed? {
        return NoAnswer;
      }
      if a.status != 200 {
        return Passed;
      }
      if a.token != "" && cfg.fold(a.user) in cfg.allowed {
        var ok := store.AddSession(a.token, Session(route, a.userId, a.user, a.at), writes);
        return if ok then LoginStored else LoginBroken;
      }
      return LoginRefused(a.token != "");
    }

    /** After the forwarding of a private request. */
    method Leave(verb: string, path: string, token: string, writes: bool)
      requires !IsPublic(verb, Segments(path))
      modifies store
      modifies if store.disk == null then {} else {store.disk}
      ensures var after := Apply(old(Before()), EndEffect(Request(route, verb, path, Some(token)), writes));
              after.memory == Some(store.Contents()) && (store.disk != null ==> after.file == store.disk.file)
    {
      var segments := Segments(path);
      hide Segments, IsPublic;
      if Matches(segments, LOGOUT) {
        ghost var m := store.Contents();
        assert token !in m.sessions ==> m.sessions - {token} == m.sessions;
        var ok := store.RemoveSession(token, writes);
      }
    }
  }

  // ---------------------------------------------------------------- runs of all routes together

  /** A forwarded request; whether its answer has been handled. */
  datatype Flight = Flight(q: Request, answered: bool)

  datatype System = System(world: World, flights: map<nat, Flight>)

  datatype Event =
    | Arrive(id: nat, q: Request)
    | Reply(id: nat, a: Answer, writes: bool)
    | End(id: nat, writes: bool)
    | Boot(random: string, writes: bool)
    | Halt

  predicate MayHappen(s: System, e: Event) {
    match e
    case Arrive(id, _) => s.world.memory.Some? && id !in s.flights
    case Reply(id, _, _) => s.world.memory.Some? && id in s.flights && !s.flights[id].answered
    case End(id, _) => s.world.memory.Some? && id in s.flights && s.flights[id].answered
    case Boot(random, _) => MayRun(s.world, Start(random, e.writes))
    case Halt => s.world.memory.Some?
  }

  /** One event. Answers and endings of different requests interleave in any order; a halt loses
      the requests under way. */
  function After(cfg: Config, s: System, e: Event): System
    requires MayHappen(s, e)
  {
    match e
    case Arrive(id, q) =>
      if Decide(s.world.memory.value, q) == Forwarded then s.(flights := s.flights[id := Flight(q, false)]) else s
    case Reply(id, a, writes) =>
      var q := s.flights[id].q;
      System(Apply(s.world, AnswerEffect(cfg, q, a, writes)), s.flights[id := Flight(q, true)])
    case End(id, writes) =>
      System(Apply(s.world, EndEffect(s.flights[id].q, writes)), s.flights - {id})
    case Boot(random, writes) => System(Run(s.world, Start(random, writes)), map[])
    case Halt => System(Run(s.world, Stop), map[])
  }

  ghost predicate IsTrace(cfg: Config, ss: seq<System>, es: seq<Event>) {
    && |ss| == |es| + 1 && ss[0] == System(World(None, Missing, None), map[])
    && forall i :: 0 <= i < |es| ==> MayHappen(ss[i], es[i]) && ss[i + 1] == After(cfg, ss[i], es[i])
  }

  /** The event is a 200 answer on a login path of `route` that issues `token` to an allowed user. */
  ghost predicate Issues(cfg: Config, s: System, e: Event, token: string, route: string) {
    && e.Reply? && e.id in s.flights
    && s.flights[e.id].q.route == route && IsLoginPath(s.flights[e.id].q.path)
    && e.a.Answer? && e.a.status == 200 && e.a.token == token && token != "" && cfg.fold(e.a.user) in cfg.allowed
  }

  ghost predicate IssuedBefore(cfg: Config, ss: seq<System>, es: seq<Event>, n: nat, token: string, route: string)
    requires |ss| == |es| + 1 && n < |ss|
  {
    exists i :: 0 <= i < n && Issues(cfg, ss[i], es[i], token, route)
  }

  ghost predicate Held(m: Option<Memory>, token: string, route: string) {
    m.Some? && token in m.value.sessions && m.value.sessions[token].route == route
  }

  ghost predicate Known(w: World, token: string, route: string) {
    Held(w.memory, token, route) || Held(w.saved, token, route)
  }

  /** Whatever an event leaves in memory or in the last save was there before or was issued by it. */
  lemma EventAdds(cfg: Config, s: System, e: Event, token: string, route: string)
    requires MayHappen(s, e) && FileIsLastSave(Missing, s.world)
    ensures FileIsLastSave(Missing, After(cfg, s, e).world)
    ensures Known(After(cfg, s, e).world, token, route) ==>
              Known(s.world, token, route) || Issues(cfg, s, e, token, route)
  {
    hide Segments, IsLoginPath, IsPublic, Matches, Decide;
    match e
    case Arrive(_, _) =>
    case Reply(id, a, writes) =>
      var op := AnswerEffect(cfg, s.flights[id].q, a, writes);
      if op.Some? {
        OperationKeepsFile(Missing, s.world, op.value);
      }
    case End(id, writes) =>
      var op := EndEffect(s.flights[id].q, writes);
      if op.Some? {
        OperationKeepsFile(Missing, s.world, op.value);
      }
    case Boot(random, writes) => OperationKeepsFile(Missing, s.world, Start(random, writes));
    case Halt => OperationKeepsFile(Missing, s.world, Stop);
  }

  /** In every run from an empty store: each session in memory or on file was issued earlier, by a
      200 answer on a login path of its own route, to an allowed user. */
  lemma {:induction false} SessionsWereIssued(cfg: Config, ss: seq<System>, es: seq<Event>, n: nat,
                                              token: string, route: string)
    requires IsTrace(cfg, ss, es) && n < |ss|
    ensures FileIsLastSave(Missing, ss[n].world)
    ensures Known(ss[n].world, token, route) ==> IssuedBefore(cfg, ss, es, n, token, route)
  {
    if n > 0 {
      SessionsWereIssued(cfg, ss, es, n - 1, token, route);
      hide FileIsLastSave, Known, Issues, After;
      EventAdds(cfg, ss[n - 1], es[n - 1], token, route);
      assert ss[n] == After(cfg, ss[n - 1], es[n - 1]);
    }
  }

  /** In every run, a token that is valid for a route was issued by an earlier login on it. */
  lemma ValidMeansLogin(cfg: Config, ss: seq<System>, es: seq<Event>, n: nat, token: string, route: string)
    requires IsTrace(cfg, ss, es) && n < |ss| && ss[n].world.memory.Some?
    requires IsValid(ss[n].world.memory.value.sessions, token, route)
    ensures IssuedBefore(cfg, ss, es, n, token, route)
  {
    SessionsWereIssued(cfg, ss, es, n, token, route);
  }

  /** In every run, a request is forwarded only on a public path or with a token that an earlier
      login on the same route issued to an allowed user. */
  lemma ForwardedIsPublicOrIssued(cfg: Config, ss: seq<System>, es: seq<Event>, n: nat)
    requires IsTrace(cfg, ss, es) && n < |es| && es[n].Arrive?
    requires es[n].id in ss[n + 1].flights
    ensures var q := es[n].q;
            || IsPublic(q.verb, Segments(q.path))
            || (q.token.Some? && IsValid(ss[n].world.memory.value.sessions, q.token.value, q.route)
                && IssuedBefore(cfg, ss, es, n, q.token.value, q.route))
  {
    var q := es[n].q;
    assert ss[n + 1] == After(cfg, ss[n], es[n]);
    if !IsPublic(q.verb, Segments(q.path)) {
      hide Segments, IsPublic, Matches, IsTrace;
      assert Decide(ss[n].world.memory.value, q) == Forwarded;
      assert IsTrace(cfg, ss, es);
      ValidMeansLogin(cfg, ss, es, n, q.token.value, q.route);
    }
  }

  /** The resource endpoint, in every run: with auth on it forwards only for a token issued by an
      earlier login on the route, or for a signature that verifies for route, scheme and host. */
  lemma ResourceIsIssuedOrSigned(cfg: Config, ss: seq<System>, es: seq<Event>, n: nat, c: Suite, st: RouteState,
                                 path: string, query: Option<string>, token: Option<string>)
    requires IsTrace(cfg, ss, es) && n < |ss| && ss[n].world.memory.Some?
    requires var m := ss[n].world.memory.value; st.auth == Some(Auth(c, m.secret, m.sessions))
    requires RESOURCE_PREFIX <= path && ProxyResource(st, path, query, token).Forward?
    ensures var d := ProxyResource(st, path, query, token);
            || (token.Some? && IssuedBefore(cfg, ss, es, n, token.value, st.key))
            || Verify(c, ss[n].world.memory.value.secret, SplitFirst(path[|RESOURCE_PREFIX|..]).0,
                      [st.key, d.scheme, d.host])
  {
    hide IsTrace, IssuedBefore, Verify, SplitFirst, Target;
    var m := ss[n].world.memory.value;
    if token.Some? && IsValid(m.sessions, token.value, st.key) {
      ValidMeansLogin(cfg, ss, es, n, token.value, st.key);
    }
  }

  ghost predicate NotIssued(cfg: Config, ss: seq<System>, es: seq<Event>, i: nat, j: nat, token: string)
    requires |ss| == |es| + 1 && j < |ss|
  {
    forall k, route :: i <= k < j ==> !Issues(cfg, ss[k], es[k], token, route)
  }

  ghost predicate Absent(m: Option<Memory>, token: string) {
    m.Some? ==> token !in m.value.sessions
  }

  lemma StaysAbsent(cfg: Config, s: System, e: Event, token: string)
    requires MayHappen(s, e) && FileIsLastSave(Missing, s.world) && Absent(s.world.memory, token)
    requires forall route :: !Issues(cfg, s, e, token, route)
    ensures !e.Boot? ==> Absent(After(cfg, s, e).world.memory, token)
    ensures Absent(s.world.saved, token) ==>
              Absent(After(cfg, s, e).world.memory, token) && Absent(After(cfg, s, e).world.saved, token)
  {
    hide Segments, IsLoginPath, IsPublic, Matches, Decide;
    if e.Reply? {
      assert !Issues(cfg, s, e, token, s.flights[e.id].q.route);
    }
  }

  lemma RefusedStep(cfg: Config, s: System, e: Event, token: string)
    requires MayHappen(s, e) && FileIsLastSave(Missing, s.world) && Refused(s, token) && !e.Halt?
    requires forall route :: !Issues(cfg, s, e, token, route)
    ensures Refused(After(cfg, s, e), token)
  {
    hide After, Issues, FileIsLastSave;
    StaysAbsent(cfg, s, e, token);
    StaysUp(cfg, s, e);
  }

  /** The process runs and does not know `token`. */
  ghost predicate Refused(s: System, token: string) {
    s.world.memory.Some? && token !in s.world.memory.value.sessions
  }

  /** Within one process, a token that is not (or no longer) stored stays refused until a login
      issues it again. */
  lemma {:induction false} RemovedStaysRefused(cfg: Config, ss: seq<System>, es: seq<Event>, i: nat, j: nat, token: string)
    requires IsTrace(cfg, ss, es) && i <= j < |ss|
    requires Refused(ss[i], token)
    requires forall k :: i <= k < j ==> !es[k].Halt?
    requires NotIssued(cfg, ss, es, i, j, token)
    ensures Refused(ss[j], token)
    decreases j - i
  {
    if i < j {
      var s, e := ss[j - 1], es[j - 1];
      assert MayHappen(s, e) && ss[j] == After(cfg, s, e);
      hide FileIsLastSave, Issues, After, MayHappen, Known, IssuedBefore, Refused;
      RemovedStaysRefused(cfg, ss, es, i, j - 1, token);
      SessionsWereIssued(cfg, ss, es, j - 1, token, "");
      RefusedStep(cfg, s, e, token);
    }
  }

  lemma StaysUp(cfg: Config, s: System, e: Event)
    requires MayHappen(s, e) && s.world.memory.Some? && !e.Halt?
    ensures After(cfg, s, e).world.memory.Some? && !e.Boot?
  {
    hide Segments, IsLoginPath, IsPublic, Matches, Decide;
  }

  /** A token that is also out of the state file stays refused across restarts. */
  lemma {:induction false} RemovedForGood(cfg: Config, ss: seq<System>, es: seq<Event>, i: nat, j: nat, token: string)
    requires IsTrace(cfg, ss, es) && i <= j < |ss|
    requires Absent(ss[i].world.memory, token) && Absent(ss[i].world.saved, token)
    requires NotIssued(cfg, ss, es, i, j, token)
    ensures Absent(ss[j].world.memory, token) && Absent(ss[j].world.saved, token)
    decreases j - i
  {
    if i < j {
      var s, e := ss[j - 1], es[j - 1];
      assert MayHappen(s, e) && ss[j] == After(cfg, s, e);
      hide FileIsLastSave, Issues, After, MayHappen, Absent, Known, IssuedBefore;
      RemovedForGood(cfg, ss, es, i, j - 1, token);
      SessionsWereIssued(cfg, ss, es, j - 1, token, "");
      hide IsTrace;
      assert forall route :: !Issues(cfg, s, e, token, route);
      StaysAbsent(cfg, s, e, token);
    }
  }

  /** Logout, then restart: the token is back exactly when the logout's save failed and the file
      still held it. */
  lemma LogoutThenRestart(cfg: Config, ss: seq<System>, es: seq<Event>, n: nat, token: string)
    requires IsTrace(cfg, ss, es) && n + 2 < |es|
    requires es[n].End? && es[n + 1].Halt? && es[n + 2].Boot?
    requires var q := ss[n].flights[es[n].id].q;
             Matches(Segments(q.path), LOGOUT) && q.token == Some(token)
             && token in ss[n].world.memory.value.sessions
    ensures ss[n].world.saved.Some? && ss[n + 3].world.memory.Some?
    ensures token !in ss[n + 1].world.memory.value.sessions
    ensures token in ss[n + 3].world.memory.value.sessions <==>
              !es[n].writes && token in ss[n].world.saved.value.sessions
  {
    SessionsWereIssued(cfg, ss, es, n, token, "");
    var q := ss[n].flights[es[n].id].q;
    LogoutIsPrivate(q.verb, Segments(q.path));
    hide Segments, IsPublic, Matches, IsLoginPath;
    assert ss[n + 1] == After(cfg, ss[n], es[n]);
    assert ss[n + 2] == After(cfg, ss[n + 1], es[n + 1]);
    assert ss[n + 3] == After(cfg, ss[n + 2], es[n + 2]);
  }
}
