/** A run of the gate in which a token that was logged out is valid again. */
module GateFailures {
  import opened Text
  import opened Urls
  import opened Query
  import opened SessionMap
  import opened Resource
  import opened AuthStore
  import opened Gate

  // ---------------------------------------------------------------- the two paths

  const LOGIN_PATH: string := "/users/authenticatebyname"
  const LOGOUT_PATH: string := "/sessions/logout"

  /** A path of two plain segments. */
  lemma TwoSegments(a: string, b: string)
    requires a != "" && b != "" && '/' !in a && '/' !in b && Lower(a) == a && Lower(b) == b && !IsBase(a)
    ensures Segments("/" + (a + ("/" + b))) == [a, b]
  {
    var t := a + ("/" + b);
    assert t[0] != '/' && t[|t| - 1] != '/' by {
      assert a[0] in a && b[|b| - 1] in b;
    }
    SpanOfPrefix(IsSlash, "/", t);
    TrimNothing(t);
    assert Trim("/" + t) == t;
    SplitAtSeparator('/', a, b);
    SplitWithout('/', b);
    hide Trim, Lower, SplitOn, IsBase;
    assert SplitOn('/', t) == [a, b] by {
      assert "/" + b == ['/'] + b;
      assert [a] + [b] == [a, b];
    }
    assert LowerAll([a, b]) == [a, b];
  }

  lemma PathsAre()
    ensures Segments(LOGIN_PATH) == BY_NAME && Segments(LOGOUT_PATH) == LOGOUT
    ensures !(RESOURCE_PREFIX <= LOGIN_PATH) && !(RESOURCE_PREFIX <= LOGOUT_PATH)
  {
    LoginSegments();
    LogoutSegments();
    hide Segments;
    assert LOGIN_PATH[1] == 'u' && LOGOUT_PATH[1] == 's' && RESOURCE_PREFIX[1] == '_';
  }

  lemma LoginSegments()
    ensures Segments(LOGIN_PATH) == BY_NAME
  {
    var a, b := "users", "authenticatebyname";
    LowerAlready(a);
    LowerAlready(b);
    LoginText();
    hide Segments, Lower, LOGIN_PATH;
    TwoSegments(a, b);
  }

  lemma LoginText()
    ensures LOGIN_PATH == "/" + ("users" + ("/" + "authenticatebyname"))
  {
    assert "/authenticatebyname" == "/" + "authenticatebyname";
    assert "users/authenticatebyname" == "users" + "/authenticatebyname";
  }

  lemma LogoutSegments()
    ensures Segments(LOGOUT_PATH) == LOGOUT
  {
    var a, b := "sessions", "logout";
    LowerAlready(a);
    LowerAlready(b);
    assert LOGOUT_PATH == "/" + (a + ("/" + b));
    hide Segments, Lower, LOGOUT_PATH;
    TwoSegments(a, b);
  }

  lemma LoginForwards(m: Memory, q: Request)
    requires q.path == LOGIN_PATH
    ensures Decide(m, q) == Forwarded && IsLoginPath(q.path)
  {
    PathsAre();
    var s := Segments(q.path);
    hide Segments, LOGIN_PATH;
    assert s[0..] == s && s[0] == "users";
    assert IsLogin(s);
    LoginIsListed(s);
    assert |s[1]| == 18 && !Matches(s, ["users", "public"]);
  }

  lemma LogoutForwards(m: Memory, q: Request)
    requires q.path == LOGOUT_PATH && q.token.Some? && IsValid(m.sessions, q.token.value, q.route)
    ensures Decide(m, q) == Forwarded && !IsLoginPath(q.path)
    ensures Matches(Segments(q.path), LOGOUT) && !IsPublic(q.verb, Segments(q.path))
  {
    PathsAre();
    var s := Segments(q.path);
    LoginPathShape(q.path);
    hide Segments, LOGOUT_PATH, IsLoginPath;
    assert s[0] == "sessions" && s[1] == "logout" && |s[0]| == 8 && |s[1]| == 6;
    LogoutIsPrivate(q.verb, s);
    assert !Matches(s, ["users", "public"]);
  }

  // ---------------------------------------------------------------- the run

  lemma TraceGoesOn(cfg: Config, ss: seq<System>, es: seq<Event>, e: Event)
    requires IsTrace(cfg, ss, es) && MayHappen(ss[|es|], e)
    ensures IsTrace(cfg, ss + [After(cfg, ss[|es|], e)], es + [e])
  {
    hide MayHappen, After;
    var more, all := ss + [After(cfg, ss[|es|], e)], es + [e];
    forall i | 0 <= i < |all|
      ensures MayHappen(more[i], all[i]) && more[i + 1] == After(cfg, more[i], all[i])
    {
      assert i < |es| ==> MayHappen(ss[i], es[i]) && ss[i + 1] == After(cfg, ss[i], es[i]);
    }
  }

  lemma Extended(cfg: Config, ss: seq<System>, es: seq<Event>, s: System, e: Event) returns (more: seq<System>, all: seq<Event>)
    requires IsTrace(cfg, ss, es) && |ss| == |es| + 1 && ss[|es|] == s && MayHappen(s, e)
    ensures IsTrace(cfg, more, all) && |all| == |es| + 1 && |more| == |ss| + 1
    ensures all[|es|] == e && more[|ss|] == After(cfg, s, e)
    ensures forall i :: 0 <= i < |es| ==> all[i] == es[i]
    ensures forall i :: 0 <= i < |ss| ==> more[i] == ss[i]
  {
    hide IsTrace, MayHappen, After;
    TraceGoesOn(cfg, ss, es, e);
    more, all := ss + [After(cfg, s, e)], es + [e];
  }

  lemma Booted(cfg: Config, s: System, random: string)
    requires s.world.memory.None? && random != "" && (s.world.file == Missing || HasSecret(s.world.file))
    ensures MayHappen(s, Boot(random, true))
    ensures var t := After(cfg, s, Boot(random, true));
            && t.flights == map[] && t.world.memory.Some?
            && (s.world.file.Saved? ==> t.world.memory.value.sessions == s.world.file.sessions)
            && (s.world.file == Missing ==> t.world.saved == t.world.memory)
  {
  }

  lemma Arrived(cfg: Config, s: System, id: nat, q: Request)
    requires s.world.memory.Some? && id !in s.flights && Decide(s.world.memory.value, q) == Forwarded
    ensures MayHappen(s, Arrive(id, q))
    ensures After(cfg, s, Arrive(id, q)) == s.(flights := s.flights[id := Flight(q, false)])
  {
    hide Decide;
  }

  lemma LoginStoredHere(cfg: Config, s: System, id: nat, a: Answer)
    requires s.world.memory.Some? && id in s.flights && !s.flights[id].answered
    requires IsLoginPath(s.flights[id].q.path) && Accepted(cfg, a)
    ensures MayHappen(s, Reply(id, a, true))
    ensures var t := After(cfg, s, Reply(id, a, true));
            && t.world.memory.Some? && t.world.saved == t.world.memory && t.flights.Keys == s.flights.Keys
            && IsValid(t.world.memory.value.sessions, a.token, s.flights[id].q.route)
  {
    hide IsLoginPath;
  }

  lemma AnsweredFailed(cfg: Config, s: System, id: nat)
    requires s.world.memory.Some? && id in s.flights && !s.flights[id].answered
    ensures MayHappen(s, Reply(id, Failed, true))
    ensures After(cfg, s, Reply(id, Failed, true)) == s.(flights := s.flights[id := Flight(s.flights[id].q, true)])
  {
    hide IsLoginPath;
  }

  lemma LogoutUnsaved(cfg: Config, s: System, id: nat)
    requires s.world.memory.Some? && id in s.flights && s.flights[id].answered
    requires var q := s.flights[id].q;
             Matches(Segments(q.path), LOGOUT) && !IsPublic(q.verb, Segments(q.path)) && q.token.Some?
    ensures MayHappen(s, End(id, false))
    ensures var t := After(cfg, s, End(id, false));
            && t.world.memory.Some? && s.flights[id].q.token.value !in t.world.memory.value.sessions
            && t.world.file == s.world.file && t.world.saved == s.world.saved
  {
    hide Matches, Segments, IsPublic;
  }

  lemma Halted(cfg: Config, s: System)
    requires s.world.memory.Some?
    ensures MayHappen(s, Halt)
    ensures After(cfg, s, Halt).world == s.world.(memory := None)
  {
  }

  /** A first start and a login that is stored and saved. */
  lemma LoggedIn(cfg: Config, route: string, random: string, a: Answer) returns (ss: seq<System>, es: seq<Event>)
    requires random != "" && Accepted(cfg, a)
    ensures IsTrace(cfg, ss, es) && |es| == 3 && |ss| == 4
    ensures var w := ss[3].world;
            && w.memory.Some? && w.saved == w.memory && 1 !in ss[3].flights
            && IsValid(w.memory.value.sessions, a.token, route)
  {
    var q := Request(route, "POST", LOGIN_PATH, None);
    var s0 := System(World(None, Missing, None), map[]);
    ss, es := [s0], [];
    assert IsTrace(cfg, ss, es);
    hide IsTrace, Decide, IsLoginPath, LOGIN_PATH, After, MayHappen, Accepted, IsValid;
    Booted(cfg, s0, random);
    ss, es := Extended(cfg, ss, es, s0, Boot(random, true));
    var s1 := ss[1];
    LoginForwards(s1.world.memory.value, q);
    Arrived(cfg, s1, 0, q);
    ss, es := Extended(cfg, ss, es, s1, Arrive(0, q));
    var s2 := ss[2];
    LoginStoredHere(cfg, s2, 0, a);
    ss, es := Extended(cfg, ss, es, s2, Reply(0, a, true));
  }

  /** Then a logout whose save fails. */
  lemma LoggedOut(cfg: Config, route: string, random: string, a: Answer) returns (ss: seq<System>, es: seq<Event>)
    requires random != "" && Accepted(cfg, a)
    ensures IsTrace(cfg, ss, es) && |es| == 6 && |ss| == 7 && es[5] == End(1, false)
    ensures var w := ss[6].world;
            && w.memory.Some? && a.token !in w.memory.value.sessions
            && w.saved.Some? && IsValid(w.saved.value.sessions, a.token, route)
  {
    ss, es := LoggedIn(cfg, route, random, a);
    var q := Request(route, "POST", LOGOUT_PATH, Some(a.token));
    var s3 := ss[3];
    LogoutForwards(s3.world.memory.value, q);
    hide IsTrace, Decide, IsLoginPath, LOGOUT_PATH, IsPublic, Matches, Segments, Accepted, After, MayHappen, IsValid;
    Arrived(cfg, s3, 1, q);
    ss, es := Extended(cfg, ss, es, s3, Arrive(1, q));
    var s4 := ss[4];
    AnsweredFailed(cfg, s4, 1);
    ss, es := Extended(cfg, ss, es, s4, Reply(1, Failed, true));
    var s5 := ss[5];
    LogoutUnsaved(cfg, s5, 1);
    ss, es := Extended(cfg, ss, es, s5, End(1, false));
  }

  /** Then a restart: the token is valid again. */
  lemma TokenIsBack(cfg: Config, route: string, random: string, a: Answer) returns (ss: seq<System>, es: seq<Event>)
    requires random != "" && Accepted(cfg, a)
    ensures IsTrace(cfg, ss, es) && |es| == 8 && |ss| == 9
    ensures es[5] == End(1, false) && es[6] == Halt && es[7] == Boot(random, true)
    ensures ss[6].world.memory.Some? && !IsValid(ss[6].world.memory.value.sessions, a.token, route)
    ensures ss[8].world.memory.Some? && IsValid(ss[8].world.memory.value.sessions, a.token, route)
  {
    ss, es := LoggedOut(cfg, route, random, a);
    var s6 := ss[6];
    SessionsWereIssued(cfg, ss, es, 6, "", "");
    hide IsTrace, Accepted, After, MayHappen;
    Halted(cfg, s6);
    ss, es := Extended(cfg, ss, es, s6, Halt);
    var s7 := ss[7];
    Booted(cfg, s7, random);
    ss, es := Extended(cfg, ss, es, s7, Boot(random, true));
  }
}
