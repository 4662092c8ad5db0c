/** Exactly which sessions are in memory and on file, at every point of every run of the gate. */
module GateSessions {
  import opened Text
  import opened Urls
  import opened Query
  import opened SessionMap
  import opened Resource
  import opened AuthStore
  import opened Gate

  // ---------------------------------------------------------------- what an event does to a token

  ghost predicate Holds(s: System, token: string, session: Session) {
    s.world.memory.Some? && token in s.world.memory.value.sessions && s.world.memory.value.sessions[token] == session
  }

  /** The event issues `session` for `token`: a 200 answer on a login path, to an allowed user. */
  ghost predicate Logins(cfg: Config, s: System, e: Event, token: string, session: Session) {
    && e.Reply? && e.id in s.flights && IsLoginPath(s.flights[e.id].q.path)
    && e.a.Answer? && e.a.status == 200 && e.a.token == token && token != "" && cfg.fold(e.a.user) in cfg.allowed
    && session == Session(s.flights[e.id].q.route, e.a.userId, e.a.user, e.a.at)
  }

  /** The event is a start that finds `session` for `token` in the file and comes up. */
  ghost predicate Restores(s: System, e: Event, token: string, session: Session) {
    && e.Boot? && s.world.file.Saved? && (s.world.file.secret != "" || e.writes)
    && token in s.world.file.sessions && s.world.file.sessions[token] == session
  }

  /** The event ends a logout that carries `token`. */
  ghost predicate EndsLogout(s: System, e: Event, token: string) {
    && e.End? && e.id in s.flights && s.flights[e.id].q.token == Some(token)
    && Segments(s.flights[e.id].q.path) == ["sessions", "logout"]
  }

  /** The event decides anew what is known of `token`. */
  ghost predicate Touches(cfg: Config, s: System, e: Event, token: string) {
    e.Boot? || e.Halt? || EndsLogout(s, e, token) || exists session :: Logins(cfg, s, e, token, session)
  }

  lemma LogoutMatches(segments: seq<string>)
    ensures Matches(segments, LOGOUT) <==> segments == ["sessions", "logout"]
  {
  }

  lemma EndStep(s: System, id: nat, writes: bool, token: string, session: Session)
    requires s.world.memory.Some? && id in s.flights && MayHappen(s, End(id, writes))
    ensures var w := Apply(s.world, EndEffect(s.flights[id].q, writes));
            && w.memory.Some?
            && (token in w.memory.value.sessions && w.memory.value.sessions[token] == session <==>
                  Holds(s, token, session) && !EndsLogout(s, End(id, writes), token))
  {
    var q := s.flights[id].q;
    LogoutMatches(Segments(q.path));
    if Matches(Segments(q.path), LOGOUT) {
      LogoutIsPrivate(q.verb, Segments(q.path));
    }
    hide Segments, IsPublic, Matches;
  }

  lemma ReplyStep(cfg: Config, s: System, id: nat, a: Answer, writes: bool, token: string, session: Session)
    requires s.world.memory.Some? && id in s.flights && MayHappen(s, Reply(id, a, writes))
    ensures var e := Reply(id, a, writes);
            var w := Apply(s.world, AnswerEffect(cfg, s.flights[id].q, a, writes));
            && w.memory.Some?
            && (token in w.memory.value.sessions && w.memory.value.sessions[token] == session <==>
                  || Logins(cfg, s, e, token, session)
                  || (Holds(s, token, session) && !exists other :: Logins(cfg, s, e, token, other)))
  {
    var q := s.flights[id].q;
    hide IsLoginPath;
    if IsLoginPath(q.path) && Accepted(cfg, a) && a.token == token {
      assert Logins(cfg, s, Reply(id, a, writes), token, Session(q.route, a.userId, a.user, a.at));
    }
  }

  /** After an event a token is held as the event gives it, or as before when the event leaves it alone. */
  lemma HoldStep(cfg: Config, s: System, e: Event, token: string, session: Session)
    requires MayHappen(s, e)
    ensures Holds(After(cfg, s, e), token, session) <==>
            || Logins(cfg, s, e, token, session) || Restores(s, e, token, session)
            || (Holds(s, token, session) && !Touches(cfg, s, e, token))
  {
    match e
    case Reply(id, a, writes) =>
      ReplyStep(cfg, s, id, a, writes, token, session);
      hide AnswerEffect, Logins, Apply;
    case End(id, writes) =>
      EndStep(s, id, writes, token, session);
      hide EndEffect, EndsLogout, Apply;
    case _ =>
      hide Decide, Segments, IsLoginPath, Accepted;
  }

  // ---------------------------------------------------------------- over runs

  /** Event `i` gives `session` for `token`, and no later one before `n` decides anew. */
  ghost predicate GivenAt(cfg: Config, ss: seq<System>, es: seq<Event>, i: nat, n: nat, token: string, session: Session)
    requires |ss| == |es| + 1 && i < n < |ss|
  {
    && (Logins(cfg, ss[i], es[i], token, session) || Restores(ss[i], es[i], token, session))
    && forall k :: i < k < n ==> !Touches(cfg, ss[k], es[k], token)
  }

  ghost predicate Given(cfg: Config, ss: seq<System>, es: seq<Event>, n: nat, token: string, session: Session)
    requires |ss| == |es| + 1 && n < |ss|
  {
    exists i :: 0 <= i < n && GivenAt(cfg, ss, es, i, n, token, session)
  }

  lemma GivenStep(cfg: Config, ss: seq<System>, es: seq<Event>, n: nat, token: string, session: Session)
    requires |ss| == |es| + 1 && 0 < n < |ss|
    ensures Given(cfg, ss, es, n, token, session) <==>
            || Logins(cfg, ss[n - 1], es[n - 1], token, session) || Restores(ss[n - 1], es[n - 1], token, session)
            || (Given(cfg, ss, es, n - 1, token, session) && !Touches(cfg, ss[n - 1], es[n - 1], token))
  {
    hide Logins, Restores, Touches;
    if Given(cfg, ss, es, n, token, session) {
      var i :| 0 <= i < n && GivenAt(cfg, ss, es, i, n, token, session);
      assert i < n - 1 ==> GivenAt(cfg, ss, es, i, n - 1, token, session);
    }
    if Given(cfg, ss, es, n - 1, token, session) && !Touches(cfg, ss[n - 1], es[n - 1], token) {
      var i :| 0 <= i < n - 1 && GivenAt(cfg, ss, es, i, n - 1, token, session);
      assert GivenAt(cfg, ss, es, i, n, token, session);
    }
    if Logins(cfg, ss[n - 1], es[n - 1], token, session) || Restores(ss[n - 1], es[n - 1], token, session) {
      assert GivenAt(cfg, ss, es, n - 1, n, token, session);
    }
  }

  /** At every point of every run, the sessions in memory are exactly those issued by a login or
      restored by a start, each as it was given last, and not logged out or forgotten since. */
  lemma {:induction false} SessionsExact(cfg: Config, ss: seq<System>, es: seq<Event>, n: nat, token: string, session: Session)
    requires IsTrace(cfg, ss, es) && n < |ss|
    ensures Holds(ss[n], token, session) <==> Given(cfg, ss, es, n, token, session)
  {
    if n > 0 {
      SessionsExact(cfg, ss, es, n - 1, token, session);
      assert MayHappen(ss[n - 1], es[n - 1]) && ss[n] == After(cfg, ss[n - 1], es[n - 1]);
      hide IsTrace, After, Holds, Given, Logins, Restores, Touches, MayHappen;
      HoldStep(cfg, ss[n - 1], es[n - 1], token, session);
      GivenStep(cfg, ss, es, n, token, session);
    }
  }

  /** A token that a login issues on a route stays valid for it until it is issued again, a logout that
      carries it ends, or the process stops; other logins and logouts do not matter. */
  lemma IssuedStaysValid(cfg: Config, ss: seq<System>, es: seq<Event>, i: nat, j: nat, token: string, session: Session)
    requires IsTrace(cfg, ss, es) && i < j < |ss| && Logins(cfg, ss[i], es[i], token, session)
    requires forall k :: i < k < j ==> !Touches(cfg, ss[k], es[k], token)
    ensures ss[j].world.memory.Some? && IsValid(ss[j].world.memory.value.sessions, token, session.route)
  {
    assert GivenAt(cfg, ss, es, i, j, token, session);
    SessionsExact(cfg, ss, es, j, token, session);
  }

  // ---------------------------------------------------------------- the file

  /** The event writes the file: a login or the logout of a stored token whose save succeeds, or a start
      that makes a secret. */
  ghost predicate Saves(cfg: Config, s: System, e: Event) {
    || (e.Reply? && e.writes && exists token, session :: Logins(cfg, s, e, token, session))
    || (e.End? && e.writes && s.world.memory.Some?
        && exists token :: token in s.world.memory.value.sessions && EndsLogout(s, e, token))
    || (e.Boot? && e.writes && !HasSecret(s.world.file) && !s.world.file.Unreadable?)
  }

  lemma ReplySaves(cfg: Config, s: System, id: nat, a: Answer, writes: bool)
    requires s.world.memory.Some? && id in s.flights && MayHappen(s, Reply(id, a, writes))
    ensures var w := Apply(s.world, AnswerEffect(cfg, s.flights[id].q, a, writes));
            if Saves(cfg, s, Reply(id, a, writes)) then w.saved == w.memory else w.saved == s.world.saved && w.file == s.world.file
  {
    var q := s.flights[id].q;
    hide IsLoginPath;
    if IsLoginPath(q.path) && Accepted(cfg, a) {
      assert Logins(cfg, s, Reply(id, a, writes), a.token, Session(q.route, a.userId, a.user, a.at));
    }
  }

  lemma EndSaves(cfg: Config, s: System, id: nat, writes: bool)
    requires s.world.memory.Some? && id in s.flights && MayHappen(s, End(id, writes))
    ensures var w := Apply(s.world, EndEffect(s.flights[id].q, writes));
            if Saves(cfg, s, End(id, writes)) then w.saved == w.memory else w.saved == s.world.saved && w.file == s.world.file
  {
    var q := s.flights[id].q;
    LogoutMatches(Segments(q.path));
    if Matches(Segments(q.path), LOGOUT) {
      LogoutIsPrivate(q.verb, Segments(q.path));
    }
    hide Segments, IsPublic, Matches, Logins;
    if q.token.Some? {
      assert EndsLogout(s, End(id, writes), q.token.value) <==> Segments(q.path) == ["sessions", "logout"];
    }
  }

  /** An event that saves leaves memory in the file; no other event changes the file. */
  lemma SaveStep(cfg: Config, s: System, e: Event)
    requires MayHappen(s, e) && FileIsLastSave(Missing, s.world)
    ensures var t := After(cfg, s, e).world;
            if Saves(cfg, s, e) then t.memory.Some? && t.saved == t.memory else t.saved == s.world.saved && t.file == s.world.file
  {
    match e
    case Reply(id, a, writes) =>
      ReplySaves(cfg, s, id, a, writes);
      hide Saves, IsLoginPath;
    case End(id, writes) =>
      EndSaves(cfg, s, id, writes);
      hide Saves, Segments, IsPublic, Matches;
    case _ =>
      hide Decide, Segments, IsLoginPath, Accepted;
  }

  /** Event `i` saved `m`, which memory held after it, and nothing before `n` saved again. */
  ghost predicate SavedAt(cfg: Config, ss: seq<System>, es: seq<Event>, i: nat, n: nat, m: Option<Memory>)
    requires |ss| == |es| + 1 && i < n < |ss|
  {
    Saves(cfg, ss[i], es[i]) && ss[i + 1].world.memory == m && forall k :: i < k < n ==> !Saves(cfg, ss[k], es[k])
  }

  /** `m` is what the last event that saved left in memory, none when there was no such event. */
  ghost predicate LastSaved(cfg: Config, ss: seq<System>, es: seq<Event>, n: nat, m: Option<Memory>)
    requires |ss| == |es| + 1 && n < |ss|
  {
    || (m.None? && forall k :: 0 <= k < n ==> !Saves(cfg, ss[k], es[k]))
    || (m.Some? && exists i :: 0 <= i < n && SavedAt(cfg, ss, es, i, n, m))
  }

  lemma LastSavedStep(cfg: Config, ss: seq<System>, es: seq<Event>, n: nat, m: Option<Memory>)
    requires |ss| == |es| + 1 && 0 < n < |ss| && LastSaved(cfg, ss, es, n - 1, m)
    ensures !Saves(cfg, ss[n - 1], es[n - 1]) ==> LastSaved(cfg, ss, es, n, m)
    ensures Saves(cfg, ss[n - 1], es[n - 1]) && ss[n].world.memory.Some? ==> LastSaved(cfg, ss, es, n, ss[n].world.memory)
  {
    hide Saves;
    if Saves(cfg, ss[n - 1], es[n - 1]) {
      assert SavedAt(cfg, ss, es, n - 1, n, ss[n].world.memory);
    } else if m.Some? {
      var i :| 0 <= i < n - 1 && SavedAt(cfg, ss, es, i, n - 1, m);
      assert SavedAt(cfg, ss, es, i, n, m);
    }
  }

  /** At every point of every run the file holds exactly what memory held after the last event that
      saved; before that there is no file. */
  lemma {:induction false} FileExact(cfg: Config, ss: seq<System>, es: seq<Event>, n: nat)
    requires IsTrace(cfg, ss, es) && n < |ss|
    ensures var w := ss[n].world;
            && LastSaved(cfg, ss, es, n, w.saved)
            && w.file == (match w.saved case None => Missing case Some(m) => Saved(m.secret, m.sessions))
  {
    SavedIsFile(cfg, ss, es, n);
    if n > 0 {
      FileExact(cfg, ss, es, n - 1);
      SavedIsFile(cfg, ss, es, n - 1);
      assert MayHappen(ss[n - 1], es[n - 1]) && ss[n] == After(cfg, ss[n - 1], es[n - 1]);
      hide IsTrace, After, Saves, MayHappen, LastSaved, FileIsLastSave;
      SaveStep(cfg, ss[n - 1], es[n - 1]);
      LastSavedStep(cfg, ss, es, n, ss[n - 1].world.saved);
    }
  }

  lemma SavedIsFile(cfg: Config, ss: seq<System>, es: seq<Event>, n: nat)
    requires IsTrace(cfg, ss, es) && n < |ss|
    ensures FileIsLastSave(Missing, ss[n].world)
    ensures var w := ss[n].world;
            w.file == (match w.saved case None => Missing case Some(m) => Saved(m.secret, m.sessions))
  {
    SessionsWereIssued(cfg, ss, es, n, "", "");
    hide IsTrace, IssuedBefore, Known;
  }
}
