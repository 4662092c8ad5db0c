/** What the gate's path rules and its verdicts come to (src/server/auth_gate.rs, src/server/route.rs). */
module GateRules {
  import opened Text
  import opened Query
  import opened SessionMap
  import opened Resource
  import opened AuthStore
  import opened Gate

  lemma PlainMatches(s: seq<string>, want: seq<string>)
    requires forall i :: 0 <= i < |want| ==> want[i] != "*"
    ensures Matches(s, want) <==> s == want
  {
  }

  /** A list of endpoints without a wildcard. */
  ghost predicate IsListed(s: seq<string>) {
    || s == ["favicon.ico"]
    || s == ["system", "info", "public"]
    || s == ["system", "ping"]
    || s == ["users", "authenticatebyname"]
    || s == ["branding", "configuration"]
    || s == ["branding", "css"]
    || s == ["branding", "css.css"]
  }

  lemma ListedIs(s: seq<string>)
    ensures (exists k :: 0 <= k < |PUBLIC| && Matches(s, PUBLIC[k])) <==>
            IsListed(s) || (|s| == 3 && s[0] == "users" && s[2] == "authenticate")
  {
    PlainMatches(s, PUBLIC[0]);
    PlainMatches(s, PUBLIC[1]);
    PlainMatches(s, PUBLIC[2]);
    PlainMatches(s, PUBLIC[3]);
    PlainMatches(s, PUBLIC[5]);
    PlainMatches(s, PUBLIC[6]);
    PlainMatches(s, PUBLIC[7]);
    ByIdIs(s);
    hide Matches;
    assert PUBLIC[4] == BY_ID;
    assert IsListed(s) || Matches(s, BY_ID) ==> exists k :: 0 <= k < |PUBLIC| && Matches(s, PUBLIC[k]) by {
      assert Matches(s, PUBLIC[0]) || Matches(s, PUBLIC[1]) || Matches(s, PUBLIC[2]) || Matches(s, PUBLIC[3])
             || Matches(s, PUBLIC[4]) || Matches(s, PUBLIC[5]) || Matches(s, PUBLIC[6]) || Matches(s, PUBLIC[7])
             || !(IsListed(s) || Matches(s, BY_ID));
    }
  }

  lemma ByIdIs(s: seq<string>)
    ensures Matches(s, BY_ID) <==> |s| == 3 && s[0] == "users" && s[2] == "authenticate"
  {
    assert BY_ID[0] == "users" && BY_ID[1] == "*" && BY_ID[2] == "authenticate" && |BY_ID| == 3;
    assert |"users"| == 5 && |"authenticate"| == 12 && |"*"| == 1;
  }

  /** Exactly which paths are public, segment by segment. */
  lemma PublicExact(verb: string, s: seq<string>)
    ensures IsPublic(verb, s) <==>
            || s == [] || IsListed(s)
            || (|s| == 3 && s[0] == "users" && s[2] == "authenticate")
            || s[0] == "web"
            || ((verb == "GET" || verb == "HEAD") && exists i :: 0 <= i < |s| && s[i] == "images")
  {
    ListedIs(s);
    hide Matches, IsListed;
  }

  /** Exactly which requests are forwarded, and what happens to the others. */
  lemma DecideExact(m: Memory, q: Request)
    ensures var s := Segments(q.path);
            && (Decide(m, q) == ToResource <==> RESOURCE_PREFIX <= q.path)
            && (Decide(m, q) == NoUsers <==> !(RESOURCE_PREFIX <= q.path) && s == ["users", "public"])
            && (Decide(m, q) == Forwarded <==>
                  && !(RESOURCE_PREFIX <= q.path) && s != ["users", "public"]
                  && (IsPublic(q.verb, s) || (q.token.Some? && IsValid(m.sessions, q.token.value, q.route))))
  {
    PlainMatches(Segments(q.path), ["users", "public"]);
    hide Segments, IsPublic, Matches;
  }

  /** In every run, no request for the upstream's user list is ever forwarded. */
  lemma {:induction false} UserListStaysHidden(cfg: Config, ss: seq<System>, es: seq<Event>, n: nat, id: nat)
    requires IsTrace(cfg, ss, es) && n < |ss| && id in ss[n].flights
    ensures Segments(ss[n].flights[id].q.path) != ["users", "public"]
  {
    assert n > 0;
    var s, e := ss[n - 1], es[n - 1];
    assert MayHappen(s, e) && ss[n] == After(cfg, s, e);
    if e.Arrive? && e.id == id {
      DecideExact(s.world.memory.value, e.q);
    } else {
      assert id in s.flights && ss[n].flights[id].q == s.flights[id].q;
      UserListStaysHidden(cfg, ss, es, n - 1, id);
    }
    hide Segments, IsTrace, Decide, IsPublic;
  }
}
