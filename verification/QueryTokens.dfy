/** Access tokens in queries (src/auth.rs), and when they can be read in what is logged of a query
    (src/util.rs). */
module QueryTokens {
  import opened Text
  import opened Query

  /** The keys whose value is taken as an access token. */
  predicate IsTokenKey(key: string) {
    Lower(key) in ["api_key", "apikey", "x-emby-token", "x-mediabrowser-token"]
  }

  /** The query carries `token` under `key`; `blank` tells what is only white space. */
  ghost predicate Carries(raw: string, blank: string -> bool, key: string, token: string) {
    IsTokenKey(key) && !blank(token) && token in Values(key, ParseQuery(raw).0)
  }

  /** `t` stands somewhere in `s`. */
  predicate Has(s: string, t: string) {
    t <= s || (s != "" && Has(s[1..], t))
  }

  lemma HasItself(t: string)
    ensures Has(t, t)
  {
  }

  /** `token` stands in some key or some value of the pairs. */
  ghost predicate Seen(pairs: seq<Pair>, token: string) {
    exists key, value :: SeenAt(pairs, key, value, token)
  }

  ghost predicate SeenAt(pairs: seq<Pair>, key: string, value: string, token: string) {
    value in Values(key, pairs) && (Has(key, token) || Has(value, token))
  }

  /** `token` can be read in what is logged of the query. */
  ghost predicate Shows(raw: string, token: string) {
    Seen(ParseQuery(Sanitize(raw)).0, token)
  }

  /** What is logged of a value. */
  function Logged(key: string, value: string): string {
    if IsSensitive(key) then REDACTED else value
  }

  /** Some pair leaves `token` in the log: its key is always logged, its value when the key is not a
      sensitive one, and the word `redacted` when it is. */
  ghost predicate Leaks(pairs: seq<Pair>, token: string) {
    exists key, value :: LeaksAt(pairs, key, value, token)
  }

  ghost predicate LeaksAt(pairs: seq<Pair>, key: string, value: string, token: string) {
    value in Values(key, pairs) && (Has(key, token) || Has(Logged(key, value), token))
  }

  /** `after` is what redaction makes of `before`, key by key. */
  ghost predicate IsLogOf(before: seq<Pair>, after: seq<Pair>) {
    forall key :: Values(key, after) == LoggedValues(key, Values(key, before))
  }

  function LoggedValues(key: string, values: seq<string>): seq<string> {
    if !IsSensitive(key) then values else if values == [] then [] else [REDACTED]
  }

  lemma LoggedIn(key: string, values: seq<string>, value: string)
    requires value in values
    ensures Logged(key, value) in LoggedValues(key, values)
  {
    hide IsSensitive;
  }

  lemma LoggedFrom(key: string, values: seq<string>, logged: string) returns (value: string)
    requires logged in LoggedValues(key, values)
    ensures value in values && Logged(key, value) == logged
  {
    hide IsSensitive;
    if IsSensitive(key) {
      value := values[0];
    } else {
      value := logged;
    }
  }

  lemma SeenIsLeaked(before: seq<Pair>, after: seq<Pair>, token: string)
    requires IsLogOf(before, after)
    ensures Seen(after, token) <==> Leaks(before, token)
  {
    hide Values, Has, Logged, LoggedValues;
    if Seen(after, token) {
      var k, v :| SeenAt(after, k, v, token);
      var u := LoggedFrom(k, Values(k, before), v);
      assert LeaksAt(before, k, u, token);
    }
    if Leaks(before, token) {
      var k, v :| LeaksAt(before, k, v, token);
      LoggedIn(k, Values(k, before), v);
      assert SeenAt(after, k, Logged(k, v), token);
    }
  }

  lemma SanitizedIsLog(raw: string)
    requires !ParseQuery(raw).1
    ensures IsLogOf(ParseQuery(raw).0, ParseQuery(Sanitize(raw)).0)
  {
    hide ParseQuery, Sanitize, IsSensitive, Values, KeysInOrder;
    forall key
      ensures Values(key, ParseQuery(Sanitize(raw)).0) == LoggedValues(key, Values(key, ParseQuery(raw).0))
    {
      SanitizeExact(raw, key);
    }
  }

  lemma SanitizeMalformed(raw: string)
    requires ParseQuery(raw).1
    ensures Sanitize(raw) == raw
  {
    hide ParseQuery;
  }

  /** A token shows in the log form of a query that carries it if and only if the query is malformed
      or some pair leaves it there. */
  lemma ShowsExact(raw: string, blank: string -> bool, key: string, token: string)
    requires Carries(raw, blank, key, token)
    ensures Shows(raw, token) <==> ParseQuery(raw).1 || Leaks(ParseQuery(raw).0, token)
  {
    hide ParseQuery, Sanitize, IsTokenKey, Values, Has;
    if ParseQuery(raw).1 {
      SanitizeMalformed(raw);
      HasItself(token);
      assert SeenAt(ParseQuery(raw).0, key, token, token);
    } else {
      hide Seen, Leaks, IsLogOf;
      SanitizedIsLog(raw);
      SeenIsLeaked(ParseQuery(raw).0, ParseQuery(Sanitize(raw)).0, token);
    }
  }

  /** No token that a query carries shows in its log form if and only if it carries none, or it is
      well formed and no pair leaves one of them in the log. */
  lemma TokensHidden(raw: string, blank: string -> bool)
    ensures (forall key, token :: Carries(raw, blank, key, token) ==> !Shows(raw, token)) <==>
            (forall key, token :: Carries(raw, blank, key, token) ==>
                                    !ParseQuery(raw).1 && !Leaks(ParseQuery(raw).0, token))
  {
    forall key, token | Carries(raw, blank, key, token)
      ensures Shows(raw, token) <==> ParseQuery(raw).1 || Leaks(ParseQuery(raw).0, token)
    {
      ShowsExact(raw, blank, key, token);
    }
    hide ParseQuery, Carries, Shows, Leaks;
  }

  // ---------------------------------------------------------------- queries whose token shows

  const OTHER: string := "x-emby-token"
  const API: string := "api_key"
  const PLAIN: string := "d"

  lemma OtherIs()
    ensures IsTokenKey(OTHER) && !IsSensitive(OTHER) && ValidUtf8(OTHER)
  {
    LowerAlready(OTHER);
    ValidAscii(OTHER);
    assert |OTHER| == 12 && OTHER[0] == 'x';
    NotSensitive(OTHER);
    hide Lower, ValidUtf8, IsSensitive;
  }

  lemma NotSensitive(key: string)
    requires |key| == 12 && key[0] == 'x' && Lower(key) == key
    ensures !IsSensitive(key)
  {
    hide Lower;
    assert "access_token"[0] == 'a';
  }

  lemma ApiIs()
    ensures IsTokenKey(API) && IsSensitive(API) && ValidUtf8(API)
  {
    LowerAlready(API);
    ValidAscii(API);
    hide Lower, ValidUtf8;
  }

  lemma PlainIs()
    ensures !IsTokenKey(PLAIN) && !IsSensitive(PLAIN) && ValidUtf8(PLAIN)
  {
    LowerAlready(PLAIN);
    ValidAscii(PLAIN);
    hide Lower, ValidUtf8;
    assert |PLAIN| == 1;
  }

  lemma KeysAre()
    ensures IsTokenKey(OTHER) && !IsSensitive(OTHER) && ValidUtf8(OTHER)
    ensures IsTokenKey(API) && IsSensitive(API) && ValidUtf8(API)
    ensures !IsTokenKey(PLAIN) && !IsSensitive(PLAIN) && ValidUtf8(PLAIN)
  {
    hide IsTokenKey, IsSensitive, ValidUtf8, OTHER, API, PLAIN;
    OtherIs();
    ApiIs();
    PlainIs();
  }

  lemma ValuesOne(p: Pair, key: string)
    ensures Values(key, [p]) == if p.0 == key then [p.1] else []
  {
    assert [p][1..] == [];
  }

  lemma ValuesTwo(p: Pair, q: Pair, key: string)
    ensures Values(key, [p, q]) == (if p.0 == key then [p.1] else []) + (if q.0 == key then [q.1] else [])
  {
    ValuesOne(q, key);
    ValuesCons(p, [q], key);
    assert [p] + [q] == [p, q];
  }

  /** A pair whose key is not redacted shows its value. */
  lemma PlainPairShows(raw: string, blank: string -> bool, key: string, token: string, plain: string)
    requires Carries(raw, blank, key, token)
    requires !IsSensitive(plain) && token in Values(plain, ParseQuery(raw).0)
    ensures Shows(raw, token)
  {
    hide ParseQuery, Sanitize, IsTokenKey, Values, Has, IsSensitive;
    HasItself(token);
    assert LeaksAt(ParseQuery(raw).0, plain, token, token);
    ShowsExact(raw, blank, key, token);
  }

  /** `x-emby-token` is a token key that is not redacted. */
  lemma OtherKeyShows(token: string, blank: string -> bool)
    requires ValidUtf8(token) && !blank(token)
    ensures var raw := PrintQuery([(OTHER, token)]);
            !ParseQuery(raw).1 && Carries(raw, blank, OTHER, token) && Shows(raw, token)
  {
    hide PrintQuery, ParseQuery, IsTokenKey, IsSensitive, Sanitize, Values, ValidUtf8, Shows, OTHER;
    var p := (OTHER, token);
    KeysAre();
    PrintReadsBack([p]);
    ValuesOne(p, OTHER);
    PlainPairShows(PrintQuery([p]), blank, OTHER, token, OTHER);
  }

  /** A token that also stands under a key that is not redacted shows, although every token of the
      query is under a sensitive key and the query is well formed. */
  lemma RepeatedTokenShows(token: string, blank: string -> bool)
    requires ValidUtf8(token) && !blank(token)
    ensures var raw := PrintQuery([(API, token), (PLAIN, token)]);
            && !ParseQuery(raw).1 && Carries(raw, blank, API, token) && Shows(raw, token)
            && forall key, other :: Carries(raw, blank, key, other) ==> IsSensitive(key)
  {
    hide PrintQuery, ParseQuery, IsTokenKey, IsSensitive, Sanitize, Values, ValidUtf8, Shows, API, PLAIN;
    var p, q := (API, token), (PLAIN, token);
    var raw := PrintQuery([p, q]);
    KeysAre();
    PrintReadsBack([p, q]);
    ValuesTwo(p, q, API);
    ValuesTwo(p, q, PLAIN);
    PlainPairShows(raw, blank, API, token, PLAIN);
    forall key, other | Carries(raw, blank, key, other)
      ensures IsSensitive(key)
    {
      ValuesTwo(p, q, key);
    }
  }

  lemma MalformedParses(p: Pair)
    requires ValidUtf8(p.0) && ValidUtf8(p.1)
    ensures ParseQuery(Printed(p) + ("&" + ";")) == ([p], true)
  {
    hide Printed, SplitOn, ValidUtf8;
    PrintedReads(p);
    var part := Printed(p);
    SplitAtSeparator('&', part, ";");
    SplitWithout('&', ";");
    assert ReadPart(";") == Bad;
    hide ReadPart;
    var parts := [part] + [";"];
    assert SplitOn('&', part + (['&'] + ";")) == parts;
    assert parts[1..] == [";"] && [";"][1..] == [];
    assert PairsOf([";"][1..]) == [];
    assert PairsOf([";"]) == [] && AnyBad([";"]);
    assert PairsOf(parts) == [p] + PairsOf([";"]);
    assert PairsOf(parts) == [p] && AnyBad(parts);
    assert ParseQuery(part + (['&'] + ";")) == ([p], true);
    assert "&" + ";" == ['&'] + ";";
  }

  /** A query with a malformed part is logged as it is. */
  lemma MalformedShows(token: string, blank: string -> bool)
    requires ValidUtf8(token) && !blank(token)
    ensures var raw := Printed((API, token)) + ("&" + ";");
            Carries(raw, blank, API, token) && Shows(raw, token)
  {
    hide Printed, ParseQuery, IsTokenKey, IsSensitive, Sanitize, Values, ValidUtf8, Shows, API;
    var p := (API, token);
    KeysAre();
    MalformedParses(p);
    ValuesOne(p, API);
    ShowsExact(Printed(p) + ("&" + ";"), blank, API, token);
  }
}
