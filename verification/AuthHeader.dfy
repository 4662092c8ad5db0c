/** The access token in an Emby authorization header (`authorization_token` in src/auth.rs). */
module AuthHeader {
  import opened Text

  predicate IsSpace(c: char) {
    c in " \t\n\r" || c as int == 0x0C
  }

  predicate IsTokenByte(c: char) {
    c != '"' && c != ',' && !IsSpace(c)
  }

  // ---------------------------------------------------------------- the pattern

  /** The bytes from `a` up to `b` all satisfy `p`. */
  ghost predicate Run(p: char -> bool, s: string, a: nat, b: nat) {
    a <= b <= |s| && forall k :: a <= k < b ==> p(s[k])
  }

  ghost predicate LongestRun(p: char -> bool, s: string, a: nat, b: nat) {
    Run(p, s, a, b) && (b == |s| || !p(s[b]))
  }

  /** Where the parts of a match lie: the sign, the end of the space after it, and the token. */
  datatype Match = Match(sign: nat, gap: nat, from: nat, to: nat)

  predicate AtBoundary(s: string, i: nat)
    requires i < |s|
  {
    i == 0 || s[i - 1] == ' ' || s[i - 1] == '\t' || s[i - 1] == ','
  }

  /** At `i`, at a boundary: `token` in any case, optional space, `=`, optional space, an optional
      quote, and a non-empty token. */
  ghost predicate Reads(s: string, i: nat, m: Match) {
    && i + 5 <= m.sign < m.gap <= m.from < m.to <= |s|
    && AtBoundary(s, i) && Lower(s[i..i + 5]) == "token"
    && Run(IsSpace, s, i + 5, m.sign) && s[m.sign] == '='
    && Run(IsSpace, s, m.sign + 1, m.gap)
    && (m.from == m.gap || (m.from == m.gap + 1 && s[m.gap] == '"'))
    && Run(IsTokenByte, s, m.from, m.to)
  }

  ghost predicate MatchesAt(s: string, i: nat) {
    exists m :: Reads(s, i, m)
  }

  /** The match at `i` with the longest token. */
  ghost predicate TokenAt(s: string, i: nat, token: string) {
    exists m :: Reads(s, i, m) && LongestRun(IsTokenByte, s, m.from, m.to) && token == s[m.from..m.to]
  }

  // ---------------------------------------------------------------- the scan

  method SkipWhile(p: char -> bool, s: string, from: nat) returns (j: nat)
    requires from <= |s|
    ensures LongestRun(p, s, from, j)
  {
    j := from;
    while j < |s| && p(s[j])
      invariant Run(p, s, from, j)
    {
      j := j + 1;
    }
  }

  /** A longest run is as long as any run that something else ends. */
  lemma SameRun(p: char -> bool, s: string, from: nat, a: nat, b: nat)
    requires LongestRun(p, s, from, a) && Run(p, s, from, b) && (b == |s| || !p(s[b]))
    ensures a == b
  {
  }

  /** A match has its parts where a scan from the left finds them. */
  lemma SignIsThere(s: string, i: nat, m: Match, sign: nat)
    requires Reads(s, i, m) && LongestRun(IsSpace, s, i + 5, sign)
    ensures m.sign == sign
  {
    SameRun(IsSpace, s, i + 5, sign, m.sign);
  }

  lemma TokenIsThere(s: string, i: nat, m: Match, gap: nat)
    requires Reads(s, i, m) && LongestRun(IsSpace, s, m.sign + 1, gap)
    ensures m.gap == gap && m.from == (if s[gap] == '"' then gap + 1 else gap) && IsTokenByte(s[m.from])
  {
    assert IsTokenByte(s[m.from]);
    SameRun(IsSpace, s, m.sign + 1, gap, m.gap);
  }

  /** One position of the search. */
  method TokenFrom(s: string, i: nat) returns (r: Option<string>)
    requires i + 5 <= |s|
    ensures r.Some? ==> TokenAt(s, i, r.value)
    ensures r.None? ==> !MatchesAt(s, i)
  {
    if !AtBoundary(s, i) || Lower(s[i..i + 5]) != "token" {
      return None;
    }
    hide Run, IsSpace, IsTokenByte, AtBoundary;
    var j := SkipWhile(IsSpace, s, i + 5);
    ghost var sign := j;
    RunEnds(IsSpace, s, i + 5, j);
    if j == |s| || s[j] != '=' {
      NoSign(s, i, j);
      return None;
    }
    j := j + 1;
    var gap := SkipWhile(IsSpace, s, j);
    RunEnds(IsSpace, s, j, gap);
    j := gap;
    if j < |s| && s[j] == '"' {
      j := j + 1;
    }
    var start := j;
    j := SkipWhile(IsTokenByte, s, start);
    RunEnds(IsTokenByte, s, start, j);
    if j > start {
      assert Reads(s, i, Match(sign, gap, start, j));
      return Some(s[start..j]);
    }
    NoToken(s, i, sign, gap, start);
    return None;
  }

  lemma RunEnds(p: char -> bool, s: string, a: nat, b: nat)
    requires Run(p, s, a, b)
    ensures a <= b <= |s|
  {
  }

  lemma NoSign(s: string, i: nat, sign: nat)
    requires LongestRun(IsSpace, s, i + 5, sign) && (sign == |s| || s[sign] != '=')
    ensures !MatchesAt(s, i)
  {
    forall m | Reads(s, i, m)
      ensures false
    {
      SignIsThere(s, i, m, sign);
    }
  }

  lemma NoToken(s: string, i: nat, sign: nat, gap: nat, start: nat)
    requires LongestRun(IsSpace, s, i + 5, sign) && LongestRun(IsSpace, s, sign + 1, gap)
    requires start == if gap < |s| && s[gap] == '"' then gap + 1 else gap
    requires LongestRun(IsTokenByte, s, start, start)
    ensures !MatchesAt(s, i)
  {
    forall m | Reads(s, i, m)
      ensures false
    {
      SignIsThere(s, i, m, sign);
      TokenIsThere(s, i, m, gap);
    }
  }

  /** The token of the leftmost match, at its longest; none exactly when no position matches. */
  method AuthorizationToken(header: string) returns (r: Option<string>)
    ensures r.Some? ==>
              exists i: nat :: TokenAt(header, i, r.value) && forall k: nat :: k < i ==> !MatchesAt(header, k)
    ensures r.None? <==> forall k: nat :: !MatchesAt(header, k)
  {
    hide TokenAt, MatchesAt;
    var i := 0;
    while i + 5 <= |header|
      invariant forall k: nat :: k < i ==> !MatchesAt(header, k)
    {
      r := TokenFrom(header, i);
      if r.Some? {
        TokenIsMatch(header, i, r.value);
        return;
      }
      i := i + 1;
    }
    forall k: nat | i <= k
      ensures !MatchesAt(header, k)
    {
      TooShort(header, k);
    }
    return None;
  }

  lemma TokenIsMatch(s: string, i: nat, token: string)
    requires TokenAt(s, i, token)
    ensures MatchesAt(s, i) && token != ""
  {
  }

  lemma TooShort(s: string, i: nat)
    requires i + 5 > |s|
    ensures !MatchesAt(s, i)
  {
  }

  /** A position that matches has one longest token, so the leftmost match determines the result. */
  lemma TokenIsUnique(s: string, i: nat, a: string, b: string)
    requires TokenAt(s, i, a) && TokenAt(s, i, b)
    ensures a == b
  {
    var m :| Reads(s, i, m) && LongestRun(IsTokenByte, s, m.from, m.to) && a == s[m.from..m.to];
    var n :| Reads(s, i, n) && LongestRun(IsTokenByte, s, n.from, n.to) && b == s[n.from..n.to];
    SameMatch(s, i, m, n);
  }

  lemma SameMatch(s: string, i: nat, m: Match, n: Match)
    requires Reads(s, i, m) && LongestRun(IsTokenByte, s, m.from, m.to)
    requires Reads(s, i, n) && LongestRun(IsTokenByte, s, n.from, n.to)
    ensures m == n
  {
    SignIsThere(s, i, m, n.sign);
    assert IsTokenByte(s[n.from]);
    assert LongestRun(IsSpace, s, n.sign + 1, n.gap);
    TokenIsThere(s, i, m, n.gap);
    SameRun(IsTokenByte, s, m.from, m.to, n.to);
  }

  /** The bytes that count as space, those of a token, and where a match may start. */
  lemma BytesExact(c: char, s: string, i: nat)
    requires i < |s|
    ensures IsSpace(c) <==> c as int == 0x20 || c as int == 0x09 || c as int == 0x0A || c as int == 0x0C || c as int == 0x0D
    ensures IsTokenByte(c) <==> !IsSpace(c) && c as int != 0x22 && c as int != 0x2C
    ensures AtBoundary(s, i) <==> i == 0 || s[i - 1] as int == 0x20 || s[i - 1] as int == 0x09 || s[i - 1] as int == 0x2C
  {
  }
}
