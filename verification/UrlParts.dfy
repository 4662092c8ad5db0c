/** The texts that are rewritten, as URLs: scheme, user, host, path, query and fragment. */
module UrlParts {
  import opened Text
  import opened Urls

  /** The pieces of a URL. */
  datatype Pieces = Pieces(scheme: string, user: Option<string>, host: string, path: string,
                           query: Option<string>, fragment: Option<string>)

  function Before(user: Option<string>): string {
    if user.Some? then user.value + "@" else ""
  }

  function After(mark: char, s: Option<string>): string {
    if s.Some? then [mark] + s.value else ""
  }

  function OrEmpty(s: Option<string>): string {
    if s.Some? then s.value else ""
  }

  /** What follows the scheme. */
  function RestText(u: Pieces): string {
    Before(u.user) + u.host + u.path + After('?', u.query) + After('#', u.fragment)
  }

  function UrlText(u: Pieces): string {
    u.scheme + "://" + RestText(u)
  }

  /** No byte below 0x20 and no 0x7F. */
  predicate NoControls(s: string) {
    forall i :: 0 <= i < |s| ==> 0x20 <= s[i] as int && s[i] as int != 0x7F
  }

  lemma NoControlsIs(s: string)
    ensures NoControls(s) <==> !(exists i :: 0 <= i < |s| && IsControl(s[i]))
  {
  }

  /** None of the characters that end a part of a URL. */
  predicate NoMarks(s: string) {
    '?' !in s && '#' !in s
  }

  predicate GoodPieces(u: Pieces) {
    && (u.scheme == "http" || u.scheme == "https")
    && (u.user.Some? ==> NoMarks(u.user.value) && '/' !in u.user.value)
    && ValidHost(u.host) && NoMarks(u.host) && '/' !in u.host && '@' !in u.host
    && NoMarks(u.path) && (u.path == "" || u.path[0] == '/')
    && (u.query.Some? ==> '#' !in u.query.value)
    && NoControls(UrlText(u))
  }

  // ---------------------------------------------------------------- reading the pieces

  lemma SchemeOfText(scheme: string, rest: string)
    requires scheme == "http" || scheme == "https"
    ensures var raw := scheme + "://" + rest;
            SchemeOf(raw) == Some(scheme) && |raw| >= |scheme| + 3 && raw[|scheme| + 3..] == rest
  {
    var raw := scheme + "://" + rest;
    if scheme == "http" {
      assert raw[4] == ':' && raw[..7] == "http://";
    } else {
      assert raw[..8] == "https://";
    }
  }

  lemma SplitsAt(c: char, a: string, s: Option<string>)
    requires c !in a
    ensures BeforeFirst(c, a + After(c, s)) == a && AfterFirst(c, a + After(c, s)) == OrEmpty(s)
  {
    FindOfPrefix(c, a, After(c, s));
    if s.Some? {
      assert (a + ([c] + s.value))[|a| + 1..] == s.value;
    } else {
      assert a + "" == a;
    }
  }

  lemma SplitsAtSlash(a: string, path: string)
    requires '/' !in a && (path == "" || path[0] == '/')
    ensures BeforeFirst('/', a + path) == a && (a + path)[|a|..] == path
  {
    FindOfPrefix('/', a, path);
  }

  lemma {:induction false} LastIs(c: char, a: string, b: string)
    requires c !in b
    ensures FindLast(c, a + [c] + b) == |a|
    decreases |b|
  {
    var s := a + [c] + b;
    if b == "" {
      assert s[|s| - 1] == c;
    } else {
      var n := |b| - 1;
      assert s[..|s| - 1] == a + [c] + b[..n] && s[|s| - 1] == b[n] && b[n] in b;
      LastIs(c, a, b[..n]);
    }
  }

  lemma {:induction false} NoLast(c: char, s: string)
    requires c !in s
    ensures FindLast(c, s) == -1 && AfterLast(c, s) == s
  {
    if s != "" {
      NoLast(c, s[..|s| - 1]);
    }
  }

  lemma HostAfterUser(user: Option<string>, host: string)
    requires '@' !in host
    ensures AfterLast('@', Before(user) + host) == host
  {
    if user.Some? {
      LastIs('@', user.value, host);
      assert user.value + ['@'] + host == Before(user) + host;
    } else {
      assert "" + host == host;
      NoLast('@', host);
    }
  }

  lemma NotIn(c: char, a: string, b: string)
    requires c !in a && c !in b
    ensures c !in a + b
  {
  }

  lemma UserHas(c: char, user: Option<string>)
    requires c != '@' && (user.Some? ==> c !in user.value)
    ensures c !in Before(user)
  {
  }

  /** Splitting a URL gives its scheme, host, path and query. */
  lemma SplitOfText(u: Pieces)
    requires GoodPieces(u)
    ensures SplitUrl(UrlText(u)) == Some(Parts(u.scheme, u.host, u.path, OrEmpty(u.query)))
  {
    var authority := Before(u.user) + u.host;
    var front := authority + u.path;
    var rest := front + After('?', u.query);
    UserHas('#', u.user);
    UserHas('?', u.user);
    UserHas('/', u.user);
    NotIn('#', Before(u.user), u.host);
    NotIn('#', authority, u.path);
    NotIn('#', front, After('?', u.query));
    NotIn('?', Before(u.user), u.host);
    NotIn('?', authority, u.path);
    NotIn('/', Before(u.user), u.host);
    NoControlsIs(UrlText(u));
    hide ValidHost, BeforeFirst, AfterFirst, AfterLast, SchemeOf, IsControl, Before, After, NoControls;
    SchemeOfText(u.scheme, RestText(u));
    SplitsAt('#', rest, u.fragment);
    SplitsAt('?', front, u.query);
    SplitsAtSlash(authority, u.path);
    HostAfterUser(u.user, u.host);
  }

  // ---------------------------------------------------------------- finding the pieces

  lemma CutFirst(c: char, s: string) returns (tail: Option<string>)
    ensures s == BeforeFirst(c, s) + After(c, tail) && AfterFirst(c, s) == OrEmpty(tail) && c !in BeforeFirst(c, s)
  {
    FindIsFirst(c, s);
    var n := Find(c, s);
    if n == |s| {
      tail := None;
      assert s[..n] + "" == s;
    } else {
      tail := Some(s[n + 1..]);
      SplitAround(s, n);
    }
  }

  lemma CutUser(s: string) returns (user: Option<string>)
    ensures s == Before(user) + AfterLast('@', s) && '@' !in AfterLast('@', s)
    ensures user.Some? ==> user.value <= s
  {
    FindLastIsLast('@', s);
    var n := FindLast('@', s);
    if n < 0 {
      user := None;
      assert s[0..] == s && "" + s == s;
    } else {
      user := Some(s[..n]);
      SplitAround(s, n);
      assert s[..n] + ("@" + s[n + 1..]) == s[..n] + "@" + s[n + 1..];
    }
  }

  lemma InFront(c: char, a: string, s: string)
    requires a <= s && c !in s
    ensures c !in a
  {
  }

  lemma InBack(c: char, a: string, b: string)
    requires c !in a + b
    ensures c !in a && c !in b
  {
    forall i | 0 <= i < |a|
      ensures a[i] != c
    {
      assert (a + b)[i] == a[i];
    }
    forall i | 0 <= i < |b|
      ensures b[i] != c
    {
      assert (a + b)[|a| + i] == b[i];
    }
  }

  /** User, host and path of what stands before query and fragment. */
  lemma FrontPieces(front: string) returns (user: Option<string>)
    requires NoMarks(front)
    ensures var authority := BeforeFirst('/', front);
            var host, path := AfterLast('@', authority), front[|authority|..];
            && front == Before(user) + host + path
            && (user.Some? ==> NoMarks(user.value) && '/' !in user.value)
            && NoMarks(host) && '/' !in host && '@' !in host
            && NoMarks(path) && (path == "" || path[0] == '/')
  {
    var authority := BeforeFirst('/', front);
    var path := front[|authority|..];
    var tail := CutFirst('/', front);
    assert front == authority + path && path == After('/', tail);
    user := CutUser(authority);
    var host := AfterLast('@', authority);
    hide BeforeFirst, AfterLast;
    InBack('#', authority, path);
    InBack('?', authority, path);
    InBack('#', Before(user), host);
    InBack('?', Before(user), host);
    InBack('/', Before(user), host);
    if user.Some? {
      InFront('#', user.value, authority);
      InFront('?', user.value, authority);
      InFront('/', user.value, authority);
    }
  }

  lemma CleanQuery(front: string, query: Option<string>)
    requires '#' !in front + After('?', query)
    ensures '#' !in front && (query.Some? ==> '#' !in query.value)
  {
    InBack('#', front, After('?', query));
    if query.Some? {
      InBack('#', ['?'], query.value);
    }
  }

  /** Every text that splits is a URL with these parts. */
  lemma TextOfSplit(raw: string) returns (u: Pieces)
    requires SplitUrl(raw).Some?
    ensures GoodPieces(u) && UrlText(u) == raw
    ensures SplitUrl(raw).value == Parts(u.scheme, u.host, u.path, OrEmpty(u.query))
  {
    var scheme := SchemeOf(raw).value;
    SchemeText(raw);
    NoControlsIs(raw);
    var all := raw[|scheme| + 3..];
    hide ValidHost, BeforeFirst, AfterFirst, AfterLast, SchemeOf, IsControl, Before, After, OrEmpty, NoControls;
    var fragment := CutFirst('#', all);
    var rest := BeforeFirst('#', all);
    var query := CutFirst('?', rest);
    var front := BeforeFirst('?', rest);
    CleanQuery(front, query);
    var user := FrontPieces(front);
    var authority := BeforeFirst('/', front);
    u := Pieces(scheme, user, AfterLast('@', authority), front[|authority|..], query, fragment);
    assert RestText(u) == all;
  }

  lemma SchemeText(raw: string)
    requires SchemeOf(raw).Some?
    ensures var s := SchemeOf(raw).value;
            (s == "http" || s == "https") && |raw| >= |s| + 3 && raw == s + "://" + raw[|s| + 3..]
  {
    if "https://" <= raw {
      SplitAt(raw, 8);
      assert raw[..8] == "https" + "://";
    } else {
      SplitAt(raw, 7);
      assert raw[..7] == "http" + "://";
    }
  }

  /** `SplitUrl` finds these parts exactly in the URLs that have them. */
  lemma SplitExact(raw: string, p: Parts)
    ensures SplitUrl(raw) == Some(p) <==>
            exists u :: GoodPieces(u) && raw == UrlText(u) && p == Parts(u.scheme, u.host, u.path, OrEmpty(u.query))
  {
    hide SplitUrl, GoodPieces, UrlText;
    if SplitUrl(raw) == Some(p) {
      var u := TextOfSplit(raw);
    }
    forall u | GoodPieces(u) && raw == UrlText(u)
      ensures SplitUrl(raw) == Some(Parts(u.scheme, u.host, u.path, OrEmpty(u.query)))
    {
      SplitOfText(u);
    }
  }

  // ---------------------------------------------------------------- hosts

  ghost predicate IsPortText(port: string) {
    port == "" || (port[0] == ':' && All(IsDigit, port[1..]))
  }

  /** A name and a port: a bracketed name ends at its first closing bracket, another name has a port
      whenever there is a colon. */
  ghost predicate NameAndPort(host: string, name: string, port: string) {
    && host == name + port && IsPortText(port)
    && (if host != "" && host[0] == '[' then name != "" && name[|name| - 1] == ']' && ']' !in name[..|name| - 1]
        else port == "" ==> ':' !in name)
  }

  /** A host is valid exactly when it is a name and a port without spaces, controls, percent signs,
      quotes, angle brackets and backslashes. */
  lemma ValidHostExact(host: string)
    ensures ValidHost(host) <==>
            && host != "" && (forall i :: 0 <= i < |host| ==> host[i] > ' ' && host[i] !in "%\"<>\\")
            && exists name, port :: NameAndPort(host, name, port)
  {
    BytesAre(host);
    if host != "" {
      if host[0] == '[' {
        BracketedExact(host);
      } else {
        NamedExact(host);
      }
    }
  }

  lemma BytesAre(host: string)
    ensures (exists i :: 0 <= i < |host| && BadHostByte(host[i])) <==>
            !(forall i :: 0 <= i < |host| ==> host[i] > ' ' && host[i] !in "%\"<>\\")
  {
    forall i | 0 <= i < |host|
      ensures BadHostByte(host[i]) <==> !(host[i] > ' ' && host[i] !in "%\"<>\\")
    {
    }
  }

  lemma BracketedExact(host: string)
    requires host != "" && host[0] == '['
    ensures (Find(']', host) < |host| && IsPort(host[Find(']', host) + 1..])) <==>
            exists name, port :: NameAndPort(host, name, port)
  {
    var n := Find(']', host);
    if n < |host| && IsPort(host[n + 1..]) {
      BracketedHas(host);
    }
    forall name, port | NameAndPort(host, name, port)
      ensures n < |host| && IsPort(host[n + 1..])
    {
      BracketedIs(host, name, port);
    }
    hide NameAndPort, IsPort, Find;
  }

  lemma BracketedHas(host: string)
    requires host != "" && host[0] == '[' && Find(']', host) < |host| && IsPort(host[Find(']', host) + 1..])
    ensures NameAndPort(host, host[..Find(']', host) + 1], host[Find(']', host) + 1..])
  {
    var n := Find(']', host);
    FindIsFirst(']', host);
    hide Find, All;
    SplitAt(host, n + 1);
    assert host[..n + 1][..n] == host[..n];
  }

  lemma BracketedIs(host: string, name: string, port: string)
    requires host != "" && host[0] == '[' && NameAndPort(host, name, port)
    ensures Find(']', host) < |host| && IsPort(host[Find(']', host) + 1..])
  {
    hide All;
    var m := |name| - 1;
    FindOfPrefix(']', name[..m], "]" + port);
    hide Find;
    assert name == name[..m] + "]";
    assert host == name[..m] + ("]" + port);
    assert host[m + 1..] == port;
  }

  lemma NamedExact(host: string)
    requires host != "" && host[0] != '['
    ensures (FindLast(':', host) < 0 || IsPort(host[FindLast(':', host)..])) <==>
            exists name, port :: NameAndPort(host, name, port)
  {
    var n := FindLast(':', host);
    if n < 0 || IsPort(host[n..]) {
      var name, port := NamedHas(host);
    }
    forall name, port | NameAndPort(host, name, port)
      ensures n < 0 || IsPort(host[n..])
    {
      NamedIs(host, name, port);
    }
    hide NameAndPort, IsPort, FindLast;
  }

  lemma NamedHas(host: string) returns (name: string, port: string)
    requires host != "" && host[0] != '[' && (FindLast(':', host) < 0 || IsPort(host[FindLast(':', host)..]))
    ensures NameAndPort(host, name, port)
  {
    var n := FindLast(':', host);
    FindLastIsLast(':', host);
    hide FindLast, All;
    if n < 0 {
      name, port := host, "";
      assert n == -1 && host[n + 1..] == host;
      assert host + "" == host && ':' !in host;
      assert IsPortText("");
    } else {
      name, port := host[..n], host[n..];
      SplitAt(host, n);
      assert port != "" && IsPortText(port);
    }
  }

  lemma NamedIs(host: string, name: string, port: string)
    requires host != "" && host[0] != '[' && NameAndPort(host, name, port)
    ensures FindLast(':', host) < 0 || IsPort(host[FindLast(':', host)..])
  {
    hide FindLast, All;
    if port == "" {
      assert host == name;
      NoLast(':', host);
    } else {
      DigitsHaveNoColon(port[1..]);
      LastIs(':', name, port[1..]);
      assert host == name + [':'] + port[1..];
      assert host[|name|..] == port;
    }
  }

  lemma DigitsHaveNoColon(s: string)
    requires All(IsDigit, s)
    ensures ':' !in s
  {
  }
}
