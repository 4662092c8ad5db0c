/** Rewriting one media URL so that it flows through the resource endpoint (src/rewrite.rs). */
module Urls {
  import opened Text
  import opened Percent
  import opened ScanSpec

  // ---------------------------------------------------------------- trimming and joining

  predicate IsSlash(c: char) {
    c == '/'
  }

  function TrimStart(s: string): string {
    s[Span(IsSlash, s)..]
  }

  function TrimEnd(s: string): string {
    if s != "" && s[|s| - 1] == '/' then TrimEnd(s[..|s| - 1]) else s
  }

  /** `str::trim_matches('/')`. */
  function Trim(s: string): string {
    TrimEnd(TrimStart(s))
  }

  /** Each part trimmed of slashes and put after a slash; empty parts are dropped. */
  function JoinParts(parts: seq<string>): string {
    if parts == [] then ""
    else (if Trim(parts[0]) == "" then "" else "/" + Trim(parts[0])) + JoinParts(parts[1..])
  }

  function JoinUrlPath(base: string, parts: seq<string>): string {
    var out := JoinParts([base] + parts);
    if out == "" then "/" else out
  }

  method JoinUrlPathLoop(base: string, parts: seq<string>) returns (out: string)
    ensures out == JoinUrlPath(base, parts)
  {
    hide Trim;
    out := "";
    var all := [base] + parts;
    assert all[0..] == all;
    for i := 0 to |all|
      invariant JoinParts(all) == out + JoinParts(all[i..])
    {
      assert all[i..][1..] == all[i + 1..];
      var part := Trim(all[i]);
      var t := JoinParts(all[i + 1..]);
      assert out + ("/" + part + t) == out + "/" + part + t;
      if part != "" {
        out := out + "/";
        out := out + part;
      }
    }
    if out == "" {
      out := "/";
    }
  }

  // ---------------------------------------------------------------- the parts of a URL

  predicate BadHostByte(c: char) {
    c <= ' ' || c == '%' || c == '"' || c == '<' || c == '>' || c == '\\'
  }

  predicate IsPort(p: string) {
    p == "" || (p[0] == ':' && All(IsDigit, p[1..]))
  }

  /** The index of the last `c`; -1 when there is none. */
  function FindLast(c: char, s: string): (n: int)
    ensures -1 <= n < |s| && (n >= 0 ==> s[n] == c)
  {
    if s == "" then -1 else if s[|s| - 1] == c then |s| - 1 else FindLast(c, s[..|s| - 1])
  }

  predicate ValidHost(host: string) {
    && host != "" && !(exists i :: 0 <= i < |host| && BadHostByte(host[i]))
    && (if host[0] == '[' then
          Find(']', host) < |host| && IsPort(host[Find(']', host) + 1..])
        else
          FindLast(':', host) < 0 || IsPort(host[FindLast(':', host)..]))
  }

  datatype Parts = Parts(scheme: string, host: string, rawPath: string, query: string)

  predicate IsControl(c: char) {
    c as int < 0x20 || c as int == 0x7F
  }

  function SchemeOf(raw: string): Option<string> {
    if "https://" <= raw then Some("https") else if "http://" <= raw then Some("http") else None
  }

  function BeforeFirst(c: char, s: string): string {
    s[..Find(c, s)]
  }

  /** What follows the first `c`, or nothing. */
  function AfterFirst(c: char, s: string): string {
    if Find(c, s) == |s| then "" else s[Find(c, s) + 1..]
  }

  function AfterLast(c: char, s: string): string {
    s[FindLast(c, s) + 1..]
  }

  /** Scheme, host, raw path and query of an absolute URL; none when it is not to be rewritten. */
  function SplitUrl(raw: string): Option<Parts> {
    if SchemeOf(raw).None? || (exists i :: 0 <= i < |raw| && IsControl(raw[i])) then None else
    var scheme := SchemeOf(raw).value;
    var rest := BeforeFirst('#', raw[|scheme| + 3..]);
    var beforeQuery := BeforeFirst('?', rest);
    var authority := BeforeFirst('/', beforeQuery);
    var host := AfterLast('@', authority);
    if !ValidHost(host) then None
    else Some(Parts(scheme, host, beforeQuery[|authority|..], AfterFirst('?', rest)))
  }

  // ---------------------------------------------------------------- rewriting

  /** The rewriter's fixed settings; `publicPath` is already percent-decoded. */
  datatype Settings = Settings(scheme: string, host: string, publicPath: string,
                               sign: Option<(string, string) -> string>)

  datatype Rewritten = Rewritten(url: string, scheme: string, host: string)

  /** The path parts after the public base path. */
  function PathParts(c: Settings, p: Parts, path: string): seq<string> {
    ["_proxy"] + (if c.sign.Some? then [c.sign.value(p.scheme, p.host)] else [])
    + [p.scheme, p.host, TrimStart(path)]
  }

  function RewrittenPath(c: Settings, p: Parts, path: string): string {
    EscapePath(JoinUrlPath(c.publicPath, PathParts(c, p, path)))
  }

  function RewriteUrl(c: Settings, raw: string): Option<Rewritten> {
    match SplitUrl(raw)
    case None => None
    case Some(p) =>
      match PercentDecode(p.rawPath, false)
      case None => None
      case Some(path) =>
        Some(Rewritten(c.scheme + "://" + c.host + RewrittenPath(c, p, path)
                       + (if p.query == "" then "" else "?" + p.query),
                       p.scheme, p.host))
  }

  lemma RewritesOnlyUrls(c: Settings, raw: string)
    requires RewriteUrl(c, raw).Some?
    ensures IsUrl(raw)
  {
  }

  // ---------------------------------------------------------------- facts about the parts

  /** A text with no slash at either end is not changed. */
  lemma TrimNothing(s: string)
    requires s == "" || (s[0] != '/' && s[|s| - 1] != '/')
    ensures Trim(s) == s && TrimStart(s) == s
  {
    assert s[0..] == s;
  }

  lemma TrimTwice(s: string)
    ensures Trim(TrimStart(s)) == Trim(s)
  {
    SpanIsRun(IsSlash, s);
    var t := TrimStart(s);
    assert Span(IsSlash, t) == 0 && t[0..] == t;
  }

  lemma TrimIsValid(s: string)
    requires ValidUtf8(s)
    ensures ValidUtf8(Trim(s)) && ValidUtf8(TrimStart(s))
  {
    hide ValidUtf8;
    TrimStartIsValid(s);
    TrimEndIsValid(TrimStart(s));
  }

  lemma {:induction false} TrimStartIsValid(s: string)
    requires ValidUtf8(s)
    ensures ValidUtf8(TrimStart(s))
  {
    if s == "" || s[0] != '/' {
      assert s[0..] == s;
    } else {
      ValidSplit(s, 0);
      TrimStartIsValid(s[1..]);
      assert s[1..][Span(IsSlash, s[1..])..] == s[Span(IsSlash, s)..];
    }
  }

  lemma {:induction false} TrimEndIsValid(s: string)
    requires ValidUtf8(s)
    ensures ValidUtf8(TrimEnd(s))
  {
    if s != "" && s[|s| - 1] == '/' {
      ValidSplit(s, |s| - 1);
      TrimEndIsValid(s[..|s| - 1]);
    }
  }

  lemma {:induction false} FindLastIsLast(c: char, s: string)
    ensures c !in s[FindLast(c, s) + 1..]
  {
    if s != "" && s[|s| - 1] != c {
      var t := s[..|s| - 1];
      FindLastIsLast(c, t);
      NotInDropSnoc(c, t, FindLast(c, t) + 1, s[|s| - 1]);
      assert s == t + [s[|s| - 1]];
    }
  }

  /** A host that is rewritten holds no slash, no `@` and no NUL. */
  lemma HostBytes(raw: string)
    requires SplitUrl(raw).Some?
    ensures var host := SplitUrl(raw).value.host;
            host != "" && '/' !in host && '@' !in host && 0 as char !in host
    ensures var scheme := SplitUrl(raw).value.scheme; scheme == "http" || scheme == "https"
  {
    hide ValidHost, BeforeFirst, AfterLast;
    var scheme := SchemeOf(raw).value;
    var beforeQuery := BeforeFirst('?', BeforeFirst('#', raw[|scheme| + 3..]));
    HostOfAuthority(beforeQuery);
    ValidHostBytes(AfterLast('@', BeforeFirst('/', beforeQuery)));
  }

  lemma HostOfAuthority(s: string)
    ensures var host := AfterLast('@', BeforeFirst('/', s)); '/' !in host && '@' !in host
  {
    hide Find, FindLast;
    var authority := BeforeFirst('/', s);
    FindIsFirst('/', s);
    FindLastIsLast('@', authority);
    NotInDrop('/', authority, FindLast('@', authority) + 1);
  }

  lemma ValidHostBytes(host: string)
    requires ValidHost(host)
    ensures host != "" && 0 as char !in host
  {
    hide Find, FindLast, IsPort;
    assert forall i :: 0 <= i < |host| ==> !BadHostByte(host[i]);
  }

  lemma QueryBytes(raw: string)
    requires SplitUrl(raw).Some?
    ensures '#' !in SplitUrl(raw).value.query
  {
    hide ValidHost, AfterLast, Find;
    var scheme := SchemeOf(raw).value;
    var rest := BeforeFirst('#', raw[|scheme| + 3..]);
    FindIsFirst('#', raw[|scheme| + 3..]);
    if Find('?', rest) < |rest| {
      NotInDrop('#', rest, Find('?', rest) + 1);
    }
  }

  // ---------------------------------------------------------------- valid UTF-8 in, valid UTF-8 out

  lemma BeforeFirstIsValid(c: char, s: string)
    requires ValidUtf8(s) && c as int < 0x80
    ensures ValidUtf8(BeforeFirst(c, s)) && ValidUtf8(AfterFirst(c, s))
  {
    hide ValidUtf8;
    var n := Find(c, s);
    if n < |s| {
      ValidSplit(s, n);
    } else {
      assert s[..n] == s;
      ValidAscii("");
    }
  }

  ghost predicate ValidSettings(c: Settings) {
    ValidUtf8(c.scheme) && ValidUtf8(c.host)
  }

  lemma EscapedIsValid(s: string)
    ensures ValidUtf8(EscapePath(s))
  {
    hide ValidUtf8, EscapePath;
    EscapePathBytes(s);
    var t := EscapePath(s);
    forall i | 0 <= i < |t|
      ensures t[i] as int < 0x80
    {
      assert EscapedInPath(t[i]);
    }
    ValidAscii(t);
  }

  lemma QueryIsValid(raw: string)
    requires ValidUtf8(raw) && SplitUrl(raw).Some?
    ensures ValidUtf8(SplitUrl(raw).value.query)
  {
    hide ValidUtf8, ValidHost, AfterLast, BeforeFirst, AfterFirst;
    var scheme := SchemeOf(raw).value;
    var n := |scheme| + 3;
    assert raw[n - 1] == '/';
    ValidSplit(raw, n - 1);
    BeforeFirstIsValid('#', raw[n..]);
    BeforeFirstIsValid('?', BeforeFirst('#', raw[n..]));
  }

  lemma RewriteKeepsUtf8(c: Settings, raw: string)
    requires ValidUtf8(raw) && RewriteUrl(c, raw).Some? && ValidSettings(c)
    ensures ValidUtf8(RewriteUrl(c, raw).value.url)
  {
    hide ValidUtf8, SplitUrl, JoinUrlPath;
    QueryIsValid(raw);
    var p := SplitUrl(raw).value;
    var path := PercentDecode(p.rawPath, false).value;
    EscapedIsValid(JoinUrlPath(c.publicPath, PathParts(c, p, path)));
    ValidAscii("://");
    ValidAscii("?");
    ValidAscii("");
    ValidConcat("?", p.query);
    ValidConcat(c.scheme, "://");
    ValidConcat(c.scheme + "://", c.host);
    ValidConcat(c.scheme + "://" + c.host, RewrittenPath(c, p, path));
    ValidConcat(c.scheme + "://" + c.host + RewrittenPath(c, p, path), if p.query == "" then "" else "?" + p.query);
  }

  // ---------------------------------------------------------------- what trimming takes off

  ghost predicate OnlySlashes(s: string) {
    forall i :: 0 <= i < |s| ==> s[i] == '/'
  }

  lemma {:induction false} TrimEndTakes(s: string) returns (after: string)
    ensures s == TrimEnd(s) + after && OnlySlashes(after)
    ensures TrimEnd(s) != "" ==> TrimEnd(s)[|TrimEnd(s)| - 1] != '/'
  {
    if s != "" && s[|s| - 1] == '/' {
      var n := |s| - 1;
      var more := TrimEndTakes(s[..n]);
      after := more + "/";
      assert s == s[..n] + "/";
      assert (TrimEnd(s[..n]) + more) + "/" == TrimEnd(s[..n]) + (more + "/");
    } else {
      after := "";
      assert s + "" == s;
    }
  }

  /** Trimming takes off the slashes at both ends, all of them and nothing else. */
  lemma TrimExact(s: string) returns (before: string, after: string)
    ensures s == before + Trim(s) + after && OnlySlashes(before) && OnlySlashes(after)
    ensures Trim(s) != "" ==> Trim(s)[0] != '/' && Trim(s)[|Trim(s)| - 1] != '/'
  {
    var n := Span(IsSlash, s);
    SpanIsRun(IsSlash, s);
    before := s[..n];
    var t := s[n..];
    after := TrimEndTakes(t);
    assert TrimStart(s) == t;
    hide Span, TrimEnd;
    SplitAt(s, n);
    assert forall i :: 0 <= i < n ==> IsSlash(before[i]);
    assert before + (Trim(s) + after) == before + Trim(s) + after;
    assert Trim(s) != "" ==> Trim(s)[0] == t[0];
  }
}
