# A model of proxemby

proxemby is an edge proxy for Emby servers. This project models the parts of it that carry logic of
their own, and proves what they promise on all inputs and over all runs:

- the JSON scanner and the splicing rewriter of playback answers (`Json`, `JsonStrings`,
  `JsonSpelling`, `JsonProofs`, `ScanSpec`, `ScanSteps`, `Scanner`, `Splice`, `SpliceUtf8`, `Meaning`,
  `Paths`, `Rewriter`, `RewriteEvents`);
- the rewriting of media URLs and the resource endpoint that reads them back (`Urls`, `UrlParts`, `Percent`,
  `Hosts`, `Crypto`, `Base64`, `Resource`, `BasePath`, `ResourceRun`,
  `ResourceFailures`);
- traffic statistics: sharded counters, per-day history, eviction, reports (`Counters`, `Stats`,
  `StatsSums`, `StatsRun`, `StatsLoss`, `StatsReport`, `StatsMonth`);
- the session store, its file and the allowed-users gate (`SessionMap`, `AuthStore`, `PrivateFile`,
  `StateFile`, `Gate`, `GateRules`, `GateSessions`, `GateFailures`, `AuthHeader`);
- calendar, log lines, query redaction and IP networks (`Calendar`, `Timestamp`, `LogRecord`,
  `LogDuration`, `LogJson`, `LogText`, `Logging`, `Query`, `QueryTokens`, `IpPrefix`), on the shared `Text` and `Powers`.

A `&str` or `&[u8]` is a Dafny `string` with one character per byte. `Text.ValidUtf8` holds of exactly
the byte strings a `&str` may hold, and `Text.Lossy` is `String::from_utf8_lossy`; a method that takes
a `&str` requires `ValidUtf8`. Code that changes state (the scanner, the registry, the store, the
history, the counters, the logger) is a class; a loop that grows a buffer is a method, proved equal to
a function, and the properties are proved of that function. Concurrency is a step system: each atomic
load, each increment, each locked section and each arrival or answer of a request is one step, in any
order. Whether a file write succeeds, the clock, random bytes and upstream answers are parameters.

The main results:

1. `Meaning.ScanExact` and `Scanner.ScanText`: the scanner accepts exactly the JSON texts of
   RFC 8259 (sections 2 to 7, with its own rule for `\u` digits) that are at most 512 containers
   deep, and reports exactly the URL strings, in document order. `JsonSpelling.DecodeExact`: their texts
   are what their bytes spell.
2. `Rewriter.ServedMeansTheSame`: the served body is JSON again and denotes the same tree, except
   that each URL string is its rewritten form.
3. `UrlParts.SplitExact`: what is taken for a URL, and its parts. `BasePath.RoundTrip` and
   `ResourceRun.RewrittenThenServed`: rewriting and then serving is a round trip that fetches the original
   URL, over runs with restarts, with the exact condition under which it is.
4. `StatsRun.RunAccounts`, `StatsRun.FlushInRun` and `StatsLoss.LostNothing`: over any interleaving of
   increments, loads, flushes, failed writes and restarts, everything ever counted is stored, evicted,
   pending or lost by a restart; and exactly when a restart loses nothing.
5. `GateSessions.SessionsExact` and `GateSessions.FileExact`: exactly which sessions are in memory and on
   file at every point of every run. `Gate.ForwardedIsPublicOrIssued`, `Gate.RemovedStaysRefused`,
   `AuthStore.SignaturesSurvive`: what the gate lets through, what logout guarantees, and what survives a
   restart.
6. `Calendar.CivilIsGregorian`, `Timestamp.TimestampOrder`, `LogJson.JsonLineMeans`,
   `LogText.TextLineInjective`, `Query.SanitizeExact`, `IpPrefix.NestedOrDisjoint`.

Some promises hold only under a condition, and the condition is proved exact:

- `Paths.PathRoundTrip`: a reported path determines its segments if and only if the first key is not
  empty, because no dot is written before the path has any text.
- `BasePath.RoundTrip`: a rewritten URL is served back if and only if the public URL has no base path,
  every byte of the host is one that `escape_path` keeps (so not a bracketed IPv6 host), the decoded
  path has a character that is not a slash, and the host is registered.
- `ResourceRun.RewrittenThenServed`: over runs the last condition is that the host is configured or was
  rewritten since the process last started. The registry is rebuilt from the configuration, so
  `ResourceRun.RestartForgets`: a URL of any other host is refused after a restart.
  `ResourceFailures` has a URL and a run for this, and a bracketed host.
- `StatsLoss.RestartLoses` and `StatsLoss.LostNothing`: a restart loses of a route and kind exactly what
  its counters show beyond the last successful write. `StatsLoss.LosingRuns` are runs that lose.
- `StatsReport.FlushInvisible`: a flush changes no report if and only if no date of the month that has
  400 later dates holds anything. `StatsReport.ReportDrops` is a history in which it does: with the
  clock set back, the flush evicts today itself.
- `LogText.TextIsOneLine`: a text record is one line if and only if no key holds a newline; keys are
  written as they are. `LogText.TextLineInjective`: among records whose keys hold no equals sign the line
  determines what is shown; `LogText.BadKeys` has a newline in a key, and two records with one line.
  `LogText.TextLineReads` is about this project's own reader, which ends a key at its first equals sign.
- `QueryTokens.TokensHidden`: a token can be read in the log if and only if its query is malformed, and so
  logged as it is, or some pair leaves it there. `QueryTokens.OtherKeyShows`, `RepeatedTokenShows` and
  `MalformedShows` are queries for which it can: `x-emby-token` and `x-mediabrowser-token` are taken as
  token keys and not redacted, and a value repeated under another key is not redacted either.
- `Gate.LogoutThenRestart`: a token that was logged out is valid again after a restart if and only if
  the save failed and the file still held it. `GateFailures.TokenIsBack` is such a run.
- `Gate.LoginIsPublic`: `is_login_path` allows for a base path in front of a login endpoint, while the
  gate lets a client without a session reach a login endpoint only with nothing in front of it, or
  where another public rule applies.
- `IpPrefix.EmptyExactlyWhenMapped`: a prefix written with a slash inside `::ffff:0:0/96` keeps its
  IPv6 form, while addresses there are taken as IPv4; such prefixes, and only those, contain nothing. `IpPrefix.MappedText`
  gives texts of such prefixes.

## Model

| member | source | states |
|---|---|---|
| `JsonStrings.BodyLenSound` | src/rewrite.rs:357-420 | the string reader stops at a closing quote and what is before it is a string body of the grammar |
| `JsonStrings.BodyLenComplete` | src/rewrite.rs:357-420 | every string body of the grammar followed by a quote is read, and no further than that quote |
| `JsonStrings.DecodeIsValid` | src/rewrite.rs:357-428 | the decoded text of a valid UTF-8 string body is valid UTF-8, lone and unpaired surrogates included |
| `JsonSpelling.DecodeExact` | src/rewrite.rs:357-428 | a text is the decoding of a string body exactly when the body is a concatenation of writings of its characters: plain, the eight short escapes of section 7 of RFC 8259 by code point, `\u` digits by value, surrogate pairs, and U+FFFD for surrogates that do not pair |
| `JsonSpelling.CodePointOfEncoded` | src/rewrite.rs:391-406 | the bytes written for a code point stand for it in UTF-8 |
| `JsonSpelling.EncodedCodePoint` | src/rewrite.rs:391-406 | every UTF-8 character is what is written for its code point |
| `JsonStrings.DecodeEscape` | src/logging.rs:341-357 | escaping in the logger's and in serde's style is undone by the scanner's string reader, for every text |
| `JsonStrings.EscapeIsValid` | src/logging.rs:341-357 | escaping keeps UTF-8 validity |
| `JsonSpelling.EscapeExact` | src/logging.rs:341-357 | how the two escapers write each byte, by number |
| `JsonProofs.NumberSound` | src/rewrite.rs:319-355 | an accepted number is a number of the grammar and its parts spell the text read |
| `JsonProofs.NumberComplete` | src/rewrite.rs:319-355 | every number of the grammar in front of a delimiter is accepted, part by part |
| `JsonProofs.NodeSound` | src/rewrite.rs:223-250 | an accepted value prints back to the text read and is nested within the limit |
| `JsonProofs.NodeComplete` | src/rewrite.rs:223-250 | every well-formed value within the depth limit is accepted in front of any delimiter |
| `JsonProofs.ParseExact` | src/rewrite.rs:192-206 | the recogniser yields a syntax tree exactly when the text is its print and it is at most 512 deep; there is at most one |
| `Scanner.Scanner.SkipWs` | src/rewrite.rs:217-221 | the cursor moves past exactly the leading white space |
| `Scanner.Scanner.Literal` | src/rewrite.rs:310-317 | succeeds exactly when the word comes next, and moves past it |
| `Scanner.Scanner.Number` | src/rewrite.rs:319-355 | refines the number grammar: same verdict, same end |
| `Scanner.Scanner.Hex4` | src/rewrite.rs:423-428 | the value of four digits, or of a plus sign and three, leaving the cursor on the last |
| `Scanner.Scanner.EscapeSequence` | src/rewrite.rs:374-410 | one escape read as `JsonSpelling.DecodeExact` spells it, with a high surrogate and the escape after it read together |
| `Scanner.Scanner.String` | src/rewrite.rs:357-420 | refines the string grammar on the fast and the slow path: same verdict, same text, same end |
| `Scanner.Scanner.SlowString` | src/rewrite.rs:366-420 | the path for strings with escapes gives the text of the whole string |
| `Scanner.Scanner.Path` | src/rewrite.rs:431-450 | the path text is the one the container stack spells |
| `Scanner.Scanner.Value` | src/rewrite.rs:223-250 | refines the grammar of values: same verdict and end, the stack is restored, and exactly the value's URL strings are appended |
| `Scanner.Scanner.Object` | src/rewrite.rs:252-283 | the same for objects |
| `Scanner.Scanner.Array` | src/rewrite.rs:285-308 | the same for arrays |
| `Scanner.ScanText` | src/rewrite.rs:192-206 | the scanner terminates and computes the scan specification, for every text |
| `Meaning.ScanExact` | src/rewrite.rs:188-206 | a scan succeeds exactly on JSON texts within the depth limit; its spans are ordered, disjoint and in bounds, and its reports are exactly the URL strings of the tree in document order |
| `Meaning.FoundAreUrls` | src/rewrite.rs:223-308 | the strings found in a value, with their paths, are the URL strings of its tree in order |
| `Meaning.RoutesExact` | src/rewrite.rs:252-308 | the route recorded for a string is exactly a route that leads to it from the root |
| `Paths.PathRoundTrip` | src/rewrite.rs:431-450 | splitting a path at unescaped dots and unescaping gives back the segments if and only if the first segment is not empty |
| `Paths.EscapeKeyExact` | src/rewrite.rs:431-450 | a key is escaped character by character, a backslash in front of backslash, dot, star and question mark only |
| `Splice.FoundSorted` | src/rewrite.rs:223-308 | the spans found in a value are ordered, disjoint and inside its text |
| `Splice.SplicedSkip` | src/rewrite.rs:60-87 | bytes in front of a span are copied unchanged |
| `Splice.SpliceValue` | src/rewrite.rs:60-87 | splicing the spans of a value prints the rewritten value, in any surroundings |
| `Splice.RewriteIsWf` | src/rewrite.rs:60-87 | the rewritten value is well formed and as deep as before |
| `SpliceUtf8.SpliceKeepsUtf8` | src/rewrite.rs:52-87 | every found span is a quoted string of its value, and the spliced text is valid UTF-8 |
| `Meaning.SplicePreservesMeaning` | src/rewrite.rs:52-87 | the spliced text is accepted again and stands for the same tree with each rewritten string replaced |
| `Rewriter.Rewriter.RewritePlaybackInfo` | src/rewrite.rs:52-87 | returns the served body exactly when something was rewritten, the events in order, and registers every rewritten host |
| `Rewriter.Rewriter.SpliceFound` | src/rewrite.rs:60-87 | the copying loop computes the splice and registers host after host |
| `Rewriter.Rewriter.RewriteOne` | src/rewrite.rs:89-134 | the rewritten URL, with its host registered only when there is one |
| `Rewriter.ServedMeansTheSame` | src/rewrite.rs:52-87 | for every body: unchanged when not UTF-8 or not JSON, otherwise valid JSON denoting the same tree except for the rewritten URLs |
| `RewriteEvents.EventsExact` | src/rewrite.rs:60-87 | the events are exactly the rewrites of the strings of the tree, each with the path of a route that leads to it, its text, and what it is rewritten to |
| `RewriteEvents.RegisteredExact` | src/rewrite.rs:60-87 | the registry then holds what it held and the host of every event |
| `Urls.JoinUrlPathLoop` | src/rewrite.rs:161-174 | the joining loop gives every non-empty part, trimmed, after a slash |
| `Urls.TrimExact` | src/rewrite.rs:161-174 | trimming takes off the slashes at both ends, all of them and nothing else |
| `UrlParts.SplitOfText` | src/rewrite.rs:89-110 | a URL of http or https with an optional user, a valid host, a path, an optional query and an optional fragment splits into exactly its scheme, host, path and query |
| `UrlParts.TextOfSplit` | src/rewrite.rs:89-110 | every text that splits is such a URL with these parts |
| `UrlParts.SplitExact` | src/rewrite.rs:89-110 | both, as an if-and-only-if |
| `UrlParts.ValidHostExact` | src/rewrite.rs:137-157 | a host is valid exactly when it is a name, bracketed or not, and an optional port of digits, without the bytes that are refused |
| `Urls.RewritesOnlyUrls` | src/rewrite.rs:89-134 | only texts that start with an http or https scheme are rewritten |
| `Urls.HostBytes` | src/rewrite.rs:89-157 | a rewritten host is not empty and holds no slash, no at sign and no NUL; the scheme is http or https |
| `Urls.RewriteKeepsUtf8` | src/rewrite.rs:89-134 | a rewritten URL is valid UTF-8 |
| `Percent.DecodePercent` | src/util.rs:20-49 | the decoding loop computes percent decoding, malformed escapes included |
| `Percent.RawDecodeExact` | src/util.rs:20-49 | decoding byte by byte: two hexadecimal digits after a percent sign, or failure; a plus sign as a space when asked for |
| `Percent.DecodedIsValid` | src/util.rs:20-49 | decoded text is always valid UTF-8 |
| `Percent.EscapePathLoop` | src/util.rs:94-122 | the escaping loop computes path escaping |
| `Percent.QueryEscapeLoop` | src/util.rs:74-90 | the escaping loop computes query escaping |
| `Percent.PathRoundTrips` | src/util.rs:94-122 | decoding undoes path escaping on every text |
| `Percent.QueryRoundTrips` | src/util.rs:74-90 | decoding with plus as space undoes query escaping on every text |
| `Percent.EscapePathKeeps` | src/util.rs:94-122 | path escaping leaves a text alone exactly when all its bytes are kept ones, and lengthens it otherwise |
| `Percent.EscapePathExact` | src/util.rs:94-122 | path escaping byte by byte: which bytes are kept, and the two digits of the others |
| `Percent.QueryEscapeExact` | src/util.rs:74-90 | query escaping byte by byte |
| `Hosts.Registry.constructor` | src/hosts.rs:11-17 | the registry starts from the configured hosts |
| `Hosts.Registry.Allow` | src/hosts.rs:19-36 | the registry after allowing a host: empty hosts and unknown schemes handled as in the source |
| `Hosts.ConfiguredExact` | src/hosts.rs:11-17 | a new registry holds exactly the configured non-empty hosts, with https |
| `Hosts.AllowedKeepsClean` | src/hosts.rs:19-36 | every scheme stays http or https, and no host is ever lost |
| `Crypto.FrameLoop` | src/auth.rs:143-151 | the loop feeds every part and a NUL, in order |
| `Crypto.FrameInjective` | src/auth.rs:143-151 | the framing is injective on lists of NUL-free parts |
| `Crypto.FrameIs` | src/auth.rs:143-151 | the framing is the parts in order, a NUL after each |
| `Crypto.SignedVerifies` | src/auth.rs:130-141 | a signature verifies for its parts, is 22 characters long and URL-safe |
| `Crypto.SignatureIs` | src/auth.rs:130-141 | a signature is the encoding of the first 16 bytes of the tag, and exactly what decodes to them verifies |
| `Crypto.VerifyBindsParts` | src/auth.rs:134-151 | a signature for some parts verifies for others exactly when the tags of the two, distinct, framings collide |
| `Base64.DecodeUndoes` | src/auth.rs:130-137 | decoding undoes the encoding of 16 bytes into 22 URL-safe characters |
| `Base64.SuiteIsSound` | src/auth.rs:130-141 | with any 32-byte tag this encoding meets everything assumed of signatures, so the assumption can be met |
| `Resource.PathIsPrinted` | src/rewrite.rs:111-134 | the escaped joined path is prefix, signature, scheme, host and path, in that order |
| `Resource.ReadPrinted` | src/server/route.rs:611-635 | the endpoint splits such a path back into exactly these parts |
| `Resource.TargetFetches` | src/server/route.rs:658-662 | the target is the URL of this scheme, host and query and of a path that decodes to the original one; read as a URL it has these parts |
| `Resource.PrintedServed` | src/server/route.rs:610-662 | without a base path: what is fetched is the original scheme, host, decoded path and query if and only if the host has only kept bytes, the path is not bare and the host is registered |
| `BasePath.ReadSlashes` | src/server/route.rs:611-635 | how many slashes the endpoint takes off a path before what it forwards |
| `BasePath.NotServedUnderBase` | src/server/route.rs:610-662 | no URL of a route whose public URL has a base path is served back, whatever the base path |
| `BasePath.RoundTrip` | src/server/route.rs:610-662 | signed or with a token: a rewritten URL is served back if and only if there is no base path, the host has only kept bytes, the path is not bare and the host is registered |
| `BasePath.ForwardsExactly` | src/server/route.rs:610-656 | exactly which paths are forwarded, and to what: the two forms of a path, the token or signature each needs, and a registered host |
| `Resource.UrlSplits` | src/rewrite.rs:111-134 | a rewritten URL splits at its question mark into that path and the original query |
| `ResourceRun.Endpoint.Proxy` | src/server/route.rs:610-662 | the handler, on the live registry and store, computes the decision |
| `ResourceRun.RegistryExact` | src/hosts.rs:11-40 | at any point of any run the registry holds exactly the configured hosts and those of rewrites since the last start, with schemes http and https |
| `ResourceRun.ForwardsSafely` | src/server/route.rs:610-656 | in every run only hosts configured or rewritten since the last start are forwarded to; with auth on, only with a token of the route or a signature for route, scheme and host |
| `ResourceRun.RegisteredForGood` | src/hosts.rs:19-36 | a registered host stays registered until the process starts again |
| `ResourceRun.SameSecret` | src/auth.rs:61-92 | every process of a run uses the same secret |
| `ResourceRun.RewrittenThenServed` | src/server/route.rs:66-84 | over runs with restarts, a rewritten URL is served back by this or a later process if and only if there is no base path, the host has only kept bytes, the path is not bare, and the host is configured or was rewritten since the last start |
| `ResourceRun.ServedInProcess` | src/server/route.rs:610-662 | within the process that rewrote the URL the last condition always holds |
| `ResourceRun.RestartForgets` | src/server/route.rs:71 | right after a restart a URL whose host is not configured is not served; with nothing else in the way it is refused for its host, although its signature verifies with the new process |
| `ResourceFailures.ForgottenUrl` | src/server/route.rs:649-655 | a run, and the URL `http://h/x`, in which this happens |
| `ResourceFailures.BracketedHost` | src/rewrite.rs:137-157 | `http://[::1]/x` is rewritten and never served back |
| `PrivateFile.Directory.WritePrivateFile` | src/util.rs:363-386 | call by call, with any call failing: on success only the target has changed and holds the new bytes safely; on failure nothing has but the temporary file; the states on the way are one call apart and in all of them the target is the old file or the whole new one |
| `PrivateFile.Directory.WriteAll` | src/util.rs:377 | the writing loop leaves the target alone and the temporary file complete exactly when every byte could be written |
| `PrivateFile.CrashKeepsFile` | src/util.rs:363-386 | a crash between any two calls leaves the target as it was or with all the new bytes |
| `StateFile.ReplaceFile` | src/auth.rs:153-163 | saving through these calls, with any of them failing, replaces the store's file exactly when the call succeeds and leaves it as it was otherwise |
| `StateFile.CrashInSave` | src/auth.rs:153-163 | a crash inside a save is, for the store, a save that succeeded or failed and then a stop |
| `AuthStore.Store.Open` | src/auth.rs:61-92 | the store and the file after opening: missing, unreadable, without secret, or complete |
| `AuthStore.Store.AddSession` | src/auth.rs:94-101 | memory holds the session even when the save fails; the file changes only with a successful save |
| `AuthStore.Store.Lookup` | src/auth.rs:103-108 | the session of a token, none for the empty token |
| `AuthStore.Store.RemoveSession` | src/auth.rs:121-127 | memory forgets the session even when the save fails; nothing is saved for an unknown token |
| `AuthStore.Store.Save` | src/auth.rs:153-163 | secret and sessions are written together |
| `AuthStore.OperationKeepsFile` | src/auth.rs:61-127 | every operation keeps the file equal to the last successful save, and a secret in the file unchanged |
| `AuthStore.StartRestores` | src/auth.rs:61-92 | a start succeeds exactly when the file can be read and holds a secret or can be written; it restores the sessions, and the secret if there is one |
| `AuthStore.HistoryKeepsFile` | src/auth.rs:61-163 | from any first file, the file is the last successful save, or the first file, at every point of every run |
| `AuthStore.SecretStays` | src/auth.rs:61-92 | once the file holds a secret it never changes |
| `AuthStore.SignaturesSurvive` | src/auth.rs:130-151 | a signature issued by any process verifies in every later one |
| `AuthStore.ReopenRestores` | src/auth.rs:61-92 | exactly which starts of a run succeed; after a save a start restores exactly the saved map and leaves the file alone |
| `Gate.SegmentsSpell` | src/server/auth_gate.rs:7-17 | the segments hold no slash and spell the trimmed, lower-cased path after its optional base path |
| `Gate.LoginPathShape` | src/server/auth_gate.rs:25-34 | a path is a login path exactly when its last segments are a login endpoint |
| `Gate.LoginIsPublic` | src/server/auth_gate.rs:25-61 | exactly which login paths a client without a session reaches |
| `Gate.LogoutIsPrivate` | src/server/auth_gate.rs:37-61 | the logout endpoint is never public, for any method |
| `GateRules.PublicExact` | src/server/auth_gate.rs:37-61 | exactly which segments are public, for which methods |
| `GateRules.DecideExact` | src/server/route.rs:251-284 | exactly which requests go to the resource endpoint, get the empty user list, or are forwarded |
| `GateRules.UserListStaysHidden` | src/server/route.rs:262-270 | in every run no request for the user list is forwarded |
| `Gate.Handler.Enter` | src/server/route.rs:251-284 | the verdict on a request, from path rules and the session of its token |
| `Gate.Handler.Login` | src/server/route.rs:523-577 | with or without a state file: the session is stored exactly for a 200 answer with a token for an allowed user; the client gets the token only when it was also saved; which answers pass, which are errors, and which refused tokens are revoked |
| `Gate.Handler.Leave` | src/server/route.rs:285-291 | with or without a state file: a logout removes the session after forwarding, and nothing else does |
| `Gate.EventAdds` | src/server/route.rs:523-577 | whatever any event leaves in memory or on file was there before or was issued by it |
| `Gate.SessionsWereIssued` | src/auth.rs:94-127 | in every run each session in memory or on file was issued by an earlier login on its own route to an allowed user |
| `Gate.ValidMeansLogin` | src/auth.rs:110-119 | a token valid for a route was issued by an earlier 200 login answer on that route |
| `GateSessions.HoldStep` | src/server/route.rs:523-577 | what each event does to each token: given by a login or a start, taken by its own logout, a start or a stop, and otherwise left alone |
| `GateSessions.SessionsExact` | src/auth.rs:94-127 | at every point of every run the sessions in memory are exactly those issued or restored, each as given last, and not logged out or forgotten since |
| `GateSessions.IssuedStaysValid` | src/auth.rs:94-127 | an issued token stays valid until it is issued again, its own logout ends, or the process stops |
| `GateSessions.FileExact` | src/auth.rs:94-163 | at every point of every run the file holds exactly what memory held after the last event that saved |
| `Gate.ForwardedIsPublicOrIssued` | src/server/route.rs:251-301 | every forwarded request is on a public path or carries a session of this route that an earlier login issued |
| `Gate.ResourceIsIssuedOrSigned` | src/server/route.rs:636-648 | the resource endpoint forwards only for an issued token or a signature that verifies |
| `Gate.RemovedStaysRefused` | src/auth.rs:121-127 | within one process a removed token stays refused until a login issues it again |
| `Gate.RemovedForGood` | src/auth.rs:121-127 | once also out of the file, it stays refused across restarts |
| `Gate.LogoutThenRestart` | src/auth.rs:121-127 | after logout and restart the token is back if and only if the save failed and the file held it |
| `GateFailures.TokenIsBack` | src/auth.rs:121-127 | a run of login, logout with a failed save and restart after which the token is valid again |
| `AuthHeader.SkipWhile` | src/auth.rs:213-230 | each inner loop ends at the end of the longest run |
| `AuthHeader.TokenFrom` | src/auth.rs:210-235 | one position: the longest token of a match there, none exactly when nothing matches there |
| `AuthHeader.AuthorizationToken` | src/auth.rs:206-239 | the token of the leftmost match of the whole pattern, none if and only if no position matches |
| `AuthHeader.TokenIsUnique` | src/auth.rs:206-239 | a position has one longest token, so the leftmost match determines the result |
| `Counters.Counters.AddRequest` | src/stats.rs:103-107 | the totals grow by one request whatever the shard |
| `Counters.Counters.AddBytesOut` | src/stats.rs:109-113 | the totals grow by the bytes sent |
| `Counters.Counters.AddBytesIn` | src/stats.rs:115-118 | the totals grow by the bytes received |
| `Counters.Counters.ReadTotals` | src/stats.rs:129-137 | the reading loop sums every shard |
| `Counters.TotalsBelow` | src/stats.rs:129-137 | totals are monotonic in the shard values |
| `Stats.RecordStored` | src/stats.rs:292-298 | recording a delta changes exactly one entry |
| `Stats.History.constructor` | src/stats.rs:239-268 | the days of the file and nothing flushed yet |
| `Stats.History.FlushOn` | src/stats.rs:281-303 | the history after a flush: every delta added to today, old days evicted, the reading remembered |
| `Stats.History.FlushCell` | src/stats.rs:285-299 | one route and kind |
| `Stats.History.DropOldDays` | src/stats.rs:301-303 | the eviction loop drops oldest days until few enough are left |
| `Stats.AddedStored` | src/stats.rs:281-299 | a flush adds each cell's delta to today's entry and changes nothing else |
| `StatsSums.SumAdded` | src/stats.rs:281-299 | a flush raises the sum over all days of each cell by that cell's delta |
| `StatsSums.EvictKeepsGreatest` | src/stats.rs:301-303 | eviction keeps the 400 greatest dates, untouched |
| `StatsRun.ReadingsExact` | src/stats.rs:168-182 | of two readings in order the saturating subtraction never clips |
| `StatsRun.NextInv` | src/stats.rs:96-137 | every increment, load, flush, report, failed write and restart keeps the invariant, of the history in memory and of the one in the file |
| `StatsRun.RunKeeps` | src/stats.rs:281-311 | the invariant holds at every point of every run: readings only grow, and memory and file each hold whole days that conserve what they recorded |
| `StatsRun.RunAccounts` | src/stats.rs:96-311 | in every run, restarts included: the first file and everything ever counted is stored, evicted, pending or lost by a restart, for each cell |
| `StatsLoss.RestartLoses` | src/stats.rs:239-268 | a restart loses of a cell exactly what its counters show beyond the last successful write; nothing if and only if nothing is pending and the file holds, stored or evicted, all that memory does |
| `StatsLoss.LostNothing` | src/stats.rs:239-311 | over a whole run nothing of a cell is lost if and only if at every restart the last successful write had read all its counters showed |
| `StatsLoss.FailedWriteLoses` | src/stats.rs:281-311 | every run can go on with a flush whose write fails and a restart, which lose what the counters showed beyond the file |
| `StatsLoss.LosingRuns` | src/stats.rs:281-311 | runs in which an increment is lost: a restart before any flush, and one after a flush that could not be written |
| `StatsRun.FlushInRun` | src/stats.rs:281-303 | after every flush of every run the days are the 400 greatest of all dates of the first file and of flushes no restart rolled back, each holding what the first file had and every such delta flushed on it |
| `StatsRun.RunsGoOn` | src/stats.rs:239-311 | opening a history is a run and every run goes on with any enabled step |
| `StatsReport.ReportCell` | src/stats.rs:318-361 | the report loop computes the figures of a cell |
| `StatsReport.MonthIsTodayAndOthers` | src/stats.rs:318-361 | the month figure is today's figure plus the stored totals of the month's other days |
| `StatsMonth.SameMonth` | src/stats.rs:320 | a printed date starts with the month of another exactly when both are of the same year and month |
| `StatsMonth.MonthOfReport` | src/stats.rs:318-361 | the month figure is what is pending and what is stored on exactly the days of today's civil year and month; today's figure and the one since the start beside it |
| `StatsReport.ReportInRun` | src/stats.rs:318-361 | in every run a report taken while increments go on never clips its subtraction, and shows as pending at most what is pending when it ends |
| `StatsReport.EvictedExact` | src/stats.rs:301-303 | a date is evicted exactly when 400 dates are later |
| `StatsReport.FlushInvisible` | src/stats.rs:281-361 | without traffic in between, a flush leaves a cell's report as it was if and only if every date of today's month with 400 later dates, among the stored ones and today, has nothing stored or pending for the cell |
| `StatsReport.ClockSetBack` | src/stats.rs:281-361 | with 400 stored dates later than today, a flush drops today's figure to nothing |
| `StatsReport.ReportDrops` | src/stats.rs:281-361 | such a history exists: 400 later dates and any day of 2024 as today |
| `Calendar.CivilIsGregorian` | src/logging.rs:406-417 | day 0 is 1970-01-01 and every day is followed by its calendar successor, for all day numbers |
| `Calendar.CivilRoundTrip` | src/logging.rs:406-417 | a days-from-civil function inverts it in both directions |
| `Calendar.CivilOrder` | src/logging.rs:406-417 | dates are ordered as their day numbers |
| `Timestamp.TimestampOrder` | src/logging.rs:390-403 | up to year 9999 printed timestamps order lexicographically exactly as the instants |
| `Timestamp.TimestampRoundTrip` | src/logging.rs:390-403 | up to year 9999 a printed timestamp parses back to the same millisecond |
| `Timestamp.PaddedExact` | src/logging.rs:397-402 | padded numbers keep their value, and longer ones all their digits |
| `LogRecord.DurationIsWord` | src/logging.rs:360-387 | a printed duration never needs quotes |
| `LogDuration.DurationReads` | src/logging.rs:360-387 | a printed duration reads back to its milliseconds, halves rounded up |
| `LogRecord.IntExact` | src/logging.rs:277-282 | printed integers and truth values read back |
| `LogRecord.TimeIsWord` | src/logging.rs:390-403 | a printed time never needs quotes, for every instant |
| `LogJson.PushJsonString` | src/logging.rs:341-357 | the loop over characters appends the quoted escape |
| `LogJson.PushJsonList` | src/logging.rs:297-306 | the loop over items appends the array |
| `LogJson.PushJsonValue` | src/logging.rs:288-310 | appends the JSON text of any value |
| `LogJson.JsonRecord` | src/logging.rs:202-227 | the line built step by step is the line of the record's fields |
| `LogJson.JsonLineMeans` | src/logging.rs:202-227 | every JSON line is accepted by the scanner's grammar and stands for the object of exactly the record's fields, every key and string as given |
| `LogJson.RecordMeans` | src/logging.rs:202-227 | a record is the object of time, level, message and attributes in this order, the logger's own attributes before the call's |
| `LogJson.JsonLineInjective` | src/logging.rs:202-227 | two records have the same line if and only if their fields mean the same JSON, in which an integer and a duration are both numbers |
| `LogJson.JsonIsOneLine` | src/logging.rs:202-227 | a JSON record is one line, whatever its message, keys and values |
| `LogText.NeedsQuotingLoop` | src/logging.rs:313-317 | the search over characters decides whether quotes are needed |
| `LogText.PushTextString` | src/logging.rs:319-339 | appends the text bare or quoted |
| `LogText.PushTextValue` | src/logging.rs:274-286 | appends the text of any value |
| `LogText.TextStringReads` | src/logging.rs:313-339 | a written text is read back as it was, together with what follows it |
| `LogText.TextStringInjective` | src/logging.rs:319-339 | different texts are written differently |
| `LogText.AwkwardExact` | src/logging.rs:313-317 | which characters make a text need quotes, by code point |
| `LogText.QuotingConcat` | src/logging.rs:313-317 | a text needs quotes exactly when it is empty or one of its characters does |
| `LogText.QuoteExact` | src/logging.rs:325-337 | how each character of a quoted text is written, by code point |
| `LogText.TextStringHasNoControl` | src/logging.rs:319-339 | no control character is ever written, U+0080 to U+009F included |
| `LogText.TextRecord` | src/logging.rs:180-201 | the line built step by step is the line of the record's fields |
| `LogText.TextLineReads` | src/logging.rs:180-201 | the reader `ReadLine`, which ends a key at its first equals sign, reads a record back, every key and value in order, if and only if no key holds an equals sign |
| `LogText.TextLineInjective` | src/logging.rs:180-201 | among records whose keys hold no equals sign, two have the same line if and only if they show the same keys and texts in the same order |
| `LogText.TextIsOneLine` | src/logging.rs:180-227 | a text record is one line if and only if no key holds a newline |
| `LogText.BadKeys` | src/logging.rs:190-200 | a key with a newline breaks the record; a key with an equals sign and a space makes one field the same line as two |
| `Logging.Logger.With` | src/logging.rs:158-166 | every record through the derived logger is the record of the same call through the original one with the added attributes in front of the call's |
| `Logging.Logger.Log` | src/logging.rs:173-231 | the sink gains the record's line exactly when the level is enabled |
| `Logging.LinesCountRecords` | src/logging.rs:173-231 | a sink holds at least a line a record, and as many lines as records if and only if the format is JSON or no key holds a newline |
| `Query.ParseQueryLoop` | src/util.rs:53-71 | the loop over parts gives the well-formed pairs in order and whether some part was malformed |
| `Query.SplitExact` | src/util.rs:53-71 | the parts hold no separator and, joined by it, are the query |
| `Query.PartExact` | src/util.rs:53-71 | each part: skipped when empty, malformed with a semicolon or a bad escape, otherwise the decoded key and value around its first equals sign |
| `Query.PartsConcat` | src/util.rs:53-71 | pairs are collected in order, and one malformed part is enough |
| `Query.RedactLoop` | src/util.rs:143-154 | the loop keeps the first pair of each sensitive key, redacted, and every other pair |
| `Query.PrintQueryLoop` | src/util.rs:156-165 | the printing loop escapes keys and values and joins the pairs |
| `Query.PrintReadsBack` | src/util.rs:53-90 | printed pairs are parsed back without malformation |
| `Query.SortIsStable` | src/util.rs:155 | sorting puts keys in order and keeps the values of every key in order |
| `Query.RedactValues` | src/util.rs:143-154 | redaction leaves a sensitive key once with the value `redacted` and other keys alone |
| `Query.SanitizeRawQuery` | src/util.rs:135-166 | the whole function computes the sanitised query |
| `Query.SanitizeExact` | src/util.rs:135-166 | for a well-formed query the output parses without malformation into the original pairs in stable key order, each sensitive key once, redacted |
| `Query.SanitizeTwice` | src/util.rs:135-166 | sanitising twice is sanitising once, for every input |
| `QueryTokens.ShowsExact` | src/auth.rs:168 | a token that a query carries can be read in its log form, in any key or value, if and only if the query is malformed or some pair leaves it there: in its key, in a value that is not redacted, or in the word `redacted` |
| `QueryTokens.TokensHidden` | src/auth.rs:191-203 | no token of a query shows if and only if it carries none, or it is well formed and no pair leaves one of them in the log |
| `QueryTokens.OtherKeyShows` | src/util.rs:143-154 | under `x-emby-token`, which is not redacted, every token shows |
| `QueryTokens.RepeatedTokenShows` | src/util.rs:143-154 | a token under `api_key` that also stands under another key shows |
| `QueryTokens.MalformedShows` | src/util.rs:139-142 | a token under `api_key` shows when another part of the query is malformed |
| `IpPrefix.MaskIs` | src/util.rs:326-347 | the shifted, truncated bit mask clears exactly the low bits, for both families and every length |
| `IpPrefix.ParsedIsValid` | src/util.rs:276-302 | every parsed prefix is aligned to its length and within its width |
| `IpPrefix.ContainsExact` | src/util.rs:304-310 | a prefix contains exactly the unmapped addresses of its family in [base, base + 2^(width-bits)) (section 3.1 of RFC 4632) |
| `IpPrefix.ParsedContains` | src/util.rs:276-310 | the same for everything that parses |
| `IpPrefix.LoneAddress` | src/util.rs:291-299 | a text without a slash gives the prefix of exactly the address read, unmapped |
| `IpPrefix.AddressAndLength` | src/util.rs:277-290 | an address and a length: when it is refused, and that it contains exactly the addresses of its family with the same leading bits |
| `IpPrefix.UnmapExact` | src/util.rs:319-324 | exactly the mapped addresses are taken as IPv4, by their last four bytes |
| `IpPrefix.NestedOrDisjoint` | src/util.rs:304-310 | the sets two prefixes accept are nested or disjoint |
| `IpPrefix.EmptyExactlyWhenMapped` | src/util.rs:276-324 | a prefix contains nothing if and only if it lies in the mapped range in IPv6 form |
| `IpPrefix.MappedText` | src/util.rs:276-324 | every mapped address with `/96` behind it parses to such a prefix |

## Left out

- Sockets, TLS, ACME, HTTP clients, WebSocket upgrades, timeouts and shutdown: foreign I/O.
- Parsing of request and target `Uri`s by the http crate: paths and queries are given strings, so the 400 answer for a target that does not parse is not modelled.
- `request_token` beyond the authorization header: which header or query key wins is a list of lookups; a request carries its token as a parameter.
- Configuration, flags and TOML; from it only distinct route names are taken, as `Stats.Distinct`.
- HMAC-SHA256: a function of `Crypto.Suite` with 32-byte tags. What `Crypto.Sound` asks of base64 is proved of the encoding of section 5 of RFC 4648 in `Base64`, for the 16 bytes that are signed.
- Stores without a state file in runs: `AuthStore` and `ResourceRun` run on a file; without one every start makes a new secret.
- File permissions, and directory entries lost by a crash: `PrivateFile` takes a rename to be durable.
- Parsing of addresses in `IpPrefix.Parse`: the address parser is a parameter; `u8` parsing is modelled.
- `str::to_lowercase` on user names: the function `fold` of `Gate.Config`.
- JSON parsing of a login answer by serde: an answer carries its token and user as fields.
- Reading and writing of the state and statistics files as JSON: a file holds its contents as a value, and `StateFile` takes the coding of the store as a parameter that reads back what it wrote.
- Wrap-around of counters at 2^64: counters are unbounded.
- The number of open streams, Prometheus text, table rendering, `format_bytes`, `local_date`, `classify`: easy members or foreign calls.
- Order inside a flush: in `StatsRun` all loads of a flush come before its deltas are recorded, while the source records each cell after its own loads; the lock it holds hides the difference.
- Failing writes to the log sink: the source ignores them; the model's sink always takes the line.
- Timestamp.TimestampOrder: stated up to year 9999, since later years print with five digits and no longer order as text.
