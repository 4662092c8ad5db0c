/** What a scan reports: the URL strings of a JSON text, where they are and how they are reached. */
module ScanSpec {
  import opened Text
  import opened JsonStrings
  import opened Json

  datatype Segment = Key(key: string) | Index(index: nat)

  /** A string value that looks like a URL: its span with the quotes, its path and its text. */
  datatype Found = Found(start: int, end: int, path: string, value: string)

  predicate IsUrl(s: string) {
    "http://" <= s || "https://" <= s
  }

  // ---------------------------------------------------------------- paths

  predicate IsPathSpecial(c: char) {
    c == '\\' || c == '.' || c == '*' || c == '?'
  }

  function EscapeKey(key: string): string {
    if key == "" then ""
    else (if IsPathSpecial(key[0]) then ['\\', key[0]] else [key[0]]) + EscapeKey(key[1..])
  }

  function SegmentText(seg: Segment): string {
    match seg
    case Key(key) => key
    case Index(i) => Decimal(i)
  }

  function EscapedSegment(seg: Segment): string {
    match seg
    case Key(key) => EscapeKey(key)
    case Index(i) => Decimal(i)
  }

  /** The path text: segments joined with dots, except that nothing is put before the first dot. */
  function PathText(stack: seq<Segment>): string {
    if stack == [] then ""
    else
      var p := PathText(stack[..|stack| - 1]);
      (if p == "" then "" else p + ".") + EscapedSegment(stack[|stack| - 1])
  }

  // ---------------------------------------------------------------- found strings

  /** The URL strings of `x`, in a text of `total` bytes in which `k` follows `x`. */
  function FoundNode(x: Node, k: string, stack: seq<Segment>, total: nat): seq<Found> {
    FoundValue(x.v, k, stack, total)
  }

  function FoundValue(v: Value, k: string, stack: seq<Segment>, total: nat): seq<Found> {
    match v
    case Text(b) =>
      if IsUrl(Decode(b)) then [Found(total - |ValueText(v, k)|, total - |k|, PathText(stack), Decode(b))]
      else []
    case Array(items) => FoundItems(items, k, stack, 0, total)
    case Object(members) => FoundMembers(members, k, stack, total)
    case _ => []
  }

  function ItemsEnd(i: Items, k: string): string {
    i.after + (if i.tail.Some? then "," + ItemsText(i.tail.value, k) else "]" + k)
  }

  function FoundItems(i: Items, k: string, stack: seq<Segment>, index: nat, total: nat): seq<Found> {
    FoundNode(i.x, ItemsEnd(i, k), stack + [Index(index)], total)
    + (if i.tail.Some? then FoundItems(i.tail.value, k, stack, index + 1, total) else [])
  }

  function MembersEnd(m: Members, k: string): string {
    m.after + (if m.tail.Some? then "," + MembersText(m.tail.value, k) else "}" + k)
  }

  function FoundMembers(m: Members, k: string, stack: seq<Segment>, total: nat): seq<Found> {
    FoundNode(m.x, MembersEnd(m, k), stack + [Key(Decode(m.key))], total)
    + (if m.tail.Some? then FoundMembers(m.tail.value, k, stack, total) else [])
  }

  function FoundDoc(d: Doc): seq<Found> {
    FoundNode(d.x, d.after, [], |DocText(d)|)
  }

  /** The URL strings of a JSON text, or none when the text is not accepted. */
  function Scan(text: string): Option<seq<Found>> {
    match ParseDoc(text)
    case None => None
    case Some(d) => Some(FoundDoc(d))
  }

  // ---------------------------------------------------------------- reading one string

  /** The text of the string body that `s` starts with, and what follows its closing quote. */
  function ReadBody(s: string): Option<(string, string)> {
    match BodyLen(s)
    case None => None
    case Some(k) => BodyLenSound(s); Some((Decode(s[..k]), s[k + 1..]))
  }

  function Prepend(t: string, r: Option<(string, string)>): Option<(string, string)> {
    match r
    case None => None
    case Some((u, rest)) => Some((t + u, rest))
  }

  /** Reading goes on one decoded character at a time. */
  lemma ReadStep(s: string)
    requires TokenLen(s) > 0
    ensures ReadBody(s) == Prepend(StepText(s), ReadBody(s[StepLen(s)..]))
  {
    hide TokenLen, BodyLen, Decode, HexQuad, StepText;
    var n := StepLen(s);
    BodyLenUnfold(s);
    if StartsPair(s) {
      PairIsTwoTokens(s);
      BodyLenUnfold(s[6..]);
    }
    assert BodyLen(s).None? <==> BodyLen(s[n..]).None?;
    if BodyLen(s).Some? {
      var k := BodyLen(s).value;
      StepOfTake(s, k);
      DecodeUnfold(s[..k]);
      BodyLenSound(s);
      assert s[n..][k - n + 1..] == s[k + 1..];
    }
  }

  lemma PairIsTwoTokens(s: string)
    requires StartsPair(s)
    ensures TokenLen(s) == TokenLen(s[6..]) == 6 && s[6..][6..] == s[12..]
  {
    assert s[6..][2..] == s[8..];
  }

  lemma HexQuadOfTake(s: string, i: nat, k: nat)
    requires i + 4 <= k <= |s|
    ensures HexQuad(s[..k][i..]) == HexQuad(s[i..])
  {
    assert forall j :: 0 <= j < 4 ==> s[..k][i..][j] == s[i..][j];
  }

  lemma PairOfTake(s: string, k: nat)
    requires 6 <= k <= |s| && TokenLen(s) == TokenLen(s[..k]) == 6 && (StartsPair(s) ==> 12 <= k)
    ensures StartsPair(s[..k]) == StartsPair(s)
    ensures HexQuad(s[..k][2..]) == HexQuad(s[2..])
    ensures StartsPair(s) ==> HexQuad(s[..k][8..]) == HexQuad(s[8..])
  {
    hide TokenLen, HexQuad;
    HexQuadOfTake(s, 2, k);
    if k >= 12 {
      HexQuadOfTake(s, 8, k);
      assert s[..k][6..][0] == s[6..][0] && s[..k][6..][1] == s[6..][1];
    }
  }

  /** The first decoded character lies before the closing quote. */
  lemma StepFits(s: string, k: nat)
    requires TokenLen(s) > 0 && BodyLen(s) == Some(k)
    ensures 0 < StepLen(s) <= k <= |s| && TokenLen(s) <= k
    ensures BodyLen(s[StepLen(s)..]) == Some(k - StepLen(s))
  {
    hide TokenLen, BodyLen, HexQuad;
    BodyLenSound(s);
    BodyLenUnfold(s);
    if StartsPair(s) {
      PairIsTwoTokens(s);
      BodyLenUnfold(s[6..]);
    }
  }

  lemma StepOfCut(s: string, k: nat)
    requires StepLenFits(s, k)
    ensures StepLen(s[..k]) == StepLen(s) && StepText(s[..k]) == StepText(s)
  {
    TokenKinds(s);
    hide TokenLen, HexQuad, EncodeUtf8, StartsPair;
    if TokenLen(s) == 6 {
      PairOfTake(s, k);
    } else {
      NoPair(s);
      NoPair(s[..k]);
    }
  }

  predicate StepLenFits(s: string, k: nat) {
    0 < TokenLen(s) <= k <= |s| && StepLen(s) <= k && TokenLen(s[..k]) == TokenLen(s)
  }

  lemma NoPair(s: string)
    requires TokenLen(s) != 6
    ensures !StartsPair(s)
  {
  }

  /** Cutting a text at the closing quote does not change its first decoded character. */
  lemma StepOfTake(s: string, k: nat)
    requires TokenLen(s) > 0 && BodyLen(s) == Some(k)
    ensures 0 < StepLen(s) <= k <= |s| && TokenLen(s[..k]) == TokenLen(s)
    ensures StepLen(s[..k]) == StepLen(s) && StepText(s[..k]) == StepText(s)
    ensures BodyLen(s[StepLen(s)..]) == Some(k - StepLen(s))
    ensures s[..k][StepLen(s)..] == s[StepLen(s)..][..k - StepLen(s)]
  {
    hide TokenLen, HexQuad, BodyLen, EncodeUtf8;
    StepFits(s, k);
    TakeDrop(s, StepLen(s), k);
    assert TokenLen(s[..k]) == TokenLen(s) by {
      TokenOfTake(s, k);
    }
    StepOfCut(s, k);
  }

  lemma TokenKinds(s: string)
    ensures TokenLen(s) == 0 || TokenLen(s) == 1 || TokenLen(s) == 2 || TokenLen(s) == 6
    ensures TokenLen(s) == 2 ==> IsShortEscape(s[1])
    ensures TokenLen(s) == 6 ==> HexQuad(s[2..]).Some?
  {
  }

  /** A run of plain bytes is read as itself. */
  lemma {:induction false} ReadPlainRun(s: string, n: nat)
    requires n <= |s| && forall i :: 0 <= i < n ==> IsPlain(s[i])
    ensures ReadBody(s) == Prepend(s[..n], ReadBody(s[n..]))
  {
    hide ReadBody;
    if n == 0 {
      assert s[0..] == s;
      PrependNothing(ReadBody(s));
    } else {
      ReadPlainRun(s, n - 1);
      var t := s[n - 1..];
      PlainStep(t);
      ReadStep(t);
      assert t[1..] == s[n..];
      PrependTwice(s[..n - 1], [t[0]], ReadBody(s[n..]));
      assert s[..n] == s[..n - 1] + [t[0]];
    }
  }

  lemma PlainStep(s: string)
    requires s != "" && IsPlain(s[0])
    ensures TokenLen(s) == 1 && StepLen(s) == 1 && StepText(s) == [s[0]]
  {
  }

  lemma PrependNothing(r: Option<(string, string)>)
    ensures Prepend("", r) == r
  {
    if r.Some? {
      assert "" + r.value.0 == r.value.0;
    }
  }

  lemma PrependTwice(a: string, b: string, r: Option<(string, string)>)
    ensures Prepend(a, Prepend(b, r)) == Prepend(a + b, r)
  {
    if r.Some? {
      assert a + (b + r.value.0) == a + b + r.value.0;
    }
  }

  lemma ReadShrinks(s: string)
    requires ReadBody(s).Some?
    ensures |ReadBody(s).value.1| < |s|
  {
    BodyLenSound(s);
  }

  lemma ReadQuote(s: string)
    requires s != "" && s[0] == '"'
    ensures ReadBody(s) == Some(("", s[1..]))
  {
    assert s[..0] == "";
  }

  /** Neither a quote nor a string character: there is no string here. */
  lemma ReadNothing(s: string)
    requires TokenLen(s) == 0 && (s == "" || s[0] != '"')
    ensures ReadBody(s) == None
  {
  }
}
