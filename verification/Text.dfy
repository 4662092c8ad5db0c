/** Byte strings.

    A Rust `&str` or `&[u8]` is a Dafny `string` here, one character per byte. `ValidUtf8` holds
    of exactly the byte strings a `&str` may hold, and `Lossy` is `String::from_utf8_lossy`. */
module Text {

  datatype Option<+T> = None | Some(value: T)

  predicate IsByte(c: char) {
    c as int < 0x100
  }

  // ---------------------------------------------------------------- UTF-8

  predicate IsContinuation(c: char) {
    0x80 <= c as int < 0xC0
  }

  /** The second bytes that keep overlong forms, surrogates and values over U+10FFFF out. */
  predicate SecondByteOk(lead: int, c: char) {
    var b := c as int;
    if lead == 0xE0 then 0xA0 <= b < 0xC0
    else if lead == 0xED then 0x80 <= b < 0xA0
    else if lead == 0xF0 then 0x90 <= b < 0xC0
    else if lead == 0xF4 then 0x80 <= b < 0x90
    else 0x80 <= b < 0xC0
  }

  datatype Unit = Unit(len: nat, ok: bool)

  /** The first character of `s`, or the first maximal ill-formed piece. */
  function FirstUnit(s: string): (u: Unit)
    requires s != ""
    ensures 1 <= u.len <= |s|
    ensures u.ok && u.len == 1 <==> s[0] as int < 0x80
  {
    var b := s[0] as int;
    if b < 0x80 then Unit(1, true)
    else if b < 0xC2 || b > 0xF4 then Unit(1, false)
    else if |s| < 2 || !SecondByteOk(b, s[1]) then Unit(1, false)
    else if b < 0xE0 then Unit(2, true)
    else if |s| < 3 || !IsContinuation(s[2]) then Unit(2, false)
    else if b < 0xF0 then Unit(3, true)
    else if |s| < 4 || !IsContinuation(s[3]) then Unit(3, false)
    else Unit(4, true)
  }

  /** The bytes of a longer character are all from 0x80 up. */
  lemma FirstUnitBytes(s: string)
    requires s != "" && FirstUnit(s).ok && s[0] as int >= 0x80
    ensures forall i :: 0 <= i < FirstUnit(s).len ==> 0x80 <= s[i] as int < 0x100
  {
  }

  predicate ValidUtf8(s: string) {
    s == "" || (FirstUnit(s).ok && ValidUtf8(s[FirstUnit(s).len..]))
  }

  /** U+FFFD in UTF-8. */
  const REPLACEMENT: string := [0xEF as char, 0xBF as char, 0xBD as char]

  function Lossy(s: string): string {
    if s == "" then ""
    else
      var u := FirstUnit(s);
      (if u.ok then s[..u.len] else REPLACEMENT) + Lossy(s[u.len..])
  }

  /** A prefix that is one whole character is read as that character. */
  lemma FirstUnitOfPrefix(c: string, s: string)
    requires c != "" && FirstUnit(c).ok && FirstUnit(c).len == |c|
    ensures FirstUnit(c + s) == Unit(|c|, true)
    ensures (c + s)[|c|..] == s
  {
  }

  lemma FirstUnitAlone(s: string)
    requires s != "" && FirstUnit(s).ok
    ensures FirstUnit(s[..FirstUnit(s).len]) == FirstUnit(s)
  {
  }

  /** A valid string starts with a character and goes on validly. */
  lemma ValidCons(c: string, s: string)
    requires c != "" && FirstUnit(c).ok && FirstUnit(c).len == |c| && ValidUtf8(s)
    ensures ValidUtf8(c + s)
  {
    FirstUnitOfPrefix(c, s);
  }

  lemma {:induction false} ValidConcat(a: string, b: string)
    requires ValidUtf8(a) && ValidUtf8(b)
    ensures ValidUtf8(a + b)
    decreases |a|
  {
    if a == "" {
      assert a + b == b;
    } else {
      hide FirstUnit;
      var n := FirstUnit(a).len;
      ValidConcat(a[n..], b);
      FirstUnitAlone(a);
      ValidCons(a[..n], a[n..] + b);
      SplitAppend(a, n, b);
    }
  }

  /** An ASCII byte of a valid string is a character boundary: both sides are valid. */
  lemma {:induction false} ValidSplit(s: string, i: nat)
    requires ValidUtf8(s) && i < |s| && s[i] as int < 0x80
    ensures ValidUtf8(s[..i]) && ValidUtf8(s[i..]) && ValidUtf8(s[i + 1..])
    decreases |s|
  {
    hide FirstUnit;
    var n := FirstUnit(s).len;
    if i == 0 {
      assert s[0..] == s && s[..0] == "";
      assert n == 1;
    } else {
      var t := s[n..];
      assert i >= n by {
        if s[0] as int >= 0x80 {
          FirstUnitBytes(s);
        }
      }
      ValidSplit(t, i - n);
      FirstUnitAlone(s);
      ValidCons(s[..n], t[..i - n]);
      hide ValidUtf8;
      SplitTwice(s, n, i);
      assert t[i - n + 1..] == s[i + 1..];
    }
  }

  lemma {:induction false} ValidAscii(s: string)
    requires forall i :: 0 <= i < |s| ==> s[i] as int < 0x80
    ensures ValidUtf8(s)
  {
    if s != "" {
      ValidAscii(s[1..]);
    }
  }

  lemma {:induction false} LossyIsValid(s: string)
    ensures ValidUtf8(Lossy(s))
    decreases |s|
  {
    if s != "" {
      var u := FirstUnit(s);
      LossyIsValid(s[u.len..]);
      if u.ok {
        FirstUnitAlone(s);
      }
      ValidCons(if u.ok then s[..u.len] else REPLACEMENT, Lossy(s[u.len..]));
    }
  }

  lemma {:induction false} LossyOnValid(s: string)
    requires ValidUtf8(s)
    ensures Lossy(s) == s
    decreases |s|
  {
    if s != "" {
      LossyOnValid(s[FirstUnit(s).len..]);
    }
  }

  // ---------------------------------------------------------------- runs and splits

  /** The length of the longest prefix whose characters all satisfy `p`. */
  function Span(p: char -> bool, s: string): (n: nat)
    ensures n <= |s|
  {
    if s == "" || !p(s[0]) then 0 else 1 + Span(p, s[1..])
  }

  predicate All(p: char -> bool, s: string) {
    forall i :: 0 <= i < |s| ==> p(s[i])
  }

  /** A cursor at `i` of `s` extends the run by one, or the run ends there. */
  lemma SpanAt(p: char -> bool, s: string, i: nat)
    requires i <= |s|
    ensures i < |s| && p(s[i]) ==> Span(p, s[i..]) == 1 + Span(p, s[i + 1..])
    ensures i == |s| || !p(s[i]) ==> Span(p, s[i..]) == 0
  {
    if i < |s| {
      assert s[i..][0] == s[i] && s[i..][1..] == s[i + 1..];
    }
  }

  lemma DropDrop(s: string, i: nat, j: nat)
    requires i <= j <= |s|
    ensures s[i..][j - i..] == s[j..]
  {
  }

  lemma {:induction false} SpanIsRun(p: char -> bool, s: string)
    ensures All(p, s[..Span(p, s)])
    ensures Span(p, s) < |s| ==> !p(s[Span(p, s)])
  {
    var n := Span(p, s);
    if n > 0 {
      SpanIsRun(p, s[1..]);
      assert s[..n] == [s[0]] + s[1..][..n - 1];
    }
  }

  lemma {:induction false} SpanOfPrefix(p: char -> bool, a: string, b: string)
    requires All(p, a)
    requires b == "" || !p(b[0])
    ensures Span(p, a + b) == |a|
    ensures (a + b)[..|a|] == a && (a + b)[|a|..] == b
  {
    if a == "" {
      assert a + b == b;
    } else {
      SpanOfPrefix(p, a[1..], b);
      assert (a + b)[1..] == a[1..] + b;
    }
  }

  lemma Cut(a: string, b: string)
    ensures (a + b)[..|a|] == a && (a + b)[|a|..] == b
  {
  }

  lemma SplitAt(s: string, i: nat)
    requires i <= |s|
    ensures s == s[..i] + s[i..]
  {
  }

  lemma SplitTwice(s: string, n: nat, i: nat)
    requires n <= i <= |s|
    ensures s[..i] == s[..n] + s[n..][..i - n] && s[n..][i - n..] == s[i..]
  {
  }

  lemma TakeDrop(s: string, n: nat, k: nat)
    requires n <= k <= |s|
    ensures s[..k][n..] == s[n..][..k - n]
  {
  }

  lemma SplitAppend(a: string, n: nat, b: string)
    requires n <= |a|
    ensures a + b == a[..n] + (a[n..] + b)
  {
  }

  /** A prefix grown by one. */
  lemma Grow(s: string, n: nat, k: string)
    requires 0 < n <= |s|
    ensures s[..n - 1] + ([s[n - 1]] + k) == s[..n] + k && s[n - 1..][1..] == s[n..]
  {
    assert s[..n] == s[..n - 1] + [s[n - 1]];
  }

  lemma SplitAround(s: string, i: nat)
    requires i < |s|
    ensures s == s[..i] + ([s[i]] + s[i + 1..])
  {
  }

  lemma SplitFour(s: string, a: nat, b: nat, c: nat, d: nat)
    requires a + b + c + d <= |s|
    ensures var t := s[a..]; var u := t[b..]; var w := u[c..];
            s == s[..a] + (t[..b] + (u[..c] + (w[..d] + w[d..])))
  {
    var t := s[a..];
    var u := t[b..];
    var w := u[c..];
    SplitAt(w, d);
    SplitAt(u, c);
    SplitAt(t, b);
    SplitAt(s, a);
  }

  lemma SplitAroundThree(s: string, a: nat, b: nat, c: nat)
    requires a + 1 + b + 1 + c < |s|
    ensures var t := s[a + 1..]; var u := t[b + 1..];
            s == s[..a] + ([s[a]] + (t[..b] + ([t[b]] + (u[..c] + ([u[c]] + u[c + 1..])))))
  {
    var t := s[a + 1..];
    var u := t[b + 1..];
    SplitAround(u, c);
    SplitAround(t, b);
    SplitAround(s, a);
  }

  /** The index of the first `c`, or the length when there is none. */
  function Find(c: char, s: string): (n: nat)
    ensures n <= |s|
    ensures n < |s| ==> s[n] == c
  {
    if s == "" || s[0] == c then 0 else 1 + Find(c, s[1..])
  }

  lemma NotInDrop(c: char, s: string, n: nat)
    requires n <= |s| && c !in s
    ensures c !in s[n..]
  {
    assert s == s[..n] + s[n..];
  }

  lemma NotInDropSnoc(c: char, s: string, n: nat, x: char)
    requires n <= |s| && c !in s[n..] && c != x
    ensures c !in (s + [x])[n..]
  {
    assert (s + [x])[n..] == s[n..] + [x];
  }

  lemma {:induction false} FindIsFirst(c: char, s: string)
    ensures c !in s[..Find(c, s)]
  {
    var n := Find(c, s);
    if n > 0 {
      FindIsFirst(c, s[1..]);
      assert s[..n] == [s[0]] + s[1..][..n - 1];
    }
  }

  lemma {:induction false} FindOfPrefix(c: char, a: string, b: string)
    requires c !in a && (b == "" || b[0] == c)
    ensures Find(c, a + b) == |a|
    ensures (a + b)[..|a|] == a && (a + b)[|a|..] == b
  {
    if a == "" {
      assert a + b == b;
    } else {
      FindOfPrefix(c, a[1..], b);
      assert (a + b)[1..] == a[1..] + b;
    }
  }

  /** ASCII lower case, byte by byte. */
  function LowerByte(c: char): char {
    if 'A' <= c <= 'Z' then (c as int + 32) as char else c
  }

  function Lower(s: string): (r: string)
    ensures |r| == |s|
    ensures forall i :: 0 <= i < |s| ==> r[i] == LowerByte(s[i])
  {
    seq(|s|, i requires 0 <= i < |s| => LowerByte(s[i]))
  }

  lemma LowerAlready(s: string)
    requires forall i :: 0 <= i < |s| ==> !('A' <= s[i] <= 'Z')
    ensures Lower(s) == s
  {
  }

  // ---------------------------------------------------------------- order

  /** The order of `str::cmp` and of `BTreeMap<String, _>`: lexicographic by bytes. */
  predicate Less(a: string, b: string) {
    b != "" && (a == "" || a[0] < b[0] || (a[0] == b[0] && Less(a[1..], b[1..])))
  }

  lemma {:induction false} LessIrreflexive(a: string)
    ensures !Less(a, a)
  {
    if a != "" {
      LessIrreflexive(a[1..]);
    }
  }

  lemma {:induction false} LessTransitive(a: string, b: string, c: string)
    requires Less(a, b) && Less(b, c)
    ensures Less(a, c)
  {
    if a != "" && a[0] == b[0] == c[0] {
      LessTransitive(a[1..], b[1..], c[1..]);
    }
  }

  lemma {:induction false} LessTotal(a: string, b: string)
    ensures a == b || Less(a, b) || Less(b, a)
  {
    if a != "" && b != "" && a[0] == b[0] {
      LessTotal(a[1..], b[1..]);
      assert a == [a[0]] + a[1..] && b == [b[0]] + b[1..];
    }
  }

  lemma {:induction false} LessConcat(a: string, x: string, b: string, y: string)
    requires |a| == |b|
    ensures Less(a + x, b + y) <==> Less(a, b) || (a == b && Less(x, y))
  {
    if a == "" {
      assert a + x == x && b + y == y;
    } else {
      LessConcat(a[1..], x, b[1..], y);
      assert (a + x)[1..] == a[1..] + x && (b + y)[1..] == b[1..] + y;
      assert a == [a[0]] + a[1..] && b == [b[0]] + b[1..];
    }
  }

  // ---------------------------------------------------------------- decimal

  predicate IsDigit(c: char) {
    '0' <= c <= '9'
  }

  function Digit(n: nat): (c: char)
    requires n < 10
    ensures IsDigit(c) && c as int == n + 48
  {
    (n + 48) as char
  }

  /** Decimal digits of `n` without leading zeros. */
  function Decimal(n: nat): (s: string)
    ensures s != "" && All(IsDigit, s)
    ensures s[0] == '0' ==> s == "0"
    ensures n > 0 ==> s[0] != '0'
  {
    if n < 10 then [Digit(n)] else Decimal(n / 10) + [Digit(n % 10)]
  }

  function DecimalValue(s: string): nat
    requires All(IsDigit, s)
  {
    if s == "" then 0 else 10 * DecimalValue(s[..|s| - 1]) + (s[|s| - 1] as int - 48)
  }

  lemma {:induction false} DecimalRoundTrip(n: nat)
    ensures DecimalValue(Decimal(n)) == n
  {
    var s := Decimal(n);
    if n >= 10 {
      DecimalRoundTrip(n / 10);
      assert s[..|s| - 1] == Decimal(n / 10);
    } else {
      assert s[..|s| - 1] == "";
    }
  }

  // ---------------------------------------------------------------- hexadecimal

  predicate IsHex(c: char) {
    IsDigit(c) || 'a' <= c <= 'f' || 'A' <= c <= 'F'
  }

  function HexValue(c: char): (n: nat)
    requires IsHex(c)
    ensures n < 16
  {
    if IsDigit(c) then c as int - 48
    else if 'a' <= c <= 'f' then c as int - 87
    else c as int - 55
  }

  function UpperHex(n: nat): (c: char)
    requires n < 16
    ensures IsHex(c) && HexValue(c) == n && c as int < 0x80
    ensures IsDigit(c) || 'A' <= c <= 'F'
  {
    if n < 10 then (n + 48) as char else (n + 55) as char
  }

  function LowerHex(n: nat): (c: char)
    requires n < 16
    ensures IsHex(c) && HexValue(c) == n && c as int < 0x80
    ensures IsDigit(c) || 'a' <= c <= 'f'
  {
    if n < 10 then (n + 48) as char else (n + 87) as char
  }

  /** `c` is a hexadecimal digit of value `v`, in either case. */
  predicate HexDigit(c: char, v: nat) {
    v < 16 && LowerByte(c) == "0123456789abcdef"[v]
  }

  lemma DigitIs(c: char, v: nat)
    ensures HexDigit(c, v) <==> IsHex(c) && HexValue(c) == v
  {
    var digits := "0123456789abcdef";
    assert digits[0] == '0' && digits[1] == '1' && digits[2] == '2' && digits[3] == '3' && digits[4] == '4'
           && digits[5] == '5' && digits[6] == '6' && digits[7] == '7' && digits[8] == '8' && digits[9] == '9'
           && digits[10] == 'a' && digits[11] == 'b' && digits[12] == 'c' && digits[13] == 'd' && digits[14] == 'e'
           && digits[15] == 'f';
  }


  /** The capital letters become their small ones, and nothing else changes. */
  lemma LowerExact(c: char, i: nat)
    requires i < 26
    ensures LowerByte("ABCDEFGHIJKLMNOPQRSTUVWXYZ"[i]) == "abcdefghijklmnopqrstuvwxyz"[i]
    ensures c !in "ABCDEFGHIJKLMNOPQRSTUVWXYZ" ==> LowerByte(c) == c
  {
    var upper, lower := "ABCDEFGHIJKLMNOPQRSTUVWXYZ", "abcdefghijklmnopqrstuvwxyz";
    LetterAt(i);
    if 'A' <= c <= 'Z' {
      LetterAt(c as int - 65);
      assert upper[c as int - 65] == c;
    }
  }

  lemma LetterAt(i: nat)
    requires i < 26
    ensures "ABCDEFGHIJKLMNOPQRSTUVWXYZ"[i] as int == 65 + i && "abcdefghijklmnopqrstuvwxyz"[i] as int == 97 + i
  {
  }
}
