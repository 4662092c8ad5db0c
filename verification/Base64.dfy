/** Base64 of 16 bytes with the URL-safe alphabet and no padding (section 5 of RFC 4648): the 128 bits
    and four zero bits, six at a time. It meets what `Crypto` assumes of its encoding. */
module Base64 {
  import opened Text
  import opened Powers
  import opened Crypto

  // ---------------------------------------------------------------- digits

  function Quotient(n: nat, b: nat): nat
    requires b > 0
  {
    n / b
  }

  function Remainder(n: nat, b: nat): (r: nat)
    requires b > 0
    ensures r < b
  {
    n % b
  }

  /** The last `width` digits of `n` to the base `b`. */
  function Digits(n: nat, b: nat, width: nat): seq<nat>
    requires b > 0
    decreases width
  {
    if width == 0 then [] else Digits(Quotient(n, b), b, width - 1) + [Remainder(n, b)]
  }

  function Value(ds: seq<nat>, b: nat): nat {
    if ds == [] then 0 else Value(ds[..|ds| - 1], b) * b + ds[|ds| - 1]
  }

  predicate AreDigits(ds: seq<nat>, b: nat) {
    forall i :: 0 <= i < |ds| ==> ds[i] < b
  }

  lemma {:induction false} DigitsAreDigits(n: nat, b: nat, width: nat)
    requires b > 0
    ensures |Digits(n, b, width)| == width && AreDigits(Digits(n, b, width), b)
    decreases width
  {
    hide Quotient, Remainder;
    if width > 0 {
      DigitsAreDigits(Quotient(n, b), b, width - 1);
    }
  }

  function Pow(b: nat, k: nat): nat {
    if k == 0 then 1 else b * Pow(b, k - 1)
  }

  lemma QuotientBelow(n: nat, b: nat, m: nat)
    requires b > 0 && n < b * m
    ensures Quotient(n, b) < m && n == Quotient(n, b) * b + Remainder(n, b)
  {
    if n / b >= m {
      Times(m, n / b, b);
    }
  }

  lemma {:induction false} ValueOfDigits(n: nat, b: nat, width: nat)
    requires b > 0 && n < Pow(b, width)
    ensures Value(Digits(n, b, width), b) == n
    decreases width
  {
    hide Quotient, Remainder;
    if width > 0 {
      QuotientBelow(n, b, Pow(b, width - 1));
      ValueOfDigits(Quotient(n, b), b, width - 1);
      DigitsAreDigits(n, b, width);
      DigitsAreDigits(Quotient(n, b), b, width - 1);
      var ds := Digits(n, b, width);
      hide Pow;
      assert ds[..width - 1] == Digits(Quotient(n, b), b, width - 1);
    }
  }

  lemma ValueStep(q: nat, r: nat, b: nat, m: nat)
    requires r < b && q < m
    ensures Quotient(q * b + r, b) == q && Remainder(q * b + r, b) == r && q * b + r < b * m
  {
    DivisionIs(q * b + r, b, q, r);
    Times(q + 1, m, b);
  }

  lemma {:induction false} DigitsOfValue(ds: seq<nat>, b: nat)
    requires b > 0 && AreDigits(ds, b)
    ensures Digits(Value(ds, b), b, |ds|) == ds && Value(ds, b) < Pow(b, |ds|)
  {
    hide Quotient, Remainder;
    if ds != [] {
      var n := |ds| - 1;
      DigitsOfValue(ds[..n], b);
      ValueStep(Value(ds[..n], b), ds[n], b, Pow(b, n));
      assert ds == ds[..n] + [ds[n]];
    }
  }

  lemma {:induction false} PowOfPow2(a: nat, k: nat)
    ensures Pow(Pow2(a), k) == Pow2(a * k)
  {
    hide Pow2;
    if k == 0 {
      PowZero();
    } else {
      PowOfPow2(a, k - 1);
      assert a * k == a + a * (k - 1);
      Pow2Add(a, a * (k - 1));
    }
  }

  lemma PowZero()
    ensures Pow2(0) == 1
  {
  }

  // ---------------------------------------------------------------- the alphabet

  function Letter(n: nat): (c: char)
    requires n < 64
    ensures IsUrlSafe(c) && LetterValue(c) == n
  {
    if n < 26 then (n + 65) as char
    else if n < 52 then (n + 71) as char
    else if n < 62 then (n - 4) as char
    else if n == 62 then '-' else '_'
  }

  function LetterValue(c: char): (n: nat)
    requires IsUrlSafe(c)
    ensures n < 64
  {
    if 'A' <= c <= 'Z' then c as int - 65
    else if 'a' <= c <= 'z' then c as int - 71
    else if IsDigit(c) then c as int + 4
    else if c == '-' then 62 else 63
  }

  function Letters(ds: seq<nat>): (s: string)
    requires AreDigits(ds, 64)
    ensures |s| == |ds|
  {
    seq(|ds|, i requires 0 <= i < |ds| => Letter(ds[i]))
  }

  function LetterValues(s: string): (ds: seq<nat>)
    requires All(IsUrlSafe, s)
    ensures |ds| == |s|
  {
    seq(|s|, i requires 0 <= i < |s| => LetterValue(s[i]))
  }

  function Bytes(ds: seq<nat>): (s: string)
    requires AreDigits(ds, 256)
    ensures |s| == |ds|
  {
    seq(|ds|, i requires 0 <= i < |ds| => ds[i] as char)
  }

  function ByteValues(s: string): (ds: seq<nat>)
    ensures |ds| == |s|
  {
    seq(|s|, i requires 0 <= i < |s| => s[i] as int)
  }

  lemma Sixes()
    ensures Pow2(4) == 16 && Pow2(6) == 64 && Pow2(8) == 256
  {
    assert Pow2(3) == 8 && Pow2(4) == 16 && Pow2(5) == 32 && Pow2(7) == 128;
  }

  /** Sixteen bytes and four bits are twenty-two sixes of bits. */
  lemma SixteenFit()
    ensures 16 * Pow(256, 16) == Pow(64, 22)
  {
    hide Pow, Pow2;
    Sixes();
    PowOfPow2(8, 16);
    PowOfPow2(6, 22);
    Pow2Add(4, 128);
  }

  // ---------------------------------------------------------------- the code

  function Encode(d: string): string {
    if |d| != 16 then ""
    else
      var v := 16 * Value(ByteValues(d), 256);
      DigitsAreDigits(v, 64, 22);
      Letters(Digits(v, 64, 22))
  }

  /** None when the length is wrong, a character is not of the alphabet or the last four bits are not
      zero. */
  function Decode(s: string): Option<string> {
    if |s| != 22 || !All(IsUrlSafe, s) then None
    else
      var v := Value(LetterValues(s), 64);
      if v % 16 != 0 then None
      else
        DigitsAreDigits(v / 16, 256, 16);
        Some(Bytes(Digits(v / 16, 256, 16)))
  }

  lemma LettersRead(ds: seq<nat>)
    requires AreDigits(ds, 64)
    ensures All(IsUrlSafe, Letters(ds)) && LetterValues(Letters(ds)) == ds
  {
  }

  lemma BytesRead(d: string)
    requires All(IsByte, d)
    ensures AreDigits(ByteValues(d), 256)
    ensures Bytes(ByteValues(d)) == d
  {
    assert forall i :: 0 <= i < |d| ==> IsByte(d[i]);
  }

  lemma DecodeUndoes(d: string)
    requires |d| == 16 && All(IsByte, d)
    ensures Decode(Encode(d)) == Some(d) && |Encode(d)| == 22 && All(IsUrlSafe, Encode(d))
  {
    hide Pow, Digits, Value, Letters, LetterValues, Bytes, ByteValues, All, AreDigits;
    BytesRead(d);
    var x := Value(ByteValues(d), 256);
    DigitsOfValue(ByteValues(d), 256);
    SixteenFit();
    ValueOfDigits(16 * x, 64, 22);
    DigitsAreDigits(16 * x, 64, 22);
    LettersRead(Digits(16 * x, 64, 22));
    assert 16 * x % 16 == 0 && 16 * x / 16 == x;
  }

  /** With any 32-byte tag, this encoding makes a suite as `Crypto` assumes it. */
  lemma SuiteIsSound(tag: (string, string) -> string)
    requires forall key, data :: |tag(key, data)| == 32 && All(IsByte, tag(key, data))
    ensures Sound(Suite(tag, Encode, Decode))
  {
    var c := Suite(tag, Encode, Decode);
    hide Digits, Value, Letters, LetterValues, All;
    forall d | |d| == 16 && All(IsByte, d)
      ensures SoundCode(c, d)
    {
      DecodeUndoes(d);
    }
  }

  const CAPITALS: string := "ABCDEFGHIJKLMNOPQRSTUVWXYZ"
  const SMALL: string := "abcdefghijklmnopqrstuvwxyz"
  const DIGITS: string := "0123456789-_"

  lemma DigitAt(i: nat)
    requires i < 12
    ensures DIGITS[i] as int == if i < 10 then 48 + i else if i == 10 then 45 else 95
  {
  }

  /** The alphabet of section 5 of RFC 4648: capitals, small letters, digits, minus and underscore. */
  lemma LetterExact(n: nat)
    requires n < 64
    ensures Letter(n) == if n < 26 then CAPITALS[n] else if n < 52 then SMALL[n - 26] else DIGITS[n - 52]
  {
    if n < 26 {
      LetterAt(n);
    } else if n < 52 {
      LetterAt(n - 26);
    } else {
      DigitAt(n - 52);
    }
  }
}
