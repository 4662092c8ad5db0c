/** Printed timestamps (`format_time` in src/logging.rs): RFC 3339 section 5.6 with milliseconds. */
module Timestamp {
  import opened Text
  import opened Calendar

  // ---------------------------------------------------------------- padded numbers

  function ZeroDigits(n: nat): string {
    seq(n, _ => '0')
  }

  /** `{n:0w}`: decimal, padded with zeros to at least `w` digits. */
  function Padded(n: nat, w: nat): string {
    var d := Decimal(n);
    if |d| < w then ZeroDigits(w - |d|) + d else d
  }

  function Pow10(w: nat): nat {
    if w == 0 then 1 else 10 * Pow10(w - 1)
  }

  /** The last `w` decimal digits. */
  function Fixed(n: nat, w: nat): (s: string)
    ensures |s| == w
  {
    if w == 0 then "" else Fixed(n / 10, w - 1) + [Digit(n % 10)]
  }

  lemma {:induction false} FixedZero(w: nat)
    ensures Fixed(0, w) == ZeroDigits(w)
  {
    if w > 0 {
      FixedZero(w - 1);
    }
  }

  lemma {:induction false} PaddedIsFixed(n: nat, w: nat)
    requires w > 0 && n < Pow10(w)
    ensures Padded(n, w) == Fixed(n, w)
  {
    if n < 10 {
      FixedZero(w - 1);
      assert Fixed(n / 10, w - 1) == ZeroDigits(w - 1);
    } else {
      assert w > 1;
      PaddedIsFixed(n / 10, w - 1);
    }
  }

  lemma {:induction false} FixedDigits(n: nat, w: nat)
    requires n < Pow10(w)
    ensures All(IsDigit, Fixed(n, w)) && DecimalValue(Fixed(n, w)) == n
  {
    if w > 0 {
      FixedDigits(n / 10, w - 1);
      var s := Fixed(n, w);
      assert s[..w - 1] == Fixed(n / 10, w - 1);
    }
  }

  /** Equally long numbers are ordered as texts exactly as they are as numbers. */
  lemma {:induction false} FixedOrder(a: nat, b: nat, w: nat)
    requires a < Pow10(w) && b < Pow10(w)
    ensures Less(Fixed(a, w), Fixed(b, w)) <==> a < b
    ensures Fixed(a, w) == Fixed(b, w) <==> a == b
  {
    if w > 0 {
      FixedOrder(a / 10, b / 10, w - 1);
      var x, y := [Digit(a % 10)], [Digit(b % 10)];
      LessConcat(Fixed(a / 10, w - 1), x, Fixed(b / 10, w - 1), y);
      assert x[1..] == "" && y[1..] == "";
      assert Less(x, y) <==> a % 10 < b % 10;
      if Fixed(a, w) == Fixed(b, w) {
        assert Fixed(a, w)[..w - 1] == Fixed(a / 10, w - 1) && Fixed(b, w)[..w - 1] == Fixed(b / 10, w - 1);
        assert Fixed(a, w)[w - 1] == Digit(a % 10) && Fixed(b, w)[w - 1] == Digit(b % 10);
      }
    }
  }

  /** One field and its separator, in front of the rest. */
  lemma FieldOrder(a: nat, b: nat, w: nat, sep: char, u: string, v: string)
    requires a < Pow10(w) && b < Pow10(w)
    ensures Less(Fixed(a, w) + ([sep] + u), Fixed(b, w) + ([sep] + v)) <==> a < b || (a == b && Less(u, v))
  {
    FixedOrder(a, b, w);
    LessConcat(Fixed(a, w), [sep] + u, Fixed(b, w), [sep] + v);
    assert ([sep] + u)[1..] == u && ([sep] + v)[1..] == v;
  }

  // ---------------------------------------------------------------- timestamps

  datatype Fields = Fields(date: Civil, hour: int, minute: int, second: int, millis: int)

  /** The UTC fields of an instant, in milliseconds since 1970; earlier instants count as 1970. */
  function FieldsOf(instant: int): Fields {
    var since := if instant < 0 then 0 else instant;
    var secs := since / 1000;
    var rem := secs % 86400;
    Fields(CivilFromDays(secs / 86400), rem / 3600, rem % 3600 / 60, rem % 60, since % 1000)
  }

  predicate Printable(f: Fields) {
    && 0 <= f.date.year < 10000 && 0 <= f.date.month < 100 && 0 <= f.date.day < 100
    && 0 <= f.hour < 100 && 0 <= f.minute < 100 && 0 <= f.second < 100 && 0 <= f.millis < 1000
  }

  /** The instants of the years 1970 to 9999. */
  predicate InRange(instant: int) {
    instant >= 0 && CivilFromDays(instant / 1000 / 86400).year <= 9999
  }

  function NonNegative(n: int): nat {
    if n < 0 then 0 else n
  }

  function Print(f: Fields): string {
    Padded(NonNegative(f.date.year), 4) + ("-" + (Padded(NonNegative(f.date.month), 2) + ("-" +
      (Padded(NonNegative(f.date.day), 2) + ("T" + (Padded(NonNegative(f.hour), 2) + (":" +
        (Padded(NonNegative(f.minute), 2) + (":" + (Padded(NonNegative(f.second), 2) + ("." +
          (Padded(NonNegative(f.millis), 3) + "Z"))))))))))))
  }

  function FormatTime(instant: int): string {
    Print(FieldsOf(instant))
  }

  // ---------------------------------------------------------------- printing fixed fields

  function PrintTime(f: Fields): string
    requires Printable(f)
  {
    Fixed(f.hour, 2) + ([':'] + (Fixed(f.minute, 2) + ([':'] + (Fixed(f.second, 2) + (['.'] +
      (Fixed(f.millis, 3) + (['Z'] + "")))))))
  }

  function PrintFixed(f: Fields): string
    requires Printable(f)
  {
    Fixed(f.date.year, 4) + (['-'] + (Fixed(f.date.month, 2) + (['-'] + (Fixed(f.date.day, 2) + (['T'] + PrintTime(f))))))
  }

  lemma Powers()
    ensures Pow10(2) == 100 && Pow10(3) == 1000 && Pow10(4) == 10000
  {
    assert Pow10(1) == 10;
  }

  lemma PrintIsFixed(f: Fields)
    requires Printable(f)
    ensures Print(f) == PrintFixed(f)
  {
    hide Padded, Fixed;
    Powers();
    PaddedIsFixed(f.date.year, 4);
    PaddedIsFixed(f.date.month, 2);
    PaddedIsFixed(f.date.day, 2);
    PaddedIsFixed(f.hour, 2);
    PaddedIsFixed(f.minute, 2);
    PaddedIsFixed(f.second, 2);
    PaddedIsFixed(f.millis, 3);
    assert ['Z'] + "" == "Z";
  }

  predicate TimeBefore(a: Fields, b: Fields) {
    a.hour < b.hour || (a.hour == b.hour && (a.minute < b.minute || (a.minute == b.minute &&
      (a.second < b.second || (a.second == b.second && a.millis < b.millis)))))
  }

  predicate FieldsBefore(a: Fields, b: Fields) {
    Before(a.date, b.date) || (a.date == b.date && TimeBefore(a, b))
  }

  lemma TimeOrder(a: Fields, b: Fields)
    requires Printable(a) && Printable(b)
    ensures Less(PrintTime(a), PrintTime(b)) <==> TimeBefore(a, b)
  {
    hide Fixed, Less;
    Powers();
    var s, t := Fixed(a.millis, 3) + (['Z'] + ""), Fixed(b.millis, 3) + (['Z'] + "");
    LessIrreflexive("");
    FieldOrder(a.millis, b.millis, 3, 'Z', "", "");
    FieldOrder(a.second, b.second, 2, '.', s, t);
    FieldOrder(a.minute, b.minute, 2, ':', Fixed(a.second, 2) + (['.'] + s), Fixed(b.second, 2) + (['.'] + t));
    FieldOrder(a.hour, b.hour, 2, ':', Fixed(a.minute, 2) + ([':'] + (Fixed(a.second, 2) + (['.'] + s))),
               Fixed(b.minute, 2) + ([':'] + (Fixed(b.second, 2) + (['.'] + t))));
  }

  lemma PrintOrder(a: Fields, b: Fields)
    requires Printable(a) && Printable(b)
    ensures Less(PrintFixed(a), PrintFixed(b)) <==> FieldsBefore(a, b)
  {
    hide Fixed, Less, PrintTime, TimeBefore;
    Powers();
    TimeOrder(a, b);
    var s, t := PrintTime(a), PrintTime(b);
    FieldOrder(a.date.day, b.date.day, 2, 'T', s, t);
    FieldOrder(a.date.month, b.date.month, 2, '-', Fixed(a.date.day, 2) + (['T'] + s), Fixed(b.date.day, 2) + (['T'] + t));
    FieldOrder(a.date.year, b.date.year, 4, '-', Fixed(a.date.month, 2) + (['-'] + (Fixed(a.date.day, 2) + (['T'] + s))),
               Fixed(b.date.month, 2) + (['-'] + (Fixed(b.date.day, 2) + (['T'] + t))));
  }

  // ---------------------------------------------------------------- instants

  lemma RangeIsPrintable(instant: int)
    requires InRange(instant)
    ensures Printable(FieldsOf(instant))
  {
    hide CivilFromDays;
    var n := instant / 1000 / 86400;
    CivilIsGregorian(n);
    CivilOrder(0, n);
    CivilOrder(n, 0);
  }

  /** The time of day in milliseconds. */
  function MillisOfDay(f: Fields): int {
    f.millis + 1000 * (f.second + 60 * (f.minute + 60 * f.hour))
  }

  predicate TimeOfDay(f: Fields) {
    0 <= f.hour < 24 && 0 <= f.minute < 60 && 0 <= f.second < 60 && 0 <= f.millis < 1000
  }

  lemma FieldsSplit(instant: int)
    requires instant >= 0
    ensures var f := FieldsOf(instant);
            TimeOfDay(f) && instant == 86400000 * (instant / 1000 / 86400) + MillisOfDay(f)
  {
    hide CivilFromDays;
    var secs := instant / 1000;
    var rem := secs % 86400;
    assert rem == 3600 * (rem / 3600) + rem % 3600;
    assert rem % 3600 == 60 * (rem % 3600 / 60) + rem % 3600 % 60;
    assert rem % 3600 % 60 == rem % 60;
  }

  lemma TimeOfDayOrder(a: Fields, b: Fields)
    requires TimeOfDay(a) && TimeOfDay(b)
    ensures TimeBefore(a, b) <==> MillisOfDay(a) < MillisOfDay(b)
    ensures 0 <= MillisOfDay(a) < 86400000
  {
  }

  /** Up to year 9999, timestamps are ordered as texts exactly as their instants are. */
  lemma TimestampOrder(s: int, t: int)
    requires InRange(s) && InRange(t)
    ensures Less(FormatTime(s), FormatTime(t)) <==> s < t
  {
    RangeIsPrintable(s);
    RangeIsPrintable(t);
    hide Less, Print, PrintFixed, CivilFromDays, TimeBefore, TimeOfDay, MillisOfDay;
    var a, b := FieldsOf(s), FieldsOf(t);
    PrintIsFixed(a);
    PrintIsFixed(b);
    PrintOrder(a, b);
    FieldsSplit(s);
    FieldsSplit(t);
    TimeOfDayOrder(a, b);
    TimeOfDayOrder(b, a);
    var m, n := s / 1000 / 86400, t / 1000 / 86400;
    CivilOrder(m, n);
    CivilOrder(n, m);
    DateSame(m, n);
  }

  lemma DateSame(m: int, n: int)
    ensures CivilFromDays(m) == CivilFromDays(n) <==> m == n
  {
    hide CivilFromDays, DaysFromCivil;
    CivilRoundTrip(m, CivilFromDays(m));
    CivilRoundTrip(n, CivilFromDays(n));
  }

  // ---------------------------------------------------------------- reading a timestamp

  predicate IsTimestamp(s: string) {
    |s| == 24 && s[4] == s[7] == '-' && s[10] == 'T' && s[13] == s[16] == ':' && s[19] == '.' && s[23] == 'Z'
    && All(IsDigit, s[0..4]) && All(IsDigit, s[5..7]) && All(IsDigit, s[8..10])
    && All(IsDigit, s[11..13]) && All(IsDigit, s[14..16]) && All(IsDigit, s[17..19]) && All(IsDigit, s[20..23])
  }

  /** The instant a timestamp stands for. */
  function ParseTime(s: string): int
    requires IsTimestamp(s)
  {
    var date := Civil(DecimalValue(s[0..4]), DecimalValue(s[5..7]), DecimalValue(s[8..10]));
    86400000 * DaysFromCivil(date)
    + MillisOfDay(Fields(date, DecimalValue(s[11..13]), DecimalValue(s[14..16]), DecimalValue(s[17..19]),
                         DecimalValue(s[20..23])))
  }

  lemma AfterField(a: string, c: char, u: string)
    ensures var t := a + ([c] + u); t[..|a|] == a && t[|a|] == c && t[|a| + 1..] == u
  {
  }

  lemma TimePlaces(h: string, mi: string, s: string, ms: string)
    requires |h| == |mi| == |s| == 2 && |ms| == 3
    ensures var t := h + ([':'] + (mi + ([':'] + (s + (['.'] + (ms + (['Z'] + "")))))));
            |t| == 13 && t[0..2] == h && t[3..5] == mi && t[6..8] == s && t[9..12] == ms
            && t[2] == t[5] == ':' && t[8] == '.' && t[12] == 'Z'
  {
    var v := s + (['.'] + (ms + (['Z'] + "")));
    var u := mi + ([':'] + v);
    var t := h + ([':'] + u);
    AfterField(ms, 'Z', "");
    AfterField(s, '.', ms + (['Z'] + ""));
    AfterField(mi, ':', v);
    AfterField(h, ':', u);
    assert t[3..] == u && u[3..] == v && t[6..] == v;
    assert t[3..5] == u[0..2] && t[6..8] == v[0..2] && t[9..12] == v[3..6] && t[12] == v[6];
  }

  /** Where the fields of a printed timestamp are. */
  lemma FieldPlaces(y: string, mo: string, d: string, u: string)
    requires |y| == 4 && |mo| == |d| == 2 && |u| == 13
    ensures var t := y + (['-'] + (mo + (['-'] + (d + (['T'] + u)))));
            |t| == 24 && t[0..4] == y && t[5..7] == mo && t[8..10] == d && t[11..] == u
            && t[4] == t[7] == '-' && t[10] == 'T'
  {
    var v := d + (['T'] + u);
    var w := mo + (['-'] + v);
    var t := y + (['-'] + w);
    AfterField(d, 'T', u);
    AfterField(mo, '-', v);
    AfterField(y, '-', w);
    assert t[5..] == w && w[3..] == v && t[8..] == v && t[11..] == v[3..];
    assert t[5..7] == w[0..2] && t[8..10] == v[0..2];
  }

  lemma SliceOfRest(t: string, u: string)
    requires |t| == 24 && t[11..] == u
    ensures t[11..13] == u[0..2] && t[14..16] == u[3..5] && t[17..19] == u[6..8] && t[20..23] == u[9..12]
    ensures t[13] == u[2] && t[16] == u[5] && t[19] == u[8] && t[23] == u[12]
  {
  }

  /** Up to year 9999, a timestamp can be read back to the same millisecond. */
  lemma TimestampRoundTrip(instant: int)
    requires InRange(instant)
    ensures IsTimestamp(FormatTime(instant)) && ParseTime(FormatTime(instant)) == instant
  {
    RangeIsPrintable(instant);
    FieldsSplit(instant);
    var f := FieldsOf(instant);
    PrintIsFixed(f);
    Powers();
    FixedDigits(f.date.year, 4);
    FixedDigits(f.date.month, 2);
    FixedDigits(f.date.day, 2);
    FixedDigits(f.hour, 2);
    FixedDigits(f.minute, 2);
    FixedDigits(f.second, 2);
    FixedDigits(f.millis, 3);
    CivilRoundTrip(instant / 1000 / 86400, f.date);
    hide Fixed, Print, CivilFromDays, DaysFromCivil, DecimalValue, MillisOfDay, All;
    TimePlaces(Fixed(f.hour, 2), Fixed(f.minute, 2), Fixed(f.second, 2), Fixed(f.millis, 3));
    FieldPlaces(Fixed(f.date.year, 4), Fixed(f.date.month, 2), Fixed(f.date.day, 2), PrintTime(f));
    SliceOfRest(PrintFixed(f), PrintTime(f));
  }

  // ---------------------------------------------------------------- outside the range

  /** Instants before 1970 are printed as its first. */
  lemma BeforeEpoch(instant: int)
    requires instant < 0
    ensures FormatTime(instant) == FormatTime(0)
  {
  }

  lemma {:induction false} ZerosThenDigits(zeros: nat, s: string)
    requires All(IsDigit, s)
    ensures All(IsDigit, ZeroDigits(zeros) + s) && DecimalValue(ZeroDigits(zeros) + s) == DecimalValue(s)
    decreases |s|, zeros
  {
    var t := ZeroDigits(zeros) + s;
    if s != "" {
      ZerosThenDigits(zeros, s[..|s| - 1]);
      assert t[..|t| - 1] == ZeroDigits(zeros) + s[..|s| - 1];
    } else if zeros > 0 {
      ZerosThenDigits(zeros - 1, s);
      assert t[..|t| - 1] == ZeroDigits(zeros - 1) + s;
    }
  }

  /** A padded number is its digits, with zeros in front only up to the width; a longer one is whole. */
  lemma PaddedExact(n: nat, w: nat)
    ensures var p := Padded(n, w);
            && All(IsDigit, p) && DecimalValue(p) == n && |p| >= w && (|p| > w ==> p == Decimal(n))
  {
    DecimalRoundTrip(n);
    hide Decimal, DecimalValue;
    if |Decimal(n)| < w {
      ZerosThenDigits(w - |Decimal(n)|, Decimal(n));
    }
  }
}
