/** Day numbers and civil dates (`civil_from_days` in src/logging.rs), against the proleptic
    Gregorian calendar. Division and remainder are the Euclidean ones of the source. */
module Calendar {

  datatype Civil = Civil(year: int, month: int, day: int)

  function YearOfEra(doe: int): int {
    (doe - doe / 1460 + doe / 36524 - doe / 146096) / 365
  }

  function CivilFromDays(days: int): Civil {
    var z := days + 719468;
    var era := z / 146097;
    var doe := z % 146097;
    var yoe := YearOfEra(doe);
    var y := yoe + era * 400;
    var doy := doe - (365 * yoe + yoe / 4 - yoe / 100);
    FromYearDay(y, doy)
  }

  /** The date of day `doy` of the year that starts on 1 March of `y`. */
  function FromYearDay(y: int, doy: int): Civil {
    var mp := (5 * doy + 2) / 153;
    var d := doy - (153 * mp + 2) / 5 + 1;
    var m := if mp < 10 then mp + 3 else mp - 9;
    Civil(if m <= 2 then y + 1 else y, m, d)
  }

  // ---------------------------------------------------------------- the calendar

  predicate IsLeap(y: int) {
    y % 4 == 0 && (y % 100 != 0 || y % 400 == 0)
  }

  function DaysInMonth(y: int, m: int): int {
    if m == 2 then (if IsLeap(y) then 29 else 28)
    else if m == 4 || m == 6 || m == 9 || m == 11 then 30
    else 31
  }

  predicate IsDate(c: Civil) {
    1 <= c.month <= 12 && 1 <= c.day <= DaysInMonth(c.year, c.month)
  }

  function NextDay(c: Civil): Civil {
    if c.day < DaysInMonth(c.year, c.month) then c.(day := c.day + 1)
    else if c.month < 12 then Civil(c.year, c.month + 1, 1)
    else Civil(c.year + 1, 1, 1)
  }

  // ---------------------------------------------------------------- years that start in March

  /** Days from 1 March of year 0 to 1 March of year `y`. */
  function YearStart(y: int): int {
    365 * y + y / 4 - y / 100 + y / 400
  }

  function YearLength(y: int): int {
    if IsLeap(y + 1) then 366 else 365
  }

  lemma YearStartNext(y: int)
    ensures YearStart(y + 1) == YearStart(y) + YearLength(y)
  {
    FloorStep(y, 4);
    FloorStep(y, 100);
    FloorStep(y, 400);
  }

  /** A quotient grows by one exactly when the next number is a multiple. */
  lemma FloorStep(y: int, k: int)
    requires k > 0
    ensures (y + 1) / k == y / k + (if (y + 1) % k == 0 then 1 else 0)
  {
    var q, r := y / k, y % k;
    assert y == k * q + r;
    if r + 1 == k {
      assert y + 1 == k * (q + 1);
      DivModUnique(y + 1, k, q + 1, 0);
    } else {
      DivModUnique(y + 1, k, q, r + 1);
    }
  }

  lemma DivModUnique(x: int, k: int, q: int, r: int)
    requires k > 0 && x == k * q + r && 0 <= r < k
    ensures x / k == q && x % k == r
  {
    var q', r' := x / k, x % k;
    assert k * (q - q') == r' - r;
    MulSeparates(k, q - q');
  }

  lemma MulSeparates(k: int, n: int)
    requires k > 0
    ensures n > 0 ==> k * n >= k
    ensures n < 0 ==> k * n <= -k
  {
  }

  lemma {:induction false} YearStartGrows(a: int, b: int)
    requires a < b
    ensures YearStart(a) + YearLength(a) <= YearStart(b)
    decreases b - a
  {
    YearStartNext(a);
    if a + 1 < b {
      YearStartGrows(a + 1, b);
    }
  }

  // ---------------------------------------------------------------- the year of an era

  /** The closed form gives the year of a day, century by century, four years by four. */
  lemma YearOfEraIs(c: int, b: int, a: int, doy: int)
    requires 0 <= c <= 3 && 0 <= b <= 24 && 0 <= a <= 3 && 0 <= doy
    requires doy < 365 || (doy == 365 && a == 3 && (b < 24 || c == 3))
    ensures YearOfEra(36524 * c + 1461 * b + 365 * a + doy) == 100 * c + 4 * b + a
  {
    if c == 0 {
      YearOfCentury(0, b, a, doy);
    } else if c == 1 {
      YearOfCentury(1, b, a, doy);
    } else if c == 2 {
      YearOfCentury(2, b, a, doy);
    } else {
      YearOfCentury(3, b, a, doy);
    }
  }

  lemma YearOfCentury(c: int, b: int, a: int, doy: int)
    requires c == 0 || c == 1 || c == 2 || c == 3
    requires 0 <= b <= 24 && 0 <= a <= 3 && 0 <= doy
    requires doy < 365 || (doy == 365 && a == 3 && (b < 24 || c == 3))
    ensures YearOfEra(36524 * c + 1461 * b + 365 * a + doy) == 100 * c + 4 * b + a
  {
    var doe := 36524 * c + 1461 * b + 365 * a + doy;
    var r := 24 * c + b + 365 * a + doy;
    assert doe == 1460 * (25 * c + b) + r;
    var q4 := if r < 1460 then 25 * c + b else 25 * c + b + 1;
    DivModUnique(doe, 1460, q4, if r < 1460 then r else r - 1460);
    var last := doe == 146096;
    DivModUnique(doe, 36524, if last then 4 else c, if last then 0 else doe - 36524 * c);
    DivModUnique(doe, 146096, if last then 1 else 0, if last then 0 else doe);
    var y := 100 * c + 4 * b + a;
    DivModUnique(doe - q4 + (if last then 4 else c) - (if last then 1 else 0), 365, y,
                 doe - q4 + (if last then 3 else c) - 365 * y);
  }

  /** Century, four-year group, year and day of a day of an era. */
  lemma EraParts(doe: int) returns (c: int, b: int, a: int, doy: int)
    requires 0 <= doe < 146097
    ensures 0 <= c <= 3 && 0 <= b <= 24 && 0 <= a <= 3 && 0 <= doy
    ensures doy < 365 || (doy == 365 && a == 3 && (b < 24 || c == 3))
    ensures doe == 36524 * c + 1461 * b + 365 * a + doy
  {
    c := if doe < 36524 then 0 else if doe < 73048 then 1 else if doe < 109572 then 2 else 3;
    var r := doe - 36524 * c;
    b := if r / 1461 > 24 then 24 else r / 1461;
    var s := r - 1461 * b;
    a := if s < 365 then 0 else if s < 730 then 1 else if s < 1095 then 2 else 3;
    doy := s - 365 * a;
  }

  /** The year part of `civil_from_days`. */
  function YearAndDay(days: int): (int, int) {
    var z := days + 719468;
    var doe := z % 146097;
    var yoe := YearOfEra(doe);
    (yoe + z / 146097 * 400, doe - (365 * yoe + yoe / 4 - yoe / 100))
  }

  lemma EraYearStart(era: int, c: int, b: int, a: int)
    requires 0 <= c <= 3 && 0 <= b <= 24 && 0 <= a <= 3
    ensures var y := 400 * era + 100 * c + 4 * b + a;
            YearStart(y) == 146097 * era + 36524 * c + 1461 * b + 365 * a
            && (YearLength(y) == 366 <==> a == 3 && (b < 24 || c == 3))
  {
    var y := 400 * era + 100 * c + 4 * b + a;
    DivModUnique(y, 4, 100 * era + 25 * c + b, a);
    DivModUnique(y, 100, 4 * era + c, 4 * b + a);
    DivModUnique(y, 400, era, 100 * c + 4 * b + a);
    FloorStep(y, 4);
    FloorStep(y, 100);
    FloorStep(y, 400);
    NextRemainder(y, 4);
    NextRemainder(y, 100);
    NextRemainder(y, 400);
  }

  lemma NextRemainder(y: int, k: int)
    requires k > 0
    ensures (y + 1) % k == 0 <==> y % k == k - 1
  {
    var q, r := y / k, y % k;
    if r == k - 1 {
      assert y + 1 == k * (q + 1);
      DivModUnique(y + 1, k, q + 1, 0);
    } else {
      DivModUnique(y + 1, k, q, r + 1);
    }
  }

  /** The day number splits into the start of its year and a day of that year. */
  lemma YearAndDayExact(days: int)
    ensures var (y, doy) := YearAndDay(days);
            YearStart(y) + doy == days + 719468 && 0 <= doy < YearLength(y)
  {
    var z := days + 719468;
    var era, doe := z / 146097, z % 146097;
    var c, b, a, doy := EraParts(doe);
    YearOfEraIs(c, b, a, doy);
    var yoe := 100 * c + 4 * b + a;
    hide YearOfEra, YearStart, YearLength;
    assert YearOfEra(doe) == yoe;
    YearInEra(c, b, a);
    YearIs(era, c, b, a, doy);
  }

  /** A day of a year given by its era, century, four-year group and year. */
  lemma YearIs(era: int, c: int, b: int, a: int, doy: int)
    requires 0 <= c <= 3 && 0 <= b <= 24 && 0 <= a <= 3 && 0 <= doy
    requires doy < 365 || (doy == 365 && a == 3 && (b < 24 || c == 3))
    ensures var y := 100 * c + 4 * b + a + era * 400;
            YearStart(y) == 146097 * era + 36524 * c + 1461 * b + 365 * a && doy < YearLength(y)
  {
    EraYearStart(era, c, b, a);
    hide YearStart;
    var y := 100 * c + 4 * b + a + era * 400;
    assert y == 400 * era + 100 * c + 4 * b + a;
    YearLengths(y);
    hide YearLength;
  }

  lemma YearInEra(c: int, b: int, a: int)
    requires 0 <= c <= 3 && 0 <= b <= 24 && 0 <= a <= 3
    ensures var y := 100 * c + 4 * b + a; 365 * y + y / 4 - y / 100 == 36524 * c + 1461 * b + 365 * a
  {
    var y := 100 * c + 4 * b + a;
    DivModUnique(y, 4, 25 * c + b, a);
    DivModUnique(y, 100, c, 4 * b + a);
  }

  lemma YearLengths(y: int)
    ensures YearLength(y) == 365 || YearLength(y) == 366
  {
  }

  lemma CivilIsYearDay(days: int)
    ensures var (y, doy) := YearAndDay(days); CivilFromDays(days) == FromYearDay(y, doy)
  {
    hide YearOfEra;
  }

  /** A day number has one year and one day of the year. */
  lemma YearDayUnique(y: int, doy: int, y': int, doy': int)
    requires YearStart(y) + doy == YearStart(y') + doy'
    requires 0 <= doy < YearLength(y) && 0 <= doy' < YearLength(y')
    ensures y == y' && doy == doy'
  {
    hide YearStart, YearLength;
    if y < y' {
      YearStartGrows(y, y');
    } else if y' < y {
      YearStartGrows(y', y);
    }
  }

  // ---------------------------------------------------------------- months of a March year

  function MonthStart(mp: int): int {
    (153 * mp + 2) / 5
  }

  lemma MonthOfDay(doy: int)
    requires 0 <= doy <= 365
    ensures var mp := (5 * doy + 2) / 153; 0 <= mp <= 11 && MonthStart(mp) <= doy < MonthStart(mp + 1)
  {
  }

  lemma MonthStarts()
    ensures MonthStart(0) == 0 && MonthStart(1) == 31 && MonthStart(2) == 61 && MonthStart(3) == 92
    ensures MonthStart(4) == 122 && MonthStart(5) == 153 && MonthStart(6) == 184 && MonthStart(7) == 214
    ensures MonthStart(8) == 245 && MonthStart(9) == 275 && MonthStart(10) == 306 && MonthStart(11) == 337
  {
  }

  lemma YearDayIsDate(y: int, doy: int)
    requires 0 <= doy < YearLength(y)
    ensures IsDate(FromYearDay(y, doy))
    ensures doy + 1 < YearLength(y) ==> FromYearDay(y, doy + 1) == NextDay(FromYearDay(y, doy))
    ensures doy + 1 == YearLength(y) ==> FromYearDay(y + 1, 0) == NextDay(FromYearDay(y, doy))
  {
    MonthOfDay(doy);
    MonthStarts();
    if doy + 1 < YearLength(y) {
      MonthOfDay(doy + 1);
    }
  }

  // ---------------------------------------------------------------- the main results

  /** Day 0 is 1970-01-01, every day number has a calendar date, and the next day number always has
      the next calendar date. */
  lemma CivilIsGregorian(days: int)
    ensures CivilFromDays(0) == Civil(1970, 1, 1)
    ensures IsDate(CivilFromDays(days)) && CivilFromDays(days + 1) == NextDay(CivilFromDays(days))
  {
    hide YearStart, FromYearDay, NextDay, IsDate;
    var (y, doy) := YearAndDay(days);
    var (y', doy') := YearAndDay(days + 1);
    YearAndDayExact(days);
    YearAndDayExact(days + 1);
    CivilIsYearDay(days);
    CivilIsYearDay(days + 1);
    YearDayIsDate(y, doy);
    if doy + 1 < YearLength(y) {
      YearDayUnique(y, doy + 1, y', doy');
    } else {
      YearStartNext(y);
      YearDayUnique(y + 1, 0, y', doy');
    }
    EpochDate();
  }

  lemma EpochDate()
    ensures CivilFromDays(0) == Civil(1970, 1, 1)
  {
  }

  /** The day number of a date. */
  function DaysFromCivil(c: Civil): int {
    var y := if c.month <= 2 then c.year - 1 else c.year;
    var mp := if c.month > 2 then c.month - 3 else c.month + 9;
    YearStart(y) + MonthStart(mp) + c.day - 1 - 719468
  }

  lemma FromYearDayInverse(y: int, doy: int)
    requires 0 <= doy < YearLength(y)
    ensures DaysFromCivil(FromYearDay(y, doy)) == YearStart(y) + doy - 719468
  {
    MonthOfDay(doy);
  }

  lemma DateIsYearDay(c: Civil)
    requires IsDate(c)
    ensures var y := if c.month <= 2 then c.year - 1 else c.year;
            var doy := MonthStart(if c.month > 2 then c.month - 3 else c.month + 9) + c.day - 1;
            0 <= doy < YearLength(y) && FromYearDay(y, doy) == c
  {
    MonthStarts();
    var y := if c.month <= 2 then c.year - 1 else c.year;
    var doy := MonthStart(if c.month > 2 then c.month - 3 else c.month + 9) + c.day - 1;
    assert 0 <= doy < YearLength(y);
    MonthOfDay(doy);
  }

  /** The two directions undo each other, on all day numbers and on all calendar dates. */
  lemma CivilRoundTrip(days: int, c: Civil)
    ensures DaysFromCivil(CivilFromDays(days)) == days
    ensures IsDate(c) ==> CivilFromDays(DaysFromCivil(c)) == c
  {
    hide YearStart, FromYearDay, IsDate, DaysFromCivil, CivilFromDays, YearAndDay;
    var (y, doy) := YearAndDay(days);
    YearAndDayExact(days);
    CivilIsYearDay(days);
    FromYearDayInverse(y, doy);
    if IsDate(c) {
      DateRoundTrip(c);
    }
  }

  lemma DateRoundTrip(c: Civil)
    requires IsDate(c)
    ensures CivilFromDays(DaysFromCivil(c)) == c
  {
    hide YearStart, FromYearDay, MonthStart, IsDate, CivilFromDays, YearAndDay;
    DateIsYearDay(c);
    var n := DaysFromCivil(c);
    var (y, doy) := YearAndDay(n);
    YearAndDayExact(n);
    CivilIsYearDay(n);
    var y0 := if c.month <= 2 then c.year - 1 else c.year;
    var doy0 := MonthStart(if c.month > 2 then c.month - 3 else c.month + 9) + c.day - 1;
    YearDayUnique(y0, doy0, y, doy);
  }

  // ---------------------------------------------------------------- order

  predicate Before(a: Civil, b: Civil) {
    a.year < b.year || (a.year == b.year && (a.month < b.month || (a.month == b.month && a.day < b.day)))
  }

  lemma NextIsLater(c: Civil)
    requires IsDate(c)
    ensures Before(c, NextDay(c))
  {
  }

  lemma BeforeTransitive(a: Civil, b: Civil, c: Civil)
    requires Before(a, b) && Before(b, c)
    ensures Before(a, c)
  {
  }

  lemma {:induction false} CivilOrderUp(m: int, n: int)
    requires m < n
    ensures Before(CivilFromDays(m), CivilFromDays(n))
    decreases n - m
  {
    hide CivilFromDays, IsDate, NextDay, Before;
    CivilIsGregorian(n - 1);
    NextIsLater(CivilFromDays(n - 1));
    if m < n - 1 {
      CivilOrderUp(m, n - 1);
      BeforeTransitive(CivilFromDays(m), CivilFromDays(n - 1), CivilFromDays(n));
    }
  }

  /** Dates are ordered as day numbers are. */
  lemma CivilOrder(m: int, n: int)
    ensures Before(CivilFromDays(m), CivilFromDays(n)) <==> m < n
  {
    hide CivilFromDays;
    if m < n {
      CivilOrderUp(m, n);
    } else if n < m {
      CivilOrderUp(n, m);
    }
  }
}
