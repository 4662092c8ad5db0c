/** The month of a report, as the calendar has it. */
module StatsMonth {
  import opened Text
  import opened Stats
  import opened StatsSums
  import opened StatsReport
  import opened Calendar
  import Timestamp

  /** A civil date with a year of four digits. */
  predicate IsDay(c: Civil) {
    IsDate(c) && 0 <= c.year < 10000
  }

  /** A date as it is stored: year, month and day, padded with zeros (`local_date`). */
  function DateText(c: Civil): string
    requires IsDay(c)
  {
    Timestamp.Padded(c.year, 4) + ("-" + (Timestamp.Padded(c.month, 2) + ("-" + Timestamp.Padded(c.day, 2))))
  }

  lemma DateIsFixed(c: Civil)
    requires IsDay(c)
    ensures DateText(c) == Timestamp.Fixed(c.year, 4) + ("-" + (Timestamp.Fixed(c.month, 2) + ("-" + Timestamp.Fixed(c.day, 2))))
  {
    hide Timestamp.Fixed, Timestamp.Padded;
    Timestamp.Powers();
    Timestamp.PaddedIsFixed(c.year, 4);
    Timestamp.PaddedIsFixed(c.month, 2);
    Timestamp.PaddedIsFixed(c.day, 2);
  }

  lemma MonthText(c: Civil)
    requires IsDay(c)
    ensures |DateText(c)| == 10 && Month(DateText(c)) == Timestamp.Fixed(c.year, 4) + ("-" + Timestamp.Fixed(c.month, 2))
  {
    DateIsFixed(c);
    hide Timestamp.Fixed;
    var y, m, d := Timestamp.Fixed(c.year, 4), Timestamp.Fixed(c.month, 2), Timestamp.Fixed(c.day, 2);
    assert y + ("-" + (m + ("-" + d))) == y + ("-" + m) + ("-" + d);
  }

  /** The date of `b` starts with the month of `a` exactly when they are of the same year and month. */
  lemma SameMonth(a: Civil, b: Civil)
    requires IsDay(a) && IsDay(b)
    ensures |DateText(a)| == 10
    ensures Month(DateText(a)) <= DateText(b) <==> a.year == b.year && a.month == b.month
  {
    MonthText(a);
    MonthText(b);
    hide Timestamp.Fixed, DateText;
    assert Month(DateText(a)) <= DateText(b) <==> Month(DateText(a)) == Month(DateText(b));
    Timestamp.Powers();
    Timestamp.FixedOrder(a.year, b.year, 4);
    Timestamp.FixedOrder(a.month, b.month, 2);
    SameParts(Timestamp.Fixed(a.year, 4), Timestamp.Fixed(a.month, 2), Timestamp.Fixed(b.year, 4), Timestamp.Fixed(b.month, 2));
  }

  lemma SameParts(y: string, m: string, y': string, m': string)
    requires |y| == |y'| == 4 && |m| == |m'| == 2
    ensures y + ("-" + m) == y' + ("-" + m') <==> y == y' && m == m'
  {
    var a, b := y + ("-" + m), y' + ("-" + m');
    assert a[..4] == y && b[..4] == y' && a[5..] == m && b[5..] == m';
  }

  /** `d` is the printed date of a day of the year and month of `today`. */
  ghost predicate InSameMonth(d: string, today: Civil) {
    exists b :: IsDay(b) && d == DateText(b) && b.year == today.year && b.month == today.month
  }

  ghost function DaysOfMonth(days: Days, today: Civil): set<string> {
    set d | d in days && InSameMonth(d, today)
  }

  /** The month figure of a report, over printed dates: what is pending and what is stored on exactly
      the days of today's year and month. */
  lemma MonthOfReport(days: Days, flushed: Totals, current: Totals, today: Civil, r: string, k: string)
    requires IsDay(today) && forall d :: d in days ==> exists b :: IsDay(b) && d == DateText(b)
    ensures |DateText(today)| == 10
    ensures Report(days, flushed, current, DateText(today), r, k).month ==
            Plus(Minus(current, flushed), SumSet(DaysOfMonth(days, today), ByDate(days, r, k)))
    ensures Report(days, flushed, current, DateText(today), r, k).today ==
            Plus(Stored(days, DateText(today), r, k), Minus(current, flushed))
    ensures Report(days, flushed, current, DateText(today), r, k).sinceStart == current
  {
    hide DateText, SumSet, Plus, Minus, IsDate;
    MonthText(today);
    forall d | d in days
      ensures Month(DateText(today)) <= d <==> InSameMonth(d, today)
    {
      var b :| IsDay(b) && d == DateText(b);
      SameMonth(today, b);
      forall e | IsDay(e) && d == DateText(e)
        ensures Month(DateText(today)) <= d <==> today.year == e.year && today.month == e.month
      {
        SameMonth(today, e);
      }
    }
    assert InMonth(days.Keys, Month(DateText(today))) == DaysOfMonth(days, today);
  }

  /** Which printed dates are in the month of a report. */
  lemma OtherMonth(a: Civil, b: Civil, dates: set<string>)
    requires IsDay(a) && IsDay(b) && |DateText(a)| == 10
    ensures DateText(b) in InMonth(dates, Month(DateText(a))) <==>
            DateText(b) in dates && a.year == b.year && a.month == b.month
  {
    hide DateText;
    SameMonth(a, b);
  }
}
