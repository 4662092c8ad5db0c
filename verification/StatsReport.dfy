/** Usage reports (`report_on` in src/stats.rs). */
module StatsReport {
  import opened Text
  import opened Stats
  import opened StatsSums
  import opened Counters
  import opened StatsRun
  import Timestamp

  datatype KindReport = KindReport(today: Totals, month: Totals, sinceStart: Totals)

  /** The dates that start with `month`. */
  function InMonth(dates: set<string>, month: string): set<string> {
    set d | d in dates && month <= d
  }

  function Month(today: string): string
    requires |today| >= 7
  {
    today[..7]
  }

  /** What is stored for a route and kind over the days of a month. */
  ghost function MonthSum(days: Days, month: string, r: string, k: string): Totals {
    SumSet(InMonth(days.Keys, month), ByDate(days, r, k))
  }

  /** The report for one cell: `flushed` is what history already holds of the reading `current`. */
  ghost function Report(days: Days, flushed: Totals, current: Totals, today: string, r: string, k: string): KindReport
    requires |today| >= 7
  {
    var pending := Minus(current, flushed);
    KindReport(Plus(Stored(days, today, r, k), pending),
               Plus(pending, MonthSum(days, Month(today), r, k)), current)
  }

  method ReportCell(days: Days, flushed: Totals, current: Totals, today: string, r: string, k: string)
      returns (report: KindReport)
    requires |today| >= 7
    ensures report == Report(days, flushed, current, today, r, k)
  {
    hide SumSet, Stored;
    var pending := Minus(current, flushed);
    var todayTotals := Plus(Stored(days, today, r, k), pending);
    var monthTotals := pending;
    var rest := InMonth(days.Keys, today[..7]);
    ghost var g := ByDate(days, r, k);
    while rest != {}
      invariant Plus(pending, MonthSum(days, today[..7], r, k)) == Plus(monthTotals, SumSet(rest, g))
      decreases rest
    {
      var date :| date in rest;
      SumRemove(rest, g, date);
      PlusSwap(monthTotals, g(date), SumSet(rest - {date}, g));
      monthTotals := Plus(monthTotals, Stored(days, date, r, k));
      rest := rest - {date};
    }
    SumNothing(g);
    PlusZero(monthTotals);
    report := KindReport(todayTotals, monthTotals, current);
  }

  lemma SumNothing(g: string -> Totals)
    ensures SumSet({}, g) == ZERO
  {
  }

  /** The month figure is today's figure plus the stored totals of the month's other days. */
  lemma MonthIsTodayAndOthers(days: Days, flushed: Totals, current: Totals, today: string, r: string, k: string)
    requires |today| >= 7
    ensures var p := Report(days, flushed, current, today, r, k);
            p.month == Plus(p.today, SumSet(InMonth(days.Keys, Month(today)) - {today}, ByDate(days, r, k)))
  {
    hide SumSet, Plus, Minus, Stored;
    var dates, g := InMonth(days.Keys, Month(today)), ByDate(days, r, k);
    var pending := Minus(current, flushed);
    var others := SumSet(dates - {today}, g);
    EmptyToday(days, today, r, k);
    if today in dates {
      SumRemove(dates, g, today);
      PlusSwap(pending, g(today), others);
      PlusSwap(g(today), pending, others);
    } else {
      assert dates - {today} == dates;
      PlusSwap(ZERO, pending, others);
      PlusZero(pending);
    }
  }

  /** A date with nothing stored adds nothing. */
  lemma SumWithEmpty(dates: set<string>, g: string -> Totals, d: string)
    requires d in dates || g(d) == ZERO
    ensures SumSet(dates + {d}, g) == SumSet(dates, g)
  {
    hide SumSet;
    if d in dates {
      assert dates + {d} == dates;
    } else {
      SumRemove(dates + {d}, g, d);
      assert dates + {d} - {d} == dates;
    }
  }

  /** A flush raises the month's sum by the delta. */
  lemma MonthAdded(days: Days, routes: seq<string>, flushed: seq<Totals>, current: seq<Totals>, today: string, c: nat)
    requires Distinct(routes) && |flushed| == |current| == CellCount(routes) && c < |current| && |today| >= 7
    ensures var r, k := RouteAt(routes, c), KindAt(c);
            var grown := Added(days, routes, flushed, current, today, |current|);
            MonthSum(grown, Month(today), r, k) == Plus(MonthSum(days, Month(today), r, k), Delta(flushed, current, c))
  {
    hide Added, Delta, RouteAt, KindAt, SumSet, Distinct, AnyDelta, Plus;
    var r, k := RouteAt(routes, c), KindAt(c);
    var grown := Added(days, routes, flushed, current, today, |current|);
    var delta := Delta(flushed, current, c);
    AddedKeys(days, routes, flushed, current, today, |current|);
    forall e
      ensures ByDate(grown, r, k)(e) == if e == today then Plus(ByDate(days, r, k)(e), delta) else ByDate(days, r, k)(e)
    {
      AddedStored(days, routes, flushed, current, today, |current|, e, c);
    }
    hide Stored;
    var dates, more := InMonth(days.Keys, Month(today)), InMonth(grown.Keys, Month(today));
    if today in grown {
      assert more == dates + {today};
      SumRaise(more, ByDate(days, r, k), ByDate(grown, r, k), today, delta);
      EmptyToday(days, today, r, k);
      SumWithEmpty(dates, ByDate(days, r, k), today);
    } else {
      NeverAfter(days, routes, flushed, current, today, c);
      assert more == dates;
      PlusZero(ByDate(days, r, k)(today));
      PlusZero(MonthSum(days, Month(today), r, k));
      SumSame(dates, ByDate(days, r, k), ByDate(grown, r, k));
    }
  }

  lemma EmptyToday(days: Days, today: string, r: string, k: string)
    requires |today| >= 7
    ensures today in InMonth(days.Keys, Month(today)) || ByDate(days, r, k)(today) == ZERO
  {
  }

  // ---------------------------------------------------------------- reports in runs

  lemma ReadingBelow(a: seq<nat>, b: seq<nat>, cells: nat, c: nat, base: Totals)
    requires |a| == |b| == VALUES * cells && Below(a, b) && c < cells
    ensures AtMost(Readings(a, cells)[c], Readings(b, cells)[c])
    ensures AtMost(Minus(Readings(a, cells)[c], base), Minus(Readings(b, cells)[c], base))
  {
    ReadingsExact(a, b, cells, c);
    hide Readings;
  }

  /** A report of any run, taken value by value while increments go on: the subtraction of what is
      flushed never clips, what it shows as pending is at most what is pending when it ends, and the
      reading is at most what the counters show then. */
  lemma ReportInRun(run: seq<State>, steps: seq<Step>, n: nat, c: nat)
    requires IsRun(run, steps) && n < |steps| && steps[n] == Show
    ensures WellShaped(run[n]) && run[n].phase.Reporting? && |run[n].phase.read| == |run[n].values|
    ensures c < CellCount(run[n].routes) ==>
              var s, cells := run[n], CellCount(run[n].routes);
              var current := Readings(s.phase.read, cells)[c];
              var pending := Minus(current, s.memory.reading[c]);
              && Plus(s.memory.reading[c], pending) == current
              && AtMost(current, Readings(s.values, cells)[c]) && AtMost(pending, Pending(s, c))
  {
    RunKeeps(run, steps, n);
    assert Follows(run[n], steps[n], run[n + 1]);
    var s, cells := run[n], CellCount(run[n].routes);
    if c < cells {
      ReadIsLater(s);
      ReadingBelow(s.phase.read, s.values, cells, c, s.memory.reading[c]);
      hide Readings, GoodBook;
    }
  }

  // ---------------------------------------------------------------- which dates are evicted

  function LaterThan(dates: set<string>, d: string): set<string> {
    set e | e in dates && Less(d, e)
  }

  /** At least `KEEP_DAYS` of `dates` are later than `d`. */
  predicate TooOld(dates: set<string>, d: string) {
    |LaterThan(dates, d)| >= KEEP_DAYS
  }

  lemma EvictFew(days: Days)
    ensures |days| <= KEEP_DAYS ==> Evict(days) == days
  {
  }

  /** A date is evicted exactly when it is below the `KEEP_DAYS` greatest. */
  lemma EvictedExact(days: Days, d: string)
    requires d in days
    ensures d !in Evict(days) <==> TooOld(days.Keys, d)
  {
    EvictKeepsGreatest(days);
    EvictFew(days);
    hide Evict, Less;
    var kept, later := Evict(days).Keys, LaterThan(days.Keys, d);
    KeysCount(days);
    KeysCount(Evict(days));
    LessIrreflexive(d);
    if d !in kept {
      SubsetCount(kept, later);
    } else {
      forall e | e in later
        ensures e in kept - {d}
      {
        if e !in kept {
          LessTransitive(d, e, d);
        }
      }
      SubsetCount(later, kept - {d});
    }
  }

  ghost predicate AllNothing(dates: set<string>, g: string -> Totals) {
    forall d :: d in dates ==> g(d) == ZERO
  }

  lemma AllNothingRemove(dates: set<string>, g: string -> Totals, d: string)
    requires d in dates
    ensures AllNothing(dates, g) <==> g(d) == ZERO && AllNothing(dates - {d}, g)
  {
    hide ZERO;
  }

  /** A sum is nothing exactly when every summand is. */
  lemma {:induction false} SumIsNothing(dates: set<string>, g: string -> Totals)
    ensures SumSet(dates, g) == ZERO <==> AllNothing(dates, g)
    decreases |dates|
  {
    hide SumSet, Plus;
    if dates == {} {
      SumNothing(g);
    } else {
      var d :| d in dates;
      SumRemove(dates, g, d);
      SumIsNothing(dates - {d}, g);
      SumIsZero(g(d), SumSet(dates - {d}, g));
      AllNothingRemove(dates, g, d);
      hide AllNothing, ZERO;
    }
  }

  /** The dates of `month` that a flush would evict from `grown`. */
  function Evicted(grown: Days, month: string): set<string> {
    set d | d in InMonth(grown.Keys, month) && TooOld(grown.Keys, d)
  }

  /** The stored sum of a month is what is kept of it and what is evicted of it. */
  lemma MonthSplits(grown: Days, month: string, r: string, k: string)
    ensures MonthSum(grown, month, r, k) ==
            Plus(MonthSum(Evict(grown), month, r, k), SumSet(Evicted(grown, month), ByDate(grown, r, k)))
  {
    EvictKeepsGreatest(grown);
    var kept := Evict(grown);
    hide Evict, SumSet, Evicted, Plus;
    var all, part := InMonth(grown.Keys, month), InMonth(kept.Keys, month);
    EvictedOfMonth(grown, month);
    SumSplit(all, part, ByDate(grown, r, k));
    SumSame(part, ByDate(grown, r, k), ByDate(kept, r, k));
  }

  lemma EvictedOfMonth(grown: Days, month: string)
    ensures InMonth(Evict(grown).Keys, month) <= InMonth(grown.Keys, month)
    ensures InMonth(grown.Keys, month) - InMonth(Evict(grown).Keys, month) == Evicted(grown, month)
  {
    EvictKeepsGreatest(grown);
    forall d | d in grown
      ensures d !in Evict(grown) <==> TooOld(grown.Keys, d)
    {
      EvictedExact(grown, d);
    }
    hide Evict, TooOld;
  }

  lemma TodayKept(grown: Days, today: string, r: string, k: string)
    requires |today| >= 7
    ensures Stored(Evict(grown), today, r, k) ==
            if today in Evicted(grown, Month(today)) then ZERO else Stored(grown, today, r, k)
  {
    EvictKeepsGreatest(grown);
    if today in grown {
      EvictedExact(grown, today);
    }
    hide Evict, TooOld;
  }

  // ---------------------------------------------------------------- flushes and reports

  /** The dates of the history after a flush and before eviction. */
  function DatesAfter(days: Days, flushed: seq<Totals>, current: seq<Totals>, today: string): set<string>
    requires |flushed| == |current|
  {
    days.Keys + (if AnyDelta(flushed, current, |current|) then {today} else {})
  }

  /** Every date of today's month with 400 later dates has nothing stored or pending for the cell. */
  ghost predicate NothingDropped(days: Days, flushed: seq<Totals>, current: seq<Totals>, today: string,
                                 c: nat, r: string, k: string)
    requires |flushed| == |current| && c < |current| && |today| >= 7
  {
    var dates := DatesAfter(days, flushed, current, today);
    forall d :: d in InMonth(dates, Month(today)) && TooOld(dates, d) ==>
                  Stored(days, d, r, k) == ZERO && (d == today ==> Delta(flushed, current, c) == ZERO)
  }

  lemma NothingDroppedIs(days: Days, routes: seq<string>, flushed: seq<Totals>, current: seq<Totals>, today: string, c: nat)
    requires Distinct(routes) && |flushed| == |current| == CellCount(routes) && c < |current| && |today| >= 7
    ensures var r, k := RouteAt(routes, c), KindAt(c);
            var grown := Added(days, routes, flushed, current, today, |current|);
            NothingDropped(days, flushed, current, today, c, r, k) <==>
            SumSet(Evicted(grown, Month(today)), ByDate(grown, r, k)) == ZERO
  {
    hide Added, Delta, RouteAt, KindAt, SumSet, Distinct, AnyDelta, TooOld, Plus, Stored;
    var r, k := RouteAt(routes, c), KindAt(c);
    var grown := Added(days, routes, flushed, current, today, |current|);
    AddedKeys(days, routes, flushed, current, today, |current|);
    SumIsNothing(Evicted(grown, Month(today)), ByDate(grown, r, k));
    forall d
      ensures Stored(grown, d, r, k) == ZERO <==>
              Stored(days, d, r, k) == ZERO && (d == today ==> Delta(flushed, current, c) == ZERO)
    {
      AddedStored(days, routes, flushed, current, today, |current|, d, c);
      SumIsZero(Stored(days, d, r, k), Delta(flushed, current, c));
    }
    assert grown.Keys == DatesAfter(days, flushed, current, today);
    hide Evicted, InMonth;
    assert forall d :: d in Evicted(grown, Month(today)) <==>
                       d in InMonth(grown.Keys, Month(today)) && TooOld(grown.Keys, d) by {
      EvictedIs(grown, Month(today));
    }
  }

  lemma EvictedIs(grown: Days, month: string)
    ensures forall d :: d in Evicted(grown, month) <==> d in InMonth(grown.Keys, month) && TooOld(grown.Keys, d)
  {
    hide TooOld, InMonth;
  }

  /** What a flush with no traffic in between does to a report: it is unchanged if and only if every
      date of today's month that has 400 later dates, among the stored ones and today, holds nothing
      for the cell. */
  lemma FlushInvisible(days: Days, routes: seq<string>, flushed: seq<Totals>, current: seq<Totals>,
                       today: string, c: nat)
    requires Distinct(routes) && |flushed| == |current| == CellCount(routes) && c < |current| && |today| >= 7
    ensures var r, k := RouteAt(routes, c), KindAt(c);
            var after := Evict(Added(days, routes, flushed, current, today, |current|));
            Report(after, current[c], current[c], today, r, k) == Report(days, flushed[c], current[c], today, r, k)
            <==> NothingDropped(days, flushed, current, today, c, r, k)
  {
    var r, k := RouteAt(routes, c), KindAt(c);
    var grown := Added(days, routes, flushed, current, today, |current|);
    hide Added, Evict, RouteAt, KindAt, MonthSum, Stored, Distinct, NothingDropped, Evicted, SumSet;
    NothingDroppedIs(days, routes, flushed, current, today, c);
    SumIsNothing(Evicted(grown, Month(today)), ByDate(grown, r, k));
    MonthSplits(grown, Month(today), r, k);
    TodayKept(grown, today, r, k);
    MonthAdded(days, routes, flushed, current, today, c);
    AddedStored(days, routes, flushed, current, today, |current|, today, c);
    ReportsAgree(Stored(days, today, r, k), MonthSum(days, Month(today), r, k), flushed[c], current[c],
                 Stored(Evict(grown), today, r, k), MonthSum(Evict(grown), Month(today), r, k),
                 SumSet(Evicted(grown, Month(today)), ByDate(grown, r, k)));
  }

  /** The arithmetic of a flush: `dropped` is what the month lost. */
  lemma ReportsAgree(was: Totals, month: Totals, flushed: Totals, current: Totals,
                     now: Totals, monthNow: Totals, dropped: Totals)
    requires Plus(month, Minus(current, flushed)) == Plus(monthNow, dropped)
    requires dropped == ZERO ==> now == Plus(was, Minus(current, flushed))
    ensures && Plus(now, Minus(current, current)) == Plus(was, Minus(current, flushed))
            && Plus(Minus(current, current), monthNow) == Plus(Minus(current, flushed), month)
            <==> dropped == ZERO
  {
    var pending := Minus(current, flushed);
    hide Minus;
    NothingPending(current);
    PlusZero(now);
    PlusSwap(pending, month, ZERO);
    SumsSame(monthNow, dropped);
    PlusSwap(ZERO, monthNow, ZERO);
    PlusZero(monthNow);
    hide Plus;
  }

  lemma SumsSame(a: Totals, b: Totals)
    ensures Plus(a, b) == a <==> b == ZERO
  {
    var sum := Plus(a, b);
    assert sum.requests == a.requests + b.requests && sum.bytesOut == a.bytesOut + b.bytesOut
           && sum.bytesIn == a.bytesIn + b.bytesIn;
    hide Plus;
    ZeroFields(b);
  }

  lemma NothingPending(t: Totals)
    ensures Minus(t, t) == ZERO
  {
  }

  // ---------------------------------------------------------------- a clock set back

  /** With 400 stored dates later than today, a flush throws away what it records: today's figure,
      which showed the pending traffic, drops to nothing. */
  lemma ClockSetBack(days: Days, routes: seq<string>, flushed: seq<Totals>, current: seq<Totals>, today: string, c: nat)
    requires Distinct(routes) && |flushed| == |current| == CellCount(routes) && c < |current| && |today| >= 7
    requires Delta(flushed, current, c) != ZERO && TooOld(days.Keys, today)
    ensures var r, k := RouteAt(routes, c), KindAt(c);
            var after := Evict(Added(days, routes, flushed, current, today, |current|));
            && Report(days, flushed[c], current[c], today, r, k).today != ZERO
            && Report(after, current[c], current[c], today, r, k).today == ZERO
  {
    var r, k := RouteAt(routes, c), KindAt(c);
    var grown := Added(days, routes, flushed, current, today, |current|);
    hide Added, Evict, RouteAt, KindAt, Report, Stored, Distinct, Plus, Minus, TooOld, Evicted, ZERO;
    TodayEvicted(days, routes, flushed, current, today, c);
    TodayKept(grown, today, r, k);
    TodayIs(days, flushed[c], current[c], today, r, k);
    TodayIs(Evict(grown), current[c], current[c], today, r, k);
    SumIsZero(Stored(days, today, r, k), Delta(flushed, current, c));
    SumIsZero(Stored(Evict(grown), today, r, k), Minus(current[c], current[c]));
    NothingPending(current[c]);
  }

  lemma TodayIs(days: Days, flushed: Totals, current: Totals, today: string, r: string, k: string)
    requires |today| >= 7
    ensures Report(days, flushed, current, today, r, k).today == Plus(Stored(days, today, r, k), Minus(current, flushed))
  {
    hide Plus, Minus, Stored, MonthSum;
  }

  lemma TodayEvicted(days: Days, routes: seq<string>, flushed: seq<Totals>, current: seq<Totals>, today: string, c: nat)
    requires |flushed| == |current| == CellCount(routes) && c < |current| && |today| >= 7
    requires Delta(flushed, current, c) != ZERO && TooOld(days.Keys, today)
    ensures today in Evicted(Added(days, routes, flushed, current, today, |current|), Month(today))
  {
    hide Added, Delta;
    var grown := Added(days, routes, flushed, current, today, |current|);
    AddedKeys(days, routes, flushed, current, today, |current|);
    assert AnyDelta(flushed, current, |current|);
    hide AnyDelta, Less;
    SubsetCount(LaterThan(days.Keys, today), LaterThan(grown.Keys, today));
  }

  function NewYear(y: nat): string {
    Timestamp.Fixed(y, 4) + "-01-01"
  }

  /** The first of January of `n` years from 2030 on. */
  function NewYears(n: nat): Days {
    if n == 0 then map[] else NewYears(n - 1)[NewYear(2029 + n) := map[]]
  }

  lemma NewYearOrder(y: nat, z: nat, rest: string)
    requires y < z < 10000
    ensures Less(Timestamp.Fixed(y, 4) + rest, NewYear(z))
  {
    Timestamp.Powers();
    Timestamp.FixedOrder(y, z, 4);
    LessConcat(Timestamp.Fixed(y, 4), rest, Timestamp.Fixed(z, 4), "-01-01");
  }

  /** `d` lies between `today` and the first of January of `y`. */
  predicate Between(today: string, d: string, y: nat) {
    Less(today, d) && Less(d, NewYear(y))
  }

  lemma {:induction false} NewYearsCount(n: nat, today: string)
    requires n <= 1000 && forall y :: 2030 <= y < 10000 ==> Less(today, NewYear(y))
    ensures |NewYears(n)| == n
    ensures forall d :: d in NewYears(n) ==> Between(today, d, 2030 + n)
  {
    hide NewYear, Less;
    if n > 0 {
      NewYearsCount(n - 1, today);
      var before, newest := NewYears(n - 1), NewYear(2029 + n);
      NewYearFollows(2029 + n);
      LessIrreflexive(newest);
      forall d | d in before
        ensures Between(today, d, 2030 + n) && d != newest
      {
        assert Between(today, d, 2029 + n);
        LessTransitive(d, newest, NewYear(2030 + n));
      }
      hide Between;
      assert NewYears(n).Keys == before.Keys + {newest};
      KeysCount(NewYears(n));
      KeysCount(before);
    }
  }

  lemma NewYearFollows(y: nat)
    requires y + 1 < 10000
    ensures Less(NewYear(y), NewYear(y + 1))
  {
    NewYearOrder(y, y + 1, "-01-01");
  }

  /** Such a history: 400 New Year's days from 2030 on, and any day of 2024 as today. */
  lemma ReportDrops(amount: nat, rest: string)
    requires amount > 0 && |rest| >= 3
    ensures var days, today := NewYears(KEEP_DAYS), Timestamp.Fixed(2024, 4) + rest;
            var flushed, current := [ZERO, ZERO, ZERO], [Totals(amount, 0, 0), ZERO, ZERO];
            var after := Evict(Added(days, ["route"], flushed, current, today, 3));
            && Report(days, flushed[0], current[0], today, "route", KindAt(0)).today != ZERO
            && Report(after, current[0], current[0], today, "route", KindAt(0)).today == ZERO
  {
    var days, today := NewYears(KEEP_DAYS), Timestamp.Fixed(2024, 4) + rest;
    var flushed, current := [ZERO, ZERO, ZERO], [Totals(amount, 0, 0), ZERO, ZERO];
    assert Delta(flushed, current, 0).requests == amount;
    assert RouteAt(["route"], 0) == "route";
    forall y | 2030 <= y < 10000
      ensures Less(today, NewYear(y))
    {
      NewYearOrder(2024, y, rest);
    }
    NewYearsCount(KEEP_DAYS, today);
    assert forall d :: d in days ==> Between(today, d, 2030 + KEEP_DAYS);
    hide NewYears, Timestamp.Fixed, Less, Added, Evict, Report, KindAt, RouteAt, Delta;
    assert LaterThan(days.Keys, today) == days.Keys;
    KeysCount(days);
    ClockSetBack(days, ["route"], flushed, current, today, 0);
  }
}
