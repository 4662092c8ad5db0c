/** Sums over stored days, and what eviction keeps. */
module StatsSums {
  import opened Text
  import opened Stats

  /** The sum of `g` over a set of dates. */
  ghost function SumSet(dates: set<string>, g: string -> Totals): Totals
    decreases |dates|
  {
    if dates == {} then ZERO
    else
      var d :| d in dates;
      Plus(g(d), SumSet(dates - {d}, g))
  }

  /** The sum may be taken starting with any date. */
  lemma {:induction false} SumRemove(dates: set<string>, g: string -> Totals, d: string)
    requires d in dates
    ensures SumSet(dates, g) == Plus(g(d), SumSet(dates - {d}, g))
    decreases |dates|
  {
    var e :| e in dates && SumSet(dates, g) == Plus(g(e), SumSet(dates - {e}, g));
    if e != d {
      hide SumSet;
      SumRemove(dates - {e}, g, d);
      SumRemove(dates - {d}, g, e);
      assert dates - {e} - {d} == dates - {d} - {e};
      PlusSwap(g(e), g(d), SumSet(dates - {e} - {d}, g));
    }
  }

  lemma PlusSwap(a: Totals, b: Totals, c: Totals)
    ensures Plus(a, Plus(b, c)) == Plus(b, Plus(a, c))
    ensures Plus(a, Plus(b, c)) == Plus(Plus(a, b), c)
    ensures Plus(a, b) == Plus(b, a)
  {
  }

  lemma SumIsZero(a: Totals, b: Totals)
    ensures Plus(a, b) == ZERO <==> a == ZERO && b == ZERO
  {
    var sum := Plus(a, b);
    assert sum.requests == a.requests + b.requests && sum.bytesOut == a.bytesOut + b.bytesOut
           && sum.bytesIn == a.bytesIn + b.bytesIn;
    hide Plus;
    ZeroFields(a);
    ZeroFields(b);
    ZeroFields(sum);
  }

  lemma ZeroFields(t: Totals)
    ensures t == ZERO <==> t.requests == 0 && t.bytesOut == 0 && t.bytesIn == 0
  {
  }

  lemma {:induction false} SumSame(dates: set<string>, g: string -> Totals, h: string -> Totals)
    requires forall d :: d in dates ==> g(d) == h(d)
    ensures SumSet(dates, g) == SumSet(dates, h)
    decreases |dates|
  {
    if dates != {} {
      var d :| d in dates;
      SumRemove(dates, g, d);
      SumRemove(dates, h, d);
      SumSame(dates - {d}, g, h);
    }
  }

  /** Raising one summand raises the sum by as much. */
  lemma SumRaise(dates: set<string>, g: string -> Totals, h: string -> Totals, d: string, delta: Totals)
    requires d in dates && h(d) == Plus(g(d), delta) && forall e :: e in dates && e != d ==> g(e) == h(e)
    ensures SumSet(dates, h) == Plus(SumSet(dates, g), delta)
  {
    hide SumSet;
    SumRemove(dates, g, d);
    SumRemove(dates, h, d);
    SumSame(dates - {d}, g, h);
  }

  lemma SplitStep(dates: set<string>, part: set<string>, d: string)
    requires part <= dates && d in part
    ensures part - {d} <= dates - {d} && dates - {d} - (part - {d}) == dates - part
  {
  }

  /** A sum splits over any part of the dates. */
  lemma {:induction false} SumSplit(dates: set<string>, part: set<string>, g: string -> Totals)
    requires part <= dates
    ensures SumSet(dates, g) == Plus(SumSet(part, g), SumSet(dates - part, g))
    decreases |part|
  {
    if part == {} {
      assert dates - part == dates;
      PlusZero(SumSet(dates, g));
    } else {
      var d :| d in part;
      SplitStep(dates, part, d);
      SumRemove(dates, g, d);
      SumRemove(part, g, d);
      SumSplit(dates - {d}, part - {d}, g);
      PlusSwap(g(d), SumSet(part - {d}, g), SumSet(dates - part, g));
      hide SumSet, Plus;
    }
  }

  /** What is stored for a route and kind, by date. */
  function ByDate(days: Days, r: string, k: string): string -> Totals {
    d => Stored(days, d, r, k)
  }

  /** The total stored for a route and kind over all days. */
  ghost function SumDays(days: Days, r: string, k: string): Totals {
    SumSet(days.Keys, ByDate(days, r, k))
  }

  /** Dates with nothing stored add nothing. */
  lemma SumWider(days: Days, r: string, k: string, d: string)
    ensures SumSet(days.Keys + {d}, ByDate(days, r, k)) == SumDays(days, r, k)
  {
    hide SumSet;
    if d in days {
      assert days.Keys + {d} == days.Keys;
    } else {
      SumRemove(days.Keys + {d}, ByDate(days, r, k), d);
      assert days.Keys + {d} - {d} == days.Keys;
      PlusSwap(ZERO, SumDays(days, r, k), ZERO);
      PlusZero(SumDays(days, r, k));
    }
  }

  /** Recording raises the sum of its entry by the delta. */
  lemma SumRecord(days: Days, date: string, route: string, kind: string, delta: Totals, r: string, k: string)
    ensures SumDays(Record(days, date, route, kind, delta), r, k) ==
            Plus(SumDays(days, r, k), if r == route && k == kind then delta else ZERO)
  {
    hide SumSet, Record, Stored, Plus;
    var more := Record(days, date, route, kind, delta);
    var d := if r == route && k == kind then delta else ZERO;
    forall e
      ensures Stored(more, e, r, k) == if e == date then Plus(Stored(days, e, r, k), d) else Stored(days, e, r, k)
    {
      RecordStored(days, date, route, kind, delta, e, r, k);
      PlusZero(Stored(days, e, r, k));
    }
    RecordStored(days, date, route, kind, delta, date, r, k);
    SumRaise(more.Keys, ByDate(days, r, k), ByDate(more, r, k), date, d);
    SumWider(days, r, k, date);
  }

  lemma SameDay(a: Days, b: Days, d: string, r: string, k: string)
    requires d in a && d in b && a[d] == b[d]
    ensures Stored(a, d, r, k) == Stored(b, d, r, k)
  {
  }

  /** Flushing raises the sum of each cell by that cell's delta. */
  lemma {:induction false} SumAdded(days: Days, routes: seq<string>, flushed: seq<Totals>, current: seq<Totals>,
                                    today: string, n: nat, c: nat)
    requires Distinct(routes) && |flushed| == |current| == 3 * |routes| && n <= |current| && c < |current|
    ensures var r, k := RouteAt(routes, c), KindAt(c);
            SumDays(Added(days, routes, flushed, current, today, n), r, k) ==
            Plus(SumDays(days, r, k), if c < n then Delta(flushed, current, c) else ZERO)
  {
    hide Record, Stored, SumDays, RouteAt, KindAt, Plus, Minus, Distinct;
    var r, k := RouteAt(routes, c), KindAt(c);
    PlusZero(SumDays(days, r, k));
    if n > 0 {
      var prev := Added(days, routes, flushed, current, today, n - 1);
      var delta := Delta(flushed, current, n - 1);
      SumAdded(days, routes, flushed, current, today, n - 1, c);
      if delta != ZERO {
        SumRecord(prev, today, RouteAt(routes, n - 1), KindAt(n - 1), delta, r, k);
        if c != n - 1 {
          CellsDistinct(routes, c, n - 1);
          PlusZero(SumDays(prev, r, k));
        }
      }
    }
  }

  // ---------------------------------------------------------------- eviction

  /** `kept` are the greatest of `ever`: every other date is smaller than each of them. */
  ghost predicate Greatest(ever: set<string>, kept: set<string>) {
    kept <= ever && forall d, e :: d in ever && d !in kept && e in kept ==> Less(d, e)
  }

  /** Eviction keeps the 400 greatest dates, untouched. */
  lemma {:induction false} EvictKeepsGreatest(days: Days)
    ensures Greatest(days.Keys, Evict(days).Keys)
    ensures |Evict(days)| == if |days| <= 400 then |days| else 400
    ensures forall d :: d in Evict(days) ==> Evict(days)[d] == days[d]
    decreases |days|
  {
    if |days| > KEEP_DAYS {
      KeysCount(days);
      var o := Oldest(days.Keys);
      DropOne(days, o);
      var rest := days - {o};
      EvictKeepsGreatest(rest);
      assert Evict(days) == Evict(rest);
      forall d, e | d in days.Keys && d !in Evict(days).Keys && e in Evict(days).Keys
        ensures Less(d, e)
      {
        assert e in rest.Keys;
      }
    }
  }
}
