/** Traffic statistics (src/stats.rs): counters turned into per-day totals. */
module Stats {
  import opened Text

  const KEEP_DAYS: nat := 400
  const SHARDS: nat := 16

  // ---------------------------------------------------------------- totals

  datatype Totals = Totals(requests: nat, bytesOut: nat, bytesIn: nat)

  const ZERO: Totals := Totals(0, 0, 0)

  function Plus(a: Totals, b: Totals): Totals {
    Totals(a.requests + b.requests, a.bytesOut + b.bytesOut, a.bytesIn + b.bytesIn)
  }

  function SaturatingSub(a: nat, b: nat): nat {
    if a < b then 0 else a - b
  }

  function Minus(a: Totals, b: Totals): Totals {
    Totals(SaturatingSub(a.requests, b.requests), SaturatingSub(a.bytesOut, b.bytesOut),
           SaturatingSub(a.bytesIn, b.bytesIn))
  }

  lemma PlusZero(a: Totals)
    ensures Plus(a, ZERO) == a
  {
  }

  predicate AtMost(a: Totals, b: Totals) {
    a.requests <= b.requests && a.bytesOut <= b.bytesOut && a.bytesIn <= b.bytesIn
  }

  // ---------------------------------------------------------------- days

  /** Totals by date, then by route, then by kind. */
  type Days = map<string, map<string, map<string, Totals>>>

  /** The totals stored for a date, route and kind; nothing stored counts as zero. */
  function Stored(days: Days, date: string, route: string, kind: string): Totals {
    if date in days && route in days[date] && kind in days[date][route] then days[date][route][kind] else ZERO
  }

  /** The days after `delta` is added to one entry, creating it when missing. */
  function Record(days: Days, date: string, route: string, kind: string, delta: Totals): Days {
    var day := if date in days then days[date] else map[];
    var kinds := if route in day then day[route] else map[];
    var was := if kind in kinds then kinds[kind] else ZERO;
    days[date := day[route := kinds[kind := Plus(was, delta)]]]
  }

  lemma RecordStored(days: Days, date: string, route: string, kind: string, delta: Totals,
                     d: string, r: string, k: string)
    ensures Stored(Record(days, date, route, kind, delta), d, r, k) ==
            if d == date && r == route && k == kind then Plus(Stored(days, d, r, k), delta) else Stored(days, d, r, k)
    ensures Record(days, date, route, kind, delta).Keys == days.Keys + {date}
  {
  }

  /** `o` is the least date of `dates`, the one a sorted map yields first. */
  ghost predicate IsOldest(dates: set<string>, o: string) {
    o in dates && forall e :: e in dates ==> e == o || Less(o, e)
  }

  lemma {:induction false} OldestExists(dates: set<string>) returns (o: string)
    requires dates != {}
    ensures IsOldest(dates, o)
    decreases |dates|
  {
    o :| o in dates;
    if dates != {o} {
      var p := OldestExists(dates - {o});
      LessTotal(o, p);
      forall e | e in dates
        ensures e == o || e == p || Less(p, e)
      {
      }
      if Less(o, p) {
        forall e | e in dates && e != o
          ensures Less(o, e)
        {
          if e != p {
            LessTransitive(o, p, e);
          }
        }
      } else {
        o := p;
      }
    }
  }

  lemma HasOldest(dates: set<string>)
    requires dates != {}
    ensures exists o :: IsOldest(dates, o)
  {
    var o := OldestExists(dates);
  }

  lemma OldestUnique(dates: set<string>, a: string, b: string)
    requires IsOldest(dates, a) && IsOldest(dates, b)
    ensures a == b
  {
    if a != b {
      LessTransitive(a, b, a);
      LessIrreflexive(a);
    }
  }

  ghost function Oldest(dates: set<string>): (o: string)
    requires dates != {}
    ensures IsOldest(dates, o)
  {
    HasOldest(dates);
    var p :| IsOldest(dates, p);
    p
  }

  /** Days dropped oldest first until at most `KEEP_DAYS` are left. */
  ghost function Evict(days: Days): Days
    decreases |days|
  {
    if |days| <= KEEP_DAYS then days
    else
      KeysCount(days);
      var o := Oldest(days.Keys);
      DropOne(days, o);
      Evict(days - {o})
  }

  lemma KeysCount(days: Days)
    ensures |days.Keys| == |days|
  {
  }

  lemma DropOne(days: Days, o: string)
    requires o in days
    ensures |days - {o}| == |days| - 1 && (days - {o}).Keys == days.Keys - {o}
  {
    var rest := days - {o};
    assert rest.Keys == days.Keys - {o};
    assert |rest| == |rest.Keys| && |days| == |days.Keys|;
  }

  // ---------------------------------------------------------------- cells

  /** Cell `c` is route `c / 3` and kind `c % 3`; `current` and `flushed` hold one entry a cell. */
  function KindName(k: nat): string
    requires k < 3
  {
    if k == 0 then "api" else if k == 1 then "media" else "image"
  }

  function RouteAt(routes: seq<string>, c: nat): string
    requires c < 3 * |routes|
  {
    routes[c / 3]
  }

  function KindAt(c: nat): string {
    KindName(c % 3)
  }

  predicate Distinct(routes: seq<string>) {
    forall i, j :: 0 <= i < j < |routes| ==> routes[i] != routes[j]
  }

  lemma CellsDistinct(routes: seq<string>, a: nat, b: nat)
    requires Distinct(routes) && a < 3 * |routes| && b < 3 * |routes| && a != b
    ensures RouteAt(routes, a) != RouteAt(routes, b) || KindAt(a) != KindAt(b)
  {
    if a / 3 == b / 3 {
      assert a % 3 != b % 3;
    }
  }

  function Delta(flushed: seq<Totals>, current: seq<Totals>, c: nat): Totals
    requires c < |flushed| && c < |current|
  {
    Minus(current[c], flushed[c])
  }

  /** The days after the first `n` cells have been flushed. */
  function Added(days: Days, routes: seq<string>, flushed: seq<Totals>, current: seq<Totals>, today: string, n: nat): Days
    requires |flushed| == |current| == 3 * |routes| && n <= |current|
  {
    if n == 0 then days
    else
      var prev := Added(days, routes, flushed, current, today, n - 1);
      var delta := Delta(flushed, current, n - 1);
      if delta == ZERO then prev
      else Record(prev, today, RouteAt(routes, n - 1), KindAt(n - 1), delta)
  }

  /** Some cell among the first `n` has something to flush. */
  predicate AnyDelta(flushed: seq<Totals>, current: seq<Totals>, n: nat)
    requires n <= |flushed| && n <= |current|
  {
    exists c :: 0 <= c < n && Delta(flushed, current, c) != ZERO
  }

  lemma {:induction false} AddedKeys(days: Days, routes: seq<string>, flushed: seq<Totals>, current: seq<Totals>,
                                     today: string, n: nat)
    requires |flushed| == |current| == 3 * |routes| && n <= |current|
    ensures Added(days, routes, flushed, current, today, n).Keys ==
            days.Keys + (if AnyDelta(flushed, current, n) then {today} else {})
  {
    if n > 0 {
      AddedKeys(days, routes, flushed, current, today, n - 1);
      assert AnyDelta(flushed, current, n) <==>
             AnyDelta(flushed, current, n - 1) || Delta(flushed, current, n - 1) != ZERO;
    }
  }

  /** Flushing adds each cell's delta to today's entry and changes nothing else. */
  lemma {:induction false} AddedStored(days: Days, routes: seq<string>, flushed: seq<Totals>, current: seq<Totals>,
                                       today: string, n: nat, d: string, c: nat)
    requires Distinct(routes) && |flushed| == |current| == 3 * |routes| && n <= |current| && c < |current|
    ensures var r, k := RouteAt(routes, c), KindAt(c);
            Stored(Added(days, routes, flushed, current, today, n), d, r, k) ==
            if d == today && c < n then Plus(Stored(days, d, r, k), Delta(flushed, current, c))
            else Stored(days, d, r, k)
  {
    hide Record, Stored, RouteAt, KindAt, Plus, Minus, Distinct;
    var r, k := RouteAt(routes, c), KindAt(c);
    if n > 0 {
      PlusZero(Stored(days, d, r, k));
      var prev := Added(days, routes, flushed, current, today, n - 1);
      AddedStored(days, routes, flushed, current, today, n - 1, d, c);
      RecordStored(prev, today, RouteAt(routes, n - 1), KindAt(n - 1), Delta(flushed, current, n - 1), d, r, k);
      if c != n - 1 {
        CellsDistinct(routes, c, n - 1);
      }
    }
  }

  /** The flushed readings after the first `n` cells have been replaced. */
  function Partly(current: seq<Totals>, flushed: seq<Totals>, n: nat): seq<Totals>
    requires n <= |current| == |flushed|
  {
    current[..n] + flushed[n..]
  }

  // ---------------------------------------------------------------- the statistics object

  class History {
    const routes: seq<string>
    var days: Days
    var flushed: seq<Totals>

    ghost predicate Valid()
      reads this
    {
      Distinct(routes) && |flushed| == 3 * |routes|
    }

    /** `Stats::open`: the days of the file, and nothing flushed yet. */
    constructor (routes: seq<string>, days: Days)
      requires Distinct(routes)
      ensures Valid() && this.routes == routes && this.days == days
      ensures flushed == seq(3 * |routes|, _ => ZERO)
    {
      this.routes, this.days := routes, days;
      this.flushed := seq(3 * |routes|, _ => ZERO);
    }

    /** Adds what the counters gained since the last flush to today's totals, and drops old days.
        `current` holds the readings of the counters, cell by cell. */
    method FlushOn(today: string, current: seq<Totals>)
      requires Valid() && |current| == |flushed|
      modifies this
      ensures Valid() && flushed == current
      ensures days == Evict(Added(old(days), routes, old(flushed), current, today, |current|))
    {
      hide Added, Evict, Distinct;
      ghost var days0, flushed0 := days, flushed;
      AddedNothing(days0, routes, flushed0, current, today);
      assert Partly(current, flushed0, 0) == flushed0;
      for i := 0 to |routes|
        invariant Distinct(routes) && flushed == Partly(current, flushed0, 3 * i)
        invariant days == Added(days0, routes, flushed0, current, today, 3 * i)
      {
        hide Partly;
        for k := 0 to 3
          invariant Distinct(routes) && flushed == Partly(current, flushed0, 3 * i + k)
          invariant days == Added(days0, routes, flushed0, current, today, 3 * i + k)
        {
          FlushCell(today, current, i, k, days0, flushed0);
        }
      }
      assert Partly(current, flushed0, 3 * |routes|) == current;
      DropOldDays();
    }

    /** One route and kind. */
    method FlushCell(today: string, current: seq<Totals>, i: nat, k: nat, ghost days0: Days, ghost flushed0: seq<Totals>)
      requires i < |routes| && k < 3 && |current| == |flushed0| == 3 * |routes|
      requires flushed == Partly(current, flushed0, 3 * i + k)
      requires days == Added(days0, routes, flushed0, current, today, 3 * i + k)
      modifies this
      ensures flushed == Partly(current, flushed0, 3 * i + k + 1)
      ensures days == Added(days0, routes, flushed0, current, today, 3 * i + k + 1)
    {
      hide Record, Minus;
      var c := 3 * i + k;
      assert c / 3 == i && c % 3 == k && flushed[c] == flushed0[c];
      var delta := Minus(current[c], flushed[c]);
      flushed := flushed[c := current[c]];
      if delta != ZERO {
        days := Record(days, today, routes[i], KindName(k), delta);
      }
    }

    /** Drops the oldest days while there are too many. */
    method DropOldDays()
      modifies this`days
      ensures days == Evict(old(days))
    {
      ghost var all := days;
      while |days| > KEEP_DAYS
        invariant Evict(days) == Evict(all)
        decreases |days|
      {
        KeysCount(days);
        ghost var o := Oldest(days.Keys);
        var first :| first in days.Keys && forall e :: e in days.Keys ==> e == first || Less(first, e);
        OldestUnique(days.Keys, o, first);
        DropOne(days, first);
        days := days - {first};
      }
    }
  }

  lemma AddedNothing(days: Days, routes: seq<string>, flushed: seq<Totals>, current: seq<Totals>, today: string)
    requires |flushed| == |current| == 3 * |routes|
    ensures Added(days, routes, flushed, current, today, 0) == days
  {
  }

  /** The cells of a route, in order: requests to the API, media and images. */
  lemma KindsExact(routes: seq<string>, i: nat)
    requires i < |routes|
    ensures RouteAt(routes, 3 * i) == RouteAt(routes, 3 * i + 1) == RouteAt(routes, 3 * i + 2) == routes[i]
    ensures KindAt(3 * i) == "api" && KindAt(3 * i + 1) == "media" && KindAt(3 * i + 2) == "image"
  {
  }
}
