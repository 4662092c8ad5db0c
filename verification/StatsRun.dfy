/** Runs of the statistics: threads add to their shards at any time, a flush loads the values one by
    one while they do, a write of the file may fail, and the process may restart at any point. */
module StatsRun {
  import opened Text
  import opened Stats
  import opened StatsSums
  import opened Counters

  // ---------------------------------------------------------------- states and steps

  /** A flush or a report in progress, with the history locked: the values loaded so far, in program
      order, and a flush's date. */
  datatype Phase = Idle | Flushing(today: string, read: seq<nat>) | Reporting(read: seq<nat>)

  /** What a flush recorded: its date and what each cell had gained. */
  datatype Entry = Entry(date: string, deltas: seq<Totals>)

  /** A history, in memory or in the file: its days, and the reading of this process that they
      include. The rest tells where the days come from: what each flush recorded, every date ever
      present, and the totals of the evicted days of each cell. */
  datatype Book = Book(days: Days, reading: seq<Totals>, ledger: seq<Entry>, ever: set<string>, evicted: seq<Totals>)

  /** `values` are the live counters of all cells in order. The rest tells what happened since the
      very first start: `loaded` is the file it found, `last` what the last flush read, `base` what
      earlier processes recorded that survived, `added` all that was ever counted, and `lost` what
      restarts forgot. */
  datatype State = State(routes: seq<string>, values: seq<nat>, memory: Book, file: Book, phase: Phase,
                         loaded: Days, last: seq<nat>, base: seq<Totals>, added: seq<Totals>, lost: seq<Totals>)

  datatype Step =
    | Add(i: nat, amount: nat)
    | Begin(today: string)
    | Look
    | Load
    | End(written: bool)
    | Show
    | Restart

  function CellCount(routes: seq<string>): nat {
    3 * |routes|
  }

  function CellValues(values: seq<nat>, c: nat): seq<nat>
    requires VALUES * (c + 1) <= |values|
  {
    values[VALUES * c..VALUES * c + VALUES]
  }

  lemma CellFits(cells: nat, c: nat)
    requires c < cells
    ensures VALUES * (c + 1) <= VALUES * cells
  {
  }

  /** The totals of every cell. */
  function Readings(values: seq<nat>, cells: nat): (r: seq<Totals>)
    requires |values| == VALUES * cells
    ensures |r| == cells
  {
    seq(cells, c requires 0 <= c < cells => CellFits(cells, c); TotalsOf(CellValues(values, c)))
  }

  function Zeros(n: nat): seq<nat> {
    seq(n, _ => 0)
  }

  function NoTotals(cells: nat): seq<Totals> {
    seq(cells, _ => ZERO)
  }

  /** The sums, cell by cell. */
  function PlusAll(a: seq<Totals>, b: seq<Totals>): (r: seq<Totals>)
    requires |a| == |b|
    ensures |r| == |a|
  {
    seq(|a|, c requires 0 <= c < |a| => Plus(a[c], b[c]))
  }

  function MinusAll(a: seq<Totals>, b: seq<Totals>): (r: seq<Totals>)
    requires |a| == |b|
    ensures |r| == |a|
  {
    seq(|a|, c requires 0 <= c < |a| => Minus(a[c], b[c]))
  }

  /** The history that the first start finds. */
  function StartBook(cells: nat, disk: Days): Book {
    Book(disk, NoTotals(cells), [], disk.Keys, NoTotals(cells))
  }

  /** The first start, on a file that holds `disk`. */
  function Opened(routes: seq<string>, disk: Days): State {
    var none := NoTotals(CellCount(routes));
    var book := StartBook(CellCount(routes), disk);
    State(routes, Zeros(VALUES * CellCount(routes)), book, book, Idle,
          disk, Zeros(VALUES * CellCount(routes)), none, none, none)
  }

  predicate WellBook(b: Book, cells: nat) {
    && |b.reading| == |b.evicted| == cells
    && forall i :: 0 <= i < |b.ledger| ==> |b.ledger[i].deltas| == cells
  }

  predicate WellShaped(s: State) {
    var cells := CellCount(s.routes);
    && Distinct(s.routes) && WellBook(s.memory, cells) && WellBook(s.file, cells)
    && |s.values| == |s.last| == VALUES * cells && |s.base| == |s.added| == |s.lost| == cells
    && (!s.phase.Idle? ==> |s.phase.read| <= VALUES * cells)
  }

  predicate Enabled(s: State, step: Step) {
    match step
    case Add(i, _) => i < |s.values|
    case Begin(_) => s.phase.Idle?
    case Look => s.phase.Idle?
    case Load => !s.phase.Idle? && |s.phase.read| < |s.values|
    case End(_) => s.phase.Flushing? && |s.phase.read| == |s.values|
    case Show => s.phase.Reporting? && |s.phase.read| == |s.values|
    case Restart => true
  }

  function Deltas(flushed: seq<Totals>, current: seq<Totals>): seq<Totals>
    requires |flushed| == |current|
  {
    seq(|current|, c requires 0 <= c < |current| => Delta(flushed, current, c))
  }

  /** The history after a flush that read `current`. */
  ghost function Flushed(routes: seq<string>, b: Book, today: string, current: seq<Totals>): Book
    requires WellBook(b, CellCount(routes)) && |current| == CellCount(routes)
  {
    var cells := CellCount(routes);
    var grown := Added(b.days, routes, b.reading, current, today, cells);
    var days := Evict(grown);
    Book(days, current, b.ledger + [Entry(today, Deltas(b.reading, current))], b.ever + grown.Keys,
         seq(cells, c requires 0 <= c < cells =>
           Plus(b.evicted[c], SumDays(grown - days.Keys, RouteAt(routes, c), KindAt(c)))))
  }

  /** What an increment of value `i` adds to its cell. */
  function Increment(i: nat, amount: nat): Totals {
    var f := i % VALUES % 3;
    Totals(if f == 0 then amount else 0, if f == 1 then amount else 0, if f == 2 then amount else 0)
  }

  /** The process ends and starts again: counters and history in memory are gone, the file is read. */
  function Restarted(s: State): State
    requires WellShaped(s)
  {
    var cells := CellCount(s.routes);
    var book := s.file.(reading := NoTotals(cells));
    s.(values := Zeros(VALUES * cells), memory := book, file := book, phase := Idle, last := Zeros(VALUES * cells),
       base := PlusAll(s.base, s.file.reading),
       lost := PlusAll(s.lost, MinusAll(Readings(s.values, cells), s.file.reading)))
  }

  ghost function Next(s: State, step: Step): State
    requires WellShaped(s) && Enabled(s, step)
  {
    match step
    case Add(i, amount) =>
      var c := i / VALUES;
      s.(values := s.values[i := s.values[i] + amount], added := s.added[c := Plus(s.added[c], Increment(i, amount))])
    case Begin(today) => s.(phase := Flushing(today, []))
    case Look => s.(phase := Reporting([]))
    case Load => s.(phase := s.phase.(read := s.phase.read + [s.values[|s.phase.read|]]))
    case End(written) =>
      var book := Flushed(s.routes, s.memory, s.phase.today, Readings(s.phase.read, CellCount(s.routes)));
      s.(memory := book, file := if written then book else s.file, phase := Idle, last := s.phase.read)
    case Show => s.(phase := Idle)
    case Restart => Restarted(s)
  }

  // ---------------------------------------------------------------- the invariant

  /** What a flush read last time is at most what the counters show now. */
  ghost predicate ReadingsGrow(s: State)
    requires WellShaped(s)
  {
    && Below(s.last, s.values) && s.memory.reading == Readings(s.last, CellCount(s.routes))
    && (!s.phase.Idle? ==> Below(s.phase.read, s.values) && Below(s.last[..|s.phase.read|], s.phase.read))
  }

  /** The first file and all that was recorded since and survived is stored or evicted. */
  ghost predicate Conserved(routes: seq<string>, loaded: Days, base: seq<Totals>, b: Book, c: nat)
    requires c < CellCount(routes) && c < |base| && c < |b.reading| && c < |b.evicted|
  {
    var r, k := RouteAt(routes, c), KindAt(c);
    Plus(SumDays(loaded, r, k), Plus(base[c], b.reading[c])) == Plus(SumDays(b.days, r, k), b.evicted[c])
  }

  /** Everything the ledger recorded on a date for a cell. */
  function FlushedOn(ledger: seq<Entry>, date: string, c: nat): Totals
    requires forall i :: 0 <= i < |ledger| ==> c < |ledger[i].deltas|
  {
    if ledger == [] then ZERO
    else
      var n := |ledger| - 1;
      var before := FlushedOn(ledger[..n], date, c);
      if ledger[n].date == date then Plus(before, ledger[n].deltas[c]) else before
  }

  ghost predicate Whole(routes: seq<string>, loaded: Days, b: Book, d: string, c: nat)
    requires WellBook(b, CellCount(routes)) && c < CellCount(routes)
  {
    var r, k := RouteAt(routes, c), KindAt(c);
    Stored(b.days, d, r, k) == Plus(Stored(loaded, d, r, k), FlushedOn(b.ledger, d, c))
  }

  /** No date is missing unless the history is full. */
  ghost predicate Room(ever: set<string>, days: Days) {
    days.Keys == ever || |days| >= KEEP_DAYS
  }

  /** The days kept are the greatest ever present, none was dropped while there was room, and each
      holds all that was ever loaded or flushed for it. A date never present has nothing. */
  ghost predicate Retained(routes: seq<string>, loaded: Days, b: Book)
    requires WellBook(b, CellCount(routes))
  {
    && Greatest(b.ever, b.days.Keys) && loaded.Keys <= b.ever
    && Room(b.ever, b.days)
    && (forall d, c :: d in b.days && 0 <= c < CellCount(routes) ==> Whole(routes, loaded, b, d, c))
    && (forall d, c :: d !in b.ever && 0 <= c < CellCount(routes) ==> FlushedOn(b.ledger, d, c) == ZERO)
  }

  ghost predicate GoodBook(routes: seq<string>, loaded: Days, base: seq<Totals>, b: Book)
    requires WellBook(b, CellCount(routes)) && |base| == CellCount(routes)
  {
    && (forall c :: 0 <= c < CellCount(routes) ==> Conserved(routes, loaded, base, b, c))
    && Retained(routes, loaded, b)
  }

  /** All that was ever counted survived from earlier processes, was lost, or is in the counters; and
      the file holds a reading that is at most the one in memory. */
  ghost predicate Accounted(s: State, c: nat)
    requires WellShaped(s) && c < CellCount(s.routes)
  {
    && s.added[c] == Plus(Plus(s.base[c], s.lost[c]), Readings(s.values, CellCount(s.routes))[c])
    && AtMost(s.file.reading[c], s.memory.reading[c])
  }

  ghost predicate Inv(s: State) {
    && WellShaped(s) && ReadingsGrow(s)
    && GoodBook(s.routes, s.loaded, s.base, s.memory) && GoodBook(s.routes, s.loaded, s.base, s.file)
    && forall c :: 0 <= c < CellCount(s.routes) ==> Accounted(s, c)
  }

  // ---------------------------------------------------------------- readings

  /** Successive locked readings never decrease, so the saturating subtraction is exact. */
  lemma ReadingsExact(a: seq<nat>, b: seq<nat>, cells: nat, c: nat)
    requires |a| == |b| == VALUES * cells && Below(a, b) && c < cells
    ensures var x, y := Readings(a, cells)[c], Readings(b, cells)[c];
            AtMost(x, y) && Plus(x, Minus(y, x)) == y
  {
    hide TotalsOf;
    CellFits(cells, c);
    var u, v := CellValues(a, c), CellValues(b, c);
    assert forall i :: 0 <= i < VALUES ==> u[i] == a[VALUES * c + i] && v[i] == b[VALUES * c + i];
    TotalsBelow(u, v);
  }

  lemma ReadingsOfZeros(cells: nat)
    ensures |Zeros(VALUES * cells)| == VALUES * cells
    ensures Readings(Zeros(VALUES * cells), cells) == NoTotals(cells)
  {
    var z := Zeros(VALUES * cells);
    forall c | 0 <= c < cells
      ensures Readings(z, cells)[c] == ZERO
    {
      CellFits(cells, c);
      TotalsOfZeros(CellValues(z, c));
    }
  }

  lemma {:induction false} FieldSumZeros(values: seq<nat>, f: nat, n: nat)
    requires f < 3 && 3 * n <= |values| && forall i :: 0 <= i < |values| ==> values[i] == 0
    ensures FieldSum(values, f, n) == 0
  {
    if n > 0 {
      FieldSumZeros(values, f, n - 1);
    }
  }

  lemma TotalsOfZeros(values: seq<nat>)
    requires |values| == VALUES && forall i :: 0 <= i < |values| ==> values[i] == 0
    ensures TotalsOf(values) == ZERO
  {
    FieldSumZeros(values, 0, SHARDS);
    FieldSumZeros(values, 1, SHARDS);
    FieldSumZeros(values, 2, SHARDS);
  }

  // ---------------------------------------------------------------- a flush keeps the greatest days

  /** A day that had to be dropped lies below every day kept, also when today is new or comes late. */
  lemma DroppedBelow(ever: set<string>, days: Days, grown: Days, today: string) returns (o: string)
    requires Greatest(ever, days.Keys) && Room(ever, days) && days.Keys != ever
    requires today !in days && grown.Keys == days.Keys + {today}
    requires today in Evict(grown)
    ensures o in days && Less(o, today)
  {
    EvictKeepsGreatest(grown);
    assert |grown| == |grown.Keys| == |days.Keys| + 1;
    var kept := Evict(grown);
    assert grown.Keys != kept.Keys by {
      if grown.Keys == kept.Keys {
        KeysCount(grown);
        KeysCount(kept);
      }
    }
    o :| o in grown.Keys && o !in kept.Keys;
  }

  lemma FlushKeepsGreatest(ever: set<string>, days: Days, grown: Days, today: string)
    requires Greatest(ever, days.Keys) && Room(ever, days)
    requires grown.Keys == days.Keys || grown.Keys == days.Keys + {today}
    ensures Greatest(ever + grown.Keys, Evict(grown).Keys) && Room(ever + grown.Keys, Evict(grown))
    ensures today in Evict(grown) ==> today in days || today !in ever
  {
    EvictKeepsGreatest(grown);
    var kept := Evict(grown);
    KeysCount(grown);
    KeysCount(days);
    if today in kept && today !in days && days.Keys != ever {
      var o := DroppedBelow(ever, days, grown, today);
      if today in ever {
        LessTransitive(o, today, o);
        LessIrreflexive(o);
      }
      forall d | d in ever && d !in days
        ensures Less(d, today)
      {
        LessTransitive(d, o, today);
      }
    }
    assert Greatest(ever + grown.Keys, kept.Keys);
    RoomKept(ever, days, grown);
  }

  lemma RoomKept(ever: set<string>, days: Days, grown: Days)
    requires Room(ever, days) && days.Keys <= ever && days.Keys <= grown.Keys
    ensures Room(ever + grown.Keys, Evict(grown))
  {
    EvictKeepsGreatest(grown);
    KeysCount(grown);
    KeysCount(days);
    if |grown| <= KEEP_DAYS {
      if days.Keys == ever {
        assert ever + grown.Keys == grown.Keys;
      } else {
        SubsetCount(days.Keys, grown.Keys);
      }
    }
  }

  lemma {:induction false} SubsetCount(a: set<string>, b: set<string>)
    requires a <= b
    ensures |a| <= |b|
    decreases |a|
  {
    if a != {} {
      var x :| x in a;
      SubsetCount(a - {x}, b - {x});
    }
  }

  // ---------------------------------------------------------------- a flush conserves

  /** The days evicted and the days kept add up. */
  lemma EvictSums(grown: Days, r: string, k: string)
    ensures SumDays(grown, r, k) ==
            Plus(SumDays(Evict(grown), r, k), SumDays(grown - Evict(grown).Keys, r, k))
  {
    EvictKeepsGreatest(grown);
    var kept := Evict(grown);
    hide Evict, SumSet;
    var dropped := grown - kept.Keys;
    assert dropped.Keys == grown.Keys - kept.Keys;
    SumSplit(grown.Keys, kept.Keys, ByDate(grown, r, k));
    SumSame(kept.Keys, ByDate(grown, r, k), ByDate(kept, r, k));
    SumSame(dropped.Keys, ByDate(grown, r, k), ByDate(dropped, r, k));
  }

  lemma ConserveArithmetic(loaded: Totals, base: Totals, flushed: Totals, days: Totals, evicted: Totals, delta: Totals,
                           kept: Totals, dropped: Totals)
    requires Plus(loaded, Plus(base, flushed)) == Plus(days, evicted) && Plus(days, delta) == Plus(kept, dropped)
    ensures Plus(loaded, Plus(base, Plus(flushed, delta))) == Plus(kept, Plus(evicted, dropped))
  {
  }

  /** A later reading than the one in the book. */
  ghost predicate Later(b: Book, current: seq<Totals>) {
    && |current| == |b.reading|
    && forall c :: 0 <= c < |current| ==> AtMost(b.reading[c], current[c])
                                          && Plus(b.reading[c], Delta(b.reading, current, c)) == current[c]
  }

  lemma FlushConserves(routes: seq<string>, loaded: Days, base: seq<Totals>, b: Book, today: string,
                       current: seq<Totals>, c: nat)
    requires Distinct(routes) && WellBook(b, CellCount(routes)) && |base| == CellCount(routes)
    requires |current| == CellCount(routes) && c < CellCount(routes)
    requires Later(b, current) && Conserved(routes, loaded, base, b, c)
    ensures Conserved(routes, loaded, base, Flushed(routes, b, today, current), c)
  {
    var cells := CellCount(routes);
    var r, k := RouteAt(routes, c), KindAt(c);
    assert Plus(b.reading[c], Delta(b.reading, current, c)) == current[c];
    hide SumDays, RouteAt, KindAt, Added, Evict, Plus, Delta, Distinct;
    SumAdded(b.days, routes, b.reading, current, today, cells, c);
    var grown := Added(b.days, routes, b.reading, current, today, cells);
    EvictSums(grown, r, k);
    ConserveArithmetic(SumDays(loaded, r, k), base[c], b.reading[c], SumDays(b.days, r, k), b.evicted[c],
                       Delta(b.reading, current, c), SumDays(Evict(grown), r, k),
                       SumDays(grown - Evict(grown).Keys, r, k));
  }

  lemma FlushedShape(routes: seq<string>, b: Book, today: string, current: seq<Totals>)
    requires WellBook(b, CellCount(routes)) && |current| == CellCount(routes)
    ensures WellBook(Flushed(routes, b, today, current), CellCount(routes))
  {
    hide SumDays, Added, Evict;
  }

  // ---------------------------------------------------------------- a flush retains

  lemma FlushedOnSnoc(ledger: seq<Entry>, e: Entry, date: string, c: nat)
    requires forall i :: 0 <= i < |ledger| ==> c < |ledger[i].deltas|
    requires c < |e.deltas|
    ensures FlushedOn(ledger + [e], date, c) ==
            if e.date == date then Plus(FlushedOn(ledger, date, c), e.deltas[c]) else FlushedOn(ledger, date, c)
  {
    assert (ledger + [e])[..|ledger|] == ledger;
  }

  lemma PlusRegroup(a: Totals, b: Totals, c: Totals)
    ensures Plus(Plus(a, b), c) == Plus(a, Plus(b, c)) && Plus(ZERO, c) == c
  {
  }

  /** A day that survives a flush holds what it held, and what the flush recorded on it. */
  lemma WholeAfter(routes: seq<string>, loaded: Days, days: Days, ever: set<string>, flushed: seq<Totals>,
                   current: seq<Totals>, today: string, was: Totals, d: string, c: nat)
    requires Distinct(routes) && |flushed| == |current| == CellCount(routes) && c < |current|
    requires Greatest(ever, days.Keys) && Room(ever, days) && loaded.Keys <= ever
    requires d in days ==> Stored(days, d, RouteAt(routes, c), KindAt(c)) ==
                           Plus(Stored(loaded, d, RouteAt(routes, c), KindAt(c)), was)
    requires d !in ever ==> was == ZERO
    requires d in Evict(Added(days, routes, flushed, current, today, |current|))
    ensures var r, k := RouteAt(routes, c), KindAt(c);
            Stored(Evict(Added(days, routes, flushed, current, today, |current|)), d, r, k) ==
            Plus(Stored(loaded, d, r, k), if d == today then Plus(was, Delta(flushed, current, c)) else was)
  {
    hide Added, Evict, Plus, Minus, RouteAt, KindAt, Distinct;
    var r, k := RouteAt(routes, c), KindAt(c);
    var grown := Added(days, routes, flushed, current, today, |current|);
    AddedKeys(days, routes, flushed, current, today, |current|);
    hide AnyDelta;
    EvictKeepsGreatest(grown);
    FlushKeepsGreatest(ever, days, grown, today);
    SameDay(Evict(grown), grown, d, r, k);
    AddedStored(days, routes, flushed, current, today, |current|, d, c);
    PlusRegroup(Stored(loaded, d, r, k), was, Delta(flushed, current, c));
    PlusRegroup(ZERO, ZERO, Delta(flushed, current, c));
    hide Greatest, Room;
  }

  /** A flush that leaves today out recorded nothing. */
  lemma NeverAfter(days: Days, routes: seq<string>, flushed: seq<Totals>, current: seq<Totals>, today: string, c: nat)
    requires |flushed| == |current| == CellCount(routes) && c < |current|
    ensures today !in Added(days, routes, flushed, current, today, |current|) ==> Delta(flushed, current, c) == ZERO
  {
    hide Added, Delta;
    AddedKeys(days, routes, flushed, current, today, |current|);
    if !AnyDelta(flushed, current, |current|) {
      NoDelta(flushed, current, c);
    }
  }

  lemma NoDelta(flushed: seq<Totals>, current: seq<Totals>, c: nat)
    requires |flushed| == |current| && c < |current| && !AnyDelta(flushed, current, |current|)
    ensures Delta(flushed, current, c) == ZERO
  {
  }

  lemma RetainedAt(routes: seq<string>, loaded: Days, b: Book, d: string, c: nat)
    requires WellBook(b, CellCount(routes)) && Retained(routes, loaded, b) && c < CellCount(routes)
    ensures d in b.days ==> Whole(routes, loaded, b, d, c)
    ensures d !in b.ever ==> FlushedOn(b.ledger, d, c) == ZERO
  {
    hide Whole, FlushedOn, Greatest, Room;
  }

  lemma FlushWhole(routes: seq<string>, loaded: Days, b: Book, today: string, current: seq<Totals>, d: string, c: nat)
    requires Distinct(routes) && WellBook(b, CellCount(routes)) && Retained(routes, loaded, b)
    requires |current| == CellCount(routes) && c < CellCount(routes)
    requires WellBook(Flushed(routes, b, today, current), CellCount(routes))
    requires d in Flushed(routes, b, today, current).days
    ensures Whole(routes, loaded, Flushed(routes, b, today, current), d, c)
  {
    hide Added, Evict, FlushedOn, RouteAt, KindAt, Plus, Greatest, Room, SumDays, Stored, Distinct;
    RetainedAt(routes, loaded, b, d, c);
    WholeAfter(routes, loaded, b.days, b.ever, b.reading, current, today, FlushedOn(b.ledger, d, c), d, c);
    FlushedOnSnoc(b.ledger, Entry(today, Deltas(b.reading, current)), d, c);
  }

  /** A date that was never present has nothing recorded. */
  lemma FlushNever(routes: seq<string>, loaded: Days, b: Book, today: string, current: seq<Totals>, d: string, c: nat)
    requires WellBook(b, CellCount(routes)) && Retained(routes, loaded, b)
    requires |current| == CellCount(routes) && c < CellCount(routes)
    requires WellBook(Flushed(routes, b, today, current), CellCount(routes))
    requires d !in Flushed(routes, b, today, current).ever
    ensures FlushedOn(Flushed(routes, b, today, current).ledger, d, c) == ZERO
  {
    hide Added, Evict, FlushedOn, Retained, SumDays;
    RetainedAt(routes, loaded, b, d, c);
    NeverAfter(b.days, routes, b.reading, current, today, c);
    FlushedOnSnoc(b.ledger, Entry(today, Deltas(b.reading, current)), d, c);
  }

  lemma FlushKeys(routes: seq<string>, loaded: Days, b: Book, today: string, current: seq<Totals>)
    requires WellBook(b, CellCount(routes)) && |current| == CellCount(routes)
    requires Greatest(b.ever, b.days.Keys) && Room(b.ever, b.days) && loaded.Keys <= b.ever
    ensures var f := Flushed(routes, b, today, current);
            Greatest(f.ever, f.days.Keys) && Room(f.ever, f.days) && loaded.Keys <= f.ever && |f.days| <= KEEP_DAYS
  {
    var cells := CellCount(routes);
    var grown := Added(b.days, routes, b.reading, current, today, cells);
    AddedKeys(b.days, routes, b.reading, current, today, cells);
    FlushKeepsGreatest(b.ever, b.days, grown, today);
    EvictKeepsGreatest(grown);
    hide Added, Evict, SumDays, Greatest, Room;
  }

  lemma FlushRetains(routes: seq<string>, loaded: Days, b: Book, today: string, current: seq<Totals>)
    requires Distinct(routes) && WellBook(b, CellCount(routes)) && Retained(routes, loaded, b)
    requires |current| == CellCount(routes)
    ensures var f := Flushed(routes, b, today, current);
            WellBook(f, CellCount(routes)) && Retained(routes, loaded, f) && |f.days| <= KEEP_DAYS
  {
    FlushedShape(routes, b, today, current);
    var f := Flushed(routes, b, today, current);
    forall d, c | d in f.days && 0 <= c < CellCount(routes)
      ensures Whole(routes, loaded, f, d, c)
    {
      FlushWhole(routes, loaded, b, today, current, d, c);
    }
    forall d, c | d !in f.ever && 0 <= c < CellCount(routes)
      ensures FlushedOn(f.ledger, d, c) == ZERO
    {
      FlushNever(routes, loaded, b, today, current, d, c);
    }
    FlushKeys(routes, loaded, b, today, current);
    hide Flushed, Whole, FlushedOn, Greatest, Room;
  }

  /** A flush of a good history is a good history. */
  lemma FlushIsGood(routes: seq<string>, loaded: Days, base: seq<Totals>, b: Book, today: string, current: seq<Totals>)
    requires Distinct(routes) && WellBook(b, CellCount(routes)) && |base| == CellCount(routes)
    requires |current| == CellCount(routes) && GoodBook(routes, loaded, base, b) && Later(b, current)
    ensures var f := Flushed(routes, b, today, current);
            WellBook(f, CellCount(routes)) && GoodBook(routes, loaded, base, f)
  {
    FlushRetains(routes, loaded, b, today, current);
    forall c | 0 <= c < CellCount(routes)
      ensures Conserved(routes, loaded, base, Flushed(routes, b, today, current), c)
    {
      FlushConserves(routes, loaded, base, b, today, current, c);
    }
    hide Flushed, Conserved, Retained;
  }

  // ---------------------------------------------------------------- every step keeps the invariant

  lemma OpenedInv(routes: seq<string>, disk: Days)
    requires Distinct(routes)
    ensures Inv(Opened(routes, disk))
  {
    ReadingsOfZeros(CellCount(routes));
    FirstBook(routes, disk);
    var s := Opened(routes, disk);
    hide Readings, GoodBook, Plus, AtMost;
    assert WellShaped(s);
    forall c | 0 <= c < CellCount(routes)
      ensures Accounted(s, c)
    {
      NothingYet();
    }
  }

  lemma NothingYet()
    ensures ZERO == Plus(Plus(ZERO, ZERO), ZERO) && AtMost(ZERO, ZERO)
  {
    hide Plus;
    PlusZero(ZERO);
  }

  lemma FirstBook(routes: seq<string>, disk: Days)
    ensures var b := StartBook(CellCount(routes), disk);
            WellBook(b, CellCount(routes)) && GoodBook(routes, disk, NoTotals(CellCount(routes)), b)
  {
    var b := StartBook(CellCount(routes), disk);
    forall c | 0 <= c < CellCount(routes)
      ensures Conserved(routes, disk, NoTotals(CellCount(routes)), b, c)
    {
      FirstConserved(routes, disk, c);
    }
    forall d, c | d in disk && 0 <= c < CellCount(routes)
      ensures Whole(routes, disk, b, d, c)
    {
      PlusZero(Stored(disk, d, RouteAt(routes, c), KindAt(c)));
    }
    hide Conserved, Whole, Plus;
  }

  lemma FirstConserved(routes: seq<string>, disk: Days, c: nat)
    requires c < CellCount(routes)
    ensures Conserved(routes, disk, NoTotals(CellCount(routes)), StartBook(CellCount(routes), disk), c)
  {
    hide SumDays, RouteAt, KindAt, Plus;
    PlusZero(ZERO);
    PlusZero(SumDays(disk, RouteAt(routes, c), KindAt(c)));
  }

  /** The reading that a flush took is later than the one in memory. */
  lemma ReadIsLater(s: State)
    requires Inv(s) && !s.phase.Idle? && |s.phase.read| == |s.values|
    ensures Later(s.memory, Readings(s.phase.read, CellCount(s.routes)))
  {
    var cells := CellCount(s.routes);
    assert s.last[..|s.phase.read|] == s.last;
    forall c | 0 <= c < cells
      ensures var x, y := Readings(s.last, cells)[c], Readings(s.phase.read, cells)[c];
              AtMost(x, y) && Plus(x, Minus(y, x)) == y
    {
      ReadingsExact(s.last, s.phase.read, cells, c);
    }
    hide Readings, GoodBook, Accounted;
  }

  lemma EndInv(s: State, written: bool)
    requires Inv(s) && Enabled(s, End(written))
    ensures Inv(Next(s, End(written)))
  {
    ReadIsLater(s);
    var current := Readings(s.phase.read, CellCount(s.routes));
    FlushIsGood(s.routes, s.loaded, s.base, s.memory, s.phase.today, current);
    var f := Flushed(s.routes, s.memory, s.phase.today, current);
    assert f.reading == current;
    var t := Next(s, End(written));
    hide Flushed, GoodBook, Readings, WellBook;
    assert WellShaped(t);
    forall c | 0 <= c < CellCount(s.routes)
      ensures Accounted(t, c)
    {
      assert Accounted(s, c) && AtMost(s.memory.reading[c], current[c]);
    }
  }

  /** An increment raises the reading of its cell by as much, and no other. */
  lemma ReadingsAdd(values: seq<nat>, cells: nat, i: nat, amount: nat, c: nat)
    requires |values| == VALUES * cells && i < |values| && c < cells
    ensures i / VALUES < cells
    ensures Readings(values[i := values[i] + amount], cells)[c] ==
            Plus(Readings(values, cells)[c], if c == i / VALUES then Increment(i, amount) else ZERO)
  {
    hide TotalsOf;
    CellFits(cells, c);
    var more := values[i := values[i] + amount];
    var u, j := CellValues(values, c), i % VALUES;
    assert i == VALUES * (i / VALUES) + j;
    if c == i / VALUES {
      assert CellValues(more, c) == u[j := u[j] + amount];
      assert j == 3 * (j / 3) + j % 3;
      AddStep(u, j / 3, j % 3, amount);
    } else {
      OtherCell(i / VALUES, c);
      assert CellValues(more, c) == u;
      PlusZero(TotalsOf(u));
    }
  }

  lemma OtherCell(a: nat, c: nat)
    requires a != c
    ensures VALUES * a + VALUES <= VALUES * c || VALUES * c + VALUES <= VALUES * a
  {
  }

  lemma AddInv(s: State, i: nat, amount: nat)
    requires Inv(s) && Enabled(s, Add(i, amount))
    ensures Inv(Next(s, Add(i, amount)))
  {
    var t := Next(s, Add(i, amount));
    assert WellShaped(t);
    forall c | 0 <= c < CellCount(s.routes)
      ensures Accounted(t, c)
    {
      assert Accounted(s, c);
      ReadingsAdd(s.values, CellCount(s.routes), i, amount, c);
    }
    hide GoodBook, Readings, Accounted;
  }

  lemma PhaseInv(s: State, step: Step)
    requires Inv(s) && Enabled(s, step) && (step.Begin? || step.Look? || step.Load? || step.Show?)
    ensures Inv(Next(s, step))
  {
    var t := Next(s, step);
    assert WellShaped(t);
    forall c | 0 <= c < CellCount(s.routes)
      ensures Accounted(t, c)
    {
      assert Accounted(s, c);
    }
    hide GoodBook, Readings, Accounted;
  }

  /** The history in the file is good, also as the start of a new process. */
  lemma CarriedOver(routes: seq<string>, loaded: Days, base: seq<Totals>, b: Book)
    requires WellBook(b, CellCount(routes)) && |base| == CellCount(routes) && GoodBook(routes, loaded, base, b)
    ensures var f := b.(reading := NoTotals(CellCount(routes)));
            WellBook(f, CellCount(routes)) && GoodBook(routes, loaded, PlusAll(base, b.reading), f)
  {
    var f := b.(reading := NoTotals(CellCount(routes)));
    forall c | 0 <= c < CellCount(routes)
      ensures Conserved(routes, loaded, PlusAll(base, b.reading), f, c)
    {
      assert Conserved(routes, loaded, base, b, c);
      PlusZero(Plus(base[c], b.reading[c]));
    }
    forall d, c | d in f.days && 0 <= c < CellCount(routes)
      ensures Whole(routes, loaded, f, d, c)
    {
      assert Whole(routes, loaded, b, d, c);
    }
    hide Conserved, Whole, FlushedOn, Greatest, Room;
  }

  lemma AtMostTransitive(a: Totals, b: Totals, c: Totals)
    requires AtMost(a, b) && AtMost(b, c)
    ensures AtMost(a, c) && Plus(a, Minus(c, a)) == c
  {
  }

  /** The counters show at least what is in the file. */
  lemma ReadingsCover(s: State, c: nat)
    requires Inv(s) && c < CellCount(s.routes)
    ensures var now := Readings(s.values, CellCount(s.routes))[c];
            && AtMost(s.memory.reading[c], now) && Plus(s.memory.reading[c], Minus(now, s.memory.reading[c])) == now
            && AtMost(s.file.reading[c], now) && Plus(s.file.reading[c], Minus(now, s.file.reading[c])) == now
  {
    var cells := CellCount(s.routes);
    ReadingsExact(s.last, s.values, cells, c);
    assert Accounted(s, c);
    hide Readings, GoodBook, Plus, Minus;
    AtMostTransitive(s.file.reading[c], s.memory.reading[c], Readings(s.values, cells)[c]);
  }

  lemma RestartInv(s: State)
    requires Inv(s)
    ensures Inv(Next(s, Restart))
  {
    var t := Next(s, Restart);
    var cells := CellCount(s.routes);
    CarriedOver(s.routes, s.loaded, s.base, s.file);
    ReadingsOfZeros(cells);
    forall c | 0 <= c < cells
      ensures t.added[c] == Plus(t.base[c], t.lost[c])
    {
      assert Accounted(s, c);
      ReadingsCover(s, c);
    }
    hide GoodBook, Readings;
    assert WellShaped(t);
    forall c | 0 <= c < cells
      ensures Accounted(t, c)
    {
      PlusZero(t.added[c]);
    }
  }

  /** Every step keeps the invariant. */
  lemma NextInv(s: State, step: Step)
    requires Inv(s) && Enabled(s, step)
    ensures Inv(Next(s, step))
  {
    hide Inv;
    match step
    case Add(i, amount) => AddInv(s, i, amount);
    case End(written) => EndInv(s, written);
    case Restart => RestartInv(s);
    case _ => PhaseInv(s, step);
  }

  // ---------------------------------------------------------------- runs

  ghost predicate IsRun(run: seq<State>, steps: seq<Step>) {
    && |run| == |steps| + 1 && (exists routes, disk :: Distinct(routes) && run[0] == Opened(routes, disk))
    && forall i :: 0 <= i < |steps| ==> Follows(run[i], steps[i], run[i + 1])
  }

  ghost predicate Follows(s: State, step: Step, t: State) {
    WellShaped(s) && Enabled(s, step) && t == Next(s, step)
  }

  /** Opening a history is a run, and every run goes on with any enabled step. */
  lemma RunsGoOn(routes: seq<string>, disk: Days, run: seq<State>, steps: seq<Step>, step: Step)
    requires Distinct(routes)
    ensures IsRun([Opened(routes, disk)], [])
    ensures IsRun(run, steps) && Enabled(run[|steps|], step) ==>
              WellShaped(run[|steps|]) && IsRun(run + [Next(run[|steps|], step)], steps + [step])
  {
    if IsRun(run, steps) && Enabled(run[|steps|], step) {
      RunKeeps(run, steps, |steps|);
      InvShaped(run[|steps|]);
      hide Inv, Opened, Next, Distinct, WellShaped, Enabled;
      var longer, more := run + [Next(run[|steps|], step)], steps + [step];
      forall i | 0 <= i < |more|
        ensures Follows(longer[i], more[i], longer[i + 1])
      {
        assert i < |steps| ==> Follows(run[i], steps[i], run[i + 1]);
      }
      assert longer[0] == run[0];
    }
  }

  /** The invariant holds at every point of every run. */
  lemma {:induction false} RunKeeps(run: seq<State>, steps: seq<Step>, n: nat)
    requires IsRun(run, steps) && n < |run|
    ensures Inv(run[n])
  {
    hide Inv;
    if n == 0 {
      var routes, disk :| Distinct(routes) && run[0] == Opened(routes, disk);
      OpenedInv(routes, disk);
    } else {
      RunKeeps(run, steps, n - 1);
      assert Follows(run[n - 1], steps[n - 1], run[n]);
      InvShaped(run[n - 1]);
      NextInv(run[n - 1], steps[n - 1]);
    }
  }

  lemma InvShaped(s: State)
    requires Inv(s)
    ensures WellShaped(s)
  {
  }

  /** What the counters of a cell show and no flush has recorded. */
  function Pending(s: State, c: nat): Totals
    requires WellShaped(s) && c < CellCount(s.routes)
  {
    Minus(Readings(s.values, CellCount(s.routes))[c], s.memory.reading[c])
  }

  /** In every run, at every point, failed writes and restarts included: the file found at the very
      first start and everything ever counted is stored, evicted, pending or was lost by a restart. */
  lemma RunAccounts(run: seq<State>, steps: seq<Step>, n: nat, c: nat)
    requires IsRun(run, steps) && n < |run|
    ensures WellShaped(run[n])
    ensures c < CellCount(run[n].routes) ==>
              var s := run[n];
              var r, k := RouteAt(s.routes, c), KindAt(c);
              Plus(SumDays(s.loaded, r, k), s.added[c]) ==
              Plus(Plus(SumDays(s.memory.days, r, k), s.memory.evicted[c]), Plus(Pending(s, c), s.lost[c]))
  {
    RunKeeps(run, steps, n);
    var s := run[n];
    if c < CellCount(s.routes) {
      ReadingsCover(s, c);
      assert Accounted(s, c) && Conserved(s.routes, s.loaded, s.base, s.memory, c);
      hide Readings, SumDays, GoodBook, RouteAt, KindAt;
    }
  }

  /** After a flush of any run, whatever the dates: the days are the 400 greatest of all dates that
      the first file held or a flush recorded and no restart rolled back, each holds what the first
      file had for it and every delta flushed on it, and no reading went backwards. */
  lemma FlushInRun(run: seq<State>, steps: seq<Step>, n: nat)
    requires IsRun(run, steps) && n < |steps| && steps[n].End?
    ensures var s, t := run[n], run[n + 1];
            && WellShaped(s) && WellShaped(t) && Later(s.memory, t.memory.reading)
            && Greatest(t.memory.ever, t.memory.days.Keys)
            && |t.memory.days| == (if |t.memory.ever| <= KEEP_DAYS then |t.memory.ever| else KEEP_DAYS)
            && (forall d, c :: d in t.memory.days && 0 <= c < CellCount(t.routes) ==>
                                 Whole(t.routes, t.loaded, t.memory, d, c))
  {
    var s, t := run[n], run[n + 1];
    RunKeeps(run, steps, n);
    RunKeeps(run, steps, n + 1);
    assert Follows(s, steps[n], t);
    var current := Readings(s.phase.read, CellCount(s.routes));
    FlushRetains(s.routes, s.loaded, s.memory, s.phase.today, current);
    ReadIsLater(s);
    GreatestCount(t.memory.ever, t.memory.days);
    hide Readings, Flushed, Conserved, Whole, Greatest, Room;
  }

  lemma GreatestCount(ever: set<string>, days: Days)
    requires Greatest(ever, days.Keys) && Room(ever, days) && |days| <= KEEP_DAYS
    ensures |days| == if |ever| <= KEEP_DAYS then |ever| else KEEP_DAYS
  {
    KeysCount(days);
    SubsetCount(days.Keys, ever);
    if |ever| <= KEEP_DAYS && days.Keys != ever {
      var x :| x in ever && x !in days.Keys;
      SubsetCount(days.Keys, ever - {x});
    }
  }
}
