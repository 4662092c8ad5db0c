/** What a restart of the process loses of the statistics, and when nothing is lost. */
module StatsLoss {
  import opened Text
  import opened Stats
  import opened StatsSums
  import opened Counters
  import opened StatsRun

  // ---------------------------------------------------------------- what a restart loses

  /** A restart loses of a cell exactly what its counters show beyond the last successful write. So
      it loses nothing exactly when nothing is pending and the file holds, stored or evicted, all
      that memory does. */
  lemma RestartLoses(s: State, c: nat)
    requires Inv(s) && c < CellCount(s.routes)
    ensures var t := Next(s, Restart);
            var now := Readings(s.values, CellCount(s.routes))[c];
            var r, k := RouteAt(s.routes, c), KindAt(c);
            && t.lost[c] == Plus(s.lost[c], Minus(now, s.file.reading[c]))
            && (t.lost[c] == s.lost[c] <==>
                  && Pending(s, c) == ZERO
                  && Plus(SumDays(s.file.days, r, k), s.file.evicted[c]) ==
                     Plus(SumDays(s.memory.days, r, k), s.memory.evicted[c]))
  {
    ReadingsCover(s, c);
    assert Accounted(s, c) && Conserved(s.routes, s.loaded, s.base, s.memory, c)
           && Conserved(s.routes, s.loaded, s.base, s.file, c);
    var r, k := RouteAt(s.routes, c), KindAt(c);
    hide Readings, SumDays, GoodBook, RouteAt, KindAt, Plus, Minus, AtMost;
    LossArithmetic(Plus(SumDays(s.loaded, r, k), s.base[c]), s.file.reading[c], s.memory.reading[c],
                   Readings(s.values, CellCount(s.routes))[c], s.lost[c]);
    PlusRegroup(SumDays(s.loaded, r, k), s.base[c], s.file.reading[c]);
    PlusRegroup(SumDays(s.loaded, r, k), s.base[c], s.memory.reading[c]);
  }

  lemma LossArithmetic(known: Totals, file: Totals, memory: Totals, now: Totals, lost: Totals)
    requires AtMost(file, memory) && AtMost(memory, now)
    ensures Plus(lost, Minus(now, file)) == lost <==> Minus(now, memory) == ZERO && Plus(known, file) == Plus(known, memory)
  {
    hide ZERO;
    ZeroFields(Minus(now, memory));
  }

  /** The file has everything the counters of the cell show. */
  ghost predicate Saved(s: State, c: nat)
    requires WellShaped(s) && c < CellCount(s.routes)
  {
    s.file.reading[c] == Readings(s.values, CellCount(s.routes))[c]
  }

  lemma NothingLeft(a: Totals, b: Totals, lost: Totals)
    requires AtMost(a, b)
    ensures Plus(lost, Minus(b, a)) == ZERO <==> lost == ZERO && a == b
  {
    hide Plus, Minus;
    SameTotals(a, b);
    SumIsZero(lost, Minus(b, a));
  }

  lemma SameTotals(a: Totals, b: Totals)
    requires AtMost(a, b)
    ensures Minus(b, a) == ZERO <==> a == b
  {
    if Minus(b, a) == ZERO {
      assert a.requests == b.requests && a.bytesOut == b.bytesOut && a.bytesIn == b.bytesIn;
    }
  }

  lemma StepLoses(s: State, step: Step, c: nat)
    requires Inv(s) && Enabled(s, step) && c < CellCount(s.routes)
    ensures Next(s, step).routes == s.routes && |Next(s, step).lost| == CellCount(s.routes)
    ensures Next(s, step).lost[c] == ZERO <==> s.lost[c] == ZERO && (step.Restart? ==> Saved(s, c))
  {
    if step.Restart? {
      ReadingsCover(s, c);
      hide Readings;
      NothingLeft(s.file.reading[c], Readings(s.values, CellCount(s.routes))[c], s.lost[c]);
    }
    hide Readings, Flushed, GoodBook;
  }

  /** Over a whole run nothing of a cell is lost if and only if at every restart the last successful
      write had read all that its counters showed. */
  lemma {:induction false} LostNothing(run: seq<State>, steps: seq<Step>, n: nat, c: nat)
    requires IsRun(run, steps) && n < |run| && c < CellCount(run[0].routes)
    ensures WellShaped(run[n]) && run[n].routes == run[0].routes
    ensures run[n].lost[c] == ZERO <==>
            forall i :: 0 <= i < n && steps[i].Restart? ==>
                          WellShaped(run[i]) && run[i].routes == run[0].routes && Saved(run[i], c)
  {
    hide Inv, WellShaped, Next, Saved, Opened;
    RunKeeps(run, steps, n);
    InvShaped(run[n]);
    if n == 0 {
      OpenedLostNothing(run, steps, c);
    } else {
      LostNothing(run, steps, n - 1, c);
      RunKeeps(run, steps, n - 1);
      InvShaped(run[n - 1]);
      assert Follows(run[n - 1], steps[n - 1], run[n]);
      StepLoses(run[n - 1], steps[n - 1], c);
    }
  }

  lemma OpenedLostNothing(run: seq<State>, steps: seq<Step>, c: nat)
    requires IsRun(run, steps) && c < CellCount(run[0].routes)
    ensures c < |run[0].lost| && run[0].lost[c] == ZERO
  {
  }

  // ---------------------------------------------------------------- runs that lose

  /** A run goes on with a step. */
  lemma Extended(run: seq<State>, steps: seq<Step>, step: Step) returns (longer: seq<State>, more: seq<Step>)
    requires IsRun(run, steps) && Enabled(run[|steps|], step)
    ensures WellShaped(run[|steps|])
    ensures longer == run + [Next(run[|steps|], step)] && more == steps + [step] && IsRun(longer, more)
    ensures |longer| == |more| + 1 && |more| == |steps| + 1 && longer[|more|] == Next(run[|steps|], step)
  {
    assert |run| == |steps| + 1;
    RunsGoOn([], map[], run, steps, step);
    hide IsRun, Next, Enabled, WellShaped;
    longer, more := run + [Next(run[|steps|], step)], steps + [step];
  }

  /** A flush that loads with nothing in between reads the counters as they are. */
  lemma {:induction false} LoadAll(run: seq<State>, steps: seq<Step>) returns (longer: seq<State>, more: seq<Step>)
    requires IsRun(run, steps) && run[|steps|].phase.Flushing?
    requires var s := run[|steps|]; |s.phase.read| <= |s.values| && s.phase.read == s.values[..|s.phase.read|]
    ensures IsRun(longer, more)
    ensures longer[|more|] == run[|steps|].(phase := Flushing(run[|steps|].phase.today, run[|steps|].values))
    decreases |run[|steps|].values| - |run[|steps|].phase.read|
  {
    var s := run[|steps|];
    var n := |s.phase.read|;
    longer, more := run, steps;
    if n < |s.values| {
      var r, t := Extended(run, steps, Load);
      hide IsRun;
      assert s.values[..n + 1] == s.values[..n] + [s.values[n]];
      longer, more := LoadAll(r, t);
    }
  }

  /** Every run with no flush under way can go on with a flush whose write fails and a restart, and
      then what the counters showed beyond the file is lost. */
  lemma FailedWriteLoses(run: seq<State>, steps: seq<Step>, today: string) returns (longer: seq<State>, more: seq<Step>)
    requires IsRun(run, steps) && run[|steps|].phase.Idle?
    ensures IsRun(longer, more) && |more| >= 2 && more[|more| - 2] == End(false) && more[|more| - 1] == Restart
    ensures var s, t := run[|steps|], longer[|more|];
            && WellShaped(s) && t.added == s.added
            && t.lost == PlusAll(s.lost, MinusAll(Readings(s.values, CellCount(s.routes)), s.file.reading))
  {
    var s := run[|steps|];
    var r1, t1 := Extended(run, steps, Begin(today));
    hide IsRun, Readings, Flushed, PlusAll, MinusAll;
    var r2, t2 := LoadAll(r1, t1);
    var r3, t3 := Extended(r2, t2, End(false));
    longer, more := Extended(r3, t3, Restart);
  }

  /** A first start and one increment. */
  lemma OneIncrement(routes: seq<string>, disk: Days, i: nat, amount: nat) returns (run: seq<State>, steps: seq<Step>)
    requires Distinct(routes) && i < VALUES * CellCount(routes)
    ensures IsRun(run, steps) && steps == [Add(i, amount)] && run[1].phase.Idle? && WellShaped(run[1])
    ensures var s, c := run[1], i / VALUES;
            && s.routes == routes && c < CellCount(routes)
            && Readings(s.values, CellCount(routes))[c] == s.added[c] == Increment(i, amount)
            && s.lost[c] == s.file.reading[c] == ZERO
  {
    hide Increment, Plus, Readings, Distinct;
    var first := Opened(routes, disk);
    ReadingsOfZeros(CellCount(routes));
    ReadingsAdd(first.values, CellCount(routes), i, amount, i / VALUES);
    AddZero(Increment(i, amount));
    RunsGoOn(routes, disk, [first], [], Add(i, amount));
    run, steps := Extended([first], [], Add(i, amount));
    hide IsRun;
  }

  lemma AddZero(t: Totals)
    ensures Plus(ZERO, t) == t && Minus(t, ZERO) == t
  {
  }

  lemma AllLost(s: State, c: nat)
    requires WellShaped(s) && c < CellCount(s.routes) && s.lost[c] == s.file.reading[c] == ZERO
    ensures var now := Readings(s.values, CellCount(s.routes));
            PlusAll(s.lost, MinusAll(now, s.file.reading))[c] == now[c]
  {
    hide Readings, Plus, Minus;
    AddZero(Readings(s.values, CellCount(s.routes))[c]);
  }

  /** Runs that lose whatever was counted: a restart before any flush, and a restart after a flush
      that could not be written. */
  lemma LosingRuns(routes: seq<string>, disk: Days, i: nat, amount: nat, today: string)
      returns (run: seq<State>, steps: seq<Step>, run': seq<State>, steps': seq<Step>)
    requires Distinct(routes) && i < VALUES * CellCount(routes)
    ensures IsRun(run, steps) && steps == [Add(i, amount), Restart]
    ensures var s, c := run[2], i / VALUES; c < |s.lost| && s.lost[c] == Increment(i, amount)
    ensures IsRun(run', steps') && |steps'| >= 2 && steps'[|steps'| - 2] == End(false) && steps'[|steps'| - 1] == Restart
    ensures var s, c := run'[|steps'|], i / VALUES; c < |s.lost| && s.lost[c] == Increment(i, amount)
  {
    hide Increment, Readings, Plus, Minus, Distinct, PlusAll, MinusAll;
    var r, t := OneIncrement(routes, disk, i, amount);
    AllLost(r[1], i / VALUES);
    run', steps' := FailedWriteLoses(r, t, today);
    run, steps := Extended(r, t, Restart);
    hide IsRun;
  }
}
