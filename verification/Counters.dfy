/** Sharded live counters (src/stats.rs). */
module Counters {
  import opened Stats

  /** Values a counter set holds: requests, bytes out and bytes in of each shard in turn. */
  const VALUES: nat := 48

  /** One field summed over the first `n` shards. */
  function FieldSum(values: seq<nat>, f: nat, n: nat): nat
    requires f < 3 && 3 * n <= |values|
  {
    if n == 0 then 0 else FieldSum(values, f, n - 1) + values[3 * (n - 1) + f]
  }

  function TotalsOf(values: seq<nat>): Totals
    requires |values| == VALUES
  {
    Totals(FieldSum(values, 0, SHARDS), FieldSum(values, 1, SHARDS), FieldSum(values, 2, SHARDS))
  }

  ghost predicate Below(a: seq<nat>, b: seq<nat>) {
    |a| <= |b| && forall i :: 0 <= i < |a| ==> a[i] <= b[i]
  }

  lemma {:induction false} FieldSumBelow(a: seq<nat>, b: seq<nat>, f: nat, n: nat)
    requires f < 3 && 3 * n <= |a| && Below(a, b)
    ensures FieldSum(a, f, n) <= FieldSum(b, f, n)
  {
    if n > 0 {
      FieldSumBelow(a, b, f, n - 1);
    }
  }

  /** Larger values give larger totals. */
  lemma TotalsBelow(a: seq<nat>, b: seq<nat>)
    requires |a| == |b| == VALUES && Below(a, b)
    ensures AtMost(TotalsOf(a), TotalsOf(b))
  {
    FieldSumBelow(a, b, 0, SHARDS);
    FieldSumBelow(a, b, 1, SHARDS);
    FieldSumBelow(a, b, 2, SHARDS);
  }

  lemma {:induction false} FieldSumAdd(values: seq<nat>, f: nat, n: nat, shard: nat, g: nat, amount: nat)
    requires f < 3 && g < 3 && 3 * n <= |values| && 3 * shard + g < |values|
    ensures var i := 3 * shard + g;
            FieldSum(values[i := values[i] + amount], f, n) ==
            FieldSum(values, f, n) + (if f == g && shard < n then amount else 0)
  {
    if n > 0 {
      FieldSumAdd(values, f, n - 1, shard, g, amount);
    }
  }

  class Counters {
    var values: seq<nat>

    ghost predicate Valid()
      reads this
    {
      |values| == VALUES
    }

    constructor ()
      ensures Valid() && values == seq(VALUES, _ => 0)
    {
      values := seq(VALUES, _ => 0);
    }

    method AddRequest(shard: nat)
      requires Valid() && shard < SHARDS
      modifies this`values
      ensures Valid() && TotalsOf(values) == Plus(old(TotalsOf(values)), Totals(1, 0, 0))
      ensures values == old(values)[3 * shard := old(values)[3 * shard] + 1]
    {
      AddStep(values, shard, 0, 1);
      values := values[3 * shard := values[3 * shard] + 1];
    }

    method AddBytesOut(shard: nat, bytes: nat)
      requires Valid() && shard < SHARDS
      modifies this`values
      ensures Valid() && TotalsOf(values) == Plus(old(TotalsOf(values)), Totals(0, bytes, 0))
      ensures values == old(values)[3 * shard + 1 := old(values)[3 * shard + 1] + bytes]
    {
      AddStep(values, shard, 1, bytes);
      values := values[3 * shard + 1 := values[3 * shard + 1] + bytes];
    }

    method AddBytesIn(shard: nat, bytes: nat)
      requires Valid() && shard < SHARDS
      modifies this`values
      ensures Valid() && TotalsOf(values) == Plus(old(TotalsOf(values)), Totals(0, 0, bytes))
      ensures values == old(values)[3 * shard + 2 := old(values)[3 * shard + 2] + bytes]
    {
      AddStep(values, shard, 2, bytes);
      values := values[3 * shard + 2 := values[3 * shard + 2] + bytes];
    }

    /** Sums the shards; nothing else runs in between here. */
    method ReadTotals() returns (totals: Totals)
      requires Valid()
      ensures totals == TotalsOf(values)
    {
      totals := ZERO;
      for s := 0 to SHARDS
        invariant totals == Totals(FieldSum(values, 0, s), FieldSum(values, 1, s), FieldSum(values, 2, s))
      {
        totals := totals.(requests := totals.requests + values[3 * s]);
        totals := totals.(bytesOut := totals.bytesOut + values[3 * s + 1]);
        totals := totals.(bytesIn := totals.bytesIn + values[3 * s + 2]);
      }
    }
  }

  lemma AddStep(values: seq<nat>, shard: nat, g: nat, amount: nat)
    requires |values| == VALUES && shard < SHARDS && g < 3
    ensures var i := 3 * shard + g;
            TotalsOf(values[i := values[i] + amount]) ==
            Plus(TotalsOf(values), Totals(if g == 0 then amount else 0, if g == 1 then amount else 0, if g == 2 then amount else 0))
  {
    FieldSumAdd(values, 0, SHARDS, shard, g, amount);
    FieldSumAdd(values, 1, SHARDS, shard, g, amount);
    FieldSumAdd(values, 2, SHARDS, shard, g, amount);
  }
}
