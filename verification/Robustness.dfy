/**
 * Turning the report join into samples per entry policy (scripts/development-robustness.ts).
 */
module Robustness {
  import opened Prelude
  import opened Ledger

  /** One sample. `growth` is the ratio whose logarithm the report stores. */
  datatype Sample = Sample(mint: string, utcDay: string, growth: real, netPnl: int, catastrophic: bool,
                           blockedExit: bool)

  function Pnl(row: ReportRow): int {
    row.grossDelta - (if row.executionCost.Some? then row.executionCost.value else 0)
  }

  /** A row counts when its entry cost something and it did not lose all of it. */
  predicate Counts(row: ReportRow) {
    row.entryCashOut > 0 && Pnl(row) + row.entryCashOut > 0
  }

  function SampleOf(row: ReportRow): Sample
    requires Counts(row)
  {
    var cost, pnl := row.entryCashOut, Pnl(row);
    Sample(row.mint, row.utcDay, (pnl + cost) as real / cost as real, pnl,
           pnl < 0 && -pnl > cost * 50 / 100, row.blocked)
  }

  /** The samples of one entry policy among the first `n` rows, in row order. */
  function SamplesOf(rows: seq<ReportRow>, n: nat, policy: string): seq<Sample>
    requires n <= |rows|
  {
    if n == 0 then []
    else
      var earlier, row := SamplesOf(rows, n - 1, policy), rows[n - 1];
      if row.entryPolicy == policy && Counts(row) then earlier + [SampleOf(row)] else earlier
  }

  /** Each entry policy holds its samples among the first `n` rows, and a policy without any is absent. */
  ghost predicate Loaded(rows: seq<ReportRow>, n: nat, out: map<string, seq<Sample>>)
    requires n <= |rows|
  {
    forall p :: SamplesOf(rows, n, p) == if p in out then out[p] else []
  }

  ghost predicate NoneEmpty(out: map<string, seq<Sample>>) {
    forall p :: p in out ==> out[p] != []
  }

  lemma LoadNext(rows: seq<ReportRow>, k: nat, out: map<string, seq<Sample>>)
    requires k < |rows| && Loaded(rows, k, out) && NoneEmpty(out)
    ensures !Counts(rows[k]) ==> Loaded(rows, k + 1, out)
    ensures Counts(rows[k]) ==>
      var p := rows[k].entryPolicy;
      var list := if p in out then out[p] else [];
      var out' := out[p := list + [SampleOf(rows[k])]];
      Loaded(rows, k + 1, out') && NoneEmpty(out')
  {
  }

  method Load(rows: seq<ReportRow>) returns (out: map<string, seq<Sample>>)
    ensures Loaded(rows, |rows|, out) && NoneEmpty(out)
  {
    out := map[];
    for k := 0 to |rows|
      invariant Loaded(rows, k, out) && NoneEmpty(out)
    {
      var r := rows[k];
      LoadNext(rows, k, out);
      var sample := SampleFrom(r);
      if sample.None? { continue; }
      var list := if r.entryPolicy in out then out[r.entryPolicy] else [];
      out := out[r.entryPolicy := list + [sample.value]];
    }
  }

  /** One row of the loop: skipped without a positive cost or a positive remainder. */
  method SampleFrom(r: ReportRow) returns (sample: Option<Sample>)
    ensures sample == if Counts(r) then Some(SampleOf(r)) else None
  {
    var cost := r.entryCashOut;
    if cost <= 0 { return None; }
    var execCost := if r.executionCost.Some? then r.executionCost.value else 0;
    var pnl := r.grossDelta - execCost;
    if pnl + cost <= 0 { return None; }
    var ratio := (pnl + cost) as real / cost as real;
    sample := Some(Sample(r.mint, r.utcDay, ratio, pnl, pnl < 0 && -pnl > cost * 50 / 100, r.blocked));
  }

  /**
   * A row is skipped exactly when nothing was paid or all of it was lost; otherwise its growth
   * turns what was paid into what is left, and is below one exactly when money was lost.
   */
  lemma GrowthIsWhatIsLeft(row: ReportRow)
    ensures !Counts(row) <==> row.entryCashOut <= 0 || -Pnl(row) >= row.entryCashOut
    ensures Counts(row) ==>
            var s := SampleOf(row);
            && s.growth > 0.0 && s.growth * row.entryCashOut as real == (row.entryCashOut + s.netPnl) as real
            && (s.growth < 1.0 <==> s.netPnl < 0)
            && s.netPnl + (if row.executionCost.Some? then row.executionCost.value else 0) == row.grossDelta
  {
    if Counts(row) {
      PartOfCost((Pnl(row) + row.entryCashOut) as real, row.entryCashOut as real);
    }
  }

  /** A sample keeps its row's mint, day and blocked flag, and its result is the gross one less the cost if known. */
  lemma SampleKeepsRow(row: ReportRow)
    requires Counts(row)
    ensures var s := SampleOf(row);
            && s.mint == row.mint && s.utcDay == row.utcDay && s.blockedExit == row.blocked
            && (row.executionCost.Some? ==> s.netPnl == row.grossDelta - row.executionCost.value)
            && (row.executionCost.None? ==> s.netPnl == row.grossDelta)
  {
  }

  lemma PartOfCost(left: real, cost: real)
    requires left > 0.0 && cost > 0.0
    ensures left / cost > 0.0 && left / cost * cost == left && (left / cost < 1.0 <==> left < cost)
  {
    var growth := left / cost;
    assert growth * cost == left;
    var gap := (growth - 1.0) * cost;
    assert gap == left - cost;
    if growth < 1.0 {
      PositiveTimes(1.0 - growth, cost);
    } else if growth > 1.0 {
      PositiveTimes(growth - 1.0, cost);
    }
  }

  lemma PositiveTimes(x: real, y: real)
    requires x > 0.0 && y > 0.0
    ensures x * y > 0.0
  {
  }

  /** A path is catastrophic exactly when it lost more than half of what its entry cost. */
  lemma CatastrophicIsMoreThanHalf(row: ReportRow)
    requires Counts(row)
    ensures SampleOf(row).catastrophic <==> SampleOf(row).growth < 0.5
  {
    var cost, pnl := row.entryCashOut, Pnl(row);
    BelowHalf((pnl + cost) as real, cost as real);
    FlooredHalf(-pnl, cost);
  }

  lemma BelowHalf(x: real, c: real)
    requires c > 0.0
    ensures x / c < 0.5 <==> 2.0 * x < c
  {
    assert x / c * c == x;
    assert x / c < 0.5 ==> x / c * c < 0.5 * c;
    assert x / c >= 0.5 ==> x / c * c >= 0.5 * c;
  }

  lemma FlooredHalf(loss: int, cost: int)
    requires cost > 0
    ensures loss > cost * 50 / 100 <==> 2 * loss > cost
  {
    assert cost * 50 / 100 == cost / 2;
  }

  /**
   * A sample belongs to an entry policy, not to a pair: each further exit policy of the same
   * decision adds another sample of the same mint to the same list.
   */
  lemma ExitPoliciesArePooled(row: ReportRow, exitPolicy: string, grossDelta: int)
    requires exitPolicy != row.exitPolicy
    requires Counts(row) && Counts(row.(exitPolicy := exitPolicy, grossDelta := grossDelta))
    ensures var other := row.(exitPolicy := exitPolicy, grossDelta := grossDelta);
            SamplesOf([row, other], 2, row.entryPolicy) == [SampleOf(row), SampleOf(other)]
  {
    var rows := [row, row.(exitPolicy := exitPolicy, grossDelta := grossDelta)];
    assert SamplesOf(rows, 1, row.entryPolicy) == [SampleOf(row)];
  }

  /** `at` lists, in order, every one of the first `n` rows of the policy that counts, and `samples` their samples. */
  ghost predicate ListsCounted(rows: seq<ReportRow>, n: nat, policy: string, at: seq<nat>, samples: seq<Sample>)
    requires n <= |rows|
  {
    && |at| == |samples|
    && (forall k :: 0 <= k < |at| ==>
          && at[k] < n && rows[at[k]].entryPolicy == policy && Counts(rows[at[k]])
          && samples[k] == SampleOf(rows[at[k]]))
    && (forall j, k :: 0 <= j < k < |at| ==> at[j] < at[k])
    && (forall i :: 0 <= i < n && rows[i].entryPolicy == policy && Counts(rows[i]) ==> i in at)
  }

  /** Each row of a policy that counts has exactly one sample, in row order, and no other row has one. */
  lemma {:induction false} EveryCountedRowOnce(rows: seq<ReportRow>, n: nat, policy: string) returns (at: seq<nat>)
    requires n <= |rows|
    ensures ListsCounted(rows, n, policy, at, SamplesOf(rows, n, policy))
  {
    if n == 0 {
      at := [];
    } else {
      at := EveryCountedRowOnce(rows, n - 1, policy);
      if rows[n - 1].entryPolicy == policy && Counts(rows[n - 1]) {
        OneMoreCounted(rows, n, policy, at, SamplesOf(rows, n - 1, policy));
        at := at + [n - 1];
      }
    }
  }

  lemma OneMoreCounted(rows: seq<ReportRow>, n: nat, policy: string, at: seq<nat>, samples: seq<Sample>)
    requires 0 < n <= |rows| && ListsCounted(rows, n - 1, policy, at, samples)
    requires rows[n - 1].entryPolicy == policy && Counts(rows[n - 1])
    ensures ListsCounted(rows, n, policy, at + [n - 1], samples + [SampleOf(rows[n - 1])])
  {
    var at' := at + [n - 1];
    assert at'[|at|] == n - 1;
    assert forall i :: i in at ==> i in at';
  }

  /** Every sample comes from a row of the join, so a demoted trajectory contributes to none. */
  lemma {:induction false} SamplesComeFromLiveRows(t: Tables, rows: seq<ReportRow>, n: nat, policy: string, i: nat)
    returns (k: nat)
    requires forall r :: r in rows ==> r in Report(t)
    requires n <= |rows| && i < |SamplesOf(rows, n, policy)|
    ensures k < n && Counts(rows[k]) && rows[k].entryPolicy == policy
    ensures InLiveContext(t, rows[k].trajectoryId) && SamplesOf(rows, n, policy)[i] == SampleOf(rows[k])
  {
    if i < |SamplesOf(rows, n - 1, policy)| {
      k := SamplesComeFromLiveRows(t, rows, n - 1, policy, i);
    } else {
      k := n - 1;
      assert rows[k] in rows;
    }
  }
}
