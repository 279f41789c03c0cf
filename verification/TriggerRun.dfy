/**
 * A whole run of a trigger over the corpus: the chronological split, eligibility, the control
 * thresholds fitted on the fit half, and each mint's entry (scripts/phase-b-triggers.ts). Here
 * it shows which entries depend on snapshots that come after them.
 */
module TriggerRun {
  import opened Prelude
  import opened Sorting
  import opened Triggers
  import opened EarlyDays

  const DAY_MS := 86_400_000

  /** The age-ordered snapshots of every mint. */
  type Corpus = seq<seq<Snap>>

  /** T0 to T5 are given; T6 and T7 are controls on a field whose threshold the run fits. */
  datatype Choice = Given(trigger: Trigger) | Fitted(field: Field)

  datatype Half = Fit | Holdout

  // ---- the chronological split ----

  function FirstInWindow(snaps: seq<Snap>): (first: Option<Snap>)
    ensures first.None? <==> forall i :: 0 <= i < |snaps| ==> !InWindow(snaps[i])
    ensures first.Some? ==> exists i ::
      && 0 <= i < |snaps| && snaps[i] == first.value && InWindow(snaps[i])
      && forall j :: 0 <= j < i ==> !InWindow(snaps[j])
  {
    if snaps == [] then None
    else if InWindow(snaps[0]) then Some(snaps[0])
    else
      assert forall i :: 1 <= i < |snaps| ==> snaps[i] == snaps[1..][i - 1];
      var first := FirstInWindow(snaps[1..]);
      assert first.Some? ==> exists i ::
        0 <= i < |snaps| && snaps[i] == first.value && InWindow(snaps[i])
        && forall j :: 0 <= j < i ==> !InWindow(snaps[j]) by {
        if first.Some? {
          var k :| 0 <= k < |snaps[1..]| && snaps[1..][k] == first.value && InWindow(snaps[1..][k])
            && forall j :: 0 <= j < k ==> !InWindow(snaps[1..][j]);
          assert snaps[k + 1] == first.value;
          assert forall j :: 1 <= j < k + 1 ==> snaps[j] == snaps[1..][j - 1];
        }
      }
      first
  }

  /** The UTC day of the first snapshot in the window. */
  function EntryDay(snaps: seq<Snap>): Option<int> {
    var first := FirstInWindow(snaps);
    if first.None? then None else Some(first.value.t / DAY_MS)
  }

  function Days(corpus: Corpus): set<int> {
    set i | 0 <= i < |corpus| && EntryDay(corpus[i]).Some? :: EntryDay(corpus[i]).value
  }

  /** Among the sorted days the first half, rounded up, is for fitting. */
  function HalfOf(days: set<int>, snaps: seq<Snap>): Option<Half> {
    var day := EntryDay(snaps);
    if day.None? then None
    else if |set d | d in days && d < day.value| < (|days| + 1) / 2 then Some(Fit)
    else Some(Holdout)
  }

  /** The days whose mints are in one half. */
  function DaysIn(corpus: Corpus, half: Half): set<int> {
    set i | 0 <= i < |corpus| && HalfOf(Days(corpus), corpus[i]) == Some(half) :: EntryDay(corpus[i]).value
  }

  lemma DayIsEarly(days: set<int>, snaps: seq<Snap>)
    requires EntryDay(snaps).Some? && EntryDay(snaps).value in days
    ensures var early := |Before(days, EntryDay(snaps).value)| < (|days| + 1) / 2;
            HalfOf(days, snaps) == Some(if early then Fit else Holdout)
  {
    assert Before(days, EntryDay(snaps).value) == set d | d in days && d < EntryDay(snaps).value;
  }

  lemma HalvesAre(corpus: Corpus)
    ensures var days := Days(corpus);
            var early := Early(days, (|days| + 1) / 2);
            DaysIn(corpus, Fit) == early && DaysIn(corpus, Holdout) == days - early
  {
    var days := Days(corpus);
    var early := Early(days, (|days| + 1) / 2);
    forall d | d in days
      ensures d in DaysIn(corpus, Fit) <==> d in early
      ensures d in DaysIn(corpus, Holdout) <==> d !in early
    {
      forall i | 0 <= i < |corpus| && EntryDay(corpus[i]) == Some(d)
        ensures HalfOf(days, corpus[i]) == Some(if d in early then Fit else Holdout)
      {
        DayIsEarly(days, corpus[i]);
      }
    }
    assert DaysIn(corpus, Fit) <= days && DaysIn(corpus, Holdout) <= days;
  }

  /**
   * The split is chronological: the days of the two halves partition the days of the corpus,
   * every fit day precedes every holdout day, and the fit half has the odd day out.
   */
  lemma SplitIsChronological(corpus: Corpus)
    ensures var days, fit, holdout := Days(corpus), DaysIn(corpus, Fit), DaysIn(corpus, Holdout);
            FirstHalfOf(days, fit, holdout)
  {
    var days := Days(corpus);
    HalvesAre(corpus);
    FirstHalf(days, DaysIn(corpus, Fit), DaysIn(corpus, Holdout));
  }

  /** A mint without a snapshot in the window is in neither half, and mints of one day are in the same. */
  lemma HalvesGoByDay(corpus: Corpus, a: seq<Snap>, b: seq<Snap>)
    ensures HalfOf(Days(corpus), a).None? <==> forall i :: 0 <= i < |a| ==> !InWindow(a[i])
    ensures EntryDay(a) == EntryDay(b) ==> HalfOf(Days(corpus), a) == HalfOf(Days(corpus), b)
    ensures EntryDay(a).Some? ==> exists i ::
      && 0 <= i < |a| && InWindow(a[i]) && (forall j :: 0 <= j < i ==> !InWindow(a[j]))
      && EntryDay(a).value * DAY_MS <= a[i].t < (EntryDay(a).value + 1) * DAY_MS
  {
  }

  // ---- the fitted thresholds and the entries ----

  /** Some snapshot in the window has a market cap. */
  predicate Eligible(snaps: seq<Snap>) {
    exists i :: 0 <= i < |snaps| && InWindow(snaps[i]) && snaps[i].mcapSol.Some?
  }

  predicate InFit(days: set<int>, snaps: seq<Snap>) {
    Eligible(snaps) && HalfOf(days, snaps) == Some(Fit)
  }

  /** The eligible fit-half mints among those from `lo` to `hi`. */
  function FitMints(days: set<int>, corpus: Corpus, lo: nat, hi: nat): seq<seq<Snap>>
    requires lo <= hi <= |corpus|
    decreases hi - lo
  {
    if lo == hi then []
    else
      var earlier := FitMints(days, corpus, lo, hi - 1);
      if InFit(days, corpus[hi - 1]) then earlier + [corpus[hi - 1]] else earlier
  }

  /** `at` lists, in order, the mints from `lo` to `hi` that are eligible and in the fit half. */
  ghost predicate ListsFit(days: set<int>, corpus: Corpus, lo: nat, hi: nat, at: seq<nat>, mints: seq<seq<Snap>>)
    requires lo <= hi <= |corpus|
  {
    && |at| == |mints|
    && (forall k :: 0 <= k < |at| ==> lo <= at[k] < hi && corpus[at[k]] == mints[k])
    && (forall j, k :: 0 <= j < k < |at| ==> at[j] < at[k])
    && (forall i :: lo <= i < hi && Eligible(corpus[i]) && HalfOf(days, corpus[i]) == Some(Fit) ==> i in at)
    && (forall i :: i in at ==> lo <= i < hi && Eligible(corpus[i]) && HalfOf(days, corpus[i]) == Some(Fit))
  }

  /** The thresholds are fitted on exactly the eligible mints of the fit half, each once and in order. */
  lemma {:induction false} EveryFitMintOnce(days: set<int>, corpus: Corpus, lo: nat, hi: nat) returns (at: seq<nat>)
    requires lo <= hi <= |corpus|
    ensures ListsFit(days, corpus, lo, hi, at, FitMints(days, corpus, lo, hi))
    decreases hi - lo
  {
    if lo == hi {
      at := [];
    } else {
      at := EveryFitMintOnce(days, corpus, lo, hi - 1);
      if InFit(days, corpus[hi - 1]) {
        OneMoreFit(days, corpus, lo, hi, at, FitMints(days, corpus, lo, hi - 1));
        at := at + [hi - 1];
      }
    }
  }

  lemma OneMoreFit(days: set<int>, corpus: Corpus, lo: nat, hi: nat, at: seq<nat>, mints: seq<seq<Snap>>)
    requires lo < hi <= |corpus| && InFit(days, corpus[hi - 1]) && ListsFit(days, corpus, lo, hi - 1, at, mints)
    ensures ListsFit(days, corpus, lo, hi, at + [hi - 1], mints + [corpus[hi - 1]])
  {
    var at' := at + [hi - 1];
    assert at'[|at|] == hi - 1;
    assert forall i :: i in at ==> i in at';
  }

  function FittedThreshold(field: Field, fitMints: seq<seq<Snap>>, capSol: real): Option<real> {
    ThresholdAt(SortBy(Values(field, fitMints), Identity), Wanted(FireCount(Tier(capSol, None), fitMints), |fitMints|))
  }

  /** The trigger a run uses; `capSol` is T1's threshold, which the controls are matched to. */
  function TriggerOf(corpus: Corpus, choice: Choice, capSol: real): Trigger {
    match choice
    case Given(trigger) => trigger
    case Fitted(field) => Control(field, FittedThreshold(field, FitMints(Days(corpus), corpus, 0, |corpus|), capSol))
  }

  /** The index a mint is entered at, if the run enters it. */
  function EntryOf(corpus: Corpus, choice: Choice, capSol: real, i: nat): (entry: Option<nat>)
    requires i < |corpus|
    ensures entry.Some? ==> entry.value < |corpus[i]| && InWindow(corpus[i][entry.value])
  {
    var trigger := TriggerOf(corpus, choice, capSol);
    if Eligible(corpus[i]) && HalfOf(Days(corpus), corpus[i]).Some? && Fires(trigger, corpus[i])
    then Some(FireIndex(trigger, corpus[i], 0)) else None
  }

  method CollectFit(corpus: Corpus) returns (fitMints: seq<seq<Snap>>)
    ensures fitMints == FitMints(Days(corpus), corpus, 0, |corpus|)
  {
    fitMints := [];
    var days := Days(corpus);
    for k := 0 to |corpus|
      invariant fitMints == FitMints(days, corpus, 0, k)
    {
      if Eligible(corpus[k]) && HalfOf(days, corpus[k]) == Some(Fit) {
        fitMints := fitMints + [corpus[k]];
      }
    }
  }

  method CountT1(fitMints: seq<seq<Snap>>, capSol: real) returns (fires: nat)
    ensures fires == FireCount(Tier(capSol, None), fitMints)
  {
    fires := 0;
    for k := 0 to |fitMints|
      invariant fires + FireCount(Tier(capSol, None), fitMints[k..]) == FireCount(Tier(capSol, None), fitMints)
    {
      assert fitMints[k..][0] == fitMints[k] && fitMints[k..][1..] == fitMints[k + 1..];
      var entry := FiresTier(fitMints[k], capSol, None);
      if entry.Some? {
        fires := fires + 1;
      }
    }
  }

  method Fire(choice: Choice, threshold: Option<real>, snaps: seq<Snap>) returns (entry: Option<Snap>)
    requires choice.Given? ==> !choice.trigger.Control?
    ensures var trigger := if choice.Given? then choice.trigger else Control(choice.field, threshold);
            entry == if Fires(trigger, snaps) then Some(snaps[FireIndex(trigger, snaps, 0)]) else None
  {
    match choice
    case Fitted(field) => entry := FiresControl(snaps, field, threshold);
    case Given(Tier(capSol, withinMs)) => entry := FiresTier(snaps, capSol, withinMs);
    case Given(Baseline) =>
      var i := FireIndex(Baseline, snaps, 0);
      entry := if i < |snaps| then Some(snaps[i]) else None;
  }

  /** The run: fit the threshold if the trigger needs one, then enter every eligible mint of either half. */
  method RunTrigger(corpus: Corpus, choice: Choice, capSol: real) returns (entries: seq<Option<Snap>>)
    requires choice.Given? ==> !choice.trigger.Control?
    ensures |entries| == |corpus|
    ensures forall i :: 0 <= i < |corpus| ==>
      var entry := EntryOf(corpus, choice, capSol, i);
      entries[i] == if entry.Some? then Some(corpus[i][entry.value]) else None
  {
    entries := [];
    var threshold: Option<real> := None;
    if choice.Fitted? {
      var fitMints := CollectFit(corpus);
      var fires := CountT1(fitMints, capSol);
      var withField;
      threshold, withField := ThresholdForSelectivity(choice.field, fitMints, fires);
    }
    var days := Days(corpus);
    for k := 0 to |corpus|
      invariant |entries| == k
      invariant forall i :: 0 <= i < k ==>
        var entry := EntryOf(corpus, choice, capSol, i);
        entries[i] == if entry.Some? then Some(corpus[i][entry.value]) else None
    {
      var entry: Option<Snap> := None;
      if Eligible(corpus[k]) && HalfOf(days, corpus[k]).Some? {
        entry := Fire(choice, threshold, corpus[k]);
      }
      entries := entries + [entry];
    }
  }

  /** Eligible is what T0 fires on, and only what T0 fires on is entered by any trigger. */
  lemma EligibleIsBaseline(corpus: Corpus, choice: Choice, capSol: real, i: nat)
    requires i < |corpus|
    ensures Eligible(corpus[i]) <==> Fires(Baseline, corpus[i])
    ensures EntryOf(corpus, choice, capSol, i).Some? ==> Fires(Baseline, corpus[i])
    ensures EntryOf(corpus, Given(Baseline), capSol, i).Some? <==> Eligible(corpus[i])
  {
    GivenEntryIsItsFire(corpus, Baseline, capSol, i);
    var e := FireIndex(Baseline, corpus[i], 0);
    if Fires(Baseline, corpus[i]) {
      assert InWindow(corpus[i][e]) && corpus[i][e].mcapSol.Some?;
    }
  }

  // ---- T0 to T5 never look ahead ----

  /** A given trigger enters at its own fire: what it accepts already makes the mint eligible and dated. */
  lemma GivenEntryIsItsFire(corpus: Corpus, trigger: Trigger, capSol: real, i: nat)
    requires i < |corpus| && !trigger.Control?
    ensures EntryOf(corpus, Given(trigger), capSol, i)
         == if Fires(trigger, corpus[i]) then Some(FireIndex(trigger, corpus[i], 0)) else None
  {
    if Fires(trigger, corpus[i]) {
      var e := FireIndex(trigger, corpus[i], 0);
      assert InWindow(corpus[i][e]) && corpus[i][e].mcapSol.Some?;
    }
  }

  /**
   * Two mints of any two corpora that agree on their first `k` snapshots have the same entry by
   * then, or neither has one: nothing later, and no other mint, has any say.
   */
  lemma GivenNeverLooksAhead(corpus: Corpus, other: Corpus, trigger: Trigger, capSol: real, i: nat, j: nat, k: nat,
                             e: nat)
    requires i < |corpus| && j < |other| && !trigger.Control?
    requires e < k <= |corpus[i]| && k <= |other[j]| && corpus[i][..k] == other[j][..k]
    ensures EntryOf(corpus, Given(trigger), capSol, i) == Some(e) <==>
      EntryOf(other, Given(trigger), capSol, j) == Some(e)
  {
    GivenEntryIsItsFire(corpus, trigger, capSol, i);
    GivenEntryIsItsFire(other, trigger, capSol, j);
    DecidedByPrefix(trigger, corpus[i], k);
    DecidedByPrefix(trigger, other[j], k);
  }

  // ---- replacing one mint's future ----

  /** The corpus in which everything mint `i` did after snapshot `e` happened differently. */
  function WithFuture(corpus: Corpus, i: nat, e: nat, future: seq<Snap>): Corpus
    requires i < |corpus| && e < |corpus[i]|
  {
    corpus[i := corpus[i][..e + 1] + future]
  }

  lemma {:induction false} FirstKept(seen: seq<Snap>, future: seq<Snap>)
    requires exists k :: 0 <= k < |seen| && InWindow(seen[k])
    ensures FirstInWindow(seen + future) == FirstInWindow(seen)
  {
    if InWindow(seen[0]) {
    } else {
      var k :| 0 <= k < |seen| && InWindow(seen[k]);
      assert seen[1..][k - 1] == seen[k];
      assert (seen + future)[1..] == seen[1..] + future;
      FirstKept(seen[1..], future);
    }
  }

  /** A future after an in-window snapshot changes neither the mint's day nor the split. */
  lemma FutureKeepsSplit(corpus: Corpus, i: nat, e: nat, future: seq<Snap>)
    requires i < |corpus| && e < |corpus[i]| && InWindow(corpus[i][e])
    ensures EntryDay(WithFuture(corpus, i, e, future)[i]) == EntryDay(corpus[i])
    ensures Days(WithFuture(corpus, i, e, future)) == Days(corpus)
  {
    var seen, other := corpus[i][..e + 1], WithFuture(corpus, i, e, future);
    assert seen[e] == corpus[i][e];
    FirstKept(seen, future);
    FirstKept(seen, corpus[i][e + 1..]);
    assert corpus[i] == seen + corpus[i][e + 1..];
    assert forall k :: 0 <= k < |corpus| ==> EntryDay(other[k]) == EntryDay(corpus[k]);
  }

  lemma {:induction false} FitMintsApart(days: set<int>, corpus: Corpus, other: Corpus, lo: nat, hi: nat)
    requires lo <= hi <= |corpus| && |other| == |corpus| && forall k :: lo <= k < hi ==> other[k] == corpus[k]
    ensures FitMints(days, other, lo, hi) == FitMints(days, corpus, lo, hi)
    decreases hi - lo
  {
    if lo == hi {
    } else {
      FitMintsApart(days, corpus, other, lo, hi - 1);
    }
  }

  lemma {:induction false} FitMintsAround(days: set<int>, corpus: Corpus, i: nat, hi: nat)
    requires i < hi <= |corpus|
    ensures FitMints(days, corpus, 0, hi)
         == FitMints(days, corpus, 0, i) + (if InFit(days, corpus[i]) then [corpus[i]] else [])
            + FitMints(days, corpus, i + 1, hi)
    decreases hi
  {
    if hi == i + 1 {
    } else {
      FitMintsAround(days, corpus, i, hi - 1);
    }
  }

  // ---- a holdout mint's control entry ----

  lemma HoldoutKeepsThreshold(corpus: Corpus, field: Field, capSol: real, i: nat, e: nat, future: seq<Snap>)
    requires i < |corpus| && e < |corpus[i]| && InWindow(corpus[i][e])
    requires HalfOf(Days(corpus), corpus[i]) == Some(Holdout)
    ensures TriggerOf(WithFuture(corpus, i, e, future), Fitted(field), capSol) ==
      TriggerOf(corpus, Fitted(field), capSol)
  {
    var days, other, n := Days(corpus), WithFuture(corpus, i, e, future), |corpus|;
    FutureKeepsSplit(corpus, i, e, future);
    FitMintsAround(days, corpus, i, n);
    FitMintsAround(days, other, i, n);
    FitMintsApart(days, corpus, other, 0, i);
    FitMintsApart(days, corpus, other, i + 1, n);
  }

  lemma EligibleKept(seen: seq<Snap>, future: seq<Snap>)
    requires Eligible(seen)
    ensures Eligible(seen + future)
  {
    var k :| 0 <= k < |seen| && InWindow(seen[k]) && seen[k].mcapSol.Some?;
    assert (seen + future)[k] == seen[k];
  }

  /**
   * A holdout mint's T6 or T7 entry stands whatever follows it exactly when a snapshot up to
   * the entry already had a market cap; otherwise it hangs on a market cap still to come.
   */
  lemma HoldoutEntryStandsExactlyWhen(corpus: Corpus, field: Field, capSol: real, i: nat, e: nat)
    requires i < |corpus| && HalfOf(Days(corpus), corpus[i]) == Some(Holdout)
    requires EntryOf(corpus, Fitted(field), capSol, i) == Some(e)
    ensures (forall future :: EntryOf(WithFuture(corpus, i, e, future), Fitted(field), capSol, i) == Some(e))
       <==> Eligible(corpus[i][..e + 1])
  {
    var trigger, seen := TriggerOf(corpus, Fitted(field), capSol), corpus[i][..e + 1];
    forall future
      ensures EntryOf(WithFuture(corpus, i, e, future), Fitted(field), capSol, i) == Some(e) <==>
        Eligible(seen + future)
    {
      HoldoutKeepsThreshold(corpus, field, capSol, i, e, future);
      FutureKeepsSplit(corpus, i, e, future);
      NoLookAhead(trigger, corpus[i], future);
    }
    if Eligible(seen) {
      forall future ensures EntryOf(WithFuture(corpus, i, e, future), Fitted(field), capSol, i) == Some(e) {
        EligibleKept(seen, future);
      }
    } else {
      assert seen + [] == seen;
      assert EntryOf(WithFuture(corpus, i, e, []), Fitted(field), capSol, i) != Some(e);
    }
  }

  // ---- a fit mint's control entry: the threshold by counting ----

  function Above(y: real): real -> bool {
    (v: real) => v > y
  }

  /** The rank the threshold has from the top: the wanted count, or the last when it is out of range. */
  function Rank(wanted: int, n: nat): int {
    if 1 <= wanted <= n then wanted else n
  }

  lemma {:induction false} CountBounds(xs: seq<real>, p: real -> bool, i: nat)
    requires i <= |xs|
    ensures (forall j :: 0 <= j < i ==> !p(xs[j])) ==> Count(xs, p) <= |xs| - i
    ensures (forall j :: i <= j < |xs| ==> p(xs[j])) ==> Count(xs, p) >= |xs| - i
  {
    if xs == [] {
    } else {
      CountBounds(xs[1..], p, if i == 0 then 0 else i - 1);
    }
  }

  lemma {:induction false} CountApart(xs: seq<real>, ys: seq<real>, p: real -> bool)
    ensures Count(xs + ys, p) == Count(xs, p) + Count(ys, p)
  {
    if xs == [] {
      assert xs + ys == ys;
    } else {
      assert (xs + ys)[1..] == xs[1..] + ys;
      CountApart(xs[1..], ys, p);
    }
  }

  /** A fitted threshold is at most `y` exactly when fewer values than its rank lie above `y`. */
  lemma ThresholdAtMost(values: seq<real>, wanted: int, y: real)
    requires values != []
    ensures var threshold := ThresholdAt(SortBy(values, Identity), wanted);
            threshold.Some? && (threshold.value <= y <==> Count(values, Above(y)) < Rank(wanted, |values|))
  {
    var sorted := SortBy(values, Identity);
    SortKeeps(values, Identity);
    SortAscends(values, Identity);
    RealAscends(sorted);
    SortCount(values, Above(y));
    var at := |sorted| - Rank(wanted, |values|);
    assert ThresholdAt(sorted, wanted) == Some(sorted[at]);
    if sorted[at] <= y {
      CountBounds(sorted, Above(y), at + 1);
    } else {
      CountBounds(sorted, Above(y), at);
    }
  }

  lemma {:induction false} ValuesApart(field: Field, xs: seq<seq<Snap>>, ys: seq<seq<Snap>>)
    ensures Values(field, xs + ys) == Values(field, xs) + Values(field, ys)
  {
    if xs == [] {
      assert xs + ys == ys;
    } else {
      assert (xs + ys)[1..] == xs[1..] + ys && (xs + ys)[0] == xs[0];
      ValuesApart(field, xs[1..], ys);
      var v := Best(field, xs[0], |xs[0]|);
      var here := if v.Some? then [v.value] else [];
      assert Values(field, xs) == here + Values(field, xs[1..]);
      assert Values(field, xs + ys) == here + (Values(field, xs[1..]) + Values(field, ys));
    }
  }

  lemma {:induction false} FireCountApart(trigger: Trigger, xs: seq<seq<Snap>>, ys: seq<seq<Snap>>)
    ensures FireCount(trigger, xs + ys) == FireCount(trigger, xs) + FireCount(trigger, ys)
  {
    if xs == [] {
      assert xs + ys == ys;
    } else {
      assert (xs + ys)[1..] == xs[1..] + ys;
      FireCountApart(trigger, xs[1..], ys);
    }
  }

  /** The fit mints other than mint `i`. */
  function OtherFit(corpus: Corpus, i: nat): seq<seq<Snap>>
    requires i < |corpus|
  {
    FitMints(Days(corpus), corpus, 0, i) + FitMints(Days(corpus), corpus, i + 1, |corpus|)
  }

  /** How many other fit mints have a value above `y`. */
  function OthersAbove(corpus: Corpus, field: Field, i: nat, y: real): nat
    requires i < |corpus|
  {
    Count(Values(field, OtherFit(corpus, i)), Above(y))
  }

  /** One mint among others adds its own best value. */
  lemma ValuesWithOne(field: Field, xs: seq<seq<Snap>>, ys: seq<seq<Snap>>, a: seq<Snap>, y: real)
    requires Best(field, a, |a|).Some?
    ensures var all, others, best := Values(field, xs + [a] + ys), Values(field, xs + ys), Best(field, a, |a|).value;
            |all| == |others| + 1 && Count(all, Above(y)) == Count(others, Above(y)) + (if best > y then 1 else 0)
  {
    var vx, vy, best := Values(field, xs), Values(field, ys), Best(field, a, |a|).value;
    ValuesApart(field, xs, ys);
    ValuesApart(field, xs + [a], ys);
    ValuesApart(field, xs, [a]);
    assert Values(field, [a]) == [best] + Values(field, [a][1..]) == [best];
    CountApart(vx, vy, Above(y));
    CountApart(vx + [best], vy, Above(y));
    CountApart(vx, [best], Above(y));
    assert Count([best], Above(y)) == (if best > y then 1 else 0) + Count([best][1..], Above(y));
  }

  lemma FireCountWithOne(trigger: Trigger, xs: seq<seq<Snap>>, ys: seq<seq<Snap>>, a: seq<Snap>)
    ensures FireCount(trigger, xs + [a] + ys) == FireCount(trigger, xs + ys) + (if Fires(trigger, a) then 1 else 0)
  {
    FireCountApart(trigger, xs, ys);
    FireCountApart(trigger, xs + [a], ys);
    FireCountApart(trigger, xs, [a]);
    assert FireCount(trigger, [a]) == (if Fires(trigger, a) then 1 else 0) + FireCount(trigger, [a][1..]);
  }

  lemma FittedAtMost(field: Field, fitMints: seq<seq<Snap>>, capSol: real, y: real)
    requires Values(field, fitMints) != []
    ensures var values := Values(field, fitMints);
            var threshold := FittedThreshold(field, fitMints, capSol);
            threshold.Some?
            && (threshold.value <= y
                <==> Count(values, Above(y)) < Rank(FireCount(Tier(capSol, None), fitMints), |values|))
  {
    var fires := FireCount(Tier(capSol, None), fitMints);
    WantedIsT1Count(fires, |fitMints|);
    ThresholdAtMost(Values(field, fitMints), fires, y);
  }

  /** What one fit mint `a` between others contributes to the fitted threshold. */
  lemma ThresholdWithOne(field: Field, xs: seq<seq<Snap>>, ys: seq<seq<Snap>>, a: seq<Snap>, capSol: real, y: real)
    requires Best(field, a, |a|).Some?
    ensures var others, best := xs + ys, Best(field, a, |a|).value;
            var t1 := FireCount(Tier(capSol, None), others) + (if Fires(Tier(capSol, None), a) then 1 else 0);
            var threshold := FittedThreshold(field, xs + [a] + ys, capSol);
            threshold.Some?
            && (threshold.value <= y
                <==> Count(Values(field, others), Above(y)) + (if best > y then 1 else 0)
                     < Rank(t1, |Values(field, others)| + 1))
  {
    ValuesWithOne(field, xs, ys, a, y);
    FireCountWithOne(Tier(capSol, None), xs, ys, a);
    FittedAtMost(field, xs + [a] + ys, capSol, y);
  }

  // ---- when a fit mint's entry stands ----

  /**
   * The threshold that `wanted` selects stays at or below the entry's value, and above every
   * earlier one, when the mint's own best value lies (`higher`) or does not lie above the entry's.
   */
  predicate Stands(corpus: Corpus, field: Field, i: nat, e: nat, wanted: int, higher: bool)
    requires i < |corpus| && e < |corpus[i]| && Pick(field, corpus[i][e]).Some?
  {
    var rank := Rank(wanted, |Values(field, OtherFit(corpus, i))| + 1);
    && OthersAbove(corpus, field, i, Pick(field, corpus[i][e]).value) + (if higher then 1 else 0) < rank
    && forall j :: 0 <= j < e && InWindow(corpus[i][j]) && Pick(field, corpus[i][j]).Some? ==>
         rank <= OthersAbove(corpus, field, i, Pick(field, corpus[i][j]).value) + 1
  }

  /** T1's count over the fit half when mint `i` has these snapshots. */
  function T1Count(corpus: Corpus, capSol: real, i: nat, snaps: seq<Snap>): nat
    requires i < |corpus|
  {
    FireCount(Tier(capSol, None), OtherFit(corpus, i)) + (if Fires(Tier(capSol, None), snaps) then 1 else 0)
  }

  /** The fitted threshold in the corpus where fit mint `i` has another future. */
  lemma FitThreshold(corpus: Corpus, field: Field, capSol: real, i: nat, e: nat, future: seq<Snap>, y: real)
    requires i < |corpus| && e < |corpus[i]| && InWindow(corpus[i][e])
    requires HalfOf(Days(corpus), corpus[i]) == Some(Fit)
    requires var snaps := WithFuture(corpus, i, e, future)[i];
             Eligible(snaps) && Best(field, snaps, |snaps|).Some?
    ensures var other := WithFuture(corpus, i, e, future);
            var threshold := TriggerOf(other, Fitted(field), capSol).threshold;
            threshold.Some?
            && (threshold.value <= y
                <==> OthersAbove(corpus, field, i, y) + (if Best(field, other[i], |other[i]|).value > y then 1 else 0)
                     < Rank(T1Count(corpus, capSol, i, other[i]), |Values(field, OtherFit(corpus, i))| + 1))
  {
    var days, other, n := Days(corpus), WithFuture(corpus, i, e, future), |corpus|;
    FitMintsWith(corpus, i, e, future);
    ThresholdWithOne(field, FitMints(days, corpus, 0, i), FitMints(days, corpus, i + 1, n), other[i], capSol, y);
  }

  lemma FitMintsWith(corpus: Corpus, i: nat, e: nat, future: seq<Snap>)
    requires i < |corpus| && e < |corpus[i]| && InWindow(corpus[i][e])
    requires HalfOf(Days(corpus), corpus[i]) == Some(Fit) && Eligible(WithFuture(corpus, i, e, future)[i])
    ensures var days, other := Days(corpus), WithFuture(corpus, i, e, future);
            FitMints(Days(other), other, 0, |other|)
            == FitMints(days, corpus, 0, i) + [other[i]] + FitMints(days, corpus, i + 1, |corpus|)
  {
    var days, other, n := Days(corpus), WithFuture(corpus, i, e, future), |corpus|;
    FutureKeepsSplit(corpus, i, e, future);
    FitMintsAround(days, other, i, n);
    FitMintsApart(days, corpus, other, 0, i);
    FitMintsApart(days, corpus, other, i + 1, n);
  }

  /** A control enters at `e` exactly when its threshold is at most that value and above all earlier ones. */
  lemma ControlEntersAt(field: Field, threshold: real, snaps: seq<Snap>, e: nat)
    requires e < |snaps| && InWindow(snaps[e]) && Pick(field, snaps[e]).Some?
    ensures FireIndex(Control(field, Some(threshold)), snaps, 0) == e
       <==> threshold <= Pick(field, snaps[e]).value
            && forall j :: 0 <= j < e && InWindow(snaps[j]) && Pick(field, snaps[j]).Some? ==>
                 !(threshold <= Pick(field, snaps[j]).value)
  {
    var trigger := Control(field, Some(threshold));
    if threshold <= Pick(field, snaps[e]).value
      && forall j :: 0 <= j < e && InWindow(snaps[j]) && Pick(field, snaps[j]).Some? ==>
           !(threshold <= Pick(field, snaps[j]).value)
    {
      FirstAccepted(trigger, snaps, e);
    }
  }

  /** What was seen up to the entry stays, and the best value is at least the entry's. */
  lemma BestFromEntry(field: Field, snaps: seq<Snap>, e: nat)
    requires e < |snaps| && InWindow(snaps[e]) && Pick(field, snaps[e]).Some?
    ensures var best := Best(field, snaps, |snaps|);
            best.Some? && Pick(field, snaps[e]).value <= best.value
  {
    var x := Pick(field, snaps[e]).value;
    assert Accepts(Control(field, Some(x)), snaps[0], snaps[e]);
    BestIsReached(field, snaps, |snaps|, x);
  }

  /** With a given other future, a fit mint's control entry stands exactly by these counts. */
  lemma FitEntryWithFuture(corpus: Corpus, field: Field, capSol: real, i: nat, e: nat, future: seq<Snap>)
    requires i < |corpus| && HalfOf(Days(corpus), corpus[i]) == Some(Fit)
    requires EntryOf(corpus, Fitted(field), capSol, i) == Some(e)
    ensures Pick(field, corpus[i][e]).Some?
    ensures var snaps := WithFuture(corpus, i, e, future)[i]; Best(field, snaps, |snaps|).Some?
    ensures var other, v := WithFuture(corpus, i, e, future), Pick(field, corpus[i][e]).value;
            EntryOf(other, Fitted(field), capSol, i) == Some(e) <==>
              Eligible(other[i])
              && Stands(corpus, field, i, e, T1Count(corpus, capSol, i, other[i]),
                        Best(field, other[i], |other[i]|).value > v)
  {
    var other, snaps := WithFuture(corpus, i, e, future), WithFuture(corpus, i, e, future)[i];
    var trigger := TriggerOf(corpus, Fitted(field), capSol);
    assert Accepts(trigger, corpus[i][0], corpus[i][e]);
    assert forall j :: 0 <= j <= e ==> snaps[j] == corpus[i][j];
    FutureKeepsSplit(corpus, i, e, future);
    BestFromEntry(field, snaps, e);
    if Eligible(snaps) {
      var threshold := TriggerOf(other, Fitted(field), capSol).threshold;
      FitThreshold(corpus, field, capSol, i, e, future, Pick(field, corpus[i][e]).value);
      ControlEntersAt(field, threshold.value, snaps, e);
      forall j | 0 <= j < e && InWindow(corpus[i][j]) && Pick(field, corpus[i][j]).Some?
        ensures var y := Pick(field, corpus[i][j]).value;
                !(threshold.value <= y) <==>
                  Rank(T1Count(corpus, capSol, i, snaps), |Values(field, OtherFit(corpus, i))| + 1)
                  <= OthersAbove(corpus, field, i, y) + 1
      {
        EarlierAgainst(corpus, field, capSol, i, e, future, j);
      }
    }
  }

  /** The other future's threshold against one earlier value. */
  lemma EarlierAgainst(corpus: Corpus, field: Field, capSol: real, i: nat, e: nat, future: seq<Snap>, j: nat)
    requires i < |corpus| && HalfOf(Days(corpus), corpus[i]) == Some(Fit)
    requires EntryOf(corpus, Fitted(field), capSol, i) == Some(e) && Pick(field, corpus[i][e]).Some?
    requires j < e && InWindow(corpus[i][j]) && Pick(field, corpus[i][j]).Some?
    requires Eligible(WithFuture(corpus, i, e, future)[i])
    ensures var other, y := WithFuture(corpus, i, e, future), Pick(field, corpus[i][j]).value;
            var threshold := TriggerOf(other, Fitted(field), capSol).threshold;
            threshold.Some?
            && (!(threshold.value <= y) <==>
                  Rank(T1Count(corpus, capSol, i, other[i]), |Values(field, OtherFit(corpus, i))| + 1)
                  <= OthersAbove(corpus, field, i, y) + 1)
  {
    var snaps := WithFuture(corpus, i, e, future)[i];
    assert snaps[e] == corpus[i][e];
    BestFromEntry(field, snaps, e);
    EarlierIsLower(corpus, field, capSol, i, e, j);
    FitThreshold(corpus, field, capSol, i, e, future, Pick(field, corpus[i][j]).value);
  }

  /** Every in-window value before the entry lies below the entry's. */
  lemma EarlierIsLower(corpus: Corpus, field: Field, capSol: real, i: nat, e: nat, j: nat)
    requires i < |corpus| && EntryOf(corpus, Fitted(field), capSol, i) == Some(e) && Pick(field, corpus[i][e]).Some?
    requires j < e && InWindow(corpus[i][j]) && Pick(field, corpus[i][j]).Some?
    ensures Pick(field, corpus[i][j]).value < Pick(field, corpus[i][e]).value
  {
    var trigger := TriggerOf(corpus, Fitted(field), capSol);
    assert Accepts(trigger, corpus[i][0], corpus[i][e]) && !Accepts(trigger, corpus[i][0], corpus[i][j]);
  }

  /** A later snapshot with more of both fields, with or without a market cap. */
  function Later(s: Snap, v: real, mcapSol: Option<real>): Snap {
    Snap(s.age, s.t, None, mcapSol, Some(v), Some(v))
  }

  lemma FiresKept(trigger: Trigger, seen: seq<Snap>, future: seq<Snap>)
    requires seen != []
    ensures Fires(trigger, seen) ==> Fires(trigger, seen + future)
  {
    assert (seen + future)[..|seen|] == seen;
    DecidedByPrefix(trigger, seen + future, |seen|);
  }

  lemma StandsWith(corpus: Corpus, field: Field, capSol: real, i: nat, e: nat, future: seq<Snap>)
    requires i < |corpus| && HalfOf(Days(corpus), corpus[i]) == Some(Fit)
    requires EntryOf(corpus, Fitted(field), capSol, i) == Some(e) && Pick(field, corpus[i][e]).Some?
    requires Eligible(corpus[i][..e + 1])
    requires Stands(corpus, field, i, e, T1Count(corpus, capSol, i, corpus[i][..e + 1]), true)
    requires Stands(corpus, field, i, e, FireCount(Tier(capSol, None), OtherFit(corpus, i)) + 1, true)
    ensures EntryOf(WithFuture(corpus, i, e, future), Fitted(field), capSol, i) == Some(e)
  {
    var seen := corpus[i][..e + 1];
    FitEntryWithFuture(corpus, field, capSol, i, e, future);
    EligibleKept(seen, future);
    FiresKept(Tier(capSol, None), seen, future);
  }

  /**
   * A fit mint's T6 or T7 entry stands whatever follows it exactly when a snapshot up to it had
   * a market cap, and the counts hold with T1 firing on the mint later or not at all, even if
   * its own value rises above the entry's: fewer other fit mints above the entry's value than
   * one less than the rank, and at least that many above each earlier value.
   */
  lemma FitEntryStandsExactlyWhen(corpus: Corpus, field: Field, capSol: real, i: nat, e: nat)
    requires i < |corpus| && HalfOf(Days(corpus), corpus[i]) == Some(Fit)
    requires EntryOf(corpus, Fitted(field), capSol, i) == Some(e)
    ensures Pick(field, corpus[i][e]).Some?
    ensures var seen := corpus[i][..e + 1];
            var without := T1Count(corpus, capSol, i, seen);
            var fired := FireCount(Tier(capSol, None), OtherFit(corpus, i)) + 1;
            (forall future :: EntryOf(WithFuture(corpus, i, e, future), Fitted(field), capSol, i) == Some(e)) <==>
              Eligible(seen) && Stands(corpus, field, i, e, without, true) && Stands(corpus, field, i, e, fired, true)
  {
    FitEntryWithFuture(corpus, field, capSol, i, e, []);
    var seen := corpus[i][..e + 1];
    var without, fired := T1Count(corpus, capSol, i, seen), FireCount(Tier(capSol, None), OtherFit(corpus, i)) + 1;
    if Eligible(seen) && Stands(corpus, field, i, e, without, true) && Stands(corpus, field, i, e, fired, true) {
      forall future ensures EntryOf(WithFuture(corpus, i, e, future), Fitted(field), capSol, i) == Some(e) {
        StandsWith(corpus, field, capSol, i, e, future);
      }
    } else {
      var future := MovedByFuture(corpus, field, capSol, i, e);
    }
  }

  /** A later snapshot without a market cap leaves T1's count alone. */
  lemma QuietCounts(corpus: Corpus, capSol: real, i: nat, seen: seq<Snap>, s: Snap, v: real)
    requires i < |corpus| && seen != [] && InWindow(s)
    ensures T1Count(corpus, capSol, i, seen + [Later(s, v, None)]) == T1Count(corpus, capSol, i, seen)
  {
    OneMore(Tier(capSol, None), seen, Later(s, v, None));
  }

  /** One at T1's threshold makes the mint count. */
  lemma T1Counts(corpus: Corpus, capSol: real, i: nat, seen: seq<Snap>, s: Snap, v: real)
    requires i < |corpus| && seen != [] && InWindow(s)
    ensures T1Count(corpus, capSol, i, seen + [Later(s, v, Some(capSol))])
         == FireCount(Tier(capSol, None), OtherFit(corpus, i)) + 1
  {
    OneMore(Tier(capSol, None), seen, Later(s, v, Some(capSol)));
  }

  /** One of three futures moves the entry: none, a higher value, or a higher value with T1 firing. */
  lemma MovedByFuture(corpus: Corpus, field: Field, capSol: real, i: nat, e: nat) returns (future: seq<Snap>)
    requires i < |corpus| && HalfOf(Days(corpus), corpus[i]) == Some(Fit)
    requires EntryOf(corpus, Fitted(field), capSol, i) == Some(e) && Pick(field, corpus[i][e]).Some?
    requires var seen := corpus[i][..e + 1];
             var without := T1Count(corpus, capSol, i, seen);
             var fired := FireCount(Tier(capSol, None), OtherFit(corpus, i)) + 1;
             !(Eligible(seen) && Stands(corpus, field, i, e, without, true) && Stands(corpus, field, i, e, fired, true))
    ensures EntryOf(WithFuture(corpus, i, e, future), Fitted(field), capSol, i) != Some(e)
  {
    var seen := corpus[i][..e + 1];
    if !Eligible(seen) {
      future := [];
      assert seen + [] == seen;
      FitEntryWithFuture(corpus, field, capSol, i, e, []);
    } else if !Stands(corpus, field, i, e, T1Count(corpus, capSol, i, seen), true) {
      future := MovedQuietly(corpus, field, capSol, i, e);
    } else {
      future := MovedWithT1(corpus, field, capSol, i, e);
    }
  }

  lemma MovedQuietly(corpus: Corpus, field: Field, capSol: real, i: nat, e: nat) returns (future: seq<Snap>)
    requires i < |corpus| && HalfOf(Days(corpus), corpus[i]) == Some(Fit)
    requires EntryOf(corpus, Fitted(field), capSol, i) == Some(e) && Pick(field, corpus[i][e]).Some?
    requires !Stands(corpus, field, i, e, T1Count(corpus, capSol, i, corpus[i][..e + 1]), true)
    ensures EntryOf(WithFuture(corpus, i, e, future), Fitted(field), capSol, i) != Some(e)
  {
    var seen, s, v := corpus[i][..e + 1], corpus[i][e], Pick(field, corpus[i][e]).value;
    QuietCounts(corpus, capSol, i, seen, s, v + 1.0);
    HigherMoves(corpus, field, capSol, i, e, None, T1Count(corpus, capSol, i, seen));
    future := [Later(s, v + 1.0, None)];
  }

  lemma MovedWithT1(corpus: Corpus, field: Field, capSol: real, i: nat, e: nat) returns (future: seq<Snap>)
    requires i < |corpus| && HalfOf(Days(corpus), corpus[i]) == Some(Fit)
    requires EntryOf(corpus, Fitted(field), capSol, i) == Some(e) && Pick(field, corpus[i][e]).Some?
    requires !Stands(corpus, field, i, e, FireCount(Tier(capSol, None), OtherFit(corpus, i)) + 1, true)
    ensures EntryOf(WithFuture(corpus, i, e, future), Fitted(field), capSol, i) != Some(e)
  {
    var seen, s, v := corpus[i][..e + 1], corpus[i][e], Pick(field, corpus[i][e]).value;
    T1Counts(corpus, capSol, i, seen, s, v + 1.0);
    HigherMoves(corpus, field, capSol, i, e, Some(capSol), FireCount(Tier(capSol, None), OtherFit(corpus, i)) + 1);
    future := [Later(s, v + 1.0, Some(capSol))];
  }

  lemma HigherMoves(corpus: Corpus, field: Field, capSol: real, i: nat, e: nat, mcapSol: Option<real>, wanted: nat)
    requires i < |corpus| && HalfOf(Days(corpus), corpus[i]) == Some(Fit)
    requires EntryOf(corpus, Fitted(field), capSol, i) == Some(e) && Pick(field, corpus[i][e]).Some?
    requires var later := Later(corpus[i][e], Pick(field, corpus[i][e]).value + 1.0, mcapSol);
             T1Count(corpus, capSol, i, corpus[i][..e + 1] + [later]) == wanted
    requires !Stands(corpus, field, i, e, wanted, true)
    ensures var later := Later(corpus[i][e], Pick(field, corpus[i][e]).value + 1.0, mcapSol);
            EntryOf(WithFuture(corpus, i, e, [later]), Fitted(field), capSol, i) != Some(e)
  {
    var later := Later(corpus[i][e], Pick(field, corpus[i][e]).value + 1.0, mcapSol);
    BestFromEntry(field, corpus[i][..e + 1] + [later], e + 1);
    FitEntryWithFuture(corpus, field, capSol, i, e, [later]);
  }

  /** One more snapshot makes a trigger fire if it did before, or if it accepts that one. */
  lemma OneMore(trigger: Trigger, seen: seq<Snap>, s: Snap)
    requires seen != []
    ensures Fires(trigger, seen + [s]) <==> Fires(trigger, seen) || Accepts(trigger, seen[0], s)
  {
    var longer := seen + [s];
    assert longer[..|seen|] == seen && longer[|seen|] == s && longer[0] == seen[0];
    DecidedByPrefix(trigger, longer, |seen|);
    if !Fires(trigger, seen) && Accepts(trigger, seen[0], s) {
      assert forall j :: 0 <= j < |seen| ==> longer[j] == seen[j];
      FirstAccepted(trigger, longer, |seen|);
    }
  }

  /** When T1 fires on no other fit mint, every control entry of the fit half can be moved by its own future. */
  lemma AloneAtT1AlwaysMoves(corpus: Corpus, field: Field, capSol: real, i: nat, e: nat) returns (future: seq<Snap>)
    requires i < |corpus| && HalfOf(Days(corpus), corpus[i]) == Some(Fit)
    requires EntryOf(corpus, Fitted(field), capSol, i) == Some(e)
    requires FireCount(Tier(capSol, None), OtherFit(corpus, i)) == 0
    ensures EntryOf(WithFuture(corpus, i, e, future), Fitted(field), capSol, i) != Some(e)
  {
    FitEntryStandsExactlyWhen(corpus, field, capSol, i, e);
    assert !Stands(corpus, field, i, e, 1, true);
    future :| EntryOf(WithFuture(corpus, i, e, future), Fitted(field), capSol, i) != Some(e);
  }

  /** An inflow seen two minutes in, with a market cap. */
  function Inflow(netInflowSol: real, mcapSol: real): Snap {
    Snap(ENTRY_LO_MS, 0, None, Some(mcapSol), Some(netInflowSol), None)
  }

  /**
   * Two fit mints, T1 firing on the first. Its inflow of seven is entered at once; were the
   * snapshot after that entry ten instead of nothing, the same first snapshot would be passed over.
   */
  lemma FitHalfLooksAhead()
    ensures EntryOf([[Inflow(7.0, 1.0), Inflow(0.0, 1.0)], [Inflow(6.0, 0.0)]], Fitted(NetInflow), 1.0, 0) == Some(0)
    ensures EntryOf([[Inflow(7.0, 1.0), Inflow(10.0, 1.0)], [Inflow(6.0, 0.0)]], Fitted(NetInflow), 1.0, 0) == Some(1)
  {
    TwoMints(0.0);
    TwoMints(10.0);
  }

  lemma TwoMints(later: real)
    ensures EntryOf([[Inflow(7.0, 1.0), Inflow(later, 1.0)], [Inflow(6.0, 0.0)]], Fitted(NetInflow), 1.0, 0)
         == if later > 7.0 then Some(1) else Some(0)
  {
    var a, b := [Inflow(7.0, 1.0), Inflow(later, 1.0)], [Inflow(6.0, 0.0)];
    TwoFitMints(a, b);
    TwoMintsThreshold(later);
    var threshold := if later > 7.0 then later else 7.0;
    ControlEntersAt(NetInflow, threshold, a, 0);
    ControlEntersAt(NetInflow, threshold, a, 1);
  }

  /** Mints first seen on one day are all in the fit half. */
  lemma TwoFitMints(a: seq<Snap>, b: seq<Snap>)
    requires a != [] && b != [] && InWindow(a[0]) && InWindow(b[0]) && a[0].t == b[0].t == 0
    requires a[0].mcapSol.Some? && b[0].mcapSol.Some?
    ensures Eligible(a) && HalfOf(Days([a, b]), a) == Some(Fit)
    ensures FitMints(Days([a, b]), [a, b], 0, 2) == [a, b]
  {
    var corpus := [a, b];
    assert EntryDay(corpus[0]) == Some(0) && EntryDay(corpus[1]) == Some(0);
    var days := Days(corpus);
    assert days == {0};
    assert (set d | d in days && d < 0) == {};
    assert FitMints(days, corpus, 0, 1) == [a] && FitMints(days, corpus, 0, 2) == [a] + [b];
  }

  lemma TwoMintsThreshold(later: real)
    ensures FittedThreshold(NetInflow, [[Inflow(7.0, 1.0), Inflow(later, 1.0)], [Inflow(6.0, 0.0)]], 1.0)
         == Some(if later > 7.0 then later else 7.0)
  {
    var a, b, t1 := [Inflow(7.0, 1.0), Inflow(later, 1.0)], [Inflow(6.0, 0.0)], Tier(1.0, None);
    var corpus: Corpus := [a, b];
    var threshold := if later > 7.0 then later else 7.0;
    assert InWindow(a[0]) && InWindow(a[1]) && InWindow(b[0]);
    assert Best(NetInflow, a, 1) == Some(7.0) && Best(NetInflow, a, 2) == Some(threshold);
    assert Best(NetInflow, b, 1) == Some(6.0);
    var rest: Corpus := [b];
    assert corpus[1..] == rest && rest[1..] == [];
    assert Values(NetInflow, [b]) == [6.0] + Values(NetInflow, []) == [6.0];
    assert Values(NetInflow, corpus) == [threshold] + [6.0] == [threshold, 6.0];
    assert FireIndex(t1, a, 0) == 0 && FireIndex(t1, b, 0) == 1;
    assert FireCount(t1, [b]) == 0 + FireCount(t1, []) && FireCount(t1, corpus) == 1;
    WantedIsT1Count(1, 2);
    SortedPair(threshold, 6.0);
  }

  lemma SortedPair(x: real, y: real)
    requires y < x
    ensures SortBy([x, y], Identity) == [y, x]
  {
    assert [x, y][1..] == [y] && [y][1..] == [];
    assert SortBy([], Identity) == [];
    assert SortBy([y], Identity) == InsertBy(y, [], Identity) == [y];
    assert InsertBy(x, [y], Identity) == [y] + InsertBy(x, [], Identity);
  }
}
