/**
 * Event-triggered entry: when a trigger fires on a mint's snapshots, and how the control
 * triggers' thresholds are matched to the first trigger's selectivity
 * (scripts/phase-b-triggers.ts).
 */
module Triggers {
  import opened Prelude
  import opened Sorting

  const ENTRY_LO_MS := 2 * 60_000
  const ENTRY_HI_MS := 45 * 60_000
  const T4_WITHIN_MS := 600_000
  const T5_WITHIN_MS := 1_800_000

  datatype Snap = Snap(
    age: int,
    t: int,
    priceSol: Option<real>,
    mcapSol: Option<real>,
    netInflowSol: Option<real>,
    holderChange5m: Option<real>
  )

  predicate InWindow(s: Snap) {
    ENTRY_LO_MS <= s.age <= ENTRY_HI_MS
  }

  datatype Field = NetInflow | HolderChange

  function Pick(field: Field, s: Snap): Option<real> {
    match field
    case NetInflow => s.netInflowSol
    case HolderChange => s.holderChange5m
  }

  /** T6 reads the inflow and T7 the change in holders, and neither reads the other's field. */
  lemma FieldsAreApart(s: Snap, v: Option<real>)
    ensures Pick(NetInflow, s.(netInflowSol := v)) == v && Pick(HolderChange, s.(holderChange5m := v)) == v
    ensures Pick(NetInflow, s.(holderChange5m := v)) == Pick(NetInflow, s)
    ensures Pick(HolderChange, s.(netInflowSol := v)) == Pick(HolderChange, s)
  {
  }

  /** T0; T1 to T5, which share one shape; and the controls T6 and T7. */
  datatype Trigger =
    | Baseline
    | Tier(capSol: real, withinMs: Option<int>)
    | Control(field: Field, threshold: Option<real>)

  /** Whether the trigger accepts `s` as an entry, given the mint's first stored snapshot. */
  predicate Accepts(trigger: Trigger, first: Snap, s: Snap) {
    && InWindow(s)
    && match trigger
       case Baseline => s.mcapSol.Some?
       case Tier(capSol, withinMs) =>
         && s.mcapSol.Some? && capSol <= s.mcapSol.value
         && (withinMs.Some? ==> s.t - first.t <= withinMs.value)
       case Control(field, threshold) =>
         threshold.Some? && Pick(field, s).Some? && threshold.value <= Pick(field, s).value
  }

  /** The index of the snapshot the trigger enters at, or the length when it never fires. */
  function FireIndex(trigger: Trigger, snaps: seq<Snap>, from: nat): (i: nat)
    requires from <= |snaps|
    ensures from <= i <= |snaps|
    ensures i < |snaps| ==> Accepts(trigger, snaps[0], snaps[i])
    ensures forall j :: from <= j < i ==> !Accepts(trigger, snaps[0], snaps[j])
    decreases |snaps| - from
  {
    if from < |snaps| && !Accepts(trigger, snaps[0], snaps[from]) then FireIndex(trigger, snaps, from + 1)
    else from
  }

  predicate Fires(trigger: Trigger, snaps: seq<Snap>) {
    FireIndex(trigger, snaps, 0) < |snaps|
  }

  /** The tier triggers' loop, with its guards in the order the code tests them. */
  method FiresTier(snaps: seq<Snap>, capSol: real, withinMs: Option<int>) returns (entry: Option<Snap>)
    ensures var trigger := Tier(capSol, withinMs);
            entry == if Fires(trigger, snaps) then Some(snaps[FireIndex(trigger, snaps, 0)]) else None
  {
    for k := 0 to |snaps|
      invariant FireIndex(Tier(capSol, withinMs), snaps, 0) == FireIndex(Tier(capSol, withinMs), snaps, k)
    {
      var s := snaps[k];
      if s.age < ENTRY_LO_MS || s.age > ENTRY_HI_MS { continue; }
      if s.mcapSol.None? || s.mcapSol.value < capSol { continue; }
      if withinMs.Some? && s.t - snaps[0].t > withinMs.value { continue; }
      return Some(s);
    }
    return None;
  }

  /** The control triggers' loop. */
  method FiresControl(snaps: seq<Snap>, field: Field, threshold: Option<real>) returns (entry: Option<Snap>)
    ensures var trigger := Control(field, threshold);
            entry == if Fires(trigger, snaps) then Some(snaps[FireIndex(trigger, snaps, 0)]) else None
  {
    if threshold.None? {
      return None;
    }
    for k := 0 to |snaps|
      invariant FireIndex(Control(field, threshold), snaps, 0) == FireIndex(Control(field, threshold), snaps, k)
    {
      var s := snaps[k];
      if s.age < ENTRY_LO_MS || s.age > ENTRY_HI_MS { continue; }
      if Pick(field, s).None? { continue; }
      if Pick(field, s).value >= threshold.value {
        return Some(s);
      }
    }
    return None;
  }

  // ---- no trigger looks ahead ----

  lemma FirstAccepted(trigger: Trigger, snaps: seq<Snap>, i: nat)
    requires i < |snaps| && Accepts(trigger, snaps[0], snaps[i])
    requires forall j :: 0 <= j < i ==> !Accepts(trigger, snaps[0], snaps[j])
    ensures FireIndex(trigger, snaps, 0) == i
  {
  }

  /** What happened by any moment is decided by the snapshots up to that moment alone. */
  lemma DecidedByPrefix(trigger: Trigger, snaps: seq<Snap>, k: nat)
    requires k <= |snaps|
    ensures var i := FireIndex(trigger, snaps, 0);
            FireIndex(trigger, snaps[..k], 0) == if i < k then i else k
  {
    var i := FireIndex(trigger, snaps, 0);
    var seen := snaps[..k];
    assert forall j :: 0 <= j < k ==> seen[j] == snaps[j];
  }

  /** Replacing everything after the entry by any other future leaves the entry where it is. */
  lemma NoLookAhead(trigger: Trigger, snaps: seq<Snap>, future: seq<Snap>)
    requires Fires(trigger, snaps)
    ensures var i := FireIndex(trigger, snaps, 0);
            FireIndex(trigger, snaps[..i + 1] + future, 0) == i
  {
    var i := FireIndex(trigger, snaps, 0);
    var other := snaps[..i + 1] + future;
    assert forall j :: 0 <= j <= i ==> other[j] == snaps[j];
    FirstAccepted(trigger, other, i);
  }

  // ---- the tier triggers are nested ----

  /** A higher threshold, or a tighter clock, fires no earlier and only where the looser one fires. */
  lemma LooserFiresNoLater(a: Trigger, b: Trigger, snaps: seq<Snap>)
    requires forall first, s :: Accepts(b, first, s) ==> Accepts(a, first, s)
    ensures FireIndex(a, snaps, 0) <= FireIndex(b, snaps, 0)
  {
  }

  /** With tier thresholds that do not decrease, T3 implies T2 implies T1, T4 implies T1 and T5 implies T2. */
  lemma TierTriggersNest(t1: real, t2: real, t3: real, snaps: seq<Snap>)
    requires t1 <= t2 <= t3
    ensures var at := trigger => FireIndex(trigger, snaps, 0);
            && at(Tier(t1, None)) <= at(Tier(t2, None)) <= at(Tier(t3, None))
            && at(Tier(t1, None)) <= at(Tier(t1, Some(T4_WITHIN_MS)))
            && at(Tier(t2, None)) <= at(Tier(t2, Some(T5_WITHIN_MS)))
  {
    LooserFiresNoLater(Tier(t1, None), Tier(t2, None), snaps);
    LooserFiresNoLater(Tier(t2, None), Tier(t3, None), snaps);
    LooserFiresNoLater(Tier(t1, None), Tier(t1, Some(T4_WITHIN_MS)), snaps);
    LooserFiresNoLater(Tier(t2, None), Tier(t2, Some(T5_WITHIN_MS)), snaps);
  }

  /** A tier's threshold in whole SOL; a tier missing from the schedule reads as zero. */
  function ThresholdSol(lamports: seq<nat>, i: nat): nat {
    if i < |lamports| then lamports[i] / 1_000_000_000 else 0
  }

  /** Whole SOL of a billion lamports each, rounded down. */
  lemma ThresholdIsWholeSol(lamports: seq<nat>, i: nat)
    ensures i >= |lamports| ==> ThresholdSol(lamports, i) == 0
    ensures i < |lamports| ==>
      ThresholdSol(lamports, i) * 1_000_000_000 <= lamports[i] < (ThresholdSol(lamports, i) + 1) * 1_000_000_000
  {
  }

  /**
   * The nesting needs a schedule that reaches tier 3: with an ascending schedule the three
   * thresholds do not decrease exactly when no tier among them is missing above a positive one.
   */
  lemma ScheduleNestsExactlyWhen(lamports: seq<nat>)
    requires forall i, j :: 0 <= i < j < |lamports| ==> lamports[i] <= lamports[j]
    ensures ThresholdSol(lamports, 1) <= ThresholdSol(lamports, 2) <= ThresholdSol(lamports, 3)
      <==> |lamports| >= 4 || |lamports| <= 1 || ThresholdSol(lamports, |lamports| - 1) == 0
  {
    assert forall i, j :: 0 <= i < j < |lamports| ==> lamports[i] / 1_000_000_000 <= lamports[j] / 1_000_000_000;
  }

  ghost predicate ClockFollowsAge(snaps: seq<Snap>) {
    forall i, j :: 0 <= i < j < |snaps| ==> snaps[i].t <= snaps[j].t
  }

  /**
   * When wall time never runs back along a mint's snapshots, a clocked trigger fires at the
   * very snapshot its unclocked one does, and it fires exactly when that one beat the clock.
   */
  lemma ClockedEntryIsTheSame(capSol: real, withinMs: int, snaps: seq<Snap>)
    requires ClockFollowsAge(snaps)
    ensures var open, clocked := Tier(capSol, None), Tier(capSol, Some(withinMs));
            var i := FireIndex(open, snaps, 0);
            && (Fires(clocked, snaps) <==> i < |snaps| && snaps[i].t - snaps[0].t <= withinMs)
            && (Fires(clocked, snaps) ==> FireIndex(clocked, snaps, 0) == i)
  {
    var open, clocked := Tier(capSol, None), Tier(capSol, Some(withinMs));
    LooserFiresNoLater(open, clocked, snaps);
  }

  // ---- matching the controls to T1's selectivity ----

  /** The largest in-window value of a field among the first `n` snapshots. */
  function Best(field: Field, snaps: seq<Snap>, n: nat): Option<real>
    requires n <= |snaps|
  {
    if n == 0 then None
    else
      var best, v := Best(field, snaps, n - 1), Pick(field, snaps[n - 1]);
      if !InWindow(snaps[n - 1]) || v.None? then best
      else if best.None? || v.value > best.value then v
      else best
  }

  /** Named for the first value in the source, but what the loop keeps is the largest. */
  method FirstFieldValue(field: Field, snaps: seq<Snap>) returns (best: Option<real>)
    ensures best == Best(field, snaps, |snaps|)
  {
    best := None;
    for k := 0 to |snaps|
      invariant best == Best(field, snaps, k)
    {
      var s := snaps[k];
      if s.age < ENTRY_LO_MS || s.age > ENTRY_HI_MS { continue; }
      var v := Pick(field, s);
      if v.None? { continue; }
      if best.None? || v.value > best.value {
        best := v;
      }
    }
  }

  /** The first in-window value of a field among the first `n` snapshots, which the source's comment names. */
  function FirstOf(field: Field, snaps: seq<Snap>, n: nat): Option<real>
    requires n <= |snaps|
  {
    if n == 0 then None
    else
      var first := FirstOf(field, snaps, n - 1);
      if first.None? && InWindow(snaps[n - 1]) then Pick(field, snaps[n - 1]) else first
  }

  /** No in-window value among the first `n` snapshots exceeds `bound`. */
  predicate NoneExceeds(field: Field, snaps: seq<Snap>, n: nat, bound: real)
    requires n <= |snaps|
  {
    forall i :: 0 <= i < n && InWindow(snaps[i]) && Pick(field, snaps[i]).Some? ==> Pick(field, snaps[i]).value <= bound
  }

  /** What the loop keeps is the first in-window value exactly when no later one exceeds it. */
  lemma {:induction false} KeepsFirstExactlyWhen(field: Field, snaps: seq<Snap>, n: nat)
    requires n <= |snaps|
    ensures var first, best := FirstOf(field, snaps, n), Best(field, snaps, n);
            && (first.None? <==> best.None?)
            && (first.None? ==> forall i :: 0 <= i < n && InWindow(snaps[i]) ==> Pick(field, snaps[i]).None?)
            && (first.Some? ==> first.value <= best.value && NoneExceeds(field, snaps, n, best.value))
            && (first.Some? ==> (first == best <==> NoneExceeds(field, snaps, n, first.value)))
  {
    if n == 0 {
    } else {
      KeepsFirstExactlyWhen(field, snaps, n - 1);
    }
  }

  /** A mint whose inflow rises in the window. */
  function Rising(): seq<Snap> {
    [Snap(ENTRY_LO_MS, 0, None, None, Some(1.0), None), Snap(ENTRY_HI_MS, 0, None, None, Some(2.0), None)]
  }

  /** On it the two differ. */
  lemma KeepsLargerThanFirst()
    ensures FirstOf(NetInflow, Rising(), 2) == Some(1.0) && Best(NetInflow, Rising(), 2) == Some(2.0)
  {
    assert FirstOf(NetInflow, Rising(), 1) == Some(1.0) && Best(NetInflow, Rising(), 1) == Some(1.0);
  }

  lemma {:induction false} BestIsReached(field: Field, snaps: seq<Snap>, n: nat, x: real)
    requires n <= |snaps|
    ensures Best(field, snaps, n).Some? && x <= Best(field, snaps, n).value
      <==> exists i :: 0 <= i < n && Accepts(Control(field, Some(x)), snaps[0], snaps[i])
  {
    if n == 0 {
    } else {
      BestIsReached(field, snaps, n - 1, x);
      if Best(field, snaps, n).Some? && x <= Best(field, snaps, n).value
        && !(Best(field, snaps, n - 1).Some? && x <= Best(field, snaps, n - 1).value) {
        assert Accepts(Control(field, Some(x)), snaps[0], snaps[n - 1]);
      }
    }
  }

  /** A control fires exactly when the best in-window value reaches its threshold. */
  lemma ControlFiresExactlyWhen(field: Field, snaps: seq<Snap>, x: real)
    ensures Fires(Control(field, Some(x)), snaps)
      <==> Best(field, snaps, |snaps|).Some? && x <= Best(field, snaps, |snaps|).value
  {
    BestIsReached(field, snaps, |snaps|, x);
  }

  /** How many mints a trigger fires on. */
  function FireCount(trigger: Trigger, mints: seq<seq<Snap>>): (n: nat)
    ensures n <= |mints|
  {
    if mints == [] then 0
    else (if Fires(trigger, mints[0]) then 1 else 0) + FireCount(trigger, mints[1..])
  }

  /** The best value of every mint that carries the field, in mint order. */
  function Values(field: Field, mints: seq<seq<Snap>>): (vs: seq<real>)
    ensures |vs| <= |mints|
  {
    if mints == [] then []
    else
      var v := Best(field, mints[0], |mints[0]|);
      (if v.Some? then [v.value] else []) + Values(field, mints[1..])
  }

  function Identity(x: real): real { x }

  /** `Math.round`: the nearest integer, halves upward. */
  function Round(x: real): int {
    (x + 0.5).Floor
  }

  /** The threshold that the sorted values and the wanted count select. */
  function ThresholdAt(sorted: seq<real>, wanted: int): Option<real> {
    if sorted == [] then None
    else if wanted <= 0 || wanted > |sorted| then Some(sorted[0])
    else Some(sorted[|sorted| - wanted])
  }

  /** T1's share of the eligible mints, turned back into a number of mints. */
  function Wanted(t1FitFires: nat, eligible: nat): int {
    var targetSelectivity := if eligible == 0 then 0.0 else t1FitFires as real / eligible as real;
    Round(targetSelectivity * eligible as real)
  }

  /** In exact arithmetic the wanted count is T1's own count. */
  lemma WantedIsT1Count(t1FitFires: nat, eligible: nat)
    requires t1FitFires <= eligible
    ensures Wanted(t1FitFires, eligible) == t1FitFires
  {
    if eligible > 0 {
      assert t1FitFires as real / eligible as real * eligible as real == t1FitFires as real;
    }
  }

  method CollectValues(field: Field, eligibleFit: seq<seq<Snap>>) returns (values: seq<real>, withField: nat)
    ensures values == Values(field, eligibleFit) && withField == |values|
  {
    values, withField := [], 0;
    for k := 0 to |eligibleFit|
      invariant values + Values(field, eligibleFit[k..]) == Values(field, eligibleFit)
      invariant withField == |values|
    {
      assert eligibleFit[k..][0] == eligibleFit[k] && eligibleFit[k..][1..] == eligibleFit[k + 1..];
      var v := FirstFieldValue(field, eligibleFit[k]);
      if v.None? { continue; }
      withField := withField + 1;
      values := values + [v.value];
    }
    assert eligibleFit[|eligibleFit|..] == [];
  }

  method ThresholdForSelectivity(field: Field, eligibleFit: seq<seq<Snap>>, t1FitFires: nat)
    returns (threshold: Option<real>, withField: nat)
    ensures threshold == ThresholdAt(SortBy(Values(field, eligibleFit), Identity), Wanted(t1FitFires, |eligibleFit|))
    ensures withField == |Values(field, eligibleFit)|
  {
    var values;
    values, withField := CollectValues(field, eligibleFit);
    var sorted := SortBy(values, Identity);
    SortKeeps(values, Identity);
    if sorted == [] {
      return None, withField;
    }
    threshold := RankedFromTop(sorted, Wanted(t1FitFires, |eligibleFit|));
  }

  /** The value with the wanted rank from the top, the smallest when there is no such rank. */
  method RankedFromTop(sorted: seq<real>, wanted: int) returns (threshold: Option<real>)
    requires sorted != []
    ensures threshold == ThresholdAt(sorted, wanted)
  {
    if wanted <= 0 || wanted > |sorted| {
      return Some(sorted[0]);
    }
    var idx := |sorted| - wanted;
    return Some(sorted[idx]);
  }

  function Count(xs: seq<real>, p: real -> bool): (n: nat)
    ensures n <= |xs|
  {
    if xs == [] then 0 else (if p(xs[0]) then 1 else 0) + Count(xs[1..], p)
  }

  lemma {:induction false} InsertCount(x: real, xs: seq<real>, p: real -> bool)
    ensures Count(InsertBy(x, xs, Identity), p) == (if p(x) then 1 else 0) + Count(xs, p)
  {
    if xs == [] || x <= xs[0] {
    } else {
      InsertCount(x, xs[1..], p);
    }
  }

  lemma {:induction false} SortCount(xs: seq<real>, p: real -> bool)
    ensures Count(SortBy(xs, Identity), p) == Count(xs, p)
  {
    if xs == [] {
    } else {
      SortCount(xs[1..], p);
      InsertCount(xs[0], SortBy(xs[1..], Identity), p);
    }
  }

  /** Where a property switches on once and stays on, its count is what lies from there. */
  lemma {:induction false} CountFrom(xs: seq<real>, p: real -> bool, i: nat)
    requires i <= |xs|
    requires forall j :: 0 <= j < i ==> !p(xs[j])
    requires forall j :: i <= j < |xs| ==> p(xs[j])
    ensures Count(xs, p) == |xs| - i
  {
    if xs == [] {
    } else {
      CountFrom(xs[1..], p, if i == 0 then 0 else i - 1);
    }
  }

  /** In a sorted sequence the elements from `i` on reach `xs[i]`, and only ties below it do as well. */
  lemma RankReached(xs: seq<real>, i: nat)
    requires AscendingBy(xs, Identity) && i < |xs|
    ensures var n := Count(xs, v => v >= xs[i]);
            n >= |xs| - i && (n == |xs| - i <==> i == 0 || xs[i - 1] < xs[i])
  {
    RealAscends(xs);
    var lo := i;
    while lo > 0 && xs[lo - 1] == xs[i]
      invariant 0 <= lo <= i && xs[lo] == xs[i]
    {
      lo := lo - 1;
    }
    CountFrom(xs, v => v >= xs[i], lo);
  }

  lemma RankExceeded(xs: seq<real>, i: nat)
    requires AscendingBy(xs, Identity) && i < |xs|
    ensures Count(xs, v => v > xs[i]) < |xs| - i
  {
    RealAscends(xs);
    var hi := i + 1;
    while hi < |xs| && xs[hi] == xs[i]
      invariant i < hi <= |xs| && xs[hi - 1] == xs[i]
    {
      hi := hi + 1;
    }
    CountFrom(xs, v => v > xs[i], hi);
  }

  lemma RealAscends(xs: seq<real>)
    requires AscendingBy(xs, Identity)
    ensures forall j, k :: 0 <= j <= k < |xs| ==> xs[j] <= xs[k]
  {
    forall j, k | 0 <= j <= k < |xs| ensures xs[j] <= xs[k] {
      assert j < k ==> Identity(xs[j]) <= Identity(xs[k]);
    }
  }

  lemma {:induction false} FiresAreValues(field: Field, mints: seq<seq<Snap>>, x: real)
    ensures FireCount(Control(field, Some(x)), mints) == Count(Values(field, mints), v => v >= x)
  {
    if mints == [] {
    } else {
      FiresAreValues(field, mints[1..], x);
      ControlFiresExactlyWhen(field, mints[0], x);
      var v := Best(field, mints[0], |mints[0]|);
      if v.Some? {
        assert Values(field, mints)[1..] == Values(field, mints[1..]);
      } else {
        assert Values(field, mints) == Values(field, mints[1..]);
      }
    }
  }

  /** How many fit-half mints the control built on `field` fires on. */
  function ControlCount(field: Field, mints: seq<seq<Snap>>, wanted: int): nat {
    FireCount(Control(field, ThresholdAt(SortBy(Values(field, mints), Identity), wanted)), mints)
  }

  lemma {:induction false} UnsetNeverFires(field: Field, mints: seq<seq<Snap>>)
    ensures FireCount(Control(field, None), mints) == 0
  {
    if mints == [] {
    } else {
      UnsetNeverFires(field, mints[1..]);
    }
  }

  /** Inside the fitted range the control reaches T1's count, and only ties at the threshold exceed it. */
  lemma ControlReachesSelectivity(field: Field, mints: seq<seq<Snap>>, wanted: nat)
    requires 1 <= wanted <= |Values(field, mints)|
    ensures var sorted := SortBy(Values(field, mints), Identity);
            |sorted| == |Values(field, mints)|
    ensures var sorted := SortBy(Values(field, mints), Identity);
            var i := |sorted| - wanted;
            && ControlCount(field, mints, wanted) >= wanted
            && Count(Values(field, mints), v => v > sorted[i]) < wanted
            && (ControlCount(field, mints, wanted) == wanted <==> i == 0 || sorted[i - 1] < sorted[i])
  {
    var values := Values(field, mints);
    var sorted := SortBy(values, Identity);
    SortKeeps(values, Identity);
    SortAscends(values, Identity);
    var i := |sorted| - wanted;
    RankReached(sorted, i);
    RankExceeded(sorted, i);
    FiresAreValues(field, mints, sorted[i]);
    SortCount(values, v => v >= sorted[i]);
    SortCount(values, v => v > sorted[i]);
  }

  /** Outside it the threshold is the smallest value, so the control fires on every mint with the field. */
  lemma ControlFallsBackToAll(field: Field, mints: seq<seq<Snap>>, wanted: nat)
    requires wanted == 0 || wanted > |Values(field, mints)|
    ensures ControlCount(field, mints, wanted) == |Values(field, mints)|
  {
    var values := Values(field, mints);
    var sorted := SortBy(values, Identity);
    SortKeeps(values, Identity);
    SortAscends(values, Identity);
    if sorted == [] {
      UnsetNeverFires(field, mints);
    } else {
      RealAscends(sorted);
      FiresAreValues(field, mints, sorted[0]);
      SortCount(values, v => v >= sorted[0]);
      CountFrom(sorted, v => v >= sorted[0], 0);
    }
  }

  /** The values at the boundary the threshold cuts are different. */
  predicate NoTieAtCut(field: Field, mints: seq<seq<Snap>>, wanted: nat)
    requires 1 <= wanted <= |Values(field, mints)|
  {
    var sorted := SortBy(Values(field, mints), Identity);
    SortKeeps(Values(field, mints), Identity);
    var i := |sorted| - wanted;
    i == 0 || sorted[i - 1] < sorted[i]
  }

  /**
   * A control fires on exactly as many fit-half mints as T1 when T1's count is between one
   * and the number of mints carrying the field with no tie at the cut, or when neither
   * fires at all; in every other case the match fails.
   */
  lemma SelectivityMatchesExactlyWhen(field: Field, mints: seq<seq<Snap>>, capSol: real)
    ensures var wanted := FireCount(Tier(capSol, None), mints);
            var covered := |Values(field, mints)|;
            var exact := 1 <= wanted <= covered && NoTieAtCut(field, mints, wanted);
            var matched := (wanted == 0 && covered == 0) || exact;
            ControlCount(field, mints, Wanted(wanted, |mints|)) == wanted <==> matched
  {
    var wanted := FireCount(Tier(capSol, None), mints);
    WantedIsT1Count(wanted, |mints|);
    ControlMatchesExactlyWhen(field, mints, wanted);
  }

  lemma ControlMatchesExactlyWhen(field: Field, mints: seq<seq<Snap>>, wanted: nat)
    ensures var covered := |Values(field, mints)|;
            var exact := 1 <= wanted <= covered && NoTieAtCut(field, mints, wanted);
            var matched := (wanted == 0 && covered == 0) || exact;
            ControlCount(field, mints, wanted) == wanted <==> matched
  {
    if 1 <= wanted <= |Values(field, mints)| {
      ControlReachesSelectivity(field, mints, wanted);
    } else {
      ControlFallsBackToAll(field, mints, wanted);
    }
  }
}
