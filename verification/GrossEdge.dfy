/**
 * The gross-edge reconstruction (scripts/phase-a-gross-edge.ts): one entry and one exit per
 * mint and cohort, and how much of all the gain the top few observations carry.
 */
module GrossEdge {
  import opened Prelude
  import Sorting

  datatype Cohort = Cohort(lo: int, hi: int)

  /** A priced snapshot; a mint's list is kept in order of age. */
  datatype Snap = Snap(age: int, t: int, usd: real, eligible: bool)

  datatype MintList = MintList(mint: string, snaps: seq<Snap>)

  datatype Observation = Observation(
    mint: string, entry: Snap, exit: Snap, grossUsd: real, grossSol: Option<real>, carriedForward: bool)

  datatype Outcome = NoEntry | Dropped | Observed(o: Observation)

  const COHORTS := [
    Cohort(120_000, 3_600_000),
    Cohort(3_600_000, 18_000_000),
    Cohort(18_000_000, 86_400_000),
    Cohort(86_400_000, 604_800_000)
  ]

  // ---- windows ----

  /** From the lower bound to a quarter of the band above it. */
  predicate InEntryWindow(c: Cohort, age: int) {
    c.lo <= age && 4 * (age - c.lo) <= c.hi - c.lo
  }

  /** Within a quarter of the upper bound on either side. */
  predicate InExitWindow(c: Cohort, age: int) {
    3 * c.hi <= 4 * age <= 5 * c.hi
  }

  function Gap(c: Cohort, age: int): nat {
    if age >= c.hi then age - c.hi else c.hi - age
  }

  predicate ByAge(snaps: seq<Snap>) {
    forall i, j :: 0 <= i < j < |snaps| ==> snaps[i].age <= snaps[j].age
  }

  predicate CanExit(c: Cohort, entry: Snap, s: Snap) {
    s.age > entry.age && InExitWindow(c, s.age)
  }

  /** The windows as the source registers them: a quarter of the band, and a quarter of the bound either way. */
  lemma WindowsInReals(c: Cohort, age: int)
    ensures InEntryWindow(c, age) <==> c.lo <= age && age as real <= c.lo as real + 0.25 * (c.hi - c.lo) as real
    ensures InExitWindow(c, age) <==> c.hi as real * (1.0 - 0.25) <= age as real <= c.hi as real * (1.0 + 0.25)
    ensures InExitWindow(c, age) <==> 4 * Gap(c, age) <= c.hi
    ensures age == c.hi + Gap(c, age) || age == c.hi - Gap(c, age)
  {
  }

  /** In every registered cohort the whole entry window lies before the whole exit window. */
  lemma EntryBeforeExit(c: Cohort, entry: int, exit: int)
    requires c in COHORTS && InEntryWindow(c, entry) && InExitWindow(c, exit)
    ensures entry < exit
  {
  }

  // ---- the choice of entry and exit ----

  /** The first snapshot in the entry window, in list order. */
  function EntryOf(c: Cohort, snaps: seq<Snap>): (entry: Option<Snap>)
    ensures entry.None? <==> forall i :: 0 <= i < |snaps| ==> !InEntryWindow(c, snaps[i].age)
    ensures entry.Some? ==> entry.value in snaps && InEntryWindow(c, entry.value.age)
  {
    if snaps == [] then None
    else if InEntryWindow(c, snaps[0].age) then Some(snaps[0])
    else EntryOf(c, snaps[1..])
  }

  /** On a list ordered by age nothing in the window is younger than the entry. */
  lemma {:induction false} EntryIsYoungest(c: Cohort, snaps: seq<Snap>)
    requires ByAge(snaps) && EntryOf(c, snaps).Some?
    ensures forall i :: 0 <= i < |snaps| && InEntryWindow(c, snaps[i].age) ==>
      EntryOf(c, snaps).value.age <= snaps[i].age
  {
    if InEntryWindow(c, snaps[0].age) {
    } else {
      var rest := snaps[1..];
      EntryIsYoungest(c, rest);
      forall i | 0 <= i < |snaps| && InEntryWindow(c, snaps[i].age)
        ensures EntryOf(c, snaps).value.age <= snaps[i].age
      {
        assert rest[i - 1] == snaps[i];
      }
    }
  }

  /** The exit chosen among the first `n` snapshots: nearest the upper bound, the first of equals. */
  function ExitAmong(c: Cohort, entry: Snap, snaps: seq<Snap>, n: nat): (exit: Option<Snap>)
    requires n <= |snaps|
    ensures exit.Some? ==> CanExit(c, entry, exit.value) && exists i :: 0 <= i < n && exit.value == snaps[i]
    ensures forall i :: 0 <= i < n && CanExit(c, entry, snaps[i]) ==>
      exit.Some? && Gap(c, exit.value.age) <= Gap(c, snaps[i].age)
  {
    if n == 0 then None
    else
      var exit, s := ExitAmong(c, entry, snaps, n - 1), snaps[n - 1];
      if CanExit(c, entry, s) && (exit.None? || Gap(c, s.age) < Gap(c, exit.value.age)) then Some(s) else exit
  }

  /** Of two snapshots equally near the bound the younger is the exit. */
  lemma {:induction false} TiesGoToTheYounger(c: Cohort, entry: Snap, snaps: seq<Snap>, n: nat)
    requires n <= |snaps| && ByAge(snaps) && ExitAmong(c, entry, snaps, n).Some?
    ensures var exit := ExitAmong(c, entry, snaps, n).value;
            forall i :: 0 <= i < n && CanExit(c, entry, snaps[i]) && Gap(c, snaps[i].age) == Gap(c, exit.age)
              ==> exit.age <= snaps[i].age
  {
    var earlier := ExitAmong(c, entry, snaps, n - 1);
    if earlier.None? {
    } else {
      TiesGoToTheYounger(c, entry, snaps, n - 1);
    }
  }

  function OutcomeOf(c: Cohort, m: MintList, rate: int -> Option<real>): Outcome
    requires RateIsPositive(rate) && Priced(m)
  {
    var entry := EntryOf(c, m.snaps);
    if entry.None? then NoEntry
    else
      var exit := ExitAmong(c, entry.value, m.snaps, |m.snaps|);
      if exit.Some? then Observed(Measure(m.mint, entry.value, exit.value, rate, false))
      else if m.snaps[|m.snaps| - 1].age <= entry.value.age then Dropped
      else Observed(Measure(m.mint, entry.value, m.snaps[|m.snaps| - 1], rate, true))
  }

  predicate Priced(m: MintList) {
    forall i :: 0 <= i < |m.snaps| ==> m.snaps[i].usd > 0.0
  }

  ghost predicate RateIsPositive(rate: int -> Option<real>) {
    forall t :: rate(t).Some? ==> rate(t).value > 0.0
  }

  function Measure(mint: string, entry: Snap, exit: Snap, rate: int -> Option<real>, carried: bool): Observation
    requires entry.usd > 0.0 && RateIsPositive(rate)
  {
    var before, after := rate(entry.t), rate(exit.t);
    Observation(
      mint, entry, exit,
      exit.usd / entry.usd - 1.0,
      if before.None? || after.None? then None
      else Some((exit.usd / after.value) / (entry.usd / before.value) - 1.0),
      carried)
  }

  /** The first listed snapshot of the entry window is at `e`. */
  ghost predicate EntryAt(c: Cohort, snaps: seq<Snap>, e: nat) {
    && e < |snaps| && InEntryWindow(c, snaps[e].age)
    && forall i :: 0 <= i < e ==> !InEntryWindow(c, snaps[i].age)
  }

  /** The first listed of the exits nearest the bound is at `x`. */
  ghost predicate ExitAt(c: Cohort, entry: Snap, snaps: seq<Snap>, x: nat) {
    && x < |snaps| && CanExit(c, entry, snaps[x])
    && (forall i :: 0 <= i < |snaps| && CanExit(c, entry, snaps[i]) ==> Gap(c, snaps[x].age) <= Gap(c, snaps[i].age))
    && (forall i :: 0 <= i < x && CanExit(c, entry, snaps[i]) ==> Gap(c, snaps[x].age) < Gap(c, snaps[i].age))
  }

  lemma {:induction false} EntryIsTheFirst(c: Cohort, snaps: seq<Snap>, e: nat)
    requires EntryAt(c, snaps, e)
    ensures EntryOf(c, snaps) == Some(snaps[e])
  {
    if e == 0 {
    } else {
      assert forall i :: 0 <= i < |snaps| - 1 ==> snaps[1..][i] == snaps[i + 1];
      EntryIsTheFirst(c, snaps[1..], e - 1);
    }
  }

  lemma {:induction false} ExitIsTheFirstNearest(c: Cohort, entry: Snap, snaps: seq<Snap>, n: nat) returns (x: nat)
    requires n <= |snaps|
    ensures var exit := ExitAmong(c, entry, snaps, n);
            exit.Some? ==> x < n && exit.value == snaps[x] && ExitAt(c, entry, snaps[..n], x)
  {
    if n == 0 {
      x := 0;
    } else {
      x := ExitIsTheFirstNearest(c, entry, snaps, n - 1);
      assert forall i :: 0 <= i < n - 1 ==> snaps[..n - 1][i] == snaps[..n][i];
      var before, s := ExitAmong(c, entry, snaps, n - 1), snaps[n - 1];
      if CanExit(c, entry, s) && (before.None? || Gap(c, s.age) < Gap(c, before.value.age)) {
        x := n - 1;
      }
    }
  }

  lemma ExitIs(c: Cohort, entry: Snap, snaps: seq<Snap>)
    ensures var exit := ExitAmong(c, entry, snaps, |snaps|);
            && (exit.None? <==> forall i :: 0 <= i < |snaps| ==> !CanExit(c, entry, snaps[i]))
            && (forall x: nat :: ExitAt(c, entry, snaps, x) ==> exit == Some(snaps[x]))
  {
    var x := ExitIsTheFirstNearest(c, entry, snaps, |snaps|);
    assert snaps[..|snaps|] == snaps;
    forall x': nat | ExitAt(c, entry, snaps, x') ensures ExitAmong(c, entry, snaps, |snaps|) == Some(snaps[x']) {
      assert x' <= x && x <= x';
    }
  }

  /**
   * What becomes of a mint entered at `e`: observed at the first listed of the nearest exits; if
   * nothing can be its exit, carried to its last snapshot if that is older, and dropped if not.
   * Without a snapshot in the entry window it has no entry.
   */
  lemma OutcomeExactlyWhen(c: Cohort, m: MintList, rate: int -> Option<real>, e: nat)
    requires Priced(m) && RateIsPositive(rate)
    ensures OutcomeOf(c, m, rate).NoEntry? <==> forall i :: 0 <= i < |m.snaps| ==> !InEntryWindow(c, m.snaps[i].age)
    ensures EntryAt(c, m.snaps, e) ==>
      var outcome, entry, last := OutcomeOf(c, m, rate), m.snaps[e], m.snaps[|m.snaps| - 1];
      var exits := exists i :: 0 <= i < |m.snaps| && CanExit(c, entry, m.snaps[i]);
      && (outcome.Dropped? <==> !exits && last.age <= entry.age)
      && (outcome.Observed? ==>
            && outcome.o.exit.age > entry.age
            && outcome.o.mint == m.mint && outcome.o.entry == entry && (outcome.o.carriedForward <==> !exits)
            && (!exits ==> outcome.o.exit == last)
            && (forall x: nat :: ExitAt(c, entry, m.snaps, x) ==> outcome.o.exit == m.snaps[x]))
  {
    if EntryAt(c, m.snaps, e) {
      EntryIsTheFirst(c, m.snaps, e);
      ExitIs(c, m.snaps[e], m.snaps);
    }
  }

  /** A return in SOL needs the rate at both ends. */
  lemma SolNeedsBothRates(mint: string, entry: Snap, exit: Snap, rate: int -> Option<real>, carried: bool)
    requires entry.usd > 0.0 && RateIsPositive(rate)
    ensures var o := Measure(mint, entry, exit, rate, carried);
            && (o.grossSol.Some? <==> rate(entry.t).Some? && rate(exit.t).Some?)
            && o.mint == mint && o.entry == entry && o.exit == exit && o.carriedForward == carried
  {
  }

  /** In SOL the position does better than in dollars exactly when SOL got cheaper on the way. */
  lemma SolAgainstDollars(mint: string, entry: Snap, exit: Snap, rate: int -> Option<real>, carried: bool)
    requires entry.usd > 0.0 && exit.usd > 0.0 && RateIsPositive(rate)
    requires rate(entry.t).Some? && rate(exit.t).Some?
    ensures var o := Measure(mint, entry, exit, rate, carried);
            && o.grossSol.Some? && o.grossUsd > -1.0
            && (1.0 + o.grossUsd) * entry.usd == exit.usd
            && (1.0 + o.grossSol.value) * rate(exit.t).value == (1.0 + o.grossUsd) * rate(entry.t).value
            && (o.grossSol.value > o.grossUsd <==> rate(exit.t).value < rate(entry.t).value)
  {
    var before, after := rate(entry.t).value, rate(exit.t).value;
    RatioOfRatios(exit.usd, entry.usd, before, after);
  }

  lemma RatioOfRatios(x: real, e: real, before: real, after: real)
    requires x > 0.0 && e > 0.0 && before > 0.0 && after > 0.0
    ensures e / before > 0.0 && x / e > 0.0
    ensures (x / after) / (e / before) * after == x / e * before
    ensures (x / after) / (e / before) > x / e <==> after < before
  {
    var a, b, u := x / after, e / before, x / e;
    assert a * after == x && b * before == e && u * e == x;
    var s := a / b;
    assert s * b == a;
    assert s * after * b == u * before * b by {
      assert s * after * b == (s * b) * after == x;
      assert u * before * b == u * (b * before) == x;
    }
    assert s * after == u * before;
    if s > u {
      assert (s - u) * after > 0.0;
    } else {
      assert (u - s) * after >= 0.0;
    }
    if after < before {
      assert u * (before - after) > 0.0;
    } else {
      assert u * (after - before) >= 0.0;
    }
  }

  /** The exit of an uncensored mint is a later snapshot in its window that no other is nearer than. */
  lemma UncensoredExitIsNearest(c: Cohort, m: MintList, rate: int -> Option<real>)
    requires Priced(m) && RateIsPositive(rate) && ByAge(m.snaps)
    ensures OutcomeOf(c, m, rate).Observed? && !OutcomeOf(c, m, rate).o.carriedForward ==>
            var o := OutcomeOf(c, m, rate).o;
            && InEntryWindow(c, o.entry.age) && CanExit(c, o.entry, o.exit)
            && (forall i :: 0 <= i < |m.snaps| && InEntryWindow(c, m.snaps[i].age) ==> o.entry.age <= m.snaps[i].age)
            && (forall i :: 0 <= i < |m.snaps| && CanExit(c, o.entry, m.snaps[i]) ==>
                  Gap(c, o.exit.age) <= Gap(c, m.snaps[i].age)
                  && (Gap(c, o.exit.age) == Gap(c, m.snaps[i].age) ==> o.exit.age <= m.snaps[i].age))
  {
    var outcome := OutcomeOf(c, m, rate);
    if outcome.Observed? && !outcome.o.carriedForward {
      EntryIsYoungest(c, m.snaps);
      TiesGoToTheYounger(c, outcome.o.entry, m.snaps, |m.snaps|);
    }
  }

  /** A carried-forward exit is the mint's oldest snapshot, and never one the window would have accepted. */
  lemma CarriedExitIsTheLast(c: Cohort, m: MintList, rate: int -> Option<real>)
    requires Priced(m) && RateIsPositive(rate) && ByAge(m.snaps)
    ensures OutcomeOf(c, m, rate).Observed? && OutcomeOf(c, m, rate).o.carriedForward ==>
            var o := OutcomeOf(c, m, rate).o;
            && o.exit.age > o.entry.age && !InExitWindow(c, o.exit.age)
            && forall i :: 0 <= i < |m.snaps| ==> m.snaps[i].age <= o.exit.age && !CanExit(c, o.entry, m.snaps[i])
  {
    var outcome := OutcomeOf(c, m, rate);
    if outcome.Observed? && outcome.o.carriedForward {
      assert !CanExit(c, outcome.o.entry, m.snaps[|m.snaps| - 1]);
    }
  }

  /**
   * A carried price comes from after the exit window exactly when the mint has a snapshot older
   * than the window at all; otherwise it comes from before the window.
   */
  lemma CarryReadsPastTheWindowExactlyWhen(c: Cohort, m: MintList, rate: int -> Option<real>)
    requires Priced(m) && RateIsPositive(rate) && ByAge(m.snaps)
    ensures OutcomeOf(c, m, rate).Observed? && OutcomeOf(c, m, rate).o.carriedForward ==>
            var o := OutcomeOf(c, m, rate).o;
            && (4 * o.exit.age > 5 * c.hi <==> exists i :: 0 <= i < |m.snaps| && 4 * m.snaps[i].age > 5 * c.hi)
            && (4 * o.exit.age <= 5 * c.hi ==> 4 * o.exit.age < 3 * c.hi)
  {
    var outcome := OutcomeOf(c, m, rate);
    if outcome.Observed? && outcome.o.carriedForward {
      CarriedExitIsTheLast(c, m, rate);
      assert m.snaps[|m.snaps| - 1] == outcome.o.exit;
    }
  }

  /** The carried price may come from after the exit window: the list also serves the older cohorts. */
  lemma CarryCanReadPastTheWindow(mint: string, rate: int -> Option<real>)
    requires RateIsPositive(rate)
    ensures var entry, late := Snap(200_000, 0, 1.0, true), Snap(5_000_000, 0, 2.0, true);
            var m := MintList(mint, [entry, late]);
            OutcomeOf(COHORTS[0], m, rate) == Observed(Measure(mint, entry, late, rate, true))
            && 4 * late.age > 5 * COHORTS[0].hi
            && InEntryWindow(COHORTS[1], late.age)
  {
    var entry, late := Snap(200_000, 0, 1.0, true), Snap(5_000_000, 0, 2.0, true);
    var snaps := [entry, late];
    assert EntryOf(COHORTS[0], snaps) == Some(entry);
    assert ExitAmong(COHORTS[0], entry, snaps, 1) == None;
    assert ExitAmong(COHORTS[0], entry, snaps, 2) == None;
  }

  // ---- the pass over the mints ----

  function ObservationsOf(c: Cohort, ms: seq<MintList>, n: nat, rate: int -> Option<real>): seq<Observation>
    requires n <= |ms| && RateIsPositive(rate) && forall i :: 0 <= i < |ms| ==> Priced(ms[i])
  {
    if n == 0 then []
    else
      var earlier, outcome := ObservationsOf(c, ms, n - 1, rate), OutcomeOf(c, ms[n - 1], rate);
      if outcome.Observed? then earlier + [outcome.o] else earlier
  }

  function CountWhere(ms: seq<MintList>, n: nat, holds: MintList -> bool): nat
    requires n <= |ms|
  {
    if n == 0 then 0 else CountWhere(ms, n - 1, holds) + (if holds(ms[n - 1]) then 1 else 0)
  }

  function Enters(c: Cohort): MintList -> bool {
    (m: MintList) => EntryOf(c, m.snaps).Some?
  }

  /** An entry with nothing to exit on inside the window. */
  function Censored(c: Cohort): MintList -> bool {
    (m: MintList) =>
      var entry := EntryOf(c, m.snaps);
      entry.Some? && ExitAmong(c, entry.value, m.snaps, |m.snaps|).None?
  }

  /** Censored, but seen again at some later age. */
  function Carried(c: Cohort): MintList -> bool {
    (m: MintList) => Censored(c)(m) && m.snaps[|m.snaps| - 1].age > EntryOf(c, m.snaps).value.age
  }

  method Observe(c: Cohort, byMint: seq<MintList>, rate: int -> Option<real>)
    returns (observations: seq<Observation>, entriesFound: nat, censored: nat, carriedForward: nat)
    requires RateIsPositive(rate) && forall i :: 0 <= i < |byMint| ==> Priced(byMint[i])
    ensures observations == ObservationsOf(c, byMint, |byMint|, rate)
    ensures entriesFound == CountWhere(byMint, |byMint|, Enters(c))
    ensures censored == CountWhere(byMint, |byMint|, Censored(c))
    ensures carriedForward == CountWhere(byMint, |byMint|, Carried(c))
  {
    observations, entriesFound, censored, carriedForward := [], 0, 0, 0;
    for k := 0 to |byMint|
      invariant observations == ObservationsOf(c, byMint, k, rate)
      invariant entriesFound == CountWhere(byMint, k, Enters(c))
      invariant censored == CountWhere(byMint, k, Censored(c))
      invariant carriedForward == CountWhere(byMint, k, Carried(c))
    {
      var m := byMint[k];
      var entry := EntryOf(c, m.snaps);
      if entry.None? { continue; }
      entriesFound := entriesFound + 1;
      var exit := NearestExit(c, entry.value, m.snaps);
      var carried := false;
      if exit.None? {
        censored := censored + 1;
        var last := m.snaps[|m.snaps| - 1];
        if last.age <= entry.value.age { continue; }
        exit := Some(last);
        carried := true;
        carriedForward := carriedForward + 1;
      }
      observations := observations + [Measure(m.mint, entry.value, exit.value, rate, carried)];
    }
  }

  method NearestExit(c: Cohort, entry: Snap, snaps: seq<Snap>) returns (exit: Option<Snap>)
    ensures exit == ExitAmong(c, entry, snaps, |snaps|)
  {
    exit := None;
    var bestGap: Option<nat> := None;
    for k := 0 to |snaps|
      invariant exit == ExitAmong(c, entry, snaps, k)
      invariant bestGap == if exit.Some? then Some(Gap(c, exit.value.age)) else None
    {
      var s := snaps[k];
      if s.age <= entry.age { continue; }
      if !InExitWindow(c, s.age) { continue; }
      var gap := Gap(c, s.age);
      if bestGap.None? || gap < bestGap.value {
        bestGap := Some(gap);
        exit := Some(s);
      }
    }
  }

  /** A counter is the number of mints it is true of. */
  lemma {:induction false} CountersCountMints(ms: seq<MintList>, n: nat, holds: MintList -> bool)
    requires n <= |ms|
    ensures CountWhere(ms, n, holds) == |set i | 0 <= i < n && holds(ms[i])|
  {
    if n == 0 {
    } else {
      CountersCountMints(ms, n - 1, holds);
      var earlier := set i | 0 <= i < n - 1 && holds(ms[i]);
      var all := set i | 0 <= i < n && holds(ms[i]);
      assert all == if holds(ms[n - 1]) then earlier + {n - 1} else earlier;
    }
  }

  /** The three counters are true of the mints with an entry, with one and no exit, and with one carried. */
  lemma CountedExactlyWhen(c: Cohort, m: MintList, rate: int -> Option<real>)
    requires Priced(m) && RateIsPositive(rate)
    ensures var outcome := OutcomeOf(c, m, rate);
            && (Enters(c)(m) <==> !outcome.NoEntry?)
            && (Carried(c)(m) <==> outcome.Observed? && outcome.o.carriedForward)
            && (Censored(c)(m) <==> Carried(c)(m) || outcome.Dropped?)
  {
    var entry, outcome := EntryOf(c, m.snaps), OutcomeOf(c, m, rate);
    if entry.Some? {
      var exit, last := ExitAmong(c, entry.value, m.snaps, |m.snaps|), m.snaps[|m.snaps| - 1];
      assert Censored(c)(m) <==> exit.None?;
      assert Carried(c)(m) <==> Censored(c)(m) && last.age > entry.value.age;
      if exit.Some? {
        assert outcome == Observed(Measure(m.mint, entry.value, exit.value, rate, false));
      } else if last.age > entry.value.age {
        assert outcome == Observed(Measure(m.mint, entry.value, last, rate, true));
      } else {
        assert outcome == Dropped;
      }
    } else {
      assert !Censored(c)(m);
    }
  }

  /** `at` lists, in order, every one of the first `n` mints that is observed, and `os` their observations. */
  ghost predicate ListsObserved(c: Cohort, ms: seq<MintList>, n: nat, rate: int -> Option<real>,
                                at: seq<nat>, os: seq<Observation>)
    requires n <= |ms| && RateIsPositive(rate) && forall i :: 0 <= i < |ms| ==> Priced(ms[i])
  {
    && |at| == |os|
    && (forall k :: 0 <= k < |at| ==> at[k] < n && OutcomeOf(c, ms[at[k]], rate) == Observed(os[k]))
    && (forall j, k :: 0 <= j < k < |at| ==> at[j] < at[k])
    && (forall i :: 0 <= i < n && OutcomeOf(c, ms[i], rate).Observed? ==> i in at)
  }

  lemma {:induction false} EveryObservedMintOnce(c: Cohort, ms: seq<MintList>, n: nat, rate: int -> Option<real>)
    returns (at: seq<nat>)
    requires n <= |ms| && RateIsPositive(rate) && forall i :: 0 <= i < |ms| ==> Priced(ms[i])
    ensures ListsObserved(c, ms, n, rate, at, ObservationsOf(c, ms, n, rate))
  {
    if n == 0 {
      at := [];
    } else {
      at := EveryObservedMintOnce(c, ms, n - 1, rate);
      if OutcomeOf(c, ms[n - 1], rate).Observed? {
        OneMoreObserved(c, ms, n, rate, at, ObservationsOf(c, ms, n - 1, rate), OutcomeOf(c, ms[n - 1], rate).o);
        at := at + [n - 1];
      }
    }
  }

  lemma OneMoreObserved(c: Cohort, ms: seq<MintList>, n: nat, rate: int -> Option<real>, at: seq<nat>,
                        os: seq<Observation>, o: Observation)
    requires 0 < n <= |ms| && RateIsPositive(rate) && forall i :: 0 <= i < |ms| ==> Priced(ms[i])
    requires ListsObserved(c, ms, n - 1, rate, at, os) && OutcomeOf(c, ms[n - 1], rate) == Observed(o)
    ensures ListsObserved(c, ms, n, rate, at + [n - 1], os + [o])
  {
    var at' := at + [n - 1];
    assert at'[|at|] == n - 1;
    assert forall i :: i in at ==> i in at';
  }

  /** How many of the observations were not carried forward. */
  function ReportedCount(os: seq<Observation>): nat {
    if os == [] then 0
    else ReportedCount(os[..|os| - 1]) + (if os[|os| - 1].carriedForward then 0 else 1)
  }

  /**
   * Every entry is accounted for: the sample is the entries less the censored ones plus the
   * carried ones, and the as-reported part of it is exactly the uncensored entries.
   */
  lemma {:induction false} EveryEntryAccounted(c: Cohort, ms: seq<MintList>, n: nat, rate: int -> Option<real>)
    requires n <= |ms| && RateIsPositive(rate) && forall i :: 0 <= i < |ms| ==> Priced(ms[i])
    ensures var entries, censored, carried :=
              CountWhere(ms, n, Enters(c)), CountWhere(ms, n, Censored(c)), CountWhere(ms, n, Carried(c));
            |ObservationsOf(c, ms, n, rate)| == entries - censored + carried
            && ReportedCount(ObservationsOf(c, ms, n, rate)) == entries - censored
            && carried <= censored <= entries
  {
    if n == 0 {
    } else {
      EveryEntryAccounted(c, ms, n - 1, rate);
      var earlier, outcome := ObservationsOf(c, ms, n - 1, rate), OutcomeOf(c, ms[n - 1], rate);
      if outcome.Observed? {
        assert (earlier + [outcome.o])[..|earlier|] == earlier;
      }
    }
  }

  // ---- the share of the gain in the top k ----

  /** The returns from the greatest down. */
  function Descending(gains: seq<real>): (sorted: seq<real>)
    ensures |sorted| == |gains| && multiset(sorted) == multiset(gains)
  {
    Sorting.SortKeeps(gains, Falling());
    Sorting.SortBy(gains, Falling())
  }

  function Falling(): real -> real {
    (x: real) => -x
  }

  predicate Descends(xs: seq<real>) {
    forall i, j :: 0 <= i < j < |xs| ==> xs[j] <= xs[i]
  }

  function Head(gains: seq<real>, k: nat): real
    requires k <= |gains|
  {
    Sum(Descending(gains)[..k])
  }

  function Positives(xs: seq<real>): seq<real> {
    if xs == [] then []
    else if xs[0] > 0.0 then [xs[0]] + Positives(xs[1..])
    else Positives(xs[1..])
  }

  function PositiveSum(xs: seq<real>): real {
    Sum(Positives(xs))
  }

  function TopShareOfPositive(gains: seq<real>, k: nat): Option<real> {
    if |gains| < k || PositiveSum(gains) <= 0.0 then None
    else Some(Head(gains, k) / PositiveSum(gains))
  }

  const TOP_COUNTS := [1, 3, 5, 10]

  /** The share record: empty for an empty sample, otherwise one share for each of the four counts. */
  method TopShares(gains: seq<real>) returns (shares: map<nat, Option<real>>)
    ensures gains == [] ==> shares == map[]
    ensures gains != [] ==> shares.Keys == {1, 3, 5, 10}
    ensures forall k :: k in shares ==> shares[k] == TopShareOfPositive(gains, k)
  {
    shares := map[];
    if gains == [] { return; }
    var positiveSum := PositiveSum(gains);
    var sorted := Descending(gains);
    for i := 0 to |TOP_COUNTS|
      invariant shares.Keys == set j | 0 <= j < i :: TOP_COUNTS[j]
      invariant forall k :: k in shares ==> shares[k] == TopShareOfPositive(gains, k)
    {
      var k: nat := TOP_COUNTS[i];
      if |gains| < k {
        shares := shares[k := None];
        continue;
      }
      var head := Sum(sorted[..k]);
      shares := shares[k := if positiveSum > 0.0 then Some(head / positiveSum) else None];
    }
    assert shares.Keys == {TOP_COUNTS[0], TOP_COUNTS[1], TOP_COUNTS[2], TOP_COUNTS[3]};
  }

  lemma DescendingIsSorted(gains: seq<real>)
    ensures Descends(Descending(gains))
  {
    var sorted := Descending(gains);
    Sorting.SortAscends(gains, Falling());
    forall i, j | 0 <= i < j < |sorted| ensures sorted[j] <= sorted[i] {
      assert Falling()(sorted[i]) <= Falling()(sorted[j]);
    }
  }

  /** `ys` without one occurrence of `x`. */
  lemma Without(ys: seq<real>, x: real) returns (rest: seq<real>)
    requires x in ys
    ensures |rest| == |ys| - 1 && multiset(ys) == multiset(rest) + multiset{x}
    ensures Sum(ys) == x + Sum(rest)
  {
    var i :| 0 <= i < |ys| && ys[i] == x;
    rest := ys[..i] + ys[i + 1..];
    assert ys == ys[..i] + ([x] + ys[i + 1..]);
    SumAppend(ys[..i], [x] + ys[i + 1..]);
    SumAppend(ys[..i], ys[i + 1..]);
  }

  lemma CancelOne(some: multiset<real>, all: multiset<real>, x: real, y: real)
    requires some + multiset{x} <= all + multiset{y}
    requires x == y || y !in some
    ensures some <= all
  {
    forall v ensures some[v] <= all[v] {
      assert (some + multiset{x})[v] <= (all + multiset{y})[v];
    }
  }

  /** Removes the greatest return from a choice that has it, and any other from one that does not. */
  lemma RemoveTop(sorted: seq<real>, ys: seq<real>) returns (x: real, rest: seq<real>)
    requires Descends(sorted) && multiset(ys) <= multiset(sorted) && ys != []
    ensures sorted != [] && x <= sorted[0] && multiset(rest) <= multiset(sorted[1..])
    ensures |rest| == |ys| - 1 && Sum(ys) == x + Sum(rest)
  {
    assert ys[0] in multiset(ys) && ys[0] in multiset(sorted) && ys[0] in sorted;
    var top, tail := sorted[0], sorted[1..];
    assert sorted == [top] + tail;
    x := if top in ys then top else ys[0];
    assert x in multiset(ys) && x in multiset(sorted) && x in sorted;
    rest := Without(ys, x);
    CancelOne(multiset(rest), multiset(tail), x, top);
  }

  /** No choice of k returns adds up to more than the first k in descending order. */
  lemma {:induction false} FirstKIsGreatest(sorted: seq<real>, ys: seq<real>)
    requires Descends(sorted) && multiset(ys) <= multiset(sorted)
    ensures |ys| <= |sorted| && Sum(ys) <= Sum(sorted[..|ys|])
    decreases |sorted|
  {
    if ys == [] {
    } else {
      var x, rest := RemoveTop(sorted, ys);
      FirstKIsGreatest(sorted[1..], rest);
      assert sorted[..|ys|][1..] == sorted[1..][..|rest|];
    }
  }

  lemma TopKIsGreatest(gains: seq<real>, ys: seq<real>)
    requires multiset(ys) <= multiset(gains)
    ensures |ys| <= |gains| && Sum(ys) <= Head(gains, |ys|)
  {
    DescendingIsSorted(gains);
    FirstKIsGreatest(Descending(gains), ys);
  }

  lemma {:induction false} PositivesAreSome(xs: seq<real>)
    ensures multiset(Positives(xs)) <= multiset(xs)
  {
    if xs == [] {
    } else {
      assert xs == [xs[0]] + xs[1..];
      PositivesAreSome(xs[1..]);
    }
  }

  /** No choice of returns, of any number, adds up to more than the positive ones. */
  lemma {:induction false} NoChoiceBeatsThePositives(xs: seq<real>, ys: seq<real>)
    requires multiset(ys) <= multiset(xs)
    ensures Sum(ys) <= PositiveSum(xs)
  {
    if xs == [] {
      assert ys == [] by { assert |multiset(ys)| == 0; }
    } else {
      var x, tail := xs[0], xs[1..];
      assert xs == [x] + tail;
      if x in ys {
        var rest := Without(ys, x);
        CancelOne(multiset(rest), multiset(tail), x, x);
        NoChoiceBeatsThePositives(tail, rest);
      } else {
        assert x !in multiset(ys);
        NoChoiceBeatsThePositives(tail, ys);
      }
    }
  }

  /** A share exists exactly when there are that many returns and one of them is a gain. */
  lemma ShareExistsExactlyWhen(gains: seq<real>, k: nat)
    ensures TopShareOfPositive(gains, k).Some? <==> |gains| >= k && exists i :: 0 <= i < |gains| && gains[i] > 0.0
  {
    GainExactlyWhen(gains);
  }

  lemma {:induction false} GainExactlyWhen(gains: seq<real>)
    ensures PositiveSum(gains) >= 0.0
    ensures PositiveSum(gains) > 0.0 <==> exists i :: 0 <= i < |gains| && gains[i] > 0.0
  {
    if gains == [] {
    } else {
      GainExactlyWhen(gains[1..]);
      assert forall i :: 1 <= i < |gains| ==> gains[i] == gains[1..][i - 1];
      if i :| 0 <= i < |gains[1..]| && gains[1..][i] > 0.0 {
        assert gains[i + 1] > 0.0;
      }
    }
  }

  lemma SortingKeepsThePositives(gains: seq<real>)
    ensures PositiveSum(Descending(gains)) == PositiveSum(gains)
  {
    PositivesAreSome(gains);
    PositivesAreSome(Descending(gains));
    NoChoiceBeatsThePositives(gains, Positives(Descending(gains)));
    NoChoiceBeatsThePositives(Descending(gains), Positives(gains));
  }

  lemma {:induction false} NoneArePositive(sorted: seq<real>)
    requires Descends(sorted) && (sorted == [] || sorted[0] <= 0.0)
    ensures Positives(sorted) == []
  {
    if sorted == [] {
    } else {
      NoneArePositive(sorted[1..]);
    }
  }

  /** The first k of a descending list gain everything exactly when the cut is at the sign change. */
  lemma {:induction false} PrefixIsAllTheGain(sorted: seq<real>, k: nat)
    requires Descends(sorted) && k <= |sorted|
    ensures Sum(sorted[..k]) == PositiveSum(sorted) <==> CutsAtSignChange(sorted, k)
  {
    if sorted != [] && sorted[0] > 0.0 && k == 0 {
      NoChoiceBeatsThePositives(sorted[1..], []);
    } else if k > 0 && sorted[0] > 0.0 {
      assert sorted[..k][1..] == sorted[1..][..k - 1];
      PrefixIsAllTheGain(sorted[1..], k - 1);
    } else {
      NoneArePositive(sorted);
      NonPositivePrefix(sorted, k);
    }
  }

  /** None of the first k is a loss and none of the others a gain. */
  predicate CutsAtSignChange(sorted: seq<real>, k: nat)
    requires k <= |sorted|
  {
    (k == 0 || sorted[k - 1] >= 0.0) && (k == |sorted| || sorted[k] <= 0.0)
  }

  lemma {:induction false} NonPositivePrefix(sorted: seq<real>, k: nat)
    requires Descends(sorted) && k <= |sorted| && (k == 0 || sorted[0] <= 0.0)
    ensures Sum(sorted[..k]) <= 0.0
    ensures Sum(sorted[..k]) == 0.0 <==> k == 0 || sorted[k - 1] >= 0.0
  {
    if k == 0 {
    } else {
      NonPositivePrefix(sorted, k - 1);
      assert sorted[..k] == sorted[..k - 1] + [sorted[k - 1]];
      SumAppend(sorted[..k - 1], [sorted[k - 1]]);
      assert k > 1 ==> sorted[k - 1] <= sorted[k - 2];
    }
  }

  /** The top share is never above one, and is one exactly when the top k are all the gains and no loss. */
  lemma ShareIsAtMostOne(gains: seq<real>, k: nat)
    requires TopShareOfPositive(gains, k).Some?
    ensures var share := TopShareOfPositive(gains, k).value;
            share <= 1.0 && (share == 1.0 <==> CutsAtSignChange(Descending(gains), k))
  {
    var sorted, all := Descending(gains), PositiveSum(gains);
    DescendingIsSorted(gains);
    assert sorted == sorted[..k] + sorted[k..];
    NoChoiceBeatsThePositives(gains, sorted[..k]);
    SortingKeepsThePositives(gains);
    PrefixIsAllTheGain(sorted, k);
    QuotientAgainstOne(Head(gains, k), all);
  }

  lemma QuotientAgainstOne(x: real, y: real)
    requires y > 0.0 && x <= y
    ensures x / y <= 1.0 && (x / y == 1.0 <==> x == y)
  {
  }

  /**
   * The figure is the part of the gain the top k made exactly when there are at least k
   * returns that are not losses; below that the losses among the k are subtracted from it.
   */
  lemma ShareIsTheirGainExactlyWhen(gains: seq<real>, k: nat)
    requires k <= |gains|
    ensures Head(gains, k) <= PositiveSum(Descending(gains)[..k])
    ensures Head(gains, k) == PositiveSum(Descending(gains)[..k]) <==> k == 0 || Descending(gains)[k - 1] >= 0.0
  {
    var top := Descending(gains)[..k];
    DescendingIsSorted(gains);
    NoChoiceBeatsThePositives(top, top);
    PrefixIsAllTheGain(top, k);
    assert top[..k] == top;
  }
}
