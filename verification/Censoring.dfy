/**
 * One observation per fired mint, and the three treatments of positions without an exit
 * price: dropped, carried forward at the last mark, or written off at -100%
 * (scripts/phase-b-triggers.ts).
 */
module Censoring {
  import opened Prelude
  import opened Triggers

  const EXIT_LO_MS := 2_700_000
  const EXIT_HI_MS := 4_500_000
  const EXIT_TARGET_MS := 3_600_000

  datatype Observation = Observation(
    gross: Option<real>,
    censored: bool,
    entryPriced: bool,
    carryForward: Option<real>,
    carryForwardMarked: bool
  )

  // ---- the exit and the mark ----

  predicate CanExit(entry: Snap, s: Snap) {
    s.age > entry.age && EXIT_LO_MS <= s.age <= EXIT_HI_MS
  }

  function Gap(s: Snap): nat {
    if s.age >= EXIT_TARGET_MS then s.age - EXIT_TARGET_MS else EXIT_TARGET_MS - s.age
  }

  predicate CanMark(entry: Snap, s: Snap) {
    entry.age < s.age <= EXIT_HI_MS && s.priceSol.Some?
  }

  /**
   * An exit is a later snapshot at most a quarter of an hour from the target, and a mark is a
   * priced exit or a priced later snapshot from before that window.
   */
  lemma ExitsAndMarksByAge(entry: Snap, s: Snap)
    ensures s.age == EXIT_TARGET_MS + Gap(s) || s.age == EXIT_TARGET_MS - Gap(s)
    ensures CanExit(entry, s) <==> s.age > entry.age && Gap(s) <= 15 * 60_000
    ensures CanMark(entry, s) <==>
      s.priceSol.Some? && (CanExit(entry, s) || entry.age < s.age < EXIT_TARGET_MS - 15 * 60_000)
  {
  }

  /** The exit chosen among the first `n` snapshots. */
  function ExitAmong(entry: Snap, snaps: seq<Snap>, n: nat): (exit: Option<Snap>)
    requires n <= |snaps|
    ensures exit.Some? ==> exit.value in snaps && CanExit(entry, exit.value)
    ensures forall i :: 0 <= i < n && CanExit(entry, snaps[i]) ==> exit.Some? && Gap(exit.value) <= Gap(snaps[i])
  {
    if n == 0 then None
    else
      var exit, s := ExitAmong(entry, snaps, n - 1), snaps[n - 1];
      if CanExit(entry, s) && (exit.None? || Gap(s) < Gap(exit.value)) then Some(s) else exit
  }

  /** The last priced snapshot by age among the first `n`. */
  function MarkAmong(entry: Snap, snaps: seq<Snap>, n: nat): (mark: Option<Snap>)
    requires n <= |snaps|
    ensures mark.Some? ==> mark.value in snaps && CanMark(entry, mark.value)
    ensures forall i :: 0 <= i < n && CanMark(entry, snaps[i]) ==> mark.Some? && snaps[i].age <= mark.value.age
  {
    if n == 0 then None
    else
      var mark, s := MarkAmong(entry, snaps, n - 1), snaps[n - 1];
      if CanMark(entry, s) && (mark.None? || s.age > mark.value.age) then Some(s) else mark
  }

  function ObservationOf(entry: Snap, snaps: seq<Snap>): Observation {
    var exit := ExitAmong(entry, snaps, |snaps|);
    var mark := MarkAmong(entry, snaps, |snaps|);
    var priced := entry.priceSol.Some? && entry.priceSol.value > 0.0;
    var gross :=
      if exit.Some? && priced && exit.value.priceSol.Some?
      then Some(exit.value.priceSol.value / entry.priceSol.value - 1.0) else None;
    var carry :=
      if gross.Some? then gross
      else if priced && mark.Some? then Some(mark.value.priceSol.value / entry.priceSol.value - 1.0)
      else None;
    Observation(gross, exit.None?, priced, carry, gross.None? && carry.Some?)
  }

  method Observe(entry: Snap, snaps: seq<Snap>) returns (o: Observation)
    ensures o == ObservationOf(entry, snaps)
  {
    var exit: Option<Snap> := None;
    var bestGap: Option<nat> := None;
    for k := 0 to |snaps|
      invariant exit == ExitAmong(entry, snaps, k)
      invariant bestGap == if exit.Some? then Some(Gap(exit.value)) else None
    {
      var s := snaps[k];
      if s.age <= entry.age || s.age < EXIT_LO_MS || s.age > EXIT_HI_MS { continue; }
      var gap := Gap(s);
      if bestGap.None? || gap < bestGap.value {
        bestGap := Some(gap);
        exit := Some(s);
      }
    }
    var gross :=
      if exit.None? || entry.priceSol.None? || exit.value.priceSol.None? || entry.priceSol.value <= 0.0 then None
      else Some(exit.value.priceSol.value / entry.priceSol.value - 1.0);
    var lastMark: Option<Snap> := None;
    for k := 0 to |snaps|
      invariant lastMark == MarkAmong(entry, snaps, k)
    {
      var s := snaps[k];
      if s.age <= entry.age || s.age > EXIT_HI_MS || s.priceSol.None? { continue; }
      if lastMark.None? || s.age > lastMark.value.age {
        lastMark := Some(s);
      }
    }
    var entryPriced := entry.priceSol.Some? && entry.priceSol.value > 0.0;
    var carryForward :=
      if gross.Some? then gross
      else if !entryPriced || lastMark.None? then None
      else Some(lastMark.value.priceSol.value / entry.priceSol.value - 1.0);
    o := Observation(gross, exit.None?, entryPriced, carryForward, gross.None? && carryForward.Some?);
  }

  /** Stored prices are positive: rows without a positive USD price are skipped and the rate is positive. */
  ghost predicate PositivePrices(snaps: seq<Snap>) {
    forall s :: s in snaps && s.priceSol.Some? ==> s.priceSol.value > 0.0
  }

  /** A return is above a total loss, belongs to a priced entry, and is never changed by carrying forward. */
  ghost predicate Plausible(o: Observation) {
    && (o.gross.Some? ==> o.entryPriced && o.gross.value > -1.0 && o.carryForward == o.gross)
    && (o.carryForward.Some? ==> o.entryPriced && o.carryForward.value > -1.0)
  }

  lemma PositiveRatio(a: real, b: real)
    requires a > 0.0 && b > 0.0
    ensures a / b - 1.0 > -1.0
  {
  }

  lemma ObservedIsPlausible(entry: Snap, snaps: seq<Snap>)
    requires PositivePrices(snaps)
    ensures Plausible(ObservationOf(entry, snaps))
  {
    var exit := ExitAmong(entry, snaps, |snaps|);
    var mark := MarkAmong(entry, snaps, |snaps|);
    if entry.priceSol.Some? && entry.priceSol.value > 0.0 {
      if exit.Some? && exit.value.priceSol.Some? {
        PositiveRatio(exit.value.priceSol.value, entry.priceSol.value);
      }
      if mark.Some? {
        PositiveRatio(mark.value.priceSol.value, entry.priceSol.value);
      }
    }
  }

  /** `gain` is what the price did between the entry and `s`. */
  predicate TurnsInto(entry: Snap, s: Snap, gain: real) {
    entry.priceSol.Some? && s.priceSol.Some? && (1.0 + gain) * entry.priceSol.value == s.priceSol.value
  }

  /** The earliest listed of the exits nearest the target is at `e`. */
  ghost predicate NearestExitAt(entry: Snap, snaps: seq<Snap>, e: nat) {
    && e < |snaps| && CanExit(entry, snaps[e])
    && (forall i :: 0 <= i < |snaps| && CanExit(entry, snaps[i]) ==> Gap(snaps[e]) <= Gap(snaps[i]))
    && (forall i :: 0 <= i < e && CanExit(entry, snaps[i]) ==> Gap(snaps[e]) < Gap(snaps[i]))
  }

  /** The earliest listed of the oldest marks is at `m`. */
  ghost predicate LastMarkAt(entry: Snap, snaps: seq<Snap>, m: nat) {
    && m < |snaps| && CanMark(entry, snaps[m])
    && (forall i :: 0 <= i < |snaps| && CanMark(entry, snaps[i]) ==> snaps[i].age <= snaps[m].age)
    && (forall i :: 0 <= i < m && CanMark(entry, snaps[i]) ==> snaps[i].age < snaps[m].age)
  }

  lemma {:induction false} ExitIsTheNearest(entry: Snap, snaps: seq<Snap>, n: nat) returns (e: nat)
    requires n <= |snaps|
    ensures var exit := ExitAmong(entry, snaps, n);
            exit.Some? ==> e < n && exit.value == snaps[e] && NearestExitAt(entry, snaps[..n], e)
  {
    if n == 0 {
      e := 0;
    } else {
      e := ExitIsTheNearest(entry, snaps, n - 1);
      assert forall i :: 0 <= i < n - 1 ==> snaps[..n - 1][i] == snaps[..n][i];
      var before := ExitAmong(entry, snaps, n - 1);
      if CanExit(entry, snaps[n - 1]) && (before.None? || Gap(snaps[n - 1]) < Gap(before.value)) {
        e := n - 1;
      }
    }
  }

  lemma {:induction false} MarkIsTheLast(entry: Snap, snaps: seq<Snap>, n: nat) returns (m: nat)
    requires n <= |snaps|
    ensures var mark := MarkAmong(entry, snaps, n);
            mark.Some? ==> m < n && mark.value == snaps[m] && LastMarkAt(entry, snaps[..n], m)
  {
    if n == 0 {
      m := 0;
    } else {
      m := MarkIsTheLast(entry, snaps, n - 1);
      assert forall i :: 0 <= i < n - 1 ==> snaps[..n - 1][i] == snaps[..n][i];
      var before := MarkAmong(entry, snaps, n - 1);
      if CanMark(entry, snaps[n - 1]) && (before.None? || snaps[n - 1].age > before.value.age) {
        m := n - 1;
      }
    }
  }

  lemma GainTurnsInto(entry: Snap, s: Snap)
    requires entry.priceSol.Some? && entry.priceSol.value > 0.0 && s.priceSol.Some?
    ensures TurnsInto(entry, s, s.priceSol.value / entry.priceSol.value - 1.0)
  {
  }

  lemma ChosenAreTheNearestAndTheLast(entry: Snap, snaps: seq<Snap>)
    ensures var exit := ExitAmong(entry, snaps, |snaps|);
            && (exit.None? <==> forall i :: 0 <= i < |snaps| ==> !CanExit(entry, snaps[i]))
            && (exit.Some? ==> exists e: nat :: NearestExitAt(entry, snaps, e))
            && (forall e: nat :: NearestExitAt(entry, snaps, e) ==> exit == Some(snaps[e]))
    ensures var mark := MarkAmong(entry, snaps, |snaps|);
            && (mark.None? <==> forall i :: 0 <= i < |snaps| ==> !CanMark(entry, snaps[i]))
            && (mark.Some? ==> exists m: nat :: LastMarkAt(entry, snaps, m))
            && (forall m: nat :: LastMarkAt(entry, snaps, m) ==> mark == Some(snaps[m]))
  {
    var e := ExitIsTheNearest(entry, snaps, |snaps|);
    var m := MarkIsTheLast(entry, snaps, |snaps|);
    assert snaps[..|snaps|] == snaps;
    forall e': nat | NearestExitAt(entry, snaps, e') ensures ExitAmong(entry, snaps, |snaps|) == Some(snaps[e']) {
      assert e' <= e && e <= e';
    }
    forall m': nat | LastMarkAt(entry, snaps, m') ensures MarkAmong(entry, snaps, |snaps|) == Some(snaps[m']) {
      assert m' <= m && m <= m';
    }
  }

  /**
   * A position is censored exactly when nothing can be its exit. It has a return exactly when
   * its entry and the earliest listed of the nearest exits are priced, and the return is the
   * change to that snapshot. It is carried forward by a mark exactly when it has no return, its
   * entry is priced and some mark follows, and then by the change to the earliest listed of the
   * oldest marks.
   */
  lemma ObservedExactlyWhen(entry: Snap, snaps: seq<Snap>)
    ensures var o := ObservationOf(entry, snaps);
            var marks := exists i :: 0 <= i < |snaps| && CanMark(entry, snaps[i]);
            && (o.censored <==> forall i :: 0 <= i < |snaps| ==> !CanExit(entry, snaps[i]))
            && (o.entryPriced <==> entry.priceSol.Some? && entry.priceSol.value > 0.0)
            && (o.gross.Some? <==>
                  o.entryPriced && exists e: nat :: NearestExitAt(entry, snaps, e) && snaps[e].priceSol.Some?)
            && (o.gross.Some? ==> o.carryForward == o.gross)
            && (o.carryForwardMarked <==> o.gross.None? && o.entryPriced && marks)
            && (o.carryForward.Some? <==> o.entryPriced && marks)
  {
    var o := ObservationOf(entry, snaps);
    ChosenAreTheNearestAndTheLast(entry, snaps);
    if o.gross.Some? {
      assert CanMark(entry, ExitAmong(entry, snaps, |snaps|).value);
    }
  }

  lemma ReturnIsTheChange(entry: Snap, snaps: seq<Snap>, e: nat)
    requires ObservationOf(entry, snaps).gross.Some? && NearestExitAt(entry, snaps, e)
    ensures TurnsInto(entry, snaps[e], ObservationOf(entry, snaps).gross.value)
  {
    assert ExitAmong(entry, snaps, |snaps|) == Some(snaps[e]) by {
      ChosenAreTheNearestAndTheLast(entry, snaps);
    }
    GainTurnsInto(entry, snaps[e]);
  }

  lemma MarkedReturnIsTheChange(entry: Snap, snaps: seq<Snap>, m: nat)
    requires ObservationOf(entry, snaps).carryForwardMarked && LastMarkAt(entry, snaps, m)
    ensures TurnsInto(entry, snaps[m], ObservationOf(entry, snaps).carryForward.value)
  {
    assert MarkAmong(entry, snaps, |snaps|) == Some(snaps[m]) by {
      ChosenAreTheNearestAndTheLast(entry, snaps);
    }
    GainTurnsInto(entry, snaps[m]);
  }

  // ---- the three means of a cell ----

  function Grosses(cell: seq<Observation>): seq<real> {
    if cell == [] then []
    else (if cell[0].gross.Some? then [cell[0].gross.value] else []) + Grosses(cell[1..])
  }

  function Carries(cell: seq<Observation>): seq<real> {
    if cell == [] then []
    else (if cell[0].carryForward.Some? then [cell[0].carryForward.value] else []) + Carries(cell[1..])
  }

  /** Every priced entry, with a total loss where there is no return. */
  function Zeros(cell: seq<Observation>): seq<real> {
    if cell == [] then []
    else
      var v := if cell[0].gross.Some? then cell[0].gross.value else -1.0;
      (if cell[0].entryPriced then [v] else []) + Zeros(cell[1..])
  }

  /** One more observation enters the reported mean if it has a return. */
  lemma {:induction false} GrossesGrow(cell: seq<Observation>, o: Observation)
    ensures Grosses([]) == []
    ensures Grosses(cell + [o]) == if o.gross.Some? then Grosses(cell) + [o.gross.value] else Grosses(cell)
  {
    if cell == [] {
      assert cell + [o] == [o] && [o][1..] == [];
    } else {
      GrossesGrow(cell[1..], o);
      var head := if cell[0].gross.Some? then [cell[0].gross.value] else [];
      assert (cell + [o])[1..] == cell[1..] + [o];
      assert Grosses(cell + [o]) == head + Grosses(cell[1..] + [o]);
      if o.gross.Some? {
        assert head + (Grosses(cell[1..]) + [o.gross.value]) == Grosses(cell) + [o.gross.value];
      }
    }
  }

  /** It enters the carried mean if it has a carried return. */
  lemma {:induction false} CarriesGrow(cell: seq<Observation>, o: Observation)
    ensures Carries([]) == []
    ensures Carries(cell + [o]) ==
      if o.carryForward.Some? then Carries(cell) + [o.carryForward.value] else Carries(cell)
  {
    if cell == [] {
      assert cell + [o] == [o] && [o][1..] == [];
    } else {
      CarriesGrow(cell[1..], o);
      var head := if cell[0].carryForward.Some? then [cell[0].carryForward.value] else [];
      assert (cell + [o])[1..] == cell[1..] + [o];
      assert Carries(cell + [o]) == head + Carries(cell[1..] + [o]);
      if o.carryForward.Some? {
        assert head + (Carries(cell[1..]) + [o.carryForward.value]) == Carries(cell) + [o.carryForward.value];
      }
    }
  }

  /** It enters the written-off mean if its entry is priced, as a total loss if it has no return. */
  lemma {:induction false} ZerosGrow(cell: seq<Observation>, o: Observation)
    ensures Zeros([]) == []
    ensures !o.entryPriced ==> Zeros(cell + [o]) == Zeros(cell)
    ensures o.entryPriced && o.gross.Some? ==> Zeros(cell + [o]) == Zeros(cell) + [o.gross.value]
    ensures o.entryPriced && o.gross.None? ==> Zeros(cell + [o]) == Zeros(cell) + [-1.0]
  {
    if cell == [] {
      assert cell + [o] == [o] && [o][1..] == [];
    } else {
      ZerosGrow(cell[1..], o);
      assert (cell + [o])[1..] == cell[1..] + [o];
    }
  }

  ghost predicate AllPlausible(cell: seq<Observation>) {
    forall i :: 0 <= i < |cell| ==> Plausible(cell[i])
  }

  /** The written-off total differs from the reported one by one per position without a return. */
  lemma {:induction false} ZeroTotals(cell: seq<Observation>)
    requires AllPlausible(cell)
    ensures |Grosses(cell)| <= |Carries(cell)| <= |Zeros(cell)|
    ensures Sum(Zeros(cell)) == Sum(Grosses(cell)) - (|Zeros(cell)| - |Grosses(cell)|) as real
    ensures Sum(Grosses(cell)) >= -(|Grosses(cell)| as real)
    ensures Grosses(cell) != [] ==> Sum(Grosses(cell)) > -(|Grosses(cell)| as real)
  {
    if cell == [] {
    } else {
      var rest := cell[1..];
      ZeroTotals(rest);
      assert Plausible(cell[0]);
      SumHead(Zeros(cell), Zeros(rest));
      SumHead(Grosses(cell), Grosses(rest));
    }
  }

  /** Carrying forward never takes a position below its total loss. */
  lemma {:induction false} CarryTotals(cell: seq<Observation>)
    requires AllPlausible(cell)
    ensures |Grosses(cell)| <= |Carries(cell)| <= |Zeros(cell)|
    ensures Sum(Zeros(cell)) <= Sum(Carries(cell)) - (|Zeros(cell)| - |Carries(cell)|) as real
    ensures Sum(Zeros(cell)) == Sum(Carries(cell)) - (|Zeros(cell)| - |Carries(cell)|) as real
      <==> |Grosses(cell)| == |Carries(cell)|
    ensures Carries(cell) != [] ==> Sum(Carries(cell)) > -(|Carries(cell)| as real)
  {
    if cell == [] {
    } else {
      var rest := cell[1..];
      CarryTotals(rest);
      assert Plausible(cell[0]);
      SumHead(Zeros(cell), Zeros(rest));
      SumHead(Carries(cell), Carries(rest));
    }
  }

  lemma SumHead(xs: seq<real>, rest: seq<real>)
    requires xs == rest || (xs != [] && xs == [xs[0]] + rest)
    ensures xs == rest || Sum(xs) == xs[0] + Sum(rest)
  {
    if xs != rest {
      assert xs[1..] == rest;
    }
  }

  /**
   * Adding `k` total losses to `n` values above a total loss lowers the mean, strictly
   * unless nothing is added.
   */
  lemma DilutionLowers(total: real, n: int, lower: real, k: int)
    requires n > 0 && k >= 0 && total > -(n as real)
    requires lower <= total - k as real
    ensures lower / (n + k) as real <= total / n as real
    ensures lower / (n + k) as real == total / n as real <==> k == 0 && lower == total
  {
    var m := total / n as real;
    var a, b := n as real, k as real;
    assert total == m * a;
    assert m > -1.0 by {
      assert m * a > -1.0 * a;
    }
    assert lower <= m * a - b;
    assert m * (a + b) == m * a + m * b;
    assert m * b >= -b && (b > 0.0 ==> m * b > -b) by {
      assert (m + 1.0) * b >= 0.0;
      assert b > 0.0 ==> (m + 1.0) * b > 0.0;
    }
    assert (n + k) as real == a + b;
    assert lower <= m * (a + b) && (lower == m * (a + b) <==> k == 0 && lower == total);
    QuotientOrder(lower, a + b, m);
  }

  lemma QuotientOrder(x: real, d: real, m: real)
    requires d > 0.0 && x <= m * d
    ensures x / d <= m && (x / d == m <==> x == m * d)
  {
    var q := x / d;
    assert q * d == x;
    assert (m - q) * d == m * d - x;
    assert q > m ==> (q - m) * d > 0.0;
    assert q < m ==> (m - q) * d > 0.0;
  }

  /**
   * Writing every position without a return off at -100% gives a mean at most the one that
   * drops them and at most the one that carries them forward, whenever those exist and
   * although the three divide by different counts. It reaches either only when every priced
   * entry has a return.
   */
  lemma ResidualZeroIsTheBound(cell: seq<Observation>)
    requires AllPlausible(cell)
    ensures var gross, carry, zero := Mean(Grosses(cell)), Mean(Carries(cell)), Mean(Zeros(cell));
            var complete := |Grosses(cell)| == |Zeros(cell)|;
            && (gross.Some? ==> zero.Some? && zero.value <= gross.value && (zero.value == gross.value <==> complete))
            && (carry.Some? ==> zero.Some? && zero.value <= carry.value && (zero.value == carry.value <==> complete))
  {
    ZeroTotals(cell);
    CarryTotals(cell);
    var g, c, z := |Grosses(cell)|, |Carries(cell)|, |Zeros(cell)|;
    if g > 0 {
      DilutionLowers(Sum(Grosses(cell)), g, Sum(Zeros(cell)), z - g);
    }
    if c > 0 {
      DilutionLowers(Sum(Carries(cell)), c, Sum(Zeros(cell)), z - c);
    }
  }

  /** When even the written-off mean is positive, all three means exist and are positive: the signs agree. */
  lemma PositiveBoundSettlesTheSign(cell: seq<Observation>)
    requires AllPlausible(cell) && Mean(Zeros(cell)).Some? && Mean(Zeros(cell)).value > 0.0
    ensures Mean(Grosses(cell)).Some? && Mean(Grosses(cell)).value > 0.0
    ensures Mean(Carries(cell)).Some? && Mean(Carries(cell)).value > 0.0
  {
    ZeroTotals(cell);
    ResidualZeroIsTheBound(cell);
    if Grosses(cell) == [] {
      var n := |Zeros(cell)| as real;
      QuotientOrder(Sum(Zeros(cell)), n, -1.0);
    }
  }

  /** A fired entry together with its mint's snapshots. */
  datatype Fired = Fired(entry: Snap, snaps: seq<Snap>)

  function CellOf(fired: seq<Fired>): (cell: seq<Observation>)
    ensures |cell| == |fired| && forall i :: 0 <= i < |fired| ==>
      cell[i] == ObservationOf(fired[i].entry, fired[i].snaps)
  {
    if fired == [] then []
    else [ObservationOf(fired[0].entry, fired[0].snaps)] + CellOf(fired[1..])
  }

  /** The bound holds of every cell of every corpus with positive prices. */
  lemma {:induction false} BoundHoldsForCorpus(fired: seq<Fired>)
    requires forall i :: 0 <= i < |fired| ==> PositivePrices(fired[i].snaps)
    ensures AllPlausible(CellOf(fired))
    ensures var cell := CellOf(fired);
            var gross, carry, zero := Mean(Grosses(cell)), Mean(Carries(cell)), Mean(Zeros(cell));
            && (gross.Some? ==> zero.Some? && zero.value <= gross.value)
            && (carry.Some? ==> zero.Some? && zero.value <= carry.value)
  {
    forall i | 0 <= i < |fired| ensures Plausible(CellOf(fired)[i]) {
      ObservedIsPlausible(fired[i].entry, fired[i].snaps);
    }
    ResidualZeroIsTheBound(CellOf(fired));
  }
}
