/**
 * How other mints' later snapshots move a control entry: a T6 or T7 threshold is fitted on the
 * whole windows of the fit half, so an entry can depend on what a fit mint does after it
 * (scripts/phase-b-triggers.ts).
 */
module FitFutures {
  import opened Prelude
  import opened Sorting
  import opened Triggers
  import opened TriggerRun

  // ---- an entry by counting over the fit half ----

  function Exceeds(own: Option<real>, y: real): nat {
    if own.Some? && own.value > y then 1 else 0
  }

  /** How many of the values, and of one more if there is one, lie above `y`. */
  function AboveIn(values: seq<real>, own: Option<real>): real -> int {
    y => Count(values, Above(y)) + Exceeds(own, y)
  }

  /**
   * Fewer values than the threshold's rank lie above the value at `e`, and at least that many
   * above every earlier one in the window.
   */
  predicate EntersBy(field: Field, snaps: seq<Snap>, e: nat, rank: int, above: real -> int)
    requires e < |snaps| && Pick(field, snaps[e]).Some?
  {
    && above(Pick(field, snaps[e]).value) < rank
    && forall j :: 0 <= j < e && InWindow(snaps[j]) && Pick(field, snaps[j]).Some? ==>
         rank <= above(Pick(field, snaps[j]).value)
  }

  lemma SameAbove(field: Field, snaps: seq<Snap>, e: nat, rank: int, above: real -> int, other: real -> int)
    requires e < |snaps| && Pick(field, snaps[e]).Some?
    requires forall y :: Agree(above, other, y)
    ensures EntersBy(field, snaps, e, rank, above) <==> EntersBy(field, snaps, e, rank, other)
  {
    assert Agree(above, other, Pick(field, snaps[e]).value);
    assert forall j :: 0 <= j < e && Pick(field, snaps[j]).Some? ==> Agree(above, other, Pick(field, snaps[j]).value);
  }

  predicate Agree(above: real -> int, other: real -> int, y: real) {
    above(y) == other(y)
  }

  predicate CountsEnter(field: Field, fitMints: seq<seq<Snap>>, capSol: real, snaps: seq<Snap>, e: nat)
    requires e < |snaps| && Pick(field, snaps[e]).Some?
  {
    var values := Values(field, fitMints);
    EntersBy(field, snaps, e, Rank(FireCount(Tier(capSol, None), fitMints), |values|), AboveIn(values, None))
  }

  lemma InWindowIsDated(days: set<int>, snaps: seq<Snap>, e: nat)
    requires e < |snaps| && InWindow(snaps[e])
    ensures HalfOf(days, snaps).Some?
  {
  }

  lemma FiresAtExactlyWhen(field: Field, fitMints: seq<seq<Snap>>, capSol: real, snaps: seq<Snap>, e: nat)
    requires e < |snaps| && InWindow(snaps[e]) && Pick(field, snaps[e]).Some?
    ensures FireIndex(Control(field, FittedThreshold(field, fitMints, capSol)), snaps, 0) == e
       <==> CountsEnter(field, fitMints, capSol, snaps, e)
  {
    var values := Values(field, fitMints);
    if values == [] {
      SortKeeps(values, Identity);
      assert FittedThreshold(field, fitMints, capSol) == None;
    } else {
      FittedAtMost(field, fitMints, capSol, Pick(field, snaps[e]).value);
      var threshold := FittedThreshold(field, fitMints, capSol).value;
      ControlEntersAt(field, threshold, snaps, e);
      forall j | 0 <= j < e && InWindow(snaps[j]) && Pick(field, snaps[j]).Some?
        ensures var y := Pick(field, snaps[j]).value;
                var rank := Rank(FireCount(Tier(capSol, None), fitMints), |values|);
                threshold <= y <==> Count(values, Above(y)) < rank
      {
        FittedAtMost(field, fitMints, capSol, Pick(field, snaps[j]).value);
      }
    }
  }

  /** In any corpus a mint of either half is entered at `e` exactly when it is eligible and the counts say so. */
  lemma ControlEntryExactlyWhen(corpus: Corpus, field: Field, capSol: real, i: nat, e: nat)
    requires i < |corpus| && e < |corpus[i]| && InWindow(corpus[i][e]) && Pick(field, corpus[i][e]).Some?
    ensures EntryOf(corpus, Fitted(field), capSol, i) == Some(e)
       <==> Eligible(corpus[i])
            && CountsEnter(field, FitMints(Days(corpus), corpus, 0, |corpus|), capSol, corpus[i], e)
  {
    InWindowIsDated(Days(corpus), corpus[i], e);
    FiresAtExactlyWhen(field, FitMints(Days(corpus), corpus, 0, |corpus|), capSol, corpus[i], e);
  }

  // ---- the fit half and the past decide ----

  /**
   * In two corpora with the same fit mints, two mints that agree on a prefix which makes them
   * eligible have the same T6 or T7 entry by then, or neither has one.
   */
  lemma SameFitSamePast(corpus: Corpus, other: Corpus, field: Field, capSol: real,
                        i: nat, j: nat, k: nat, e: nat)
    requires i < |corpus| && j < |other|
    requires FitMints(Days(corpus), corpus, 0, |corpus|) == FitMints(Days(other), other, 0, |other|)
    requires e < k <= |corpus[i]| && k <= |other[j]| && corpus[i][..k] == other[j][..k]
    requires Eligible(corpus[i][..k])
    ensures EntryOf(corpus, Fitted(field), capSol, i) == Some(e)
       <==> EntryOf(other, Fitted(field), capSol, j) == Some(e)
  {
    var trigger := TriggerOf(corpus, Fitted(field), capSol);
    DecidedByPrefix(trigger, corpus[i], k);
    DecidedByPrefix(trigger, other[j], k);
    EligiblePrefix(corpus, i, k);
    EligiblePrefix(other, j, k);
  }

  lemma EligiblePrefix(corpus: Corpus, i: nat, k: nat)
    requires i < |corpus| && k <= |corpus[i]| && Eligible(corpus[i][..k])
    ensures Eligible(corpus[i]) && HalfOf(Days(corpus), corpus[i]).Some?
  {
    var m :| 0 <= m < k && InWindow(corpus[i][..k][m]) && corpus[i][..k][m].mcapSol.Some?;
    InWindowIsDated(Days(corpus), corpus[i], m);
  }

  // ---- one other fit mint's future ----

  /** Mint `i` is entered at `e` when fit mint `f` contributes `own`, or nothing, and T1's count is `wanted`. */
  predicate EntersWith(corpus: Corpus, field: Field, f: nat, i: nat, e: nat, wanted: int, own: Option<real>)
    requires f < |corpus| && i < |corpus| && e < |corpus[i]| && Pick(field, corpus[i][e]).Some?
  {
    var others := Values(field, OtherFit(corpus, f));
    EntersBy(field, corpus[i], e, Rank(wanted, |others| + (if own.Some? then 1 else 0)), AboveIn(others, own))
  }

  /** A mint without the field adds no value; T1 may still fire on it. */
  lemma ValuesWithout(field: Field, xs: seq<seq<Snap>>, ys: seq<seq<Snap>>, a: seq<Snap>)
    requires Best(field, a, |a|).None?
    ensures Values(field, xs + [a] + ys) == Values(field, xs + ys)
  {
    ValuesApart(field, xs, ys);
    ValuesApart(field, xs + [a], ys);
    ValuesApart(field, xs, [a]);
    assert Values(field, [a]) == Values(field, [a][1..]) == [];
  }

  /** The fit half in the corpus where fit mint `f` has another future. */
  lemma FitMintsWithFuture(corpus: Corpus, f: nat, g: nat, future: seq<Snap>)
    requires f < |corpus| && g < |corpus[f]| && InWindow(corpus[f][g])
    requires HalfOf(Days(corpus), corpus[f]) == Some(Fit)
    ensures var days, other := Days(corpus), WithFuture(corpus, f, g, future);
            FitMints(Days(other), other, 0, |other|)
            == FitMints(days, corpus, 0, f) + (if Eligible(other[f]) then [other[f]] else [])
               + FitMints(days, corpus, f + 1, |corpus|)
  {
    var days, other, n := Days(corpus), WithFuture(corpus, f, g, future), |corpus|;
    FutureKeepsSplit(corpus, f, g, future);
    FitMintsAround(days, other, f, n);
    FitMintsApart(days, corpus, other, 0, f);
    FitMintsApart(days, corpus, other, f + 1, n);
  }

  /** One more fit mint adds its best value, if it has one, to every count. */
  lemma OwnCounts(field: Field, xs: seq<seq<Snap>>, ys: seq<seq<Snap>>, a: seq<Snap>, y: real)
    ensures var own := Best(field, a, |a|);
            var all, others := Values(field, xs + [a] + ys), Values(field, xs + ys);
            && |all| == |others| + (if own.Some? then 1 else 0)
            && Count(all, Above(y)) == Count(others, Above(y)) + Exceeds(own, y)
  {
    if Best(field, a, |a|).None? {
      ValuesWithout(field, xs, ys, a);
    } else {
      ValuesWithOne(field, xs, ys, a, y);
    }
  }

  /** The same rank and the same counts decide alike. */
  lemma CountsWith(corpus: Corpus, field: Field, capSol: real, f: nat, snaps: seq<Snap>, i: nat, e: nat,
                   xs: seq<seq<Snap>>, ys: seq<seq<Snap>>)
    requires f < |corpus| && i < |corpus| && e < |corpus[i]| && Pick(field, corpus[i][e]).Some?
    requires OtherFit(corpus, f) == xs + ys
    ensures CountsEnter(field, xs + [snaps] + ys, capSol, corpus[i], e)
       <==> EntersWith(corpus, field, f, i, e, T1Count(corpus, capSol, f, snaps), Best(field, snaps, |snaps|))
  {
    var own, others, all := Best(field, snaps, |snaps|), Values(field, xs + ys), Values(field, xs + [snaps] + ys);
    var rank := Rank(T1Count(corpus, capSol, f, snaps), |all|);
    AboveWithOne(field, xs, ys, snaps);
    assert FireCount(Tier(capSol, None), xs + [snaps] + ys) == T1Count(corpus, capSol, f, snaps) by {
      FireCountWithOne(Tier(capSol, None), xs, ys, snaps);
    }
    SameAbove(field, corpus[i], e, rank, AboveIn(all, None), AboveIn(others, own));
  }

  lemma AboveWithOne(field: Field, xs: seq<seq<Snap>>, ys: seq<seq<Snap>>, a: seq<Snap>)
    ensures var own := Best(field, a, |a|);
            var all, others := Values(field, xs + [a] + ys), Values(field, xs + ys);
            && |all| == |others| + (if own.Some? then 1 else 0)
            && forall y :: Agree(AboveIn(all, None), AboveIn(others, own), y)
  {
    var own := Best(field, a, |a|);
    var all, others := Values(field, xs + [a] + ys), Values(field, xs + ys);
    OwnCounts(field, xs, ys, a, 0.0);
    forall y ensures Agree(AboveIn(all, None), AboveIn(others, own), y) {
      OwnCounts(field, xs, ys, a, y);
    }
  }

  lemma CountsWithout(corpus: Corpus, field: Field, capSol: real, f: nat, i: nat, e: nat)
    requires f < |corpus| && i < |corpus| && e < |corpus[i]| && Pick(field, corpus[i][e]).Some?
    ensures CountsEnter(field, OtherFit(corpus, f), capSol, corpus[i], e)
       <==> EntersWith(corpus, field, f, i, e, FireCount(Tier(capSol, None), OtherFit(corpus, f)), None)
  {
  }

  /** With a given other future of fit mint `f`, another mint's control entry stands exactly by these counts. */
  lemma EntryWithOthersFuture(corpus: Corpus, field: Field, capSol: real, f: nat, g: nat, future: seq<Snap>,
                              i: nat, e: nat)
    requires f < |corpus| && g < |corpus[f]| && InWindow(corpus[f][g])
    requires HalfOf(Days(corpus), corpus[f]) == Some(Fit)
    requires i < |corpus| && i != f && EntryOf(corpus, Fitted(field), capSol, i) == Some(e)
    ensures Pick(field, corpus[i][e]).Some?
    ensures var other := WithFuture(corpus, f, g, future);
            var fires := FireCount(Tier(capSol, None), OtherFit(corpus, f));
            EntryOf(other, Fitted(field), capSol, i) == Some(e) <==>
              if Eligible(other[f]) then
                EntersWith(corpus, field, f, i, e, T1Count(corpus, capSol, f, other[f]),
                           Best(field, other[f], |other[f]|))
              else EntersWith(corpus, field, f, i, e, fires, None)
  {
    var other := WithFuture(corpus, f, g, future);
    assert Accepts(TriggerOf(corpus, Fitted(field), capSol), corpus[i][0], corpus[i][e]);
    var xs, ys := FitMints(Days(corpus), corpus, 0, f), FitMints(Days(corpus), corpus, f + 1, |corpus|);
    FitMintsWithFuture(corpus, f, g, future);
    if Eligible(other[f]) {
      CountsWith(corpus, field, capSol, f, other[f], i, e, xs, ys);
    } else {
      assert xs + [] + ys == xs + ys;
      CountsWithout(corpus, field, capSol, f, i, e);
    }
    ControlEntryExactlyWhen(other, field, capSol, i, e);
  }

  // ---- when it stands whatever that fit mint does ----

  /** Fewer others than the rank less one lie above the entry's value, so it stands even if `f` rises above it. */
  predicate StaysBelow(corpus: Corpus, field: Field, f: nat, i: nat, e: nat, wanted: int)
    requires f < |corpus| && i < |corpus| && e < |corpus[i]| && Pick(field, corpus[i][e]).Some?
  {
    OthersAbove(corpus, field, f, Pick(field, corpus[i][e]).value) + 1
    < Rank(wanted, |Values(field, OtherFit(corpus, f))| + 1)
  }

  /** Every earlier value stays under the threshold with what `f` has reached so far. */
  predicate StaysAbove(corpus: Corpus, field: Field, f: nat, i: nat, e: nat, wanted: int, own: Option<real>)
    requires f < |corpus| && i < |corpus| && e < |corpus[i]|
  {
    forall j :: 0 <= j < e && InWindow(corpus[i][j]) && Pick(field, corpus[i][j]).Some? ==>
      var u := Pick(field, corpus[i][j]).value;
      Rank(wanted, |Values(field, OtherFit(corpus, f))| + 1) <= OthersAbove(corpus, field, f, u) + Exceeds(own, u)
  }

  lemma RankGrows(wanted: int, n: nat)
    ensures Rank(wanted, n) <= Rank(wanted, n + 1) <= Rank(wanted, n) + 1
  {
  }

  lemma {:induction false} BestOfPrefix(field: Field, seen: seq<Snap>, future: seq<Snap>, n: nat)
    requires n <= |seen|
    ensures Best(field, seen + future, n) == Best(field, seen, n)
  {
    if n == 0 {
    } else {
      assert (seen + future)[n - 1] == seen[n - 1];
      BestOfPrefix(field, seen, future, n - 1);
    }
  }

  lemma {:induction false} BestGrows(field: Field, snaps: seq<Snap>, m: nat, n: nat, y: real)
    requires m <= n <= |snaps|
    ensures Best(field, snaps, m).Some? ==> Best(field, snaps, n).Some?
    ensures Exceeds(Best(field, snaps, m), y) <= Exceeds(Best(field, snaps, n), y)
    decreases n
  {
    if m == n {
    } else {
      BestGrows(field, snaps, m, n - 1, y);
    }
  }

  lemma StandsForOne(corpus: Corpus, field: Field, f: nat, i: nat, e: nat, wanted: int, past: Option<real>,
                     own: Option<real>)
    requires f < |corpus| && i < |corpus| && e < |corpus[i]| && Pick(field, corpus[i][e]).Some?
    requires StaysBelow(corpus, field, f, i, e, wanted) && StaysAbove(corpus, field, f, i, e, wanted, past)
    requires forall y :: Exceeds(past, y) <= Exceeds(own, y)
    ensures EntersWith(corpus, field, f, i, e, wanted, own)
  {
    RankGrows(wanted, |Values(field, OtherFit(corpus, f))|);
  }

  /**
   * Another mint's T6 or T7 entry stands whatever fit mint `f` does after snapshot `g` exactly
   * when it stands with `f` rising above the entry's value, with `f` reaching no more than it
   * has, with T1 firing on `f` from now on or not, and, if `f` is not yet eligible, without it.
   */
  lemma OthersFutureLeavesEntryExactlyWhen(
    corpus: Corpus, field: Field, capSol: real, f: nat, g: nat, i: nat, e: nat)
    requires f < |corpus| && g < |corpus[f]| && InWindow(corpus[f][g])
    requires HalfOf(Days(corpus), corpus[f]) == Some(Fit)
    requires i < |corpus| && i != f && EntryOf(corpus, Fitted(field), capSol, i) == Some(e)
    ensures Pick(field, corpus[i][e]).Some?
    ensures (forall future :: EntryOf(WithFuture(corpus, f, g, future), Fitted(field), capSol, i) == Some(e))
       <==> StandsWhatever(corpus, field, capSol, f, g, i, e)
  {
    EntryWithOthersFuture(corpus, field, capSol, f, g, [], i, e);
    if StandsWhatever(corpus, field, capSol, f, g, i, e) {
      forall future ensures EntryOf(WithFuture(corpus, f, g, future), Fitted(field), capSol, i) == Some(e) {
        StandsWithOthersFuture(corpus, field, capSol, f, g, future, i, e);
      }
    } else {
      var future := MovedByOther(corpus, field, capSol, f, g, i, e);
    }
  }

  predicate StandsWhatever(corpus: Corpus, field: Field, capSol: real, f: nat, g: nat, i: nat, e: nat)
    requires f < |corpus| && g < |corpus[f]| && i < |corpus| && e < |corpus[i]| && Pick(field, corpus[i][e]).Some?
  {
    var seen, fires := corpus[f][..g + 1], FireCount(Tier(capSol, None), OtherFit(corpus, f));
    var past, now := Best(field, seen, |seen|), T1Count(corpus, capSol, f, seen);
    && StaysBelow(corpus, field, f, i, e, now) && StaysAbove(corpus, field, f, i, e, now, past)
    && StaysBelow(corpus, field, f, i, e, fires + 1) && StaysAbove(corpus, field, f, i, e, fires + 1, past)
    && (Eligible(seen) || EntersWith(corpus, field, f, i, e, fires, None))
  }

  lemma StandsWithOthersFuture(
    corpus: Corpus, field: Field, capSol: real, f: nat, g: nat, future: seq<Snap>, i: nat, e: nat)
    requires f < |corpus| && g < |corpus[f]| && InWindow(corpus[f][g])
    requires HalfOf(Days(corpus), corpus[f]) == Some(Fit)
    requires i < |corpus| && i != f && EntryOf(corpus, Fitted(field), capSol, i) == Some(e)
    requires Pick(field, corpus[i][e]).Some? && StandsWhatever(corpus, field, capSol, f, g, i, e)
    ensures EntryOf(WithFuture(corpus, f, g, future), Fitted(field), capSol, i) == Some(e)
  {
    var seen, snaps := corpus[f][..g + 1], WithFuture(corpus, f, g, future)[f];
    EntryWithOthersFuture(corpus, field, capSol, f, g, future, i, e);
    if Eligible(snaps) {
      FiresKept(Tier(capSol, None), seen, future);
      BestOfPrefix(field, seen, future, |seen|);
      forall y ensures Exceeds(Best(field, seen, |seen|), y) <= Exceeds(Best(field, snaps, |snaps|), y) {
        BestGrows(field, snaps, |seen|, |snaps|, y);
      }
      StandsForOne(corpus, field, f, i, e, T1Count(corpus, capSol, f, snaps),
                   Best(field, seen, |seen|), Best(field, snaps, |snaps|));
    } else if Eligible(seen) {
      EligibleKept(seen, future);
    }
  }

  // ---- the futures that move it ----

  /** One more snapshot like `s` makes the mint eligible, and contributes `v` and T1's fire if its cap is enough. */
  lemma OneLater(corpus: Corpus, field: Field, capSol: real, f: nat, g: nat, v: real, cap: real)
    requires f < |corpus| && g < |corpus[f]| && InWindow(corpus[f][g])
    ensures var seen := corpus[f][..g + 1];
            var snaps := seen + [Later(corpus[f][g], v, Some(cap))];
            var past, own := Best(field, seen, |seen|), Best(field, snaps, |snaps|);
            && Eligible(snaps)
            && own == Higher(past, v)
            && (cap < capSol ==> T1Count(corpus, capSol, f, snaps) == T1Count(corpus, capSol, f, seen))
            && (cap == capSol ==>
                  T1Count(corpus, capSol, f, snaps) == FireCount(Tier(capSol, None), OtherFit(corpus, f)) + 1)
  {
    var seen, later := corpus[f][..g + 1], Later(corpus[f][g], v, Some(cap));
    var snaps := seen + [later];
    assert snaps[|seen|] == later && InWindow(later);
    BestOfPrefix(field, seen, [later], |seen|);
    OneMore(Tier(capSol, None), seen, later);
  }

  /** If the entry stood under one later snapshot with value `v`, these counts hold. */
  lemma StoodWith(corpus: Corpus, field: Field, capSol: real, f: nat, g: nat, i: nat, e: nat, v: real, cap: real)
    requires f < |corpus| && g < |corpus[f]| && InWindow(corpus[f][g])
    requires HalfOf(Days(corpus), corpus[f]) == Some(Fit)
    requires i < |corpus| && i != f && EntryOf(corpus, Fitted(field), capSol, i) == Some(e)
    requires cap <= capSol && Pick(field, corpus[i][e]).Some?
    ensures var seen := corpus[f][..g + 1];
            var past := Best(field, seen, |seen|);
            EntryOf(WithFuture(corpus, f, g, [Later(corpus[f][g], v, Some(cap))]), Fitted(field), capSol, i) == Some(e)
            <==> EntersWith(corpus, field, f, i, e, WantedAt(corpus, capSol, f, g, cap), Higher(past, v))
  {
    OneLater(corpus, field, capSol, f, g, v, cap);
    EntryWithOthersFuture(corpus, field, capSol, f, g, [Later(corpus[f][g], v, Some(cap))], i, e);
  }

  lemma MovedByOther(corpus: Corpus, field: Field, capSol: real, f: nat, g: nat, i: nat, e: nat)
    returns (future: seq<Snap>)
    requires f < |corpus| && g < |corpus[f]| && InWindow(corpus[f][g])
    requires HalfOf(Days(corpus), corpus[f]) == Some(Fit)
    requires i < |corpus| && i != f && EntryOf(corpus, Fitted(field), capSol, i) == Some(e)
    requires Pick(field, corpus[i][e]).Some? && !StandsWhatever(corpus, field, capSol, f, g, i, e)
    ensures EntryOf(WithFuture(corpus, f, g, future), Fitted(field), capSol, i) != Some(e)
  {
    var seen, fires := corpus[f][..g + 1], FireCount(Tier(capSol, None), OtherFit(corpus, f));
    if !Eligible(seen) && !EntersWith(corpus, field, f, i, e, fires, None) {
      future := [];
      assert seen + [] == seen;
      EntryWithOthersFuture(corpus, field, capSol, f, g, [], i, e);
    } else {
      var now := T1Count(corpus, capSol, f, seen);
      var past := Best(field, seen, |seen|);
      var quiet := !(StaysBelow(corpus, field, f, i, e, now) && StaysAbove(corpus, field, f, i, e, now, past));
      future := MovedWithCap(corpus, field, capSol, f, g, i, e, if quiet then capSol - 1.0 else capSol);
    }
  }

  /** T1's count with `f` as it is so far and one more snapshot at this cap. */
  function WantedAt(corpus: Corpus, capSol: real, f: nat, g: nat, cap: real): nat
    requires f < |corpus| && g < |corpus[f]|
  {
    if cap < capSol then T1Count(corpus, capSol, f, corpus[f][..g + 1])
    else FireCount(Tier(capSol, None), OtherFit(corpus, f)) + 1
  }

  lemma MovedWithCap(corpus: Corpus, field: Field, capSol: real, f: nat, g: nat, i: nat, e: nat, cap: real)
    returns (future: seq<Snap>)
    requires f < |corpus| && g < |corpus[f]| && InWindow(corpus[f][g])
    requires HalfOf(Days(corpus), corpus[f]) == Some(Fit)
    requires i < |corpus| && i != f && EntryOf(corpus, Fitted(field), capSol, i) == Some(e)
    requires cap <= capSol && Pick(field, corpus[i][e]).Some?
    requires var wanted, seen := WantedAt(corpus, capSol, f, g, cap), corpus[f][..g + 1];
             !(StaysBelow(corpus, field, f, i, e, wanted)
               && StaysAbove(corpus, field, f, i, e, wanted, Best(field, seen, |seen|)))
    ensures EntryOf(WithFuture(corpus, f, g, future), Fitted(field), capSol, i) != Some(e)
  {
    var wanted, seen := WantedAt(corpus, capSol, f, g, cap), corpus[f][..g + 1];
    var past, y := Best(field, seen, |seen|), Pick(field, corpus[i][e]).value + 1.0;
    if StaysBelow(corpus, field, f, i, e, wanted) {
      y := EarlierReached(corpus, field, f, i, e, wanted, past);
    } else {
      HigherFails(corpus, field, f, i, e, wanted, Higher(past, y));
    }
    StoodWith(corpus, field, capSol, f, g, i, e, y, cap);
    future := [Later(corpus[f][g], y, Some(cap))];
  }

  function Higher(past: Option<real>, y: real): Option<real> {
    Some(if past.Some? && past.value >= y then past.value else y)
  }

  lemma HigherFails(corpus: Corpus, field: Field, f: nat, i: nat, e: nat, wanted: int, own: Option<real>)
    requires f < |corpus| && i < |corpus| && e < |corpus[i]| && Pick(field, corpus[i][e]).Some?
    requires !StaysBelow(corpus, field, f, i, e, wanted) && own.Some? && own.value > Pick(field, corpus[i][e]).value
    ensures !EntersWith(corpus, field, f, i, e, wanted, own)
  {
  }

  /** An earlier value that is not kept under the threshold, and is not when `f` reaches it too. */
  lemma EarlierReached(corpus: Corpus, field: Field, f: nat, i: nat, e: nat, wanted: int, past: Option<real>)
    returns (u: real)
    requires f < |corpus| && i < |corpus| && e < |corpus[i]| && Pick(field, corpus[i][e]).Some?
    requires !StaysAbove(corpus, field, f, i, e, wanted, past)
    ensures !EntersWith(corpus, field, f, i, e, wanted, Higher(past, u))
  {
    var others := Values(field, OtherFit(corpus, f));
    var j :| 0 <= j < e && InWindow(corpus[i][j]) && Pick(field, corpus[i][j]).Some?
          && !(Rank(wanted, |others| + 1)
               <= OthersAbove(corpus, field, f, Pick(field, corpus[i][j]).value)
                  + Exceeds(past, Pick(field, corpus[i][j]).value));
    u := Pick(field, corpus[i][j]).value;
    assert Exceeds(Higher(past, u), u) == Exceeds(past, u);
    assert AboveIn(others, Higher(past, u))(u) < Rank(wanted, |others| + 1);
  }

  // ---- a holdout entry moved by a fit mint ----

  /**
   * A fit mint is seen with an inflow of five before midnight and again half an hour later. A
   * holdout mint is seen in between with an inflow of seven: it is entered at once if the fit
   * mint's later inflow is nothing, and not at all if it is ten.
   */
  lemma FitFutureMovesHoldout()
    ensures EntryOf(MidnightCorpus(0.0), Fitted(NetInflow), 1.0, 1) == Some(0)
    ensures EntryOf(MidnightCorpus(10.0), Fitted(NetInflow), 1.0, 1) == None
    ensures Eligible(MidnightCorpus(0.0)[1][..1])
  {
    MidnightEntry(0.0);
    MidnightEntry(10.0);
    assert InWindow(MidnightCorpus(0.0)[1][..1][0]);
  }

  function MidnightCorpus(later: real): Corpus {
    [[Snap(ENTRY_LO_MS, 86_340_000, None, Some(0.0), Some(5.0), None),
      Snap(ENTRY_LO_MS + 1_860_000, 88_200_000, None, Some(0.0), Some(later), None)],
     [Snap(ENTRY_LO_MS, 86_700_000, None, Some(0.0), Some(7.0), None)]]
  }

  lemma MidnightEntry(later: real)
    ensures EntryOf(MidnightCorpus(later), Fitted(NetInflow), 1.0, 1) == if later > 7.0 then None else Some(0)
  {
    var corpus := MidnightCorpus(later);
    var b, own := corpus[1], if later > 5.0 then later else 5.0;
    assert InWindow(b[0]);
    MidnightFit(later);
    MidnightValues(later);
    assert Count([own], Above(7.0)) == (if own > 7.0 then 1 else 0) + Count([own][1..], Above(7.0));
    ControlEntryExactlyWhen(corpus, NetInflow, 1.0, 1, 0);
  }

  /** The mint seen first before midnight is the fit half. */
  lemma MidnightFit(later: real)
    ensures var corpus := MidnightCorpus(later); FitMints(Days(corpus), corpus, 0, 2) == [corpus[0]]
  {
    var corpus := MidnightCorpus(later);
    var a, b, days := corpus[0], corpus[1], Days(corpus);
    assert InWindow(a[0]) && InWindow(b[0]);
    assert EntryDay(corpus[0]) == Some(0) && EntryDay(corpus[1]) == Some(1);
    assert days == {0, 1};
    assert (set d | d in days && d < 0) == {} && (set d | d in days && d < 1) == {0};
    assert FitMints(days, corpus, 0, 1) == [a];
  }

  lemma MidnightValues(later: real)
    ensures var fit: Corpus := [MidnightCorpus(later)[0]];
            Values(NetInflow, fit) == [if later > 5.0 then later else 5.0] && FireCount(Tier(1.0, None), fit) == 0
  {
    var a := MidnightCorpus(later)[0];
    assert InWindow(a[0]) && InWindow(a[1]);
    assert Best(NetInflow, a, 1) == Some(5.0);
    var fit: Corpus := [a];
    assert fit[1..] == [] && Values(NetInflow, fit) == [Best(NetInflow, a, 2).value] + Values(NetInflow, fit[1..]);
    assert FireIndex(Tier(1.0, None), a, 0) == 2;
    assert FireCount(Tier(1.0, None), fit) == 0 + FireCount(Tier(1.0, None), fit[1..]);
  }
}
