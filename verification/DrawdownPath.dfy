/**
 * Was a position's decline gradual or abrupt: the share of the fall from its peak carried by
 * the worst single step between marks (scripts/backfill-exit-accounting.ts).
 */
module DrawdownPath {

  datatype Path = NotApplicable | NoDecline | Abrupt | Stepwise | Gradual

  /** The worst step so far and the mark that showed it; no mark while nothing has fallen. */
  datatype Worst = Worst(step: real, index: int)

  /** The fall at mark `i`, negative for a rise. */
  function Drop(ratios: seq<real>, i: nat): real
    requires 1 <= i < |ratios|
  {
    ratios[i - 1] - ratios[i]
  }

  /** The worst step among the first `n` marks, the earliest of equals. */
  function WorstAmong(ratios: seq<real>, n: nat): (w: Worst)
    requires n <= |ratios|
    ensures w.step >= 0.0 && forall i :: 1 <= i < n ==> Drop(ratios, i) <= w.step
    ensures w.step > 0.0 ==> 1 <= w.index < n && Drop(ratios, w.index) == w.step
    ensures w.step == 0.0 ==> w.index == -1
    ensures forall i :: 1 <= i < n && i < w.index ==> Drop(ratios, i) < w.step
  {
    if n <= 1 then Worst(0.0, -1)
    else
      var w := WorstAmong(ratios, n - 1);
      if Drop(ratios, n - 1) > w.step then Worst(Drop(ratios, n - 1), n - 1) else w
  }

  function Peak(ratios: seq<real>, n: nat): (peak: real)
    requires 1 <= n <= |ratios|
    ensures forall i :: 0 <= i < n ==> ratios[i] <= peak
    ensures exists i :: 0 <= i < n && ratios[i] == peak
  {
    if n == 1 then ratios[0]
    else
      var earlier := Peak(ratios, n - 1);
      if ratios[n - 1] > earlier then ratios[n - 1] else earlier
  }

  function Drawdown(ratios: seq<real>): (d: real)
    requires |ratios| >= 1
    ensures d >= 0.0
  {
    Peak(ratios, |ratios|) - ratios[|ratios| - 1]
  }

  function Share(ratios: seq<real>): real
    requires |ratios| >= 1
  {
    var d := Drawdown(ratios);
    if d <= 0.0 then 0.0 else WorstAmong(ratios, |ratios|).step / d
  }

  function PathOf(ratios: seq<real>): Path {
    if |ratios| < 2 then NotApplicable
    else if Drawdown(ratios) <= 0.01 then NoDecline
    else if Share(ratios) >= 0.8 then Abrupt
    else if Share(ratios) >= 0.4 then Stepwise
    else Gradual
  }

  method Classify(ratios: seq<real>) returns (path: Path, worstIdx: int)
    ensures path == PathOf(ratios)
    ensures worstIdx == WorstAmong(ratios, |ratios|).index
  {
    path, worstIdx := NotApplicable, -1;
    if |ratios| < 2 { return; }
    var worstStep := 0.0;
    for i := 1 to |ratios|
      invariant Worst(worstStep, worstIdx) == WorstAmong(ratios, i)
    {
      var drop := ratios[i - 1] - ratios[i];
      if drop > worstStep {
        worstStep := drop;
        worstIdx := i;
      }
    }
    var drawdown := Peak(ratios, |ratios|) - ratios[|ratios| - 1];
    var share := if drawdown <= 0.0 then 0.0 else worstStep / drawdown;
    path :=
      if drawdown <= 0.01 then NoDecline
      else if share >= 0.8 then Abrupt
      else if share >= 0.4 then Stepwise
      else Gradual;
  }

  // ---- how many steps a fall takes ----

  /** The most `steps` steps can fall when none falls by more than `worst`. */
  function MostFall(steps: nat, worst: real): (fall: real)
    ensures fall == steps as real * worst
  {
    if steps == 0 then 0.0
    else
      assert steps as real == (steps - 1) as real + 1.0;
      MostFall(steps - 1, worst) + worst
  }

  /** From any mark to a later one the fall is at most one worst step per step between them. */
  lemma {:induction false} FallTakesSteps(ratios: seq<real>, worst: real, i: nat, j: nat)
    requires i <= j < |ratios|
    requires forall k :: 1 <= k < |ratios| ==> Drop(ratios, k) <= worst
    ensures ratios[i] - ratios[j] <= MostFall(j - i, worst)
    decreases j
  {
    if i == j {
    } else {
      FallTakesSteps(ratios, worst, i, j - 1);
      assert Drop(ratios, j) <= worst;
    }
  }

  /** The worst step is at least the drawdown spread evenly over the steps after the peak. */
  lemma WorstStepIsAtLeastEven(ratios: seq<real>, peakAt: nat)
    requires peakAt < |ratios| && ratios[peakAt] == Peak(ratios, |ratios|) && Drawdown(ratios) > 0.0
    ensures peakAt < |ratios| - 1
    ensures Drawdown(ratios) <= MostFall(|ratios| - 1 - peakAt, WorstAmong(ratios, |ratios|).step)
  {
    FallTakesSteps(ratios, WorstAmong(ratios, |ratios|).step, peakAt, |ratios| - 1);
  }

  lemma QuotientAgainst(x: real, d: real, bound: real)
    requires d > 0.0
    ensures x / d >= bound <==> x >= bound * d
    ensures x / d <= bound <==> x <= bound * d
  {
    var y := x / d;
    assert x == y * d;
    if y < bound {
      assert (bound - y) * d > 0.0;
    } else if y > bound {
      assert (y - bound) * d > 0.0;
    }
  }

  /** `peakAt` is a mark no other exceeds. */
  predicate IsPeak(ratios: seq<real>, peakAt: nat) {
    peakAt < |ratios| && forall i | 0 <= i < |ratios| :: ratios[i] <= ratios[peakAt]
  }

  /** Some step between neighbouring marks falls by `least` or more. */
  predicate SomeStepFalls(ratios: seq<real>, least: real) {
    exists i | 1 <= i < |ratios| :: FallsBy(ratios[i - 1], ratios[i], least)
  }

  predicate FallsBy(before: real, after: real, least: real) {
    before - after >= least
  }

  /**
   * A path needs two marks. It has no decline if the last mark is within 0.01 of the peak;
   * otherwise it is abrupt if one step takes 80% of the fall from the peak to the last mark,
   * stepwise if one takes 40% and none 80%, and gradual if none takes 40%.
   */
  lemma PathExactlyWhen(ratios: seq<real>, peakAt: nat)
    requires ratios == [] || IsPeak(ratios, peakAt)
    ensures PathOf(ratios) ==
      if |ratios| < 2 then NotApplicable
      else
        var fall := ratios[peakAt] - ratios[|ratios| - 1];
        if fall <= 0.01 then NoDecline
        else if SomeStepFalls(ratios, 0.8 * fall) then Abrupt
        else if SomeStepFalls(ratios, 0.4 * fall) then Stepwise
        else Gradual
  {
    if |ratios| >= 2 {
      var fall := ratios[peakAt] - ratios[|ratios| - 1];
      assert Drawdown(ratios) == fall;
      if fall > 0.01 {
        ShareReaches(ratios, fall, 0.8);
        ShareReaches(ratios, fall, 0.4);
      }
    }
  }

  lemma ShareReaches(ratios: seq<real>, fall: real, part: real)
    requires |ratios| >= 2 && fall == Drawdown(ratios) > 0.0 && part > 0.0
    ensures Share(ratios) >= part <==> SomeStepFalls(ratios, part * fall)
  {
    QuotientAgainst(WorstAmong(ratios, |ratios|).step, fall, part);
    assert part * fall > 0.0;
    StepFallsExactlyWhen(ratios, part * fall);
  }

  lemma StepFallsExactlyWhen(ratios: seq<real>, least: real)
    requires least > 0.0
    ensures SomeStepFalls(ratios, least) <==> WorstAmong(ratios, |ratios|).step >= least
  {
    var w := WorstAmong(ratios, |ratios|);
    if w.step >= least {
      assert FallsBy(ratios[w.index - 1], ratios[w.index], least);
    }
    forall i | 1 <= i < |ratios| && FallsBy(ratios[i - 1], ratios[i], least) ensures w.step >= least {
      assert Drop(ratios, i) >= least;
    }
  }

  /** A gradual path has at least three steps after every peak mark, a stepwise one at least two. */
  lemma ClassNeedsSteps(ratios: seq<real>, peakAt: nat)
    requires peakAt < |ratios| && ratios[peakAt] == Peak(ratios, |ratios|)
    ensures PathOf(ratios) == Gradual ==> |ratios| - 1 - peakAt >= 3 && |ratios| >= 4
    ensures PathOf(ratios) == Stepwise ==> |ratios| - 1 - peakAt >= 2 && |ratios| >= 3
  {
    if |ratios| >= 2 && Drawdown(ratios) > 0.01 {
      var d, worst, steps := Drawdown(ratios), WorstAmong(ratios, |ratios|).step, |ratios| - 1 - peakAt;
      WorstStepIsAtLeastEven(ratios, peakAt);
      QuotientAgainst(worst, d, 1.0);
      QuotientAgainst(worst, d, 0.5);
      assert MostFall(1, worst) == worst && MostFall(2, worst) == 2.0 * worst;
    }
  }

  /** Four marks can make a gradual path and three a stepwise one, so the bounds are met. */
  lemma BoundsAreMet()
    ensures PathOf([0.9, 0.6, 0.3, 0.0]) == Gradual
    ensures PathOf([0.8, 0.4, 0.0]) == Stepwise
  {
    var g, s := [0.9, 0.6, 0.3, 0.0], [0.8, 0.4, 0.0];
    assert WorstAmong(g, 1).step == 0.0 && WorstAmong(g, 2).step == 0.3 && WorstAmong(g, 3).step == 0.3;
    assert Peak(g, 1) == 0.9 && Peak(g, 2) == 0.9 && Peak(g, 3) == 0.9;
    assert WorstAmong(s, 1).step == 0.0 && WorstAmong(s, 2).step == 0.4;
    assert Peak(s, 1) == 0.8 && Peak(s, 2) == 0.8;
    assert WorstAmong(g, 4).step == 0.3 && Peak(g, 4) == 0.9;
    assert WorstAmong(s, 3).step == 0.4 && Peak(s, 3) == 0.8;
  }

  // ---- when the share is a share ----

  /**
   * The share exceeds one exactly when after some step the rebound to the last mark exceeds the
   * peak's lead over the mark before that step; so never when the last mark is the lowest.
   */
  lemma ShareIsAtMostOneExactlyWhen(ratios: seq<real>)
    requires |ratios| >= 2 && Drawdown(ratios) > 0.0
    ensures Share(ratios) > 1.0 <==> exists i :: 1 <= i < |ratios| && Rebounds(ratios, i)
    ensures (forall i :: 0 <= i < |ratios| ==> ratios[|ratios| - 1] <= ratios[i]) ==> Share(ratios) <= 1.0
  {
    var w, d := WorstAmong(ratios, |ratios|), Drawdown(ratios);
    QuotientAgainst(w.step, d, 1.0);
    if w.step > d {
      assert Rebounds(ratios, w.index);
    } else {
      forall i | 1 <= i < |ratios| ensures !Rebounds(ratios, i) {
        assert Drop(ratios, i) <= w.step;
      }
    }
  }

  /** After step `i` the last mark has risen by more than the peak's lead over the mark before the step. */
  predicate Rebounds(ratios: seq<real>, i: nat)
    requires 1 <= i < |ratios|
  {
    ratios[|ratios| - 1] - ratios[i] > Peak(ratios, |ratios|) - ratios[i - 1]
  }

  /** Measuring from the peak does not bound the share: a rebound after the collapse makes it two. */
  lemma ReboundInflatesTheShare()
    ensures Share([1.0, 0.0, 0.5]) == 2.0
  {
    var r := [1.0, 0.0, 0.5];
    assert WorstAmong(r, 1).step == 0.0 && WorstAmong(r, 2).step == 1.0 && WorstAmong(r, 3).step == 1.0;
    assert Peak(r, 1) == 1.0 && Peak(r, 2) == 1.0 && Peak(r, 3) == 1.0;
  }
}
