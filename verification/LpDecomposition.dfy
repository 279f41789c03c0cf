/**
 * Splitting a liquidity position's result against holding into fee income and
 * loss-versus-rebalancing, and the fee share at which they break even
 * (scripts/lp-decomposition.ts). Exact arithmetic; the square root is any exact one.
 */
module LpDecomposition {
  import opened Prelude

  /** The decoded tier-0 LP fee, 2 bps. */
  const LP_FEE_TIER0 := 0.0002

  datatype Mark = Mark(base: real, quote: real)

  /** A trajectory's marks in order, and its pool's virtual quote reserves if they are known. */
  datatype Trajectory = Trajectory(marks: seq<Mark>, virtualQuote: Option<real>)

  datatype Terms = Terms(feeIncome: real, lvrImplied: real, lpMinusHodl: real)

  datatype Exclusion = TooFewMarks | BadReserve | LiquidityEvent | NoVirtual

  datatype Verdict = Excluded(why: Exclusion) | Kept(terms: Terms)

  predicate IsRoot(s: real, x: real) {
    s >= 0.0 && s * s == x
  }

  /** A total exact square root on the non-negative reals. */
  ghost predicate IsSqrt(sqrt: real -> real) {
    forall x :: x >= 0.0 ==> IsRoot(sqrt(x), x)
  }

  // ---- signs of products and quotients ----

  lemma ProductOf(a: real, b: real) returns (p: real)
    ensures p == a * b
    ensures p > 0.0 <==> (a > 0.0 && b > 0.0) || (a < 0.0 && b < 0.0)
    ensures p == 0.0 <==> a == 0.0 || b == 0.0
  {
    p := a * b;
    if a > 0.0 && b < 0.0 {
      assert a * (-b) > 0.0;
    } else if a < 0.0 && b > 0.0 {
      assert (-a) * b > 0.0;
    } else if a < 0.0 && b < 0.0 {
      assert (-a) * (-b) > 0.0;
    }
  }

  lemma QuotientOf(x: real, d: real) returns (y: real)
    requires d > 0.0
    ensures y == x / d
    ensures (y >= 0.0 <==> x >= 0.0) && (y == 0.0 <==> x == 0.0)
  {
    y := x / d;
    var p := ProductOf(y, d);
    assert p == x;
  }

  lemma SquareAgainstOne(x: real, square: real)
    requires x >= 0.0 && square == x * x
    ensures (square >= 1.0 <==> x >= 1.0) && (square == 1.0 <==> x == 1.0)
  {
    var p := ProductOf(x - 1.0, x + 1.0);
    assert square == p + 1.0;
  }

  // ---- one pool ----

  /** The price ratio r and the invariant growth kappa between the first and the last mark. */
  function PriceRatio(first: Mark, last: Mark): real
    requires first.base > 0.0 && first.quote > 0.0 && last.base > 0.0
  {
    (last.quote / last.base) / (first.quote / first.base)
  }

  function InvariantGrowth(first: Mark, last: Mark): real
    requires first.base > 0.0 && first.quote > 0.0
  {
    (last.base * last.quote) / (first.base * first.quote)
  }

  predicate Positive(m: Mark) {
    m.base > 0.0 && m.quote > 0.0
  }

  function TermsOf(first: Mark, last: Mark, a0: real, rootR: real, rootKappa: real): Terms
    requires Positive(first) && Positive(last) && a0 > 0.0
  {
    var q0, q1 := first.quote, last.quote;
    Terms(q0 * 2.0 * rootR * (rootKappa - 1.0) / a0,
          q0 * ((rootR - 1.0) * (rootR - 1.0)) / a0,
          (2.0 * q1 - first.base * (last.quote / last.base) - q0) / a0)
  }

  lemma RootsMultiply(s: real, x: real, t: real, y: real, z: real)
    requires IsRoot(s, x) && IsRoot(t, y) && z >= 0.0 && x * y == z * z
    ensures s * t == z
  {
    var p := s * t;
    assert p * p == (s * s) * (t * t);
    assert (p - z) * (p + z) == 0.0;
    assert p != z ==> p + z == 0.0;
  }

  /** r * kappa is the square of the quote growth, and b0 * p1 is q0 * r. */
  lemma RatioFacts(first: Mark, last: Mark)
    requires Positive(first) && Positive(last)
    ensures PriceRatio(first, last) > 0.0 && InvariantGrowth(first, last) > 0.0
    ensures first.quote * PriceRatio(first, last) == first.base * (last.quote / last.base)
    ensures PriceRatio(first, last) * InvariantGrowth(first, last)
         == (last.quote / first.quote) * (last.quote / first.quote)
  {
    var b0, q0, b1, q1 := first.base, first.quote, last.base, last.quote;
    var p0, p1, g := q0 / b0, q1 / b1, q1 / q0;
    var r, kappa := PriceRatio(first, last), InvariantGrowth(first, last);
    assert r * p0 == p1 && p0 * b0 == q0 && p1 * b1 == q1 && g * q0 == q1;
    assert q0 * r == b0 * p1 by {
      assert q0 * r == b0 * (p0 * r);
    }
    assert kappa * (b0 * q0) == b1 * q1;
    CancelFactors(r, kappa, g, b0, q0, b1);
  }

  lemma CancelFactors(r: real, kappa: real, g: real, b0: real, q0: real, b1: real)
    requires b0 > 0.0 && q0 > 0.0 && b1 > 0.0 && g > 0.0
    requires q0 * r == b0 * ((g * q0) / b1)
    requires kappa * (b0 * q0) == b1 * (g * q0)
    ensures r > 0.0 && kappa > 0.0 && r * kappa == g * g
  {
    var p1 := (g * q0) / b1;
    assert p1 * b1 == g * q0;
    assert r * b1 == b0 * g by {
      assert q0 * (r * b1) == q0 * (b0 * g);
    }
    assert kappa * b0 == b1 * g by {
      assert q0 * (kappa * b0) == q0 * (b1 * g);
    }
    assert (r * kappa) * (b0 * b1) == (g * g) * (b0 * b1) by {
      assert (r * b1) * (kappa * b0) == (b0 * g) * (b1 * g);
    }
    assert b0 * b1 > 0.0;
    assert r > 0.0 by { assert b0 * g > 0.0; }
    assert kappa > 0.0 by { assert b1 * g > 0.0; }
  }

  /**
   * The decomposition is an identity: fee income less the implied loss is the result
   * against holding, exactly.
   */
  lemma FeeLessLossIsResult(first: Mark, last: Mark, a0: real, rootR: real, rootKappa: real)
    requires Positive(first) && Positive(last) && a0 > 0.0
    requires IsRoot(rootR, PriceRatio(first, last)) && IsRoot(rootKappa, InvariantGrowth(first, last))
    ensures var t := TermsOf(first, last, a0, rootR, rootKappa); t.feeIncome - t.lvrImplied == t.lpMinusHodl
  {
    var q0, q1 := first.quote, last.quote;
    var r := PriceRatio(first, last);
    var held := first.base * (last.quote / last.base);
    assert rootR * rootKappa == q1 / q0 by {
      RatioFacts(first, last);
      RootsMultiply(rootR, r, rootKappa, InvariantGrowth(first, last), q1 / q0);
    }
    assert q0 * r == held by {
      RatioFacts(first, last);
    }
    TermsCancel(q0, q1, rootR, rootKappa, r, held, a0);
  }

  lemma TermsCancel(q0: real, q1: real, s: real, k: real, r: real, held: real, a0: real)
    requires q0 > 0.0 && a0 > 0.0
    requires s * s == r && s * k == q1 / q0 && q0 * r == held
    ensures q0 * 2.0 * s * (k - 1.0) / a0 - q0 * ((s - 1.0) * (s - 1.0)) / a0 == (2.0 * q1 - held - q0) / a0
  {
    var fee, loss := q0 * 2.0 * s * (k - 1.0), q0 * ((s - 1.0) * (s - 1.0));
    assert q0 * (s * k) == q1;
    assert fee == 2.0 * (q0 * (s * k)) - 2.0 * (q0 * s);
    assert loss == q0 * (s * s) - 2.0 * (q0 * s) + q0;
    assert fee - loss == 2.0 * q1 - held - q0;
  }

  /** The loss is never negative and vanishes exactly when the price did not move. */
  lemma LossIsNonNegative(first: Mark, last: Mark, a0: real, rootR: real, rootKappa: real)
    requires Positive(first) && Positive(last) && a0 > 0.0
    requires IsRoot(rootR, PriceRatio(first, last))
    ensures var t := TermsOf(first, last, a0, rootR, rootKappa);
            t.lvrImplied >= 0.0 && (t.lvrImplied == 0.0 <==> PriceRatio(first, last) == 1.0)
  {
    var d := rootR - 1.0;
    var square := ProductOf(d, d);
    var loss := ProductOf(first.quote, square);
    var lvr := QuotientOf(loss, a0);
    SquareAgainstOne(rootR, PriceRatio(first, last));
  }

  /** Fee income is non-negative exactly when the invariant did not shrink. */
  lemma FeeFollowsInvariant(first: Mark, last: Mark, a0: real, rootR: real, rootKappa: real)
    requires Positive(first) && Positive(last) && a0 > 0.0
    requires IsRoot(rootR, PriceRatio(first, last)) && IsRoot(rootKappa, InvariantGrowth(first, last))
    ensures TermsOf(first, last, a0, rootR, rootKappa).feeIncome >= 0.0 <==> InvariantGrowth(first, last) >= 1.0
  {
    RatioFacts(first, last);
    var r := ProductOf(rootR, rootR);
    var c := ProductOf(first.quote * 2.0, rootR);
    var fee := ProductOf(c, rootKappa - 1.0);
    var income := QuotientOf(fee, a0);
    SquareAgainstOne(rootKappa, InvariantGrowth(first, last));
  }

  /** The value of a mark's reserves at a price. */
  function ValueAt(m: Mark, price: real): real {
    m.base * price + m.quote
  }

  /**
   * Scaled by the capital, the three terms are differences of values at the closing price:
   * the closing position's, the opening reserves' if held, and `2 * w`, what the opening
   * position is worth when it moves to that price along its own invariant.
   */
  lemma TermsAreValues(first: Mark, last: Mark, a0: real, rootR: real, rootKappa: real) returns (price: real, w: real)
    requires Positive(first) && Positive(last) && a0 > 0.0
    requires IsRoot(rootR, PriceRatio(first, last)) && IsRoot(rootKappa, InvariantGrowth(first, last))
    ensures price * last.base == last.quote && IsRoot(w, first.base * first.quote * price)
    ensures var t := TermsOf(first, last, a0, rootR, rootKappa);
            && t.lpMinusHodl * a0 == ValueAt(last, price) - ValueAt(first, price)
            && t.lvrImplied * a0 == ValueAt(first, price) - 2.0 * w
            && t.feeIncome * a0 == ValueAt(last, price) - 2.0 * w
  {
    var r := PriceRatio(first, last);
    price, w := last.quote / last.base, first.quote * rootR;
    RatioFacts(first, last);
    RootOfValue(first.base, first.quote, price, r, rootR);
    FeeLessLossIsResult(first, last, a0, rootR, rootKappa);
    LossTimesCapital(first.quote, rootR, r, first.base * price, a0);
    ResultTimesCapital(2.0 * last.quote - first.base * price - first.quote, a0);
    var t := TermsOf(first, last, a0, rootR, rootKappa);
    DifferenceTimesCapital(t.feeIncome, t.lvrImplied, t.lpMinusHodl, a0);
  }

  lemma DifferenceTimesCapital(fee: real, loss: real, result: real, a0: real)
    requires fee - loss == result
    ensures fee * a0 == loss * a0 + result * a0
  {
  }

  lemma RootOfValue(b0: real, q0: real, price: real, r: real, s: real)
    requires q0 > 0.0 && s >= 0.0 && s * s == r && q0 * r == b0 * price
    ensures IsRoot(q0 * s, b0 * q0 * price)
  {
    assert (q0 * s) * (q0 * s) == q0 * (q0 * (s * s));
    assert q0 * (b0 * price) == b0 * q0 * price;
  }

  lemma LossTimesCapital(q0: real, s: real, r: real, held: real, a0: real)
    requires a0 > 0.0 && s * s == r && q0 * r == held
    ensures q0 * ((s - 1.0) * (s - 1.0)) / a0 * a0 == held + q0 - 2.0 * (q0 * s)
  {
    var d := (s - 1.0) * (s - 1.0);
    assert d == r - 2.0 * s + 1.0;
    assert q0 * d == q0 * r - 2.0 * (q0 * s) + q0;
    ResultTimesCapital(q0 * d, a0);
  }

  lemma ResultTimesCapital(x: real, a0: real)
    requires a0 > 0.0
    ensures x / a0 * a0 == x
  {
  }

  // ---- the population ----

  function Invariant(m: Mark): real {
    m.base * m.quote
  }

  /** The invariant changes by more than 2% either way; division follows IEEE at zero. */
  predicate Jumps(kb: real, ka: real) {
    if kb == 0.0 then ka != 0.0 else ka / kb > 1.02 || ka / kb < 0.98
  }

  predicate StepBreaks(before: Mark, after: Mark) {
    Jumps(Invariant(before), Invariant(after))
  }

  predicate HasLiquidityEvent(marks: seq<Mark>) {
    exists i | 1 <= i < |marks| :: StepBreaks(marks[i - 1], marks[i])
  }

  /** Between positive invariants a step is a liquidity event exactly when it leaves 98% to 102% of the earlier one. */
  lemma StepBreaksExactlyWhen(before: Mark, after: Mark)
    ensures var kb, ka := Invariant(before), Invariant(after);
            && (kb > 0.0 ==> (StepBreaks(before, after) <==> ka < 0.98 * kb || ka > 1.02 * kb))
            && (kb == 0.0 ==> (StepBreaks(before, after) <==> ka != 0.0))
            && (kb < 0.0 ==> (StepBreaks(before, after) <==> ka > 0.98 * kb || ka < 1.02 * kb))
  {
    JumpsExactlyWhen(Invariant(before), Invariant(after));
  }

  lemma JumpsExactlyWhen(kb: real, ka: real)
    ensures kb > 0.0 ==> (Jumps(kb, ka) <==> ka < 0.98 * kb || ka > 1.02 * kb)
    ensures kb == 0.0 ==> (Jumps(kb, ka) <==> ka != 0.0)
    ensures kb < 0.0 ==> (Jumps(kb, ka) <==> ka > 0.98 * kb || ka < 1.02 * kb)
  {
    if kb != 0.0 {
      QuotientAgainst(ka, kb, 1.02);
      QuotientAgainst(ka, kb, 0.98);
    }
  }

  lemma QuotientAgainst(x: real, d: real, c: real)
    requires d != 0.0
    ensures d > 0.0 ==> (x / d > c <==> x > c * d) && (x / d < c <==> x < c * d)
    ensures d < 0.0 ==> (x / d > c <==> x < c * d) && (x / d < c <==> x > c * d)
  {
    var y := x / d;
    assert y * d == x;
    var gap := ProductOf(y - c, d);
    assert gap == x - c * d;
  }

  /** What the loop decides about one trajectory, in the order the code tests. */
  function Judge(t: Trajectory, sqrt: real -> real): Verdict {
    if |t.marks| < 2 then Excluded(TooFewMarks)
    else
      var first, last := t.marks[0], t.marks[|t.marks| - 1];
      if !Positive(first) || !Positive(last) then Excluded(BadReserve)
      else if HasLiquidityEvent(t.marks) then Excluded(LiquidityEvent)
      else if t.virtualQuote.None? then Excluded(NoVirtual)
      else
        var a0 := 2.0 * first.quote - t.virtualQuote.value;
        if a0 <= 0.0 then Excluded(BadReserve)
        else Kept(TermsOf(first, last, a0, sqrt(PriceRatio(first, last)), sqrt(InvariantGrowth(first, last))))
  }

  function Verdicts(ts: seq<Trajectory>, sqrt: real -> real): (vs: seq<Verdict>)
    ensures |vs| == |ts| && forall i :: 0 <= i < |ts| ==> vs[i] == Judge(ts[i], sqrt)
  {
    seq(|ts|, i requires 0 <= i < |ts| => Judge(ts[i], sqrt))
  }

  function KeptOf(vs: seq<Verdict>, n: nat): seq<Terms>
    requires n <= |vs|
  {
    if n == 0 then []
    else
      var earlier := KeptOf(vs, n - 1);
      if vs[n - 1].Kept? then earlier + [vs[n - 1].terms] else earlier
  }

  function ExcludedCount(vs: seq<Verdict>, n: nat, why: Exclusion): nat
    requires n <= |vs|
  {
    if n == 0 then 0
    else ExcludedCount(vs, n - 1, why) + (if vs[n - 1] == Excluded(why) then 1 else 0)
  }

  /** One mark is no event; a further one adds one exactly when the step to it breaks. */
  lemma EventsGrow(marks: seq<Mark>, m: Mark)
    ensures !HasLiquidityEvent([m])
    ensures marks != [] ==>
      (HasLiquidityEvent(marks + [m]) <==> HasLiquidityEvent(marks) || StepBreaks(marks[|marks| - 1], m))
  {
    var more := marks + [m];
    if i :| 1 <= i < |marks| && StepBreaks(marks[i - 1], marks[i]) {
      assert StepBreaks(more[i - 1], more[i]);
    }
    if marks != [] && StepBreaks(marks[|marks| - 1], m) {
      assert StepBreaks(more[|marks| - 1], more[|marks|]);
    }
    if i :| 1 <= i < |more| && StepBreaks(more[i - 1], more[i]) && i < |marks| {
      assert StepBreaks(marks[i - 1], marks[i]);
    }
  }

  /** Two marks at least, with positive reserves at either end and no liquidity event between them. */
  predicate Measured(t: Trajectory) {
    |t.marks| >= 2 && Positive(t.marks[0]) && Positive(t.marks[|t.marks| - 1]) && !HasLiquidityEvent(t.marks)
  }

  /** Which trajectories are kept, and what each other one is excluded for. */
  lemma JudgedExactlyWhen(t: Trajectory, sqrt: real -> real)
    ensures var v, n := Judge(t, sqrt), |t.marks|;
            && (v == Excluded(TooFewMarks) <==> n < 2)
            && (v == Excluded(LiquidityEvent) <==>
                  n >= 2 && Positive(t.marks[0]) && Positive(t.marks[n - 1]) && HasLiquidityEvent(t.marks))
            && (v == Excluded(NoVirtual) <==> Measured(t) && t.virtualQuote.None?)
            && (v.Kept? <==> Measured(t) && t.virtualQuote.Some? && t.virtualQuote.value < 2.0 * t.marks[0].quote)
            && (v == Excluded(BadReserve) <==>
                  n >= 2 && (|| !Positive(t.marks[0]) || !Positive(t.marks[n - 1])
                             || (!HasLiquidityEvent(t.marks) && t.virtualQuote.Some?
                                 && t.virtualQuote.value >= 2.0 * t.marks[0].quote)))
  {
  }

  /** A kept pool's terms are those of its first and last mark over the capital `2 * q0 - v`. */
  lemma KeptTermsAreValues(t: Trajectory, sqrt: real -> real) returns (price: real, w: real)
    requires IsSqrt(sqrt) && Judge(t, sqrt).Kept?
    ensures var first, last, terms := t.marks[0], t.marks[|t.marks| - 1], Judge(t, sqrt).terms;
            var a0 := 2.0 * first.quote - t.virtualQuote.value;
            && price * last.base == last.quote && IsRoot(w, first.base * first.quote * price)
            && terms.lpMinusHodl * a0 == ValueAt(last, price) - ValueAt(first, price)
            && terms.lvrImplied * a0 == ValueAt(first, price) - 2.0 * w
            && terms.feeIncome * a0 == ValueAt(last, price) - 2.0 * w
  {
    var first, last := t.marks[0], t.marks[|t.marks| - 1];
    RatioFacts(first, last);
    price, w := TermsAreValues(first, last, 2.0 * first.quote - t.virtualQuote.value,
                               sqrt(PriceRatio(first, last)), sqrt(InvariantGrowth(first, last)));
  }

  /** `at` lists, in order, every one of the first `n` trajectories that is kept, and `pools` their terms. */
  ghost predicate ListsKept(vs: seq<Verdict>, n: nat, at: seq<nat>, pools: seq<Terms>)
    requires n <= |vs|
  {
    && |at| == |pools|
    && (forall k :: 0 <= k < |at| ==> at[k] < n && vs[at[k]] == Kept(pools[k]))
    && (forall j, k :: 0 <= j < k < |at| ==> at[j] < at[k])
    && (forall i :: 0 <= i < n && vs[i].Kept? ==> i in at)
  }

  lemma {:induction false} EveryKeptPoolOnce(vs: seq<Verdict>, n: nat) returns (at: seq<nat>)
    requires n <= |vs|
    ensures ListsKept(vs, n, at, KeptOf(vs, n))
  {
    if n == 0 {
      at := [];
    } else {
      at := EveryKeptPoolOnce(vs, n - 1);
      if vs[n - 1].Kept? {
        OneMoreKept(vs, n, at, KeptOf(vs, n - 1));
        at := at + [n - 1];
      }
    }
  }

  lemma OneMoreKept(vs: seq<Verdict>, n: nat, at: seq<nat>, pools: seq<Terms>)
    requires 0 < n <= |vs| && vs[n - 1].Kept? && ListsKept(vs, n - 1, at, pools)
    ensures ListsKept(vs, n, at + [n - 1], pools + [vs[n - 1].terms])
  {
    var at' := at + [n - 1];
    assert at'[|at|] == n - 1;
    assert forall i :: i in at ==> i in at';
  }

  /** Each exclusion counts the trajectories judged so. */
  lemma {:induction false} ExclusionsCount(vs: seq<Verdict>, n: nat, why: Exclusion)
    requires n <= |vs|
    ensures ExcludedCount(vs, n, why) == |set i | 0 <= i < n && vs[i] == Excluded(why)|
  {
    if n == 0 {
    } else {
      ExclusionsCount(vs, n - 1, why);
      var earlier := set i | 0 <= i < n - 1 && vs[i] == Excluded(why);
      var all := set i | 0 <= i < n && vs[i] == Excluded(why);
      assert all == if vs[n - 1] == Excluded(why) then earlier + {n - 1} else earlier;
    }
  }

  method SawLiquidityEvent(marks: seq<Mark>) returns (liq: bool)
    requires |marks| >= 1
    ensures liq == HasLiquidityEvent(marks)
  {
    liq := false;
    for i := 1 to |marks|
      invariant liq == exists j | 1 <= j < i :: StepBreaks(marks[j - 1], marks[j])
    {
      if StepBreaks(marks[i - 1], marks[i]) {
        liq := true;
      }
    }
  }

  /** The main loop: each trajectory is kept with its terms or counted under one exclusion. */
  method Decompose(ts: seq<Trajectory>, sqrt: real -> real)
    returns (pools: seq<Terms>, tooFewMarks: nat, badReserve: nat, liquidityEvent: nat, noVirtual: nat)
    ensures pools == KeptOf(Verdicts(ts, sqrt), |ts|)
    ensures tooFewMarks == ExcludedCount(Verdicts(ts, sqrt), |ts|, TooFewMarks)
    ensures badReserve == ExcludedCount(Verdicts(ts, sqrt), |ts|, BadReserve)
    ensures liquidityEvent == ExcludedCount(Verdicts(ts, sqrt), |ts|, LiquidityEvent)
    ensures noVirtual == ExcludedCount(Verdicts(ts, sqrt), |ts|, NoVirtual)
  {
    pools, tooFewMarks, badReserve, liquidityEvent, noVirtual := [], 0, 0, 0, 0;
    ghost var vs := Verdicts(ts, sqrt);
    for k := 0 to |ts|
      invariant pools == KeptOf(vs, k)
      invariant tooFewMarks == ExcludedCount(vs, k, TooFewMarks)
      invariant badReserve == ExcludedCount(vs, k, BadReserve)
      invariant liquidityEvent == ExcludedCount(vs, k, LiquidityEvent)
      invariant noVirtual == ExcludedCount(vs, k, NoVirtual)
    {
      var ms := ts[k].marks;
      if |ms| < 2 {
        tooFewMarks := tooFewMarks + 1;
        continue;
      }
      var first, last := ms[0], ms[|ms| - 1];
      if !(first.base > 0.0 && first.quote > 0.0 && last.base > 0.0 && last.quote > 0.0) {
        badReserve := badReserve + 1;
        continue;
      }
      var liq := SawLiquidityEvent(ms);
      if liq {
        liquidityEvent := liquidityEvent + 1;
        continue;
      }
      if ts[k].virtualQuote.None? {
        noVirtual := noVirtual + 1;
        continue;
      }
      var a0 := 2.0 * first.quote - ts[k].virtualQuote.value;
      if a0 <= 0.0 {
        badReserve := badReserve + 1;
        continue;
      }
      var terms := TermsOf(first, last, a0, sqrt(PriceRatio(first, last)), sqrt(InvariantGrowth(first, last)));
      pools := pools + [terms];
    }
  }

  /** Kept and excluded trajectories add up to all of them. */
  lemma {:induction false} EveryTrajectoryCounted(vs: seq<Verdict>, n: nat)
    requires n <= |vs|
    ensures n == |KeptOf(vs, n)|
              + ExcludedCount(vs, n, TooFewMarks) + ExcludedCount(vs, n, BadReserve)
              + ExcludedCount(vs, n, LiquidityEvent) + ExcludedCount(vs, n, NoVirtual)
  {
    if n == 0 {
    } else {
      EveryTrajectoryCounted(vs, n - 1);
      var v := vs[n - 1];
      assert v.Kept? || v.why == TooFewMarks || v.why == BadReserve || v.why == LiquidityEvent || v.why == NoVirtual;
    }
  }

  ghost predicate Decomposed(pools: seq<Terms>) {
    forall i :: 0 <= i < |pools| ==>
      pools[i].feeIncome - pools[i].lvrImplied == pools[i].lpMinusHodl && pools[i].lvrImplied >= 0.0
  }

  /** Every pool that is kept, whatever the population, obeys the identity with a non-negative loss. */
  lemma {:induction false} EveryKeptPoolDecomposes(ts: seq<Trajectory>, n: nat, sqrt: real -> real)
    requires n <= |ts| && IsSqrt(sqrt)
    ensures Decomposed(KeptOf(Verdicts(ts, sqrt), n))
  {
    if n == 0 {
    } else {
      EveryKeptPoolDecomposes(ts, n - 1, sqrt);
      var t := ts[n - 1];
      if Judge(t, sqrt).Kept? {
        KeptDecomposes(t.marks[0], t.marks[|t.marks| - 1], 2.0 * t.marks[0].quote - t.virtualQuote.value, sqrt);
      }
    }
  }

  lemma KeptDecomposes(first: Mark, last: Mark, a0: real, sqrt: real -> real)
    requires Positive(first) && Positive(last) && a0 > 0.0 && IsSqrt(sqrt)
    ensures var t := TermsOf(first, last, a0, sqrt(PriceRatio(first, last)), sqrt(InvariantGrowth(first, last)));
            t.feeIncome - t.lvrImplied == t.lpMinusHodl && t.lvrImplied >= 0.0
  {
    RatioFacts(first, last);
    var rootR, rootKappa := sqrt(PriceRatio(first, last)), sqrt(InvariantGrowth(first, last));
    FeeLessLossIsResult(first, last, a0, rootR, rootKappa);
    LossIsNonNegative(first, last, a0, rootR, rootKappa);
  }

  // ---- rescaling and break-even ----

  function FeeSum(pools: seq<Terms>): real {
    if pools == [] then 0.0 else pools[0].feeIncome + FeeSum(pools[1..])
  }

  function LossSum(pools: seq<Terms>): real {
    if pools == [] then 0.0 else pools[0].lvrImplied + LossSum(pools[1..])
  }

  function ResultSum(pools: seq<Terms>): real {
    if pools == [] then 0.0 else pools[0].lpMinusHodl + ResultSum(pools[1..])
  }

  /** Each pool adds its own terms to the three sums. */
  lemma {:induction false} SumsGrow(pools: seq<Terms>, t: Terms)
    ensures FeeSum([]) == LossSum([]) == ResultSum([]) == 0.0
    ensures FeeSum(pools + [t]) == FeeSum(pools) + t.feeIncome
    ensures LossSum(pools + [t]) == LossSum(pools) + t.lvrImplied
    ensures ResultSum(pools + [t]) == ResultSum(pools) + t.lpMinusHodl
  {
    if pools == [] {
      assert pools + [t] == [t] && [t][1..] == [];
    } else {
      SumsGrow(pools[1..], t);
      assert (pools + [t])[1..] == pools[1..] + [t];
    }
  }

  /** The sum of the fee term scaled to fee share `f`, less the loss. */
  function RescaledSum(pools: seq<Terms>, f: real): real {
    if pools == [] then 0.0
    else (f / LP_FEE_TIER0) * pools[0].feeIncome - pools[0].lvrImplied + RescaledSum(pools[1..], f)
  }

  function MeanFee(pools: seq<Terms>): real
    requires pools != []
  {
    FeeSum(pools) / |pools| as real
  }

  function MeanLoss(pools: seq<Terms>): real
    requires pools != []
  {
    LossSum(pools) / |pools| as real
  }

  function RescaledMean(pools: seq<Terms>, f: real): real
    requires pools != []
  {
    RescaledSum(pools, f) / |pools| as real
  }

  /** The pooled break-even share the report prints. */
  function BreakEven(pools: seq<Terms>): real
    requires pools != [] && MeanFee(pools) != 0.0
  {
    LP_FEE_TIER0 * (MeanLoss(pools) / MeanFee(pools))
  }

  lemma {:induction false} RescaledIsLinear(pools: seq<Terms>, f: real)
    ensures RescaledSum(pools, f) == (f / LP_FEE_TIER0) * FeeSum(pools) - LossSum(pools)
  {
    if pools == [] {
    } else {
      RescaledIsLinear(pools[1..], f);
      Distribute(f / LP_FEE_TIER0, pools[0].feeIncome, FeeSum(pools[1..]));
    }
  }

  lemma Distribute(c: real, x: real, y: real)
    ensures c * (x + y) == c * x + c * y
  {
  }

  lemma {:induction false} LossSumNonNegative(pools: seq<Terms>)
    requires Decomposed(pools)
    ensures LossSum(pools) >= 0.0
    ensures ResultSum(pools) == FeeSum(pools) - LossSum(pools)
  {
    if pools == [] {
    } else {
      LossSumNonNegative(pools[1..]);
    }
  }

  /** At the decoded fee the rescaled mean reproduces the measured result against holding. */
  lemma TierZeroReproduces(pools: seq<Terms>)
    requires pools != [] && Decomposed(pools)
    ensures RescaledMean(pools, LP_FEE_TIER0) == ResultSum(pools) / |pools| as real
  {
    RescaledIsLinear(pools, LP_FEE_TIER0);
    LossSumNonNegative(pools);
    var c := LP_FEE_TIER0 / LP_FEE_TIER0;
    assert c == 1.0;
    assert RescaledSum(pools, LP_FEE_TIER0) == 1.0 * FeeSum(pools) - LossSum(pools) == ResultSum(pools);
  }

  /**
   * For a positive fee share the rescaled mean is non-negative exactly when the mean fee is
   * positive and the share reaches the pooled break-even, or when fee and loss are both zero.
   */
  lemma NonNegativeExactlyFromBreakEven(pools: seq<Terms>, f: real)
    requires pools != [] && Decomposed(pools) && f > 0.0
    ensures var fee, loss := MeanFee(pools), MeanLoss(pools);
            RescaledMean(pools, f) >= 0.0 <==> (fee > 0.0 && f >= BreakEven(pools)) || (fee == 0.0 && loss == 0.0)
  {
    RescaledIsLinear(pools, f);
    LossSumNonNegative(pools);
    SignOfRescaled(f, FeeSum(pools), LossSum(pools), RescaledSum(pools, f), |pools| as real, MeanFee(pools),
                   MeanLoss(pools));
  }

  lemma SignOfRescaled(f: real, feeSum: real, lossSum: real, rescaled: real, n: real, fee: real, loss: real)
    requires f > 0.0 && n > 0.0 && lossSum >= 0.0 && fee == feeSum / n && loss == lossSum / n
    requires rescaled == (f / LP_FEE_TIER0) * feeSum - lossSum
    ensures rescaled / n >= 0.0
       <==> (fee > 0.0 && f >= LP_FEE_TIER0 * (loss / fee)) || (fee == 0.0 && loss == 0.0)
  {
    var c := f / LP_FEE_TIER0;
    var mean := QuotientOf(c * feeSum - lossSum, n);
    var meanFee := QuotientOf(feeSum, n);
    var meanLoss := QuotientOf(lossSum, n);
    if fee > 0.0 {
      ThresholdShare(c, feeSum, lossSum, n);
      var share := loss / fee;
      assert f >= LP_FEE_TIER0 * share <==> c >= share;
    } else {
      var scaled := ProductOf(c, feeSum);
    }
  }

  lemma ThresholdShare(c: real, fee: real, loss: real, n: real)
    requires fee > 0.0 && n > 0.0
    ensures fee / n > 0.0
    ensures c * fee - loss >= 0.0 <==> c >= (loss / n) / (fee / n)
  {
    var meanFee := QuotientOf(fee, n);
    var meanLoss := QuotientOf(loss, n);
    var x := meanLoss / meanFee;
    assert x * meanFee == meanLoss;
    assert x * fee == loss by {
      assert x * (meanFee * n) == (x * meanFee) * n;
    }
    var gap := ProductOf(fee, c - x);
    assert gap == c * fee - loss;
  }
}
