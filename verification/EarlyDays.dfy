/** Sets of days ordered by time: how many days come before one, and the first `k` of them. */
module EarlyDays {
  function Before(days: set<int>, d: int): set<int> {
    set e | e in days && e < d
  }

  /** The days with fewer than `k` others before them. */
  function Early(days: set<int>, k: nat): set<int> {
    set d | d in days && |Before(days, d)| < k
  }

  lemma SubsetSize<T>(a: set<T>, b: set<T>)
    requires a <= b
    ensures |b| == |a| + |b - a| && a + (b - a) == b
  {
    assert b == a + (b - a);
  }

  lemma Member<T>(s: set<T>) returns (x: T)
    requires s != {}
    ensures x in s
  {
    x :| x in s;
  }

  lemma LastOf(days: set<int>) returns (last: int)
    requires days != {}
    ensures last in days && forall d :: d in days ==> d <= last
    decreases |days|
  {
    last := Member(days);
    var rest := days - {last};
    if rest != {} {
      var other := LastOf(rest);
      assert forall d :: d in days ==> d == last || d in rest;
      last := if last < other then other else last;
    } else {
      assert days == {last};
    }
  }

  /** Exactly `k` days have fewer than `k` days before them. */
  lemma {:induction false} FirstDays(days: set<int>, k: nat)
    requires k <= |days|
    ensures |Early(days, k)| == k
    decreases |days|
  {
    if days == {} {
      assert Early(days, k) == {};
    } else {
      var last := LastOf(days);
      var rest := days - {last};
      assert Before(days, last) == rest;
      forall d | d in rest ensures Before(days, d) == Before(rest, d) {
      }
      if k == |days| {
        forall d | d in days ensures |Before(days, d)| < k {
          assert Before(days, d) <= days - {d};
          SubsetSize(Before(days, d), days - {d});
        }
        assert Early(days, k) == days;
      } else {
        FirstDays(rest, k);
        assert Early(days, k) == Early(rest, k);
      }
    }
  }

  /** The first half of the days, rounded up, and the rest: a partition, the first half before the rest. */
  ghost predicate FirstHalfOf(days: set<int>, early: set<int>, late: set<int>) {
    && early + late == days && early !! late
    && (forall d, e :: d in early && e in late ==> d < e)
    && |early| == |late| + |days| % 2
  }

  lemma FirstHalf(days: set<int>, early: set<int>, late: set<int>)
    requires early == Early(days, (|days| + 1) / 2) && late == days - early
    ensures FirstHalfOf(days, early, late)
  {
    var k := (|days| + 1) / 2;
    assert early <= days && |early| == k by { FirstDays(days, k); }
    assert early + late == days && early !! late && |early| == |late| + |days| % 2 by {
      Partition(days, early, late);
    }
    InOrder(days, k, early, late);
  }

  lemma InOrder(days: set<int>, k: nat, early: set<int>, late: set<int>)
    requires early == Early(days, k) && late == days - early
    ensures forall d, e :: d in early && e in late ==> d < e
  {
    forall d, e | d in early && e in late ensures d < e {
      EarlierIsEarly(days, k, d, e);
    }
  }

  lemma Partition<T>(s: set<T>, a: set<T>, b: set<T>)
    requires a <= s && b == s - a
    ensures a + b == s && a !! b && |s| == |a| + |b|
  {
    SubsetSize(a, s);
  }

  lemma EarlierIsEarly(days: set<int>, k: nat, d: int, e: int)
    requires d in Early(days, k) && e in days && e !in Early(days, k)
    ensures d < e
  {
    if e <= d {
      SubsetSize(Before(days, e), Before(days, d));
    }
  }
}
