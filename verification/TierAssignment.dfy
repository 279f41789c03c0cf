/**
 * Streaming every stored snapshot into tier-by-age tables, and counting who reaches a tier
 * in a band (scripts/phase-b-tier-assignment.ts, with the tier selection of
 * packages/solana/src/fee-tiers.ts).
 */
module TierAssignment {
  import opened Prelude

  // ---- age bands ----

  datatype AgeBand = AgeBand(key: string, loMs: int, hiMs: Option<int>)

  const AGE_BANDS := [
    AgeBand("<2m", 0, Some(120_000)),
    AgeBand("2m-60m", 120_000, Some(3_600_000)),
    AgeBand("1h-5h", 3_600_000, Some(18_000_000)),
    AgeBand("5h-24h", 18_000_000, Some(86_400_000)),
    AgeBand("24h-7d", 86_400_000, Some(604_800_000)),
    AgeBand(">7d", 604_800_000, None)
  ]

  const UNBANDED := "unbanded"

  predicate InBand(b: AgeBand, age: int) {
    age >= b.loMs && (b.hiMs.Some? ==> age < b.hiMs.value)
  }

  function FindBand(bands: seq<AgeBand>, age: int): string {
    if bands == [] then UNBANDED
    else if InBand(bands[0], age) then bands[0].key
    else FindBand(bands[1..], age)
  }

  function BandOf(age: int): string {
    FindBand(AGE_BANDS, age)
  }

  lemma FindBandAt(bands: seq<AgeBand>, age: int, k: nat)
    requires k < |bands| && InBand(bands[k], age) && forall j :: 0 <= j < k ==> !InBand(bands[j], age)
    ensures FindBand(bands, age) == bands[k].key
  {
    if k > 0 {
      FindBandAt(bands[1..], age, k - 1);
    }
  }

  lemma {:induction false} FindBandNowhere(bands: seq<AgeBand>, age: int)
    requires forall j :: 0 <= j < |bands| ==> !InBand(bands[j], age)
    ensures FindBand(bands, age) == UNBANDED
  {
    if bands == [] {
    } else {
      FindBandNowhere(bands[1..], age);
    }
  }

  /** The bands tile the non-negative ages: each falls in exactly one, and only a negative age in none. */
  lemma BandsTileAges(age: int)
    ensures age < 0 ==> BandOf(age) == UNBANDED
    ensures age >= 0 ==> exists k ::
      0 <= k < |AGE_BANDS| && InBand(AGE_BANDS[k], age) && BandOf(age) == AGE_BANDS[k].key
    ensures forall j, k :: 0 <= j < k < |AGE_BANDS| ==> !(InBand(AGE_BANDS[j], age) && InBand(AGE_BANDS[k], age))
  {
    if age < 0 {
      FindBandNowhere(AGE_BANDS, age);
    } else {
      var k := if age < 120_000 then 0 else if age < 3_600_000 then 1 else if age < 18_000_000 then 2
               else if age < 86_400_000 then 3 else if age < 604_800_000 then 4 else 5;
      FindBandAt(AGE_BANDS, age, k);
    }
  }

  // ---- the tier of a market cap ----

  /** The last index from `i` down whose threshold the cap reaches. */
  function ScanDown(thresholds: seq<int>, cap: int, i: nat): (k: nat)
    requires i < |thresholds|
    ensures k <= i && (k > 0 ==> thresholds[k] <= cap) && forall j :: k < j <= i ==> cap < thresholds[j]
  {
    if cap >= thresholds[i] || i == 0 then i else ScanDown(thresholds, cap, i - 1)
  }

  function FirstEqual(thresholds: seq<int>, v: int, i: nat): (k: nat)
    requires i < |thresholds| && exists j :: i <= j < |thresholds| && thresholds[j] == v
    ensures i <= k < |thresholds| && thresholds[k] == v && forall j :: i <= j < k ==> thresholds[j] != v
    decreases |thresholds| - i
  {
    if thresholds[i] == v then i else FirstEqual(thresholds, v, i + 1)
  }

  /** The tier the schedule selects; below the first threshold the first tier applies. */
  function TierIndex(thresholds: seq<int>, cap: int): (tier: Option<nat>)
    ensures tier.Some? <==> thresholds != []
    ensures tier.Some? ==> tier.value < |thresholds|
  {
    if thresholds == [] then None
    else
      var k := if cap < thresholds[0] then 0 else ScanDown(thresholds, cap, |thresholds| - 1);
      Some(FirstEqual(thresholds, thresholds[k], 0))
  }

  ghost predicate Ascending(thresholds: seq<int>) {
    forall i, j :: 0 <= i < j < |thresholds| ==> thresholds[i] <= thresholds[j]
  }

  /**
   * The highest threshold the cap reaches: nothing above the selected tier is reached, and it is
   * itself unless it is the first.
   */
  lemma TierIsHighestReached(thresholds: seq<int>, cap: int)
    requires Ascending(thresholds) && thresholds != []
    ensures var k := TierIndex(thresholds, cap).value;
            && (k > 0 ==> thresholds[k] <= cap && thresholds[k - 1] < thresholds[k])
            && (forall j :: 0 <= j < |thresholds| && thresholds[j] <= cap ==> thresholds[j] <= thresholds[k])
  {
  }

  /** A larger market cap never selects a lower tier. */
  lemma TierMonotone(thresholds: seq<int>, cap: int, larger: int)
    requires Ascending(thresholds) && thresholds != [] && cap <= larger
    ensures TierIndex(thresholds, cap).value <= TierIndex(thresholds, larger).value
  {
    TierIsHighestReached(thresholds, cap);
    TierIsHighestReached(thresholds, larger);
  }

  // ---- one row ----

  datatype Row = Row(mint: string, day: string, age: int, mcapUsd: Option<real>, rate: Option<real>)

  datatype Verdict = NoMcap | NoRate | NoTier | Assigned(tier: nat, band: string)

  /** A derived SOL/USD rate is positive. */
  predicate RatePositive(r: Row) {
    r.rate.Some? ==> r.rate.value > 0.0
  }

  function Lamports(capSol: real): int {
    (capSol * 1_000_000_000.0 + 0.5).Floor
  }

  function Judge(thresholds: seq<int>, r: Row): Verdict
    requires RatePositive(r)
  {
    if r.mcapUsd.None? || r.mcapUsd.value <= 0.0 then NoMcap
    else if r.rate.None? then NoRate
    else
      var tier := TierIndex(thresholds, Lamports(r.mcapUsd.value / r.rate.value));
      if tier.None? then NoTier else Assigned(tier.value, BandOf(r.age))
  }

  predicate HasCap(r: Row) {
    r.mcapUsd.Some? && r.mcapUsd.value > 0.0
  }

  /**
   * A row is assigned exactly when it has a positive cap, a rate and a schedule to be assigned
   * from; otherwise it is refused for the first of the three it lacks.
   */
  lemma JudgedExactlyWhen(thresholds: seq<int>, r: Row)
    requires RatePositive(r)
    ensures Judge(thresholds, r).NoMcap? <==> !HasCap(r)
    ensures Judge(thresholds, r).NoRate? <==> HasCap(r) && r.rate.None?
    ensures Judge(thresholds, r).NoTier? <==> HasCap(r) && r.rate.Some? && thresholds == []
    ensures Judge(thresholds, r).Assigned? <==> HasCap(r) && r.rate.Some? && thresholds != []
  {
    if HasCap(r) && r.rate.Some? {
      var tier := TierIndex(thresholds, Lamports(r.mcapUsd.value / r.rate.value));
      assert tier.Some? <==> thresholds != [];
    }
  }

  /** Rounded to lamports, a cap reaches a threshold exactly when it is at most half a lamport short of it. */
  lemma CapReaches(threshold: int, mcapUsd: real, rate: real)
    requires rate > 0.0
    ensures threshold <= Lamports(mcapUsd / rate) <==> (threshold as real - 0.5) * rate <= mcapUsd * 1_000_000_000.0
  {
    var cap := mcapUsd / rate;
    assert cap * rate == mcapUsd;
    var gap := cap * 1_000_000_000.0 - (threshold as real - 0.5);
    assert gap * rate == mcapUsd * 1_000_000_000.0 - (threshold as real - 0.5) * rate;
    if gap >= 0.0 {
      assert gap * rate >= 0.0;
    } else {
      assert (-gap) * rate > 0.0;
    }
  }

  /** An assigned row has a priced, positive cap that reaches its tier's threshold and no higher one. */
  lemma AssignedTierIsReached(thresholds: seq<int>, r: Row)
    requires Ascending(thresholds) && RatePositive(r) && Judge(thresholds, r).Assigned?
    ensures var k := Judge(thresholds, r).tier;
            && k < |thresholds| && Judge(thresholds, r).band == BandOf(r.age)
            && r.mcapUsd.Some? && r.mcapUsd.value > 0.0 && r.rate.Some?
            && (k > 0 ==> (thresholds[k] as real - 0.5) * r.rate.value <= r.mcapUsd.value * 1_000_000_000.0)
            && (forall j :: 0 <= j < |thresholds| && thresholds[k] < thresholds[j] ==>
                  r.mcapUsd.value * 1_000_000_000.0 < (thresholds[j] as real - 0.5) * r.rate.value)
  {
    var k := Judge(thresholds, r).tier;
    TierIsHighestReached(thresholds, Lamports(r.mcapUsd.value / r.rate.value));
    CapReaches(thresholds[k], r.mcapUsd.value, r.rate.value);
    forall j | 0 <= j < |thresholds| && thresholds[k] < thresholds[j]
      ensures r.mcapUsd.value * 1_000_000_000.0 < (thresholds[j] as real - 0.5) * r.rate.value
    {
      CapReaches(thresholds[j], r.mcapUsd.value, r.rate.value);
    }
  }

  // ---- what the tables must say, row by row ----

  /** The rows already judged; the tables below depend on nothing else. */
  datatype Judged = Judged(mint: string, day: string, verdict: Verdict)

  function JudgeAll(thresholds: seq<int>, rows: seq<Row>): (js: seq<Judged>)
    requires forall i :: 0 <= i < |rows| ==> RatePositive(rows[i])
    ensures |js| == |rows|
    ensures forall i :: 0 <= i < |rows| ==> js[i] == Judged(rows[i].mint, rows[i].day, Judge(thresholds, rows[i]))
  {
    seq(|rows|, i requires 0 <= i < |rows| => Judged(rows[i].mint, rows[i].day, Judge(thresholds, rows[i])))
  }

  type Key = (nat, string)

  predicate LandsIn(j: Judged, band: string, mint: string) {
    j.verdict.Assigned? && j.verdict.band == band && j.mint == mint
  }

  function CountVerdicts(js: seq<Judged>, n: nat, p: Verdict -> bool): nat
    requires n <= |js|
  {
    if n == 0 then 0 else CountVerdicts(js, n - 1, p) + (if p(js[n - 1].verdict) then 1 else 0)
  }

  function MintsAt(js: seq<Judged>, n: nat, key: Key): set<string>
    requires n <= |js|
  {
    if n == 0 then {}
    else MintsAt(js, n - 1, key) + (if js[n - 1].verdict == Assigned(key.0, key.1) then {js[n - 1].mint} else {})
  }

  /** The best tier a mint reached in a band. */
  function BestOf(js: seq<Judged>, n: nat, band: string, mint: string): Option<nat>
    requires n <= |js|
  {
    if n == 0 then None
    else
      var best, j := BestOf(js, n - 1, band, mint), js[n - 1];
      if LandsIn(j, band, mint) && (best.None? || j.verdict.tier > best.value) then Some(j.verdict.tier) else best
  }

  /** The day of the first streamed row that put a mint in a band. */
  function FirstDayOf(js: seq<Judged>, n: nat, band: string, mint: string): Option<string>
    requires n <= |js|
  {
    if n == 0 then None
    else
      var day := FirstDayOf(js, n - 1, band, mint);
      if day.None? && LandsIn(js[n - 1], band, mint) then Some(js[n - 1].day) else day
  }

  function Lookup<V>(m: map<string, map<string, V>>, band: string, mint: string): Option<V> {
    if band in m && mint in m[band] then Some(m[band][mint]) else None
  }

  function CountAt(m: map<Key, nat>, key: Key): nat {
    if key in m then m[key] else 0
  }

  function MintsIn(m: map<Key, set<string>>, key: Key): set<string> {
    if key in m then m[key] else {}
  }

  // ---- the sum of a table ----

  ghost function SumOver(m: map<Key, nat>, keys: set<Key>): nat
    requires keys <= m.Keys
  {
    if keys == {} then 0
    else
      var k :| k in keys;
      m[k] + SumOver(m, keys - {k})
  }

  lemma {:induction false} SumOut(m: map<Key, nat>, keys: set<Key>, k: Key)
    requires keys <= m.Keys && k in keys
    ensures SumOver(m, keys) == m[k] + SumOver(m, keys - {k})
    decreases keys
  {
    var j :| j in keys && SumOver(m, keys) == m[j] + SumOver(m, keys - {j});
    if j == k {
    } else {
      SumOut(m, keys - {j}, k);
      SumOut(m, keys - {k}, j);
      assert keys - {j} - {k} == keys - {k} - {j};
    }
  }

  lemma {:induction false} SumSame(m: map<Key, nat>, m': map<Key, nat>, keys: set<Key>)
    requires keys <= m.Keys && keys <= m'.Keys && forall k :: k in keys ==> m[k] == m'[k]
    ensures SumOver(m, keys) == SumOver(m', keys)
    decreases keys
  {
    if keys == {} {
    } else {
      var k :| k in keys;
      SumOut(m, keys, k);
      SumOut(m', keys, k);
      SumSame(m, m', keys - {k});
    }
  }

  lemma SumBump(m: map<Key, nat>, k: Key)
    ensures var m' := m[k := CountAt(m, k) + 1];
            SumOver(m', m'.Keys) == SumOver(m, m.Keys) + 1
  {
    var m' := m[k := CountAt(m, k) + 1];
    SumOut(m', m'.Keys, k);
    SumSame(m, m', m.Keys - {k});
    assert m'.Keys - {k} == m.Keys - {k};
    if k in m {
      SumOut(m, m.Keys, k);
    } else {
      assert m.Keys - {k} == m.Keys;
    }
  }

  // ---- the stream ----

  datatype Tally = Tally(
    seen: nat,
    assignedRows: nat,
    noMcap: nat,
    noRate: nat,
    noTier: nat,
    jointSnapshots: map<Key, nat>,
    jointMints: map<Key, set<string>>,
    bestTierInBand: map<string, map<string, nat>>,
    firstDayInBand: map<string, map<string, string>>
  )

  predicate IsNoMcap(v: Verdict) { v.NoMcap? }
  predicate IsNoRate(v: Verdict) { v.NoRate? }
  predicate IsNoTier(v: Verdict) { v.NoTier? }
  predicate IsAssigned(v: Verdict) { v.Assigned? }

  function JointCount(js: seq<Judged>, n: nat, key: Key): nat
    requires n <= |js|
  {
    if n == 0 then 0
    else JointCount(js, n - 1, key) + (if js[n - 1].verdict == Assigned(key.0, key.1) then 1 else 0)
  }

  ghost predicate CountersAgree(js: seq<Judged>, n: nat, t: Tally)
    requires n <= |js|
  {
    && t.seen == n
    && t.assignedRows == CountVerdicts(js, n, IsAssigned)
    && t.noMcap == CountVerdicts(js, n, IsNoMcap)
    && t.noRate == CountVerdicts(js, n, IsNoRate)
    && t.noTier == CountVerdicts(js, n, IsNoTier)
    && SumOver(t.jointSnapshots, t.jointSnapshots.Keys) == t.assignedRows
  }

  ghost predicate JointsAgree(js: seq<Judged>, n: nat, t: Tally)
    requires n <= |js|
  {
    && (forall key :: CountAt(t.jointSnapshots, key) == JointCount(js, n, key))
    && (forall key :: MintsIn(t.jointMints, key) == MintsAt(js, n, key))
  }

  ghost predicate BandsAgree(js: seq<Judged>, n: nat, t: Tally)
    requires n <= |js|
  {
    && (forall band, mint :: Lookup(t.bestTierInBand, band, mint) == BestOf(js, n, band, mint))
    && (forall band, mint :: Lookup(t.firstDayInBand, band, mint) == FirstDayOf(js, n, band, mint))
  }

  ghost predicate Agrees(js: seq<Judged>, n: nat, t: Tally)
    requires n <= |js|
  {
    CountersAgree(js, n, t) && JointsAgree(js, n, t) && BandsAgree(js, n, t)
  }

  function WithBest(m: map<string, map<string, nat>>, band: string, mint: string, tier: nat)
    : map<string, map<string, nat>>
  {
    var perMint := if band in m then m[band] else map[];
    m[band := if mint !in perMint || tier > perMint[mint] then perMint[mint := tier] else perMint]
  }

  function WithDay(m: map<string, map<string, string>>, band: string, mint: string, day: string)
    : map<string, map<string, string>>
  {
    var days := if band in m then m[band] else map[];
    m[band := if mint !in days then days[mint := day] else days]
  }

  /** What one assigned row does to the four tables. */
  function Tabulated(t: Tally, j: Judged): Tally
    requires j.verdict.Assigned?
  {
    var key := (j.verdict.tier, j.verdict.band);
    t.(seen := t.seen + 1,
       assignedRows := t.assignedRows + 1,
       jointSnapshots := t.jointSnapshots[key := CountAt(t.jointSnapshots, key) + 1],
       jointMints := t.jointMints[key := MintsIn(t.jointMints, key) + {j.mint}],
       bestTierInBand := WithBest(t.bestTierInBand, key.1, j.mint, key.0),
       firstDayInBand := WithDay(t.firstDayInBand, key.1, j.mint, j.day))
  }

  lemma CountersNext(js: seq<Judged>, n: nat, t: Tally)
    requires n < |js| && CountersAgree(js, n, t) && js[n].verdict.Assigned?
    ensures CountersAgree(js, n + 1, Tabulated(t, js[n]))
  {
    SumBump(t.jointSnapshots, (js[n].verdict.tier, js[n].verdict.band));
  }

  lemma JointsNext(js: seq<Judged>, n: nat, t: Tally)
    requires n < |js| && JointsAgree(js, n, t) && js[n].verdict.Assigned?
    ensures JointsAgree(js, n + 1, Tabulated(t, js[n]))
  {
    var t', at := Tabulated(t, js[n]), (js[n].verdict.tier, js[n].verdict.band);
    forall key: Key
      ensures CountAt(t'.jointSnapshots, key) == JointCount(js, n + 1, key)
      ensures MintsIn(t'.jointMints, key) == MintsAt(js, n + 1, key)
    {
      assert CountAt(t.jointSnapshots, key) == JointCount(js, n, key)
        && MintsIn(t.jointMints, key) == MintsAt(js, n, key);
      assert js[n].verdict == Assigned(key.0, key.1) <==> key == at;
    }
  }

  lemma BandsNext(js: seq<Judged>, n: nat, t: Tally)
    requires n < |js| && BandsAgree(js, n, t) && js[n].verdict.Assigned?
    ensures BandsAgree(js, n + 1, Tabulated(t, js[n]))
  {
    var t', v, m := Tabulated(t, js[n]), js[n].verdict, js[n].mint;
    forall band, mint ensures Lookup(t'.bestTierInBand, band, mint) == BestOf(js, n + 1, band, mint) {
      assert Lookup(t.bestTierInBand, band, mint) == BestOf(js, n, band, mint);
    }
    forall band, mint ensures Lookup(t'.firstDayInBand, band, mint) == FirstDayOf(js, n + 1, band, mint) {
      assert Lookup(t.firstDayInBand, band, mint) == FirstDayOf(js, n, band, mint);
    }
  }

  /** A refused row leaves the tables alone. */
  lemma RefusedNext(js: seq<Judged>, n: nat, t: Tally)
    requires n < |js| && JointsAgree(js, n, t) && BandsAgree(js, n, t) && !js[n].verdict.Assigned?
    ensures JointsAgree(js, n + 1, t) && BandsAgree(js, n + 1, t)
  {
  }

  method Stream(thresholds: seq<int>, rows: seq<Row>) returns (t: Tally)
    requires forall i :: 0 <= i < |rows| ==> RatePositive(rows[i])
    ensures Agrees(JudgeAll(thresholds, rows), |rows|, t)
  {
    t := Tally(0, 0, 0, 0, 0, map[], map[], map[], map[]);
    ghost var js := JudgeAll(thresholds, rows);
    for k := 0 to |rows|
      invariant Agrees(js, k, t)
    {
      var r := rows[k];
      if r.mcapUsd.None? || r.mcapUsd.value <= 0.0 {
        RefusedNext(js, k, t);
        t := t.(seen := t.seen + 1, noMcap := t.noMcap + 1);
        continue;
      }
      if r.rate.None? {
        RefusedNext(js, k, t);
        t := t.(seen := t.seen + 1, noRate := t.noRate + 1);
        continue;
      }
      var capSol := r.mcapUsd.value / r.rate.value;
      var tier := TierIndex(thresholds, Lamports(capSol));
      if tier.None? {
        RefusedNext(js, k, t);
        t := t.(seen := t.seen + 1, noTier := t.noTier + 1);
        continue;
      }
      CountersNext(js, k, t);
      JointsNext(js, k, t);
      BandsNext(js, k, t);
      t := Tabulated(t, Judged(r.mint, r.day, Assigned(tier.value, BandOf(r.age))));
    }
  }

  lemma {:induction false} VerdictsPartition(js: seq<Judged>, n: nat)
    requires n <= |js|
    ensures n == CountVerdicts(js, n, IsAssigned) + CountVerdicts(js, n, IsNoMcap)
              + CountVerdicts(js, n, IsNoRate) + CountVerdicts(js, n, IsNoTier)
  {
    if n == 0 {
    } else {
      VerdictsPartition(js, n - 1);
    }
  }

  /** Every row is assigned or refused for exactly one reason, and the joint table counts the assigned ones. */
  lemma NothingIsLost(js: seq<Judged>, t: Tally)
    requires Agrees(js, |js|, t)
    ensures t.seen == |js| == t.assignedRows + t.noMcap + t.noRate + t.noTier
    ensures SumOver(t.jointSnapshots, t.jointSnapshots.Keys) == t.assignedRows
  {
    VerdictsPartition(js, |js|);
  }

  /** A counter counts the rows with its verdict. */
  lemma {:induction false} CountersCountRows(js: seq<Judged>, n: nat, p: Verdict -> bool)
    requires n <= |js|
    ensures CountVerdicts(js, n, p) == |set i | 0 <= i < n && p(js[i].verdict)|
  {
    if n == 0 {
    } else {
      CountersCountRows(js, n - 1, p);
      var earlier := set i | 0 <= i < n - 1 && p(js[i].verdict);
      var all := set i | 0 <= i < n && p(js[i].verdict);
      assert all == if p(js[n - 1].verdict) then earlier + {n - 1} else earlier;
    }
  }

  /** A cell of the joint table counts the rows assigned to it. */
  lemma {:induction false} JointCountsRows(js: seq<Judged>, n: nat, key: Key)
    requires n <= |js|
    ensures JointCount(js, n, key) == |set i | 0 <= i < n && js[i].verdict == Assigned(key.0, key.1)|
  {
    if n == 0 {
    } else {
      JointCountsRows(js, n - 1, key);
      var earlier := set i | 0 <= i < n - 1 && js[i].verdict == Assigned(key.0, key.1);
      var all := set i | 0 <= i < n && js[i].verdict == Assigned(key.0, key.1);
      assert all == if js[n - 1].verdict == Assigned(key.0, key.1) then earlier + {n - 1} else earlier;
    }
  }

  /** A mint is in a cell exactly when some row of it is assigned there. */
  lemma {:induction false} MintsAtExactlyWhen(js: seq<Judged>, n: nat, key: Key, mint: string)
    requires n <= |js|
    ensures mint in MintsAt(js, n, key) <==>
      exists i :: 0 <= i < n && js[i].mint == mint && js[i].verdict == Assigned(key.0, key.1)
  {
    if n == 0 {
    } else {
      MintsAtExactlyWhen(js, n - 1, key, mint);
    }
  }

  /** The day kept for a mint in a band is that of the first row that lands there, and none without one. */
  lemma {:induction false} FirstDayIsTheFirstRows(js: seq<Judged>, n: nat, band: string, mint: string, i: nat)
    requires i <= n <= |js| && forall j :: 0 <= j < i ==> !LandsIn(js[j], band, mint)
    ensures i < n && LandsIn(js[i], band, mint) ==> FirstDayOf(js, n, band, mint) == Some(js[i].day)
    ensures i == n ==> FirstDayOf(js, n, band, mint) == None
  {
    if n == 0 {
    } else {
      FirstDayIsTheFirstRows(js, n - 1, band, mint, if i == n then i - 1 else i);
    }
  }

  // ---- who reaches a tier in a band ----

  /** Some assigned row puts the mint in the band at the tier or better. */
  ghost predicate Reaches(js: seq<Judged>, n: nat, band: string, mint: string, tier: nat)
    requires n <= |js|
  {
    exists i :: 0 <= i < n && LandsIn(js[i], band, mint) && js[i].verdict.tier >= tier
  }

  lemma {:induction false} BestReaches(js: seq<Judged>, n: nat, band: string, mint: string, tier: nat)
    requires n <= |js|
    ensures BestOf(js, n, band, mint).Some? && BestOf(js, n, band, mint).value >= tier <==>
      Reaches(js, n, band, mint, tier)
  {
    if n == 0 {
    } else {
      BestReaches(js, n - 1, band, mint, tier);
      if LandsIn(js[n - 1], band, mint) && js[n - 1].verdict.tier >= tier {
        assert Reaches(js, n, band, mint, tier);
      }
    }
  }

  /** The mints of one band whose best tier is `tier` or better. */
  function AtOrAbove(perMint: map<string, nat>, tier: nat): set<string> {
    set mint | mint in perMint && perMint[mint] >= tier
  }

  function DayOf(days: map<string, string>, mint: string): string {
    if mint in days then days[mint] else "unknown"
  }

  function OnDay(mints: set<string>, days: map<string, string>, day: string): set<string> {
    set mint | mint in mints && DayOf(days, mint) == day
  }

  /** Per-day counts of a set of mints: a day is present exactly when some mint falls on it. */
  ghost predicate CountsByDay(mints: set<string>, days: map<string, string>, perDay: map<string, nat>) {
    && (forall day :: day in perDay ==> perDay[day] == |OnDay(mints, days, day)| && perDay[day] > 0)
    && (forall mint :: mint in mints ==> DayOf(days, mint) in perDay)
  }

  lemma OneMoreMint(mints: set<string>, days: map<string, string>, mint: string, day: string)
    requires mint !in mints
    ensures OnDay(mints + {mint}, days, day)
         == if day == DayOf(days, mint) then OnDay(mints, days, day) + {mint} else OnDay(mints, days, day)
    ensures |OnDay(mints + {mint}, days, day)|
         == |OnDay(mints, days, day)| + (if day == DayOf(days, mint) then 1 else 0)
  {
  }

  lemma CountNextDay(mints: set<string>, days: map<string, string>, perDay: map<string, nat>, mint: string)
    requires CountsByDay(mints, days, perDay) && mint !in mints
    ensures var d := DayOf(days, mint);
            CountsByDay(mints + {mint}, days, perDay[d := (if d in perDay then perDay[d] else 0) + 1])
  {
    var d := DayOf(days, mint);
    var perDay' := perDay[d := (if d in perDay then perDay[d] else 0) + 1];
    if d !in perDay {
      assert OnDay(mints, days, d) == {};
    }
    forall day | day in perDay' ensures perDay'[day] == |OnDay(mints + {mint}, days, day)| {
      OneMoreMint(mints, days, mint, day);
    }
  }

  /** The reach loop: how many mints, and how many of them first entered the band on each day. */
  method ReachOf(perMint: map<string, nat>, days: map<string, string>, tier: nat)
    returns (mints: nat, perDay: map<string, nat>)
    ensures mints == |AtOrAbove(perMint, tier)|
    ensures CountsByDay(AtOrAbove(perMint, tier), days, perDay)
  {
    var chosen := AtOrAbove(perMint, tier);
    mints := |chosen|;
    perDay := CountByDay(chosen, days);
  }

  method CountByDay(chosen: set<string>, days: map<string, string>) returns (perDay: map<string, nat>)
    ensures CountsByDay(chosen, days, perDay)
  {
    var remaining := chosen;
    perDay := map[];
    while remaining != {}
      invariant remaining <= chosen && CountsByDay(chosen - remaining, days, perDay)
      decreases remaining
    {
      var mint :| mint in remaining;
      CountNextDay(chosen - remaining, days, perDay, mint);
      assert chosen - (remaining - {mint}) == (chosen - remaining) + {mint};
      var d := DayOf(days, mint);
      perDay := perDay[d := (if d in perDay then perDay[d] else 0) + 1];
      remaining := remaining - {mint};
    }
    assert chosen - {} == chosen;
  }

  /** The mints counted at a tier are exactly those some assigned row puts there at that tier or better. */
  lemma ReachIsExact(js: seq<Judged>, t: Tally, band: string, tier: nat, mint: string)
    requires Agrees(js, |js|, t) && band in t.bestTierInBand
    ensures mint in AtOrAbove(t.bestTierInBand[band], tier) <==> Reaches(js, |js|, band, mint, tier)
  {
    assert Lookup(t.bestTierInBand, band, mint) == BestOf(js, |js|, band, mint);
    BestReaches(js, |js|, band, mint, tier);
  }

  /** A higher tier is reached by no more mints. */
  lemma ReachNeverGrows(perMint: map<string, nat>, tier: nat, higher: nat)
    requires tier <= higher
    ensures AtOrAbove(perMint, higher) <= AtOrAbove(perMint, tier)
    ensures |AtOrAbove(perMint, higher)| <= |AtOrAbove(perMint, tier)|
  {
    var a, b := AtOrAbove(perMint, higher), AtOrAbove(perMint, tier);
    assert b == a + (b - a);
  }

  ghost function DaySum(perDay: map<string, nat>, days: set<string>): nat
    requires days <= perDay.Keys
  {
    if days == {} then 0
    else
      var d :| d in days;
      perDay[d] + DaySum(perDay, days - {d})
  }

  lemma TakeDay(mints: set<string>, days: map<string, string>, d: string)
    ensures var rest := mints - OnDay(mints, days, d);
            && |mints| == |OnDay(mints, days, d)| + |rest|
            && (forall e :: e != d ==> OnDay(rest, days, e) == OnDay(mints, days, e))
            && (forall mint :: mint in rest ==> mint in mints && DayOf(days, mint) != d)
  {
    var here := OnDay(mints, days, d);
    assert mints == here + (mints - here);
  }

  /** Without one day and its mints, the remaining mints fall on the remaining days with the same counts. */
  lemma RestOnOtherDays(mints: set<string>, days: map<string, string>, perDay: map<string, nat>, keys: set<string>,
                        d: string)
    requires keys <= perDay.Keys && d in keys && forall e :: e in keys ==> perDay[e] == |OnDay(mints, days, e)|
    requires forall mint :: mint in mints ==> DayOf(days, mint) in keys
    ensures var rest := mints - OnDay(mints, days, d);
            && (forall e :: e in keys - {d} ==> perDay[e] == |OnDay(rest, days, e)|)
            && (forall mint :: mint in rest ==> DayOf(days, mint) in keys - {d})
  {
    TakeDay(mints, days, d);
  }

  lemma {:induction false} DaysSum(mints: set<string>, days: map<string, string>, perDay: map<string, nat>,
                                   keys: set<string>)
    requires keys <= perDay.Keys && forall d :: d in keys ==> perDay[d] == |OnDay(mints, days, d)|
    requires forall mint :: mint in mints ==> DayOf(days, mint) in keys
    ensures DaySum(perDay, keys) == |mints|
    decreases keys
  {
    if keys == {} {
      assert forall mint :: mint in mints ==> DayOf(days, mint) in keys;
      assert mints == {};
    } else {
      var d :| d in keys && DaySum(perDay, keys) == perDay[d] + DaySum(perDay, keys - {d});
      TakeDay(mints, days, d);
      RestOnOtherDays(mints, days, perDay, keys, d);
      DaysSum(mints - OnDay(mints, days, d), days, perDay, keys - {d});
    }
  }

  /** Per-day counts add up to the mints they split. */
  lemma DaysSplitTheReach(mints: set<string>, days: map<string, string>, perDay: map<string, nat>)
    requires CountsByDay(mints, days, perDay)
    ensures DaySum(perDay, perDay.Keys) == |mints|
  {
    DaysSum(mints, days, perDay, perDay.Keys);
  }

  /** The order rows are streamed in decides which day a mint is credited to, even when it changes no count. */
  lemma FirstDayFollowsTheStream(a: Judged, b: Judged)
    requires a.verdict.Assigned? && b.verdict.Assigned? && a.verdict.band == b.verdict.band && a.mint == b.mint
    ensures var band := a.verdict.band;
            && FirstDayOf([a, b], 2, band, a.mint) == Some(a.day)
            && FirstDayOf([b, a], 2, band, a.mint) == Some(b.day)
            && BestOf([a, b], 2, band, a.mint) == BestOf([b, a], 2, band, a.mint)
  {
    var band := a.verdict.band;
    FirstRowOf(a, b, band);
    FirstRowOf(b, a, band);
  }

  lemma FirstRowOf(a: Judged, b: Judged, band: string)
    requires a.verdict.Assigned? && a.verdict.band == band
    ensures BestOf([a, b], 1, band, a.mint) == Some(a.verdict.tier)
      && FirstDayOf([a, b], 1, band, a.mint) == Some(a.day)
  {
    assert LandsIn([a, b][0], band, a.mint);
    assert BestOf([a, b], 0, band, a.mint) == None && FirstDayOf([a, b], 0, band, a.mint) == None;
  }
}
