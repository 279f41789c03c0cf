/**
 * The newest-first walk over a vault's signatures that collects the pool events of a time
 * window, and the replay that applies them (scripts/counterfactual-replay.ts, with
 * packages/pipeline/src/counterfactual.ts).
 */
module Replay {
  import opened Prelude
  import opened Sorting

  const MAX_SIGNATURE_PAGES := 10
  const SIGNATURE_PAGE := 1_000
  const SIGNATURE_LIMIT := MAX_SIGNATURE_PAGES * SIGNATURE_PAGE

  datatype Sig = Sig(signature: string, blockTime: Option<int>, slot: Option<int>, failed: Option<bool>)

  datatype Balance = Balance(accountIndex: int, amount: int)

  datatype Tx = Tx(failed: bool, accountKeys: seq<string>, pre: seq<Balance>, post: seq<Balance>)

  datatype Event = Event(signature: string, slot: int, baseDelta: int, quoteDelta: int)

  /** The window, the two vaults, and the transactions the node can return. */
  datatype Query = Query(fromSec: int, toSec: int, baseVault: string, quoteVault: string, txs: map<string, Tx>)

  // ---- one signature ----

  function IndexOf(keys: seq<string>, key: string, from: nat): (i: int)
    requires from <= |keys|
    decreases |keys| - from
  {
    if from == |keys| then -1 else if keys[from] == key then from else IndexOf(keys, key, from + 1)
  }

  function AmountAt(rows: seq<Balance>, idx: int): Option<int> {
    if rows == [] then None
    else if rows[0].accountIndex == idx then Some(rows[0].amount)
    else AmountAt(rows[1..], idx)
  }

  /** The recorded balance of a vault, absent when the vault or its row is not listed. */
  function BalanceOf(tx: Tx, rows: seq<Balance>, vault: string): Option<int> {
    var idx := IndexOf(tx.accountKeys, vault, 0);
    if idx == -1 then None else AmountAt(rows, idx)
  }

  /** Row `r` is the first one for the first position at which the vault is listed. */
  ghost predicate RowFor(tx: Tx, rows: seq<Balance>, vault: string, r: nat) {
    && r < |rows| && 0 <= rows[r].accountIndex < |tx.accountKeys| && tx.accountKeys[rows[r].accountIndex] == vault
    && (forall k :: 0 <= k < rows[r].accountIndex ==> tx.accountKeys[k] != vault)
    && (forall k :: 0 <= k < r ==> rows[k].accountIndex != rows[r].accountIndex)
  }

  ghost predicate Listed(tx: Tx, rows: seq<Balance>, vault: string) {
    exists r: nat :: RowFor(tx, rows, vault, r)
  }

  lemma FirstPosition(keys: seq<string>, key: string, i: nat)
    requires i <= |keys|
    ensures var idx := IndexOf(keys, key, i);
            if idx == -1 then forall k :: i <= k < |keys| ==> keys[k] != key
            else i <= idx < |keys| && keys[idx] == key && forall k :: i <= k < idx ==> keys[k] != key
    decreases |keys| - i
  {
    if i < |keys| && keys[i] != key {
      FirstPosition(keys, key, i + 1);
    }
  }

  lemma {:induction false} FirstRow(rows: seq<Balance>, idx: int, r: nat)
    requires r <= |rows| && forall k :: 0 <= k < r ==> rows[k].accountIndex != idx
    ensures r < |rows| && rows[r].accountIndex == idx ==> AmountAt(rows, idx) == Some(rows[r].amount)
    ensures r == |rows| ==> AmountAt(rows, idx) == None
  {
    if r == 0 {
    } else {
      FirstRow(rows[1..], idx, r - 1);
    }
  }

  /** The balance read is that of the vault's first row, and absent exactly when it has none. */
  lemma BalanceExactlyWhen(tx: Tx, rows: seq<Balance>, vault: string)
    ensures BalanceOf(tx, rows, vault).Some? <==> Listed(tx, rows, vault)
    ensures forall r: nat :: RowFor(tx, rows, vault, r) ==> BalanceOf(tx, rows, vault) == Some(rows[r].amount)
  {
    var idx := IndexOf(tx.accountKeys, vault, 0);
    FirstPosition(tx.accountKeys, vault, 0);
    forall r: nat | RowFor(tx, rows, vault, r) ensures BalanceOf(tx, rows, vault) == Some(rows[r].amount) {
      assert rows[r].accountIndex == idx;
      FirstRow(rows, idx, r);
    }
    if BalanceOf(tx, rows, vault).Some? {
      if forall k :: 0 <= k < |rows| ==> rows[k].accountIndex != idx {
        FirstRow(rows, idx, |rows|);
      } else {
        var r := FirstRowOf(rows, idx);
        assert RowFor(tx, rows, vault, r);
      }
    }
  }

  lemma FirstRowOf(rows: seq<Balance>, idx: int) returns (r: nat)
    requires exists k :: 0 <= k < |rows| && rows[k].accountIndex == idx
    ensures r < |rows| && rows[r].accountIndex == idx && forall k :: 0 <= k < r ==> rows[k].accountIndex != idx
  {
    r := 0;
    while rows[r].accountIndex != idx
      invariant r < |rows| && forall k :: 0 <= k < r ==> rows[k].accountIndex != idx
      decreases |rows| - r
    {
      r := r + 1;
    }
  }

  datatype Outcome = TooOld | Unresolved | Skipped | Applied(event: Event)

  predicate InWindow(q: Query, sig: Sig) {
    sig.blockTime.Some? && q.fromSec <= sig.blockTime.value <= q.toSec
  }

  function Judge(q: Query, sig: Sig): (outcome: Outcome)
    ensures outcome.Applied? ==>
      outcome.event.signature == sig.signature && InWindow(q, sig) && sig.failed != Some(true)
  {
    if sig.blockTime.None? then Unresolved
    else if sig.blockTime.value < q.fromSec then TooOld
    else if sig.blockTime.value > q.toSec || sig.failed == Some(true) then Skipped
    else if sig.signature !in q.txs || q.txs[sig.signature].failed then Skipped
    else
      var tx := q.txs[sig.signature];
      var b0, b1 := BalanceOf(tx, tx.pre, q.baseVault), BalanceOf(tx, tx.post, q.baseVault);
      var q0, q1 := BalanceOf(tx, tx.pre, q.quoteVault), BalanceOf(tx, tx.post, q.quoteVault);
      if b0.None? || b1.None? || q0.None? || q1.None? then Unresolved
      else
        Applied(Event(sig.signature, if sig.slot.Some? then sig.slot.value else 0,
                      b1.value - b0.value, q1.value - q0.value))
  }

  /** In the window, marked failed nowhere, and returned by the node. */
  ghost predicate Readable(q: Query, sig: Sig) {
    && InWindow(q, sig) && sig.failed != Some(true)
    && sig.signature in q.txs && !q.txs[sig.signature].failed
  }

  /** Both vaults have a row before and a row after. */
  ghost predicate BothListed(q: Query, tx: Tx) {
    && Listed(tx, tx.pre, q.baseVault) && Listed(tx, tx.post, q.baseVault)
    && Listed(tx, tx.pre, q.quoteVault) && Listed(tx, tx.post, q.quoteVault)
  }

  /**
   * What the walk makes of a signature: unresolved without a block time or without one of the
   * four rows, an event with the changes of those rows, or neither.
   */
  lemma JudgedExactlyWhen(q: Query, sig: Sig)
    ensures Judge(q, sig).TooOld? <==> sig.blockTime.Some? && sig.blockTime.value < q.fromSec
    ensures Judge(q, sig).Unresolved? <==>
      sig.blockTime.None? || (Readable(q, sig) && !BothListed(q, q.txs[sig.signature]))
    ensures Judge(q, sig).Applied? <==> Readable(q, sig) && BothListed(q, q.txs[sig.signature])
    ensures Judge(q, sig).Applied? ==>
      var event := Judge(q, sig).event;
      event.signature == sig.signature && event.slot == if sig.slot.Some? then sig.slot.value else 0
  {
    if sig.signature in q.txs {
      var tx := q.txs[sig.signature];
      BalanceExactlyWhen(tx, tx.pre, q.baseVault);
      BalanceExactlyWhen(tx, tx.post, q.baseVault);
      BalanceExactlyWhen(tx, tx.pre, q.quoteVault);
      BalanceExactlyWhen(tx, tx.post, q.quoteVault);
    }
  }

  /** An event's delta is the change between the vault's row before and its row after. */
  lemma DeltaIsBetweenRows(q: Query, sig: Sig, v: Vault, r0: nat, r1: nat)
    requires Judge(q, sig).Applied?
    requires var tx := q.txs[sig.signature];
             RowFor(tx, tx.pre, VaultKey(q, v), r0) && RowFor(tx, tx.post, VaultKey(q, v), r1)
    ensures var tx := q.txs[sig.signature];
            Delta(Judge(q, sig).event, v) == tx.post[r1].amount - tx.pre[r0].amount
  {
    var tx := q.txs[sig.signature];
    BalanceExactlyWhen(tx, tx.pre, VaultKey(q, v));
    BalanceExactlyWhen(tx, tx.post, VaultKey(q, v));
  }

  /** The events of the first `n` signatures, newest first. */
  function EventsOf(q: Query, history: seq<Sig>, n: nat): seq<Event>
    requires n <= |history|
  {
    if n == 0 then []
    else
      var outcome, earlier := Judge(q, history[n - 1]), EventsOf(q, history, n - 1);
      if outcome.Applied? then earlier + [outcome.event] else earlier
  }

  function UnresolvedOf(q: Query, history: seq<Sig>, n: nat): nat
    requires n <= |history|
  {
    if n == 0 then 0
    else UnresolvedOf(q, history, n - 1) + (if Judge(q, history[n - 1]).Unresolved? then 1 else 0)
  }

  /** The first signature from `i` on that is older than the window, or `n` if there is none before it. */
  function StopIndex(q: Query, history: seq<Sig>, i: nat, n: nat): (k: nat)
    requires i <= n <= |history|
    ensures i <= k <= n
    ensures forall j :: i <= j < k ==> !Judge(q, history[j]).TooOld?
    ensures k < n ==> Judge(q, history[k]).TooOld?
    decreases n - i
  {
    if i == n || Judge(q, history[i]).TooOld? then i else StopIndex(q, history, i + 1, n)
  }

  /** How many signatures the walk examines and keeps: up to the first too old, within ten pages. */
  function Examined(q: Query, history: seq<Sig>): (k: nat)
    ensures k <= |history|
  {
    StopIndex(q, history, 0, if |history| < SIGNATURE_LIMIT then |history| else SIGNATURE_LIMIT)
  }

  // ---- the walk ----

  ghost predicate UniqueSignatures(history: seq<Sig>) {
    forall i, j :: 0 <= i < j < |history| ==> history[i].signature != history[j].signature
  }

  /** One page of `getSignaturesForAddress`: what follows `before`, newest first, a thousand at most. */
  method SignaturesBefore(history: seq<Sig>, before: Option<string>, ghost pos: nat) returns (sigs: seq<Sig>)
    requires UniqueSignatures(history) && pos <= |history|
    requires if pos == 0 then before.None? else before == Some(history[pos - 1].signature)
    ensures sigs == history[pos..if pos + SIGNATURE_PAGE < |history| then pos + SIGNATURE_PAGE else |history|]
  {
    var start := 0;
    if before.Some? {
      while history[start].signature != before.value
        invariant 0 <= start < pos
        invariant forall i :: 0 <= i < start ==> history[i].signature != before.value
        decreases pos - start
      {
        start := start + 1;
      }
      assert start == pos - 1;
      start := start + 1;
    }
    sigs := history[start..if start + SIGNATURE_PAGE < |history| then start + SIGNATURE_PAGE else |history|];
  }

  /** What has been collected once the first `k` signatures are kept. */
  ghost predicate Kept(q: Query, history: seq<Sig>, k: nat, events: seq<Event>, unresolvedTime: nat) {
    && k <= |history|
    && (forall j :: 0 <= j < k ==> !Judge(q, history[j]).TooOld?)
    && events == EventsOf(q, history, k)
    && unresolvedTime == UnresolvedOf(q, history, k)
  }

  /** The inner loop: one page, up to its first signature older than the window. */
  method ScanPage(q: Query, sigs: seq<Sig>, events0: seq<Event>, unresolved0: nat, ghost history: seq<Sig>,
                  ghost k0: nat)
    returns (events: seq<Event>, unresolvedTime: nat, scanned: nat, reachedEntry: bool, ghost k: nat)
    requires Kept(q, history, k0, events0, unresolved0)
    requires k0 + |sigs| <= |history| && sigs == history[k0..k0 + |sigs|]
    ensures Kept(q, history, k, events, unresolvedTime) && k0 <= k <= k0 + |sigs|
    ensures if reachedEntry then k < k0 + |sigs| && Judge(q, history[k]).TooOld? else k == k0 + |sigs|
    ensures scanned == if reachedEntry then k - k0 + 1 else k - k0
  {
    events, unresolvedTime, scanned, reachedEntry, k := events0, unresolved0, 0, false, k0;
    var i := 0;
    while i < |sigs|
      invariant 0 <= i <= |sigs| && k == k0 + i && scanned == i && !reachedEntry
      invariant Kept(q, history, k, events, unresolvedTime)
    {
      var sig := sigs[i];
      assert sig == history[k];
      scanned := scanned + 1;
      var outcome := Judge(q, sig);
      if outcome.TooOld? {
        reachedEntry := true;
        return;
      }
      if outcome.Unresolved? {
        unresolvedTime := unresolvedTime + 1;
      } else if outcome.Applied? {
        events := events + [outcome.event];
      }
      i := i + 1;
      k := k + 1;
    }
  }

  method Walk(q: Query, history: seq<Sig>)
    returns (events: seq<Event>, unresolvedTime: nat, scanned: nat, reachedEntry: bool)
    requires UniqueSignatures(history)
    ensures events == EventsOf(q, history, Examined(q, history))
    ensures unresolvedTime == UnresolvedOf(q, history, Examined(q, history))
  {
    events, unresolvedTime, scanned, reachedEntry := [], 0, 0, false;
    var before: Option<string> := None;
    var page := 0;
    ghost var k := 0;
    while page < MAX_SIGNATURE_PAGES && !reachedEntry
      invariant 0 <= page <= MAX_SIGNATURE_PAGES
      invariant Kept(q, history, k, events, unresolvedTime) && k <= page * SIGNATURE_PAGE
      invariant !reachedEntry ==> k == page * SIGNATURE_PAGE
      invariant !reachedEntry ==> if k == 0 then before.None? else before == Some(history[k - 1].signature)
      invariant reachedEntry ==> k == |history| || Judge(q, history[k]).TooOld?
      decreases MAX_SIGNATURE_PAGES - page
    {
      var sigs := SignaturesBefore(history, before, k);
      if |sigs| == 0 {
        reachedEntry := true;
        break;
      }
      var n;
      events, unresolvedTime, n, reachedEntry, k := ScanPage(q, sigs, events, unresolvedTime, history, k);
      scanned := scanned + n;
      if |sigs| < SIGNATURE_PAGE {
        break;
      }
      assert !reachedEntry ==> sigs[|sigs| - 1] == history[k - 1];
      before := Some(sigs[|sigs| - 1].signature);
      page := page + 1;
    }
    assert k == |history| || k == SIGNATURE_LIMIT || Judge(q, history[k]).TooOld?;
    StopsAt(q, history, k);
  }

  lemma StopsAt(q: Query, history: seq<Sig>, k: nat)
    requires k <= |history| && k <= SIGNATURE_LIMIT
    requires forall j :: 0 <= j < k ==> !Judge(q, history[j]).TooOld?
    requires k == |history| || k == SIGNATURE_LIMIT || Judge(q, history[k]).TooOld?
    ensures Examined(q, history) == k
  {
  }

  // ---- what the walk collects ----

  /** Known block times never rise along the newest-first history. */
  ghost predicate TimesFallBack(history: seq<Sig>) {
    forall i, j :: 0 <= i < j < |history| && history[i].blockTime.Some? && history[j].blockTime.Some? ==>
      history[j].blockTime.value <= history[i].blockTime.value
  }

  /** More signatures add no event exactly when none of them is one. */
  lemma {:induction false} EventsGrow(q: Query, history: seq<Sig>, k: nat, n: nat)
    requires k <= n <= |history|
    ensures EventsOf(q, history, k) <= EventsOf(q, history, n)
    ensures EventsOf(q, history, k) == EventsOf(q, history, n)
      <==> forall j :: k <= j < n ==> !Judge(q, history[j]).Applied?
    decreases n
  {
    if k == n {
    } else {
      EventsGrow(q, history, k, n - 1);
    }
  }

  /**
   * With block times that never rise, the walk records every event of the whole history
   * exactly when it stopped inside its ten pages, or when nothing past them is an event.
   */
  lemma CompleteExactlyWhen(q: Query, history: seq<Sig>)
    requires TimesFallBack(history)
    ensures var stoppedInside := Examined(q, history) < SIGNATURE_LIMIT;
            var nothingPast := forall j :: SIGNATURE_LIMIT <= j < |history| ==> !Judge(q, history[j]).Applied?;
            EventsOf(q, history, Examined(q, history)) == EventsOf(q, history, |history|) <==>
              stoppedInside || nothingPast
    ensures Examined(q, history) < SIGNATURE_LIMIT ==>
      forall j :: Examined(q, history) <= j < |history| ==> !InWindow(q, history[j])
  {
    EventsGrow(q, history, Examined(q, history), |history|);
  }

  function TimesRecorded(events: seq<Event>, signature: string): nat {
    if events == [] then 0
    else
      TimesRecorded(events[..|events| - 1], signature) + (if events[|events| - 1].signature == signature then 1 else 0)
  }

  lemma RecordAppend(events: seq<Event>, e: Event, signature: string)
    ensures TimesRecorded(events + [e], signature)
         == TimesRecorded(events, signature) + (if e.signature == signature then 1 else 0)
  {
    assert (events + [e])[..|events|] == events;
  }

  lemma {:induction false} NeverRecorded(q: Query, history: seq<Sig>, n: nat, signature: string)
    requires n <= |history| && forall j :: 0 <= j < n ==> history[j].signature != signature
    ensures TimesRecorded(EventsOf(q, history, n), signature) == 0
  {
    if n == 0 {
    } else {
      NeverRecorded(q, history, n - 1, signature);
      RecordNext(q, history, n - 1, signature);
    }
  }

  /** One more signature records its own event, if it is one, and nothing else. */
  lemma RecordNext(q: Query, history: seq<Sig>, n: nat, signature: string)
    requires n < |history|
    ensures TimesRecorded(EventsOf(q, history, n + 1), signature) == TimesRecorded(EventsOf(q, history, n), signature)
      + (if Judge(q, history[n]).Applied? && history[n].signature == signature then 1 else 0)
  {
    if Judge(q, history[n]).Applied? {
      RecordAppend(EventsOf(q, history, n), Judge(q, history[n]).event, signature);
    }
  }

  /** Each examined signature is recorded exactly once if it is an event of the window, and not at all otherwise. */
  lemma {:induction false} RecordedOnce(q: Query, history: seq<Sig>, n: nat, i: nat)
    requires UniqueSignatures(history) && i < n <= |history|
    ensures TimesRecorded(EventsOf(q, history, n), history[i].signature) ==
      if Judge(q, history[i]).Applied? then 1 else 0
  {
    RecordNext(q, history, n - 1, history[i].signature);
    if i < n - 1 {
      RecordedOnce(q, history, n - 1, i);
    } else {
      NeverRecorded(q, history, n - 1, history[i].signature);
    }
  }

  /** The unresolved count is the number of examined signatures that are unresolved. */
  lemma {:induction false} UnresolvedCounts(q: Query, history: seq<Sig>, n: nat)
    requires n <= |history|
    ensures UnresolvedOf(q, history, n) == |set j | 0 <= j < n && Judge(q, history[j]).Unresolved?|
  {
    if n == 0 {
    } else {
      UnresolvedCounts(q, history, n - 1);
      var earlier := set j | 0 <= j < n - 1 && Judge(q, history[j]).Unresolved?;
      var all := set j | 0 <= j < n && Judge(q, history[j]).Unresolved?;
      assert all == if Judge(q, history[n - 1]).Unresolved? then earlier + {n - 1} else earlier;
    }
  }

  /** Ten full pages of failed transactions in the window hide the event after them. */
  lemma FailuresFillThePages(q: Query, history: seq<Sig>)
    requires |history| == SIGNATURE_LIMIT + 1 && TimesFallBack(history)
    requires forall i :: 0 <= i < SIGNATURE_LIMIT ==> InWindow(q, history[i]) && history[i].failed == Some(true)
    requires Judge(q, history[SIGNATURE_LIMIT]).Applied?
    ensures UnresolvedOf(q, history, Examined(q, history)) == 0
    ensures EventsOf(q, history, Examined(q, history)) != EventsOf(q, history, |history|)
  {
    StopsAt(q, history, SIGNATURE_LIMIT);
    NoneUnresolved(q, history, SIGNATURE_LIMIT);
    CompleteExactlyWhen(q, history);
  }

  function NumberedSig(i: nat): Sig {
    Sig(seq(i, _ => 'x'), Some(0), Some(0), Some(i < SIGNATURE_LIMIT))
  }

  lemma LastIsAnEvent(sig: Sig, tx: Tx) returns (q: Query)
    requires sig.blockTime == Some(0) && sig.failed == Some(false)
    requires tx == Tx(false, ["base", "quote"], [Balance(0, 5), Balance(1, 7)], [Balance(0, 5), Balance(1, 7)])
    ensures q.fromSec == q.toSec == 0 && Judge(q, sig).Applied?
  {
    q := Query(0, 0, "base", "quote", map[sig.signature := tx]);
    var keys, rows := tx.accountKeys, tx.pre;
    assert IndexOf(keys, "base", 0) == 0 && IndexOf(keys, "quote", 1) == 1 && IndexOf(keys, "quote", 0) == 1;
    assert rows[1..] == [Balance(1, 7)] && AmountAt(rows[1..], 1) == Some(7) && AmountAt(rows, 0) == Some(5);
  }

  /** Running out of pages is silent: an event can be missing although nothing was counted unresolved. */
  lemma RunningOutIsSilent() returns (q: Query, history: seq<Sig>)
    ensures UniqueSignatures(history) && TimesFallBack(history)
    ensures UnresolvedOf(q, history, Examined(q, history)) == 0
    ensures EventsOf(q, history, Examined(q, history)) != EventsOf(q, history, |history|)
  {
    history := seq(SIGNATURE_LIMIT + 1, i requires 0 <= i => NumberedSig(i));
    var rows := [Balance(0, 5), Balance(1, 7)];
    q := LastIsAnEvent(history[SIGNATURE_LIMIT], Tx(false, ["base", "quote"], rows, rows));
    forall i, j | 0 <= i < j < |history| ensures history[i].signature != history[j].signature {
      assert |history[i].signature| == i && |history[j].signature| == j;
    }
    FailuresFillThePages(q, history);
  }

  lemma {:induction false} NoneUnresolved(q: Query, history: seq<Sig>, n: nat)
    requires n <= |history|
    ensures UnresolvedOf(q, history, n) == 0 <==> forall i :: 0 <= i < n ==> !Judge(q, history[i]).Unresolved?
  {
    if n == 0 {
    } else {
      NoneUnresolved(q, history, n - 1);
    }
  }

  /** Marked failed neither in the listing nor, where it can be read, in the transaction. */
  predicate Succeeded(q: Query, sig: Sig) {
    sig.failed != Some(true) && (sig.signature in q.txs ==> !q.txs[sig.signature].failed)
  }

  /**
   * A walk that stopped inside its pages with nothing unresolved has every successful
   * transaction of the window exactly when the node returned each of them: one it does not
   * return is left out without being counted.
   */
  lemma NothingMissingExactlyWhen(q: Query, history: seq<Sig>)
    requires UniqueSignatures(history) && TimesFallBack(history)
    requires Examined(q, history) < SIGNATURE_LIMIT && UnresolvedOf(q, history, Examined(q, history)) == 0
    ensures (forall j :: 0 <= j < |history| && InWindow(q, history[j]) && Succeeded(q, history[j]) ==>
               TimesRecorded(EventsOf(q, history, Examined(q, history)), history[j].signature) == 1)
       <==> (forall j :: 0 <= j < Examined(q, history) && InWindow(q, history[j]) && Succeeded(q, history[j]) ==>
               history[j].signature in q.txs)
  {
    var k := Examined(q, history);
    CompleteExactlyWhen(q, history);
    NoneUnresolved(q, history, k);
    forall j | 0 <= j < k && InWindow(q, history[j]) && Succeeded(q, history[j])
      ensures TimesRecorded(EventsOf(q, history, k), history[j].signature) == 1 <==> history[j].signature in q.txs
    {
      RecordedOnce(q, history, k, j);
      assert !Judge(q, history[j]).Unresolved?;
    }
  }

  // ---- the deltas telescope ----

  datatype Vault = Base | Quote

  function Delta(e: Event, v: Vault): int {
    match v case Base => e.baseDelta case Quote => e.quoteDelta
  }

  function Total(events: seq<Event>, v: Vault): int {
    if events == [] then 0 else Total(events[..|events| - 1], v) + Delta(events[|events| - 1], v)
  }

  function VaultKey(q: Query, v: Vault): string {
    match v case Base => q.baseVault case Quote => q.quoteVault
  }

  /**
   * `held[i]` is a vault's balance just after signature `i`, newest first: a transaction
   * records it before and after, and a failed one leaves it alone.
   */
  ghost predicate Chained(q: Query, history: seq<Sig>, v: Vault, held: seq<int>) {
    && |held| == |history| + 1
    && forall i :: 0 <= i < |history| ==> ChainedAt(q, history[i], v, held[i + 1], held[i])
  }

  ghost predicate ChainedAt(q: Query, sig: Sig, v: Vault, before: int, after: int) {
    && (sig.failed == Some(true) ==> before == after)
    && (sig.signature in q.txs ==>
          var tx := q.txs[sig.signature];
          if tx.failed then before == after
          else
            && (forall r: nat :: RowFor(tx, tx.pre, VaultKey(q, v), r) ==> tx.pre[r].amount == before)
            && (forall r: nat :: RowFor(tx, tx.post, VaultKey(q, v), r) ==> tx.post[r].amount == after))
  }

  /** Every signature's time is known, and every successful one in the window could be read in full. */
  ghost predicate FullyRead(q: Query, history: seq<Sig>, n: nat)
    requires n <= |history|
  {
    forall i :: 0 <= i < n ==>
      && history[i].blockTime.Some? && !Judge(q, history[i]).Unresolved?
      && (InWindow(q, history[i]) && history[i].failed != Some(true) ==> history[i].signature in q.txs)
  }

  /** The first signature from `i` on that is not newer than the window. */
  function WindowTop(q: Query, history: seq<Sig>, i: nat, n: nat): (a: nat)
    requires i <= n <= |history|
    ensures i <= a <= n
    ensures forall j :: i <= j < a ==> history[j].blockTime.Some? && history[j].blockTime.value > q.toSec
    ensures a < n ==> !(history[a].blockTime.Some? && history[a].blockTime.value > q.toSec)
    decreases n - i
  {
    if i < n && history[i].blockTime.Some? && history[i].blockTime.value > q.toSec then WindowTop(q, history, i + 1, n)
    else i
  }

  /** In the window and fully read, a signature moves the recorded total exactly as the chain moved the vault. */
  lemma DeltaIsTheChange(q: Query, sig: Sig, v: Vault, before: int, after: int)
    requires ChainedAt(q, sig, v, before, after) && InWindow(q, sig)
    requires sig.failed != Some(true) ==> sig.signature in q.txs
    requires !Judge(q, sig).Unresolved?
    ensures var outcome := Judge(q, sig);
            if outcome.Applied? then Delta(outcome.event, v) == after - before else after == before
  {
    JudgedExactlyWhen(q, sig);
    if Judge(q, sig).Applied? {
      var tx := q.txs[sig.signature];
      var r0: nat :| RowFor(tx, tx.pre, VaultKey(q, v), r0);
      var r1: nat :| RowFor(tx, tx.post, VaultKey(q, v), r1);
      DeltaIsBetweenRows(q, sig, v, r0, r1);
    }
  }

  lemma {:induction false} DeltasTelescope(q: Query, history: seq<Sig>, v: Vault, held: seq<int>, a: nat, n: nat)
    requires a <= n <= |history| && Chained(q, history, v, held) && FullyRead(q, history, n)
    requires forall j :: 0 <= j < a ==> history[j].blockTime.value > q.toSec
    requires forall j :: a <= j < n ==> InWindow(q, history[j])
    ensures Total(EventsOf(q, history, n), v) == held[a] - held[n]
    decreases n
  {
    if n == a {
      EventsGrow(q, history, 0, n);
    } else {
      DeltasTelescope(q, history, v, held, a, n - 1);
      var sig, outcome := history[n - 1], Judge(q, history[n - 1]);
      assert ChainedAt(q, sig, v, held[n - 1 + 1], held[n - 1]);
      DeltaIsTheChange(q, sig, v, held[n], held[n - 1]);
      if outcome.Applied? {
        var before := EventsOf(q, history, n - 1);
        assert (before + [outcome.event])[..|before|] == before;
      }
    }
  }

  /**
   * When nothing examined is unresolved or unreadable, the recorded deltas of either vault
   * add up to its net change over the window.
   */
  lemma WalkTelescopes(q: Query, history: seq<Sig>, v: Vault, held: seq<int>)
    requires TimesFallBack(history) && Chained(q, history, v, held)
    requires FullyRead(q, history, Examined(q, history))
    ensures var k := Examined(q, history);
            var a := WindowTop(q, history, 0, k);
            Total(EventsOf(q, history, k), v) == held[a] - held[k]
  {
    var k := Examined(q, history);
    var a := WindowTop(q, history, 0, k);
    forall j | a <= j < k ensures InWindow(q, history[j]) {
      assert !Judge(q, history[j]).TooOld?;
    }
    DeltasTelescope(q, history, v, held, a, k);
  }

  // ---- the replay ----

  function Clamp(x: int): int {
    if x < 0 then 0 else x
  }

  /** A reserve after applying events in order, never below zero. */
  function Settle(x: int, events: seq<Event>, v: Vault): int
    decreases |events|
  {
    if events == [] then x else Settle(Clamp(x + Delta(events[0], v)), events[1..], v)
  }

  function SlotKey(e: Event): real { e.slot as real }

  method ReplayCounterfactual(postEntryBase: int, postEntryQuote: int, events: seq<Event>)
    returns (base: int, quote: int)
    ensures base == Settle(postEntryBase, SortBy(events, SlotKey), Base)
    ensures quote == Settle(postEntryQuote, SortBy(events, SlotKey), Quote)
  {
    base, quote := postEntryBase, postEntryQuote;
    var ordered := SortBy(events, SlotKey);
    for k := 0 to |ordered|
      invariant Settle(base, ordered[k..], Base) == Settle(postEntryBase, ordered, Base)
      invariant Settle(quote, ordered[k..], Quote) == Settle(postEntryQuote, ordered, Quote)
    {
      var e := ordered[k];
      assert ordered[k..][0] == e && ordered[k..][1..] == ordered[k + 1..];
      base := base + e.baseDelta;
      quote := quote + e.quoteDelta;
      if base < 0 { base := 0; }
      if quote < 0 { quote := 0; }
    }
  }

  /** No step takes the reserve below zero. */
  ghost predicate StaysUp(x: int, events: seq<Event>, v: Vault)
    decreases |events|
  {
    events == [] || (x + Delta(events[0], v) >= 0 && StaysUp(x + Delta(events[0], v), events[1..], v))
  }

  lemma {:induction false} TotalCons(e: Event, events: seq<Event>, v: Vault)
    ensures Total([e] + events, v) == Delta(e, v) + Total(events, v)
    decreases |events|
  {
    var all := [e] + events;
    if events == [] {
      assert all[..0] == [];
    } else {
      TotalCons(e, events[..|events| - 1], v);
      assert all[..|all| - 1] == [e] + events[..|events| - 1];
    }
  }

  lemma {:induction false} InsertTotal(e: Event, events: seq<Event>, v: Vault)
    ensures Total(InsertBy(e, events, SlotKey), v) == Delta(e, v) + Total(events, v)
  {
    if events != [] && SlotKey(e) > SlotKey(events[0]) {
      InsertTotal(e, events[1..], v);
      TotalCons(events[0], InsertBy(e, events[1..], SlotKey), v);
      TotalCons(events[0], events[1..], v);
      assert [events[0]] + events[1..] == events;
    } else {
      TotalCons(e, events, v);
    }
  }

  lemma {:induction false} SortTotal(events: seq<Event>, v: Vault)
    ensures Total(SortBy(events, SlotKey), v) == Total(events, v)
  {
    if events == [] {
    } else {
      SortTotal(events[1..], v);
      InsertTotal(events[0], SortBy(events[1..], SlotKey), v);
      TotalCons(events[0], events[1..], v);
      assert [events[0]] + events[1..] == events;
    }
  }

  /** Clamping only ever adds, and adds nothing exactly when the reserve stays up. */
  lemma {:induction false} SettleAgainstTotal(x: int, events: seq<Event>, v: Vault)
    ensures Settle(x, events, v) >= x + Total(events, v)
    ensures Settle(x, events, v) == x + Total(events, v) <==> StaysUp(x, events, v)
    decreases |events|
  {
    if events == [] {
    } else {
      SettleAgainstTotal(Clamp(x + Delta(events[0], v)), events[1..], v);
      TotalCons(events[0], events[1..], v);
      assert [events[0]] + events[1..] == events;
    }
  }

  /**
   * The settled reserve in one formula: the highest of the start plus every delta and of the
   * totals of the deltas from each later point on.
   */
  lemma {:induction false} SettledIsTheHighest(x: int, events: seq<Event>, v: Vault)
    ensures Settle(x, events, v) >= x + Total(events, v)
    ensures forall k :: 1 <= k <= |events| ==> Settle(x, events, v) >= Total(events[k..], v)
    ensures Settle(x, events, v) == x + Total(events, v)
      || exists k :: 1 <= k <= |events| && Settle(x, events, v) == Total(events[k..], v)
    decreases |events|
  {
    if events == [] {
    } else {
      var rest, c := events[1..], Clamp(x + Delta(events[0], v));
      SettledIsTheHighest(c, rest, v);
      TotalCons(events[0], rest, v);
      assert [events[0]] + rest == events;
      assert forall k :: 1 <= k <= |rest| ==> rest[k..] == events[k + 1..];
      forall k | 1 <= k <= |events| ensures Settle(x, events, v) >= Total(events[k..], v) {
        if k > 1 {
          assert events[k..] == rest[k - 1..];
        }
      }
      if k :| 1 <= k <= |rest| && Settle(c, rest, v) == Total(rest[k..], v) {
        assert events[k + 1..] == rest[k..];
      } else if c == 0 {
        assert events[1..] == rest;
      }
    }
  }

  /**
   * End to end: the replayed reserve is the post-entry reserve plus the vault's net change
   * over the window exactly when no applied step would take it below zero; otherwise it is more.
   */
  lemma ReplayEndsAtNetChange(q: Query, history: seq<Sig>, v: Vault, held: seq<int>, postEntry: int)
    requires TimesFallBack(history) && Chained(q, history, v, held)
    requires FullyRead(q, history, Examined(q, history))
    ensures var k := Examined(q, history);
            var net := held[WindowTop(q, history, 0, k)] - held[k];
            var ordered := SortBy(EventsOf(q, history, k), SlotKey);
            && Settle(postEntry, ordered, v) >= postEntry + net
            && (Settle(postEntry, ordered, v) == postEntry + net <==> StaysUp(postEntry, ordered, v))
  {
    var events := EventsOf(q, history, Examined(q, history));
    WalkTelescopes(q, history, v, held);
    SortTotal(events, v);
    SettleAgainstTotal(postEntry, SortBy(events, SlotKey), v);
  }

  // ---- the order of the replay ----

  function Reversed(events: seq<Event>): (r: seq<Event>)
    ensures |r| == |events|
  {
    if events == [] then [] else Reversed(events[1..]) + [events[0]]
  }

  ghost predicate AllDiffer(events: seq<Event>) {
    forall i, j :: 0 <= i < j < |events| ==> events[i] != events[j]
  }

  /** Along the walk every event is in an earlier slot than the one before it. */
  predicate SlotsFall(events: seq<Event>) {
    forall i, j :: 0 <= i < j < |events| ==> events[j].slot < events[i].slot
  }

  predicate SlotsNeverRise(events: seq<Event>) {
    forall i, j :: 0 <= i < j < |events| ==> events[j].slot <= events[i].slot
  }

  /** An event sorts to the very end exactly when every other is in an earlier slot. */
  lemma {:induction false} InsertsLast(e: Event, sorted: seq<Event>, rest: seq<Event>)
    requires e !in sorted
    ensures InsertBy(e, sorted, SlotKey) == rest + [e]
       <==> rest == sorted && forall k :: 0 <= k < |sorted| ==> sorted[k].slot < e.slot
    decreases |sorted|
  {
    var r := InsertBy(e, sorted, SlotKey);
    InsertKeeps(e, sorted, SlotKey);
    if sorted == [] {
      assert r == [e];
      assert rest != [] ==> |rest + [e]| > 1;
    } else if SlotKey(e) <= SlotKey(sorted[0]) {
      assert r[|r| - 1] == sorted[|sorted| - 1] != e;
    } else if rest != [] {
      InsertsLast(e, sorted[1..], rest[1..]);
      SameAfterHead(sorted[0], InsertBy(e, sorted[1..], SlotKey), rest, e);
      assert rest == sorted <==> rest[0] == sorted[0] && rest[1..] == sorted[1..] by {
        assert rest == [rest[0]] + rest[1..] && sorted == [sorted[0]] + sorted[1..];
      }
    }
  }

  lemma SameAfterHead(head: Event, tail: seq<Event>, rest: seq<Event>, e: Event)
    requires rest != []
    ensures [head] + tail == rest + [e] <==> head == rest[0] && tail == rest[1..] + [e]
  {
    assert rest + [e] == [rest[0]] + (rest[1..] + [e]);
    assert ([head] + tail)[1..] == tail && (rest + [e])[1..] == rest[1..] + [e];
  }

  /**
   * The replay applies the walk's events oldest first exactly when their slots strictly fall
   * along the walk; if they never rise, exactly when no two events share a slot.
   */
  lemma {:induction false} ReplayRunsForwardExactlyWhen(events: seq<Event>)
    requires AllDiffer(events)
    ensures SortBy(events, SlotKey) == Reversed(events) <==> SlotsFall(events)
    ensures SlotsNeverRise(events) ==>
      (SortBy(events, SlotKey) == Reversed(events)
       <==> forall i, j :: 0 <= i < j < |events| ==> events[i].slot != events[j].slot)
  {
    if events == [] {
    } else {
      var e, rest := events[0], events[1..];
      assert forall i :: 0 <= i < |rest| ==> rest[i] == events[i + 1];
      var sorted := SortBy(rest, SlotKey);
      ReplayRunsForwardExactlyWhen(rest);
      SortKeeps(rest, SlotKey);
      SameElements(sorted, rest);
      InsertsLast(e, sorted, Reversed(rest));
      SlotsBelow(e, sorted, rest);
    }
  }

  lemma SlotsBelow(e: Event, sorted: seq<Event>, rest: seq<Event>)
    requires forall x :: x in sorted <==> x in rest
    ensures (forall k :: 0 <= k < |sorted| ==> sorted[k].slot < e.slot)
       <==> (forall k :: 0 <= k < |rest| ==> rest[k].slot < e.slot)
  {
    assert (forall k :: 0 <= k < |sorted| ==> sorted[k].slot < e.slot) <==> forall x :: x in sorted ==> x.slot < e.slot;
    assert (forall k :: 0 <= k < |rest| ==> rest[k].slot < e.slot) <==> forall x :: x in rest ==> x.slot < e.slot;
  }

  lemma {:induction false} ReversedTotal(events: seq<Event>, v: Vault)
    ensures Total(Reversed(events), v) == Total(events, v)
  {
    if events == [] {
    } else {
      var e, rest := events[0], events[1..];
      ReversedTotal(rest, v);
      TotalCons(e, rest, v);
      assert [e] + rest == events;
      assert (Reversed(rest) + [e])[..|rest|] == Reversed(rest);
    }
  }

  /**
   * Replayed in slot order and in chain order the reserve is never below the net change. When
   * either order keeps it up throughout, the two end at the same reserve exactly when both do.
   */
  lemma OrdersAgreeExactlyWhen(x: int, events: seq<Event>, v: Vault)
    ensures var sorted, chain := SortBy(events, SlotKey), Reversed(events);
            && Settle(x, sorted, v) >= x + Total(events, v) && Settle(x, chain, v) >= x + Total(events, v)
            && (StaysUp(x, sorted, v) || StaysUp(x, chain, v) ==>
                  (Settle(x, sorted, v) == Settle(x, chain, v) <==> StaysUp(x, sorted, v) && StaysUp(x, chain, v)))
  {
    SortTotal(events, v);
    ReversedTotal(events, v);
    SettleAgainstTotal(x, SortBy(events, SlotKey), v);
    SettleAgainstTotal(x, Reversed(events), v);
  }

  ghost predicate SignaturesDiffer(events: seq<Event>) {
    forall i, j :: 0 <= i < j < |events| ==> events[i].signature != events[j].signature
  }

  lemma {:induction false} EventsDiffer(q: Query, history: seq<Sig>, n: nat)
    requires UniqueSignatures(history) && n <= |history|
    ensures SignaturesDiffer(EventsOf(q, history, n))
    ensures forall i :: 0 <= i < |EventsOf(q, history, n)| ==>
      exists j :: 0 <= j < n && Judge(q, history[j]) == Applied(EventsOf(q, history, n)[i])
  {
    if n == 0 {
    } else {
      EventsDiffer(q, history, n - 1);
    }
  }

  /** The walk's own events: replayed in chain order exactly when their slots strictly fall. */
  lemma WalkReplaysForwardExactlyWhen(q: Query, history: seq<Sig>)
    requires UniqueSignatures(history)
    ensures var events := EventsOf(q, history, Examined(q, history));
            SortBy(events, SlotKey) == Reversed(events) <==> SlotsFall(events)
  {
    var events := EventsOf(q, history, Examined(q, history));
    EventsDiffer(q, history, Examined(q, history));
    ReplayRunsForwardExactlyWhen(events);
  }

  /**
   * Events of one slot keep the newest-first order of the walk, so the replay applies them
   * backwards: here a deposit of ten and then a withdrawal of twelve end at ten instead of three.
   */
  lemma SameSlotRunsBackwards(deposit: Event, withdrawal: Event)
    requires deposit.slot == withdrawal.slot && deposit.baseDelta == 10 && withdrawal.baseDelta == -12
    ensures SortBy([withdrawal, deposit], SlotKey) == [withdrawal, deposit]
    ensures Settle(5, SortBy([withdrawal, deposit], SlotKey), Base) == 10
    ensures Settle(5, [deposit, withdrawal], Base) == 3
  {
    var walked := [withdrawal, deposit];
    assert walked[1..] == [deposit] && [deposit][1..] == [];
    assert SortBy([deposit], SlotKey) == [deposit];
    assert [deposit, withdrawal][1..] == [withdrawal] && [withdrawal][1..] == [];
    assert Settle(0, [deposit], Base) == Settle(10, [], Base);
    assert Settle(15, [withdrawal], Base) == Settle(3, [], Base);
  }
}
