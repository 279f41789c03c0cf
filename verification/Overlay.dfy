/**
 * Carrying observed accounts forward onto a snapshot (overlayAll in
 * scripts/cold-warm-surface.ts). A JavaScript Map keeps each key where it was first set,
 * so the Map is the sequence of its accounts in that order, one per key.
 */
module Overlay {
  import opened Prelude

  const RENT_EXEMPT_EPOCH := 0xFFFF_FFFF_FFFF_FFFF

  datatype Account = Account(
    pubkey: string, owner: string, data: string, lamports: int, executable: Option<bool>, rentEpoch: Option<int>)

  datatype Observed = Observed(pubkey: string, owner: string, lamports: int, data: Option<string>)

  /** The programs and sysvars the runtime supplies itself. */
  const BUILTINS: set<string> := {
    "11111111111111111111111111111111",
    "TokenkegQfeZyiNwAJbNbGKPFXCWuBvf9Ss623VQ5DA",
    "TokenzQdBNbLqP5VEhdkAS6EPFLC1PHnBqCXEpPxuEb",
    "ATokenGPvbdGVxr1b2hvZbsiqW5xWH25efTNsLJA8knL",
    "ComputeBudget111111111111111111111111111111",
    "SysvarRent111111111111111111111111111111111",
    "SysvarC1ock11111111111111111111111111111111"
  }

  // ---- the Map ----

  predicate DistinctKeys(t: seq<Account>) {
    forall i, j :: 0 <= i < j < |t| ==> t[i].pubkey != t[j].pubkey
  }

  predicate Has(t: seq<Account>, key: string) {
    exists i :: 0 <= i < |t| && t[i].pubkey == key
  }

  /** Sets the account in the place its key already has, or at the end. */
  function Put(t: seq<Account>, a: Account): (r: seq<Account>)
    requires DistinctKeys(t)
    ensures DistinctKeys(r)
  {
    if Has(t, a.pubkey) then seq(|t|, i requires 0 <= i < |t| => if t[i].pubkey == a.pubkey then a else t[i])
    else t + [a]
  }

  function Lookup(t: seq<Account>, key: string): (a: Option<Account>)
    ensures a.Some? <==> Has(t, key)
    ensures a.Some? ==> a.value in t && a.value.pubkey == key
  {
    if t == [] then None
    else if t[0].pubkey == key then Some(t[0])
    else
      assert forall i :: 1 <= i < |t| ==> t[i] == t[1..][i - 1];
      Lookup(t[1..], key)
  }

  /** The Map built from the first `n` accounts. */
  function FromAccounts(base: seq<Account>, n: nat): (r: seq<Account>)
    requires n <= |base|
    ensures DistinctKeys(r)
  {
    if n == 0 then [] else Put(FromAccounts(base, n - 1), base[n - 1])
  }

  lemma LookupAt(t: seq<Account>, i: nat)
    requires DistinctKeys(t) && i < |t|
    ensures Lookup(t, t[i].pubkey) == Some(t[i])
  {
  }

  lemma LookupAfterPut(t: seq<Account>, a: Account, key: string)
    requires DistinctKeys(t)
    ensures Lookup(Put(t, a), key) == if key == a.pubkey then Some(a) else Lookup(t, key)
  {
    var r := Put(t, a);
    if Has(t, key) {
      var i :| 0 <= i < |t| && t[i].pubkey == key;
      LookupAt(t, i);
      assert r[i].pubkey == key;
      LookupAt(r, i);
    } else if key == a.pubkey {
      LookupAt(r, |t|);
    } else {
      assert !Has(r, key);
    }
  }

  /** Maps with the same keys in the same places and the same account under each are the same. */
  lemma SameMap(r: seq<Account>, t: seq<Account>)
    requires DistinctKeys(r) && DistinctKeys(t) && |r| == |t|
    requires forall i :: 0 <= i < |t| ==> r[i].pubkey == t[i].pubkey
    requires forall i :: 0 <= i < |t| ==> Lookup(r, t[i].pubkey) == Lookup(t, t[i].pubkey)
    ensures r == t
  {
    forall i | 0 <= i < |t| ensures r[i] == t[i] {
      LookupAt(t, i);
      LookupAt(r, i);
    }
  }

  /** Reading back accounts that are already one per key changes nothing. */
  lemma {:induction false} DistinctReadBack(base: seq<Account>, n: nat)
    requires n <= |base| && DistinctKeys(base)
    ensures FromAccounts(base, n) == base[..n]
  {
    if n == 0 {
    } else {
      DistinctReadBack(base, n - 1);
      assert !Has(base[..n - 1], base[n - 1].pubkey);
      assert base[..n] == base[..n - 1] + [base[n - 1]];
    }
  }

  lemma ReadBack(base: seq<Account>)
    requires DistinctKeys(base)
    ensures FromAccounts(base, |base|) == base
  {
    DistinctReadBack(base, |base|);
    assert base[..|base|] == base;
  }

  // ---- the overlay ----

  function Restored(o: Observed): Account
    requires o.data.Some?
  {
    Account(o.pubkey, o.owner, o.data.value, o.lamports, Some(false), Some(RENT_EXEMPT_EPOCH))
  }

  predicate Flagged(base: seq<Account>, key: string) {
    exists i :: 0 <= i < |base| && base[i].pubkey == key && base[i].executable == Some(true)
  }

  /** Loaded programs, accounts the base flags executable, and builtins. */
  function ProtectedKeys(base: seq<Account>, programIds: seq<string>): (keys: set<string>)
    ensures forall k :: k in keys <==> k in programIds || Flagged(base, k) || k in BUILTINS
  {
    var flagged := set i | 0 <= i < |base| && base[i].executable == Some(true) :: base[i].pubkey;
    (set k | k in programIds) + flagged + BUILTINS
  }

  predicate Writes(guarded: set<string>, o: Observed) {
    o.data.Some? && o.pubkey !in guarded
  }

  function WriteOne(t: seq<Account>, guarded: set<string>, o: Observed): (r: seq<Account>)
    requires DistinctKeys(t)
    ensures DistinctKeys(r)
  {
    if Writes(guarded, o) then Put(t, Restored(o)) else t
  }

  function WriteAll(t: seq<Account>, guarded: set<string>, observed: seq<Observed>, n: nat): (r: seq<Account>)
    requires DistinctKeys(t) && n <= |observed|
    ensures DistinctKeys(r)
  {
    if n == 0 then t else WriteOne(WriteAll(t, guarded, observed, n - 1), guarded, observed[n - 1])
  }

  function Overlaid(base: seq<Account>, observed: seq<Observed>, programIds: seq<string>): (r: seq<Account>)
    ensures DistinctKeys(r)
  {
    WriteAll(FromAccounts(base, |base|), ProtectedKeys(base, programIds), observed, |observed|)
  }

  method OverlayAll(base: seq<Account>, observed: seq<Observed>, programIds: seq<string>) returns (out: seq<Account>)
    ensures out == Overlaid(base, observed, programIds)
  {
    out := FromAccounts(base, |base|);
    var guarded := ProtectedKeys(base, programIds);
    for k := 0 to |observed|
      invariant DistinctKeys(out) && out == WriteAll(FromAccounts(base, |base|), guarded, observed, k)
    {
      var o := observed[k];
      if o.data.None? { continue; }
      if o.pubkey in guarded { continue; }
      out := Put(out, Restored(o));
    }
  }

  // ---- what each key ends up with ----

  predicate WritesTo(guarded: set<string>, o: Observed, key: string) {
    Writes(guarded, o) && o.pubkey == key
  }

  /** The account is the observation's state, no longer executable and exempt from rent. */
  predicate Carries(a: Account, o: Observed) {
    && a.pubkey == o.pubkey && a.owner == o.owner && a.lamports == o.lamports && Some(a.data) == o.data
    && a.executable == Some(false) && a.rentEpoch == Some(RENT_EXEMPT_EPOCH)
  }

  /** The last observation among the first `n` that is written under a key. */
  function LastWrite(guarded: set<string>, observed: seq<Observed>, n: nat, key: string): (a: Option<Account>)
    requires n <= |observed|
    ensures a.Some? ==> key !in guarded && a.value.pubkey == key && a.value.executable == Some(false)
  {
    if n == 0 then None
    else if WritesTo(guarded, observed[n - 1], key) then Some(Restored(observed[n - 1]))
    else LastWrite(guarded, observed, n - 1, key)
  }

  /** That account carries the last observation not skipped, and is absent exactly when all are skipped. */
  lemma {:induction false} LastWriteCarries(guarded: set<string>, observed: seq<Observed>, n: nat, key: string)
    requires n <= |observed|
    ensures LastWrite(guarded, observed, n, key).None? <==>
      forall i :: 0 <= i < n ==> !WritesTo(guarded, observed[i], key)
    ensures LastWrite(guarded, observed, n, key).Some? ==> exists i ::
      && 0 <= i < n && WritesTo(guarded, observed[i], key)
      && Carries(LastWrite(guarded, observed, n, key).value, observed[i])
      && forall j :: i < j < n ==> !WritesTo(guarded, observed[j], key)
  {
    if n == 0 {
    } else {
      LastWriteCarries(guarded, observed, n - 1, key);
    }
  }

  /** A key holds its last written observation, or else what it held before. */
  lemma {:induction false} HoldsLastWrite(t: seq<Account>, guarded: set<string>, observed: seq<Observed>, n: nat,
                                          key: string)
    requires DistinctKeys(t) && n <= |observed|
    ensures var w := LastWrite(guarded, observed, n, key);
            Lookup(WriteAll(t, guarded, observed, n), key) == if w.Some? then w else Lookup(t, key)
  {
    if n == 0 {
    } else {
      HoldsLastWrite(t, guarded, observed, n - 1, key);
      if Writes(guarded, observed[n - 1]) {
        LookupAfterPut(WriteAll(t, guarded, observed, n - 1), Restored(observed[n - 1]), key);
      }
    }
  }

  lemma PlacesKeptByOne(t: seq<Account>, guarded: set<string>, o: Observed)
    requires DistinctKeys(t)
    ensures |t| <= |WriteOne(t, guarded, o)|
    ensures forall i :: 0 <= i < |t| ==> WriteOne(t, guarded, o)[i].pubkey == t[i].pubkey
  {
  }

  /** The keys there before keep their places; new ones come after them. */
  lemma {:induction false} PlacesKept(t: seq<Account>, guarded: set<string>, observed: seq<Observed>, n: nat)
    requires DistinctKeys(t) && n <= |observed|
    ensures |t| <= |WriteAll(t, guarded, observed, n)|
    ensures forall i :: 0 <= i < |t| ==> WriteAll(t, guarded, observed, n)[i].pubkey == t[i].pubkey
  {
    if n == 0 {
    } else {
      PlacesKept(t, guarded, observed, n - 1);
      PlacesKeptByOne(WriteAll(t, guarded, observed, n - 1), guarded, observed[n - 1]);
    }
  }

  /** Overlaying only onto keys already there moves and adds nothing. */
  lemma {:induction false} NoNewKeys(t: seq<Account>, guarded: set<string>, observed: seq<Observed>, n: nat)
    requires DistinctKeys(t) && n <= |observed|
    requires forall i :: 0 <= i < n && Writes(guarded, observed[i]) ==> Has(t, observed[i].pubkey)
    ensures |WriteAll(t, guarded, observed, n)| == |t|
  {
    if n == 0 {
    } else {
      NoNewKeys(t, guarded, observed, n - 1);
      PlacesKept(t, guarded, observed, n - 1);
      var earlier := WriteAll(t, guarded, observed, n - 1);
      if Writes(guarded, observed[n - 1]) {
        var i :| 0 <= i < |t| && t[i].pubkey == observed[n - 1].pubkey;
        assert earlier[i].pubkey == observed[n - 1].pubkey;
      }
    }
  }

  lemma {:induction false} WritePrefix(t: seq<Account>, guarded: set<string>, xs: seq<Observed>, ys: seq<Observed>,
                                       n: nat)
    requires DistinctKeys(t) && n <= |xs|
    ensures WriteAll(t, guarded, xs + ys, n) == WriteAll(t, guarded, xs, n)
  {
    if n == 0 {
    } else {
      WritePrefix(t, guarded, xs, ys, n - 1);
      assert (xs + ys)[n - 1] == xs[n - 1];
    }
  }

  lemma {:induction false} WriteInTwoParts(t: seq<Account>, guarded: set<string>, xs: seq<Observed>,
                                           ys: seq<Observed>, n: nat)
    requires DistinctKeys(t) && n <= |ys|
    ensures WriteAll(t, guarded, xs + ys, |xs| + n) == WriteAll(WriteAll(t, guarded, xs, |xs|), guarded, ys, n)
  {
    if n == 0 {
      WritePrefix(t, guarded, xs, ys, |xs|);
    } else {
      WriteInTwoParts(t, guarded, xs, ys, n - 1);
      assert (xs + ys)[|xs| + n - 1] == ys[n - 1];
    }
  }

  // ---- the protected set survives an overlay ----

  predicate FlagIn(t: seq<Account>, key: string) {
    var a := Lookup(t, key);
    a.Some? && a.value.executable == Some(true)
  }

  /** The last account under a protected key still carries the flag that protects it. */
  predicate FlagsStand(base: seq<Account>, programIds: seq<string>) {
    var t := FromAccounts(base, |base|);
    forall i :: 0 <= i < |base| && base[i].executable == Some(true) ==>
      base[i].pubkey in programIds || base[i].pubkey in BUILTINS || FlagIn(t, base[i].pubkey)
  }

  /** What a Map built from accounts holds under a key is one of them. */
  lemma {:induction false} HoldsAnAccount(base: seq<Account>, n: nat, key: string)
    requires n <= |base| && Lookup(FromAccounts(base, n), key).Some?
    ensures exists i :: 0 <= i < n && Lookup(FromAccounts(base, n), key) == Some(base[i])
  {
    LookupAfterPut(FromAccounts(base, n - 1), base[n - 1], key);
    if base[n - 1].pubkey == key {
    } else {
      HoldsAnAccount(base, n - 1, key);
    }
  }

  lemma FlaggedIsFlagIn(t: seq<Account>, key: string)
    requires DistinctKeys(t)
    ensures Flagged(t, key) <==> FlagIn(t, key)
  {
    if Flagged(t, key) {
      var i :| 0 <= i < |t| && t[i].pubkey == key && t[i].executable == Some(true);
      LookupAt(t, i);
    }
  }

  /** A flag in the overlaid Map is a flag of the base, and the base's standing flags remain. */
  lemma FlagsAfter(base: seq<Account>, guarded: set<string>, observed: seq<Observed>, key: string)
    ensures var before := FromAccounts(base, |base|);
            var after := WriteAll(before, guarded, observed, |observed|);
            (FlagIn(after, key) ==> Flagged(base, key))
            && (FlagIn(before, key) && key in guarded ==> FlagIn(after, key))
  {
    var before := FromAccounts(base, |base|);
    HoldsLastWrite(before, guarded, observed, |observed|, key);
    if FlagIn(before, key) {
      HoldsAnAccount(base, |base|, key);
    }
  }

  lemma ProtectionIsStable(base: seq<Account>, observed: seq<Observed>, programIds: seq<string>)
    requires FlagsStand(base, programIds)
    ensures ProtectedKeys(Overlaid(base, observed, programIds), programIds) == ProtectedKeys(base, programIds)
  {
    var guarded := ProtectedKeys(base, programIds);
    var after := Overlaid(base, observed, programIds);
    forall key ensures key in ProtectedKeys(after, programIds) <==> key in guarded {
      FlaggedIsFlagIn(after, key);
      FlagsAfter(base, guarded, observed, key);
    }
  }

  // ---- overlaying twice ----

  lemma TwiceIsOnce(base: seq<Account>, xs: seq<Observed>, ys: seq<Observed>, programIds: seq<string>)
    requires FlagsStand(base, programIds)
    ensures Overlaid(Overlaid(base, xs, programIds), ys, programIds) == Overlaid(base, xs + ys, programIds)
  {
    ProtectionIsStable(base, xs, programIds);
    ReadBack(Overlaid(base, xs, programIds));
    WriteInTwoParts(FromAccounts(base, |base|), ProtectedKeys(base, programIds), xs, ys, |ys|);
  }

  /** Two overlays agree with one of the concatenation, whatever is observed, exactly when the flags stand. */
  lemma TwiceIsOnceExactlyWhen(base: seq<Account>, programIds: seq<string>)
    ensures (forall xs, ys ::
               Overlaid(Overlaid(base, xs, programIds), ys, programIds) == Overlaid(base, xs + ys, programIds))
       <==> FlagsStand(base, programIds)
  {
    if FlagsStand(base, programIds) {
      forall xs, ys
        ensures Overlaid(Overlaid(base, xs, programIds), ys, programIds) == Overlaid(base, xs + ys, programIds)
      {
        TwiceIsOnce(base, xs, ys, programIds);
      }
    } else {
      var ys := FallenFlagIsOverwritten(base, programIds);
    }
  }

  /** A flag hidden by a later unflagged duplicate protects its key the first time and not the second. */
  lemma FallenFlagIsOverwritten(base: seq<Account>, programIds: seq<string>) returns (ys: seq<Observed>)
    requires !FlagsStand(base, programIds)
    ensures Overlaid(Overlaid(base, [], programIds), ys, programIds) != Overlaid(base, [] + ys, programIds)
  {
    var t := FromAccounts(base, |base|);
    var i :| 0 <= i < |base| && base[i].executable == Some(true)
          && base[i].pubkey !in programIds && base[i].pubkey !in BUILTINS && !FlagIn(t, base[i].pubkey);
    var key := base[i].pubkey;
    var held := Lookup(t, key);
    ys := [Observed(key, "", if held.Some? then held.value.lamports + 1 else 0, Some(""))];
    var once, again := ProtectedKeys(base, programIds), ProtectedKeys(t, programIds);
    assert Flagged(base, key) && key in once;
    FlaggedIsFlagIn(t, key);
    assert key !in again;
    ReadBack(t);
    assert [] + ys == ys;
    HoldsLastWrite(t, again, ys, 1, key);
    HoldsLastWrite(t, once, ys, 1, key);
    assert Lookup(WriteAll(t, again, ys, 1), key) != Lookup(WriteAll(t, once, ys, 1), key);
    assert Overlaid(base, [], programIds) == t;
  }

  // ---- overlaying the same again, and what is left alone ----

  lemma DistinctFlagsStand(base: seq<Account>, programIds: seq<string>)
    requires DistinctKeys(base)
    ensures FlagsStand(base, programIds)
  {
    ReadBack(base);
    forall i | 0 <= i < |base| && base[i].executable == Some(true) ensures FlagIn(base, base[i].pubkey) {
      LookupAt(base, i);
    }
  }

  /** Every observation written is found under its key afterwards. */
  lemma {:induction false} WrittenIsThere(t: seq<Account>, guarded: set<string>, observed: seq<Observed>, n: nat,
                                          i: nat)
    requires DistinctKeys(t) && i < n <= |observed| && Writes(guarded, observed[i])
    ensures Has(WriteAll(t, guarded, observed, n), observed[i].pubkey)
  {
    HoldsLastWrite(t, guarded, observed, n, observed[i].pubkey);
    WriteSurvives(guarded, observed, n, i);
  }

  lemma {:induction false} WriteSurvives(guarded: set<string>, observed: seq<Observed>, n: nat, i: nat)
    requires i < n <= |observed| && Writes(guarded, observed[i])
    ensures LastWrite(guarded, observed, n, observed[i].pubkey).Some?
  {
    if i == n - 1 {
    } else {
      WriteSurvives(guarded, observed, n - 1, i);
    }
  }

  lemma WritingAgainChangesNothing(t: seq<Account>, guarded: set<string>, observed: seq<Observed>)
    requires DistinctKeys(t)
    ensures var once := WriteAll(t, guarded, observed, |observed|);
            WriteAll(once, guarded, observed, |observed|) == once
  {
    var n := |observed|;
    var once := WriteAll(t, guarded, observed, n);
    var twice := WriteAll(once, guarded, observed, n);
    forall i | 0 <= i < n && Writes(guarded, observed[i]) ensures Has(once, observed[i].pubkey) {
      WrittenIsThere(t, guarded, observed, n, i);
    }
    NoNewKeys(once, guarded, observed, n);
    PlacesKept(once, guarded, observed, n);
    forall k ensures Lookup(twice, k) == Lookup(once, k) {
      HoldsLastWrite(t, guarded, observed, n, k);
      HoldsLastWrite(once, guarded, observed, n, k);
    }
    SameMap(twice, once);
  }

  // ---- exactly when a second overlay of the same changes nothing ----

  /** A key protected only by a flag that a later account under it hides. */
  predicate Fallen(base: seq<Account>, programIds: seq<string>, key: string) {
    && Flagged(base, key) && key !in programIds && key !in BUILTINS
    && !FlagIn(FromAccounts(base, |base|), key)
  }

  /** What was last observed with its bytes under every such key is what the base already holds there. */
  ghost predicate FallenHoldTheirs(base: seq<Account>, observed: seq<Observed>, programIds: seq<string>) {
    forall key :: Fallen(base, programIds, key) ==>
      var w := LastWrite({}, observed, |observed|, key);
      w.None? || w == Lookup(FromAccounts(base, |base|), key)
  }

  /** A second overlay protects the same keys but the fallen ones. */
  lemma ProtectedAfter(base: seq<Account>, observed: seq<Observed>, programIds: seq<string>, key: string)
    ensures key in ProtectedKeys(Overlaid(base, observed, programIds), programIds)
       <==> key in ProtectedKeys(base, programIds) && !Fallen(base, programIds, key)
  {
    FlaggedIsFlagIn(Overlaid(base, observed, programIds), key);
    FlagsAfter(base, ProtectedKeys(base, programIds), observed, key);
    HoldsLastWrite(FromAccounts(base, |base|), ProtectedKeys(base, programIds), observed, |observed|, key);
  }

  /** Under an unprotected key the last write does not depend on which others are protected. */
  lemma {:induction false} LastWriteUnguarded(guarded: set<string>, observed: seq<Observed>, n: nat, key: string)
    requires n <= |observed|
    ensures LastWrite(guarded, observed, n, key) == if key in guarded then None else LastWrite({}, observed, n, key)
  {
    if n == 0 {
    } else {
      LastWriteUnguarded(guarded, observed, n - 1, key);
    }
  }

  /** What a key holds after the second overlay of the same observations. */
  lemma HoldsAfterSecond(base: seq<Account>, observed: seq<Observed>, programIds: seq<string>, key: string)
    ensures var once := Overlaid(base, observed, programIds);
            var twice := Overlaid(once, observed, programIds);
            var w := LastWrite({}, observed, |observed|, key);
            Lookup(twice, key) == if Fallen(base, programIds, key) && w.Some? then w else Lookup(once, key)
  {
    var n := |observed|;
    var once := Overlaid(base, observed, programIds);
    var first, second := ProtectedKeys(base, programIds), ProtectedKeys(once, programIds);
    ReadBack(once);
    ProtectedAfter(base, observed, programIds, key);
    HoldsLastWrite(FromAccounts(base, |base|), first, observed, n, key);
    HoldsLastWrite(once, second, observed, n, key);
    LastWriteUnguarded(first, observed, n, key);
    LastWriteUnguarded(second, observed, n, key);
  }

  /** The second overlay adds no key: what it writes is there already. */
  lemma SecondAddsNoKey(base: seq<Account>, observed: seq<Observed>, programIds: seq<string>)
    ensures var once := Overlaid(base, observed, programIds);
            var twice := Overlaid(once, observed, programIds);
            |twice| == |once| && forall i :: 0 <= i < |once| ==> twice[i].pubkey == once[i].pubkey
  {
    var n, once := |observed|, Overlaid(base, observed, programIds);
    var first, second := ProtectedKeys(base, programIds), ProtectedKeys(once, programIds);
    ReadBack(once);
    forall i | 0 <= i < n && Writes(second, observed[i]) ensures Has(once, observed[i].pubkey) {
      if observed[i].pubkey in first {
        ProtectedAfter(base, observed, programIds, observed[i].pubkey);
        FallenIsHeld(base, first, observed, observed[i].pubkey);
      } else {
        WrittenIsThere(FromAccounts(base, |base|), first, observed, n, i);
      }
    }
    NoNewKeys(once, second, observed, n);
    PlacesKept(once, second, observed, n);
  }

  lemma FallenIsHeld(base: seq<Account>, guarded: set<string>, observed: seq<Observed>, key: string)
    requires Flagged(base, key)
    ensures Has(WriteAll(FromAccounts(base, |base|), guarded, observed, |observed|), key)
  {
    var i :| 0 <= i < |base| && base[i].pubkey == key;
    AccountIsHeld(base, |base|, i);
    HoldsLastWrite(FromAccounts(base, |base|), guarded, observed, |observed|, key);
  }

  lemma {:induction false} AccountIsHeld(base: seq<Account>, n: nat, i: nat)
    requires i < n <= |base|
    ensures Has(FromAccounts(base, n), base[i].pubkey)
  {
    var earlier, key := FromAccounts(base, n - 1), base[i].pubkey;
    LookupAfterPut(earlier, base[n - 1], key);
    assert FromAccounts(base, n) == Put(earlier, base[n - 1]);
    if i == n - 1 {
      assert Lookup(FromAccounts(base, n), key).Some?;
    } else {
      AccountIsHeld(base, n - 1, i);
      assert Lookup(earlier, key).Some? && Lookup(FromAccounts(base, n), key).Some?;
    }
  }

  /**
   * Overlaying the same observations a second time changes nothing exactly when every hidden
   * flag's key either was not observed with its bytes or was last observed as the base holds it.
   */
  lemma IdempotentExactlyWhen(base: seq<Account>, observed: seq<Observed>, programIds: seq<string>)
    ensures Overlaid(Overlaid(base, observed, programIds), observed, programIds) == Overlaid(base, observed, programIds)
       <==> FallenHoldTheirs(base, observed, programIds)
  {
    var once := Overlaid(base, observed, programIds);
    var twice := Overlaid(once, observed, programIds);
    forall key
      ensures Lookup(twice, key) == Lookup(once, key)
         <==> (Fallen(base, programIds, key) ==>
                 var w := LastWrite({}, observed, |observed|, key);
                 w.None? || w == Lookup(FromAccounts(base, |base|), key))
    {
      HoldsAfterSecond(base, observed, programIds, key);
      HoldsLastWrite(FromAccounts(base, |base|), ProtectedKeys(base, programIds), observed, |observed|, key);
    }
    if FallenHoldTheirs(base, observed, programIds) {
      SecondAddsNoKey(base, observed, programIds);
      SameMap(twice, once);
    }
  }

  /** With every flag standing, overlaying the same observations a second time changes nothing. */
  lemma OverlayIsIdempotent(base: seq<Account>, observed: seq<Observed>, programIds: seq<string>)
    requires FlagsStand(base, programIds)
    ensures Overlaid(Overlaid(base, observed, programIds), observed, programIds) == Overlaid(base, observed, programIds)
  {
    ProtectionIsStable(base, observed, programIds);
    ReadBack(Overlaid(base, observed, programIds));
    WritingAgainChangesNothing(FromAccounts(base, |base|), ProtectedKeys(base, programIds), observed);
  }

  /**
   * Over a base without duplicates every account keeps its place, and is replaced exactly
   * when its key is unprotected and was observed with its bytes, by the last such observation.
   */
  lemma OverlayContents(base: seq<Account>, observed: seq<Observed>, programIds: seq<string>)
    requires DistinctKeys(base)
    ensures var r, guarded := Overlaid(base, observed, programIds), ProtectedKeys(base, programIds);
            |base| <= |r| && forall i :: 0 <= i < |base| ==>
              var w := LastWrite(guarded, observed, |observed|, base[i].pubkey);
              r[i] == (if w.Some? then w.value else base[i]) && (base[i].pubkey in guarded ==> r[i] == base[i])
  {
    var r, guarded := Overlaid(base, observed, programIds), ProtectedKeys(base, programIds);
    ReadBack(base);
    PlacesKept(base, guarded, observed, |observed|);
    forall i | 0 <= i < |base|
      ensures var w := LastWrite(guarded, observed, |observed|, base[i].pubkey);
              r[i] == if w.Some? then w.value else base[i]
    {
      HoldsLastWrite(base, guarded, observed, |observed|, base[i].pubkey);
      LookupAt(base, i);
      LookupAt(r, i);
    }
  }
}
