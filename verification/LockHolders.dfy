/**
 * When a lock has at most one live holder: the row that `acquire`, `heartbeat` and `release`
 * guard (packages/storage/src/db.ts) while `kill` clears rows beside them (scripts/kill.ts).
 */
module LockHolders {
  import opened Kill
  import opened KillSafety

  /** No lock has two live engines that believe they hold it. */
  ghost predicate OneHolder(s: State) {
    forall i, j, n :: i in s.live && j in s.live && (i, n) in s.believes && (j, n) in s.believes ==> i == j
  }

  /** `acquire`, `heartbeat` and `release` tell engines apart by number alone, on whatever machine. */
  predicate DistinctNumbers(c: Config) {
    forall p, q | p in c.startable && q in c.startable && CanRun(c, p) && CanRun(c, q) && p.pid == q.pid :: p == q
  }

  predicate AtMostOneRuns(c: Config) {
    forall p, q | p in c.startable && q in c.startable && CanRun(c, p) && CanRun(c, q) :: p == q
  }

  /** Every process started can run, and no two live ones are the same. */
  ghost predicate Distinguished(c: Config, s: State) {
    && (forall k :: k in s.live ==> k < |s.started|)
    && (forall k :: 0 <= k < |s.started| ==> CanRun(c, s.started[k]))
    && (forall i, j :: i in s.live && j in s.live && s.started[i] == s.started[j] ==> i == j)
  }

  lemma StepKeepsDistinguished(c: Config, s: State, step: Step)
    requires Distinguished(c, s) && Enabled(c, s, step)
    ensures Distinguished(c, Apply(c, s, step))
  {
  }

  lemma {:induction false} DistinguishedRun(c: Config, steps: seq<Step>, states: seq<State>, n: nat)
    requires Run(c, steps, states) && n <= |steps|
    ensures Distinguished(c, states[n])
  {
    if n == 0 {
    } else {
      DistinguishedRun(c, steps, states, n - 1);
      assert Enabled(c, states[n - 1], steps[n - 1]) && states[n - 1 + 1] == Apply(c, states[n - 1], steps[n - 1]);
      StepKeepsDistinguished(c, states[n - 1], steps[n - 1]);
    }
  }

  /** A live engine that believes it holds a lock owns the row. */
  ghost predicate HoldersOwn(s: State) {
    forall k, n :: k in s.live && (k, n) in s.believes ==> n in s.rows && s.rows[n].owner == k
  }

  ghost predicate BelieversStarted(s: State) {
    forall k, n :: (k, n) in s.believes ==> k < |s.started|
  }

  /** With distinct numbers another live engine's row carries another number. */
  lemma OthersCarryOtherNumbers(c: Config, s: State, k: nat, name: LockName)
    requires DistinctNumbers(c) && Distinguished(c, s) && Signed(c, s) && k in s.live
    requires HeldByOther(s, k, name)
    ensures s.rows[name].pid != s.started[k].pid
  {
    assert Wrote(c, s, s.rows[name]);
  }

  // ---- how long a row holds others off ----

  /** A heartbeat holds an engine with another number off for exactly the stale time. */
  lemma HeartbeatHoldsOff(c: Config, s: State, k: nat, name: LockName, ms: nat, j: nat)
    requires Enabled(c, s, Heartbeat(k, name)) && name in s.rows && s.rows[name].pid == s.started[k].pid
    requires Enabled(c, s, AcquireRead(j, name)) && s.started[j].pid != s.rows[name].pid
    ensures var later := Apply(c, Apply(c, s, Heartbeat(k, name)), Tick(ms));
            && Enabled(c, later, AcquireRead(j, name))
            && (j in Apply(c, later, AcquireRead(j, name)).asked <==> ms >= STALE_AFTER_MS)
  {
  }

  /** So does an acquire, counted from when it began. */
  lemma AcquireHoldsOff(c: Config, s: State, k: nat, ms: nat, j: nat)
    requires Enabled(c, s, AcquireWrite(k)) && Runs(s, j) && j !in s.asked && s.started[j].pid != s.started[k].pid
    ensures var name, began := s.asked[k].name, s.asked[k].at;
            var later := Apply(c, Apply(c, s, AcquireWrite(k)), Tick(ms));
            && Enabled(c, later, AcquireRead(j, name))
            && (j in Apply(c, later, AcquireRead(j, name)).asked <==> s.now + ms - began >= STALE_AFTER_MS)
  {
  }

  /** An engine's heartbeat and release leave the rows of other numbers alone, and release deletes its own. */
  lemma OwnNumberOnly(c: Config, s: State, k: nat, name: LockName)
    requires Enabled(c, s, Heartbeat(k, name))
    ensures var own := name in s.rows && s.rows[name].pid == s.started[k].pid;
            && (!own ==> Apply(c, s, Heartbeat(k, name)) == s && Apply(c, s, Release(k, name)).rows == s.rows)
            && (own ==> Apply(c, s, Release(k, name)).rows == s.rows - {name})
  {
  }

  // ---- what an engine remembers between its read and its write ----

  /** It is alive, and the row it found was not reason enough to refuse it. */
  ghost predicate AsksHonest(c: Config, s: State) {
    forall k :: k in s.asked ==>
      var ask := s.asked[k];
      && Runs(s, k)
      && (ask.found.Some? ==>
            && Wrote(c, s, ask.found.value)
            && (ask.at - ask.found.value.heartbeat >= STALE_AFTER_MS || ask.found.value.pid == s.started[k].pid))
  }

  lemma ReadIsHonest(c: Config, s: State, k: nat, name: LockName)
    requires Signed(c, s) && AsksHonest(c, s) && Runs(s, k) && k !in s.asked
    ensures AsksHonest(c, ReadRow(s, k, name))
  {
    if name in s.rows {
      assert Wrote(c, s, s.rows[name]);
    }
  }

  lemma NoNewAsks(c: Config, s: State, step: Step)
    requires AsksHonest(c, s) && Enabled(c, s, step) && !step.AcquireRead?
    ensures var s' := Apply(c, s, step);
            forall k :: k in s'.asked ==> k in s.asked && s'.asked[k] == s.asked[k] && Runs(s', k)
  {
  }

  lemma AsksStayHonest(c: Config, s: State, s': State)
    requires AsksHonest(c, s) && s.started <= s'.started
    requires forall k :: k in s'.asked ==> k in s.asked && s'.asked[k] == s.asked[k] && Runs(s', k)
    ensures AsksHonest(c, s')
  {
    StillWrote(c, s, s');
  }

  lemma StepKeepsAsksHonest(c: Config, s: State, step: Step)
    requires Honest(c, s) && AsksHonest(c, s) && Enabled(c, s, step)
    ensures AsksHonest(c, Apply(c, s, step))
  {
    if step.AcquireRead? {
      ReadIsHonest(c, s, step.k, step.name);
    } else {
      StartedGrows(c, s, step);
      NoNewAsks(c, s, step);
      AsksStayHonest(c, s, Apply(c, s, step));
    }
  }

  lemma {:induction false} AsksHonestRun(c: Config, steps: seq<Step>, states: seq<State>, n: nat)
    requires SafeConfig(c) && Run(c, steps, states) && n <= |steps|
    ensures AsksHonest(c, states[n])
  {
    if n == 0 {
    } else {
      AsksHonestRun(c, steps, states, n - 1);
      RunStep(c, steps, states, n - 1);
      SafeRun(c, steps, states, n - 1);
      StepKeepsAsksHonest(c, states[n - 1], steps[n - 1]);
    }
  }

  // ---- writes that overtake ----

  /** An engine writes over the row of another live engine. */
  ghost predicate Overtakes(s: State, step: Step) {
    step.AcquireWrite? && step.k in s.asked && HeldByOther(s, step.k, s.asked[step.k].name)
  }

  /** It had read that very row, and read it stale: the owner was silent too long and is alive. */
  ghost predicate ComesLate(s: State, step: Step) {
    && Overtakes(s, step)
    && var ask := s.asked[step.k];
    && ask.found.Some? && ask.found.value.owner == s.rows[ask.name].owner
    && ask.at - ask.found.value.heartbeat >= STALE_AFTER_MS
  }

  /** With distinct numbers an overtaking write is late, or another engine wrote since its read. */
  lemma OvertakesLateOrDisturbed(c: Config, s: State, step: Step)
    requires DistinctNumbers(c) && Distinguished(c, s) && Signed(c, s) && AsksHonest(c, s) && Enabled(c, s, step)
    ensures Overtakes(s, step) <==> ComesLate(s, step) || !Undisturbed(s, step)
  {
    if Overtakes(s, step) && Undisturbed(s, step) {
      var ask := s.asked[step.k];
      OthersCarryOtherNumbers(c, s, step.k, ask.name);
      assert Wrote(c, s, s.rows[ask.name]) && Wrote(c, s, ask.found.value);
    }
  }

  // ---- holders own their rows as long as no write overtakes ----

  lemma WriteKeepsHolders(c: Config, s: State, k: nat)
    requires HoldersOwn(s) && Runs(s, k) && k in s.asked && !HeldByOther(s, k, s.asked[k].name)
    ensures HoldersOwn(WriteRow(c, s, k))
  {
  }

  lemma ReleaseKeepsHolders(c: Config, s: State, k: nat, name: LockName)
    requires DistinctNumbers(c) && Distinguished(c, s) && Signed(c, s) && HoldersOwn(s) && k in s.live
    ensures HoldersOwn(ReleaseRow(s, k, name))
  {
    if HeldByOther(s, k, name) {
      OthersCarryOtherNumbers(c, s, k, name);
    }
  }

  lemma ClearKeepsHolders(s: State)
    requires HoldersOwn(s) && s.at < |s.locks| && !Clear(s).lostLive
    ensures HoldersOwn(Clear(s))
  {
  }

  lemma AdvanceKeepsHolders(c: Config, s: State, signalAllowed: bool)
    requires HoldersOwn(s) && !Advance(c, s, signalAllowed).lostLive
    ensures HoldersOwn(Advance(c, s, signalAllowed))
  {
    if s.at < |s.locks| && s.pc.ToDelete? {
      ClearKeepsHolders(s);
    }
  }

  lemma StepKeepsHolders(c: Config, s: State, step: Step)
    requires DistinctNumbers(c) && Distinguished(c, s) && Signed(c, s) && HoldersOwn(s) && BelieversStarted(s)
    requires Enabled(c, s, step) && !Overtakes(s, step) && !Apply(c, s, step).lostLive
    ensures HoldersOwn(Apply(c, s, step))
  {
    match step
    case AcquireWrite(k) => WriteKeepsHolders(c, s, k);
    case Release(k, name) => ReleaseKeepsHolders(c, s, k, name);
    case KillMove(signalAllowed) => AdvanceKeepsHolders(c, s, signalAllowed);
    case _ =>
  }

  lemma StepKeepsBelievers(c: Config, s: State, step: Step)
    requires BelieversStarted(s) && Enabled(c, s, step)
    ensures BelieversStarted(Apply(c, s, step))
  {
  }

  lemma NothingLostAt(c: Config, steps: seq<Step>, states: seq<State>, n: nat)
    requires SafeConfig(c) && Run(c, steps, states) && n <= |steps|
    ensures Signed(c, states[n]) && Distinguished(c, states[n]) && !states[n].lostLive
  {
    SafeRun(c, steps, states, n);
    DistinguishedRun(c, steps, states, n);
  }

  lemma {:induction false} HoldersOwnRun(c: Config, steps: seq<Step>, states: seq<State>, n: nat)
    requires SafeConfig(c) && DistinctNumbers(c) && Run(c, steps, states) && n <= |steps|
    requires forall i :: 0 <= i < n ==> !Overtakes(states[i], steps[i])
    ensures HoldersOwn(states[n]) && BelieversStarted(states[n])
  {
    if n == 0 {
    } else {
      HoldersOwnRun(c, steps, states, n - 1);
      RunStep(c, steps, states, n - 1);
      NothingLostAt(c, steps, states, n - 1);
      NothingLostAt(c, steps, states, n);
      StepKeepsHolders(c, states[n - 1], steps[n - 1]);
      StepKeepsBelievers(c, states[n - 1], steps[n - 1]);
    }
  }

  /** The owner of a row believes in it while it lives. */
  ghost predicate OwnersBelieve(s: State) {
    forall n :: OwnedByLive(s, n) ==> (s.rows[n].owner, n) in s.believes
  }

  lemma StepKeepsOwnersBelieve(c: Config, s: State, step: Step)
    requires Honest(c, s) && OwnersBelieve(s) && Enabled(c, s, step)
    ensures OwnersBelieve(Apply(c, s, step))
  {
    match step
    case Release(k, name) =>
      if name in s.rows {
        assert Wrote(c, s, s.rows[name]);
      }
    case KillMove(signalAllowed) => MoveKeepsOwnersBelieve(c, s, signalAllowed);
    case Start(p) =>
      forall n | n in s.rows ensures s.rows[n].owner < |s.started| {
        assert Wrote(c, s, s.rows[n]);
      }
    case _ =>
  }

  lemma MoveKeepsOwnersBelieve(c: Config, s: State, signalAllowed: bool)
    requires OwnersBelieve(s)
    ensures OwnersBelieve(Advance(c, s, signalAllowed))
  {
  }

  lemma {:induction false} OwnersBelieveRun(c: Config, steps: seq<Step>, states: seq<State>, n: nat)
    requires SafeConfig(c) && Run(c, steps, states) && n <= |steps|
    ensures OwnersBelieve(states[n])
  {
    if n == 0 {
    } else {
      OwnersBelieveRun(c, steps, states, n - 1);
      RunStep(c, steps, states, n - 1);
      SafeRun(c, steps, states, n - 1);
      StepKeepsOwnersBelieve(c, states[n - 1], steps[n - 1]);
    }
  }

  /** The engine overtaken still believes, and so does the one that overtook it. */
  lemma OvertakingMakesTwo(c: Config, s: State, step: Step)
    requires OwnersBelieve(s) && Enabled(c, s, step) && Overtakes(s, step)
    ensures !OneHolder(Apply(c, s, step))
  {
    var s', ask := Apply(c, s, step), s.asked[step.k];
    assert (s.rows[ask.name].owner, ask.name) in s'.believes && (step.k, ask.name) in s'.believes;
  }

  lemma OneHolderUnlessOvertaken(c: Config, steps: seq<Step>, states: seq<State>)
    requires SafeConfig(c) && DistinctNumbers(c) && Run(c, steps, states)
    ensures (forall i :: 0 <= i <= |steps| ==> OneHolder(states[i]))
       <==> (forall i :: 0 <= i < |steps| ==> !Overtakes(states[i], steps[i]))
  {
    if forall i :: 0 <= i < |steps| ==> !Overtakes(states[i], steps[i]) {
      forall i | 0 <= i <= |steps| ensures OneHolder(states[i]) {
        HoldersOwnRun(c, steps, states, i);
      }
    } else {
      var i :| 0 <= i < |steps| && Overtakes(states[i], steps[i]);
      OwnersBelieveRun(c, steps, states, i);
      RunStep(c, steps, states, i);
      OvertakingMakesTwo(c, states[i], steps[i]);
      assert !OneHolder(states[i + 1]);
    }
  }

  /**
   * In a safe configuration with distinct numbers, a run has at most one live holder of every
   * lock at every moment exactly when no engine is disturbed between its read and its write,
   * and none that had read another's stale row finds that engine still there when it writes.
   */
  lemma AtMostOneLiveHolder(c: Config, steps: seq<Step>, states: seq<State>)
    requires SafeConfig(c) && DistinctNumbers(c) && Run(c, steps, states)
    ensures (forall i :: 0 <= i <= |steps| ==> OneHolder(states[i]))
       <==> (forall i :: 0 <= i < |steps| ==> Undisturbed(states[i], steps[i]) && !ComesLate(states[i], steps[i]))
  {
    OneHolderUnlessOvertaken(c, steps, states);
    forall i | 0 <= i < |steps|
      ensures Overtakes(states[i], steps[i]) <==> ComesLate(states[i], steps[i]) || !Undisturbed(states[i], steps[i])
    {
      RunStep(c, steps, states, i);
      HonestAt(c, steps, states, i);
      OvertakesLateOrDisturbed(c, states[i], steps[i]);
    }
  }

  // ---- when all engines read in time ----

  /** What an engine found when it read is not the row of another engine that is alive now. */
  ghost predicate FoundNoneAlive(s: State) {
    forall k :: k in s.asked && s.asked[k].found.Some? ==>
      s.asked[k].found.value.owner !in s.live || s.asked[k].found.value.owner == k
  }

  lemma StepKeepsFoundNoneAlive(c: Config, s: State, step: Step)
    requires DistinctNumbers(c) && Distinguished(c, s) && Signed(c, s) && AsksHonest(c, s) && FoundNoneAlive(s)
    requires Enabled(c, s, step) && InTime(s, step)
    ensures FoundNoneAlive(Apply(c, s, step))
  {
    if step.AcquireRead? && HeldByOther(s, step.k, step.name) {
      OthersCarryOtherNumbers(c, s, step.k, step.name);
    }
  }

  lemma HonestAt(c: Config, steps: seq<Step>, states: seq<State>, n: nat)
    requires SafeConfig(c) && Run(c, steps, states) && n <= |steps|
    ensures Distinguished(c, states[n]) && Signed(c, states[n]) && AsksHonest(c, states[n])
  {
    NothingLostAt(c, steps, states, n);
    AsksHonestRun(c, steps, states, n);
  }

  lemma TimelyStep(c: Config, steps: seq<Step>, states: seq<State>, i: nat)
    requires RunUnder(c, Timely, steps, states) && i < |steps|
    ensures Run(c, steps, states) && Enabled(c, states[i], steps[i]) && InTime(states[i], steps[i])
    ensures states[i + 1] == Apply(c, states[i], steps[i])
  {
    assert Keeps(Timely, states[i], steps[i]);
  }

  lemma {:induction false} FoundNoneAliveRun(c: Config, steps: seq<Step>, states: seq<State>, n: nat)
    requires SafeConfig(c) && DistinctNumbers(c) && RunUnder(c, Timely, steps, states) && n <= |steps|
    ensures FoundNoneAlive(states[n])
  {
    if n == 0 {
    } else {
      FoundNoneAliveRun(c, steps, states, n - 1);
      TimelyStep(c, steps, states, n - 1);
      HonestAt(c, steps, states, n - 1);
      StepKeepsFoundNoneAlive(c, states[n - 1], steps[n - 1]);
    }
  }

  /** If every engine reads in time, none comes late. */
  lemma InTimeIsNeverLate(c: Config, steps: seq<Step>, states: seq<State>, i: nat)
    requires SafeConfig(c) && DistinctNumbers(c) && RunUnder(c, Timely, steps, states) && i < |steps|
    ensures !ComesLate(states[i], steps[i])
  {
    FoundNoneAliveRun(c, steps, states, i);
  }

  lemma OrderlyRunsHaveOneHolder(c: Config, s: State)
    requires SafeConfig(c) && DistinctNumbers(c) && ReachableUnder(c, Orderly, s)
    ensures OneHolder(s)
  {
    var steps, states :| RunUnder(c, Orderly, steps, states) && states[|steps|] == s;
    assert forall i :: 0 <= i < |steps| ==> Keeps(Orderly, states[i], steps[i]);
    assert RunUnder(c, Timely, steps, states);
    forall i | 0 <= i < |steps| ensures Undisturbed(states[i], steps[i]) && !ComesLate(states[i], steps[i]) {
      InTimeIsNeverLate(c, steps, states, i);
    }
    AtMostOneLiveHolder(c, steps, states);
  }

  lemma OneRunsOneHolds(c: Config, s: State)
    requires AtMostOneRuns(c) && Reachable(c, s)
    ensures OneHolder(s)
  {
    var steps, states :| Run(c, steps, states) && states[|steps|] == s;
    DistinguishedRun(c, steps, states, |steps|);
    forall i, j | i in s.live && j in s.live ensures i == j {
      assert CanRun(c, s.started[i]) && CanRun(c, s.started[j]);
    }
  }

  // ---- the runs that end with two ----

  lemma BothStarted(c: Config, p: Process, q: Process) returns (s: State)
    requires CanRun(c, p) && CanRun(c, q) && p != q
    ensures ReachableUnder(c, Orderly, s) && s == Initial().(started := [p, q], live := {0, 1})
  {
    InitialReachable(c, Orderly);
    var s1 := Extend(c, Orderly, Initial(), Start(p));
    s := Extend(c, Orderly, s1, Start(q));
    assert s.started == [p, q] && s.live == {0, 1};
  }

  /** Two engines both read that there is no row, and then both write: `acquire` says yes to both at once. */
  lemma BothReadThenBothWrite(c: Config, p: Process, q: Process) returns (s: State)
    requires CanRun(c, p) && CanRun(c, q) && p != q
    ensures ReachableUnder(c, Timely, s) && s.pc == Idle && s.now == 0 && !OneHolder(s)
  {
    var s0 := BothStarted(c, p, q);
    StricterIsReachable(c, Timely, s0);
    var s1 := Extend(c, Timely, s0, AcquireRead(0, ENGINE));
    var s2 := Extend(c, Timely, s1, AcquireRead(1, ENGINE));
    var s3 := Extend(c, Timely, s2, AcquireWrite(0));
    s := Extend(c, Timely, s3, AcquireWrite(1));
    assert {(0, ENGINE), (1, ENGINE)} <= s.believes;
  }

  /** With no `kill` at all, an engine silent for the stale time is overtaken alive. */
  lemma SilentHolderIsOvertaken(c: Config, p: Process, q: Process) returns (s: State)
    requires CanRun(c, p) && CanRun(c, q) && p != q
    ensures Reachable(c, s) && s.pc == Idle && !OneHolder(s)
  {
    var s0 := BothStarted(c, p, q);
    var s1 := Acquires(c, s0, 0, ENGINE);
    var s2 := Extend(c, Orderly, s1, Tick(STALE_AFTER_MS));
    StricterIsReachable(c, Any, s2);
    var s3 := Extend(c, Any, s2, AcquireRead(1, ENGINE));
    s := Extend(c, Any, s3, AcquireWrite(1));
    UnderIsReachable(c, Any, s);
    assert {(0, ENGINE), (1, ENGINE)} <= s.believes;
  }

  /** Two engines of one number, on two machines, both hold a lock at once, one after the other and never late. */
  lemma SharedNumberMakesTwo(c: Config, p: Process, q: Process) returns (s: State)
    requires CanRun(c, p) && CanRun(c, q) && p != q && p.pid == q.pid
    ensures ReachableUnder(c, Orderly, s) && s.pc == Idle && !OneHolder(s)
  {
    var s0 := BothStarted(c, p, q);
    var s1 := Acquires(c, s0, 0, ENGINE);
    s := Acquires(c, s1, 1, ENGINE);
    assert {(0, ENGINE), (1, ENGINE)} <= s.believes;
  }

  /** After `kill` has deleted a live engine's row, any other process that can run takes the lock too. */
  lemma LostRowMakesTwo(c: Config, s: State, k: nat, q: Process) returns (next: State)
    requires ReachableUnder(c, Orderly, s) && Runs(s, k) && s.asked == map[]
    requires (k, ENGINE) in s.believes && ENGINE !in s.rows
    requires CanRun(c, q) && q !in s.started
    ensures ReachableUnder(c, Orderly, next) && !OneHolder(next)
  {
    var n := |s.started|;
    var s1 := Extend(c, Orderly, s, Start(q));
    next := Acquires(c, s1, n, ENGINE);
    assert {(k, ENGINE), (n, ENGINE)} <= next.believes && {k, n} <= next.live;
  }

  lemma UnsafeMakesTwo(c: Config) returns (s: State)
    requires !SafeConfig(c) && DistinctNumbers(c) && !AtMostOneRuns(c)
    ensures ReachableUnder(c, Orderly, s) && !OneHolder(s)
  {
    var p :| p in c.startable && PassesHostCheck(c, p)
      && !(p.machine == c.here && p !in c.recyclable && forall q :: q in c.startable && q.pid == p.pid ==> q == p);
    assert CanRun(c, p);
    var other := AnotherRuns(c, p);
    if p.machine != c.here {
      var lost := SharedHostNameLosesLive(c, p);
      s := LostRowMakesTwo(c, lost, 0, other);
    } else {
      assert forall q :: q in c.startable && q.pid == p.pid ==> CanRun(c, q);
      var lost := ReusedNumberLosesLive(c, p, p);
      s := LostRowMakesTwo(c, lost, 1, other);
    }
  }

  lemma AnotherRuns(c: Config, p: Process) returns (other: Process)
    requires !AtMostOneRuns(c) && CanRun(c, p)
    ensures CanRun(c, other) && other != p
  {
    var x, y :| CanRun(c, x) && CanRun(c, y) && x != y;
    other := if x != p then x else y;
  }

  // ---- the exact conditions ----

  /**
   * Over every orderly interleaving no lock ever has two live holders exactly when only one
   * process can run at all, or `kill` is safe and no two processes that can run share a number.
   */
  lemma OneHolderExactlyWhen(c: Config)
    ensures (forall s :: ReachableUnder(c, Orderly, s) ==> OneHolder(s))
       <==> AtMostOneRuns(c) || (SafeConfig(c) && DistinctNumbers(c))
  {
    if AtMostOneRuns(c) {
      forall s | ReachableUnder(c, Orderly, s) ensures OneHolder(s) {
        UnderIsReachable(c, Orderly, s);
        OneRunsOneHolds(c, s);
      }
    } else if SafeConfig(c) && DistinctNumbers(c) {
      forall s | ReachableUnder(c, Orderly, s) ensures OneHolder(s) {
        OrderlyRunsHaveOneHolder(c, s);
      }
    } else if DistinctNumbers(c) {
      var s := UnsafeMakesTwo(c);
    } else {
      var p, q :| CanRun(c, p) && CanRun(c, q) && p.pid == q.pid && p != q;
      var s := SharedNumberMakesTwo(c, p, q);
    }
  }

  /**
   * As soon as an engine may be disturbed between its read and its write, even if every engine
   * reads in time, it takes a configuration in which only one process can run.
   */
  lemma OneHolderTimelyExactlyWhen(c: Config)
    ensures (forall s :: ReachableUnder(c, Timely, s) ==> OneHolder(s)) <==> AtMostOneRuns(c)
  {
    if AtMostOneRuns(c) {
      forall s | ReachableUnder(c, Timely, s) ensures OneHolder(s) {
        UnderIsReachable(c, Timely, s);
        OneRunsOneHolds(c, s);
      }
    } else {
      var p, q :| CanRun(c, p) && CanRun(c, q) && p != q;
      var s := BothReadThenBothWrite(c, p, q);
    }
  }

  /** So it does over all interleavings. */
  lemma OneHolderAlwaysExactlyWhen(c: Config)
    ensures (forall s :: Reachable(c, s) ==> OneHolder(s)) <==> AtMostOneRuns(c)
  {
    if AtMostOneRuns(c) {
      forall s | Reachable(c, s) ensures OneHolder(s) {
        OneRunsOneHolds(c, s);
      }
    } else {
      var p, q :| CanRun(c, p) && CanRun(c, q) && p != q;
      var s := SilentHolderIsOvertaken(c, p, q);
    }
  }
}
