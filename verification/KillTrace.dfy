/**
 * Which locks `kill` clears and which it leaves: told from the host names, the probes and the
 * signal of a run, not from how the program gets from one to the next (scripts/kill.ts).
 */
module KillTrace {
  import opened Prelude
  import opened Kill
  import opened KillOutcome

  // ---- what a run shows of one lock ----

  /** What `kill` learns at one move about the lock it is at. */
  datatype Sight = FoundAlive | FoundDead | SignalSent | SignalFailed | AliveAfterWait | GoneAfterWait

  /** The row read carries another machine's host name. */
  predicate Foreign(c: Config, lock: Lock) {
    lock.row.hostname != c.hostnames(c.here)
  }

  /** The first probe, the signal and the probe after the wait, each with what is alive at that moment. */
  ghost function Seen(c: Config, s: State, step: Step): set<Sight> {
    if !step.KillMove? || s.at >= |s.locks| || Foreign(c, s.locks[s.at]) then {}
    else
      var alive := PidAlive(c, s, s.locks[s.at].row.pid);
      match s.pc
      case AtLock => {if alive then FoundAlive else FoundDead}
      case ToSignal => {if alive && step.signalAllowed then SignalSent else SignalFailed}
      case FinalProbe => {if alive then AliveAfterWait else GoneAfterWait}
      case _ => {}
  }

  /** Everything the first `n` steps show of lock `i`. */
  ghost function SightsOf(c: Config, steps: seq<Step>, states: seq<State>, n: nat, i: nat): set<Sight>
    requires Run(c, steps, states) && n <= |steps|
  {
    if n == 0 then {}
    else
      SightsOf(c, steps, states, n - 1, i)
      + (if states[n - 1].at == i then Seen(c, states[n - 1], steps[n - 1]) else {})
  }

  lemma SightsNext(c: Config, steps: seq<Step>, states: seq<State>, n: nat, i: nat)
    requires Run(c, steps, states) && n < |steps|
    ensures SightsOf(c, steps, states, n + 1, i)
         == SightsOf(c, steps, states, n, i) + (if states[n].at == i then Seen(c, states[n], steps[n]) else {})
  {
  }

  /** The lock must stay: another host's, not to be signalled, or alive after the wait. */
  predicate MustStay(c: Config, lock: Lock, sights: set<Sight>) {
    Foreign(c, lock) || SignalFailed in sights || AliveAfterWait in sights
  }

  /** The five courses one lock can take. */
  predicate Complete(c: Config, lock: Lock, sights: set<Sight>) {
    if Foreign(c, lock) then sights == {}
    else
      || sights == {FoundDead} || sights == {FoundAlive, SignalFailed}
      || sights == {FoundAlive, SignalSent, AliveAfterWait} || sights == {FoundAlive, SignalSent, GoneAfterWait}
  }

  // ---- one step ----

  /** What has been seen of the lock `kill` is at, by where it is. */
  ghost predicate Place(c: Config, s: State, sights: set<Sight>)
    requires s.at < |s.locks|
  {
    && (s.pc != AtLock ==> !Foreign(c, s.locks[s.at]))
    && match s.pc
       case AtLock => sights == {}
       case ToSignal => sights == {FoundAlive}
       case Waiting(_) => sights == {FoundAlive, SignalSent}
       case FinalProbe => sights == {FoundAlive, SignalSent}
       case ToDelete => sights == {FoundDead} || sights == {FoundAlive, SignalSent, GoneAfterWait}
       case _ => false
  }

  /** A move stays at its lock, or leaves it behind on the list its sights demand. */
  lemma MoveFollowsSights(c: Config, s: State, signalAllowed: bool, sights: set<Sight>)
    requires s.at < |s.locks| && Place(c, s, sights)
    ensures var s' := Apply(c, s, KillMove(signalAllowed));
            var all, lock := sights + Seen(c, s, KillMove(signalAllowed)), s.locks[s.at];
            && s'.locks == s.locks
            && (s'.at == s.at ==> Place(c, s', all) && s'.cleared == s.cleared && s'.stillHeld == s.stillHeld)
            && (s'.at != s.at ==>
                  && s'.at == s.at + 1 && s'.pc == AtLock && Complete(c, lock, all)
                  && (if MustStay(c, lock, all)
                      then s'.stillHeld == s.stillHeld + [lock.name] && s'.cleared == s.cleared
                      else s'.cleared == s.cleared + [lock.name] && s'.stillHeld == s.stillHeld))
  {
  }

  // ---- over a run ----

  predicate DistinctNames(locks: seq<Lock>) {
    forall i, j :: 0 <= i < j < |locks| ==> locks[i].name != locks[j].name
  }

  lemma {:induction false} TwiceIsTwo(locks: seq<Lock>, n: nat, i: nat, j: nat)
    requires i < j < n <= |locks| && locks[i].name == locks[j].name
    ensures Names(locks, n)[locks[i].name] >= 2
  {
    if j == n - 1 {
      ReadOnce(locks, n - 1, i);
    } else {
      TwiceIsTwo(locks, n - 1, i, j);
    }
  }

  lemma ReadDistinctNames(s: State)
    requires Accounted(s)
    ensures DistinctNames(s.locks)
  {
    forall i, j | 0 <= i < j < |s.locks| ensures s.locks[i].name != s.locks[j].name {
      if s.locks[i].name == s.locks[j].name {
        TwiceIsTwo(s.locks, |s.locks|, i, j);
      }
    }
  }

  /** Lock `i` has taken one of the five courses and is on the list that belongs to it. */
  ghost predicate Settled(c: Config, s: State, i: nat, sights: set<Sight>)
    requires i < |s.locks|
  {
    var lock := s.locks[i];
    && Complete(c, lock, sights)
    && (lock.name in s.stillHeld <==> MustStay(c, lock, sights))
    && (lock.name in s.cleared <==> !MustStay(c, lock, sights))
  }

  /** What has been seen of every lock fits where `kill` is and what it has put on its lists. */
  ghost predicate Traced(c: Config, s: State, trace: seq<set<Sight>>) {
    && |trace| == |s.locks| && s.at <= |s.locks|
    && (s.pc != Idle && s.at < |s.locks| ==> Place(c, s, trace[s.at]))
    && (forall i :: s.at < i < |trace| ==> trace[i] == {})
    && (forall i :: 0 <= i < s.at ==> Settled(c, s, i, trace[i]))
    && (forall i :: s.at <= i < |s.locks| ==> !Listed(s, s.locks[i].name))
  }

  predicate Listed(s: State, name: LockName) {
    name in s.stillHeld || name in s.cleared
  }

  /** A lock settled before stays settled when another name is put on a list. */
  lemma SettledStays(c: Config, s: State, s': State, i: nat, sights: set<Sight>)
    requires i < |s.locks| && s'.locks == s.locks && Settled(c, s, i, sights)
    requires exists name ::
      && name != s.locks[i].name
      && (s'.stillHeld == s.stillHeld || s'.stillHeld == s.stillHeld + [name])
      && (s'.cleared == s.cleared || s'.cleared == s.cleared + [name])
    ensures Settled(c, s', i, sights)
  {
  }

  lemma MoveIsTraced(c: Config, s: State, signalAllowed: bool, trace: seq<set<Sight>>)
    requires Traced(c, s, trace) && DistinctNames(s.locks) && s.at < |s.locks| && s.pc != Idle
    requires Enabled(c, s, KillMove(signalAllowed))
    ensures var step := KillMove(signalAllowed);
            Traced(c, Apply(c, s, step), trace[s.at := trace[s.at] + Seen(c, s, step)])
  {
    var s' := Apply(c, s, KillMove(signalAllowed));
    MoveFollowsSights(c, s, signalAllowed, trace[s.at]);
    if s'.at != s.at {
      var name := s.locks[s.at].name;
      forall i | 0 <= i < s.at ensures Settled(c, s', i, trace[i]) {
        assert s.locks[i].name != name;
        SettledStays(c, s, s', i, trace[i]);
      }
      forall i | s.at < i < |s.locks| ensures !Listed(s', s.locks[i].name) {
        assert s.locks[i].name != name && !Listed(s, s.locks[i].name);
      }
      assert !Listed(s, name);
    }
  }

  ghost function TraceOf(c: Config, steps: seq<Step>, states: seq<State>, n: nat): seq<set<Sight>>
    requires Run(c, steps, states) && n <= |steps|
  {
    seq(|states[n].locks|, i requires 0 <= i => SightsOf(c, steps, states, n, i))
  }

  lemma {:induction false} IdleShowsNothing(c: Config, steps: seq<Step>, states: seq<State>, n: nat, i: nat)
    requires Run(c, steps, states) && n <= |steps| && states[n].pc == Idle
    ensures SightsOf(c, steps, states, n, i) == {}
  {
    if n == 0 {
    } else {
      AccountedRun(c, steps, states, n - 1);
      RunStep(c, steps, states, n - 1);
      StepCounts(c, states[n - 1], steps[n - 1]);
      IdleShowsNothing(c, steps, states, n - 1, i);
    }
  }

  /** How a step carries the trace on. */
  lemma TraceNext(c: Config, steps: seq<Step>, states: seq<State>, n: nat)
    requires Run(c, steps, states) && n < |steps| && !steps[n].KillBegin?
    ensures var s, trace := states[n], TraceOf(c, steps, states, n);
            TraceOf(c, steps, states, n + 1)
            == if steps[n].KillMove? && s.at < |trace| then trace[s.at := trace[s.at] + Seen(c, s, steps[n])]
               else trace
  {
    RunStep(c, steps, states, n);
    AccountedRun(c, steps, states, n);
    StepCounts(c, states[n], steps[n]);
    var s, trace, next := states[n], TraceOf(c, steps, states, n), TraceOf(c, steps, states, n + 1);
    var expected :=
      if steps[n].KillMove? && s.at < |trace| then trace[s.at := trace[s.at] + Seen(c, s, steps[n])] else trace;
    assert |next| == |expected|;
    forall i | 0 <= i < |next| ensures next[i] == expected[i] {
      SightsNext(c, steps, states, n, i);
    }
  }

  lemma TraceBegins(c: Config, steps: seq<Step>, states: seq<State>, n: nat)
    requires Run(c, steps, states) && n < |steps| && steps[n].KillBegin?
    ensures Traced(c, states[n + 1], TraceOf(c, steps, states, n + 1))
  {
    RunStep(c, steps, states, n);
    AccountedRun(c, steps, states, n);
    AccountedRun(c, steps, states, n + 1);
    var next := TraceOf(c, steps, states, n + 1);
    forall i | 0 <= i < |next| ensures next[i] == {} {
      SightsNext(c, steps, states, n, i);
      IdleShowsNothing(c, steps, states, n, i);
    }
  }

  lemma SameIsTraced(c: Config, s: State, s': State, trace: seq<set<Sight>>)
    requires Traced(c, s, trace) && s'.locks == s.locks && s'.at == s.at
    requires s'.cleared == s.cleared && s'.stillHeld == s.stillHeld
    requires s'.pc == s.pc || s.at == |s.locks|
    ensures Traced(c, s', trace)
  {
    forall i | 0 <= i < s.at ensures Settled(c, s', i, trace[i]) {
      assert Settled(c, s, i, trace[i]);
    }
    forall i | s.at <= i < |s.locks| ensures !Listed(s', s.locks[i].name) {
      assert !Listed(s, s.locks[i].name);
    }
  }

  lemma {:induction false} TracedRun(c: Config, steps: seq<Step>, states: seq<State>, n: nat)
    requires Run(c, steps, states) && n <= |steps|
    ensures Traced(c, states[n], TraceOf(c, steps, states, n))
  {
    if n == 0 {
    } else if steps[n - 1].KillBegin? {
      TraceBegins(c, steps, states, n - 1);
    } else {
      TracedRun(c, steps, states, n - 1);
      RunStep(c, steps, states, n - 1);
      TraceNext(c, steps, states, n - 1);
      StepIsTraced(c, states[n - 1], steps[n - 1], TraceOf(c, steps, states, n - 1), steps, states, n - 1);
    }
  }

  lemma StepIsTraced(c: Config, s: State, step: Step, trace: seq<set<Sight>>,
                     steps: seq<Step>, states: seq<State>, n: nat)
    requires Run(c, steps, states) && n <= |steps| && s == states[n]
    requires Enabled(c, s, step) && Traced(c, s, trace) && !step.KillBegin?
    ensures Traced(c, Apply(c, s, step),
                   if step.KillMove? && s.at < |trace| then trace[s.at := trace[s.at] + Seen(c, s, step)] else trace)
  {
    AccountedRun(c, steps, states, n);
    if step.KillMove? && s.at < |s.locks| {
      ReadDistinctNames(s);
      MoveIsTraced(c, s, step.signalAllowed, trace);
    } else {
      if !step.KillMove? {
        OthersLeaveKillAlone(c, s, step);
      }
      SameIsTraced(c, s, Apply(c, s, step), trace);
    }
  }

  /**
   * When `kill` has finished, a lock it read is reported as still held exactly when its row
   * carries another host name, or the signal failed, or its process was alive at the probe after
   * the wait; and is cleared exactly when its process was found dead, at once or after the wait.
   */
  lemma HeldOrClearedExactlyWhen(c: Config, steps: seq<Step>, states: seq<State>, n: nat, i: nat)
    requires Run(c, steps, states) && n <= |steps| && states[n].pc == Finished && i < |states[n].locks|
    ensures var lock, sights := states[n].locks[i], SightsOf(c, steps, states, n, i);
            && (lock.name in states[n].stillHeld
                <==> Foreign(c, lock) || SignalFailed in sights || AliveAfterWait in sights)
            && (lock.name in states[n].cleared
                <==> !Foreign(c, lock) && (FoundDead in sights || GoneAfterWait in sights))
            && Complete(c, lock, sights)
  {
    TracedRun(c, steps, states, n);
    AccountedRun(c, steps, states, n);
    assert Settled(c, states[n], i, TraceOf(c, steps, states, n)[i]);
  }

  // ---- the delete ----

  /** A move of `kill` changes the table only to delete the row it read, by its name and number. */
  lemma MoveDeletesOnly(c: Config, s: State, signalAllowed: bool)
    requires s.pc != Idle && s.pc != Finished
    ensures var s' := Apply(c, s, KillMove(signalAllowed));
            && (s'.cleared == s.cleared ==> s'.rows == s.rows)
            && (s'.cleared != s.cleared ==>
                  && s.at < |s.locks|
                  && var lock := s.locks[s.at];
                  && s'.cleared == s.cleared + [lock.name]
                  && (lock.name in s'.rows ==> s'.rows[lock.name].pid != lock.row.pid)
                  && forall n :: n in s.rows && (n != lock.name || s.rows[n].pid != lock.row.pid) ==>
                       n in s'.rows && s'.rows[n] == s.rows[n])
  {
  }

  /** A name new on the cleared list is that of a row that carries the number read no more. */
  lemma NewlyCleared(c: Config, s: State, step: Step, i: nat)
    requires Enabled(c, s, step) && Accounted(s) && i < |s.locks|
    requires s.locks[i].name !in s.cleared && s.locks[i].name in Apply(c, s, step).cleared
    ensures var rows, lock := Apply(c, s, step).rows, s.locks[i];
            lock.name in rows ==> rows[lock.name].pid != lock.row.pid
  {
    LocksStay(c, s, step);
    MoveDeletesOnly(c, s, step.signalAllowed);
    ReadDistinctNames(s);
  }

  /** There is a step right after which a cleared lock's row carries the number read no more. */
  lemma {:induction false} ClearedRowIsGone(c: Config, steps: seq<Step>, states: seq<State>, n: nat, i: nat)
    returns (m: nat)
    requires Run(c, steps, states) && n <= |steps| && i < |states[n].locks|
    requires states[n].locks[i].name in states[n].cleared
    ensures var lock := states[n].locks[i];
            && m < n && lock.name !in states[m].cleared && lock.name in states[m + 1].cleared
            && (lock.name in states[m + 1].rows ==> states[m + 1].rows[lock.name].pid != lock.row.pid)
    decreases n
  {
    assert n > 0;
    RunStep(c, steps, states, n - 1);
    AccountedRun(c, steps, states, n - 1);
    LocksStay(c, states[n - 1], steps[n - 1]);
    if states[n].locks[i].name in states[n - 1].cleared {
      m := ClearedRowIsGone(c, steps, states, n - 1, i);
    } else {
      m := n - 1;
      NewlyCleared(c, states[n - 1], steps[n - 1], i);
    }
  }

  lemma LocksStay(c: Config, s: State, step: Step)
    requires Enabled(c, s, step) && Accounted(s)
    ensures var s' := Apply(c, s, step);
            && (s'.cleared != [] ==> s'.locks == s.locks)
            && (!step.KillMove? ==> s'.cleared == s.cleared)
  {
    if step.KillMove? {
      if s.at < |s.locks| {
        MoveSettlesAtMostOne(c, s, step.signalAllowed);
      }
    } else if !step.KillBegin? {
      OthersLeaveKillAlone(c, s, step);
    }
  }

  // ---- the wait ----

  /** The signal for lock `i` went out at step `m`. */
  ghost predicate SignalledAt(c: Config, steps: seq<Step>, states: seq<State>, m: nat, i: nat)
    requires Run(c, steps, states) && m < |steps|
  {
    states[m].at == i && SignalSent in Seen(c, states[m], steps[m])
  }

  /** At a later look, at step `k`, the full wait was over or the process was gone. */
  ghost predicate WaitedAt(c: Config, steps: seq<Step>, states: seq<State>, m: nat, k: nat, i: nat)
    requires Run(c, steps, states) && m < |steps| && k < |steps| && i < |states[k].locks|
  {
    && m < k && SignalledAt(c, steps, states, m, i)
    && steps[k].KillMove? && states[k].at == i
    && (states[k].now >= states[m].now + c.waitMs || !PidAlive(c, states[k], states[k].locks[i].row.pid))
  }

  /** While it waits, the deadline is the full wait after the signal; past the wait, it has waited. */
  ghost predicate WaitKept(c: Config, steps: seq<Step>, states: seq<State>, n: nat)
    requires Run(c, steps, states) && n <= |steps|
  {
    var s := states[n];
    s.at < |s.locks| ==>
      && (s.pc.Waiting? ==> exists m ::
            0 <= m < n && SignalledAt(c, steps, states, m, s.at) && s.pc.deadline == states[m].now + c.waitMs)
      && (s.pc == FinalProbe ==> exists m, k ::
            0 <= m < k < n && s.at < |states[k].locks| && WaitedAt(c, steps, states, m, k, s.at))
  }

  lemma {:induction false} WaitKeptRun(c: Config, steps: seq<Step>, states: seq<State>, n: nat)
    requires Run(c, steps, states) && n <= |steps|
    ensures WaitKept(c, steps, states, n)
  {
    if n == 0 {
    } else {
      WaitKeptRun(c, steps, states, n - 1);
      TracedRun(c, steps, states, n - 1);
      WaitKeptStep(c, steps, states, n - 1);
    }
  }

  lemma WaitKeptStep(c: Config, steps: seq<Step>, states: seq<State>, n: nat)
    requires Run(c, steps, states) && n < |steps| && WaitKept(c, steps, states, n)
    requires Traced(c, states[n], TraceOf(c, steps, states, n))
    ensures WaitKept(c, steps, states, n + 1)
  {
    RunStep(c, steps, states, n);
    var s, s', step := states[n], states[n + 1], steps[n];
    if step.KillMove? && s.at < |s.locks| {
      MoveFollowsSights(c, s, step.signalAllowed, TraceOf(c, steps, states, n)[s.at]);
      if s.pc == ToSignal && s'.pc.Waiting? {
        assert SignalledAt(c, steps, states, n, s.at);
      } else if s.pc.Waiting? && s'.pc == FinalProbe {
        var m :| 0 <= m < n && SignalledAt(c, steps, states, m, s.at) && s.pc.deadline == states[m].now + c.waitMs;
        assert WaitedAt(c, steps, states, m, n, s.at);
      }
    } else if !step.KillMove? && !step.KillBegin? {
      OthersLeaveKillAlone(c, s, step);
    }
  }

  /** The probe after the wait comes only after the full wait since the signal, or after a look that found nobody. */
  lemma FinalProbeComesAfterWait(c: Config, steps: seq<Step>, states: seq<State>, n: nat)
    requires Run(c, steps, states) && n < |steps|
    requires AliveAfterWait in Seen(c, states[n], steps[n]) || GoneAfterWait in Seen(c, states[n], steps[n])
    ensures exists m, k ::
      0 <= m < k < n && states[n].at < |states[k].locks| && WaitedAt(c, steps, states, m, k, states[n].at)
  {
    WaitKeptRun(c, steps, states, n);
  }
}
