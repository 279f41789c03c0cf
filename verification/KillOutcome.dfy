/**
 * What a run of `kill` comes to: its bounded wait and its loop end, and every lock it read is
 * settled once (scripts/kill.ts).
 */
module KillOutcome {
  import opened Kill

  // ---- it comes to an end ----

  function Stage(pc: Pc): nat {
    match pc
    case AtLock => 5
    case ToSignal => 4
    case Waiting(_) => 3
    case FinalProbe => 2
    case ToDelete => 1
    case _ => 0
  }

  /** An upper bound on the moves `kill` has left, not counting polls of a wait. */
  function MovesLeft(s: State): int {
    if s.pc == Idle || s.pc == Finished then 0
    else if s.at >= |s.locks| then 1
    else 5 * (|s.locks| - s.at - 1) + Stage(s.pc) + 1
  }

  /**
   * Each move of `kill` brings it nearer its end, except polling a live process before the
   * deadline; and nobody else's step takes it further from it or moves the deadline.
   */
  lemma KillComesToAnEnd(c: Config, s: State, step: Step)
    requires Enabled(c, s, step) && !step.KillBegin? && s.at <= |s.locks|
    ensures 0 <= MovesLeft(Apply(c, s, step)) <= MovesLeft(s)
    ensures step.KillMove? ==>
      || MovesLeft(Apply(c, s, step)) < MovesLeft(s)
      || (&& s.pc.Waiting? && s.now < s.pc.deadline && s.at < |s.locks|
          && PidAlive(c, s, s.locks[s.at].row.pid) && Apply(c, s, step) == s)
    ensures !step.KillMove? ==> Apply(c, s, step).pc == s.pc
  {
  }

  /** Moves of `kill` among the first `n` steps of a run, other than polls of a wait that goes on. */
  ghost function MovesMade(c: Config, steps: seq<Step>, states: seq<State>, n: nat): nat
    requires Run(c, steps, states) && n <= |steps|
  {
    if n == 0 then 0
    else
      MovesMade(c, steps, states, n - 1)
      + (if steps[n - 1].KillMove? && states[n] != states[n - 1] then 1 else 0)
  }

  /** No run holds more moves of `kill` than five for each lock it read and one to finish. */
  lemma {:induction false} MovesAreBounded(c: Config, steps: seq<Step>, states: seq<State>, n: nat)
    requires Run(c, steps, states) && n <= |steps|
    ensures MovesMade(c, steps, states, n) + MovesLeft(states[n]) <= 5 * |states[n].locks| + 1
    ensures MovesMade(c, steps, states, n) <= 5 * |states[n].locks| + 1
    ensures states[n].pc == Idle ==> MovesMade(c, steps, states, n) == 0
  {
    if n == 0 {
    } else {
      MovesAreBounded(c, steps, states, n - 1);
      AccountedRun(c, steps, states, n - 1);
      RunStep(c, steps, states, n - 1);
      StepCounts(c, states[n - 1], steps[n - 1]);
    }
  }

  lemma StepCounts(c: Config, s: State, step: Step)
    requires Enabled(c, s, step) && s.at <= |s.locks|
    ensures var s' := Apply(c, s, step);
            && MovesLeft(s') >= 0
            && (step.KillBegin? ==> s.pc == Idle && s'.pc != Idle && MovesLeft(s') <= 5 * |s'.locks| + 1)
            && (!step.KillBegin? ==> s'.locks == s.locks && (s'.pc == Idle <==> s.pc == Idle))
            && (step.KillMove? ==> s.pc != Idle && MovesLeft(s') + (if s' != s then 1 else 0) <= MovesLeft(s))
            && (!step.KillMove? && !step.KillBegin? ==> MovesLeft(s') == MovesLeft(s))
  {
    if !step.KillBegin? {
      KillComesToAnEnd(c, s, step);
      if !step.KillMove? {
        OthersLeaveKillAlone(c, s, step);
      }
    }
  }

  /** Once its deadline has passed every further move counts, and after the last one there are none. */
  lemma OverdueKillMoves(c: Config, s: State, signalAllowed: bool)
    requires s.at <= |s.locks| && s.pc != Idle && (s.pc.Waiting? ==> s.pc.deadline <= s.now)
    ensures s.pc != Finished ==>
      Enabled(c, s, KillMove(signalAllowed)) && MovesLeft(Advance(c, s, signalAllowed)) < MovesLeft(s)
    ensures s.pc == Finished ==> MovesLeft(s) == 0 && !Enabled(c, s, KillMove(signalAllowed))
  {
    if s.pc != Finished {
      KillComesToAnEnd(c, s, KillMove(signalAllowed));
    }
  }

  // ---- every lock read is accounted for ----

  ghost function Names(locks: seq<Lock>, n: nat): multiset<LockName>
    requires n <= |locks|
  {
    if n == 0 then multiset{} else Names(locks, n - 1) + multiset{locks[n - 1].name}
  }

  /** Nothing is read twice, and what was handled so far was either cleared or left in place. */
  ghost predicate Accounted(s: State) {
    && s.at <= |s.locks|
    && multiset(s.cleared) + multiset(s.stillHeld) == Names(s.locks, s.at)
    && (forall n :: Names(s.locks, |s.locks|)[n] <= 1)
    && (s.pc == Idle ==> s.locks == [] && s.at == 0 && s.cleared == [] && s.stillHeld == [])
    && (s.pc == Finished ==> s.at == |s.locks|)
  }

  lemma {:induction false} NamesOfOrder(order: seq<LockName>, locks: seq<Lock>, n: nat)
    requires n <= |order| == |locks| && forall i :: 0 <= i < |order| ==> locks[i].name == order[i]
    ensures Names(locks, n) == multiset(order[..n])
  {
    if n == 0 {
    } else {
      NamesOfOrder(order, locks, n - 1);
      assert order[..n] == order[..n - 1] + [order[n - 1]];
    }
  }

  lemma AddsOne(a: seq<LockName>, b: seq<LockName>, name: LockName)
    ensures multiset(a + [name]) + multiset(b) == multiset(a) + multiset(b) + multiset{name}
    ensures multiset(a) + multiset(b + [name]) == multiset(a) + multiset(b) + multiset{name}
  {
  }

  /** One move of `kill` settles nothing, or settles the current lock in exactly one way. */
  ghost predicate SettlesAtMostOne(s: State, s': State)
    requires s.at < |s.locks|
  {
    var name := s.locks[s.at].name;
    && s'.locks == s.locks && s'.pc != Idle && s'.pc != Finished
    && ((s'.at == s.at && s'.cleared == s.cleared && s'.stillHeld == s.stillHeld)
        || (s'.at == s.at + 1 && s'.cleared == s.cleared + [name] && s'.stillHeld == s.stillHeld)
        || (s'.at == s.at + 1 && s'.cleared == s.cleared && s'.stillHeld == s.stillHeld + [name]))
  }

  lemma MoveSettlesAtMostOne(c: Config, s: State, signalAllowed: bool)
    requires s.at < |s.locks| && s.pc != Idle && s.pc != Finished
    ensures SettlesAtMostOne(s, Advance(c, s, signalAllowed))
  {
  }

  lemma SettlingKeepsAccounted(s: State, s': State)
    requires Accounted(s) && s.at < |s.locks| && SettlesAtMostOne(s, s')
    ensures Accounted(s')
  {
    AddsOne(s.cleared, s.stillHeld, s.locks[s.at].name);
  }

  lemma MoveKeepsAccounted(c: Config, s: State, signalAllowed: bool)
    requires Accounted(s) && s.pc != Idle && s.pc != Finished
    ensures Accounted(Advance(c, s, signalAllowed))
  {
    if s.at < |s.locks| {
      MoveSettlesAtMostOne(c, s, signalAllowed);
      SettlingKeepsAccounted(s, Advance(c, s, signalAllowed));
    }
  }

  /** The locks read are the rows there were, each once. */
  lemma BeginIsAccounted(s: State, order: seq<LockName>)
    requires Accounted(s) && s.pc == Idle && multiset(order) == multiset(s.rows.Keys)
    requires forall n :: n in order ==> n in s.rows
    ensures Accounted(Begin(s, order))
  {
    NamesOfOrder(order, Begin(s, order).locks, |order|);
    assert order[..|order|] == order;
  }

  /** No other step touches what `kill` has read or settled. */
  lemma OthersLeaveKillAlone(c: Config, s: State, step: Step)
    requires Enabled(c, s, step) && !step.KillMove? && !step.KillBegin?
    ensures var s' := Apply(c, s, step);
            && s'.pc == s.pc && s'.locks == s.locks && s'.at == s.at
            && s'.cleared == s.cleared && s'.stillHeld == s.stillHeld
  {
  }

  lemma StepKeepsAccounted(c: Config, s: State, step: Step)
    requires Accounted(s) && Enabled(c, s, step)
    ensures Accounted(Apply(c, s, step))
  {
    match step
    case KillMove(signalAllowed) => MoveKeepsAccounted(c, s, signalAllowed);
    case KillBegin(order) =>
      assert forall l :: l in order ==> l in multiset(order);
      BeginIsAccounted(s, order);
    case _ =>
      OthersLeaveKillAlone(c, s, step);
      SameForKill(s, Apply(c, s, step));
  }

  lemma SameForKill(s: State, s': State)
    requires Accounted(s) && s'.pc == s.pc && s'.locks == s.locks && s'.at == s.at
    requires s'.cleared == s.cleared && s'.stillHeld == s.stillHeld
    ensures Accounted(s')
  {
  }

  lemma {:induction false} AccountedRun(c: Config, steps: seq<Step>, states: seq<State>, n: nat)
    requires Run(c, steps, states) && n <= |steps|
    ensures Accounted(states[n])
  {
    if n == 0 {
    } else {
      AccountedRun(c, steps, states, n - 1);
      RunStep(c, steps, states, n - 1);
      StepKeepsAccounted(c, states[n - 1], steps[n - 1]);
    }
  }

  lemma {:induction false} ReadOnce(locks: seq<Lock>, n: nat, i: nat)
    requires i < n <= |locks|
    ensures locks[i].name in Names(locks, n)
  {
    if i == n - 1 {
    } else {
      ReadOnce(locks, n - 1, i);
    }
  }

  /** When `kill` finishes, each lock it read was either cleared or reported as still held, never both. */
  lemma ClearedOrStillHeld(c: Config, s: State, i: nat)
    requires Reachable(c, s) && s.pc == Finished && i < |s.locks|
    ensures multiset(s.cleared)[s.locks[i].name] + multiset(s.stillHeld)[s.locks[i].name] == 1
    ensures |s.cleared| + |s.stillHeld| == |s.locks|
  {
    var steps, states :| Run(c, steps, states) && states[|steps|] == s;
    AccountedRun(c, steps, states, |steps|);
    ReadOnce(s.locks, |s.locks|, i);
    CountNames(s.locks, |s.locks|);
    assert |multiset(s.cleared) + multiset(s.stillHeld)| == |s.cleared| + |s.stillHeld|;
  }

  lemma {:induction false} CountNames(locks: seq<Lock>, n: nat)
    requires n <= |locks|
    ensures |Names(locks, n)| == n
  {
    if n == 0 {
    } else {
      CountNames(locks, n - 1);
    }
  }
}
