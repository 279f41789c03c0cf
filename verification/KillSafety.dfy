/**
 * When `kill` is safe: over every interleaving it deletes no live engine's row exactly in the
 * configurations in which its host check and its compare-and-delete mean what they should
 * (scripts/kill.ts).
 */
module KillSafety {
  import opened Kill

  /** `p` writes the same host name as the machine `kill` runs on, so its rows pass the host check. */
  predicate PassesHostCheck(c: Config, p: Process) {
    c.hostnames(p.machine) == c.hostnames(c.here) && p.pid != c.killPid
  }

  /**
   * Each process whose rows pass the host check runs on this machine, its number is never
   * given out again here, and no other machine uses that number.
   */
  predicate SafeConfig(c: Config) {
    forall p | p in c.startable && PassesHostCheck(c, p) ::
      && p.machine == c.here
      && p !in c.recyclable
      && forall q | q in c.startable && q.pid == p.pid :: q == p
  }

  ghost predicate Wrote(c: Config, s: State, row: Row) {
    && row.owner < |s.started|
    && s.started[row.owner].pid == row.pid
    && c.hostnames(s.started[row.owner].machine) == row.hostname
  }

  /** Processes come from the configuration, and a number is used twice only if it is recycled. */
  ghost predicate Accountable(c: Config, s: State) {
    && (forall k :: k in s.live ==> k < |s.started|)
    && (forall k :: 0 <= k < |s.started| ==> s.started[k] in c.startable)
    && (forall i, j :: 0 <= i < j < |s.started| && s.started[i] == s.started[j] ==> s.started[i] in c.recyclable)
  }

  /** Rows, and the copies `kill` read, carry their writer's number and host name. */
  ghost predicate Signed(c: Config, s: State) {
    && (forall n :: n in s.rows ==> Wrote(c, s, s.rows[n]))
    && (forall i :: 0 <= i < |s.locks| ==> Wrote(c, s, s.locks[i].row))
  }

  ghost predicate Honest(c: Config, s: State) {
    Accountable(c, s) && Signed(c, s)
  }

  ghost predicate NumberIsDead(s: State, pid: int) {
    forall k :: k in s.live && k < |s.started| ==> s.started[k].pid != pid
  }

  /** Past the host check the lock is ours, and a delete is pending only for a number no live process carries. */
  ghost predicate CheckedSoFar(c: Config, s: State) {
    (s.pc.ToSignal? || s.pc.Waiting? || s.pc.FinalProbe? || s.pc.ToDelete?) && s.at < |s.locks| ==>
      var row := s.locks[s.at].row;
      && row.hostname == c.hostnames(c.here)
      && (s.pc.ToDelete? ==> row.pid != c.killPid && NumberIsDead(s, row.pid))
  }

  lemma StepKeepsAccountable(c: Config, s: State, step: Step)
    requires Accountable(c, s) && Enabled(c, s, step)
    ensures Accountable(c, Apply(c, s, step))
  {
  }

  lemma StillWrote(c: Config, s: State, s': State)
    requires s.started <= s'.started
    ensures forall row :: Wrote(c, s, row) ==> Wrote(c, s', row)
  {
  }

  lemma StartedGrows(c: Config, s: State, step: Step)
    requires Enabled(c, s, step)
    ensures s.started <= Apply(c, s, step).started
  {
  }

  /** Only the first move of `kill` changes the locks it has read, and what it reads are rows. */
  lemma LocksAreRowsRead(c: Config, s: State, step: Step)
    requires Enabled(c, s, step)
    ensures var locks := Apply(c, s, step).locks;
            if step.KillBegin?
            then forall i :: 0 <= i < |locks| ==> locks[i].name in s.rows && locks[i].row == s.rows[locks[i].name]
            else locks == s.locks
  {
    if step.KillBegin? {
      var locks := Apply(c, s, step).locks;
      forall i | 0 <= i < |locks| ensures locks[i].name in s.rows && locks[i].row == s.rows[locks[i].name] {
        assert step.order[i] in multiset(step.order);
      }
    }
  }

  /** A row after a step is one there was, perhaps with a new heartbeat, or the one just written. */
  lemma RowsComeFrom(c: Config, s: State, step: Step)
    requires Enabled(c, s, step)
    ensures var s' := Apply(c, s, step);
            forall n :: n in s'.rows ==>
              || (n in s.rows && s'.rows[n] == s.rows[n].(heartbeat := s'.rows[n].heartbeat))
              || (step.AcquireWrite? && Wrote(c, s, s'.rows[n]))
  {
  }

  lemma StepKeepsRowsSigned(c: Config, s: State, step: Step)
    requires Honest(c, s) && Enabled(c, s, step)
    ensures forall n :: n in Apply(c, s, step).rows ==> Wrote(c, Apply(c, s, step), Apply(c, s, step).rows[n])
  {
    var s' := Apply(c, s, step);
    StartedGrows(c, s, step);
    StillWrote(c, s, s');
    RowsComeFrom(c, s, step);
    forall n | n in s'.rows ensures Wrote(c, s', s'.rows[n]) {
      if n in s.rows {
        assert Wrote(c, s, s.rows[n]);
      }
    }
  }

  lemma StepKeepsLocksSigned(c: Config, s: State, step: Step)
    requires Honest(c, s) && Enabled(c, s, step)
    ensures forall i :: 0 <= i < |Apply(c, s, step).locks| ==>
      Wrote(c, Apply(c, s, step), Apply(c, s, step).locks[i].row)
  {
    var s' := Apply(c, s, step);
    StartedGrows(c, s, step);
    StillWrote(c, s, s');
    LocksAreRowsRead(c, s, step);
    forall i | 0 <= i < |s'.locks| ensures Wrote(c, s', s'.locks[i].row) {
      assert Wrote(c, s, s'.locks[i].row);
    }
  }

  /** A probe that finds the number dead here has found it dead everywhere. */
  lemma DeadHereIsDeadEverywhere(c: Config, s: State, row: Row)
    requires SafeConfig(c) && Honest(c, s) && Wrote(c, s, row)
    requires row.hostname == c.hostnames(c.here) && !PidAlive(c, s, row.pid)
    ensures NumberIsDead(s, row.pid)
  {
    var p := s.started[row.owner];
    assert PassesHostCheck(c, p);
    assert p.machine == c.here;
    assert forall q :: q in c.startable && q.pid == row.pid ==> q == p;
  }

  /** A dead number whose row passed the host check cannot come back. */
  lemma DeadStaysDead(c: Config, s: State, row: Row, p: Process)
    requires SafeConfig(c) && Honest(c, s) && Wrote(c, s, row)
    requires row.hostname == c.hostnames(c.here) && row.pid != c.killPid
    requires CanStart(c, s, p)
    ensures p.pid != row.pid
  {
    var owner := s.started[row.owner];
    assert PassesHostCheck(c, owner);
    assert owner in s.started;
  }

  lemma StepKeepsChecked(c: Config, s: State, step: Step)
    requires SafeConfig(c) && Honest(c, s) && CheckedSoFar(c, s) && Enabled(c, s, step)
    ensures CheckedSoFar(c, Apply(c, s, step))
  {
    var s' := Apply(c, s, step);
    if s'.pc.ToDelete? && s'.at < |s'.locks| {
      var row := s'.locks[s'.at].row;
      match step
      case KillMove(_) => DeadHereIsDeadEverywhere(c, s, row);
      case Start(p) => DeadStaysDead(c, s, row, p);
      case _ =>
    }
  }

  lemma StepLosesNothing(c: Config, s: State, step: Step)
    requires Honest(c, s) && CheckedSoFar(c, s) && Enabled(c, s, step) && !s.lostLive
    ensures !Apply(c, s, step).lostLive
  {
    if step.KillMove? && s.pc.ToDelete? && s.at < |s.locks| {
      var lock := s.locks[s.at];
      if lock.name in s.rows && s.rows[lock.name].pid == lock.row.pid {
        assert Wrote(c, s, s.rows[lock.name]);
      }
    }
  }

  lemma {:induction false} SafeRun(c: Config, steps: seq<Step>, states: seq<State>, n: nat)
    requires SafeConfig(c) && Run(c, steps, states) && n <= |steps|
    ensures Honest(c, states[n]) && CheckedSoFar(c, states[n]) && !states[n].lostLive
  {
    if n == 0 {
    } else {
      SafeRun(c, steps, states, n - 1);
      var before, step := states[n - 1], steps[n - 1];
      RunStep(c, steps, states, n - 1);
      StepKeepsAccountable(c, before, step);
      StepKeepsRowsSigned(c, before, step);
      StepKeepsLocksSigned(c, before, step);
      StepKeepsChecked(c, before, step);
      StepLosesNothing(c, before, step);
    }
  }

  // ---- and when it is not ----

  lemma InitialReachable(c: Config, d: Discipline)
    ensures ReachableUnder(c, d, Initial())
  {
    assert RunUnder(c, d, [], [Initial()]);
  }

  /** A process other than `kill` itself that can ever start. */
  predicate CanRun(c: Config, p: Process) {
    p in c.startable && p != Process(c.here, c.killPid)
  }

  /** An engine that is not refused reads and writes with nothing in between. */
  lemma Acquires(c: Config, s: State, k: nat, name: LockName) returns (next: State)
    requires ReachableUnder(c, Orderly, s) && Runs(s, k) && k !in s.asked
    requires !Refused(s, k, name) && InTime(s, AcquireRead(k, name))
    ensures ReachableUnder(c, Orderly, next)
    ensures var row := Row(s.started[k].pid, c.hostnames(s.started[k].machine), s.now, k);
            next == s.(rows := s.rows[name := row], believes := s.believes + {(k, name)})
  {
    var s1 := Extend(c, Orderly, s, AcquireRead(k, name));
    next := Extend(c, Orderly, s1, AcquireWrite(k));
    assert s1.asked - {k} == s.asked;
  }

  /** One engine `p` holds `name`, and `kill` has just read the table. */
  lemma ReadWhileHeld(c: Config, p: Process, name: LockName) returns (s: State)
    requires CanRun(c, p)
    ensures ReachableUnder(c, Orderly, s)
    ensures var row := Row(p.pid, c.hostnames(p.machine), 0, 0);
            s == Initial().(rows := map[name := row], started := [p], live := {0}, believes := {(0, name)},
                            pc := AtLock, locks := [Lock(name, row)])
  {
    InitialReachable(c, Orderly);
    var s1 := Extend(c, Orderly, Initial(), Start(p));
    var s2 := Acquires(c, s1, 0, name);
    assert s2.rows.Keys == {name};
    s := Extend(c, Orderly, s2, KillBegin([name]));
  }

  /** A machine that shares our host name: its live engine looks dead here and its row is deleted. */
  lemma SharedHostNameLosesLive(c: Config, p: Process) returns (s: State)
    requires p in c.startable && PassesHostCheck(c, p) && p.machine != c.here
    ensures ReachableUnder(c, Orderly, s) && s.lostLive
    ensures s.started == [p] && s.live == {0} && s.asked == map[]
    ensures s.believes == {(0, ENGINE)} && ENGINE !in s.rows
  {
    var s0 := ReadWhileHeld(c, p, ENGINE);
    var s1 := Extend(c, Orderly, s0, KillMove(true));
    assert s1.pc == ToDelete;
    s := Extend(c, Orderly, s1, KillMove(true));
  }

  /** The engine that held the lock has exited, and `kill` is about to delete its row. */
  lemma AboutToDelete(c: Config, p: Process) returns (s: State)
    requires p in c.startable && PassesHostCheck(c, p) && p.machine == c.here
    ensures ReachableUnder(c, Orderly, s)
    ensures var row := Row(p.pid, c.hostnames(p.machine), 0, 0);
            s == Initial().(rows := map[ENGINE := row], started := [p], live := {}, believes := {(0, ENGINE)},
                            pc := ToDelete, locks := [Lock(ENGINE, row)])
  {
    var s0 := ReadWhileHeld(c, p, ENGINE);
    var s1 := Extend(c, Orderly, s0, Exit(0));
    assert s1.asked == map[];
    s := Extend(c, Orderly, s1, KillMove(true));
  }

  /** A number that comes back between the probe and the delete, here or elsewhere: its new row is deleted. */
  lemma ReusedNumberLosesLive(c: Config, p: Process, q: Process) returns (s: State)
    requires p in c.startable && PassesHostCheck(c, p) && p.machine == c.here
    requires q in c.startable && q.pid == p.pid && (q == p ==> p in c.recyclable)
    ensures ReachableUnder(c, Orderly, s) && s.lostLive
    ensures s.started == [p, q] && s.live == {1} && s.asked == map[]
    ensures (1, ENGINE) in s.believes && ENGINE !in s.rows
  {
    var s4 := ReturnsAndAcquires(c, p, q);
    s := Extend(c, Orderly, s4, KillMove(true));
  }

  lemma ReturnsAndAcquires(c: Config, p: Process, q: Process) returns (s: State)
    requires p in c.startable && PassesHostCheck(c, p) && p.machine == c.here
    requires q in c.startable && q.pid == p.pid && (q == p ==> p in c.recyclable)
    ensures ReachableUnder(c, Orderly, s)
    ensures var host := c.hostnames(p.machine);
            s == Initial().(rows := map[ENGINE := Row(p.pid, c.hostnames(q.machine), 0, 1)],
                            started := [p, q], live := {1}, believes := {(0, ENGINE), (1, ENGINE)},
                            pc := ToDelete, locks := [Lock(ENGINE, Row(p.pid, host, 0, 0))])
  {
    var s2 := AboutToDelete(c, p);
    var s3 := Extend(c, Orderly, s2, Start(q));
    assert s3.started == [p, q] && s3.live == {1};
    s := Acquires(c, s3, 1, ENGINE);
    assert s.rows == map[ENGINE := Row(p.pid, c.hostnames(q.machine), 0, 1)];
  }

  /** Each way a configuration can be unsafe ends in the loss of a live row. */
  lemma UnsafeLosesLive(c: Config) returns (s: State)
    requires !SafeConfig(c)
    ensures ReachableUnder(c, Orderly, s) && s.lostLive
  {
    var p :| p in c.startable && PassesHostCheck(c, p)
      && !(p.machine == c.here && p !in c.recyclable && forall q :: q in c.startable && q.pid == p.pid ==> q == p);
    if p.machine != c.here {
      s := SharedHostNameLosesLive(c, p);
    } else {
      var q :| q in c.startable && q.pid == p.pid && (q == p ==> p in c.recyclable);
      s := ReusedNumberLosesLive(c, p, q);
    }
  }

  /**
   * Over every interleaving, `kill` never deletes the row of a live engine exactly when the
   * configuration is safe: what the host check and the compare-and-delete need, no more.
   */
  lemma KillIsSafeExactlyWhen(c: Config)
    ensures SafeConfig(c) <==> forall s :: Reachable(c, s) ==> !s.lostLive
  {
    if SafeConfig(c) {
      forall s | Reachable(c, s) ensures !s.lostLive {
        var steps, states :| Run(c, steps, states) && states[|steps|] == s;
        SafeRun(c, steps, states, |steps|);
      }
    } else {
      var s := UnsafeLosesLive(c);
      UnderIsReachable(c, Orderly, s);
    }
  }
}
