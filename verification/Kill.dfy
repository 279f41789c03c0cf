/**
 * `kill` stopping engines and clearing their locks while engines start, acquire,
 * heartbeat, release and exit on any machine that shares the lock table
 * (scripts/kill.ts, with the engines' side in packages/storage/src/db.ts).
 *
 * A step is atomic: one SQL statement, one signal, one liveness probe, or the start or exit of
 * an engine. `acquire` is two statements, a read and a write, and so two steps. Every
 * interleaving is a sequence of steps.
 */
module Kill {
  import opened Prelude

  type Machine = nat
  type LockName = string

  /** A lock name, for the runs that show what can go wrong. */
  const ENGINE := "engine"

  /** How long an engine's row stays fresh without a heartbeat. */
  const STALE_AFTER_MS := 30_000

  datatype Process = Process(machine: Machine, pid: int)

  /**
   * A row of the lock table. `owner` is not a column: it is the index of the process that
   * wrote the row, kept so that safety can be stated. No step of the program branches on it.
   */
  datatype Row = Row(pid: int, hostname: string, heartbeat: int, owner: nat)

  /** Where `kill` runs, how machines name themselves, and which processes can ever start. */
  datatype Config = Config(
    here: Machine,
    killPid: int,
    waitMs: nat,
    hostnames: Machine -> string,
    startable: set<Process>,
    recyclable: set<Process>
  )

  /** An `acquire` that read the lock's row, or none, at this time, was not refused, and has still to write. */
  datatype Ask = Ask(name: LockName, at: int, found: Option<Row>)

  datatype Pc = Idle | AtLock | ToSignal | Waiting(deadline: int) | FinalProbe | ToDelete | Finished

  datatype Lock = Lock(name: LockName, row: Row)

  datatype State = State(
    rows: map<LockName, Row>,
    started: seq<Process>,
    live: set<nat>,
    asked: map<nat, Ask>,
    believes: set<(nat, LockName)>,
    now: int,
    pc: Pc,
    locks: seq<Lock>,
    at: nat,
    cleared: seq<LockName>,
    stillHeld: seq<LockName>,
    lostLive: bool
  )

  datatype Step =
    | Start(p: Process)
    | Exit(k: nat)
    | AcquireRead(k: nat, name: LockName)
    | AcquireWrite(k: nat)
    | Heartbeat(k: nat, name: LockName)
    | Release(k: nat, name: LockName)
    | Tick(ms: nat)
    | KillBegin(order: seq<LockName>)
    | KillMove(signalAllowed: bool)

  function Initial(): State {
    State(map[], [], {}, map[], {}, 0, Idle, [], 0, [], [], false)
  }

  /** `pidAlive`: signal 0 reaches a process of this machine, or the number is our own. */
  ghost predicate PidAlive(c: Config, s: State, pid: int) {
    pid == c.killPid || exists k :: k in s.live && k < |s.started| && s.started[k] == Process(c.here, pid)
  }

  ghost predicate OwnedByLive(s: State, name: LockName) {
    name in s.rows && s.rows[name].owner in s.live
  }

  // ---- the engines ----

  /** The operating system gives a number to one live process at a time, and back only if it recycles. */
  ghost predicate CanStart(c: Config, s: State, p: Process) {
    && p in c.startable && p != Process(c.here, c.killPid)
    && (forall k :: k in s.live && k < |s.started| ==> s.started[k] != p)
    && (p in s.started ==> p in c.recyclable)
  }

  /** Refused only by a fresh row that carries another number. */
  ghost predicate Refused(s: State, k: nat, name: LockName)
    requires k < |s.started|
  {
    name in s.rows && s.now - s.rows[name].heartbeat < STALE_AFTER_MS && s.rows[name].pid != s.started[k].pid
  }

  function Lookup(rows: map<LockName, Row>, name: LockName): Option<Row> {
    if name in rows then Some(rows[name]) else None
  }

  /** The first statement of `acquire`: unless refused, the engine goes on to write with the time it started at. */
  ghost function ReadRow(s: State, k: nat, name: LockName): State
    requires k < |s.started|
  {
    if Refused(s, k, name) then s else s.(asked := s.asked[k := Ask(name, s.now, Lookup(s.rows, name))])
  }

  /** The second: an upsert that looks at nothing. */
  ghost function WriteRow(c: Config, s: State, k: nat): State
    requires k < |s.started| && k in s.asked
  {
    var p, ask := s.started[k], s.asked[k];
    s.(rows := s.rows[ask.name := Row(p.pid, c.hostnames(p.machine), ask.at, k)],
       asked := s.asked - {k},
       believes := s.believes + {(k, ask.name)})
  }

  ghost function HeartbeatRow(s: State, k: nat, name: LockName): State
    requires k < |s.started|
  {
    if name in s.rows && s.rows[name].pid == s.started[k].pid then
      s.(rows := s.rows[name := s.rows[name].(heartbeat := s.now)])
    else s
  }

  ghost function ReleaseRow(s: State, k: nat, name: LockName): State
    requires k < |s.started|
  {
    var gone := name in s.rows && s.rows[name].pid == s.started[k].pid;
    s.(rows := if gone then s.rows - {name} else s.rows,
       believes := s.believes - {(k, name)})
  }

  // ---- kill ----

  ghost function Begin(s: State, order: seq<LockName>): State
    requires forall n :: n in order ==> n in s.rows
  {
    s.(pc := AtLock, at := 0,
       locks := seq(|order|, i requires 0 <= i < |order| => Lock(order[i], s.rows[order[i]])))
  }

  function StillHeld(s: State): State
    requires s.at < |s.locks|
  {
    s.(pc := AtLock, at := s.at + 1, stillHeld := s.stillHeld + [s.locks[s.at].name])
  }

  /** DELETE ... WHERE lock_name = ? AND pid = ?, then on to the next lock. */
  ghost function Clear(s: State): State
    requires s.at < |s.locks|
  {
    var lock := s.locks[s.at];
    var gone := lock.name in s.rows && s.rows[lock.name].pid == lock.row.pid;
    s.(pc := AtLock, at := s.at + 1, cleared := s.cleared + [lock.name],
       rows := if gone then s.rows - {lock.name} else s.rows,
       lostLive := s.lostLive || (gone && OwnedByLive(s, lock.name)))
  }

  ghost function Advance(c: Config, s: State, signalAllowed: bool): State {
    if s.at >= |s.locks| then s.(pc := Finished)
    else
      var row := s.locks[s.at].row;
      var alive := PidAlive(c, s, row.pid);
      match s.pc
      case AtLock =>
        if row.hostname != c.hostnames(c.here) then StillHeld(s)
        else s.(pc := if alive then ToSignal else ToDelete)
      case ToSignal =>
        if alive && signalAllowed then s.(pc := Waiting(s.now + c.waitMs)) else StillHeld(s)
      case Waiting(deadline) => if s.now < deadline && alive then s else s.(pc := FinalProbe)
      case FinalProbe => if alive then StillHeld(s) else s.(pc := ToDelete)
      case ToDelete => Clear(s)
      case _ => s
  }

  predicate Runs(s: State, k: nat) {
    k in s.live && k < |s.started|
  }

  /** An engine's own statements follow one another: between its read and its write it does nothing else. */
  ghost predicate Enabled(c: Config, s: State, step: Step) {
    match step
    case Start(p) => CanStart(c, s, p)
    case Exit(k) => k in s.live
    case AcquireRead(k, _) => Runs(s, k) && k !in s.asked
    case AcquireWrite(k) => Runs(s, k) && k in s.asked
    case Heartbeat(k, _) => Runs(s, k) && k !in s.asked
    case Release(k, _) => Runs(s, k) && k !in s.asked
    case Tick(_) => true
    case KillBegin(order) => s.pc == Idle && multiset(order) == multiset(s.rows.Keys)
    case KillMove(_) => s.pc != Idle && s.pc != Finished
  }

  ghost function Apply(c: Config, s: State, step: Step): State
    requires Enabled(c, s, step)
  {
    match step
    case Start(p) => s.(started := s.started + [p], live := s.live + {|s.started|})
    case Exit(k) => s.(live := s.live - {k}, asked := s.asked - {k})
    case AcquireRead(k, name) => ReadRow(s, k, name)
    case AcquireWrite(k) => WriteRow(c, s, k)
    case Heartbeat(k, name) => HeartbeatRow(s, k, name)
    case Release(k, name) => ReleaseRow(s, k, name)
    case Tick(ms) => s.(now := s.now + ms)
    case KillBegin(order) =>
      assert forall n :: n in order ==> n in multiset(order);
      Begin(s, order)
    case KillMove(signalAllowed) => Advance(c, s, signalAllowed)
  }

  /** `states` is the run that `steps` produce from the empty table. */
  ghost predicate Run(c: Config, steps: seq<Step>, states: seq<State>) {
    && |states| == |steps| + 1
    && states[0] == Initial()
    && forall i :: 0 <= i < |steps| ==>
         Enabled(c, states[i], steps[i]) && states[i + 1] == Apply(c, states[i], steps[i])
  }

  lemma RunStep(c: Config, steps: seq<Step>, states: seq<State>, i: nat)
    requires Run(c, steps, states) && i < |steps|
    ensures Enabled(c, states[i], steps[i]) && states[i + 1] == Apply(c, states[i], steps[i])
  {
  }

  ghost predicate Reachable(c: Config, s: State) {
    exists steps, states :: Run(c, steps, states) && states[|steps|] == s
  }

  // ---- what may be asked of the engines' timing ----

  /** The row there is belongs to a live engine other than `k`. */
  ghost predicate HeldByOther(s: State, k: nat, name: LockName) {
    OwnedByLive(s, name) && s.rows[name].owner != k
  }

  /** An engine that reads another live engine's row reads it before it is stale. */
  ghost predicate InTime(s: State, step: Step) {
    step.AcquireRead? && HeldByOther(s, step.k, step.name) ==>
      s.now - s.rows[step.name].heartbeat < STALE_AFTER_MS
  }

  /** Between an engine's read and its write no other engine that still lives has written the lock. */
  ghost predicate Undisturbed(s: State, step: Step) {
    step.AcquireWrite? && step.k in s.asked ==>
      var ask := s.asked[step.k];
      HeldByOther(s, step.k, ask.name) ==> ask.found.Some? && ask.found.value.owner == s.rows[ask.name].owner
  }

  /** All runs, those in which engines read in time, and those in which moreover none is disturbed. */
  datatype Discipline = Any | Timely | Orderly

  ghost predicate Keeps(d: Discipline, s: State, step: Step) {
    (!d.Any? ==> InTime(s, step)) && (d.Orderly? ==> Undisturbed(s, step))
  }

  ghost predicate RunUnder(c: Config, d: Discipline, steps: seq<Step>, states: seq<State>) {
    Run(c, steps, states) && forall i :: 0 <= i < |steps| ==> Keeps(d, states[i], steps[i])
  }

  ghost predicate ReachableUnder(c: Config, d: Discipline, s: State) {
    exists steps, states :: RunUnder(c, d, steps, states) && states[|steps|] == s
  }

  lemma UnderIsReachable(c: Config, d: Discipline, s: State)
    requires ReachableUnder(c, d, s)
    ensures Reachable(c, s)
  {
    var steps, states :| RunUnder(c, d, steps, states) && states[|steps|] == s;
    assert Run(c, steps, states);
  }

  /** A stricter discipline leaves fewer runs. */
  lemma StricterIsReachable(c: Config, d: Discipline, s: State)
    requires ReachableUnder(c, Orderly, s)
    ensures ReachableUnder(c, d, s)
  {
    var steps, states :| RunUnder(c, Orderly, steps, states) && states[|steps|] == s;
    assert RunUnder(c, d, steps, states) by {
      forall i | 0 <= i < |steps| ensures Keeps(d, states[i], steps[i]) {
        assert Keeps(Orderly, states[i], steps[i]);
      }
    }
  }

  lemma Extend(c: Config, d: Discipline, s: State, step: Step) returns (next: State)
    requires ReachableUnder(c, d, s) && Enabled(c, s, step) && Keeps(d, s, step)
    ensures next == Apply(c, s, step) && ReachableUnder(c, d, next)
  {
    next := Apply(c, s, step);
    var steps, states :| RunUnder(c, d, steps, states) && states[|steps|] == s;
    assert RunUnder(c, d, steps + [step], states + [next]);
    assert (states + [next])[|steps + [step]|] == next;
  }
}
