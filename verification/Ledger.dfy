/**
 * The evidence ledger: freezing contracts, demoting and invalidating contexts, collecting
 * trajectories, and the report join that reads only live contexts
 * (scripts/contract-freeze.ts, scripts/evidence-invalidate-old.ts,
 * scripts/development-robustness.ts, apps/collector/src/trajectory-collect.ts).
 */
module Ledger {
  import opened Prelude

  const PRE_REPAIR_CONTEXT := "5d24e-pre-repair"
  const PRE_REPAIR_COMMIT := "8f73cef2a1a87fb0019cab8c4bd5725e2a60114f"

  datatype Validity = DevelopmentEvidence | InstrumentDevelopmentInvalid

  datatype Context = Context(
    sourceCommit: string,
    treeDirty: bool,
    openedUtcMs: int,
    closedUtcMs: Option<int>,
    validity: Validity,
    reasons: seq<string>,
    auditHash: Option<string>
  )

  /** What the contract hash covers; `terms` stands for everything fixed by the code at the commit. */
  datatype Body = Body(sourceCommit: string, windowId: string, cohort: string, notional: string, terms: string)

  datatype Contract = Contract(contextId: string, frozenUtcMs: int, windowId: string, body: Body)

  datatype Trajectory = Trajectory(mint: string, utcDay: string, openedUtcMs: int, executionCost: Option<int>,
                                   blocked: bool)

  datatype Decision = Decision(trajectoryId: string, entryPolicy: string, enter: bool)

  datatype Outcome = Outcome(trajectoryId: string, exitPolicy: string, grossDelta: Option<int>,
                             entryCashOut: Option<int>)

  datatype Tables = Tables(
    contexts: map<string, Context>,
    contracts: map<string, Contract>,
    assignment: map<string, string>,
    trajectories: map<string, Trajectory>,
    decisions: set<Decision>,
    outcomes: set<Outcome>
  )

  /** The first sixteen hex digits of the body's SHA-256. */
  type Digest = Body -> string

  function ContractId(digest: Digest, body: Body): string {
    "contract-" + digest(body)
  }

  function ContextId(commit: string, windowId: string): string {
    "ctx-" + (if |commit| < 12 then commit else commit[..12]) + "-" + windowId
  }

  // ---- which demotions are refused ----

  datatype Plan = Demotion(contextId: string, reasons: seq<string>) | Refusal(contextId: string, exitCode: int)

  function Option1(argv: seq<string>, prefix: string): string {
    if argv == [] then "" else if prefix <= argv[0] then argv[0][|prefix|..] else Option1(argv[1..], prefix)
  }

  function OptionAll(argv: seq<string>, prefix: string): seq<string> {
    if argv == [] then []
    else (if prefix <= argv[0] then [argv[0][|prefix|..]] else []) + OptionAll(argv[1..], prefix)
  }

  function NormalizeAll(raw: seq<string>, normalize: string -> Option<string>): Option<seq<string>> {
    if raw == [] then Some([])
    else
      var first, rest := normalize(raw[0]), NormalizeAll(raw[1..], normalize);
      if first.None? || rest.None? then None else Some([first.value] + rest.value)
  }

  /** `normalize` is the reason check: absent for a reason that explains nothing. */
  function PlanDemotion(argv: seq<string>, normalize: string -> Option<string>): Plan {
    var contextId, raw := Option1(argv, "--context="), OptionAll(argv, "--reason=");
    if raw == [] then Refusal(contextId, 2)
    else
      var accepted := NormalizeAll(raw, normalize);
      if accepted.None? then Refusal(contextId, 2) else Demotion(contextId, accepted.value)
  }

  /** A demotion is planned exactly when there is a reason and every one of them explains something. */
  lemma PlannedExactlyWhenExplained(argv: seq<string>, normalize: string -> Option<string>)
    ensures var raw := OptionAll(argv, "--reason=");
            PlanDemotion(argv, normalize).Demotion? <==>
              raw != [] && forall i :: 0 <= i < |raw| ==> normalize(raw[i]).Some?
  {
    NormalizedExactlyWhen(OptionAll(argv, "--reason="), normalize);
  }

  lemma {:induction false} NormalizedExactlyWhen(raw: seq<string>, normalize: string -> Option<string>)
    ensures NormalizeAll(raw, normalize).Some? <==> forall i :: 0 <= i < |raw| ==> normalize(raw[i]).Some?
  {
    if raw == [] {
    } else {
      NormalizedExactlyWhen(raw[1..], normalize);
    }
  }

  // ---- the commands, on the tables ----

  datatype Freeze = Freeze(body: Body, treeDirty: bool, instrumentDevelopment: bool, now: int, apply: bool)

  function InsertContext(t: Tables, id: string, c: Context): Tables {
    if id in t.contexts then t else t.(contexts := t.contexts[id := c])
  }

  function Frozen(t: Tables, f: Freeze, digest: Digest): Tables {
    if f.treeDirty && !f.instrumentDevelopment then t
    else if !f.apply then t
    else
      var contextId, id := ContextId(f.body.sourceCommit, f.body.windowId), ContractId(digest, f.body);
      var t1 := InsertContext(t, contextId,
                              Context(f.body.sourceCommit, f.treeDirty, f.now, None, DevelopmentEvidence, [], None));
      if id in t1.contracts then t1
      else t1.(contracts := t1.contracts[id := Contract(contextId, f.now, f.body.windowId, f.body)])
  }

  function Demoted(t: Tables, contextId: string, reasons: seq<string>, now: int, apply: bool): Tables {
    if contextId !in t.contexts || t.contexts[contextId].validity.InstrumentDevelopmentInvalid? || !apply then t
    else
      var c := t.contexts[contextId];
      t.(contexts := t.contexts[contextId :=
        c.(validity := InstrumentDevelopmentInvalid, reasons := c.reasons + reasons, closedUtcMs := Some(now))])
  }

  /** Every trajectory without a context is put in the pre-repair one. */
  function AssignRest(t: Tables): Tables {
    t.(assignment := map id | id in t.trajectories.Keys + t.assignment.Keys ::
         if id in t.assignment then t.assignment[id] else PRE_REPAIR_CONTEXT)
  }

  function Invalidated(t: Tables, holding: seq<string>, auditHash: Option<string>, openedAt: int, now: int,
                       apply: bool): Tables {
    if holding == [] || !apply then t
    else if PRE_REPAIR_CONTEXT in t.contexts then
      var c := t.contexts[PRE_REPAIR_CONTEXT];
      AssignRest(t.(contexts := t.contexts[PRE_REPAIR_CONTEXT := c.(reasons := holding, auditHash := auditHash)]))
    else
      AssignRest(t.(contexts := t.contexts[PRE_REPAIR_CONTEXT :=
        Context(PRE_REPAIR_COMMIT, true, openedAt, Some(now), InstrumentDevelopmentInvalid, holding, auditHash)]))
  }

  /**
   * The collector writes the trajectory, then its context unless it already has one; a missing
   * context refuses both.
   */
  function Opened(t: Tables, id: string, trajectory: Trajectory, contextId: string): Tables {
    if id in t.trajectories || contextId !in t.contexts then t
    else
      t.(trajectories := t.trajectories[id := trajectory],
         assignment := if id in t.assignment then t.assignment else t.assignment[id := contextId])
  }

  function Closed(t: Tables, contextId: string, reasons: seq<string>, now: int): Tables {
    if contextId !in t.contexts || t.contexts[contextId].closedUtcMs.Some? then t
    else
      var c := t.contexts[contextId];
      t.(contexts := t.contexts[contextId := c.(closedUtcMs := Some(now), reasons := c.reasons + reasons)])
  }

  datatype Command =
    | DoFreeze(freeze: Freeze)
    | DoDemote(contextId: string, reasons: seq<string>, now: int, apply: bool)
    | DoInvalidate(holding: seq<string>, auditHash: Option<string>, openedAt: int, now: int, apply: bool)
    | DoOpenContext(contextId: string, context: Context)
    | DoOpenTrajectory(trajectoryId: string, trajectory: Trajectory, contextId: string)
    | DoDecide(decision: Decision)
    | DoSettle(outcome: Outcome)
    | DoCloseWindow(contextId: string, reasons: seq<string>, now: int)

  function Exec(t: Tables, cmd: Command, digest: Digest): Tables {
    match cmd
    case DoFreeze(freeze) => Frozen(t, freeze, digest)
    case DoDemote(contextId, reasons, now, apply) => Demoted(t, contextId, reasons, now, apply)
    case DoInvalidate(holding, auditHash, openedAt, now, apply) =>
      Invalidated(t, holding, auditHash, openedAt, now, apply)
    case DoOpenContext(contextId, context) => InsertContext(t, contextId, context)
    case DoOpenTrajectory(id, trajectory, contextId) => Opened(t, id, trajectory, contextId)
    case DoDecide(decision) => t.(decisions := t.decisions + {decision})
    case DoSettle(outcome) => t.(outcomes := t.outcomes + {outcome})
    case DoCloseWindow(contextId, reasons, now) => Closed(t, contextId, reasons, now)
  }

  function ExecAll(t: Tables, cmds: seq<Command>, digest: Digest): Tables
    decreases |cmds|
  {
    if cmds == [] then t else ExecAll(Exec(t, cmds[0], digest), cmds[1..], digest)
  }

  // ---- the report ----

  datatype ReportRow = ReportRow(
    trajectoryId: string,
    entryPolicy: string,
    exitPolicy: string,
    mint: string,
    utcDay: string,
    grossDelta: int,
    entryCashOut: int,
    executionCost: Option<int>,
    blocked: bool
  )

  /** The trajectory is in a context whose validity is live. */
  predicate InLiveContext(t: Tables, id: string) {
    id in t.assignment && t.assignment[id] in t.contexts && t.contexts[t.assignment[id]].validity.DevelopmentEvidence?
  }

  predicate Joins(t: Tables, o: Outcome, d: Decision) {
    && d.trajectoryId == o.trajectoryId && d.enter
    && o.trajectoryId in t.trajectories && InLiveContext(t, o.trajectoryId)
    && o.grossDelta.Some? && o.entryCashOut.Some?
  }

  function Project(t: Tables, o: Outcome, d: Decision): ReportRow
    requires Joins(t, o, d)
  {
    var trajectory := t.trajectories[o.trajectoryId];
    ReportRow(o.trajectoryId, d.entryPolicy, o.exitPolicy, trajectory.mint, trajectory.utcDay,
              o.grossDelta.value, o.entryCashOut.value, trajectory.executionCost, trajectory.blocked)
  }

  /** The sample query, with the trajectory each row came from. */
  function Report(t: Tables): set<ReportRow> {
    set o, d | o in t.outcomes && d in t.decisions && Joins(t, o, d) :: Project(t, o, d)
  }

  // ---- the ledger only moves one way ----

  /** No context is lost or reopened under another commit, and none is revalidated. */
  ghost predicate ContextsForward(t: Tables, t': Tables) {
    forall id :: id in t.contexts ==>
      && id in t'.contexts
      && t'.contexts[id].sourceCommit == t.contexts[id].sourceCommit
      && t'.contexts[id].openedUtcMs == t.contexts[id].openedUtcMs
      && (t.contexts[id].validity.InstrumentDevelopmentInvalid? ==>
            t'.contexts[id].validity.InstrumentDevelopmentInvalid?)
  }

  /** No contract, trajectory, assignment, decision or outcome is lost or changed. */
  ghost predicate RowsForward(t: Tables, t': Tables) {
    && (forall id :: id in t.contracts ==> id in t'.contracts && t'.contracts[id] == t.contracts[id])
    && (forall id :: id in t.assignment ==> id in t'.assignment && t'.assignment[id] == t.assignment[id])
    && (forall id :: id in t.trajectories ==> id in t'.trajectories && t'.trajectories[id] == t.trajectories[id])
    && t.decisions <= t'.decisions && t.outcomes <= t'.outcomes
  }

  ghost predicate OnlyForward(t: Tables, t': Tables) {
    ContextsForward(t, t') && RowsForward(t, t')
  }

  lemma StepMovesContextsForward(t: Tables, cmd: Command, digest: Digest)
    ensures ContextsForward(t, Exec(t, cmd, digest))
  {
  }

  lemma StepMovesRowsForward(t: Tables, cmd: Command, digest: Digest)
    ensures RowsForward(t, Exec(t, cmd, digest))
  {
  }

  lemma {:induction false} RunsForward(t: Tables, cmds: seq<Command>, digest: Digest)
    ensures OnlyForward(t, ExecAll(t, cmds, digest))
    decreases |cmds|
  {
    if cmds == [] {
    } else {
      var t1 := Exec(t, cmds[0], digest);
      StepMovesContextsForward(t, cmds[0], digest);
      StepMovesRowsForward(t, cmds[0], digest);
      RunsForward(t1, cmds[1..], digest);
    }
  }

  /** Once a trajectory's context is invalid, no later report shows any of its rows. */
  lemma DemotedRowsNeverReturn(t: Tables, cmds: seq<Command>, digest: Digest, row: ReportRow)
    requires row.trajectoryId in t.assignment && t.assignment[row.trajectoryId] in t.contexts
    requires t.contexts[t.assignment[row.trajectoryId]].validity.InstrumentDevelopmentInvalid?
    ensures row !in Report(ExecAll(t, cmds, digest))
  {
    RunsForward(t, cmds, digest);
  }

  /** A reported row stays in every later report exactly as long as its own context stays live. */
  lemma RowStaysExactlyWhileLive(t: Tables, cmds: seq<Command>, digest: Digest, row: ReportRow)
    requires row in Report(t)
    ensures row in Report(ExecAll(t, cmds, digest)) <==> InLiveContext(ExecAll(t, cmds, digest), row.trajectoryId)
  {
    var t' := ExecAll(t, cmds, digest);
    RunsForward(t, cmds, digest);
    var o, d :| o in t.outcomes && d in t.decisions && Joins(t, o, d) && Project(t, o, d) == row;
    if InLiveContext(t', row.trajectoryId) {
      assert Joins(t', o, d) && Project(t', o, d) == row;
    }
  }

  /** A demotion invalidates exactly the context it names, and only when applied. */
  lemma DemotedExactlyWhen(t: Tables, contextId: string, reasons: seq<string>, now: int, apply: bool, id: string)
    requires id in t.contexts
    ensures var t' := Demoted(t, contextId, reasons, now, apply);
            && t'.contexts.Keys == t.contexts.Keys
            && (t'.contexts[id].validity.InstrumentDevelopmentInvalid?
                <==> t.contexts[id].validity.InstrumentDevelopmentInvalid? || (id == contextId && apply))
            && (id != contextId ==> t'.contexts[id] == t.contexts[id])
  {
    if id == contextId && apply && t.contexts[id].validity.DevelopmentEvidence? {
      assert Demoted(t, contextId, reasons, now, apply).contexts.Keys == t.contexts.Keys + {contextId};
    }
  }

  /** Reasons are only ever added, except to the pre-repair context, whose reasons are measured anew. */
  ghost predicate ReasonsForward(t: Tables, t': Tables) {
    forall id :: id in t.contexts && id != PRE_REPAIR_CONTEXT ==>
      id in t'.contexts && t.contexts[id].reasons <= t'.contexts[id].reasons
  }

  lemma StepKeepsReasons(t: Tables, cmd: Command, digest: Digest)
    ensures ReasonsForward(t, Exec(t, cmd, digest))
  {
  }

  lemma {:induction false} ReasonsOnlyGrow(t: Tables, cmds: seq<Command>, digest: Digest)
    ensures ReasonsForward(t, ExecAll(t, cmds, digest))
    decreases |cmds|
  {
    if cmds == [] {
    } else {
      StepKeepsReasons(t, cmds[0], digest);
      ReasonsOnlyGrow(Exec(t, cmds[0], digest), cmds[1..], digest);
    }
  }

  // ---- invalidating the old corpus ----

  /**
   * After the command applies, every trajectory has a context; a trajectory ends up in an
   * invalid one exactly when its own earlier context was, or it had none and the pre-repair
   * context is new or was invalid already.
   */
  lemma InvalidatedExactlyWhen(t: Tables, holding: seq<string>, auditHash: Option<string>, openedAt: int, now: int,
                               id: string)
    requires holding != [] && id in t.trajectories
    requires id in t.assignment ==> t.assignment[id] in t.contexts
    ensures var t' := Invalidated(t, holding, auditHash, openedAt, now, true);
            var c := if id in t.assignment then t.assignment[id] else PRE_REPAIR_CONTEXT;
            && id in t'.assignment && t'.assignment[id] == c && c in t'.contexts
            && (!InLiveContext(t', id) <==> (c !in t.contexts || t.contexts[c].validity.InstrumentDevelopmentInvalid?))
  {
  }

  /** So a trajectory already in a live context stays in the report. */
  lemma InvalidateLeavesLiveContexts(t: Tables, holding: seq<string>, auditHash: Option<string>, openedAt: int,
                                     now: int, row: ReportRow)
    requires holding != [] && row in Report(t)
    ensures row in Report(Invalidated(t, holding, auditHash, openedAt, now, true))
  {
    var t' := Invalidated(t, holding, auditHash, openedAt, now, true);
    var o, d :| o in t.outcomes && d in t.decisions && Joins(t, o, d) && Project(t, o, d) == row;
    assert Joins(t', o, d) && Project(t', o, d) == row;
  }

  // ---- freezing a contract ----

  ghost predicate Injective(digest: Digest) {
    forall a, b :: digest(a) == digest(b) ==> a == b
  }

  /** Every stored contract sits under its own body's id and names that body's window and context. */
  ghost predicate Addressed(t: Tables, digest: Digest) {
    forall id :: id in t.contracts ==>
      var k := t.contracts[id];
      && id == ContractId(digest, k.body)
      && k.windowId == k.body.windowId
      && k.contextId == ContextId(k.body.sourceCommit, k.body.windowId)
      && k.contextId in t.contexts
  }

  lemma StepKeepsAddressed(t: Tables, cmd: Command, digest: Digest)
    requires Addressed(t, digest)
    ensures Addressed(Exec(t, cmd, digest), digest)
  {
  }

  lemma {:induction false} RunKeepsAddressed(t: Tables, cmds: seq<Command>, digest: Digest)
    requires Addressed(t, digest)
    ensures Addressed(ExecAll(t, cmds, digest), digest)
    decreases |cmds|
  {
    if cmds == [] {
    } else {
      StepKeepsAddressed(t, cmds[0], digest);
      RunKeepsAddressed(Exec(t, cmds[0], digest), cmds[1..], digest);
    }
  }

  lemma SameIdSameBody(digest: Digest, a: Body, b: Body)
    requires Injective(digest) && ContractId(digest, a) == ContractId(digest, b)
    ensures a == b
  {
    var p := "contract-";
    assert (p + digest(a))[|p|..] == digest(a) && (p + digest(b))[|p|..] == digest(b);
  }

  /** The freeze goes through: the tree is clean or the instrument flag is given, and the dry run is off. */
  predicate GoesThrough(f: Freeze) {
    f.apply && (!f.treeDirty || f.instrumentDevelopment)
  }

  /** A freeze changes the ledger exactly when it goes through and its context or its contract is missing. */
  lemma FreezeChangesExactlyWhen(t: Tables, f: Freeze, digest: Digest)
    ensures Frozen(t, f, digest) != t
      <==> GoesThrough(f)
           && (|| ContextId(f.body.sourceCommit, f.body.windowId) !in t.contexts
               || ContractId(digest, f.body) !in t.contracts)
  {
    var c, id := ContextId(f.body.sourceCommit, f.body.windowId), ContractId(digest, f.body);
    if GoesThrough(f) {
      assert c in Frozen(t, f, digest).contexts && id in Frozen(t, f, digest).contracts;
    }
  }

  /** The same freeze at any later time changes nothing. */
  lemma FreezeAgainChangesNothing(t: Tables, f: Freeze, later: int, digest: Digest)
    ensures Frozen(Frozen(t, f, digest), f.(now := later), digest) == Frozen(t, f, digest)
  {
    FreezeChangesExactlyWhen(Frozen(t, f, digest), f.(now := later), digest);
    if GoesThrough(f) {
      FreezeBinds(t, digest, f);
    }
  }

  /** Whatever ran before, an applied freeze leaves the requested contract under the printed id, insert or conflict. */
  lemma FreezeStoresRequested(t: Tables, cmds: seq<Command>, digest: Digest, f: Freeze)
    requires Addressed(t, digest) && Injective(digest) && GoesThrough(f)
    ensures var t' := Frozen(ExecAll(t, cmds, digest), f, digest);
            var id := ContractId(digest, f.body);
            && id in t'.contracts && t'.contracts[id].body == f.body
            && t'.contracts[id].windowId == f.body.windowId
            && t'.contracts[id].contextId == ContextId(f.body.sourceCommit, f.body.windowId)
  {
    var before := ExecAll(t, cmds, digest);
    RunKeepsAddressed(t, cmds, digest);
    var id := ContractId(digest, f.body);
    if id in before.contracts {
      SameIdSameBody(digest, before.contracts[id].body, f.body);
    }
  }

  /** Two windows never share a contract row. */
  lemma WindowsNeverShare(digest: Digest, a: Body, b: Body)
    requires Injective(digest) && a.windowId != b.windowId
    ensures ContractId(digest, a) != ContractId(digest, b)
  {
    if ContractId(digest, a) == ContractId(digest, b) {
      SameIdSameBody(digest, a, b);
    }
  }

  /**
   * The frozen contract's context is live exactly when it did not exist before or was live:
   * a freeze into a demoted window is still demoted, whatever id it printed.
   */
  lemma FrozenLiveExactlyWhen(t: Tables, digest: Digest, f: Freeze)
    requires GoesThrough(f)
    ensures var t' := Frozen(t, f, digest);
            var c := ContextId(f.body.sourceCommit, f.body.windowId);
            && c in t'.contexts
            && (t'.contexts[c].validity.DevelopmentEvidence? <==>
                  c !in t.contexts || t.contexts[c].validity.DevelopmentEvidence?)
  {
  }

  /** A freeze changes no context that exists, and a new contract is bound to its window's context. */
  lemma FreezeBinds(t: Tables, digest: Digest, f: Freeze)
    requires GoesThrough(f)
    ensures var t' := Frozen(t, f, digest);
            var id, c := ContractId(digest, f.body), ContextId(f.body.sourceCommit, f.body.windowId);
            && t'.contracts.Keys == t.contracts.Keys + {id}
            && (id !in t.contracts ==> t'.contracts[id].contextId == c)
            && c in t'.contexts && (c in t.contexts ==> t'.contexts[c] == t.contexts[c])
  {
  }

  /** Freezing another cohort in a demoted window stores a NEW contract bound to the demoted context. */
  lemma RefreezeBindsToDemoted(digest: Digest, t: Tables, f: Freeze, cohort: string, reasons: seq<string>, now: int)
    requires Injective(digest) && GoesThrough(f) && cohort != f.body.cohort
    requires ContractId(digest, f.body.(cohort := cohort)) !in t.contracts
    ensures var c := ContextId(f.body.sourceCommit, f.body.windowId);
            var demoted := Demoted(Frozen(t, f, digest), c, reasons, now, true);
            var again := f.(body := f.body.(cohort := cohort));
            var id := ContractId(digest, again.body);
            && id !in demoted.contracts
            && id in Frozen(demoted, again, digest).contracts
            && Frozen(demoted, again, digest).contracts[id].contextId == c
            && Frozen(demoted, again, digest).contexts[c].validity.InstrumentDevelopmentInvalid?
  {
    var again := f.(body := f.body.(cohort := cohort));
    var c := ContextId(f.body.sourceCommit, f.body.windowId);
    if ContractId(digest, again.body) == ContractId(digest, f.body) {
      SameIdSameBody(digest, again.body, f.body);
    }
    FreezeBinds(t, digest, f);
    FreezeBinds(Demoted(Frozen(t, f, digest), c, reasons, now, true), digest, again);
  }

  // ---- the programs that change the tables ----

  class Database {
    var contexts: map<string, Context>
    var contracts: map<string, Contract>
    var assignment: map<string, string>
    var trajectories: map<string, Trajectory>
    var decisions: set<Decision>
    var outcomes: set<Outcome>

    function Contents(): Tables
      reads this
    {
      Tables(contexts, contracts, assignment, trajectories, decisions, outcomes)
    }

    /** `contract:freeze`: exit code 2 and no id for a dirty tree, otherwise 0; both inserts skip an existing key. */
    method FreezeContract(f: Freeze, digest: Digest) returns (exitCode: int, contractId: string)
      modifies this`contexts, this`contracts
      ensures Contents() == Frozen(old(Contents()), f, digest)
      ensures exitCode == if f.treeDirty && !f.instrumentDevelopment then 2 else 0
      ensures contractId == if f.treeDirty && !f.instrumentDevelopment then "" else ContractId(digest, f.body)
    {
      if f.treeDirty && !f.instrumentDevelopment {
        return 2, "";
      }
      contractId := ContractId(digest, f.body);
      exitCode := 0;
      var contextId := ContextId(f.body.sourceCommit, f.body.windowId);
      if !f.apply {
        return;
      }
      if contextId !in contexts {
        contexts := contexts[contextId :=
          Context(f.body.sourceCommit, f.treeDirty, f.now, None, DevelopmentEvidence, [], None)];
      }
      if contractId !in contracts {
        contracts := contracts[contractId := Contract(contextId, f.now, f.body.windowId, f.body)];
      }
    }

    /** `demote`: exit code 1 for an unknown context; already invalid and dry runs change nothing. */
    method Demote(contextId: string, reasons: seq<string>, now: int, apply: bool) returns (exitCode: int)
      modifies this`contexts
      ensures Contents() == Demoted(old(Contents()), contextId, reasons, now, apply)
      ensures exitCode == if contextId in old(contexts) then 0 else 1
    {
      if contextId !in contexts {
        return 1;
      }
      exitCode := 0;
      var row := contexts[contextId];
      if row.validity.InstrumentDevelopmentInvalid? {
        return;
      }
      if !apply {
        return;
      }
      var existing := row.reasons;
      contexts := contexts[contextId :=
        row.(validity := InstrumentDevelopmentInvalid, reasons := existing + reasons, closedUtcMs := Some(now))];
    }

    /** `evidence:invalidate-old`: the context is inserted or re-measured, then each trajectory is assigned once. */
    method InvalidateOld(listed: seq<string>, holding: seq<string>, auditHash: Option<string>, openedAt: int,
                         now: int, apply: bool)
      returns (exitCode: int, assignedNow: nat)
      requires forall id :: id in listed <==> id in trajectories
      modifies this`contexts, this`assignment
      ensures Contents() == Invalidated(old(Contents()), holding, auditHash, openedAt, now, apply)
      ensures exitCode == if holding == [] then 1 else 0
      ensures |assignment| == |old(assignment)| + assignedNow
    {
      assignedNow := 0;
      if holding == [] {
        return 1, 0;
      }
      exitCode := 0;
      if !apply {
        return;
      }
      if PRE_REPAIR_CONTEXT !in contexts {
        contexts := contexts[PRE_REPAIR_CONTEXT :=
          Context(PRE_REPAIR_COMMIT, true, openedAt, Some(now), InstrumentDevelopmentInvalid, holding, auditHash)];
      } else {
        var row := contexts[PRE_REPAIR_CONTEXT];
        contexts := contexts[PRE_REPAIR_CONTEXT := row.(reasons := holding, auditHash := auditHash)];
      }
      assert trajectories.Keys == set i | i in listed;
      assignment, assignedNow := InsertMissing(listed, assignment);
    }
  }

  /** INSERT ... ON CONFLICT DO NOTHING for every listed id; counts the rows written. */
  method InsertMissing(ids: seq<string>, before: map<string, string>) returns (after: map<string, string>, written: nat)
    ensures after == map id | id in (set i | i in ids) + before.Keys ::
      if id in before then before[id] else PRE_REPAIR_CONTEXT
    ensures |after| == |before| + written
  {
    after, written := before, 0;
    for k := 0 to |ids|
      invariant forall id :: id in before ==> id in after && after[id] == before[id]
      invariant forall id :: id in after && id !in before ==> id in ids && after[id] == PRE_REPAIR_CONTEXT
      invariant forall i :: 0 <= i < k ==> ids[i] in after
      invariant |after| == |before| + written
    {
      if ids[k] !in after {
        after := after[ids[k] := PRE_REPAIR_CONTEXT];
        written := written + 1;
      }
    }
  }
}
