/**
 * What each command of the ledger writes, row by row, and what that does to the report: stated
 * on the tables' own fields (scripts/contract-freeze.ts, scripts/evidence-invalidate-old.ts,
 * scripts/development-robustness.ts, apps/collector/src/trajectory-collect.ts).
 */
module LedgerRows {
  import opened Prelude
  import opened Ledger

  // ---- the report, outcome by decision ----

  /** The row has the fields of this decision, this outcome and their trajectory. */
  ghost predicate Describes(t: Tables, row: ReportRow, o: Outcome, d: Decision) {
    && row.trajectoryId == o.trajectoryId == d.trajectoryId && row.trajectoryId in t.trajectories
    && row.entryPolicy == d.entryPolicy && row.exitPolicy == o.exitPolicy
    && o.grossDelta == Some(row.grossDelta) && o.entryCashOut == Some(row.entryCashOut)
    && var trajectory := t.trajectories[row.trajectoryId];
       && row.mint == trajectory.mint && row.utcDay == trajectory.utcDay
       && row.executionCost == trajectory.executionCost && row.blocked == trajectory.blocked
  }

  /** A decision and an outcome of one known trajectory make one row if both amounts are known, and no row otherwise. */
  lemma OneRowPerOutcome(t: Tables, o: Outcome, d: Decision)
    requires o.trajectoryId == d.trajectoryId && o.trajectoryId in t.trajectories
    ensures (exists row :: Describes(t, row, o, d)) <==> o.grossDelta.Some? && o.entryCashOut.Some?
    ensures forall row, row' :: Describes(t, row, o, d) && Describes(t, row', o, d) ==> row == row'
    ensures forall row, o' :: Describes(t, row, o, d) && Describes(t, row, o', d) ==> o' == o
  {
    if o.grossDelta.Some? && o.entryCashOut.Some? {
      var trajectory := t.trajectories[o.trajectoryId];
      var row := ReportRow(o.trajectoryId, d.entryPolicy, o.exitPolicy, trajectory.mint, trajectory.utcDay,
                           o.grossDelta.value, o.entryCashOut.value, trajectory.executionCost, trajectory.blocked);
      assert Describes(t, row, o, d);
    }
  }

  /** A row is reported exactly when an entering decision and an outcome of a live trajectory make it. */
  lemma ReportedExactlyWhen(t: Tables, row: ReportRow)
    ensures row in Report(t) <==>
      InLiveContext(t, row.trajectoryId)
      && exists o, d :: o in t.outcomes && d in t.decisions && d.enter && Describes(t, row, o, d)
  {
    if row in Report(t) {
      var o, d :| o in t.outcomes && d in t.decisions && Joins(t, o, d) && Project(t, o, d) == row;
      assert Describes(t, row, o, d);
    }
    forall o, d | o in t.outcomes && d in t.decisions && d.enter && Describes(t, row, o, d)
      ensures InLiveContext(t, row.trajectoryId) ==> row in Report(t)
    {
      if InLiveContext(t, row.trajectoryId) {
        assert Joins(t, o, d) && Project(t, o, d) == row;
      }
    }
  }

  /**
   * A recorded decision adds exactly the rows it makes with the outcomes of its trajectory, if
   * it enters and the trajectory is live; one that does not enter never changes the report.
   */
  lemma DecisionReports(t: Tables, d: Decision, digest: Digest, row: ReportRow)
    ensures row in Report(Exec(t, DoDecide(d), digest)) <==>
      || row in Report(t)
      || (d.enter && InLiveContext(t, row.trajectoryId) && exists o :: o in t.outcomes && Describes(t, row, o, d))
    ensures !d.enter || !InLiveContext(t, d.trajectoryId) ==> Report(Exec(t, DoDecide(d), digest)) == Report(t)
  {
    var t' := Exec(t, DoDecide(d), digest);
    assert t' == t.(decisions := t.decisions + {d});
    forall r ensures r in Report(t') <==>
      || r in Report(t)
      || (d.enter && InLiveContext(t, r.trajectoryId) && exists o :: o in t.outcomes && Describes(t, r, o, d))
    {
      AddedDecision(t, t', d, r);
    }
  }

  lemma AddedDecision(t: Tables, t': Tables, d: Decision, row: ReportRow)
    requires t' == t.(decisions := t.decisions + {d})
    ensures row in Report(t') <==>
      || row in Report(t)
      || (d.enter && InLiveContext(t, row.trajectoryId) && exists o :: o in t.outcomes && Describes(t, row, o, d))
  {
    ReportedExactlyWhen(t, row);
    ReportedExactlyWhen(t', row);
    assert forall o, e :: Describes(t', row, o, e) <==> Describes(t, row, o, e);
    assert InLiveContext(t', row.trajectoryId) <==> InLiveContext(t, row.trajectoryId);
  }

  /** A settled outcome adds exactly the rows it makes with the entering decisions of its live trajectory. */
  lemma OutcomeReports(t: Tables, o: Outcome, digest: Digest, row: ReportRow)
    ensures row in Report(Exec(t, DoSettle(o), digest)) <==>
      || row in Report(t)
      || (InLiveContext(t, row.trajectoryId) && exists d :: d in t.decisions && d.enter && Describes(t, row, o, d))
  {
    var t' := Exec(t, DoSettle(o), digest);
    assert t' == t.(outcomes := t.outcomes + {o});
    ReportedExactlyWhen(t, row);
    ReportedExactlyWhen(t', row);
    assert forall p, d :: Describes(t', row, p, d) <==> Describes(t, row, p, d);
    assert InLiveContext(t', row.trajectoryId) <==> InLiveContext(t, row.trajectoryId);
  }

  // ---- what a demotion is planned with, and what it writes ----

  /** `raw` is what follows the prefix in `arg`. */
  ghost predicate Carries(arg: string, prefix: string, raw: string) {
    arg == prefix + raw
  }

  lemma {:induction false} FirstOption(argv: seq<string>, prefix: string, i: nat)
    requires i <= |argv| && forall k :: 0 <= k < i ==> !(prefix <= argv[k])
    ensures i < |argv| && prefix <= argv[i] ==> Carries(argv[i], prefix, Option1(argv, prefix))
    ensures i == |argv| ==> Option1(argv, prefix) == ""
  {
    if i == 0 {
    } else {
      FirstOption(argv[1..], prefix, i - 1);
    }
  }

  /** The planned context is what the first `--context=` carries, or the empty name without one. */
  lemma PlanNamesFirstContext(argv: seq<string>, normalize: string -> Option<string>, i: nat)
    requires i <= |argv| && forall k :: 0 <= k < i ==> !("--context=" <= argv[k])
    ensures i < |argv| && "--context=" <= argv[i] ==>
      Carries(argv[i], "--context=", PlanDemotion(argv, normalize).contextId)
    ensures i == |argv| ==> PlanDemotion(argv, normalize).contextId == ""
  {
    FirstOption(argv, "--context=", i);
  }

  /** `at` lists, in order, every position of `argv` with the prefix, and `raw` what each carries. */
  ghost predicate ListsOptions(argv: seq<string>, prefix: string, at: seq<nat>, raw: seq<string>) {
    && |at| == |raw|
    && (forall k :: 0 <= k < |at| ==> at[k] < |argv| && Carries(argv[at[k]], prefix, raw[k]))
    && (forall j, k :: 0 <= j < k < |at| ==> at[j] < at[k])
    && (forall i :: 0 <= i < |argv| && prefix <= argv[i] ==> i in at)
  }

  lemma {:induction false} EveryOptionOnce(argv: seq<string>, prefix: string) returns (at: seq<nat>)
    ensures ListsOptions(argv, prefix, at, OptionAll(argv, prefix))
  {
    if argv == [] {
      at := [];
    } else {
      var rest := EveryOptionOnce(argv[1..], prefix);
      var later := seq(|rest|, k requires 0 <= k < |rest| => rest[k] + 1);
      at := if prefix <= argv[0] then [0] + later else later;
      ShiftedOptions(argv, prefix, rest, later);
      var raw := OptionAll(argv[1..], prefix);
      if prefix <= argv[0] {
        assert OptionAll(argv, prefix) == [argv[0][|prefix|..]] + raw;
        HeadOption(argv, prefix, later, raw);
      } else {
        assert OptionAll(argv, prefix) == raw;
      }
    }
  }

  /** `ListsOptions`, but for the first argument. */
  ghost predicate ListsLater(argv: seq<string>, prefix: string, at: seq<nat>, raw: seq<string>) {
    && |at| == |raw|
    && (forall k :: 0 <= k < |at| ==> 1 <= at[k] < |argv| && Carries(argv[at[k]], prefix, raw[k]))
    && (forall j, k :: 0 <= j < k < |at| ==> at[j] < at[k])
    && (forall i :: 1 <= i < |argv| && prefix <= argv[i] ==> i in at)
  }

  lemma ShiftedOptions(argv: seq<string>, prefix: string, rest: seq<nat>, later: seq<nat>)
    requires argv != [] && ListsOptions(argv[1..], prefix, rest, OptionAll(argv[1..], prefix))
    requires |later| == |rest| && forall k :: 0 <= k < |rest| ==> later[k] == rest[k] + 1
    ensures ListsLater(argv, prefix, later, OptionAll(argv[1..], prefix))
  {
    forall i | 1 <= i < |argv| && prefix <= argv[i] ensures i in later {
      assert argv[1..][i - 1] == argv[i];
      var k :| 0 <= k < |rest| && rest[k] == i - 1;
      assert later[k] == i;
    }
  }

  lemma HeadOption(argv: seq<string>, prefix: string, later: seq<nat>, raw: seq<string>)
    requires argv != [] && prefix <= argv[0] && ListsLater(argv, prefix, later, raw)
    ensures ListsOptions(argv, prefix, [0] + later, [argv[0][|prefix|..]] + raw)
  {
    var at := [0] + later;
    assert forall k :: 1 <= k < |at| ==> at[k] == later[k - 1];
    forall i | 0 <= i < |argv| && prefix <= argv[i] ensures i in at {
      assert at[0] == 0;
    }
  }

  lemma {:induction false} NormalizedInOrder(raw: seq<string>, normalize: string -> Option<string>)
    ensures var all := NormalizeAll(raw, normalize);
            all.Some? ==> |all.value| == |raw| && forall k :: 0 <= k < |raw| ==> normalize(raw[k]) == Some(all.value[k])
  {
    if raw == [] {
    } else {
      NormalizedInOrder(raw[1..], normalize);
    }
  }

  /** The planned reasons are the accepted texts of every `--reason=`, once each and in the order given. */
  lemma PlanCarriesReasons(argv: seq<string>, normalize: string -> Option<string>)
    returns (at: seq<nat>, raw: seq<string>)
    requires PlanDemotion(argv, normalize).Demotion?
    ensures ListsOptions(argv, "--reason=", at, raw)
    ensures var reasons := PlanDemotion(argv, normalize).reasons;
            |reasons| == |raw| && forall k :: 0 <= k < |raw| ==> normalize(raw[k]) == Some(reasons[k])
  {
    raw := OptionAll(argv, "--reason=");
    at := EveryOptionOnce(argv, "--reason=");
    NormalizedInOrder(raw, normalize);
  }

  /** Only a missing or an unexplained reason is refused, always with exit code 2. */
  lemma RefusedWithTwo(argv: seq<string>, normalize: string -> Option<string>)
    ensures var plan := PlanDemotion(argv, normalize);
            plan.Refusal? ==> plan.exitCode == 2
    ensures PlanDemotion(argv, normalize).Refusal? <==>
      || (forall i :: 0 <= i < |argv| ==> !("--reason=" <= argv[i]))
      || exists i :: 0 <= i < |argv| && "--reason=" <= argv[i] && normalize(argv[i][|"--reason="|..]).None?
  {
    var raw := OptionAll(argv, "--reason=");
    var at := EveryOptionOnce(argv, "--reason=");
    PlannedExactlyWhenExplained(argv, normalize);
    forall k | 0 <= k < |raw| ensures argv[at[k]][|"--reason="|..] == raw[k] {
      assert Carries(argv[at[k]], "--reason=", raw[k]);
    }
    if i :| 0 <= i < |argv| && "--reason=" <= argv[i] {
      var k :| 0 <= k < |at| && at[k] == i;
      assert raw != [] && raw[k] == argv[i][|"--reason="|..];
    }
    if raw != [] {
      assert "--reason=" <= argv[at[0]];
    }
  }

  /** Nothing but the contexts differs. */
  ghost predicate OnlyContexts(t: Tables, t': Tables) {
    && t'.contracts == t.contracts && t'.assignment == t.assignment && t'.trajectories == t.trajectories
    && t'.decisions == t.decisions && t'.outcomes == t.outcomes
  }

  /**
   * An applied demotion of a live context closes it at the given time and adds exactly the given
   * reasons after its own; it changes nothing else, and any other demotion changes nothing.
   */
  lemma DemotionWrites(t: Tables, contextId: string, reasons: seq<string>, now: int, apply: bool)
    ensures var t' := Demoted(t, contextId, reasons, now, apply);
            && OnlyContexts(t, t')
            && (t' != t ==> apply && contextId in t.contexts && t.contexts[contextId].validity.DevelopmentEvidence?)
    ensures apply && contextId in t.contexts && t.contexts[contextId].validity.DevelopmentEvidence? ==>
      var c, c' := t.contexts[contextId], Demoted(t, contextId, reasons, now, apply).contexts[contextId];
      && c'.validity.InstrumentDevelopmentInvalid? && c'.closedUtcMs == Some(now)
      && |c'.reasons| == |c.reasons| + |reasons|
      && c.reasons <= c'.reasons && c'.reasons[|c.reasons|..] == reasons
      && c'.sourceCommit == c.sourceCommit && c'.treeDirty == c.treeDirty
      && c'.openedUtcMs == c.openedUtcMs && c'.auditHash == c.auditHash
  {
  }

  // ---- what the other commands write ----

  /** Two contracts share a context exactly when their windows and their commits' first twelve characters agree. */
  lemma ContextSharedExactlyWhen(commit: string, windowId: string, commit': string, windowId': string)
    requires |commit| >= 12 && |commit'| >= 12
    ensures ContextId(commit, windowId) == ContextId(commit', windowId')
      <==> commit[..12] == commit'[..12] && windowId == windowId'
  {
    var id, id' := ContextId(commit, windowId), ContextId(commit', windowId');
    assert id[4..16] == commit[..12] && id[17..] == windowId;
    assert id'[4..16] == commit'[..12] && id'[17..] == windowId';
  }

  /**
   * A freeze that goes through opens a missing context at its commit and time, live and without
   * reasons, and stores a missing contract with its time and its context; it touches no other row.
   */
  lemma FreezeWrites(t: Tables, f: Freeze, digest: Digest, key: string)
    requires GoesThrough(f)
    ensures var t' := Frozen(t, f, digest);
            var c, id := ContextId(f.body.sourceCommit, f.body.windowId), ContractId(digest, f.body);
            && (c !in t.contexts ==>
                  var added := t'.contexts[c];
                  && added.sourceCommit == f.body.sourceCommit && added.treeDirty == f.treeDirty
                  && added.openedUtcMs == f.now && added.closedUtcMs.None? && added.validity.DevelopmentEvidence?
                  && added.reasons == [] && added.auditHash.None?)
            && (id !in t.contracts ==>
                  && t'.contracts[id].frozenUtcMs == f.now && t'.contracts[id].contextId == c
                  && t'.contracts[id].body == f.body && t'.contracts[id].windowId == f.body.windowId)
            && (key != c ==> (key in t'.contexts <==> key in t.contexts))
            && (key in t.contexts ==> t'.contexts[key] == t.contexts[key])
            && (key in t'.contracts <==> key in t.contracts || key == id)
            && t'.assignment == t.assignment && t'.trajectories == t.trajectories
            && t'.decisions == t.decisions && t'.outcomes == t.outcomes
  {
  }

  /**
   * Invalidating the old corpus writes the measured reasons and the audit's hash into the
   * pre-repair context, opening it closed and invalid if it is missing, and assigns exactly the
   * trajectories that had no context; it touches no other context.
   */
  lemma InvalidationWrites(t: Tables, holding: seq<string>, auditHash: Option<string>, openedAt: int, now: int,
                           key: string)
    requires holding != []
    ensures var t' := Invalidated(t, holding, auditHash, openedAt, now, true);
            && PRE_REPAIR_CONTEXT in t'.contexts
            && (key != PRE_REPAIR_CONTEXT ==>
                  && (key in t'.contexts <==> key in t.contexts)
                  && (key in t.contexts ==> t'.contexts[key] == t.contexts[key]))
            && (key in t'.assignment <==> key in t.assignment || key in t.trajectories)
            && (key in t'.assignment && key !in t.assignment ==> t'.assignment[key] == PRE_REPAIR_CONTEXT)
            && var c' := t'.contexts[PRE_REPAIR_CONTEXT];
               && c'.reasons == holding && c'.auditHash == auditHash
               && if PRE_REPAIR_CONTEXT in t.contexts then
                    var c := t.contexts[PRE_REPAIR_CONTEXT];
                    && c'.sourceCommit == c.sourceCommit && c'.treeDirty == c.treeDirty
                    && c'.openedUtcMs == c.openedUtcMs && c'.closedUtcMs == c.closedUtcMs && c'.validity == c.validity
                  else
                    && c'.sourceCommit == PRE_REPAIR_COMMIT && c'.treeDirty && c'.openedUtcMs == openedAt
                    && c'.closedUtcMs == Some(now) && c'.validity.InstrumentDevelopmentInvalid?
  {
  }

  /** Without a reason that holds, or without `--apply`, it writes nothing. */
  lemma InvalidationRefused(t: Tables, holding: seq<string>, auditHash: Option<string>, openedAt: int, now: int,
                            apply: bool)
    ensures holding == [] || !apply ==> Invalidated(t, holding, auditHash, openedAt, now, apply) == t
  {
  }

  /**
   * The collector opens a trajectory exactly when it is new and its context exists, assigns it
   * that context unless it has one, and changes nothing else.
   */
  lemma OpeningWrites(t: Tables, id: string, trajectory: Trajectory, contextId: string, key: string)
    ensures var t' := Opened(t, id, trajectory, contextId);
            && (t' != t <==> id !in t.trajectories && contextId in t.contexts)
            && (t' != t ==>
                  && t'.trajectories.Keys == t.trajectories.Keys + {id} && t'.trajectories[id] == trajectory
                  && id in t'.assignment && (id !in t.assignment ==> t'.assignment[id] == contextId)
                  && t'.assignment.Keys == t.assignment.Keys + {id})
            && t'.contexts == t.contexts && t'.contracts == t.contracts
            && t'.decisions == t.decisions && t'.outcomes == t.outcomes
  {
    if id !in t.trajectories && contextId in t.contexts {
      assert id in Opened(t, id, trajectory, contextId).trajectories;
    }
  }

  /** Closing a window stamps an open context and adds the given reasons; a closed one is left alone. */
  lemma ClosingWrites(t: Tables, contextId: string, reasons: seq<string>, now: int)
    ensures var t' := Closed(t, contextId, reasons, now);
            && OnlyContexts(t, t') && t'.contexts.Keys == t.contexts.Keys
            && (forall id :: id in t.contexts && id != contextId ==> t'.contexts[id] == t.contexts[id])
            && (contextId in t.contexts ==>
                  var c, c' := t.contexts[contextId], t'.contexts[contextId];
                  && (c.closedUtcMs.Some? ==> c' == c)
                  && (c.closedUtcMs.None? ==>
                        && c'.closedUtcMs == Some(now) && c.reasons <= c'.reasons
                        && c'.reasons[|c.reasons|..] == reasons && c'.validity == c.validity
                        && c'.sourceCommit == c.sourceCommit && c'.treeDirty == c.treeDirty
                        && c'.openedUtcMs == c.openedUtcMs && c'.auditHash == c.auditHash))
  {
    if contextId in t.contexts && t.contexts[contextId].closedUtcMs.None? {
      assert Closed(t, contextId, reasons, now).contexts.Keys == t.contexts.Keys + {contextId};
    }
  }
}
