# Epitaxy research scripts: a Dafny model

The repository runs a paper-trading research programme for Solana tokens. Its scripts decide
what counts as evidence: which entries a trigger would have made, how positions without an
exit price are treated, which ledger rows a report may use, whether a lock may be cleared, how
a liquidity position's result splits into fees and loss. This project models those decisions
and proves what the scripts promise about them, for every input, run or corpus.

Loops over mutable state are methods proved against a specification function, and the promises
are lemmas about that function; `Database` and the array in `StripTerminator` are changed in
place as the source does. Commands on the evidence tables and the lock protocol are also given
as step relations, so that properties of whole runs can be stated.

| module | what it models |
|---|---|
| CallGraph | breadth-first search over the call graph and the verdicts read off it |
| Kill | clearing process locks while engines start, acquire, heartbeat, release and exit |
| KillSafety | when `kill` never deletes a live engine's row |
| KillOutcome | that `kill` ends, with every lock it read settled once |
| KillTrace | which locks `kill` clears and which it leaves, from what a run shows of each |
| LockHolders | when a lock has at most one live holder |
| Ledger | evidence contexts, contracts and assignments under freeze, demote and invalidate; the report join |
| LedgerRows | what each command writes, and what that does to the report |
| Robustness | the samples the report makes of the join |
| Triggers | entry triggers T0 to T7 and the thresholds that match the controls to T1 |
| TriggerRun | a whole run of a trigger: split, eligibility, fitted threshold and entries |
| FitFutures | how other mints' later snapshots move a control entry |
| Censoring | exits, marks and the three treatments of positions without an exit |
| Replay | the paging walk over a vault's signatures and the reserve replay |
| WordWrap | greedy word wrap |
| TierAssignment | the streaming tier and age-band tables |
| Sections | the section parser, a printer for it, and the terminator strip |
| SectionLines | what one line of the section file spells |
| CollectorTrees | grouping processes into launch trees |
| LpDecomposition | fee income, loss-versus-rebalancing and break-even |
| GrossEdge | one observation per mint and cohort, and the top-k share of the gain |
| Overlay | carrying observed accounts forward onto a snapshot |
| DrawdownPath | the share of a fall carried by its worst step |

`Prelude`, `Text`, `Sorting` and `EarlyDays` hold shared vocabulary: sums and means, splitting and
joining text, the stable sort, and the first days of a set. `dafny verify dfyconfig.toml` checks everything.

Returns, ratios and prices are exact reals and amounts are unbounded integers. JavaScript's
`Map` iterates in insertion order; where that order is visible it is part of the model.

## Where the code and its own words part

Each of these is a proved statement; the code's behaviour is what is modelled.

- `kill` compares host name and pid number only. It is safe exactly in the configurations that
  `KillSafety.SafeConfig` describes; a shared host name or a number reused between probe and delete
  loses a live engine's row.
- `acquire` reads the row and then writes it in two statements: two engines that both read before
  either writes both hold the lock, even when none is late. It compares pid numbers only: two
  machines with one number both hold a lock at once. And a holder that stays silent for the stale
  time is overtaken while alive. Without such reads and writes in between, and with timely reads,
  at most one live holder is exactly what distinct numbers and a safe `kill` give.
- T0 to T5 never look ahead. A control's threshold is fitted on whole windows and eligibility
  looks at the whole window, so a T6 or T7 entry can depend on snapshots after it: the mint's own
  later ones, and those of any fit mint, also for a holdout mint. The exact conditions under which
  it does not are proved for the mint's own later snapshots in both halves, and for the later
  snapshots of any one fit mint; for changes to several it is decided by the same counts.
- Freezing a second cohort in a demoted window mints a new contract bound to the demoted
  context, the very outcome the comment above `windowId` wants to exclude.
- The invalidation assigns only trajectories that have no context yet, so trajectories already
  in a live context stay in the report.
- `load` says its samples are keyed by the entry/exit pair; the key is the entry policy.
- `firstFieldValue` says first; it keeps the largest, which is the first exactly when no later
  one exceeds it.
- A control's threshold falls back to the smallest value when T1 never fired or fired more often
  than the field is present; the control then fires on every covered mint.
- A first word as long as the width puts an empty line in front of the wrapped text, one line
  more than a division needs.
- A section name beginning with END is never recognised.
- `stripTerminator` removes a semicolon inside a trailing comment instead of the terminator.
  And a comment that ends in a carriage return is not cut at all.
- A cycle of parents is reported as one tree per member; such a tree contains its own root only
  if that process names itself as parent.
- The comment on the mark says it is used only when the exit window is empty; it is also used when
  the nearest exit in the window has no price.
- The signature walk says nothing when it runs out of pages or when the node does not return a
  successful transaction, against the comment on its window. Events of one slot are replayed
  newest first: the replay is in chain order exactly when slots strictly fall along the walk.
- Carrying a price forward reads past the cohort's exit window exactly when the mint was seen
  after it.
- The top share of positive returns subtracts the losses among the top k.
- The worst step's share of the drawdown can exceed one after a rebound.
- Overlaying twice differs from overlaying once when a duplicate key hides a protecting flag.

## Model

| member | source | states |
|---|---|---|
| CallGraph.Reach | scripts/call-graph.ts:172-185 | The search ends on every finite edge map; its keys are exactly the names reachable from the start, and each stored path is a real call path of minimum length. |
| CallGraph.RelaxedIsShortest | scripts/call-graph.ts:172-185 | Once every stored name has all its callees stored in time, no call path to a name is shorter than the one stored for it. |
| CallGraph.CheckRequired | scripts/call-graph.ts:187-201 | Each required edge gets a shortest path exactly when the target is reachable; `missing` is exactly the unreachable ones, and empty exactly when all hold. |
| CallGraph.ForbiddenReachable | scripts/call-graph.ts:288-290 | The reported set is exactly the reachable names declared under the directory. |
| CallGraph.NoForbiddenChain | scripts/call-graph.ts:275-290 | No forbidden name is reachable if and only if no chain of calls out of the root ever visits one, at any position. |
| KillSafety.KillIsSafeExactlyWhen | scripts/kill.ts:62-100 | Over every interleaving with engines acquiring, heartbeating, releasing, exiting and starting, no delete removes a live owner's row if and only if every process whose rows pass the host check runs on this machine, is alone with its number, and never gets it again. |
| KillSafety.SafeRun | scripts/kill.ts:62-100 | In a safe configuration every state of every run keeps rows signed by their writer, a pending delete only against a dead number, and no live row lost. |
| KillSafety.SharedHostNameLosesLive | scripts/kill.ts:59-77 | Any startable process on another machine with the same host name gives a run in which its live row is deleted. |
| KillSafety.ReusedNumberLosesLive | scripts/kill.ts:73-77 | Any number that can come back between probe and delete gives a run in which the new live row is deleted. |
| LockHolders.OneHolderTimelyExactlyWhen | packages/storage/src/db.ts:3948-3975 | `acquire` reads and then writes in two statements: over every interleaving in which engines read another live engine's row before it is stale, no lock ever has two live holders if and only if at most one process can run. |
| LockHolders.BothReadThenBothWrite | packages/storage/src/db.ts:3950-3970 | Any two processes that can run both hold a free lock at time zero, without `kill`: both read that there is no row, then both write. |
| LockHolders.OneHolderExactlyWhen | scripts/kill.ts:62-100 | Over every interleaving in which engines moreover write only if no other engine still alive has written the lock since their read, no lock ever has two live holders if and only if at most one process can run, or `kill` is safe and no two processes that can run share a number. |
| LockHolders.AtMostOneLiveHolder | packages/storage/src/db.ts:3948-3994 | In a safe configuration with distinct numbers, every state of a run has at most one live holder per lock if and only if no engine is disturbed between its read and its write and none that read another's stale row finds that engine still there when it writes. |
| LockHolders.OvertakesLateOrDisturbed | packages/storage/src/db.ts:3950-3970 | With distinct numbers a write hits another live engine's row if and only if the writer had read that row stale, or another engine wrote since its read. |
| LockHolders.OneHolderAlwaysExactlyWhen | packages/storage/src/db.ts:3948-3994 | Over all interleavings, late engines included, two live holders are impossible if and only if at most one process can run. |
| LockHolders.SharedNumberMakesTwo | packages/storage/src/db.ts:3954-3963 | Any two processes with one number, on machines with any host names, both hold a lock at once, one after the other, on a fresh row and without `kill`: only the number is compared. |
| KillOutcome.KillComesToAnEnd | scripts/kill.ts:62-107 | Every move of `kill` brings it nearer its end except polling a live process before its deadline, and no other step moves it back. |
| KillOutcome.MovesAreBounded | scripts/kill.ts:62-107 | In any run `kill` makes at most five moves for each lock it read and one to finish, polls aside. |
| KillOutcome.OverdueKillMoves | scripts/kill.ts:88-95 | Once its deadline has passed every further move counts, and when it has finished there is none. |
| LockHolders.SilentHolderIsOvertaken | packages/storage/src/db.ts:3954-3970 | Any two processes that can run both hold a lock once the first has been silent for the stale time. |
| KillOutcome.ClearedOrStillHeld | scripts/kill.ts:60-107 | When `kill` finishes, each lock it read is exactly once either cleared or reported still held. |
| KillTrace.HeldOrClearedExactlyWhen | scripts/kill.ts:62-100 | In every run, once `kill` has finished, a lock it read is still held if and only if its row has another host name, or its signal failed, or its process was alive at the probe after the wait; and cleared if and only if its process was found dead, at once or after the wait. |
| KillTrace.ClearedRowIsGone | scripts/kill.ts:73-98 | Right after the step that clears a lock no row of its name carries the number read. |
| KillTrace.MoveDeletesOnly | scripts/kill.ts:74-97 | A move of `kill` changes the table only to delete a row of the name and number read, and exactly when it clears that lock. |
| KillTrace.FinalProbeComesAfterWait | scripts/kill.ts:86-93 | The probe after the wait comes only after the full wait since the signal went out, or after a look that found the process gone. |
| LockHolders.HeartbeatHoldsOff | packages/storage/src/db.ts:3950-3985 | After an engine's heartbeat another number that reads the row goes on to write if and only if at least the stale time has passed since. |
| LockHolders.AcquireHoldsOff | packages/storage/src/db.ts:3948-3975 | After a write by `acquire` another number goes on to write if and only if at least the stale time has passed since that `acquire` began. |
| LockHolders.OwnNumberOnly | packages/storage/src/db.ts:3977-3994 | Heartbeat and release leave rows of other numbers alone, and release deletes its own. |
| Ledger.PlannedExactlyWhenExplained | scripts/evidence-invalidate-old.ts:247-295 | A demotion is planned if and only if there is at least one reason and every one of them is accepted. |
| LedgerRows.PlanNamesFirstContext | scripts/evidence-invalidate-old.ts:248-249 | The planned context is what the first `--context=` argument carries, and empty without one. |
| LedgerRows.PlanCarriesReasons | scripts/evidence-invalidate-old.ts:250-295 | The planned reasons are the accepted texts of every `--reason=` argument, once each, in the order given. |
| LedgerRows.RefusedWithTwo | scripts/evidence-invalidate-old.ts:252-286 | A plan is refused, with exit code 2, if and only if no reason is given or one of those given is not accepted. |
| LedgerRows.DemotionWrites | scripts/evidence-invalidate-old.ts:204-224 | An applied demotion of a live context makes it invalid, closes it at the given time and puts exactly the given reasons after its own; every other field and table stays, and any other demotion changes nothing. |
| Ledger.StepMovesContextsForward | scripts/evidence-invalidate-old.ts:204-223 | No command loses a context, changes its commit or opening, or revalidates it. |
| Ledger.RunsForward | scripts/evidence-invalidate-old.ts:357-403 | Over every sequence of commands contexts only move toward invalid, and no contract, trajectory, assignment, decision or outcome is lost or changed. |
| Ledger.ReasonsOnlyGrow | scripts/evidence-invalidate-old.ts:212-223 | Over every run the reasons of every context but the pre-repair one are only added to. |
| Ledger.DemotedExactlyWhen | scripts/evidence-invalidate-old.ts:185-229 | A demotion makes invalid exactly the context it names, only when applied, and touches no other. |
| Ledger.DemotedRowsNeverReturn | scripts/development-robustness.ts:36-53 | Once a trajectory's context is invalid, no later report after any commands shows any row of it. |
| Ledger.RowStaysExactlyWhileLive | scripts/development-robustness.ts:36-53 | A reported row is in a later report if and only if its own context is still live then. |
| LedgerRows.ReportedExactlyWhen | scripts/development-robustness.ts:36-53 | A row is reported if and only if its trajectory is in a live context and an entering decision and an outcome with both amounts known give it: its policies, mint, day, amounts, cost and blocked flag are theirs and the trajectory's. |
| LedgerRows.DecisionReports | scripts/development-robustness.ts:44-53 | Recording a decision adds exactly the rows it makes with the outcomes of its trajectory if it enters and the trajectory is live, and otherwise never changes the report. |
| LedgerRows.OutcomeReports | scripts/development-robustness.ts:44-53 | Recording an outcome adds exactly the rows it makes with the entering decisions of its live trajectory. |
| LedgerRows.OneRowPerOutcome | scripts/development-robustness.ts:36-53 | A decision and an outcome of one trajectory make exactly one row if both amounts are known and none otherwise, and no two outcomes make the same row. |
| Ledger.InvalidatedExactlyWhen | scripts/evidence-invalidate-old.ts:357-403 | After the invalidation every trajectory has a context; it is out of the live ones if and only if its earlier context was, or it had none and the pre-repair context is new or invalid. |
| Ledger.InvalidateLeavesLiveContexts | scripts/evidence-invalidate-old.ts:388-397 | A trajectory already in a live context keeps its report rows. |
| LedgerRows.InvalidationWrites | scripts/evidence-invalidate-old.ts:357-397 | The invalidation writes the measured reasons and the audit hash into the pre-repair context, opens it closed and invalid if it is missing, assigns exactly the trajectories without a context, and touches no other context. |
| LedgerRows.OpeningWrites | apps/collector/src/trajectory-collect.ts:1653-1656 | A trajectory is opened if and only if it is new and its context exists; it is assigned that context unless it has one, and nothing else changes. |
| LedgerRows.ClosingWrites | scripts/window-close.ts:126-147 | Closing stamps an open context and puts the given reasons after its own, keeps its validity, and leaves a closed one alone. |
| Ledger.RunKeepsAddressed | scripts/contract-freeze.ts:198-199 | Over every run each stored contract sits under its own body's id and names that body's window and context, and that context exists. |
| Ledger.FreezeStoresRequested | scripts/contract-freeze.ts:225-290 | Whatever ran before, an applied freeze leaves under the printed id a contract with the requested body, window and context, insert or conflict, given an injective digest. |
| Ledger.WindowsNeverShare | scripts/contract-freeze.ts:122-199 | Two bodies with different windows never get the same contract id. |
| Ledger.FreezeChangesExactlyWhen | scripts/contract-freeze.ts:110-290 | A freeze changes the ledger if and only if it is neither refused nor dry and its context or contract is missing. |
| Ledger.FreezeAgainChangesNothing | scripts/contract-freeze.ts:227-250 | Repeating a freeze at any later time changes nothing. |
| Ledger.FrozenLiveExactlyWhen | scripts/contract-freeze.ts:227-240 | After an applied freeze its context is live if and only if it was new or live before. |
| Ledger.RefreezeBindsToDemoted | scripts/contract-freeze.ts:120-290 | Freezing another cohort in a demoted window stores a new contract bound to the demoted context: the window name in the hash does not prevent that. |
| LedgerRows.FreezeWrites | scripts/contract-freeze.ts:224-256 | A freeze that goes through opens a missing context live, without reasons, at its commit and time, stores a missing contract with its time, body, window and context, and touches no other row. |
| LedgerRows.ContextSharedExactlyWhen | scripts/contract-freeze.ts:120-120 | For commits of twelve characters or more two contexts have one id if and only if the windows and the first twelve characters agree. |
| Ledger.Database.FreezeContract | scripts/contract-freeze.ts:110-290 | The in-place command leaves exactly the tables the specification gives, with the exit code and the printed id. |
| Ledger.Database.Demote | scripts/evidence-invalidate-old.ts:185-229 | The in-place demotion leaves exactly the specified tables; unknown context, already invalid and dry run change nothing. |
| Ledger.Database.InvalidateOld | scripts/evidence-invalidate-old.ts:309-403 | The in-place transaction inserts or re-measures the pre-repair context and assigns only unassigned trajectories. |
| Ledger.InsertMissing | scripts/evidence-invalidate-old.ts:388-397 | The insert-if-absent loop assigns each listed trajectory that has none and changes no existing assignment. |
| Robustness.Load | scripts/development-robustness.ts:87-134 | Each entry policy maps to exactly its samples in row order, and a policy without samples is absent. |
| Robustness.GrowthIsWhatIsLeft | scripts/development-robustness.ts:97-128 | A row is skipped if and only if nothing was paid or all of it was lost; otherwise growth times the cost is cost plus net result, and growth is below one if and only if money was lost. |
| Robustness.SampleKeepsRow | scripts/development-robustness.ts:106-130 | A sample has its row's mint, day and blocked flag, and its result is the gross one less the execution cost, if that is known. |
| Robustness.CatastrophicIsMoreThanHalf | scripts/development-robustness.ts:84-130 | The rounded integer test marks a path catastrophic if and only if it lost more than half of its entry cost. |
| Robustness.ExitPoliciesArePooled | scripts/development-robustness.ts:118-132 | Two exit policies of one decision give two samples under the same key; the comment says the key is the pair. |
| Robustness.SamplesComeFromLiveRows | scripts/development-robustness.ts:36-134 | Every sample is that of a join row whose trajectory is in a live context. |
| Robustness.EveryCountedRowOnce | scripts/development-robustness.ts:95-132 | Each row of a policy that is not skipped has exactly one sample, in row order, and no other row has one. |
| Triggers.FiresTier | scripts/phase-b-triggers.ts:293-302 | The loop returns the first snapshot that meets the window, the threshold and the clock, and none if there is none. |
| Triggers.FiresControl | scripts/phase-b-triggers.ts:434-462 | T6 and T7 return the first in-window snapshot whose field reaches the threshold; unset, they never fire. |
| Triggers.FieldsAreApart | scripts/phase-b-triggers.ts:424-462 | T6 reads the inflow and T7 the change in holders, and neither reads the other's field. |
| TriggerRun.RunTrigger | scripts/phase-b-triggers.ts:267-345 | The run splits the corpus by day, fits a control threshold on the eligible fit mints and enters each eligible mint at the specified snapshot, or not. |
| TriggerRun.SplitIsChronological | scripts/phase-b-triggers.ts:267-279 | For every corpus the fit days and the holdout days partition its days, every fit day precedes every holdout day, and the fit half has one more when their number is odd. |
| TriggerRun.HalvesGoByDay | scripts/phase-b-triggers.ts:267-279 | A mint is in neither half if and only if no snapshot is in the window, its day is that of the first one that is, and mints of one day are in one half. |
| TriggerRun.EligibleIsBaseline | scripts/phase-b-triggers.ts:286-291 | A mint is eligible if and only if T0 fires on it, and only such mints are entered by any trigger. |
| TriggerRun.EveryFitMintOnce | scripts/phase-b-triggers.ts:286-290 | The thresholds are fitted on exactly the eligible mints of the fit half, each once and in order. |
| TriggerRun.GivenNeverLooksAhead | scripts/phase-b-triggers.ts:370-422 | T0 to T5: two mints of any two corpora that agree on a prefix have the same entry in that prefix or none; no later snapshot and no other mint has a say. |
| TriggerRun.HoldoutEntryStandsExactlyWhen | scripts/phase-b-triggers.ts:285-345 | A holdout mint's T6 or T7 entry stands whatever the mint's own later snapshots are if and only if a snapshot up to the entry already makes it eligible. |
| TriggerRun.FitEntryStandsExactlyWhen | scripts/phase-b-triggers.ts:309-345 | A fit mint's T6 or T7 entry stands whatever the mint's own later snapshots are if and only if it is eligible by then and, with T1 firing on it later or not, fewer other fit values than the rank less one lie above the entry's and at least that many above each earlier one. |
| FitFutures.ControlEntryExactlyWhen | scripts/phase-b-triggers.ts:320-345 | In any corpus a mint of either half is entered by T6 or T7 at a snapshot if and only if it is eligible and fewer fit values than the threshold's rank lie above that value, and at least that many above every earlier one. |
| FitFutures.SameFitSamePast | scripts/phase-b-triggers.ts:320-345 | In two corpora with the same fit mints, two mints that agree on a prefix making them eligible have the same T6 or T7 entry in it or none. |
| FitFutures.EntryWithOthersFuture | scripts/phase-b-triggers.ts:320-345 | Under one given other future of a fit mint, another mint's control entry stands if and only if the counts hold with that mint's new best value, T1 fire and eligibility. |
| FitFutures.OthersFutureLeavesEntryExactlyWhen | scripts/phase-b-triggers.ts:309-345 | Another mint's control entry, of either half, stands whatever a fit mint does after a snapshot if and only if the counts hold with that mint rising above the entry, with it reaching no more than it has, with T1 firing on it or not, and, if it is not yet eligible, without it. |
| FitFutures.FitFutureMovesHoldout | scripts/phase-b-triggers.ts:267-345 | A fit mint's snapshot twenty-five minutes after a holdout mint's eligible entry decides whether that entry happens. |
| TriggerRun.AloneAtT1AlwaysMoves | scripts/phase-b-triggers.ts:320-341 | When T1 fires on no other fit mint, every control entry of the fit half is moved by some future of its own. |
| TriggerRun.FitHalfLooksAhead | scripts/phase-b-triggers.ts:320-344 | Two corpora that differ only after an entry and enter that mint at different snapshots. |
| TriggerRun.FitEntryWithFuture | scripts/phase-b-triggers.ts:320-344 | Under one given other future, a fit mint's control entry stands if and only if the mint is still eligible and the counts hold for its new best value and the new T1 count. |
| Triggers.TierTriggersNest | scripts/phase-b-triggers.ts:379-422 | For non-decreasing thresholds T3 fires no earlier than T2, T2 than T1, T4 than T1 and T5 than T2, and only where those fire. |
| Triggers.ScheduleNestsExactlyWhen | scripts/phase-b-triggers.ts:153-153 | For an ascending schedule the three thresholds are non-decreasing if and only if no tier up to three is missing above a positive one. |
| Triggers.ThresholdIsWholeSol | scripts/phase-b-triggers.ts:153-153 | A threshold is the tier's lamports in whole SOL, rounded down, and zero for a missing tier. |
| Triggers.ClockedEntryIsTheSame | scripts/phase-b-triggers.ts:293-302 | With wall time non-decreasing, a clocked trigger fires if and only if the unclocked entry beat the clock, and then at that same snapshot. |
| Triggers.FirstFieldValue | scripts/phase-b-triggers.ts:309-318 | The loop keeps the largest in-window value. |
| Triggers.KeepsFirstExactlyWhen | scripts/phase-b-triggers.ts:308-318 | The value kept is the first in-window one, which the comment names, if and only if no in-window value exceeds that first one. |
| Triggers.KeepsLargerThanFirst | scripts/phase-b-triggers.ts:308-318 | A mint whose first in-window value is not the one kept. |
| Triggers.ControlFiresExactlyWhen | scripts/phase-b-triggers.ts:309-318 | A control fires if and only if the best in-window value reaches its threshold. |
| Triggers.ThresholdForSelectivity | scripts/phase-b-triggers.ts:320-341 | The fitted threshold is the specified rank of the sorted best values, none when no mint carries the field. |
| Triggers.WantedIsT1Count | scripts/phase-b-triggers.ts:305-335 | Selectivity times population, rounded, is exactly T1's count. |
| Triggers.RankReached | scripts/phase-b-triggers.ts:330-340 | In a sorted list at least the elements from a rank on reach its value, exactly those when it differs from the one before. |
| Triggers.RankExceeded | scripts/phase-b-triggers.ts:330-340 | Fewer elements than the rank leaves lie strictly above its value. |
| Triggers.ControlReachesSelectivity | scripts/phase-b-triggers.ts:320-341 | For a wanted count between one and the covered mints the control fires on at least that many fit mints, fewer lie strictly above the threshold, and the count is exact if and only if there is no tie at the cut. |
| Triggers.ControlFallsBackToAll | scripts/phase-b-triggers.ts:336-338 | Outside that range the control fires on every covered mint. |
| Triggers.SelectivityMatchesExactlyWhen | scripts/phase-b-triggers.ts:305-341 | The control matches T1's count if and only if the count is in range without a tie at the cut, or both are zero. |
| Censoring.ExitAmong | scripts/phase-b-triggers.ts:510-519 | The exit is a later snapshot in the window, none of which is nearer the target age. |
| Censoring.Observe | scripts/phase-b-triggers.ts:509-561 | The loop gives the specified return, censoring flag, mark and carried return. |
| Censoring.ObservedIsPlausible | scripts/phase-b-triggers.ts:520-561 | With positive prices every return is above -100%, needs a priced entry, and carrying forward never changes an observed one. |
| Censoring.ObservedExactlyWhen | scripts/phase-b-triggers.ts:509-561 | A position is censored if and only if nothing can be its exit. It has a return if and only if the entry is priced and the earliest listed of the nearest exits has a price; the carried return is marked if and only if there is no return, the entry is priced and some mark follows. |
| Censoring.ReturnIsTheChange | scripts/phase-b-triggers.ts:520-523 | A return is the price change from the entry to the earliest listed of the exits nearest the target. |
| Censoring.MarkedReturnIsTheChange | scripts/phase-b-triggers.ts:548-561 | A marked return is the change to the earliest listed of the oldest marks. |
| Censoring.ExitsAndMarksByAge | scripts/phase-b-triggers.ts:512-552 | An exit is a later snapshot within a quarter of an hour of the target; a mark is a priced exit or a priced later snapshot from before that. |
| Censoring.ZerosGrow | scripts/phase-b-triggers.ts:784-816 | A further observation enters the written-off mean if and only if its entry is priced, with its return or else as a total loss. |
| Censoring.CarriesGrow | scripts/phase-b-triggers.ts:784-816 | A further observation enters the carry-forward mean if and only if it has a carried return. |
| Censoring.GrossesGrow | scripts/phase-b-triggers.ts:784-816 | A further observation enters the as-reported mean if and only if it has a return. |
| Censoring.ResidualZeroIsTheBound | scripts/phase-b-triggers.ts:784-816 | The written-off mean is at most the as-reported and the carry-forward mean whenever they exist, over three different denominators, with equality if and only if every priced entry has a return. |
| Censoring.PositiveBoundSettlesTheSign | scripts/phase-b-triggers.ts:784-816 | If the written-off mean is positive, the other two exist and are positive. |
| Censoring.BoundHoldsForCorpus | scripts/phase-b-triggers.ts:496-570 | The bound holds of the cell built from any fired entries with positive prices. |
| Replay.Walk | scripts/counterfactual-replay.ts:136-189 | The nested paging loops return exactly the events and the unresolved count of the signatures up to the first too old one, within ten pages. |
| Replay.BalanceExactlyWhen | scripts/counterfactual-replay.ts:162-167 | The balance read for a vault is that of the first row whose account index is the vault's first position among the account keys, and absent if and only if there is no such position or row. |
| Replay.JudgedExactlyWhen | scripts/counterfactual-replay.ts:148-184 | A signature is too old if and only if its time is before the window; unresolved if and only if it has no time, or is in the window, successful and returned but lacks one of the four rows; an event if and only if it has all four, with its own signature and slot, zero without one. |
| Replay.DeltaIsBetweenRows | scripts/counterfactual-replay.ts:168-184 | An event's two deltas are the changes between each vault's row before and its row after. |
| Replay.UnresolvedCounts | scripts/counterfactual-replay.ts:150-178 | The unresolved count is the number of examined signatures that are unresolved. |
| Replay.EventsDiffer | scripts/counterfactual-replay.ts:148-184 | No two recorded events have one signature, and each is that of an examined signature. |
| Replay.CompleteExactlyWhen | scripts/counterfactual-replay.ts:142-189 | With block times that never rise, the walk holds every event of the whole history if and only if it stopped inside its pages or nothing past them is an event; stopped inside, nothing later is in the window. |
| Replay.RecordedOnce | scripts/counterfactual-replay.ts:148-185 | Each examined signature is recorded once if it is a readable successful in-window event, and never otherwise. |
| Replay.NothingMissingExactlyWhen | scripts/counterfactual-replay.ts:142-189 | A walk that stopped inside its pages with nothing unresolved has every successful transaction of the window if and only if the node returned each of them; one not returned is dropped without being counted. |
| Replay.RunningOutIsSilent | scripts/counterfactual-replay.ts:142-142 | There is a history on which an event is missing although nothing was counted unresolved. |
| Replay.WalkTelescopes | scripts/counterfactual-replay.ts:158-184 | When nothing examined is unresolved or unreadable, the recorded deltas of either vault add up to its net change over the window. |
| Replay.ReplayCounterfactual | packages/pipeline/src/counterfactual.ts:223-247 | The loop applies the slot-sorted deltas, clamping both reserves at zero. |
| Replay.SettleAgainstTotal | packages/pipeline/src/counterfactual.ts:230-238 | Clamping never loses: the settled reserve is at least start plus total, and equal if and only if no step goes below zero. |
| Replay.SettledIsTheHighest | packages/pipeline/src/counterfactual.ts:230-247 | The settled reserve is exactly the highest of the start plus all deltas and the sums of the deltas from each later point on. |
| Replay.ReplayEndsAtNetChange | scripts/counterfactual-replay.ts:199-204 | Walk, sort and replay together: the reserve ends at the post-entry reserve plus the vault's net change if and only if no applied step goes below zero, and above it otherwise. |
| Replay.ReplayRunsForwardExactlyWhen | packages/pipeline/src/counterfactual.ts:232-238 | Distinct events in walk order are replayed oldest first if and only if their slots strictly fall; where slots never rise, if and only if no two share one. |
| Replay.WalkReplaysForwardExactlyWhen | scripts/counterfactual-replay.ts:142-204 | The walk's own events are replayed in chain order if and only if their slots strictly fall. |
| Replay.OrdersAgreeExactlyWhen | packages/pipeline/src/counterfactual.ts:232-238 | In slot order and in chain order the reserve is never below the net change; if either order stays up throughout, both end alike if and only if both stay up. |
| Replay.SameSlotRunsBackwards | packages/pipeline/src/counterfactual.ts:232-238 | Two events of one slot whose order changes the final reserve. |
| WordWrap.Wrap | scripts/not-implemented.ts:97-110 | The loop produces exactly the greedy lines of the specification. |
| WordWrap.WrapRejoins | scripts/not-implemented.ts:97-110 | For text without empty words the lines joined by spaces are the text if and only if the first word is shorter than the width; otherwise one empty line comes first. |
| WordWrap.WrapKeepsWords | scripts/not-implemented.ts:97-110 | For every text and width, runs of spaces included, the words on the lines are the words of the text in order. |
| WordWrap.NoEmptyLastLine | scripts/not-implemented.ts:106-108 | With a width of one or more no text ends in an empty line, and there is no line if and only if there is no word. |
| WordWrap.WrapFits | scripts/not-implemented.ts:97-110 | Every line fits if and only if every word does. |
| WordWrap.ShortestExactlyWhen | scripts/not-implemented.ts:97-110 | No division of the words into consecutive fitting lines has fewer lines if and only if the first word is shorter than the width, or some word does not fit and there is no division. |
| WordWrap.WrapIsShortest | scripts/not-implemented.ts:97-110 | No division has fewer lines, except one fewer when the first word is exactly as long as the width. |
| TierAssignment.BandsTileAges | scripts/phase-b-tier-assignment.ts:40-47 | Each non-negative age is in exactly one band, and only a negative one is unbanded. |
| TierAssignment.TierIsHighestReached | packages/solana/src/fee-tiers.ts:207-216 | The selected tier has the highest threshold the cap reaches, and the first tier applies below all. |
| TierAssignment.TierMonotone | scripts/phase-b-tier-assignment.ts:102-107 | A larger market cap never selects a lower tier. |
| TierAssignment.AssignedTierIsReached | scripts/phase-b-tier-assignment.ts:228-248 | An assigned row has a positive cap that, within the rounding to lamports, reaches its tier and no higher threshold. |
| TierAssignment.JudgedExactlyWhen | scripts/phase-b-tier-assignment.ts:228-244 | A row is assigned if and only if it has a positive cap, a rate and a schedule; otherwise it is refused for the first of the three it lacks. |
| TierAssignment.Stream | scripts/phase-b-tier-assignment.ts:227-272 | The mutable maps agree after the last row with their definitions over the whole row sequence. |
| TierAssignment.NothingIsLost | scripts/phase-b-tier-assignment.ts:227-248 | Seen rows are assigned plus the three refusal counters, and the joint counts sum to the assigned rows. |
| TierAssignment.JointCountsRows | scripts/phase-b-tier-assignment.ts:247-248 | A cell of the joint table is the number of rows assigned to that tier and band. |
| TierAssignment.MintsAtExactlyWhen | scripts/phase-b-tier-assignment.ts:249-251 | A mint is in a cell if and only if one of its rows is assigned there. |
| TierAssignment.CountersCountRows | scripts/phase-b-tier-assignment.ts:229-245 | Each counter is the number of rows with its verdict. |
| TierAssignment.FirstDayIsTheFirstRows | scripts/phase-b-tier-assignment.ts:258-260 | The day kept for a mint in a band is that of the first streamed row that lands there. |
| TierAssignment.ReachOf | scripts/phase-b-tier-assignment.ts:289-304 | The reach loop counts the mints at a tier or better, and its per-day map holds exactly the days some of them fall on, with their counts. |
| TierAssignment.ReachIsExact | scripts/phase-b-tier-assignment.ts:253-256 | A mint is counted at a tier if and only if some assigned row puts it in that band at that tier or better. |
| TierAssignment.ReachNeverGrows | scripts/phase-b-tier-assignment.ts:290-290 | A higher tier is reached by a subset of the mints. |
| TierAssignment.DaysSplitTheReach | scripts/phase-b-tier-assignment.ts:291-295 | The per-day counts add up to the reach count. |
| TierAssignment.FirstDayFollowsTheStream | scripts/phase-b-tier-assignment.ts:258-260 | The day a mint is credited to depends on the order of the rows even where no count does. |
| Sections.ReadSections | scripts/dune-assemble.ts:40-64 | The line loop returns exactly the specified scan. |
| Sections.RejectedExactlyWhen | scripts/dune-assemble.ts:40-64 | A file is rejected if and only if its markers do not alternate between opening and end; the error is the first marker out of place or the section left open. |
| Sections.HeaderRecognised | scripts/dune-assemble.ts:44-44 | A header is read back with its name and needs if and only if the name is a marker name not starting with END. |
| SectionLines.OpensExactlyWhen | scripts/dune-assemble.ts:44-53 | A line opens a section with a name and needs if and only if, between white space, it spells `--#`, a name not starting with END and optionally white space, `needs=` and a list, whose non-empty parts are the needs. |
| SectionLines.EndsExactlyWhen | scripts/dune-assemble.ts:54-54 | A line ends a section if and only if it is the end marker between white space. |
| SectionLines.SpacesAre | scripts/dune-assemble.ts:44-44 | The white space of the pattern and of `trim` is exactly the listed code points. |
| SectionLines.NameCharsAre | scripts/dune-assemble.ts:44-44 | A name is made of capitals, digits and hyphens. |
| Sections.ReadsBackWhatWasPrinted | scripts/dune-assemble.ts:40-64 | Printing any legal sections with arbitrary other text between them and reading gives every name, needs and body back. |
| Sections.DistinctNamesAllStored | scripts/dune-assemble.ts:56-56 | With distinct names exactly the printed sections are stored, none replaced. |
| Sections.StripTerminator | scripts/dune-assemble.ts:102-113 | The in-place loop leaves the lines the specification gives. |
| Sections.OnlyLastCodeChanges | scripts/dune-assemble.ts:104-111 | A line changes if and only if it is the last with code and that code ends in a semicolon, and then by one character. |
| Sections.TerminatorRemovedExactlyWhen | scripts/dune-assemble.ts:105-109 | The statement terminator is what goes if and only if no semicolon follows the code on its line. |
| SectionLines.CommentIsCut | scripts/dune-assemble.ts:105-105 | Of a line made of code, white space and a comment exactly the code is left, nothing when there is only a comment. |
| SectionLines.WithoutCommentOnlySpaceGoes | scripts/dune-assemble.ts:105-105 | Without a pair of hyphens, or with a line terminator after each pair, only the trailing white space goes. |
| SectionLines.LastSemicolonGoes | scripts/dune-assemble.ts:108-109 | What is removed is the last semicolon of the whole line, and nothing else. |
| CollectorTrees.RootOf | scripts/collector-ops.ts:130-139 | The cycle-guarded walk terminates on every table and returns the specified root. |
| CollectorTrees.RootIsParentless | scripts/collector-ops.ts:123-139 | The root is an ancestor, and has no matching parent if and only if the chain of parents ends. |
| CollectorTrees.RootIsChainEnd | scripts/collector-ops.ts:130-139 | On a chain that ends a process is the root if and only if the chain ends at it. |
| CollectorTrees.RootExactlyWhen | scripts/collector-ops.ts:130-139 | On every table, cycles included, the root is the first ancestor whose own parent is missing or was met on the way. |
| CollectorTrees.OwnRoot | scripts/collector-ops.ts:130-139 | A process is its own root if and only if it has no matching parent or names itself. |
| CollectorTrees.CollectorTrees | scripts/collector-ops.ts:119-160 | For unique pids the trees are the classes of equal root, sorted by root, each with sorted pids and its root's command line and creation time. |
| CollectorTrees.EveryPidOnce | scripts/collector-ops.ts:141-147 | Every pid is listed once in exactly one tree, cyclic tables included. |
| CollectorTrees.TreeCount | scripts/collector-ops.ts:101-104 | There are as many trees as processes without a matching parent if and only if no chain runs into a cycle; otherwise there are more. |
| CollectorTrees.RootsAre | scripts/collector-ops.ts:123-139 | On any table the roots are exactly the processes without a matching parent and those on parent cycles. |
| CollectorTrees.TreesCounted | scripts/collector-ops.ts:141-159 | There is one tree for each process without a matching parent and one for each process on a cycle. |
| CollectorTrees.TreeHoldsItsRootExactlyWhen | scripts/collector-ops.ts:141-159 | A tree lists its own root if and only if that process has no matching parent or names itself as parent. |
| CollectorTrees.CycleCountsTwice | scripts/collector-ops.ts:126-139 | Two processes naming each other are reported as two trees, neither holding its own root. |
| LpDecomposition.FeeLessLossIsResult | scripts/lp-decomposition.ts:220-227 | Fee income less implied loss is the result against holding, exactly, for all positive reserves and capital. |
| LpDecomposition.TermsAreValues | scripts/lp-decomposition.ts:220-227 | Times the capital, the result is the closing position's value less the opening reserves' at the closing price, and the loss and the fee are those two values less what the opening position is worth when it moves to that price along its own invariant. |
| LpDecomposition.JudgedExactlyWhen | scripts/lp-decomposition.ts:180-218 | Which trajectories are kept and what each other one is excluded for: too few marks, a reserve that is not positive at either end or virtual reserves of at least twice the opening quote, a liquidity event, or unknown virtual reserves. |
| LpDecomposition.KeptTermsAreValues | scripts/lp-decomposition.ts:214-227 | A kept pool's terms are those values of its first and last mark over twice the opening quote less the virtual reserves. |
| LpDecomposition.StepBreaksExactlyWhen | scripts/lp-decomposition.ts:196-200 | A step from a positive invariant is a liquidity event if and only if the new one is below 98% or above 102% of it; from a zero one, if and only if it is not zero. |
| LpDecomposition.LossIsNonNegative | scripts/lp-decomposition.ts:226-226 | The implied loss is never negative and is zero if and only if the price did not move. |
| LpDecomposition.FeeFollowsInvariant | scripts/lp-decomposition.ts:225-225 | Fee income is non-negative if and only if the invariant did not shrink. |
| LpDecomposition.SawLiquidityEvent | scripts/lp-decomposition.ts:195-201 | The flag is set if and only if some step changes the invariant by more than two percent. |
| LpDecomposition.EventsGrow | scripts/lp-decomposition.ts:195-201 | One mark has no event, and a further one adds one if and only if the step to it breaks. |
| LpDecomposition.Decompose | scripts/lp-decomposition.ts:180-267 | The main loop keeps exactly the specified pools in order and counts every exclusion under the first test that fails. |
| LpDecomposition.EveryTrajectoryCounted | scripts/lp-decomposition.ts:178-218 | Kept and excluded trajectories add up to all of them. |
| LpDecomposition.EveryKeptPoolOnce | scripts/lp-decomposition.ts:178-267 | Each kept trajectory gives exactly one pool, in order, and no other does. |
| LpDecomposition.ExclusionsCount | scripts/lp-decomposition.ts:178-218 | Each exclusion counter is the number of trajectories excluded for it. |
| LpDecomposition.EveryKeptPoolDecomposes | scripts/lp-decomposition.ts:325-327 | Every kept pool of any population obeys the identity with a non-negative loss. |
| LpDecomposition.TierZeroReproduces | scripts/lp-decomposition.ts:325-335 | At the decoded fee the rescaled mean is the measured mean result. |
| LpDecomposition.NonNegativeExactlyFromBreakEven | scripts/lp-decomposition.ts:335-362 | For a positive fee share the rescaled mean is non-negative if and only if the mean fee is positive and the share reaches the pooled break-even, or fee and loss are both zero. |
| GrossEdge.EntryOf | scripts/phase-a-gross-edge.ts:220-222 | The entry is in the window, and absent if and only if no snapshot is. |
| GrossEdge.EntryIsYoungest | scripts/phase-a-gross-edge.ts:174-222 | On the age-sorted list nothing in the window is younger than the entry. |
| GrossEdge.Observe | scripts/phase-a-gross-edge.ts:206-269 | The pass returns exactly the specified observations and the three counters. |
| GrossEdge.EveryEntryAccounted | scripts/phase-a-gross-edge.ts:219-268 | Observations are entries less censored plus carried, the as-reported ones are entries less censored, and carried is at most censored. |
| GrossEdge.OutcomeExactlyWhen | scripts/phase-a-gross-edge.ts:220-248 | A mint entered at its first listed in-window snapshot is observed at the first listed of the exits nearest the bound; if nothing can be its exit it is carried to its last snapshot, or dropped if that is no older than the entry. |
| GrossEdge.WindowsInReals | scripts/phase-a-gross-edge.ts:97-101 | The integer windows are the registered real ones: a quarter of the band above the lower bound, and a quarter of the upper bound either way. |
| GrossEdge.EveryObservedMintOnce | scripts/phase-a-gross-edge.ts:217-268 | Each observed mint gives exactly one observation, in order, and no other does. |
| GrossEdge.CountedExactlyWhen | scripts/phase-a-gross-edge.ts:222-247 | The three counters are true of the mints with an entry, with one and no exit, and with one carried forward. |
| GrossEdge.SolNeedsBothRates | scripts/phase-a-gross-edge.ts:250-268 | The return in SOL exists if and only if the rate is known at both ends; the observation names its mint, entry and exit. |
| GrossEdge.UncensoredExitIsNearest | scripts/phase-a-gross-edge.ts:224-236 | An uncensored exit is a later snapshot in its window that none is nearer than, the youngest of equals, after the earliest entry. |
| GrossEdge.CarriedExitIsTheLast | scripts/phase-a-gross-edge.ts:238-248 | A carried exit is the mint's oldest snapshot, later than the entry and outside the exit window. |
| GrossEdge.CarryReadsPastTheWindowExactlyWhen | scripts/phase-a-gross-edge.ts:174-248 | A carried price comes from after the exit window if and only if the mint has a snapshot older than the window; otherwise it comes from before the window. |
| GrossEdge.CarryCanReadPastTheWindow | scripts/phase-a-gross-edge.ts:138-181 | Such a mint: the list serves the older cohorts too. |
| GrossEdge.SolAgainstDollars | scripts/phase-a-gross-edge.ts:250-254 | The SOL return is the dollar return times the rate's move, and better if and only if SOL got cheaper. |
| GrossEdge.EntryBeforeExit | scripts/phase-a-gross-edge.ts:62-89 | In every registered cohort the whole entry window is before the whole exit window. |
| GrossEdge.TopKIsGreatest | scripts/phase-a-gross-edge.ts:356-367 | No k returns add up to more than the first k of the descending sort. |
| GrossEdge.TopShares | scripts/phase-a-gross-edge.ts:356-370 | The record holds a share for each of 1, 3, 5 and 10, absent with too few returns or no gain, and is empty for an empty sample. |
| GrossEdge.ShareExistsExactlyWhen | scripts/phase-a-gross-edge.ts:356-370 | A share exists if and only if there are that many returns and one of them is a gain. |
| GrossEdge.ShareIsAtMostOne | scripts/phase-a-gross-edge.ts:356-370 | The top share of positive returns is at most one, and one if and only if the cut is exactly at the sign change. |
| GrossEdge.ShareIsTheirGainExactlyWhen | scripts/phase-a-gross-edge.ts:289-297 | The figure is the part of the gain the top k made if and only if none of the k is a loss; the comment says it always is. |
| Overlay.OverlayAll | scripts/cold-warm-surface.ts:117-176 | The loop leaves the specified accounts in Map order. |
| Overlay.HoldsLastWrite | scripts/cold-warm-surface.ts:161-174 | A key holds its last written observation, or what it held before. |
| Overlay.ProtectionIsStable | scripts/cold-warm-surface.ts:142-160 | The protected set recomputed from an overlaid snapshot is the same set. |
| Overlay.TwiceIsOnceExactlyWhen | scripts/cold-warm-surface.ts:117-176 | Two overlays equal one of the concatenation, for all observations, if and only if every protecting flag is still on the last account of its key (which distinct keys ensure). |
| Overlay.IdempotentExactlyWhen | scripts/cold-warm-surface.ts:117-176 | A second overlay of the same observations changes nothing if and only if every key whose protecting flag a later account hides either was not observed with its bytes or was last observed as the base holds it. |
| Overlay.OverlayIsIdempotent | scripts/cold-warm-surface.ts:161-175 | With every flag standing, overlaying the same observations again changes nothing. |
| Overlay.OverlayContents | scripts/cold-warm-surface.ts:117-176 | Over distinct keys every account keeps its place, protected ones are unchanged, and each other is its last observation with bytes, or unchanged without one. |
| Overlay.DistinctFlagsStand | scripts/cold-warm-surface.ts:122-145 | A snapshot with one account per key meets the condition. |
| Overlay.LastWriteCarries | scripts/cold-warm-surface.ts:161-174 | The account written under a key carries exactly the owner, lamports and bytes of the last observation that is not skipped, never executable; absent if and only if all are skipped. |
| DrawdownPath.Classify | scripts/backfill-exit-accounting.ts:270-291 | The loop gives the specified path class and the index of the worst step. |
| DrawdownPath.PathExactlyWhen | scripts/backfill-exit-accounting.ts:270-291 | A path needs two marks; it has no decline if and only if the last mark is within 0.01 of the peak, and otherwise is abrupt if one step takes 80% of that fall, stepwise if one takes 40%, and gradual if none does. |
| DrawdownPath.WorstAmong | scripts/backfill-exit-accounting.ts:271-279 | The worst step is the largest fall, at its first occurrence, and zero without an index when nothing falls. |
| DrawdownPath.WorstStepIsAtLeastEven | scripts/backfill-exit-accounting.ts:271-282 | The drawdown is at most the worst step times the number of steps after any peak mark, so at most n-1 times it. |
| DrawdownPath.ClassNeedsSteps | scripts/backfill-exit-accounting.ts:284-291 | A gradual path has at least three steps after every peak mark, hence four marks; a stepwise one at least two, hence three. |
| DrawdownPath.BoundsAreMet | scripts/backfill-exit-accounting.ts:284-291 | Four marks can be gradual and three stepwise. |
| DrawdownPath.ShareIsAtMostOneExactlyWhen | scripts/backfill-exit-accounting.ts:280-283 | The share exceeds one if and only if after some step the rebound to the last mark exceeds the peak's lead over the mark before it; never when the last mark is the lowest. |
| DrawdownPath.ReboundInflatesTheShare | scripts/backfill-exit-accounting.ts:262-268 | Measured from the peak the share can still be two, although the comment presents the peak as the cure for ratios above one. |

## Left out

- KillSafety.KillIsSafeExactlyWhen: the protocol is a step relation on values, because engines and `kill` interleave; each of the database's statements is one step, and the clock an `acquire` reads is read with its first statement. A signal that `kill` sends to its own number is taken to have no effect.
- LockHolders.OneHolderExactlyWhen: a run holds one invocation of `kill`; further or concurrent invocations, each with a number of its own, are not modelled.
- Ledger.FreezeStoresRequested: assumes that the sixteen hex digits of the hash are injective on bodies; the hash itself and the JSON it is taken of are a parameter.
- Ledger.Database.Demote: demotion reasons are kept as given; the text rules for one reason are a parameter of the plan.
- Ledger.RunsForward: covers the commands that write these tables in the scripts and the collector's inserts; a rollback leaves the tables as they were and is not a step.
- Ledger.DemotedRowsNeverReturn: the report is a set of rows, so two equal rows of the join count once.
- Robustness.Load: stores the growth ratio where the source stores its logarithm; summaries, fragility and bootstrap over the samples are not modelled.
- Censoring.Observe: the fixed-hold return, the migration flag and the entry's tier are not modelled.
- TriggerRun.RunTrigger: cost floors, standard deviations, required sample sizes, tier buckets and the bootstrap are not modelled; the split is given by each day's rank among the days.
- Replay.ReplayCounterfactual: ends with the two reserves; the constant-product quote on them is not part of this model.
- Replay.CompleteExactlyWhen: claims nothing about a walk that runs out of pages beyond the exact condition.
- Replay.WalkTelescopes: balances of a vault are assumed to chain from one signature to the next.
- LpDecomposition.FeeLessLossIsResult: square roots are any exact non-negative roots of the ratios; turnover, volatility, quantiles and the closed-form check are not modelled.
- GrossEdge.Observe: takes each mint's list as read and sorted; moments, medians, required sizes and the share of the signed total are not modelled.
- TierAssignment.Stream: the row sample, the provider cross-check and the per-day median are not modelled; the conversion of an instant to a UTC day is an input.
- Sections: `compose`, the statement count and the push to Dune are not modelled.
- Sections.StripTerminator: works on the array of lines; splitting and joining the text around it is in `Text`.
- CollectorTrees.CollectorTrees: requires unique pids, as one process listing gives.
- Overlay: which accounts are observed and how a surface is run are not modelled.
- DrawdownPath: the marks, the exit classification and the collapse lead time of the backfill are not modelled; quote attribution to positions is not claimed.
- Rounding of floating point numbers is not modelled anywhere.
- SQL, RPC, child processes, artifacts and console output are inputs or absent; the TypeScript walk that fills the edge map is an input.
- The baseline, status, probe, capture and doctor scripts are not modelled.
