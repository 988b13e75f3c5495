# Verified model of the strategy engine

This project models the decision engine of one strategy in `backend.py`: the
`StrategyInstance` that runs a grid of trigger levels around the NIFTY spot.
When the spot reaches a level, it records a virtual short position in a call
and a put struck a configured offset either side of that level. No order is
placed. It closes the position on profit or on spot movement. The project also
models the supervisor's reconciliation of the persisted "running" flag with
the strategy's threads. The broker, the files,
the clock and the threads are abstracted away. Quotes, the spot, the time of
the step and the cutoff comparison are inputs of each step. The three JSONL
logs are sequences the model appends to.

Layout, one module per file:

- `types.dfy` (`Types`): the records.
  - configuration, trigger events, trades and their identity `(trigger, entry_time)`
  - trade-log records (`entry`, with or without a revision `time`, and `exit`)
  - spot samples
  - Python truthiness of a level (`None` and `0` count as absent)
- `trigger_log.dfy` (`TriggerLog`): the trigger log.
  - A level's current status is the status of its last event.
  - The set of `setup` levels.
  - The `disabled` events that disabling stale triggers appends.
- `grid.dfy` (`Grid`): the grid arithmetic, with Python's floor division.
  - the initial grid
  - the hit test
  - the events of initialisation and of an advance
  - the invariant that exactly the two grid levels are `setup`
- `ledger.dfy` (`Ledger`): the recovery rule `Recover`.
  - It is a fold `Collect` over the trade log that mirrors the loop of `recover_open_trades`.
  - Lemmas say what it recovers.
  - Lemmas say how it reacts when an entry, a revision or an exit is appended.
- `monitor.dfy` (`Monitor`): the monitor's tick as a pure specification.
  - P&L, spot move and the exit rule.
  - The visit of one trade (`VisitTrade`) and the pass over a snapshot (`Pass`).
  - Lemmas on what the pass keeps, closes and logs.
- `supervisor.dfy` (`Supervisor`): the run state and the reconciliation state machine.
- `strategy.dfy` (`Strategy`): the class `StrategyInstance`, whose fields the methods update in place.
  - the grid levels, the open trades, the remembered live pairs, the three logs
  - the running flag, the persisted flag and the thread handles
  - Its methods are the imperative steps: disabling, initialisation, the recovery loop, one tick of each loop, start, stop and reconciliation.
  - Each method is proved against the functions above.

The main invariant is `Consistent()`: the open trades in memory are exactly
what the trade log recovers to. Initialisation establishes it. Every decision
tick and every monitor tick keeps it, as long as the clock of the step is later
than every time already in the log. Beside it, `GridTracked()` says that the
`setup` levels of the trigger log are exactly the two grid levels.
`UniqueTriggers` says that no two open trades share a level.

Where the code and its description disagree, the model follows the code:

- The remembered live pairs are keyed by trigger level, not by trade. They are
  never cleared when a trade closes. A new trade on a level where an earlier
  trade's last pair equals the first quote therefore gets no revision record on
  its first observation (`Monitor.VisitRevises` states the rule as written).
- A zero initial gap raises a division error after the stale levels are
  disabled. The model returns `GapError` at that point.
- The spot given to `setup_initial_triggers` is tested only against `None`, so
  a zero spot still initialises the grid.

## Model

| member | source | states |
|---|---|---|
| TriggerLog.LastIndex | backend.py:105-107 | the position found holds an event for the level and no later event does; none means the level never occurs |
| TriggerLog.LatestStatus | backend.py:105-107 | a level's status is that of its last event, and absent exactly when the level never occurs |
| TriggerLog.SetupLevels | backend.py:107-109 | a level is in the set exactly when its latest status is `setup` |
| TriggerLog.LatestStatusAppend | backend.py:105-107 | appending one event changes only the status of that event's level |
| TriggerLog.LatestStatusConcat | backend.py:105-107 | after appending a block, a level mentioned in the block takes its status from the block; other levels keep theirs |
| TriggerLog.DisableEvents | backend.py:108-110 | every appended event is a `disabled` event stamped with the step's time |
| TriggerLog.DisableEventsTargets | backend.py:107-110 | a level receives a `disabled` event exactly when its latest status is `setup` |
| TriggerLog.DisableClearsSetup | backend.py:99-110 | after disabling, no level is `setup`, and every level that was `setup` is now `disabled` |
| Grid.FloorDiv | backend.py:120 | the quotient rounds toward minus infinity for either sign of the divisor, as Python's `//` does |
| Grid.InitialGrid | backend.py:119-122 | `up = down + gap`, and for a positive gap `down <= spot < up` (for a negative gap the mirror image) |
| Grid.SetupEvents | backend.py:124-135 | a `setup` event for each grid level that is not already `setup`, down first |
| Grid.InitEvents | backend.py:118-135 | the disabling events followed by the setup events; `InitLeavesTwoSetupLevels` shows both setup events are always written |
| Grid.InitLeavesTwoSetupLevels | backend.py:118-135 | both `setup` events are always written after disabling, and afterwards exactly `down` and `up` are `setup` |
| Grid.Evaluate | backend.py:231-240 | a hit happens iff the cutoff has not passed and a present level is reached; the up-level takes precedence; an absent or zero level never hits |
| Grid.EvaluateOnGrid | backend.py:233-236 | on a proper grid a spot strictly inside hits nothing and a spot at or beyond a level hits that level |
| Grid.Other | backend.py:260 | the grid level that was not hit |
| Grid.AdvanceEvents | backend.py:259-266 | an advance logs `hit`, then `disabled` for the other level only when it is present, then `setup` for `hit + g` and for `hit - g` |
| Grid.AdvanceKeepsTwoSetupLevels | backend.py:259-266 | for a non-zero gap and two non-zero grid levels: if exactly the two grid levels were `setup`, exactly `hit + g` and `hit - g` are `setup` after an advance |
| Grid.AdvanceFromZeroLevel | backend.py:259-266 | a level of 0 is never disabled by an advance (`if other:` treats it as absent): from the grid (0, 100), an advance at 100 with gap 50 leaves 0, 50 and 150 all `setup` |
| Grid.AdvanceStatus | backend.py:259-266 | after an advance a single level is `setup` exactly when it is `hit + g` or `hit - g` |
| Ledger.RevisionTime | backend.py:152 | a record's revision time is its `time` field, defaulting to the trade's entry time; used by `CollectKeepsLatest` |
| Ledger.Exits | backend.py:145 | the identities that have an `exit` record anywhere in the log; used by `RecoverOpenIdentities` |
| Ledger.Step | backend.py:148-153 | one iteration of the recovery loop; `Strategy.Absorb` is proved to perform it |
| Ledger.Collect | backend.py:147-153 | the recovery loop over a prefix of the log; specified by `CollectWellFormed`, `CollectKeepsLatest` and `CollectFirstAppearanceOrder` |
| Ledger.Recover | backend.py:141-155 | the open trades the trade log recovers to; specified by `RecoverOpenIdentities`, `RecoverPicksLatestRevision` and `RecoverRelog` |
| Ledger.CollectWellFormed | backend.py:147-153 | the recovery loop's dictionary holds each identity once, only entries of identities without an exit, and every such entry's identity |
| Ledger.CollectKeepsLatest | backend.py:150-153 | the dictionary holds, per identity, the entry with the greatest revision time, the earliest one on ties |
| Ledger.CollectFirstAppearanceOrder | backend.py:147-155 | the dictionary's keys are in the order in which their identities first appear among the entries |
| Ledger.RecoverOpenIdentities | backend.py:144-155 | recovery yields exactly one trade per identity that has an entry and no exit, with distinct identities |
| Ledger.RecoverPicksLatestRevision | backend.py:148-155 | each recovered trade is its identity's latest revision (the earlier one on ties), and the result is in first-appearance order |
| Ledger.LatestIsUnique | backend.py:152 | the strict comparison makes the kept revision unique |
| Ledger.RecoverAfterEntry | backend.py:256-257 | logging the entry of a brand-new identity appends its trade to what the log recovers to |
| Ledger.RecoverAfterRevision | backend.py:186-190 | a revision stamped later than every record of its identity replaces that trade in place |
| Ledger.RecoverAfterExit | backend.py:203-212 | an exit record removes its trade, and only that trade |
| Ledger.RecoverBefore | backend.py:141-155 | a log written before a time recovers only trades entered before it |
| Ledger.RecoverRelog | backend.py:141-155 | trades with distinct identities, logged as entries, recover to themselves (round trip) |
| Ledger.RecoverIdempotent | backend.py:141-155 | re-logging the recovered trades and recovering again gives the same trades |
| Monitor.Pnl | backend.py:193-195 | the P&L of a trade at the live quotes, (entry sum minus live sum) times the lot size; checked on the worked example `PnlExample` |
| Monitor.ShouldExit | backend.py:198 | the exit rule, P&L at or above the trade's profit threshold or move at or above its move threshold; used by `SurvivorsExactly` and `PassExitsMeetRule` |
| Monitor.Quoted | backend.py:173-174 | both live premiums are available (non-zero); used by `PassKeepsUnquoted` |
| Monitor.Changed | backend.py:177-181 | the live pair differs from the one remembered for the trade's level, or none is remembered; used by `VisitRevises` |
| Monitor.Move | backend.py:196 | the move is the absolute distance between the spot and the trade's entry spot |
| Monitor.ExitRuleIgnoresLive | backend.py:193-198 | the P&L and the exit rule do not depend on the live pair stored in the trade |
| Monitor.PnlExample | backend.py:193-198 | entry premiums 100, live 50 + 46 and a lot of 75 give a P&L of 300, which closes at a profit threshold of 300 and, at 301, only on the move |
| Monitor.VisitTrade | backend.py:170-212 | an unquoted trade is untouched; a quoted one updates the remembered pair; the trade is closed iff quoted and the exit rule holds; every record belongs to the trade |
| Monitor.Pass | backend.py:168-212 | the pass over the snapshot keeps at most one trade per trade visited |
| Monitor.PassEvents | backend.py:186-211 | every record the pass writes belongs to a visited trade and is stamped with the tick or the entry time |
| Monitor.PassKeptKeys | backend.py:168-212 | the pass keeps exactly the identities of the snapshot trades it does not close, in snapshot order |
| Monitor.SurvivorsExactly | backend.py:198-212 | with distinct identities, a trade stays open iff its quote is unavailable or the exit rule fails |
| Monitor.PassKeepsUnquoted | backend.py:173-174 | a trade with a zero premium for either leg stays open unchanged |
| Monitor.VisitKeepsRecover | backend.py:181-212 | one visit's records revise or remove that trade in what the log recovers to, leaving the others alone |
| Monitor.PassKeepsRecover | backend.py:168-212 | after the first `n` visits the log recovers to the kept trades followed by the unvisited ones |
| Monitor.PassBefore | backend.py:186-211 | after the pass every record in the log is stamped no later than the tick |
| Monitor.PassKeepsTriggersUnique | backend.py:168-212 | the pass keeps open trades on distinct levels, each on the level of a visited trade |
| Monitor.PassExitsMeetRule | backend.py:198-212 | every exit record closes a visited, quoted trade that met the exit rule, at the live quotes and the spot, with the rule's P&L and without the live pair |
| Monitor.VisitRevises | backend.py:176-190 | a quoted trade gets a revision record iff its pair differs from the one remembered for its level (or none is remembered); that record is the trade with the new pair, stamped with the tick, and a trade that stays open carries the new pair |
| Supervisor.Start | backend.py:270-286 | starting while running is refused and changes nothing; otherwise both flags are set and two fresh, distinct threads are made |
| Supervisor.Stop | backend.py:288-299 | stopping clears both flags and keeps the thread handles |
| Supervisor.RestartStrategy | backend.py:539-546 | a fresh handle replaces the strategy thread when it exists and is dead |
| Supervisor.RestartMonitor | backend.py:548-555 | a fresh handle replaces the monitor thread when it exists and is dead |
| Supervisor.Reconciled | backend.py:520-555 | one reconciliation: start, stop, restart the dead threads, or nothing; specified by the four lemmas below |
| Supervisor.ReconcileAgrees | backend.py:520-555 | after reconciliation the running flag equals the persisted flag, which is unchanged, and handles stay valid |
| Supervisor.ReconcileRestartsOnlyDead | backend.py:538-555 | with both flags on, a thread is replaced iff it exists and is dead, and the new one is fresh |
| Supervisor.ReconcileIdempotent | backend.py:520-555 | reconciling again with live threads changes nothing |
| Supervisor.ReconcileIdle | backend.py:520-536 | with both flags off, nothing changes |
| Strategy.Absorb | backend.py:148-153 | one iteration of the recovery loop updates the dictionary and its key order as the fold `Step` does |
| Strategy.StrategyInstance.constructor | backend.py:29-54 | a new instance has no grid, no open trades, no remembered pairs, is not running and has no threads |
| Strategy.StrategyInstance.DisableOldTriggers | backend.py:99-110 | appends `DisableEvents` of the log as read at the start, after which no level is `setup` |
| Strategy.StrategyInstance.InstallGrid | backend.py:124-138 | after disabling, logs the two `setup` events and sets the grid, which the trigger log then tracks |
| Strategy.StrategyInstance.SetupInitialTriggers | backend.py:112-139 | no spot: nothing changes; zero gap: disabling only and a failure; otherwise the grid is `InitialGrid`, the log gains `InitEvents` and the grid is tracked |
| Strategy.StrategyInstance.RecoverOpenTrades | backend.py:141-155 | the loop sets the open trades to exactly `Recover` of the trade log |
| Strategy.StrategyInstance.BeginRun | backend.py:216-221 | initialisation succeeds exactly when a spot is given and the gap is non-zero; each outcome gives the new trigger log and grid as `SetupInitialTriggers` does; on success the open trades are what the trade log recovers to and the grid is tracked, otherwise the open trades are unchanged |
| Strategy.StrategyInstance.OpenTrade | backend.py:248-257 | the trade is appended and logged as an entry, keeping consistency, the clock order and one trade per level |
| Strategy.StrategyInstance.AdvanceGrid | backend.py:259-266 | logs `AdvanceEvents`, moves the grid to `hit ± g` and keeps the grid tracked |
| Strategy.StrategyInstance.DecisionStep | backend.py:224-266 | skips without a spot; otherwise logs the spot; the outcome is no-hit, occupied, below-threshold or entered exactly as `Evaluate`, the open levels and the threshold decide, so a hit on a free level with enough premium always enters; only an entry changes trades, logs and grid; consistency, one trade per level and the tracked grid are kept |
| Strategy.StrategyInstance.Visit | backend.py:170-212 | visiting the trade at a position revises it in place, removes it or leaves it, as `VisitTrade` says, and touches no other trade |
| Strategy.StrategyInstance.VisitAll | backend.py:168-212 | the loop over a snapshot of the open trades ends in the state `Pass` describes |
| Strategy.StrategyInstance.MonitorStep | backend.py:160-212 | skips without a spot; otherwise logs the spot and applies `Pass` to the open trades, the trade log and the remembered pairs, keeping consistency and one trade per level |
| Strategy.StrategyInstance.Start | backend.py:270-286 | the run state changes exactly as `Supervisor.Start` says |
| Strategy.StrategyInstance.Stop | backend.py:288-299 | the run state changes exactly as `Supervisor.Stop` says |
| Strategy.StrategyInstance.Reconcile | backend.py:520-555 | the run state changes exactly as `Supervisor.Reconciled` says |
| Strategy.EntryKeepsInvariants | backend.py:242-257 | an entry on a free level keeps consistency, the clock order and one trade per level |
| Strategy.PassKeepsInvariants | backend.py:168-212 | a monitor pass keeps consistency, the clock order and one trade per level |

## Left out

- Broker calls are inputs of each step: the spot, the option premiums with 0 meaning unavailable, the instrument lookup and its retry loop.
- File and JSON I/O are left out: logs, status file, configuration and token refresh. The logs are sequences in memory, and a malformed log line, which raises in the source, is not modelled.
- Threads, `join`, `time.sleep` and the `while` loops of the two threads are left out. Each loop is modelled as one tick. The unsynchronised sharing of the open trades between the two threads is not modelled.
- The pandas sort by time is not modelled: log order stands for time order. Timestamps are integers rather than ISO strings.
- Parsing of the cutoff time and expiry dates is not modelled: the cutoff comparison is a boolean input.
- Float rounding is not modelled: the two loops take the spot already rounded by `round()`, and `round(pnl, 2)` is left out. Premiums and P&L are reals.
- The lot size is a parameter of the monitor step. In the source it is a global that starts at 75, is overwritten from the broker's instrument list (the lot size of the first NIFTY future) when the broker data is loaded, and falls back to 75 when that load fails. `Monitor.PnlExample` uses 75.
- Extra dictionary fields are not modelled: `status`, `time` and the copied configuration keys of recovered records. Removal from the open trades is by the trade's own position, which can differ from Python's removal of the first equal dictionary only when two open trades are equal.
- `Grid.InitialGrid` takes an integer spot, while `setup_initial_triggers` divides the unrounded price. For a positive integer gap, the source's grid is obtained by passing the floor of the price (the rounded price is wrong: 17699.6 with a gap of 100 gives down = 17600 in the source). The float type of that grid is not modelled.
- `Monitor.VisitRevises`: the first observation of a trade is not logged when its level's remembered pair, left by an earlier trade on that level, equals the first quote. This is what the code does, so the model does not promise that a first observation is always logged.
- `Grid.AdvanceKeepsTwoSetupLevels`: requires both grid levels to be non-zero. The source never disables a level of 0 (`if other:`), and such a level arises when the grid is initialised from a spot of 0. `Grid.AdvanceFromZeroLevel` shows the invariant failing then.
- `Strategy.StrategyInstance.AdvanceGrid`: the tracked grid is kept only when both levels are present and the subsequent gap is non-zero. With a zero gap the two new levels coincide.
- `Strategy.StrategyInstance.DecisionStep`: the tick is skipped when the rounded spot is 0. The source tests the raw price before rounding, so a raw price strictly between -0.5 and 0.5 other than 0 is processed there as a spot of 0.
- `Strategy.StrategyInstance.MonitorStep`: the tick is skipped when the rounded spot is 0. The source processes a non-zero raw price below 0.5 in absolute value, as above.
- `Strategy.StrategyInstance.DecisionStep`: consistency is kept given that the step's time is later than every time already logged.
- `Strategy.StrategyInstance.MonitorStep`: consistency is kept given that the tick's time is later than every time already logged.
- `Strategy.StrategyInstance.MonitorStep`: the quotes are given one per open trade, in order.
- frontend.py (a Streamlit dashboard) and test_1.py (a spot logger) are not part of this model.
