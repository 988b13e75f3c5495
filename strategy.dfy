/** A running strategy: its grid, its open trades, the live pairs it
    remembers, its three logs and its run state, updated in place by the
    steps of its two loops and by the supervisor. The broker's quotes, the
    clock and the cutoff comparison are inputs of each step. */
module Strategy {
  import opened Types
  import opened TriggerLog
  import opened Grid
  import opened Ledger
  import opened Monitor
  import Supervisor

  datatype InitOutcome = NoSpot | GapError | Ready

  datatype DecisionOutcome = Idle | NoHit | Occupied | BelowThreshold | Entered

  /** Some open trade sits on `level`. */
  predicate OpenAt(trades: seq<Trade>, level: int) {
    exists i :: 0 <= i < |trades| && trades[i].trigger == level
  }

  /** Cutting the working set `pre + ts[i..]` around position `|pre|`. */
  lemma SplitAt(pre: seq<Trade>, ts: seq<Trade>, i: nat)
    requires i < |ts|
    ensures (pre + ts[i..])[|pre|] == ts[i]
    ensures (pre + ts[i..])[..|pre|] == pre && (pre + ts[i..])[|pre| + 1..] == ts[i + 1..]
  {
  }

  /** The recovery loop's dictionary `deduped`, with its insertion order
      `keys`, holds exactly what the accumulator `a` records by position. */
  ghost predicate Mirrors(log: seq<TradeEvent>, a: Acc, keys: seq<Key>, deduped: map<Key, TradeEvent>) {
    && keys == a.keys && deduped.Keys == a.pos.Keys
    && forall k :: k in deduped ==> a.pos[k] < |log| && deduped[k] == log[a.pos[k]]
  }

  /** One iteration of recovery's loop on the record at `i`: an entry whose
      identity has no exit is inserted when new and replaces the held record
      only when its revision time is strictly greater. */
  method Absorb(log: seq<TradeEvent>, exits: set<Key>, i: nat, ghost a: Acc, keys: seq<Key>, deduped: map<Key, TradeEvent>)
    returns (keys': seq<Key>, deduped': map<Key, TradeEvent>)
    requires i < |log| && Mirrors(log, a, keys, deduped)
    ensures Mirrors(log, Step(log, exits, a, i), keys', deduped')
  {
    keys', deduped' := keys, deduped;
    var t := log[i];
    var k := EventKey(t);
    if t.Entry? && k !in exits {
      if k !in deduped {
        keys' := keys + [k];
        deduped' := deduped[k := t];
      } else if RevisionTime(t) > RevisionTime(deduped[k]) {
        deduped' := deduped[k := t];
      }
    }
  }

  class StrategyInstance {
    const config: Config
    var triggerUp: Option<int>
    var triggerDown: Option<int>
    var openTrades: seq<Trade>
    var liveValues: map<int, LivePair>
    var triggerLog: seq<TriggerEvent>
    var tradeLog: seq<TradeEvent>
    var spotLog: seq<SpotSample>
    var running: bool
    var persisted: bool
    var strategyThread: Option<nat>
    var monitorThread: Option<nat>
    var threadsCreated: nat

    /** A strategy as loaded: no grid, no open trades, not running, with the
        logs and the status flag found on disk. */
    constructor(config: Config, triggerLog: seq<TriggerEvent>, tradeLog: seq<TradeEvent>, spotLog: seq<SpotSample>, persisted: bool)
      ensures this.config == config && this.triggerLog == triggerLog && this.tradeLog == tradeLog && this.spotLog == spotLog
      ensures this.persisted == persisted && !running
      ensures triggerUp.None? && triggerDown.None? && openTrades == [] && liveValues == map[]
      ensures strategyThread.None? && monitorThread.None? && threadsCreated == 0
    {
      this.config := config;
      this.triggerLog := triggerLog;
      this.tradeLog := tradeLog;
      this.spotLog := spotLog;
      this.persisted := persisted;
      running := false;
      triggerUp := None;
      triggerDown := None;
      openTrades := [];
      liveValues := map[];
      strategyThread := None;
      monitorThread := None;
      threadsCreated := 0;
    }

    /** The open trades are exactly what the trade log recovers to. */
    predicate Consistent()
      reads this
    {
      Recover(tradeLog) == openTrades
    }

    /** The `setup` levels of the trigger log are exactly the two grid levels. */
    predicate GridTracked()
      reads this
    {
      triggerUp.Some? && triggerDown.Some? && SetupLevels(triggerLog) == {triggerUp.value, triggerDown.value}
    }

    function RunStateOf(): Supervisor.RunState
      reads this
    {
      Supervisor.RunState(persisted, running, strategyThread, monitorThread, threadsCreated)
    }

    /** Disabling the stale triggers: one loop over the trigger log as read
        at the start appends a `disabled` event for every level whose latest
        status is `setup`. */
    method DisableOldTriggers(now: int)
      modifies this`triggerLog
      ensures triggerLog == old(triggerLog) + DisableEvents(old(triggerLog), now, |old(triggerLog)|)
      ensures forall l :: LatestStatus(triggerLog, l) != Some(Setup)
    {
      var snapshot := triggerLog;
      for i := 0 to |snapshot|
        invariant triggerLog == snapshot + DisableEvents(snapshot, now, i)
      {
        var e := snapshot[i];
        if LastIndex(snapshot, e.trigger) == Some(i) && e.status == Setup {
          triggerLog := triggerLog + [TriggerEvent(now, Disabled, e.trigger)];
        }
      }
      DisableClearsSetup(snapshot, now);
    }

    /** Installs the grid `(down, up)` once the stale levels of `before`
        are disabled: writes a `setup` event for each of the two levels that
        is not already `setup`, and tracks them as the current grid. */
    method InstallGrid(down: int, up: int, now: int, ghost before: seq<TriggerEvent>)
      requires down != up
      requires triggerLog == before + DisableEvents(before, now, |before|)
      modifies this`triggerLog, this`triggerUp, this`triggerDown
      ensures triggerLog == before + InitEvents(before, now, down, up)
      ensures triggerDown == Some(down) && triggerUp == Some(up)
      ensures GridTracked()
    {
      var recent := triggerLog;
      InitLeavesTwoSetupLevels(before, now, down, up);
      if LatestStatus(recent, down) != Some(Setup) {
        triggerLog := triggerLog + [TriggerEvent(now, Setup, down)];
      }
      if LatestStatus(recent, up) != Some(Setup) {
        triggerLog := triggerLog + [TriggerEvent(now, Setup, up)];
      }
      assert triggerLog == recent + SetupEvents(recent, now, down, up);
      triggerDown := Some(down);
      triggerUp := Some(up);
    }

    /** Grid initialisation: without a spot nothing happens; otherwise the
        stale `setup` levels are disabled, and then, for a non-zero gap, the
        grid is placed around the spot and its two levels are set up. A zero
        gap fails after the disabling, leaving the grid as it was. */
    method SetupInitialTriggers(spot: Option<int>, now: int) returns (outcome: InitOutcome)
      modifies this`triggerLog, this`triggerUp, this`triggerDown
      ensures spot.None? ==> outcome == NoSpot && triggerLog == old(triggerLog)
      ensures spot.Some? && config.initialGap == 0 ==>
                outcome == GapError && triggerLog == old(triggerLog) + DisableEvents(old(triggerLog), now, |old(triggerLog)|)
      ensures outcome != Ready ==> triggerUp == old(triggerUp) && triggerDown == old(triggerDown)
      ensures spot.Some? && config.initialGap != 0 ==>
                var g := InitialGrid(spot.value, config.initialGap);
                && outcome == Ready
                && triggerDown == Some(g.0) && triggerUp == Some(g.1)
                && triggerLog == old(triggerLog) + InitEvents(old(triggerLog), now, g.0, g.1)
      ensures outcome == Ready ==> GridTracked()
    {
      if spot.None? {
        return NoSpot;
      }
      DisableOldTriggers(now);
      var gap := config.initialGap;
      if gap == 0 {
        return GapError;
      }
      var grid := InitialGrid(spot.value, gap);
      var down, up := grid.0, grid.1;
      InstallGrid(down, up, now, old(triggerLog));
      return Ready;
    }

    /** Recovery of the open trades from the trade log: one loop over the
        log fills a dictionary keyed by identity, keeping for each identity
        without an exit its latest revision. */
    method RecoverOpenTrades()
      modifies this`openTrades
      ensures openTrades == Recover(tradeLog)
    {
      var log := tradeLog;
      var exits := Exits(log);
      var keys: seq<Key> := [];
      var deduped: map<Key, TradeEvent> := map[];
      ghost var a := Acc([], map[]);
      for i := 0 to |log|
        invariant a == Collect(log, exits, i)
        invariant Mirrors(log, a, keys, deduped)
      {
        keys, deduped := Absorb(log, exits, i, a, keys, deduped);
        a := Step(log, exits, a, i);
      }
      CollectWellFormed(log, exits, |log|);
      openTrades := seq(|keys|, j requires 0 <= j < |keys| && keys[j] in deduped => deduped[keys[j]].trade);
      assert openTrades == Values(log, a);
    }

    /** The start of the strategy loop: initialise the grid and, when that
        succeeds (a spot is given and the gap is non-zero), recover the open
        trades, after which the open trades are what the trade log recovers
        to. */
    method BeginRun(spot: Option<int>, now: int) returns (outcome: InitOutcome)
      modifies this`triggerLog, this`triggerUp, this`triggerDown, this`openTrades
      ensures spot.None? ==> outcome == NoSpot && triggerLog == old(triggerLog)
      ensures spot.Some? && config.initialGap == 0 ==>
                outcome == GapError && triggerLog == old(triggerLog) + DisableEvents(old(triggerLog), now, |old(triggerLog)|)
      ensures outcome != Ready ==>
                triggerUp == old(triggerUp) && triggerDown == old(triggerDown) && openTrades == old(openTrades)
      ensures spot.Some? && config.initialGap != 0 ==>
                var g := InitialGrid(spot.value, config.initialGap);
                && outcome == Ready
                && triggerDown == Some(g.0) && triggerUp == Some(g.1)
                && triggerLog == old(triggerLog) + InitEvents(old(triggerLog), now, g.0, g.1)
                && openTrades == Recover(tradeLog)
      ensures outcome == Ready ==> Consistent() && GridTracked()
    {
      outcome := SetupInitialTriggers(spot, now);
      if outcome == Ready {
        RecoverOpenTrades();
      }
    }

    /** Opening a trade: it joins the open trades and its entry record is
        appended to the trade log. */
    method OpenTrade(trade: Trade, now: int)
      requires trade.entryTime == now && !OpenAt(openTrades, trade.trigger)
      modifies this`openTrades, this`tradeLog
      ensures openTrades == old(openTrades) + [trade]
      ensures tradeLog == old(tradeLog) + [Entry(trade, None)]
      ensures old(Consistent() && Before(tradeLog, now)) ==> Consistent() && Before(tradeLog, now + 1)
      ensures old(UniqueTriggers(openTrades)) ==> UniqueTriggers(openTrades)
    {
      EntryKeepsInvariants(tradeLog, openTrades, trade, now);
      openTrades := openTrades + [trade];
      tradeLog := tradeLog + [Entry(trade, None)];
    }

    /** Advancing the grid after an entry at `level`: the level is marked
        hit, the other level disabled when present, and the two new levels
        one subsequent gap either side of `level` are set up. */
    method AdvanceGrid(level: int, now: int)
      requires Some(level) == triggerUp || Some(level) == triggerDown
      modifies this`triggerLog, this`triggerUp, this`triggerDown
      ensures triggerLog == old(triggerLog) + AdvanceEvents(level, old(triggerUp), old(triggerDown), config.subsequentGap, now)
      ensures triggerUp == Some(level + config.subsequentGap) && triggerDown == Some(level - config.subsequentGap)
      ensures old(GridTracked() && Present(triggerUp) && Present(triggerDown)) && config.subsequentGap != 0 ==> GridTracked()
    {
      var g := config.subsequentGap;
      if GridTracked() && Present(triggerUp) && Present(triggerDown) && g != 0 {
        AdvanceKeepsTwoSetupLevels(triggerLog, triggerUp.value, triggerDown.value, level, g, now);
      }
      triggerLog := triggerLog + [TriggerEvent(now, Hit, level)];
      var other := if Some(level) == triggerUp then triggerDown else triggerUp;
      if Present(other) {
        triggerLog := triggerLog + [TriggerEvent(now, Disabled, other.value)];
      }
      triggerUp := Some(level + g);
      triggerDown := Some(level - g);
      triggerLog := triggerLog + [TriggerEvent(now, Setup, triggerUp.value), TriggerEvent(now, Setup, triggerDown.value)];
    }

    /** One tick of the strategy loop. Without a (non-zero) spot the tick is
        skipped. Otherwise the spot is logged and the grid evaluated; a hit
        on a free level whose combined premium reaches the entry threshold
        opens a trade and advances the grid, and every other case leaves
        trades, trigger log and grid as they were. */
    method DecisionStep(spot: Option<int>, pastCutoff: bool, ce: real, pe: real, now: int) returns (outcome: DecisionOutcome)
      modifies this`spotLog, this`openTrades, this`tradeLog, this`triggerLog, this`triggerUp, this`triggerDown
      ensures !Present(spot) ==> outcome == Idle && spotLog == old(spotLog)
      ensures Present(spot) ==> spotLog == old(spotLog) + [SpotSample(now, spot.value)]
      ensures outcome != Entered ==>
                && openTrades == old(openTrades) && tradeLog == old(tradeLog) && triggerLog == old(triggerLog)
                && triggerUp == old(triggerUp) && triggerDown == old(triggerDown)
      ensures Present(spot) ==>
                var hit := Evaluate(old(triggerUp), old(triggerDown), spot.value, pastCutoff);
                && (hit.None? <==> outcome == NoHit)
                && (hit.Some? && OpenAt(old(openTrades), hit.value) <==> outcome == Occupied)
                && (hit.Some? && !OpenAt(old(openTrades), hit.value) && ce + pe < config.entryThreshold <==> outcome == BelowThreshold)
                && (hit.Some? && !OpenAt(old(openTrades), hit.value) && ce + pe >= config.entryThreshold <==> outcome == Entered)
                && (outcome == Entered ==>
                      var g := config.subsequentGap;
                      var trade := Trade(now, hit.value, spot.value, ce, pe, config, None);
                      && openTrades == old(openTrades) + [trade]
                      && tradeLog == old(tradeLog) + [Entry(trade, None)]
                      && triggerLog == old(triggerLog) + AdvanceEvents(hit.value, old(triggerUp), old(triggerDown), g, now)
                      && triggerUp == Some(hit.value + g) && triggerDown == Some(hit.value - g))
      ensures old(Consistent() && Before(tradeLog, now)) ==> Consistent() && Before(tradeLog, now + 1)
      ensures old(UniqueTriggers(openTrades)) ==> UniqueTriggers(openTrades)
      ensures old(GridTracked() && Present(triggerUp) && Present(triggerDown)) && config.subsequentGap != 0 ==> GridTracked()
    {
      if !Present(spot) {
        return Idle;
      }
      var s := spot.value;
      spotLog := spotLog + [SpotSample(now, s)];
      var hit: Option<int> := None;
      if Present(triggerUp) && s >= triggerUp.value {
        hit := triggerUp;
      } else if Present(triggerDown) && s <= triggerDown.value {
        hit := triggerDown;
      }
      if pastCutoff {
        hit := None;
      }
      if hit.None? {
        return NoHit;
      }
      var level := hit.value;
      if OpenAt(openTrades, level) {
        return Occupied;
      }
      if ce + pe < config.entryThreshold {
        return BelowThreshold;
      }
      OpenTrade(Trade(now, level, s, ce, pe, config, None), now);
      AdvanceGrid(level, now);
      return Entered;
    }

    /** The visit of the open trade at `pos` with quote pair `q`: the trade
        is revised in place, or removed, or left alone, as `VisitTrade`
        says. */
    method Visit(pos: nat, q: LivePair, s: int, lotSize: real, now: int) returns (kept: Option<Trade>)
      requires pos < |openTrades|
      modifies this`openTrades, this`tradeLog, this`liveValues
      ensures var v := VisitTrade(old(openTrades[pos]), q, old(liveValues), s, lotSize, now);
              && kept == v.kept && tradeLog == old(tradeLog) + v.events && liveValues == v.live
              && openTrades == old(openTrades[..pos]) + (if kept.Some? then [kept.value] else []) + old(openTrades[pos + 1..])
    {
      var t := openTrades[pos];
      ghost var t0 := t;
      if q.ce == 0.0 || q.pe == 0.0 {
        assert openTrades == openTrades[..pos] + [t] + openTrades[pos + 1..];
        assert tradeLog == old(tradeLog) + [];
        return Some(t);
      }
      ghost var revision: seq<TradeEvent> := [];
      ghost var v := VisitTrade(t, q, liveValues, s, lotSize, now);
      assert Quoted(q);
      if t.trigger !in liveValues || liveValues[t.trigger] != q {
        liveValues := liveValues[t.trigger := q];
        t := t.(live := Some(q));
        openTrades := openTrades[pos := t];
        tradeLog := tradeLog + [Entry(t, Some(now))];
        revision := [Entry(t, Some(now))];
        assert Changed(t0, q, old(liveValues));
        ExitRuleIgnoresLive(t0, Some(q), q, s, lotSize);
      } else {
        assert !Changed(t0, q, old(liveValues));
        assert liveValues == liveValues[t.trigger := q];
      }
      assert tradeLog == old(tradeLog) + revision;
      if ShouldExit(t, q, s, lotSize) {
        var closing := Exit(t.(live := None), now, q.ce, q.pe, s, Pnl(t, q, lotSize));
        t := t.(live := None);
        tradeLog := tradeLog + [closing];
        assert tradeLog == old(tradeLog) + (revision + [closing]);
        assert v.kept.None?;
        assert |v.events| == |revision| + 1;
        assert v.events[|revision|] == closing;
        assert v.events == revision + [closing];
        openTrades := openTrades[..pos] + openTrades[pos + 1..];
        kept := None;
      } else {
        assert openTrades == old(openTrades[..pos]) + [t] + old(openTrades[pos + 1..]);
        kept := Some(t);
      }
    }

    /** One tick of the monitor loop. Without a (non-zero) spot the tick is
        skipped. Otherwise the spot is logged and each trade open at the
        start of the tick is visited once, with its own quote pair from
        `quotes`: unquoted trades are skipped, a changed pair is written
        into the trade and logged as a revision, and a trade meeting the exit
        rule is logged as closed and removed. */
    method MonitorStep(spot: Option<int>, quotes: seq<LivePair>, lotSize: real, now: int)
      requires |quotes| == |openTrades|
      modifies this`spotLog, this`openTrades, this`tradeLog, this`liveValues
      ensures !Present(spot) ==>
                openTrades == old(openTrades) && tradeLog == old(tradeLog) && liveValues == old(liveValues) && spotLog == old(spotLog)
      ensures Present(spot) ==>
                var r := Pass(old(openTrades), quotes, old(liveValues), spot.value, lotSize, now, |quotes|);
                && openTrades == r.kept && tradeLog == old(tradeLog) + r.events && liveValues == r.live
                && spotLog == old(spotLog) + [SpotSample(now, spot.value)]
      ensures old(Consistent() && Before(tradeLog, now)) ==> Consistent() && Before(tradeLog, now + 1)
      ensures old(UniqueTriggers(openTrades)) ==> UniqueTriggers(openTrades)
    {
      if !Present(spot) {
        return;
      }
      var s := spot.value;
      spotLog := spotLog + [SpotSample(now, s)];
      VisitAll(s, quotes, lotSize, now);
      PassKeepsInvariants(old(tradeLog), old(openTrades), quotes, old(liveValues), s, lotSize, now);
    }

    /** The monitor's loop over a snapshot of the open trades, visiting
        each with its quote; it is the pass `Pass` over the snapshot. */
    method VisitAll(s: int, quotes: seq<LivePair>, lotSize: real, now: int)
      requires |quotes| == |openTrades|
      modifies this`openTrades, this`tradeLog, this`liveValues
      ensures var r := Pass(old(openTrades), quotes, old(liveValues), s, lotSize, now, |quotes|);
              openTrades == r.kept && tradeLog == old(tradeLog) + r.events && liveValues == r.live
    {
      var snapshot := openTrades;
      ghost var live0 := liveValues;
      ghost var log0 := tradeLog;
      ghost var r := PassResult([], [], live0);
      var pos := 0;
      for i := 0 to |snapshot|
        invariant r == Pass(snapshot, quotes, live0, s, lotSize, now, i)
        invariant pos == |r.kept| && openTrades == r.kept + snapshot[i..]
        invariant tradeLog == log0 + r.events && liveValues == r.live
      {
        SplitAt(r.kept, snapshot, i);
        ghost var v := VisitTrade(snapshot[i], quotes[i], r.live, s, lotSize, now);
        var k := Visit(pos, quotes[i], s, lotSize, now);
        ghost var kx := if k.Some? then [k.value] else [];
        assert openTrades == r.kept + kx + snapshot[i + 1..];
        assert log0 + r.events + v.events == log0 + (r.events + v.events);
        r := PassResult(r.kept + kx, r.events + v.events, v.live);
        if k.Some? {
          pos := pos + 1;
        }
      }
      assert openTrades == r.kept by {
        assert snapshot[|snapshot|..] == [];
      }
    }

    /** Starting the strategy's loops; refused when already running. */
    method Start() returns (started: bool)
      modifies this`running, this`persisted, this`strategyThread, this`monitorThread, this`threadsCreated
      ensures (RunStateOf(), started) == Supervisor.Start(old(RunStateOf()))
    {
      if running {
        return false;
      }
      running := true;
      persisted := true;
      strategyThread := Some(threadsCreated);
      monitorThread := Some(threadsCreated + 1);
      threadsCreated := threadsCreated + 2;
      return true;
    }

    /** Stopping the strategy's loops: both flags are cleared. */
    method Stop()
      modifies this`running, this`persisted
      ensures RunStateOf() == Supervisor.Stop(old(RunStateOf()))
    {
      running := false;
      persisted := false;
    }

    /** The supervisor's pass over this strategy, given which of its two
        loop threads are still alive. */
    method Reconcile(strategyAlive: bool, monitorAlive: bool)
      modifies this`running, this`persisted, this`strategyThread, this`monitorThread, this`threadsCreated
      ensures RunStateOf() == Supervisor.Reconciled(old(RunStateOf()), strategyAlive, monitorAlive)
    {
      if persisted && !running {
        var _ := Start();
      } else if !persisted && running {
        Stop();
      } else if persisted && running {
        if strategyThread.Some? && !strategyAlive {
          strategyThread := Some(threadsCreated);
          threadsCreated := threadsCreated + 1;
        }
        if monitorThread.Some? && !monitorAlive {
          monitorThread := Some(threadsCreated);
          threadsCreated := threadsCreated + 1;
        }
      }
    }
  }

  /** Appending the entry record of a trade entered at `now`, on a level no
      open trade occupies, keeps the ledger invariant, the clock ordering and
      the one-trade-per-level invariant. */
  lemma EntryKeepsInvariants(log: seq<TradeEvent>, trades: seq<Trade>, trade: Trade, now: int)
    requires trade.entryTime == now && !OpenAt(trades, trade.trigger)
    ensures Recover(log) == trades && Before(log, now) ==>
              Recover(log + [Entry(trade, None)]) == trades + [trade] && Before(log + [Entry(trade, None)], now + 1)
    ensures UniqueTriggers(trades) ==> UniqueTriggers(trades + [trade])
  {
    if Recover(log) == trades && Before(log, now) {
      RecoverAfterEntry(log, trade, None);
    }
  }

  /** A monitor pass keeps the ledger invariant, the clock ordering and the
      one-trade-per-level invariant. */
  lemma PassKeepsInvariants(log: seq<TradeEvent>, ts: seq<Trade>, qs: seq<LivePair>, live: map<int, LivePair>, spot: int, lotSize: real, now: int)
    requires |ts| == |qs|
    ensures Recover(log) == ts && Before(log, now) ==>
              var r := Pass(ts, qs, live, spot, lotSize, now, |ts|);
              Recover(log + r.events) == r.kept && Before(log + r.events, now + 1)
    ensures UniqueTriggers(ts) ==> UniqueTriggers(Pass(ts, qs, live, spot, lotSize, now, |ts|).kept)
  {
    if Recover(log) == ts && Before(log, now) {
      PassKeepsRecover(log, ts, qs, live, spot, lotSize, now, |ts|);
      assert ts[|ts|..] == [];
      PassBefore(log, ts, qs, live, spot, lotSize, now);
    }
    if UniqueTriggers(ts) {
      PassKeepsTriggersUnique(ts, qs, live, spot, lotSize, now, |ts|);
    }
  }
}
