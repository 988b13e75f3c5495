/** The run state of one strategy and the supervisor's reconciliation of
    the persisted "running" flag with the in-memory state and the two loop
    threads. A thread is a handle number; whether it is alive is an input. */
module Supervisor {
  import opened Types

  /** `persisted` is the flag in the status file, `running` the in-memory
      flag; `created` counts the thread handles handed out so far. */
  datatype RunState = RunState(
    persisted: bool,
    running: bool,
    strategyThread: Option<nat>,
    monitorThread: Option<nat>,
    created: nat)

  /** Every handle was handed out before, and the two loops never share one. */
  predicate Valid(s: RunState) {
    && (s.strategyThread.Some? ==> s.strategyThread.value < s.created)
    && (s.monitorThread.Some? ==> s.monitorThread.value < s.created)
    && (s.strategyThread.Some? && s.monitorThread.Some? ==> s.strategyThread != s.monitorThread)
  }

  /** Starting: refused (and nothing changes) when already running;
      otherwise both flags are set and a fresh thread is made for each loop. */
  function Start(s: RunState): (r: (RunState, bool))
    ensures s.running ==> r == (s, false)
    ensures !s.running ==> r.1 && r.0.running && r.0.persisted
    ensures !s.running ==> r.0.strategyThread.Some? && r.0.monitorThread.Some?
                           && r.0.strategyThread.value >= s.created && r.0.monitorThread.value >= s.created
    ensures Valid(s) ==> Valid(r.0)
  {
    if s.running then (s, false)
    else
      (RunState(true, true, Some(s.created), Some(s.created + 1), s.created + 2), true)
  }

  /** Stopping clears both flags; the threads are left to finish. */
  function Stop(s: RunState): (r: RunState)
    ensures !r.running && !r.persisted
    ensures r.strategyThread == s.strategyThread && r.monitorThread == s.monitorThread && r.created == s.created
  {
    s.(running := false, persisted := false)
  }

  /** A fresh thread replaces the strategy loop's thread when there is one
      and it has died. */
  function RestartStrategy(s: RunState, alive: bool): RunState {
    if s.strategyThread.Some? && !alive then s.(strategyThread := Some(s.created), created := s.created + 1) else s
  }

  /** A fresh thread replaces the monitor loop's thread when there is one
      and it has died. */
  function RestartMonitor(s: RunState, alive: bool): RunState {
    if s.monitorThread.Some? && !alive then s.(monitorThread := Some(s.created), created := s.created + 1) else s
  }

  /** One reconciliation of a strategy: start it if the flag is on and it
      is not running, stop it if the flag is off and it is running, restart
      its dead loops if both are on, and leave it alone otherwise. */
  function Reconciled(s: RunState, strategyAlive: bool, monitorAlive: bool): RunState {
    if s.persisted && !s.running then Start(s).0
    else if !s.persisted && s.running then Stop(s)
    else if s.persisted && s.running then RestartMonitor(RestartStrategy(s, strategyAlive), monitorAlive)
    else s
  }

  /** After reconciliation the in-memory flag agrees with the persisted one,
      which reconciliation never changes, and handles stay valid. */
  lemma ReconcileAgrees(s: RunState, strategyAlive: bool, monitorAlive: bool)
    requires Valid(s)
    ensures Reconciled(s, strategyAlive, monitorAlive).running == s.persisted
    ensures Reconciled(s, strategyAlive, monitorAlive).persisted == s.persisted
    ensures Valid(Reconciled(s, strategyAlive, monitorAlive))
  {
  }

  /** With both flags on, exactly the dead loops get a new thread, and each
      new thread is one never handed out before. */
  lemma ReconcileRestartsOnlyDead(s: RunState, strategyAlive: bool, monitorAlive: bool)
    requires Valid(s) && s.persisted && s.running
    ensures var r := Reconciled(s, strategyAlive, monitorAlive);
            && (r.strategyThread != s.strategyThread <==> s.strategyThread.Some? && !strategyAlive)
            && (r.monitorThread != s.monitorThread <==> s.monitorThread.Some? && !monitorAlive)
            && (r.strategyThread != s.strategyThread ==> r.strategyThread.value >= s.created)
            && (r.monitorThread != s.monitorThread ==> r.monitorThread.value >= s.created)
            && r.running && r.persisted
  {
  }

  /** Once reconciled, a strategy whose threads are alive is left alone. */
  lemma ReconcileIdempotent(s: RunState, strategyAlive: bool, monitorAlive: bool)
    ensures Reconciled(Reconciled(s, strategyAlive, monitorAlive), true, true) == Reconciled(s, strategyAlive, monitorAlive)
  {
  }

  /** With the flag off and the strategy not running, nothing changes. */
  lemma ReconcileIdle(s: RunState, strategyAlive: bool, monitorAlive: bool)
    requires !s.persisted && !s.running
    ensures Reconciled(s, strategyAlive, monitorAlive) == s
  {
  }
}
