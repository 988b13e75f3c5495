/** The trigger log: an append-only sequence of (time, status, level) events.
    The current status of a level is the status of its most recent event;
    log order stands for time order. */
module TriggerLog {
  import opened Types

  /** Position of the most recent event for `level`, if there is one. */
  function LastIndex(log: seq<TriggerEvent>, level: int): (r: Option<nat>)
    ensures r.Some? ==> r.value < |log| && log[r.value].trigger == level
    ensures r.Some? ==> forall j :: r.value < j < |log| ==> log[j].trigger != level
    ensures r.None? ==> forall j :: 0 <= j < |log| ==> log[j].trigger != level
  {
    if |log| == 0 then None
    else if log[|log| - 1].trigger == level then Some(|log| - 1)
    else LastIndex(log[..|log| - 1], level)
  }

  /** The current status of `level`: that of its last event, or none if the
      level never appears. */
  function LatestStatus(log: seq<TriggerEvent>, level: int): (r: Option<TriggerStatus>)
    ensures r.None? <==> forall j :: 0 <= j < |log| ==> log[j].trigger != level
    ensures r.Some? ==> exists i :: 0 <= i < |log| && log[i].trigger == level && log[i].status == r.value
                                   && forall j :: i < j < |log| ==> log[j].trigger != level
  {
    match LastIndex(log, level)
    case None => None
    case Some(i) => Some(log[i].status)
  }

  /** The levels whose current status is `setup`. */
  function SetupLevels(log: seq<TriggerEvent>): (r: set<int>)
    ensures forall l :: l in r <==> LatestStatus(log, l) == Some(Setup)
  {
    var r := set i | 0 <= i < |log| && LatestStatus(log, log[i].trigger) == Some(Setup) :: log[i].trigger;
    assert forall l :: LatestStatus(log, l) == Some(Setup) ==> l in r by {
      forall l | LatestStatus(log, l) == Some(Setup) ensures l in r {
        var i := LastIndex(log, l).value;
        assert log[i].trigger == l;
      }
    }
    r
  }

  /** Appending one event changes the current status of its own level only. */
  lemma LatestStatusAppend(log: seq<TriggerEvent>, e: TriggerEvent, level: int)
    ensures LatestStatus(log + [e], level) == if e.trigger == level then Some(e.status) else LatestStatus(log, level)
  {
    assert (log + [e])[..|log|] == log;
  }

  /** Appending a block of events: a level the block mentions takes its
      status from the block, any other level keeps its status. */
  lemma {:induction false} LatestStatusConcat(a: seq<TriggerEvent>, b: seq<TriggerEvent>, level: int)
    ensures LatestStatus(a + b, level) == if LastIndex(b, level).Some? then LatestStatus(b, level) else LatestStatus(a, level)
    decreases |b|
  {
    if |b| > 0 {
      var b' := b[..|b| - 1];
      var e := b[|b| - 1];
      assert b == b' + [e];
      assert a + b == (a + b') + [e];
      LatestStatusAppend(a + b', e, level);
      LatestStatusAppend(b', e, level);
      LatestStatusConcat(a, b', level);
    } else {
      assert a + b == a;
    }
  }

  /** The `disabled` events that disabling stale triggers appends after
      reading `log`, for the first `n` rows: one per level whose last event
      is `setup`, in the order of those last events. */
  function DisableEvents(log: seq<TriggerEvent>, now: int, n: nat): (r: seq<TriggerEvent>)
    requires n <= |log|
    ensures forall k :: 0 <= k < |r| ==> r[k] == TriggerEvent(now, Disabled, r[k].trigger)
  {
    if n == 0 then []
    else
      var e := log[n - 1];
      DisableEvents(log, now, n - 1)
      + (if LastIndex(log, e.trigger) == Some(n - 1) && e.status == Setup
         then [TriggerEvent(now, Disabled, e.trigger)] else [])
  }

  /** A level gets a `disabled` event exactly when its last event among the
      first `n` rows is its last event overall and has status `setup`. */
  lemma {:induction false} DisableEventsTargets(log: seq<TriggerEvent>, now: int, n: nat, level: int)
    requires n <= |log|
    ensures LastIndex(DisableEvents(log, now, n), level).Some?
        <==> (LastIndex(log, level).Some? && LastIndex(log, level).value < n && LatestStatus(log, level) == Some(Setup))
  {
    if n > 0 {
      var prev := DisableEvents(log, now, n - 1);
      var e := log[n - 1];
      DisableEventsTargets(log, now, n - 1, level);
      if LastIndex(log, e.trigger) == Some(n - 1) && e.status == Setup {
        var d := TriggerEvent(now, Disabled, e.trigger);
        LatestStatusAppend(prev, d, level);
      } else {
        assert prev + [] == prev;
      }
    }
  }

  /** After the stale triggers are disabled, no level is `setup`, and every
      level that was `setup` has been disabled. */
  lemma DisableClearsSetup(log: seq<TriggerEvent>, now: int)
    ensures SetupLevels(log + DisableEvents(log, now, |log|)) == {}
    ensures forall l :: l in SetupLevels(log) ==> LatestStatus(log + DisableEvents(log, now, |log|), l) == Some(Disabled)
  {
    var d := DisableEvents(log, now, |log|);
    forall l ensures LatestStatus(log + d, l) != Some(Setup)
      && (l in SetupLevels(log) ==> LatestStatus(log + d, l) == Some(Disabled))
    {
      LatestStatusConcat(log, d, l);
      DisableEventsTargets(log, now, |log|, l);
      if LastIndex(d, l).Some? {
        assert d[LastIndex(d, l).value].status == Disabled;
      }
    }
  }
}
