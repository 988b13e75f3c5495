/** The trigger grid: the up- and down-level that bound the current
    no-trade zone, how a spot price hits one of them, and the events that
    initialising and advancing the grid append to the trigger log. */
module Grid {
  import opened Types
  import opened TriggerLog

  /** Python's floor division `a // b`: the quotient rounded toward minus
      infinity, for either sign of `b`. */
  function FloorDiv(a: int, b: int): (q: int)
    requires b != 0
    ensures b > 0 ==> q * b <= a < q * b + b
    ensures b < 0 ==> q * b + b < a <= q * b
  {
    if b > 0 then a / b else (-a) / (-b)
  }

  /** The initial grid `(down, up)` around `spot` for a non-zero gap:
      `down = (spot // gap) * gap` and `up = down + gap`. */
  function InitialGrid(spot: int, gap: int): (g: (int, int))
    requires gap != 0
    ensures g.1 == g.0 + gap
    ensures gap > 0 ==> g.0 <= spot < g.1
    ensures gap < 0 ==> g.1 < spot <= g.0
  {
    var base := FloorDiv(spot, gap) * gap;
    (base, base + gap)
  }

  /** The events initialisation appends after disabling the stale levels:
      a `setup` event for `down` and for `up`, each only if that level is
      not already `setup` in `log` (the log as read after disabling). */
  function SetupEvents(log: seq<TriggerEvent>, now: int, down: int, up: int): seq<TriggerEvent> {
    (if LatestStatus(log, down) != Some(Setup) then [TriggerEvent(now, Setup, down)] else [])
    + (if LatestStatus(log, up) != Some(Setup) then [TriggerEvent(now, Setup, up)] else [])
  }

  /** Everything initialisation appends to `log` for the grid `(down, up)`. */
  function InitEvents(log: seq<TriggerEvent>, now: int, down: int, up: int): seq<TriggerEvent> {
    var d := DisableEvents(log, now, |log|);
    d + SetupEvents(log + d, now, down, up)
  }

  /** Initialisation always ends with exactly the two new levels `setup`:
      both `setup` events are written, since no level is `setup` any more
      once the stale ones are disabled. */
  lemma InitLeavesTwoSetupLevels(log: seq<TriggerEvent>, now: int, down: int, up: int)
    requires down != up
    ensures InitEvents(log, now, down, up)
         == DisableEvents(log, now, |log|) + [TriggerEvent(now, Setup, down), TriggerEvent(now, Setup, up)]
    ensures SetupLevels(log + InitEvents(log, now, down, up)) == {down, up}
  {
    var d := DisableEvents(log, now, |log|);
    DisableClearsSetup(log, now);
    assert down !in SetupLevels(log + d) && up !in SetupLevels(log + d);
    var s := [TriggerEvent(now, Setup, down), TriggerEvent(now, Setup, up)];
    assert log + InitEvents(log, now, down, up) == (log + d) + s;
    forall l ensures LatestStatus((log + d) + s, l) == Some(Setup) <==> l == down || l == up {
      LatestStatusConcat(log + d, s, l);
      assert s == [s[0]] + [s[1]];
      LatestStatusAppend([s[0]], s[1], l);
      assert [s[0]] == [] + [s[0]];
      LatestStatusAppend([], s[0], l);
    }
  }

  /** One evaluation of the grid against the rounded spot: the up-level is
      checked first, then the down-level; an absent or zero level never
      hits, and past the daily cutoff nothing hits. */
  function Evaluate(up: Option<int>, down: Option<int>, spot: int, pastCutoff: bool): (hit: Option<int>)
    ensures hit.Some? ==> hit.value != 0 && !pastCutoff
    ensures hit.Some? <==> !pastCutoff && ((Present(up) && spot >= up.value) || (Present(down) && spot <= down.value))
    ensures hit.Some? && Present(up) && spot >= up.value ==> hit == up
    ensures hit.Some? && !(Present(up) && spot >= up.value) ==> hit == down
  {
    var h := if Present(up) && spot >= up.value then up
             else if Present(down) && spot <= down.value then down
             else None;
    if pastCutoff then None else h
  }

  /** With a proper grid `down < up`, a spot strictly inside it hits nothing,
      and a spot on or beyond a level hits that level. */
  lemma EvaluateOnGrid(down: int, up: int, spot: int)
    requires 0 < down < up
    ensures down < spot < up ==> Evaluate(Some(up), Some(down), spot, false) == None
    ensures spot >= up ==> Evaluate(Some(up), Some(down), spot, false) == Some(up)
    ensures spot <= down ==> Evaluate(Some(up), Some(down), spot, false) == Some(down)
  {
  }

  /** The level that is not the one hit: the down-level when the up-level
      was hit, otherwise the up-level. */
  function Other(hit: int, up: Option<int>, down: Option<int>): Option<int> {
    if up == Some(hit) then down else up
  }

  /** The events an entry at `hit` appends to the trigger log, in order:
      `hit`, `disabled` for the other level when it is present, then
      `setup` for `hit + g` and for `hit - g`. */
  function AdvanceEvents(hit: int, up: Option<int>, down: Option<int>, g: int, now: int): (r: seq<TriggerEvent>)
    ensures |r| == if Present(Other(hit, up, down)) then 4 else 3
    ensures r[0] == TriggerEvent(now, Hit, hit)
    ensures r[|r| - 2] == TriggerEvent(now, Setup, hit + g) && r[|r| - 1] == TriggerEvent(now, Setup, hit - g)
    ensures |r| == 4 ==> r[1] == TriggerEvent(now, Disabled, Other(hit, up, down).value)
  {
    var other := Other(hit, up, down);
    [TriggerEvent(now, Hit, hit)]
    + (if Present(other) then [TriggerEvent(now, Disabled, other.value)] else [])
    + [TriggerEvent(now, Setup, hit + g), TriggerEvent(now, Setup, hit - g)]
  }

  /** The grid invariant: when the `setup` levels are exactly the two grid
      levels before an advance at one of them, they are exactly `hit + g` and
      `hit - g` after it. */
  lemma AdvanceKeepsTwoSetupLevels(log: seq<TriggerEvent>, up: int, down: int, hit: int, g: int, now: int)
    requires g != 0 && up != 0 && down != 0
    requires hit == up || hit == down
    requires SetupLevels(log) == {up, down}
    ensures SetupLevels(log + AdvanceEvents(hit, Some(up), Some(down), g, now)) == {hit + g, hit - g}
  {
    var after := SetupLevels(log + AdvanceEvents(hit, Some(up), Some(down), g, now));
    forall l ensures l in after <==> l == hit + g || l == hit - g {
      AdvanceStatus(log, up, down, hit, g, now, l);
    }
    PairByMembers(after, hit + g, hit - g);
  }

  /** A set whose members are exactly `a` and `b` is `{a, b}`. */
  lemma PairByMembers(s: set<int>, a: int, b: int)
    requires forall l :: l in s <==> l == a || l == b
    ensures s == {a, b}
  {
    assert forall l :: l in s <==> l in {a, b};
  }

  /** A level of 0 counts as absent, so an advance never disables it: from
      the grid (down 0, up 100), an advance at 100 with a gap of 50 leaves
      three levels `setup` instead of two. */
  lemma AdvanceFromZeroLevel()
    ensures SetupLevels(ZeroGridLog()) == {0, 100}
    ensures SetupLevels(ZeroGridLog() + AdvanceEvents(100, Some(100), Some(0), 50, 1)) == {0, 50, 150}
  {
    ZeroGridLogLevels();
    var log := ZeroGridLog();
    var ev := AdvanceEvents(100, Some(100), Some(0), 50, 1);
    assert ev == [TriggerEvent(1, Hit, 100), TriggerEvent(1, Setup, 150), TriggerEvent(1, Setup, 50)];
    var after := SetupLevels(log + ev);
    forall l ensures l in after <==> l == 0 || l == 50 || l == 150 {
      LatestStatusConcat(log, ev, l);
      assert ev == ([ev[0]] + [ev[1]]) + [ev[2]];
      LatestStatusAppend([ev[0]] + [ev[1]], ev[2], l);
      LatestStatusAppend([ev[0]], ev[1], l);
      assert [ev[0]] == [] + [ev[0]];
      LatestStatusAppend([], ev[0], l);
    }
    TripleByMembers(after, 0, 50, 150);
  }

  /** A set whose members are exactly `a`, `b` and `c` is `{a, b, c}`. */
  lemma TripleByMembers(s: set<int>, a: int, b: int, c: int)
    requires forall l :: l in s <==> l == a || l == b || l == c
    ensures s == {a, b, c}
  {
    assert forall l :: l in s <==> l in {a, b, c};
  }

  /** A trigger log in which the levels 0 and 100 were set up. */
  function ZeroGridLog(): seq<TriggerEvent> {
    [TriggerEvent(0, Setup, 0), TriggerEvent(0, Setup, 100)]
  }

  lemma ZeroGridLogLevels()
    ensures SetupLevels(ZeroGridLog()) == {0, 100}
  {
    var log := ZeroGridLog();
    forall l ensures l in SetupLevels(log) <==> l == 0 || l == 100 {
      assert log == [log[0]] + [log[1]];
      LatestStatusAppend([log[0]], log[1], l);
      assert [log[0]] == [] + [log[0]];
      LatestStatusAppend([], log[0], l);
    }
    PairByMembers(SetupLevels(log), 0, 100);
  }

  /** One level's status after an advance: `setup` exactly for `hit + g`
      and `hit - g`. */
  lemma AdvanceStatus(log: seq<TriggerEvent>, up: int, down: int, hit: int, g: int, now: int, l: int)
    requires g != 0 && up != 0 && down != 0
    requires hit == up || hit == down
    requires SetupLevels(log) == {up, down}
    ensures LatestStatus(log + AdvanceEvents(hit, Some(up), Some(down), g, now), l) == Some(Setup)
        <==> l == hit + g || l == hit - g
  {
    var ev := AdvanceEvents(hit, Some(up), Some(down), g, now);
    var other := Other(hit, Some(up), Some(down)).value;
    assert {up, down} == {hit, other};
    LatestStatusConcat(log, ev, l);
    assert LatestStatus(log, l) == Some(Setup) <==> l == hit || l == other;
    var a := [ev[0]] + ev[1..|ev| - 2];
    assert ev == (a + [ev[|ev| - 2]]) + [ev[|ev| - 1]];
    LatestStatusAppend(a + [ev[|ev| - 2]], ev[|ev| - 1], l);
    LatestStatusAppend(a, ev[|ev| - 2], l);
    if l != hit + g && l != hit - g {
      assert a == [ev[0]] + [ev[1]];
      LatestStatusAppend([ev[0]], ev[1], l);
      assert [ev[0]] == [] + [ev[0]];
      LatestStatusAppend([], ev[0], l);
    }
  }
}
