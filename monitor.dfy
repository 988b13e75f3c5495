/** One tick of the position monitor, as a pure specification: the P&L and
    spot-move rule, the visit of one open trade, and the pass over a
    snapshot of the open trades. The imperative monitor step is proved
    against `Pass`. */
module Monitor {
  import opened Types
  import opened Ledger

  /** Profit of the short call and put position at the live premiums: the
      combined entry premium minus the combined live premium, times the lot
      size. */
  function Pnl(t: Trade, q: LivePair, lotSize: real): real {
    (t.ce + t.pe - (q.ce + q.pe)) * lotSize
  }

  /** How far the spot has moved from the trade's entry spot. */
  function Move(t: Trade, spot: int): (m: nat)
    ensures m == spot - t.spot || m == t.spot - spot
  {
    if spot >= t.spot then spot - t.spot else t.spot - spot
  }

  /** The exit rule, with the thresholds the trade copied from its
      configuration at entry. */
  predicate ShouldExit(t: Trade, q: LivePair, spot: int, lotSize: real) {
    Pnl(t, q, lotSize) >= t.config.exitProfit || Move(t, spot) >= t.config.exitMove
  }

  /** The P&L and the exit rule do not depend on the live pair stored in
      the trade. */
  lemma ExitRuleIgnoresLive(t: Trade, l: Option<LivePair>, q: LivePair, spot: int, lotSize: real)
    ensures Pnl(t.(live := l), q, lotSize) == Pnl(t, q, lotSize)
    ensures ShouldExit(t.(live := l), q, spot, lotSize) == ShouldExit(t, q, spot, lotSize)
  {
    var u := t.(live := l);
    assert u.ce == t.ce && u.pe == t.pe && u.spot == t.spot && u.config == t.config;
  }

  /** A quote of 0 for either leg means the premium is unavailable. */
  predicate Quoted(q: LivePair) {
    q.ce != 0.0 && q.pe != 0.0
  }

  /** The live pair differs from the one remembered for the trade's
      trigger, or none is remembered yet. */
  function Changed(t: Trade, q: LivePair, live: map<int, LivePair>): bool {
    t.trigger !in live || live[t.trigger] != q
  }

  /** The outcome of visiting one trade: the trade if it stays open, the
      records appended to the trade log, and the remembered pairs. */
  datatype Visit = Visit(kept: Option<Trade>, events: seq<TradeEvent>, live: map<int, LivePair>)

  function VisitTrade(t: Trade, q: LivePair, live: map<int, LivePair>, spot: int, lotSize: real, now: int): (v: Visit)
    ensures !Quoted(q) ==> v == Visit(Some(t), [], live)
    ensures Quoted(q) ==> v.live == live[t.trigger := q]
    ensures v.kept.None? <==> Quoted(q) && ShouldExit(t, q, spot, lotSize)
    ensures v.kept.Some? ==> KeyOf(v.kept.value) == KeyOf(t)
    ensures forall e :: e in v.events ==> EventKey(e) == KeyOf(t)
    ensures forall e :: e in v.events ==> RevisionTime(e) == now || RevisionTime(e) == e.trade.entryTime
  {
    if !Quoted(q) then Visit(Some(t), [], live)
    else
      var changed := Changed(t, q, live);
      var t1 := if changed then t.(live := Some(q)) else t;
      var revision := if changed then [Entry(t1, Some(now))] else [];
      if ShouldExit(t, q, spot, lotSize) then
        var closing := Exit(t1.(live := None), now, q.ce, q.pe, spot, Pnl(t, q, lotSize));
        Visit(None, revision + [closing], live[t.trigger := q])
      else
        Visit(Some(t1), revision, live[t.trigger := q])
  }

  /** The result of visiting the first `n` trades of the snapshot. */
  datatype PassResult = PassResult(kept: seq<Trade>, events: seq<TradeEvent>, live: map<int, LivePair>)

  /** The monitor's pass over the snapshot `ts` with quotes `qs`, one per
      trade, up to position `n`. */
  function Pass(ts: seq<Trade>, qs: seq<LivePair>, live: map<int, LivePair>, spot: int, lotSize: real, now: int, n: nat): (r: PassResult)
    requires n <= |ts| == |qs|
    ensures |r.kept| <= n
  {
    if n == 0 then PassResult([], [], live)
    else
      var p := Pass(ts, qs, live, spot, lotSize, now, n - 1);
      var v := VisitTrade(ts[n - 1], qs[n - 1], p.live, spot, lotSize, now);
      PassResult(p.kept + (if v.kept.Some? then [v.kept.value] else []), p.events + v.events, v.live)
  }

  /** Every record the first `n` visits write belongs to one of the visited
      trades and carries the time of the tick or the trade's entry time. */
  lemma {:induction false} PassEvents(ts: seq<Trade>, qs: seq<LivePair>, live: map<int, LivePair>, spot: int, lotSize: real, now: int, n: nat)
    requires n <= |ts| == |qs|
    ensures forall e :: e in Pass(ts, qs, live, spot, lotSize, now, n).events ==> exists j :: 0 <= j < n && EventKey(e) == KeyOf(ts[j])
    ensures forall e :: e in Pass(ts, qs, live, spot, lotSize, now, n).events ==> RevisionTime(e) == now || RevisionTime(e) == e.trade.entryTime
  {
    if n > 0 {
      PassEvents(ts, qs, live, spot, lotSize, now, n - 1);
      var p := Pass(ts, qs, live, spot, lotSize, now, n - 1);
      var v := VisitTrade(ts[n - 1], qs[n - 1], p.live, spot, lotSize, now);
      assert Pass(ts, qs, live, spot, lotSize, now, n).events == p.events + v.events;
      forall e | e in v.events ensures exists j :: 0 <= j < n && EventKey(e) == KeyOf(ts[j]) {
        assert EventKey(e) == KeyOf(ts[n - 1]);
      }
    }
  }

  /** The worked example: entry premiums summing to 100, a live
      sum of 96 and a lot of 75 give a P&L of 300, which closes the trade at
      an exit-profit threshold of 300 and not at 301 unless the spot moved. */
  lemma PnlExample(t: Trade, spot: int)
    requires t.ce + t.pe == 100.0
    ensures Pnl(t, LivePair(50.0, 46.0), 75.0) == 300.0
    ensures t.config.exitProfit == 300.0 ==> ShouldExit(t, LivePair(50.0, 46.0), spot, 75.0)
    ensures t.config.exitProfit == 301.0 ==>
              (ShouldExit(t, LivePair(50.0, 46.0), spot, 75.0) <==> Move(t, spot) >= t.config.exitMove)
  {
  }

  /** The trade at `i` is closed by this tick: its quote is available and
      the exit rule holds. */
  predicate Closes(ts: seq<Trade>, qs: seq<LivePair>, spot: int, lotSize: real, i: nat)
    requires i < |ts| == |qs|
  {
    Quoted(qs[i]) && ShouldExit(ts[i], qs[i], spot, lotSize)
  }

  function Keys(ts: seq<Trade>): (r: seq<Key>)
    ensures |r| == |ts| && forall i :: 0 <= i < |ts| ==> r[i] == KeyOf(ts[i])
  {
    seq(|ts|, i requires 0 <= i < |ts| => KeyOf(ts[i]))
  }

  /** Reference definition of what stays open: the identities of the first
      `n` snapshot trades that this tick does not close, in snapshot order. */
  function Survivors(ts: seq<Trade>, qs: seq<LivePair>, spot: int, lotSize: real, n: nat): seq<Key>
    requires n <= |ts| == |qs|
  {
    if n == 0 then []
    else Survivors(ts, qs, spot, lotSize, n - 1)
         + (if Closes(ts, qs, spot, lotSize, n - 1) then [] else [KeyOf(ts[n - 1])])
  }

  /** The pass keeps exactly the surviving identities, in snapshot order. */
  lemma {:induction false} PassKeptKeys(ts: seq<Trade>, qs: seq<LivePair>, live: map<int, LivePair>, spot: int, lotSize: real, now: int, n: nat)
    requires n <= |ts| == |qs|
    ensures Keys(Pass(ts, qs, live, spot, lotSize, now, n).kept) == Survivors(ts, qs, spot, lotSize, n)
  {
    if n > 0 {
      PassKeptKeys(ts, qs, live, spot, lotSize, now, n - 1);
      var p := Pass(ts, qs, live, spot, lotSize, now, n - 1);
      var v := VisitTrade(ts[n - 1], qs[n - 1], p.live, spot, lotSize, now);
      var extra := if v.kept.Some? then [v.kept.value] else [];
      assert Keys(p.kept + extra) == Keys(p.kept) + Keys(extra);
    }
  }

  /** With distinct identities in the snapshot, an identity survives
      exactly when its own trade is not closed. */
  lemma {:induction false} SurvivorsExactly(ts: seq<Trade>, qs: seq<LivePair>, spot: int, lotSize: real, n: nat)
    requires n <= |ts| == |qs| && DistinctKeys(ts)
    ensures forall i :: 0 <= i < n ==>
              (KeyOf(ts[i]) in Survivors(ts, qs, spot, lotSize, n) <==> !Closes(ts, qs, spot, lotSize, i))
    ensures forall k :: k in Survivors(ts, qs, spot, lotSize, n) ==> exists i :: 0 <= i < n && k == KeyOf(ts[i])
  {
    if n > 0 {
      SurvivorsExactly(ts, qs, spot, lotSize, n - 1);
      forall i | 0 <= i < n - 1 ensures KeyOf(ts[i]) != KeyOf(ts[n - 1]) {
      }
    }
  }

  /** A trade whose quote is unavailable stays open exactly as it was. */
  lemma {:induction false} PassKeepsUnquoted(ts: seq<Trade>, qs: seq<LivePair>, live: map<int, LivePair>, spot: int, lotSize: real, now: int, n: nat)
    requires n <= |ts| == |qs|
    ensures forall i :: 0 <= i < n && !Quoted(qs[i]) ==> ts[i] in Pass(ts, qs, live, spot, lotSize, now, n).kept
  {
    if n > 0 {
      PassKeepsUnquoted(ts, qs, live, spot, lotSize, now, n - 1);
    }
  }

  /** Visiting the trade at position `|pre|` of the recovered working set
      revises it in place or removes it, and touches nothing else. */
  lemma VisitKeepsRecover(l: seq<TradeEvent>, pre: seq<Trade>, t: Trade, rest: seq<Trade>, q: LivePair, live: map<int, LivePair>, spot: int, lotSize: real, now: int)
    requires Recover(l) == pre + [t] + rest
    requires forall i :: 0 <= i < |l| && EventKey(l[i]) == KeyOf(t) ==> RevisionTime(l[i]) < now
    ensures Recover(l + VisitTrade(t, q, live, spot, lotSize, now).events)
         == pre + (if VisitTrade(t, q, live, spot, lotSize, now).kept.Some? then [VisitTrade(t, q, live, spot, lotSize, now).kept.value] else []) + rest
  {
    var v := VisitTrade(t, q, live, spot, lotSize, now);
    var pos := |pre|;
    assert Recover(l)[pos] == t;
    if Quoted(q) {
      var t1 := if Changed(t, q, live) then t.(live := Some(q)) else t;
      var revision := if Changed(t, q, live) then [Entry(t1, Some(now))] else [];
      var l' := l + revision;
      if Changed(t, q, live) {
        RecoverAfterRevision(l, pos, t1, now);
        ReplaceMiddle(pre, t, t1, rest);
      } else {
        assert l' == l;
      }
      if ShouldExit(t, q, spot, lotSize) {
        var closing := Exit(t1.(live := None), now, q.ce, q.pe, spot, Pnl(t, q, lotSize));
        assert l + v.events == l' + [closing];
        assert Recover(l')[pos] == t1;
        RecoverAfterExit(l', pos, closing);
        RemoveMiddle(pre, t1, rest);
      } else {
        assert l + v.events == l';
      }
    } else {
      assert l + v.events == l;
    }
  }

  /** The ledger invariant survives the pass: if the open trades are what
      the trade log recovers to, and the log was written before `now`, the
      trades kept and the ones not yet visited are what the extended log
      recovers to. */
  lemma {:induction false} PassKeepsRecover(log: seq<TradeEvent>, ts: seq<Trade>, qs: seq<LivePair>, live: map<int, LivePair>, spot: int, lotSize: real, now: int, n: nat)
    requires n <= |ts| == |qs|
    requires Recover(log) == ts && Before(log, now)
    ensures Recover(log + Pass(ts, qs, live, spot, lotSize, now, n).events)
         == Pass(ts, qs, live, spot, lotSize, now, n).kept + ts[n..]
  {
    if n == 0 {
      assert log + [] == log;
    } else {
      PassKeepsRecover(log, ts, qs, live, spot, lotSize, now, n - 1);
      PassStepRecover(log, ts, qs, live, spot, lotSize, now, n);
    }
  }

  /** One more visit after a pass that kept `Recover` in step. */
  lemma PassStepRecover(log: seq<TradeEvent>, ts: seq<Trade>, qs: seq<LivePair>, live: map<int, LivePair>, spot: int, lotSize: real, now: int, n: nat)
    requires 0 < n <= |ts| == |qs|
    requires Recover(log) == ts && Before(log, now)
    requires Recover(log + Pass(ts, qs, live, spot, lotSize, now, n - 1).events)
          == Pass(ts, qs, live, spot, lotSize, now, n - 1).kept + ts[n - 1..]
    ensures Recover(log + Pass(ts, qs, live, spot, lotSize, now, n).events)
         == Pass(ts, qs, live, spot, lotSize, now, n).kept + ts[n..]
  {
    var p := Pass(ts, qs, live, spot, lotSize, now, n - 1);
    RecoverDistinct(log);
    PassSparesLater(ts, qs, live, spot, lotSize, now, n - 1);
    VisitAfterPass(log, p, ts, n, qs[n - 1], spot, lotSize, now);
  }

  lemma VisitAfterPass(log: seq<TradeEvent>, p: PassResult, ts: seq<Trade>, n: nat, q: LivePair, spot: int, lotSize: real, now: int)
    requires 0 < n <= |ts| && Before(log, now)
    requires Recover(log + p.events) == p.kept + ts[n - 1..]
    requires forall e :: e in p.events ==> EventKey(e) != KeyOf(ts[n - 1])
    ensures var v := VisitTrade(ts[n - 1], q, p.live, spot, lotSize, now);
            Recover(log + (p.events + v.events)) == p.kept + (if v.kept.Some? then [v.kept.value] else []) + ts[n..]
  {
    var t := ts[n - 1];
    var l := log + p.events;
    SplitSuffix(p.kept, ts, n);
    OtherKeysBefore(log, p.events, KeyOf(t), now);
    assert Recover(l) == p.kept + [t] + ts[n..];
    VisitKeepsRecover(l, p.kept, t, ts[n..], q, p.live, spot, lotSize, now);
    var v := VisitTrade(t, q, p.live, spot, lotSize, now);
    RecoverRegroup(log, p.events, v.events);
  }

  lemma SplitSuffix(pre: seq<Trade>, ts: seq<Trade>, n: nat)
    requires 0 < n <= |ts|
    ensures pre + ts[n - 1..] == pre + [ts[n - 1]] + ts[n..]
  {
    assert ts[n - 1..] == [ts[n - 1]] + ts[n..];
  }

  lemma RecoverRegroup(log: seq<TradeEvent>, a: seq<TradeEvent>, b: seq<TradeEvent>)
    ensures Recover(log + (a + b)) == Recover((log + a) + b)
  {
    assert log + (a + b) == (log + a) + b;
  }

  /** The first `n` visits write nothing for the identity at `n`. */
  lemma PassSparesLater(ts: seq<Trade>, qs: seq<LivePair>, live: map<int, LivePair>, spot: int, lotSize: real, now: int, n: nat)
    requires n < |ts| == |qs| && DistinctKeys(ts)
    ensures forall e :: e in Pass(ts, qs, live, spot, lotSize, now, n).events ==> EventKey(e) != KeyOf(ts[n])
  {
    PassEvents(ts, qs, live, spot, lotSize, now, n);
  }

  /** Records written before `now`, followed by records for other
      identities, are still before `now` for identity `k`. */
  lemma OtherKeysBefore(log: seq<TradeEvent>, extra: seq<TradeEvent>, k: Key, now: int)
    requires Before(log, now)
    requires forall e :: e in extra ==> EventKey(e) != k
    ensures forall i :: 0 <= i < |log + extra| && EventKey((log + extra)[i]) == k ==> RevisionTime((log + extra)[i]) < now
  {
  }

  /** After the pass the trade log was written no later than `now`. */
  lemma PassBefore(log: seq<TradeEvent>, ts: seq<Trade>, qs: seq<LivePair>, live: map<int, LivePair>, spot: int, lotSize: real, now: int)
    requires |ts| == |qs| && Recover(log) == ts && Before(log, now)
    ensures Before(log + Pass(ts, qs, live, spot, lotSize, now, |ts|).events, now + 1)
  {
    var ev := Pass(ts, qs, live, spot, lotSize, now, |ts|).events;
    PassEvents(ts, qs, live, spot, lotSize, now, |ts|);
    RecoverBefore(log, now);
    forall i | 0 <= i < |log + ev|
      ensures (log + ev)[i].trade.entryTime < now + 1 && RevisionTime((log + ev)[i]) < now + 1
    {
      if i >= |log| {
        var e := ev[i - |log|];
        assert e in ev;
        var j :| 0 <= j < |ts| && EventKey(e) == KeyOf(ts[j]);
        assert ts[j] in Recover(log);
      }
    }
  }

  /** The pass keeps open trades on distinct levels: every
      kept trade sits on the level of a visited one, in snapshot order. */
  lemma {:induction false} PassKeepsTriggersUnique(ts: seq<Trade>, qs: seq<LivePair>, live: map<int, LivePair>, spot: int, lotSize: real, now: int, n: nat)
    requires n <= |ts| == |qs| && UniqueTriggers(ts)
    ensures UniqueTriggers(Pass(ts, qs, live, spot, lotSize, now, n).kept)
    ensures forall x :: 0 <= x < |Pass(ts, qs, live, spot, lotSize, now, n).kept| ==>
              exists j :: 0 <= j < n && Pass(ts, qs, live, spot, lotSize, now, n).kept[x].trigger == ts[j].trigger
  {
    if n > 0 {
      PassKeepsTriggersUnique(ts, qs, live, spot, lotSize, now, n - 1);
      var p := Pass(ts, qs, live, spot, lotSize, now, n - 1);
      var r := Pass(ts, qs, live, spot, lotSize, now, n);
      forall x | 0 <= x < |p.kept| ensures p.kept[x].trigger != ts[n - 1].trigger {
        var j :| 0 <= j < n - 1 && p.kept[x].trigger == ts[j].trigger;
      }
      forall x | 0 <= x < |r.kept| ensures exists j :: 0 <= j < n && r.kept[x].trigger == ts[j].trigger {
        if x < |p.kept| {
          assert r.kept[x] == p.kept[x];
          var j :| 0 <= j < n - 1 && p.kept[x].trigger == ts[j].trigger;
        } else {
          assert r.kept[x].trigger == ts[n - 1].trigger;
        }
      }
    }
  }

  /** Every exit record the monitor writes closes one visited trade at its
      live quotes, with the P&L of the exit rule and the live pair removed,
      and that trade met the exit rule. */
  lemma {:induction false} PassExitsMeetRule(ts: seq<Trade>, qs: seq<LivePair>, live: map<int, LivePair>, spot: int, lotSize: real, now: int, n: nat)
    requires n <= |ts| == |qs|
    ensures forall e :: e in Pass(ts, qs, live, spot, lotSize, now, n).events && e.Exit? ==>
              exists i :: 0 <= i < n && KeyOf(e.trade) == KeyOf(ts[i]) && Quoted(qs[i])
                && ShouldExit(ts[i], qs[i], spot, lotSize)
                && e == Exit(e.trade, now, qs[i].ce, qs[i].pe, spot, Pnl(ts[i], qs[i], lotSize))
                && e.trade.live.None?
  {
    if n > 0 {
      PassExitsMeetRule(ts, qs, live, spot, lotSize, now, n - 1);
      var p := Pass(ts, qs, live, spot, lotSize, now, n - 1);
      var v := VisitTrade(ts[n - 1], qs[n - 1], p.live, spot, lotSize, now);
      forall e | e in v.events && e.Exit?
        ensures KeyOf(e.trade) == KeyOf(ts[n - 1]) && Quoted(qs[n - 1])
                && ShouldExit(ts[n - 1], qs[n - 1], spot, lotSize)
                && e == Exit(e.trade, now, qs[n - 1].ce, qs[n - 1].pe, spot, Pnl(ts[n - 1], qs[n - 1], lotSize))
                && e.trade.live.None?
      {
      }
    }
  }

  /** A revision is written for a quoted trade exactly when its pair differs
      from the one remembered for its trigger (in particular when none is
      remembered); it carries the trade with the new pair, stamped with the
      tick, and a trade that stays open carries that pair too. */
  lemma VisitRevises(t: Trade, q: LivePair, live: map<int, LivePair>, spot: int, lotSize: real, now: int)
    ensures Quoted(q) ==>
              ((exists e :: e in VisitTrade(t, q, live, spot, lotSize, now).events && e.Entry?)
               <==> t.trigger !in live || live[t.trigger] != q)
    ensures Quoted(q) && Changed(t, q, live) ==>
              VisitTrade(t, q, live, spot, lotSize, now).events[0] == Entry(t.(live := Some(q)), Some(now))
    ensures Quoted(q) && VisitTrade(t, q, live, spot, lotSize, now).kept.Some? ==>
              VisitTrade(t, q, live, spot, lotSize, now).kept.value == if Changed(t, q, live) then t.(live := Some(q)) else t
  {
    var v := VisitTrade(t, q, live, spot, lotSize, now);
    if Quoted(q) && Changed(t, q, live) {
      assert v.events[0].Entry?;
    }
  }
}
