/** The trade ledger's recovery rule: the open working set rebuilt from the
    trade log, and the facts that keep the in-memory set equal to it as the
    decision and monitor steps append entries, revisions and exits. */
module Ledger {
  import opened Types

  /** The revision time of a record: its `time` field, defaulting to the
      trade's entry time. */
  function RevisionTime(e: TradeEvent): int {
    if e.Entry? && e.time.Some? then e.time.value else e.trade.entryTime
  }

  function EventKey(e: TradeEvent): Key {
    KeyOf(e.trade)
  }

  /** The identities that have an `exit` record anywhere in the log. */
  function Exits(log: seq<TradeEvent>): set<Key> {
    set i | 0 <= i < |log| && log[i].Exit? :: EventKey(log[i])
  }

  /** An identity is open when it has an `entry` record and no `exit` record. */
  ghost predicate IsOpen(log: seq<TradeEvent>, k: Key) {
    (exists i :: 0 <= i < |log| && log[i].Entry? && EventKey(log[i]) == k) && k !in Exits(log)
  }

  /** `log[p]` is the revision recovery keeps for `k` among the first `n`
      records: an entry for `k` whose revision time no other entry for `k`
      exceeds, and which no earlier entry for `k` ties. */
  ghost predicate IsLatest(log: seq<TradeEvent>, k: Key, p: nat, n: nat)
    requires n <= |log|
  {
    && p < n && EntryFor(log, k, p)
    && (forall j {:trigger EntryFor(log, k, j)} :: 0 <= j < n && EntryFor(log, k, j) ==> RevisionTime(log[j]) <= RevisionTime(log[p]))
    && (forall j {:trigger EntryFor(log, k, j)} :: 0 <= j < p && EntryFor(log, k, j) ==> RevisionTime(log[j]) < RevisionTime(log[p]))
  }

  /** The record at `j` is an entry for identity `k`. */
  predicate EntryFor(log: seq<TradeEvent>, k: Key, j: nat)
    requires j < |log|
  {
    log[j].Entry? && EventKey(log[j]) == k
  }

  /** The state of recovery's dictionary: the identities in insertion order
      and, for each, the position of the record it currently holds. */
  datatype Acc = Acc(keys: seq<Key>, pos: map<Key, nat>)

  predicate Distinct(keys: seq<Key>) {
    forall i, j :: 0 <= i < j < |keys| ==> keys[i] != keys[j]
  }

  /** Every identity in the dictionary is in its key order, and back. */
  ghost predicate SameKeys(a: Acc) {
    forall k :: k in a.pos <==> k in a.keys
  }

  /** Every held record is an entry, among the first `n`, for its own
      identity, and that identity has no exit. */
  ghost predicate HeldAreEntries(log: seq<TradeEvent>, exits: set<Key>, a: Acc, n: nat) {
    forall k :: k in a.pos ==> a.pos[k] < n && n <= |log| && log[a.pos[k]].Entry? && EventKey(log[a.pos[k]]) == k && k !in exits
  }

  /** Every entry among the first `n` whose identity has no exit is in the
      dictionary. */
  ghost predicate Complete(log: seq<TradeEvent>, exits: set<Key>, a: Acc, n: nat)
    requires n <= |log|
  {
    forall j {:trigger OpenEntryAt(log, exits, j)} :: 0 <= j < n && OpenEntryAt(log, exits, j) ==> EventKey(log[j]) in a.pos
  }

  /** The record at `j` is an entry whose identity has no exit. */
  predicate OpenEntryAt(log: seq<TradeEvent>, exits: set<Key>, j: nat)
    requires j < |log|
  {
    log[j].Entry? && EventKey(log[j]) !in exits
  }

  /** Recovery's loop over the first `n` records: an entry whose identity is
      not exited is inserted when new, and replaces the held record only when
      its revision time is strictly greater. */
  function Collect(log: seq<TradeEvent>, exits: set<Key>, n: nat): (a: Acc)
    requires n <= |log|
  {
    if n == 0 then Acc([], map[])
    else Step(log, exits, Collect(log, exits, n - 1), n - 1)
  }

  /** The invariant of recovery's loop holds after every record. */
  lemma CollectWellFormed(log: seq<TradeEvent>, exits: set<Key>, n: nat)
    requires n <= |log|
    ensures Distinct(Collect(log, exits, n).keys) && SameKeys(Collect(log, exits, n))
    ensures HeldAreEntries(log, exits, Collect(log, exits, n), n) && Complete(log, exits, Collect(log, exits, n), n)
  {
    CollectKeysDistinct(log, exits, n);
    CollectHeldAreEntries(log, exits, n);
    CollectComplete(log, exits, n);
  }

  lemma {:induction false} CollectKeysDistinct(log: seq<TradeEvent>, exits: set<Key>, n: nat)
    requires n <= |log|
    ensures Distinct(Collect(log, exits, n).keys) && SameKeys(Collect(log, exits, n))
  {
    if n > 0 {
      CollectKeysDistinct(log, exits, n - 1);
      StepKeepsKeysDistinct(log, exits, Collect(log, exits, n - 1), n - 1);
    }
  }

  lemma {:induction false} CollectHeldAreEntries(log: seq<TradeEvent>, exits: set<Key>, n: nat)
    requires n <= |log|
    ensures HeldAreEntries(log, exits, Collect(log, exits, n), n)
  {
    if n > 0 {
      CollectHeldAreEntries(log, exits, n - 1);
      StepKeepsHeldAreEntries(log, exits, Collect(log, exits, n - 1), n - 1);
    }
  }

  lemma {:induction false} CollectComplete(log: seq<TradeEvent>, exits: set<Key>, n: nat)
    requires n <= |log|
    ensures Complete(log, exits, Collect(log, exits, n), n)
  {
    if n > 0 {
      CollectComplete(log, exits, n - 1);
      StepKeepsComplete(log, exits, Collect(log, exits, n - 1), n - 1);
    }
  }

  /** One iteration of recovery's loop, on the record at `i`. */
  function Step(log: seq<TradeEvent>, exits: set<Key>, a: Acc, i: nat): Acc
    requires i < |log|
  {
    var e := log[i];
    var k := EventKey(e);
    if e.Entry? && k !in exits then
      if k !in a.pos then Acc(a.keys + [k], a.pos[k := i])
      else if a.pos[k] < |log| && RevisionTime(e) > RevisionTime(log[a.pos[k]]) then Acc(a.keys, a.pos[k := i])
      else a
    else a
  }

  lemma StepKeepsKeysDistinct(log: seq<TradeEvent>, exits: set<Key>, a: Acc, i: nat)
    requires i < |log| && Distinct(a.keys) && SameKeys(a)
    ensures Distinct(Step(log, exits, a, i).keys) && SameKeys(Step(log, exits, a, i))
  {
    var e := log[i];
    var k := EventKey(e);
    var a' := Step(log, exits, a, i);
    if e.Entry? && k !in exits && k !in a.pos {
      assert k !in a.keys;
      assert a'.keys == a.keys + [k];
      assert forall k' :: k' in a'.keys <==> k' in a.keys || k' == k;
    }
  }

  lemma StepKeepsHeldAreEntries(log: seq<TradeEvent>, exits: set<Key>, a: Acc, i: nat)
    requires i < |log| && HeldAreEntries(log, exits, a, i)
    ensures HeldAreEntries(log, exits, Step(log, exits, a, i), i + 1)
  {
  }

  lemma StepKeepsComplete(log: seq<TradeEvent>, exits: set<Key>, a: Acc, i: nat)
    requires i < |log| && Complete(log, exits, a, i)
    ensures Complete(log, exits, Step(log, exits, a, i), i + 1)
  {
  }

  /** The held records, as trades, in insertion order. */
  function Values(log: seq<TradeEvent>, a: Acc): (r: seq<Trade>)
    requires forall k :: k in a.keys ==> k in a.pos && a.pos[k] < |log|
    ensures |r| == |a.keys|
  {
    seq(|a.keys|, i requires 0 <= i < |a.keys| => log[a.pos[a.keys[i]]].trade)
  }

  /** The open working set recovered from the whole trade log. */
  function Recover(log: seq<TradeEvent>): seq<Trade> {
    CollectWellFormed(log, Exits(log), |log|);
    Values(log, Collect(log, Exits(log), |log|))
  }

  predicate DistinctKeys(trades: seq<Trade>) {
    forall i, j :: 0 <= i < j < |trades| ==> KeyOf(trades[i]) != KeyOf(trades[j])
  }

  /** No two trades share a trigger level. */
  predicate UniqueTriggers(trades: seq<Trade>) {
    forall i, j :: 0 <= i < j < |trades| ==> trades[i].trigger != trades[j].trigger
  }

  /** Every record held in `a` is its identity's latest revision among the
      first `n` records. */
  ghost predicate AllLatest(log: seq<TradeEvent>, a: Acc, n: nat)
    requires n <= |log|
  {
    forall k :: k in a.pos ==> IsLatest(log, k, a.pos[k], n)
  }

  /** Every record held for an identity is its latest revision so far. */
  lemma {:induction false} CollectKeepsLatest(log: seq<TradeEvent>, exits: set<Key>, n: nat)
    requires n <= |log|
    ensures AllLatest(log, Collect(log, exits, n), n)
  {
    if n > 0 {
      CollectKeepsLatest(log, exits, n - 1);
      CollectWellFormed(log, exits, n - 1);
      StepKeepsLatest(log, exits, Collect(log, exits, n - 1), n - 1);
    }
  }

  lemma StepKeepsLatest(log: seq<TradeEvent>, exits: set<Key>, a: Acc, i: nat)
    requires i < |log| && HeldAreEntries(log, exits, a, i) && Complete(log, exits, a, i)
    requires AllLatest(log, a, i)
    ensures AllLatest(log, Step(log, exits, a, i), i + 1)
  {
    var a' := Step(log, exits, a, i);
    var e := log[i];
    var ke := EventKey(e);
    forall k | k in a'.pos ensures IsLatest(log, k, a'.pos[k], i + 1) {
      if k != ke || !e.Entry? || ke in exits {
        assert a'.pos[k] == a.pos[k];
        assert IsLatest(log, k, a.pos[k], i);
        assert !EntryFor(log, k, i);
      } else if ke !in a.pos {
        assert a'.pos[k] == i;
        forall j | 0 <= j < i && EntryFor(log, k, j) ensures false {
          assert OpenEntryAt(log, exits, j);
        }
      } else {
        assert IsLatest(log, k, a.pos[k], i);
        assert EntryFor(log, k, i);
      }
    }
  }

  /** Some entry for `k` comes before position `j`. */
  ghost predicate SeenBefore(log: seq<TradeEvent>, k: Key, j: nat) {
    exists i {:trigger EntryFor(log, k, i)} :: 0 <= i < j && i < |log| && EntryFor(log, k, i)
  }

  /** `keys` lists identities in the order of their first entry among the
      first `n` records: every entry of a later identity comes after some
      entry of each earlier one. */
  ghost predicate FirstAppearanceOrder(log: seq<TradeEvent>, keys: seq<Key>, n: nat)
    requires n <= |log|
  {
    forall x, y, j {:trigger keys[x], EntryFor(log, keys[y], j)} ::
      0 <= x < y < |keys| && 0 <= j < n && EntryFor(log, keys[y], j) ==> SeenBefore(log, keys[x], j)
  }

  /** Identities enter the dictionary in the order of their first entry. */
  lemma {:induction false} CollectFirstAppearanceOrder(log: seq<TradeEvent>, exits: set<Key>, n: nat)
    requires n <= |log|
    ensures FirstAppearanceOrder(log, Collect(log, exits, n).keys, n)
  {
    if n > 0 {
      var a := Collect(log, exits, n - 1);
      CollectFirstAppearanceOrder(log, exits, n - 1);
      CollectWellFormed(log, exits, n - 1);
      StepKeepsOrder(log, exits, a, n - 1);
      assert Collect(log, exits, n) == Step(log, exits, a, n - 1);
    }
  }

  /** Every earlier entry for an identity without an exit is held. */
  lemma EntriesHeld(log: seq<TradeEvent>, exits: set<Key>, a: Acc, i: nat, k: Key)
    requires i <= |log| && Complete(log, exits, a, i) && k !in exits
    ensures forall j :: 0 <= j < i && EntryFor(log, k, j) ==> k in a.pos
  {
    forall j | 0 <= j < i && EntryFor(log, k, j) ensures k in a.pos {
      assert OpenEntryAt(log, exits, j);
    }
  }

  lemma StepKeepsOrder(log: seq<TradeEvent>, exits: set<Key>, a: Acc, i: nat)
    requires i < |log| && SameKeys(a) && HeldAreEntries(log, exits, a, i) && Complete(log, exits, a, i)
    requires FirstAppearanceOrder(log, a.keys, i)
    ensures FirstAppearanceOrder(log, Step(log, exits, a, i).keys, i + 1)
  {
    var a' := Step(log, exits, a, i);
    if log[i].Entry? && EventKey(log[i]) !in exits {
      EntriesHeld(log, exits, a, i, EventKey(log[i]));
    }
    forall x, y, j | 0 <= x < y < |a'.keys| && 0 <= j < i + 1 && EntryFor(log, a'.keys[y], j)
      ensures SeenBefore(log, a'.keys[x], j)
    {
      var kx := a'.keys[x];
      if y < |a.keys| {
        assert a'.keys[y] == a.keys[y] && kx == a.keys[x];
        if j == i {
          assert a.keys[y] in a.pos;
          var p := a.pos[a.keys[y]];
          assert EntryFor(log, a.keys[y], p) && p < j;
          assert SeenBefore(log, kx, p);
          var w :| 0 <= w < p && w < |log| && EntryFor(log, kx, w);
          assert EntryFor(log, kx, w);
        } else {
          assert SeenBefore(log, kx, j);
        }
      } else {
        assert a'.keys == a.keys + [a'.keys[y]];
        assert kx == a.keys[x] && kx in a.pos;
        var p := a.pos[kx];
        if j < i {
          assert false;
        }
        assert p < j && EntryFor(log, kx, p);
      }
    }
  }

  /** Recovery yields exactly the open identities, each once. */
  lemma RecoverOpenIdentities(log: seq<TradeEvent>)
    ensures DistinctKeys(Recover(log))
    ensures forall k :: IsOpen(log, k) <==> exists i :: 0 <= i < |Recover(log)| && KeyOf(Recover(log)[i]) == k
  {
    var a := Collect(log, Exits(log), |log|);
    CollectWellFormed(log, Exits(log), |log|);
    var r := Recover(log);
    forall k ensures IsOpen(log, k) <==> exists i :: 0 <= i < |r| && KeyOf(r[i]) == k {
      if IsOpen(log, k) {
        var j :| 0 <= j < |log| && log[j].Entry? && EventKey(log[j]) == k;
        assert OpenEntryAt(log, Exits(log), j);
        var i :| 0 <= i < |a.keys| && a.keys[i] == k;
        assert KeyOf(r[i]) == k;
      }
      if exists i :: 0 <= i < |r| && KeyOf(r[i]) == k {
        var i :| 0 <= i < |r| && KeyOf(r[i]) == k;
        assert a.keys[i] in a.pos;
      }
    }
    assert forall i :: 0 <= i < |r| ==> KeyOf(r[i]) == a.keys[i];
  }

  /** No two recovered trades share an identity. */
  lemma RecoverDistinct(log: seq<TradeEvent>)
    ensures DistinctKeys(Recover(log))
  {
    RecoverOpenIdentities(log);
  }

  /** Each recovered trade is the latest revision of its identity (ties go to
      the earlier record), and the trades come in the order in which their
      identities first appear in the log. */
  lemma RecoverPicksLatestRevision(log: seq<TradeEvent>, x: nat)
    requires x < |Recover(log)|
    ensures exists p :: 0 <= p < |log| && IsLatest(log, KeyOf(Recover(log)[x]), p, |log|) && log[p].trade == Recover(log)[x]
    ensures forall y, j :: x < y < |Recover(log)| && 0 <= j < |log| && EntryFor(log, KeyOf(Recover(log)[y]), j)
              ==> SeenBefore(log, KeyOf(Recover(log)[x]), j)
  {
    var a := Collect(log, Exits(log), |log|);
    CollectWellFormed(log, Exits(log), |log|);
    CollectKeepsLatest(log, Exits(log), |log|);
    CollectFirstAppearanceOrder(log, Exits(log), |log|);
    var k := a.keys[x];
    assert k in a.pos;
    var p := a.pos[k];
    assert IsLatest(log, k, p, |log|);
    assert forall y :: 0 <= y < |a.keys| ==> KeyOf(Recover(log)[y]) == a.keys[y];
  }

  /** The latest revision of an identity is unique. */
  lemma LatestIsUnique(log: seq<TradeEvent>, k: Key, p: nat, q: nat)
    requires IsLatest(log, k, p, |log|) && IsLatest(log, k, q, |log|)
    ensures p == q
  {
  }

  /** Recovery's loop over a prefix only reads that prefix. */
  lemma {:induction false} CollectPrefix(log: seq<TradeEvent>, log': seq<TradeEvent>, exits: set<Key>, n: nat)
    requires n <= |log| && n <= |log'| && log[..n] == log'[..n]
    ensures Collect(log, exits, n) == Collect(log', exits, n)
  {
    if n > 0 {
      assert log[n - 1] == log[..n][n - 1] == log'[n - 1];
      assert log[..n - 1] == log'[..n - 1];
      CollectPrefix(log, log', exits, n - 1);
      var a := Collect(log, exits, n - 1);
      CollectWellFormed(log, exits, n - 1);
      forall k | k in a.pos ensures log[a.pos[k]] == log'[a.pos[k]] {
        assert log[a.pos[k]] == log[..n][a.pos[k]];
      }
    }
  }

  /** The recovered trade at position `i` has the `i`-th identity. */
  lemma RecoverKeysAt(log: seq<TradeEvent>)
    ensures |Recover(log)| == |Collect(log, Exits(log), |log|).keys|
    ensures forall i :: 0 <= i < |Recover(log)| ==> KeyOf(Recover(log)[i]) == Collect(log, Exits(log), |log|).keys[i]
  {
    var a := Collect(log, Exits(log), |log|);
    CollectWellFormed(log, Exits(log), |log|);
    forall i | 0 <= i < |a.keys| ensures KeyOf(Recover(log)[i]) == a.keys[i] {
      assert a.keys[i] in a.pos;
    }
  }

  /** Appending an entry record leaves the exits and the state of
      recovery's loop over the old records as they were. */
  lemma EntryAppended(log: seq<TradeEvent>, e: TradeEvent)
    requires e.Entry?
    ensures Exits(log + [e]) == Exits(log)
    ensures Collect(log + [e], Exits(log), |log|) == Collect(log, Exits(log), |log|)
  {
    ExitsAppend(log, e);
    assert (log + [e])[..|log|] == log[..|log|];
    CollectPrefix(log, log + [e], Exits(log), |log|);
  }

  /** An entry for a brand-new identity adds its trade at the end of the
      recovered set. */
  lemma RecoverAfterEntry(log: seq<TradeEvent>, t: Trade, time: Option<int>)
    requires forall i :: 0 <= i < |log| ==> EventKey(log[i]) != KeyOf(t)
    ensures Recover(log + [Entry(t, time)]) == Recover(log) + [t]
  {
    var log' := log + [Entry(t, time)];
    var k := KeyOf(t);
    var n := |log|;
    EntryAppended(log, Entry(t, time));
    var x := Exits(log);
    var a := Collect(log, x, n);
    CollectWellFormed(log, x, n);
    assert k !in x;
    assert k !in a.pos;
    var a' := Collect(log', x, n + 1);
    assert a' == Acc(a.keys + [k], a.pos[k := n]);
    var r := Recover(log);
    var r' := Recover(log');
    assert |r'| == |r| + 1;
    forall i | 0 <= i < |r'| ensures r'[i] == (r + [t])[i] {
      if i < |r| {
        assert a.keys[i] in a.pos && a'.keys[i] == a.keys[i] != k;
        assert log'[a.pos[a.keys[i]]] == log[a.pos[a.keys[i]]];
      }
    }
  }

  /** A revision written later than every earlier record of its identity
      replaces that identity's trade in place. */
  lemma RecoverAfterRevision(log: seq<TradeEvent>, p: nat, t: Trade, now: int)
    requires p < |Recover(log)| && KeyOf(t) == KeyOf(Recover(log)[p])
    requires forall i :: 0 <= i < |log| && EventKey(log[i]) == KeyOf(t) ==> RevisionTime(log[i]) < now
    ensures Recover(log + [Entry(t, Some(now))]) == Recover(log)[p := t]
  {
    var log' := log + [Entry(t, Some(now))];
    var k := KeyOf(t);
    var n := |log|;
    EntryAppended(log, Entry(t, Some(now)));
    var x := Exits(log);
    var a := Collect(log, x, n);
    CollectWellFormed(log, x, n);
    RecoverKeysAt(log);
    assert a.keys[p] == k && k in a.pos;
    assert RevisionTime(log'[n]) > RevisionTime(log'[a.pos[k]]);
    var a' := Collect(log', x, n + 1);
    assert a' == Acc(a.keys, a.pos[k := n]);
    var r := Recover(log);
    var r' := Recover(log');
    forall i | 0 <= i < |r'| ensures r'[i] == r[p := t][i] {
      if i != p {
        assert a.keys[i] in a.pos && a.keys[i] != k;
        assert log'[a.pos[a.keys[i]]] == log[a.pos[a.keys[i]]];
      }
    }
  }

  /** `keys` without `k`. */
  function Without(keys: seq<Key>, k: Key): seq<Key> {
    if |keys| == 0 then []
    else Without(keys[..|keys| - 1], k) + (if keys[|keys| - 1] == k then [] else [keys[|keys| - 1]])
  }

  lemma {:induction false} WithoutAt(keys: seq<Key>, p: nat)
    requires Distinct(keys) && p < |keys|
    ensures Without(keys, keys[p]) == keys[..p] + keys[p + 1..]
    decreases |keys|
  {
    var n := |keys|;
    var k := keys[p];
    if p == n - 1 {
      WithoutAbsent(keys[..n - 1], k);
      assert keys[p + 1..] == [];
    } else {
      WithoutAt(keys[..n - 1], p);
      assert keys[..n - 1][..p] == keys[..p];
      assert keys[..n - 1][p + 1..] + [keys[n - 1]] == keys[p + 1..];
    }
  }

  lemma {:induction false} WithoutAbsent(keys: seq<Key>, k: Key)
    requires k !in keys
    ensures Without(keys, k) == keys
    decreases |keys|
  {
    if |keys| > 0 {
      WithoutAbsent(keys[..|keys| - 1], k);
    }
  }

  /** Marking one more identity as exited removes it from the dictionary
      and changes nothing else. */
  lemma CollectWithExit(log: seq<TradeEvent>, exits: set<Key>, k: Key, n: nat)
    requires n <= |log|
    ensures Collect(log, exits + {k}, n)
         == Acc(Without(Collect(log, exits, n).keys, k), Collect(log, exits, n).pos - {k})
  {
    CollectWithExitPos(log, exits, k, n);
    CollectWithExitKeys(log, exits, k, n);
  }

  lemma {:induction false} CollectWithExitPos(log: seq<TradeEvent>, exits: set<Key>, k: Key, n: nat)
    requires n <= |log|
    ensures Collect(log, exits + {k}, n).pos == Collect(log, exits, n).pos - {k}
  {
    if n > 0 {
      CollectWithExitPos(log, exits, k, n - 1);
      StepWithExitPos(log, exits, k, Collect(log, exits, n - 1), Collect(log, exits + {k}, n - 1), n - 1);
    }
  }

  lemma {:induction false} CollectWithExitKeys(log: seq<TradeEvent>, exits: set<Key>, k: Key, n: nat)
    requires n <= |log|
    ensures Collect(log, exits + {k}, n).keys == Without(Collect(log, exits, n).keys, k)
  {
    if n > 0 {
      CollectWithExitKeys(log, exits, k, n - 1);
      CollectWithExitPos(log, exits, k, n - 1);
      StepWithExitKeys(log, exits, k, Collect(log, exits, n - 1), Collect(log, exits + {k}, n - 1), n - 1);
    }
  }

  lemma StepWithExitPos(log: seq<TradeEvent>, exits: set<Key>, k: Key, a: Acc, b: Acc, i: nat)
    requires i < |log| && b.pos == a.pos - {k}
    ensures Step(log, exits + {k}, b, i).pos == Step(log, exits, a, i).pos - {k}
  {
    var e := log[i];
    var ke := EventKey(e);
    if e.Entry? && ke !in exits {
      if ke == k {
        assert a.pos[k := i] - {k} == a.pos - {k};
      } else {
        assert a.pos[ke := i] - {k} == (a.pos - {k})[ke := i];
      }
    }
  }

  lemma StepWithExitKeys(log: seq<TradeEvent>, exits: set<Key>, k: Key, a: Acc, b: Acc, i: nat)
    requires i < |log| && b.pos == a.pos - {k} && b.keys == Without(a.keys, k)
    ensures Step(log, exits + {k}, b, i).keys == Without(Step(log, exits, a, i).keys, k)
  {
    var ke := EventKey(log[i]);
    assert (a.keys + [ke])[..|a.keys|] == a.keys;
  }

  /** Appending a record adds its identity to the exited set exactly when
      it is an exit record. */
  lemma ExitsAppend(log: seq<TradeEvent>, ev: TradeEvent)
    ensures Exits(log + [ev]) == Exits(log) + (if ev.Exit? then {EventKey(ev)} else {})
  {
    var log' := log + [ev];
    forall k' | k' in Exits(log') ensures k' in Exits(log) + (if ev.Exit? then {EventKey(ev)} else {}) {
      var i :| 0 <= i < |log'| && log'[i].Exit? && EventKey(log'[i]) == k';
      if i < |log| { assert log[i] == log'[i]; }
    }
    forall k' | k' in Exits(log) ensures k' in Exits(log') {
      var i :| 0 <= i < |log| && log[i].Exit? && EventKey(log[i]) == k';
      assert log'[i] == log[i];
    }
    if ev.Exit? {
      assert log'[|log|] == ev;
    }
  }

  /** Recovery's loop passes over an exit record without change. */
  lemma CollectOverExit(log: seq<TradeEvent>, ev: TradeEvent, exits: set<Key>)
    requires ev.Exit?
    ensures Collect(log + [ev], exits, |log| + 1) == Collect(log, exits, |log|)
  {
    assert (log + [ev])[..|log|] == log[..|log|];
    CollectPrefix(log, log + [ev], exits, |log|);
  }

  /** Dropping the identity at position `p` from the dictionary drops the
      `p`-th trade from its values, whatever follows the prefix read. */
  lemma ValuesWithout(log: seq<TradeEvent>, log': seq<TradeEvent>, a: Acc, p: nat)
    requires |log| <= |log'| && log'[..|log|] == log
    requires Distinct(a.keys) && SameKeys(a) && p < |a.keys|
    requires forall k :: k in a.pos ==> a.pos[k] < |log|
    ensures Values(log', Acc(a.keys[..p] + a.keys[p + 1..], a.pos - {a.keys[p]}))
         == Values(log, a)[..p] + Values(log, a)[p + 1..]
  {
    var k := a.keys[p];
    var b := Acc(a.keys[..p] + a.keys[p + 1..], a.pos - {k});
    var r := Values(log, a);
    forall i | 0 <= i < |b.keys| ensures Values(log', b)[i] == (r[..p] + r[p + 1..])[i] {
      var j := if i < p then i else i + 1;
      assert b.keys[i] == a.keys[j] && a.keys[j] in a.pos && a.keys[j] != k;
      assert log'[a.pos[a.keys[j]]] == log[a.pos[a.keys[j]]];
    }
  }

  /** An exit record for a recovered identity removes exactly that trade. */
  lemma RecoverAfterExit(log: seq<TradeEvent>, p: nat, ev: TradeEvent)
    requires ev.Exit? && p < |Recover(log)| && EventKey(ev) == KeyOf(Recover(log)[p])
    ensures Recover(log + [ev]) == Recover(log)[..p] + Recover(log)[p + 1..]
  {
    var k := EventKey(ev);
    var x := Exits(log);
    ExitsAppend(log, ev);
    CollectOverExit(log, ev, x + {k});
    CollectWithExit(log, x, k, |log|);
    var a := Collect(log, x, |log|);
    CollectWellFormed(log, x, |log|);
    RecoverKeysAt(log);
    WithoutAt(a.keys, p);
    ValuesWithout(log, log + [ev], a, p);
  }

  /** Every record of the log was written before `now`: its trade's entry
      time and its revision time are both earlier. */
  predicate Before(log: seq<TradeEvent>, now: int) {
    forall i :: 0 <= i < |log| ==> log[i].trade.entryTime < now && RevisionTime(log[i]) < now
  }

  /** A trade recovered from a log written before `now` was entered before
      `now`, so an identity entered at `now` is new to that log. */
  lemma RecoverBefore(log: seq<TradeEvent>, now: int)
    requires Before(log, now)
    ensures forall t :: t in Recover(log) ==> t.entryTime < now
  {
    forall t | t in Recover(log) ensures t.entryTime < now {
      var x :| 0 <= x < |Recover(log)| && Recover(log)[x] == t;
      RecoverPicksLatestRevision(log, x);
    }
  }

  /** The log that rewrites a working set as plain entry records. */
  function Relog(trades: seq<Trade>): (r: seq<TradeEvent>)
    ensures |r| == |trades|
    ensures forall i :: 0 <= i < |r| ==> r[i] == Entry(trades[i], None)
  {
    seq(|trades|, i requires 0 <= i < |trades| => Entry(trades[i], None))
  }

  /** Recovery is idempotent: writing a recovered working set back out as
      entry records and recovering again gives the same working set. */
  lemma {:induction false} RecoverRelog(trades: seq<Trade>)
    requires DistinctKeys(trades)
    ensures Recover(Relog(trades)) == trades
    decreases |trades|
  {
    if |trades| > 0 {
      var n := |trades| - 1;
      var init := trades[..n];
      RecoverRelog(init);
      assert Relog(trades) == Relog(init) + [Entry(trades[n], None)];
      RecoverAfterEntry(Relog(init), trades[n], None);
      assert init + [trades[n]] == trades;
    } else {
      assert Relog(trades) == [];
    }
  }

  lemma RecoverIdempotent(log: seq<TradeEvent>)
    ensures Recover(Relog(Recover(log))) == Recover(log)
  {
    RecoverOpenIdentities(log);
    RecoverRelog(Recover(log));
  }
}
