/** Records shared by the strategy engine: configuration, trigger events,
    trades, trade events and spot samples. Levels and spot prices are whole
    index points; option premiums and profit figures are reals. */
module Types {

  datatype Option<+T> = None | Some(value: T)

  /** The per-strategy configuration, copied into every trade at entry. */
  datatype Config = Config(
    name: string,
    entryThreshold: real,
    exitProfit: real,
    exitMove: int,
    strikeOffset: int,
    initialGap: int,
    subsequentGap: int,
    expiryDate: string,
    cutoffTime: string)

  datatype TriggerStatus = Setup | Hit | Disabled

  /** One line of the trigger log. */
  datatype TriggerEvent = TriggerEvent(time: int, status: TriggerStatus, trigger: int)

  /** A pair of live (call, put) premiums. */
  datatype LivePair = LivePair(ce: real, pe: real)

  /** An open position: the level it was entered at, the entry spot and the
      entry premiums, the configuration in force at entry, and the last live
      premiums recorded for it (absent until the first revision). */
  datatype Trade = Trade(
    entryTime: int,
    trigger: int,
    spot: int,
    ce: real,
    pe: real,
    config: Config,
    live: Option<LivePair>)

  /** A trade's identity: its trigger level and its entry time. */
  datatype Key = Key(trigger: int, entryTime: int)

  function KeyOf(t: Trade): Key {
    Key(t.trigger, t.entryTime)
  }

  /** One line of the trade log. An entry record made at entry time carries
      no `time` field; a revision made by the monitor carries one. */
  datatype TradeEvent =
    | Entry(trade: Trade, time: Option<int>)
    | Exit(trade: Trade, exitTime: int, exitCe: real, exitPe: real, exitSpot: int, pnl: real)

  /** One line of the spot log. */
  datatype SpotSample = SpotSample(time: int, spot: int)

  /** Python truthiness of a level: `None` and `0` both count as absent. */
  predicate Present(level: Option<int>) {
    level.Some? && level.value != 0
  }

  /** Removing the element just after `pre` leaves `pre + rest`. */
  lemma RemoveMiddle<T>(pre: seq<T>, x: T, rest: seq<T>)
    ensures (pre + [x] + rest)[..|pre|] + (pre + [x] + rest)[|pre| + 1..] == pre + rest
  {
    assert (pre + [x] + rest)[..|pre|] == pre;
    assert (pre + [x] + rest)[|pre| + 1..] == rest;
  }

  /** Replacing the element just after `pre`. */
  lemma ReplaceMiddle<T>(pre: seq<T>, x: T, y: T, rest: seq<T>)
    ensures (pre + [x] + rest)[|pre| := y] == pre + [y] + rest
  {
  }
}
