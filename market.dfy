/** Shared vocabulary of the market data: quotes (ticks) and an optional value. */
module Market {

  datatype Option<T> = None | Some(value: T)

  /** One quote: a timestamp in integer time units, a bid price and an ask price. */
  datatype Tick = Tick(time: int, bid: real, ask: real)

  /** Ticks in non-decreasing order of time. */
  predicate SortedByTime(ticks: seq<Tick>) {
    forall i, j :: 0 <= i < j < |ticks| ==> ticks[i].time <= ticks[j].time
  }
}
