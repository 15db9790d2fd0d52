/**
 * The trade simulation engine: bars carrying a strategy signal are walked in
 * order with at most one open position; each open position is checked
 * against its stop-loss and take-profit levels over the ticks since the
 * previous bar, and closed trades are collected with their profit and loss.
 */
module Backtester {
  import opened Market
  import Resampler

  /** Price of one pip. */
  const PipSize: real := 0.0001
  /** Money earned per pip for one lot. */
  const PipValuePerLot: real := 10.0

  datatype Side = Buy | Sell

  datatype Status = StopLoss | TakeProfit | NoTicks | TimeLimit | SignalExit

  /** Strategy parameters: stop-loss and take-profit distances in pips, and the trade size in lots. */
  datatype Params = Params(stopLossPips: int, takeProfitPips: int, lots: real)

  /** The values used when none are configured. */
  const DefaultParams := Params(200, 400, 0.1)

  /** A bar with the signal the strategy attached to it: 1 buy, -1 sell, anything else flat. */
  datatype Candle = Candle(bar: Resampler.Bar, signal: int)

  datatype Position = Position(entryPrice: real, entryTime: int, stopLoss: real, takeProfit: real, side: Side)

  datatype ClosedTrade = ClosedTrade(position: Position, exitPrice: real, exitTime: int, status: Status)

  /** Outcome of checking one tick window: no exit price or time exactly when there were no ticks. */
  datatype SimResult = SimResult(status: Status, exitPrice: Option<real>, exitTime: Option<int>)

  /** A closed trade with its profit in pips and in money. */
  datatype TradeRecord = TradeRecord(trade: ClosedTrade, pnlPoints: real, pnlUsd: real)

  // ---------------------------------------------------------------------------
  // Checking one tick window against the exit levels
  // ---------------------------------------------------------------------------

  /** The ticks, in input order, whose time lies in the left-open, right-closed window (after, upTo]. */
  function Window(ticks: seq<Tick>, after: int, upTo: int): (w: seq<Tick>)
    ensures |w| <= |ticks|
    ensures forall i :: 0 <= i < |w| ==> after < w[i].time <= upTo
  {
    if |ticks| == 0 then []
    else
      assert ticks == [ticks[0]] + ticks[1..];
      (if after < ticks[0].time <= upTo then [ticks[0]] else []) + Window(ticks[1..], after, upTo)
  }

  /** The price an exit is judged by: the bid for a buy, the ask for a sell. */
  function PriceFor(t: Tick, side: Side): real {
    if side == Buy then t.bid else t.ask
  }

  predicate HitsStop(price: real, stopLoss: real, side: Side) {
    match side
    case Buy => price <= stopLoss
    case Sell => price >= stopLoss
  }

  predicate HitsTarget(price: real, takeProfit: real, side: Side) {
    match side
    case Buy => price >= takeProfit
    case Sell => price <= takeProfit
  }

  predicate Triggers(t: Tick, stopLoss: real, takeProfit: real, side: Side) {
    var price := PriceFor(t, side);
    HitsStop(price, stopLoss, side) || HitsTarget(price, takeProfit, side)
  }

  /** Index of the first tick of `w` that reaches either level, or |w| if none does. */
  function FirstTrigger(w: seq<Tick>, stopLoss: real, takeProfit: real, side: Side): (k: nat)
    ensures k <= |w|
    ensures forall j :: 0 <= j < k ==> !Triggers(w[j], stopLoss, takeProfit, side)
    ensures k < |w| ==> Triggers(w[k], stopLoss, takeProfit, side)
  {
    if |w| == 0 then 0
    else if Triggers(w[0], stopLoss, takeProfit, side) then 0
    else 1 + FirstTrigger(w[1..], stopLoss, takeProfit, side)
  }

  /**
   * Checks an open position over the ticks of (entryTime, exitTime]. The first
   * tick that reaches a level decides; the stop is tested before the target;
   * the exit price is the level itself. An empty window gives NoTicks without
   * price or time; a window where nothing triggers gives TimeLimit at the last
   * tick. `entryPrice` takes no part in the decision.
   */
  function RunTradeSimulation(ticks: seq<Tick>, entryTime: int, exitTime: int, entryPrice: real,
                              stopLoss: real, takeProfit: real, side: Side := Buy): (r: SimResult)
    ensures r.status != SignalExit
    ensures r.status == NoTicks <==> |Window(ticks, entryTime, exitTime)| == 0
    ensures r.exitPrice.None? <==> r.status == NoTicks
    ensures r.exitTime.None? <==> r.status == NoTicks
    ensures r.exitTime.Some? ==> entryTime < r.exitTime.value <= exitTime
    ensures r.status == StopLoss ==> r.exitPrice == Some(stopLoss)
    ensures r.status == TakeProfit ==> r.exitPrice == Some(takeProfit)
  {
    var w := Window(ticks, entryTime, exitTime);
    if |w| == 0 then SimResult(NoTicks, None, None)
    else
      var k := FirstTrigger(w, stopLoss, takeProfit, side);
      if k < |w| then
        if HitsStop(PriceFor(w[k], side), stopLoss, side) then SimResult(StopLoss, Some(stopLoss), Some(w[k].time))
        else SimResult(TakeProfit, Some(takeProfit), Some(w[k].time))
      else
        var last := w[|w| - 1];
        SimResult(TimeLimit, Some(PriceFor(last, side)), Some(last.time))
  }

  /** `k` is the first tick of `w` to reach a level. */
  predicate IsFirstTrigger(w: seq<Tick>, k: int, stopLoss: real, takeProfit: real, side: Side) {
    && 0 <= k < |w|
    && Triggers(w[k], stopLoss, takeProfit, side)
    && forall j :: 0 <= j < k ==> !Triggers(w[j], stopLoss, takeProfit, side)
  }

  // ---------------------------------------------------------------------------
  // The position state machine
  // ---------------------------------------------------------------------------

  /** Opens a position at `open`: a buy has its stop below and its target above; a sell the reverse. */
  function Place(side: Side, open: real, time: int, p: Params): Position {
    match side
    case Buy =>
      Position(open, time, open - p.stopLossPips as real * PipSize, open + p.takeProfitPips as real * PipSize, Buy)
    case Sell =>
      Position(open, time, open + p.stopLossPips as real * PipSize, open - p.takeProfitPips as real * PipSize, Sell)
  }

  /** The position a bar's signal opens, if any. */
  function Entry(c: Candle, p: Params): Option<Position> {
    if c.signal == 1 then Some(Place(Buy, c.bar.open, c.bar.start, p))
    else if c.signal == -1 then Some(Place(Sell, c.bar.open, c.bar.start, p))
    else None
  }

  predicate IsOpposite(side: Side, signal: int) {
    (side == Buy && signal == -1) || (side == Sell && signal == 1)
  }

  /** How bar `c` closes `pos`, opened before the previous bar at `prevTime`, if it does. */
  function ExitCheck(pos: Position, prevTime: int, c: Candle, ticks: seq<Tick>): Option<ClosedTrade> {
    var r := RunTradeSimulation(ticks, prevTime, c.bar.start, pos.entryPrice, pos.stopLoss, pos.takeProfit, pos.side);
    if r.status == StopLoss || r.status == TakeProfit then
      Some(ClosedTrade(pos, r.exitPrice.value, r.exitTime.value, r.status))
    else if IsOpposite(pos.side, c.signal) then
      Some(ClosedTrade(pos, c.bar.open, c.bar.start, SignalExit))
    else
      None
  }

  /** The engine's state between bars: the open position, if any, and the trades closed so far. */
  datatype State = State(position: Option<Position>, trades: seq<ClosedTrade>)

  /** One bar: first check the open position for an exit, then, with none open, enter on the bar's signal. */
  function Step(s: State, prevTime: int, c: Candle, ticks: seq<Tick>, p: Params): State {
    var closed := if s.position.Some? then ExitCheck(s.position.value, prevTime, c, ticks) else None;
    var held := if closed.Some? then None else s.position;
    var trades := if closed.Some? then s.trades + [closed.value] else s.trades;
    State(if held.None? then Entry(c, p) else held, trades)
  }

  /** The state after the bars before index n have been walked; bar 0 is never traded on. */
  function Replay(candles: seq<Candle>, ticks: seq<Tick>, p: Params, n: nat): State
    requires n <= |candles|
  {
    if n <= 1 then State(None, [])
    else Step(Replay(candles, ticks, p, n - 1), candles[n - 2].bar.start, candles[n - 1], ticks, p)
  }

  /** The trades the walk over all bars closes; a position still open at the end is not among them. */
  function Ledger(candles: seq<Candle>, ticks: seq<Tick>, p: Params): seq<ClosedTrade> {
    Replay(candles, ticks, p, |candles|).trades
  }

  // ---------------------------------------------------------------------------
  // Profit and loss
  // ---------------------------------------------------------------------------

  /** Profit in pips of closing `pos` at `exitPrice`. */
  function PnlPoints(pos: Position, exitPrice: real): real {
    if pos.side == Buy then (exitPrice - pos.entryPrice) / PipSize
    else (pos.entryPrice - exitPrice) / PipSize
  }

  function Record(t: ClosedTrade, p: Params): TradeRecord {
    var points := PnlPoints(t.position, t.exitPrice);
    TradeRecord(t, points, points * PipValue(p))
  }

  /** The trades with their profit columns, in ledger order. */
  function WithPnl(trades: seq<ClosedTrade>, p: Params): (rows: seq<TradeRecord>)
    ensures |rows| == |trades|
    ensures forall k :: 0 <= k < |rows| ==> rows[k] == Record(trades[k], p)
  {
    if |trades| == 0 then [] else [Record(trades[0], p)] + WithPnl(trades[1..], p)
  }

  // ---------------------------------------------------------------------------
  // The backtest loop
  // ---------------------------------------------------------------------------

  /**
   * One pass of the loop body: the open position, if any, is checked over the
   * ticks since the previous bar and closed on a level or an opposite signal;
   * then, with no position open, the bar's signal may open one.
   */
  method ProcessBar(position: Option<Position>, trades: seq<ClosedTrade>, prevTime: int, current: Candle,
                    ticks: seq<Tick>, p: Params)
    returns (position': Option<Position>, trades': seq<ClosedTrade>)
    ensures State(position', trades') == Step(State(position, trades), prevTime, current, ticks, p)
  {
    position', trades' := position, trades;
    var signal := current.signal;
    ghost var closed := if position.Some? then ExitCheck(position.value, prevTime, current, ticks) else None;
    if position.Some? {
      var pos := position.value;
      var r := RunTradeSimulation(ticks, prevTime, current.bar.start,
                                  pos.entryPrice, pos.stopLoss, pos.takeProfit, pos.side);
      if r.status == StopLoss || r.status == TakeProfit {
        trades' := trades + [ClosedTrade(pos, r.exitPrice.value, r.exitTime.value, r.status)];
        position' := None;
      } else if IsOpposite(pos.side, signal) {
        trades' := trades + [ClosedTrade(pos, current.bar.open, current.bar.start, SignalExit)];
        position' := None;
      }
    }
    assert position' == (if closed.Some? then None else position);
    assert trades' == (if closed.Some? then trades + [closed.value] else trades);
    if position'.None? {
      if signal == 1 || signal == -1 {
        var side := if signal == 1 then Buy else Sell;
        position' := Some(Place(side, current.bar.open, current.bar.start, p));
      }
    }
  }

  /**
   * Walks the bars from the second one on, keeping at most one open position,
   * and returns the closed trades with their profit, or None when no trade
   * closed.
   */
  method RunBacktest(candles: seq<Candle>, ticks: seq<Tick>, p: Params) returns (result: Option<seq<TradeRecord>>)
    ensures var ledger := Ledger(candles, ticks, p);
      result == if |ledger| == 0 then None else Some(WithPnl(ledger, p))
  {
    var trades: seq<ClosedTrade> := [];
    var position: Option<Position> := None;
    var i := 1;
    while i < |candles|
      invariant 1 <= i && (i <= |candles| || |candles| == 0)
      invariant State(position, trades) == Replay(candles, ticks, p, if |candles| == 0 then 0 else i)
    {
      position, trades := ProcessBar(position, trades, candles[i - 1].bar.start, candles[i], ticks, p);
      i := i + 1;
    }
    if |trades| == 0 {
      return None;
    }
    result := Some(WithPnl(trades, p));
  }

  // ---------------------------------------------------------------------------
  // The tick window and the exit check
  // ---------------------------------------------------------------------------

  /** A tick is in the window exactly when it is one of the ticks and its time lies in (after, upTo]. */
  lemma {:induction false} WindowMembers(ticks: seq<Tick>, after: int, upTo: int)
    ensures forall t :: t in Window(ticks, after, upTo) <==> t in ticks && after < t.time <= upTo
  {
    if |ticks| > 0 {
      WindowMembers(ticks[1..], after, upTo);
      assert ticks == [ticks[0]] + ticks[1..];
    }
  }

  /** The window keeps the ticks' order: filtering a concatenation concatenates the filtered parts. */
  lemma {:induction false} WindowOfConcat(a: seq<Tick>, b: seq<Tick>, after: int, upTo: int)
    ensures Window(a + b, after, upTo) == Window(a, after, upTo) + Window(b, after, upTo)
  {
    if |a| > 0 {
      var rest := a[1..];
      WindowOfConcat(rest, b, after, upTo);
      assert (a + b)[0] == a[0] && (a + b)[1..] == rest + b;
      var head := if after < a[0].time <= upTo then [a[0]] else [];
      var wr, wb := Window(rest, after, upTo), Window(b, after, upTo);
      assert Window(a + b, after, upTo) == head + (wr + wb);
      assert Window(a, after, upTo) == head + wr;
      assert head + (wr + wb) == (head + wr) + wb;
    } else {
      assert a + b == b;
    }
  }

  /** The first tick of the window to reach a level decides: the stop wins over the target on that tick. */
  lemma SimulationExitsAtFirstTrigger(ticks: seq<Tick>, entryTime: int, exitTime: int, entryPrice: real,
                                      stopLoss: real, takeProfit: real, side: Side, k: int)
    requires IsFirstTrigger(Window(ticks, entryTime, exitTime), k, stopLoss, takeProfit, side)
    ensures var w, r := Window(ticks, entryTime, exitTime),
                        RunTradeSimulation(ticks, entryTime, exitTime, entryPrice, stopLoss, takeProfit, side);
      && r.exitTime == Some(w[k].time)
      && (HitsStop(PriceFor(w[k], side), stopLoss, side) ==> r.status == StopLoss && r.exitPrice == Some(stopLoss))
      && (!HitsStop(PriceFor(w[k], side), stopLoss, side) ==> r.status == TakeProfit && r.exitPrice == Some(takeProfit))
  {
  }

  /**
   * TimeLimit exactly when the window has ticks and none reaches a level; the
   * exit is then the last tick's bid (buy) or ask (sell) at its time.
   */
  lemma SimulationTimeLimit(ticks: seq<Tick>, entryTime: int, exitTime: int, entryPrice: real,
                            stopLoss: real, takeProfit: real, side: Side)
    ensures var w, r := Window(ticks, entryTime, exitTime),
                        RunTradeSimulation(ticks, entryTime, exitTime, entryPrice, stopLoss, takeProfit, side);
      r.status == TimeLimit <==> |w| > 0 && forall j :: 0 <= j < |w| ==> !Triggers(w[j], stopLoss, takeProfit, side)
    ensures var w, r := Window(ticks, entryTime, exitTime),
                        RunTradeSimulation(ticks, entryTime, exitTime, entryPrice, stopLoss, takeProfit, side);
      r.status == TimeLimit ==> r.exitPrice == Some(PriceFor(w[|w| - 1], side)) && r.exitTime == Some(w[|w| - 1].time)
  {
    var w := Window(ticks, entryTime, exitTime);
    var f := FirstTrigger(w, stopLoss, takeProfit, side);
    if |w| > 0 && f < |w| {
      assert Triggers(w[f], stopLoss, takeProfit, side);
    }
  }

  // ---------------------------------------------------------------------------
  // The state machine, one bar at a time
  // ---------------------------------------------------------------------------

  /** With no position open, a bar only enters on its signal. */
  lemma StepWhenFlat(s: State, prevTime: int, c: Candle, ticks: seq<Tick>, p: Params)
    requires s.position.None?
    ensures Step(s, prevTime, c, ticks, p) == State(Entry(c, p), s.trades)
  {
  }

  /**
   * A NoTicks or TimeLimit outcome does not close the position: unless the
   * signal is opposite, the position is carried over unchanged, no trade is
   * recorded and no second position is opened.
   */
  lemma StepKeepsPosition(s: State, prevTime: int, c: Candle, ticks: seq<Tick>, p: Params)
    requires s.position.Some?
    requires var pos := s.position.value;
      RunTradeSimulation(ticks, prevTime, c.bar.start, pos.entryPrice, pos.stopLoss, pos.takeProfit, pos.side).status
        in {NoTicks, TimeLimit}
    requires !IsOpposite(s.position.value.side, c.signal)
    ensures Step(s, prevTime, c, ticks, p) == s
  {
  }

  /**
   * A stop or target reached in the window closes the position at that level
   * and time, before any signal is looked at; the same bar may then enter again.
   */
  lemma StepClosesOnLevel(s: State, prevTime: int, c: Candle, ticks: seq<Tick>, p: Params)
    requires s.position.Some?
    requires var pos := s.position.value;
      RunTradeSimulation(ticks, prevTime, c.bar.start, pos.entryPrice, pos.stopLoss, pos.takeProfit, pos.side).status
        in {StopLoss, TakeProfit}
    ensures var pos := s.position.value;
      var r := RunTradeSimulation(ticks, prevTime, c.bar.start, pos.entryPrice, pos.stopLoss, pos.takeProfit, pos.side);
      Step(s, prevTime, c, ticks, p)
        == State(Entry(c, p), s.trades + [ClosedTrade(pos, r.exitPrice.value, r.exitTime.value, r.status)])
  {
  }

  /**
   * Without a level reached, an opposite signal closes the position at the
   * bar's open and time, and the same bar opens the opposite position.
   */
  lemma StepClosesOnOppositeSignal(s: State, prevTime: int, c: Candle, ticks: seq<Tick>, p: Params)
    requires s.position.Some?
    requires var pos := s.position.value;
      RunTradeSimulation(ticks, prevTime, c.bar.start, pos.entryPrice, pos.stopLoss, pos.takeProfit, pos.side).status
        in {NoTicks, TimeLimit}
    requires IsOpposite(s.position.value.side, c.signal)
    ensures var pos := s.position.value;
      && Step(s, prevTime, c, ticks, p)
           == State(Entry(c, p), s.trades + [ClosedTrade(pos, c.bar.open, c.bar.start, SignalExit)])
      && Entry(c, p).Some? && Entry(c, p).value.side != pos.side
  {
  }

  // ---------------------------------------------------------------------------
  // Invariants of the whole walk
  // ---------------------------------------------------------------------------

  /** The position carries the stop and target its entry price and side call for. */
  predicate Placed(pos: Position, p: Params) {
    pos == Place(pos.side, pos.entryPrice, pos.entryTime, p)
  }

  /** A recorded trade: placed correctly, closed by a level at that level, or by a signal. */
  predicate ValidClose(t: ClosedTrade, p: Params) {
    && Placed(t.position, p)
    && t.status in {StopLoss, TakeProfit, SignalExit}
    && (t.status == StopLoss ==> t.exitPrice == t.position.stopLoss)
    && (t.status == TakeProfit ==> t.exitPrice == t.position.takeProfit)
  }

  /**
   * Every trade the walk records was closed by its stop, its target or an
   * opposite signal (never by NoTicks or TimeLimit), at the level's own price;
   * every position, open or closed, has its stop and target placed per its
   * side; and at most one trade closes per bar.
   */
  lemma {:induction false} ReplayInvariant(candles: seq<Candle>, ticks: seq<Tick>, p: Params, n: nat)
    requires n <= |candles|
    ensures var s := Replay(candles, ticks, p, n);
      && (forall k :: 0 <= k < |s.trades| ==> ValidClose(s.trades[k], p))
      && (s.position.Some? ==> Placed(s.position.value, p))
      && (n >= 1 ==> |s.trades| <= n - 1)
  {
    if n > 1 {
      ReplayInvariant(candles, ticks, p, n - 1);
      var s := Replay(candles, ticks, p, n - 1);
      var c := candles[n - 1];
      assert forall side, open, time :: Placed(Place(side, open, time, p), p);
      if s.position.Some? {
        var pos := s.position.value;
        var r := RunTradeSimulation(ticks, candles[n - 2].bar.start, c.bar.start,
                                    pos.entryPrice, pos.stopLoss, pos.takeProfit, pos.side);
        assert r.status == StopLoss || r.status == TakeProfit || r.status == NoTicks || r.status == TimeLimit;
      }
    }
  }

  /** The walk only appends to the ledger, and at most one trade per bar. */
  lemma ReplayAppendsAtMostOne(candles: seq<Candle>, ticks: seq<Tick>, p: Params, n: nat)
    requires 2 <= n <= |candles|
    ensures var before, after := Replay(candles, ticks, p, n - 1), Replay(candles, ticks, p, n);
      && before.trades <= after.trades
      && |after.trades| <= |before.trades| + 1
  {
  }

  /** Bars in strictly ascending order of time. */
  predicate StrictlyAscending(candles: seq<Candle>) {
    forall j, k :: 0 <= j < k < |candles| ==> candles[j].bar.start < candles[k].bar.start
  }

  /**
   * With bars in ascending time: every trade exits strictly after it entered
   * and no later than the latest bar, each trade exits no later than the next
   * one enters, and the position still open entered after the last exit.
   */
  lemma {:induction false} ReplayChronology(candles: seq<Candle>, ticks: seq<Tick>, p: Params, n: nat)
    requires StrictlyAscending(candles)
    requires 1 <= n <= |candles|
    ensures Chronological(Replay(candles, ticks, p, n), candles[n - 1].bar.start)
  {
    if n > 1 {
      ReplayChronology(candles, ticks, p, n - 1);
      var prev, c := candles[n - 2].bar.start, candles[n - 1];
      assert prev < c.bar.start;
      StepChronology(Replay(candles, ticks, p, n - 1), prev, c, ticks, p);
    }
  }

  /** The trades of `s` are in time order up to `now`, and the open position entered after the last exit. */
  ghost predicate Chronological(s: State, now: int) {
    && (forall k :: 0 <= k < |s.trades| ==> s.trades[k].position.entryTime < s.trades[k].exitTime <= now)
    && (forall k :: 0 <= k < |s.trades| - 1 ==> s.trades[k].exitTime <= s.trades[k + 1].position.entryTime)
    && (s.position.Some? ==> s.position.value.entryTime <= now)
    && (s.position.Some? && |s.trades| > 0 ==> s.trades[|s.trades| - 1].exitTime <= s.position.value.entryTime)
  }

  /** A bar later than `prev` keeps the walk's state in time order, up to that bar. */
  lemma StepChronology(s: State, prev: int, c: Candle, ticks: seq<Tick>, p: Params)
    requires Chronological(s, prev) && prev < c.bar.start
    ensures Chronological(Step(s, prev, c, ticks, p), c.bar.start)
  {
    var now, entry := c.bar.start, Entry(c, p);
    assert entry.Some? ==> entry.value.entryTime == now;
    var closed := if s.position.Some? then ExitCheck(s.position.value, prev, c, ticks) else None;
    if closed.Some? {
      ExitCheckTimes(s.position.value, prev, c, ticks);
      assert Step(s, prev, c, ticks, p) == State(entry, s.trades + [closed.value]);
      ChronologicalClose(s, closed.value, entry, prev, now);
    } else if s.position.Some? {
      assert Step(s, prev, c, ticks, p) == s;
      ChronologicalHold(s, prev, now);
    } else {
      assert Step(s, prev, c, ticks, p) == State(entry, s.trades);
      ChronologicalEnter(s, entry, prev, now);
    }
  }

  /** Closing the open position after `prev` and no later than `now`, then maybe entering at `now`, keeps time order. */
  lemma ChronologicalClose(s: State, t: ClosedTrade, entry: Option<Position>, prev: int, now: int)
    requires Chronological(s, prev) && s.position == Some(t.position)
    requires prev < t.exitTime <= now
    requires entry.Some? ==> entry.value.entryTime == now
    ensures Chronological(State(entry, s.trades + [t]), now)
  {
    var trades := s.trades + [t];
    forall k | 0 <= k < |trades| ensures trades[k].position.entryTime < trades[k].exitTime <= now {
      if k < |s.trades| {
        assert trades[k] == s.trades[k];
      }
    }
    forall k | 0 <= k < |trades| - 1 ensures trades[k].exitTime <= trades[k + 1].position.entryTime {
      assert trades[k] == s.trades[k];
      if k + 1 < |s.trades| {
        assert trades[k + 1] == s.trades[k + 1];
      }
    }
  }

  /** Keeping the open position through a later bar keeps time order. */
  lemma ChronologicalHold(s: State, prev: int, now: int)
    requires Chronological(s, prev) && prev < now
    ensures Chronological(s, now)
  {
  }

  /** With no position open, entering at a later bar keeps time order. */
  lemma ChronologicalEnter(s: State, entry: Option<Position>, prev: int, now: int)
    requires Chronological(s, prev) && prev < now && s.position.None?
    requires entry.Some? ==> entry.value.entryTime == now
    ensures Chronological(State(entry, s.trades), now)
  {
  }

  /** A position closed by a bar is the one checked, and it closes after the previous bar and no later than this one. */
  lemma ExitCheckTimes(pos: Position, prev: int, c: Candle, ticks: seq<Tick>)
    requires prev < c.bar.start
    ensures var closed := ExitCheck(pos, prev, c, ticks);
      closed.Some? ==> closed.value.position == pos && prev < closed.value.exitTime <= c.bar.start
  {
  }

  // ---------------------------------------------------------------------------
  // Profit and loss of the ledger
  // ---------------------------------------------------------------------------

  /**
   * A bar opens a position exactly when its signal is 1 (buy) or -1 (sell),
   * at the bar's open and time; with positive distances a buy's stop lies
   * below the entry and its target above, and a sell's the other way round.
   */
  lemma EntryOnSignal(c: Candle, p: Params)
    ensures Entry(c, p).Some? <==> c.signal == 1 || c.signal == -1
    ensures Entry(c, p).Some? ==>
      var pos := Entry(c, p).value;
      && pos.entryPrice == c.bar.open && pos.entryTime == c.bar.start
      && (pos.side == Buy <==> c.signal == 1)
      && (p.stopLossPips > 0 && p.takeProfitPips > 0 ==>
            if pos.side == Buy then pos.stopLoss < pos.entryPrice < pos.takeProfit
            else pos.takeProfit < pos.entryPrice < pos.stopLoss)
  {
  }

  /** Exiting at the stop loses exactly the stop distance in pips; at the target it gains the target distance. */
  lemma PlaceLevelsPnl(side: Side, open: real, time: int, p: Params)
    ensures var pos := Place(side, open, time, p);
      && PnlPoints(pos, pos.stopLoss) == -(p.stopLossPips as real)
      && PnlPoints(pos, pos.takeProfit) == p.takeProfitPips as real
  {
  }

  /** The money made per pip: pip value times lots. */
  function PipValue(p: Params): real {
    PipValuePerLot * p.lots
  }

  /**
   * A row's pip profit is the price move in pips in the trade's favour (exit
   * minus entry for a buy, entry minus exit for a sell); its money profit is
   * its pip profit times the pip value; a stop-loss
   * trade loses exactly the stop distance and a take-profit trade gains
   * exactly the target distance.
   */
  ghost predicate RowPnlHolds(row: TradeRecord, p: Params) {
    && row.pnlPoints == PnlPoints(row.trade.position, row.trade.exitPrice)
    && row.pnlUsd == row.pnlPoints * PipValue(p)
    && (row.trade.status == StopLoss ==>
          row.pnlPoints == -(p.stopLossPips as real) && row.pnlUsd == -(p.stopLossPips as real) * PipValue(p))
    && (row.trade.status == TakeProfit ==>
          row.pnlPoints == p.takeProfitPips as real && row.pnlUsd == p.takeProfitPips as real * PipValue(p))
  }

  /** The profit columns of one correctly recorded trade. */
  lemma RecordPnl(t: ClosedTrade, p: Params)
    requires ValidClose(t, p)
    ensures Record(t, p).trade == t && RowPnlHolds(Record(t, p), p)
  {
    RecordColumns(t, p);
    ClosedAtLevelPoints(t, p);
    var row := Record(t, p);
    if t.status == StopLoss {
      ScaleEqual(row.pnlPoints, -(p.stopLossPips as real), PipValue(p));
    } else if t.status == TakeProfit {
      ScaleEqual(row.pnlPoints, p.takeProfitPips as real, PipValue(p));
    }
  }

  /** Equal amounts of pips are worth equal money. */
  lemma ScaleEqual(a: real, b: real, v: real)
    requires a == b
    ensures a * v == b * v
  {
  }

  /** Any trade's row: its pip profit is the price move in its favour in pips, its money profit pips times pip value. */
  lemma RecordColumns(t: ClosedTrade, p: Params)
    ensures var row, pos := Record(t, p), t.position;
      && row.trade == t
      && row.pnlPoints == PnlPoints(pos, t.exitPrice)
      && row.pnlPoints == (if pos.side == Buy then (t.exitPrice - pos.entryPrice) / PipSize
                           else (pos.entryPrice - t.exitPrice) / PipSize)
      && row.pnlUsd == row.pnlPoints * PipValue(p)
  {
  }

  /** A correctly placed trade closed at its stop loses the stop distance in pips; at its target it gains the target distance. */
  lemma ClosedAtLevelPoints(t: ClosedTrade, p: Params)
    requires ValidClose(t, p)
    ensures t.status == StopLoss ==> PnlPoints(t.position, t.exitPrice) == -(p.stopLossPips as real)
    ensures t.status == TakeProfit ==> PnlPoints(t.position, t.exitPrice) == p.takeProfitPips as real
  {
    var pos := t.position;
    assert pos == Place(pos.side, pos.entryPrice, pos.entryTime, p);
    PlaceLevelsPnl(pos.side, pos.entryPrice, pos.entryTime, p);
  }

  /**
   * Each row's pip profit is the price move in its favour divided by the pip
   * size, and its money profit is its pip profit times pip value times lots; a
   * stop-loss trade loses exactly the stop distance and a take-profit trade
   * gains exactly the target distance, in pips and in money.
   */
  lemma LedgerPnl(candles: seq<Candle>, ticks: seq<Tick>, p: Params)
    ensures var rows := WithPnl(Ledger(candles, ticks, p), p);
      forall k :: 0 <= k < |rows| ==> RowPnlHolds(rows[k], p)
  {
    var trades := Ledger(candles, ticks, p);
    var rows := WithPnl(trades, p);
    ReplayInvariant(candles, ticks, p, |candles|);
    forall k | 0 <= k < |rows|
      ensures RowPnlHolds(rows[k], p)
    {
      RecordPnl(trades[k], p);
    }
  }
}
