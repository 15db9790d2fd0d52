# Tick backtester core, modelled in Dafny

This project models the two computational parts of a small forex backtesting tool:

- **The bar aggregator** (`resampler.py`, `resample_to_ohlc`). Quotes (ticks) are grouped into
  fixed intervals aligned to the calendar and labelled by their start. Each interval that holds at
  least one tick becomes one OHLC bar built from the **bid** alone: the first, highest, lowest and
  last bid, and the tick count as volume. Intervals without ticks produce no bar. The default
  interval is one hour (`Resampler.DefaultTimeframe`, 3600 time units of one second).
- **The trade simulation engine** (`backtester.py`).
  - `run_trade_simulation` checks an open position against its stop-loss and take-profit over the
    ticks of the window (previous bar, current bar]. A buy is judged on the bid and a sell on the ask.
    The first tick that reaches a level decides, and the stop is tested before the target on the same
    tick. The exit price is the level itself. The result is STOP_LOSS, TAKE_PROFIT, NO_TICKS (an empty
    window: no price, no time) or TIME_LIMIT (the last tick's price and time).
  - `run_backtest` walks the bars from the second one on, with at most one open position.
    - A stop or target hit closes the position. Otherwise an opposite signal closes it at the bar's
      open (SIGNAL_EXIT). NO_TICKS and TIME_LIMIT never close it.
    - With no position open, a signal of 1 or -1 opens one at the bar's open. This can happen in the
      same bar that just closed a trade.
    - A position still open at the end is not reported.
    - Closed trades get their profit in pips, `(exit - entry) / 0.0001` for a buy and mirrored for a
      sell, and in money, pips × 10 × lots. With no trade closed the result is `None`.

Files:
- `market.dfy` (module `Market`): `Tick`, `Option`, and time order on ticks.
- `resampler.dfy` (module `Resampler`): the aggregator and its proofs.
- `backtester.dfy` (module `Backtester`): the exit check, the state machine, the backtest loop, profit
  columns and their proofs.

Modelling choices:
- Prices are mathematical reals and timestamps are integers.
- The strategy parameters are passed explicitly as `Params(stopLossPips, takeProfitPips, lots)`.
  `DefaultParams` records the values used when nothing is configured (200, 400, 0.1).
- Pip size 0.0001 and pip value 10 per lot are constants, as in the code.
- The per-bar strategy signal is an input (`Candle(bar, signal)`).

`run_trade_simulation` is a first-match search and is modelled as pure functions
(`Window`, `FirstTrigger`, `RunTradeSimulation`). `run_backtest` mutates a position and appends to a
list of trades in a loop. It is modelled as the method `RunBacktest`, whose loop invariant ties
`(position, trades)` to `Replay`, the fold of the one-bar transition `Step`; the loop body is the
method `ProcessBar`, proved equal to `Step`. The lemmas are proved about
`Step` and `Replay`. The resampler is pure and is modelled as functions over sequences.

Behaviour of the code that the model keeps:
- An empty tick window (NO_TICKS) and a TIME_LIMIT result do not close the position
  (backtester.py:57-67). It stays open unless an opposite signal arrives.
- With no closed trade the result is `None` (backtester.py:86-88), modelled as `Option`.
- A signal other than 1 or -1 neither opens nor closes a position (backtester.py:61-62, 70).

## Model

| member | source | states |
|---|---|---|
| `Backtester.Window` | backtester.py:8 | the window is no longer than the tick list and every tick in it has a time strictly after the start and at most the end |
| `Backtester.WindowMembers` | backtester.py:8 | a tick is in the window iff it is one of the input ticks and its time is strictly after the start and at most the end |
| `Backtester.WindowOfConcat` | backtester.py:8-13 | the window keeps the input order of ticks: filtering a concatenation is the concatenation of the filtered parts |
| `Backtester.FirstTrigger` | backtester.py:13-25 | the returned index is the first tick at which a buy's bid or a sell's ask reaches the stop or the target; no earlier tick does; the window length means that no tick does |
| `Backtester.RunTradeSimulation` | backtester.py:6-28 | NO_TICKS iff the window is empty, and exactly then there is no exit price and no exit time; never SIGNAL_EXIT; any exit time lies in (start, end]; STOP_LOSS exits at the stop level and TAKE_PROFIT at the target level; the side defaults to a buy |
| `Backtester.SimulationExitsAtFirstTrigger` | backtester.py:13-25 | when tick k is the first to reach a level, the exit time is tick k's time; the status is STOP_LOSS at the stop price if that tick reaches the stop (checked first), otherwise TAKE_PROFIT at the target price |
| `Backtester.SimulationTimeLimit` | backtester.py:27-28 | TIME_LIMIT iff the window has ticks and none reaches a level; its exit is the last tick's bid (buy) or ask (sell) at that tick's time |
| `Backtester.EntryOnSignal` | backtester.py:69-84 | a bar opens a position iff its signal is 1 (buy) or -1 (sell), at the bar's open and time; with positive distances a buy has stop below and target above the entry, a sell the reverse |
| `Backtester.PlaceLevelsPnl` | backtester.py:74-94 | exiting at the placed stop loses exactly the configured stop distance in pips and exiting at the target gains exactly the target distance, for both sides |
| `Backtester.StepWhenFlat` | backtester.py:69-84 | with no open position a bar records no trade and only opens the position its signal calls for |
| `Backtester.StepKeepsPosition` | backtester.py:57-67 | a NO_TICKS or TIME_LIMIT outcome without an opposite signal leaves the state unchanged: the position is not closed, not replaced and nothing is recorded |
| `Backtester.StepClosesOnLevel` | backtester.py:57-60 | a stop or target reached closes the position with that status, price and time, ahead of any signal, and the same bar then enters on its signal |
| `Backtester.StepClosesOnOppositeSignal` | backtester.py:61-67 | without a level reached, an opposite signal closes the position at the bar's open and time as SIGNAL_EXIT and the same bar opens the opposite position |
| `Backtester.ReplayInvariant` | backtester.py:48-84 | after any number of bars every recorded trade was closed by stop (at the stop price), target (at the target price) or signal, never by NO_TICKS or TIME_LIMIT; every position has stop and target placed per its side; after n bars at most n − 1 trades have closed |
| `Backtester.ReplayAppendsAtMostOne` | backtester.py:52-67 | each bar only appends to the trade list, never rewriting earlier trades, and appends at most one trade |
| `Backtester.ReplayChronology` | backtester.py:48-84 | with bars in ascending time every trade exits strictly after its entry and no later than the current bar; each trade exits no later than the next one enters; the open position entered no earlier than the last exit |
| `Backtester.WithPnl` | backtester.py:90-96 | one profit row per closed trade, in ledger order: row k is trade k's record (its trade, pip profit and money profit) |
| `Backtester.RecordColumns` | backtester.py:92-96 | a row's pip profit is (exit − entry) / 0.0001 for a buy and (entry − exit) / 0.0001 for a sell, and its money profit is that times pip value times lots |
| `Backtester.RecordPnl` | backtester.py:92-96 | for a correctly placed trade, the pip profit is the price move in its favour over 0.0001 and the money profit is its pip profit times pip value times lots; a STOP_LOSS row loses exactly the stop distance and a TAKE_PROFIT row gains exactly the target distance |
| `Backtester.LedgerPnl` | backtester.py:86-96 | for every row of the backtest's ledger, pip profit is the price move in the trade's favour over 0.0001 (whatever closed it), money profit is pips × 10 × lots, stop-loss rows lose exactly the stop distance and take-profit rows gain exactly the target distance |
| `Backtester.ProcessBar` | backtester.py:49-84 | one pass of the loop body yields exactly the specification's one-bar transition `Step`: check the open position, close it on a level or an opposite signal, then enter on the signal when flat |
| `Backtester.RunBacktest` | backtester.py:31-99 | the loop's position and trade list equal the specification `Replay` after every bar; the result is `None` iff no trade closed, otherwise the closed trades with their profit columns |
| `Resampler.BucketStart` | resampler.py:28 | the interval start of a time is a multiple of the interval width, at most the time and more than the time minus the width |
| `Resampler.BucketStartUnique` | resampler.py:28 | any aligned boundary whose interval holds a time is that time's interval start |
| `Resampler.BucketStartMonotonic` | resampler.py:28 | a later tick never falls into an earlier interval |
| `Resampler.Max` | resampler.py:24 | the high is one of the bids and no bid exceeds it |
| `Resampler.Min` | resampler.py:24 | the low is one of the bids and no bid is below it |
| `Resampler.SortByTime` | resampler.py:15-28 | the ticks are put in time order as a permutation of the input |
| `Resampler.SortByTimeKeepsSorted` | resampler.py:15-28 | time-ordered input is left unchanged by the sort |
| `Resampler.Aggregate` | resampler.py:23-43 | bars of time-ordered ticks: none iff no ticks, strictly ascending interval starts, the last bar is the last tick's interval, and every bar is aligned with volume at least 1 and low ≤ open, close ≤ high |
| `Resampler.AggregateMatchesBuckets` | resampler.py:23-43 | each bar is the first, max, min and last bid and the count of exactly the ticks of its interval, and every interval holding a tick has a bar |
| `Resampler.AggregateVolume` | resampler.py:24-28 | the volumes of the bars of time-ordered ticks add up to the number of ticks |
| `Resampler.ResampleToOhlc` | resampler.py:3-45 | (width defaults to one hour, as the timeframe does) at most one bar per tick and none iff no ticks; bars in strictly ascending order of interval start; every bar aligned, non-empty, and with open and close between low and high |
| `Resampler.ResampleVolume` | resampler.py:24-28 | the volumes of all bars add up to the number of input ticks |
| `Resampler.ResampleMatchesBuckets` | resampler.py:23-43 | each bar summarises the bids, in time order, of exactly the ticks of its interval; an interval holding a tick always has a bar |
| `Resampler.ResampleOrderedTicks` | resampler.py:23-43 | for time-ordered input each bar's open and close are the first and last bid of its interval in input order |
| `Resampler.EachTickInExactlyOneBar` | resampler.py:15-28 | every tick lies in the interval [start, start + width) of exactly one bar |

## Left out

- Floating-point rounding: prices and profits are exact reals, so `x * 0.0001 / 0.0001` is exactly `x` here.
- NaN prices are not modelled. In the code, `dropna` removes only the empty intervals, because bids are never missing.
- Timeframe strings: the interval is an integer width. Intervals are aligned to multiples of the width from time 0. This matches pandas' default alignment to midnight of the first day whenever the width divides a day (minutes, hours, 4 hours, a day). Week-anchored and month-start frequencies ('1w', 'MS') are not fixed-width and are not modelled.
- A non-positive interval width is excluded by a precondition. pandas rejects it with an error.
- Resampler.SortByTime: its contract states a time-ordered permutation. It does not state that ticks with equal times keep their input order, which pandas' stable sort guarantees. The definition inserts stably, but that property is not proved.
- The strategy (`strategies.py`, SMA crossover over pandas_ta) is not part of this model. The per-bar signal is an input.
- Progress bar, `print` calls and reading the environment (`os.getenv`) in backtester.py: the parameters are explicit inputs.
- DataFrame mechanics (`iterrows`, boolean masks, `where`, column renaming) are modelled as sequences and records.
- The CLI (`main.py`), data download and terminal connection (`download.py`, `mt5_connector.py`), file analysis (`analyzer.py`) and plotting (`visualizer.py`) are not part of this model. They are I/O around the core.
