/**
 * The bar aggregator: ticks are bucketed into fixed, calendar-aligned
 * intervals labelled by their start, and each non-empty interval becomes one
 * OHLC bar built from the bid prices alone.
 */
module Resampler {
  import opened Market

  /** The default timeframe, one hour, in seconds. */
  const DefaultTimeframe: int := 3600

  /** One OHLC bar: interval start (its index), open/high/low/close bids and tick count. */
  datatype Bar = Bar(start: int, open: real, high: real, low: real, close: real, volume: nat)

  // ---------------------------------------------------------------------------
  // Interval boundaries
  // ---------------------------------------------------------------------------

  /** Start of the interval holding time `t`: the greatest multiple of `width` that is <= t. */
  function BucketStart(t: int, width: int): (s: int)
    requires width > 0
    ensures s <= t < s + width
    ensures s % width == 0
  {
    MultipleMod(t / width, width);
    (t / width) * width
  }

  /** The sign of a multiple of a positive width, and its distance from zero. */
  lemma {:induction false} MultipleSign(q: int, width: int)
    requires width > 0
    ensures q > 0 ==> q * width >= width
    ensures q < 0 ==> q * width <= -width
    ensures q == 0 ==> q * width == 0
    decreases if q >= 0 then q else -q
  {
    if q > 1 {
      MultipleSign(q - 1, width);
      assert q * width == (q - 1) * width + width;
    } else if q < -1 {
      MultipleSign(q + 1, width);
      assert q * width == (q + 1) * width - width;
    }
  }

  lemma MultipleMod(q: int, width: int)
    requires width > 0
    ensures (q * width) % width == 0
  {
    var r := (q * width) % width;
    var d := (q * width) / width;
    assert q * width == d * width + r;
    assert (q - d) * width == r;
    MultipleSign(q - d, width);
  }

  /** An interval boundary is uniquely determined by any time it contains. */
  lemma BucketStartUnique(t: int, width: int, b: int)
    requires width > 0
    requires b % width == 0 && b <= t < b + width
    ensures b == BucketStart(t, width)
  {
    var s := BucketStart(t, width);
    if b < s {
      BoundariesApart(b, s, width);
    } else if s < b {
      BoundariesApart(s, b, width);
    }
  }

  /** Two distinct boundaries are at least `width` apart. */
  lemma BoundariesApart(a: int, b: int, width: int)
    requires width > 0 && a % width == 0 && b % width == 0 && a < b
    ensures a + width <= b
  {
    var qa, qb := a / width, b / width;
    assert a == qa * width && b == qb * width;
    assert b - a == (qb - qa) * width;
    MultipleSign(qb - qa, width);
  }

  /** Later ticks never fall into an earlier interval. */
  lemma BucketStartMonotonic(t1: int, t2: int, width: int)
    requires width > 0 && t1 <= t2
    ensures BucketStart(t1, width) <= BucketStart(t2, width)
  {
    var s1, s2 := BucketStart(t1, width), BucketStart(t2, width);
    if s2 < s1 {
      BoundariesApart(s2, s1, width);
    }
  }

  // ---------------------------------------------------------------------------
  // Reference definition of a bar: the bids of the ticks of one interval
  // ---------------------------------------------------------------------------

  function Max(xs: seq<real>): (m: real)
    requires |xs| > 0
    ensures m in xs
    ensures forall i :: 0 <= i < |xs| ==> xs[i] <= m
  {
    if |xs| == 1 then xs[0]
    else
      var m' := Max(xs[..|xs| - 1]);
      if xs[|xs| - 1] > m' then xs[|xs| - 1] else m'
  }

  function Min(xs: seq<real>): (m: real)
    requires |xs| > 0
    ensures m in xs
    ensures forall i :: 0 <= i < |xs| ==> m <= xs[i]
  {
    if |xs| == 1 then xs[0]
    else
      var m' := Min(xs[..|xs| - 1]);
      if xs[|xs| - 1] < m' then xs[|xs| - 1] else m'
  }

  /** The bids, in order, of the ticks whose interval starts at `start`. */
  function BidsIn(ticks: seq<Tick>, start: int, width: int): (bids: seq<real>)
    requires width > 0
    ensures |bids| <= |ticks|
  {
    if |ticks| == 0 then []
    else
      var last := ticks[|ticks| - 1];
      BidsIn(ticks[..|ticks| - 1], start, width)
        + (if BucketStart(last.time, width) == start then [last.bid] else [])
  }

  /** The bar of a non-empty list of bids: first, max, min, last and count. */
  function Summary(start: int, bids: seq<real>): (b: Bar)
    requires |bids| > 0
  {
    Bar(start, bids[0], Max(bids), Min(bids), bids[|bids| - 1], |bids|)
  }

  /** What every emitted bar satisfies. */
  predicate WellFormed(b: Bar, width: int)
    requires width > 0
  {
    && b.volume >= 1
    && b.low <= b.open <= b.high
    && b.low <= b.close <= b.high
    && b.start % width == 0
  }

  predicate Ascending(bars: seq<Bar>) {
    forall j, k :: 0 <= j < k < |bars| ==> bars[j].start < bars[k].start
  }

  function TotalVolume(bars: seq<Bar>): nat {
    if |bars| == 0 then 0 else TotalVolume(bars[..|bars| - 1]) + bars[|bars| - 1].volume
  }

  // ---------------------------------------------------------------------------
  // The aggregation itself
  // ---------------------------------------------------------------------------

  /** Adds one more bid to a bar. */
  function Absorb(b: Bar, bid: real): Bar {
    b.(high := if bid > b.high then bid else b.high,
       low := if bid < b.low then bid else b.low,
       close := bid,
       volume := b.volume + 1)
  }

  /** Adds tick `t` to the bars built so far: into the last bar if it shares its interval, else as a new bar. */
  function Extend(bars: seq<Bar>, t: Tick, width: int): seq<Bar>
    requires width > 0
  {
    var s := BucketStart(t.time, width);
    if |bars| > 0 && bars[|bars| - 1].start == s then
      bars[..|bars| - 1] + [Absorb(bars[|bars| - 1], t.bid)]
    else
      bars + [Summary(s, [t.bid])]
  }

  /** Extending bars whose last interval is not after the tick's keeps them ascending and well formed. */
  lemma ExtendKeepsShape(bars: seq<Bar>, t: Tick, width: int)
    requires width > 0 && Ascending(bars)
    requires forall k :: 0 <= k < |bars| ==> WellFormed(bars[k], width)
    requires |bars| > 0 ==> bars[|bars| - 1].start <= BucketStart(t.time, width)
    ensures var bars' := Extend(bars, t, width);
      && |bars| <= |bars'| <= |bars| + 1
      && bars'[|bars'| - 1].start == BucketStart(t.time, width)
      && Ascending(bars')
      && forall k :: 0 <= k < |bars'| ==> WellFormed(bars'[k], width)
  {
  }

  /** Bars of time-ordered ticks, one per interval holding at least one tick. */
  function Aggregate(ticks: seq<Tick>, width: int): (bars: seq<Bar>)
    requires width > 0
    requires SortedByTime(ticks)
    ensures |bars| <= |ticks|
    ensures |bars| == 0 <==> |ticks| == 0
    ensures |ticks| > 0 ==> bars[|bars| - 1].start == BucketStart(ticks[|ticks| - 1].time, width)
    ensures Ascending(bars)
    ensures forall k :: 0 <= k < |bars| ==> WellFormed(bars[k], width)
  {
    if |ticks| == 0 then []
    else
      var prefix := ticks[..|ticks| - 1];
      var last := ticks[|ticks| - 1];
      var bars' := Aggregate(prefix, width);
      assert |bars'| > 0 ==> bars'[|bars'| - 1].start <= BucketStart(last.time, width) by {
        if |prefix| > 0 {
          BucketStartMonotonic(prefix[|prefix| - 1].time, last.time, width);
        }
      }
      ExtendKeepsShape(bars', last, width);
      Extend(bars', last, width)
  }

  /** Stable insertion of `t` into time-ordered ticks: after every tick not later than it. */
  function InsertByTime(sorted: seq<Tick>, t: Tick): (r: seq<Tick>)
    requires SortedByTime(sorted)
    ensures SortedByTime(r)
    ensures |r| == |sorted| + 1
    ensures multiset(r) == multiset(sorted) + multiset{t}
    ensures r[|r| - 1] == if |sorted| == 0 || sorted[|sorted| - 1].time <= t.time then t else sorted[|sorted| - 1]
  {
    if |sorted| == 0 || sorted[|sorted| - 1].time <= t.time then
      AppendSorted(sorted, t);
      sorted + [t]
    else
      var prefix, last := sorted[..|sorted| - 1], sorted[|sorted| - 1];
      assert sorted == prefix + [last];
      var r' := InsertByTime(prefix, t);
      assert r'[|r'| - 1].time <= last.time;
      AppendSorted(r', last);
      r' + [last]
  }

  /** Appending a tick not earlier than the last of time-ordered ticks keeps them time-ordered. */
  lemma AppendSorted(ticks: seq<Tick>, t: Tick)
    requires SortedByTime(ticks)
    requires |ticks| == 0 || ticks[|ticks| - 1].time <= t.time
    ensures SortedByTime(ticks + [t])
  {
    var r := ticks + [t];
    forall i, j | 0 <= i < j < |r| ensures r[i].time <= r[j].time {
      if j < |ticks| {
        assert r[i] == ticks[i] && r[j] == ticks[j];
      } else {
        assert r[i] == ticks[i] && ticks[i].time <= ticks[|ticks| - 1].time;
      }
    }
  }

  /** The ticks in order of time, ticks with equal times keeping their input order. */
  function SortByTime(ticks: seq<Tick>): (r: seq<Tick>)
    ensures SortedByTime(r)
    ensures |r| == |ticks|
    ensures multiset(r) == multiset(ticks)
  {
    if |ticks| == 0 then []
    else
      assert ticks == ticks[..|ticks| - 1] + [ticks[|ticks| - 1]];
      InsertByTime(SortByTime(ticks[..|ticks| - 1]), ticks[|ticks| - 1])
  }

  /**
   * Bid-only OHLC bars of `ticks` at interval `width`: the ticks are put in
   * time order, bucketed, and each non-empty interval yields one bar.
   */
  function ResampleToOhlc(ticks: seq<Tick>, width: int := DefaultTimeframe): (bars: seq<Bar>)
    requires width > 0
    ensures |bars| <= |ticks|
    ensures |bars| == 0 <==> |ticks| == 0
    ensures Ascending(bars)
    ensures forall k :: 0 <= k < |bars| ==> WellFormed(bars[k], width)
  {
    Aggregate(SortByTime(ticks), width)
  }

  // ---------------------------------------------------------------------------
  // What the aggregation promises
  // ---------------------------------------------------------------------------

  lemma AbsorbSummary(start: int, bids: seq<real>, bid: real)
    requires |bids| > 0
    ensures Absorb(Summary(start, bids), bid) == Summary(start, bids + [bid])
  {
    var xs := bids + [bid];
    assert xs[..|xs| - 1] == bids;
  }

  /** A tick's own interval has at least that tick's bid. */
  lemma {:induction false} BidsInHoldsTick(ticks: seq<Tick>, width: int, p: int)
    requires width > 0 && 0 <= p < |ticks|
    ensures |BidsIn(ticks, BucketStart(ticks[p].time, width), width)| > 0
  {
    if p < |ticks| - 1 {
      BidsInHoldsTick(ticks[..|ticks| - 1], width, p);
    }
  }

  /** Each bar is the first, max, min, last and count of the bids of the ticks of its interval. */
  ghost predicate Summarises(bars: seq<Bar>, ticks: seq<Tick>, width: int)
    requires width > 0
  {
    forall k :: 0 <= k < |bars| ==>
      && |BidsIn(ticks, bars[k].start, width)| > 0
      && bars[k] == Summary(bars[k].start, BidsIn(ticks, bars[k].start, width))
  }

  /** Every interval holding a tick has a bar. */
  ghost predicate Covers(bars: seq<Bar>, ticks: seq<Tick>, width: int)
    requires width > 0
  {
    forall s :: |BidsIn(ticks, s, width)| > 0 ==> exists k :: 0 <= k < |bars| && bars[k].start == s
  }

  /** `bars` describe `ticks`: one bar per interval holding ticks, summarising their bids. */
  ghost predicate Describes(bars: seq<Bar>, ticks: seq<Tick>, width: int)
    requires width > 0
  {
    Summarises(bars, ticks, width) && Covers(bars, ticks, width)
  }

  /** The last tick's bid is appended to its own interval's bids; the other intervals keep the prefix's bids. */
  lemma BidsInLast(ticks: seq<Tick>, s: int, width: int)
    requires width > 0 && |ticks| > 0
    ensures var last := ticks[|ticks| - 1];
      BidsIn(ticks, s, width) == BidsIn(ticks[..|ticks| - 1], s, width)
        + (if BucketStart(last.time, width) == s then [last.bid] else [])
  {
  }

  /** An interval other than the last tick's has the same bids with or without that tick. */
  lemma BidsInOtherInterval(ticks: seq<Tick>, s: int, width: int)
    requires width > 0 && |ticks| > 0 && s != BucketStart(ticks[|ticks| - 1].time, width)
    ensures BidsIn(ticks, s, width) == BidsIn(ticks[..|ticks| - 1], s, width)
  {
    BidsInLast(ticks, s, width);
    assert BidsIn(ticks[..|ticks| - 1], s, width) + [] == BidsIn(ticks[..|ticks| - 1], s, width);
  }

  /** The last tick, in the last bar's interval, is absorbed into it: the bars still summarise. */
  lemma AbsorbSummarises(bars: seq<Bar>, ticks: seq<Tick>, width: int)
    requires width > 0 && |ticks| > 0
    requires Summarises(bars, ticks[..|ticks| - 1], width) && Ascending(bars)
    requires |bars| > 0 && bars[|bars| - 1].start == BucketStart(ticks[|ticks| - 1].time, width)
    ensures Summarises(Extend(bars, ticks[|ticks| - 1], width), ticks, width)
  {
    var prefix, t := ticks[..|ticks| - 1], ticks[|ticks| - 1];
    var b, m := BucketStart(t.time, width), |bars| - 1;
    var bars' := Extend(bars, t, width);
    assert bars' == bars[..m] + [Absorb(bars[m], t.bid)];
    forall k | 0 <= k < |bars'|
      ensures |BidsIn(ticks, bars'[k].start, width)| > 0
      ensures bars'[k] == Summary(bars'[k].start, BidsIn(ticks, bars'[k].start, width))
    {
      if k < m {
        assert bars'[k] == bars[k] && bars[k].start < b;
        BidsInOtherInterval(ticks, bars[k].start, width);
      } else {
        var bids := BidsIn(prefix, b, width);
        assert bars[m] == Summary(b, bids);
        AbsorbSummary(b, bids, t.bid);
        BidsInLast(ticks, b, width);
        assert bars'[k] == Absorb(bars[m], t.bid);
      }
    }
  }

  /** Covering bars that all start before `b` leave no tick in interval `b`. */
  lemma NoBidsAfterBars(bars: seq<Bar>, ticks: seq<Tick>, b: int, width: int)
    requires width > 0 && Covers(bars, ticks, width) && Ascending(bars)
    requires |bars| > 0 ==> bars[|bars| - 1].start < b
    ensures |BidsIn(ticks, b, width)| == 0
  {
    forall k | 0 <= k < |bars| ensures bars[k].start != b {
      assert bars[k].start <= bars[|bars| - 1].start;
    }
  }

  /** The last tick, in a later interval than every bar's, opens a new bar: the bars still summarise. */
  lemma NewBarSummarises(bars: seq<Bar>, ticks: seq<Tick>, width: int)
    requires width > 0 && |ticks| > 0 && Summarises(bars, ticks[..|ticks| - 1], width) && Ascending(bars)
    requires |bars| > 0 ==> bars[|bars| - 1].start < BucketStart(ticks[|ticks| - 1].time, width)
    requires |BidsIn(ticks[..|ticks| - 1], BucketStart(ticks[|ticks| - 1].time, width), width)| == 0
    ensures Summarises(Extend(bars, ticks[|ticks| - 1], width), ticks, width)
  {
    var prefix, t := ticks[..|ticks| - 1], ticks[|ticks| - 1];
    var b := BucketStart(t.time, width);
    var bars' := Extend(bars, t, width);
    assert bars' == bars + [Summary(b, [t.bid])];
    forall k | 0 <= k < |bars'|
      ensures |BidsIn(ticks, bars'[k].start, width)| > 0
      ensures bars'[k] == Summary(bars'[k].start, BidsIn(ticks, bars'[k].start, width))
    {
      if k < |bars| {
        assert bars'[k] == bars[k];
        assert bars[k].start <= bars[|bars| - 1].start;
        BidsInOtherInterval(ticks, bars[k].start, width);
      } else {
        BidsInLast(ticks, b, width);
        assert BidsIn(ticks, b, width) == [t.bid];
      }
    }
  }

  /** Adding the last tick to bars that cover the earlier ticks covers all of them. */
  lemma ExtendCovers(bars: seq<Bar>, ticks: seq<Tick>, width: int)
    requires width > 0 && |ticks| > 0 && Covers(bars, ticks[..|ticks| - 1], width)
    ensures Covers(Extend(bars, ticks[|ticks| - 1], width), ticks, width)
  {
    var prefix, t := ticks[..|ticks| - 1], ticks[|ticks| - 1];
    var b := BucketStart(t.time, width);
    var bars' := Extend(bars, t, width);
    forall s | |BidsIn(ticks, s, width)| > 0
      ensures exists k :: 0 <= k < |bars'| && bars'[k].start == s
    {
      BidsInLast(ticks, s, width);
      if s == b {
        assert bars'[|bars'| - 1].start == s;
      } else {
        var k :| 0 <= k < |bars| && bars[k].start == s;
        assert bars'[k].start == s;
      }
    }
  }

  /** Adding the last tick, not earlier than the bars' intervals, to bars describing the earlier ticks describes all. */
  lemma ExtendDescribes(bars: seq<Bar>, ticks: seq<Tick>, width: int)
    requires width > 0 && |ticks| > 0
    requires Describes(bars, ticks[..|ticks| - 1], width) && Ascending(bars)
    requires |bars| > 0 ==> bars[|bars| - 1].start <= BucketStart(ticks[|ticks| - 1].time, width)
    ensures Describes(Extend(bars, ticks[|ticks| - 1], width), ticks, width)
  {
    var b := BucketStart(ticks[|ticks| - 1].time, width);
    ExtendCovers(bars, ticks, width);
    if |bars| > 0 && bars[|bars| - 1].start == b {
      AbsorbSummarises(bars, ticks, width);
    } else {
      NoBidsAfterBars(bars, ticks[..|ticks| - 1], b, width);
      NewBarSummarises(bars, ticks, width);
    }
  }

  /** The bars of time-ordered ticks describe those ticks. */
  lemma {:induction false} AggregateMatchesBuckets(ticks: seq<Tick>, width: int)
    requires width > 0 && SortedByTime(ticks)
    ensures Describes(Aggregate(ticks, width), ticks, width)
  {
    if |ticks| > 0 {
      var prefix, last := ticks[..|ticks| - 1], ticks[|ticks| - 1];
      AggregateMatchesBuckets(prefix, width);
      var bars' := Aggregate(prefix, width);
      if |prefix| > 0 {
        BucketStartMonotonic(prefix[|prefix| - 1].time, last.time, width);
      }
      ExtendDescribes(bars', ticks, width);
    }
  }

  lemma {:induction false} AggregateVolume(ticks: seq<Tick>, width: int)
    requires width > 0 && SortedByTime(ticks)
    ensures TotalVolume(Aggregate(ticks, width)) == |ticks|
  {
    if |ticks| > 0 {
      var prefix, last := ticks[..|ticks| - 1], ticks[|ticks| - 1];
      AggregateVolume(prefix, width);
      var bars' := Aggregate(prefix, width);
      var bars := Aggregate(ticks, width);
      var b := BucketStart(last.time, width);
      if |bars'| > 0 && bars'[|bars'| - 1].start == b {
        var m := |bars'| - 1;
        assert bars[..m] == bars'[..m];
        assert TotalVolume(bars') == TotalVolume(bars'[..m]) + bars'[m].volume;
      } else {
        assert bars[..|bars'|] == bars';
      }
    }
  }

  /** A tick not earlier than the last of sorted ticks is inserted at the end. */
  lemma InsertAtEnd(sorted: seq<Tick>, t: Tick)
    requires SortedByTime(sorted)
    requires |sorted| == 0 || sorted[|sorted| - 1].time <= t.time
    ensures InsertByTime(sorted, t) == sorted + [t]
  {
  }

  /** The ticks before the last of time-ordered ticks are time-ordered. */
  lemma SortedPrefix(ticks: seq<Tick>)
    requires SortedByTime(ticks) && |ticks| > 0
    ensures SortedByTime(ticks[..|ticks| - 1])
    ensures |ticks| > 1 ==> ticks[..|ticks| - 1][|ticks| - 2].time <= ticks[|ticks| - 1].time
  {
    var prefix := ticks[..|ticks| - 1];
    forall i, j | 0 <= i < j < |prefix| ensures prefix[i].time <= prefix[j].time {
      assert prefix[i] == ticks[i] && prefix[j] == ticks[j];
    }
  }

  /** Time-ordered ticks are left as they are by the sort. */
  lemma {:induction false} SortByTimeKeepsSorted(ticks: seq<Tick>)
    requires SortedByTime(ticks)
    ensures SortByTime(ticks) == ticks
  {
    if |ticks| > 0 {
      var prefix, last := ticks[..|ticks| - 1], ticks[|ticks| - 1];
      assert SortByTime(prefix) == prefix by {
        SortedPrefix(ticks);
        SortByTimeKeepsSorted(prefix);
      }
      assert InsertByTime(prefix, last) == prefix + [last] by {
        SortedPrefix(ticks);
        InsertAtEnd(prefix, last);
      }
      assert SortByTime(ticks) == InsertByTime(SortByTime(prefix), last);
      assert ticks == prefix + [last];
    }
  }

  /** The bar volumes add up to the number of ticks. */
  lemma ResampleVolume(ticks: seq<Tick>, width: int)
    requires width > 0
    ensures TotalVolume(ResampleToOhlc(ticks, width)) == |ticks|
  {
    AggregateVolume(SortByTime(ticks), width);
  }

  /**
   * Each bar summarises the bids, in time order, of exactly the ticks of its
   * interval; an interval with a tick always has a bar.
   */
  lemma ResampleMatchesBuckets(ticks: seq<Tick>, width: int)
    requires width > 0
    ensures Describes(ResampleToOhlc(ticks, width), SortByTime(ticks), width)
  {
    AggregateMatchesBuckets(SortByTime(ticks), width);
  }

  /** For time-ordered input the bars summarise the bids in input order. */
  lemma ResampleOrderedTicks(ticks: seq<Tick>, width: int)
    requires width > 0 && SortedByTime(ticks)
    ensures Describes(ResampleToOhlc(ticks, width), ticks, width)
  {
    SortByTimeKeepsSorted(ticks);
    AggregateMatchesBuckets(ticks, width);
  }

  /** Each tick's interval has a bar. */
  lemma TickHasBar(ticks: seq<Tick>, width: int, i: int)
    requires width > 0 && 0 <= i < |ticks|
    ensures var bars := ResampleToOhlc(ticks, width);
      exists k :: 0 <= k < |bars| && bars[k].start == BucketStart(ticks[i].time, width)
  {
    var inOrder := SortByTime(ticks);
    var t := ticks[i];
    assert t in multiset(ticks);
    assert t in multiset(inOrder);
    var p :| 0 <= p < |inOrder| && inOrder[p] == t;
    BidsInHoldsTick(inOrder, width, p);
    ResampleMatchesBuckets(ticks, width);
    assert Covers(ResampleToOhlc(ticks, width), inOrder, width);
  }

  /** Each tick falls in exactly one bar: the one whose interval [start, start + width) holds its time. */
  lemma EachTickInExactlyOneBar(ticks: seq<Tick>, width: int, i: int)
    requires width > 0 && 0 <= i < |ticks|
    ensures var bars := ResampleToOhlc(ticks, width);
      exists k :: 0 <= k < |bars| && bars[k].start <= ticks[i].time < bars[k].start + width
    ensures var bars := ResampleToOhlc(ticks, width);
      forall j, k ::
        && 0 <= j < |bars| && bars[j].start <= ticks[i].time < bars[j].start + width
        && 0 <= k < |bars| && bars[k].start <= ticks[i].time < bars[k].start + width
        ==> j == k
  {
    var bars := ResampleToOhlc(ticks, width);
    TickHasBar(ticks, width, i);
    forall j, k |
      && 0 <= j < |bars| && bars[j].start <= ticks[i].time < bars[j].start + width
      && 0 <= k < |bars| && bars[k].start <= ticks[i].time < bars[k].start + width
      ensures j == k
    {
      OneBarPerInterval(bars, ticks[i].time, width, j, k);
    }
  }

  /** Two bars of ascending, aligned bars whose intervals hold the same time are the same bar. */
  lemma OneBarPerInterval(bars: seq<Bar>, time: int, width: int, j: int, k: int)
    requires width > 0 && Ascending(bars)
    requires forall n :: 0 <= n < |bars| ==> WellFormed(bars[n], width)
    requires 0 <= j < |bars| && bars[j].start <= time < bars[j].start + width
    requires 0 <= k < |bars| && bars[k].start <= time < bars[k].start + width
    ensures j == k
  {
    assert WellFormed(bars[j], width) && WellFormed(bars[k], width);
    BucketStartUnique(time, width, bars[j].start);
    BucketStartUnique(time, width, bars[k].start);
  }
}
