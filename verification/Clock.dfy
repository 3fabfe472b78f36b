/** The clock of the injector: rescaling of stream timestamps and the ticks that they become. */
module Clocks {
  import opened Wrappers

  /** n / d rounded to the nearest integer, half away from zero, as av_rescale_q does by default. */
  function Rounded(n: int, d: int): int
    requires d > 0
  {
    if n >= 0 then (2 * n + d) / (2 * d) else -((2 * -n + d) / (2 * d))
  }

  /** A positive rational number of seconds per tick. */
  datatype TimeBase = TimeBase(num: int, den: int) {
    ghost predicate Valid() {
      num > 0 && den > 0
    }
  }

  lemma PositiveProduct(a: int, b: int)
    requires a > 0 && b > 0
    ensures a * b > 0
  {
  }

  function Rescale(ts: int, intb: TimeBase, outtb: TimeBase): int
    requires intb.Valid() && outtb.Valid()
  {
    PositiveProduct(intb.den, outtb.num);
    Rounded(ts * (intb.num * outtb.den), intb.den * outtb.num)
  }

  class Clock {
    var value: int
    const timeBase: TimeBase

    constructor (initial: int, timeBase: TimeBase)
      ensures value == initial && this.timeBase == timeBase
    {
      value := initial;
      this.timeBase := timeBase;
    }

    /** Negative increments are ignored. */
    method Increment(delta: int)
      modifies this
      ensures value == old(value) + Positive(delta)
    {
      if delta >= 0 {
        value := value + delta;
      }
    }
  }

  class TSTicker {
    const clock: Clock
    var lastTs: Option<int>

    constructor (clock: Clock)
      ensures this.clock == clock && lastTs == None
    {
      this.clock := clock;
      lastTs := None;
    }

    method Tick(ts: int)
      modifies this, clock
      ensures lastTs == Some(ts)
      ensures clock.value == old(clock.value) + Positive(Difference(old(lastTs), ts))
    {
      if lastTs.None? {
        clock.Increment(ts);
        lastTs := Some(ts);
        return;
      }
      clock.Increment(ts - lastTs.value);
      lastTs := Some(ts);
    }
  }

  class TSRescaler {
    const clock: Clock
    const localTimeBase: TimeBase
    const base: int
    var tsZero: Option<int>

    ghost predicate Valid() {
      localTimeBase.Valid() && clock.timeBase.Valid()
    }

    /** clock_relative: timestamps start at the time that the clock shows now. */
    constructor ClockRelative(clock: Clock, localTimeBase: TimeBase)
      requires localTimeBase.Valid() && clock.timeBase.Valid()
      ensures Valid() && this.clock == clock && this.localTimeBase == localTimeBase
      ensures base == clock.value && tsZero == None
    {
      this.clock := clock;
      this.localTimeBase := localTimeBase;
      base := clock.value;
      tsZero := None;
    }

    method RescaleToClock(ts: int) returns (r: int)
      requires Valid()
      modifies this
      ensures tsZero == Some(if old(tsZero).None? then ts else old(tsZero).value)
      ensures r == base + Rescale(ts - tsZero.value, localTimeBase, clock.timeBase)
    {
      if tsZero.None? {
        tsZero := Some(ts);
      }
      r := base + Rescale(ts - tsZero.value, localTimeBase, clock.timeBase);
    }
  }

  /** The processor that makes the packets of the time source tick the clock. */
  class ClockTicker {
    const ticker: TSTicker
    const rescaler: TSRescaler
    const start: int
    ghost var history: seq<int>

    /** The clock has ticked for every packet so far, and for nothing else. */
    ghost predicate Valid()
      reads this, ticker, rescaler, ticker.clock
    {
      && rescaler.Valid() && rescaler.clock == ticker.clock && rescaler.base == start
      && (rescaler.tsZero == if history == [] then None else Some(history[0]))
      && var ts := RescaledAll(history, start, rescaler.localTimeBase, ticker.clock.timeBase);
        && ticker.clock.value == Ticked(start, ts)
        && (ticker.lastTs == if ts == [] then None else Some(ts[|ts| - 1]))
    }

    constructor (streamTimeBase: TimeBase, clock: Clock)
      requires streamTimeBase.Valid() && clock.timeBase.Valid()
      ensures Valid() && fresh(ticker) && fresh(rescaler) && ticker.clock == clock
      ensures rescaler.localTimeBase == streamTimeBase && start == clock.value && history == []
    {
      ticker := new TSTicker(clock);
      rescaler := new TSRescaler.ClockRelative(clock, streamTimeBase);
      start := clock.value;
      history := [];
    }

    method Process(pts: int)
      requires Valid()
      modifies this, ticker, rescaler, ticker.clock
      ensures Valid() && history == old(history) + [pts]
    {
      hide Rescale, RescaledAll, Ticked, Difference, Positive;
      ghost var before := RescaledAll(history, start, rescaler.localTimeBase, ticker.clock.timeBase);
      var rescaled := rescaler.RescaleToClock(pts);
      ticker.Tick(rescaled);
      RescaledSnoc(history, pts, start, rescaler.localTimeBase, ticker.clock.timeBase);
      TickedSnoc(start, before, rescaled);
      history := history + [pts];
    }
  }

  // ---------- Whole runs ----------

  function Positive(d: int): int {
    if d >= 0 then d else 0
  }

  function Difference(last: Option<int>, ts: int): int {
    if last.None? then ts else ts - last.value
  }

  /** The clock after a ticker has seen the timestamps. */
  function Ticked(start: int, ts: seq<int>): int {
    if ts == [] then start
    else
      var n := |ts| - 1;
      Ticked(start, ts[..n]) + Positive(Difference(if n == 0 then None else Some(ts[n - 1]), ts[n]))
  }

  lemma TickedSnoc(start: int, ts: seq<int>, t: int)
    ensures Ticked(start, ts + [t]) ==
      Ticked(start, ts) + Positive(Difference(if ts == [] then None else Some(ts[|ts| - 1]), t))
  {
    assert (ts + [t])[..|ts|] == ts;
  }

  /** What an unbounded run of packets is rescaled to: every timestamp counts from the first one. */
  function RescaledAll(pts: seq<int>, base: int, intb: TimeBase, outtb: TimeBase): (r: seq<int>)
    requires intb.Valid() && outtb.Valid()
    ensures |r| == |pts|
  {
    seq(|pts|, i requires 0 <= i < |pts| => base + Rescale(pts[i] - pts[0], intb, outtb))
  }

  lemma RescaledSnoc(history: seq<int>, pts: int, base: int, intb: TimeBase, outtb: TimeBase)
    requires intb.Valid() && outtb.Valid()
    ensures RescaledAll(history + [pts], base, intb, outtb) ==
      RescaledAll(history, base, intb, outtb) +
      [base + Rescale(pts - (if history == [] then pts else history[0]), intb, outtb)]
  {
  }

  /** Sum of the positive differences of neighbours. */
  function Ascent(ts: seq<int>): int {
    if |ts| <= 1 then 0
    else Ascent(ts[..|ts| - 1]) + Positive(ts[|ts| - 1] - ts[|ts| - 2])
  }

  /** The clock shows the start, the first timestamp if it is positive, and every step forward. */
  lemma {:induction false} TickedIsAscent(start: int, ts: seq<int>)
    requires ts != []
    ensures Ticked(start, ts) == start + Positive(ts[0]) + Ascent(ts)
    decreases |ts|
  {
    var n := |ts| - 1;
    if n > 0 {
      TickedIsAscent(start, ts[..n]);
    } else {
      assert ts[..0] == [];
    }
  }

  /** The clock never goes back. */
  lemma {:induction false} TickedNeverDecreases(start: int, ts: seq<int>, n: nat)
    requires n <= |ts|
    ensures start <= Ticked(start, ts[..n]) <= Ticked(start, ts)
    decreases |ts|
  {
    if ts == [] {
      assert ts[..n] == ts;
    } else if n == |ts| {
      assert ts[..n] == ts;
      TickedNeverDecreases(start, ts[..n - 1], n - 1);
      assert ts[..n - 1][..n - 1] == ts[..n - 1];
    } else {
      TickedNeverDecreases(start, ts[..|ts| - 1], n);
      assert ts[..|ts| - 1][..n] == ts[..n];
    }
  }

  /** For timestamps that never go back the clock has moved to the last of them, less a negative first one. */
  lemma {:induction false} TickedFollows(start: int, ts: seq<int>)
    requires ts != [] && forall i :: 0 < i < |ts| ==> ts[i - 1] <= ts[i]
    ensures Ticked(start, ts) == start + ts[|ts| - 1] + (Positive(ts[0]) - ts[0])
    decreases |ts|
  {
    var n := |ts| - 1;
    if n > 0 {
      TickedFollows(start, ts[..n]);
    } else {
      assert ts[..0] == [];
    }
  }

  /** r is a nearest integer to n / d, and the one farther from zero where two are equally near. */
  ghost predicate Nearest(n: int, d: int, r: int) {
    var e := 2 * (d * r - n);
    -d <= e <= d && (e == d ==> n > 0) && (e == -d ==> n < 0)
  }

  lemma RoundedIsNearest(n: int, d: int)
    requires d > 0
    ensures Nearest(n, d, Rounded(n, d))
  {
    var a := if n >= 0 then n else -n;
    var q := (2 * a + d) / (2 * d);
    Division(2 * a + d, 2 * d);
    assert 2 * d * q <= 2 * a + d < 2 * d * q + 2 * d;
    assert d * -q == -(d * q);
  }

  /** Rounding is determined by that, ties included. */
  lemma RoundedExactly(n: int, d: int, r: int)
    requires d > 0
    ensures Nearest(n, d, r) <==> r == Rounded(n, d)
  {
    RoundedIsNearest(n, d);
    var q := Rounded(n, d);
    hide Rounded;
    if Nearest(n, d, r) {
      assert d * r - d * q == d * (r - q);
      OneApart(d, r - q);
    }
  }

  lemma OneApart(d: int, x: int)
    requires d > 0 && -d <= d * x <= d
    ensures x == 0 || (x == 1 && d * x == d) || (x == -1 && d * x == -d)
  {
  }

  lemma Division(x: int, y: int)
    requires y > 0
    ensures y * (x / y) <= x < y * (x / y) + y
  {
  }

  lemma Cancel(y: int, a: int, b: int)
    requires y > 0 && y * a < y * b
    ensures a < b
  {
    assert y * (b - a) > 0;
  }

  lemma DivisionMonotone(x: int, x': int, y: int)
    requires y > 0 && x <= x'
    ensures x / y <= x' / y
  {
    Division(x, y);
    Division(x', y);
    Cancel(y, x / y, x' / y + 1);
  }

  lemma RoundedMonotone(n: int, n': int, d: int)
    requires d > 0 && n <= n'
    ensures Rounded(n, d) <= Rounded(n', d)
  {
    if n >= 0 {
      DivisionMonotone(2 * n + d, 2 * n' + d, 2 * d);
    } else if n' < 0 {
      DivisionMonotone(2 * -n' + d, 2 * -n + d, 2 * d);
    } else {
      DivisionMonotone(0, 2 * n' + d, 2 * d);
      DivisionMonotone(0, 2 * -n + d, 2 * d);
    }
  }

  /**
   However long the run, every rescaled timestamp is the integer nearest to the exact one, and of two that
   are equally near the one farther from the base.
   */
  lemma RescaledNearest(pts: seq<int>, base: int, intb: TimeBase, outtb: TimeBase, i: nat, r: int)
    requires intb.Valid() && outtb.Valid() && i < |pts|
    ensures RescaledAll(pts, base, intb, outtb)[i] == base + r <==>
      Nearest((pts[i] - pts[0]) * (intb.num * outtb.den), intb.den * outtb.num, r)
  {
    PositiveProduct(intb.den, outtb.num);
    hide Nearest, Rounded;
    RoundedExactly((pts[i] - pts[0]) * (intb.num * outtb.den), intb.den * outtb.num, r);
  }

  /** Later timestamps are never rescaled to earlier ones. */
  lemma RescaledMonotone(pts: seq<int>, base: int, intb: TimeBase, outtb: TimeBase, i: nat, j: nat)
    requires intb.Valid() && outtb.Valid() && i < |pts| && j < |pts| && pts[i] <= pts[j]
    ensures RescaledAll(pts, base, intb, outtb)[i] <= RescaledAll(pts, base, intb, outtb)[j]
  {
    PositiveProduct(intb.den, outtb.num);
    PositiveProduct(intb.num, outtb.den);
    var k := intb.num * outtb.den;
    assert (pts[i] - pts[0]) * k <= (pts[j] - pts[0]) * k;
    RoundedMonotone((pts[i] - pts[0]) * k, (pts[j] - pts[0]) * k, intb.den * outtb.num);
  }

  lemma FirstRescaled(base: int, pts: seq<int>, intb: TimeBase, outtb: TimeBase)
    requires intb.Valid() && outtb.Valid() && pts != []
    ensures RescaledAll(pts, base, intb, outtb)[0] == base
  {
    PositiveProduct(intb.den, outtb.num);
    RescaledNearest(pts, base, intb, outtb, 0, 0);
  }

  /**
   With timestamps that never go back, the clock shows after every packet what the packet's timestamp is
   rescaled to, which is what the injector computes for the same packet, ahead of it by the start if that
   is positive: the first tick adds the start once more. So the two agree if and only if the clock has
   not started after zero.
   */
  lemma ClockIsPts(start: int, pts: seq<int>, intb: TimeBase, outtb: TimeBase)
    requires intb.Valid() && outtb.Valid() && pts != []
    requires forall i :: 0 < i < |pts| ==> pts[i - 1] <= pts[i]
    ensures var ts := RescaledAll(pts, start, intb, outtb);
      && Ticked(start, ts) == ts[|ts| - 1] + Positive(start)
      && (Ticked(start, ts) == ts[|ts| - 1] <==> start <= 0)
  {
    hide Rescale;
    var ts := RescaledAll(pts, start, intb, outtb);
    forall i | 0 < i < |ts|
      ensures ts[i - 1] <= ts[i]
    {
      RescaledMonotone(pts, start, intb, outtb, i - 1, i);
    }
    FirstRescaled(start, pts, intb, outtb);
    TickedFollows(start, ts);
  }
}
