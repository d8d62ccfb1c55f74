/**
  The edge-timing state machine of the SENT reader (`SENTReader._cbf`).

  Every edge of the SENT line arrives as a level and a timestamp.  Rising
  edges only record when the line went high.  Falling edges end a period:
  while the decoder is searching, a period whose high share exceeds 87 % is
  taken as the 56-tick sync pulse; once synced, the next eight periods are
  stored as status, data1..data6 and crc, and the eighth publishes all of
  them, together with the sync period, as the ten-element frame.

  Durations come from the GPIO library's wrap-around-safe tick difference,
  which is passed in as the function `diff`.
*/
module EdgeDecoder {

  /** The callback's `level` for a falling and a rising edge; any other level is ignored. */
  const Falling: int := 0
  const Rising: int := 1

  /** A falling edge ends a sync pulse when the high share of its period exceeds this percentage. */
  const SyncThresholdPercent: nat := 87

  /** Nibbles after the sync pulse: status, six data nibbles and the CRC. */
  const NibblesPerFrame: nat := 8

  /** The stored periods by nibble position: status, data1..data6, crc. */
  type Slots = s: seq<nat> | |s| == NibblesPerFrame witness [0, 0, 0, 0, 0, 0, 0, 0]

  /** `[syncPeriod, syncTick, status, data1, ..., data6, crc]`. */
  type Frame = f: seq<nat> | |f| == 10 witness [0, 0, 0, 0, 0, 0, 0, 0, 0, 0]

  /** The GPIO library's tick difference `tickDiff(earlier, later)`. */
  type TickDiff = (nat, nat) -> nat

  datatype Edge = Edge(level: int, tick: nat)

  datatype Decoder = Decoder(
    syncFound: bool,
    nibble: nat,
    highTick: nat,   // timestamp of the last rising edge
    lowTick: nat,    // timestamp of the last falling edge
    period: nat,     // last falling-to-falling period
    low: nat,        // time from the last falling edge to the last rising edge
    high: nat,       // time from the last rising edge to the last falling edge
    syncWidth: nat,
    syncPeriod: nat,
    syncTick: nat,
    slots: Slots,
    frame: Frame)

  /**
    Between edges the nibble counter is below 8, it is 0 while searching,
    and the sync period used for calibration is positive.
  */
  predicate Inv(d: Decoder)
  {
    && d.nibble < NibblesPerFrame
    && (!d.syncFound ==> d.nibble == 0)
    && d.syncTick > 0
  }

  /**
    The decoder as the constructor leaves it: searching, all timings zero,
    the calibration period at its initial 100 and an all-zero frame.  The
    sync period has no value in the source until the first sync pulse; it is
    0 here.
  */
  function Initial(): (d: Decoder)
    ensures Inv(d) && !d.syncFound && d.nibble == 0
    ensures d.syncTick == 100 && d.frame == [0, 0, 0, 0, 0, 0, 0, 0, 0, 0]
  {
    Decoder(false, 0, 0, 0, 0, 0, 0, 0, 0, 100, [0, 0, 0, 0, 0, 0, 0, 0], [0, 0, 0, 0, 0, 0, 0, 0, 0, 0])
  }

  /** The sync test `100 * high / period > 87`, cleared of its division. */
  predicate IsSyncPulse(high: nat, period: nat)
  {
    100 * high > SyncThresholdPercent * period
  }

  /** The integer test agrees with the source's true division for every positive period. */
  lemma SyncTestMatchesDivision(high: nat, period: nat)
    requires period > 0
    ensures IsSyncPulse(high, period) <==> (100 * high) as real / period as real > 87.0
  {
    var x, p := (100 * high) as real, period as real;
    assert x > 87.0 * p <==> 100 * high > SyncThresholdPercent * period;
    DivisionAboveBound(x, p, 87.0);
  }

  lemma DivisionAboveBound(x: real, p: real, c: real)
    requires p > 0.0
    ensures x / p > c <==> x > c * p
  {
    var q := x / p;
    assert q * p == x;
    if q > c {
      assert (q - c) * p > 0.0;
    } else {
      assert (c - q) * p >= 0.0;
    }
  }

  /** A rising edge, in either state: record the rising timestamp and how long the line was low. */
  function OnRising(d: Decoder, tick: nat, diff: TickDiff): (r: Decoder)
    ensures r.highTick == tick && r.low == diff(d.lowTick, tick)
    ensures r.(highTick := d.highTick, low := d.low) == d
  {
    d.(highTick := tick, low := diff(d.lowTick, tick))
  }

  /**
    A falling edge while searching.  The period is taken as the sync pulse
    exactly when its high share exceeds the threshold, strictly; the sync
    pulse calibrates the decoder and restarts the nibble count.  Otherwise
    only the timings move on.
  */
  function OnFallingSearching(d: Decoder, tick: nat, diff: TickDiff): (r: Decoder)
    requires !d.syncFound
    requires diff(d.lowTick, tick) > 0
    ensures r.period == diff(d.lowTick, tick) && r.lowTick == tick && r.high == diff(d.highTick, tick)
    ensures r.syncFound <==> IsSyncPulse(diff(d.highTick, tick), diff(d.lowTick, tick))
    ensures r.syncFound ==>
      && r.syncPeriod == r.period && r.syncTick == r.period && r.syncWidth == r.high
      && r.nibble == 0
      && r.slots == d.slots && r.frame == d.frame
    ensures !r.syncFound ==> r.(period := d.period, lowTick := d.lowTick, high := d.high) == d
    ensures r.syncFound ==> r == d.(period := r.period, lowTick := tick, high := r.high, syncFound := true,
                                    syncWidth := r.high, syncPeriod := r.period, syncTick := r.period, nibble := 0)
  {
    var period := diff(d.lowTick, tick);
    var high := diff(d.highTick, tick);
    var timed := d.(period := period, lowTick := tick, high := high);
    if IsSyncPulse(high, period) then
      timed.(syncFound := true, syncWidth := high, syncPeriod := period, syncTick := period, nibble := 0)
    else
      timed
  }

  /**
    A falling edge while synced: the period is the next nibble, stored by
    position (1 status, 2..7 data1..data6, 8 crc).  The duty ratio is not
    looked at.  The eighth nibble publishes the whole frame at once and sends
    the decoder back to searching; before that the frame is untouched.
  */
  function OnFallingInFrame(d: Decoder, tick: nat, diff: TickDiff): (r: Decoder)
    requires d.syncFound
    ensures r.period == diff(d.lowTick, tick) && r.lowTick == tick && r.high == diff(d.highTick, tick)
    ensures r.syncPeriod == d.syncPeriod && r.syncTick == d.syncTick && r.syncWidth == d.syncWidth
    ensures d.nibble < NibblesPerFrame ==> r.slots == d.slots[d.nibble := r.period]
    ensures d.nibble + 1 < NibblesPerFrame ==> r.syncFound && r.nibble == d.nibble + 1 && r.frame == d.frame
    ensures d.nibble + 1 == NibblesPerFrame ==>
      && !r.syncFound && r.nibble == 0
      && r.frame == [d.syncPeriod, d.syncTick] + d.slots[..7] + [r.period]
    ensures d.nibble >= NibblesPerFrame ==> r.syncFound && r.slots == d.slots && r.frame == d.frame
    ensures r == d.(period := r.period, lowTick := tick, high := r.high, nibble := r.nibble,
                    slots := r.slots, frame := r.frame, syncFound := r.syncFound)
  {
    var period := diff(d.lowTick, tick);
    var high := diff(d.highTick, tick);
    var n := d.nibble + 1;
    var slots: Slots := if 1 <= n <= NibblesPerFrame then d.slots[n - 1 := period] else d.slots;
    var counted := d.(period := period, lowTick := tick, high := high, nibble := n, slots := slots);
    if n == NibblesPerFrame then
      assert slots == d.slots[..7] + [period];
      counted.(frame := [d.syncPeriod, d.syncTick] + slots, syncFound := false, nibble := 0)
    else
      counted
  }

  /** The source divides by the period of a falling edge seen while searching. */
  predicate StepDefined(d: Decoder, e: Edge, diff: TickDiff)
  {
    e.level == Falling && !d.syncFound ==> diff(d.lowTick, e.tick) > 0
  }

  /**
    `_cbf(gpio, level, tick)`: one edge.  The invariant is kept, and the
    frame changes only on the falling edge that completes the eighth nibble.
  */
  function Step(d: Decoder, e: Edge, diff: TickDiff): (r: Decoder)
    requires StepDefined(d, e, diff)
    ensures Inv(d) ==> Inv(r)
    ensures r.frame != d.frame ==> e.level == Falling && d.syncFound && d.nibble == NibblesPerFrame - 1
    ensures e.level == Rising ==> r.(highTick := d.highTick, low := d.low) == d
    ensures e.level != Falling && e.level != Rising ==> r == d
  {
    if !d.syncFound then
      if e.level == Rising then OnRising(d, e.tick, diff)
      else if e.level == Falling then OnFallingSearching(d, e.tick, diff)
      else d
    else
      if e.level == Rising then OnRising(d, e.tick, diff)
      else if e.level == Falling then OnFallingInFrame(d, e.tick, diff)
      else d
  }

  /** Every edge of the sequence can be processed without dividing by zero. */
  predicate Runnable(d: Decoder, edges: seq<Edge>, diff: TickDiff)
    decreases |edges|
  {
    |edges| == 0 || (StepDefined(d, edges[0], diff) && Runnable(Step(d, edges[0], diff), edges[1..], diff))
  }

  predicate NoFallingEdge(edges: seq<Edge>)
  {
    forall i :: 0 <= i < |edges| ==> edges[i].level != Falling
  }

  /**
    The callback applied to a sequence of edges in arrival order.  Only
    falling edges move the state machine on: a run without any leaves
    everything but the last rising timestamp and the low time as it was.
  */
  function Run(d: Decoder, edges: seq<Edge>, diff: TickDiff): (r: Decoder)
    requires Runnable(d, edges, diff)
    ensures NoFallingEdge(edges) ==> r.(highTick := d.highTick, low := d.low) == d
    decreases |edges|
  {
    if |edges| == 0 then d else Run(Step(d, edges[0], diff), edges[1..], diff)
  }

  /** Running two edge sequences one after the other is running their concatenation. */
  lemma {:induction false} RunConcat(d: Decoder, a: seq<Edge>, b: seq<Edge>, diff: TickDiff)
    requires Runnable(d, a, diff) && Runnable(Run(d, a, diff), b, diff)
    ensures Runnable(d, a + b, diff) && Run(d, a + b, diff) == Run(Run(d, a, diff), b, diff)
    decreases |a|
  {
    if |a| == 0 {
      assert a + b == b;
    } else {
      var d1 := Step(d, a[0], diff);
      assert (a + b)[0] == a[0];
      assert (a + b)[1..] == a[1..] + b;
      assert Run(d, a, diff) == Run(d1, a[1..], diff);
      RunConcat(d1, a[1..], b, diff);
      assert Run(d, a + b, diff) == Run(d1, a[1..] + b, diff);
    }
  }

  /** The invariant holds after any run of edges. */
  lemma {:induction false} RunPreservesInv(d: Decoder, edges: seq<Edge>, diff: TickDiff)
    requires Inv(d) && Runnable(d, edges, diff)
    ensures Inv(Run(d, edges, diff))
    decreases |edges|
  {
    if |edges| > 0 {
      RunPreservesInv(Step(d, edges[0], diff), edges[1..], diff);
    }
  }

  /** Processing one more edge after a run. */
  lemma {:induction false} RunAppend(d: Decoder, edges: seq<Edge>, e: Edge, diff: TickDiff)
    requires Runnable(d, edges, diff) && StepDefined(Run(d, edges, diff), e, diff)
    ensures Runnable(d, edges + [e], diff)
    ensures Run(d, edges + [e], diff) == Step(Run(d, edges, diff), e, diff)
    decreases |edges|
  {
    if |edges| == 0 {
      assert edges + [e] == [e];
      assert [e][1..] == [];
    } else {
      assert (edges + [e])[0] == edges[0];
      assert (edges + [e])[1..] == edges[1..] + [e];
      RunAppend(Step(d, edges[0], diff), edges[1..], e, diff);
    }
  }

  /** The timestamps of the falling edges of a sequence, in order. */
  function FallTicks(edges: seq<Edge>): seq<nat>
  {
    if |edges| == 0 then []
    else (if edges[0].level == Falling then [edges[0].tick] else []) + FallTicks(edges[1..])
  }

  lemma {:induction false} FallTicksAppend(edges: seq<Edge>, e: Edge)
    ensures FallTicks(edges + [e]) == FallTicks(edges) + (if e.level == Falling then [e.tick] else [])
    decreases |edges|
  {
    if |edges| == 0 {
      assert edges + [e] == [e];
      assert [e][1..] == [];
    } else {
      var h := if edges[0].level == Falling then [edges[0].tick] else [];
      var t := if e.level == Falling then [e.tick] else [];
      assert (edges + [e])[0] == edges[0];
      assert (edges + [e])[1..] == edges[1..] + [e];
      assert FallTicks(edges + [e]) == h + FallTicks(edges[1..] + [e]);
      FallTicksAppend(edges[1..], e);
      assert h + (FallTicks(edges[1..]) + t) == (h + FallTicks(edges[1..])) + t;
    }
  }

  /** A pulse, a rising edge followed by a falling one, adds just the falling timestamp. */
  lemma FallTicksPulse(whole: seq<Edge>, edges: seq<Edge>, rise: Edge, fall: Edge)
    requires rise.level == Rising && fall.level == Falling && whole == edges + [rise, fall]
    ensures FallTicks(whole) == FallTicks(edges) + [fall.tick]
  {
    assert whole == (edges + [rise]) + [fall];
    FallTicksAppend(edges, rise);
    FallTicksAppend(edges + [rise], fall);
  }

  /** The falling-to-falling periods of falling edges at `ticks`, the first measured from `start`. */
  function Periods(start: nat, ticks: seq<nat>, diff: TickDiff): (ps: seq<nat>)
    ensures |ps| == |ticks|
    decreases |ticks|
  {
    if |ticks| == 0 then [] else [diff(start, ticks[0])] + Periods(ticks[0], ticks[1..], diff)
  }

  /** The last falling timestamp, or `start` when there is none. */
  function LastTick(start: nat, ticks: seq<nat>): nat
  {
    if |ticks| == 0 then start else ticks[|ticks| - 1]
  }

  lemma {:induction false} PeriodsAppend(start: nat, ticks: seq<nat>, t: nat, diff: TickDiff)
    ensures Periods(start, ticks + [t], diff) == Periods(start, ticks, diff) + [diff(LastTick(start, ticks), t)]
    decreases |ticks|
  {
    if |ticks| == 0 {
      assert ticks + [t] == [t];
      assert [t][1..] == [];
    } else {
      assert (ticks + [t])[0] == ticks[0];
      assert (ticks + [t])[1..] == ticks[1..] + [t];
      PeriodsAppend(ticks[0], ticks[1..], t, diff);
    }
  }

  /** Storing `p` at slot `n` and then `ps` after it extends the stored prefix by `[p] + ps`. */
  lemma SlotsGrow(s0: Slots, s1: Slots, s2: Slots, n: nat, m: nat, p: nat, ps: seq<nat>)
    requires n < m <= |s0| && s1 == s0[n := p]
    requires s2[..n + 1] == s1[..n + 1] && s2[n + 1..m] == ps
    ensures s2[..n] == s0[..n] && s2[n..m] == [p] + ps
  {
    assert s2[..n] == s2[..n + 1][..n];
    assert s2[n..m] == [s2[n]] + s2[n + 1..m];
    assert s2[n] == s2[..n + 1][n];
  }

  /**
    What a run inside a frame does: it stays synced, counts one nibble per
    falling edge, stores those periods in order in the next slots, and keeps
    the earlier slots, the frame and the calibration.
  */
  ghost predicate StoresPeriods(d: Decoder, edges: seq<Edge>, r: Decoder, diff: TickDiff)
  {
    && r.syncFound && r.nibble == d.nibble + |FallTicks(edges)|
    && r.frame == d.frame
    && r.syncPeriod == d.syncPeriod && r.syncTick == d.syncTick
    && r.lowTick == LastTick(d.lowTick, FallTicks(edges))
    && r.nibble <= |r.slots|
    && r.slots[..d.nibble] == d.slots[..d.nibble]
    && r.slots[d.nibble..r.nibble] == Periods(d.lowTick, FallTicks(edges), diff)
  }

  /**
    While synced and short of the eighth nibble, a run of edges stores the
    periods of its falling edges, in order, in the next nibble slots; the
    frame stays as it was and no new sync search happens, whatever the duty
    ratio of those periods.
  */
  lemma {:induction false} InFrameRun(d: Decoder, edges: seq<Edge>, diff: TickDiff)
    requires Inv(d) && d.syncFound && d.nibble + |FallTicks(edges)| < NibblesPerFrame
    ensures Runnable(d, edges, diff)
    ensures StoresPeriods(d, edges, Run(d, edges, diff), diff)
    decreases |edges|, 1
  {
    if |edges| > 0 {
      if edges[0].level == Falling {
        InFrameRunFalling(d, edges, diff);
      } else {
        InFrameRunOther(d, edges, diff);
      }
    }
  }

  /** A run inside a frame that starts with a falling edge. */
  lemma {:induction false} InFrameRunFalling(d: Decoder, edges: seq<Edge>, diff: TickDiff)
    requires Inv(d) && d.syncFound && d.nibble + |FallTicks(edges)| < NibblesPerFrame
    requires |edges| > 0 && edges[0].level == Falling
    ensures Runnable(d, edges, diff)
    ensures StoresPeriods(d, edges, Run(d, edges, diff), diff)
    decreases |edges|, 0
  {
    var e, rest := edges[0], edges[1..];
    var d1 := Step(d, e, diff);
    assert d1 == OnFallingInFrame(d, e.tick, diff);
    assert FallTicks(edges) == [e.tick] + FallTicks(rest);
    InFrameRun(d1, rest, diff);
    var r := Run(d1, rest, diff);
    assert Run(d, edges, diff) == r;
    SlotsGrow(d.slots, d1.slots, r.slots, d.nibble, r.nibble, d1.period, Periods(e.tick, FallTicks(rest), diff));
  }

  /** A run inside a frame that starts with a rising edge or any other level. */
  lemma {:induction false} InFrameRunOther(d: Decoder, edges: seq<Edge>, diff: TickDiff)
    requires Inv(d) && d.syncFound && d.nibble + |FallTicks(edges)| < NibblesPerFrame
    requires |edges| > 0 && edges[0].level != Falling
    ensures Runnable(d, edges, diff)
    ensures StoresPeriods(d, edges, Run(d, edges, diff), diff)
    decreases |edges|, 0
  {
    var e, rest := edges[0], edges[1..];
    var d1 := Step(d, e, diff);
    assert d1.(highTick := d.highTick, low := d.low) == d;
    assert FallTicks(edges) == FallTicks(rest);
    InFrameRun(d1, rest, diff);
    assert Run(d, edges, diff) == Run(d1, rest, diff);
  }

  /**
    A frame is published only whole: from the edge after a sync pulse, a run
    whose eighth falling edge comes last leaves the decoder searching again
    with the frame `[syncPeriod, syncTick]` followed by the eight periods of
    those falling edges, in order.
  */
  lemma FrameAssembly(d: Decoder, pre: seq<Edge>, t: nat, diff: TickDiff)
    requires Inv(d) && d.syncFound && d.nibble == 0 && |FallTicks(pre)| == NibblesPerFrame - 1
    ensures Runnable(d, pre + [Edge(Falling, t)], diff)
    ensures var r := Run(d, pre + [Edge(Falling, t)], diff);
      && !r.syncFound && r.nibble == 0 && r.syncTick == d.syncTick
      && r.frame == [d.syncPeriod, d.syncTick] + Periods(d.lowTick, FallTicks(pre + [Edge(Falling, t)]), diff)
  {
    var e := Edge(Falling, t);
    InFrameRun(d, pre, diff);
    var m := Run(d, pre, diff);
    RunAppend(d, pre, e, diff);
    FallTicksAppend(pre, e);
    PeriodsAppend(d.lowTick, FallTicks(pre), t, diff);
    assert m.slots[..7] == m.slots[0..m.nibble];
  }
}
