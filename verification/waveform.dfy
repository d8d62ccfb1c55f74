/**
  The SENT transmitter side, as an independent reference for the reader:
  the edge train an ideal sensor drives onto the line for one frame.

  Every pulse starts with a falling edge, stays low for a fixed number of
  ticks and then high until the next falling edge.  The sync pulse lasts 56
  ticks; a nibble of value v lasts v + 12 ticks.  With a tick of `u`
  microseconds and timestamps that do not wrap, the reader's state machine
  recovers exactly the transmitted nibbles from this edge train.
*/
module SentWaveform {
  import opened EdgeDecoder
  import opened FrameValidator

  /** Ticks the line stays low at the start of every pulse. */
  const LowTicks: nat := 5

  /** The tick difference of timestamps that do not wrap around. */
  ghost predicate Subtracts(diff: TickDiff)
  {
    forall a: nat, b: nat :: a <= b ==> diff(a, b) == b - a
  }

  /** The pulse length of each nibble, in microseconds. */
  function Lengths(u: nat, ns: seq<nat>): (ls: seq<nat>)
    ensures |ls| == |ns|
    ensures forall i :: 0 <= i < |ns| ==> ls[i] == (ns[i] + NibbleOffset) * u
  {
    seq(|ns|, i requires 0 <= i < |ns| => (ns[i] + NibbleOffset) * u)
  }

  /** The timestamp of the falling edge that ends the last nibble of `ns`. */
  function End(start: nat, u: nat, ns: seq<nat>): (t: nat)
    ensures t >= start
    decreases |ns|
  {
    if |ns| == 0 then start
    else End(start, u, ns[..|ns| - 1]) + (ns[|ns| - 1] + NibbleOffset) * u
  }

  /**
    The nibble pulses of `ns`, starting at the falling edge at `start`: for
    each nibble a rising edge after the low time and the falling edge that
    ends it.
  */
  function Pulses(start: nat, u: nat, ns: seq<nat>): (es: seq<Edge>)
    ensures |es| == 2 * |ns|
    decreases |ns|
  {
    if |ns| == 0 then []
    else
      var t := End(start, u, ns[..|ns| - 1]);
      Pulses(start, u, ns[..|ns| - 1]) + [Edge(Rising, t + LowTicks * u), Edge(Falling, End(start, u, ns))]
  }

  /** The sync pulse starting at the falling edge at `start`. */
  function SyncPulse(start: nat, u: nat): seq<Edge>
  {
    [Edge(Rising, start + LowTicks * u), Edge(Falling, start + SyncTicks * u)]
  }

  /** One whole frame: the sync pulse followed by the eight nibble pulses. */
  function FrameWaveform(start: nat, u: nat, ns: seq<nat>): seq<Edge>
  {
    SyncPulse(start, u) + Pulses(start + SyncTicks * u, u, ns)
  }

  /** One more nibble adds one falling edge: the end of that nibble. */
  lemma PulsesFallSplit(start: nat, u: nat, ns: seq<nat>)
    requires |ns| > 0
    ensures FallTicks(Pulses(start, u, ns)) == FallTicks(Pulses(start, u, ns[..|ns| - 1])) + [End(start, u, ns)]
  {
    var ns' := ns[..|ns| - 1];
    var rise := Edge(Rising, End(start, u, ns') + LowTicks * u);
    var fall := Edge(Falling, End(start, u, ns));
    FallTicksPulse(Pulses(start, u, ns), Pulses(start, u, ns'), rise, fall);
  }

  /** The falling edges of the nibble pulses are the ends of the successive nibbles. */
  lemma {:induction false} PulsesFallTicks(start: nat, u: nat, ns: seq<nat>)
    ensures |FallTicks(Pulses(start, u, ns))| == |ns|
    ensures LastTick(start, FallTicks(Pulses(start, u, ns))) == End(start, u, ns)
    decreases |ns|
  {
    if |ns| > 0 {
      PulsesFallSplit(start, u, ns);
      PulsesFallTicks(start, u, ns[..|ns| - 1]);
    }
  }

  /** Measured with a non-wrapping tick difference, the periods of the pulses are the nibble lengths. */
  lemma {:induction false} PulsesPeriods(start: nat, u: nat, ns: seq<nat>, diff: TickDiff)
    requires Subtracts(diff)
    ensures Periods(start, FallTicks(Pulses(start, u, ns)), diff) == Lengths(u, ns)
    decreases |ns|
  {
    if |ns| > 0 {
      var ns' := ns[..|ns| - 1];
      var ticks := FallTicks(Pulses(start, u, ns'));
      var last := (ns[|ns| - 1] + NibbleOffset) * u;
      PulsesFallSplit(start, u, ns);
      PulsesFallTicks(start, u, ns');
      PeriodsAppend(start, ticks, End(start, u, ns), diff);
      LastPeriod(start, u, ns, diff);
      PulsesPeriods(start, u, ns', diff);
      LengthsSnoc(u, ns);
    }
  }

  /** The last nibble's period is the distance between the ends of the two prefixes. */
  lemma LastPeriod(start: nat, u: nat, ns: seq<nat>, diff: TickDiff)
    requires Subtracts(diff) && |ns| > 0
    ensures diff(End(start, u, ns[..|ns| - 1]), End(start, u, ns)) == (ns[|ns| - 1] + NibbleOffset) * u
  {
  }

  lemma LengthsSnoc(u: nat, ns: seq<nat>)
    requires |ns| > 0
    ensures Lengths(u, ns) == Lengths(u, ns[..|ns| - 1]) + [(ns[|ns| - 1] + NibbleOffset) * u]
  {
  }

  /**
    From the searching state with the last falling edge at `start`, the
    sync pulse is recognised: the decoder is synced, with the 56-tick period
    as its calibration, and waits for the first nibble.
  */
  lemma SyncPulseFound(d: Decoder, start: nat, u: nat, diff: TickDiff)
    requires Inv(d) && !d.syncFound && d.lowTick == start && u > 0 && Subtracts(diff)
    ensures Runnable(d, SyncPulse(start, u), diff)
    ensures var r := Run(d, SyncPulse(start, u), diff);
      && Inv(r) && r.syncFound && r.nibble == 0
      && r.syncTick == SyncTicks * u && r.syncPeriod == SyncTicks * u
      && r.lowTick == start + SyncTicks * u
  {
    var rise := Edge(Rising, start + LowTicks * u);
    var fall := Edge(Falling, start + SyncTicks * u);
    var d1 := Step(d, rise, diff);
    assert d1.highTick == start + LowTicks * u && d1.lowTick == start && !d1.syncFound;
    assert diff(d1.lowTick, fall.tick) == SyncTicks * u;
    assert diff(d1.highTick, fall.tick) == (SyncTicks - LowTicks) * u;
    assert IsSyncPulse((SyncTicks - LowTicks) * u, SyncTicks * u);
    var d2 := Step(d1, fall, diff);
    assert d2.syncFound && d2.syncTick == SyncTicks * u;
    var sync := SyncPulse(start, u);
    assert sync[0] == rise && sync[1..] == [fall];
    assert [fall][0] == fall && [fall][1..] == [];
    assert Run(d2, [], diff) == d2;
    assert Run(d1, [fall], diff) == d2;
    assert Run(d, sync, diff) == d2;
  }

  /**
    After the sync pulse, the eight nibble pulses make the decoder publish
    the sync period, the calibration and the eight nibble lengths, and
    search again.
  */
  lemma PulsesFrame(d: Decoder, u: nat, ns: seq<nat>, diff: TickDiff)
    requires Inv(d) && d.syncFound && d.nibble == 0 && |ns| == NibblesPerFrame && Subtracts(diff)
    ensures Runnable(d, Pulses(d.lowTick, u, ns), diff)
    ensures var r := Run(d, Pulses(d.lowTick, u, ns), diff);
      && !r.syncFound && r.nibble == 0 && r.syncTick == d.syncTick
      && r.frame == [d.syncPeriod, d.syncTick] + Lengths(u, ns)
  {
    var s := d.lowTick;
    var ns7 := ns[..7];
    assert ns7 == ns[..|ns| - 1];
    var rise := Edge(Rising, End(s, u, ns7) + LowTicks * u);
    var fall := Edge(Falling, End(s, u, ns));
    var pre := Pulses(s, u, ns7) + [rise];
    assert Pulses(s, u, ns) == pre + [fall];
    FallTicksAppend(Pulses(s, u, ns7), rise);
    PulsesFallTicks(s, u, ns7);
    FrameAssembly(d, pre, fall.tick, diff);
    PulsesPeriods(s, u, ns, diff);
  }

  /**
    From the searching state, the edge train of a frame makes the decoder
    publish the sync period and calibration followed by the eight nibble
    lengths, and search again.
  */
  lemma TransmittedFrameRun(d: Decoder, start: nat, u: nat, ns: seq<nat>, diff: TickDiff)
    requires Inv(d) && !d.syncFound && d.lowTick == start && u > 0 && Subtracts(diff)
    requires |ns| == NibblesPerFrame
    ensures Runnable(d, FrameWaveform(start, u, ns), diff)
    ensures var r := Run(d, FrameWaveform(start, u, ns), diff);
      && !r.syncFound && r.nibble == 0 && r.syncTick == SyncTicks * u
      && r.frame == [SyncTicks * u, SyncTicks * u] + Lengths(u, ns)
  {
    var sync := SyncPulse(start, u);
    SyncPulseFound(d, start, u, diff);
    var d1 := Run(d, sync, diff);
    var pulses := Pulses(d1.lowTick, u, ns);
    assert FrameWaveform(start, u, ns) == sync + pulses;
    PulsesFrame(d1, u, ns, diff);
    RunConcat(d, sync, pulses, diff);
  }

  /**
    The reader recovers what the sensor sent: after the edge train of a
    frame, `SENTData` yields the transmitted status, data and CRC nibbles.
  */
  lemma TransmittedFrameDecodes(d: Decoder, start: nat, u: nat, ns: seq<nat>, mode: int, diff: TickDiff)
    requires Inv(d) && !d.syncFound && d.lowTick == start && u > 0 && Subtracts(diff)
    requires InRange(ns)
    ensures Runnable(d, FrameWaveform(start, u, ns), diff)
    ensures var r := Run(d, FrameWaveform(start, u, ns), diff);
      Readable(r) && Nibbles(r.frame, r.syncTick) == ns && SentData(r, mode) == SentDataOf(ns, mode)
  {
    TransmittedFrameRun(d, start, u, ns, diff);
    PublishedFrameDecodes(Run(d, FrameWaveform(start, u, ns), diff), u, ns, mode);
  }

  /** A published frame of exact nibble lengths under a whole-tick sync period reads back as those nibbles. */
  lemma PublishedFrameDecodes(r: Decoder, u: nat, ns: seq<nat>, mode: int)
    requires u > 0 && InRange(ns) && r.syncTick == SyncTicks * u
    requires r.frame == [SyncTicks * u, SyncTicks * u] + Lengths(u, ns)
    ensures Readable(r) && Nibbles(r.frame, r.syncTick) == ns
    ensures SentData(r, mode) == SentDataOf(ns, mode)
  {
    forall i | 0 <= i < 8 ensures r.frame[i + 2] == (ns[i] + NibbleOffset) * u {
      assert r.frame[i + 2] == Lengths(u, ns)[i];
    }
    FrameOfNibbles(r, u, ns, mode);
  }
}
