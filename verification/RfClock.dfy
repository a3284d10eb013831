/** The receive clock of a radio unit: `ru_thread` counts (frame, subframe) by itself while `rx_rf`
    decodes them from device timestamps, absorbing drift and frame-resynchronisation commands. */
module RfClock {
  import opened CInt

  const SFN_PERIOD: nat := 10240

  /** Sizes for which the 32-bit products of the source do not wrap. */
  predicate FrameParms(n: int) {
    0 < n && n * SFN_PERIOD <= 0xffff_ffff
  }

  datatype Command = Empty | FrameResynch(cmdval: nat)

  /** `RU_proc_t`/`RU_t` timing fields, the counters local to `ru_thread`, and whether an
      `exit_fun` was reached. */
  datatype Clock = Clock(
    timestampRx: int, tsOffset: int, frameRx: int, ttiRx: int, firstRx: bool,
    cmd: Command, frame: int, subframe: int, exited: bool)

  /** State after `init_RU0` and `init_RU_proc`, with the initial counters of `ru_thread`. */
  const START: Clock := Clock(0, 0, 0, 0, true, Empty, 1023, 9, false)

  /** Decoding of a timestamp: `(ts / (n*10)) & 1023` and `(ts / n) % 10`. */
  function Sfn(ts: int, n: int): int
    requires n > 0
  {
    CDiv(ts, n * 10) % 1024
  }

  function Tti(ts: int, n: int): int
    requires n > 0
  {
    CRem(CDiv(ts, n), 10)
  }

  /** The counter of `ru_thread`. */
  function NextSubframe(c: Clock): Clock {
    if c.subframe == 9 then c.(subframe := 0, frame := (c.frame + 1) % 1024)
    else c.(subframe := c.subframe + 1)
  }

  /** Samples in d frames, as the 32-bit product of the source. */
  function FrameSamples(d: int, n: int): nat {
    U32(d * n * 10)
  }

  /** The offset after a frame resynchronisation command, if one is pending. */
  function ResynchedOffset(c: Clock, n: int): int {
    match c.cmd
    case Empty => c.tsOffset
    case FrameResynch(v) =>
      if c.frameRx > v then c.tsOffset + FrameSamples(c.frameRx - v, n)
      else c.tsOffset - FrameSamples(v - c.frameRx, n)
  }

  /** Offset and timestamp after the first-read and drift branches. */
  function Compensate(c: Clock, n: int, ts: int): (int, int) {
    var off := ResynchedOffset(c, n);
    var t := ts - off;
    if c.firstRx then (t, 0)
    else if c.cmd.Empty? && t - c.timestampRx != n then
      var off' := off + (t - c.timestampRx - n);
      (off', ts - off')
    else (off, t)
  }

  /** `rx_rf` on a read of n samples stamped ts. */
  function RxRf(c: Clock, n: int, ts: int): Clock
    requires n > 0
  {
    var (off, t) := Compensate(c, n, ts);
    var f, k := Sfn(t, n), Tti(t, n);
    var frame := if c.cmd.FrameResynch? then c.cmd.cmdval else c.frame;
    var c' := c.(timestampRx := t, tsOffset := off, frameRx := f, ttiRx := k, cmd := Empty, firstRx := false);
    if c.firstRx then c'.(frame := f, subframe := k)
    else c'.(frame := frame, exited := c.exited || k != c.subframe || f != frame)
  }

  class RadioUnit {
    const samples_per_tti: int
    var timestamp_rx: int
    var ts_offset: int
    var frame_rx: int
    var tti_rx: int
    var first_rx: bool
    var cmd: Command
    var frame: int
    var subframe: int
    var exited: bool

    ghost function State(): Clock
      reads this
    {
      Clock(timestamp_rx, ts_offset, frame_rx, tti_rx, first_rx, cmd, frame, subframe, exited)
    }

    constructor (n: int)
      ensures State() == START && samples_per_tti == n
    {
      samples_per_tti := n;
      timestamp_rx, ts_offset, frame_rx, tti_rx, first_rx := 0, 0, 0, 0, true;
      cmd, frame, subframe, exited := Empty, 1023, 9, false;
    }

    /** One pass of `ru_thread`, which reads one subframe stamped ts. */
    method ReadSubframe(ts: int)
      requires samples_per_tti > 0
      modifies this
      ensures State() == RxRf(NextSubframe(old(State())), samples_per_tti, ts)
    {
      hide Sfn, Tti, FrameSamples;
      if subframe == 9 {
        subframe := 0;
        frame := frame + 1;
        frame := frame % 1024;
      } else {
        subframe := subframe + 1;
      }
      ghost var c := State();
      assert c == NextSubframe(old(State()));
      var old_ts, resynch := timestamp_rx, false;
      if cmd.FrameResynch? {
        if frame_rx > cmd.cmdval {
          ts_offset := ts_offset + FrameSamples(frame_rx - cmd.cmdval, samples_per_tti);
        } else {
          ts_offset := ts_offset - FrameSamples(-frame_rx + cmd.cmdval, samples_per_tti);
        }
        frame := cmd.cmdval;
        cmd := Empty;
        resynch := true;
      }
      timestamp_rx := ts - ts_offset;
      if first_rx {
        ts_offset := timestamp_rx;
        timestamp_rx := 0;
      } else if !resynch && timestamp_rx - old_ts != samples_per_tti {
        ts_offset := ts_offset + (timestamp_rx - old_ts - samples_per_tti);
        timestamp_rx := ts - ts_offset;
      }
      assert (ts_offset, timestamp_rx) == Compensate(c, samples_per_tti, ts);
      frame_rx := Sfn(timestamp_rx, samples_per_tti);
      tti_rx := Tti(timestamp_rx, samples_per_tti);
      if !first_rx {
        if tti_rx != subframe { exited := true; }
        if frame_rx != frame { exited := true; }
      } else {
        first_rx := false;
        frame := frame_rx;
        subframe := tti_rx;
      }
    }
  }

  // ---------------------------------------------------------------- decoding

  /** The position of a timestamp within the SFN period, in subframes. */
  function Slot(ts: int, n: int): int
    requires n > 0
  {
    (ts / n) % SFN_PERIOD
  }

  /** Frame and tti are the digits of the slot. */
  lemma DecodeIsSlot(ts: int, n: int)
    requires n > 0 && ts >= 0
    ensures 0 <= Sfn(ts, n) < 1024 && 0 <= Tti(ts, n) < 10
    ensures 10 * Sfn(ts, n) + Tti(ts, n) == Slot(ts, n)
  {
    DivDiv(ts, n, 10);
    var q := ts / n;
    assert q / 10 == 1024 * (q / 10 / 1024) + (q / 10) % 1024;
    DivUnique(q, SFN_PERIOD, q / 10 / 1024, 10 * ((q / 10) % 1024) + q % 10);
  }

  /** Moving k subframes and r samples from the start of the sample's own subframe. */
  lemma SlotShift(ts: int, n: int, k: int, r: int)
    requires n > 0 && 0 <= r < n
    ensures Slot(ts - ts % n + n * k + r, n) == (Slot(ts, n) + k) % SFN_PERIOD
    ensures (ts - ts % n + n * k + r) % n == r
  {
    var q := ts / n;
    assert ts - ts % n == n * q;
    assert n * q + n * k == n * (q + k);
    DivUnique(n * (q + k) + r, n, q + k, r);
  }

  lemma SlotNext(ts: int, n: int)
    requires n > 0
    ensures Slot(ts + n, n) == (Slot(ts, n) + 1) % SFN_PERIOD
  {
    SlotShift(ts, n, 1, ts % n);
  }

  // ---------------------------------------------------------------- runs

  /** One pass: the device timestamp, and the command posted before it, if any. */
  datatype Read = Read(ts: int, cmd: Command)

  function Pass(c: Clock, n: int, r: Read): Clock
    requires n > 0
  {
    RxRf(NextSubframe(if r.cmd.Empty? then c else c.(cmd := r.cmd)), n, r.ts)
  }

  function Run(n: int, rs: seq<Read>): Clock
    requires n > 0
  {
    if rs == [] then START else Pass(Run(n, rs[..|rs| - 1]), n, rs[|rs| - 1])
  }

  /** Decoded time and counted time agree, on a clock that never runs backwards past zero. */
  predicate InStep(c: Clock, n: int)
    requires n > 0
  {
    && !c.firstRx && !c.exited && c.cmd == Empty
    && c.timestampRx >= 0
    && c.frameRx == c.frame && 0 <= c.frame < 1024
    && c.ttiRx == c.subframe && 0 <= c.subframe < 10
    && 10 * c.frame + c.subframe == Slot(c.timestampRx, n)
  }

  /** How far the read departs from the n samples that should separate two reads. */
  function Drift(c: Clock, n: int, ts: int): int {
    ts - c.tsOffset - c.timestampRx - n
  }

  /** The first read starts the clock at frame 0 subframe 0, whatever the device's time, the counters of
      `ru_thread` and a pending command. */
  lemma FirstReadFrom(c: Clock, n: int, r: Read)
    requires n > 0 && c.firstRx && !c.exited
    ensures var c' := Pass(c, n, r);
            && InStep(c', n) && c'.timestampRx == 0 && c'.frame == 0 && c'.subframe == 0
            && (r.cmd.Empty? && c.cmd.Empty? && c.tsOffset == 0 ==> c'.tsOffset == r.ts)
  {
    hide Sfn, Tti, FrameSamples, Slot;
    DecodeIsSlot(0, n);
    ZeroSlot(n);
  }

  lemma FirstRead(n: int, r: Read)
    requires n > 0
    ensures var c := Pass(START, n, r);
            && InStep(c, n) && c.timestampRx == 0 && c.frame == 0 && c.subframe == 0
            && (r.cmd.Empty? ==> c.tsOffset == r.ts)
  {
    FirstReadFrom(START, n, r);
    hide Pass, Slot;
  }

  lemma ZeroSlot(n: int)
    requires n > 0
    ensures Slot(0, n) == 0
  {
  }

  /** Without a command, whatever the drift, the clock advances by exactly n and both tests pass. */
  lemma PlainPass(c: Clock, n: int, r: Read)
    requires n > 0 && InStep(c, n) && r.cmd.Empty?
    ensures var c' := Pass(c, n, r);
            && InStep(c', n)
            && c'.timestampRx == c.timestampRx + n && c'.tsOffset == r.ts - c'.timestampRx
            && 10 * c'.frame + c'.subframe == (10 * c.frame + c.subframe + 1) % SFN_PERIOD
  {
    hide Sfn, Tti, FrameSamples, Slot;
    DecodeIsSlot(c.timestampRx + n, n);
    SlotNext(c.timestampRx, n);
  }

  lemma FrameSamplesExact(d: int, n: int)
    requires FrameParms(n) && 0 <= d <= 1023
    ensures FrameSamples(d, n) == n * (10 * d)
  {
    assert d * n * 10 == n * (10 * d);
    assert n * (10 * d) <= n * 10240 by { assert n * (10240 - 10 * d) >= 0; }
  }

  /** A command shifts the clock by whole frames, towards the commanded one. */
  lemma CommandShift(c: Clock, n: int, r: Read)
    requires FrameParms(n) && InStep(c, n) && r.cmd.FrameResynch? && r.cmd.cmdval <= 1023
    ensures var c' := Pass(c, n, r);
            && c'.timestampRx == c.timestampRx + n + Drift(c, n, r.ts) + n * (10 * (r.cmd.cmdval - c.frameRx))
            && c'.tsOffset == r.ts - c'.timestampRx
            && c'.frame == r.cmd.cmdval
            && c'.subframe == (if c.subframe == 9 then 0 else c.subframe + 1)
            && c'.frameRx == Sfn(c'.timestampRx, n) && c'.ttiRx == Tti(c'.timestampRx, n)
            && (c'.exited <==> c'.ttiRx != c'.subframe || c'.frameRx != c'.frame)
            && !c'.firstRx && c'.cmd == Empty
  {
    hide Sfn, Tti, FrameSamples, Slot;
    var d := r.cmd.cmdval - c.frameRx;
    if c.frameRx > r.cmd.cmdval {
      FrameSamplesExact(-d, n);
      assert n * (10 * -d) == -(n * (10 * d));
    } else {
      FrameSamplesExact(d, n);
    }
  }

  /** The truncated decoding of a negative timestamp: the digits of the subframes that lie between it
      and zero, so never a positive tti, and frame v subframe 0 only a whole number of SFN periods
      before frame v. */
  lemma NegativeDigits(ts: int, n: int, v: int)
    requires n > 0 && ts < 0 && 0 <= v < 1024
    ensures Tti(ts, n) <= 0 && 0 <= Sfn(ts, n) < 1024
    ensures Tti(ts, n) == 0 && Sfn(ts, n) == v <==> (ts / n + if ts % n > 0 then 1 else 0) % SFN_PERIOD == 10 * v
  {
    var m := (-ts) / n;
    assert ts == n * (ts / n) + ts % n;
    if ts % n > 0 {
      assert n * (-(ts / n) - 1) + (n - ts % n) == -ts;
      DivUnique(-ts, n, -(ts / n) - 1, n - ts % n);
    } else {
      assert n * (-(ts / n)) == -ts;
      DivUnique(-ts, n, -(ts / n), 0);
    }
    DivDiv(-ts, n, 10);
    assert CDiv(ts, n) == -m && CDiv(ts, n * 10) == -(m / 10) && CDiv(-m, 10) == -(m / 10);
    assert Tti(ts, n) == -(m % 10) && Sfn(ts, n) == (-(m / 10)) % 1024;
    hide Tti, Sfn, CDiv;
    NegatedDigits(m, v);
  }

  lemma NegatedDigits(m: int, v: int)
    requires m >= 0 && 0 <= v < 1024
    ensures (-m) % SFN_PERIOD == 10 * v <==> m % 10 == 0 && (-(m / 10)) % 1024 == v
  {
    var p, r := m / 10, m % 10;
    var w := (-p) % 1024;
    var u := if r == 0 then 0 else 1;
    var x := 10 * ((-p - u) % 1024) + (if r == 0 then 0 else 10 - r);
    DivUnique(-m, SFN_PERIOD, (-p - u) / 1024, x);
  }

  /** Where a commanded pass lands, with j whole subframes of drift: the commanded frame, and the
      slot j further than the next one. */
  lemma CommandSlot(c: Clock, n: int, r: Read, j: int, rest: int)
    requires FrameParms(n) && InStep(c, n) && r.cmd.FrameResynch? && r.cmd.cmdval <= 1023
    requires 0 <= rest < n && c.timestampRx % n + Drift(c, n, r.ts) == n * j + rest
    ensures var t := Pass(c, n, r).timestampRx;
            && Slot(t, n) == (10 * r.cmd.cmdval + c.ttiRx + 1 + j) % SFN_PERIOD
            && t % n == rest
            && (c.ttiRx + 1 + j >= 0 ==> t >= 0)
  {
    hide Pass, Sfn, Tti, FrameSamples, Slot, CDiv;
    var t0 := c.timestampRx;
    var d := 10 * (r.cmd.cmdval - c.frameRx);
    CommandShift(c, n, r);
    LandingPoint(t0, n, j, rest, d, Drift(c, n, r.ts));
    SlotShift(t0, n, 1 + j + d, rest);
    SlotArithmetic(t0, n, c.frameRx, c.ttiRx, r.cmd.cmdval, j, rest);
  }

  lemma SlotArithmetic(t0: int, n: int, f: int, tti: int, v: int, j: int, rest: int)
    requires n > 0 && t0 >= 0 && f >= 0 && v >= 0 && rest >= 0 && Slot(t0, n) == 10 * f + tti
    ensures (Slot(t0, n) + 1 + j + 10 * (v - f)) % SFN_PERIOD == (10 * v + tti + 1 + j) % SFN_PERIOD
    ensures tti + 1 + j >= 0 ==> n * (t0 / n + (1 + j + 10 * (v - f))) + rest >= 0
  {
    var q := t0 / n;
    assert q >= q % SFN_PERIOD;
    if tti + 1 + j >= 0 {
      var k := q + (1 + j + 10 * (v - f));
      assert k >= 0;
      assert n * k >= 0;
    }
  }

  lemma LandingPoint(t0: int, n: int, j: int, rest: int, d: int, drift: int)
    requires n > 0 && t0 % n + drift == n * j + rest
    ensures t0 + n + drift + n * d == t0 - t0 % n + n * (1 + j + d) + rest
    ensures t0 - t0 % n + n * (1 + j + d) + rest == n * (t0 / n + (1 + j + d)) + rest
  {
    assert n * (1 + j + d) == n + n * j + n * d;
  }

  /** The timestamp of a commanded pass. */
  function LandsAt(c: Clock, n: int, r: Read): int
    requires r.cmd.FrameResynch?
  {
    c.timestampRx + n + Drift(c, n, r.ts) + n * (10 * (r.cmd.cmdval - c.frameRx))
  }

  /** How many subframes a read lies beyond the one that is due. */
  function Ahead(c: Clock, n: int, r: Read): int
    requires n > 0
  {
    (c.timestampRx % n + Drift(c, n, r.ts)) / n
  }

  /** The command names a frame, lands on a non-negative timestamp, and the read is a whole number of
      SFN periods ahead, ten subframes short of it after the last subframe of a frame. */
  predicate KeepsStep(c: Clock, n: int, r: Read)
    requires n > 0 && r.cmd.FrameResynch?
  {
    && r.cmd.cmdval <= 1023
    && LandsAt(c, n, r) >= 0
    && (Ahead(c, n, r) + if c.ttiRx == 9 then 10 else 0) % SFN_PERIOD == 0
  }

  /** Before zero the truncated decoding can still read as the counted time. */
  predicate SlipsThrough(c: Clock, n: int, r: Read)
    requires n > 0 && r.cmd.FrameResynch?
  {
    && r.cmd.cmdval <= 1023
    && LandsAt(c, n, r) < 0 && c.ttiRx == 9
    && (Ahead(c, n, r) + 10 + if LandsAt(c, n, r) % n > 0 then 1 else 0) % SFN_PERIOD == 0
  }

  /** For every command, drift and previous tti: exactly when a commanded pass keeps the two clocks in
      step, and exactly when it reaches no exit. When the read stays in the subframe that is due, this
      comes down to a proper frame number and a previous tti other than 9. */
  lemma ResynchIff(c: Clock, n: int, r: Read)
    requires FrameParms(n) && InStep(c, n) && r.cmd.FrameResynch?
    ensures InStep(Pass(c, n, r), n) <==> KeepsStep(c, n, r)
    ensures !Pass(c, n, r).exited <==> KeepsStep(c, n, r) || SlipsThrough(c, n, r)
    ensures Ahead(c, n, r) == 0 ==> (InStep(Pass(c, n, r), n) <==> r.cmd.cmdval <= 1023 && c.ttiRx != 9)
  {
    hide Pass, Sfn, Tti, FrameSamples, Slot, CDiv, Drift, LandsAt, Ahead;
    if r.cmd.cmdval > 1023 {
      NoSuchFrame(c, n, r);
    } else {
      CommandDecodes(c, n, r);
      CommandShift(c, n, r);
      UndriftedCommand(c, n, r);
    }
  }

  lemma UndriftedCommand(c: Clock, n: int, r: Read)
    requires FrameParms(n) && InStep(c, n) && r.cmd.FrameResynch? && r.cmd.cmdval <= 1023
    ensures Ahead(c, n, r) == 0 ==> (KeepsStep(c, n, r) <==> c.ttiRx != 9)
  {
    hide Pass, Sfn, Tti, FrameSamples, Slot, CDiv;
    CommandSlot(c, n, r, Ahead(c, n, r), (c.timestampRx % n + Drift(c, n, r.ts)) % n);
    CommandShift(c, n, r);
  }

  /** The frame decoded from a timestamp is never above 1023. */
  lemma NoSuchFrame(c: Clock, n: int, r: Read)
    requires FrameParms(n) && InStep(c, n) && r.cmd.FrameResynch? && r.cmd.cmdval > 1023
    ensures Pass(c, n, r).exited && !InStep(Pass(c, n, r), n)
  {
    hide Tti, FrameSamples, Slot, CDiv;
    var c' := Pass(c, n, r);
    assert c'.frame == r.cmd.cmdval && 0 <= c'.frameRx < 1024;
  }

  lemma CommandDecodes(c: Clock, n: int, r: Read)
    requires FrameParms(n) && InStep(c, n) && r.cmd.FrameResynch? && r.cmd.cmdval <= 1023
    ensures var t := LandsAt(c, n, r);
            && Pass(c, n, r).timestampRx == t
            && (Tti(t, n) == (if c.ttiRx == 9 then 0 else c.ttiRx + 1) && Sfn(t, n) == r.cmd.cmdval <==>
                KeepsStep(c, n, r) || SlipsThrough(c, n, r))
            && (t >= 0 ==> 0 <= Tti(t, n) < 10 && 10 * Sfn(t, n) + Tti(t, n) == Slot(t, n))
  {
    hide Pass, Sfn, Tti, FrameSamples, Slot, CDiv;
    var x := c.timestampRx % n + Drift(c, n, r.ts);
    CommandSlot(c, n, r, x / n, x % n);
    CommandShift(c, n, r);
    var t, v, j := LandsAt(c, n, r), r.cmd.cmdval, Ahead(c, n, r);
    hide LandsAt, Drift, Ahead;
    if t >= 0 {
      DecodeIsSlot(t, n);
      DigitsMatch(Sfn(t, n), Tti(t, n), c.ttiRx, v, j);
    } else {
      NegativeDigits(t, n, v);
      if c.ttiRx == 9 {
        LandsBefore(t, n, v, j);
      }
    }
  }

  lemma LandsBefore(t: int, n: int, v: int, j: int)
    requires n > 0 && 0 <= v < 1024 && Slot(t, n) == (10 * v + 10 + j) % SFN_PERIOD
    ensures var e := if t % n > 0 then 1 else 0;
            (t / n + e) % SFN_PERIOD == 10 * v <==> (j + 10 + e) % SFN_PERIOD == 0
  {
    var e := if t % n > 0 then 1 else 0;
    var q, w := t / n, 10 * v + 10 + j;
    assert q == SFN_PERIOD * (q / SFN_PERIOD) + q % SFN_PERIOD && w == SFN_PERIOD * (w / SFN_PERIOD) + w % SFN_PERIOD;
    DivShift(w + e, SFN_PERIOD, q / SFN_PERIOD - w / SFN_PERIOD);
    assert q + e == w + e + SFN_PERIOD * (q / SFN_PERIOD - w / SFN_PERIOD);
    ShiftFixes(10 * v, j + 10 + e);
  }

  /** The slot reached reads as the counted time exactly after a drift of whole periods. */
  lemma DigitsMatch(f: int, k: int, tti: int, v: int, j: int)
    requires 0 <= f < 1024 && 0 <= k < 10 && 0 <= tti <= 9 && 0 <= v <= 1023
    requires 10 * f + k == (10 * v + tti + 1 + j) % SFN_PERIOD
    ensures f == v && k == (if tti == 9 then 0 else tti + 1) <==>
            (j + if tti == 9 then 10 else 0) % SFN_PERIOD == 0
  {
    var next := if tti == 9 then 0 else tti + 1;
    var d := j + if tti == 9 then 10 else 0;
    assert 10 * v + tti + 1 + j == 10 * v + next + d;
    ShiftFixes(10 * v + next, d);
  }

  lemma ShiftFixes(e: int, d: int)
    requires 0 <= e < SFN_PERIOD
    ensures (e + d) % SFN_PERIOD == e <==> d % SFN_PERIOD == 0
  {
    var q := d / SFN_PERIOD;
    if d % SFN_PERIOD == 0 {
      DivUnique(e + d, SFN_PERIOD, q, e);
    }
  }

  // ---------------------------------------------------------------- whole runs

  /** Whatever the device timestamps, the k-th read without commands lands on k*n, the offset absorbs
      all the drift, frame and subframe count up from zero, and no exit is reached. */
  lemma {:induction false} DriftAbsorbed(n: int, rs: seq<Read>)
    requires n > 0 && rs != [] && forall r | r in rs :: r.cmd.Empty?
    ensures var c := Run(n, rs);
            && InStep(c, n)
            && c.timestampRx == n * (|rs| - 1)
            && c.tsOffset == rs[|rs| - 1].ts - c.timestampRx
            && 10 * c.frame + c.subframe == (|rs| - 1) % SFN_PERIOD
  {
    hide Pass, Slot;
    if |rs| == 1 {
      assert Run(n, rs[..0]) == START;
      FirstRead(n, rs[0]);
    } else {
      DriftAbsorbed(n, rs[..|rs| - 1]);
      PlainPass(Run(n, rs[..|rs| - 1]), n, rs[|rs| - 1]);
      NextMultiple(n, |rs| - 2);
    }
  }

  lemma NextMultiple(n: int, m: nat)
    requires n > 0
    ensures n * m + n == n * (m + 1)
    ensures (m % SFN_PERIOD + 1) % SFN_PERIOD == (m + 1) % SFN_PERIOD
  {
  }

  /** A command is harmless on the first read and where its condition holds. */
  predicate Harmless(c: Clock, n: int, r: Read)
    requires n > 0
  {
    r.cmd.FrameResynch? && !c.firstRx ==> KeepsStep(c, n, r)
  }

  predicate HarmlessRun(n: int, rs: seq<Read>)
    requires n > 0
  {
    rs == [] || (HarmlessRun(n, rs[..|rs| - 1]) && Harmless(Run(n, rs[..|rs| - 1]), n, rs[|rs| - 1]))
  }

  ghost predicate StaysInStep(n: int, rs: seq<Read>)
    requires n > 0
  {
    forall k | 0 < k <= |rs| :: InStep(Run(n, rs[..k]), n)
  }

  lemma PassIff(c: Clock, n: int, r: Read)
    requires FrameParms(n) && (c == START || InStep(c, n))
    ensures InStep(Pass(c, n, r), n) <==> Harmless(c, n, r)
  {
    if c == START {
      FirstRead(n, r);
    } else if r.cmd.Empty? {
      PlainPass(c, n, r);
    } else {
      ResynchIff(c, n, r);
    }
    hide Pass, KeepsStep, Slot;
  }

  /** Commands and drift anywhere in a run: decoded and counted time agree after every read if and only
      if every command was harmless when it was applied. */
  lemma {:induction false} ResynchRunIff(n: int, rs: seq<Read>)
    requires FrameParms(n)
    ensures StaysInStep(n, rs) <==> HarmlessRun(n, rs)
  {
    hide Pass, Harmless, InStep;
    if rs != [] {
      var m := |rs| - 1;
      ResynchRunIff(n, rs[..m]);
      assert rs[..|rs|] == rs;
      assert forall k | 0 < k <= m :: rs[..m][..k] == rs[..k];
      assert rs[..m] != [] ==> rs[..m][..m] == rs[..m];
      if StaysInStep(n, rs[..m]) {
        PassIff(Run(n, rs[..m]), n, rs[m]);
      } else {
        var k :| 0 < k <= m && !InStep(Run(n, rs[..m][..k]), n);
        assert !InStep(Run(n, rs[..k]), n);
      }
    }
  }

  /** In such a run no exit is reached, the timestamp is never negative and its position in the SFN
      period is the counted (frame, subframe); after a command the frame is the commanded one and the
      subframe is the next one. */
  lemma ResynchSafe(n: int, rs: seq<Read>)
    requires FrameParms(n) && rs != [] && HarmlessRun(n, rs)
    ensures var c := Run(n, rs);
            && !c.exited && c.timestampRx >= 0
            && Slot(c.timestampRx, n) == 10 * c.frame + c.subframe
            && InStep(c, n)
    ensures var r := rs[|rs| - 1];
            r.cmd.FrameResynch? && |rs| > 1 ==>
              && Run(n, rs).frame == r.cmd.cmdval
              && Run(n, rs).subframe == (Run(n, rs[..|rs| - 1]).subframe + 1) % 10
  {
    hide Pass, Slot, Run, HarmlessRun, InStep;
    var m := |rs| - 1;
    ResynchRunIff(n, rs);
    assert rs[..|rs|] == rs;
    assert InStep(Run(n, rs), n);
    InStepMeans(Run(n, rs), n);
    if rs[m].cmd.FrameResynch? && m > 0 {
      assert InStep(Run(n, rs[..m]), n);
      RunLast(n, rs);
      CommandedTime(Run(n, rs[..m]), n, rs[m]);
    }
  }

  lemma InStepMeans(c: Clock, n: int)
    requires n > 0 && InStep(c, n)
    ensures !c.exited && c.timestampRx >= 0 && Slot(c.timestampRx, n) == 10 * c.frame + c.subframe
  {
  }

  lemma RunLast(n: int, rs: seq<Read>)
    requires n > 0 && rs != []
    ensures Run(n, rs) == Pass(Run(n, rs[..|rs| - 1]), n, rs[|rs| - 1])
  {
    hide Pass;
  }

  /** A command that keeps the clocks in step sets the frame and lets the subframe count on. */
  lemma CommandedTime(c: Clock, n: int, r: Read)
    requires FrameParms(n) && InStep(c, n) && r.cmd.FrameResynch? && InStep(Pass(c, n, r), n)
    ensures Pass(c, n, r).frame == r.cmd.cmdval && Pass(c, n, r).subframe == (c.subframe + 1) % 10
  {
    hide Sfn, Tti, FrameSamples, Slot;
  }

  /** A command after the last subframe of a frame is decoded one frame late and exits. */
  lemma FrameEndDecodesLate(c: Clock, n: int, r: Read)
    requires FrameParms(n) && InStep(c, n) && r.cmd.FrameResynch? && r.cmd.cmdval <= 1023
    requires c.ttiRx == 9 && Ahead(c, n, r) == 0
    ensures var c' := Pass(c, n, r);
            c'.exited && c'.frame == r.cmd.cmdval && c'.frameRx == (r.cmd.cmdval + 1) % 1024
  {
    hide Pass, Sfn, Tti, FrameSamples, Slot, CDiv;
    CommandShift(c, n, r);
    CommandSlot(c, n, r, 0, (c.timestampRx % n + Drift(c, n, r.ts)) % n);
    var t, v := Pass(c, n, r).timestampRx, r.cmd.cmdval;
    hide Drift, Ahead;
    DecodeIsSlot(t, n);
    NextFrame(Sfn(t, n), Tti(t, n), v);
  }

  lemma NextFrame(f: int, k: int, v: int)
    requires 0 <= f < 1024 && 0 <= k < 10 && 0 <= v < 1024 && 10 * f + k == (10 * v + 10) % SFN_PERIOD
    ensures f == (v + 1) % 1024 && f != v
  {
    if v < 1023 {
      assert (10 * v + 10) % SFN_PERIOD == 10 * (v + 1) && (v + 1) % 1024 == v + 1;
    } else {
      assert (10 * v + 10) % SFN_PERIOD == 0 && (v + 1) % 1024 == 0;
    }
  }

  /** This is reached: with 30720 samples to a subframe and reads without drift, by a command after the
      tenth read. */
  lemma ResynchAtFrameEnd(v: nat)
    requires v <= 1023
    ensures var rs := Undisturbed(10);
            && StaysInStep(30720, rs)
            && Run(30720, rs + [Read(30720 * 10, FrameResynch(v))]).exited
  {
    hide Pass, Slot, Run, StaysInStep, HarmlessRun;
    var n, rs := 30720, Undisturbed(10);
    var r := Read(n * 10, FrameResynch(v));
    UndisturbedHarmless(10);
    ResynchRunIff(n, rs);
    DriftAbsorbed(n, rs);
    RunSnoc(n, rs, r);
    TenthRead(Run(n, rs), r);
    FrameEndDecodesLate(Run(n, rs), n, r);
  }

  lemma {:induction false} UndisturbedHarmless(k: nat)
    ensures HarmlessRun(30720, Undisturbed(k))
  {
    if k > 0 {
      UndisturbedHarmless(k - 1);
      assert Undisturbed(k)[..k - 1] == Undisturbed(k - 1);
      hide Run;
    }
  }

  lemma TenthRead(c: Clock, r: Read)
    requires InStep(c, 30720) && c.timestampRx == 30720 * 9 && c.tsOffset == 0 && r.ts == 30720 * 10
    ensures Ahead(c, 30720, r) == 0
  {
    hide Slot;
  }

  lemma RunSnoc(n: int, rs: seq<Read>, r: Read)
    requires n > 0
    ensures Run(n, rs + [r]) == Pass(Run(n, rs), n, r)
  {
    assert (rs + [r])[..|rs|] == rs;
  }

  function Undisturbed(k: nat): seq<Read> {
    seq(k, i requires 0 <= i < k => Read(30720 * i, Empty))
  }
}
