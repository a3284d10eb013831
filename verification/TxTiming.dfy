/** Transmit timing: the look-ahead from a received subframe to the one to transmit, and the
    unwrapping of the 10-bit frame numbers that arrive from the north fronthaul. */
module TxTiming {
  import opened CInt
  import opened RfClock

  // ---------------------------------------------------------------- look-ahead

  /** `(tti_rx > 9 - sf_ahead) ? (frame_rx + 1) & 1023 : frame_rx`. */
  function FrameAhead(frame: int, tti: int, ahead: int): int {
    if tti > 9 - ahead then (frame + 1) % 1024 else frame
  }

  function TtiAhead(tti: int, ahead: int): int {
    (tti + ahead) % 10
  }

  /** The conditional form is the decoding of the timestamp `ahead` subframes later if and only if
      the sum of tti and look-ahead stays below 20; so it is for every timestamp up to a look-ahead
      of 10, and for a larger one it misses a frame on the last subframes. */
  lemma LookAheadIff(ts: int, n: int, ahead: int)
    requires n > 0 && ts >= 0 && 0 <= ahead <= 10230
    ensures (FrameAhead(Sfn(ts, n), Tti(ts, n), ahead), TtiAhead(Tti(ts, n), ahead))
         == (Sfn(ts + n * ahead, n), Tti(ts + n * ahead, n))
       <==> Tti(ts, n) + ahead < 20
  {
    hide Sfn, Tti, Slot;
    assert n * ahead >= 0;
    DecodeIsSlot(ts, n);
    DecodeIsSlot(ts + n * ahead, n);
    SlotAhead(ts, n, ahead);
    CarryOnce(Sfn(ts, n), Tti(ts, n), ahead, Sfn(ts + n * ahead, n), Tti(ts + n * ahead, n));
  }

  lemma SlotAhead(ts: int, n: int, k: int)
    requires n > 0
    ensures Slot(ts + n * k, n) == (Slot(ts, n) + k) % SFN_PERIOD
  {
    SlotShift(ts, n, k, ts % n);
  }

  /** Adding to the tti digit carries into the frame digit at most once below 20. */
  lemma CarryOnce(f: int, t: int, ahead: int, f': int, t': int)
    requires 0 <= f < 1024 && 0 <= t < 10 && 0 <= f' < 1024 && 0 <= t' < 10 && 0 <= ahead <= 10230
    requires 10 * f' + t' == (10 * f + t + ahead) % SFN_PERIOD
    ensures t' == TtiAhead(t, ahead)
    ensures f' == FrameAhead(f, t, ahead) <==> t + ahead < 20
  {
    var w := (t + ahead) / 10;
    assert 10 * f + t + ahead == 10 * (f + w) + (t + ahead) % 10;
    if f + w < 1024 {
      assert f' == f + w;
    } else {
      assert f' == f + w - 1024;
    }
  }

  lemma LookAheadDecodes(ts: int, n: int, ahead: int)
    requires n > 0 && ts >= 0 && 0 <= ahead <= 10
    ensures FrameAhead(Sfn(ts, n), Tti(ts, n), ahead) == Sfn(ts + n * ahead, n)
    ensures TtiAhead(Tti(ts, n), ahead) == Tti(ts + n * ahead, n)
  {
    hide Sfn, Tti;
    DecodeIsSlot(ts, n);
    LookAheadIff(ts, n, ahead);
  }

  /** The standalone UE recovers the received subframe from the transmitted one. */
  function FrameBack4(sfn: int, sf: int): int {
    if sf < 4 then (sfn + 1023) % 1024 else sfn
  }

  function TtiBack4(sf: int): int {
    if sf < 4 then sf + 6 else sf - 4
  }

  lemma Back4InvertsAhead4(f: int, t: int)
    requires 0 <= f < 1024 && 0 <= t < 10
    ensures FrameBack4(FrameAhead(f, t, 4), TtiAhead(t, 4)) == f && TtiBack4(TtiAhead(t, 4)) == t
    ensures FrameAhead(FrameBack4(f, t), TtiBack4(t), 4) == f && TtiAhead(TtiBack4(t), 4) == t
  {
  }

  // ---------------------------------------------------------------- unwrapping

  const INT_MAX: int := 0x7fff_ffff

  function NextUnwrap(u: int, frame: nat, tti: nat): int {
    if frame == 0 && tti == 0 then I32(u + 1024) else u
  }

  function TimestampTx(u: int, frame: nat, tti: nat, n: int): nat {
    U64(((frame + U64(u)) * 10 + tti) * n)
  }

  /** The frame and subframe digits on the wire for absolute subframe a. */
  function WireFrame(a: nat): nat { (a / 10) % 1024 }
  function WireTti(a: nat): nat { a % 10 }

  /** The unwrap counter after a stream of absolute subframes, and the timestamp of its last one. */
  function Unwrap(sfs: seq<nat>): int {
    if sfs == [] then 0
    else NextUnwrap(Unwrap(sfs[..|sfs| - 1]), WireFrame(sfs[|sfs| - 1]), WireTti(sfs[|sfs| - 1]))
  }

  function StreamTimestamp(sfs: seq<nat>, n: int): nat
    requires sfs != []
  {
    TimestampTx(Unwrap(sfs), WireFrame(sfs[|sfs| - 1]), WireTti(sfs[|sfs| - 1]), n)
  }

  /** How many starts of an SFN period lie strictly between a and b. */
  function SkippedPeriods(a: nat, b: nat): int {
    b / SFN_PERIOD - a / SFN_PERIOD - (if b % SFN_PERIOD == 0 then 1 else 0)
  }

  function Elapsed(a: int, b: int): int { b - a }

  predicate Forward(sfs: seq<nat>) {
    forall i | 0 < i < |sfs| :: sfs[i - 1] < sfs[i]
  }

  predicate NoPeriodSkipped(sfs: seq<nat>) {
    forall i | 0 < i < |sfs| :: SkippedPeriods(sfs[i - 1], sfs[i]) == 0
  }

  lemma WireDigits(a: nat)
    ensures 10 * WireFrame(a) + WireTti(a) == a % SFN_PERIOD
    ensures WireFrame(a) == 0 && WireTti(a) == 0 <==> a % SFN_PERIOD == 0
  {
    DivUnique(a, SFN_PERIOD, a / SFN_PERIOD, 10 * WireFrame(a) + WireTti(a));
  }

  /** Below the widths the timestamp is the plain product. */
  lemma TimestampIs(u: int, a: nat, n: int)
    requires FrameParms(n) && 0 <= u <= INT_MAX
    ensures TimestampTx(u, WireFrame(a), WireTti(a), n) == n * (a % SFN_PERIOD + 10 * u)
  {
    hide U64;
    WireDigits(a);
    var x := a % SFN_PERIOD + 10 * u;
    U64Fits(u);
    assert (WireFrame(a) + U64(u)) * 10 + WireTti(a) == x;
    ProductFits(x, n);
    U64Fits(x * n);
  }

  lemma U64Fits(x: int)
    requires 0 <= x < 0x1_0000_0000_0000_0000
    ensures U64(x) == x
  {
  }

  lemma ProductFits(x: int, n: int)
    requires 0 < n <= 0x7_ffff && 0 <= x <= 0x5_0000_2800
    ensures 0 <= n * x <= 0x7_ffff * 0x5_0000_2800
    ensures x * n == n * x
  {
    MulMonotone(x, n, 0x7_ffff);
    MulMonotone(n, 0, x);
  }

  lemma MulMonotone(x: int, a: int, b: int)
    requires x >= 0 && a <= b
    ensures x * a <= x * b
  {
    assert x * (b - a) >= 0;
    assert x * (b - a) == x * b - x * a;
  }

  /** What the counter gains at subframe b. */
  function Added(b: nat): nat {
    if b % SFN_PERIOD == 0 then 1024 else 0
  }

  /** One step of a forward stream: the timestamps differ by the elapsed subframes, less one whole
      period for every frame 0 subframe 0 that was never received. */
  lemma UnwrapStep(u: int, a: nat, b: nat, n: int)
    requires FrameParms(n) && a < b && 0 <= u && u + Added(b) <= INT_MAX
    ensures var u' := NextUnwrap(u, WireFrame(b), WireTti(b));
            && 0 <= u' <= INT_MAX
            && TimestampTx(u', WireFrame(b), WireTti(b), n) - TimestampTx(u, WireFrame(a), WireTti(a), n)
               == n * (b - a - SFN_PERIOD * SkippedPeriods(a, b))
  {
    hide TimestampTx;
    var u' := NextUnwrap(u, WireFrame(b), WireTti(b));
    WireDigits(b);
    TimestampIs(u, a, n);
    TimestampIs(u', b, n);
    var x, y := a % SFN_PERIOD + 10 * u, b % SFN_PERIOD + 10 * u';
    assert n * y - n * x == n * (y - x);
    assert y - x == b - a - SFN_PERIOD * SkippedPeriods(a, b);
  }

  /** So a step is exact if and only if no frame 0 subframe 0 was skipped. */
  lemma UnwrapExactIff(u: int, a: nat, b: nat, n: int)
    requires FrameParms(n) && a < b && 0 <= u && u + Added(b) <= INT_MAX
    ensures var u' := NextUnwrap(u, WireFrame(b), WireTti(b));
            TimestampTx(u', WireFrame(b), WireTti(b), n) - TimestampTx(u, WireFrame(a), WireTti(a), n) == n * (b - a)
            <==> SkippedPeriods(a, b) == 0
  {
    hide TimestampTx;
    UnwrapStep(u, a, b, n);
    var k := SkippedPeriods(a, b);
    assert n * (b - a - SFN_PERIOD * k) == n * (b - a) - n * (SFN_PERIOD * k);
    if k > 0 {
      MulGe(n, SFN_PERIOD * k);
    } else if k < 0 {
      MulGe(n, -(SFN_PERIOD * k));
    }
  }

  /** The counter counts the SFN periods whose start was received, 1024 frames each. */
  function Starts(sfs: seq<nat>): nat {
    if sfs == [] then 0
    else Starts(sfs[..|sfs| - 1]) + if sfs[|sfs| - 1] % SFN_PERIOD == 0 then 1 else 0
  }

  lemma {:induction false} UnwrapCounts(sfs: seq<nat>)
    requires 1024 * Starts(sfs) <= INT_MAX
    ensures Unwrap(sfs) == 1024 * Starts(sfs)
  {
    if sfs != [] {
      UnwrapCounts(sfs[..|sfs| - 1]);
      WireDigits(sfs[|sfs| - 1]);
    }
  }

  // ---------------------------------------------------------------- whole streams

  /** The step from subframe i - 1 of a stream to subframe i advances the timestamp by exactly the
      elapsed subframes. */
  predicate StepExact(sfs: seq<nat>, n: int, i: nat)
    requires 0 < i < |sfs|
  {
    StreamTimestamp(sfs[..i + 1], n) - StreamTimestamp(sfs[..i], n) == n * Elapsed(sfs[i - 1], sfs[i])
  }

  predicate AllExact(sfs: seq<nat>, n: int) {
    forall i | 0 < i < |sfs| :: StepExact(sfs, n, i)
  }

  /** The counter holds the starts received. */
  predicate CounterHolds(sfs: seq<nat>) {
    1024 * Starts(sfs) <= INT_MAX
  }

  /** The last step of a stream whose counter has not overflowed before is exact if and only if no
      start of a period is skipped and the counter does not overflow at it. */
  lemma LastStepExactIff(sfs: seq<nat>, n: int)
    requires FrameParms(n) && Forward(sfs) && |sfs| >= 2 && CounterHolds(sfs[..|sfs| - 1])
    ensures var m := |sfs| - 1;
            StepExact(sfs, n, m) <==> SkippedPeriods(sfs[m - 1], sfs[m]) == 0 && CounterHolds(sfs)
  {
    hide TimestampTx, SkippedPeriods, NextUnwrap;
    var m := |sfs| - 1;
    assert sfs[..m + 1] == sfs;
    UnwrapCounts(sfs[..m]);
    var u, a, b := Unwrap(sfs[..m]), sfs[m - 1], sfs[m];
    assert Starts(sfs) * 1024 == u + Added(b);
    hide Starts;
    if CounterHolds(sfs) {
      UnwrapExactIff(u, a, b, n);
    } else {
      UnwrapOverflows(u, a, b, n);
    }
  }

  /** A forward stream advances exactly at every step if and only if it never skips the start of an SFN
      period and never receives more starts than the counter can hold. */
  lemma {:induction false} StreamExactIff(sfs: seq<nat>, n: int)
    requires FrameParms(n) && Forward(sfs)
    ensures AllExact(sfs, n) <==> NoPeriodSkipped(sfs) && CounterHolds(sfs)
  {
    hide TimestampTx, SkippedPeriods, StreamTimestamp, Elapsed;
    if |sfs| >= 2 {
      var m := |sfs| - 1;
      var init := sfs[..m];
      StreamExactIff(init, n);
      AllExactInit(sfs, n);
      if CounterHolds(init) {
        LastStepExactIff(sfs, n);
      }
    } else {
      FewStarts(sfs);
    }
  }

  lemma AllExactInit(sfs: seq<nat>, n: int)
    requires |sfs| >= 2
    ensures var m := |sfs| - 1; AllExact(sfs, n) <==> AllExact(sfs[..m], n) && StepExact(sfs, n, m)
  {
    var m := |sfs| - 1;
    forall i | 0 < i < m ensures StepExact(sfs[..m], n, i) <==> StepExact(sfs, n, i) {
      assert sfs[..m][..i + 1] == sfs[..i + 1] && sfs[..m][..i] == sfs[..i];
      hide StreamTimestamp;
    }
    hide StepExact;
  }

  lemma FewStarts(sfs: seq<nat>)
    requires |sfs| <= 1
    ensures CounterHolds(sfs)
  {
    if |sfs| == 1 {
      assert sfs[..0] == [];
    }
  }

  /** So over any number of wraps of the SFN each timestamp is an earlier one plus exactly the elapsed
      subframes, and the timestamps strictly increase. */
  lemma {:induction false} StreamExact(sfs: seq<nat>, n: int, i: nat)
    requires FrameParms(n) && Forward(sfs) && NoPeriodSkipped(sfs) && i < |sfs| && CounterHolds(sfs)
    ensures StreamTimestamp(sfs, n) == StreamTimestamp(sfs[..i + 1], n) + n * Elapsed(sfs[i], sfs[|sfs| - 1])
    ensures i < |sfs| - 1 ==> StreamTimestamp(sfs[..i + 1], n) < StreamTimestamp(sfs, n)
  {
    hide StreamTimestamp, SkippedPeriods;
    var m := |sfs| - 1;
    assert sfs[..m + 1] == sfs;
    if i < m {
      var init := sfs[..m];
      assert init[..i + 1] == sfs[..i + 1];
      StreamExact(init, n, i);
      LastStepExactIff(sfs, n);
      ForwardLess(sfs, i, m);
      AddElapsed(n, sfs[i], sfs[m - 1], sfs[m]);
    }
  }

  lemma AddElapsed(n: int, a: int, b: int, c: int)
    requires n > 0
    ensures n * (c - b) + n * (b - a) == n * (c - a)
    ensures a < c ==> n * (c - a) > 0
  {
  }

  lemma ForwardLess(sfs: seq<nat>, i: nat, j: nat)
    requires Forward(sfs) && i < j < |sfs|
    ensures sfs[i] < sfs[j]
  {
    if i + 1 < j {
      ForwardLess(sfs, i, j - 1);
    }
    assert sfs[j - 1] < sfs[j];
  }

  // ---------------------------------------------------------------- overflow of the counter

  /** The counter is a 32-bit `int`. At the start of a period that overflows it, the counter goes
      negative and the timestamp does not advance by the elapsed subframes, however many they are: the
      difference is off by 2^64 samples, which no whole number of subframes makes up for. */
  lemma UnwrapOverflows(u: int, a: nat, b: nat, n: int)
    requires FrameParms(n) && a < b && 0 <= u <= INT_MAX < u + Added(b)
    ensures var u' := NextUnwrap(u, WireFrame(b), WireTti(b));
            && u' < 0
            && TimestampTx(u', WireFrame(b), WireTti(b), n) - TimestampTx(u, WireFrame(a), WireTti(a), n) != n * (b - a)
  {
    hide TimestampTx;
    var u' := NextUnwrap(u, WireFrame(b), WireTti(b));
    WireDigits(b);
    TimestampIs(u, a, n);
    NegativeTimestamp(u', n);
    assert u' == u + 1024 - 0x1_0000_0000;
    var x, y := a % SFN_PERIOD + 10 * u, 10 * u';
    assert b - a + x - y == 5 * (2048 * (b / SFN_PERIOD - a / SFN_PERIOD) + 2 * (u - u'));
    NotFiveFold(n, b - a, x, y, 2048 * (b / SFN_PERIOD - a / SFN_PERIOD) + 2 * (u - u'));
  }

  lemma NotFiveFold(n: int, d: int, x: int, y: int, w: int)
    requires d + x - y == 5 * w
    ensures n * y + 0x1_0000_0000_0000_0000 - n * x != n * d
  {
    assert n * d + n * x - n * y == n * (d + x - y) == 5 * (n * w);
    assert 0x1_0000_0000_0000_0000 % 5 == 1;
  }

  lemma NegativeTimestamp(u: int, n: int)
    requires FrameParms(n) && -0x8000_0000 <= u < 0
    ensures TimestampTx(u, 0, 0, n) == n * (10 * u) + 0x1_0000_0000_0000_0000
  {
    var w := 0x1_0000_0000_0000_0000;
    assert U64(u) == u + w;
    assert ((0 + U64(u)) * 10 + 0) * n == n * (10 * u) + w * (10 * n);
    DivShift(n * (10 * u), w, 10 * n);
    ProductFits(-10 * u, n);
    assert n * (10 * u) == -(n * (-10 * u));
    assert n * (-10 * u) > 0;
    DivUnique(n * (10 * u), w, -1, n * (10 * u) + w);
  }

  /** The first subframes of k successive periods. */
  function PeriodStarts(k: nat): seq<nat> {
    seq(k, i requires 0 <= i < k => SFN_PERIOD * i)
  }

  lemma {:induction false} StartsOfPeriods(k: nat)
    ensures Starts(PeriodStarts(k)) == k && Forward(PeriodStarts(k)) && NoPeriodSkipped(PeriodStarts(k))
  {
    if k > 0 {
      StartsOfPeriods(k - 1);
      assert PeriodStarts(k)[..k - 1] == PeriodStarts(k - 1);
    }
  }

  /** The overflow is reached by a proper stream: its 2^21st start of a period, about 248 days in. */
  lemma OverflowReached(n: int)
    requires FrameParms(n)
    ensures var sfs := PeriodStarts(2097152);
            && Forward(sfs) && NoPeriodSkipped(sfs)
            && AllExact(sfs[..2097151], n) && !StepExact(sfs, n, 2097151)
  {
    hide StepExact, PeriodStarts, Starts, AllExact;
    var sfs := PeriodStarts(2097152);
    StartsOfPeriods(2097152);
    StartsOfPeriods(2097151);
    FirstPeriods(2097152);
    StreamExactIff(sfs[..2097151], n);
    LastStepExactIff(sfs, n);
  }

  lemma FirstPeriods(k: nat)
    requires k > 0
    ensures |PeriodStarts(k)| == k && PeriodStarts(k)[..k - 1] == PeriodStarts(k - 1)
  {
  }

  // ---------------------------------------------------------------- the code

  /** The fields `fh_if4p5_north_asynch_in` writes once a subframe's symbols are in, with the absolute
      subframes received so far. */
  class NorthPort {
    const samples_per_tti: int
    var frame_tx_unwrap: int
    var timestamp_tx: nat
    var frame_tx: nat
    var tti_tx: nat
    ghost var received: seq<nat>

    ghost predicate Valid()
      reads this
    {
      && frame_tx_unwrap == Unwrap(received)
      && (received != [] ==> timestamp_tx == StreamTimestamp(received, samples_per_tti))
    }

    constructor (n: int)
      ensures Valid() && samples_per_tti == n && received == []
    {
      samples_per_tti, frame_tx_unwrap, timestamp_tx, frame_tx, tti_tx := n, 0, 0, 0, 0;
      received := [];
    }

    /** Absolute subframe `sf` arrives with its digits. While the counter holds, the timestamp is the
        subframe's place in its SFN period and one period for every start received. */
    method SubframeIn(frame: nat, tti: nat, ghost sf: nat)
      requires Valid() && frame == WireFrame(sf) && tti == WireTti(sf)
      modifies this
      ensures Valid() && received == old(received) + [sf]
      ensures frame_tx == frame && tti_tx == tti
      ensures FrameParms(samples_per_tti) && CounterHolds(received) ==>
                timestamp_tx == samples_per_tti * (sf % SFN_PERIOD + SFN_PERIOD * Starts(received))
    {
      tti_tx := tti;
      frame_tx := frame;
      if frame == 0 && tti == 0 {
        frame_tx_unwrap := I32(frame_tx_unwrap + 1024);
      }
      timestamp_tx := U64(((frame + U64(frame_tx_unwrap)) * 10 + tti) * samples_per_tti);
      hide U64, I32;
      ghost var was := received;
      received := received + [sf];
      assert received[..|was|] == was;
      if FrameParms(samples_per_tti) && CounterHolds(received) {
        UnwrapCounts(received);
        TimestampIs(frame_tx_unwrap, sf, samples_per_tti);
      }
    }
  }
}
