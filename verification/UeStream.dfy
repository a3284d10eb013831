/** The block arithmetic of the synchronised UE: each subframe reads one block and writes one ahead
    of it, the tenth absorbing a timing correction of one sample and reading the next frame's first
    symbol. The device reads contiguously: a read is stamped with the end of the previous one. */
module UeStream {
  import opened CInt

  datatype Block = Block(start: int, len: int)

  /** Sizes: samples per subframe, first symbol with its prefix, and `no_timing_correction`. */
  datatype Parms = Parms(n: int, firstSymbol: int, noCorrection: bool)

  /** The first symbol leaves room for a block shortened by one sample. */
  predicate ValidParms(p: Parms) {
    0 < p.firstSymbol < p.n
  }

  datatype Stream = Stream(pos: int, subFrame: int, input: seq<Block>, output: seq<Block>, uncompensated: bool)

  /** After the first symbol has been read at timestamp t0. */
  function Start(p: Parms, t0: int): Stream {
    Stream(t0 + p.firstSymbol, -1, [Block(t0, p.firstSymbol)], [], false)
  }

  /** The correction d applied in the tenth subframe, from the offset the tracking left. */
  function Correction(p: Parms, rxOffset: int): int {
    if p.noCorrection then 0
    else if 0 < rxOffset < 5 * p.n then -1
    else if 5 * p.n < rxOffset < 10 * p.n then 1
    else 0
  }

  function Step(p: Parms, s: Stream, rxOffset: int): Stream {
    var sf := (s.subFrame + 1) % 10;
    var d := if sf == 9 then Correction(p, rxOffset) else 0;
    var write := Block(s.pos + 2 * p.n - p.firstSymbol, p.n - d);
    if sf < 9 then
      Stream(s.pos + p.n, sf, s.input + [Block(s.pos, p.n)], s.output + [write], s.uncompensated)
    else
      var read := Block(s.pos, p.n - p.firstSymbol - d);
      var rest := write.len - read.len;
      var mid := Stream(s.pos + read.len, sf, s.input + [read], s.output + [write], s.uncompensated);
      if rest > 0 then mid.(pos := mid.pos + rest, input := mid.input + [Block(mid.pos, rest)])
      else if rest < 0 then mid.(uncompensated := true)
      else mid
  }

  class Ue {
    const p: Parms
    var position: int                 // of the device
    var sub_frame: int
    var rx_offset_diff: int
    var uncompensated: bool
    ghost var input: seq<Block>
    ghost var output: seq<Block>

    ghost function State(): Stream
      reads this
    {
      Stream(position, sub_frame, input, output, uncompensated)
    }

    /** Resynchronised at timestamp t0: the first symbol is read. */
    constructor (p: Parms, t0: int)
      ensures this.p == p && State() == Start(p, t0)
    {
      this.p := p;
      position, sub_frame, rx_offset_diff, uncompensated := t0 + p.firstSymbol, -1, 0, false;
      input, output := [Block(t0, p.firstSymbol)], [];
    }

    /** `trx_read_func`. */
    method Read(size: int) returns (timestamp: int)
      modifies `position, `input
      ensures timestamp == old(position) && position == old(position) + size
      ensures input == old(input) + [Block(old(position), size)]
    {
      timestamp := position;
      position := position + size;
      input := input + [Block(timestamp, size)];
    }

    /** One subframe of the stream; rxOffset is what the tracking stored in `rx_offset`. */
    method Subframe(rxOffset: int)
      modifies this
      ensures State() == Step(p, old(State()), rxOffset)
    {
      sub_frame := sub_frame + 1;
      sub_frame := sub_frame % 10;
      var readBlockSize, writeBlockSize;
      if sub_frame < 9 {
        readBlockSize, writeBlockSize := p.n, p.n;
      } else {
        rx_offset_diff := 0;
        if !p.noCorrection {
          if rxOffset < 5 * p.n && rxOffset > 0 {
            rx_offset_diff := -1;
          }
          if rxOffset > 5 * p.n && rxOffset < 10 * p.n {
            rx_offset_diff := 1;
          }
        }
        readBlockSize := p.n - p.firstSymbol - rx_offset_diff;
        writeBlockSize := p.n - rx_offset_diff;
      }
      var timestamp := Read(readBlockSize);
      output := output + [Block(timestamp + 2 * p.n - p.firstSymbol, writeBlockSize)];
      if sub_frame == 9 {
        var first_symbols := writeBlockSize - readBlockSize;
        if first_symbols > 0 {
          var _ := Read(first_symbols);
        }
        if first_symbols < 0 {
          uncompensated := true;
        }
      }
    }
  }

  // ---------------------------------------------------------------- runs

  function Run(p: Parms, t0: int, offsets: seq<int>): Stream {
    if offsets == [] then Start(p, t0)
    else Step(p, Run(p, t0, offsets[..|offsets| - 1]), offsets[|offsets| - 1])
  }

  predicate Contiguous(bs: seq<Block>, start: int, end: int) {
    && (forall i | 0 <= i < |bs| :: bs[i].len >= 0)
    && (forall i | 0 < i < |bs| :: bs[i].start == bs[i - 1].start + bs[i - 1].len)
    && (if bs == [] then start == end
        else bs[0].start == start && bs[|bs| - 1].start + bs[|bs| - 1].len == end)
  }

  lemma Append(bs: seq<Block>, start: int, end: int, b: Block)
    requires Contiguous(bs, start, end) && b.start == end && b.len >= 0
    ensures Contiguous(bs + [b], start, end + b.len)
  {
  }

  /** What every subframe keeps: reads and writes are each one contiguous stream, and the writes end
      exactly two subframes less a first symbol ahead of the reads. */
  predicate Inv(p: Parms, t0: int, s: Stream) {
    && Contiguous(s.input, t0, s.pos)
    && Contiguous(s.output, t0 + 2 * p.n, s.pos + 2 * p.n - p.firstSymbol)
    && !s.uncompensated
    && -1 <= s.subFrame <= 9
  }

  lemma CorrectionRange(p: Parms, rxOffset: int)
    ensures -1 <= Correction(p, rxOffset) <= 1
  {
  }

  lemma StepKeepsInv(p: Parms, t0: int, s: Stream, rxOffset: int)
    requires ValidParms(p) && Inv(p, t0, s)
    ensures Inv(p, t0, Step(p, s, rxOffset))
  {
    hide Contiguous, Correction;
    CorrectionRange(p, rxOffset);
    var last := (s.subFrame + 1) % 10 == 9;
    var d := if last then Correction(p, rxOffset) else 0;
    var ahead := s.pos + 2 * p.n - p.firstSymbol;
    Append(s.output, t0 + 2 * p.n, ahead, Block(ahead, p.n - d));
    if !last {
      Append(s.input, t0, s.pos, Block(s.pos, p.n));
    } else {
      var len := p.n - p.firstSymbol - d;
      Append(s.input, t0, s.pos, Block(s.pos, len));
      Append(s.input + [Block(s.pos, len)], t0, s.pos + len, Block(s.pos + len, p.firstSymbol));
    }
  }

  /** One subframe moves the device on by n samples, less the correction in the tenth. */
  lemma StepAdvances(p: Parms, s: Stream, rxOffset: int)
    requires ValidParms(p)
    ensures var s' := Step(p, s, rxOffset);
            && s'.subFrame == (s.subFrame + 1) % 10
            && s'.pos == s.pos + p.n - (if s'.subFrame == 9 then Correction(p, rxOffset) else 0)
            && |s'.output| == |s.output| + 1
  {
    hide Correction;
  }

  /** For every number of subframes and every sequence of offsets: the writes form one contiguous
      stream from two subframes after the first symbol, with no gap and no overlap, so do the reads,
      every block has a proper size, and the correction is always possible. */
  lemma {:induction false} GaplessStream(p: Parms, t0: int, offsets: seq<int>)
    requires ValidParms(p)
    ensures var s := Run(p, t0, offsets);
            && Contiguous(s.output, t0 + 2 * p.n, s.pos + 2 * p.n - p.firstSymbol)
            && Contiguous(s.input, t0, s.pos)
            && !s.uncompensated && |s.output| == |offsets|
            && Inv(p, t0, s) && s.subFrame == (if offsets == [] then -1 else (|offsets| - 1) % 10)
  {
    hide Step;
    if offsets != [] {
      var init := offsets[..|offsets| - 1];
      GaplessStream(p, t0, init);
      StepKeepsInv(p, t0, Run(p, t0, init), offsets[|offsets| - 1]);
      StepAdvances(p, Run(p, t0, init), offsets[|offsets| - 1]);
    }
  }

  /** The samples covered by a stream of blocks. */
  function Total(bs: seq<Block>): int {
    if bs == [] then 0 else Total(bs[..|bs| - 1]) + bs[|bs| - 1].len
  }

  lemma {:induction false} TotalIs(bs: seq<Block>, start: int, end: int)
    requires Contiguous(bs, start, end)
    ensures Total(bs) == end - start
  {
    if |bs| > 0 {
      var init := bs[..|bs| - 1];
      TotalIs(init, start, bs[|bs| - 1].start);
    }
  }

  /** The device position k subframes into a frame. */
  lemma {:induction false} FrameWalk(p: Parms, t0: int, before: seq<int>, frame: seq<int>, k: nat)
    requires ValidParms(p) && |before| % 10 == 0 && |frame| == 10 && k <= 10
    ensures Run(p, t0, before + frame[..k]).pos ==
            Run(p, t0, before).pos + k * p.n - (if k == 10 then Correction(p, frame[9]) else 0)
  {
    hide Step, Correction;
    if k == 0 {
      assert before + frame[..0] == before;
    } else {
      FrameWalk(p, t0, before, frame, k - 1);
      var l := before + frame[..k];
      assert l[..|l| - 1] == before + frame[..k - 1] && l[|l| - 1] == frame[k - 1];
      GaplessStream(p, t0, l);
      StepAdvances(p, Run(p, t0, before + frame[..k - 1]), frame[k - 1]);
      assert k * p.n == (k - 1) * p.n + p.n;
    }
  }

  /** A frame with correction d reads and writes exactly 10n - d samples, and d is in {-1, 0, 1}. */
  lemma FrameLength(p: Parms, t0: int, before: seq<int>, frame: seq<int>)
    requires ValidParms(p) && |before| % 10 == 0 && |frame| == 10
    ensures var s, s' := Run(p, t0, before), Run(p, t0, before + frame);
            var d := Correction(p, frame[9]);
            && Total(s'.input) - Total(s.input) == 10 * p.n - d
            && Total(s'.output) - Total(s.output) == 10 * p.n - d
            && -1 <= d <= 1
  {
    hide Run, Step, Correction, Contiguous;
    CorrectionRange(p, frame[9]);
    GaplessTotals(p, t0, before);
    GaplessTotals(p, t0, before + frame);
    assert frame[..10] == frame;
    FrameWalk(p, t0, before, frame, 10);
  }

  lemma GaplessTotals(p: Parms, t0: int, offsets: seq<int>)
    requires ValidParms(p)
    ensures var s := Run(p, t0, offsets);
            Total(s.input) == s.pos - t0 && Total(s.output) == s.pos - p.firstSymbol - t0
  {
    GaplessStream(p, t0, offsets);
    hide Run, Contiguous;
    var s := Run(p, t0, offsets);
    TotalIs(s.input, t0, s.pos);
    TotalIs(s.output, t0 + 2 * p.n, s.pos + 2 * p.n - p.firstSymbol);
  }

  // ---------------------------------------------------------------- alignment

  /** Samples in a frame. */
  function FrameSize(p: Parms): int {
    10 * p.n
  }

  /** How far an offset into a frame of m samples is from its boundary. */
  function Misalignment(o: int, m: int): int {
    if o < m - o then o else m - o
  }

  /** An offset x seen from the boundary of its frame. */
  function InFrame(x: int, m: int): int
    requires m > 0
  {
    x % m
  }

  lemma MisalignmentBounds(o: int, m: int)
    requires 0 <= o < m
    ensures 0 <= 2 * Misalignment(o, m) <= m
    ensures Misalignment(o, m) == 0 <==> o == 0
    ensures 2 * Misalignment(o, m) == m <==> 2 * o == m
  {
  }

  /** The samples a frame reads are those that bring the offset o one sample nearer to the frame
      boundary; exactly a frame where there is nothing to correct, where the offset is exactly half a
      frame, or with the correction switched off. */
  lemma FrameAligns(p: Parms, t0: int, before: seq<int>, frame: seq<int>)
    requires ValidParms(p) && |before| % 10 == 0 && |frame| == 10 && 0 <= frame[9] < FrameSize(p)
    ensures var m, o := FrameSize(p), frame[9];
            var read := Total(Run(p, t0, before + frame).input) - Total(Run(p, t0, before).input);
            var o' := InFrame(o - (read - m), m);
            && (p.noCorrection || o == 0 || 2 * o == m ==> read == m && o' == o)
            && (!p.noCorrection && o != 0 && 2 * o != m ==> Misalignment(o', m) == Misalignment(o, m) - 1)
  {
    hide Run, Total, InFrame;
    FrameLength(p, t0, before, frame);
    var o, m, d := frame[9], FrameSize(p), Correction(p, frame[9]);
    CorrectionAligns(p, o);
    hide Correction, FrameSize, Misalignment;
    NextOffset(o, d, m);
    var read := Total(Run(p, t0, before + frame).input) - Total(Run(p, t0, before).input);
    assert read == m - d;
    assert o - (read - m) == o + d;
  }

  lemma CorrectionAligns(p: Parms, o: int)
    requires ValidParms(p) && 0 <= o < FrameSize(p)
    ensures var d, m := Correction(p, o), FrameSize(p);
            && (p.noCorrection || o == 0 || 2 * o == m ==> d == 0)
            && 0 <= o + d <= m && m == 10 * p.n
            && (!p.noCorrection && o != 0 && 2 * o != m ==>
                  Misalignment(if o + d == m then 0 else o + d, m) == Misalignment(o, m) - 1)
  {
  }

  lemma NextOffset(o: int, d: int, m: int)
    requires 0 <= o < m && 0 <= o + d <= m
    ensures InFrame(o + d, m) == if o + d == m then 0 else o + d
  {
    if o + d < m {
      DivUnique(o + d, m, 0, o + d);
    } else {
      DivUnique(o + d, m, 1, 0);
    }
  }

  /** A run over k frames of a steady cell that starts at offset o: what the frames so far read beyond
      their size has moved the boundary nearer, and that is the offset the tracking leaves for the next. */
  datatype Tracking = Tracking(offsets: seq<int>, offset: int)

  function Track(p: Parms, t0: int, o: int, k: nat): Tracking
    requires FrameSize(p) > 0
  {
    if k == 0 then Tracking([], o)
    else
      var before := Track(p, t0, o, k - 1);
      var offsets := before.offsets + seq(10, _ => before.offset);
      var read := Total(Run(p, t0, offsets).input) - Total(Run(p, t0, before.offsets).input);
      Tracking(offsets, InFrame(before.offset - (read - FrameSize(p)), FrameSize(p)))
  }

  lemma TrackStep(p: Parms, t0: int, o: int, k: nat)
    requires ValidParms(p) && 0 <= o < FrameSize(p)
    requires |Track(p, t0, o, k).offsets| == 10 * k && 0 <= Track(p, t0, o, k).offset < FrameSize(p)
    ensures var m, was, now := FrameSize(p), Track(p, t0, o, k).offset, Track(p, t0, o, k + 1).offset;
            && |Track(p, t0, o, k + 1).offsets| == 10 * (k + 1) && 0 <= now < m
            && (p.noCorrection || was == 0 || 2 * was == m ==> now == was)
            && (!p.noCorrection && was != 0 && 2 * was != m ==> Misalignment(now, m) == Misalignment(was, m) - 1)
  {
    hide Run, Total, Misalignment, Correction, Track, InFrame, FrameSize, ValidParms;
    var before := Track(p, t0, o, k);
    var frame := seq(10, _ => before.offset);
    TrackUnfold(p, t0, o, k);
    FrameAligns(p, t0, before.offsets, frame);
    InFrameBounds(before.offset - (Total(Run(p, t0, before.offsets + frame).input) - Total(Run(p, t0, before.offsets).input) - FrameSize(p)), FrameSize(p));
  }

  lemma InFrameBounds(x: int, m: int)
    requires m > 0
    ensures 0 <= InFrame(x, m) < m
  {
  }

  lemma TrackUnfold(p: Parms, t0: int, o: int, k: nat)
    requires FrameSize(p) > 0
    ensures var before := Track(p, t0, o, k);
            var offsets := before.offsets + seq(10, _ => before.offset);
            var read := Total(Run(p, t0, offsets).input) - Total(Run(p, t0, before.offsets).input);
            && Track(p, t0, o, k + 1).offsets == offsets
            && Track(p, t0, o, k + 1).offset == InFrame(before.offset - (read - FrameSize(p)), FrameSize(p))
  {
    hide Run, Total, InFrame;
  }

  /** With the correction on, a steady cell is aligned after as many frames as its offset is samples
      away from the frame boundary, and stays so; but one at exactly half a frame never moves. */
  lemma {:induction false} SteadyCellAligns(p: Parms, t0: int, o: int, k: nat)
    requires ValidParms(p) && 0 <= o < FrameSize(p)
    ensures |Track(p, t0, o, k).offsets| == 10 * k && 0 <= Track(p, t0, o, k).offset < FrameSize(p)
    ensures p.noCorrection || 2 * o == FrameSize(p) ==> Track(p, t0, o, k).offset == o
    ensures !p.noCorrection && 2 * o != FrameSize(p) ==>
              var away, now := Misalignment(o, FrameSize(p)), Track(p, t0, o, k).offset;
              && Misalignment(now, FrameSize(p)) == (if k < away then away - k else 0)
              && (now == 0 <==> k >= away)
  {
    hide Run, Total, InFrame;
    MisalignmentBounds(o, FrameSize(p));
    if k > 0 {
      hide Track, Misalignment, FrameSize;
      SteadyCellAligns(p, t0, o, k - 1);
      TrackStep(p, t0, o, k - 1);
      MisalignmentBounds(Track(p, t0, o, k - 1).offset, FrameSize(p));
    }
    MisalignmentBounds(Track(p, t0, o, k).offset, FrameSize(p));
    hide Misalignment, FrameSize;
  }
}
