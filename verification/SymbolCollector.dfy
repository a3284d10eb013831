/** Collection of a subframe's uplink symbols from the IF4p5 south fronthaul. The code keeps one
    32-bit mask per subframe and compares it numerically with the full mask; the contracts here
    speak of the symbols received instead. */
module SymbolCollector {
  import opened BitMask
  import opened CInt

  const SUBFRAMES: nat := 10
  /** Mask written for a tick: no symbols to expect. */
  const TICK: nat := 0xffff

  /** A subframe number the peer may send. */
  type Subframe = u: nat | u < SUBFRAMES

  /** A symbol number the 32-bit mask has a bit for. */
  type Symbol = i: nat | i < 32

  datatype Packet =
    | Pulfft(frame: nat, sf: Subframe, symbol: Symbol)
    | Pultick(frame: nat, sf: Subframe)
    | Prach(frame: nat, sf: Subframe)

  datatype Command = Empty | WaitResynch

  /** What has arrived for one subframe since it was last handed over. */
  datatype Held = Held(symbols: set<nat>, tick: bool)

  const NOTHING: Held := Held({}, false)

  /** Symbols expected in each subframe: all of a normal one, fewer in a special one. */
  predicate Widths(width: seq<nat>) {
    |width| == SUBFRAMES && forall u | 0 <= u < SUBFRAMES :: 0 < width[u] <= 14
  }

  /** What the collection waits for: a tick, or all k symbols of the subframe. */
  ghost predicate Complete(h: Held, k: nat) {
    h.tick || forall i: nat | i < k :: i in h.symbols
  }

  /** What ends it: completeness, or any symbol number beyond the width of the subframe. */
  ghost predicate Ended(h: Held, k: nat) {
    Complete(h, k) || exists i :: i in h.symbols && i >= k
  }

  function Add(held: seq<Held>, p: Packet): (held': seq<Held>)
    requires |held| == SUBFRAMES
    ensures |held'| == SUBFRAMES
  {
    match p
    case Pulfft(_, sf, symbol) => held[sf := held[sf].(symbols := held[sf].symbols + {symbol})]
    case Pultick(_, sf) => held[sf := held[sf].(tick := true)]
    case Prach(_, _) => held
  }

  function AddAll(held: seq<Held>, ps: seq<Packet>): (held': seq<Held>)
    requires |held| == SUBFRAMES
    ensures |held'| == SUBFRAMES
  {
    if ps == [] then held else Add(AddAll(held, ps[..|ps| - 1]), ps[|ps| - 1])
  }

  // ---------------------------------------------------------------- masks

  /** The mask value that stands for what is held. */
  ghost predicate Encodes(m: nat, h: Held) {
    if h.tick then m >= TICK
    else forall i: nat :: Bit(m, i) <==> i in h.symbols
  }

  lemma TickMask()
    ensures TICK == Ones(16)
  {
    assert Pow2(4) == 16 && Pow2(8) == 256 && Pow2(12) == 4096;
  }

  lemma {:induction false} Pow2Monotone(a: nat, b: nat)
    requires a <= b
    ensures Pow2(a) <= Pow2(b)
  {
    if a < b {
      Pow2Monotone(a, b - 1);
    }
  }

  lemma {:induction false} SetBitGrows(m: nat, i: nat)
    ensures SetBit(m, i) >= m
  {
    if i != 0 {
      SetBitGrows(m / 2, i - 1);
    }
  }

  /** A mask with a bit set is at least the weight of that bit. */
  lemma {:induction false} BitWeighs(m: nat, i: nat)
    requires Bit(m, i)
    ensures m >= Pow2(i)
  {
    if i != 0 {
      BitWeighs(m / 2, i - 1);
    }
  }

  /** A mask of 2^k or more has a bit at k or above. */
  lemma {:induction false} HighBit(m: nat, k: nat) returns (i: nat)
    requires m >= Pow2(k)
    ensures i >= k && Bit(m, i)
  {
    if k > 0 {
      var j := HighBit(m / 2, k - 1);
      i := j + 1;
    } else if m % 2 == 1 {
      i := 0;
    } else {
      var j := HighBit(m / 2, 0);
      i := j + 1;
    }
  }

  /** Exactly when the code's numeric test `mask < full` fails: the subframe is complete, or a symbol
      number beyond its width has arrived. */
  lemma TestIsEnd(m: nat, h: Held, k: nat)
    requires Encodes(m, h) && 0 < k <= 14
    ensures !(m < Ones(k)) <==> Ended(h, k)
  {
    if h.tick {
      TickMask();
      Pow2Monotone(k, 16);
    } else if m >= Pow2(k) {
      var i := HighBit(m, k);
      assert i in h.symbols;
    } else {
      if i :| i in h.symbols && i >= k {
        BitWeighs(m, i);
        Pow2Monotone(k, i);
        assert false;
      }
      FullIffAllBits(m, k);
      if AllBits(m, k) {
        forall i: nat | i < k ensures i in h.symbols { assert Bit(m, i); }
      } else {
        var i: nat :| i < k && !Bit(m, i);
        assert i !in h.symbols;
      }
    }
  }

  /** Any symbol keeps the encoding. */
  lemma EncodeSymbol(m: nat, h: Held, i: nat)
    requires Encodes(m, h)
    ensures Encodes(SetBit(m, i), h.(symbols := h.symbols + {i}))
  {
    SetBitGrows(m, i);
    forall j: nat ensures Bit(SetBit(m, i), j) <==> i == j || Bit(m, j) {
      SetBitBits(m, i, j);
    }
  }

  // ---------------------------------------------------------------- the collector

  class RuProc {
    const width: seq<nat>
    const samples_per_tti: nat
    const symbol_mask: array<nat>
    var tti_rx: nat
    var frame_rx: nat
    var timestamp_rx: int
    var first_rx: bool
    var cmd: Command
    ghost var held: seq<Held>

    ghost predicate Valid()
      reads this, symbol_mask
    {
      && Widths(width) && |held| == SUBFRAMES && symbol_mask.Length == SUBFRAMES
      && forall u | 0 <= u < SUBFRAMES :: Encodes(symbol_mask[u], held[u])
    }

    constructor (width: seq<nat>, n: nat)
      requires Widths(width)
      ensures Valid() && fresh(symbol_mask) && this.width == width && samples_per_tti == n
      ensures held == seq(SUBFRAMES, _ => NOTHING) && first_rx && cmd == Empty
    {
      this.width, samples_per_tti := width, n;
      symbol_mask := new nat[SUBFRAMES](_ => 0);
      tti_rx, frame_rx, timestamp_rx, first_rx, cmd := 0, 0, 0, true, Empty;
      held := seq(SUBFRAMES, _ => NOTHING);
      new;
      forall u | 0 <= u < SUBFRAMES ensures Encodes(symbol_mask[u], held[u]) {
        forall i: nat ensures !Bit(0, i) { ZeroBits(i); }
      }
    }

    /** One packet of the loop. */
    method Store(p: Packet)
      requires Valid()
      modifies symbol_mask, `held
      ensures Valid() && held == Add(old(held), p)
    {
      match p {
        case Pulfft(_, sf, symbol) =>
          EncodeSymbol(symbol_mask[sf], held[sf], symbol);
          symbol_mask[sf] := SetBit(symbol_mask[sf], symbol);
        case Pultick(_, sf) =>
          symbol_mask[sf] := TICK;
        case Prach(_, _) =>
      }
      held := Add(held, p);
    }

    /** The receive loop: it ends at the first packet that ends the subframe. */
    method Collect(subframe: Subframe, ps: seq<Packet>) returns (consumed: nat)
      requires Valid()
      modifies symbol_mask, `held
      ensures Valid() && consumed <= |ps| && held == AddAll(old(held), ps[..consumed])
      ensures forall k | 0 <= k < consumed :: !Ended(AddAll(old(held), ps[..k])[subframe], width[subframe])
      ensures Ended(held[subframe], width[subframe]) || consumed == |ps|
      ensures Ended(held[subframe], width[subframe]) && consumed > 0 ==> ps[consumed - 1].sf == subframe
      ensures Ended(held[subframe], width[subframe]) <==> !(symbol_mask[subframe] < Ones(width[subframe]))
    {
      hide Encodes, Complete, Ended, Ones;
      consumed := 0;
      var full := Ones(width[subframe]);
      TestIsEnd(symbol_mask[subframe], held[subframe], width[subframe]);
      while symbol_mask[subframe] < full && consumed < |ps|
        invariant Valid() && consumed <= |ps|
        invariant held == AddAll(old(held), ps[..consumed])
        invariant symbol_mask[subframe] < full <==> !Ended(held[subframe], width[subframe])
        invariant forall k | 0 <= k < consumed :: !Ended(AddAll(old(held), ps[..k])[subframe], width[subframe])
        invariant symbol_mask[subframe] < full || consumed == 0 || ps[consumed - 1].sf == subframe
        decreases |ps| - consumed
      {
        Store(ps[consumed]);
        consumed := consumed + 1;
        assert ps[..consumed][..consumed - 1] == ps[..consumed - 1];
        TestIsEnd(symbol_mask[subframe], held[subframe], width[subframe]);
      }
    }

    /** `fh_if4p5_south_in` on a stream of incoming packets; still blocked when the stream ends first. */
    method SouthIn(frame: nat, subframe: Subframe, ps: seq<Packet>)
      returns (done: bool, consumed: nat, frame': nat, subframe': nat)
      requires Valid()
      modifies this, symbol_mask
      ensures Valid()
      ensures consumed <= |ps|
      // it waits as long as the subframe is incomplete and no symbol number is beyond it, and no longer
      ensures forall k | 0 <= k < consumed :: !Ended(AddAll(old(held), ps[..k])[subframe], width[subframe])
      ensures done <==> Ended(AddAll(old(held), ps[..consumed])[subframe], width[subframe])
      ensures !done ==> consumed == |ps| && held == AddAll(old(held), ps)
      // the requested subframe is handed over, all others keep every symbol that came early
      ensures done ==> held == AddAll(old(held), ps[..consumed])[subframe := NOTHING]
      // its last packet belongs to the requested subframe, so the test on tti_rx cannot fire
      ensures done && consumed > 0 ==> ps[consumed - 1].sf == subframe
      ensures done ==> tti_rx == subframe == subframe' && !first_rx
      ensures done ==> frame_rx == (if consumed > 0 then ps[consumed - 1].frame else frame)
      ensures done ==> timestamp_rx == U32((frame_rx * 10 + tti_rx) * samples_per_tti)
      ensures done ==> frame' == (if old(first_rx) || old(cmd) == WaitResynch then frame_rx else frame)
      ensures done ==> cmd == (if !old(first_rx) && frame_rx != frame then Empty else old(cmd))
    {
      frame', subframe' := frame, subframe;
      consumed := Collect(subframe, ps);
      assert ps[..|ps|] == ps;
      done := !(symbol_mask[subframe] < Ones(width[subframe]));
      if !done {
        return;
      }
      var f := if consumed > 0 then ps[consumed - 1].frame else frame;
      var sf := if consumed > 0 then ps[consumed - 1].sf else subframe;
      tti_rx := sf;
      frame_rx := f;
      timestamp_rx := U32((frame_rx * 10 + tti_rx) * samples_per_tti);
      frame', subframe' := CheckTime(frame, subframe);
      Clear(sf);
    }

    /** The tests of the received time against the expected one. */
    method CheckTime(frame: nat, subframe: Subframe) returns (frame': nat, subframe': nat)
      modifies `first_rx, `cmd
      ensures !first_rx
      ensures subframe' == tti_rx
      ensures frame' == (if old(first_rx) || old(cmd) == WaitResynch then frame_rx else frame)
      ensures cmd == (if !old(first_rx) && frame_rx != frame then Empty else old(cmd))
    {
      frame', subframe' := frame, subframe;
      if !first_rx {
        if tti_rx != subframe {
          subframe' := tti_rx;
        }
        if cmd == WaitResynch && frame_rx != frame {
          cmd := Empty;
          frame' := frame_rx;
        }
      } else {
        first_rx := false;
        frame' := frame_rx;
        subframe' := tti_rx;
      }
    }

    method Clear(sf: Subframe)
      requires Valid()
      modifies symbol_mask, `held
      ensures Valid() && held == old(held)[sf := NOTHING]
    {
      symbol_mask[sf] := 0;
      held := held[sf := NOTHING];
      forall i: nat ensures !Bit(0, i) { ZeroBits(i); }
    }
  }

  // ---------------------------------------------------------------- runs of calls

  /** Some packet brings symbol i of subframe u; some packet is a tick for it. */
  predicate Brought(ps: seq<Packet>, u: Subframe, i: nat) {
    exists j | 0 <= j < |ps| :: ps[j].Pulfft? && ps[j].sf == u && ps[j].symbol == i
  }

  predicate Ticked(ps: seq<Packet>, u: Subframe) {
    exists j | 0 <= j < |ps| :: ps[j].Pultick? && ps[j].sf == u
  }

  /** A symbol is held for its subframe exactly when it was held before or a packet brought it. */
  lemma {:induction false} HeldExactly(held: seq<Held>, ps: seq<Packet>, u: Subframe, i: nat)
    requires |held| == SUBFRAMES
    ensures i in AddAll(held, ps)[u].symbols <==>
            (i in held[u].symbols || Brought(ps, u, i))
  {
    if ps != [] {
      var init, last := ps[..|ps| - 1], ps[|ps| - 1];
      HeldExactly(held, init, u, i);
      if exists j | 0 <= j < |init| :: init[j].Pulfft? && init[j].sf == u && init[j].symbol == i {
        var j :| 0 <= j < |init| && init[j].Pulfft? && init[j].sf == u && init[j].symbol == i;
        assert ps[j] == init[j];
      } else if exists j | 0 <= j < |ps| :: ps[j].Pulfft? && ps[j].sf == u && ps[j].symbol == i {
        var j :| 0 <= j < |ps| && ps[j].Pulfft? && ps[j].sf == u && ps[j].symbol == i;
        assert j < |init| ==> init[j] == ps[j];
      }
      if last.Pulfft? && last.sf == u && last.symbol == i {
        assert ps[|ps| - 1] == last;
      }
    }
  }

  /** A tick is held exactly when it was before or a packet brought it. */
  lemma {:induction false} TickExactly(held: seq<Held>, ps: seq<Packet>, u: Subframe)
    requires |held| == SUBFRAMES
    ensures AddAll(held, ps)[u].tick <==> (held[u].tick || Ticked(ps, u))
  {
    if ps != [] {
      var init, last := ps[..|ps| - 1], ps[|ps| - 1];
      TickExactly(held, init, u);
      if j :| 0 <= j < |init| && init[j].Pultick? && init[j].sf == u {
        assert ps[j] == init[j];
      } else if j :| 0 <= j < |ps| && ps[j].Pultick? && ps[j].sf == u {
        assert j < |init| ==> init[j] == ps[j];
      }
      if last.Pultick? && last.sf == u {
        assert ps[|ps| - 1] == last;
      }
    }
  }

  /** Exactly when a collection that starts from nothing ends on an incomplete subframe: no tick came,
      some symbol is missing, and a symbol number beyond the width was received for it. */
  lemma EndsIncompleteIff(ps: seq<Packet>, u: Subframe, k: nat)
    ensures var h := AddAll(seq(SUBFRAMES, _ => NOTHING), ps)[u];
            Ended(h, k) && !Complete(h, k) <==>
              && !Ticked(ps, u)
              && (exists i: nat :: i < k && !Brought(ps, u, i))
              && (exists i: nat :: i >= k && Brought(ps, u, i))
  {
    var empty := seq(SUBFRAMES, _ => NOTHING);
    var h := AddAll(empty, ps)[u];
    TickExactly(empty, ps, u);
    forall i: nat ensures i in h.symbols <==> Brought(ps, u, i) {
      HeldExactly(empty, ps, u, i);
    }
    hide AddAll, Brought;
  }

  /** So it is when the only packet is symbol 14 of a subframe of 14. */
  lemma IncompleteHandOver(frame: nat, u: Subframe)
    ensures var ps := [Pulfft(frame, u, 14)];
            var h := AddAll(seq(SUBFRAMES, _ => NOTHING), ps)[u];
            Ended(h, 14) && !Complete(h, 14) && h.symbols == {14}
  {
    var ps := [Pulfft(frame, u, 14)];
    EndsIncompleteIff(ps, u, 14);
    assert ps[0].symbol == 14;
    assert Brought(ps, u, 14) && !Brought(ps, u, 0);
    assert ps[..0] == [];
    assert AddAll(seq(SUBFRAMES, _ => NOTHING), []) == seq(SUBFRAMES, _ => NOTHING);
    hide Ended, Complete;
  }

  /** One completed call: the subframe it handed over and the packets it consumed. */
  datatype Call = Call(subframe: Subframe, packets: seq<Packet>)

  function AfterCalls(held: seq<Held>, calls: seq<Call>): (held': seq<Held>)
    requires |held| == SUBFRAMES
    ensures |held'| == SUBFRAMES
  {
    if calls == [] then held
    else
      var c := calls[|calls| - 1];
      AddAll(AfterCalls(held, calls[..|calls| - 1]), c.packets)[c.subframe := NOTHING]
  }

  /** Symbols that arrive early survive: over any run of calls that hand over other subframes, what
      is held for subframe u is what was held before and everything received for it meanwhile. */
  lemma {:induction false} EarlySymbolsKept(held: seq<Held>, calls: seq<Call>, u: Subframe, i: nat)
    requires |held| == SUBFRAMES && forall c | c in calls :: c.subframe != u
    ensures i in AfterCalls(held, calls)[u].symbols <==>
            (i in held[u].symbols ||
             exists c | c in calls :: Brought(c.packets, u, i))
  {
    if calls != [] {
      var init, last := calls[..|calls| - 1], calls[|calls| - 1];
      EarlySymbolsKept(held, init, u, i);
      HeldExactly(AfterCalls(held, init), last.packets, u, i);
      assert forall c :: c in calls <==> c in init || c == last;
      assert last in calls;
    }
  }
}
