/** The receive barrier of `wakeup_L1s`: every radio unit (RU) ORs its bit into the mask of its
    subframe, and the call that completes the mask clears it and wakes L1. The mask has ten slots,
    so the pending absolute subframes share slots modulo 10. */
module RuBarrier {
  import opened BitMask

  const SLOTS: nat := 10

  /** What the barrier reads of an RU and never writes: `is_slave` and `state == RU_SYNC`. */
  datatype RuConfig = RuConfig(slave: bool, synching: bool)

  /** The fields the barrier writes: `RU_mask[10]` and every RU's `wait_cnt`. */
  datatype Barrier = Barrier(mask: seq<nat>, wait: seq<nat>)

  /** Outcome of one call: whether the mask was completed and cleared, and whether L1 was woken. */
  datatype Outcome = Outcome(barrier: Barrier, cleared: bool, woke: bool)

  ghost predicate WellFormed(cfg: seq<RuConfig>, b: Barrier) {
    && |b.mask| == SLOTS
    && |b.wait| == |cfg|
    && forall t | 0 <= t < SLOTS :: b.mask[t] < Pow2(|cfg|)
  }

  // ---------------------------------------------------------------- one call

  /** A counter of 1 is promoted to 0 on any subframe but the last. */
  function Promoted(w: nat, tti: nat): nat {
    if w == 1 && tti != 9 then 0 else w
  }

  /** Whether iteration i of the loop over the RU list sets bit i, on a call made by RU `ru`. */
  predicate SetsBit(cfg: seq<RuConfig>, wait: seq<nat>, ru: nat, i: nat)
    requires i < |cfg| == |wait|
  {
    || (i == ru && wait[i] == 0)
    || cfg[i].synching
    || (cfg[i].slave && wait[i] > 0 && i != ru)
  }

  /** The mask after the first n iterations. */
  function Accumulate(cfg: seq<RuConfig>, wait: seq<nat>, ru: nat, m: nat, n: nat): nat
    requires n <= |cfg| == |wait|
  {
    if n == 0 then m
    else
      var r := Accumulate(cfg, wait, ru, m, n - 1);
      if SetsBit(cfg, wait, ru, n - 1) then SetBit(r, n - 1) else r
  }

  function Call(cfg: seq<RuConfig>, b: Barrier, ru: nat, tti: nat): Outcome
    requires ru < |cfg| == |b.wait| && |b.mask| == SLOTS && tti < SLOTS
  {
    var wait := seq(|cfg|, i requires 0 <= i < |cfg| => Promoted(b.wait[i], tti));
    var m := Accumulate(cfg, wait, ru, b.mask[tti], |cfg|);
    if m == Ones(|cfg|)
    then Outcome(Barrier(b.mask[tti := 0], wait), true, wait[ru] == 0)
    else Outcome(Barrier(b.mask[tti := m], wait), false, false)
  }

  /** What a waiting RU does on each pass of `ru_thread`, before its call and without the mutex. */
  function CountedDown(b: Barrier, ru: nat): Barrier
    requires ru < |b.wait|
  {
    if b.wait[ru] > 0 then b.(wait := b.wait[ru := b.wait[ru] - 1]) else b
  }

  class L1Proc {
    const cfg: seq<RuConfig>
    const RU_mask: array<nat>
    const wait_cnt: array<nat>

    ghost predicate Valid()
      reads this, RU_mask, wait_cnt
    {
      && RU_mask != wait_cnt
      && RU_mask.Length == SLOTS && wait_cnt.Length == |cfg|
      && WellFormed(cfg, State())
    }

    ghost function State(): Barrier
      reads this, RU_mask, wait_cnt
    {
      Barrier(RU_mask[..], wait_cnt[..])
    }

    constructor (cfg: seq<RuConfig>, waits: seq<nat>)
      requires |waits| == |cfg|
      ensures Valid() && fresh(RU_mask) && fresh(wait_cnt)
      ensures this.cfg == cfg && State() == Barrier(seq(SLOTS, _ => 0), waits)
    {
      this.cfg := cfg;
      RU_mask := new nat[SLOTS](_ => 0);
      wait_cnt := new nat[|waits|](i requires 0 <= i < |waits| => waits[i]);
      new;
      assert RU_mask[..] == seq(SLOTS, _ => 0);
      assert wait_cnt[..] == waits;
    }

    method WakeupL1s(ru: nat, tti: nat) returns (cleared: bool, woke: bool)
      requires Valid() && ru < |cfg| && tti < SLOTS
      modifies RU_mask, wait_cnt
      ensures Valid()
      ensures Outcome(State(), cleared, woke) == old(Call(cfg, State(), ru, tti))
    {
      ghost var was := State();
      ghost var end := Call(cfg, was, ru, tti);
      for i := 0 to |cfg|
        invariant forall k | 0 <= k < |cfg| :: wait_cnt[k] == if k < i then end.barrier.wait[k] else was.wait[k]
        invariant forall t | 0 <= t < SLOTS && t != tti :: RU_mask[t] == was.mask[t]
        invariant RU_mask[tti] == Accumulate(cfg, end.barrier.wait, ru, was.mask[tti], i)
        invariant RU_mask[tti] < Pow2(|cfg|)
      {
        if wait_cnt[i] == 1 && tti != 9 {
          wait_cnt[i] := 0;
        }
        assert wait_cnt[i] == end.barrier.wait[i];
        SetBitBound(RU_mask[tti], i, |cfg|);
        if i == ru && wait_cnt[i] == 0 {
          RU_mask[tti] := SetBit(RU_mask[tti], i);
        } else if cfg[i].synching || (cfg[i].slave && wait_cnt[i] > 0 && ru != i) {
          RU_mask[tti] := SetBit(RU_mask[tti], i);
        }
      }
      assert wait_cnt[..] == end.barrier.wait;
      cleared := RU_mask[tti] == Ones(|cfg|);
      woke := false;
      if cleared {
        RU_mask[tti] := 0;
        woke := wait_cnt[ru] == 0;
      }
      assert RU_mask[..] == end.barrier.mask;
    }

    method RuThreadPass(ru: nat, tti: nat) returns (cleared: bool, woke: bool)
      requires Valid() && ru < |cfg| && tti < SLOTS
      modifies RU_mask, wait_cnt
      ensures Valid()
      ensures Outcome(State(), cleared, woke) == old(Call(cfg, CountedDown(State(), ru), ru, tti))
    {
      if wait_cnt[ru] > 0 {
        wait_cnt[ru] := wait_cnt[ru] - 1;
      }
      assert State() == old(CountedDown(State(), ru));
      cleared, woke := WakeupL1s(ru, tti);
    }
  }

  // ---------------------------------------------------------------- runs of all RU threads

  /** The steps of the RU threads: RU `ru` counts down, or calls the barrier for absolute subframe `sf`. */
  datatype Event = CountDown(ru: nat) | Report(ru: nat, sf: nat)

  /** The barrier with its history: the next subframe each RU reports, and the subframes whose call
      cleared the mask and woke L1, in order. */
  datatype System = System(barrier: Barrier, reported: seq<nat>, cleared: seq<nat>, woken: seq<nat>)

  function Init(waits: seq<nat>): System {
    System(Barrier(seq(SLOTS, _ => 0), waits), seq(|waits|, _ => 0), [], [])
  }

  function Step(cfg: seq<RuConfig>, s: System, e: Event): (s': System)
    requires e.ru < |cfg| == |s.barrier.wait| == |s.reported| && |s.barrier.mask| == SLOTS
    ensures |cfg| == |s'.barrier.wait| == |s'.reported| && |s'.barrier.mask| == SLOTS
  {
    match e
    case CountDown(ru) => s.(barrier := CountedDown(s.barrier, ru))
    case Report(ru, sf) =>
      var o := Call(cfg, s.barrier, ru, sf % SLOTS);
      System(o.barrier,
             s.reported[ru := sf + 1],
             if o.cleared then s.cleared + [sf] else s.cleared,
             if o.woke then s.woken + [sf] else s.woken)
  }

  predicate Active(cfg: seq<RuConfig>, wait: seq<nat>, i: nat)
    requires |cfg| == |wait|
  {
    i < |cfg| && !cfg[i].synching && wait[i] == 0
  }

  /** At least one RU is active; every other one is synchronising or is a slave that waits. */
  ghost predicate Roles(cfg: seq<RuConfig>, wait: seq<nat>) {
    && |cfg| == |wait|
    && (exists i: nat :: Active(cfg, wait, i))
    && forall i: nat | i < |cfg| && !Active(cfg, wait, i) :: cfg[i].synching || (cfg[i].slave && wait[i] > 0)
  }

  /** What the threads may do next: a synchronising RU does not reach the barrier; an active RU
      reports its subframes one after the other and never ten ahead of the last completed one; a
      waiting RU counts down and reports any subframe. */
  predicate Allowed(cfg: seq<RuConfig>, s: System, e: Event)
    requires |cfg| == |s.barrier.wait| == |s.reported|
  {
    && e.ru < |cfg|
    && !cfg[e.ru].synching
    && (e.Report? && s.barrier.wait[e.ru] == 0 ==> e.sf == s.reported[e.ru] && e.sf < |s.cleared| + SLOTS)
  }

  /** Waiting RU i becomes active in this step: it counts down to 0, or any RU's call promotes it. */
  predicate Joins(cfg: seq<RuConfig>, s: System, e: Event, i: nat)
    requires |cfg| == |s.barrier.wait|
  {
    && i < |cfg| && !cfg[i].synching && s.barrier.wait[i] == 1
    && match e case CountDown(ru) => i == ru case Report(_, sf) => sf % SLOTS != 9
  }

  /** The subframe that slot t is collecting once c subframes are complete. */
  function Pending(c: nat, t: nat): nat {
    c + (t - c) % SLOTS
  }

  ghost predicate InOrder(log: seq<nat>) {
    forall k | 0 <= k < |log| :: log[k] == k
  }

  /** RU i is in the window, and its bits are those of the pending subframes it has reported. */
  ghost predicate Exact(s: System, i: nat)
    requires i < |s.reported| && |s.barrier.mask| == SLOTS
  {
    && |s.cleared| <= s.reported[i] <= |s.cleared| + SLOTS
    && forall t: nat | t < SLOTS :: Bit(s.barrier.mask[t], i) <==> s.reported[i] > Pending(|s.cleared|, t)
  }

  /** A report of subframe sf comes in the window, and in the other slots the caller's bits are those
      of the pending subframes before sf. */
  ghost predicate OnTime(s: System, i: nat, sf: nat)
    requires |s.barrier.mask| == SLOTS
  {
    && |s.cleared| <= sf < |s.cleared| + SLOTS
    && forall t: nat | t < SLOTS && t != sf % SLOTS :: Bit(s.barrier.mask[t], i) <==> sf > Pending(|s.cleared|, t)
  }

  /** Whoever joins in this step has the bits of an active RU: those that other RUs' calls set in its
      place while it waited must be the ones it would have set itself. */
  ghost predicate SafeToJoin(cfg: seq<RuConfig>, s: System, e: Event)
    requires |cfg| == |s.barrier.wait| == |s.reported| && |s.barrier.mask| == SLOTS
  {
    forall i: nat | Joins(cfg, s, e, i) :: if e.Report? && i == e.ru then OnTime(s, i, e.sf) else Exact(s, i)
  }

  ghost predicate Inv(cfg: seq<RuConfig>, s: System) {
    && WellFormed(cfg, s.barrier)
    && Roles(cfg, s.barrier.wait)
    && |s.reported| == |cfg|
    && InOrder(s.cleared) && s.woken == s.cleared
    && (forall i: nat | Active(cfg, s.barrier.wait, i) :: Exact(s, i))
    && (exists i: nat | Active(cfg, s.barrier.wait, i) :: s.reported[i] == |s.cleared|)
  }

  lemma {:induction false} AccumulateBits(cfg: seq<RuConfig>, wait: seq<nat>, ru: nat, m: nat, n: nat, j: nat)
    requires n <= |cfg| == |wait|
    ensures Bit(Accumulate(cfg, wait, ru, m, n), j) <==>
              || Bit(m, j)
              || (j < n && ((j == ru && wait[j] == 0) || cfg[j].synching || (cfg[j].slave && wait[j] > 0 && j != ru)))
  {
    if n != 0 {
      AccumulateBits(cfg, wait, ru, m, n - 1, j);
      SetBitBits(Accumulate(cfg, wait, ru, m, n - 1), n - 1, j);
    }
  }

  lemma {:induction false} AccumulateBound(cfg: seq<RuConfig>, wait: seq<nat>, ru: nat, m: nat, n: nat)
    requires n <= |cfg| == |wait| && m < Pow2(|cfg|)
    ensures Accumulate(cfg, wait, ru, m, n) < Pow2(|cfg|)
  {
    if n != 0 {
      AccumulateBound(cfg, wait, ru, m, n - 1);
      SetBitBound(Accumulate(cfg, wait, ru, m, n - 1), n - 1, |cfg|);
    }
  }

  /** Every bit of every slot after a call, in any state: only the slot of its subframe changes. There
      the bit of the caller is added if it waits no longer, and those of the synchronising RUs and of the
      other slaves that still wait; a full mask is cleared. */
  lemma CallMask(cfg: seq<RuConfig>, b: Barrier, ru: nat, tti: nat, t: nat, j: nat)
    requires WellFormed(cfg, b) && ru < |cfg| && tti < SLOTS && t < SLOTS && j < |cfg|
    ensures var o := Call(cfg, b, ru, tti);
            var wait' := o.barrier.wait;
            && (t != tti ==> o.barrier.mask[t] == b.mask[t])
            && (t == tti && o.cleared ==> o.barrier.mask[t] == 0)
            && (t == tti && !o.cleared ==>
                  (Bit(o.barrier.mask[t], j) <==>
                     || Bit(b.mask[t], j)
                     || (j == ru && wait'[j] == 0) || cfg[j].synching || (cfg[j].slave && wait'[j] > 0 && j != ru)))
            && (o.woke <==> o.cleared && wait'[ru] == 0)
  {
    AccumulateBits(cfg, Call(cfg, b, ru, tti).barrier.wait, ru, b.mask[tti], |cfg|, j);
    hide Accumulate, Bit, SetsBit;
  }

  /** A call clears its slot, in any state, exactly when with the bits it adds all are there. */
  lemma CallClearsIff(cfg: seq<RuConfig>, b: Barrier, ru: nat, tti: nat)
    requires WellFormed(cfg, b) && ru < |cfg| && tti < SLOTS
    ensures var o := Call(cfg, b, ru, tti);
            var wait' := o.barrier.wait;
            o.cleared <==> forall j: nat | j < |cfg| ::
              || Bit(b.mask[tti], j)
              || (j == ru && wait'[j] == 0) || cfg[j].synching || (cfg[j].slave && wait'[j] > 0 && j != ru)
  {
    var wait' := Call(cfg, b, ru, tti).barrier.wait;
    var m := Accumulate(cfg, wait', ru, b.mask[tti], |cfg|);
    AccumulateBound(cfg, wait', ru, b.mask[tti], |cfg|);
    FullIffAllBits(m, |cfg|);
    forall j: nat | j < |cfg|
      ensures Bit(m, j) <==>
                || Bit(b.mask[tti], j)
                || (j == ru && wait'[j] == 0) || cfg[j].synching || (cfg[j].slave && wait'[j] > 0 && j != ru)
    {
      AccumulateBits(cfg, wait', ru, b.mask[tti], |cfg|, j);
    }
    hide Accumulate, Bit, SetsBit, Ones;
  }

  /** After a call the active RUs are those before and those that join, and the bits it sets are the
      caller's, once active, and those of all RUs that are not active. */
  lemma CallActivates(cfg: seq<RuConfig>, s: System, e: Event)
    requires WellFormed(cfg, s.barrier) && Roles(cfg, s.barrier.wait) && |s.reported| == |cfg|
    requires Allowed(cfg, s, e) && e.Report?
    ensures var wait' := Step(cfg, s, e).barrier.wait;
            && Roles(cfg, wait')
            && (forall i: nat :: Active(cfg, wait', i) <==> Active(cfg, s.barrier.wait, i) || Joins(cfg, s, e, i))
            && (forall i: nat | i < |cfg| :: SetsBit(cfg, wait', e.ru, i) <==>
                                             if i == e.ru then wait'[i] == 0 else !Active(cfg, wait', i))
  {
    var wait := s.barrier.wait;
    var wait' := Step(cfg, s, e).barrier.wait;
    assert forall i: nat | i < |cfg| :: wait'[i] == Promoted(wait[i], e.sf % SLOTS);
    var a: nat :| Active(cfg, wait, a);
    assert Active(cfg, wait', a);
  }

  /** The mask a call tests. */
  function Gathered(cfg: seq<RuConfig>, s: System, e: Event): nat
    requires e.Report? && e.ru < |cfg| == |s.barrier.wait| == |s.reported| && |s.barrier.mask| == SLOTS
  {
    Accumulate(cfg, Step(cfg, s, e).barrier.wait, e.ru, s.barrier.mask[e.sf % SLOTS], |cfg|)
  }

  lemma ClearsIffGatheredAll(cfg: seq<RuConfig>, s: System, e: Event)
    requires WellFormed(cfg, s.barrier) && |s.reported| == |cfg| && e.Report? && e.ru < |cfg|
    ensures var o := Call(cfg, s.barrier, e.ru, e.sf % SLOTS);
            && (o.cleared <==> AllBits(Gathered(cfg, s, e), |cfg|))
            && (o.woke <==> o.cleared && o.barrier.wait[e.ru] == 0)
  {
    var wait' := Step(cfg, s, e).barrier.wait;
    var m := s.barrier.mask[e.sf % SLOTS];
    AccumulateBound(cfg, wait', e.ru, m, |cfg|);
    FullIffAllBits(Gathered(cfg, s, e), |cfg|);
    hide Accumulate, Ones, AllBits;
  }

  lemma GatheredBit(cfg: seq<RuConfig>, s: System, e: Event, j: nat)
    requires WellFormed(cfg, s.barrier) && Roles(cfg, s.barrier.wait) && |s.reported| == |cfg|
    requires Allowed(cfg, s, e) && e.Report? && j < |cfg|
    ensures var wait' := Step(cfg, s, e).barrier.wait;
            Bit(Gathered(cfg, s, e), j) <==>
              Bit(s.barrier.mask[e.sf % SLOTS], j) || (if j == e.ru then wait'[j] == 0 else !Active(cfg, wait', j))
  {
    var wait' := Step(cfg, s, e).barrier.wait;
    CallActivates(cfg, s, e);
    AccumulateBits(cfg, wait', e.ru, s.barrier.mask[e.sf % SLOTS], |cfg|, j);
    hide Accumulate, Bit, SetsBit, Call, WellFormed, Active;
  }

  /** All active RUs but the caller have reported the caller's subframe, and the bits of all that join
      are there. */
  ghost predicate OthersReported(cfg: seq<RuConfig>, s: System, e: Event)
    requires e.Report? && |cfg| == |s.barrier.wait| == |s.reported| && |s.barrier.mask| == SLOTS
  {
    && (forall j: nat | Active(cfg, s.barrier.wait, j) && j != e.ru :: s.reported[j] > e.sf)
    && (forall j: nat | Joins(cfg, s, e, j) :: Bit(s.barrier.mask[e.sf % SLOTS], j))
  }

  lemma GathersAllIff(cfg: seq<RuConfig>, s: System, e: Event)
    requires Inv(cfg, s) && Allowed(cfg, s, e) && e.Report?
    ensures AllBits(Gathered(cfg, s, e), |cfg|) <==>
              Active(cfg, s.barrier.wait, e.ru) && OthersReported(cfg, s, e)
  {
    var t := e.sf % SLOTS;
    CallActivates(cfg, s, e);
    hide Gathered, Bit, Step, Joins, SetsBit;
    forall j: nat | j < |cfg|
      ensures Bit(Gathered(cfg, s, e), j) <==>
                Bit(s.barrier.mask[t], j) ||
                (if j == e.ru then Step(cfg, s, e).barrier.wait[j] == 0 else !Active(cfg, Step(cfg, s, e).barrier.wait, j))
    {
      GatheredBit(cfg, s, e, j);
    }
    if Active(cfg, s.barrier.wait, e.ru) {
      assert Pending(|s.cleared|, t) == e.sf;
    } else {
      var j: nat :| Active(cfg, s.barrier.wait, j) && s.reported[j] == |s.cleared|;
      assert Exact(s, j);
      assert !Bit(Gathered(cfg, s, e), j);
    }
  }

  /** The mask is completed exactly when the caller was active before the call, all other active RUs
      had already reported the same subframe, and the RUs that join had their bits; then L1 is woken
      too. */
  lemma CompletesIff(cfg: seq<RuConfig>, s: System, e: Event)
    requires Inv(cfg, s) && Allowed(cfg, s, e) && e.Report?
    ensures var o := Call(cfg, s.barrier, e.ru, e.sf % SLOTS);
            && (o.cleared <==> (&& Active(cfg, s.barrier.wait, e.ru)
                                && (forall j: nat | Active(cfg, s.barrier.wait, j) && j != e.ru :: s.reported[j] > e.sf)
                                && (forall j: nat | Joins(cfg, s, e, j) :: Bit(s.barrier.mask[e.sf % SLOTS], j))))
            && (o.woke <==> o.cleared)
  {
    ClearsIffGatheredAll(cfg, s, e);
    GathersAllIff(cfg, s, e);
    CallActivates(cfg, s, e);
    hide Gathered, AllBits, Call, Allowed, Joins, Exact, Roles, SetsBit;
    assert Step(cfg, s, e).barrier == Call(cfg, s.barrier, e.ru, e.sf % SLOTS).barrier;
  }

  /** A call changes only its own slot, and there, of the RUs active after it, the caller's bit alone. */
  lemma CallBits(cfg: seq<RuConfig>, s: System, e: Event, t: nat, i: nat)
    requires Inv(cfg, s) && Allowed(cfg, s, e) && e.Report?
    requires t < SLOTS && Active(cfg, Step(cfg, s, e).barrier.wait, i)
    ensures var o := Call(cfg, s.barrier, e.ru, e.sf % SLOTS);
            Bit(o.barrier.mask[t], i) <==>
              if t != e.sf % SLOTS then Bit(s.barrier.mask[t], i)
              else !o.cleared && (Bit(s.barrier.mask[t], i) || i == e.ru)
  {
    var wait' := Step(cfg, s, e).barrier.wait;
    CallActivates(cfg, s, e);
    AccumulateBits(cfg, wait', e.ru, s.barrier.mask[e.sf % SLOTS], |cfg|, i);
    ZeroBits(i);
    hide Accumulate, Bit, SetsBit, Inv, Allowed, Joins;
  }

  lemma CallWellFormed(cfg: seq<RuConfig>, s: System, e: Event)
    requires WellFormed(cfg, s.barrier) && |s.reported| == |cfg| && e.Report? && e.ru < |cfg|
    ensures WellFormed(cfg, Step(cfg, s, e).barrier)
  {
    AccumulateBound(cfg, Step(cfg, s, e).barrier.wait, e.ru, s.barrier.mask[e.sf % SLOTS], |cfg|);
  }

  lemma PendingIs(c: nat, t: nat, sf: nat)
    requires t < SLOTS && c <= sf < c + SLOTS && sf % SLOTS == t
    ensures Pending(c, t) == sf
  {
  }

  lemma PendingSlot(c: nat, t: nat)
    requires t < SLOTS
    ensures c <= Pending(c, t) < c + SLOTS && Pending(c, t) % SLOTS == t
  {
  }

  lemma PendingAfter(c: nat, t: nat)
    requires t < SLOTS
    ensures Pending(c + 1, t) == if t == c % SLOTS then c + SLOTS else Pending(c, t)
  {
    PendingSlot(c, t);
    PendingIs(c + 1, t, if t == c % SLOTS then c + SLOTS else Pending(c, t));
  }

  /** What the next report of an active RU is. */
  lemma ActiveOnTime(cfg: seq<RuConfig>, s: System, i: nat)
    requires Inv(cfg, s) && Active(cfg, s.barrier.wait, i) && s.reported[i] < |s.cleared| + SLOTS
    ensures OnTime(s, i, s.reported[i])
  {
    assert Exact(s, i);
  }

  /** The slots of an RU in exact terms after a call that changed them as `CallBits` says: `own` if it
      was the caller, and `done` if the call completed subframe c. */
  lemma ExactAfter(s: System, s': System, i: nat, sf: nat, own: bool, done: bool)
    requires i < |s.reported| == |s'.reported| && |s.barrier.mask| == |s'.barrier.mask| == SLOTS
    requires |s'.cleared| == |s.cleared| + (if done then 1 else 0)
    requires s'.reported[i] == if own then sf + 1 else s.reported[i]
    requires done ==> sf == |s.cleared| && (own || Bit(s.barrier.mask[sf % SLOTS], i))
    requires forall t: nat | t < SLOTS :: Bit(s'.barrier.mask[t], i) <==>
               if t != sf % SLOTS then Bit(s.barrier.mask[t], i) else !done && (Bit(s.barrier.mask[t], i) || own)
    ensures Exact(s', i) <==> if own then OnTime(s, i, sf) else Exact(s, i)
  {
    hide Bit, Pending;
    var c := |s.cleared|;
    var u := sf % SLOTS;
    PendingSlot(c, u);
    if c <= sf < c + SLOTS { PendingIs(c, u, sf); }
    forall t: nat | t < SLOTS
      ensures Pending(|s'.cleared|, t) == if done && t == u then c + SLOTS else Pending(c, t)
      ensures c <= Pending(c, t) && (t != u ==> Pending(c, t) != sf)
      ensures done && t != u ==> Pending(c, t) > c
    {
      PendingSlot(c, t);
      if done { PendingAfter(c, t); }
    }
  }

  /** Exactly which RUs are exact after a call: the caller if its report was on time, any other if it
      was exact before. */
  lemma ExactIff(cfg: seq<RuConfig>, s: System, e: Event, i: nat)
    requires Inv(cfg, s) && Allowed(cfg, s, e) && e.Report?
    requires Active(cfg, Step(cfg, s, e).barrier.wait, i)
    ensures Exact(Step(cfg, s, e), i) <==> if i == e.ru then OnTime(s, i, e.sf) else Exact(s, i)
  {
    var s' := Step(cfg, s, e);
    CallActivates(cfg, s, e);
    CompletesIff(cfg, s, e);
    forall t: nat | t < SLOTS
      ensures Bit(s'.barrier.mask[t], i) <==>
                if t != e.sf % SLOTS then Bit(s.barrier.mask[t], i)
                else s'.cleared == s.cleared && (Bit(s.barrier.mask[t], i) || i == e.ru)
    {
      CallBits(cfg, s, e, t, i);
    }
    hide Bit, Pending, Call, SetsBit, Joins;
    if s'.cleared != s.cleared {
      CompletedIsNext(cfg, s, e);
      if i != e.ru && Active(cfg, s.barrier.wait, i) {
        assert Exact(s, i);
        PendingIs(|s.cleared|, e.sf % SLOTS, e.sf);
      }
    }
    hide Exact, OnTime;
    ExactAfter(s, s', i, e.sf, i == e.ru, s'.cleared != s.cleared);
  }

  lemma CompletedIsNext(cfg: seq<RuConfig>, s: System, e: Event)
    requires Inv(cfg, s) && Allowed(cfg, s, e) && e.Report?
    requires Active(cfg, s.barrier.wait, e.ru) && OthersReported(cfg, s, e)
    ensures e.sf == |s.cleared|
  {
    hide Bit, Joins, Pending;
    var low: nat :| Active(cfg, s.barrier.wait, low) && s.reported[low] == |s.cleared|;
    assert Exact(s, e.ru);
  }

  /** The slowest active RU still marks the last completed subframe. */
  lemma SlowestMarks(cfg: seq<RuConfig>, s: System, e: Event)
    requires Inv(cfg, s) && Allowed(cfg, s, e) && e.Report? && SafeToJoin(cfg, s, e)
    ensures var s' := Step(cfg, s, e);
            exists i: nat | Active(cfg, s'.barrier.wait, i) :: s'.reported[i] == |s'.cleared|
  {
    var s' := Step(cfg, s, e);
    var c := |s.cleared|;
    CallActivates(cfg, s, e);
    CompletesIff(cfg, s, e);
    hide Bit, Joins, Call, SetsBit, Pending;
    var low: nat :| Active(cfg, s.barrier.wait, low) && s.reported[low] == c;
    if s'.cleared != s.cleared {
      CompletedIsNext(cfg, s, e);
      assert s'.reported[e.ru] == c + 1;
    } else if low != e.ru {
      assert s'.reported[low] == c;
    } else if j: nat :| Active(cfg, s.barrier.wait, j) && j != e.ru && s.reported[j] <= e.sf {
      assert Exact(s, j);
      assert s'.reported[j] == c;
    } else {
      var j: nat :| Joins(cfg, s, e, j) && !Bit(s.barrier.mask[e.sf % SLOTS], j);
      JoinerIsOther(cfg, s, e, j);
      assert Exact(s, j);
      PendingIs(c, e.sf % SLOTS, e.sf);
      assert s'.reported[j] == c;
    }
  }

  lemma JoinerIsOther(cfg: seq<RuConfig>, s: System, e: Event, j: nat)
    requires |cfg| == |s.barrier.wait| && Joins(cfg, s, e, j) && Active(cfg, s.barrier.wait, e.ru)
    ensures j != e.ru
  {
  }

  lemma CallKeepsInvIff(cfg: seq<RuConfig>, s: System, e: Event)
    requires Inv(cfg, s) && Allowed(cfg, s, e) && e.Report?
    ensures Inv(cfg, Step(cfg, s, e)) <==> SafeToJoin(cfg, s, e)
  {
    var s' := Step(cfg, s, e);
    CallWellFormed(cfg, s, e);
    CallActivates(cfg, s, e);
    CallOrder(cfg, s, e);
    forall i: nat | Active(cfg, s'.barrier.wait, i)
      ensures Exact(s', i) <==> if i == e.ru then OnTime(s, i, e.sf) else Exact(s, i)
    {
      ExactIff(cfg, s, e, i);
    }
    if Active(cfg, s.barrier.wait, e.ru) { ActiveOnTime(cfg, s, e.ru); }
    if SafeToJoin(cfg, s, e) { SlowestMarks(cfg, s, e); }
    hide Exact, OnTime, Step, Joins, WellFormed, Roles, InOrder, SetsBit;
  }

  lemma CallOrder(cfg: seq<RuConfig>, s: System, e: Event)
    requires Inv(cfg, s) && Allowed(cfg, s, e) && e.Report?
    ensures var s' := Step(cfg, s, e);
            && InOrder(s'.cleared) && s'.woken == s'.cleared && |s'.reported| == |cfg|
  {
    CompletesIff(cfg, s, e);
    if Step(cfg, s, e).cleared != s.cleared {
      CompletedIsNext(cfg, s, e);
    }
    hide Call, Joins, Exact, Roles;
  }

  lemma CountDownKeepsInvIff(cfg: seq<RuConfig>, s: System, e: Event)
    requires Inv(cfg, s) && Allowed(cfg, s, e) && e.CountDown?
    ensures Inv(cfg, Step(cfg, s, e)) <==> SafeToJoin(cfg, s, e)
  {
    hide Bit, Pending, OnTime;
    var s' := Step(cfg, s, e);
    assert forall i: nat :: Active(cfg, s'.barrier.wait, i) <==> Active(cfg, s.barrier.wait, i) || Joins(cfg, s, e, i);
    assert forall i: nat | i < |cfg| :: Exact(s', i) <==> Exact(s, i);
    var low: nat :| Active(cfg, s.barrier.wait, low) && s.reported[low] == |s.cleared|;
    assert Active(cfg, s'.barrier.wait, low) && s'.reported[low] == |s'.cleared|;
  }

  /** Exactly the steps in which whoever joins has the bits of an active RU keep the invariant. */
  lemma StepKeepsInvIff(cfg: seq<RuConfig>, s: System, e: Event)
    requires Inv(cfg, s) && Allowed(cfg, s, e)
    ensures Inv(cfg, Step(cfg, s, e)) <==> SafeToJoin(cfg, s, e)
  {
    if e.Report? {
      CallKeepsInvIff(cfg, s, e);
    } else {
      CountDownKeepsInvIff(cfg, s, e);
    }
  }

  lemma InitInv(cfg: seq<RuConfig>, waits: seq<nat>)
    requires Roles(cfg, waits)
    ensures Inv(cfg, Init(waits))
  {
    var s := Init(waits);
    var a: nat :| Active(cfg, waits, a);
    assert s.reported[a] == 0;
    forall i: nat | Active(cfg, waits, i) ensures Exact(s, i) {
      ZeroBits(i);
    }
  }

  function Run(cfg: seq<RuConfig>, waits: seq<nat>, es: seq<Event>): (s: System)
    requires |waits| == |cfg| && forall e | e in es :: e.ru < |cfg|
    ensures |s.barrier.wait| == |s.reported| == |cfg| && |s.barrier.mask| == SLOTS
  {
    if es == [] then Init(waits) else Step(cfg, Run(cfg, waits, es[..|es| - 1]), es[|es| - 1])
  }

  // ---------------------------------------------------------------- the wait counters over a run

  /** How often RU i has counted down. */
  function CountDowns(es: seq<Event>, i: nat): nat {
    if es == [] then 0
    else CountDowns(es[..|es| - 1], i) + if es[|es| - 1] == CountDown(i) then 1 else 0
  }

  /** Since RU i last counted down, some RU has reported a subframe that is not the last of a frame. */
  predicate ReportSince(es: seq<Event>, i: nat) {
    && es != []
    && es[|es| - 1] != CountDown(i)
    && ((es[|es| - 1].Report? && es[|es| - 1].sf % 10 != 9) || ReportSince(es[..|es| - 1], i))
  }

  /** Over any list of events, an RU that starts with wait w and has counted down c times waits w - c
      more times, or no more once that is zero; only the last wait can be cut short, by a report of any
      RU that is not in subframe 9. */
  lemma {:induction false} WaitsCountedDown(cfg: seq<RuConfig>, waits: seq<nat>, es: seq<Event>, i: nat)
    requires |waits| == |cfg| && i < |cfg| && forall e | e in es :: e.ru < |cfg|
    ensures var left := waits[i] - CountDowns(es, i);
            Run(cfg, waits, es).barrier.wait[i] ==
              if left <= 0 || (left == 1 && ReportSince(es, i)) then 0 else left
  {
    if es != [] {
      WaitsCountedDown(cfg, waits, es[..|es| - 1], i);
      StepWait(cfg, Run(cfg, waits, es[..|es| - 1]), es[|es| - 1], i);
      hide Step;
    }
  }

  /** What one event does to the counter of RU i. */
  lemma StepWait(cfg: seq<RuConfig>, s: System, e: Event, i: nat)
    requires e.ru < |cfg| == |s.barrier.wait| == |s.reported| && |s.barrier.mask| == SLOTS && i < |cfg|
    ensures var w := s.barrier.wait[i];
            Step(cfg, s, e).barrier.wait[i] ==
              match e
              case CountDown(ru) => if ru == i && w > 0 then w - 1 else w
              case Report(_, sf) => if w == 1 && sf % 10 != 9 then 0 else w
  {
    hide Accumulate;
  }

  /** Any interleaving of the RU threads in which every event was allowed when it happened, and every
      RU that joined did so safely. */
  ghost predicate Schedule(cfg: seq<RuConfig>, waits: seq<nat>, es: seq<Event>)
    requires |waits| == |cfg|
  {
    && (forall e | e in es :: e.ru < |cfg|)
    && (es == [] || (var init, last := es[..|es| - 1], es[|es| - 1];
                     && Schedule(cfg, waits, init)
                     && Allowed(cfg, Run(cfg, waits, init), last)
                     && SafeToJoin(cfg, Run(cfg, waits, init), last)))
  }

  /** Any interleaving in which every event was allowed when it happened. */
  predicate AllowedRun(cfg: seq<RuConfig>, waits: seq<nat>, es: seq<Event>)
    requires |waits| == |cfg|
  {
    && (forall e | e in es :: e.ru < |cfg|)
    && (es == [] || (&& AllowedRun(cfg, waits, es[..|es| - 1])
                     && Allowed(cfg, Run(cfg, waits, es[..|es| - 1]), es[|es| - 1])))
  }

  /** Where no RU waits nobody joins, so every interleaving is safe. */
  lemma {:induction false} SteadyIsSafe(cfg: seq<RuConfig>, waits: seq<nat>, es: seq<Event>)
    requires |waits| == |cfg| && (forall w | w in waits :: w == 0) && AllowedRun(cfg, waits, es)
    ensures Schedule(cfg, waits, es) && Run(cfg, waits, es).barrier.wait == waits
  {
    if es != [] {
      SteadyIsSafe(cfg, waits, es[..|es| - 1]);
      SteadyStep(cfg, Run(cfg, waits, es[..|es| - 1]), es[|es| - 1]);
    }
    hide Step, SafeToJoin, Allowed;
  }

  lemma SteadyStep(cfg: seq<RuConfig>, s: System, e: Event)
    requires e.ru < |cfg| == |s.barrier.wait| == |s.reported| && |s.barrier.mask| == SLOTS
    requires forall w | w in s.barrier.wait :: w == 0
    ensures SafeToJoin(cfg, s, e) && Step(cfg, s, e).barrier.wait == s.barrier.wait
  {
    hide Exact, OnTime, Accumulate;
    assert forall i | 0 <= i < |cfg| :: s.barrier.wait[i] in s.barrier.wait;
  }

  /** Safety over every interleaving of any number of RUs, those included that become active on the
      way: the mask is cleared, and L1 woken, exactly once for every absolute subframe, in order, and
      only when every active RU has reported it; in between, slot t holds exactly the active RUs that
      reported the subframe pending there. */
  lemma {:induction false} BarrierSafety(cfg: seq<RuConfig>, waits: seq<nat>, es: seq<Event>)
    requires Roles(cfg, waits) && Schedule(cfg, waits, es)
    ensures var s := Run(cfg, waits, es);
            && InOrder(s.cleared) && s.woken == s.cleared
            && (forall i: nat | Active(cfg, s.barrier.wait, i) :: |s.cleared| <= s.reported[i] <= |s.cleared| + SLOTS)
            && (exists i: nat | Active(cfg, s.barrier.wait, i) :: s.reported[i] == |s.cleared|)
            && (forall t: nat, i: nat | t < SLOTS && Active(cfg, s.barrier.wait, i) ::
                  Bit(s.barrier.mask[t], i) <==> s.reported[i] > Pending(|s.cleared|, t))
            && Inv(cfg, s)
  {
    if es == [] {
      InitInv(cfg, waits);
    } else {
      BarrierSafety(cfg, waits, es[..|es| - 1]);
      StepKeepsInvIff(cfg, Run(cfg, waits, es[..|es| - 1]), es[|es| - 1]);
    }
    assert forall i: nat | Active(cfg, Run(cfg, waits, es).barrier.wait, i) :: Exact(Run(cfg, waits, es), i);
    hide Run, Schedule, Bit, Pending;
  }

  /** Inside the window a report finds its bit clear, and sets it or completes the mask. */
  lemma ReportInWindowCounts(cfg: seq<RuConfig>, s: System, ru: nat)
    requires Inv(cfg, s) && Active(cfg, s.barrier.wait, ru)
    requires s.reported[ru] < |s.cleared| + SLOTS
    ensures var t := s.reported[ru] % SLOTS;
            var o := Call(cfg, s.barrier, ru, t);
            !Bit(s.barrier.mask[t], ru) && (o.cleared || Bit(o.barrier.mask[t], ru))
  {
    var sf := s.reported[ru];
    CallBits(cfg, s, Report(ru, sf), sf % SLOTS, ru);
    PendingIs(|s.cleared|, sf % SLOTS, sf);
  }

  /** Ten ahead, the slot still belongs to the older subframe, which some other RU has not reported. */
  lemma LateReportIsLost(cfg: seq<RuConfig>, s: System, ru: nat)
    requires Inv(cfg, s) && Active(cfg, s.barrier.wait, ru)
    requires s.reported[ru] == |s.cleared| + SLOTS
    ensures var t := s.reported[ru] % SLOTS;
            var o := Call(cfg, s.barrier, ru, t);
            !o.cleared && Bit(o.barrier.mask[t], ru) && Bit(s.barrier.mask[t], ru)
  {
    var t := s.reported[ru] % SLOTS;
    var m := s.barrier.mask[t];
    var wait' := Call(cfg, s.barrier, ru, t).barrier.wait;
    var low: nat :| Active(cfg, s.barrier.wait, low) && s.reported[low] == |s.cleared|;
    assert Pending(|s.cleared|, t) == |s.cleared|;
    AccumulateBound(cfg, wait', ru, m, |cfg|);
    FullIffAllBits(Accumulate(cfg, wait', ru, m, |cfg|), |cfg|);
    AccumulateBits(cfg, wait', ru, m, |cfg|, low);
    AccumulateBits(cfg, wait', ru, m, |cfg|, ru);
  }

  /** The window is exact: after any run, the next report of an active RU is recorded if and only if
      it is less than ten subframes ahead of the last completed one. */
  lemma ReportRecordedIff(cfg: seq<RuConfig>, s: System, ru: nat)
    requires Inv(cfg, s) && Active(cfg, s.barrier.wait, ru)
    ensures var t := s.reported[ru] % SLOTS;
            var o := Call(cfg, s.barrier, ru, t);
            (o.cleared || !Bit(s.barrier.mask[t], ru)) <==> s.reported[ru] < |s.cleared| + SLOTS
  {
    if s.reported[ru] < |s.cleared| + SLOTS {
      ReportInWindowCounts(cfg, s, ru);
    } else {
      LateReportIsLost(cfg, s, ru);
    }
  }

  /** The window is reached: of two active RUs one reports ten subframes before the other reports any. */
  lemma {:induction false} WindowFills(k: nat)
    requires k <= SLOTS
    ensures Schedule(PAIR, [0, 0], Ahead(k))
    ensures var s := Run(PAIR, [0, 0], Ahead(k));
            Inv(PAIR, s) && s.barrier.wait == [0, 0] && s.reported == [k, 0] && s.cleared == []
  {
    hide Inv, Exact, Call, Allowed, SafeToJoin, Step;
    if k > 0 {
      WindowFills(k - 1);
      assert Ahead(k)[..k - 1] == Ahead(k - 1);
      AheadStep(Run(PAIR, [0, 0], Ahead(k - 1)), k - 1);
    } else {
      assert Active(PAIR, [0, 0], 0) && Active(PAIR, [0, 0], 1);
      InitInv(PAIR, [0, 0]);
    }
  }

  lemma AheadStep(s: System, k: nat)
    requires Inv(PAIR, s) && s.barrier.wait == [0, 0] && s.reported == [k, 0] && s.cleared == [] && k < SLOTS
    ensures Allowed(PAIR, s, Report(0, k)) && SafeToJoin(PAIR, s, Report(0, k))
    ensures var s' := Step(PAIR, s, Report(0, k));
            Inv(PAIR, s') && s'.barrier.wait == [0, 0] && s'.reported == [k + 1, 0] && s'.cleared == []
  {
    hide Exact, OnTime;
    StepKeepsInvIff(PAIR, s, Report(0, k));
    CompletesIff(PAIR, s, Report(0, k));
    hide Accumulate, Inv;
    assert Active(PAIR, s.barrier.wait, 1);
    assert Step(PAIR, s, Report(0, k)).barrier.wait == [0, 0];
  }

  const PAIR: seq<RuConfig> := [RuConfig(false, false), RuConfig(false, false)]

  function Ahead(k: nat): seq<Event> {
    seq(k, i requires 0 <= i < k => Report(0, i))
  }

  // ---------------------------------------------------------------- an unsafe promotion

  /** The condition is needed. RU 0 is active and two slaves wait. Slave 1 reports subframe 3 while
      slave 2 still waits, which leaves the bit of slave 2 in slot 3; slave 2 then counts down to 1 and
      its own report of subframe 0 promotes it, too early. Every step is one the threads may take and
      all but that one are safe, but RU 0 completes subframe 3, which slave 2 has not reported. */
  lemma PromotionBreaksBarrier()
    ensures forall k | 0 <= k < 9 ::
              var s := Run(TRIO, [0, 50, 2], Breaking(k));
              Allowed(TRIO, s, BreakingEvent(k)) && (SafeToJoin(TRIO, s, BreakingEvent(k)) <==> k != 2)
    ensures var s := Run(TRIO, [0, 50, 2], Breaking(9));
            Active(TRIO, s.barrier.wait, 2) && s.woken == [0, 1, 2, 3] && s.reported[2] == 3
  {
    hide Run, Trace, BreakingEvent, Allowed, SafeToJoin;
    forall k | 0 <= k < 9
      ensures Run(TRIO, [0, 50, 2], Breaking(k)) == Trace(k)
      ensures Allowed(TRIO, Trace(k), BreakingEvent(k)) && (SafeToJoin(TRIO, Trace(k), BreakingEvent(k)) <==> k != 2)
    {
      RunIsTrace(k);
      TraceAllowed(k);
    }
    RunIsTrace(9);
    TraceEnd();
  }

  lemma TraceEnd()
    ensures Active(TRIO, Trace(9).barrier.wait, 2) && Trace(9).woken == [0, 1, 2, 3] && Trace(9).reported[2] == 3
  {
  }

  const TRIO: seq<RuConfig> := [RuConfig(false, false), RuConfig(true, false), RuConfig(true, false)]
  const CLEAR: seq<nat> := [0, 0, 0, 0, 0, 0, 0, 0, 0, 0]
  const LEFT: seq<nat> := CLEAR[3 := 4]

  function BreakingEvent(k: nat): Event {
    match k
    case 0 => Report(1, 3)
    case 1 => CountDown(2)
    case 2 => Report(2, 0)
    case 3 => Report(0, 0)
    case 4 => Report(0, 1)
    case 5 => Report(2, 1)
    case 6 => Report(0, 2)
    case 7 => Report(2, 2)
    case _ => Report(0, 3)
  }

  /** The first n events of that run. */
  function Breaking(n: nat): (es: seq<Event>)
    ensures |es| == n && forall e | e in es :: e.ru < |TRIO|
  {
    seq(n, k requires 0 <= k < n => BreakingEvent(k))
  }

  /** The states of that run. */
  function Trace(k: nat): (s: System)
    ensures 3 == |s.barrier.wait| == |s.reported| && |s.barrier.mask| == SLOTS
    ensures s.woken == s.cleared
  {
    match k
    case 0 => System(Barrier(CLEAR, [0, 50, 2]), [0, 0, 0], [], [])
    case 1 => System(Barrier(LEFT, [0, 50, 2]), [0, 4, 0], [], [])
    case 2 => System(Barrier(LEFT, [0, 50, 1]), [0, 4, 0], [], [])
    case 3 => System(Barrier(LEFT[0 := 6], [0, 50, 0]), [0, 4, 1], [], [])
    case 4 => System(Barrier(LEFT, [0, 50, 0]), [1, 4, 1], [0], [0])
    case 5 => System(Barrier(LEFT[1 := 3], [0, 50, 0]), [2, 4, 1], [0], [0])
    case 6 => System(Barrier(LEFT, [0, 50, 0]), [2, 4, 2], [0, 1], [0, 1])
    case 7 => System(Barrier(LEFT[2 := 3], [0, 50, 0]), [3, 4, 2], [0, 1], [0, 1])
    case 8 => System(Barrier(LEFT, [0, 50, 0]), [3, 4, 3], [0, 1, 2], [0, 1, 2])
    case _ => System(Barrier(CLEAR, [0, 50, 0]), [4, 4, 3], [0, 1, 2, 3], [0, 1, 2, 3])
  }

  lemma {:induction false} RunIsTrace(k: nat)
    requires k <= 9
    ensures Run(TRIO, [0, 50, 2], Breaking(k)) == Trace(k)
  {
    hide Step, BreakingEvent;
    if k > 0 {
      hide Trace;
      RunIsTrace(k - 1);
      assert Breaking(k)[..k - 1] == Breaking(k - 1);
      TraceStep(k - 1);
    }
  }

  lemma TraceAllowed(k: nat)
    requires k < 9
    ensures Allowed(TRIO, Trace(k), BreakingEvent(k)) && (SafeToJoin(TRIO, Trace(k), BreakingEvent(k)) <==> k != 2)
  {
    if k == 2 {
      TooEarly();
    }
    hide Exact, OnTime;
  }

  lemma TraceStep(k: nat)
    requires k < 9
    ensures Step(TRIO, Trace(k), BreakingEvent(k)) == Trace(k + 1)
  {
    hide Trace, Call, Step, Completing, BreakingEvent;
    if k == 1 {
      SlaveTwoCountsDown();
    } else {
      TraceCall(k);
      TraceLogs(k);
      ReportStep(Trace(k), BreakingEvent(k), Trace(k + 1), Completing(k));
    }
  }

  lemma SlaveTwoCountsDown()
    ensures Step(TRIO, Trace(1), BreakingEvent(1)) == Trace(2)
  {
    assert [0, 50, 2][2 := 1] == [0, 50, 1];
  }

  lemma ReportStep(s: System, e: Event, s': System, full: bool)
    requires e.Report? && e.ru < 3 == |s.barrier.wait| == |s.reported| && |s.barrier.mask| == SLOTS
    requires Call(TRIO, s.barrier, e.ru, e.sf % SLOTS) == Outcome(s'.barrier, full, full)
    requires s'.reported == s.reported[e.ru := e.sf + 1] && s'.cleared == (if full then s.cleared + [e.sf] else s.cleared)
    requires s'.woken == s'.cleared && s.woken == s.cleared
    ensures Step(TRIO, s, e) == s'
  {
    hide Call;
  }

  predicate Completing(k: nat) {
    k == 3 || k == 5 || k == 7 || k == 8
  }

  lemma TraceLogs(k: nat)
    requires k < 9 && k != 1
    ensures var s, s', e := Trace(k), Trace(k + 1), BreakingEvent(k);
            && e.Report? && e.ru < 3 && e.sf < SLOTS
            && s'.reported == s.reported[e.ru := e.sf + 1]
            && s'.cleared == (if Completing(k) then s.cleared + [e.sf] else s.cleared)
  {
  }

  lemma TraceCall(k: nat)
    requires k < 9 && k != 1
    ensures Call(TRIO, Trace(k).barrier, BreakingEvent(k).ru, BreakingEvent(k).sf) ==
            Outcome(Trace(k + 1).barrier, Completing(k), Completing(k))
  {
    if k == 0 {
      SlaveOneReports();
    } else if k == 2 {
      SlaveTwoPromoted();
    } else {
      TrioCall(Trace(k).barrier.mask, BreakingEvent(k).ru, BreakingEvent(k).sf);
      hide Call;
      TraceMasks();
    }
  }

  lemma TraceMasks()
    ensures LEFT[0 := 6][0 := 0] == LEFT && LEFT[1 := 3][1 := 0] == LEFT && LEFT[2 := 3][2 := 0] == LEFT
    ensures LEFT[3 := 0] == CLEAR
  {
  }

  /** When slave 2 reports subframe 0, its bit for subframe 3 is already there. */
  lemma TooEarly()
    ensures !SafeToJoin(TRIO, Trace(2), BreakingEvent(2))
  {
    assert Bit(4, 2) && Bit(Trace(2).barrier.mask[3], 2);
    assert Joins(TRIO, Trace(2), BreakingEvent(2), 2);
  }

  lemma SlaveOneReports()
    ensures Call(TRIO, Barrier(CLEAR, [0, 50, 2]), 1, 3) == Outcome(Barrier(LEFT, [0, 50, 2]), false, false)
  {
    assert Ones(3) == 7 && SetBit(0, 2) == 4;
    assert Accumulate(TRIO, [0, 50, 2], 1, 0, 2) == 0;
    assert Call(TRIO, Barrier(CLEAR, [0, 50, 2]), 1, 3).barrier.wait == [0, 50, 2];
  }

  lemma SlaveTwoPromoted()
    ensures Call(TRIO, Barrier(LEFT, [0, 50, 1]), 2, 0) == Outcome(Barrier(LEFT[0 := 6], [0, 50, 0]), false, false)
  {
    assert Ones(3) == 7 && SetBit(0, 1) == 2 && SetBit(2, 2) == 6;
    assert Accumulate(TRIO, [0, 50, 0], 2, 0, 1) == 0;
    assert Call(TRIO, Barrier(LEFT, [0, 50, 1]), 2, 0).barrier.wait == [0, 50, 0];
  }

  /** A call of RU 0 or slave 2 once both are active. */
  lemma TrioCall(mask: seq<nat>, ru: nat, tti: nat)
    requires |mask| == SLOTS && tti < SLOTS && (ru == 0 || ru == 2)
    requires mask[tti] == 0 || mask[tti] == 3 || mask[tti] == 4 || mask[tti] == 6
    ensures var full := if ru == 0 then mask[tti] == 4 || mask[tti] == 6 else mask[tti] == 3;
            var m := if full then 0 else if ru == 0 then 3 else 6;
            Call(TRIO, Barrier(mask, [0, 50, 0]), ru, tti) == Outcome(Barrier(mask[tti := m], [0, 50, 0]), full, full)
  {
    TrioMask(ru, mask[tti]);
    assert Ones(3) == 7;
    hide Accumulate, Ones;
    assert Call(TRIO, Barrier(mask, [0, 50, 0]), ru, tti).barrier.wait == [0, 50, 0];
  }

  lemma TrioMask(ru: nat, m: nat)
    requires (ru == 0 || ru == 2) && (m == 0 || m == 3 || m == 4 || m == 6)
    ensures Accumulate(TRIO, [0, 50, 0], ru, m, 3) ==
            if ru == 0 then (if m == 4 || m == 6 then 7 else 3) else (if m == 3 then 7 else 6)
  {
    var w := [0, 50, 0];
    TrioBits();
    hide SetBit;
    assert Accumulate(TRIO, w, ru, m, 1) == if ru == 0 then SetBit(m, 0) else m;
    assert Accumulate(TRIO, w, ru, m, 2) == SetBit(Accumulate(TRIO, w, ru, m, 1), 1);
  }

  lemma TrioBits()
    ensures SetBit(0, 0) == 1 && SetBit(3, 0) == 3 && SetBit(4, 0) == 5 && SetBit(6, 0) == 7
    ensures SetBit(0, 1) == 2 && SetBit(1, 1) == 3 && SetBit(3, 1) == 3 && SetBit(4, 1) == 6
    ensures SetBit(5, 1) == 7 && SetBit(6, 1) == 6 && SetBit(7, 1) == 7
    ensures SetBit(2, 2) == 6 && SetBit(3, 2) == 7 && SetBit(6, 2) == 6
  {
  }
}
