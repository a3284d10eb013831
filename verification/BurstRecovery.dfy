/** The late-command fail-safe of `tx_rf`: after a receive or transmit fault the burst is ended
    without a time, two subframes are not sent, and the next one starts a new burst. The receive
    thread may raise a fault between any two accesses of `tx_rf` to the shared `late_control`. */
module BurstRecovery {

  datatype LateControl = Normal | Terminate | Stop1 | Stop2 | Restart

  datatype Flag = Middle | Start | End | EndNoTimeSpec

  /** Flags of the normal state. */
  type Plain = f: Flag | f != EndNoTimeSpec witness Middle

  datatype SfType = DL | UL | S

  /** Flag of a downlink or special subframe in the normal state. */
  function PlainFlag(sf: SfType, prev: SfType, tdd: bool): Plain {
    if tdd && sf == DL && prev == UL then Start
    else if sf == S then End
    else Middle
  }

  // ---------------------------------------------------------------- the flags of a TDD frame

  /** Successive subframes of a TDD configuration: from downlink through a special subframe to uplink. */
  predicate TddOrder(types: seq<SfType>) {
    forall t | 0 < t < |types| :: MayFollow(types[t - 1], types[t])
  }

  predicate MayFollow(prev: SfType, sf: SfType) {
    match prev
    case DL => sf != UL
    case S => sf == UL
    case UL => sf != S
  }

  /** The flag of the write of subframe t in the normal state. */
  function FlagAt(types: seq<SfType>, t: nat): Plain
    requires 0 < t < |types| && types[t] != UL
  {
    PlainFlag(types[t], types[t - 1], true)
  }

  /** Of two successive writes, with only uplink between them, the later is a start exactly when the
      earlier is an end. */
  lemma StartIffAfterEnd(types: seq<SfType>, i: nat, j: nat)
    requires TddOrder(types) && 0 < i < j < |types| && types[i] != UL && types[j] != UL
    requires forall t | i < t < j :: types[t] == UL
    ensures FlagAt(types, j) == Start <==> FlagAt(types, i) == End
  {
    assert MayFollow(types[i], types[i + 1]) by { assert types[i + 1 - 1] == types[i]; }
    assert MayFollow(types[j - 1], types[j]);
  }

  /** Over any number of frames each end is followed by a start before the next write that is neither. */
  lemma EachEndReopened(types: seq<SfType>, i: nat, j: nat) returns (k: nat)
    requires TddOrder(types) && 0 < i < j < |types| && types[i] != UL && types[j] != UL
    requires FlagAt(types, i) == End && FlagAt(types, j) == Middle
    ensures i < k < j && types[k] != UL && FlagAt(types, k) == Start
    ensures forall t | i < t < k :: types[t] == UL
  {
    k := i + 1;
    while types[k] == UL
      invariant i < k <= j && forall t | i < t < k :: types[t] == UL
      decreases j - k
    {
      k := k + 1;
    }
    StartIffAfterEnd(types, i, k);
  }

  /** Ends are the special subframes, and without TDD every downlink write continues the burst. */
  lemma EndIffSpecial(sf: SfType, prev: SfType, tdd: bool)
    requires sf != UL
    ensures PlainFlag(sf, prev, tdd) == End <==> sf == S
    ensures !tdd && sf == DL ==> PlainFlag(sf, prev, tdd) == Middle
  {
  }

  datatype Option<T> = None | Some(value: T)

  // ---------------------------------------------------------------- one call, undisturbed

  /** What a call puts on the radio: a write with a flag, or nothing. */
  datatype Output = Write(flag: Flag) | Suppressed

  /** New state and output of a call, before the length of the write is checked. */
  function Decide(late: LateControl, plain: Plain): (LateControl, Output) {
    match late
    case Normal => (Normal, Write(plain))
    case Terminate => (Stop1, Write(EndNoTimeSpec))
    case Stop1 => (Stop2, Suppressed)
    case Stop2 => (Restart, Suppressed)
    case Restart => (Normal, Write(Start))
  }

  /** A short write is a fault only in the normal state and without a separate write thread. */
  function CheckSent(late: LateControl, short: bool, txThread: bool): LateControl {
    if !txThread && short && late == Normal then Terminate else late
  }

  class Radio {
    const usrp_tx_thread: bool
    const tdd: bool
    var late_control: LateControl
    ghost var outputs: seq<Output>

    constructor (txThread: bool, tdd: bool)
      ensures late_control == Normal && outputs == [] && usrp_tx_thread == txThread && this.tdd == tdd
    {
      usrp_tx_thread, this.tdd, late_control, outputs := txThread, tdd, Normal, [];
    }

    /** `tx_rf` of a downlink or special subframe; `short` tells that the device sent too little. */
    method TxRf(sf: SfType, prev: SfType, short: bool)
      requires sf != UL
      modifies this
      ensures var d := Decide(old(late_control), PlainFlag(sf, prev, tdd));
              && outputs == old(outputs) + [d.1]
              && late_control == if d.1.Write? then CheckSent(d.0, short, usrp_tx_thread) else d.0
      ensures (old(late_control) == Normal || old(late_control) == Restart) && short && !usrp_tx_thread ==>
                late_control == Terminate
    {
      var flags := Middle;
      if sf == S {
        flags := End;
      }
      if tdd && sf == DL && prev == UL {
        flags := Start;
      }
      if late_control != Normal {
        match late_control {
          case Terminate =>
            flags := EndNoTimeSpec;
            late_control := Stop1;
          case Stop1 =>
            late_control := Stop2;
            outputs := outputs + [Suppressed];
            return;
          case Stop2 =>
            late_control := Restart;
            outputs := outputs + [Suppressed];
            return;
          case Restart =>
            flags := Start;
            late_control := Normal;
        }
      }
      outputs := outputs + [Write(flags)];
      if !usrp_tx_thread && short && late_control == Normal {
        late_control := Terminate;
      }
    }

    /** `rx_rf` got another number of samples than it asked for. */
    method RxFault()
      modifies this`late_control
      ensures late_control == Terminate
    {
      late_control := Terminate;
    }
  }

  /** A run of undisturbed calls, all of full length, given their plain flags. */
  function Calls(late: LateControl, plain: seq<Plain>): (LateControl, seq<Output>)
    decreases |plain|
  {
    if plain == [] then (late, [])
    else
      var d := Decide(late, plain[0]);
      var rest := Calls(d.0, plain[1..]);
      (rest.0, [d.1] + rest.1)
  }

  function PlainWrites(plain: seq<Plain>): seq<Output> {
    seq(|plain|, i requires 0 <= i < |plain| => Write(plain[i]))
  }

  /** One call of a run. */
  lemma FirstCall(late: LateControl, plain: seq<Plain>)
    requires plain != []
    ensures var d := Decide(late, plain[0]);
            && Calls(late, plain).0 == Calls(d.0, plain[1..]).0
            && Calls(late, plain).1 == [d.1] + Calls(d.0, plain[1..]).1
  {
  }

  /** Recovery without a new fault: exactly an end without time, two suppressed subframes, a start,
      and then the flags of the normal state for ever. */
  lemma RecoverySequence(plain: seq<Plain>)
    requires |plain| >= 4
    ensures Calls(Terminate, plain).0 == Normal
    ensures Calls(Terminate, plain).1 ==
            [Write(EndNoTimeSpec), Suppressed, Suppressed, Write(Start)] + PlainWrites(plain[4..])
  {
    hide Calls, PlainWrites;
    FirstCall(Terminate, plain);
    SuppressedPart(plain[1..]);
    assert plain[1..][3..] == plain[4..];
  }

  lemma SuppressedPart(plain: seq<Plain>)
    requires |plain| >= 3
    ensures Calls(Stop1, plain).0 == Normal
    ensures Calls(Stop1, plain).1 == [Suppressed, Suppressed, Write(Start)] + PlainWrites(plain[3..])
  {
    hide Calls, PlainWrites;
    FirstCall(Stop1, plain);
    FirstCall(Stop2, plain[1..]);
    assert plain[1..][1..] == plain[2..] && plain[2..][1..] == plain[3..];
    FirstCall(Restart, plain[2..]);
    NormalForEver(plain[3..]);
  }

  lemma {:induction false} NormalForEver(plain: seq<Plain>)
    ensures Calls(Normal, plain).0 == Normal && Calls(Normal, plain).1 == PlainWrites(plain)
  {
    if plain != [] {
      NormalForEver(plain[1..]);
      FirstCall(Normal, plain);
      assert PlainWrites(plain) == [Write(plain[0])] + PlainWrites(plain[1..]);
    }
  }

  // ---------------------------------------------------------------- all interleavings

  /** Program counter of `tx_rf`, one shared access at a time. */
  datatype TxPc =
    | Idle
    | AtSwitch(plain: Plain)                       // saw a state that is not normal
    | InCase(seen: LateControl, plain: Plain)      // took a case of the switch, state still to be written
    | Writing(flag: Flag)
    | Checking(short: bool)

  datatype System = System(late: LateControl, pc: TxPc, writes: seq<Flag>)

  datatype Action =
    | Fault                                       // a receive fault, at any moment
    | TxStep(plain: Plain, short: bool)            // next step of `tx_rf`, with what it meets

  const START: System := System(Normal, Idle, [])

  function StepTx(s: System, plain: Plain, short: bool, txThread: bool): System {
    match s.pc
    case Idle => s.(pc := if s.late != Normal then AtSwitch(plain) else Writing(plain))
    case AtSwitch(p) => s.(pc := InCase(s.late, p))
    case InCase(seen, p) =>
      var d := Decide(seen, p);
      s.(late := d.0, pc := match d.1 case Write(f) => Writing(f) case Suppressed => Idle)
    case Writing(f) => s.(writes := s.writes + [f], pc := Checking(short))
    case Checking(sh) => s.(late := CheckSent(s.late, sh, txThread), pc := Idle)
  }

  function Next(s: System, a: Action, txThread: bool): System {
    match a
    case Fault => s.(late := Terminate)
    case TxStep(plain, short) => StepTx(s, plain, short, txThread)
  }

  function Run(actions: seq<Action>, txThread: bool): System {
    if actions == [] then START
    else Next(Run(actions[..|actions| - 1], txThread), actions[|actions| - 1], txThread)
  }

  /** After an end without time, whatever the next write is, it is a start or another such end. */
  ghost predicate Restarted(writes: seq<Flag>) {
    forall i | 0 <= i < |writes| - 1 && writes[i] == EndNoTimeSpec ::
      writes[i + 1] == Start || writes[i + 1] == EndNoTimeSpec
  }

  ghost predicate Inv(s: System) {
    && (s.pc.AtSwitch? ==> s.late != Normal)
    && (s.pc.InCase? ==> s.late != Normal && s.pc.seen != Normal)
    && (s.pc == Writing(EndNoTimeSpec) ==> s.late != Normal)
    && Restarted(s.writes)
    && (s.writes != [] && s.writes[|s.writes| - 1] == EndNoTimeSpec ==>
          if s.pc.Writing? then s.pc.flag == Start || s.pc.flag == EndNoTimeSpec
          else s.late != Normal)
  }

  lemma NextKeepsInv(s: System, a: Action, txThread: bool)
    requires Inv(s)
    ensures Inv(Next(s, a, txThread))
  {
  }

  lemma {:induction false} RunInv(actions: seq<Action>, txThread: bool)
    ensures Inv(Run(actions, txThread))
  {
    if actions != [] {
      RunInv(actions[..|actions| - 1], txThread);
      NextKeepsInv(Run(actions[..|actions| - 1], txThread), actions[|actions| - 1], txThread);
    }
  }

  /** Whatever faults occur and whenever: the first write after an end without time that is not again
      one is a start, so no sample is sent into a closed burst. */
  lemma BurstReopened(actions: seq<Action>, txThread: bool, i: nat, j: nat)
    requires var w := Run(actions, txThread).writes;
             && i < j < |w| && w[i] == EndNoTimeSpec
             && forall k | i < k < j :: w[k] == EndNoTimeSpec
    ensures var w := Run(actions, txThread).writes;
            w[j] == Start || w[j] == EndNoTimeSpec
  {
    RunInv(actions, txThread);
    assert Run(actions, txThread).writes[j - 1] == EndNoTimeSpec;
  }

  /** The request of a fault is still there after the next step of `tx_rf` if and only if the fault did
      not strike between the switch and the write of the new state, which overwrites it. */
  lemma FaultSurvivesIff(s: System, p: Plain, short: bool, txThread: bool)
    requires Inv(s)
    ensures StepTx(Next(s, Fault, txThread), p, short, txThread).late == Terminate <==> !s.pc.InCase?
  {
    hide Restarted;
  }

  /** What `tx_rf` meets in one step. */
  datatype Input = Input(plain: Plain, short: bool)

  /** The flag of the first write that `tx_rf` begins from a state on, if no further fault comes. */
  function FirstBegun(s: System, inputs: seq<Input>, txThread: bool): (flag: Option<Flag>)
    decreases |inputs|
  {
    if inputs == [] then None
    else
      var s' := StepTx(s, inputs[0].plain, inputs[0].short, txThread);
      if s'.pc.Writing? && !s.pc.Writing? then Some(s'.pc.flag)
      else FirstBegun(s', inputs[1..], txThread)
  }

  /** A case of the switch already taken whose outcome is not an end without time. */
  predicate Overwrites(pc: TxPc) {
    pc.InCase? && pc.seen != Terminate
  }

  /** Exactly when a fault is answered: in any state of a run and whatever subframes follow, the next
      write begun after it is an end without time if and only if the fault did not strike after the
      switch took one of the other cases. */
  lemma FaultAnsweredIff(s: System, inputs: seq<Input>, txThread: bool)
    requires Inv(s) && |inputs| >= 7
    ensures FirstBegun(Next(s, Fault, txThread), inputs, txThread).Some?
    ensures FirstBegun(Next(s, Fault, txThread), inputs, txThread) == Some(EndNoTimeSpec) <==> !Overwrites(s.pc)
  {
    var s0 := Next(s, Fault, txThread);
    if s.pc.InCase? {
      CaseRunsOut(s0, inputs, txThread);
    } else {
      RequestRunsOut(s0, inputs, txThread);
    }
    hide FirstBegun, Restarted;
  }

  /** Exactly when a short write is answered: from the normal state, the next write begun after it is an
      end without time if and only if the device sent too little and no separate thread writes. */
  lemma ShortWriteAnsweredIff(s: System, inputs: seq<Input>, txThread: bool)
    requires Inv(s) && s.pc.Checking? && s.late == Normal && |inputs| >= 4
    ensures FirstBegun(s, inputs, txThread) == Some(EndNoTimeSpec) <==> s.pc.short && !txThread
    ensures !s.pc.short || txThread ==> FirstBegun(s, inputs, txThread).Some? && FirstBegun(s, inputs, txThread).value == inputs[1].plain
  {
    hide FirstBegun, Restarted;
    BegunLater(s, inputs, txThread);
    var s' := StepTx(s, inputs[0].plain, inputs[0].short, txThread);
    if s.pc.short && !txThread {
      RequestRunsOut(s', inputs[1..], txThread);
    } else {
      BegunLater(s', inputs[1..], txThread);
    }
  }

  /** One step that begins no write. */
  lemma BegunLater(s: System, inputs: seq<Input>, txThread: bool)
    requires inputs != []
    ensures var s' := StepTx(s, inputs[0].plain, inputs[0].short, txThread);
            FirstBegun(s, inputs, txThread) ==
              if s'.pc.Writing? && !s.pc.Writing? then Some(s'.pc.flag) else FirstBegun(s', inputs[1..], txThread)
  {
  }

  /** With the request in place it takes at most five steps to the end without time. */
  lemma {:induction false} RequestRunsOut(s: System, inputs: seq<Input>, txThread: bool)
    requires s.late == Terminate && (s.pc.InCase? ==> s.pc.seen == Terminate)
    requires |inputs| >= (match s.pc case Writing(_) => 5 case Checking(_) => 4 case Idle => 3 case AtSwitch(_) => 2 case InCase(_, _) => 1)
    ensures FirstBegun(s, inputs, txThread) == Some(EndNoTimeSpec)
    decreases |inputs|
  {
    hide FirstBegun;
    BegunLater(s, inputs, txThread);
    if !s.pc.InCase? {
      RequestRunsOut(StepTx(s, inputs[0].plain, inputs[0].short, txThread), inputs[1..], txThread);
    }
  }

  /** A case already taken runs to its own write or through the rest of the recovery to a start. */
  lemma CaseRunsOut(s: System, inputs: seq<Input>, txThread: bool)
    requires s.pc.InCase? && s.pc.seen != Normal && |inputs| >= 7
    ensures FirstBegun(s, inputs, txThread) == Some(if s.pc.seen == Terminate then EndNoTimeSpec else Start)
  {
    hide FirstBegun;
    BegunLater(s, inputs, txThread);
    if s.pc.seen == Stop1 || s.pc.seen == Stop2 {
      RecoveryRunsOut(StepTx(s, inputs[0].plain, inputs[0].short, txThread), inputs[1..], txThread);
    }
  }

  lemma {:induction false} RecoveryRunsOut(s: System, inputs: seq<Input>, txThread: bool)
    requires s.pc == Idle || s.pc.AtSwitch? || (s.pc.InCase? && s.pc.seen == s.late)
    requires s.late == Stop2 || s.late == Restart
    requires |inputs| >= (if s.late == Stop2 then 3 else 0) + (match s.pc case Idle => 3 case AtSwitch(_) => 2 case _ => 1)
    ensures FirstBegun(s, inputs, txThread) == Some(Start)
    decreases |inputs|
  {
    hide FirstBegun;
    BegunLater(s, inputs, txThread);
    if !(s.pc.InCase? && s.late == Restart) {
      RecoveryRunsOut(StepTx(s, inputs[0].plain, inputs[0].short, txThread), inputs[1..], txThread);
    }
  }

  /** A run of steps of `tx_rf`, all for the same subframe type. */
  function Steps(s: System, n: nat, p: Plain, txThread: bool): System {
    if n == 0 then s else StepTx(Steps(s, n - 1, p, txThread), p, false, txThread)
  }

  function TxSteps(n: nat, p: Plain): seq<Action> {
    seq(n, _ => TxStep(p, false))
  }

  lemma {:induction false} RunSteps(actions: seq<Action>, n: nat, p: Plain, txThread: bool)
    ensures Run(actions + TxSteps(n, p), txThread) == Steps(Run(actions, txThread), n, p, txThread)
  {
    if n == 0 {
      assert actions + TxSteps(0, p) == actions;
    } else {
      RunSteps(actions, n - 1, p, txThread);
      assert (actions + TxSteps(n, p))[..|actions| + n - 1] == actions + TxSteps(n - 1, p);
      hide StepTx;
    }
  }

  lemma RunSnoc(actions: seq<Action>, a: Action, txThread: bool)
    ensures Run(actions + [a], txThread) == Next(Run(actions, txThread), a, txThread)
  {
    assert (actions + [a])[..|actions|] == actions;
  }

  /** A fault is lost: the recovery from a first fault reaches the case of the restart when a second
      one strikes. The write is a start, the state is normal again, and no end without time answers the
      second fault. */
  lemma FaultLost(p: Plain, txThread: bool)
    ensures var before := [Fault] + TxSteps(13, p);
            && Run(before, txThread) == System(Restart, InCase(Restart, p), [EndNoTimeSpec])
            && Run(before + [Fault] + TxSteps(3, p), txThread) == System(Normal, Idle, [EndNoTimeSpec, Start])
  {
    hide Run;
    var before := [Fault] + TxSteps(13, p);
    FirstFault(txThread);
    RunSteps([Fault], 13, p, txThread);
    ThirteenSteps(p, txThread);
    RunSnoc(before, Fault, txThread);
    RunSteps(before + [Fault], 3, p, txThread);
    ThreeSteps(p, txThread);
  }

  lemma FirstFault(txThread: bool)
    ensures Run([Fault], txThread) == System(Terminate, Idle, [])
  {
    assert [Fault][..0] == [];
  }

  lemma ThirteenSteps(p: Plain, txThread: bool)
    ensures Steps(System(Terminate, Idle, []), 13, p, txThread) == System(Restart, InCase(Restart, p), [EndNoTimeSpec])
  {
    var s := System(Terminate, Idle, []);
    assert Steps(s, 1, p, txThread) == System(Terminate, AtSwitch(p), []);
    assert Steps(s, 2, p, txThread) == System(Terminate, InCase(Terminate, p), []);
    assert Steps(s, 3, p, txThread) == System(Stop1, Writing(EndNoTimeSpec), []);
    assert Steps(s, 4, p, txThread) == System(Stop1, Checking(false), [EndNoTimeSpec]);
    assert Steps(s, 6, p, txThread) == System(Stop1, AtSwitch(p), [EndNoTimeSpec]);
    assert Steps(s, 8, p, txThread) == System(Stop2, Idle, [EndNoTimeSpec]);
    assert Steps(s, 10, p, txThread) == System(Stop2, InCase(Stop2, p), [EndNoTimeSpec]);
    assert Steps(s, 12, p, txThread) == System(Restart, AtSwitch(p), [EndNoTimeSpec]);
  }

  lemma ThreeSteps(p: Plain, txThread: bool)
    ensures Steps(System(Terminate, InCase(Restart, p), [EndNoTimeSpec]), 3, p, txThread) ==
            System(Normal, Idle, [EndNoTimeSpec, Start])
  {
    var s := System(Terminate, InCase(Restart, p), [EndNoTimeSpec]);
    assert Steps(s, 1, p, txThread) == System(Normal, Writing(Start), [EndNoTimeSpec]);
    assert Steps(s, 2, p, txThread) == System(Normal, Checking(false), [EndNoTimeSpec, Start]);
  }

  /** Undisturbed, the steps of one call add up to the call. */
  lemma StepsMakeCall(s: System, p: Plain, short: bool, txThread: bool)
    requires s.pc == Idle
    ensures var d := Decide(s.late, p);
            var call := if d.1.Write? then System(CheckSent(d.0, short, txThread), Idle, s.writes + [d.1.flag])
                        else System(d.0, Idle, s.writes);
            var s1 := StepTx(s, p, short, txThread);
            var s2 := StepTx(s1, p, short, txThread);
            var s3 := StepTx(s2, p, short, txThread);
            if s.late == Normal || d.1.Suppressed? then s3 == call
            else StepTx(StepTx(s3, p, short, txThread), p, short, txThread) == call
  {
  }
}
