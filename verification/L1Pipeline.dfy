/** The L1 hand-offs of the eNB: RU threads hand received subframes to `L1_thread` (accept or drop),
    which hands transmit subframes to `L1_thread_tx` through a second mailbox. Each critical section
    is one step; waiting on a condition variable is modelled with its wake-ups. */
module L1Pipeline {

  /** The subframe fields of `L1_rxtx_proc_t`. */
  datatype Job = Job(frameRx: int, subframeRx: int, frameTx: int, subframeTx: int, timestampTx: int)

  datatype Field = FrameRx | SubframeRx | FrameTx | SubframeTx | TimestampTx

  const FIELDS: set<Field> := {FrameRx, SubframeRx, FrameTx, SubframeTx, TimestampTx}

  /** Job a with the given fields taken from job b. */
  function Mix(a: Job, b: Job, fs: set<Field>): Job {
    Job(if FrameRx in fs then b.frameRx else a.frameRx,
        if SubframeRx in fs then b.subframeRx else a.subframeRx,
        if FrameTx in fs then b.frameTx else a.frameTx,
        if SubframeTx in fs then b.subframeTx else a.subframeTx,
        if TimestampTx in fs then b.timestampTx else a.timestampTx)
  }

  /** Program counter of `L1_thread`. */
  datatype RxPc =
    | CheckRx                 // about to test `instance_cnt` in `wait_on_condition`
    | AsleepRx                // in `pthread_cond_wait` of `wait_on_condition`
    | RunningRx               // in `rxtx`
    | ReleasingRx             // `rxtx` done, `release_thread` to come
    | Reading(got: Job, todo: set<Field>)   // released; reading the arguments of `wakeup_tx` one by one
    | CheckTx(job: Job)       // in `wakeup_tx`, about to test the mailbox
    | AsleepTx(job: Job)      // in `pthread_cond_wait` of `wakeup_tx`

  /** Program counter of `L1_thread_tx`. */
  datatype TxPc =
    | CheckBox
    | AsleepBox
    | RunningTx               // in `phy_procedures_eNB_TX`
    | Copying                 // about to copy the fields and free the mailbox
    | WakingFh(job: Job)      // calling `wakeup_txfh` with the copies

  datatype System = System(
    uplink: set<int>,         // the subframes that `subframe_select` finds to be SF_UL
    // shared memory
    rxCnt: int, rxJob: Job, txCnt: int, txJob: Job,
    // threads
    rx: RxPc, tx: TxPc,
    // history; `window` tells whether a subframe was accepted since the release, and `late` which
    // arguments were read after that
    accepted: seq<Job>, dropped: nat, ran: seq<Job>, window: bool, late: set<Field>,
    args: seq<Job>, raced: seq<set<Field>>,
    handed: seq<Job>, sent: seq<Job>, forwarded: seq<Job>)

  datatype Action =
    | WakeupRxtx(job: Job)    // an RU thread calls `wakeup_rxtx`
    | RxStep(field: Field)    // `L1_thread` takes its next step; the order of its reads is open
    | TxStep                  // `L1_thread_tx` takes its next step
    | Spurious(rxThread: bool)

  /** After `init_eNB_proc`; the mailbox contents are arbitrary. */
  predicate Init(s: System) {
    && s.rxCnt == -1 && s.txCnt == -1 && s.rx == CheckRx && s.tx == CheckBox
    && s.accepted == s.ran == s.args == s.handed == s.sent == s.forwarded == []
    && s.raced == [] && s.dropped == 0 && !s.window && s.late == {}
  }

  /** `pthread_cond_signal` on the condition of the receive mailbox. */
  function SignalRx(s: System): System {
    if s.rx == AsleepRx then s.(rx := CheckRx) else s
  }

  /** `pthread_cond_signal` on the condition of the transmit mailbox, which both threads use. */
  function SignalTx(s: System): System {
    if s.tx == AsleepBox then s.(tx := CheckBox)
    else if s.rx.AsleepTx? then s.(rx := CheckTx(s.rx.job))
    else s
  }

  function StepWakeupRxtx(s: System, j: Job): System {
    if s.rxCnt == 0 then s.(dropped := s.dropped + 1)
    else SignalRx(s.(rxCnt := s.rxCnt + 1, rxJob := j, accepted := s.accepted + [j],
                     window := s.rx.Reading? || s.window))
  }

  /** The next argument is read, or with all of them read `wakeup_tx` is entered. */
  function StepRead(s: System, got: Job, todo: set<Field>, f: Field): System {
    if todo == {} then
      var s' := s.(args := s.args + [got], raced := s.raced + [s.late]);
      if got.subframeTx in s.uplink then s'.(rx := CheckRx) else s'.(rx := CheckTx(got))
    else if f in todo then
      s.(rx := Reading(Mix(got, s.rxJob, {f}), todo - {f}), late := if s.window then s.late + {f} else s.late)
    else s
  }

  function StepRx(s: System, f: Field): System {
    match s.rx
    case CheckRx => s.(rx := if s.rxCnt < 0 then AsleepRx else RunningRx)
    case RunningRx => s.(rx := ReleasingRx, ran := s.ran + [s.rxJob])
    case ReleasingRx => s.(rx := Reading(s.rxJob, FIELDS), rxCnt := -1, window := false, late := {})
    case Reading(got, todo) => StepRead(s, got, todo, f)
    case CheckTx(j) =>
      if s.txCnt == 0 then s.(rx := AsleepTx(j))
      else SignalTx(s.(rx := CheckRx, txCnt := 0, txJob := j, handed := s.handed + [j]))
    case AsleepRx => s
    case AsleepTx(_) => s
  }

  function StepTx(s: System): System {
    match s.tx
    case CheckBox => s.(tx := if s.txCnt < 0 then AsleepBox else RunningTx)
    case RunningTx => s.(tx := Copying, sent := s.sent + [s.txJob])
    case Copying => SignalTx(s.(tx := WakingFh(s.txJob), txCnt := -1))
    case WakingFh(j) => s.(tx := CheckBox, forwarded := s.forwarded + [j])
    case AsleepBox => s
  }

  function Next(s: System, a: Action): System {
    match a
    case WakeupRxtx(j) => StepWakeupRxtx(s, j)
    case RxStep(f) => StepRx(s, f)
    case TxStep => StepTx(s)
    case Spurious(rxThread) =>
      if rxThread then
        if s.rx.AsleepTx? then s.(rx := CheckTx(s.rx.job)) else SignalRx(s)
      else if s.tx == AsleepBox then s.(tx := CheckBox) else s
  }

  function Run(s0: System, actions: seq<Action>): System {
    if actions == [] then s0 else Next(Run(s0, actions[..|actions| - 1]), actions[|actions| - 1])
  }

  // ---------------------------------------------------------------- invariant

  function Downlink(js: seq<Job>, uplink: set<int>): seq<Job> {
    if js == [] then []
    else Downlink(js[..|js| - 1], uplink) + (if js[|js| - 1].subframeTx in uplink then [] else [js[|js| - 1]])
  }

  /** The job `L1_thread` holds between reading the arguments and depositing them. */
  function InFlight(pc: RxPc): seq<Job> {
    if pc.CheckTx? || pc.AsleepTx? then [pc.job] else []
  }

  /** The receive mailbox is full from acceptance to release, and then holds the accepted job. */
  predicate RxInv(s: System) {
    && (s.rxCnt == -1 || s.rxCnt == 0)
    && (s.rx == RunningRx || s.rx == ReleasingRx ==> s.rxCnt == 0)
    && (s.rx == AsleepRx ==> s.rxCnt == -1)
    && s.accepted == s.ran + (if s.rxCnt == 0 && s.rx != ReleasingRx then [s.rxJob] else [])
    && (s.accepted != [] ==> s.rxJob == s.accepted[|s.accepted| - 1])
    && |s.ran| == |s.args| + (if s.rx == ReleasingRx || s.rx.Reading? then 1 else 0)
    && (s.rx.Reading? ==> |s.rx.todo| <= 5)
  }

  /** Job j is the k-th accepted one with the given fields from the next. */
  predicate Carries(accepted: seq<Job>, k: nat, j: Job, fs: set<Field>) {
    && k < |accepted|
    && if fs == {} then j == accepted[k] else k + 1 < |accepted| && j == Mix(accepted[k], accepted[k + 1], fs)
  }

  predicate ArgsMatch(accepted: seq<Job>, args: seq<Job>, raced: seq<set<Field>>) {
    && |raced| == |args|
    && forall k | 0 <= k < |args| :: Carries(accepted, k, args[k], raced[k])
  }

  /** The arguments read so far are those of the job just run, but for the late ones. */
  predicate ArgsInv(s: System) {
    && ArgsMatch(s.accepted, s.args, s.raced)
    && (s.rx.Reading? ==>
          && (s.window <==> s.rxCnt == 0)
          && (s.late != {} ==> s.window)
          && Carries(s.accepted, |s.args|, s.rx.got, s.late))
  }

  /** The transmit mailbox is full from deposit until its fields are copied. */
  predicate TxInv(s: System) {
    && (s.txCnt == -1 || s.txCnt == 0)
    && (s.tx == RunningTx || s.tx == Copying ==> s.txCnt == 0)
    && (s.tx == AsleepBox ==> s.txCnt == -1)
    && (s.rx.AsleepTx? ==> s.txCnt == 0)
    && s.handed + InFlight(s.rx) == Downlink(s.args, s.uplink)
    && s.handed == s.sent + (if s.txCnt == 0 && s.tx != Copying then [s.txJob] else [])
    && s.sent == s.forwarded + (match s.tx case Copying => [s.txJob] case WakingFh(j) => [j] case _ => [])
  }

  predicate Inv(s: System) {
    RxInv(s) && ArgsInv(s) && TxInv(s)
  }

  // the receive mailbox

  lemma WakeupRxtxKeepsRxInv(s: System, j: Job)
    requires RxInv(s)
    ensures RxInv(StepWakeupRxtx(s, j))
  {
  }

  lemma FinishKeepsRxInv(s: System, f: Field)
    requires RxInv(s) && s.rx == RunningRx
    ensures RxInv(StepRx(s, f))
  {
    var s' := StepRx(s, f);
    assert s'.ran + [] == s'.ran;
  }

  /** Reading touches neither mailbox. */
  lemma ReadFrame(s: System, f: Field)
    requires s.rx.Reading?
    ensures var s' := StepRx(s, f);
            && s'.rxCnt == s.rxCnt && s'.rxJob == s.rxJob && s'.txCnt == s.txCnt && s'.txJob == s.txJob && s'.tx == s.tx
            && s'.accepted == s.accepted && s'.ran == s.ran && s'.window == s.window && s'.uplink == s.uplink
            && s'.handed == s.handed && s'.sent == s.sent && s'.forwarded == s.forwarded
            && (if s'.rx.Reading? then s'.args == s.args && s'.raced == s.raced && s'.rx.todo <= s.rx.todo && |s'.rx.todo| <= |s.rx.todo|
                else && s'.args == s.args + [s.rx.got] && s'.raced == s.raced + [s.late]
                     && s'.rx == if s.rx.got.subframeTx in s.uplink then CheckRx else CheckTx(s.rx.got))
  {
    if f in s.rx.todo {
      assert |s.rx.todo - {f}| == |s.rx.todo| - 1;
    }
  }

  lemma ReadKeepsRxInv(s: System, f: Field)
    requires RxInv(s) && s.rx.Reading?
    ensures RxInv(StepRx(s, f))
  {
    ReadFrame(s, f);
    hide StepRx;
  }

  lemma ReleaseKeepsRxInv(s: System, f: Field)
    requires RxInv(s) && s.rx == ReleasingRx
    ensures RxInv(StepRx(s, f))
  {
    assert |FIELDS| == 5;
  }

  /** The tests of the two counters and the deposit leave the receive mailbox alone. */
  lemma WaitFrame(s: System, f: Field)
    requires s.rx != RunningRx && s.rx != ReleasingRx && !s.rx.Reading?
    ensures var s' := StepRx(s, f);
            && s'.rxCnt == s.rxCnt && s'.rxJob == s.rxJob && s'.accepted == s.accepted && s'.ran == s.ran && s'.args == s.args
            && s'.rx != ReleasingRx && !s'.rx.Reading?
            && (s'.rx == RunningRx ==> s.rxCnt >= 0) && (s'.rx == AsleepRx && s.rx != AsleepRx ==> s.rxCnt < 0)
  {
  }

  lemma RxKeepsRxInv(s: System, f: Field)
    requires RxInv(s)
    ensures RxInv(StepRx(s, f))
  {
    if s.rx == RunningRx {
      FinishKeepsRxInv(s, f);
    } else if s.rx.Reading? {
      ReadKeepsRxInv(s, f);
    } else if s.rx == ReleasingRx {
      ReleaseKeepsRxInv(s, f);
    } else {
      WaitFrame(s, f);
    }
    hide StepRx;
  }

  /** `L1_thread_tx` touches neither the receive mailbox nor its history. */
  lemma TxFrame(s: System)
    ensures var s' := StepTx(s);
            && s'.rxCnt == s.rxCnt && s'.rxJob == s.rxJob && s'.accepted == s.accepted && s'.ran == s.ran && s'.args == s.args
            && s'.raced == s.raced && s'.window == s.window && s'.late == s.late && s'.uplink == s.uplink
            && (s'.rx == s.rx || (s.rx.AsleepTx? && s'.rx == CheckTx(s.rx.job)))
  {
  }

  lemma TxKeepsRxInv(s: System)
    requires RxInv(s)
    ensures RxInv(StepTx(s))
  {
    TxFrame(s);
    hide StepTx;
  }

  lemma SpuriousKeepsRxInv(s: System, t: bool)
    requires RxInv(s)
    ensures RxInv(Next(s, Spurious(t)))
  {
  }

  // the hand-over arguments

  lemma ArgsAppend(accepted: seq<Job>, args: seq<Job>, raced: seq<set<Field>>, j: Job, fs: set<Field>)
    requires ArgsMatch(accepted, args, raced) && Carries(accepted, |args|, j, fs)
    ensures ArgsMatch(accepted, args + [j], raced + [fs])
  {
    hide Carries;
  }

  lemma AcceptedAppend(accepted: seq<Job>, args: seq<Job>, raced: seq<set<Field>>, j: Job)
    requires ArgsMatch(accepted, args, raced)
    ensures ArgsMatch(accepted + [j], args, raced)
  {
    hide Mix;
    assert forall k | 0 <= k < |args| :: Carries(accepted, k, args[k], raced[k]);
  }

  /** One more argument read. */
  lemma ReadOne(accepted: seq<Job>, k: nat, got: Job, late: set<Field>, f: Field, window: bool, rxJob: Job)
    requires Carries(accepted, k, got, late) && (late != {} ==> window)
    requires if window then k + 1 < |accepted| && rxJob == accepted[k + 1] else rxJob == accepted[k]
    ensures Carries(accepted, k, Mix(got, rxJob, {f}), if window then late + {f} else late)
  {
    if window {
      assert late + {f} != {};
    }
  }

  lemma ReadKeepsArgsInv(s: System, f: Field)
    requires RxInv(s) && ArgsInv(s) && s.rx.Reading?
    ensures ArgsInv(StepRx(s, f))
  {
    hide ArgsMatch, Mix;
    if s.rx.todo == {} {
      ArgsAppend(s.accepted, s.args, s.raced, s.rx.got, s.late);
    } else if f in s.rx.todo {
      ReadOne(s.accepted, |s.args|, s.rx.got, s.late, f, s.window, s.rxJob);
    }
    hide Carries;
  }

  lemma RxKeepsArgsInv(s: System, f: Field)
    requires RxInv(s) && ArgsInv(s)
    ensures ArgsInv(StepRx(s, f))
  {
    hide ArgsMatch, Mix;
    if s.rx.Reading? {
      ReadKeepsArgsInv(s, f);
      hide StepRx, Carries;
    } else if s.rx == ReleasingRx {
      assert s.ran == s.accepted;
    } else {
      hide Carries;
    }
  }

  lemma NextKeepsArgsInv(s: System, a: Action)
    requires RxInv(s) && ArgsInv(s)
    ensures ArgsInv(Next(s, a))
  {
    hide ArgsMatch, Mix;
    match a
    case WakeupRxtx(j) => AcceptedAppend(s.accepted, s.args, s.raced, j);
    case RxStep(f) => RxKeepsArgsInv(s, f); hide StepRx;
    case TxStep => TxFrame(s); hide StepTx;
    case Spurious(t) => hide Carries;
  }

  // the transmit mailbox

  lemma WakeupRxtxKeepsTxInv(s: System, j: Job)
    requires TxInv(s)
    ensures TxInv(StepWakeupRxtx(s, j))
  {
  }

  lemma ReadingKeepsTxInv(s: System, f: Field)
    requires TxInv(s) && s.rx.Reading?
    ensures TxInv(StepRx(s, f))
  {
    ReadFrame(s, f);
    hide StepRx;
    var s' := StepRx(s, f);
    if !s'.rx.Reading? {
      assert s'.args[..|s.args|] == s.args;
      assert Downlink(s'.args, s.uplink) == Downlink(s.args, s.uplink) + InFlight(s'.rx);
    }
  }

  lemma DepositKeepsTxInv(s: System, f: Field)
    requires TxInv(s) && s.rx.CheckTx?
    ensures TxInv(StepRx(s, f))
  {
    hide Downlink;
    assert (s.handed + [s.rx.job]) + [] == s.handed + [s.rx.job];
  }

  lemma RxKeepsTxInv(s: System, f: Field)
    requires TxInv(s)
    ensures TxInv(StepRx(s, f))
  {
    hide Downlink;
    if s.rx.Reading? {
      ReadingKeepsTxInv(s, f);
    } else if s.rx.CheckTx? {
      DepositKeepsTxInv(s, f);
    }
  }

  lemma TxKeepsTxInv(s: System)
    requires TxInv(s)
    ensures TxInv(StepTx(s))
  {
    hide Downlink;
  }

  lemma SpuriousKeepsTxInv(s: System, t: bool)
    requires TxInv(s)
    ensures TxInv(Next(s, Spurious(t)))
  {
    hide Downlink;
  }

  lemma NextKeepsInv(s: System, a: Action)
    requires Inv(s)
    ensures Inv(Next(s, a))
  {
    NextKeepsArgsInv(s, a);
    hide RxInv, ArgsInv, TxInv, StepRx, StepTx, StepWakeupRxtx;
    match a
    case WakeupRxtx(j) => WakeupRxtxKeepsRxInv(s, j); WakeupRxtxKeepsTxInv(s, j);
    case RxStep(f) => RxKeepsRxInv(s, f); RxKeepsTxInv(s, f);
    case TxStep => TxKeepsRxInv(s); TxKeepsTxInv(s);
    case Spurious(t) => SpuriousKeepsRxInv(s, t); SpuriousKeepsTxInv(s, t);
  }

  // ---------------------------------------------------------------- safety

  lemma {:induction false} RunKeepsInv(s: System, actions: seq<Action>)
    requires Inv(s)
    ensures Inv(Run(s, actions))
  {
    hide Inv, Next;
    if actions != [] {
      RunKeepsInv(s, actions[..|actions| - 1]);
      NextKeepsInv(Run(s, actions[..|actions| - 1]), actions[|actions| - 1]);
    }
  }

  lemma RunInv(s0: System, actions: seq<Action>)
    requires Init(s0)
    ensures Inv(Run(s0, actions))
  {
    assert Downlink([], s0.uplink) == [];
    RunKeepsInv(s0, actions);
  }

  /** Receive side, over every interleaving: accepted subframes are run by `rxtx` exactly once and in
      order, at most one of them outstanding. */
  lemma AcceptedRunInOrder(s0: System, actions: seq<Action>)
    requires Init(s0)
    ensures var s := Run(s0, actions);
            s.ran <= s.accepted && |s.accepted| <= |s.ran| + 1 && (s.rxCnt == -1 || s.rxCnt == 0)
  {
    RunInv(s0, actions);
  }

  /** A call is accepted exactly when nothing accepted earlier is still in progress, and a dropped
      call leaves the mailbox and every history but the drop count alone. */
  lemma AcceptOrDrop(s0: System, actions: seq<Action>, j: Job)
    requires Init(s0)
    ensures var s := Run(s0, actions);
            var s' := Next(s, WakeupRxtx(j));
            var busy := s.ran < s.accepted || s.rx == ReleasingRx;
            && (s'.accepted == s.accepted + [j] <==> !busy)
            && (busy ==> s' == s.(dropped := s.dropped + 1))
            && (!busy ==> s'.rxJob == j && s'.rxCnt == 0 && s'.dropped == s.dropped)
  {
    RunInv(s0, actions);
    hide Run, TxInv, ArgsInv;
    var s := Run(s0, actions);
    assert s.rxCnt == 0 <==> s.ran < s.accepted || s.rx == ReleasingRx by {
      assert s.rxCnt == 0 && s.rx != ReleasingRx ==> |s.accepted| == |s.ran| + 1;
      assert s.rxCnt == -1 ==> s.accepted == s.ran;
    }
  }

  /** Transmit side, over every interleaving: deposited subframes are processed and forwarded exactly
      once and in order, at most one deposited subframe waiting. */
  lemma HandedProcessedInOrder(s0: System, actions: seq<Action>)
    requires Init(s0)
    ensures var s := Run(s0, actions);
            && s.sent <= s.handed && |s.handed| <= |s.sent| + 1
            && s.forwarded <= s.sent && |s.sent| <= |s.forwarded| + 1
            && s.handed <= Downlink(s.args, s.uplink) && |Downlink(s.args, s.uplink)| <= |s.handed| + 1
            && (s.txCnt == -1 || s.txCnt == 0)
  {
    RunInv(s0, actions);
    hide Run, RxInv, ArgsInv, Downlink;
  }

  /** What is due to the transmitter is every subframe handed on that is not uplink, as often as it was
      handed on, and nothing else. */
  lemma {:induction false} DownlinkExactly(js: seq<Job>, uplink: set<int>, x: Job)
    ensures multiset(Downlink(js, uplink))[x] == if x.subframeTx in uplink then 0 else multiset(js)[x]
  {
    if js != [] {
      var init, last := js[..|js| - 1], js[|js| - 1];
      DownlinkExactly(init, uplink, x);
      assert js == init + [last];
      assert Downlink(js, uplink) == Downlink(init, uplink) + (if last.subframeTx in uplink then [] else [last]);
      hide Downlink;
    }
  }

  /** And in the order of the hand-overs. */
  lemma {:induction false} DownlinkInOrder(js: seq<Job>, more: seq<Job>, uplink: set<int>)
    ensures Downlink(js + more, uplink) == Downlink(js, uplink) + Downlink(more, uplink)
  {
    if more == [] {
      assert js + more == js;
    } else {
      var init, last := more[..|more| - 1], more[|more| - 1];
      DownlinkInOrder(js, init, uplink);
      DownlinkSnoc(js + init, last, uplink);
      DownlinkSnoc(init, last, uplink);
      assert js + more == js + init + [last] && more == init + [last];
      hide Downlink;
    }
  }

  lemma DownlinkSnoc(js: seq<Job>, j: Job, uplink: set<int>)
    ensures Downlink(js + [j], uplink) == Downlink(js, uplink) + (if j.subframeTx in uplink then [] else [j])
  {
    assert (js + [j])[..|js|] == js;
  }

  /** While a mailbox is full no step of any thread changes its fields. */
  lemma MailboxesStable(s: System, a: Action)
    requires Inv(s)
    ensures s.txCnt == 0 ==> Next(s, a).txJob == s.txJob
    ensures s.rxCnt == 0 ==> Next(s, a).rxJob == s.rxJob
  {
    hide Inv, Mix;
  }

  /** No wake-up is lost: a thread asleep is asleep for a reason, and the two threads that share the
      transmit condition are never asleep on it together. */
  lemma NoLostWakeup(s0: System, actions: seq<Action>)
    requires Init(s0)
    ensures var s := Run(s0, actions);
            && (s.rx == AsleepRx ==> s.rxCnt < 0)
            && (s.rx.AsleepTx? ==> s.txCnt == 0 && s.tx != AsleepBox)
            && (s.tx == AsleepBox ==> s.txCnt < 0)
  {
    RunInv(s0, actions);
    hide Run, Downlink;
  }

  // ---------------------------------------------------------------- what is handed over

  /** The k-th hand-over carries the k-th accepted subframe, but for exactly those arguments that were
      read after the next one had been accepted in the released mailbox: these are the next one's. */
  lemma HandOverCarries(s0: System, actions: seq<Action>, k: nat)
    requires Init(s0) && k < |Run(s0, actions).args|
    ensures var s := Run(s0, actions);
            && |s.raced| == |s.args| && k < |s.accepted|
            && (s.raced[k] != {} ==> k + 1 < |s.accepted|)
            && s.args[k].frameRx == s.accepted[if FrameRx in s.raced[k] then k + 1 else k].frameRx
            && s.args[k].subframeRx == s.accepted[if SubframeRx in s.raced[k] then k + 1 else k].subframeRx
            && s.args[k].frameTx == s.accepted[if FrameTx in s.raced[k] then k + 1 else k].frameTx
            && s.args[k].subframeTx == s.accepted[if SubframeTx in s.raced[k] then k + 1 else k].subframeTx
            && s.args[k].timestampTx == s.accepted[if TimestampTx in s.raced[k] then k + 1 else k].timestampTx
  {
    RunInv(s0, actions);
    hide Run, RxInv, TxInv;
    var s := Run(s0, actions);
    assert Carries(s.accepted, k, s.args[k], s.raced[k]);
    hide ArgsMatch, ArgsInv;
  }

  /** What is handed to the transmitter is what was run, in order, if and only if no argument was read
      late that differs between the two subframes. */
  lemma EndToEndIff(s0: System, actions: seq<Action>)
    requires Init(s0)
    ensures var s := Run(s0, actions);
            s.args <= s.ran <==>
            forall k | 0 <= k < |s.raced| && s.raced[k] != {} ::
              && k + 1 < |s.accepted|
              && (FrameRx in s.raced[k] ==> s.accepted[k].frameRx == s.accepted[k + 1].frameRx)
              && (SubframeRx in s.raced[k] ==> s.accepted[k].subframeRx == s.accepted[k + 1].subframeRx)
              && (FrameTx in s.raced[k] ==> s.accepted[k].frameTx == s.accepted[k + 1].frameTx)
              && (SubframeTx in s.raced[k] ==> s.accepted[k].subframeTx == s.accepted[k + 1].subframeTx)
              && (TimestampTx in s.raced[k] ==> s.accepted[k].timestampTx == s.accepted[k + 1].timestampTx)
  {
    RunInv(s0, actions);
    hide Run;
    var s := Run(s0, actions);
    assert |s.raced| == |s.args| <= |s.ran|;
    forall k | 0 <= k < |s.args| ensures s.args[k] == s.ran[k] <==> LateFine(s, k) {
      CarriedIff(s, k);
    }
    hide Inv;
    if s.args <= s.ran {
      forall k | 0 <= k < |s.raced| && s.raced[k] != {}
        ensures k + 1 < |s.accepted| && LateAgree(s.accepted[k], s.accepted[k + 1], s.raced[k])
      {
        assert s.args[k] == s.ran[k];
      }
    }
  }

  predicate LateAgree(a: Job, b: Job, fs: set<Field>) {
    && (FrameRx in fs ==> a.frameRx == b.frameRx)
    && (SubframeRx in fs ==> a.subframeRx == b.subframeRx)
    && (FrameTx in fs ==> a.frameTx == b.frameTx)
    && (SubframeTx in fs ==> a.subframeTx == b.subframeTx)
    && (TimestampTx in fs ==> a.timestampTx == b.timestampTx)
  }

  predicate LateFine(s: System, k: nat)
    requires k < |s.raced|
  {
    s.raced[k] == {} || (k + 1 < |s.accepted| && LateAgree(s.accepted[k], s.accepted[k + 1], s.raced[k]))
  }

  lemma CarriedIff(s: System, k: nat)
    requires Inv(s) && k < |s.args|
    ensures k < |s.ran| && |s.raced| == |s.args| && (s.args[k] == s.ran[k] <==> LateFine(s, k))
  {
    hide TxInv;
    assert Carries(s.accepted, k, s.args[k], s.raced[k]);
    hide ArgsMatch;
  }

  /** Every torn hand-over is reachable: for any subframes a and b and any set of arguments, b is
      accepted after `rxtx` finished a and before just these arguments are read. */
  lemma RaceReachable(s0: System, a: Job, b: Job, fs: set<Field>)
    requires Init(s0) && fs <= FIELDS
    ensures exists actions ::
              && Run(s0, actions).ran == [a]
              && Run(s0, actions).args == [Job(if FrameRx in fs then b.frameRx else a.frameRx,
                                               if SubframeRx in fs then b.subframeRx else a.subframeRx,
                                               if FrameTx in fs then b.frameTx else a.frameTx,
                                               if SubframeTx in fs then b.subframeTx else a.subframeTx,
                                               if TimestampTx in fs then b.timestampTx else a.timestampTx)]
  {
    var l4 := RunOneJob(s0, a);
    hide Run;
    var l5 := ReadAll(s0, l4, FIELDS - fs);
    var l6 := RunSnoc(s0, l5, WakeupRxtx(b));
    assert FIELDS - (FIELDS - fs) == fs;
    var l7 := ReadAll(s0, l6, fs);
    var l8 := RunSnoc(s0, l7, RxStep(FrameRx));
    assert Mix(Mix(a, a, FIELDS - fs), b, fs) == Mix(a, b, fs);
    assert Run(s0, l8).args == [Mix(a, b, fs)];
  }

  lemma RunOneJob(s0: System, a: Job) returns (actions: seq<Action>)
    requires Init(s0)
    ensures Run(s0, actions) == s0.(rxCnt := -1, rxJob := a, rx := Reading(a, FIELDS), accepted := [a], ran := [a])
  {
    actions := RunSnoc(s0, [], WakeupRxtx(a));
    assert Run(s0, actions) == s0.(rxCnt := 0, rxJob := a, accepted := [a]);
    hide Run;
    actions := RunSnoc(s0, actions, RxStep(FrameRx));
    actions := RunSnoc(s0, actions, RxStep(FrameRx));
    actions := RunSnoc(s0, actions, RxStep(FrameRx));
  }

  /** Some of the arguments still to be read are read. */
  lemma {:induction false} ReadAll(s0: System, actions: seq<Action>, fs: set<Field>) returns (actions': seq<Action>)
    requires Run(s0, actions).rx.Reading? && fs <= Run(s0, actions).rx.todo
    ensures var s := Run(s0, actions);
            Run(s0, actions') == s.(rx := Reading(Mix(s.rx.got, s.rxJob, fs), s.rx.todo - fs),
                                    late := if s.window then s.late + fs else s.late)
    decreases fs
  {
    hide Run;
    if fs == {} {
      actions' := actions;
    } else {
      var f :| f in fs;
      var l := RunSnoc(s0, actions, RxStep(f));
      var s, s1 := Run(s0, actions), Run(s0, l);
      actions' := ReadAll(s0, l, fs - {f});
      assert Mix(Mix(s.rx.got, s.rxJob, {f}), s.rxJob, fs - {f}) == Mix(s.rx.got, s.rxJob, fs);
      assert s.rx.todo - {f} - (fs - {f}) == s.rx.todo - fs;
      assert s.late + {f} + (fs - {f}) == s.late + fs;
    }
  }

  lemma RunSnoc(s0: System, actions: seq<Action>, a: Action) returns (actions': seq<Action>)
    ensures Run(s0, actions') == Next(Run(s0, actions), a)
  {
    actions' := actions + [a];
    assert actions'[..|actions|] == actions;
    hide Next;
  }

  // ---------------------------------------------------------------- progress

  /** Whether the thread of this action can take it: it sleeps not, and reads an argument it has not
      read. */
  predicate Enabled(s: System, a: Action) {
    match a
    case RxStep(f) => !s.rx.AsleepRx? && !s.rx.AsleepTx? && (s.rx.Reading? ==> s.rx.todo == {} || f in s.rx.todo)
    case TxStep => s.tx != AsleepBox
    case WakeupRxtx(_) => true
    case Spurious(_) => false
  }

  predicate ThreadStep(a: Action) {
    a.RxStep? || a.TxStep?
  }

  /** No deadlock: unless both threads sleep for want of work, one of them can step. */
  lemma SomeThreadCanStep(s: System) returns (a: Action)
    requires Inv(s) && !(s.rx == AsleepRx && s.tx == AsleepBox)
    ensures ThreadStep(a) && Enabled(s, a)
  {
    hide Downlink, ArgsMatch;
    if s.tx != AsleepBox {
      a := TxStep;
    } else if s.rx.Reading? && s.rx.todo != {} {
      var f :| f in s.rx.todo;
      a := RxStep(f);
    } else {
      a := RxStep(FrameRx);
    }
  }

  /** When neither thread can step all work is done: everything accepted has been run, handed over
      unless it is uplink, sent and forwarded. */
  lemma QuietMeansDone(s0: System, actions: seq<Action>)
    requires Init(s0)
    requires forall a | ThreadStep(a) :: !Enabled(Run(s0, actions), a)
    ensures var s := Run(s0, actions);
            && s.ran == s.accepted && |s.args| == |s.ran|
            && s.forwarded == s.sent == s.handed == Downlink(s.args, s.uplink)
  {
    RunInv(s0, actions);
    var s := Run(s0, actions);
    hide Run, Downlink, ArgsMatch, Enabled;
    if !(s.rx == AsleepRx && s.tx == AsleepBox) {
      var a := SomeThreadCanStep(s);
    }
  }

  /** Steps that the threads still have to take, at most, if no further subframe is accepted. */
  function RxRank(s: System): nat {
    var pending := if s.rxCnt == 0 then 18 else 0;
    match s.rx
    case AsleepRx => 0
    case CheckRx => 1 + pending
    case RunningRx => 18
    case ReleasingRx => 17
    case Reading(_, todo) => 11 + |todo| + pending
    case CheckTx(_) => 10 + pending
    case AsleepTx(_) => 9 + pending
  }

  function TxRank(s: System): nat {
    match s.tx
    case AsleepBox => 0
    case CheckBox => if s.txCnt == 0 then 7 else 1
    case RunningTx => 6
    case Copying => 5
    case WakingFh(_) => if s.txCnt == 0 then 8 else 2
  }

  function Rank(s: System): nat {
    RxRank(s) + TxRank(s)
  }

  /** The part of the invariant that ties program counters to the two counters. */
  predicate Counters(s: System) {
    && (s.rxCnt == -1 || s.rxCnt == 0) && (s.txCnt == -1 || s.txCnt == 0)
    && (s.rx == RunningRx || s.rx == ReleasingRx ==> s.rxCnt == 0)
    && (s.rx == AsleepRx ==> s.rxCnt == -1)
    && (s.rx.Reading? ==> |s.rx.todo| <= 5)
    && (s.tx == RunningTx || s.tx == Copying ==> s.txCnt == 0)
    && (s.tx == AsleepBox ==> s.txCnt == -1)
    && (s.rx.AsleepTx? ==> s.txCnt == 0)
  }

  lemma InvCounters(s: System)
    requires Inv(s)
    ensures Counters(s)
  {
    hide Downlink, ArgsInv;
  }

  lemma RxRankDecreases(s: System, f: Field)
    requires Counters(s) && Enabled(s, RxStep(f))
    ensures Rank(StepRx(s, f)) < Rank(s)
  {
    hide Mix;
    if s.rx.Reading? {
      if f in s.rx.todo {
        assert |s.rx.todo - {f}| == |s.rx.todo| - 1;
      }
      hide Rank;
      assert Rank(StepRx(s, f)) < Rank(s) by { ReadRank(s, f); }
    } else {
      assert |FIELDS| == 5;
    }
  }

  lemma ReadRank(s: System, f: Field)
    requires Counters(s) && s.rx.Reading? && (s.rx.todo == {} || f in s.rx.todo)
    ensures Rank(StepRx(s, f)) < Rank(s)
  {
    hide Mix;
    if f in s.rx.todo {
      assert |s.rx.todo - {f}| == |s.rx.todo| - 1;
    }
  }

  lemma TxRankDecreases(s: System)
    requires Counters(s) && s.tx != AsleepBox
    ensures Rank(StepTx(s)) < Rank(s)
  {
  }

  lemma CallRank(s: System, j: Job)
    requires Counters(s)
    ensures var s' := StepWakeupRxtx(s, j);
            |s.accepted| <= |s'.accepted| && Rank(s') <= Rank(s) + 19 * (|s'.accepted| - |s.accepted|)
  {
  }

  /** Every step of either thread brings the end of the work nearer; a call adds at most 19 steps, and
      none if it is dropped. */
  lemma RankDecreases(s: System, a: Action)
    requires Counters(s) && Enabled(s, a)
    ensures ThreadStep(a) ==> Rank(Next(s, a)) < Rank(s) && Next(s, a).accepted == s.accepted
    ensures !ThreadStep(a) ==> Rank(Next(s, a)) <= Rank(s) + 19 * (|Next(s, a).accepted| - |s.accepted|)
    ensures |s.accepted| <= |Next(s, a).accepted|
  {
    match a
    case WakeupRxtx(j) => CallRank(s, j); hide Rank;
    case RxStep(f) => RxRankDecreases(s, f); hide Rank, Counters, Mix;
    case TxStep => TxRankDecreases(s); TxFrame(s); hide Rank, StepTx;
    case Spurious(_) =>
  }

  /** A continuation in which every thread step is one its thread can take, without spurious wake-ups. */
  predicate Working(s: System, actions: seq<Action>) {
    actions == [] || (Working(s, actions[..|actions| - 1]) && Enabled(Run(s, actions[..|actions| - 1]), actions[|actions| - 1]))
  }

  function ThreadSteps(actions: seq<Action>): nat {
    if actions == [] then 0
    else ThreadSteps(actions[..|actions| - 1]) + if ThreadStep(actions[|actions| - 1]) then 1 else 0
  }

  /** No busy waiting: the threads take at most 19 steps for every accepted subframe. */
  lemma {:induction false} StepsPerSubframe(s: System, actions: seq<Action>)
    requires Inv(s) && Working(s, actions)
    ensures var s' := Run(s, actions);
            && |s.accepted| <= |s'.accepted|
            && ThreadSteps(actions) + Rank(s') <= Rank(s) + 19 * (|s'.accepted| - |s.accepted|)
  {
    if actions != [] {
      var init, last := actions[..|actions| - 1], actions[|actions| - 1];
      StepsPerSubframe(s, init);
      RunKeepsInv(s, init);
      hide Rank, Inv, Next, Enabled, Counters;
      InvCounters(Run(s, init));
      RankDecreases(Run(s, init), last);
    }
  }

  /** Progress on the receive side under any scheduling: everything accepted in a reachable state has
      been run once the two threads have taken 43 further steps, however many calls come in between. */
  lemma AcceptedSoonRun(s0: System, before: seq<Action>, after: seq<Action>)
    requires Init(s0)
    requires Working(Run(s0, before), after) && ThreadSteps(after) >= 43
    ensures Run(s0, before).accepted <= Run(Run(s0, before), after).ran
  {
    var s := Run(s0, before);
    RunInv(s0, before);
    hide Run, Rank, Working, ThreadSteps, Inv;
    StepsPerSubframe(s, after);
    RunKeepsInv(s, after);
    AcceptedGrows(s, after);
    InvCounters(s);
    RankBound(s);
    AtMostOneOutstanding(Run(s, after));
  }

  lemma AtMostOneOutstanding(s: System)
    requires Inv(s)
    ensures s.ran <= s.accepted && |s.accepted| <= |s.ran| + 1
  {
    hide TxInv, ArgsInv;
  }

  lemma RankBound(s: System)
    requires Counters(s)
    ensures Rank(s) <= 42
  {
  }

  lemma {:induction false} AcceptedGrows(s: System, actions: seq<Action>)
    ensures s.accepted <= Run(s, actions).accepted
  {
    if actions != [] {
      AcceptedGrows(s, actions[..|actions| - 1]);
      NextAccepts(Run(s, actions[..|actions| - 1]), actions[|actions| - 1]);
      hide Next;
    }
  }

  lemma NextAccepts(s: System, a: Action)
    ensures s.accepted <= Next(s, a).accepted
  {
    hide Mix;
  }

  /** Steps of `L1_thread_tx` until h subframes have been forwarded. */
  function Distance(s: System, h: nat): nat {
    if |s.forwarded| >= h then 0
    else
      match s.tx
      case WakingFh(_) => if |s.sent| >= h then 1 else 5
      case Copying => 2
      case RunningTx => 3
      case _ => 4
  }

  lemma DistanceDecreases(s: System, a: Action, h: nat)
    requires TxInv(s) && h <= |s.handed|
    ensures h <= |Next(s, a).handed|
    ensures var d := Distance(Next(s, a), h);
            if a.TxStep? && Distance(s, h) > 0 then d < Distance(s, h) else d <= Distance(s, h)
  {
    hide Downlink, Mix;
  }

  function TxSteps(actions: seq<Action>): nat {
    if actions == [] then 0
    else TxSteps(actions[..|actions| - 1]) + if actions[|actions| - 1].TxStep? then 1 else 0
  }

  /** Progress on the transmit side: everything deposited in a reachable state has been forwarded once
      `L1_thread_tx` has taken five further steps, whatever the other threads do meanwhile. */
  lemma DepositedSoonForwarded(s0: System, before: seq<Action>, after: seq<Action>)
    requires Init(s0) && TxSteps(after) >= 5
    ensures |Run(s0, before).handed| <= |Run(Run(s0, before), after).forwarded|
  {
    var s := Run(s0, before);
    RunInv(s0, before);
    DistanceRunsOut(s, after, |s.handed|);
    hide Run;
  }

  lemma InvTx(s: System)
    requires Inv(s)
    ensures TxInv(s)
  {
  }

  lemma {:induction false} DistanceRunsOut(s: System, actions: seq<Action>, h: nat)
    requires Inv(s) && h <= |s.handed|
    ensures h <= |Run(s, actions).handed|
    ensures Distance(Run(s, actions), h) <= if TxSteps(actions) >= 5 then 0 else 5 - TxSteps(actions)
  {
    if actions != [] {
      var init, last := actions[..|actions| - 1], actions[|actions| - 1];
      DistanceRunsOut(s, init, h);
      RunKeepsInv(s, init);
      hide Next, Distance, Inv;
      assert TxInv(Run(s, init)) by { InvTx(Run(s, init)); }
      DistanceDecreases(Run(s, init), last, h);
    }
  }

  // ---------------------------------------------------------------- the critical sections

  /** The shared memory of a system. */
  datatype Mailboxes = Mailboxes(rxCnt: int, rxJob: Job, txCnt: int, txJob: Job)

  function Shared(s: System): Mailboxes {
    Mailboxes(s.rxCnt, s.rxJob, s.txCnt, s.txJob)
  }

  /** `L1_proc` and `L1_proc_tx`: each method is what one thread does between lock and unlock, and
      has the effect of that thread's step on the shared memory, whatever the rest of the system. */
  class L1RxTx {
    var rx_instance_cnt: int
    var rx_job: Job
    var tx_instance_cnt: int
    var tx_job: Job

    ghost function State(): Mailboxes
      reads this
    {
      Mailboxes(rx_instance_cnt, rx_job, tx_instance_cnt, tx_job)
    }

    constructor (rxJob: Job, txJob: Job)
      ensures forall s: System | Init(s) && s.rxJob == rxJob && s.txJob == txJob :: State() == Shared(s)
    {
      rx_instance_cnt, tx_instance_cnt := -1, -1;
      rx_job, tx_job := rxJob, txJob;
    }

    method WakeupRxtx(j: Job)
      modifies this
      ensures forall s: System | Shared(s) == old(State()) :: State() == Shared(Next(s, Action.WakeupRxtx(j)))
    {
      if rx_instance_cnt == 0 {
        return;
      }
      rx_instance_cnt := rx_instance_cnt + 1;
      rx_job := j;
    }

    method ReleaseThread()
      modifies this
      ensures forall s: System | Shared(s) == old(State()) && s.rx == ReleasingRx :: State() == Shared(Next(s, RxStep(FrameRx)))
    {
      rx_instance_cnt := -1;
    }

    method WakeupTx(j: Job)
      requires tx_instance_cnt != 0
      modifies this
      ensures forall s: System | Shared(s) == old(State()) && s.rx == CheckTx(j) :: State() == Shared(Next(s, RxStep(FrameRx)))
    {
      tx_instance_cnt := 0;
      tx_job := j;
    }

    method CopyAndFree() returns (j: Job)
      modifies this
      ensures forall s: System | Shared(s) == old(State()) && s.tx == Copying ::
                State() == Shared(Next(s, TxStep)) && Next(s, TxStep).tx == WakingFh(j)
    {
      j := tx_job;
      tx_instance_cnt := -1;
    }
  }
}
