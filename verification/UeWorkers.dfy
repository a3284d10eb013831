/** The UE main thread and its two receive/transmit workers in RF-simulator mode. A worker holds its
    mutex while it processes a subframe; the main thread waits for both workers before each dispatch.
    The same condition variable carries both signals of a worker. */
module UeWorkers {

  const WORKERS: nat := 2

  datatype MainPc =
    | Check(t: nat)           // about to lock worker t and test that it is idle
    | Asleep(t: nat)          // in `pthread_cond_wait` on worker t
    | ReadWrite               // reading and writing this subframe's samples
    | Dispatch                // about to lock the chosen worker and hand over

  datatype WorkerPc =
    | Ready                   // about to lock its mutex and test `instance_cnt_rxtx`
    | Waiting                 // in `pthread_cond_wait`
    | Processing              // processing a subframe, its mutex held

  /** The time of a subframe handed over, and of the one to transmit in answer. */
  datatype Job = Job(frameRx: int, subframeRx: int, frameTx: int, subframeTx: int)

  /** The shared part of `UE_rxtx_proc_t`: `instance_cnt_rxtx` and the fields of the job. */
  datatype Slot = Slot(cnt: int, job: Job)

  /** A subframe and the worker it was given to. */
  datatype Item = Item(worker: nat, job: Job)

  datatype System = System(
    slots: seq<Slot>, pcs: seq<WorkerPc>, main: MainPc,
    threadIdx: nat, subFrame: int,     // variables of `UE_thread`; `chosen` is its `proc`
    chosen: nat,
    dispatched: seq<Item>, processed: seq<Item>)

  datatype Thread = MainThread | WorkerThread(w: nat)

  datatype Action = Step(thread: Thread) | Spurious(thread: Thread)

  /** After `init_UE_threads` and the start of the stream, with the main thread at the top of its
      first subframe; `f` is the frame that synchronisation left in both workers. */
  predicate Init(s: System, f: int) {
    && |s.slots| == WORKERS && |s.pcs| == WORKERS
    && (forall w | 0 <= w < WORKERS :: s.slots[w].cnt == -1 && s.slots[w].job.frameRx == f && s.pcs[w] == Ready)
    && s.main == Check(0) && s.threadIdx == 1 && s.subFrame == 0 && s.chosen == 0
    && s.dispatched == s.processed == []
  }

  predicate Shape(s: System) {
    && |s.slots| == WORKERS && |s.pcs| == WORKERS && s.chosen < WORKERS && s.threadIdx < WORKERS
    && ((s.main.Check? || s.main.Asleep?) ==> s.main.t < WORKERS)
  }

  /** A thread can step unless it sleeps or needs a mutex that a processing worker holds. */
  predicate Enabled(s: System, th: Thread)
    requires Shape(s)
  {
    match th
    case WorkerThread(w) => w < WORKERS && s.pcs[w] != Waiting
    case MainThread =>
      match s.main
      case Check(t) => s.pcs[t] != Processing
      case Asleep(_) => false
      case ReadWrite => true
      case Dispatch => s.pcs[s.chosen] != Processing
  }

  /** `pthread_cond_signal` on the condition of worker w, which its thread and the main one wait on. */
  function Signal(s: System, w: nat): System
    requires Shape(s) && w < WORKERS
  {
    if s.pcs[w] == Waiting then s.(pcs := s.pcs[w := Ready])
    else if s.main == Asleep(w) then s.(main := Check(w))
    else s
  }

  /** At subframe 0 the frame counter of every worker moves on. */
  function Advanced(slots: seq<Slot>, subFrame: int): (r: seq<Slot>)
    ensures |r| == |slots|
  {
    if subFrame != 0 then slots
    else seq(|slots|, i requires 0 <= i < |slots| => slots[i].(job := slots[i].job.(frameRx := slots[i].job.frameRx + 1)))
  }

  function HandedOver(slots: seq<Slot>, w: nat, subFrame: int): (r: seq<Slot>)
    requires w < |slots|
    ensures |r| == |slots|
  {
    var moved := Advanced(slots, subFrame);
    var frame := moved[w].job.frameRx;
    moved[w := Slot(moved[w].cnt + 1, Job(frame, subFrame, frame + (if subFrame > 5 then 1 else 0), (subFrame + 4) % 10))]
  }

  function StepMain(s: System): System
    requires Shape(s)
  {
    match s.main
    case Check(t) =>
      if s.slots[t].cnt >= 0 then s.(main := Asleep(t))
      else if t + 1 < WORKERS then s.(main := Check(t + 1))
      else s.(main := ReadWrite)
    case Asleep(_) => s
    case ReadWrite => s.(main := Dispatch)
    case Dispatch =>
      var w := s.chosen;
      var slots := HandedOver(s.slots, w, s.subFrame);
      var s' := Signal(s.(slots := slots, dispatched := s.dispatched + [Item(w, slots[w].job)]), w);
      // top of the loop: next subframe, next worker
      s'.(main := Check(0), subFrame := (s.subFrame + 1) % 10,
          chosen := s.threadIdx, threadIdx := if s.threadIdx + 1 >= WORKERS then 0 else s.threadIdx + 1)
  }

  function StepWorker(s: System, w: nat): System
    requires Shape(s) && w < WORKERS
  {
    var slot := s.slots[w];
    match s.pcs[w]
    case Ready => s.(pcs := s.pcs[w := if slot.cnt < 0 then Waiting else Processing])
    case Waiting => s
    case Processing =>
      Signal(s.(slots := s.slots[w := slot.(cnt := slot.cnt - 1)], pcs := s.pcs[w := Ready],
                processed := s.processed + [Item(w, slot.job)]), w)
  }

  function Next(s: System, a: Action): System
    requires Shape(s)
  {
    match a
    case Step(th) =>
      if !Enabled(s, th) then s
      else if th == MainThread then StepMain(s)
      else StepWorker(s, th.w)
    case Spurious(th) =>
      match th
      case MainThread => if s.main.Asleep? then s.(main := Check(s.main.t)) else s
      case WorkerThread(w) =>
        if w < WORKERS && s.pcs[w] == Waiting then s.(pcs := s.pcs[w := Ready]) else s
  }

  // ---------------------------------------------------------------- invariant

  /** Sleepers sleep for a reason, a processing worker has a subframe, and once the main thread has
      checked a worker it stays idle until the dispatch. */
  predicate ControlInv(s: System) {
    && Shape(s)
    && (forall w | 0 <= w < WORKERS ::
          && (s.slots[w].cnt == -1 || s.slots[w].cnt == 0)
          && (s.pcs[w] == Waiting ==> s.slots[w].cnt == -1)
          && (s.pcs[w] == Processing ==> s.slots[w].cnt == 0))
    && (s.main.Asleep? ==> s.slots[s.main.t].cnt == 0)
    && ((s.main.Check? || s.main.Asleep?) ==> forall w | 0 <= w < s.main.t :: s.slots[w].cnt == -1)
    && (s.main == ReadWrite || s.main == Dispatch ==> forall w | 0 <= w < WORKERS :: s.slots[w].cnt == -1)
  }

  /** The k-th subframe, counting from frame f + 1, and the one four later go to worker k mod 2. */
  function Due(f: int, k: nat): Item {
    Item(k % WORKERS, Job(f + 1 + k / 10, k % 10, f + 1 + (k + 4) / 10, (k + 4) % 10))
  }

  /** The variables of `UE_thread` after n dispatches. */
  predicate VariablesAt(s: System, n: nat) {
    s.chosen == n % WORKERS && s.threadIdx == (n + 1) % WORKERS && s.subFrame == n % 10
  }

  ghost predicate DispatchInv(s: System, f: int)
    requires Shape(s)
  {
    var n := |s.dispatched|;
    && (forall k | 0 <= k < n :: s.dispatched[k] == Due(f, k))
    && VariablesAt(s, n)
    && forall w | 0 <= w < WORKERS :: s.slots[w].job.frameRx == f + (n + 9) / 10
  }

  predicate Idle(s: System)
    requires Shape(s)
  {
    s.slots[0].cnt == -1 && s.slots[1].cnt == -1
  }

  /** At most one subframe is outstanding, and it is the last one dispatched. */
  ghost predicate PendingInv(s: System)
    requires Shape(s)
  {
    && (Idle(s) ==> s.processed == s.dispatched)
    && forall w | 0 <= w < WORKERS && s.slots[w].cnt == 0 ::
         s.dispatched == s.processed + [Item(w, s.slots[w].job)] && s.slots[1 - w].cnt == -1
  }

  ghost predicate Inv(s: System, f: int) {
    ControlInv(s) && DispatchInv(s, f) && PendingInv(s)
  }

  lemma MainKeepsControl(s: System)
    requires ControlInv(s) && Enabled(s, MainThread)
    ensures ControlInv(StepMain(s))
  {
  }

  lemma WorkerKeepsControl(s: System, w: nat)
    requires ControlInv(s) && Enabled(s, WorkerThread(w))
    ensures ControlInv(StepWorker(s, w))
  {
  }

  lemma NextKeepsControl(s: System, a: Action)
    requires ControlInv(s)
    ensures ControlInv(Next(s, a))
  {
    hide StepMain, StepWorker;
    if a.Step? && Enabled(s, a.thread) {
      if a.thread == MainThread {
        MainKeepsControl(s);
      } else {
        WorkerKeepsControl(s, a.thread.w);
      }
    }
  }

  /** A dispatch gives the chosen worker the subframe that is due. */
  lemma HandsOverDue(s: System, f: int)
    requires Shape(s) && DispatchInv(s, f)
    ensures var slots := HandedOver(s.slots, s.chosen, s.subFrame);
            && Item(s.chosen, slots[s.chosen].job) == Due(f, |s.dispatched|)
            && (forall w | 0 <= w < WORKERS :: slots[w].job.frameRx == f + (|s.dispatched| + 1 + 9) / 10)
            && slots[s.chosen].cnt == s.slots[s.chosen].cnt + 1
            && slots[1 - s.chosen].cnt == s.slots[1 - s.chosen].cnt
  {
  }

  /** The state a dispatch leaves behind. */
  lemma DispatchEffect(s: System)
    requires Shape(s) && s.main == Dispatch
    ensures var s' := StepMain(s);
            && s'.slots == HandedOver(s.slots, s.chosen, s.subFrame)
            && s'.dispatched == s.dispatched + [Item(s.chosen, s'.slots[s.chosen].job)] && s'.processed == s.processed
            && s'.subFrame == (s.subFrame + 1) % 10 && s'.chosen == s.threadIdx
            && s'.threadIdx == if s.threadIdx + 1 >= WORKERS then 0 else s.threadIdx + 1
  {
  }

  lemma VariablesAdvance(s: System, s': System, n: nat)
    requires VariablesAt(s, n)
    requires s'.subFrame == (s.subFrame + 1) % 10 && s'.chosen == s.threadIdx
    requires s'.threadIdx == if s.threadIdx + 1 >= WORKERS then 0 else s.threadIdx + 1
    ensures VariablesAt(s', n + 1)
  {
  }

  lemma DispatchCounts(s: System, f: int)
    requires ControlInv(s) && ControlInv(StepMain(s)) && DispatchInv(s, f) && s.main == Dispatch
    ensures DispatchInv(StepMain(s), f)
  {
    DispatchEffect(s);
    HandsOverDue(s, f);
    VariablesAdvance(s, StepMain(s), |s.dispatched|);
    hide StepMain, HandedOver, Due, ControlInv, VariablesAt;
  }

  lemma DispatchPends(s: System, f: int)
    requires Inv(s, f) && s.main == Dispatch && ControlInv(StepMain(s))
    ensures PendingInv(StepMain(s))
  {
    DispatchEffect(s);
    HandsOverDue(s, f);
    hide StepMain, HandedOver, Due;
    assert s.chosen == 0 || s.chosen == 1;
  }

  lemma MainKeepsHistory(s: System, f: int)
    requires Inv(s, f) && Enabled(s, MainThread)
    ensures ControlInv(StepMain(s)) && DispatchInv(StepMain(s), f) && PendingInv(StepMain(s))
  {
    MainKeepsControl(s);
    if s.main == Dispatch {
      DispatchCounts(s, f);
      DispatchPends(s, f);
    }
  }

  lemma WorkerKeepsHistory(s: System, w: nat, f: int)
    requires Inv(s, f) && Enabled(s, WorkerThread(w))
    ensures ControlInv(StepWorker(s, w)) && DispatchInv(StepWorker(s, w), f) && PendingInv(StepWorker(s, w))
  {
    WorkerKeepsControl(s, w);
    hide Due;
    if s.pcs[w] == Processing {
      assert StepWorker(s, w).processed == s.dispatched;
    }
  }

  lemma NextKeepsInv(s: System, a: Action, f: int)
    requires Inv(s, f)
    ensures Inv(Next(s, a), f)
  {
    hide StepMain, StepWorker, Due;
    NextKeepsControl(s, a);
    if a.Step? && Enabled(s, a.thread) {
      if a.thread == MainThread {
        MainKeepsHistory(s, f);
      } else {
        WorkerKeepsHistory(s, a.thread.w, f);
      }
    }
  }

  function Run(s0: System, actions: seq<Action>): (s: System)
    requires Shape(s0)
    ensures Shape(s)
  {
    if actions == [] then s0
    else
      ShapeKept(Run(s0, actions[..|actions| - 1]), actions[|actions| - 1]);
      Next(Run(s0, actions[..|actions| - 1]), actions[|actions| - 1])
  }

  lemma ShapeKept(s: System, a: Action)
    requires Shape(s)
    ensures Shape(Next(s, a))
  {
  }

  lemma {:induction false} RunInv(s0: System, actions: seq<Action>, f: int)
    requires Init(s0, f)
    ensures Inv(Run(s0, actions), f)
  {
    if actions != [] {
      RunInv(s0, actions[..|actions| - 1], f);
      NextKeepsInv(Run(s0, actions[..|actions| - 1]), actions[|actions| - 1], f);
    }
  }

  // ---------------------------------------------------------------- results

  /** Over every interleaving: the k-th dispatched subframe is subframe k mod 10 of frame f + 1 + k / 10,
      to be answered exactly four subframes later, and goes to worker k mod 2; every one is processed
      exactly once, in order, by that worker and with those times; at most the last one is
      outstanding, and none is when the main thread is about to dispatch the next. */
  lemma ProcessedExactlyOnce(s0: System, actions: seq<Action>, f: int)
    requires Init(s0, f)
    ensures var s := Run(s0, actions);
            && (forall k | 0 <= k < |s.dispatched| :: var i := s.dispatched[k];
                  && i.worker == k % WORKERS
                  && 0 <= i.job.subframeRx < 10 && 10 * i.job.frameRx + i.job.subframeRx == 10 * (f + 1) + k
                  && 0 <= i.job.subframeTx < 10 && 10 * i.job.frameTx + i.job.subframeTx == 10 * (f + 1) + k + 4)
            && s.processed <= s.dispatched && |s.dispatched| <= |s.processed| + 1
            && (s.main == ReadWrite || s.main == Dispatch ==> s.processed == s.dispatched)
            && (forall w | 0 <= w < WORKERS :: s.slots[w].cnt == -1 || s.slots[w].cnt == 0)
  {
    RunInv(s0, actions, f);
    hide Run;
    var s := Run(s0, actions);
    if !Idle(s) {
      var w := if s.slots[0].cnt != -1 then 0 else 1;
      assert s.dispatched == s.processed + [Item(w, s.slots[w].job)];
    }
  }

  /** The main thread moves every worker's frame counter while it holds one worker's mutex only. Even
      so no step of any thread changes the job of a worker that has one. */
  lemma JobStable(s0: System, actions: seq<Action>, a: Action, w: nat, f: int)
    requires Init(s0, f) && w < WORKERS
    requires Run(s0, actions).slots[w].cnt == 0
    ensures Next(Run(s0, actions), a).slots[w].job == Run(s0, actions).slots[w].job
  {
    RunInv(s0, actions, f);
    hide Run, HandedOver;
    assert w == 0 || w == 1;
  }

  /** No deadlock and no lost wake-up: in every reachable state some thread can step. */
  lemma SomeThreadCanStep(s0: System, actions: seq<Action>, f: int)
    requires Init(s0, f)
    ensures exists th :: Enabled(Run(s0, actions), th)
  {
    RunInv(s0, actions, f);
    CanStep(Run(s0, actions));
  }

  lemma CanStep(s: System)
    requires ControlInv(s)
    ensures exists th :: Enabled(s, th)
  {
    match s.main
    case Check(t) => assert Enabled(s, MainThread) || Enabled(s, WorkerThread(t));
    case Asleep(t) => assert Enabled(s, WorkerThread(t));
    case ReadWrite => assert Enabled(s, MainThread);
    case Dispatch => assert Enabled(s, MainThread);
  }

  /** Steps left before the next dispatch, at most. */
  function WorkerRank(pc: WorkerPc, slot: Slot): nat {
    match pc
    case Waiting => 0
    case Processing => 6
    case Ready => if slot.cnt < 0 then 3 else 9
  }

  function MainRank(pc: MainPc): nat {
    match pc
    case Dispatch => 0
    case ReadWrite => 1
    case Asleep(t) => if t == 0 then 4 else 2
    case Check(t) => if t == 0 then 5 else 3
  }

  function Rank(s: System): nat
    requires Shape(s)
  {
    MainRank(s.main) + WorkerRank(s.pcs[0], s.slots[0]) + WorkerRank(s.pcs[1], s.slots[1])
  }

  /** Every enabled step is a dispatch or brings the next one nearer, whoever takes it. */
  lemma RankDecreases(s: System, th: Thread)
    requires ControlInv(s) && Enabled(s, th) && !(th == MainThread && s.main == Dispatch)
    ensures Rank(Next(s, Step(th))) < Rank(s)
    ensures Next(s, Step(th)).dispatched == s.dispatched
  {
    if th == MainThread {
      assert s.main.Check? ==> s.main.t == 0 || s.main.t == 1;
    } else {
      assert th.w == 0 || th.w == 1;
    }
  }

  /** A run of enabled steps without spurious wake-ups. */
  predicate Working(s0: System, threads: seq<Thread>)
    requires Shape(s0)
    decreases |threads|
  {
    threads == [] || (Enabled(s0, threads[0]) && (ShapeKept(s0, Step(threads[0])); Working(Next(s0, Step(threads[0])), threads[1..])))
  }

  function AfterSteps(s0: System, threads: seq<Thread>): System
    requires Shape(s0)
    decreases |threads|
  {
    if threads == [] then s0
    else
      ShapeKept(s0, Step(threads[0]));
      AfterSteps(Next(s0, Step(threads[0])), threads[1..])
  }

  /** Progress under any scheduling: in every reachable state, any further 24 steps without spurious
      wake-ups, whoever takes them, dispatch another subframe. */
  lemma KeepsDispatching(s0: System, actions: seq<Action>, threads: seq<Thread>, f: int)
    requires Init(s0, f)
    requires Working(Run(s0, actions), threads) && |threads| >= 24
    ensures Run(s0, actions).dispatched < AfterSteps(Run(s0, actions), threads).dispatched
  {
    RunInv(s0, actions, f);
    RankBound(Run(s0, actions));
    DispatchesWithinRank(Run(s0, actions), threads);
  }

  lemma {:induction false} DispatchesWithinRank(s: System, threads: seq<Thread>)
    requires ControlInv(s) && Working(s, threads) && |threads| > Rank(s)
    ensures s.dispatched < AfterSteps(s, threads).dispatched
    decreases |threads|
  {
    hide Rank, StepMain, StepWorker;
    var s' := Next(s, Step(threads[0]));
    NextKeepsControl(s, Step(threads[0]));
    if threads[0] == MainThread && s.main == Dispatch {
      DispatchAppends(s);
      HistoryGrows(s', threads[1..]);
    } else {
      RankDecreases(s, threads[0]);
      DispatchesWithinRank(s', threads[1..]);
    }
  }

  lemma RankBound(s: System)
    requires Shape(s)
    ensures Rank(s) < 24
  {
  }

  lemma DispatchAppends(s: System)
    requires Shape(s) && s.main == Dispatch && Enabled(s, MainThread)
    ensures Next(s, Step(MainThread)).dispatched == s.dispatched + [Item(s.chosen, HandedOver(s.slots, s.chosen, s.subFrame)[s.chosen].job)]
  {
  }

  lemma {:induction false} HistoryGrows(s: System, threads: seq<Thread>)
    requires Shape(s)
    ensures s.dispatched <= AfterSteps(s, threads).dispatched
    decreases |threads|
  {
    if threads != [] {
      ShapeKept(s, Step(threads[0]));
      StepGrows(s, threads[0]);
      HistoryGrows(Next(s, Step(threads[0])), threads[1..]);
    }
  }

  lemma StepGrows(s: System, th: Thread)
    requires Shape(s)
    ensures s.dispatched <= Next(s, Step(th)).dispatched
  {
  }

  // ---------------------------------------------------------------- the critical sections

  /** `UE->proc.proc_rxtx`, changed by each thread between lock and unlock. */
  class UeProc {
    const proc_rxtx: array<Slot>

    /** The end of a pass of `UE_thread`. */
    method HandOver(w: nat, sub_frame: int)
      requires w < proc_rxtx.Length
      modifies proc_rxtx
      ensures proc_rxtx[..] == HandedOver(old(proc_rxtx[..]), w, sub_frame)
    {
      ghost var slots := proc_rxtx[..];
      if sub_frame == 0 {
        for th_id := 0 to proc_rxtx.Length
          invariant forall i | 0 <= i < proc_rxtx.Length ::
                      proc_rxtx[i] == if i < th_id then Advanced(slots, 0)[i] else slots[i]
        {
          var slot := proc_rxtx[th_id];
          proc_rxtx[th_id] := slot.(job := slot.job.(frameRx := slot.job.frameRx + 1));
        }
      }
      assert proc_rxtx[..] == Advanced(slots, sub_frame);
      var slot := proc_rxtx[w];
      var frame_tx := slot.job.frameRx + if sub_frame > 5 then 1 else 0;
      var job := Job(slot.job.frameRx, sub_frame, frame_tx, (sub_frame + 4) % 10);
      proc_rxtx[w] := Slot(slot.cnt + 1, job);
    }

    /** The end of a pass of `UE_thread_rxn_txnp4`. */
    method Finish(w: nat)
      requires w < proc_rxtx.Length
      modifies proc_rxtx
      ensures forall s: System | Shape(s) && w < WORKERS && s.slots == old(proc_rxtx[..]) && s.pcs[w] == Processing ::
                StepWorker(s, w).slots == proc_rxtx[..]
    {
      proc_rxtx[w] := proc_rxtx[w].(cnt := proc_rxtx[w].cnt - 1);
    }
  }
}
