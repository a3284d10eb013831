/** The hand-shake between the UE main thread, which records 10 ms of signal, and the
    synchronisation thread, which searches it (modes other than `rx_dump_frame`). */
module UeSync {

  /** Program counter of `UE_thread`, with the copies it took under the lock folded in. */
  datatype MainPc =
    | Top                     // about to read the shared fields
    | SkipHalf                // reading half a subframe into a dummy buffer
    | Grabbing                // writing `common_vars.rxdata` with 10 ms of signal
    | WakeUp                  // about to increment the counter and signal
    | DummyRead               // reading 10 ms into a dummy buffer
    | Streaming               // synchronised: writing `common_vars.rxdata` as the stream arrives
    | BusyExit                // the "sync thread busy" exit

  datatype SyncPc =
    | Check                   // about to lock and test `instance_cnt_synch`
    | Asleep                  // in `pthread_cond_wait`
    | Searching               // in `initial_sync`, reading `common_vars.rxdata`
    | SetFlag                 // about to set `is_synchronized`
    | Release                 // about to decrement the counter
    | Abandoned               // gave up the carrier scan and exited

  /** `scan` is `UE_scan_carrier`; the history counts the recordings and the subframes streamed, and
      holds for every search that has ended whether it found the cell. */
  datatype System = System(
    cnt: int, synchronized: bool, scan: bool, main: MainPc, sync: SyncPc,
    grabs: nat, results: seq<bool>, streamed: nat)

  /** A step of the synchronisation thread comes with what `initial_sync` reports if it is in it, and
      whether the next frequency offset of a carrier scan would be beyond the limit. */
  datatype Action = MainStep | SyncStep(found: bool, beyond: bool) | Spurious

  /** After `init_UE_threads`. */
  function Start(scan: bool): System {
    System(-1, false, scan, Top, Check, 0, [], 0)
  }

  function StepMain(s: System): System {
    match s.main
    case Top =>
      if s.synchronized then s.(main := Streaming)
      else if s.cnt < 0 then s.(main := SkipHalf)
      else s.(main := DummyRead)
    case SkipHalf => s.(main := Grabbing)
    case Grabbing => s.(main := WakeUp, grabs := s.grabs + 1)
    case WakeUp =>
      if s.cnt + 1 == 0 then
        s.(cnt := 0, main := Top, sync := if s.sync == Asleep then Check else s.sync)
      else s.(cnt := s.cnt + 1, main := BusyExit)
    case DummyRead => s.(main := Top)
    case Streaming => s.(main := Top, streamed := s.streamed + 1)
    case BusyExit => s
  }

  function StepSync(s: System, found: bool, beyond: bool): System {
    match s.sync
    case Check => s.(sync := if s.cnt < 0 then Asleep else Searching)
    case Asleep => s
    case Searching =>
      var s' := s.(results := s.results + [found]);
      if found then
        if s.scan then s'.(scan := false, sync := Release) else s'.(sync := SetFlag)
      else
        s'.(sync := if s.scan && beyond then Abandoned else Release)
    case SetFlag => s.(synchronized := true, sync := Release)
    case Release => s.(cnt := s.cnt - 1, sync := Check)
    case Abandoned => s
  }

  function Next(s: System, a: Action): System {
    match a
    case MainStep => StepMain(s)
    case SyncStep(found, beyond) => StepSync(s, found, beyond)
    case Spurious => if s.sync == Asleep then s.(sync := Check) else s
  }

  function Run(s0: System, actions: seq<Action>): System {
    if actions == [] then s0 else Next(Run(s0, actions[..|actions| - 1]), actions[|actions| - 1])
  }

  predicate WritesRxdata(pc: MainPc) {
    pc == Grabbing || pc == Streaming
  }

  function Successes(results: seq<bool>): nat {
    if results == [] then 0
    else Successes(results[..|results| - 1]) + if results[|results| - 1] then 1 else 0
  }

  // ---------------------------------------------------------------- invariant

  /** The counter is 0 exactly from the wake-up to the release, the recording is over by then, and
      the flag is set only when the search it ends has finished. */
  predicate Inv(s: System) {
    && (s.cnt == -1 || s.cnt == 0)
    && s.main != BusyExit
    && (s.main == SkipHalf || s.main == Grabbing || s.main == WakeUp ==> s.cnt == -1 && !s.synchronized)
    && (s.sync == Searching || s.sync == SetFlag || s.sync == Release || s.sync == Abandoned ==> s.cnt == 0)
    && (s.sync == Searching || s.sync == SetFlag || s.sync == Abandoned ==> !s.synchronized)
    && (s.sync == Asleep ==> s.cnt == -1)
    && (s.sync == Check && s.cnt == 0 ==> !s.synchronized)
    && (s.main == Streaming ==> s.synchronized)
    && s.grabs == |s.results|
                  + (if s.main == WakeUp then 1 else 0)
                  + (if s.cnt == 0 && (s.sync == Check || s.sync == Searching) then 1 else 0)
  }

  /** With a carrier scan the first success ends the scan and the second one synchronises; without one
      the first does. */
  predicate ResultInv(s: System, scan: bool) {
    var needed := if scan then 2 else 1;
    && Successes(s.results) <= needed
    && (s.scan <==> scan && Successes(s.results) == 0)
    && (s.synchronized || s.sync == SetFlag <==> Successes(s.results) == needed)
    && (s.sync == SetFlag ==> !s.synchronized)
  }

  lemma NextKeepsInv(s: System, a: Action)
    requires Inv(s)
    ensures Inv(Next(s, a))
  {
  }

  lemma NextKeepsResultInv(s: System, a: Action, scan: bool)
    requires Inv(s) && ResultInv(s, scan)
    ensures ResultInv(Next(s, a), scan)
  {
    if a.SyncStep? && s.sync == Searching {
      assert (s.results + [a.found])[..|s.results|] == s.results;
    }
  }

  lemma {:induction false} RunKeepsInv(s0: System, actions: seq<Action>)
    requires Inv(s0)
    ensures Inv(Run(s0, actions))
  {
    if actions != [] {
      RunKeepsInv(s0, actions[..|actions| - 1]);
      NextKeepsInv(Run(s0, actions[..|actions| - 1]), actions[|actions| - 1]);
      hide Next;
    }
  }

  lemma {:induction false} RunResults(scan: bool, actions: seq<Action>)
    ensures ResultInv(Run(Start(scan), actions), scan)
  {
    if actions != [] {
      RunResults(scan, actions[..|actions| - 1]);
      RunKeepsInv(Start(scan), actions[..|actions| - 1]);
      NextKeepsResultInv(Run(Start(scan), actions[..|actions| - 1]), actions[|actions| - 1], scan);
      hide Next;
    }
  }

  // ---------------------------------------------------------------- safety

  /** Over every interleaving and every outcome of the searches: the counter stays in {-1, 0}, the
      busy exit is never taken, and the sample buffer is never written while it is being searched. */
  lemma HandshakeSafe(scan: bool, actions: seq<Action>)
    ensures var s := Run(Start(scan), actions);
            && (s.cnt == -1 || s.cnt == 0)
            && s.main != BusyExit
            && !(s.sync == Searching && WritesRxdata(s.main))
  {
    RunKeepsInv(Start(scan), actions);
  }

  /** Every recording is searched exactly once: the searches never run ahead of the recordings, and
      lag by one only while a recording is being handed over or searched. */
  lemma OneSearchPerGrab(scan: bool, actions: seq<Action>)
    ensures var s := Run(Start(scan), actions);
            && |s.results| <= s.grabs <= |s.results| + 1
            && (s.sync == Searching ==> s.grabs == |s.results| + 1)
            && (s.main == Grabbing ==> s.grabs == |s.results|)
  {
    RunKeepsInv(Start(scan), actions);
  }

  /** No wake-up is lost: the synchronisation thread sleeps only while there is nothing to search. */
  lemma SleepsOnlyWithoutWork(scan: bool, actions: seq<Action>)
    ensures var s := Run(Start(scan), actions);
            s.sync == Asleep ==> s.cnt < 0
  {
    RunKeepsInv(Start(scan), actions);
  }

  // ---------------------------------------------------------------- what the searches lead to

  /** What the end of a search and the step after it lead to. */
  lemma SearchLeadsTo(s: System, found: bool, beyond: bool, f: bool, b: bool)
    requires Inv(s) && s.sync == Searching
    ensures var s1 := Next(s, SyncStep(found, beyond));
            var s2 := Next(s1, SyncStep(f, b));
            && s1.results == s.results + [found] && !s1.synchronized && s1.main == s.main
            && (found && !s.scan ==> s2.synchronized && s2.sync == Release && s2.cnt == 0)
            && (found && s.scan ==> s2.sync == Check && s2.cnt == -1 && !s2.synchronized && !s2.scan)
            && (!found && s.scan && beyond ==> s2.sync == Abandoned && !s2.synchronized)
            && (!found && !(s.scan && beyond) ==>
                  s2.sync == Check && s2.cnt == -1 && !s2.synchronized && s2.scan == s.scan)
  {
  }

  /** Over every run: the flag is set if and only if a search succeeded without a carrier scan, or a
      second one after the success that ended the scan, and the synchronisation thread has taken the
      step after it. There is never a success more. */
  lemma SynchronisedIff(scan: bool, actions: seq<Action>)
    ensures var s := Run(Start(scan), actions);
            var needed := if scan then 2 else 1;
            && (s.synchronized <==> Successes(s.results) == needed && s.sync != SetFlag)
            && Successes(s.results) <= needed
            && (s.scan <==> scan && Successes(s.results) == 0)
  {
    RunResults(scan, actions);
  }

  /** Synchronisation is final: from then on the flag stays set, no search starts and nothing is
      recorded for one. */
  lemma {:induction false} SynchronisedForGood(s: System, actions: seq<Action>)
    requires Inv(s) && s.synchronized
    ensures var s' := Run(s, actions);
            s'.synchronized && s'.results == s.results && s'.grabs == s.grabs
  {
    if actions != [] {
      SynchronisedForGood(s, actions[..|actions| - 1]);
      RunKeepsInv(s, actions[..|actions| - 1]);
    }
  }

  // ---------------------------------------------------------------- progress

  function MainSteps(actions: seq<Action>): nat {
    if actions == [] then 0
    else MainSteps(actions[..|actions| - 1]) + if actions[|actions| - 1].MainStep? then 1 else 0
  }

  function SyncSteps(actions: seq<Action>): nat {
    if actions == [] then 0
    else SyncSteps(actions[..|actions| - 1]) + if actions[|actions| - 1].SyncStep? then 1 else 0
  }

  /** Steps of the main thread until more than g recordings are made, once it may record. */
  function ToRecording(s: System, g: nat): nat {
    if s.grabs > g then 0
    else
      match s.main
      case Grabbing => 1
      case SkipHalf => 2
      case Top => 3
      case _ => 4
  }

  /** A released search that has not synchronised is followed by another recording within four steps of
      the main thread, whatever the other thread does. */
  lemma {:induction false} RecordsAgain(s: System, actions: seq<Action>)
    requires Inv(s) && s.cnt == -1 && !s.synchronized && s.main != WakeUp
    ensures var s' := Run(s, actions);
            && ToRecording(s', s.grabs) <= (if MainSteps(actions) >= 4 then 0 else 4 - MainSteps(actions))
            && (MainSteps(actions) >= 4 ==> s'.grabs > s.grabs)
            && (s'.grabs == s.grabs ==> s'.cnt == -1 && !s'.synchronized && s'.main != WakeUp)
            && s'.grabs >= s.grabs
  {
    if actions != [] {
      RecordsAgain(s, actions[..|actions| - 1]);
      RunKeepsInv(s, actions[..|actions| - 1]);
    }
  }

  /** So it is from the moment an unsuccessful search, or one that ended the scan, is released. */
  lemma SearchesAgain(s: System, f: bool, b: bool, actions: seq<Action>)
    requires Inv(s) && s.sync == Release && !s.synchronized && MainSteps(actions) >= 4
    ensures Run(Next(s, SyncStep(f, b)), actions).grabs > s.grabs
  {
    NextKeepsInv(s, SyncStep(f, b));
    RecordsAgain(Next(s, SyncStep(f, b)), actions);
    hide Run;
  }

  /** A recording handed over has been searched after two steps of the synchronisation thread. */
  lemma {:induction false} SearchSoonEnds(s: System, actions: seq<Action>)
    requires Inv(s) && s.cnt == 0 && s.sync == Check
    ensures var s' := Run(s, actions);
            && |s'.results| >= |s.results|
            && (|s'.results| == |s.results| ==>
                  && s'.cnt == 0
                  && (s'.sync == if SyncSteps(actions) == 0 then Check else Searching)
                  && SyncSteps(actions) <= 1)
            && (SyncSteps(actions) >= 2 ==> |s'.results| > |s.results|)
  {
    if actions != [] {
      SearchSoonEnds(s, actions[..|actions| - 1]);
      RunKeepsInv(s, actions[..|actions| - 1]);
    }
  }

  lemma SynchronisedStep(s: System, a: Action)
    requires Inv(s) && s.synchronized
    ensures var s' := Next(s, a);
            if a.MainStep? then s'.main == (if s.main == Top then Streaming else Top)
                                && s'.streamed == s.streamed + (if s.main == Streaming then 1 else 0)
            else s'.main == s.main && s'.streamed == s.streamed
    ensures s.main == Top || s.main == Streaming || s.main == DummyRead
  {
  }

  /** Once the flag is set the main thread streams: of any m further steps it takes, every second one
      ends a streamed subframe, after at most one dummy read. */
  lemma {:induction false} StreamsOnceSynchronised(s: System, actions: seq<Action>)
    requires Inv(s) && s.synchronized
    ensures var s' := Run(s, actions);
            && (MainSteps(actions) > 0 ==> s'.main == Top || s'.main == Streaming)
            && 2 * (s'.streamed - s.streamed) + (if s'.main == Streaming then 1 else 0) >= MainSteps(actions) - 1
            && (s.main == Top ==> s'.main == if MainSteps(actions) % 2 == 0 then Top else Streaming)
  {
    if actions == [] {
      SynchronisedStep(s, MainStep);
    } else {
      var init := actions[..|actions| - 1];
      StreamsOnceSynchronised(s, init);
      SynchronisedForGood(s, init);
      RunKeepsInv(s, init);
      SynchronisedStep(Run(s, init), actions[|actions| - 1]);
    }
    hide Next, Inv;
  }

  // ---------------------------------------------------------------- the critical sections

  /** The fields `mutex_synch` protects; each method is what one thread does between lock and unlock. */
  class Ue {
    var instance_cnt_synch: int
    var is_synchronized: bool

    ghost predicate Shows(s: System)
      reads this
    {
      instance_cnt_synch == s.cnt && is_synchronized == s.synchronized
    }

    constructor ()
      ensures Shows(Start(true)) && Shows(Start(false))
    {
      instance_cnt_synch, is_synchronized := -1, false;
    }

    /** The recording is handed over; the busy exit is taken if one is still being searched. */
    method WakeUpSynch() returns (busy: bool)
      modifies this
      ensures forall s: System | old(Shows(s)) && s.main == WakeUp ::
                Shows(StepMain(s)) && (busy <==> StepMain(s).main == BusyExit)
    {
      instance_cnt_synch := instance_cnt_synch + 1;
      busy := instance_cnt_synch != 0;
    }

    method SetSynchronized()
      modifies this
      ensures forall s: System, f: bool, b: bool | old(Shows(s)) && s.sync == SetFlag :: Shows(StepSync(s, f, b))
    {
      is_synchronized := true;
    }

    method IndicateReadiness()
      modifies this
      ensures forall s: System, f: bool, b: bool | old(Shows(s)) && s.sync == Release :: Shows(StepSync(s, f, b))
    {
      instance_cnt_synch := instance_cnt_synch - 1;
    }
  }
}
