# Timing and hand-off model of the LTE real-time executables

This Dafny project models the threads of `oai_ran/executables` that move subframes between the radio,
the front haul, L1 and the UE, and two small scripts of the CI that drives them. The threads are
coordinated by counters, bit masks and sample timestamps, so the results quantify over every
interleaving and every run. Verify with `dafny verify dfyconfig.toml`.

Two styles are used. Code that updates fields or buffers is a class or a method whose `ensures` equates
the new state with a specification function of the old one (`L1Proc`, `RadioUnit`, `NorthPort`,
`RuProc`, `Radio`, `Ue`, `UeProc`, `L1RxTx`, `Timer`, `Jobs`, `Search`, `WaitBuildEnd`,
`WriteEnvFile`). Interleavings are runs of a step function over the same specification functions, with
a program counter for each thread and history variables for what was handed over and processed; the
critical sections of the hand-offs are also given as methods tied to those steps.

| file | what it models |
|---|---|
| `RuBarrier.dfy` | the receive barrier of `wakeup_L1s` over any number of radio units |
| `RfClock.dfy` | `rx_rf` against the counter of `ru_thread`: drift and frame resynchronisation |
| `TxTiming.dfy` | the transmit look-ahead, its inverse, and `frame_tx_unwrap` |
| `SymbolCollector.dfy` | `fh_if4p5_south_in`: collecting a subframe's symbols |
| `BurstRecovery.dfy` | the late-command fail-safe of `tx_rf` |
| `L1Pipeline.dfy` | RU threads to `L1_thread` (accept or drop) to `L1_thread_tx` (mailbox) |
| `UeSync.dfy` | `UE_thread` and `UE_thread_synch` |
| `UeWorkers.dfy` | `UE_thread` and its two workers in RF-simulator mode |
| `UeStream.dfy` | the read and write blocks of the synchronised UE |
| `CarrierSearch.dfy` | the alternating carrier search |
| `TimerPacing.dfy` | the internal 1 ms timer |
| `BuildPoll.dfy` | `_wait_build_end`, which removes from the list it iterates over |
| `EnvFile.dfy` | `WriteEnvFile`: reading, merging and printing a `.env` file |
| `BitMask.dfy`, `CInt.dfy` | masks as numbers with bits; C division, remainder and integer widths |

Assumed of code outside these files: `wait_on_condition` blocks while the counter is negative (as the
inlined loop at `oai_ran/executables/lte-ue.c:500-502` does); `release_thread` decrements it under the
lock (as `oai_ran/executables/lte-ue.c:690-693` does), and since the counter is 0 then, it becomes -1;
a condition signal wakes a thread that waits on that condition, and a waiting thread may also wake
spuriously; the device reads of the synchronised UE are contiguous; both workers of the UE start from
the same frame number, which the initial synchronisation leaves in them.

The proofs turned up places where the code does less than its surroundings suggest. Each is stated as
a lemma with the exact condition or a concrete state:

- A report ten subframes ahead of the last completed one is absorbed by the older subframe's slot
  (`RuBarrier.ReportRecordedIff`), and a slave that becomes active too early or too late, by the exact
  condition of `RuBarrier.StepKeepsInvIff`, breaks the barrier (`RuBarrier.PromotionBreaksBarrier`).
- A frame resynchronisation received when the previous subframe was 9, or together with drift that
  leaves the current subframe, ends in the exit branch, up to whole SFN periods (`RfClock.ResynchIff`,
  `RfClock.ResynchAtFrameEnd`).
- `frame_tx_unwrap` is a 32-bit `int`; at the 2^21st start of an SFN period (after about 248 days) it
  overflows and the timestamps jump (`TxTiming.StreamExactIff`, `TxTiming.OverflowReached`).
- One symbol number beyond the subframe's width ends the collection early, because masks are compared
  numerically (`SymbolCollector.EndsIncompleteIff`, `SymbolCollector.IncompleteHandOver`).
- A receive fault that strikes while `tx_rf` is between the switch on `late_control` and its write is
  overwritten; unless the case taken was that of the end, nothing answers it
  (`BurstRecovery.FaultAnsweredIff`, `BurstRecovery.FaultLost`).
- `L1_thread` reads the arguments of `wakeup_tx` after it released its mailbox: of a subframe accepted
  in between, any part is transmitted in place of the one just received (`L1Pipeline.EndToEndIff`,
  `L1Pipeline.RaceReachable`).
- A cell at exactly half a frame from the boundary is never corrected (`UeStream.SteadyCellAligns`).
- A poll over finished build jobs removes only every second one (`BuildPoll.PollRemovesHalf`).
- An existing `.env` keeps its `TAG` and `FLEXRIC_TAG` whatever is passed (`EnvFile.CallKeepsEntries`).

## Model

| member | source | states |
|---|---|---|
| `RuBarrier.L1Proc.WakeupL1s` | `oai_ran/executables/lte-ru.c:1139-1227` | the loop over the RU list and the test of the mask, on the arrays, refine one abstract barrier call: every counter and every slot of the new state, whether the mask was cleared and whether L1 was woken |
| `RuBarrier.L1Proc.RuThreadPass` | `oai_ran/executables/lte-ru.c:1781-1797` | a pass of a waiting RU thread is a count-down followed by a call |
| `RuBarrier.WaitsCountedDown` | `oai_ran/executables/lte-ru.c:1781-1782` | over any list of events an RU that starts with wait w and has counted down c times waits w - c more times, or none; only the last wait is cut short, by any RU's report outside subframe 9 |
| `RuBarrier.AccumulateBits` | `oai_ran/executables/lte-ru.c:1155-1166` | after the loop a bit is set exactly if it was set before or belongs to the reporting RU once active, to a synchronising RU, or to another slave that waits |
| `RuBarrier.CallMask` | `oai_ran/executables/lte-ru.c:1155-1190` | every bit of every slot after a call, in any state |
| `RuBarrier.CallClearsIff` | `oai_ran/executables/lte-ru.c:1155-1190` | the mask is cleared, in any state, exactly when with the bits the call adds all are there |
| `RuBarrier.CompletesIff` | `oai_ran/executables/lte-ru.c:1155-1215` | a call completes the mask exactly when its caller was active before, every other active RU has already reported that subframe, and every RU the call promotes has its bit; so the `wait_cnt == 0` test never swallows a completed subframe |
| `RuBarrier.CallBits` | `oai_ran/executables/lte-ru.c:1160-1166` | a call changes one slot only and there, of the RUs active after it, the caller's bit only, unless it clears the slot |
| `RuBarrier.CallActivates` | `oai_ran/executables/lte-ru.c:1156-1166` | the RUs active after a call are those before and those it promotes, and which bits it sets |
| `RuBarrier.StepKeepsInvIff` | `oai_ran/executables/lte-ru.c:1148-1227` | a step of any thread keeps the invariant that ties the ten slots to the absolute subframes pending in them if and only if every RU that becomes active in it has, of the bits other calls set in its place, exactly those of the pending subframes before its own |
| `RuBarrier.BarrierSafety` | `oai_ran/executables/lte-ru.c:1148-1227` | over every interleaving of any number of RUs, those that become active on the way included: each absolute subframe clears the mask and wakes L1 exactly once, in order; the number completed is the least number reported by an active RU; slot t always holds exactly the active RUs that reported the subframe pending there |
| `RuBarrier.SteadyIsSafe` | `oai_ran/executables/lte-ru.c:1684-1689` | where no RU waits the condition on promotions never comes up |
| `RuBarrier.InitInv` | `oai_ran/executables/lte-enb.c:857` | the cleared masks satisfy the invariant for any fixed set of active RUs |
| `RuBarrier.ReportInWindowCounts` | `oai_ran/executables/lte-ru.c:1160-1162` | inside the window a report finds its bit clear and sets it, or completes the mask |
| `RuBarrier.ReportRecordedIff` | `oai_ran/executables/lte-ru.c:1160-1162` | the window of ten is exact: the next report of an active RU is recorded if and only if it is less than ten subframes ahead of the last completed one |
| `RuBarrier.LateReportIsLost` | `oai_ran/executables/lte-ru.c:1160-1187` | at ten ahead the report finds its bit set, changes nothing about it and completes nothing |
| `RuBarrier.WindowFills` | `oai_ran/executables/lte-ru.c:1160-1187` | a run reaches the state in which one RU is ten ahead |
| `RuBarrier.PromotionBreaksBarrier` | `oai_ran/executables/lte-ru.c:1156-1166` | a run of three RUs in which every step is one the threads may take and one promotion misses the condition: a subframe completes that an active RU has not reported |
| `RfClock.RadioUnit.ReadSubframe` | `oai_ran/executables/lte-ru.c:605-692` | one pass of the counter and of `rx_rf` on the fields refines one pass of the abstract clock |
| `RfClock.DecodeIsSlot` | `oai_ran/executables/lte-ru.c:638-639` | frame and tti decoded from a timestamp are the digits of its position in the SFN period of 10240 subframes |
| `RfClock.FirstRead` | `oai_ran/executables/lte-ru.c:629-631` | the first read becomes frame 0 subframe 0 at timestamp 0, whatever the device's time and any command |
| `RfClock.FirstReadFrom` | `oai_ran/executables/lte-ru.c:629-692` | the same from any counters and with any command pending |
| `RfClock.PlainPass` | `oai_ran/executables/lte-ru.c:632-639` | whatever the drift, a pass without command advances the timestamp by one subframe, puts the drift in the offset, and the decoded time equals the counted time |
| `RfClock.DriftAbsorbed` | `oai_ran/executables/lte-ru.c:616-692` | for every sequence of device timestamps the k-th read is at k*n, the offset is the rest, the counters count up from zero modulo 10240, and no exit is reached |
| `RfClock.CommandShift` | `oai_ran/executables/lte-ru.c:605-620` | a resynchronisation moves the timestamp by whole frames to the commanded one, does not absorb the drift of that read, and exits exactly if the decoded time differs from the counted one |
| `RfClock.CommandSlot` | `oai_ran/executables/lte-ru.c:605-639` | the slot in which a commanded pass lands, for any drift |
| `RfClock.NegativeDigits` | `oai_ran/executables/lte-ru.c:638-639` | what the truncating division decodes from a timestamp before zero |
| `RfClock.ResynchIff` | `oai_ran/executables/lte-ru.c:605-687` | for every command, drift and previous tti: exactly when a commanded pass keeps decoded and counted time in step, and exactly when it reaches no exit; for a read in the subframe that is due, when the previous tti is not 9 and the frame is below 1024 |
| `RfClock.ResynchRunIff` | `oai_ran/executables/lte-ru.c:605-692` | over any run with commands and drift anywhere, decoded and counted time agree after every read if and only if every command met that condition |
| `RfClock.ResynchSafe` | `oai_ran/executables/lte-ru.c:605-692` | in such a run no exit is reached, the timestamp never goes negative and its slot is always the counted time; after a command the frame is the commanded one, the tti the next one |
| `RfClock.FrameEndDecodesLate` | `oai_ran/executables/lte-ru.c:611-687` | a command after tti 9 is decoded exactly one frame late and exits |
| `RfClock.ResynchAtFrameEnd` | `oai_ran/executables/lte-ru.c:611-687` | a run without drift in which a command after ten reads exits |
| `TxTiming.LookAheadIff` | `oai_ran/executables/lte-ru.c:648-650` | the conditional form equals the decoding of the later timestamp exactly while tti plus look-ahead is below 20 |
| `TxTiming.LookAheadDecodes` | `oai_ran/executables/lte-enb.c:594-598` | for every look-ahead up to 10 it does so for every timestamp and subframe size |
| `TxTiming.Back4InvertsAhead4` | `oai_ran/executables/lte-ue.c:1067-1068` | the standalone UE's mapping is the two-sided inverse of the look-ahead by 4 |
| `TxTiming.NorthPort.SubframeIn` | `oai_ran/executables/lte-ru.c:464-469` | the fields stay those of the stream received, and while the counter holds the timestamp is the subframe's place in its SFN period plus one period for every start received |
| `TxTiming.TimestampIs` | `oai_ran/executables/lte-ru.c:469` | the 64-bit products do not wrap: the timestamp is the plain product |
| `TxTiming.UnwrapStep` | `oai_ran/executables/lte-ru.c:464-469` | each skipped start of a period costs exactly one period in the difference of two timestamps |
| `TxTiming.UnwrapExactIff` | `oai_ran/executables/lte-ru.c:464-469` | two consecutive timestamps differ by exactly the elapsed subframes if and only if no frame 0 subframe 0 was skipped between them |
| `TxTiming.UnwrapCounts` | `oai_ran/executables/lte-ru.c:467` | the counter is 1024 times the number of SFN period starts received |
| `TxTiming.LastStepExactIff` | `oai_ran/executables/lte-ru.c:464-469` | the same for the last step of a stream |
| `TxTiming.StreamExactIff` | `oai_ran/executables/lte-ru.c:464-469` | a forward stream advances exactly at every step if and only if it never skips the start of an SFN period and never receives more starts than the 32-bit counter holds |
| `TxTiming.StreamExact` | `oai_ran/executables/lte-ru.c:872-885` | over such a stream, across any number of wraps, every timestamp is an earlier one plus exactly the elapsed subframes, and timestamps strictly increase |
| `TxTiming.UnwrapOverflows` | `oai_ran/executables/lte-ru.c:467-469` | the step at which the counter overflows is never exact, however many subframes elapse |
| `TxTiming.OverflowReached` | `oai_ran/executables/lte-ru.c:467-469` | the stream of the first 2^21 period starts: exact up to the last step, which is not |
| `SymbolCollector.TestIsEnd` | `oai_ran/executables/lte-ru.c:213` | the numeric test of the mask fails exactly when a tick or all symbols have arrived, or a symbol number beyond the width of the subframe |
| `SymbolCollector.EncodeSymbol` | `oai_ran/executables/lte-ru.c:220` | setting a symbol's bit adds exactly that symbol, also after a tick |
| `SymbolCollector.RuProc.Store` | `oai_ran/executables/lte-ru.c:220-230` | one packet keeps every mask an encoding of what was received for its subframe |
| `SymbolCollector.RuProc.CheckTime` | `oai_ran/executables/lte-ru.c:252-271` | the branches that compare the received time with the expected one |
| `SymbolCollector.RuProc.Clear` | `oai_ran/executables/lte-ru.c:283` | the subframe handed over starts again from nothing, the others are untouched |
| `SymbolCollector.RuProc.Collect` | `oai_ran/executables/lte-ru.c:213-237` | whatever symbol numbers arrive, the loop ends at the first packet that makes the test fail, and that packet belongs to the subframe |
| `SymbolCollector.RuProc.SouthIn` | `oai_ran/executables/lte-ru.c:195-287` | it returns exactly when a tick, all symbols or a symbol number beyond the width are in; the tti received is the requested one, so the mismatch test cannot fire; everything received for other subframes is kept; time, command and counters as the branches set them |
| `SymbolCollector.HeldExactly` | `oai_ran/executables/lte-ru.c:220-223` | a symbol is held for a subframe exactly if it was before or some packet brought it |
| `SymbolCollector.TickExactly` | `oai_ran/executables/lte-ru.c:221-223` | a tick is held exactly if it was before or some packet was one |
| `SymbolCollector.EarlySymbolsKept` | `oai_ran/executables/lte-ru.c:205-283` | over any run of calls for other subframes nothing received early is lost |
| `SymbolCollector.EndsIncompleteIff` | `oai_ran/executables/lte-ru.c:213-233` | a collection ends on an incomplete subframe if and only if no tick came, some symbol is missing, and a symbol number beyond the width was received for it |
| `SymbolCollector.IncompleteHandOver` | `oai_ran/executables/lte-ru.c:213-233` | one packet with symbol 14 does it |
| `BurstRecovery.Radio.TxRf` | `oai_ran/executables/lte-ru.c:723-824` | flag, suppression and new state of a downlink or special subframe |
| `BurstRecovery.EachEndReopened` | `oai_ran/executables/lte-ru.c:729-750` | over any number of frames of a TDD configuration each end is followed by a start before the next write that is neither |
| `BurstRecovery.StartIffAfterEnd` | `oai_ran/executables/lte-ru.c:745-750` | of two successive writes the later is a start exactly when the earlier is an end |
| `BurstRecovery.EndIffSpecial` | `oai_ran/executables/lte-ru.c:724-750` | ends are the special subframes, and without TDD every downlink write continues the burst |
| `BurstRecovery.RecoverySequence` | `oai_ran/executables/lte-ru.c:762-791` | without a new fault recovery is exactly an end without time, two suppressed calls, a start, and normal flags for ever |
| `BurstRecovery.StepsMakeCall` | `oai_ran/executables/lte-ru.c:762-824` | the single accesses of an undisturbed call add up to the call |
| `BurstRecovery.NextKeepsInv` | `oai_ran/executables/lte-ru.c:762-824` | the invariant over the shared state and the program counter, for a fault between any two accesses |
| `BurstRecovery.BurstReopened` | `oai_ran/executables/lte-ru.c:624-627` | whenever faults strike, the first write after an end without time that is not another such end is a start |
| `BurstRecovery.FaultSurvivesIff` | `oai_ran/executables/lte-ru.c:762-785` | the next step of `tx_rf` keeps the request of a fault if and only if it is not the write of the new state |
| `BurstRecovery.FaultAnsweredIff` | `oai_ran/executables/lte-ru.c:762-791` | at any moment of a call: the next write begun after a receive fault is an end without time if and only if the fault did not strike after the switch had taken one of the other cases |
| `BurstRecovery.ShortWriteAnsweredIff` | `oai_ran/executables/lte-ru.c:820-824` | after a write in the normal state the next one begun is an end without time if and only if the device sent too little and no separate thread writes |
| `BurstRecovery.FaultLost` | `oai_ran/executables/lte-ru.c:783-785` | a run in which a second fault strikes in the case of the restart and is never answered |
| `L1Pipeline.AcceptedRunInOrder` | `oai_ran/executables/lte-enb.c:569-608` | over every interleaving accepted subframes are run exactly once, in order, one at a time |
| `L1Pipeline.AcceptOrDrop` | `oai_ran/executables/lte-enb.c:569-608` | a call is accepted exactly when nothing accepted before is still in progress; a dropped one changes nothing |
| `L1Pipeline.HandedProcessedInOrder` | `oai_ran/executables/lte-enb.c:309-343` | deposited transmit subframes are processed and forwarded exactly once, in the order of the hand-overs, with uplink subframes skipped |
| `L1Pipeline.DownlinkExactly` | `oai_ran/executables/lte-enb.c:537` | what is due to the transmitter is every subframe handed on that is not uplink, as often as it was, and nothing else |
| `L1Pipeline.DownlinkInOrder` | `oai_ran/executables/lte-enb.c:537` | and in the order of the hand-overs |
| `L1Pipeline.MailboxesStable` | `oai_ran/executables/lte-enb.c:533-557` | no step of any thread changes the fields of a full mailbox |
| `L1Pipeline.NoLostWakeup` | `oai_ran/executables/lte-enb.c:541-556` | a thread sleeps only while its counter makes it, and the two threads that share the transmit condition never sleep on it together |
| `L1Pipeline.SomeThreadCanStep` | `oai_ran/executables/lte-enb.c:299-417` | no deadlock: unless both threads sleep for want of work, one can step |
| `L1Pipeline.QuietMeansDone` | `oai_ran/executables/lte-enb.c:299-417` | when neither thread can step, everything accepted has been run, handed over unless uplink, sent and forwarded |
| `L1Pipeline.StepsPerSubframe` | `oai_ran/executables/lte-enb.c:299-343` | no busy waiting: the two threads take at most 19 steps for every accepted subframe |
| `L1Pipeline.AcceptedSoonRun` | `oai_ran/executables/lte-enb.c:391-417` | every accepted subframe has been run after 43 further steps of the two threads, under any scheduling and any calls |
| `L1Pipeline.DepositedSoonForwarded` | `oai_ran/executables/lte-enb.c:309-343` | every deposited subframe has been forwarded after five further steps of `L1_thread_tx`, whatever the others do |
| `L1Pipeline.HandOverCarries` | `oai_ran/executables/lte-enb.c:414-417` | field by field: of the k-th hand-over each argument is that of the k-th accepted subframe, or of the next one exactly if it was read after that was accepted; the order of the reads is open |
| `L1Pipeline.EndToEndIff` | `oai_ran/executables/lte-enb.c:405-417` | what is handed on is what was run, in order, if and only if no field was read late in which the two subframes differ |
| `L1Pipeline.RaceReachable` | `oai_ran/executables/lte-enb.c:414-417` | every torn hand-over is reachable from the initial state: any two subframes, any set of late fields |
| `L1Pipeline.L1RxTx.WakeupRxtx` | `oai_ran/executables/lte-enb.c:573-598` | the critical section on the receive mailbox has the effect of the modelled step |
| `L1Pipeline.L1RxTx.ReleaseThread` | `oai_ran/executables/lte-enb.c:414` | the release has the effect of the modelled step |
| `L1Pipeline.L1RxTx.WakeupTx` | `oai_ran/executables/lte-enb.c:541-556` | the deposit in the transmit mailbox has the effect of the modelled step |
| `L1Pipeline.L1RxTx.CopyAndFree` | `oai_ran/executables/lte-enb.c:328-332` | the copy hands out the job that was in the mailbox and frees it |
| `UeSync.HandshakeSafe` | `oai_ran/executables/lte-ue.c:1744-1816` | over every interleaving and every outcome of the searches the counter stays in {-1, 0}, the busy exit is unreachable, and the sample buffer is never written while it is searched |
| `UeSync.OneSearchPerGrab` | `oai_ran/executables/lte-ue.c:497-504` | every recording is searched exactly once |
| `UeSync.SynchronisedForGood` | `oai_ran/executables/lte-ue.c:606-612` | once the flag is set it stays set, no search starts and nothing more is recorded for one |
| `UeSync.SynchronisedIff` | `oai_ran/executables/lte-ue.c:606-612` | over every run the flag is set if and only if a search succeeded without a carrier scan, or a second one after the success that ended the scan, and the thread has taken the step after it |
| `UeSync.SearchLeadsTo` | `oai_ran/executables/lte-ue.c:539-668` | where each outcome of a search leads, with and without a carrier scan |
| `UeSync.RecordsAgain` | `oai_ran/executables/lte-ue.c:1744-1799` | without synchronisation another recording is made within four steps of the main thread, whatever the other does |
| `UeSync.SearchesAgain` | `oai_ran/executables/lte-ue.c:690-693` | so it is after the release of any search that failed or only ended the scan |
| `UeSync.SearchSoonEnds` | `oai_ran/executables/lte-ue.c:497-504` | a recording handed over has been searched after two steps of the synchronisation thread |
| `UeSync.StreamsOnceSynchronised` | `oai_ran/executables/lte-ue.c:1816-1956` | once the flag is set every second step of the main thread ends a streamed subframe |
| `UeSync.SleepsOnlyWithoutWork` | `oai_ran/executables/lte-ue.c:500-502` | the synchronisation thread never sleeps on a recording |
| `UeSync.Ue.WakeUpSynch` | `oai_ran/executables/lte-ue.c:1788-1799` | the critical section that hands a recording over has the effect of the modelled step |
| `UeSync.Ue.SetSynchronized` | `oai_ran/executables/lte-ue.c:610-612` | setting the flag has the effect of the modelled step |
| `UeSync.Ue.IndicateReadiness` | `oai_ran/executables/lte-ue.c:690-693` | the release has the effect of the modelled step |
| `UeWorkers.ProcessedExactlyOnce` | `oai_ran/executables/lte-ue.c:737-814` | over every interleaving the k-th subframe goes to worker k mod 2 with its exact frame and subframe, and the transmit time four subframes later; each is processed exactly once, in order, before the next is dispatched |
| `UeWorkers.JobStable` | `oai_ran/executables/lte-ue.c:1987-2001` | although the frame counters of both workers move under one mutex, no step changes the job of a worker that has one |
| `UeWorkers.SomeThreadCanStep` | `oai_ran/executables/lte-ue.c:1862-1875` | no deadlock and no lost wake-up in any reachable state, with one condition variable used in both directions |
| `UeWorkers.RankDecreases` | `oai_ran/executables/lte-ue.c:1856-1882` | every step of any thread brings the next dispatch nearer |
| `UeWorkers.KeepsDispatching` | `oai_ran/executables/lte-ue.c:1856-2005` | under any scheduling 24 further steps always dispatch another subframe |
| `UeWorkers.UeProc.HandOver` | `oai_ran/executables/lte-ue.c:1987-2001` | the loop over the frame counters and the fields of the job, on the array, refine the modelled hand-over |
| `UeWorkers.UeProc.Finish` | `oai_ran/executables/lte-ue.c:804` | the release has the effect of the modelled step |
| `UeWorkers.HandsOverDue` | `oai_ran/executables/lte-ue.c:1987-2001` | the job handed over is the one that is due, and the frame counters of both workers stay together |
| `UeStream.Ue.Subframe` | `oai_ran/executables/lte-ue.c:1892-1952` | the block arithmetic of one subframe on the fields refines the stream step |
| `UeStream.StepKeepsInv` | `oai_ran/executables/lte-ue.c:1884-1952` | a subframe keeps reads and writes contiguous and two subframes apart, and can always compensate |
| `UeStream.GaplessStream` | `oai_ran/executables/lte-ue.c:1884-1952` | for every number of subframes and all tracking offsets the writes form one stream without gap or overlap, and the branch that cannot compensate is unreachable |
| `UeStream.FrameLength` | `oai_ran/executables/lte-ue.c:1894-1917` | a frame reads and writes exactly ten subframes less the correction, which is -1, 0 or 1 |
| `UeStream.FrameAligns` | `oai_ran/executables/lte-ue.c:1899-1919` | what a frame reads brings the offset exactly one sample nearer to the frame boundary; exactly ten subframes with no offset, with half a frame, or with the correction off |
| `UeStream.SteadyCellAligns` | `oai_ran/executables/lte-ue.c:1899-1919` | a steady cell is aligned after exactly as many frames as its offset is samples from the boundary, and stays so; one at half a frame never moves |
| `CarrierSearch.Search` | `oai_ran/executables/lte-ue.c:638-662` | for any positive step and limit the search ends, attempts the alternation in order, stops at the first success, and when it abandons has attempted exactly the multiples of the step within the limit, all failing |
| `CarrierSearch.OffsetsDistinctOrdered` | `oai_ran/executables/lte-ue.c:641-646` | the alternation never repeats and its magnitudes never decrease |
| `CarrierSearch.AbandonedSearchIsExhaustive` | `oai_ran/executables/lte-ue.c:638-662` | an abandoned search has visited each multiple within the limit exactly once, nearer ones first, starting from 0 |
| `TimerPacing.Timer.Advance` | `oai_ran/executables/lte-ue.c:2306-2312` | frame and subframe count up by one modulo 10240 |
| `TimerPacing.Timer.RequestSleep` | `oai_ran/executables/lte-ue.c:2336-2349` | the clock reading plus the sleep is never before the pass's deadline, exactly the deadline unless that is past, and then there is no sleep |
| `TimerPacing.WakeAfterDeadline` | `oai_ran/executables/lte-ue.c:2336-2349` | no pass ends before its deadline |
| `TimerPacing.TickAndSleep` | `oai_ran/executables/lte-ue.c:2303-2349` | the k-th tick is no earlier than T_0 + (k-1) ms and no sleep exceeds 1 ms, however long passes take |
| `TimerPacing.LatenessStep` | `oai_ran/executables/lte-ue.c:2334-2346` | lateness is carried from pass to pass less one millisecond: no deadline moves |
| `TimerPacing.CatchesUp` | `oai_ran/executables/lte-ue.c:2334-2349` | the rate at which lateness disappears over any number of passes with bounded work |
| `BuildPoll.WaitBuildEnd` | `oai_ran/ci-scripts/cls_cluster.py:131-147` | the nested loops over the list they mutate refine the recursive specification: result, rounds and queries |
| `BuildPoll.RemoveFirstExactly` | `oai_ran/ci-scripts/cls_cluster.py:137` | exactly the first occurrence leaves the list and the order of the rest stays |
| `BuildPoll.PollSkips` | `oai_ran/ci-scripts/cls_cluster.py:135-137` | from any index a poll over finished jobs removes every second one |
| `BuildPoll.PollSound` | `oai_ran/ci-scripts/cls_cluster.py:135-140` | a job leaves the list only after being seen Completed, and a round fails exactly when an Error was seen |
| `BuildPoll.PollAsksAll` | `oai_ran/ci-scripts/cls_cluster.py:135-140` | a poll in which nothing completes asks every job once, in order, up to the first error |
| `BuildPoll.TrueIsSound` | `oai_ran/ci-scripts/cls_cluster.py:131-147` | True means every job was seen Completed and none in Error, for any behaviour of the cluster |
| `BuildPoll.FalseMeans` | `oai_ran/ci-scripts/cls_cluster.py:133-147` | False means that the last query showed an error, or that all the rounds there was time for are over |
| `BuildPoll.PollRemovesHalf` | `oai_ran/ci-scripts/cls_cluster.py:135-137` | a poll of m distinct finished jobs removes exactly the ceil(m/2) at even positions |
| `BuildPoll.FinishedJobsRounds` | `oai_ran/ci-scripts/cls_cluster.py:133-147` | n finished jobs succeed if and only if timeout > interval * floor(log2 n), after exactly floor(log2 n) + 1 rounds |
| `EnvFile.ReadEnvs` | `oai_ran/ci-scripts/cls_containerize.py:168-172` | the loop over the lines refines the parser, errors included |
| `EnvFile.WriteEnvFile` | `oai_ran/ci-scripts/cls_containerize.py:163-191` | the file written, or the error, for every file read and every set of images pulled |
| `EnvFile.EntryRoundTripIff` | `oai_ran/ci-scripts/cls_containerize.py:171-190` | an entry reads back as printed if and only if its value has no double quote at either end |
| `EnvFile.PrintedText` | `oai_ran/ci-scripts/cls_containerize.py:190` | the text of a file |
| `EnvFile.ParseLineIs` | `oai_ran/ci-scripts/cls_containerize.py:171-172` | a line is cut at its first '=', quoted or not, and outer quotes come off the value |
| `EnvFile.ParseLineFailsIff` | `oai_ran/ci-scripts/cls_containerize.py:171` | a line is an error exactly when it has no '=' |
| `EnvFile.RoundTrip` | `oai_ran/ci-scripts/cls_containerize.py:168-191` | reading back a printed file gives the same entries in the same order |
| `EnvFile.CallKeepsEntries` | `oai_ran/ci-scripts/cls_containerize.py:166-174` | one call keeps the value of every entry it read, `TAG` included, except the image keys, and adds the missing defaults |
| `EnvFile.RecordedUnder` | `oai_ran/ci-scripts/cls_containerize.py:175-189` | under each of the five image keys there is the sanitizer image's name if a pulled image is first recognised as it, and otherwise what was there |
| `EnvFile.FirstCallWrites` | `oai_ran/ci-scripts/cls_containerize.py:165-189` | the literal keys and values of a first call |
| `EnvFile.ContainsIff` | `oai_ran/ci-scripts/cls_containerize.py:184-188` | a name is recognised anywhere in the image |
| `EnvFile.NewEnvWellFormed` | `oai_ran/ci-scripts/cls_containerize.py:165-189` | a call keeps an environment well-formed |
| `EnvFile.QuotesStripped` | `oai_ran/ci-scripts/cls_containerize.py:172` | the quotes a value is printed in come off, with any at its own ends |
| `EnvFile.EntriesSurvive` | `oai_ran/ci-scripts/cls_containerize.py:163-191` | so does any sequence of calls, each of which reads what the one before wrote |
| `EnvFile.RepeatIsIdempotent` | `oai_ran/ci-scripts/cls_containerize.py:163-191` | repeating a call with the same images pulled writes the same file |

## Left out

- RuBarrier.BarrierSafety: covers the runs in which RUs become active safely and stay in the window of ten, both conditions shown exact (`StepKeepsInvIff`, `ReportRecordedIff`); what the barrier does after an unsafe step is only shown on one run; masks are unbounded numbers, where the `int` shift limits the source to 31 radio units.
- RuBarrier.L1Proc.WakeupL1s: the timers, the logging and the `check_sync` comparison inside the loop change nothing modelled; of the wake-up only the fact is kept, not the list of eNBs.
- RfClock.ResynchIff: the subframe size is one for which the 32-bit product of the source does not wrap (`FrameParms`).
- RfClock.DriftAbsorbed: timestamps are unbounded, where the device's are 64-bit.
- TxTiming.LookAheadDecodes: timestamps are non-negative, as `DriftAbsorbed` and `ResynchSafe` show them to be.
- TxTiming.NorthPort.SubframeIn: begins when the symbols of a subframe are complete; the collection loop before it is left out.
- SymbolCollector.RuProc.SouthIn: the peer sends subframe numbers 0 to 9 and symbol numbers 0 to 31, beyond which the array index and the shift of the source are undefined; the stop and exit breaks and the PARALLEL_SINGLE_THREAD transmit fields are left out.
- BurstRecovery.BurstReopened: one radio unit; several with a local radio share the one global variable.
- L1Pipeline.HandOverCarries: only the PARALLEL_RU_L1_TRX_SPLIT variant is modelled; the fields of an accepted subframe are written in one step, which the open order of the reads makes no restriction.
- L1Pipeline.AcceptedSoonRun: spurious wake-ups are part of every safety result and of `DepositedSoonForwarded` but not of this one.
- UeSync.HandshakeSafe: the mode `rx_dump_frame`, which clears the flag again, is left out; values, not objects, carry the interleaving, and the class gives the critical sections.
- UeSync.SearchLeadsTo: whether the next frequency offset is beyond the limit is a parameter here; `CarrierSearch.Search` says which it is.
- BurstRecovery.EachEndReopened: the subframe types are any sequence in which special subframes lead from downlink to uplink, as the TDD configurations of section 4.2 of 3GPP TS 36.211 are; the table itself is not part of this model.
- UeWorkers.KeepsDispatching: spurious wake-ups are part of every other result but not of this one; other modes than the RF simulator dispatch with a time limit and may overwrite a pending subframe.
- UeWorkers.ProcessedExactlyOnce: frame numbers are not reduced modulo 1024, as in the source, and are unbounded.
- TimerPacing.TickAndSleep: the clock is monotonic and a sleep never returns early; 64-bit wrap-around is left out.
- BuildPoll.FinishedJobsRounds: the interval is positive, as its default is; with another one the loop need not end.
- EnvFile.RoundTrip: for text that the shell's `echo -e '...'` leaves alone, without backslash or single quote, and for keys without '=' or leading blank and values and keys without line break; the remote shell and the image inspection are parameters.
- Transmit barrier: `RU_mask_tx` starts with all bits set and can fire early, so no such property holds of it.
- Signal processing, PRACH, device and front-haul drivers, thread creation and priorities, logging, configuration, stop and kill paths.
- The emulated radio and the record and playback branches of `rx_rf`, and the builds with PRE_SCD_THREAD or PHY_TX_THREAD.
- The CI scripts that drive SSH, Docker and HTML reports or parse arguments and logs, the headers, and the NR main programs.
