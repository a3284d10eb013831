/** The internal 1 ms timer of the stub UE. Each pass issues a tick, reads the monotonic clock and
    sleeps until the next deadline, T_0 + k ms for the k-th pass. Times are in nanoseconds. */
module TimerPacing {

  const MS: nat := 1_000_000

  /** The sleep requested by pass k when the clock reads now. */
  function SleepFor(t0: int, k: nat, now: int): nat {
    var next := t0 + k * MS;
    if now > next then 0 else next - now
  }

  class Timer {
    const T_0: int
    var sf_cnt: nat
    var timer_frame: nat
    var timer_subframe: nat

    constructor (t0: int)
      ensures T_0 == t0 && sf_cnt == 0 && timer_frame == 1023 && timer_subframe == 9
    {
      T_0, sf_cnt, timer_frame, timer_subframe := t0, 0, 1023, 9;
    }

    /** The counters at the top of a pass, which its tick announces. */
    method Advance()
      requires timer_frame < 1024 && timer_subframe < 10
      modifies `timer_frame, `timer_subframe
      ensures timer_frame < 1024 && timer_subframe < 10
      ensures 10 * timer_frame + timer_subframe == (10 * old(timer_frame) + old(timer_subframe) + 1) % 10240
    {
      if timer_subframe == 9 {
        timer_subframe := 0;
        timer_frame := timer_frame + 1;
        timer_frame := timer_frame % 1024;
      } else {
        timer_subframe := timer_subframe + 1;
      }
    }

    /** The sleep at the bottom of a pass: up to the deadline of the pass, and none once it is past. */
    method RequestSleep(now: int) returns (sleep: nat)
      modifies `sf_cnt
      ensures sf_cnt == old(sf_cnt) + 1
      ensures now + sleep >= T_0 + sf_cnt * MS
      ensures now <= T_0 + sf_cnt * MS ==> now + sleep == T_0 + sf_cnt * MS
      ensures now > T_0 + sf_cnt * MS ==> sleep == 0
      ensures sleep == SleepFor(T_0, sf_cnt, now)
    {
      sf_cnt := sf_cnt + 1;
      var T_next_SF := T_0 + sf_cnt * 1_000_000;
      if now > T_next_SF {
        sleep := 0;
      } else {
        sleep := T_next_SF - now;
      }
    }
  }

  /** What the clock showed in one pass: at the tick, when read, and when the sleep returned. */
  datatype Pass = Pass(tick: int, now: int, wake: int)

  /** Time at which pass k (counting from 1) starts: the previous wake-up. */
  function Begin(t0: int, ps: seq<Pass>, k: nat): int
    requires 0 < k <= |ps| + 1
  {
    if k == 1 then t0 else ps[k - 2].wake
  }

  /** The clock never goes back and the sleep never returns early; a pass may take arbitrarily long. */
  predicate Forward(t0: int, ps: seq<Pass>, k: nat)
    requires 0 < k <= |ps|
  {
    && Begin(t0, ps, k) <= ps[k - 1].tick <= ps[k - 1].now
    && ps[k - 1].now + SleepFor(t0, k, ps[k - 1].now) <= ps[k - 1].wake
  }

  predicate Monotonic(t0: int, ps: seq<Pass>) {
    forall k | 0 < k <= |ps| :: Forward(t0, ps, k)
  }

  /** No pass ends before its deadline. */
  lemma WakeAfterDeadline(t0: int, ps: seq<Pass>, k: nat)
    requires Monotonic(t0, ps) && k <= |ps|
    ensures Begin(t0, ps, k + 1) >= t0 + k * MS
  {
    if k > 0 {
      assert Forward(t0, ps, k);
    }
  }

  /** For every k: the k-th tick is issued no earlier than T_0 + (k-1) ms, and the k-th sleep asks for
      at most 1 ms (so it is always a valid `tv_nsec`). */
  lemma TickAndSleep(t0: int, ps: seq<Pass>, k: nat)
    requires Monotonic(t0, ps) && 0 < k <= |ps|
    ensures ps[k - 1].tick >= t0 + (k - 1) * MS
    ensures SleepFor(t0, k, ps[k - 1].now) <= MS
  {
    WakeAfterDeadline(t0, ps, k - 1);
    assert Forward(t0, ps, k);
  }

  /** How late pass k ended. */
  function Lateness(t0: int, ps: seq<Pass>, k: nat): int
    requires k <= |ps|
  {
    Begin(t0, ps, k + 1) - (t0 + k * MS)
  }

  /** Work done in pass k before the clock was read, and time slept beyond the request. */
  function Work(t0: int, ps: seq<Pass>, k: nat): int
    requires 0 < k <= |ps|
  {
    ps[k - 1].now - Begin(t0, ps, k)
  }

  function Oversleep(t0: int, ps: seq<Pass>, k: nat): int
    requires 0 < k <= |ps|
  {
    ps[k - 1].wake - ps[k - 1].now - SleepFor(t0, k, ps[k - 1].now)
  }

  /** Lateness is handed from pass to pass less the millisecond of the deadline: no deadline moves. */
  lemma LatenessStep(t0: int, ps: seq<Pass>, k: nat)
    requires 0 < k <= |ps|
    ensures var carried := Lateness(t0, ps, k - 1) + Work(t0, ps, k) - MS;
            Lateness(t0, ps, k) == (if carried > 0 then carried else 0) + Oversleep(t0, ps, k)
  {
  }

  /** Catching up: over m passes that each spend at most b < 1 ms on work and oversleeping, lateness
      falls by 1 ms - b a pass until it is at most b, and the loop is back on its first deadlines. */
  lemma {:induction false} CatchesUp(t0: int, ps: seq<Pass>, k: nat, m: nat, b: int)
    requires Monotonic(t0, ps) && k + m <= |ps| && 0 <= b < MS
    requires forall i | k < i <= k + m :: Work(t0, ps, i) + Oversleep(t0, ps, i) <= b
    ensures var left := Lateness(t0, ps, k) - m * (MS - b);
            0 <= Lateness(t0, ps, k + m) <= (if left > b then left else b)
  {
    WakeAfterDeadline(t0, ps, k + m);
    if m > 0 {
      CatchesUp(t0, ps, k, m - 1, b);
      LatenessStep(t0, ps, k + m);
      PassIsForward(t0, ps, k + m);
      hide Lateness, Work, Oversleep;
      assert (m - 1) * (MS - b) + (MS - b) == m * (MS - b);
    }
  }

  lemma PassIsForward(t0: int, ps: seq<Pass>, k: nat)
    requires Monotonic(t0, ps) && 0 < k <= |ps|
    ensures Work(t0, ps, k) >= 0 && Oversleep(t0, ps, k) >= 0
  {
    assert Forward(t0, ps, k);
  }
}
