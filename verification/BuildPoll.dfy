/** `_wait_build_end` of the cluster CI: it polls the build jobs and removes the finished ones from
    the list it is iterating over, so that the iteration skips the job after each removed one. */
module BuildPoll {

  /** What `oc get pods | grep <job>` shows: whether the output contains "Completed", "Error". */
  datatype Pod = Pod(completed: bool, error: bool)

  /** The q-th query, and the job it asks for. */
  type Cluster = (nat, string) -> Pod

  datatype Query = Query(job: string, pod: Pod)

  /** `list.remove`: the first occurrence only. */
  function RemoveFirst(jobs: seq<string>, j: string): (r: seq<string>)
    ensures |r| == if j in jobs then |jobs| - 1 else |jobs|
  {
    if jobs == [] then []
    else if jobs[0] == j then jobs[1..]
    else [jobs[0]] + RemoveFirst(jobs[1..], j)
  }

  /** What is left once the first occurrence of j, at i, is gone; the order of the rest stays. */
  predicate FirstGone(jobs: seq<string>, j: string, i: nat, left: seq<string>) {
    i < |jobs| && jobs[i] == j && j !in jobs[..i] && left == jobs[..i] + jobs[i + 1..]
  }

  lemma {:induction false} RemoveFirstExactly(jobs: seq<string>, j: string) returns (i: nat)
    ensures j !in jobs ==> RemoveFirst(jobs, j) == jobs
    ensures j in jobs ==> FirstGone(jobs, j, i, RemoveFirst(jobs, j))
  {
    i := 0;
    if jobs != [] && jobs[0] != j {
      var k := RemoveFirstExactly(jobs[1..], j);
      i := k + 1;
      assert jobs == [jobs[0]] + jobs[1..];
      if j in jobs {
        assert jobs[..i] == [jobs[0]] + jobs[1..][..k] && jobs[i + 1..] == jobs[1..][k + 1..];
      }
    }
  }

  /** One `for j in jobs` loop from index i: remaining jobs, whether an error ended it, queries made. */
  datatype Round = Round(jobs: seq<string>, failed: bool, log: seq<Query>)

  function Poll(cluster: Cluster, jobs: seq<string>, i: nat, log: seq<Query>): Round
    decreases |jobs| - i
  {
    if i >= |jobs| then Round(jobs, false, log)
    else
      var j := jobs[i];
      var pod := cluster(|log|, j);
      var jobs' := if pod.completed then RemoveFirst(jobs, j) else jobs;
      var log' := log + [Query(j, pod)];
      if pod.error then Round(jobs', true, log')
      else Poll(cluster, jobs', i + 1, log')
  }

  datatype Result = Result(ok: bool, rounds: nat, log: seq<Query>)

  function Wait(cluster: Cluster, jobs: seq<string>, timeout: int, interval: int, log: seq<Query>): Result
    requires interval > 0
    decreases timeout
  {
    if timeout <= 0 then Result(false, 0, log)
    else
      var r := Poll(cluster, jobs, 0, log);
      if r.failed then Result(false, 1, r.log)
      else if r.jobs == [] then Result(true, 1, r.log)
      else
        var rest := Wait(cluster, r.jobs, timeout - interval, interval, r.log);
        rest.(rounds := rest.rounds + 1)
  }

  /** The jobs list of the caller, which the loop mutates. */
  class Jobs {
    var items: seq<string>

    constructor (items: seq<string>)
      ensures this.items == items
    {
      this.items := items;
    }

    method Remove(j: string)
      modifies this
      ensures items == RemoveFirst(old(items), j)
      ensures if j in old(items) then exists i :: FirstGone(old(items), j, i, items) else items == old(items)
    {
      ghost var i := RemoveFirstExactly(items, j);
      items := RemoveFirst(items, j);
    }
  }

  method WaitBuildEnd(cluster: Cluster, jobs: Jobs, timeout: int, interval: int)
    returns (ok: bool, rounds: nat, log: seq<Query>)
    requires interval > 0
    modifies jobs
    ensures Result(ok, rounds, log) == Wait(cluster, old(jobs.items), timeout, interval, [])
  {
    var timeout_sec := timeout;
    rounds, log := 0, [];
    while timeout_sec > 0
      invariant var rest := Wait(cluster, jobs.items, timeout_sec, interval, log);
                Wait(cluster, old(jobs.items), timeout, interval, []) == rest.(rounds := rounds + rest.rounds)
    {
      rounds := rounds + 1;
      ghost var round := Poll(cluster, jobs.items, 0, log);
      var i := 0;
      var failed := false;
      while i < |jobs.items| && !failed
        invariant if failed then round == Round(jobs.items, true, log) else round == Poll(cluster, jobs.items, i, log)
        decreases |jobs.items| - i, !failed
      {
        var j := jobs.items[i];
        var pod := cluster(|log|, j);
        log := log + [Query(j, pod)];
        if pod.completed {
          jobs.Remove(j);
        }
        if pod.error {
          failed := true;
        } else {
          i := i + 1;
        }
      }
      if failed {
        return false, rounds, log;
      }
      if jobs.items == [] {
        return true, rounds, log;
      }
      timeout_sec := timeout_sec - interval;
    }
    ok := false;
  }

  // ---------------------------------------------------------------- soundness

  ghost predicate SeenCompleted(log: seq<Query>, j: string) {
    exists k | 0 <= k < |log| :: log[k].job == j && log[k].pod.completed
  }

  ghost predicate NoError(log: seq<Query>) {
    forall k | 0 <= k < |log| :: !log[k].pod.error
  }

  lemma {:induction false} RemoveKeepsOthers(jobs: seq<string>, j: string, x: string)
    requires x in jobs && x != j
    ensures x in RemoveFirst(jobs, j)
  {
    if jobs[0] != j && jobs[0] != x {
      RemoveKeepsOthers(jobs[1..], j, x);
    }
  }

  lemma SeenExtends(log: seq<Query>, q: Query, x: string)
    ensures SeenCompleted(log, x) ==> SeenCompleted(log + [q], x)
    ensures q.job == x && q.pod.completed ==> SeenCompleted(log + [q], x)
    ensures NoError(log + [q]) <==> NoError(log) && !q.pod.error
  {
    if SeenCompleted(log, x) {
      var k :| 0 <= k < |log| && log[k].job == x && log[k].pod.completed;
      assert (log + [q])[k] == log[k];
    }
    if q.job == x && q.pod.completed {
      assert (log + [q])[|log|] == q;
    }
    if NoError(log + [q]) {
      assert (log + [q])[|log|] == q;
      forall k | 0 <= k < |log| ensures !log[k].pod.error { assert (log + [q])[k] == log[k]; }
    }
  }

  /** A job leaves the list only after a query showed it completed, and the round fails exactly when
      a query showed an error. */
  lemma {:induction false} PollSound(cluster: Cluster, jobs: seq<string>, i: nat, log: seq<Query>, x: string)
    requires NoError(log)
    ensures var r := Poll(cluster, jobs, i, log);
            && (x in jobs ==> x in r.jobs || SeenCompleted(r.log, x))
            && (SeenCompleted(log, x) ==> SeenCompleted(r.log, x))
            && (r.failed <==> !NoError(r.log))
    decreases |jobs| - i
  {
    if i < |jobs| {
      var j := jobs[i];
      var q := Query(j, cluster(|log|, j));
      SeenExtends(log, q, x);
      if q.pod.completed && x in jobs && x != j {
        RemoveKeepsOthers(jobs, j, x);
      }
      if !q.pod.error {
        PollSound(cluster, if q.pod.completed then RemoveFirst(jobs, j) else jobs, i + 1, log + [q], x);
      }
    }
  }

  /** True is returned only if every job was seen Completed and none was seen in Error; an error seen
      for any job makes the result False. */
  lemma {:induction false} TrueIsSound(cluster: Cluster, jobs: seq<string>, timeout: int, interval: int, log: seq<Query>, x: string)
    requires interval > 0 && NoError(log)
    ensures var r := Wait(cluster, jobs, timeout, interval, log);
            && (r.ok ==> NoError(r.log))
            && (r.ok && (x in jobs || SeenCompleted(log, x)) ==> SeenCompleted(r.log, x))
    decreases timeout
  {
    if timeout > 0 {
      PollSound(cluster, jobs, 0, log, x);
      var r := Poll(cluster, jobs, 0, log);
      if !r.failed && r.jobs != [] {
        TrueIsSound(cluster, r.jobs, timeout - interval, interval, r.log, x);
      }
    }
  }

  ghost predicate NoneCompletes(cluster: Cluster) {
    forall q: nat, j: string :: !cluster(q, j).completed
  }

  /** The queries of a poll that starts at index i of jobs and finds nothing completed: the jobs from
      there on, each once and in order, to the first error or the end. */
  ghost predicate AsksInOrder(cluster: Cluster, jobs: seq<string>, i: nat, log: seq<Query>, r: Round)
    requires i <= |jobs|
  {
    && r.jobs == jobs && log <= r.log
    && (var asked := |r.log| - |log|;
        && i + asked <= |jobs|
        && (forall k | |log| <= k < |r.log| :: r.log[k] == Query(jobs[i + k - |log|], cluster(k, jobs[i + k - |log|])))
        && (forall k | |log| <= k < |r.log| - 1 :: !r.log[k].pod.error)
        && (if r.failed then asked > 0 && r.log[|r.log| - 1].pod.error
            else i + asked == |jobs| && (asked > 0 ==> !r.log[|r.log| - 1].pod.error)))
  }

  lemma {:induction false} PollAsksAll(cluster: Cluster, jobs: seq<string>, i: nat, log: seq<Query>)
    requires NoneCompletes(cluster) && i <= |jobs|
    ensures AsksInOrder(cluster, jobs, i, log, Poll(cluster, jobs, i, log))
    decreases |jobs| - i
  {
    if i < |jobs| {
      assert !cluster(|log|, jobs[i]).completed;
      var q := Query(jobs[i], cluster(|log|, jobs[i]));
      if !q.pod.error {
        PollAsksAll(cluster, jobs, i + 1, log + [q]);
      }
    }
  }

  /** The rounds that the timeout leaves time for. */
  function RoundsAllowed(timeout: int, interval: int): nat
    requires interval > 0
    decreases timeout
  {
    if timeout <= 0 then 0 else 1 + RoundsAllowed(timeout - interval, interval)
  }

  lemma {:induction false} RoundsAllowedIs(timeout: int, interval: int)
    requires interval > 0
    ensures var n := RoundsAllowed(timeout, interval);
            if timeout <= 0 then n == 0 else (n - 1) * interval < timeout <= n * interval
    decreases timeout
  {
    if timeout > 0 {
      RoundsAllowedIs(timeout - interval, interval);
      var n := RoundsAllowed(timeout - interval, interval);
      assert (n + 1) * interval == n * interval + interval;
      if n > 0 { assert n * interval == (n - 1) * interval + interval; }
    }
  }

  ghost predicate NoErrorBeforeLast(log: seq<Query>) {
    forall k | 0 <= k < |log| - 1 :: !log[k].pod.error
  }

  /** False is returned only because an error was seen, and then in the round that saw it, or because
      the time is up, and then after all the rounds there was time for. */
  lemma {:induction false} FalseMeans(cluster: Cluster, jobs: seq<string>, timeout: int, interval: int, log: seq<Query>)
    requires interval > 0 && NoError(log)
    ensures var r := Wait(cluster, jobs, timeout, interval, log);
            && r.rounds <= RoundsAllowed(timeout, interval)
            && (!r.ok && NoError(r.log) ==> r.rounds == RoundsAllowed(timeout, interval))
            && NoErrorBeforeLast(r.log)
    decreases timeout
  {
    if timeout > 0 {
      hide Poll;
      PollSound(cluster, jobs, 0, log, "");
      PollStopsAtError(cluster, jobs, 0, log);
      var r := Poll(cluster, jobs, 0, log);
      if !r.failed && r.jobs != [] {
        FalseMeans(cluster, r.jobs, timeout - interval, interval, r.log);
      }
    }
    assert NoErrorBeforeLast(log);
    hide NoError, NoErrorBeforeLast;
  }

  /** A round asks nothing more after an error. */
  lemma {:induction false} PollStopsAtError(cluster: Cluster, jobs: seq<string>, i: nat, log: seq<Query>)
    requires NoError(log)
    ensures NoErrorBeforeLast(Poll(cluster, jobs, i, log).log)
    decreases |jobs| - i
  {
    if i < |jobs| {
      var j := jobs[i];
      var q := Query(j, cluster(|log|, j));
      if q.pod.error {
        forall k | 0 <= k < |log| ensures !(log + [q])[k].pod.error { assert (log + [q])[k] == log[k]; }
        assert NoErrorBeforeLast(log + [q]);
      } else {
        SeenExtends(log, q, j);
        PollStopsAtError(cluster, if q.pod.completed then RemoveFirst(jobs, j) else jobs, i + 1, log + [q]);
      }
    } else {
      assert NoErrorBeforeLast(log);
    }
    hide NoErrorBeforeLast;
  }

  // ---------------------------------------------------------------- finished jobs

  predicate Distinct(jobs: seq<string>) {
    forall a, b | 0 <= a < b < |jobs| :: jobs[a] != jobs[b]
  }

  ghost predicate AllFinished(cluster: Cluster) {
    forall q: nat, j: string :: cluster(q, j) == Pod(true, false)
  }

  /** The elements at odd positions. */
  function Odds(s: seq<string>): (r: seq<string>)
    ensures |r| == |s| / 2
  {
    if |s| <= 1 then [] else [s[1]] + Odds(s[2..])
  }

  lemma {:induction false} RemoveDistinct(jobs: seq<string>, i: nat)
    requires Distinct(jobs) && i < |jobs|
    ensures RemoveFirst(jobs, jobs[i]) == jobs[..i] + jobs[i + 1..]
  {
    if i > 0 {
      assert jobs[1..][i - 1] == jobs[i];
      RemoveDistinct(jobs[1..], i - 1);
      assert jobs[..i] == [jobs[0]] + jobs[1..][..i - 1];
      assert jobs[1..][i..] == jobs[i + 1..];
    }
  }

  lemma StaysDistinct(jobs: seq<string>, i: nat)
    requires Distinct(jobs) && i < |jobs|
    ensures Distinct(jobs[..i] + jobs[i + 1..])
  {
    var rest := jobs[..i] + jobs[i + 1..];
    forall a, b | 0 <= a < b < |rest| ensures rest[a] != rest[b] {
      assert rest[a] == jobs[if a < i then a else a + 1];
      assert rest[b] == jobs[if b < i then b else b + 1];
    }
  }

  /** What the loop continues with after removing job i: the next job is now behind the index. */
  lemma SkipOne(jobs: seq<string>, i: nat)
    requires i + 1 < |jobs|
    ensures var rest := jobs[..i] + jobs[i + 1..];
            rest[..i + 1] + Odds(rest[i + 1..]) == jobs[..i] + Odds(jobs[i..])
  {
    hide Odds;
    var rest := jobs[..i] + jobs[i + 1..];
    var tail := jobs[i..];
    OddsStep(tail);
    assert tail[2..] == rest[i + 1..];
    assert rest[..i + 1] == jobs[..i] + [tail[1]];
    assert jobs[..i] + [tail[1]] + Odds(tail[2..]) == jobs[..i] + ([tail[1]] + Odds(tail[2..]));
  }

  lemma OddsStep(s: seq<string>)
    requires |s| >= 2
    ensures Odds(s) == [s[1]] + Odds(s[2..])
  {
  }

  lemma PollOnce(cluster: Cluster, jobs: seq<string>, i: nat, log: seq<Query>)
    requires AllFinished(cluster) && i < |jobs|
    ensures Poll(cluster, jobs, i, log) ==
            Poll(cluster, RemoveFirst(jobs, jobs[i]), i + 1, log + [Query(jobs[i], Pod(true, false))])
  {
    assert cluster(|log|, jobs[i]) == Pod(true, false);
  }

  /** From index i the loop removes every second job. */
  lemma {:induction false} PollSkips(cluster: Cluster, jobs: seq<string>, i: nat, log: seq<Query>)
    requires AllFinished(cluster) && Distinct(jobs) && i <= |jobs|
    ensures var r := Poll(cluster, jobs, i, log);
            !r.failed && r.jobs == jobs[..i] + Odds(jobs[i..])
    decreases |jobs| - i
  {
    if i < |jobs| {
      RemoveDistinct(jobs, i);
      StaysDistinct(jobs, i);
      PollOnce(cluster, jobs, i, log);
      hide AllFinished, Distinct;
      var rest := jobs[..i] + jobs[i + 1..];
      if i + 1 < |jobs| {
        hide Poll, Odds;
        PollSkips(cluster, rest, i + 1, log + [Query(jobs[i], Pod(true, false))]);
        SkipOne(jobs, i);
      } else {
        assert rest == jobs[..i];
      }
    }
  }

  /** A poll of m distinct finished jobs removes exactly the ceil(m/2) at even positions. */
  lemma PollRemovesHalf(cluster: Cluster, jobs: seq<string>, log: seq<Query>)
    requires AllFinished(cluster) && Distinct(jobs)
    ensures var r := Poll(cluster, jobs, 0, log);
            && !r.failed && r.jobs == Odds(jobs)
            && |jobs| - |r.jobs| == (|jobs| + 1) / 2
            && (forall k | 0 <= k < |r.jobs| :: r.jobs[k] == jobs[2 * k + 1])
            && Distinct(r.jobs)
  {
    PollSkips(cluster, jobs, 0, log);
    hide Poll, Odds;
    assert jobs[0..] == jobs;
    assert jobs[..0] + Odds(jobs) == Odds(jobs);
    var odds := Odds(jobs);
    forall k | 0 <= k < |odds| ensures odds[k] == jobs[2 * k + 1] {
      OddsAt(jobs, k);
    }
    forall a, b | 0 <= a < b < |odds| ensures odds[a] != odds[b] {
      assert jobs[2 * a + 1] != jobs[2 * b + 1];
    }
  }

  lemma {:induction false} OddsAt(s: seq<string>, k: nat)
    requires k < |s| / 2
    ensures Odds(s)[k] == s[2 * k + 1]
  {
    if k > 0 {
      OddsAt(s[2..], k - 1);
    }
  }

  /** floor(log2 n). */
  function Log2(n: nat): nat
    requires n > 0
  {
    if n == 1 then 0 else 1 + Log2(n / 2)
  }

  /** n >= 1 distinct finished jobs are reported complete if and only if the timeout exceeds
      interval * floor(log2 n), and then after exactly floor(log2 n) + 1 rounds. */
  lemma {:induction false} FinishedJobsRounds(cluster: Cluster, jobs: seq<string>, timeout: int, interval: int, log: seq<Query>)
    requires AllFinished(cluster) && Distinct(jobs) && |jobs| > 0 && interval > 0
    ensures var r := Wait(cluster, jobs, timeout, interval, log);
            && (r.ok <==> timeout > interval * Log2(|jobs|))
            && (r.ok ==> r.rounds == Log2(|jobs|) + 1)
    decreases |jobs|
  {
    hide Poll, Log2, AllFinished, Distinct, Wait;
    PollRemovesHalf(cluster, jobs, log);
    LogStep(interval, |jobs|);
    WaitOnce(cluster, jobs, timeout, interval, log);
    if |jobs| > 1 && timeout > 0 {
      var r := Poll(cluster, jobs, 0, log);
      FinishedJobsRounds(cluster, r.jobs, timeout - interval, interval, r.log);
    }
  }

  /** One round of the wait. */
  lemma WaitOnce(cluster: Cluster, jobs: seq<string>, timeout: int, interval: int, log: seq<Query>)
    requires interval > 0
    ensures var w := Wait(cluster, jobs, timeout, interval, log);
            var r := Poll(cluster, jobs, 0, log);
            && (timeout <= 0 ==> !w.ok)
            && (timeout > 0 && !r.failed && r.jobs == [] ==> w.ok && w.rounds == 1)
            && (timeout > 0 && !r.failed && r.jobs != [] ==>
                  var rest := Wait(cluster, r.jobs, timeout - interval, interval, r.log);
                  w.ok == rest.ok && w.rounds == rest.rounds + 1)
  {
    hide Poll;
  }

  lemma LogStep(interval: int, n: nat)
    requires n > 0 && interval > 0
    ensures interval * Log2(n) >= 0
    ensures n > 1 ==> interval * Log2(n) == interval * Log2(n / 2) + interval && Log2(n) == Log2(n / 2) + 1
    ensures n == 1 ==> interval * Log2(n) == 0 && Log2(n) == 0
  {
    assert n > 1 ==> Log2(n) == Log2(n / 2) + 1;
    assert n == 1 ==> Log2(n) == 0;
    hide Log2;
    Product(interval, Log2(n));
    if n > 1 {
      Product(interval, Log2(n / 2));
    }
  }

  lemma Product(a: int, k: nat)
    requires a > 0
    ensures a * k >= 0 && a * (k + 1) == a * k + a
  {
  }
}
