/** retry: run a fallible operation up to a given number of times, sleeping
    a fixed interval between failed attempts, and stop at the first success. */
module Retrying {
  import opened Responses
  import opened Client

  /** retryCount and retryInterval of the source; the interval is counted,
      not waited. */
  const RETRY_COUNT := 3
  const RETRY_INTERVAL_SECONDS := 2

  /** What a run of retry amounts to: its result, how many times it called
      the operation and how many times it slept. */
  datatype RetryRun<+T> = RetryRun(result: Attempt<T>, calls: nat, sleeps: nat)

  /** The run of retry's loop from iteration `i` on, when the operation's
      `j`-th call has outcome `call(j)`. Counts are those of the iterations
      from `i`. */
  function RetryFrom<T>(attempts: int, i: nat, call: nat -> Attempt<T>): RetryRun<T>
    decreases if i < attempts then attempts - i else 0
  {
    if i >= attempts then RetryRun(Fail(RetriesExhausted), 0, 0)
    else match call(i)
      case Ok(v) => RetryRun(Ok(v), 1, 0)
      case Fail(e) =>
        if i < attempts - 1 then
          var rest := RetryFrom(attempts, i + 1, call);
          RetryRun(rest.result, rest.calls + 1, rest.sleeps + 1)
        else RetryRun(Fail(e), 1, 0)
  }

  /** The whole run of retry(attempts, ...). */
  function RunRetry<T>(attempts: int, call: nat -> Attempt<T>): RetryRun<T>
  {
    RetryFrom(attempts, 0, call)
  }

  /** The complete description of a run from iteration `i`: it makes no call
      when no attempt is left; otherwise it makes at most the attempts left,
      with every call but the last failing, and its result is the outcome of
      its last call; it ends on a failure only when the attempts are used up;
      it sleeps once before every call but the first. */
  lemma {:induction false} RetryFromShape<T>(attempts: int, i: nat, call: nat -> Attempt<T>)
    ensures var run := RetryFrom(attempts, i, call);
      && (run.calls == 0 <==> attempts <= i)
      && (run.calls == 0 ==> run.result == Fail(RetriesExhausted) && run.sleeps == 0)
      && (run.calls > 0 ==>
            && i + run.calls <= attempts
            && run.result == call(i + run.calls - 1)
            && (forall j :: i <= j < i + run.calls - 1 ==> call(j).Fail?)
            && (run.result.Fail? ==> i + run.calls == attempts)
            && run.sleeps == run.calls - 1)
    decreases if i < attempts then attempts - i else 0
  {
    if i < attempts && call(i).Fail? && i < attempts - 1 {
      RetryFromShape(attempts, i + 1, call);
    }
  }

  /** At most `attempts` calls, and at most one sleep fewer. */
  lemma RetryBounds<T>(attempts: int, call: nat -> Attempt<T>)
    ensures var run := RunRetry(attempts, call);
      run.calls <= (if attempts < 0 then 0 else attempts) &&
      run.sleeps <= (if attempts < 1 then 0 else attempts - 1)
  {
    RetryFromShape(attempts, 0, call);
  }

  /** Success comes from the first call that succeeds, and no call is made
      after it; success is reported iff some allowed attempt succeeds. */
  lemma RetryStopsAtFirstSuccess<T>(attempts: int, call: nat -> Attempt<T>)
    ensures var run := RunRetry(attempts, call);
      (run.result.Ok? <==> exists k :: 0 <= k < attempts && call(k).Ok?) &&
      (run.result.Ok? ==>
         run.calls >= 1 && call(run.calls - 1) == run.result &&
         forall j :: 0 <= j < run.calls - 1 ==> call(j).Fail?)
  {
    var run := RunRetry(attempts, call);
    RetryFromShape(attempts, 0, call);
    if run.result.Fail? && run.calls > 0 {
      assert run.calls == attempts;
      assert forall j :: 0 <= j < attempts ==> call(j).Fail?;
    }
  }

  /** When every allowed attempt fails, retry makes exactly `attempts` calls,
      sleeps between them, and returns the error of the last call. */
  lemma RetryReturnsLastError<T>(attempts: int, call: nat -> Attempt<T>)
    requires attempts >= 1
    requires forall j :: 0 <= j < attempts ==> call(j).Fail?
    ensures RunRetry(attempts, call) == RetryRun(call(attempts - 1), attempts, attempts - 1)
  {
    RetryFromShape(attempts, 0, call);
    var run := RunRetry(attempts, call);
    assert run.result == call(run.calls - 1);
  }

  /** With no attempt allowed, retry calls nothing and reports exhaustion. */
  lemma RetryWithoutAttempts<T>(attempts: int, call: nat -> Attempt<T>)
    requires attempts <= 0
    ensures RunRetry(attempts, call) == RetryRun(Fail(RetriesExhausted), 0, 0)
  {
  }

  /** The worst-case time spent sleeping, with three attempts 2 s apart. */
  lemma RetrySleepsAtMostFourSeconds<T>(call: nat -> Attempt<T>)
    ensures RunRetry(RETRY_COUNT, call).sleeps * RETRY_INTERVAL_SECONDS <= 4
  {
    RetryBounds(RETRY_COUNT, call);
  }

  /** An operation that fails twice and then succeeds: three calls, two
      sleeps, success. */
  lemma FailTwiceThenSucceed<T>(call: nat -> Attempt<T>)
    requires call(0).Fail? && call(1).Fail? && call(2).Ok?
    ensures RunRetry(RETRY_COUNT, call) == RetryRun(call(2), 3, 2)
  {
  }

  /** The outcome of the `j`-th call of an operation that sends one request
      and reads the reply with `interpret`, against a cluster whose script of
      replies is `script`. */
  function CallsOn<T>(script: seq<Reply>, interpret: Reply -> Attempt<T>): nat -> Attempt<T>
  {
    (j: nat) => interpret(ReplyAt(script, j))
  }

  /** retry(attempts, sleep, fn) where fn sends `request` to the cluster and
      interprets the reply (indexExists, createIndexWithMapping). Returns the
      operation's final outcome and the number of sleeps. */
  method Retry<T>(attempts: int, cluster: Cluster, request: Request, interpret: Reply -> Attempt<T>)
    returns (r: Attempt<T>, sleeps: nat)
    modifies cluster
    ensures var run := RunRetry(attempts, CallsOn(old(cluster.replies), interpret));
      && r == run.result && sleeps == run.sleeps
      && cluster.sent == old(cluster.sent) + Repeat(request, run.calls)
      && cluster.replies == Drop(old(cluster.replies), run.calls)
  {
    ghost var script := cluster.replies;
    ghost var call := CallsOn(script, interpret);
    sleeps := 0;
    var i := 0;
    while i < attempts
      invariant 0 <= i && (i > 0 ==> i < attempts)
      invariant sleeps == i
      invariant cluster.sent == old(cluster.sent) + Repeat(request, i)
      invariant cluster.replies == Drop(script, i)
      invariant var here := RetryFrom(attempts, i, call);
        RunRetry(attempts, call) == RetryRun(here.result, here.calls + i, here.sleeps + i)
    {
      var reply := cluster.Send(request);
      ReplyAtDrop(script, i, 0);
      DropDrop(script, i, 1);
      var outcome := interpret(reply);
      assert outcome == call(i);
      if outcome.Fail? {
        if i < attempts - 1 {
          sleeps := sleeps + 1;
          i := i + 1;
          continue;
        }
        r := outcome;
        return;
      }
      r := outcome;
      return;
    }
    r := Fail(RetriesExhausted);
  }
}
