/** The retry combinator of recovery.py:116-124.

    retry calls an operation up to `attempts` times with the same arguments. A call that
    returns ends retry with that value; a call that raises RecoveryError is followed by a
    sleep of `delay` and the next attempt; any other exception leaves retry at once. After
    the last failed attempt (and its sleep) retry raises RecoveryError "Failed after N
    attempts.". The operation is given as the outcome of each call by its index, so that
    every call may see a different outside world; sleeping is recorded in a trace instead
    of being done.
 */
module Retry {
  import opened Errors

  /** The keyword defaults of retry (recovery.py:116). */
  const DefaultAttempts: int := 3
  const DefaultDelay: int := 1

  /** One step retry takes: calling the operation for the index-th time, or sleeping. */
  datatype Event = Call(index: nat) | Sleep(delay: int)

  /** What retry returned or raised, and the calls and sleeps it made, in order. */
  datatype RetryRun<T> = RetryRun(outcome: Outcome<T>, trace: seq<Event>)

  /** The longest sleep, in whole seconds, whose length in nanoseconds fits in a signed
      64-bit integer: time.sleep converts its argument to that before anything else. */
  const MaxSleep: int := 9223372036

  /** The exception time.sleep(delay) raises for an integer delay, if any: OverflowError when
      the length in nanoseconds leaves the signed 64-bit range (checked first), otherwise
      ValueError for a negative length. */
  function SleepFault(delay: int): (fault: Option<string>)
    ensures fault.None? <==> 0 <= delay <= MaxSleep
    ensures fault == Some(NegativeSleep) <==> -MaxSleep <= delay < 0
    ensures fault == Some(SleepOverflow) <==> delay < -MaxSleep || MaxSleep < delay
  {
    if delay < -MaxSleep || MaxSleep < delay then Some(SleepOverflow)
    else if delay < 0 then Some(NegativeSleep)
    else None
  }

  /** The loop of retry from its i-th iteration on. When time.sleep raises, that exception,
      raised inside the handler, leaves retry. */
  function RetryFrom<T>(op: nat -> Outcome<T>, attempts: int, delay: int, i: nat): (r: RetryRun<T>)
    decreases attempts - i
    ensures |r.trace| <= if attempts > i then 2 * (attempts - i) else 0
    ensures r.trace != [] ==> r.trace[0] == Call(i)
    ensures r.outcome.IsRecoveryError() ==> r.outcome == Raised(Recovery(RetryExhausted(attempts)))
  {
    if i >= attempts then RetryRun(Raised(Recovery(RetryExhausted(attempts))), [])
    else if !op(i).IsRecoveryError() then RetryRun(op(i), [Call(i)])
    else if SleepFault(delay).Some? then RetryRun(Raised(Foreign(SleepFault(delay).value)), [Call(i)])
    else
      var rest := RetryFrom(op, attempts, delay, i + 1);
      RetryRun(rest.outcome, [Call(i), Sleep(delay)] + rest.trace)
  }

  /** retry(func, *args, attempts, delay): the for loop over range(attempts) with its early
      return and a sleep after every RecoveryError (recovery.py:116-124). */
  method Retry<T>(op: nat -> Outcome<T>, attempts: int, delay: int)
    returns (outcome: Outcome<T>, trace: seq<Event>)
    ensures RetryRun(outcome, trace) == RetryFrom(op, attempts, delay, 0)
  {
    trace := [];
    var i: nat := 0;
    while i < attempts
      invariant RetryFrom(op, attempts, delay, 0).outcome == RetryFrom(op, attempts, delay, i).outcome
      invariant RetryFrom(op, attempts, delay, 0).trace == trace + RetryFrom(op, attempts, delay, i).trace
    {
      var o := op(i);
      trace := trace + [Call(i)];
      if !o.IsRecoveryError() {
        outcome := o;
        return;
      }
      var fault := SleepFault(delay);
      if fault.Some? {
        outcome := Raised(Foreign(fault.value));
        return;
      }
      assert RetryFrom(op, attempts, delay, i).trace == [Call(i), Sleep(delay)] + RetryFrom(op, attempts, delay, i + 1).trace;
      trace := trace + [Sleep(delay)];
      i := i + 1;
    }
    outcome := Raised(Recovery(RetryExhausted(attempts)));
  }

  // ---------------------------------------------------------------------------------
  // Traces

  /** The trace of attempts i .. k-1 when each of them raised RecoveryError: a call and a sleep each. */
  function Rounds(i: nat, k: int, delay: int): seq<Event>
    decreases k - i
  {
    if i >= k then [] else [Call(i), Sleep(delay)] + Rounds(i + 1, k, delay)
  }

  function CallCount(t: seq<Event>): nat {
    if t == [] then 0 else (if t[0].Call? then 1 else 0) + CallCount(t[1..])
  }

  function SleepCount(t: seq<Event>): nat {
    if t == [] then 0 else (if t[0].Sleep? then 1 else 0) + SleepCount(t[1..])
  }

  lemma {:induction false} CountsAppend(s: seq<Event>, t: seq<Event>)
    ensures CallCount(s + t) == CallCount(s) + CallCount(t)
    ensures SleepCount(s + t) == SleepCount(s) + SleepCount(t)
  {
    if s == [] {
      assert s + t == t;
    } else {
      CountsAppend(s[1..], t);
      assert (s + t)[1..] == s[1..] + t;
    }
  }

  /** Failed attempts i .. k-1 make k - i calls and k - i sleeps, alternating, with the
      call indices in increasing order. */
  lemma {:induction false} RoundsShape(i: nat, k: int, delay: int)
    requires i <= k
    decreases k - i
    ensures |Rounds(i, k, delay)| == 2 * (k - i)
    ensures CallCount(Rounds(i, k, delay)) == k - i && SleepCount(Rounds(i, k, delay)) == k - i
    ensures forall j :: 0 <= j < k - i ==>
      Rounds(i, k, delay)[2 * j] == Call(i + j) && Rounds(i, k, delay)[2 * j + 1] == Sleep(delay)
  {
    if i < k {
      RoundsShape(i + 1, k, delay);
      var rest := Rounds(i + 1, k, delay);
      CountsAppend([Call(i), Sleep(delay)], rest);
      forall j | 0 < j < k - i
        ensures Rounds(i, k, delay)[2 * j] == Call(i + j) && Rounds(i, k, delay)[2 * j + 1] == Sleep(delay)
      {
        assert Rounds(i, k, delay)[2 * j] == rest[2 * (j - 1)];
        assert Rounds(i, k, delay)[2 * j + 1] == rest[2 * (j - 1) + 1];
      }
    }
  }

  // ---------------------------------------------------------------------------------
  // What retry promises

  /** If the calls before the k-th (counting from i) all raise RecoveryError and the k-th
      returns or raises anything else, retry ends with exactly that outcome, unchanged, after
      the failed rounds and one more call. */
  lemma {:induction false} RetryStopsAtFirstNonRecovery<T>(op: nat -> Outcome<T>, attempts: int, delay: int, i: nat, k: nat)
    requires i <= k < attempts && (0 <= delay <= MaxSleep || k == i)
    requires forall j :: i <= j < k ==> op(j).IsRecoveryError()
    requires !op(k).IsRecoveryError()
    decreases k - i
    ensures RetryFrom(op, attempts, delay, i) == RetryRun(op(k), Rounds(i, k, delay) + [Call(k)])
  {
    if i < k {
      RetryStopsAtFirstNonRecovery(op, attempts, delay, i + 1, k);
    }
  }

  /** The first attempt that returns wins: its value comes back unchanged after exactly k+1
      calls and k sleeps. */
  lemma RetryReturnsFirstSuccess<T>(op: nat -> Outcome<T>, attempts: int, delay: int, k: nat, v: T)
    requires k < attempts && (0 <= delay <= MaxSleep || k == 0)
    requires forall j :: 0 <= j < k ==> op(j).IsRecoveryError()
    requires op(k) == Returned(v)
    ensures RetryFrom(op, attempts, delay, 0).outcome == Returned(v)
    ensures CallCount(RetryFrom(op, attempts, delay, 0).trace) == k + 1
    ensures SleepCount(RetryFrom(op, attempts, delay, 0).trace) == k
  {
    RetryStopsAtFirstNonRecovery(op, attempts, delay, 0, k);
    RoundsShape(0, k, delay);
    CountsAppend(Rounds(0, k, delay), [Call(k)]);
  }

  /** retry catches RecoveryError only: any other exception leaves it the first time it is
      raised, with no sleep after it and no further attempt. */
  lemma RetryPropagatesOtherErrors<T>(op: nat -> Outcome<T>, attempts: int, delay: int, k: nat, e: Error)
    requires k < attempts && (0 <= delay <= MaxSleep || k == 0)
    requires forall j :: 0 <= j < k ==> op(j).IsRecoveryError()
    requires op(k) == Raised(e) && !e.Recovery?
    ensures RetryFrom(op, attempts, delay, 0).outcome == Raised(e)
    ensures CallCount(RetryFrom(op, attempts, delay, 0).trace) == k + 1
    ensures SleepCount(RetryFrom(op, attempts, delay, 0).trace) == k
    ensures RetryFrom(op, attempts, delay, 0).trace[|RetryFrom(op, attempts, delay, 0).trace| - 1] == Call(k)
  {
    RetryStopsAtFirstNonRecovery(op, attempts, delay, 0, k);
    RoundsShape(0, k, delay);
    CountsAppend(Rounds(0, k, delay), [Call(k)]);
  }

  /** When every attempt raises RecoveryError, retry calls the operation `attempts` times,
      sleeps after each call including the last, and then raises "Failed after N attempts.";
      with attempts <= 0 it calls nothing. */
  lemma {:induction false} RetryExhausts<T>(op: nat -> Outcome<T>, attempts: int, delay: int, i: nat)
    requires 0 <= delay <= MaxSleep
    requires forall j :: i <= j < attempts ==> op(j).IsRecoveryError()
    decreases attempts - i
    ensures RetryFrom(op, attempts, delay, i) ==
      RetryRun(Raised(Recovery(RetryExhausted(attempts))), Rounds(i, attempts, delay))
  {
    if i < attempts {
      RetryExhausts(op, attempts, delay, i + 1);
    }
  }

  lemma RetryExhaustionCounts<T>(op: nat -> Outcome<T>, attempts: int, delay: int)
    requires 0 <= delay <= MaxSleep
    requires forall j :: 0 <= j < attempts ==> op(j).IsRecoveryError()
    ensures RetryFrom(op, attempts, delay, 0).outcome == Raised(Recovery(RetryExhausted(attempts)))
    ensures CallCount(RetryFrom(op, attempts, delay, 0).trace) == if attempts > 0 then attempts else 0
    ensures SleepCount(RetryFrom(op, attempts, delay, 0).trace) == if attempts > 0 then attempts else 0
  {
    RetryExhausts(op, attempts, delay, 0);
    if attempts > 0 {
      RoundsShape(0, attempts, delay);
    }
  }

  /** retry with its default arguments: an operation that keeps raising RecoveryError is
      called three times, each call followed by a sleep of one time unit, and then retry
      gives up. */
  lemma RetryDefaultsExhaust<T>(op: nat -> Outcome<T>)
    requires forall j :: 0 <= j < DefaultAttempts ==> op(j).IsRecoveryError()
    ensures RetryFrom(op, DefaultAttempts, DefaultDelay, 0) ==
      RetryRun(Raised(Recovery(RetryExhausted(3))), [Call(0), Sleep(1), Call(1), Sleep(1), Call(2), Sleep(1)])
  {
    RetryExhausts(op, DefaultAttempts, DefaultDelay, 0);
  }

  /** A negative delay makes the first sleep raise ValueError, which is not a RecoveryError:
      retry then stops after one call. */
  lemma RetryNegativeDelayStopsAtFirstSleep<T>(op: nat -> Outcome<T>, attempts: int, delay: int)
    requires 0 < attempts && -MaxSleep <= delay < 0 && op(0).IsRecoveryError()
    ensures RetryFrom(op, attempts, delay, 0) == RetryRun(Raised(Foreign(NegativeSleep)), [Call(0)])
  {
  }

  /** A delay too long for time.sleep, positive or negative, makes the first sleep raise
      OverflowError, which likewise leaves retry after one call. */
  lemma RetryHugeDelayStopsAtFirstSleep<T>(op: nat -> Outcome<T>, attempts: int, delay: int)
    requires 0 < attempts && (delay < -MaxSleep || MaxSleep < delay) && op(0).IsRecoveryError()
    ensures RetryFrom(op, attempts, delay, 0) == RetryRun(Raised(Foreign(SleepOverflow)), [Call(0)])
  {
  }

  /** Whatever happens, retry never makes more than `attempts` calls, never sleeps more often
      than it calls, never lets the operation's own RecoveryError escape, and returns only a
      value some attempt returned. */
  lemma {:induction false} RetryBounds<T>(op: nat -> Outcome<T>, attempts: int, delay: int, i: nat)
    decreases attempts - i
    ensures var r := RetryFrom(op, attempts, delay, i);
      && CallCount(r.trace) <= (if attempts > i then attempts - i else 0)
      && SleepCount(r.trace) <= CallCount(r.trace)
      && (r.outcome.IsRecoveryError() ==> r.outcome == Raised(Recovery(RetryExhausted(attempts))))
      && (r.outcome.Returned? ==> exists k :: i <= k < attempts && op(k) == r.outcome)
  {
    if i < attempts && op(i).IsRecoveryError() && SleepFault(delay).None? {
      RetryBounds(op, attempts, delay, i + 1);
      var rest := RetryFrom(op, attempts, delay, i + 1);
      CountsAppend([Call(i), Sleep(delay)], rest.trace);
      if rest.outcome.Returned? {
        var k :| i + 1 <= k < attempts && op(k) == rest.outcome;
      }
    } else if i < attempts {
      assert RetryFrom(op, attempts, delay, i).trace == [Call(i)];
      assert CallCount([Call(i)]) == 1;
    }
  }

  /** For an operation whose only exceptions are RecoveryError, retry succeeds exactly when
      one of the first `attempts` calls returns, and otherwise ends in exhaustion after
      `attempts` calls and `attempts` sleeps. */
  lemma RetryOfRecoverableOp<T>(op: nat -> Outcome<T>, attempts: int, delay: int)
    requires 0 <= delay <= MaxSleep
    requires forall j :: 0 <= j < attempts ==> op(j).Returned? || op(j).IsRecoveryError()
    ensures var r := RetryFrom(op, attempts, delay, 0);
      && (r.outcome.Returned? <==> exists k :: 0 <= k < attempts && op(k).Returned?)
      && (r.outcome.Raised? ==>
            && r.outcome == Raised(Recovery(RetryExhausted(attempts)))
            && CallCount(r.trace) == SleepCount(r.trace) == if attempts > 0 then attempts else 0)
  {
    var r := RetryFrom(op, attempts, delay, 0);
    if exists k :: 0 <= k < attempts && op(k).Returned? {
      var k := FirstReturn(op, attempts);
      RetryReturnsFirstSuccess(op, attempts, delay, k, op(k).value);
    } else {
      RetryExhaustionCounts(op, attempts, delay);
    }
  }

  /** The index of the first call that returns, below a bound. */
  lemma {:induction false} FirstReturnExists<T>(op: nat -> Outcome<T>, n: int, k: nat)
    requires k < n && op(k).Returned?
    ensures exists m: nat :: m < n && op(m).Returned? && forall j :: 0 <= j < m ==> !op(j).Returned?
    decreases k
  {
    if exists j :: 0 <= j < k && op(j).Returned? {
      var j :| 0 <= j < k && op(j).Returned?;
      FirstReturnExists(op, n, j);
    }
  }

  ghost function FirstReturn<T>(op: nat -> Outcome<T>, n: int): (m: nat)
    requires exists k :: 0 <= k < n && op(k).Returned?
    ensures m < n && op(m).Returned? && forall j :: 0 <= j < m ==> !op(j).Returned?
  {
    var k :| 0 <= k < n && op(k).Returned?;
    FirstReturnExists(op, n, k);
    var m: nat :| m < n && op(m).Returned? && forall j :: 0 <= j < m ==> !op(j).Returned?;
    m
  }
}
