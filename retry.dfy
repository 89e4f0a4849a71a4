/** The retry_with_backoff decorator: call an operation until it returns,
    at most max_retries times, sleeping between failed calls for a backoff
    that grows by a constant factor. The operation is an oracle giving the
    outcome of each numbered call; the sleeps are returned as a list. */
module Retry {

  /** One call of the wrapped operation: a value, or a raised exception. */
  datatype Attempt<T, E> = Ok(value: T) | Raise(error: E)

  /** How the wrapper ends: it returns the operation's value, re-raises the
      last exception, or (with no attempts allowed) returns None. */
  datatype Outcome<T, E> = Returned(value: T) | Reraised(error: E) | NoneReturned

  /** The outcome and the number of calls made, from call i on, once calls
      0 .. i-1 have all raised. */
  function RunFrom<T, E>(op: nat -> Attempt<T, E>, maxRetries: int, i: nat): (Outcome<T, E>, nat)
    requires i < maxRetries
    decreases maxRetries - i
  {
    match op(i)
    case Ok(v) => (Returned(v), i + 1)
    case Raise(e) =>
      if i + 1 >= maxRetries then (Reraised(e), i + 1) else RunFrom(op, maxRetries, i + 1)
  }

  /** The outcome of the wrapped call and the number of calls it made. */
  function Retried<T, E>(op: nat -> Attempt<T, E>, maxRetries: int): (Outcome<T, E>, nat) {
    if maxRetries <= 0 then (NoneReturned, 0) else RunFrom(op, maxRetries, 0)
  }

  function Pow(x: real, n: nat): real {
    if n == 0 then 1.0 else Pow(x, n - 1) * x
  }

  /** The backoff before retry i + 1: the first backoff, multiplied by the
      factor once per earlier sleep. */
  function Backoff(initial: real, factor: real, i: nat): real {
    if i == 0 then initial else Backoff(initial, factor, i - 1) * factor
  }

  /** The first n sleeps, in order. */
  function Backoffs(initial: real, factor: real, n: nat): (r: seq<real>)
    ensures |r| == n
  {
    if n == 0 then [] else Backoffs(initial, factor, n - 1) + [Backoff(initial, factor, n - 1)]
  }

  /** The i-th sleep (from 0) lasts initial_backoff * backoff_factor^i. */
  lemma {:induction false} BackoffsArePowers(initial: real, factor: real, n: nat, i: nat)
    requires i < n
    ensures Backoffs(initial, factor, n)[i] == initial * Pow(factor, i)
  {
    BackoffAt(initial, factor, n, i);
    BackoffIsPower(initial, factor, i);
  }

  lemma {:induction false} BackoffAt(initial: real, factor: real, n: nat, i: nat)
    requires i < n
    ensures Backoffs(initial, factor, n)[i] == Backoff(initial, factor, i)
  {
    if i < n - 1 {
      BackoffAt(initial, factor, n - 1, i);
    }
  }

  lemma {:induction false} BackoffIsPower(initial: real, factor: real, i: nat)
    ensures Backoff(initial, factor, i) == initial * Pow(factor, i)
  {
    if i > 0 {
      BackoffIsPower(initial, factor, i - 1);
      var p := Pow(factor, i - 1);
      assert Pow(factor, i) == p * factor;
      assert Backoff(initial, factor, i) == (initial * p) * factor;
      assert (initial * p) * factor == initial * (p * factor);
    }
  }

  /** The wrapper's loop. Returns the outcome, how many times the operation
      was called and the list of sleeps it made. */
  method RetryWithBackoff<T, E>(op: nat -> Attempt<T, E>, maxRetries: int,
                                initialBackoff: real, backoffFactor: real)
    returns (outcome: Outcome<T, E>, calls: nat, sleeps: seq<real>)
    ensures (outcome, calls) == Retried(op, maxRetries)
    ensures sleeps == Backoffs(initialBackoff, backoffFactor, if calls == 0 then 0 else calls - 1)
  {
    var retries: nat := 0;
    var backoff := initialBackoff;
    calls, sleeps := 0, [];
    while retries < maxRetries
      invariant calls == retries
      invariant retries > 0 ==> retries < maxRetries && Retried(op, maxRetries) == RunFrom(op, maxRetries, retries)
      invariant sleeps == Backoffs(initialBackoff, backoffFactor, retries)
      invariant backoff == Backoff(initialBackoff, backoffFactor, retries)
    {
      var attempt := op(retries);
      calls := calls + 1;
      match attempt {
        case Ok(v) =>
          outcome := Returned(v);
          return;
        case Raise(e) =>
          retries := retries + 1;
          if retries >= maxRetries {
            outcome := Reraised(e);
            return;
          }
          sleeps := sleeps + [backoff];
          backoff := backoff * backoffFactor;
      }
    }
    outcome := NoneReturned;
  }

  /** If call k is the first that returns, the wrapper returns its value
      after exactly k + 1 calls (and so k sleeps). */
  lemma {:induction false} FirstSuccessWins<T, E>(op: nat -> Attempt<T, E>, maxRetries: int, k: nat)
    requires k < maxRetries && op(k).Ok?
    requires forall j :: 0 <= j < k ==> op(j).Raise?
    ensures Retried(op, maxRetries) == (Returned(op(k).value), k + 1)
  {
    RunFromFirstSuccess(op, maxRetries, 0, k);
  }

  lemma {:induction false} RunFromFirstSuccess<T, E>(op: nat -> Attempt<T, E>, maxRetries: int, i: nat, k: nat)
    requires i <= k < maxRetries && op(k).Ok?
    requires forall j :: i <= j < k ==> op(j).Raise?
    ensures RunFrom(op, maxRetries, i) == (Returned(op(k).value), k + 1)
    decreases k - i
  {
    if i < k {
      RunFromFirstSuccess(op, maxRetries, i + 1, k);
    }
  }

  /** If every allowed call raises, the wrapper re-raises the last
      exception after exactly max_retries calls (and max_retries - 1 sleeps). */
  lemma {:induction false} AllFailReraises<T, E>(op: nat -> Attempt<T, E>, maxRetries: int)
    requires maxRetries >= 1
    requires forall j :: 0 <= j < maxRetries ==> op(j).Raise?
    ensures Retried(op, maxRetries) == (Reraised(op(maxRetries - 1).error), maxRetries)
  {
    RunFromAllFail(op, maxRetries, 0);
  }

  lemma {:induction false} RunFromAllFail<T, E>(op: nat -> Attempt<T, E>, maxRetries: int, i: nat)
    requires i < maxRetries
    requires forall j :: i <= j < maxRetries ==> op(j).Raise?
    ensures RunFrom(op, maxRetries, i) == (Reraised(op(maxRetries - 1).error), maxRetries)
    decreases maxRetries - i
  {
    if i + 1 < maxRetries {
      RunFromAllFail(op, maxRetries, i + 1);
    }
  }

  /** Whatever the operation does: it is called at most max_retries times;
      a returned value is that of the last call, every earlier call having
      raised; a re-raised exception is that of call max_retries, every call
      having raised; and None comes back exactly when no call is allowed. */
  lemma {:induction false} RetriedShape<T, E>(op: nat -> Attempt<T, E>, maxRetries: int)
    ensures var (outcome, calls) := Retried(op, maxRetries);
      && (outcome.NoneReturned? <==> maxRetries <= 0)
      && (outcome.NoneReturned? ==> calls == 0)
      && (maxRetries > 0 ==> 1 <= calls <= maxRetries)
      && (forall j :: 0 <= j < calls - 1 ==> op(j).Raise?)
      && (outcome.Returned? ==> op(calls - 1) == Ok(outcome.value))
      && (outcome.Reraised? ==> calls == maxRetries && op(calls - 1) == Raise(outcome.error))
  {
    if maxRetries > 0 {
      RunFromShape(op, maxRetries, 0);
    }
  }

  lemma {:induction false} RunFromShape<T, E>(op: nat -> Attempt<T, E>, maxRetries: int, i: nat)
    requires i < maxRetries
    ensures var (outcome, calls) := RunFrom(op, maxRetries, i);
      && !outcome.NoneReturned?
      && i < calls <= maxRetries
      && (forall j :: i <= j < calls - 1 ==> op(j).Raise?)
      && (outcome.Returned? ==> op(calls - 1) == Ok(outcome.value))
      && (outcome.Reraised? ==> calls == maxRetries && op(calls - 1) == Raise(outcome.error))
    decreases maxRetries - i
  {
    if op(i).Raise? && i + 1 < maxRetries {
      RunFromShape(op, maxRetries, i + 1);
    }
  }

  /** Each sleep is the one before times the factor. */
  lemma {:induction false} BackoffsStep(initial: real, factor: real, n: nat, i: nat)
    requires i + 1 < n
    ensures Backoffs(initial, factor, n)[i + 1] == Backoffs(initial, factor, n)[i] * factor
  {
    BackoffAt(initial, factor, n, i);
    BackoffAt(initial, factor, n, i + 1);
  }

  /** With a factor of at least 1 and a non-negative first backoff, no sleep
      is shorter than the one before. */
  lemma {:induction false} BackoffsGrow(initial: real, factor: real, n: nat, i: nat)
    requires initial >= 0.0 && factor >= 1.0
    requires i + 1 < n
    ensures Backoffs(initial, factor, n)[i] <= Backoffs(initial, factor, n)[i + 1]
  {
    BackoffsStep(initial, factor, n, i);
    BackoffAt(initial, factor, n, i);
    BackoffNonNegative(initial, factor, i);
  }

  lemma {:induction false} BackoffNonNegative(initial: real, factor: real, i: nat)
    requires initial >= 0.0 && factor >= 1.0
    ensures Backoff(initial, factor, i) >= 0.0
  {
    if i > 0 {
      BackoffNonNegative(initial, factor, i - 1);
    }
  }

  /** A provider that fails twice and then succeeds, under the translate
      decorator's settings (3 attempts, 2 s first backoff, factor 2): three
      calls, and sleeps of 2 s and 4 s between them. */
  lemma TwoFailuresThenSuccess<T, E>(op: nat -> Attempt<T, E>)
    requires op(0).Raise? && op(1).Raise? && op(2).Ok?
    ensures Retried(op, 3) == (Returned(op(2).value), 3)
    ensures Backoffs(2.0, 2.0, 3 - 1) == [2.0, 4.0]
  {
    FirstSuccessWins(op, 3, 2);
    assert Backoff(2.0, 2.0, 1) == 4.0;
  }
}
