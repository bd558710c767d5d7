/** The three retry loops (packages/stellar/src/retry.ts,
    packages/core-sdk/src/retry-policy.ts, packages/account-abstraction/src/client.ts),
    with jitter off, and the one behaviour they share. */
module Retry {
  import opened Prelude
  import opened Arithmetic
  import opened Radix

  /** What one call of the operation does. */
  datatype Attempt<T, E> = Value(value: T) | Failure(error: E)

  /** How a loop ends: a value, an error that is not retryable, or attempts used up
      (with no error at all when no attempt was allowed). */
  datatype Ending<T, E> = Done(value: T) | Refused(error: E) | Exhausted(attempts: int, last: Option<E>)

  /** What a caller sees. Only the first loop wraps the last error. */
  datatype Thrown<E> = Plain(error: Option<E>) | RetryExhausted(attempts: int, last: Option<E>)

  datatype Trace<T, E> = Trace(calls: nat, waits: seq<int>, ending: Ending<T, E>)

  datatype Policy = Policy(maxRetries: int, baseDelayMs: int, maxDelayMs: int, exponential: bool)

  /** The product of `x` and the k-th power of two (see `DoubledIsPow`). */
  function Doubled(x: int, k: nat): int {
    if k == 0 then x else 2 * Doubled(x, k - 1)
  }

  lemma {:induction false} DoubledIsPow(x: int, k: nat)
    ensures Doubled(x, k) == x * Pow(2, k)
  {
    if k > 0 {
      DoubledIsPow(x, k - 1);
      TwiceProduct(x, Pow(2, k - 1));
    }
  }

  lemma TwiceProduct(x: int, y: int)
    ensures x * (2 * y) == 2 * (x * y)
  {
  }

  /** The wait before retry k + 1. */
  function Wait(p: Policy, k: nat): (w: nat)
    ensures p.maxDelayMs >= 0 ==> w <= p.maxDelayMs
  {
    Max(0, Min(if p.exponential then Doubled(p.baseDelayMs, k) else p.baseDelayMs, p.maxDelayMs))
  }

  /** `sleep`: a negative delay is none. */
  function Slept(delay: int): nat {
    Max(0, delay)
  }

  /** `calculateDelay`, from attempt 1. */
  function CalculateDelay(attempt: nat, p: Policy): int
    requires attempt >= 1
  {
    if !p.exponential then Min(p.baseDelayMs, p.maxDelayMs)
    else Min(Doubled(p.baseDelayMs, attempt - 1), p.maxDelayMs)
  }

  /** `calculateRetryDelay`, from attempt 1, clamped once more. */
  function CalculateRetryDelay(attempt: nat, p: Policy): int
    requires attempt >= 1
  {
    var delay := if p.exponential then Min(Doubled(p.baseDelayMs, attempt - 1), p.maxDelayMs)
                 else Min(p.baseDelayMs, p.maxDelayMs);
    Max(0, Min(delay, p.maxDelayMs))
  }

  /** `calculateBackoff`, from attempt 0. */
  function CalculateBackoff(attempt: int, p: Policy): int {
    var safeAttempt := Max(0, attempt);
    var delay := if p.exponential then Min(Doubled(p.baseDelayMs, safeAttempt), p.maxDelayMs)
                 else Min(p.baseDelayMs, p.maxDelayMs);
    Max(0, Min(delay, p.maxDelayMs))
  }

  /** The three delay formulas make the loops sleep alike. They are equal exactly when the
      first, which does not clamp, is not negative. */
  lemma DelaysAgree(k: nat, p: Policy)
    ensures Slept(CalculateDelay(k + 1, p)) == CalculateRetryDelay(k + 1, p) == CalculateBackoff(k, p) == Wait(p, k)
    ensures CalculateDelay(k + 1, p) == Wait(p, k) <==> CalculateDelay(k + 1, p) >= 0
  {
  }

  // --------------------------------------------------------- the simple form

  /** The run from the call that follows these waits: `op(i)` is the outcome of call i. */
  ghost function Run<T, E>(op: nat -> Attempt<T, E>, retryable: E -> bool, p: Policy, waits: seq<int>): Trace<T, E>
    requires |waits| <= p.maxRetries
    decreases p.maxRetries - |waits|
  {
    var made := |waits|;
    match op(made)
    case Value(v) => Trace(made + 1, waits, Done(v))
    case Failure(e) =>
      if made == p.maxRetries then Trace(made + 1, waits, Exhausted(made + 1, Some(e)))
      else if !retryable(e) then Trace(made + 1, waits, Refused(e))
      else Run(op, retryable, p, waits + [Wait(p, made)])
  }

  ghost function Retried<T, E>(op: nat -> Attempt<T, E>, retryable: E -> bool, p: Policy): Trace<T, E> {
    if p.maxRetries < 0 then Trace(0, [], Exhausted(p.maxRetries + 1, None)) else Run(op, retryable, p, [])
  }

  ghost function Wrapped<T, E>(ending: Ending<T, E>): Result<T, Thrown<E>> {
    match ending
    case Done(v) => Ok(v)
    case Refused(e) => Err(Plain(Some(e)))
    case Exhausted(n, last) => Err(RetryExhausted(n, last))
  }

  ghost function Unwrapped<T, E>(ending: Ending<T, E>): Result<T, Thrown<E>> {
    match ending
    case Done(v) => Ok(v)
    case Refused(e) => Err(Plain(Some(e)))
    case Exhausted(_, last) => Err(Plain(last))
  }

  // ---------------------------------------------------------------- the loops

  /** `withRetry`. */
  method WithRetry<T, E>(op: nat -> Attempt<T, E>, retryable: E -> bool, p: Policy)
    returns (r: Result<T, Thrown<E>>, calls: nat, waits: seq<int>)
    ensures Retried(op, retryable, p).calls == calls && Retried(op, retryable, p).waits == waits
    ensures r == Wrapped(Retried(op, retryable, p).ending)
  {
    calls, waits := 0, [];
    var lastError: Option<E> := None;
    var attempt := 1;
    while attempt <= p.maxRetries + 1
      invariant attempt == calls + 1
      invariant p.maxRetries < 0 ==> calls == 0 && waits == [] && lastError == None
      invariant p.maxRetries >= 0 ==> |waits| == calls <= p.maxRetries
      invariant p.maxRetries >= 0 ==> Run(op, retryable, p, waits) == Retried(op, retryable, p)
      decreases p.maxRetries + 1 - attempt
    {
      var outcome := op(calls);
      calls := calls + 1;
      if outcome.Value? {
        return Ok(outcome.value), calls, waits;
      }
      lastError := Some(outcome.error);
      if attempt > p.maxRetries {
        return Err(RetryExhausted(attempt, lastError)), calls, waits;
      }
      if !retryable(outcome.error) {
        return Err(Plain(lastError)), calls, waits;
      }
      DelaysAgree(calls - 1, p);
      waits := waits + [Slept(CalculateDelay(attempt, p))];
      attempt := attempt + 1;
    }
    return Err(RetryExhausted(p.maxRetries + 1, lastError)), calls, waits;
  }

  /** The core SDK's `withNetworkRetry`. */
  method CoreWithNetworkRetry<T, E>(op: nat -> Attempt<T, E>, retryable: E -> bool, p: Policy)
    returns (r: Result<T, Thrown<E>>, calls: nat, waits: seq<int>)
    ensures Retried(op, retryable, p).calls == calls && Retried(op, retryable, p).waits == waits
    ensures r == Unwrapped(Retried(op, retryable, p).ending)
  {
    calls, waits := 0, [];
    var lastError: Option<E> := None;
    var attempt := 1;
    while attempt <= p.maxRetries + 1
      invariant attempt == calls + 1
      invariant p.maxRetries < 0 ==> calls == 0 && waits == [] && lastError == None
      invariant p.maxRetries >= 0 ==> |waits| == calls <= p.maxRetries
      invariant p.maxRetries >= 0 ==> Run(op, retryable, p, waits) == Retried(op, retryable, p)
      decreases p.maxRetries + 1 - attempt
    {
      var outcome := op(calls);
      calls := calls + 1;
      if outcome.Value? {
        return Ok(outcome.value), calls, waits;
      }
      lastError := Some(outcome.error);
      if attempt > p.maxRetries {
        return Err(Plain(lastError)), calls, waits;
      }
      if !retryable(outcome.error) {
        return Err(Plain(lastError)), calls, waits;
      }
      DelaysAgree(calls - 1, p);
      waits := waits + [Slept(CalculateRetryDelay(attempt, p))];
      attempt := attempt + 1;
    }
    return Err(Plain(lastError)), calls, waits;
  }

  /** The account-abstraction client's `withNetworkRetry`: attempts count from 0, and
      running out leaves the loop. */
  method ClientWithNetworkRetry<T, E>(op: nat -> Attempt<T, E>, retryable: E -> bool, p: Policy)
    returns (r: Result<T, Thrown<E>>, calls: nat, waits: seq<int>)
    ensures Retried(op, retryable, p).calls == calls && Retried(op, retryable, p).waits == waits
    ensures r == Unwrapped(Retried(op, retryable, p).ending)
  {
    calls, waits := 0, [];
    var lastError: Option<E> := None;
    var attempt := 0;
    while attempt <= p.maxRetries
      invariant attempt == calls
      invariant p.maxRetries < 0 ==> calls == 0 && waits == [] && lastError == None
      invariant p.maxRetries >= 0 ==> |waits| == calls <= p.maxRetries
      invariant p.maxRetries >= 0 ==> Run(op, retryable, p, waits) == Retried(op, retryable, p)
      decreases p.maxRetries - attempt
    {
      var outcome := op(calls);
      calls := calls + 1;
      if outcome.Value? {
        return Ok(outcome.value), calls, waits;
      }
      lastError := Some(outcome.error);
      if attempt >= p.maxRetries {
        break;
      }
      if !retryable(outcome.error) {
        return Err(Plain(lastError)), calls, waits;
      }
      DelaysAgree(calls - 1, p);
      waits := waits + [Slept(CalculateBackoff(attempt, p))];
      attempt := attempt + 1;
    }
    return Err(Plain(lastError)), calls, waits;
  }

  // --------------------------------------------------------------- properties

  ghost predicate FailsRetryably<T, E>(op: nat -> Attempt<T, E>, retryable: E -> bool, i: nat) {
    op(i).Failure? && retryable(op(i).error)
  }

  /** A run makes one call more than it waits, never more than maxRetries + 1; every
      call but the last failed retryably, and the last decides the ending. */
  lemma {:induction false} RunShape<T, E>(op: nat -> Attempt<T, E>, retryable: E -> bool, p: Policy, waits: seq<int>)
    requires |waits| <= p.maxRetries
    requires forall k :: 0 <= k < |waits| ==> waits[k] == Wait(p, k) && FailsRetryably(op, retryable, k)
    ensures var t := Run(op, retryable, p, waits);
            && |waits| < t.calls <= p.maxRetries + 1 && |t.waits| == t.calls - 1
            && (forall k :: 0 <= k < |t.waits| ==> t.waits[k] == Wait(p, k) && FailsRetryably(op, retryable, k))
            && match t.ending
               case Done(v) => op(t.calls - 1) == Value(v)
               case Refused(e) => op(t.calls - 1) == Failure(e) && !retryable(e) && t.calls <= p.maxRetries
               case Exhausted(n, last) =>
                 op(t.calls - 1).Failure? && n == t.calls == p.maxRetries + 1 && last == Some(op(t.calls - 1).error)
    decreases p.maxRetries - |waits|
  {
    if FailsRetryably(op, retryable, |waits|) && |waits| < p.maxRetries {
      RunShape(op, retryable, p, waits + [Wait(p, |waits|)]);
    }
  }

  /** The call succeeds exactly when some call within the allowance does and all
      before it fail retryably; with the value of the first such call. */
  lemma SucceedsIff<T, E>(op: nat -> Attempt<T, E>, retryable: E -> bool, p: Policy)
    requires p.maxRetries >= 0
    ensures Retried(op, retryable, p).ending.Done?
        <==> exists k :: 0 <= k <= p.maxRetries && op(k).Value?
               && forall i :: 0 <= i < k ==> FailsRetryably(op, retryable, i)
  {
    RunShape(op, retryable, p, []);
    var t := Retried(op, retryable, p);
    if t.ending.Done? {
      assert op(t.calls - 1).Value?;
    }
    if k :| 0 <= k <= p.maxRetries && op(k).Value? && forall i :: 0 <= i < k ==> FailsRetryably(op, retryable, i) {
      assert !(k < t.calls - 1) by { assert k < t.calls - 1 ==> FailsRetryably(op, retryable, k); }
      assert !(t.calls - 1 < k) by { assert t.calls - 1 < k ==> FailsRetryably(op, retryable, t.calls - 1); }
    }
  }

  ghost function Sum(s: seq<int>): int {
    if s == [] then 0 else Sum(s[..|s| - 1]) + s[|s| - 1]
  }

  lemma {:induction false} WaitSum(p: Policy, waits: seq<int>)
    requires forall k :: 0 <= k < |waits| ==> waits[k] == Wait(p, k)
    ensures Sum(waits) <= |waits| * Max(0, p.maxDelayMs)
    ensures p.exponential ==> Sum(waits) <= Doubled(Max(0, p.baseDelayMs), |waits|) - Max(0, p.baseDelayMs)
  {
    if waits != [] {
      var n := |waits| - 1;
      WaitSum(p, waits[..n]);
      Distribute(n, Max(0, p.maxDelayMs));
      DoubledOrder(p.baseDelayMs, Max(0, p.baseDelayMs), n);
      DoubledGrows(Max(0, p.baseDelayMs), 0, n);
    }
  }

  lemma {:induction false} DoubledOrder(x: int, y: int, k: nat)
    requires x <= y
    ensures Doubled(x, k) <= Doubled(y, k)
  {
    if k > 0 {
      DoubledOrder(x, y, k - 1);
    }
  }

  lemma Distribute(n: nat, x: nat)
    ensures (n + 1) * x == n * x + x
  {
  }

  lemma {:induction false} DoubledGrows(x: nat, j: nat, k: nat)
    requires j <= k
    ensures 0 <= Doubled(x, j) <= Doubled(x, k)
  {
    if j < k {
      DoubledGrows(x, j, k - 1);
    } else if j > 0 {
      DoubledGrows(x, j - 1, k - 1);
    }
  }

  lemma LessOne(x: int, y: int)
    ensures x * (y - 1) == x * y - x
  {
  }

  /** The total wait is at most min(base * (2^m - 1), m * maxDelay) with exponential
      backoff, and at most m * maxDelay without; a negative delay counts as 0. */
  lemma TotalWait<T, E>(op: nat -> Attempt<T, E>, retryable: E -> bool, p: Policy)
    requires p.maxRetries >= 0
    ensures Sum(Retried(op, retryable, p).waits) <= p.maxRetries * Max(0, p.maxDelayMs)
    ensures p.exponential ==>
              Sum(Retried(op, retryable, p).waits) <= Max(0, p.baseDelayMs) * (Pow(2, p.maxRetries) - 1)
  {
    RunShape(op, retryable, p, []);
    var waits := Retried(op, retryable, p).waits;
    WaitSum(p, waits);
    var n, base := |waits|, Max(0, p.baseDelayMs);
    MulMono(n, p.maxRetries, Max(0, p.maxDelayMs));
    DoubledGrows(base, n, p.maxRetries);
    DoubledIsPow(base, p.maxRetries);
    LessOne(base, Pow(2, p.maxRetries));
  }

  /** Each wait is base * 2^k with exponential backoff, or base, cut to the maximum. */
  lemma WaitIs(p: Policy, k: nat)
    requires p.baseDelayMs >= 0 && p.maxDelayMs >= 0
    ensures Wait(p, k) == Min(if p.exponential then p.baseDelayMs * Pow(2, k) else p.baseDelayMs, p.maxDelayMs)
  {
    DoubledIsPow(p.baseDelayMs, k);
    DoubledOrder(0, p.baseDelayMs, k);
    DoubledIsPow(0, k);
  }

  /** The three loops end alike: only the first wraps the error of used-up attempts. */
  lemma EndAlike<T, E>(ending: Ending<T, E>)
    ensures ending.Done? ==> Wrapped(ending) == Unwrapped(ending) == Ok(ending.value)
    ensures ending.Refused? ==> Wrapped(ending) == Unwrapped(ending) == Err(Plain(Some(ending.error)))
    ensures ending.Exhausted? ==>
              && Wrapped(ending) == Err(RetryExhausted(ending.attempts, ending.last))
              && Unwrapped(ending) == Err(Plain(ending.last))
  {
  }

  /** A negative allowance makes no call at all, and no error to throw. */
  lemma NoAttempts<T, E>(op: nat -> Attempt<T, E>, retryable: E -> bool, p: Policy)
    requires p.maxRetries < 0
    ensures Retried(op, retryable, p) == Trace(0, [], Exhausted(p.maxRetries + 1, None))
  {
  }
}
