/** RPC endpoint failover in the Stellar client (packages/stellar/src/client.ts), and
    the retry loop that encloses it. */
module RpcFailover {
  import opened Prelude
  import opened Arithmetic
  import opened Retry

  // ----------------------------------------------------- the endpoints in turn

  function Next(index: nat, n: nat): nat
    requires n > 0
  {
    (index + 1) % n
  }

  /** The endpoint k rotations after `start`. */
  function After(start: nat, k: nat, n: nat): nat
    requires n > 0
  {
    if k == 0 then start else Next(After(start, k - 1, n), n)
  }

  lemma NextIs(index: nat, n: nat)
    requires index < n
    ensures Next(index, n) == if index + 1 == n then 0 else index + 1
  {
  }

  lemma {:induction false} AfterIs(start: nat, k: nat, n: nat)
    requires start < n && k <= n
    ensures After(start, k, n) == if start + k < n then start + k else start + k - n
  {
    if k > 0 {
      AfterIs(start, k - 1, n);
      NextIs(After(start, k - 1, n), n);
    }
  }

  /** The first n endpoints from any start are all the endpoints, each once. */
  lemma {:induction false} EveryEndpointOnce(start: nat, n: nat, e: nat)
    requires start < n && e < n
    ensures exists d :: 0 <= d < n && After(start, d, n) == e
              && forall c :: 0 <= c < n && After(start, c, n) == e ==> c == d
  {
    var d := if start <= e then e - start else e - start + n;
    AfterIs(start, d, n);
    forall c | 0 <= c < n && After(start, c, n) == e ensures c == d {
      AfterIs(start, c, n);
    }
  }

  // ----------------------------------------------------------- the simple form

  /** How one failover run ends: its result, how many RPC calls it made, and the
      endpoint it leaves current. */
  datatype Sweep<T, E> = Sweep(outcome: Attempt<T, E>, calls: nat, index: nat)

  /** Attempts to make: `net(c, e)` is what RPC call number c gets from endpoint e. */
  ghost function Failover<T, E>(net: (nat, nat) -> Attempt<T, E>, retryable: E -> bool, n: nat, index: nat,
      made: nat, attempts: nat): Sweep<T, E>
    requires index < n && attempts >= 1
    decreases attempts
  {
    var outcome := net(made, index);
    if outcome.Value? || !retryable(outcome.error) then Sweep(outcome, made + 1, index)
    else
      NextIs(index, n);
      if attempts == 1 then Sweep(outcome, made + 1, Next(index, n))
      else Failover(net, retryable, n, Next(index, n), made + 1, attempts - 1)
  }

  /** The state before outer attempt k of `simulateTransaction`. */
  ghost function Before<T, E>(net: (nat, nat) -> Attempt<T, E>, retryable: E -> bool, n: nat, index: nat,
      made: nat, attempts: nat, k: nat): (r: (nat, nat))
    requires index < n && attempts >= 1
    ensures r.0 < n
  {
    if k == 0 then (index, made)
    else
      var (i, c) := Before(net, retryable, n, index, made, attempts, k - 1);
      FailoverShape(net, retryable, n, i, c, attempts);
      var sweep := Failover(net, retryable, n, i, c, attempts);
      (sweep.index, sweep.calls)
  }

  /** The outcome of outer attempt k, as an operation for `Retry.Retried`. */
  ghost function Outer<T, E>(net: (nat, nat) -> Attempt<T, E>, retryable: E -> bool, n: nat, index: nat, made: nat,
      attempts: nat): nat -> Attempt<T, E>
    requires index < n && attempts >= 1
  {
    (k: nat) => var (i, c) := Before(net, retryable, n, index, made, attempts, k);
         Failover(net, retryable, n, i, c, attempts).outcome
  }

  ghost predicate GoesOn<T, E>(outcome: Attempt<T, E>, retryable: E -> bool) {
    outcome.Failure? && retryable(outcome.error)
  }

  /** Attempt i goes to the endpoint i places after the start; every attempt before the
      last fails retryably; the run stops at the first decisive answer, leaving that
      endpoint current, or after all its attempts, leaving the one after the last. */
  ghost predicate Shaped<T, E>(net: (nat, nat) -> Attempt<T, E>, retryable: E -> bool, n: nat, index: nat,
      made: nat, attempts: nat, s: Sweep<T, E>)
    requires n > 0
  {
    var d := s.calls - made - 1;
    && 0 <= d < attempts && s.index < n
    && s.outcome == net(made + d, After(index, d, n))
    && (forall i :: 0 <= i < d ==> GoesOn(net(made + i, After(index, i, n)), retryable))
    && if GoesOn(s.outcome, retryable) then d == attempts - 1 && s.index == After(index, attempts, n)
       else s.index == After(index, d, n)
  }

  lemma {:induction false} FailoverShape<T, E>(net: (nat, nat) -> Attempt<T, E>, retryable: E -> bool, n: nat,
      index: nat, made: nat, attempts: nat)
    requires index < n && attempts >= 1
    ensures Shaped(net, retryable, n, index, made, attempts, Failover(net, retryable, n, index, made, attempts))
    decreases attempts
  {
    assert After(index, 0, n) == index;
    if GoesOn(net(made, index), retryable) {
      NextIs(index, n);
      assert After(index, 1, n) == Next(index, n);
      if attempts > 1 {
        FailoverShape(net, retryable, n, Next(index, n), made + 1, attempts - 1);
        ShapedBefore(net, retryable, n, index, made, attempts,
                     Failover(net, retryable, n, Next(index, n), made + 1, attempts - 1));
      }
    }
  }

  lemma ShapedBefore<T, E>(net: (nat, nat) -> Attempt<T, E>, retryable: E -> bool, n: nat, index: nat, made: nat,
      attempts: nat, s: Sweep<T, E>)
    requires n > 0 && attempts > 1 && GoesOn(net(made, index), retryable)
    requires Shaped(net, retryable, n, Next(index, n), made + 1, attempts - 1, s)
    ensures Shaped(net, retryable, n, index, made, attempts, s)
  {
    var d := s.calls - made - 1;
    AfterShift(index, d - 1, n);
    AfterShift(index, attempts - 1, n);
    forall i | 0 <= i < d ensures GoesOn(net(made + i, After(index, i, n)), retryable) {
      if i > 0 {
        AfterShift(index, i - 1, n);
        assert GoesOn(net(made + 1 + (i - 1), After(Next(index, n), i - 1, n)), retryable);
      }
    }
  }

  lemma {:induction false} AfterShift(start: nat, k: nat, n: nat)
    requires n > 0
    ensures After(Next(start, n), k, n) == After(start, k + 1, n)
  {
    if k > 0 {
      AfterShift(start, k - 1, n);
    }
  }

  /** The shape leaves nothing open: one run has it. */
  lemma ShapeDecides<T, E>(net: (nat, nat) -> Attempt<T, E>, retryable: E -> bool, n: nat, index: nat, made: nat,
      attempts: nat, s: Sweep<T, E>)
    requires index < n && attempts >= 1
    requires Shaped(net, retryable, n, index, made, attempts, s)
    ensures s == Failover(net, retryable, n, index, made, attempts)
  {
    FailoverShape(net, retryable, n, index, made, attempts);
    var t := Failover(net, retryable, n, index, made, attempts);
    var d, e := s.calls - made - 1, t.calls - made - 1;
    var atD := GoesOn(net(made + d, After(index, d, n)), retryable);
    var atE := GoesOn(net(made + e, After(index, e, n)), retryable);
  }

  // ------------------------------------------------ endpoints of fixed health

  ghost function Fixed<T, E>(health: nat -> Attempt<T, E>): (nat, nat) -> Attempt<T, E> {
    (call: nat, endpoint: nat) => health(endpoint)
  }

  /** The first decisive endpoint in cyclic order answers, after one call to each
      endpoint before it, and stays current. */
  lemma FirstDecisive<T, E>(health: nat -> Attempt<T, E>, retryable: E -> bool, n: nat, index: nat, made: nat,
      attempts: nat, d: nat)
    requires index < n && d < attempts
    requires forall i :: 0 <= i < d ==> GoesOn(health(After(index, i, n)), retryable)
    requires !GoesOn(health(After(index, d, n)), retryable) && After(index, d, n) < n
    ensures Failover(Fixed(health), retryable, n, index, made, attempts)
         == Sweep(health(After(index, d, n)), made + d + 1, After(index, d, n))
  {
    var s := Sweep(health(After(index, d, n)), made + d + 1, After(index, d, n));
    ShapeDecides(Fixed(health), retryable, n, index, made, attempts, s);
  }

  /** With as many attempts as endpoints, one healthy endpoint is enough when every
      failing one fails retryably: the call succeeds within n attempts, on the first
      healthy endpoint in cyclic order, which stays current. */
  lemma FailoverCoverage<T, E>(health: nat -> Attempt<T, E>, retryable: E -> bool, n: nat, index: nat, made: nat,
      attempts: nat, e: nat)
    requires index < n <= attempts && e < n && health(e).Value?
    requires forall f :: 0 <= f < n && health(f).Failure? ==> retryable(health(f).error)
    ensures exists d :: 0 <= d < n && health(After(index, d, n)).Value?
              && (forall i :: 0 <= i < d ==> health(After(index, i, n)).Failure?)
              && Failover(Fixed(health), retryable, n, index, made, attempts)
                 == Sweep(health(After(index, d, n)), made + d + 1, After(index, d, n))
  {
    EveryEndpointOnce(index, n, e);
    var d := FirstHealthy(health, n, index);
    forall i | 0 <= i < d ensures GoesOn(health(After(index, i, n)), retryable) {
      AfterIs(index, i, n);
    }
    AfterIs(index, d, n);
    FirstDecisive(health, retryable, n, index, made, attempts, d);
  }

  lemma FirstHealthy<T, E>(health: nat -> Attempt<T, E>, n: nat, index: nat) returns (d: nat)
    requires index < n && exists k :: 0 <= k < n && health(After(index, k, n)).Value?
    ensures d < n && health(After(index, d, n)).Value? && forall i :: 0 <= i < d ==> health(After(index, i, n)).Failure?
  {
    d := 0;
    while health(After(index, d, n)).Failure?
      invariant d < n && forall i :: 0 <= i < d ==> health(After(index, i, n)).Failure?
      decreases n - d
    {
      d := d + 1;
    }
  }

  ghost predicate Tried(index: nat, n: nat, attempts: nat, endpoint: nat)
    requires n > 0
  {
    exists i :: 0 <= i < attempts && After(index, i, n) == endpoint
  }

  /** When every endpoint fails retryably, all attempts are made, every endpoint is
      among those tried, and the last one's error comes back. */
  lemma AllDown<T, E>(health: nat -> Attempt<T, E>, retryable: E -> bool, n: nat, index: nat, made: nat, attempts: nat)
    requires index < n <= attempts
    requires forall f :: 0 <= f < n ==> GoesOn(health(f), retryable)
    ensures Failover(Fixed(health), retryable, n, index, made, attempts)
         == Sweep(health(After(index, attempts - 1, n)), made + attempts, After(index, attempts, n))
    ensures forall e :: 0 <= e < n ==> Tried(index, n, attempts, e)
  {
    forall e | 0 <= e < n ensures Tried(index, n, attempts, e) {
      EveryEndpointOnce(index, n, e);
    }
    forall i: nat ensures After(index, i, n) < n {
    }
    var s := Sweep(health(After(index, attempts - 1, n)), made + attempts, After(index, attempts, n));
    ShapeDecides(Fixed(health), retryable, n, index, made, attempts, s);
  }

  // ------------------------------------------------------- the enclosing retry

  lemma {:induction false} CallsBounded<T, E>(net: (nat, nat) -> Attempt<T, E>, retryable: E -> bool, n: nat,
      index: nat, made: nat, attempts: nat, k: nat)
    requires index < n && attempts >= 1
    ensures made + k <= Before(net, retryable, n, index, made, attempts, k).1 <= made + k * attempts
    ensures AllGoOn(net, retryable, n) ==> Before(net, retryable, n, index, made, attempts, k).1 == made + k * attempts
  {
    if k > 0 {
      CallsBounded(net, retryable, n, index, made, attempts, k - 1);
      var (i, c) := Before(net, retryable, n, index, made, attempts, k - 1);
      FailoverShape(net, retryable, n, i, c, attempts);
      Distribute(k - 1, attempts);
      var s := Failover(net, retryable, n, i, c, attempts);
      assert After(i, s.calls - c - 1, n) < n;
    }
  }

  /** A `simulateTransaction` from the outer attempt that follows these waits. */
  datatype Simulation<T, E> = Simulation(ending: Ending<T, E>, rounds: nat, waits: seq<int>, calls: nat, index: nat)

  ghost function Simulate<T, E>(net: (nat, nat) -> Attempt<T, E>, retryable: E -> bool, p: Policy, n: nat,
      attempts: nat, index: nat, made: nat, waits: seq<int>): Simulation<T, E>
    requires index < n && attempts >= 1
    decreases p.maxRetries - |waits|
  {
    var round := |waits|;
    if p.maxRetries < round then Simulation(Exhausted(p.maxRetries + 1, None), round, waits, made, index)
    else
      var s := Failover(net, retryable, n, index, made, attempts);
      match s.outcome
      case Value(v) => Simulation(Done(v), round + 1, waits, s.calls, s.index)
      case Failure(e) =>
        if round == p.maxRetries then Simulation(Exhausted(round + 1, Some(e)), round + 1, waits, s.calls, s.index)
        else if !retryable(e) then Simulation(Refused(e), round + 1, waits, s.calls, s.index)
        else
          FailoverShape(net, retryable, n, index, made, attempts);
          Simulate(net, retryable, p, n, attempts, s.index, s.calls, waits + [Wait(p, round)])
  }

  /** `op(k)` is the outcome of a failover from state `at(k)`, which leaves `at(k + 1)`. */
  ghost predicate Threads<T, E>(net: (nat, nat) -> Attempt<T, E>, retryable: E -> bool, n: nat, attempts: nat,
      op: nat -> Attempt<T, E>, at: nat -> (nat, nat), k: nat)
    requires attempts >= 1
  {
    at(k).0 < n &&
    var s := Failover(net, retryable, n, at(k).0, at(k).1, attempts);
    op(k) == s.outcome && at(k + 1) == (s.index, s.calls)
  }

  lemma {:induction false} SimulateFollows<T, E>(net: (nat, nat) -> Attempt<T, E>, retryable: E -> bool, p: Policy,
      n: nat, attempts: nat, op: nat -> Attempt<T, E>, at: nat -> (nat, nat), waits: seq<int>)
    requires attempts >= 1 && |waits| <= p.maxRetries
    requires forall i: nat :: Threads(net, retryable, n, attempts, op, at, i)
    ensures at(|waits|).0 < n
    ensures var (i, c) := at(|waits|);
            var s, t := Simulate(net, retryable, p, n, attempts, i, c, waits), Run(op, retryable, p, waits);
            s.ending == t.ending && s.rounds == t.calls && s.waits == t.waits && (s.index, s.calls) == at(t.calls)
    decreases p.maxRetries - |waits|
  {
    var k := |waits|;
    assert Threads(net, retryable, n, attempts, op, at, k);
    if GoesOn(op(k), retryable) && k < p.maxRetries {
      SimulateFollows(net, retryable, p, n, attempts, op, at, waits + [Wait(p, k)]);
    }
  }

  /** It is the common retry loop, with a whole failover as its operation. */
  lemma SimulateIsRetry<T, E>(net: (nat, nat) -> Attempt<T, E>, retryable: E -> bool, p: Policy, n: nat,
      attempts: nat, index: nat, made: nat)
    requires index < n && attempts >= 1 && p.maxRetries >= 0
    ensures var t := Retried(Outer(net, retryable, n, index, made, attempts), retryable, p);
            var (j, d) := Before(net, retryable, n, index, made, attempts, t.calls);
            Simulate(net, retryable, p, n, attempts, index, made, []) == Simulation(t.ending, t.calls, t.waits, d, j)
  {
    var op := Outer(net, retryable, n, index, made, attempts);
    var at := (k: nat) => Before(net, retryable, n, index, made, attempts, k);
    forall i: nat ensures Threads(net, retryable, n, attempts, op, at, i) {
    }
    SimulateFollows(net, retryable, p, n, attempts, op, at, []);
  }

  /** How `simulateTransaction` reports: a wrapped network error is unwrapped. */
  ghost function Reported<T, E>(ending: Ending<T, E>, isNetwork: E -> bool): Result<T, Thrown<E>> {
    match Wrapped(ending)
    case Err(RetryExhausted(_, Some(e))) => if isNetwork(e) then Err(Plain(Some(e))) else Wrapped(ending)
    case other => other
  }

  class StellarClient {
    const servers: nat
    const policy: Policy
    var current: nat
    /** RPC calls made so far. */
    var calls: nat

    ghost predicate Valid()
      reads this
    {
      current < servers
    }

    /** No endpoint is a configuration error. */
    constructor (servers: nat, policy: Policy)
      requires servers > 0
      ensures Valid() && this.servers == servers && this.policy == policy && current == 0 && calls == 0
    {
      this.servers, this.policy, current, calls := servers, policy, 0, 0;
    }

    method RotateRpcEndpoint() returns (rotated: bool)
      requires Valid()
      modifies this`current
      ensures Valid() && rotated == (servers > 1) && current == Next(old(current), servers)
    {
      if servers <= 1 {
        return false;
      }
      current := (current + 1) % servers;
      return true;
    }

    function GetRpcFailoverAttemptCount(): (count: nat)
      requires servers > 0
      ensures count >= servers && count > policy.maxRetries && (count == servers || count == policy.maxRetries + 1)
    {
      Max(servers, policy.maxRetries + 1)
    }

    method ExecuteRpcWithFailover<T, E>(net: (nat, nat) -> Attempt<T, E>,
        retryable: E -> bool) returns (outcome: Attempt<T, E>)
      requires Valid()
      modifies this
      ensures Valid()
      ensures Sweep(outcome, calls, current)
           == Failover(net, retryable, servers, old(current), old(calls), GetRpcFailoverAttemptCount())
    {
      var lastError: Option<E> := None;
      var attemptCount := GetRpcFailoverAttemptCount();
      var attempt := 1;
      while attempt <= attemptCount
        invariant Valid() && 1 <= attempt <= attemptCount + 1
        invariant attempt <= attemptCount ==>
          Failover(net, retryable, servers, current, calls, attemptCount - attempt + 1)
          == Failover(net, retryable, servers, old(current), old(calls), attemptCount)
        invariant attempt > attemptCount ==> lastError.Some?
        invariant attempt > attemptCount ==>
          Sweep(Failure(lastError.value), calls, current)
          == Failover(net, retryable, servers, old(current), old(calls), attemptCount)
      {
        var answer := net(calls, current);
        calls := calls + 1;
        if answer.Value? {
          return answer;
        }
        lastError := Some(answer.error);
        if !retryable(answer.error) {
          return Failure(answer.error);
        }
        var _ := RotateRpcEndpoint();
        attempt := attempt + 1;
      }
      return Failure(lastError.value);
    }

    /** The outer loop is `withRetry` written out around the failover. */
    method SimulateTransaction<T, E>(net: (nat, nat) -> Attempt<T, E>, retryable: E -> bool, isNetwork: E -> bool)
      returns (r: Result<T, Thrown<E>>, waits: seq<int>)
      requires Valid()
      modifies this
      ensures Valid()
      ensures var attempts := GetRpcFailoverAttemptCount();
              var s := Simulate(net, retryable, policy, servers, attempts, old(current), old(calls), []);
              r == Reported(s.ending, isNetwork) && waits == s.waits && calls == s.calls && current == s.index
    {
      ghost var attempts := GetRpcFailoverAttemptCount();
      waits := [];
      var last: Option<E> := None;
      var attempt := 1;
      while attempt <= policy.maxRetries + 1
        invariant Valid() && attempt >= 1 && (policy.maxRetries < 0 ==> attempt == 1)
        invariant policy.maxRetries >= 0 ==> attempt <= policy.maxRetries + 1
        invariant attempt == 1 ==> last == None
        invariant |waits| == attempt - 1
        invariant Simulate(net, retryable, policy, servers, attempts, current, calls, waits)
               == Simulate(net, retryable, policy, servers, attempts, old(current), old(calls), [])
        decreases policy.maxRetries + 1 - attempt
      {
        var outcome := ExecuteRpcWithFailover(net, retryable);
        if outcome.Value? {
          return Ok(outcome.value), waits;
        }
        last := Some(outcome.error);
        if attempt > policy.maxRetries {
          return Err(if isNetwork(outcome.error) then Plain(last) else RetryExhausted(attempt, last)), waits;
        }
        if !retryable(outcome.error) {
          return Err(Plain(last)), waits;
        }
        DelaysAgree(attempt - 1, policy);
        waits := waits + [Slept(CalculateDelay(attempt, policy))];
        attempt := attempt + 1;
      }
      return Err(RetryExhausted(policy.maxRetries + 1, last)), waits;
    }
  }

  ghost predicate AllGoOn<T, E>(net: (nat, nat) -> Attempt<T, E>, retryable: E -> bool, n: nat) {
    forall i, e :: 0 <= e < n ==> GoesOn(net(i, e), retryable)
  }

  lemma OuterGoesOn<T, E>(net: (nat, nat) -> Attempt<T, E>, retryable: E -> bool, n: nat, index: nat, made: nat,
      attempts: nat, k: nat)
    requires index < n && attempts >= 1 && AllGoOn(net, retryable, n)
    ensures FailsRetryably(Outer(net, retryable, n, index, made, attempts), retryable, k)
  {
    var (i, c) := Before(net, retryable, n, index, made, attempts, k);
    FailoverShape(net, retryable, n, i, c, attempts);
    var d := Failover(net, retryable, n, i, c, attempts).calls - c - 1;
    assert After(i, d, n) < n;
  }

  lemma RunCalls<T, E>(op: nat -> Attempt<T, E>, retryable: E -> bool, p: Policy)
    requires p.maxRetries >= 0
    ensures 1 <= Retried(op, retryable, p).calls <= p.maxRetries + 1
    ensures (forall k: nat :: FailsRetryably(op, retryable, k)) ==> Retried(op, retryable, p).calls == p.maxRetries + 1
  {
    RunShape(op, retryable, p, []);
    var last := FailsRetryably(op, retryable, Retried(op, retryable, p).calls - 1);
  }

  lemma Rounds<T, E>(net: (nat, nat) -> Attempt<T, E>, retryable: E -> bool, p: Policy, n: nat, index: nat,
      made: nat, attempts: nat) returns (rounds: nat)
    requires index < n && attempts >= 1 && p.maxRetries >= 0
    ensures 1 <= rounds <= p.maxRetries + 1 && (AllGoOn(net, retryable, n) ==> rounds == p.maxRetries + 1)
    ensures Simulate(net, retryable, p, n, attempts, index, made, []).calls
         == Before(net, retryable, n, index, made, attempts, rounds).1
  {
    var op := Outer(net, retryable, n, index, made, attempts);
    RunCalls(op, retryable, p);
    if AllGoOn(net, retryable, n) {
      forall k: nat ensures FailsRetryably(op, retryable, k) {
        OuterGoesOn(net, retryable, n, index, made, attempts, k);
      }
    }
    SimulateIsRetry(net, retryable, p, n, attempts, index, made);
    rounds := Retried(op, retryable, p).calls;
  }

  /** `simulateTransaction` makes at most (m + 1) * max(n, m + 1) RPC calls, and exactly
      as many when every answer is a retryable failure. */
  lemma SimulationCalls<T, E>(net: (nat, nat) -> Attempt<T, E>, retryable: E -> bool, p: Policy, n: nat,
      index: nat, made: nat, attempts: nat)
    requires index < n && p.maxRetries >= 0 && attempts == Max(n, p.maxRetries + 1)
    ensures var calls := Simulate(net, retryable, p, n, attempts, index, made, []).calls - made;
            && 1 <= calls <= (p.maxRetries + 1) * attempts
            && (AllGoOn(net, retryable, n) ==> calls == (p.maxRetries + 1) * attempts)
  {
    var rounds := Rounds(net, retryable, p, n, index, made, attempts);
    CallsBounded(net, retryable, n, index, made, attempts, rounds);
    MulMono(rounds, p.maxRetries + 1, attempts);
  }

  /** What the caller of `simulateTransaction` sees: a value; an error that was not retryable
      or, attempts used up, a last network error as they are; any other wrapped with the count. */
  lemma ReportedIs<T, E>(v: T, e: E, n: int, isNetwork: E -> bool)
    ensures Reported(Ending<T, E>.Done(v), isNetwork) == Ok(v)
    ensures Reported(Ending<T, E>.Refused(e), isNetwork) == Err(Plain(Some(e)))
    ensures Reported(Ending<T, E>.Exhausted(n, Some(e)), isNetwork)
         == Err(if isNetwork(e) then Plain(Some(e)) else RetryExhausted(n, Some(e)))
    ensures Reported(Ending<T, E>.Exhausted(n, None), isNetwork) == Err(RetryExhausted(n, None))
  {
  }
}
