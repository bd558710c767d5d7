/** The account transaction builder's cached raw transaction
    (packages/core-sdk/src/account-transaction-builder.ts), over the inner Stellar SDK
    builder it delegates to. */
module TransactionBuilder {
  import opened Prelude

  /** An encoded operation, and a memo. */
  type Operation = seq<byte>
  type Memo = seq<byte>

  datatype TimeBounds = TimeBounds(minTime: int, maxTime: int)

  datatype Transaction = Transaction(
    sequence: int, fee: nat, operations: seq<Operation>, memo: Option<Memo>, timebounds: TimeBounds)

  datatype Error =
    | AccountContractIdRequired | InvalidParameter | NoOperations | MaxTimeAlreadySet | NegativeTimeout
    | SimulationFailed | SimulationExpired | RequestFailed

  /** The RPC server's answer to a simulation; `NoAnswer` when the request itself fails. */
  datatype Simulation =
    | NoAnswer | SimulationError | RestoreRequired | SimulationSuccess(data: seq<byte>) | Unrecognised

  // ------------------------------------------------------------ the simple form

  /** What one builder call can be: a contract call or operation whose encoding failed
      (`None`) or not, a memo, a timeout, a `simulate`, a `build`. */
  datatype Call =
    | Add(operation: Option<Operation>)
    | AddMemo(memo: Memo)
    | SetTimeout(seconds: int, now: nat)
    | Simulate(now: nat, answered: bool)
    | Build(now: nat, answer: Simulation)

  /** `Sent` records the raw transaction that went to the server before the call failed. */
  datatype Reply =
    | Rejected(error: Error)
    | Changed
    | Simulated(transaction: Transaction)
    | Assembled(transaction: Transaction, data: seq<byte>)
    | Sent(transaction: Transaction, failure: Error)

  datatype State = State(
    sequence: int, fee: nat, timeoutSeconds: int,
    operations: seq<Operation>, memo: Option<Memo>, timebounds: Option<TimeBounds>,
    operationCount: nat, timeoutApplied: bool, raw: Option<Transaction>)

  function Initial(sequence: int, fee: nat, timeoutSeconds: int): State {
    State(sequence, fee, timeoutSeconds, [], None, None, 0, false, None)
  }

  /** The SDK's `setTimeout`: it refuses to overwrite a maximum time. */
  function WithTimeout(bounds: Option<TimeBounds>, seconds: int, now: nat): Result<TimeBounds, Error> {
    if bounds.Some? && bounds.value.maxTime > 0 then Err(MaxTimeAlreadySet)
    else if seconds < 0 then Err(NegativeTimeout)
    else Ok(TimeBounds(if bounds.Some? then bounds.value.minTime else 0, if seconds > 0 then now + seconds else 0))
  }

  /** What the inner builder would build now, at the given sequence number. */
  function Contents(s: State, sequence: int): Transaction
    requires s.timebounds.Some?
  {
    Transaction(sequence, s.fee, s.operations, s.memo, s.timebounds.value)
  }

  /** The cache is never stale: a cached transaction is what the inner builder would
      build now, at a number already taken from the source account. */
  ghost predicate Inv(s: State) {
    && s.operationCount == |s.operations|
    && s.timeoutApplied == s.timebounds.Some?
    && (s.raw.Some? ==> s.timeoutApplied && s.raw.value.sequence <= s.sequence)
    && (s.raw.Some? ==> s.operations != [] && s.raw.value == Contents(s, s.raw.value.sequence))
  }

  /** `assertHasOperations` and `buildRawTransaction`. */
  function BuildRaw(s: State, now: nat): (r: (State, Result<Transaction, Error>))
    requires Inv(s)
    ensures Inv(r.0) && (r.1.Ok? ==> r.0.raw == Some(r.1.value)) && (r.1.Err? ==> r.0 == s)
  {
    if s.operationCount == 0 then (s, Err(NoOperations))
    else if s.raw.Some? then (s, Ok(s.raw.value))
    else
      match if s.timeoutApplied then Ok(s.timebounds.value) else WithTimeout(None, s.timeoutSeconds, now)
      case Err(e) => (s, Err(e))
      case Ok(bounds) =>
        var ready := s.(timebounds := Some(bounds), timeoutApplied := true, sequence := s.sequence + 1);
        var tx := Contents(ready, ready.sequence);
        (ready.(raw := Some(tx)), Ok(tx))
  }

  function Judge(tx: Transaction, answer: Simulation): Reply {
    match answer
    case NoAnswer => Sent(tx, RequestFailed)
    case SimulationError => Sent(tx, SimulationFailed)
    case RestoreRequired => Sent(tx, SimulationExpired)
    case SimulationSuccess(data) => Assembled(tx, data)
    case Unrecognised => Sent(tx, SimulationFailed)
  }

  function Step(s: State, call: Call): (r: (State, Reply))
    requires Inv(s)
    ensures Inv(r.0)
  {
    match call
    case Add(None) => (s, Rejected(InvalidParameter))
    case Add(Some(op)) =>
      (s.(operations := s.operations + [op], operationCount := s.operationCount + 1, raw := None), Changed)
    case AddMemo(memo) => (s.(memo := Some(memo), raw := None), Changed)
    case SetTimeout(seconds, now) => (
      match WithTimeout(s.timebounds, seconds, now)
      case Err(e) => (s, Rejected(e))
      case Ok(bounds) => (s.(timebounds := Some(bounds), timeoutApplied := true, raw := None), Changed))
    case Simulate(now, answered) => (
      match BuildRaw(s, now)
      case (t, Err(e)) => (t, Rejected(e))
      case (t, Ok(tx)) => (t, if answered then Simulated(tx) else Sent(tx, RequestFailed)))
    case Build(now, answer) =>
      match BuildRaw(s, now)
      case (t, Err(e)) => (t, Rejected(e))
      case (t, Ok(tx)) => (t, Judge(tx, answer))
  }

  // --------------------------------------------------------------- whole runs

  function Run(s: State, calls: seq<Call>): (r: (State, seq<Reply>))
    requires Inv(s)
    ensures Inv(r.0) && |r.1| == |calls|
  {
    if calls == [] then (s, [])
    else
      var (t, replies) := Run(s, calls[..|calls| - 1]);
      var (u, reply) := Step(t, calls[|calls| - 1]);
      (u, replies + [reply])
  }

  /** The raw transaction a reply is about. */
  function Raw(reply: Reply): Option<Transaction> {
    match reply
    case Simulated(tx) => Some(tx)
    case Assembled(tx, _) => Some(tx)
    case Sent(tx, _) => Some(tx)
    case _ => None
  }

  /** A transaction was handed out, and nothing has changed since. */
  ghost predicate Open(replies: seq<Reply>) {
    replies != [] &&
    var last := replies[|replies| - 1];
    Raw(last).Some? || (last != Changed && Open(replies[..|replies| - 1]))
  }

  /** How many stretches without a change had a transaction handed out in them. */
  ghost function Generations(replies: seq<Reply>): nat {
    if replies == [] then 0
    else
      var front, last := replies[..|replies| - 1], replies[|replies| - 1];
      Generations(front) + if Raw(last).Some? && !Open(front) then 1 else 0
  }

  /** Each such stretch, however many calls to `simulate` and `build` it has, takes
      exactly one sequence number. */
  lemma {:induction false} OneSequenceNumberPerStretch(s: State, calls: seq<Call>)
    requires Inv(s) && s.raw == None
    ensures var (t, replies) := Run(s, calls);
            && t.sequence == s.sequence + Generations(replies)
            && t.raw.Some? == Open(replies)
            && (t.raw.Some? ==> t.raw.value.sequence == t.sequence)
  {
    if calls != [] {
      var front := calls[..|calls| - 1];
      OneSequenceNumberPerStretch(s, front);
      var (t, replies) := Run(s, front);
      assert Run(s, calls).1[..|front|] == replies;
    }
  }

  ghost predicate HandsOut(replies: seq<Reply>, i: nat) {
    i < |replies| && Raw(replies[i]).Some?
  }

  ghost predicate ChangesAt(replies: seq<Reply>, i: nat) {
    i < |replies| && replies[i] == Changed
  }

  lemma {:induction false} RunPrefix(s: State, calls: seq<Call>, i: nat)
    requires Inv(s) && i <= |calls|
    ensures Run(s, calls[..i]).1 == Run(s, calls).1[..i]
    ensures i < |calls| ==> Run(s, calls).1[i] == Step(Run(s, calls[..i]).0, calls[i]).1
  {
    if i < |calls| {
      var front := calls[..|calls| - 1];
      assert front[..i] == calls[..i];
      RunPrefix(s, front, i);
    } else {
      assert calls[..i] == calls;
    }
  }

  /** The transaction handed out by call i carries the number of its stretch. */
  lemma HandedOutNumber(s: State, calls: seq<Call>, i: nat)
    requires Inv(s) && s.raw == None && HandsOut(Run(s, calls).1, i)
    ensures Raw(Run(s, calls).1[i]).value.sequence == s.sequence + Generations(Run(s, calls).1[..i + 1])
  {
    RunPrefix(s, calls, i);
    RunPrefix(s, calls, i + 1);
    var front := calls[..i + 1];
    assert front[..i] == calls[..i];
    OneSequenceNumberPerStretch(s, front);
    assert Run(s, front).0.raw == Raw(Run(s, calls).1[i]);
  }

  ghost predicate HandedOut(replies: seq<Reply>) {
    exists i :: 0 <= i < |replies| && HandsOut(replies, i)
  }

  /** A change after a transaction was handed out. */
  ghost predicate ChangedLate(replies: seq<Reply>) {
    exists j, k :: 0 <= j < k < |replies| && HandsOut(replies, j) && ChangesAt(replies, k)
  }

  lemma HistoryGrows(front: seq<Reply>, last: Reply)
    ensures HandedOut(front + [last]) == (HandedOut(front) || Raw(last).Some?)
    ensures ChangedLate(front + [last]) == (ChangedLate(front) || (HandedOut(front) && last == Changed))
  {
    var all, n := front + [last], |front|;
    forall i | 0 <= i < n ensures HandsOut(all, i) == HandsOut(front, i) && ChangesAt(all, i) == ChangesAt(front, i) {
    }
    if HandedOut(front) {
      var i :| 0 <= i < n && HandsOut(front, i);
      assert HandsOut(all, i) && ChangesAt(all, n) == (last == Changed);
    }
    if Raw(last).Some? {
      assert HandsOut(all, n);
    }
    if ChangedLate(front) {
      var j, k :| 0 <= j < k < n && HandsOut(front, j) && ChangesAt(front, k);
      assert HandsOut(all, j) && ChangesAt(all, k);
    }
  }

  /** Whether a stretch is open, and whether there was more than one, by history alone. */
  lemma {:induction false} GenerationsAre(replies: seq<Reply>)
    ensures (Generations(replies) > 0) == HandedOut(replies)
    ensures Open(replies) ==> HandedOut(replies)
    ensures HandedOut(replies) && !ChangedLate(replies) ==> Open(replies) && Generations(replies) == 1
    ensures ChangedLate(replies) && Open(replies) ==> Generations(replies) > 1
  {
    if replies != [] {
      var front, last := replies[..|replies| - 1], replies[|replies| - 1];
      GenerationsAre(front);
      HistoryGrows(front, last);
      assert front + [last] == replies;
    }
  }

  /** A handed-out transaction carries the account's next expected number exactly when no
      change was made after an earlier hand-out; otherwise it is numbered too high. */
  lemma NextExpectedIff(s: State, calls: seq<Call>, i: nat)
    requires Inv(s) && s.raw == None && HandsOut(Run(s, calls).1, i)
    ensures var number := Raw(Run(s, calls).1[i]).value.sequence;
            && number >= s.sequence + 1
            && (number == s.sequence + 1 <==> !ChangedLate(Run(s, calls).1[..i + 1]))
  {
    HandedOutNumber(s, calls, i);
    GenerationsAre(Run(s, calls).1[..i + 1]);
  }

  /** The operations the calls asked for, in order. */
  ghost function AddedOperations(calls: seq<Call>): seq<Operation> {
    if calls == [] then []
    else
      var front, last := AddedOperations(calls[..|calls| - 1]), calls[|calls| - 1];
      if last.Add? && last.operation.Some? then front + [last.operation.value] else front
  }

  /** The last memo they attached. */
  ghost function LastMemo(calls: seq<Call>): Option<Memo> {
    if calls == [] then None
    else
      match calls[|calls| - 1]
      case AddMemo(memo) => Some(memo)
      case _ => LastMemo(calls[..|calls| - 1])
  }

  lemma {:induction false} RunAccumulates(sequence: int, fee: nat, timeout: int, calls: seq<Call>)
    ensures var t := Run(Initial(sequence, fee, timeout), calls).0;
            && t.operations == AddedOperations(calls) && t.memo == LastMemo(calls)
            && t.fee == fee && t.timeoutSeconds == timeout
  {
    if calls != [] {
      RunAccumulates(sequence, fee, timeout, calls[..|calls| - 1]);
    }
  }

  /** No transaction is stale: each one handed out has every operation added before it
      and the latest memo, whatever was cached in between. */
  lemma NeverStale(sequence: int, fee: nat, timeout: int, calls: seq<Call>, i: nat)
    requires HandsOut(Run(Initial(sequence, fee, timeout), calls).1, i)
    ensures var tx := Raw(Run(Initial(sequence, fee, timeout), calls).1[i]).value;
            tx.operations == AddedOperations(calls[..i]) && tx.memo == LastMemo(calls[..i]) && tx.fee == fee
  {
    var s := Initial(sequence, fee, timeout);
    RunPrefix(s, calls, i);
    RunAccumulates(sequence, fee, timeout, calls[..i]);
    Hands(Run(s, calls[..i]).0, calls[i]);
  }

  lemma Hands(t: State, call: Call)
    requires Inv(t) && Raw(Step(t, call).1).Some?
    ensures var (u, reply) := Step(t, call);
            u.raw == Raw(reply) && u.operations == t.operations && u.memo == t.memo && u.fee == t.fee
  {
  }

  /** A timeout of the caller's was accepted. */
  ghost predicate TimeoutGiven(calls: seq<Call>, replies: seq<Reply>)
    requires |calls| == |replies|
  {
    calls != [] &&
    var n := |calls| - 1;
    (calls[n].SetTimeout? && replies[n] == Changed) || TimeoutGiven(calls[..n], replies[..n])
  }

  /** A positive timeout was accepted, or a transaction was handed out with the default
      one, before the caller had given any. */
  ghost predicate TimeoutFixed(timeout: int, calls: seq<Call>, replies: seq<Reply>)
    requires |calls| == |replies|
  {
    calls != [] &&
    var n := |calls| - 1;
    || (calls[n].SetTimeout? && calls[n].seconds > 0 && replies[n] == Changed)
    || (timeout > 0 && Raw(replies[n]).Some? && !TimeoutGiven(calls[..n], replies[..n]))
    || TimeoutFixed(timeout, calls[..n], replies[..n])
  }

  lemma {:induction false} MaxTimeSetIff(sequence: int, fee: nat, timeout: int, calls: seq<Call>)
    ensures var (t, replies) := Run(Initial(sequence, fee, timeout), calls);
            && (TimeoutGiven(calls, replies) ==> t.timebounds.Some?)
            && (t.timebounds.Some? && timeout > 0 && !TimeoutGiven(calls, replies) ==>
                  TimeoutFixed(timeout, calls, replies))
            && (t.timebounds.Some? && t.timebounds.value.maxTime > 0 <==> TimeoutFixed(timeout, calls, replies))
  {
    if calls != [] {
      var n := |calls| - 1;
      MaxTimeSetIff(sequence, fee, timeout, calls[..n]);
      RunAccumulates(sequence, fee, timeout, calls[..n]);
      var (t, replies) := Run(Initial(sequence, fee, timeout), calls[..n]);
      Bounds(t, calls[n]);
      assert Run(Initial(sequence, fee, timeout), calls).1[..n] == replies;
    }
  }

  /** What one call does to the time bounds. */
  lemma Bounds(t: State, call: Call)
    requires Inv(t)
    ensures var (u, reply) := Step(t, call);
            if call.SetTimeout? && reply == Changed then
              u.timebounds.Some? && (u.timebounds.value.maxTime > 0 <==> call.seconds > 0)
            else if Raw(reply).Some? && t.timebounds == None then
              u.timebounds.Some? && (u.timebounds.value.maxTime > 0 <==> t.timeoutSeconds > 0)
            else u.timebounds == t.timebounds
    ensures call.SetTimeout? && Step(t, call).1 == Changed && t.timebounds.Some? ==> t.timebounds.value.maxTime <= 0
  {
  }

  /** The documented timeout override works exactly until a positive timeout was accepted
      or a transaction handed out with the default one; after that it is refused. */
  lemma OverrideAcceptedIff(sequence: int, fee: nat, timeout: int, calls: seq<Call>, seconds: int, now: nat)
    ensures var (t, replies) := Run(Initial(sequence, fee, timeout), calls);
            var (u, reply) := Step(t, SetTimeout(seconds, now));
            && (reply == Changed <==> seconds >= 0 && !TimeoutFixed(timeout, calls, replies))
            && (reply != Changed ==> u == t)
  {
    MaxTimeSetIff(sequence, fee, timeout, calls);
  }

  /** A transaction is handed out exactly when there are operations and a timeout can be
      set; a build assembles it exactly with a successful answer, and that answer's data. */
  lemma BuildIff(s: State, now: nat, answer: Simulation, answered: bool)
    requires Inv(s)
    ensures var ready := s.operations != [] && (s.timebounds.Some? || s.timeoutSeconds >= 0);
            var simulated, built := Step(s, Simulate(now, answered)).1, Step(s, Build(now, answer)).1;
            && (Raw(simulated).Some? <==> ready) && (Raw(built) == Raw(simulated))
            && (simulated.Simulated? <==> ready && answered)
            && (built.Assembled? <==> ready && answer.SimulationSuccess?)
            && (built.Assembled? ==> built.data == answer.data)
            && (ready && answer.RestoreRequired? ==> built.Sent? && built.failure == SimulationExpired)
            && (s.operations == [] ==> simulated == built == Rejected(NoOperations))
  {
  }

  /** The maximum time in force: of the caller's last accepted timeout, or of the default
      one, set when a transaction is handed out before any. */
  ghost function Deadline(timeout: int, calls: seq<Call>, replies: seq<Reply>): Option<int>
    requires |calls| == |replies|
  {
    if calls == [] then None
    else
      var n := |calls| - 1;
      var before := Deadline(timeout, calls[..n], replies[..n]);
      match calls[n]
      case SetTimeout(seconds, now) =>
        if replies[n] == Changed then Some(if seconds > 0 then now + seconds else 0) else before
      case Simulate(now, _) => DefaultDeadline(timeout, before, now, replies[n])
      case Build(now, _) => DefaultDeadline(timeout, before, now, replies[n])
      case _ => before
  }

  ghost function DefaultDeadline(timeout: int, before: Option<int>, now: nat, reply: Reply): Option<int> {
    if Raw(reply).Some? && before == None then Some(if timeout > 0 then now + timeout else 0) else before
  }

  ghost predicate BoundedBy(bounds: Option<TimeBounds>, deadline: Option<int>) {
    bounds == if deadline.Some? then Some(TimeBounds(0, deadline.value)) else None
  }

  lemma DeadlineStep(t: State, call: Call, before: Option<int>)
    requires Inv(t) && BoundedBy(t.timebounds, before)
    ensures var (u, reply) := Step(t, call);
            BoundedBy(u.timebounds,
              match call
              case SetTimeout(seconds, now) =>
                if reply == Changed then Some(if seconds > 0 then now + seconds else 0) else before
              case Simulate(now, _) => DefaultDeadline(t.timeoutSeconds, before, now, reply)
              case Build(now, _) => DefaultDeadline(t.timeoutSeconds, before, now, reply)
              case _ => before)
  {
  }

  lemma {:induction false} DeadlineInForce(sequence: int, fee: nat, timeout: int, calls: seq<Call>)
    ensures var (t, replies) := Run(Initial(sequence, fee, timeout), calls);
            BoundedBy(t.timebounds, Deadline(timeout, calls, replies))
  {
    if calls != [] {
      var n := |calls| - 1;
      DeadlineInForce(sequence, fee, timeout, calls[..n]);
      RunAccumulates(sequence, fee, timeout, calls[..n]);
      var (t, replies) := Run(Initial(sequence, fee, timeout), calls[..n]);
      DeadlineStep(t, calls[n], Deadline(timeout, calls[..n], replies));
      assert Run(Initial(sequence, fee, timeout), calls).1[..n] == replies;
    }
  }

  /** A transaction handed out is valid from the start until exactly that time. */
  lemma HandedOutDeadline(sequence: int, fee: nat, timeout: int, calls: seq<Call>, i: nat)
    requires HandsOut(Run(Initial(sequence, fee, timeout), calls).1, i)
    ensures var replies := Run(Initial(sequence, fee, timeout), calls).1;
            BoundedBy(Some(Raw(replies[i]).value.timebounds), Deadline(timeout, calls[..i + 1], replies[..i + 1]))
  {
    var s := Initial(sequence, fee, timeout);
    RunPrefix(s, calls, i);
    RunPrefix(s, calls, i + 1);
    DeadlineInForce(sequence, fee, timeout, calls[..i + 1]);
    assert calls[..i + 1][..i] == calls[..i];
    HandsBounds(Run(s, calls[..i]).0, calls[i]);
  }

  lemma HandsBounds(t: State, call: Call)
    requires Inv(t) && Raw(Step(t, call).1).Some?
    ensures Step(t, call).0.timebounds == Some(Raw(Step(t, call).1).value.timebounds)
  {
  }

  lemma RunSnoc(s: State, calls: seq<Call>, call: Call)
    requires Inv(s)
    ensures var (t, replies) := Run(s, calls); var (u, reply) := Step(t, call);
            Run(s, calls + [call]) == (u, replies + [reply])
  {
    assert (calls + [call])[..|calls|] == calls;
  }

  /** Add, simulate, add, build: the transaction built is numbered one too high. */
  lemma AddedAfterSimulate(sequence: int, fee: nat, op: Operation, now: nat, data: seq<byte>)
    ensures var s := Initial(sequence, fee, 300);
            var calls := [Add(Some(op)), Simulate(now, true), Add(Some(op)), Build(now, SimulationSuccess(data))];
            var reply := Run(s, calls).1[3];
            reply.Assembled? && reply.transaction.operations == [op, op] && reply.transaction.sequence == sequence + 2
  {
    var s := Initial(sequence, fee, 300);
    var one := [] + [Add(Some(op))];
    var two := one + [Simulate(now, true)];
    var three := two + [Add(Some(op))];
    RunSnoc(s, [], Add(Some(op)));
    RunSnoc(s, one, Simulate(now, true));
    RunSnoc(s, two, Add(Some(op)));
    RunSnoc(s, three, Build(now, SimulationSuccess(data)));
    assert three + [Build(now, SimulationSuccess(data))]
        == [Add(Some(op)), Simulate(now, true), Add(Some(op)), Build(now, SimulationSuccess(data))];
  }

  /** Add, simulate, then an override of the timeout: refused. */
  lemma OverrideAfterSimulate(sequence: int, fee: nat, op: Operation, now: nat)
    ensures var s := Initial(sequence, fee, 300);
            Run(s, [Add(Some(op)), Simulate(now, true), SetTimeout(60, now)]).1[2] == Rejected(MaxTimeAlreadySet)
  {
    var s := Initial(sequence, fee, 300);
    var one := [] + [Add(Some(op))];
    var two := one + [Simulate(now, true)];
    RunSnoc(s, [], Add(Some(op)));
    RunSnoc(s, one, Simulate(now, true));
    RunSnoc(s, two, SetTimeout(60, now));
    assert two + [SetTimeout(60, now)] == [Add(Some(op)), Simulate(now, true), SetTimeout(60, now)];
  }

  // -------------------------------------------------------------------- classes

  /** The source account, which other builders may share. */
  class SourceAccount {
    var sequence: int

    constructor (sequence: int)
      ensures this.sequence == sequence
    {
      this.sequence := sequence;
    }
  }

  /** The Stellar SDK's builder. */
  class SdkBuilder {
    const source: SourceAccount
    const fee: nat
    var operations: seq<Operation>
    var memo: Option<Memo>
    var timebounds: Option<TimeBounds>

    constructor (source: SourceAccount, fee: nat)
      ensures this.source == source && this.fee == fee && operations == [] && memo == None && timebounds == None
    {
      this.source, this.fee, operations, memo, timebounds := source, fee, [], None, None;
    }

    method AddOperation(operation: Operation)
      modifies this`operations
      ensures operations == old(operations) + [operation]
    {
      operations := operations + [operation];
    }

    method AddMemo(memo: Memo)
      modifies this`memo
      ensures this.memo == Some(memo)
    {
      this.memo := Some(memo);
    }

    method SetTimeout(seconds: int, now: nat) returns (r: Result<TimeBounds, Error>)
      modifies this`timebounds
      ensures r == WithTimeout(old(timebounds), seconds, now)
      ensures timebounds == if r.Ok? then Some(r.value) else old(timebounds)
    {
      if timebounds.Some? && timebounds.value.maxTime > 0 {
        return Err(MaxTimeAlreadySet);
      }
      if seconds < 0 {
        return Err(NegativeTimeout);
      }
      var min := if timebounds.Some? then timebounds.value.minTime else 0;
      var bounds := TimeBounds(min, if seconds > 0 then now + seconds else 0);
      timebounds := Some(bounds);
      return Ok(bounds);
    }

    /** Takes a sequence number from the source account every time. */
    method Build() returns (tx: Transaction)
      requires timebounds.Some?
      modifies source
      ensures source.sequence == old(source.sequence) + 1
      ensures tx == Transaction(source.sequence, fee, operations, memo, timebounds.value)
    {
      source.sequence := source.sequence + 1;
      tx := Transaction(source.sequence, fee, operations, memo, timebounds.value);
    }
  }

  class AccountTransactionBuilder {
    const txBuilder: SdkBuilder
    const timeoutSeconds: int
    var operationCount: nat
    var timeoutApplied: bool
    var rawTransaction: Option<Transaction>

    ghost function Abstract(): State
      reads this, txBuilder, txBuilder.source
    {
      State(txBuilder.source.sequence, txBuilder.fee, timeoutSeconds,
            txBuilder.operations, txBuilder.memo, txBuilder.timebounds,
            operationCount, timeoutApplied, rawTransaction)
    }

    ghost predicate Valid()
      reads this, txBuilder, txBuilder.source
    {
      Inv(Abstract())
    }

    constructor (source: SourceAccount, fee: nat, timeoutSeconds: int)
      ensures fresh(txBuilder) && txBuilder.source == source
      ensures Valid() && Abstract() == Initial(source.sequence, fee, timeoutSeconds)
    {
      this.timeoutSeconds := timeoutSeconds;
      txBuilder := new SdkBuilder(source, fee);
      operationCount, timeoutApplied, rawTransaction := 0, false, None;
    }

    /** The constructor's check of the contract id. */
    static method Create(source: SourceAccount, accountContractId: string, fee: nat, timeoutSeconds: int)
      returns (r: Result<AccountTransactionBuilder, Error>)
      ensures r.Ok? == (accountContractId != "")
      ensures r.Ok? ==> fresh(r.value) && r.value.Valid()
      ensures r.Ok? ==> r.value.Abstract() == Initial(source.sequence, fee, timeoutSeconds)
      ensures r.Err? ==> r.error == AccountContractIdRequired
    {
      if accountContractId == "" {
        return Err(AccountContractIdRequired);
      }
      var builder := new AccountTransactionBuilder(source, fee, timeoutSeconds);
      return Ok(builder);
    }

    /** The tail of `addSessionKey`, `revokeSessionKey`, `execute` and `addOperation`;
        the encoding of the parameters may have thrown. */
    method AddOperation(operation: Option<Operation>) returns (reply: Reply)
      requires Valid()
      modifies this, txBuilder
      ensures Valid() && (Abstract(), reply) == Step(old(Abstract()), Add(operation))
    {
      if operation == None {
        return Rejected(InvalidParameter);
      }
      txBuilder.AddOperation(operation.value);
      operationCount := operationCount + 1;
      rawTransaction := None;
      return Changed;
    }

    method AttachMemo(memo: Memo) returns (reply: Reply)
      requires Valid()
      modifies this, txBuilder
      ensures Valid() && (Abstract(), reply) == Step(old(Abstract()), AddMemo(memo))
    {
      txBuilder.AddMemo(memo);
      rawTransaction := None;
      return Changed;
    }

    method OverrideTimeout(seconds: int, now: nat) returns (reply: Reply)
      requires Valid()
      modifies this, txBuilder
      ensures Valid() && (Abstract(), reply) == Step(old(Abstract()), SetTimeout(seconds, now))
    {
      var r := txBuilder.SetTimeout(seconds, now);
      if r.Err? {
        return Rejected(r.error);
      }
      timeoutApplied := true;
      rawTransaction := None;
      return Changed;
    }

    method BuildRawTransaction(now: nat) returns (r: Result<Transaction, Error>)
      requires Valid() && operationCount > 0
      modifies this, txBuilder, txBuilder.source
      ensures Valid() && (Abstract(), r) == BuildRaw(old(Abstract()), now)
    {
      if rawTransaction.Some? {
        return Ok(rawTransaction.value);
      }
      if !timeoutApplied {
        var armed := txBuilder.SetTimeout(timeoutSeconds, now);
        if armed.Err? {
          return Err(armed.error);
        }
        timeoutApplied := true;
      }
      var tx := txBuilder.Build();
      rawTransaction := Some(tx);
      return Ok(tx);
    }

    method SimulateTransaction(now: nat, answered: bool) returns (reply: Reply)
      requires Valid()
      modifies this, txBuilder, txBuilder.source
      ensures Valid() && (Abstract(), reply) == Step(old(Abstract()), Simulate(now, answered))
    {
      if operationCount == 0 {
        return Rejected(NoOperations);
      }
      var tx := BuildRawTransaction(now);
      if tx.Err? {
        return Rejected(tx.error);
      }
      return if answered then Simulated(tx.value) else Sent(tx.value, RequestFailed);
    }

    method BuildTransaction(now: nat, answer: Simulation) returns (reply: Reply)
      requires Valid()
      modifies this, txBuilder, txBuilder.source
      ensures Valid() && (Abstract(), reply) == Step(old(Abstract()), Build(now, answer))
    {
      if operationCount == 0 {
        return Rejected(NoOperations);
      }
      var tx := BuildRawTransaction(now);
      if tx.Err? {
        return Rejected(tx.error);
      }
      match answer
      case NoAnswer => return Sent(tx.value, RequestFailed);
      case SimulationError => return Sent(tx.value, SimulationFailed);
      case RestoreRequired => return Sent(tx.value, SimulationExpired);
      case SimulationSuccess(data) => return Assembled(tx.value, data);
      case Unrecognised => return Sent(tx.value, SimulationFailed);
    }
  }
}
