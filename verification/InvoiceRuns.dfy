/** What every run of the invoice contract keeps: the lifecycle and its times, the
    indexes, and the money. */
module InvoiceRuns {
  import opened Prelude
  import opened Xdr
  import I = Invoice
  import opened Invoice

  // ------------------------------------------------------------ one invoice

  ghost predicate AtMost(a: Option<u64>, b: u64) {
    a.Some? && a.value <= b
  }

  /** The timestamps an invoice carries are those its status and history imply, in order. */
  ghost predicate TimesOk(i: I.Invoice) {
    && (i.dueDate.Some? ==> i.createdAt < i.dueDate.value)
    && (i.openedAt.Some? ==> i.createdAt <= i.openedAt.value)
    && (i.openedAt.Some? && i.dueDate.Some? ==> i.openedAt.value < i.dueDate.value)
    && (i.paidAt.Some? <==> i.status == Paid)
    && (i.paymentTx.Some? <==> i.status == Paid)
    && (i.cancelledAt.Some? <==> i.status == Cancelled)
    && (i.expiredAt.Some? <==> i.status == Status.Expired)
    && match i.status
       case Draft => i.openedAt.None? && i.updatedAt == i.createdAt
       case Open => i.openedAt == Some(i.updatedAt)
       case Paid =>
         && AtMost(i.openedAt, i.updatedAt) && i.paidAt == Some(i.updatedAt)
         && (i.dueDate.Some? ==> AtMost(i.paidAt, i.dueDate.value))
       case Expired =>
         && AtMost(i.openedAt, i.updatedAt) && i.expiredAt == Some(i.updatedAt)
         && i.dueDate.Some? && i.dueDate.value < i.updatedAt
       case Cancelled =>
         && i.createdAt <= i.updatedAt && i.cancelledAt == Some(i.updatedAt)
         && (i.openedAt.Some? ==> AtMost(i.openedAt, i.updatedAt))
  }

  predicate Terminal(status: Status) {
    status == Paid || status == Status.Expired || status == Cancelled
  }

  /** Which statuses can follow which over any number of steps. */
  predicate Follows(a: Status, b: Status) {
    a == b || (a == Draft && (b == Open || Terminal(b))) || (a == Open && Terminal(b))
  }

  /** Which status changes one step makes. */
  predicate Moves(a: Status, b: Status) {
    || (a == Draft && (b == Open || b == Cancelled))
    || (a == Open && Terminal(b))
  }

  ghost predicate SameIdentity(a: I.Invoice, b: I.Invoice) {
    && a.id == b.id && a.creator == b.creator && a.recipient == b.recipient && a.amount == b.amount
    && a.asset == b.asset && a.description == b.description && a.dueDate == b.dueDate
    && a.reference == b.reference && a.createdAt == b.createdAt && a.nonce == b.nonce
  }

  // -------------------------------------------------------------- invariants

  ghost predicate TableInv(hash: Hash, s: State) {
    && |s.order| == s.counter
    && Distinct(s.order)
    && (forall id :: id in s.table <==> id in s.order)
    && (forall i :: 0 <= i < |s.order| ==> s.table[s.order[i]].nonce == i + 1)
    && (forall id | id in s.table :: s.table[id].id == id == hash(PayloadOf(s.table[id])))
  }

  /** The ids of a list whose invoices satisfy `party`, in list order. */
  ghost function Matching(table: map<Id, I.Invoice>, ids: seq<Id>, party: I.Invoice -> bool): seq<Id> {
    if ids == [] then []
    else
      var id := ids[|ids| - 1];
      Matching(table, ids[..|ids| - 1], party) + if id in table && party(table[id]) then [id] else []
  }

  ghost function CreatedBy(a: Address): I.Invoice -> bool {
    (i: I.Invoice) => i.creator == a
  }

  ghost function AddressedTo(a: Address): I.Invoice -> bool {
    (i: I.Invoice) => i.recipient == a
  }

  ghost predicate IndexInv(s: State) {
    forall a ::
      && Listed(s.byCreator, a) == Matching(s.table, s.order, CreatedBy(a))
      && Listed(s.byRecipient, a) == Matching(s.table, s.order, AddressedTo(a))
  }

  ghost predicate LifecycleInv(s: State, clock: int) {
    forall id | id in s.table ::
      TimesOk(s.table[id]) && s.table[id].amount > 0 && s.table[id].updatedAt <= clock
  }

  ghost predicate Inv(hash: Hash, s: State, clock: int) {
    TableInv(hash, s) && IndexInv(s) && LifecycleInv(s, clock)
  }

  /** The hash separates a new invoice's payload from those it hashed before. */
  ghost predicate NoCollision(hash: Hash, s: State, e: Event) {
    e.op.Create? && Check(s, e.host, e.op).Pass? ==>
      forall id | id in s.table ::
        var d := e.op.terms;
        var payload := IdPayload(d.creator, d.recipient, d.amount, d.asset, s.counter + 1, e.host.now);
        hash(PayloadOf(s.table[id])) == hash(payload) ==> PayloadOf(s.table[id]) == payload
  }

  /** A run the ledger can produce: its clock never goes back, and no two payloads
      that it hashes collide. */
  ghost predicate Plausible(hash: Hash, s: State, clock: int, es: seq<Event>) {
    es != [] ==>
      && Plausible(hash, s, clock, es[..|es| - 1])
      && Clock(clock, es[..|es| - 1]) <= es[|es| - 1].host.now
      && NoCollision(hash, Run(hash, s, es[..|es| - 1]), es[|es| - 1])
  }

  ghost function Clock(start: int, es: seq<Event>): int {
    if es == [] then start else es[|es| - 1].host.now
  }

  lemma PayloadNonce(i: I.Invoice, d: Terms, nonce: u64, now: u64)
    requires PayloadOf(i) == IdPayload(d.creator, d.recipient, d.amount, d.asset, nonce, now)
    ensures i.nonce == nonce
  {
    var a := [Addr(i.creator), Addr(i.recipient), I128(i.amount), Addr(i.asset), U64(i.nonce), U64(i.createdAt)];
    var b := [Addr(d.creator), Addr(d.recipient), I128(d.amount), Addr(d.asset), U64(nonce), U64(now)];
    ConcatenationInjective(a, b);
    assert a[4] == b[4];
  }

  /** The counter makes every payload new, so a new id is new. */
  lemma NewIdIsNew(hash: Hash, s: State, e: Event)
    requires TableInv(hash, s) && NoCollision(hash, s, e)
    requires e.op.Create? && Check(s, e.host, e.op).Pass?
    ensures NewId(hash, s.counter + 1, e.host.now, e.op.terms) !in s.table
  {
    var id := NewId(hash, s.counter + 1, e.host.now, e.op.terms);
    assert forall x | x in s.table :: exists i :: 0 <= i < |s.order| && s.order[i] == x;
    if id in s.table {
      PayloadNonce(s.table[id], e.op.terms, s.counter + 1, e.host.now);
    }
  }

  // ------------------------------------------------- the two kinds of change

  /** `s'` is `s` with one new Draft under an unused id. */
  ghost predicate Creates(hash: Hash, s: State, s': State, now: u64, d: Terms) {
    && s.counter + 1 < U64_LIMIT
    && d.amount > 0 && (d.dueDate.Some? ==> now < d.dueDate.value)
    && var id := NewId(hash, s.counter + 1, now, d);
       && id !in s.table
       && s' == State(s.counter + 1, s.table[id := NewInvoice(id, s.counter + 1, now, d)],
                      PushToIndex(s.byCreator, d.creator, id), PushToIndex(s.byRecipient, d.recipient, id),
                      s.balances, s.order + [id])
  }

  /** `s'` is `s` with one invoice moved along the lifecycle, and its amount
      transferred exactly if it became Paid. */
  ghost predicate Advances(s: State, s': State, now: u64, id: Id) {
    && id in s.table && id in s'.table
    && var i, i' := s.table[id], s'.table[id];
       && s' == s.(table := s.table[id := i'],
                   balances := if i'.status == Paid
                               then Transfer(s.balances, i.asset, i.recipient, i.creator, i.amount)
                               else s.balances)
       && Succeeds(i, i', now)
  }

  ghost predicate Succeeds(i: I.Invoice, i': I.Invoice, now: u64) {
    && SameIdentity(i, i')
    && Moves(i.status, i'.status)
    && i'.updatedAt == now
    && (TimesOk(i) && i.updatedAt <= now ==> TimesOk(i'))
  }

  /** Every step is one of the two, or nothing. */
  lemma StepCases(hash: Hash, s: State, e: Event)
    requires TableInv(hash, s) && NoCollision(hash, s, e)
    ensures var s' := Step(hash, s, e);
            || s' == s
            || (e.op.Create? && Creates(hash, s, s', e.host.now, e.op.terms))
            || (!e.op.Create? && Advances(s, s', e.host.now, e.op.id))
  {
    if Check(s, e.host, e.op).Pass? {
      if e.op.Create? {
        NewIdIsNew(hash, s, e);
      } else {
        AdvanceCases(hash, s, e);
      }
    }
  }

  lemma SuccessorsOk(i: I.Invoice, now: u64, tx: Bytes32)
    ensures i.status == Draft && (i.dueDate.Some? ==> now < i.dueDate.value) ==> Succeeds(i, Opened(i, now), now)
    ensures i.status == Open && (i.dueDate.Some? ==> now <= i.dueDate.value) ==> Succeeds(i, Settled(i, now, tx), now)
    ensures i.status == Open || i.status == Draft ==> Succeeds(i, Withdrawn(i, now), now)
    ensures i.status == Open && i.dueDate.Some? && now > i.dueDate.value ==> Succeeds(i, Lapsed(i, now), now)
  {
  }

  lemma PayAdvances(hash: Hash, s: State, host: Host, id: Id, payer: Address, tx: Bytes32, tokenAccepts: bool)
    requires PayVerdict(s, host, id, payer, tokenAccepts).Pass?
    ensures Advances(s, PayEffect(s, host, id, tx), host.now, id)
  {
    SuccessorsOk(s.table[id], host.now, tx);
  }

  lemma AdvanceCases(hash: Hash, s: State, e: Event)
    requires Check(s, e.host, e.op).Pass? && !e.op.Create?
    ensures Advances(s, Effect(hash, s, e.host, e.op), e.host.now, e.op.id)
  {
    match e.op
    case Pay(id, payer, tx, tokenAccepts) => PayAdvances(hash, s, e.host, id, payer, tx, tokenAccepts);
    case PayVerified(id, payer, tx, _, _, tokenAccepts) => PayAdvances(hash, s, e.host, id, payer, tx, tokenAccepts);
    case OpenInvoice(id) => SuccessorsOk(s.table[id], e.host.now, id);
    case Cancel(id) => SuccessorsOk(s.table[id], e.host.now, id);
    case Expire(id) => SuccessorsOk(s.table[id], e.host.now, id);
  }

  lemma CreatesTable(hash: Hash, s: State, s': State, now: u64, d: Terms)
    requires TableInv(hash, s) && Creates(hash, s, s', now, d)
    ensures TableInv(hash, s')
  {
  }

  lemma CreatesLifecycle(hash: Hash, s: State, s': State, clock: int, now: u64, d: Terms)
    requires LifecycleInv(s, clock) && clock <= now && Creates(hash, s, s', now, d)
    ensures LifecycleInv(s', now)
  {
  }

  /** Pushing a new id under its party keeps every list of an index exact. */
  lemma PushMatches(index: Index, key: Address, id: Id, t: map<Id, I.Invoice>, i: I.Invoice, order: seq<Id>,
                    a: Address, party: I.Invoice -> bool)
    requires Listed(index, a) == Matching(t, order, party)
    requires id !in order && party(i) == (a == key)
    ensures Listed(PushToIndex(index, key, id), a) == Matching(t[id := i], order + [id], party)
  {
    assert (order + [id])[..|order|] == order;
    MatchingSame(t, t[id := i], order, party);
  }

  lemma CreatesIndex(hash: Hash, s: State, s': State, now: u64, d: Terms)
    requires TableInv(hash, s) && IndexInv(s) && Creates(hash, s, s', now, d)
    ensures IndexInv(s')
  {
    var id := NewId(hash, s.counter + 1, now, d);
    var i := s'.table[id];
    forall a
      ensures Listed(s'.byCreator, a) == Matching(s'.table, s'.order, CreatedBy(a))
      ensures Listed(s'.byRecipient, a) == Matching(s'.table, s'.order, AddressedTo(a))
    {
      PushMatches(s.byCreator, d.creator, id, s.table, i, s.order, a, CreatedBy(a));
      PushMatches(s.byRecipient, d.recipient, id, s.table, i, s.order, a, AddressedTo(a));
    }
  }

  lemma AdvancesTable(hash: Hash, s: State, s': State, now: u64, id: Id)
    requires TableInv(hash, s) && Advances(s, s', now, id)
    ensures TableInv(hash, s')
  {
  }

  lemma AdvancesLifecycle(s: State, s': State, clock: int, now: u64, id: Id)
    requires LifecycleInv(s, clock) && clock <= now && Advances(s, s', now, id)
    ensures LifecycleInv(s', now)
  {
  }

  lemma AdvancesIndex(s: State, s': State, now: u64, id: Id)
    requires IndexInv(s) && Advances(s, s', now, id)
    ensures IndexInv(s')
  {
    forall a
      ensures Listed(s'.byCreator, a) == Matching(s'.table, s'.order, CreatedBy(a))
      ensures Listed(s'.byRecipient, a) == Matching(s'.table, s'.order, AddressedTo(a))
    {
      MatchingSame(s.table, s'.table, s.order, CreatedBy(a));
      MatchingSame(s.table, s'.table, s.order, AddressedTo(a));
    }
  }

  lemma {:induction false} MatchingSame(t: map<Id, I.Invoice>, t': map<Id, I.Invoice>, ids: seq<Id>,
      party: I.Invoice -> bool)
    requires forall id | id in ids :: (id in t <==> id in t') && (id in t ==> party(t[id]) == party(t'[id]))
    ensures Matching(t, ids, party) == Matching(t', ids, party)
  {
    if ids != [] {
      MatchingSame(t, t', ids[..|ids| - 1], party);
    }
  }

  lemma StepInv(hash: Hash, s: State, e: Event, clock: int)
    requires Inv(hash, s, clock) && NoCollision(hash, s, e) && clock <= e.host.now
    ensures Inv(hash, Step(hash, s, e), e.host.now)
  {
    StepCases(hash, s, e);
    var s' := Step(hash, s, e);
    if s' != s {
      if e.op.Create? {
        CreatesTable(hash, s, s', e.host.now, e.op.terms);
        CreatesLifecycle(hash, s, s', clock, e.host.now, e.op.terms);
        CreatesIndex(hash, s, s', e.host.now, e.op.terms);
      } else {
        AdvancesTable(hash, s, s', e.host.now, e.op.id);
        AdvancesLifecycle(s, s', clock, e.host.now, e.op.id);
        AdvancesIndex(s, s', e.host.now, e.op.id);
      }
    }
  }

  /** Every reachable contract: a coherent table, exact indexes, timestamps in order. */
  lemma {:induction false} RunInv(hash: Hash, s: State, clock: int, es: seq<Event>)
    requires Inv(hash, s, clock) && Plausible(hash, s, clock, es)
    ensures Inv(hash, Run(hash, s, es), Clock(clock, es))
  {
    if es != [] {
      var front, last := es[..|es| - 1], es[|es| - 1];
      RunInv(hash, s, clock, front);
      StepInv(hash, Run(hash, s, front), last, Clock(clock, front));
    }
  }

  lemma DeployedInv(hash: Hash, balances: Balances)
    ensures Inv(hash, Deployed(balances), 0)
  {
  }

  // ---------------------------------------------------------------- history

  /** One step keeps every invoice's identity and changes a status only along the lifecycle. */
  lemma StepMoves(hash: Hash, s: State, e: Event, id: Id)
    requires TableInv(hash, s) && NoCollision(hash, s, e) && id in s.table
    ensures id in Step(hash, s, e).table
    ensures var i, i' := s.table[id], Step(hash, s, e).table[id];
            SameIdentity(i, i') && (i' == i || Moves(i.status, i'.status))
  {
    StepCases(hash, s, e);
  }

  /** Over any run an invoice keeps its identity, follows the lifecycle, and once
      Paid, Expired or Cancelled never changes again. */
  lemma {:induction false} History(hash: Hash, s: State, clock: int, es: seq<Event>, id: Id)
    requires Inv(hash, s, clock) && Plausible(hash, s, clock, es) && id in s.table
    ensures id in Run(hash, s, es).table
    ensures var i, i' := s.table[id], Run(hash, s, es).table[id];
            && SameIdentity(i, i')
            && Follows(i.status, i'.status)
            && (Terminal(i.status) ==> i' == i)
  {
    if es != [] {
      var front, last := es[..|es| - 1], es[|es| - 1];
      History(hash, s, clock, front, id);
      RunInv(hash, s, clock, front);
      StepMoves(hash, Run(hash, s, front), last, id);
    }
  }

  // ----------------------------------------------------------------- queries

  /** An index list holds exactly the matching ids, each once, in creation order. */
  lemma {:induction false} MatchingExact(table: map<Id, I.Invoice>, ids: seq<Id>, party: I.Invoice -> bool)
    requires Distinct(ids)
    ensures Distinct(Matching(table, ids, party))
    ensures forall id :: id in Matching(table, ids, party) <==> id in ids && id in table && party(table[id])
  {
    if ids != [] {
      var front, last := ids[..|ids| - 1], ids[|ids| - 1];
      MatchingExact(table, front, party);
      assert ids == front + [last] && last !in front;
      assert last !in Matching(table, front, party);
    }
  }

  /** In every reachable contract the two listings are exact. */
  lemma ListingsExact(hash: Hash, s: State, clock: int, a: Address)
    requires Inv(hash, s, clock)
    ensures Distinct(Listed(s.byCreator, a)) && Distinct(Listed(s.byRecipient, a))
    ensures forall id :: id in Listed(s.byCreator, a) <==> id in s.table && s.table[id].creator == a
    ensures forall id :: id in Listed(s.byRecipient, a) <==> id in s.table && s.table[id].recipient == a
  {
    MatchingExact(s.table, s.order, CreatedBy(a));
    MatchingExact(s.table, s.order, AddressedTo(a));
  }

  ghost function IdsOf(invoices: seq<I.Invoice>): (ids: seq<Id>)
    ensures |ids| == |invoices|
    ensures forall i :: 0 <= i < |ids| ==> ids[i] == invoices[i].id
  {
    seq(|invoices|, i requires 0 <= i < |invoices| => invoices[i].id)
  }

  lemma {:induction false} ResolvedExact(table: map<Id, I.Invoice>, ids: seq<Id>, skip: seq<Id>)
    requires Distinct(ids) && forall id | id in ids :: id in table && table[id].id == id
    ensures var r := Resolved(table, ids, skip);
            && Distinct(IdsOf(r))
            && (forall i :: i in r ==> i.id in ids && i.id !in skip && i == table[i.id])
            && (forall id | id in ids && id !in skip :: table[id] in r)
  {
    if ids != [] {
      var front, last := ids[..|ids| - 1], ids[|ids| - 1];
      assert ids == front + [last] && last !in front;
      ResolvedExact(table, front, skip);
      var r := Resolved(table, front, skip);
      assert forall k :: 0 <= k < |r| ==> r[k] in r;
    }
  }

  /** `get_by_account` returns exactly the invoices the account is party to, each once. */
  lemma ByAccountExact(hash: Hash, s: State, clock: int, a: Address)
    requires Inv(hash, s, clock)
    ensures Distinct(IdsOf(ByAccount(s, a)))
    ensures forall i :: i in ByAccount(s, a) <==>
              i.id in s.table && i == s.table[i.id] && (i.creator == a || i.recipient == a)
  {
    var created, addressed := Listed(s.byCreator, a), Listed(s.byRecipient, a);
    MatchingExact(s.table, s.order, CreatedBy(a));
    MatchingExact(s.table, s.order, AddressedTo(a));
    ResolvedExact(s.table, created, []);
    ResolvedExact(s.table, addressed, created);
    var mine, others := Resolved(s.table, created, []), Resolved(s.table, addressed, created);
    ConcatDistinct(mine, others, created);
    assert forall i :: i in mine + others <==> i in mine || i in others;
  }

  lemma ConcatDistinct(p: seq<I.Invoice>, q: seq<I.Invoice>, ids: seq<Id>)
    requires Distinct(IdsOf(p)) && Distinct(IdsOf(q))
    requires forall i | i in p :: i.id in ids
    requires forall i | i in q :: i.id !in ids
    ensures Distinct(IdsOf(p + q))
  {
    assert forall k | 0 <= k < |p| :: p[k] in p && p[k].id in ids;
    assert forall k | 0 <= k < |q| :: q[k] in q && q[k].id !in ids;
    assert IdsOf(p + q) == IdsOf(p) + IdsOf(q);
  }

  // ------------------------------------------------------------------- money

  /** What an invoice has moved to (or, negative, from) an account. */
  ghost function Net(i: I.Invoice, asset: Address, account: Address): int {
    if i.status != Paid || i.asset != asset then 0
    else (if i.creator == account then i.amount else 0) - (if i.recipient == account then i.amount else 0)
  }

  ghost function NetSum(table: map<Id, I.Invoice>, ids: seq<Id>, asset: Address, account: Address): int
    requires forall id | id in ids :: id in table
  {
    if ids == [] then 0
    else
      NetSum(table, ids[..|ids| - 1], asset, account) + Net(table[ids[|ids| - 1]], asset, account)
  }

  lemma {:induction false} NetSumSame(t: map<Id, I.Invoice>, t': map<Id, I.Invoice>, ids: seq<Id>, asset: Address,
      account: Address)
    requires forall id | id in ids :: id in t && id in t' && Net(t[id], asset, account) == Net(t'[id], asset, account)
    ensures NetSum(t, ids, asset, account) == NetSum(t', ids, asset, account)
  {
    if ids != [] {
      NetSumSame(t, t', ids[..|ids| - 1], asset, account);
    }
  }

  /** Changing one invoice changes the sum by that invoice's difference. */
  lemma {:induction false} NetSumUpdate(t: map<Id, I.Invoice>, ids: seq<Id>, id: Id, i': I.Invoice, asset: Address,
      account: Address)
    requires Distinct(ids) && id in ids && forall x | x in ids :: x in t
    ensures NetSum(t[id := i'], ids, asset, account)
         == NetSum(t, ids, asset, account) + Net(i', asset, account) - Net(t[id], asset, account)
  {
    var front, last := ids[..|ids| - 1], ids[|ids| - 1];
    assert ids == front + [last] && last !in front;
    if id == last {
      NetSumSame(t, t[id := i'], front, asset, account);
    } else {
      NetSumUpdate(t, front, id, i', asset, account);
    }
  }

  lemma TransferEffect(b: Balances, asset: Address, from: Address, to: Address, amount: int, asset': Address,
      account: Address)
    ensures BalanceOf(Transfer(b, asset, from, to, amount), asset', account)
         == BalanceOf(b, asset', account)
            + if asset' != asset then 0
              else (if account == to then amount else 0) - (if account == from then amount else 0)
  {
  }

  lemma CreatesMoney(hash: Hash, s: State, s': State, now: u64, d: Terms, asset: Address, account: Address)
    requires TableInv(hash, s) && Creates(hash, s, s', now, d)
    ensures forall id | id in s'.order :: id in s'.table
    ensures NetSum(s'.table, s'.order, asset, account) == NetSum(s.table, s.order, asset, account)
  {
    assert s'.order[..|s'.order| - 1] == s.order;
    NetSumSame(s.table, s'.table, s.order, asset, account);
  }

  lemma AdvancesMoney(hash: Hash, s: State, s': State, now: u64, id: Id, asset: Address, account: Address)
    requires TableInv(hash, s) && Advances(s, s', now, id)
    ensures forall id | id in s'.order :: id in s'.table
    ensures BalanceOf(s'.balances, asset, account) - BalanceOf(s.balances, asset, account)
         == NetSum(s'.table, s'.order, asset, account) - NetSum(s.table, s.order, asset, account)
  {
    var i, i' := s.table[id], s'.table[id];
    NetSumUpdate(s.table, s.order, id, i', asset, account);
    TransferEffect(s.balances, i.asset, i.recipient, i.creator, i.amount, asset, account);
  }

  /** A step changes a balance by exactly what it changes in the paid invoices. */
  lemma StepMoney(hash: Hash, s: State, e: Event, asset: Address, account: Address)
    requires TableInv(hash, s) && NoCollision(hash, s, e)
    ensures forall id | id in Step(hash, s, e).order :: id in Step(hash, s, e).table
    ensures var s' := Step(hash, s, e);
            BalanceOf(s'.balances, asset, account) - BalanceOf(s.balances, asset, account)
            == NetSum(s'.table, s'.order, asset, account) - NetSum(s.table, s.order, asset, account)
  {
    StepCases(hash, s, e);
    var s' := Step(hash, s, e);
    if s' != s {
      if e.op.Create? {
        CreatesMoney(hash, s, s', e.host.now, e.op.terms, asset, account);
      } else {
        AdvancesMoney(hash, s, s', e.host.now, e.op.id, asset, account);
      }
    }
  }

  /** Over any run an account's balance changes by the Paid invoices it created
      minus the Paid invoices addressed to it: each Paid invoice moved its amount
      once, every other invoice moved nothing. */
  lemma {:induction false} MoneyMoves(hash: Hash, balances: Balances, es: seq<Event>, asset: Address, account: Address)
    requires Plausible(hash, Deployed(balances), 0, es)
    ensures var s := Run(hash, Deployed(balances), es);
            && (forall id | id in s.order :: id in s.table)
            && BalanceOf(s.balances, asset, account)
               == BalanceOf(balances, asset, account) + NetSum(s.table, s.order, asset, account)
  {
    if es != [] {
      var front, last := es[..|es| - 1], es[|es| - 1];
      MoneyMoves(hash, balances, front, asset, account);
      DeployedInv(hash, balances);
      RunInv(hash, Deployed(balances), 0, front);
      StepMoney(hash, Run(hash, Deployed(balances), front), last, asset, account);
    }
  }

  ghost function Total(b: Balances, asset: Address, accounts: seq<Address>): int {
    if accounts == [] then 0
    else Total(b, asset, accounts[..|accounts| - 1]) + BalanceOf(b, asset, accounts[|accounts| - 1])
  }

  lemma {:induction false} TransferTotal(b: Balances, asset: Address, from: Address, to: Address, amount: int,
                                         asset': Address, accounts: seq<Address>)
    requires Distinct(accounts)
    ensures Total(Transfer(b, asset, from, to, amount), asset', accounts)
         == Total(b, asset', accounts)
            + if asset' != asset then 0
              else (if to in accounts then amount else 0) - (if from in accounts then amount else 0)
  {
    if accounts != [] {
      var front, last := accounts[..|accounts| - 1], accounts[|accounts| - 1];
      assert accounts == front + [last] && last !in front;
      TransferTotal(b, asset, from, to, amount, asset', front);
      TransferEffect(b, asset, from, to, amount, asset', last);
    }
  }

  /** The total of a token over any accounts that include every party never changes. */
  lemma {:induction false} TotalConserved(hash: Hash, balances: Balances, es: seq<Event>, asset: Address,
      accounts: seq<Address>)
    requires Plausible(hash, Deployed(balances), 0, es) && Distinct(accounts)
    requires forall i :: i in Run(hash, Deployed(balances), es).table.Values ==>
      i.creator in accounts && i.recipient in accounts
    ensures Total(Run(hash, Deployed(balances), es).balances, asset, accounts) == Total(balances, asset, accounts)
  {
    if es != [] {
      var front, last := es[..|es| - 1], es[|es| - 1];
      var s := Run(hash, Deployed(balances), front);
      DeployedInv(hash, balances);
      RunInv(hash, Deployed(balances), 0, front);
      forall i | i in s.table.Values
        ensures i.creator in accounts && i.recipient in accounts
      {
        StepMoves(hash, s, last, i.id);
        assert Run(hash, Deployed(balances), es).table[i.id] in Run(hash, Deployed(balances), es).table.Values;
      }
      TotalConserved(hash, balances, front, asset, accounts);
      StepTotal(hash, s, last, asset, accounts);
    }
  }

  lemma StepTotal(hash: Hash, s: State, e: Event, asset: Address, accounts: seq<Address>)
    requires Distinct(accounts)
    requires forall i :: i in s.table.Values ==> i.creator in accounts && i.recipient in accounts
    ensures Total(Step(hash, s, e).balances, asset, accounts) == Total(s.balances, asset, accounts)
  {
    if (e.op.Pay? || e.op.PayVerified?) && Check(s, e.host, e.op).Pass? {
      var i := s.table[e.op.id];
      assert i in s.table.Values;
      TransferTotal(s.balances, i.asset, i.recipient, i.creator, i.amount, asset, accounts);
    }
  }
}
