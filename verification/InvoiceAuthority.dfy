/** Which terms an invoice has, who can move it and when, and whose tokens it can take, in
    terms of the authorisations the host saw (contracts/invoice/src/lib.rs). */
module InvoiceAuthority {
  import opened Prelude
  import opened Xdr
  import I = Invoice
  import opened Invoice
  import opened InvoiceRuns

  // ------------------------------------------------------------------ creation

  ghost predicate HasTerms(i: I.Invoice, d: Terms) {
    && i.creator == d.creator && i.recipient == d.recipient && i.amount == d.amount && i.asset == d.asset
    && i.description == d.description && i.dueDate == d.dueDate && i.reference == d.reference
  }

  lemma CreateIff(s: State, host: Host, d: Terms)
    ensures Check(s, host, Op.Create(d)).Pass? <==>
            && d.creator in host.auths && d.amount > 0 && (d.dueDate.Some? ==> host.now < d.dueDate.value)
            && s.counter + 1 < 0x1_0000_0000_0000_0000
  {
  }

  /** A creation adds one Draft, under a new id, with the terms given; balances stay. */
  lemma CreateStores(hash: Hash, s: State, host: Host, d: Terms)
    requires TableInv(hash, s) && NoCollision(hash, s, Event(host, Op.Create(d))) && Check(s, host, Op.Create(d)).Pass?
    ensures var s', id := Step(hash, s, Event(host, Op.Create(d))), NewId(hash, s.counter + 1, host.now, d);
            && id !in s.table && s'.table.Keys == s.table.Keys + {id}
            && (forall x | x in s.table :: s'.table[x] == s.table[x]) && s'.balances == s.balances
            && var i := s'.table[id];
            && HasTerms(i, d) && i.status == Draft && i.createdAt == i.updatedAt == host.now && i.id == id
            && i.nonce == s.counter + 1 == s'.counter
  {
    NewIdIsNew(hash, s, Event(host, Op.Create(d)));
  }

  /** The id hashes the creator, the recipient, the amount, the asset, the counter and the
      time, in this order. */
  lemma IdParts(creator: Address, recipient: Address, amount: i128, asset: Address, nonce: u64, now: u64)
    ensures IdPayload(creator, recipient, amount, asset, nonce, now)
         == Encode(Addr(creator)) + (Encode(Addr(recipient)) + (Encode(I128(amount)) + (Encode(Addr(asset))
            + (Encode(U64(nonce)) + Encode(U64(now))))))
  {
    var a, b, c := Addr(creator), Addr(recipient), I128(amount);
    var d, e, f := Addr(asset), U64(nonce), U64(now);
    assert [a, b, c, d, e, f] == [a] + ([b] + ([c] + ([d] + ([e] + ([f] + [])))));
    ItemsCons(a, [b] + ([c] + ([d] + ([e] + ([f] + [])))));
    ItemsCons(b, [c] + ([d] + ([e] + ([f] + []))));
    ItemsCons(c, [d] + ([e] + ([f] + [])));
    ItemsCons(d, [e] + ([f] + []));
    ItemsCons(e, [f] + []);
    ItemsCons(f, []);
  }

  // ------------------------------------------------------------------ movement

  /** The call that a status asks for: its kind, its time, and whose authorisation. */
  ghost predicate Entitled(i: I.Invoice, e: Event, status: Status) {
    match status
    case Draft => false
    case Open =>
      e.op == OpenInvoice(i.id) && i.status == Draft && i.creator in e.host.auths
      && (i.dueDate.Some? ==> e.host.now < i.dueDate.value)
    case Paid =>
      && (e.op.Pay? || (e.op.PayVerified? && (e.op.amount.Some? ==> e.op.amount.value == i.amount)
                                          && (e.op.asset.Some? ==> e.op.asset.value == i.asset)))
      && e.op.id == i.id && i.status == Open && e.op.payer == i.recipient && i.recipient in e.host.auths
      && (i.dueDate.Some? ==> e.host.now <= i.dueDate.value) && e.op.tokenAccepts
    case Cancelled =>
      e.op == Cancel(i.id) && (i.status == Draft || i.status == Open) && i.creator in e.host.auths
    case Expired =>
      e.op == Expire(i.id) && i.status == Open && i.dueDate.Some? && e.host.now > i.dueDate.value
  }

  /** The invoice at a status reached by a call: the status, its time, the payment's
      reference, and nothing else. */
  ghost function Reached(i: I.Invoice, e: Event, status: Status): I.Invoice
    requires status == Paid ==> e.op.Pay? || e.op.PayVerified?
  {
    var now := e.host.now;
    match status
    case Draft => i
    case Open => i.(status := status, updatedAt := now, openedAt := Some(now))
    case Paid => i.(status := status, updatedAt := now, paidAt := Some(now), paymentTx := Some(e.op.tx))
    case Cancelled => i.(status := status, updatedAt := now, cancelledAt := Some(now))
    case Expired => i.(status := status, updatedAt := now, expiredAt := Some(now))
  }

  function Target(op: Op): Status
    requires !op.Create?
  {
    match op
    case OpenInvoice(_) => Open
    case Pay(_, _, _, _) => Paid
    case PayVerified(_, _, _, _, _, _) => Paid
    case Cancel(_) => Cancelled
    case Expire(_) => Status.Expired
  }

  lemma OnlyItsTarget(i: I.Invoice, e: Event, status: Status)
    requires Entitled(i, e, status)
    ensures !e.op.Create? && e.op.id == i.id && status == Target(e.op) && i.status != status
  {
  }

  /** The storage after a call that was entitled to move its invoice. */
  ghost function Moved(s: State, e: Event): State
    requires !e.op.Create? && e.op.id in s.table
  {
    var i, status := s.table[e.op.id], Target(e.op);
    s.(table := s.table[e.op.id := Reached(i, e, status)],
       balances := if status == Paid then Transfer(s.balances, i.asset, i.recipient, i.creator, i.amount)
                   else s.balances)
  }

  lemma PayCallIff(hash: Hash, s: State, e: Event)
    requires (e.op.Pay? || e.op.PayVerified?) && e.op.id in s.table && s.table[e.op.id].id == e.op.id
    ensures Step(hash, s, e) == if Entitled(s.table[e.op.id], e, Paid) then Moved(s, e) else s
    ensures Check(s, e.host, e.op).Pass? <==> Entitled(s.table[e.op.id], e, Paid)
  {
  }

  lemma LifeCallIff(hash: Hash, s: State, e: Event)
    requires (e.op.OpenInvoice? || e.op.Cancel? || e.op.Expire?) && e.op.id in s.table && s.table[e.op.id].id == e.op.id
    ensures Step(hash, s, e) == if Entitled(s.table[e.op.id], e, Target(e.op)) then Moved(s, e) else s
    ensures Check(s, e.host, e.op).Pass? <==> Entitled(s.table[e.op.id], e, Target(e.op))
  {
  }

  /** A call on a stored invoice succeeds exactly when it is the call its status asks for. */
  lemma CallIff(hash: Hash, s: State, e: Event)
    requires !e.op.Create? && e.op.id in s.table && s.table[e.op.id].id == e.op.id
    ensures Step(hash, s, e) == if Entitled(s.table[e.op.id], e, Target(e.op)) then Moved(s, e) else s
    ensures Check(s, e.host, e.op).Pass? <==> Entitled(s.table[e.op.id], e, Target(e.op))
  {
    if e.op.Pay? || e.op.PayVerified? {
      PayCallIff(hash, s, e);
    } else {
      LifeCallIff(hash, s, e);
    }
  }

  /** Past the due date the recipient's own payment is refused as expired, and leaves nothing. */
  lemma LatePaymentRefused(hash: Hash, s: State, host: Host, id: Id, tx: Bytes32, tokenAccepts: bool)
    requires id in s.table && s.table[id].status == Open && s.table[id].recipient in host.auths
    requires s.table[id].dueDate.Some? && s.table[id].dueDate.value < host.now
    ensures var op := Op.Pay(id, s.table[id].recipient, tx, tokenAccepts);
            Check(s, host, op) == Fail(InvoiceError.Expired) && Step(hash, s, Event(host, op)) == s
  {
  }

  /** A call on an unknown invoice changes nothing. */
  lemma UnknownStays(hash: Hash, s: State, e: Event)
    requires !e.op.Create? && e.op.id !in s.table
    ensures Step(hash, s, e) == s
  {
  }

  lemma OthersStay(hash: Hash, s: State, e: Event, id: Id)
    requires TableInv(hash, s) && NoCollision(hash, s, e) && id in s.table && (e.op.Create? || e.op.id != id)
    ensures id in Step(hash, s, e).table && Step(hash, s, e).table[id] == s.table[id]
  {
    if e.op.Create? {
      if Check(s, e.host, e.op).Pass? {
        CreateStores(hash, s, e.host, e.op.terms);
      }
    } else if e.op.id in s.table {
      CallIff(hash, s, e);
    } else {
      UnknownStays(hash, s, e);
    }
  }

  /** A call changes an invoice to a status exactly when it is the call that status asks
      for; and then it changes what belongs to that status alone. */
  lemma StatusIff(hash: Hash, s: State, e: Event, id: Id, status: Status)
    requires TableInv(hash, s) && NoCollision(hash, s, e) && id in s.table
    ensures id in Step(hash, s, e).table
    ensures var i, i' := s.table[id], Step(hash, s, e).table[id];
            && (i' != i && i'.status == status <==> Entitled(i, e, status))
            && (Entitled(i, e, status) ==> i' == Reached(i, e, status))
  {
    if Entitled(s.table[id], e, status) {
      OnlyItsTarget(s.table[id], e, status);
    }
    if e.op.Create? || e.op.id != id {
      OthersStay(hash, s, e, id);
    } else {
      CallIff(hash, s, e);
    }
  }

  lemma ChangeHasCause(hash: Hash, s: State, e: Event, id: Id)
    requires TableInv(hash, s) && NoCollision(hash, s, e) && id in s.table
    ensures id in Step(hash, s, e).table
    ensures var i, i' := s.table[id], Step(hash, s, e).table[id];
            i' != i ==> Entitled(i, e, i'.status) && i' == Reached(i, e, i'.status)
  {
    StatusIff(hash, s, e, id, Draft);
    StatusIff(hash, s, e, id, Step(hash, s, e).table[id].status);
  }

  /** Over any run, an invoice whose status changed got its last one from the call that the
      status asks for, with the terms it had from the start. */
  lemma {:induction false} StatusHasCause(hash: Hash, s: State, clock: int, es: seq<Event>, id: Id) returns (k: nat)
    requires Inv(hash, s, clock) && Plausible(hash, s, clock, es) && id in s.table
    requires id in Run(hash, s, es).table && Run(hash, s, es).table[id].status != s.table[id].status
    ensures k < |es| && id in Run(hash, s, es[..k]).table
    ensures var i, i' := Run(hash, s, es[..k]).table[id], Run(hash, s, es).table[id];
            SameIdentity(s.table[id], i) && Entitled(i, es[k], i'.status) && i' == Reached(i, es[k], i'.status)
  {
    var n := |es| - 1;
    var front, last := es[..n], es[n];
    History(hash, s, clock, front, id);
    RunInv(hash, s, clock, front);
    var mid := Run(hash, s, front);
    ChangeHasCause(hash, mid, last, id);
    if Step(hash, mid, last).table[id] != mid.table[id] {
      k := n;
    } else {
      k := StatusHasCause(hash, s, clock, front, id);
      assert front[..k] == es[..k];
    }
  }

  /** Whatever happens after a creation, the invoice keeps its terms; and if it is Paid, its
      recipient authorised that, not after the due date given. */
  lemma CreatedThenPaid(hash: Hash, s: State, clock: int, host: Host, d: Terms, es: seq<Event>) returns (k: nat)
    requires Inv(hash, s, clock) && clock <= host.now && NoCollision(hash, s, Event(host, Op.Create(d)))
    requires Check(s, host, Op.Create(d)).Pass?
    requires Plausible(hash, Step(hash, s, Event(host, Op.Create(d))), host.now, es)
    ensures var s' := Run(hash, Step(hash, s, Event(host, Op.Create(d))), es);
            var id := NewId(hash, s.counter + 1, host.now, d);
            && id in s'.table && HasTerms(s'.table[id], d)
            && (s'.table[id].status == Paid ==>
                  && k < |es| && d.recipient in es[k].host.auths && s'.table[id].paidAt == Some(es[k].host.now)
                  && (d.dueDate.Some? ==> es[k].host.now <= d.dueDate.value))
  {
    var e, id := Event(host, Op.Create(d)), NewId(hash, s.counter + 1, host.now, d);
    var s0 := Step(hash, s, e);
    CreateStores(hash, s, host, d);
    StepInv(hash, s, e, clock);
    History(hash, s0, host.now, es, id);
    k := 0;
    if Run(hash, s0, es).table[id].status == Paid {
      k := StatusHasCause(hash, s0, host.now, es, id);
    }
  }

  // -------------------------------------------------------------------- money

  /** Balances move only with a payment: the invoice's amount, from its recipient to its
      creator, in its asset. */
  lemma BalanceStep(hash: Hash, s: State, e: Event, asset: Address, account: Address)
    requires TableInv(hash, s)
    ensures BalanceOf(Step(hash, s, e).balances, asset, account) - BalanceOf(s.balances, asset, account) ==
      if e.op.Create? || e.op.id !in s.table || !Entitled(s.table[e.op.id], e, Paid) || s.table[e.op.id].asset != asset
      then 0
      else
        var i := s.table[e.op.id];
        (if i.creator == account then i.amount else 0) - (if i.recipient == account then i.amount else 0)
  {
    if e.op.Create? {
      CreateKeepsBalances(hash, s, e);
    } else if e.op.id !in s.table {
      UnknownStays(hash, s, e);
    } else {
      CallIff(hash, s, e);
      var i := s.table[e.op.id];
      if Entitled(i, e, Paid) {
        OnlyItsTarget(i, e, Paid);
      }
      TransferEffect(s.balances, i.asset, i.recipient, i.creator, i.amount, asset, account);
    }
  }

  lemma CreateKeepsBalances(hash: Hash, s: State, e: Event)
    requires e.op.Create?
    ensures Step(hash, s, e).balances == s.balances
  {
  }

  /** An account that authorises nothing in a run loses nothing. */
  lemma {:induction false} NothingTaken(hash: Hash, s: State, clock: int, es: seq<Event>, asset: Address,
      account: Address)
    requires Inv(hash, s, clock) && Plausible(hash, s, clock, es)
    requires forall e | e in es :: account !in e.host.auths
    ensures BalanceOf(Run(hash, s, es).balances, asset, account) >= BalanceOf(s.balances, asset, account)
  {
    if es != [] {
      var front, last := es[..|es| - 1], es[|es| - 1];
      NothingTaken(hash, s, clock, front, asset, account);
      RunInv(hash, s, clock, front);
      assert last in es;
      BalanceStep(hash, Run(hash, s, front), last, asset, account);
    }
  }

  // ------------------------------------------------------------------ refusals

  /** Why a creation is refused. */
  lemma CreateRefusals(s: State, host: Host, d: Terms)
    ensures var r := Check(s, host, Op.Create(d));
            && (d.creator !in host.auths ==> r == Fail(Trap))
            && (d.creator in host.auths && d.amount <= 0 ==> r == Fail(InvalidAmount))
            && (d.creator in host.auths && d.amount > 0 && d.dueDate.Some? && d.dueDate.value <= host.now ==>
                  r == Fail(InvalidDueDate))
  {
  }

  /** Why a payment is refused: first the payer, then the invoice. */
  lemma PayRefusals(s: State, host: Host, id: Id, payer: Address, tx: Bytes32, amount: Option<i128>,
      asset: Option<Address>, tokenAccepts: bool)
    ensures var r := Check(s, host, Op.Pay(id, payer, tx, tokenAccepts));
            if payer !in host.auths then r == Fail(Trap)
            else if id !in s.table then r == Fail(NotFound)
            else if payer != s.table[id].recipient then r == Fail(Unauthorized)
            else if s.table[id].status == Paid then r == Fail(AlreadyPaid)
            else if s.table[id].status != Open then r == Fail(InvalidStatus)
            else true
    ensures var r := Check(s, host, Op.PayVerified(id, payer, tx, amount, asset, tokenAccepts));
            if id !in s.table then r == Fail(NotFound)
            else if amount.Some? && amount.value != s.table[id].amount then r == Fail(AmountMismatch)
            else if asset.Some? && asset.value != s.table[id].asset then r == Fail(AssetMismatch)
            else r == Check(s, host, Op.Pay(id, payer, tx, tokenAccepts))
  {
  }

  /** Why an invoice is not opened, cancelled or expired. */
  lemma LifeRefusals(s: State, host: Host, id: Id)
    ensures id !in s.table ==>
              && Check(s, host, Op.OpenInvoice(id)) == Check(s, host, Op.Cancel(id)) == Fail(NotFound)
              && Check(s, host, Op.Expire(id)) == Fail(NotFound)
    ensures id in s.table && s.table[id].creator !in host.auths ==>
              Check(s, host, Op.OpenInvoice(id)) == Check(s, host, Op.Cancel(id)) == Fail(Trap)
    ensures id in s.table && s.table[id].creator in host.auths ==>
              && (s.table[id].status != Draft ==> Check(s, host, Op.OpenInvoice(id)) == Fail(InvalidStatus))
              && (s.table[id].status == Draft && s.table[id].dueDate.Some? && s.table[id].dueDate.value <= host.now ==>
                    Check(s, host, Op.OpenInvoice(id)) == Fail(InvoiceError.Expired))
              && (Check(s, host, Op.Cancel(id)).Fail? ==> Check(s, host, Op.Cancel(id)) == Fail(InvalidStatus))
    ensures var r := Check(s, host, Op.Expire(id)); id in s.table && r.Fail? ==> r == Fail(InvalidStatus)
  {
  }
}
