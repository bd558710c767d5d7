/** The invoice contract in the source's own form, proved against `Invoice`. */
module InvoiceContract {
  import opened Prelude
  import I = Invoice
  import opened Invoice

  class InvoiceStore {
    const hash: Hash
    var counter: u64
    var table: map<Id, I.Invoice>
    var byCreator: Index
    var byRecipient: Index
    var balances: Balances
    ghost var order: seq<Id>

    ghost function Model(): State
      reads this
    {
      State(counter, table, byCreator, byRecipient, balances, order)
    }

    constructor (hash: Hash, balances: Balances)
      ensures this.hash == hash && Model() == Deployed(balances)
    {
      this.hash := hash;
      counter, table, byCreator, byRecipient := 0, map[], map[], map[];
      this.balances := balances;
      order := [];
    }

    method Create(host: Host, d: Terms) returns (r: Result<Id, InvoiceError>)
      modifies this
      ensures r.Ok? <==> Check(old(Model()), host, Op.Create(d)).Pass?
      ensures r.Err? ==> Fail(r.error) == Check(old(Model()), host, Op.Create(d))
      ensures Model() == Step(hash, old(Model()), Event(host, Op.Create(d)))
      ensures r.Ok? ==> order == old(order) + [r.value]
    {
      if d.creator !in host.auths {
        return Err(Trap);
      }
      if d.amount <= 0 {
        return Err(InvalidAmount);
      }
      if d.dueDate.Some? && d.dueDate.value <= host.now {
        return Err(InvalidDueDate);
      }
      if counter + 1 >= U64_LIMIT {
        return Err(Trap);
      }
      var nonce := counter + 1;
      counter := nonce;
      var id := NewId(hash, nonce, host.now, d);
      table := table[id := NewInvoice(id, nonce, host.now, d)];
      byCreator := PushToIndex(byCreator, d.creator, id);
      byRecipient := PushToIndex(byRecipient, d.recipient, id);
      order := order + [id];
      return Ok(id);
    }

    method GetInvoice(id: Id) returns (r: Result<I.Invoice, InvoiceError>)
      ensures r == if id in table then Ok(table[id]) else Err(NotFound)
    {
      if id in table {
        return Ok(table[id]);
      }
      return Err(NotFound);
    }

    method OpenInvoice(host: Host, id: Id) returns (r: Verdict)
      modifies this
      ensures r == Check(old(Model()), host, Op.OpenInvoice(id))
      ensures Model() == Step(hash, old(Model()), Event(host, Op.OpenInvoice(id)))
    {
      if id !in table {
        return Fail(NotFound);
      }
      var invoice := table[id];
      :- Need(invoice.creator in host.auths, Trap);
      :- Need(invoice.status == Draft, InvalidStatus);
      :- Need(invoice.dueDate.Some? ==> host.now < invoice.dueDate.value, InvoiceError.Expired);
      invoice := invoice.(status := Open, openedAt := Some(host.now), updatedAt := host.now);
      table := table[id := invoice];
      return Pass;
    }

    /** The statements of `pay`. Past the due date it records the expiry and then
        returns an error, so the host undoes that record. */
    method PayBody(host: Host, id: Id, payer: Address, tx: Bytes32, tokenAccepts: bool) returns (r: Verdict)
      modifies `table, `balances
      ensures r == PayVerdict(old(Model()), host, id, payer, tokenAccepts)
      ensures r.Pass? ==> Model() == PayEffect(old(Model()), host, id, tx)
    {
      if payer !in host.auths {
        return Fail(Trap);
      }
      :- Need(id in table, NotFound);
      var invoice := table[id];
      :- Need(payer == invoice.recipient, Unauthorized);
      :- Need(invoice.status != Paid, AlreadyPaid);
      :- Need(invoice.status == Open, InvalidStatus);
      if invoice.dueDate.Some? && host.now > invoice.dueDate.value {
        invoice := invoice.(status := Status.Expired, expiredAt := Some(host.now), updatedAt := host.now);
        table := table[id := invoice];
        return Fail(InvoiceError.Expired);
      }
      :- Need(tokenAccepts, Trap);
      balances := Transfer(balances, invoice.asset, payer, invoice.creator, invoice.amount);
      invoice := invoice.(status := Paid, paidAt := Some(host.now), paymentTx := Some(tx), updatedAt := host.now);
      table := table[id := invoice];
      return Pass;
    }

    method Pay(host: Host, id: Id, payer: Address, tx: Bytes32, tokenAccepts: bool) returns (r: Verdict)
      modifies this
      ensures r == Check(old(Model()), host, Op.Pay(id, payer, tx, tokenAccepts))
      ensures Model() == Step(hash, old(Model()), Event(host, Op.Pay(id, payer, tx, tokenAccepts)))
    {
      var table', balances' := table, balances;
      r := PayBody(host, id, payer, tx, tokenAccepts);
      if r.Fail? {
        table, balances := table', balances';  // the host's rollback
      }
    }

    method PayVerified(host: Host, id: Id, payer: Address, tx: Bytes32, expectedAmount: Option<i128>,
                       expectedAsset: Option<Address>, tokenAccepts: bool) returns (r: Verdict)
      modifies this
      ensures r == Check(old(Model()), host, Op.PayVerified(id, payer, tx, expectedAmount, expectedAsset, tokenAccepts))
      ensures Model() == Step(hash, old(Model()),
                Event(host, Op.PayVerified(id, payer, tx, expectedAmount, expectedAsset, tokenAccepts)))
    {
      if id !in table {
        return Fail(NotFound);
      }
      var invoice := table[id];
      :- Need(expectedAmount.Some? ==> expectedAmount.value == invoice.amount, AmountMismatch);
      :- Need(expectedAsset.Some? ==> expectedAsset.value == invoice.asset, AssetMismatch);
      var table', balances' := table, balances;
      r := PayBody(host, id, payer, tx, tokenAccepts);
      if r.Fail? {
        table, balances := table', balances';  // the host's rollback
      }
    }

    method Cancel(host: Host, id: Id) returns (r: Verdict)
      modifies this
      ensures r == Check(old(Model()), host, Op.Cancel(id))
      ensures Model() == Step(hash, old(Model()), Event(host, Op.Cancel(id)))
    {
      if id !in table {
        return Fail(NotFound);
      }
      var invoice := table[id];
      :- Need(invoice.creator in host.auths, Trap);
      :- Need(invoice.status == Open || invoice.status == Draft, InvalidStatus);
      invoice := invoice.(status := Cancelled, cancelledAt := Some(host.now), updatedAt := host.now);
      table := table[id := invoice];
      return Pass;
    }

    method Expire(host: Host, id: Id) returns (r: Verdict)
      modifies this
      ensures r == Check(old(Model()), host, Op.Expire(id))
      ensures Model() == Step(hash, old(Model()), Event(host, Op.Expire(id)))
    {
      if id !in table {
        return Fail(NotFound);
      }
      var invoice := table[id];
      :- Need(invoice.status == Open, InvalidStatus);
      :- Need(invoice.dueDate.Some?, InvalidStatus);
      :- Need(host.now > invoice.dueDate.value, InvalidStatus);
      invoice := invoice.(status := Status.Expired, expiredAt := Some(host.now), updatedAt := host.now);
      table := table[id := invoice];
      return Pass;
    }

    method ListByCreator(creator: Address) returns (ids: seq<Id>)
      ensures ids == Listed(byCreator, creator)
    {
      ids := Listed(byCreator, creator);
    }

    method ListByRecipient(recipient: Address) returns (ids: seq<Id>)
      ensures ids == Listed(byRecipient, recipient)
    {
      ids := Listed(byRecipient, recipient);
    }

    /** The invoices an account created, then those addressed to it that it did not create. */
    method GetByAccount(account: Address) returns (invoices: seq<I.Invoice>)
      ensures invoices == ByAccount(Model(), account)
    {
      invoices := [];
      var creatorIds := ListByCreator(account);
      var recipientIds := ListByRecipient(account);
      for i := 0 to |creatorIds|
        invariant invoices == Resolved(table, creatorIds[..i], [])
      {
        assert creatorIds[..i + 1][..i] == creatorIds[..i];
        var r := GetInvoice(creatorIds[i]);
        if r.Ok? {
          invoices := invoices + [r.value];
        }
      }
      assert creatorIds[..|creatorIds|] == creatorIds;
      ghost var created := invoices;
      for i := 0 to |recipientIds|
        invariant invoices == created + Resolved(table, recipientIds[..i], creatorIds)
      {
        assert recipientIds[..i + 1][..i] == recipientIds[..i];
        if recipientIds[i] !in creatorIds {
          var r := GetInvoice(recipientIds[i]);
          if r.Ok? {
            invoices := invoices + [r.value];
          }
        }
      }
      assert recipientIds[..|recipientIds|] == recipientIds;
    }
  }
}
