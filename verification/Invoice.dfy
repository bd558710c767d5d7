/** The invoice contract as a state machine (contracts/invoice/src/lib.rs): the
    invoice table, its two indexes, and the token balances it moves. */
module Invoice {
  import opened Prelude
  import opened Xdr

  datatype InvoiceError =
    | NotFound
    | Unauthorized
    | InvalidStatus
    | AlreadyPaid
    | Expired
    | InvalidAmount
    | InvalidDueDate
    | AssetMismatch
    | AmountMismatch
    | Trap  // the host aborts: a missing authorisation, an overflow, a refused token transfer

  type Verdict = Outcome<InvoiceError>

  datatype Status = Draft | Open | Paid | Expired | Cancelled

  type Id = Bytes32

  datatype Invoice = Invoice(
    id: Id,
    creator: Address,
    recipient: Address,
    amount: i128,
    asset: Address,
    status: Status,
    description: Option<string>,
    dueDate: Option<u64>,
    reference: Option<string>,
    createdAt: u64,
    updatedAt: u64,
    openedAt: Option<u64>,
    paidAt: Option<u64>,
    paymentTx: Option<Bytes32>,
    cancelledAt: Option<u64>,
    expiredAt: Option<u64>,
    nonce: u64)

  datatype Terms = Terms(
    creator: Address,
    recipient: Address,
    amount: i128,
    asset: Address,
    description: Option<string>,
    dueDate: Option<u64>,
    reference: Option<string>)

  /** An account's balance of one token. */
  datatype Holding = Holding(asset: Address, account: Address)

  type Balances = map<Holding, int>
  type Index = map<Address, seq<Id>>
  type Hash = seq<byte> -> Id

  /** `order` is auxiliary: the ids in creation order. The balances belong to the
      token contracts and change only through `transfer`. */
  datatype State = State(
    counter: u64,
    table: map<Id, Invoice>,
    byCreator: Index,
    byRecipient: Index,
    balances: Balances,
    order: seq<Id>)

  datatype Host = Host(now: u64, auths: set<Address>)

  /** `tokenAccepts`: whether the token contract carries the transfer out. */
  datatype Op =
    | Create(terms: Terms)
    | OpenInvoice(id: Id)
    | Pay(id: Id, payer: Address, tx: Bytes32, tokenAccepts: bool)
    | PayVerified(id: Id, payer: Address, tx: Bytes32, amount: Option<i128>, asset: Option<Address>, tokenAccepts: bool)
    | Cancel(id: Id)
    | Expire(id: Id)

  datatype Event = Event(host: Host, op: Op)

  function Listed(index: Index, a: Address): seq<Id> {
    if a in index then index[a] else []
  }

  function PushToIndex(index: Index, a: Address, id: Id): Index {
    index[a := Listed(index, a) + [id]]
  }

  function BalanceOf(b: Balances, asset: Address, account: Address): int {
    var h := Holding(asset, account);
    if h in b then b[h] else 0
  }

  /** A token transfer, in the token contract's order: debit, then credit. */
  function Transfer(b: Balances, asset: Address, from: Address, to: Address, amount: int): Balances {
    var debited := b[Holding(asset, from) := BalanceOf(b, asset, from) - amount];
    debited[Holding(asset, to) := BalanceOf(debited, asset, to) + amount]
  }

  /** The bytes whose hash identifies an invoice. */
  function IdPayload(creator: Address, recipient: Address, amount: i128, asset: Address, nonce: u64,
      now: u64): seq<byte>
  {
    EncodeItems([Addr(creator), Addr(recipient), I128(amount), Addr(asset), U64(nonce), U64(now)])
  }

  function PayloadOf(i: Invoice): seq<byte> {
    IdPayload(i.creator, i.recipient, i.amount, i.asset, i.nonce, i.createdAt)
  }

  /** The stored invoices of a list of ids, leaving out those in `skip`. */
  ghost function Resolved(table: map<Id, Invoice>, ids: seq<Id>, skip: seq<Id>): seq<Invoice> {
    if ids == [] then []
    else
      var id := ids[|ids| - 1];
      Resolved(table, ids[..|ids| - 1], skip) + if id in table && id !in skip then [table[id]] else []
  }

  /** What `get_by_account` returns: each invoice the account is party to, once,
      an invoice it addressed to itself included. */
  ghost function ByAccount(s: State, a: Address): seq<Invoice> {
    Resolved(s.table, Listed(s.byCreator, a), [])
    + Resolved(s.table, Listed(s.byRecipient, a), Listed(s.byCreator, a))
  }

  // ----------------------------------------------------------------- checks

  ghost function PayVerdict(s: State, host: Host, id: Id, payer: Address, tokenAccepts: bool): Verdict {
    if payer !in host.auths then Fail(Trap) else
    :- Need(id in s.table, NotFound);
    var i := s.table[id];
    :- Need(payer == i.recipient, Unauthorized);
    :- Need(i.status != Paid, AlreadyPaid);
    :- Need(i.status == Open, InvalidStatus);
    :- Need(i.dueDate.Some? ==> host.now <= i.dueDate.value, InvoiceError.Expired);
    Need(tokenAccepts, Trap)
  }

  ghost function Check(s: State, host: Host, op: Op): Verdict {
    match op
    case Create(d) =>
      :- Need(d.creator in host.auths, Trap);
      :- Need(d.amount > 0, InvalidAmount);
      :- Need(d.dueDate.Some? ==> host.now < d.dueDate.value, InvalidDueDate);
      Need(s.counter + 1 < U64_LIMIT, Trap)
    case OpenInvoice(id) =>
      :- Need(id in s.table, NotFound);
      var i := s.table[id];
      :- Need(i.creator in host.auths, Trap);
      :- Need(i.status == Draft, InvalidStatus);
      Need(i.dueDate.Some? ==> host.now < i.dueDate.value, InvoiceError.Expired)
    case Pay(id, payer, _, tokenAccepts) => PayVerdict(s, host, id, payer, tokenAccepts)
    case PayVerified(id, payer, _, amount, asset, tokenAccepts) =>
      :- Need(id in s.table, NotFound);
      :- Need(amount.Some? ==> amount.value == s.table[id].amount, AmountMismatch);
      :- Need(asset.Some? ==> asset.value == s.table[id].asset, AssetMismatch);
      PayVerdict(s, host, id, payer, tokenAccepts)
    case Cancel(id) =>
      :- Need(id in s.table, NotFound);
      :- Need(s.table[id].creator in host.auths, Trap);
      Need(s.table[id].status == Open || s.table[id].status == Draft, InvalidStatus)
    case Expire(id) =>
      :- Need(id in s.table, NotFound);
      var i := s.table[id];
      Need(i.status == Open && i.dueDate.Some? && host.now > i.dueDate.value, InvalidStatus)
  }

  // ---------------------------------------------------------------- effects

  function NewId(hash: Hash, nonce: u64, now: u64, d: Terms): Id {
    hash(IdPayload(d.creator, d.recipient, d.amount, d.asset, nonce, now))
  }

  function NewInvoice(id: Id, nonce: u64, now: u64, d: Terms): Invoice {
    Invoice(id, d.creator, d.recipient, d.amount, d.asset, Draft, d.description, d.dueDate, d.reference,
            now, now, None, None, None, None, None, nonce)
  }

  function Opened(i: Invoice, now: u64): Invoice {
    i.(status := Open, openedAt := Some(now), updatedAt := now)
  }

  function Settled(i: Invoice, now: u64, tx: Bytes32): Invoice {
    i.(status := Paid, paidAt := Some(now), paymentTx := Some(tx), updatedAt := now)
  }

  function Withdrawn(i: Invoice, now: u64): Invoice {
    i.(status := Cancelled, cancelledAt := Some(now), updatedAt := now)
  }

  function Lapsed(i: Invoice, now: u64): Invoice {
    i.(status := Status.Expired, expiredAt := Some(now), updatedAt := now)
  }

  ghost function PayEffect(s: State, host: Host, id: Id, tx: Bytes32): State
    requires id in s.table
  {
    var i := s.table[id];
    s.(table := s.table[id := Settled(i, host.now, tx)],
       balances := Transfer(s.balances, i.asset, i.recipient, i.creator, i.amount))
  }

  ghost function Effect(hash: Hash, s: State, host: Host, op: Op): State
    requires Check(s, host, op).Pass?
  {
    match op
    case Create(d) =>
      var id := NewId(hash, s.counter + 1, host.now, d);
      s.(counter := s.counter + 1,
         table := s.table[id := NewInvoice(id, s.counter + 1, host.now, d)],
         byCreator := PushToIndex(s.byCreator, d.creator, id),
         byRecipient := PushToIndex(s.byRecipient, d.recipient, id),
         order := s.order + [id])
    case OpenInvoice(id) => s.(table := s.table[id := Opened(s.table[id], host.now)])
    case Pay(id, _, tx, _) => PayEffect(s, host, id, tx)
    case PayVerified(id, _, tx, _, _, _) => PayEffect(s, host, id, tx)
    case Cancel(id) => s.(table := s.table[id := Withdrawn(s.table[id], host.now)])
    case Expire(id) => s.(table := s.table[id := Lapsed(s.table[id], host.now)])
  }

  /** One call: a failing entry point leaves storage as it was. */
  ghost function Step(hash: Hash, s: State, e: Event): State {
    if Check(s, e.host, e.op).Pass? then Effect(hash, s, e.host, e.op) else s
  }

  ghost function Run(hash: Hash, s: State, es: seq<Event>): State {
    if es == [] then s else Step(hash, Run(hash, s, es[..|es| - 1]), es[|es| - 1])
  }

  /** A deployed contract beside token ledgers that already hold `balances`. */
  ghost function Deployed(balances: Balances): State {
    State(0, map[], map[], map[], balances, [])
  }
}
