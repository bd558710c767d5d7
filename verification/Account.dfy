/** The smart account as a state machine: its storage, its entry points as
    checks and effects, and runs (contracts/account/src/lib.rs). */
module Account {
  import opened Prelude
  import opened Xdr
  import opened AccountValidation

  type SymbolName = s: seq<byte> | |s| <= 32 witness []
  type Args = a: seq<ScVal> | Encodable(Vec(a)) witness []

  datatype SessionKey = SessionKey(
    publicKey: Bytes32,
    expiresAt: u64,
    permissions: seq<u32>,
    allowedContracts: Option<seq<Address>>,
    maxAmountPerCall: Option<i128>,
    cumulativeLimit: Option<i128>,
    spendWindowStart: u64,
    spendWindowSeconds: u64,
    spentInWindow: i128)

  datatype State = State(
    owner: Option<Address>,
    nonce: Option<u64>,
    version: Option<u32>,
    sessionKeys: map<Bytes32, SessionKey>,
    modules: seq<Address>,
    owners: Option<seq<Address>>,
    threshold: Option<u32>)

  const EMPTY := State(None, None, None, map[], [], None, None)

  datatype CallerIdentity = ByOwner | BySessionKey(publicKey: Bytes32) | ByQuorum(signers: seq<Address>)

  datatype ExecuteCall = ExecuteCall(
    caller: CallerIdentity,
    to: Address,
    fn: SymbolName,
    args: Args,
    expectedNonce: u64,
    sessionPubKey: Option<Bytes32>,
    signature: Option<Bytes64>,
    signaturePayload: Option<seq<byte>>)

  /** One ledger entry point call: its timestamp and the addresses that authorised it. */
  datatype Host = Host(now: u64, auths: set<Address>)

  /** How the contracts called by `execute` answer: the validation modules that
      approve, and the target's value (None when it traps). */
  datatype Outside = Outside(approving: set<Address>, reply: Option<ScVal>)

  type Verifier = (Bytes32, seq<byte>, Bytes64) -> bool

  datatype KeyRequest = KeyRequest(
    publicKey: Bytes32,
    expiresAt: u64,
    permissions: seq<u32>,
    allowedContracts: Option<seq<Address>>,
    maxAmountPerCall: Option<i128>,
    cumulativeLimit: Option<i128>,
    spendWindowSeconds: u64)

  datatype Op =
    | Initialize(owner: Address)
    | Execute(call: ExecuteCall, outside: Outside)
    | AddSessionKey(request: KeyRequest)
    | RevokeSessionKey(publicKey: Bytes32)
    | SetAllowedContracts(publicKey: Bytes32, allowed: Option<seq<Address>>)
    | RefreshSessionKeyTtl(publicKey: Bytes32)
    | RegisterModule(mod: Address)
    | UnregisterModule(mod: Address)
    | InitializeMultiOwner(newOwners: seq<Address>, newThreshold: u32)
    | AddOwner(signers: seq<Address>, added: Address)
    | RemoveOwner(signers: seq<Address>, removed: Address)
    | SetThreshold(signers: seq<Address>, newThreshold: u32)
    | Upgrade(wasmHash: Bytes32)
    | Migrate(newVersion: u32)

  datatype Event = Event(host: Host, op: Op)

  // ----------------------------------------------------------------- spending

  ghost function PositiveAmount(v: ScVal): i128 {
    if v.I128? && v.i128 > 0 then v.i128 else 0
  }

  /** The spend of a call: its largest positive i128 argument, 0 if it has none. */
  ghost function SpendOf(args: seq<ScVal>): (n: i128)
    ensures n >= 0
  {
    if args == [] then 0
    else
      var before, last := SpendOf(args[..|args| - 1]), PositiveAmount(args[|args| - 1]);
      if before < last then last else before
  }

  /** What `SpendOf` means: an upper bound of the i128 arguments, attained when positive. */
  lemma {:induction false} SpendOfIsMaximum(args: seq<ScVal>)
    ensures forall v | v in args && v.I128? :: v.i128 <= SpendOf(args)
    ensures SpendOf(args) > 0 ==> I128(SpendOf(args)) in args
  {
    if args != [] {
      SpendOfIsMaximum(args[..|args| - 1]);
      assert args == args[..|args| - 1] + [args[|args| - 1]];
    }
  }

  ghost function SpendInput(k: SessionKey, now: u64, amount: i128): SpendCheckInput {
    SpendCheckInput(if amount > 0 then Some(amount) else None, k.maxAmountPerCall, k.cumulativeLimit,
                    k.spendWindowStart, k.spendWindowSeconds, k.spentInWindow, now)
  }

  /** The key after a call spending `amount`: a window that is over restarts now. */
  ghost function Charged(k: SessionKey, now: u64, amount: i128): SessionKey
    requires SpendAllowed(SpendInput(k, now, amount))
  {
    if k.cumulativeLimit.None? || amount <= 0 then k
    else
      k.(spendWindowStart := if now > k.spendWindowStart + k.spendWindowSeconds then now else k.spendWindowStart,
         spentInWindow := Carried(k.spendWindowStart, k.spendWindowSeconds, k.spentInWindow, now) + amount)
  }

  // ------------------------------------------------------------ authorisation

  /** Every signer is an owner who authorised this call, and enough of them are distinct. */
  ghost predicate QuorumMet(auths: set<Address>, owners: seq<Address>, threshold: u32, signers: seq<Address>) {
    && (forall a | a in signers :: a in owners && a in auths)
    && |Elements(signers)| >= threshold
  }

  /** Why a quorum is refused: the first bad signer decides; with none, there are too few. */
  ghost function QuorumRefusal(auths: set<Address>, owners: seq<Address>, signers: seq<Address>): ContractError {
    if signers == [] then Unauthorized
    else if signers[0] !in owners then Unauthorized
    else if signers[0] !in auths then Trap
    else QuorumRefusal(auths, owners, signers[1..])
  }

  ghost function QuorumVerdict(s: State, host: Host, signers: seq<Address>): Verdict {
    if s.owners.None? || s.threshold.None? then Fail(NotInitialized)
    else if QuorumMet(host.auths, s.owners.value, s.threshold.value, signers) then Pass
    else Fail(QuorumRefusal(host.auths, s.owners.value, signers))
  }

  ghost function OwnerVerdict(s: State, host: Host): Verdict {
    if s.owner.None? then Fail(NotInitialized) else Need(s.owner.value in host.auths, Trap)
  }

  ghost function SessionVerdict(v: Verifier, s: State, host: Host, c: ExecuteCall): Verdict
    requires c.caller.BySessionKey?
  {
    if c.sessionPubKey != Some(c.caller.publicKey) then Fail(InvalidCallerIdentity) else
    var pk := c.caller.publicKey;
    :- Need(pk in s.sessionKeys, SessionKeyNotFound);
    var k := s.sessionKeys[pk];
    :- Need(host.now < k.expiresAt, SessionKeyExpired);
    :- Need(PERMISSION_EXECUTE in k.permissions, InsufficientPermission);
    :- Need(AllowlistPermits(k.allowedContracts, c.to), InsufficientPermission);
    var spend := SpendInput(k, host.now, SpendOf(c.args));
    if !SpendAllowed(spend) then Fail(SpendRefusal(spend))
    else
      :- Need(c.signature.Some? && c.signaturePayload.Some?, InvalidSignature);
      var payload := SigningPayload(c.to, c.fn, c.args, c.expectedNonce);
      :- Need(c.signaturePayload.value == payload, SignaturePayloadMismatch);
      Need(v(pk, payload, c.signature.value), InvalidSignature)
  }

  ghost function CallerVerdict(v: Verifier, s: State, host: Host, c: ExecuteCall): Verdict {
    if c.caller.BySessionKey? then SessionVerdict(v, s, host, c)
    else
      :- Need(c.sessionPubKey.None? && c.signature.None? && c.signaturePayload.None?, InvalidCallerIdentity);
      if c.caller.ByOwner? then OwnerVerdict(s, host) else QuorumVerdict(s, host, c.caller.signers)
  }

  function CurrentNonce(s: State): u64 {
    if s.nonce.Some? then s.nonce.value else 0
  }

  function CurrentVersion(s: State): u32 {
    if s.version.Some? then s.version.value else 0
  }

  ghost function ExecuteVerdict(v: Verifier, s: State, host: Host, c: ExecuteCall, out: Outside): Verdict {
    if c.expectedNonce != CurrentNonce(s) then Fail(InvalidNonce) else
    :- CallerVerdict(v, s, host, c);
    :- Need(CurrentNonce(s) + 1 < U64_LIMIT, ArithmeticOverflow);
    :- Need(Elements(s.modules) <= out.approving, InsufficientPermission);
    Need(out.reply.Some?, Trap)
  }

  ghost function AddKeyVerdict(s: State, host: Host, q: KeyRequest): Verdict {
    if q.expiresAt == 0 then Fail(InvalidExpiration) else
    :- Need(SpendPolicyValid(q.maxAmountPerCall, q.cumulativeLimit, q.spendWindowSeconds), InvalidSpendPolicy);
    :- OwnerVerdict(s, host);
    :- Need(PermissionsValid(q.permissions), InsufficientPermission);
    :- Need(AllowlistValid(q.allowedContracts), InsufficientPermission);
    :- Need(q.publicKey !in s.sessionKeys, SessionKeyAlreadyExists);
    Need(host.now < NormalizeExpiry(q.expiresAt).value, SessionKeyExpirationInPast)
  }

  ghost function FreshKey(host: Host, q: KeyRequest): SessionKey
    requires q.expiresAt != 0
  {
    SessionKey(q.publicKey, NormalizeExpiry(q.expiresAt).value, q.permissions, q.allowedContracts,
               q.maxAmountPerCall, q.cumulativeLimit, host.now, q.spendWindowSeconds, 0)
  }

  // -------------------------------------------------------- checks and effects

  function ZeroHash(): Bytes32 {
    seq(32, i => 0)
  }

  function Without<T(==,!new)>(s: seq<T>, x: T): (r: seq<T>)
    ensures forall y :: y in r <==> y in s && y != x
    ensures |r| <= |s|
  {
    if s == [] then []
    else
      var front := Without(s[..|s| - 1], x);
      if s[|s| - 1] == x then front else front + [s[|s| - 1]]
  }

  /** Whether an entry point succeeds, and with which error it fails. */
  ghost function Check(v: Verifier, s: State, host: Host, op: Op): Verdict {
    match op
    case Initialize(owner) =>
      :- Need(s.owner.None?, AlreadyInitialized);
      Need(owner in host.auths, Trap)
    case Execute(call, outside) => ExecuteVerdict(v, s, host, call, outside)
    case AddSessionKey(request) => AddKeyVerdict(s, host, request)
    case RevokeSessionKey(pk) =>
      :- OwnerVerdict(s, host);
      Need(pk in s.sessionKeys, SessionKeyNotFound)
    case SetAllowedContracts(pk, allowed) =>
      :- OwnerVerdict(s, host);
      :- Need(pk in s.sessionKeys, SessionKeyNotFound);
      Need(AllowlistValid(allowed), InsufficientPermission)
    case RefreshSessionKeyTtl(pk) =>
      :- OwnerVerdict(s, host);
      :- Need(pk in s.sessionKeys, SessionKeyNotFound);
      Need(host.now < s.sessionKeys[pk].expiresAt, SessionKeyExpirationInPast)
    case RegisterModule(_) => OwnerVerdict(s, host)
    case UnregisterModule(_) => OwnerVerdict(s, host)
    case InitializeMultiOwner(owners, threshold) =>
      :- Need(s.owners.None?, AlreadyInitialized);
      :- OwnerVerdict(s, host);
      Need(1 <= threshold <= |owners| && Distinct(owners), InvalidThreshold)
    case AddOwner(signers, added) =>
      :- QuorumVerdict(s, host, signers);
      Need(added !in s.owners.value, InvalidThreshold)
    case RemoveOwner(signers, removed) =>
      :- QuorumVerdict(s, host, signers);
      Need(removed in s.owners.value && |s.owners.value| > 1, InvalidThreshold)
    case SetThreshold(signers, threshold) =>
      :- QuorumVerdict(s, host, signers);
      Need(1 <= threshold <= |s.owners.value|, InvalidThreshold)
    case Upgrade(hash) =>
      :- OwnerVerdict(s, host);
      :- Need(hash != ZeroHash(), InvalidWasmHash);
      Need(CurrentVersion(s) + 1 < U32_LIMIT, ArithmeticOverflow)
    case Migrate(version) =>
      :- OwnerVerdict(s, host);
      Need(version > CurrentVersion(s), InvalidVersion)
  }

  /** The storage after an entry point that succeeds. */
  ghost function Effect(v: Verifier, s: State, host: Host, op: Op): State
    requires Check(v, s, host, op).Pass?
  {
    match op
    case Initialize(owner) => s.(owner := Some(owner), nonce := Some(0), version := Some(1))
    case Execute(c, _) =>
      var s' := s.(nonce := Some(CurrentNonce(s) + 1));
      if c.caller.BySessionKey? then
        var k := s.sessionKeys[c.caller.publicKey];
        s'.(sessionKeys := s.sessionKeys[c.caller.publicKey := Charged(k, host.now, SpendOf(c.args))])
      else s'
    case AddSessionKey(q) => s.(sessionKeys := s.sessionKeys[q.publicKey := FreshKey(host, q)])
    case RevokeSessionKey(pk) => s.(sessionKeys := s.sessionKeys - {pk})
    case SetAllowedContracts(pk, allowed) =>
      s.(sessionKeys := s.sessionKeys[pk := s.sessionKeys[pk].(allowedContracts := allowed)])
    case RefreshSessionKeyTtl(pk) =>
      var k := s.sessionKeys[pk];
      s.(sessionKeys := s.sessionKeys[pk := k.(expiresAt := NormalizeExpiry(k.expiresAt).value)])
    case RegisterModule(m) => s.(modules := if m in s.modules then s.modules else s.modules + [m])
    case UnregisterModule(m) => s.(modules := Without(s.modules, m))
    case InitializeMultiOwner(owners, threshold) => s.(owners := Some(owners), threshold := Some(threshold))
    case AddOwner(_, added) => s.(owners := Some(s.owners.value + [added]))
    case RemoveOwner(_, removed) =>
      var rest := Without(s.owners.value, removed);
      s.(owners := Some(rest), threshold := Some(if s.threshold.value > |rest| then |rest| else s.threshold.value))
    case SetThreshold(_, threshold) => s.(threshold := Some(threshold))
    case Upgrade(_) => s.(version := Some(CurrentVersion(s) + 1))
    case Migrate(version) => s.(version := Some(version))
  }

  /** One call: a failing entry point leaves storage as it was. */
  ghost function Step(v: Verifier, s: State, e: Event): State {
    if Check(v, s, e.host, e.op).Pass? then Effect(v, s, e.host, e.op) else s
  }

  ghost function Run(v: Verifier, s: State, es: seq<Event>): State {
    if es == [] then s else Step(v, Run(v, s, es[..|es| - 1]), es[|es| - 1])
  }
}
