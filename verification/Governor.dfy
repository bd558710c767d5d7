/** The upgrade governor as a state machine (contracts/upgrade/src/lib.rs and
    contracts/upgrade/src/validation.rs). */
module Governor {
  import opened Prelude

  datatype UpgradeError =
    | AlreadyInitialized
    | NotInitialized
    | InvalidWasmHash
    | ProposalNotFound
    | ProposalAlreadyExecuted
    | ProposalAlreadyCancelled
    | TimelockNotElapsed
    | ArithmeticOverflow
    | WasmTooSmall
    | WasmTooLarge
    | MissingRequiredExport
    | ForbiddenImportDetected
    | InvalidThreshold
    | InvalidSigner
    | InsufficientSignatures
    | DuplicateSignature
    | Trap  // the host aborts: a missing authorisation, or the target refuses the upgrade

  type Verdict = Outcome<UpgradeError>

  const MAX_SIGNERS: nat := 50

  datatype Proposal = Proposal(
    id: u32, wasmHash: Bytes32, proposedAt: u64, executeAfter: u64, executed: bool, cancelled: bool)

  datatype MultisigConfig = MultisigConfig(threshold: u32, signers: seq<Address>)

  datatype Policy = Policy(
    minWasmSize: u32, maxWasmSize: u32, requiredExports: seq<string>, forbiddenImports: seq<string>)

  datatype Attestation = Attestation(wasmSize: u32, exports: seq<string>, imports: seq<string>)

  /** One `upgrade` call that reached the target account. */
  datatype TargetCall = TargetCall(id: u32, wasmHash: Bytes32, at: u64)

  /** `calls` is auxiliary: the upgrades the target carried out, oldest first. */
  datatype State = State(
    owner: Option<Address>,
    target: Option<Address>,
    delay: Option<u64>,
    nextId: Option<u32>,
    proposals: map<u32, Proposal>,
    policy: Option<Policy>,
    config: Option<MultisigConfig>,
    signatures: set<(u32, Address)>,
    calls: seq<TargetCall>)

  const EMPTY := State(None, None, None, None, map[], None, None, {}, [])

  datatype Host = Host(now: u64, auths: set<Address>)

  /** `accepts`: whether the target carries the upgrade out. */
  datatype Op =
    | Initialize(owner: Address, target: Address, delay: u64)
    | Propose(wasmHash: Bytes32, attestation: Attestation)
    | ExecuteUpgrade(id: u32, accepts: bool)
    | CancelUpgrade(id: u32)
    | SetTimelockDelay(delay: u64)
    | UpdateMultisigConfig(threshold: u32, signers: seq<Address>)
    | SubmitSignature(caller: Address, id: u32)
    | ExecuteMultisig(id: u32, accepts: bool)
    | SetContractValidation(policy: Policy)

  datatype Event = Event(host: Host, op: Op)

  function DelayOf(s: State): u64 {
    if s.delay.Some? then s.delay.value else 0
  }

  function NextId(s: State): u32 {
    if s.nextId.Some? then s.nextId.value else 1
  }

  function PolicyOf(s: State): Policy {
    if s.policy.Some? then s.policy.value else Policy(0, 0, [], [])
  }

  ghost function MetadataVerdict(hash: Bytes32, p: Policy, a: Attestation): Verdict {
    if hash == seq(32, i => 0) then Fail(InvalidWasmHash) else
    :- Need(p.minWasmSize <= a.wasmSize, WasmTooSmall);
    :- Need(p.maxWasmSize > 0 ==> a.wasmSize <= p.maxWasmSize, WasmTooLarge);
    :- Need(Elements(p.requiredExports) <= Elements(a.exports), MissingRequiredExport);
    Need(Elements(p.forbiddenImports) !! Elements(a.imports), ForbiddenImportDetected)
  }

  ghost function OwnerVerdict(s: State, host: Host): Verdict {
    if s.owner.None? then Fail(NotInitialized) else Need(s.owner.value in host.auths, Trap)
  }

  ghost function PendingVerdict(s: State, id: u32): Verdict {
    if id !in s.proposals then Fail(ProposalNotFound) else
    :- Need(!s.proposals[id].executed, ProposalAlreadyExecuted);
    Need(!s.proposals[id].cancelled, ProposalAlreadyCancelled)
  }

  ghost function RipeVerdict(s: State, host: Host, id: u32): Verdict {
    if PendingVerdict(s, id).Fail? then PendingVerdict(s, id) else
    Need(s.proposals[id].executeAfter <= host.now, TimelockNotElapsed)
  }

  /** The list positions whose signer has approved. */
  ghost function Approving(signatures: set<(u32, Address)>, id: u32, signers: seq<Address>): seq<Address> {
    if signers == [] then []
    else
      var last := signers[|signers| - 1];
      Approving(signatures, id, signers[..|signers| - 1]) + if (id, last) in signatures then [last] else []
  }

  ghost function Check(s: State, host: Host, op: Op): Verdict {
    match op
    case Initialize(owner, _, _) =>
      :- Need(s.owner.None?, AlreadyInitialized);
      Need(owner in host.auths, Trap)
    case Propose(hash, attestation) =>
      :- OwnerVerdict(s, host);
      :- MetadataVerdict(hash, PolicyOf(s), attestation);
      Need(host.now + DelayOf(s) < U64_LIMIT && NextId(s) + 1 < U32_LIMIT, ArithmeticOverflow)
    case ExecuteUpgrade(id, accepts) =>
      :- RipeVerdict(s, host, id);
      :- Need(s.target.Some?, NotInitialized);
      Need(accepts, Trap)
    case CancelUpgrade(id) =>
      :- OwnerVerdict(s, host);
      PendingVerdict(s, id)
    case SetTimelockDelay(_) => OwnerVerdict(s, host)
    case UpdateMultisigConfig(threshold, signers) =>
      :- OwnerVerdict(s, host);
      :- Need(threshold != 0, InvalidThreshold);
      Need(|signers| <= MAX_SIGNERS && threshold <= |signers|, InvalidSigner)
    case SubmitSignature(caller, id) =>
      :- Need(caller in host.auths, Trap);
      :- Need(s.config.Some?, NotInitialized);
      :- Need(caller in s.config.value.signers, InvalidSigner);
      :- PendingVerdict(s, id);
      Need((id, caller) !in s.signatures, DuplicateSignature)
    case ExecuteMultisig(id, accepts) =>
      :- RipeVerdict(s, host, id);
      :- Need(s.config.Some?, NotInitialized);
      var count := |Approving(s.signatures, id, s.config.value.signers)|;
      :- Need(count >= s.config.value.threshold, InsufficientSignatures);
      :- Need(s.target.Some?, NotInitialized);
      Need(accepts, Trap)
    case SetContractValidation(_) => OwnerVerdict(s, host)
  }

  ghost function Executed(s: State, host: Host, id: u32): State
    requires id in s.proposals
  {
    var p := s.proposals[id];
    s.(proposals := s.proposals[id := p.(executed := true)],
       calls := s.calls + [TargetCall(id, p.wasmHash, host.now)])
  }

  ghost function Effect(s: State, host: Host, op: Op): State
    requires Check(s, host, op).Pass?
  {
    match op
    case Initialize(owner, target, delay) =>
      s.(owner := Some(owner), target := Some(target), delay := Some(delay), nextId := Some(1))
    case Propose(hash, _) =>
      var id := NextId(s);
      s.(nextId := Some(id + 1),
         proposals := s.proposals[id := Proposal(id, hash, host.now, host.now + DelayOf(s), false, false)])
    case ExecuteUpgrade(id, _) => Executed(s, host, id)
    case CancelUpgrade(id) => s.(proposals := s.proposals[id := s.proposals[id].(cancelled := true)])
    case SetTimelockDelay(delay) => s.(delay := Some(delay))
    case UpdateMultisigConfig(threshold, signers) => s.(config := Some(MultisigConfig(threshold, signers)))
    case SubmitSignature(caller, id) => s.(signatures := s.signatures + {(id, caller)})
    case ExecuteMultisig(id, _) => Executed(s, host, id)
    case SetContractValidation(policy) => s.(policy := Some(policy))
  }

  /** One call: a failing entry point leaves storage as it was. */
  ghost function Step(s: State, e: Event): State {
    if Check(s, e.host, e.op).Pass? then Effect(s, e.host, e.op) else s
  }

  ghost function Run(s: State, es: seq<Event>): State {
    if es == [] then s else Step(Run(s, es[..|es| - 1]), es[|es| - 1])
  }
}
