/** The upgrade governor in the source's own form, proved against `Governor`. */
module GovernorContract {
  import opened Prelude
  import opened Governor

  method ValidateWasmMetadata(hash: Bytes32, policy: Policy, attestation: Attestation) returns (r: Verdict)
    ensures r == MetadataVerdict(hash, policy, attestation)
  {
    if hash == seq(32, i => 0) {
      return Fail(InvalidWasmHash);
    }
    :- Need(!(policy.minWasmSize > 0 && attestation.wasmSize < policy.minWasmSize), WasmTooSmall);
    :- Need(!(policy.maxWasmSize > 0 && attestation.wasmSize > policy.maxWasmSize), WasmTooLarge);
    for i := 0 to |policy.requiredExports|
      invariant forall k :: 0 <= k < i ==> policy.requiredExports[k] in attestation.exports
    {
      if policy.requiredExports[i] !in attestation.exports {
        assert policy.requiredExports[i] in Elements(policy.requiredExports) - Elements(attestation.exports);
        return Fail(MissingRequiredExport);
      }
    }
    for i := 0 to |policy.forbiddenImports|
      invariant forall k :: 0 <= k < i ==> policy.forbiddenImports[k] !in attestation.imports
    {
      if policy.forbiddenImports[i] in attestation.imports {
        assert policy.forbiddenImports[i] in Elements(policy.forbiddenImports) * Elements(attestation.imports);
        return Fail(ForbiddenImportDetected);
      }
    }
    return Pass;
  }

  class UpgradeGovernor {
    var owner: Option<Address>
    var target: Option<Address>
    var delay: Option<u64>
    var nextId: Option<u32>
    var proposals: map<u32, Proposal>
    var policy: Option<Policy>
    var config: Option<MultisigConfig>
    var signatures: set<(u32, Address)>
    ghost var calls: seq<TargetCall>

    ghost function Model(): State
      reads this
    {
      State(owner, target, delay, nextId, proposals, policy, config, signatures, calls)
    }

    constructor ()
      ensures Model() == EMPTY
    {
      owner, target, delay, nextId, proposals := None, None, None, None, map[];
      policy, config, signatures, calls := None, None, {}, [];
    }

    method Initialize(host: Host, newOwner: Address, targetAccount: Address, delaySeconds: u64) returns (r: Verdict)
      modifies this
      ensures r == Check(old(Model()), host, Op.Initialize(newOwner, targetAccount, delaySeconds))
      ensures Model() == Step(old(Model()), Event(host, Op.Initialize(newOwner, targetAccount, delaySeconds)))
    {
      if owner.Some? {
        return Fail(AlreadyInitialized);
      }
      :- Need(newOwner in host.auths, Trap);
      owner := Some(newOwner);
      target := Some(targetAccount);
      delay := Some(delaySeconds);
      nextId := Some(1);
      return Pass;
    }

    method RequireOwner(host: Host) returns (r: Verdict)
      ensures r == OwnerVerdict(Model(), host)
    {
      if owner.None? {
        return Fail(NotInitialized);
      }
      r := Need(owner.value in host.auths, Trap);
    }

    /** The statements of `propose_upgrade`. When the id counter is exhausted it has
        already stored the proposal, which the host then undoes. */
    method ProposeBody(host: Host, wasmHash: Bytes32, attestation: Attestation) returns (r: Result<u32, UpgradeError>)
      modifies `proposals, `nextId
      ensures var verdict := Check(old(Model()), host, Op.Propose(wasmHash, attestation));
              && (r.Ok? <==> verdict.Pass?)
              && (r.Err? ==> Fail(r.error) == verdict)
              && (r.Ok? ==> r.value == NextId(old(Model())))
              && (r.Ok? ==> Model() == Effect(old(Model()), host, Op.Propose(wasmHash, attestation)))
    {
      var allowed := RequireOwner(host);
      if allowed.Fail? {
        return Err(allowed.error);
      }
      var rules := if policy.Some? then policy.value else Policy(0, 0, [], []);
      var valid := ValidateWasmMetadata(wasmHash, rules, attestation);
      if valid.Fail? {
        return Err(valid.error);
      }
      var timelock := if delay.Some? then delay.value else 0;
      var proposalId := if nextId.Some? then nextId.value else 1;
      if host.now + timelock >= U64_LIMIT {
        return Err(ArithmeticOverflow);
      }
      proposals := proposals[proposalId :=
        Proposal(proposalId, wasmHash, host.now, host.now + timelock, false, false)];
      if proposalId + 1 >= U32_LIMIT {
        return Err(ArithmeticOverflow);
      }
      nextId := Some(proposalId + 1);
      return Ok(proposalId);
    }

    method ProposeUpgrade(host: Host, wasmHash: Bytes32, attestation: Attestation)
      returns (r: Result<u32, UpgradeError>)
      modifies this
      ensures r.Ok? <==> Check(old(Model()), host, Op.Propose(wasmHash, attestation)).Pass?
      ensures r.Err? ==> Fail(r.error) == Check(old(Model()), host, Op.Propose(wasmHash, attestation))
      ensures r.Ok? ==> r.value == NextId(old(Model()))
      ensures Model() == Step(old(Model()), Event(host, Op.Propose(wasmHash, attestation)))
    {
      var proposals', nextId' := proposals, nextId;
      r := ProposeBody(host, wasmHash, attestation);
      if r.Err? {
        proposals, nextId := proposals', nextId';  // the host's rollback
      }
    }

    method RequirePending(id: u32) returns (r: Verdict)
      ensures r == PendingVerdict(Model(), id)
    {
      if id !in proposals {
        return Fail(ProposalNotFound);
      }
      :- Need(!proposals[id].executed, ProposalAlreadyExecuted);
      r := Need(!proposals[id].cancelled, ProposalAlreadyCancelled);
    }

    method ExecuteUpgrade(host: Host, id: u32, accepts: bool) returns (r: Verdict)
      modifies this
      ensures r == Check(old(Model()), host, Op.ExecuteUpgrade(id, accepts))
      ensures Model() == Step(old(Model()), Event(host, Op.ExecuteUpgrade(id, accepts)))
    {
      r := RequirePending(id);
      if r.Fail? {
        return r;
      }
      var proposal := proposals[id];
      :- Need(host.now >= proposal.executeAfter, TimelockNotElapsed);
      :- Need(target.Some?, NotInitialized);
      :- Need(accepts, Trap);
      calls := calls + [TargetCall(id, proposal.wasmHash, host.now)];
      proposals := proposals[id := Proposal(proposal.id, proposal.wasmHash, proposal.proposedAt,
                                            proposal.executeAfter, true, proposal.cancelled)];
      return Pass;
    }

    method CancelUpgrade(host: Host, id: u32) returns (r: Verdict)
      modifies this
      ensures r == Check(old(Model()), host, Op.CancelUpgrade(id))
      ensures Model() == Step(old(Model()), Event(host, Op.CancelUpgrade(id)))
    {
      r := RequireOwner(host);
      if r.Fail? {
        return r;
      }
      :- RequirePending(id);
      proposals := proposals[id := proposals[id].(cancelled := true)];
      return Pass;
    }

    method SetTimelockDelay(host: Host, newDelay: u64) returns (r: Verdict)
      modifies this
      ensures r == Check(old(Model()), host, Op.SetTimelockDelay(newDelay))
      ensures Model() == Step(old(Model()), Event(host, Op.SetTimelockDelay(newDelay)))
    {
      r := RequireOwner(host);
      if r.Fail? {
        return r;
      }
      delay := Some(newDelay);
      return Pass;
    }

    method UpdateMultisigConfig(host: Host, threshold: u32, signers: seq<Address>) returns (r: Verdict)
      modifies this
      ensures r == Check(old(Model()), host, Op.UpdateMultisigConfig(threshold, signers))
      ensures Model() == Step(old(Model()), Event(host, Op.UpdateMultisigConfig(threshold, signers)))
    {
      r := RequireOwner(host);
      if r.Fail? {
        return r;
      }
      :- Need(threshold != 0, InvalidThreshold);
      :- Need(!(|signers| > MAX_SIGNERS || threshold > |signers|), InvalidSigner);
      config := Some(MultisigConfig(threshold, signers));
      return Pass;
    }

    method SubmitSignature(host: Host, caller: Address, id: u32) returns (r: Verdict)
      modifies this
      ensures r == Check(old(Model()), host, Op.SubmitSignature(caller, id))
      ensures Model() == Step(old(Model()), Event(host, Op.SubmitSignature(caller, id)))
    {
      if caller !in host.auths {
        return Fail(Trap);
      }
      :- Need(config.Some?, NotInitialized);
      :- Need(caller in config.value.signers, InvalidSigner);
      :- RequirePending(id);
      :- Need((id, caller) !in signatures, DuplicateSignature);
      signatures := signatures + {(id, caller)};
      return Pass;
    }

    method CountSignatures(id: u32, signers: seq<Address>) returns (count: nat)
      ensures count == |Approving(signatures, id, signers)|
    {
      count := 0;
      for i := 0 to |signers|
        invariant count == |Approving(signatures, id, signers[..i])|
      {
        assert signers[..i + 1][..i] == signers[..i];
        if (id, signers[i]) in signatures {
          count := count + 1;
        }
      }
      assert signers[..|signers|] == signers;
    }

    method ExecuteMultisigUpgrade(host: Host, id: u32, accepts: bool) returns (r: Verdict)
      modifies this
      ensures r == Check(old(Model()), host, Op.ExecuteMultisig(id, accepts))
      ensures Model() == Step(old(Model()), Event(host, Op.ExecuteMultisig(id, accepts)))
    {
      r := RequirePending(id);
      if r.Fail? {
        return r;
      }
      var proposal := proposals[id];
      :- Need(host.now >= proposal.executeAfter, TimelockNotElapsed);
      :- Need(config.Some?, NotInitialized);
      var count := CountSignatures(id, config.value.signers);
      :- Need(count >= config.value.threshold, InsufficientSignatures);
      :- Need(target.Some?, NotInitialized);
      :- Need(accepts, Trap);
      calls := calls + [TargetCall(id, proposal.wasmHash, host.now)];
      proposals := proposals[id := Proposal(proposal.id, proposal.wasmHash, proposal.proposedAt,
                                            proposal.executeAfter, true, proposal.cancelled)];
      return Pass;
    }

    method SetContractValidation(host: Host, newPolicy: Policy) returns (r: Verdict)
      modifies this
      ensures r == Check(old(Model()), host, Op.SetContractValidation(newPolicy))
      ensures Model() == Step(old(Model()), Event(host, Op.SetContractValidation(newPolicy)))
    {
      r := RequireOwner(host);
      if r.Fail? {
        return r;
      }
      policy := Some(newPolicy);
      return Pass;
    }
  }
}
