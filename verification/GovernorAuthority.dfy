/** Who may do what with the governor, in terms of the authorisations the host saw, and
    which delay and which approvals are in force (contracts/upgrade/src/lib.rs). */
module GovernorAuthority {
  import opened Prelude
  import opened Governor
  import opened GovernorRuns

  ghost predicate OwnerSigned(s: State, host: Host) {
    s.owner.Some? && s.owner.value in host.auths
  }

  ghost predicate Pending(s: State, id: u32) {
    id in s.proposals && !s.proposals[id].executed && !s.proposals[id].cancelled
  }

  // -------------------------------------------------------- what each call needs

  /** The attested code meets the policy: a real hash, a size within the bounds that are
      set, every required export, no forbidden import. */
  ghost predicate Attested(hash: Bytes32, p: Policy, a: Attestation) {
    && (exists i :: 0 <= i < 32 && hash[i] != 0)
    && p.minWasmSize <= a.wasmSize && (p.maxWasmSize == 0 || a.wasmSize <= p.maxWasmSize)
    && (forall x :: x in p.requiredExports ==> x in a.exports)
    && (forall x :: x in p.forbiddenImports ==> x !in a.imports)
  }

  lemma AttestedIff(hash: Bytes32, p: Policy, a: Attestation)
    ensures MetadataVerdict(hash, p, a).Pass? <==> Attested(hash, p, a)
  {
    assert hash == seq(32, i => 0) <==> forall i :: 0 <= i < 32 ==> hash[i] == 0;
    assert Elements(p.requiredExports) <= Elements(a.exports) <==>
           forall x :: x in p.requiredExports ==> x in Elements(a.exports);
    assert Elements(p.forbiddenImports) !! Elements(a.imports) <==>
           forall x :: x in p.forbiddenImports ==> x !in Elements(a.imports);
  }

  /** A proposal is accepted exactly from the owner, for attested code, while the clock and
      the ids last. */
  lemma ProposeIff(s: State, host: Host, hash: Bytes32, a: Attestation)
    ensures Check(s, host, Op.Propose(hash, a)).Pass? <==>
            && OwnerSigned(s, host)
            && Attested(hash, if s.policy.Some? then s.policy.value else Policy(0, 0, [], []), a)
            && host.now + DelayOf(s) < 0x1_0000_0000_0000_0000 && NextId(s) + 1 < 0x1_0000_0000
  {
    AttestedIff(hash, PolicyOf(s), a);
  }

  lemma OwnerCallsIff(s: State, host: Host, id: u32, delay: u64, threshold: u32, signers: seq<Address>, policy: Policy)
    ensures Check(s, host, Op.CancelUpgrade(id)).Pass? <==> OwnerSigned(s, host) && Pending(s, id)
    ensures Check(s, host, Op.SetTimelockDelay(delay)).Pass? <==> OwnerSigned(s, host)
    ensures Check(s, host, Op.UpdateMultisigConfig(threshold, signers)).Pass? <==>
            OwnerSigned(s, host) && 1 <= threshold <= |signers| <= 50
    ensures Check(s, host, Op.SetContractValidation(policy)).Pass? <==> OwnerSigned(s, host)
  {
  }

  /** Anyone may execute a pending proposal once its time has come and the target agrees. */
  lemma ExecuteIff(s: State, host: Host, id: u32, accepts: bool)
    ensures Check(s, host, Op.ExecuteUpgrade(id, accepts)).Pass? <==>
            Pending(s, id) && s.proposals[id].executeAfter <= host.now && s.target.Some? && accepts
  {
  }

  /** A listed signer approves a pending proposal once, by its own authorisation. */
  lemma ApproveIff(s: State, host: Host, caller: Address, id: u32)
    ensures Check(s, host, Op.SubmitSignature(caller, id)).Pass? <==>
            && caller in host.auths && s.config.Some? && caller in s.config.value.signers
            && Pending(s, id) && (id, caller) !in s.signatures
  {
  }

  /** Multisig execution further needs a configured list, enough of whose positions have a
      recorded approval. */
  lemma ExecuteMultisigIff(s: State, host: Host, id: u32, accepts: bool)
    ensures Check(s, host, Op.ExecuteMultisig(id, accepts)).Pass? <==>
            && Pending(s, id) && s.proposals[id].executeAfter <= host.now && s.target.Some? && accepts
            && s.config.Some? && Count(s.config.value.signers, Approvers(s, id)) >= s.config.value.threshold
  {
    if s.config.Some? {
      ApprovingCounts(s.signatures, id, s.config.value.signers, Approvers(s, id));
    }
  }

  /** What the owner gives is what is stored. */
  lemma OwnerCallsLeave(s: State, host: Host, hash: Bytes32, a: Attestation, id: u32, delay: u64, threshold: u32,
      signers: seq<Address>, policy: Policy)
    requires OwnerSigned(s, host)
    ensures Check(s, host, Op.Propose(hash, a)).Pass? ==>
              Step(s, Event(host, Op.Propose(hash, a)))
              == s.(nextId := Some(NextId(s) + 1),
                    proposals := s.proposals[NextId(s) :=
                      Proposal(NextId(s), hash, host.now, host.now + DelayOf(s), false, false)])
    ensures Pending(s, id) ==>
              Step(s, Event(host, Op.CancelUpgrade(id)))
              == s.(proposals := s.proposals[id := s.proposals[id].(cancelled := true)])
    ensures Step(s, Event(host, Op.SetTimelockDelay(delay))) == s.(delay := Some(delay))
    ensures 1 <= threshold <= |signers| <= 50 ==>
              Step(s, Event(host, Op.UpdateMultisigConfig(threshold, signers)))
              == s.(config := Some(MultisigConfig(threshold, signers)))
    ensures Step(s, Event(host, Op.SetContractValidation(policy))) == s.(policy := Some(policy))
  {
  }

  /** An execution calls the target now, for that proposal and its hash, and marks it. */
  lemma ExecutionLeaves(s: State, host: Host, id: u32, accepts: bool)
    requires id in s.proposals
    ensures var p := s.proposals[id];
            var done := s.(proposals := s.proposals[id := p.(executed := true)],
                           calls := s.calls + [TargetCall(id, p.wasmHash, host.now)]);
            && (Check(s, host, Op.ExecuteUpgrade(id, accepts)).Pass? ==>
                  Step(s, Event(host, Op.ExecuteUpgrade(id, accepts))) == done)
            && (Check(s, host, Op.ExecuteMultisig(id, accepts)).Pass? ==>
                  Step(s, Event(host, Op.ExecuteMultisig(id, accepts))) == done)
  {
  }

  /** A call that carries out a proposal: it was pending, its time had come, and by multisig
      enough positions had approved. */
  ghost predicate CarriesOut(s: State, e: Event, c: TargetCall) {
    && (e.op.ExecuteUpgrade? || e.op.ExecuteMultisig?) && e.op.id == c.id && e.host.now == c.at
    && Pending(s, c.id) && s.proposals[c.id].wasmHash == c.wasmHash && s.proposals[c.id].executeAfter <= e.host.now
    && (e.op.ExecuteMultisig? ==>
          s.config.Some? && Count(s.config.value.signers, Approvers(s, c.id)) >= s.config.value.threshold)
  }

  lemma OthersCallNothing(s: State, e: Event)
    requires !e.op.ExecuteUpgrade? && !e.op.ExecuteMultisig?
    ensures Step(s, e).calls == s.calls
  {
  }

  lemma CallStep(s: State, e: Event, c: TargetCall)
    requires c !in s.calls && c in Step(s, e).calls
    ensures CarriesOut(s, e, c)
  {
    match e.op
    case ExecuteUpgrade(id, accepts) =>
      ExecuteIff(s, e.host, id, accepts);
      ExecutionLeaves(s, e.host, id, accepts);
    case ExecuteMultisig(id, accepts) =>
      ExecuteMultisigIff(s, e.host, id, accepts);
      ExecutionLeaves(s, e.host, id, accepts);
    case _ => OthersCallNothing(s, e);
  }

  /** Every upgrade the target carried out in a run has such a call, at its time. */
  lemma {:induction false} CallHasCause(s: State, es: seq<Event>, c: TargetCall) returns (k: nat)
    requires c !in s.calls && c in Run(s, es).calls
    ensures k < |es| && CarriesOut(Run(s, es[..k]), es[k], c)
  {
    var n := |es| - 1;
    var front, last := es[..n], es[n];
    if c in Run(s, front).calls {
      k := CallHasCause(s, front, c);
      assert front[..k] == es[..k];
    } else {
      CallStep(Run(s, front), last, c);
      k := n;
    }
  }

  // ------------------------------------------------------------------- the owner

  /** The owner's decisions stand as they were, and no new proposal or cancellation. */
  ghost predicate SameDecisions(s: State, s': State) {
    && s'.owner == s.owner && s'.target == s.target && s'.delay == s.delay && s'.nextId == s.nextId
    && s'.policy == s.policy && s'.config == s.config && s'.proposals.Keys == s.proposals.Keys
    && forall id | id in s.proposals ::
         s'.proposals[id] == s.proposals[id].(executed := s'.proposals[id].executed)
  }

  lemma OpenCallsKeepDecisions(s: State, e: Event)
    requires e.op.ExecuteUpgrade? || e.op.ExecuteMultisig? || e.op.SubmitSignature?
    ensures SameDecisions(s, Step(s, e))
  {
  }

  lemma OwnerCallsNeedOwner(s: State, e: Event)
    requires !e.op.Initialize? && !e.op.ExecuteUpgrade? && !e.op.ExecuteMultisig? && !e.op.SubmitSignature?
    ensures Check(s, e.host, e.op).Pass? ==> OwnerSigned(s, e.host)
  {
  }

  lemma OwnerDecides(s: State, e: Event)
    requires s.owner.Some? && !SameDecisions(s, Step(s, e))
    ensures s.owner.value in e.host.auths
  {
    if e.op.ExecuteUpgrade? || e.op.ExecuteMultisig? || e.op.SubmitSignature? {
      OpenCallsKeepDecisions(s, e);
    } else if !e.op.Initialize? {
      OwnerCallsNeedOwner(s, e);
    }
  }

  /** Whatever calls come without the owner's authorisation, nothing is proposed or
      cancelled, and no delay, policy or signer list changes. */
  lemma {:induction false} NothingWithoutTheOwner(s: State, es: seq<Event>)
    requires s.owner.Some? && forall e | e in es :: s.owner.value !in e.host.auths
    ensures SameDecisions(s, Run(s, es))
  {
    if es != [] {
      var front, last := es[..|es| - 1], es[|es| - 1];
      NothingWithoutTheOwner(s, front);
      var mid := Run(s, front);
      assert last in es;
      if !SameDecisions(mid, Step(mid, last)) {
        OwnerDecides(mid, last);
      }
      DecisionsStand(s, mid, Step(mid, last));
    }
  }

  lemma DecisionsStand(a: State, b: State, c: State)
    requires SameDecisions(a, b) && SameDecisions(b, c)
    ensures SameDecisions(a, c)
  {
    forall id | id in a.proposals
      ensures c.proposals[id] == a.proposals[id].(executed := c.proposals[id].executed)
    {
      assert id in b.proposals.Keys;
    }
  }

  lemma FirstOwner(s: State, e: Event)
    requires Inv(s) && s.owner.None? && Check(s, e.host, e.op).Pass? && s == EMPTY
    ensures e.op.Initialize? && e.op.owner in e.host.auths
    ensures Step(s, e) == EMPTY.(owner := Some(e.op.owner), target := Some(e.op.target), delay := Some(e.op.delay),
                                 nextId := Some(1))
  {
  }

  // ------------------------------------------------------------------- the delay

  /** The delay last given, at initialisation or by the owner; 0 before. */
  ghost function LastDelay(s: State, es: seq<Event>): u64 {
    if es == [] then (if s.delay.Some? then s.delay.value else 0)
    else
      var front, last := es[..|es| - 1], es[|es| - 1];
      if last.op.SetTimelockDelay? && OwnerSigned(Run(s, front), last.host) then last.op.delay
      else if last.op.Initialize? && Run(s, front).owner.None? && last.op.owner in last.host.auths then last.op.delay
      else LastDelay(s, front)
  }

  lemma DelayStep(s: State, e: Event)
    ensures DelayOf(Step(s, e)) ==
      if e.op.SetTimelockDelay? && OwnerSigned(s, e.host) then e.op.delay
      else if e.op.Initialize? && s.owner.None? && e.op.owner in e.host.auths then e.op.delay
      else DelayOf(s)
  {
  }

  lemma {:induction false} DelayInForce(s: State, es: seq<Event>)
    ensures DelayOf(Run(s, es)) == LastDelay(s, es)
  {
    if es != [] {
      DelayInForce(s, es[..|es| - 1]);
      DelayStep(Run(s, es[..|es| - 1]), es[|es| - 1]);
    }
  }

  /** A proposal accepted after any run is not carried out, whatever follows, before its
      time plus the delay last given by then. */
  lemma NotBeforeTheDelay(s: State, before: seq<Event>, host: Host, hash: Bytes32, a: Attestation, after: seq<Event>)
    requires Inv(s) && Check(Run(s, before), host, Op.Propose(hash, a)).Pass?
    ensures var mid := Run(s, before);
            var calls := Run(Step(mid, Event(host, Op.Propose(hash, a))), after).calls;
            forall i | 0 <= i < |calls| && calls[i].id == NextId(mid) ::
              calls[i].wasmHash == hash && host.now + LastDelay(s, before) <= calls[i].at
  {
    RunInv(s, before);
    DelayInForce(s, before);
    TimelockHolds(Run(s, before), host, hash, a, after);
  }

  // --------------------------------------------------------------- the approvals

  /** A listed signer approved a pending proposal with its own authorisation. */
  ghost predicate Approves(s: State, e: Event, id: u32, a: Address) {
    e.op == SubmitSignature(a, id) && a in e.host.auths
    && s.config.Some? && a in s.config.value.signers && Pending(s, id)
  }

  lemma ApprovalStep(s: State, e: Event, id: u32, a: Address)
    requires (id, a) !in s.signatures
    ensures (id, a) in Step(s, e).signatures <==> Approves(s, e, id, a)
  {
    ApproveIff(s, e.host, a, id);
    if e.op.SubmitSignature? {
      ApproveIff(s, e.host, e.op.caller, e.op.id);
    } else {
      OthersKeepApprovals(s, e);
    }
  }

  lemma OthersKeepApprovals(s: State, e: Event)
    requires !e.op.SubmitSignature?
    ensures Step(s, e).signatures == s.signatures
  {
  }

  /** Every approval recorded in a run was given by that signer, listed then, for a
      proposal pending then. */
  lemma {:induction false} ApprovalHasCause(s: State, es: seq<Event>, id: u32, a: Address) returns (k: nat)
    requires (id, a) !in s.signatures && (id, a) in Run(s, es).signatures
    ensures k < |es| && Approves(Run(s, es[..k]), es[k], id, a)
  {
    var n := |es| - 1;
    var front, last := es[..n], es[n];
    if (id, a) in Run(s, front).signatures {
      k := ApprovalHasCause(s, front, id, a);
      assert front[..k] == es[..k];
    } else {
      ApprovalStep(Run(s, front), last, id, a);
      k := n;
    }
  }

  ghost predicate Authorised(s: State, es: seq<Event>, id: u32, a: Address) {
    exists k :: 0 <= k < |es| && Approves(Run(s, es[..k]), es[k], id, a)
  }

  /** A multisig execution from a deployed governor: under a threshold of 1 or a list without
      duplicates, at least threshold distinct listed signers had authorised an approval of
      that proposal; and it was pending and ripe. */
  lemma MultisigAuthorised(es: seq<Event>, host: Host, id: u32, accepts: bool)
    requires var s := Run(EMPTY, es);
             Check(s, host, Op.ExecuteMultisig(id, accepts)).Pass?
             && HonestConfig(s.config.value.threshold, s.config.value.signers)
    ensures var s := Run(EMPTY, es);
            && Pending(s, id) && s.proposals[id].executeAfter <= host.now
            && |Approvers(s, id)| >= s.config.value.threshold
            && forall a | a in Approvers(s, id) :: a in s.config.value.signers && Authorised(EMPTY, es, id, a)
  {
    var s := Run(EMPTY, es);
    MultisigExecution(s, host, id, accepts);
    forall a | a in Approvers(s, id) ensures Authorised(EMPTY, es, id, a) {
      var k := ApprovalHasCause(EMPTY, es, id, a);
    }
  }

  // ------------------------------------------------------------------ refusals

  /** What is wrong with a proposal's code. */
  lemma AttestationRefusals(hash: Bytes32, p: Policy, a: Attestation)
    ensures var r := MetadataVerdict(hash, p, a);
            if forall i :: 0 <= i < 32 ==> hash[i] == 0 then r == Fail(InvalidWasmHash)
            else if a.wasmSize < p.minWasmSize then r == Fail(WasmTooSmall)
            else if p.maxWasmSize != 0 && a.wasmSize > p.maxWasmSize then r == Fail(WasmTooLarge)
            else if exists x :: x in p.requiredExports && x !in a.exports then r == Fail(MissingRequiredExport)
            else r.Fail? ==> r == Fail(ForbiddenImportDetected)
  {
    assert hash == seq(32, i => 0) <==> forall i :: 0 <= i < 32 ==> hash[i] == 0;
    if x :| x in p.requiredExports && x !in a.exports {
      assert x in Elements(p.requiredExports) && x !in Elements(a.exports);
    }
  }

  /** Why a proposal is not executed, cancelled or approved: unknown, done, withdrawn, too early. */
  lemma PendingRefusals(s: State, host: Host, id: u32, accepts: bool)
    ensures var r := Check(s, host, Op.ExecuteUpgrade(id, accepts));
            if id !in s.proposals then r == Fail(ProposalNotFound)
            else if s.proposals[id].executed then r == Fail(ProposalAlreadyExecuted)
            else if s.proposals[id].cancelled then r == Fail(ProposalAlreadyCancelled)
            else if host.now < s.proposals[id].executeAfter then r == Fail(TimelockNotElapsed)
            else if s.target.None? then r == Fail(NotInitialized)
            else !accepts ==> r == Fail(Trap)
    ensures var r := Check(s, host, Op.ExecuteMultisig(id, accepts));
            var ripe := Pending(s, id) && s.proposals[id].executeAfter <= host.now;
            && (!ripe ==> r == Check(s, host, Op.ExecuteUpgrade(id, accepts)))
            && (ripe && s.config.None? ==> r == Fail(NotInitialized))
            && (ripe && s.config.Some?
                && Count(s.config.value.signers, Approvers(s, id)) < s.config.value.threshold ==>
                  r == Fail(InsufficientSignatures))
  {
    if s.config.Some? {
      ApprovingCounts(s.signatures, id, s.config.value.signers, Approvers(s, id));
    }
  }

  /** Why an approval or a signer list is refused. */
  lemma ApprovalRefusals(s: State, host: Host, caller: Address, id: u32, threshold: u32, signers: seq<Address>)
    ensures var r := Check(s, host, Op.SubmitSignature(caller, id));
            if caller !in host.auths then r == Fail(Trap)
            else if s.config.None? then r == Fail(NotInitialized)
            else if caller !in s.config.value.signers then r == Fail(InvalidSigner)
            else Pending(s, id) && (id, caller) in s.signatures ==> r == Fail(DuplicateSignature)
    ensures var r := Check(s, host, Op.UpdateMultisigConfig(threshold, signers));
            if s.owner.None? then r == Fail(NotInitialized)
            else if s.owner.value !in host.auths then r == Fail(Trap)
            else if threshold == 0 then r == Fail(InvalidThreshold)
            else r.Fail? ==> r == Fail(InvalidSigner)
  {
  }
}
