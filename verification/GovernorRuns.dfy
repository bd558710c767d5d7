/** What every run of the governor keeps: proposals are permanent records, each is
    carried out at most once and never before its timelock, and multisig execution
    counts approvals. */
module GovernorRuns {
  import opened Prelude
  import opened Governor

  ghost predicate ConfigInv(s: State) {
    && (s.owner.None? ==> s == EMPTY)
    && (s.owner.Some? ==> s.target.Some? && s.delay.Some? && s.nextId.Some? && s.nextId.value >= 1)
    && (s.config.Some? ==> 1 <= s.config.value.threshold <= |s.config.value.signers| <= MAX_SIGNERS)
  }

  /** Stored proposals are exactly ids 1 .. next - 1, executed and cancelled never both. */
  ghost predicate ProposalsInv(s: State) {
    && (forall id: u32 :: id in s.proposals <==> 1 <= id < NextId(s))
    && (forall id | id in s.proposals ::
          var p := s.proposals[id];
          p.id == id && p.proposedAt <= p.executeAfter && !(p.executed && p.cancelled))
    && (forall a: Address, id :: (id, a) in s.signatures ==> id in s.proposals)
  }

  /** The target was called exactly for the executed proposals, once each, with the
      proposed hash and after the timelock. */
  ghost predicate CallsInv(s: State) {
    && (forall i, j :: 0 <= i < j < |s.calls| ==> s.calls[i].id != s.calls[j].id)
    && (forall c | c in s.calls ::
          && c.id in s.proposals && s.proposals[c.id].executed
          && c.wasmHash == s.proposals[c.id].wasmHash && s.proposals[c.id].executeAfter <= c.at)
    && (forall id | id in s.proposals && s.proposals[id].executed :: exists c :: c in s.calls && c.id == id)
  }

  ghost predicate Inv(s: State) {
    ConfigInv(s) && ProposalsInv(s) && CallsInv(s)
  }

  /** A proposal's record never changes, and being executed or cancelled is permanent. */
  ghost predicate Preserved(p: Proposal, p': Proposal) {
    && p'.id == p.id && p'.wasmHash == p.wasmHash
    && p'.proposedAt == p.proposedAt && p'.executeAfter == p.executeAfter
    && (p.executed ==> p'.executed) && (p.cancelled ==> p'.cancelled)
  }

  lemma ExecutedCalls(s: State, host: Host, id: u32)
    requires CallsInv(s) && RipeVerdict(s, host, id).Pass?
    ensures CallsInv(Executed(s, host, id))
  {
    var s' := Executed(s, host, id);
    var made := TargetCall(id, s.proposals[id].wasmHash, host.now);
    assert forall c :: c in s'.calls <==> c in s.calls || c == made;
    assert forall k :: 0 <= k < |s.calls| ==> s.calls[k] in s.calls;
  }

  lemma ProposeCalls(s: State, host: Host, hash: Bytes32, attestation: Attestation)
    requires Inv(s) && Check(s, host, Op.Propose(hash, attestation)).Pass?
    ensures CallsInv(Effect(s, host, Op.Propose(hash, attestation)))
  {
  }

  lemma StepInv(s: State, e: Event)
    requires Inv(s)
    ensures Inv(Step(s, e))
  {
    StepConfig(s, e);
    StepProposals(s, e);
    StepCalls(s, e);
  }

  lemma StepConfig(s: State, e: Event)
    requires Inv(s)
    ensures ConfigInv(Step(s, e))
  {
  }

  lemma ProposeProposals(s: State, host: Host, hash: Bytes32, attestation: Attestation)
    requires Inv(s) && Check(s, host, Op.Propose(hash, attestation)).Pass?
    ensures ProposalsInv(Effect(s, host, Op.Propose(hash, attestation)))
  {
  }

  /** Replacing one record by one that keeps its id and times keeps the table. */
  lemma ReplacedProposals(s: State, s': State, id: u32, p: Proposal)
    requires ProposalsInv(s) && id in s.proposals
    requires s' == s.(proposals := s.proposals[id := p], calls := s'.calls)
    requires Preserved(s.proposals[id], p) && !(p.executed && p.cancelled)
    ensures ProposalsInv(s')
  {
  }

  lemma StepProposals(s: State, e: Event)
    requires Inv(s)
    ensures ProposalsInv(Step(s, e))
  {
    if Check(s, e.host, e.op).Pass? {
      var s' := Step(s, e);
      match e.op
      case Propose(hash, attestation) => ProposeProposals(s, e.host, hash, attestation);
      case ExecuteUpgrade(id, _) => ReplacedProposals(s, s', id, s'.proposals[id]);
      case ExecuteMultisig(id, _) => ReplacedProposals(s, s', id, s'.proposals[id]);
      case CancelUpgrade(id) => ReplacedProposals(s, s', id, s'.proposals[id]);
      case SubmitSignature(_, id) => assert s'.proposals == s.proposals && NextId(s') == NextId(s);
      case _ => assert s'.proposals == s.proposals && s'.signatures == s.signatures && NextId(s') == NextId(s);
    }
  }

  lemma StepCalls(s: State, e: Event)
    requires Inv(s)
    ensures CallsInv(Step(s, e))
  {
    if Check(s, e.host, e.op).Pass? {
      match e.op
      case ExecuteUpgrade(id, _) => ExecutedCalls(s, e.host, id);
      case ExecuteMultisig(id, _) => ExecutedCalls(s, e.host, id);
      case Propose(hash, attestation) => ProposeCalls(s, e.host, hash, attestation);
      case _ =>
    }
  }

  lemma {:induction false} RunInv(s: State, es: seq<Event>)
    requires Inv(s)
    ensures Inv(Run(s, es))
  {
    if es != [] {
      RunInv(s, es[..|es| - 1]);
      StepInv(Run(s, es[..|es| - 1]), es[|es| - 1]);
    }
  }

  lemma DeployedInv()
    ensures Inv(EMPTY)
  {
  }

  // ---------------------------------------------------------------- history

  lemma StepPreserves(s: State, e: Event, id: u32)
    requires Inv(s) && id in s.proposals
    ensures id in Step(s, e).proposals && Preserved(s.proposals[id], Step(s, e).proposals[id])
  {
  }

  lemma {:induction false} History(s: State, es: seq<Event>, id: u32)
    requires Inv(s) && id in s.proposals
    ensures id in Run(s, es).proposals && Preserved(s.proposals[id], Run(s, es).proposals[id])
  {
    if es != [] {
      History(s, es[..|es| - 1], id);
      RunInv(s, es[..|es| - 1]);
      StepPreserves(Run(s, es[..|es| - 1]), es[|es| - 1], id);
    }
  }

  lemma Proposed(s: State, host: Host, hash: Bytes32, attestation: Attestation)
    requires Check(s, host, Op.Propose(hash, attestation)).Pass?
    ensures var s' := Step(s, Event(host, Op.Propose(hash, attestation)));
            && NextId(s) in s'.proposals
            && s'.proposals[NextId(s)] == Proposal(NextId(s), hash, host.now, host.now + DelayOf(s), false, false)
  {
  }

  /** Whatever happens after a proposal, changes of the delay included, the target is
      upgraded for it at most once, with the proposed hash, and no earlier than the
      proposal's time plus the delay then in force. */
  lemma TimelockHolds(s: State, host: Host, hash: Bytes32, attestation: Attestation, es: seq<Event>)
    requires Inv(s) && Check(s, host, Op.Propose(hash, attestation)).Pass?
    ensures var calls := Run(Step(s, Event(host, Op.Propose(hash, attestation))), es).calls;
            && (forall i | 0 <= i < |calls| && calls[i].id == NextId(s) ::
                  calls[i].wasmHash == hash && host.now + DelayOf(s) <= calls[i].at)
            && (forall i, j :: 0 <= i < j < |calls| ==> !(calls[i].id == calls[j].id == NextId(s)))
  {
    var e := Event(host, Op.Propose(hash, attestation));
    StepInv(s, e);
    Proposed(s, host, hash, attestation);
    History(Step(s, e), es, NextId(s));
    RunInv(Step(s, e), es);
    var calls := Run(Step(s, e), es).calls;
    assert forall i :: 0 <= i < |calls| ==> calls[i] in calls;
  }

  /** A cancelled proposal is never carried out. */
  lemma CancelledNeverCalled(s: State, es: seq<Event>, id: u32)
    requires Inv(s) && id in s.proposals && s.proposals[id].cancelled
    ensures forall c | c in Run(s, es).calls :: c.id != id
  {
    History(s, es, id);
    RunInv(s, es);
  }

  // --------------------------------------------------------------- multisig

  /** The distinct listed signers with a recorded approval. */
  ghost function Approvers(s: State, id: u32): set<Address>
    requires s.config.Some?
  {
    set a | a in s.config.value.signers && (id, a) in s.signatures
  }

  lemma {:induction false} ApprovingElements(signatures: set<(u32, Address)>, id: u32, signers: seq<Address>)
    ensures forall a :: a in Approving(signatures, id, signers) <==> a in signers && (id, a) in signatures
    ensures Distinct(signers) ==> Distinct(Approving(signatures, id, signers))
  {
    if signers != [] {
      var front, last := signers[..|signers| - 1], signers[|signers| - 1];
      ApprovingElements(signatures, id, front);
      assert signers == front + [last];
      assert Distinct(signers) ==> last !in Approving(signatures, id, front);
    }
  }

  /** The loop counts each approving signer once exactly when none of them is listed twice. */
  lemma CountIsDistinctApprovers(s: State, id: u32)
    requires s.config.Some?
    ensures |Approving(s.signatures, id, s.config.value.signers)| == |Approvers(s, id)|
        <==> Distinct(Approving(s.signatures, id, s.config.value.signers))
  {
    var approving := Approving(s.signatures, id, s.config.value.signers);
    ApprovingElements(s.signatures, id, s.config.value.signers);
    assert Elements(approving) == Approvers(s, id);
    if Distinct(approving) {
      DistinctCardinality(approving);
    } else {
      RepetitionCardinality(approving);
    }
  }

  /** What the owner can check of a configuration: the count reaching the threshold
      means that many approvers, whoever approves. */
  predicate HonestConfig(threshold: nat, signers: seq<Address>) {
    threshold <= 1 || forall i, j | 0 <= i < j < |signers| :: signers[i] != signers[j]
  }

  /** Under such a configuration, multisig execution means that at least threshold
      distinct current signers approved. */
  lemma MultisigExecution(s: State, host: Host, id: u32, accepts: bool)
    requires Check(s, host, Op.ExecuteMultisig(id, accepts)).Pass?
    requires HonestConfig(s.config.value.threshold, s.config.value.signers)
    ensures |Approvers(s, id)| >= s.config.value.threshold
  {
    var approving := Approving(s.signatures, id, s.config.value.signers);
    ApprovingElements(s.signatures, id, s.config.value.signers);
    if Distinct(s.config.value.signers) {
      CountIsDistinctApprovers(s, id);
    } else if approving != [] {
      assert approving[0] in approving && approving[0] in Approvers(s, id);
    }
  }

  ghost function Approvals(id: u32, approvers: set<Address>): set<(u32, Address)> {
    set a | a in approvers :: (id, a)
  }

  /** The list positions whose signer is among the approvers. */
  ghost function Count(signers: seq<Address>, approvers: set<Address>): nat {
    if signers == [] then 0
    else Count(signers[..|signers| - 1], approvers) + if signers[|signers| - 1] in approvers then 1 else 0
  }

  lemma {:induction false} ApprovingCounts(signatures: set<(u32, Address)>, id: u32, signers: seq<Address>,
      approvers: set<Address>)
    requires forall a | a in signers :: (id, a) in signatures <==> a in approvers
    ensures |Approving(signatures, id, signers)| == Count(signers, approvers)
  {
    if signers != [] {
      ApprovingCounts(signatures, id, signers[..|signers| - 1], approvers);
    }
  }

  /** One more approver counts at least once more. */
  lemma {:induction false} OneMoreCounts(signers: seq<Address>, approvers: set<Address>, a: Address)
    requires a !in approvers
    ensures Count(signers, approvers + {a}) >= Count(signers, approvers) + if a in signers then 1 else 0
  {
    if signers != [] {
      OneMoreCounts(signers[..|signers| - 1], approvers, a);
    }
  }

  lemma {:induction false} TwiceCounts(signers: seq<Address>, i: nat, j: nat)
    requires i < j < |signers| && signers[i] == signers[j]
    ensures Count(signers, {signers[i]}) >= 2
  {
    var front := signers[..|signers| - 1];
    if j < |front| {
      TwiceCounts(front, i, j);
    } else {
      OneMoreCounts(front, {}, signers[i]);
      assert {} + {signers[i]} == {signers[i]};
      assert front[i] in front;
    }
  }

  lemma {:induction false} AllCount(signers: seq<Address>, approvers: set<Address>)
    requires forall a | a in signers :: a in approvers
    ensures Count(signers, approvers) == |signers|
  {
    if signers != [] {
      AllCount(signers[..|signers| - 1], approvers);
    }
  }

  /** From approvers that already count for more than they are, some that reach the
      threshold and are too few. */
  lemma TooFewReach(signers: seq<Address>, threshold: nat, approvers: set<Address>) returns (more: set<Address>)
    requires threshold <= |signers| && approvers <= Elements(signers)
    requires |approvers| < threshold && |approvers| < Count(signers, approvers)
    ensures more <= Elements(signers) && |more| < threshold <= Count(signers, more)
    decreases Elements(signers) - approvers
  {
    if threshold <= Count(signers, approvers) {
      return approvers;
    }
    if forall a | a in signers :: a in approvers {
      AllCount(signers, approvers);
    }
    var a :| a in signers && a !in approvers;
    OneMoreCounts(signers, approvers, a);
    more := TooFewReach(signers, threshold, approvers + {a});
  }

  /** The given signers approve, one after the other. */
  lemma Approve(s: State, now: u64, id: u32, approvers: set<Address>) returns (es: seq<Event>)
    requires s.config.Some? && approvers <= Elements(s.config.value.signers) && PendingVerdict(s, id).Pass?
    requires Approvals(id, approvers) !! s.signatures
    ensures Run(s, es) == s.(signatures := s.signatures + Approvals(id, approvers))
    decreases approvers
  {
    if approvers == {} {
      return [];
    }
    var a :| a in approvers;
    var front := Approve(s, now, id, approvers - {a});
    var e := Event(Host(now, {a}), Op.SubmitSignature(a, id));
    es := front + [e];
    assert es[..|front|] == front;
    assert (id, a) in Approvals(id, approvers) && (id, a) !in Run(s, front).signatures;
    assert Approvals(id, approvers) == Approvals(id, approvers - {a}) + {(id, a)};
  }

  /** From a configuration on, multisig execution of a proposal without approvals so far
      means as many distinct approvers as the threshold says. */
  ghost predicate CountsApprovers(s: State, host: Host, id: u32) {
    forall es :: var t := Run(s, es);
      t.config.Some? && t.config == s.config && Check(t, host, Op.ExecuteMultisig(id, true)).Pass? ==>
        |Approvers(t, id)| >= t.config.value.threshold
  }

  lemma DuplicateReaches(s: State, host: Host, id: u32)
    requires RipeVerdict(s, host, id).Pass? && s.target.Some? && s.config.Some?
    requires forall a :: (id, a) !in s.signatures
    requires s.config.value.threshold <= |s.config.value.signers|
    requires !HonestConfig(s.config.value.threshold, s.config.value.signers)
    ensures !CountsApprovers(s, host, id)
  {
    var threshold, signers := s.config.value.threshold, s.config.value.signers;
    var i, j :| 0 <= i < j < |signers| && signers[i] == signers[j];
    TwiceCounts(signers, i, j);
    var few := TooFewReach(signers, threshold, {signers[i]});
    var es := Approve(s, host.now, id, few);
    var t := Run(s, es);
    ApprovingCounts(t.signatures, id, signers, few);
    assert Approvers(t, id) == few;
    assert Check(t, host, Op.ExecuteMultisig(id, true)).Pass?;
  }

  /** Configured by the owner for a ripe proposal that has no approvals yet, a list and a
      threshold count approvers honestly over every run exactly when the threshold is 1 or
      no signer is listed twice. */
  lemma CountsApproversIff(s: State, host: Host, id: u32, threshold: u32, signers: seq<Address>)
    requires Check(s, host, Op.UpdateMultisigConfig(threshold, signers)).Pass?
    requires RipeVerdict(s, host, id).Pass? && s.target.Some? && forall a :: (id, a) !in s.signatures
    ensures CountsApprovers(Step(s, Event(host, Op.UpdateMultisigConfig(threshold, signers))), host, id)
        <==> threshold == 1 || Distinct(signers)
  {
    var s' := Step(s, Event(host, Op.UpdateMultisigConfig(threshold, signers)));
    if HonestConfig(threshold, signers) {
      forall es | var t := Run(s', es); t.config == s'.config && Check(t, host, Op.ExecuteMultisig(id, true)).Pass?
        ensures |Approvers(Run(s', es), id)| >= threshold
      {
        MultisigExecution(Run(s', es), host, id, true);
      }
    } else {
      DuplicateReaches(s', host, id);
    }
  }

  /** One signer listed twice, threshold 2: after the one approval the upgrade goes through. */
  lemma DuplicateSignerCountsTwice(s: State, host: Host, signer: Address, id: u32)
    requires OwnerVerdict(s, host).Pass? && signer in host.auths && (id, signer) !in s.signatures
    requires RipeVerdict(s, host, id).Pass? && s.target.Some?
    ensures var t := Run(s, [Event(host, Op.UpdateMultisigConfig(2, [signer, signer])),
                             Event(host, Op.SubmitSignature(signer, id))]);
            && t.config == Some(MultisigConfig(2, [signer, signer])) && Approvers(t, id) == {signer}
            && Check(t, host, Op.ExecuteMultisig(id, true)).Pass?
  {
    var e, e' := Event(host, Op.UpdateMultisigConfig(2, [signer, signer])), Event(host, Op.SubmitSignature(signer, id));
    RunTwo(s, e, e');
    var s' := s.(config := Some(MultisigConfig(2, [signer, signer])));
    assert Step(s, e) == s';
    SecondStep(s', host, signer, id);
  }

  lemma SecondStep(s: State, host: Host, signer: Address, id: u32)
    requires s.config == Some(MultisigConfig(2, [signer, signer]))
    requires signer in host.auths && (id, signer) !in s.signatures && RipeVerdict(s, host, id).Pass? && s.target.Some?
    ensures var t := Step(s, Event(host, Op.SubmitSignature(signer, id)));
            && t.config == s.config && Approvers(t, id) == {signer}
            && Check(t, host, Op.ExecuteMultisig(id, true)).Pass?
  {
    ApprovingTwice(s.signatures + {(id, signer)}, id, signer);
  }

  lemma RunTwo(s: State, e: Event, e': Event)
    ensures Run(s, [e, e']) == Step(Step(s, e), e')
  {
    assert [e, e'][..1] == [e] && [e][..0] == [];
    assert Run(s, [e]) == Step(s, e);
  }

  lemma ApprovingTwice(signatures: set<(u32, Address)>, id: u32, signer: Address)
    requires (id, signer) in signatures
    ensures Approving(signatures, id, [signer, signer]) == [signer, signer]
  {
    assert [signer, signer][..1] == [signer] && [signer][..0] == [];
    assert Approving(signatures, id, [signer]) == [signer];
  }
}
