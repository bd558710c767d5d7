/** Who may do what with the account, in terms of the authorisations the host saw, and
    where a session key may call (contracts/account/src/lib.rs). */
module AccountAuthority {
  import opened Prelude
  import opened Xdr
  import opened AccountValidation
  import opened Account
  import opened AccountRuns

  // ------------------------------------------------------------ session calls

  /** What the key's limits leave at a time covers the amount. */
  ghost predicate LimitsCover(k: SessionKey, now: u64, amount: int) {
    amount > 0 ==>
      && (k.maxAmountPerCall.Some? ==> amount <= k.maxAmountPerCall.value)
      && (k.cumulativeLimit.Some? ==>
            amount + (if now > k.spendWindowStart + k.spendWindowSeconds then 0 else k.spentInWindow)
            <= k.cumulativeLimit.value)
  }

  /** The stored key is alive, may execute, may call the target, and can pay. */
  ghost predicate KeyCovers(k: SessionKey, now: u64, c: ExecuteCall) {
    && now < k.expiresAt && 1 in k.permissions
    && (k.allowedContracts.Some? ==> c.to in k.allowedContracts.value)
    && LimitsCover(k, now, SpendOf(c.args))
  }

  ghost predicate SignedFor(v: Verifier, pk: Bytes32, c: ExecuteCall) {
    && c.sessionPubKey == Some(pk) && c.signature.Some?
    && c.signaturePayload == Some(SigningPayload(c.to, c.fn, c.args, c.expectedNonce))
    && v(pk, c.signaturePayload.value, c.signature.value)
  }

  /** A call in a session key's name executes exactly when the key is stored and covers it,
      its holder signed it, the nonce is next, every module approves, and the target answers. */
  lemma SessionCallIff(v: Verifier, s: State, e: Event, pk: Bytes32)
    requires e.op.Execute? && e.op.call.caller == BySessionKey(pk)
    ensures SpendsBy(v, s, e, pk) <==>
            && pk in s.sessionKeys && KeyCovers(s.sessionKeys[pk], e.host.now, e.op.call) && SignedFor(v, pk, e.op.call)
            && Dispatchable(s, e.op.call, e.op.outside)
  {
    var approving := e.op.outside.approving;
    assert Elements(s.modules) <= approving <==> forall m :: m in s.modules ==> m in approving;
  }

  /** What every executed call needs besides its caller's standing. */
  ghost predicate Dispatchable(s: State, c: ExecuteCall, out: Outside) {
    && c.expectedNonce == CurrentNonce(s) && CurrentNonce(s) + 1 < 0x1_0000_0000_0000_0000
    && (forall m :: m in s.modules ==> m in out.approving) && out.reply.Some?
  }

  ghost predicate NoSessionFields(c: ExecuteCall) {
    c.sessionPubKey == None && c.signature == None && c.signaturePayload == None
  }

  /** Calls in the owner's or the quorum's name execute exactly with their authorisation,
      without session-key fields. */
  lemma OtherCallIff(v: Verifier, s: State, host: Host, c: ExecuteCall, out: Outside)
    ensures c.caller.ByOwner? ==>
              (Check(v, s, host, Op.Execute(c, out)).Pass? <==>
                 s.owner.Some? && s.owner.value in host.auths && NoSessionFields(c) && Dispatchable(s, c, out))
    ensures c.caller.ByQuorum? ==>
              (Check(v, s, host, Op.Execute(c, out)).Pass? <==>
                 && s.owners.Some? && s.threshold.Some? && NoSessionFields(c) && Dispatchable(s, c, out)
                 && (forall x :: x in c.caller.signers ==> x in s.owners.value && x in host.auths)
                 && |Elements(c.caller.signers)| >= s.threshold.value)
  {
    assert Elements(s.modules) <= out.approving <==> forall m :: m in s.modules ==> m in out.approving;
  }

  /** An executed call takes one nonce; a session call also puts its spend into the running
      window, or into a new one that starts now. Nothing else changes. */
  lemma ExecutedLeaves(v: Verifier, s: State, e: Event)
    requires e.op.Execute? && Check(v, s, e.host, e.op).Pass?
    ensures var s', c := Step(v, s, e), e.op.call;
            && s'.nonce == Some(CurrentNonce(s) + 1)
            && s' == s.(nonce := s'.nonce, sessionKeys := s'.sessionKeys) && s'.sessionKeys.Keys == s.sessionKeys.Keys
            && (forall pk | pk in s.sessionKeys && c.caller != BySessionKey(pk) ::
                  s'.sessionKeys[pk] == s.sessionKeys[pk])
            && (c.caller.BySessionKey? ==>
                  var k, k' := s.sessionKeys[c.caller.publicKey], s'.sessionKeys[c.caller.publicKey];
                  var over, spend := e.host.now > k.spendWindowStart + k.spendWindowSeconds, SpendOf(c.args);
                  if k.cumulativeLimit.None? || spend == 0 then k' == k
                  else k' == k.(spendWindowStart := if over then e.host.now else k.spendWindowStart,
                                spentInWindow := (if over then 0 else k.spentInWindow) + spend))
  {
  }

  /** Why a call with the right nonce and a stored key is refused: expired, without the
      execute permission, or off the allowlist. */
  lemma SessionRefusals(v: Verifier, s: State, host: Host, c: ExecuteCall, out: Outside)
    requires c.caller.BySessionKey? && c.sessionPubKey == Some(c.caller.publicKey)
    requires c.caller.publicKey in s.sessionKeys && c.expectedNonce == CurrentNonce(s)
    ensures var k, r := s.sessionKeys[c.caller.publicKey], Check(v, s, host, Op.Execute(c, out));
            && (k.expiresAt <= host.now ==> r == Fail(SessionKeyExpired))
            && (host.now < k.expiresAt && 1 !in k.permissions ==> r == Fail(InsufficientPermission))
            && (host.now < k.expiresAt && k.allowedContracts.Some? && c.to !in k.allowedContracts.value ==>
                  r == Fail(InsufficientPermission))
  {
  }

  /** The allowlist last registered or set for a key. */
  ghost function LastAllowlist(v: Verifier, s: State, es: seq<Event>, pk: Bytes32): Option<seq<Address>> {
    if es == [] then (if pk in s.sessionKeys then s.sessionKeys[pk].allowedContracts else None)
    else
      var front, last := es[..|es| - 1], es[|es| - 1];
      if !Check(v, Run(v, s, front), last.host, last.op).Pass? then LastAllowlist(v, s, front, pk)
      else if last.op.AddSessionKey? && last.op.request.publicKey == pk then last.op.request.allowedContracts
      else if last.op.SetAllowedContracts? && last.op.publicKey == pk then last.op.allowed
      else LastAllowlist(v, s, front, pk)
  }

  lemma AllowlistStep(v: Verifier, s: State, e: Event, pk: Bytes32)
    requires pk in Step(v, s, e).sessionKeys
    ensures Step(v, s, e).sessionKeys[pk].allowedContracts ==
      if Check(v, s, e.host, e.op).Pass? && e.op.AddSessionKey? && e.op.request.publicKey == pk then
        e.op.request.allowedContracts
      else if Check(v, s, e.host, e.op).Pass? && e.op.SetAllowedContracts? && e.op.publicKey == pk then e.op.allowed
      else if pk in s.sessionKeys then s.sessionKeys[pk].allowedContracts
      else None
    ensures pk !in s.sessionKeys ==> e.op.AddSessionKey? && e.op.request.publicKey == pk
  {
  }

  lemma {:induction false} StoredAllowlist(v: Verifier, s: State, es: seq<Event>, pk: Bytes32)
    requires pk in Run(v, s, es).sessionKeys
    ensures Run(v, s, es).sessionKeys[pk].allowedContracts == LastAllowlist(v, s, es, pk)
  {
    if es != [] {
      var front, last := es[..|es| - 1], es[|es| - 1];
      AllowlistStep(v, Run(v, s, front), last, pk);
      if pk in Run(v, s, front).sessionKeys {
        StoredAllowlist(v, s, front, pk);
      }
    }
  }

  /** Over any run, a call executed for a key goes to a contract on the allowlist last
      registered or set for it, if that was one. */
  lemma CallsStayOnAllowlist(v: Verifier, s: State, es: seq<Event>, i: nat, pk: Bytes32)
    requires i < |es| && SpendsBy(v, Run(v, s, es[..i]), es[i], pk)
    ensures var allowed := LastAllowlist(v, s, es[..i], pk); allowed.Some? ==> es[i].op.call.to in allowed.value
  {
    SessionCallIff(v, Run(v, s, es[..i]), es[i], pk);
    StoredAllowlist(v, s, es[..i], pk);
  }

  // --------------------------------------------------------------- the owner

  /** The stored owner authorised this call. */
  ghost predicate OwnerSigned(s: State, host: Host) {
    s.owner.Some? && s.owner.value in host.auths
  }

  /** What was granted with a key: everything but the state of its spend window. */
  ghost predicate SameGrant(k: SessionKey, k': SessionKey) {
    k' == k.(spendWindowStart := k'.spendWindowStart, spentInWindow := k'.spentInWindow)
  }

  /** The owner's decisions stand as they were. */
  ghost predicate SameDecisions(s: State, s': State) {
    && s'.owner == s.owner && s'.version == s.version && s'.modules == s.modules
    && s'.sessionKeys.Keys == s.sessionKeys.Keys
    && (forall pk | pk in s.sessionKeys :: SameGrant(s.sessionKeys[pk], s'.sessionKeys[pk]))
    && (s.owners.None? ==> s'.owners.None?)
  }

  lemma ExecuteKeepsDecisions(v: Verifier, s: State, e: Event)
    requires e.op.Execute?
    ensures SameDecisions(s, Step(v, s, e))
    ensures e.op.call.caller.ByOwner? && Check(v, s, e.host, e.op).Pass? ==> OwnerSigned(s, e.host)
  {
  }

  lemma QuorumOpsKeepDecisions(v: Verifier, s: State, e: Event)
    requires e.op.AddOwner? || e.op.RemoveOwner? || e.op.SetThreshold?
    ensures SameDecisions(s, Step(v, s, e))
  {
  }

  lemma OwnerOpsNeedOwner(v: Verifier, s: State, e: Event)
    requires !e.op.Initialize? && !e.op.Execute? && !e.op.AddOwner? && !e.op.RemoveOwner? && !e.op.SetThreshold?
    ensures Check(v, s, e.host, e.op).Pass? ==> OwnerSigned(s, e.host)
  {
  }

  /** Once the account has an owner, a call that registers, revokes or reconfigures a key,
      changes the modules or the version, enters multi-owner mode, or executes in the owner's
      name was authorised by the owner. */
  lemma OwnerDecides(v: Verifier, s: State, e: Event)
    requires s.owner.Some?
    requires !SameDecisions(s, Step(v, s, e))
          || (Check(v, s, e.host, e.op).Pass? && e.op.Execute? && e.op.call.caller.ByOwner?)
    ensures s.owner.value in e.host.auths
  {
    if e.op.Execute? {
      ExecuteKeepsDecisions(v, s, e);
    } else if e.op.AddOwner? || e.op.RemoveOwner? || e.op.SetThreshold? {
      QuorumOpsKeepDecisions(v, s, e);
    } else if !e.op.Initialize? {
      OwnerOpsNeedOwner(v, s, e);
    }
  }

  lemma DecisionsStand(a: State, b: State, c: State)
    requires SameDecisions(a, b) && SameDecisions(b, c)
    ensures SameDecisions(a, c)
  {
    forall pk | pk in a.sessionKeys ensures SameGrant(a.sessionKeys[pk], c.sessionKeys[pk]) {
      assert pk in b.sessionKeys.Keys && pk in c.sessionKeys.Keys;
    }
  }

  /** Whatever calls come without the owner's authorisation, no key appears, disappears or
      is reconfigured, no module or version changes, multi-owner mode is not entered, and
      nothing executes in the owner's name. */
  lemma {:induction false} NothingWithoutTheOwner(v: Verifier, s: State, es: seq<Event>)
    requires s.owner.Some? && forall e | e in es :: s.owner.value !in e.host.auths
    ensures SameDecisions(s, Run(v, s, es))
    ensures forall i | 0 <= i < |es| && es[i].op.Execute? && es[i].op.call.caller.ByOwner? ::
              Check(v, Run(v, s, es[..i]), es[i].host, es[i].op).Fail?
  {
    if es != [] {
      var n := |es| - 1;
      var front, last := es[..n], es[n];
      NothingWithoutTheOwner(v, s, front);
      var mid := Run(v, s, front);
      assert last in es;
      if !SameDecisions(mid, Step(v, mid, last)) {
        OwnerDecides(v, mid, last);
      }
      DecisionsStand(s, mid, Step(v, mid, last));
      forall i | 0 <= i < |es| && es[i].op.Execute? && es[i].op.call.caller.ByOwner?
        ensures Check(v, Run(v, s, es[..i]), es[i].host, es[i].op).Fail?
      {
        if i < n {
          assert front[..i] == es[..i];
        } else if Check(v, mid, last.host, last.op).Pass? {
          OwnerDecides(v, mid, last);
        }
      }
    }
  }

  /** The first owner is the one who authorised its own appointment; until then nothing else
      succeeds. */
  lemma FirstOwner(v: Verifier, s: State, e: Event)
    requires Inv(s) && s.owner.None? && Check(v, s, e.host, e.op).Pass?
    ensures e.op.Initialize? && e.op.owner in e.host.auths
    ensures Step(v, s, e) == EMPTY.(owner := Some(e.op.owner), nonce := Some(0), version := Some(1))
  {
  }

  // ------------------------------------------------------- what the owner gets

  /** A registration by the owner of a new key goes through exactly for a valid request. */
  lemma RegistrationIff(v: Verifier, s: State, host: Host, q: KeyRequest)
    ensures Check(v, s, host, Op.AddSessionKey(q)).Pass? <==>
            && OwnerSigned(s, host) && q.publicKey !in s.sessionKeys
            && (forall p :: p in q.permissions ==> p <= 2)
            && (forall i, j :: 0 <= i < j < |q.permissions| ==> q.permissions[i] != q.permissions[j])
            && (q.maxAmountPerCall.Some? ==> q.maxAmountPerCall.value > 0)
            && (q.cumulativeLimit.Some? ==> q.cumulativeLimit.value > 0)
            && (q.cumulativeLimit.Some? <==> q.spendWindowSeconds > 0)
            && (q.allowedContracts.Some? ==>
                  |q.allowedContracts.value| <= 50 && forall a | a in q.allowedContracts.value :: !IsZeroAddress(a))
            && host.now < if q.expiresAt < 100_000_000_000 then q.expiresAt else q.expiresAt / 1000
  {
  }

  /** It stores what was asked for, with an untouched window that starts now, and touches
      nothing else. */
  lemma RegistrationStores(v: Verifier, s: State, host: Host, q: KeyRequest)
    requires Check(v, s, host, Op.AddSessionKey(q)).Pass?
    ensures var s' := Step(v, s, Event(host, Op.AddSessionKey(q)));
            && s'.sessionKeys.Keys == s.sessionKeys.Keys + {q.publicKey} && s' == s.(sessionKeys := s'.sessionKeys)
            && (forall pk | pk in s.sessionKeys :: s'.sessionKeys[pk] == s.sessionKeys[pk])
            && var k := s'.sessionKeys[q.publicKey];
            && k.publicKey == q.publicKey && k.permissions == q.permissions && k.allowedContracts == q.allowedContracts
            && k.maxAmountPerCall == q.maxAmountPerCall && k.cumulativeLimit == q.cumulativeLimit
            && k.spendWindowSeconds == q.spendWindowSeconds && k.spendWindowStart == host.now && k.spentInWindow == 0
            && k.expiresAt == if q.expiresAt < 100_000_000_000 then q.expiresAt else q.expiresAt / 1000
  {
  }

  /** Revoking and reconfiguring: possible exactly for a stored key, and for that key alone. */
  lemma KeyOpsIff(v: Verifier, s: State, host: Host, pk: Bytes32, allowed: Option<seq<Address>>)
    ensures Check(v, s, host, Op.RevokeSessionKey(pk)).Pass? <==> OwnerSigned(s, host) && pk in s.sessionKeys
    ensures Check(v, s, host, Op.SetAllowedContracts(pk, allowed)).Pass? <==>
            && OwnerSigned(s, host) && pk in s.sessionKeys
            && (allowed.Some? ==> |allowed.value| <= 50 && forall a | a in allowed.value :: !IsZeroAddress(a))
    ensures Check(v, s, host, Op.RefreshSessionKeyTtl(pk)).Pass? <==>
            OwnerSigned(s, host) && pk in s.sessionKeys && host.now < s.sessionKeys[pk].expiresAt
  {
  }

  lemma RevocationRemoves(v: Verifier, s: State, host: Host, pk: Bytes32)
    requires Check(v, s, host, Op.RevokeSessionKey(pk)).Pass?
    ensures var s' := Step(v, s, Event(host, Op.RevokeSessionKey(pk)));
            && s'.sessionKeys.Keys == s.sessionKeys.Keys - {pk} && s' == s.(sessionKeys := s'.sessionKeys)
            && forall other | other in s'.sessionKeys :: s'.sessionKeys[other] == s.sessionKeys[other]
  {
  }

  /** A revoked key executes nothing until the owner registers it again. */
  lemma {:induction false} RevokedStaysOut(v: Verifier, s: State, es: seq<Event>, pk: Bytes32)
    requires pk !in s.sessionKeys
    requires forall i | 0 <= i < |es| && es[i].op.AddSessionKey? && es[i].op.request.publicKey == pk ::
               !OwnerSigned(Run(v, s, es[..i]), es[i].host)
    ensures pk !in Run(v, s, es).sessionKeys
    ensures forall i | 0 <= i < |es| :: !SpendsBy(v, Run(v, s, es[..i]), es[i], pk)
  {
    if es != [] {
      var n := |es| - 1;
      var front, last := es[..n], es[n];
      forall i | 0 <= i < n && front[i].op.AddSessionKey? && front[i].op.request.publicKey == pk
        ensures !OwnerSigned(Run(v, s, front[..i]), front[i].host)
      {
        assert front[..i] == es[..i];
      }
      RevokedStaysOut(v, s, front, pk);
      var mid := Run(v, s, front);
      assert es[..n] == front;
      StaysOut(v, mid, last, pk);
      forall i | 0 <= i < |es| ensures !SpendsBy(v, Run(v, s, es[..i]), es[i], pk) {
        if i < n {
          assert front[..i] == es[..i];
        } else if SpendsBy(v, mid, last, pk) {
          SessionCallIff(v, mid, last, pk);
        }
      }
    }
  }

  lemma StaysOut(v: Verifier, s: State, e: Event, pk: Bytes32)
    requires pk !in s.sessionKeys
    requires e.op.AddSessionKey? && e.op.request.publicKey == pk ==> !OwnerSigned(s, e.host)
    ensures pk !in Step(v, s, e).sessionKeys
  {
    if e.op.AddSessionKey? {
      RegistrationIff(v, s, e.host, e.op.request);
    }
    if pk in Step(v, s, e).sessionKeys {
      AllowlistStep(v, s, e, pk);
    }
  }

  lemma ZeroAddresses(a: Address)
    ensures IsZeroAddress(a) <==> a == Account(seq(32, i => 0)) || a == Contract(seq(32, i => 0))
  {
    var zeros: Bytes32 := seq(32, i => 0);
    match a
    case Account(key) => assert key == zeros <==> forall i :: 0 <= i < 32 ==> key[i] == 0;
    case Contract(id) => assert id == zeros <==> forall i :: 0 <= i < 32 ==> id[i] == 0;
  }

  lemma ModuleOpsIff(v: Verifier, s: State, host: Host, mod: Address)
    ensures Check(v, s, host, Op.RegisterModule(mod)).Pass? <==> OwnerSigned(s, host)
    ensures Check(v, s, host, Op.UnregisterModule(mod)).Pass? <==> OwnerSigned(s, host)
  {
  }

  /** Registering and unregistering change the set of modules by that one. */
  lemma ModulesChange(v: Verifier, s: State, host: Host, mod: Address)
    requires OwnerSigned(s, host)
    ensures var s' := Step(v, s, Event(host, Op.RegisterModule(mod)));
            && s' == s.(modules := s'.modules) && Elements(s'.modules) == Elements(s.modules) + {mod}
            && (mod in s.modules ==> s' == s) && (mod !in s.modules ==> s'.modules == s.modules + [mod])
    ensures var s' := Step(v, s, Event(host, Op.UnregisterModule(mod)));
            s' == s.(modules := s'.modules) && Elements(s'.modules) == Elements(s.modules) - {mod}
  {
    ModuleOpsIff(v, s, host, mod);
  }

  lemma VersionOpsIff(v: Verifier, s: State, host: Host, hash: Bytes32, version: u32)
    ensures Check(v, s, host, Op.Upgrade(hash)).Pass? <==>
            && OwnerSigned(s, host) && (exists i :: 0 <= i < 32 && hash[i] != 0)
            && CurrentVersion(s) + 1 < 0x1_0000_0000
    ensures Check(v, s, host, Op.Migrate(version)).Pass? <==> OwnerSigned(s, host) && version > CurrentVersion(s)
    ensures Check(v, s, host, Op.Upgrade(hash)).Pass? ==>
            Step(v, s, Event(host, Op.Upgrade(hash))) == s.(version := Some(CurrentVersion(s) + 1))
    ensures Check(v, s, host, Op.Migrate(version)).Pass? ==>
            Step(v, s, Event(host, Op.Migrate(version))) == s.(version := Some(version))
  {
    assert hash == ZeroHash() <==> forall i :: 0 <= i < 32 ==> hash[i] == 0;
  }

  // --------------------------------------------------------------- the quorum

  /** Enough distinct owners authorised this call. */
  ghost predicate QuorumSigned(s: State, host: Host) {
    s.owners.Some? && s.threshold.Some? && |Elements(s.owners.value) * host.auths| >= s.threshold.value
  }

  lemma QuorumMeans(auths: set<Address>, owners: seq<Address>, threshold: u32, signers: seq<Address>)
    requires QuorumMet(auths, owners, threshold, signers)
    ensures |Elements(owners) * auths| >= threshold
  {
    SubsetCardinality(Elements(signers), Elements(owners) * auths);
  }

  /** A change of the owner set or the threshold, or a call in the quorum's name, was
      authorised by at least threshold distinct owners. */
  lemma QuorumDecides(v: Verifier, s: State, e: Event)
    requires s.owners.Some?
    requires Step(v, s, e).owners != s.owners || Step(v, s, e).threshold != s.threshold
          || (Check(v, s, e.host, e.op).Pass? && e.op.Execute? && e.op.call.caller.ByQuorum?)
    ensures QuorumSigned(s, e.host)
  {
    var signers := QuorumOf(v, s, e);
    QuorumMeans(e.host.auths, s.owners.value, s.threshold.value, signers);
  }

  lemma QuorumOf(v: Verifier, s: State, e: Event) returns (signers: seq<Address>)
    requires s.owners.Some?
    requires Step(v, s, e).owners != s.owners || Step(v, s, e).threshold != s.threshold
          || (Check(v, s, e.host, e.op).Pass? && e.op.Execute? && e.op.call.caller.ByQuorum?)
    ensures s.threshold.Some? && QuorumMet(e.host.auths, s.owners.value, s.threshold.value, signers)
  {
    match e.op
    case AddOwner(who, _) => signers := who;
    case RemoveOwner(who, _) => signers := who;
    case SetThreshold(who, _) => signers := who;
    case Execute(c, _) =>
      ExecuteKeepsOwners(v, s, e);
      signers := c.caller.signers;
    case _ => OtherKeepsOwners(v, s, e);
  }

  lemma ExecuteKeepsOwners(v: Verifier, s: State, e: Event)
    requires e.op.Execute?
    ensures Step(v, s, e).owners == s.owners && Step(v, s, e).threshold == s.threshold
  {
  }

  lemma OtherKeepsOwners(v: Verifier, s: State, e: Event)
    requires s.owners.Some? && !e.op.AddOwner? && !e.op.RemoveOwner? && !e.op.SetThreshold?
    ensures Step(v, s, e).owners == s.owners && Step(v, s, e).threshold == s.threshold
  {
  }

  /** Whatever calls come with too few owners' authorisations, the owner set and the
      threshold stay, and nothing executes in the quorum's name. */
  lemma {:induction false} NothingWithoutTheQuorum(v: Verifier, s: State, es: seq<Event>)
    requires s.owners.Some? && forall e | e in es :: !QuorumSigned(s, e.host)
    ensures Run(v, s, es).owners == s.owners && Run(v, s, es).threshold == s.threshold
    ensures forall i | 0 <= i < |es| && es[i].op.Execute? && es[i].op.call.caller.ByQuorum? ::
              Check(v, Run(v, s, es[..i]), es[i].host, es[i].op).Fail?
  {
    if es != [] {
      var n := |es| - 1;
      var front, last := es[..n], es[n];
      NothingWithoutTheQuorum(v, s, front);
      var mid := Run(v, s, front);
      assert last in es && !QuorumSigned(mid, last.host);
      if Step(v, mid, last).owners != mid.owners || Step(v, mid, last).threshold != mid.threshold {
        QuorumDecides(v, mid, last);
      }
      forall i | 0 <= i < |es| && es[i].op.Execute? && es[i].op.call.caller.ByQuorum?
        ensures Check(v, Run(v, s, es[..i]), es[i].host, es[i].op).Fail?
      {
        if i < n {
          assert front[..i] == es[..i];
        } else if Check(v, mid, last.host, last.op).Pass? {
          QuorumDecides(v, mid, last);
        }
      }
    }
  }

  /** With all signers willing owners, the three owner operations go through exactly for a
      sensible change. */
  lemma OwnerOpsIff(v: Verifier, s: State, host: Host, signers: seq<Address>, a: Address, threshold: u32)
    requires s.owners.Some? && s.threshold.Some?
    ensures var met := (forall x :: x in signers ==> x in s.owners.value && x in host.auths)
                       && |Elements(signers)| >= s.threshold.value;
            && (Check(v, s, host, Op.AddOwner(signers, a)).Pass? <==> met && a !in s.owners.value)
            && (Check(v, s, host, Op.RemoveOwner(signers, a)).Pass? <==>
                  met && a in s.owners.value && |s.owners.value| > 1)
            && (Check(v, s, host, Op.SetThreshold(signers, threshold)).Pass? <==>
                  met && 1 <= threshold <= |s.owners.value|)
  {
  }

  lemma OwnerAdded(v: Verifier, s: State, host: Host, signers: seq<Address>, a: Address)
    requires Check(v, s, host, Op.AddOwner(signers, a)).Pass?
    ensures var s' := Step(v, s, Event(host, Op.AddOwner(signers, a)));
            && s.owners.Some? && s'.owners.Some? && Elements(s'.owners.value) == Elements(s.owners.value) + {a}
            && s' == s.(owners := s'.owners)
  {
  }

  lemma OwnerRemoved(v: Verifier, s: State, host: Host, signers: seq<Address>, a: Address)
    requires Inv(s) && Check(v, s, host, Op.RemoveOwner(signers, a)).Pass?
    ensures var s' := Step(v, s, Event(host, Op.RemoveOwner(signers, a)));
            && s.owners.Some? && s'.owners.Some? && Elements(s'.owners.value) == Elements(s.owners.value) - {a}
            && s.threshold.Some? && s'.threshold == Some(Min(s.threshold.value, |s.owners.value| - 1))
            && s' == s.(owners := s'.owners, threshold := s'.threshold)
  {
    WithoutDistinct(s.owners.value, a);
  }

  /** They change the set of owners by that one, keep the threshold unless it no longer
      fits, and set the threshold given. */
  lemma OwnersChange(v: Verifier, s: State, host: Host, signers: seq<Address>, a: Address, threshold: u32)
    requires Inv(s) && s.owners.Some?
    ensures var s' := Step(v, s, Event(host, Op.AddOwner(signers, a)));
            Check(v, s, host, Op.AddOwner(signers, a)).Pass? ==>
              && s'.owners.Some? && Elements(s'.owners.value) == Elements(s.owners.value) + {a}
              && s' == s.(owners := s'.owners)
    ensures var s' := Step(v, s, Event(host, Op.RemoveOwner(signers, a)));
            Check(v, s, host, Op.RemoveOwner(signers, a)).Pass? ==>
              && s'.owners.Some? && Elements(s'.owners.value) == Elements(s.owners.value) - {a}
              && s'.threshold == Some(Min(s.threshold.value, |s.owners.value| - 1))
              && s' == s.(owners := s'.owners, threshold := s'.threshold)
    ensures Check(v, s, host, Op.SetThreshold(signers, threshold)).Pass? ==>
              Step(v, s, Event(host, Op.SetThreshold(signers, threshold))) == s.(threshold := Some(threshold))
  {
    if Check(v, s, host, Op.AddOwner(signers, a)).Pass? {
      OwnerAdded(v, s, host, signers, a);
    }
    if Check(v, s, host, Op.RemoveOwner(signers, a)).Pass? {
      OwnerRemoved(v, s, host, signers, a);
    }
  }

  /** Multi-owner mode is entered once, by the owner, with distinct owners who can reach
      the threshold, and exactly as given. */
  lemma MultiOwnerIff(v: Verifier, s: State, host: Host, owners: seq<Address>, threshold: u32)
    ensures var op := Op.InitializeMultiOwner(owners, threshold);
            && (Check(v, s, host, op).Pass? <==>
                  && OwnerSigned(s, host) && s.owners.None? && 1 <= threshold <= |owners|
                  && forall i, j :: 0 <= i < j < |owners| ==> owners[i] != owners[j])
            && (Check(v, s, host, op).Pass? ==>
                  Step(v, s, Event(host, op)) == s.(owners := Some(owners), threshold := Some(threshold)))
  {
  }

  // ------------------------------------------------------------------ refusals

  /** The first fault of a registration decides its error. */
  lemma RegistrationRefusals(v: Verifier, s: State, host: Host, q: KeyRequest)
    ensures var r := Check(v, s, host, Op.AddSessionKey(q));
            var capped := (q.maxAmountPerCall.Some? ==> q.maxAmountPerCall.value > 0)
                          && (q.cumulativeLimit.Some? ==> q.cumulativeLimit.value > 0)
                          && (q.cumulativeLimit.Some? <==> q.spendWindowSeconds > 0);
            if q.expiresAt == 0 then r == Fail(InvalidExpiration)
            else if !capped then r == Fail(InvalidSpendPolicy)
            else if s.owner.None? then r == Fail(NotInitialized)
            else if s.owner.value !in host.auths then r == Fail(Trap)
            else if (exists p :: p in q.permissions && p > 2) then r == Fail(InsufficientPermission)
            else if q.allowedContracts.Some? && |q.allowedContracts.value| > 50 then r == Fail(InsufficientPermission)
            else if r.Fail? && r.error != InsufficientPermission then
              r.error == if q.publicKey in s.sessionKeys then SessionKeyAlreadyExists else SessionKeyExpirationInPast
            else true
  {
  }

  /** Who may not decide: nobody before there is an owner, and not without its authorisation. */
  lemma OwnerRefusals(v: Verifier, s: State, host: Host, pk: Bytes32, allowed: Option<seq<Address>>, hash: Bytes32,
      version: u32)
    ensures s.owner.None? ==>
              && Check(v, s, host, Op.RevokeSessionKey(pk)) == Fail(NotInitialized)
              && Check(v, s, host, Op.SetAllowedContracts(pk, allowed)) == Fail(NotInitialized)
              && Check(v, s, host, Op.Upgrade(hash)) == Fail(NotInitialized)
    ensures s.owner.Some? && s.owner.value !in host.auths ==>
              && Check(v, s, host, Op.RevokeSessionKey(pk)) == Fail(Trap)
              && Check(v, s, host, Op.SetAllowedContracts(pk, allowed)) == Fail(Trap)
              && Check(v, s, host, Op.Upgrade(hash)) == Fail(Trap)
    ensures OwnerSigned(s, host) && pk !in s.sessionKeys ==>
              && Check(v, s, host, Op.RevokeSessionKey(pk)) == Fail(SessionKeyNotFound)
              && Check(v, s, host, Op.SetAllowedContracts(pk, allowed)) == Fail(SessionKeyNotFound)
              && Check(v, s, host, Op.RefreshSessionKeyTtl(pk)) == Fail(SessionKeyNotFound)
    ensures OwnerSigned(s, host) && pk in s.sessionKeys && s.sessionKeys[pk].expiresAt <= host.now ==>
              Check(v, s, host, Op.RefreshSessionKeyTtl(pk)) == Fail(SessionKeyExpirationInPast)
    ensures OwnerSigned(s, host) && (forall i :: 0 <= i < 32 ==> hash[i] == 0) ==>
              Check(v, s, host, Op.Upgrade(hash)) == Fail(InvalidWasmHash)
    ensures OwnerSigned(s, host) && version <= CurrentVersion(s) ==>
              Check(v, s, host, Op.Migrate(version)) == Fail(InvalidVersion)
  {
    if forall i :: 0 <= i < 32 ==> hash[i] == 0 {
      assert hash == ZeroHash();
    }
  }

  /** A quorum of willing owners is still refused a senseless change; without multi-owner mode
      there is no quorum, a stranger is refused, and too few are too few. */
  lemma QuorumRefusals(v: Verifier, s: State, host: Host, signers: seq<Address>, a: Address, threshold: u32)
    ensures s.owners.None? ==> Check(v, s, host, Op.AddOwner(signers, a)) == Fail(NotInitialized)
    ensures s.owners.Some? && s.threshold.Some? && signers != [] ==>
              && (signers[0] !in s.owners.value ==> Check(v, s, host, Op.AddOwner(signers, a)) == Fail(Unauthorized))
              && (signers[0] in s.owners.value && signers[0] !in host.auths ==>
                    Check(v, s, host, Op.AddOwner(signers, a)) == Fail(Trap))
    ensures s.owners.Some? && s.threshold.Some? && signers == [] && s.threshold.value > 0 ==>
              Check(v, s, host, Op.AddOwner(signers, a)) == Fail(Unauthorized)
    ensures s.owners.Some? && s.threshold.Some? && QuorumMet(host.auths, s.owners.value, s.threshold.value, signers) ==>
              && (a in s.owners.value ==> Check(v, s, host, Op.AddOwner(signers, a)) == Fail(InvalidThreshold))
              && (a !in s.owners.value ==> Check(v, s, host, Op.RemoveOwner(signers, a)) == Fail(InvalidThreshold))
              && (threshold == 0 || threshold > |s.owners.value| ==>
                    Check(v, s, host, Op.SetThreshold(signers, threshold)) == Fail(InvalidThreshold))
  {
    assert Elements<Address>([]) == {};
  }

  /** The other refusals of `execute`, in the order of its checks. */
  lemma ExecuteRefusals(v: Verifier, s: State, host: Host, c: ExecuteCall, out: Outside)
    ensures var r := Check(v, s, host, Op.Execute(c, out));
            && (c.expectedNonce != CurrentNonce(s) ==> r == Fail(InvalidNonce))
            && (c.expectedNonce == CurrentNonce(s) ==>
                  && (!c.caller.BySessionKey? && !NoSessionFields(c) ==> r == Fail(InvalidCallerIdentity))
                  && (c.caller.BySessionKey? && c.sessionPubKey != Some(c.caller.publicKey) ==>
                        r == Fail(InvalidCallerIdentity))
                  && (c.caller.BySessionKey? && c.sessionPubKey == Some(c.caller.publicKey) ==>
                        var pk := c.caller.publicKey;
                        if pk !in s.sessionKeys then r == Fail(SessionKeyNotFound)
                        else if !KeyCovers(s.sessionKeys[pk], host.now, c) then
                          r.Fail? && r.error in {SessionKeyExpired, InsufficientPermission, ExceededSpendLimit,
                                                 ArithmeticOverflow}
                        else if c.signature.None? || c.signaturePayload.None? then r == Fail(InvalidSignature)
                        else if c.signaturePayload.value != SigningPayload(c.to, c.fn, c.args, c.expectedNonce) then
                          r == Fail(SignaturePayloadMismatch)
                        else if !v(pk, c.signaturePayload.value, c.signature.value) then r == Fail(InvalidSignature)
                        else if exists m :: m in s.modules && m !in out.approving then
                          r.Fail? && r.error in {InsufficientPermission, ArithmeticOverflow}
                        else true))
  {
  }

  /** Which spending error: over the per-call cap, over what an i128 holds, over the limit. */
  lemma SpendRefusals(v: Verifier, s: State, host: Host, c: ExecuteCall, out: Outside)
    requires c.caller.BySessionKey? && c.sessionPubKey == Some(c.caller.publicKey)
    requires c.caller.publicKey in s.sessionKeys && c.expectedNonce == CurrentNonce(s)
    requires var k := s.sessionKeys[c.caller.publicKey];
             && host.now < k.expiresAt && 1 in k.permissions
             && (k.allowedContracts.Some? ==> c.to in k.allowedContracts.value)
             && !LimitsCover(k, host.now, SpendOf(c.args))
    ensures var k, spend := s.sessionKeys[c.caller.publicKey], SpendOf(c.args);
            var r := Check(v, s, host, Op.Execute(c, out));
            var carried := if host.now > k.spendWindowStart + k.spendWindowSeconds then 0 else k.spentInWindow;
            if k.maxAmountPerCall.Some? && spend > k.maxAmountPerCall.value then r == Fail(ExceededSpendLimit)
            else if carried + spend >= 0x8000_0000_0000_0000_0000_0000_0000_0000 then r == Fail(ArithmeticOverflow)
            else r == Fail(ExceededSpendLimit)
  {
  }
}
