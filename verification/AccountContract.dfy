/** The account contract in the source's own form: storage fields that each entry
    point reads and overwrites, proved against the state machine in `Account`. */
module AccountContract {
  import opened Prelude
  import opened Xdr
  import opened AccountValidation
  import opened Account

  class AncoreAccount {
    const verify: Verifier
    var owner: Option<Address>
    var nonce: Option<u64>
    var version: Option<u32>
    var sessionKeys: map<Bytes32, SessionKey>
    var modules: seq<Address>
    var owners: Option<seq<Address>>
    var threshold: Option<u32>

    ghost function Model(): State
      reads this
    {
      State(owner, nonce, version, sessionKeys, modules, owners, threshold)
    }

    constructor (verify: Verifier)
      ensures this.verify == verify && Model() == EMPTY
    {
      this.verify := verify;
      owner, nonce, version, sessionKeys := None, None, None, map[];
      modules, owners, threshold := [], None, None;
    }

    method Initialize(host: Host, newOwner: Address) returns (r: Verdict)
      modifies this
      ensures r == Check(verify, old(Model()), host, Op.Initialize(newOwner))
      ensures Model() == Step(verify, old(Model()), Event(host, Op.Initialize(newOwner)))
    {
      if owner.Some? {
        return Fail(AlreadyInitialized);
      }
      :- Need(newOwner in host.auths, Trap);
      owner := Some(newOwner);
      nonce := Some(0);
      version := Some(1);
      return Pass;
    }

    method RequireOwner(host: Host) returns (r: Verdict)
      ensures r == OwnerVerdict(Model(), host)
    {
      if owner.None? {
        return Fail(NotInitialized);
      }
      r := Need(owner.value in host.auths, Trap);
    }

    // ------------------------------------------------------------- execution

    method ExtractSpendAmount(args: seq<ScVal>) returns (amount: Option<i128>)
      ensures amount == if SpendOf(args) > 0 then Some(SpendOf(args)) else None
    {
      amount := None;
      for index := 0 to |args|
        invariant amount == if SpendOf(args[..index]) > 0 then Some(SpendOf(args[..index])) else None
      {
        assert args[..index + 1][..index] == args[..index];
        var value := args[index];
        if value.I128? && value.i128 > 0 {
          amount := Some(if amount.Some? && amount.value >= value.i128 then amount.value else value.i128);
        }
      }
      assert args[..|args|] == args;
    }

    method CheckSessionSpend(host: Host, session: SessionKey, args: seq<ScVal>) returns (r: Verdict)
      ensures var spend := SpendInput(session, host.now, SpendOf(args));
              r == if SpendAllowed(spend) then Pass else Fail(SpendRefusal(spend))
    {
      var amount := ExtractSpendAmount(args);
      r := CheckSpendLimits(SpendCheckInput(
        amount, session.maxAmountPerCall, session.cumulativeLimit, session.spendWindowStart,
        session.spendWindowSeconds, session.spentInWindow, host.now));
    }

    /** Never fails where the check passed, and then charges the key. */
    method ApplySpendUsage(host: Host, session: SessionKey, args: seq<ScVal>) returns (session': SessionKey, r: Verdict)
      ensures var spend := SpendInput(session, host.now, SpendOf(args));
              SpendAllowed(spend) ==> r.Pass? && session' == Charged(session, host.now, SpendOf(args))
    {
      session' := session;
      var amount := ExtractSpendAmount(args);
      if amount.None? {
        return session', Pass;
      }
      if session.cumulativeLimit.Some? {
        if host.now > SaturatingAdd(session.spendWindowStart, session.spendWindowSeconds) {
          session' := session'.(spendWindowStart := host.now, spentInWindow := 0);
        }
        if session'.spentInWindow + amount.value > I128_MAX {
          return session', Fail(ArithmeticOverflow);
        }
        session' := session'.(spentInWindow := session'.spentInWindow + amount.value);
      }
      return session', Pass;
    }

    method AuthorizeSession(host: Host, c: ExecuteCall) returns (r: Verdict)
      requires c.caller.BySessionKey?
      ensures r == SessionVerdict(verify, Model(), host, c)
    {
      if c.sessionPubKey.None? {
        return Fail(InvalidCallerIdentity);
      }
      var sessionPk := c.sessionPubKey.value;
      :- Need(sessionPk == c.caller.publicKey, InvalidCallerIdentity);
      :- Need(sessionPk in sessionKeys, SessionKeyNotFound);
      var session := sessionKeys[sessionPk];
      :- Need(host.now < session.expiresAt, SessionKeyExpired);
      :- Need(PERMISSION_EXECUTE in session.permissions, InsufficientPermission);
      :- Need(AllowlistPermits(session.allowedContracts, c.to), InsufficientPermission);
      :- CheckSessionSpend(host, session, c.args);
      :- Need(c.signature.Some?, InvalidSignature);
      :- Need(c.signaturePayload.Some?, InvalidSignature);
      var expected := SigningPayload(c.to, c.fn, c.args, c.expectedNonce);
      :- Need(c.signaturePayload.value == expected, SignaturePayloadMismatch);
      r := Need(verify(sessionPk, c.signaturePayload.value, c.signature.value), InvalidSignature);
    }

    method Authorize(host: Host, c: ExecuteCall) returns (r: Verdict)
      ensures r == CallerVerdict(verify, Model(), host, c)
    {
      match c.caller
      case ByOwner =>
        :- Need(c.sessionPubKey.None? && c.signature.None? && c.signaturePayload.None?, InvalidCallerIdentity);
        r := RequireOwner(host);
      case ByQuorum(signers) =>
        :- Need(c.sessionPubKey.None? && c.signature.None? && c.signaturePayload.None?, InvalidCallerIdentity);
        r := RequireQuorum(host, signers);
      case BySessionKey(_) =>
        r := AuthorizeSession(host, c);
    }

    /** The entry point's own statements. It writes the nonce before it calls out,
        so a late refusal leaves that write behind for the host to undo. */
    method ExecuteBody(host: Host, outside: Outside, c: ExecuteCall) returns (r: Result<ScVal, ContractError>)
      modifies this
      ensures var verdict := ExecuteVerdict(verify, old(Model()), host, c, outside);
              && (r.Ok? <==> verdict.Pass?)
              && (r.Err? ==> r == Err(verdict.error))
              && (r.Ok? ==> Model() == Effect(verify, old(Model()), host, Op.Execute(c, outside)))
              && (r.Ok? ==> outside.reply == Some(r.value))
    {
      var currentNonce := if nonce.Some? then nonce.value else 0;
      if c.expectedNonce != currentNonce {
        return Err(InvalidNonce);
      }
      var allowed := Authorize(host, c);
      if allowed.Fail? {
        return Err(allowed.error);
      }
      if currentNonce + 1 >= U64_LIMIT {
        return Err(ArithmeticOverflow);
      }
      nonce := Some(currentNonce + 1);

      for i := 0 to |modules|
        invariant Elements(modules[..i]) <= outside.approving
        invariant Model() == old(Model()).(nonce := Some(currentNonce + 1))
      {
        assert Elements(modules[..i + 1]) == Elements(modules[..i]) + {modules[i]};
        if modules[i] !in outside.approving {
          assert modules[i] in Elements(modules);
          return Err(InsufficientPermission);
        }
      }
      assert modules[..|modules|] == modules;
      if outside.reply.None? {
        return Err(Trap);
      }

      if c.caller.BySessionKey? {
        var sessionPk := c.caller.publicKey;
        if sessionPk in sessionKeys {
          var session, applied := ApplySpendUsage(host, sessionKeys[sessionPk], c.args);
          if applied.Fail? {
            return Err(ArithmeticOverflow);
          }
          if session.cumulativeLimit.Some? {
            sessionKeys := sessionKeys[sessionPk := session];
          }
        }
      }
      return Ok(outside.reply.value);
    }

    /** The call as the host runs it: on an error every write is rolled back. */
    method Execute(host: Host, outside: Outside, c: ExecuteCall) returns (r: Result<ScVal, ContractError>)
      modifies this
      ensures Model() == Step(verify, old(Model()), Event(host, Op.Execute(c, outside)))
      ensures r.Ok? <==> Check(verify, old(Model()), host, Op.Execute(c, outside)).Pass?
      ensures r.Ok? ==> outside.reply == Some(r.value)
      ensures r.Err? ==> Fail(r.error) == Check(verify, old(Model()), host, Op.Execute(c, outside))
    {
      var owner', nonce', version', keys' := owner, nonce, version, sessionKeys;
      var modules', owners', threshold' := modules, owners, threshold;
      r := ExecuteBody(host, outside, c);
      if r.Err? {
        owner, nonce, version, sessionKeys := owner', nonce', version', keys';
        modules, owners, threshold := modules', owners', threshold';
      }
    }

    // ---------------------------------------------------------- session keys

    /** Copies the permissions into an eight-slot buffer before they are validated. */
    method CheckPermissions(permissions: seq<u32>) returns (r: Verdict)
      ensures r == Need(PermissionsValid(permissions), InsufficientPermission)
    {
      var buffer := new u32[PERMISSION_BUFFER](_ => 0);
      var len := 0;
      while len < |permissions|
        invariant 0 <= len <= |permissions| && len <= PERMISSION_BUFFER
        invariant buffer[..len] == permissions[..len]
      {
        if len >= buffer.Length {
          PermissionPigeonhole(permissions);
          return Fail(InsufficientPermission);
        }
        buffer[len] := permissions[len];
        len := len + 1;
      }
      assert permissions[..len] == permissions;
      r := ValidatePermissions(buffer[..len]);
    }

    method AddSessionKey(host: Host, q: KeyRequest) returns (r: Verdict)
      modifies this
      ensures r == Check(verify, old(Model()), host, Op.AddSessionKey(q))
      ensures Model() == Step(verify, old(Model()), Event(host, Op.AddSessionKey(q)))
    {
      if q.expiresAt == 0 {
        return Fail(InvalidExpiration);
      }
      :- ValidateSpendPolicy(q.maxAmountPerCall, q.cumulativeLimit, q.spendWindowSeconds);
      :- RequireOwner(host);
      :- CheckPermissions(q.permissions);
      :- RejectZeroAllowedContracts(q.allowedContracts);
      :- Need(q.publicKey !in sessionKeys, SessionKeyAlreadyExists);
      var expiresAtSecs := NormalizeExpiry(q.expiresAt).value;
      :- ValidateExpiry(expiresAtSecs, host.now);
      sessionKeys := sessionKeys[q.publicKey := SessionKey(
        q.publicKey, expiresAtSecs, q.permissions, q.allowedContracts, q.maxAmountPerCall,
        q.cumulativeLimit, host.now, q.spendWindowSeconds, 0)];
      return Pass;
    }

    method RevokeSessionKey(host: Host, publicKey: Bytes32) returns (r: Verdict)
      modifies this
      ensures r == Check(verify, old(Model()), host, Op.RevokeSessionKey(publicKey))
      ensures Model() == Step(verify, old(Model()), Event(host, Op.RevokeSessionKey(publicKey)))
    {
      r := RequireOwner(host);
      if r.Fail? {
        return r;
      }
      :- Need(publicKey in sessionKeys, SessionKeyNotFound);
      sessionKeys := sessionKeys - {publicKey};
      return Pass;
    }

    method SetAllowedContracts(host: Host, publicKey: Bytes32, allowed: Option<seq<Address>>) returns (r: Verdict)
      modifies this
      ensures r == Check(verify, old(Model()), host, Op.SetAllowedContracts(publicKey, allowed))
      ensures Model() == Step(verify, old(Model()), Event(host, Op.SetAllowedContracts(publicKey, allowed)))
    {
      r := RequireOwner(host);
      if r.Fail? {
        return r;
      }
      :- Need(publicKey in sessionKeys, SessionKeyNotFound);
      :- RejectZeroAllowedContracts(allowed);
      sessionKeys := sessionKeys[publicKey := sessionKeys[publicKey].(allowedContracts := allowed)];
      return Pass;
    }

    method RefreshSessionKeyTtl(host: Host, publicKey: Bytes32) returns (r: Verdict)
      modifies this
      ensures r == Check(verify, old(Model()), host, Op.RefreshSessionKeyTtl(publicKey))
      ensures Model() == Step(verify, old(Model()), Event(host, Op.RefreshSessionKeyTtl(publicKey)))
    {
      r := RequireOwner(host);
      if r.Fail? {
        return r;
      }
      :- Need(publicKey in sessionKeys, SessionKeyNotFound);
      var session := sessionKeys[publicKey];
      :- Need(host.now < session.expiresAt, SessionKeyExpirationInPast);
      var normalized := NormalizeExpiry(session.expiresAt).value;
      if normalized != session.expiresAt {
        sessionKeys := sessionKeys[publicKey := session.(expiresAt := normalized)];
      }
      return Pass;
    }

    // --------------------------------------------------------------- modules

    method RegisterModule(host: Host, mod: Address) returns (r: Verdict)
      modifies this
      ensures r == Check(verify, old(Model()), host, Op.RegisterModule(mod))
      ensures Model() == Step(verify, old(Model()), Event(host, Op.RegisterModule(mod)))
    {
      r := RequireOwner(host);
      if r.Fail? {
        return r;
      }
      if mod !in modules {
        modules := modules + [mod];
      }
      return Pass;
    }

    method UnregisterModule(host: Host, mod: Address) returns (r: Verdict)
      modifies this
      ensures r == Check(verify, old(Model()), host, Op.UnregisterModule(mod))
      ensures Model() == Step(verify, old(Model()), Event(host, Op.UnregisterModule(mod)))
    {
      r := RequireOwner(host);
      if r.Fail? {
        return r;
      }
      modules := FilterOut(modules, mod);
      return Pass;
    }

    method FilterOut(s: seq<Address>, x: Address) returns (updated: seq<Address>)
      ensures updated == Without(s, x)
    {
      updated := [];
      for i := 0 to |s|
        invariant updated == Without(s[..i], x)
      {
        assert s[..i + 1][..i] == s[..i];
        if s[i] != x {
          updated := updated + [s[i]];
        }
      }
      assert s[..|s|] == s;
    }

    // ------------------------------------------------------------ multi-owner

    method RequireQuorum(host: Host, signers: seq<Address>) returns (r: Verdict)
      ensures r == QuorumVerdict(Model(), host, signers)
    {
      if owners.None? {
        return Fail(NotInitialized);
      }
      :- Need(threshold.Some?, NotInitialized);
      var distinct: seq<Address> := [];
      for i := 0 to |signers|
        invariant forall a | a in signers[..i] :: a in owners.value && a in host.auths
        invariant Distinct(distinct) && Elements(distinct) == Elements(signers[..i])
        invariant QuorumRefusal(host.auths, owners.value, signers)
               == QuorumRefusal(host.auths, owners.value, signers[i..])
      {
        var signer := signers[i];
        assert signer in signers;
        assert signers[i..][1..] == signers[i + 1..];
        assert Elements(signers[..i + 1]) == Elements(signers[..i]) + {signer};
        if signer !in owners.value {
          return Fail(Unauthorized);
        }
        if signer !in distinct {
          assert Elements(distinct + [signer]) == Elements(distinct) + {signer};
          distinct := distinct + [signer];
          if signer !in host.auths {
            return Fail(Trap);
          }
        } else {
          assert signer in Elements(distinct);
        }
      }
      assert signers[..|signers|] == signers;
      DistinctCardinality(distinct);
      r := Need(|distinct| >= threshold.value, Unauthorized);
    }

    method InitializeMultiOwner(host: Host, newOwners: seq<Address>, newThreshold: u32) returns (r: Verdict)
      modifies this
      ensures r == Check(verify, old(Model()), host, Op.InitializeMultiOwner(newOwners, newThreshold))
      ensures Model() == Step(verify, old(Model()), Event(host, Op.InitializeMultiOwner(newOwners, newThreshold)))
    {
      if owners.Some? {
        return Fail(AlreadyInitialized);
      }
      :- RequireOwner(host);
      :- Need(|newOwners| != 0, InvalidThreshold);
      :- Need(newThreshold != 0 && newThreshold <= |newOwners|, InvalidThreshold);
      var seen: seq<Address> := [];
      for i := 0 to |newOwners|
        invariant seen == newOwners[..i] && Distinct(seen)
      {
        if newOwners[i] in seen {
          return Fail(InvalidThreshold);
        }
        seen := seen + [newOwners[i]];
      }
      owners := Some(newOwners);
      threshold := Some(newThreshold);
      return Pass;
    }

    method AddOwner(host: Host, signers: seq<Address>, newOwner: Address) returns (r: Verdict)
      modifies this
      ensures r == Check(verify, old(Model()), host, Op.AddOwner(signers, newOwner))
      ensures Model() == Step(verify, old(Model()), Event(host, Op.AddOwner(signers, newOwner)))
    {
      r := RequireQuorum(host, signers);
      if r.Fail? {
        return r;
      }
      :- Need(newOwner !in owners.value, InvalidThreshold);
      owners := Some(owners.value + [newOwner]);
      return Pass;
    }

    method RemoveOwner(host: Host, signers: seq<Address>, ownerToRemove: Address) returns (r: Verdict)
      modifies this
      ensures r == Check(verify, old(Model()), host, Op.RemoveOwner(signers, ownerToRemove))
      ensures Model() == Step(verify, old(Model()), Event(host, Op.RemoveOwner(signers, ownerToRemove)))
    {
      r := RequireQuorum(host, signers);
      if r.Fail? {
        return r;
      }
      :- Need(ownerToRemove in owners.value, InvalidThreshold);
      :- Need(|owners.value| > 1, InvalidThreshold);
      var updated := FilterOut(owners.value, ownerToRemove);
      owners := Some(updated);
      if threshold.value > |updated| {
        threshold := Some(|updated|);
      }
      return Pass;
    }

    method SetThreshold(host: Host, signers: seq<Address>, newThreshold: u32) returns (r: Verdict)
      modifies this
      ensures r == Check(verify, old(Model()), host, Op.SetThreshold(signers, newThreshold))
      ensures Model() == Step(verify, old(Model()), Event(host, Op.SetThreshold(signers, newThreshold)))
    {
      r := RequireQuorum(host, signers);
      if r.Fail? {
        return r;
      }
      :- Need(newThreshold != 0 && newThreshold <= |owners.value|, InvalidThreshold);
      threshold := Some(newThreshold);
      return Pass;
    }

    // --------------------------------------------------------------- versions

    method Upgrade(host: Host, newWasmHash: Bytes32) returns (r: Verdict)
      modifies this
      ensures r == Check(verify, old(Model()), host, Op.Upgrade(newWasmHash))
      ensures Model() == Step(verify, old(Model()), Event(host, Op.Upgrade(newWasmHash)))
    {
      r := RequireOwner(host);
      if r.Fail? {
        return r;
      }
      :- Need(newWasmHash != ZeroHash(), InvalidWasmHash);
      var current := if version.Some? then version.value else 0;
      :- Need(current + 1 < U32_LIMIT, ArithmeticOverflow);
      version := Some(current + 1);
      return Pass;
    }

    method Migrate(host: Host, newVersion: u32) returns (r: Verdict)
      modifies this
      ensures r == Check(verify, old(Model()), host, Op.Migrate(newVersion))
      ensures Model() == Step(verify, old(Model()), Event(host, Op.Migrate(newVersion)))
    {
      r := RequireOwner(host);
      if r.Fail? {
        return r;
      }
      var current := if version.Some? then version.value else 0;
      :- Need(newVersion > current, InvalidVersion);
      version := Some(newVersion);
      return Pass;
    }
  }
}
