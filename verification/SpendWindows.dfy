/** When "at most the limit in any window's length" holds of a session key, and the calls
    that exceed it when it does not (contracts/account/src/lib.rs). */
module SpendWindows {
  import opened Prelude
  import opened Arithmetic
  import opened Xdr
  import opened AccountValidation
  import opened Account
  import opened AccountRuns

  /** How the key's holder calls a target: one amount as the only argument. */
  datatype Spender = Spender(publicKey: Bytes32, to: Address, fn: SymbolName)

  function AmountArgs(amount: i128): Args {
    var args := [I128(amount)];
    assert forall x | x in args :: Encodable(x);
    args
  }

  ghost function SpendEvent(p: Spender, modules: seq<Address>, now: u64, amount: i128, nonce: u64,
      signature: Bytes64): Event
  {
    var payload := SigningPayload(p.to, p.fn, AmountArgs(amount), nonce);
    Event(Host(now, {}),
          Op.Execute(ExecuteCall(BySessionKey(p.publicKey), p.to, p.fn, AmountArgs(amount), nonce,
                                 Some(p.publicKey), Some(signature), Some(payload)),
                     Outside(Elements(modules), Some(Void))))
  }

  ghost predicate Signs(v: Verifier, p: Spender, amount: i128, nonce: u64, signature: Bytes64) {
    v(p.publicKey, SigningPayload(p.to, p.fn, AmountArgs(amount), nonce), signature)
  }

  ghost predicate SignableCall(v: Verifier, p: Spender, amount: i128, nonce: u64) {
    exists signature: Bytes64 :: Signs(v, p, amount, nonce, signature)
  }

  ghost predicate Signable(v: Verifier, p: Spender) {
    forall amount: i128, nonce: u64 :: SignableCall(v, p, amount, nonce)
  }

  /** How many calls it takes to spend an amount under a per-call cap. */
  ghost function Calls(cap: Option<i128>, amount: int): nat
    requires cap.Some? ==> cap.value > 0
    decreases amount
  {
    if amount <= 0 then 0
    else if cap.Some? && cap.value < amount then 1 + Calls(cap, amount - cap.value)
    else 1
  }

  /** The key may execute on the target, and nonces are left to spend the rest of its
      window and one more. */
  ghost predicate Usable(s: State, p: Spender) {
    && p.publicKey in s.sessionKeys
    && var k := s.sessionKeys[p.publicKey];
    && PERMISSION_EXECUTE in k.permissions
    && AllowlistPermits(k.allowedContracts, p.to)
    && k.cumulativeLimit.Some?
    && (k.maxAmountPerCall.Some? ==> k.maxAmountPerCall.value > 0)
    && CurrentNonce(s) + Calls(k.maxAmountPerCall, k.cumulativeLimit.value - k.spentInWindow)
         + Calls(k.maxAmountPerCall, k.cumulativeLimit.value) < U64_LIMIT
  }

  lemma AmountSpent(amount: i128)
    requires amount > 0
    ensures SpendOf(AmountArgs(amount)) == amount
  {
    assert AmountArgs(amount)[..0] == [];
  }

  /** A signed call within the limits goes through, and charges the key. */
  lemma SpendingCall(v: Verifier, s: State, p: Spender, now: u64, amount: i128, signature: Bytes64)
    requires p.publicKey in s.sessionKeys && amount > 0
    requires var k := s.sessionKeys[p.publicKey];
             && now < k.expiresAt && PERMISSION_EXECUTE in k.permissions && AllowlistPermits(k.allowedContracts, p.to)
             && SpendAllowed(SpendInput(k, now, amount))
    requires CurrentNonce(s) + 1 < U64_LIMIT && Signs(v, p, amount, CurrentNonce(s), signature)
    ensures var e := SpendEvent(p, s.modules, now, amount, CurrentNonce(s), signature);
            && SpendsBy(v, s, e, p.publicKey) && SpendAt(v, s, e, p.publicKey) == amount
            && Step(v, s, e) == s.(nonce := Some(CurrentNonce(s) + 1),
                 sessionKeys := s.sessionKeys[p.publicKey := Charged(s.sessionKeys[p.publicKey], now, amount)])
  {
    AmountSpent(amount);
    var e := SpendEvent(p, s.modules, now, amount, CurrentNonce(s), signature);
    assert SessionVerdict(v, s, e.host, e.op.call).Pass?;
  }

  lemma RunSnoc(v: Verifier, s: State, es: seq<Event>, e: Event, pk: Bytes32)
    requires KeyKept(v, s, es, pk) && pk in Step(v, Run(v, s, es), e).sessionKeys
    ensures Run(v, s, es + [e]) == Step(v, Run(v, s, es), e) && KeyKept(v, s, es + [e], pk)
    ensures SpentIn(v, s, es + [e], pk) == SpentIn(v, s, es, pk) + SpendAt(v, Run(v, s, es), e, pk)
  {
    assert (es + [e])[..|es|] == es;
  }

  /** One more call of the holder at the end of a run. */
  lemma SpendMore(v: Verifier, s: State, p: Spender, es: seq<Event>, now: u64, amount: i128) returns (es': seq<Event>)
    requires Signable(v, p) && KeyKept(v, s, es, p.publicKey) && amount > 0
    requires var s' := Run(v, s, es); var k := s'.sessionKeys[p.publicKey];
             && now < k.expiresAt && PERMISSION_EXECUTE in k.permissions && AllowlistPermits(k.allowedContracts, p.to)
             && CurrentNonce(s') + 1 < U64_LIMIT && SpendAllowed(SpendInput(k, now, amount))
    ensures Extends(es, es', now) && KeyKept(v, s, es', p.publicKey)
    ensures SpentIn(v, s, es', p.publicKey) == SpentIn(v, s, es, p.publicKey) + amount
    ensures var s', s'' := Run(v, s, es), Run(v, s, es');
            && CurrentNonce(s'') == CurrentNonce(s') + 1
            && s''.sessionKeys[p.publicKey] == Charged(s'.sessionKeys[p.publicKey], now, amount)
  {
    var s' := Run(v, s, es);
    assert SignableCall(v, p, amount, CurrentNonce(s'));
    var signature :| Signs(v, p, amount, CurrentNonce(s'), signature);
    SpendingCall(v, s', p, now, amount, signature);
    var e := SpendEvent(p, s'.modules, now, amount, CurrentNonce(s'), signature);
    RunSnoc(v, s, es, e, p.publicKey);
    es' := es + [e];
  }

  /** An amount fits what the limit leaves at a time. */
  ghost predicate Loadable(k: SessionKey, now: u64, amount: int) {
    && k.cumulativeLimit.Some? && 0 <= k.spentInWindow && (k.maxAmountPerCall.Some? ==> k.maxAmountPerCall.value > 0)
    && 0 <= amount <= k.cumulativeLimit.value - Carried(k.spendWindowStart, k.spendWindowSeconds, k.spentInWindow, now)
  }

  /** A key after spending an amount at a time, in however many calls. */
  ghost function Loaded(k: SessionKey, now: u64, amount: int): SessionKey
    requires Loadable(k, now, amount)
  {
    if amount == 0 then k
    else
      k.(spendWindowStart := if now > k.spendWindowStart + k.spendWindowSeconds then now else k.spendWindowStart,
         spentInWindow := Carried(k.spendWindowStart, k.spendWindowSeconds, k.spentInWindow, now) + amount)
  }

  /** Whether the key can spend an amount at a time, with the nonces left. */
  ghost predicate CanSpend(s: State, p: Spender, now: u64, amount: int) {
    && p.publicKey in s.sessionKeys
    && var k := s.sessionKeys[p.publicKey];
    && now < k.expiresAt && PERMISSION_EXECUTE in k.permissions && AllowlistPermits(k.allowedContracts, p.to)
    && Loadable(k, now, amount)
    && CurrentNonce(s) + Calls(k.maxAmountPerCall, amount) < U64_LIMIT
  }

  ghost function Portion(cap: Option<i128>, amount: int): int {
    if cap.Some? && cap.value < amount then cap.value else amount
  }

  lemma PortionAllowed(k: SessionKey, now: u64, amount: i128)
    requires Loadable(k, now, amount) && amount > 0
    ensures var c := Portion(k.maxAmountPerCall, amount);
            && 0 < c <= amount && SpendAllowed(SpendInput(k, now, c)) && Charged(k, now, c) == Loaded(k, now, c)
            && Loaded(Loaded(k, now, c), now, amount - c) == Loaded(k, now, amount)
            && Calls(k.maxAmountPerCall, amount) == 1 + Calls(k.maxAmountPerCall, amount - c)
  {
  }

  /** es' is es with more events at one time. */
  ghost predicate Extends(es: seq<Event>, es': seq<Event>, now: u64) {
    |es| <= |es'| && es'[..|es|] == es && forall i :: |es| <= i < |es'| ==> es'[i].host.now == now
  }

  lemma ExtendsTwice(a: seq<Event>, b: seq<Event>, c: seq<Event>, now: u64)
    requires Extends(a, b, now) && Extends(b, c, now)
    ensures Extends(a, c, now)
  {
    assert c[..|a|] == b[..|a|];
    assert forall i :: |a| <= i < |b| ==> c[i] == c[..|b|][i];
  }

  lemma PortionLeaves(s: State, s': State, p: Spender, now: u64, amount: int)
    requires amount > 0 && CanSpend(s, p, now, amount) && p.publicKey in s'.sessionKeys
    requires var k := s.sessionKeys[p.publicKey];
             && s'.sessionKeys[p.publicKey] == Loaded(k, now, Portion(k.maxAmountPerCall, amount))
             && CurrentNonce(s') == CurrentNonce(s) + 1
    ensures CanSpend(s', p, now, amount - Portion(s.sessionKeys[p.publicKey].maxAmountPerCall, amount))
  {
    PortionAllowed(s.sessionKeys[p.publicKey], now, amount);
  }

  /** An amount that fits the window is spent in as many calls as the per-call cap asks for. */
  lemma {:induction false} SpendInCalls(v: Verifier, s: State, p: Spender, es: seq<Event>, now: u64, amount: int)
    returns (es': seq<Event>)
    requires Signable(v, p) && KeyKept(v, s, es, p.publicKey) && CanSpend(Run(v, s, es), p, now, amount)
    ensures Extends(es, es', now) && KeyKept(v, s, es', p.publicKey)
    ensures SpentIn(v, s, es', p.publicKey) == SpentIn(v, s, es, p.publicKey) + amount
    ensures var s', s'' := Run(v, s, es), Run(v, s, es'); var k := s'.sessionKeys[p.publicKey];
            && s''.sessionKeys[p.publicKey] == Loaded(k, now, amount)
            && CurrentNonce(s'') == CurrentNonce(s') + Calls(k.maxAmountPerCall, amount)
    decreases amount
  {
    if amount == 0 {
      es' := es;
    } else {
      var k := Run(v, s, es).sessionKeys[p.publicKey];
      PortionAllowed(k, now, amount);
      var c := Portion(k.maxAmountPerCall, amount);
      var one := SpendMore(v, s, p, es, now, c);
      PortionLeaves(Run(v, s, es), Run(v, s, one), p, now, amount);
      es' := SpendInCalls(v, s, p, one, now, amount - c);
      ExtendsTwice(es, one, es', now);
    }
  }

  /** At the last second of a window and the first of the next, the key spends the rest of
      the one limit and all of the next. */
  lemma LimitTwiceInOneSecond(v: Verifier, s: State, p: Spender) returns (es: seq<Event>)
    requires Inv(s) && Usable(s, p) && Signable(v, p)
    requires s.sessionKeys[p.publicKey].spendWindowStart + s.sessionKeys[p.publicKey].spendWindowSeconds + 1
             < s.sessionKeys[p.publicKey].expiresAt
    ensures var k := s.sessionKeys[p.publicKey]; var last := k.spendWindowStart + k.spendWindowSeconds;
            && KeyKept(v, s, es, p.publicKey)
            && (forall i :: 0 <= i < |es| ==> last <= es[i].host.now <= last + 1)
            && SpentIn(v, s, es, p.publicKey) == 2 * k.cumulativeLimit.value - k.spentInWindow
  {
    var k := s.sessionKeys[p.publicKey];
    assert KeyInv(p.publicKey, k);
    var last, limit := k.spendWindowStart + k.spendWindowSeconds, k.cumulativeLimit.value;
    assert Run(v, s, []) == s && KeyKept(v, s, [], p.publicKey);
    var first := SpendInCalls(v, s, p, [], last, limit - k.spentInWindow);
    es := SpendInCalls(v, s, p, first, last + 1, limit);
    assert forall i :: 0 <= i < |first| ==> es[i] == es[..|first|][i];
  }

  ghost predicate Within(es: seq<Event>, t: nat, d: nat) {
    forall i :: 0 <= i < |es| ==> t <= es[i].host.now <= t + d
  }

  /** No run of one registration spends more than its limit at times in [t, t + d]. */
  ghost predicate LimitHolds(v: Verifier, s: State, pk: Bytes32, t: nat, d: nat)
    requires pk in s.sessionKeys && s.sessionKeys[pk].cumulativeLimit.Some?
  {
    forall es :: KeyKept(v, s, es, pk) && Within(es, t, d) ==>
      SpentIn(v, s, es, pk) <= s.sessionKeys[pk].cumulativeLimit.value
  }

  /** The running window is over by t, or covers t + d, or lasts until the key expires,
      or is used up. */
  predicate OneWindow(k: SessionKey, t: nat, d: nat) {
    var last := k.spendWindowStart + k.spendWindowSeconds;
    last < t || t + d <= last || k.expiresAt <= last + 1 || k.cumulativeLimit == Some(k.spentInWindow)
  }

  /** The latest time in [t, t + d] at which the key can spend. */
  function SpendsUntil(k: SessionKey, t: nat, d: nat): (e: nat)
    ensures t <= e <= t + d
  {
    Max(t, Min(t + d, k.expiresAt - 1))
  }

  lemma OneLimit(k: SessionKey, pk: Bytes32, t: nat, d: nat)
    requires KeyInv(pk, k) && k.cumulativeLimit.Some? && d <= k.spendWindowSeconds && OneWindow(k, t, d)
    ensures Budget(k, t, SpendsUntil(k, t, d)) <= k.cumulativeLimit.value
  {
    var start, span, e := k.spendWindowStart, k.spendWindowSeconds + 1, SpendsUntil(k, t, d);
    if start + span <= t {
      DivUnique(e - t, span, 0, e - t);
    } else if start <= e {
      var coming := e - start;
      if coming < span {
        DivUnique(coming, span, 0, coming);
      } else {
        DivUnique(coming, span, 1, coming - span);
      }
    }
  }

  lemma OneLimitSpent(v: Verifier, s: State, pk: Bytes32, t: nat, d: nat, es: seq<Event>)
    requires Inv(s) && pk in s.sessionKeys && s.sessionKeys[pk].cumulativeLimit.Some?
    requires d <= s.sessionKeys[pk].spendWindowSeconds && OneWindow(s.sessionKeys[pk], t, d)
    requires KeyKept(v, s, es, pk) && Within(es, t, d)
    ensures SpentIn(v, s, es, pk) <= s.sessionKeys[pk].cumulativeLimit.value
  {
    var k := s.sessionKeys[pk];
    var e := SpendsUntil(k, t, d);
    assert KeyInv(pk, k);
    OneLimit(k, pk, t, d);
    forall i | 0 <= i < |es| && SpendsBy(v, Run(v, s, es[..i]), es[i], pk)
      ensures t <= es[i].host.now <= e
    {
      SpendsBeforeExpiry(v, s, es, pk, i);
    }
    SpentWithinBudget(v, s, es, pk, t, e);
  }

  lemma TwoLimitsSpent(v: Verifier, s: State, p: Spender, t: nat, d: nat)
    requires Inv(s) && Usable(s, p) && Signable(v, p) && !OneWindow(s.sessionKeys[p.publicKey], t, d)
    ensures !LimitHolds(v, s, p.publicKey, t, d)
  {
    assert KeyInv(p.publicKey, s.sessionKeys[p.publicKey]);
    var es := LimitTwiceInOneSecond(v, s, p);
    assert Within(es, t, d);
  }

  /** Over a stretch no longer than the window, the limit holds of a usable key exactly
      when the stretch does not straddle the end of a running window that the key outlives
      with something left to spend. */
  lemma LimitHoldsIff(v: Verifier, s: State, p: Spender, t: nat, d: nat)
    requires Inv(s) && Usable(s, p) && Signable(v, p)
    requires d <= s.sessionKeys[p.publicKey].spendWindowSeconds
    ensures LimitHolds(v, s, p.publicKey, t, d) <==> OneWindow(s.sessionKeys[p.publicKey], t, d)
  {
    if OneWindow(s.sessionKeys[p.publicKey], t, d) {
      forall es | KeyKept(v, s, es, p.publicKey) && Within(es, t, d)
        ensures SpentIn(v, s, es, p.publicKey) <= s.sessionKeys[p.publicKey].cumulativeLimit.value
      {
        OneLimitSpent(v, s, p.publicKey, t, d, es);
      }
    } else {
      TwoLimitsSpent(v, s, p, t, d);
    }
  }
}
