/** What every run of the account keeps: its storage invariant, how fast a session
    key can spend, that each nonce and each signed payload is used once, and that
    the owners' quorum can always be met. */
module AccountRuns {
  import opened Prelude
  import opened Arithmetic
  import opened Xdr
  import opened AccountValidation
  import opened Account

  // ------------------------------------------------------- reachable storage

  ghost predicate KeyInv(pk: Bytes32, k: SessionKey) {
    && k.publicKey == pk
    && PermissionsValid(k.permissions)
    && AllowlistValid(k.allowedContracts)
    && SpendPolicyValid(k.maxAmountPerCall, k.cumulativeLimit, k.spendWindowSeconds)
    && 0 <= k.spentInWindow
    && (k.cumulativeLimit.Some? ==> k.spentInWindow <= k.cumulativeLimit.value)
    && (k.cumulativeLimit.None? ==> k.spentInWindow == 0)
  }

  ghost predicate ConfigInv(s: State) {
    && (s.owner.None? ==> s == EMPTY)
    && (s.owner.Some? ==> s.nonce.Some? && s.version.Some? && s.version.value >= 1)
  }

  ghost predicate OwnersInv(s: State) {
    && (s.owners.Some? <==> s.threshold.Some?)
    && (s.owners.Some? ==> Distinct(s.owners.value) && 1 <= s.threshold.value <= |s.owners.value|)
  }

  ghost predicate KeysInv(s: State) {
    forall pk | pk in s.sessionKeys :: KeyInv(pk, s.sessionKeys[pk])
  }

  ghost predicate Inv(s: State) {
    ConfigInv(s) && OwnersInv(s) && KeysInv(s)
  }

  lemma DeployedInv()
    ensures Inv(EMPTY)
  {
  }

  lemma {:induction false} WithoutDistinct<T(!new)>(s: seq<T>, x: T)
    requires Distinct(s)
    ensures Distinct(Without(s, x))
    ensures |Without(s, x)| == if x in s then |s| - 1 else |s|
  {
    if s != [] {
      var front, last := s[..|s| - 1], s[|s| - 1];
      WithoutDistinct(front, x);
      assert s == front + [last] && last !in front;
      assert last !in Without(front, x);
    }
  }

  lemma ExecuteConfig(v: Verifier, s: State, e: Event)
    requires Inv(s) && e.op.Execute? && Check(v, s, e.host, e.op).Pass?
    ensures ConfigInv(Effect(v, s, e.host, e.op))
  {
  }

  /** Whatever is neither `initialize`, `execute` nor a version change keeps these fields. */
  lemma OtherConfig(v: Verifier, s: State, e: Event)
    requires Inv(s) && Check(v, s, e.host, e.op).Pass?
    requires !e.op.Initialize? && !e.op.Execute? && !e.op.Upgrade? && !e.op.Migrate?
    ensures var s' := Effect(v, s, e.host, e.op); s'.owner == s.owner && s'.nonce == s.nonce && s'.version == s.version
    ensures s.owner.Some?
  {
  }

  lemma StepConfig(v: Verifier, s: State, e: Event)
    requires Inv(s)
    ensures ConfigInv(Step(v, s, e))
  {
    if Check(v, s, e.host, e.op).Pass? {
      match e.op
      case Initialize(_) =>
      case Execute(_, _) => ExecuteConfig(v, s, e);
      case Upgrade(_) =>
      case Migrate(_) =>
      case _ => OtherConfig(v, s, e);
    }
  }

  lemma StepHistory(v: Verifier, s: State, e: Event)
    requires Inv(s)
    ensures var s' := Step(v, s, e);
            && (s.owner.Some? ==> s'.owner == s.owner)
            && (s.owners.Some? ==> s'.owners.Some?)
            && CurrentVersion(s) <= CurrentVersion(s')
  {
  }

  lemma StepOwners(v: Verifier, s: State, e: Event)
    requires Inv(s)
    ensures OwnersInv(Step(v, s, e))
  {
    if e.op.RemoveOwner? && Check(v, s, e.host, e.op).Pass? {
      WithoutDistinct(s.owners.value, e.op.removed);
    }
  }

  lemma ExecuteKeys(v: Verifier, s: State, e: Event)
    requires Inv(s) && e.op.Execute? && Check(v, s, e.host, e.op).Pass?
    ensures KeysInv(Effect(v, s, e.host, e.op))
  {
    if e.op.call.caller.BySessionKey? {
      assert KeyInv(e.op.call.caller.publicKey, s.sessionKeys[e.op.call.caller.publicKey]);
    }
  }

  lemma StepKeys(v: Verifier, s: State, e: Event)
    requires Inv(s)
    ensures KeysInv(Step(v, s, e))
  {
    if Check(v, s, e.host, e.op).Pass? {
      match e.op
      case Execute(_, _) => ExecuteKeys(v, s, e);
      case AddSessionKey(q) => assert KeyInv(q.publicKey, FreshKey(e.host, q));
      case RevokeSessionKey(_) =>
      case SetAllowedContracts(_, _) =>
      case RefreshSessionKeyTtl(_) =>
      case _ => assert Step(v, s, e).sessionKeys == s.sessionKeys;
    }
  }

  lemma StepInv(v: Verifier, s: State, e: Event)
    requires Inv(s)
    ensures Inv(Step(v, s, e))
  {
    StepConfig(v, s, e);
    StepOwners(v, s, e);
    StepKeys(v, s, e);
  }

  /** Every reachable storage is well formed: each key's counter stays in
      [0, limit], and 1 <= threshold <= number of distinct owners. */
  lemma {:induction false} RunInv(v: Verifier, s: State, es: seq<Event>)
    requires Inv(s)
    ensures Inv(Run(v, s, es))
  {
    if es != [] {
      RunInv(v, s, es[..|es| - 1]);
      StepInv(v, Run(v, s, es[..|es| - 1]), es[|es| - 1]);
    }
  }

  // ---------------------------------------------------------------- spending

  ghost predicate SpendsBy(v: Verifier, s: State, e: Event, pk: Bytes32) {
    e.op.Execute? && e.op.call.caller == BySessionKey(pk) && Check(v, s, e.host, e.op).Pass?
  }

  ghost function SpendAt(v: Verifier, s: State, e: Event, pk: Bytes32): (n: int)
    ensures n >= 0
  {
    if SpendsBy(v, s, e, pk) then SpendOf(e.op.call.args) else 0
  }

  /** The total spend of the successful calls made with a key during a run. */
  ghost function SpentIn(v: Verifier, s: State, es: seq<Event>, pk: Bytes32): (n: int)
    ensures n >= 0
  {
    if es == [] then 0
    else
      var front := es[..|es| - 1];
      SpentIn(v, s, front, pk) + SpendAt(v, Run(v, s, front), es[|es| - 1], pk)
  }

  /** The key stays registered throughout: one registration. */
  ghost predicate KeyKept(v: Verifier, s: State, es: seq<Event>, pk: Bytes32) {
    && pk in Run(v, s, es).sessionKeys
    && (es != [] ==> KeyKept(v, s, es[..|es| - 1], pk))
  }

  ghost predicate SamePolicy(a: SessionKey, b: SessionKey) {
    && a.cumulativeLimit == b.cumulativeLimit
    && a.spendWindowSeconds == b.spendWindowSeconds
    && a.maxAmountPerCall == b.maxAmountPerCall
    && a.permissions == b.permissions
    && b.expiresAt <= a.expiresAt
  }

  /** An executed call charges the key it was made with and leaves the others. */
  lemma ExecuteKeyStep(v: Verifier, s: State, e: Event, pk: Bytes32)
    requires Inv(s) && pk in s.sessionKeys && e.op.Execute? && Check(v, s, e.host, e.op).Pass?
    ensures var k, s' := s.sessionKeys[pk], Effect(v, s, e.host, e.op);
            && pk in s'.sessionKeys
            && if e.op.call.caller == BySessionKey(pk) then
                 && e.host.now < k.expiresAt
                 && SpendAllowed(SpendInput(k, e.host.now, SpendOf(e.op.call.args)))
                 && s'.sessionKeys[pk] == Charged(k, e.host.now, SpendOf(e.op.call.args))
               else s'.sessionKeys[pk] == k
  {
  }

  lemma OtherKeyStep(v: Verifier, s: State, e: Event, pk: Bytes32)
    requires pk in s.sessionKeys && !e.op.Execute? && Check(v, s, e.host, e.op).Pass?
    requires pk in Effect(v, s, e.host, e.op).sessionKeys
    ensures var k, k' := s.sessionKeys[pk], Effect(v, s, e.host, e.op).sessionKeys[pk];
            SamePolicy(k, k') && k'.spendWindowStart == k.spendWindowStart && k'.spentInWindow == k.spentInWindow
  {
  }

  /** A step that keeps a key keeps its policy, never extends its expiry, and
      touches its spend window only by charging a call made with it. */
  lemma KeyStep(v: Verifier, s: State, e: Event, pk: Bytes32)
    requires Inv(s) && pk in s.sessionKeys && pk in Step(v, s, e).sessionKeys
    ensures var k, k' := s.sessionKeys[pk], Step(v, s, e).sessionKeys[pk];
            && SamePolicy(k, k')
            && (SpendsBy(v, s, e, pk) ==>
                  && e.host.now < k.expiresAt
                  && SpendAllowed(SpendInput(k, e.host.now, SpendOf(e.op.call.args)))
                  && k' == Charged(k, e.host.now, SpendOf(e.op.call.args)))
            && (!SpendsBy(v, s, e, pk) ==>
                  k'.spendWindowStart == k.spendWindowStart && k'.spentInWindow == k.spentInWindow)
  {
    if Check(v, s, e.host, e.op).Pass? {
      if e.op.Execute? {
        ExecuteKeyStep(v, s, e, pk);
      } else {
        OtherKeyStep(v, s, e, pk);
      }
    }
  }

  lemma {:induction false} KeyRun(v: Verifier, s: State, es: seq<Event>, pk: Bytes32)
    requires Inv(s) && KeyKept(v, s, es, pk)
    ensures pk in s.sessionKeys && SamePolicy(s.sessionKeys[pk], Run(v, s, es).sessionKeys[pk])
  {
    if es != [] {
      var front := es[..|es| - 1];
      KeyRun(v, s, front, pk);
      RunInv(v, s, front);
      KeyStep(v, Run(v, s, front), es[|es| - 1], pk);
    }
  }

  /** An upper bound on what can still be spent at times in [t, e]: the rest of
      the running window plus one limit for each window that can start by e. */
  ghost function BudgetOf(start: int, spent: int, span: int, limit: int, t: int, e: int): int
    requires span > 0
  {
    if start + span <= t then (1 + (e - t) / span) * limit
    else limit - spent + (if start <= e then (e - start) / span else 0) * limit
  }

  ghost function Budget(k: SessionKey, t: int, e: int): int
    requires k.cumulativeLimit.Some?
  {
    BudgetOf(k.spendWindowStart, k.spentInWindow, k.spendWindowSeconds + 1, k.cumulativeLimit.value, t, e)
  }

  /** A window that starts later leaves fewer windows to come. */
  lemma LaterWindow(start: int, now: int, e: int, span: int, limit: int)
    requires span > 0 && limit >= 0 && start + span <= now <= e
    ensures limit + (e - now) / span * limit <= (e - start) / span * limit
  {
    DivMono(e - now, e - start - span, span);
    DivBack(e - start, span);
    MulMono((e - now) / span + 1, (e - start) / span, limit);
    assert ((e - now) / span + 1) * limit == (e - now) / span * limit + limit;
  }

  lemma EarlierBudget(t: int, now: int, e: int, span: int, limit: int)
    requires span > 0 && limit >= 0 && t <= now <= e
    ensures limit + (e - now) / span * limit <= (1 + (e - t) / span) * limit
  {
    DivMono(e - now, e - t, span);
    MulMono(1 + (e - now) / span, 1 + (e - t) / span, limit);
    assert (1 + (e - now) / span) * limit == limit + (e - now) / span * limit;
  }

  /** Restarting the window now and spending comes out of the budget. */
  lemma BudgetRestart(start: int, spent: int, span: int, limit: int, now: int, amount: int, t: int, e: int)
    requires span > 0 && limit > 0 && spent <= limit
    requires t <= now <= e && start + span <= now
    ensures amount + BudgetOf(now, amount, span, limit, t, e) <= BudgetOf(start, spent, span, limit, t, e)
  {
    assert amount + BudgetOf(now, amount, span, limit, t, e) == limit + (e - now) / span * limit;
    if start + span <= t {
      EarlierBudget(t, now, e, span, limit);
    } else {
      LaterWindow(start, now, e, span, limit);
    }
  }

  /** Spending comes out of the budget. */
  lemma BudgetStep(k: SessionKey, now: u64, amount: i128, t: int, e: int)
    requires k.cumulativeLimit.Some? && k.cumulativeLimit.value > 0
    requires 0 <= k.spentInWindow <= k.cumulativeLimit.value
    requires t <= now <= e && amount >= 0
    requires SpendAllowed(SpendInput(k, now, amount))
    ensures amount + Budget(Charged(k, now, amount), t, e) <= Budget(k, t, e)
  {
    var start, span, limit := k.spendWindowStart, k.spendWindowSeconds + 1, k.cumulativeLimit.value;
    if amount > 0 && start + span <= now {
      BudgetRestart(start, k.spentInWindow, span, limit, now, amount, t, e);
    }
  }

  lemma BudgetEvent(v: Verifier, s: State, ev: Event, pk: Bytes32, t: int, e: int)
    requires Inv(s) && pk in s.sessionKeys && pk in Step(v, s, ev).sessionKeys
    requires s.sessionKeys[pk].cumulativeLimit.Some?
    requires SpendsBy(v, s, ev, pk) ==> t <= ev.host.now <= e
    ensures Step(v, s, ev).sessionKeys[pk].cumulativeLimit.Some?
    ensures SpendAt(v, s, ev, pk) + Budget(Step(v, s, ev).sessionKeys[pk], t, e) <= Budget(s.sessionKeys[pk], t, e)
  {
    KeyStep(v, s, ev, pk);
    var k := s.sessionKeys[pk];
    assert KeyInv(pk, k);
    if SpendsBy(v, s, ev, pk) {
      BudgetStep(k, ev.host.now, SpendOf(ev.op.call.args), t, e);
    }
  }

  lemma {:induction false} BudgetRun(v: Verifier, s: State, es: seq<Event>, pk: Bytes32, t: int, e: int)
    requires Inv(s) && KeyKept(v, s, es, pk)
    requires pk in s.sessionKeys && s.sessionKeys[pk].cumulativeLimit.Some?
    requires forall i | 0 <= i < |es| && SpendsBy(v, Run(v, s, es[..i]), es[i], pk) :: t <= es[i].host.now <= e
    ensures pk in Run(v, s, es).sessionKeys && Run(v, s, es).sessionKeys[pk].cumulativeLimit.Some?
    ensures SpentIn(v, s, es, pk) + Budget(Run(v, s, es).sessionKeys[pk], t, e) <= Budget(s.sessionKeys[pk], t, e)
  {
    KeyRun(v, s, es, pk);
    if es != [] {
      var front, last := es[..|es| - 1], es[|es| - 1];
      forall i | 0 <= i < |front| && SpendsBy(v, Run(v, s, front[..i]), front[i], pk)
        ensures t <= front[i].host.now <= e
      {
        assert front[..i] == es[..i];
      }
      BudgetRun(v, s, front, pk, t, e);
      RunInv(v, s, front);
      var mid := Run(v, s, front);
      assert SpendsBy(v, mid, last, pk) ==> SpendsBy(v, Run(v, s, es[..|es| - 1]), es[|es| - 1], pk);
      BudgetEvent(v, mid, last, pk, t, e);
    }
  }

  lemma BudgetNonNegative(pk: Bytes32, k: SessionKey, t: int, e: int)
    requires KeyInv(pk, k) && k.cumulativeLimit.Some? && t <= e
    ensures Budget(k, t, e) >= 0
  {
    var limit, span := k.cumulativeLimit.value, k.spendWindowSeconds + 1;
    DivMono(0, e - t, span);
    MulMono(0, 1 + (e - t) / span, limit);
    if k.spendWindowStart <= e {
      DivMono(0, e - k.spendWindowStart, span);
      MulMono(0, (e - k.spendWindowStart) / span, limit);
    }
  }

  lemma SpentWithinBudget(v: Verifier, s: State, es: seq<Event>, pk: Bytes32, t: int, e: int)
    requires Inv(s) && KeyKept(v, s, es, pk) && t <= e
    requires pk in s.sessionKeys && s.sessionKeys[pk].cumulativeLimit.Some?
    requires forall i | 0 <= i < |es| && SpendsBy(v, Run(v, s, es[..i]), es[i], pk) :: t <= es[i].host.now <= e
    ensures SpentIn(v, s, es, pk) <= Budget(s.sessionKeys[pk], t, e)
  {
    BudgetRun(v, s, es, pk, t, e);
    RunInv(v, s, es);
    BudgetNonNegative(pk, Run(v, s, es).sessionKeys[pk], t, e);
  }

  /** No budget over d seconds exceeds 1 + ceil(d / span) limits. */
  lemma BudgetBound(start: int, spent: int, span: int, limit: int, t: int, d: nat)
    requires span > 0 && limit > 0 && 0 <= spent <= limit
    ensures BudgetOf(start, spent, span, limit, t, t + d) <= (1 + CeilDiv(d, span)) * limit
  {
    if start + span <= t {
      DivMono(d, d + span - 1, span);
      MulMono(1 + d / span, 1 + CeilDiv(d, span), limit);
    } else {
      var coming := if start <= t + d then (t + d - start) / span else 0;
      DivMono(if start <= t + d then t + d - start else 0, d + span - 1, span);
      MulMono(coming, CeilDiv(d, span), limit);
      assert (1 + CeilDiv(d, span)) * limit == limit + CeilDiv(d, span) * limit;
    }
  }

  /** What a window of `window` seconds and a limit allow over d seconds. */
  ghost function RateBound(window: nat, limit: int, d: nat): int {
    (1 + CeilDiv(d, window + 1)) * limit
  }

  /** In any stretch [t, t + d] of ledger time a key with limit L and window W
      spends at most (1 + ceil(d / (W + 1))) * L. */
  lemma SpendRate(v: Verifier, s: State, es: seq<Event>, pk: Bytes32, t: nat, d: nat)
    requires Inv(s) && KeyKept(v, s, es, pk)
    requires pk in s.sessionKeys && s.sessionKeys[pk].cumulativeLimit.Some?
    requires forall e | e in es :: t <= e.host.now <= t + d
    ensures var k := s.sessionKeys[pk];
            SpentIn(v, s, es, pk) <= RateBound(k.spendWindowSeconds, k.cumulativeLimit.value, d)
  {
    var k := s.sessionKeys[pk];
    assert KeyInv(pk, k);
    SpentWithinBudget(v, s, es, pk, t, t + d);
    BudgetBound(k.spendWindowStart, k.spentInWindow, k.spendWindowSeconds + 1, k.cumulativeLimit.value, t, d);
  }

  lemma RateOverOneWindow(w: nat, limit: int)
    requires w > 0
    ensures RateBound(w, limit, w) == 2 * limit
  {
    DivUnique(w + (w + 1) - 1, w + 1, 1, w - 1);
  }

  /** So at most twice the limit in any W seconds. */
  lemma TwiceTheLimitPerWindow(v: Verifier, s: State, es: seq<Event>, pk: Bytes32, t: nat)
    requires Inv(s) && KeyKept(v, s, es, pk)
    requires pk in s.sessionKeys && s.sessionKeys[pk].cumulativeLimit.Some?
    requires forall e | e in es :: t <= e.host.now <= t + s.sessionKeys[pk].spendWindowSeconds
    ensures SpentIn(v, s, es, pk) <= 2 * s.sessionKeys[pk].cumulativeLimit.value
  {
    var w: int := s.sessionKeys[pk].spendWindowSeconds;
    assert KeyInv(pk, s.sessionKeys[pk]);
    SpendRate(v, s, es, pk, t, w);
    RateOverOneWindow(w, s.sessionKeys[pk].cumulativeLimit.value);
  }

  /** While a registration lasts it cannot outspend its budget up to its expiry,
      since no step extends an expiry. */
  lemma RegistrationSpend(v: Verifier, s: State, es: seq<Event>, pk: Bytes32)
    requires Inv(s) && KeyKept(v, s, es, pk)
    requires pk in s.sessionKeys && s.sessionKeys[pk].cumulativeLimit.Some? && s.sessionKeys[pk].expiresAt > 0
    ensures SpentIn(v, s, es, pk) <= Budget(s.sessionKeys[pk], 0, s.sessionKeys[pk].expiresAt - 1)
  {
    var end := s.sessionKeys[pk].expiresAt - 1;
    forall i | 0 <= i < |es| && SpendsBy(v, Run(v, s, es[..i]), es[i], pk)
      ensures 0 <= es[i].host.now <= end
    {
      SpendsBeforeExpiry(v, s, es, pk, i);
    }
    SpentWithinBudget(v, s, es, pk, 0, end);
  }

  lemma SpendsBeforeExpiry(v: Verifier, s: State, es: seq<Event>, pk: Bytes32, i: nat)
    requires Inv(s) && KeyKept(v, s, es, pk) && pk in s.sessionKeys
    requires i < |es| && SpendsBy(v, Run(v, s, es[..i]), es[i], pk)
    ensures es[i].host.now < s.sessionKeys[pk].expiresAt
  {
    KeptPrefix(v, s, es, pk, i);
    KeyRun(v, s, es[..i], pk);
  }

  lemma Registered(v: Verifier, s: State, host: Host, q: KeyRequest)
    requires Check(v, s, host, Op.AddSessionKey(q)).Pass?
    ensures var s0 := Step(v, s, Event(host, Op.AddSessionKey(q)));
            && q.publicKey in s0.sessionKeys
            && s0.sessionKeys[q.publicKey] == FreshKey(host, q)
            && host.now < FreshKey(host, q).expiresAt
  {
  }

  lemma FreshBudget(host: Host, q: KeyRequest)
    requires q.expiresAt != 0 && q.cumulativeLimit.Some? && host.now < FreshKey(host, q).expiresAt
    ensures var k := FreshKey(host, q);
            Budget(k, 0, k.expiresAt - 1)
            == (1 + (k.expiresAt - 1 - host.now) / (q.spendWindowSeconds + 1)) * q.cumulativeLimit.value
  {
    var n, l := (FreshKey(host, q).expiresAt - 1 - host.now) / (q.spendWindowSeconds + 1), q.cumulativeLimit.value;
    assert (1 + n) * l == l + n * l;
  }

  /** From registration at t0 to expiry E, whatever refreshes and reconfigurations
      happen, a registration spends at most (1 + floor((E - 1 - t0) / (W + 1))) * L. */
  lemma LifetimeSpend(v: Verifier, s: State, host: Host, q: KeyRequest, es: seq<Event>)
    requires Inv(s) && q.cumulativeLimit.Some?
    requires Check(v, s, host, Op.AddSessionKey(q)).Pass?
    requires KeyKept(v, Step(v, s, Event(host, Op.AddSessionKey(q))), es, q.publicKey)
    ensures var expiry := NormalizeExpiry(q.expiresAt).value;
            SpentIn(v, Step(v, s, Event(host, Op.AddSessionKey(q))), es, q.publicKey)
            <= (1 + (expiry - 1 - host.now) / (q.spendWindowSeconds + 1)) * q.cumulativeLimit.value
  {
    StepInv(v, s, Event(host, Op.AddSessionKey(q)));
    Registered(v, s, host, q);
    RegistrationSpend(v, Step(v, s, Event(host, Op.AddSessionKey(q))), es, q.publicKey);
    FreshBudget(host, q);
  }

  lemma RefreshNormalizes(v: Verifier, s: State, host: Host, pk: Bytes32)
    requires Check(v, s, host, Op.RefreshSessionKeyTtl(pk)).Pass?
    ensures var s' := Step(v, s, Event(host, Op.RefreshSessionKeyTtl(pk)));
            && pk in s'.sessionKeys && s.sessionKeys[pk].expiresAt > 0
            && s'.sessionKeys[pk] == s.sessionKeys[pk].(expiresAt := NormalizeExpiry(s.sessionKeys[pk].expiresAt).value)
  {
  }

  /** A refresh leaves a registration's expiry alone exactly when the expiry submitted for
      it was below 10^14. */
  lemma RefreshKeepsExpiryIff(v: Verifier, s: State, host: Host, q: KeyRequest, host': Host)
    requires Check(v, s, host, Op.AddSessionKey(q)).Pass?
    requires var s' := Step(v, s, Event(host, Op.AddSessionKey(q)));
             Check(v, s', host', Op.RefreshSessionKeyTtl(q.publicKey)).Pass?
    ensures var s' := Step(v, s, Event(host, Op.AddSessionKey(q)));
            var s'' := Step(v, s', Event(host', Op.RefreshSessionKeyTtl(q.publicKey)));
            && q.publicKey in s'.sessionKeys && q.publicKey in s''.sessionKeys
            && (s''.sessionKeys[q.publicKey] == s'.sessionKeys[q.publicKey]
                <==> q.expiresAt < 1000 * MIN_MILLISECONDS_TIMESTAMP)
  {
    Registered(v, s, host, q);
    RefreshNormalizes(v, Step(v, s, Event(host, Op.AddSessionKey(q))), host', q.publicKey);
    NormalizeTwice(q.expiresAt);
  }

  /** Submitted as 10^14, stored as 10^11, after one refresh an expiry is 10^8: past. */
  lemma RefreshEndsTheKey(v: Verifier, s: State, host: Host, q: KeyRequest)
    requires Check(v, s, host, Op.AddSessionKey(q)).Pass?
    requires q.expiresAt == 100_000_000_000_000 && host.now == 1_700_000_000
    ensures var s' := Step(v, s, Event(host, Op.AddSessionKey(q)));
            var s'' := Step(v, s', Event(host, Op.RefreshSessionKeyTtl(q.publicKey)));
            && q.publicKey in s'.sessionKeys && s'.sessionKeys[q.publicKey].expiresAt == 100_000_000_000
            && q.publicKey in s''.sessionKeys && s''.sessionKeys[q.publicKey].expiresAt == 100_000_000 < host.now
  {
    Registered(v, s, host, q);
    var s' := Step(v, s, Event(host, Op.AddSessionKey(q)));
    assert s'.owner == s.owner;
    assert Check(v, s', host, Op.RefreshSessionKeyTtl(q.publicKey)).Pass?;
    RefreshNormalizes(v, s', host, q.publicKey);
  }

  lemma {:induction false} KeptPrefix(v: Verifier, s: State, es: seq<Event>, pk: Bytes32, n: nat)
    requires KeyKept(v, s, es, pk) && n <= |es|
    ensures KeyKept(v, s, es[..n], pk)
  {
    if n == |es| {
      assert es[..n] == es;
    } else {
      KeptPrefix(v, s, es[..|es| - 1], pk, n);
      assert es[..|es| - 1][..n] == es[..n];
    }
  }

  // ------------------------------------------------------- nonces and replays

  ghost predicate Executes(v: Verifier, s: State, e: Event) {
    e.op.Execute? && Check(v, s, e.host, e.op).Pass?
  }

  /** The nonces of a run's successful calls, in order. */
  ghost function Consumed(v: Verifier, s: State, es: seq<Event>): seq<u64> {
    if es == [] then []
    else
      var front, last := es[..|es| - 1], es[|es| - 1];
      Consumed(v, s, front) + if Executes(v, Run(v, s, front), last) then [last.op.call.expectedNonce] else []
  }

  lemma NonceStep(v: Verifier, s: State, e: Event)
    requires Inv(s)
    ensures CurrentNonce(Step(v, s, e)) == CurrentNonce(s) + if Executes(v, s, e) then 1 else 0
    ensures Executes(v, s, e) ==> e.op.call.expectedNonce == CurrentNonce(s) && s.owner.Some?
  {
  }

  /** From deployment, the successful calls consume exactly 0, 1, 2, ... */
  lemma {:induction false} NoncesInOrder(v: Verifier, es: seq<Event>)
    ensures |Consumed(v, EMPTY, es)| == CurrentNonce(Run(v, EMPTY, es))
    ensures forall i :: 0 <= i < |Consumed(v, EMPTY, es)| ==> Consumed(v, EMPTY, es)[i] == i
  {
    if es != [] {
      NoncesInOrder(v, es[..|es| - 1]);
      RunInv(v, EMPTY, es[..|es| - 1]);
      NonceStep(v, Run(v, EMPTY, es[..|es| - 1]), es[|es| - 1]);
    }
  }

  /** The payloads of the successful calls made with a key, over every registration of it. */
  ghost function Honoured(v: Verifier, s: State, es: seq<Event>, pk: Bytes32): seq<seq<byte>> {
    if es == [] then []
    else
      var front, last := es[..|es| - 1], es[|es| - 1];
      Honoured(v, s, front, pk)
      + if SpendsBy(v, Run(v, s, front), last, pk) then [last.op.call.signaturePayload.value] else []
  }

  ghost predicate PayloadBelow(p: seq<byte>, n: int) {
    exists to: Address, fn: SymbolName, args: Args, m: u64 :: m < n && p == SigningPayload(to, fn, args, m)
  }

  lemma PayloadBelowMono(p: seq<byte>, m: int, n: int)
    requires PayloadBelow(p, m) && m <= n
    ensures PayloadBelow(p, n)
  {
    var to: Address, fn: SymbolName, args: Args, k: u64 :| k < m && p == SigningPayload(to, fn, args, k);
    assert k < n && p == SigningPayload(to, fn, args, k);
  }

  lemma PayloadNotBelow(to: Address, fn: SymbolName, args: Args, n: u64)
    ensures !PayloadBelow(SigningPayload(to, fn, args, n), n)
  {
    if PayloadBelow(SigningPayload(to, fn, args, n), n) {
      var to': Address, fn': SymbolName, args': Args, m: u64
        :| m < n && SigningPayload(to, fn, args, n) == SigningPayload(to', fn', args', m);
      SigningPayloadInjective(to, fn, args, n, to', fn', args', m);
    }
  }

  /** A signed payload is honoured at most once in a run, even if the key is revoked
      and registered again in between. */
  lemma {:induction false} PayloadHonouredOnce(v: Verifier, s: State, es: seq<Event>, pk: Bytes32)
    requires Inv(s)
    ensures Distinct(Honoured(v, s, es, pk))
    ensures forall p | p in Honoured(v, s, es, pk) :: PayloadBelow(p, CurrentNonce(Run(v, s, es)))
  {
    if es != [] {
      var front, last := es[..|es| - 1], es[|es| - 1];
      PayloadHonouredOnce(v, s, front, pk);
      RunInv(v, s, front);
      var mid := Run(v, s, front);
      NonceStep(v, mid, last);
      forall p | p in Honoured(v, s, front, pk)
        ensures PayloadBelow(p, CurrentNonce(Run(v, s, es)))
      {
        PayloadBelowMono(p, CurrentNonce(mid), CurrentNonce(Run(v, s, es)));
      }
      if SpendsBy(v, mid, last, pk) {
        var c := last.op.call;
        var p := c.signaturePayload.value;
        assert p == SigningPayload(c.to, c.fn, c.args, c.expectedNonce);
        assert c.expectedNonce < CurrentNonce(Run(v, s, es));
        PayloadNotBelow(c.to, c.fn, c.args, c.expectedNonce);
        assert p !in Honoured(v, s, front, pk);
      }
    }
  }

  lemma {:induction false} HonouredAreSigned(v: Verifier, s: State, es: seq<Event>, pk: Bytes32, signed: set<seq<byte>>)
    requires forall m: seq<byte>, sig: Bytes64 :: v(pk, m, sig) ==> m in signed
    ensures Elements(Honoured(v, s, es, pk)) <= signed
  {
    if es != [] {
      HonouredAreSigned(v, s, es[..|es| - 1], pk, signed);
    }
  }

  /** A key that only ever signed the messages in `signed` gets at most |signed|
      calls through, however often each signature is presented. */
  lemma CallsAtMostSignatures(v: Verifier, s: State, es: seq<Event>, pk: Bytes32, signed: set<seq<byte>>)
    requires Inv(s)
    requires forall m: seq<byte>, sig: Bytes64 :: v(pk, m, sig) ==> m in signed
    ensures |Honoured(v, s, es, pk)| <= |signed|
  {
    PayloadHonouredOnce(v, s, es, pk);
    DistinctCardinality(Honoured(v, s, es, pk));
    HonouredAreSigned(v, s, es, pk, signed);
    SubsetCardinality(Elements(Honoured(v, s, es, pk)), signed);
  }

  datatype SignedCall = SignedCall(to: Address, fn: SymbolName, args: Args, nonce: u64)

  ghost predicate PayloadOf(m: seq<byte>, c: SignedCall) {
    m == SigningPayload(c.to, c.fn, c.args, c.nonce)
  }

  /** The signature fixes the call: if the key's holder signed only these calls, a call
      that executes for the key is one of them, down to its arguments and nonce. */
  lemma OnlySignedCalls(v: Verifier, s: State, e: Event, pk: Bytes32, signed: set<SignedCall>)
    requires forall m: seq<byte>, sig: Bytes64 :: v(pk, m, sig) ==> exists c :: c in signed && PayloadOf(m, c)
    requires SpendsBy(v, s, e, pk)
    ensures var c := e.op.call; SignedCall(c.to, c.fn, c.args, c.expectedNonce) in signed
  {
    var c := e.op.call;
    var m := SigningPayload(c.to, c.fn, c.args, c.expectedNonce);
    assert v(pk, m, c.signature.value);
    var known :| known in signed && PayloadOf(m, known);
    SigningPayloadInjective(c.to, c.fn, c.args, c.expectedNonce, known.to, known.fn, known.args, known.nonce);
  }

  /** What the session checks read of an account is the stored key alone. */
  lemma SessionVerdictElsewhere(v: Verifier, s: State, s': State, host: Host, host': Host, c: ExecuteCall)
    requires c.caller.BySessionKey? && host'.now == host.now
    requires c.caller.publicKey in s.sessionKeys && c.caller.publicKey in s'.sessionKeys
    requires s'.sessionKeys[c.caller.publicKey] == s.sessionKeys[c.caller.publicKey]
    ensures SessionVerdict(v, s', host', c) == SessionVerdict(v, s, host, c)
  {
  }

  /** The payload names neither the account nor the network: a call that one account
      honours is honoured, with the same signature, by another where the same key is
      stored, exactly when that account is at the same nonce, its own modules approve,
      and the target answers. */
  lemma HonouredElsewhereIff(v: Verifier, s: State, s': State, host: Host, host': Host, c: ExecuteCall,
      out: Outside, out': Outside)
    requires c.caller.BySessionKey? && host'.now == host.now && Check(v, s, host, Op.Execute(c, out)).Pass?
    requires c.caller.publicKey in s'.sessionKeys
    requires s'.sessionKeys[c.caller.publicKey] == s.sessionKeys[c.caller.publicKey]
    ensures Check(v, s', host', Op.Execute(c, out')).Pass? <==>
            CurrentNonce(s') == CurrentNonce(s) && Elements(s'.modules) <= out'.approving && out'.reply.Some?
  {
    SessionVerdictElsewhere(v, s, s', host, host', c);
  }

  // ------------------------------------------------------------------- quorum

  /** The verdict depends on which addresses sign, not on order or repetition. */
  lemma QuorumIgnoresOrder(auths: set<Address>, owners: seq<Address>, threshold: u32, a: seq<Address>, b: seq<Address>)
    requires Elements(a) == Elements(b)
    ensures QuorumMet(auths, owners, threshold, a) == QuorumMet(auths, owners, threshold, b)
  {
    assert forall x :: x in a <==> x in Elements(a);
    assert forall x :: x in b <==> x in Elements(b);
  }

  ghost function Willing(auths: set<Address>, owners: seq<Address>): set<Address> {
    Elements(owners) * auths
  }

  lemma {:induction false} Enumerate(a: set<Address>) returns (s: seq<Address>)
    ensures Elements(s) == a
  {
    if a == {} {
      s := [];
    } else {
      var x :| x in a;
      var rest := Enumerate(a - {x});
      s := rest + [x];
      assert Elements(s) == (a - {x}) + {x};
    }
  }

  /** Some signer list passes exactly when enough owners authorise the call. */
  lemma QuorumAttainable(auths: set<Address>, owners: seq<Address>, threshold: u32)
    ensures (exists signers :: QuorumMet(auths, owners, threshold, signers))
        <==> |Willing(auths, owners)| >= threshold
  {
    if signers :| QuorumMet(auths, owners, threshold, signers) {
      SubsetCardinality(Elements(signers), Willing(auths, owners));
    }
    if |Willing(auths, owners)| >= threshold {
      var signers := Enumerate(Willing(auths, owners));
      assert forall x :: x in signers ==> x in Elements(signers);
      assert QuorumMet(auths, owners, threshold, signers);
    }
  }

  /** In every reachable multi-owner storage the owners acting together pass. */
  lemma QuorumSatisfiable(v: Verifier, es: seq<Event>, host: Host)
    requires Run(v, EMPTY, es).owners.Some?
    requires Elements(Run(v, EMPTY, es).owners.value) <= host.auths
    ensures var s := Run(v, EMPTY, es); QuorumVerdict(s, host, s.owners.value).Pass?
  {
    RunInv(v, EMPTY, es);
    var owners := Run(v, EMPTY, es).owners.value;
    DistinctCardinality(owners);
    assert forall x :: x in owners ==> x in Elements(owners);
  }

  /** Once set, the account's owner and its multi-owner mode are permanent, and
      its version never goes back. */
  lemma {:induction false} ConfigurationHistory(v: Verifier, s: State, es: seq<Event>)
    requires Inv(s)
    ensures var s' := Run(v, s, es);
            && (s.owner.Some? ==> s'.owner == s.owner)
            && (s.owners.Some? ==> s'.owners.Some?)
            && CurrentVersion(s) <= CurrentVersion(s')
  {
    if es != [] {
      ConfigurationHistory(v, s, es[..|es| - 1]);
      RunInv(v, s, es[..|es| - 1]);
      StepHistory(v, Run(v, s, es[..|es| - 1]), es[|es| - 1]);
    }
  }
}
