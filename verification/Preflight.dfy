/** The client's check of a session-key policy before registration
    (packages/account-abstraction/src/validation.ts), and its agreement with the account
    contract's `add_session_key`. */
module Preflight {
  import opened Prelude
  import opened DecimalText
  import opened AccountValidation
  import opened Account

  // -------------------------------------------------------------------- policies

  /** A JavaScript number: a real, or one of NaN and the infinities. */
  datatype Number = Finite(x: real) | NotFinite {
    predicate IsInteger() {
      Finite? && x == x.Floor as real
    }

    function Value(): int
      requires IsInteger()
    {
      x.Floor
    }
  }

  function Whole(n: int): (x: Number)
    ensures x.IsInteger() && x.Value() == n
  {
    Finite(n as real)
  }

  datatype PolicyAmount = BigInt(n: int) | Num(x: Number) | Text(s: string)

  datatype Permissions = Bits(bits: seq<Number>) | Mask(mask: Number)

  datatype Allowlist = Absent | NotAList | Listed(ids: seq<string>)

  datatype Policy = Policy(
    expiresAt: Number,
    permissions: Permissions,
    maxAmountPerCall: Option<PolicyAmount>,
    cumulativeLimit: Option<PolicyAmount>,
    spendWindowSeconds: Option<Number>,
    allowedContracts: Allowlist)

  datatype Code =
    | InvalidExpiresAt | Expired | InvalidPermission | DuplicatePermission
    | InvalidAmount | InvalidSpendWindow | InvalidAllowedContracts

  datatype Field =
    | ExpiresAt | PermissionBits | MaxAmountPerCall | CumulativeLimit | SpendWindowSeconds | AllowedContracts

  datatype Issue = Issue(code: Code, field: Field)

  // --------------------------------------------------------------------- amounts

  /** The pattern `^-?\d+$`. */
  predicate MatchesInteger(s: string) {
    Unsigned(s) != "" && AllDigits(Unsigned(s))
  }

  function ToBigInt(v: PolicyAmount): Option<int> {
    match v
    case BigInt(n) => Some(n)
    case Num(x) => if x.IsInteger() then Some(x.Value()) else None
    case Text(s) => if MatchesInteger(Trim(s)) then BigIntOf(Trim(s)) else None
  }

  /** What the registration passes on, by `BigInt(value)`: it also reads "", "+5" and "0x10". */
  function Registered(v: PolicyAmount): Option<int> {
    match v
    case BigInt(n) => Some(n)
    case Num(x) => if x.IsInteger() then Some(x.Value()) else None
    case Text(s) => BigIntOf(s)
  }

  predicate PlainAmount(v: Option<PolicyAmount>) {
    v.Some? && v.value.Text? ==> MatchesInteger(Trim(v.value.s))
  }

  /** The client reads exactly the plainly written amounts, and as the number registered. */
  lemma ReadsPlainAmounts(v: PolicyAmount)
    ensures ToBigInt(v) == if PlainAmount(Some(v)) then Registered(v) else None
    ensures v.Text? && PlainAmount(Some(v)) ==> ToBigInt(v).Some?
  {
    if v.Text? && PlainAmount(Some(v)) {
      var t := Trim(v.s);
      assert Trim(t) == t;
      BigIntOfDigits(IsNegative(t), Unsigned(t));
      assert t == (if IsNegative(t) then "-" else "") + Unsigned(t);
    }
  }

  // ---------------------------------------------------------------- the simple form

  /** A value above 10^11 is taken for milliseconds. */
  function ExpirySeconds(expiresAt: Number): Number {
    if expiresAt.Finite? && expiresAt.x > 100_000_000_000.0 then Whole((expiresAt.x / 1000.0).Floor) else expiresAt
  }

  function ExpiryIssues(expiresAt: Number, nowMs: nat): seq<Issue> {
    var seconds := ExpirySeconds(expiresAt);
    if !seconds.IsInteger() || seconds.Value() <= 0 then [Issue(InvalidExpiresAt, ExpiresAt)]
    else if seconds.Value() * 1000 <= nowMs then [Issue(Expired, ExpiresAt)]
    else []
  }

  predicate Known(bit: Number) {
    bit.IsInteger() && 0 <= bit.Value() <= 2
  }

  const UNKNOWN: Issue := Issue(InvalidPermission, PermissionBits)
  const REPEATED: Issue := Issue(DuplicatePermission, PermissionBits)

  /** One issue for the first unknown bit and one for the first repeated known bit. */
  ghost function BitIssues(bits: seq<Number>): seq<Issue> {
    if bits == [] then []
    else
      var front, bit := bits[..|bits| - 1], bits[|bits| - 1];
      var before := BitIssues(front);
      if !Known(bit) then (if UNKNOWN in before then before else before + [UNKNOWN])
      else if bit in front && REPEATED !in before then before + [REPEATED]
      else before
  }

  function MaskIssues(mask: Number): seq<Issue> {
    if !mask.IsInteger() || mask.Value() < 0 then [UNKNOWN] else []
  }

  ghost function PermissionIssues(p: Permissions): seq<Issue> {
    if p.Bits? then BitIssues(p.bits) else MaskIssues(p.mask)
  }

  function AmountIssues(v: Option<PolicyAmount>, field: Field): seq<Issue> {
    if v.None? then []
    else if ToBigInt(v.value).None? || ToBigInt(v.value).value <= 0 then [Issue(InvalidAmount, field)]
    else []
  }

  const BAD_WINDOW: Issue := Issue(InvalidSpendWindow, SpendWindowSeconds)

  function WindowIssues(window: Option<Number>, hasLimit: bool): seq<Issue> {
    match window
    case None => if hasLimit then [BAD_WINDOW] else []
    case Some(n) =>
      if !n.IsInteger() then [BAD_WINDOW] else
      var w := n.Value();
      if w < 0 || (w > 0 && !hasLimit) || (w == 0 && hasLimit) then [BAD_WINDOW] else []
  }

  /** The pattern `^C[A-Z0-9]{55}$`. */
  predicate LooksLikeContract(id: string) {
    |id| == 56 && id[0] == 'C' && forall i :: 1 <= i < 56 ==> 'A' <= id[i] <= 'Z' || '0' <= id[i] <= '9'
  }

  const BAD_CONTRACT: Issue := Issue(InvalidAllowedContracts, AllowedContracts)

  ghost function ListIssues(ids: seq<string>): seq<Issue> {
    if ids == [] then []
    else ListIssues(ids[..|ids| - 1]) + if LooksLikeContract(ids[|ids| - 1]) then [] else [BAD_CONTRACT]
  }

  ghost function AllowlistIssues(a: Allowlist): seq<Issue> {
    match a
    case Absent => []
    case NotAList => [BAD_CONTRACT]
    case Listed(ids) => ListIssues(ids)
  }

  ghost function Issues(p: Policy, nowMs: nat): seq<Issue> {
    ExpiryIssues(p.expiresAt, nowMs)
    + PermissionIssues(p.permissions)
    + AmountIssues(p.maxAmountPerCall, MaxAmountPerCall)
    + AmountIssues(p.cumulativeLimit, CumulativeLimit)
    + WindowIssues(p.spendWindowSeconds, p.cumulativeLimit.Some?)
    + AllowlistIssues(p.allowedContracts)
  }

  // -------------------------------------------------------------------- the check

  method ScanBits(bits: seq<Number>) returns (errors: seq<Issue>)
    ensures errors == BitIssues(bits)
  {
    errors := [];
    var seen: set<Number> := {};
    var unknownReported, duplicateReported := false, false;
    for i := 0 to |bits|
      invariant errors == BitIssues(bits[..i])
      invariant unknownReported == (UNKNOWN in errors) && duplicateReported == (REPEATED in errors)
      invariant forall b :: b in seen <==> b in bits[..i] && Known(b)
    {
      var bit := bits[i];
      assert bits[..i + 1][..i] == bits[..i];
      if !Known(bit) {
        if !unknownReported {
          errors := errors + [UNKNOWN];
          unknownReported := true;
        }
        continue;
      }
      if bit in seen && !duplicateReported {
        errors := errors + [REPEATED];
        duplicateReported := true;
      }
      seen := seen + {bit};
    }
    assert bits[..|bits|] == bits;
  }

  method ScanContracts(ids: seq<string>) returns (errors: seq<Issue>)
    ensures errors == ListIssues(ids)
  {
    errors := [];
    for i := 0 to |ids|
      invariant errors == ListIssues(ids[..i])
    {
      assert ids[..i + 1][..i] == ids[..i];
      if !LooksLikeContract(ids[i]) {
        errors := errors + [BAD_CONTRACT];
      }
    }
    assert ids[..|ids|] == ids;
  }

  /** `policy` is None when the argument is not an object. */
  method ValidateSessionKeyPolicy(policy: Option<Policy>, nowMs: nat) returns (valid: bool, errors: seq<Issue>)
    ensures valid <==> errors == []
    ensures errors == if policy.None? then [Issue(InvalidExpiresAt, ExpiresAt)] else Issues(policy.value, nowMs)
  {
    if policy.None? {
      return false, [Issue(InvalidExpiresAt, ExpiresAt)];
    }
    var p := policy.value;
    errors := CheckExpiry(p.expiresAt, nowMs);
    var found := CheckPermissions(p.permissions);
    errors := errors + found;
    errors := errors + AmountIssues(p.maxAmountPerCall, MaxAmountPerCall);
    errors := errors + AmountIssues(p.cumulativeLimit, CumulativeLimit);
    found := CheckWindow(p.spendWindowSeconds, p.cumulativeLimit.Some?);
    errors := errors + found;
    if p.allowedContracts.NotAList? {
      errors := errors + [BAD_CONTRACT];
    } else if p.allowedContracts.Listed? {
      found := ScanContracts(p.allowedContracts.ids);
      errors := errors + found;
    }
    return errors == [], errors;
  }

  method CheckExpiry(expiresAt: Number, nowMs: nat) returns (errors: seq<Issue>)
    ensures errors == ExpiryIssues(expiresAt, nowMs)
  {
    var expiresAtSec := expiresAt;
    if expiresAtSec.Finite? && expiresAtSec.x > 100_000_000_000.0 {
      expiresAtSec := Whole((expiresAtSec.x / 1000.0).Floor);
    }
    if !expiresAtSec.IsInteger() || expiresAtSec.Value() <= 0 {
      return [Issue(InvalidExpiresAt, ExpiresAt)];
    } else if expiresAtSec.Value() * 1000 <= nowMs {
      return [Issue(Expired, ExpiresAt)];
    }
    return [];
  }

  method CheckPermissions(permissions: Permissions) returns (errors: seq<Issue>)
    ensures errors == PermissionIssues(permissions)
  {
    if permissions.Bits? {
      errors := ScanBits(permissions.bits);
    } else if !permissions.mask.IsInteger() || permissions.mask.Value() < 0 {
      errors := [UNKNOWN];
    } else {
      errors := [];
    }
  }

  method CheckWindow(spendWindowSeconds: Option<Number>, hasLimit: bool) returns (errors: seq<Issue>)
    ensures errors == WindowIssues(spendWindowSeconds, hasLimit)
  {
    if spendWindowSeconds.Some? {
      var window := spendWindowSeconds.value;
      if !window.IsInteger() || window.Value() < 0 {
        return [BAD_WINDOW];
      } else if window.Value() > 0 && !hasLimit {
        return [BAD_WINDOW];
      } else if window.Value() == 0 && hasLimit {
        return [BAD_WINDOW];
      }
    } else if hasLimit {
      return [BAD_WINDOW];
    }
    return [];
  }

  // ------------------------------------------------------------------- properties

  /** Each permission fault is reported once, and exactly when it is there. */
  lemma {:induction false} PermissionReport(bits: seq<Number>)
    ensures UNKNOWN in BitIssues(bits) <==> exists b :: b in bits && !Known(b)
    ensures REPEATED in BitIssues(bits) <==> exists i, j :: 0 <= i < j < |bits| && bits[i] == bits[j] && Known(bits[i])
    ensures Distinct(BitIssues(bits)) && forall e :: e in BitIssues(bits) ==> e == UNKNOWN || e == REPEATED
  {
    if bits != [] {
      var n := |bits| - 1;
      var front := bits[..n];
      PermissionReport(front);
      assert bits == front + [bits[n]];
      if i, j :| 0 <= i < j < n && front[i] == front[j] && Known(front[i]) {
        assert bits[i] == bits[j];
      }
      if i :| 0 <= i < n && front[i] == bits[n] {
        assert bits[i] == bits[n];
      }
    }
  }

  // ------------------------------------------------------ agreement with the contract

  /** The i128 argument for an amount; None when there is none to send. */
  function AmountArgument(v: Option<PolicyAmount>): Option<Option<i128>> {
    if v.None? then Some(None)
    else
      var n := Registered(v.value);
      if n.Some? && -I128_MAX - 1 <= n.value <= I128_MAX then Some(Some(n.value)) else None
  }

  function WindowArgument(window: Option<Number>): Option<u64> {
    match window
    case None => Some(0)
    case Some(n) => if n.IsInteger() && 0 <= n.Value() < U64_LIMIT then Some(n.Value()) else None
  }

  predicate BitFits(bit: Number) {
    bit.IsInteger() && 0 <= bit.Value() < U32_LIMIT
  }

  function BitsArgument(bits: seq<Number>): Option<seq<u32>> {
    if forall i | 0 <= i < |bits| :: BitFits(bits[i])
    then Some(seq(|bits|, i requires 0 <= i < |bits| && BitFits(bits[i]) => bits[i].Value()))
    else None
  }

  /** The `add_session_key` call that registers the policy, without an allowlist; None
      when a field does not fit its argument. */
  function RequestFor(p: Policy, publicKey: Bytes32): Option<KeyRequest>
    requires p.permissions.Bits?
  {
    var permissions := BitsArgument(p.permissions.bits);
    var perCall, limit := AmountArgument(p.maxAmountPerCall), AmountArgument(p.cumulativeLimit);
    var window := WindowArgument(p.spendWindowSeconds);
    if && p.expiresAt.IsInteger() && 0 <= p.expiresAt.Value() < U64_LIMIT
       && permissions.Some? && perCall.Some? && limit.Some? && window.Some?
    then
      Some(KeyRequest(publicKey, p.expiresAt.Value(), permissions.value, None,
                      perCall.value, limit.value, window.value))
    else None
  }

  predicate AmountFits(v: Option<PolicyAmount>) {
    v.Some? && ToBigInt(v.value).Some? ==> ToBigInt(v.value).value <= I128_MAX
  }

  predicate WindowFits(window: Option<Number>) {
    window.Some? && window.value.IsInteger() ==> window.value.Value() < U64_LIMIT
  }

  /** What the client does not check: the upper ends, and that the expiry is whole. */
  predicate Fits(p: Policy) {
    && p.expiresAt.IsInteger() && p.expiresAt.Value() < U64_LIMIT && WindowFits(p.spendWindowSeconds)
    && AmountFits(p.maxAmountPerCall) && AmountFits(p.cumulativeLimit)
  }

  /** The one expiry the two sides read differently, 10^11: seconds to the client,
      milliseconds to the contract, for which it is past from 10^8 seconds on. */
  predicate AtSeam(expiresAt: Number, now: nat) {
    expiresAt == Whole(100_000_000_000) && now >= 100_000_000
  }

  lemma SecondsOf(expiresAt: Number)
    requires expiresAt.IsInteger()
    ensures ExpirySeconds(expiresAt).IsInteger()
    ensures ExpirySeconds(expiresAt).Value()
         == if expiresAt.Value() > 100_000_000_000 then expiresAt.Value() / 1000 else expiresAt.Value()
  {
    FloorDiv(expiresAt.Value());
  }

  lemma FloorDiv(n: int)
    ensures (n as real / 1000.0).Floor == n / 1000
  {
    assert n == 1000 * (n / 1000) + n % 1000;
    assert n as real == 1000.0 * ((n / 1000) as real) + (n % 1000) as real;
  }

  lemma ExpiryAgrees(expiresAt: Number, nowMs: nat)
    requires expiresAt.IsInteger() && expiresAt.Value() < U64_LIMIT
    ensures ExpiryIssues(expiresAt, nowMs) == [] && !AtSeam(expiresAt, nowMs / 1000)
        <==> 0 < expiresAt.Value() && nowMs / 1000 < NormalizeExpiry(expiresAt.Value()).value
  {
    SecondsOf(expiresAt);
    var seconds := ExpirySeconds(expiresAt).Value();
    assert seconds * 1000 <= nowMs <==> seconds <= nowMs / 1000;
  }

  lemma BitsClean(bits: seq<Number>)
    ensures BitIssues(bits) == [] <==> (forall b :: b in bits ==> Known(b)) && Distinct(bits)
  {
    PermissionReport(bits);
    var issues := BitIssues(bits);
    if issues != [] {
      assert issues[0] in issues;
    } else {
      forall i, j | 0 <= i < j < |bits| ensures bits[i] != bits[j] {
        assert bits[i] in bits;
      }
    }
  }

  /** A list is clean exactly when its arguments are. */
  lemma BitsSent(bits: seq<Number>)
    requires BitsArgument(bits).Some?
    ensures (forall b :: b in bits ==> Known(b)) && Distinct(bits) <==> PermissionsValid(BitsArgument(bits).value)
  {
    var sent := BitsArgument(bits).value;
    forall i, j | 0 <= i < j < |bits| ensures bits[i] == bits[j] <==> sent[i] == sent[j] {
      assert BitFits(bits[i]) && BitFits(bits[j]);
    }
    if PermissionsValid(sent) {
      forall b | b in bits ensures Known(b) {
        var i :| 0 <= i < |bits| && bits[i] == b;
        assert sent[i] in sent && BitFits(b);
      }
    }
    if forall b :: b in bits ==> Known(b) {
      forall n | n in sent ensures n <= PERMISSION_INVOKE_CONTRACT {
        var i :| 0 <= i < |sent| && sent[i] == n;
        assert bits[i] in bits;
      }
    }
  }

  lemma BitsAgree(bits: seq<Number>)
    ensures BitIssues(bits) == [] <==>
            BitsArgument(bits).Some? && PermissionsValid(BitsArgument(bits).value)
  {
    BitsClean(bits);
    if BitsArgument(bits).Some? {
      BitsSent(bits);
    } else {
      var i :| 0 <= i < |bits| && !BitFits(bits[i]);
      assert bits[i] in bits;
    }
  }

  /** An amount passes exactly when it is plainly written and positive on chain. */
  lemma AmountAgrees(v: Option<PolicyAmount>, field: Field)
    ensures AmountIssues(v, field) == [] && AmountFits(v) <==>
            && PlainAmount(v) && AmountArgument(v).Some?
            && (AmountArgument(v).value.Some? ==> AmountArgument(v).value.value > 0)
  {
    if v.Some? {
      ReadsPlainAmounts(v.value);
    }
  }

  lemma WindowAgrees(window: Option<Number>, limit: bool)
    ensures WindowIssues(window, limit) == [] && WindowFits(window) <==>
            WindowArgument(window).Some? && (limit <==> WindowArgument(window).value > 0)
  {
  }

  lemma IssuesEmpty(p: Policy, nowMs: nat)
    requires p.allowedContracts.Absent?
    ensures Issues(p, nowMs) == [] <==>
            && ExpiryIssues(p.expiresAt, nowMs) == [] && PermissionIssues(p.permissions) == []
            && AmountIssues(p.maxAmountPerCall, MaxAmountPerCall) == []
            && AmountIssues(p.cumulativeLimit, CumulativeLimit) == []
            && WindowIssues(p.spendWindowSeconds, p.cumulativeLimit.Some?) == []
  {
  }

  /** `add_session_key` by the owner, for a new key without an allowlist. */
  lemma VerdictIs(s: State, host: Host, q: KeyRequest)
    requires OwnerVerdict(s, host).Pass? && q.publicKey !in s.sessionKeys && q.allowedContracts.None?
    ensures AddKeyVerdict(s, host, q).Pass? <==>
            && 0 < q.expiresAt && host.now < NormalizeExpiry(q.expiresAt).value
            && SpendPolicyValid(q.maxAmountPerCall, q.cumulativeLimit, q.spendWindowSeconds)
            && PermissionsValid(q.permissions)
  {
  }

  /** The client reports nothing exactly when the contract accepts the registration: for
      plainly written amounts, values that fit their arguments, the same clock, and every
      expiry but the one at the seam. */
  lemma ClientMatchesContract(p: Policy, nowMs: nat, publicKey: Bytes32, s: State, host: Host)
    requires p.permissions.Bits? && p.allowedContracts.Absent? && host.now == nowMs / 1000
    requires OwnerVerdict(s, host).Pass? && publicKey !in s.sessionKeys
    ensures Issues(p, nowMs) == [] && Fits(p) && !AtSeam(p.expiresAt, host.now)
        <==> && RequestFor(p, publicKey).Some? && AddKeyVerdict(s, host, RequestFor(p, publicKey).value).Pass?
             && PlainAmount(p.maxAmountPerCall) && PlainAmount(p.cumulativeLimit)
  {
    IssuesEmpty(p, nowMs);
    if p.expiresAt.IsInteger() && p.expiresAt.Value() < U64_LIMIT {
      ExpiryAgrees(p.expiresAt, nowMs);
    }
    BitsAgree(p.permissions.bits);
    AmountAgrees(p.maxAmountPerCall, MaxAmountPerCall);
    AmountAgrees(p.cumulativeLimit, CumulativeLimit);
    WindowAgrees(p.spendWindowSeconds, p.cumulativeLimit.Some?);
    if RequestFor(p, publicKey).Some? {
      VerdictIs(s, host, RequestFor(p, publicKey).value);
    }
  }

  /** The policies of the exceptions: only the expiry varies. */
  function PolicyUntil(expiresAt: Number): Policy {
    Policy(expiresAt, Bits([Whole(1)]), None, None, None, Absent)
  }

  lemma PolicyUntilIssues(expiresAt: Number, nowMs: nat)
    ensures Issues(PolicyUntil(expiresAt), nowMs) == ExpiryIssues(expiresAt, nowMs)
  {
    assert [Whole(1)][..0] == [];
  }

  /** At 1.7 * 10^9 seconds, an expiry of 10^11 passes the client and is past for the contract. */
  lemma SeamDisagrees(publicKey: Bytes32, s: State, host: Host)
    requires host.now == 1_700_000_000 && OwnerVerdict(s, host).Pass? && publicKey !in s.sessionKeys
    ensures var p := PolicyUntil(Whole(100_000_000_000));
            && Issues(p, 1_700_000_000_000) == []
            && RequestFor(p, publicKey).Some?
            && AddKeyVerdict(s, host, RequestFor(p, publicKey).value) == Fail(SessionKeyExpirationInPast)
  {
    PolicyUntilIssues(Whole(100_000_000_000), 1_700_000_000_000);
    SecondsOf(Whole(100_000_000_000));
  }

  /** Half a millisecond passes the client and cannot be registered. */
  lemma FractionPasses(publicKey: Bytes32)
    ensures var p := PolicyUntil(Finite(2_000_000_000_000.5));
            Issues(p, 1_700_000_000_000) == [] && RequestFor(p, publicKey).None?
  {
    PolicyUntilIssues(Finite(2_000_000_000_000.5), 1_700_000_000_000);
    assert (2_000_000_000_000.5 / 1000.0).Floor == 2_000_000_000;
  }

  /** Every allowlist entry of the wrong shape is reported, and no other. */
  lemma {:induction false} AllowlistReport(ids: seq<string>)
    ensures ListIssues(ids) == [] <==> forall id :: id in ids ==> LooksLikeContract(id)
    ensures forall issue :: issue in ListIssues(ids) ==> issue == Issue(InvalidAllowedContracts, AllowedContracts)
    ensures |ListIssues(ids)| <= |ids|
  {
    if ids != [] {
      var front, last := ids[..|ids| - 1], ids[|ids| - 1];
      AllowlistReport(front);
      assert ids == front + [last];
    }
  }

  /** The right shape: 'C' and 55 upper-case letters or digits. */
  lemma ContractShape(tail: string, c: char, i: nat)
    requires |tail| == 55 && (forall k :: 0 <= k < 55 ==> 'A' <= tail[k] <= 'Z' || '0' <= tail[k] <= '9')
    ensures LooksLikeContract("C" + tail) && !LooksLikeContract("G" + tail) && !LooksLikeContract("C" + tail + "A")
    ensures i < 55 && !('A' <= c <= 'Z' || '0' <= c <= '9') ==> !LooksLikeContract("C" + tail[i := c])
  {
    assert forall k :: 1 <= k < 56 ==> ("C" + tail)[k] == tail[k - 1];
    if i < 55 {
      assert ("C" + tail[i := c])[i + 1] == c;
    }
  }

  /** Which fault is reported how, field by field. */
  lemma Reports(p: Policy, nowMs: nat)
    ensures var seconds, r := ExpirySeconds(p.expiresAt), ExpiryIssues(p.expiresAt, nowMs);
            && (!seconds.IsInteger() || seconds.x <= 0.0 ==> r == [Issue(InvalidExpiresAt, ExpiresAt)])
            && (seconds.IsInteger() && 0.0 < seconds.x && seconds.x * 1000.0 <= nowMs as real ==>
                  r == [Issue(Expired, ExpiresAt)])
    ensures var limit := p.cumulativeLimit;
            AmountIssues(limit, CumulativeLimit) in {[], [Issue(InvalidAmount, CumulativeLimit)]}
    ensures AmountIssues(p.maxAmountPerCall, MaxAmountPerCall) in {[], [Issue(InvalidAmount, MaxAmountPerCall)]}
    ensures var r := WindowIssues(p.spendWindowSeconds, p.cumulativeLimit.Some?);
            r in {[], [Issue(InvalidSpendWindow, SpendWindowSeconds)]}
    ensures p.permissions.Mask? ==>
              PermissionIssues(p.permissions) ==
                if p.permissions.mask.IsInteger() && p.permissions.mask.x >= 0.0 then []
                else [Issue(InvalidPermission, PermissionBits)]
  {
  }
}
