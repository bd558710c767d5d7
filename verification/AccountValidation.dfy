/** The account contract's environment-free checks (contracts/account/src/validation.rs). */
module AccountValidation {
  import opened Prelude

  datatype ContractError =
    | AlreadyInitialized
    | NotInitialized
    | Unauthorized
    | InvalidNonce
    | SessionKeyNotFound
    | SessionKeyExpired
    | InsufficientPermission
    | InvalidVersion
    | InvalidSignature
    | InvalidWasmHash
    | InvalidExpiration
    | InvalidCallerIdentity
    | SignaturePayloadMismatch
    | SessionKeyAlreadyExists
    | SessionKeyExpirationInPast
    | ArithmeticOverflow
    | ExceededSpendLimit
    | InvalidSpendPolicy
    | InvalidThreshold
    | Trap  // the host aborts: a missing authorisation, or a call that panics

  type Verdict = Outcome<ContractError>

  const PERMISSION_EXECUTE: u32 := 1
  const PERMISSION_INVOKE_CONTRACT: u32 := 2
  const PERMISSION_BUFFER: nat := 8
  const MAX_ALLOWED_CONTRACTS: nat := 50
  const MIN_MILLISECONDS_TIMESTAMP: u64 := 100_000_000_000

  // ------------------------------------------------------------- permissions

  ghost predicate PermissionsValid(permissions: seq<u32>) {
    && (forall p | p in permissions :: p <= PERMISSION_INVOKE_CONTRACT)
    && Distinct(permissions)
  }

  method ValidatePermissions(permissions: seq<u32>) returns (r: Verdict)
    ensures r.Pass? <==> PermissionsValid(permissions)
    ensures r.Fail? ==> r.error == InsufficientPermission
  {
    var seen := new bool[3](_ => false);
    for i := 0 to |permissions|
      invariant PermissionsValid(permissions[..i])
      invariant forall k :: 0 <= k < 3 ==> (seen[k] <==> k in permissions[..i])
    {
      var p := permissions[i];
      assert permissions[..i + 1] == permissions[..i] + [p];
      if p > PERMISSION_INVOKE_CONTRACT {
        assert permissions[i] in permissions;
        return Fail(InsufficientPermission);
      }
      if seen[p] {
        return Fail(InsufficientPermission);
      }
      seen[p] := true;
    }
    assert permissions[..|permissions|] == permissions;
    return Pass;
  }

  /** Only three bits exist, so a longer list repeats one. */
  lemma PermissionPigeonhole(permissions: seq<u32>)
    requires |permissions| > 3
    ensures !PermissionsValid(permissions)
  {
    if PermissionsValid(permissions) {
      DistinctCardinality(permissions);
      assert Elements(permissions) <= {0, 1, 2};
      SubsetCardinality(Elements(permissions), {0, 1, 2});
    }
  }

  // ------------------------------------------------------------ spend policy

  ghost predicate SpendPolicyValid(maxPerCall: Option<i128>, cumulative: Option<i128>, window: u64) {
    && (maxPerCall.Some? ==> maxPerCall.value > 0)
    && (cumulative.Some? ==> cumulative.value > 0)
    && (cumulative.Some? <==> window > 0)
  }

  function ValidateSpendPolicy(maxPerCall: Option<i128>, cumulative: Option<i128>, window: u64): (r: Verdict)
    ensures r.Pass? <==> SpendPolicyValid(maxPerCall, cumulative, window)
    ensures r.Fail? ==> r.error == InvalidSpendPolicy
  {
    if maxPerCall.Some? && maxPerCall.value <= 0 then Fail(InvalidSpendPolicy)
    else if cumulative.Some? && (cumulative.value <= 0 || window == 0) then Fail(InvalidSpendPolicy)
    else if window > 0 && cumulative.None? then Fail(InvalidSpendPolicy)
    else Pass
  }

  // ------------------------------------------------------------ spend limits

  datatype SpendCheckInput = SpendCheckInput(
    amount: Option<i128>,
    maxAmountPerCall: Option<i128>,
    cumulativeLimit: Option<i128>,
    spendWindowStart: u64,
    spendWindowSeconds: u64,
    spentInWindow: i128,
    now: u64)

  function SaturatingAdd(a: u64, b: u64): u64 {
    if a + b < U64_LIMIT then a + b else U64_LIMIT - 1
  }

  /** What already counts against the limit at `now`: nothing once the window is over. */
  ghost function Carried(start: u64, window: u64, spent: i128, now: u64): i128 {
    if now > start + window then 0 else spent
  }

  ghost predicate SpendAllowed(i: SpendCheckInput) {
    i.amount.Some? && i.amount.value > 0 ==>
      && (i.maxAmountPerCall.Some? ==> i.amount.value <= i.maxAmountPerCall.value)
      && (i.cumulativeLimit.Some? ==>
            Carried(i.spendWindowStart, i.spendWindowSeconds, i.spentInWindow, i.now) + i.amount.value
            <= i.cumulativeLimit.value)
  }

  ghost function SpendRefusal(i: SpendCheckInput): ContractError
    requires i.amount.Some?
  {
    if i.maxAmountPerCall.Some? && i.amount.value > i.maxAmountPerCall.value then ExceededSpendLimit
    else if Carried(i.spendWindowStart, i.spendWindowSeconds, i.spentInWindow, i.now) + i.amount.value > I128_MAX
    then ArithmeticOverflow
    else ExceededSpendLimit
  }

  method CheckSpendLimits(i: SpendCheckInput) returns (r: Verdict)
    ensures r.Pass? <==> SpendAllowed(i)
    ensures r.Fail? ==> i.amount.Some? && r.error == SpendRefusal(i)
  {
    if i.amount.None? || i.amount.value <= 0 {
      return Pass;
    }
    var amount := i.amount.value;
    if i.maxAmountPerCall.Some? && amount > i.maxAmountPerCall.value {
      return Fail(ExceededSpendLimit);
    }
    if i.cumulativeLimit.Some? {
      var spent := i.spentInWindow;
      if i.now > SaturatingAdd(i.spendWindowStart, i.spendWindowSeconds) {
        spent := 0;
      }
      if spent + amount > I128_MAX {
        return Fail(ArithmeticOverflow);
      }
      if spent + amount > i.cumulativeLimit.value {
        return Fail(ExceededSpendLimit);
      }
    }
    return Pass;
  }

  // ------------------------------------------------------ expiry, allowlists

  function NormalizeExpiry(expiresAt: u64): (r: Result<u64, ContractError>)
    ensures r.Err? <==> expiresAt == 0
    ensures r.Ok? ==> 0 < r.value <= expiresAt
  {
    if expiresAt == 0 then Err(InvalidExpiration)
    else if expiresAt >= MIN_MILLISECONDS_TIMESTAMP then Ok(expiresAt / 1000)
    else Ok(expiresAt)
  }

  function ValidateExpiry(expiresAtSecs: u64, now: u64): (r: Verdict)
    ensures r.Pass? <==> now < expiresAtSecs
  {
    if expiresAtSecs == 0 then Fail(InvalidExpiration)
    else if expiresAtSecs <= now then Fail(SessionKeyExpirationInPast)
    else Pass
  }

  /** Normalising twice is normalising once exactly below 10^14; from there on a
      refresh divides a stored expiry again. */
  lemma NormalizeTwice(expiresAt: u64)
    requires expiresAt > 0
    ensures NormalizeExpiry(NormalizeExpiry(expiresAt).value) == NormalizeExpiry(expiresAt)
        <==> expiresAt < 1000 * MIN_MILLISECONDS_TIMESTAMP
  {
    var once := NormalizeExpiry(expiresAt).value;
    if expiresAt >= 1000 * MIN_MILLISECONDS_TIMESTAMP {
      assert once >= MIN_MILLISECONDS_TIMESTAMP && once / 1000 < once;
    }
  }

  predicate IsZeroAddress(a: Address) {
    match a
    case Account(key) => forall i | 0 <= i < 32 :: key[i] == 0
    case Contract(id) => forall i | 0 <= i < 32 :: id[i] == 0
  }

  ghost predicate AllowlistValid(allowed: Option<seq<Address>>) {
    allowed.Some? ==>
      |allowed.value| <= MAX_ALLOWED_CONTRACTS && forall a | a in allowed.value :: !IsZeroAddress(a)
  }

  method RejectZeroAllowedContracts(allowed: Option<seq<Address>>) returns (r: Verdict)
    ensures r.Pass? <==> AllowlistValid(allowed)
    ensures r.Fail? ==> r.error == InsufficientPermission
  {
    if allowed.None? {
      return Pass;
    }
    var list := allowed.value;
    if |list| > MAX_ALLOWED_CONTRACTS {
      return Fail(InsufficientPermission);
    }
    for i := 0 to |list|
      invariant forall k :: 0 <= k < i ==> !IsZeroAddress(list[k])
    {
      if IsZeroAddress(list[i]) {
        return Fail(InsufficientPermission);
      }
    }
    return Pass;
  }

  predicate AllowlistPermits(allowed: Option<seq<Address>>, target: Address) {
    allowed.Some? ==> target in allowed.value
  }
}
