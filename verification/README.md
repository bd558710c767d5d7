# Ancore: models and proofs

Ancore is a smart-account wallet on Stellar: Soroban contracts (an account with session
keys and a multi-owner quorum, invoices, an upgrade governor) and the TypeScript packages
that talk to them (codecs, amounts, retries, RPC failover, paging, a transaction builder).
This project models that behaviour in Dafny and proves what it keeps.

Each contract appears twice. A state machine (`Account`, `Invoice`, `Governor`) says for
every entry point whether it succeeds, with which error it fails, and what storage it
leaves; a class (`AccountContract`, `InvoiceContract`, `GovernorContract`) has the
contract's fields and statements and is proved to make exactly those steps. The safety
theorems then range over whole runs of the state machine (`AccountRuns`, `InvoiceRuns`,
`GovernorRuns`): any calls, by anyone, at any ledger times. The TypeScript code is modelled
as it is written: pure code as functions, loops and mutable objects as methods and classes,
each proved against a specification function about which the theorems are stated.

The assumptions about the environment, the same throughout:

- An entry point that returns an error leaves storage as it was, because the host rolls
  back. The three entry points that write before a late error (`execute`, `pay`,
  `propose_upgrade`) have a body that makes those writes and a wrapper that undoes them.
- Contracts called from outside accept or refuse arbitrarily and do not call back.
- `require_auth` is membership in the set of addresses that authorised the call; a missing
  authorisation aborts, which the models write as the error `Trap`.
- Ed25519 verification is an arbitrary predicate; SHA-256 is an arbitrary function, and
  runs of the invoice contract assume that the payloads hashed in that run do not collide.
- The ledger clock is constant within a call. Where a theorem needs it never to go back
  (invoices), that is a hypothesis on the run; the account's and the governor's theorems
  hold for any clock readings.
- `u32`, `u64` and `i128` are bounded types with the code's checked and saturating
  operations. The spend of a call is its largest positive i128 argument, as in
  `extract_spend_amount`.

What turned out not to hold, and what holds instead:

- A session key with limit L can spend 2L within one second, across the end of a window
  (`LimitTwiceInOneSecond`, a run of signed calls). Twice the limit in any W seconds is the
  bound kept (`TwiceTheLimitPerWindow`); `LimitHoldsIff` says exactly over which stretches
  the limit itself holds.
- A signed payload names neither the account nor the network, so an account that stores the
  same key honours it too, exactly when `HonouredElsewhereIff` says.
- `refresh_session_key_ttl` divides a stored expiry of 10^11 or more again, which is one
  submitted as 10^14 or more (`RefreshKeepsExpiryIff`); one submitted as 10^14 is past after
  a refresh (`RefreshEndsTheKey`).
- The governor accepts a signer list with duplicates, and one approval can then meet a
  threshold of two (`DuplicateSignerCountsTwice`). Configurations count approvers honestly
  exactly when the threshold is 1 or no signer is listed twice (`CountsApproversIff`).
- `normalizeAmount` at precision 0 turns 12 into 0.12 (`TwelveBecomesPointTwelve`); it is
  exact exactly at precision 1 or more, or for zero (`ExactExceptAtZeroPrecision`).
- A minimum or maximum with more digits than the precision is cut off before it is compared
  (`ZeroBelowMinimum`, `ZeroAboveMaximum`); `MinimumHonoured` and `MaximumHonoured` say
  exactly when that lets an amount past.
- `decodeSignature` tries hex first, so base64 text that is also hex is misread
  (`ThreeBytesMisread`); `DetectBase64` gives the exact condition, and `DetectPaddedBase64`
  shows that 64-byte signatures are safe.
- `fromBase58` refuses the empty string that `toBase58` gives for no bytes
  (`DecodeEncode`), and `fromHex` accepts a doubled "0x" prefix (`HexAccepted`).
- The client's policy check and the contract read the expiry 10^11 differently, seconds to
  the one and milliseconds to the other (`SeamDisagrees`), and the client passes an expiry
  with a fraction of a millisecond, which cannot be registered (`FractionPasses`).
  `ClientMatchesContract` gives the exact conditions.
- In the transaction builder a change made after a `simulate` makes the next transaction's
  sequence number too high (`AddedAfterSimulate`; exactly when, `NextExpectedIff`), and the
  documented timeout override is refused after a `simulate` with the default timeout
  (`OverrideAfterSimulate`; exactly when, `OverrideAcceptedIff`).
- Pagination ends early at a page whose last record has no paging token
  (`TokenlessRecordEnds`; exactly when, `CompleteIff`).

## Model

| member | source | states |
|---|---|---|
| Xdr.PrefixFree | contracts/account/src/lib.rs:1108-1121 | no value's XDR encoding is a proper prefix of another's, nested vectors and maps included (RFC 4506, sections 4.2, 4.5, 4.10, 4.13, 4.15) |
| Xdr.ConcatenationInjective | contracts/account/src/lib.rs:1108-1121 | equal concatenations of as many encoded values come from equal values |
| Xdr.SigningPayloadInjective | contracts/account/src/lib.rs:394-407 | equal signing payloads mean the same target, function, arguments and nonce |
| Xdr.Discriminant | contracts/account/src/lib.rs:1108-1121 | each value type starts with its own discriminant, in the ledger's order of types |
| Xdr.AmountBytes | contracts/account/src/lib.rs:1108-1121 | an i128 is 16 big-endian bytes, a negative one in two's complement |
| Xdr.PayloadParts | contracts/account/src/lib.rs:1108-1121 | the payload is target, function, arguments and nonce, in this order |
| Xdr.PayloadBytes | contracts/account/src/lib.rs:1108-1121 | a whole payload, byte by byte |
| AccountValidation.ValidatePermissions | contracts/account/src/validation.rs:26-41 | passes exactly when every bit is 0, 1 or 2 and none is repeated |
| AccountValidation.PermissionPigeonhole | contracts/account/src/lib.rs:516-526 | more than three permissions are never valid, so the eight-slot buffer never decides |
| AccountValidation.ValidateSpendPolicy | contracts/account/src/validation.rs:44-66 | passes exactly when given caps are positive and a window goes with a cumulative limit and only with one |
| AccountValidation.CheckSpendLimits | contracts/account/src/validation.rs:81-113 | passes exactly when the amount fits the per-call cap and the limit together with what the running window carries, and otherwise gives the code's error |
| AccountValidation.NormalizeTwice | contracts/account/src/lib.rs:1093-1103 | a second normalisation changes nothing exactly below 10^14 |
| AccountValidation.RejectZeroAllowedContracts | contracts/account/src/lib.rs:468-490 | passes exactly when an allowlist has at most 50 entries and no zero address |
| Account.SpendOfIsMaximum | contracts/account/src/lib.rs:1123-1134 | the spend bounds every i128 argument, and a positive spend is one of them |
| AccountContract.AncoreAccount.Initialize | contracts/account/src/lib.rs:268-288 | verdict and new storage are the state machine's: first owner, nonce 0, version 1, or an error and no change |
| AccountContract.AncoreAccount.ExtractSpendAmount | contracts/account/src/lib.rs:1123-1134 | the loop finds the spend of the arguments, None when there is none |
| AccountContract.AncoreAccount.CheckSessionSpend | contracts/account/src/lib.rs:1136-1150 | the check refuses exactly what the key's limits forbid at this time, with the code's error |
| AccountContract.AncoreAccount.ApplySpendUsage | contracts/account/src/lib.rs:1152-1180 | never fails where the check passed at the same time, and then charges the key |
| AccountContract.AncoreAccount.AuthorizeSession | contracts/account/src/lib.rs:363-408 | the session-key checks, in order, with their errors |
| AccountContract.AncoreAccount.ExecuteBody | contracts/account/src/lib.rs:315-465 | the statements succeed exactly when nonce, caller, modules and target allow, and then leave nonce + 1 and the charged key |
| AccountContract.AncoreAccount.Execute | contracts/account/src/lib.rs:315-465 | as run by the host: on any error storage is unchanged, otherwise the state machine's next state and the target's reply |
| AccountContract.AncoreAccount.CheckPermissions | contracts/account/src/lib.rs:516-526 | copying through the eight-slot buffer gives the verdict on the whole list |
| AccountContract.AncoreAccount.AddSessionKey | contracts/account/src/lib.rs:493-571 | verdict and new storage are the state machine's: a key with zero usage and its window starting now |
| AccountContract.AncoreAccount.RevokeSessionKey | contracts/account/src/lib.rs:574-600 | verdict and new storage are the state machine's: exactly that key goes |
| AccountContract.AncoreAccount.SetAllowedContracts | contracts/account/src/lib.rs:605-634 | verdict and new storage are the state machine's: only that key's allowlist changes, its counters stay |
| AccountContract.AncoreAccount.RefreshSessionKeyTtl | contracts/account/src/lib.rs:1012-1053 | verdict and new storage are the state machine's: an unexpired key keeps all but a re-normalised expiry |
| AccountContract.AncoreAccount.RegisterModule | contracts/account/src/lib.rs:642-668 | verdict and new storage are the state machine's: a module is listed once |
| AccountContract.AncoreAccount.UnregisterModule | contracts/account/src/lib.rs:671-700 | verdict and new storage are the state machine's: the loop leaves exactly the other modules |
| AccountContract.AncoreAccount.RequireQuorum | contracts/account/src/lib.rs:715-735 | the loop passes exactly when every signer is an authorising owner and the distinct ones reach the threshold; the first bad signer decides the error |
| AccountContract.AncoreAccount.InitializeMultiOwner | contracts/account/src/lib.rs:740-778 | verdict and new storage are the state machine's: once, with distinct owners and a threshold they can reach |
| AccountContract.AncoreAccount.AddOwner | contracts/account/src/lib.rs:796-830 | verdict and new storage are the state machine's: a new owner, by quorum |
| AccountContract.AncoreAccount.RemoveOwner | contracts/account/src/lib.rs:835-888 | verdict and new storage are the state machine's: never the last owner, threshold lowered to the owners left |
| AccountContract.AncoreAccount.SetThreshold | contracts/account/src/lib.rs:893-928 | verdict and new storage are the state machine's: between 1 and the number of owners |
| AccountContract.AncoreAccount.Upgrade | contracts/account/src/lib.rs:935-965 | verdict and new storage are the state machine's: the version goes up by one |
| AccountContract.AncoreAccount.Migrate | contracts/account/src/lib.rs:972-995 | verdict and new storage are the state machine's: only to a higher version |
| AccountRuns.RunInv | contracts/account/src/lib.rs:268-1053 | in every reachable storage each key's spent amount is in [0, limit], owners are distinct and 1 <= threshold <= their number |
| AccountRuns.SpendRate | contracts/account/src/lib.rs:1152-1180 | in any stretch of D seconds a registration with limit L and window W spends at most (1 + ceil(D / (W + 1))) * L |
| AccountRuns.TwiceTheLimitPerWindow | contracts/account/src/lib.rs:541-551 | so at most 2L in any W seconds |
| SpendWindows.LimitTwiceInOneSecond | contracts/account/src/lib.rs:315-465 | from any state with a usable key, signed calls at the last second of its window and the next second spend what is left of the limit and the whole limit again |
| SpendWindows.SpendInCalls | contracts/account/src/lib.rs:315-465 | an amount that fits the window goes through, in as many signed calls as the per-call cap asks for, each using one nonce |
| SpendWindows.LimitHoldsIff | contracts/account/src/validation.rs:93-110 | over a stretch no longer than the window, no run spends more than the limit exactly when the stretch does not straddle the end of a running window that the key outlives with something left to spend |
| AccountRuns.LifetimeSpend | contracts/account/src/lib.rs:493-571 | from registration at t0 to expiry E a registration spends at most (1 + floor((E - 1 - t0) / (W + 1))) * L, whatever else is called |
| AccountRuns.RefreshKeepsExpiryIff | contracts/account/src/lib.rs:1025-1031 | a refresh leaves a registered key as it was exactly when the expiry submitted for it was below 10^14 |
| AccountRuns.RefreshEndsTheKey | contracts/account/src/lib.rs:1025-1031 | the input that shows it: an expiry submitted as 10^14 is 10^8, and past, after one refresh |
| AccountRuns.NoncesInOrder | contracts/account/src/lib.rs:326-330 | the successful calls of any run from deployment use the nonces 0, 1, 2, ... without gap or repeat, and the stored nonce is their number |
| AccountRuns.PayloadHonouredOnce | contracts/account/src/lib.rs:394-415 | over any run, revocation and re-registration included, no payload is honoured twice for a key |
| AccountRuns.CallsAtMostSignatures | contracts/account/src/lib.rs:394-415 | a key whose holder signed n messages makes at most n successful calls |
| AccountRuns.OnlySignedCalls | contracts/account/src/lib.rs:394-407 | a call that executes for a key is one its holder signed: same target, function, arguments and nonce |
| AccountRuns.HonouredElsewhereIff | contracts/account/src/lib.rs:1108-1121 | a call honoured by one account is honoured, with the same signature, by another that stores the same key at the same time, exactly when the nonces agree, its modules approve and the target answers |
| AccountRuns.QuorumIgnoresOrder | contracts/account/src/lib.rs:715-735 | the verdict depends only on the set of signers |
| AccountRuns.QuorumAttainable | contracts/account/src/lib.rs:715-735 | some signer list passes exactly when the owners who authorise number at least the threshold |
| AccountRuns.QuorumSatisfiable | contracts/account/src/lib.rs:835-888 | in every reachable multi-owner storage the owners acting together pass |
| AccountRuns.ConfigurationHistory | contracts/account/src/lib.rs:268-288 | owner and multi-owner mode are permanent once set, and the version never goes back |
| AccountAuthority.SessionCallIff | contracts/account/src/lib.rs:326-465 | a session call executes exactly when its key is stored and alive, has permission 1, allows the target and can pay, its holder signed this call, the nonce is next, every module approves and the target answers |
| AccountAuthority.CallsStayOnAllowlist | contracts/account/src/lib.rs:383-386 | over any run, a call executed for a key goes to a contract on the allowlist last registered or set for it |
| AccountAuthority.SessionRefusals | contracts/account/src/lib.rs:372-386 | an expired key, a missing permission and a target off the allowlist are refused with their errors |
| AccountAuthority.OtherCallIff | contracts/account/src/lib.rs:337-362 | calls in the owner's or the quorum's name execute exactly with the authorisations the host saw, and without session-key fields |
| AccountAuthority.ExecutedLeaves | contracts/account/src/lib.rs:411-465 | an executed call takes one nonce, a session call also adds its spend to the running window or to a new one, and nothing else changes |
| AccountAuthority.ExecuteRefusals | contracts/account/src/lib.rs:326-435 | the errors of `execute`, in the order of its checks |
| AccountAuthority.SpendRefusals | contracts/account/src/validation.rs:81-113 | over the per-call cap, over an i128 and over the limit have their own errors, in this order |
| AccountAuthority.OwnerDecides | contracts/account/src/lib.rs:513-514 | a call that registers, revokes or reconfigures a key, changes modules or version, enters multi-owner mode or executes in the owner's name carries the owner's authorisation |
| AccountAuthority.NothingWithoutTheOwner | contracts/account/src/lib.rs:493-995 | over any run of calls without the owner's authorisation no key appears, disappears or is reconfigured, no module or version changes, multi-owner mode is not entered, and nothing executes in the owner's name |
| AccountAuthority.FirstOwner | contracts/account/src/lib.rs:268-288 | before there is an owner only an `initialize` that its owner authorised succeeds |
| AccountAuthority.RegistrationIff | contracts/account/src/lib.rs:493-539 | a registration succeeds exactly for a valid request, in primitive terms, of a new key with the owner's authorisation |
| AccountAuthority.RegistrationStores | contracts/account/src/lib.rs:541-560 | the stored key has what was asked for, an untouched window that starts now, and no other key changes |
| AccountAuthority.RegistrationRefusals | contracts/account/src/lib.rs:503-539 | the first fault of a registration decides its error |
| AccountAuthority.KeyOpsIff | contracts/account/src/lib.rs:574-634 | revoking, reconfiguring and refreshing succeed exactly for a stored key with the owner's authorisation |
| AccountAuthority.RevokedStaysOut | contracts/account/src/lib.rs:574-600 | a revoked key executes nothing until the owner registers it again |
| AccountAuthority.ModulesChange | contracts/account/src/lib.rs:642-700 | registering and unregistering change the set of modules by that one |
| AccountAuthority.VersionOpsIff | contracts/account/src/lib.rs:935-995 | who may change the version, to what |
| AccountAuthority.QuorumDecides | contracts/account/src/lib.rs:715-735 | a change of owners or threshold, or a call in the quorum's name, carries the authorisations of at least threshold distinct owners |
| AccountAuthority.NothingWithoutTheQuorum | contracts/account/src/lib.rs:796-928 | over any run of calls with too few owners' authorisations, owners and threshold stay and nothing executes in the quorum's name |
| AccountAuthority.OwnerOpsIff | contracts/account/src/lib.rs:796-928 | the three owner operations succeed exactly with a quorum and a sensible change |
| AccountAuthority.OwnersChange | contracts/account/src/lib.rs:796-928 | they change the set of owners by that one, lower the threshold only when it no longer fits, and set the one given |
| AccountAuthority.MultiOwnerIff | contracts/account/src/lib.rs:740-778 | multi-owner mode is entered once, by the owner, as given |
| InvoiceContract.InvoiceStore.Create | contracts/invoice/src/lib.rs:221-300 | verdict and new storage are the state machine's: a Draft under a fresh id, appended to both indexes |
| InvoiceContract.InvoiceStore.OpenInvoice | contracts/invoice/src/lib.rs:305-331 | verdict and new storage are the state machine's: a Draft not yet due becomes Open |
| InvoiceContract.InvoiceStore.PayBody | contracts/invoice/src/lib.rs:338-393 | succeeds exactly for an Open invoice, its recipient and a date not past due; then it is Paid and the tokens have moved |
| InvoiceContract.InvoiceStore.Pay | contracts/invoice/src/lib.rs:338-393 | as run by the host: the expiry recorded by a late payment is undone with the error |
| InvoiceContract.InvoiceStore.PayVerified | contracts/invoice/src/lib.rs:396-419 | as `pay`, only for the expected amount and asset |
| InvoiceContract.InvoiceStore.Cancel | contracts/invoice/src/lib.rs:424-445 | verdict and new storage are the state machine's: by the creator, from Draft or Open |
| InvoiceContract.InvoiceStore.Expire | contracts/invoice/src/lib.rs:451-477 | verdict and new storage are the state machine's: by anyone, for an Open invoice past due |
| InvoiceContract.InvoiceStore.GetByAccount | contracts/invoice/src/lib.rs:503-523 | the two loops return the created invoices, then the addressed ones not created by the account |
| InvoiceRuns.RunInv | contracts/invoice/src/lib.rs:221-477 | every reachable contract has exact indexes, and each invoice exactly the timestamps its status and path imply, in order, Paid by the due date and Expired after it |
| InvoiceRuns.History | contracts/invoice/src/lib.rs:305-477 | over any run an invoice keeps its identity, follows Draft, Open, end state (or Draft, Cancelled), and an end state never changes |
| InvoiceRuns.NewIdIsNew | contracts/invoice/src/lib.rs:243-285 | the counter in the hashed payload makes every new id differ from all stored ones |
| InvoiceRuns.ListingsExact | contracts/invoice/src/lib.rs:487-500 | the listings are exactly the ids created by, or addressed to, the account, each once |
| InvoiceRuns.ByAccountExact | contracts/invoice/src/lib.rs:503-523 | `get_by_account` returns exactly the invoices the account is party to, each once, self-invoices included |
| InvoiceRuns.MoneyMoves | contracts/invoice/src/lib.rs:338-419 | over any run a balance changes by the Paid invoices the account created minus those addressed to it, so a Paid invoice moved its amount once and any other nothing |
| InvoiceRuns.TotalConserved | contracts/invoice/src/lib.rs:338-419 | a token's total over accounts that include every party never changes |
| InvoiceAuthority.CreateIff | contracts/invoice/src/lib.rs:231-243 | a creation succeeds exactly with the creator's authorisation, a positive amount and a due date ahead |
| InvoiceAuthority.CreateStores | contracts/invoice/src/lib.rs:243-285 | it adds one Draft under a new id with all the terms given, and moves no tokens |
| InvoiceAuthority.IdParts | contracts/invoice/src/lib.rs:246-255 | the id hashes creator, recipient, amount, asset, counter and time, in this order |
| InvoiceAuthority.CallIff | contracts/invoice/src/lib.rs:305-477 | a call on a stored invoice succeeds exactly when it is the call its next status asks for: kind, time, terms and whose authorisation |
| InvoiceAuthority.StatusIff | contracts/invoice/src/lib.rs:305-477 | an invoice changes to a status exactly by that call, and then in what belongs to that status alone |
| InvoiceAuthority.StatusHasCause | contracts/invoice/src/lib.rs:305-477 | over any run, an invoice whose status changed owes it to such a call in the run |
| InvoiceAuthority.CreatedThenPaid | contracts/invoice/src/lib.rs:338-393 | after a creation the terms stay, and if the invoice is ever Paid its recipient authorised that, not after the due date given |
| InvoiceAuthority.LatePaymentRefused | contracts/invoice/src/lib.rs:363-375 | past the due date the recipient's payment is refused as expired and leaves nothing |
| InvoiceAuthority.BalanceStep | contracts/invoice/src/lib.rs:377-392 | balances move only with a payment, by the invoice's amount, from its recipient to its creator, in its asset |
| InvoiceAuthority.NothingTaken | contracts/invoice/src/lib.rs:338-419 | an account that authorises nothing in a run loses nothing |
| InvoiceAuthority.PayRefusals | contracts/invoice/src/lib.rs:338-419 | why a payment is refused, in the order of the checks |
| GovernorContract.ValidateWasmMetadata | contracts/upgrade/src/validation.rs:25-55 | passes exactly for a non-zero hash, a size within bounds, all required exports and no forbidden import; the first failing rule gives the error |
| GovernorContract.UpgradeGovernor.Initialize | contracts/upgrade/src/lib.rs:147-178 | verdict and new storage are the state machine's: once, with owner, target, delay and next id 1 |
| GovernorContract.UpgradeGovernor.ProposeBody | contracts/upgrade/src/lib.rs:189-256 | succeeds exactly when the owner, the metadata and both counters allow, with the next id |
| GovernorContract.UpgradeGovernor.ProposeUpgrade | contracts/upgrade/src/lib.rs:189-256 | as run by the host: a proposal stored before a counter overflow is undone |
| GovernorContract.UpgradeGovernor.ExecuteUpgrade | contracts/upgrade/src/lib.rs:261-310 | verdict and new storage are the state machine's: pending, ripe, carried out by the target, then executed |
| GovernorContract.UpgradeGovernor.CancelUpgrade | contracts/upgrade/src/lib.rs:313-340 | verdict and new storage are the state machine's: a pending proposal becomes cancelled |
| GovernorContract.UpgradeGovernor.SetTimelockDelay | contracts/upgrade/src/lib.rs:343-359 | verdict and new storage are the state machine's: stored proposals keep their times |
| GovernorContract.UpgradeGovernor.UpdateMultisigConfig | contracts/upgrade/src/lib.rs:386-414 | verdict and new storage are the state machine's: threshold from 1 to the number of listed signers, at most 50 |
| GovernorContract.UpgradeGovernor.SubmitSignature | contracts/upgrade/src/lib.rs:426-469 | verdict and new storage are the state machine's: a listed signer approves a pending proposal once |
| GovernorContract.UpgradeGovernor.CountSignatures | contracts/upgrade/src/lib.rs:498-508 | the loop counts the list positions whose signer approved |
| GovernorContract.UpgradeGovernor.ExecuteMultisigUpgrade | contracts/upgrade/src/lib.rs:476-545 | verdict and new storage are the state machine's: as `execute_upgrade`, with the count at the threshold |
| GovernorContract.UpgradeGovernor.SetContractValidation | contracts/upgrade/src/lib.rs:555-571 | verdict and new storage are the state machine's: the owner replaces the metadata rules |
| GovernorRuns.RunInv | contracts/upgrade/src/lib.rs:189-545 | proposals are exactly ids 1 to next - 1, never both executed and cancelled; the target was called once for each executed one and for no other, with its hash and not before its timelock |
| GovernorRuns.History | contracts/upgrade/src/lib.rs:189-545 | over any run a proposal's hash and times never change, and executed and cancelled are permanent |
| GovernorRuns.TimelockHolds | contracts/upgrade/src/lib.rs:189-359 | after a proposal, whatever is called, the target is upgraded for it at most once, with its hash, and not before the proposal time plus the delay then in force |
| GovernorRuns.CancelledNeverCalled | contracts/upgrade/src/lib.rs:313-340 | a cancelled proposal is never carried out |
| GovernorRuns.CountsApproversIff | contracts/upgrade/src/lib.rs:386-545 | once the owner has configured a list and a threshold, multisig execution of a proposal without earlier approvals means, over every run, that at least threshold distinct signers approved, exactly when the threshold is 1 or no signer is listed twice |
| GovernorRuns.MultisigExecution | contracts/upgrade/src/lib.rs:476-545 | in any state whose threshold is 1 or whose list has no duplicates, multisig execution means that at least threshold distinct current signers approved |
| GovernorRuns.DuplicateSignerCountsTwice | contracts/upgrade/src/lib.rs:386-545 | the run that shows the exception: one signer listed twice with threshold 2 approves once, and the upgrade goes through |
| GovernorAuthority.ProposeIff | contracts/upgrade/src/lib.rs:189-256 | a proposal is accepted exactly from the owner, for attested code, while clock and ids last |
| GovernorAuthority.ExecuteIff | contracts/upgrade/src/lib.rs:261-310 | a proposal is executed exactly when pending, ripe and accepted by the target |
| GovernorAuthority.ExecuteMultisigIff | contracts/upgrade/src/lib.rs:476-545 | and by multisig exactly when also enough listed positions have a recorded approval |
| GovernorAuthority.CallHasCause | contracts/upgrade/src/lib.rs:261-310 | every upgrade the target carried out in a run was made by a call at that time, for a proposal pending and ripe then |
| GovernorAuthority.ApproveIff | contracts/upgrade/src/lib.rs:426-469 | an approval is recorded exactly for a listed signer who authorised it, once, for a pending proposal |
| GovernorAuthority.NothingWithoutTheOwner | contracts/upgrade/src/lib.rs:189-414 | over any run of calls without the owner's authorisation nothing is proposed or cancelled, and no delay, policy or signer list changes |
| GovernorAuthority.OwnerCallsLeave | contracts/upgrade/src/lib.rs:189-414 | what the owner gives is what is stored |
| GovernorAuthority.DelayInForce | contracts/upgrade/src/lib.rs:343-359 | over any run the delay is the one last given, at initialisation or by the owner |
| GovernorAuthority.NotBeforeTheDelay | contracts/upgrade/src/lib.rs:189-310 | no proposal is carried out before its time plus the delay last given by then |
| GovernorAuthority.ApprovalHasCause | contracts/upgrade/src/lib.rs:426-469 | every approval recorded in a run was given by that signer's own authorisation, listed then, for a proposal pending then |
| GovernorAuthority.MultisigAuthorised | contracts/upgrade/src/lib.rs:476-545 | from deployment, multisig execution under threshold 1 or a list without duplicates means that at least threshold distinct listed signers authorised an approval of that pending, ripe proposal |
| GovernorAuthority.PendingRefusals | contracts/upgrade/src/lib.rs:261-310 | why a proposal is not executed: unknown, done, withdrawn, too early, refused |
| Base58.ToBase58 | packages/crypto/src/encoding.ts:14-32 | the loops compute the numeral of the bytes in base 58, with a '1' for each leading zero byte |
| Base58.FromBase58 | packages/crypto/src/encoding.ts:35-61 | the loops compute the numeral of the characters in base 256, None for an empty or invalid text |
| Base58.DecodeEncode | packages/crypto/src/encoding.ts:14-61 | decoding inverts encoding exactly on the non-empty byte arrays |
| Base58.EncodeDecode | packages/crypto/src/encoding.ts:14-61 | encoding inverts decoding on every accepted text, so no two texts decode alike |
| Base58.AcceptedIff | packages/crypto/src/encoding.ts:35-44 | accepted are exactly the non-empty texts over the alphabet |
| Base58.LeadingOnes | packages/crypto/src/encoding.ts:20-30 | as many leading '1's as leading zero bytes, neither more nor fewer |
| Base58.EncodedLength | packages/crypto/src/encoding.ts:14-32 | m significant bytes take at most 7 * ceil(m / 5) characters after the leading '1's |
| Radix.ConvertBack | packages/crypto/src/encoding.ts:14-61 | converting a numeral to another base and back gives the same numeral and the same leading zeros |
| Amount.ExactExceptAtZeroPrecision | packages/core-sdk/src/amount.ts:46-115 | the output denotes the number given exactly when the precision is at least 1 or the number is zero |
| Amount.TwelveBecomesPointTwelve | packages/core-sdk/src/amount.ts:46-115 | the input that shows it: "12" at precision 0 gives "0.12" |
| Amount.NormalForm | packages/core-sdk/src/amount.ts:46-115 | at precision 1 or more the output is a canonical decimal (no spare zeros, no "-0") for exactly the number given |
| Amount.Idempotent | packages/core-sdk/src/amount.ts:46-115 | normalising an output with the same options gives it back |
| Amount.EqualIffSameNumber | packages/core-sdk/src/amount.ts:46-115 | two accepted texts get equal outputs exactly when they are the same number |
| Amount.MinimumHonoured | packages/core-sdk/src/amount.ts:86-91 | an accepted amount is at least the minimum, except exactly when a non-negative minimum has digits past the precision and is met after the cut |
| Amount.MaximumHonoured | packages/core-sdk/src/amount.ts:93-98 | and at most the maximum, except exactly when a negative one is so cut and met |
| Amount.ZeroBelowMinimum | packages/core-sdk/src/amount.ts:86-91 | the input that shows the first exception: "0" at precision 1 passes a minimum of 0.05 |
| Amount.ZeroAboveMaximum | packages/core-sdk/src/amount.ts:93-98 | and the second: "0" at precision 1 passes a maximum of -0.05 |
| AmountRange.FitsIff | packages/core-sdk/src/amount.ts:73-83 | the test on digits passes exactly when the number is a multiple of 10^-precision |
| AmountRange.ReadBySize | packages/core-sdk/src/amount.ts:52-83 | blank text, other text and numbers from 2 * 10^308 on are refused; below 10^308 in size a number is read exactly when it has the precision |
| AmountRange.ShortIsRead | packages/core-sdk/src/amount.ts:65-83 | so is every number of at most 308 integer digits |
| AmountRange.FiniteLimitIs | packages/core-sdk/src/amount.ts:65-71 | the size from which a number reads as infinite is (2^54 - 1) * 2^970, the midpoint above the largest double |
| AmountRange.AcceptedIff | packages/core-sdk/src/amount.ts:46-115 | with bounds of the precision, a text is accepted exactly when it is a number below that size, of the precision, in range and not a refused zero |
| AmountRange.ShortAcceptedIff | packages/core-sdk/src/amount.ts:46-115 | of at most 308 integer digits, exactly the numbers of the precision that are in range and not a refused zero |
| AmountRange.TrimParts | packages/core-sdk/src/amount.ts:62-63 | trimming takes white space off both ends and nothing else |
| SignatureFormat.FromHex | packages/crypto/src/signature-format.ts:18-30 | the loop decodes the pairs after one prefix, None for invalid text |
| SignatureFormat.ToBase64 | packages/crypto/src/signature-format.ts:37-41 | the loop's binary string has the bytes as character codes, so `btoa` gives their base64 text |
| SignatureFormat.FromBase64 | packages/crypto/src/signature-format.ts:49-60 | the loop copies out the decoded bytes after padding is restored, None for invalid text |
| SignatureFormat.HexRoundTrip | packages/crypto/src/signature-format.ts:7-30 | decoding inverts encoding, prefixed or not (RFC 4648, section 8) |
| SignatureFormat.HexAccepted | packages/crypto/src/signature-format.ts:18-30 | the decoder accepts exactly the valid texts and those with the prefix doubled |
| SignatureFormat.HexNormalForm | packages/crypto/src/signature-format.ts:7-30 | re-encoding a decoded text gives its lowercase form without prefix |
| SignatureFormat.Base64RoundTrip | packages/crypto/src/signature-format.ts:37-60 | decoding inverts encoding with or without the padding (RFC 4648, section 4) |
| SignatureFormat.DetectHex | packages/crypto/src/signature-format.ts:91-118 | detection recovers either hex form of any bytes |
| SignatureFormat.DetectBase64 | packages/crypto/src/signature-format.ts:91-118 | detection recovers base64 text exactly when it does not also decode as hex, or is empty |
| SignatureFormat.DetectPaddedBase64 | packages/crypto/src/signature-format.ts:91-148 | so for every length that is not a multiple of three |
| SignatureFormat.ThreeBytesMisread | packages/crypto/src/signature-format.ts:91-118 | the input that shows the exception: base64 "abcd" is read as two hex bytes |
| SignatureFormat.DecodedIff | packages/crypto/src/signature-format.ts:91-118 | bytes are their own signature; text is one exactly when it decodes as hex or is valid base64 |
| SignatureFormat.Base64ValidIff | packages/crypto/src/signature-format.ts:134-138 | valid base64 is alphabet characters and up to two '=', in blocks of four |
| SignatureFormat.Base64Vectors | packages/crypto/src/signature-format.ts:37-41 | two test vectors of section 10 of RFC 4648 |
| Bip32.ParseBIP32Path | packages/crypto/src/bip32.ts:40-84 | the loop gives the segments in order, or the error of the first bad part |
| Bip32.ParseFormat | packages/crypto/src/bip32.ts:164-168 | parsing a formatted list of segments with indices to 2^31 - 1 gives that list |
| Bip32.CanonicalForm | packages/crypto/src/bip32.ts:40-168 | formatting a parsed path parses to the same segments, and two paths share a form exactly when they parse alike |
| Bip32.MainIsStandard | packages/crypto/src/bip32.ts:98-137 | the account builder accepts exactly the valid indices; its path is standard and parses to the account's three levels (BIP-44, section "Path levels") |
| Bip32.SessionIsStandard | packages/crypto/src/bip32.ts:98-159 | likewise the session builder, with five levels |
| Bip32.MainInjective | packages/crypto/src/bip32.ts:130-137 | equal account paths come from equal indices |
| Bip32.SessionInjective | packages/crypto/src/bip32.ts:147-159 | equal session paths come from equal pairs of indices |
| Bip32.BuildersNeverCollide | packages/crypto/src/bip32.ts:130-159 | no account path is a session path |
| Bip32.StandardIff | packages/crypto/src/bip32.ts:98-122 | standard are exactly the paths 44' / 148' / hardened account with at most two more levels |
| Bip32.SegmentIff | packages/crypto/src/bip32.ts:60-80 | a segment is digits of a valid index, with ' or h behind them exactly when hardened |
| Retry.WithRetry | packages/stellar/src/retry.ts:104-137 | result, number of calls and waits are those of the one specified retry run, the last error wrapped |
| Retry.CoreWithNetworkRetry | packages/core-sdk/src/retry-policy.ts:218-260 | the same calls, waits and outcome, the last error itself |
| Retry.ClientWithNetworkRetry | packages/account-abstraction/src/client.ts:168-210 | the same again, counting attempts from 0 and leaving the loop when they are used up |
| Retry.DelaysAgree | packages/account-abstraction/src/client.ts:144-163 | the three loops sleep alike before each retry, negative parameters included; the formulas are equal exactly when the first is not negative |
| Retry.DoubledIsPow | packages/stellar/src/retry.ts:76-86 | the doubling in the models is multiplication by a power of two |
| Retry.WaitIs | packages/stellar/src/retry.ts:76-86 | each wait is base * 2^k, or base, cut to the maximum |
| Retry.RunShape | packages/stellar/src/retry.ts:104-137 | one call more than waits and at most maxRetries + 1; every call but the last failed retryably, and the last decides the ending |
| Retry.SucceedsIff | packages/stellar/src/retry.ts:104-137 | the run succeeds exactly when some call within the allowance does and all before it fail retryably |
| Retry.EndAlike | packages/core-sdk/src/retry-policy.ts:237-260 | the loops end alike, and only the first wraps the error of used-up attempts |
| Retry.NoAttempts | packages/stellar/src/retry.ts:113-136 | a negative allowance makes no call and leaves no error |
| Retry.TotalWait | packages/stellar/src/retry.ts:76-86 | the waits total at most m * maxDelay, and with exponential backoff also at most base * (2^m - 1) |
| RpcFailover.StellarClient.RotateRpcEndpoint | packages/stellar/src/client.ts:173-180 | moves to the next endpoint cyclically, and says whether there is another |
| RpcFailover.StellarClient.GetRpcFailoverAttemptCount | packages/stellar/src/client.ts:182-185 | the larger of the number of endpoints and maxRetries + 1, so every endpoint gets an attempt |
| RpcFailover.StellarClient.ExecuteRpcWithFailover | packages/stellar/src/client.ts:267-288 | outcome, calls made and current endpoint are those of the specified failover run; the fallback error is unreachable |
| RpcFailover.StellarClient.SimulateTransaction | packages/stellar/src/client.ts:532-551 | outcome, waits, calls made and current endpoint are those of the specified nested run, network errors unwrapped |
| RpcFailover.EveryEndpointOnce | packages/stellar/src/client.ts:173-180 | n rotations from any endpoint visit every endpoint exactly once |
| RpcFailover.FailoverShape | packages/stellar/src/client.ts:267-288 | for endpoints of any, even changing, health: attempt i goes to the i-th endpoint from the start, all before the last failed retryably, and a decisive answer stays current |
| RpcFailover.ShapeDecides | packages/stellar/src/client.ts:267-288 | that description fits one run only |
| RpcFailover.FirstDecisive | packages/stellar/src/client.ts:267-288 | with fixed health the first decisive endpoint in cyclic order answers, after one call to each before it |
| RpcFailover.FailoverCoverage | packages/stellar/src/client.ts:267-288 | one healthy endpoint among retryable failures is enough: success within n attempts, on the first healthy one, which stays current |
| RpcFailover.AllDown | packages/stellar/src/client.ts:267-288 | with none, all attempts are made, every endpoint is tried, and the last one's error comes back |
| RpcFailover.SimulateIsRetry | packages/stellar/src/client.ts:532-541 | the nested run is the common retry run with a whole failover as its operation |
| RpcFailover.SimulationCalls | packages/stellar/src/client.ts:532-541 | it makes at most (m + 1) * max(n, m + 1) RPC calls, and exactly as many when every answer fails retryably |
| RpcFailover.ReportedIs | packages/stellar/src/client.ts:542-550 | a last network error is reported as it is, any other last error wrapped with the number of attempts |
| Pagination.IterateAccountActivity | packages/stellar/src/client.ts:425-442 | the generator yields a contiguous part of the log from the cursor on, with the requests and the failure of the specified walk |
| Pagination.RequestCount | packages/stellar/src/client.ts:425-450 | when every record has a usable token, all r remaining records are yielded in exactly ceil(r / limit) + 1 requests |
| Pagination.CompleteIff | packages/stellar/src/client.ts:425-450 | without failed requests the walk is complete exactly when no page with more behind it ends in a record without a token |
| Pagination.TokenlessRecordEnds | packages/stellar/src/client.ts:425-450 | the input that shows the exception: of two records, one to a page, the second is not asked for when the first has no token |
| Pagination.FailureLeavesPrefix | packages/stellar/src/client.ts:390-441 | when a request fails, whole pages were yielded up to it and nothing else |
| Pagination.EmptyCursorStarts | packages/stellar/src/client.ts:405 | without a cursor and with an empty one the walk is from the beginning |
| Preflight.ValidateSessionKeyPolicy | packages/account-abstraction/src/validation.ts:56-151 | the reported issues are those of the specified checks in order, and a policy is valid exactly without any |
| Preflight.ScanBits | packages/account-abstraction/src/validation.ts:82-99 | the loop with its set and flags reports the first unknown and the first repeated bit |
| Preflight.PermissionReport | packages/account-abstraction/src/validation.ts:82-99 | each kind of permission fault is reported at most once, and exactly when it is there |
| Preflight.Reports | packages/account-abstraction/src/validation.ts:66-148 | which fault is reported with which code for which field |
| Preflight.AllowlistReport | packages/account-abstraction/src/validation.ts:153-171 | every allowlist entry of the wrong shape is reported, and no other |
| Preflight.ReadsPlainAmounts | packages/account-abstraction/src/validation.ts:46-54 | amounts are read exactly when plainly written, and then as the number that is registered |
| Preflight.ExpiryAgrees | packages/account-abstraction/src/validation.ts:66-80 | client and contract agree on a whole expiry at the same time, except at 10^11 from time 10^8 on |
| Preflight.BitsAgree | packages/account-abstraction/src/validation.ts:82-99 | client and contract accept the same permission lists |
| Preflight.ClientMatchesContract | packages/account-abstraction/src/validation.ts:56-151 | without an allowlist the client reports nothing exactly when `add_session_key` accepts the registration, for plain amounts, values that fit their types, and any whole expiry but that one |
| Preflight.SeamDisagrees | contracts/account/src/lib.rs:1093-1103 | the input that shows the exception: at 1.7 * 10^9 seconds an expiry of 10^11 passes the client, and the contract finds it past |
| Preflight.FractionPasses | packages/account-abstraction/src/validation.ts:66-80 | an expiry with half a millisecond passes the client and cannot be registered |
| TransactionBuilder.AccountTransactionBuilder.Create | packages/core-sdk/src/account-transaction-builder.ts:110-135 | an empty contract id is refused; otherwise a builder with nothing added, cached or consumed |
| TransactionBuilder.AccountTransactionBuilder.AddOperation | packages/core-sdk/src/account-transaction-builder.ts:155-269 | the operation goes to the inner builder and the cache is dropped; a failed encoding changes nothing |
| TransactionBuilder.AccountTransactionBuilder.AttachMemo | packages/core-sdk/src/account-transaction-builder.ts:278-282 | the memo is replaced and the cache dropped |
| TransactionBuilder.AccountTransactionBuilder.OverrideTimeout | packages/core-sdk/src/account-transaction-builder.ts:291-296 | the time bounds are set and the cache dropped, or the inner builder refuses and nothing changes |
| TransactionBuilder.AccountTransactionBuilder.BuildRawTransaction | packages/core-sdk/src/account-transaction-builder.ts:368-380 | the cached transaction, or one built now for one sequence number |
| TransactionBuilder.AccountTransactionBuilder.SimulateTransaction | packages/core-sdk/src/account-transaction-builder.ts:310-315 | the raw transaction is what the server is asked about, and none with zero operations |
| TransactionBuilder.AccountTransactionBuilder.BuildTransaction | packages/core-sdk/src/account-transaction-builder.ts:331-358 | the raw transaction assembled with a successful answer, or the error for the answer |
| TransactionBuilder.Step | packages/core-sdk/src/account-transaction-builder.ts:95-108 | every call keeps the cache equal to what the inner builder would contain |
| TransactionBuilder.OneSequenceNumberPerStretch | packages/core-sdk/src/account-transaction-builder.ts:95-108 | over any run, each stretch of calls without a change takes exactly one sequence number, however many `simulate` and `build` calls it has, and none if it has none |
| TransactionBuilder.HandedOutNumber | packages/core-sdk/src/account-transaction-builder.ts:368-380 | a transaction carries the number of its stretch |
| TransactionBuilder.NextExpectedIff | packages/core-sdk/src/account-transaction-builder.ts:95-108 | it carries the account's next expected number exactly when no change followed an earlier hand-out |
| TransactionBuilder.AddedAfterSimulate | packages/core-sdk/src/account-transaction-builder.ts:264-358 | the run that shows the exception: add, simulate, add, build gives a transaction with both operations, numbered one too high |
| TransactionBuilder.NeverStale | packages/core-sdk/src/account-transaction-builder.ts:95-108 | every transaction handed out has all operations added before it, in order, and the latest memo |
| TransactionBuilder.BuildIff | packages/core-sdk/src/account-transaction-builder.ts:310-358 | a transaction is handed out exactly when there are operations and a timeout can be set, and assembled exactly with a successful answer and its data |
| TransactionBuilder.HandedOutDeadline | packages/core-sdk/src/account-transaction-builder.ts:368-380 | a transaction handed out is valid until exactly the last accepted timeout, or the default one set with the first hand-out |
| TransactionBuilder.OverrideAcceptedIff | packages/core-sdk/src/account-transaction-builder.ts:284-296 | a timeout override is accepted exactly while no positive timeout is in force, given or by default |
| TransactionBuilder.OverrideAfterSimulate | packages/core-sdk/src/account-transaction-builder.ts:284-315 | the run that shows it: after add and simulate an override of 60 seconds is refused |

## Left out

- Soroban TTL bumps and events: host effects.
- AccountContract.AncoreAccount.Upgrade: the replacement of the code is left out; an upgrade is the version going up with the same code continuing.
- The wasm build's trap on a bad signature: the account model returns `InvalidSignature`, as the native build does; either way storage is unchanged.
- The length condition on strkeys in the zero-address check: host addresses always have the length, so only the all-zero key is modelled.
- The host's limits on the length of vectors and on the size of entries.
- Token contracts beyond `transfer`: balances change only through it, and a refused transfer is the flag `tokenAccepts`.
- The order in which the account's validation modules are called, and what they see: each approves or does not.
- AccountContract.AncoreAccount.Execute: the reply and the modules' answers are parameters, so a target that calls back into the account is not modelled.
- Loops that share a function in the source (Base58, the BIP32 parser, the preflight check, the retry inside `simulateTransaction`) are methods of their own or written out in place.
- UTF-16: strings are sequences of characters; the texts these functions accept are ASCII.
- JavaScript floating point: a number is a real, NaN or an infinity, without rounding; `number` input of `normalizeAmount`, jitter and fractional delays are left out.
- `onRetry` callbacks, preset tables and the classification of errors by message; a retry loop's predicate is a parameter.
- RpcFailover.StellarClient.SimulateTransaction: only the overload for a built transaction; the parsing of unsigned XDR and of answers is left out.
- Pagination.IterateAccountActivity: the server answers with the first `limit` records behind the cursor, as the log stands; a consumer that stops early is not modelled, and a page request includes its own retries.
- Preflight.ValidateSessionKeyPolicy: an expiry, window, bit or amount of a type the interface rules out (a string for a number) is not an input.
- Preflight.ClientMatchesContract: policies with an allowlist are excluded, because the client checks neither the zero address nor the 50-entry cap; bitmask permissions have no contract counterpart.
- SpendWindows.LimitHoldsIff: for keys that may execute on some target, with nonces left and any call signable; of other keys only the half that needs none of this is stated (`OneLimitSpent`).
- TransactionBuilder.AccountTransactionBuilder.AddOperation: the encoding of contract parameters is a given operation, or None where it throws.
- TransactionBuilder.NextExpectedIff: counts the calls of one builder; other users of the same source account are not in the run.
- The Stellar SDK's inner builder is modelled from what the repository says of it: `build` takes a sequence number each time, `setTimeout` refuses to overwrite a maximum time.
- Approvals for `execute_upgrade`: it asks for none, so approval counts are stated only for `execute_multisig_upgrade`.
- AES-GCM, PBKDF2, BIP39, StrKey checksums, Ed25519 and SHA-256 themselves: library code.
- User interfaces, the extension and mobile apps, HTTP plumbing, asset-metadata caching, password scoring, fiat formatting, scripts and configuration.
