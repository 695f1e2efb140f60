# Verified model of the EU DID wallet's trust system

A Dafny model of the on-chain trust system (three contracts) and of the client code that must agree
with it, with proofs over all inputs, all callers and all runs. `dafny verify dfyconfig.toml` checks it.

## How it is organised

| file | models |
|---|---|
| Evm.dfy, AbiEncoding.dfy | value types; the byte strings hashed into identifiers |
| AccreditationRecords.dfy, TrustChain.dfy | the records, `validateTrustChain`, what its verdict means and how verdicts change |
| AppendOnlyIndex.dfy | the lookup arrays both registries keep |
| AccreditationRegistry.dfy, AccreditationInvariants.dfy | the accreditation contract and what holds of its storage |
| CredentialRegistry.dfy, CredentialInvariants.dfy | the credential contract and what holds of its storage |
| RootAuthority.dfy | the list of member states |
| TrustSystem.dfy | the three contracts on one chain: runs of calls by arbitrary callers, with time moving forward |
| Histories.dfy | what whole runs make of one record, one credential, one member state, and of the logs |
| WalletLookup.dfy, IssuanceTracking.dfy | the wallet's and the services' scans, and `VerifyAsync` |
| JsText.dfy, Presentation.dfy | the `eudi-pres://` codec, from UTF-16 to base64url and back |
| EventPolling.dfy | the event polling loop |
| PinThrottle.dfy, ZkpBridge.dfy | the PIN service and the proving bridge |

Each contract is a class with its storage as fields. A transaction is a method proved equal to a function on
a storage value (`Issue`, `Revoke`, `Record`, `Change`, `Execute`), and the results are lemmas about those
functions and about `TrustSystem.Run`, which composes them. A revert returns an error and leaves the
state unchanged. A mapping is a finite map whose unwritten keys read as zero; events are part of the state.

## Assumptions

- keccak256 is an arbitrary function, quantified over in every statement; nothing assumes it injective. Where a
  collision matters the statement names it as an alternative.
- Timestamps do not decrease; they are `uint256` values that never wrap.
- Logs arrive in chain order, without reorganisations; every client scan reads one snapshot; PIN calls are serial;
  the function the bridge injects with does not call back into it.
- The class argument `Msg` carries `msg.sender`, `block.timestamp` and `block.number`; the wallet's clock, the
  server's clock, salts and key derivation are arguments too.

## What the code does not do

- A failed verdict may turn valid: nothing checks the parent of a Ministry the owner issues, so its record may
  precede its parent; `FailureMayBeRepaired` reaches such a state from every deployment. Exactly when
  (`FailureIsFinalIff`): a stored identifier that fails validates at the end of some run iff, at some time to come,
  live and endorsed records still lead from it to an owner's Ministry whose parent is missing, under the very
  identifier that a parentless MemberState the owner issues to itself would then take. Storage alone shows when
  no record dangles like that, and then failure is final. A verdict once lost never returns
  (`ValidityNeverRegained`), and a credential never waits for such a repair (`MayBecomeActiveIff`).
- The polling loop is at-most-once, not exactly-once, when handlers fail: the cursor moves past a block after the
  first log of it, so a failure on a later log of that block loses that log, whatever polls follow
  (`MidBlockFailureLosesLog`). Exactly when: for one subscription, `CompleteIff`; for every pattern of failures, iff
  no two logs from the start block on share a block (`LossFreeIff`).
- The bridge enters a request as pending before it serialises and injects it, so an exception there (a payload that
  `JSON.stringify` refuses, such as a BigInt, or a throwing injected function) leaves the request in two places:
  rejected and pending if it came from `send`, queued and pending if from `register`, which then keeps the
  whole queue. Conservation holds exactly when no injection throws (`ConservedIffNoneThrows`). No caller in the
  repository sends such a payload.
- The repository's README says that ten wrong PINs wipe the wallet. The service only reports an offer to wipe,
  from the tenth failure on it writes no lock, and no failure touches the stored secret (`LockedAfterFailureIff`).
- Issuing below Ministry validates the parent; a Ministry issued by a member state needs only an unrevoked
  parent, and the owner may issue in another issuer's name, giving a record that does not validate (`AuthorisedIff`,
  `FreshVerdict`).
- blockchain/README.md describes multi-signature governance and a deployment ceremony, and a timestamp in
  `AccreditationRevoked`; the contract has an owner and emits the block number. The model follows the contract.
- The status reported is not always the one stored: an expired credential reads as Expired even when it has been
  revoked, and `RevokedMayReadExpired` gives a run to one. In every reachable state the two are the same
  iff the credential has not expired (`ReportsStoredStatusIff`).

## Model

| member | source | states |
|---|---|---|
| TrustChain.ValidIffTrustPath | blockchain/contracts/AccreditationRegistry.sol:191-261 | the verdict holds iff a path of stored, unrevoked, unexpired records, each issued by the subject of the next along one of the five hierarchy edges, ends in an owner-issued parentless MemberState or Ministry; such a path has at most four records and is the parent walk; arbitrary, even cyclic, parent pointers |
| TrustChain.ValidWalkIsValid | blockchain/contracts/AccreditationRegistry.sol:191-261 | every record on the parent walk of a valid id, however far, is live and valid |
| TrustChain.StoredWalkOnlyLoses | blockchain/contracts/AccreditationRegistry.sol:130-184 | once the ancestors a scope allows for are stored, a later verdict implies the earlier one |
| TrustChain.LostVerdictStaysLost | blockchain/contracts/AccreditationRegistry.sol:130-184 | over three successive states, a verdict held in the first and lost in the second fails in the third |
| TrustChain.InsertKeepsVerdict | blockchain/contracts/AccreditationRegistry.sol:130-146 | storing a new record leaves alone every verdict whose walk was stored |
| AccreditationRegistries.AccreditationRegistry.constructor | blockchain/contracts/AccreditationRegistry.sol:92-95 | a deployed registry is empty and owned by its deployer |
| AccreditationRegistries.AccreditationRegistry.IssueAccreditation | blockchain/contracts/AccreditationRegistry.sol:108-162 | the whole new storage, log and result, or the error and no change, as `Issue` defines them |
| AccreditationRegistries.AccreditationRegistry.RevokeAccreditation | blockchain/contracts/AccreditationRegistry.sol:168-184 | the whole new storage, log and result, or the error and no change, as `Revoke` defines them |
| AccreditationRegistries.AccreditationRegistry.HasValidAccreditation | blockchain/contracts/AccreditationRegistry.sol:269-289 | true iff some id in the subject's index grants the scope |
| AccreditationRegistries.AccreditationRegistry.GetChainLength | blockchain/contracts/AccreditationRegistry.sol:419-434 | the length of the parent walk cut off at eleven |
| AccreditationRegistries.AccreditationRegistry.FillChain | blockchain/contracts/AccreditationRegistry.sol:298-311 | the array loop writes the walk in reverse and fills it |
| AccreditationRegistries.AccreditationRegistry.GetTrustChain | blockchain/contracts/AccreditationRegistry.sol:296-312 | the parent walk, cut off at eleven, root first |
| AccreditationRecords.WalkFollowsParents | blockchain/contracts/AccreditationRegistry.sol:302-309 | the walk runs through nonzero ids along stored parents and stops short of its bound only at a parentless record |
| AccreditationInvariants.TrustChainListing | blockchain/contracts/AccreditationRegistry.sol:296-312 | for a nonzero id: one to eleven nonzero ids ending in the argument, each the stored parent of the next; for a valid id at most four, all valid, starting at an owner-issued parentless record |
| AccreditationInvariants.AuthorisedIff | blockchain/contracts/AccreditationRegistry.sol:351-412 | exactly who may issue which scope under which parent |
| AccreditationInvariants.FreshVerdict | blockchain/contracts/AccreditationRegistry.sol:108-162 | exactly when a record validates the moment it is issued; below the top scopes iff unexpired and issued by the parent's subject |
| AccreditationInvariants.IssueKeepsStoredVerdicts | blockchain/contracts/AccreditationRegistry.sol:130-146 | an issue changes no verdict of a record whose walk was stored |
| AccreditationInvariants.AlreadyExistsIffRepeat | blockchain/contracts/AccreditationRegistry.sol:119-132 | an authorised issue is refused as existing iff a stored record has the same issuer, subject, scope, permissions and timestamp, or keccak256 collided |
| AccreditationInvariants.IssuedIdIsHash | blockchain/contracts/AccreditationRegistry.sol:119-127 | an issued id is keccak256 of 105 bytes holding, in order and most significant byte first, caller, subject, scope number, permissions and time |
| AccreditationInvariants.IssueRefusals | blockchain/contracts/AccreditationRegistry.sol:351-412 | exactly which error refuses an issue, and that a refusal changes nothing |
| AccreditationInvariants.RevokeRefusals | blockchain/contracts/AccreditationRegistry.sol:168-178 | exactly which error refuses a revocation, and that a refusal changes nothing |
| AccreditationInvariants.IssueKeepsInvariant | blockchain/contracts/AccreditationRegistry.sol:134-159 | an issue keeps indexes, flags, keys, provenance and event log exact |
| AccreditationInvariants.RevokeKeepsInvariant | blockchain/contracts/AccreditationRegistry.sol:168-184 | a revocation keeps them too |
| AppendOnlyIndex.PushKeepsExact | blockchain/contracts/AccreditationRegistry.sol:148-150 | pushing a new, youngest id keeps an index exact: every id once, no others, in order of issue |
| AbiEncoding.PackAccreditationInjective | blockchain/contracts/AccreditationRegistry.sol:119-127 | the packed preimage determines sender, subject, scope, permissions and timestamp |
| AbiEncoding.EncodeCredentialInjective | blockchain/contracts/CredentialRegistry.sol:126-132 | the ABI-encoded preimage, dynamic string included, determines all five inputs |
| AbiEncoding.PackAccreditationLayout | blockchain/contracts/AccreditationRegistry.sol:119-127 | the byte positions of the five packed inputs |
| AbiEncoding.EncodeCredentialLayout | blockchain/contracts/CredentialRegistry.sol:126-132 | the five head words, the offset 160 among them, the length, bytes and zero padding of the string |
| CredentialRegistries.CredentialRegistry.RecordCredential | blockchain/contracts/CredentialRegistry.sol:114-166 | the whole new storage, log and result, or the error and no change, against the accreditation registry's state |
| CredentialRegistries.CredentialRegistry.RevokeCredential | blockchain/contracts/CredentialRegistry.sol:173-187 | the whole new storage, log and result, or the error and no change |
| CredentialRegistries.CredentialRegistry.SuspendCredential | blockchain/contracts/CredentialRegistry.sol:194-208 | likewise for a suspension |
| CredentialRegistries.CredentialRegistry.ReactivateCredential | blockchain/contracts/CredentialRegistry.sol:214-228 | likewise for a reactivation |
| CredentialRegistries.CredentialRegistry.BatchVerifyCredentials | blockchain/contracts/CredentialRegistry.sol:329-353 | entry by entry the verdict of `isActive`, though the tests differ |
| CredentialRegistries.ReadersAgree | blockchain/contracts/CredentialRegistry.sol:235-294 | `verifyCredential`, `isActive` and `getCredentialStatus` agree on every stored credential, reporting the stored status unless expiry hides it; the chain is reported valid, whatever the status, iff the credential is stored, unexpired and its accreditation validates; what they do for an unknown id |
| CredentialInvariants.MayRecordIff | blockchain/contracts/CredentialRegistry.sol:362-388 | recording is allowed iff the caller is the subject of a valid Institution accreditation; the last two tests never fire |
| CredentialInvariants.FreshCredentialIsActive | blockchain/contracts/CredentialRegistry.sol:114-166 | a recorded credential is active at once unless its own expiry has passed; no other credential changes |
| CredentialInvariants.AlreadyExistsIffRepeat | blockchain/contracts/CredentialRegistry.sol:124-137 | an authorised record is refused as existing iff a stored credential repeats it at the same timestamp, or keccak256 collided |
| CredentialInvariants.RecordedIdIsHash | blockchain/contracts/CredentialRegistry.sol:126-132 | a credential's id is keccak256 of that encoding of caller, holder, hash, type and time |
| CredentialInvariants.RecordRefusals | blockchain/contracts/CredentialRegistry.sol:362-388 | exactly which error refuses a record, and that a refusal changes nothing |
| CredentialInvariants.ChangeRefusals | blockchain/contracts/CredentialRegistry.sol:173-221 | exactly which error refuses a status change, the status being looked at before the caller |
| CredentialInvariants.RecordKeepsInvariant | blockchain/contracts/CredentialRegistry.sol:139-163 | a record keeps keys, indexes, issuer standing and event log exact |
| CredentialInvariants.ChangeKeepsInvariant | blockchain/contracts/CredentialRegistry.sol:173-228 | every status change keeps them too: the replay rebuilds issuer, holder, type, accreditation and status, each event's old status is the replayed one and never Revoked |
| CredentialInvariants.ChangesAreAnnounced | blockchain/contracts/CredentialRegistry.sol:182-227 | in every reachable state each status update in the log stands right after one `CredentialRevoked`, `CredentialSuspended` or `CredentialReactivated` of that very change, in the name of the stored issuer, and these events stand nowhere else |
| RootAuthorities.EURootAuthority.AddMemberState | blockchain/contracts/EURootAuthority.sol:76-94 | the whole new storage and log, or the error and no change |
| RootAuthorities.EURootAuthority.RemoveMemberState | blockchain/contracts/EURootAuthority.sol:100-107 | likewise for a removal |
| RootAuthorities.EURootAuthority.UpdateMemberState | blockchain/contracts/EURootAuthority.sol:114-121 | likewise for an update |
| RootAuthorities.EURootAuthority.GetActiveMemberStateCount | blockchain/contracts/EURootAuthority.sol:153-161 | the loop counts the list positions that are active |
| RootAuthorities.CountIsNumberOfMemberStates | blockchain/contracts/EURootAuthority.sol:128-161 | that count is the number of addresses for which `isMemberState` holds |
| RootAuthorities.ExecuteKeepsList | blockchain/contracts/EURootAuthority.sol:76-121 | the list stays duplicate-free and lists exactly the flagged addresses |
| RootAuthorities.Refusals | blockchain/contracts/EURootAuthority.sol:76-116 | exactly which error refuses a call, and that a refusal changes nothing |
| TrustSystem.ReachableInvariant | blockchain/contracts/AccreditationRegistry.sol:23-32 | in every state reached by any calls of any callers: both indexes of both registries exact and in order of issue, flags exact, records under the hash of their own fields, every accreditation issued by the owner or by the subject of a stored parent one level up, event logs replaying to the storage, credentials under their issuer's own Institution accreditation, member list exact |
| TrustSystem.RunEvolves | blockchain/contracts/AccreditationRegistry.sol:130-184 | over any run no record disappears or changes but by becoming revoked, no credential but in its status and never out of Revoked |
| TrustSystem.ValidityNeverRegained | blockchain/contracts/AccreditationRegistry.sol:168-261 | over any two successive runs, an id valid at the start and invalid in between is invalid at the end |
| TrustSystem.FailureIsFinalIff | blockchain/contracts/AccreditationRegistry.sol:191-261 | in every reachable state, a stored id that fails validates at the end of some run iff it dangles, at some time to come, from the identifier an owner's MemberState for itself would take then; if it dangles from nothing now, failure is final |
| TrustChain.LateVerdictDangled | blockchain/contracts/AccreditationRegistry.sol:351-412 | a stored id that fails in one state and validates in a later one hung, in the first, by live endorsed records from an owner's Ministry whose missing parent has since been issued by the owner to itself |
| TrustChain.StateRepairs | blockchain/contracts/AccreditationRegistry.sol:191-261 | storing such a MemberState in the missing place makes everything that hangs from it valid |
| TrustSystem.FailureMayBeRepaired | blockchain/contracts/AccreditationRegistry.sol:359-372 | from every deployment, one issue reaches a state with a stored id that fails and a run that makes it valid: an owner's Ministry issued before its parent |
| TrustSystem.RevocationCascades | blockchain/contracts/AccreditationRegistry.sol:168-184 | after a revocation, in every later state, no id whose walk meets the revoked one validates and no credential under such an id is active |
| TrustSystem.RecordedUnderOwnInstitution | blockchain/contracts/CredentialRegistry.sol:362-374 | in every reachable state a credential's accreditation is a stored Institution record about its issuer |
| TrustSystem.CredentialRevocationIsFinal | blockchain/contracts/CredentialRegistry.sol:173-228 | a revoked credential is unchanged and inactive in every later state |
| TrustSystem.MayBecomeActiveIff | blockchain/contracts/CredentialRegistry.sol:214-244 | in every reachable state, a stored credential is active at the end of some run iff it is unrevoked, unexpired and its accreditation validates now; so a failed trust chain is final for it, and an inactive credential comes back only out of suspension |
| TrustSystem.ReportsStoredStatusIff | blockchain/contracts/CredentialRegistry.sol:250-294 | in every reachable state both readers report the stored status iff the credential has not expired |
| TrustSystem.RevokedMayReadExpired | blockchain/contracts/CredentialRegistry.sol:271-294 | from every deployment, a run to a revoked credential that reads as Expired |
| TrustSystem.RemovalIsFinal | blockchain/contracts/EURootAuthority.sol:80-107 | a removed member state is never a member again |
| Histories.RevokedIffAsked | blockchain/contracts/AccreditationRegistry.sol:168-184 | a stored record is revoked after a run iff it was before or its issuer or the owner asked for it during the run |
| Histories.CredentialRevokedIffAsked | blockchain/contracts/CredentialRegistry.sol:173-187 | a stored credential is revoked after a run iff it was before or its issuer asked for it during the run |
| Histories.MemberUnlessRemoved | blockchain/contracts/EURootAuthority.sol:100-130 | a listed state is a member after a run iff it was before and the owner has not removed it during the run |
| Histories.StatusDiagram | blockchain/contracts/CredentialRegistry.sol:173-228 | corollary, one step: the transition diagram of a credential's status, moved by its issuer alone |
| Histories.MembershipDiagram | blockchain/contracts/EURootAuthority.sol:76-130 | corollary, one step: the transition diagram of membership, moved by the owner alone |
| Histories.IssuedRecordKept | blockchain/contracts/AccreditationRegistry.sol:135-146 | whatever follows an issue, the stored record keeps issuer, subject, parent, scope, permissions, time and expiry of the request |
| Histories.NeverValidPastExpiry | blockchain/contracts/AccreditationRegistry.sol:195-197 | an issued id never validates after its expiry |
| Histories.ValidityEndsIff | blockchain/contracts/AccreditationRegistry.sol:168-261 | an id that validates does so at the end of a run iff neither its record nor any ancestor has expired or been revoked, at the request of its issuer or the owner, by then |
| Histories.MemberStateValidIff | blockchain/contracts/AccreditationRegistry.sol:191-206 | an issued parentless MemberState validates after any run iff it has not expired and nobody entitled asked to revoke it |
| Histories.RecordedCredentialKept | blockchain/contracts/CredentialRegistry.sol:140-151 | whatever follows a record, the stored credential keeps issuer, holder, hash, type, time, expiry and accreditation of the request |
| Histories.StatusAfterRun | blockchain/contracts/CredentialRegistry.sol:173-228 | the status after a run is Revoked if the issuer asked for that, else the issuer's last word on suspension |
| Histories.RecordedIsActiveIff | blockchain/contracts/CredentialRegistry.sol:235-244 | after any run a recorded credential is active iff its issuer has neither revoked it nor last left it suspended, it has not expired and its accreditation validates |
| Histories.AddedMember | blockchain/contracts/EURootAuthority.sol:76-121 | after any run an added state has the country and time of its addition, the document the owner gave last, and is a member iff not removed |
| Histories.LogsTellRun | blockchain/contracts/AccreditationRegistry.sol:153-183 | the logs of the three contracts are, in order and with nothing else, what the successful calls of a run announce: caller, block number or time, reason and all |
| WalletLookup.HasValidIffSomeRecord | blockchain/contracts/AccreditationRegistry.sol:269-289 | the index loop answers for every record of the registry |
| WalletLookup.GrantsIffValidBeforeExpiry | blockchain/contracts/AccreditationRegistry.sol:278-283 | a record grants a scope iff it has that scope and validates, save at the instant of expiry |
| WalletLookup.FindActive | DID.WalletThesis/src/mobile-wallet/src/services/accreditationLookupService.ts:95-114 | the scan ends at the first listed record that qualifies, or at one that cannot be read |
| WalletLookup.FindActiveInstitution | DID.WalletThesis/src/mobile-wallet/src/services/accreditationLookupService.ts:92-115 | that scan for Institution, nothing for no address |
| WalletLookup.FindActiveBusiness | DID.WalletThesis/src/mobile-wallet/src/services/accreditationLookupService.ts:121-177 | that scan for BusinessRegistry or Enterprise, an unreadable record counting as nothing found |
| WalletLookup.WalletAgreesWithContract | DID.WalletThesis/src/mobile-wallet/src/services/accreditationLookupService.ts:92-177 | on one snapshot: with the wallet's clock not behind, whatever is found makes `hasValidAccreditation` hold; with it not ahead, something is found whenever that holds, issued no later than any that grants the scope; within one second the two are equivalent; expiries are rounded to doubles |
| WalletLookup.VerifyAgreesWithContract | DID.WalletThesis/src/Services/DID.Accreditation/Application/Services/AccreditationService.cs:75-98 | a positive answer is always the contract's; on chain time the answers coincide and InvalidTrustChain means a live record without a path to the owner |
| WalletLookup.StandingIff | DID.WalletThesis/src/Services/DID.Accreditation/Application/Services/AccreditationService.cs:75-98 | exactly when each of the five answers is given |
| IssuanceTracking.FindIssuedAccreditationId | DID.WalletThesis/src/Services/DID.Accreditation/Application/Services/AccreditationService.cs:358-399 | the reverse scan returns the last listed id that matches |
| IssuanceTracking.CreatedIsFoundUnlessRepeated | DID.WalletThesis/src/Services/DID.Accreditation/Application/Services/AccreditationService.cs:358-399 | after an issue, or a record, in any reachable state and any further transactions, the scan returns the new id iff none of them successfully repeats the request (for credentials CredentialService.cs, lines 420-461) |
| IssuanceTracking.FindIssuedCredentialId | DID.WalletThesis/src/Services/DID.Credential/Application/Services/CredentialService.cs:420-461 | the reverse scan returns the last listed id that matches |
| IssuanceTracking.PushMovesScan | DID.WalletThesis/src/Services/DID.Accreditation/Application/Services/AccreditationService.cs:358-399 | pushing a new id moves a reverse scan iff the id matches, whatever the list |
| JsText.EncodeThenUnescape | DID.WalletThesis/src/mobile-wallet/src/types/presentation.ts:4 | `unescape(encodeURIComponent(s))` is the UTF-8 of s, one unit per byte; it throws on a lone surrogate only |
| JsText.EscapeThenDecode | DID.WalletThesis/src/mobile-wallet/src/types/presentation.ts:13 | `decodeURIComponent(escape(b))` recovers the string whose UTF-8 b is |
| JsText.DecodesIffUtf8 | DID.WalletThesis/src/mobile-wallet/src/types/presentation.ts:13 | `decodeURIComponent(escape(b))` is s iff b is the UTF-8 of s; malformed, overlong and surrogate forms throw |
| JsText.UnescapeEscape | DID.WalletThesis/src/mobile-wallet/src/types/presentation.ts:4-13 | `unescape` undoes `escape` for every string of UTF-16 units |
| JsText.EscapeForms | DID.WalletThesis/src/mobile-wallet/src/types/presentation.ts:4-13 | which characters `escape` and `encodeURIComponent` leave alone, and the forms of the others |
| JsText.Utf8RoundTrip | DID.WalletThesis/src/mobile-wallet/src/types/presentation.ts:13 | every multi-byte UTF-8 form announces its length and decodes to its scalar value (RFC 3629, section 3) |
| JsText.Utf8Layout | DID.WalletThesis/src/mobile-wallet/src/types/presentation.ts:4 | the bit patterns of the four UTF-8 forms (RFC 3629, section 3) |
| Presentation.Base64urlRoundTrip | DID.WalletThesis/src/mobile-wallet/src/types/presentation.ts:3-14 | for every string of UTF-16 units, encoding succeeds iff there is no lone surrogate, and decoding then gives the string back |
| Presentation.Base64urlShape | DID.WalletThesis/src/mobile-wallet/src/types/presentation.ts:5-7 | URL-safe characters only, ceil(4n/3) of them for n bytes of UTF-8, never one more than whole groups |
| Presentation.Base64urlCharacters | DID.WalletThesis/src/mobile-wallet/src/types/presentation.ts:3-8 | character i is the entry of the URL-safe table (RFC 4648, section 5) for bits 6i to 6i+5 of the UTF-8 bytes, zero-filled |
| Presentation.FromBase64urlIff | DID.WalletThesis/src/mobile-wallet/src/types/presentation.ts:10-14 | for every input: decoding gives a string iff the payload is digits spelling whole bytes and encoding that string gives the payload back, unused bits apart |
| Presentation.PayloadOfPlain | DID.WalletThesis/src/mobile-wallet/src/types/presentation.ts:10-13 | URL-safe text is its own payload unless its length is 1 mod 4, when nothing decodes |
| Presentation.RemoveFirstRemoves | DID.WalletThesis/src/mobile-wallet/src/types/presentation.ts:73 | the first occurrence of the scheme goes, wherever it is |
| Presentation.PaddingIsUnique | DID.WalletThesis/src/mobile-wallet/src/types/presentation.ts:12 | exactly one padding completes a length, the one restored |
| Presentation.PresentationRoundTrip | DID.WalletThesis/src/mobile-wallet/src/types/presentation.ts:66-76 | an encoded request is `eudi-pres://` and the encoded text; decoding recovers the JSON text, with or without the scheme |
| Presentation.PublishedVectors | DID.WalletThesis/src/mobile-wallet/src/types/presentation.ts:3-8 | values published in RFC 4648 and RFC 3629 |
| EventPolling.SubscribeToEvent | DID.WalletThesis/src/Shared/DID.Shared.Infrastructure/Blockchain/BlockchainService.cs:86-143 | the loop computes `Turns`, for any tips, logs, RPC failures, handler failures and cancellation |
| EventPolling.ExactlyOnce | DID.WalletThesis/src/Shared/DID.Shared.Infrastructure/Blockchain/BlockchainService.cs:94-128 | without handler failures, after each answered poll the handled logs are all logs from the start block to what the poll read, each once, in order |
| EventPolling.AtMostOnce | DID.WalletThesis/src/Shared/DID.Shared.Infrastructure/Blockchain/BlockchainService.cs:116-139 | whatever fails, no log is handled twice or out of order and the cursor never moves back |
| EventPolling.CompleteIff | DID.WalletThesis/src/Shared/DID.Shared.Infrastructure/Blockchain/BlockchainService.cs:116-139 | no log behind the cursor is lost iff no handler fails on a log whose predecessor in the same block was handled |
| EventPolling.MidBlockFailureLosesLog | DID.WalletThesis/src/Shared/DID.Shared.Infrastructure/Blockchain/BlockchainService.cs:123-125 | wherever two neighbouring logs share a block, one failure, on the second, puts it behind the cursor unhandled, and no later polls handle it |
| EventPolling.LossFreeIff | DID.WalletThesis/src/Shared/DID.Shared.Infrastructure/Blockchain/BlockchainService.cs:94-140 | nothing behind the cursor is ever lost, under every pattern of polls, failures and cancellation, iff no two logs from the start block on share a block |
| EventPolling.StoppedIffCancelled | DID.WalletThesis/src/Shared/DID.Shared.Infrastructure/Blockchain/BlockchainService.cs:130-138 | a subscription ends iff a handler was cancelled, and by no other failure |
| EventPolling.CancelledHandlesNoMore | DID.WalletThesis/src/Shared/DID.Shared.Infrastructure/Blockchain/BlockchainService.cs:130-133 | after a cancellation no later poll handles anything |
| EventPolling.FaultFreePollCatchesUp | DID.WalletThesis/src/Shared/DID.Shared.Infrastructure/Blockchain/BlockchainService.cs:94-128 | whatever threw before, an answered poll without faults, its tip not behind the cursor, handles every log from the cursor to what it reads, unless a handler was cancelled |
| EventPolling.FailedLogIsRetried | DID.WalletThesis/src/Shared/DID.Shared.Infrastructure/Blockchain/BlockchainService.cs:134-139 | a log whose handler threw, none before it in its block having been handled in that turn, is handled by the next such poll |
| EventPolling.PositionsSelect | DID.WalletThesis/src/Shared/DID.Shared.Infrastructure/Blockchain/BlockchainService.cs:113-114 | the filter selects the logs of the block interval and no others, in order |
| PinThrottle.PinService.SetupPin | DID.WalletThesis/src/mobile-wallet/src/services/pinService.ts:66-79 | the new store, or refusal of a malformed PIN and no change |
| PinThrottle.PinService.VerifyPin | DID.WalletThesis/src/mobile-wallet/src/services/pinService.ts:81-124 | the new store and the verdict, with the clock read on entry and when locking |
| PinThrottle.PinService.ClearPin | DID.WalletThesis/src/mobile-wallet/src/services/pinService.ts:144-150 | every entry is gone |
| PinThrottle.SetupThenVerify | DID.WalletThesis/src/mobile-wallet/src/services/pinService.ts:66-124 | after a set-up and any attempts, an attempt is accepted iff no lock holds and its PIN derives the same hash, and acceptance restores the store of the set-up |
| PinThrottle.SetupRefusedUnlessSixDigits | DID.WalletThesis/src/mobile-wallet/src/services/pinService.ts:66-79 | a set-up succeeds iff the PIN is six decimal digits, else changes nothing; set-up and clearing start with no failures and no lock |
| PinThrottle.VerdictIff | DID.WalletThesis/src/mobile-wallet/src/services/pinService.ts:81-113 | exactly when each verdict other than a mismatch is given, and what it leaves in the store |
| PinThrottle.StatusReports | DID.WalletThesis/src/mobile-wallet/src/services/pinService.ts:126-142 | the status reported, field by field |
| PinThrottle.LockedAfterFailureIff | DID.WalletThesis/src/mobile-wallet/src/services/pinService.ts:110-140 | a failure locks for exactly the cooldown iff it is the fifth to the ninth; the offer to wipe starts at the tenth; hash, salt and algorithm stay |
| PinThrottle.ThrottleBound | DID.WalletThesis/src/mobile-wallet/src/services/pinService.ts:81-142 | over any serial run without acceptance, the failure number k, six to ten, finishes at least k - 5 cooldowns after the fifth |
| PinThrottle.LockedAttemptsChangeNothing | DID.WalletThesis/src/mobile-wallet/src/services/pinService.ts:82-86 | any number of locked attempts leaves the store as it was |
| ZkpBridge.Bridge.SendRequest | DID.WalletThesis/src/mobile-wallet/src/services/zkpBridge.ts:38-57 | the whole new state: injected if ready, else queued last; pending and rejected if the injection throws |
| ZkpBridge.Bridge.RegisterInjector | DID.WalletThesis/src/mobile-wallet/src/services/zkpBridge.ts:10-15 | the whole new state: the queue injected in order and emptied, or, when an injection throws, injected up to there and kept |
| ZkpBridge.Bridge.UnregisterInjector | DID.WalletThesis/src/mobile-wallet/src/services/zkpBridge.ts:17-20 | the whole new state |
| ZkpBridge.Bridge.Receive | DID.WalletThesis/src/mobile-wallet/src/services/zkpBridge.ts:22-36 | the whole new state: the request with that id settled, or no change |
| ZkpBridge.ThrowInjectsNothing | DID.WalletThesis/src/mobile-wallet/src/services/zkpBridge.ts:40-49 | a request whose injection throws is not among those injected |
| ZkpBridge.ConservedIffNoneThrows | DID.WalletThesis/src/mobile-wallet/src/services/zkpBridge.ts:10-57 | over every interleaving, each request sent is at every moment in exactly one of queued, pending, settled iff no injection throws |
| ZkpBridge.InjectedInSendOrder | DID.WalletThesis/src/mobile-wallet/src/services/zkpBridge.ts:38-57 | while no injection throws, injection follows the order of sending and ids are never reused |
| ZkpBridge.RegisteredInjectsAll | DID.WalletThesis/src/mobile-wallet/src/services/zkpBridge.ts:10-15 | while a web view is registered and nothing throws, all requests sent have been injected and none waits |
| ZkpBridge.UnregisteredQueues | DID.WalletThesis/src/mobile-wallet/src/services/zkpBridge.ts:17-20 | from an unregistration to the next registration every request queues behind those waiting and none is injected |
| ZkpBridge.SettledOnceByOwnMessage | DID.WalletThesis/src/mobile-wallet/src/services/zkpBridge.ts:22-36 | while nothing has thrown, a call changes no outcome but that of the pending request whose id a message carries, resolved or rejected as it says, or of the request whose own sending throws |
| ZkpBridge.OutcomesAreFinal | DID.WalletThesis/src/mobile-wallet/src/services/zkpBridge.ts:38-57 | over every interleaving, throwing or not, an outcome never changes and is never "not registered" |
| ZkpBridge.DecimalInjective | DID.WalletThesis/src/mobile-wallet/src/services/zkpBridge.ts:45 | `String` of different counters gives different ids |
| ZkpBridge.DecimalIsDecimal | DID.WalletThesis/src/mobile-wallet/src/services/zkpBridge.ts:45 | `String` of a counter is its decimal text |

## Left out

- WalletLookup.WalletAgreesWithContract: the wallet's clock divided by 1000 is taken exactly, and is below 2^53 seconds, as a JavaScript date is.
- WalletLookup.FindActiveBusiness: one method for the two TypeScript methods, which differ in the scope only.
- IssuanceTracking.FindIssuedAccreditationId: addresses are numbers, so the case-insensitive text comparison is plain equality; the event-log shortcut taken before the scan is not modelled.
- EventPolling.SubscribeToEvent: an infinite loop is modelled for any finite number of turns; delays and log messages have no effect on the state.
- PinThrottle.PinService.VerifyPin: the two numbers of the store are numbers, not their decimal text.
- ZkpBridge.Bridge.SendRequest: a request is its place in the order of calls; its payload is kept only as whether injecting it throws, and an injected function that calls back into the bridge is excluded.
- The getters of the contracts, the immutable anchors of the root authority and `AccreditationUpdated`, which is never emitted: plain reads and constants.
- JSON printing and parsing: the codec theorems are about the text between them.
- keccak256, Argon2, signatures and proofs: parameters or not part of this model.
- Gas, `uint256` overflow of timestamps and call-data decoding.
- Database rows of the services: they store fields the client supplied and events may arrive in any order, so no two-way agreement with the chain holds.
- ZkpVerifierRegistry, enterprise requests, DID and address normalisation, user interface, endpoints, messaging and deployment: tables, guards and plumbing that would add only easy members.
