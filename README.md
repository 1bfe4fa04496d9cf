# Certificate registry

A model of the on-chain certificate registry that the backend's truffle
suite `test/CertificateRepository.js` drives. Certificates are identified by
the checksum of the certificate file. Each record holds:

- the recipient's name and surname;
- the issue date (the block timestamp of the adding call);
- an expiry date `daysValid` days later;
- the issuing account.

The deploying account is the owner and may always issue certificates. The
owner can make other accounts trusted issuers and remove them again. A
record may be revoked only by the account that issued it. Revocation is a
hard delete: afterwards the checksum is unknown and may be issued again.
Listings return the live records in the order they were added, and a
revocation anywhere in the list leaves the others in that order.

The registry's Solidity source (`CertificateRegistry.sol`) is not part of
this model. Its behaviour is reconstructed from the suite's calls and
assertions: the revert messages, the owner's implicit trust, the 86400
seconds per day of validity, the absent record with an empty checksum, and
the insertion order of the listings after adds. The suite only revokes the
last record before it reads a listing (line 215), so it cannot tell an
order-keeping delete from one that moves the last record into the gap. That
survivors keep their order after a revocation in the middle of the list
(`Ledger.WithoutAt`, `Registry.CertificateRegistry.Invalidate`) follows the
registry's design, not the suite.

The model has these modules:

- `Certificates` (`certificates.dfy`) holds the values: addresses as 160-bit
  integers, recipients, certificate records, the absent record, and the
  errors with their revert messages.
- `Ledger` (`ledger.dfy`) treats the live records as a sequence in insertion
  order. It defines lookup, hard delete and the issuer filter as functions,
  together with their lemmas.
- `RegistrySpec` (`registry_spec.dfy`) is the registry as a state machine
  over values. Each state-changing call is a function from the old state to
  the new state or to the error it reverts with, and the lemmas state what
  holds across calls.
- `Registry` (`registry.dfy`) is the registry as an object. The class
  `CertificateRegistry` keeps a list of checksums in insertion order and a
  map from checksum to record, and updates them in place. Each method is
  proved to move the abstract state (`Model()`) exactly as the matching
  `RegistrySpec` function does, and to leave the object unchanged when it
  reverts. `getAllCertificates` and `getCertificatesIssuedBy` are loops over
  the list. `invalidate` finds the position by a scan and closes the gap it
  leaves.
- `Scenarios` (`scenarios.dfy`) replays each case of the suite against a
  fresh registry object. The case's assertions are the method's
  postconditions. The suite runs every case against one shared deployment,
  and each case invalidates what it added. Where a case depends on what an
  earlier case did (checksum13 is issued again after its revocation), the
  method replays that history first. For the longer cases a lemma replays the
  same calls on `RegistrySpec` states, and the method builds on it.

`addCertificate` checks its rules in a fixed order, and the first broken rule
decides the error:

1. the caller is a trusted issuer;
2. the checksum is not empty;
3. the checksum is not already present;
4. the name is not empty;
5. the surname is not empty;
6. `daysValid` is at least 1.

Every case in the suite breaks at most one rule, so it does not determine
this order. `invalidate` first checks that the record exists and then that
the caller is its issuer. The case at lines 190-200 requires "Certificate
does not exist!" when the owner invalidates a missing checksum. In the model
every caller gets that error for a missing checksum; the suite makes that
call only as the owner.

The block timestamp is a parameter (`now`) of every adding call, and in the
scenarios each add of a case has its own timestamp. The calling account is a
parameter (`caller`) of `addCertificate` and `invalidate`.

## Model

| member | source | states |
|---|---|---|
| Certificates.Message | test/CertificateRepository.js:21-25 | the revert string of each error, as the suite's failing calls match them (lines 24, 36, 49, 60, 71, 82, 184, 198); its contract is carried by `Certificates.MessagesDistinct` |
| Certificates.MessagesDistinct | test/CertificateRepository.js:21-25 | different errors revert with different messages |
| Ledger.Checksums | test/CertificateRepository.js:217-235 | the `getChecksums` listing has one entry per record and holds exactly the records' checksums; `Ledger.ContainsIffListed` and `Ledger.ChecksumsRemoveAt` relate it to storage and deletion |
| Ledger.Lookup | test/CertificateRepository.js:157-163 | a stored checksum resolves to a stored record carrying it; a missing one resolves to the absent record |
| Ledger.Without | test/CertificateRepository.js:155-171 | the hard delete keeps exactly the records with other checksums, and the deleted checksum is gone |
| Ledger.IssuedBy | test/CertificateRepository.js:254-266 | the filter keeps exactly the records of the given issuer |
| Ledger.ContainsIffListed | test/CertificateRepository.js:165-171 | a checksum is stored if and only if it appears in the checksum listing |
| Ledger.ContainsIffMember | test/CertificateRepository.js:148-153 | a checksum is stored if and only if some stored record carries it |
| Ledger.ContainsAppend | test/CertificateRepository.js:28-37 | a checksum is in a joined sequence if and only if it is in one of the parts |
| Ledger.UniqueAppend | test/CertificateRepository.js:28-37 | two parts join without duplicate checksums if and only if each part is duplicate-free and they share no checksum |
| Ledger.UniqueSame | test/CertificateRepository.js:93-118 | when checksums are unique, a checksum identifies one record |
| Ledger.LookupMember | test/CertificateRepository.js:93-118 | when checksums are unique, looking up a record's checksum returns that record |
| Ledger.WithoutAppend | test/CertificateRepository.js:215-235 | deletion never reorders the surviving records |
| Ledger.WithoutMissing | test/CertificateRepository.js:155 | a step of the hard delete: deleting a checksum the records do not hold changes nothing, which `Ledger.WithoutAt` and `RegistrySpec.AddThenInvalidate` use |
| Ledger.ChecksumsRemoveAt | test/CertificateRepository.js:215-235 | splicing a record out of the records splices its checksum out of the listing at the same position |
| Ledger.WithoutAt | test/CertificateRepository.js:215-235 | deleting a stored checksum removes exactly the record at its position |
| Ledger.WithoutUnique | test/CertificateRepository.js:155-171 | deletion keeps checksums unique |
| Ledger.WithoutLookup | test/CertificateRepository.js:215 | a step of the hard delete: deleting one checksum leaves the lookup of every other checksum as it was, which `RegistrySpec.InvalidateDeletes` uses |
| Ledger.LookupAppend | test/CertificateRepository.js:86-121 | appending a fresh record makes its checksum resolve to it and leaves other lookups alone |
| Ledger.IssuedByAppend | test/CertificateRepository.js:242-266 | the issuer filter keeps the relative insertion order |
| RegistrySpec.IsTrustedIssuer | test/CertificateRepository.js:6-26 | the owner is always a trusted issuer without being added; lines 123-138 give the rest through `RegistrySpec.TrustedIssuerRoundTrip` |
| RegistrySpec.Issued | test/CertificateRepository.js:86-121 | the stored record carries the checksum, the caller as issuer, the block time as issue date and an expiry `daysValid` × 86400 seconds later; it is well formed exactly when the add's field rules hold |
| RegistrySpec.AddCertificate | test/CertificateRepository.js:6-121 | the add as a state transition; its contract is carried by `RegistrySpec.AddCertificateRules` (the six rules, their order, if and only if) and `RegistrySpec.AddCertificateStores` (what is stored and listed) |
| RegistrySpec.Invalidate | test/CertificateRepository.js:141-200 | the existence check, then the issuer check, then the hard delete; its contract is carried by `RegistrySpec.InvalidateOnlyByIssuer` and `RegistrySpec.InvalidateDeletes` |
| RegistrySpec.Init | test/CertificateRepository.js:6-15 | a fresh deployment is valid and empty, and only the owner is a trusted issuer |
| RegistrySpec.AddTrustedIssuer | test/CertificateRepository.js:129-132 | the account becomes a trusted issuer; every other account and the records stay as they were |
| RegistrySpec.RemoveTrustedIssuer | test/CertificateRepository.js:134-137 | the account stops being a trusted issuer unless it is the owner; every other account and the records stay as they were |
| RegistrySpec.AddCertificateRules | test/CertificateRepository.js:6-84 | an add passes if and only if all six rules hold; otherwise its error is the first broken rule in the fixed order |
| RegistrySpec.AddCertificateStores | test/CertificateRepository.js:86-121 | a passing add stores name, surname, checksum, issuer = caller and expiry = issue date + days × 86400, appends the checksum to the listing, and leaves other lookups and the trusted set alone |
| RegistrySpec.AddCertificateAppends | test/CertificateRepository.js:6-15 | an add that breaks no rule passes, keeps the invariant and appends the issued record |
| RegistrySpec.AddCertificateKeepsValid | test/CertificateRepository.js:28-40 | adding keeps checksums unique and records well formed |
| RegistrySpec.AddCertificateTwice | test/CertificateRepository.js:28-40 | after a checksum is added, adding it again reverts with "Certificate already present!" for any trusted issuer |
| RegistrySpec.InvalidateOnlyByIssuer | test/CertificateRepository.js:174-200 | invalidate passes if and only if a record with the checksum exists and the caller issued it; otherwise it reports the missing record or the wrong issuer |
| RegistrySpec.InvalidateDeletes | test/CertificateRepository.js:141-172 | after an invalidate the lookup returns the empty-checksum record and the listing drops the checksum; the other records keep their order and lookups, and the invariant holds |
| RegistrySpec.InvalidateUnlists | test/CertificateRepository.js:215-238 | the issuer's invalidate of the record at a position passes and removes exactly that entry from the records and the listing |
| RegistrySpec.InvalidateAt | test/CertificateRepository.js:155 | the issuer's invalidate of the record at a position passes and leaves the records with exactly that one spliced out |
| RegistrySpec.RemoveAtKeepsValid | test/CertificateRepository.js:155 | splicing one record out keeps checksums unique and records well formed |
| RegistrySpec.AddThenInvalidate | test/CertificateRepository.js:6-15 | invalidation undoes addition: the issuer's invalidate of a checksum it has just added returns the registry to the state before the add |
| RegistrySpec.ReissueAfterInvalidate | test/CertificateRepository.js:214-215 | an invalidated checksum can be issued again by any trusted issuer |
| RegistrySpec.ListedIffFound | test/CertificateRepository.js:148-171 | a checksum is listed if and only if it is non-empty and its lookup returns a record carrying it |
| RegistrySpec.AddTrustedIssuerIdempotent | test/CertificateRepository.js:209-248 | trusting an account already in the trusted set leaves the state unchanged; trusting any trusted issuer, the owner included, leaves every account's trust unchanged; two trusts in a row equal one |
| RegistrySpec.TrustedIssuerRoundTrip | test/CertificateRepository.js:123-138 | trusting and then distrusting a non-owner makes it trusted in between and untrusted after, and restores the state if it was untrusted before |
| Registry.ContainsCollect | test/CertificateRepository.js:28-40 | the map holds a checksum if and only if the abstract records contain it |
| Registry.LookupCollect | test/CertificateRepository.js:93-118 | reading the map agrees with looking up the abstract records |
| Registry.CollectAdd | test/CertificateRepository.js:91 | writing a fresh key and appending it to the list appends the record to the abstract records |
| Registry.CollectRemove | test/CertificateRepository.js:155 | removing a list position and its map key is the hard delete on the abstract records |
| Registry.CertificateRegistry.constructor | test/CertificateRepository.js:9 | the new registry stands for the initial state of its owner |
| Registry.CertificateRegistry.IsTrustedIssuer | test/CertificateRepository.js:126-137 | the answer is trust in the abstract state |
| Registry.CertificateRegistry.AddTrustedIssuer | test/CertificateRepository.js:129 | the object moves to the abstract state AddTrustedIssuer gives |
| Registry.CertificateRegistry.RemoveTrustedIssuer | test/CertificateRepository.js:134 | the object moves to the abstract state RemoveTrustedIssuer gives |
| Registry.CertificateRegistry.AddCertificate | test/CertificateRepository.js:6-121 | passes and moves to the abstract AddCertificate state, or reverts with its error and leaves the object unchanged |
| Registry.CertificateRegistry.Invalidate | test/CertificateRepository.js:141-200 | passes and moves to the abstract Invalidate state, or reverts with its error and leaves the object unchanged |
| Registry.CertificateRegistry.GetCertificate | test/CertificateRepository.js:93-118 | returns the lookup of the checksum in the abstract records |
| Registry.CertificateRegistry.GetChecksums | test/CertificateRepository.js:165-171 | returns the checksums of the abstract records, in insertion order |
| Registry.CertificateRegistry.GetAllCertificates | test/CertificateRepository.js:284-302 | returns the abstract records themselves, in insertion order, with the same checksums GetChecksums lists |
| Registry.CertificateRegistry.GetCertificatesIssuedBy | test/CertificateRepository.js:254-266 | returns the issuer filter of the abstract records: exactly the issuer's live records, in insertion order |
| Scenarios.AddAsOwner | test/CertificateRepository.js:6-15 | the owner adds without being made a trusted issuer, then revokes |
| Scenarios.AddAsUntrusted | test/CertificateRepository.js:17-26 | an untrusted caller gets "You are not a trusted issuer!" and nothing is stored |
| Scenarios.AddTwice | test/CertificateRepository.js:28-40 | the second add of a checksum gets "Certificate already present!" |
| Scenarios.AddEmptyChecksum | test/CertificateRepository.js:42-51 | an empty checksum gets "File checksum must not be empty!" and nothing is stored |
| Scenarios.AddEmptyName | test/CertificateRepository.js:53-62 | an empty name gets "Recipient name must not be empty!" and nothing is stored |
| Scenarios.AddEmptySurname | test/CertificateRepository.js:64-73 | an empty surname gets "Recipient surname must not be empty!" and nothing is stored |
| Scenarios.AddZeroDays | test/CertificateRepository.js:75-84 | zero days gets "Contract must be valid for at least 1 day!" and nothing is stored |
| Scenarios.AddAndRead | test/CertificateRepository.js:86-121 | the record read back has the given name, surname and checksum, the caller as issuer, and expiry one day after issue |
| Scenarios.TrustAndDistrust | test/CertificateRepository.js:123-138 | isTrustedIssuer is false, then true after adding, then false after removing |
| Scenarios.InvalidateAndRead | test/CertificateRepository.js:141-172 | after invalidate the lookup has an empty checksum and the listing is empty |
| Scenarios.InvalidateAsOther | test/CertificateRepository.js:174-188 | a non-issuer gets "You must be contract's issuer!", the record survives, and the issuer's invalidate passes |
| Scenarios.InvalidateMissing | test/CertificateRepository.js:190-200 | invalidating an unknown checksum gets "Certificate does not exist!" |
| Scenarios.ReturnAllChecksumsAdds | test/CertificateRepository.js:209-214 | on abstract states the three adds by two issuers pass and leave the three records in the order they were added |
| Scenarios.ReturnAllChecksumsRevokeLast | test/CertificateRepository.js:215-235 | invalidating the last of the three leaves checksum11 and checksum12 in order, and the invariant holds |
| Scenarios.ReturnAllChecksumsCleanup | test/CertificateRepository.js:237-238 | each issuer's invalidate of its own record passes, and no record is left |
| Scenarios.ReturnAllChecksumsReplay | test/CertificateRepository.js:202-240 | on abstract states every call of the case passes, the listing after the revocation is checksum11, checksum12, and no record is left at the end |
| Scenarios.ReturnAllChecksums | test/CertificateRepository.js:202-240 | the listing after revoking checksum13 is exactly checksum11, checksum12, and both cleanups pass |
| Scenarios.IssuedByReplay | test/CertificateRepository.js:211-270 | on abstract states checksum13 is issued again after its revocation, trusting accounts[1] again at line 248 leaves the state unchanged, the owner's filter holds only checksum13, and no record is left at the end |
| Scenarios.CertificatesIssuedBy | test/CertificateRepository.js:242-270 | after the reissue the owner's records are exactly one, checksum13, and both cleanups pass |
| Scenarios.AllCertificatesReplay | test/CertificateRepository.js:272-306 | on abstract states both adds pass, the records are checksum15, checksum16 in that order, both cleanups pass, and no record is left |
| Scenarios.AllCertificates | test/CertificateRepository.js:272-306 | getAllCertificates returns two records, checksum15 then checksum16, and both cleanups pass |

## Left out

- The registry's Solidity source is not part of this model. Behaviour the suite does not exercise is not modelled: admin roles, extra certificate fields such as an e-mail, a certificate name or the issuer's name, and bulk upload.
- Who may call `addTrustedIssuer` and `removeTrustedIssuer`: the suite calls them only as the owner, so the model takes no caller for them and applies no access check.
- RegistrySpec.RemoveTrustedIssuer: removing the owner passes and leaves the owner a trusted issuer. The registry's design has this call revert with "cannot remove contract owner or yourself" when the target is the owner. That revert is not modelled, because the suite never makes the call and so never shows its exact revert string. `Registry.CertificateRegistry.RemoveTrustedIssuer` follows it and reports no outcome.
- 256-bit arithmetic: `issueDate + daysValid * 86400` is unbounded here, and the overflow of a huge `daysValid` is not modelled.
- Block time and the calling account come in as parameters (`now`, `caller`). Gas, events and transaction mechanics are not modelled.
- The absent record is modelled as the all-zero record. The suite only observes that its checksum is empty.
- The suite's asynchronous plumbing is not modelled, including the add at line 32 that is not awaited. `Scenarios.AddTwice` takes that add as completed before the second add.
- The Kotlin backend (`CertificateService.kt`, `CsvParser.kt`, `CertificateController.kt`, `SecurityConfig.kt` and the data classes) is not modelled. It consists of PDF rendering, an HTML template, file writes, MD5 hashing through a library, the wall clock, CSV parsing through a library, HTTP endpoints and security configuration.
- Scenarios: each case runs against its own fresh registry rather than the one shared deployment. Every case cleans up after itself. For a single add followed by its issuer's invalidate, `RegistrySpec.AddThenInvalidate` proves that the state before the add comes back. The replay lemmas of the longer cases end with no record left. So the only history carried between cases is the trusted status of accounts[1] and the revoked checksum13, and `Scenarios.CertificatesIssuedBy` replays both.
