# TrustBridge registry: a verified model

This project models the storage engine of the TrustBridge contract, a registry
from GitHub usernames to Stellar addresses, and the proof formats built on it,
in Dafny. `dafny verify dfyconfig.toml` checks all of it.

What is modelled, by module:

- `RegistryState`, `RegistryStore` hold the registry's slots (flat index, paged
  index, counters, index generation, records, verification times). The first
  says what each call does to the slots as a value; the second is the class
  whose methods overwrite the slots with the source's loops, each proved to end
  where the first says.
- `ChunkedIndex` is the paged username index; `RegistryConsistency` is the
  invariant that ties the redundant slots together; `RegistryExactness`,
  `RegistryEffects` and `RegistryExamples` say what single calls promise, when
  exactly, and on which inputs a documented promise fails; `RegistryOutcomes`,
  `CounterLaws` and `CounterRepair` say what is read after each call, how the
  counters move, and what a repair brings back; `RegistryRuns` is
  every interleaving of the calls that write the slots, and
  `VerificationHistory` the ever-verified counter over such runs.
- `PageReaders`, `PageContents`, `PageGuarantees` are the two paginated exports,
  their shared cursor, and what a page carries. `PageWalks` is walks that resume
  across a changing registry, `HoleyWalks` the same when records are missing for
  listed names, and `StillWalks` walks whose counter disagrees with the index, as
  after a repair.
- `BatchVerification` is the two-pass batch, `BatchRemoval` the batch that counts
  its removals at the end.
- `MerkleTree`, `MerkleProofs`, `ExportLeaves` are the export tree, its
  inclusion proofs, and the leaf layout. Hashing is ideal: a hash is the term
  that was hashed, with one constructor for each hash domain.
- `UpgradeGovernance`, `VerifierAllowlist`, `VerifierAllowlistRuns`,
  `VerifyRateLimits` are the time- and quorum-governed state machines, each
  compared over whole runs with an ideal that keeps everything.
- `Usernames`, `ReservedNames`, `OwnershipMessages` are canonical names, the
  reserved list and the oracle's signed message. `MachineWords`, `ByteStrings`,
  `Utf8`, `Cardinality` and `NameKeys` hold machine integers, byte strings, text,
  finite sets and sets of canonical names.

A call's outcome is a `Result`. An error leaves every slot as it was, because
the host rolls a failed invocation back. `HostTrap` is an aborted invocation (a
full host vector, or an overflow of the page count: the release profile checks
overflows). Authorization, the pause flag, cooldowns, an open challenge, an armed
rotation delay and the reserved list only decide whether a registry call is
admitted; the model starts at an admitted call. A pending rotation and a pending
challenge are parameters of the call that carries them out. Clocks and ledger
numbers are parameters.

Where code and documentation disagree the model follows the code:

- `rename` is commented as safe for case-only changes, and its "taken" test looks
  the new name up as spelt; the record key is canonical. A rename keeps the
  registry consistent exactly when the new canonical key was free.
- `get_ever_verified_count` is documented as never falling. From a consistent
  registry that holds over all runs exactly when the counter is already stored or
  nobody is verified. It is documented as counting verifications: once stored it
  counts every one, and unstored it counts the first single one twice.
- A complete export is documented as visiting every live username once. After an
  applied repair that holds for every public walk exactly when no hole is listed
  before the next-to-last live name.
- `BatchSummary.successful` of a batch verification counts spellings; it is the
  number of records exactly when no two different names in the request, both with
  something to do, are case variants.
- `repair_index` is documented as walking the chunked index; it walks the flat one.
- `require_proposal_executable` is documented as checking that the executor
  approved; it takes no caller and checks no such thing.
- An approval past the twentieth signer is accepted and not recorded.

## Model

| member | source | states |
|---|---|---|
| MachineWords.ToBigEndian | src/storage.rs:1024-1030 | the four cursor bytes decode to the number they encode |
| Usernames.IsValidGithubUsername | src/utils.rs:109-150 | the byte loop decides exactly GitHub's rules over the whole string, for every byte string |
| Usernames.ValidNamesExactly | src/utils.rs:100-150 | those rules by the characters themselves: length, alphabet, ends, no two hyphens in a row |
| Utf8.Utf8Exactly | src/utils.rs:211-218 | the text check of the folding accepts exactly the encodings of sequences of Unicode scalar values |
| Usernames.CanonicalizeUsername | src/utils.rs:202-219 | the buffer fold yields the canonical key, names past 64 bytes and non-UTF-8 strings unchanged |
| Usernames.EqIgnoreAsciiCase | src/utils.rs:158-179 | the comparison is equality after ASCII folding, for names that fit the buffer |
| Usernames.LowerKeepsUtf8 | src/utils.rs:189-218 | ASCII folding never makes or breaks UTF-8, so the fallback branch is reached only by strings that were not text |
| Usernames.CanonIdempotent | src/utils.rs:202-219 | folding twice is folding once, on every byte string |
| Usernames.CanonOfValid | src/utils.rs:109-219 | a valid name folds to a valid name of the same length |
| Usernames.CanonFoldsLetters | src/utils.rs:189-215 | the key of a text of at most 64 bytes has no upper-case letter: each is replaced by its lower case, every other byte is kept |
| Usernames.CanonKeepsOthers | src/utils.rs:198-218 | longer strings, and strings that are not text, are their own key |
| Usernames.SameKeyExactly | src/utils.rs:181-219 | two such texts share a key exactly when they differ at most in the case of letters |
| Usernames.EqIgnoreCaseIsCanonEquality | src/utils.rs:152-219 | on text, the comparison is equality of storage keys exactly up to 64 bytes |
| Usernames.LongNamesMatchNothing | src/utils.rs:168-173 | a name longer than the buffer does not even match itself, and every shorter one does |
| Usernames.EqIgnoreCaseAgainstValid | src/utils.rs:158-179 | against a valid name the comparison is key equality for any byte string |
| ReservedNames.ReservedList.IsReserved | src/storage.rs:2337-2345 | membership is membership of the canonical key in a set |
| ReservedNames.ReservedList.AddToReserved | src/storage.rs:2354-2365 | adds one key; already-reserved and full are refused exactly when the key is present, or absent with 200 keys |
| ReservedNames.ReservedList.RemoveFromReserved | src/storage.rs:2372-2388 | removes one key, refused exactly when it is absent; the list stays distinct up to case |
| NameKeys.KeyCountExactly | src/storage.rs:2354-2365 | a list has as many keys as entries exactly when no two entries are case variants, so a cap on distinct entries is a cap on keys |
| OwnershipMessages.OwnershipMessage | src/oracle_proof.rs:133-158 | the appended bytes are name, colon, strkey, colon, decimal expiry |
| OwnershipMessages.MessageLayout | src/oracle_proof.rs:115-131 | the message by position: name, colon, strkey, colon, and a decimal numeral whose value is the expiry |
| OwnershipMessages.SmallMessage | src/oracle_proof.rs:115-131 | a short message in characters |
| OwnershipMessages.PrintDecimal | src/oracle_proof.rs:144-156 | the backwards digit loop stays inside its 20-byte buffer for every 64-bit number and leaves its decimal numeral |
| OwnershipMessages.NumeralUnique | src/oracle_proof.rs:144-156 | digit strings without a superfluous leading zero and numbers correspond one to one, so printing parses back |
| OwnershipMessages.MessageInjective | src/oracle_proof.rs:122-131 | with colon-free names the message determines name, address and expiry |
| OwnershipMessages.MessageInjectiveForStrkeys | src/oracle_proof.rs:122-131 | so it does for any names when strkeys hold no colon |
| OwnershipMessages.VerifyOwnershipProof | src/oracle_proof.rs:91-203 | acceptance and each error, exactly: message, signature set, allowlist, expiry, signature shape and signature, in that order |
| OwnershipMessages.ProofServesOneClaim | src/oracle_proof.rs:129-179 | one signed message cannot vouch for two claims: no other name or address, no moved expiry |
| MerkleTree.RootOf | src/merkle.rs:126-149 | the level-by-level loop with promotion computes the recursive tree of section 2.1 of RFC 6962, for every length |
| MerkleTree.SmallTrees | src/merkle.rs:39-59 | the trees of up to five leaves written out, left before right and the odd node unchanged |
| MerkleTree.SplitPointIsPowerOfTwo | src/merkle.rs:39-59 | the recursive tree splits at the only power of two k with k < n <= 2k |
| MerkleTree.NextLevelKeepsRoot | src/merkle.rs:132-146 | pairing one level, last odd node unchanged, keeps the root of the recursive tree |
| MerkleTree.RootBindsLeaves | src/merkle.rs:48-71 | two lists of leaf hashes share a root exactly when they are equal, lengths included |
| MerkleTree.RawHashesDoNotBind | src/merkle.rs:62-71 | over hashes that are not leaf hashes, lists of different lengths share a root: the leaf domain is needed |
| MerkleProofs.BuildProof | tests/merkle_export.rs:130-168 | the prover's loops, with the index remapped at each level, collect the step of every level; an index past the end gets no steps |
| MerkleProofs.SmallProofs | tests/merkle_export.rs:130-168 | the three proofs of a three-leaf tree written out |
| MerkleProofs.VerifyProof | tests/merkle_export.rs:172-190 | the verifier's fold accepts exactly when climbing the steps from the leaf gives the root |
| MerkleProofs.BuiltProofsVerify | tests/merkle_export.rs:130-190 | completeness: every built proof of every index verifies |
| MerkleProofs.AcceptedLeafIsMember | tests/merkle_export.rs:172-190 | soundness: a leaf hash accepted with any steps at all is one of the leaves |
| MerkleProofs.MembershipIsProvability | tests/merkle_export.rs:115-190 | membership and provability of a leaf hash are equivalent |
| MerkleProofs.ShapeBindsPosition | tests/merkle_export.rs:934-946 | steps with the shape of index i accept exactly leaf i, and only with the built proof's siblings |
| MerkleProofs.BuiltProofsHaveShape | tests/merkle_export.rs:130-168 | built proofs have the shape of their index |
| MerkleProofs.TruncatedProofFails | tests/merkle_export.rs:880-902 | no proper prefix of a built proof verifies its leaf |
| MerkleProofs.LevelPathIsAuditPath | tests/merkle_export.rs:127-168 | without its promotions a built proof is the audit path of section 2.1.1 of RFC 6962 |
| ExportLeaves.RootOfRecords | src/merkle.rs:152-165 | the page root is the tree over the entries' leaf hashes in page order |
| ExportLeaves.LeafLayout | src/merkle.rs:15-35 | the bytes of one entry's leaf by position, the last of them one exactly for a verified record |
| ExportLeaves.PageRootIsTreeOfEntries | src/merkle.rs:152-165 | a page's root is the tree over the roots of its single entries |
| ExportLeaves.LeafHashInjective | src/merkle.rs:99-112 | name, separator, strkey and flag parse back uniquely when names hold no zero byte |
| ExportLeaves.PageRootBindsRecords | src/merkle.rs:11-36 | pages of valid names share a root exactly when their lists of name, address and flag are equal |
| ChunkedIndex.FlattenAppended | src/storage.rs:924-943 | appending to the pages appends to what they spell, from any page state |
| ChunkedIndex.AppendKeepsPacked | src/storage.rs:924-943 | pages that only ever grew are packed as compaction would pack them, a new page opening exactly after fifty names |
| ChunkedIndex.FlattenRemovedExactly | src/storage.rs:979-997 | stopping at the first page that holds the name removes it from the whole list exactly when no later page repeats it, from any page state |
| ChunkedIndex.FlattenRemoved | src/storage.rs:979-997 | so it does whenever no name is listed twice |
| ChunkedIndex.WithoutOnce | src/storage.rs:962-971 | removal from a list without repeats drops one position and keeps the rest in order |
| ChunkedIndex.FlattenCompacted | src/storage.rs:2398-2418 | compaction from any page state spells the flat index |
| ChunkedIndex.PackedPagesAreFull | src/storage.rs:2402-2417 | compacted pages are full except the last, which is not empty |
| ChunkedIndex.NoStalePages | src/storage.rs:2419-2427 | no page survives past the new count exactly when none was stored past both counts before |
| RegistryStore.Registry.AddToIndex | src/storage.rs:918-944 | the new flat index, pages and page count, for every state in which the host does not trap |
| RegistryStore.Registry.RemoveFromIndex | src/storage.rs:956-998 | the two filtering loops and the wrapping generation bump, for every state |
| RegistryStore.Registry.CompactChunkedIndex | src/storage.rs:2398-2428 | the repacking and reclaiming loops leave exactly the packed pages plus anything stored past the old count |
| RegistryStore.Registry.RegisterUser | src/lib.rs:2425-2530 | the slots after an admitted registration or update, and each modelled refusal |
| RegistryStore.Registry.RemoveUser | src/lib.rs:3204-3226 | the slots after an admitted removal, and each modelled refusal |
| RegistryStore.Registry.RenameUser | src/lib.rs:3930-4006 | the slots after an admitted rename, whose two keys may coincide, and each modelled refusal |
| RegistryStore.Registry.MarkVerified | src/lib.rs:180-222 | the slots after a single verification, and each refusal |
| RegistryStore.Registry.RevokeVerification | src/lib.rs:3794-3808 | the slots after a revocation, and each refusal |
| RegistryStore.Registry.ExecuteAddressRotation | src/lib.rs:4192-4218 | the slots after a pending rotation is carried out, verification dropped, and each modelled refusal |
| RegistryStore.Registry.SetBotStatus | src/lib.rs:3842-3866 | only the flag of one record changes |
| RegistryStore.Registry.ConfigVerification | src/lib.rs:2056-2082 | the verification window is written once and then refused |
| RegistryStore.Registry.CompleteChallenge | src/lib.rs:4558-4594 | a challenge past its deadline removes the registration as a removal does, and each modelled refusal |
| RegistryStore.Registry.BatchRemoveUsers | src/lib.rs:3025-3085 | dropping records in a loop and writing each counter once at the end leaves the slots that removing the names one call at a time leaves |
| RegistryStore.Registry.GetRegisteredPaginated | src/storage.rs:1075-1132 | the slicing reader returns the admin page of the state for every cursor and limit |
| RegistryStore.Registry.GetPublicPaginated | src/storage.rs:1157-1231 | the nested scan with its labelled break and saturating position returns the public page of the state for every cursor and limit |
| RegistryStore.Registry.RepairIndex | src/storage.rs:2778-2806 | the recount loop, its report, and that only a real drift is written and only when asked |
| RegistryStore.Registry.BatchVerifyUsers | src/batch.rs:153-265 | both passes and the single counter write take the slots to the batch's state, with the summary returned |
| RegistryStore.Registry.QueuePending | src/batch.rs:197-212 | the first pass queues exactly the eligible spellings, each once, in order |
| RegistryStore.Registry.MarkPending | src/batch.rs:214-254 | the second pass marks every queued record, counting successes and flips |
| RegistryConsistency.FreshIsConsistent | src/lib.rs:259-280 | a freshly initialized registry satisfies the invariant |
| RegistryOutcomes.FreshIsEmpty | src/lib.rs:259-280 | and has nobody, no history, no clock and no window |
| RegistryConsistency.RegisterKeeps | src/lib.rs:2476-2530 | a registration, new or repeated, keeps indexes, records and counters consistent |
| RegistryConsistency.RemoveKeeps | src/lib.rs:3208-3226 | so does a removal |
| RegistryConsistency.VerifyKeeps | src/lib.rs:190-219 | so does a verification |
| RegistryConsistency.RevokeKeeps | src/lib.rs:3794-3808 | so does a revocation |
| RegistryConsistency.RotateKeeps | src/lib.rs:4192-4218 | so does a rotation |
| RegistryConsistency.CompactKeeps | src/storage.rs:2398-2428 | so does compaction, which a consistent registry always admits |
| RegistryConsistency.VerifiedWithinTotal | docs/REGISTRY_INVARIANTS.md:30-33 | the verified count never exceeds the total, which is the number of records |
| RegistryExactness.HasRecordIsExactOnCanonicalNames | src/storage.rs:754-766 | the existence probe agrees with the record lookup exactly on canonical spellings |
| RegistryExactness.ExpiryIsPerSpelling | src/storage.rs:2130-2179 | a verification starts the clock of its own spelling and leaves every other spelling's answer as it was |
| RegistryExactness.RenameKeepsExactly | src/lib.rs:3948-4006 | a rename keeps the invariant exactly when the new name's key was free |
| RegistryExactness.RenameAcceptsCaseVariant | src/lib.rs:3964-3966 | a taken name passes the guard exactly when it is spelt other than its key |
| RegistryExactness.VerifyCountsOnceExactly | src/lib.rs:216-219 | a verification adds one to the historical count when it is stored, two when it is not |
| RegistryExactness.RevokeKeepsHistoryExactly | src/storage.rs:821-836 | a revocation leaves the historical count alone exactly when it is stored |
| RegistryExactness.RepairOfConsistent | src/storage.rs:2773-2806 | on a consistent registry the recount finds no drift and changes nothing |
| RegistryExactness.RepairCountsPositionsExactly | src/storage.rs:2778-2797 | an applied repair restores count equal to index length exactly when no indexed name lacks a record |
| CounterRepair.RecountIsExact | src/storage.rs:2778-2790 | when no record is listed twice the recount finds each listed record once, and each verified one among them |
| CounterRepair.RepairRestoresCounters | src/storage.rs:2773-2806 | an applied repair sets both counters to those numbers and nothing else; the total is that of all records exactly when all are listed |
| CounterRepair.DryRunKeeps | src/storage.rs:2773-2797 | a dry run changes nothing |
| RegistryExamples.RenameOverwrites | src/lib.rs:3952-4006 | a concrete rename that is accepted, replaces another registration's record and breaks the invariant |
| RegistryExamples.FirstVerificationCountedTwice | src/lib.rs:216-219 | a concrete first verification that moves the historical count from zero to two |
| RegistryExamples.BatchCountsSpellings | src/batch.rs:208-253 | a concrete batch that reports two successes in a registry of one record |
| RegistryExamples.RepairThenExportLosesARecord | src/storage.rs:2794-2797 | a concrete repair after which a public walk ends before a live record |
| RegistryEffects.CallsTouchOnlyTheirKeys | src/storage.rs:706-752 | no call changes the record of a key it was not given |
| RegistryEffects.RegisteredNameResolves | src/lib.rs:2493-2529 | every spelling resolves to the last registered address; verification carries over exactly at an unchanged address |
| RegistryOutcomes.RegisterAdmission | src/lib.rs:2431-2449 | a registration is refused for each of its causes exactly, and otherwise admitted |
| RegistryOutcomes.RenameOutcome | src/lib.rs:3984-4006 | every spelling of the new name resolves to the old addresses and bot flag, unverified and re-dated; none of the old name resolves |
| RegistryOutcomes.RenameAdmission | src/lib.rs:3930-3970 | each refusal of a rename and its admission, exactly |
| RegistryOutcomes.RotationOutcome | src/lib.rs:4207-4218 | every spelling resolves to the new identity address with payout address and bot flag as before, unverified and re-dated |
| RegistryOutcomes.RotateAdmission | src/lib.rs:4192-4203 | a rotation is carried out exactly when the name is registered, one is pending and its instant has come |
| RegistryOutcomes.VerifyOutcome | src/lib.rs:204-209 | a verification sets the flag of one record, no other field, and starts the clock of its spelling |
| RegistryOutcomes.VerifyAdmission | src/lib.rs:180-202 | each refusal of a verification and its admission, exactly |
| RegistryOutcomes.RevokeOutcome | src/lib.rs:3800-3808 | a revocation clears the flag of one record, no other field, and the clock of its spelling |
| RegistryOutcomes.RevokeAdmission | src/lib.rs:3794-3798 | each refusal of a revocation and its admission, exactly |
| RegistryOutcomes.MarkBotOutcome | src/lib.rs:3842-3866 | the bot flag read afterwards is the one given, every other field as before |
| RegistryOutcomes.MarkBotAdmission | src/lib.rs:3848-3866 | it is admitted exactly for a registered name |
| RegistryOutcomes.RemovalOutcome | src/lib.rs:3220-3226 | no spelling of a removed name resolves, and its key is not listed |
| RegistryOutcomes.RemoveAdmission | src/lib.rs:3208-3218 | a removal is admitted exactly for a registered name |
| RegistryOutcomes.ChallengeAdmission | src/lib.rs:4577-4586 | a challenge is completed exactly when one is active, its deadline has come and the name is registered |
| RegistryOutcomes.ConfigureOutcome | src/storage.rs:2085-2179 | the window set is the one clocks run by, and no later setting is accepted |
| RegistryOutcomes.ConfigureAdmission | src/lib.rs:2063-2082 | a window is accepted exactly when none is set |
| RegistryOutcomes.NoWindowNoExpiry | src/storage.rs:2155-2179 | without a window, or with one of zero, no verification lapses |
| RegistryOutcomes.CanAppendExactly | src/storage.rs:924-943 | an append is stopped exactly when the flat vector or the page count would not fit a word |
| RegistryOutcomes.BatchAdmission | src/batch.rs:160-165 | both batches take one to 25 names of an initialized registry, and are refused otherwise with the right error |
| RegistryOutcomes.MaintenanceAdmission | src/lib.rs:4742-4775 | compaction and repair are refused exactly before initialization |
| CounterLaws.CountersMoveExactly | docs/REGISTRY_INVARIANTS.md:14-22 | in any state, drifted or not, a call other than a repair moves the total by the records that appear and disappear and the verified count by those that cross the boundary, exactly unless it renames onto a taken key |
| CounterLaws.CallsLeaveAlone | src/storage.rs:2130-2153 | each call leaves alone the slots it has no business with: window, list, pages, history, and every other spelling's clock |
| CounterLaws.BatchVerifyLeavesAlone | src/batch.rs:216-230 | a batch starts the clock of exactly the eligible spellings it was given |
| CounterLaws.RegistrationLists | src/storage.rs:918-944 | a registration lists the key of a new name last in both indexes, and of a known name nothing |
| RegistryEffects.RemoveUndoesRegister | src/lib.rs:3220-3226 | removing a name just registered restores both indexes, records and counters, and spends outstanding cursors |
| RegistryEffects.RevokeUndoesVerify | src/lib.rs:3800-3808 | revoking what was just verified restores the record and live count, clears the clock, keeps the history |
| RegistryRuns.ApplyKeepsExactly | docs/REGISTRY_INVARIANTS.md:30-42 | every call that writes these slots keeps the invariant, a rename exactly when its new key was free |
| RegistryRuns.RunKeepsConsistent | docs/REGISTRY_INVARIANTS.md:30-42 | so does every run of such calls in any order, as long as its renames go to free keys |
| VerificationHistory.HistoryCountsFlipsInRuns | docs/ABI.md:1629-1646 | once stored, the counter is what it was plus every record that any call of the run turned verified, until it saturates |
| VerificationHistory.HistoryNeverFallsInRuns | docs/ABI.md:1629-1646 | so it never falls over any run |
| VerificationHistory.HistoryNeverFallsExactly | src/storage.rs:821-844 | from a consistent registry no run lowers the figure exactly when the counter is stored or nobody is verified |
| RegistryRuns.ApplyShiftsOrExtends | src/storage.rs:973-977 | in any state a call bumps the generation or leaves every indexed position in place |
| RegistryRuns.RunShiftsOrExtends | src/storage.rs:1009-1017 | over a run the generation counts removals modulo 2^32, and without any the old index is a prefix of the new |
| PageReaders.AcceptedCursorsAreIssued | src/storage.rs:1024-1055 | a state accepts exactly the cursors it would itself issue for an offset within its count |
| PageReaders.EffectiveLimit | src/storage.rs:1087-1091 | a limit of zero means twenty, one above a hundred means a hundred, any other itself |
| PageContents.CursorLayout | src/storage.rs:1020-1030 | a cursor's first four bytes are the offset and its last four the generation, most significant first |
| PageContents.ReadAdmission | src/storage.rs:1032-1095 | a read is refused exactly before initialization and for a cursor the state would not issue now, and otherwise starts at the cursor's offset |
| PageContents.LiveEntryAt | src/storage.rs:1111-1117 | a listed name with a record has its entry, that name and that record, right after those of the live positions before it |
| PageContents.LiveCountIsPositions | src/storage.rs:1111-1117 | and there are as many entries as live positions |
| PageContents.AdminPageHoldsStored | src/storage.rs:1111-1117 | in any state an admin page carries the stored record of every name on it, untouched |
| PageContents.AdminPageEntries | src/storage.rs:1075-1132 | on a consistent registry entry j of an admin page is the name and record of indexed position offset + j |
| PageContents.PublicPageHoldsViews | src/storage.rs:1233-1250 | in any state a public page carries each stored record field by field, addresses blanked out exactly for unverified contributors |
| PageContents.PageFacts | src/storage.rs:1096-1131 | in any state a page's total is the count, its flag says whether it has a cursor, and its root is that of its own entries |
| PageContents.PagePastList | src/storage.rs:1105-1220 | an offset within the count but past the list yields an empty page, last for the slicing reader and leading back for the scanning one |
| PageReaders.ScanTakesWhatItWants | src/storage.rs:1192-1214 | the scan takes the live names of its window and stops just past the last one wanted, or at the end |
| PageGuarantees.ReadersAgree | src/storage.rs:1134-1231 | without holes the scanning reader answers as the slicing reader, redacted, for every cursor and limit |
| PageGuarantees.PageCovers | src/storage.rs:1096-1131 | holes or not, a page accounts for every position from its offset to its end, exports the live ones, and moves forward |
| PageGuarantees.CompactionIsInvisible | src/storage.rs:2392-2428 | compaction changes no page of either reader, so outstanding cursors stay good |
| PageGuarantees.ViewShowsExactly | src/storage.rs:1233-1250 | two records look the same in public exactly when they differ at most in an unverified contributor's addresses |
| PageGuarantees.PublicExportConceals | src/storage.rs:1157-1250 | public pages, root included, do not depend on unverified contributors' addresses, for any state |
| PageGuarantees.PublicExportRevealsExactly | src/storage.rs:1157-1250 | two consistent registries are indistinguishable by public reads exactly when nothing else differs |
| PageGuarantees.PageRootCommits | src/merkle.rs:11-36 | pages of two consistent registries share a root exactly when they export the same names, addresses and flags |
| PageWalks.CursorAcceptedExactly | src/storage.rs:1009-1055 | after any run a cursor is accepted exactly when the removals are a multiple of 2^32 and its offset still fits |
| PageWalks.CursorSurvivesExactly | src/storage.rs:1032-1055 | short of 2^32 removals, exactly when there was none, whatever else the run did |
| PageWalks.WalkListsIndex | src/storage.rs:1059-1132 | from any page on, an accepted walk saw no removal or rename, leaves a consistent registry, and exports the last index from that page's offset |
| PageWalks.WalkExportsIndex | docs/REGISTRY_INVARIANTS.md:38-38 | a walk under any interleaving exports the index of its last read from the front, each name once, in order; all of it exactly when no cursor is left |
| PageWalks.StillWalkExportsLive | src/storage.rs:1096-1220 | with records missing, any mix of the two readers still exports every live name once within as many pages as positions |
| HoleyWalks.HoleyWalkExportsLive | src/storage.rs:1096-1220 | with records missing and calls in between, an accepted walk exports entries of the last index in order, and when it ends their keys are exactly the listed ones with a record |
| StillWalks.MissesNothingExactly | src/storage.rs:1090-1220 | whatever the count, every walk of a reader that ends has exported every live name exactly when none is listed past the count (slicing reader), or at most one from the last counted position on (scanning reader) |
| StillWalks.RepairedExportsExactly | docs/REGISTRY_INVARIANTS.md:38-38 | after an applied repair, exactly when no hole comes before the next-to-last live name (scanning reader), or before the last one (slicing reader) |
| StillWalks.PublicWalkEndsExactly | src/storage.rs:1212-1220 | no public walk goes on for more pages than are counted exactly when the count does not exceed the listed names |
| BatchVerification.Percentage | src/utils.rs:229-239 | the rate is within half a point of the true percentage, halves rounded up |
| BatchVerification.Summarize | src/batch.rs:75-85 | the request's size, its successes, the rest as failures, and the rate rounded half up |
| RegistryOutcomes.BatchReports | src/batch.rs:75-85 | both batches report the size of the request, their successes, the rest as failures, and the rounded rate |
| BatchVerification.EligibleIsAdmitted | src/batch.rs:197-212 | the batch queues exactly the names whose single verification would be admitted |
| BatchVerification.BatchCountsExactly | src/batch.rs:194-264 | after a batch the counter is the number of verified records, the history grows by the records that flipped, and nothing else changed |
| BatchVerification.SuccessfulCountsRecordsExactly | src/batch.rs:208-253 | the reported successes are never fewer than the records verified or renewed, and as many exactly when no two different names in the request, both eligible, are case variants |
| BatchVerification.BatchIsIdempotent | src/batch.rs:197-264 | the same batch again at the same instant changes nothing, and reports no success exactly when the first had none or the window does not lapse at once |
| BatchVerification.BatchIsSequentialVerification | src/batch.rs:216-262 | with the history stored and no eligible case variants, a batch is its names verified one call at a time, repeats and refusals included |
| BatchRemoval.BatchRemovalDropsExactly | src/lib.rs:3031-3071 | whatever the repeats and spellings, exactly the keys of the request are dropped, with one success for each record dropped |
| BatchRemoval.BatchRemovalBumps | src/storage.rs:973-977 | each record dropped spends one index generation |
| BatchRemoval.BatchRemovalKeeps | docs/REGISTRY_INVARIANTS.md:40-40 | a batch removal keeps indexes, records and counters consistent |
| UpgradeGovernance.UpgradeStore.SetUpgradeThreshold | src/multisig_upgrade.rs:120-125 | the stored threshold, never zero |
| UpgradeGovernance.UpgradeStore.CreateUpgradeProposal | src/multisig_upgrade.rs:170-193 | a new proposal with the next id, the proposer as first approver and a saturating due time, or a refusal that changes nothing |
| UpgradeGovernance.UpgradeStore.RecordApproval | src/multisig_upgrade.rs:204-228 | the duplicate scan and the capped append |
| UpgradeGovernance.UpgradeStore.RequireProposalExecutable | src/multisig_upgrade.rs:248-267 | the checks in order, with the error of the first that fails |
| UpgradeGovernance.UpgradeStore.ExecuteUpgrade | src/lib.rs:1888-1920 | an executable proposal is returned and consumed |
| UpgradeGovernance.UpgradeStore.CancelUpgradeProposal | src/lib.rs:1987-1993 | only the live proposal of that id is discarded |
| UpgradeGovernance.ProposalOutcome | src/multisig_upgrade.rs:170-193 | a new proposal field by field, due after the whole delay, its proposer the first approver |
| UpgradeGovernance.ApprovalOutcome | src/multisig_upgrade.rs:218-227 | an approval adds its signer last while fewer than twenty are tracked and changes nothing else |
| UpgradeGovernance.GovernanceAdmission | src/multisig_upgrade.rs:176-267 | each refusal of each call exactly, in the order of the checks |
| UpgradeGovernance.RunFollows | src/multisig_upgrade.rs:119-267 | through every run of at most 2^32 proposals the stored machine follows a ledger that forgets nothing |
| UpgradeGovernance.ExecutableExactlyWhenDue | src/multisig_upgrade.rs:230-267 | an id is executable exactly when its ledger entry is open, due and signed by enough distinct addresses, on the proposed terms |
| UpgradeGovernance.SignersActedExactly | src/multisig_upgrade.rs:204-228 | an address is among an id's signers exactly when it made that proposal or approved it while it was open |
| UpgradeGovernance.ExecutableHasQuorum | src/multisig_upgrade.rs:31-36 | at least threshold distinct addresses each proposed that id or approved it while it was open |
| UpgradeGovernance.ClosedForGood | src/multisig_upgrade.rs:38-42 | an id's terms never change, and once closed no continuation makes it executable again |
| UpgradeGovernance.ExecutionCloses | src/lib.rs:1918-1920 | an executed id is never pending afterwards, so it executes at most once |
| UpgradeGovernance.ThresholdAboveCapIsUnreachable | src/multisig_upgrade.rs:101-105 | a threshold above twenty is never reached |
| UpgradeGovernance.ApprovalCountsExactly | src/multisig_upgrade.rs:222-227 | an accepted approval is recorded exactly while fewer than twenty signers are tracked |
| UpgradeGovernance.IdsFreshExactly | src/multisig_upgrade.rs:136-142 | the next id differs from the one just given exactly until the counter saturates |
| VerifierAllowlist.AllowlistStore.PruneExpiredVerifiers | src/storage.rs:1960-1975 | drops exactly the lapsed entries and counts them |
| VerifierAllowlist.AllowlistStore.IsActiveVerifier | src/storage.rs:1989-1996 | the first entry of the address decides |
| VerifierAllowlist.AllowlistStore.ActiveVerifierCount | src/storage.rs:1978-1986 | the number of entries that a prune would keep |
| VerifierAllowlist.AllowlistStore.AddVerifier | src/storage.rs:2010-2052 | prune, then refresh in place or append under the cap; entries stay distinct |
| VerifierAllowlist.AdditionOutcome | src/storage.rs:2010-2052 | an accepted addition leaves one entry of the address with its expiry and instant, and exactly the live entries of the others |
| VerifierAllowlist.AllowlistStore.RemoveVerifier | src/storage.rs:2059-2077 | drops the address and the lapsed entries, refused exactly when it is not listed |
| VerifierAllowlist.DropOutcome | src/storage.rs:2059-2077 | a removal is refused exactly for an address with no entry, lapsed or not, and leaves exactly the live entries of the others |
| VerifierAllowlistRuns.FullExactlyWhenTenActive | src/storage.rs:1998-2049 | a valid add is full exactly when ten members are active and the address is not one of them |
| VerifierAllowlistRuns.RemovalRefusedExactly | src/storage.rs:2054-2074 | a removal is refused only for an inactive address, and after a prune for exactly those |
| VerifierAllowlistRuns.RunStandsForIdeal | src/storage.rs:1908-1920 | over every run with an advancing clock the pruned list answers, now and later, as the unpruned map, stays distinct and within ten |
| VerifyRateLimits.RateLimiter.ChargeVerifyRate | src/storage.rs:1623-1644 | the charge is accepted or refused on the ledger's spend so far; a refusal writes nothing |
| VerifyRateLimits.RateLimiter.VerifyUnitsSpent | src/storage.rs:1650-1656 | the spend of this ledger, zero after rollover |
| VerifyRateLimits.ChargeOutcome | src/storage.rs:1629-1644 | an accepted charge is added to its address's spend of that ledger, a refused one to nothing, and no other spend moves |
| VerifyRateLimits.ZeroIsUnlimited | src/storage.rs:1624-1627 | a limit of zero accepts every charge and keeps no account of it |
| VerifyRateLimits.StoredSpendIsAcceptedTotal | src/storage.rs:1615-1644 | the stored counter is the ledger's accepted total, and no ledger's total passes the limit |
| VerifyRateLimits.AcceptedExactlyWithinCap | src/storage.rs:1633-1637 | a charge is accepted exactly when the accepted total stays within the limit |
| VerifyRateLimits.CapHoldsExactly | src/storage.rs:1600-1637 | the cap binds for every limit but zero and the saturation point |
| VerifyRateLimits.ChargesAreIndependent | src/storage.rs:1623-1644 | what an address has stored and accepted is what its own charges alone would give |

## Left out

- Role grants, their expiry and the role-holder listing: each getter and setter touches one slot of its own, so their contracts would say what their bodies say.
- RegistryStore.Registry.RegisterUser: starts after the pause, reserved-name, challenge, fallback-address, cooldown and rotation-delay refusals, which change nothing; fallback addresses are not stored in these slots.
- RegistryStore.Registry.RemoveUser: starts after the pause and authorization refusals, which change nothing.
- RegistryStore.Registry.RenameUser: starts after the pause, authorization, reserved-name, challenge, pending-rotation and cooldown refusals, which change nothing.
- RegistryStore.Registry.ExecuteAddressRotation: requesting and cancelling a rotation only write the pending entry, which is an input here.
- RegistryStore.Registry.CompleteChallenge: raising and cancelling a challenge only write the pending entry, which is an input here.
- RegistryStore.Registry.BatchRemoveUsers: the two-signature route for large batches decides admission and is part of the authorization input.
- UpgradeGovernance.UpgradeStore.ExecuteUpgrade: a staged WASM hash that differs and a missing attestation are two further refusals, over slots the model does not hold.
- Sponsored registration and verification by oracle proof: they write these slots as a registration and a verification do, under other admission rules.
- Migration rewrites each record with the value it already has.
- Pending re-verification flags, audit log, events, TTL extension, attestations: written beside the modelled slots and never read by them.
- The rate-limit charge and the allowlist test inside a batch: they are the authorization flag of the batch, and are modelled on their own.
- SHA-256 and Ed25519: ideal hash terms, and a signature verdict as an input.
- Addresses are their strkey bytes; the binary form and its checksum are not modelled.
- VerifierAllowlist.AllowlistStore.AddVerifier: the prune that precedes a full-list error is shown as written; the host rolls it back with the error.
