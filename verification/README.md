# NetAnchor: verified model of the certificate store, SCEP journal and restore

NetAnchor is a file-backed certificate authority. This project models its state
machines in Dafny and proves what they keep, over every input, every storage fault and
every run. One module stands for one component:

| module | what it models |
|---|---|
| `Asn1` | the iterative ASN.1 framing check and the grammar it recognises |
| `Restore` | the journaled swap of a restored data tree, its recovery, and recovery of that recovery |
| `Barrier` | the shared/exclusive operation barrier as a transition system over all interleavings |
| `CertIndex`, `IssuerWalk` | the certificate index, cascading deletion, and the two walks up the issuer graph |
| `CaTree` | creating, issuing, signing and deleting under one invariant |
| `Validator` | the record and issuer-chain checks of backup validation |
| `ScepNames`, `ScepNormal` | DNS names, address ranges, suffixes and rate-limit identities of shared challenges |
| `ScepState`, `ScepDecision`, `ScepInvariant`, `ScepSteps`, `ScepService` | the SCEP journal: decisions and exactly when each is made, invariant, journal edits, and the service with its storage steps |
| `Envelope` | the padding check in front of the PKCS#7 library |
| `Templates` | the placeholder expander and what saving a definition guarantees |
| `StrictJson` | the strict JSON walk |
| `BackupSeal`, `Snapshot`, `ArchivePaths`, `Staging`, `StagedJournal` | backup framing, collecting the files, accepted archive paths, the staged tree, and what its journal still grants |
| `RestoreRequest` | a restore request as a whole, from the archive to the live tree |
| `DataTree`, `Strings` | files by path, splitting and joining |
| `Faults`, `Wrappers` | outcomes of a storage step, optional values |

Fault model. A storage step ends in `Done`, `Failed` or `Crashed`. If it is not `Done` its
effect may have happened or not, and the caller returns at once on a crash, so every
contract speaks about every prefix of a run. `healthy` says that storage works; contracts
that start with it say when an operation must succeed. A rename and a `durableWrite` are
atomic and stay as they are, as BACKUP.md and README.md of the repository require of the
file system.

Cryptography is symbolic: a signed certificate carries the requested fields, the block
cipher and the authenticated cipher of a backup are functions with exact inverses. Time is
seconds, a day is 86400 of them, and the clock does not run backwards. Random serials,
secrets and keys are parameters that are fresh.

## Where the code promises less than it seems

Each of these is proved for all inputs with the exact condition, and where the failure needs
an input to be seen, a lemma gives one.

- Pruning (scep_store.go:300) drops a used per-device challenge at the very instant at which
  enrollment (scep_protocol.go:376) still answers its retry. `PruningIsUnobservable` holds if
  and only if the request is not that retry; `PruningIsSeenAtTheBoundary` is one.
- A legacy intermediate without a CA id is found by `findCARecord` (store.go:309) only when
  the root issued it, while the validator accepts it elsewhere. `AcceptedPathsExist`: accepted
  records give every CA a path if and only if there is no such stray one;
  `StrayLegacyIsAccepted` is an accepted set with one.
- CSR signing checks the expiry only inside the template branch (ca.go:521-533). The tree
  invariant survives `SignCsr` if and only if a template is named or the request fits anyway.
- A deletion that stops between its renames and the last write leaves a CA in the index whose
  directory is in the trash (store.go:715-749). From then on `DeleteCA` answers "not found" for
  that CA, and for a CA above it fails at the missing directory, after moving its own: only leaf
  files may be absent. With working storage and nothing pending `ScepService.DeleteCa` succeeds
  if and only if the id is that of exactly one intermediate record and every CA of its subtree
  has its directory (`CaDeletable`). `InterruptedDeletionSticks` is the general consequence and
  `InterruptedDeletionWitness` an index on which it happens.
- Creating CAs limits no depth (ca.go:178-268), while backup validation refuses issuers more
  than 64 steps below the root (backup_validate.go:110-129). `CaTree.TreeIsAccepted`: the
  records of a valid tree pass if and only if signatures verify and every issuer is within 64
  steps; `DeepTreeIsRefused` builds the tree for which the backup is refused.
- `CreateCA` replaces an existing root (store.go:236-244). The tree invariant survives
  `CreateRoot` if and only if the index held nothing but a root.
- Inventory FQDNs used as a fallback are not checked (scep_shared.go:390-398), so a comma in
  one makes two identities collide. `IdentityIsPieces`: identities are equal if and only if
  the source is and the sorted names break into the same pieces at commas.
  `UncheckedNamesCollide` is a collision of two outcomes of the name check, and
  `IdentityIsFaithful` is what remains for names without a comma: equal sources and sets.
- Staging revokes unused per-device challenges only (backup.go:319-323).
  `StagedJournalIsDisarmed` gives the outcome of every request on a staged journal: shared
  challenges keep answering as before.
- The names of passphrase files are not checked when a snapshot is made (backup.go:199-214).
  `SnapshotOfStoreIsAccepted`: that is harmless in every store whose indexed CAs have their
  certificate files. Without that, a snapshot passes the path checks of staging if and only if
  those ids are well-formed (`SnapshotIsAccepted`), and `UnknownIdIsRefused` is one that does
  not.

## Model

| member | source | states |
|---|---|---|
| `Asn1.BoundedSCEPASN1` | scep_asn1.go:16-81 | the loop over a stack of ends accepts exactly the nonempty messages of at most 1 MiB that encode one tree within the depth, node and cumulative-length budgets, although budgets are charged incrementally, which is to say exactly the framed ones: a message whose first octet has bit 6 has a content that is itself a sequence of encodings within what is left of the budgets; every read is in range, the stack index never exceeds 32, and it ends within 2*8192+1 rounds |
| `Asn1.FirstOctetDecides` | scep_asn1.go:44-79 | acceptable is the same as framed by the first octet: neither zero nor a high tag number, examined inside exactly if `& 32` is set |
| `Asn1.IdentifierBits` | scep_asn1.go:47-74 | for all 256 octets the form is the mask 32 and the number the mask 31 |
| `Asn1.LengthOctets` | scep_asn1.go:50-67 | the length octets written out, short form and one to three octets of long form |
| `Asn1.ParseHeader` | scep_asn1.go:37-67 | reads a low, non-EOC tag and a definite minimal length that fits the region, exactly when there is one |
| `Asn1.EncodingIsUnique` | scep_asn1.go:16-81 | two trees with the same accepted encoding are the same tree |
| `Asn1.AcceptableIffDecoded` | scep_asn1.go:16-81 | the grammar of encodings and a recursive decoder accept the same messages |
| `Asn1.DecodeSound` | scep_asn1.go:28-79 | what the recursive decoder returns is well formed and encodes to exactly the bytes read |
| `Asn1.DecodeComplete` | scep_asn1.go:28-79 | every encoding of a well-formed forest within the depth limit decodes to that forest |
| `Asn1.DecodeFits` | scep_asn1.go:28-79 | a decoded forest stays within the depth that was left |
| `Asn1.RestPush` | scep_asn1.go:68-79 | entering a constructed object leaves the remaining cost of all open regions unchanged but for that object |
| `Asn1.RestSkip` | scep_asn1.go:68-79 | so does stepping over a primitive or empty object |
| `Asn1.RestCharge` | scep_asn1.go:69-73 | an object whose charge already breaks a budget makes the whole message unacceptable |
| `Restore.Volume.DurableRename` | restore.go:30-38 | a rename moves the component or nothing, whatever it reports |
| `Restore.Volume.ActivateBackup` | restore.go:41-111 | wherever it fails or dies, recovery can end only in the original data, or, once the committed journal took effect, only in the stage; success means live data is the stage; an error that leaves no transaction means live data is the original |
| `Restore.Volume.Prepare` | restore.go:41-74 | before the first journal nothing live has changed, and the recorded presence is that of the live components |
| `Restore.Volume.SwapOne` | restore.go:85-100 | one component is moved out and its replacement in; at every stop the original can still be put back |
| `Restore.Volume.SwapAll` | restore.go:85-100 | after the loop live data equals the stage, component by component |
| `Restore.Volume.RecoverRestore` | restore.go:113-190 | keeps the one reachable goal at every stop; returning nil means live data is that goal and neither a transaction nor a stage is left; a decided state is never touched; a journal that is undecodable, of another version or silent about a component fails closed and changes nothing |
| `Restore.Volume.RollBack` | restore.go:137-159 | putting back old components restores the original and stays repeatable from any interruption |
| `Restore.Volume.RollBackOne` | restore.go:137-159 | restores one component without disturbing those already restored |
| `Restore.LiveIsExpendable` | restore.go:137-159 | removing a live component, even partly, is safe while its original is in old or never existed |
| `Restore.PuttingBackIsSafe` | restore.go:137-159 | moving an original back from old keeps rollback possible and restores it |
| `Restore.HalfwayIsPrepared` | restore.go:85-100 | every state inside the swap loop is one that rollback can undo |
| `Restore.Volume.RestoreExclusive` | backup_http.go:281-297 | a reported success serves nothing but the stage until restart; after a failure the process stops exactly if a transaction is left, or may if the lookup of it failed too; an error without a stop means live data is the original; with working storage it succeeds |
| `Restore.Volume.Lifetime` | restore.go:41-190 | a restore followed by any number of interrupted recoveries: the first that returns nil leaves all of the original or all of the stage, the stage exactly when the committed journal was written, and nothing of the transaction; a restore that storage did not fail always ends in the stage |
| `Barrier.BarrierSafety` | backup_http.go:34-121 | in every interleaving: while the exclusive function runs no request holds a lease and nobody else owns the write lock; leases are unlocked at most once, exactly once when finished; no unlock is ever fatal |
| `Barrier.StepIsSafe` | backup_http.go:34-121 | every step of every request keeps the lock and lease invariant |
| `Barrier.WaitingBlocksNobody` | backup_http.go:86-103 | a new request gets its lease unless a maintenance request has the lock, however many are waiting for it |
| `Barrier.StoppedMeansStopped` | backup_http.go:62-71 | once stopped is set it stays set and no request starts its handler that had not started it before |
| `Barrier.StoppedMeansDrained` | backup_http.go:62-121 | in every reachable stopped state nobody runs the exclusive function, and only a request that has given its lease up for maintenance can still enter a nested handler |
| `Barrier.StoppingIsExclusive` | backup_http.go:104-121 | only an exclusive function that nothing overlaps sets it |
| `Barrier.StoppedByRequest` | backup_http.go:104-121 | in every run the process is stopped exactly if some exclusive function of the run asked for it |
| `Barrier.ExclusiveIsAuthorized` | backup_http.go:104-121 | whoever runs the exclusive function in a reachable state entered, last, as an administrator, uncanceled, from a state of the run that was not stopped |
| `Barrier.EnterDecides` | backup_http.go:106-120 | with the lock taken, exactly those go on to the exclusive function; all others are back in their handler with the lock free and no lease |
| `Barrier.TryLockTakes` | backup_http.go:91-105 | a waiting request takes the lock exactly when no request holds a lease and nobody owns it |
| `Barrier.MaintenanceOnce` | backup_http.go:74-82 | no request reaches that decision twice: its lease is gone |
| `CertIndex.CaSubtree` | store.go:598-628 | terminates on every record list, cyclic or not, and collects exactly the intermediates that descend from the id, each once when ids are unique, and exactly the leaves they issued; fails exactly for the root and for unknown ids |
| `CertIndex.DeletionIsExact` | store.go:598-628 | kept and removed records are a permutation of the index, the removed ones all descend from the id, and no kept record names a removed issuer |
| `CertIndex.TrashConserves` | store.go:704-749 | kept plus removed is a permutation of the old index |
| `CertIndex.Filter` | store.go:743-749 | the live index keeps exactly the records whose serials were not removed, in order |
| `CertIndex.SerialsAreFaithful` | ca.go:55-59 | every number gives a well-formed serial, and different numbers different ones |
| `IssuerWalk.CAPath` | store.go:165-183 | succeeds exactly when following issuers reaches the root, and returns the records from the root down, each issued by the one before |
| `IssuerWalk.IssuerChain` | store.go:125-161 | succeeds exactly when every certificate up to the root is in place, and returns them in order |
| `Validator.ValidateRecords` | backup_validate.go:440-519 | accepts exactly record lists with unique serials and CA ids whose records each pass, and then its tables are the index |
| `Validator.ValidateChains` | backup_validate.go:110-129 | the bounded loop accepts exactly when every record's issuer chain reaches the root past at most 64 intermediates |
| `Validator.AcceptedChainsReachRoot` | backup_validate.go:110-129 | an accepted record reaches the root through the index itself, within the bound |
| `Validator.AcceptedPathsExist` | backup_validate.go:110-129 | accepted records give every CA a path exactly when no legacy intermediate was issued by another intermediate |
| `Validator.StrayLegacyIsLost` | store.go:296-317 | such an intermediate is found under no id |
| `Validator.StrayLegacyIsAccepted` | backup_validate.go:110-129 | such a record set exists: three records that the validator accepts, one of which CAPath cannot find |
| `Validator.ReachingIsAcyclic` | store.go:165-183 | a CA that reaches the root is on no cycle of the issuer graph |
| `Validator.AcceptedKeys` | backup_validate.go:440-519 | an accepted record has a key exactly if it is a CA or an issued leaf, a leaf's key in clear, and an id of its own only if it is an intermediate's serial |
| `CaTree.CaStore.CreateRoot` | ca.go:107-159 | the new root, valid from five minutes ago, replaces any old one in index and files and is recorded last; the tree is valid afterwards exactly when nothing but a root was there |
| `CaTree.CaStore.CreateIntermediate` | ca.go:178-268 | keeps the tree valid; succeeds exactly for a present, unlocked parent that may issue CAs, and adds one record and one certificate, from five minutes ago to the earlier of the requested expiry and the parent's; a SCEP CA can then be used at exactly the times within those dates at which the chain of its parent is current, so at once for positive days |
| `CaTree.CaStore.IssueCert` | ca.go:345-433 | keeps the tree valid; succeeds exactly for a present, unlocked issuer that outlives the requested validity, under the template policy, and adds one certificate and its whole record, from five minutes ago for the days asked for |
| `CaTree.CaStore.SignCsr` | ca.go:449-556 | adds one record, from five minutes ago for the days asked for, and one certificate under the issuer; the tree stays valid exactly when a template is named or the requested validity fits the issuer |
| `CaTree.CaStore.DeleteCa` | store.go:632-658 | succeeds exactly for a CA that has a certificate and is not the root, removes exactly its subtree from index, files and nothing else, and keeps the tree valid |
| `CaTree.CaStore.DeleteCert` | store.go:661-684 | removes exactly the one leaf, or fails when there is none |
| `CaTree.CaStore.Trash` | store.go:689-750 | index, CA directories, certificates and trash change by exactly the removed records |
| `CaTree.CaStore.PathOf` | store.go:165-183 | on a valid store every CA has a path, root first, where each CA may issue the next and outlives it |
| `CaTree.CaStore.Ready` | scep_store.go:187-219 | succeeds exactly, on any index, for an unlocked, capable, leaf-only CA whose chain is complete and all current; the cap is the earliest expiry of that chain; on a valid store a usable CA fails only when a certificate of its own chain is outside its validity |
| `CaTree.CaStore.IssueScep` | scep_store.go:187-219 | an enrollment keeps the tree valid and succeeds exactly when the CA is ready, policy allows it and days are positive; the certificate expires with the days asked for or with a certificate of the chain, and no later than any of them |
| `CaTree.EarliestExpiry` | scep_store.go:200-218 | the loop returns the minimum, exactly when every certificate of the chain is valid now |
| `CaTree.ScepWithinChain` | ca.go:521-533 | a certificate signed under that cap outlives no CA of its chain |
| `CaTree.PathIsSound` | store.go:165-183 | on a path of a sound index no CA is leaf-only above another, and expiries never increase downwards |
| `CaTree.NothingOutlivesAnAncestor` | ca.go:402-404 | every record expires no later than any CA above it, up to the root |
| `CaTree.GrownIssuer` | ca.go:187-229 | no issuer dangles: every record but the root has a record that was allowed to issue it |
| `CaTree.GrownReaches` | store.go:165-183 | every CA of a sound index reaches the root |
| `CaTree.SoundDelete` | store.go:689-750 | dropping records whose dependants go too keeps the index sound |
| `CaTree.TreeIsAccepted` | backup_validate.go:110-129 | the records of a valid tree, which pass the validator one by one, are accepted exactly when signatures verify and every issuer is at most 64 steps below the root |
| `CaTree.DeepTreeIsRefused` | ca.go:178-268 | a root with n intermediates in a line is a valid tree and is accepted exactly up to n = 65 |
| `ScepNames.MaskingIsHarmless` | scep_shared.go:125-140 | masking a range changes none of its members and is idempotent |
| `ScepNames.RangesAreBlocks` | scep_shared.go:421-427 | an address is in the ranges exactly when it stands in one aligned block of the size that a range's length leaves free, together with the range's address and in its family |
| `ScepNormal.NormalizeRanges` | scep_shared.go:125-140 | succeeds exactly on 1 to 64 valid ranges none of which embeds IPv4, and returns them masked in order |
| `ScepNormal.RangesAreFixed` | backup_validate.go:332-335 | stored ranges are accepted and unchanged when normalized again, and admit the addresses that were entered |
| `ScepNormal.MaskedRangeOk` | scep_shared.go:125-140 | masking never turns an accepted range into an embedded IPv4 one |
| `ScepNormal.MappedAddresses` | scep_shared.go:125-140 | the embedded addresses that are refused are exactly ::ffff:0:0/96 |
| `ScepNormal.NormalizeSuffixes` | scep_shared.go:100-122 | refuses exactly for a bad entry or more than 16 different results; otherwise the output is the set of normal forms of the entries, each once, in their order |
| `ScepNormal.SuffixForms` | scep_shared.go:100-118 | an entry stands for a suffix exactly when it normalizes to that valid name of two or more labels, or to it and one final dot |
| `ScepNormal.SuffixesAreFixed` | backup_validate.go:336-339 | stored suffixes are valid lower-case names of two labels, stand once, and are unchanged when normalized again |
| `ScepNames.SharedCandidates` | scep_shared.go:290-321 | refuses exactly for an invalid DNS SAN or more than four different names, and otherwise lists every name asked for once, the first SAN first |
| `ScepNames.AskedNames` | scep_shared.go:290-321 | the names asked for are the normalized SANs, and the common name and unstructured names, without hostname=, that are names of two or more labels |
| `ScepNames.SuffixesAreLabels` | scep_shared.go:339-346 | a name is under a suffix exactly when the suffix's labels are its last labels |
| `ScepNames.LabelCodes` | scep_shared.go:85-94 | a label has 1 to 63 ASCII letters, digits and hyphens, none at either end |
| `ScepNames.SharedNamesExactly` | scep_shared.go:347-404 | without suffixes no names; with candidates all of them, or a refusal if one does not belong to the source or there are more than four; without candidates the set of the inventory's names for the source, if at most four |
| `ScepNames.VerifyNames` | scep_shared.go:347-404 | the loop that stops at the first unentitled name computes the declarative selection |
| `ScepNames.SharedNamesAreEntitled` | scep_shared.go:347-404 | every certified name ends in the labels of a suffix and is, in the inventory or in the DNS, that of the source; at most four, none twice, none without suffixes |
| `ScepNames.CandidatesArePlain` | scep_shared.go:290-321 | verified request names are free of the separators of an identity |
| `ScepNames.IdentityIsFaithful` | scep_shared.go:447-449 | for names without a comma two identity strings are equal exactly when source and set of names are |
| `ScepNames.IdentityIsPieces` | scep_shared.go:447-449 | for all names: two identity strings are equal exactly when the source is and the sorted names break into the same pieces at commas |
| `ScepNames.SharedNamesAreNotEmpty` | scep_shared.go:347-404 | no outcome of the name check holds an empty name, so that equivalence covers every identity that is stored |
| `ScepNames.UncheckedNamesCollide` | scep_shared.go:390-398 | two outcomes of the name check, for one source, one valid suffix and one inventory, with different name sets and the same identity: the fallback yields an FQDN with a comma |
| `ScepState.PruningIsUnobservable` | scep_store.go:293-306 | from the pruning on, every request gets the same outcome from the pruned journal as from the unpruned one, exactly unless it is the per-device retry at that very instant |
| `ScepState.PruningIsSeenAtTheBoundary` | scep_store.go:300 | such a retry exists: the unpruned journal returns the certificate and the pruned one refuses |
| `ScepState.PruneEntries` | scep_shared.go:204-225 | pruning invents nothing and drops no unpublished issuance |
| `ScepState.FirstRetry` | scep_shared.go:431-439 | finds a stored issuance that answers the request whenever there is one |
| `ScepDecision.UnusedDecision` | scep_protocol.go:376-415 | an unused per-device challenge issues exactly if it is active, profile, policy and expiry allow, and every DNS and IP SAN of the CSR, possibly none, is one of the challenge's; the certificate has all SANs of the challenge, whatever was asked for |
| `ScepDecision.UsedDecision` | scep_protocol.go:369-378 | a used one returns its certificate exactly to the same transaction, CSR and signer, for seven days, while the index has it |
| `ScepDecision.SharedDecision` | scep_shared.go:408-482 | a shared one issues exactly if it is active, the source is in the block of a range, no stored issuance of the last seven days answers the request, no other SANs are asked for, the names are verified, the identity has rested ten minutes, and policy and expiry allow; it returns only the certificate of the same transaction, CSR, signer and source |
| `ScepDecision.UnknownDecision` | scep_protocol.go:366-427 | a hash that no challenge of the selected CA has is refused |
| `ScepInvariant.ExactlyOnce` | scep_protocol.go:367-415 | all SUCCESS replies for one per-device challenge carry one certificate, the one of its journal entry and of any index record with that serial |
| `ScepInvariant.EnrolledRecordIsAccepted` | backup_validate.go:462-466 | the index record of a committed certificate is determined by it and by the time of issue, its PEM is that certificate, and backup validation accepts the record |
| `ScepInvariant.DeletedStaysOut` | scep_store.go:309-369 | a deleted certificate is in the trash only: nothing can publish it again and no request at any time gets it back |
| `ScepInvariant.RetryIsUnique` | scep_shared.go:431-439 | at any time at most one stored issuance answers a given transaction, request, signer and source |
| `ScepInvariant.RetryReturnsSame` | scep_shared.go:431-439 | within seven days a retry gets that same DER, whose only IP SAN is the source, inside a stored range |
| `ScepInvariant.RateLimitHolds` | scep_shared.go:450-454 | two issuances of one identity of a shared challenge are at least ten minutes apart in every reachable state |
| `ScepInvariant.SameCertificateIsLimited` | scep_shared.go:447-481 | so are two certificates of one shared challenge with the same IP SANs and the same set of DNS names |
| `ScepInvariant.RateLimitIsPermanent` | scep_shared.go:204-225 | and so are any two certificates ever committed for one challenge with the same addresses and names, whether or not the journal still has them: pruning forgets nothing the limit needs |
| `ScepInvariant.PruneRemembers` | scep_shared.go:204-225 | for every issuance ever committed, the pruned list keeps one of its identity that is no older |
| `ScepInvariant.ReplaceJournal` | scep_store.go:110-116 | replacing the journal by one that continues it keeps the invariant |
| `ScepInvariant.CommitIssuance` | scep_protocol.go:400-415 | so does a journal with one more committed issuance under a fresh serial |
| `ScepInvariant.DropRecords` | store.go:743-749 | dropping trashed records from the index keeps the invariant once nothing is pending |
| `ScepInvariant.PublishContinues` | scep_store.go:309-342 | marking issuances published is safe exactly after their records are in the index |
| `ScepSteps.IssueIsSpaced` | scep_shared.go:430-454 | when the decision is to issue, the new issuance keeps every retry and rate-limit distance |
| `ScepSteps.PruneContinues` | scep_store.go:293-306 | a pruned journal continues the old one |
| `ScepSteps.UseCommits` | scep_protocol.go:396-410 | using a per-device challenge commits one issuance and can never happen twice |
| `ScepSteps.AddCommits` | scep_shared.go:464-475 | so does appending to a shared challenge, bound to its source |
| `ScepService.ScepService.PublishOne` | scep_store.go:346-369 | publishing writes the PEM and adds the record unless the index has it, survives a fault at every write and can be repeated |
| `ScepService.ScepService.Recover` | scep_store.go:309-342 | on success every issuance that was pending has its PEM and its record and the journal says so; a missing CA is an error and loses nothing; the index only grows by pending records; at every stop the invariant holds |
| `ScepService.ScepService.CommitAndRespond` | scep_protocol.go:408-415 | the journal is saved before anything is projected and SUCCESS is sent only after the record is indexed |
| `ScepService.ScepService.EnrollDevice` | scep_protocol.go:370-415 | SUCCESS is the per-device decision of the journal and is recorded for that challenge and for this very request; on an unused challenge it is given exactly for CSRs whose SANs are among the challenge's, and the certificate has the challenge's; FAILURE is a refusal, or that of a retry whose index could not be read |
| `ScepService.AllowedSCEPIdentities` | scep_protocol.go:287-313 | the loops accept exactly if the CSR's DNS names and addresses are subsets of the challenge's and it has no other SANs |
| `ScepService.ScepService.EnrollShared` | scep_shared.go:408-482 | SUCCESS is the shared decision, carries exactly the source, inside a range, as IP SAN and only DNS SANs whose last labels are a suffix's, each belonging to the source if it was issued now, and is recorded for this very request; FAILURE is a refusal, or that of a retry whose index could not be read |
| `ScepService.ScepService.Enroll` | scep_protocol.go:316-428 | whatever storage does, SUCCESS is the decision that the recovered journal makes for this request, and FAILURE is its refusal, or that of a retry while the index is unreadable; a returned certificate is indexed, was never deleted, and belongs to a journal entry of this transaction, CSR and signer; on an unused per-device challenge a definite reply is SUCCESS exactly if the challenge permits the CSR, and on a shared one the certificate is bound to the source as above; with working storage there is always a definite reply, and it is the decision |
| `ScepService.ScepService.Create` | scep_store.go:222-292 | the journal is the old one, the recovered one, or the recovered and pruned one with the new challenge at the end; with working storage it is the last exactly for a usable CA, valid parameters, no pending issuance of a missing CA, and room under the limit |
| `ScepService.ScepService.Revoke` | scep_store.go:394-419 | the journal is unchanged or has the one challenge revoked; with working storage that succeeds exactly for an unused per-device or a shared challenge |
| `ScepService.ScepService.DeleteChallenge` | scep_store.go:423-455 | the journal is unchanged or lacks the one challenge, and no pending issuance goes with it; with working storage that succeeds exactly for a revoked or expired challenge that is unused, or shared with everything published |
| `ScepService.ScepService.SelectCa` | scep_store.go:144-160 | the selection is unchanged or the CA asked for; with working storage that succeeds exactly for a usable, unlocked one |
| `ScepService.ScepService.Startup` | scep_store.go:163-171 | everything pending has its PEM and record before anything is served, and the index only grows by those records; with working storage that succeeds exactly when every CA with a pending issuance is usable |
| `ScepService.ScepService.DeleteCert` | store.go:661-684 | pending issuances are reconciled first, then exactly the one leaf leaves index and certificates, for good; with working storage that succeeds exactly for a leaf that is indexed or pending |
| `ScepService.ScepService.DeleteCa` | store.go:632-658 | exactly the subtree of the reconciled index is deleted, committed but unindexed certificates included, and its directories and records are in the trash; with working storage that succeeds exactly when every CA pending issuances need is there, the id is that of exactly one intermediate record and every CA of its subtree has its directory |
| `ScepService.InterruptedDeletionSticks` | store.go:715-719 | when an indexed CA has lost its directory, neither it nor any CA above it can be deleted |
| `ScepService.InterruptedDeletionWitness` | store.go:689-750 | an index on which an interrupted deletion of the lower CA makes the deletion of both impossible |
| `ScepService.ScepService.Trash` | store.go:689-750 | records leave the index in the last step or not at all, and are in the trash before; with working storage that succeeds exactly when each CA among them has its directory when its rename comes |
| `ScepService.PruneAll` | scep_store.go:293-306 | filtering both lists computes the specified pruning |
| `ScepService.PruneOne` | scep_shared.go:204-225 | the newest-per-identity map keeps exactly the issuances that retention, publication or recency demand |
| `ScepService.ScepService.Run` | scep_store.go:309-455 | every sequence of operations, faults, crashes and restarts keeps the invariant, and history only grows |
| `Envelope.Decrypt` | scep_protocol.go:129-160 | the key is handed on exactly when it has the cipher's length and the ciphertext is the CBC encryption of some padded message |
| `Envelope.CheckPadding` | scep_protocol.go:150-158 | the byte loop accepts exactly paddings of one whole block or less whose bytes all equal their count |
| `Envelope.PaddingDeterminesMessage` | scep_protocol.go:150-158 | padded bytes determine the message |
| `Envelope.DecryptAfterEncrypt` | scep_protocol.go:148-149 | CBC decryption undoes encryption |
| `Envelope.EncryptAfterDecrypt` | scep_protocol.go:148-149 | and encryption undoes decryption |
| `Templates.ExpandDefinitionTemplate` | definition_template.go:23-55 | the scanning loop equals tokenize-and-substitute: same text, same first empty variable, same error; values are never expanded again |
| `Templates.PlaceholderExpands` | definition_template.go:23-55 | text without braces is kept and a placeholder, with any space inside its braces, becomes that value of the device, before whatever the rest expands to; the first empty value is reported |
| `Templates.ExpandSucceeds` | definition_template.go:23-55 | success depends on the template alone, never on values |
| `Templates.CheckDefinitionTemplates` | definition_template.go:60-84 | accepts exactly a nonempty well-formed name and entries that are well-formed and valid where they have no placeholder |
| `Templates.SavedNameIsUsable` | definition_template.go:89-100 | a saved name expands for every device and is empty only through an empty value |
| `Templates.DefinitionSubject` | definition_template.go:89-135 | the subject is the expanded name and exactly the texts of those entries that need no empty value, each once, in the order in which they occur first, addresses in canonical form; a checked definition never gives a syntax error or an empty name |
| `Templates.CertDefinition.MigrateLegacyDefinition` | definition_template.go:140-158 | a migrated definition passes the save-time check exactly when each legacy SAN is an address, a valid name or a well-formed template; others are left alone |
| `Templates.PlaceholderIsValid` | definition_template.go:140-158 | the placeholders that migration writes are single variables |
| `StrictJson.StrictJSON` | backup.go:221-261 | accepts the tokens of a value exactly when no object at any level repeats a key after lowercasing, no value has more than 32 containers around it, and nothing follows |
| `StrictJson.Decoder.Walk` | backup.go:223-256 | recursive descent over tokens agrees with the recursive predicate on the value and stops behind it |
| `StrictJson.Decoder.WalkMembers` | backup.go:232-253 | the key set of one object finds exactly the repeated keys, before their values are read |
| `StrictJson.StrictIsEverywhere` | backup.go:221-256 | a value is accepted exactly when nothing inside it, however deep, has more than 32 containers around it or is an object with two keys that are equal in lower case |
| `StrictJson.TokensAreUnambiguous` | backup.go:221-261 | a token stream determines the value it begins with |
| `BackupSeal.OpenBackup` | backup.go:64-81 | returns a plaintext exactly when the file is what sealing it makes under the same password |
| `BackupSeal.SealBackup` | backup.go:38-62 | sealing succeeds exactly for passwords of 12 to 1024 bytes that are not blank and at most 64 MiB, and adds magic, salt, nonce and tag |
| `BackupSeal.OneSealing` | backup.go:46-62 | a sealed file determines plaintext, salt and nonce |
| `Snapshot.CollectFiles` | backup.go:140-192 | the walk succeeds exactly on files that staging's own checks accept, within the count |
| `Snapshot.Collect` | backup.go:126-217 | a snapshot is the walk followed by one passphrase file for each CA that has one, and fails exactly for an unexpected name or an exceeded size, total or count |
| `Snapshot.SnapshotIsAccepted` | backup.go:288-303 | a snapshot passes the path, duplicate and size checks of staging exactly when the CA ids of its passphrase files are well-formed |
| `Snapshot.SnapshotOfStoreIsAccepted` | backup.go:193-215 | every snapshot of a store in which each CA of the index has its certificate file is accepted, because the walk lets no ill-formed CA id pass |
| `Snapshot.SnapshotIsInOrder` | backup.go:126-217 | the archive that a snapshot of such a store writes is in order for staging exactly when its contents validate |
| `Snapshot.WalkedIdIsWellFormed` | backup.go:83-122 | a CA directory with an accepted path has a well-formed id of at most 245 bytes |
| `Snapshot.UnknownIdIsRefused` | backup.go:193-215 | an index entry under an ill-formed id, with a passphrase file and no directory, gives a snapshot that staging refuses |
| `Snapshot.SecretPathAccepted` | backup.go:83-122 | a passphrase path is accepted exactly for a CA id of at most 245 bytes |
| `Snapshot.SnapshotRoundTrip` | backup.go:290-303 | unpacking a snapshot gives back every collected file and nothing else |
| `ArchivePaths.CleanPathIsNormal` | backup.go:84-86 | a path equal to its cleaned form has no empty or dot component, and dot-dot only in front |
| `ArchivePaths.AcceptedPathsArePrefixFree` | backup.go:83-122 | no accepted path's components begin another's, and accepted paths with equal components are equal |
| `ArchivePaths.AcceptedPathsStayInside` | backup.go:83-122 | an accepted path has no dot-dot component and begins with the file name of a component that activation swaps |
| `ArchivePaths.AcceptedPathsAreStoreFiles` | backup.go:83-122 | accepted are exactly the paths, up to 256 characters, of the files that a store writes, name by name, and of what a deletion moved |
| `Staging.UnpackKeepsEveryFile` | backup.go:290-303 | no file of an archive overwrites another |
| `Staging.UnpackedPaths` | backup.go:290-303 | the unpacked tree has exactly the archive's paths |
| `Staging.Stage.WriteFiles` | backup.go:288-303 | the loop yields exactly the archive's path-to-bytes map, and with working storage succeeds exactly when paths, duplicates and sizes are in order: a directory never meets a file |
| `Staging.Stage.Recover` | scep_store.go:309-342 | recovery inside the stage projects the pending issuances in journal order and marks them |
| `Staging.ProjectAllIsExact` | scep_store.go:346-369 | it changes only PEM files of pending issuances and appends to the index only their missing records, each once |
| `Staging.Stage.RevokeUnused` | backup.go:319-323 | exactly the unused per-device challenges are revoked |
| `Staging.Stage.StageBackup` | backup.go:267-354 | the staged tree equals the archive except for the session key, the journal (published and disarmed), the projections of pending issuances and, if asked for, the tls pair; with working storage exactly the archives in order whose pending issuances have a usable CA are staged |
| `Staging.StagedTreeIsStaged` | backup.go:267-354 | the sequence of writes changes no other path |
| `Staging.StagedTreeIsDisarmed` | backup.go:312-330 | in every staged tree no unused per-device challenge is unrevoked, each request on one is refused, and every other request gets the decision of the archived journal |
| `StagedJournal.StagedJournalIsDisarmed` | backup.go:319-323 | a staged journal refuses every request on a per-device challenge archived unused, and answers every other one as the archived journal would |
| `RestoreRequest.HandleRestore` | backup_http.go:241-297 | a refused request leaves the volume alone; an accepted one ends, at the first recovery that succeeds, in the original live data, or, once the committed journal was written, in the archive's files with every other path determined: session key, disarmed journal, projections, device key and credentials, tls pair, passphrases; with working storage exactly the archives that can be staged are accepted, and every one of those ends in the archive |
| `RestoreRequest.Adjust` | backup_http.go:246-279 | between staging and activation only a missing device key, undecryptable credentials and external passphrases change; with working storage it always succeeds |
| `RestoreRequest.StagedIsRestored` | backup.go:267-354 | the components of the adjusted stage hold the archive's file at every accepted path outside the listed ones, and at those the new session key, the disarmed journal, the grown index, due certificates, the archive's device key or else the instance's, the credentials it opens, and no passphrases if they are kept elsewhere |
| `RestoreRequest.FileOfComponents` | backup.go:24-26 | splitting a tree into the swapped components loses no accepted path |
| `RestoreRequest.SnapshotIsRestored` | backup.go:126-217 | every collected file of a snapshot that was restored is back at its path, outside the listed ones |

## Left out

- Cryptography and third-party parsing (x509, PKCS#7 and SCEP messages, RSA, PBKDF2): symbolic functions or parameters.
- Key unlocking, passphrase files at run time, key encryption: the parameters `keyOk`, `unlocked` and `ready`.
- HTTP routing, forms, CSRF, sessions, flash messages, logging and the user interface.
- gNOI push, inspection and revocation, device checks, tools page.
- Users, devices, certificate templates and log stores: their rules are local and light; template policy checks are the parameters `policyOk` and `profileOk`.
- DNS: an arbitrary function from a name to addresses or failure. Unicode case folding of names: a parameter with the two facts used of it.
- Loss of a rename or reordering below fsync: excluded by the file-system requirements the repository documents.
- What certificates issued by a replaced root still verify against: `CreateRoot` says when the tree invariant survives and does not model keys.
- The legacy single intermediate created by old versions is not in the runs of `CaTree`; legacy records are covered in `Validator` and `IssuerWalk`.
- Empty directories below a component, and passphrases written outside the data directory after a restore.
- Storage errors in the middle of `CreateIntermediate` and `IssueCert`, which write files before the record: `CaTree` covers successful steps, `ScepService` and `Restore` cover faults.
- Partial writes of the index and trash index by `os.WriteFile`: a write happens or does not.
- Two timestamps taken inside one operation are one reading of the clock.
- `validateBackup` beyond records, chains and the journal fields staging relies on: an arbitrary predicate of the staged tree. In particular its restriction to the server profile means that not every snapshot restores, and nothing here claims so.
- Moving a deleted CA's passphrase file to the trash: best effort in the code, not modelled.
- `setAllowDES`, the choice of digests and ciphers, CertRep encoding errors: one-branch checks.
- `syncTree`, file modes and `syncDir`: a step that can fail and changes no contents.
- ScepNames.IdentityIsFaithful: only for names without a comma, because `IdentityIsPieces` is the statement for all names and this is what it says there.
- Asn1.BoundedSCEPASN1: byte order and tag numbers above 30 are rejected as the code does; application schemas decoded later are not modelled.
- ScepService.ScepService.Enroll: the checks of the request message run before the model's `parsed`; the order of the readiness check and the parse is that of the code, their reasons are not distinguished.
- Staging.Stage.StageBackup: the contents of the regenerated tls pair are parameters, and the timestamp format of trash directories is an arbitrary predicate, which makes the path results independent of it.
- StrictJson.StrictJSON: syntax errors are reported by the decoder before the walk sees a token; decoding into the schema and unknown fields are not modelled.
