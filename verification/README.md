# A verified model of ZoidbergChain's durable core

A ZoidbergChain node keeps one durable document behind a lock. Any number of in-memory facades hold
snapshots of it, and report, mint, finalize, reorganise and save through that lock while their snapshots
grow stale. This project models the parts of the node whose correctness depends on how those operations
interleave, the caches that shadow the document, and the codecs whose output is hashed or signed, and proves
what the code promises about them. `dafny verify dfyconfig.toml` checks the whole project.

## What is modelled

- **Community reports.** `CommunityReport` and `ReportTallyTheorems` are the one-wallet-one-report tally and
  what it means; `ReportAdmission` and `ReportConvergence` are the admission of signed reports and its
  convergence under reordering, repetition and invalid records.
- **The durable document.** `Documents` and `Finality` are the document and the guarded write of storage.py,
  as methods over a `Storage` object proved against one write function. `FinalityTheorems` proves finality over whole
  histories of arbitrary writes, and `FinalityCache` over whatever documents a facade is offered.
- **Saves, commits, adoptions, runs.** `NodeSteps` and `Adoption` give the other writers as functions of the
  locked document; `SaveTheorems`, `CommitTheorems` and `AdoptionTheorems` say what each keeps. `NodeRuns` proves
  safety over every interleaving of any number of facades, and `StaleRuns` what a stale facade can and cannot undo,
  with the runs in which it does. `Facade` is the class whose methods perform these steps on its fields and on
  storage; `FacadeTheorems` shows that they are steps of the runs. `Sections` is the normalization of stored sections.
- **Caches.** `ValidatedPrefix` is the validated chain prefix, `DisputeIndex` the two incremental dispute indexes.
- **Reviews.** `DualReview`, `DualReviewTheorems` and `AdmissionCertificate` are the two-dimensional review and the
  frozen votes of an admission certificate.
- **Bytes and texts.** `Png`, `Webp` and `Jpeg` are the container walkers, each against a grammar; `BoundedDecoding` the
  media payload decoder and the chunked reader; `Amount` and `AmountTheorems` the amount canonicaliser;
  `TransferMessage` and `TransferTheorems` the signing message; `BlockPayload` and `BlockPayloadTheorems` the two
  routes to a block's consensus payload.

`Ordering`, `Wrappers`, `Text`, `Digits` and `MediaBytes` are shared definitions.

## Where the code does less than it seems to

Each of these is shown by the lemmas named, with its exact condition and an input or a run on which it happens;
the model follows the code.

- Adopting a winning branch merges the adopting facade's submissions and queue over the durable document without
  the stale-report guard of saves. A facade that loaded the document before the reports arrived makes a
  submission over the threshold lose its reports and its quarantine and enter the queue again. The design note
  docs/milestone-6-task-6.7-community-reporting.md says that a stale facade cannot requeue it.
  (`AdoptionTheorems.AdoptionKeepsQuarantineExactly`, `StaleRuns.AdoptionKeepsReportsExactly`,
  `StaleRuns.StaleAdoptionUndoesQuarantine`)
- A quarantine for any other reason, without reports over the threshold, is undone by the save of a facade that
  has not seen it. (`StaleRuns.SavesKeepQuarantineExactly`, `StaleRuns.StaleSaveUndoesOtherQuarantine`)
- The stale-queue step after a failed commit replaces the threshold reason of a submission under report
  quarantine; its reports are then closed, and their status raises. (`SaveTheorems.StaleQueueStepClosesReports`)
- A save may take an unfinalized block off the chain, and the commit that made it then succeeds again.
  (`StaleRuns.NothingIsMintedTwice`, `StaleRuns.StaleSaveLetsACommitRepeat`)
- Reports and certified commits store the serialized state, which has no peer section. In SQLite, where the
  document carries the peers, stored peers survive them only if there are none; the JSON backend keeps peers in a
  file of their own (storage.py:1445-1455). (`Sections.StateKeepsTheRestExactlyWithoutPeers`)
- The incremental finality set is exact exactly when a marker found in place has the old records before it:
  always between the lists that guarded writes leave, which are sorted by height, and not for every list that
  keeps its records. (`DisputeIndex.IncrementalIsExact`, `DisputeIndex.HistoryKeepsIndexExact`,
  `DisputeIndex.UnsortedGrowthMisses`)
- At the interface of admission_certificate.py a wallet with an upper-case 0X prefix does not vote in the review of
  the votes as cast, and does in the review of the frozen votes. Inside the node both reviews are of verified
  votes, and always agree. (`AdmissionCertificate.FreezingPreservesTally`,
  `AdmissionCertificate.UpperCasePrefixAddsAVoice`, `AdmissionCertificate.VerifiedVotesKeepTheirTally`)
- Amounts of more than 28 significant digits are accepted and rounded. (`AmountTheorems.ValueIsKeptExactly`,
  `AmountTheorems.LongAmountChanges`)
- A memo may contain a line boundary, and is then not what a reader of the signed message gets.
  (`TransferTheorems.RoundTrip`, `TransferTheorems.TwoLineMemo`)
- The dictionary route to a block's consensus payload neither trims strings nor converts counters, so it differs
  from the attribute route on exactly the blocks that need either. (`BlockPayloadTheorems.RoutesAgree`,
  `BlockPayloadTheorems.PaddedMinerDiffers`, `BlockPayloadTheorems.TextCounterDiffers`)
- Base64 payloads may carry surplus padding and non-zero unused bits. (`BoundedDecoding.Base64IsCanonical`,
  `BoundedDecoding.LooseTextsAreAccepted`)

## Model

| member | source | states |
|---|---|---|
| `CommunityReport.ReportTally` | community_report.py:149-218 | the loops of `report_tally` compute the tally function: first record of each wallet in canonical order, established evidence of each wallet, threshold and trigger, or the duplicate error |
| `CommunityReport.FoldOrdered` | community_report.py:156-167 | the ordered pass fills `representatives` and `established_evidence` with exactly the first record of each wallet, and stops on the first repeated fingerprint |
| `CommunityReport.FindTrigger` | community_report.py:187-196 | the search for an established third reporter returns the canonical trigger of the counted items |
| `ReportTallyTheorems.TallyRaisesExactlyOnDuplicates` | community_report.py:159-163 | the tally raises exactly when two of the records have one fingerprint; the search of line 193 never runs out |
| `ReportTallyTheorems.TallyMeaning` | community_report.py:168-182 | the counts are the numbers of distinct wallets and of distinct established wallets; met exactly at three and one; each item is the least record of its wallet, items strictly ordered by wallet |
| `ReportTallyTheorems.TriggerIsLeastEstablishedTriple` | community_report.py:187-196 | a met threshold names three distinct wallets in order with at least one established, pointwise least among all such triples |
| `ReportTallyTheorems.EvidenceOnlyAccumulates` | community_report.py:149-218 | adding records never lowers a count and never un-meets the threshold |
| `ReportTallyTheorems.TallyIsOrderIndependent` | community_report.py:151-153 | any permutation of the records has the same tally |
| `ReportAdmission.Scanning` | blockchain.py:1560-1567 | the loop over the stored reports: equal record, same identity on a different record, or new, in the order the source finds them |
| `ReportAdmission.ScanMeaning` | blockchain.py:1560-1567 | where no two wallets share an identity, the scan says whether the record is already stored, and never a conflict |
| `ReportConvergence.ReportsConverge` | blockchain.py:1527-1592 | from one reviewable submission, any two delivery sequences with the same set of valid records, in any order and with any repeats and invalid records, end with the same list, tally, status, evidence and queue membership |
| `ReportConvergence.QuarantineIsDecidedByTheSet` | blockchain.py:1574-1588 | after any deliveries the submission is QUARANTINED exactly when three distinct wallets and one established reporter are among the valid records |
| `ReportConvergence.UntouchedChainIsStored` | storage.py:191-249 | a replacement that leaves chain and finality sections alone passes the storage guards and is stored unchanged |
| `SaveTheorems.SaveKeepsEvidence` | blockchain.py:512-541 | no save from an arbitrary snapshot changes the stored reports or report evidence of any submission that has some, forges reports, or touches a dispute or peer record |
| `SaveTheorems.SaveKeepsThresholdQuarantine` | blockchain.py:525-532 | a save keeps status and reason of a submission standing under the threshold reason, and keeps it out of the queue |
| `SaveTheorems.GuardHoldsExactlyUnderThresholdReason` | blockchain.py:525-532 | no save of any snapshot whatever, held by a facade or not, can lift the quarantine of a submission if and only if its reason is the threshold reason |
| `StaleRuns.SavesKeepQuarantineExactly` | blockchain.py:512-541 | of the snapshots that runs produce, no save can end a quarantine or queue the submission if and only if its reason is the threshold reason or its reports meet the threshold |
| `StaleRuns.StaleSaveUndoesOtherQuarantine` | blockchain.py:512-541 | a run: a facade loads a document with a queued submission, another quarantines it for a stale admission, and the save of the first puts it back in the queue |
| `SaveTheorems.StaleQueueStepClosesReports` | blockchain.py:3839-3851 | after the stale-queue step has replaced the reason, every further report of the submission is refused as quarantined otherwise, and the status of its reports can be read if and only if they do not meet the threshold |
| `Sections.Normalize` | storage.py:1309-1314 | the `setdefault` loop fills in exactly the missing storage sections |
| `Sections.StateKeepsTheRestExactlyWithoutPeers` | blockchain.py:384-411 | an operation that stores the serialized state, as a report and a certified commit do (blockchain.py:1592, 4618), keeps every SQLite section it did not change if and only if no peer was stored |
| `Sections.SaveKeepsTheRest` | blockchain.py:533-541 | a whole-state save keeps every section it did not change, the peers included |
| `AdoptionTheorems.AdoptionKeepsQuarantineExactly` | blockchain.py:5296-5417 | for an arbitrary snapshot: adopting a branch keeps a quarantined submission, its reports and its evidence if and only if the adopting facade lacks the submission or holds it in the same standing, and does not queue it, and the branch does not mint it |
| `StaleRuns.AdoptionKeepsReportsExactly` | blockchain.py:5296-5417 | for the snapshots that runs produce: an adoption keeps a submission over the threshold where it is if and only if the facade holds its durable reports, or holds neither the submission nor a place for it in the queue, and the branch does not mint it |
| `StaleRuns.StaleAdoptionUndoesQuarantine` | blockchain.py:5296-5378 | a run: a facade loads a document, another delivers reports until the submission is quarantined, and the first adopts a longer branch; the submission ends without reports, QUEUED and in the mint queue |
| `CommitTheorems.CommitMintsExactlyOne` | blockchain.py:4470-4518 | a non-replay success appends exactly one block, which carries the request, and moves its submission from QUEUED to MINTED and out of the queue; nothing else changes |
| `CommitTheorems.CommitIsIdempotent` | blockchain.py:640-660 | after any later history that kept the block, the same request is answered by that block and changes nothing |
| `CommitTheorems.NoSecondMint` | blockchain.py:640-660 | a submission or certificate already on the chain is never committed again, whoever asks |
| `CommitTheorems.StaleHeadChangesNothing` | blockchain.py:4563-4564 | a caller whose expected head is stale leaves the durable document unchanged |
| `CommitTheorems.OneWinnerPerHead` | storage.py:546-554 | of two attempts prepared on one head only the first to take the lock changes the document |
| `CommitTheorems.CommitSucceedsExactly` | blockchain.py:4558-4618 | on a sound document the commit succeeds exactly when its own checks pass: the storage guards never refuse a fresh certified block |
| `CommitTheorems.MatchesMeaning` | blockchain.py:640-650 | replay looks at exactly the blocks that share the submission or the certificate |
| `NodeRuns.ThresholdIsSafeInEveryRun` | blockchain.py:1536-1592 | over every run of reports, disputes, saves, certified commits, queue quarantines, finalizations and branch adoptions by any number of facades with stale snapshots, a submission whose stored reports meet the threshold is QUARANTINED, unqueued and without a block; of the adoptions it asks that the adopting facade has seen the reports and the branch does not mint the submission |
| `NodeRuns.EvidenceOnlyGrows` | blockchain.py:512-541 | in every interleaving, even with arbitrary snapshots, report and dispute evidence only grows, as long as adopting facades have seen the reports |
| `NodeRuns.RunsKeepClaimsUnique` | storage.py:409-432 | in every state of every run, finalized or not, no two blocks share a height, a hash, a submission or a certificate |
| `NodeRuns.RunsKeepFinality` | storage.py:191-249 | in every run finality records and the chain below them are kept |
| `StaleRuns.NothingIsMintedTwice` | blockchain.py:4520-4645 | over every run two commits by whichever facades never mint one submission or one certificate, unless a save or an adoption between them took a block off the chain |
| `StaleRuns.StaleSaveLetsACommitRepeat` | blockchain.py:512-541 | the exception occurs: a run in which a stale save drops the unfinalized block of a commit, and the same commit succeeds again |
| `Finality.Storage.Replace` | storage.py:1431-1443 | the guarded write replaces the document by the write function's result or leaves it alone |
| `Finality.CheckClaims` | storage.py:409-432 | the claim scan accepts exactly chains in which heights, hashes, submissions and certificates are unique and every certified block names both of the latter |
| `Finality.CollectProofs` | storage.py:200-214 | the merge of durable and incoming finality records: one record per height, or a conflict |
| `Finality.CheckKept` | storage.py:215-232 | the ancestry checks of the guard: the replacement has the certified heights and repeats the old chain up to the old boundary |
| `Finality.MergeVotes` | storage.py:233-244 | the vote merge by message, refusing a contradiction, dropping untargeted votes only in a reorganisation |
| `Finality.NoVoteIsLost` | storage.py:233-244 | outside a guarded reorganisation every vote survives the merge, up to its signature |
| `FinalityTheorems.WriteIsSound` | storage.py:191-249 | whatever is offered, a write that is let through leaves unique claims, one record per height, and every record on the chain |
| `FinalityTheorems.WriteKeepsFinality` | storage.py:191-249 | it keeps every finality record and every block at or below a certified height |
| `FinalityTheorems.HistoryIsSound` | storage.py:191-249 | every document of a history of arbitrary writes is sound |
| `FinalityTheorems.FinalityIsMonotone` | storage.py:191-249 | over histories of arbitrary writes by any facade, finality records and the chain below them are never lost |
| `FinalityTheorems.NoHeightFinalizedTwice` | storage.py:191-249 | no height carries two records, not even at different times |
| `FinalityTheorems.AdoptionGuardsAgree` | blockchain.py:5256-5268 | for hash-linked chains the candidate's height-and-hash check agrees with the storage ancestry check in both directions |
| `FinalityTheorems.AdoptionNeverReplacesFinalized` | blockchain.py:5339-5419 | an adopted rebuild is stored exactly when the candidate preserves the records, and then keeps every block up to each finalized one |
| `FinalityCache.DecisionsPersist` | blockchain.py:2857-2873 | for any sequence of offered documents a cached (height, hash) stays cached |
| `FinalityCache.OneDecisionPerHeight` | blockchain.py:2857-2873 | no height gets two hashes in the life of a cache |
| `FinalityCache.PublishedIsOnSelectedChain` | blockchain.py:2869-2870 | every record of an accepted document is on its chain |
| `FinalityCache.LaterStateIsAccepted` | blockchain.py:2857-2873 | a cache of an earlier durable state accepts every later state of the same history |
| `FinalityCache.StaleRefreshIsRefused` | blockchain.py:2871-2873 | a document that lacks a cached decision is refused |
| `FinalityCache.RefreshKeepsVotes` | blockchain.py:2878-2887 | a refresh of the same chain loses no newer vote that fits the chain |
| `Facade.Blockchain.CheckFinalityTransition` | blockchain.py:2857-2873 | the check's loops decide the transition predicate |
| `Facade.Blockchain.Publish` | blockchain.py:2876-2889 | accepted records and merged votes are installed, a refused document changes nothing |
| `Facade.Blockchain.Restore` | blockchain.py:663-736 | a facade takes the whole document, less its peer section, or stays as it was |
| `Facade.Blockchain.StatusReturns` | blockchain.py:1495-1526 | whether `report_status` returns for a stored submission |
| `Facade.Blockchain.RecordCommunityReport` | blockchain.py:1527-1601 | the operation as it changes facade and storage; whether it succeeds or fails, the facade ends with the stored document, and a facade whose cache refuses the document stays as it was |
| `Facade.Blockchain.SaveBlockchain` | blockchain.py:509-544 | the save stores the save function's result or refuses; of the facade it changes the finality cache alone, as the cache rule says |
| `Facade.Blockchain.ResolveCertifiedReplay` | blockchain.py:640-660 | the replay loop computes the replay function |
| `Facade.Blockchain.ApplyCandidate` | blockchain.py:4470-4518 | block, status and queue after the commit's in-memory application |
| `Facade.Blockchain.CommitCertified` | blockchain.py:4520-4645 | the compare-and-swap commit as it changes facade and storage; after a failure the facade holds its own snapshot again, unless the certificates it has just published refuse the snapshot; a stale admission is quarantined |
| `Facade.Blockchain.AdoptCanonicalChain` | blockchain.py:5339-5389 | the merge, the rebuild and the guarded write of a winning branch store exactly what the adoption function gives, and the facade then holds it |
| `FacadeTheorems.FacadeDeliversUpToVotes` | blockchain.py:1527-1592 | whatever votes the facade has cached, it admits a report exactly when the plain delivery does, with the same action, and stores the same document up to the new votes that fit the chain |
| `FacadeTheorems.FacadeDeliveryIsARun` | blockchain.py:1527-1601 | a report through the facade object is a run of three steps: the plain delivery, the publication of its votes, and its own view of the result |
| `FacadeTheorems.FacadesConverge` | blockchain.py:1527-1601 | two delivery sequences through any facades, with whatever votes cached, end with one record of the submission and one place in or out of the queue if their valid records are the same set |
| `FacadeTheorems.FacadeCommitsUpToVotes` | blockchain.py:4520-4645 | whatever votes the facade has cached, its certified commit has the outcome of the plain commit and stores the same document up to those votes |
| `FacadeTheorems.FacadeCommitIsARun` | blockchain.py:4520-4645 | a certified commit through the facade object is a run of three steps |
| `Facade.OwnWriteIsAccepted` | blockchain.py:2857-2873 | a facade that restored the document it changed never refuses the document it has just written |
| `Facade.SectionsAreInvisible` | blockchain.py:1527-1592 | admission of a report depends neither on the peer section nor on the finality votes |
| `Documents.SameHashSamePrefix` | blockchain.py:4966-4977 | in hash-linked chains with collision-free hashes, equal hashes at one position mean equal blocks up to it |
| `ValidatedPrefix.Validator.EnsureValidatedPrefix` | blockchain.py:4950-4996 | a normal return means the whole chain is valid, a valid chain returns, and the cached hashes stay those of a fully valid chain |
| `ValidatedPrefix.Validator.AcceptCandidate` | blockchain.py:4937-4948 | a candidate is accepted exactly when the extended chain is valid, the index follows, and the candidate passes the transaction check (services/block_validation_service.py:309-311) that no other block undergoes; the cache stays truthful even if the block is never committed |
| `ValidatedPrefix.Validator.IsChainValid` | blockchain.py:5173-5191 | full validation, and its effect on the cache |
| `ValidatedPrefix.Validator.ValidateChain` | services/block_validation_service.py:355-374 | the slow form: every block has the right hash, link and rules |
| `DisputeIndex.BlockIndex.Lookup` | blockchain.py:1602-1616 | after every call, under any appends and hash-linked replacements, the index is the full scan of the chain, and the answer is its entry |
| `DisputeIndex.FullScanMeaning` | blockchain.py:1610-1612 | the scan holds the height of the last media block of each submission, and nothing else |
| `DisputeIndex.FinalityIndex.Contains` | blockchain.py:1629-1650 | the answer is membership in the set and agreement with the chain; an exact set becomes the incremental set of the old and the new list, and no call adds a reference that neither list has |
| `DisputeIndex.IncrementalIsExact` | blockchain.py:1634-1642 | for lists of distinct records the incremental set is the full one if and only if a marker found in place has the old records, in some order, in all the places before it |
| `DisputeIndex.SortedGrowthIsExact` | storage.py:248 | for height-sorted lists that keep the old records the set is exact |
| `DisputeIndex.HistoryKeepsIndexExact` | storage.py:248 | so it is between any two states of a history of guarded writes, which leave such lists |
| `DisputeIndex.AppendIsExact` | blockchain.py:1639-1641 | for append-only lists the set is exact |
| `DisputeIndex.UnsortedGrowthMisses` | blockchain.py:1634-1638 | a list that keeps every record and the marker in its place, but not the order, of which a record is missing from the set; no guarded write leaves it |
| `DualReview.TallyVotes` | dual_review.py:170-218 | the loop over sorted votes computes the tally function or its error |
| `DualReviewTheorems.TallyRaisesExactly` | dual_review.py:170-189 | the tally raises exactly on an unknown dimension, an invalid choice among the selected votes, or two eligible votes of one wallet that disagree |
| `DualReviewTheorems.EveryVoterCountsOnce` | dual_review.py:190-216 | positive, negative and unsure add up to the distinct eligible wallets; without a decisive vote the outcome is unresolved |
| `DualReviewTheorems.PositiveExactlyOnCertificateQuorum` | milestone5_policy.py:46-65 | the positive outcome holds exactly when the separately written certificate rule holds |
| `DualReviewTheorems.TallyDependsOnTheSet` | dual_review.py:174-190 | the result depends only on the set of counting ballots and on the validity of the choices, when wallet and identity tell counting ballots apart |
| `AdmissionCertificate.FrozenVotes` | admission_certificate.py:99-122 | the loops of `_frozen_votes` compute the freeze function |
| `AdmissionCertificate.FreezeMeaning` | admission_certificate.py:99-122 | freezing fails exactly when two normalised votes share dimension and wallet and differ; otherwise it lists every normalised vote once, one per place, in order |
| `AdmissionCertificate.FreezeDependsOnTheSet` | admission_certificate.py:99-122 | any two orderings or repetitions of the same votes both fail or freeze to the same list |
| `AdmissionCertificate.FreezeIdempotent` | admission_certificate.py:208-210 | a frozen list freezes to itself, so the validator's canonical comparison accepts what was built |
| `AdmissionCertificate.AssembledVotesAlwaysMatch` | admission_certificate.py:138-162 | a built certificate fails validation of its votes only through an unverified vote or an unqualified review |
| `AdmissionCertificate.FreezingPreservesTally` | admission_certificate.py:103-106 | reviewing the frozen votes gives the review of the votes as cast if and only if every eligible vote whose wallet only lower-casing makes one repeats what an earlier counting vote of that wallet says |
| `AdmissionCertificate.VerifiedVotesKeepTheirTally` | dual_review.py:117-129 | among votes that pass a verification demanding a wallet, as both callers in the node pass (blockchain.py:3792-3797, 4286-4291), freezing always preserves the review |
| `AdmissionCertificate.UpperCasePrefixAddsAVoice` | admission_certificate.py:103-106 | at the module's interface, where nothing is verified, a vote whose wallet begins with an upper-case 0X is no vote as cast and one vote once frozen |
| `Png.Metadata` | media_technical_validation.py:227-264 | accepted exactly when the bytes are 8 leading bytes and a tiling by whole supported chunks with matching CRC and no active marker, IHDR of 13 bytes first, one empty IEND last (RFC 2083, section 3.2); the size is the first chunk's first two integers |
| `Png.SerializedIsContainer` | media_technical_validation.py:227-264 | every serialized chunk list of that grammar is a container and shows the width and height put in |
| `Png.TilingIsUnique` | media_technical_validation.py:233-263 | a byte string has at most one such tiling |
| `Webp.Metadata` | media_technical_validation.py:311-334 | accepted exactly when the RIFF length is right and even-padded allowed chunks without active markers tile the file (RFC 9649, section 2.3); the final padding check never fires |
| `Webp.SerializedIsContainer` | media_technical_validation.py:311-334 | every serialized chunk list is a container |
| `Webp.ChunksAreEvenlyPlaced` | media_technical_validation.py:321 | every chunk occupies an even number of bytes |
| `Jpeg.Metadata` | media_technical_validation.py:267-302 | the marker loop terminates, reads in bounds, and computes the scan |
| `Jpeg.ReportsExactlyTheFirstFrame` | media_technical_validation.py:267-302 | a size is reported exactly when entropy bytes, bare markers and inactive segments lead to a start-of-frame segment of that size |
| `BoundedDecoding.EncodedIsDecoded` | media_technical_validation.py:591-618 | in base16 and in base64 (RFC 4648, sections 8 and 4) bytes are accepted exactly when they fit the limit, and decode to themselves |
| `BoundedDecoding.AcceptedPayloads` | media_technical_validation.py:591-618 | exactly what is accepted, and as which bytes: base16 payloads that encode bytes within the limit, and base64 payloads within the length check whose text reads as bytes within the limit |
| `BoundedDecoding.HexIsCanonical` | media_technical_validation.py:601-603 | an accepted base16 text is the encoding of its bytes |
| `BoundedDecoding.Base64IsCanonical` | media_technical_validation.py:610-613 | an accepted base64 text is the encoding of its bytes exactly when it has no surplus padding and zeros in its unused bits |
| `BoundedDecoding.LooseTextsAreAccepted` | media_technical_validation.py:610-613 | `AB==` and `AAAA=` are accepted and are not the encodings of their bytes, `AA==` and `AAAA` |
| `BoundedDecoding.HexCheckSuffices` | media_technical_validation.py:599-600 | after the base16 length check the last check never fires |
| `BoundedDecoding.Base64CheckOvershoots` | media_technical_validation.py:608-609 | the base64 length check admits at most two bytes too many |
| `BoundedDecoding.Base64Admits` | media_technical_validation.py:608-609 | and admits exactly the byte strings up to the next multiple of three |
| `BoundedDecoding.ReadBounded` | media_technical_validation.py:621-633 | the chunked reader returns the stream exactly when it fits, for every way the upload may be cut; it takes at most one byte beyond the limit and retains none beyond it |
| `AmountTheorems.ResultIsCanonical` | native_transfer.py:196-236 | an accepted amount is a canonical text (no leading zero, sign, exponent or trailing fractional zero) that denotes the rounded number |
| `AmountTheorems.ValueIsKeptExactly` | native_transfer.py:231 | the number is kept if and only if it has at most 28 significant digits |
| `AmountTheorems.OneTextPerNumber` | native_transfer.py:231-236 | two accepted amounts have equal texts exactly when they round to the same number |
| `AmountTheorems.ParseIsIdempotent` | native_transfer.py:196-236 | canonicalising again changes nothing |
| `AmountTheorems.FixedPointsAreCanonical` | native_transfer.py:196-236 | the texts left alone are exactly the canonical ones within the precision, zero only where allowed |
| `AmountTheorems.LongAmountChanges` | native_transfer.py:231 | 1, any 27 or more zeros and 1 is accepted and loses its last digit |
| `Amount.KeptIsNearest` | native_transfer.py:231 | rounding takes the nearest multiple, half to even |
| `TransferTheorems.Build` | native_transfer.py:713-753 | any node of the message's network reads the draft of a valid message back from the text built, if and only if the memo breaks no line |
| `TransferMessage.Parse` | native_transfer.py:756-802 | reading computes validation of the fields found |
| `TransferMessage.CollectFields` | native_transfer.py:768-788 | after the loop each label has the text on the last line that bears it |
| `TransferMessage.LabelOfMeaning` | native_transfer.py:770-788 | a line bears at most one label, so the order of the prefix tests does not matter |
| `TransferTheorems.RoundTrip` | native_transfer.py:713-802 | for every transfer that validates, reading the message built from it gives back its unsigned draft if and only if it has no memo or its memo has no line boundary |
| `TransferTheorems.ParsedMemoIsClean` | native_transfer.py:787-788 | whatever text is read, its memo stands on one line |
| `TransferTheorems.TwoLineMemo` | native_transfer.py:301-309 | a memo of two lines validates unchanged and is not carried by the message |
| `TransferTheorems.ValidationMeaning` | native_transfer.py:649-710 | what validation establishes about every field: each is its own canonical form |
| `BlockPayload.NormalizeIsIdempotent` | block.py:290-316 | normalising a normalised tree changes nothing |
| `BlockPayloadTheorems.RoutesAgree` | block.py:367-492 | when the attribute route succeeds, the dictionary route on `to_dict` gives the same tree if and only if every string the first route trims is trimmed and every counter is an integer |
| `BlockPayloadTheorems.PaddedMinerDiffers` | block.py:367-492 | a block whose miner has a leading space has two payloads |
| `BlockPayloadTheorems.TextCounterDiffers` | block.py:367-492 | so has a block whose height is the text 7 |
| `BlockPayloadTheorems.MediaRoundTrip` | block.py:152-157 | media bytes survive their canonical encoding |

## Left out

- Cryptography: hashes, signatures, fingerprints and CRC-32 are function parameters; collision freedom and "the identity determines the record" are hypotheses of the lemmas that need them.
- Digests inside a tally (set, observation and evidence digests): they hash exactly the modelled fields, so they are left implicit.
- Wallets, hashes and identifiers in the node model are taken in their normalised form; lower-casing is ASCII lower-casing.
- Sections of the document that no modelled operation reads: native transactions, ledger, rewards, wallets, access and feedback records, audit log, admission activations, and the originality evidence claims of the storage guard.
- `dispute_tally` and `canonical_dispute_record` (post_mint_dispute.py): the same fold as the report tally without the trigger search. Disputes share the record shape of reports here; their admission is a step of the runs, their convergence is not claimed, because a second record with the same identity and another reviewer reference is refused (blockchain.py:1689-1690).
- NodeRuns.ThresholdIsSafeInEveryRun: blocks accepted from peers are not steps of these runs; finality over them is covered by the history theorems. Between durable operations a facade's own edits keep reports, follow the status transitions of submission.py:33-41, and queue only what may be queued; NodeRuns.EvidenceOnlyGrows needs none of this.
- AdoptionTheorems.AdoptionKeepsQuarantineExactly: fork choice, the version of a block, the certificates that a branch invalidates and the merged and rebuilt implicit sections come with the branch as given verdicts; the recomputation of originality evidence and the save after an adoption (blockchain.py:5392-5402) are not part of the step.
- Sections.StateKeepsTheRestExactlyWithoutPeers: the values of sections are left abstract, and the separate table of native transactions is not modelled.
- Fork choice, attestation counting, quorum and the ledger rebuild of services/canonical_reorg_service.py: a rebuild is any document that installs the candidate chain and keeps finality records.
- FinalityTheorems.AdoptionNeverReplacesFinalized: assumes that a vote's message fixes its content, which the signature check upstream guarantees.
- Finality.MergeVotes: the sort of the merged votes by height, hash, validator and signature (storage.py:244-247) is not modelled; votes stay in the order of the merge.
- Facade.Blockchain.Restore: the refusal of a document whose admission activation record is not the configured one (blockchain.py:671-674) is not modelled, since the record is part of the implicit sections.
- Facade.Blockchain.ApplyCandidate: native settlement, rewards, wallets and the pool of legacy transactions are implicit sections.
- Facade.Blockchain.SaveBlockchain: the rebuild of the reviewer index after the save is not modelled.
- Facade.Blockchain.CommitCertified: the check of the request before the lock (blockchain.py:4529-4535) and the facade's own native transactions, which the attempt overlays on the restored ones, are not modelled.
- Facade.Blockchain.Publish: the presentation sort of cached votes is not modelled, and a document with only one of the two finality sections, which is refused, is not representable.
- Load-time reconciliation, the outbox of reorganisations, fault-injection hooks, the mint-queue evaluation and the building of a candidate block: the last two enter a commit attempt as given verdicts and a given block.
- ValidatedPrefix.Validator.EnsureValidatedPrefix: block validity beyond hash and link is a function of the block and the chain before it; the suffix loop's genesis branch is dead, since an empty cache takes the full validation.
- AdmissionCertificate.AssembledVotesAlwaysMatch: certificate fields that do not come from votes are one opaque body; the check of a certificate vote's field set is not modelled.
- Pillow decoding, worker processes, GIF, text media and OCR.
- Jpeg.Metadata: the branch for marker 0xD9 at media_technical_validation.py:284 is dead, since 0xD9 is skipped two lines earlier; it is not modelled.
- BoundedDecoding.ReadBounded: `await` is not modelled; the chunk size is positive, as at every call in the repository.
- BoundedDecoding.AcceptedPayloads: `base64.b64decode(..., validate=True)` is modelled as the strict decoder of CPython 3.11 to 3.13.
- Amount.KeptIsNearest and the other amount results: inputs are strings, digits are ASCII, the decimal context is the default one, and numbers of a million digits, which overflow it, are not modelled. Infinities, NaNs and malformed texts share one error.
- TransferMessage.Parse: ISO 8601 parsing is a parameter that the round trip assumes to give one trimmed line and to be stable on its own output; nonces are ASCII digits; version 1 messages (protocol_v1_native_transfer.py) are not part of this model.
- BlockPayloadTheorems.RoutesAgree: dictionary keys are strings, and `int` and decimal formatting are parameters; block versions other than 1 and 2 have no consensus payload.
- HTTP, sync, peers, access control, operations support and command-line code.
