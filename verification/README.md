# Ceramic Anchor Service: a Dafny model

The Ceramic Anchor Service collects client requests to anchor a commit, groups them into batches, builds a
Merkle tree over each batch, puts the root on Ethereum, and gives every client a *witness*: a small set of
content-addressed blocks that links an anchor commit to the transaction. This project models that pipeline and
proves what it is for.

- **Anchoring protocol** (`AnchorProtocol`, `EndToEnd`, `LostCompletion`, `Anchors`, `MerkleTrees`): any number of
  workers over the request and anchor tables and the CAR store, with failures and crashes at any point, with READY
  batches or with queued batches. In every reachable state a COMPLETED request has exactly one anchor row, and the
  stored CAR yields a witness that verifies and links the very commit the request asked to anchor, as a commit of the
  request's own stream. `EndToEnd` joins this to the witness stores: that is what every client is shown, whatever the
  stores lost.
- **The service code** (`AnchorServices`, `Candidates`, `RequestRepositories`, `RequestServices`): the classes with
  their mutable tables. Each call of a worker, for every fault and every answer of Ethereum, is proved to be a run of
  the protocol, and each call of the scheduler a step of `Scheduling`.
- **Batches and concurrency** (`ReadySelection`, `Starvation`, `Scheduling`, `SnapshotTransactions`, `CommittedSteps`,
  `Replacement`): which streams are chosen, that none starves, that one batch is outstanding at a time, that
  repeatable-read transactions lose no update and each takes effect as one step of the protocol (section 13.2.2 of the
  PostgreSQL documentation), and when replacement is confluent.
- **Witnesses** (`PathLine`, `Witness`, `WitnessCache`, `RequestPresentation`): the path codec, building and verifying,
  what an accepted witness binds, and that caches and evictions cannot be told from rebuilding.
- **Ethereum** (`Fees`, `Ethereum`, `TransactionMutex`): the retry loop against every schedule of provider answers, the
  closed form of the price, the replacement bound, when a call returns its own mined transaction, and that calls under
  the lock return different ones.
- **Auth registry** (`AuthRegistry`, `AuthRuns`, `AuthDatabase`): one-time passwords, DIDs and nonces as conditional
  writes of single items, interleaved by any number of clients.

The hash is a parameter. Where a result needs it to be free of collisions it says `Injective(hash)`; identity CIDs
show that such a hash exists. The Merkle tree library is a contract (`ValidTree`, `BuilderContract`), and
`MerkleTrees.ReferenceTreeValid` proves that the contract can be met for every list of leaves. I/O, clocks and faults
are parameters of the methods and choices of the step relations.

Where the code and its own comments differ, the model follows the code:

- `findRequestsToAnchor` is described as retrying FAILED requests; it selects PENDING ones and PROCESSING ones past
  the timeout only.
- `batchProcessing` limits requests, although its parameter is named after streams, and has no lower limit.
- `_loadCandidateStreams` is described as excluding candidates beyond the limit; `_findCandidates` accepts them all,
  and so does the tree.
- The price of a retry is described as at least 10% higher. The integer division rounds down:
  `Fees.TenPercentMoreIff` says exactly when it is, and `Fees.LessThanTenPercentMore` gives a case where it is not.
- COMPLETED is not terminal: `AnchorProtocol.CompletedIsLostIff` says exactly when it can be undone.
  `LostCompletion.CompletedIsNotTerminal` gives a run with two workers, of which one fails after the other is done, and
  `LostCompletion.OneWorkerSuffices` one with a single worker whose summary throws. The anchor row stays.
- `batchProcessing` does not renew `updatedAt`, so the processing timeout counts from the READY mark:
  `RequestRepositories.TakenIsAnchorableIff`. `Retaken.RetakenAtOnce` is a run in which a request is taken twice at
  once.
- `revokeDID` compares emails with `contains`, so the email given only has to occur in the registered one:
  `AuthRegistry.RevokeIff`, and `AuthRuns.RevokedForContainedEmail` for a run.
- A CID is stored once, whatever timestamp it comes with again, so the outcome of replacement can depend on the order of
  arrival: `Replacement.ConfluentIff` says exactly when, and `Replacement.RepeatedCidMatters` gives a case.
- A transaction that is mined may be lost to the call that sent it: `Ethereum.MinedIsReturnedIff` says exactly when, and
  `Ethereum.TimeoutsLoseMined` gives a case.

## Model

| member | source | states |
|---|---|---|
| `EndToEnd.ClientSeesProof` | src/services/request-presentation-service.ts:64-92 | in any run of workers and stores together: reading the row of a COMPLETED request never fails and comes back with a witness whenever S3 answers; a witness that is read verifies, is for the request's own stream and commit, holds a proof whose transaction carries its Merkle root, and is what every other reader gets |
| `EndToEnd.NextKeepsInv` | src/services/anchor-service.ts:379-390 | a CAR of the protocol is in S3 under its proof, and stays there, whatever workers and stores do |
| `AnchorProtocol.EndToEnd` | src/services/anchor-service.ts:347-413 | in every reachable state of any number of workers, a COMPLETED request has exactly one anchor row; the CAR of its proof is stored; the proof names a transaction on the chain that carries its root; the witness built from the CAR verifies to the row's commit, whose stream and `prev` are the request's |
| `AnchorProtocol.RowsArePermanent` | src/repositories/anchor-repository.ts:35-41 | an anchor row keeps its place and content for ever, is the only one of its request, and goes on proving it, also after the status was reset |
| `AnchorProtocol.AckedIsAnchored` | src/services/anchor-service.ts:222-268 | after the ack of a delivery, and however often the batch is delivered again, every request that was not REPLACED when read stays COMPLETED with its one first row |
| `AnchorProtocol.OneCarPerProof` | src/services/anchor-service.ts:379-387 | a stored Merkle CAR is never replaced, so a proof CID names one CAR |
| `AnchorProtocol.CompletedIsLostIff` | src/services/anchor-service.ts:312-324 | COMPLETED can be undone in a state if and only if there is no queue and some worker holds the request there, be it the one that persisted it |
| `LostCompletion.CompletedIsNotTerminal` | src/services/anchor-service.ts:317-321 | a run in which a request taken by two workers after the timeout is COMPLETED, with its row, and then PENDING |
| `LostCompletion.OneWorkerSuffices` | src/services/anchor-service.ts:304-324 | a run with a single worker, whose summary throws after the tables are written, in which a request is COMPLETED, with its row, and then PENDING |
| `AnchorProtocol.NextKeepsInv` | src/services/anchor-service.ts:282-345 | every step keeps the protocol invariant |
| `AnchorProtocol.RunKeepsInv` | src/services/anchor-service.ts:191-280 | the invariant holds in every state of every run |
| `AnchorProtocol.RunGrows` | src/repositories/request-repository.ts:163-187 | no run changes a request's identity, removes a row or a CAR, and with a queue none undoes COMPLETED |
| `AnchorProtocol.ScheduleLeavesAlone` | src/repositories/request-repository.ts:441-455 | scheduling changes no row that is COMPLETED, FAILED or REPLACED, and nothing but status and time of the others |
| `AnchorProtocol.TakeKeepsInv` | src/repositories/request-repository.ts:541-561 | taking a READY batch keeps the invariant |
| `AnchorProtocol.DeliverKeepsInv` | src/services/anchor-service.ts:234-248 | a delivery, first or repeated, keeps the invariant |
| `AnchorProtocol.SendKeepsInv` | src/services/anchor-service.ts:349-356 | a new transaction for the tree over the held requests keeps the invariant |
| `AnchorProtocol.StoreCarKeepsInv` | src/services/anchor-service.ts:358-387 | storing proof, commits and CAR keeps the invariant: the key is new |
| `AnchorProtocol.PersistKeepsInv` | src/services/anchor-service.ts:615-661 | inserting the rows and completing the requests in one transaction keeps the invariant, also when rows exist already |
| `AnchorProtocol.FailKeepsInv` | src/services/anchor-service.ts:312-344 | a failure at any stage keeps the invariant, with and without the reset to PENDING |
| `AnchorProtocol.FinishKeepsInv` | src/services/anchor-service.ts:253-262 | an ack keeps the invariant: what it acknowledges is done |
| `AnchorServices.AnchorService.AnchorCandidates` | src/services/anchor-service.ts:347-413 | tree, submission of its root to Ethereum, proof, commits, CAR, witnesses and both tables: a run of the protocol up to the stage that fails, which leaves the tables as they are, or to the end, where each request is COMPLETED with a row |
| `AnchorServices.AnchorService.StoreAndPersist` | src/services/anchor-service.ts:358-401 | the part of it after the transaction is confirmed |
| `AnchorServices.AnchorService.StoreBatch` | src/services/anchor-service.ts:358-390 | the anchors of all leaves; the batch's CAR, cached and, unless refused, in S3; and exactly the witnesses the witness store accepts: they can always be built |
| `AnchorServices.AnchorService.AnchorRequests` | src/services/anchor-service.ts:282-345 | leaves out REPLACED requests, and is a run of the protocol for every fault and every answer of Ethereum; the others end COMPLETED with a row each, or, after a failure without a queue, PENDING |
| `AnchorServices.AnchorService.Revert` | src/services/anchor-service.ts:312-324 | resets the accepted requests by id, unless a queue is used |
| `AnchorServices.AnchorService.FindCandidates` | src/services/anchor-service.ts:669-684 | accepts every request as a candidate, sorted by timestamp, whatever the limit; up to the cut those with a row are reported as already anchored |
| `AnchorServices.AnchorService.PersistAnchorResult` | src/services/anchor-service.ts:615-647 | the attempt that commits: inserts the rows that are new, completes the requests, and counts the rows inserted |
| `AnchorServices.AnchorService.AnchorReadyRequests` | src/services/anchor-service.ts:273-280 | takes, anchors and lets go of a batch as a run of the protocol; it has nothing to do exactly when nothing is READY |
| `AnchorServices.AnchorService.AnchorNextQueuedBatch` | src/services/anchor-service.ts:222-268 | acks exactly when all rows are found, and nothing is left to anchor or the batch was sent and no exception came; a run of the protocol in any case |
| `AnchorServices.AnchorService.EmitAnchorEventIfReady` | src/services/anchor-service.ts:423-458 | is the scheduler's step, and emits exactly when overdue READY requests were refreshed or a batch was marked |
| `AnchorServices.AnchorService.PullInRequests` | src/services/anchor-service.ts:205-213 | is the worker's step that marks up to twice the streams when nothing is READY |
| `AnchorServices.MarkedState` | src/repositories/request-repository.ts:282-331 | what `findAndMarkReady` did when nothing was READY is a mark of the scheduler, and the READY rows are exactly the batch |
| `Anchors.CreateAnchorCommits` | src/services/anchor-service.ts:504-555 | the CAR holds for each request a commit with its stream, its CID, the proof and its own path, and a row names request and commit |
| `Anchors.CommitsHeld` | src/services/anchor-service.ts:536-560 | the same, of the specification: later commits of the batch overwrite none of it |
| `Anchors.CreateIpfsProof` | src/services/anchor-service.ts:480-497 | the proof names root, chain, transaction and, for the contract, its type, and is added to the CAR without touching the rest |
| `Anchors.BatchProven` | src/services/anchor-service.ts:504-589 | every commit of a batch yields, from the batch's CAR, a witness that verifies and links the request's CID |
| `Anchors.CommitProven` | src/services/anchor-service.ts:529-546 | a commit whose proof names a root and whose path leads to its `prev` verifies |
| `Anchors.BatchAddressed` | src/services/anchor-service.ts:480-497 | the batch's CAR stays content addressed and keeps all blocks of the tree and the proof |
| `Anchors.InsertAnchorsCorrect` | src/repositories/anchor-repository.ts:35-41 | the insert keeps the rows there, keeps one per request, and leaves no request of the batch without one |
| `Anchors.AnchorRepository.CreateAnchors` | src/repositories/anchor-repository.ts:35-41 | inserts row by row, ignoring a request that has one, and returns how many were inserted |
| `Anchors.AnchorRepository.FindByRequestId` | src/repositories/anchor-repository.ts:49-60 | finds a row of the request exactly if there is one |
| `MerkleTrees.ReferenceTreeValid` | src/services/anchor-service.ts:465-471 | a reference tree over any non-empty list of leaves meets the contract assumed of the tree library |
| `MerkleTrees.WitnessProvesLeaf` | src/services/witness-service.ts:119-131 | an accepted witness for a tree's root and the path of leaf `i` proves leaf `i` and no other |
| `Witness.EnumerateCids` | src/services/witness-service.ts:88-117 | the generator's loop yields the specified CIDs and ends with the specified error |
| `Witness.VerifyWitness` | src/services/witness-service.ts:119-131 | accepts exactly what `Verify` accepts, and returns the commit's CID |
| `Witness.VerifiesIff` | src/services/witness-service.ts:119-131 | a CAR is accepted if and only if its commit's path is written for a chain of links from the proof's Merkle root to the commit's `prev`, and then with its first root |
| `Witness.CompletesIff` | src/services/witness-service.ts:88-117 | the generator completes if and only if there is a chain of links along the path, and the last CID it yields is where that leads |
| `Witness.FailsAs` | src/services/witness-service.ts:88-131 | for each error of verification the exact condition on the CAR: nothing to start from, commit, proof or Merkle root missing, no path, or a chain that ends elsewhere |
| `Witness.BuildWitness` | src/services/witness-service.ts:133-152 | copying block by block gives the CAR of exactly the walked blocks, or the error of the first thing missing |
| `Witness.BuildPreservesWalk` | src/services/witness-service.ts:133-152 | building succeeds exactly when the walk succeeds in the source, and the witness walks the same CIDs |
| `Witness.WitnessBlocksExact` | src/services/witness-service.ts:77-82 | the witness holds the walked blocks the source has, unchanged, and nothing else |
| `Witness.BuiltWitnessVerifies` | src/services/witness-service.ts:119-152 | a built witness is accepted if and only if the walk through the source ends at the commit's `prev` |
| `Witness.BuiltWitnessMinimal` | src/services/witness-service.ts:64-82 | without any one of its blocks, other than a copied leaf, a built witness is rejected |
| `Witness.DroppedBlock` | src/services/witness-service.ts:88-117 | without a block an accepted witness yields and looks up, the generator throws |
| `Witness.BindingByMerkleRoot` | src/services/witness-service.ts:88-131 | two accepted witnesses with the same Merkle root and path prove the same `prev` |
| `Witness.BindingByRoot` | src/services/witness-service.ts:88-131 | the root CID fixes the whole sequence of CIDs an accepted witness yields |
| `Witness.MoreBlocks` | src/services/witness-service.ts:119-131 | adding blocks never turns an accepted witness into a rejected one |
| `PathLine.DecodeLine` | src/ancillary/codecs.ts:34-54 | the loop decodes as specified and gives up at the first bad element |
| `PathLine.RoundTrip` | src/ancillary/codecs.ts:30-54 | every non-empty path is decoded from its encoding |
| `PathLine.DecodeThenEncode` | src/ancillary/codecs.ts:30-54 | encoding what was decoded gives the input back |
| `PathLine.DecodeAccepts` | src/ancillary/codecs.ts:34-54 | the accepted strings are exactly the encodings of non-empty paths |
| `PathLine.EmptyPathRejected` | src/ancillary/codecs.ts:34-54 | the encoding of the empty path is not accepted |
| `PathLine.WrittenPaths` | src/ancillary/__tests__/codecs.test.ts:6-17 | left is written 0 and right 1; the examples of paths, and of what is none |
| `WitnessCache.CacheIsTransparent` | src/services/request-presentation-service.ts:43-62 | over every run of stores, evictions and reads, an answer equals a rebuild from the CAR the proof names, whichever store gave it |
| `WitnessCache.ReadIsTransparent` | src/services/request-presentation-service.ts:43-62 | the same for one read, which is empty exactly when the witness store, the CAR cache and S3 all have nothing or do not answer |
| `WitnessCache.StoredCarIsServed` | src/services/merkle-car-service.ts:92-116 | once S3 has accepted the CAR of a proof, a read to which S3 answers comes back with what a rebuild gives |
| `WitnessCache.StoredWitnessIsServed` | src/services/request-presentation-service.ts:43-50 | a witness that was stored, by a batch or a reader, and not evicted since is served, also when its CAR cannot be had |
| `WitnessCache.CachedCarIsServed` | src/services/merkle-car-service.ts:98-106 | a CAR that is cached serves readers without S3, also one that S3 refused |
| `WitnessCache.ServedWitnessVerifies` | src/services/request-presentation-service.ts:64-92 | for a proven row a served witness verifies and links the request's own commit |
| `WitnessCache.NextKeepsConsistent` | src/services/merkle-car-service.ts:92-116 | caching before the put, failed puts, lost writes and evictions keep the stores consistent |
| `WitnessCache.OneProof` | src/services/witness-service.ts:243-257 | a commit's CID belongs to one proof, so a witness kept under it has one source |
| `RequestPresentation.RequestPresentationService.WitnessCar` | src/services/request-presentation-service.ts:43-62 | the stored witness if there is one, else one built from the CAR and stored, else nothing; one read of the stores |
| `RequestPresentation.RequestPresentationService.Response` | src/services/request-presentation-service.ts:64-103 | a completed request shows its row's commit and witness, one without a row its own CID, any other its status only |
| `RequestPresentation.MerkleCarService.StoreCarFile` | src/services/merkle-car-service.ts:92-96 | is the stores' step: the CAR can be retrieved without S3 from then on, also when S3 refuses it |
| `RequestPresentation.MerkleCarService.RetrieveCarFile` | src/services/merkle-car-service.ts:98-116 | the cached CAR, else the one in S3, else nothing |
| `RequestPresentation.StoreWitnessCars` | src/services/anchor-service.ts:592-604 | exactly the witnesses the store accepts are added, as built, up to the first that cannot be built, whose error is returned |
| `RequestPresentation.StoredExactly` | src/services/anchor-service.ts:592-604 | of the specification: up to the first anchor whose witness cannot be made exactly the accepted ones are added, and nothing else in the store changes |
| `RequestPresentation.StoreFirstConsistent` | src/services/anchor-service.ts:592-604 | storing a batch's witnesses keeps the stores consistent |
| `RequestPresentation.BuildableAreStored` | src/services/anchor-service.ts:592-604 | if each witness can be built there is no error, and exactly those the store accepts are added |
| `Candidates.BuildCandidates` | src/services/anchor-service.ts:690-701 | the requests in the order of their timestamps, ties in their old order, each with a fresh candidate |
| `Candidates.LoadCandidateStreams` | src/services/anchor-service.ts:713-767 | up to the cut each candidate is selected, or already anchored and flagged; behind it all are unprocessed and keep their flags |
| `Candidates.SelectCandidates` | src/services/anchor-service.ts:735-759 | the loop itself |
| `Candidates.CutIsUnique` | src/services/anchor-service.ts:735-740 | the selection ends in one place only: behind the candidate that fills the limit |
| `Candidates.NothingUnprocessed` | src/services/anchor-service.ts:720-723 | nothing is unprocessed if the limit is 0 or not below the count, and something is exactly if the limit is filled before the end; then as many as the limit are selected |
| `Candidates.ClassesAddUp` | src/services/anchor-service.ts:735-766 | each candidate is in exactly one class |
| `RequestRepositories.RequestRepository.Create` | src/repositories/request-repository.ts:103-123 | inserts the request unless its CID is stored |
| `RequestRepositories.RequestRepository.FindByIds` | src/repositories/request-repository.ts:146-155 | all rows asked for, oldest first, or an error with both counts |
| `RequestRepositories.RequestRepository.UpdateRequests` | src/repositories/request-repository.ts:163-187 | updates exactly the rows with the ids given, keeping absent fields |
| `Requests.UpdatesByColumn` | src/repositories/request-repository.ts:163-187 | which columns the three updates set, and that they leave all others and all other rows |
| `Requests.AnchorableIff` | src/repositories/request-repository.ts:441-455 | a batch takes what is pending, and what has been in a batch for more than three hours, and nothing else |
| `RequestRepositories.RequestRepository.FindAndMarkAsProcessing` | src/repositories/request-repository.ts:193-233 | moves every READY row to PROCESSING and returns the rows as they were |
| `RequestRepositories.RequestRepository.UpdateExpiringReadyRequests` | src/repositories/request-repository.ts:372-412 | refreshes all READY rows if one of them is overdue, and otherwise changes nothing |
| `RequestRepositories.RequestRepository.MarkReplaced` | src/repositories/request-repository.ts:417-431 | of the pending rows of the key one with the latest timestamp stays, the others become REPLACED by the new CID, and no other row or column changes |
| `RequestRepositories.RequestRepository.BatchProcessing` | src/repositories/request-repository.ts:541-561 | moves READY rows, at most the limit unless it is 0, to PROCESSING and returns them so; no other row or column changes |
| `RequestRepositories.RequestRepository.FindStreamsToAnchor` | src/repositories/request-repository.ts:477-516 | the query with its two conditions yields a batch as specified by `IsReadyBatch` |
| `RequestRepositories.RequestRepository.FindAndMarkReady` | src/repositories/request-repository.ts:282-345 | all and only the anchorable requests of such a batch become READY and are returned as they were; rows that are done, failed, replaced, READY, or in a batch for no more than three hours are left alone |
| `RequestRepositories.MarkedOnlyAnchorable` | src/repositories/request-repository.ts:305-315 | the last part of it, of the specification |
| `RequestRepositories.OldestStreams` | src/repositories/request-repository.ts:483-493 | grouping, ordering and limit yield the oldest streams, as many as allowed |
| `RequestRepositories.TakenIsAnchorableIff` | src/repositories/request-repository.ts:445-455 | a request just taken is anchorable again at once exactly if it was last updated longer ago than the timeout |
| `Retaken.RetakenAtOnce` | src/repositories/request-repository.ts:541-561 | a run in which a request that waited READY for longer than the processing timeout is taken, marked READY and taken again with no time in between |
| `ReadySelection.MarkReadyExact` | src/repositories/request-repository.ts:305-315 | marking adds exactly the batch's anchorable requests to READY, takes exactly its streams from those to anchor, and leaves all else |
| `ReadySelection.BatchDetermined` | src/repositories/request-repository.ts:477-516 | if no two streams are of the same age the selection leaves nothing open |
| `Starvation.NoStarvation` | src/repositories/request-repository.ts:282-345 | an overdue pending request with k streams ahead, and j that join by timeout, failure reset or late arrival, is READY within (k + j) / max + 1 calls; with no limit within one |
| `Starvation.NoStarvationWithoutReentry` | src/repositories/request-repository.ts:282-345 | where none re-enters, within k / max + 1 calls, despite younger arrivals |
| `Starvation.AheadShrinks` | src/repositories/request-repository.ts:483-515 | the streams a call takes are not ahead any more at the next one; only those that joined are new |
| `SnapshotTransactions.NoLostUpdate` | src/repositories/request-repository.ts:193-233 | just before a commit each row it changes is exactly as the transaction read it and still qualifies, and the count of updated rows is the count of selected ones |
| `SnapshotTransactions.CommitChangesExactly` | src/repositories/request-repository.ts:193-345 | which status a row must have had just before a commit of each operation, and which columns the commit sets |
| `SnapshotTransactions.OverlappingWritesDisjoint` | src/repositories/request-repository.ts:372-412 | of two overlapping transactions that both commit no row is written by both |
| `SnapshotTransactions.NextKeepsInv` | src/repositories/request-repository.ts:336-344 | begin, insert, update, retry after 40001, commit, rollback and other statements keep the invariant, for the three marking transactions and for persisting |
| `SnapshotTransactions.PersistIsAtomic` | src/services/anchor-service.ts:622-661 | whatever ran and however often it was retried in between, persisting takes effect as one step on the tables at its commit |
| `SnapshotTransactions.PersistedOnce` | src/services/anchor-service.ts:615-661 | after that commit each accepted request is COMPLETED with exactly one row, and rows that were there are unchanged |
| `SnapshotTransactions.PersistsExclude` | src/services/anchor-service.ts:647-654 | two overlapping persists of one request do not both commit |
| `SnapshotTransactions.NewRowsIds` | src/repositories/anchor-repository.ts:35-41 | an insert adds a row for exactly the requests that had none |
| `CommittedSteps.CommitIsPersist` | src/services/anchor-service.ts:615-661 | a committed persist of a worker is the atomic step the protocol takes it for |
| `CommittedSteps.CommitIsSchedule` | src/repositories/request-repository.ts:282-345 | a committed marking, processing or refreshing transaction is a scheduling step of the protocol at that moment |
| `Scheduling.OneBatchOutstanding` | src/services/anchor-service.ts:423-458 | in every reachable state what is READY belongs to the last marked batch, which spans at most `maxStreamLimit` streams, or twice that where workers mark too |
| `Scheduling.RefreshesSpaced` | src/repositories/request-repository.ts:378-395 | refreshes are at least `readyRetryIntervalMS` apart |
| `Scheduling.NextKeepsInv` | src/services/anchor-service.ts:205-213 | the scheduler's, the workers' and all other statements keep the invariant |
| `Replacement.RunSettles` | src/services/request-service.ts:104-141 | after any arrivals no CID is stored twice, each key that got a request has one pending one, a newest, and its other contenders are REPLACED; other keys and other statuses are untouched |
| `Replacement.RunStores` | src/repositories/request-repository.ts:103-123 | the new rows are those of the arrivals that were the first with a CID that was not there |
| `Replacement.ConfluentIff` | src/repositories/request-repository.ts:417-431 | two runs of arrivals with distinct timestamps leave the same requests with the same statuses if and only if for every new CID the same request comes first with it |
| `Replacement.Confluent` | src/repositories/request-repository.ts:417-431 | so all orders of the same arrivals agree where no CID arrives twice |
| `Replacement.RepeatedCidMatters` | src/repositories/request-repository.ts:103-123 | with a CID that arrives twice two orders differ: whether a third request survives depends on which of the two came first |
| `RequestServices.RequestService.Create` | src/services/request-service.ts:104-153 | stores a row for the client's stream and commit with the client's timestamp, or else the time, once; then replaces older ones or sends one message; a failed message leaves it stored |
| `RequestServices.CreatedIsFor` | src/services/request-service.ts:108-118 | the columns of the new row, after the insert and after the replacement |
| `RequestServices.NewestReplacesOlder` | src/services/request-service.ts:109-141 | a request newer than all pending ones of its key stays pending and replaces every one of them, and nothing else |
| `RequestServices.OlderIsReplaced` | src/services/request-service.ts:109-141 | a request older than some pending one of its key is replaced at once, and of the pending ones a newest stays |
| `Fees.ClosedForm` | src/services/blockchain/ethereum/ethereum-blockchain-service.ts:261-280 | for any estimates the price is the best of all offers, each raised by its attempt and bumped by every later priced one |
| `Fees.FirstEstimateRules` | src/services/blockchain/ethereum/ethereum-blockchain-service.ts:261-280 | if no estimate exceeds the first, the first is compounded |
| `Fees.CompoundBound` | src/services/blockchain/ethereum/ethereum-blockchain-service.ts:247-280 | 10^n (q - 9) >= 11^n (p - 9) after n priced retries; prices never fall, and rise from 10 wei up |
| `Fees.TenPercentMoreIff` | src/services/blockchain/ethereum/ethereum-blockchain-service.ts:247-280 | a retry pays at least 10% more if and only if the previous price is a multiple of 10 or the raised estimate alone is that high |
| `Fees.ScaledExactly` | src/services/blockchain/ethereum/ethereum-blockchain-service.ts:266-268 | a raise adds, per attempt made before, a tenth of the estimate without its last digit |
| `Fees.IncreaseIsTheHigher` | src/services/blockchain/ethereum/ethereum-blockchain-service.ts:261-280 | the first attempt pays the estimate, a retry the higher of the raised estimate and the bumped price |
| `Fees.LessThanTenPercentMore` | src/services/blockchain/ethereum/ethereum-blockchain-service.ts:247-280 | from 15 wei a retry pays 16 |
| `Fees.TxData.SetGasPrice` | src/services/blockchain/ethereum/ethereum-blockchain-service.ts:204-243 | each field for each kind of fee data and each failure; what was set before a failure stays |
| `Ethereum.SendTransaction` | src/services/blockchain/ethereum/ethereum-blockchain-service.ts:409-445 | at most three attempts, with submissions that share receiver, data and nonce; a returned transaction has a receipt, of one of them, that does not report a failure, and its block and time; a failed receipt is never returned |
| `Ethereum.ResultMeaning` | src/services/blockchain/ethereum/ethereum-blockchain-service.ts:353-385 | the same, of the specification, in terms of the fields of the receipt |
| `Ethereum.AnsweredReturnsIff` | src/services/blockchain/ethereum/ethereum-blockchain-service.ts:353-379 | an answered attempt with a receipt returns if and only if the receipt does not report a failure, and is tried again otherwise |
| `Ethereum.SubmittedIff` | src/services/blockchain/ethereum/ethereum-blockchain-service.ts:204-243 | a transaction reaches the network if and only if the provider quoted prices and gas, or the limit is configured, and sending it was not refused |
| `Ethereum.ErrorSource` | src/services/blockchain/ethereum/ethereum-blockchain-service.ts:414-442 | which of pricing, gas estimate, sending, chain check and wait the error of an attempt comes from |
| `Ethereum.Attempt` | src/services/blockchain/ethereum/ethereum-blockchain-service.ts:414-442 | one attempt: what it submits, what it remembers, and how it ends |
| `Ethereum.CheckForPreviousTransactionSuccess` | src/services/blockchain/ethereum/ethereum-blockchain-service.ts:391-404 | the newest response that confirms, if any |
| `Ethereum.MadeOnce` | src/services/blockchain/ethereum/ethereum-blockchain-service.ts:44-60 | a schedule determines the number of attempts |
| `Ethereum.RetriesExactly` | src/services/blockchain/ethereum/ethereum-blockchain-service.ts:419-440 | another attempt follows exactly a timeout, an unknown error, or insufficient funds that should have sufficed |
| `Ethereum.RaisesExactly` | src/services/blockchain/ethereum/ethereum-blockchain-service.ts:419-440 | the four errors with which a call fails at once, each with its exact condition |
| `Ethereum.CaipChainIdReads` | src/services/blockchain/ethereum/ethereum-blockchain-service.ts:87-89 | the chain is named eip155 and its number, which can be read back |
| `Ethereum.ReturnsOwnTransaction` | src/services/blockchain/ethereum/ethereum-blockchain-service.ts:391-445 | a returned transaction is the last submitted, confirmed, or after an expired nonce the newest that confirms |
| `Ethereum.OneIsMined` | src/services/blockchain/ethereum/ethereum-blockchain-service.ts:409-445 | at most three submissions, no two different ones mined, and the returned one is mined and carries this call's data |
| `Ethereum.MinedIsReturnedIff` | src/services/blockchain/ethereum/ethereum-blockchain-service.ts:409-445 | a mined submission of the call is returned if and only if the last attempt confirms one of the call's own and the balance can be read afterwards |
| `Ethereum.TimeoutsLoseMined` | src/services/blockchain/ethereum/ethereum-blockchain-service.ts:425-426 | three submissions that time out fail the call although one of them is mined |
| `Ethereum.SubmissionsShareBase` | src/services/blockchain/ethereum/ethereum-blockchain-service.ts:291-317 | all submissions of a call share receiver, data and nonce, one per attempt at most |
| `Ethereum.ResubmissionsPayMore` | src/services/blockchain/ethereum/ethereum-blockchain-service.ts:204-243 | between any two attempts of a call both prices obey the replacement bound, also when the network changes between the two kinds |
| `Ethereum.FeeCapKeepsDistance` | src/services/blockchain/ethereum/ethereum-blockchain-service.ts:216-231 | the fee cap exceeds the priority fee by the difference of the last estimates, and covers it exactly when they do |
| `Ethereum.TransactionsDiffer` | src/services/anchor-service.ts:352-356 | two successful calls under the mutex return different transactions |
| `TransactionMutex.EachCallItsTransaction` | src/repositories/transaction-repository.ts:24-51 | however many clients compete for the lock, calls under it follow one another, and two that succeed return different transactions |
| `TransactionMutex.NextKeepsInv` | src/repositories/transaction-repository.ts:24-51 | whoever holds the lock began after every finished call had ended |
| `TransactionMutex.AcquireTransactionMutex` | src/repositories/transaction-repository.ts:32-49 | gets the lock at the first try it is granted, or gives up after the limit |
| `AuthRegistry.OtpAuthorizesOnce` | auth/src/services/aws/dynamodb.ts:500-536 | under any interleaving an OTP passes at most one check, before it expires, and is never active again |
| `AuthRegistry.OtpServesOneCall` | auth/src/services/aws/dynamodb.ts:362-464 | two acts on one OTP are registrations of one and the same call; a revocation is the only act on its OTP |
| `AuthRegistry.ActsAreAuthorized` | auth/src/services/aws/dynamodb.ts:362-425 | every registration and revocation has its own spent OTP, checked before it expired, and registers for the email of that OTP |
| `AuthRegistry.NonceAcceptedOnce` | auth/src/services/aws/dynamodb.ts:325-350 | a nonce of a DID is accepted at most once, after the DID was active, and is never the registration's own |
| `AuthRegistry.RegistrationIsPermanent` | auth/src/services/aws/dynamodb.ts:390-464 | a registered DID keeps its email, and a revoked one is never active again |
| `AuthRegistry.StepAges` | auth/src/services/aws/dynamodb.ts:279-317 | no write prolongs, revives or removes anything |
| `AuthRegistry.RevokeIff` | auth/src/services/aws/dynamodb.ts:426-440 | a DID can be revoked if and only if it is active and its email contains the one given, which its own always does; then it is not active any more |
| `AuthRegistry.ContainsIff` | auth/src/services/aws/dynamodb.ts:426-440 | a string contains a part if and only if something before and something after it make it up |
| `AuthRuns.RevokedForContainedEmail` | auth/src/services/aws/dynamodb.ts:423-464 | a run in which the DID of xa@b.c is revoked with an OTP of a@b.c |
| `AuthRegistry.NamesApart` | auth/src/services/aws/dynamodb.ts:288-291 | among the OTP statuses `contains` is equality |
| `AuthDatabase.AuthDb.CreateEmailVerificationCode` | auth/src/services/db.ts:60-70 | the new code is active for thirty minutes, the email's other active codes are expired, and no other code, of any email, and no DID is touched; a run of the registry if the code is new |
| `AuthDatabase.OnlyNewestActive` | auth/src/services/db.ts:60-70 | then the new code is the email's only active one |
| `AuthDatabase.AuthDb.CheckCorrectOtp` | auth/src/services/aws/dynamodb.ts:500-536 | accepts a code exactly if it is active and has not expired; an active one is used up either way; nothing else changes |
| `AuthDatabase.AuthDb.RegisterDids` | auth/src/services/aws/dynamodb.ts:362-388 | checks the code, then all DIDs, then registers; a spent code stays spent when a DID is not valid; a run of the registry |
| `AuthDatabase.RegisteredExactly` | auth/src/services/aws/dynamodb.ts:378-421 | exactly the DIDs that had no row are reported, each once, and belong to the email; no other row changes |
| `AuthDatabase.AuthDb.RevokeDid` | auth/src/services/aws/dynamodb.ts:423-464 | with a good code, an active DID whose email contains the one given becomes Revoked, and nothing else changes but the code; a run of the registry |
| `AuthDatabase.AuthDb.AddNonce` | auth/src/services/aws/dynamodb.ts:325-350 | accepts a nonce exactly for an active DID that has not used it; a run of the registry |
| `Sorting.StableSortCorrect` | src/services/candidate.ts:12-14 | sorted, the same elements, and equal keys keep their order |

## Left out

- PathLine.Decode: an element of 2^53 or more is kept exact where JavaScript rounds it; it is rejected either way.
- Fees.FirstEstimateRules: asks for an estimate at every attempt; `Fees.ClosedForm` covers attempts without one.
- Ethereum.SendTransaction: a re-check of the same hash gives the same answer within a call, and the receipt of a wait
  is for the hash that was waited for.
- Witness.BuildWitness: looking up an absent link is taken to throw, as the CAR library does not say what it returns.
- Requests.UpdateRequests: one statement is one atomic step, also that of `batchProcessing`; the order in
  which a query returns equal keys is left open.
- AnchorProtocol.EndToEnd: needs a hash without collisions, and Ethereum transactions that differ between successful
  calls, as `TransactionMutex.EachCallItsTransaction` shows they do.
- AnchorServices.AnchorService.PersistAnchorResult: the method is the attempt that commits, as an object cannot be
  interrupted; attempts that end with a serialization error are steps of `SnapshotTransactions`.
- AnchorServices.AnchorService.AnchorCandidates: the lock around the submission is not a field of the service; what it
  is for, a transaction that no other call has, is asked of the surroundings and proved in `TransactionMutex`.
- AuthDatabase.AuthDb.RegisterDids: the pattern for DIDs is a parameter; a race of two code requests for one email is
  only covered by the interleaving results of `AuthRegistry`.
- AuthRegistry.OtpAuthorizesOnce: generated codes are taken never to repeat for the same email.
- The Merkle tree factory, the CAR and CID codecs and the hash function: libraries, present as contracts.
- SQL text, knex, SQS, S3, DynamoDB and Ethereum RPC: only an atomic statement, a snapshot transaction, redelivery until
  the ack, a conditional put and one mined transaction per nonce.
- Malformed stream ids and CIDs in stored requests, which make a candidate's constructor throw: they are parsed before
  they are stored.
- IPFS storage and publishing of commits, which are off by default.
- The in-memory Merkle CAR service: it is the cache of the other one without eviction.
- The replica database of request lookups, request garbage collection, and lookups by stream: they only read.
- The encoding of the root CID as transaction data: the data is a value all attempts share.
- Metrics, logging, batch summaries, controllers, auth middleware, configuration, the container, health checks, multiple
  processes, `TaskSchedulerService`, polling, pubsub, and the Solidity allow list: shallow, or the meaning is in a
  library.
- Liveness of the queue and of Ethereum: nothing says that a batch is eventually delivered or a transaction mined.
