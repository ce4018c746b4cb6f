/** The anchor service: what one worker does with a batch, and that each of its calls is a run of the protocol. */
module AnchorServices {
  import opened Wrappers
  import opened Witness
  import opened MerkleTrees
  import opened Sorting
  import opened Requests
  import opened ReadySelection
  import opened RequestRepositories
  import opened Anchors
  import opened Candidates
  import P = AnchorProtocol
  import W = WitnessCache
  import R = RequestPresentation
  import E = Ethereum
  import S = Scheduling

  // ----- What the service relies on -----

  /** A Merkle CAR: its tree, and the requests behind its leaves in the tree's order. */
  datatype MerkleCar = MerkleCar(leafNodes: seq<Request>, tree: MerkleTree)

  type Builder = seq<Request> -> MerkleCar

  /** The tree library puts every request under some leaf; it may reorder them. */
  ghost predicate BuilderContract(hash: Hasher, build: Builder) {
    forall requests :: requests != [] ==> IsTreeOver(hash, requests, build(requests))
  }

  ghost predicate IsTreeOver(hash: Hasher, requests: seq<Request>, m: MerkleCar) {
    && multiset(m.leafNodes) == multiset(requests)
    && ValidTree(hash, m.tree)
    && LeavesOf(m.leafNodes, m.tree)
  }

  /** Where a run of the service is interrupted by an exception, unless Ethereum does. */
  datatype Fault = NoFault | CandidatesFault | TreeFault | CarStorageFault | PersistFault | SummaryFault

  /** All that one batch meets: an exception or none, what Ethereum answers, the time, and the witness store's mood. */
  datatype Surroundings = Surroundings(
    fault: Fault,
    ethereum: E.Schedule,
    baseOf: Cid -> E.Base,
    now: int,
    witnessAccepted: nat -> bool)

  /** Submitting `root` ends with the transaction, or with an error. */
  ghost predicate Submitted(io: Surroundings, root: Cid, n: nat, tx: Option<Transaction>) {
    && E.Made(io.ethereum, io.baseOf(root), n)
    && tx == match E.ResultOf(io.ethereum, io.baseOf(root), n) case Ok(t) => Some(t) case Err(_) => None
  }

  /** A call that succeeds does so with a transaction of its own, as calls under the mutex do. */
  ghost predicate OwnTransaction(io: Surroundings, used: set<nat>) {
    forall root, n, tx | Submitted(io, root, n, Some(tx)) :: tx.txHash !in used
  }

  /** What became of the batch's transaction: none without a tree, otherwise what submitting its root ended with. */
  ghost predicate SentAs(io: Surroundings, root: Cid, tx: Option<Transaction>) {
    if io.fault in {CandidatesFault, TreeFault} then tx.None?
    else exists n :: Submitted(io, root, n, tx)
  }

  /** The same, for the tree over the requests with these ids. */
  ghost predicate SentFor(build: Builder, io: Surroundings, ids: set<RequestId>, tx: Option<Transaction>) {
    exists order :: Ids(order) == ids && SentAs(io, build(order).tree.root, tx)
  }

  datatype Outcome = Done | NothingToDo | Failed

  // ----- Runs of the protocol -----

  ghost predicate Steps(c: P.Config, ss: seq<P.State>) {
    ss != [] && forall i | 0 < i < |ss| :: P.StepTo(c, ss, i)
  }

  lemma ExtendSteps(c: P.Config, ss: seq<P.State>, s: P.State) returns (more: seq<P.State>)
    requires Steps(c, ss) && P.Next(c, ss[|ss| - 1], s)
    ensures Steps(c, more) && more == ss + [s]
  {
    more := ss + [s];
    forall i | 0 < i < |more|
      ensures P.StepTo(c, more, i)
    {
      if i < |ss| {
        assert P.StepTo(c, ss, i);
      }
    }
  }

  function Final(ss: seq<P.State>): P.State
    requires ss != []
  {
    ss[|ss| - 1]
  }

  /** One more step of worker `w`. */
  lemma Act(c: P.Config, ss: seq<P.State>, s: P.State, w: P.WorkerId) returns (more: seq<P.State>)
    requires Steps(c, ss) && P.WorkerStep(c, Final(ss), s, w)
    ensures Steps(c, more) && more[0] == ss[0] && Final(more) == s
  {
    more := ExtendSteps(c, ss, s);
  }

  function AfterSend(s: P.State, w: P.WorkerId, sent: P.Worker): P.State
    requires sent.Sent?
  {
    s.(chain := s.chain[sent.tx.txHash := P.OnChain(sent.tx, sent.tree.root)], workers := s.workers[w := sent])
  }

  lemma TakeAct(c: P.Config, s: P.State, w: P.WorkerId, requests: seq<Request>, t': Table, limit: nat)
    returns (ss: seq<P.State>, taken: P.State)
    requires ValidTable(s.table) && ValidTable(t') && !c.useQueueBatches && P.WorkerOf(s, w).Idle?
    requires exists ids :: TakenFromReady(s.table, ids, limit) && t' == StartProcessing(s.table, ids)
               && Lists(requests, t', ids)
    ensures Steps(c, ss) && ss[0] == s && Final(ss) == taken
    ensures taken == s.(table := t', workers := s.workers[w := P.Holding(requests, P.NoQueue)])
    ensures |requests| == Limited(limit, |WithStatus(s.table, READY)|)
    ensures forall r | r in requests :: r.status == PROCESSING
  {
    var ids :| TakenFromReady(s.table, ids, limit) && t' == StartProcessing(s.table, ids) && Lists(requests, t', ids);
    ListedIds(requests, t', ids);
    taken := s.(table := t', workers := s.workers[w := P.Holding(requests, P.NoQueue)]);
    assert P.Takes(s, taken, w, requests);
    ss := Act(c, [s], taken, w);
  }

  lemma DeliverAct(c: P.Config, s: P.State, w: P.WorkerId, ids: set<RequestId>, rows: seq<Request>)
    returns (ss: seq<P.State>)
    requires ValidTable(s.table) && Lists(rows, s.table, ids) && c.useQueueBatches && P.WorkerOf(s, w).Idle?
    ensures Steps(c, ss) && ss[0] == s
    ensures var kept := WithoutReplaced(rows);
            Final(ss) == s.(workers := s.workers[w := if kept == [] then P.Finished([], P.Delivery(ids, s.table))
                                                      else P.Holding(kept, P.Delivery(ids, s.table))])
    ensures Ids(WithoutReplaced(rows)) == P.NotReplaced(s.table, ids)
    ensures WithoutReplaced(rows) == [] <==> P.NotReplaced(s.table, ids) == {}
  {
    var kept := WithoutReplaced(rows);
    KeptExactly(rows, |rows|);
    assert rows[..|rows|] == rows;
    var s' := s.(workers := s.workers[w := if kept == [] then P.Finished([], P.Delivery(ids, s.table))
                                           else P.Holding(kept, P.Delivery(ids, s.table))]);
    forall id | id in P.NotReplaced(s.table, ids)
      ensures id in Ids(kept)
    {
      assert s.table[id] in rows && s.table[id] in kept && s.table[id].id == id;
    }
    assert kept != [] ==> kept[0] in kept && kept[0].id in P.NotReplaced(s.table, ids);
    assert P.Delivers(s, s', w, ids, kept);
    ss := Act(c, [s], s', w);
  }

  lemma FinishAct(c: P.Config, ss: seq<P.State>, w: P.WorkerId) returns (more: seq<P.State>)
    requires Steps(c, ss) && P.WorkerOf(Final(ss), w).Finished? && c.useQueueBatches
    ensures Steps(c, more) && more[0] == ss[0]
    ensures var s := Final(ss);
            Final(more) == s.(workers := s.workers[w := P.Idle], acked := s.acked + [P.WorkerOf(s, w).delivery])
  {
    var s := Final(ss);
    more := Act(c, ss, s.(workers := s.workers[w := P.Idle], acked := s.acked + [P.WorkerOf(s, w).delivery]), w);
  }

  lemma SendAct(c: P.Config, s: P.State, w: P.WorkerId, merkle: MerkleCar, tx: Transaction) returns (ss: seq<P.State>)
    requires P.WorkerOf(s, w).Holding? && tx.txHash !in s.chain
    requires IsTreeOver(c.hash, P.WorkerOf(s, w).requests, merkle)
    ensures Steps(c, ss) && ss[0] == s
    ensures Final(ss) == AfterSend(s, w, P.Sent(merkle.leafNodes, P.WorkerOf(s, w).delivery, merkle.tree, tx))
  {
    var s' := AfterSend(s, w, P.Sent(merkle.leafNodes, P.WorkerOf(s, w).delivery, merkle.tree, tx));
    assert P.Sends(c, s, s', w, merkle.leafNodes, merkle.tree, tx);
    ss := Act(c, [s], s', w);
  }

  lemma StoreAct(c: P.Config, ss: seq<P.State>, w: P.WorkerId, sent: P.Worker) returns (more: seq<P.State>)
    requires Steps(c, ss) && P.WorkerOf(Final(ss), w) == sent
    requires sent.Sent? && |sent.tree.paths| == |sent.requests|
    ensures Steps(c, more) && more[0] == ss[0] && Final(more) == P.AfterStore(c, Final(ss), w, sent)
  {
    more := Act(c, ss, P.AfterStore(c, Final(ss), w, sent), w);
  }

  lemma PersistAct(c: P.Config, ss: seq<P.State>, w: P.WorkerId, stored: P.Worker, now: int)
    returns (more: seq<P.State>)
    requires Steps(c, ss) && P.WorkerOf(Final(ss), w) == stored && stored.Stored?
    ensures Steps(c, more) && more[0] == ss[0] && Final(more) == P.AfterPersist(Final(ss), w, stored, now)
  {
    assert P.Persist(Final(ss), P.AfterPersist(Final(ss), w, stored, now), w);
    more := Act(c, ss, P.AfterPersist(Final(ss), w, stored, now), w);
  }

  lemma FailAct(c: P.Config, ss: seq<P.State>, w: P.WorkerId, worker: P.Worker, now: int) returns (more: seq<P.State>)
    requires Steps(c, ss) && P.WorkerOf(Final(ss), w) == worker && !worker.Idle?
    ensures Steps(c, more) && more[0] == ss[0] && Final(more) == P.AfterFailure(c, Final(ss), w, worker, now)
  {
    assert P.Fail(c, Final(ss), P.AfterFailure(c, Final(ss), w, worker, now), w);
    more := Act(c, ss, P.AfterFailure(c, Final(ss), w, worker, now), w);
  }

  function Accepted(io: Surroundings, n: nat): (accepted: seq<bool>)
    ensures |accepted| == n
    ensures forall i | 0 <= i < n :: accepted[i] == io.witnessAccepted(i)
  {
    seq(n, i requires 0 <= i => io.witnessAccepted(i))
  }

  function WithoutReplaced(requests: seq<Request>): seq<Request> {
    KeptOf(requests, |requests|)
  }

  function KeptOf(requests: seq<Request>, n: nat): seq<Request>
    requires n <= |requests|
  {
    if n == 0 then []
    else KeptOf(requests, n - 1) + if requests[n - 1].status != REPLACED then [requests[n - 1]] else []
  }

  lemma {:induction false} KeptExactly(requests: seq<Request>, n: nat)
    requires n <= |requests|
    ensures forall r :: r in KeptOf(requests, n) <==> r in requests[..n] && r.status != REPLACED
  {
    if n > 0 {
      KeptExactly(requests, n - 1);
      assert requests[..n] == requests[..n - 1] + [requests[n - 1]];
    }
  }

  lemma {:induction false} AllKept(requests: seq<Request>, n: nat)
    requires n <= |requests| && forall i | 0 <= i < n :: requests[i].status != REPLACED
    ensures KeptOf(requests, n) == requests[..n]
  {
    if n > 0 {
      AllKept(requests, n - 1);
      assert requests[..n] == requests[..n - 1] + [requests[n - 1]];
    }
  }

  lemma Concat(c: P.Config, a: seq<P.State>, b: seq<P.State>) returns (ss: seq<P.State>)
    requires Steps(c, a) && Steps(c, b) && Final(a) == b[0]
    ensures Steps(c, ss) && ss[0] == a[0] && Final(ss) == Final(b)
  {
    ss := a + b[1..];
    forall i | 0 < i < |ss|
      ensures P.StepTo(c, ss, i)
    {
      if i < |a| {
        assert P.StepTo(c, a, i);
      } else {
        assert P.StepTo(c, b, i - |a| + 1);
      }
    }
  }

  /** What `findAndMarkReady` did, as a state of the scheduler. */
  lemma MarkedState(c: S.Config, before: S.State, t': Table, maxStreams: nat, requests: seq<Request>)
    returns (after: S.State)
    requires WithStatus(before.table, READY) == {}
    requires exists streams ::
               && IsReadyBatch(before.table, before.now, maxStreams, c.minStreamLimit,
                               before.now - c.maxAnchoringDelay, streams)
               && MarkedAs(before.table, t', before.now, streams, before.now, requests)
    ensures S.Mark(c, before, after, maxStreams) && after.table == t'
    ensures |requests| == |after.batch| && after.batch == WithStatus(t', READY)
  {
    var streams :|
      && IsReadyBatch(before.table, before.now, maxStreams, c.minStreamLimit, before.now - c.maxAnchoringDelay, streams)
      && MarkedAs(before.table, t', before.now, streams, before.now, requests);
    MarkReadyExact(before.table, before.now, streams, before.now);
    after := S.AfterMark(before, streams);
  }

  lemma InsertCovers(rows: seq<FreshAnchor>, anchors: seq<FreshAnchor>)
    ensures rows <= InsertAnchors(rows, anchors)
    ensures forall a | a in anchors :: HasAnchor(InsertAnchors(rows, anchors), a.requestId)
  {
    InsertsAll(rows, anchors, |anchors|);
    assert anchors[..|anchors|] == anchors;
  }

  lemma AnchorsCover(hash: Hasher, requests: seq<Request>, paths: seq<seq<PathLine.PathDirection>>, proofCid: Cid)
    requires |paths| == |requests|
    ensures forall id | id in Ids(requests) ::
              exists a :: a in AnchorsFor(hash, requests, paths, proofCid) && a.requestId == id
  {
    var anchors := AnchorsFor(hash, requests, paths, proofCid);
    forall id | id in Ids(requests)
      ensures exists a :: a in anchors && a.requestId == id
    {
      var i :| 0 <= i < |requests| && requests[i].id == id;
      assert anchors[i] in anchors && anchors[i].requestId == id;
    }
  }

  // ----- The service -----

  class AnchorService {
    const config: P.Config
    const build: Builder
    const maxStreamLimit: nat
    const minStreamLimit: nat
    const requestRepository: RequestRepository
    const anchorRepository: AnchorRepository
    const merkleCarService: R.MerkleCarService
    const witnessService: R.WitnessService

    constructor (config: P.Config, build: Builder, maxStreamLimit: nat, minStreamLimit: nat,
                 requestRepository: RequestRepository, anchorRepository: AnchorRepository,
                 merkleCarService: R.MerkleCarService, witnessService: R.WitnessService)
      requires Injective(config.hash) && BuilderContract(config.hash, build) && requestRepository.Valid()
      ensures Valid()
      ensures this.config == config && this.build == build
      ensures this.maxStreamLimit == maxStreamLimit && this.minStreamLimit == minStreamLimit
      ensures this.requestRepository == requestRepository && this.anchorRepository == anchorRepository
      ensures this.merkleCarService == merkleCarService && this.witnessService == witnessService
    {
      this.config, this.build := config, build;
      this.maxStreamLimit, this.minStreamLimit := maxStreamLimit, minStreamLimit;
      this.requestRepository, this.anchorRepository := requestRepository, anchorRepository;
      this.merkleCarService, this.witnessService := merkleCarService, witnessService;
    }

    ghost predicate Valid()
      reads requestRepository
    {
      Injective(config.hash) && BuilderContract(config.hash, build) && requestRepository.Valid()
    }

    /** The stores hold what the protocol state says. */
    ghost predicate Shows(s: P.State)
      reads requestRepository, anchorRepository, merkleCarService
    {
      s.table == requestRepository.table && s.anchors == anchorRepository.rows && s.cars == merkleCarService.s3
    }

    ghost predicate TablesUnchanged(s: P.State)
      reads requestRepository, anchorRepository
    {
      requestRepository.table == s.table && anchorRepository.rows == s.anchors
    }

    /** The requests are COMPLETED, and each has a row. */
    ghost predicate AllDone(ids: set<RequestId>)
      reads requestRepository, anchorRepository
    {
      forall id | id in ids ::
        && (id in requestRepository.table ==> requestRepository.table[id].status == COMPLETED)
        && HasAnchor(anchorRepository.rows, id)
    }

    /** `_persistAnchorResult`. */
    method PersistAnchorResult(anchors: seq<FreshAnchor>, accepted: seq<Request>, now: int) returns (persisted: nat)
      requires Valid()
      modifies requestRepository, anchorRepository
      ensures Valid()
      ensures anchorRepository.rows == InsertAnchors(old(anchorRepository.rows), anchors)
      ensures requestRepository.table == Requests.UpdateRequests(old(requestRepository.table), Completed(),
                                                                 Ids(accepted), now)
      ensures persisted == |anchorRepository.rows| - |old(anchorRepository.rows)|
      ensures OnlyChanges(old(requestRepository.table), requestRepository.table, Ids(accepted))
      ensures forall id | id in requestRepository.table && id in Ids(accepted) ::
                var r, r' := old(requestRepository.table)[id], requestRepository.table[id];
                && SameIdentity(r, r') && r'.status == COMPLETED && r'.pinned && r'.updatedAt == now
                && r'.message == Text("CID successfully anchored.")
      ensures old(anchorRepository.rows) <= anchorRepository.rows
      ensures forall a | a in anchors :: HasAnchor(anchorRepository.rows, a.requestId)
    {
      InsertCovers(anchorRepository.rows, anchors);
      persisted := 0;
      if |anchors| > 0 {
        persisted := anchorRepository.CreateAnchors(anchors);
      }
      var updated := requestRepository.UpdateRequests(Completed(), accepted, now);
    }

    /** `_anchorCandidates`: tree, transaction, proof, commits, CAR, witnesses, and the two tables. */
    method AnchorCandidates(requests: seq<Request>, io: Surroundings, ghost s: P.State, ghost w: P.WorkerId)
      returns (ok: bool, sentTx: Option<Transaction>, ghost trace: seq<P.State>)
      requires Valid() && Shows(s) && requests != [] && OwnTransaction(io, s.chain.Keys) && io.fault != CandidatesFault
      requires P.WorkerOf(s, w).Holding? && multiset(P.WorkerOf(s, w).requests) == multiset(requests)
      modifies requestRepository, anchorRepository, merkleCarService, witnessService
      ensures Valid()
      ensures if ok then AllDone(Ids(requests)) else TablesUnchanged(s)
      ensures Steps(config, trace) && trace[0] == s && Shows(Final(trace))
      ensures Final(trace).acked == s.acked
      ensures SentAs(io, build(requests).tree.root, sentTx)
      ensures ok <==> sentTx.Some? && io.fault !in {CarStorageFault, PersistFault}
      ensures var worker := P.WorkerOf(Final(trace), w);
              && !worker.Idle? && (ok <==> worker.Finished?)
              && Ids(worker.requests) == Ids(requests) && worker.delivery == P.WorkerOf(s, w).delivery
    {
      trace := [s];
      ok, sentTx := false, None;
      P.SameRows(P.WorkerOf(s, w).requests, requests);
      if io.fault == TreeFault {
        return;
      }
      var merkle := build(requests);
      assert IsTreeOver(config.hash, requests, merkle);
      sentTx := SendRoot(merkle.tree.root, io);
      if sentTx.None? {
        return;
      }
      P.SameRows(merkle.leafNodes, requests);
      trace := SendAct(config, s, w, merkle, sentTx.value);
      ok, trace := StoreAndPersist(requests, merkle, sentTx.value, io, trace, w);
    }

    /** What follows once the root is on the chain. */
    method StoreAndPersist(requests: seq<Request>, merkle: MerkleCar, tx: Transaction, io: Surroundings,
                           ghost before: seq<P.State>, ghost w: P.WorkerId)
      returns (ok: bool, ghost trace: seq<P.State>)
      requires Valid() && Steps(config, before) && Shows(Final(before))
      requires ValidTree(config.hash, merkle.tree) && LeavesOf(merkle.leafNodes, merkle.tree)
      requires P.WorkerOf(Final(before), w).Sent? && Ids(merkle.leafNodes) == Ids(requests)
      requires var sent := P.WorkerOf(Final(before), w);
               sent == P.Sent(merkle.leafNodes, sent.delivery, merkle.tree, tx)
      modifies requestRepository, anchorRepository, merkleCarService, witnessService
      ensures Valid()
      ensures if ok then AllDone(Ids(requests)) else TablesUnchanged(Final(before))
      ensures Steps(config, trace) && trace[0] == before[0] && Shows(Final(trace))
      ensures Final(trace).acked == Final(before).acked
      ensures ok <==> io.fault !in {CarStorageFault, PersistFault}
      ensures var worker := P.WorkerOf(Final(trace), w);
              && !worker.Idle? && (ok <==> worker.Finished?)
              && Ids(worker.requests) == Ids(requests) && worker.delivery == P.WorkerOf(Final(before), w).delivery
    {
      trace := before;
      ghost var sent := P.WorkerOf(Final(before), w);
      var anchors;
      ok, anchors := StoreBatch(merkle, tx, io);
      if !ok {
        return;
      }
      trace := StoreAct(config, trace, w, sent);
      if io.fault == PersistFault {
        return false, trace;
      }
      AnchorsCover(config.hash, merkle.leafNodes, merkle.tree.paths, P.StoredBy(config, sent).proofCid);
      var persisted := PersistAnchorResult(anchors, requests, io.now);
      trace := PersistAct(config, trace, w, P.StoredBy(config, sent), io.now);
    }

    method SendRoot(root: Cid, io: Surroundings) returns (tx: Option<Transaction>)
      ensures exists n :: Submitted(io, root, n, tx)
    {
      var r, submissions, attempts := E.SendTransaction(io.ethereum, io.baseOf(root));
      tx := if r.Ok? then Some(r.value) else None;
      assert Submitted(io, root, attempts, tx);
    }

    /**
     * Proof, commits, CAR and witnesses. The witnesses of a batch can always be built, so only S3 can make this fail.
     */
    method StoreBatch(merkle: MerkleCar, tx: Transaction, io: Surroundings)
      returns (ok: bool, anchors: seq<FreshAnchor>)
      requires Injective(config.hash) && ValidTree(config.hash, merkle.tree) && LeavesOf(merkle.leafNodes, merkle.tree)
      modifies merkleCarService, witnessService
      ensures ok <==> io.fault != CarStorageFault
      ensures var proof := ProofRecord(merkle.tree.root, tx, config.useSmartContractAnchors);
              var proofCid, car := config.hash(proof), BatchBlocks(config.hash, merkle.tree, proof, merkle.leafNodes);
              && anchors == AnchorsFor(config.hash, merkle.leafNodes, merkle.tree.paths, proofCid)
              && merkleCarService.Contents() == W.PutCar(old(merkleCarService.Contents()), proofCid, car, ok)
              && if ok then R.Adds(old(witnessService.cache), witnessService.cache, anchors, R.MakerOf(car),
                                   Accepted(io, |anchors|), |anchors|)
                 else witnessService.cache == old(witnessService.cache)
    {
      ghost var proof := ProofRecord(merkle.tree.root, tx, config.useSmartContractAnchors);
      var proofCid, car := CreateIpfsProof(config.hash, merkle.tree.blocks, tx, merkle.tree.root,
                                           config.useSmartContractAnchors);
      anchors, car := CreateAnchorCommits(config.hash, car, merkle.leafNodes, merkle.tree, proofCid);
      ok := merkleCarService.StoreCarFile(proofCid, car, io.fault != CarStorageFault);
      if !ok {
        return;
      }
      StoreWitnesses(merkle, proof, anchors, car, io);
    }

    /** `_storeWitnessCARs` on a batch's own CAR. */
    method StoreWitnesses(merkle: MerkleCar, ghost proof: Record, anchors: seq<FreshAnchor>, car: Blocks,
                          io: Surroundings)
      requires Injective(config.hash) && ValidTree(config.hash, merkle.tree) && LeavesOf(merkle.leafNodes, merkle.tree)
      requires proof.Proof? && proof.root == merkle.tree.root
      requires anchors == AnchorsFor(config.hash, merkle.leafNodes, merkle.tree.paths, config.hash(proof))
      requires car == BatchBlocks(config.hash, merkle.tree, proof, merkle.leafNodes)
      modifies witnessService
      ensures R.Adds(old(witnessService.cache), witnessService.cache, anchors, R.MakerOf(car),
                     Accepted(io, |anchors|), |anchors|)
    {
      forall i: nat | i < |anchors|
        ensures R.BuildsAt(anchors, R.MakerOf(car), i)
      {
        BatchProven(config.hash, merkle.tree, proof, merkle.leafNodes, i);
      }
      R.BuildableAreStored(witnessService.cache, anchors, R.MakerOf(car), Accepted(io, |anchors|));
      var error := R.StoreWitnessCars(witnessService, anchors, car, Accepted(io, |anchors|));
      assert error.None?;
    }

    /**
     * `_anchorRequests`, for the requests the worker holds in the protocol once those REPLACED are left out. A failure
     * after the candidates are found, even of the summary at the very end, resets the requests unless a queue is used.
     */
    method AnchorRequests(requests: seq<Request>, io: Surroundings, ghost s: P.State, ghost w: P.WorkerId)
      returns (outcome: Outcome, sentTx: Option<Transaction>, ghost trace: seq<P.State>)
      requires Valid() && Shows(s) && OwnTransaction(io, s.chain.Keys)
      requires WithoutReplaced(requests) != [] ==>
                 P.WorkerOf(s, w).Holding? && P.WorkerOf(s, w).requests == WithoutReplaced(requests)
      modifies requestRepository, anchorRepository, merkleCarService, witnessService
      ensures Valid()
      ensures Steps(config, trace) && trace[0] == s && Shows(Final(trace))
      ensures Final(trace).acked == s.acked
      ensures WithoutReplaced(requests) != [] ==> SentFor(build, io, Ids(WithoutReplaced(requests)), sentTx)
      ensures outcome == (if WithoutReplaced(requests) == [] then NothingToDo
                          else if io.fault == NoFault && sentTx.Some? then Done else Failed)
      ensures outcome.NothingToDo? ==> trace == [s]
      ensures outcome.Done? ==> AllDone(Ids(WithoutReplaced(requests)))
      ensures outcome.Failed? ==>
                var ids := Ids(WithoutReplaced(requests));
                && (config.useQueueBatches && io.fault != SummaryFault ==> TablesUnchanged(s))
                && (io.fault == CandidatesFault ==> TablesUnchanged(s))
                && (!config.useQueueBatches && io.fault != CandidatesFault ==>
                      forall id | id in ids && id in requestRepository.table ::
                        requestRepository.table[id].status == PENDING)
      ensures outcome.Failed? ==> P.WorkerOf(Final(trace), w).Idle?
      ensures outcome.Done? ==>
                var worker := P.WorkerOf(Final(trace), w);
                && worker.Finished? && Ids(worker.requests) == Ids(WithoutReplaced(requests))
                && worker.delivery == P.WorkerOf(s, w).delivery
    {
      trace, sentTx := [s], None;
      var filteredRequests := WithoutReplaced(requests);
      if |filteredRequests| == 0 {
        return NothingToDo, sentTx, trace;
      }
      if io.fault == CandidatesFault {
        trace := Act(config, trace, s.(workers := s.workers[w := P.Idle]), w);
        assert SentAs(io, build(filteredRequests).tree.root, sentTx);
        return Failed, sentTx, trace;
      }
      var candidates, groups := FindCandidates(filteredRequests);
      var accepted := RequestsOf(candidates);
      P.SameRows(accepted, filteredRequests);
      var ok;
      ok, sentTx, trace := AnchorCandidates(accepted, io, s, w);
      if ok && io.fault != SummaryFault {
        return Done, sentTx, trace;
      }
      trace := Revert(accepted, io.now, trace, w);
      return Failed, sentTx, trace;
    }

    /** What follows a failure: without a queue the requests go back to PENDING, whatever their state. */
    method Revert(accepted: seq<Request>, now: int, ghost before: seq<P.State>, ghost w: P.WorkerId)
      returns (ghost trace: seq<P.State>)
      requires Valid() && Steps(config, before) && Shows(Final(before))
      requires !P.WorkerOf(Final(before), w).Idle? && Ids(P.WorkerOf(Final(before), w).requests) == Ids(accepted)
      modifies requestRepository
      ensures Valid()
      ensures Steps(config, trace) && trace[0] == before[0] && Shows(Final(trace))
      ensures P.WorkerOf(Final(trace), w).Idle? && Final(trace).acked == Final(before).acked
      ensures requestRepository.table == if config.useQueueBatches then old(requestRepository.table)
                                         else Requests.UpdateRequests(old(requestRepository.table),
                                                                      StatusOnly(PENDING), Ids(accepted), now)
      ensures !config.useQueueBatches ==>
                && OnlyChanges(old(requestRepository.table), requestRepository.table, Ids(accepted))
                && forall id | id in requestRepository.table && id in Ids(accepted) ::
                     requestRepository.table[id]
                     == old(requestRepository.table)[id].(status := PENDING, updatedAt := now)
    {
      trace := FailAct(config, before, w, P.WorkerOf(Final(before), w), now);
      if !config.useQueueBatches {
        var reverted := requestRepository.UpdateRequests(StatusOnly(PENDING), accepted, now);
      }
    }

    /** `_findCandidates`: every request gets a candidate, and all of them are accepted. */
    method FindCandidates(requests: seq<Request>) returns (candidates: seq<Candidate>, groups: RequestGroups)
      ensures multiset(RequestsOf(candidates)) == multiset(requests)
      ensures SortedBy(RequestsOf(candidates), Timestamp)
      ensures groups.acceptedRequests == RequestsOf(candidates)
      ensures ClassifiesByRow(groups, RequestsOf(candidates), anchorRepository.rows, maxStreamLimit)
    {
      candidates := BuildCandidates(requests);
      assert Selectables(candidates, anchorRepository.rows)
          == WithoutRow(RequestsOf(candidates), anchorRepository.rows);
      groups := LoadCandidateStreams(candidates, anchorRepository.rows, maxStreamLimit);
      groups := groups.(acceptedRequests := RequestsOf(candidates));
    }

    /** `batchProcessing`, as the protocol's step. */
    method TakeBatch(ghost s: P.State, ghost w: P.WorkerId)
      returns (requests: seq<Request>, ghost trace: seq<P.State>, ghost taken: P.State)
      requires Valid() && Shows(s) && P.WorkerOf(s, w).Idle? && !config.useQueueBatches
      modifies requestRepository
      ensures Valid() && Shows(taken)
      ensures Steps(config, trace) && trace[0] == s && Final(trace) == taken
      ensures taken == s.(table := taken.table, workers := s.workers[w := P.Holding(requests, P.NoQueue)])
      ensures WithoutReplaced(requests) == requests
      ensures requests == [] <==> Limited(maxStreamLimit, |WithStatus(s.table, READY)|) == 0
    {
      requests := requestRepository.BatchProcessing(maxStreamLimit);
      trace, taken := TakeAct(config, s, w, requests, requestRepository.table, maxStreamLimit);
      AllKept(requests, |requests|);
      assert requests[..|requests|] == requests;
    }

    /** `anchorReadyRequests`: a batch is taken, anchored, and let go. */
    method AnchorReadyRequests(io: Surroundings, ghost s: P.State, ghost w: P.WorkerId)
      returns (outcome: Outcome, sentTx: Option<Transaction>, ghost trace: seq<P.State>)
      requires Valid() && Shows(s) && OwnTransaction(io, s.chain.Keys)
      requires P.WorkerOf(s, w).Idle? && !config.useQueueBatches
      modifies requestRepository, anchorRepository, merkleCarService, witnessService
      ensures Valid()
      ensures Steps(config, trace) && trace[0] == s && Shows(Final(trace)) && P.WorkerOf(Final(trace), w).Idle?
      ensures outcome.NothingToDo? <==> Limited(maxStreamLimit, |WithStatus(s.table, READY)|) == 0
      ensures !outcome.NothingToDo? ==>
                && (exists ids :: SentFor(build, io, ids, sentTx))
                && (outcome.Done? <==> io.fault == NoFault && sentTx.Some?)
    {
      var requests;
      ghost var taken;
      requests, trace, taken := TakeBatch(s, w);
      ghost var rest;
      outcome, sentTx, rest := AnchorRequests(requests, io, taken, w);
      trace := Concat(config, trace, rest);
      if outcome.NothingToDo? {
        trace := Act(config, trace, Final(trace).(workers := Final(trace).workers[w := P.Idle]), w);
      } else if outcome.Done? {
        trace := Act(config, trace, Final(trace).(workers := Final(trace).workers[w := P.Idle]), w);
      }
    }

    /** `anchorNextQueuedBatch`: a batch is acked when it is anchored or holds nothing to anchor, and else nacked. */
    method AnchorNextQueuedBatch(message: Option<seq<RequestId>>, io: Surroundings, ghost s: P.State,
                                 ghost w: P.WorkerId)
      returns (acked: Option<bool>, sentTx: Option<Transaction>, ghost trace: seq<P.State>)
      requires Valid() && Shows(s) && OwnTransaction(io, s.chain.Keys)
      requires P.WorkerOf(s, w).Idle? && config.useQueueBatches
      modifies requestRepository, anchorRepository, merkleCarService, witnessService
      ensures Valid()
      ensures Steps(config, trace) && trace[0] == s && Shows(Final(trace)) && P.WorkerOf(Final(trace), w).Idle?
      ensures message.None? <==> acked.None?
      ensures acked.Some? ==>
                var ids := set id | id in message.value;
                && (ids <= s.table.Keys && P.NotReplaced(s.table, ids) != {} ==>
                      SentFor(build, io, P.NotReplaced(s.table, ids), sentTx))
                && (acked.value <==> ids <= s.table.Keys && ((io.fault == NoFault && sentTx.Some?)
                                                             || P.NotReplaced(s.table, ids) == {}))
                && Final(trace).acked == if acked.value then s.acked + [P.Delivery(ids, s.table)] else s.acked
    {
      trace, sentTx := [s], None;
      if message.None? {
        return None, sentTx, trace;
      }
      ghost var ids := set id | id in message.value;
      var found := requestRepository.FindByIds(message.value);
      if found.Err? {
        return Some(false), sentTx, trace;
      }
      var ok;
      ok, sentTx, trace := AnchorDelivered(found.value, io, s, w, ids);
      return Some(ok), sentTx, trace;
    }

    /** The part of `anchorNextQueuedBatch` between reading the rows and the answer to the queue. */
    method AnchorDelivered(requests: seq<Request>, io: Surroundings,
                           ghost s: P.State, ghost w: P.WorkerId, ghost ids: set<RequestId>)
      returns (ack: bool, sentTx: Option<Transaction>, ghost trace: seq<P.State>)
      requires Valid() && Shows(s) && OwnTransaction(io, s.chain.Keys)
      requires P.WorkerOf(s, w).Idle? && config.useQueueBatches
      requires Lists(requests, s.table, ids)
      modifies requestRepository, anchorRepository, merkleCarService, witnessService
      ensures Valid()
      ensures Steps(config, trace) && trace[0] == s && Shows(Final(trace)) && P.WorkerOf(Final(trace), w).Idle?
      ensures P.NotReplaced(s.table, ids) != {} ==> SentFor(build, io, P.NotReplaced(s.table, ids), sentTx)
      ensures ack <==> (io.fault == NoFault && sentTx.Some?) || P.NotReplaced(s.table, ids) == {}
      ensures Final(trace).acked == if ack then s.acked + [P.Delivery(ids, s.table)] else s.acked
    {
      trace := DeliverAct(config, s, w, ids, requests);
      var outcome;
      ghost var rest;
      outcome, sentTx, rest := AnchorRequests(requests, io, Final(trace), w);
      trace := Concat(config, trace, rest);
      ack := !outcome.Failed?;
      if ack {
        trace := FinishAct(config, trace, w);
      }
    }

    function SchedulerConfig(bundled: bool): S.Config {
      S.Config(maxStreamLimit, minStreamLimit, requestRepository.maxAnchoringDelayMS,
               requestRepository.readyRetryIntervalMS, bundled)
    }

    /** `findAndMarkReady`, as the scheduler's step when nothing is READY. */
    method MarkBatch(maxStreams: nat, now: int, ghost bundled: bool, ghost before: S.State)
      returns (marked: nat, ghost after: S.State)
      requires Valid() && before.table == requestRepository.table && before.now == now
      requires WithStatus(before.table, READY) == {}
      modifies requestRepository
      ensures Valid()
      ensures S.Mark(SchedulerConfig(bundled), before, after, maxStreams) && after.table == requestRepository.table
      ensures marked == |after.batch| && after.batch == WithStatus(after.table, READY)
    {
      var requests := requestRepository.FindAndMarkReady(maxStreams, minStreamLimit, now, now);
      after := MarkedState(SchedulerConfig(bundled), before, requestRepository.table, maxStreams, requests);
      marked := |requests|;
    }

    /** `emitAnchorEventIfReady`: an event is due when overdue READY requests were refreshed or a batch was marked. */
    method EmitAnchorEventIfReady(now: int, ghost bundled: bool, ghost before: S.State)
      returns (emitted: bool, ghost after: S.State)
      requires Valid() && before.table == requestRepository.table && before.now == now
      modifies requestRepository
      ensures Valid()
      ensures S.Emit(SchedulerConfig(bundled), before, after) && after.table == requestRepository.table
      ensures emitted <==> if WithStatus(before.table, READY) != {} then S.Overdue(SchedulerConfig(bundled), before)
                           else WithStatus(after.table, READY) != {}
    {
      var readyRequestsCount := requestRepository.CountByStatus(READY);
      if readyRequestsCount > 0 {
        var updated := requestRepository.UpdateExpiringReadyRequests(now);
        if updated == 0 {
          return false, before;
        }
        after := before.(table := requestRepository.table, touched := now, refreshes := before.refreshes + [now]);
        return true, after;
      } else {
        var marked;
        marked, after := MarkBatch(maxStreamLimit, now, bundled, before);
        emitted := marked > 0;
      }
    }

    /** The first half of `anchorRequests` without a queue. */
    method PullInRequests(now: int, ghost before: S.State) returns (ghost after: S.State)
      requires Valid() && before.table == requestRepository.table && before.now == now
      modifies requestRepository
      ensures Valid()
      ensures S.AnchorRequests(SchedulerConfig(true), before, after) && after.table == requestRepository.table
    {
      var readyRequestsCount := requestRepository.CountByStatus(READY);
      after := before;
      if readyRequestsCount == 0 {
        var marked;
        marked, after := MarkBatch(maxStreamLimit * 2, now, true, before);
      }
    }
  }
}
