/**
 * The anchoring protocol: any number of workers, the request and anchor tables, the Merkle CAR store, and a
 * failure or a crash at any point, with READY batches or with queued batches.
 */
module AnchorProtocol {
  import opened Wrappers
  import opened Witness
  import opened MerkleTrees
  import opened Requests
  import opened Anchors

  type WorkerId = nat

  /** One delivery of a queued batch: the ids in the message and the table as `findByIds` read it. */
  datatype Delivery = NoQueue | Delivery(ids: set<RequestId>, read: Table)

  /** How far a worker has got with its requests; `Sent` has them in the order of the tree's leaves. */
  datatype Worker =
    | Idle
    | Holding(requests: seq<Request>, delivery: Delivery)
    | Sent(requests: seq<Request>, delivery: Delivery, tree: MerkleTree, tx: Transaction)
    | Stored(requests: seq<Request>, delivery: Delivery, proofCid: Cid, anchors: seq<FreshAnchor>)
    | Finished(requests: seq<Request>, delivery: Delivery)

  /** A confirmed transaction, and the Merkle root it carries. */
  datatype OnChain = OnChain(tx: Transaction, root: Cid)

  /** `chain` holds what the workers' transactions carry, by transaction hash. */
  datatype State = State(
    table: Table,
    anchors: seq<FreshAnchor>,
    cars: map<Cid, Blocks>,
    chain: map<nat, OnChain>,
    workers: map<WorkerId, Worker>,
    acked: seq<Delivery>)

  datatype Config = Config(hash: Hasher, useQueueBatches: bool, useSmartContractAnchors: bool)

  function WorkerOf(s: State, w: WorkerId): Worker {
    if w in s.workers then s.workers[w] else Idle
  }

  // ----- Steps on requests -----

  /** A client request is stored, unless its CID is known. */
  ghost predicate Create(s: State, s': State) {
    exists r: Request :: Creates(s, s', r)
  }

  ghost predicate Creates(s: State, s': State, r: Request) {
    r.id !in s.table && r.status == PENDING && s' == s.(table := Insert(s.table, r))
  }

  /** `markReplaced`, or the validation worker that replaces requests in queue mode. */
  ghost predicate ReplacePending(s: State, s': State) {
    exists ids, newer :: ids <= WithStatus(s.table, PENDING) && s' == s.(table := Replace(s.table, ids, newer))
  }

  /** The committed transactions that make requests READY, refresh them, or move READY ones to PROCESSING. */
  ghost predicate Schedule(s: State, s': State) {
    exists ids, target, now, written ::
      Schedulable(s.table, ids, target, now)
          && s' == s.(table := UpdateRequests(s.table, StatusOnly(target), ids, written))
  }

  ghost predicate Schedulable(t: Table, ids: set<RequestId>, target: RequestStatus, now: int) {
    && target in {READY, PROCESSING}
    && forall id | id in ids :: id in t && (Anchorable(t[id], now) || t[id].status == READY)
  }

  /**
   * Scheduling leaves alone what is done, failed or replaced, and what is in a batch for no more than three hours; and
   * from PENDING it only leads to a batch.
   */
  lemma ScheduleLeavesAlone(s: State, s': State, id: RequestId)
    requires Schedule(s, s') && id in s.table
    ensures id in s'.table
    ensures s.table[id].status in {COMPLETED, FAILED, REPLACED} ==> s'.table[id] == s.table[id]
    ensures s'.table[id] != s.table[id] ==>
              && SameIdentity(s.table[id], s'.table[id]) && s'.table[id].status in {READY, PROCESSING}
              && s'.table[id].message == s.table[id].message && s'.table[id].pinned == s.table[id].pinned
  {
    var ids, target, now, written :| Schedulable(s.table, ids, target, now)
                                     && s' == s.(table := UpdateRequests(s.table, StatusOnly(target), ids, written));
    UpdatesByColumn(s.table, StatusOnly(target), ids, written, Digest(0));
    if id in ids && s.table[id].status != READY {
      AnchorableIff(s.table[id], now);
    }
  }

  // ----- Steps of a worker -----

  /** `batchProcessing`: the worker holds the rows it moved from READY to PROCESSING. */
  ghost predicate Take(c: Config, s: State, s': State, w: WorkerId) {
    && !c.useQueueBatches && WorkerOf(s, w).Idle?
    && exists requests :: Takes(s, s', w, requests)
  }

  ghost predicate Takes(s: State, s': State, w: WorkerId, requests: seq<Request>) {
    && Ids(requests) <= WithStatus(s.table, READY)
    && (forall r | r in requests :: r.id in s'.table && s'.table[r.id] == r)
    && s' == s.(table := StartProcessing(s.table, Ids(requests)), workers := s.workers[w := Holding(requests, NoQueue)])
  }

  /** A batch is delivered, for the first time or again; the worker keeps what is not REPLACED. */
  ghost predicate Deliver(c: Config, s: State, s': State, w: WorkerId) {
    && c.useQueueBatches && WorkerOf(s, w).Idle?
    && exists ids, requests :: Delivers(s, s', w, ids, requests)
  }

  ghost predicate Delivers(s: State, s': State, w: WorkerId, ids: set<RequestId>, requests: seq<Request>) {
    && ids <= s.table.Keys
    && (forall r | r in requests :: r.id in ids && s.table[r.id] == r && r.status != REPLACED)
    && NotReplaced(s.table, ids) <= Ids(requests)
    && s' == s.(workers := s.workers[w := if requests == [] then Finished([], Delivery(ids, s.table))
                                          else Holding(requests, Delivery(ids, s.table))])
  }

  function NotReplaced(t: Table, ids: set<RequestId>): set<RequestId> {
    set id | id in ids && id in t && t[id].status != REPLACED
  }

  /** The tree over the held requests is built and its root is on the chain, in a transaction of its own. */
  ghost predicate Send(c: Config, s: State, s': State, w: WorkerId) {
    && WorkerOf(s, w).Holding?
    && exists requests, tree, tx :: Sends(c, s, s', w, requests, tree, tx)
  }

  ghost predicate Sends(c: Config, s: State, s': State, w: WorkerId, requests: seq<Request>, tree: MerkleTree,
                        tx: Transaction)
    requires WorkerOf(s, w).Holding?
  {
    && multiset(requests) == multiset(WorkerOf(s, w).requests)
    && ValidTree(c.hash, tree) && LeavesOf(requests, tree)
    && tx.txHash !in s.chain
    && s' == s.(chain := s.chain[tx.txHash := OnChain(tx, tree.root)],
                workers := s.workers[w := Sent(requests, WorkerOf(s, w).delivery, tree, tx)])
  }

  function ProofOf(c: Config, w: Worker): Record
    requires w.Sent?
  {
    ProofRecord(w.tree.root, w.tx, c.useSmartContractAnchors)
  }

  /** Proof and commits are added to the tree's CAR, and the CAR is stored under the proof. */
  ghost predicate StoreCar(c: Config, s: State, s': State, w: WorkerId) {
    && WorkerOf(s, w).Sent? && |WorkerOf(s, w).tree.paths| == |WorkerOf(s, w).requests|
    && s' == AfterStore(c, s, w, WorkerOf(s, w))
  }

  function AfterStore(c: Config, s: State, w: WorkerId, worker: Worker): State
    requires worker.Sent? && |worker.tree.paths| == |worker.requests|
  {
    var proof := ProofOf(c, worker);
    s.(cars := s.cars[c.hash(proof) := BatchBlocks(c.hash, worker.tree, proof, worker.requests)],
       workers := s.workers[w := StoredBy(c, worker)])
  }

  function StoredBy(c: Config, worker: Worker): Worker
    requires worker.Sent? && |worker.tree.paths| == |worker.requests|
  {
    var proofCid := c.hash(ProofOf(c, worker));
    Stored(worker.requests, worker.delivery, proofCid, AnchorsFor(c.hash, worker.requests, worker.tree.paths, proofCid))
  }

  /** `_persistAnchorResult`: one transaction inserts the anchors and completes the requests. */
  ghost predicate Persist(s: State, s': State, w: WorkerId) {
    && WorkerOf(s, w).Stored?
    && exists now :: s' == AfterPersist(s, w, WorkerOf(s, w), now)
  }

  function AfterPersist(s: State, w: WorkerId, worker: Worker, now: int): State
    requires worker.Stored?
  {
    s.(anchors := InsertAnchors(s.anchors, worker.anchors),
       table := UpdateRequests(s.table, Completed(), Ids(worker.requests), now),
       workers := s.workers[w := Finished(worker.requests, worker.delivery)])
  }

  /**
   * An exception at any stage. Without a queue the requests are reset to PENDING by id, whatever has become
   * of them; with a queue the batch is nacked and nothing else happens.
   */
  ghost predicate Fail(c: Config, s: State, s': State, w: WorkerId) {
    && !WorkerOf(s, w).Idle?
    && exists now :: s' == AfterFailure(c, s, w, WorkerOf(s, w), now)
  }

  function AfterFailure(c: Config, s: State, w: WorkerId, worker: Worker, now: int): State
    requires !worker.Idle?
  {
    s.(table := if c.useQueueBatches then s.table
                else UpdateRequests(s.table, StatusOnly(PENDING), Ids(worker.requests), now),
       workers := s.workers[w := Idle])
  }

  ghost predicate Crash(s: State, s': State, w: WorkerId) {
    s' == s.(workers := s.workers[w := Idle])
  }

  /** The batch is done; with a queue it is acked. */
  ghost predicate Finish(c: Config, s: State, s': State, w: WorkerId) {
    && WorkerOf(s, w).Finished?
    && s' == s.(workers := s.workers[w := Idle],
                acked := if c.useQueueBatches then s.acked + [WorkerOf(s, w).delivery] else s.acked)
  }

  ghost predicate WorkerStep(c: Config, s: State, s': State, w: WorkerId) {
    || Take(c, s, s', w)
    || Deliver(c, s, s', w)
    || Send(c, s, s', w)
    || StoreCar(c, s, s', w)
    || Persist(s, s', w)
    || Fail(c, s, s', w)
    || Crash(s, s', w)
    || Finish(c, s, s', w)
  }

  ghost predicate Next(c: Config, s: State, s': State) {
    || Create(s, s')
    || ReplacePending(s, s')
    || Schedule(s, s')
    || (exists w :: WorkerStep(c, s, s', w))
  }

  ghost predicate Init(s: State) {
    s == State(map[], [], map[], map[], map[], [])
  }

  ghost predicate Run(c: Config, ss: seq<State>) {
    && ss != []
    && Init(ss[0])
    && forall i | 0 < i < |ss| :: StepTo(c, ss, i)
  }

  ghost predicate StepTo(c: Config, ss: seq<State>, i: int)
    requires 0 < i < |ss|
  {
    Next(c, ss[i - 1], ss[i])
  }

  // ----- Invariant -----

  /** The row was written for the commit that its request asked to anchor, and its CAR proves it. */
  ghost predicate RowProven(s: State, a: FreshAnchor) {
    && a.requestId in s.table
    && a.proofCid in s.cars
    && Proven(s.cars[a.proofCid], a, s.table[a.requestId].streamId.cid, s.table[a.requestId].cid)
  }

  ghost predicate AnchorsInv(s: State) {
    && OnePerRequest(s.anchors)
    && (forall a | a in s.anchors :: RowProven(s, a))
    && (forall id | id in s.table && s.table[id].status == COMPLETED :: HasAnchor(s.anchors, id))
  }

  /** The proof says which root is on which chain, in which transaction, and there the root is. */
  ghost predicate ProofOnChain(c: Config, chain: map<nat, OnChain>, proof: Record) {
    && proof.Proof?
    && proof.txType == (if c.useSmartContractAnchors then Some("f(bytes32)") else None)
    && exists h :: h in chain && chain[h].tx.txHash == h && proof.txHash == Digest(h)
                   && proof.root == chain[h].root && proof.chainId == chain[h].tx.chain
  }

  /** A stored CAR is content addressed, and its key is the CID of a proof that holds on the chain. */
  ghost predicate CarInv(c: Config, chain: map<nat, OnChain>, key: Cid, blocks: Blocks) {
    && ContentAddressed(c.hash, blocks)
    && key in blocks && ProofOnChain(c, chain, blocks[key])
  }

  ghost predicate RequestsKnown(t: Table, requests: seq<Request>) {
    forall r | r in requests :: r.id in t && SameIdentity(r, t[r.id])
  }

  /** The delivery was read from an earlier table, and the worker kept all that was not REPLACED. */
  ghost predicate DeliveryKept(t: Table, d: Delivery, ids: set<RequestId>) {
    d.Delivery? ==>
      && d.ids <= d.read.Keys
      && Preserves(d.read, t)
      && NotReplaced(d.read, d.ids) <= ids
  }

  ghost predicate WorkerInv(c: Config, s: State, w: Worker) {
    && (c.useQueueBatches && !w.Idle? ==> w.delivery.Delivery?)
    && match w
    case Idle => true
    case Holding(requests, d) => RequestsKnown(s.table, requests) && DeliveryKept(s.table, d, Ids(requests))
    case Sent(requests, d, tree, tx) =>
      && RequestsKnown(s.table, requests) && DeliveryKept(s.table, d, Ids(requests))
      && ValidTree(c.hash, tree) && LeavesOf(requests, tree)
      && tx.txHash in s.chain && s.chain[tx.txHash] == OnChain(tx, tree.root)
    case Stored(requests, d, proofCid, anchors) =>
      && RequestsKnown(s.table, requests) && DeliveryKept(s.table, d, Ids(requests))
      && |anchors| == |requests|
      && proofCid in s.cars
      && (forall i | 0 <= i < |requests| ::
            && anchors[i].requestId == requests[i].id && anchors[i].proofCid == proofCid
            && Proven(s.cars[proofCid], anchors[i], requests[i].streamId.cid, requests[i].cid))
    case Finished(requests, d) =>
      && RequestsKnown(s.table, requests) && DeliveryKept(s.table, d, Ids(requests))
      && (forall id | id in Ids(requests) :: HasAnchor(s.anchors, id))
      && (c.useQueueBatches ==> forall id | id in Ids(requests) :: s.table[id].status == COMPLETED)
  }

  /** A transaction that no CAR carries yet, and no other worker. */
  ghost predicate TxUnused(s: State, w: WorkerId) {
    WorkerOf(s, w).Sent? ==>
      && (forall p | p in s.cars && p in s.cars[p] && s.cars[p][p].Proof? ::
            s.cars[p][p].txHash != ConvertEthHashToCid(WorkerOf(s, w).tx.txHash))
      && (forall v | v in s.workers && v != w && s.workers[v].Sent? ::
            s.workers[v].tx.txHash != WorkerOf(s, w).tx.txHash)
  }

  /** With queued batches: what an acked delivery asked for is done. */
  ghost predicate AckedDone(s: State, d: Delivery) {
    && d.Delivery?
    && d.ids <= d.read.Keys
    && Preserves(d.read, s.table)
    && forall id | id in NotReplaced(d.read, d.ids) ::
         id in s.table && s.table[id].status == COMPLETED && HasAnchor(s.anchors, id)
  }

  ghost predicate Inv(c: Config, s: State) {
    && ValidTable(s.table)
    && AnchorsInv(s)
    && (forall p | p in s.cars :: CarInv(c, s.chain, p, s.cars[p]))
    && (forall w | w in s.workers :: WorkerInv(c, s, s.workers[w]) && TxUnused(s, w))
    && (c.useQueueBatches ==> forall d | d in s.acked :: AckedDone(s, d))
  }

  // ----- Frames -----

  /** Rows keep their identity, anchors and CARs are only added. */
  ghost predicate Grows(s: State, s': State) {
    && Preserves(s.table, s'.table)
    && s.anchors <= s'.anchors
    && s.cars.Keys <= s'.cars.Keys
    && (forall p | p in s.cars :: s'.cars[p] == s.cars[p])
    && s.chain.Keys <= s'.chain.Keys
    && (forall h | h in s.chain :: s'.chain[h] == s.chain[h])
  }

  ghost predicate CompletedStays(t: Table, t': Table) {
    forall id | id in t && t[id].status == COMPLETED :: id in t' && t'[id].status == COMPLETED
  }

  lemma RequestsStayKnown(t: Table, t': Table, requests: seq<Request>)
    requires RequestsKnown(t, requests) && Preserves(t, t')
    ensures RequestsKnown(t', requests)
  {
  }

  lemma DeliveryStaysKept(t: Table, t': Table, d: Delivery, ids: set<RequestId>)
    requires DeliveryKept(t, d, ids) && Preserves(t, t')
    ensures DeliveryKept(t', d, ids)
  {
  }

  lemma WorkerInvStays(c: Config, s: State, s': State, w: Worker)
    requires WorkerInv(c, s, w) && Grows(s, s')
    requires c.useQueueBatches ==> CompletedStays(s.table, s'.table)
    ensures WorkerInv(c, s', w)
  {
    if !w.Idle? {
      RequestsStayKnown(s.table, s'.table, w.requests);
      DeliveryStaysKept(s.table, s'.table, w.delivery, Ids(w.requests));
      AnchorsStay(s.anchors, s'.anchors);
    }
  }

  lemma RowProvenStays(s: State, s': State, a: FreshAnchor)
    requires RowProven(s, a) && Grows(s, s')
    ensures RowProven(s', a)
  {
  }

  lemma AckedStays(s: State, s': State, d: Delivery)
    requires AckedDone(s, d) && Grows(s, s') && CompletedStays(s.table, s'.table)
    ensures AckedDone(s', d)
  {
  }

  /** What stays true of the workers, rows and deliveries that a step does not touch. */
  lemma PartsStay(c: Config, s: State, s': State)
    requires Inv(c, s) && Grows(s, s')
    requires c.useQueueBatches ==> CompletedStays(s.table, s'.table)
    ensures forall w | w in s.workers :: WorkerInv(c, s', s.workers[w]) && TxUnused(s, w)
    ensures forall a | a in s.anchors :: RowProven(s', a)
    ensures c.useQueueBatches ==> forall d | d in s.acked :: AckedDone(s', d)
    ensures forall p | p in s.cars :: CarInv(c, s'.chain, p, s.cars[p])
  {
    forall a | a in s.anchors
      ensures RowProven(s', a)
    {
      RowProvenStays(s, s', a);
    }
    forall w | w in s.workers
      ensures WorkerInv(c, s', s.workers[w]) && TxUnused(s, w)
    {
      WorkerInvStays(c, s, s', s.workers[w]);
    }
    forall d | d in s.acked && c.useQueueBatches
      ensures AckedDone(s', d)
    {
      AckedStays(s, s', d);
    }
    forall p | p in s.cars
      ensures CarInv(c, s'.chain, p, s.cars[p])
    {
      assert CarInv(c, s.chain, p, s.cars[p]);
    }
  }

  // ----- Partial updates of the state -----

  /** The table changes without completing any request, and, with a queue, without undoing one. */
  ghost predicate Quiet(c: Config, t: Table, t': Table) {
    && Preserves(t, t')
    && ValidTable(t')
    && CompletedStays(t', t)
    && (c.useQueueBatches ==> CompletedStays(t, t'))
  }

  lemma UpdateIsQuiet(c: Config, t: Table, f: Fields, ids: set<RequestId>, now: int)
    requires ValidTable(t) && f.status != COMPLETED
    requires c.useQueueBatches ==> forall id | id in t && id in ids :: t[id].status != COMPLETED
    ensures Quiet(c, t, UpdateRequests(t, f, ids, now))
  {
  }

  lemma ReplaceIsQuiet(c: Config, t: Table, ids: set<RequestId>, newer: Cid)
    requires ValidTable(t) && ids <= WithStatus(t, PENDING)
    ensures Quiet(c, t, Replace(t, ids, newer))
  {
  }

  lemma StartProcessingIsQuiet(c: Config, t: Table, ids: set<RequestId>)
    requires ValidTable(t) && ids <= WithStatus(t, READY)
    ensures Quiet(c, t, StartProcessing(t, ids))
  {
  }

  lemma TableOnly(c: Config, s: State, t': Table)
    requires Inv(c, s) && Quiet(c, s.table, t')
    ensures Inv(c, s.(table := t'))
  {
    var s' := s.(table := t');
    PartsStay(c, s, s');
    forall w | w in s'.workers
      ensures TxUnused(s', w)
    {
      assert TxUnused(s, w);
    }
  }

  /** A worker moves on, and nothing else changes. */
  lemma WorkerOnly(c: Config, s: State, w: WorkerId, worker: Worker)
    requires Inv(c, s) && WorkerInv(c, s, worker)
    requires TxUnused(s.(workers := s.workers[w := worker]), w)
    requires worker.Sent? ==> forall v | v in s.workers && v != w && s.workers[v].Sent? ::
               s.workers[v].tx.txHash != worker.tx.txHash
    ensures Inv(c, s.(workers := s.workers[w := worker]))
  {
    var s' := s.(workers := s.workers[w := worker]);
    PartsStay(c, s, s');
    OtherWorkers(c, s, s', worker);
    forall v | v in s'.workers
      ensures TxUnused(s', v)
    {
      if v != w {
        assert TxUnused(s, v);
      }
    }
  }

  /** A CAR is stored under a proof whose transaction no stored CAR carries. */
  lemma CarOnly(c: Config, s: State, key: Cid, blocks: Blocks)
    requires Inv(c, s) && key !in s.cars && CarInv(c, s.chain, key, blocks)
    requires forall v | v in s.workers && s.workers[v].Sent? ::
               ConvertEthHashToCid(s.workers[v].tx.txHash) != blocks[key].txHash
    ensures Inv(c, s.(cars := s.cars[key := blocks]))
  {
    var s' := s.(cars := s.cars[key := blocks]);
    PartsStay(c, s, s');
    forall w | w in s'.workers
      ensures TxUnused(s', w)
    {
      assert TxUnused(s, w);
    }
  }

  lemma ChainOnly(c: Config, s: State, h: nat, sent: OnChain)
    requires Inv(c, s) && h !in s.chain
    ensures Inv(c, s.(chain := s.chain[h := sent]))
  {
    var s' := s.(chain := s.chain[h := sent]);
    PartsStay(c, s, s');
    forall w | w in s'.workers
      ensures TxUnused(s', w)
    {
      assert TxUnused(s, w);
    }
  }

  /** Rows are inserted, each proven, and their requests completed. */
  lemma PersistOnly(c: Config, s: State, rows: seq<FreshAnchor>, t': Table)
    requires Inv(c, s) && Preserves(s.table, t') && ValidTable(t') && CompletedStays(s.table, t')
    requires forall a | a in rows :: RowProven(s, a)
    requires forall id | id in t' && t'[id].status == COMPLETED ::
               (id in s.table && s.table[id].status == COMPLETED) || HasAnchor(rows, id)
    ensures Inv(c, s.(anchors := InsertAnchors(s.anchors, rows), table := t'))
  {
    var s' := s.(anchors := InsertAnchors(s.anchors, rows), table := t');
    InsertAnchorsCorrect(s.anchors, rows);
    AnchorsStay(s.anchors, s'.anchors);
    PartsStay(c, s, s');
    forall w | w in s'.workers
      ensures TxUnused(s', w)
    {
      assert TxUnused(s, w);
    }
    forall a | a in s'.anchors
      ensures RowProven(s', a)
    {
      InsertedFrom(s.anchors, rows, a);
      if a !in s.anchors {
        RowProvenStays(s, s', a);
      }
    }
  }

  lemma InsertedFrom(anchors: seq<FreshAnchor>, rows: seq<FreshAnchor>, a: FreshAnchor)
    requires OnePerRequest(anchors) && a in InsertAnchors(anchors, rows)
    ensures a in anchors || a in rows
  {
  }

  /** The rows of a worker that has stored its CAR, one for each of its requests. */
  lemma StoredRows(c: Config, s: State, w: Worker)
    requires w.Stored? && WorkerInv(c, s, w)
    ensures forall a | a in w.anchors :: RowProven(s, a)
    ensures forall id | id in Ids(w.requests) :: HasAnchor(w.anchors, id)
  {
  }

  lemma AckOnly(c: Config, s: State, d: Delivery)
    requires Inv(c, s) && (c.useQueueBatches ==> AckedDone(s, d))
    ensures Inv(c, s.(acked := s.acked + [d]))
  {
    var s' := s.(acked := s.acked + [d]);
    PartsStay(c, s, s');
    forall w | w in s'.workers
      ensures TxUnused(s', w)
    {
      assert TxUnused(s, w);
    }
  }

  // ----- Every step keeps the invariant -----

  lemma CreateKeepsInv(c: Config, s: State, s': State)
    requires Inv(c, s) && Create(s, s')
    ensures Inv(c, s')
  {
    var r: Request :| Creates(s, s', r);
    InsertKeepsValid(s.table, r);
    TableOnly(c, s, s'.table);
  }

  lemma ReplacePendingKeepsInv(c: Config, s: State, s': State)
    requires Inv(c, s) && ReplacePending(s, s')
    ensures Inv(c, s')
  {
    var ids, newer :| ids <= WithStatus(s.table, PENDING) && s' == s.(table := Replace(s.table, ids, newer));
    ReplaceIsQuiet(c, s.table, ids, newer);
    TableOnly(c, s, s'.table);
  }

  lemma ScheduleKeepsInv(c: Config, s: State, s': State)
    requires Inv(c, s) && Schedule(s, s')
    ensures Inv(c, s')
  {
    var ids, target, now, written :| Schedulable(s.table, ids, target, now)
                                     && s' == s.(table := UpdateRequests(s.table, StatusOnly(target), ids, written));
    UpdateIsQuiet(c, s.table, StatusOnly(target), ids, written);
    TableOnly(c, s, s'.table);
  }

  lemma TakeKeepsInv(c: Config, s: State, s': State, w: WorkerId)
    requires Inv(c, s) && Take(c, s, s', w)
    ensures Inv(c, s')
  {
    var requests :| Takes(s, s', w, requests);
    StartProcessingIsQuiet(c, s.table, Ids(requests));
    TableOnly(c, s, s'.table);
    WorkerOnly(c, s.(table := s'.table), w, Holding(requests, NoQueue));
  }

  lemma DeliverKeepsInv(c: Config, s: State, s': State, w: WorkerId)
    requires Inv(c, s) && Deliver(c, s, s', w)
    ensures Inv(c, s')
  {
    var ids, requests :| Delivers(s, s', w, ids, requests);
    WorkerOnly(c, s, w, s'.workers[w]);
  }

  /** A transaction hash that is new is in no CAR and with no worker. */
  lemma NewTx(c: Config, s: State, h: nat)
    requires Inv(c, s) && h !in s.chain
    ensures forall p | p in s.cars && p in s.cars[p] && s.cars[p][p].Proof? ::
              s.cars[p][p].txHash != ConvertEthHashToCid(h)
    ensures forall v | v in s.workers && s.workers[v].Sent? :: s.workers[v].tx.txHash != h
  {
  }

  lemma SendKeepsInv(c: Config, s: State, s': State, w: WorkerId)
    requires Inv(c, s) && Send(c, s, s', w)
    ensures Inv(c, s')
  {
    var requests, tree, tx :| Sends(c, s, s', w, requests, tree, tx);
    var held := WorkerOf(s, w).requests;
    SameRows(requests, held);
    assert WorkerInv(c, s, s.workers[w]);
    ChainOnly(c, s, tx.txHash, OnChain(tx, tree.root));
    NewTx(c, s, tx.txHash);
    WorkerOnly(c, s.(chain := s'.chain), w, s'.workers[w]);
  }

  lemma SameRows(a: seq<Request>, b: seq<Request>)
    requires multiset(a) == multiset(b)
    ensures Ids(a) == Ids(b)
    ensures forall r :: r in a <==> r in b
  {
    assert forall r :: r in a <==> r in multiset(a);
    assert forall r :: r in b <==> r in multiset(b);
  }

  /** No stored CAR has the proof of a worker that has not stored its own yet. */
  lemma ProofIsNew(c: Config, s: State, w: WorkerId, key: Cid)
    requires Injective(c.hash) && Inv(c, s) && WorkerOf(s, w).Sent? && key in s.cars
    ensures key != c.hash(ProofOf(c, WorkerOf(s, w)))
  {
  }

  /** A worker's CAR is stored; the worker itself is set aside. */
  lemma CarStored(c: Config, s: State, w: WorkerId, key: Cid, blocks: Blocks)
    requires Inv(c, s) && key !in s.cars && CarInv(c, s.chain, key, blocks)
    requires forall v | v in s.workers && v != w && s.workers[v].Sent? ::
               ConvertEthHashToCid(s.workers[v].tx.txHash) != blocks[key].txHash
    ensures Inv(c, s.(workers := s.workers[w := Idle], cars := s.cars[key := blocks]))
  {
    WorkerOnly(c, s, w, Idle);
    CarOnly(c, s.(workers := s.workers[w := Idle]), key, blocks);
  }

  lemma StoreCarGrows(c: Config, s: State, w: WorkerId, worker: Worker)
    requires worker.Sent? && |worker.tree.paths| == |worker.requests|
    requires c.hash(ProofOf(c, worker)) !in s.cars
    ensures Grows(s, AfterStore(c, s, w, worker))
  {
  }

  lemma StoreCarKeepsInv(c: Config, s: State, s': State, w: WorkerId)
    requires Injective(c.hash) && Inv(c, s) && StoreCar(c, s, s', w)
    ensures Inv(c, s')
  {
    WorkerSetAside(c, s, s', w);
    Resume(c, s'.(workers := s.workers[w := Idle]), s', w, s'.workers[w]);
  }

  lemma WorkerSetAside(c: Config, s: State, s': State, w: WorkerId)
    requires Injective(c.hash) && Inv(c, s) && StoreCar(c, s, s', w)
    ensures Inv(c, s'.(workers := s.workers[w := Idle])) && WorkerInv(c, s', s'.workers[w])
  {
    NewCar(c, s, w);
    var worker := s.workers[w];
    var proof := ProofOf(c, worker);
    CarStored(c, s, w, c.hash(proof), BatchBlocks(c.hash, worker.tree, proof, worker.requests));
    StoreCarGrows(c, s, w, worker);
    StoredWorker(c, s, s', worker);
  }

  /** A worker that was set aside takes its place again. */
  lemma Resume(c: Config, s: State, s': State, w: WorkerId, worker: Worker)
    requires Inv(c, s) && !worker.Sent? && WorkerInv(c, s', worker)
    requires s' == s.(workers := s.workers[w := worker])
    ensures Inv(c, s')
  {
    OtherWorkers(c, s', s, worker);
    WorkerOnly(c, s, w, worker);
  }

  lemma OtherWorkers(c: Config, s: State, s': State, worker: Worker)
    requires WorkerInv(c, s, worker) && s'.(workers := s.workers) == s
    ensures WorkerInv(c, s', worker)
  {
  }

  /** What `StoreCar` stores is a CAR of its own, under a new key. */
  lemma NewCar(c: Config, s: State, w: WorkerId)
    requires Injective(c.hash) && Inv(c, s) && WorkerOf(s, w).Sent?
    ensures var worker := WorkerOf(s, w);
            var proof := ProofOf(c, worker);
            && WorkerInv(c, s, worker)
            && c.hash(proof) !in s.cars
            && CarInv(c, s.chain, c.hash(proof), BatchBlocks(c.hash, worker.tree, proof, worker.requests))
            && BatchBlocks(c.hash, worker.tree, proof, worker.requests)[c.hash(proof)] == proof
            && forall v | v in s.workers && v != w && s.workers[v].Sent? ::
                 ConvertEthHashToCid(s.workers[v].tx.txHash) != proof.txHash
  {
    var worker := WorkerOf(s, w);
    var proof := ProofOf(c, worker);
    assert WorkerInv(c, s, worker) && TxUnused(s, w);
    BatchAddressed(c.hash, worker.tree, proof, worker.requests);
    if c.hash(proof) in s.cars {
      ProofIsNew(c, s, w, c.hash(proof));
    }
  }

  lemma StoredWorker(c: Config, s: State, s': State, worker: Worker)
    requires Injective(c.hash) && WorkerInv(c, s, worker) && worker.Sent? && Grows(s, s')
    requires c.useQueueBatches ==> CompletedStays(s.table, s'.table)
    requires var proof := ProofOf(c, worker);
             && c.hash(proof) in s'.cars
             && s'.cars[c.hash(proof)] == BatchBlocks(c.hash, worker.tree, proof, worker.requests)
    ensures WorkerInv(c, s', StoredBy(c, worker))
  {
    var stored := StoredBy(c, worker);
    WorkerInvStays(c, s, s', worker);
    forall i | 0 <= i < |worker.requests|
      ensures var r := worker.requests[i];
              Proven(s'.cars[stored.proofCid], stored.anchors[i], r.streamId.cid, r.cid)
    {
      BatchProven(c.hash, worker.tree, ProofOf(c, worker), worker.requests, i);
    }
  }

  lemma CompleteRequests(t: Table, requests: seq<Request>, now: int)
    requires ValidTable(t)
    ensures var t' := UpdateRequests(t, Completed(), Ids(requests), now);
            && Preserves(t, t') && ValidTable(t') && CompletedStays(t, t')
            && forall id | id in t' :: id in Ids(requests) || t'[id] == t[id]
  {
  }

  lemma PersistedWorker(c: Config, s: State, worker: Worker, now: int)
    requires worker.Stored? && WorkerInv(c, s, worker) && OnePerRequest(s.anchors)
    requires forall id | id in Ids(worker.requests) :: HasAnchor(worker.anchors, id)
    ensures WorkerInv(c, s.(anchors := InsertAnchors(s.anchors, worker.anchors),
                            table := UpdateRequests(s.table, Completed(), Ids(worker.requests), now)),
                      Finished(worker.requests, worker.delivery))
  {
    var t' := UpdateRequests(s.table, Completed(), Ids(worker.requests), now);
    UpdatesPreserve(s.table, Completed(), Ids(worker.requests), now, Digest(0));
    InsertAnchorsCorrect(s.anchors, worker.anchors);
    RequestsStayKnown(s.table, t', worker.requests);
    DeliveryStaysKept(s.table, t', worker.delivery, Ids(worker.requests));
  }

  lemma PersistKeepsInv(c: Config, s: State, s': State, w: WorkerId)
    requires Inv(c, s) && Persist(s, s', w)
    ensures Inv(c, s')
  {
    var worker := WorkerOf(s, w);
    var now :| s' == AfterPersist(s, w, worker, now);
    assert WorkerInv(c, s, worker);
    StoredRows(c, s, worker);
    CompleteRequests(s.table, worker.requests, now);
    PersistOnly(c, s, worker.anchors, s'.table);
    PersistedWorker(c, s, worker, now);
    WorkerOnly(c, s.(anchors := s'.anchors, table := s'.table), w, s'.workers[w]);
  }

  lemma FailKeepsInv(c: Config, s: State, s': State, w: WorkerId)
    requires Inv(c, s) && Fail(c, s, s', w)
    ensures Inv(c, s')
  {
    var now :| s' == AfterFailure(c, s, w, WorkerOf(s, w), now);
    if !c.useQueueBatches {
      UpdateIsQuiet(c, s.table, StatusOnly(PENDING), Ids(WorkerOf(s, w).requests), now);
      TableOnly(c, s, s'.table);
    }
    WorkerOnly(c, s.(table := s'.table), w, Idle);
  }

  /** With a queue only a delivery can be finished, so every ack is of a delivery. */
  lemma FinishKeepsInv(c: Config, s: State, s': State, w: WorkerId)
    requires Inv(c, s) && Finish(c, s, s', w)
    ensures Inv(c, s')
  {
    var worker := WorkerOf(s, w);
    assert WorkerInv(c, s, worker);
    WorkerOnly(c, s, w, Idle);
    if c.useQueueBatches {
      AckOnly(c, s.(workers := s.workers[w := Idle]), worker.delivery);
    }
  }

  lemma WorkerStepKeepsInv(c: Config, s: State, s': State, w: WorkerId)
    requires Injective(c.hash) && Inv(c, s) && WorkerStep(c, s, s', w)
    ensures Inv(c, s')
  {
    if Take(c, s, s', w) {
      TakeKeepsInv(c, s, s', w);
    } else if Deliver(c, s, s', w) {
      DeliverKeepsInv(c, s, s', w);
    } else if Send(c, s, s', w) {
      SendKeepsInv(c, s, s', w);
    } else if StoreCar(c, s, s', w) {
      StoreCarKeepsInv(c, s, s', w);
    } else if Persist(s, s', w) {
      PersistKeepsInv(c, s, s', w);
    } else if Fail(c, s, s', w) {
      FailKeepsInv(c, s, s', w);
    } else if Crash(s, s', w) {
      WorkerOnly(c, s, w, Idle);
    } else {
      FinishKeepsInv(c, s, s', w);
    }
  }

  lemma NextKeepsInv(c: Config, s: State, s': State)
    requires Injective(c.hash) && Inv(c, s) && Next(c, s, s')
    ensures Inv(c, s')
  {
    if Create(s, s') {
      CreateKeepsInv(c, s, s');
    } else if ReplacePending(s, s') {
      ReplacePendingKeepsInv(c, s, s');
    } else if Schedule(s, s') {
      ScheduleKeepsInv(c, s, s');
    } else {
      var w :| WorkerStep(c, s, s', w);
      WorkerStepKeepsInv(c, s, s', w);
    }
  }

  lemma {:induction false} RunKeepsInv(c: Config, ss: seq<State>, i: nat)
    requires Injective(c.hash) && Run(c, ss) && i < |ss|
    ensures Inv(c, ss[i])
  {
    if i > 0 {
      RunKeepsInv(c, ss, i - 1);
      assert StepTo(c, ss, i);
      NextKeepsInv(c, ss[i - 1], ss[i]);
    }
  }

  // ----- What no step takes back -----

  lemma PersistGrows(c: Config, s: State, s': State, w: WorkerId)
    requires Inv(c, s) && Persist(s, s', w)
    ensures Grows(s, s') && CompletedStays(s.table, s'.table)
  {
    var now :| s' == AfterPersist(s, w, WorkerOf(s, w), now);
    CompleteRequests(s.table, WorkerOf(s, w).requests, now);
    InsertAnchorsCorrect(s.anchors, WorkerOf(s, w).anchors);
  }

  lemma FailGrows(c: Config, s: State, s': State, w: WorkerId)
    requires ValidTable(s.table) && Fail(c, s, s', w)
    ensures Grows(s, s')
    ensures c.useQueueBatches ==> CompletedStays(s.table, s'.table)
  {
  }

  lemma TakeGrows(c: Config, s: State, s': State, w: WorkerId)
    requires ValidTable(s.table) && Take(c, s, s', w)
    ensures Grows(s, s')
  {
    var requests :| Takes(s, s', w, requests);
    StartProcessingIsQuiet(c, s.table, Ids(requests));
  }

  /** The steps that only move the worker on. */
  lemma MoveGrows(c: Config, s: State, s': State, w: WorkerId)
    requires Deliver(c, s, s', w) || Send(c, s, s', w) || Crash(s, s', w) || Finish(c, s, s', w)
    ensures Grows(s, s') && s'.table == s.table
  {
    assert s'.table == s.table && s'.cars == s.cars && s'.anchors == s.anchors;
  }

  lemma WorkerStepGrows(c: Config, s: State, s': State, w: WorkerId)
    requires Injective(c.hash) && Inv(c, s) && WorkerStep(c, s, s', w)
    ensures Grows(s, s')
    ensures c.useQueueBatches ==> CompletedStays(s.table, s'.table)
  {
    if Take(c, s, s', w) {
      TakeGrows(c, s, s', w);
    } else if StoreCar(c, s, s', w) {
      NewCar(c, s, w);
      StoreCarGrows(c, s, w, WorkerOf(s, w));
    } else if Persist(s, s', w) {
      PersistGrows(c, s, s', w);
    } else if Fail(c, s, s', w) {
      FailGrows(c, s, s', w);
    } else {
      MoveGrows(c, s, s', w);
    }
  }

  lemma NextGrows(c: Config, s: State, s': State)
    requires Injective(c.hash) && Inv(c, s) && Next(c, s, s')
    ensures Grows(s, s')
    ensures c.useQueueBatches ==> CompletedStays(s.table, s'.table)
  {
    if Create(s, s') || ReplacePending(s, s') || Schedule(s, s') {
      RequestStepGrows(c, s, s');
    } else {
      var w :| WorkerStep(c, s, s', w);
      WorkerStepGrows(c, s, s', w);
    }
  }

  lemma RequestStepGrows(c: Config, s: State, s': State)
    requires ValidTable(s.table) && (Create(s, s') || ReplacePending(s, s') || Schedule(s, s'))
    ensures Grows(s, s')
    ensures c.useQueueBatches ==> CompletedStays(s.table, s'.table)
  {
    if Create(s, s') {
      var r: Request :| Creates(s, s', r);
      InsertKeepsValid(s.table, r);
    } else if ReplacePending(s, s') {
      var ids, newer :| ids <= WithStatus(s.table, PENDING) && s' == s.(table := Replace(s.table, ids, newer));
      ReplaceIsQuiet(c, s.table, ids, newer);
    } else {
      var ids, target, now, written :| Schedulable(s.table, ids, target, now)
                                       && s' == s.(table := UpdateRequests(s.table, StatusOnly(target), ids, written));
      UpdateIsQuiet(c, s.table, StatusOnly(target), ids, written);
    }
  }

  lemma GrowsTransitive(s: State, s': State, s'': State)
    requires Grows(s, s') && Grows(s', s'')
    ensures Grows(s, s'')
    ensures CompletedStays(s.table, s'.table) && CompletedStays(s'.table, s''.table) ==>
              CompletedStays(s.table, s''.table)
  {
  }

  lemma {:induction false} RunGrows(c: Config, ss: seq<State>, i: nat, j: nat)
    requires Injective(c.hash) && Run(c, ss) && i <= j < |ss|
    ensures Grows(ss[i], ss[j])
    ensures c.useQueueBatches ==> CompletedStays(ss[i].table, ss[j].table)
  {
    if i < j {
      RunGrows(c, ss, i, j - 1);
      StepGrows(c, ss, j);
      GrowsTransitive(ss[i], ss[j - 1], ss[j]);
    }
  }

  lemma StepGrows(c: Config, ss: seq<State>, j: nat)
    requires Injective(c.hash) && Run(c, ss) && 0 < j < |ss|
    ensures Grows(ss[j - 1], ss[j])
    ensures c.useQueueBatches ==> CompletedStays(ss[j - 1].table, ss[j].table)
  {
    RunKeepsInv(c, ss, j - 1);
    assert StepTo(c, ss, j);
    NextGrows(c, ss[j - 1], ss[j]);
  }

  // ----- Main results -----

  /**
   * The request has exactly one anchor row, number `k`, and the stored CAR of its proof yields a witness that
   * verifies, for the row's own anchor commit, which is for the request's stream and has the commit the request asked
   * to anchor as its `prev`; and the proof holds on the chain.
   */
  ghost predicate AnchoredBy(c: Config, s: State, id: RequestId, k: nat) {
    && id in s.table && k < |s.anchors|
    && (forall j | 0 <= j < |s.anchors| :: s.anchors[j].requestId == id <==> j == k)
    && s.anchors[k].proofCid in s.cars
    && CarInv(c, s.chain, s.anchors[k].proofCid, s.cars[s.anchors[k].proofCid])
    && Proven(s.cars[s.anchors[k].proofCid], s.anchors[k], s.table[id].streamId.cid, s.table[id].cid)
  }

  lemma CompletedIsAnchored(c: Config, s: State, id: RequestId)
    requires Inv(c, s) && id in s.table && s.table[id].status == COMPLETED
    ensures exists k :: AnchoredBy(c, s, id, k)
  {
    var k :| 0 <= k < |s.anchors| && s.anchors[k].requestId == id;
    assert RowProven(s, s.anchors[k]);
    assert AnchoredBy(c, s, id, k);
  }

  /** End to end: in every reachable state each COMPLETED request is anchored, and its anchoring can be proved. */
  lemma EndToEnd(c: Config, ss: seq<State>, i: nat, id: RequestId)
    requires Injective(c.hash) && Run(c, ss) && i < |ss|
    requires id in ss[i].table && ss[i].table[id].status == COMPLETED
    ensures exists k :: AnchoredBy(c, ss[i], id, k)
  {
    RunKeepsInv(c, ss, i);
    CompletedIsAnchored(c, ss[i], id);
  }

  /** A row, once written, proves its request ever after, whatever becomes of the request's status. */
  lemma RowsArePermanent(c: Config, ss: seq<State>, i: nat, j: nat, k: nat)
    requires Injective(c.hash) && Run(c, ss) && i <= j < |ss| && k < |ss[i].anchors|
    ensures k < |ss[j].anchors| && ss[j].anchors[k] == ss[i].anchors[k]
    ensures AnchoredBy(c, ss[j], ss[i].anchors[k].requestId, k)
  {
    RunGrows(c, ss, i, j);
    RunKeepsInv(c, ss, j);
    assert RowProven(ss[j], ss[j].anchors[k]);
  }

  /** A proof names one CAR: a stored CAR is never replaced, so caches of it need no invalidation. */
  lemma OneCarPerProof(c: Config, ss: seq<State>, i: nat, j: nat, proofCid: Cid)
    requires Injective(c.hash) && Run(c, ss) && i <= j < |ss| && proofCid in ss[i].cars
    ensures proofCid in ss[j].cars && ss[j].cars[proofCid] == ss[i].cars[proofCid]
    ensures ContentAddressed(c.hash, ss[j].cars[proofCid])
  {
    RunGrows(c, ss, i, j);
    RunKeepsInv(c, ss, j);
    assert CarInv(c, ss[j].chain, proofCid, ss[j].cars[proofCid]);
  }

  /**
   * Exactly once, from deliveries that come at least once: after the ack of a delivery, whatever other deliveries
   * of the same batch do, each of its requests that was not REPLACED when read stays COMPLETED with its one row.
   */
  lemma AckedIsAnchored(c: Config, ss: seq<State>, i: nat, j: nat, d: Delivery, id: RequestId)
    requires Injective(c.hash) && Run(c, ss) && i <= j < |ss| && c.useQueueBatches
    requires d in ss[i].acked && d.Delivery? && id in NotReplaced(d.read, d.ids)
    ensures id in ss[j].table && ss[j].table[id].status == COMPLETED
    ensures ss[j].table[id].cid == d.read[id].cid
    ensures exists k: nat :: AnchoredBy(c, ss[j], id, k) && k < |ss[i].anchors| && ss[j].anchors[k] == ss[i].anchors[k]
  {
    RunKeepsInv(c, ss, i);
    assert AckedDone(ss[i], d);
    RunGrows(c, ss, i, j);
    assert SameIdentity(d.read[id], ss[i].table[id]) && SameIdentity(ss[i].table[id], ss[j].table[id]);
    var k :| 0 <= k < |ss[i].anchors| && ss[i].anchors[k].requestId == id;
    RowsArePermanent(c, ss, i, j, k);
  }

  /** The worker has the request and is not done with it: its batch may be anywhere from taken to persisted. */
  predicate IsHeldBy(s: State, w: WorkerId, id: RequestId) {
    !WorkerOf(s, w).Idle? && id in Ids(WorkerOf(s, w).requests)
  }

  ghost predicate Undoes(s': State, id: RequestId) {
    id !in s'.table || s'.table[id].status != COMPLETED
  }

  /**
   * COMPLETED can be undone in a state if and only if there is no queue and some worker holds the request there. That
   * may be another worker, or the one that persisted it and has yet to write its summary.
   */
  lemma CompletedIsLostIff(c: Config, s: State, id: RequestId)
    requires Injective(c.hash) && Inv(c, s)
    requires id in s.table && s.table[id].status == COMPLETED
    ensures (exists s' :: Next(c, s, s') && Undoes(s', id)) <==> !c.useQueueBatches && exists w :: IsHeldBy(s, w, id)
  {
    forall s' | Next(c, s, s') && Undoes(s', id)
      ensures !c.useQueueBatches && exists w :: IsHeldBy(s, w, id)
    {
      LostByHolder(c, s, s', id);
    }
    if w :| !c.useQueueBatches && IsHeldBy(s, w, id) {
      var s' := AfterFailure(c, s, w, WorkerOf(s, w), 0);
      assert Fail(c, s, s', w) && WorkerStep(c, s, s', w);
      assert Next(c, s, s') && Undoes(s', id);
    }
  }

  lemma LostByHolder(c: Config, s: State, s': State, id: RequestId)
    requires Injective(c.hash) && Inv(c, s) && Next(c, s, s')
    requires id in s.table && s.table[id].status == COMPLETED && Undoes(s', id)
    ensures !c.useQueueBatches && exists w :: IsHeldBy(s, w, id) && Fail(c, s, s', w)
  {
    NextGrows(c, s, s');
    if !Create(s, s') && !ReplacePending(s, s') && !Schedule(s, s') {
      var w :| WorkerStep(c, s, s', w);
      LostByFailure(c, s, s', w, id);
    } else {
      RequestStepsKeepCompleted(s, s');
    }
  }

  lemma RequestStepsKeepCompleted(s: State, s': State)
    requires Create(s, s') || ReplacePending(s, s') || Schedule(s, s')
    requires ValidTable(s.table)
    ensures CompletedStays(s.table, s'.table)
  {
  }

  lemma LostByFailure(c: Config, s: State, s': State, w: WorkerId, id: RequestId)
    requires WorkerStep(c, s, s', w) && s.table.Keys <= s'.table.Keys
    requires id in s.table && s.table[id].status == COMPLETED && s'.table[id].status != COMPLETED
    ensures Fail(c, s, s', w) && id in Ids(WorkerOf(s, w).requests)
  {
  }
}
