/** Runs without a queue in which a request is COMPLETED, with its row, and then PENDING again. */
module LostCompletion {
  import opened Witness
  import opened MerkleTrees
  import opened Requests
  import opened Anchors
  import opened AnchorProtocol

  const AFTER_TIMEOUT: int := PROCESSING_TIMEOUT + 1

  const EMPTY: State := State(map[], [], map[], map[], map[], [])

  function WithRow(s: State, r: Request): State {
    s.(table := map[r.id := r])
  }

  function WithWorker(s: State, w: WorkerId, worker: Worker): State {
    s.(workers := s.workers[w := worker])
  }

  function In(r: Request, status: RequestStatus, updatedAt: int): Request {
    r.(status := status, updatedAt := updatedAt)
  }

  /** The request is marked READY and a worker takes it. */
  function Marked(s: State, r: Request, now: int): State {
    WithRow(s, In(r, READY, now))
  }

  function Taken(s: State, r: Request, now: int, w: WorkerId): State {
    WithWorker(WithRow(s, In(r, PROCESSING, now)), w, Holding([In(r, PROCESSING, now)], NoQueue))
  }

  lemma MarkStep(c: Config, s: State, r: Request, row: Request, now: int)
    requires s.table == map[r.id := row] && row.id == r.id && In(row, READY, now) == In(r, READY, now)
    requires Anchorable(row, now)
    ensures Next(c, s, Marked(s, r, now))
  {
    assert Schedulable(s.table, {r.id}, READY, now);
    assert UpdateRequests(s.table, StatusOnly(READY), {r.id}, now) == map[r.id := In(r, READY, now)];
    assert Schedule(s, Marked(s, r, now));
  }

  lemma TakeStep(c: Config, s: State, r: Request, now: int, w: WorkerId)
    requires !c.useQueueBatches && s.table == map[r.id := In(r, READY, now)] && w !in s.workers
    ensures Next(c, s, Taken(s, r, now, w))
  {
    var rows := [In(r, PROCESSING, now)];
    assert rows[0] in rows && Ids(rows) == {r.id};
    assert StartProcessing(s.table, Ids(rows)) == map[r.id := In(r, PROCESSING, now)];
    assert Takes(s, Taken(s, r, now, w), w, rows);
    assert WorkerStep(c, s, Taken(s, r, now, w), w);
  }

  lemma SendStep(c: Config, s: State, w: WorkerId, requests: seq<Request>, tree: MerkleTree, tx: Transaction)
    requires WorkerOf(s, w) == Holding(requests, NoQueue) && tx.txHash !in s.chain
    requires ValidTree(c.hash, tree) && LeavesOf(requests, tree)
    ensures Next(c, s, AfterSend(s, w, requests, tree, tx))
  {
    assert Sends(c, s, AfterSend(s, w, requests, tree, tx), w, requests, tree, tx);
    assert WorkerStep(c, s, AfterSend(s, w, requests, tree, tx), w);
  }

  function AfterSend(s: State, w: WorkerId, requests: seq<Request>, tree: MerkleTree, tx: Transaction): State {
    s.(chain := s.chain[tx.txHash := OnChain(tx, tree.root)],
       workers := s.workers[w := Sent(requests, NoQueue, tree, tx)])
  }

  lemma StoreStep(c: Config, s: State, w: WorkerId)
    requires WorkerOf(s, w).Sent? && |WorkerOf(s, w).tree.paths| == |WorkerOf(s, w).requests|
    ensures Next(c, s, AfterStore(c, s, w, WorkerOf(s, w)))
  {
    assert WorkerStep(c, s, AfterStore(c, s, w, WorkerOf(s, w)), w);
  }

  lemma PersistStep(c: Config, s: State, w: WorkerId, now: int)
    requires WorkerOf(s, w).Stored?
    ensures Next(c, s, AfterPersist(s, w, WorkerOf(s, w), now))
  {
    assert Persist(s, AfterPersist(s, w, WorkerOf(s, w), now), w);
    assert WorkerStep(c, s, AfterPersist(s, w, WorkerOf(s, w), now), w);
  }

  lemma FailStep(c: Config, s: State, w: WorkerId, now: int)
    requires !WorkerOf(s, w).Idle?
    ensures Next(c, s, AfterFailure(c, s, w, WorkerOf(s, w), now))
  {
    assert Fail(c, s, AfterFailure(c, s, w, WorkerOf(s, w), now), w);
    assert WorkerStep(c, s, AfterFailure(c, s, w, WorkerOf(s, w), now), w);
  }

  function Final(ss: seq<State>): State
    requires ss != []
  {
    ss[|ss| - 1]
  }

  lemma Extend(c: Config, ss: seq<State>, s: State) returns (more: seq<State>)
    requires Run(c, ss) && Next(c, Final(ss), s)
    ensures Run(c, more) && |more| == |ss| + 1 && Final(more) == s && more[|ss| - 1] == Final(ss)
  {
    more := ss + [s];
    forall i | 0 < i < |more|
      ensures StepTo(c, more, i)
    {
      if i < |ss| {
        assert StepTo(c, ss, i);
      }
    }
  }

  /** Created, marked READY, taken by worker 0. */
  lemma OneHolds(c: Config, r: Request) returns (ss: seq<State>)
    requires !c.useQueueBatches && r.status == PENDING
    ensures Run(c, ss)
    ensures Final(ss) == EMPTY.(table := map[r.id := In(r, PROCESSING, 0)],
                                workers := map[0 := Holding([In(r, PROCESSING, 0)], NoQueue)])
  {
    ss := [EMPTY];
    assert Creates(EMPTY, WithRow(EMPTY, r), r);
    ss := Extend(c, ss, WithRow(EMPTY, r));
    MarkStep(c, Final(ss), r, r, 0);
    ss := Extend(c, ss, Marked(Final(ss), r, 0));
    TakeStep(c, Final(ss), r, 0, 0);
    ss := Extend(c, ss, Taken(Final(ss), r, 0, 0));
  }

  /** Marked READY again after the timeout, and taken by worker 1. */
  lemma BothHold(c: Config, r: Request) returns (ss: seq<State>)
    requires !c.useQueueBatches && r.status == PENDING
    ensures Run(c, ss)
    ensures Final(ss) == EMPTY.(table := map[r.id := In(r, PROCESSING, AFTER_TIMEOUT)],
                                workers := map[0 := Holding([In(r, PROCESSING, 0)], NoQueue),
                                               1 := Holding([In(r, PROCESSING, AFTER_TIMEOUT)], NoQueue)])
  {
    ss := OneHolds(c, r);
    MarkStep(c, Final(ss), r, In(r, PROCESSING, 0), AFTER_TIMEOUT);
    ss := Extend(c, ss, Marked(Final(ss), r, AFTER_TIMEOUT));
    TakeStep(c, Final(ss), r, AFTER_TIMEOUT, 1);
    ss := Extend(c, ss, Taken(Final(ss), r, AFTER_TIMEOUT, 1));
  }

  /** What becomes of a worker that sends, stores and persists. */
  function AfterAnchoring(c: Config, s: State, w: WorkerId, sent: Worker): State
    requires sent.Sent? && |sent.tree.paths| == |sent.requests|
  {
    var s1 := AfterSend(s, w, sent.requests, sent.tree, sent.tx);
    AfterPersist(AfterStore(c, s1, w, sent), w, StoredBy(c, sent), AFTER_TIMEOUT)
  }

  lemma AnchoringSteps(c: Config, before: seq<State>, w: WorkerId, sent: Worker) returns (ss: seq<State>)
    requires Run(c, before) && sent.Sent? && sent.delivery == NoQueue
    requires WorkerOf(Final(before), w) == Holding(sent.requests, NoQueue) && sent.tx.txHash !in Final(before).chain
    requires ValidTree(c.hash, sent.tree) && LeavesOf(sent.requests, sent.tree)
    ensures Run(c, ss) && Final(ss) == AfterAnchoring(c, Final(before), w, sent)
  {
    SendStep(c, Final(before), w, sent.requests, sent.tree, sent.tx);
    ss := Extend(c, before, AfterSend(Final(before), w, sent.requests, sent.tree, sent.tx));
    StoreStep(c, Final(ss), w);
    ss := Extend(c, ss, AfterStore(c, Final(ss), w, sent));
    PersistStep(c, Final(ss), w, AFTER_TIMEOUT);
    ss := Extend(c, ss, AfterPersist(Final(ss), w, StoredBy(c, sent), AFTER_TIMEOUT));
  }

  /** Worker 0 anchors its request, whoever else holds it. */
  lemma OneAnchors(c: Config, r: Request, tx: Transaction, before: seq<State>) returns (ss: seq<State>)
    requires Injective(c.hash) && Run(c, before)
    requires r.id in Final(before).table
    requires WorkerOf(Final(before), 0) == Holding([In(r, PROCESSING, 0)], NoQueue)
    requires tx.txHash !in Final(before).chain
    ensures Run(c, ss)
    ensures Final(ss).workers == Final(before).workers[0 := Finished([In(r, PROCESSING, 0)], NoQueue)]
    ensures r.id in Final(ss).table && Final(ss).table[r.id].status == COMPLETED
  {
    var rows := [In(r, PROCESSING, 0)];
    assert rows[0] in rows && Ids(rows) == {r.id};
    ReferenceTreeValid(c.hash, [r.cid]);
    ss := AnchoringSteps(c, before, 0, Sent(rows, NoQueue, BuildTree(c.hash, [r.cid]), tx));
  }

  /** The last step of the run takes a COMPLETED request back to PENDING, and its row is there. */
  ghost predicate LosesCompletion(ss: seq<State>, id: RequestId) {
    && |ss| >= 2
    && var s, s' := ss[|ss| - 2], ss[|ss| - 1];
       && id in s.table && s.table[id].status == COMPLETED
       && id in s'.table && s'.table[id].status == PENDING
       && HasAnchor(s'.anchors, id)
  }

  /** COMPLETED is not terminal: a second worker that took the request after the timeout can fail later. */
  lemma CompletedIsNotTerminal(c: Config, r: Request, tx: Transaction)
    requires Injective(c.hash) && !c.useQueueBatches && r.status == PENDING
    ensures exists ss :: Run(c, ss) && LosesCompletion(ss, r.id)
  {
    var ss := BothHold(c, r);
    ss := OneAnchors(c, r, tx, ss);
    ss := FailingLoses(c, r, ss, 1, AFTER_TIMEOUT);
  }

  /** Nor is it with a single worker: the exception may come after the tables are written, from the summary. */
  lemma OneWorkerSuffices(c: Config, r: Request, tx: Transaction)
    requires Injective(c.hash) && !c.useQueueBatches && r.status == PENDING
    ensures exists ss :: Run(c, ss) && LosesCompletion(ss, r.id) && OnlyWorker(ss, 0)
  {
    var ss := OneHolds(c, r);
    ss := OneAnchors(c, r, tx, ss);
    ss := FailingLoses(c, r, ss, 0, 0);
    WorkersOnlyJoin(c, ss, |ss| - 1);
  }

  ghost predicate OnlyWorker(ss: seq<State>, w: WorkerId) {
    forall i | 0 <= i < |ss| :: ss[i].workers.Keys <= {w}
  }

  lemma CompletedHasRow(c: Config, ss: seq<State>, id: RequestId)
    requires Injective(c.hash) && Run(c, ss) && id in Final(ss).table && Final(ss).table[id].status == COMPLETED
    ensures HasAnchor(Final(ss).anchors, id)
  {
    RunKeepsInv(c, ss, |ss| - 1);
  }

  lemma FailingLoses(c: Config, r: Request, before: seq<State>, w: WorkerId, at: int) returns (ss: seq<State>)
    requires Injective(c.hash) && !c.useQueueBatches && Run(c, before)
    requires !WorkerOf(Final(before), w).Idle? && WorkerOf(Final(before), w).requests == [In(r, PROCESSING, at)]
    requires r.id in Final(before).table && Final(before).table[r.id].status == COMPLETED
    ensures Run(c, ss) && LosesCompletion(ss, r.id)
    ensures Final(ss).workers.Keys == Final(before).workers.Keys
  {
    var s := Final(before);
    CompletedHasRow(c, before, r.id);
    assert WorkerOf(s, w).requests[0] in WorkerOf(s, w).requests && Ids(WorkerOf(s, w).requests) == {r.id};
    FailStep(c, s, w, AFTER_TIMEOUT);
    ss := Extend(c, before, AfterFailure(c, s, w, WorkerOf(s, w), AFTER_TIMEOUT));
  }

  lemma WorkerJoins(c: Config, s: State, s': State)
    requires Next(c, s, s')
    ensures s.workers.Keys <= s'.workers.Keys
  {
  }

  /** A worker that has taken part stays on record. */
  lemma {:induction false} WorkersOnlyJoin(c: Config, ss: seq<State>, j: nat)
    requires Run(c, ss) && j < |ss|
    ensures forall i | 0 <= i <= j :: ss[i].workers.Keys <= ss[j].workers.Keys
  {
    if j > 0 {
      WorkersOnlyJoin(c, ss, j - 1);
      assert StepTo(c, ss, j);
      WorkerJoins(c, ss[j - 1], ss[j]);
    }
  }
}
