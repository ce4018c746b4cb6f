/** The transactions of the service, as the protocol sees them: each takes effect as one step, at its commit. */
module CommittedSteps {
  import opened Requests
  import T = SnapshotTransactions
  import P = AnchorProtocol

  /** The protocol state that shows the tables of `t`. */
  ghost predicate Shows(p: P.State, t: T.State) {
    p.table == t.table && p.anchors == t.anchors
  }

  /**
   * A worker's persist, whatever ran and however often it was retried since it began, is the protocol's atomic step.
   */
  lemma CommitIsPersist(p: P.State, p': P.State, w: P.WorkerId, ts: seq<T.State>, i: nat, x: T.TxId)
    requires T.Run(ts) && i + 1 < |ts| && T.Commit(ts[i], ts[i + 1], x) && P.WorkerOf(p, w).Stored?
    requires var worker := P.WorkerOf(p, w);
             && ts[i].open[x].op == T.PersistAnchorResult(worker.anchors, Ids(worker.requests))
             && p' == p.(table := ts[i + 1].table, anchors := ts[i + 1].anchors,
                         workers := p.workers[w := P.Finished(worker.requests, worker.delivery)])
    requires Shows(p, ts[i])
    ensures P.Persist(p, p', w)
  {
    T.PersistIsAtomic(ts, i, x);
    assert p' == P.AfterPersist(p, w, P.WorkerOf(p, w), ts[i].open[x].now);
  }

  /** The other three transactions only touch what the protocol's scheduling step may touch at that moment. */
  lemma CommitIsSchedule(p: P.State, p': P.State, ts: seq<T.State>, i: nat, x: T.TxId)
    requires T.Run(ts) && i + 1 < |ts| && T.Commit(ts[i], ts[i + 1], x) && !ts[i].open[x].op.PersistAnchorResult?
    requires Shows(p, ts[i]) && p' == p.(table := ts[i + 1].table, anchors := ts[i + 1].anchors)
    ensures P.Schedule(p, p')
  {
    T.NoLostUpdate(ts, i, x);
    T.OnlyPersistsInsert(ts, i, x);
    var tx := ts[i].open[x];
    var target := T.Target(tx.op).status;
    assert P.Schedulable(p.table, tx.locked.value, target, tx.now);
    assert T.Target(tx.op) == StatusOnly(target);
  }
}
