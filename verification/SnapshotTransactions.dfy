/**
 * The repeatable-read transactions of the service, interleaved. A transaction reads one snapshot. Its UPDATE locks the
 * rows it selected there, and fails with 40001 if one was changed by a commit since the snapshot; its INSERT skips rows
 * that conflict with the snapshot, and fails with 40001 if one conflicts with a row committed since. After a failure
 * the whole transaction starts again. Section 13.2.2 of the PostgreSQL documentation.
 */
module SnapshotTransactions {
  import opened Wrappers
  import opened Requests
  import opened ReadySelection
  import opened Anchors
  import opened Witness

  type TxId = nat

  datatype Operation =
    | FindAndMarkReady(maxStreams: nat, minStreams: nat, maxAnchoringDelay: int)
    | FindAndMarkAsProcessing
    | UpdateExpiringReady(readyRetryInterval: int)
    | PersistAnchorResult(rows: seq<FreshAnchor>, accepted: set<RequestId>)

  /**
   * `start` counts the commits the snapshot includes, and `anchored` are the anchor rows it shows; `inserted` is set by
   * the INSERT and `locked` by the UPDATE.
   */
  datatype Tx = Tx(
    op: Operation,
    now: int,
    snapshot: Table,
    anchored: seq<FreshAnchor>,
    start: nat,
    inserted: Option<seq<FreshAnchor>>,
    locked: Option<set<RequestId>>)

  /** `log[k]` holds the requests that commit number `k` changed or inserted. */
  datatype State = State(table: Table, anchors: seq<FreshAnchor>, log: seq<set<RequestId>>, open: map<TxId, Tx>)

  // ----- What a transaction selects and writes -----

  /** The condition on a row that the transaction's query selects on. */
  predicate Qualifies(op: Operation, row: Request, now: int) {
    match op
    case FindAndMarkReady(_, _, _) => Anchorable(row, now)
    case FindAndMarkAsProcessing => row.status == READY
    case UpdateExpiringReady(_) => row.status == READY
    case PersistAnchorResult(_, _) => true
  }

  ghost predicate Selects(tx: Tx, ids: set<RequestId>) {
    match tx.op
    case FindAndMarkReady(maxStreams, minStreams, delay) =>
      exists batch :: IsReadyBatch(tx.snapshot, tx.now, maxStreams, minStreams, tx.now - delay, batch)
                      && ids == AnchorableInStreams(tx.snapshot, tx.now, batch)
    case FindAndMarkAsProcessing => ids == WithStatus(tx.snapshot, READY)
    case UpdateExpiringReady(interval) =>
      var ready := WithStatus(tx.snapshot, READY);
      ids == if exists id | id in ready :: tx.snapshot[id].updatedAt <= tx.now - interval then ready else {}
    case PersistAnchorResult(_, accepted) => ids == accepted
  }

  function Target(op: Operation): Fields {
    match op
    case FindAndMarkReady(_, _, _) => StatusOnly(READY)
    case FindAndMarkAsProcessing => StatusOnly(PROCESSING)
    case UpdateExpiringReady(_) => StatusOnly(READY)
    case PersistAnchorResult(_, _) => Completed()
  }

  function RowIds(rows: seq<FreshAnchor>): set<RequestId> {
    set a | a in rows :: a.requestId
  }

  /** What INSERT ... ON CONFLICT DO NOTHING adds to the rows it sees. */
  function NewRows(seen: seq<FreshAnchor>, rows: seq<FreshAnchor>): seq<FreshAnchor> {
    if rows == [] then []
    else
      var n := |rows| - 1;
      var front := NewRows(seen, rows[..n]);
      if HasAnchor(seen + front, rows[n].requestId) then front else front + [rows[n]]
  }

  // ----- Steps -----

  predicate ChangedSince(log: seq<set<RequestId>>, start: nat, ids: set<RequestId>) {
    exists k | start <= k < |log| :: log[k] * ids != {}
  }

  predicate LockedByOther(s: State, x: TxId, ids: set<RequestId>) {
    exists y | y in s.open && y != x :: s.open[y].locked.Some? && s.open[y].locked.value * ids != {}
  }

  /** The conflict of an INSERT with a row that was committed since the snapshot. */
  predicate AnchoredSince(s: State, tx: Tx, ids: set<RequestId>) {
    exists id | id in ids :: HasAnchor(s.anchors, id) && !HasAnchor(tx.anchored, id)
  }

  predicate InsertedByOther(s: State, x: TxId, ids: set<RequestId>) {
    exists y | y in s.open && y != x :: s.open[y].inserted.Some? && RowIds(s.open[y].inserted.value) * ids != {}
  }

  /** What is persisted was read before, so the rows are there. */
  predicate Known(op: Operation, t: Table) {
    op.PersistAnchorResult? ==> op.accepted <= t.Keys
  }

  function Started(s: State, op: Operation, now: int): Tx {
    Tx(op, now, s.table, s.anchors, |s.log|, None, None)
  }

  ghost predicate Begin(s: State, s': State, x: TxId) {
    && x !in s.open && x in s'.open
    && Known(s'.open[x].op, s.table)
    && s' == s.(open := s.open[x := Started(s, s'.open[x].op, s'.open[x].now)])
  }

  /** The INSERT of a persist: nobody holds a conflicting row, and none was committed since the snapshot. */
  ghost predicate Insert(s: State, s': State, x: TxId) {
    && x in s.open && s.open[x].op.PersistAnchorResult? && s.open[x].inserted.None? && s.open[x].locked.None?
    && var tx := s.open[x];
       && !InsertedByOther(s, x, RowIds(tx.op.rows))
       && !AnchoredSince(s, tx, RowIds(tx.op.rows))
       && s' == s.(open := s.open[x := tx.(inserted := Some(NewRows(tx.anchored, tx.op.rows)))])
  }

  predicate ReadyToWrite(tx: Tx) {
    tx.locked.None? && (tx.op.PersistAnchorResult? ==> tx.inserted.Some?)
  }

  /** The UPDATE gets its row locks: nobody else holds one, and no row changed since the snapshot. */
  ghost predicate Write(s: State, s': State, x: TxId) {
    && x in s.open && ReadyToWrite(s.open[x]) && x in s'.open && s'.open[x].locked.Some?
    && var ids := s'.open[x].locked.value;
       && Selects(s.open[x], ids)
       && !LockedByOther(s, x, ids)
       && !ChangedSince(s.log, s.open[x].start, ids)
       && s' == s.(open := s.open[x := s.open[x].(locked := Some(ids))])
  }

  /** 40001: the UPDATE meets a row changed since the snapshot, or the INSERT one committed since. */
  ghost predicate SerializationFailure(s: State, tx: Tx) {
    || (ReadyToWrite(tx) && exists ids :: Selects(tx, ids) && ChangedSince(s.log, tx.start, ids))
    || (tx.op.PersistAnchorResult? && tx.inserted.None? && tx.locked.None? && AnchoredSince(s, tx, RowIds(tx.op.rows)))
  }

  /** After a serialization failure the operation is called again. */
  ghost predicate Retry(s: State, s': State, x: TxId) {
    && x in s.open && x in s'.open
    && SerializationFailure(s, s.open[x])
    && s' == s.(open := s.open[x := Started(s, s.open[x].op, s'.open[x].now)])
  }

  ghost predicate Commit(s: State, s': State, x: TxId) {
    && x in s.open && s.open[x].locked.Some?
    && var tx := s.open[x];
       && s'.table == UpdateRequests(s.table, Target(tx.op), tx.locked.value, tx.now)
       && s'.anchors == s.anchors + tx.inserted.GetOr([])
       && s'.log == s.log + [tx.locked.value]
       && s'.open == s.open - {x}
  }

  ghost predicate Rollback(s: State, s': State, x: TxId) {
    x in s.open && s' == s.(open := s.open - {x})
  }

  /** Any other statement, committed by itself: an insert, or an update of rows that nobody has locked. */
  ghost predicate Statement(s: State, s': State, ids: set<RequestId>) {
    && Preserves(s.table, s'.table)
    && (forall id | id in s'.table && id !in ids :: id in s.table && s'.table[id] == s.table[id])
    && (forall y | y in s.open && s.open[y].locked.Some? :: s.open[y].locked.value !! ids)
    && s'.anchors == s.anchors
    && s'.log == s.log + [ids]
    && s'.open == s.open
  }

  ghost predicate Next(s: State, s': State) {
    || (exists x :: Begin(s, s', x))
    || (exists x :: Insert(s, s', x))
    || (exists x :: Write(s, s', x))
    || (exists x :: Retry(s, s', x))
    || (exists x :: Commit(s, s', x))
    || (exists x :: Rollback(s, s', x))
    || (exists ids :: Statement(s, s', ids))
  }

  ghost predicate Run(ss: seq<State>) {
    && ss != []
    && ss[0].open == map[] && OnePerRequest(ss[0].anchors)
    && forall i | 0 < i < |ss| :: StepTo(ss, i)
  }

  ghost predicate StepTo(ss: seq<State>, i: int)
    requires 0 < i < |ss|
  {
    Next(ss[i - 1], ss[i])
  }

  // ----- Invariant -----

  /** A row that no commit since the snapshot touched is as the snapshot shows it. */
  ghost predicate SnapshotFaithful(s: State, tx: Tx) {
    && tx.start <= |s.log|
    && tx.snapshot.Keys <= s.table.Keys
    && Known(tx.op, tx.snapshot)
    && forall id | id in tx.snapshot && !ChangedSince(s.log, tx.start, {id}) :: s.table[id] == tx.snapshot[id]
  }

  /** The rows a transaction holds were selected from its snapshot and have not changed since. */
  ghost predicate LocksHold(s: State, tx: Tx) {
    tx.locked.Some? ==> Selects(tx, tx.locked.value) && !ChangedSince(s.log, tx.start, tx.locked.value)
  }

  ghost predicate RowsInv(s: State) {
    && (forall x | x in s.open :: SnapshotFaithful(s, s.open[x]) && LocksHold(s, s.open[x]))
    && (forall x, y | x in s.open && y in s.open && x != y && s.open[x].locked.Some? && s.open[y].locked.Some? ::
          s.open[x].locked.value !! s.open[y].locked.value)
  }

  /** Where a transaction has inserted, the anchor table still looks to its rows as it did in the snapshot. */
  ghost predicate InsertHolds(anchors: seq<FreshAnchor>, tx: Tx) {
    && tx.anchored <= anchors
    && (tx.op.PersistAnchorResult? && tx.locked.Some? ==> tx.inserted.Some?)
    && (tx.inserted.Some? ==>
          && tx.op.PersistAnchorResult?
          && tx.inserted.value == NewRows(tx.anchored, tx.op.rows)
          && forall id | id in RowIds(tx.op.rows) :: HasAnchor(anchors, id) <==> HasAnchor(tx.anchored, id))
  }

  ghost predicate AnchorsInv(s: State) {
    && OnePerRequest(s.anchors)
    && (forall x | x in s.open :: InsertHolds(s.anchors, s.open[x]))
    && (forall x, y | x in s.open && y in s.open && x != y && s.open[x].inserted.Some? && s.open[y].inserted.Some? ::
          RowIds(s.open[x].inserted.value) !! RowIds(s.open[y].inserted.value))
  }

  ghost predicate Inv(s: State) {
    RowsInv(s) && AnchorsInv(s)
  }

  lemma SelectedQualify(tx: Tx, ids: set<RequestId>)
    requires Selects(tx, ids) && Known(tx.op, tx.snapshot)
    ensures ids <= tx.snapshot.Keys
    ensures forall id | id in ids :: Qualifies(tx.op, tx.snapshot[id], tx.now)
  {
  }

  lemma UntouchedBySubset(log: seq<set<RequestId>>, start: nat, ids: set<RequestId>, id: RequestId)
    requires !ChangedSince(log, start, ids) && id in ids
    ensures !ChangedSince(log, start, {id})
  {
  }

  lemma DisjointFrom<T>(a: set<T>, b: set<T>)
    requires a * b == {}
    ensures a !! b
  {
    forall x | x in a
      ensures x !in b
    {
      assert x !in a * b;
    }
  }

  /** One more commit, of `ids`, with everything else as before. */
  lemma LogGrows(log: seq<set<RequestId>>, ids: set<RequestId>, start: nat, rows: set<RequestId>)
    requires start <= |log|
    ensures ChangedSince(log + [ids], start, rows) <==> ChangedSince(log, start, rows) || ids * rows != {}
  {
    var longer := log + [ids];
    if ChangedSince(log, start, rows) {
      var k :| start <= k < |log| && log[k] * rows != {};
      assert longer[k] * rows != {};
    }
    if ids * rows != {} {
      assert longer[|log|] * rows != {};
    }
  }

  /** A commit of `ids` by someone else keeps what is known about an open transaction. */
  lemma CommitByOther(s: State, s': State, ids: set<RequestId>, tx: Tx)
    requires SnapshotFaithful(s, tx) && LocksHold(s, tx)
    requires tx.locked.Some? ==> tx.locked.value !! ids
    requires s'.log == s.log + [ids] && s.table.Keys <= s'.table.Keys
    requires forall id | id in s.table && id !in ids :: s'.table[id] == s.table[id]
    ensures SnapshotFaithful(s', tx) && LocksHold(s', tx)
  {
    forall id | id in tx.snapshot && !ChangedSince(s'.log, tx.start, {id})
      ensures s'.table[id] == tx.snapshot[id]
    {
      LogGrows(s.log, ids, tx.start, {id});
      assert id in ids ==> id in ids * {id};
    }
    if tx.locked.Some? {
      LogGrows(s.log, ids, tx.start, tx.locked.value);
    }
  }

  lemma StartedFaithful(s: State, op: Operation, now: int)
    requires Known(op, s.table)
    ensures SnapshotFaithful(s, Started(s, op, now)) && LocksHold(s, Started(s, op, now))
  {
  }

  lemma CommitKeepsRows(s: State, s': State, x: TxId)
    requires RowsInv(s) && Commit(s, s', x)
    ensures RowsInv(s')
  {
    forall y | y in s'.open
      ensures SnapshotFaithful(s', s'.open[y]) && LocksHold(s', s'.open[y])
    {
      CommitByOther(s, s', s.open[x].locked.value, s.open[y]);
    }
  }

  lemma StatementKeepsRows(s: State, s': State, ids: set<RequestId>)
    requires RowsInv(s) && Statement(s, s', ids)
    ensures RowsInv(s')
  {
    forall y | y in s'.open
      ensures SnapshotFaithful(s', s'.open[y]) && LocksHold(s', s'.open[y])
    {
      CommitByOther(s, s', ids, s.open[y]);
    }
  }

  lemma WriteKeepsRows(s: State, s': State, x: TxId)
    requires RowsInv(s) && Write(s, s', x)
    ensures RowsInv(s')
  {
    var ids := s'.open[x].locked.value;
    forall y | y in s.open && y != x && s.open[y].locked.Some?
      ensures s.open[y].locked.value !! ids
    {
      DisjointFrom(s.open[y].locked.value, ids);
    }
    forall y | y in s'.open
      ensures SnapshotFaithful(s', s'.open[y]) && LocksHold(s', s'.open[y])
    {
      assert SnapshotFaithful(s, s.open[y]) && LocksHold(s, s.open[y]);
    }
  }

  /** A transaction starts, or starts again; no other one is concerned. */
  lemma StartKeepsInv(s: State, s': State, x: TxId, op: Operation, now: int)
    requires Inv(s) && Known(op, s.table)
    requires s' == s.(open := s.open[x := Started(s, op, now)])
    ensures Inv(s')
  {
    StartedFaithful(s, op, now);
    forall y | y in s'.open
      ensures SnapshotFaithful(s', s'.open[y]) && LocksHold(s', s'.open[y])
    {
      if y != x {
        assert SnapshotFaithful(s, s.open[y]) && LocksHold(s, s.open[y]);
      }
    }
  }

  // ----- Inserted anchor rows -----

  lemma HasAnchorInConcat(a: seq<FreshAnchor>, b: seq<FreshAnchor>, id: RequestId)
    ensures HasAnchor(a + b, id) <==> HasAnchor(a, id) || HasAnchor(b, id)
  {
    if HasAnchor(a, id) {
      var i :| 0 <= i < |a| && a[i].requestId == id;
      assert (a + b)[i].requestId == id;
    }
    if HasAnchor(b, id) {
      var i :| 0 <= i < |b| && b[i].requestId == id;
      assert (a + b)[|a| + i].requestId == id;
    }
  }

  lemma HasAnchorIsRowId(rows: seq<FreshAnchor>, id: RequestId)
    ensures HasAnchor(rows, id) <==> id in RowIds(rows)
  {
    if id in RowIds(rows) {
      var a :| a in rows && a.requestId == id;
    }
  }

  lemma {:induction false} InsertsNewRows(seen: seq<FreshAnchor>, rows: seq<FreshAnchor>)
    ensures InsertAnchors(seen, rows) == seen + NewRows(seen, rows)
  {
    if rows != [] {
      InsertsNewRows(seen, rows[..|rows| - 1]);
    }
  }

  /** Only whether the requests have rows matters to an insert. */
  lemma {:induction false} SameNewRows(a: seq<FreshAnchor>, b: seq<FreshAnchor>, rows: seq<FreshAnchor>)
    requires forall id | id in RowIds(rows) :: HasAnchor(a, id) <==> HasAnchor(b, id)
    ensures NewRows(a, rows) == NewRows(b, rows)
  {
    if rows != [] {
      var n := |rows| - 1;
      assert RowIds(rows[..n]) <= RowIds(rows) && rows[n] in rows;
      SameNewRows(a, b, rows[..n]);
      HasAnchorInConcat(a, NewRows(a, rows[..n]), rows[n].requestId);
      HasAnchorInConcat(b, NewRows(b, rows[..n]), rows[n].requestId);
    }
  }

  /** An insert adds a row for exactly the requests that had none. */
  lemma {:induction false} NewRowsIds(seen: seq<FreshAnchor>, rows: seq<FreshAnchor>, id: RequestId)
    ensures HasAnchor(NewRows(seen, rows), id) <==> id in RowIds(rows) && !HasAnchor(seen, id)
  {
    if rows != [] {
      var n := |rows| - 1;
      var front := NewRows(seen, rows[..n]);
      NewRowsIds(seen, rows[..n], id);
      NewRowsIds(seen, rows[..n], rows[n].requestId);
      HasAnchorInConcat(seen, front, rows[n].requestId);
      HasAnchorInConcat(front, [rows[n]], id);
      assert rows == rows[..n] + [rows[n]];
      assert id in RowIds(rows) <==> id in RowIds(rows[..n]) || id == rows[n].requestId;
      assert HasAnchor([rows[n]], id) <==> [rows[n]][0].requestId == id;
    }
  }

  /** Another transaction's rows do not concern one that has inserted its own. */
  lemma InsertStillHolds(s: State, x: TxId, y: TxId)
    requires AnchorsInv(s) && x in s.open && y in s.open && x != y
    ensures InsertHolds(s.anchors + s.open[x].inserted.GetOr([]), s.open[y])
  {
    var added, ty := s.open[x].inserted.GetOr([]), s.open[y];
    assert InsertHolds(s.anchors, s.open[x]) && InsertHolds(s.anchors, ty);
    if ty.inserted.Some? && s.open[x].inserted.Some? {
      forall id | id in RowIds(ty.op.rows)
        ensures HasAnchor(s.anchors + added, id) <==> HasAnchor(ty.anchored, id)
      {
        HasAnchorInConcat(s.anchors, added, id);
        NewRowsIds(ty.anchored, ty.op.rows, id);
        NewRowsIds(s.open[x].anchored, s.open[x].op.rows, id);
        HasAnchorIsRowId(added, id);
        HasAnchorIsRowId(ty.inserted.value, id);
      }
    }
  }

  /** At its commit a persist inserts what it would insert into the table as it is now. */
  lemma InsertedIsCurrent(s: State, x: TxId)
    requires AnchorsInv(s) && x in s.open && s.open[x].inserted.Some?
    ensures s.anchors + s.open[x].inserted.value == InsertAnchors(s.anchors, s.open[x].op.rows)
  {
    var tx := s.open[x];
    assert InsertHolds(s.anchors, tx);
    SameNewRows(s.anchors, tx.anchored, tx.op.rows);
    InsertsNewRows(s.anchors, tx.op.rows);
  }

  lemma CommitKeepsAnchors(s: State, s': State, x: TxId)
    requires AnchorsInv(s) && Commit(s, s', x)
    ensures AnchorsInv(s')
  {
    if s.open[x].inserted.Some? {
      InsertedIsCurrent(s, x);
      InsertAnchorsCorrect(s.anchors, s.open[x].op.rows);
    }
    forall y | y in s'.open
      ensures InsertHolds(s'.anchors, s'.open[y])
    {
      InsertStillHolds(s, x, y);
    }
  }

  lemma InsertKeepsAnchors(s: State, s': State, x: TxId)
    requires AnchorsInv(s) && Insert(s, s', x)
    ensures AnchorsInv(s')
  {
    var tx := s.open[x];
    var added := NewRows(tx.anchored, tx.op.rows);
    assert InsertHolds(s.anchors, tx);
    AnchorsStay(tx.anchored, s.anchors);
    assert InsertHolds(s.anchors, s'.open[x]);
    forall y | y in s.open && y != x && s.open[y].inserted.Some?
      ensures RowIds(s.open[y].inserted.value) !! RowIds(added)
    {
      DisjointFrom(RowIds(s.open[y].inserted.value), RowIds(tx.op.rows));
      forall id | id in RowIds(added)
        ensures id !in RowIds(s.open[y].inserted.value)
      {
        HasAnchorIsRowId(added, id);
        NewRowsIds(tx.anchored, tx.op.rows, id);
      }
    }
  }

  // ----- Every step keeps the invariant -----

  lemma RetryKeepsInv(s: State, s': State, x: TxId)
    requires Inv(s) && Retry(s, s', x)
    ensures Inv(s')
  {
    assert SnapshotFaithful(s, s.open[x]);
    StartKeepsInv(s, s', x, s.open[x].op, s'.open[x].now);
  }

  lemma NextKeepsInv(s: State, s': State)
    requires Inv(s) && Next(s, s')
    ensures Inv(s')
  {
    if x :| Begin(s, s', x) {
      StartKeepsInv(s, s', x, s'.open[x].op, s'.open[x].now);
    } else if x :| Insert(s, s', x) {
      InsertKeepsAnchors(s, s', x);
      InsertKeepsRows(s, s', x);
    } else if x :| Write(s, s', x) {
      WriteKeepsRows(s, s', x);
      WriteKeepsAnchors(s, s', x);
    } else if x :| Retry(s, s', x) {
      RetryKeepsInv(s, s', x);
    } else if x :| Commit(s, s', x) {
      CommitKeepsRows(s, s', x);
      CommitKeepsAnchors(s, s', x);
    } else if x :| Rollback(s, s', x) {
      RollbackKeepsInv(s, s', x);
    } else {
      var ids :| Statement(s, s', ids);
      StatementKeepsRows(s, s', ids);
    }
  }

  lemma InsertKeepsRows(s: State, s': State, x: TxId)
    requires RowsInv(s) && Insert(s, s', x)
    ensures RowsInv(s')
  {
    forall y | y in s'.open
      ensures SnapshotFaithful(s', s'.open[y]) && LocksHold(s', s'.open[y])
    {
      assert SnapshotFaithful(s, s.open[y]) && LocksHold(s, s.open[y]);
    }
  }

  lemma WriteKeepsAnchors(s: State, s': State, x: TxId)
    requires AnchorsInv(s) && Write(s, s', x)
    ensures AnchorsInv(s')
  {
    forall y | y in s'.open
      ensures InsertHolds(s'.anchors, s'.open[y])
    {
      assert InsertHolds(s.anchors, s.open[y]);
    }
  }

  lemma RollbackKeepsInv(s: State, s': State, x: TxId)
    requires Inv(s) && Rollback(s, s', x)
    ensures Inv(s')
  {
    forall y | y in s'.open
      ensures SnapshotFaithful(s', s'.open[y]) && LocksHold(s', s'.open[y])
    {
      assert SnapshotFaithful(s, s.open[y]) && LocksHold(s, s.open[y]);
    }
  }

  lemma {:induction false} RunKeepsInv(ss: seq<State>, i: nat)
    requires Run(ss) && i < |ss|
    ensures Inv(ss[i])
  {
    if i == 0 {
      NothingOpen(ss[0]);
    } else {
      RunKeepsInv(ss, i - 1);
      StepKeepsInv(ss, i);
    }
  }

  lemma NothingOpen(s: State)
    requires s.open == map[] && OnePerRequest(s.anchors)
    ensures Inv(s)
  {
  }

  lemma StepKeepsInv(ss: seq<State>, i: nat)
    requires Run(ss) && 0 < i < |ss| && Inv(ss[i - 1])
    ensures Inv(ss[i])
  {
    assert StepTo(ss, i);
    NextKeepsInv(ss[i - 1], ss[i]);
  }

  // ----- No lost update -----

  /**
   * Just before a commit every row it changes still satisfies the condition the transaction selected on,
   * is exactly as the transaction read it, and was touched by no commit in between; and the UPDATE counts
   * as many rows as were selected.
   */
  lemma NoLostUpdate(ss: seq<State>, i: nat, x: TxId)
    requires Run(ss) && i + 1 < |ss| && Commit(ss[i], ss[i + 1], x)
    ensures var s, tx := ss[i], ss[i].open[x];
            var ids := tx.locked.value;
            && ids <= s.table.Keys && |ids * s.table.Keys| == |ids|
            && (forall id | id in ids :: id in tx.snapshot && s.table[id] == tx.snapshot[id])
            && (forall id | id in ids :: Qualifies(tx.op, s.table[id], tx.now))
            && (forall k | tx.start <= k < |s.log| :: s.log[k] !! ids)
            && (forall id | id in s.table && id !in ids :: ss[i + 1].table[id] == s.table[id])
  {
    RunKeepsInv(ss, i);
    var s, tx := ss[i], ss[i].open[x];
    var ids := tx.locked.value;
    SelectedQualify(tx, ids);
    forall id | id in ids
      ensures s.table[id] == tx.snapshot[id]
    {
      UntouchedBySubset(s.log, tx.start, ids, id);
    }
    assert ids * s.table.Keys == ids;
    forall k | tx.start <= k < |s.log|
      ensures s.log[k] !! ids
    {
      DisjointFrom(s.log[k], ids);
    }
  }

  /** The status a row must have had, and the one it gets, by operation. */
  predicate IsCommitted(op: Operation, r: Request, s: Request, now: int) {
    && SameIdentity(r, s) && s.updatedAt == now
    && match op
       case FindAndMarkReady(_, _, _) =>
         && (r.status == PENDING || (r.status == PROCESSING && now - r.updatedAt > 10_800_000))
         && s.status == READY && s.message == r.message && s.pinned == r.pinned
       case FindAndMarkAsProcessing =>
         r.status == READY && s.status == PROCESSING && s.message == r.message && s.pinned == r.pinned
       case UpdateExpiringReady(_) =>
         r.status == READY && s.status == READY && s.message == r.message && s.pinned == r.pinned
       case PersistAnchorResult(_, _) =>
         s.status == COMPLETED && s.message == Text("CID successfully anchored.") && s.pinned
  }

  /** Nothing the query selects is left out. */
  ghost predicate TakesAll(tx: Tx)
    requires tx.locked.Some?
  {
    match tx.op
    case FindAndMarkReady(_, _, _) =>
      forall id, other | id in tx.locked.value && other in tx.snapshot && id in tx.snapshot
                         && tx.snapshot[other].streamId == tx.snapshot[id].streamId
                         && !StaysOut(tx.snapshot[other], tx.now) :: other in tx.locked.value
    case FindAndMarkAsProcessing =>
      forall id | id in tx.snapshot && tx.snapshot[id].status == READY :: id in tx.locked.value
    case UpdateExpiringReady(interval) =>
      (exists id | id in tx.snapshot ::
         tx.snapshot[id].status == READY && tx.snapshot[id].updatedAt <= tx.now - interval) ==>
        forall id | id in tx.snapshot && tx.snapshot[id].status == READY :: id in tx.locked.value
    case PersistAnchorResult(_, accepted) =>
      forall id | id in accepted :: id in tx.locked.value
  }

  lemma SelectedAll(tx: Tx)
    requires tx.locked.Some? && Selects(tx, tx.locked.value)
    ensures TakesAll(tx)
  {
    if tx.op.FindAndMarkReady? {
      forall id | id in tx.snapshot
        ensures Anchorable(tx.snapshot[id], tx.now) <==> !StaysOut(tx.snapshot[id], tx.now)
      {
        AnchorableIff(tx.snapshot[id], tx.now);
      }
    }
    if tx.op.UpdateExpiringReady? {
      forall id | id in tx.snapshot
        ensures tx.snapshot[id].status == READY <==> id in WithStatus(tx.snapshot, READY)
      {
      }
    }
  }

  /** What a commit does to the table as it is at that moment, whatever the snapshot was. */
  lemma CommitChangesExactly(ss: seq<State>, i: nat, x: TxId)
    requires Run(ss) && i + 1 < |ss| && Commit(ss[i], ss[i + 1], x)
    ensures var t, t', tx := ss[i].table, ss[i + 1].table, ss[i].open[x];
            && OnlyChanges(t, t', tx.locked.value)
            && (forall id | id in tx.locked.value :: id in t && IsCommitted(tx.op, t[id], t'[id], tx.now))
            && TakesAll(tx)
  {
    NoLostUpdate(ss, i, x);
    var tx := ss[i].open[x];
    RunKeepsInv(ss, i);
    assert LocksHold(ss[i], tx);
    SelectedAll(tx);
    UpdatesByColumn(ss[i].table, Target(tx.op), tx.locked.value, tx.now, Digest(0));
    forall id | id in tx.locked.value
      ensures IsCommitted(tx.op, ss[i].table[id], ss[i + 1].table[id], tx.now)
    {
      AnchorableIff(ss[i].table[id], tx.now);
    }
  }

  /** Of two overlapping transactions that both commit, no row is written by both. */
  lemma {:induction false} OverlappingWritesDisjoint(ss: seq<State>, i: nat, j: nat, x: TxId, y: TxId)
    requires Run(ss) && i < j && j + 1 < |ss|
    requires Commit(ss[i], ss[i + 1], x) && Commit(ss[j], ss[j + 1], y)
    requires ss[j].open[y].start <= |ss[i].log|
    ensures ss[i].open[x].locked.value !! ss[j].open[y].locked.value
  {
    NoLostUpdate(ss, j, y);
    CommitIsLogged(ss, i, j, x);
  }

  lemma CommitIsLogged(ss: seq<State>, i: nat, j: nat, x: TxId)
    requires Run(ss) && i < j < |ss| && Commit(ss[i], ss[i + 1], x)
    ensures |ss[i].log| < |ss[j].log| && ss[j].log[|ss[i].log|] == ss[i].open[x].locked.value
  {
    LogIsPrefix(ss, i + 1, j);
    assert ss[i + 1].log[|ss[i].log|] == ss[i].open[x].locked.value;
  }

  lemma {:induction false} LogIsPrefix(ss: seq<State>, i: nat, j: nat)
    requires Run(ss) && i <= j < |ss|
    ensures ss[i].log <= ss[j].log
    decreases j
  {
    if i < j {
      LogIsPrefix(ss, i, j - 1);
      assert StepTo(ss, j);
    }
  }

  // ----- Persisting a batch -----

  /** However many transactions ran and retried in between, a persist takes effect as one step at its commit. */
  lemma PersistIsAtomic(ss: seq<State>, i: nat, x: TxId)
    requires Run(ss) && i + 1 < |ss| && Commit(ss[i], ss[i + 1], x) && ss[i].open[x].op.PersistAnchorResult?
    ensures var s, s', tx := ss[i], ss[i + 1], ss[i].open[x];
            && s'.anchors == InsertAnchors(s.anchors, tx.op.rows)
            && s'.table == UpdateRequests(s.table, Completed(), tx.op.accepted, tx.now)
            && tx.op.accepted <= s.table.Keys
  {
    RunKeepsInv(ss, i);
    assert SnapshotFaithful(ss[i], ss[i].open[x]) && LocksHold(ss[i], ss[i].open[x]);
    InsertedIsCurrent(ss[i], x);
  }

  lemma OnlyPersistsInsert(ss: seq<State>, i: nat, x: TxId)
    requires Run(ss) && i + 1 < |ss| && Commit(ss[i], ss[i + 1], x) && !ss[i].open[x].op.PersistAnchorResult?
    ensures ss[i + 1].anchors == ss[i].anchors
  {
    RunKeepsInv(ss, i);
    assert InsertHolds(ss[i].anchors, ss[i].open[x]);
  }

  /**
   * After the commit each accepted request is COMPLETED with exactly one row, and rows that were there are unchanged.
   */
  lemma PersistedOnce(ss: seq<State>, i: nat, x: TxId, id: RequestId)
    requires Run(ss) && i + 1 < |ss| && Commit(ss[i], ss[i + 1], x) && ss[i].open[x].op.PersistAnchorResult?
    requires id in ss[i].open[x].op.accepted && id in RowIds(ss[i].open[x].op.rows)
    ensures var s' := ss[i + 1];
            && id in s'.table && s'.table[id].status == COMPLETED
            && ss[i].anchors <= s'.anchors
            && exists k: nat :: IsOnlyRow(s'.anchors, id, k)
  {
    PersistIsAtomic(ss, i, x);
    RunKeepsInv(ss, i);
    InsertedOnce(ss[i].anchors, ss[i].open[x].op.rows, id);
  }

  predicate IsOnlyRow(anchors: seq<FreshAnchor>, id: RequestId, k: nat) {
    && k < |anchors| && anchors[k].requestId == id
    && forall j | 0 <= j < |anchors| && anchors[j].requestId == id :: j == k
  }

  lemma InsertedOnce(anchors: seq<FreshAnchor>, rows: seq<FreshAnchor>, id: RequestId)
    requires OnePerRequest(anchors) && id in RowIds(rows)
    ensures anchors <= InsertAnchors(anchors, rows)
    ensures exists k: nat :: IsOnlyRow(InsertAnchors(anchors, rows), id, k)
  {
    InsertAnchorsCorrect(anchors, rows);
    var a :| a in rows && a.requestId == id;
    var after := InsertAnchors(anchors, rows);
    assert HasAnchor(after, a.requestId);
    var k: nat :| k < |after| && after[k].requestId == id;
    assert IsOnlyRow(after, id, k);
  }

  /** Of two overlapping persists that both commit, no request is accepted by both: the later one starts again. */
  lemma PersistsExclude(ss: seq<State>, i: nat, j: nat, x: TxId, y: TxId)
    requires Run(ss) && i < j && j + 1 < |ss|
    requires Commit(ss[i], ss[i + 1], x) && ss[i].open[x].op.PersistAnchorResult?
    requires Commit(ss[j], ss[j + 1], y) && ss[j].open[y].op.PersistAnchorResult?
    requires ss[j].open[y].start <= |ss[i].log|
    ensures ss[i].open[x].op.accepted !! ss[j].open[y].op.accepted
  {
    OverlappingWritesDisjoint(ss, i, j, x, y);
    RunKeepsInv(ss, i);
    RunKeepsInv(ss, j);
    assert LocksHold(ss[i], ss[i].open[x]) && LocksHold(ss[j], ss[j].open[y]);
  }
}
