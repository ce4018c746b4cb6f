/** Runs of the scheduler beside the workers: one READY batch is outstanding at a time. */
module Scheduling {
  import opened Witness
  import opened Requests
  import opened ReadySelection

  /** `bundled` says that workers mark batches too, when they find nothing READY. */
  datatype Config = Config(
    maxStreamLimit: nat,
    minStreamLimit: nat,
    maxAnchoringDelay: int,
    readyRetryInterval: int,
    bundled: bool)

  /**
   * `batch` is the last marked batch, `touched` the time it was marked or last refreshed, and `refreshes`
   * the times of all refreshes so far.
   */
  datatype State = State(table: Table, now: int, batch: set<RequestId>, touched: int, refreshes: seq<int>)

  // ----- Steps -----

  ghost predicate Tick(s: State, s': State) {
    s.now <= s'.now && s' == s.(now := s'.now)
  }

  /** `findAndMarkReady`, run only when nothing is READY. */
  ghost predicate Mark(c: Config, s: State, s': State, maxStreams: nat) {
    && WithStatus(s.table, READY) == {}
    && exists streams ::
         && IsReadyBatch(s.table, s.now, maxStreams, c.minStreamLimit, s.now - c.maxAnchoringDelay, streams)
         && s' == AfterMark(s, streams)
  }

  ghost predicate Overdue(c: Config, s: State) {
    exists id | id in WithStatus(s.table, READY) :: s.table[id].updatedAt <= s.now - c.readyRetryInterval
  }

  /** `updateExpiringReadyRequests` when it finds an overdue request. */
  ghost predicate Refresh(c: Config, s: State, s': State) {
    && Overdue(c, s)
    && s' == s.(table := UpdateRequests(s.table, StatusOnly(READY), WithStatus(s.table, READY), s.now),
                touched := s.now,
                refreshes := s.refreshes + [s.now])
  }

  /** `emitAnchorEventIfReady`. */
  ghost predicate Emit(c: Config, s: State, s': State) {
    if WithStatus(s.table, READY) != {} then
      if Overdue(c, s) then Refresh(c, s, s') else s' == s
    else
      Mark(c, s, s', c.maxStreamLimit)
  }

  /** The first part of `anchorRequests`, which pulls in twice as many streams. */
  ghost predicate AnchorRequests(c: Config, s: State, s': State) {
    if WithStatus(s.table, READY) != {} then s' == s else Mark(c, s, s', 2 * c.maxStreamLimit)
  }

  /** The statements that move requests out of READY, or do not concern READY requests. */
  ghost predicate OtherUpdate(t: Table, t': Table, now: int) {
    || (exists ids :: ids <= WithStatus(t, READY) && t' == StartProcessing(t, ids))
    || (exists f: Fields, ids :: f.status != READY && t' == UpdateRequests(t, f, ids, now))
    || (exists r: Request :: r.id !in t && r.status == PENDING && t' == Insert(t, r))
    || (exists origin, streamId, newer :: MarkReplaced(t, t', origin, streamId, newer))
  }

  ghost predicate OtherStatement(s: State, s': State) {
    s' == s.(table := s'.table) && OtherUpdate(s.table, s'.table, s.now)
  }

  ghost predicate Next(c: Config, s: State, s': State) {
    || Tick(s, s')
    || Emit(c, s, s')
    || (c.bundled && AnchorRequests(c, s, s'))
    || OtherStatement(s, s')
  }

  ghost predicate Run(c: Config, ss: seq<State>) {
    && ss != []
    && ValidTable(ss[0].table) && WithStatus(ss[0].table, READY) == {} && ss[0].batch == {} && ss[0].refreshes == []
    && ss[0].touched <= ss[0].now
    && forall i | 0 < i < |ss| :: StepTo(c, ss, i)
  }

  ghost predicate StepTo(c: Config, ss: seq<State>, i: int)
    requires 0 < i < |ss|
  {
    Next(c, ss[i - 1], ss[i])
  }

  // ----- Invariant -----

  function StreamsOf(t: Table, ids: set<RequestId>): set<StreamId> {
    set id | id in ids && id in t :: t[id].streamId
  }

  function StreamBound(c: Config): nat {
    if c.bundled then 2 * c.maxStreamLimit else c.maxStreamLimit
  }

  ghost predicate Inv(c: Config, s: State) {
    && s.touched <= s.now
    && s.batch <= s.table.Keys
    && WithStatus(s.table, READY) <= s.batch
    && (c.maxStreamLimit != 0 ==> |StreamsOf(s.table, s.batch)| <= StreamBound(c))
    && (forall id | id in WithStatus(s.table, READY) :: s.touched <= s.table[id].updatedAt)
    && (s.refreshes != [] ==> s.refreshes[|s.refreshes| - 1] <= s.touched)
    && Spaced(s.refreshes, c.readyRetryInterval)
  }

  ghost predicate Spaced(times: seq<int>, interval: int) {
    forall i | 0 <= i < |times| - 1 :: interval <= times[i + 1] - times[i]
  }

  function AfterMark(s: State, streams: set<StreamId>): State {
    s.(table := MarkReady(s.table, s.now, streams, s.now),
       batch := AnchorableInStreams(s.table, s.now, streams),
       touched := s.now)
  }

  lemma BatchFits(t: Table, now: int, maxStreams: nat, minStreams: nat, deadline: int, streams: set<StreamId>)
    requires IsReadyBatch(t, now, maxStreams, minStreams, deadline, streams)
    ensures maxStreams > 0 ==> |streams| <= maxStreams
  {
  }

  lemma MarkKeepsInv(c: Config, s: State, s': State, maxStreams: nat)
    requires Inv(c, s) && Mark(c, s, s', maxStreams)
    requires c.maxStreamLimit != 0 ==> 0 < maxStreams <= StreamBound(c)
    ensures Inv(c, s')
  {
    var streams :| && IsReadyBatch(s.table, s.now, maxStreams, c.minStreamLimit, s.now - c.maxAnchoringDelay, streams)
                   && s' == AfterMark(s, streams);
    BatchFits(s.table, s.now, maxStreams, c.minStreamLimit, s.now - c.maxAnchoringDelay, streams);
    MarkedInv(c, s, streams);
  }

  lemma MarkedInv(c: Config, s: State, streams: set<StreamId>)
    requires Inv(c, s) && WithStatus(s.table, READY) == {}
    requires c.maxStreamLimit != 0 ==> |streams| <= StreamBound(c)
    ensures Inv(c, AfterMark(s, streams))
  {
    var s' := AfterMark(s, streams);
    MarkReadyExact(s.table, s.now, streams, s.now);
    MarkedStreams(s.table, s.now, streams);
    Subset(StreamsOf(s'.table, s'.batch), streams);
  }

  /** A marked batch is of the chosen streams, and is marked with the time. */
  lemma MarkedStreams(t: Table, now: int, streams: set<StreamId>)
    ensures var t', batch := MarkReady(t, now, streams, now), AnchorableInStreams(t, now, streams);
            && StreamsOf(t', batch) <= streams
            && forall id | id in batch :: id in t' && t'[id].updatedAt == now
  {
  }

  lemma RefreshKeepsInv(c: Config, s: State, s': State)
    requires Inv(c, s) && Refresh(c, s, s')
    ensures Inv(c, s')
    ensures c.readyRetryInterval <= s'.now - s.touched
  {
    assert StreamsOf(s'.table, s'.batch) == StreamsOf(s.table, s.batch);
    assert WithStatus(s'.table, READY) == WithStatus(s.table, READY);
    var id :| id in WithStatus(s.table, READY) && s.table[id].updatedAt <= s.now - c.readyRetryInterval;
    forall i | 0 <= i < |s'.refreshes| - 1
      ensures c.readyRetryInterval <= s'.refreshes[i + 1] - s'.refreshes[i]
    {
      assert s'.refreshes[i] == s.refreshes[i];
    }
  }

  /** Whatever does not put a request into READY, and keeps what is READY as it is, keeps the invariant. */
  lemma ShrinkKeepsInv(c: Config, s: State, s': State)
    requires Inv(c, s) && s' == s.(table := s'.table) && Preserves(s.table, s'.table)
    requires forall id | id in WithStatus(s'.table, READY) :: id in s.table && s'.table[id] == s.table[id]
    ensures Inv(c, s')
  {
    forall id | id in s.batch
      ensures s'.table[id].streamId == s.table[id].streamId
    {
      assert SameIdentity(s.table[id], s'.table[id]);
    }
    assert StreamsOf(s'.table, s'.batch) == StreamsOf(s.table, s.batch);
  }

  lemma OtherUpdateShrinks(t: Table, t': Table, now: int)
    requires OtherUpdate(t, t', now)
    ensures Preserves(t, t')
    ensures forall id | id in WithStatus(t', READY) :: id in t && t'[id] == t[id]
  {
    if ids :| ids <= WithStatus(t, READY) && t' == StartProcessing(t, ids) {
      UpdatesPreserve(t, StatusOnly(PROCESSING), ids, now, Digest(0));
    } else if r: Request :| r.id !in t && r.status == PENDING && t' == Insert(t, r) {
    } else if origin, streamId, newer :| MarkReplaced(t, t', origin, streamId, newer) {
      ReplacedShrinks(t, t', origin, streamId, newer);
    } else {
      var f: Fields, ids :| f.status != READY && t' == UpdateRequests(t, f, ids, now);
      UpdatesPreserve(t, f, ids, now, Digest(0));
    }
  }

  lemma ReplacedShrinks(t: Table, t': Table, origin: string, streamId: StreamId, newer: Cid)
    requires MarkReplaced(t, t', origin, streamId, newer)
    ensures Preserves(t, t')
    ensures forall id | id in WithStatus(t', READY) :: id in t && t'[id] == t[id]
  {
  }

  lemma OtherKeepsInv(c: Config, s: State, s': State)
    requires Inv(c, s) && OtherStatement(s, s')
    ensures Inv(c, s')
  {
    OtherUpdateShrinks(s.table, s'.table, s.now);
    ShrinkKeepsInv(c, s, s');
  }

  lemma NextKeepsInv(c: Config, s: State, s': State)
    requires Inv(c, s) && Next(c, s, s')
    ensures Inv(c, s')
  {
    if Tick(s, s') {
    } else if Emit(c, s, s') {
      if WithStatus(s.table, READY) == {} {
        MarkKeepsInv(c, s, s', c.maxStreamLimit);
      } else if Overdue(c, s) {
        RefreshKeepsInv(c, s, s');
      }
    } else if c.bundled && AnchorRequests(c, s, s') {
      if WithStatus(s.table, READY) == {} {
        MarkKeepsInv(c, s, s', 2 * c.maxStreamLimit);
      }
    } else {
      OtherKeepsInv(c, s, s');
    }
  }

  lemma {:induction false} RunKeepsInv(c: Config, ss: seq<State>, i: nat)
    requires Run(c, ss) && i < |ss|
    ensures Inv(c, ss[i])
  {
    if i > 0 {
      RunKeepsInv(c, ss, i - 1);
      assert StepTo(c, ss, i);
      NextKeepsInv(c, ss[i - 1], ss[i]);
    } else {
      assert StreamsOf(ss[0].table, {}) == {};
    }
  }

  /**
   * In every reachable state what is READY belongs to the last marked batch, and that batch spans at most
   * `maxStreamLimit` streams, or twice as many where workers mark batches too.
   */
  lemma OneBatchOutstanding(c: Config, ss: seq<State>, i: nat)
    requires Run(c, ss) && i < |ss|
    ensures WithStatus(ss[i].table, READY) <= ss[i].batch
    ensures c.maxStreamLimit != 0 ==> |StreamsOf(ss[i].table, WithStatus(ss[i].table, READY))| <= StreamBound(c)
  {
    RunKeepsInv(c, ss, i);
    Subset(StreamsOf(ss[i].table, WithStatus(ss[i].table, READY)), StreamsOf(ss[i].table, ss[i].batch));
  }

  /** Refreshes, and the mark before the first of them, are at least `readyRetryInterval` apart. */
  lemma RefreshesSpaced(c: Config, ss: seq<State>, i: nat)
    requires Run(c, ss) && i < |ss|
    ensures Spaced(ss[i].refreshes, c.readyRetryInterval)
    ensures i + 1 < |ss| && Refresh(c, ss[i], ss[i + 1]) ==> c.readyRetryInterval <= ss[i].now - ss[i].touched
  {
    RunKeepsInv(c, ss, i);
    if i + 1 < |ss| && Refresh(c, ss[i], ss[i + 1]) {
      RefreshKeepsInv(c, ss[i], ss[i + 1]);
    }
  }
}
