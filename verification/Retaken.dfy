/** A run of the scheduler in which a request that waited READY for too long is taken twice at one moment. */
module Retaken {
  import opened Requests
  import opened ReadySelection
  import opened Scheduling

  function WithRow(s: State, row: Request): State {
    s.(table := map[row.id := row])
  }

  function Taken(row: Request): Request {
    row.(status := PROCESSING)
  }

  /** The scheduler marks the one request there is, if it is anchorable and past the deadline. */
  lemma MarkOne(c: Config, s: State, row: Request) returns (s': State)
    requires s.table == map[row.id := row] && Anchorable(row, s.now) && row.createdAt < s.now - c.maxAnchoringDelay
    ensures Next(c, s, s') && s'.now == s.now && s'.refreshes == s.refreshes
    ensures s'.table == map[row.id := row.(status := READY, updatedAt := s.now)]
  {
    var streams := {row.streamId};
    assert row.id in AnchorableIds(s.table, s.now) && StreamsToAnchor(s.table, s.now) == streams;
    assert OldestAt(s.table, s.now, row.streamId, row.createdAt);
    MinIsUnique(s.table, s.now, row.streamId, row.createdAt);
    assert IsReadyBatch(s.table, s.now, c.maxStreamLimit, c.minStreamLimit, s.now - c.maxAnchoringDelay, streams);
    s' := AfterMark(s, streams);
    assert Mark(c, s, s', c.maxStreamLimit);
  }

  /** A worker takes the one request there is. */
  lemma TakeOne(c: Config, s: State, row: Request)
    requires s.table == map[row.id := row] && row.status == READY
    ensures Next(c, s, WithRow(s, Taken(row)))
  {
    var ids := {row.id};
    assert StartProcessing(s.table, ids) == map[row.id := Taken(row)];
    assert ids <= WithStatus(s.table, READY) && OtherStatement(s, WithRow(s, Taken(row)));
  }

  /** The request has this status in state `i`, at this time. */
  ghost predicate IsAt(ss: seq<State>, i: nat, id: RequestId, status: RequestStatus, now: int) {
    i < |ss| && id in ss[i].table && ss[i].table[id].status == status && ss[i].now == now
  }

  /** Between states `i` and `i + 3` no time passes, and the request is taken, marked and taken again. */
  ghost predicate TakenTwice(ss: seq<State>, i: nat, id: RequestId) {
    && i < |ss|
    && IsAt(ss, i, id, READY, ss[i].now) && IsAt(ss, i + 1, id, PROCESSING, ss[i].now)
    && IsAt(ss, i + 2, id, READY, ss[i].now) && IsAt(ss, i + 3, id, PROCESSING, ss[i].now)
  }

  /** Three steps from a request that waited for too long. */
  lemma TakeMarkTake(c: Config, s: State, row: Request) returns (s1: State, s2: State, s3: State)
    requires s.table == map[row.id := row] && row.status == READY
    requires row.updatedAt < s.now - PROCESSING_TIMEOUT && row.createdAt < s.now - c.maxAnchoringDelay
    ensures Next(c, s, s1) && Next(c, s1, s2) && Next(c, s2, s3)
    ensures s1.now == s2.now == s3.now == s.now
    ensures exists marked: Request ::
              && s1.table == map[row.id := Taken(row)] && marked.status == READY
              && s2.table == map[row.id := marked] && s3.table == map[row.id := Taken(marked)]
  {
    s1 := WithRow(s, Taken(row));
    TakeOne(c, s, row);
    s2 := MarkOne(c, s1, Taken(row));
    var again := row.(updatedAt := s.now);
    s3 := WithRow(s2, Taken(again));
    TakeOne(c, s2, again);
  }

  lemma Extend(c: Config, ss: seq<State>, s: State) returns (more: seq<State>)
    requires Run(c, ss) && Next(c, ss[|ss| - 1], s)
    ensures Run(c, more) && more == ss + [s]
  {
    more := ss + [s];
    forall i | 0 < i < |more|
      ensures StepTo(c, more, i)
    {
      if i < |ss| {
        assert StepTo(c, ss, i);
      }
    }
  }

  /** The request arrives and is marked READY, and then the time of the processing timeout passes. */
  lemma WaitReady(c: Config, r: Request) returns (ss: seq<State>, row: Request)
    requires r.status == PENDING
    ensures Run(c, ss) && row.id == r.id && row.status == READY && row.createdAt == r.createdAt
    ensures var s := ss[|ss| - 1];
            && s.table == map[row.id := row] && row.updatedAt < s.now - PROCESSING_TIMEOUT
            && row.createdAt < s.now - c.maxAnchoringDelay
  {
    var start := r.createdAt + c.maxAnchoringDelay + 1;
    var s0 := State(map[], start, {}, start, []);
    assert Run(c, [s0]);
    var s1 := WithRow(s0, r);
    assert s1.table == Insert(s0.table, r) && OtherUpdate(s0.table, s1.table, start);
    ss := Extend(c, [s0], s1);
    var s2 := MarkOne(c, s1, r);
    ss := Extend(c, ss, s2);
    row := r.(status := READY, updatedAt := start);
    ss := Extend(c, ss, s2.(now := start + PROCESSING_TIMEOUT + 1));
  }

  lemma RetakenAtOnce(c: Config, r: Request)
    requires r.status == PENDING
    ensures exists ss, i: nat :: Run(c, ss) && TakenTwice(ss, i, r.id)
  {
    var before, row := WaitReady(c, r);
    var i := |before| - 1;
    var s1, s2, s3 := TakeMarkTake(c, before[i], row);
    var ss := Extend(c, before, s1);
    ss := Extend(c, ss, s2);
    ss := Extend(c, ss, s3);
    assert ss[i] == before[i] && ss[i + 1] == s1 && ss[i + 2] == s2 && ss[i + 3] == s3;
    assert TakenTwice(ss, i, r.id);
  }
}
