/** The request repository: the table as a mutable object, one method per operation. */
module RequestRepositories {
  import opened Wrappers
  import opened Witness
  import opened Sorting
  import opened Requests
  import opened ReadySelection

  /** `rows` lists the rows of `t` with the given ids, each once. */
  ghost predicate Lists(rows: seq<Request>, t: Table, ids: set<RequestId>) {
    && ids <= t.Keys
    && (forall r | r in rows :: r.id in ids && t[r.id] == r)
    && (forall id | id in ids :: t[id] in rows)
    && |rows| == |ids|
  }

  lemma ListedIds(rows: seq<Request>, t: Table, ids: set<RequestId>)
    requires Lists(rows, t, ids) && ValidTable(t)
    ensures Ids(rows) == ids
  {
  }

  lemma ListsOneMore(rows: seq<Request>, t: Table, ids: set<RequestId>, id: RequestId)
    requires Lists(rows, t, ids) && id in t && id !in ids && ValidTable(t)
    ensures Lists(rows + [t[id]], t, ids + {id})
  {
  }

  lemma SortedLists(rows: seq<Request>, t: Table, ids: set<RequestId>, key: Request -> int)
    requires Lists(rows, t, ids)
    ensures Lists(StableSort(rows, key), t, ids) && SortedBy(StableSort(rows, key), key)
  {
    StableSortCorrect(rows, key);
    var sorted := StableSort(rows, key);
    assert |multiset(sorted)| == |multiset(rows)|;
    assert forall r :: r in sorted <==> r in multiset(sorted);
    assert forall r :: r in rows <==> r in multiset(rows);
  }

  // ----- The columns the queries order by -----

  function CreatedAt(r: Request): int { r.createdAt }

  function UpdatedAt(r: Request): int { r.updatedAt }

  function NewestFirst(r: Request): int { -r.timestamp }

  datatype StreamAge = StreamAge(streamId: StreamId, minCreatedAt: int)

  ghost predicate TakenFromReady(t: Table, ids: set<RequestId>, limit: nat) {
    ids <= WithStatus(t, READY) && |ids| == Limited(limit, |WithStatus(t, READY)|)
  }

  function StreamSet(streams: seq<StreamAge>): set<StreamId> {
    set i | 0 <= i < |streams| :: streams[i].streamId
  }

  function StreamIds(streams: seq<StreamAge>): (ids: seq<StreamId>)
    ensures (set s | s in ids) == StreamSet(streams)
  {
    var ids := seq(|streams|, i requires 0 <= i < |streams| => streams[i].streamId);
    assert forall i | 0 <= i < |streams| :: ids[i] == streams[i].streamId && streams[i].streamId in ids;
    ids
  }

  /** Distinct streams with their ages, oldest first, and none left out is older than one listed. */
  ghost predicate OldestFirst(t: Table, now: int, streams: seq<StreamAge>) {
    && StreamSet(streams) <= StreamsToAnchor(t, now)
    && (forall i | 0 <= i < |streams| :: streams[i].minCreatedAt == MinCreatedAt(t, now, streams[i].streamId))
    && (forall i, j | 0 <= i < j < |streams| :: streams[i].streamId != streams[j].streamId)
    && (forall i, j | 0 <= i < j < |streams| :: streams[i].minCreatedAt <= streams[j].minCreatedAt)
    && (forall i, s | 0 <= i < |streams| && s in StreamsToAnchor(t, now) && s !in StreamSet(streams) ::
          streams[i].minCreatedAt <= MinCreatedAt(t, now, s))
  }

  method MinAge(ages: map<StreamId, int>) returns (oldest: StreamId)
    requires ages.Keys != {}
    ensures oldest in ages && forall s | s in ages :: ages[oldest] <= ages[s]
  {
    var first :| first in ages.Keys;
    oldest := first;
    var rest := ages.Keys - {first};
    while rest != {}
      invariant rest <= ages.Keys && oldest in ages
      invariant forall s | s in ages && s !in rest :: ages[oldest] <= ages[s]
      decreases rest
    {
      var s :| s in rest;
      if ages[s] < ages[oldest] {
        oldest := s;
      }
      rest := rest - {s};
    }
  }

  lemma AppendOldest(t: Table, now: int, streams: seq<StreamAge>, s: StreamId, age: int)
    requires OldestFirst(t, now, streams)
    requires s in StreamsToAnchor(t, now) && s !in StreamSet(streams) && age == MinCreatedAt(t, now, s)
    requires forall u | u in StreamsToAnchor(t, now) && u !in StreamSet(streams) :: age <= MinCreatedAt(t, now, u)
    ensures OldestFirst(t, now, streams + [StreamAge(s, age)])
    ensures StreamSet(streams + [StreamAge(s, age)]) == StreamSet(streams) + {s}
  {
    var longer := streams + [StreamAge(s, age)];
    StreamSetOneMore(streams, StreamAge(s, age));
    assert forall i | 0 <= i < |streams| :: longer[i] == streams[i] && streams[i].streamId in StreamSet(streams);
  }

  lemma StreamSetOneMore(streams: seq<StreamAge>, last: StreamAge)
    ensures StreamSet(streams + [last]) == StreamSet(streams) + {last.streamId}
  {
    var longer := streams + [last];
    assert longer[|streams|].streamId == last.streamId;
    forall u | u in StreamSet(streams)
      ensures u in StreamSet(longer)
    {
      var i :| 0 <= i < |streams| && streams[i].streamId == u;
      assert longer[i].streamId == u;
    }
  }

  lemma {:induction false} StreamSetSize(streams: seq<StreamAge>)
    requires forall i, j | 0 <= i < j < |streams| :: streams[i].streamId != streams[j].streamId
    ensures |StreamSet(streams)| == |streams|
  {
    if streams != [] {
      var front := streams[..|streams| - 1];
      StreamSetSize(front);
      var last := streams[|streams| - 1].streamId;
      assert StreamSet(streams) == StreamSet(front) + {last} by {
        assert forall i | 0 <= i < |front| :: front[i] == streams[i];
        forall s | s in StreamSet(streams)
          ensures s in StreamSet(front) + {last}
        {
          var i :| 0 <= i < |streams| && streams[i].streamId == s;
          assert i < |front| ==> front[i].streamId == s;
        }
      }
      assert last !in StreamSet(front);
    }
  }

  /** The query result, filtered by the two conditions of `findStreamsToAnchor`, is the specified batch. */
  lemma OldestIsBatch(t: Table, now: int, maxStreams: nat, minStreams: nat, deadline: int, streams: seq<StreamAge>)
    requires OldestFirst(t, now, streams) && streams != []
    requires |streams| == Limited(maxStreams, |StreamsToAnchor(t, now)|)
    ensures var go := |streams| >= minStreams || streams[0].minCreatedAt < deadline;
            var chosen := if go then StreamSet(streams) else {};
            IsReadyBatch(t, now, maxStreams, minStreams, deadline, chosen)
  {
    StreamSetSize(streams);
    assert streams[0].streamId in StreamSet(streams);
    forall s | s in StreamsToAnchor(t, now)
      ensures streams[0].minCreatedAt <= MinCreatedAt(t, now, s)
    {
      if s in StreamSet(streams) {
        var i :| 0 <= i < |streams| && streams[i].streamId == s;
        assert i == 0 || streams[0].minCreatedAt <= streams[i].minCreatedAt;
      }
    }
    forall s, u | s in StreamSet(streams) && u in StreamsToAnchor(t, now) && u !in StreamSet(streams)
      ensures MinCreatedAt(t, now, s) <= MinCreatedAt(t, now, u)
    {
      var i :| 0 <= i < |streams| && streams[i].streamId == s;
      assert streams[i].minCreatedAt <= MinCreatedAt(t, now, u);
    }
  }

  // ----- Queries -----

  /** The rows with the given ids, in ascending order of `key`. */
  method Select(t: Table, ids: set<RequestId>, key: Request -> int) returns (rows: seq<Request>)
    requires ValidTable(t) && ids <= t.Keys
    ensures Lists(rows, t, ids) && SortedBy(rows, key)
  {
    rows := RowsWith(t, ids);
    SortedLists(rows, t, ids, key);
    rows := StableSort(rows, key);
  }

  method RowsWith(t: Table, ids: set<RequestId>) returns (rows: seq<Request>)
    requires ValidTable(t) && ids <= t.Keys
    ensures Lists(rows, t, ids)
  {
    rows := [];
    var rest := ids;
    ghost var listed := {};
    while rest != {}
      invariant listed + rest == ids && listed !! rest
      invariant Lists(rows, t, listed)
      decreases rest
    {
      var id :| id in rest;
      ListsOneMore(rows, t, listed, id);
      rows := rows + [t[id]];
      rest, listed := rest - {id}, listed + {id};
    }
  }

  /** GROUP BY streamId with MIN(created_at), over the anchorable requests. */
  method GroupByStream(t: Table, now: int) returns (ages: map<StreamId, int>)
    ensures ages.Keys == StreamsToAnchor(t, now)
    ensures forall s | s in ages :: ages[s] == MinCreatedAt(t, now, s)
  {
    ages := map[];
    var rest := AnchorableIds(t, now);
    ghost var seen := {};
    while rest != {}
      invariant rest + seen == AnchorableIds(t, now)
      invariant ages.Keys == set id | id in seen :: t[id].streamId
      invariant forall id | id in seen :: ages[t[id].streamId] <= t[id].createdAt
      invariant forall s | s in ages :: exists id | id in seen :: t[id].streamId == s && t[id].createdAt == ages[s]
      decreases rest
    {
      var id :| id in rest;
      var row := t[id];
      if row.streamId !in ages || row.createdAt < ages[row.streamId] {
        ages := ages[row.streamId := row.createdAt];
      }
      rest := rest - {id};
      seen := seen + {id};
    }
    assert seen == AnchorableIds(t, now);
    forall s | s in ages
      ensures ages[s] == MinCreatedAt(t, now, s)
    {
      assert OldestAt(t, now, s, ages[s]);
      MinIsUnique(t, now, s, ages[s]);
    }
  }

  /** ORDER BY min_created_at with LIMIT. */
  method OldestStreams(t: Table, now: int, limit: nat) returns (streams: seq<StreamAge>)
    ensures OldestFirst(t, now, streams)
    ensures |streams| == Limited(limit, |StreamsToAnchor(t, now)|)
  {
    var ages := GroupByStream(t, now);
    streams := [];
    NoStreams(t, now);
    while ages.Keys != {} && (limit == 0 || |streams| < limit)
      invariant Remaining(t, now, streams, ages)
      invariant limit == 0 || |streams| <= limit
      decreases ages.Keys
    {
      var oldest := MinAge(ages);
      TakeOldest(t, now, streams, ages, oldest);
      streams := streams + [StreamAge(oldest, ages[oldest])];
      ages := ages - {oldest};
    }
    StreamSetSize(streams);
    Subset(StreamSet(streams), StreamsToAnchor(t, now));
  }

  /** `streams` lists the oldest streams and `ages` holds the others. */
  ghost predicate Remaining(t: Table, now: int, streams: seq<StreamAge>, ages: map<StreamId, int>) {
    && OldestFirst(t, now, streams)
    && ages.Keys == StreamsToAnchor(t, now) - StreamSet(streams)
    && forall s | s in ages :: ages[s] == MinCreatedAt(t, now, s)
  }

  lemma NoStreams(t: Table, now: int)
    ensures OldestFirst(t, now, []) && StreamSet([]) == {}
  {
  }

  lemma TakeOldest(t: Table, now: int, streams: seq<StreamAge>, ages: map<StreamId, int>, oldest: StreamId)
    requires Remaining(t, now, streams, ages)
    requires oldest in ages && forall s | s in ages :: ages[oldest] <= ages[s]
    ensures Remaining(t, now, streams + [StreamAge(oldest, ages[oldest])], ages - {oldest})
  {
    assert forall u | u in StreamsToAnchor(t, now) && u !in StreamSet(streams) :: u in ages;
    AppendOldest(t, now, streams, oldest, ages[oldest]);
  }

  class RequestRepository {
    var table: Table
    const maxAnchoringDelayMS: int
    const readyRetryIntervalMS: int

    constructor (maxAnchoringDelayMS: int, readyRetryIntervalMS: int)
      ensures table == map[]
      ensures this.maxAnchoringDelayMS == maxAnchoringDelayMS && this.readyRetryIntervalMS == readyRetryIntervalMS
    {
      this.maxAnchoringDelayMS := maxAnchoringDelayMS;
      this.readyRetryIntervalMS := readyRetryIntervalMS;
      table := map[];
    }

    ghost predicate Valid()
      reads this
    {
      ValidTable(table)
    }

    method Create(request: Request) returns (created: Option<Request>)
      requires Valid() && request.id !in table
      modifies this
      ensures Valid()
      ensures table == Insert(old(table), request)
      ensures created == if HasCid(old(table), request.cid) then None else Some(request)
      ensures if exists id :: id in old(table) && old(table)[id].cid == request.cid then table == old(table)
              else table == old(table)[request.id := request]
    {
      InsertKeepsValid(table, request);
      if HasCid(table, request.cid) {
        return None;
      }
      table := table[request.id := request];
      return Some(request);
    }

    /** All the rows asked for, or an error with how many were found and how many are missing. */
    method FindByIds(givenIds: seq<RequestId>) returns (r: Result<seq<Request>, (nat, nat)>)
      requires Valid()
      ensures var ids := set id | id in givenIds;
              if ids <= table.Keys
              then
                && r.Ok? && Lists(r.value, table, ids)
                && forall i, j | 0 <= i < j < |r.value| :: r.value[i].createdAt <= r.value[j].createdAt
              else r == Err((|ids * table.Keys|, |ids|))
    {
      var uniqueIds := set id | id in givenIds;
      var requests := Select(table, uniqueIds * table.Keys, CreatedAt);
      if |requests| != |uniqueIds| {
        return Err((|requests|, |uniqueIds|));
      }
      Subset(uniqueIds * table.Keys, uniqueIds);
      assert forall i, j | 0 <= i < j < |requests| :: CreatedAt(requests[i]) <= CreatedAt(requests[j]);
      return Ok(requests);
    }

    method FindByStatus(status: RequestStatus) returns (rows: seq<Request>)
      requires Valid()
      ensures Lists(rows, table, WithStatus(table, status)) && SortedBy(rows, UpdatedAt)
      ensures forall i, j | 0 <= i < j < |rows| :: rows[i].updatedAt <= rows[j].updatedAt
    {
      rows := Select(table, WithStatus(table, status), UpdatedAt);
      assert forall i, j | 0 <= i < j < |rows| :: UpdatedAt(rows[i]) <= UpdatedAt(rows[j]);
    }

    method CountByStatus(status: RequestStatus) returns (n: nat)
      ensures n == |WithStatus(table, status)|
    {
      n := |WithStatus(table, status)|;
    }

    method UpdateRequests(f: Fields, requests: seq<Request>, now: int) returns (updated: nat)
      requires Valid()
      modifies this
      ensures Valid()
      ensures table == Requests.UpdateRequests(old(table), f, Ids(requests), now)
      ensures updated == |Ids(requests) * old(table.Keys)|
      ensures OnlyChanges(old(table), table, Ids(requests))
      ensures forall id | id in old(table) && id in Ids(requests) :: IsUpdated(old(table)[id], table[id], f, now)
    {
      UpdatesByColumn(table, f, Ids(requests), now, Digest(0));
      UpdatesPreserve(table, f, Ids(requests), now, Digest(0));
      UpdatesKeepValid(table, Requests.UpdateRequests(table, f, Ids(requests), now));
      updated := |Ids(requests) * table.Keys|;
      table := Requests.UpdateRequests(table, f, Ids(requests), now);
    }

    /** Moves every READY request to PROCESSING and returns the rows as they were. */
    method FindAndMarkAsProcessing(now: int) returns (requests: seq<Request>)
      requires Valid()
      modifies this
      ensures Valid()
      ensures Lists(requests, old(table), WithStatus(old(table), READY))
      ensures table == Requests.UpdateRequests(old(table), StatusOnly(PROCESSING), WithStatus(old(table), READY), now)
      ensures old(table).Keys == table.Keys
      ensures forall id | id in table && old(table)[id].status != READY :: table[id] == old(table)[id]
      ensures forall id | id in table && old(table)[id].status == READY ::
                table[id] == old(table)[id].(status := PROCESSING, updatedAt := now)
    {
      requests := FindByStatus(READY);
      ListedIds(requests, table, WithStatus(table, READY));
      if |requests| == 0 {
        assert table == Requests.UpdateRequests(table, StatusOnly(PROCESSING), WithStatus(table, READY), now);
        return [];
      }
      var updatedCount := UpdateRequests(StatusOnly(PROCESSING), requests, now);
    }

    /** Refreshes the READY requests, unless the least recently updated one is not overdue. */
    method UpdateExpiringReadyRequests(now: int) returns (updated: nat)
      requires Valid()
      modifies this
      ensures Valid()
      ensures var ready := WithStatus(old(table), READY);
              if exists id | id in ready :: old(table)[id].updatedAt <= now - readyRetryIntervalMS
              then
                && table == Requests.UpdateRequests(old(table), StatusOnly(READY), ready, now) && updated == |ready|
                && OnlyChanges(old(table), table, ready)
                && forall id | id in ready :: table[id] == old(table)[id].(updatedAt := now)
              else table == old(table) && updated == 0
    {
      var readyRequests := FindByStatus(READY);
      var readyDeadline := now - readyRetryIntervalMS;
      ghost var ready := WithStatus(table, READY);
      ListedIds(readyRequests, table, ready);
      if |readyRequests| == 0 {
        return 0;
      }
      assert readyRequests[0] in readyRequests;
      if readyDeadline < readyRequests[0].updatedAt {
        forall id | id in ready
          ensures now - readyRetryIntervalMS < table[id].updatedAt
        {
          var i :| 0 <= i < |readyRequests| && readyRequests[i] == table[id];
          assert i == 0 || UpdatedAt(readyRequests[0]) <= UpdatedAt(readyRequests[i]);
        }
        return 0;
      }
      assert readyRequests[0].id in ready && table[readyRequests[0].id].updatedAt <= now - readyRetryIntervalMS;
      assert ready * table.Keys == ready;
      updated := UpdateRequests(StatusOnly(READY), readyRequests, now);
    }

    /** Replaces the pending requests of a key but a newest one. */
    method MarkReplaced(origin: string, streamId: StreamId, newer: Cid) returns (replaced: nat)
      requires Valid()
      modifies this
      ensures Valid()
      ensures Requests.MarkReplaced(old(table), table, origin, streamId, newer)
      ensures ReplacedButNewest(old(table), table, origin, streamId, newer)
      ensures var pending := PendingOf(old(table), origin, streamId);
              replaced == if pending == {} then 0 else |pending| - 1
    {
      var pending := PendingOf(table, origin, streamId);
      var newestFirst := Select(table, pending, NewestFirst);
      ListedIds(newestFirst, table, pending);
      if |newestFirst| == 0 {
        NoneReplaced(table, origin, streamId, newer);
        return 0;
      }
      var keep := newestFirst[0];
      assert keep in newestFirst;
      forall id | id in pending
        ensures table[id].timestamp <= keep.timestamp
      {
        var i :| 0 <= i < |newestFirst| && newestFirst[i] == table[id];
        assert i == 0 || NewestFirst(newestFirst[0]) <= NewestFirst(newestFirst[i]);
      }
      assert IsNewestPending(table, origin, streamId, keep.id);
      var ids := pending - {keep.id};
      UpdatesPreserve(table, StatusOnly(REPLACED), ids, 0, newer);
      UpdatesKeepValid(table, Replace(table, ids, newer));
      AllButNewestReplaced(table, origin, streamId, keep.id, newer);
      table := Replace(table, ids, newer);
      OneLess(pending, keep.id);
      replaced := |ids|;
    }

    /** Takes READY requests, at most `maxStreamLimit` of them unless that is 0, and returns them as PROCESSING. */
    method BatchProcessing(maxStreamLimit: nat) returns (requests: seq<Request>)
      requires Valid()
      modifies this
      ensures Valid()
      ensures exists ids :: TakenFromReady(old(table), ids, maxStreamLimit)
                            && table == StartProcessing(old(table), ids) && Lists(requests, table, ids)
      ensures OnlyChanges(old(table), table, Ids(requests))
      ensures |requests| == |Ids(requests)| && (maxStreamLimit > 0 ==> |requests| <= maxStreamLimit)
      ensures forall r | r in requests ::
                && r.id in old(table) && old(table)[r.id].status == READY
                && r == table[r.id] && IsProcessing(old(table)[r.id], r)
    {
      var ids := WithStatus(table, READY);
      if maxStreamLimit > 0 {
        while |ids| > maxStreamLimit
          invariant ids <= WithStatus(table, READY)
          invariant |ids| >= Limited(maxStreamLimit, |WithStatus(table, READY)|)
          decreases |ids|
        {
          var id :| id in ids;
          ids := ids - {id};
        }
      }
      Subset(ids, WithStatus(table, READY));
      assert TakenFromReady(table, ids, maxStreamLimit);
      UpdatesPreserve(table, StatusOnly(PROCESSING), ids, 0, Digest(0));
      UpdatesKeepValid(table, StartProcessing(table, ids));
      UpdatesByColumn(table, StatusOnly(PROCESSING), ids, 0, Digest(0));
      table := StartProcessing(table, ids);
      requests := Select(table, ids, CreatedAt);
      ListedIds(requests, table, ids);
    }

    // ----- findAndMarkReady -----

    method FindStreamsToAnchor(maxStreamLimit: nat, minStreamLimit: nat, anchoringDeadline: int, now: int)
      returns (streamIds: seq<StreamId>)
      requires Valid()
      ensures IsReadyBatch(table, now, maxStreamLimit, minStreamLimit, anchoringDeadline, set s | s in streamIds)
    {
      var streamsToAnchor := OldestStreams(table, now, maxStreamLimit);
      if |streamsToAnchor| == 0 {
        return [];
      }
      var enoughStreams := |streamsToAnchor| >= minStreamLimit;
      var earliestIsExpired := streamsToAnchor[0].minCreatedAt < anchoringDeadline;
      OldestIsBatch(table, now, maxStreamLimit, minStreamLimit, anchoringDeadline, streamsToAnchor);
      if !enoughStreams && !earliestIsExpired {
        return [];
      }
      streamIds := StreamIds(streamsToAnchor);
    }

    /** Returns the requests it marked, as they were before. */
    method FindAndMarkReady(maxStreamLimit: nat, minStreamLimit: nat, now: int, written: int)
      returns (requests: seq<Request>)
      requires Valid()
      modifies this
      ensures Valid()
      ensures exists batch ::
                && IsReadyBatch(old(table), now, maxStreamLimit, minStreamLimit, now - maxAnchoringDelayMS, batch)
                && MarkedAs(old(table), table, now, batch, written, requests)
      ensures MarksOnlyAnchorable(old(table), table, now, written, requests)
    {
      var streamIds := FindStreamsToAnchor(maxStreamLimit, minStreamLimit, now - maxAnchoringDelayMS, now);
      ghost var batch := set s | s in streamIds;
      if |streamIds| == 0 {
        assert batch == {};
        assert AnchorableInStreams(table, now, batch) == {};
        assert MarkedAs(table, table, now, batch, written, []);
        MarkedOnlyAnchorable(table, table, now, batch, written, []);
        return [];
      }
      requests := MarkStreams((set s | s in streamIds), now, written);
      MarkedOnlyAnchorable(old(table), table, now, batch, written, requests);
    }

    /** The second half of the transaction: read the requests of the streams, and update them. */
    method MarkStreams(streams: set<StreamId>, now: int, written: int) returns (requests: seq<Request>)
      requires Valid()
      modifies this
      ensures Valid()
      ensures MarkedAs(old(table), table, now, streams, written, requests)
    {
      var ids := AnchorableInStreams(table, now, streams);
      requests := Select(table, ids, CreatedAt);
      ListedIds(requests, table, ids);
      var updatedCount := UpdateRequests(StatusOnly(READY), requests, written);
    }
  }

  /**
   * Taking a READY request does not renew its `updatedAt`, so the processing timeout counts from when it was marked
   * READY: a request that waited too long is anchorable again the moment it is taken.
   */
  lemma TakenIsAnchorableIff(t: Table, ids: set<RequestId>, id: RequestId, now: int)
    requires id in ids && id in t && ids <= WithStatus(t, READY)
    ensures var t' := StartProcessing(t, ids);
            && t'[id] == t[id].(status := PROCESSING)
            && (Anchorable(t'[id], now) <==> now - t[id].updatedAt > PROCESSING_TIMEOUT)
  {
  }

  /**
   * What `findAndMarkReady` returns was pending, or in a batch for more than three hours, and is READY now; every other
   * row, whatever its status, is as it was.
   */
  ghost predicate MarksOnlyAnchorable(t: Table, t': Table, now: int, written: int, requests: seq<Request>) {
    && OnlyChanges(t, t', Ids(requests))
    && (forall r | r in requests ::
          && r.id in t && t[r.id] == r && r.id in t'
          && (r.status == PENDING || (r.status == PROCESSING && now - r.updatedAt > 10_800_000))
          && t'[r.id] == r.(status := READY, updatedAt := written))
    && (forall id | id in t && StaysOut(t[id], now) :: t'[id] == t[id] && forall r | r in requests :: r.id != id)
  }

  lemma MarkedOnlyAnchorable(t: Table, t': Table, now: int, batch: set<StreamId>, written: int, requests: seq<Request>)
    requires ValidTable(t) && MarkedAs(t, t', now, batch, written, requests)
    ensures MarksOnlyAnchorable(t, t', now, written, requests)
  {
    var ids := AnchorableInStreams(t, now, batch);
    ListedIds(requests, t, ids);
    UpdatesByColumn(t, StatusOnly(READY), ids, written, Digest(0));
    forall id | id in t && StaysOut(t[id], now)
      ensures id !in ids
    {
      AnchorableIff(t[id], now);
    }
  }

  /** If the key has pending rows, one with the latest timestamp stays, and the others, no more, are replaced. */
  ghost predicate ReplacedButNewest(t: Table, t': Table, origin: string, streamId: StreamId, newer: Cid) {
    && t'.Keys == t.Keys
    && (forall id | id in t && !IsPendingFor(t[id], origin, streamId) :: t'[id] == t[id])
    && ((exists id :: id in t && IsPendingFor(t[id], origin, streamId)) ==>
          exists keep ::
            && keep in t && IsPendingFor(t[keep], origin, streamId) && t'[keep] == t[keep]
            && forall id | id in t && IsPendingFor(t[id], origin, streamId) && id != keep ::
                 t[id].timestamp <= t[keep].timestamp && IsReplaced(t[id], t'[id], newer))
  }

  predicate IsPendingFor(r: Request, origin: string, streamId: StreamId) {
    r.status == PENDING && r.origin == origin && r.streamId == streamId
  }

  lemma OneLess(ids: set<RequestId>, id: RequestId)
    requires id in ids
    ensures ids != {} && |ids - {id}| == |ids| - 1
  {
  }

  lemma NoneReplaced(t: Table, origin: string, streamId: StreamId, newer: Cid)
    requires PendingOf(t, origin, streamId) == {}
    ensures ReplacedButNewest(t, t, origin, streamId, newer)
  {
    forall id | id in t
      ensures !IsPendingFor(t[id], origin, streamId)
    {
      assert id !in PendingOf(t, origin, streamId);
    }
  }

  lemma AllButNewestReplaced(t: Table, origin: string, streamId: StreamId, keep: RequestId, newer: Cid)
    requires IsNewestPending(t, origin, streamId, keep)
    ensures ReplacedButNewest(t, Replace(t, PendingOf(t, origin, streamId) - {keep}, newer), origin, streamId, newer)
  {
    var ids := PendingOf(t, origin, streamId) - {keep};
    UpdatesByColumn(t, StatusOnly(REPLACED), ids, 0, newer);
    forall id | id in t && IsPendingFor(t[id], origin, streamId) && id != keep
      ensures t[id].timestamp <= t[keep].timestamp && id in ids
    {
      assert id in PendingOf(t, origin, streamId);
    }
  }

  ghost predicate MarkedAs(t: Table, t': Table, now: int, batch: set<StreamId>, written: int, requests: seq<Request>) {
    && t' == MarkReady(t, now, batch, written)
    && Lists(requests, t, AnchorableInStreams(t, now, batch))
  }
}
