/** A newer request on a key replaces the pending older ones, whatever order they arrive in. */
module Replacement {
  import opened Witness
  import opened Requests

  /** `create` without a queue: the insert, and, if it stored something, `markReplaced` for its key. */
  ghost predicate Arrive(t: Table, t': Table, r: Request) {
    if HasCid(t, r.cid) then t' == t
    else MarkReplaced(Insert(t, r), t', r.origin, r.streamId, r.cid)
  }

  /** A run of arrivals: `ts[i + 1]` is what arrival `rs[i]`, pending and with a new id, makes of `ts[i]`. */
  ghost predicate Run(ts: seq<Table>, rs: seq<Request>) {
    && |ts| == |rs| + 1
    && forall i | 0 <= i < |rs| :: Arrive(ts[i], ts[i + 1], rs[i]) && rs[i].id !in ts[i] && rs[i].status == PENDING
  }

  /** Rows that could be the pending one of their key: pending at the start, or arrived since. */
  predicate Contender(t0: Table, t: Table, id: RequestId) {
    id in t && (id in t0 ==> t0[id].status == PENDING)
  }

  predicate Touched(t0: Table, t: Table, origin: string, streamId: StreamId) {
    exists id | id in t :: id !in t0 && SameKey(t[id], origin, streamId)
  }

  /** `k` is the only pending request of its key, no contender is newer, and the others are REPLACED. */
  ghost predicate OneNewest(t0: Table, t: Table, origin: string, streamId: StreamId, k: RequestId) {
    && k in t && SameKey(t[k], origin, streamId) && t[k].status == PENDING && Contender(t0, t, k)
    && (forall id | id in t && SameKey(t[id], origin, streamId) && t[id].status == PENDING :: id == k)
    && (forall id | id in t && Contender(t0, t, id) && SameKey(t[id], origin, streamId) ::
          t[id].timestamp <= t[k].timestamp && (id != k ==> t[id].status == REPLACED))
  }

  /** What holds between the table at the start and the table after any number of arrivals. */
  ghost predicate Settled(t0: Table, t: Table) {
    && ValidTable(t)
    && Preserves(t0, t)
    && (forall id | id in t0 && t0[id].status != PENDING :: t[id] == t0[id])
    && (forall id | id in t0 && !Touched(t0, t, t0[id].origin, t0[id].streamId) :: t[id] == t0[id])
    && (forall origin, streamId | Touched(t0, t, origin, streamId) :: exists k :: OneNewest(t0, t, origin, streamId, k))
  }

  // ----- One arrival -----

  /** The effect of a stored arrival: the new row, and the choice of the row kept pending. */
  lemma StoredArrival(t: Table, t': Table, r: Request) returns (keep: RequestId)
    requires Arrive(t, t', r) && !HasCid(t, r.cid) && r.id !in t && r.status == PENDING
    ensures var u := t[r.id := r];
            && IsNewestPending(u, r.origin, r.streamId, keep)
            && t' == Replace(u, PendingOf(u, r.origin, r.streamId) - {keep}, r.cid)
  {
    var u := t[r.id := r];
    assert r.id in PendingOf(u, r.origin, r.streamId);
    keep :| IsNewestPending(u, r.origin, r.streamId, keep)
            && t' == Replace(u, PendingOf(u, r.origin, r.streamId) - {keep}, r.cid);
  }

  lemma ArrivalKeys(t: Table, t': Table, r: Request)
    requires Arrive(t, t', r) && !HasCid(t, r.cid) && r.id !in t && r.status == PENDING
    ensures t'.Keys == t.Keys + {r.id} && SameIdentity(r, t'[r.id])
    ensures forall id | id in t :: SameIdentity(t[id], t'[id])
  {
  }

  lemma ArrivalOneNewest(t0: Table, t: Table, t': Table, r: Request, keep: RequestId)
    requires Settled(t0, t) && r.id !in t && r.id !in t0 && r.status == PENDING
    requires var u := t[r.id := r];
             && IsNewestPending(u, r.origin, r.streamId, keep)
             && t' == Replace(u, PendingOf(u, r.origin, r.streamId) - {keep}, r.cid)
    ensures OneNewest(t0, t', r.origin, r.streamId, keep)
  {
    forall id | id in t' && Contender(t0, t', id) && SameKey(t'[id], r.origin, r.streamId)
      ensures t'[id].timestamp <= t'[keep].timestamp && (id != keep ==> t'[id].status == REPLACED)
    {
      ContenderIsPendingOrReplaced(t0, t, r, id);
    }
  }

  /** Before the replacement a contender of the new request's key is pending, or REPLACED by a newer pending one. */
  lemma ContenderIsPendingOrReplaced(t0: Table, t: Table, r: Request, id: RequestId)
    requires Settled(t0, t) && r.id !in t && r.id !in t0 && r.status == PENDING
    requires var u := t[r.id := r];
             id in u && Contender(t0, u, id) && SameKey(u[id], r.origin, r.streamId)
    ensures var u := t[r.id := r];
            || id in PendingOf(u, r.origin, r.streamId)
            || (u[id].status == REPLACED
                && exists k :: k in PendingOf(u, r.origin, r.streamId) && u[id].timestamp <= u[k].timestamp)
  {
    var u := t[r.id := r];
    if id != r.id {
      if k :| OneNewest(t0, t, r.origin, r.streamId, k) {
        assert Contender(t0, t, id) && SameKey(t[id], r.origin, r.streamId);
        assert k in PendingOf(u, r.origin, r.streamId);
      } else {
        assert !Touched(t0, t, r.origin, r.streamId);
        assert id in t0 && t[id] == t0[id];
      }
    }
  }

  lemma OtherKeysKept(t0: Table, t: Table, t': Table, r: Request, keep: RequestId, origin: string, streamId: StreamId)
    requires Settled(t0, t) && r.id !in t && r.id !in t0 && r.status == PENDING
    requires var u := t[r.id := r];
             t' == Replace(u, PendingOf(u, r.origin, r.streamId) - {keep}, r.cid)
    requires !SameKey(r, origin, streamId) && Touched(t0, t', origin, streamId)
    ensures exists k :: OneNewest(t0, t', origin, streamId, k)
  {
    var id :| id in t' && id !in t0 && SameKey(t'[id], origin, streamId);
    assert id != r.id && SameKey(t[id], origin, streamId);
    assert Touched(t0, t, origin, streamId);
    var k :| OneNewest(t0, t, origin, streamId, k);
    OneNewestFrame(t0, t, t', origin, streamId, k);
  }

  lemma OneNewestFrame(t0: Table, t: Table, t': Table, origin: string, streamId: StreamId, k: RequestId)
    requires OneNewest(t0, t, origin, streamId, k)
    requires k in t' && t'[k] == t[k]
    requires forall id | id in t' && SameKey(t'[id], origin, streamId) :: id in t && t'[id] == t[id]
    ensures OneNewest(t0, t', origin, streamId, k)
  {
  }

  lemma ArrivalSettles(t0: Table, t: Table, t': Table, r: Request)
    requires Settled(t0, t) && Arrive(t, t', r) && r.id !in t && r.status == PENDING
    ensures Settled(t0, t')
  {
    if !HasCid(t, r.cid) {
      var keep := StoredArrival(t, t', r);
      var u := t[r.id := r];
      ArrivalOneNewest(t0, t, t', r, keep);
      forall origin, streamId | Touched(t0, t', origin, streamId)
        ensures exists k :: OneNewest(t0, t', origin, streamId, k)
      {
        if !SameKey(r, origin, streamId) {
          OtherKeysKept(t0, t, t', r, keep, origin, streamId);
        }
      }
      InsertKeepsValid(t, r);
      UpdatesPreserve(u, StatusOnly(REPLACED), PendingOf(u, r.origin, r.streamId) - {keep}, 0, r.cid);
      UpdatesKeepValid(u, t');
      PreservesTransitive(t, u, t');
      PreservesTransitive(t0, t, t');
      ArrivalFrame(t0, t, t', r, keep);
    }
  }

  lemma ArrivalFrame(t0: Table, t: Table, t': Table, r: Request, keep: RequestId)
    requires Settled(t0, t) && r.id !in t && r.status == PENDING && Preserves(t, t')
    requires var u := t[r.id := r];
             t' == Replace(u, PendingOf(u, r.origin, r.streamId) - {keep}, r.cid)
    ensures forall id | id in t0 && t0[id].status != PENDING :: t'[id] == t0[id]
    ensures forall id | id in t0 && !Touched(t0, t', t0[id].origin, t0[id].streamId) :: t'[id] == t0[id]
  {
  }

  // ----- Whole runs -----

  /**
   * After any run of arrivals, repeated CIDs and equal timestamps included, no CID is stored twice, every
   * key that got a new request has exactly one pending request, and it is a newest of the contenders.
   */
  lemma {:induction false} RunSettles(ts: seq<Table>, rs: seq<Request>)
    requires Run(ts, rs) && ValidTable(ts[0])
    ensures Settled(ts[0], ts[|rs|])
    decreases |rs|
  {
    if rs != [] {
      var n := |rs| - 1;
      assert Run(ts[..n + 1], rs[..n]);
      RunSettles(ts[..n + 1], rs[..n]);
      ArrivalSettles(ts[0], ts[n], ts[n + 1], rs[n]);
    }
  }

  // ----- What is stored -----

  /** Arrival `i` is stored: its CID was not there at the start, and no earlier arrival brought it. */
  predicate IsFirst(t0: Table, rs: seq<Request>, i: nat) {
    i < |rs| && !HasCid(t0, rs[i].cid) && forall j | 0 <= j < i :: rs[j].cid != rs[i].cid
  }

  function StoredIds(t0: Table, rs: seq<Request>): set<RequestId> {
    set i: nat | i < |rs| && IsFirst(t0, rs, i) :: rs[i].id
  }

  /** The new rows are those of the arrivals that were the first with their CID. */
  ghost predicate Stores(t0: Table, t: Table, rs: seq<Request>) {
    && StoredIds(t0, rs) !! t0.Keys
    && t.Keys == t0.Keys + StoredIds(t0, rs)
    && forall i: nat | IsFirst(t0, rs, i) :: rs[i].id in t && SameIdentity(rs[i], t[rs[i].id])
  }

  lemma {:induction false} RunStores(ts: seq<Table>, rs: seq<Request>)
    requires Run(ts, rs) && ValidTable(ts[0])
    ensures Stores(ts[0], ts[|rs|], rs)
    decreases |rs|
  {
    if rs != [] {
      var n := |rs| - 1;
      assert Run(ts[..n + 1], rs[..n]);
      RunStores(ts[..n + 1], rs[..n]);
      RunSettles(ts[..n + 1], rs[..n]);
      assert rs == rs[..n] + [rs[n]];
      OneMoreStored(ts[0], ts[n], ts[n + 1], rs[..n], rs[n]);
    }
  }

  lemma FirstsOneMore(t0: Table, rs: seq<Request>, r: Request)
    ensures forall i: nat | i < |rs| :: IsFirst(t0, rs + [r], i) <==> IsFirst(t0, rs, i)
    ensures IsFirst(t0, rs + [r], |rs|) <==> !HasCid(t0, r.cid) && forall j | 0 <= j < |rs| :: rs[j].cid != r.cid
    ensures StoredIds(t0, rs + [r]) == StoredIds(t0, rs) + if IsFirst(t0, rs + [r], |rs|) then {r.id} else {}
  {
    var more := rs + [r];
    assert forall j | 0 <= j < |rs| :: more[j] == rs[j];
    forall i: nat | i < |rs|
      ensures IsFirst(t0, more, i) <==> IsFirst(t0, rs, i)
    {
      assert forall j | 0 <= j <= i :: more[j] == rs[j];
    }
    forall id | id in StoredIds(t0, rs)
      ensures id in StoredIds(t0, more)
    {
      var i: nat :| i < |rs| && IsFirst(t0, rs, i) && rs[i].id == id;
      assert IsFirst(t0, more, i) && more[i].id == id;
    }
  }

  /** The first of the arrivals with a CID. */
  lemma {:induction false} FirstWithCid(rs: seq<Request>, j: nat) returns (i: nat)
    requires j < |rs|
    ensures i <= j && rs[i].cid == rs[j].cid && forall k | 0 <= k < i :: rs[k].cid != rs[j].cid
  {
    if k: nat :| k < j && rs[k].cid == rs[j].cid {
      i := FirstWithCid(rs, k);
    } else {
      i := j;
    }
  }

  /** A CID is in the table if it was there, or some arrival brought it. */
  lemma CidsStored(t0: Table, t: Table, rs: seq<Request>, cid: Cid)
    requires Preserves(t0, t) && Stores(t0, t, rs)
    ensures HasCid(t, cid) <==> HasCid(t0, cid) || exists j :: 0 <= j < |rs| && rs[j].cid == cid
  {
    if j: nat :| !HasCid(t0, cid) && j < |rs| && rs[j].cid == cid {
      var i := FirstWithCid(rs, j);
      assert IsFirst(t0, rs, i) && t[rs[i].id].cid == cid;
    }
    if id :| id in t0 && t0[id].cid == cid {
      assert t[id].cid == cid;
    }
  }

  lemma OneMoreStored(t0: Table, t: Table, t': Table, rs: seq<Request>, r: Request)
    requires Preserves(t0, t) && Stores(t0, t, rs) && Arrive(t, t', r) && r.id !in t && r.status == PENDING
    ensures Stores(t0, t', rs + [r])
  {
    CidsStored(t0, t, rs, r.cid);
    if HasCid(t, r.cid) {
      FirstsOneMore(t0, rs, r);
      assert forall i: nat | IsFirst(t0, rs + [r], i) :: IsFirst(t0, rs, i);
    } else {
      ArrivalKeys(t, t', r);
      NewRowStored(t0, t, t', rs, r);
    }
  }

  lemma NewRowStored(t0: Table, t: Table, t': Table, rs: seq<Request>, r: Request)
    requires Stores(t0, t, rs) && r.id !in t && IsFirst(t0, rs + [r], |rs|)
    requires t'.Keys == t.Keys + {r.id} && SameIdentity(r, t'[r.id])
    requires forall id | id in t :: SameIdentity(t[id], t'[id])
    ensures Stores(t0, t', rs + [r])
  {
    FirstsOneMore(t0, rs, r);
    NewRowsShown(t0, t, t', rs, r);
  }

  lemma NewRowsShown(t0: Table, t: Table, t': Table, rs: seq<Request>, r: Request)
    requires Stores(t0, t, rs) && r.id in t' && SameIdentity(r, t'[r.id])
    requires forall id | id in t :: id in t' && SameIdentity(t[id], t'[id])
    ensures var more := rs + [r];
            forall i: nat | IsFirst(t0, more, i) :: more[i].id in t' && SameIdentity(more[i], t'[more[i].id])
  {
    FirstsOneMore(t0, rs, r);
    var more := rs + [r];
    forall i: nat | IsFirst(t0, more, i)
      ensures more[i].id in t' && SameIdentity(more[i], t'[more[i].id])
    {
      if i < |rs| {
        assert IsFirst(t0, rs, i) && SameIdentity(rs[i], t[rs[i].id]);
      }
    }
  }

  /** No two contenders of one key carry the same timestamp. */
  ghost predicate DistinctTimestamps(t0: Table, t: Table) {
    forall i, j | i in t && j in t && i != j && Contender(t0, t, i) && Contender(t0, t, j)
                  && SameKey(t[i], t[j].origin, t[j].streamId) :: t[i].timestamp != t[j].timestamp
  }

  /** Whatever is first with its CID in one run is so in the other. */
  ghost predicate FirstsWithin(t0: Table, rs: seq<Request>, rs': seq<Request>) {
    forall i: nat | IsFirst(t0, rs, i) :: exists k: nat :: IsFirst(t0, rs', k) && SameIdentity(rs[i], rs'[k])
  }

  ghost predicate SameFirsts(t0: Table, rs: seq<Request>, rs': seq<Request>) {
    FirstsWithin(t0, rs, rs') && FirstsWithin(t0, rs', rs)
  }

  predicate SameIdentities(t: Table, t': Table) {
    t.Keys == t'.Keys && forall id | id in t :: SameIdentity(t[id], t'[id])
  }

  /** The same requests are stored, each with the same status. */
  predicate SameOutcome(t: Table, t': Table) {
    SameIdentities(t, t') && forall id | id in t :: t[id].status == t'[id].status
  }

  /**
   * Two runs of arrivals, with distinct timestamps per key, have the same outcome if and only if for every new CID the
   * same request comes first with it.
   */
  lemma ConfluentIff(ts: seq<Table>, rs: seq<Request>, ts': seq<Table>, rs': seq<Request>)
    requires Run(ts, rs) && Run(ts', rs') && ts[0] == ts'[0] && ValidTable(ts[0])
    requires DistinctTimestamps(ts[0], ts[|rs|])
    ensures SameOutcome(ts[|rs|], ts'[|rs'|]) <==> SameFirsts(ts[0], rs, rs')
  {
    var t0, t, t' := ts[0], ts[|rs|], ts'[|rs'|];
    RunSettles(ts, rs);
    RunSettles(ts', rs');
    RunStores(ts, rs);
    RunStores(ts', rs');
    if SameFirsts(t0, rs, rs') {
      SameRows(t0, t, t', rs, rs');
      forall id | id in t
        ensures t[id].status == t'[id].status
      {
        SameStatus(t0, t, t', id);
      }
    }
    if SameOutcome(t, t') {
      SameRowsSameFirsts(t0, t, t', rs, rs');
      SameRowsSameFirsts(t0, t', t, rs', rs);
    }
  }

  // ----- A CID that arrives twice -----

  function Replaced(r: Request, newer: Cid): Request {
    r.(status := REPLACED, message := ReplacedBy(newer))
  }

  lemma FirstArrives(r: Request)
    requires r.status == PENDING
    ensures Arrive(map[], map[r.id := r], r)
  {
    var u := map[r.id := r];
    assert PendingOf(u, r.origin, r.streamId) == {r.id};
    assert IsNewestPending(u, r.origin, r.streamId, r.id) && Replace(u, {}, r.cid) == u;
  }

  /** The second arrival of a key: the older of the two is replaced. */
  lemma SecondArrives(r: Request, s: Request)
    requires r.status == PENDING && s.status == PENDING && r.id != s.id && r.cid != s.cid && r.timestamp != s.timestamp
    requires SameKey(r, s.origin, s.streamId)
    ensures Arrive(map[r.id := r],
                   if r.timestamp < s.timestamp then map[r.id := Replaced(r, s.cid), s.id := s]
                   else map[r.id := r, s.id := Replaced(s, s.cid)], s)
  {
    var t := map[r.id := r];
    var u := t[s.id := s];
    assert !HasCid(t, s.cid) && PendingOf(u, s.origin, s.streamId) == {r.id, s.id};
    var keep := if r.timestamp < s.timestamp then s.id else r.id;
    assert IsNewestPending(u, s.origin, s.streamId, keep);
    assert {r.id, s.id} - {keep} == {if keep == s.id then r.id else s.id};
  }

  /** A run of arrivals on an empty table that ends with `t`. */
  ghost predicate LeadsTo(ts: seq<Table>, rs: seq<Request>, t: Table) {
    Run(ts, rs) && ts[0] == map[] && ts[|rs|] == t
  }

  /** `again` brings the CID of `first` and is ignored. */
  lemma ThreeArrive(first: Request, again: Request, last: Request, t: Table) returns (ts: seq<Table>)
    requires first.status == again.status == last.status == PENDING && again.cid == first.cid
    requires first.id != again.id && first.id != last.id && Arrive(map[first.id := first], t, last)
    ensures LeadsTo(ts, [first, again, last], t)
  {
    var one := map[first.id := first];
    FirstArrives(first);
    assert one[first.id].cid == again.cid && HasCid(one, again.cid);
    assert Arrive(one, one, again);
    ts := [map[], one, one, t];
  }

  /** An older and a newer request for one CID, and a request for another CID in between. */
  datatype Three = Three(older: Request, newer: Request, between: Request) {
    predicate Valid() {
      && older.status == newer.status == between.status == PENDING
      && older.id != newer.id && older.id != between.id && newer.id != between.id
      && SameKey(older, newer.origin, newer.streamId) && SameKey(older, between.origin, between.streamId)
      && older.cid == newer.cid != between.cid
      && older.timestamp < between.timestamp < newer.timestamp
    }

    function OlderFirst(): Table {
      map[older.id := Replaced(older, between.cid), between.id := between]
    }

    function NewerFirst(): Table {
      map[newer.id := newer, between.id := Replaced(between, between.cid)]
    }
  }

  /** Whether the request in between survives depends on which of the two with the same CID came first. */
  lemma RepeatedCidMatters(x: Three) returns (ts: seq<Table>, ts': seq<Table>)
    requires x.Valid()
    ensures LeadsTo(ts, [x.older, x.newer, x.between], x.OlderFirst())
    ensures LeadsTo(ts', [x.newer, x.older, x.between], x.NewerFirst())
    ensures !SameOutcome(x.OlderFirst(), x.NewerFirst())
  {
    SecondArrives(x.older, x.between);
    SecondArrives(x.newer, x.between);
    ts := ThreeArrive(x.older, x.newer, x.between, x.OlderFirst());
    ts' := ThreeArrive(x.newer, x.older, x.between, x.NewerFirst());
    assert x.between.id in x.OlderFirst() && x.between.id in x.NewerFirst();
  }

  /** Confluence: where no CID arrives twice, all orders of the same arrivals have the same outcome. */
  lemma Confluent(ts: seq<Table>, rs: seq<Request>, ts': seq<Table>, rs': seq<Request>)
    requires Run(ts, rs) && Run(ts', rs') && ts[0] == ts'[0] && ValidTable(ts[0])
    requires forall r :: r in rs <==> r in rs'
    requires forall i, j | 0 <= i < j < |rs| :: rs[i].cid != rs[j].cid
    requires forall i, j | 0 <= i < j < |rs'| :: rs'[i].cid != rs'[j].cid
    requires DistinctTimestamps(ts[0], ts[|rs|])
    ensures SameOutcome(ts[|rs|], ts'[|rs'|])
  {
    AllAreFirst(ts[0], rs, rs');
    AllAreFirst(ts[0], rs', rs);
    ConfluentIff(ts, rs, ts', rs');
  }

  lemma AllAreFirst(t0: Table, rs: seq<Request>, rs': seq<Request>)
    requires forall r | r in rs :: r in rs'
    requires forall i, j | 0 <= i < j < |rs'| :: rs'[i].cid != rs'[j].cid
    ensures FirstsWithin(t0, rs, rs')
  {
    forall i: nat | IsFirst(t0, rs, i)
      ensures exists k: nat :: IsFirst(t0, rs', k) && SameIdentity(rs[i], rs'[k])
    {
      assert rs[i] in rs;
      var k: nat :| k < |rs'| && rs'[k] == rs[i];
      assert IsFirst(t0, rs', k);
    }
  }

  lemma SameRows(t0: Table, t: Table, t': Table, rs: seq<Request>, rs': seq<Request>)
    requires Preserves(t0, t) && Preserves(t0, t') && Stores(t0, t, rs) && Stores(t0, t', rs')
    requires SameFirsts(t0, rs, rs')
    ensures SameIdentities(t, t')
  {
    RowsWithin(t0, t, t', rs, rs');
    RowsWithin(t0, t', t, rs', rs);
  }

  lemma RowsWithin(t0: Table, t: Table, t': Table, rs: seq<Request>, rs': seq<Request>)
    requires Preserves(t0, t) && Preserves(t0, t') && Stores(t0, t, rs) && Stores(t0, t', rs')
    requires FirstsWithin(t0, rs, rs')
    ensures forall id | id in t :: id in t' && SameIdentity(t[id], t'[id])
  {
    forall id | id in t
      ensures id in t' && SameIdentity(t[id], t'[id])
    {
      if id in t0 {
        assert SameIdentity(t0[id], t[id]) && SameIdentity(t0[id], t'[id]);
      } else {
        var i: nat :| i < |rs| && IsFirst(t0, rs, i) && rs[i].id == id;
        var k: nat :| IsFirst(t0, rs', k) && SameIdentity(rs[i], rs'[k]);
        assert SameIdentity(rs'[k], t'[rs'[k].id]);
      }
    }
  }

  lemma SameRowsSameFirsts(t0: Table, t: Table, t': Table, rs: seq<Request>, rs': seq<Request>)
    requires Stores(t0, t, rs) && Stores(t0, t', rs') && SameIdentities(t, t')
    ensures FirstsWithin(t0, rs, rs')
  {
    forall i: nat | IsFirst(t0, rs, i)
      ensures exists k: nat :: IsFirst(t0, rs', k) && SameIdentity(rs[i], rs'[k])
    {
      var id := rs[i].id;
      assert id in StoredIds(t0, rs) && id in t';
      var k: nat :| k < |rs'| && IsFirst(t0, rs', k) && rs'[k].id == id;
      assert SameIdentity(rs[i], t[id]) && SameIdentity(t[id], t'[id]) && SameIdentity(rs'[k], t'[id]);
    }
  }

  lemma SameTouched(t0: Table, t: Table, t': Table, origin: string, streamId: StreamId)
    requires t.Keys == t'.Keys && forall j | j in t :: SameIdentity(t[j], t'[j])
    ensures Touched(t0, t, origin, streamId) <==> Touched(t0, t', origin, streamId)
  {
  }

  lemma SameNewest(t0: Table, t: Table, t': Table, origin: string, streamId: StreamId, k: RequestId, k': RequestId)
    requires t.Keys == t'.Keys && forall j | j in t :: SameIdentity(t[j], t'[j])
    requires DistinctTimestamps(t0, t)
    requires OneNewest(t0, t, origin, streamId, k) && OneNewest(t0, t', origin, streamId, k')
    ensures k == k'
  {
  }

  lemma SameStatus(t0: Table, t: Table, t': Table, id: RequestId)
    requires Settled(t0, t) && Settled(t0, t') && t.Keys == t'.Keys && id in t
    requires forall j | j in t :: SameIdentity(t[j], t'[j])
    requires DistinctTimestamps(t0, t)
    ensures t[id].status == t'[id].status
  {
    var origin, streamId := t[id].origin, t[id].streamId;
    SameTouched(t0, t, t', origin, streamId);
    assert SameIdentity(t[id], t'[id]);
    if id in t0 && t0[id].status != PENDING {
    } else if Touched(t0, t, origin, streamId) {
      var k :| OneNewest(t0, t, origin, streamId, k);
      var k' :| OneNewest(t0, t', origin, streamId, k');
      SameNewest(t0, t, t', origin, streamId, k, k');
      assert Contender(t0, t, id) && Contender(t0, t', id);
    } else {
      assert id in t0;
      assert SameIdentity(t0[id], t[id]);
    }
  }
}
