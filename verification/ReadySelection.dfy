/** Which streams `findAndMarkReady` puts in a batch: the oldest ones, once there are enough or one is overdue. */
module ReadySelection {
  import opened Requests

  function StreamsToAnchor(t: Table, now: int): set<StreamId> {
    set id | id in AnchorableIds(t, now) :: t[id].streamId
  }

  /** `c` is MIN(created_at) over the anchorable requests of stream `s`. */
  ghost predicate OldestAt(t: Table, now: int, s: StreamId, c: int) {
    && (exists id | id in AnchorableIds(t, now) :: t[id].streamId == s && t[id].createdAt == c)
    && (forall id | id in AnchorableIds(t, now) && t[id].streamId == s :: c <= t[id].createdAt)
  }

  lemma {:induction false} OldestRow(t: Table, ids: set<RequestId>) returns (m: RequestId)
    requires ids <= t.Keys && ids != {}
    ensures m in ids && forall id | id in ids :: t[m].createdAt <= t[id].createdAt
  {
    var first :| first in ids;
    m := first;
    var others := ids - {first};
    assert ids == others + {first};
    if others != {} {
      var oldest := OldestRow(t, others);
      m := if t[first].createdAt < t[oldest].createdAt then first else oldest;
    }
  }

  lemma OldestExists(t: Table, now: int, s: StreamId)
    requires s in StreamsToAnchor(t, now)
    ensures exists c :: OldestAt(t, now, s, c)
  {
    var ids := set id | id in AnchorableIds(t, now) && t[id].streamId == s;
    var id :| id in AnchorableIds(t, now) && t[id].streamId == s;
    assert id in ids;
    var oldest := OldestRow(t, ids);
    assert OldestAt(t, now, s, t[oldest].createdAt);
  }

  ghost function MinCreatedAt(t: Table, now: int, s: StreamId): (c: int)
    requires s in StreamsToAnchor(t, now)
    ensures OldestAt(t, now, s, c)
  {
    OldestExists(t, now, s);
    var c :| OldestAt(t, now, s, c);
    c
  }

  lemma MinIsUnique(t: Table, now: int, s: StreamId, c: int)
    requires OldestAt(t, now, s, c)
    ensures s in StreamsToAnchor(t, now) && MinCreatedAt(t, now, s) == c
  {
  }

  /** LIMIT, where 0 stands for no limit. */
  function Limited(limit: nat, count: nat): nat {
    if limit == 0 || count <= limit then count else limit
  }

  /**
   * The batch holds the oldest streams, as many as the limit allows. It is empty exactly when there is
   * nothing to anchor, or when the streams are too few and none of them is past the deadline.
   */
  ghost predicate IsReadyBatch(t: Table, now: int, maxStreams: nat, minStreams: nat, deadline: int,
                               batch: set<StreamId>)
  {
    var streams := StreamsToAnchor(t, now);
    && batch <= streams
    && (batch != {} ==> |batch| == Limited(maxStreams, |streams|))
    && (forall s, u | s in batch && u in streams && u !in batch :: MinCreatedAt(t, now, s) <= MinCreatedAt(t, now, u))
    && (batch == {} <==>
        || streams == {}
        || (&& Limited(maxStreams, |streams|) < minStreams
            && forall s | s in streams :: deadline <= MinCreatedAt(t, now, s)))
  }

  /** All and only the anchorable requests of the batch become READY. */
  function MarkReady(t: Table, now: int, batch: set<StreamId>, written: int): Table {
    UpdateRequests(t, StatusOnly(READY), AnchorableInStreams(t, now, batch), written)
  }

  lemma MarkReadyExact(t: Table, now: int, batch: set<StreamId>, written: int)
    ensures var t' := MarkReady(t, now, batch, written);
            && t'.Keys == t.Keys
            && WithStatus(t', READY) == WithStatus(t, READY) + AnchorableInStreams(t, now, batch)
            && StreamsToAnchor(t', now) == StreamsToAnchor(t, now) - batch
            && (forall id | id in t && id !in AnchorableInStreams(t, now, batch) :: t'[id] == t[id])
  {
  }

  /** When no two streams have the same age, the selection leaves nothing open. */
  lemma BatchDetermined(t: Table, now: int, maxStreams: nat, minStreams: nat, deadline: int,
                        a: set<StreamId>, b: set<StreamId>)
    requires IsReadyBatch(t, now, maxStreams, minStreams, deadline, a)
    requires IsReadyBatch(t, now, maxStreams, minStreams, deadline, b)
    requires forall s, u | s in StreamsToAnchor(t, now) && u in StreamsToAnchor(t, now) ::
               MinCreatedAt(t, now, s) == MinCreatedAt(t, now, u) ==> s == u
    ensures a == b
  {
    if a != b {
      assert |a| == |b|;
      SameSize(a, b);
      SameSize(b, a);
      var s :| s in a && s !in b;
      var u :| u in b && u !in a;
      assert false;
    }
  }

  lemma {:induction false} Subset<T>(a: set<T>, b: set<T>)
    requires a <= b
    ensures |a| <= |b| && (|a| == |b| ==> a == b)
  {
    if a != {} {
      var x :| x in a;
      Subset(a - {x}, b - {x});
    }
  }

  lemma SameSize<T>(a: set<T>, b: set<T>)
    requires |a| == |b| && a != b
    ensures exists x :: x in a && x !in b
  {
    if a <= b {
      Subset(a, b);
    }
  }
}

/** A request past the deadline is not passed over for ever. */
module Starvation {
  import opened Requests
  import opened ReadySelection

  /** Streams other than the request's own that have an anchorable request no younger than it. */
  function Ahead(t: Table, now: int, r: Request): set<StreamId> {
    set id | id in AnchorableIds(t, now) && t[id].createdAt <= r.createdAt && t[id].streamId != r.streamId ::
      t[id].streamId
  }

  /** One committed call of `findAndMarkReady`: the table it read, and the table it left. */
  datatype Call = Call(before: Table, now: int, minStreams: nat, batch: set<StreamId>, written: int, after: Table)

  ghost predicate ValidCall(c: Call, maxStreams: nat, maxAnchoringDelay: int) {
    && IsReadyBatch(c.before, c.now, maxStreams, c.minStreams, c.now - maxAnchoringDelay, c.batch)
    && c.after == MarkReady(c.before, c.now, c.batch, c.written)
  }

  /** Streams that came ahead between two calls: by a timeout, a failure reset, or an old request that arrives late. */
  function Joined(c: Call, d: Call, r: Request): set<StreamId> {
    Ahead(d.before, d.now, r) - Ahead(c.after, c.now, r)
  }

  /** How many did so over all the calls. */
  function JoinedIn(calls: seq<Call>, r: Request): nat {
    if |calls| < 2 then 0 else |Joined(calls[0], calls[1], r)| + JoinedIn(calls[1..], r)
  }

  /** Between two calls no request as old as `createdAt` became anchorable; younger ones may arrive. */
  ghost predicate NoReentry(c: Call, d: Call, createdAt: int) {
    forall id | id in AnchorableIds(d.before, d.now) && d.before[id].createdAt <= createdAt ::
      && id in AnchorableIds(c.after, c.now)
      && c.after[id].streamId == d.before[id].streamId
      && c.after[id].createdAt == d.before[id].createdAt
  }

  ghost predicate Waits(t: Table, r: Request) {
    r.id in t && t[r.id].status == PENDING && SameIdentity(r, t[r.id])
  }

  ghost predicate Marks(c: Call, r: Request) {
    Waits(c.before, r) && r.id in c.after && c.after[r.id].status == READY
  }

  /** The request stays PENDING until a call marks it. */
  ghost predicate StaysPending(calls: seq<Call>, r: Request) {
    && calls != []
    && Waits(calls[0].before, r)
    && forall i | 0 <= i < |calls| - 1 && Waits(calls[i].before, r) && !Marks(calls[i], r) ::
         Waits(calls[i + 1].before, r)
  }

  /** One call either marks the request or takes `maxStreams` streams that were ahead of it. */
  lemma CallProgress(c: Call, r: Request, maxStreams: nat, maxAnchoringDelay: int)
    requires ValidCall(c, maxStreams, maxAnchoringDelay)
    requires Waits(c.before, r) && r.createdAt < c.now - maxAnchoringDelay
    ensures Marks(c, r) || (maxStreams > 0 && |c.batch| == maxStreams && c.batch <= Ahead(c.before, c.now, r))
  {
    var t := c.before;
    var streams := StreamsToAnchor(t, c.now);
    assert r.id in AnchorableIds(t, c.now);
    assert MinCreatedAt(t, c.now, r.streamId) <= r.createdAt;
    assert c.batch != {};
    if r.streamId !in c.batch {
      if |streams| == Limited(maxStreams, |streams|) {
        Subset(c.batch, streams);
        assert false;
      }
      forall s | s in c.batch
        ensures s in Ahead(t, c.now, r)
      {
        var id :| id in AnchorableIds(t, c.now) && t[id].streamId == s && t[id].createdAt == MinCreatedAt(t, c.now, s);
      }
    }
  }

  /** The streams a call takes are not ahead any more at the next one; only those that joined are new. */
  lemma AheadShrinks(c: Call, d: Call, r: Request, maxStreams: nat, maxAnchoringDelay: int)
    requires ValidCall(c, maxStreams, maxAnchoringDelay) && c.batch <= Ahead(c.before, c.now, r)
    ensures |Ahead(d.before, d.now, r)| <= |Ahead(c.before, c.now, r)| - |c.batch| + |Joined(c, d, r)|
  {
    var was, left := Ahead(c.before, c.now, r), Ahead(c.after, c.now, r);
    forall s | s in left
      ensures s in was - c.batch
    {
      var id :| id in AnchorableIds(c.after, c.now) && c.after[id].createdAt <= r.createdAt
                && c.after[id].streamId == s;
      assert id !in AnchorableInStreams(c.before, c.now, c.batch);
      assert c.after[id] == c.before[id];
    }
    Subset(left, was - c.batch);
    assert |was - c.batch| == |was| - |c.batch|;
    Subset(Ahead(d.before, d.now, r), left + Joined(c, d, r));
  }

  /** The streams ahead at the first of the calls, and those that join them. */
  function Obstacles(calls: seq<Call>, r: Request): nat
    requires calls != []
  {
    |Ahead(calls[0].before, calls[0].now, r)| + JoinedIn(calls, r)
  }

  /** `n` calls that take `m` streams each are more than enough for `k` streams. */
  predicate Enough(k: nat, n: nat, m: nat) {
    m > 0 ==> k < n * m
  }

  lemma EnoughRest(k: nat, rest: nat, n: nat, m: nat)
    requires m > 0 && n > 0 && Enough(k, n, m) && rest + m <= k
    ensures n > 1 && Enough(rest, n - 1, m)
  {
    assert n * m == (n - 1) * m + m;
  }

  lemma ObstaclesShrink(calls: seq<Call>, r: Request, maxStreams: nat, maxAnchoringDelay: int)
    requires |calls| >= 2 && ValidCall(calls[0], maxStreams, maxAnchoringDelay)
    requires calls[0].batch <= Ahead(calls[0].before, calls[0].now, r)
    ensures Obstacles(calls[1..], r) + |calls[0].batch| <= Obstacles(calls, r)
  {
    AheadShrinks(calls[0], calls[1], r, maxStreams, maxAnchoringDelay);
  }

  lemma {:induction false} MarkedInTime(calls: seq<Call>, r: Request, maxStreams: nat, maxAnchoringDelay: int)
    requires StaysPending(calls, r)
    requires forall i | 0 <= i < |calls| :: ValidCall(calls[i], maxStreams, maxAnchoringDelay)
    requires forall i | 0 <= i < |calls| :: r.createdAt < calls[i].now - maxAnchoringDelay
    requires Enough(Obstacles(calls, r), |calls|, maxStreams)
    ensures exists i | 0 <= i < |calls| :: Marks(calls[i], r)
    decreases |calls|
  {
    var c := calls[0];
    CallProgress(c, r, maxStreams, maxAnchoringDelay);
    if !Marks(c, r) {
      var rest := calls[1..];
      TakenAhead(c, r);
      if rest == [] {
        EnoughRest(Obstacles(calls, r), Obstacles(calls, r) - maxStreams, 1, maxStreams);
      }
      ObstaclesShrink(calls, r, maxStreams, maxAnchoringDelay);
      EnoughRest(Obstacles(calls, r), Obstacles(rest, r), |calls|, maxStreams);
      assert forall i | 0 <= i < |rest| :: rest[i] == calls[i + 1];
      MarkedInTime(rest, r, maxStreams, maxAnchoringDelay);
      var i :| 0 <= i < |rest| && Marks(rest[i], r);
      assert Marks(calls[i + 1], r);
    }
  }

  lemma TakenAhead(c: Call, r: Request)
    requires c.batch <= Ahead(c.before, c.now, r)
    ensures |c.batch| <= |Ahead(c.before, c.now, r)|
  {
    Subset(c.batch, Ahead(c.before, c.now, r));
  }

  /**
   * With `k` streams ahead of it, and `j` that join them in the meantime, an overdue request is marked within
   * (k + j) / maxStreams + 1 calls: every re-entry costs at most one place.
   */
  lemma NoStarvation(calls: seq<Call>, r: Request, maxStreams: nat, maxAnchoringDelay: int)
    requires StaysPending(calls, r)
    requires forall i | 0 <= i < |calls| :: ValidCall(calls[i], maxStreams, maxAnchoringDelay)
    requires forall i | 0 <= i < |calls| :: r.createdAt < calls[i].now - maxAnchoringDelay
    requires maxStreams > 0 ==> |calls| >= Obstacles(calls, r) / maxStreams + 1
    ensures exists i | 0 <= i < |calls| :: Marks(calls[i], r)
  {
    if maxStreams > 0 {
      EnoughCalls(Obstacles(calls, r), maxStreams, |calls|);
    }
    MarkedInTime(calls, r, maxStreams, maxAnchoringDelay);
  }

  lemma {:induction false} NoneJoins(calls: seq<Call>, r: Request)
    requires forall i | 0 <= i < |calls| - 1 :: NoReentry(calls[i], calls[i + 1], r.createdAt)
    ensures JoinedIn(calls, r) == 0
    decreases |calls|
  {
    if |calls| >= 2 {
      var rest := calls[1..];
      assert forall i | 0 <= i < |rest| :: rest[i] == calls[i + 1];
      NoneJoins(rest, r);
      assert NoReentry(calls[0], calls[1], r.createdAt);
      forall s | s in Ahead(calls[1].before, calls[1].now, r)
        ensures s in Ahead(calls[0].after, calls[0].now, r)
      {
      }
      assert Joined(calls[0], calls[1], r) == {};
    }
  }

  /** Where nothing re-enters, `k` streams ahead cost k / maxStreams + 1 calls, despite younger arrivals. */
  lemma NoStarvationWithoutReentry(calls: seq<Call>, r: Request, maxStreams: nat, maxAnchoringDelay: int)
    requires StaysPending(calls, r)
    requires forall i | 0 <= i < |calls| :: ValidCall(calls[i], maxStreams, maxAnchoringDelay)
    requires forall i | 0 <= i < |calls| :: r.createdAt < calls[i].now - maxAnchoringDelay
    requires forall i | 0 <= i < |calls| - 1 :: NoReentry(calls[i], calls[i + 1], r.createdAt)
    requires maxStreams > 0 ==> |calls| >= |Ahead(calls[0].before, calls[0].now, r)| / maxStreams + 1
    ensures exists i | 0 <= i < |calls| :: Marks(calls[i], r)
  {
    NoneJoins(calls, r);
    NoStarvation(calls, r, maxStreams, maxAnchoringDelay);
  }

  lemma EnoughCalls(k: nat, m: nat, n: nat)
    requires 0 < m && n >= k / m + 1
    ensures k < n * m
  {
    var q := k / m;
    assert k < q * m + m;
    assert n * m == q * m + m + (n - q - 1) * m;
  }
}
