/** Storing a client's request: it either replaces the older ones of its stream, or is announced on a queue. */
module RequestServices {
  import opened Wrappers
  import opened Witness
  import opened Requests
  import opened RequestRepositories
  import opened Replacement

  datatype RequestAnchorParams = RequestAnchorParams(cid: Cid, streamId: StreamId, timestamp: Option<int>)

  datatype RequestQMessage = RequestQMessage(rid: RequestId, cid: Cid, sid: StreamId, ts: int, crt: int, org: string)

  datatype CreateResult = Stored(request: Request) | AlreadyKnown | NotAnnounced(request: Request)

  /** The row for a client's request; the database provides `id` and the creation time. */
  function PendingRequest(params: RequestAnchorParams, origin: string, id: RequestId, now: int): Request {
    Request(id, params.cid, params.streamId, origin, PENDING, Text("Request is pending."), true,
            params.timestamp.GetOr(now), now, now)
  }

  function QueueMessage(r: Request): RequestQMessage {
    RequestQMessage(r.id, r.cid, r.streamId, r.timestamp, r.createdAt, r.origin)
  }

  /** The row is for what the client asked, and carries the client's own timestamp if there is one. */
  predicate IsFor(r: Request, params: RequestAnchorParams, origin: string, id: RequestId, now: int) {
    && r.id == id && r.cid == params.cid && r.streamId == params.streamId && r.origin == origin
    && r.timestamp == (if params.timestamp.Some? then params.timestamp.value else now)
    && r.createdAt == now && r.updatedAt == now && r.pinned
    && (r.status == PENDING ==> r.message == Text("Request is pending."))
  }

  lemma CreatedIsFor(t: Table, params: RequestAnchorParams, origin: string, id: RequestId, now: int)
    requires ValidTable(t) && id !in t
    ensures IsFor(PendingRequest(params, origin, id, now), params, origin, id, now)
    ensures forall t' | Arrive(t, t', PendingRequest(params, origin, id, now)) && !HasCid(t, params.cid) ::
              id in t' && IsFor(t'[id], params, origin, id, now) && t'.Keys == t.Keys + {id}
  {
    var r := PendingRequest(params, origin, id, now);
    forall t' | Arrive(t, t', r) && !HasCid(t, params.cid)
      ensures id in t' && IsFor(t'[id], params, origin, id, now) && t'.Keys == t.Keys + {id}
    {
      var keep := StoredArrival(t, t', r);
    }
  }

  class RequestService {
    const publishToQueue: bool
    const requestRepository: RequestRepository
    var validationQueue: seq<RequestQMessage>

    constructor (publishToQueue: bool, requestRepository: RequestRepository)
      ensures this.publishToQueue == publishToQueue && this.requestRepository == requestRepository
      ensures validationQueue == []
    {
      this.publishToQueue, this.requestRepository := publishToQueue, requestRepository;
      validationQueue := [];
    }

    /** `create`: a request that is stored but cannot be announced stays in the table. */
    method Create(params: RequestAnchorParams, origin: string, id: RequestId, now: int, queueAccepts: bool)
      returns (result: CreateResult)
      requires requestRepository.Valid() && id !in requestRepository.table
      modifies this, requestRepository
      ensures requestRepository.Valid()
      ensures var request := PendingRequest(params, origin, id, now);
              var t, t' := old(requestRepository.table), requestRepository.table;
              && (if publishToQueue then t' == Insert(t, request) else Arrive(t, t', request))
              && result == (if HasCid(t, params.cid) then AlreadyKnown
                            else if publishToQueue && !queueAccepts then NotAnnounced(request)
                            else Stored(request))
              && validationQueue == old(validationQueue)
                                    + if publishToQueue && result.Stored? then [QueueMessage(request)] else []
      ensures result.AlreadyKnown? <==> exists other :: other in old(requestRepository.table)
                                                        && old(requestRepository.table)[other].cid == params.cid
      ensures result.AlreadyKnown? ==> requestRepository.table == old(requestRepository.table)
      ensures !result.AlreadyKnown? ==>
                && IsFor(result.request, params, origin, id, now) && result.request.status == PENDING
                && id in requestRepository.table && IsFor(requestRepository.table[id], params, origin, id, now)
                && requestRepository.table.Keys == old(requestRepository.table).Keys + {id}
      ensures publishToQueue && !result.AlreadyKnown? ==> requestRepository.table[id] == result.request
      ensures publishToQueue && result.Stored? ==>
                validationQueue == old(validationQueue)
                                   + [RequestQMessage(id, params.cid, params.streamId,
                                                      if params.timestamp.Some? then params.timestamp.value else now,
                                                      now, origin)]
    {
      CreatedIsFor(requestRepository.table, params, origin, id, now);
      var request := PendingRequest(params, origin, id, now);
      var storedRequest := requestRepository.Create(request);
      if storedRequest.None? {
        return AlreadyKnown;
      }
      if publishToQueue {
        if !queueAccepts {
          return NotAnnounced(request);
        }
        validationQueue := validationQueue + [QueueMessage(request)];
      } else {
        var replaced := requestRepository.MarkReplaced(origin, params.streamId, params.cid);
      }
      return Stored(request);
    }
  }

  /**
   * A new request that is older than some pending one of its key is replaced at once, and of the pending ones a newest
   * stays as it is.
   */
  lemma OlderIsReplaced(t: Table, t': Table, params: RequestAnchorParams, origin: string, id: RequestId, now: int,
                        newer: RequestId)
    returns (keep: RequestId)
    requires ValidTable(t) && id !in t && !HasCid(t, params.cid)
    requires Arrive(t, t', PendingRequest(params, origin, id, now))
    requires newer in t && IsPendingFor(t[newer], origin, params.streamId)
    requires t[newer].timestamp > if params.timestamp.Some? then params.timestamp.value else now
    ensures id in t' && t'[id].status == REPLACED && t'[id].message == ReplacedBy(params.cid)
    ensures keep in t && IsPendingFor(t[keep], origin, params.streamId) && keep in t' && t'[keep] == t[keep]
    ensures forall other | other in t && IsPendingFor(t[other], origin, params.streamId) && other != keep ::
              && t[other].timestamp <= t[keep].timestamp
              && other in t' && IsReplaced(t[other], t'[other], params.cid)
  {
    var r := PendingRequest(params, origin, id, now);
    keep := StoredArrival(t, t', r);
    var u := t[id := r];
    assert newer in PendingOf(u, origin, params.streamId) && id in PendingOf(u, origin, params.streamId);
    forall other | other in t && IsPendingFor(t[other], origin, params.streamId)
      ensures other in PendingOf(u, origin, params.streamId)
    {
    }
    UpdatesByColumn(u, StatusOnly(REPLACED), PendingOf(u, origin, params.streamId) - {keep}, 0, params.cid);
  }

  /** A new request that is newer than all pending ones of its key stays pending and replaces every one of them. */
  lemma NewestReplacesOlder(t: Table, t': Table, params: RequestAnchorParams, origin: string, id: RequestId, now: int)
    requires ValidTable(t) && id !in t && !HasCid(t, params.cid)
    requires Arrive(t, t', PendingRequest(params, origin, id, now))
    requires forall other | other in PendingOf(t, origin, params.streamId) ::
               t[other].timestamp < params.timestamp.GetOr(now)
    ensures id in t' && t'[id] == PendingRequest(params, origin, id, now)
    ensures t'[id].cid == params.cid && t'[id].streamId == params.streamId && t'[id].status == PENDING
    ensures forall other | other in t ::
              && other in t'
              && t'[other] == if other in PendingOf(t, origin, params.streamId)
                              then t[other].(status := REPLACED, message := ReplacedBy(params.cid))
                              else t[other]
  {
    var r := PendingRequest(params, origin, id, now);
    var keep := StoredArrival(t, t', r);
    var u := t[id := r];
    assert id in PendingOf(u, origin, params.streamId);
    assert keep == id || keep in PendingOf(t, origin, params.streamId);
  }
}
