/** The request table, and what each SQL statement of the request repository does to it. */
module Requests {
  import opened Wrappers
  import opened Witness

  type RequestId = nat

  datatype StreamId = StreamId(kind: nat, cid: Cid)

  datatype RequestStatus = PENDING | PROCESSING | COMPLETED | FAILED | READY | REPLACED

  datatype Message = Text(text: string) | ReplacedBy(cid: Cid)

  datatype Request = Request(
    id: RequestId,
    cid: Cid,
    streamId: StreamId,
    origin: string,
    status: RequestStatus,
    message: Message,
    pinned: bool,
    timestamp: int,
    createdAt: int,
    updatedAt: int)

  type Table = map<RequestId, Request>

  /** How long a request may stay PROCESSING before it is anchorable again: 3 hours, in milliseconds. */
  const PROCESSING_TIMEOUT: int := 1000 * 60 * 60 * 3

  /** The constraints of the schema: the primary key and the UNIQUE column `cid`. */
  ghost predicate ValidTable(t: Table) {
    && (forall id | id in t :: t[id].id == id)
    && (forall i, j | i in t && j in t && t[i].cid == t[j].cid :: i == j)
  }

  function Ids(rows: seq<Request>): set<RequestId> {
    set r | r in rows :: r.id
  }

  // ----- Selections -----

  function WithStatus(t: Table, status: RequestStatus): set<RequestId> {
    set id | id in t && t[id].status == status
  }

  /** `findRequestsToAnchor`. */
  predicate Anchorable(r: Request, now: int) {
    || r.status == PENDING
    || (r.status == PROCESSING && r.updatedAt < now - PROCESSING_TIMEOUT)
  }

  function AnchorableIds(t: Table, now: int): set<RequestId> {
    set id | id in t && Anchorable(t[id], now)
  }

  /** `findRequestsToAnchorForStreams`. */
  function AnchorableInStreams(t: Table, now: int, streams: set<StreamId>): set<RequestId> {
    set id | id in t && Anchorable(t[id], now) && t[id].streamId in streams
  }

  predicate SameKey(r: Request, origin: string, streamId: StreamId) {
    r.origin == origin && r.streamId == streamId
  }

  function PendingOf(t: Table, origin: string, streamId: StreamId): set<RequestId> {
    set id | id in t && SameKey(t[id], origin, streamId) && t[id].status == PENDING
  }

  // ----- Updates -----

  /** The columns `updateRequests` sets; an absent one is left as it is. */
  datatype Fields = Fields(status: RequestStatus, message: Option<Message>, pinned: Option<bool>)

  function StatusOnly(status: RequestStatus): Fields {
    Fields(status, None, None)
  }

  function Completed(): Fields {
    Fields(COMPLETED, Some(Text("CID successfully anchored.")), Some(true))
  }

  function UpdateRow(r: Request, f: Fields, now: int): Request {
    r.(status := f.status, message := f.message.GetOr(r.message), pinned := f.pinned.GetOr(r.pinned), updatedAt := now)
  }

  function UpdateRequests(t: Table, f: Fields, ids: set<RequestId>, now: int): Table {
    map id | id in t :: if id in ids then UpdateRow(t[id], f, now) else t[id]
  }

  /** The update of `batchProcessing`, which leaves `updatedAt` alone. */
  function StartProcessing(t: Table, ids: set<RequestId>): Table {
    map id | id in t :: if id in ids then t[id].(status := PROCESSING) else t[id]
  }

  /** The update of `markReplaced`, which leaves `updatedAt` alone. */
  function Replace(t: Table, ids: set<RequestId>, newer: Cid): Table {
    map id | id in t :: if id in ids then t[id].(status := REPLACED, message := ReplacedBy(newer)) else t[id]
  }

  // ----- What the updates do, column by column -----

  /** No row comes or goes, and only those with the ids change. */
  ghost predicate OnlyChanges(t: Table, t': Table, ids: set<RequestId>) {
    t'.Keys == t.Keys && forall id | id in t && id !in ids :: t'[id] == t[id]
  }

  /** The columns given are set, and `updatedAt` is; the others keep their values. */
  predicate IsUpdated(r: Request, s: Request, f: Fields, now: int) {
    && SameIdentity(r, s)
    && s.status == f.status && s.updatedAt == now
    && s.message == (if f.message.Some? then f.message.value else r.message)
    && s.pinned == (if f.pinned.Some? then f.pinned.value else r.pinned)
  }

  /** Only the status changes. */
  predicate IsProcessing(r: Request, s: Request) {
    && SameIdentity(r, s) && s.status == PROCESSING
    && s.message == r.message && s.pinned == r.pinned && s.updatedAt == r.updatedAt
  }

  /** Only status and message change. */
  predicate IsReplaced(r: Request, s: Request, newer: Cid) {
    && SameIdentity(r, s) && s.status == REPLACED && s.message == ReplacedBy(newer)
    && s.pinned == r.pinned && s.updatedAt == r.updatedAt
  }

  lemma UpdatesByColumn(t: Table, f: Fields, ids: set<RequestId>, now: int, newer: Cid)
    ensures OnlyChanges(t, UpdateRequests(t, f, ids, now), ids)
    ensures forall id | id in t && id in ids :: IsUpdated(t[id], UpdateRequests(t, f, ids, now)[id], f, now)
    ensures OnlyChanges(t, StartProcessing(t, ids), ids)
    ensures forall id | id in t && id in ids :: IsProcessing(t[id], StartProcessing(t, ids)[id])
    ensures OnlyChanges(t, Replace(t, ids, newer), ids)
    ensures forall id | id in t && id in ids :: IsReplaced(t[id], Replace(t, ids, newer)[id], newer)
  {
  }

  /**
   * What no batch takes: a request that is done, failed, replaced or in a batch already, and one whose batch has not
   * had its three hours.
   */
  predicate StaysOut(r: Request, now: int) {
    r.status in {COMPLETED, FAILED, REPLACED, READY} || (r.status == PROCESSING && now - r.updatedAt <= 10_800_000)
  }

  lemma AnchorableIff(r: Request, now: int)
    ensures Anchorable(r, now) <==> !StaysOut(r, now)
  {
  }

  predicate HasCid(t: Table, c: Cid) {
    exists id | id in t :: t[id].cid == c
  }

  /** The insert of `create`, ignored when the CID is there already. */
  function Insert(t: Table, r: Request): Table {
    if HasCid(t, r.cid) then t else t[r.id := r]
  }

  /** `keep` is a newest pending request of the key: the one `markReplaced` skips with OFFSET 1. */
  predicate IsNewestPending(t: Table, origin: string, streamId: StreamId, keep: RequestId) {
    && keep in PendingOf(t, origin, streamId)
    && forall id | id in PendingOf(t, origin, streamId) :: t[id].timestamp <= t[keep].timestamp
  }

  /** `markReplaced` as a relation: among equal timestamps the database may keep any one. */
  ghost predicate MarkReplaced(t: Table, t': Table, origin: string, streamId: StreamId, newer: Cid) {
    var pending := PendingOf(t, origin, streamId);
    if pending == {} then t' == t
    else exists keep :: IsNewestPending(t, origin, streamId, keep) && t' == Replace(t, pending - {keep}, newer)
  }

  // ----- What every statement keeps -----

  /** No statement changes the identity of a stored request, and none deletes one. */
  ghost predicate Preserves(t: Table, t': Table) {
    && t.Keys <= t'.Keys
    && forall id | id in t :: SameIdentity(t[id], t'[id])
  }

  predicate SameIdentity(r: Request, s: Request) {
    && s.id == r.id
    && s.cid == r.cid
    && s.streamId == r.streamId
    && s.origin == r.origin
    && s.timestamp == r.timestamp
    && s.createdAt == r.createdAt
  }

  lemma PreservesTransitive(t: Table, u: Table, v: Table)
    requires Preserves(t, u) && Preserves(u, v)
    ensures Preserves(t, v)
  {
  }

  lemma UpdatesPreserve(t: Table, f: Fields, ids: set<RequestId>, now: int, newer: Cid)
    ensures Preserves(t, UpdateRequests(t, f, ids, now))
    ensures Preserves(t, StartProcessing(t, ids))
    ensures Preserves(t, Replace(t, ids, newer))
  {
  }

  lemma UpdatesKeepValid(t: Table, t': Table)
    requires ValidTable(t) && Preserves(t, t') && t'.Keys == t.Keys
    ensures ValidTable(t')
  {
  }

  lemma InsertKeepsValid(t: Table, r: Request)
    requires ValidTable(t) && r.id !in t
    ensures ValidTable(Insert(t, r)) && Preserves(t, Insert(t, r))
  {
  }
}
