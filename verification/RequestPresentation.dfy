/** The services behind a client's view of a request, each proved against the stores' state machine. */
module RequestPresentation {
  import opened Wrappers
  import opened Witness
  import opened Requests
  import opened Anchors
  import opened WitnessCache

  class MerkleCarService {
    var cache: map<Cid, Blocks>
    var s3: map<Cid, Blocks>

    constructor ()
      ensures cache == map[] && s3 == map[]
    {
      cache, s3 := map[], map[];
    }

    /** The two stores, as a part of all stores; the witnesses are not here. */
    function Contents(): Stores
      reads this
    {
      Stores(cache, s3, map[])
    }

    /** A CAR that S3 refuses stays cached, although the batch fails. */
    method StoreCarFile(proofCid: Cid, car: Blocks, s3Accepts: bool) returns (stored: bool)
      modifies this
      ensures Contents() == PutCar(old(Contents()), proofCid, car, s3Accepts)
      ensures stored <==> s3Accepts
      ensures RetrieveCar(Contents(), proofCid, false) == Some(car)
    {
      cache := cache[proofCid := car];
      if s3Accepts {
        s3 := s3[proofCid := car];
      }
      stored := s3Accepts;
    }

    method RetrieveCarFile(proofCid: Cid, s3Answers: bool) returns (car: Option<Blocks>)
      ensures car == RetrieveCar(Contents(), proofCid, s3Answers)
      ensures car.Some? <==> proofCid in cache || (s3Answers && proofCid in s3)
      ensures proofCid in cache ==> car == Some(cache[proofCid])
      ensures proofCid !in cache && s3Answers && proofCid in s3 ==> car == Some(s3[proofCid])
    {
      if proofCid in cache {
        return Some(cache[proofCid]);
      }
      if s3Answers && proofCid in s3 {
        return Some(s3[proofCid]);
      }
      return None;
    }
  }

  class WitnessService {
    var cache: map<Cid, Car>

    constructor ()
      ensures cache == map[]
    {
      cache := map[];
    }

    method Fetch(anchorCommitCid: Cid, answers: bool) returns (w: Option<Car>)
      ensures w == FindWitness(Stores(map[], map[], cache), anchorCommitCid, answers)
      ensures w.Some? <==> answers && anchorCommitCid in cache
      ensures w.Some? ==> w.value == cache[anchorCommitCid]
    {
      return if answers && anchorCommitCid in cache then Some(cache[anchorCommitCid]) else None;
    }

    /** A store that fails is logged and otherwise ignored. */
    method Store(anchorCommitCid: Cid, w: Car, accepts: bool)
      modifies this
      ensures cache == if accepts then old(cache)[anchorCommitCid := w] else old(cache)
    {
      if accepts {
        cache := cache[anchorCommitCid := w];
      }
    }
  }

  datatype StatusName = NamePending | NameProcessing | NameReady | NameReplaced | NameFailed | NameCompleted

  function NameFromStatus(status: RequestStatus): StatusName {
    match status
    case REPLACED => NameReplaced
    case FAILED => NameFailed
    case PENDING => NamePending
    case PROCESSING => NameProcessing
    case READY => NameReady
    case COMPLETED => NameReady
  }

  /** `anchorCommit` and `witnessCar` are only there for a completed request. */
  datatype CasResponse = CasResponse(
    id: RequestId,
    status: StatusName,
    cid: Cid,
    streamId: StreamId,
    message: Message,
    anchorCommit: Option<Cid>,
    witnessCar: Option<Car>)

  class RequestPresentationService {
    const anchorRepository: AnchorRepository
    const merkleCarService: MerkleCarService
    const witnessService: WitnessService

    constructor (anchorRepository: AnchorRepository, merkleCarService: MerkleCarService, witnessService: WitnessService)
      ensures this.anchorRepository == anchorRepository
      ensures this.merkleCarService == merkleCarService && this.witnessService == witnessService
    {
      this.anchorRepository, this.merkleCarService := anchorRepository, merkleCarService;
      this.witnessService := witnessService;
    }

    function Contents(): Stores
      reads merkleCarService, witnessService
    {
      Stores(merkleCarService.cache, merkleCarService.s3, witnessService.cache)
    }

    /** `witnessCAR`: a read of the stores, and nothing without an anchor. */
    method WitnessCar(anchor: Option<FreshAnchor>, witnessRead: bool, s3Read: bool, accepted: bool)
      returns (answer: Answer)
      modifies witnessService
      ensures anchor.None? ==> answer == Ok(None) && Contents() == old(Contents())
      ensures anchor.Some? ==> Reads(old(Contents()), Contents(),
                                     Read(anchor.value, witnessRead, s3Read, accepted, answer))
      ensures anchor.Some? && witnessRead && anchor.value.cid in old(witnessService.cache) ==>
                && answer == Ok(Some(old(witnessService.cache)[anchor.value.cid]))
                && witnessService.cache == old(witnessService.cache)
      ensures anchor.Some? && !(witnessRead && anchor.value.cid in old(witnessService.cache)) ==>
                && (answer == Ok(None) <==>
                      && anchor.value.proofCid !in merkleCarService.cache
                      && !(s3Read && anchor.value.proofCid in merkleCarService.s3))
                && (answer.Ok? && answer.value.Some? ==>
                      witnessService.cache
                      == if accepted then old(witnessService.cache)[anchor.value.cid := answer.value.value]
                         else old(witnessService.cache))
      ensures merkleCarService.Contents() == old(merkleCarService.Contents())
    {
      if anchor.None? {
        return Ok(None);
      }
      var fromCache := witnessService.Fetch(anchor.value.cid, witnessRead);
      if fromCache.Some? {
        return Ok(fromCache);
      }
      var merkleCar := merkleCarService.RetrieveCarFile(anchor.value.proofCid, s3Read);
      if merkleCar.None? {
        return Ok(None);
      }
      var witnessCar := BuildWitness(anchor.value.cid, merkleCar.value);
      if witnessCar.Err? {
        return Err(witnessCar.error);
      }
      witnessService.Store(anchor.value.cid, witnessCar.value, accepted);
      return Ok(Some(witnessCar.value));
    }

    /**
     * `response`: a completed request shows its row's anchor commit, or for want of a row its own CID, and the witness
     * if there is one; any other request shows its status only.
     */
    method Response(request: Request, witnessRead: bool, s3Read: bool, accepted: bool)
      returns (r: Result<CasResponse, WitnessError>)
      modifies witnessService
      ensures request.status != COMPLETED ==>
                && r == Ok(CasResponse(request.id, NameFromStatus(request.status), request.cid, request.streamId,
                                       request.message, None, None))
                && Contents() == old(Contents())
      ensures r.Ok? ==> match request.status
                        case PENDING => r.value.status == NamePending
                        case PROCESSING => r.value.status == NameProcessing
                        case READY => r.value.status == NameReady
                        case FAILED => r.value.status == NameFailed
                        case REPLACED => r.value.status == NameReplaced
                        case COMPLETED => r.value.status == NameCompleted
      ensures request.status == COMPLETED && !HasAnchor(anchorRepository.rows, request.id) ==>
                r == Ok(CasResponse(request.id, NameCompleted, request.cid, request.streamId, request.message,
                                    Some(request.cid), None))
      ensures request.status == COMPLETED && HasAnchor(anchorRepository.rows, request.id) ==>
                exists a, answer ::
                  && a in anchorRepository.rows && a.requestId == request.id
                  && Reads(old(Contents()), Contents(), Read(a, witnessRead, s3Read, accepted, answer))
                  && r == (if answer.Err? then Err(answer.error)
                           else Ok(CasResponse(request.id, NameCompleted, request.cid, request.streamId,
                                               request.message, Some(a.cid), answer.value)))
    {
      if request.status != COMPLETED {
        return Ok(CasResponse(request.id, NameFromStatus(request.status), request.cid, request.streamId,
                              request.message, None, None));
      }
      var anchor := anchorRepository.FindByRequestId(request.id);
      var answer := WitnessCar(anchor, witnessRead, s3Read, accepted);
      if answer.Err? {
        return Err(answer.error);
      }
      var anchorCommit := if anchor.Some? then anchor.value.cid else request.cid;
      return Ok(CasResponse(request.id, NameCompleted, request.cid, request.streamId, request.message,
                            Some(anchorCommit), answer.value));
    }
  }

  /** What became of storing witnesses: the store, and the error that stopped it, if any. */
  datatype Progress = Progress(witnesses: map<Cid, Car>, error: Option<WitnessError>)

  /** Making the witness of an anchor commit, or failing to. */
  type Maker = Cid -> Result<Car, WitnessError>

  function MakerOf(car: Blocks): Maker {
    cid => Build(cid, car)
  }

  /** Storing the witnesses of the first `n` anchors of a batch, in order, up to one that cannot be built. */
  function StoreFirst(witnesses: map<Cid, Car>, anchors: seq<FreshAnchor>, build: Maker, accepted: seq<bool>, n: nat)
    : Progress
    requires n <= |accepted| == |anchors|
  {
    if n == 0 then Progress(witnesses, None)
    else StoreNext(StoreFirst(witnesses, anchors, build, accepted, n - 1), anchors[n - 1].cid, build, accepted[n - 1])
  }

  function StoreNext(p: Progress, cid: Cid, build: Maker, accepted: bool): Progress {
    if p.error.Some? then p
    else
      match build(cid)
      case Ok(w) => p.(witnesses := if accepted then p.witnesses[cid := w] else p.witnesses)
      case Err(e) => p.(error := Some(e))
  }

  lemma {:induction false} StoppedStays(witnesses: map<Cid, Car>, anchors: seq<FreshAnchor>, build: Maker,
                                        accepted: seq<bool>, i: nat, n: nat)
    requires i <= n <= |accepted| == |anchors|
    requires StoreFirst(witnesses, anchors, build, accepted, i).error.Some?
    ensures StoreFirst(witnesses, anchors, build, accepted, n) == StoreFirst(witnesses, anchors, build, accepted, i)
  {
    if i < n {
      StoppedStays(witnesses, anchors, build, accepted, i, n - 1);
    }
  }

  /** `_storeWitnessCARs`: it stops at an anchor whose witness cannot be built, and ignores stores that fail. */
  method StoreWitnessCars(witnesses: WitnessService, anchors: seq<FreshAnchor>, car: Blocks, accepted: seq<bool>)
    returns (error: Option<WitnessError>)
    requires |accepted| == |anchors|
    modifies witnesses
    ensures Progress(witnesses.cache, error)
         == StoreFirst(old(witnesses.cache), anchors, MakerOf(car), accepted, |anchors|)
    ensures exists k: nat | k <= |anchors| ::
              && StopsAt(anchors, MakerOf(car), k, |anchors|, error)
              && Adds(old(witnesses.cache), witnesses.cache, anchors, MakerOf(car), accepted, k)
  {
    ghost var before := witnesses.cache;
    ghost var end := StoredExactly(before, anchors, MakerOf(car), accepted, |anchors|);
    for i := 0 to |anchors|
      invariant Progress(witnesses.cache, None) == StoreFirst(before, anchors, MakerOf(car), accepted, i)
    {
      error := StoreWitness(witnesses, anchors[i].cid, car, accepted[i]);
      if error.Some? {
        StoppedStays(before, anchors, MakerOf(car), accepted, i + 1, |anchors|);
        return;
      }
    }
    return None;
  }

  method StoreWitness(witnesses: WitnessService, cid: Cid, car: Blocks, accepts: bool)
    returns (error: Option<WitnessError>)
    modifies witnesses
    ensures Progress(witnesses.cache, error)
         == StoreNext(Progress(old(witnesses.cache), None), cid, MakerOf(car), accepts)
  {
    var w := BuildWitness(cid, car);
    if w.Err? {
      return Some(w.error);
    }
    witnesses.Store(cid, w.value, accepts);
    return None;
  }

  lemma StoreNextConsistent(hash: Hasher, named: Naming, s: Stores, p: Progress, cid: Cid, proofCid: Cid,
                            accepted: bool)
    requires Consistent(hash, named, s.(witnesses := p.witnesses)) && IsCommitOf(hash, named, cid, proofCid)
    ensures Consistent(hash, named, s.(witnesses := StoreNext(p, cid, MakerOf(named(proofCid)), accepted).witnesses))
  {
    PutKeepsConsistent(hash, named, s.(witnesses := p.witnesses), cid, proofCid, accepted);
  }

  /** Storing the witnesses of a batch keeps the stores consistent. */
  lemma {:induction false} StoreFirstConsistent(hash: Hasher, named: Naming, s: Stores, anchors: seq<FreshAnchor>,
                                                proofCid: Cid, accepted: seq<bool>, n: nat)
    requires Consistent(hash, named, s) && n <= |accepted| == |anchors|
    requires forall i | 0 <= i < |anchors| :: anchors[i].proofCid == proofCid && ValidRow(hash, named, anchors[i])
    ensures var p := StoreFirst(s.witnesses, anchors, MakerOf(named(proofCid)), accepted, n);
            Consistent(hash, named, s.(witnesses := p.witnesses))
  {
    if n > 0 {
      StoreFirstConsistent(hash, named, s, anchors, proofCid, accepted, n - 1);
      var p := StoreFirst(s.witnesses, anchors, MakerOf(named(proofCid)), accepted, n - 1);
      StoreNextConsistent(hash, named, s, p, anchors[n - 1].cid, proofCid, accepted[n - 1]);
    }
  }

  predicate BuildsAt(anchors: seq<FreshAnchor>, build: Maker, i: nat)
    requires i < |anchors|
  {
    build(anchors[i].cid).Ok?
  }

  /** `cid` is the commit of one of the first `n` anchors that the store accepts. */
  ghost predicate IsAccepted(anchors: seq<FreshAnchor>, accepted: seq<bool>, n: nat, cid: Cid)
    requires n <= |accepted| == |anchors|
  {
    exists i | 0 <= i < n :: accepted[i] && anchors[i].cid == cid
  }

  /** Of the first `n` anchors exactly the accepted witnesses are added, as they were made, and the others stay. */
  ghost predicate Adds(before: map<Cid, Car>, after: map<Cid, Car>, anchors: seq<FreshAnchor>, build: Maker,
                       accepted: seq<bool>, n: nat)
    requires n <= |accepted| == |anchors|
  {
    && before.Keys <= after.Keys
    && (forall cid | cid in after :: IsAccepted(anchors, accepted, n, cid) || cid in before)
    && (forall cid | cid in before && !IsAccepted(anchors, accepted, n, cid) :: after[cid] == before[cid])
    && (forall i | 0 <= i < n && accepted[i] ::
          anchors[i].cid in after && build(anchors[i].cid) == Ok(after[anchors[i].cid]))
  }

  /** The first `k` witnesses can be made, and then there is either no other or one that cannot, with `error`. */
  predicate StopsAt(anchors: seq<FreshAnchor>, build: Maker, k: nat, n: nat, error: Option<WitnessError>)
    requires k <= n <= |anchors|
  {
    && (forall i: nat | i < k :: BuildsAt(anchors, build, i))
    && (k < n ==> build(anchors[k].cid).Err? && error == Some(build(anchors[k].cid).error))
    && (k == n ==> error.None?)
  }

  lemma AddsOneMore(before: map<Cid, Car>, after: map<Cid, Car>, anchors: seq<FreshAnchor>, build: Maker,
                    accepted: seq<bool>, n: nat)
    requires n < |accepted| == |anchors| && Adds(before, after, anchors, build, accepted, n)
    requires build(anchors[n].cid).Ok?
    ensures var cid := anchors[n].cid;
            Adds(before, if accepted[n] then after[cid := build(cid).value] else after, anchors, build, accepted, n + 1)
  {
    forall cid
      ensures IsAccepted(anchors, accepted, n + 1, cid)
              <==> IsAccepted(anchors, accepted, n, cid) || (accepted[n] && anchors[n].cid == cid)
    {
    }
  }

  /** What storing does: up to the first witness that cannot be made exactly the accepted ones are added. */
  lemma {:induction false} StoredExactly(witnesses: map<Cid, Car>, anchors: seq<FreshAnchor>, build: Maker,
                                         accepted: seq<bool>, n: nat) returns (k: nat)
    requires n <= |accepted| == |anchors|
    ensures var p := StoreFirst(witnesses, anchors, build, accepted, n);
            && k <= n && StopsAt(anchors, build, k, n, p.error)
            && Adds(witnesses, p.witnesses, anchors, build, accepted, k)
  {
    if n == 0 {
      return 0;
    }
    k := StoredExactly(witnesses, anchors, build, accepted, n - 1);
    var p := StoreFirst(witnesses, anchors, build, accepted, n - 1);
    if p.error.None? && BuildsAt(anchors, build, n - 1) {
      AddsOneMore(witnesses, p.witnesses, anchors, build, accepted, n - 1);
      k := n;
    }
  }

  /** If a witness can be made for each anchor, as in a proven batch, all of them are offered to the store. */
  lemma BuildableAreStored(witnesses: map<Cid, Car>, anchors: seq<FreshAnchor>, build: Maker, accepted: seq<bool>)
    requires |accepted| == |anchors|
    requires forall i: nat | i < |anchors| :: BuildsAt(anchors, build, i)
    ensures var p := StoreFirst(witnesses, anchors, build, accepted, |anchors|);
            p.error.None? && Adds(witnesses, p.witnesses, anchors, build, accepted, |anchors|)
  {
    var k := StoredExactly(witnesses, anchors, build, accepted, |anchors|);
    assert k < |anchors| ==> BuildsAt(anchors, build, k);
  }
}
