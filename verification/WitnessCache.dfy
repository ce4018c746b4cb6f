/**
 * Serving witnesses: the witness store and the Merkle CAR cache over S3, and why a client cannot tell which answered.
 */
module WitnessCache {
  import opened Wrappers
  import opened Witness
  import opened Anchors

  // ----- The stores as a state machine -----

  /** The Merkle CAR cache, the S3 bucket behind it, and the witness store. */
  datatype Stores = Stores(carCache: map<Cid, Blocks>, s3: map<Cid, Blocks>, witnesses: map<Cid, Car>)

  /** Each proof CID names one CAR. */
  type Naming = Cid -> Blocks

  /** What a reader gets: nothing, a witness, or the error of a CAR that has none for the anchor. */
  type Answer = Result<Option<Car>, WitnessError>

  /** A row of the anchor table whose commit is in the CAR of its proof. */
  ghost predicate ValidRow(hash: Hasher, named: Naming, a: FreshAnchor) {
    IsCommitOf(hash, named, a.cid, a.proofCid)
  }

  ghost predicate IsCommitOf(hash: Hasher, named: Naming, cid: Cid, proofCid: Cid) {
    && ContentAddressed(hash, named(proofCid))
    && cid in named(proofCid) && named(proofCid)[cid].AnchorCommit?
    && named(proofCid)[cid].proof == proofCid
  }

  datatype Event =
    | StoreCar(proofCid: Cid, accepted: bool)
    | StoreWitness(anchor: FreshAnchor, accepted: bool)
    | EvictCar(proofCid: Cid)
    | EvictWitness(cid: Cid)
    | Read(anchor: FreshAnchor, witnessRead: bool, s3Read: bool, accepted: bool, answer: Answer)

  function PutWitness(s: Stores, cid: Cid, w: Result<Car, WitnessError>, accepted: bool): Stores {
    if accepted && w.Ok? then s.(witnesses := s.witnesses[cid := w.value]) else s
  }

  /** The CAR is cached before it is put in S3, and stays cached when S3 refuses it. */
  function PutCar(s: Stores, proofCid: Cid, car: Blocks, accepted: bool): Stores {
    s.(carCache := s.carCache[proofCid := car], s3 := if accepted then s.s3[proofCid := car] else s.s3)
  }

  /** `retrieveCarFile`: a CAR read from S3 is not cached. */
  function RetrieveCar(s: Stores, proofCid: Cid, s3Read: bool): Option<Blocks> {
    if proofCid in s.carCache then Some(s.carCache[proofCid])
    else if s3Read && proofCid in s.s3 then Some(s.s3[proofCid])
    else None
  }

  function FindWitness(s: Stores, cid: Cid, witnessRead: bool): Option<Car> {
    if witnessRead && cid in s.witnesses then Some(s.witnesses[cid]) else None
  }

  /** `witnessCAR`: the stored witness, or one built from the Merkle CAR and then stored. */
  ghost predicate Reads(s: Stores, s': Stores, e: Event)
    requires e.Read?
  {
    var found := FindWitness(s, e.anchor.cid, e.witnessRead);
    var car := RetrieveCar(s, e.anchor.proofCid, e.s3Read);
    if found.Some? then e.answer == Ok(found) && s' == s
    else if car.None? then e.answer == Ok(None) && s' == s
    else
      var built := Build(e.anchor.cid, car.value);
      && e.answer == (if built.Ok? then Ok(Some(built.value)) else Err(built.error))
      && s' == PutWitness(s, e.anchor.cid, built, e.accepted)
  }

  ghost predicate Next(hash: Hasher, named: Naming, s: Stores, s': Stores, e: Event) {
    match e
    case StoreCar(proofCid, accepted) => s' == PutCar(s, proofCid, named(proofCid), accepted)
    case StoreWitness(anchor, accepted) =>
      && ValidRow(hash, named, anchor)
      && s' == PutWitness(s, anchor.cid, Build(anchor.cid, named(anchor.proofCid)), accepted)
    case EvictCar(proofCid) => s' == s.(carCache := s.carCache - {proofCid})
    case EvictWitness(cid) => s' == s.(witnesses := s.witnesses - {cid})
    case Read(anchor, _, _, _, _) => ValidRow(hash, named, anchor) && Reads(s, s', e)
  }

  ghost predicate Run(hash: Hasher, named: Naming, ss: seq<Stores>, events: seq<Event>) {
    && |ss| == |events| + 1
    && ss[0] == Stores(map[], map[], map[])
    && forall i | 0 <= i < |events| :: StepAt(hash, named, ss, events, i)
  }

  ghost predicate StepAt(hash: Hasher, named: Naming, ss: seq<Stores>, events: seq<Event>, i: int)
    requires 0 <= i < |events| < |ss|
  {
    Next(hash, named, ss[i], ss[i + 1], events[i])
  }

  // ----- Invariant -----

  /** The witness at `cid` is the one its proof's CAR yields. */
  ghost predicate WitnessFrom(hash: Hasher, named: Naming, cid: Cid, w: Car) {
    exists p :: IsCommitOf(hash, named, cid, p) && Build(cid, named(p)) == Ok(w)
  }

  ghost predicate Consistent(hash: Hasher, named: Naming, s: Stores) {
    && (forall p | p in s.carCache :: s.carCache[p] == named(p))
    && (forall p | p in s.s3 :: s.s3[p] == named(p))
    && (forall cid | cid in s.witnesses :: WitnessFrom(hash, named, cid, s.witnesses[cid]))
  }

  /** A commit belongs to one proof, so a witness kept for its CID can only come from that proof's CAR. */
  lemma OneProof(hash: Hasher, named: Naming, cid: Cid, p: Cid, q: Cid)
    requires Injective(hash) && IsCommitOf(hash, named, cid, p) && IsCommitOf(hash, named, cid, q)
    ensures p == q
  {
  }

  lemma PutKeepsConsistent(hash: Hasher, named: Naming, s: Stores, cid: Cid, p: Cid, accepted: bool)
    requires Consistent(hash, named, s) && IsCommitOf(hash, named, cid, p)
    ensures Consistent(hash, named, PutWitness(s, cid, Build(cid, named(p)), accepted))
  {
  }

  lemma CarKeepsConsistent(hash: Hasher, named: Naming, s: Stores, p: Cid, accepted: bool)
    requires Consistent(hash, named, s)
    ensures Consistent(hash, named, PutCar(s, p, named(p), accepted))
  {
  }

  /** Whatever is evicted, and whenever. */
  lemma FewerKeepsConsistent(hash: Hasher, named: Naming, s: Stores, s': Stores)
    requires Consistent(hash, named, s) && s'.s3 == s.s3
    requires s'.carCache.Keys <= s.carCache.Keys && forall p | p in s'.carCache :: s'.carCache[p] == s.carCache[p]
    requires s'.witnesses.Keys <= s.witnesses.Keys && forall c | c in s'.witnesses :: s'.witnesses[c] == s.witnesses[c]
    ensures Consistent(hash, named, s')
  {
  }

  lemma NextKeepsConsistent(hash: Hasher, named: Naming, s: Stores, s': Stores, e: Event)
    requires Consistent(hash, named, s) && Next(hash, named, s, s', e)
    ensures Consistent(hash, named, s')
  {
    match e
    case StoreCar(proofCid, accepted) => CarKeepsConsistent(hash, named, s, proofCid, accepted);
    case StoreWitness(anchor, accepted) => PutKeepsConsistent(hash, named, s, anchor.cid, anchor.proofCid, accepted);
    case EvictCar(_) => FewerKeepsConsistent(hash, named, s, s');
    case EvictWitness(_) => FewerKeepsConsistent(hash, named, s, s');
    case Read(anchor, _, _, accepted, _) => PutKeepsConsistent(hash, named, s, anchor.cid, anchor.proofCid, accepted);
  }

  lemma {:induction false} RunKeepsConsistent(hash: Hasher, named: Naming, ss: seq<Stores>, events: seq<Event>, i: nat)
    requires Run(hash, named, ss, events) && i < |ss|
    ensures Consistent(hash, named, ss[i])
  {
    if i > 0 {
      RunKeepsConsistent(hash, named, ss, events, i - 1);
      assert StepAt(hash, named, ss, events, i - 1);
      NextKeepsConsistent(hash, named, ss[i - 1], ss[i], events[i - 1]);
    }
  }

  // ----- Transparency -----

  /** What building from the named CAR would answer, or nothing when no store has the data. */
  predicate AnswersLikeBuild(named: Naming, a: FreshAnchor, answer: Answer) {
    match answer
    case Ok(Some(w)) => Build(a.cid, named(a.proofCid)) == Ok(w)
    case Ok(None) => true
    case Err(e) => Build(a.cid, named(a.proofCid)) == Err(e)
  }

  lemma ReadIsTransparent(hash: Hasher, named: Naming, s: Stores, s': Stores, e: Event)
    requires Injective(hash) && Consistent(hash, named, s) && e.Read? && Next(hash, named, s, s', e)
    ensures AnswersLikeBuild(named, e.anchor, e.answer)
    ensures e.answer == Ok(None) <==>
              && !(e.witnessRead && e.anchor.cid in s.witnesses)
              && e.anchor.proofCid !in s.carCache && !(e.s3Read && e.anchor.proofCid in s.s3)
  {
    var found := FindWitness(s, e.anchor.cid, e.witnessRead);
    if found.Some? {
      assert WitnessFrom(hash, named, e.anchor.cid, found.value);
      var p :| IsCommitOf(hash, named, e.anchor.cid, p) && Build(e.anchor.cid, named(p)) == Ok(found.value);
      OneProof(hash, named, e.anchor.cid, p, e.anchor.proofCid);
    }
  }

  /** In every run a reader gets what a rebuild from the named CAR gives, whichever store answers. */
  lemma CacheIsTransparent(hash: Hasher, named: Naming, ss: seq<Stores>, events: seq<Event>, i: nat)
    requires Injective(hash) && Run(hash, named, ss, events) && i < |events| && events[i].Read?
    ensures AnswersLikeBuild(named, events[i].anchor, events[i].answer)
  {
    RunKeepsConsistent(hash, named, ss, events, i);
    assert StepAt(hash, named, ss, events, i);
    ReadIsTransparent(hash, named, ss[i], ss[i + 1], events[i]);
  }

  /** S3 loses nothing. */
  lemma StepKeepsS3(hash: Hasher, named: Naming, s: Stores, s': Stores, e: Event)
    requires Next(hash, named, s, s', e)
    ensures s.s3.Keys <= s'.s3.Keys
    ensures e.StoreCar? && e.accepted ==> e.proofCid in s'.s3
  {
  }

  lemma {:induction false} StoredCarStays(hash: Hasher, named: Naming, ss: seq<Stores>, events: seq<Event>, i: nat,
                                          j: nat)
    requires Run(hash, named, ss, events) && i < j < |ss| && events[i].StoreCar? && events[i].accepted
    ensures events[i].proofCid in ss[j].s3
  {
    assert StepAt(hash, named, ss, events, j - 1);
    StepKeepsS3(hash, named, ss[j - 1], ss[j], events[j - 1]);
    if i < j - 1 {
      StoredCarStays(hash, named, ss, events, i, j - 1);
    }
  }

  /** Once S3 has accepted the CAR of a proof, a read to which S3 answers comes back with what a rebuild gives. */
  lemma StoredCarIsServed(hash: Hasher, named: Naming, ss: seq<Stores>, events: seq<Event>, i: nat, j: nat)
    requires Injective(hash) && Run(hash, named, ss, events) && i < j < |events|
    requires events[i].StoreCar? && events[i].accepted
    requires events[j].Read? && events[j].s3Read && events[j].anchor.proofCid == events[i].proofCid
    ensures events[j].answer != Ok(None)
    ensures AnswersLikeBuild(named, events[j].anchor, events[j].answer)
  {
    StoredCarStays(hash, named, ss, events, i, j);
    RunKeepsConsistent(hash, named, ss, events, j);
    assert StepAt(hash, named, ss, events, j);
    ReadIsTransparent(hash, named, ss[j], ss[j + 1], events[j]);
  }

  /** The witness of commit `cid` gets into the store: a batch's, or one that a reader built. */
  predicate Stocks(named: Naming, e: Event, cid: Cid) {
    || (e.StoreWitness? && e.accepted && e.anchor.cid == cid && Build(cid, named(e.anchor.proofCid)).Ok?)
    || (e.Read? && e.accepted && e.anchor.cid == cid && e.answer.Ok? && e.answer.value.Some?)
  }

  lemma StocksStep(hash: Hasher, named: Naming, s: Stores, s': Stores, e: Event, cid: Cid)
    requires Next(hash, named, s, s', e)
    ensures Stocks(named, e, cid) ==> cid in s'.witnesses
    ensures cid in s.witnesses && e != EvictWitness(cid) ==> cid in s'.witnesses
    ensures forall p | e.StoreCar? && e.proofCid == p :: p in s'.carCache
    ensures forall p | p in s.carCache && e != EvictCar(p) :: p in s'.carCache
  {
  }

  lemma {:induction false} StockedStays(hash: Hasher, named: Naming, ss: seq<Stores>, events: seq<Event>,
                                        i: nat, j: nat, cid: Cid)
    requires Run(hash, named, ss, events) && i < j < |ss| && Stocks(named, events[i], cid)
    requires forall k | i < k < j :: events[k] != EvictWitness(cid)
    ensures cid in ss[j].witnesses
  {
    if i < j - 1 {
      StockedStays(hash, named, ss, events, i, j - 1, cid);
    }
    StocksAt(hash, named, ss, events, j - 1, cid);
  }

  lemma StocksAt(hash: Hasher, named: Naming, ss: seq<Stores>, events: seq<Event>, k: nat, cid: Cid)
    requires Run(hash, named, ss, events) && k < |events|
    ensures Stocks(named, events[k], cid) ==> cid in ss[k + 1].witnesses
    ensures cid in ss[k].witnesses && events[k] != EvictWitness(cid) ==> cid in ss[k + 1].witnesses
  {
    assert StepAt(hash, named, ss, events, k);
    StocksStep(hash, named, ss[k], ss[k + 1], events[k], cid);
  }

  /**
   * A witness that was stored and not evicted since is served, whatever has become of its CAR: the answer is the
   * witness that the CAR its proof names gives.
   */
  lemma StoredWitnessIsServed(hash: Hasher, named: Naming, ss: seq<Stores>, events: seq<Event>, i: nat, j: nat)
    requires Injective(hash) && Run(hash, named, ss, events) && i < j < |events|
    requires events[j].Read? && events[j].witnessRead && Stocks(named, events[i], events[j].anchor.cid)
    requires forall k | i < k < j :: events[k] != EvictWitness(events[j].anchor.cid)
    ensures var a := events[j].anchor;
            && Build(a.cid, named(a.proofCid)).Ok?
            && events[j].answer == Ok(Some(Build(a.cid, named(a.proofCid)).value))
  {
    StockedStays(hash, named, ss, events, i, j, events[j].anchor.cid);
    RunKeepsConsistent(hash, named, ss, events, j);
    assert StepAt(hash, named, ss, events, j);
    StockedIsRead(hash, named, ss[j], ss[j + 1], events[j]);
  }

  lemma StockedIsRead(hash: Hasher, named: Naming, s: Stores, s': Stores, e: Event)
    requires Injective(hash) && Consistent(hash, named, s) && e.Read? && Next(hash, named, s, s', e)
    requires e.witnessRead && e.anchor.cid in s.witnesses
    ensures Build(e.anchor.cid, named(e.anchor.proofCid)) == Ok(s.witnesses[e.anchor.cid])
    ensures e.answer == Ok(Some(s.witnesses[e.anchor.cid]))
  {
    ReadIsTransparent(hash, named, s, s', e);
  }

  lemma {:induction false} CachedCarStays(hash: Hasher, named: Naming, ss: seq<Stores>, events: seq<Event>,
                                          i: nat, j: nat)
    requires Run(hash, named, ss, events) && i < j < |ss| && events[i].StoreCar?
    requires forall k | i < k < j :: events[k] != EvictCar(events[i].proofCid)
    ensures events[i].proofCid in ss[j].carCache
  {
    assert StepAt(hash, named, ss, events, j - 1);
    StocksStep(hash, named, ss[j - 1], ss[j], events[j - 1], events[i].proofCid);
    if i < j - 1 {
      CachedCarStays(hash, named, ss, events, i, j - 1);
    }
  }

  /** A CAR that is cached serves readers without S3, even one that S3 refused. */
  lemma CachedCarIsServed(hash: Hasher, named: Naming, ss: seq<Stores>, events: seq<Event>, i: nat, j: nat)
    requires Injective(hash) && Run(hash, named, ss, events) && i < j < |events|
    requires events[i].StoreCar? && events[j].Read? && events[j].anchor.proofCid == events[i].proofCid
    requires forall k | i < k < j :: events[k] != EvictCar(events[i].proofCid)
    ensures events[j].answer != Ok(None)
    ensures AnswersLikeBuild(named, events[j].anchor, events[j].answer)
  {
    CachedCarStays(hash, named, ss, events, i, j);
    RunKeepsConsistent(hash, named, ss, events, j);
    assert StepAt(hash, named, ss, events, j);
    ReadIsTransparent(hash, named, ss[j], ss[j + 1], events[j]);
  }

  /** For a row that proves its request, a witness that is read verifies and links the request's own commit. */
  lemma ReadVerifies(hash: Hasher, named: Naming, s: Stores, s': Stores, e: Event, stream: Cid, prev: Cid)
    requires Injective(hash) && Consistent(hash, named, s) && e.Read? && Next(hash, named, s, s', e)
    requires Proven(named(e.anchor.proofCid), e.anchor, stream, prev)
    ensures e.answer.Ok?
    ensures e.answer.value.Some? ==> ProvesCommit(e.answer.value.value, e.anchor.cid, stream, prev)
  {
    ReadIsTransparent(hash, named, s, s', e);
    if e.answer.value.Some? {
      AcceptedIsCompleted(e.answer.value.value);
      BuildPreservesWalk(e.anchor.cid, named(e.anchor.proofCid));
    }
  }

  /** The witness verifies for the anchor commit `cid`, and that links the commit `prev` of the stream. */
  predicate ProvesCommit(w: Car, cid: Cid, stream: Cid, prev: Cid) {
    Verify(w) == Ok(cid) && Linked(w) && CommitOf(w).id == stream && CommitOf(w).prev == prev
  }

  /** For a row that proves its request, a served witness verifies and links the request's own commit. */
  lemma ServedWitnessVerifies(hash: Hasher, named: Naming, ss: seq<Stores>, events: seq<Event>, i: nat,
                             stream: Cid, prev: Cid)
    requires Injective(hash) && Run(hash, named, ss, events) && i < |events| && events[i].Read?
    requires Proven(named(events[i].anchor.proofCid), events[i].anchor, stream, prev)
    ensures events[i].answer.Ok?
    ensures events[i].answer.value.Some? ==>
              ProvesCommit(events[i].answer.value.value, events[i].anchor.cid, stream, prev)
  {
    RunKeepsConsistent(hash, named, ss, events, i);
    assert StepAt(hash, named, ss, events, i);
    ReadVerifies(hash, named, ss[i], ss[i + 1], events[i], stream, prev);
  }
}
