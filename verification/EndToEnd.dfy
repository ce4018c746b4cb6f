/** The protocol and the stores in one run: what a client is shown for a completed request. */
module EndToEnd {
  import opened Wrappers
  import opened Witness
  import opened Requests
  import P = AnchorProtocol
  import W = WitnessCache

  /** The tables and CARs as the workers see them, and the stores as readers see them. */
  datatype State = State(p: P.State, w: W.Stores)

  /** `Work` does not concern the stores, `Put` is a worker's CAR that S3 accepts, `Use` is all else the stores do. */
  datatype Step = Work | Put(proofCid: Cid) | Use(event: W.Event)

  ghost predicate Next(c: P.Config, named: W.Naming, s: State, s': State, step: Step) {
    match step
    case Work => P.Next(c, s.p, s'.p) && s'.p.cars == s.p.cars && s'.w == s.w
    case Put(proofCid) =>
      && P.Next(c, s.p, s'.p) && s'.p.cars == s.p.cars[proofCid := named(proofCid)]
      && W.Next(c.hash, named, s.w, s'.w, W.StoreCar(proofCid, true))
    case Use(e) =>
      // A put that S3 refuses fails the batch; what it leaves in the cache is no CAR of the protocol.
      && (e.StoreCar? ==> !e.accepted)
      && W.Next(c.hash, named, s.w, s'.w, e) && s'.p == s.p
  }

  ghost predicate Run(c: P.Config, named: W.Naming, ss: seq<State>, steps: seq<Step>) {
    && |ss| == |steps| + 1
    && P.Init(ss[0].p) && ss[0].w == W.Stores(map[], map[], map[])
    && forall i | 0 <= i < |steps| :: StepAt(c, named, ss, steps, i)
  }

  ghost predicate StepAt(c: P.Config, named: W.Naming, ss: seq<State>, steps: seq<Step>, i: int)
    requires 0 <= i < |steps| < |ss|
  {
    Next(c, named, ss[i], ss[i + 1], steps[i])
  }

  // ----- Invariant -----

  /** The workers' CARs are the ones their proofs name, and S3 has them. */
  ghost predicate CarsStored(named: W.Naming, s: State) {
    forall p | p in s.p.cars :: named(p) == s.p.cars[p] && p in s.w.s3
  }

  ghost predicate Inv(c: P.Config, named: W.Naming, s: State) {
    P.Inv(c, s.p) && W.Consistent(c.hash, named, s.w) && CarsStored(named, s)
  }

  lemma NextKeepsInv(c: P.Config, named: W.Naming, s: State, s': State, step: Step)
    requires Injective(c.hash) && Inv(c, named, s) && Next(c, named, s, s', step)
    ensures Inv(c, named, s')
  {
    if !step.Use? {
      P.NextKeepsInv(c, s.p, s'.p);
    }
    if !step.Work? {
      var e := if step.Use? then step.event else W.StoreCar(step.proofCid, true);
      W.NextKeepsConsistent(c.hash, named, s.w, s'.w, e);
      W.StepKeepsS3(c.hash, named, s.w, s'.w, e);
    }
  }

  lemma {:induction false} RunKeepsInv(c: P.Config, named: W.Naming, ss: seq<State>, steps: seq<Step>, i: nat)
    requires Injective(c.hash) && Run(c, named, ss, steps) && i < |ss|
    ensures Inv(c, named, ss[i])
  {
    if i > 0 {
      RunKeepsInv(c, named, ss, steps, i - 1);
      assert StepAt(c, named, ss, steps, i - 1);
      NextKeepsInv(c, named, ss[i - 1], ss[i], steps[i - 1]);
    }
  }

  // ----- What a client is shown -----

  /**
   * Whatever workers do and whatever caches lose: reading the row of a COMPLETED request never fails, and comes back
   * with a witness whenever S3 answers. A witness that is read verifies, links the commit the request asked to anchor,
   * for the request's own stream, and is the one every other reader gets.
   */
  lemma ClientSeesProof(c: P.Config, named: W.Naming, ss: seq<State>, steps: seq<Step>, i: nat, id: RequestId)
    requires Injective(c.hash) && Run(c, named, ss, steps) && i < |steps|
    requires id in ss[i].p.table && ss[i].p.table[id].status == COMPLETED
    requires steps[i].Use? && steps[i].event.Read?
    requires steps[i].event.anchor in ss[i].p.anchors && steps[i].event.anchor.requestId == id
    ensures var a, answer := steps[i].event.anchor, steps[i].event.answer;
            && (exists k: nat :: P.AnchoredBy(c, ss[i].p, id, k) && ss[i].p.anchors[k] == a)
            && answer.Ok?
            && (steps[i].event.s3Read ==> answer.value.Some?)
            && (answer.value.Some? ==>
                  && W.ProvesCommit(answer.value.value, a.cid, ss[i].p.table[id].streamId.cid, ss[i].p.table[id].cid)
                  && Build(a.cid, named(a.proofCid)) == Ok(answer.value.value)
                  && a.proofCid in answer.value.value.blocks
                  && P.ProofOnChain(c, ss[i].p.chain, answer.value.value.blocks[a.proofCid]))
  {
    RunKeepsInv(c, named, ss, steps, i);
    assert StepAt(c, named, ss, steps, i);
    var s, e := ss[i], steps[i].event;
    P.CompletedIsAnchored(c, s.p, id);
    var k: nat :| P.AnchoredBy(c, s.p, id, k);
    assert s.p.anchors[k] == e.anchor;
    W.ReadVerifies(c.hash, named, s.w, ss[i + 1].w, e, s.p.table[id].streamId.cid, s.p.table[id].cid);
    W.ReadIsTransparent(c.hash, named, s.w, ss[i + 1].w, e);
  }
}
