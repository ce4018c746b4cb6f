/** Anchor proofs, anchor commits, and the anchor table. */
module Anchors {
  import opened Wrappers
  import opened PathLine
  import opened Witness
  import opened MerkleTrees
  import opened Requests

  /** A confirmed Ethereum transaction. */
  datatype Transaction = Transaction(chain: string, txHash: nat, blockNumber: nat, blockTimestamp: nat)

  /** A row of the anchor table, without the columns the database fills in. */
  datatype FreshAnchor = FreshAnchor(requestId: RequestId, proofCid: Cid, path: string, cid: Cid)

  const CONTRACT_TX_TYPE := "f(bytes32)"

  function ConvertEthHashToCid(hash: nat): Cid {
    Digest(hash)
  }

  function ProofRecord(root: Cid, tx: Transaction, useSmartContractAnchors: bool): Record {
    Proof(root, tx.chain, ConvertEthHashToCid(tx.txHash),
          if useSmartContractAnchors then Some(CONTRACT_TX_TYPE) else None)
  }

  function CommitRecord(r: Request, path: seq<PathDirection>, proofCid: Cid): Record {
    AnchorCommit(r.streamId.cid, r.cid, proofCid, Encode(path))
  }

  function AnchorFor(hash: Hasher, r: Request, path: seq<PathDirection>, proofCid: Cid): FreshAnchor {
    FreshAnchor(r.id, proofCid, Encode(path), hash(CommitRecord(r, path, proofCid)))
  }

  // ----- Creating the commits of a batch -----

  /** The requests of a batch are the leaves of its tree, in the tree's order. */
  predicate LeavesOf(requests: seq<Request>, tree: MerkleTree) {
    && |tree.leaves| == |requests| == |tree.paths|
    && forall i | 0 <= i < |requests| :: tree.leaves[i] == requests[i].cid
  }

  function AddCommits(hash: Hasher, blocks: Blocks, requests: seq<Request>, paths: seq<seq<PathDirection>>,
                      proofCid: Cid): Blocks
    requires |paths| == |requests|
  {
    if requests == [] then blocks
    else
      var n := |requests| - 1;
      Put(hash, AddCommits(hash, blocks, requests[..n], paths[..n], proofCid),
          CommitRecord(requests[n], paths[n], proofCid))
  }

  function AnchorsFor(hash: Hasher, requests: seq<Request>, paths: seq<seq<PathDirection>>, proofCid: Cid)
    : (anchors: seq<FreshAnchor>)
    requires |paths| == |requests|
    ensures |anchors| == |requests|
    ensures forall i | 0 <= i < |requests| :: anchors[i] == AnchorFor(hash, requests[i], paths[i], proofCid)
  {
    seq(|requests|, i requires 0 <= i < |requests| => AnchorFor(hash, requests[i], paths[i], proofCid))
  }

  lemma OneMoreCommit(hash: Hasher, blocks: Blocks, requests: seq<Request>, paths: seq<seq<PathDirection>>,
                      proofCid: Cid, n: nat)
    requires |paths| == |requests| && n < |requests|
    ensures AddCommits(hash, blocks, requests[..n + 1], paths[..n + 1], proofCid)
         == Put(hash, AddCommits(hash, blocks, requests[..n], paths[..n], proofCid),
                CommitRecord(requests[n], paths[n], proofCid))
    ensures AnchorsFor(hash, requests[..n + 1], paths[..n + 1], proofCid)
         == AnchorsFor(hash, requests[..n], paths[..n], proofCid) + [AnchorFor(hash, requests[n], paths[n], proofCid)]
  {
    assert requests[..n + 1][..n] == requests[..n] && paths[..n + 1][..n] == paths[..n];
  }

  /**
   * The row and the commit of a request, field by field: the commit is for the request's stream, links the commit to
   * anchor and the proof, and says the path; the row names the request and the commit.
   */
  predicate Anchored(car: Blocks, a: FreshAnchor, r: Request, path: seq<PathDirection>, proofCid: Cid) {
    && a.requestId == r.id && a.proofCid == proofCid && a.path == Encode(path)
    && a.cid in car && car[a.cid].AnchorCommit?
    && car[a.cid].id == r.streamId.cid && car[a.cid].prev == r.cid
    && car[a.cid].proof == proofCid && car[a.cid].path == Encode(path)
  }

  lemma {:induction false} CommitsHeld(hash: Hasher, blocks: Blocks, requests: seq<Request>,
                                       paths: seq<seq<PathDirection>>, proofCid: Cid)
    requires Injective(hash) && |paths| == |requests|
    ensures forall i | 0 <= i < |requests| ::
              Anchored(AddCommits(hash, blocks, requests, paths, proofCid),
                       AnchorFor(hash, requests[i], paths[i], proofCid), requests[i], paths[i], proofCid)
  {
    if requests != [] {
      var n := |requests| - 1;
      CommitsHeld(hash, blocks, requests[..n], paths[..n], proofCid);
      forall i | 0 <= i < n
        ensures Anchored(AddCommits(hash, blocks, requests, paths, proofCid),
                         AnchorFor(hash, requests[i], paths[i], proofCid), requests[i], paths[i], proofCid)
      {
        assert requests[..n][i] == requests[i] && paths[..n][i] == paths[i];
      }
    }
  }

  /** `_createAnchorCommits`: each leaf gets a commit in the CAR and a row to be persisted. */
  method CreateAnchorCommits(hash: Hasher, merkleCar: Blocks, requests: seq<Request>, tree: MerkleTree, proofCid: Cid)
    returns (anchors: seq<FreshAnchor>, car: Blocks)
    requires LeavesOf(requests, tree)
    ensures anchors == AnchorsFor(hash, requests, tree.paths, proofCid)
    ensures car == AddCommits(hash, merkleCar, requests, tree.paths, proofCid)
    ensures |anchors| == |requests|
    ensures Injective(hash) ==>
              forall i | 0 <= i < |requests| :: Anchored(car, anchors[i], requests[i], tree.paths[i], proofCid)
  {
    anchors, car := [], merkleCar;
    for index := 0 to |requests|
      invariant anchors == AnchorsFor(hash, requests[..index], tree.paths[..index], proofCid)
      invariant car == AddCommits(hash, merkleCar, requests[..index], tree.paths[..index], proofCid)
    {
      var commit := CommitRecord(requests[index], tree.paths[index], proofCid);
      OneMoreCommit(hash, merkleCar, requests, tree.paths, proofCid, index);
      car := Put(hash, car, commit);
      anchors := anchors + [FreshAnchor(requests[index].id, proofCid, Encode(tree.paths[index]), hash(commit))];
    }
    assert requests[..|requests|] == requests && tree.paths[..|requests|] == tree.paths;
    if Injective(hash) {
      CommitsHeld(hash, merkleCar, requests, tree.paths, proofCid);
    }
  }

  /** `_createIPFSProof`: the proof says which root is on which chain, in which transaction, and how it got there. */
  method CreateIpfsProof(hash: Hasher, car: Blocks, tx: Transaction, root: Cid, useSmartContractAnchors: bool)
    returns (proofCid: Cid, after: Blocks)
    ensures proofCid == hash(ProofRecord(root, tx, useSmartContractAnchors))
    ensures after == Put(hash, car, ProofRecord(root, tx, useSmartContractAnchors))
    ensures proofCid in after && after[proofCid].Proof?
    ensures after[proofCid].root == root && after[proofCid].chainId == tx.chain
    ensures after[proofCid].txHash == Digest(tx.txHash)
    ensures after[proofCid].txType == if useSmartContractAnchors then Some("f(bytes32)") else None
    ensures after.Keys == car.Keys + {proofCid} && forall c | c in car && c != proofCid :: after[c] == car[c]
  {
    var proof := ProofRecord(root, tx, useSmartContractAnchors);
    proofCid := hash(proof);
    after := Put(hash, car, proof);
  }

  /** The whole content of a batch's CAR: the tree, the proof, and the commits. */
  function BatchBlocks(hash: Hasher, tree: MerkleTree, proof: Record, requests: seq<Request>): Blocks
    requires |tree.paths| == |requests|
  {
    AddCommits(hash, Put(hash, tree.blocks, proof), requests, tree.paths, hash(proof))
  }

  // ----- What a persisted anchor proves -----

  /** The witness extracted for the anchor verifies, and links the stream's commit `prev` to the proof. */
  ghost predicate Proven(blocks: Blocks, a: FreshAnchor, stream: Cid, prev: Cid) {
    && a.cid in blocks && blocks[a.cid].AnchorCommit?
    && blocks[a.cid].id == stream
    && blocks[a.cid].prev == prev
    && blocks[a.cid].proof == a.proofCid
    && blocks[a.cid].path == a.path
    && Build(a.cid, blocks).Ok?
    && Verify(Build(a.cid, blocks).value) == Ok(a.cid)
  }

  lemma {:induction false} AddCommitsExtends(hash: Hasher, blocks: Blocks, requests: seq<Request>,
                                             paths: seq<seq<PathDirection>>, proofCid: Cid)
    requires Injective(hash) && ContentAddressed(hash, blocks) && |paths| == |requests|
    ensures var all := AddCommits(hash, blocks, requests, paths, proofCid);
            && ContentAddressed(hash, all)
            && blocks.Keys <= all.Keys
            && forall i | 0 <= i < |requests| :: Holds(hash, all, CommitRecord(requests[i], paths[i], proofCid))
  {
    if requests != [] {
      var n := |requests| - 1;
      AddCommitsExtends(hash, blocks, requests[..n], paths[..n], proofCid);
      var before := AddCommits(hash, blocks, requests[..n], paths[..n], proofCid);
      PutExtends(hash, before, CommitRecord(requests[n], paths[n], proofCid));
      forall i | 0 <= i < n
        ensures Holds(hash, before, CommitRecord(requests[i], paths[i], proofCid))
      {
        assert requests[..n][i] == requests[i] && paths[..n][i] == paths[i];
      }
    }
  }

  predicate Holds(hash: Hasher, blocks: Blocks, r: Record) {
    hash(r) in blocks && blocks[hash(r)] == r
  }

  /** A commit whose proof names a root and whose path leads from there to its `prev` verifies. */
  lemma CommitProven(hash: Hasher, blocks: Blocks, r: Request, path: seq<PathDirection>, proof: Record)
    requires Injective(hash) && proof.Proof?
    requires Holds(hash, blocks, proof) && Holds(hash, blocks, CommitRecord(r, path, hash(proof)))
    requires LeadsTo(blocks, proof.root, path, r.cid)
    ensures Proven(blocks, AnchorFor(hash, r, path, hash(proof)), r.streamId.cid, r.cid)
  {
    var c := hash(CommitRecord(r, path, hash(proof)));
    RoundTrip(path);
    LinkedCids(blocks, c, path);
    var w := Walk(blocks, Some(blocks[proof.root]), path);
    LastOfConcat([c, hash(proof), proof.root], w.yielded);
    BuildPreservesWalk(c, blocks);
    BuiltWitnessVerifies(c, blocks);
  }

  lemma LastOfConcat(a: seq<Cid>, b: seq<Cid>)
    requires b != []
    ensures Last(a + b) == Last(b)
  {
  }

  /** Every commit of a batch is proven in the batch's CAR. */
  lemma BatchProven(hash: Hasher, tree: MerkleTree, proof: Record, requests: seq<Request>, i: nat)
    requires Injective(hash) && ValidTree(hash, tree) && LeavesOf(requests, tree)
    requires proof.Proof? && proof.root == tree.root && i < |requests|
    ensures var blocks := BatchBlocks(hash, tree, proof, requests);
            Proven(blocks, AnchorFor(hash, requests[i], tree.paths[i], hash(proof)),
                   requests[i].streamId.cid, requests[i].cid)
  {
    var blocks := BatchBlocks(hash, tree, proof, requests);
    BatchAddressed(hash, tree, proof, requests);
    var withProof := Put(hash, tree.blocks, proof);
    AddCommitsExtends(hash, withProof, requests, tree.paths, hash(proof));
    ContentAddressedAgree(hash, tree.blocks, blocks);
    LeadsToInMore(tree.blocks, blocks, tree.root, tree.paths[i], tree.leaves[i]);
    CommitProven(hash, blocks, requests[i], tree.paths[i], proof);
  }

  lemma BatchAddressed(hash: Hasher, tree: MerkleTree, proof: Record, requests: seq<Request>)
    requires Injective(hash) && ContentAddressed(hash, tree.blocks) && |tree.paths| == |requests|
    ensures var blocks := BatchBlocks(hash, tree, proof, requests);
            && ContentAddressed(hash, blocks)
            && tree.blocks.Keys <= blocks.Keys
            && Holds(hash, blocks, proof)
  {
    var withProof := Put(hash, tree.blocks, proof);
    PutExtends(hash, tree.blocks, proof);
    AddCommitsExtends(hash, withProof, requests, tree.paths, hash(proof));
    ContentAddressedAgree(hash, withProof, BatchBlocks(hash, tree, proof, requests));
  }

  // ----- The anchor table -----

  predicate HasAnchor(rows: seq<FreshAnchor>, id: RequestId) {
    exists i | 0 <= i < |rows| :: rows[i].requestId == id
  }

  /** The UNIQUE column `request_id`. */
  ghost predicate OnePerRequest(rows: seq<FreshAnchor>) {
    forall i, j | 0 <= i < j < |rows| :: rows[i].requestId != rows[j].requestId
  }

  /** INSERT ... ON CONFLICT (request_id) DO NOTHING. */
  function InsertAnchors(rows: seq<FreshAnchor>, anchors: seq<FreshAnchor>): seq<FreshAnchor> {
    if anchors == [] then rows
    else
      var n := |anchors| - 1;
      var before := InsertAnchors(rows, anchors[..n]);
      if HasAnchor(before, anchors[n].requestId) then before else before + [anchors[n]]
  }

  /** The insert adds rows behind the ones there, keeps one per request, and leaves no request of the batch without. */
  lemma {:induction false} InsertAnchorsCorrect(rows: seq<FreshAnchor>, anchors: seq<FreshAnchor>)
    requires OnePerRequest(rows)
    ensures var rows' := InsertAnchors(rows, anchors);
            && OnePerRequest(rows')
            && rows <= rows'
            && (forall i | |rows| <= i < |rows'| :: rows'[i] in anchors)
            && (forall a | a in anchors :: HasAnchor(rows', a.requestId))
            && (forall id :: HasAnchor(rows, id) ==> HasAnchor(rows', id))
  {
    if anchors != [] {
      var n := |anchors| - 1;
      InsertAnchorsCorrect(rows, anchors[..n]);
      var before := InsertAnchors(rows, anchors[..n]);
      var rows' := InsertAnchors(rows, anchors);
      AnchorsStay(before, rows');
      forall a | a in anchors
        ensures HasAnchor(rows', a.requestId)
      {
        if a !in anchors[..n] {
          assert a == anchors[n];
          assert rows' != before ==> rows'[|before|].requestId == a.requestId;
        }
      }
    }
  }

  /** Whatever rows there were, the first `n` anchors of a batch have theirs afterwards. */
  lemma {:induction false} InsertsAll(rows: seq<FreshAnchor>, anchors: seq<FreshAnchor>, n: nat)
    requires n <= |anchors|
    ensures rows <= InsertAnchors(rows, anchors[..n])
    ensures forall i | 0 <= i < n :: HasAnchor(InsertAnchors(rows, anchors[..n]), anchors[i].requestId)
  {
    if n > 0 {
      InsertsAll(rows, anchors, n - 1);
      assert anchors[..n][..n - 1] == anchors[..n - 1];
      var before, after := InsertAnchors(rows, anchors[..n - 1]), InsertAnchors(rows, anchors[..n]);
      AnchorsStay(before, after);
      assert after != before ==> after[|before|].requestId == anchors[n - 1].requestId;
    }
  }

  lemma AnchorsStay(rows: seq<FreshAnchor>, rows': seq<FreshAnchor>)
    requires rows <= rows'
    ensures forall id :: HasAnchor(rows, id) ==> HasAnchor(rows', id)
  {
  }

  class AnchorRepository {
    var rows: seq<FreshAnchor>

    constructor ()
      ensures rows == []
    {
      rows := [];
    }

    /** Inserts one row after the other, ignoring a request that has one; returns how many were inserted. */
    method CreateAnchors(anchors: seq<FreshAnchor>) returns (created: nat)
      modifies this
      ensures rows == InsertAnchors(old(rows), anchors)
      ensures created == |rows| - |old(rows)|
    {
      created := 0;
      for n := 0 to |anchors|
        invariant rows == InsertAnchors(old(rows), anchors[..n])
        invariant |rows| == |old(rows)| + created
      {
        assert anchors[..n + 1][..n] == anchors[..n];
        if !HasAnchor(rows, anchors[n].requestId) {
          rows := rows + [anchors[n]];
          created := created + 1;
        }
      }
      assert anchors[..|anchors|] == anchors;
    }

    method FindByRequestId(requestId: RequestId) returns (found: Option<FreshAnchor>)
      ensures found.Some? <==> HasAnchor(rows, requestId)
      ensures found.Some? ==> found.value in rows && found.value.requestId == requestId
    {
      for i := 0 to |rows|
        invariant forall j | 0 <= j < i :: rows[j].requestId != requestId
      {
        if rows[i].requestId == requestId {
          return Some(rows[i]);
        }
      }
      return None;
    }
  }
}
