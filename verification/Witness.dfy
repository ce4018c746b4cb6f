/** Content-addressed blocks, and the witness that links an anchor commit to its Merkle root. */
module Witness {
  import opened Wrappers
  import opened PathLine

  /** A CID is either a digest or, for the identity multihash, the content itself. */
  datatype Cid = Digest(bits: nat) | Identity(content: Record)

  datatype Record =
    | AnchorCommit(id: Cid, prev: Cid, proof: Cid, path: string)
    | Proof(root: Cid, chainId: string, txHash: Cid, txType: Option<string>)
    | Node(links: seq<Option<Cid>>)
    | Other(payload: string)

  type Blocks = map<Cid, Record>

  datatype Car = Car(roots: seq<Cid>, blocks: Blocks)

  datatype WitnessError =
    | NoRoot
    | NoAnchorCommit
    | NoProof
    | NoMerkleRoot
    | InvalidPath
    | MissingNode
    | Malformed
    | InvalidWitness

  // ----- Hashing -----

  type Hasher = Record -> Cid

  /** The hash is collision free. */
  ghost predicate Injective(hash: Hasher) {
    forall r, s :: hash(r) == hash(s) ==> r == s
  }

  lemma IdentityIsInjective()
    ensures Injective(r => Identity(r))
  {
  }

  ghost predicate ContentAddressed(hash: Hasher, blocks: Blocks) {
    forall c | c in blocks :: hash(blocks[c]) == c
  }

  ghost predicate Agree(a: Blocks, b: Blocks) {
    forall c | c in a && c in b :: a[c] == b[c]
  }

  lemma ContentAddressedAgree(hash: Hasher, a: Blocks, b: Blocks)
    requires Injective(hash) && ContentAddressed(hash, a) && ContentAddressed(hash, b)
    ensures Agree(a, b)
  {
  }

  // ----- Records -----

  function Get(blocks: Blocks, c: Cid): Option<Record> {
    if c in blocks then Some(blocks[c]) else None
  }

  function Restrict(blocks: Blocks, cids: set<Cid>): Blocks {
    map c | c in cids && c in blocks :: blocks[c]
  }

  function CidSet(cids: seq<Cid>): set<Cid> {
    set c | c in cids
  }

  /** `record[p]`: absent when the record is not a node, or the link is missing or null. */
  function Child(record: Record, p: PathDirection): Option<Cid> {
    match record
    case Node(links) => if p.Index() < |links| then links[p.Index()] else None
    case _ => None
  }

  // ----- The walk from a commit to the CID it anchors -----

  /** What a generator did: the CIDs it yielded, and the exception that ended it, if any. */
  datatype Trace = Trace(yielded: seq<Cid>, error: Option<WitnessError>) {
    predicate Completed() {
      error.None?
    }

    function After(prefix: seq<Cid>): Trace {
      Trace(prefix + yielded, error)
    }
  }

  function Walk(blocks: Blocks, current: Option<Record>, path: seq<PathDirection>): Trace
    decreases |path|
  {
    if path == [] then Trace([], None)
    else if current.None? then Trace([], Some(MissingNode))
    else
      match Child(current.value, path[0])
      case None => Trace([], Some(MissingNode))
      case Some(next) => Walk(blocks, Get(blocks, next), path[1..]).After([next])
  }

  function Cids(car: Car): Trace {
    if car.roots == [] then Trace([], Some(NoRoot)) else CommitCids(car.blocks, car.roots[0])
  }

  function CommitCids(blocks: Blocks, c: Cid): Trace {
    if c !in blocks then Trace([c], Some(NoAnchorCommit))
    else if !blocks[c].AnchorCommit? then Trace([c], Some(Malformed))
    else ProofCids(blocks, blocks[c].proof, blocks[c].path).After([c])
  }

  function ProofCids(blocks: Blocks, c: Cid, path: string): Trace {
    if c !in blocks then Trace([], Some(NoProof))
    else if !blocks[c].Proof? then Trace([c], Some(Malformed))
    else RootCids(blocks, blocks[c].root, path).After([c])
  }

  function RootCids(blocks: Blocks, c: Cid, path: string): Trace {
    if c !in blocks then Trace([], Some(NoMerkleRoot))
    else
      match Decode(path)
      case None => Trace([c], Some(InvalidPath))
      case Some(line) => Walk(blocks, Some(blocks[c]), line).After([c])
  }

  /** The generator `cids`, with its loop over `currentCID` and `currentRecord`. */
  method EnumerateCids(car: Car) returns (yielded: seq<Cid>, error: Option<WitnessError>)
    ensures Trace(yielded, error) == Cids(car)
  {
    yielded := [];
    if car.roots == [] {
      return yielded, Some(NoRoot);
    }
    var anchorCommitCid := car.roots[0];
    yielded := yielded + [anchorCommitCid];
    var anchorCommit := Get(car.blocks, anchorCommitCid);
    if anchorCommit.None? {
      return yielded, Some(NoAnchorCommit);
    }
    if !anchorCommit.value.AnchorCommit? {
      return yielded, Some(Malformed);
    }
    var proof := Get(car.blocks, anchorCommit.value.proof);
    if proof.None? {
      return yielded, Some(NoProof);
    }
    yielded := yielded + [anchorCommit.value.proof];
    if !proof.value.Proof? {
      return yielded, Some(Malformed);
    }
    var root := Get(car.blocks, proof.value.root);
    if root.None? {
      return yielded, Some(NoMerkleRoot);
    }
    yielded := yielded + [proof.value.root];
    var path := DecodeLine(anchorCommit.value.path);
    if path.None? {
      return yielded, Some(InvalidPath);
    }
    var walked;
    walked, error := WalkPath(car.blocks, root.value, path.value);
    LinkedCids(car.blocks, anchorCommitCid, path.value);
    return yielded + walked, error;
  }

  /** The loop of `cids`, over `currentCID` and `currentRecord`. */
  method WalkPath(blocks: Blocks, root: Record, path: seq<PathDirection>)
    returns (yielded: seq<Cid>, error: Option<WitnessError>)
    ensures Trace(yielded, error) == Walk(blocks, Some(root), path)
  {
    yielded := [];
    var currentRecord := Some(root);
    assert path[0..] == path;
    for i := 0 to |path|
      invariant Walk(blocks, Some(root), path) == Walk(blocks, currentRecord, path[i..]).After(yielded)
    {
      assert path[i..][0] == path[i] && path[i..][1..] == path[i + 1..];
      if currentRecord.None? {
        return yielded, Some(MissingNode);
      }
      var currentCid := Child(currentRecord.value, path[i]);
      if currentCid.None? {
        return yielded, Some(MissingNode);
      }
      AfterAfter(Walk(blocks, Get(blocks, currentCid.value), path[i + 1..]), yielded, currentCid.value);
      yielded := yielded + [currentCid.value];
      currentRecord := Get(blocks, currentCid.value);
    }
    return yielded, None;
  }

  /** When commit, proof, root and path are all there, the trace is their CIDs and then the walk. */
  lemma LinkedCids(blocks: Blocks, c: Cid, path: seq<PathDirection>)
    requires c in blocks && blocks[c].AnchorCommit?
    requires blocks[c].proof in blocks && blocks[blocks[c].proof].Proof?
    requires var root := blocks[blocks[c].proof].root; root in blocks
    requires Decode(blocks[c].path) == Some(path)
    ensures var root := blocks[blocks[c].proof].root;
            CommitCids(blocks, c) == Walk(blocks, Some(blocks[root]), path).After([c, blocks[c].proof, root])
  {
  }

  lemma AfterAfter(t: Trace, prefix: seq<Cid>, c: Cid)
    ensures t.After([c]).After(prefix) == t.After(prefix + [c])
  {
  }

  // ----- Verification -----

  function Last(s: seq<Cid>): Cid
    requires s != []
  {
    s[|s| - 1]
  }

  /** The first root leads to an anchor commit, and that to a proof. */
  predicate Linked(car: Car) {
    && car.roots != []
    && car.roots[0] in car.blocks
    && car.blocks[car.roots[0]].AnchorCommit?
    && car.blocks[car.roots[0]].proof in car.blocks
    && car.blocks[car.blocks[car.roots[0]].proof].Proof?
  }

  function CommitOf(car: Car): Record
    requires Linked(car)
  {
    car.blocks[car.roots[0]]
  }

  function MerkleRootOf(car: Car): Cid
    requires Linked(car)
  {
    car.blocks[CommitOf(car).proof].root
  }

  /** The walk below the Merkle root of a linked CAR. */
  function PathWalk(car: Car): Trace
    requires Linked(car) && Decode(CommitOf(car).path).Some?
  {
    Walk(car.blocks, Get(car.blocks, MerkleRootOf(car)), Decode(CommitOf(car).path).value)
  }

  lemma CompletedCids(car: Car)
    requires Cids(car).Completed()
    ensures Linked(car) && MerkleRootOf(car) in car.blocks && Decode(CommitOf(car).path).Some?
    ensures PathWalk(car).Completed() && PathWalk(car).yielded != []
    ensures Cids(car).yielded == [car.roots[0], CommitOf(car).proof, MerkleRootOf(car)] + PathWalk(car).yielded
    ensures |PathWalk(car).yielded| == |Decode(CommitOf(car).path).value|
  {
    DecodeThenEncode(CommitOf(car).path);
    WalkLength(car.blocks, Get(car.blocks, MerkleRootOf(car)), Decode(CommitOf(car).path).value);
  }

  function Verify(car: Car): Result<Cid, WitnessError> {
    var t := Cids(car);
    if t.error.Some? then Err(t.error.value)
    else
      CompletedCids(car);
      if Last(t.yielded) == CommitOf(car).prev then Ok(car.roots[0]) else Err(InvalidWitness)
  }

  /** `verify`, overwriting `witnessLink` with each CID the generator yields. */
  method VerifyWitness(car: Car) returns (r: Result<Cid, WitnessError>)
    ensures r == Verify(car)
  {
    var cidsInvolved, error := EnumerateCids(car);
    if cidsInvolved == [] {
      return Err(NoRoot);
    }
    var anchorCommitCid := cidsInvolved[0];
    var witnessLink := anchorCommitCid;
    for i := 1 to |cidsInvolved|
      invariant witnessLink == cidsInvolved[i - 1]
    {
      witnessLink := cidsInvolved[i];
    }
    if error.Some? {
      return Err(error.value);
    }
    CompletedCids(car);
    var anchorCommit := car.blocks[anchorCommitCid];
    if witnessLink != anchorCommit.prev {
      return Err(InvalidWitness);
    }
    return Ok(anchorCommitCid);
  }

  // ----- What verification means, without the generator -----

  /** From `root` on, each step of the path is a link to the next CID; the last one need not be there. */
  predicate IsChain(blocks: Blocks, root: Cid, path: seq<PathDirection>, nodes: seq<Cid>) {
    && |nodes| == |path| + 1 && nodes[0] == root
    && forall i | 0 <= i < |path| :: IsLink(blocks, nodes[i], if path[i].L? then 0 else 1, nodes[i + 1])
  }

  predicate IsLink(blocks: Blocks, from: Cid, k: nat, to: Cid) {
    from in blocks && blocks[from].Node? && k < |blocks[from].links| && blocks[from].links[k] == Some(to)
  }

  /** The commit names a proof and a path, the proof a Merkle root, and from there the path leads to `leaf`. */
  predicate Reaches(car: Car, path: seq<PathDirection>, nodes: seq<Cid>, leaf: Cid) {
    && Linked(car)
    && MerkleRootOf(car) in car.blocks
    && path != [] && CommitOf(car).path == Encode(path)
    && IsChain(car.blocks, MerkleRootOf(car), path, nodes)
    && nodes[|path|] == leaf
  }

  lemma {:induction false} WalkIsChain(blocks: Blocks, c: Cid, path: seq<PathDirection>)
    requires Walk(blocks, Get(blocks, c), path).Completed()
    ensures IsChain(blocks, c, path, [c] + Walk(blocks, Get(blocks, c), path).yielded)
    decreases |path|
  {
    if path != [] {
      var next := Child(blocks[c], path[0]).value;
      WalkIsChain(blocks, next, path[1..]);
      ChainLonger(blocks, c, path, next, Walk(blocks, Get(blocks, next), path[1..]).yielded);
    }
  }

  lemma ChainLonger(blocks: Blocks, c: Cid, path: seq<PathDirection>, next: Cid, rest: seq<Cid>)
    requires path != [] && IsLink(blocks, c, if path[0].L? then 0 else 1, next)
    requires IsChain(blocks, next, path[1..], [next] + rest)
    ensures IsChain(blocks, c, path, [c] + ([next] + rest))
  {
    var longer, shorter := [c] + ([next] + rest), [next] + rest;
    forall i | 0 <= i < |path|
      ensures IsLink(blocks, longer[i], if path[i].L? then 0 else 1, longer[i + 1])
    {
      if i > 0 {
        assert path[i] == path[1..][i - 1] && longer[i] == shorter[i - 1] && longer[i + 1] == shorter[i];
      }
    }
  }

  lemma {:induction false} ChainIsWalk(blocks: Blocks, c: Cid, path: seq<PathDirection>, nodes: seq<Cid>)
    requires IsChain(blocks, c, path, nodes)
    ensures Walk(blocks, Get(blocks, c), path) == Trace(nodes[1..], None)
    decreases |path|
  {
    if path != [] {
      assert IsLink(blocks, nodes[0], if path[0].L? then 0 else 1, nodes[1]);
      forall i | 0 <= i < |path[1..]|
        ensures IsLink(blocks, nodes[1..][i], if path[1..][i].L? then 0 else 1, nodes[1..][i + 1])
      {
        assert IsLink(blocks, nodes[i + 1], if path[i + 1].L? then 0 else 1, nodes[i + 2]);
      }
      ChainIsWalk(blocks, nodes[1], path[1..], nodes[1..]);
      assert [nodes[1]] + nodes[1..][1..] == nodes[1..];
    }
  }

  /** The generator completes exactly when there is such a path, and the last CID it yields is where the path leads. */
  lemma CompletesIff(car: Car)
    ensures Cids(car).Completed() <==> exists path, nodes, leaf :: Reaches(car, path, nodes, leaf)
    ensures forall path, nodes, leaf :: Reaches(car, path, nodes, leaf) ==>
              Cids(car).yielded != [] && leaf == Last(Cids(car).yielded)
  {
    if Cids(car).Completed() {
      CompletedCids(car);
      var path, w := Decode(CommitOf(car).path).value, PathWalk(car).yielded;
      DecodeThenEncode(CommitOf(car).path);
      WalkIsChain(car.blocks, MerkleRootOf(car), path);
      assert Reaches(car, path, [MerkleRootOf(car)] + w, Last(w));
    }
    forall path, nodes, leaf | Reaches(car, path, nodes, leaf)
      ensures Cids(car).Completed() && Cids(car).yielded != [] && leaf == Last(Cids(car).yielded)
    {
      RoundTrip(path);
      ChainIsWalk(car.blocks, MerkleRootOf(car), path, nodes);
      LinkedCids(car.blocks, car.roots[0], path);
    }
  }

  /** `verify` accepts exactly when there is a path of links from the proof's Merkle root to the commit's `prev`. */
  lemma VerifiesIff(car: Car)
    ensures Verify(car).Ok? <==> exists path, nodes :: Linked(car) && Reaches(car, path, nodes, CommitOf(car).prev)
    ensures Verify(car).Ok? ==> Verify(car) == Ok(car.roots[0])
  {
    CompletesIff(car);
    if Verify(car).Ok? {
      CompletedCids(car);
      var path, nodes, leaf :| Reaches(car, path, nodes, leaf);
      assert Reaches(car, path, nodes, CommitOf(car).prev);
    }
    forall path, nodes | Linked(car) && Reaches(car, path, nodes, CommitOf(car).prev)
      ensures Verify(car).Ok?
    {
      CompletedCids(car);
    }
  }

  /** What `verify` throws: the first thing that is missing or malformed, and else that the path ends elsewhere. */
  lemma FailsAs(car: Car)
    ensures Verify(car) == Err(NoRoot) <==> car.roots == []
    ensures Verify(car) == Err(NoAnchorCommit) <==> car.roots != [] && car.roots[0] !in car.blocks
    ensures Verify(car) == Err(NoProof) <==>
              && car.roots != [] && car.roots[0] in car.blocks && car.blocks[car.roots[0]].AnchorCommit?
              && car.blocks[car.roots[0]].proof !in car.blocks
    ensures Verify(car) == Err(NoMerkleRoot) <==> Linked(car) && MerkleRootOf(car) !in car.blocks
    ensures Verify(car) == Err(InvalidPath) <==>
              && Linked(car) && MerkleRootOf(car) in car.blocks
              && forall path | Encode(path) == CommitOf(car).path :: path == []
    ensures Verify(car) == Err(Malformed) <==>
              && !Linked(car) && car.roots != [] && car.roots[0] in car.blocks
              && (car.blocks[car.roots[0]].AnchorCommit? ==> car.blocks[car.roots[0]].proof in car.blocks)
    ensures Verify(car) == Err(InvalidWitness) <==>
              exists path, nodes, leaf :: Reaches(car, path, nodes, leaf) && leaf != CommitOf(car).prev
  {
    EndsElsewhere(car);
    if Linked(car) {
      DecodeAccepts(CommitOf(car).path);
      var decoded := Decode(CommitOf(car).path);
      if decoded.Some? {
        OnlyMissing(car.blocks, Get(car.blocks, MerkleRootOf(car)), decoded.value);
      }
    }
  }

  lemma EndsElsewhere(car: Car)
    ensures Verify(car) == Err(InvalidWitness) ==> Cids(car).Completed()
    ensures Verify(car) == Err(InvalidWitness) <==>
              exists path, nodes, leaf :: Reaches(car, path, nodes, leaf) && leaf != CommitOf(car).prev
  {
    NotInvalid(car);
    CompletesIff(car);
    if Cids(car).Completed() {
      CompletedCids(car);
    }
  }

  /** The generator itself never throws the error of a path that ends elsewhere. */
  lemma NotInvalid(car: Car)
    ensures Cids(car).error != Some(InvalidWitness)
  {
    if Linked(car) && Decode(CommitOf(car).path).Some? {
      OnlyMissing(car.blocks, Get(car.blocks, MerkleRootOf(car)), Decode(CommitOf(car).path).value);
    }
  }

  lemma {:induction false} OnlyMissing(blocks: Blocks, current: Option<Record>, path: seq<PathDirection>)
    ensures Walk(blocks, current, path).error in {None, Some(MissingNode)}
    decreases |path|
  {
    if path != [] && current.Some? && Child(current.value, path[0]).Some? {
      OnlyMissing(blocks, Get(blocks, Child(current.value, path[0]).value), path[1..]);
    }
  }

  // ----- Extraction -----

  /** The witness for commit `c`: the blocks on its walk through `m`, as far as `m` has them. */
  function Build(c: Cid, m: Blocks): Result<Car, WitnessError> {
    var t := CommitCids(m, c);
    if t.error.Some? then Err(t.error.value) else Ok(Car([c], Restrict(m, CidSet(t.yielded))))
  }

  method CopyBlock(source: Blocks, destination: Blocks, c: Cid, name: WitnessError)
    returns (r: Result<Blocks, WitnessError>)
    ensures r == if c in source then Ok(destination[c := source[c]]) else Err(name)
  {
    if c !in source {
      return Err(name);
    }
    return Ok(destination[c := source[c]]);
  }

  /** `build`, copying block by block while it follows the path through the Merkle CAR. */
  method BuildWitness(c: Cid, m: Blocks) returns (r: Result<Car, WitnessError>)
    ensures r == Build(c, m)
  {
    var anchorCommit := Get(m, c);
    var blocks :- CopyBlock(m, map[], c, NoAnchorCommit);
    if !anchorCommit.value.AnchorCommit? {
      return Err(Malformed);
    }
    var proof := Get(m, anchorCommit.value.proof);
    blocks :- CopyBlock(m, blocks, anchorCommit.value.proof, NoProof);
    if !proof.value.Proof? {
      return Err(Malformed);
    }
    var root := Get(m, proof.value.root);
    blocks :- CopyBlock(m, blocks, proof.value.root, NoMerkleRoot);
    var path := DecodeLine(anchorCommit.value.path);
    if path.None? {
      return Err(InvalidPath);
    }
    blocks :- CopyPath(m, blocks, root.value, path.value, [c, anchorCommit.value.proof, proof.value.root]);
    LinkedCids(m, c, path.value);
    return Ok(Car([c], blocks));
  }

  /** The loop of `build`: each node of the path that the source has is copied. */
  method CopyPath(m: Blocks, copied: Blocks, root: Record, path: seq<PathDirection>, ghost prefix: seq<Cid>)
    returns (r: Result<Blocks, WitnessError>)
    requires copied == Restrict(m, CidSet(prefix))
    ensures var t := Walk(m, Some(root), path);
            r == if t.error.Some? then Err(t.error.value) else Ok(Restrict(m, CidSet(prefix + t.yielded)))
  {
    var blocks := copied;
    ghost var visited := [];
    assert prefix + visited == prefix;
    var currentRecord := Some(root);
    assert path[0..] == path;
    for i := 0 to |path|
      invariant Walk(m, Some(root), path) == Walk(m, currentRecord, path[i..]).After(visited)
      invariant blocks == Restrict(m, CidSet(prefix + visited))
    {
      assert path[i..][0] == path[i] && path[i..][1..] == path[i + 1..];
      if currentRecord.None? {
        return Err(MissingNode);
      }
      var nextCid := Child(currentRecord.value, path[i]);
      if nextCid.None? {
        return Err(MissingNode);
      }
      AfterAfter(Walk(m, Get(m, nextCid.value), path[i + 1..]), visited, nextCid.value);
      assert prefix + (visited + [nextCid.value]) == (prefix + visited) + [nextCid.value];
      RestrictOneMore(m, prefix + visited, nextCid.value);
      visited := visited + [nextCid.value];
      currentRecord := Get(m, nextCid.value);
      if currentRecord.Some? {
        var copy := CopyBlock(m, blocks, nextCid.value, MissingNode);
        blocks := copy.value;
      }
    }
    assert path[|path|..] == [] && visited + [] == visited;
    return Ok(blocks);
  }

  lemma RestrictOneMore(m: Blocks, cids: seq<Cid>, c: Cid)
    ensures Restrict(m, CidSet(cids + [c])) ==
            if c in m then Restrict(m, CidSet(cids))[c := m[c]] else Restrict(m, CidSet(cids))
  {
  }

  // ----- Walks over different block maps -----

  lemma {:induction false} WalkLength(blocks: Blocks, current: Option<Record>, path: seq<PathDirection>)
    requires Walk(blocks, current, path).Completed()
    ensures |Walk(blocks, current, path).yielded| == |path|
    decreases |path|
  {
    if path != [] {
      WalkLength(blocks, Get(blocks, Child(current.value, path[0]).value), path[1..]);
    }
  }

  /** A completed walk only looks into the blocks it yields before the last one. */
  lemma {:induction false} WalkSame(a: Blocks, b: Blocks, current: Option<Record>, path: seq<PathDirection>,
                                    yielded: seq<Cid>)
    requires Walk(a, current, path) == Trace(yielded, None)
    requires forall i | 0 <= i < |yielded| - 1 :: Get(a, yielded[i]) == Get(b, yielded[i])
    ensures Walk(b, current, path) == Walk(a, current, path)
    decreases |path|
  {
    if path != [] {
      var next := Child(current.value, path[0]).value;
      var rest := Walk(a, Get(a, next), path[1..]).yielded;
      assert yielded == [next] + rest;
      WalkLength(a, Get(a, next), path[1..]);
      if |path| > 1 {
        assert yielded[0] == next;
        assert forall i | 0 <= i < |rest| - 1 :: rest[i] == yielded[i + 1];
        WalkSame(a, b, Get(a, next), path[1..], rest);
      }
    }
  }

  lemma {:induction false} WalkDropped(a: Blocks, x: Cid, current: Option<Record>, path: seq<PathDirection>)
    requires Walk(a, current, path).Completed()
    requires var y := Walk(a, current, path).yielded; y != [] && x in y[..|y| - 1]
    ensures !Walk(a - {x}, current, path).Completed()
    decreases |path|
  {
    var next := Child(current.value, path[0]).value;
    var rest := Walk(a, Get(a, next), path[1..]).yielded;
    var y := Walk(a, current, path).yielded;
    assert y == [next] + rest;
    WalkLength(a, Get(a, next), path[1..]);
    if next != x {
      assert y[..|y| - 1] == [next] + rest[..|rest| - 1];
      WalkDropped(a, x, Get(a, next), path[1..]);
    } else {
      assert path[1..] != [];
    }
  }

  lemma {:induction false} WalkAgree(a: Blocks, b: Blocks, current: Option<Record>, path: seq<PathDirection>)
    requires Agree(a, b)
    requires Walk(a, current, path).Completed() && Walk(b, current, path).Completed()
    ensures Walk(a, current, path) == Walk(b, current, path)
    decreases |path|
  {
    if |path| > 1 {
      var next := Child(current.value, path[0]).value;
      assert Walk(a, Get(a, next), path[1..]).Completed() && Walk(b, Get(b, next), path[1..]).Completed();
      WalkAgree(a, b, Get(a, next), path[1..]);
    }
  }

  /** The same as WalkSame for the whole trace of a CAR: only the last CID is never looked up. */
  lemma CidsSame(a: Car, b: Car)
    requires a.roots == b.roots && Cids(a).Completed()
    requires var y := Cids(a).yielded; forall i | 0 <= i < |y| - 1 :: Get(a.blocks, y[i]) == Get(b.blocks, y[i])
    ensures Cids(b) == Cids(a)
  {
    YieldedInOrder(a);
    HeadSame(a, b);
    TailSame(a, b);
  }

  /** The CIDs of a completed trace: commit, proof, Merkle root, and from then on those of the walk. */
  lemma YieldedInOrder(car: Car)
    requires Cids(car).Completed()
    ensures Linked(car) && MerkleRootOf(car) in car.blocks && Decode(CommitOf(car).path).Some?
    ensures PathWalk(car).Completed()
    ensures var y := Cids(car).yielded;
            var w := PathWalk(car).yielded;
            && |y| == |w| + 3 && |w| > 0
            && y[0] == car.roots[0] && y[1] == CommitOf(car).proof && y[2] == MerkleRootOf(car)
            && forall i | 0 <= i < |w| :: w[i] == y[i + 3]
  {
    CompletedCids(car);
  }

  /** Two CARs with the same commit, proof and Merkle root. */
  predicate SameHead(a: Car, b: Car) {
    && Linked(a) && Linked(b) && a.roots[0] == b.roots[0]
    && CommitOf(a) == CommitOf(b) && MerkleRootOf(a) == MerkleRootOf(b)
    && MerkleRootOf(a) in a.blocks && Get(a.blocks, MerkleRootOf(a)) == Get(b.blocks, MerkleRootOf(a))
  }

  lemma HeadSame(a: Car, b: Car)
    requires a.roots == b.roots && Linked(a) && MerkleRootOf(a) in a.blocks
    requires Get(a.blocks, a.roots[0]) == Get(b.blocks, a.roots[0])
    requires Get(a.blocks, CommitOf(a).proof) == Get(b.blocks, CommitOf(a).proof)
    requires Get(a.blocks, MerkleRootOf(a)) == Get(b.blocks, MerkleRootOf(a))
    ensures SameHead(a, b)
  {
  }

  lemma TailSame(a: Car, b: Car)
    requires a.roots == b.roots && SameHead(a, b) && Decode(CommitOf(a).path).Some? && PathWalk(a).Completed()
    requires var w := PathWalk(a).yielded;
             forall i | 0 <= i < |w| - 1 :: Get(a.blocks, w[i]) == Get(b.blocks, w[i])
    ensures Cids(b) == Cids(a)
  {
    var path := Decode(CommitOf(a).path).value;
    WalkSame(a.blocks, b.blocks, Get(a.blocks, MerkleRootOf(a)), path, PathWalk(a).yielded);
    LinkedCids(a.blocks, a.roots[0], path);
    LinkedCids(b.blocks, a.roots[0], path);
  }

  // ----- Extraction preserves the walk -----

  /** `build` succeeds exactly when the walk succeeds in the source, and the witness walks the same CIDs. */
  lemma BuildPreservesWalk(c: Cid, m: Blocks)
    ensures Build(c, m).Ok? <==> Cids(Car([c], m)).Completed()
    ensures Build(c, m).Ok? ==> Cids(Build(c, m).value) == Cids(Car([c], m))
  {
    if Build(c, m).Ok? {
      var y := Cids(Car([c], m)).yielded;
      assert forall i | 0 <= i < |y| :: y[i] in CidSet(y);
      CidsSame(Car([c], m), Build(c, m).value);
    }
  }

  /** The witness holds the yielded blocks the source has, unchanged, and nothing else. */
  lemma WitnessBlocksExact(c: Cid, m: Blocks)
    requires Build(c, m).Ok?
    ensures var w := Build(c, m).value;
            && (forall x :: x in w.blocks <==> x in Cids(w).yielded && x in m)
            && (forall x | x in w.blocks :: w.blocks[x] == m[x])
  {
    BuildPreservesWalk(c, m);
  }

  /** `verify` accepts a built witness exactly when the walk through the source ends at the commit's `prev`. */
  lemma BuiltWitnessVerifies(c: Cid, m: Blocks)
    requires Build(c, m).Ok?
    ensures c in m && m[c].AnchorCommit?
    ensures Cids(Car([c], m)).yielded != []
    ensures Verify(Build(c, m).value) ==
            if Last(Cids(Car([c], m)).yielded) == m[c].prev then Ok(c) else Err(InvalidWitness)
  {
    BuildPreservesWalk(c, m);
    CompletedCids(Car([c], m));
    CompletedCids(Build(c, m).value);
  }

  function Drop(car: Car, x: Cid): Car {
    Car(car.roots, car.blocks - {x})
  }

  /** Nothing can be left out: only the last CID of an accepted witness, the copied leaf, is not looked up. */
  lemma DroppedBlock(car: Car, x: Cid)
    requires Verify(car).Ok?
    ensures Cids(car).yielded != []
    ensures var y := Cids(car).yielded;
            Verify(Drop(car, x)) == Verify(car) <==> x !in y[..|y| - 1]
    ensures var y := Cids(car).yielded;
            Verify(Drop(car, x)).Err? <==> x in y[..|y| - 1]
  {
    CompletedCids(car);
    var y := Cids(car).yielded;
    if x in y[..|y| - 1] {
      DroppedNeeded(car, x);
    } else {
      assert forall i | 0 <= i < |y| - 1 :: y[i] in y[..|y| - 1];
      CidsSame(car, Drop(car, x));
      CompletedCids(Drop(car, x));
    }
  }

  lemma DroppedNeeded(car: Car, x: Cid)
    requires Cids(car).Completed() && Cids(car).yielded != []
    requires var y := Cids(car).yielded; x in y[..|y| - 1]
    ensures !Cids(Drop(car, x)).Completed()
  {
    CompletedCids(car);
    var y := Cids(car).yielded;
    var root := MerkleRootOf(car);
    var w := PathWalk(car).yielded;
    assert y[..|y| - 1] == [car.roots[0], CommitOf(car).proof, root] + w[..|w| - 1];
    if Cids(Drop(car, x)).Completed() {
      CompletedCids(Drop(car, x));
      assert x in w[..|w| - 1];
      WalkDropped(car.blocks, x, Get(car.blocks, root), Decode(CommitOf(car).path).value);
      assert false;
    }
  }

  /** Every block an accepted witness yields is needed, except a copied leaf. */
  lemma YieldedIsNeeded(car: Car, x: Cid)
    requires Verify(car).Ok? && x in Cids(car).yielded
    ensures Linked(car)
    ensures Verify(Drop(car, x)).Err? || x == CommitOf(car).prev
  {
    AcceptedEndsAtPrev(car);
    if x != CommitOf(car).prev {
      DroppedBlock(car, x);
      BeforeLast(Cids(car).yielded, x);
    }
  }

  lemma BeforeLast(y: seq<Cid>, x: Cid)
    requires x in y && x != Last(y)
    ensures x in y[..|y| - 1]
  {
  }

  lemma AcceptedEndsAtPrev(car: Car)
    requires Verify(car).Ok?
    ensures Cids(car).Completed() && Cids(car).yielded != [] && Linked(car)
    ensures CommitOf(car).prev == Last(Cids(car).yielded)
  {
  }

  /** So a built witness that verifies carries no block it could do without, except a copied leaf. */
  lemma BuiltWitnessMinimal(c: Cid, m: Blocks, x: Cid)
    requires Build(c, m).Ok? && Verify(Build(c, m).value).Ok?
    requires x in Build(c, m).value.blocks
    ensures c in m && m[c].AnchorCommit?
    ensures Verify(Drop(Build(c, m).value, x)).Err? || x == m[c].prev
  {
    WitnessBlocksExact(c, m);
    BuiltWitnessVerifies(c, m);
    YieldedIsNeeded(Build(c, m).value, x);
  }

  // ----- Binding -----

  lemma AcceptedIsCompleted(car: Car)
    requires Verify(car).Ok?
    ensures Cids(car).Completed() && Linked(car)
    ensures CommitOf(car).prev == Last(PathWalk(car).yielded)
  {
  }

  /** Two accepted witnesses that name the same Merkle root and path prove the same commit. */
  lemma BindingByMerkleRoot(hash: Hasher, a: Car, b: Car)
    requires Injective(hash) && ContentAddressed(hash, a.blocks) && ContentAddressed(hash, b.blocks)
    requires Verify(a).Ok? && Verify(b).Ok?
    ensures Linked(a) && Linked(b)
    ensures MerkleRootOf(a) == MerkleRootOf(b) && CommitOf(a).path == CommitOf(b).path
            ==> CommitOf(a).prev == CommitOf(b).prev
  {
    AcceptedIsCompleted(a);
    AcceptedIsCompleted(b);
    CompletedCids(a);
    CompletedCids(b);
    if MerkleRootOf(a) == MerkleRootOf(b) && CommitOf(a).path == CommitOf(b).path {
      ContentAddressedAgree(hash, a.blocks, b.blocks);
      WalkAgree(a.blocks, b.blocks, Get(a.blocks, MerkleRootOf(a)), Decode(CommitOf(a).path).value);
    }
  }

  /** The root CID fixes the whole sequence of CIDs an accepted witness yields. */
  lemma BindingByRoot(hash: Hasher, a: Car, b: Car)
    requires Injective(hash) && ContentAddressed(hash, a.blocks) && ContentAddressed(hash, b.blocks)
    requires Verify(a).Ok? && Verify(b).Ok?
    requires a.roots != [] && b.roots != [] && a.roots[0] == b.roots[0]
    ensures Cids(a) == Cids(b)
  {
    CompletedCids(a);
    CompletedCids(b);
    ContentAddressedAgree(hash, a.blocks, b.blocks);
    WalkAgree(a.blocks, b.blocks, Get(a.blocks, MerkleRootOf(a)), Decode(CommitOf(a).path).value);
  }

  /** Adding blocks never turns an accepted witness into a rejected one. */
  lemma MoreBlocks(hash: Hasher, a: Car, b: Car)
    requires Injective(hash) && ContentAddressed(hash, a.blocks) && ContentAddressed(hash, b.blocks)
    requires a.roots == b.roots && a.blocks.Keys <= b.blocks.Keys
    requires Verify(a).Ok?
    ensures Verify(b) == Verify(a) && Cids(b) == Cids(a)
  {
    LooksInside(a);
    ContentAddressedAgree(hash, a.blocks, b.blocks);
    CidsSame(a, b);
    CompletedCids(b);
  }

  lemma LooksInside(car: Car)
    requires Cids(car).Completed()
    ensures var y := Cids(car).yielded; forall i | 0 <= i < |y| - 1 :: y[i] in car.blocks
  {
    CompletedCids(car);
    WalkLooksInside(car.blocks, Get(car.blocks, MerkleRootOf(car)), Decode(CommitOf(car).path).value,
                    PathWalk(car).yielded);
    InsideAfter(car.blocks, [car.roots[0], CommitOf(car).proof, MerkleRootOf(car)], PathWalk(car).yielded);
  }

  lemma InsideAfter(blocks: Blocks, first: seq<Cid>, rest: seq<Cid>)
    requires forall i | 0 <= i < |first| :: first[i] in blocks
    requires forall i | 0 <= i < |rest| - 1 :: rest[i] in blocks
    ensures var y := first + rest; forall i | 0 <= i < |y| - 1 :: y[i] in blocks
  {
  }

  /** A completed walk found every CID it yielded before the last. */
  lemma {:induction false} WalkLooksInside(blocks: Blocks, current: Option<Record>, path: seq<PathDirection>,
                                           yielded: seq<Cid>)
    requires Walk(blocks, current, path) == Trace(yielded, None)
    ensures forall i | 0 <= i < |yielded| - 1 :: yielded[i] in blocks
    decreases |path|
  {
    if path != [] {
      var next := Child(current.value, path[0]).value;
      var rest := Walk(blocks, Get(blocks, next), path[1..]).yielded;
      assert yielded == [next] + rest;
      WalkLooksInside(blocks, Get(blocks, next), path[1..], rest);
      WalkLength(blocks, Get(blocks, next), path[1..]);
    }
  }
}
