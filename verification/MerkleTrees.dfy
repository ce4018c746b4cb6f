/**
 * What the anchoring code relies on from the Merkle tree library, and a small reference builder
 * that meets it.
 */
module MerkleTrees {
  import opened Wrappers
  import opened PathLine
  import opened Witness

  /** `leaves[i]` is what `getDirectPathFromRoot(i)`, here `paths[i]`, leads to. */
  datatype MerkleTree = MerkleTree(root: Cid, blocks: Blocks, leaves: seq<Cid>, paths: seq<seq<PathDirection>>)

  ghost predicate ValidTree(hash: Hasher, t: MerkleTree) {
    && ContentAddressed(hash, t.blocks)
    && |t.paths| == |t.leaves|
    && forall i | 0 <= i < |t.leaves| :: LeadsTo(t.blocks, t.root, t.paths[i], t.leaves[i])
  }

  predicate LeadsTo(blocks: Blocks, root: Cid, path: seq<PathDirection>, leaf: Cid) {
    && path != []
    && root in blocks
    && WalkEndsAt(blocks, Some(blocks[root]), path, leaf)
  }

  predicate WalkEndsAt(blocks: Blocks, current: Option<Record>, path: seq<PathDirection>, leaf: Cid) {
    var w := Walk(blocks, current, path);
    w.Completed() && w.yielded != [] && Last(w.yielded) == leaf
  }

  function Put(hash: Hasher, blocks: Blocks, r: Record): Blocks {
    blocks[hash(r) := r]
  }

  /** Adding a record to a content-addressed map keeps it one and overwrites nothing. */
  lemma PutExtends(hash: Hasher, blocks: Blocks, r: Record)
    requires Injective(hash) && ContentAddressed(hash, blocks)
    ensures ContentAddressed(hash, Put(hash, blocks, r))
    ensures blocks.Keys <= Put(hash, blocks, r).Keys && Agree(blocks, Put(hash, blocks, r))
  {
  }

  lemma WalkInMore(a: Blocks, b: Blocks, current: Option<Record>, path: seq<PathDirection>, leaf: Cid)
    requires a.Keys <= b.Keys && Agree(a, b)
    requires WalkEndsAt(a, current, path, leaf)
    ensures Walk(b, current, path) == Walk(a, current, path)
  {
    var y := Walk(a, current, path).yielded;
    WalkLooksInside(a, current, path, y);
    assert forall i | 0 <= i < |y| - 1 :: Get(a, y[i]) == Get(b, y[i]);
    WalkSame(a, b, current, path, y);
  }

  lemma LeadsToInMore(a: Blocks, b: Blocks, root: Cid, path: seq<PathDirection>, leaf: Cid)
    requires a.Keys <= b.Keys && Agree(a, b)
    requires LeadsTo(a, root, path, leaf)
    ensures LeadsTo(b, root, path, leaf)
  {
    WalkInMore(a, b, Some(a[root]), path, leaf);
  }

  // ----- Reference builder -----

  function Branch(left: Cid, right: Option<Cid>): Record {
    Node([Some(left), right])
  }

  /** The CID of the subtree over `leaves`; a single leaf stands for itself. */
  function SubtreeCid(hash: Hasher, leaves: seq<Cid>): Cid
    requires leaves != []
    decreases |leaves|, 1
  {
    if |leaves| == 1 then leaves[0] else hash(SubtreeNode(hash, leaves))
  }

  function SubtreeNode(hash: Hasher, leaves: seq<Cid>): Record
    requires |leaves| >= 2
    decreases |leaves|, 0
  {
    var middle := |leaves| / 2;
    Branch(SubtreeCid(hash, leaves[..middle]), Some(SubtreeCid(hash, leaves[middle..])))
  }

  function SubtreeBlocks(hash: Hasher, leaves: seq<Cid>): Blocks
    requires leaves != []
  {
    if |leaves| == 1 then map[]
    else
      var middle := |leaves| / 2;
      Put(hash, SubtreeBlocks(hash, leaves[..middle]) + SubtreeBlocks(hash, leaves[middle..]),
          SubtreeNode(hash, leaves))
  }

  function SubtreePath(count: nat, i: nat): seq<PathDirection>
    requires i < count
  {
    if count == 1 then []
    else
      var middle := count / 2;
      if i < middle then [L] + SubtreePath(middle, i) else [R] + SubtreePath(count - middle, i - middle)
  }

  /** One leaf alone is put under a root with no right child, so that every path has a step. */
  function BuildTree(hash: Hasher, leaves: seq<Cid>): MerkleTree
    requires leaves != []
  {
    if |leaves| == 1 then
      var root := Branch(leaves[0], None);
      MerkleTree(hash(root), map[hash(root) := root], leaves, [[L]])
    else
      MerkleTree(SubtreeCid(hash, leaves), SubtreeBlocks(hash, leaves), leaves,
                 seq(|leaves|, i requires 0 <= i < |leaves| => SubtreePath(|leaves|, i)))
  }

  lemma {:induction false} SubtreeContentAddressed(hash: Hasher, leaves: seq<Cid>)
    requires Injective(hash) && leaves != []
    ensures ContentAddressed(hash, SubtreeBlocks(hash, leaves))
    ensures |leaves| >= 2 ==> SubtreeCid(hash, leaves) in SubtreeBlocks(hash, leaves)
                              && SubtreeBlocks(hash, leaves)[SubtreeCid(hash, leaves)] == SubtreeNode(hash, leaves)
  {
    if |leaves| >= 2 {
      var middle := |leaves| / 2;
      SubtreeContentAddressed(hash, leaves[..middle]);
      SubtreeContentAddressed(hash, leaves[middle..]);
      PutExtends(hash, SubtreeBlocks(hash, leaves[..middle]) + SubtreeBlocks(hash, leaves[middle..]),
                 SubtreeNode(hash, leaves));
    }
  }

  function Half(leaves: seq<Cid>, direction: PathDirection): seq<Cid>
    requires |leaves| >= 2
  {
    if direction == L then leaves[..|leaves| / 2] else leaves[|leaves| / 2..]
  }

  lemma SubtreeHoldsHalf(hash: Hasher, leaves: seq<Cid>, direction: PathDirection)
    requires Injective(hash) && |leaves| >= 2
    ensures var half := SubtreeBlocks(hash, Half(leaves, direction));
            var all := SubtreeBlocks(hash, leaves);
            half.Keys <= all.Keys && Agree(half, all)
    ensures Child(SubtreeNode(hash, leaves), direction) == Some(SubtreeCid(hash, Half(leaves, direction)))
  {
    SubtreeContentAddressed(hash, leaves);
    SubtreeContentAddressed(hash, Half(leaves, direction));
    ContentAddressedAgree(hash, SubtreeBlocks(hash, Half(leaves, direction)), SubtreeBlocks(hash, leaves));
  }

  /** One step down from a node, to the leaf itself or to the root of a walk that ends there. */
  lemma StepLeads(blocks: Blocks, root: Cid, direction: PathDirection, next: Cid, rest: seq<PathDirection>, leaf: Cid)
    requires root in blocks && Child(blocks[root], direction) == Some(next)
    requires if rest == [] then next == leaf else LeadsTo(blocks, next, rest, leaf)
    ensures LeadsTo(blocks, root, [direction] + rest, leaf)
  {
  }

  lemma {:induction false} SubtreeLeads(hash: Hasher, leaves: seq<Cid>, i: nat)
    requires Injective(hash) && |leaves| >= 2 && i < |leaves|
    ensures LeadsTo(SubtreeBlocks(hash, leaves), SubtreeCid(hash, leaves), SubtreePath(|leaves|, i), leaves[i])
    decreases |leaves|, 1
  {
    var middle := |leaves| / 2;
    if i < middle {
      HalfLeads(hash, leaves, L, i);
    } else {
      HalfLeads(hash, leaves, R, i - middle);
    }
  }

  lemma {:induction false} HalfLeads(hash: Hasher, leaves: seq<Cid>, direction: PathDirection, k: nat)
    requires Injective(hash) && |leaves| >= 2 && k < |Half(leaves, direction)|
    ensures var half := Half(leaves, direction);
            LeadsTo(SubtreeBlocks(hash, leaves), SubtreeCid(hash, leaves),
                    [direction] + SubtreePath(|half|, k), half[k])
    decreases |leaves|, 0
  {
    var half := Half(leaves, direction);
    var all := SubtreeBlocks(hash, leaves);
    SubtreeContentAddressed(hash, leaves);
    SubtreeHoldsHalf(hash, leaves, direction);
    if |half| > 1 {
      SubtreeLeads(hash, half, k);
      LeadsToInMore(SubtreeBlocks(hash, half), all, SubtreeCid(hash, half), SubtreePath(|half|, k), half[k]);
    }
    StepLeads(all, SubtreeCid(hash, leaves), direction, SubtreeCid(hash, half), SubtreePath(|half|, k), half[k]);
  }

  /** The contract is satisfiable: the reference tree meets it for every non-empty list of leaves. */
  lemma ReferenceTreeValid(hash: Hasher, leaves: seq<Cid>)
    requires Injective(hash) && leaves != []
    ensures ValidTree(hash, BuildTree(hash, leaves)) && BuildTree(hash, leaves).leaves == leaves
  {
    var t := BuildTree(hash, leaves);
    if |leaves| == 1 {
      var root := Branch(leaves[0], None);
      assert Walk(t.blocks, Some(root), [L]) == Walk(t.blocks, Get(t.blocks, leaves[0]), [L][1..]).After([leaves[0]]);
    } else {
      SubtreeContentAddressed(hash, leaves);
      forall i | 0 <= i < |leaves|
        ensures LeadsTo(t.blocks, t.root, t.paths[i], leaves[i])
      {
        SubtreeLeads(hash, leaves, i);
      }
    }
  }

  /** No forgery: an accepted witness for a tree's root and the path of leaf `i` proves exactly leaf `i`. */
  lemma WitnessProvesLeaf(hash: Hasher, t: MerkleTree, w: Car, i: nat)
    requires Injective(hash) && ValidTree(hash, t) && i < |t.leaves|
    requires ContentAddressed(hash, w.blocks) && Verify(w).Ok?
    ensures Linked(w)
    ensures MerkleRootOf(w) == t.root && CommitOf(w).path == Encode(t.paths[i]) ==> CommitOf(w).prev == t.leaves[i]
  {
    CompletedCids(w);
    AcceptedIsCompleted(w);
    if MerkleRootOf(w) == t.root && CommitOf(w).path == Encode(t.paths[i]) {
      RoundTrip(t.paths[i]);
      ContentAddressedAgree(hash, w.blocks, t.blocks);
      WalkAgree(w.blocks, t.blocks, Get(t.blocks, t.root), t.paths[i]);
    }
  }
}
