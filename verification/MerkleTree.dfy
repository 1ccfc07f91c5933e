/** The tree of hashes: what it hashes, the positional check of a path, and the proof cut out of it. */
module MerkleTree {
  import opened Words
  import opened Digests
  import opened TreeShape
  import opened FlatTree

  type HashTree = FlatTree<Digest>

  function LeafOf(h: HashFn): Bytes -> Digest {
    datum => LeafHash(h, datum)
  }

  function PairOf(h: HashFn, sorted: bool): (Digest, Digest) -> Digest {
    (l, r) => Pair(h, sorted, l, r)
  }

  function LeafHashes(h: HashFn, items: seq<Bytes>): (leaves: seq<Digest>)
    ensures |leaves| == |items|
    ensures forall i :: 0 <= i < |items| ==> leaves[i] == LeafHash(h, items[i])
  {
    Leaves(items, LeafOf(h))
  }

  /** The Merkle root of a list of items. */
  function MerkleRoot(h: HashFn, sorted: bool, items: seq<Bytes>): Digest
    requires items != []
  {
    RootOf(PairOf(h, sorted), LeafHashes(h, items))
  }

  method New(h: HashFn, items: seq<Bytes>, sortedHashes: bool) returns (mt: HashTree)
    ensures mt.Stores(PairOf(h, sortedHashes), LeafHashes(h, items))
    ensures mt.GetRoot() == if items == [] then None else Some(MerkleRoot(h, sortedHashes, items))
  {
    mt := Build(items, LeafOf(h), PairOf(h, sortedHashes));
    mt.RootIsStoredLast(PairOf(h, sortedHashes), LeafHashes(h, items));
  }

  /** `get_proof`: the sibling of every entry on the path, whichever side it is on. */
  method GetProof(mt: HashTree, index: nat) returns (proof: seq<Digest>)
    requires mt.Valid() && index < mt.leafCount
    ensures |proof| == CeilLog2(mt.leafCount)
    ensures forall k :: 0 <= k < |proof| ==> proof[k] == mt.SiblingOf(index, k)
  {
    proof := [];
    var found := mt.FindPath(index);
    var path := found.value;
    for k := 0 to |path|
      invariant |proof| == k
      invariant forall j :: 0 <= j < k ==> proof[j] == mt.SiblingOf(index, j)
    {
      var branch := path[k];
      assert branch == mt.EntryAt(index, k);
      if branch.left.Some? {
        proof := proof + [branch.left.value];
      } else if branch.right.Some? {
        proof := proof + [branch.right.value];
      } else {
        assert false;
      }
    }
  }

  /** The root over one item is its leaf hash. */
  lemma RootOfOne(h: HashFn, sorted: bool, x: Bytes)
    ensures MerkleRoot(h, sorted, [x]) == h([0] + x)
  {
    assert LeafHashes(h, [x])[0] == h([0] + x);
  }

  /** The root over three items, in bytes: the odd one out is paired with itself. */
  lemma RootOfThree(h: HashFn, x: Bytes, y: Bytes, z: Bytes)
    ensures MerkleRoot(h, false, [x, y, z])
      == h([1] + h([1] + h([0] + x) + h([0] + y)) + h([1] + h([0] + z) + h([0] + z)))
  {
    var pair, leaves := PairOf(h, false), LeafHashes(h, [x, y, z]);
    assert leaves[0] == h([0] + x) && leaves[1] == h([0] + y) && leaves[2] == h([0] + z);
    assert CeilLog2(3) == 2 && LevelLen(3, 1) == 2 && LevelLen(3, 2) == 1;
    assert NodeAt(pair, leaves, 1, 0) == pair(leaves[0], leaves[1]);
    assert NodeAt(pair, leaves, 1, 1) == pair(leaves[2], leaves[2]);
    assert NodeAt(pair, leaves, 2, 0) == pair(NodeAt(pair, leaves, 1, 0), NodeAt(pair, leaves, 1, 1));
  }
}
