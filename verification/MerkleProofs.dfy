/**
 * What the sorted checker accepts: a proof for a datum exactly when the datum is an item and the proof
 * is the sibling path of one of its positions, or else two of the strings hashed collide.
 */
module MerkleProofs {
  import opened Words
  import opened Digests
  import opened TreeShape
  import opened FlatTree
  import opened MerkleTree
  import opened Verify

  /** The node at a position of the sorted tree over `items`. */
  function SortedNode(h: HashFn, items: seq<Bytes>, k: nat, i: nat): Digest
    requires i < LevelLen(|items|, k)
  {
    NodeAt(PairOf(h, true), LeafHashes(h, items), k, i)
  }

  /** The siblings of the lowest `k` ancestors of leaf `i`, leaf first. */
  function SiblingPath(h: HashFn, items: seq<Bytes>, i: nat, k: nat): (path: seq<Digest>)
    requires i < |items| && k <= CeilLog2(|items|)
    ensures |path| == k
  {
    if k == 0 then []
    else
      AncestorInLevel(|items|, i, k - 1);
      var len := LevelLen(|items|, k - 1);
      SiblingPath(h, items, i, k - 1) + [SortedNode(h, items, k - 1, SiblingIndex(len, Ancestor(i, k - 1)))]
  }

  /** The whole proof of leaf `i`. */
  function ProofOf(h: HashFn, items: seq<Bytes>, i: nat): (proof: seq<Digest>)
    requires i < |items|
    ensures |proof| == CeilLog2(|items|)
  {
    SiblingPath(h, items, i, CeilLog2(|items|))
  }

  lemma StoredSibling(h: HashFn, items: seq<Bytes>, mt: HashTree, i: nat, k: nat)
    requires mt.Stores(PairOf(h, true), LeafHashes(h, items))
    requires i < |items| && k <= CeilLog2(|items|)
    ensures Ancestor(i, k) < LevelLen(|items|, k)
    ensures mt.SiblingOf(i, k) == SortedNode(h, items, k, SiblingIndex(LevelLen(|items|, k), Ancestor(i, k)))
  {
    AncestorInLevel(|items|, i, k);
    var q := SiblingIndex(LevelLen(|items|, k), Ancestor(i, k));
    mt.StoredLevel(PairOf(h, true), LeafHashes(h, items), k);
    LevelPrefixAt(PairOf(h, true), LeafHashes(h, items), k, LevelLen(|items|, k), q);
  }

  /** What `get_proof` reads off the stored tree is that proof. */
  lemma {:induction false} SiblingPathIsStored(
    h: HashFn, items: seq<Bytes>, mt: HashTree, i: nat, k: nat, proof: seq<Digest>)
    requires mt.Stores(PairOf(h, true), LeafHashes(h, items))
    requires i < |items| && k <= CeilLog2(|items|) && |proof| == k
    requires forall j :: 0 <= j < k ==> proof[j] == mt.SiblingOf(i, j)
    ensures proof == SiblingPath(h, items, i, k)
  {
    if k > 0 {
      var rest, last := proof[..k - 1], proof[k - 1];
      SplitLast(proof);
      SiblingPathIsStored(h, items, mt, i, k - 1, rest);
      assert last == mt.SiblingOf(i, k - 1);
      StoredSibling(h, items, mt, i, k - 1);
    }
  }

  lemma SplitLast<T>(s: seq<T>)
    requires s != []
    ensures s == s[..|s| - 1] + [s[|s| - 1]]
  {
  }

  /** A node and its sibling hash, in either order, to the node above them. */
  lemma ParentOfSiblings(h: HashFn, items: seq<Bytes>, k: nat, p: nat)
    requires k < CeilLog2(|items|) && p < LevelLen(|items|, k)
    ensures p / 2 < LevelLen(|items|, k + 1)
    ensures SortedNode(h, items, k + 1, p / 2)
      == Pair(h, true, SortedNode(h, items, k, p), SortedNode(h, items, k, SiblingIndex(LevelLen(|items|, k), p)))
  {
    LevelsEndAtHeight(|items|, k);
    var len := LevelLen(|items|, k);
    SiblingsAreChildren(len, p);
    var l, r := SortedNode(h, items, k, 2 * (p / 2)), SortedNode(h, items, k, RightChild(len, p / 2));
    assert SortedNode(h, items, k + 1, p / 2) == PairOf(h, true)(l, r) == Pair(h, true, l, r);
    SortedPairCommutes(l, r);
  }

  /** Folding the siblings of leaf `i` climbs its ancestors. */
  lemma {:induction false} FoldClimbs(h: HashFn, items: seq<Bytes>, i: nat, k: nat)
    requires i < |items| && k <= CeilLog2(|items|)
    ensures Ancestor(i, k) < LevelLen(|items|, k)
    ensures Fold(h, LeafHash(h, items[i]), SiblingPath(h, items, i, k)) == SortedNode(h, items, k, Ancestor(i, k))
  {
    AncestorInLevel(|items|, i, k);
    if k > 0 {
      FoldClimbs(h, items, i, k - 1);
      ParentOfSiblings(h, items, k - 1, Ancestor(i, k - 1));
      var path := SiblingPath(h, items, i, k);
      assert path[..k - 1] == SiblingPath(h, items, i, k - 1);
    }
  }

  /** Every proof a tree hands out is accepted against its root, whatever the number of leaves. */
  lemma ProofComplete(h: HashFn, items: seq<Bytes>, i: nat)
    requires i < |items|
    ensures Fold(h, LeafHash(h, items[i]), ProofOf(h, items, i)) == MerkleRoot(h, true, items)
  {
    var height := CeilLog2(|items|);
    FoldClimbs(h, items, i, height);
    LevelsEndAtHeight(|items|, height);
  }

  // ---- soundness

  /** The strings hashed along the fold of a proof. */
  ghost predicate FoldHashedIn(h: HashFn, datum: Bytes, proof: seq<Digest>, s: set<Bytes>) {
    if proof == [] then LeafPreimage(datum) in s
    else
      && FoldHashedIn(h, datum, proof[..|proof| - 1], s)
      && PairPreimage(true, Fold(h, LeafHash(h, datum), proof[..|proof| - 1]), proof[|proof| - 1]) in s
  }

  /** The string hashed into an inner node. */
  function NodePreimage(h: HashFn, items: seq<Bytes>, k: nat, i: nat): Bytes
    requires i < LevelLen(|items|, k + 1)
  {
    PairPreimage(true, SortedNode(h, items, k, 2 * i), SortedNode(h, items, k, RightChild(LevelLen(|items|, k), i)))
  }

  /** The strings hashed while building the sorted tree. */
  ghost predicate TreeHashedIn(h: HashFn, items: seq<Bytes>, s: set<Bytes>) {
    && (forall j :: 0 <= j < |items| ==> LeafPreimage(items[j]) in s)
    && (forall k: nat, i: nat :: i < LevelLen(|items|, k + 1) ==> NodePreimage(h, items, k, i) in s)
  }

  /**
   * A proof of any length that folds to a node of the tree is the sibling path of a leaf below that
   * node, and the datum is that leaf's item.
   */
  lemma {:induction false} FoldIsSiblingPath(
    h: HashFn, items: seq<Bytes>, k: nat, i: nat, datum: Bytes, proof: seq<Digest>, s: set<Bytes>)
    returns (j: nat)
    requires k <= CeilLog2(|items|) && i < LevelLen(|items|, k)
    requires CollisionFree(h, s) && TreeHashedIn(h, items, s) && FoldHashedIn(h, datum, proof, s)
    requires Fold(h, LeafHash(h, datum), proof) == SortedNode(h, items, k, i)
    ensures j < |items| && items[j] == datum && Ancestor(j, k) == i
    ensures proof == SiblingPath(h, items, j, k)
    decreases k
  {
    if k == 0 {
      LeafLevelFold(h, items, i, datum, proof, s);
      j := i;
    } else {
      var p := InnerFold(h, items, k - 1, i, datum, proof, s);
      var rest := proof[..|proof| - 1];
      j := FoldIsSiblingPath(h, items, k - 1, p, datum, rest, s);
      SplitLast(proof);
    }
  }

  /** Only the empty proof folds to a leaf hash, and only from the leaf's own item. */
  lemma LeafLevelFold(h: HashFn, items: seq<Bytes>, i: nat, datum: Bytes, proof: seq<Digest>, s: set<Bytes>)
    requires i < |items|
    requires CollisionFree(h, s) && LeafPreimage(items[i]) in s && FoldHashedIn(h, datum, proof, s)
    requires Fold(h, LeafHash(h, datum), proof) == LeafHash(h, items[i])
    ensures proof == [] && datum == items[i]
  {
    if proof == [] {
      LeafPreimageInjective(datum, items[i]);
    } else {
      LeafIsNoPair(items[i], true, Fold(h, LeafHash(h, datum), proof[..|proof| - 1]), proof[|proof| - 1]);
    }
  }

  /** The last step of a fold to an inner node starts from one of its children, with the other as sibling. */
  lemma InnerFold(
    h: HashFn, items: seq<Bytes>, k: nat, i: nat, datum: Bytes, proof: seq<Digest>, s: set<Bytes>)
    returns (p: nat)
    requires k < CeilLog2(|items|) && i < LevelLen(|items|, k + 1)
    requires CollisionFree(h, s) && TreeHashedIn(h, items, s) && FoldHashedIn(h, datum, proof, s)
    requires Fold(h, LeafHash(h, datum), proof) == SortedNode(h, items, k + 1, i)
    ensures p < LevelLen(|items|, k) && p / 2 == i && proof != []
    ensures Fold(h, LeafHash(h, datum), proof[..|proof| - 1]) == SortedNode(h, items, k, p)
    ensures proof[|proof| - 1] == SortedNode(h, items, k, SiblingIndex(LevelLen(|items|, k), p))
  {
    var len := LevelLen(|items|, k);
    var l, r := SortedNode(h, items, k, 2 * i), SortedNode(h, items, k, RightChild(len, i));
    assert SortedNode(h, items, k + 1, i) == PairOf(h, true)(l, r) == Pair(h, true, l, r);
    assert NodePreimage(h, items, k, i) in s;
    if proof == [] {
      LeafIsNoPair(datum, true, l, r);
      assert false;
    } else {
      var below, last := Fold(h, LeafHash(h, datum), proof[..|proof| - 1]), proof[|proof| - 1];
      assert PairPreimage(true, below, last) == PairPreimage(true, l, r);
      SortedPairInjective(below, last, l, r);
      ChildrenAreSiblings(len, i);
      p := if below == l && last == r then 2 * i else RightChild(len, i);
    }
  }

  /**
   * Exactly what `verify` accepts against a tree's root: the items, each with the sibling path of a
   * position it stands at. In particular no proof of another length, and no other proof of that length.
   */
  lemma VerifyAcceptsExactly(h: HashFn, items: seq<Bytes>, datum: Bytes, proof: seq<Digest>, s: set<Bytes>)
    requires items != []
    requires CollisionFree(h, s) && TreeHashedIn(h, items, s) && FoldHashedIn(h, datum, proof, s)
    ensures Fold(h, LeafHash(h, datum), proof) == MerkleRoot(h, true, items)
      <==> exists j :: 0 <= j < |items| && items[j] == datum && proof == ProofOf(h, items, j)
  {
    var height := CeilLog2(|items|);
    LevelsEndAtHeight(|items|, height);
    if Fold(h, LeafHash(h, datum), proof) == MerkleRoot(h, true, items) {
      var j := FoldIsSiblingPath(h, items, height, 0, datum, proof, s);
      assert proof == ProofOf(h, items, j);
    }
    if j :| 0 <= j < |items| && items[j] == datum && proof == ProofOf(h, items, j) {
      ProofComplete(h, items, j);
    }
  }

  // ---- the same with the strings that are hashed

  /** All strings hashed in building the sorted tree. */
  ghost function TreeStrings(h: HashFn, items: seq<Bytes>): set<Bytes> {
    (set j | 0 <= j < |items| :: LeafPreimage(items[j]))
    + (set k: nat, i: nat | k < CeilLog2(|items|) && i < LevelLen(|items|, k + 1) :: NodePreimage(h, items, k, i))
  }

  /** All strings hashed in folding a proof. */
  ghost function FoldStrings(h: HashFn, datum: Bytes, proof: seq<Digest>): set<Bytes> {
    if proof == [] then {LeafPreimage(datum)}
    else
      var init, last := proof[..|proof| - 1], proof[|proof| - 1];
      FoldStrings(h, datum, init) + {PairPreimage(true, Fold(h, LeafHash(h, datum), init), last)}
  }

  lemma TreeStringsCover(h: HashFn, items: seq<Bytes>, s: set<Bytes>)
    requires items != [] && TreeStrings(h, items) <= s
    ensures TreeHashedIn(h, items, s)
  {
    forall k: nat, i: nat | i < LevelLen(|items|, k + 1)
      ensures NodePreimage(h, items, k, i) in s
    {
      LevelsEndAtHeight(|items|, k + 1);
      assert NodePreimage(h, items, k, i) in TreeStrings(h, items);
    }
    forall j | 0 <= j < |items|
      ensures LeafPreimage(items[j]) in s
    {
      assert LeafPreimage(items[j]) in TreeStrings(h, items);
    }
  }

  lemma {:induction false} FoldStringsCover(h: HashFn, datum: Bytes, proof: seq<Digest>, s: set<Bytes>)
    requires FoldStrings(h, datum, proof) <= s
    ensures FoldHashedIn(h, datum, proof, s)
  {
    if proof != [] {
      FoldStringsCover(h, datum, proof[..|proof| - 1], s);
    }
  }

  ghost function StringsOf(h: HashFn, items: seq<Bytes>, datum: Bytes, proof: seq<Digest>): set<Bytes> {
    TreeStrings(h, items) + FoldStrings(h, datum, proof)
  }

  /**
   * Soundness without a hypothesis on the hash: an accepted proof is the sibling path of a position
   * where the datum stands, or two of the strings hashed, in building the tree or in the check, collide.
   */
  lemma AcceptedOrCollision(h: HashFn, items: seq<Bytes>, datum: Bytes, proof: seq<Digest>)
    requires items != [] && Fold(h, LeafHash(h, datum), proof) == MerkleRoot(h, true, items)
    ensures
      || (exists j :: 0 <= j < |items| && items[j] == datum && proof == ProofOf(h, items, j))
      || (exists a, b :: Collision(h, StringsOf(h, items, datum, proof), a, b))
  {
    var s := StringsOf(h, items, datum, proof);
    FreeOrCollision(h, s);
    if CollisionFree(h, s) {
      TreeStringsCover(h, items, s);
      FoldStringsCover(h, datum, proof, s);
      VerifyAcceptsExactly(h, items, datum, proof, s);
    }
  }
}
