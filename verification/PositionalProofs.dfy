/** The checker with left/right bits, `Proof::verify`, on the paths `find_path` builds. */
module PositionalProofs {
  import opened Words
  import opened Digests
  import opened TreeShape
  import opened FlatTree
  import opened MerkleTree

  lemma StoredNode<T>(pair: (T, T) -> T, leaves: seq<T>, mt: FlatTree<T>, k: nat, i: nat)
    requires mt.Stores(pair, leaves)
    requires k <= CeilLog2(|leaves|) && i < LevelLen(|leaves|, k)
    ensures mt.Level(k)[i] == NodeAt(pair, leaves, k, i)
  {
    mt.StoredLevel(pair, leaves, k);
    LevelPrefixAt(pair, leaves, k, LevelLen(|leaves|, k), i);
  }

  /** The entry's target is the hash of the leaf's own ancestor with the sibling in the entry. */
  lemma EntryHits<T>(pair: (T, T) -> T, leaves: seq<T>, mt: FlatTree<T>, i: nat, k: nat)
    requires mt.Stores(pair, leaves)
    requires i < |leaves| && k < CeilLog2(|leaves|)
    ensures Ancestor(i, k) < LevelLen(|leaves|, k) && Ancestor(i, k + 1) < LevelLen(|leaves|, k + 1)
    ensures mt.EntryAt(i, k).target == NodeAt(pair, leaves, k + 1, Ancestor(i, k + 1))
    ensures EntryHash(pair, mt.EntryAt(i, k), NodeAt(pair, leaves, k, Ancestor(i, k))) == mt.EntryAt(i, k).target
  {
    AncestorInLevel(|leaves|, i, k);
    AncestorInLevel(|leaves|, i, k + 1);
    var len, p := LevelLen(|leaves|, k), Ancestor(i, k);
    SiblingsAreChildren(len, p);
    StoredNode(pair, leaves, mt, k, SiblingIndex(len, p));
    StoredNode(pair, leaves, mt, k + 1, p / 2);
  }

  /** Each entry of a path leads from one value to the next. */
  ghost predicate Climbs<T>(pair: (T, T) -> T, path: Path<T>, own: seq<T>) {
    && |own| == |path| + 1
    && forall j :: 0 <= j < |path| ==> path[j].target == own[j + 1] == EntryHash(pair, path[j], own[j])
  }

  /** Such a path accepts the value it starts from. */
  lemma {:induction false} ClimbAccepts<T>(pair: (T, T) -> T, path: Path<T>, own: seq<T>)
    requires Climbs(pair, path, own)
    ensures PathAccepts(pair, path, own[0])
  {
    if path != [] {
      ClimbAccepts(pair, path[1..], own[1..]);
    }
  }

  /** The nodes over leaf `i`, from the leaf to the root. */
  function Ancestry<T>(pair: (T, T) -> T, leaves: seq<T>, i: nat): (own: seq<T>)
    requires i < |leaves|
    ensures |own| == CeilLog2(|leaves|) + 1
  {
    seq(CeilLog2(|leaves|) + 1, k requires 0 <= k <= CeilLog2(|leaves|) =>
      AncestorInLevel(|leaves|, i, k);
      NodeAt(pair, leaves, k, Ancestor(i, k)))
  }

  /** The entry of level `j` leads from one ancestor of leaf `i` to the next. */
  lemma EntryClimbs<T>(
    pair: (T, T) -> T, leaves: seq<T>, mt: FlatTree<T>, i: nat, j: nat, k: nat, own: seq<T>, e: ProofEntry<T>)
    requires mt.Stores(pair, leaves) && i < |leaves| && j < CeilLog2(|leaves|) && k == j + 1
    requires own == Ancestry(pair, leaves, i) && e == mt.EntryAt(i, j)
    ensures e.target == own[k] == EntryHash(pair, e, own[j])
  {
    EntryHits(pair, leaves, mt, i, j);
    AncestryAt(pair, leaves, i, j);
    AncestryAt(pair, leaves, i, k);
  }

  lemma AncestryAt<T>(pair: (T, T) -> T, leaves: seq<T>, i: nat, k: nat)
    requires i < |leaves| && k <= CeilLog2(|leaves|)
    ensures Ancestor(i, k) < LevelLen(|leaves|, k)
    ensures Ancestry(pair, leaves, i)[k] == NodeAt(pair, leaves, k, Ancestor(i, k))
  {
    AncestorInLevel(|leaves|, i, k);
  }

  lemma PathClimbsAt<T>(
    pair: (T, T) -> T, leaves: seq<T>, mt: FlatTree<T>, i: nat, path: Path<T>, own: seq<T>, j: nat)
    requires mt.Stores(pair, leaves) && i < |leaves| && mt.IsPathOf(path, i)
    requires own == Ancestry(pair, leaves, i) && j < |path|
    ensures path[j].target == own[j + 1] == EntryHash(pair, path[j], own[j])
  {
    EntryClimbs(pair, leaves, mt, i, j, j + 1, own, path[j]);
  }

  /** The path of leaf `i` climbs over its ancestors. */
  lemma PathClimbs<T>(pair: (T, T) -> T, leaves: seq<T>, mt: FlatTree<T>, i: nat, path: Path<T>, own: seq<T>)
    requires mt.Stores(pair, leaves) && i < |leaves| && mt.IsPathOf(path, i)
    requires own == Ancestry(pair, leaves, i)
    ensures Climbs(pair, path, own)
  {
    forall j | 0 <= j < |path|
      ensures path[j].target == own[j + 1] == EntryHash(pair, path[j], own[j])
    {
      PathClimbsAt(pair, leaves, mt, i, path, own, j);
    }
  }

  /** With two leaves or more, a candidate is accepted exactly when it meets the first entry's hash. */
  lemma FirstEntryDecides<T>(
    pair: (T, T) -> T, leaves: seq<T>, mt: FlatTree<T>, i: nat, path: Path<T>, c: T)
    requires mt.Stores(pair, leaves)
    requires i < |leaves| && mt.IsPathOf(path, i) && |leaves| >= 2
    ensures PathAccepts(pair, path, c) <==> EntryHash(pair, path[0], c) == EntryHash(pair, path[0], leaves[i])
  {
    var own := Ancestry(pair, leaves, i);
    PathClimbs(pair, leaves, mt, i, path, own);
    ClimbAccepts(pair, path[1..], own[1..]);
  }

  /** The bytes hashed for the first entry of a path. */
  function EntryPreimage(e: ProofEntry<Digest>, candidate: Digest): Bytes {
    PairPreimage(false, e.left.GetOr(candidate), e.right.GetOr(candidate))
  }

  /** The candidate enters the entry beside a fixed sibling, so its place there shows it. */
  lemma EntryPreimageInjective(e: ProofEntry<Digest>, a: Digest, b: Digest)
    requires e.OneSibling() && EntryPreimage(e, a) == EntryPreimage(e, b)
    ensures a == b
  {
    if e.left.Some? {
      ConcatSplits(e.left.value, a, e.left.value, b);
    } else {
      ConcatSplits(a, e.right.value, b, e.right.value);
    }
  }

  /**
   * For an unsorted tree of two leaves or more the path of leaf `i` accepts exactly the hash of item
   * `i`, unless the two strings hashed for the first entry collide.
   */
  lemma PathAcceptsExactly(
    h: HashFn, items: seq<Bytes>, mt: HashTree, i: nat, path: Path<Digest>, c: Digest)
    requires mt.Stores(PairOf(h, false), LeafHashes(h, items))
    requires i < |items| && mt.IsPathOf(path, i) && |items| >= 2
    requires CollisionFree(h, {EntryPreimage(path[0], LeafHash(h, items[i])), EntryPreimage(path[0], c)})
    ensures PathAccepts(PairOf(h, false), path, c) <==> c == LeafHash(h, items[i])
  {
    FirstEntryDecides(PairOf(h, false), LeafHashes(h, items), mt, i, path, c);
    assert path[0] == mt.EntryAt(i, 0);
    if EntryHash(PairOf(h, false), path[0], c) == EntryHash(PairOf(h, false), path[0], LeafHash(h, items[i])) {
      EntryPreimageInjective(path[0], c, LeafHash(h, items[i]));
    }
  }

  /** A tree of one leaf has the empty path, and the empty path accepts every candidate. */
  lemma OneLeafAcceptsAnything(h: HashFn, items: seq<Bytes>, mt: HashTree, path: Path<Digest>, c: Digest)
    requires mt.Stores(PairOf(h, false), LeafHashes(h, items))
    requires |items| == 1 && mt.IsPathOf(path, 0)
    ensures path == [] && PathAccepts(PairOf(h, false), path, c)
  {
  }
}
