/**
 * The Merkle tree stored flat in one vector: construction level by level, its root, and the path of
 * a leaf. The hashes are a type parameter and the hash of two nodes is a function `pair`, so that
 * nothing here depends on bytes or on the order of siblings; module `MerkleTree` supplies both.
 */
module FlatTree {
  import opened Words
  import opened TreeShape

  /**
   * What a Merkle tree means, independently of how it is stored: the node at position `i` of level
   * `k` is computed top-down from the two nodes below it, the odd last node being paired with itself.
   */
  function NodeAt<T>(pair: (T, T) -> T, leaves: seq<T>, k: nat, i: nat): T
    requires i < LevelLen(|leaves|, k)
  {
    if k == 0 then leaves[i]
    else pair(NodeAt(pair, leaves, k - 1, 2 * i),
              NodeAt(pair, leaves, k - 1, RightChild(LevelLen(|leaves|, k - 1), i)))
  }

  /** The recursive Merkle root. */
  function RootOf<T>(pair: (T, T) -> T, leaves: seq<T>): T
    requires leaves != []
  {
    LevelsEndAtHeight(|leaves|, CeilLog2(|leaves|));
    NodeAt(pair, leaves, CeilLog2(|leaves|), 0)
  }

  /** The first `i` nodes of level `k`. */
  function LevelPrefix<T>(pair: (T, T) -> T, leaves: seq<T>, k: nat, i: nat): (level: seq<T>)
    requires i <= LevelLen(|leaves|, k)
    ensures |level| == i
    decreases i
  {
    if i == 0 then [] else LevelPrefix(pair, leaves, k, i - 1) + [NodeAt(pair, leaves, k, i - 1)]
  }

  /** Level `k` of the tree. */
  function TreeLevel<T>(pair: (T, T) -> T, leaves: seq<T>, k: nat): (level: seq<T>)
    ensures |level| == LevelLen(|leaves|, k)
  {
    LevelPrefix(pair, leaves, k, LevelLen(|leaves|, k))
  }

  lemma {:induction false} LevelPrefixAt<T>(pair: (T, T) -> T, leaves: seq<T>, k: nat, i: nat, p: nat)
    requires p < i <= LevelLen(|leaves|, k)
    ensures LevelPrefix(pair, leaves, k, i)[p] == NodeAt(pair, leaves, k, p)
    decreases i
  {
    if p < i - 1 {
      LevelPrefixAt(pair, leaves, k, i - 1, p);
    }
  }

  /** The levels below level `k`, one after another. */
  function LevelsBelow<T>(pair: (T, T) -> T, leaves: seq<T>, k: nat): (nodes: seq<T>)
    ensures |nodes| == LevelStart(|leaves|, k)
  {
    if k == 0 then [] else LevelsBelow(pair, leaves, k - 1) + TreeLevel(pair, leaves, k - 1)
  }

  lemma LevelOfLeaves<T>(pair: (T, T) -> T, leaves: seq<T>)
    ensures LevelsBelow(pair, leaves, 1) == leaves
  {
    forall p: nat | p < |leaves|
      ensures TreeLevel(pair, leaves, 0)[p] == leaves[p]
    {
      LevelPrefixAt(pair, leaves, 0, |leaves|, p);
    }
    assert TreeLevel(pair, leaves, 0) == leaves;
  }

  /** Each level sits where `LevelStart` says. */
  lemma {:induction false} LevelInPlace<T>(pair: (T, T) -> T, leaves: seq<T>, k: nat, m: nat)
    requires k < m
    ensures LevelStart(|leaves|, k) + LevelLen(|leaves|, k) <= LevelStart(|leaves|, m)
    ensures LevelsBelow(pair, leaves, m)[LevelStart(|leaves|, k)..LevelStart(|leaves|, k) + LevelLen(|leaves|, k)]
      == TreeLevel(pair, leaves, k)
    decreases m
  {
    var below, level := LevelsBelow(pair, leaves, m - 1), TreeLevel(pair, leaves, m - 1);
    var start := LevelStart(|leaves|, k);
    var end := start + LevelLen(|leaves|, k);
    if k < m - 1 {
      LevelInPlace(pair, leaves, k, m - 1);
      assert below[start..end] == TreeLevel(pair, leaves, k);
      SliceOfFirst(below, level, start, end);
    } else {
      SliceOfSecond(below, level);
    }
  }

  lemma SliceOfFirst<T>(a: seq<T>, b: seq<T>, from: nat, to: nat)
    requires from <= to <= |a|
    ensures (a + b)[from..to] == a[from..to]
  {
  }

  lemma SliceOfSecond<T>(a: seq<T>, b: seq<T>)
    ensures (a + b)[|a|..|a| + |b|] == b
  {
  }

  // ---- paths

  datatype ProofEntry<T> = ProofEntry(target: T, left: Option<T>, right: Option<T>) {
    /** `ProofEntry::new` asserts that exactly one sibling is given; here that is proved of every call. */
    static function New(target: T, left: Option<T>, right: Option<T>): (e: ProofEntry<T>)
      requires left.None? != right.None?
      ensures e.OneSibling() && e.target == target
      ensures left.Some? ==> e.left == left && e.right == None
      ensures right.Some? ==> e.left == None && e.right == right
    {
      ProofEntry(target, left, right)
    }

    predicate OneSibling() {
      left.None? != right.None?
    }
  }

  type Path<T> = seq<ProofEntry<T>>

  function EntryHash<T>(pair: (T, T) -> T, e: ProofEntry<T>, candidate: T): T {
    pair(e.left.GetOr(candidate), e.right.GetOr(candidate))
  }

  /**
   * `Proof::verify`: folds the candidate up the entries, giving up at the first entry whose target is
   * not the hash of candidate and sibling.
   */
  predicate PathAccepts<T(==)>(pair: (T, T) -> T, path: Path<T>, candidate: T) {
    path == [] ||
    var hash := EntryHash(pair, path[0], candidate);
    hash == path[0].target && PathAccepts(pair, path[1..], hash)
  }

  // ---- the tree

  datatype FlatTree<T> = FlatTree(leafCount: nat, nodes: seq<T>) {
    predicate Valid() {
      |nodes| == NodeCount(leafCount)
    }

    /** The stored level `k`: a slice of the vector. */
    function Level(k: nat): (level: seq<T>)
      requires Valid() && k <= CeilLog2(leafCount)
      ensures |level| == LevelLen(leafCount, k)
    {
      StartMonotone(leafCount, k + 1, CeilLog2(leafCount) + 1);
      nodes[LevelStart(leafCount, k)..LevelStart(leafCount, k) + LevelLen(leafCount, k)]
    }

    /** The vector is the tree over `leaves`, level after level from the leaves to the root. */
    ghost predicate Stores(pair: (T, T) -> T, leaves: seq<T>) {
      && leafCount == |leaves|
      && nodes == LevelsBelow(pair, leaves, CeilLog2(leafCount) + 1)
    }

    /** Reading the vector level by level gives the levels of the tree. */
    lemma StoredLevel(pair: (T, T) -> T, leaves: seq<T>, k: nat)
      requires Stores(pair, leaves) && k <= CeilLog2(leafCount)
      ensures Level(k) == TreeLevel(pair, leaves, k)
    {
      LevelInPlace(pair, leaves, k, CeilLog2(leafCount) + 1);
    }

    function GetRoot(): Option<T> {
      if nodes == [] then None else Some(nodes[|nodes| - 1])
    }

    /** The last node of the vector is the recursive root; only a tree without leaves has none. */
    lemma RootIsStoredLast(pair: (T, T) -> T, leaves: seq<T>)
      requires Stores(pair, leaves)
      ensures GetRoot() == if leaves == [] then None else Some(RootOf(pair, leaves))
    {
      if leaves == [] {
        assert NodeCount(0) == 0;
      } else {
        var height := CeilLog2(leafCount);
        LevelsEndAtHeight(leafCount, height);
        StoredLevel(pair, leaves, height);
        LevelPrefixAt(pair, leaves, height, 1, 0);
        assert nodes[LevelStart(leafCount, height)] == Level(height)[0];
      }
    }

    /** The sibling, on level `k`, of the ancestor of leaf `index`. */
    function SiblingOf(index: nat, k: nat): T
      requires Valid() && index < leafCount && k <= CeilLog2(leafCount)
    {
      AncestorInLevel(leafCount, index, k);
      Level(k)[SiblingIndex(LevelLen(leafCount, k), Ancestor(index, k))]
    }

    /** The siblings the walk carries on reaching level `k`: those of the level below, on one side. */
    function SiblingsBelow(index: nat, k: nat): (Option<T>, Option<T>)
      requires Valid() && index < leafCount && k <= CeilLog2(leafCount) + 1
    {
      if k == 0 then (None, None)
      else if Ancestor(index, k - 1) % 2 == 0 then (None, Some(SiblingOf(index, k - 1)))
      else (Some(SiblingOf(index, k - 1)), None)
    }

    /** The entry that leads from level `k` to level `k + 1` on the path of leaf `index`. */
    function EntryAt(index: nat, k: nat): (e: ProofEntry<T>)
      requires Valid() && index < leafCount && k < CeilLog2(leafCount)
      ensures e.OneSibling()
    {
      AncestorInLevel(leafCount, index, k + 1);
      var (left, right) := SiblingsBelow(index, k + 1);
      ProofEntry(Level(k + 1)[Ancestor(index, k + 1)], left, right)
    }

    /** `path` starts with the entries of leaf `index`. */
    ghost predicate IsPathPrefix(path: Path<T>, index: nat)
      requires Valid() && index < leafCount
    {
      && |path| <= CeilLog2(leafCount)
      && forall k :: 0 <= k < |path| ==> path[k] == EntryAt(index, k)
    }

    /** `path` has one entry for every level but the root's, each with the sibling on that level. */
    ghost predicate IsPathOf(path: Path<T>, index: nat)
      requires Valid() && index < leafCount
    {
      IsPathPrefix(path, index) && |path| == CeilLog2(leafCount)
    }

    /** What one round of the walk reads from the vector. */
    lemma StoredAt(index: nat, k: nat)
      requires Valid() && index < leafCount && k <= CeilLog2(leafCount)
      ensures LevelStart(leafCount, k) + LevelLen(leafCount, k) <= |nodes|
      ensures
        var level, p := Level(k), Ancestor(index, k);
        && p < |level|
        && SiblingsBelow(index, k + 1) ==
           if p % 2 == 0 then (None, Some(level[if p + 1 < |level| then p + 1 else p]))
           else (Some(level[p - 1]), None)
    {
      AncestorInLevel(leafCount, index, k);
      StartMonotone(leafCount, k + 1, CeilLog2(leafCount) + 1);
    }

    lemma EntryIsNext(index: nat, k: nat, path: Path<T>)
      requires Valid() && index < leafCount && 0 < k <= CeilLog2(leafCount)
      requires IsPathPrefix(path, index) && |path| == k - 1
      ensures Ancestor(index, k) < LevelLen(leafCount, k)
      ensures
        var (lsib, rsib) := SiblingsBelow(index, k);
        && lsib.None? != rsib.None?
        && IsPathPrefix(path + [ProofEntry(Level(k)[Ancestor(index, k)], lsib, rsib)], index)
    {
      AncestorInLevel(leafCount, index, k);
      var (lsib, rsib) := SiblingsBelow(index, k);
      assert ProofEntry(Level(k)[Ancestor(index, k)], lsib, rsib) == EntryAt(index, k - 1);
    }

    /** One round of the walk, on the level that starts at `start` and has `len` nodes. */
    lemma OneRound(index: nat, k: nat, start: nat, len: nat, p: nat, path: Path<T>)
      requires Valid() && index < leafCount && len > 0
      requires start == LevelStart(leafCount, k) && len == LevelLen(leafCount, k) && p == Ancestor(index, k)
      requires IsPathPrefix(path, index) && |path| == if k == 0 then 0 else k - 1
      ensures k <= CeilLog2(leafCount) && start + len <= |nodes| && p < len
      ensures start + len == LevelStart(leafCount, k + 1) && NextLevelLen(len) == LevelLen(leafCount, k + 1)
      ensures
        var level, (lsib, rsib) := nodes[start..start + len], SiblingsBelow(index, k);
        && (k > 0 ==> lsib.None? != rsib.None? && IsPathPrefix(path + [ProofEntry(level[p], lsib, rsib)], index))
        && SiblingsBelow(index, k + 1) ==
           if p % 2 == 0 then (None, Some(level[if p + 1 < len then p + 1 else p])) else (Some(level[p - 1]), None)
    {
      LevelsEndAtHeight(leafCount, k);
      StoredAt(index, k);
      if k > 0 {
        EntryIsNext(index, k, path);
      }
    }

    /** Walks from the leaf to the root, one entry a level. */
    method FindPath(index: nat) returns (r: Option<Path<T>>)
      requires Valid()
      ensures r.None? <==> index >= leafCount
      ensures r.Some? ==> IsPathOf(r.value, index)
    {
      if index >= leafCount {
        return None;
      }
      var levelLen := leafCount;
      var levelStart := 0;
      var path: Path<T> := [];
      var nodeIndex := index;
      var lsib: Option<T> := None;
      var rsib: Option<T> := None;
      ghost var k := 0;
      while levelLen > 0
        invariant k <= CeilLog2(leafCount) + 1
        invariant levelLen == LevelLen(leafCount, k) && levelStart == LevelStart(leafCount, k)
        invariant nodeIndex == Ancestor(index, k)
        invariant (lsib, rsib) == SiblingsBelow(index, k)
        invariant |path| == if k == 0 then 0 else k - 1
        invariant IsPathPrefix(path, index)
        decreases levelLen
      {
        OneRound(index, k, levelStart, levelLen, nodeIndex, path);
        var level := nodes[levelStart..levelStart + levelLen];
        var target := level[nodeIndex];
        if lsib.Some? || rsib.Some? {
          path := path + [ProofEntry.New(target, lsib, rsib)];
        }
        if nodeIndex % 2 == 0 {
          lsib := None;
          rsib := if nodeIndex + 1 < |level| then Some(level[nodeIndex + 1]) else Some(level[nodeIndex]);
        } else {
          lsib := Some(level[nodeIndex - 1]);
          rsib := None;
        }
        nodeIndex := nodeIndex / 2;
        levelStart := levelStart + levelLen;
        levelLen := NextLevelLen(levelLen);
        k := k + 1;
      }
      assert k == CeilLog2(leafCount) + 1 by { LevelsEndAtHeight(leafCount, k); }
      return Some(path);
    }
  }

  /** Node `i` of level `k + 1` is the hash of two nodes that are stored already. */
  lemma StoredChildren<T>(
    pair: (T, T) -> T, leaves: seq<T>, k: nat, i: nat, nodes: seq<T>, start: nat, len: nat)
    requires start == LevelStart(|leaves|, k) && len == LevelLen(|leaves|, k) && i < NextLevelLen(len)
    requires LevelsBelow(pair, leaves, k + 1) <= nodes
    ensures start + len <= |nodes| && 2 * i < len
    ensures NodeAt(pair, leaves, k + 1, i)
      == pair(nodes[start + 2 * i], if 2 * i + 1 < len then nodes[start + 2 * i + 1] else nodes[start + 2 * i])
  {
    var p, q := 2 * i, RightChild(len, i);
    var below, level := LevelsBelow(pair, leaves, k), TreeLevel(pair, leaves, k);
    LevelPrefixAt(pair, leaves, k, len, p);
    LevelPrefixAt(pair, leaves, k, len, q);
    IndexMiddle(below, level, nodes, p);
    IndexMiddle(below, level, nodes, q);
  }

  /** Pushing one more node of level `k`. */
  lemma PushNode<T>(pair: (T, T) -> T, leaves: seq<T>, k: nat, i: nat, done: seq<T>, nodes: seq<T>)
    requires i < LevelLen(|leaves|, k)
    requires nodes == done + LevelPrefix(pair, leaves, k, i)
    ensures nodes + [NodeAt(pair, leaves, k, i)] == done + LevelPrefix(pair, leaves, k, i + 1)
  {
    Reassociate(done, LevelPrefix(pair, leaves, k, i), NodeAt(pair, leaves, k, i));
  }

  lemma Reassociate<T>(a: seq<T>, b: seq<T>, x: T)
    ensures a + b + [x] == a + (b + [x])
  {
  }

  lemma IndexMiddle<T>(a: seq<T>, b: seq<T>, c: seq<T>, i: nat)
    requires i < |b| && a + b <= c
    ensures |a| + i < |c| && c[|a| + i] == b[i]
  {
    assert c[|a| + i] == (a + b)[|a| + i];
  }

  /** The inner loop of the construction: pushes one level, computed from the one before it. */
  method PushLevel<T>(
    done: seq<T>, pair: (T, T) -> T, prevLevelStart: nat, prevLevelLen: nat, levelLen: nat,
    ghost leaves: seq<T>, ghost k: nat)
    returns (nodes: seq<T>)
    requires prevLevelStart == LevelStart(|leaves|, k) && prevLevelLen == LevelLen(|leaves|, k)
    requires levelLen == NextLevelLen(prevLevelLen)
    requires done == LevelsBelow(pair, leaves, k + 1)
    ensures nodes == LevelsBelow(pair, leaves, k + 2)
  {
    nodes := done;
    for i := 0 to levelLen
      invariant nodes == done + LevelPrefix(pair, leaves, k + 1, i)
    {
      StoredChildren(pair, leaves, k, i, nodes, prevLevelStart, prevLevelLen);
      PushNode(pair, leaves, k + 1, i, done, nodes);
      var prevLevelIdx := 2 * i;
      var lsib := nodes[prevLevelStart + prevLevelIdx];
      var rsib := if prevLevelIdx + 1 < prevLevelLen
                  then nodes[prevLevelStart + prevLevelIdx + 1]
                  else nodes[prevLevelStart + prevLevelIdx];
      nodes := nodes + [pair(lsib, rsib)];
    }
  }

  /** Pushes the leaves, then each level computed from the one before it, until a level of one node. */
  method Build<I, T>(items: seq<I>, leaf: I -> T, pair: (T, T) -> T) returns (mt: FlatTree<T>)
    ensures mt.Stores(pair, Leaves(items, leaf))
  {
    var nodes: seq<T> := [];
    ghost var leaves := Leaves(items, leaf);
    for j := 0 to |items|
      invariant nodes == leaves[..j]
    {
      nodes := nodes + [leaf(items[j])];
    }
    LevelOfLeaves(pair, leaves);
    ghost var k := 0;
    var levelLen := NextLevelLen(|items|);
    var levelStart := |items|;
    var prevLevelLen := |items|;
    var prevLevelStart := 0;
    while levelLen > 0
      invariant prevLevelLen == LevelLen(|leaves|, k) && levelLen == NextLevelLen(prevLevelLen)
      invariant prevLevelStart == LevelStart(|leaves|, k) && levelStart == prevLevelStart + prevLevelLen
      invariant if |items| == 0 then k == 0 else prevLevelLen > 0
      invariant nodes == LevelsBelow(pair, leaves, k + 1)
      decreases levelLen
    {
      nodes := PushLevel(nodes, pair, prevLevelStart, prevLevelLen, levelLen, leaves, k);
      prevLevelStart := levelStart;
      prevLevelLen := levelLen;
      levelStart := levelStart + levelLen;
      levelLen := NextLevelLen(levelLen);
      k := k + 1;
    }
    TopLevel(|leaves|, k);
    return FlatTree(|items|, nodes);
  }

  function Leaves<I, T>(items: seq<I>, leaf: I -> T): (leaves: seq<T>)
    ensures |leaves| == |items|
    ensures forall i :: 0 <= i < |items| ==> leaves[i] == leaf(items[i])
  {
    seq(|items|, i requires 0 <= i < |items| => leaf(items[i]))
  }
}
