/** The tree of an airdrop: merged nodes, root, totals and proofs, with the checks made on it. */
module AirdropMerkleTree {
  import opened Words
  import opened Digests
  import opened TreeShape
  import opened TreeNodes
  import opened Rows
  import opened Merging
  import MerkleTree
  import MerkleProofs
  import Verify

  const MAX_NODES: int := 0xffff_ffff

  datatype AirdropMerkleTree = AirdropMerkleTree(
    merkleRoot: Digest,
    airdropVersion: u64,
    maxNumNodes: u64,
    totalUnlockedAmount: u64,
    totalLockedAmount: u64,
    treeNodes: seq<TreeNode>)

  /** `try_fold` with checked additions, unwrapped. */
  function CheckedTotal(nodes: seq<TreeNode>, col: Column): Result<u64, BuildError> {
    if nodes == [] then Ok(0)
    else
      var acc :- CheckedTotal(nodes[..|nodes| - 1], col);
      var sum := acc + Amount(nodes[|nodes| - 1], col);
      if sum < U64_LIMIT then Ok(sum) else Err(Panicked)
  }

  lemma {:induction false} CheckedTotalExact(nodes: seq<TreeNode>, col: Column)
    ensures CheckedTotal(nodes, col)
      == if Total(nodes, col) < U64_LIMIT then Ok(Total(nodes, col)) else Err(Panicked)
  {
    if nodes != [] {
      CheckedTotalExact(nodes[..|nodes| - 1], col);
    }
  }

  /** A node carries the proof of its own position. */
  ghost predicate HasProof(h: HashFn, nodes: seq<TreeNode>, i: nat)
    requires i < |nodes|
  {
    nodes[i].proof == Some(MerkleProofs.ProofOf(h, NodeHashes(h, nodes), i))
  }

  /** What `validate` asks of a tree; the proofs stored in the nodes are not part of it. */
  predicate Checks(h: HashFn, t: AirdropMerkleTree) {
    && Countable(t)
    && t.treeNodes != []
    && t.merkleRoot == AirdropRoot(h, t.treeNodes)
    && t.totalUnlockedAmount == Total(t.treeNodes, Unlocked)
    && t.totalLockedAmount == Total(t.treeNodes, Locked)
  }

  /** The checks on the number of nodes: the declared one, within the limit, and of different claimants. */
  predicate Countable(t: AirdropMerkleTree) {
    t.maxNumNodes == |t.treeNodes| <= MAX_NODES && DistinctClaimants(t.treeNodes)
  }

  /** What every tree returned by `New` is: checked, and every node with its proof. */
  ghost predicate WellBuilt(h: HashFn, t: AirdropMerkleTree) {
    Checks(h, t) && forall i :: 0 <= i < |t.treeNodes| ==> HasProof(h, t.treeNodes, i)
  }

  /** `get_proof` from the tree over the hashes of `nodes` gives the proof of the position. */
  method ProofFrom(h: HashFn, mt: MerkleTree.HashTree, i: nat, ghost items: seq<Digest>)
    returns (proof: seq<Digest>)
    requires mt.Stores(MerkleTree.PairOf(h, true), MerkleTree.LeafHashes(h, items)) && i < |items|
    ensures proof == MerkleProofs.ProofOf(h, items, i)
  {
    proof := MerkleTree.GetProof(mt, i);
    MerkleProofs.SiblingPathIsStored(h, items, mt, i, CeilLog2(|items|), proof);
  }

  /**
   * Rebuilds the tree and checks every leaf. Once the root agrees no leaf can fail; a root that does
   * not agree panics, and a list without nodes is the only error value.
   */
  method VerifyProof(h: HashFn, t: AirdropMerkleTree) returns (r: Result<(), BuildError>)
    ensures r == if t.treeNodes == [] then Err(MerkleValidationError)
                 else if t.merkleRoot == AirdropRoot(h, t.treeNodes) then Ok(())
                 else Err(Panicked)
  {
    var root := t.merkleRoot;
    var hashedNodes := NodeHashes(h, t.treeNodes);
    var mk := MerkleTree.New(h, hashedNodes, true);
    var computed := mk.GetRoot();
    if computed.None? {
      return Err(MerkleValidationError);
    }
    if computed.value != root {
      return Err(Panicked);
    }
    for i := 0 to |hashedNodes| {
      var node := LeafHash(h, hashedNodes[i]);
      var proof := ProofFrom(h, mk, i, hashedNodes);
      var ok := Verify.Verify(h, proof, root, node);
      MerkleProofs.ProofComplete(h, hashedNodes, i);
      if !ok {
        return Err(MerkleValidationError);
      }
    }
    return Ok(());
  }

  /** What makes `validate` panic once the nodes are counted: a total past 64 bits, or a wrong root. */
  predicate Panics(h: HashFn, t: AirdropMerkleTree) {
    var unlocked, locked := Total(t.treeNodes, Unlocked), Total(t.treeNodes, Locked);
    unlocked >= U64_LIMIT
    || (unlocked == t.totalUnlockedAmount
        && (locked >= U64_LIMIT
            || (locked == t.totalLockedAmount && t.treeNodes != [] && t.merkleRoot != AirdropRoot(h, t.treeNodes))))
  }

  /**
   * The checks in order. It fails with a panic exactly in the cases of `Panics`, and with a validation
   * error whenever else a check is not met.
   */
  method Validate(h: HashFn, t: AirdropMerkleTree) returns (r: Result<(), BuildError>)
    ensures r.Ok? <==> Checks(h, t)
    ensures r == Err(Panicked) <==> Countable(t) && Panics(h, t)
    ensures r.Ok? || r == Err(Panicked) || r == Err(MerkleValidationError)
  {
    SetOfClaimants(t.treeNodes);
    CheckedTotalExact(t.treeNodes, Unlocked);
    CheckedTotalExact(t.treeNodes, Locked);
    if t.maxNumNodes > 0x1_0000_0000 - 1 {
      return Err(MerkleValidationError);
    }
    if |t.treeNodes| != t.maxNumNodes {
      return Err(MerkleValidationError);
    }
    if |ClaimantSet(t.treeNodes)| != |t.treeNodes| {
      return Err(MerkleValidationError);
    }
    var totalUnlocked :- CheckedTotal(t.treeNodes, Unlocked);
    if totalUnlocked != t.totalUnlockedAmount {
      return Err(MerkleValidationError);
    }
    var totalLocked :- CheckedTotal(t.treeNodes, Locked);
    if totalLocked != t.totalLockedAmount {
      return Err(MerkleValidationError);
    }
    var proofs := VerifyProof(h, t);
    if proofs == Err(MerkleValidationError) {
      return Err(MerkleValidationError);
    }
    return proofs;
  }

  /** Same claimants and amounts, proofs aside. */
  ghost predicate SameTriples(a: seq<TreeNode>, b: seq<TreeNode>) {
    && |a| == |b|
    && forall i :: 0 <= i < |a| ==> Presents(a[i], b[i].claimant, b[i].amount, b[i].lockedAmount)
  }

  lemma SameTriplesSameHashes(h: HashFn, a: seq<TreeNode>, b: seq<TreeNode>)
    requires SameTriples(a, b)
    ensures NodeHashes(h, a) == NodeHashes(h, b)
    ensures SameTotals(a, b)
    ensures DistinctClaimants(a) <==> DistinctClaimants(b)
  {
    TotalSame(a, b, Unlocked);
    TotalSame(a, b, Locked);
    assert forall i :: 0 <= i < |a| ==> a[i].claimant == b[i].claimant;
  }

  /** The loop that stores every node's proof. */
  method AttachProofs(h: HashFn, mt: MerkleTree.HashTree, nodes: seq<TreeNode>) returns (proved: seq<TreeNode>)
    requires mt.Stores(MerkleTree.PairOf(h, true), MerkleTree.LeafHashes(h, NodeHashes(h, nodes)))
    ensures SameTriples(proved, nodes)
    ensures forall i :: 0 <= i < |proved| ==> HasProof(h, proved, i)
  {
    ghost var items := NodeHashes(h, nodes);
    proved := nodes;
    for i := 0 to |nodes|
      invariant SameTriples(proved, nodes)
      invariant forall j :: 0 <= j < i ==> proved[j].proof == Some(MerkleProofs.ProofOf(h, items, j))
    {
      var proof := ProofFrom(h, mt, i, items);
      proved := proved[i := proved[i].(proof := Some(proof))];
    }
    SameTriplesSameHashes(h, proved, nodes);
  }

  /** The sums of all rows fit 64 bits. */
  predicate SumsFit(rows: seq<TreeNode>) {
    Total(rows, Unlocked) < U64_LIMIT && Total(rows, Locked) < U64_LIMIT
  }

  /** Merged nodes with their proofs, and the root they prove against. */
  ghost predicate Proved(h: HashFn, nodes: seq<TreeNode>, root: Option<Digest>, rows: seq<TreeNode>) {
    && IsMergeOf(nodes, rows) && SameTotals(nodes, rows) && DistinctClaimants(nodes)
    && (nodes == [] <==> rows == [])
    && (root == if nodes == [] then None else Some(AirdropRoot(h, nodes)))
    && forall i :: 0 <= i < |nodes| ==> HasProof(h, nodes, i)
  }

  /** The first half of `New`: merge, hash, build, attach the proofs. */
  method ProveRows(h: HashFn, rows: seq<TreeNode>)
    returns (r: Result<(seq<TreeNode>, Option<Digest>), BuildError>)
    ensures r.Ok? ==> Proved(h, r.value.0, r.value.1, rows)
    ensures r.Err? ==> r.error == Panicked && !SumsFit(rows)
  {
    if SumsFit(rows) {
      TotalsFitEach(rows);
    }
    var merged :- Merge(rows);
    MergeIsDistinct(merged, rows);
    MergeLength(merged, rows);
    var hashedNodes := NodeHashes(h, merged);
    var tree := MerkleTree.New(h, hashedNodes, true);
    var treeNodes := AttachProofs(h, tree, merged);
    SameTriplesSameHashes(h, treeNodes, merged);
    TripleMerge(treeNodes, merged, rows);
    return Ok((treeNodes, tree.GetRoot()));
  }

  /** The second half of `New`: the totals, the record and its validation. */
  method Assemble(h: HashFn, treeNodes: seq<TreeNode>, root: Option<Digest>, airdropVersion: u64)
    returns (r: Result<AirdropMerkleTree, BuildError>)
    requires DistinctClaimants(treeNodes)
    requires root == if treeNodes == [] then None else Some(AirdropRoot(h, treeNodes))
    requires forall i :: 0 <= i < |treeNodes| ==> HasProof(h, treeNodes, i)
    ensures r == Err(Panicked) <==> !SumsFit(treeNodes)
    ensures r == Err(MerkleRootError) <==> treeNodes == []
    ensures r == Err(MerkleValidationError) <==> SumsFit(treeNodes) && |treeNodes| > MAX_NODES
    ensures r.Ok? ==> WellBuilt(h, r.value) && r.value.airdropVersion == airdropVersion
                      && r.value.treeNodes == treeNodes
  {
    CheckedTotalExact(treeNodes, Unlocked);
    CheckedTotalExact(treeNodes, Locked);
    var totalUnlocked :- CheckedTotal(treeNodes, Unlocked);
    var totalLocked :- CheckedTotal(treeNodes, Locked);
    if root.None? {
      return Err(MerkleRootError);
    }
    var airdrop := AirdropMerkleTree(
      root.value, airdropVersion, |treeNodes| % U64_LIMIT, totalUnlocked, totalLocked, treeNodes);
    var _ :- Validate(h, airdrop);
    return Ok(airdrop);
  }

  /**
   * Builds an airdrop tree from rows. It panics exactly when a sum over all rows leaves 64 bits, returns
   * an error exactly for no rows or too many claimants, and in every other case a well-built tree with
   * one node per claimant in order of first appearance; its own validation never fails.
   */
  method New(h: HashFn, rows: seq<TreeNode>, airdropVersion: u64) returns (r: Result<AirdropMerkleTree, BuildError>)
    ensures r == Err(Panicked) <==> !SumsFit(rows)
    ensures r == Err(MerkleRootError) <==> rows == []
    ensures r == Err(MerkleValidationError) <==> SumsFit(rows) && |Claimants(rows)| > MAX_NODES
    ensures r.Ok? ==> WellBuilt(h, r.value) && r.value.airdropVersion == airdropVersion
    ensures r.Ok? ==> IsMergeOf(r.value.treeNodes, rows) && SameTotals(r.value.treeNodes, rows)
  {
    var proved :- ProveRows(h, rows);
    var (treeNodes, root) := proved;
    r := Assemble(h, treeNodes, root, airdropVersion);
  }

  lemma MergeLength(merged: seq<TreeNode>, rows: seq<TreeNode>)
    requires IsMergeOf(merged, rows)
    ensures merged == [] <==> rows == []
  {
    ClaimantsExact(rows);
    if rows != [] {
      assert rows[0].claimant in Claimants(rows);
    }
  }

  lemma TripleMerge(a: seq<TreeNode>, merged: seq<TreeNode>, rows: seq<TreeNode>)
    requires IsMergeOf(merged, rows) && SameTriples(a, merged)
    ensures IsMergeOf(a, rows)
  {
    forall i | 0 <= i < |a|
      ensures MergesOne(a[i], Claimants(rows)[i], rows)
    {
      assert MergesOne(merged[i], Claimants(rows)[i], rows);
    }
  }
}
