/** Cutting a long list of rows into several trees. */
module Sharding {
  import opened Words
  import opened Digests
  import opened TreeShape
  import opened TreeNodes
  import opened Rows
  import opened Merging
  import opened AirdropMerkleTree

  // ---- the test wallets

  /** The rows of claimants that are not listed. */
  function Without(rows: seq<TreeNode>, list: seq<Pubkey>): seq<TreeNode> {
    if rows == [] then []
    else
      var init, last := Without(rows[..|rows| - 1], list), rows[|rows| - 1];
      if last.claimant in list then init else init + [last]
  }

  /** Listed claimants lose all their rows, the others none. */
  lemma {:induction false} WithoutTotals(rows: seq<TreeNode>, list: seq<Pubkey>, c: Pubkey, col: Column)
    ensures TotalFor(Without(rows, list), c, col) == if c in list then 0 else TotalFor(rows, c, col)
    ensures forall row :: row in Without(rows, list) <==> row in rows && row.claimant !in list
  {
    if rows != [] {
      var init, last := rows[..|rows| - 1], rows[|rows| - 1];
      WithoutTotals(init, list, c, col);
      assert rows == init + [last];
      TotalForPush(Without(init, list), last, c, col);
    }
  }

  /** `kept` are the rows at the positions `at`, in order, and these are all positions of rows not listed. */
  ghost predicate PicksUnlisted(at: seq<nat>, rows: seq<TreeNode>, list: seq<Pubkey>, kept: seq<TreeNode>) {
    && |at| == |kept|
    && (forall k :: 0 <= k < |at| ==> at[k] < |rows| && kept[k] == rows[at[k]])
    && (forall j, k :: 0 <= j < k < |at| ==> at[j] < at[k])
    && forall i :: 0 <= i < |rows| ==> (rows[i].claimant !in list <==> i in at)
  }

  /** The rows that are kept stay in their order. */
  lemma {:induction false} WithoutInOrder(rows: seq<TreeNode>, list: seq<Pubkey>) returns (at: seq<nat>)
    ensures PicksUnlisted(at, rows, list, Without(rows, list))
  {
    at := [];
    if rows != [] {
      var init, last := rows[..|rows| - 1], rows[|rows| - 1];
      at := WithoutInOrder(init, list);
      assert rows == init + [last];
      if last.claimant in list {
        PassLast(at, init, list, Without(init, list), last);
      } else {
        PickLast(at, init, list, Without(init, list), last);
        at := at + [|init|];
      }
    }
  }

  lemma PassLast(at: seq<nat>, init: seq<TreeNode>, list: seq<Pubkey>, kept: seq<TreeNode>, last: TreeNode)
    requires PicksUnlisted(at, init, list, kept) && last.claimant in list
    ensures PicksUnlisted(at, init + [last], list, kept)
  {
  }

  lemma PickLast(at: seq<nat>, init: seq<TreeNode>, list: seq<Pubkey>, kept: seq<TreeNode>, last: TreeNode)
    requires PicksUnlisted(at, init, list, kept) && last.claimant !in list
    ensures PicksUnlisted(at + [|init|], init + [last], list, kept + [last])
  {
    assert (at + [|init|])[|at|] == |init|;
  }

  method Trim(rows: seq<TreeNode>, list: seq<Pubkey>) returns (kept: seq<TreeNode>)
    ensures kept == Without(rows, list)
    ensures exists at: seq<nat> :: PicksUnlisted(at, rows, list, kept)
  {
    kept := [];
    for i := 0 to |rows|
      invariant kept == Without(rows[..i], list)
    {
      assert rows[..i + 1][..i] == rows[..i];
      if rows[i].claimant in list {
        continue;
      }
      kept := kept + [rows[i]];
    }
    assert rows[..|rows|] == rows;
    ghost var at := WithoutInOrder(rows, list);
  }

  /** One unlocked row for each test wallet. */
  function TestRows(list: seq<Pubkey>, amount: u64): (rows: seq<TreeNode>)
    ensures |rows| == |list|
    ensures forall i :: 0 <= i < |list| ==> rows[i] == TreeNode(list[i], amount, 0, None)
  {
    seq(|list|, i requires 0 <= i < |list| => TreeNode(list[i], amount, 0, None))
  }

  // ---- chunks

  function Min(a: nat, b: nat): nat {
    if a <= b then a else b
  }

  /** The chunks of `rows`, at most `max` rows each. */
  function Chunks(rows: seq<TreeNode>, max: nat): seq<seq<TreeNode>>
    requires max > 0
  {
    if rows == [] then []
    else
      var m := Min(max, |rows|);
      [rows[..m]] + Chunks(rows[m..], max)
  }

  function Concat(chunks: seq<seq<TreeNode>>): seq<TreeNode> {
    if chunks == [] then [] else chunks[0] + Concat(chunks[1..])
  }

  /** The chunks are the rows in order, nothing lost or repeated. */
  lemma {:induction false} ChunksConcat(rows: seq<TreeNode>, max: nat)
    requires max > 0
    ensures Concat(Chunks(rows, max)) == rows
  {
    if rows != [] {
      var m := Min(max, |rows|);
      ChunksConcat(rows[m..], max);
      assert Chunks(rows, max)[1..] == Chunks(rows[m..], max);
      assert rows[..m] + rows[m..] == rows;
    }
  }

  /** All chunks but the last are full, and the last is not empty. */
  lemma {:induction false} ChunksFull(rows: seq<TreeNode>, max: nat, k: nat)
    requires max > 0 && k < |Chunks(rows, max)|
    ensures 0 < |Chunks(rows, max)[k]| <= max
    ensures k < |Chunks(rows, max)| - 1 ==> |Chunks(rows, max)[k]| == max
    decreases k
  {
    var m := Min(max, |rows|);
    if k > 0 {
      ChunksFull(rows[m..], max, k - 1);
    }
  }

  /** So there are as many as the number of rows over `max`, rounded up. */
  lemma {:induction false} ChunksCount(rows: seq<TreeNode>, max: nat)
    requires max > 0
    ensures |Chunks(rows, max)| == (|rows| + max - 1) / max
    ensures |Chunks(rows, max)| <= |rows|
  {
    var n := |rows|;
    if n == 0 {
      FloorUnique(max - 1, max, 0);
    } else {
      var m := Min(max, n);
      ChunksCount(rows[m..], max);
      CeilStep(n, max, m);
    }
  }

  lemma CeilStep(n: nat, max: nat, m: nat)
    requires max > 0 && n > 0 && m == Min(max, n)
    ensures (n + max - 1) / max == 1 + (n - m + max - 1) / max
  {
    var q := (n - m + max - 1) / max;
    assert q * max <= n - m + max - 1 < q * max + max;
    if n <= max {
      FloorUnique(max - 1, max, 0);
      FloorUnique(n + max - 1, max, 1);
    } else {
      assert (q + 1) * max == q * max + max;
      FloorUnique(n + max - 1, max, q + 1);
    }
  }

  /** A tree can be built from these rows. */
  predicate Buildable(rows: seq<TreeNode>) {
    rows != [] && SumsFit(rows) && |Claimants(rows)| <= MAX_NODES
  }

  /** `t` is the tree of these rows, under this version. */
  ghost predicate TreeOf(h: HashFn, t: AirdropMerkleTree, rows: seq<TreeNode>, version: nat) {
    && WellBuilt(h, t) && t.airdropVersion == version
    && IsMergeOf(t.treeNodes, rows) && SameTotals(t.treeNodes, rows)
  }

  ghost predicate TreesOf(h: HashFn, trees: seq<AirdropMerkleTree>, chunks: seq<seq<TreeNode>>) {
    && |trees| == |chunks|
    && forall k :: 0 <= k < |trees| ==> TreeOf(h, trees[k], chunks[k], k)
  }

  /** Every chunk can be built; a maximum of 0 leaves an empty first chunk, which cannot. */
  predicate Shardable(rows: seq<TreeNode>, max: nat) {
    rows == [] || (max > 0 && forall chunk :: chunk in Chunks(rows, max) ==> Buildable(chunk))
  }

  /** The trees of the chunks of `rows`; there are none to cut for a maximum of 0. */
  ghost predicate Shards(h: HashFn, trees: seq<AirdropMerkleTree>, rows: seq<TreeNode>, max: nat) {
    if rows == [] then trees == [] else max > 0 && TreesOf(h, trees, Chunks(rows, max))
  }

  /** One tree, unwrapped. */
  method BuildOne(h: HashFn, rows: seq<TreeNode>, version: u64) returns (r: Result<AirdropMerkleTree, BuildError>)
    ensures r.Ok? <==> Buildable(rows)
    ensures r.Ok? ==> TreeOf(h, r.value, rows, version)
  {
    r := New(h, rows, version);
    if r.Err? {
      match r.error {
        case Panicked => assert !SumsFit(rows);
        case MerkleRootError => assert rows == [];
        case MerkleValidationError => assert |Claimants(rows)| > MAX_NODES;
      }
    }
  }

  /** How far the loop is: the chunks already built, and the rows left. */
  ghost predicate Progress(
    h: HashFn, rows: seq<TreeNode>, max: nat, trees: seq<AirdropMerkleTree>, rest: seq<TreeNode>,
    done: seq<seq<TreeNode>>)
  {
    && |trees| + |rest| <= |rows|
    && (if max == 0 then rest == rows && done == [] else Chunks(rows, max) == done + Chunks(rest, max))
    && TreesOf(h, trees, done)
    && forall chunk :: chunk in done ==> Buildable(chunk)
  }

  lemma TreesPush(
    h: HashFn, trees: seq<AirdropMerkleTree>, chunks: seq<seq<TreeNode>>, t: AirdropMerkleTree, chunk: seq<TreeNode>)
    requires TreesOf(h, trees, chunks) && TreeOf(h, t, chunk, |trees|)
    ensures TreesOf(h, trees + [t], chunks + [chunk])
  {
  }

  lemma MoveOver<T>(all: seq<T>, done: seq<T>, x: T, left: seq<T>)
    requires all == done + ([x] + left)
    ensures all == done + [x] + left
  {
  }

  lemma OneMoreChunk(
    h: HashFn, rows: seq<TreeNode>, max: nat, trees: seq<AirdropMerkleTree>, rest: seq<TreeNode>,
    done: seq<seq<TreeNode>>, t: AirdropMerkleTree)
    requires max > 0 && rest != [] && Progress(h, rows, max, trees, rest, done)
    requires
      var chunk := rest[..Min(max, |rest|)];
      Buildable(chunk) && TreeOf(h, t, chunk, |trees|)
    ensures Progress(h, rows, max, trees + [t], rest[Min(max, |rest|)..], done + [rest[..Min(max, |rest|)]])
  {
    var m := Min(max, |rest|);
    TreesPush(h, trees, done, t, rest[..m]);
    MoveOver(Chunks(rows, max), done, rest[..m], Chunks(rest[m..], max));
  }

  lemma FirstChunk(
    h: HashFn, rows: seq<TreeNode>, max: nat, trees: seq<AirdropMerkleTree>, rest: seq<TreeNode>,
    done: seq<seq<TreeNode>>)
    requires max > 0 && rest != [] && Progress(h, rows, max, trees, rest, done)
    ensures rest[..Min(max, |rest|)] in Chunks(rows, max)
  {
    assert Chunks(rest, max)[0] in Chunks(rest, max);
  }

  /**
   * The loop: take a chunk off the front, build its tree under the next version. It ends with one tree
   * for each chunk exactly when every chunk can be built.
   */
  method BuildShards(h: HashFn, rows: seq<TreeNode>, max: u64) returns (r: Result<seq<AirdropMerkleTree>, BuildError>)
    requires |rows| < U64_LIMIT
    ensures r.Ok? <==> Shardable(rows, max)
    ensures r.Ok? ==> Shards(h, r.value, rows, max)
    ensures r.Ok? ==> |r.value| <= |rows|
  {
    var rest, trees := rows, [];
    ghost var done: seq<seq<TreeNode>> := [];
    while |rest| > 0
      invariant Progress(h, rows, max, trees, rest, done)
      invariant |rest| <= |rows|
      decreases |rest|
    {
      var lastIndex := Min(max, |rest|);
      var subTree := rest[..lastIndex];
      var built := BuildOne(h, subTree, |trees|);
      if built.Err? {
        if max > 0 {
          FirstChunk(h, rows, max, trees, rest, done);
        }
        return Err(Panicked);
      }
      OneMoreChunk(h, rows, max, trees, rest, done, built.value);
      rest := rest[lastIndex..];
      trees := trees + [built.value];
      done := done + [subTree];
    }
    return Ok(trees);
  }

  /**
   * The command: leave out the test wallets, shard the rest, and when there are test wallets give them
   * a tree of their own under the next version.
   */
  method CreateTrees(h: HashFn, rows: seq<TreeNode>, testList: Option<seq<Pubkey>>, testAmount: u64, max: u64)
    returns (r: Result<seq<AirdropMerkleTree>, BuildError>)
    requires |rows| < U64_LIMIT
    ensures r.Ok?
      <==> if testList.Some?
           then Shardable(Without(rows, testList.value), max) && Buildable(TestRows(testList.value, testAmount))
           else Shardable(rows, max)
    ensures r.Ok? ==>
      var kept := if testList.Some? then Without(rows, testList.value) else rows;
      if testList.Some?
      then r.value != [] && Shards(h, r.value[..|r.value| - 1], kept, max)
           && TreeOf(h, r.value[|r.value| - 1], TestRows(testList.value, testAmount), |r.value| - 1)
      else Shards(h, r.value, kept, max)
  {
    var kept := rows;
    if testList.Some? {
      kept := Trim(rows, testList.value);
      WithoutShorter(rows, testList.value);
    }
    var trees :- BuildShards(h, kept, max);
    if testList.Some? {
      var test :- BuildOne(h, TestRows(testList.value, testAmount), |trees|);
      assert (trees + [test])[..|trees|] == trees;
      return Ok(trees + [test]);
    }
    return Ok(trees);
  }

  lemma {:induction false} WithoutShorter(rows: seq<TreeNode>, list: seq<Pubkey>)
    ensures |Without(rows, list)| <= |rows|
  {
    if rows != [] {
      WithoutShorter(rows[..|rows| - 1], list);
    }
  }

  // ---- what the trees hold together

  function Declared(t: AirdropMerkleTree, col: Column): nat {
    match col
    case Unlocked => t.totalUnlockedAmount
    case Locked => t.totalLockedAmount
  }

  function DeclaredSum(trees: seq<AirdropMerkleTree>, col: Column): nat {
    if trees == [] then 0 else Declared(trees[0], col) + DeclaredSum(trees[1..], col)
  }

  /** What all trees together give a claimant. */
  function AssignedTo(trees: seq<AirdropMerkleTree>, c: Pubkey, col: Column): nat {
    if trees == [] then 0 else TotalFor(trees[0].treeNodes, c, col) + AssignedTo(trees[1..], c, col)
  }

  lemma {:induction false} TreesConserve(
    h: HashFn, trees: seq<AirdropMerkleTree>, chunks: seq<seq<TreeNode>>, c: Pubkey, col: Column)
    requires |trees| == |chunks|
    requires forall k :: 0 <= k < |trees| ==> TreeOf(h, trees[k], chunks[k], trees[k].airdropVersion)
    ensures AssignedTo(trees, c, col) == TotalFor(Concat(chunks), c, col)
    ensures DeclaredSum(trees, col) == Total(Concat(chunks), col)
  {
    if trees != [] {
      TreesConserve(h, trees[1..], chunks[1..], c, col);
      assert TreeOf(h, trees[0], chunks[0], trees[0].airdropVersion);
      MergeKeepsTotals(trees[0].treeNodes, chunks[0], c, col);
      TotalForConcat(chunks[0], Concat(chunks[1..]), c, col);
      TotalConcat(chunks[0], Concat(chunks[1..]), col);
    }
  }

  /**
   * Sharding loses nothing and repeats nothing: the trees together give every claimant the sums of its
   * rows, wherever the cuts fall and however its rows are merged, and their declared totals add up.
   */
  lemma ShardsConserve(
    h: HashFn, trees: seq<AirdropMerkleTree>, rows: seq<TreeNode>, max: nat, c: Pubkey, col: Column)
    requires Shards(h, trees, rows, max)
    ensures AssignedTo(trees, c, col) == TotalFor(rows, c, col)
    ensures DeclaredSum(trees, col) == Total(rows, col)
  {
    if rows != [] {
      ChunksConcat(rows, max);
      TreesConserve(h, trees, Chunks(rows, max), c, col);
    }
  }

  // ---- proof lengths

  /** Merging does not add rows. */
  lemma {:induction false} ClaimantsShorter(rows: seq<TreeNode>)
    ensures |Claimants(rows)| <= |rows|
  {
    if rows != [] {
      ClaimantsShorter(rows[..|rows| - 1]);
    }
  }

  /** Every proof of a well-built tree has one entry for each level below the root, 32 at the most. */
  lemma ProofLength(h: HashFn, t: AirdropMerkleTree, i: nat)
    requires WellBuilt(h, t) && i < |t.treeNodes|
    ensures t.treeNodes[i].proof.Some?
    ensures |t.treeNodes[i].proof.value| == CeilLog2(|t.treeNodes|) <= 32
  {
    assert HasProof(h, t.treeNodes, i);
    HeightBound(|t.treeNodes|);
  }

  /** The limit on the nodes is the last number below the size of a full tree of height 32. */
  lemma HeightBound(n: nat)
    ensures MAX_NODES == Pow2(32) - 1
    ensures n <= MAX_NODES ==> CeilLog2(n) <= 32
  {
    Pow2Of32();
    Pow2Log(32);
    if n <= MAX_NODES {
      CeilLog2Monotone(n, Pow2(32));
    }
  }

  /** In a shard it is at most the height of a tree over `max` leaves. */
  lemma ShardProofLength(h: HashFn, trees: seq<AirdropMerkleTree>, rows: seq<TreeNode>, max: nat, k: nat, i: nat)
    requires Shards(h, trees, rows, max) && k < |trees| && i < |trees[k].treeNodes|
    ensures trees[k].treeNodes[i].proof.Some?
    ensures |trees[k].treeNodes[i].proof.value| <= CeilLog2(max)
  {
    var chunks := Chunks(rows, max);
    assert TreeOf(h, trees[k], chunks[k], k);
    ProofLength(h, trees[k], i);
    ChunksFull(rows, max, k);
    ClaimantsShorter(chunks[k]);
    CeilLog2Monotone(|trees[k].treeNodes|, max);
  }
}
