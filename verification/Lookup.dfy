/** Finding a claimant's node in a tree: by scanning, and through a hash map. */
module Lookup {
  import opened Words
  import opened TreeNodes
  import opened Rows
  import opened Merging
  import opened AirdropMerkleTree
  import opened Sums

  /** `convert_to_hashmap`: collected in order, a later node replacing an earlier one. */
  function ToMap(nodes: seq<TreeNode>): map<Pubkey, TreeNode> {
    if nodes == [] then map[]
    else
      var last := nodes[|nodes| - 1];
      ToMap(nodes[..|nodes| - 1])[last.claimant := last]
  }

  /** `get_node`: the first node of the claimant; panics when there is none. */
  method GetNode(nodes: seq<TreeNode>, claimant: Pubkey) returns (r: Result<TreeNode, BuildError>)
    ensures r.Err? <==> forall i :: 0 <= i < |nodes| ==> nodes[i].claimant != claimant
    ensures r.Err? ==> r.error == Panicked
    ensures r.Ok? ==> exists i :: 0 <= i < |nodes| && nodes[i] == r.value && nodes[i].claimant == claimant
                                  && forall j :: 0 <= j < i ==> nodes[j].claimant != claimant
  {
    for i := 0 to |nodes|
      invariant forall j :: 0 <= j < i ==> nodes[j].claimant != claimant
    {
      if nodes[i].claimant == claimant {
        return Ok(nodes[i]);
      }
    }
    return Err(Panicked);
  }

  /** `get_max_total_claim`: panics when the two totals do not fit 64 bits together. */
  function MaxTotalClaim(t: AirdropMerkleTree): Result<u64, BuildError> {
    if t.totalUnlockedAmount + t.totalLockedAmount < U64_LIMIT
    then Ok(t.totalUnlockedAmount + t.totalLockedAmount)
    else Err(Panicked)
  }

  /** The map holds exactly the claimants of the list. */
  lemma {:induction false} ToMapKeys(nodes: seq<TreeNode>, c: Pubkey)
    ensures c in ToMap(nodes) <==> exists i :: 0 <= i < |nodes| && nodes[i].claimant == c
  {
    if nodes != [] {
      var init := nodes[..|nodes| - 1];
      ToMapKeys(init, c);
      if i :| 0 <= i < |nodes| && nodes[i].claimant == c {
        assert i < |init| ==> init[i].claimant == c;
      }
      if i :| 0 <= i < |init| && init[i].claimant == c {
        assert nodes[i].claimant == c;
      }
    }
  }

  /** In a list without duplicate claimants every node is found under its claimant. */
  lemma {:induction false} ToMapFinds(nodes: seq<TreeNode>, i: nat)
    requires DistinctClaimants(nodes) && i < |nodes|
    ensures nodes[i].claimant in ToMap(nodes) && ToMap(nodes)[nodes[i].claimant] == nodes[i]
  {
    var last := |nodes| - 1;
    if i < last {
      ToMapFinds(nodes[..last], i);
      assert nodes[i].claimant != nodes[last].claimant;
    }
  }

  /** The scan and the map agree on a list without duplicate claimants. */
  lemma ScanAgreesWithMap(nodes: seq<TreeNode>, c: Pubkey, i: nat)
    requires DistinctClaimants(nodes) && i < |nodes| && nodes[i].claimant == c
    requires forall j :: 0 <= j < i ==> nodes[j].claimant != c
    ensures c in ToMap(nodes) && ToMap(nodes)[c] == nodes[i]
  {
    ToMapFinds(nodes, i);
  }

  // ---- sums over the nodes of a tree

  function SeqSum(nodes: seq<TreeNode>, f: TreeNode -> nat): nat {
    if nodes == [] then 0 else SeqSum(nodes[..|nodes| - 1], f) + f(nodes[|nodes| - 1])
  }

  function MapBy(nodes: map<Pubkey, TreeNode>, f: TreeNode -> nat): map<Pubkey, nat> {
    map c | c in nodes :: f(nodes[c])
  }

  /** Without duplicate claimants, summing over the map is summing over the list. */
  lemma {:induction false} SumOverMap(nodes: seq<TreeNode>, f: TreeNode -> nat)
    requires DistinctClaimants(nodes)
    ensures Sum(MapBy(ToMap(nodes), f)) == SeqSum(nodes, f)
    ensures |ToMap(nodes)| == |nodes|
  {
    if nodes == [] {
      assert MapBy(ToMap(nodes), f) == map[];
    } else {
      var init, last := nodes[..|nodes| - 1], nodes[|nodes| - 1];
      SumOverMap(init, f);
      ToMapKeys(init, last.claimant);
      assert forall i :: 0 <= i < |init| ==> nodes[i].claimant != nodes[|init|].claimant;
      SumInsert(MapBy(ToMap(init), f), last.claimant, f(last));
      assert MapBy(ToMap(nodes), f) == MapBy(ToMap(init), f)[last.claimant := f(last)];
    }
  }
}
