/** The server's index from claimants to distributors and proofs, and the lookup in it. */
module ApiIndex {
  import opened Words
  import opened Digests
  import opened TreeNodes
  import opened Rows
  import opened Merging
  import opened AirdropMerkleTree
  import opened Lookup
  import opened Sharding
  import Runs
  import Payments
  import Settlement
  import Verify

  datatype SingleDistributor = SingleDistributor(
    distributorPubkey: Pubkey, merkleRoot: Digest, airdropVersion: u64, maxNumNodes: u64, maxTotalClaim: u64)

  type Entries = map<Pubkey, (Pubkey, TreeNode)>

  datatype RouterState =
    RouterState(distributors: seq<SingleDistributor>, tree: Entries, maxNumNodes: u64, maxTotalClaim: u64)

  datatype UserProof = UserProof(merkleTree: Pubkey, amount: u64, lockedAmount: u64, proof: seq<Digest>)

  datatype ApiError = UserNotFound | ProofNotFound

  /** The address of the distributor of a version, for a fixed program, base and mint. */
  type Address = u64 -> Pubkey

  // ---- what the index should be

  /** The number of the last tree in which a claimant occurs. */
  function Latest(trees: seq<AirdropMerkleTree>, c: Pubkey): Option<nat> {
    if trees == [] then None
    else if c in ToMap(trees[|trees| - 1].treeNodes) then Some(|trees| - 1)
    else Latest(trees[..|trees| - 1], c)
  }

  lemma {:induction false} LatestExact(trees: seq<AirdropMerkleTree>, c: Pubkey)
    ensures match Latest(trees, c)
      case None => forall k :: 0 <= k < |trees| ==> c !in ToMap(trees[k].treeNodes)
      case Some(k) => k < |trees| && c in ToMap(trees[k].treeNodes)
                      && forall j :: k < j < |trees| ==> c !in ToMap(trees[j].treeNodes)
  {
    if trees != [] {
      LatestExact(trees[..|trees| - 1], c);
    }
  }

  /** The entry a claimant should have. */
  function Expected(trees: seq<AirdropMerkleTree>, address: Address, c: Pubkey): Option<(Pubkey, TreeNode)> {
    LatestExact(trees, c);
    match Latest(trees, c)
    case None => None
    case Some(k) => Some((address(trees[k].airdropVersion), ToMap(trees[k].treeNodes)[c]))
  }

  function At(entries: Entries, c: Pubkey): Option<(Pubkey, TreeNode)> {
    if c in entries then Some(entries[c]) else None
  }

  function ClaimSum(trees: seq<AirdropMerkleTree>): nat {
    if trees == [] then 0
    else
      var last := trees[|trees| - 1];
      ClaimSum(trees[..|trees| - 1]) + last.totalUnlockedAmount + last.totalLockedAmount
  }

  function NodeSum(trees: seq<AirdropMerkleTree>): nat {
    if trees == [] then 0 else NodeSum(trees[..|trees| - 1]) + trees[|trees| - 1].maxNumNodes
  }

  lemma {:induction false} SumsPrefix(trees: seq<AirdropMerkleTree>, k: nat)
    requires k <= |trees|
    ensures ClaimSum(trees[..k]) <= ClaimSum(trees) && NodeSum(trees[..k]) <= NodeSum(trees)
  {
    if k < |trees| {
      SumsPrefix(trees[..|trees| - 1], k);
      assert trees[..|trees| - 1][..k] == trees[..k];
    } else {
      assert trees[..k] == trees;
    }
  }

  function Listing(t: AirdropMerkleTree, address: Address): SingleDistributor
    requires MaxTotalClaim(t).Ok?
  {
    SingleDistributor(address(t.airdropVersion), t.merkleRoot, t.airdropVersion, t.maxNumNodes, MaxTotalClaim(t).value)
  }

  /** One listing for each tree, in the order of the trees. */
  ghost predicate Lists(distributors: seq<SingleDistributor>, trees: seq<AirdropMerkleTree>, address: Address) {
    && |distributors| == |trees|
    && forall k :: 0 <= k < |trees| ==> MaxTotalClaim(trees[k]).Ok? && distributors[k] == Listing(trees[k], address)
  }

  predicate SortedByVersion(list: seq<SingleDistributor>) {
    forall i, j :: 0 <= i < j < |list| ==> list[i].airdropVersion <= list[j].airdropVersion
  }

  /** The same listings, by version. */
  ghost predicate ListsByVersion(
    distributors: seq<SingleDistributor>, trees: seq<AirdropMerkleTree>, address: Address)
  {
    && SortedByVersion(distributors)
    && exists listings :: Lists(listings, trees, address) && multiset(distributors) == multiset(listings)
  }

  /** What the server answers from. */
  ghost predicate Serves(state: RouterState, trees: seq<AirdropMerkleTree>, address: Address) {
    && ListsByVersion(state.distributors, trees, address)
    && Indexes(state, trees, address)
  }

  ghost predicate Indexes(state: RouterState, trees: seq<AirdropMerkleTree>, address: Address) {
    && (forall c :: At(state.tree, c) == Expected(trees, address, c))
    && state.maxTotalClaim == ClaimSum(trees) && state.maxNumNodes == NodeSum(trees)
  }

  // ---- the loops

  /** The entries of a distributor's claimants, and the earlier ones of everybody else. */
  ghost predicate Overlays(entries: Entries, before: Entries, distributorPubkey: Pubkey, nodes: map<Pubkey, TreeNode>) {
    forall c :: At(entries, c) == (if c in nodes then Some((distributorPubkey, nodes[c])) else At(before, c))
  }

  /** A later node of the same claimant replaces an earlier one, in this tree or another. */
  method InsertNodes(before: Entries, distributorPubkey: Pubkey, nodes: seq<TreeNode>) returns (entries: Entries)
    ensures Overlays(entries, before, distributorPubkey, ToMap(nodes))
  {
    entries := before;
    for i := 0 to |nodes|
      invariant Overlays(entries, before, distributorPubkey, ToMap(nodes[..i]))
    {
      assert nodes[..i + 1][..i] == nodes[..i];
      entries := entries[nodes[i].claimant := (distributorPubkey, nodes[i])];
    }
    assert nodes[..|nodes|] == nodes;
  }

  lemma ExpectedPush(trees: seq<AirdropMerkleTree>, t: AirdropMerkleTree, address: Address, c: Pubkey)
    ensures Expected(trees + [t], address, c)
      == if c in ToMap(t.treeNodes) then Some((address(t.airdropVersion), ToMap(t.treeNodes)[c]))
         else Expected(trees, address, c)
  {
    assert (trees + [t])[..|trees|] == trees;
    LatestExact(trees, c);
  }

  lemma SumsPush(trees: seq<AirdropMerkleTree>, t: AirdropMerkleTree)
    ensures ClaimSum(trees + [t]) == ClaimSum(trees) + t.totalUnlockedAmount + t.totalLockedAmount
    ensures NodeSum(trees + [t]) == NodeSum(trees) + t.maxNumNodes
  {
    assert (trees + [t])[..|trees|] == trees;
  }

  /** The state while the trees are loaded: the listings in the order of the trees. */
  ghost predicate Loaded(state: RouterState, trees: seq<AirdropMerkleTree>, address: Address) {
    Lists(state.distributors, trees, address) && Indexes(state, trees, address)
  }

  /** Loading one tree more. */
  lemma LoadedPush(
    state: RouterState, trees: seq<AirdropMerkleTree>, address: Address, t: AirdropMerkleTree, state': RouterState)
    requires Loaded(state, trees, address) && MaxTotalClaim(t).Ok?
    requires state'.distributors == state.distributors + [Listing(t, address)]
    requires Overlays(state'.tree, state.tree, address(t.airdropVersion), ToMap(t.treeNodes))
    requires state'.maxTotalClaim == state.maxTotalClaim + MaxTotalClaim(t).value
    requires state'.maxNumNodes == state.maxNumNodes + t.maxNumNodes
    ensures Loaded(state', trees + [t], address)
  {
    SumsPush(trees, t);
    forall c
      ensures At(state'.tree, c) == Expected(trees + [t], address, c)
    {
      ExpectedPush(trees, t, address, c);
    }
  }

  lemma SortedCons(d: SingleDistributor, list: seq<SingleDistributor>)
    requires SortedByVersion(list) && (list != [] ==> d.airdropVersion <= list[0].airdropVersion)
    ensures SortedByVersion([d] + list)
  {
  }

  lemma SortedTail(list: seq<SingleDistributor>)
    requires SortedByVersion(list) && list != []
    ensures SortedByVersion(list[1..])
    ensures |list| > 1 ==> list[0].airdropVersion <= list[1..][0].airdropVersion
    ensures multiset(list) == multiset{list[0]} + multiset(list[1..])
  {
    assert list == [list[0]] + list[1..];
  }

  function InsertByVersion(d: SingleDistributor, list: seq<SingleDistributor>): (r: seq<SingleDistributor>)
    requires SortedByVersion(list)
    ensures multiset(r) == multiset{d} + multiset(list)
    ensures SortedByVersion(r)
    ensures r != [] && (r[0] == d || (list != [] && r[0] == list[0]))
  {
    if list == [] then [d]
    else if d.airdropVersion <= list[0].airdropVersion then
      SortedCons(d, list);
      [d] + list
    else
      SortedTail(list);
      var rest := InsertByVersion(d, list[1..]);
      SortedCons(list[0], rest);
      [list[0]] + rest
  }

  /** A sort, of which only the result matters. */
  function SortByVersion(list: seq<SingleDistributor>): (r: seq<SingleDistributor>)
    ensures multiset(r) == multiset(list)
    ensures SortedByVersion(r)
  {
    if list == [] then []
    else
      assert list == [list[0]] + list[1..];
      InsertByVersion(list[0], SortByVersion(list[1..]))
  }

  /** Loading the trees: the sums of what all of them hold must fit 64 bits, and nothing else can fail. */
  method LoadTrees(trees: seq<AirdropMerkleTree>, address: Address) returns (r: Result<RouterState, BuildError>)
    ensures r.Ok? <==> ClaimSum(trees) < U64_LIMIT && NodeSum(trees) < U64_LIMIT
    ensures r.Ok? ==> Serves(r.value, trees, address)
  {
    var state := RouterState([], map[], 0, 0);
    for k := 0 to |trees|
      invariant Loaded(state, trees[..k], address)
    {
      var singleTree := trees[k];
      assert trees[..k + 1] == trees[..k] + [singleTree];
      SumsPush(trees[..k], singleTree);
      SumsPrefix(trees, k + 1);
      var claim :- MaxTotalClaim(singleTree);
      if state.maxTotalClaim + claim >= U64_LIMIT {
        return Err(Panicked);
      }
      if state.maxNumNodes + singleTree.maxNumNodes >= U64_LIMIT {
        return Err(Panicked);
      }
      var tree := InsertNodes(state.tree, address(singleTree.airdropVersion), singleTree.treeNodes);
      var next := RouterState(
        state.distributors + [Listing(singleTree, address)], tree,
        state.maxNumNodes + singleTree.maxNumNodes, state.maxTotalClaim + claim);
      LoadedPush(state, trees[..k], address, singleTree, next);
      state := next;
    }
    assert trees[..|trees|] == trees;
    return Ok(state.(distributors := SortByVersion(state.distributors)));
  }

  function GetUserInfo(state: RouterState, c: Pubkey): Result<UserProof, ApiError> {
    if c !in state.tree then Err(UserNotFound)
    else
      var (distributorPubkey, node) := state.tree[c];
      if node.proof.None? then Err(ProofNotFound)
      else Ok(UserProof(distributorPubkey, node.amount, node.lockedAmount, node.proof.value))
  }

  // ---- what a user gets

  ghost predicate Occurs(trees: seq<AirdropMerkleTree>, c: Pubkey) {
    exists k, i :: 0 <= k < |trees| && 0 <= i < |trees[k].treeNodes| && trees[k].treeNodes[i].claimant == c
  }

  ghost predicate Built(h: HashFn, trees: seq<AirdropMerkleTree>) {
    forall k :: 0 <= k < |trees| ==> WellBuilt(h, trees[k])
  }

  /** No two trees have their distributors at the same address. */
  ghost predicate Apart(trees: seq<AirdropMerkleTree>, address: Address) {
    forall j, k :: 0 <= j < k < |trees| ==> address(trees[j].airdropVersion) != address(trees[k].airdropVersion)
  }

  /** The answer for a claimant is a proof of its claim against a root. */
  predicate Accepted(h: HashFn, p: UserProof, c: Pubkey, root: Digest) {
    Verify.Fold(h, ClaimLeaf(h, c, p.amount, p.lockedAmount), p.proof) == root
  }

  lemma NodeIsAccepted(h: HashFn, t: AirdropMerkleTree, c: Pubkey)
    requires WellBuilt(h, t) && c in ToMap(t.treeNodes)
    ensures
      var node := ToMap(t.treeNodes)[c];
      node.proof.Some?
      && Verify.Fold(h, ClaimLeaf(h, c, node.amount, node.lockedAmount), node.proof.value) == t.merkleRoot
  {
    ToMapKeys(t.treeNodes, c);
    var i :| 0 <= i < |t.treeNodes| && t.treeNodes[i].claimant == c;
    ToMapFinds(t.treeNodes, i);
    assert HasProof(h, t.treeNodes, i);
    MemberAccepted(h, t.treeNodes, i);
  }

  lemma OccursIsExpected(trees: seq<AirdropMerkleTree>, c: Pubkey)
    ensures Occurs(trees, c) <==> Latest(trees, c).Some?
  {
    LatestExact(trees, c);
    if Occurs(trees, c) {
      var k, i :| 0 <= k < |trees| && 0 <= i < |trees[k].treeNodes| && trees[k].treeNodes[i].claimant == c;
      ToMapKeys(trees[k].treeNodes, c);
    }
    if Latest(trees, c).Some? {
      ToMapKeys(trees[Latest(trees, c).value].treeNodes, c);
    }
  }

  /** What the server should answer: the node of the last tree holding the claimant, and that tree's distributor. */
  ghost predicate AnswersLatest(state: RouterState, trees: seq<AirdropMerkleTree>, address: Address, c: Pubkey) {
    match Latest(trees, c)
    case None => GetUserInfo(state, c) == Err(UserNotFound)
    case Some(k) =>
      && k < |trees| && c in ToMap(trees[k].treeNodes)
      && var node := ToMap(trees[k].treeNodes)[c];
        && node.proof.Some?
        && GetUserInfo(state, c)
          == Ok(UserProof(address(trees[k].airdropVersion), node.amount, node.lockedAmount, node.proof.value))
  }

  /** From trees without proofs the answer is an error of its own, for claimants that occur. */
  lemma UserInfoWithoutProof(state: RouterState, trees: seq<AirdropMerkleTree>, address: Address, c: Pubkey)
    requires Indexes(state, trees, address)
    ensures GetUserInfo(state, c) == Err(UserNotFound) <==> Latest(trees, c).None?
    ensures GetUserInfo(state, c) == Err(ProofNotFound)
      <==> Latest(trees, c).Some? && Latest(trees, c).value < |trees|
           && c in ToMap(trees[Latest(trees, c).value].treeNodes)
           && ToMap(trees[Latest(trees, c).value].treeNodes)[c].proof.None?
  {
    LatestExact(trees, c);
    assert At(state.tree, c) == Expected(trees, address, c);
  }

  /** It does, and so finds exactly the claimants of the trees. */
  lemma UserInfoExact(h: HashFn, state: RouterState, trees: seq<AirdropMerkleTree>, address: Address, c: Pubkey)
    requires Indexes(state, trees, address) && Built(h, trees)
    ensures AnswersLatest(state, trees, address, c)
    ensures GetUserInfo(state, c).Ok? <==> Occurs(trees, c)
  {
    OccursIsExpected(trees, c);
    LatestExact(trees, c);
    assert At(state.tree, c) == Expected(trees, address, c);
    if Latest(trees, c).Some? {
      NodeIsAccepted(h, trees[Latest(trees, c).value], c);
    }
  }

  /** Only one listing has the address of a tree. */
  lemma ListedOnce(distributors: seq<SingleDistributor>, trees: seq<AirdropMerkleTree>, address: Address, k: nat)
    requires ListsByVersion(distributors, trees, address) && Apart(trees, address) && k < |trees|
    ensures MaxTotalClaim(trees[k]).Ok? && Listing(trees[k], address) in distributors
    ensures forall d :: d in distributors && d.distributorPubkey == address(trees[k].airdropVersion)
              ==> d == Listing(trees[k], address)
  {
    var listings :| Lists(listings, trees, address) && multiset(distributors) == multiset(listings);
    assert listings[k] in multiset(listings);
    forall d | d in distributors && d.distributorPubkey == address(trees[k].airdropVersion)
      ensures d == Listing(trees[k], address)
    {
      assert d in multiset(distributors);
      var j :| 0 <= j < |listings| && listings[j] == d;
      assert j == k;
    }
  }

  /** A listing tells the address, root, version, node count and maximum without bonus of a tree. */
  predicate IsListingOf(d: SingleDistributor, t: AirdropMerkleTree, address: Address) {
    && d.distributorPubkey == address(t.airdropVersion) && d.merkleRoot == t.merkleRoot
    && d.airdropVersion == t.airdropVersion && d.maxNumNodes == t.maxNumNodes
    && d.maxTotalClaim == t.totalUnlockedAmount + t.totalLockedAmount
  }

  lemma ListingFields(t: AirdropMerkleTree, address: Address)
    requires MaxTotalClaim(t).Ok?
    ensures IsListingOf(Listing(t, address), t, address)
  {
  }

  /** Every listing is that of a tree, and every tree has one, told by their fields. */
  lemma ListingsExactly(
    distributors: seq<SingleDistributor>, trees: seq<AirdropMerkleTree>, address: Address, k: nat)
    requires ListsByVersion(distributors, trees, address) && k < |distributors|
    ensures |distributors| == |trees|
    ensures exists j :: 0 <= j < |trees| && IsListingOf(distributors[k], trees[j], address)
    ensures exists j :: 0 <= j < |distributors| && IsListingOf(distributors[j], trees[k], address)
  {
    var listings :| Lists(listings, trees, address) && multiset(distributors) == multiset(listings);
    assert |multiset(distributors)| == |distributors| && |multiset(listings)| == |listings|;
    var j := PlaceAmong(distributors, listings, k);
    ListingFields(trees[j], address);
    var i := PlaceAmong(listings, distributors, k);
    ListingFields(trees[k], address);
  }

  /** The nodes of all trees. */
  function AllNodes(trees: seq<AirdropMerkleTree>): seq<TreeNode> {
    if trees == [] then [] else AllNodes(trees[..|trees| - 1]) + trees[|trees| - 1].treeNodes
  }

  /** The number of nodes served is the number of nodes there are. */
  lemma {:induction false} NodesAreCounted(h: HashFn, trees: seq<AirdropMerkleTree>)
    requires Built(h, trees)
    ensures NodeSum(trees) == |AllNodes(trees)|
  {
    if trees != [] {
      assert WellBuilt(h, trees[|trees| - 1]);
      NodesAreCounted(h, trees[..|trees| - 1]);
    }
  }

  /** The totals served are those declared by the trees. */
  lemma {:induction false} SumsAreDeclared(trees: seq<AirdropMerkleTree>)
    ensures ClaimSum(trees) == DeclaredSum(trees, Unlocked) + DeclaredSum(trees, Locked)
  {
    if trees != [] {
      var init, last := trees[..|trees| - 1], trees[|trees| - 1];
      SumsAreDeclared(init);
      assert trees == init + [last];
      DeclaredPush(init, last, Unlocked);
      DeclaredPush(init, last, Locked);
    }
  }

  lemma {:induction false} DeclaredPush(trees: seq<AirdropMerkleTree>, t: AirdropMerkleTree, col: Column)
    ensures DeclaredSum(trees + [t], col) == DeclaredSum(trees, col) + Declared(t, col)
  {
    if trees == [] {
      assert trees + [t] == [t];
    } else {
      DeclaredPush(trees[1..], t, col);
      assert (trees + [t])[1..] == trees[1..] + [t];
    }
  }

  /**
   * What a claimant is told can be claimed: one listed distributor has the address in the answer, that of
   * the last tree holding the claimant, and its root accepts the amounts and the proof in the answer.
   */
  lemma UserInfoIsClaimable(
    h: HashFn, state: RouterState, trees: seq<AirdropMerkleTree>, address: Address, c: Pubkey)
    requires Serves(state, trees, address) && Built(h, trees) && Apart(trees, address)
    requires GetUserInfo(state, c).Ok?
    ensures Latest(trees, c).Some? && Latest(trees, c).value < |trees|
    ensures
      var p, t := GetUserInfo(state, c).value, trees[Latest(trees, c).value];
      && (exists d :: d in state.distributors && d.distributorPubkey == p.merkleTree)
      && (forall d :: d in state.distributors && d.distributorPubkey == p.merkleTree ==> IsListingOf(d, t, address))
      && Accepted(h, p, c, t.merkleRoot)
  {
    UserInfoExact(h, state, trees, address, c);
    var k := Latest(trees, c).value;
    NodeIsAccepted(h, trees[k], c);
    ListedOnce(state.distributors, trees, address, k);
    ListingFields(trees[k], address);
  }

  /** In a distributor of that tree that is ready to pay, a claim made from the answer succeeds. */
  lemma UserInfoPays(
    h: HashFn, state: RouterState, trees: seq<AirdropMerkleTree>, address: Address, c: Pubkey, w: Runs.World)
    requires Indexes(state, trees, address) && Built(h, trees) && GetUserInfo(state, c).Ok?
    requires Latest(trees, c).Some? && Latest(trees, c).value < |trees|
    requires Settlement.Ready(h, w, trees[Latest(trees, c).value]) && c !in w.state.claims
    ensures
      var p := GetUserInfo(state, c).value;
      Runs.Step(h, w, Runs.NewClaim(c, p.amount, p.lockedAmount, p.proof)).Ok?
  {
    UserInfoExact(h, state, trees, address, c);
    var t := trees[Latest(trees, c).value];
    ToMapKeys(t.treeNodes, c);
    var i :| 0 <= i < |t.treeNodes| && t.treeNodes[i].claimant == c;
    ToMapFinds(t.treeNodes, i);
    Payments.UndisturbedCanClaim(h, w, t, i);
  }

  // ---- claimants cut across shards

  lemma {:induction false} AssignedNothing(trees: seq<AirdropMerkleTree>, c: Pubkey, col: Column)
    ensures AssignedTo(trees, c, col) == 0
      <==> forall j :: 0 <= j < |trees| ==> TotalFor(trees[j].treeNodes, c, col) == 0
  {
    if trees != [] {
      AssignedNothing(trees[1..], c, col);
      assert forall j :: 1 <= j < |trees| ==> trees[j] == trees[1..][j - 1];
    }
  }

  /** A tree assigns a claimant all it gets just when no other tree assigns it anything. */
  lemma {:induction false} AssignedByOne(trees: seq<AirdropMerkleTree>, k: nat, c: Pubkey, col: Column)
    requires k < |trees|
    ensures TotalFor(trees[k].treeNodes, c, col) <= AssignedTo(trees, c, col)
    ensures TotalFor(trees[k].treeNodes, c, col) == AssignedTo(trees, c, col)
      <==> forall j :: 0 <= j < |trees| && j != k ==> TotalFor(trees[j].treeNodes, c, col) == 0
  {
    assert forall j :: 1 <= j < |trees| ==> trees[j] == trees[1..][j - 1];
    if k == 0 {
      AssignedNothing(trees[1..], c, col);
    } else {
      AssignedByOne(trees[1..], k - 1, c, col);
    }
  }

  /** One tree taken out of a list. */
  lemma {:induction false} AssignedWithout(trees: seq<AirdropMerkleTree>, k: nat, c: Pubkey, col: Column)
    requires k < |trees|
    ensures AssignedTo(trees, c, col)
      == TotalFor(trees[k].treeNodes, c, col) + AssignedTo(trees[..k] + trees[k + 1..], c, col)
  {
    if k > 0 {
      var rest := trees[1..];
      AssignedWithout(rest, k - 1, c, col);
      TailOfCut(trees, k);
    } else {
      assert trees[..0] + trees[1..] == trees[1..];
    }
  }

  lemma TailOfCut<X>(xs: seq<X>, k: nat)
    requires 0 < k < |xs|
    ensures xs[1..][..k - 1] + xs[1..][k..] == (xs[..k] + xs[k + 1..])[1..]
    ensures (xs[..k] + xs[k + 1..])[0] == xs[0] && xs[k] == xs[1..][k - 1]
  {
  }

  lemma CutMultiset<X>(xs: seq<X>, k: nat)
    requires k < |xs|
    ensures multiset(xs) == multiset(xs[..k] + xs[k + 1..]) + multiset{xs[k]}
  {
    assert xs == xs[..k] + [xs[k]] + xs[k + 1..];
  }

  lemma SameRest<X>(a: seq<X>, b: seq<X>, k: nat)
    requires a != [] && k < |b| && b[k] == a[0] && multiset(a) == multiset(b)
    ensures multiset(a[1..]) == multiset(b[..k] + b[k + 1..])
  {
    CutMultiset(b, k);
    CutMultiset(a, 0);
    assert a[..0] + a[1..] == a[1..];
    var m, n, one := multiset(a[1..]), multiset(b[..k] + b[k + 1..]), multiset{a[0]};
    assert m + one == n + one;
    assert m == m + one - one == n + one - one == n;
  }

  /** What trees assign does not depend on their order. */
  lemma {:induction false} AssignedInAnyOrder(
    a: seq<AirdropMerkleTree>, b: seq<AirdropMerkleTree>, c: Pubkey, col: Column)
    requires multiset(a) == multiset(b)
    ensures AssignedTo(a, c, col) == AssignedTo(b, c, col)
    decreases |a|
  {
    if a == [] {
      assert |multiset(b)| == 0;
    } else {
      assert a[0] in multiset(b);
      var k :| 0 <= k < |b| && b[k] == a[0];
      SameRest(a, b, k);
      AssignedInAnyOrder(a[1..], b[..k] + b[k + 1..], c, col);
      AssignedWithout(b, k, c, col);
    }
  }

  function Told(p: UserProof, col: Column): nat {
    match col
    case Unlocked => p.amount
    case Locked => p.lockedAmount
  }

  /**
   * Load the shards of a list in any order. A claimant is told at most the sum of its rows, and exactly
   * that just when no other shard assigns it anything: of a claimant whose rows are cut across shards only
   * the part in the one loaded last is served.
   */
  lemma ToldInFull(
    h: HashFn, state: RouterState, loaded: seq<AirdropMerkleTree>, trees: seq<AirdropMerkleTree>,
    rows: seq<TreeNode>, max: nat, address: Address, c: Pubkey, col: Column)
    requires Shards(h, trees, rows, max) && multiset(loaded) == multiset(trees)
    requires Indexes(state, loaded, address) && GetUserInfo(state, c).Ok?
    ensures Latest(loaded, c).Some?
    ensures Told(GetUserInfo(state, c).value, col) <= TotalFor(rows, c, col)
    ensures Told(GetUserInfo(state, c).value, col) == TotalFor(rows, c, col)
      <==> forall j :: 0 <= j < |loaded| && j != Latest(loaded, c).value ==> TotalFor(loaded[j].treeNodes, c, col) == 0
  {
    LoadedAreBuilt(h, loaded, trees, rows, max);
    UserInfoExact(h, state, loaded, address, c);
    ToldByLatest(h, state, loaded, address, c, col);
    AssignedByOne(loaded, Latest(loaded, c).value, c, col);
    AssignedInAnyOrder(loaded, trees, c, col);
    ShardsConserve(h, trees, rows, max, c, col);
  }

  /** What the claimant is told is all that the last tree holding it assigns to it. */
  lemma ToldByLatest(
    h: HashFn, state: RouterState, trees: seq<AirdropMerkleTree>, address: Address, c: Pubkey, col: Column)
    requires Built(h, trees) && AnswersLatest(state, trees, address, c) && Latest(trees, c).Some?
    ensures Told(GetUserInfo(state, c).value, col) == TotalFor(trees[Latest(trees, c).value].treeNodes, c, col)
  {
    var nodes := trees[Latest(trees, c).value].treeNodes;
    ToMapKeys(nodes, c);
    var i :| 0 <= i < |nodes| && nodes[i].claimant == c;
    ToMapFinds(nodes, i);
    TotalForDistinct(nodes, i, col);
  }

  /** The shards of a list, in whatever order, are well-built, and no version occurs twice. */
  lemma LoadedAreBuilt(
    h: HashFn, loaded: seq<AirdropMerkleTree>, trees: seq<AirdropMerkleTree>, rows: seq<TreeNode>, max: nat)
    requires Shards(h, trees, rows, max) && multiset(loaded) == multiset(trees)
    ensures Built(h, loaded)
    ensures forall k :: 0 <= k < |loaded| ==> loaded[k].airdropVersion < |trees|
    ensures forall j, k :: 0 <= j < k < |loaded| ==> loaded[j].airdropVersion != loaded[k].airdropVersion
  {
    ShardsAreBuilt(h, trees, rows, max);
    forall k | 0 <= k < |loaded|
      ensures WellBuilt(h, loaded[k]) && loaded[k].airdropVersion < |trees|
    {
      var _ := PlaceAmong(loaded, trees, k);
    }
    forall j, k | 0 <= j < k < |loaded|
      ensures loaded[j].airdropVersion != loaded[k].airdropVersion
    {
      var a := PlaceAmong(loaded, trees, j);
      var b := PlaceAmong(loaded, trees, k);
      OnceInSequence(trees, a);
      DifferentPlaces(loaded, j, k);
    }
  }

  lemma PlaceAmong<X>(loaded: seq<X>, trees: seq<X>, k: nat) returns (i: nat)
    requires multiset(loaded) == multiset(trees) && k < |loaded|
    ensures i < |trees| && trees[i] == loaded[k]
  {
    assert loaded[k] in multiset(trees);
    i :| 0 <= i < |trees| && trees[i] == loaded[k];
  }

  lemma DifferentPlaces<X>(xs: seq<X>, j: nat, k: nat)
    requires j < k < |xs| && multiset(xs)[xs[j]] <= 1
    ensures xs[j] != xs[k]
  {
    CutMultiset(xs, k);
    assert (xs[..k] + xs[k + 1..])[j] == xs[j];
  }

  lemma OnceInSequence<X>(xs: seq<X>, i: nat)
    requires i < |xs| && forall j :: 0 <= j < |xs| && j != i ==> xs[j] != xs[i]
    ensures multiset(xs)[xs[i]] == 1
  {
    CutMultiset(xs, i);
    assert xs[i] !in xs[..i] + xs[i + 1..];
  }

  lemma ShardsAreBuilt(h: HashFn, trees: seq<AirdropMerkleTree>, rows: seq<TreeNode>, max: nat)
    requires Shards(h, trees, rows, max)
    ensures Built(h, trees) && forall k :: 0 <= k < |trees| ==> trees[k].airdropVersion == k
  {
    forall k | 0 <= k < |trees|
      ensures WellBuilt(h, trees[k]) && trees[k].airdropVersion == k
    {
      assert TreeOf(h, trees[k], Chunks(rows, max)[k], k);
    }
  }

  /** The trees the sharding command makes are served apart, when the addresses of their versions differ. */
  lemma ShardsAreApart(
    h: HashFn, loaded: seq<AirdropMerkleTree>, trees: seq<AirdropMerkleTree>, rows: seq<TreeNode>, max: nat,
    address: Address)
    requires Shards(h, trees, rows, max) && multiset(loaded) == multiset(trees)
    requires forall u: u64, v: u64 :: u < v < |trees| ==> address(u) != address(v)
    ensures Built(h, loaded) && Apart(loaded, address)
  {
    LoadedAreBuilt(h, loaded, trees, rows, max);
  }

  /** Two rows of one claimant, cut apart: each of the two trees assigns it its own row. */
  lemma CutInTwo(h: HashFn, trees: seq<AirdropMerkleTree>, a: TreeNode, b: TreeNode)
    requires a.claimant == b.claimant && a.amount > 0 && b.amount > 0 && Shards(h, trees, [a, b], 1)
    ensures |trees| == 2
    ensures TotalFor(trees[0].treeNodes, a.claimant, Unlocked) == a.amount
    ensures TotalFor(trees[1].treeNodes, a.claimant, Unlocked) == b.amount
    ensures TotalFor([a, b], a.claimant, Unlocked) == a.amount + b.amount
  {
    TwoChunks(a, b);
    TwoRows(a, b);
    assert TreeOf(h, trees[0], [a], 0) && TreeOf(h, trees[1], [b], 1);
    TreeOfRow(h, trees[0], a, 0);
    TreeOfRow(h, trees[1], b, 1);
  }

  lemma BothAssign(trees: seq<AirdropMerkleTree>, c: Pubkey)
    requires |trees| == 2
    requires TotalFor(trees[0].treeNodes, c, Unlocked) > 0 && TotalFor(trees[1].treeNodes, c, Unlocked) > 0
    ensures forall k :: 0 <= k < 2 ==> TotalFor(trees[k].treeNodes, c, Unlocked) > 0
  {
  }

  lemma TreeOfRow(h: HashFn, t: AirdropMerkleTree, row: TreeNode, version: nat)
    requires TreeOf(h, t, [row], version)
    ensures TotalFor(t.treeNodes, row.claimant, Unlocked) == row.amount
  {
    OneRow(row);
    MergeKeepsTotals(t.treeNodes, [row], row.claimant, Unlocked);
  }

  lemma TwoRows(a: TreeNode, b: TreeNode)
    requires a.claimant == b.claimant
    ensures TotalFor([a, b], a.claimant, Unlocked) == a.amount + b.amount
  {
    OneRow(a);
    TotalForPush([a], b, a.claimant, Unlocked);
    assert [a] + [b] == [a, b];
  }

  lemma TwoChunks(a: TreeNode, b: TreeNode)
    ensures Chunks([a, b], 1) == [[a], [b]]
  {
    assert [a, b][..1] == [a] && [a, b][1..] == [b] && [b][..1] == [b] && [b][1..] == [];
    assert Chunks([b], 1) == [[b]] + Chunks([], 1) == [[b]];
    assert Chunks([a, b], 1) == [[a]] + Chunks([b], 1) == [[a], [b]];
  }

  lemma OneRow(row: TreeNode)
    ensures TotalFor([row], row.claimant, Unlocked) == row.amount
  {
    TotalForPush([], row, row.claimant, Unlocked);
    assert [] + [row] == [row];
  }

  /** Two rows of one claimant, in trees of one row each: whichever is loaded last, the other is not served. */
  lemma CutClaimantToldLess(
    h: HashFn, state: RouterState, loaded: seq<AirdropMerkleTree>, trees: seq<AirdropMerkleTree>, a: TreeNode,
    b: TreeNode, address: Address)
    requires a.claimant == b.claimant && a.amount > 0 && b.amount > 0
    requires Shards(h, trees, [a, b], 1) && multiset(loaded) == multiset(trees) && Indexes(state, loaded, address)
    ensures GetUserInfo(state, a.claimant).Ok?
    ensures GetUserInfo(state, a.claimant).value.amount < a.amount + b.amount
  {
    var c := a.claimant;
    CutInTwo(h, trees, a, b);
    BothAssign(trees, c);
    assert |multiset(loaded)| == |loaded| && |multiset(trees)| == |trees|;
    forall k | 0 <= k < 2
      ensures TotalFor(loaded[k].treeNodes, c, Unlocked) > 0
    {
      var _ := PlaceAmong(loaded, trees, k);
    }
    LoadedAreBuilt(h, loaded, trees, [a, b], 1);
    AssignedOccurs(loaded, 0, c, Unlocked);
    UserInfoExact(h, state, loaded, address, c);
    ToldInFull(h, state, loaded, trees, [a, b], 1, address, c, Unlocked);
    LatestExact(loaded, c);
    var k := Latest(loaded, c).value;
    assert TotalFor(loaded[1 - k].treeNodes, c, Unlocked) > 0;
  }

  lemma AssignedOccurs(trees: seq<AirdropMerkleTree>, k: nat, c: Pubkey, col: Column)
    requires k < |trees| && TotalFor(trees[k].treeNodes, c, col) > 0
    ensures Occurs(trees, c)
  {
    if forall i :: 0 <= i < |trees[k].treeNodes| ==> trees[k].treeNodes[i].claimant != c {
      TotalForAbsent(trees[k].treeNodes, c, col);
    }
  }
}
