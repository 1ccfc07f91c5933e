/** A claimant's row, its byte encoding, and what an accepted proof says about a claim. */
module TreeNodes {
  import opened Words
  import opened Digests
  import opened MerkleTree
  import opened MerkleProofs
  import opened Verify

  datatype TreeNode =
    TreeNode(claimant: Pubkey, amount: u64, lockedAmount: u64, proof: Option<seq<Digest>>)

  /** `to_le_bytes`: `n` bytes, least significant first. */
  function LeBytes(x: nat, n: nat): (b: Bytes)
    ensures |b| == n
  {
    if n == 0 then [] else [x % 256] + LeBytes(x / 256, n - 1)
  }

  function FromLe(b: Bytes): nat {
    if b == [] then 0 else b[0] + 256 * FromLe(b[1..])
  }

  function Pow256(n: nat): (p: nat)
    ensures p > 0
  {
    if n == 0 then 1 else 256 * Pow256(n - 1)
  }

  /** Nothing is lost in the encoding of a number that fits. */
  lemma {:induction false} LeRoundTrip(x: nat, n: nat)
    requires x < Pow256(n)
    ensures FromLe(LeBytes(x, n)) == x
  {
    if n > 0 {
      LeRoundTrip(x / 256, n - 1);
      assert LeBytes(x, n)[1..] == LeBytes(x / 256, n - 1);
    }
  }

  lemma U64FitsEightBytes(x: u64)
    ensures FromLe(LeBytes(x, 8)) == x
  {
    assert Pow256(4) == 256 * (256 * (256 * (256 * 1)));
    assert Pow256(8) == 256 * (256 * (256 * (256 * Pow256(4))));
    LeRoundTrip(x, 8);
  }

  /** The 48 bytes hashed for a claim: claimant, unlocked amount, locked amount. */
  function Encode(claimant: Pubkey, amount: u64, lockedAmount: u64): (b: Bytes)
    ensures |b| == 48
  {
    claimant + LeBytes(amount, 8) + LeBytes(lockedAmount, 8)
  }

  lemma EncodeInjective(c: Pubkey, a: u64, l: u64, c': Pubkey, a': u64, l': u64)
    requires Encode(c, a, l) == Encode(c', a', l')
    ensures c == c' && a == a' && l == l'
  {
    var s, t := Encode(c, a, l), Encode(c', a', l');
    assert s[..32] == c && t[..32] == c';
    assert s[32..40] == LeBytes(a, 8) && t[32..40] == LeBytes(a', 8);
    assert s[40..] == LeBytes(l, 8) && t[40..] == LeBytes(l', 8);
    U64FitsEightBytes(a);
    U64FitsEightBytes(a');
    U64FitsEightBytes(l);
    U64FitsEightBytes(l');
  }

  /** Byte `i` counts the multiples of 256 to the power of `i`. */
  lemma {:induction false} LeBytesAt(x: nat, n: nat, i: nat)
    requires i < n
    ensures x / Pow256(i) >= 0 && LeBytes(x, n)[i] == x / Pow256(i) % 256
  {
    if i > 0 {
      LeBytesAt(x / 256, n - 1, i - 1);
      DivDiv(x, Pow256(i - 1));
    }
  }

  lemma DivDiv(x: nat, p: nat)
    requires p > 0
    ensures x / 256 / p == x / (256 * p)
  {
    var q := x / 256 / p;
    FloorBounds(x, 256);
    FloorBounds(x / 256, p);
    assert q * (256 * p) == 256 * (q * p);
    FloorUnique(x, 256 * p, q);
  }

  /** In bytes: the claimant, the unlocked amount, the locked amount, each amount least significant byte first. */
  lemma EncodeLayout(c: Pubkey, amount: u64, lockedAmount: u64)
    ensures
      var b := Encode(c, amount, lockedAmount);
      && b[..32] == c
      && FromLe(b[32..40]) == amount && FromLe(b[40..]) == lockedAmount
      && b[32] == amount % 256 && b[40] == lockedAmount % 256
  {
    var b := Encode(c, amount, lockedAmount);
    assert b[32..40] == LeBytes(amount, 8) && b[40..] == LeBytes(lockedAmount, 8);
    U64FitsEightBytes(amount);
    U64FitsEightBytes(lockedAmount);
    assert b[32] == LeBytes(amount, 8)[0] && b[40] == LeBytes(lockedAmount, 8)[0];
  }

  function NodeHash(h: HashFn, claimant: Pubkey, amount: u64, lockedAmount: u64): Digest {
    h(Encode(claimant, amount, lockedAmount))
  }

  /** The items of the Merkle tree: one hash for each node. */
  function NodeHashes(h: HashFn, nodes: seq<TreeNode>): (items: seq<Digest>)
    ensures |items| == |nodes|
    ensures forall i :: 0 <= i < |nodes|
              ==> items[i] == NodeHash(h, nodes[i].claimant, nodes[i].amount, nodes[i].lockedAmount)
  {
    seq(|nodes|, i requires 0 <= i < |nodes|
                 => NodeHash(h, nodes[i].claimant, nodes[i].amount, nodes[i].lockedAmount))
  }

  /** The root that goes on chain for a list of nodes. */
  function AirdropRoot(h: HashFn, nodes: seq<TreeNode>): Digest
    requires nodes != []
  {
    MerkleRoot(h, true, NodeHashes(h, nodes))
  }

  /** The node a claim presents to the on-chain checker. */
  function ClaimLeaf(h: HashFn, claimant: Pubkey, amount: u64, lockedAmount: u64): Digest {
    LeafHash(h, NodeHash(h, claimant, amount, lockedAmount))
  }

  /** The leaf on chain is hashed twice: the encoding, and behind a 0 its hash. */
  lemma ClaimLeafBytes(h: HashFn, claimant: Pubkey, amount: u64, lockedAmount: u64)
    ensures ClaimLeaf(h, claimant, amount, lockedAmount) == h([0] + h(Encode(claimant, amount, lockedAmount)))
  {
  }

  /** Every string hashed in building a tree over `nodes`. */
  ghost predicate NodesHashedIn(h: HashFn, nodes: seq<TreeNode>, s: set<Bytes>) {
    && TreeHashedIn(h, NodeHashes(h, nodes), s)
    && forall i :: 0 <= i < |nodes| ==> Encode(nodes[i].claimant, nodes[i].amount, nodes[i].lockedAmount) in s
  }

  /** Every string hashed in checking a claim. */
  ghost predicate ClaimHashedIn(
    h: HashFn, claimant: Pubkey, amount: u64, lockedAmount: u64, proof: seq<Digest>, s: set<Bytes>)
  {
    && Encode(claimant, amount, lockedAmount) in s
    && FoldHashedIn(h, NodeHash(h, claimant, amount, lockedAmount), proof, s)
  }

  /** `node` is the triple a claim presents. */
  predicate Presents(node: TreeNode, claimant: Pubkey, amount: u64, lockedAmount: u64) {
    node.claimant == claimant && node.amount == amount && node.lockedAmount == lockedAmount
  }

  /**
   * Against the root of a tree the checker accepts exactly the triples of its nodes, each only with
   * the sibling path of a node that holds it.
   */
  lemma ClaimAcceptedExactly(
    h: HashFn, nodes: seq<TreeNode>, claimant: Pubkey, amount: u64, lockedAmount: u64, proof: seq<Digest>,
    s: set<Bytes>)
    requires nodes != [] && CollisionFree(h, s)
    requires NodesHashedIn(h, nodes, s) && ClaimHashedIn(h, claimant, amount, lockedAmount, proof, s)
    ensures Fold(h, ClaimLeaf(h, claimant, amount, lockedAmount), proof) == AirdropRoot(h, nodes)
      <==> exists j :: 0 <= j < |nodes| && Presents(nodes[j], claimant, amount, lockedAmount)
                       && proof == ProofOf(h, NodeHashes(h, nodes), j)
  {
    var items, datum := NodeHashes(h, nodes), NodeHash(h, claimant, amount, lockedAmount);
    VerifyAcceptsExactly(h, items, datum, proof, s);
    if j :| 0 <= j < |items| && items[j] == datum && proof == ProofOf(h, items, j) {
      SameHashSameTriple(h, nodes[j], claimant, amount, lockedAmount, s);
      assert Presents(nodes[j], claimant, amount, lockedAmount);
    }
    if j :| 0 <= j < |nodes| && Presents(nodes[j], claimant, amount, lockedAmount) && proof == ProofOf(h, items, j) {
      assert items[j] == datum;
    }
  }

  /** All strings hashed in building the tree of `nodes`. */
  ghost function NodesStrings(h: HashFn, nodes: seq<TreeNode>): set<Bytes> {
    TreeStrings(h, NodeHashes(h, nodes))
    + (set i | 0 <= i < |nodes| :: Encode(nodes[i].claimant, nodes[i].amount, nodes[i].lockedAmount))
  }

  /** All strings hashed in checking a claim. */
  ghost function ClaimStrings(h: HashFn, claimant: Pubkey, amount: u64, lockedAmount: u64, proof: seq<Digest>)
    : set<Bytes>
  {
    FoldStrings(h, NodeHash(h, claimant, amount, lockedAmount), proof) + {Encode(claimant, amount, lockedAmount)}
  }

  lemma NodesStringsCover(h: HashFn, nodes: seq<TreeNode>, s: set<Bytes>)
    requires nodes != [] && NodesStrings(h, nodes) <= s
    ensures NodesHashedIn(h, nodes, s)
  {
    TreeStringsCover(h, NodeHashes(h, nodes), s);
    forall i | 0 <= i < |nodes|
      ensures Encode(nodes[i].claimant, nodes[i].amount, nodes[i].lockedAmount) in s
    {
      assert Encode(nodes[i].claimant, nodes[i].amount, nodes[i].lockedAmount) in NodesStrings(h, nodes);
    }
  }

  lemma ClaimStringsCover(
    h: HashFn, claimant: Pubkey, amount: u64, lockedAmount: u64, proof: seq<Digest>, s: set<Bytes>)
    requires ClaimStrings(h, claimant, amount, lockedAmount, proof) <= s
    ensures ClaimHashedIn(h, claimant, amount, lockedAmount, proof, s)
  {
    FoldStringsCover(h, NodeHash(h, claimant, amount, lockedAmount), proof, s);
  }

  /** An accepted claim is that of a node with its own path, or two of the strings hashed collide. */
  lemma ClaimedOrCollision(
    h: HashFn, nodes: seq<TreeNode>, claimant: Pubkey, amount: u64, lockedAmount: u64, proof: seq<Digest>)
    requires nodes != []
    requires Fold(h, ClaimLeaf(h, claimant, amount, lockedAmount), proof) == AirdropRoot(h, nodes)
    ensures
      || (exists j :: 0 <= j < |nodes| && Presents(nodes[j], claimant, amount, lockedAmount)
                      && proof == ProofOf(h, NodeHashes(h, nodes), j))
      || (exists a, b ::
            Collision(h, NodesStrings(h, nodes) + ClaimStrings(h, claimant, amount, lockedAmount, proof), a, b))
  {
    var s := NodesStrings(h, nodes) + ClaimStrings(h, claimant, amount, lockedAmount, proof);
    FreeOrCollision(h, s);
    if CollisionFree(h, s) {
      NodesStringsCover(h, nodes, s);
      ClaimStringsCover(h, claimant, amount, lockedAmount, proof, s);
      ClaimAcceptedExactly(h, nodes, claimant, amount, lockedAmount, proof, s);
    }
  }

  lemma SameHashSameTriple(
    h: HashFn, node: TreeNode, claimant: Pubkey, amount: u64, lockedAmount: u64, s: set<Bytes>)
    requires CollisionFree(h, s)
    requires Encode(node.claimant, node.amount, node.lockedAmount) in s && Encode(claimant, amount, lockedAmount) in s
    requires NodeHash(h, node.claimant, node.amount, node.lockedAmount) == NodeHash(h, claimant, amount, lockedAmount)
    ensures Presents(node, claimant, amount, lockedAmount)
  {
    EncodeInjective(node.claimant, node.amount, node.lockedAmount, claimant, amount, lockedAmount);
  }

  /** A member's own triple is accepted with the proof of its node, whatever the hash function does. */
  lemma MemberAccepted(h: HashFn, nodes: seq<TreeNode>, j: nat)
    requires j < |nodes|
    ensures Fold(h, ClaimLeaf(h, nodes[j].claimant, nodes[j].amount, nodes[j].lockedAmount),
                 ProofOf(h, NodeHashes(h, nodes), j)) == AirdropRoot(h, nodes)
  {
    ProofComplete(h, NodeHashes(h, nodes), j);
  }
}
