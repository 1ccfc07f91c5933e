/** The checker that runs on chain: folds a proof without left/right bits up to the root. */
module Verify {
  import opened Words
  import opened Digests

  function Fold(h: HashFn, leaf: Digest, proof: seq<Digest>): Digest {
    if proof == [] then leaf
    else Pair(h, true, Fold(h, leaf, proof[..|proof| - 1]), proof[|proof| - 1])
  }

  method Verify(h: HashFn, proof: seq<Digest>, root: Digest, leaf: Digest) returns (ok: bool)
    ensures ok <==> Fold(h, leaf, proof) == root
  {
    var computedHash := leaf;
    for i := 0 to |proof|
      invariant computedHash == Fold(h, leaf, proof[..i])
    {
      var proofElement := proof[i];
      assert proof[..i + 1][..i] == proof[..i];
      if LexLe(computedHash, proofElement) {
        computedHash := h([1] + computedHash + proofElement);
      } else {
        computedHash := h([1] + proofElement + computedHash);
      }
    }
    assert proof[..|proof|] == proof;
    return computedHash == root;
  }
}
