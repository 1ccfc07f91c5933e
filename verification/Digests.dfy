/** Byte-string order, the pair hash of inner nodes, and collision freedom. */
module Digests {
  import opened Words

  /** The hash function is a parameter of everything below: every statement holds for all of them. */
  type HashFn = Bytes -> Digest

  const LEAF_PREFIX: Bytes := [0]
  const INTERMEDIATE_PREFIX: Bytes := [1]

  function LeafPreimage(datum: Bytes): Bytes {
    LEAF_PREFIX + datum
  }

  function LeafHash(h: HashFn, datum: Bytes): Digest {
    h(LeafPreimage(datum))
  }

  /** Array comparison in Rust: lexicographic on bytes. */
  predicate LexLe(a: Bytes, b: Bytes) {
    if a == [] then true
    else if b == [] then false
    else if a[0] != b[0] then a[0] < b[0]
    else LexLe(a[1..], b[1..])
  }

  lemma {:induction false} LexTotal(a: Bytes, b: Bytes)
    ensures LexLe(a, b) || LexLe(b, a)
  {
    if a != [] && b != [] && a[0] == b[0] {
      LexTotal(a[1..], b[1..]);
    }
  }

  lemma {:induction false} LexAntisymmetric(a: Bytes, b: Bytes)
    requires LexLe(a, b) && LexLe(b, a)
    ensures a == b
  {
    if a != [] && b != [] {
      LexAntisymmetric(a[1..], b[1..]);
      assert a == [a[0]] + a[1..] && b == [b[0]] + b[1..];
    }
  }

  /** The bytes an inner node hashes; a sorting tree puts the smaller child first. */
  function PairPreimage(sorted: bool, l: Digest, r: Digest): Bytes {
    if sorted && !LexLe(l, r) then INTERMEDIATE_PREFIX + r + l
    else INTERMEDIATE_PREFIX + l + r
  }

  function Pair(h: HashFn, sorted: bool, l: Digest, r: Digest): Digest {
    h(PairPreimage(sorted, l, r))
  }

  /** Sorting makes the two children interchangeable, so a proof needs no left/right bits. */
  lemma SortedPairCommutes(l: Digest, r: Digest)
    ensures PairPreimage(true, l, r) == PairPreimage(true, r, l)
  {
    LexTotal(l, r);
    if LexLe(l, r) && LexLe(r, l) {
      LexAntisymmetric(l, r);
    }
  }

  lemma ConcatSplits(a: Digest, b: Digest, c: Digest, d: Digest)
    requires INTERMEDIATE_PREFIX + a + b == INTERMEDIATE_PREFIX + c + d
    ensures a == c && b == d
  {
    var s, t := INTERMEDIATE_PREFIX + a + b, INTERMEDIATE_PREFIX + c + d;
    assert s[1..33] == a && t[1..33] == c;
    assert s[33..] == b && t[33..] == d;
  }

  /** A sorted pair determines its two children up to their order. */
  lemma SortedPairInjective(a: Digest, b: Digest, c: Digest, d: Digest)
    requires PairPreimage(true, a, b) == PairPreimage(true, c, d)
    ensures (a == c && b == d) || (a == d && b == c)
  {
    if LexLe(a, b) {
      if LexLe(c, d) { ConcatSplits(a, b, c, d); } else { ConcatSplits(a, b, d, c); }
    } else {
      if LexLe(c, d) { ConcatSplits(b, a, c, d); } else { ConcatSplits(b, a, d, c); }
    }
  }

  lemma LeafPreimageInjective(a: Bytes, b: Bytes)
    requires LeafPreimage(a) == LeafPreimage(b)
    ensures a == b
  {
    assert LeafPreimage(a)[1..] == a && LeafPreimage(b)[1..] == b;
  }

  /** The prefixes keep leaves and inner nodes apart. */
  lemma LeafIsNoPair(datum: Bytes, sorted: bool, l: Digest, r: Digest)
    ensures LeafPreimage(datum) != PairPreimage(sorted, l, r)
  {
    assert LeafPreimage(datum)[0] == 0 && PairPreimage(sorted, l, r)[0] == 1;
  }

  /** No two different byte strings of `s` have the same hash. */
  ghost predicate CollisionFree(h: HashFn, s: set<Bytes>) {
    forall a, b :: a in s && b in s && h(a) == h(b) ==> a == b
  }

  /** Two different byte strings of `s` with the same hash. */
  ghost predicate Collision(h: HashFn, s: set<Bytes>, a: Bytes, b: Bytes) {
    a in s && b in s && a != b && h(a) == h(b)
  }

  lemma FreeOrCollision(h: HashFn, s: set<Bytes>)
    ensures CollisionFree(h, s) || exists a, b :: Collision(h, s, a, b)
  {
    if !CollisionFree(h, s) {
      var a, b :| a in s && b in s && h(a) == h(b) && a != b;
      assert Collision(h, s, a, b);
    }
  }

  // ---- the bytes that are hashed

  /** Where two byte strings first differ decides their order. */
  lemma {:induction false} FirstDifferenceDecides(a: Bytes, b: Bytes, k: nat)
    requires k < |a| && k < |b| && a[..k] == b[..k] && a[k] < b[k]
    ensures LexLe(a, b) && !LexLe(b, a)
  {
    if k > 0 {
      assert a[0] == a[..k][0] && b[0] == b[..k][0];
      assert a[1..][..k - 1] == a[..k][1..] && b[1..][..k - 1] == b[..k][1..];
      FirstDifferenceDecides(a[1..], b[1..], k - 1);
    }
  }

  /** In a sorted pair the smaller hash is hashed first, whichever side it stands on. */
  lemma SmallerFirst(a: Digest, b: Digest, k: nat)
    requires k < 32 && a[..k] == b[..k] && a[k] < b[k]
    ensures PairPreimage(true, a, b) == [1] + a + b
    ensures PairPreimage(true, b, a) == [1] + a + b
  {
    FirstDifferenceDecides(a, b, k);
  }

  /** All other strings: leaves behind a 0, pairs in their order, and equal ones, behind a 1. */
  lemma HashedBytes(datum: Bytes, a: Digest, b: Digest)
    ensures LeafPreimage(datum) == [0] + datum
    ensures PairPreimage(false, a, b) == [1] + a + b
    ensures PairPreimage(true, a, a) == [1] + a + a
  {
  }
}
