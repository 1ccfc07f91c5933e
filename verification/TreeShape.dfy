/** Level sizes of a binary tree stored flat, level after level, and how many levels there are. */
module TreeShape {
  import opened Words

  function NextLevelLen(len: nat): nat {
    if len == 1 then 0 else (len + 1) / 2
  }

  /** Length of level `k` over `n` leaves; 0 above the root. */
  function LevelLen(n: nat, k: nat): nat {
    if k == 0 then n else NextLevelLen(LevelLen(n, k - 1))
  }

  /** Where level `k` begins in the flat vector. */
  function LevelStart(n: nat, k: nat): nat {
    if k == 0 then 0 else LevelStart(n, k - 1) + LevelLen(n, k - 1)
  }

  function CeilLog2(n: nat): nat {
    if n <= 1 then 0 else 1 + CeilLog2((n + 1) / 2)
  }

  function FloorLog2(n: nat): nat
    requires n > 0
  {
    if n == 1 then 0 else 1 + FloorLog2(n / 2)
  }

  function Pow2(k: nat): nat {
    if k == 0 then 1 else 2 * Pow2(k - 1)
  }

  /** Number of hashes a tree over `n` leaves stores. */
  function NodeCount(n: nat): nat {
    LevelStart(n, CeilLog2(n) + 1)
  }

  /** Position on level `k` of the ancestor of leaf `i`. */
  function Ancestor(i: nat, k: nat): nat {
    if k == 0 then i else Ancestor(i, k - 1) / 2
  }

  /** Position of the sibling of `p` on a level of length `len`; the odd last node is its own. */
  function SiblingIndex(len: nat, p: nat): (q: nat)
    requires p < len
    ensures q < len
  {
    if p % 2 == 1 then p - 1 else if p + 1 < len then p + 1 else p
  }

  /** Position of the right child of node `i` on a level of length `len`; the odd last one is both. */
  function RightChild(len: nat, i: nat): (q: nat)
    requires 2 * i < len
    ensures q < len
  {
    if 2 * i + 1 < len then 2 * i + 1 else 2 * i
  }

  // ---- levels

  /** Dropping the leaves of a tree leaves the tree over the next level. */
  lemma {:induction false} LevelShift(n: nat, k: nat)
    ensures LevelLen(n, k + 1) == LevelLen(NextLevelLen(n), k)
  {
    if k > 0 {
      LevelShift(n, k - 1);
    }
  }

  lemma {:induction false} StartShift(n: nat, k: nat)
    ensures LevelStart(n, k + 1) == n + LevelStart(NextLevelLen(n), k)
  {
    if k > 0 {
      StartShift(n, k - 1);
      LevelShift(n, k - 1);
    }
  }

  /** The root level, of one node, is level `CeilLog2(n)`; levels below it have at least two. */
  lemma {:induction false} LevelsEndAtHeight(n: nat, k: nat)
    requires n > 0
    ensures k < CeilLog2(n) ==> LevelLen(n, k) >= 2
    ensures k == CeilLog2(n) ==> LevelLen(n, k) == 1
    ensures k > CeilLog2(n) ==> LevelLen(n, k) == 0
    decreases k
  {
    if k > 0 {
      LevelsEndAtHeight(n, k - 1);
    }
    if k <= CeilLog2(n) {
      HeightStep(n, k);
    }
  }

  /** Climbing one level takes one off the height that is left. */
  lemma {:induction false} HeightStep(n: nat, k: nat)
    requires n > 0 && k <= CeilLog2(n)
    ensures CeilLog2(n) == k + CeilLog2(LevelLen(n, k))
  {
    if k > 0 {
      HeightStep(n, k - 1);
      assert k - 1 < CeilLog2(n);
    }
  }

  /** The level loop stops at the root's level. */
  lemma TopLevel(n: nat, k: nat)
    requires LevelLen(n, k + 1) == 0 && if n == 0 then k == 0 else LevelLen(n, k) > 0
    ensures k == CeilLog2(n)
  {
    if n > 0 {
      LevelsEndAtHeight(n, k);
      LevelsEndAtHeight(n, k + 1);
    }
  }

  lemma {:induction false} StartMonotone(n: nat, j: nat, k: nat)
    requires j <= k
    ensures LevelStart(n, j) <= LevelStart(n, k)
    decreases k
  {
    if j < k {
      StartMonotone(n, j, k - 1);
    }
  }

  /** `CeilLog2` is the least exponent whose power of two reaches `n`. */
  lemma {:induction false} CeilLog2Exact(n: nat)
    requires n > 0
    ensures n <= Pow2(CeilLog2(n))
    ensures n > 1 ==> Pow2(CeilLog2(n) - 1) < n
  {
    if n > 1 {
      CeilLog2Exact((n + 1) / 2);
    }
  }

  lemma {:induction false} CeilLog2Monotone(m: nat, n: nat)
    requires m <= n
    ensures CeilLog2(m) <= CeilLog2(n)
  {
    if m > 1 {
      CeilLog2Monotone((m + 1) / 2, (n + 1) / 2);
    }
  }

  lemma {:induction false} Pow2Log(k: nat)
    ensures CeilLog2(Pow2(k)) == k
  {
    if k > 0 {
      Pow2Log(k - 1);
      assert Pow2(k - 1) >= 1 by { Pow2Positive(k - 1); }
    }
  }

  lemma {:induction false} Pow2Add(j: nat, k: nat)
    ensures Pow2(j + k) == Pow2(j) * Pow2(k)
  {
    if j > 0 {
      Pow2Add(j - 1, k);
      assert Pow2(j + k) == 2 * (Pow2(j - 1) * Pow2(k)) == Pow2(j) * Pow2(k);
    }
  }

  lemma Pow2Of32()
    ensures Pow2(32) == 0x1_0000_0000
  {
    assert Pow2(8) == 256 by { assert Pow2(4) == 16; }
    Pow2Add(8, 8);
    Pow2Add(16, 16);
  }

  lemma {:induction false} Pow2Positive(k: nat)
    ensures Pow2(k) >= 1
  {
    if k > 0 {
      Pow2Positive(k - 1);
    }
  }

  /** A level holds the leaves in groups of `2^k`, rounded up. */
  lemma {:induction false} LevelLenIsCeilDiv(n: nat, k: nat)
    requires n > 0 && k <= CeilLog2(n)
    ensures (LevelLen(n, k) - 1) * Pow2(k) < n <= LevelLen(n, k) * Pow2(k)
  {
    if k > 0 {
      LevelLenIsCeilDiv(n, k - 1);
      LevelsEndAtHeight(n, k - 1);
      HalveGroups(LevelLen(n, k - 1), LevelLen(n, k), Pow2(k - 1), n);
    }
  }

  lemma HalveGroups(l: nat, m: nat, p: nat, n: nat)
    requires m == (l + 1) / 2 && (l - 1) * p < n <= l * p
    ensures (m - 1) * (2 * p) < n <= m * (2 * p)
  {
    assert m * (2 * p) == (2 * m) * p && (m - 1) * (2 * p) == (2 * m - 2) * p;
    MulMono(l, 2 * m, p);
    MulMono(2 * m - 2, l - 1, p);
  }

  lemma {:induction false} CeilVersusFloorLog2(n: nat)
    requires n > 0
    ensures FloorLog2(n) <= CeilLog2(n) <= FloorLog2(n) + 1
  {
    if n > 1 {
      CeilVersusFloorLog2(n / 2);
      if n % 2 == 1 {
        CeilOfNext(n / 2);
      }
    }
  }

  lemma {:induction false} CeilOfNext(n: nat)
    requires n > 0
    ensures FloorLog2(n) <= CeilLog2(n + 1) <= FloorLog2(n) + 1
  {
    if n > 1 {
      CeilOfNext(n / 2);
      assert (n + 2) / 2 == n / 2 + 1;
    }
  }

  /** The reserved capacity is never exceeded, and one slot is even left over. */
  lemma {:induction false} NodeCountWithinCapacity(n: nat)
    requires n > 0
    ensures NodeCount(n) <= 2 * n + CeilLog2(n) - 1
    ensures NodeCount(n) < 2 * n + FloorLog2(n) + 1
  {
    if n > 1 {
      var m := (n + 1) / 2;
      NodeCountWithinCapacity(m);
      StartShift(n, CeilLog2(n));
    }
    CeilVersusFloorLog2(n);
  }

  // ---- ancestors

  /** Every leaf has an ancestor on every level up to the root, and that of the root level is 0. */
  lemma {:induction false} AncestorInLevel(n: nat, i: nat, k: nat)
    requires i < n && k <= CeilLog2(n)
    ensures Ancestor(i, k) < LevelLen(n, k)
  {
    if k > 0 {
      AncestorInLevel(n, i, k - 1);
      LevelsEndAtHeight(n, k - 1);
    }
  }

  /** An ancestor and its sibling are the two children of the ancestor above them. */
  lemma SiblingsAreChildren(len: nat, p: nat)
    requires p < len
    ensures 2 * (p / 2) < len
    ensures p % 2 == 0 ==> 2 * (p / 2) == p && RightChild(len, p / 2) == SiblingIndex(len, p)
    ensures p % 2 == 1 ==> 2 * (p / 2) == SiblingIndex(len, p) && RightChild(len, p / 2) == p
  {
  }

  /** Both children have the same ancestors, and each of them has the other for a sibling. */
  lemma ChildrenAreSiblings(len: nat, i: nat)
    requires 2 * i < len
    ensures (2 * i) / 2 == i && SiblingIndex(len, 2 * i) == RightChild(len, i)
    ensures RightChild(len, i) / 2 == i
    ensures RightChild(len, i) != 2 * i ==> SiblingIndex(len, RightChild(len, i)) == 2 * i
  {
  }
}
