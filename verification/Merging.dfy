/** Combining the rows of one claimant, in the order of first appearance. */
module Merging {
  import opened Words
  import opened TreeNodes
  import opened Rows

  /** What goes wrong off chain: an `unwrap` or assertion fails, or an error value is returned. */
  datatype BuildError = Panicked | MerkleRootError | MerkleValidationError

  /** One node for each claimant of `rows`, in order of first appearance, holding both of its sums. */
  ghost predicate IsMergeOf(merged: seq<TreeNode>, rows: seq<TreeNode>) {
    && |merged| == |Claimants(rows)|
    && forall i :: 0 <= i < |merged| ==> MergesOne(merged[i], Claimants(rows)[i], rows)
  }

  ghost predicate MergesOne(node: TreeNode, c: Pubkey, rows: seq<TreeNode>) {
    && node.claimant == c
    && node.amount == TotalFor(rows, c, Unlocked)
    && node.lockedAmount == TotalFor(rows, c, Locked)
  }

  ghost predicate SameTotals(a: seq<TreeNode>, b: seq<TreeNode>) {
    Total(a, Unlocked) == Total(b, Unlocked) && Total(a, Locked) == Total(b, Locked)
  }

  /** The hash index of the insertion-ordered map: where each claimant's entry stands. */
  ghost predicate Indexes(index: map<Pubkey, nat>, merged: seq<TreeNode>) {
    && (forall c :: c in index ==> index[c] < |merged| && merged[index[c]].claimant == c)
    && (forall i :: 0 <= i < |merged| ==> merged[i].claimant in index && index[merged[i].claimant] == i)
  }

  ghost predicate MergeState(rows: seq<TreeNode>, merged: seq<TreeNode>, index: map<Pubkey, nat>) {
    IsMergeOf(merged, rows) && SameTotals(merged, rows) && Indexes(index, merged)
  }

  lemma IndexedMeansSeen(rows: seq<TreeNode>, merged: seq<TreeNode>, index: map<Pubkey, nat>, c: Pubkey)
    requires MergeState(rows, merged, index)
    ensures c in index <==> c in Claimants(rows)
  {
    if c in index {
      assert MergesOne(merged[index[c]], Claimants(rows)[index[c]], rows);
    }
    if c in Claimants(rows) {
      var i :| 0 <= i < |Claimants(rows)| && Claimants(rows)[i] == c;
      assert MergesOne(merged[i], c, rows);
    }
  }

  /** A claimant without rows so far has sums 0. */
  lemma {:induction false} UnseenTotals(rows: seq<TreeNode>, c: Pubkey, col: Column)
    requires c !in Claimants(rows)
    ensures TotalFor(rows, c, col) == 0
  {
    if rows != [] {
      UnseenTotals(rows[..|rows| - 1], c, col);
    }
  }

  /** Adding a row of a claimant seen before changes that claimant's node and no other. */
  lemma ModifyKeeps(
    rows: seq<TreeNode>, merged: seq<TreeNode>, index: map<Pubkey, nat>, row: TreeNode, node: TreeNode)
    requires MergeState(rows, merged, index) && row.claimant in index
    requires var entry := merged[index[row.claimant]];
      node.claimant == row.claimant && node.amount == entry.amount + row.amount
      && node.lockedAmount == entry.lockedAmount + row.lockedAmount
    ensures MergeState(rows + [row], merged[index[row.claimant] := node], index)
  {
    var c, p, merged' := row.claimant, index[row.claimant], merged[index[row.claimant] := node];
    IndexedMeansSeen(rows, merged, index, c);
    ClaimantsPush(rows, row);
    TotalPush(rows, row, Unlocked);
    TotalPush(rows, row, Locked);
    TotalUpdate(merged, p, node, Unlocked);
    TotalUpdate(merged, p, node, Locked);
    forall i | 0 <= i < |merged'|
      ensures MergesOne(merged'[i], Claimants(rows + [row])[i], rows + [row])
    {
      var d := Claimants(rows)[i];
      assert MergesOne(merged[i], d, rows);
      TotalForPush(rows, row, d, Unlocked);
      TotalForPush(rows, row, d, Locked);
    }
    assert Indexes(index, merged');
  }

  lemma InsertMerges(rows: seq<TreeNode>, merged: seq<TreeNode>, row: TreeNode, i: nat)
    requires IsMergeOf(merged, rows) && row.claimant !in Claimants(rows) && i <= |merged|
    ensures |Claimants(rows + [row])| == |merged| + 1
    ensures MergesOne((merged + [row])[i], Claimants(rows + [row])[i], rows + [row])
  {
    ClaimantsPush(rows, row);
    var d := Claimants(rows + [row])[i];
    if i < |merged| {
      assert MergesOne(merged[i], d, rows);
    } else {
      UnseenTotals(rows, d, Unlocked);
      UnseenTotals(rows, d, Locked);
    }
    TotalForPush(rows, row, d, Unlocked);
    TotalForPush(rows, row, d, Locked);
  }

  /** Adding a row of a new claimant adds its node at the end. */
  lemma InsertKeeps(rows: seq<TreeNode>, merged: seq<TreeNode>, index: map<Pubkey, nat>, row: TreeNode)
    requires MergeState(rows, merged, index) && row.claimant !in index
    ensures MergeState(rows + [row], merged + [row], index[row.claimant := |merged|])
  {
    IndexedMeansSeen(rows, merged, index, row.claimant);
    TotalPush(rows, row, Unlocked);
    TotalPush(rows, row, Locked);
    TotalPush(merged, row, Unlocked);
    TotalPush(merged, row, Locked);
    InsertMerges(rows, merged, row, |merged|);
    forall i | 0 <= i < |merged + [row]|
      ensures MergesOne((merged + [row])[i], Claimants(rows + [row])[i], rows + [row])
    {
      InsertMerges(rows, merged, row, i);
    }
  }

  /** Every claimant's own sums fit 64 bits. */
  ghost predicate EachFits(rows: seq<TreeNode>) {
    forall c, col :: TotalFor(rows, c, col) < U64_LIMIT
  }

  lemma OverflowSeen(
    rows: seq<TreeNode>, merged: seq<TreeNode>, index: map<Pubkey, nat>, k: nat, col: Column)
    requires k < |rows| && MergeState(rows[..k], merged, index) && rows[k].claimant in index
    requires Amount(merged[index[rows[k].claimant]], col) + Amount(rows[k], col) >= U64_LIMIT
    ensures !EachFits(rows)
  {
    var c := rows[k].claimant;
    assert MergesOne(merged[index[c]], Claimants(rows[..k])[index[c]], rows[..k]);
    TotalForPush(rows[..k], rows[k], c, col);
    assert rows[..k] + [rows[k]] == rows[..k + 1];
    TotalForPrefix(rows, k + 1, c, col);
  }

  lemma MergedFits(merged: seq<TreeNode>, rows: seq<TreeNode>)
    requires IsMergeOf(merged, rows)
    ensures EachFits(rows)
  {
    forall c, col
      ensures TotalFor(rows, c, col) < U64_LIMIT
    {
      if c in Claimants(rows) {
        var i :| 0 <= i < |Claimants(rows)| && Claimants(rows)[i] == c;
        assert MergesOne(merged[i], c, rows);
        assert TotalFor(rows, c, col) == Amount(merged[i], col) by {
          match col
          case Unlocked =>
          case Locked =>
        }
      } else {
        UnseenTotals(rows, c, col);
      }
    }
  }

  /** It does when the sums of all rows fit. */
  lemma TotalsFitEach(rows: seq<TreeNode>)
    requires Total(rows, Unlocked) < U64_LIMIT && Total(rows, Locked) < U64_LIMIT
    ensures EachFits(rows)
  {
    forall c, col
      ensures TotalFor(rows, c, col) < U64_LIMIT
    {
      TotalForBounded(rows, c, col);
    }
  }

  /**
   * The loop over the rows: a claimant seen before has the row's amounts added to its entry, a new one
   * is inserted at the end. Panics exactly when a claimant's own sum leaves 64 bits, whatever the
   * sums over all claimants do.
   */
  method Merge(rows: seq<TreeNode>) returns (r: Result<seq<TreeNode>, BuildError>)
    ensures r.Ok? ==> IsMergeOf(r.value, rows) && SameTotals(r.value, rows)
    ensures r.Ok? <==> EachFits(rows)
    ensures r.Err? ==> r.error == Panicked
  {
    var merged: seq<TreeNode> := [];
    var index: map<Pubkey, nat> := map[];
    for k := 0 to |rows|
      invariant MergeState(rows[..k], merged, index)
    {
      var row := rows[k];
      assert rows[..k] + [row] == rows[..k + 1];
      if row.claimant in index {
        var n := merged[index[row.claimant]];
        if n.amount + row.amount >= U64_LIMIT {
          OverflowSeen(rows, merged, index, k, Unlocked);
          return Err(Panicked);
        }
        if n.lockedAmount + row.lockedAmount >= U64_LIMIT {
          OverflowSeen(rows, merged, index, k, Locked);
          return Err(Panicked);
        }
        n := n.(amount := n.amount + row.amount, lockedAmount := n.lockedAmount + row.lockedAmount);
        ModifyKeeps(rows[..k], merged, index, row, n);
        merged := merged[index[row.claimant] := n];
      } else {
        InsertKeeps(rows[..k], merged, index, row);
        merged := merged + [row];
        index := index[row.claimant := |merged| - 1];
      }
    }
    assert rows[..|rows|] == rows;
    MergedFits(merged, rows);
    return Ok(merged);
  }

  /** Merging keeps the claimants apart. */
  lemma MergeIsDistinct(merged: seq<TreeNode>, rows: seq<TreeNode>)
    requires IsMergeOf(merged, rows)
    ensures DistinctClaimants(merged)
  {
    ClaimantsExact(rows);
    forall i, j | 0 <= i < j < |merged|
      ensures merged[i].claimant != merged[j].claimant
    {
      assert MergesOne(merged[i], Claimants(rows)[i], rows) && MergesOne(merged[j], Claimants(rows)[j], rows);
    }
  }

  /** Merging keeps every claimant's sums. */
  lemma MergeKeepsTotals(merged: seq<TreeNode>, rows: seq<TreeNode>, c: Pubkey, col: Column)
    requires IsMergeOf(merged, rows)
    ensures TotalFor(merged, c, col) == TotalFor(rows, c, col)
  {
    MergeIsDistinct(merged, rows);
    if c in Claimants(rows) {
      var i :| 0 <= i < |Claimants(rows)| && Claimants(rows)[i] == c;
      assert MergesOne(merged[i], c, rows);
      TotalForDistinct(merged, i, col);
    } else {
      UnseenTotals(rows, c, col);
      forall i | 0 <= i < |merged| ensures merged[i].claimant != c {
        assert MergesOne(merged[i], Claimants(rows)[i], rows);
      }
      TotalForAbsent(merged, c, col);
    }
  }
}
