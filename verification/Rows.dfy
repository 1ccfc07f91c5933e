/** Lists of claimant rows: totals, totals for one claimant, and the claimants in order of appearance. */
module Rows {
  import opened Words
  import opened TreeNodes

  /** The two amounts of a row. */
  datatype Column = Unlocked | Locked

  function Amount(row: TreeNode, col: Column): u64 {
    match col
    case Unlocked => row.amount
    case Locked => row.lockedAmount
  }

  function Total(rows: seq<TreeNode>, col: Column): nat {
    if rows == [] then 0 else Total(rows[..|rows| - 1], col) + Amount(rows[|rows| - 1], col)
  }

  function TotalFor(rows: seq<TreeNode>, c: Pubkey, col: Column): nat {
    if rows == [] then 0
    else
      var last := rows[|rows| - 1];
      TotalFor(rows[..|rows| - 1], c, col) + if last.claimant == c then Amount(last, col) else 0
  }

  /** Every claimant once, in the order of first appearance. */
  function Claimants(rows: seq<TreeNode>): seq<Pubkey> {
    if rows == [] then []
    else
      var earlier, c := Claimants(rows[..|rows| - 1]), rows[|rows| - 1].claimant;
      if c in earlier then earlier else earlier + [c]
  }

  predicate NoDuplicates<T(==)>(s: seq<T>) {
    forall i, j :: 0 <= i < j < |s| ==> s[i] != s[j]
  }

  predicate DistinctClaimants(nodes: seq<TreeNode>) {
    forall i, j :: 0 <= i < j < |nodes| ==> nodes[i].claimant != nodes[j].claimant
  }

  lemma {:induction false} ClaimantsExact(rows: seq<TreeNode>)
    ensures NoDuplicates(Claimants(rows))
    ensures forall c :: c in Claimants(rows) <==> exists i :: 0 <= i < |rows| && rows[i].claimant == c
  {
    if rows != [] {
      var init, last := rows[..|rows| - 1], rows[|rows| - 1];
      ClaimantsExact(init);
      forall c
        ensures c in Claimants(rows) <==> exists i :: 0 <= i < |rows| && rows[i].claimant == c
      {
        if i :| 0 <= i < |rows| && rows[i].claimant == c {
          if i < |init| {
            assert init[i].claimant == c;
          }
        }
        if c in Claimants(init) {
          var i :| 0 <= i < |init| && init[i].claimant == c;
          assert rows[i].claimant == c;
        }
      }
    }
  }

  /** `at` are the positions of the first rows of the claimants in `cs`, in order. */
  ghost predicate FirstRows(at: seq<nat>, rows: seq<TreeNode>, cs: seq<Pubkey>) {
    && |at| == |cs|
    && (forall k :: 0 <= k < |at| ==> at[k] < |rows| && IsFirstRow(rows, at[k], cs[k]))
    && forall j, k :: 0 <= j < k < |at| ==> at[j] < at[k]
  }

  predicate IsFirstRow(rows: seq<TreeNode>, i: nat, c: Pubkey)
    requires i < |rows|
  {
    rows[i].claimant == c && forall j :: 0 <= j < i ==> rows[j].claimant != c
  }

  /** The claimants stand in the order of their first rows. */
  lemma {:induction false} ClaimantsInOrder(rows: seq<TreeNode>) returns (at: seq<nat>)
    ensures FirstRows(at, rows, Claimants(rows))
  {
    at := [];
    if rows != [] {
      var init, last := rows[..|rows| - 1], rows[|rows| - 1];
      at := ClaimantsInOrder(init);
      assert rows == init + [last];
      FirstRowsStay(at, init, Claimants(init), last);
      if last.claimant !in Claimants(init) {
        ClaimantsExact(init);
        NewFirstRow(at, init, Claimants(init), last);
        at := at + [|init|];
      }
    }
  }

  lemma FirstRowsStay(at: seq<nat>, init: seq<TreeNode>, cs: seq<Pubkey>, last: TreeNode)
    requires FirstRows(at, init, cs)
    ensures FirstRows(at, init + [last], cs)
  {
    forall k | 0 <= k < |at|
      ensures IsFirstRow(init + [last], at[k], cs[k])
    {
      assert IsFirstRow(init, at[k], cs[k]);
    }
  }

  lemma NewFirstRow(at: seq<nat>, init: seq<TreeNode>, cs: seq<Pubkey>, last: TreeNode)
    requires FirstRows(at, init, cs) && FirstRows(at, init + [last], cs)
    requires forall j :: 0 <= j < |init| ==> init[j].claimant in cs
    requires last.claimant !in cs
    ensures FirstRows(at + [|init|], init + [last], cs + [last.claimant])
  {
    assert IsFirstRow(init + [last], |init|, last.claimant);
    assert (at + [|init|])[|at|] == |init| && (cs + [last.claimant])[|at|] == last.claimant;
  }

  lemma {:induction false} TotalForBounded(rows: seq<TreeNode>, c: Pubkey, col: Column)
    ensures TotalFor(rows, c, col) <= Total(rows, col)
  {
    if rows != [] {
      TotalForBounded(rows[..|rows| - 1], c, col);
    }
  }

  lemma {:induction false} TotalForPrefix(rows: seq<TreeNode>, k: nat, c: Pubkey, col: Column)
    requires k <= |rows|
    ensures TotalFor(rows[..k], c, col) <= TotalFor(rows, c, col)
  {
    if k < |rows| {
      TotalForPrefix(rows[..|rows| - 1], k, c, col);
      assert rows[..|rows| - 1][..k] == rows[..k];
    } else {
      assert rows[..k] == rows;
    }
  }

  lemma TotalPush(rows: seq<TreeNode>, row: TreeNode, col: Column)
    ensures Total(rows + [row], col) == Total(rows, col) + Amount(row, col)
  {
    assert (rows + [row])[..|rows|] == rows;
  }

  lemma TotalForPush(rows: seq<TreeNode>, row: TreeNode, c: Pubkey, col: Column)
    ensures TotalFor(rows + [row], c, col)
      == TotalFor(rows, c, col) + if row.claimant == c then Amount(row, col) else 0
  {
    assert (rows + [row])[..|rows|] == rows;
  }

  lemma ClaimantsPush(rows: seq<TreeNode>, row: TreeNode)
    ensures Claimants(rows + [row])
      == if row.claimant in Claimants(rows) then Claimants(rows) else Claimants(rows) + [row.claimant]
  {
    assert (rows + [row])[..|rows|] == rows;
  }

  /** Replacing one row changes a total by the difference of the two amounts. */
  lemma {:induction false} TotalUpdate(rows: seq<TreeNode>, i: nat, row: TreeNode, col: Column)
    requires i < |rows|
    ensures Total(rows[i := row], col) == Total(rows, col) - Amount(rows[i], col) + Amount(row, col)
  {
    var last := |rows| - 1;
    if i < last {
      TotalUpdate(rows[..last], i, row, col);
      assert rows[i := row][..last] == rows[..last][i := row];
    } else {
      assert rows[i := row][..last] == rows[..last];
    }
  }

  lemma {:induction false} TotalConcat(a: seq<TreeNode>, b: seq<TreeNode>, col: Column)
    ensures Total(a + b, col) == Total(a, col) + Total(b, col)
  {
    if b == [] {
      assert a + b == a;
    } else {
      TotalConcat(a, b[..|b| - 1], col);
      assert (a + b)[..|a + b| - 1] == a + b[..|b| - 1];
    }
  }

  lemma {:induction false} TotalForConcat(a: seq<TreeNode>, b: seq<TreeNode>, c: Pubkey, col: Column)
    ensures TotalFor(a + b, c, col) == TotalFor(a, c, col) + TotalFor(b, c, col)
  {
    if b == [] {
      assert a + b == a;
    } else {
      TotalForConcat(a, b[..|b| - 1], c, col);
      assert (a + b)[..|a + b| - 1] == a + b[..|b| - 1];
    }
  }

  /** A claimant without rows has sums 0. */
  lemma {:induction false} TotalForAbsent(rows: seq<TreeNode>, c: Pubkey, col: Column)
    requires forall i :: 0 <= i < |rows| ==> rows[i].claimant != c
    ensures TotalFor(rows, c, col) == 0
  {
    if rows != [] {
      TotalForAbsent(rows[..|rows| - 1], c, col);
    }
  }

  /** Without duplicates a claimant's sums are the amounts of its only row. */
  lemma {:induction false} TotalForDistinct(rows: seq<TreeNode>, i: nat, col: Column)
    requires DistinctClaimants(rows) && i < |rows|
    ensures TotalFor(rows, rows[i].claimant, col) == Amount(rows[i], col)
  {
    var init, last := rows[..|rows| - 1], rows[|rows| - 1];
    if i < |init| {
      assert rows[i].claimant != rows[|init|].claimant;
      TotalForDistinct(init, i, col);
    } else {
      forall j | 0 <= j < |init| ensures init[j].claimant != last.claimant {
        assert rows[j].claimant != rows[|init|].claimant;
      }
      TotalForAbsent(init, last.claimant, col);
    }
  }

  lemma {:induction false} AmountBounded(rows: seq<TreeNode>, i: nat, col: Column)
    requires i < |rows|
    ensures Amount(rows[i], col) <= Total(rows, col)
  {
    if i < |rows| - 1 {
      AmountBounded(rows[..|rows| - 1], i, col);
    }
  }

  /** Totals see only the amounts of a list. */
  lemma {:induction false} TotalSame(a: seq<TreeNode>, b: seq<TreeNode>, col: Column)
    requires |a| == |b| && forall i :: 0 <= i < |a| ==> Amount(a[i], col) == Amount(b[i], col)
    ensures Total(a, col) == Total(b, col)
  {
    if a != [] {
      TotalSame(a[..|a| - 1], b[..|b| - 1], col);
    }
  }

  /** Collecting the claimants into a set. */
  function ClaimantSet(nodes: seq<TreeNode>): set<Pubkey> {
    if nodes == [] then {} else ClaimantSet(nodes[..|nodes| - 1]) + {nodes[|nodes| - 1].claimant}
  }

  lemma {:induction false} InClaimantSet(nodes: seq<TreeNode>, c: Pubkey)
    ensures c in ClaimantSet(nodes) <==> exists i :: 0 <= i < |nodes| && nodes[i].claimant == c
  {
    if nodes != [] {
      var init := nodes[..|nodes| - 1];
      InClaimantSet(init, c);
      if i :| 0 <= i < |init| && init[i].claimant == c {
        assert nodes[i].claimant == c;
      }
      if i :| 0 <= i < |nodes| && nodes[i].claimant == c {
        assert i < |init| ==> init[i].claimant == c;
      }
    }
  }

  lemma DistinctPush(init: seq<TreeNode>, last: TreeNode)
    ensures DistinctClaimants(init + [last]) <==> DistinctClaimants(init) && last.claimant !in ClaimantSet(init)
  {
    InClaimantSet(init, last.claimant);
    var nodes := init + [last];
    if DistinctClaimants(nodes) {
      forall i, j | 0 <= i < j < |init| ensures init[i].claimant != init[j].claimant {
        assert nodes[i].claimant != nodes[j].claimant;
      }
      forall i | 0 <= i < |init| ensures init[i].claimant != last.claimant {
        assert nodes[i].claimant != nodes[|init|].claimant;
      }
    }
  }

  /** Without duplicates among the claimants, and only then, they form a set of the same size. */
  lemma {:induction false} SetOfClaimants(nodes: seq<TreeNode>)
    ensures |ClaimantSet(nodes)| <= |nodes|
    ensures |ClaimantSet(nodes)| == |nodes| <==> DistinctClaimants(nodes)
  {
    if nodes != [] {
      var init, last := nodes[..|nodes| - 1], nodes[|nodes| - 1];
      SetOfClaimants(init);
      assert nodes == init + [last];
      DistinctPush(init, last);
      if last.claimant in ClaimantSet(init) {
        assert ClaimantSet(nodes) == ClaimantSet(init);
      }
    }
  }
}
