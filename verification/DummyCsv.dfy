/** The list of a dummy airdrop: fixed addresses spread evenly among new ones. */
module DummyCsv {
  import opened Words
  import opened Merging

  /** How many of the first `i` fixed addresses, `q` apart, stand at or before position `k`. */
  function FixedUpTo(q: nat, i: nat, k: nat): nat
    requires q > 0
  {
    if k / q < i then k / q + 1 else i
  }

  predicate IsFixed(q: nat, i: nat, k: nat)
    requires q > 0
  {
    k % q == 0 && k / q < i
  }

  /** Position `k` holds fixed address `k / q`, or else the next of the other addresses. */
  ghost predicate Stands<A>(list: seq<A>, fixed: seq<A>, unique: seq<A>, q: nat, i: nat, k: nat)
    requires q > 0 && i <= |fixed| && k < |list|
  {
    if IsFixed(q, i, k) then list[k] == fixed[k / q]
    else 0 <= k - FixedUpTo(q, i, k) < |unique| && list[k] == unique[k - FixedUpTo(q, i, k)]
  }

  /** The first `i` fixed addresses at their positions, and between them the other addresses in order. */
  ghost predicate Spread<A>(list: seq<A>, fixed: seq<A>, unique: seq<A>, q: nat, i: nat)
    requires q > 0 && i <= |fixed|
  {
    |list| == |unique| + i && forall k :: 0 <= k < |list| ==> Stands(list, fixed, unique, q, i, k)
  }

  /** Where a position stands relative to the next one to insert at, `q * i`. */
  lemma Positions(q: nat, i: nat, k: nat)
    requires q > 0
    ensures k < q * i ==> k / q < i
    ensures k >= q * i ==> k / q >= i
    ensures k == q * i ==> k / q == i && k % q == 0
  {
    var a := k / q;
    assert a * q <= k < a * q + q;
    assert q * i == i * q && (a + 1) * q == a * q + q;
    if k < q * i && a >= i {
      MulMono(i, a, q);
    }
    if k >= q * i && a < i {
      MulMono(a + 1, i, q);
    }
    if k == q * i {
      FloorUnique(k, q, i);
    }
  }

  function Insert<A>(list: seq<A>, at: nat, x: A): (r: seq<A>)
    requires at <= |list|
    ensures |r| == |list| + 1
    ensures forall k :: 0 <= k < |r| ==> r[k] == if k < at then list[k] else if k == at then x else list[k - 1]
  {
    list[..at] + [x] + list[at..]
  }

  lemma Below(q: nat, i: nat, k: nat)
    requires q > 0 && k < q * i
    ensures IsFixed(q, i + 1, k) == IsFixed(q, i, k) && FixedUpTo(q, i + 1, k) == FixedUpTo(q, i, k)
  {
    Positions(q, i, k);
  }

  lemma Beyond(q: nat, i: nat, k: nat)
    requires q > 0 && k > q * i
    ensures !IsFixed(q, i + 1, k)
    ensures FixedUpTo(q, i + 1, k) == i + 1 && FixedUpTo(q, i, k - 1) == i && !IsFixed(q, i, k - 1)
  {
    Positions(q, i, k);
    Positions(q, i, k - 1);
    if k / q == i {
      assert k == q * i + k % q;
    }
  }

  /** Inserting the next fixed address moves none of the earlier ones. */
  lemma SpreadStep<A>(list: seq<A>, fixed: seq<A>, unique: seq<A>, q: nat, i: nat, at: nat)
    requires q > 0 && i < |fixed| && at == q * i && at <= |list| && Spread(list, fixed, unique, q, i)
    ensures Spread(Insert(list, at, fixed[i]), fixed, unique, q, i + 1)
  {
    var list', next := Insert(list, at, fixed[i]), i + 1;
    forall k | 0 <= k < |list'|
      ensures Stands(list', fixed, unique, q, next, k)
    {
      if k < at {
        assert Stands(list, fixed, unique, q, i, k);
        Below(q, i, k);
      } else if k == at {
        Positions(q, i, k);
      } else {
        assert Stands(list, fixed, unique, q, i, k - 1);
        Beyond(q, i, k);
      }
    }
  }

  /** No insertion is out of range. */
  lemma InRange(n: nat, p: nat, q: nat, i: nat)
    requires 0 < p <= n && q == n / p && i < p
    ensures 0 < q && 0 <= q * i <= n - p + i
  {
    assert q * p <= n < q * p + p;
    assert (q - 1) * i <= (q - 1) * p by { assert i * (q - 1) <= p * (q - 1) by { MulMono(i, p, q - 1); } }
    assert (q - 1) * i == q * i - i && (q - 1) * p == q * p - p;
  }

  /**
   * The list has exactly as many addresses as asked for; fixed address `i` stands at `i` times the
   * quotient, and the new addresses keep their order around them. Fails exactly without fixed addresses,
   * in the division, or with more of them than records, in the subtraction.
   */
  method DummyList<A>(fixed: seq<A>, numRecords: u64, newUnique: nat -> A) returns (r: Result<seq<A>, BuildError>)
    ensures r.Ok? <==> 0 < |fixed| <= numRecords
    ensures r.Ok? ==>
      var quotient := numRecords / |fixed|;
      && |r.value| == numRecords && quotient > 0
      && (forall i :: 0 <= i < |fixed| ==>
            0 <= i * quotient < numRecords && r.value[i * quotient] == fixed[i])
      && Spread(r.value, fixed, seq(numRecords - |fixed|, j requires 0 <= j => newUnique(j)), quotient, |fixed|)
  {
    if |fixed| > numRecords {
      return Err(Panicked);
    }
    var fullList: seq<A> := [];
    for j := 0 to numRecords - |fixed|
      invariant fullList == seq(j, l requires 0 <= l => newUnique(l))
    {
      fullList := fullList + [newUnique(j)];
    }
    if |fixed| == 0 {
      return Err(Panicked);
    }
    var numNode := numRecords / |fixed|;
    InRange(numRecords, |fixed|, numNode, 0);
    ghost var unique := fullList;
    for i := 0 to |fixed|
      invariant Spread(fullList, fixed, unique, numNode, i)
    {
      InRange(numRecords, |fixed|, numNode, i);
      SpreadStep(fullList, fixed, unique, numNode, i, numNode * i);
      fullList := Insert(fullList, numNode * i, fixed[i]);
    }
    AllFixedStand(fullList, fixed, unique, numNode);
    return Ok(fullList);
  }

  lemma AllFixedStand<A>(list: seq<A>, fixed: seq<A>, unique: seq<A>, q: nat)
    requires fixed != [] && q > 0 && Spread(list, fixed, unique, q, |fixed|) && |list| / |fixed| == q
    ensures forall i :: 0 <= i < |fixed| ==> 0 <= i * q < |list| && list[i * q] == fixed[i]
  {
    forall i | 0 <= i < |fixed|
      ensures 0 <= i * q < |list| && list[i * q] == fixed[i]
    {
      FixedStands(list, fixed, unique, q, i);
    }
  }

  lemma FixedStands<A>(list: seq<A>, fixed: seq<A>, unique: seq<A>, q: nat, i: nat)
    requires q > 0 && i < |fixed| && Spread(list, fixed, unique, q, |fixed|)
    requires |list| / |fixed| == q
    ensures 0 <= i * q < |list| && list[i * q] == fixed[i]
  {
    Positions(q, i, q * i);
    InRange(|list|, |fixed|, q, i);
    assert Stands(list, fixed, unique, q, |fixed|, q * i);
    assert q * i == i * q;
  }
}
