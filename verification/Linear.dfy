/** Linear release of an amount over a duration, rounded down: the reference for both vestings. */
module Linear {
  import opened Words
  import opened Program

  /** What is released of `x` when `t` of `d` has passed. */
  function Released(x: nat, t: int, d: int): (r: nat) {
    if t < 0 then 0 else if t >= d then x else ReleasedNonNegative(x, t, d); t * x / d
  }

  lemma ReleasedNonNegative(x: nat, t: nat, d: nat)
    requires t < d
    ensures t * x / d >= 0
  {
    ShareBound(x, t, d);
  }

  /** Inside the duration it is the exact share rounded down, and nothing else. */
  lemma ReleasedIsFloor(x: nat, t: nat, d: nat)
    requires t <= d && d > 0
    ensures Released(x, t, d) * d <= t * x < Released(x, t, d) * d + d
  {
    assert d * x == x * d;
  }

  /** `t * x / d` in 128 bits, every operation checked, cast to 64 bits at the end. */
  function MachineShare(t: u128, x: u128, d: u128): Result<u64, ErrorCode> {
    var product :- MulU128(t, x);
    var amount :- DivU128(product, d);
    Ok(TruncateU64(amount))
  }

  /** A part of a whole never overflows, divides by zero or is cut off by the cast. */
  lemma MachineShareExact(t: u64, x: u64, d: u64)
    requires t <= d && d > 0
    ensures 0 <= t * x / d <= x
    ensures MachineShare(t, x, d) == Ok(t * x / d)
  {
    MulBound(t, x);
    ShareBound(x, t, d);
    assert TruncateU64(t * x / d) == t * x / d;
  }

  /** Any share at all is cut off to its low 64 bits. */
  lemma MachineShareCut(t: u64, x: u64, d: u64)
    requires d > 0
    ensures t * x / d >= 0 && MachineShare(t, x, d) == Ok(t * x / d % 0x1_0000_0000_0000_0000)
  {
    MulBound(t, x);
    DivMono(0, t * x, d);
  }

  lemma MachineShareOfNothing(t: u64, x: u64)
    ensures MachineShare(t, x, 0) == Err(ArithmeticError)
  {
    MulBound(t, x);
  }

  lemma ReleasedBounded(x: nat, t: int, d: int)
    ensures Released(x, t, d) <= x
  {
    if 0 <= t < d {
      ShareBound(x, t, d);
    }
  }

  lemma ReleasedMonotone(x: nat, t: int, u: int, d: int)
    requires t <= u
    ensures Released(x, t, d) <= Released(x, u, d)
  {
    ReleasedBounded(x, t, d);
    if 0 <= t && u < d {
      MulMono(t, u, x);
      DivMono(t * x, u * x, d);
    }
  }

  /** Nothing is lost in going from `t` to `u` when that is forward, to the end, or from before any release. */
  lemma ReleasesOrdered(x: nat, t: int, u: int, d: nat)
    requires t <= u || u >= d || t < 0 || (t == 0 && d > 0)
    ensures Released(x, t, d) <= Released(x, u, d)
  {
    if t <= u {
      ReleasedMonotone(x, t, u, d);
    } else {
      ReleasedBounded(x, t, d);
      if t == 0 && d > 0 {
        FloorUnique(0 * x, d, 0);
      }
    }
  }

  /** In every other case an amount equal to the duration, or 1 for an immediate release, is released less at `u`. */
  lemma ReleaseLost(t: int, u: int, d: nat)
    requires u < t && u < d && 0 <= t && (t == 0 ==> d == 0)
    ensures
      var x := if d == 0 then 1 else d;
      Released(x, u, d) < Released(x, t, d)
  {
    if d > 0 {
      ReleasedOfDuration(t, d);
      ReleasedOfDuration(u, d);
    }
  }

  lemma ReleasedOfDuration(t: int, d: nat)
    requires d > 0
    ensures Released(d, t, d) == if t < 0 then 0 else if t >= d then d else t
  {
    if 0 <= t < d {
      FloorUnique(t * d, d, t);
    }
  }
}
