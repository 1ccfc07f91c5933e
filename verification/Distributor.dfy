/** The distributor account: its fields, its activation and the pro-rata bonus. */
module Distributor {
  import opened Words
  import opened Program
  import opened Linear

  datatype AirdropBonus = AirdropBonus(totalBonus: u64, vestingDuration: u64, totalClaimedBonus: u64)

  datatype ActivationHandler =
    ActivationHandler(currPoint: u64, activationPoint: u64, airdropBonus: AirdropBonus)
  {
    /** The activation check is commented out: nothing is ever refused here. */
    function ValidateClaim(): Result<(), ErrorCode> {
      Ok(())
    }

    function BonusForMax(maxBonus: u64): Result<u64, ErrorCode> {
      var startPoint := activationPoint;
      var endPoint :- AddU64(airdropBonus.vestingDuration, startPoint);
      if currPoint >= startPoint then
        if currPoint >= endPoint then Ok(maxBonus)
        else
          var durationIntoUnlock :- SubU64(currPoint, startPoint);
          MachineShare(durationIntoUnlock, maxBonus, airdropBonus.vestingDuration)
      else Ok(0)
    }

    /** The end of the bonus vesting is a 64-bit number. */
    predicate EndFits() {
      activationPoint + airdropBonus.vestingDuration < U64_LIMIT
    }

    /** The only failure is an end point past 64 bits; otherwise the share of `maxBonus` is exact. */
    lemma BonusForMaxExact(maxBonus: u64)
      ensures BonusForMax(maxBonus)
        == if EndFits() then Ok(Released(maxBonus, currPoint - activationPoint, airdropBonus.vestingDuration))
           else Err(ArithmeticError)
    {
      var t, d := currPoint - activationPoint, airdropBonus.vestingDuration;
      if EndFits() && 0 <= t < d {
        MachineShareExact(t, maxBonus, d);
      }
    }
  }

  // ---- how a bonus moves with the point of time

  /** A result that is not lost and not lowered. */
  predicate NotLess(r: Result<u64, ErrorCode>, r': Result<u64, ErrorCode>) {
    r.Ok? ==> r'.Ok? && r.value <= r'.value
  }

  /** Going from point `p` to point `q` lowers no bonus that vests for `duration` from `start` on. */
  predicate KeepsBonuses(p: u64, q: u64, start: u64, duration: u64) {
    || start + duration >= U64_LIMIT   // every bonus is an error
    || p <= q
    || q >= start + duration           // all vested at `q`
    || p < start                       // nothing vested at `p`
    || (p == start && duration > 0)
  }

  /** That condition is exact: it holds just when no maximum whatever has its bonus lowered. */
  lemma BonusesOrdered(p: u64, q: u64, start: u64, b: AirdropBonus)
    ensures (forall max: u64 ::
        NotLess(ActivationHandler(p, start, b).BonusForMax(max), ActivationHandler(q, start, b).BonusForMax(max)))
      <==> KeepsBonuses(p, q, start, b.vestingDuration)
  {
    var f, g, duration := ActivationHandler(p, start, b), ActivationHandler(q, start, b), b.vestingDuration;
    if KeepsBonuses(p, q, start, duration) {
      forall max: u64
        ensures NotLess(f.BonusForMax(max), g.BonusForMax(max))
      {
        f.BonusForMaxExact(max);
        g.BonusForMaxExact(max);
        if start + duration < U64_LIMIT {
          ReleasesOrdered(max, p - start, q - start, duration);
        }
      }
    } else {
      var max: u64 := if duration == 0 then 1 else duration;
      f.BonusForMaxExact(max);
      g.BonusForMaxExact(max);
      ReleaseLost(p - start, q - start, duration);
      assert !NotLess(f.BonusForMax(max), g.BonusForMax(max));
    }
  }

  datatype MerkleDistributor = MerkleDistributor(
    version: u64,
    root: Digest,
    tokenVault: Pubkey,
    maxTotalClaim: u64,
    maxNumNodes: u64,
    totalAmountClaimed: u64,
    numNodesClaimed: u64,
    startTs: i64,
    endTs: i64,
    clawbackStartTs: i64,
    clawbackReceiver: Pubkey,
    admin: Pubkey,
    clawedBack: bool,
    activationPoint: u64,
    closable: bool,
    airdropBonus: AirdropBonus,
    activationType: Byte)
  {
    function GetActivationHandler(clock: Clock): Result<ActivationHandler, ErrorCode> {
      match activationType
      case 0 => Ok(ActivationHandler(clock.slot, activationPoint, airdropBonus))
      case 1 => Ok(ActivationHandler(ReinterpretI64(clock.unixTimestamp), activationPoint, airdropBonus))
      case _ => Err(ProgramPanicked)
    }

    /** Fails without a change when the sum leaves 64 bits. */
    function AccumulateBonus(bonus: u64): Result<MerkleDistributor, ErrorCode> {
      var claimed :- AddU64(airdropBonus.totalClaimedBonus, bonus);
      Ok(this.(airdropBonus := airdropBonus.(totalClaimedBonus := claimed)))
    }

    function MaxBonusFor(unlockedAmount: u64): Result<u64, ErrorCode> {
      var withoutBonus :- SubU64(maxTotalClaim, airdropBonus.totalBonus);
      MachineShare(unlockedAmount, airdropBonus.totalBonus, withoutBonus)
    }

    function BonusFor(unlockedAmount: u64, handler: ActivationHandler): Result<u64, ErrorCode> {
      var maxBonus :- MaxBonusFor(unlockedAmount);
      handler.BonusForMax(maxBonus)
    }

    /** What there is to claim besides the bonus. */
    function Base(): int {
      maxTotalClaim - airdropBonus.totalBonus
    }

    /**
     * For an amount within the base the product fits, the divisor is not zero and the cast loses
     * nothing: the result is the exact pro-rata share of the bonus pool, rounded down.
     */
    lemma MaxBonusExact(unlockedAmount: u64)
      requires unlockedAmount <= Base() && Base() > 0
      ensures MaxBonusFor(unlockedAmount) == Ok(ProRata(unlockedAmount, airdropBonus.totalBonus, Base()))
      ensures ProRata(unlockedAmount, airdropBonus.totalBonus, Base()) <= airdropBonus.totalBonus
    {
      MachineShareExact(unlockedAmount, airdropBonus.totalBonus, Base());
    }

    /** An amount past the base is not refused: its share is cut off to 64 bits. */
    lemma MaxBonusCut(unlockedAmount: u64)
      requires Base() > 0
      ensures MaxBonusFor(unlockedAmount)
        == Ok(ProRata(unlockedAmount, airdropBonus.totalBonus, Base()) % 0x1_0000_0000_0000_0000)
    {
      MachineShareCut(unlockedAmount, airdropBonus.totalBonus, Base());
    }

    /** Without a base every claim fails. */
    lemma NoBaseNoBonus(unlockedAmount: u64)
      requires Base() <= 0
      ensures MaxBonusFor(unlockedAmount) == Err(ArithmeticError)
    {
      MachineShareOfNothing(unlockedAmount, airdropBonus.totalBonus);
    }

    /** The bonus paid at a point of time, for an amount within the base. */
    lemma BonusExact(unlockedAmount: u64, handler: ActivationHandler)
      requires unlockedAmount <= Base() && Base() > 0
      ensures BonusFor(unlockedAmount, handler)
        == if handler.EndFits()
           then Ok(Released(ProRata(unlockedAmount, airdropBonus.totalBonus, Base()),
                            handler.currPoint - handler.activationPoint, handler.airdropBonus.vestingDuration))
           else Err(ArithmeticError)
    {
      MaxBonusExact(unlockedAmount);
      handler.BonusForMaxExact(ProRata(unlockedAmount, airdropBonus.totalBonus, Base()));
    }
  }

  /** A pro-rata share of a pool, rounded down. */
  function ProRata(part: nat, pool: nat, whole: nat): nat
    requires whole > 0
  {
    ProRataNonNegative(part, pool, whole);
    part * pool / whole
  }

  lemma ProRataNonNegative(part: nat, pool: nat, whole: nat)
    requires whole > 0
    ensures part * pool / whole >= 0
  {
    MulMono(0, part, pool);
    DivMono(0, part * pool, whole);
  }

  /** Two shares rounded down separately are at most the share of the sum. */
  lemma ProRataAdd(a: nat, b: nat, pool: nat, whole: nat)
    requires whole > 0
    ensures ProRata(a, pool, whole) + ProRata(b, pool, whole) <= ProRata(a + b, pool, whole)
  {
    MulMono(0, a, pool);
    MulMono(0, b, pool);
    assert (a + b) * pool == a * pool + b * pool;
    FloorAdd(a * pool, b * pool, whole);
  }

  /**
   * The multiplier of the command line: with a pool of `m` times the unlocked total `u`, a share is at
   * most `m` times the amount, and exactly that just when nothing is locked or nothing is due.
   */
  lemma MultiplierShare(a: nat, u: nat, l: nat, m: nat)
    requires u + l > 0
    ensures ProRata(a, u * m, u + l) <= a * m
    ensures ProRata(a, u * m, u + l) == a * m <==> a * m == 0 || l == 0
  {
    var x := a * m;
    assert a * (u * m) == u * x by { assert a * (u * m) == u * (a * m); }
    ShareBound(x, u, u + l);
    assert (u + l) * x == u * x + l * x && x * (u + l) == (u + l) * x;
    if x == 0 || l == 0 {
      FloorUnique(u * x, u + l, x);
    } else {
      PositiveProduct(l, x);
    }
  }

  lemma PositiveProduct(a: nat, b: nat)
    requires a > 0 && b > 0
    ensures a * b > 0
  {
  }
}
