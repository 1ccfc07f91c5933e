/** The account that remembers a claim, and the linear vesting of its locked amount. */
module ClaimStatus {
  import opened Words
  import opened Program
  import opened Linear

  datatype ClaimStatus = ClaimStatus(
    claimant: Pubkey,
    lockedAmount: u64,
    lockedAmountWithdrawn: u64,
    unlockedAmount: u64,
    closable: bool,
    admin: Pubkey)
  {
    function UnlockedAmount(currTs: i64, startTs: i64, endTs: i64): Result<u64, ErrorCode> {
      if currTs >= startTs then
        if currTs >= endTs then Ok(lockedAmount)
        else
          var timeIntoUnlock :- SubI64(currTs, startTs);
          var totalUnlockTime :- SubI64(endTs, startTs);
          MachineShare(timeIntoUnlock, lockedAmount, totalUnlockTime)
      else Ok(0)
    }

    function AmountWithdrawable(currTs: i64, startTs: i64, endTs: i64): Result<u64, ErrorCode> {
      var unlocked :- UnlockedAmount(currTs, startTs, endTs);
      SubU64(unlocked, lockedAmountWithdrawn)
    }

    /** The vested part of the locked amount, without machine arithmetic. */
    function Vested(currTs: int, startTs: int, endTs: int): nat {
      Released(lockedAmount, currTs - startTs, endTs - startTs)
    }

    /** What this claim has received so far. */
    function Received(): nat {
      unlockedAmount + lockedAmountWithdrawn
    }

    /**
     * No overflow, no division by zero, no truncation: the machine result is the exact vested amount,
     * save while a vesting longer than an `i64` is under way, when it is an error.
     */
    lemma UnlockedAmountExact(currTs: i64, startTs: i64, endTs: i64)
      requires startTs < endTs
      ensures UnlockedAmount(currTs, startTs, endTs)
        == if startTs <= currTs < endTs && endTs - startTs > I64_MAX then Err(ArithmeticError)
           else Ok(Vested(currTs, startTs, endTs))
    {
      if startTs <= currTs < endTs <= startTs + I64_MAX {
        MachineShareExact(currTs - startTs, lockedAmount, endTs - startTs);
      }
    }

    /** Vesting never goes back, stays within the locked amount and ends at exactly that amount. */
    lemma VestedLaws(t: int, u: int, startTs: int, endTs: int)
      requires t <= u && startTs < endTs
      ensures Vested(t, startTs, endTs) <= Vested(u, startTs, endTs) <= lockedAmount
      ensures u >= endTs ==> Vested(u, startTs, endTs) == lockedAmount
      ensures t < startTs ==> Vested(t, startTs, endTs) == 0
    {
      ReleasedMonotone(lockedAmount, t - startTs, u - startTs, endTs - startTs);
      ReleasedBounded(lockedAmount, u - startTs, endTs - startTs);
    }
  }
}
