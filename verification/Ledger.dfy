/**
 * The instruction handlers over the committed accounts of one distributor. A handler works on copies
 * of the accounts it loads and writes them back only when it returns success, as the runtime does, so
 * a failed instruction leaves every account as it was.
 */
module Ledger {
  import opened Words
  import opened Digests
  import opened Program
  import opened ClaimStatus
  import opened Distributor
  import opened TreeNodes
  import T = Transitions
  import Verify

  /** The result and the accounts after an instruction are those of its transition. */
  ghost predicate Commits(
    before: T.State, outcome: Result<T.State, ErrorCode>, after: T.State, r: Result<(), ErrorCode>)
  {
    match outcome
    case Ok(s) => r == Ok(()) && after == s
    case Err(e) => r == Err(e) && after == before
  }

  /** A token transfer out of an account holding `balance`: what is left. */
  function Transfer(balance: u64, amount: u64): Result<u64, ErrorCode> {
    if amount <= balance then Ok(balance - amount) else Err(TokenInsufficientFunds)
  }

  class Ledger {
    var distributor: Option<MerkleDistributor>
    var claims: map<Pubkey, ClaimStatus>
    var vault: u64

    ghost function View(): T.State
      reads this
    {
      T.State(distributor, claims, vault)
    }

    /** The vault is created, and possibly funded, before the distributor. */
    constructor (balance: u64)
      ensures View() == T.State(None, map[], balance)
    {
      distributor, claims, vault := None, map[], balance;
    }

    method NewDistributor(clock: Clock, p: T.Params) returns (r: Result<(), ErrorCode>)
      modifies this
      ensures Commits(old(View()), T.NewDistributor(old(View()), clock, p), View(), r)
    {
      if distributor.Some? {
        return Err(AccountAlreadyInUse);
      }
      var currTs := clock.unixTimestamp;
      if !(p.startVestingTs < p.endVestingTs) {
        return Err(StartTimestampAfterEnd);
      }
      if !(p.startVestingTs > currTs && currTs < p.endVestingTs) {
        return Err(TimestampsNotInFuture);
      }
      if !(p.clawbackStartTs >= p.endVestingTs) {
        return Err(ClawbackDuringVesting);
      }
      var d := T.FreshDistributor(p);
      if p.activationType != 0 && p.activationType != 1 {
        return Err(InvalidActivationType);
      }
      distributor := Some(d);
      return Ok(());
    }

    method NewDistributor2(clock: Clock, p: T.Params, totalClaim: u64) returns (r: Result<(), ErrorCode>)
      modifies this
      ensures Commits(old(View()), T.NewDistributor2(old(View()), clock, p, totalClaim), View(), r)
    {
      if distributor.Some? {
        return Err(AccountAlreadyInUse);
      }
      var maxTotalClaim :- AddU64(totalClaim, p.totalBonus);
      r := NewDistributor(clock, p.(maxTotalClaim := maxTotalClaim));
    }

    method NewClaim(
      h: HashFn, clock: Clock, claimant: Pubkey, amountUnlocked: u64, amountLocked: u64, proof: seq<Digest>)
      returns (r: Result<(), ErrorCode>)
      modifies this
      ensures Commits(old(View()), T.NewClaim(h, old(View()), clock, claimant, amountUnlocked, amountLocked, proof),
                      View(), r)
    {
      if distributor.None? {
        return Err(AccountNotInitialized);
      }
      if claimant in claims {
        return Err(AccountAlreadyInUse);
      }
      var d := distributor.value;
      if d.clawedBack {
        return Err(ClaimExpired);
      }
      var handler :- d.GetActivationHandler(clock);
      assert handler.ValidateClaim() == Ok(());
      var count :- AddU64(d.numNodesClaimed, 1);
      d := d.(numNodesClaimed := count);
      if d.numNodesClaimed > d.maxNumNodes {
        return Err(MaxNodesExceeded);
      }
      var node := NodeHash(h, claimant, amountUnlocked, amountLocked);
      node := LeafHash(h, node);
      var valid := Verify.Verify(h, proof, d.root, node);
      if !valid {
        return Err(InvalidProof);
      }
      var status := ClaimStatus(claimant, amountLocked, 0, 0, d.closable, d.admin);
      var bonus :- d.BonusFor(amountUnlocked, handler);
      var payout :- AddU64(amountUnlocked, bonus);
      status := status.(unlockedAmount := payout);
      var rest :- Transfer(vault, status.unlockedAmount);
      var total :- AddU64(d.totalAmountClaimed, status.unlockedAmount);
      d := d.(totalAmountClaimed := total);
      d :- d.AccumulateBonus(bonus);
      if d.totalAmountClaimed > d.maxTotalClaim {
        return Err(ExceededMaxClaim);
      }
      distributor, claims, vault := Some(d), claims[claimant := status], rest;
      return Ok(());
    }

    method ClaimLocked(clock: Clock, claimant: Pubkey) returns (r: Result<(), ErrorCode>)
      modifies this
      ensures Commits(old(View()), T.ClaimLocked(old(View()), clock, claimant), View(), r)
    {
      if distributor.None? || claimant !in claims {
        return Err(AccountNotInitialized);
      }
      var d, status := distributor.value, claims[claimant];
      var currTs := clock.unixTimestamp;
      if d.clawedBack {
        return Err(ClaimExpired);
      }
      var handler :- d.GetActivationHandler(clock);
      assert handler.ValidateClaim() == Ok(());
      var amount :- status.AmountWithdrawable(currTs, d.startTs, d.endTs);
      if amount == 0 {
        return Err(InsufficientUnlockedTokens);
      }
      var rest :- Transfer(vault, amount);
      var withdrawn :- AddU64(status.lockedAmountWithdrawn, amount);
      status := status.(lockedAmountWithdrawn := withdrawn);
      if status.lockedAmountWithdrawn > status.lockedAmount {
        return Err(ExceededMaxClaim);
      }
      var total :- AddU64(d.totalAmountClaimed, amount);
      d := d.(totalAmountClaimed := total);
      if d.totalAmountClaimed > d.maxTotalClaim {
        return Err(ExceededMaxClaim);
      }
      distributor, claims, vault := Some(d), claims[claimant := status], rest;
      return Ok(());
    }

    method Clawback(clock: Clock) returns (r: Result<(), ErrorCode>)
      modifies this
      ensures Commits(old(View()), T.Clawback(old(View()), clock), View(), r)
    {
      if distributor.None? {
        return Err(AccountNotInitialized);
      }
      var d := distributor.value;
      if d.clawedBack {
        return Err(ClawbackAlreadyClaimed);
      }
      if clock.unixTimestamp < d.clawbackStartTs {
        return Err(ClawbackBeforeStart);
      }
      Sweep(d, d.clawbackReceiver);
      d := d.(clawedBack := true);
      distributor := Some(d);
      return Ok(());
    }

    /** Transfers the whole vault; a transfer of the vault to itself moves nothing. */
    method Sweep(d: MerkleDistributor, destination: Pubkey)
      modifies this`vault
      ensures vault == T.Swept(old(View()), d, destination)
    {
      if destination != d.tokenVault {
        var amount := vault;
        vault := vault - amount;
      }
    }

    method CloseClaimStatus(signer: Pubkey, claimant: Pubkey) returns (r: Result<(), ErrorCode>)
      modifies this
      ensures Commits(old(View()), T.CloseClaimStatus(old(View()), signer, claimant), View(), r)
    {
      if claimant !in claims {
        return Err(AccountNotInitialized);
      }
      if claims[claimant].admin != signer {
        return Err(ConstraintHasOne);
      }
      if !claims[claimant].closable {
        return Err(CannotCloseClaimStatus);
      }
      claims := claims - {claimant};
      return Ok(());
    }

    method CloseDistributor(signer: Pubkey, destination: Pubkey) returns (r: Result<(), ErrorCode>)
      modifies this
      ensures Commits(old(View()), T.CloseDistributor(old(View()), signer, destination), View(), r)
    {
      if distributor.None? {
        return Err(AccountNotInitialized);
      }
      var d := distributor.value;
      if d.admin != signer {
        return Err(ConstraintHasOne);
      }
      if !d.closable {
        return Err(CannotCloseDistributor);
      }
      Sweep(d, destination);
      distributor := None;
      return Ok(());
    }

    method SetActivationPoint(signer: Pubkey, point: u64) returns (r: Result<(), ErrorCode>)
      modifies this
      ensures Commits(old(View()), T.SetActivationPoint(old(View()), signer, point), View(), r)
    {
      if distributor.None? {
        return Err(AccountNotInitialized);
      }
      if distributor.value.admin != signer {
        return Err(ConstraintHasOne);
      }
      distributor := Some(distributor.value.(activationPoint := point));
      return Ok(());
    }

    method SetAdmin(signer: Pubkey, newAdmin: Pubkey) returns (r: Result<(), ErrorCode>)
      modifies this
      ensures Commits(old(View()), T.SetAdmin(old(View()), signer, newAdmin), View(), r)
    {
      if distributor.None? {
        return Err(AccountNotInitialized);
      }
      if distributor.value.admin != signer {
        return Err(Unauthorized);
      }
      if signer == newAdmin {
        return Err(SameAdmin);
      }
      distributor := Some(distributor.value.(admin := newAdmin));
      return Ok(());
    }

    method SetClawbackReceiver(signer: Pubkey, receiver: Pubkey) returns (r: Result<(), ErrorCode>)
      modifies this
      ensures Commits(old(View()), T.SetClawbackReceiver(old(View()), signer, receiver), View(), r)
    {
      if distributor.None? {
        return Err(AccountNotInitialized);
      }
      if distributor.value.admin != signer {
        return Err(Unauthorized);
      }
      if distributor.value.clawbackReceiver == receiver {
        return Err(SameClawbackReceiver);
      }
      distributor := Some(distributor.value.(clawbackReceiver := receiver));
      return Ok(());
    }

    method Deposit(amount: u64) returns (r: Result<(), ErrorCode>)
      modifies this
      ensures Commits(old(View()), T.Deposit(old(View()), amount), View(), r)
    {
      if vault + amount >= U64_LIMIT {
        return Err(TokenOverflow);
      }
      vault := vault + amount;
      return Ok(());
    }
  }
}
