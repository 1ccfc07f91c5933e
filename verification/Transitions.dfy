/**
 * What each instruction does to the accounts of one distributor, as a function from the state before
 * to the state after or an error. Module `Ledger` has the instructions themselves.
 */
module Transitions {
  import opened Words
  import opened Digests
  import opened Program
  import opened ClaimStatus
  import opened Distributor
  import opened TreeNodes
  import Verify

  /** The committed accounts: the distributor (absent before creation and after closing), claims, vault. */
  datatype State =
    State(distributor: Option<MerkleDistributor>, claims: map<Pubkey, ClaimStatus>, vault: u64)

  datatype Params = Params(
    version: u64,
    root: Digest,
    tokenVault: Pubkey,
    maxTotalClaim: u64,
    maxNumNodes: u64,
    startVestingTs: i64,
    endVestingTs: i64,
    clawbackStartTs: i64,
    clawbackReceiver: Pubkey,
    admin: Pubkey,
    activationPoint: u64,
    activationType: Byte,
    closable: bool,
    totalBonus: u64,
    bonusVestingDuration: u64)

  function FreshDistributor(p: Params): MerkleDistributor {
    MerkleDistributor(
      p.version, p.root, p.tokenVault, p.maxTotalClaim, p.maxNumNodes, 0, 0, p.startVestingTs, p.endVestingTs,
      p.clawbackStartTs, p.clawbackReceiver, p.admin, false, p.activationPoint, p.closable,
      AirdropBonus(p.totalBonus, p.bonusVestingDuration, 0), p.activationType)
  }

  function NewDistributor(s: State, clock: Clock, p: Params): Result<State, ErrorCode> {
    if s.distributor.Some? then Err(AccountAlreadyInUse)
    else if p.startVestingTs >= p.endVestingTs then Err(StartTimestampAfterEnd)
    else if p.startVestingTs <= clock.unixTimestamp then Err(TimestampsNotInFuture)
    else if p.clawbackStartTs < p.endVestingTs then Err(ClawbackDuringVesting)
    else if p.activationType > 1 then Err(InvalidActivationType)
    else Ok(s.(distributor := Some(FreshDistributor(p))))
  }

  /** `new_distributor2` takes the claim total without the bonus and adds it, once the account is new. */
  function NewDistributor2(s: State, clock: Clock, p: Params, totalClaim: u64): Result<State, ErrorCode> {
    if s.distributor.Some? then Err(AccountAlreadyInUse)
    else
      var maxTotalClaim :- AddU64(totalClaim, p.totalBonus);
      NewDistributor(s, clock, p.(maxTotalClaim := maxTotalClaim))
  }

  /** A payment out of the vault, counted and checked against the maximum. */
  function Pay(s: State, d: MerkleDistributor, amount: u64): Result<State, ErrorCode> {
    if amount > s.vault then Err(TokenInsufficientFunds)
    else
      var total :- AddU64(d.totalAmountClaimed, amount);
      if total > d.maxTotalClaim then Err(ExceededMaxClaim)
      else Ok(s.(distributor := Some(d.(totalAmountClaimed := total)), vault := s.vault - amount))
  }

  function NewClaim(
    h: HashFn, s: State, clock: Clock, c: Pubkey, amountUnlocked: u64, amountLocked: u64, proof: seq<Digest>)
    : Result<State, ErrorCode>
  {
    if s.distributor.None? then Err(AccountNotInitialized)
    else if c in s.claims then Err(AccountAlreadyInUse)
    else
      var d := s.distributor.value;
      if d.clawedBack then Err(ClaimExpired)
      else
        var handler :- d.GetActivationHandler(clock);
        var count :- AddU64(d.numNodesClaimed, 1);
        if count > d.maxNumNodes then Err(MaxNodesExceeded)
        else if Verify.Fold(h, ClaimLeaf(h, c, amountUnlocked, amountLocked), proof) != d.root then Err(InvalidProof)
        else
          var bonus :- d.BonusFor(amountUnlocked, handler);
          var payout :- AddU64(amountUnlocked, bonus);
          if payout > s.vault then Err(TokenInsufficientFunds)
          else
            var counted :- d.(numNodesClaimed := count).AccumulateBonus(bonus);
            var status := ClaimStatus(c, amountLocked, 0, payout, d.closable, d.admin);
            Pay(s.(claims := s.claims[c := status]), counted, payout)
  }

  function ClaimLocked(s: State, clock: Clock, c: Pubkey): Result<State, ErrorCode> {
    if s.distributor.None? || c !in s.claims then Err(AccountNotInitialized)
    else
      var d, status := s.distributor.value, s.claims[c];
      if d.clawedBack then Err(ClaimExpired)
      else
        var _ :- d.GetActivationHandler(clock);
        var amount :- status.AmountWithdrawable(clock.unixTimestamp, d.startTs, d.endTs);
        if amount == 0 then Err(InsufficientUnlockedTokens)
        else if amount > s.vault then Err(TokenInsufficientFunds)
        else
          var withdrawn :- AddU64(status.lockedAmountWithdrawn, amount);
          if withdrawn > status.lockedAmount then Err(ExceededMaxClaim)
          else Pay(s.(claims := s.claims[c := status.(lockedAmountWithdrawn := withdrawn)]), d, amount)
  }

  /** What is left in the vault when all of it is sent to `destination`, which may be the vault itself. */
  function Swept(s: State, d: MerkleDistributor, destination: Pubkey): u64 {
    if destination == d.tokenVault then s.vault else 0
  }

  function Clawback(s: State, clock: Clock): Result<State, ErrorCode> {
    if s.distributor.None? then Err(AccountNotInitialized)
    else
      var d := s.distributor.value;
      if d.clawedBack then Err(ClawbackAlreadyClaimed)
      else if clock.unixTimestamp < d.clawbackStartTs then Err(ClawbackBeforeStart)
      else Ok(s.(distributor := Some(d.(clawedBack := true)), vault := Swept(s, d, d.clawbackReceiver)))
  }

  function CloseClaimStatus(s: State, signer: Pubkey, c: Pubkey): Result<State, ErrorCode> {
    if c !in s.claims then Err(AccountNotInitialized)
    else if signer != s.claims[c].admin then Err(ConstraintHasOne)
    else if !s.claims[c].closable then Err(CannotCloseClaimStatus)
    else Ok(s.(claims := s.claims - {c}))
  }

  function CloseDistributor(s: State, signer: Pubkey, destination: Pubkey): Result<State, ErrorCode> {
    if s.distributor.None? then Err(AccountNotInitialized)
    else
      var d := s.distributor.value;
      if signer != d.admin then Err(ConstraintHasOne)
      else if !d.closable then Err(CannotCloseDistributor)
      else Ok(s.(distributor := None, vault := Swept(s, d, destination)))
  }

  function SetActivationPoint(s: State, signer: Pubkey, point: u64): Result<State, ErrorCode> {
    if s.distributor.None? then Err(AccountNotInitialized)
    else if signer != s.distributor.value.admin then Err(ConstraintHasOne)
    else Ok(s.(distributor := Some(s.distributor.value.(activationPoint := point))))
  }

  function SetAdmin(s: State, signer: Pubkey, newAdmin: Pubkey): Result<State, ErrorCode> {
    if s.distributor.None? then Err(AccountNotInitialized)
    else if signer != s.distributor.value.admin then Err(Unauthorized)
    else if signer == newAdmin then Err(SameAdmin)
    else Ok(s.(distributor := Some(s.distributor.value.(admin := newAdmin))))
  }

  function SetClawbackReceiver(s: State, signer: Pubkey, receiver: Pubkey): Result<State, ErrorCode> {
    if s.distributor.None? then Err(AccountNotInitialized)
    else if signer != s.distributor.value.admin then Err(Unauthorized)
    else if receiver == s.distributor.value.clawbackReceiver then Err(SameClawbackReceiver)
    else Ok(s.(distributor := Some(s.distributor.value.(clawbackReceiver := receiver))))
  }

  /** Anyone may send tokens to the vault. */
  function Deposit(s: State, amount: u64): Result<State, ErrorCode> {
    if s.vault + amount >= U64_LIMIT then Err(TokenOverflow) else Ok(s.(vault := s.vault + amount))
  }
}
