/** How the command line turns a tree into a distributor: the bonus pool and the arguments it sends. */
module Launching {
  import opened Words
  import opened Digests
  import opened Program
  import opened Distributor
  import opened Merging
  import opened AirdropMerkleTree
  import opened Lookup
  import opened Runs
  import opened Solvency
  import opened Settlement
  import T = Transitions

  datatype DistributorArgs = DistributorArgs(
    startVestingTs: i64,
    endVestingTs: i64,
    clawbackStartTs: i64,
    activationPoint: u64,
    activationType: Byte,
    closable: bool,
    clawbackReceiver: Pubkey,
    admin: Pubkey,
    tokenVault: Pubkey)

  datatype Instruction =
    | NewDistributor(p: T.Params)
    | NewDistributor2(p: T.Params, totalClaim: u64)

  /** The parameters of a launch but for the maximum to claim. */
  function Terms(
    t: AirdropMerkleTree, args: DistributorArgs, maxTotalClaim: u64, totalBonus: u64, vestingDuration: u64): T.Params
  {
    T.Params(
      t.airdropVersion, t.merkleRoot, args.tokenVault, maxTotalClaim, t.maxNumNodes, args.startVestingTs,
      args.endVestingTs, args.clawbackStartTs, args.clawbackReceiver, args.admin, args.activationPoint,
      args.activationType, args.closable, totalBonus, vestingDuration)
  }

  /** Without a bonus the first instruction is used, and the vesting duration of the bonus is dropped. */
  function Prepare(t: AirdropMerkleTree, args: DistributorArgs, multiplier: u64, vestingDuration: u64)
    : Result<Instruction, BuildError>
  {
    if t.totalUnlockedAmount * multiplier >= U64_LIMIT then Err(Panicked)
    else
      MulNonNegative(t.totalUnlockedAmount, multiplier);
      var totalBonus := t.totalUnlockedAmount * multiplier;
      var claim :- MaxTotalClaim(t);
      if totalBonus == 0 then Ok(NewDistributor(Terms(t, args, claim, 0, 0)))
      else Ok(NewDistributor2(Terms(t, args, 0, totalBonus, vestingDuration), claim))
  }

  lemma MulNonNegative(a: nat, b: nat)
    ensures a * b >= 0
  {
  }

  function Execute(s: T.State, clock: Clock, i: Instruction): Result<T.State, ErrorCode> {
    match i
    case NewDistributor(p) => T.NewDistributor(s, clock, p)
    case NewDistributor2(p, totalClaim) => T.NewDistributor2(s, clock, p, totalClaim)
  }

  /** Where a launch fails: in the command line, by a panic, or on chain. */
  datatype LaunchError = Offline(reason: BuildError) | OnChain(code: ErrorCode)

  /** The whole launch: prepare the instruction, then send it. */
  function Launch(
    t: AirdropMerkleTree, args: DistributorArgs, multiplier: u64, vestingDuration: u64, s: T.State, clock: Clock)
    : Result<T.State, LaunchError>
  {
    match Prepare(t, args, multiplier, vestingDuration)
    case Err(reason) => Err(Offline(reason))
    case Ok(i) =>
      match Execute(s, clock, i)
      case Err(code) => Err(OnChain(code))
      case Ok(after) => Ok(after)
  }

  /** The distributor of a launch: every field from the tree, the arguments and the two totals. */
  predicate Launched(d: MerkleDistributor, t: AirdropMerkleTree, args: DistributorArgs, bonus: int, duration: u64) {
    && d.version == t.airdropVersion && d.root == t.merkleRoot && d.maxNumNodes == t.maxNumNodes
    && d.maxTotalClaim == t.totalUnlockedAmount + t.totalLockedAmount + bonus
    && d.totalAmountClaimed == 0 && d.numNodesClaimed == 0 && !d.clawedBack
    && d.startTs == args.startVestingTs && d.endTs == args.endVestingTs
    && d.clawbackStartTs == args.clawbackStartTs && d.clawbackReceiver == args.clawbackReceiver
    && d.admin == args.admin && d.tokenVault == args.tokenVault && d.closable == args.closable
    && d.activationPoint == args.activationPoint && d.activationType == args.activationType
    && d.airdropBonus.totalBonus == bonus && d.airdropBonus.totalClaimedBonus == 0
    && d.airdropBonus.vestingDuration == (if bonus == 0 then 0 else duration)
  }

  /**
   * A launch panics exactly when the pool or the totals of the tree leave 64 bits; it succeeds exactly
   * when everything there is to pay together fits 64 bits, there is no such distributor yet, and the
   * times and the activation type are in order. It then adds a distributor of the tree and the arguments.
   */
  lemma LaunchOutcome(
    t: AirdropMerkleTree, args: DistributorArgs, multiplier: u64, vestingDuration: u64, s: T.State, clock: Clock)
    ensures
      var bonus := t.totalUnlockedAmount * multiplier;
      var after := Launch(t, args, multiplier, vestingDuration, s, clock);
      && bonus >= 0
      && (after == Err(Offline(Panicked)) <==> bonus >= U64_LIMIT || BaseOf(t) >= U64_LIMIT)
      && (after.Ok? <==>
            && BaseOf(t) + bonus < U64_LIMIT && s.distributor.None? && args.activationType <= 1
            && clock.unixTimestamp < args.startVestingTs < args.endVestingTs <= args.clawbackStartTs)
      && (after.Ok? ==>
            && after.value.claims == s.claims && after.value.vault == s.vault && after.value.distributor.Some?
            && Launched(after.value.distributor.value, t, args, bonus, vestingDuration))
  {
    MulNonNegative(t.totalUnlockedAmount, multiplier);
    if Prepare(t, args, multiplier, vestingDuration).Ok? {
      ExecuteOutcome(t, args, multiplier, vestingDuration, s, clock);
    }
  }

  lemma ExecuteOutcome(
    t: AirdropMerkleTree, args: DistributorArgs, multiplier: u64, vestingDuration: u64, s: T.State, clock: Clock)
    requires Prepare(t, args, multiplier, vestingDuration).Ok?
    ensures
      var bonus := t.totalUnlockedAmount * multiplier;
      var after := Execute(s, clock, Prepare(t, args, multiplier, vestingDuration).value);
      && 0 <= bonus < U64_LIMIT && BaseOf(t) < U64_LIMIT
      && (after.Ok? <==>
            && BaseOf(t) + bonus < U64_LIMIT && s.distributor.None? && args.activationType <= 1
            && clock.unixTimestamp < args.startVestingTs < args.endVestingTs <= args.clawbackStartTs)
      && (after.Ok? ==>
            && after.value.claims == s.claims && after.value.vault == s.vault && after.value.distributor.Some?
            && Launched(after.value.distributor.value, t, args, bonus, vestingDuration))
  {
  }

  /** A launch into an empty state is the creation of a distributor of the tree. */
  lemma LaunchCreates(
    t: AirdropMerkleTree, args: DistributorArgs, multiplier: u64, vestingDuration: u64, clock: Clock, balance: u64,
    state: T.State, p: T.Params)
    requires Launch(t, args, multiplier, vestingDuration, T.State(None, map[], balance), clock) == Ok(state)
    requires 0 <= t.totalUnlockedAmount * multiplier && BaseOf(t) + t.totalUnlockedAmount * multiplier < U64_LIMIT
    requires
      var bonus := t.totalUnlockedAmount * multiplier;
      p == Terms(t, args, BaseOf(t) + bonus, bonus, if bonus == 0 then 0 else vestingDuration)
    ensures Created(clock, p, balance) == Ok(World(state, clock, Log(balance, 0, 0, 0, 0, 0, map[])))
  {
  }

  /** A launch with enough in the vault makes a distributor that is ready to pay everybody. */
  lemma LaunchIsReady(
    h: HashFn, t: AirdropMerkleTree, args: DistributorArgs, multiplier: u64, vestingDuration: u64, clock: Clock,
    balance: u64, state: T.State)
    requires WellBuilt(h, t) && BaseOf(t) > 0
    requires Launch(t, args, multiplier, vestingDuration, T.State(None, map[], balance), clock) == Ok(state)
    requires balance >= BaseOf(t) + t.totalUnlockedAmount * multiplier
    requires t.totalUnlockedAmount * multiplier > 0 ==> args.activationPoint + vestingDuration < U64_LIMIT
    ensures state.distributor.Some?
    ensures Ready(h, World(state, clock, Log(balance, 0, 0, 0, 0, 0, map[])), t)
  {
    var bonus := t.totalUnlockedAmount * multiplier;
    LaunchOutcome(t, args, multiplier, vestingDuration, T.State(None, map[], balance), clock);
    var p := Terms(t, args, BaseOf(t) + bonus, bonus, if bonus == 0 then 0 else vestingDuration);
    LaunchCreates(t, args, multiplier, vestingDuration, clock, balance, state, p);
    FundedLaunchIsReady(h, t, clock, p, balance);
  }

  /**
   * What the multiplier means: at any time a member's bonus is at most that many times its amount, and
   * once fully vested it is exactly that just when the tree locks nothing or there is no bonus for it.
   */
  lemma MultiplierBonus(h: HashFn, w: World, t: AirdropMerkleTree, j: nat, multiplier: nat)
    requires TreeInv(h, w, t) && BaseOf(t) > 0 && j < |t.treeNodes|
    requires w.state.distributor.value.airdropBonus.totalBonus == t.totalUnlockedAmount * multiplier
    ensures
      var d, amount := w.state.distributor.value, t.treeNodes[j].amount;
      var bonus, most := BonusAt(d, w.clock, amount), amount * multiplier;
      && bonus <= most
      && (HandlerAt(d, w.clock).currPoint - d.activationPoint >= d.airdropBonus.vestingDuration ==>
            (bonus == most <==> most == 0 || t.totalLockedAmount == 0))
  {
    var d, amount := w.state.distributor.value, t.treeNodes[j].amount;
    MultiplierShare(amount, t.totalUnlockedAmount, t.totalLockedAmount, multiplier);
    BonusAtBounded(d, w.clock, amount);
  }
}
