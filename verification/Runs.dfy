/** Runs of the program: any instructions by anyone, deposits, and a clock that does not go back. */
module Runs {
  import opened Words
  import opened Digests
  import opened Program
  import opened ClaimStatus
  import opened Distributor
  import opened Sums
  import T = Transitions

  datatype Action =
    | NewClaim(claimant: Pubkey, amountUnlocked: u64, amountLocked: u64, proof: seq<Digest>)
    | ClaimLocked(claimant: Pubkey)
    | Clawback
    | CloseClaimStatus(signer: Pubkey, claimant: Pubkey)
    | CloseDistributor(signer: Pubkey, destination: Pubkey)
    | SetActivationPoint(signer: Pubkey, point: u64)
    | SetAdmin(signer: Pubkey, newAdmin: Pubkey)
    | SetClawbackReceiver(signer: Pubkey, receiver: Pubkey)
    | Deposit(amount: u64)
    | Tick(slots: nat, seconds: nat)

  /** What an observer of deposits, receivers and closings has written down. */
  datatype Log = Log(
    deposited: nat,         // everything that ever entered the vault
    paid: nat,              // what left it to claimants
    clawedBack: nat,        // what left it by a clawback
    sweptOnClose: nat,      // what left it on closing the distributor
    closedStatuses: nat,    // claim statuses closed
    closedReceived: nat,    // what those had received
    lastVest: map<Pubkey, int>)  // when an open claim last withdrew locked tokens

  datatype World = World(state: T.State, clock: Clock, log: Log)

  /** The accounts after an action that is an instruction or a deposit. */
  function Outcome(h: HashFn, w: World, a: Action): Result<T.State, ErrorCode> {
    match a
    case NewClaim(c, unlocked, locked, proof) => T.NewClaim(h, w.state, w.clock, c, unlocked, locked, proof)
    case ClaimLocked(c) => T.ClaimLocked(w.state, w.clock, c)
    case Clawback => T.Clawback(w.state, w.clock)
    case CloseClaimStatus(signer, c) => T.CloseClaimStatus(w.state, signer, c)
    case CloseDistributor(signer, destination) => T.CloseDistributor(w.state, signer, destination)
    case SetActivationPoint(signer, point) => T.SetActivationPoint(w.state, signer, point)
    case SetAdmin(signer, newAdmin) => T.SetAdmin(w.state, signer, newAdmin)
    case SetClawbackReceiver(signer, receiver) => T.SetClawbackReceiver(w.state, signer, receiver)
    case Deposit(amount) => T.Deposit(w.state, amount)
    case Tick(_, _) => Ok(w.state)
  }

  function TickedClock(clock: Clock, a: Action): Result<Clock, ErrorCode> {
    match a
    case Tick(slots, seconds) =>
      if clock.slot + slots < U64_LIMIT && clock.unixTimestamp + seconds <= I64_MAX
      then Ok(Clock(clock.slot + slots, clock.unixTimestamp + seconds))
      else Err(ArithmeticError)
    case _ => Ok(clock)
  }

  /** What a claimant has got, by its claim status. */
  function Credit(s: T.State, c: Pubkey): nat {
    if c in s.claims then s.claims[c].Received() else 0
  }

  /** What a transfer of the whole vault brings to `destination`: nothing new if that is the vault itself. */
  function Arriving(s: T.State, destination: Pubkey): nat {
    if s.distributor.Some? && destination == s.distributor.value.tokenVault then 0 else s.vault
  }

  /** Written down from the side of those who get the tokens, not from the vault. */
  function Recorded(w: World, a: Action, after: T.State): Log {
    var log := w.log;
    match a
    case NewClaim(c, _, _, _) =>
      log.(paid := Add(log.paid, Credit(after, c) - Credit(w.state, c)), lastVest := log.lastVest - {c})
    case ClaimLocked(c) =>
      log.(paid := Add(log.paid, Credit(after, c) - Credit(w.state, c)),
           lastVest := log.lastVest[c := w.clock.unixTimestamp])
    case Clawback =>
      if w.state.distributor.None? then log
      else log.(clawedBack := log.clawedBack + Arriving(w.state, w.state.distributor.value.clawbackReceiver))
    case CloseClaimStatus(_, c) =>
      log.(closedStatuses := log.closedStatuses + 1, closedReceived := log.closedReceived + Credit(w.state, c))
    case CloseDistributor(_, destination) =>
      log.(sweptOnClose := log.sweptOnClose + Arriving(w.state, destination))
    case Deposit(amount) => log.(deposited := log.deposited + amount)
    case _ => log
  }

  function Add(a: nat, b: int): nat {
    if a + b >= 0 then a + b else 0
  }

  function Step(h: HashFn, w: World, a: Action): Result<World, ErrorCode> {
    var state :- Outcome(h, w, a);
    var clock :- TickedClock(w.clock, a);
    Ok(World(state, clock, Recorded(w, a, state)))
  }

  /** A failed transaction changes nothing. */
  function Next(h: HashFn, w: World, a: Action): World {
    match Step(h, w, a)
    case Ok(w') => w'
    case Err(_) => w
  }

  function Run(h: HashFn, w: World, actions: seq<Action>): World {
    if actions == [] then w
    else Next(h, Run(h, w, actions[..|actions| - 1]), actions[|actions| - 1])
  }

  /** A vault holding `balance`, and a distributor just created beside it. */
  function Created(clock: Clock, p: T.Params, balance: u64): Result<World, ErrorCode> {
    var state :- T.NewDistributor(T.State(None, map[], balance), clock, p);
    Ok(World(state, clock, Log(balance, 0, 0, 0, 0, 0, map[])))
  }

  function Payouts(claims: map<Pubkey, ClaimStatus>): map<Pubkey, nat> {
    map c | c in claims :: claims[c].Received()
  }

  // ---- what holds in every reachable state

  /** No token appears or disappears. */
  ghost predicate Conserved(w: World) {
    w.log.deposited == w.state.vault + w.log.paid + w.log.clawedBack + w.log.sweptOnClose
  }

  /** The distributor's counters are the sums over the claims, open and closed, within their limits. */
  ghost predicate Counted(w: World, d: MerkleDistributor) {
    && d.totalAmountClaimed == w.log.paid == Sum(Payouts(w.state.claims)) + w.log.closedReceived
    && d.numNodesClaimed == |w.state.claims| + w.log.closedStatuses
    && d.airdropBonus.totalClaimedBonus <= d.totalAmountClaimed <= d.maxTotalClaim
    && d.numNodesClaimed <= d.maxNumNodes
  }

  /** Claims are closable as their distributor is, and only closed ones count as such. */
  ghost predicate ClosedOnlyIfClosable(w: World, d: MerkleDistributor) {
    && (!d.closable ==> w.log.closedStatuses == 0)
    && (w.log.closedStatuses == 0 ==> w.log.closedReceived == 0)
    && forall c :: c in w.state.claims ==> w.state.claims[c].closable == d.closable
  }

  /** Clawback comes after the end of vesting, and tokens leave the vault by it only then. */
  ghost predicate Timed(w: World, d: MerkleDistributor) {
    && d.startTs < d.endTs <= d.clawbackStartTs
    && d.activationType <= 1
    && (d.clawedBack ==> w.clock.unixTimestamp >= d.clawbackStartTs)
    && (!d.clawedBack ==> w.log.clawedBack == 0)
    && w.log.sweptOnClose == 0
  }

  /**
   * A claim has withdrawn exactly what was vested when it last withdrew, however often it had done so
   * before, and nothing if it never did.
   */
  ghost predicate VestedAsOfLast(w: World, d: MerkleDistributor, c: Pubkey)
    requires c in w.state.claims
  {
    var status := w.state.claims[c];
    if c in w.log.lastVest
    then w.log.lastVest[c] <= w.clock.unixTimestamp
         && status.lockedAmountWithdrawn == status.Vested(w.log.lastVest[c], d.startTs, d.endTs)
    else status.lockedAmountWithdrawn == 0
  }

  ghost predicate Vesting(w: World, d: MerkleDistributor) {
    forall c :: c in w.state.claims ==> VestedAsOfLast(w, d, c)
  }

  ghost predicate OpenInv(w: World, d: MerkleDistributor) {
    Counted(w, d) && ClosedOnlyIfClosable(w, d) && Timed(w, d) && Vesting(w, d)
  }

  ghost predicate Inv(w: World) {
    && Conserved(w)
    && (w.state.distributor.Some? ==> OpenInv(w, w.state.distributor.value))
  }

  // ---- each step keeps it

  lemma CreationEstablishes(clock: Clock, p: T.Params, balance: u64)
    requires Created(clock, p, balance).Ok?
    ensures Inv(Created(clock, p, balance).value)
  {
    var w := Created(clock, p, balance).value;
    assert Payouts(w.state.claims) == map[];
  }

  lemma PayoutsAdd(claims: map<Pubkey, ClaimStatus>, c: Pubkey, status: ClaimStatus)
    requires c !in claims
    ensures Sum(Payouts(claims[c := status])) == Sum(Payouts(claims)) + status.Received()
  {
    assert Payouts(claims[c := status]) == Payouts(claims)[c := status.Received()];
    SumInsert(Payouts(claims), c, status.Received());
  }

  lemma PayoutsUpdate(claims: map<Pubkey, ClaimStatus>, c: Pubkey, status: ClaimStatus)
    requires c in claims
    ensures Sum(Payouts(claims[c := status])) == Sum(Payouts(claims)) - claims[c].Received() + status.Received()
  {
    assert Payouts(claims[c := status]) == Payouts(claims)[c := status.Received()];
    SumUpdate(Payouts(claims), c, status.Received());
  }

  lemma PayoutsDrop(claims: map<Pubkey, ClaimStatus>, c: Pubkey)
    requires c in claims
    ensures Sum(Payouts(claims - {c})) == Sum(Payouts(claims)) - claims[c].Received()
    ensures |claims - {c}| == |claims| - 1
  {
    assert Payouts(claims - {c}) == Payouts(claims) - {c};
    SumRemove(Payouts(claims), c);
    assert claims == (claims - {c})[c := claims[c]];
  }

  /** What a successful new claim does, without the machine arithmetic. */
  lemma NewClaimEffect(h: HashFn, w: World, c: Pubkey, unlocked: u64, locked: u64, proof: seq<Digest>)
    requires T.NewClaim(h, w.state, w.clock, c, unlocked, locked, proof).Ok?
    ensures
      var after := T.NewClaim(h, w.state, w.clock, c, unlocked, locked, proof).value;
      && w.state.distributor.Some? && after.distributor.Some? && c !in w.state.claims
      && var d, d', payout := w.state.distributor.value, after.distributor.value, w.state.vault - after.vault;
        var claimedBonus := d.airdropBonus.totalClaimedBonus + (payout - unlocked);
        && payout >= 0 && !d.clawedBack
        && after.claims == w.state.claims[c := ClaimStatus(c, locked, 0, payout, d.closable, d.admin)]
        && d' == d.(numNodesClaimed := d.numNodesClaimed + 1,
                    totalAmountClaimed := d.totalAmountClaimed + payout,
                    airdropBonus := d.airdropBonus.(totalClaimedBonus := claimedBonus))
        && payout >= unlocked
        && d'.numNodesClaimed <= d.maxNumNodes && d'.totalAmountClaimed <= d.maxTotalClaim
  {
  }

  lemma NewClaimKeeps(h: HashFn, w: World, a: Action)
    requires Inv(w) && a.NewClaim? && Step(h, w, a).Ok?
    ensures Inv(Step(h, w, a).value)
  {
    NewClaimEffect(h, w, a.claimant, a.amountUnlocked, a.amountLocked, a.proof);
    var w' := Step(h, w, a).value;
    PayoutsAdd(w.state.claims, a.claimant, w'.state.claims[a.claimant]);
    var d := w.state.distributor.value;
    forall c | c in w'.state.claims
      ensures VestedAsOfLast(w', w'.state.distributor.value, c)
    {
      assert c != a.claimant ==> VestedAsOfLast(w, d, c);
    }
  }

  lemma ClaimLockedEffect(w: World, c: Pubkey)
    requires T.ClaimLocked(w.state, w.clock, c).Ok?
    ensures
      var after := T.ClaimLocked(w.state, w.clock, c).value;
      && w.state.distributor.Some? && after.distributor.Some? && c in w.state.claims
      && var d, status := w.state.distributor.value, w.state.claims[c];
        var amount := w.state.vault - after.vault;
        && amount > 0 && !d.clawedBack
        && status.UnlockedAmount(w.clock.unixTimestamp, d.startTs, d.endTs)
           == Ok(status.lockedAmountWithdrawn + amount)
        && after.claims == w.state.claims[c := status.(lockedAmountWithdrawn := status.lockedAmountWithdrawn + amount)]
        && after.distributor.value == d.(totalAmountClaimed := d.totalAmountClaimed + amount)
        && d.totalAmountClaimed + amount <= d.maxTotalClaim
  {
  }

  /** A claim that is not touched keeps its withdrawals as of its last one. */
  lemma VestingFrame(w: World, w': World, d: MerkleDistributor, d': MerkleDistributor, touched: set<Pubkey>)
    requires Vesting(w, d) && w.clock.unixTimestamp <= w'.clock.unixTimestamp
    requires d'.startTs == d.startTs && d'.endTs == d.endTs
    requires forall c :: c in w'.state.claims && c !in touched ==>
      c in w.state.claims && w'.state.claims[c] == w.state.claims[c]
    requires w'.log.lastVest - touched == w.log.lastVest - touched
    ensures forall c :: c in w'.state.claims && c !in touched ==> VestedAsOfLast(w', d', c)
  {
    forall c | c in w'.state.claims && c !in touched
      ensures VestedAsOfLast(w', d', c)
    {
      assert VestedAsOfLast(w, d, c);
      assert c in w.log.lastVest - touched <==> c in w.log.lastVest;
      assert c in w'.log.lastVest - touched <==> c in w'.log.lastVest;
    }
  }

  lemma ClaimLockedVests(h: HashFn, w: World, a: Action)
    requires Inv(w) && a.ClaimLocked? && Step(h, w, a).Ok?
    ensures w.state.distributor.Some? && Step(h, w, a).value.state.distributor.Some?
    ensures Vesting(Step(h, w, a).value, Step(h, w, a).value.state.distributor.value)
  {
    ClaimLockedEffect(w, a.claimant);
    var w', d, status := Step(h, w, a).value, w.state.distributor.value, w.state.claims[a.claimant];
    status.UnlockedAmountExact(w.clock.unixTimestamp, d.startTs, d.endTs);
    VestingFrame(w, w', d, w'.state.distributor.value, {a.claimant});
  }

  lemma ClaimLockedKeeps(h: HashFn, w: World, a: Action)
    requires Inv(w) && a.ClaimLocked? && Step(h, w, a).Ok?
    ensures Inv(Step(h, w, a).value)
  {
    ClaimLockedVests(h, w, a);
    ClaimLockedEffect(w, a.claimant);
    PayoutsUpdate(w.state.claims, a.claimant, Step(h, w, a).value.state.claims[a.claimant]);
  }

  lemma ClosingKeeps(h: HashFn, w: World, a: Action)
    requires Inv(w) && (a.CloseClaimStatus? || a.CloseDistributor?) && Step(h, w, a).Ok?
    ensures Inv(Step(h, w, a).value)
  {
    var w' := Step(h, w, a).value;
    if a.CloseClaimStatus? {
      PayoutsDrop(w.state.claims, a.claimant);
      if w.state.distributor.Some? {
        VestingFrame(w, w', w.state.distributor.value, w.state.distributor.value, {});
      }
    }
  }

  lemma OtherKeeps(h: HashFn, w: World, a: Action)
    requires Inv(w) && Step(h, w, a).Ok?
    requires !a.NewClaim? && !a.ClaimLocked? && !a.CloseClaimStatus? && !a.CloseDistributor?
    ensures Inv(Step(h, w, a).value)
  {
    var w' := Step(h, w, a).value;
    if w.state.distributor.Some? {
      OtherEffect(h, w, a);
      VestingFrame(w, w', w.state.distributor.value, w'.state.distributor.value, {});
    }
  }

  /** The remaining steps touch no counter, no claim and no term of the distribution. */
  lemma OtherEffect(h: HashFn, w: World, a: Action)
    requires w.state.distributor.Some? && Step(h, w, a).Ok?
    requires !a.NewClaim? && !a.ClaimLocked? && !a.CloseClaimStatus? && !a.CloseDistributor?
    ensures
      var w' := Step(h, w, a).value;
      && w'.state.claims == w.state.claims && w'.log.lastVest == w.log.lastVest
      && w.clock.unixTimestamp <= w'.clock.unixTimestamp
      && w'.state.distributor.Some?
      && var d, d' := w.state.distributor.value, w'.state.distributor.value;
        d' == d.(activationPoint := d'.activationPoint, admin := d'.admin,
                 clawbackReceiver := d'.clawbackReceiver, clawedBack := d'.clawedBack)
  {
  }

  lemma StepKeeps(h: HashFn, w: World, a: Action)
    requires Inv(w)
    ensures Inv(Next(h, w, a))
  {
    if Step(h, w, a).Ok? {
      if a.NewClaim? {
        NewClaimKeeps(h, w, a);
      } else if a.ClaimLocked? {
        ClaimLockedKeeps(h, w, a);
      } else if a.CloseClaimStatus? || a.CloseDistributor? {
        ClosingKeeps(h, w, a);
      } else {
        OtherKeeps(h, w, a);
      }
    }
  }

  /** Conservation, accounting, limits, timing and vesting hold after any run from any creation. */
  lemma {:induction false} EveryRunKeeps(h: HashFn, w: World, actions: seq<Action>)
    requires Inv(w)
    ensures Inv(Run(h, w, actions))
  {
    if actions != [] {
      EveryRunKeeps(h, w, actions[..|actions| - 1]);
      StepKeeps(h, Run(h, w, actions[..|actions| - 1]), actions[|actions| - 1]);
    }
  }
}
