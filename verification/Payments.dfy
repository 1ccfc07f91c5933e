/** The headline results: over every run of a funded distributor of a tree, who can claim what and when. */
module Payments {
  import opened Words
  import opened Digests
  import opened Program
  import opened ClaimStatus
  import opened Distributor
  import opened Linear
  import opened TreeNodes
  import opened AirdropMerkleTree
  import opened Lookup
  import opened Sums
  import opened Runs
  import opened Solvency
  import RunLaws
  import Verify
  import T = Transitions

  /** A distributor with the root, node count and totals of a tree, and any bonus pool. */
  ghost predicate LaunchedFor(p: T.Params, t: AirdropMerkleTree) {
    && p.root == t.merkleRoot
    && p.maxNumNodes == t.maxNumNodes
    && p.maxTotalClaim == BaseOf(t) + p.totalBonus
  }

  lemma LaunchEstablishes(h: HashFn, t: AirdropMerkleTree, clock: Clock, p: T.Params, balance: u64)
    requires WellBuilt(h, t) && LaunchedFor(p, t) && Created(clock, p, balance).Ok?
    ensures TreeInv(h, Created(clock, p, balance).value, t)
  {
    CreationEstablishes(clock, p, balance);
    var w := Created(clock, p, balance).value;
    assert Bonuses(w.state.claims, ToMap(t.treeNodes)) == map[];
  }

  lemma UndisturbedBefore(h: HashFn, w: World, a: Action)
    requires Undisturbed(Next(h, w, a))
    ensures Undisturbed(w)
  {
    RunLaws.ClosedStaysClosed(h, w, a);
    RunLaws.ClosedStatusesGrow(h, w, a);
  }

  /** Whatever anybody does, only members have claimed, each its own amounts, and nothing is overdrawn. */
  lemma {:induction false} EveryRunServesTree(
    h: HashFn, w: World, t: AirdropMerkleTree, actions: seq<Action>, s: set<Bytes>)
    requires TreeInv(h, w, t) && Undisturbed(Run(h, w, actions))
    requires CollisionFree(h, s) && NodesHashedIn(h, t.treeNodes, s)
    requires forall a :: a in actions ==> ActionHashedIn(h, a, s)
    ensures TreeInv(h, Run(h, w, actions), t)
  {
    if actions != [] {
      var init, a := actions[..|actions| - 1], actions[|actions| - 1];
      UndisturbedBefore(h, Run(h, w, init), a);
      EveryRunServesTree(h, w, t, init, s);
      AnyStepKeeps(h, Run(h, w, init), t, a, s);
    }
  }

  /** Nothing can disturb a distributor that is not closable. */
  lemma {:induction false} NonClosableUndisturbed(h: HashFn, w: World, actions: seq<Action>)
    requires Inv(w) && w.state.distributor.Some? && !w.state.distributor.value.closable
    ensures Undisturbed(Run(h, w, actions)) && !Run(h, w, actions).state.distributor.value.closable
  {
    EveryRunKeeps(h, w, actions);
    if actions != [] {
      var init, a := actions[..|actions| - 1], actions[|actions| - 1];
      NonClosableUndisturbed(h, w, init);
      NonClosableStep(h, Run(h, w, init), a);
    }
  }

  lemma NonClosableStep(h: HashFn, w: World, a: Action)
    requires w.state.distributor.Some? && !w.state.distributor.value.closable
    ensures Next(h, w, a).state.distributor.Some? && !Next(h, w, a).state.distributor.value.closable
  {
    if Next(h, w, a).state.distributor.Some? {
      RunLaws.StepKeepsTerms(h, w, a);
    }
  }

  // ---- one member at a time

  /** The vault has received all that can ever be claimed. */
  ghost predicate Funded(w: World) {
    w.state.distributor.Some? && w.log.deposited >= w.state.distributor.value.maxTotalClaim
  }

  /** The claim the tree prepares for its node `j`: own amounts, stored proof. */
  function OwnClaim(t: AirdropMerkleTree, j: nat): Action
    requires j < |t.treeNodes| && t.treeNodes[j].proof.Some?
  {
    var node := t.treeNodes[j];
    NewClaim(node.claimant, node.amount, node.lockedAmount, node.proof.value)
  }

  /** What is left in the vault and under the limit is enough for claims of members that add `amount`. */
  lemma Room(
    h: HashFn, w: World, t: AirdropMerkleTree, claims': map<Pubkey, ClaimStatus>, amount: nat)
    requires TreeInv(h, w, t) && Funded(w) && !w.state.distributor.value.clawedBack
    requires MembersOnly(claims', ToMap(t.treeNodes), w.state.distributor.value.airdropBonus.totalBonus, BaseOf(t))
    requires Sum(Payouts(claims')) == Sum(Payouts(w.state.claims)) + amount
    ensures w.state.distributor.value.totalAmountClaimed + amount <= w.state.distributor.value.maxTotalClaim
    ensures amount <= w.state.vault
  {
    MembersAreCovered(h, t, claims', w.state.distributor.value.airdropBonus.totalBonus);
  }

  /** All the limits a member's first claim has to meet. */
  lemma RoomForMember(h: HashFn, w: World, t: AirdropMerkleTree, j: nat)
    requires TreeInv(h, w, t) && Funded(w) && !w.state.distributor.value.clawedBack
    requires j < |t.treeNodes| && t.treeNodes[j].claimant !in w.state.claims && w.state.distributor.value.Base() > 0
    ensures
      var d, node := w.state.distributor.value, t.treeNodes[j];
      var bonus := BonusAt(d, w.clock, node.amount);
      && d.numNodesClaimed + 1 <= d.maxNumNodes
      && node.amount + bonus <= w.state.vault
      && d.totalAmountClaimed + node.amount + bonus <= d.maxTotalClaim
      && d.airdropBonus.totalClaimedBonus + bonus <= d.airdropBonus.totalBonus
  {
    var d, node, members := w.state.distributor.value, t.treeNodes[j], ToMap(t.treeNodes);
    var pool, bonus := d.airdropBonus.totalBonus, BonusAt(d, w.clock, node.amount);
    BonusAtBounded(d, w.clock, node.amount);
    MemberWithinBase(h, t, j);
    MemberFullBonusFits(d, t, node.amount);
    var status := ClaimStatus(node.claimant, node.lockedAmount, 0, node.amount + bonus, d.closable, d.admin);
    var claims' := w.state.claims[node.claimant := status];
    ToMapFinds(t.treeNodes, j);
    MembersAdd(w.state.claims, members, pool, BaseOf(t), node.claimant, status);
    PayoutsAdd(w.state.claims, node.claimant, status);
    MembersAreCovered(h, t, claims', pool);
    Room(h, w, t, claims', node.amount + bonus);
  }

  lemma MemberFullBonusFits(d: MerkleDistributor, t: AirdropMerkleTree, amount: u64)
    requires Serves(d, t) && d.Base() > 0 && amount <= BaseOf(t)
    ensures amount + FullBonus(amount, d.airdropBonus.totalBonus, d.Base()) <= d.maxTotalClaim
  {
    d.MaxBonusExact(amount);
  }

  /** With the proof, the bonus and every limit in order, a new claim goes through. */
  lemma ClaimGoesThrough(
    h: HashFn, s: T.State, clock: Clock, c: Pubkey, unlocked: u64, locked: u64, proof: seq<Digest>, bonus: u64)
    requires s.distributor.Some? && c !in s.claims && !s.distributor.value.clawedBack
    requires Verify.Fold(h, ClaimLeaf(h, c, unlocked, locked), proof) == s.distributor.value.root
    requires s.distributor.value.GetActivationHandler(clock) == Ok(HandlerAt(s.distributor.value, clock))
    requires s.distributor.value.BonusFor(unlocked, HandlerAt(s.distributor.value, clock)) == Ok(bonus)
    requires s.distributor.value.numNodesClaimed + 1 <= s.distributor.value.maxNumNodes
    requires unlocked + bonus <= s.vault
    requires s.distributor.value.totalAmountClaimed + unlocked + bonus <= s.distributor.value.maxTotalClaim
    requires s.distributor.value.airdropBonus.totalClaimedBonus + bonus < U64_LIMIT
    ensures T.NewClaim(h, s, clock, c, unlocked, locked, proof).Ok?
  {
  }

  /** An open distributor of a tree in a reachable state, whatever has been claimed or closed. */
  ghost predicate Serving(h: HashFn, w: World, t: AirdropMerkleTree) {
    Inv(w) && WellBuilt(h, t) && w.state.distributor.Some? && Serves(w.state.distributor.value, t)
  }

  /** What node `j` has to meet itself, and the distributor towards everybody. */
  predicate MayClaim(w: World, t: AirdropMerkleTree, j: nat)
    requires w.state.distributor.Some? && j < |t.treeNodes|
  {
    var d := w.state.distributor.value;
    && t.treeNodes[j].claimant !in w.state.claims && !d.clawedBack
    && BaseOf(t) > 0 && HandlerAt(d, w.clock).EndFits()
  }

  /** Fewer claims have been made, counting closed ones, than there are nodes. */
  predicate PlaceLeft(w: World, t: AirdropMerkleTree) {
    |w.state.claims| + w.log.closedStatuses < |t.treeNodes|
  }

  /** What node `j` is paid now on claiming. */
  function PayoutAt(w: World, t: AirdropMerkleTree, j: nat): nat
    requires w.state.distributor.Some? && w.state.distributor.value.Base() > 0 && j < |t.treeNodes|
  {
    t.treeNodes[j].amount + BonusAt(w.state.distributor.value, w.clock, t.treeNodes[j].amount)
  }

  /** Paying `amount` keeps within the maximum to claim. */
  predicate WithinMaximum(w: World, amount: int)
    requires w.state.distributor.Some?
  {
    w.state.distributor.value.totalAmountClaimed + amount <= w.state.distributor.value.maxTotalClaim
  }

  lemma OwnClaimGoesThrough(h: HashFn, w: World, t: AirdropMerkleTree, j: nat)
    requires Serving(h, w, t) && j < |t.treeNodes| && t.treeNodes[j].proof.Some?
    requires MayClaim(w, t, j) && PlaceLeft(w, t)
    requires PayoutAt(w, t, j) <= w.state.vault && WithinMaximum(w, PayoutAt(w, t, j))
    ensures Step(h, w, OwnClaim(t, j)).Ok?
  {
    var d, node := w.state.distributor.value, t.treeNodes[j];
    assert HasProof(h, t.treeNodes, j);
    MemberAccepted(h, t.treeNodes, j);
    MemberBonus(h, t, d, w.clock, j);
    ClaimGoesThrough(h, w.state, w.clock, node.claimant, node.amount, node.lockedAmount, node.proof.value,
                     BonusAt(d, w.clock, node.amount));
  }

  lemma OwnClaimNeeds(h: HashFn, w: World, t: AirdropMerkleTree, j: nat)
    requires Serving(h, w, t) && j < |t.treeNodes| && t.treeNodes[j].proof.Some?
    requires Step(h, w, OwnClaim(t, j)).Ok?
    ensures MayClaim(w, t, j) && PlaceLeft(w, t)
    ensures PayoutAt(w, t, j) <= w.state.vault && WithinMaximum(w, PayoutAt(w, t, j))
  {
    var d, node := w.state.distributor.value, t.treeNodes[j];
    NewClaimEffect(h, w, node.claimant, node.amount, node.lockedAmount, node.proof.value);
    PaidIsAmountAndBonus(h, w, node.claimant, node.amount, node.lockedAmount, node.proof.value);
    MemberBonus(h, t, d, w.clock, j);
  }

  /**
   * When a node's own claim succeeds, in any reachable state of any open distributor of its tree: it has
   * no open claim, nothing was clawed back, the tree gives out anything, the end of the bonus vesting is
   * a 64-bit number, and there is a place, a balance and room under the maximum left for it. The proof
   * never matters, nor does what the hash function does.
   */
  lemma MemberCanClaim(h: HashFn, w: World, t: AirdropMerkleTree, j: nat)
    requires Serving(h, w, t) && j < |t.treeNodes| && t.treeNodes[j].proof.Some?
    ensures Step(h, w, OwnClaim(t, j)).Ok?
      <==> MayClaim(w, t, j) && PlaceLeft(w, t)
           && PayoutAt(w, t, j) <= w.state.vault && WithinMaximum(w, PayoutAt(w, t, j))
  {
    if Step(h, w, OwnClaim(t, j)).Ok? {
      OwnClaimNeeds(h, w, t, j);
    } else if MayClaim(w, t, j) && PlaceLeft(w, t) {
      if PayoutAt(w, t, j) <= w.state.vault && WithinMaximum(w, PayoutAt(w, t, j)) {
        OwnClaimGoesThrough(h, w, t, j);
      }
    }
  }

  /** It is refused for want of a place exactly when all places are taken, by open or closed claims. */
  lemma RefusedForPlace(h: HashFn, w: World, t: AirdropMerkleTree, j: nat)
    requires Serving(h, w, t) && j < |t.treeNodes| && t.treeNodes[j].proof.Some?
    ensures Step(h, w, OwnClaim(t, j)) == Err(MaxNodesExceeded)
      <==> t.treeNodes[j].claimant !in w.state.claims && !w.state.distributor.value.clawedBack && !PlaceLeft(w, t)
  {
    var d, node := w.state.distributor.value, t.treeNodes[j];
    MemberBonus(h, t, d, w.clock, j);
  }

  /** Once funded, the vault holds whatever the maximum still allows. */
  lemma VaultCovers(w: World, amount: nat)
    requires Inv(w) && Funded(w) && !w.state.distributor.value.clawedBack && WithinMaximum(w, amount)
    ensures amount <= w.state.vault
  {
  }

  /** Where no claim status was closed there is always a place for a member, and room under the maximum. */
  lemma UndisturbedCanClaim(h: HashFn, w: World, t: AirdropMerkleTree, j: nat)
    requires TreeInv(h, w, t) && Funded(w) && j < |t.treeNodes| && t.treeNodes[j].proof.Some?
    ensures Step(h, w, OwnClaim(t, j)).Ok? <==> MayClaim(w, t, j)
  {
    MemberCanClaim(h, w, t, j);
    if MayClaim(w, t, j) {
      RoomForMember(h, w, t, j);
    }
  }

  /** A step that pays `payout` for a node, opens its claim, counts it and does nothing else. */
  ghost predicate Pays(w: World, w': World, node: TreeNode, payout: int) {
    && w.state.distributor.Some? && w'.state.distributor.Some?
    && var d, d' := w.state.distributor.value, w'.state.distributor.value;
      && 0 <= payout < U64_LIMIT
      && w'.state.vault == w.state.vault - payout
      && w'.state.claims == w.state.claims[node.claimant :=
           ClaimStatus(node.claimant, node.lockedAmount, 0, payout, d.closable, d.admin)]
      && w'.clock == w.clock && w'.log.deposited == w.log.deposited
      && d'.numNodesClaimed == d.numNodesClaimed + 1
      && d'.totalAmountClaimed == d.totalAmountClaimed + payout
      && d'.airdropBonus.totalClaimedBonus == d.airdropBonus.totalClaimedBonus + payout - node.amount
      && d' == d.(numNodesClaimed := d'.numNodesClaimed, totalAmountClaimed := d'.totalAmountClaimed,
                  airdropBonus := d'.airdropBonus)
      && d'.airdropBonus == d.airdropBonus.(totalClaimedBonus := d'.airdropBonus.totalClaimedBonus)
  }

  lemma ClaimPays(h: HashFn, w: World, node: TreeNode, proof: seq<Digest>, w': World) returns (payout: int)
    requires Step(h, w, NewClaim(node.claimant, node.amount, node.lockedAmount, proof)) == Ok(w')
    ensures Pays(w, w', node, payout) && payout == w.state.vault - w'.state.vault
    ensures T.NewClaim(h, w.state, w.clock, node.claimant, node.amount, node.lockedAmount, proof) == Ok(w'.state)
  {
    payout := w.state.vault - w'.state.vault;
    NewClaimEffect(h, w, node.claimant, node.amount, node.lockedAmount, proof);
  }

  /** What a member's own claim pays, whenever it succeeds. */
  lemma MemberClaimPays(h: HashFn, w: World, t: AirdropMerkleTree, j: nat, w': World) returns (payout: int)
    requires TreeInv(h, w, t) && j < |t.treeNodes| && t.treeNodes[j].proof.Some?
    requires Step(h, w, OwnClaim(t, j)) == Ok(w')
    ensures w.state.distributor.value.Base() > 0
    ensures Pays(w, w', t.treeNodes[j], payout)
    ensures payout == t.treeNodes[j].amount + BonusAt(w.state.distributor.value, w.clock, t.treeNodes[j].amount)
  {
    var d, node := w.state.distributor.value, t.treeNodes[j];
    payout := ClaimPays(h, w, node, node.proof.value, w');
    PaidIsAmountAndBonus(h, w, node.claimant, node.amount, node.lockedAmount, node.proof.value);
    MemberBonus(h, t, d, w.clock, j);
  }

  /**
   * The bonus of an amount, from the fields and the clock alone: of its share of the pool, what has vested
   * since the activation point. The time that counts is the slot in a distributor of type 0 and the
   * unsigned reading of the timestamp in one of type 1.
   */
  function BonusByClock(d: MerkleDistributor, clock: Clock, amount: u64): nat
    requires d.maxTotalClaim > d.airdropBonus.totalBonus
  {
    var pool, base, time := d.airdropBonus.totalBonus, d.maxTotalClaim - d.airdropBonus.totalBonus, clock.unixTimestamp;
    var point := if d.activationType == 0 then clock.slot
                 else if time >= 0 then time else time + 0x1_0000_0000_0000_0000;
    ProRataNonNegative(amount, pool, base);
    Released(amount * pool / base, point - d.activationPoint, d.airdropBonus.vestingDuration)
  }

  lemma BonusIsByClock(d: MerkleDistributor, clock: Clock, amount: u64)
    requires d.Base() > 0
    ensures BonusAt(d, clock, amount) == BonusByClock(d, clock, amount)
  {
  }

  /** A claim that presents a node's triple, with whatever proof, is paid the amount and that bonus. */
  lemma ClaimPaysByClock(h: HashFn, w: World, t: AirdropMerkleTree, a: Action, j: nat, w': World)
    requires Serving(h, w, t) && j < |t.treeNodes| && a.NewClaim? && Step(h, w, a) == Ok(w')
    requires Presents(t.treeNodes[j], a.claimant, a.amountUnlocked, a.amountLocked)
    ensures w.state.distributor.value.maxTotalClaim > w.state.distributor.value.airdropBonus.totalBonus
    ensures w.state.vault - w'.state.vault
      == a.amountUnlocked + BonusByClock(w.state.distributor.value, w.clock, a.amountUnlocked)
  {
    var d, node := w.state.distributor.value, t.treeNodes[j];
    PaidIsAmountAndBonus(h, w, a.claimant, a.amountUnlocked, a.amountLocked, a.proof);
    MemberBonus(h, t, d, w.clock, j);
    BonusIsByClock(d, w.clock, node.amount);
  }

  // ---- why a claim is refused

  /** A claim is refused for its proof exactly when all before it is in order and the proof leads elsewhere. */
  lemma RefusedForProof(
    h: HashFn, w: World, c: Pubkey, unlocked: u64, locked: u64, proof: seq<Digest>)
    requires Inv(w) && w.state.distributor.Some?
    ensures
      var d := w.state.distributor.value;
      Step(h, w, NewClaim(c, unlocked, locked, proof)) == Err(InvalidProof)
      <==> c !in w.state.claims && !d.clawedBack && d.numNodesClaimed < d.maxNumNodes
           && Verify.Fold(h, ClaimLeaf(h, c, unlocked, locked), proof) != d.root
  {
    var d := w.state.distributor.value;
    BonusNeverInvalid(d, w.clock, unlocked);
  }

  /** The bonus of any amount fails in the arithmetic only. */
  lemma BonusNeverInvalid(d: MerkleDistributor, clock: Clock, amount: u64)
    ensures d.BonusFor(amount, HandlerAt(d, clock)).Err? ==>
      d.BonusFor(amount, HandlerAt(d, clock)).error == ArithmeticError
    ensures d.activationType <= 1 ==> d.GetActivationHandler(clock) == Ok(HandlerAt(d, clock))
  {
  }

  /** A claim of `c` passes the guards that come before the proof. */
  predicate PastGuards(s: T.State, c: Pubkey)
    requires s.distributor.Some?
  {
    var d := s.distributor.value;
    c !in s.claims && !d.clawedBack && d.numNodesClaimed < d.maxNumNodes
  }

  /** The errors of a claim whose proof is in order, in terms of its bonus. */
  lemma ProvenClaimErrors(
    h: HashFn, s: T.State, clock: Clock, c: Pubkey, unlocked: u64, locked: u64, proof: seq<Digest>,
    bonus: Result<u64, ErrorCode>)
    requires s.distributor.Some? && (bonus.Err? ==> bonus.error == ArithmeticError)
    requires Verify.Fold(h, ClaimLeaf(h, c, unlocked, locked), proof) == s.distributor.value.root
    requires s.distributor.value.GetActivationHandler(clock) == Ok(HandlerAt(s.distributor.value, clock))
    requires s.distributor.value.BonusFor(unlocked, HandlerAt(s.distributor.value, clock)) == bonus
    requires s.distributor.value.airdropBonus.totalClaimedBonus <= s.distributor.value.totalAmountClaimed
    ensures
      var d, r := s.distributor.value, T.NewClaim(h, s, clock, c, unlocked, locked, proof);
      && (r == Err(AccountAlreadyInUse) <==> c in s.claims)
      && (r == Err(ClaimExpired) <==> c !in s.claims && d.clawedBack)
      && (r == Err(TokenInsufficientFunds)
          <==> PastGuards(s, c) && bonus.Ok? && s.vault < unlocked + bonus.value < U64_LIMIT)
      && (r == Err(ExceededMaxClaim)
          <==> PastGuards(s, c) && bonus.Ok? && unlocked + bonus.value <= s.vault
               && d.maxTotalClaim < d.totalAmountClaimed + unlocked + bonus.value < U64_LIMIT)
      && (r.Err? ==> r.error in {AccountAlreadyInUse, ClaimExpired, MaxNodesExceeded, TokenInsufficientFunds,
                                 ExceededMaxClaim, ArithmeticError})
  {
  }

  lemma PayoutFits(h: HashFn, w: World, t: AirdropMerkleTree, j: nat)
    requires Serving(h, w, t) && j < |t.treeNodes| && BaseOf(t) > 0
    ensures PayoutAt(w, t, j) <= w.state.distributor.value.maxTotalClaim
  {
    var d, node := w.state.distributor.value, t.treeNodes[j];
    MemberWithinBase(h, t, j);
    BonusAtBounded(d, w.clock, node.amount);
    MemberFullBonusFits(d, t, node.amount);
  }

  /** The errors of a node's own claim besides `MaxNodesExceeded`, each exactly. */
  lemma OwnClaimErrors(h: HashFn, w: World, t: AirdropMerkleTree, j: nat)
    requires Serving(h, w, t) && j < |t.treeNodes| && t.treeNodes[j].proof.Some?
    ensures
      var d, r := w.state.distributor.value, Step(h, w, OwnClaim(t, j));
      && (r == Err(AccountAlreadyInUse) <==> t.treeNodes[j].claimant in w.state.claims)
      && (r == Err(ClaimExpired) <==> t.treeNodes[j].claimant !in w.state.claims && d.clawedBack)
      && (r == Err(TokenInsufficientFunds)
          <==> MayClaim(w, t, j) && PlaceLeft(w, t) && PayoutAt(w, t, j) > w.state.vault)
      && (r == Err(ExceededMaxClaim)
          <==> MayClaim(w, t, j) && PlaceLeft(w, t) && PayoutAt(w, t, j) <= w.state.vault
               && d.maxTotalClaim < d.totalAmountClaimed + PayoutAt(w, t, j) < U64_LIMIT)
      && (r.Err? ==> r.error in {AccountAlreadyInUse, ClaimExpired, MaxNodesExceeded, TokenInsufficientFunds,
                                 ExceededMaxClaim, ArithmeticError})
  {
    var d, node := w.state.distributor.value, t.treeNodes[j];
    assert HasProof(h, t.treeNodes, j);
    MemberAccepted(h, t.treeNodes, j);
    MemberBonus(h, t, d, w.clock, j);
    if BaseOf(t) > 0 {
      PayoutFits(h, w, t, j);
    }
    ProvenClaimErrors(h, w.state, w.clock, node.claimant, node.amount, node.lockedAmount, node.proof.value,
                      d.BonusFor(node.amount, HandlerAt(d, w.clock)));
  }

  /** What an open claim may withdraw now. */
  function DueNow(w: World, c: Pubkey): int
    requires w.state.distributor.Some? && c in w.state.claims
  {
    var d, status := w.state.distributor.value, w.state.claims[c];
    status.Vested(w.clock.unixTimestamp, d.startTs, d.endTs) - status.lockedAmountWithdrawn
  }

  predicate MayWithdraw(w: World, c: Pubkey)
    requires w.state.distributor.Some? && c in w.state.claims
  {
    !w.state.distributor.value.clawedBack && RunLaws.VestingFits(w, w.state.distributor.value) && DueNow(w, c) > 0
  }

  /**
   * In any reachable state of any funded distributor a withdrawal succeeds exactly when nothing was clawed
   * back, something is due and it keeps within the maximum.
   */
  lemma MemberCanWithdraw(h: HashFn, w: World, c: Pubkey)
    requires Inv(w) && Funded(w) && c in w.state.claims
    ensures Step(h, w, ClaimLocked(c)).Ok? <==> MayWithdraw(w, c) && WithinMaximum(w, DueNow(w, c))
  {
    RunLaws.LockedClaimOutcome(w, c);
    if MayWithdraw(w, c) && WithinMaximum(w, DueNow(w, c)) {
      VaultCovers(w, DueNow(w, c));
    }
  }

  /** The errors of a withdrawal, each exactly. */
  lemma WithdrawalErrors(h: HashFn, w: World, c: Pubkey)
    requires Inv(w) && w.state.distributor.Some?
    ensures
      var d, r := w.state.distributor.value, Step(h, w, ClaimLocked(c));
      && (r == Err(AccountNotInitialized) <==> c !in w.state.claims)
      && (c in w.state.claims ==>
            && (r == Err(ClaimExpired) <==> d.clawedBack)
            && (r == Err(InsufficientUnlockedTokens)
                <==> !d.clawedBack && RunLaws.VestingFits(w, d) && DueNow(w, c) == 0)
            && (r == Err(TokenInsufficientFunds) <==> MayWithdraw(w, c) && DueNow(w, c) > w.state.vault)
            && (r == Err(ExceededMaxClaim)
                <==> MayWithdraw(w, c) && DueNow(w, c) <= w.state.vault
                     && d.maxTotalClaim < d.totalAmountClaimed + DueNow(w, c) < U64_LIMIT)
            && (r.Err? ==> r.error in {ClaimExpired, InsufficientUnlockedTokens, TokenInsufficientFunds,
                                       ExceededMaxClaim, ArithmeticError}))
  {
    if c in w.state.claims {
      RunLaws.WithdrawnWithinVested(w, c);
      RunLaws.WithdrawableExact(w, c);
    }
  }

  /** Where no claim status was closed, all that is due keeps within the maximum. */
  lemma UndisturbedCanWithdraw(h: HashFn, w: World, t: AirdropMerkleTree, c: Pubkey)
    requires TreeInv(h, w, t) && Funded(w) && c in w.state.claims
    ensures Step(h, w, ClaimLocked(c)).Ok? <==> MayWithdraw(w, c)
  {
    var d, status := w.state.distributor.value, w.state.claims[c];
    MemberCanWithdraw(h, w, c);
    RunLaws.WithdrawnWithinVested(w, c);
    if !d.clawedBack {
      var vested := status.Vested(w.clock.unixTimestamp, d.startTs, d.endTs);
      var claims' := w.state.claims[c := status.(lockedAmountWithdrawn := vested)];
      MembersWithdraw(w.state.claims, ToMap(t.treeNodes), d.airdropBonus.totalBonus, BaseOf(t), c, vested);
      PayoutsUpdate(w.state.claims, c, status.(lockedAmountWithdrawn := vested));
      Room(h, w, t, claims', vested - status.lockedAmountWithdrawn);
    }
  }

  /**
   * A vesting is never too long for an `i64` when its distributor was created at time -1 or later, and
   * only then.
   */
  lemma VestingFitsSinceZero(clock: Clock)
    ensures (forall p: T.Params, balance: u64 ::
        Created(clock, p, balance).Ok? ==> p.endVestingTs - p.startVestingTs <= I64_MAX)
      <==> clock.unixTimestamp >= -1
  {
    if clock.unixTimestamp < -1 {
      var any: Digest := seq(32, _ => 0);
      var p := T.Params(0, any, any, 0, 0, -1, I64_MAX, I64_MAX, any, any, 0, 0, false, 0, 0);
      assert Created(clock, p, 0).Ok?;
    }
  }

  /**
   * Node `j` can claim unless it has claimed, a clawback has happened, nothing was to be given out or the
   * admin has pushed the bonus vesting past 64 bits; and having claimed it can withdraw whatever has
   * vested since.
   */
  ghost predicate Solvent(h: HashFn, w: World, t: AirdropMerkleTree, j: nat)
    requires w.state.distributor.Some? && j < |t.treeNodes| && t.treeNodes[j].proof.Some?
  {
    var c := t.treeNodes[j].claimant;
    && (Step(h, w, OwnClaim(t, j)).Ok? <==> MayClaim(w, t, j))
    && (c in w.state.claims ==> (Step(h, w, ClaimLocked(c)).Ok? <==> MayWithdraw(w, c)))
  }

  lemma FundedIsSolvent(h: HashFn, w: World, t: AirdropMerkleTree, j: nat)
    requires TreeInv(h, w, t) && Funded(w) && j < |t.treeNodes| && t.treeNodes[j].proof.Some?
    ensures Solvent(h, w, t, j)
  {
    UndisturbedCanClaim(h, w, t, j);
    if t.treeNodes[j].claimant in w.state.claims {
      UndisturbedCanWithdraw(h, w, t, t.treeNodes[j].claimant);
    }
  }

  /** In a run from a creation at time -1 or later the length of the vesting is never in the way. */
  lemma VestingFitsInRun(h: HashFn, clock: Clock, p: T.Params, balance: u64, actions: seq<Action>)
    requires Created(clock, p, balance).Ok? && clock.unixTimestamp >= -1
    requires Run(h, Created(clock, p, balance).value, actions).state.distributor.Some?
    ensures
      var w := Run(h, Created(clock, p, balance).value, actions);
      RunLaws.VestingFits(w, w.state.distributor.value)
  {
    VestingFitsSinceZero(clock);
    RunLaws.RunKeepsTerms(h, Created(clock, p, balance).value, actions);
  }

  /** A distributor goes on serving its tree for as long as it is open, whatever anybody closes or claims. */
  lemma ServesWhileOpen(h: HashFn, w: World, t: AirdropMerkleTree, actions: seq<Action>)
    requires Serving(h, w, t) && Run(h, w, actions).state.distributor.Some?
    ensures Serving(h, Run(h, w, actions), t)
  {
    EveryRunKeeps(h, w, actions);
    RunLaws.RunKeepsTerms(h, w, actions);
  }

  /**
   * Every run of every distributor created for a tree, closable or not, with any hash function: while it
   * is open and once it is funded, a node's own claim succeeds exactly when the node may claim, a place is
   * left and the payout keeps within the maximum, and a withdrawal exactly when the claim may withdraw and
   * that keeps within the maximum.
   */
  lemma ClaimsExactly(
    h: HashFn, t: AirdropMerkleTree, clock: Clock, p: T.Params, balance: u64, actions: seq<Action>, j: nat)
    requires WellBuilt(h, t) && LaunchedFor(p, t) && Created(clock, p, balance).Ok? && j < |t.treeNodes|
    requires Run(h, Created(clock, p, balance).value, actions).state.distributor.Some?
    ensures
      var w, c := Run(h, Created(clock, p, balance).value, actions), t.treeNodes[j].claimant;
      && Serving(h, w, t) && t.treeNodes[j].proof.Some?
      && (Funded(w) ==>
            && (Step(h, w, OwnClaim(t, j)).Ok?
                <==> MayClaim(w, t, j) && PlaceLeft(w, t) && WithinMaximum(w, PayoutAt(w, t, j)))
            && (c in w.state.claims ==>
                  (Step(h, w, ClaimLocked(c)).Ok? <==> MayWithdraw(w, c) && WithinMaximum(w, DueNow(w, c)))))
  {
    var w := Run(h, Created(clock, p, balance).value, actions);
    LaunchEstablishes(h, t, clock, p, balance);
    ServesWhileOpen(h, Created(clock, p, balance).value, t, actions);
    assert HasProof(h, t.treeNodes, j);
    if Funded(w) {
      FundedExactly(h, w, t, j);
    }
  }

  lemma FundedExactly(h: HashFn, w: World, t: AirdropMerkleTree, j: nat)
    requires Serving(h, w, t) && Funded(w) && j < |t.treeNodes| && t.treeNodes[j].proof.Some?
    ensures Step(h, w, OwnClaim(t, j)).Ok?
      <==> MayClaim(w, t, j) && PlaceLeft(w, t) && WithinMaximum(w, PayoutAt(w, t, j))
    ensures
      var c := t.treeNodes[j].claimant;
      c in w.state.claims ==>
        (Step(h, w, ClaimLocked(c)).Ok? <==> MayWithdraw(w, c) && WithinMaximum(w, DueNow(w, c)))
  {
    MemberCanClaim(h, w, t, j);
    if MayClaim(w, t, j) && WithinMaximum(w, PayoutAt(w, t, j)) {
      VaultCovers(w, PayoutAt(w, t, j));
    }
    if t.treeNodes[j].claimant in w.state.claims {
      MemberCanWithdraw(h, w, t.treeNodes[j].claimant);
    }
  }

  /** Every run of a distributor that serves a tree goes on to, unless a claim status was closed. */
  lemma RunServesTree(h: HashFn, w: World, t: AirdropMerkleTree, actions: seq<Action>)
    requires TreeInv(h, w, t) && CollisionFree(h, RunStrings(h, t, actions))
    requires !w.state.distributor.value.closable || Undisturbed(Run(h, w, actions))
    ensures TreeInv(h, Run(h, w, actions), t)
  {
    var s := RunStrings(h, t, actions);
    if !w.state.distributor.value.closable {
      NonClosableUndisturbed(h, w, actions);
    }
    RunStringsCover(h, t, actions, s);
    EveryRunServesTree(h, w, t, actions, s);
  }

  lemma LaunchServesTree(
    h: HashFn, t: AirdropMerkleTree, clock: Clock, p: T.Params, balance: u64, actions: seq<Action>)
    requires WellBuilt(h, t) && LaunchedFor(p, t) && Created(clock, p, balance).Ok?
    requires CollisionFree(h, RunStrings(h, t, actions))
    requires !p.closable || Undisturbed(Run(h, Created(clock, p, balance).value, actions))
    ensures TreeInv(h, Run(h, Created(clock, p, balance).value, actions), t)
  {
    LaunchEstablishes(h, t, clock, p, balance);
    RunServesTree(h, Created(clock, p, balance).value, t, actions);
  }

  /**
   * Solvency over every run. Create a distributor for a tree, then let anyone do anything but close a
   * claim status or the distributor, which nobody can unless it is closable: once the vault has received
   * the maximum it is solvent towards every node. The hash function must not have a collision among the
   * strings hashed in building the tree and in the claims made.
   */
  lemma AlwaysSolvent(
    h: HashFn, t: AirdropMerkleTree, clock: Clock, p: T.Params, balance: u64, actions: seq<Action>, j: nat)
    requires WellBuilt(h, t) && LaunchedFor(p, t) && Created(clock, p, balance).Ok?
    requires CollisionFree(h, RunStrings(h, t, actions)) && j < |t.treeNodes|
    requires !p.closable || Undisturbed(Run(h, Created(clock, p, balance).value, actions))
    ensures
      var w := Run(h, Created(clock, p, balance).value, actions);
      && TreeInv(h, w, t) && t.treeNodes[j].proof.Some?
      && (Funded(w) ==> Solvent(h, w, t, j))
      && (clock.unixTimestamp >= -1 ==> RunLaws.VestingFits(w, w.state.distributor.value))
  {
    LaunchServesTree(h, t, clock, p, balance, actions);
    var w := Run(h, Created(clock, p, balance).value, actions);
    assert HasProof(h, t.treeNodes, j);
    if Funded(w) {
      FundedIsSolvent(h, w, t, j);
    }
    if clock.unixTimestamp >= -1 {
      VestingFitsInRun(h, clock, p, balance, actions);
    }
  }
}
