/**
 * What closing a claim status can cost: a member that then claims a second time takes a place, and part of
 * the maximum, that another member needs. Module `Payments` says exactly when a claim succeeds.
 */
module Reclaiming {
  import opened Words
  import opened Digests
  import opened Program
  import opened ClaimStatus
  import opened Distributor
  import opened TreeNodes
  import opened AirdropMerkleTree
  import opened Runs
  import opened Solvency
  import opened Payments
  import T = Transitions

  /** The admin closes the status of node 0 and node 0 claims once more. */
  function Reclaim(t: AirdropMerkleTree, admin: Pubkey): seq<Action>
    requires |t.treeNodes| > 0 && t.treeNodes[0].proof.Some?
  {
    [OwnClaim(t, 0), CloseClaimStatus(admin, t.treeNodes[0].claimant), OwnClaim(t, 0)]
  }

  /** A fresh distributor of a tree, without a bonus, funded for all of it. */
  ghost predicate Fresh(h: HashFn, w: World, t: AirdropMerkleTree) {
    && TreeInv(h, w, t) && Funded(w) && w.state.claims == map[] && w.state.vault == w.log.deposited
    && var d := w.state.distributor.value;
      && d.closable && !d.clawedBack && d.airdropBonus.totalBonus == 0 && d.airdropBonus.totalClaimedBonus == 0
      && BaseOf(t) > 0 && HandlerAt(d, w.clock).EndFits()
      && d.numNodesClaimed == 0 && d.totalAmountClaimed == 0
  }

  /** `w` differs from `w0` by `n` claims of `paid` in all, and by the claim statuses. */
  ghost predicate AfterClaims(w: World, w0: World, n: nat, paid: nat) {
    && w0.state.distributor.Some? && n < U64_LIMIT && paid <= w0.state.vault
    && w.state.vault == w0.state.vault - paid
    && w.clock == w0.clock && w.log.deposited == w0.log.deposited
    && w.state.distributor.Some?
    && var d, d0 := w.state.distributor.value, w0.state.distributor.value;
      && d.numNodesClaimed == n && d.totalAmountClaimed == paid
      && d == d0.(numNodesClaimed := d.numNodesClaimed, totalAmountClaimed := d.totalAmountClaimed)
  }

  /** Without a pool the bonus is 0. */
  lemma NoPoolNoBonus(h: HashFn, t: AirdropMerkleTree, d: MerkleDistributor, clock: Clock, j: nat)
    requires WellBuilt(h, t) && Serves(d, t) && j < |t.treeNodes| && d.activationType <= 1
    requires d.airdropBonus.totalBonus == 0 && BaseOf(t) > 0 && HandlerAt(d, clock).EndFits()
    ensures d.GetActivationHandler(clock) == Ok(HandlerAt(d, clock))
    ensures d.BonusFor(t.treeNodes[j].amount, HandlerAt(d, clock)) == Ok(0)
  {
    MemberBonus(h, t, d, clock, j);
    BonusAtBounded(d, clock, t.treeNodes[j].amount);
    FloorUnique(t.treeNodes[j].amount * 0, BaseOf(t), 0);
  }

  /** Whoever has no open claim, and whose amount is still there, can claim. */
  lemma CanClaimAgain(h: HashFn, w: World, w0: World, t: AirdropMerkleTree, j: nat, n: nat, paid: nat)
    requires Fresh(h, w0, t) && AfterClaims(w, w0, n, paid) && j < |t.treeNodes| && t.treeNodes[j].proof.Some?
    requires t.treeNodes[j].claimant !in w.state.claims
    requires n + 1 <= t.maxNumNodes && paid + t.treeNodes[j].amount <= BaseOf(t)
    ensures Step(h, w, OwnClaim(t, j)).Ok?
  {
    var node := t.treeNodes[j];
    assert HasProof(h, t.treeNodes, j);
    MemberAccepted(h, t.treeNodes, j);
    NoPoolNoBonus(h, t, w.state.distributor.value, w.clock, j);
    ClaimGoesThrough(h, w.state, w.clock, node.claimant, node.amount, node.lockedAmount, node.proof.value, 0);
  }

  /** The claim pays the amount and no bonus. */
  lemma ClaimsAmount(h: HashFn, w: World, w0: World, t: AirdropMerkleTree, j: nat, n: nat, paid: nat, w': World)
    returns (payout: int)
    requires Fresh(h, w0, t) && AfterClaims(w, w0, n, paid) && j < |t.treeNodes| && t.treeNodes[j].proof.Some?
    requires Step(h, w, OwnClaim(t, j)) == Ok(w')
    ensures Pays(w, w', t.treeNodes[j], payout) && payout == t.treeNodes[j].amount
  {
    var node := t.treeNodes[j];
    payout := ClaimPays(h, w, node, node.proof.value, w');
    PaidIsAmountAndBonus(h, w, node.claimant, node.amount, node.lockedAmount, node.proof.value);
    NoPoolNoBonus(h, t, w.state.distributor.value, w.clock, j);
  }

  /** Closing the only open claim. */
  lemma CloseOnly(h: HashFn, w: World, c: Pubkey, status: ClaimStatus)
    requires w.state.claims == map[c := status] && status.closable
    ensures Step(h, w, CloseClaimStatus(status.admin, c)).Ok?
    ensures
      var w' := Step(h, w, CloseClaimStatus(status.admin, c)).value;
      && w'.state == w.state.(claims := map[]) && w'.clock == w.clock && w'.log.deposited == w.log.deposited
  {
    assert map[c := status] - {c} == map[];
  }

  lemma RunPush(h: HashFn, w: World, actions: seq<Action>, a: Action, w': World)
    requires Next(h, Run(h, w, actions), a) == w'
    ensures Run(h, w, actions + [a]) == w'
  {
    assert (actions + [a])[..|actions|] == actions;
  }

  lemma Three<X>(a: X, b: X, c: X)
    ensures [] + [a] + [b] + [c] == [a, b, c]
  {
  }

  lemma RunOfThree(h: HashFn, w0: World, a: Action, w1: World, b: Action, w2: World, c: Action, w3: World)
    requires Next(h, w0, a) == w1 && Next(h, w1, b) == w2 && Next(h, w2, c) == w3
    ensures Run(h, w0, [a, b, c]) == w3
  {
    RunPush(h, w0, [], a, w1);
    RunPush(h, w0, [] + [a], b, w2);
    RunPush(h, w0, [] + [a] + [b], c, w3);
    Three(a, b, c);
  }

  /** The only open claim is that of `node`, which the admin may close. */
  ghost predicate OnlyClaim(w: World, w0: World, node: TreeNode) {
    && w0.state.distributor.Some?
    && w.state.claims == map[node.claimant :=
         ClaimStatus(node.claimant, node.lockedAmount, 0, node.amount, true, w0.state.distributor.value.admin)]
  }

  lemma OnlyPaid(w: World, w0: World, w': World, node: TreeNode, n: nat, paid: nat, payout: int)
    requires AfterClaims(w, w0, n, paid) && Pays(w, w', node, payout) && payout == node.amount
    requires w.state.claims == map[]
    requires w0.state.distributor.value.closable
    ensures AfterClaims(w', w0, n + 1, paid + node.amount) && OnlyClaim(w', w0, node)
  {
  }

  /** A claim that starts from no open claim leaves the one. */
  lemma FirstClaim(h: HashFn, w: World, w0: World, t: AirdropMerkleTree, n: nat, paid: nat) returns (w': World)
    requires Fresh(h, w0, t) && AfterClaims(w, w0, n, paid) && w.state.claims == map[]
    requires t.treeNodes[0].proof.Some? && n + 1 <= t.maxNumNodes && paid + t.treeNodes[0].amount <= BaseOf(t)
    ensures Next(h, w, OwnClaim(t, 0)) == w'
    ensures AfterClaims(w', w0, n + 1, paid + t.treeNodes[0].amount) && OnlyClaim(w', w0, t.treeNodes[0])
  {
    CanClaimAgain(h, w, w0, t, 0, n, paid);
    w' := Step(h, w, OwnClaim(t, 0)).value;
    var payout := ClaimsAmount(h, w, w0, t, 0, n, paid, w');
    OnlyPaid(w, w0, w', t.treeNodes[0], n, paid, payout);
  }

  lemma ThenClose(h: HashFn, w: World, w0: World, node: TreeNode, n: nat, paid: nat) returns (w': World)
    requires AfterClaims(w, w0, n, paid) && OnlyClaim(w, w0, node)
    ensures Next(h, w, CloseClaimStatus(w0.state.distributor.value.admin, node.claimant)) == w'
    ensures AfterClaims(w', w0, n, paid) && w'.state.claims == map[]
  {
    CloseOnly(h, w, node.claimant, w.state.claims[node.claimant]);
    w' := Step(h, w, CloseClaimStatus(w0.state.distributor.value.admin, node.claimant)).value;
  }

  lemma ClaimAndClose(h: HashFn, w0: World, t: AirdropMerkleTree) returns (w1: World, w2: World)
    requires Fresh(h, w0, t) && t.treeNodes[0].proof.Some? && t.treeNodes[0].amount <= BaseOf(t)
    ensures Next(h, w0, OwnClaim(t, 0)) == w1
    ensures Next(h, w1, CloseClaimStatus(w0.state.distributor.value.admin, t.treeNodes[0].claimant)) == w2
    ensures AfterClaims(w2, w0, 1, t.treeNodes[0].amount) && w2.state.claims == map[]
  {
    w1 := FirstClaim(h, w0, w0, t, 0, 0);
    w2 := ThenClose(h, w1, w0, t.treeNodes[0], 1, t.treeNodes[0].amount);
  }

  /** Claim, closing and second claim, one after another. */
  lemma ReclaimSteps(h: HashFn, w0: World, t: AirdropMerkleTree, amount: nat) returns (w: World)
    requires Fresh(h, w0, t) && t.maxNumNodes == 2 && t.treeNodes[0].proof.Some?
    requires amount == t.treeNodes[0].amount && amount + amount <= BaseOf(t)
    ensures w == Run(h, w0, Reclaim(t, w0.state.distributor.value.admin))
    ensures AfterClaims(w, w0, 1 + 1, amount + amount) && OnlyClaim(w, w0, t.treeNodes[0])
  {
    var w1, w2 := ClaimAndClose(h, w0, t);
    w := FirstClaim(h, w2, w0, t, 1, amount);
    RunOfThree(h, w0, OwnClaim(t, 0), w1, CloseClaimStatus(w0.state.distributor.value.admin, t.treeNodes[0].claimant),
               w2, OwnClaim(t, 0), w);
  }

  /**
   * In a closable distributor for two members, fully funded and never clawed back, node 0 claims, has its
   * status closed and claims again. Then node 1, which has never claimed and may, finds no place.
   */
  lemma ReclaimShutsOut(h: HashFn, w0: World, t: AirdropMerkleTree)
    requires Fresh(h, w0, t) && |t.treeNodes| == 2 && 2 * t.treeNodes[0].amount <= BaseOf(t)
    ensures t.treeNodes[0].proof.Some? && t.treeNodes[1].proof.Some?
    ensures
      var w := Run(h, w0, Reclaim(t, w0.state.distributor.value.admin));
      && Serving(h, w, t) && Funded(w) && MayClaim(w, t, 1) && !PlaceLeft(w, t)
      && Step(h, w, OwnClaim(t, 1)) == Err(MaxNodesExceeded)
  {
    assert HasProof(h, t.treeNodes, 0) && HasProof(h, t.treeNodes, 1);
    var w := ReclaimSteps(h, w0, t, t.treeNodes[0].amount);
    ServesWhileOpen(h, w0, t, Reclaim(t, w0.state.distributor.value.admin));
    RefusedForPlace(h, w, t, 1);
  }

  /** Such a distributor is what a launch without a bonus makes of a closable one. */
  lemma LaunchIsFresh(h: HashFn, t: AirdropMerkleTree, clock: Clock, p: T.Params, balance: u64)
    requires WellBuilt(h, t) && LaunchedFor(p, t) && Created(clock, p, balance).Ok?
    requires p.closable && p.totalBonus == 0 && balance >= p.maxTotalClaim && BaseOf(t) > 0
    requires p.activationPoint + p.bonusVestingDuration < U64_LIMIT
    ensures Fresh(h, Created(clock, p, balance).value, t)
  {
    LaunchEstablishes(h, t, clock, p, balance);
  }
}
