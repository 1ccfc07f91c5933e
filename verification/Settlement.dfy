/** Everybody is paid: the order in which the members come, and what others do meanwhile, do not matter. */
module Settlement {
  import opened Words
  import opened Digests
  import opened Program
  import opened AirdropMerkleTree
  import opened Lookup
  import opened Sums
  import opened Runs
  import opened RunLaws
  import opened Solvency
  import opened Payments
  import T = Transitions

  /** A funded distributor of a tree that gives out something, able to take a claim now. */
  ghost predicate Ready(h: HashFn, w: World, t: AirdropMerkleTree) {
    && TreeInv(h, w, t) && Funded(w) && BaseOf(t) > 0
    && !w.state.distributor.value.clawedBack && HandlerAt(w.state.distributor.value, w.clock).EndFits()
  }

  lemma FundedLaunchIsReady(h: HashFn, t: AirdropMerkleTree, clock: Clock, p: T.Params, balance: u64)
    requires WellBuilt(h, t) && LaunchedFor(p, t) && Created(clock, p, balance).Ok? && BaseOf(t) > 0
    requires balance >= p.maxTotalClaim && p.activationPoint + p.bonusVestingDuration < U64_LIMIT
    ensures Ready(h, Created(clock, p, balance).value, t)
  {
    LaunchEstablishes(h, t, clock, p, balance);
  }

  // ---- what a run keeps

  /** Everybody else's claims stay; a claim once opened keeps what it got and withdraws only more. */
  lemma ClaimsStay(h: HashFn, w: World, a: Action, c: Pubkey)
    requires Inv(w) && w.state.distributor.Some? && c in w.state.claims
    requires Next(h, w, a).log.closedStatuses == w.log.closedStatuses
    ensures
      var claims' := Next(h, w, a).state.claims;
      && c in claims'
      && claims'[c].unlockedAmount == w.state.claims[c].unlockedAmount
      && claims'[c].lockedAmountWithdrawn >= w.state.claims[c].lockedAmountWithdrawn
  {
    if Step(h, w, a).Ok? {
      if a.NewClaim? {
        NewClaimEffect(h, w, a.claimant, a.amountUnlocked, a.amountLocked, a.proof);
      } else if a.ClaimLocked? {
        ClaimLockedEffect(w, a.claimant);
      }
    }
  }

  lemma DepositsStay(h: HashFn, w: World, a: Action)
    ensures Next(h, w, a).log.deposited >= w.log.deposited
  {
  }

  /** Since position `k` the distributor was open, no claim status was closed, and no clawback was undone. */
  ghost predicate Since(early: World, late: World) {
    && Undisturbed(early)
    && (Funded(early) ==> Funded(late))
    && (late.state.distributor.Some? && !late.state.distributor.value.clawedBack ==>
          !early.state.distributor.value.clawedBack)
  }

  /** A run that ends undisturbed was so all along, stayed funded, and not clawed back if it is not in the end. */
  lemma {:induction false} SincePrefix(h: HashFn, w: World, actions: seq<Action>, k: nat)
    requires k <= |actions| && Undisturbed(Run(h, w, actions))
    ensures Since(Run(h, w, actions[..k]), Run(h, w, actions))
  {
    if k == |actions| {
      assert actions[..k] == actions;
    } else {
      var init, a := actions[..|actions| - 1], actions[|actions| - 1];
      assert init[..k] == actions[..k];
      UndisturbedBefore(h, Run(h, w, init), a);
      SincePrefix(h, w, init, k);
      StepKeepsTerms(h, Run(h, w, init), a);
      DepositsStay(h, Run(h, w, init), a);
    }
  }

  /** A claim keeps what it has. */
  ghost predicate Keeps(w: World, w': World, c: Pubkey) {
    c in w.state.claims ==>
      && c in w'.state.claims
      && w'.state.claims[c].unlockedAmount == w.state.claims[c].unlockedAmount
      && w'.state.claims[c].lockedAmountWithdrawn >= w.state.claims[c].lockedAmountWithdrawn
  }

  lemma {:induction false} KeepsThroughout(h: HashFn, w: World, actions: seq<Action>, k: nat, c: Pubkey)
    requires Inv(w) && k <= |actions| && Undisturbed(Run(h, w, actions))
    ensures Keeps(Run(h, w, actions[..k]), Run(h, w, actions), c)
  {
    if k == |actions| {
      assert actions[..k] == actions;
    } else {
      var init, a := actions[..|actions| - 1], actions[|actions| - 1];
      assert init[..k] == actions[..k];
      UndisturbedBefore(h, Run(h, w, init), a);
      KeepsThroughout(h, w, init, k, c);
      EveryRunKeeps(h, w, init);
      if c in Run(h, w, init).state.claims {
        ClaimsStay(h, Run(h, w, init), a, c);
      }
    }
  }

  lemma RunOneMore(h: HashFn, w: World, actions: seq<Action>, k: nat)
    requires k < |actions|
    ensures Run(h, w, actions[..k + 1]) == Next(h, Run(h, w, actions[..k]), actions[k])
  {
    assert actions[..k + 1][..k] == actions[..k];
  }

  /** After any run that closes nothing the distributor can take a claim, but for a clawback or the end point. */
  lemma ReadyThroughout(h: HashFn, w: World, t: AirdropMerkleTree, actions: seq<Action>)
    requires TreeInv(h, w, t) && Funded(w) && BaseOf(t) > 0 && CollisionFree(h, RunStrings(h, t, actions))
    requires !w.state.distributor.value.closable || Undisturbed(Run(h, w, actions))
    ensures
      var w' := Run(h, w, actions);
      && TreeInv(h, w', t) && Funded(w')
      && (Ready(h, w', t)
          <==> !w'.state.distributor.value.clawedBack && HandlerAt(w'.state.distributor.value, w'.clock).EndFits())
  {
    RunServesTree(h, w, t, actions);
    SincePrefix(h, w, actions, 0);
    assert actions[..0] == [];
  }

  // ---- one member

  /** Node `j` has everything the tree assigns to it. */
  predicate PaidInFull(w: World, t: AirdropMerkleTree, j: nat)
    requires j < |t.treeNodes|
  {
    var node := t.treeNodes[j];
    && node.claimant in w.state.claims
    && w.state.claims[node.claimant].unlockedAmount >= node.amount
    && w.state.claims[node.claimant].lockedAmountWithdrawn >= node.lockedAmount
  }

  /** Sending node `j`'s own claim opens it, or finds it open. */
  lemma ClaimOpens(h: HashFn, w: World, t: AirdropMerkleTree, j: nat)
    requires Ready(h, w, t) && j < |t.treeNodes| && t.treeNodes[j].proof.Some?
    ensures t.treeNodes[j].claimant in Next(h, w, OwnClaim(t, j)).state.claims
  {
    var c := t.treeNodes[j].claimant;
    if c in w.state.claims {
      ClaimsStay(h, w, OwnClaim(t, j), c);
    } else {
      UndisturbedCanClaim(h, w, t, j);
      var _ := ClaimPays(h, w, t.treeNodes[j], t.treeNodes[j].proof.value, Step(h, w, OwnClaim(t, j)).value);
    }
  }

  /** A distributor that is not clawed back, with all locked amounts vested. */
  predicate FullyVested(w: World) {
    w.state.distributor.Some? ==>
      !w.state.distributor.value.clawedBack && w.clock.unixTimestamp >= w.state.distributor.value.endTs
  }

  /** A withdrawal after the end of vesting leaves nothing due, whether or not it had anything to move. */
  lemma WithdrawalCompletes(h: HashFn, w: World, t: AirdropMerkleTree, j: nat)
    requires TreeInv(h, w, t) && Funded(w) && FullyVested(w)
    requires j < |t.treeNodes| && t.treeNodes[j].claimant in w.state.claims
    ensures PaidInFull(Next(h, w, ClaimLocked(t.treeNodes[j].claimant)), t, j)
  {
    var d, c := w.state.distributor.value, t.treeNodes[j].claimant;
    var now, status := w.clock.unixTimestamp, w.state.claims[c];
    ToMapFinds(t.treeNodes, j);
    WithdrawnWithinVested(w, c);
    UndisturbedCanWithdraw(h, w, t, c);
    status.VestedLaws(now, now, d.startTs, d.endTs);
    if Step(h, w, ClaimLocked(c)).Ok? {
      LockedClaimReachesVested(h, w, c);
    }
  }

  /** The tree, the funds and the strings of a run that ends undisturbed. */
  ghost predicate Course(h: HashFn, w: World, t: AirdropMerkleTree, actions: seq<Action>, s: set<Bytes>) {
    && TreeInv(h, w, t) && Undisturbed(Run(h, w, actions)) && BaseOf(t) > 0
    && HashedSafely(h, t, actions, s)
  }

  lemma TreeAt(h: HashFn, w: World, t: AirdropMerkleTree, actions: seq<Action>, s: set<Bytes>, k: nat)
    requires Course(h, w, t, actions, s) && k <= |actions|
    ensures TreeInv(h, Run(h, w, actions[..k]), t) && Course(h, w, t, actions[..k], s)
  {
    SincePrefix(h, w, actions, k);
    EveryRunServesTree(h, w, t, actions[..k], s);
  }

  /** The bonus vesting of an open distributor ends within 64 bits. */
  predicate EndInRange(w: World) {
    w.state.distributor.Some? ==> HandlerAt(w.state.distributor.value, w.clock).EndFits()
  }

  /** Once node `j`'s own claim has been sent, its claim is open. */
  lemma ClaimedAfter(
    h: HashFn, w: World, t: AirdropMerkleTree, actions: seq<Action>, s: set<Bytes>, j: nat, p: nat)
    requires Course(h, w, t, actions, s) && j < |t.treeNodes| && t.treeNodes[j].proof.Some?
    requires p < |actions| && actions[p] == OwnClaim(t, j)
    requires Funded(Run(h, w, actions[..p])) && EndInRange(Run(h, w, actions[..p]))
    requires !Run(h, w, actions).state.distributor.value.clawedBack
    ensures t.treeNodes[j].claimant in Run(h, w, actions).state.claims
  {
    TreeAt(h, w, t, actions, s, p);
    SincePrefix(h, w, actions, p);
    RunOneMore(h, w, actions, p);
    ClaimOpens(h, Run(h, w, actions[..p]), t, j);
    KeepsThroughout(h, w, actions, p + 1, t.treeNodes[j].claimant);
  }

  /** A withdrawal of an open claim after the end of vesting pays in full, and for good. */
  lemma PaidAfter(
    h: HashFn, w: World, t: AirdropMerkleTree, actions: seq<Action>, s: set<Bytes>, j: nat, q: nat)
    requires Course(h, w, t, actions, s) && j < |t.treeNodes|
    requires q < |actions| && actions[q] == ClaimLocked(t.treeNodes[j].claimant)
    requires t.treeNodes[j].claimant in Run(h, w, actions[..q]).state.claims
    requires Funded(Run(h, w, actions[..q])) && FullyVested(Run(h, w, actions[..q]))
    ensures PaidInFull(Run(h, w, actions), t, j)
  {
    TreeAt(h, w, t, actions, s, q);
    WithdrawalCompletes(h, Run(h, w, actions[..q]), t, j);
    RunOneMore(h, w, actions, q);
    KeepsThroughout(h, w, actions, q + 1, t.treeNodes[j].claimant);
  }

  /**
   * Any interleaving pays: let a member's own claim come anywhere in a run that closes nothing, when the
   * vault has been funded and the bonus vesting ends within 64 bits; and after it a withdrawal, at or
   * after the end of vesting and before any clawback. Then the member has its whole amount when the run is
   * over, whoever else does what before, between and after, the admin and a clawback included.
   */
  lemma AnyInterleavingPays(
    h: HashFn, w: World, t: AirdropMerkleTree, actions: seq<Action>, j: nat, p: nat, q: nat)
    requires TreeInv(h, w, t) && BaseOf(t) > 0 && CollisionFree(h, RunStrings(h, t, actions))
    requires !w.state.distributor.value.closable || Undisturbed(Run(h, w, actions))
    requires j < |t.treeNodes| && t.treeNodes[j].proof.Some? && p < q < |actions|
    requires actions[p] == OwnClaim(t, j) && actions[q] == ClaimLocked(t.treeNodes[j].claimant)
    requires Funded(Run(h, w, actions[..p])) && EndInRange(Run(h, w, actions[..p]))
    requires FullyVested(Run(h, w, actions[..q]))
    ensures PaidInFull(Run(h, w, actions), t, j)
  {
    var s, upToQ := RunStrings(h, t, actions), actions[..q];
    if !w.state.distributor.value.closable {
      NonClosableUndisturbed(h, w, actions);
    }
    RunStringsCover(h, t, actions, s);
    TreeAt(h, w, t, actions, s, q);
    assert upToQ[..p] == actions[..p];
    SincePrefix(h, w, upToQ, p);
    ClaimedAfter(h, w, t, upToQ, s, j, p);
    PaidAfter(h, w, t, actions, s, j, q);
  }

  // ---- when everybody has been paid

  /** A claim in full is the node's two amounts and the bonus. */
  lemma FullClaim(h: HashFn, w: World, t: AirdropMerkleTree, j: nat)
    requires TreeInv(h, w, t) && j < |t.treeNodes| && PaidInFull(w, t, j)
    ensures
      var c, members := t.treeNodes[j].claimant, ToMap(t.treeNodes);
      && c in members && c in Bonuses(w.state.claims, members)
      && w.state.claims[c].Received() == Bonuses(w.state.claims, members)[c] + Due(0, 0)(members[c])
  {
    ToMapFinds(t.treeNodes, j);
  }

  /** The same for the maps. */
  lemma FullClaims(h: HashFn, w: World, t: AirdropMerkleTree)
    requires TreeInv(h, w, t) && forall j :: 0 <= j < |t.treeNodes| ==> PaidInFull(w, t, j)
    ensures
      var claims, members := w.state.claims, ToMap(t.treeNodes);
      Sum(Payouts(claims)) == Sum(Bonuses(claims, members)) + Sum(MapBy(members, Due(0, 0)))
  {
    var claims, members := w.state.claims, ToMap(t.treeNodes);
    forall c | c in members
      ensures c in claims && c in Bonuses(claims, members)
      ensures claims[c].Received() == Bonuses(claims, members)[c] + Due(0, 0)(members[c])
    {
      ToMapKeys(t.treeNodes, c);
      var j :| 0 <= j < |t.treeNodes| && t.treeNodes[j].claimant == c;
      FullClaim(h, w, t, j);
    }
    SumOfSums(Bonuses(claims, members), MapBy(members, Due(0, 0)), Payouts(claims));
  }

  /**
   * Once everybody is paid in full, exactly the amounts of the tree and the claimed bonuses have been
   * paid out; the rest of all deposits is in the vault or was clawed back.
   */
  lemma SettledExactly(h: HashFn, w: World, t: AirdropMerkleTree)
    requires TreeInv(h, w, t) && forall j :: 0 <= j < |t.treeNodes| ==> PaidInFull(w, t, j)
    ensures
      var bonuses := w.state.distributor.value.airdropBonus.totalClaimedBonus;
      && w.log.paid == BaseOf(t) + bonuses
      && w.state.vault + w.log.clawedBack == w.log.deposited - BaseOf(t) - bonuses
  {
    FullClaims(h, w, t);
    SumOverMap(t.treeNodes, Due(0, 0));
    DueSplits(t.treeNodes, 0, 0);
    NoBaseNoBonuses(t.treeNodes, 0);
  }
}
