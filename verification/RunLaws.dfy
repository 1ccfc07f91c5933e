/** Consequences over whole runs: the terms never change, vesting is exact, clawback is final. */
module RunLaws {
  import opened Words
  import opened Digests
  import opened Program
  import opened Distributor
  import opened Runs
  import T = Transitions

  // ---- the terms of a distribution

  /** Everything fixed at creation. */
  ghost predicate SameTerms(d: MerkleDistributor, d': MerkleDistributor) {
    && d'.root == d.root && d'.maxTotalClaim == d.maxTotalClaim && d'.maxNumNodes == d.maxNumNodes
    && d'.startTs == d.startTs && d'.endTs == d.endTs && d'.clawbackStartTs == d.clawbackStartTs
    && d'.closable == d.closable && d'.activationType == d.activationType && d'.tokenVault == d.tokenVault
    && d'.version == d.version
    && d'.airdropBonus.totalBonus == d.airdropBonus.totalBonus
    && d'.airdropBonus.vestingDuration == d.airdropBonus.vestingDuration
  }

  lemma StepKeepsTerms(h: HashFn, w: World, a: Action)
    requires w.state.distributor.Some? && Next(h, w, a).state.distributor.Some?
    ensures SameTerms(w.state.distributor.value, Next(h, w, a).state.distributor.value)
    ensures w.clock.unixTimestamp <= Next(h, w, a).clock.unixTimestamp
    ensures w.state.distributor.value.clawedBack ==> Next(h, w, a).state.distributor.value.clawedBack
  {
    if Step(h, w, a).Ok? {
      if a.NewClaim? {
        NewClaimEffect(h, w, a.claimant, a.amountUnlocked, a.amountLocked, a.proof);
      } else if a.ClaimLocked? {
        ClaimLockedEffect(w, a.claimant);
      }
    }
  }

  lemma ClosedStaysClosed(h: HashFn, w: World, a: Action)
    requires Next(h, w, a).state.distributor.Some?
    ensures w.state.distributor.Some?
  {
  }

  /** As long as the distributor is open it has the terms it began with. */
  lemma {:induction false} RunKeepsTerms(h: HashFn, w: World, actions: seq<Action>)
    requires w.state.distributor.Some? && Run(h, w, actions).state.distributor.Some?
    ensures SameTerms(w.state.distributor.value, Run(h, w, actions).state.distributor.value)
  {
    if actions != [] {
      var init, a := actions[..|actions| - 1], actions[|actions| - 1];
      ClosedStaysClosed(h, Run(h, w, init), a);
      RunKeepsTerms(h, w, init);
      StepKeepsTerms(h, Run(h, w, init), a);
    }
  }

  /** A closed claim status stays counted as such. */
  lemma ClosedStatusesGrow(h: HashFn, w: World, a: Action)
    ensures w.log.closedStatuses <= Next(h, w, a).log.closedStatuses
  {
  }

  // ---- the admin

  /** Who has to sign an action as the admin. */
  function AdminSigner(a: Action): Option<Pubkey> {
    match a
    case CloseDistributor(signer, _) => Some(signer)
    case SetActivationPoint(signer, _) => Some(signer)
    case SetAdmin(signer, _) => Some(signer)
    case SetClawbackReceiver(signer, _) => Some(signer)
    case _ => None
  }

  /** Only the admin of the moment closes the distributor or changes what an admin can change. */
  lemma OnlyAdminChanges(h: HashFn, w: World, a: Action)
    requires w.state.distributor.Some?
    requires
      var d, after := w.state.distributor.value, Next(h, w, a).state.distributor;
      after.None? || after.value.admin != d.admin || after.value.activationPoint != d.activationPoint
      || after.value.clawbackReceiver != d.clawbackReceiver
    ensures AdminSigner(a) == Some(w.state.distributor.value.admin)
  {
    if Step(h, w, a).Ok? {
      if a.NewClaim? {
        NewClaimEffect(h, w, a.claimant, a.amountUnlocked, a.amountLocked, a.proof);
        assert false;
      } else if a.ClaimLocked? {
        ClaimLockedEffect(w, a.claimant);
        assert false;
      }
    }
  }

  /** `k` is not the admin, if there is a distributor at all. */
  predicate NotAdmin(w: World, k: Pubkey) {
    w.state.distributor.Some? ==> w.state.distributor.value.admin != k
  }

  lemma StaysOut(h: HashFn, w: World, k: Pubkey, a: Action)
    requires NotAdmin(w, k) && (a.SetAdmin? ==> a.newAdmin != k)
    ensures NotAdmin(Next(h, w, a), k)
  {
    if Step(h, w, a).Ok? {
      if a.NewClaim? {
        NewClaimEffect(h, w, a.claimant, a.amountUnlocked, a.amountLocked, a.proof);
      } else if a.ClaimLocked? {
        ClaimLockedEffect(w, a.claimant);
      }
    }
  }

  lemma {:induction false} StaysOutThroughout(h: HashFn, w: World, k: Pubkey, actions: seq<Action>)
    requires NotAdmin(w, k) && forall a :: a in actions && a.SetAdmin? ==> a.newAdmin != k
    ensures NotAdmin(Run(h, w, actions), k)
  {
    if actions != [] {
      StaysOutThroughout(h, w, k, actions[..|actions| - 1]);
      StaysOut(h, Run(h, w, actions[..|actions| - 1]), k, actions[|actions| - 1]);
    }
  }

  /**
   * Once the admin has handed over, nothing it signs as the admin succeeds any more, however many
   * actions follow, until somebody makes it the admin again.
   */
  lemma HandOver(h: HashFn, w: World, former: Pubkey, next: Pubkey, actions: seq<Action>, a: Action)
    requires Step(h, w, SetAdmin(former, next)).Ok? && AdminSigner(a) == Some(former)
    requires forall b :: b in actions && b.SetAdmin? ==> b.newAdmin != former
    ensures Step(h, Run(h, Step(h, w, SetAdmin(former, next)).value, actions), a).Err?
  {
    var w' := Step(h, w, SetAdmin(former, next)).value;
    assert NotAdmin(w', former);
    StaysOutThroughout(h, w', former, actions);
    OutsiderFails(h, Run(h, w', actions), former, a);
  }

  lemma OutsiderFails(h: HashFn, w: World, k: Pubkey, a: Action)
    requires NotAdmin(w, k) && AdminSigner(a) == Some(k)
    ensures Step(h, w, a).Err?
  {
  }

  /** The claim of `c` is open, to be closed by `admin` if at all. */
  predicate ClosedBy(w: World, c: Pubkey, admin: Pubkey, closable: bool) {
    c in w.state.claims && w.state.claims[c].admin == admin && w.state.claims[c].closable == closable
  }

  lemma StaysClosedBy(h: HashFn, w: World, c: Pubkey, admin: Pubkey, closable: bool, a: Action)
    requires ClosedBy(w, c, admin, closable) && (closable ==> a != CloseClaimStatus(admin, c))
    ensures ClosedBy(Next(h, w, a), c, admin, closable)
  {
    if Step(h, w, a).Ok? {
      if a.NewClaim? {
        NewClaimEffect(h, w, a.claimant, a.amountUnlocked, a.amountLocked, a.proof);
      } else if a.ClaimLocked? {
        ClaimLockedEffect(w, a.claimant);
      }
    }
  }

  lemma {:induction false} StaysClosedByThroughout(
    h: HashFn, w: World, c: Pubkey, admin: Pubkey, closable: bool, actions: seq<Action>)
    requires ClosedBy(w, c, admin, closable) && (closable ==> CloseClaimStatus(admin, c) !in actions)
    ensures ClosedBy(Run(h, w, actions), c, admin, closable)
  {
    if actions != [] {
      StaysClosedByThroughout(h, w, c, admin, closable, actions[..|actions| - 1]);
      StaysClosedBy(h, Run(h, w, actions[..|actions| - 1]), c, admin, closable, actions[|actions| - 1]);
    }
  }

  /**
   * A claim is closed by the admin of the time of the claim and by nobody else, whoever becomes admin
   * afterwards and whatever else happens.
   */
  lemma ClaimKeepsItsAdmin(
    h: HashFn, w: World, c: Pubkey, unlocked: u64, locked: u64, proof: seq<Digest>, actions: seq<Action>,
    signer: Pubkey)
    requires Step(h, w, NewClaim(c, unlocked, locked, proof)).Ok?
    ensures w.state.distributor.Some?
    ensures
      var d, w' := w.state.distributor.value, Step(h, w, NewClaim(c, unlocked, locked, proof)).value;
      (d.closable ==> CloseClaimStatus(d.admin, c) !in actions) ==>
        (Step(h, Run(h, w', actions), CloseClaimStatus(signer, c)).Ok? <==> signer == d.admin && d.closable)
  {
    NewClaimEffect(h, w, c, unlocked, locked, proof);
    var d, w' := w.state.distributor.value, Step(h, w, NewClaim(c, unlocked, locked, proof)).value;
    assert ClosedBy(w', c, d.admin, d.closable);
    if d.closable ==> CloseClaimStatus(d.admin, c) !in actions {
      StaysClosedByThroughout(h, w', c, d.admin, d.closable, actions);
      ClosingOutcome(h, Run(h, w', actions), c, d.admin, d.closable, signer);
    }
  }

  lemma ClosingOutcome(h: HashFn, w: World, c: Pubkey, admin: Pubkey, closable: bool, signer: Pubkey)
    requires ClosedBy(w, c, admin, closable)
    ensures Step(h, w, CloseClaimStatus(signer, c)).Ok? <==> signer == admin && closable
  {
  }

  // ---- vesting

  /** In a reachable state a claim has never withdrawn more than is vested now. */
  lemma WithdrawnWithinVested(w: World, c: Pubkey)
    requires Inv(w) && w.state.distributor.Some? && c in w.state.claims
    ensures
      var d, status := w.state.distributor.value, w.state.claims[c];
      status.lockedAmountWithdrawn <= status.Vested(w.clock.unixTimestamp, d.startTs, d.endTs) <= status.lockedAmount
  {
    var d, status := w.state.distributor.value, w.state.claims[c];
    assert VestedAsOfLast(w, d, c);
    var last := if c in w.log.lastVest then w.log.lastVest[c] else w.clock.unixTimestamp;
    status.VestedLaws(last, w.clock.unixTimestamp, d.startTs, d.endTs);
  }

  /** The arithmetic of a vesting under way works when its length is an `i64`. */
  predicate VestingFits(w: World, d: MerkleDistributor) {
    w.clock.unixTimestamp < d.startTs || w.clock.unixTimestamp >= d.endTs || d.endTs - d.startTs <= I64_MAX
  }

  /** So what is withdrawable is the difference: the subtraction never underflows. */
  lemma WithdrawableExact(w: World, c: Pubkey)
    requires Inv(w) && w.state.distributor.Some? && c in w.state.claims
    ensures
      var d, status, now := w.state.distributor.value, w.state.claims[c], w.clock.unixTimestamp;
      status.AmountWithdrawable(now, d.startTs, d.endTs)
      == if VestingFits(w, d) then Ok(status.Vested(now, d.startTs, d.endTs) - status.lockedAmountWithdrawn)
         else Err(ArithmeticError)
  {
    var d, status := w.state.distributor.value, w.state.claims[c];
    WithdrawnWithinVested(w, c);
    status.UnlockedAmountExact(w.clock.unixTimestamp, d.startTs, d.endTs);
  }

  /**
   * Vesting does not depend on history: a successful locked claim brings the withdrawals to exactly
   * what is vested at its time, which at or after the end is the whole locked amount.
   */
  lemma LockedClaimReachesVested(h: HashFn, w: World, c: Pubkey)
    requires Inv(w) && Step(h, w, ClaimLocked(c)).Ok?
    ensures w.state.distributor.Some? && c in w.state.claims
    ensures
      var d, now := w.state.distributor.value, w.clock.unixTimestamp;
      var w' := Step(h, w, ClaimLocked(c)).value;
      && c in w'.state.claims
      && var before, after := w.state.claims[c], w'.state.claims[c];
        && after == before.(lockedAmountWithdrawn := after.lockedAmountWithdrawn)
        && after.lockedAmountWithdrawn == before.Vested(now, d.startTs, d.endTs)
        && after.lockedAmountWithdrawn > before.lockedAmountWithdrawn
        && (now >= d.endTs ==> after.lockedAmountWithdrawn == before.lockedAmount)
  {
    ClaimLockedEffect(w, c);
    WithdrawableExact(w, c);
  }

  /**
   * When a locked claim succeeds. The check of the withdrawals against the locked amount plays no part:
   * it cannot fire.
   */
  lemma LockedClaimOutcome(w: World, c: Pubkey)
    requires Inv(w) && w.state.distributor.Some? && c in w.state.claims
    ensures
      var d, status, now := w.state.distributor.value, w.state.claims[c], w.clock.unixTimestamp;
      var due := status.Vested(now, d.startTs, d.endTs) - status.lockedAmountWithdrawn;
      T.ClaimLocked(w.state, w.clock, c).Ok?
      <==> !d.clawedBack && VestingFits(w, d) && 0 < due <= w.state.vault
           && d.totalAmountClaimed + due <= d.maxTotalClaim
  {
    WithdrawnWithinVested(w, c);
    WithdrawableExact(w, c);
  }

  // ---- clawback

  /** Nothing that counts has changed since, statuses that were closed aside. */
  ghost predicate Frozen(w: World, w': World) {
    w'.state.distributor.Some? ==>
      && w.state.distributor.Some?
      && w'.state.distributor.value.clawedBack
      && w'.state.distributor.value.totalAmountClaimed == w.state.distributor.value.totalAmountClaimed
      && w'.state.distributor.value.numNodesClaimed == w.state.distributor.value.numNodesClaimed
      && w'.log.paid == w.log.paid && w'.log.clawedBack == w.log.clawedBack
      && forall c :: c in w'.state.claims ==> c in w.state.claims && w'.state.claims[c] == w.state.claims[c]
  }

  /** After a clawback no run changes a counter or a claim, or pays anyone. */
  lemma {:induction false} ClawbackIsFinal(h: HashFn, w: World, actions: seq<Action>)
    requires w.state.distributor.Some? && w.state.distributor.value.clawedBack
    ensures Frozen(w, Run(h, w, actions))
  {
    if actions != [] {
      var mid, a := Run(h, w, actions[..|actions| - 1]), actions[|actions| - 1];
      ClawbackIsFinal(h, w, actions[..|actions| - 1]);
      FrozenStep(h, w, mid, a);
    }
  }

  lemma FrozenStep(h: HashFn, w: World, mid: World, a: Action)
    requires w.state.distributor.Some? && w.state.distributor.value.clawedBack && Frozen(w, mid)
    ensures Frozen(w, Next(h, mid, a))
  {
    if Next(h, mid, a).state.distributor.Some? {
      ClosedStaysClosed(h, mid, a);
      if Step(h, mid, a).Ok? && a.NewClaim? {
        NewClaimEffect(h, mid, a.claimant, a.amountUnlocked, a.amountLocked, a.proof);
        assert false;
      } else if Step(h, mid, a).Ok? && a.ClaimLocked? {
        ClaimLockedEffect(mid, a.claimant);
        assert false;
      }
    }
  }

  /** A clawback takes everything, unless the receiver is the vault itself. */
  lemma ClawbackEmptiesVault(h: HashFn, w: World)
    requires Step(h, w, Clawback).Ok?
    ensures w.state.distributor.Some?
    ensures
      var d, w' := w.state.distributor.value, Step(h, w, Clawback).value;
      && (w'.state.vault == 0 <==> d.clawbackReceiver != d.tokenVault || w.state.vault == 0)
      && w'.log.clawedBack - w.log.clawedBack == w.state.vault - w'.state.vault
      && w.clock.unixTimestamp >= d.clawbackStartTs
  {
  }

  function Clawbacks(h: HashFn, w: World, actions: seq<Action>): nat {
    if actions == [] then 0
    else
      var init, a := actions[..|actions| - 1], actions[|actions| - 1];
      Clawbacks(h, w, init) + if a.Clawback? && Step(h, Run(h, w, init), a).Ok? then 1 else 0
  }

  /** At most one clawback succeeds, never before the end of vesting, and it shows in the flag. */
  lemma {:induction false} ClawbackOnce(h: HashFn, w: World, actions: seq<Action>)
    requires Inv(w) && w.state.distributor.Some? && !w.state.distributor.value.clawedBack
    ensures Clawbacks(h, w, actions) <= 1
    ensures
      var w' := Run(h, w, actions);
      w'.state.distributor.Some? ==>
        && (w'.state.distributor.value.clawedBack <==> Clawbacks(h, w, actions) == 1)
        && (w'.state.distributor.value.clawedBack ==> w'.clock.unixTimestamp >= w'.state.distributor.value.endTs)
  {
    EveryRunKeeps(h, w, actions);
    if actions != [] {
      var init, a := actions[..|actions| - 1], actions[|actions| - 1];
      var mid := Run(h, w, init);
      ClawbackOnce(h, w, init);
      ClawbackStep(h, mid, a);
    }
  }

  lemma ClawbackStep(h: HashFn, mid: World, a: Action)
    ensures
      var w' := Next(h, mid, a);
      && (w'.state.distributor.Some? ==> mid.state.distributor.Some?)
      && (w'.state.distributor.Some? ==>
            (w'.state.distributor.value.clawedBack
             <==> mid.state.distributor.value.clawedBack || (a.Clawback? && Step(h, mid, a).Ok?)))
      && (a.Clawback? && Step(h, mid, a).Ok? ==>
            mid.state.distributor.Some? && !mid.state.distributor.value.clawedBack)
  {
    if Step(h, mid, a).Ok? {
      if a.NewClaim? {
        NewClaimEffect(h, mid, a.claimant, a.amountUnlocked, a.amountLocked, a.proof);
      } else if a.ClaimLocked? {
        ClaimLockedEffect(mid, a.claimant);
      }
    }
  }
}
