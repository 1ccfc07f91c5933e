/**
 * What a created distributor holds, when each instruction succeeds, with which error it fails, and what
 * the settings of a distributor are after a run. Everything is said of the steps themselves.
 */
module Outcomes {
  import opened Words
  import opened Digests
  import opened Program
  import opened Runs
  import opened RunLaws
  import T = Transitions

  // ---- creation

  /** Every field of a new distributor is its parameter, a counter at 0, or not clawed back. */
  lemma CreationFields(s: T.State, clock: Clock, p: T.Params)
    requires T.NewDistributor(s, clock, p).Ok?
    ensures T.NewDistributor(s, clock, p).value.distributor.Some?
    ensures
      var after := T.NewDistributor(s, clock, p).value;
      var d := after.distributor.value;
      && after.claims == s.claims && after.vault == s.vault
      && d.version == p.version && d.root == p.root && d.tokenVault == p.tokenVault
      && d.maxTotalClaim == p.maxTotalClaim && d.maxNumNodes == p.maxNumNodes
      && d.totalAmountClaimed == 0 && d.numNodesClaimed == 0 && !d.clawedBack
      && d.startTs == p.startVestingTs && d.endTs == p.endVestingTs && d.clawbackStartTs == p.clawbackStartTs
      && d.clawbackReceiver == p.clawbackReceiver && d.admin == p.admin && d.closable == p.closable
      && d.activationPoint == p.activationPoint && d.activationType == p.activationType
      && d.airdropBonus.totalBonus == p.totalBonus
      && d.airdropBonus.vestingDuration == p.bonusVestingDuration
      && d.airdropBonus.totalClaimedBonus == 0
  {
  }

  /** A creation succeeds in just one case, and each of the others has its own error. */
  lemma CreationErrors(s: T.State, clock: Clock, p: T.Params)
    ensures
      var r, now := T.NewDistributor(s, clock, p), clock.unixTimestamp;
      var start, end := p.startVestingTs, p.endVestingTs;
      && (r == Err(AccountAlreadyInUse) <==> s.distributor.Some?)
      && (r == Err(StartTimestampAfterEnd) <==> s.distributor.None? && start >= end)
      && (r == Err(TimestampsNotInFuture) <==> s.distributor.None? && start < end && start <= now)
      && (r == Err(ClawbackDuringVesting) <==> s.distributor.None? && now < start < end && p.clawbackStartTs < end)
      && (r == Err(InvalidActivationType)
          <==> s.distributor.None? && now < start < end <= p.clawbackStartTs && p.activationType > 1)
      && (r.Ok? <==> s.distributor.None? && now < start < end <= p.clawbackStartTs && p.activationType <= 1)
  {
  }

  /** With a bonus it is the creation with the two totals added up, which may not leave 64 bits. */
  lemma CreationWithBonus(s: T.State, clock: Clock, p: T.Params, totalClaim: u64)
    ensures
      var r, max := T.NewDistributor2(s, clock, p, totalClaim), totalClaim + p.totalBonus;
      if s.distributor.None? && max > 0xffff_ffff_ffff_ffff then r == Err(ArithmeticError)
      else if s.distributor.Some? then r == Err(AccountAlreadyInUse)
      else r == T.NewDistributor(s, clock, p.(maxTotalClaim := max))
  {
  }

  // ---- clawback and closing

  /** A clawback succeeds exactly when there was none and its time has come. */
  lemma ClawbackExactly(h: HashFn, w: World)
    requires w.state.distributor.Some?
    ensures
      var d, r := w.state.distributor.value, Step(h, w, Clawback);
      && (r.Ok? <==> !d.clawedBack && w.clock.unixTimestamp >= d.clawbackStartTs)
      && (r == Err(ClawbackAlreadyClaimed) <==> d.clawedBack)
      && (r == Err(ClawbackBeforeStart) <==> !d.clawedBack && w.clock.unixTimestamp < d.clawbackStartTs)
      && (r.Ok? ==>
            r.value.state.distributor == Some(d.(clawedBack := true)) && r.value.state.claims == w.state.claims)
  {
  }

  /** A distributor is closed exactly by its admin, when it is closable; its claims stay. */
  lemma ClosingExactly(h: HashFn, w: World, signer: Pubkey, destination: Pubkey)
    requires w.state.distributor.Some?
    ensures
      var d, r := w.state.distributor.value, Step(h, w, CloseDistributor(signer, destination));
      && (r.Ok? <==> signer == d.admin && d.closable)
      && (r == Err(ConstraintHasOne) <==> signer != d.admin)
      && (r == Err(CannotCloseDistributor) <==> signer == d.admin && !d.closable)
      && (r.Ok? ==>
            && r.value.state.distributor == None && r.value.state.claims == w.state.claims
            && r.value.state.vault == if destination == d.tokenVault then w.state.vault else 0)
  {
  }

  /** A claim status is closed exactly by the admin it names, when it is closable; all others stay. */
  lemma StatusClosingExactly(h: HashFn, w: World, signer: Pubkey, c: Pubkey)
    ensures
      var r := Step(h, w, CloseClaimStatus(signer, c));
      && (r.Ok? <==> c in w.state.claims && signer == w.state.claims[c].admin && w.state.claims[c].closable)
      && (r == Err(AccountNotInitialized) <==> c !in w.state.claims)
      && (r == Err(ConstraintHasOne) <==> c in w.state.claims && signer != w.state.claims[c].admin)
      && (r == Err(CannotCloseClaimStatus)
          <==> c in w.state.claims && signer == w.state.claims[c].admin && !w.state.claims[c].closable)
      && (r.Ok? ==> r.value.state == w.state.(claims := map k | k in w.state.claims && k != c :: w.state.claims[k]))
  {
    assert w.state.claims - {c} == map k | k in w.state.claims && k != c :: w.state.claims[k];
  }

  /** Without a distributor nothing can be claimed, clawed back, closed or set. */
  lemma NothingWithoutDistributor(h: HashFn, w: World, a: Action)
    requires w.state.distributor.None? && !a.CloseClaimStatus? && !a.Deposit? && !a.Tick?
    ensures Step(h, w, a) == Err(AccountNotInitialized)
  {
  }

  // ---- settings

  /** The activation point is set exactly by the admin, to the argument. */
  lemma PointSetExactly(h: HashFn, w: World, signer: Pubkey, point: u64)
    requires w.state.distributor.Some?
    ensures
      var d, r := w.state.distributor.value, Step(h, w, SetActivationPoint(signer, point));
      && (r.Ok? <==> signer == d.admin)
      && (r.Err? ==> r.error == ConstraintHasOne)
      && (r.Ok? ==> r.value.state == w.state.(distributor := Some(d.(activationPoint := point))))
  {
  }

  /** The admin is set exactly by the admin, to another one, the argument. */
  lemma AdminSetExactly(h: HashFn, w: World, signer: Pubkey, newAdmin: Pubkey)
    requires w.state.distributor.Some?
    ensures
      var d, r := w.state.distributor.value, Step(h, w, SetAdmin(signer, newAdmin));
      && (r.Ok? <==> signer == d.admin && newAdmin != d.admin)
      && (r == Err(Unauthorized) <==> signer != d.admin)
      && (r == Err(SameAdmin) <==> signer == d.admin == newAdmin)
      && (r.Ok? ==> r.value.state == w.state.(distributor := Some(d.(admin := newAdmin))))
  {
  }

  /** The clawback receiver is set exactly by the admin, to another one, the argument. */
  lemma ReceiverSetExactly(h: HashFn, w: World, signer: Pubkey, receiver: Pubkey)
    requires w.state.distributor.Some?
    ensures
      var d, r := w.state.distributor.value, Step(h, w, SetClawbackReceiver(signer, receiver));
      && (r.Ok? <==> signer == d.admin && receiver != d.clawbackReceiver)
      && (r == Err(Unauthorized) <==> signer != d.admin)
      && (r == Err(SameClawbackReceiver) <==> signer == d.admin && receiver == d.clawbackReceiver)
      && (r.Ok? ==> r.value.state == w.state.(distributor := Some(d.(clawbackReceiver := receiver))))
  {
  }

  /** A deposit succeeds exactly when the balance stays within 64 bits, and adds its amount to it. */
  lemma DepositExactly(h: HashFn, w: World, amount: u64)
    ensures
      var r := Step(h, w, Deposit(amount));
      && (r.Ok? <==> w.state.vault + amount <= 0xffff_ffff_ffff_ffff)
      && (r.Err? ==> r.error == TokenOverflow)
      && (r.Ok? ==> r.value.state == w.state.(vault := w.state.vault + amount)
                    && r.value.log == w.log.(deposited := w.log.deposited + amount))
  {
  }

  /** The clock advances by as much as asked for, as long as it fits. */
  lemma TickExactly(h: HashFn, w: World, slots: nat, seconds: nat)
    ensures
      var r := Step(h, w, Tick(slots, seconds));
      && (r.Ok? <==> w.clock.slot + slots <= 0xffff_ffff_ffff_ffff
                     && w.clock.unixTimestamp + seconds <= 0x7fff_ffff_ffff_ffff)
      && (r.Ok? ==> r.value.state == w.state && r.value.log == w.log
                    && r.value.clock.slot == w.clock.slot + slots
                    && r.value.clock.unixTimestamp == w.clock.unixTimestamp + seconds)
  {
  }

  // ---- settings after a run

  /** The argument of the last action of a run that succeeded and sets something, if `setting` says what. */
  function LastSet<X>(h: HashFn, w: World, actions: seq<Action>, setting: Action -> Option<X>, initial: X): X {
    if actions == [] then initial
    else
      var init, a := actions[..|actions| - 1], actions[|actions| - 1];
      if setting(a).Some? && Step(h, Run(h, w, init), a).Ok? then setting(a).value
      else LastSet(h, w, init, setting, initial)
  }

  function AdminSetting(a: Action): Option<Pubkey> {
    if a.SetAdmin? then Some(a.newAdmin) else None
  }

  function ReceiverSetting(a: Action): Option<Pubkey> {
    if a.SetClawbackReceiver? then Some(a.receiver) else None
  }

  function PointSetting(a: Action): Option<u64> {
    if a.SetActivationPoint? then Some(a.point) else None
  }

  /** One action sets at most one thing, and nothing when it fails. */
  lemma StepSettings(h: HashFn, w: World, a: Action)
    requires w.state.distributor.Some? && Next(h, w, a).state.distributor.Some?
    ensures
      var d, d', ok := w.state.distributor.value, Next(h, w, a).state.distributor.value, Step(h, w, a).Ok?;
      && d'.admin == (if ok && a.SetAdmin? then a.newAdmin else d.admin)
      && d'.clawbackReceiver == (if ok && a.SetClawbackReceiver? then a.receiver else d.clawbackReceiver)
      && d'.activationPoint == (if ok && a.SetActivationPoint? then a.point else d.activationPoint)
  {
    if Step(h, w, a).Ok? {
      if a.NewClaim? {
        NewClaimEffect(h, w, a.claimant, a.amountUnlocked, a.amountLocked, a.proof);
      } else if a.ClaimLocked? {
        ClaimLockedEffect(w, a.claimant);
      }
    }
  }

  /** After any run the admin, the receiver and the point are the last ones set, or those of the beginning. */
  lemma {:induction false} SettingsOfRun(h: HashFn, w: World, actions: seq<Action>)
    requires w.state.distributor.Some? && Run(h, w, actions).state.distributor.Some?
    ensures
      var d0, d := w.state.distributor.value, Run(h, w, actions).state.distributor.value;
      && d.admin == LastSet(h, w, actions, AdminSetting, d0.admin)
      && d.clawbackReceiver == LastSet(h, w, actions, ReceiverSetting, d0.clawbackReceiver)
      && d.activationPoint == LastSet(h, w, actions, PointSetting, d0.activationPoint)
  {
    if actions != [] {
      var init, a := actions[..|actions| - 1], actions[|actions| - 1];
      ClosedStaysClosed(h, Run(h, w, init), a);
      SettingsOfRun(h, w, init);
      StepSettings(h, Run(h, w, init), a);
    }
  }

  /**
   * In any run of a distributor created with `p` a clawback succeeds exactly when none has and the time is
   * `p.clawbackStartTs` or later. All of the vault then goes to the receiver set last, or to that of `p`.
   */
  lemma ClawbackOfRun(h: HashFn, clock: Clock, p: T.Params, balance: u64, actions: seq<Action>)
    requires Created(clock, p, balance).Ok?
    requires Run(h, Created(clock, p, balance).value, actions).state.distributor.Some?
    ensures
      var w0 := Created(clock, p, balance).value;
      var w := Run(h, w0, actions);
      var r, receiver := Step(h, w, Clawback), LastSet(h, w0, actions, ReceiverSetting, p.clawbackReceiver);
      && (r.Ok? <==> Clawbacks(h, w0, actions) == 0 && w.clock.unixTimestamp >= p.clawbackStartTs)
      && (r.Ok? ==>
            && r.value.state.vault == (if receiver == p.tokenVault then w.state.vault else 0)
            && r.value.log.clawedBack == w.state.vault - r.value.state.vault)
  {
    var w0 := Created(clock, p, balance).value;
    CreationEstablishes(clock, p, balance);
    CreationFields(T.State(None, map[], balance), clock, p);
    EveryRunKeeps(h, w0, actions);
    RunKeepsTerms(h, w0, actions);
    SettingsOfRun(h, w0, actions);
    ClawbackOnce(h, w0, actions);
    ClawbackExactly(h, Run(h, w0, actions));
  }

  /** In any run whoever was made admin last, or the admin of `p`, can set the admin, and nobody else. */
  lemma AdminOfRun(
    h: HashFn, clock: Clock, p: T.Params, balance: u64, actions: seq<Action>, signer: Pubkey, newAdmin: Pubkey)
    requires Created(clock, p, balance).Ok?
    requires Run(h, Created(clock, p, balance).value, actions).state.distributor.Some?
    ensures
      var w0 := Created(clock, p, balance).value;
      var admin := LastSet(h, w0, actions, AdminSetting, p.admin);
      Step(h, Run(h, w0, actions), SetAdmin(signer, newAdmin)).Ok? <==> signer == admin && newAdmin != admin
  {
    CreationFields(T.State(None, map[], balance), clock, p);
    SettingsOfRun(h, Created(clock, p, balance).value, actions);
    AdminSetExactly(h, Run(h, Created(clock, p, balance).value, actions), signer, newAdmin);
  }
}
