/**
 * A distributor created from an airdrop tree and fully funded can pay every member, in any order and
 * whatever else happens, and never pays anyone else.
 */
module Solvency {
  import opened Words
  import opened Digests
  import opened Program
  import opened ClaimStatus
  import opened Distributor
  import opened TreeNodes
  import opened Rows
  import opened AirdropMerkleTree
  import opened Lookup
  import opened Sums
  import opened Linear
  import opened Runs
  import RunLaws
  import Verify
  import T = Transitions

  // ---- what the members of a tree can receive at most

  /** The full bonus of an amount, when there is anything to share a pool over. */
  function FullBonus(amount: nat, pool: nat, base: nat): nat {
    if base == 0 then 0 else ProRata(amount, pool, base)
  }

  function BonusDue(pool: nat, base: nat): TreeNode -> nat {
    (n: TreeNode) => FullBonus(n.amount, pool, base)
  }

  function Due(pool: nat, base: nat): TreeNode -> nat {
    (n: TreeNode) => n.amount + n.lockedAmount + FullBonus(n.amount, pool, base)
  }

  /** Rounding every bonus down, they sum to at most the share of the sum. */
  lemma {:induction false} BonusesSum(nodes: seq<TreeNode>, pool: nat, base: nat)
    requires base > 0
    ensures SeqSum(nodes, BonusDue(pool, base)) <= ProRata(Total(nodes, Unlocked), pool, base)
  {
    if nodes == [] {
      ProRataNonNegative(0, pool, base);
    } else {
      var init, last := nodes[..|nodes| - 1], nodes[|nodes| - 1];
      BonusesSum(init, pool, base);
      ProRataAdd(Total(init, Unlocked), last.amount, pool, base);
    }
  }

  /** The bonuses of all members of a tree fit the pool, although nothing checks it. */
  lemma BonusPoolSuffices(nodes: seq<TreeNode>, pool: nat, base: nat)
    requires Total(nodes, Unlocked) <= base
    ensures SeqSum(nodes, BonusDue(pool, base)) <= pool
  {
    if base == 0 {
      NoBaseNoBonuses(nodes, pool);
    } else {
      BonusesSum(nodes, pool, base);
      ShareBound(pool, Total(nodes, Unlocked), base);
    }
  }

  lemma {:induction false} NoBaseNoBonuses(nodes: seq<TreeNode>, pool: nat)
    ensures SeqSum(nodes, BonusDue(pool, 0)) == 0
  {
    if nodes != [] {
      NoBaseNoBonuses(nodes[..|nodes| - 1], pool);
    }
  }

  lemma {:induction false} DueSplits(nodes: seq<TreeNode>, pool: nat, base: nat)
    ensures SeqSum(nodes, Due(pool, base))
      == Total(nodes, Unlocked) + Total(nodes, Locked) + SeqSum(nodes, BonusDue(pool, base))
  {
    if nodes != [] {
      DueSplits(nodes[..|nodes| - 1], pool, base);
    }
  }

  // ---- claims of members only

  /** The unlocked and locked total of a tree. */
  function BaseOf(t: AirdropMerkleTree): nat {
    t.totalUnlockedAmount + t.totalLockedAmount
  }

  /** A claim that a node of the tree stands behind. */
  ghost predicate OfMember(status: ClaimStatus, node: TreeNode, pool: nat, base: nat) {
    && status.lockedAmount == node.lockedAmount
    && status.lockedAmountWithdrawn <= status.lockedAmount
    && node.amount <= status.unlockedAmount <= node.amount + FullBonus(node.amount, pool, base)
  }

  ghost predicate MembersOnly(
    claims: map<Pubkey, ClaimStatus>, members: map<Pubkey, TreeNode>, pool: nat, base: nat)
  {
    forall c :: c in claims ==> c in members && OfMember(claims[c], members[c], pool, base)
  }

  /** The bonus inside each claim. */
  function Bonuses(claims: map<Pubkey, ClaimStatus>, members: map<Pubkey, TreeNode>): map<Pubkey, nat> {
    map c | c in claims && c in members && members[c].amount <= claims[c].unlockedAmount
      :: claims[c].unlockedAmount - members[c].amount
  }

  /** Whatever members have claimed, it is within the base plus the pool, and their bonuses within the pool. */
  lemma MembersAreCovered(h: HashFn, t: AirdropMerkleTree, claims: map<Pubkey, ClaimStatus>, pool: nat)
    requires WellBuilt(h, t) && MembersOnly(claims, ToMap(t.treeNodes), pool, BaseOf(t))
    ensures Sum(Payouts(claims)) <= BaseOf(t) + pool
    ensures Sum(Bonuses(claims, ToMap(t.treeNodes))) <= pool
    ensures |claims| <= |t.treeNodes|
  {
    var nodes, base := t.treeNodes, BaseOf(t);
    SumOverMap(nodes, Due(pool, base));
    SumOverMap(nodes, BonusDue(pool, base));
    SumMonotone(Payouts(claims), MapBy(ToMap(nodes), Due(pool, base)));
    SumMonotone(Bonuses(claims, ToMap(nodes)), MapBy(ToMap(nodes), BonusDue(pool, base)));
    DueSplits(nodes, pool, base);
    BonusPoolSuffices(nodes, pool, base);
    KeysBound(claims, ToMap(nodes));
  }

  lemma KeysBound<A, B>(a: map<Pubkey, A>, b: map<Pubkey, B>)
    requires forall c :: c in a ==> c in b
    ensures |a| <= |b|
  {
    SubsetSize(a.Keys, b.Keys);
  }

  lemma {:induction false} SubsetSize<X>(a: set<X>, b: set<X>)
    requires a <= b
    ensures |a| <= |b|
    decreases a
  {
    if a != {} {
      var x :| x in a;
      SubsetSize(a - {x}, b - {x});
    }
  }

  // ---- the invariant of a distributor created from a tree

  /** The distributor pays out tree `t`: its root and limits. */
  ghost predicate Serves(d: MerkleDistributor, t: AirdropMerkleTree) {
    && d.root == t.merkleRoot
    && d.maxNumNodes == t.maxNumNodes
    && d.maxTotalClaim == BaseOf(t) + d.airdropBonus.totalBonus
  }

  /** The distributor is open and no claim status was ever closed, so nobody can have claimed twice. */
  ghost predicate Undisturbed(w: World) {
    w.state.distributor.Some? && w.log.closedStatuses == 0
  }

  ghost predicate TreeInv(h: HashFn, w: World, t: AirdropMerkleTree) {
    && Inv(w) && WellBuilt(h, t) && Undisturbed(w)
    && var d := w.state.distributor.value;
      && Serves(d, t)
      && MembersOnly(w.state.claims, ToMap(t.treeNodes), d.airdropBonus.totalBonus, BaseOf(t))
      && d.airdropBonus.totalClaimedBonus == Sum(Bonuses(w.state.claims, ToMap(t.treeNodes)))
  }

  /** The bonus pool is never overdrawn, whatever the admin does to the activation point. */
  lemma BonusWithinPool(h: HashFn, w: World, t: AirdropMerkleTree)
    requires TreeInv(h, w, t)
    ensures
      var b := w.state.distributor.value.airdropBonus;
      b.totalClaimedBonus <= b.totalBonus
  {
    MembersAreCovered(h, t, w.state.claims, w.state.distributor.value.airdropBonus.totalBonus);
  }

  // ---- each step keeps it

  /** The activation handler of a distributor at a time; its type is one of the two valid ones. */
  function HandlerAt(d: MerkleDistributor, clock: Clock): ActivationHandler {
    ActivationHandler(
      if d.activationType == 0 then clock.slot else ReinterpretI64(clock.unixTimestamp),
      d.activationPoint, d.airdropBonus)
  }

  /** The bonus a member's amount earns at a time, once there is a base. */
  function BonusAt(d: MerkleDistributor, clock: Clock, amount: u64): nat
    requires d.Base() > 0
  {
    Released(ProRata(amount, d.airdropBonus.totalBonus, d.Base()),
             HandlerAt(d, clock).currPoint - d.activationPoint, d.airdropBonus.vestingDuration)
  }

  lemma MemberWithinBase(h: HashFn, t: AirdropMerkleTree, j: nat)
    requires WellBuilt(h, t) && j < |t.treeNodes|
    ensures t.treeNodes[j].amount <= t.totalUnlockedAmount && t.treeNodes[j].lockedAmount <= t.totalLockedAmount
  {
    AmountBounded(t.treeNodes, j, Unlocked);
    AmountBounded(t.treeNodes, j, Locked);
  }

  /** The machine bonus of a member is the exact one, or an error without a base or past 64 bits. */
  lemma MemberBonus(h: HashFn, t: AirdropMerkleTree, d: MerkleDistributor, clock: Clock, j: nat)
    requires WellBuilt(h, t) && Serves(d, t) && j < |t.treeNodes| && d.activationType <= 1
    ensures d.GetActivationHandler(clock) == Ok(HandlerAt(d, clock))
    ensures d.activationType == 0 ==> HandlerAt(d, clock).currPoint == clock.slot
    ensures d.activationType == 1 ==>
      HandlerAt(d, clock).currPoint
      == if clock.unixTimestamp >= 0 then clock.unixTimestamp else clock.unixTimestamp + 0x1_0000_0000_0000_0000
    ensures d.BonusFor(t.treeNodes[j].amount, HandlerAt(d, clock))
      == if d.Base() > 0 && HandlerAt(d, clock).EndFits() then Ok(BonusAt(d, clock, t.treeNodes[j].amount))
         else Err(ArithmeticError)
  {
    MemberWithinBase(h, t, j);
    if d.Base() > 0 {
      d.BonusExact(t.treeNodes[j].amount, HandlerAt(d, clock));
    } else {
      d.NoBaseNoBonus(t.treeNodes[j].amount);
    }
  }

  lemma BonusAtBounded(d: MerkleDistributor, clock: Clock, amount: u64)
    requires d.Base() > 0
    ensures BonusAt(d, clock, amount) <= FullBonus(amount, d.airdropBonus.totalBonus, d.Base())
  {
    ReleasedBounded(ProRata(amount, d.airdropBonus.totalBonus, d.Base()),
                    HandlerAt(d, clock).currPoint - d.activationPoint, d.airdropBonus.vestingDuration);
  }

  /**
   * As the clock goes on the point of time a handler sees goes on too, except in a distributor that is
   * activated by time when the time passes from negative to positive: it is read as unsigned.
   */
  lemma PointsOrdered(d: MerkleDistributor, c: Clock, c': Clock)
    requires c.slot <= c'.slot && c.unixTimestamp <= c'.unixTimestamp
    ensures HandlerAt(d, c).currPoint
      == if d.activationType == 0 then c.slot
         else if c.unixTimestamp >= 0 then c.unixTimestamp else c.unixTimestamp + 0x1_0000_0000_0000_0000
    ensures HandlerAt(d, c).currPoint <= HandlerAt(d, c').currPoint
      <==> d.activationType == 0 || !(c.unixTimestamp < 0 <= c'.unixTimestamp)
  {
  }

  /**
   * When the time passes zero, in a distributor activated by time with an end in range, bonuses survive
   * only if they are all vested afterwards or none was vested before.
   */
  predicate BonusesSurvive(d: MerkleDistributor, c: Clock, c': Clock) {
    var start, duration := d.activationPoint, d.airdropBonus.vestingDuration;
    (d.activationType != 0 && c.unixTimestamp < 0 <= c'.unixTimestamp && start + duration < U64_LIMIT) ==>
      || c'.unixTimestamp >= start + duration
      || c.unixTimestamp + U64_LIMIT < start
      || (c.unixTimestamp + U64_LIMIT == start && duration > 0)
  }

  /** This is exactly when the bonus never shrinks with time, for every maximum; so it does not for any amount. */
  lemma BonusMonotone(d: MerkleDistributor, c: Clock, c': Clock)
    requires c.slot <= c'.slot && c.unixTimestamp <= c'.unixTimestamp
    ensures (forall max: u64 :: NotLess(HandlerAt(d, c).BonusForMax(max), HandlerAt(d, c').BonusForMax(max)))
      <==> BonusesSurvive(d, c, c')
    ensures BonusesSurvive(d, c, c') ==>
      forall amount: u64 :: NotLess(d.BonusFor(amount, HandlerAt(d, c)), d.BonusFor(amount, HandlerAt(d, c')))
  {
    PointsOrdered(d, c, c');
    BonusesOrdered(HandlerAt(d, c).currPoint, HandlerAt(d, c').currPoint, d.activationPoint, d.airdropBonus);
  }

  /** A distributor, created before time zero, that pays its whole bonus a second before and none at it. */
  lemma BonusCanShrink(root: Digest, vault: Pubkey, receiver: Pubkey, admin: Pubkey)
    ensures
      var p := T.Params(0, root, vault, 2, 1, -9, 10, 10, receiver, admin, 5, 1, false, 1, 0);
      var created := Created(Clock(0, -10), p, 2);
      && created.Ok? && created.value.state.distributor.Some?
      && var d := created.value.state.distributor.value;
        var before, after := d.GetActivationHandler(Clock(0, -1)), d.GetActivationHandler(Clock(0, 0));
        && before.Ok? && d.BonusFor(1, before.value) == Ok(1)
        && after.Ok? && d.BonusFor(1, after.value) == Ok(0)
  {
  }

  /** Moving the activation point past the present takes every bonus back to nothing, for as long as it lasts. */
  lemma PostponedBonus(h: HashFn, w: World, admin: Pubkey, point: u64, amount: u64)
    requires Step(h, w, SetActivationPoint(admin, point)).Ok?
    ensures w.state.distributor.Some?
    ensures
      var w' := Step(h, w, SetActivationPoint(admin, point)).value;
      && w'.state.distributor.Some?
      && var d := w'.state.distributor.value;
        d.Base() > 0 && HandlerAt(d, w'.clock).currPoint < point ==> BonusAt(d, w'.clock, amount) == 0
  {
  }

  lemma PaidIsAmountAndBonus(h: HashFn, w: World, c: Pubkey, unlocked: u64, locked: u64, proof: seq<Digest>)
    requires T.NewClaim(h, w.state, w.clock, c, unlocked, locked, proof).Ok?
    ensures w.state.distributor.Some?
    ensures
      var d, after := w.state.distributor.value, T.NewClaim(h, w.state, w.clock, c, unlocked, locked, proof).value;
      && d.GetActivationHandler(w.clock).Ok?
      && after.vault <= w.state.vault
      && w.state.vault - after.vault >= unlocked
      && d.BonusFor(unlocked, d.GetActivationHandler(w.clock).value) == Ok(w.state.vault - after.vault - unlocked)
      && Verify.Fold(h, ClaimLeaf(h, c, unlocked, locked), proof) == d.root
  {
  }

  lemma MembersAdd(
    claims: map<Pubkey, ClaimStatus>, members: map<Pubkey, TreeNode>, pool: nat, base: nat, c: Pubkey,
    status: ClaimStatus)
    requires MembersOnly(claims, members, pool, base) && c !in claims
    requires c in members && OfMember(status, members[c], pool, base)
    ensures MembersOnly(claims[c := status], members, pool, base)
    ensures Sum(Bonuses(claims[c := status], members))
      == Sum(Bonuses(claims, members)) + status.unlockedAmount - members[c].amount
  {
    var bonus := status.unlockedAmount - members[c].amount;
    assert Bonuses(claims[c := status], members) == Bonuses(claims, members)[c := bonus];
    SumInsert(Bonuses(claims, members), c, bonus);
  }

  lemma MembersWithdraw(
    claims: map<Pubkey, ClaimStatus>, members: map<Pubkey, TreeNode>, pool: nat, base: nat, c: Pubkey,
    withdrawn: u64)
    requires MembersOnly(claims, members, pool, base) && c in claims && withdrawn <= claims[c].lockedAmount
    ensures
      var claims' := claims[c := claims[c].(lockedAmountWithdrawn := withdrawn)];
      MembersOnly(claims', members, pool, base) && Bonuses(claims', members) == Bonuses(claims, members)
  {
  }

  /** The status a member's claim leaves is one the member's node stands behind. */
  lemma StatusOfMember(h: HashFn, w: World, t: AirdropMerkleTree, a: Action, j: nat)
    requires TreeInv(h, w, t) && a.NewClaim? && Step(h, w, a).Ok?
    requires j < |t.treeNodes| && Presents(t.treeNodes[j], a.claimant, a.amountUnlocked, a.amountLocked)
    ensures a.claimant in Step(h, w, a).value.state.claims
    ensures
      var d, status := w.state.distributor.value, Step(h, w, a).value.state.claims[a.claimant];
      OfMember(status, t.treeNodes[j], d.airdropBonus.totalBonus, BaseOf(t))
  {
    var d := w.state.distributor.value;
    NewClaimEffect(h, w, a.claimant, a.amountUnlocked, a.amountLocked, a.proof);
    PaidIsAmountAndBonus(h, w, a.claimant, a.amountUnlocked, a.amountLocked, a.proof);
    MemberBonus(h, t, d, w.clock, j);
    BonusAtBounded(d, w.clock, t.treeNodes[j].amount);
  }

  /** The claim of a member leaves claims of members only. */
  lemma MemberClaimKeeps(h: HashFn, w: World, t: AirdropMerkleTree, a: Action, j: nat)
    requires TreeInv(h, w, t) && a.NewClaim? && Step(h, w, a).Ok?
    requires j < |t.treeNodes| && Presents(t.treeNodes[j], a.claimant, a.amountUnlocked, a.amountLocked)
    ensures TreeInv(h, Step(h, w, a).value, t)
  {
    var w', d := Step(h, w, a).value, w.state.distributor.value;
    StepKeeps(h, w, a);
    StatusOfMember(h, w, t, a, j);
    NewClaimEffect(h, w, a.claimant, a.amountUnlocked, a.amountLocked, a.proof);
    ToMapFinds(t.treeNodes, j);
    MembersAdd(w.state.claims, ToMap(t.treeNodes), d.airdropBonus.totalBonus, BaseOf(t), a.claimant,
               w'.state.claims[a.claimant]);
  }

  lemma LockedClaimKeeps(h: HashFn, w: World, t: AirdropMerkleTree, a: Action)
    requires TreeInv(h, w, t) && a.ClaimLocked? && Step(h, w, a).Ok?
    ensures TreeInv(h, Step(h, w, a).value, t)
  {
    var w', d := Step(h, w, a).value, w.state.distributor.value;
    StepKeeps(h, w, a);
    ClaimLockedEffect(w, a.claimant);
    RunLaws.WithdrawnWithinVested(w', a.claimant);
    MembersWithdraw(w.state.claims, ToMap(t.treeNodes), d.airdropBonus.totalBonus, BaseOf(t), a.claimant,
                    w'.state.claims[a.claimant].lockedAmountWithdrawn);
  }

  lemma OtherStepKeeps(h: HashFn, w: World, t: AirdropMerkleTree, a: Action)
    requires TreeInv(h, w, t) && !a.NewClaim? && !a.ClaimLocked? && Step(h, w, a).Ok?
    requires Undisturbed(Step(h, w, a).value)
    ensures TreeInv(h, Step(h, w, a).value, t)
  {
    StepKeeps(h, w, a);
    RunLaws.StepKeepsTerms(h, w, a);
    assert !a.CloseClaimStatus? && !a.CloseDistributor?;
    OtherEffect(h, w, a);
  }

  /** Every string hashed in checking the claim an action makes. */
  ghost predicate ActionHashedIn(h: HashFn, a: Action, s: set<Bytes>) {
    a.NewClaim? ==> ClaimHashedIn(h, a.claimant, a.amountUnlocked, a.amountLocked, a.proof, s)
  }

  /** Without a collision nobody but a member claims, and nothing but the member's own amounts. */
  lemma OnlyMembersClaim(h: HashFn, w: World, t: AirdropMerkleTree, a: Action, s: set<Bytes>) returns (j: nat)
    requires TreeInv(h, w, t) && a.NewClaim? && Step(h, w, a).Ok?
    requires CollisionFree(h, s) && NodesHashedIn(h, t.treeNodes, s) && ActionHashedIn(h, a, s)
    ensures j < |t.treeNodes| && Presents(t.treeNodes[j], a.claimant, a.amountUnlocked, a.amountLocked)
  {
    PaidIsAmountAndBonus(h, w, a.claimant, a.amountUnlocked, a.amountLocked, a.proof);
    ClaimAcceptedExactly(h, t.treeNodes, a.claimant, a.amountUnlocked, a.amountLocked, a.proof, s);
    j :| 0 <= j < |t.treeNodes| && Presents(t.treeNodes[j], a.claimant, a.amountUnlocked, a.amountLocked);
  }

  lemma AnyStepKeeps(h: HashFn, w: World, t: AirdropMerkleTree, a: Action, s: set<Bytes>)
    requires TreeInv(h, w, t)
    requires CollisionFree(h, s) && NodesHashedIn(h, t.treeNodes, s) && ActionHashedIn(h, a, s)
    requires Undisturbed(Next(h, w, a))
    ensures TreeInv(h, Next(h, w, a), t)
  {
    if Step(h, w, a).Ok? {
      if a.NewClaim? {
        var j := OnlyMembersClaim(h, w, t, a, s);
        MemberClaimKeeps(h, w, t, a, j);
      } else if a.ClaimLocked? {
        LockedClaimKeeps(h, w, t, a);
      } else {
        OtherStepKeeps(h, w, t, a);
      }
    }
  }

  // ---- the strings hashed in a run

  /** All strings hashed in building the tree and in checking the claims of a run. */
  ghost function RunStrings(h: HashFn, t: AirdropMerkleTree, actions: seq<Action>): set<Bytes> {
    if actions == [] then NodesStrings(h, t.treeNodes)
    else
      var a := actions[|actions| - 1];
      RunStrings(h, t, actions[..|actions| - 1])
      + if a.NewClaim? then ClaimStrings(h, a.claimant, a.amountUnlocked, a.amountLocked, a.proof) else {}
  }

  /** Everything a run of these actions hashes is in `s`, and nothing in `s` collides. */
  ghost predicate HashedSafely(h: HashFn, t: AirdropMerkleTree, actions: seq<Action>, s: set<Bytes>) {
    CollisionFree(h, s) && NodesHashedIn(h, t.treeNodes, s) && forall a :: a in actions ==> ActionHashedIn(h, a, s)
  }

  lemma {:induction false} RunStringsCover(h: HashFn, t: AirdropMerkleTree, actions: seq<Action>, s: set<Bytes>)
    requires t.treeNodes != [] && RunStrings(h, t, actions) <= s && CollisionFree(h, s)
    ensures HashedSafely(h, t, actions, s)
  {
    if actions == [] {
      NodesStringsCover(h, t.treeNodes, s);
    } else {
      var init, last := actions[..|actions| - 1], actions[|actions| - 1];
      RunStringsCover(h, t, init, s);
      if last.NewClaim? {
        ClaimStringsCover(h, last.claimant, last.amountUnlocked, last.amountLocked, last.proof, s);
      }
      LastOrEarlier(actions);
    }
  }

  lemma LastOrEarlier<X>(xs: seq<X>)
    requires xs != []
    ensures forall x :: x in xs ==> x in xs[..|xs| - 1] || x == xs[|xs| - 1]
  {
  }
}
