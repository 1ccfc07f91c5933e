# Verification of the Merkle distributor

A Dafny model of a token airdrop: lists of claimants are merged, cut into shards and hashed into Merkle
trees; an on-chain distributor holds the root of a tree and a token vault, checks a proof for every
claim, pays the unlocked amount with a pro-rata bonus at once and the locked amount as it vests; what is
left can be clawed back after vesting. `dafny verify dfyconfig.toml` checks everything.

The main results join the three parts:

* **Who is paid when** (`Payments.ClaimsExactly`): create a distributor for a tree, closable or not, and let
  anybody do anything. While it is open and its vault has received the maximum, a node's own claim
  succeeds exactly when the node has no open claim, nothing was clawed back, the tree gives out anything,
  the bonus vesting ends within 64 bits, fewer claims were made than there are nodes, and the payout keeps
  within the maximum. A withdrawal succeeds exactly when nothing was clawed back, something is due, the
  vesting is not both under way and longer than an `i64`, and the amount keeps within the maximum. Nothing
  is assumed of the hash function.
* **Solvency** (`Payments.AlwaysSolvent`, `Settlement.AnyInterleavingPays`): as long as no claim status was
  closed, which nobody can do unless the distributor is closable, and no two of the strings hashed
  collide, places and maximum never run out, so the last conditions fall away; nor does the length of the vesting matter for a distributor created at time
  -1 or later. If in such a run a member's claim, made when the vault is funded and the bonus vesting ends
  within 64 bits, is followed by its withdrawal after the end of vesting and before a clawback, the member
  is paid in full in the end, whatever anybody does before, between and after. When all are
  (`Settlement.SettledExactly`), exactly the amounts of the tree and the bonuses have left the vault.
  Where a claim status was closed the last conditions can fail: a member that claims a second time can
  take the place of another (`Reclaiming.ReclaimShutsOut`).
* **Nobody else is paid** (`TreeNodes.ClaimAcceptedExactly`, `TreeNodes.ClaimedOrCollision`): an accepted
  proof shows exactly that the triple is a node of the tree and the proof is the sibling path of one of
  its positions, or else two of the strings hashed are a collision.
* **The books balance in every reachable state** (`Runs.EveryRunKeeps`): tokens are conserved, counters
  are sums over claims, vesting depends only on the time of the last withdrawal. `Outcomes` says when each
  instruction succeeds, with which error it fails and what it sets, from the creation on and over runs.
* **The flat vector is the tree** (`MerkleTree.New`, `FlatTree.FlatTree.FindPath`): building into one
  vector with index arithmetic refines the recursive definition, and the walk reads off exact paths.

## How it is modelled

* **Hashing.** The hash function is a parameter `h` from byte strings to 32-byte strings, about which
  nothing is assumed. Where a result depends on it, it is stated over the finite set of the strings that
  are hashed: those of building the tree (`MerkleProofs.TreeStrings`), of checking a claim
  (`TreeNodes.ClaimStrings`) or of a whole run (`Solvency.RunStrings`). Either no two of them collide
  (`Digests.CollisionFree`) or the collision is exhibited (`MerkleProofs.AcceptedOrCollision`,
  `TreeNodes.ClaimedOrCollision`). The prefixes 0 and 1, the order of sorted pairs and the little-endian
  encoding are concrete bytes.
* **The program.** `Transitions` says what each instruction does, as a function from the accounts
  before to the accounts after or an error. `Ledger` is a class whose methods update its fields guard
  by guard as the handlers do; each is proved to have exactly the effect and the error of its
  transition, and to change nothing on an error. `Runs` lets any actions happen in any order: all
  instructions with any signer and arguments, deposits, and a clock that never goes back. A log beside
  the state records deposits, what claim statuses say was paid, what receivers of a clawback or a closing
  get, and closings; conservation says that it balances with the vault.
* **Machine words.** `u64`, `i64` and `u128` are bounded subset types; each checked operation has an error
  result, and the two casts are written out. Panics and failed `unwrap`s are the error `Panicked`.
* **The distributor's address** for a version is a parameter, with different addresses for the trees
  that are loaded together.

## Where the code and its comments disagree

The model follows the code.

* `validate_claim` refuses nothing: its check is commented out
  (`programs/merkle-distributor/src/state/merkle_distributor.rs:89-94`). The activation point only
  decides the bonus.
* A comment asks for a day between the end of vesting and the clawback
  (`programs/merkle-distributor/src/instructions/new_distributor.rs:78`). The code accepts any start of
  the clawback that is not before the end of vesting; `Launching.LaunchOutcome` gives the exact condition.
* The comment on the vesting arithmetic says that it never fails
  (`programs/merkle-distributor/src/state/claim_status.rs:40-52`). A vesting longer than an `i64` holds
  fails while it is under way, and only then (`ClaimStatus.ClaimStatus.UnlockedAmountExact`). Such a
  vesting needs a distributor created at time -2 or earlier (`Payments.VestingFitsSinceZero`).
* A distributor activated by time reads the clock as unsigned, so a time before 1970 is a point far in
  the future, and a bonus can shrink when the clock passes zero. `Solvency.BonusMonotone` gives the exact
  condition under which no bonus shrinks, whatever its maximum: the end of the bonus vesting is past 64
  bits, or the clock does not pass zero, or all is vested afterwards, or nothing was vested before.
  `Solvency.BonusCanShrink` is a distributor that pays a bonus at time -1 and none at time 0.
* The checker with left and right bits accepts every candidate for a tree of one leaf, because the path
  is empty (`PositionalProofs.OneLeafAcceptsAnything`). For two leaves or more it is exact.
* If the clawback receiver is the vault itself a clawback moves nothing, yet ends all claims
  (`RunLaws.ClawbackEmptiesVault`, `RunLaws.ClawbackIsFinal`).
* A claim status is closed by the admin recorded in it, not by the present one
  (`RunLaws.ClaimKeepsItsAdmin`).
* Nothing compares the claimed bonuses with the pool. For members of a tree the pool is never overdrawn
  all the same (`Solvency.BonusWithinPool`).
* A tree whose amounts are all 0 can be launched, but every claim fails, since the bonus divides by 0
  (`Payments.MemberCanClaim`).
* The command line can prepare a bonus, but its only live calls pass a multiplier and a duration of 0
  (`cli/src/bin/instructions/process_new_distributor.rs:12`, line 24 there); the caller with a bonus is
  commented out. `Launching` covers every multiplier.
* The server loads trees in the order of their paths, so from eleven shards on not in the order of their
  versions: `tree_10.json` comes before `tree_2.json`. Of a claimant whose rows are cut across shards it
  serves only the part in the tree loaded last (`ApiIndex.ToldInFull`, for any order;
  `ApiIndex.CutClaimantToldLess` is an instance).
* A shard size of 0 does not loop for ever: the first chunk is empty and its tree cannot be built
  (`Sharding.BuildShards`).

## Model

| member | source | states |
|---|---|---|
| Digests.SortedPairCommutes | merkle-tree/src/merkle_tree.rs:133-141 | a sorted pair gives the same bytes in both orders, ties included |
| Digests.SmallerFirst | verify/src/lib.rs:13-19 | of two hashes that first differ at byte k the one with the smaller byte there comes first, behind a 1, whichever side it stands on |
| Digests.HashedBytes | merkle-tree/src/merkle_tree.rs:4-20 | in literal bytes: a leaf behind a 0, an unsorted or equal pair in its order behind a 1 |
| Digests.SortedPairInjective | verify/src/lib.rs:13-19 | two sorted pairs hashed from equal bytes are the same pair, up to order |
| Digests.LeafIsNoPair | merkle-tree/src/merkle_tree.rs:4-20 | the prefixes keep the bytes of a leaf apart from those of an inner node |
| TreeShape.TopLevel | merkle-tree/src/merkle_tree.rs:122-158 | the level loop ends exactly one level above the root, after ceil(log2 n) levels |
| TreeShape.LevelsEndAtHeight | merkle-tree/src/merkle_tree.rs:80-86 | levels below height ceil(log2 n) have at least two nodes, that level has one, none lies above |
| TreeShape.LevelLenIsCeilDiv | merkle-tree/src/merkle_tree.rs:80-86 | halving and rounding up k times is dividing by 2^k and rounding up |
| TreeShape.CeilLog2Exact | merkle-tree/src/merkle_tree.rs:88-109 | the height is the least exponent whose power of two reaches n |
| TreeShape.NodeCountWithinCapacity | merkle-tree/src/merkle_tree.rs:88-109 | the number of stored hashes stays below the reserved 2n + floor(log2 n) + 1, for every n >= 1 |
| FlatTree.ProofEntry.New | merkle-tree/src/merkle_tree.rs:31-39 | an entry has the target and exactly one sibling, on the side given; the assertion is a precondition proved at every call |
| FlatTree.LevelInPlace | merkle-tree/src/merkle_tree.rs:122-158 | every level of the recursive tree is the slice of the vector that the index arithmetic designates |
| FlatTree.PushLevel | merkle-tree/src/merkle_tree.rs:126-153 | the inner loop appends exactly the next level, the odd last node paired with itself |
| FlatTree.Build | merkle-tree/src/merkle_tree.rs:111-161 | for any hash functions the loops store the recursive tree, level after level |
| FlatTree.FlatTree.RootIsStoredLast | merkle-tree/src/merkle_tree.rs:163-165 | the last element is the recursive root, absent only without leaves |
| FlatTree.FlatTree.FindPath | merkle-tree/src/merkle_tree.rs:167-202 | no path exactly for an index out of range; otherwise one entry a level, with the ancestor above and the sibling on its own side |
| MerkleTree.New | merkle-tree/src/merkle_tree.rs:111-161 | the vector refines the recursive Merkle tree over the prefixed leaves, sorted or not |
| MerkleTree.RootOfOne | merkle-tree/src/merkle_tree.rs:111-161 | the root over one item is its leaf hash |
| MerkleTree.RootOfThree | merkle-tree/src/merkle_tree.rs:111-161 | the root over three items in literal bytes, the odd one out paired with itself |
| MerkleTree.GetProof | merkle-tree/src/utils.rs:5-18 | the proof lists the siblings of the leaf's ancestors, ceil(log2 n) of them; the panic cannot happen |
| Verify.Verify | verify/src/lib.rs:10-23 | the loop decides whether the fold of the leaf with the proof is the root |
| MerkleProofs.SiblingPathIsStored | merkle-tree/src/utils.rs:5-18 | what is read from the vector is the sibling path of the recursive tree |
| MerkleProofs.FoldClimbs | verify/src/lib.rs:10-23 | folding the first k siblings without left/right bits reaches the leaf's ancestor on level k |
| MerkleProofs.ProofComplete | verify/src/lib.rs:10-23 | completeness: every leaf's proof is accepted against the root, for every n and odd levels too, whatever the hash |
| MerkleProofs.VerifyAcceptsExactly | verify/src/lib.rs:10-23 | soundness and completeness: accepted if and only if the datum is an item and the proof is the sibling path of such a position, for proofs of any length, up to a collision |
| MerkleProofs.AcceptedOrCollision | verify/src/lib.rs:10-23 | without assuming anything of the hash: an accepted proof is the sibling path of a position of the datum, or two different strings hashed in tree or check have the same hash |
| PositionalProofs.PathAcceptsExactly | merkle-tree/src/merkle_tree.rs:58-71 | for two leaves or more the path of leaf i accepts a candidate if and only if it is leaf i's hash, up to a collision of two strings |
| PositionalProofs.OneLeafAcceptsAnything | merkle-tree/src/merkle_tree.rs:58-71 | with one leaf the path is empty and accepts everything |
| TreeNodes.LeRoundTrip | merkle-tree/src/tree_node.rs:23-29 | a number that fits is recovered from its little-endian bytes |
| TreeNodes.LeBytesAt | merkle-tree/src/tree_node.rs:23-29 | byte i is the i-th digit to the base 256 |
| TreeNodes.EncodeInjective | merkle-tree/src/tree_node.rs:23-29 | the 48 hashed bytes determine claimant and both amounts |
| TreeNodes.EncodeLayout | merkle-tree/src/tree_node.rs:23-29 | bytes 0 to 31 are the claimant, 32 to 39 decode to the unlocked amount, 40 to 47 to the locked one, least significant byte first |
| TreeNodes.ClaimLeafBytes | programs/merkle-distributor/src/instructions/new_claim.rs:111-118 | the leaf is the hash of a 0 and the hash of the encoding |
| TreeNodes.ClaimAcceptedExactly | programs/merkle-distributor/src/instructions/new_claim.rs:111-122 | the on-chain check accepts exactly the triples of the tree's nodes, with their own proofs, up to a collision |
| TreeNodes.ClaimedOrCollision | programs/merkle-distributor/src/instructions/new_claim.rs:111-122 | an accepted claim is a node's triple with its proof, or two different strings hashed have the same hash |
| TreeNodes.MemberAccepted | programs/merkle-distributor/src/instructions/new_claim.rs:111-122 | a node's triple is accepted with the node's proof, whatever the hash |
| Rows.SetOfClaimants | merkle-tree/src/airdrop_merkle_tree.rs:183-190 | comparing the size of the claimant set with the list detects duplicates exactly |
| Rows.ClaimantsInOrder | merkle-tree/src/airdrop_merkle_tree.rs:62-80 | the claimants stand in the order of their first rows |
| Merging.Merge | merkle-tree/src/airdrop_merkle_tree.rs:63-80 | one node per claimant in order of first appearance with both sums, totals conserved; fails exactly when a claimant's own sum leaves 64 bits, whatever the totals do |
| Merging.MergeKeepsTotals | merkle-tree/src/airdrop_merkle_tree.rs:63-80 | every claimant's sums are the same before and after merging |
| AirdropMerkleTree.CheckedTotalExact | merkle-tree/src/utils.rs:20-33 | the checked fold is the sum, or fails exactly when the sum leaves 64 bits |
| AirdropMerkleTree.AttachProofs | merkle-tree/src/airdrop_merkle_tree.rs:89-91 | every node gets the proof of its own position and nothing else changes |
| AirdropMerkleTree.VerifyProof | merkle-tree/src/airdrop_merkle_tree.rs:219-249 | succeeds exactly when the root is that of the nodes; no leaf can fail then; a wrong root panics |
| AirdropMerkleTree.Validate | merkle-tree/src/airdrop_merkle_tree.rs:165-217 | succeeds exactly on a tree with its root, node count up to 2^32 - 1, distinct claimants and both totals; panics exactly when the nodes are counted right and a total leaves 64 bits or only the root is wrong; a validation error otherwise |
| AirdropMerkleTree.New | merkle-tree/src/airdrop_merkle_tree.rs:61-113 | which error for which rows, in both directions; otherwise a well-built tree that is the merge of the rows; its own validation never fails on it |
| Lookup.GetNode | merkle-tree/src/airdrop_merkle_tree.rs:155-163 | the first node of the claimant, a panic exactly without one |
| Lookup.ToMapFinds | merkle-tree/src/airdrop_merkle_tree.rs:251-257 | without duplicate claimants the hash map finds every node under its claimant |
| Lookup.ScanAgreesWithMap | merkle-tree/src/airdrop_merkle_tree.rs:155-163 | the linear scan and the hash map find the same node |
| Linear.ReleasedIsFloor | programs/merkle-distributor/src/state/claim_status.rs:38-53 | the release is the exact linear share, rounded down |
| Linear.MachineShareExact | programs/merkle-distributor/src/state/claim_status.rs:62-66 | multiplying and dividing in 128 bits and casting to 64 loses nothing for a part of a whole |
| ClaimStatus.ClaimStatus.UnlockedAmountExact | programs/merkle-distributor/src/state/claim_status.rs:54-73 | the machine result is the exact vested amount, or an error exactly while a vesting longer than an i64 is under way |
| ClaimStatus.ClaimStatus.VestedLaws | programs/merkle-distributor/src/state/claim_status.rs:54-73 | vesting is monotone, within the locked amount, 0 before the start and all of it from the end on |
| Distributor.ActivationHandler.BonusForMaxExact | programs/merkle-distributor/src/state/merkle_distributor.rs:95-114 | the vested bonus is the exact share of the maximum, or an error exactly when the end point leaves 64 bits |
| Distributor.MerkleDistributor.MaxBonusExact | programs/merkle-distributor/src/state/merkle_distributor.rs:135-144 | for amounts within the base nothing overflows, divides by 0 or is truncated, and the share is at most the pool |
| Distributor.MerkleDistributor.MaxBonusCut | programs/merkle-distributor/src/state/merkle_distributor.rs:135-144 | for any amount at all the share is cut off to its low 64 bits |
| Distributor.MerkleDistributor.NoBaseNoBonus | programs/merkle-distributor/src/state/merkle_distributor.rs:135-144 | without a base every bonus is an error |
| Distributor.MerkleDistributor.BonusExact | programs/merkle-distributor/src/state/merkle_distributor.rs:145-152 | the bonus at a time is the vested part of the pro-rata share, exactly |
| Distributor.BonusesOrdered | programs/merkle-distributor/src/state/merkle_distributor.rs:95-114 | going from one point of time to another lowers no bonus, for every maximum, if and only if it goes forward, or to the end, or from before any vesting, or the end is out of range |
| Distributor.ProRataAdd | programs/merkle-distributor/src/state/merkle_distributor.rs:135-144 | shares rounded down separately never exceed the share of the sum |
| Distributor.MultiplierShare | cli/src/bin/instructions/process_new_distributor.rs:102-105 | with a pool of m times the unlocked total a share is at most m times the amount, and exactly that if and only if nothing is locked or nothing is due |
| Ledger.Ledger.NewDistributor | programs/merkle-distributor/src/instructions/new_distributor.rs:81-161 | the guards in order and all fields, as its transition; unchanged on error |
| Ledger.Ledger.NewDistributor2 | programs/merkle-distributor/src/lib.rs:73-106 | an existing account first, then the maximum as claim total plus bonus, checked; unchanged on error |
| Ledger.Ledger.NewClaim | programs/merkle-distributor/src/instructions/new_claim.rs:85-187 | the in-place updates between the guards add up to the transition; unchanged on error |
| Ledger.Ledger.ClaimLocked | programs/merkle-distributor/src/instructions/claim_locked.rs:66-143 | the withdrawal as its transition; unchanged on error |
| Ledger.Ledger.Clawback | programs/merkle-distributor/src/instructions/clawback.rs:49-86 | the vault goes to the receiver, once, not before its time; unchanged on error |
| Ledger.Ledger.CloseClaimStatus | programs/merkle-distributor/src/instructions/close_claim_status.rs:6-27 | removes a closable claim, signed by the admin stored in it; unchanged on error |
| Ledger.Ledger.CloseDistributor | programs/merkle-distributor/src/instructions/close_distributor.rs:7-60 | empties the vault and removes a closable distributor; unchanged on error |
| Ledger.Ledger.SetActivationPoint | programs/merkle-distributor/src/instructions/set_activation_point.rs:4-27 | changes the point only, for the admin only |
| Ledger.Ledger.SetAdmin | programs/merkle-distributor/src/instructions/set_admin.rs:11-45 | changes the admin only, to a different one, for the admin only |
| Ledger.Ledger.SetClawbackReceiver | programs/merkle-distributor/src/instructions/set_clawback_receiver.rs:12-51 | changes the receiver only, to a different one, for the admin only |
| Runs.CreationEstablishes | programs/merkle-distributor/src/instructions/new_distributor.rs:81-161 | creation establishes the invariant |
| Runs.NewClaimEffect | programs/merkle-distributor/src/instructions/new_claim.rs:93-167 | what leaves the vault is what the claim records, the counter grows by and the limits allow |
| Runs.ClaimLockedEffect | programs/merkle-distributor/src/instructions/claim_locked.rs:72-121 | what leaves the vault brings the claim to what is vested and the counter grows by it |
| Runs.StepKeeps | programs/merkle-distributor/src/instructions/new_claim.rs:85-187 | every action, successful or failed, keeps conservation, accounting, limits, clawback timing and exact vesting |
| Runs.EveryRunKeeps | programs/merkle-distributor/src/instructions/claim_locked.rs:66-143 | so they hold after every run: deposits = vault + paid + clawed back + swept, counters = sums over open and closed claims, within their limits |
| Outcomes.CreationFields | programs/merkle-distributor/src/instructions/new_distributor.rs:113-140 | every field of a new distributor: its parameter, a counter at 0, not clawed back |
| Outcomes.CreationErrors | programs/merkle-distributor/src/instructions/new_distributor.rs:96-138 | when a creation succeeds and which error it fails with, each exactly |
| Outcomes.CreationWithBonus | programs/merkle-distributor/src/lib.rs:73-106 | with a bonus the creation has the sum of both totals for its maximum, or fails exactly past 64 bits |
| Outcomes.ClawbackExactly | programs/merkle-distributor/src/instructions/clawback.rs:52-83 | when a clawback succeeds, in both directions, and every error |
| Outcomes.ClosingExactly | programs/merkle-distributor/src/instructions/close_distributor.rs:7-60 | when a distributor is closed, every error, and what is left |
| Outcomes.StatusClosingExactly | programs/merkle-distributor/src/instructions/close_claim_status.rs:6-27 | when a claim status is closed, every error, and that the others stay |
| Outcomes.NothingWithoutDistributor | programs/merkle-distributor/src/instructions/new_claim.rs:27-72 | without a distributor nothing can be claimed, clawed back, closed or set |
| Outcomes.PointSetExactly | programs/merkle-distributor/src/instructions/set_activation_point.rs:4-27 | when the activation point is set, to what, and every error |
| Outcomes.AdminSetExactly | programs/merkle-distributor/src/instructions/set_admin.rs:11-45 | when the admin is set, to what, and every error |
| Outcomes.ReceiverSetExactly | programs/merkle-distributor/src/instructions/set_clawback_receiver.rs:12-51 | when the receiver is set, to what, and every error |
| Outcomes.DepositExactly | programs/merkle-distributor/src/instructions/new_distributor.rs:70-73 | a deposit succeeds exactly within 64 bits and adds its amount |
| Outcomes.TickExactly | programs/merkle-distributor/src/instructions/claim_locked.rs:70 | the clock advances by as much as asked for |
| Outcomes.SettingsOfRun | programs/merkle-distributor/src/instructions/set_clawback_receiver.rs:31-51 | after any run admin, receiver and activation point are the arguments of the last successful instruction that set them, or those of the beginning |
| Outcomes.ClawbackOfRun | programs/merkle-distributor/src/instructions/clawback.rs:49-86 | in any run a clawback succeeds exactly when none has and the start given at creation has come; all goes to the receiver set last, or at creation |
| Outcomes.AdminOfRun | programs/merkle-distributor/src/instructions/set_admin.rs:11-45 | after any run exactly the one made admin last, or at creation, can set the admin |
| RunLaws.StepKeepsTerms | programs/merkle-distributor/src/instructions/new_distributor.rs:115-140 | root, limits, times, pool and closability never change, the clock never goes back, a clawback is never undone |
| RunLaws.OnlyAdminChanges | programs/merkle-distributor/src/instructions/set_admin.rs:11-45 | admin, activation point, receiver and existence change only by an action signed by the admin of the moment |
| RunLaws.HandOver | programs/merkle-distributor/src/instructions/set_admin.rs:34-39 | a former admin can do nothing as the admin in any run that does not reinstate it |
| RunLaws.ClaimKeepsItsAdmin | programs/merkle-distributor/src/instructions/new_claim.rs:130-131 | after any run a claim is closed by the admin of the time of the claim and by nobody else, if its distributor is closable |
| RunLaws.WithdrawnWithinVested | programs/merkle-distributor/src/state/claim_status.rs:29-36 | no reachable claim has withdrawn more than is vested |
| RunLaws.WithdrawableExact | programs/merkle-distributor/src/state/claim_status.rs:29-36 | the subtraction never underflows: withdrawable is vested minus withdrawn |
| RunLaws.LockedClaimReachesVested | programs/merkle-distributor/src/instructions/claim_locked.rs:77-110 | vesting is history-independent: each withdrawal ends at exactly what is vested, at the end of vesting at the whole locked amount |
| RunLaws.LockedClaimOutcome | programs/merkle-distributor/src/instructions/claim_locked.rs:72-121 | when a withdrawal succeeds, in both directions; the check against the locked amount never fires |
| RunLaws.ClawbackEmptiesVault | programs/merkle-distributor/src/instructions/clawback.rs:68-83 | a clawback leaves nothing if and only if the receiver is not the vault or there was nothing |
| RunLaws.ClawbackIsFinal | programs/merkle-distributor/src/instructions/clawback.rs:81-83 | after a clawback no run pays anyone or changes a counter or an open claim |
| RunLaws.ClawbackOnce | programs/merkle-distributor/src/instructions/clawback.rs:52-58 | at most one clawback succeeds in a run, shown by the flag, never before the end of vesting |
| Solvency.BonusPoolSuffices | programs/merkle-distributor/src/state/merkle_distributor.rs:135-144 | the rounded shares of all nodes of a tree together fit the pool |
| Solvency.MembersAreCovered | programs/merkle-distributor/src/instructions/new_claim.rs:142-167 | whatever members have claimed is within base plus pool, their bonuses within the pool, their number within the nodes |
| Solvency.BonusWithinPool | programs/merkle-distributor/src/instructions/new_claim.rs:162 | the claimed bonuses never exceed the pool |
| Solvency.MemberBonus | programs/merkle-distributor/src/instructions/new_claim.rs:142-143 | a member's machine bonus is the exact one, at the slot for type 0 and at the unsigned time for type 1, or an error exactly without a base or past 64 bits |
| Solvency.PointsOrdered | programs/merkle-distributor/src/state/merkle_distributor.rs:118-129 | the point of time a handler sees is the slot or the unsigned time, by the type; it follows the clock, except exactly across time zero |
| Solvency.BonusMonotone | programs/merkle-distributor/src/state/merkle_distributor.rs:95-152 | the exact condition under which no bonus shrinks with time, over every maximum; under it the bonus of no amount shrinks |
| Solvency.BonusCanShrink | programs/merkle-distributor/src/state/merkle_distributor.rs:118-129 | a distributor as created whose handler pays a bonus at time -1 and none at time 0 |
| Solvency.PostponedBonus | programs/merkle-distributor/src/instructions/set_activation_point.rs:20-27 | moving the activation point past the present takes every bonus to 0 |
| Solvency.OnlyMembersClaim | programs/merkle-distributor/src/instructions/new_claim.rs:111-122 | without a collision a successful claim is that of a node, with its own amounts |
| Solvency.AnyStepKeeps | programs/merkle-distributor/src/instructions/new_claim.rs:85-187 | every step keeps: only members have claimed, each its own amounts and at most its full bonus |
| Payments.EveryRunServesTree | programs/merkle-distributor/src/instructions/new_claim.rs:85-187 | so does every run that closes neither the distributor nor a claim status |
| Payments.NonClosableUndisturbed | programs/merkle-distributor/src/instructions/close_claim_status.rs:8-14 | a distributor that is not closable stays open and none of its claim statuses is ever closed |
| Payments.MemberCanClaim | programs/merkle-distributor/src/instructions/new_claim.rs:91-167 | the exact condition under which a node's own claim succeeds in any reachable state of any open distributor of its tree, closed claims or not: node and distributor in order, a place left, balance and maximum sufficient; proof and hash never matter |
| Payments.VaultCovers | programs/merkle-distributor/src/instructions/new_claim.rs:144-167 | a funded vault holds whatever the maximum still allows |
| Payments.RefusedForPlace | programs/merkle-distributor/src/instructions/new_claim.rs:98-106 | a node's own claim fails with MaxNodesExceeded if and only if it has no open claim, nothing was clawed back and open and closed claims take all places |
| Payments.RefusedForProof | programs/merkle-distributor/src/instructions/new_claim.rs:91-122 | InvalidProof if and only if the earlier guards pass and the proof leads elsewhere |
| Payments.OwnClaimErrors | programs/merkle-distributor/src/instructions/new_claim.rs:91-167 | which error a node's own claim fails with, each exactly; never InvalidProof |
| Payments.UndisturbedCanClaim | programs/merkle-distributor/src/instructions/new_claim.rs:91-167 | where no claim status was closed and the vault was funded, places, balance and maximum always suffice |
| Payments.MemberClaimPays | programs/merkle-distributor/src/instructions/new_claim.rs:142-162 | it pays the amount and the exact bonus, opens the claim and changes nothing else |
| Payments.ClaimPaysByClock | programs/merkle-distributor/src/instructions/new_claim.rs:95-162 | from the fields and the clock alone: a claim presenting a node's triple pays the amount and the vested part of its floored share, by the slot in type 0 and the unsigned time in type 1 |
| Payments.MemberCanWithdraw | programs/merkle-distributor/src/instructions/claim_locked.rs:72-121 | the exact condition under which a withdrawal succeeds in any reachable state of any funded distributor: nothing clawed back, something due, within the maximum |
| Payments.WithdrawalErrors | programs/merkle-distributor/src/instructions/claim_locked.rs:72-121 | which error a withdrawal fails with, each exactly |
| Payments.UndisturbedCanWithdraw | programs/merkle-distributor/src/instructions/claim_locked.rs:72-121 | where no claim status was closed, all that is due keeps within the maximum |
| Payments.ServesWhileOpen | programs/merkle-distributor/src/instructions/new_distributor.rs:115-140 | a distributor goes on serving its tree for as long as it is open, whatever is claimed or closed |
| Payments.ClaimsExactly | programs/merkle-distributor/src/instructions/new_claim.rs:91-167 | both conditions exactly, after every run of every distributor created for a tree that is still open and funded, closable or not, for every hash function |
| Payments.VestingFitsSinceZero | programs/merkle-distributor/src/instructions/new_distributor.rs:98-111 | every vesting that can be created fits an i64 if and only if the clock is at -1 or later |
| Payments.AlwaysSolvent | programs/merkle-distributor/src/instructions/new_claim.rs:91-167 | both hold after any run from the creation of a distributor for a tree that closes nothing, without a collision among the strings hashed; for a creation at time -1 or later the length of the vesting never matters |
| Settlement.ReadyThroughout | programs/merkle-distributor/src/instructions/new_claim.rs:91-167 | after any run that closes nothing a funded distributor of the tree stays able to take a claim, if and only if it is not clawed back and the bonus vesting ends within 64 bits |
| Settlement.AnyInterleavingPays | programs/merkle-distributor/src/instructions/claim_locked.rs:72-121 | in any run that closes nothing, whatever else happens: a member that claims once the vault is funded and withdraws after the end of vesting and before a clawback is paid in full when the run is over |
| Settlement.SettledExactly | programs/merkle-distributor/src/instructions/claim_locked.rs:102-121 | when every node is paid in full, what was paid is exactly both totals of the tree plus the claimed bonuses, and all other deposits are in the vault or clawed back |
| Reclaiming.ReclaimShutsOut | programs/merkle-distributor/src/instructions/new_claim.rs:98-106 | in a closable distributor for two members a claim, its closing and a second claim take both places: the other member, who never claimed and may, fails with MaxNodesExceeded |
| Reclaiming.LaunchIsFresh | programs/merkle-distributor/src/instructions/new_distributor.rs:81-161 | such a distributor is what a funded launch without a bonus makes |
| Sharding.Trim | cli/src/bin/instructions/process_create_merkle_tree.rs:16-28 | the loop keeps exactly the rows of unlisted claimants, at increasing positions |
| Sharding.WithoutInOrder | cli/src/bin/instructions/process_create_merkle_tree.rs:16-28 | the rows that are kept are those at the positions of unlisted claimants, all of them, in order |
| Sharding.WithoutTotals | cli/src/bin/instructions/process_create_merkle_tree.rs:16-28 | listed claimants lose all rows and sums, the others none |
| Sharding.ChunksConcat | cli/src/bin/instructions/process_create_merkle_tree.rs:35-38 | the chunks put together are the rows in order |
| Sharding.ChunksFull | cli/src/bin/instructions/process_create_merkle_tree.rs:35-38 | all chunks but the last are full, none is empty |
| Sharding.ChunksCount | cli/src/bin/instructions/process_create_merkle_tree.rs:35-38 | there are len/max of them, rounded up |
| Sharding.BuildShards | cli/src/bin/instructions/process_create_merkle_tree.rs:34-52 | ends with the tree of chunk k under version k, exactly when every chunk can be built |
| Sharding.CreateTrees | cli/src/bin/instructions/process_create_merkle_tree.rs:5-75 | shards of the rows without test wallets, then the tree of the test wallets under the next version; success in both directions |
| Sharding.ShardsConserve | cli/src/bin/instructions/process_create_merkle_tree.rs:35-52 | all trees together give every claimant the sums of its rows, wherever the cuts fall, and their declared totals add up |
| Sharding.ProofLength | merkle-tree/src/airdrop_merkle_tree.rs:165-172 | proofs have exactly ceil(log2 n) entries, never more than 32 |
| Sharding.ShardProofLength | cli/src/bin/instructions/process_create_merkle_tree.rs:35-43 | in a shard at most ceil(log2 max) |
| Launching.LaunchOutcome | cli/src/bin/instructions/process_new_distributor.rs:102-240 | preparing and sending: a panic if and only if the pool or the totals leave 64 bits; success if and only if the full payout fits 64 bits, the distributor is new, and times and type are in order; every field of the distributor, from tree, arguments and totals |
| Launching.LaunchIsReady | cli/src/bin/instructions/process_new_distributor.rs:180-240 | with enough in the vault it is ready to pay everybody; the vesting duration matters only with a bonus |
| Launching.MultiplierBonus | cli/src/bin/instructions/process_new_distributor.rs:102-105 | a member's bonus is at most multiplier times amount, and once vested exactly that if and only if nothing is locked or it is 0 |
| ApiIndex.InsertNodes | api/src/main.rs:92-94 | the inner loop overlays the claimants of one tree on the index |
| ApiIndex.LoadTrees | api/src/main.rs:63-97 | fails exactly when a sum over all trees leaves 64 bits; otherwise each claimant is mapped to its last tree, and the listings are the trees', sorted by version |
| ApiIndex.ListingsExactly | api/src/main.rs:85-91 | every listing has the fields of a tree and every tree has such a listing |
| ApiIndex.SumsAreDeclared | api/src/main.rs:79-81 | the maximum served is the sum of both declared totals of all trees |
| ApiIndex.NodesAreCounted | api/src/main.rs:82-84 | the node count served is the number of nodes of all trees |
| ApiIndex.UserInfoExact | api/src/router.rs:79-102 | exactly the claimants of the trees are found; the answer is amounts, proof and distributor of the last tree holding the claimant, and never a missing proof |
| ApiIndex.UserInfoWithoutProof | api/src/router.rs:86-99 | which error an answer is, for any trees, proofs or not |
| ApiIndex.UserInfoIsClaimable | api/src/router.rs:79-102 | some listed distributor has the address in the answer; every such one has root, version, node count and maximum of the last tree holding the claimant, and that root accepts the answer's amounts and proof |
| ApiIndex.UserInfoPays | api/src/router.rs:79-102 | a claim made from the answer succeeds in a distributor of that tree that is ready to pay |
| ApiIndex.ToldInFull | api/src/main.rs:56-94 | over the shards of a list, loaded in any order, a claimant is told at most its sums, and exactly these if and only if every other tree assigns it nothing |
| ApiIndex.AssignedInAnyOrder | api/src/main.rs:56-61 | what the trees assign to a claimant together does not depend on the order in which they are loaded |
| ApiIndex.CutClaimantToldLess | api/src/main.rs:92-94 | two rows of one claimant in shards of one row: it is told less than its sum, whichever is loaded last |
| ApiIndex.ShardsAreApart | cli/src/bin/instructions/process_create_merkle_tree.rs:40-43 | the shards, loaded in any order, have versions of their own, so the index serves them apart |
| DummyCsv.DummyList | cli/src/bin/instructions/process_create_dummy_csv.rs:9-18 | exactly as many addresses as asked for, fixed address i at i times the quotient, the others in order between; fails exactly without fixed addresses or with more of them than records |
| DummyCsv.SpreadStep | cli/src/bin/instructions/process_create_dummy_csv.rs:16-18 | an insertion moves no fixed address inserted before |
| DummyCsv.InRange | cli/src/bin/instructions/process_create_dummy_csv.rs:16-18 | no insertion index is out of range |

## Left out

- SHA-256, base58 and the derivation of addresses: library code; the hash and the addresses are parameters.
- The floating-point `log2_raw` in the capacity: the exact integer logarithm stands for it.
- Parsing of decimal token amounts: rows hold token amounts as 64-bit numbers, so a failing parse of a row is not modelled.
- Account constraints beyond signer, admin, presence on use and absence on creation: owners, mints, rent, bumps, space.
- Log messages and events.
- The token program beyond moving an amount out of the vault: an overflow of the receiving account cannot occur in the model.
- A transfer from the vault to the vault happens only in a clawback or on closing, where the destination is free; claimants cannot own the vault.
- Creation of a second distributor under the same version after closing: a run ends with the closing of its distributor, though its open claims can still be closed.
- The fields `bump`, `base`, `mint` and the buffers of the accounts: nothing reads them in the modelled code.
- Serialisation, files and printing: trees written before a later shard fails are not part of the result.
- DummyCsv.DummyList: with more fixed addresses than records the subtraction panics in a debug build, which is modelled; a release build wraps around and runs out of memory instead.
- The order of listings of equal versions in the server's unstable sort; the retries, priority fees and account checks of the command line.
- Command line options, the web server and its rate limits, remote calls, transactions and the remaining commands: no logic of the distribution.
