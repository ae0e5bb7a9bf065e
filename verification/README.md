# Inery chain core: a Dafny model

This project models the consensus and execution core of an Inery node (an EOSIO-family chain) and proves
properties of it over all inputs, runs and reachable states:

- **Finality.** `BlockHeaderState` is the DPoS header state machine: confirmation counts, the proposed and the
  actual last irreversible block number (LIB), and schedule promotion. `DposFinality` and
  `LastIrreversibleNumber` prove quorum, accountable safety and LIB soundness over whole runs, `ConflictingLibs` what
  conflicting LIBs cost the producers; `OrderStatistic` is the theory of the order statistic that the LIB is.
  `HeaderRuns` has two runs from genesis that show where the properties end, and `LibDropForks` what a node that
  receives the blocks of the first keeps in its fork database.
- **Forks.** `ForkTree` is the fork tree as a value, with its operations and its invariant over all runs.
  `ForkDatabase` is the class that keeps it in place, `ForkDatabaseFile` saves and reloads it. `NodeState` and
  `Controller` put chain state, undo stack and block log on top: popping, fork switching, logging of
  irreversible blocks. Block application is an arbitrary deterministic function that may fail.
- **Block log.** `BlockLog` is the log with its index; `BlockLogIndex` rebuilds the index with a buffered backward
  scan and a buffered backward writer (`Bytes` has the integer encodings).
- **Protocol features.** `FeatureManager`: recognized features, and the activation stack kept both as a vector and
  as a list linked through slots.
- **Execution and accounting.** `ActionTree` has the traces of a transaction's actions and what they satisfy with
  arbitrary contracts, `ActionOrder` the order in which they run, `Execution` the classes that run them;
  `ResourceLimits` collapses pending account limits into totals; `MemLedger` bills tables, rows and deferred
  transactions (`MapSum` has sums over maps).
- **ABI codec.** `AbiTypes` resolves and validates type definitions, `AbiCodec` packs and unpacks as functions and
  proves the round trip, `AbiValues` says what can come out of unpacking at all, `AbiSerializer` is the packer and
  unpacker that work on a stream. `AbiNesting` and `AbiOptionalBase` are about depth and about bases with misleading
  names, `AbiFormat` shows the layout.
- **128-bit integers to double.** `Int128ToDouble`: the rounding conversions and the way back.

Exceptions are `Err` results. Where the code loops or changes state, the model has a method with a loop or a
class with fields, proved against a function on values; the theorems are about those functions.

## Where the code misses a property

The code was kept as it is; the exact condition is proved beside each case.

- The double-confirm test subtracts in 32 bits. It rejects every overlap exactly when the confirmed range does not
  reach below block zero (`DposFinality.DoubleConfirmCheckIsExact`). A range that wraps miscounts exactly when its
  producer has made a block that is tracked and no newer tracked block is one confirmation short, which the state before
  the header tells (`DposFinality.StepKeepsCountsExactly`);
  `HeaderRuns.WrappedRangeBreaksQuorum` is a run from genesis in which one producer out of four makes a block proposed.
- The LIB can drop after a schedule is promoted (`HeaderRuns.PromotionCanLowerLib`, a run from genesis);
  `LastIrreversibleNumber.LibReachesExactly` says exactly when.
- After a promotion fewer than two thirds of the state's own producers may imply the LIB
  (`HeaderRuns.PromotionCanLoseTwoThirds`); `LastIrreversibleNumber.PromotedMapHasTwoThirds` says exactly when.
- A saved fork database reloads exactly when no stored link lowers the LIB
  (`ForkDatabaseFile.ReopenRestoresExactly`); a node that receives the blocks of the run with the dropping LIB comes to
  hold a tree that does not (`LibDropForks.DropTreeDoesNotReload`).
- Opening a fork database file accepts a head that was never validated. `ForkDatabaseFile.OpensExactly` says which files
  open, and that the database then satisfies its invariant exactly if the head is the root or a validated block;
  `ForkDatabaseFile.UnvalidatedHeadOpens` is a file for which it does not.
- After a rollback, validating the old head's branch again brings the old head back exactly if it was the root or is
  preferred over it (`ForkTree.RollbackIsUndone`).
- Advancing the fork tree's root to a validated block the head does not descend from throws with the block already
  erased. The tree stays well formed exactly when the block has no child (`ForkTree.HalfAdvancedKeepsInvExactly`);
  `ForkTree.FailedAdvanceLeavesOrphan` has a run of operations on an empty database after which it does not. The
  controller's own call always has the head above the new root.
- Reversing a failed fork switch reads the last block of the abandoned branch, which is empty when the new head lies
  two or more blocks up the head's own branch. The model ends there with an error of its own, reached exactly in that
  case (`Controller.Controller.SwitchTo`); one block more of the run with the dropping LIB leads to it
  (`LibDropForks.DropTreeSkipsChild`).
- The index writer's shifts lose the multiples of 2^29. Rebuilding the index succeeds exactly below 2^29 blocks; with
  more, once the room left is full, the next word lands before the buffer; at a multiple of 2^29 the cursor starts at
  2^32 - 1, every word is accepted and completion fails (`BlockLogIndex.ConstructIndex`).
- An inactive feature counts as active at block number 2^32 - 1, and a feature activated at that number can be
  activated again, which links its slot to itself (`FeatureManager.FeatureManager.IsBuiltinActivated`,
  `FeatureManager.FeatureManager.ActivateTwiceAtReserved`). An activation keeps vector and list in agreement exactly
  below that number (`FeatureManager.FeatureManager.ActivateFeature`).
- The transaction fee is added to the memory usage without a check: the ledger balances afterwards exactly when the
  addition does not wrap (`MemLedger.MemLedger.ChargeFee`). Corrections are settled exactly when none is above 2^63,
  because of the cast to a signed number (`MemLedger.MemLedger.ActivateReplaceDeferred`).
- Unpacking takes more levels of recursion than packing. `AbiCodec.RoundTrip` gives the exact depth and
  `AbiNesting.NestedStructs` a family that needs 2n+1 levels against n+1; at the source's one limit for both a value can
  be packed and not unpacked (`AbiNesting.SameLimitCanFail`). Twice the levels always suffice (`AbiCodec.WholeRoundTrip`).
- A struct used as a base may be named like an optional or a built-in type; it is then packed as that type and
  unpacked as a struct (`AbiOptionalBase.OptionalBaseIsFlagged`, `AbiOptionalBase.OptionalBaseLosesValue`). For flat structs
  `AbiOptionalBase.OptionalBaseComesBackExactly` says exactly when the value survives; `AbiCodec.RoundTrip` holds for all
  other bases.
- A struct given as an array packs like the object it stands for exactly if the array does not end before an extension
  that a plain field follows (`AbiCodec.ArrayPacksAsObject`); what such an array packs to never unpacks
  (`AbiCodec.ArrayStopsEarly`, with `AbiFormat.EmptyArrayPacks` as an input).
- An unsigned 128-bit integer survives the trip through a double exactly when it has at most 53 significant bits or
  is 2^128 - 1, to which the way back saturates (`Int128ToDouble.RoundTrip`).

## Model

| member | source | states |
|---|---|---|
| BlockHeaderState.ScheduledProducer | libraries/chain/block_header_state.cpp:18-22 | slots go round the active schedule, each producer for its repetitions |
| OrderStatistic.NthElement | libraries/chain/block_header_state.cpp:33-35 | the element picked has at most k values below it and more than k at or below it |
| OrderStatistic.KthReaches | libraries/chain/block_header_state.cpp:29-35 | the k-th value reaches v exactly when at most k entries lie below v |
| OrderStatistic.KthMonotone | libraries/chain/block_header_state.cpp:24-36 | raising entries never lowers the k-th value |
| BlockHeaderState.CalcDposLastIrreversible | libraries/chain/block_header_state.cpp:24-36 | collecting the implied numbers and picking one third in gives the order statistic of the map, 0 for an empty one |
| BlockHeaderState.CountDown | libraries/chain/block_header_state.cpp:90-114 | the countdown loop decrements exactly the confirmed range down to the newest block that reaches zero, which becomes proposed and cuts off everything at or below it |
| BlockHeaderState.CarryOver | libraries/chain/block_header_state.cpp:126-139 | the loop gives each producer of the promoted schedule its own, its known or the initial number |
| BlockHeaderState.AssembleTemplate | libraries/chain/block_header_state.cpp:117-168 | schedule and both producer maps of the next block, with and without promotion |
| BlockHeaderState.ProduceTemplate | libraries/chain/block_header_state.cpp:72-168 | counts, proposed number, LIB and maps of the next block together |
| BlockHeaderState.ComputeNext | libraries/chain/block_header_state.cpp:38-171 | the whole step, with both errors: a time not in the future, exactly if one is given and it is at or before the parent's, and a double confirmation; without a time the block gets the next slot |
| DposFinality.GrowByNumber | libraries/chain/block_header_state.cpp:79-88 | growing the window gives the new block the full quorum and keeps every tracked block with its count, but for the oldest of a full window of 1024 |
| DposFinality.ConfirmByNumber | libraries/chain/block_header_state.cpp:90-114 | per block number: confirmed blocks lose one, the others nothing, no counter wraps, and only a block at count one becomes proposed |
| DposFinality.StepFacts | libraries/chain/block_header_state.cpp:223-316 | an accepted header agrees with its template in every field, and each field of the new state, the pending schedule included, is given in terms of the old state and the header |
| DposFinality.AcceptedExactly | libraries/chain/block_header_state.cpp:38-316 | a header is accepted if and only if its slot is later, its producer is the one scheduled for it, its range reaches in 32 bits only above that producer's last block, its schedule version is the active one, and it announces a schedule only with the next version and none pending |
| DposFinality.PromotedMaps | libraries/chain/block_header_state.cpp:121-161 | after a promotion the maps have exactly the new producers, each with the number it had, those who had none with the LIB, and the block's producer with its own |
| DposFinality.LibAtMostProposed | libraries/chain/block_header_state.cpp:24-36 | the LIB stays at or below the proposed number |
| DposFinality.StepKeepsStateOk | libraries/chain/block_header_state.cpp:38-171 | every accepted header keeps implied numbers and LIB at most the proposed number, that at most the block number, and never lowers the proposed number |
| DposFinality.DoubleConfirmCheckIsExact | libraries/chain/block_header_state.cpp:51-57 | the 32-bit test rejects exactly the overlapping ranges if and only if the range does not reach below block zero |
| DposFinality.NewConfirmer | libraries/chain/block_header_state.cpp:51-57 | a producer whose range stays within the chain and that confirms a height now has not confirmed it before |
| DposFinality.StepCountOf | libraries/chain/block_header_state.cpp:75-114 | after a header a counted block is counted right if and only if the producer does not confirm it a second time |
| DposFinality.ConfirmPastWindow | libraries/chain/block_header_state.cpp:90-114 | a range that reaches past the window leaves counted, or newly proposed, exactly the tracked blocks that no newer block at count one follows |
| DposFinality.StaysCountedIs | libraries/chain/block_header_state.cpp:79-114 | which blocks a wrapped range leaves counted is told by the state before the header |
| DposFinality.StepKeepsCountsExactly | libraries/chain/block_header_state.cpp:49-114 | after a header every count is the quorum minus the distinct confirmers if and only if the header does not wrap its range while its producer has made a block that is tracked before the header with no newer tracked block one confirmation short |
| DposFinality.StepKeepsCountInv | libraries/chain/block_header_state.cpp:49-114 | a header that repeats no counted vote keeps the invariant of counts and votes |
| DposFinality.RangesWithinChain | libraries/chain/block_header_state.cpp:51-57 | headers whose ranges do not reach below block zero repeat nothing |
| DposFinality.RunKeepsStateOk | libraries/chain/block_header_state.cpp:38-171 | the order of the numbers holds in every state of a run, and the proposed number never decreases over it |
| DposFinality.CountsAreQuorumMinusConfirmers | libraries/chain/block_header_state.cpp:49-114 | in any run under one schedule each count is the quorum minus the number of distinct producers whose range covers the block, as long as no header repeats a counted vote, and a header, judged by the state before it, makes a count wrong exactly if it does |
| DposFinality.NextProposedIs | libraries/chain/block_header_state.cpp:79-114 | which block a header makes proposed, if any, is the newest in its range that the window before it has at count one |
| DposFinality.ProposedHasQuorumExactly | libraries/chain/block_header_state.cpp:51-114 | the first header that may repeat a vote makes the block proposed that the window before it selects, with floor(2n/3)+1 distinct confirmers if and only if its producer has not confirmed that block before |
| DposFinality.ProposedHasQuorum | libraries/chain/block_header_state.cpp:75-114 | without repeated votes a block of the run becomes proposed only with floor(2n/3)+1 distinct confirmers, all of them in the schedule |
| DposFinality.ConflictingBranchesShareConfirmers | libraries/chain/block_header_state.cpp:51-114 | two branches under one schedule without repeated votes that both drive the same height to zero share more than a third of the producers |
| LastIrreversibleNumber.StepKeys | libraries/chain/block_header_state.cpp:121-168 | a promotion makes the implied map's keys the active producers and every step keeps them |
| LastIrreversibleNumber.LibHasTwoThirds | libraries/chain/block_header_state.cpp:24-36 | more than two thirds of the producers in the map the LIB is computed from imply it or a later number |
| LastIrreversibleNumber.OwnMapHasTwoThirds | libraries/chain/block_header_state.cpp:162-168 | without a promotion the same holds of the map the new state carries |
| LastIrreversibleNumber.PromotedMapHasTwoThirds | libraries/chain/block_header_state.cpp:121-161 | with a promotion it holds of the new map if and only if fewer than a third of the producers taking over are known to imply less than the LIB |
| LastIrreversibleNumber.LibReachesExactly | libraries/chain/block_header_state.cpp:24-36 | the next LIB reaches v exactly when few enough producers imply less; with the current LIB for v, exactly when it does not drop |
| LastIrreversibleNumber.StepLibOfMap | libraries/chain/block_header_state.cpp:117-168 | without promotion the LIB is the order statistic of the resulting map |
| LastIrreversibleNumber.LibNeverDecreases | libraries/chain/block_header_state.cpp:24-168 | over one schedule's map the LIB never decreases |
| LastIrreversibleNumber.ReachableKeys | libraries/chain/controller.cpp:449-468 | from the genesis state on, after the first block the map's keys are the active producers |
| LastIrreversibleNumber.LibSoundness | libraries/chain/block_header_state.cpp:24-168 | in every state reachable from genesis: the order of the numbers, the monotone proposed number, the keys, the monotone LIB between promotions, and two thirds of the state's own map behind the LIB, after a promotion exactly if few enough lag |
| ConflictingLibs.ImpliedByImpliers | libraries/chain/block_header_state.cpp:162-168 | under one schedule whoever implies a height of the run made a block of the run on top of a proposed number that reaches it |
| ConflictingLibs.LibHasImpliers | libraries/chain/block_header_state.cpp:24-36 | a height of the run becomes irreversible only after more than two thirds of the producers made such blocks |
| ConflictingLibs.LibHasQuorum | libraries/chain/block_header_state.cpp:75-114 | and, without repeated votes, only after a quorum of distinct producers confirmed some block at or above it |
| ConflictingLibs.ConflictingLibsShareImpliers | libraries/chain/block_header_state.cpp:24-171 | when the LIBs of two branches under one schedule both cover a height above their fork, more than a third of the producers made blocks on both of them on top of a proposed number that reaches it |
| HeaderRuns.PromotionCanLowerLib | libraries/chain/block_header_state.cpp:121-161 | a run of accepted headers from genesis in which the tenth block, promoting a schedule, has LIB 5 and the eleventh LIB 3 |
| HeaderRuns.PromotionCanLoseTwoThirds | libraries/chain/block_header_state.cpp:121-161 | in that run the map after the promotion has only half its producers at or above the LIB |
| HeaderRuns.WrappedRangeBreaksQuorum | libraries/chain/block_header_state.cpp:51-57 | a run of accepted headers from genesis in which, under four producers, a block becomes proposed with one confirmer instead of three |
| ForkTree.First | libraries/chain/fork_database.cpp:40-55 | the index order has a first block of any non-empty set |
| ForkTree.ChainNumbers | libraries/chain/fork_database.cpp:361-369 | numbers along a branch step down by one to just above the root |
| ForkTree.DescendsIffOnChain | libraries/chain/fork_database.cpp:361-369 | every stored block descends from the root, and its ancestors are exactly the ids on its branch |
| ForkTree.AddKeepsInv | libraries/chain/fork_database.cpp:299-334 | adding a block keeps the tree invariant, also when it becomes the head |
| ForkTree.AddedHeadHasSmallestHash | libraries/chain/fork_database.cpp:330-333 | of the validated blocks with the head's LIB and number, adding a block makes the one with the smallest hash the head |
| ForkTree.MarkValidKeepsInv | libraries/chain/fork_database.cpp:467-485 | validating a block keeps the invariant: no validated block is strictly preferred over the head |
| ForkTree.RemoveKeepsInv | libraries/chain/fork_database.cpp:444-465 | removing a subtree keeps the invariant |
| ForkTree.AdvanceRootKeepsInv | libraries/chain/fork_database.cpp:252-283 | a completed advance of the root keeps the invariant |
| ForkTree.HalfAdvancedKeepsInvExactly | libraries/chain/fork_database.cpp:252-283 | an advance that throws half way, the head lying elsewhere, keeps the invariant if and only if the block has no child |
| ForkTree.FailedAdvanceLeavesOrphan | libraries/chain/fork_database.cpp:271-276 | five named operations on a fresh database give exactly a tree in which the failed advance to a block leaves an orphan |
| ForkTree.PendingHeadIsBest | libraries/chain/fork_database.cpp:349-359 | no stored block at all is strictly preferred over the pending head, which is the head or strictly preferred over it; of the unvalidated blocks alike it has the smallest hash |
| ForkTree.RollbackKeepsAncestry | libraries/chain/fork_database.cpp:240-250 | a rollback keeps every block, its ancestors and its branch |
| ForkTree.BranchIsRemarked | libraries/chain/fork_database.cpp:467-485 | validating a branch of the rolled back tree, oldest first, flags exactly that branch and makes the best of it the head |
| ForkTree.RollbackIsUndone | libraries/chain/fork_database.cpp:240-250 | validating the old head's branch again restores blocks and flags of the branch, and the old head if and only if it was the root or is preferred over it; otherwise the root stays the head |
| ForkTree.PerformKeepsInvExactly | libraries/chain/fork_database.cpp:232-485 | every operation keeps the invariant, with that one exception exactly |
| ForkTree.RunKeepsInv | libraries/chain/fork_database.cpp:232-485 | after any sequence of operations none of which is such a failed advance: the invariant, descent of every block from the root, and the pending head being best; the first such advance breaks the invariant |
| ForkTree.PerformAllIsRun | libraries/chain/fork_database.cpp:232-485 | a list of operations performed one after the other is such a run, every tree in it well formed |
| ForkTree.StoreKeepsHead | libraries/chain/fork_database.cpp:299-334 | a block stored unvalidated leaves the head, if that is preferred over every other validated block |
| ForkTree.ValidateMakesHead | libraries/chain/fork_database.cpp:467-485 | a block preferred over the head becomes the head when it is validated |
| ForkDatabase.ForksAtLowestCommonAncestor | libraries/chain/fork_database.cpp:384-441 | the common ancestors of two blocks are exactly the root and what lies below both branches |
| ForkDatabase.NothingToPop | libraries/chain/fork_database.cpp:384-441 | the second branch is empty exactly when the second block is an ancestor of the first |
| ForkDatabase.WorklistIsSubtree | libraries/chain/fork_database.cpp:445-458 | a finished removal queue holds exactly the block and its descendants |
| ForkDatabase.PruneStep | libraries/chain/fork_database.cpp:271-276 | each removal in the root's advance takes exactly the blocks under the next ancestor that are not under the new root |
| ForkDatabase.ForkDatabase.RollbackHeadToRoot | libraries/chain/fork_database.cpp:240-250 | root and blocks stay, no flag is left, and the head is the root |
| ForkDatabase.ForkDatabase.Begin | libraries/chain/fork_database.cpp:330-332 | the first entry of the ordered index |
| ForkDatabase.ForkDatabase.Add | libraries/chain/fork_database.cpp:299-334 | the error is exactly unlinkable or duplicate and changes nothing; otherwise exactly the block is new, its flag as given, and the head is the best validated block; the invariant holds |
| ForkDatabase.ForkDatabase.MarkValid | libraries/chain/fork_database.cpp:467-485 | exactly the flag of a stored block is set, and the block becomes the head exactly if it was not validated and is preferred over it; unknown blocks are refused |
| ForkDatabase.ForkDatabase.CollectSubtree | libraries/chain/fork_database.cpp:445-458 | the worklist ends, holds exactly the subtree, and hits the head exactly if the head descends from the block |
| ForkDatabase.ForkDatabase.Remove | libraries/chain/fork_database.cpp:444-465 | exactly the blocks that descend from the given one are gone, the others keep their flags; it throws exactly if the head is among them, and changes nothing |
| ForkDatabase.ForkDatabase.Ancestors | libraries/chain/fork_database.cpp:262-267 | the collected ids are the parents down to the root, and the orphan assertion never fires |
| ForkDatabase.ForkDatabase.AdvanceRoot | libraries/chain/fork_database.cpp:252-283 | it succeeds exactly for a stored validated ancestor of the head, which becomes the root, and exactly its strict descendants are left, with their flags; with the head elsewhere it throws, and what is left is exactly the half advanced tree |
| ForkDatabase.ForkDatabase.GetPendingHead | libraries/chain/fork_database.cpp:349-359 | the best unvalidated block if it is preferred over the head, else the head |
| ForkDatabase.ForkDatabase.FetchBranch | libraries/chain/fork_database.cpp:361-369 | the branch above the root, newest first, cut above the given number |
| ForkDatabase.ForkDatabase.Descend | libraries/chain/fork_database.cpp:393-413 | walking down to a number collects the branch on the way and never misses a block |
| ForkDatabase.ForkDatabase.MatchLevels | libraries/chain/fork_database.cpp:417-433 | walking down together keeps the branches disjoint until they share a parent |
| ForkDatabase.ForkDatabase.FetchBranchFrom | libraries/chain/fork_database.cpp:384-441 | throws exactly for unknown blocks; otherwise the two disjoint branches end just above the lowest common ancestor, also when one block is an ancestor of the other or is the root |
| ForkDatabaseFile.IndexOrder | libraries/chain/fork_database.cpp:183-189 | reading the index from begin to end lists every block once in index order |
| ForkDatabaseFile.MergeHalves | libraries/chain/fork_database.cpp:185-216 | the merge writes every block once with its flag, none before one it is preferred over |
| ForkDatabaseFile.Close | libraries/chain/fork_database.cpp:165-226 | the file holds root, merged blocks and head, and the index is emptied |
| ForkDatabaseFile.Open | libraries/chain/fork_database.cpp:87-163 | the database is what adding the entries in order gives, or their first error |
| ForkDatabaseFile.RestoreHead | libraries/chain/fork_database.cpp:137-158 | the saved head is installed if it is known and no better one is available |
| ForkDatabaseFile.LoadsExactly | libraries/chain/fork_database.cpp:125-135 | any list of entries loads if and only if they are distinct and each links to the root or an earlier one, and the tree then holds exactly them with their flags |
| ForkDatabaseFile.OpensExactly | libraries/chain/fork_database.cpp:87-163 | a file opens if and only if its entries load, its head is the root or one of them, no validated block is preferred over it, and without validated blocks it is the root; the invariant holds if and only if the head is the root or validated |
| ForkDatabaseFile.UnvalidatedHeadOpens | libraries/chain/fork_database.cpp:137-158 | a file whose head is not validated, beside a validated block of the same number and LIB, opens |
| ForkDatabaseFile.ParentPosition | libraries/chain/fork_database.cpp:183-216 | in the file a block follows its stored parent exactly when the LIB does not decrease from parent to block |
| ForkDatabaseFile.ReopenRestoresExactly | libraries/chain/fork_database.cpp:125-219 | reopening restores the same blocks, flags, root and head if and only if no stored link lowers the LIB, and otherwise stops at an unlinkable block |
| LibDropForks.LineIsReached | libraries/chain/fork_database.cpp:252-485 | for any branch with non-decreasing LIBs, storing and validating each block and advancing the root whenever the LIB rises gives exactly the tree with the blocks after the LIB, the last as head |
| LibDropForks.LinePending | libraries/chain/fork_database.cpp:349-359 | each block of such a branch, once stored, is the pending head, so it is the block to be validated |
| LibDropForks.DropTreeDoesNotReload | libraries/chain/fork_database.cpp:125-219 | receiving the blocks of the run with the dropping LIB, and storing the one with the dropped number, gives exactly a fork tree that satisfies the invariant and does not reload |
| NodeState.SyncedIsUnique | libraries/chain/controller.cpp:256-278 | state and undo stack at a block are determined by the tree |
| NodeState.PopSynced | libraries/chain/controller.cpp:256-278 | undoing the newest block gives state and undo stack of its parent |
| NodeState.SyncedFrame | libraries/chain/controller.cpp:2110-2142 | being in step depends only on the head's branch |
| NodeState.RemoveKeepsTree | libraries/chain/controller.cpp:2123-2125 | removing a rejected block's subtree touches nothing validated |
| NodeState.AdvanceKeepsNode | libraries/chain/controller.cpp:405-443 | moving the root along the head's branch keeps the node in step with a shorter undo stack |
| Controller.Controller.constructor | libraries/chain/controller.cpp:449-468 | a node at the root of a fresh fork tree with a log ending there is ready, with nothing to undo |
| Controller.Controller.PopBlock | libraries/chain/controller.cpp:256-278 | head, state and undo stack go back to the parent; below the root it throws and changes nothing |
| Controller.Controller.PopBranch | libraries/chain/controller.cpp:2097-2103 | popping the abandoned branch arrives at the common ancestor in step and never fails |
| Controller.Controller.ReapplyBranch | libraries/chain/controller.cpp:2136-2139 | re-applying the abandoned branch never fails and brings the old head back in step |
| Controller.Controller.ApplyBranch | libraries/chain/controller.cpp:2108-2118 | the new branch is applied and validated up to the first rejected block, and exactly the blocks before it are validated |
| Controller.Controller.PushChild | libraries/chain/controller.cpp:2084-2092 | a child of the head is applied and validated, or removed with head and state unchanged |
| Controller.Controller.SwitchForks | libraries/chain/controller.cpp:2093-2144 | head and state are exactly the new branch applied on the common ancestor, or exactly the old ones with only the failing block and its descendants gone and exactly the blocks below it validated; in the latter case the read past the end is reached exactly when the new head descends from the head |
| Controller.Controller.RevertSwitch | libraries/chain/controller.cpp:2119-2141 | the reversal restores head, state and undo stack exactly, removes only the rejected subtree and leaves exactly the blocks below it validated; with nothing popped it ends in the read past the end |
| Controller.Controller.SwitchTo | libraries/chain/controller.cpp:2080-2147 | all or nothing for any new head; it succeeds exactly if every block of the branch is accepted, and fails by the read past the end exactly if it does not and the new head is two or more blocks up the head's own branch |
| Controller.SkipsChildIs | libraries/chain/controller.cpp:2084-2093 | two or more blocks up the own branch is what is left for the second case besides other branches |
| LibDropForks.DropTreeKeepsHead | libraries/chain/fork_database.cpp:349-359 | the block with the dropped LIB is not preferred over the head, so it stays unvalidated |
| LibDropForks.DropTreeSkipsChild | libraries/chain/controller.cpp:2093-2104 | storing one block more gives exactly a tree whose best block is two blocks up the head's own branch |
| Controller.Controller.LogIrreversible | libraries/chain/controller.cpp:387-444 | the log grows by exactly the path from the old root to the block numbered LIB, no assertion fires, root and log head agree, and nothing irreversible is left unlogged |
| Controller.Controller.AppendBranch | libraries/chain/controller.cpp:409-431 | committing and appending block by block never misses the append position |
| Controller.Controller.MaybeSwitchForks | libraries/chain/controller.cpp:2080-2152 | the best block becomes the head exactly if its branch is accepted, and then the log grows by exactly the path from the root to the block numbered its LIB; otherwise which of the two failures, and exactly what is dropped and validated |
| Controller.Controller.PushBlock | libraries/chain/controller.cpp:1997-2027 | the database refuses the block and nothing changes, or the node goes for the best block with it stored: head, log growth and failure are exactly those of the switch to that block; an error changes neither head, state, undo stack nor log |
| Controller.Controller.PushBlocks | libraries/chain/controller.cpp:1997-2027 | each block of any sequence is received in the state the one before left, exactly as by a single push; the old log is a prefix of the new one; it stops early exactly at a read past the end |
| BlockLog.BlockAt | libraries/chain/block_log.cpp:299-310 | block k lies at its position and the word after it repeats that position |
| BlockLog.Log.Append | libraries/chain/block_log.cpp:289-317 | file and index grow by exactly the block, or the position assertion refuses a block that does not come next, also one before the first |
| BlockLog.Log.GetBlockPos | libraries/chain/block_log.cpp:436-444 | the position read from the index is where the block's bytes start in the file, and none exactly outside the log |
| BlockLogIndex.ReverseIterator.UpdateBuffer | libraries/chain/block_log.cpp:855-872 | the buffer mirrors the part of the file that ends with the word at the cursor |
| BlockLogIndex.ReverseIterator.Open | libraries/chain/block_log.cpp:762-815 | opening a well-formed log answers its number of blocks for any buffer size |
| BlockLogIndex.ReverseIterator.Previous | libraries/chain/block_log.cpp:817-853 | each call answers the next block start towards the front, then none, for good, and no assertion fires |
| BlockLogIndex.LocationsAreExact | libraries/chain/block_log.cpp:125-126 | the 32-bit shifts are exact if and only if there are fewer than 2^29 words, and there and back give the number modulo 2^29 |
| BlockLogIndex.IndexWriter.ShiftBuffer | libraries/chain/block_log.cpp:909-926 | the buffer is written where the shifts put it exactly when the cursor has passed below it, and fails exactly if its size modulo 2^29 is zero |
| BlockLogIndex.IndexWriter.PrepareBuffer | libraries/chain/block_log.cpp:893-907 | while words fit, the cursor lies in the window afterwards and what was written is kept; past the room left it lies before the buffer; with no room it goes down from 2^32 - 1 |
| BlockLogIndex.IndexWriter.Write | libraries/chain/block_log.cpp:882-891 | one more word of the target is in place, from the back; the word after the last that there is room for is an error; with no room for any, words are accepted |
| BlockLogIndex.IndexWriter.Complete | libraries/chain/block_log.cpp:928-935 | the file is exactly the target; with no room for any word completion fails |
| BlockLogIndex.ConstructIndex | libraries/chain/block_log.cpp:493-516 | for every well-formed log and any buffer sizes the rebuilt index is the sequence of positions the appends wrote if and only if there are fewer than 2^29 blocks; otherwise a write before the buffer, or failed completion at a multiple of 2^29 |
| FeatureManager.FeatureSet.Satisfied | libraries/chain/protocol_feature_manager.cpp:421-442 | the loop finds the expected builtin dependencies, or an unrecognized one |
| FeatureManager.FoundAll | libraries/chain/protocol_feature_manager.cpp:444-467 | comparing sizes detects exactly a missing builtin dependency |
| FeatureManager.AddKeepsSetOk | libraries/chain/protocol_feature_manager.cpp:406-491 | adding keeps slots and features describing each other one to one, with all dependencies recognized |
| FeatureManager.FeatureSet.AddFeature | libraries/chain/protocol_feature_manager.cpp:406-491 | a feature is added exactly when its codename is known, its slot free, its digest new and its dependencies complete |
| FeatureManager.PushKeepsAgreement | libraries/chain/protocol_feature_manager.cpp:676-680 | after an activation the list from its head is still the vector reversed, all other slots inactive, if and only if its number is below 2^32 - 1 |
| FeatureManager.PopKeepsAgreement | libraries/chain/protocol_feature_manager.cpp:685-692 | resetting the head's slot leaves the list of the shorter vector |
| FeatureManager.AgreementDetermines | libraries/chain/protocol_feature_manager.cpp:634-699 | the vector determines every slot and the head |
| FeatureManager.LowerBound | libraries/chain/protocol_feature_manager.cpp:594-607 | exactly the activations before the bound are below the block number |
| FeatureManager.UpperBound | libraries/chain/protocol_feature_manager.cpp:609-622 | exactly the activations before the bound are at or below the block number |
| FeatureManager.PopUndoes | libraries/chain/protocol_feature_manager.cpp:682-699 | popping back to before some activations restores every slot and the head of that time |
| FeatureManager.SelfLoopIsNoList | libraries/chain/protocol_feature_manager.cpp:670-680 | a slot linked to itself heads no list at all |
| FeatureManager.FeatureManager.constructor | libraries/chain/protocol_feature_manager.cpp:495-499 | a new manager has an empty stack and inactive slots |
| FeatureManager.FeatureManager.Init | libraries/chain/protocol_feature_manager.cpp:501-513 | replaying the stored activations brings back the stack that stored them, and keeps vector and list in agreement exactly if none is at 2^32 - 1; a second call is refused |
| FeatureManager.FeatureManager.IsBuiltinActivated | libraries/chain/protocol_feature_manager.cpp:624-632 | true exactly when the vector has the feature at or before the number, or the number is 2^32 - 1 and the slot exists |
| FeatureManager.FeatureManager.ActivateFeature | libraries/chain/protocol_feature_manager.cpp:634-680 | succeeds exactly under its six conditions; the stack grows by one in both forms, which stay in agreement exactly below 2^32 - 1; a second activation is possible exactly at that number |
| FeatureManager.FeatureManager.ActivateTwiceAtReserved | libraries/chain/protocol_feature_manager.cpp:670-680 | two activations at 2^32 - 1 link the slot to itself, and no list can be read from the head any more |
| FeatureManager.FeatureManager.PoppedBlocksTo | libraries/chain/protocol_feature_manager.cpp:682-699 | both loops together undo exactly the activations made after the block |
| ActionTree.ScheduleKeepsTraces | libraries/chain/transaction_context.cpp:546-589 | scheduling keeps creators before their actions, ancestors unnotified, and receipts and executed actions one to one |
| ActionTree.NotifyKeepsContext | libraries/chain/apply_context.cpp:230-237 | a new recipient keeps the context: distinct receivers, every new ordinal in exactly one list |
| ActionOrder.ExecutedOnce | libraries/chain/apply_context.cpp:144-149 | no action is executed twice |
| ActionOrder.AllDoneCounts | libraries/chain/transaction_context.cpp:277-282 | when every trace has a receipt there are exactly as many receipts as traces |
| ActionTree.NoticesSettle | libraries/chain/apply_context.cpp:167-187 | once the notices of an action have run, nobody has been notified twice of one action, every cause has been executed, and what it caused is as deep as it for notices and one deeper for inline actions |
| Execution.Transaction.ScheduleAction | libraries/chain/transaction_context.cpp:546-589 | the new trace gets the next ordinal |
| Execution.Transaction.ExecuteAction | libraries/chain/transaction_context.cpp:591-594 | exactly the action and everything scheduled because of it run, depth first: the action, its notices, its context-free inline actions and its others, each with all it causes; none deeper than the limit and none a second notice of one action to one receiver; no other trace changes |
| Execution.Transaction.Exec | libraries/chain/transaction_context.cpp:263-287 | a transaction that ends without exception ran every scheduled action exactly once, in depth-first order from its original actions; each executed action scheduled exactly the inline actions its contract asked for, in order, every account to be notified received it and no other; two notices of one action have different receivers, and no chain of inline actions is longer than the limit; receivers exist, and accounts are those known and those created; an error is a failed contract, an account that does not exist or an inline action sent at the limit; it terminates |
| Execution.Transaction.RunOriginals | libraries/chain/transaction_context.cpp:277-282 | the loop runs the original actions in order, each with everything it causes |
| ActionOrder.RequestAnswered | libraries/chain/apply_context.cpp:230-358 | the requests up to one that has just been scheduled are answered: inline actions one for one and in order, accounts among the receivers |
| ActionOrder.ListsAreChildren | libraries/chain/apply_context.cpp:167-187 | the three lists of a context are exactly what its action caused, notices, context-free and other inline actions, in the order of their ordinals |
| ActionOrder.OrderOfContext | libraries/chain/apply_context.cpp:167-189 | running the notices, then the one list and then the other is the depth-first order of what the action caused in the end |
| Execution.ApplyContext.HasRecipient | libraries/chain/apply_context.cpp:223-228 | true exactly for accounts already notified |
| Execution.ApplyContext.Handle | libraries/chain/apply_context.cpp:230-358 | exactly what is asked for is scheduled: an inline action with its kind, creator and ancestor, or a notice of the same action to an account that does not receive it yet; refused exactly for an inline action of an account that does not exist |
| Execution.ApplyContext.HandleAll | libraries/chain/apply_context.cpp:230-358 | all requests of a contract are answered, or one of them names an account that does not exist |
| Execution.ApplyContext.ExecOne | libraries/chain/apply_context.cpp:52-154 | one call gives exactly the current action its receipt, schedules exactly what its contract asks for, and adds the accounts created by the native handler |
| Execution.ApplyContext.ExecNotices | libraries/chain/apply_context.cpp:167-174 | the loop over the growing list ends with exactly the action and all notified receivers run |
| Execution.ApplyContext.ExecInlines | libraries/chain/apply_context.cpp:181-187 | each inline action of the list and all it causes run, one level deeper |
| Execution.ApplyContext.Exec | libraries/chain/apply_context.cpp:167-189 | notices, then context-free, then other inline actions: everything scheduled in the context ran, in depth-first order; too deep a nesting is refused |
| ResourceLimits.ReplaceIsExact | libraries/chain/resource_limits.cpp:299-311 | with totals that agree only an overflow can refuse a replacement, exactly when the new sum does not fit; the underflow assertion is unreachable |
| ResourceLimits.TotalsByField | libraries/chain/resource_limits.cpp:294-331 | totals that agree with the committed limits are the sums of their positive memory, net and CPU limits, field by field |
| ResourceLimits.ResourceLimits.constructor | libraries/chain/resource_limits.cpp:56-68 | no accounts and zero totals |
| ResourceLimits.ResourceLimits.InitializeAccount | libraries/chain/resource_limits.cpp:93-101 | a new account is unlimited and adds nothing to the totals |
| ResourceLimits.ResourceLimits.SetAccountLimits | libraries/chain/resource_limits.cpp:229-277 | only the pending limits change; the answer says whether the memory limit went down |
| ResourceLimits.ResourceLimits.Collapse | libraries/chain/resource_limits.cpp:315-328 | one account's pending limits become committed and the memory, net and CPU totals follow, exactly when all three sums fit |
| ResourceLimits.ResourceLimits.ProcessAccountLimitUpdates | libraries/chain/resource_limits.cpp:294-331 | afterwards the memory total is the sum of the positive committed memory limits, and so for net and CPU, nothing is pending and no answer has changed; it succeeds if and only if the totals fit after every replacement in the order of the names, as they do when committed and pending values fit together |
| MemLedger.Billable | libraries/chain/include/inery/chain/contract_table_objects.hpp:241-252 | with indices and alignment a table costs 112 bytes, a row 112 more than its data and a deferred transaction 272 more than its packed size |
| MemLedger.StoreKeepsTables | libraries/chain/apply_context.cpp:671-694 | table counts stay the number of their rows when a row is stored |
| MemLedger.RemoveKeepsTables | libraries/chain/apply_context.cpp:726-746 | and when one is removed, the last one with its table |
| MemLedger.EraseBalances | libraries/chain/resource_limits.cpp:195-210 | a refund never underflows and keeps every account's balance |
| MemLedger.CorrectionBalances | libraries/chain/apply_context.cpp:492-497 | dropping an item without refund and noting a correction keeps the balance and never wraps |
| MemLedger.SettleBalances | libraries/chain/controller.cpp:3335-3349 | a correction is covered by the usage, and taking both away keeps the balance |
| MemLedger.SettleCast | libraries/chain/controller.cpp:3338-3346 | a covered correction is taken off exactly if and only if it is at most 2^63 |
| MemLedger.FeeBalances | libraries/chain/resource_limits.cpp:139-143 | adding the fee keeps the balance if and only if it does not wrap |
| MemLedger.MemLedger.NewAccount | libraries/chain/resource_limits.cpp:93-101 | an account starts with no usage |
| MemLedger.MemLedger.StoreRow | libraries/chain/apply_context.cpp:671-694 | the row and, if needed, its table are stored and paid for, exactly when the row is new, the payer named and allowed and able to pay; otherwise nothing changes |
| MemLedger.MemLedger.UpdateRow | libraries/chain/apply_context.cpp:696-724 | a new payer is charged and the old one refunded, the same payer pays the difference; succeeds exactly when allowed and payable |
| MemLedger.MemLedger.RemoveRow | libraries/chain/apply_context.cpp:726-746 | the row, and the table with its last row, are refunded; nothing but a missing row or a foreign table can refuse it |
| MemLedger.MemLedger.ScheduleDeferred | libraries/chain/apply_context.cpp:482-540 | a deferred transaction is paid for; a replaced one is refunded once the feature is active and becomes a correction before; the exact conditions of success |
| MemLedger.MemLedger.ScheduleDelayed | libraries/chain/transaction_context.cpp:597-623 | a delayed transaction is paid for by its first authorizer, exactly when it is new and payable |
| MemLedger.MemLedger.RemoveDeferred | libraries/chain/apply_context.cpp:542-550 | a cancelled or retired transaction is refunded, nothing happens for an unknown one |
| MemLedger.MemLedger.ChargeFee | libraries/chain/resource_limits.cpp:139-143 | the fee is its own term; the ledger balances afterwards if and only if the addition does not wrap |
| MemLedger.MemLedger.ChargeOther | libraries/chain/resource_limits.cpp:195-210 | a charge succeeds exactly if it is zero or the account exists and its usage stays within 64 bits; it keeps the balance if and only if no more is refunded than was charged, and only then can underflow |
| MemLedger.MemLedger.ActivateReplaceDeferred | libraries/chain/controller.cpp:3335-3349 | every correction is taken off its account and none remains, without the clamp, if and only if all are at most 2^63 |
| AbiTypes.EndsWithinSize | libraries/chain/abi_serializer.cpp:306-316 | a trail of definitions that ends does so within as many steps as there are definitions |
| AbiTypes.ResolveReachesEnd | libraries/chain/abi_serializer.cpp:306-316 | the bounded loop reaches a name that is not a definition, and resolving again changes nothing |
| AbiTypes.ResolveType | libraries/chain/abi_serializer.cpp:306-316 | the loop computes that name |
| AbiTypes.CheckTrail | libraries/chain/abi_serializer.cpp:256-266 | a definition is refused exactly if its trail never ends |
| AbiTypes.ValidateTypedefs | libraries/chain/abi_serializer.cpp:255-266 | validation passes exactly if every trail ends |
| AbiCodec.UintRoundTrip | libraries/fc/include/fc/io/raw.hpp:214-242 | a 32-bit size survives its variable-length form |
| AbiCodec.UintBytes | libraries/fc/include/fc/io/raw.hpp:214-222 | the bytes are the groups of seven bits, lowest first, all but the last with the highest bit set |
| AbiCodec.UintReads | libraries/fc/include/fc/io/raw.hpp:234-242 | reading takes the bytes up to the first without the highest bit, at most five, and gives the number they stand for cut to 32 bits; it fails exactly if the stream ends before |
| AbiCodec.RoundTrip | libraries/chain/abi_serializer.cpp:318-546 | unpacking what was packed gives back the value and the rest of the stream exactly if it may go as deep as the value needs, and says too deep otherwise; left-out trailing extensions included |
| AbiCodec.ItemsRoundTrip | libraries/chain/abi_serializer.cpp:365-387 | the same for the elements of an array |
| AbiCodec.ObjectRoundTrip | libraries/chain/abi_serializer.cpp:318-349 | a struct's fields and its bases' come back as exactly the part of the object they name |
| AbiCodec.FieldsRoundTrip | libraries/chain/abi_serializer.cpp:500-520 | present fields come back, left-out extensions stay out, and a present field takes at least a byte |
| AbiCodec.ArrayPacksAsObject | libraries/chain/abi_serializer.cpp:521-539 | a struct's fields given as an array pack like the object they stand for, left-out trailing extensions and errors included, if and only if the array does not end before an extension that a plain field follows |
| AbiCodec.ArrayRoundTripAsObject | libraries/chain/abi_serializer.cpp:318-539 | such an array is unpacked as that object |
| AbiCodec.ArrayStopsEarly | libraries/chain/abi_serializer.cpp:329-348 | what an array packs to that ends before an extension, with a plain field after it, never unpacks |
| AbiFormat.EmptyArrayPacks | libraries/chain/abi_serializer.cpp:521-539 | an ABI by which the empty array packs to nothing, while the object without fields does not pack and nothing does not unpack |
| AbiCodec.ItemsInOrder | libraries/chain/abi_serializer.cpp:454-467 | an array's elements are packed one after the other |
| AbiCodec.FieldsInOrder | libraries/chain/abi_serializer.cpp:500-520 | so are a struct's fields |
| AbiFormat.FormatBytes | libraries/chain/abi_serializer.cpp:443-546 | the bytes of one value: base before fields, size before elements, flag before an optional value, index before a variant's value |
| AbiFormat.TailMayBeLeftOut | libraries/chain/abi_serializer.cpp:443-499 | an extension may be left out inside an optional and a variant, not inside an array element or a base |
| AbiFormat.LastFieldMayLeaveOut | libraries/chain/abi_serializer.cpp:500-520 | and inside the last field, not inside another |
| AbiValues.UnpackedIsCanonical | libraries/chain/abi_serializer.cpp:318-414 | whatever bytes unpack give a canonical value: no nulls in arrays, no struct without fields, only fields of the struct, each canonical for its type |
| AbiValues.ItemsAreCanonical | libraries/chain/abi_serializer.cpp:365-387 | an unpacked array has the size that was read and no nulls |
| AbiValues.ObjectIsCanonical | libraries/chain/abi_serializer.cpp:318-349 | unpacking a struct adds fields of it and of its bases, and changes none that was there |
| AbiValues.UnpackedComesBack | libraries/chain/abi_serializer.cpp:318-546 | a value that was unpacked comes back whenever it packs again |
| AbiValues.PackedShape | libraries/chain/abi_serializer.cpp:443-546 | only values of the type's shape pack, and an array's size is written cut to 32 bits |
| AbiCodec.DepthAtMostTwice | libraries/chain/abi_serializer.cpp:318-414 | unpacking needs at most twice the levels packing was allowed |
| AbiCodec.WholeRoundTrip | libraries/chain/abi_serializer.cpp:318-546 | a whole canonical value packed within some levels is unpacked within twice as many |
| AbiNesting.NestedStructs | libraries/chain/abi_serializer.cpp:318-546 | for every n and built-in type, n nested structs pack in exactly n+1 levels and unpack in exactly 2n+1 |
| AbiNesting.SameLimitCanFail | libraries/chain/include/inery/chain/abi_serializer.hpp:114-127 | at the limit of 32, sixteen to thirty nested structs pack and do not unpack |
| AbiOptionalBase.OptionalBaseIsFlagged | libraries/chain/abi_serializer.cpp:468-499 | any base whose name resolves to that of an optional type is packed as a flag and the type behind the name, and unpacked as the struct of that name |
| AbiOptionalBase.OptionalBaseComesBackExactly | libraries/chain/abi_serializer.cpp:318-499 | a value behind such a base, a flat struct, comes back if and only if the struct packs to the very bytes that the optional type does |
| AbiOptionalBase.OptionalBaseLosesValue | libraries/chain/abi_serializer.cpp:324-327 | an ABI with such a base for which that never holds: every value packs with a flag that unpacking takes for the field, and leaves a byte in the stream |
| AbiSerializer.Packer.VariantToBinary | libraries/chain/abi_serializer.cpp:443-546 | the stream grows by what type and value pack to, or the same error is thrown; depth and extension flag are restored |
| AbiSerializer.Packer.PackElements | libraries/chain/abi_serializer.cpp:454-467 | the loop over an array packs each element with extensions disallowed |
| AbiSerializer.Packer.PackObject | libraries/chain/abi_serializer.cpp:500-520 | the loop over the fields of an object, with each of its three errors |
| AbiSerializer.Packer.PackList | libraries/chain/abi_serializer.cpp:521-539 | the loop over the fields of a struct given as an array packs them in order and stops where extensions are left out |
| AbiSerializer.Packer.PackField | libraries/chain/abi_serializer.cpp:507-511 | only the last field may leave out extensions of its own |
| AbiSerializer.Unpacker.BinaryToVariant | libraries/chain/abi_serializer.cpp:351-414 | the value and the rest of the stream that the type unpacks to, or the same error |
| AbiSerializer.Unpacker.UnpackElements | libraries/chain/abi_serializer.cpp:371-380 | the loop over the elements of an array, which refuses nulls |
| AbiSerializer.Unpacker.UnpackInto | libraries/chain/abi_serializer.cpp:318-349 | the base's fields first, then the struct's own |
| AbiSerializer.Unpacker.UnpackFieldList | libraries/chain/abi_serializer.cpp:329-348 | the loop over the fields, extensions skipped at the end of the stream |
| AbiSerializer.PackThenUnpack | libraries/chain/abi_serializer.cpp:318-546 | packing with the packer and unpacking with the unpacker returns the value |
| Int128ToDouble.Clzti2CountsLeadingZeros | libraries/builtins/int_t.h:45-52 | counting by halves gives 128 minus the bit length |
| Int128ToDouble.GuardBitsRound | libraries/builtins/floatuntidf.c:45-62 | shifting with a sticky bit, or-ing the last kept bit, adding one and dropping two bits rounds half to even |
| Int128ToDouble.FloatMagnitude | libraries/builtins/floatuntidf.c:26-76 | the shifting code computes the rounded significand and its exponent, carry included |
| Int128ToDouble.FloatUnTiDf | libraries/builtins/floatuntidf.c:26-76 | the unsigned conversion computes the conversion function |
| Int128ToDouble.FloatTiDf | libraries/builtins/floattidf.c:26-79 | the signed conversion computes the conversion function on the magnitude |
| Int128ToDouble.UnsignedIsNearestEven | libraries/builtins/floatuntidf.c:26-76 | for every unsigned input no finite double is nearer, and a tie is won by the even significand |
| Int128ToDouble.SignedIsNearestEven | libraries/builtins/floattidf.c:26-79 | the same for every signed input, the most negative included |
| Int128ToDouble.FixTruncates | libraries/builtins/fixunsdfti.c:15-37 | a non-negative double is truncated to an integer, saturates beyond the range and for what is no number, and a negative one gives zero |
| Int128ToDouble.RoundTrip | libraries/builtins/fixunsdfti.c:15-37 | an unsigned integer comes back if and only if it has at most 53 significant bits or is the largest |

## Left out

- Block application, contracts, authorization checks, hashing, signatures and built-in ABI types are parameters: arbitrary functions, sets or a codec with a round-trip hypothesis.
- BlockHeaderState.ComputeNext: block merkle root, signing authority, protocol feature sets and the legacy form of a schedule change are not part of the header state.
- DposFinality.StepFacts: the comparison of the previous block's id and the header extension checks are not modelled; a header's extensions are the announced schedule alone.
- DposFinality.StepKeepsCountInv: for headers that repeat no counted vote, which `DposFinality.StepKeepsCountsExactly` shows to be exactly those that keep the counts.
- DposFinality.CountsAreQuorumMinusConfirmers: up to the first header that repeats a counted vote, which is shown to make a count wrong.
- DposFinality.ProposedHasQuorum: for runs without repeated votes, since it fails for `HeaderRuns.WrappedRangeBreaksQuorum`.
- DposFinality.ConflictingBranchesShareConfirmers: for branches without repeated votes, for the same reason.
- ConflictingLibs.LibHasQuorum: for runs without repeated votes, for the same reason.
- LastIrreversibleNumber.LibHasTwoThirds: speaks of the map the LIB is computed from; the state's own map is the subject of `LastIrreversibleNumber.OwnMapHasTwoThirds` and `LastIrreversibleNumber.PromotedMapHasTwoThirds`.
- Controller.Controller.SwitchForks: what the source does at the read past the end of an empty branch is undefined; the model states the situation at that read and nothing after it.
- Controller.Controller.PopBlock: the reversible block index, the assertion about blocks loaded from a snapshot and the feature manager's pop are not modelled.
- Controller.Controller.PushBlock: irreversible read mode, trusted-producer light validation, the reversible block index, the head block's presence after a snapshot and the feature manager's pop are not modelled; block ids carry their number, as hashing a header guarantees.
- Controller.Controller.LogIrreversible: the controller's log is a sequence of blocks; the byte-level log is `BlockLog`, and the two are not one object.
- ForkDatabaseFile.Close: the file is a value with root, entries and head; the byte format, magic number and version are not modelled.
- ForkDatabaseFile.Open: the validator that may refuse the protocol features of an entry is not modelled.
- BlockLogIndex.ConstructIndex: file errors, and logs that are not well formed, are not modelled; what the source does after the write before the buffer is undefined.
- LibDropForks.LineIsReached: for a branch from block 1 on whose ids differ in their numbers alone.
- Execution.Transaction.Exec: 32-bit ordinals do not wrap in the model, and storing a delayed transaction at the end is `MemLedger.MemLedger.ScheduleDelayed`, not part of this method.
- Execution.ApplyContext.Handle: authorization, actor lists and size limits of inline actions are part of the contract's arbitrary failures.
- Execution.ApplyContext.ExecOne: sequence numbers, timing, whitelists and the memory restriction check are left out; native handlers create accounts only in a context's first call, as they run for the action's own account only.
- ResourceLimits.ResourceLimits.ProcessAccountLimitUpdates: after an overflow the state is not described, as the caller discards it.
- MemLedger.MemLedger.StoreRow: row counts are unbounded instead of 32 bits, sizes are below 2^32, and what authorization allows is a set of chargeable accounts; secondary indices are left out.
- AbiCodec.RoundTrip: for values whose arrays hold no nulls and whose structs have at least one field, none unknown, as no others come out of unpacking (`AbiValues.UnpackedIsCanonical`), and for bases that are not named like an optional or a built-in type that accepts objects, for which it can fail (`AbiOptionalBase.OptionalBaseLosesValue`). Objects are maps, so key order is not modelled.
- AbiOptionalBase.OptionalBaseComesBackExactly: for structs of built-in fields without a base of their own, and built-in types that unpack from nothing but what they pack to, as sizes and presence flags have several encodings.
- AbiCodec.ArrayRoundTripAsObject: for structs with distinct field names and no base, which the source demands of arrays.
- AbiValues.UnpackedIsCanonical: for ABIs in which no struct has two fields of one name, its bases' included; the later one overwrites the earlier.
- AbiTypes.ValidateTypedefs: the other parts of ABI validation (unknown types, base cycles, duplicates) are not modelled; the level limit bounds recursion instead.
- Int128ToDouble.FloatTiDf: the negation of the most negative number overflows in C; the model takes the two's complement result.
- CPU and net usage averages, elastic limits, snapshots, block log repair and trimming, wasm runtimes, plugins and the command-line programs are not modelled.
