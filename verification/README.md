# Verified models of EOSIO algorithms

A Dafny model of algorithms of the EOSIO blockchain node, its compiler builtins, its tests and its tools, with proofs of
what they promise. The main results:

- **Irreversibility.** Block headers count confirmations, propose blocks as irreversible, make them irreversible and
  change the producer schedule. `Irreversibility` proves over chains of accepted headers that an irreversible block was
  confirmed by as many different producers as it needed (`TwoPhases`: in two phases), `Progress` that every block becomes
  irreversible if the producers take their turns, `Advancing` exactly when irreversibility can go back, `Quorums` how much
  two chains have in common, and `PendingSchedules` how a new schedule becomes active. `RepeatingChain` and
  `FallingChain` are chains where irreversibility is not backed and where it goes back.
- **Fork database.** `ForkDatabase` keeps a tree of blocks with the best validated block as its head through adding,
  validating, removing branches and advancing the root, and finds the deepest common ancestor of two blocks.
- **Merkle trees.** The incremental tree of `Merkle` equals the batch computation after any number of appends.
- **Reflection check.** `FieldMatcher` and `Reflections` characterise exactly which reflections the two-cursor scan
  accepts; `ScopeReader` shows that its recursive reader is bracket matching.
- **Structural diff.** `VariantDiff`, `VariantPatch` and `VariantReport`: empty exactly on equal trees, what replaying it
  gives, and exactly when it determines the right tree.
- **Number conversions.** `FixConversions`, `FloatConversions`, `Encodings` and `Widening`: exact results for every
  encoding, rounding to the nearest, round trips, agreement between formats.
- **Names, undo sessions, schedules, forks.** Bit-level code and test machinery refined to simple specifications.

Methods carry the loops and the state of the source; each is proved against a function or a relation, and the lemmas
prove what is promised about that.

## What the proofs say about the code

- The double-confirmation check subtracts on 32 bits, so a header that confirms more blocks than there are always passes
  it. Such a header confirms nothing twice exactly if it is the first of its producer
  (`Irreversibility.ConfirmsOnceExact`); otherwise a block can become irreversible without the confirmations it needs
  (`RepeatingChain.IrreversibleUnbacked`). From block 65535 on there are no such headers.
- After a schedule change the irreversible number can go back, exactly if more than a third of the new producers lag
  behind it and there is more than one (`Advancing.ChangeExact`, `FallingChain.IrreversibleFalls`).
- Advancing the root to a validated block that the head is not built on fails only after that block was erased from the
  index (`ForkDatabase.ForkDb.AdvanceRoot`).
- Adding a block moves the head to the first block of the index order, so among equally good validated blocks to the one
  with the smaller id; marking a block valid moves the head only to a strictly better one.
- The reflection check accepts a needless swap if the field before it in the class is ignored
  (`FieldMatcher.SingleSwapVerdict`). The assertions at tools/validate_reflection.py:657 and 693 can never fail
  (`FieldMatcher.RefusalIsTrue` for the second). Repeating a word in `@swap` raises a type error instead of the intended
  message, because the message has one placeholder too many (tools/validate_reflection.py:524).
- `name_suffix` counts leading dots as dots, unlike a comment in it says; its tests agree with the code.
- `clz_power_2` is documented to count leading zeros; on powers of two it counts trailing zeros, which its caller needs.
- The diff reports a key with a value that became null and one that was removed in the same way, and likewise the end of
  an array (`VariantReport.DeterminedExact`).
- A global scope that meets a closing brace that nothing opened stops there without an error, and an opening brace as
  the last character of the text goes unnoticed (`ScopeReader.Scope.Read`).
- The signed conversions test the exponent against the width and not one less: at the exponent between, only the
  smallest integer converts correctly. As a consequence the largest 128-bit integer, converted to a double and back,
  becomes the smallest one if arithmetic wraps around.
- `pop_undo` reads the top of the size stack before it checks that there is one; an open session is its precondition.

## Model

| member | source | states |
|---|---|---|
| `Irreversibility.IrreversibleIsBacked` | libraries/chain/block_header_state.cpp:38-171 | From genesis on, for every sequence of accepted headers that confirm no more blocks than there are or are the first of their producer, and through all changes of the producer schedule: the irreversible and the proposed block have each been confirmed by as many different producers as they needed, and irreversible <= proposed <= head |
| `RepeatingChain.IrreversibleUnbacked` | libraries/chain/block_header_state.cpp:51-57 | Without that condition it fails: four accepted headers of one producer of four, two of which confirm more blocks than there are, after which block 2 is irreversible, needs three confirmers and has one |
| `Irreversibility.SoundStays` | libraries/chain/block_header_state.cpp:38-171 | One such header keeps the whole invariant: every count is what its block still needs, no producer has a block above the number remembered for it (also after leaving and joining a schedule), every number implied by a producer belongs to a fully confirmed block |
| `Irreversibility.RegularStays` | libraries/chain/block_header_state.cpp:38-171 | What every accepted header keeps, whatever it confirms: counts stay positive bytes, irreversible <= proposed, everything tracked is above the proposed block, remembered numbers do not exceed the head |
| `Irreversibility.ConfirmsOnceExact` | libraries/chain/block_header_state.cpp:51-57 | What the double-confirmation check is for, that an accepted header confirms no block that its producer confirmed before, holds if and only if the header confirms no more blocks than there are or is the first of its producer |
| `Irreversibility.LateIsSane` | libraries/chain/block_header_state.cpp:51-57 | From block 65535 on, every header meets that condition |
| `Irreversibility.RepeatsExact` | libraries/chain/block_header_state.cpp:51-57 | In every regular state, the check, which works on 32 bits, refuses exactly the overlapping ranges of headers that confirm no more blocks than there are; a longer range always passes |
| `Irreversibility.RemembersStays` | libraries/chain/block_header_state.cpp:121-167 | Rebuilding the last-produced numbers at a schedule change loses nothing: a producer that joins again starts at a number not below its last block |
| `Irreversibility.ConfirmExact` | libraries/chain/block_header_state.cpp:93-113 | The confirmation loop lowers exactly the counts of the confirmed blocks and stops at the newest one that reaches zero, dropping it and everything older |
| `Irreversibility.LoweredExact` | libraries/chain/block_header_state.cpp:70-113 | A count lowered by a header and the number of different confirmers of the block always add up to what the block needs |
| `Irreversibility.TalliesStays` | libraries/chain/block_header_state.cpp:70-113 | The counts that a header leaves are all positive and are what the blocks still need |
| `Irreversibility.ProposedIsBacked` | libraries/chain/block_header_state.cpp:89-115 | A newly proposed block has all the confirmations it needs, and the proposed number never goes back |
| `Progress.EveryBlockBecomesIrreversible` | libraries/chain/block_header_state.cpp:38-171 | From genesis on, if different producers take their turns without a gap and each confirms everything since its last block, every block is proposed by the last of 12 * required blocks counted from itself and irreversible 24 * required blocks after it, where required is two thirds of the producers plus one |
| `Progress.ConfirmedOnChain` | libraries/chain/block_header_state.cpp:79-113 | The converse of being backed, on every chain of sane headers from genesis on: a block among the last 1024 that has as many different confirmers as it needs is not above the proposed one |
| `Progress.ConfirmedIsProposed` | libraries/chain/block_header_state.cpp:79-113 | The same for every sound history that tracks the last 1024 blocks, or all above the proposed one, or all |
| `Progress.EnoughIsTracked` | libraries/chain/include/eosio/chain/config.hpp:106-110 | Twelve blocks for each confirmation that the largest schedule needs are within what is tracked |
| `Progress.DiligentHeader` | libraries/chain/block_header_state.cpp:38-57 | A header in turn that confirms everything since the last block of its producer is accepted |
| `TwoPhases.IrreversibleWasKnown` | libraries/chain/block_header_state.cpp:24-36 | What a header makes irreversible, more than two thirds of the known producers knew, before their own blocks, to be fully confirmed |
| `TwoPhases.KnownFromGenesis` | libraries/chain/block_header_state.cpp:163-167 | On every chain of sane headers with one schedule, the number a producer implies was fully confirmed before one of its blocks |
| `Irreversibility.ThirdIsQuorum` | libraries/chain/block_header_state.cpp:24-36 | The number found is the greatest that two thirds of the producers plus one imply: x <= result if and only if that many imply at least x |
| `Irreversibility.IrreversibleExact` | libraries/chain/block_header_state.cpp:24-36 | The irreversible number of an accepted header is at least x if and only if more than two thirds of the producers with a number imply at least x, the own one with what is proposed before; zero if there are none |
| `Irreversibility.ProducerInTurn` | libraries/chain/block_header_state.cpp:18-22 | In slot n the producer at place n / 12 of the schedule, counted round and round, produces |
| `Advancing.ChangeExact` | libraries/chain/block_header_state.cpp:121-161 | After a schedule change, no accepted header can take the irreversible number back if and only if no more than a third of the new producers lag behind it or there is only one new producer |
| `Advancing.NeverFallsExact` | libraries/chain/block_header_state.cpp:38-171 | Along any chain of accepted headers, no header at any place can take the irreversible number back if and only if all schedule changes of the chain meet that condition |
| `Advancing.NeverFallsFromGenesis` | libraries/chain/block_header_state.cpp:38-171 | The same for every chain from genesis on, with no other condition |
| `Advancing.SteadyAdvances` | libraries/chain/block_header_state.cpp:115-169 | Where that holds, every header keeps the irreversible number, and keeps this so unless it changes the schedule |
| `Advancing.FallingHeader` | libraries/chain/block_header_state.cpp:24-36 | Otherwise a producer that does not lag, or any if all lag, takes the number back with an accepted header |
| `FallingChain.IrreversibleFalls` | libraries/chain/block_header_state.cpp:121-161 | Seven headers, accepted from genesis on, with a change to a schedule in which one of two producers lags: block 2 is irreversible after the sixth header and no longer after the seventh |
| `Quorums.QuorumsMeet` | libraries/chain/block_header_state.cpp:75-76 | Two chains from the same start and with the same schedule that both back a block have at least 2 * required - size producers, more than a third of all, that confirmed it on both |
| `Quorums.IrreversibleBlocksMeet` | libraries/chain/block_header_state.cpp:24-36 | So do two chains on which a block of the same number is irreversible |
| `Irreversibility.ConfirmBlocks` | libraries/chain/block_header_state.cpp:91-113 | The loop computes the specified confirmation step |
| `Irreversibility.Select` | libraries/chain/block_header_state.cpp:33-35 | The selected number has the given rank: at most k numbers are smaller, more than k are not greater |
| `Irreversibility.LastIrreversible` | libraries/chain/block_header_state.cpp:24-36 | The loop and the selection compute the specified irreversible number, also for no producers |
| `Irreversibility.Rebuild` | libraries/chain/block_header_state.cpp:126-157 | The loop over the new schedule keeps known numbers, sets that of the producer and gives the irreversible number to new producers |
| `Irreversibility.Advance` | libraries/chain/block_header_state.cpp:38-312 | The whole transition, with its errors and the checks of a new pending schedule, computes the specified next state |
| `PendingSchedules.AcceptedExact` | libraries/chain/block_header_state.cpp:43-272 | A header is accepted if and only if it is in the future, its producer did not produce in the range it confirms, and it brings no schedule while another one waits |
| `PendingSchedules.OneHeader` | libraries/chain/block_header_state.cpp:117-170 | A schedule starts to wait only where none waits; a waiting one goes on waiting below the irreversible number it waits for and is active from there on |
| `PendingSchedules.WaitingStays` | libraries/chain/block_header_state.cpp:299-312 | Along every chain, a waiting schedule, its number and the active schedule stay as long as the irreversible number is below the one it waits for |
| `PendingSchedules.WaitingBecomesActive` | libraries/chain/block_header_state.cpp:121-124 | The first header whose irreversible number reaches that one makes exactly this schedule active, and nothing waits after it |
| `PendingSchedules.ActiveChangesOnlyTo` | libraries/chain/block_header_state.cpp:121-163 | The active schedule changes to nothing but the waiting one, when its number is reached |
| `PendingSchedules.OthersKeepNumbers` | libraries/chain/block_header_state.cpp:126-167 | A header leaves the numbers of other producers alone; at a schedule change those that stay keep them, new ones start at the irreversible number, the others are forgotten |
| `PendingSchedules.OwnNumbers` | libraries/chain/block_header_state.cpp:126-167 | The numbers of the own producer: this block, and what was proposed before it |
| `ForkDatabase.ForkDb.constructor` | libraries/chain/fork_database.cpp:232-238 | A fresh database is a tree of nothing but its root, which is the head |
| `ForkDatabase.ForkDb.Add` | libraries/chain/fork_database.cpp:299-334 | Added, unlinkable, ignored or duplicate, in that order of checks; the index changes only if added; the head then has the greatest irreversible number of all validated blocks, among those the greatest block number, and among those the smallest id; a validated block on the head with no smaller irreversible number becomes the head; the tree is kept |
| `ForkDatabase.ForkDb.MarkValid` | libraries/chain/fork_database.cpp:467-485 | Only the flag of that block changes; no validated block has a greater irreversible number than the head, or the same and a greater block number; the head moves only to a strictly better block; a block on the head with no smaller irreversible number becomes the head; fails exactly for unknown blocks |
| `ForkDatabase.ForkDb.RollbackHeadToRoot` | libraries/chain/fork_database.cpp:240-250 | All flags are cleared, the head is the root, and the invariant holds |
| `ForkDatabase.ForkDb.PendingHead` | libraries/chain/fork_database.cpp:349-359 | The result is the head or a strictly better block that is not validated, and no block at all has a greater irreversible number, or the same and a greater block number |
| `ForkDatabase.ForkDb.FirstPending` | libraries/chain/fork_database.cpp:350-353 | The block that the order of the index puts first among those that are not validated, or none exactly when every block is validated |
| `ForkDatabase.PreferredIsWorse` | libraries/chain/fork_database.cpp:57-60 | One block is preferred to another if and only if the other has a smaller irreversible number, or the same and a smaller block number |
| `ForkDatabase.ForkDb.CollectBranch` | libraries/chain/fork_database.cpp:444-458 | The breadth-first worklist holds exactly the block and its descendants; it is given up exactly if the head is among them |
| `ForkDatabase.ForkDb.Remove` | libraries/chain/fork_database.cpp:444-465 | Exactly the block and everything built on it is removed; if the head is built on it, nothing changes |
| `ForkDatabase.ForkDb.AdvanceRoot` | libraries/chain/fork_database.cpp:252-283 | Succeeds exactly for validated blocks that the head is built on; then the index holds exactly what is built on the new root, and the invariant holds; an unknown or unvalidated block changes nothing; for a block off the head branch, that block and the branches of its ancestors, parent first, are gone up to the first ancestor that the head is built on |
| `ForkDatabase.ForkDb.KeepAbove` | libraries/chain/fork_database.cpp:263-276 | Erasing a block and removing the branches of its ancestors one after the other leaves exactly what is built on it |
| `ForkDatabase.CutDecides` | libraries/chain/fork_database.cpp:263-276 | Once the new root is erased, the blocks reachable from its ancestors are exactly those not built on it |
| `ForkDatabase.ForkDb.FetchBranchFrom` | libraries/chain/fork_database.cpp:384-441 | Fails exactly for unknown blocks; otherwise the two branches lead from the two blocks to a common ancestor and share no block |
| `ForkDatabase.MeetingIsDeepest` | libraries/chain/fork_database.cpp:380-383 | Every block that lies below both blocks lies below that common ancestor, so it is the deepest one |
| `ForkDatabase.WorklistComplete` | libraries/chain/fork_database.cpp:445-458 | A worklist that was worked off holds every descendant |
| `ForkDatabase.FirstDecides` | libraries/chain/fork_database.cpp:330-333 | If the first block of the index order is not validated, none is, so the head need not move |
| `ForkDatabase.ValidatedKeepsBest` | libraries/chain/fork_database.cpp:481-484 | Comparing the first block of the order with the head is enough to keep the head best |
| `ForkDatabase.ValidatedChild` | libraries/chain/fork_database.cpp:481-484 | A block on the head that becomes valid, with no smaller irreversible number, comes first in the order and is preferred to the head |
| `Bits.DepthIsLength` | libraries/chain/include/eosio/chain/incremental_merkle.hpp:59-65 | The bit tricks give the number of binary digits: the depth of the smallest balanced tree, for every 64-bit count |
| `Bits.NextPowerOf2IsAbove` | libraries/chain/include/eosio/chain/incremental_merkle.hpp:17-27 | The smeared number is the least power of two that is not below the argument |
| `Bits.ClzIsLength` | libraries/chain/include/eosio/chain/incremental_merkle.hpp:38-50 | On a power of two the six masks count its trailing zeros |
| `Merkle.CompleteIsStable` | libraries/chain/include/eosio/chain/incremental_merkle.hpp:89-92 | Once a subtree is complete its root never changes, whatever leaves are appended |
| `Merkle.RootAtLevel` | libraries/chain/merkle.cpp:35-50 | Halving as often as the last position has digits leaves exactly the root |
| `Merkle.RootIsTop` | libraries/chain/merkle.cpp:35-50 | The level by level computation gives the root of the full binary tree over the leaves, in which an empty right half repeats the left one |
| `Merkle.RootDetermines` | libraries/chain/merkle.cpp:35-50 | If the pair hash has no collisions, lists of the same length share a root if and only if they are equal |
| `Merkle.RepeatedLastIsHidden` | libraries/chain/merkle.cpp:38-40 | Lists of different length can share one: an odd list of more than one leaf and the same list with its last leaf repeated |
| `Merkle.ActiveServesAppend` | libraries/chain/include/eosio/chain/incremental_merkle.hpp:147-162 | The stored nodes start with exactly the left nodes that the next append reads, in the order it reads them |
| `Merkle.MerkleRoot` | libraries/chain/merkle.cpp:35-50 | The in-place loops compute the level-by-level root |
| `Merkle.DepthBelowRoot` | libraries/chain/include/eosio/chain/incremental_merkle.hpp:170-171 | The number of levels to climb is the number of digits of the node count |
| `Merkle.IncrementalMerkle.constructor` | libraries/chain/include/eosio/chain/incremental_merkle.hpp:97-99 | A fresh tree has no leaves |
| `Merkle.Collapse` | libraries/chain/include/eosio/chain/incremental_merkle.hpp:168-216 | Climbing from a new leaf reads only nodes that are there and leaves the nodes that the tree with that leaf needs |
| `Merkle.JoinNeighbour` | libraries/chain/include/eosio/chain/incremental_merkle.hpp:179-208 | One level of the climb: the new top is the last node of the next level, the nodes kept are the left neighbours of that level and below, and the unread nodes still start with those needed above |
| `Merkle.IncrementalMerkle.Append` | libraries/chain/include/eosio/chain/incremental_merkle.hpp:168-226 | Appending yields the root that the batch computation gives for all leaves so far, after any number of appends |
| `Merkle.IncrementalMerkle.GetRoot` | libraries/chain/include/eosio/chain/incremental_merkle.hpp:233-239 | The stored root is the batch root of all leaves, the empty digest for none |
| `FieldMatcher.MatchIsExact` | tools/validate_reflection.py:631-694 | The scan passes if and only if the reflection is correct and no pending swapped field is met by both cursors at once; on a correct reflection the needless-swap assertion is the only one that can fail |
| `FieldMatcher.RefusalIsTrue` | tools/validate_reflection.py:631-694 | Whatever the check says is true of its input, also of wrong reflections: which field is swapped, ignored, missing or unexpected, at places before which the same plain fields stand; the lists of the final assertions are exactly the annotations or fields at fault; the assertion that swapped fields were never provided cannot fail |
| `FieldMatcher.RunExact` | tools/validate_reflection.py:640-694 | The same from every state that the scan can reach |
| `FieldMatcher.AcceptedIsPermutation` | tools/validate_reflection.py:631-694 | An accepted reflection lists exactly the class fields that are not ignored, each once |
| `FieldMatcher.StepKeepsCursors` | tools/validate_reflection.py:640-679 | Every step keeps each swapped field in exactly one place: pending, met in the class, met in the reflection, or resolved |
| `FieldMatcher.SingleSwapVerdict` | tools/validate_reflection.py:19-24 | A correct reflection with one swap is refused if and only if the list is in order without it and the field before it in the class is not ignored |
| `FieldMatcher.NeighboursSwapped` | tools/validate_reflection.py:19-24 | If two neighbouring fields trade places, naming either one is accepted, naming both or none is refused |
| `FieldMatcher.MovedFieldNamed` | tools/validate_reflection.py:19-24 | A single field that was moved is accepted when it is the one named |
| `FieldMatcher.ImplicitIdIsSafe` | tools/validate_reflection.py:624-630 | With the implicit id ignored, an accepted reflection is correct for the class without its id |
| `Reflections.Reflection.constructor` | tools/validate_reflection.py:382-388 | A new reflection is empty |
| `Reflections.Reflection.AddWord` | tools/validate_reflection.py:517-526 | A word is stored if it is not annotated yet; the error raised otherwise |
| `Reflections.Reflection.AddIgnoreSwaps` | tools/validate_reflection.py:510-530 | Words are stored up to the first that is annotated already; lists stay duplicate-free and disjoint |
| `Reflections.Reflection.AddField` | tools/validate_reflection.py:533-537 | A field is stored unless it is listed already; lists stay duplicate-free |
| `Reflections.Reflection.ScanRest` | tools/validate_reflection.py:682-690 | The loop over the rest splits it into fields met in the class and unused fields |
| `Reflections.Reflection.ScanFields` | tools/validate_reflection.py:631-694 | The loop with its seven branches ends exactly as the specified scan does, and uses up the annotations when it passes |
| `Reflections.Reflection.Match` | tools/validate_reflection.py:631-694 | The check passes if and only if the reflection is acceptable, names a needless swap whenever it refuses a correct one, and says only what is true whenever it refuses |
| `Reflections.Reflection.Validate` | tools/validate_reflection.py:624-694 | With and without the implicit id, which is added exactly if it is neither ignored nor reflected: passes exactly on acceptable reflections, which are correct ones, and says only what is true otherwise |
| `ScopeReader.Scope.constructor` | tools/validate_reflection.py:95-108 | The cursor starts behind the brace; only the global scope knows its end |
| `ScopeReader.Scope.FindPossibleEnd` | tools/validate_reflection.py:138-149 | The look-ahead past initialisers only ever widens the window, and does not when the next brace closes |
| `ScopeReader.Scope.FindScope` | tools/validate_reflection.py:317-353 | Whatever the patterns match, the scope found starts at the next brace of the text, and is of the kind of the header found to end there, or generic |
| `ScopeReader.Scope.NextScope` | tools/validate_reflection.py:317-360 | The cursor moves over a balanced piece of text in which every brace became a scope that ends where the brace is closed; it fails exactly on a brace that nothing closes |
| `ScopeReader.Scope.Read` | tools/validate_reflection.py:110-124 | A nested scope is read if and only if its brace is closed, and ends at the closing brace, and so do all scopes inside; the global scope skips the first character and is read if and only if the text is balanced up to its end, an unopened closing brace or an opening brace as last character, and then all scopes before that are matched |
| `ScopeReader.BalancedEnds` | tools/validate_reflection.py:95-124 | A balanced text that does not begin with a brace is read to its end |
| `ScopeReader.CloserIsUnique` | tools/validate_reflection.py:119-123 | A brace has at most one brace that closes it |
| `VariantDiff.DiffExact` | unittests/snapshot_tests.cpp:175-237 | The diff is empty if and only if the trees mean the same: same type tags, scalars, arrays, and key-value maps whatever the key order |
| `VariantDiff.DiffTells` | unittests/snapshot_tests.cpp:175-237 | Every reported path leads in each tree to the reported value, or to nothing where null is reported |
| `VariantDiff.DiffApart` | unittests/snapshot_tests.cpp:175-237 | No reported path is a prefix of another |
| `VariantDiff.VariantDiff` | unittests/snapshot_tests.cpp:175-237 | The recursive computation gives the specified entries in order |
| `VariantDiff.DiffObjects` | unittests/snapshot_tests.cpp:178-207 | The two loops over the keys give the entries of the common and removed keys and then those of the new keys |
| `VariantDiff.DiffArrays` | unittests/snapshot_tests.cpp:208-232 | The three loops over the indexes give the entries of the common, removed and new items |
| `VariantReport.DeterminedExact` | unittests/snapshot_tests.cpp:175-237 | The report determines the right tree if and only if no null in it reads like a removal (a key that the left object has with a value, the end of an array that is not longer) and no removal reads like a null (a missing key with a value, an array that ends before a value) |
| `VariantPatch.ReplayIsCanon` | unittests/snapshot_tests.cpp:175-237 | Replaying the entries on the left tree always gives the right tree without the nulls that read like removals |
| `VariantPatch.CanonDiff` | unittests/snapshot_tests.cpp:175-237 | That tree has the same report as the right tree |
| `VariantPatch.PatchExact` | unittests/snapshot_tests.cpp:175-237 | The replay gives the right tree itself if and only if it has no such null |
| `VariantPatch.ReplayIsOptimal` | unittests/snapshot_tests.cpp:175-237 | No replay can do better: a right tree that this one does not rebuild shares its report with a different tree that it does rebuild |
| `VariantPatch.SameReport` | unittests/snapshot_tests.cpp:175-237 | Right trees with the same report differ at most in nulls that read like removals |
| `VariantPatch.PatchRebuilds` | unittests/snapshot_tests.cpp:175-237 | In particular the replay rebuilds every right tree without null |
| `Names.SuffixShows` | unittests/misc_tests.cpp:86-115 | For every 64-bit name the result shows the characters after the last dot that is followed by another character |
| `Names.NameSuffix` | unittests/misc_tests.cpp:86-115 | The scan, mask and shifts compute the specified suffix |
| `Names.LastActualDot` | unittests/misc_tests.cpp:87-103 | The scan finds the bits after the last dot that another character follows, the thirteenth character included |
| `Names.RepackChars` | unittests/misc_tests.cpp:110-114 | Mask, shifts and addition move the characters to the front without overlap, for each of the twelve places of the dot |
| `Names.SuffixHasNoDot` | unittests/misc_tests.cpp:127-144 | A suffix has no inner dot |
| `Names.SuffixIdempotent` | unittests/misc_tests.cpp:86-115 | The suffix of a suffix is itself |
| `Names.SuffixZeroOnlyOnZero` | unittests/misc_tests.cpp:86-115 | Only the empty name has the empty suffix |
| `Names.SuffixIsUnique` | unittests/misc_tests.cpp:86-115 | No other name shows the characters of the suffix |
| `Names.CharsInjective` | unittests/misc_tests.cpp:90-100 | Thirteen characters determine the name |
| `UndoSessions.StepRefines` | unittests/misc_tests.cpp:349-375 | The flat list with its size stack behaves like a stack of frames under every operation; squash merges the top frame into the one below |
| `UndoSessions.FramesShape` | unittests/misc_tests.cpp:342-345 | The frames, put together, are the list |
| `UndoSessions.RunKeepsBase` | unittests/misc_tests.cpp:349-375 | A run that does not close outer sessions keeps everything that was there before |
| `UndoSessions.PopRestores` | unittests/misc_tests.cpp:355-375 | Push, any balanced run, pop: the list and the stack are as before |
| `UndoSessions.PermissionVisitor.constructor` | unittests/misc_tests.cpp:347 | A new visitor is empty |
| `UndoSessions.PermissionVisitor.Visit` | unittests/misc_tests.cpp:349-351 | Appends to the list and keeps the sizes non-decreasing and within it |
| `UndoSessions.PermissionVisitor.PushUndo` | unittests/misc_tests.cpp:355-359 | Opens a session |
| `UndoSessions.PermissionVisitor.PopUndo` | unittests/misc_tests.cpp:361-368 | Drops what was added since the last open session began |
| `UndoSessions.PermissionVisitor.SquashUndo` | unittests/misc_tests.cpp:370-375 | Closes the session and keeps the list |
| `FixConversions.UnsignedExact` | libraries/builtins/fixunsdfti.c:15-37 | For every format and width: zero for negative numbers, else the floor of the value, at most the largest integer |
| `FixConversions.SignedExact` | libraries/builtins/fixdfti.c:16-41 | The signed conversion truncates toward zero and saturates if and only if the exponent is not one below the width or the number is exactly the smallest integer |
| `FixConversions.SignedAtTop` | libraries/builtins/fixdfti.c:31-40 | What the code gives at the exponent that its range test lets through |
| `FixConversions.UnsignedMonotone` | libraries/builtins/fixunsdfti.c:20-36 | The unsigned conversion respects the order of all numbers of a format, across all branches |
| `FixConversions.EncodingOrder` | libraries/builtins/fixunstfti.c:23-39 | Encodings compare, below the sign, like their magnitudes |
| `FixConversions.WideningIsHarmless` | libraries/builtins/fixunssfti.c:19-41 | Equal values in two formats, however encoded, convert to the same integer, unsigned and signed |
| `Widening.WidenKeepsValue` | libraries/builtins/fixunssfti.c:19-41 | Widening a finite number, subnormal ones included, keeps its value |
| `Widening.WidenThenConvert` | libraries/builtins/fixunssfti.c:19-41 | Widening any number first, infinities and not-a-number included, does not change the integer it converts to |
| `Widening.SingleWidens` | libraries/builtins/fixunssfti.c:19-41 | Every single-precision bit pattern, widened to double or quadruple precision |
| `FixConversions.SignedAgreesWithUnsigned` | libraries/builtins/fixsfti.c:16-40 | Both conversions agree on non-negative numbers inside the signed range |
| `FixConversions.IntegerComesBack` | libraries/builtins/fixunstfti.c:18-40 | An integer that the format holds exactly converts to itself |
| `FixConversions.ConversionsExact` | libraries/builtins/fixtfti.c:13-37 | The six conversions by name, for every bit pattern: rounding down within 128 bits, and truncation exactly unless the exponent is 127 and the number not the smallest integer |
| `Encodings.SinglesConvert` | libraries/builtins/fixsfti.c:16-40 | Single precision by bits, signed and unsigned: for every sign, exponent field and fraction, with bias 127 and 23 bits of fraction, the integer part of 1.f * 2^(e - 127), zero below one, saturation, and the wrapped result at exponent 127 |
| `Encodings.DoublesConvert` | libraries/builtins/fixdfti.c:16-41 | The same for double precision, with bias 1023 and 52 bits of fraction |
| `Encodings.QuadruplesConvert` | libraries/builtins/fixunstfti.c:18-40 | The same for quadruple precision, with bias 16383 and 112 bits of fraction |
| `Encodings.EveryWord` | libraries/builtins/fixdfti.c:16-25 | Every word consists of such fields |
| `Encodings.DoubleBitsExact` | libraries/builtins/floattidf.c:73-78 | The bits of the double for an integer: sign, 1023 plus the exponent of the rounded integer, and its digits below the leading one |
| `Encodings.ZeroBits` | libraries/builtins/floattidf.c:28-29 | Zero gives the word zero |
| `Encodings.DoubleRoundTrip` | libraries/builtins/floattidf.c:26-79 | Both conversions by name: to a double and back gives the rounded integer if and only if rounding did not reach 2^127 |
| `Encodings.UnsignedDoubleRoundTrip` | libraries/builtins/floatuntidf.c:26-76 | The same without sign: the rounded integer, at most the largest one |
| `FloatConversions.RoundingIsNearestEven` | libraries/builtins/floattidf.c:45-59 | Shifting, sticky bit and increment round to the nearest significand, ties to even |
| `FloatConversions.TiesToEven` | libraries/builtins/floattidf.c:57-59 | Half way between two numbers the result is the even one |
| `FloatConversions.FloatIsRounded` | libraries/builtins/floattidf.c:26-79 | The encoding built stands for the rounded integer with its sign, also when rounding carries into a new digit |
| `FloatConversions.RoundedIsNearest` | libraries/builtins/floatuntidf.c:26-76 | No number of the format is nearer to the integer than the rounded one |
| `FloatConversions.ThereAndBack` | libraries/builtins/floattidf.c:26-79 | Converting back gives the rounded integer if and only if a positive integer was not rounded up out of the signed range |
| `FloatConversions.UnsignedThereAndBack` | libraries/builtins/floatuntidf.c:26-76 | Converting back without sign gives the rounded integer, at most the largest integer, and zero for negative integers |
| `FloatConversions.ShortComesBack` | libraries/builtins/floattidf.c:68-72 | Integers that need no rounding come back unchanged |
| `FloatConversions.LargestComesBackNegative` | libraries/builtins/fixdfti.c:31-40 | The largest signed integer comes back as the smallest |
| `ProducerSchedule.RoundIsFair` | unittests/producer_schedule_tests.cpp:21-24 | In any window of one round, from any slot on, every position produces exactly the given number of times |
| `ProducerSchedule.PositionIsTurn` | unittests/producer_schedule_tests.cpp:21-24 | The position is the number of the turn, counted round and round |
| `ProducerSchedule.PositionIsPeriodic` | libraries/chain/block_header_state.cpp:18-22 | A round later the same position produces |
| `ProducerSchedule.IsScheduleEqual` | unittests/producer_schedule_tests.cpp:27-33 | The loop decides equality of the schedules, also of different sizes |
| `ProducerSchedule.NextRoundFirstBlock` | unittests/producer_schedule_tests.cpp:38-45 | The search ends at the least multiple of the round length above the head, where position 0 produces |
| `BlockSearch.ProduceUntilTransition` | unittests/fork_test_utilities.cpp:20-43 | Found if and only if the transition occurs within the bound, and then at the least number of blocks |
| `BlockSearch.ProduceUntilBlocksFrom` | unittests/fork_test_utilities.cpp:20-54 | Found if and only if the expected producers are covered by the heads seen within the bound, and then at the least such number of blocks |
| `ForkBuilder.BuildForks` | unittests/forked_tests.cpp:60-98 | The nested loops build, for every j, the fork that agrees with the chain before block j, is corrupted there and relinked after it, with the merkle leaves of the chain before j and its own from j on |
| `ForkBuilder.Corrupt` | unittests/forked_tests.cpp:75-78 | The lowest bit of the action root is flipped and nothing else changes |
| `ForkBuilder.ForkIsLinked` | unittests/forked_tests.cpp:79-82 | Every fork is hash-linked |
| `ForkBuilder.ForksDiverge` | unittests/forked_tests.cpp:70-94 | Given injective ids, two forks share exactly the blocks before the earlier corruption |

## Left out

- Header fields of `block_header_state` that play no part in irreversibility: block ids, signatures, protocol features,
  schedule versions and the checks that a header repeats the values expected for it. Schedules of up to 125 producers,
  the limit that the node enforces when a schedule is proposed.
- The standard library's partial sort is modelled by its contract, computed by taking out the least number repeatedly.
- Loading, storing and closing the fork database, the validation of protocol features when blocks are added, and the
  lookup functions that only walk one branch. An id determines its block: its number is one above that of its parent and
  it is not the id of the root.
- Merkle: digests and their combination are an arbitrary function, so the canonical left and right marks, which each
  overwrite a bit of a digest, are part of it; fewer than 2^64 leaves.
- Regular expressions of the reflection check are parameters, asked only to end a class match on an opening brace inside
  the window and to start an initialiser match on one. Comment rewriting, class lookup through `using`, derived
  reflections, the dictionary of reflections, the directory walk and all output are not modelled.
- The `fc` library is not part of this model: equality of scalars of one type is equality of values, so the comparison
  of not-a-number doubles is not covered. Paths of the diff are segments and not strings.
- FixConversions.SignedExact: arithmetic on 128 bits wraps around, where the C standard leaves signed overflow open. Not
  a number and infinities convert by their exponent like the code does.
- Fork construction: ids are an arbitrary function, injective where that is needed; signatures and the pushing of blocks
  are left out. The block merkle of a fork is modelled by its leaves.
- Block production in the bounded searches is a function from the number of blocks produced to what the chain shows.
- Logging in `permission_visitor` and its overload that does nothing.
- The controller, the authority checker, ABI serialisation, resource limits, contracts and plugins.
