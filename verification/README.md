# wire-sysio: models and proofs

This project models, in Dafny, the parts of wire-sysio that carry its most
intricate state, and proves what they promise for every input or every run.

* **The reflection checker** (`tools/validate_reflection.py`). `FieldMatching`
  has the two-cursor machine that compares a class with its reflection macro
  while it uses up `@ignore` and `@swap` marks in place. It is proved to accept
  exactly the problems that satisfy a declarative specification: the reflected
  list is the class without ignored fields, up to the swapped ones, and no swap
  is marked on a field that is already in place. `MovedFields` derives the rule
  that the tool's header documents, `ReflectionRecords` the bookkeeping that
  establishes the machine's precondition. `Brackets`, `Scopes` and
  `ScopeTheorems` prove that the recursive scope reader computes the brace
  structure of the text, whatever its regular expressions return. `NameLookup`
  decides when `find_class` ends.
* **Merkle trees** (`libraries/chain`). `Words`, `Merkle` and `MerkleBinding`
  prove that the incremental tree, with its 64-bit bit tricks and stored nodes,
  always has the root that `merkle()` computes from all leaves, and what that
  root says about the leaves.
* **Corrupted forks** (`unittests/forked_tests.cpp`). `CorruptForks` has the
  nested loops for any number of blocks, and proves links, commitments and
  exactly which blocks two forks share.
* **Irreversibility** (`libraries/chain/block_header_state.cpp`). `Dpos` has the
  transition of header states, `DposRuns` an invariant over all runs and
  `DposSafety` its consequences: when no producer confirms twice, a quorum
  behind every proposed block, what conflicting proposals need. `DposExamples`
  has the runs that show where these promises end.
* **The fork database** (`libraries/chain/fork_database.cpp`). `ForkTree` and
  `ForkDatabase` prove that every operation keeps a tree on the root with a
  head that no validated block of the index is preferred over, and what each
  one does. `ForkDatabaseFile` has the file that is written on closing, and
  proves when it can be read back.
* **Conversions** (`libraries/builtins`). `Float64`, `Int128ToFloat` and
  `NearestDouble` prove the 128-bit conversions against the real numbers that patterns denote, and
  when the round trip is exact.
* **Test drivers** (`unittests/fork_test_utilities.cpp`,
  `unittests/forked_tests.cpp`, `benchmark/modexp.cpp`). `TestChains`, `Rounds`
  and `ByteGenerator` have their loops.

`Lists` and `Arithmetic` hold facts that several modules share.

## Where a natural property does not hold

Each of these has a failing input and, except where noted, an exact condition
for all inputs.

* An object class whose `id` is marked as swapped but not reflected is always
  refused, because the implied ignore mark is added beside the swap mark
  (`FieldMatching.Reflection.CheckClass`).
* Marking both fields of a swap is refused, as documented; so is any swap mark
  on a field that the machine reaches in place (`FieldMatching.InPlaceSwap`
  gives the condition on the lists).
* A file with an opening brace that nothing closes can be read without an
  error (`Scopes.UnnoticedBrace`). The assertion fails if and only if such a
  brace dangles: no closing brace too many comes before it, and it is not the
  last character (`Scopes.Scope.Read`, as long as no namespace has a base).
* A name lookup runs forever on some aliases (`NameLookup.SelfAliasRuns`): it
  ends if and only if the aliases lead out of every scope that the name leads
  into (`NameLookup.LookupEndsIff`), and all lookups end if and only if no scope
  has cyclic aliases (`NameLookup.EveryLookupEndsIff`).
* The last irreversible block can fall after a schedule promotion
  (`DposExamples.LibCanFall`), and only then
  (`DposSafety.LibFallsOnlyAfterPromotion`). It is kept exactly when few enough
  producers lag behind it (`DposSafety.LibKeptIff`).
* The check against double confirmation subtracts in 32 bits and is exact only
  for headers that confirm no more blocks than there are
  (`DposSafety.CheckIsExact`). A run has a double confirmation if and only if it
  has another header by a producer of an earlier block
  (`DposRuns.NoDoubleConfirmationIff`). A block can then be proposed without a
  quorum of producers (`DposExamples.OneProducerProposes`): it has one if and
  only if none of these headers confirmed it again (`DposRuns.QuorumIff`).
* Two forks can propose different blocks without anybody confirming a number on
  both (`DposExamples.DifferentNumbersNeedNobody`). For blocks of the same
  number, made under one schedule, it takes more than a third of its producers,
  where confirmers from other schedules count too
  (`DposSafety.ConflictNeedsThird`). This holds one way: so many confirmers of
  both do not make a conflict.
* The file that is written on closing cannot always be read back
  (`ForkDatabaseFile.RestartFails`): it can if and only if the irreversible
  number falls nowhere in the index (`ForkDatabaseFile.Restart`).
* Adding a block that is not validated can move the head: off a root that is
  preferred over the new head (`ForkDatabase.HeadLeavesRoot`), or between blocks
  that tie (`ForkDatabase.HeadLeavesTie`). `ForkDatabase.AddMovesHeadIff` says
  exactly when.
* Advancing the root to a block off the head's branch fails after the block has
  been erased (`ForkDatabase.AdvanceOrphans`); the database stays a tree exactly
  if nothing was built on that block
  (`ForkDatabase.FailedAdvanceKeepsTreeIff`).
* Two lists of leaves of different lengths can have the same root
  (`MerkleBinding.RepeatedLeafSameRoot`, `MerkleBinding.RepeatedPairSameRoot`).
  Roots agree exactly when the padded trees do (`MerkleBinding.RootsAgree`).
* A double with exponent 127 shifts out of the integer type
  (`Float64.FixUndefinedIff`), and negating the least integer overflows it
  (`Int128ToFloat.ToDoubleRounds`); the integers that survive the round trip are
  exactly those of `Int128ToFloat.RoundTripIff`.

## Model

| member | source | states |
|---|---|---|
| FieldMatching.Reflection.CheckFields | tools/validate_reflection.py:631-694 | soundness and completeness: the run passes every assertion if and only if ignores lie in the class, the reflected set is the class set without ignores, swaps lie in both lists, the unmarked parts agree in order, the class repeats no field, and no swap is in place; on lists that mirror each other only the in-place assertion can fail; a passing run has used up all marks |
| FieldMatching.Reflection.Drain | tools/validate_reflection.py:681-694 | from any reachable state with all class fields read, the final assertions pass exactly on accepted problems |
| FieldMatching.Reflection.CheckClass | tools/validate_reflection.py:624-694 | the exact verdict of the problem as it stands, and with `id` added to the ignores when it is implied and neither ignored nor reflected; with `id` swapped and not reflected it is always a failure |
| FieldMatching.BackSwap | tools/validate_reflection.py:645-652 | the move keeps the invariant: swaps split into remaining, back-pending, forward-pending and settled ones, and the unmarked prefixes agree |
| FieldMatching.FwdSwap | tools/validate_reflection.py:653-659 | the move keeps the invariant |
| FieldMatching.SkipIgnored | tools/validate_reflection.py:661-667 | the move keeps the invariant |
| FieldMatching.SettleBack | tools/validate_reflection.py:669-671 | the move keeps the invariant |
| FieldMatching.SettleFwd | tools/validate_reflection.py:672-674 | the move keeps the invariant |
| FieldMatching.Match | tools/validate_reflection.py:675-678 | two equal fields that no list holds are unmarked and not repeated; the move keeps the invariant |
| FieldMatching.StateBackSwap | tools/validate_reflection.py:645-652 | if the swapped field stands opposite itself the problem is not accepted, otherwise no in-place swap comes within reach |
| FieldMatching.CursorInPlace | tools/validate_reflection.py:650 | the in-place assertion fails only on problems with an in-place swap |
| FieldMatching.InPlacePending | tools/validate_reflection.py:640-679 | while an in-place swap exists, neither cursor can pass it: the run cannot avoid the assertion |
| FieldMatching.MismatchRefutes | tools/validate_reflection.py:675-676 | when no mark applies and the fields differ, the lists do not mirror each other |
| FieldMatching.SkippedRefutes | tools/validate_reflection.py:660 | a reflected field that was ignored refutes the specification |
| FieldMatching.TailIsBackSwapped | tools/validate_reflection.py:683-691 | in mirroring lists every reflected field left at the end was swapped back |
| FieldMatching.SpentMarksMirror | tools/validate_reflection.py:681-694 | both lists read and all marks spent: the lists mirror each other |
| MovedFields.MovedFieldLaw | tools/validate_reflection.py:19-24 | moving one field across any others, in either direction: accepted when only it is marked, or only the others; refused with no mark; refused with all marked |
| MovedFields.FirstMarkedAccepted | tools/validate_reflection.py:19-24 | two exchanged blocks of fields are accepted when just the first is marked |
| MovedFields.SecondMarkedAccepted | tools/validate_reflection.py:19-24 | the same for the second block |
| MovedFields.BothMarkedRejected | tools/validate_reflection.py:24 | marking both blocks is refused |
| MovedFields.UnreflectedField | tools/validate_reflection.py:12-24 | a class field that the reflection lacks: accepted when just it is marked as ignored, refused when it is marked as swapped |
| MovedFields.MovedFieldNotIgnored | tools/validate_reflection.py:12-24 | a moved field marked as ignored instead of swapped is refused |
| MovedFields.UnmarkedMoveRejected | tools/validate_reflection.py:14-17 | a move without marks is refused |
| ReflectionRecords.Reflections.FindOrAdd | tools/validate_reflection.py:489-493 | only a missing record is created, with no fields and no marks, and all records stay free of repeats with disjoint marks |
| ReflectionRecords.Reflections.AddField | tools/validate_reflection.py:533-537 | refused exactly for a repeated field; records stay well formed |
| ReflectionRecords.Reflections.AddMark | tools/validate_reflection.py:518-526 | refused exactly for a word marked before in either way; otherwise the word joins the ignored or the swapped ones as asked and the rest of the record is kept; records stay well formed |
| ReflectionRecords.Reflections.AddIgnoreSwaps | tools/validate_reflection.py:510-530 | succeeds exactly when all words are new and distinct and adds them to the ignored or the swapped ones as asked; otherwise just the words before the first offending one were added; records stay well formed |
| ReflectionRecords.Reflections.CheckClass | tools/validate_reflection.py:610-694 | the bookkeeping invariant is enough for the exact verdict of the check, with the implied ignore of `id` written out; other records are left alone |
| ReflectionRecords.CheckAnnotated | tools/validate_reflection.py:489-694 | from an annotation to the verdict: a class whose fields and one kind of marks were read into an empty table has the verdict of just these fields and marks |
| ReflectionRecords.IgnoredFieldPasses | tools/validate_reflection.py:510-694 | a field that is not reflected passes after `@ignore` and fails after `@swap` |
| ReflectionRecords.MovedFieldPasses | tools/validate_reflection.py:510-694 | a moved field passes after `@swap` and fails after `@ignore` |
| ReflectionRecords.MarkedWellFormed | tools/validate_reflection.py:518-526 | a new word keeps a record free of repeats with disjoint marks |
| Scopes.Scope.FindPossibleEnd | tools/validate_reflection.py:138-149 | the exact guess: the first closing brace behind the start, or behind the initializers that begin before it; whatever the initializer pattern returns, the guess is sound: an opening brace found before it is the next brace of the text, and if none is found the guess is the next brace, or there is no closing brace |
| Scopes.Scope.FindScopeStart | tools/validate_reflection.py:130-136 | the last character of the first occurrence before the given end, or none exists there |
| Scopes.Scope.ChooseScope | tools/validate_reflection.py:322-353 | the next scope opens at the first opening brace before the guessed end, and is of the matched kind exactly when the match ends in that brace |
| Scopes.Scope.NextScope | tools/validate_reflection.py:317-360 | reads one scope completely, of the kind that the patterns name in the text before the guess, and resumes behind it; fails on a namespace with a base only if the pattern returned one; keeps the record of what was read a correct part of the brace structure; the recursion with `Read` ends |
| Scopes.Scope.Read | tools/validate_reflection.py:110-124 | refinement of bracket matching: a scope that is read ends at the brace matching its start and its tree is the brace structure; the end assertion fails only if that brace has no match, and on balanced text never; the namespace assertion fails only if the pattern returned a namespace with a base, so without one every scope with a matching brace is read, and a file is read if and only if no brace dangles; a balanced file leaves no brace unread; only an empty span before a brace that ends the text is not scanned |
| Scopes.UnnoticedBrace | tools/validate_reflection.py:110-149 | a text whose unclosed brace does not dangle |
| Scopes.FirstOpening | tools/validate_reflection.py:138-149 | with a sound guess no closing brace precedes the first opening one |
| Scopes.UnclosedRefutes | tools/validate_reflection.py:119-123 | a scope with an unclosed inner scope is unclosed, and so is the file |
| ScopeTheorems.OneScopePerBrace | tools/validate_reflection.py:151-164 | every opening brace of a body opens exactly one scope of the tree, at whatever depth, and nothing else opens one |
| ScopeTheorems.ScopesAreMatches | tools/validate_reflection.py:110-164 | the scopes of a tree, at whatever depth, are exactly the pairs of matching braces of its body |
| ScopeTheorems.ScopesOrdered | tools/validate_reflection.py:151-164 | inner scopes follow one another without overlap, inside the body |
| ScopeTheorems.ScopesNest | tools/validate_reflection.py:110-164 | any two scopes of a tree are the same, nested, or disjoint |
| ScopeTheorems.ShapeIsForced | tools/validate_reflection.py:317-360 | two readings of one body with any patterns have the same scopes, braces and nesting |
| ScopeTheorems.FieldSpansTileBody | tools/validate_reflection.py:340-358 | each position of a class body lies in exactly one of the spans scanned for fields and the inner scopes, and no other position in any |
| NameLookup.LookupEndsIff | tools/validate_reflection.py:166-198 | the lookup ends if and only if the aliases lead out of every scope on the way |
| NameLookup.EveryLookupEndsIff | tools/validate_reflection.py:166-198 | every lookup ends if and only if no scope of the tree has cyclic aliases |
| NameLookup.Shadowing | tools/validate_reflection.py:180-198 | a child shadows an alias of its name, and an alias to a child shadows a class of the base |
| NameLookup.SelfAliasRuns | tools/validate_reflection.py:189-192 | a name that is an alias of itself is looked up without end |
| NameLookup.LookupFollowsWay | tools/validate_reflection.py:166-198 | a result is returned if and only if aliases and children lead along a way whose last name has that answer: a child, else a class of the base, else nothing |
| NameLookup.OneAnswer | tools/validate_reflection.py:166-198 | no two ways from one name have different answers |
| NameLookup.LongChainCycles | tools/validate_reflection.py:189-192 | following more aliases in a row than a scope has never ends |
| NameLookup.QualifiedSkipsBase | tools/validate_reflection.py:169-178 | the branch that looks for a qualified name in the base class is never taken |
| NameLookup.QualifiedDescends | tools/validate_reflection.py:169-175 | a qualified name descends child by child, and only its last component consults aliases and bases |
| NameLookup.MoreFuel | tools/validate_reflection.py:166-198 | a lookup that has ended does not depend on the bound on calls |
| Words.DepthIsBitLength | libraries/chain/include/sysio/chain/incremental_merkle.hpp:17-65 | the smeared and masked word gives the number of binary digits of the last index, for every 64-bit word below the largest |
| Merkle.Halve | libraries/chain/merkle.cpp:39-46 | one pass in place computes the level above, an odd last node paired with itself |
| Merkle.MerkleOf | libraries/chain/merkle.cpp:35-50 | the root of the list, and the empty digest for no leaves |
| Merkle.Incremental.Append | libraries/chain/include/sysio/chain/incremental_merkle.hpp:168-226 | the incremental form refines the whole-list form: afterwards the stored nodes represent the longer list and the result is its root |
| Merkle.Tree.GetRoot | libraries/chain/include/sysio/chain/incremental_merkle.hpp:233-239 | the root of all leaves appended so far |
| Merkle.ClimbLeft | libraries/chain/include/sysio/chain/incremental_merkle.hpp:179-192 | a step from a left node keeps the partly rebuilt tree one with the same root and frontier |
| Merkle.ClimbRight | libraries/chain/include/sysio/chain/incremental_merkle.hpp:193-208 | the same for a right node; the stored node it needs is there |
| MerkleBinding.Sides | libraries/chain/merkle.cpp:14-24 | the left digest is hashed with its mark cleared, the right one with its mark set, and both with all else kept |
| MerkleBinding.RootsAgree | libraries/chain/merkle.cpp:14-50 | for any two nonempty lists and a hash without collisions: roots agree outside the marked bit, and with two leaves or more entirely, if and only if the longer tree, cut to the depth of the other, has the same padded leaves |
| MerkleBinding.PaddedRootsAgree | libraries/chain/merkle.cpp:38-47 | for trees of one depth: roots agree if and only if every path of turns leads to the same leaf, where a level repeats its last node |
| MerkleBinding.SameLengthRootsAgree | libraries/chain/merkle.cpp:14-50 | for lists of one length above one, roots agree if and only if the leaves agree up to the marked bit |
| MerkleBinding.RepeatedLeafSameRoot | libraries/chain/merkle.cpp:39-40 | repeating the last leaf of an odd list of at least three leaves does not change the root |
| MerkleBinding.RepeatedPairSameRoot | libraries/chain/merkle.cpp:38-47 | six leaves that end in a pair of equals have the root of the eight leaves with that pair repeated |
| CorruptForks.Extend | unittests/forked_tests.cpp:70-93 | one turn of the inner loop takes fork j from its first i to its first i+1 blocks, with the tree of its own ids |
| CorruptForks.BuildForks | unittests/forked_tests.cpp:59-97 | the loops build, for any number of blocks, the forks that the lemmas below describe |
| CorruptForks.ForkIsLinked | unittests/forked_tests.cpp:78-81 | every block of every fork names its predecessor in that fork |
| CorruptForks.ForkCommitsToHistory | unittests/forked_tests.cpp:83-89 | from its corruption on, each block is signed over its own header and the root of exactly its ancestors in that fork |
| CorruptForks.OnlyOneFlip | unittests/forked_tests.cpp:74-81 | only block j of fork j has another action root; apart from links no header differs otherwise |
| CorruptForks.OneBitFlips | unittests/forked_tests.cpp:77 | the flip changes the low bit of the first word of the action root and nothing else |
| CorruptForks.ForksShareExactly | unittests/forked_tests.cpp:64-94 | two forks share exactly the blocks before the earlier corruption; after it not even ids agree |
| CorruptForks.ForkLeavesOriginal | unittests/forked_tests.cpp:72-93 | fork j shares exactly its first j blocks with the original chain |
| CorruptForks.ForksSignDifferentRoots | unittests/forked_tests.cpp:83-89 | behind the earlier corruption two forks sign over different roots, for a hash without collisions and ids whose side bit is clear |
| Dpos.LibAtLeast | libraries/chain/block_header_state.cpp:24-36 | the selected number is at least w exactly when at most a third of the producers lies below w |
| Dpos.TwoThirdsImplyLib | libraries/chain/block_header_state.cpp:29-35 | more than two thirds of the producers imply the selected block or a later one |
| Dpos.CalcLastIrreversible | libraries/chain/block_header_state.cpp:24-36 | a value with exactly the required rank, zero for no producers |
| Dpos.ConfirmBlocks | libraries/chain/block_header_state.cpp:90-114 | the loop finds the latest counter that is used up, drops it with all earlier ones, and decrements the later ones |
| Dpos.CountersAreBytes | libraries/chain/block_header_state.cpp:76-95 | at most 1024 counters are kept, the oldest is dropped first, and counters are bytes: two thirds plus one of the schedule below 383 producers, wrapping around beyond and below zero |
| Dpos.CarryOver | libraries/chain/block_header_state.cpp:126-159 | the record for the new schedule: current producer, old entries, and the irreversible number for newcomers |
| Dpos.NextState | libraries/chain/block_header_state.cpp:38-171 | accepts exactly the headers that may follow, with the exact condition of each error, and yields the state the runs below are made of |
| DposRuns.StepKeepsInv | libraries/chain/block_header_state.cpp:38-171 | every accepted header keeps: records that bound every past block of a producer, counters equal to missing confirmations, a proposed block with its confirmations |
| DposRuns.NewConfirmer | libraries/chain/block_header_state.cpp:51-57 | unless the header confirms more blocks than there are, its producer has made none of the blocks in the range it confirms, even after a schedule change dropped its record |
| DposRuns.KeepsDisjointIff | libraries/chain/block_header_state.cpp:51-57 | an accepted header keeps each producer from confirming twice if and only if it does not confirm more blocks than there are for a producer of an earlier block |
| DposRuns.TrackedCounts | libraries/chain/block_header_state.cpp:79-95 | each counter is the number of confirmations that its block still needs, and never underflows |
| DposRuns.RunInv | libraries/chain/block_header_state.cpp:38-171 | the invariant holds in every state of every run |
| DposRuns.NoDoubleConfirmationIff | libraries/chain/block_header_state.cpp:51-57 | in every run, across promotions: no producer confirms a block twice if and only if no header confirms more blocks than there are for a producer of an earlier block |
| DposRuns.ProposedHasQuorum | libraries/chain/block_header_state.cpp:75-116 | in every run the proposed block is confirmed by two thirds plus one of its schedule, counted in blocks; by that many distinct producers if none confirms twice |
| DposRuns.QuorumIff | libraries/chain/block_header_state.cpp:75-116 | in every run, a block that becomes proposed has exactly two thirds plus one of its schedule as confirmations, and that many distinct producers behind it if and only if no header from that block on has confirmed it again by confirming more blocks than there are |
| DposRuns.ProposedNowInRun | libraries/chain/block_header_state.cpp:75-101 | in every run, the block that a header makes proposed has exactly two thirds plus one of the producers that it was made under as confirmations |
| DposRuns.ConfirmedIsProposed | libraries/chain/block_header_state.cpp:75-116 | the converse, in every run: a block with that many confirmations, among the last 1024, is at or below the proposed one |
| DposRuns.ProposedNow | libraries/chain/block_header_state.cpp:94-101 | the block that a header makes proposed has exactly the confirmations it needs |
| DposRuns.DistinctConfirmers | libraries/chain/block_header_state.cpp:90-114 | if no producer confirms twice, a block has as many confirmers as confirmations |
| DposRuns.ProposedNeverFalls | libraries/chain/block_header_state.cpp:90-116 | in every run the proposed number never decreases |
| DposSafety.ConflictNeedsThird | libraries/chain/block_header_state.cpp:75-116 | any two runs that propose blocks of one number, made under the same schedule: the producers that confirmed both, with confirmers from other schedules, are more than a third of it |
| DposSafety.SettledConflict | libraries/chain/block_header_state.cpp:75-116 | where the schedule is settled, more than a third of its producers have confirmed both |
| DposExamples.DifferentNumbersNeedNobody | libraries/chain/block_header_state.cpp:51-116 | for different numbers nobody need confirm twice: two runs from the genesis state part and propose blocks 5 and 9 of different chains, and behind the parting no producer confirmed a number on both |
| DposSafety.LibProposedHead | libraries/chain/block_header_state.cpp:116-168 | in every run the irreversible number is at most the proposed one, which is at most the head |
| DposSafety.RecordsOfProducer | libraries/chain/block_header_state.cpp:126-168 | the producer of a block has its number as the last one it produced and, if it has such a record, implies what was proposed before the block; without a promotion all other records are kept |
| DposSafety.RecordsAfterPromotion | libraries/chain/block_header_state.cpp:126-159 | with a promotion both records of a newcomer are the irreversible number, a producer that stays keeps its own, and all others are dropped |
| DposSafety.ScheduleNeedsIrreversibleBlock | libraries/chain/block_header_state.cpp:119-124 | in every run, the active schedule changes only to the pending one, and only once the block that proposed it is irreversible |
| DposSafety.PendingNotReplaced | libraries/chain/block_header_state.cpp:259-322 | in every run, a pending schedule is kept with its number until it is active |
| DposSafety.SlotsAscend | libraries/chain/block_header_state.cpp:38-49 | in every run slots strictly ascend and are those of the headers, while numbers ascend by one |
| DposSafety.LibKeptIff | libraries/chain/block_header_state.cpp:24-36 | the irreversible number does not fall exactly when it is zero or at most a third of the producers lags behind it |
| DposSafety.LibFallsOnlyAfterPromotion | libraries/chain/block_header_state.cpp:117-168 | in every run, from the first header on, the irreversible number falls only with the header behind a promotion |
| DposSafety.LibKeptWithoutPromotion | libraries/chain/block_header_state.cpp:117-168 | a step that promotes nothing, by whatever producer, leaves a record that keeps the number for the next header |
| DposExamples.LibCanFall | libraries/chain/block_header_state.cpp:121-168 | a run of ten headers from the genesis state in which the number falls from 5 to 4 behind a promotion |
| DposSafety.CheckIsExact | libraries/chain/block_header_state.cpp:53 | for all block numbers of 32 bits, the comparison protects the producer's last block exactly for headers that confirm no more blocks than there are, and lets all others pass |
| DposExamples.OneProducerProposes | libraries/chain/block_header_state.cpp:53-116 | a run from the genesis state in which one of four producers makes three blocks that confirm 65535: each is accepted, and a block is proposed with one confirmer instead of three |
| ForkDatabase.Database.constructor | libraries/chain/fork_database.cpp:268-274 | a database of the root alone satisfies the invariant |
| ForkDatabase.Database.Add | libraries/chain/fork_database.cpp:348-383 | refused exactly for unlinkable blocks and duplicates, with nothing changed, where a duplicate is reported unless it is to be ignored; otherwise the invariant holds with the new block, and the head follows the order of the index |
| ForkDatabase.Database.MarkValid | libraries/chain/fork_database.cpp:548-566 | sets one flag; the head moves only to a preferred block and stays the best |
| ForkDatabase.Database.Remove | libraries/chain/fork_database.cpp:522-541 | the queue collects exactly the block and its descendants; refused exactly when the head is among them |
| ForkDatabase.Database.RollbackHeadToRoot | libraries/chain/fork_database.cpp:281-291 | all flags are cleared and the root is again the best valid block |
| ForkDatabase.Database.PendingHead | libraries/chain/fork_database.cpp:405-416 | no block at all, validated or not, is preferred over the result; it is the head if and only if no block that is not validated is preferred over the head, and otherwise such a block |
| ForkDatabase.Database.SearchOnBranch | libraries/chain/fork_database.cpp:438-445 | the ancestor with the number, or there is none |
| ForkDatabase.Database.FetchBranchFrom | libraries/chain/fork_database.cpp:457-514 | fails exactly for unknown blocks, so the assertions on the way down never fail; the branches are linked, end at children of one block, and share nothing |
| ForkDatabase.Database.PathBelow | libraries/chain/fork_database.cpp:308-313 | lists the ancestors down to the root; the orphan assertion never fails |
| ForkDatabase.Database.AdvanceRoot | libraries/chain/fork_database.cpp:298-329 | on success exactly the blocks that build on the new root remain, and form a valid database; each failure has its exact condition, and the last one the exact blocks it leaves |
| ForkDatabase.FailedAdvanceKeepsTreeIff | libraries/chain/fork_database.cpp:315-322 | what a failed advance leaves is still a tree exactly if nothing was built on the erased block |
| ForkDatabase.AdvanceOrphans | libraries/chain/fork_database.cpp:298-322 | operations that lead to a failed advance which leaves a block without its parent |
| ForkDatabase.AddMovesHeadIff | libraries/chain/fork_database.cpp:379-382 | for every valid database: an addition moves the head if and only if the head is the root and a block of the index is valid, or a valid block comes before the head in the order of the index; for a block that is not validated, before means a tie under a smaller id |
| ForkDatabase.HeadLeavesRoot | libraries/chain/fork_database.cpp:379-382 | operations after which adding a block that is not validated moves the head off a root that is preferred |
| ForkDatabase.HeadLeavesTie | libraries/chain/fork_database.cpp:379-382 | operations after which it moves the head between blocks that tie |
| ForkDatabase.AddKeepsHead | libraries/chain/fork_database.cpp:379-382 | the head after an addition is valid and the best |
| ForkDatabase.FlagKeepsHead | libraries/chain/fork_database.cpp:562-565 | the head after a validation is valid and the best |
| ForkDatabase.QueueDone | libraries/chain/fork_database.cpp:527-540 | a handled queue is exactly the branch |
| ForkDatabaseFile.Close | libraries/chain/fork_database.cpp:196-257 | the two parts of the index are merged: the file lists every block once, in ascending order of preference |
| ForkDatabaseFile.Open | libraries/chain/fork_database.cpp:151-184 | a listing loads exactly if each block comes behind its parent, and then index, root and head are the saved ones; the checks on the head never fail |
| ForkDatabaseFile.LinkableIff | libraries/chain/fork_database.cpp:214-247 | in a file written in ascending order each block comes behind its parent if and only if no block of the index has a smaller irreversible number than a parent in the index |
| ForkDatabaseFile.Restart | libraries/chain/fork_database.cpp:113-257 | round trip: closing and opening restores the database if and only if no block of the index has a smaller irreversible number than a parent in the index |
| ForkDatabaseFile.RestartFails | libraries/chain/fork_database.cpp:156-162 | operations that lead to a database which does not come back |
| ForkTree.CutAt | libraries/chain/fork_database.cpp:315-317 | without a block, exactly what builds on it loses its way to the root |
| ForkTree.CutLeavesAbove | libraries/chain/fork_database.cpp:315-322 | erasing the new root and then the branch of the old one leaves exactly what builds on the new root |
| ForkTree.TreeAbove | libraries/chain/fork_database.cpp:315-328 | what is left is a tree on the new root |
| Float64.FixOfPattern | libraries/builtins/fixdfti.c:20-24 | masks and shifts recover sign, exponent and significand from every pattern |
| Float64.FixTruncates | libraries/builtins/fixdfti.c:16-41 | up to exponent 126, zeros and subnormals included, the result is the denoted number rounded toward zero (section 5.8 of IEEE 754-2008), and nothing leaves the type |
| Float64.FixSaturates | libraries/builtins/fixdfti.c:30-32 | from exponent 128 on, infinities and NaNs included, the bound of the sign; finite values are out of range |
| Float64.FixUndefinedIff | libraries/builtins/fixdfti.c:31-39 | the shift leaves the type exactly for exponent 127 |
| Float64.FlipNegates | libraries/builtins/fixdfti.c:22-39 | flipping the sign bit negates the result |
| Float64.FixMonotone | libraries/builtins/fixdfti.c:20-39 | the order of the denoted numbers is preserved |
| Float64.IntegersConvertToThemselves | libraries/builtins/fixdfti.c:36-39 | a pattern that denotes an integer converts to it |
| Int128ToFloat.ToDoubleRounds | libraries/builtins/floattidf.c:26-79 | for every nonzero 128-bit integer but the least, whose negation overflows, the pattern is valid and denotes the nearest multiple of the unit in the last of 53 digits, ties to even |
| Int128ToFloat.PowerOfTwoBits | libraries/builtins/floattidf.c:26-79 | for every exponent below 127: the bits of a power of two and of its negative, the number they denote, and the way back |
| Int128ToFloat.SmallIntegers | libraries/builtins/floattidf.c:26-79 | the patterns of 1, -1 and 3, and the way back |
| NearestDouble.NoneCloser | libraries/builtins/floattidf.c:26-79 | no finite pattern denotes a number closer to the integer |
| Int128ToFloat.KeptNearest | libraries/builtins/floattidf.c:45-59 | guard and sticky digit round to nearest even; exact on multiples of the unit |
| Int128ToFloat.BackAndForth | libraries/builtins/floattidf.c:26-79 | converting back gives the rounded integer, unless rounding reaches 2 to the 127th |
| Int128ToFloat.RoundTripIff | libraries/builtins/floattidf.c:26-79 | the round trip is the identity exactly for integers with no digits beyond 53, except the least integer |
| TestChains.PushBlocks | unittests/fork_test_utilities.cpp:11-18 | the target becomes the source's prefix up to the smaller of source head and limit, or stays if it is that far already |
| TestChains.ProduceEmptyBlocksUntil | unittests/fork_test_utilities.cpp:22-32 | stops at the first observation that satisfies the predicate, after at most the given number of blocks, the last observation included |
| TestChains.ProduceUntilTransition | unittests/fork_test_utilities.cpp:35-43 | true if and only if at one of the observations 0 to the limit the head was made by the last producer and the next one is due; stops at the first |
| TestChains.ProduceUntilBlocksFrom | unittests/fork_test_utilities.cpp:45-54 | true if and only if every expected producer made the head at one of the observations 0 to the limit; one block less would not have been enough |
| TestChains.MissingEarlier | unittests/fork_test_utilities.cpp:45-54 | a producer missing now was missing before, so the number of blocks is the least |
| TestChains.ScanSlots | unittests/forked_tests.cpp:303-323 | both chains gain exactly their owned slots of the window, in order |
| TestChains.ProduceIfOwned | unittests/forked_tests.cpp:303-317 | a turn examines the slot behind the one examined before |
| TestChains.OwnedSlots | unittests/forked_tests.cpp:311-323 | no owned slot of the window is skipped and no other is used |
| TestChains.OwnedAscend | unittests/forked_tests.cpp:311-323 | the slots of the new blocks strictly ascend |
| Rounds.FullRound | libraries/chain/block_header_state.cpp:18-22 | every window of one round, wherever it starts, has twelve slots for each seat |
| Rounds.WindowBeyondRound | libraries/chain/block_header_state.cpp:18-22 | a window longer than a round has the slots of a full round and those of its remainder |
| Rounds.FourProducersFiftySlots | unittests/forked_tests.cpp:307-326 | the heads that the test expects, 26 and 12 blocks on, come out exactly when the window begins with two slots of the two producers |
| ByteGenerator.GenerateBytes | benchmark/modexp.cpp:13-26 | byte i is byte i mod 4 of draw i div 4, and just enough words are drawn |
| ByteGenerator.WordsRecovered | benchmark/modexp.cpp:13-26 | read back as little-endian words, the bytes are the draws; the bytes of a partial last word are its draw modulo 256 to their number |

## Left out

- Regular expressions and comment rewriting: patterns are functions of the text with a few stated facts (a scope match ends in an opening brace, an initializer match starts with one, both lie in the text searched).
- File walking, arguments, debug output and exit codes of `validate_reflection.py`.
- The text scanning of `Reflections.read` and the copying of derived fields; the branch for derived classes at lines 502-506 is reached only with a class that is not registered, and then raises a key error.
- The message at line 524 lacks a format argument, so a repeated swap raises a type error instead of the assertion; the model has one refusal for both.
- Which field and alias names are extracted from the spans; the spans themselves are modelled.
- Reflection records are values in the map of `Reflections`, and their aliasing is not modelled.
- The dictionaries of named children built while reading, and how a class finds its base when it is constructed; `NameLookup` takes the finished tree.
- FieldMatching.Reflection.CheckFields: which assertion fails is stated only for lists that mirror each other.
- Scopes.Scope.Read: at file level the text behind the last scope is not covered by the field spans.
- NameLookup.QualifiedDescends: Python's recursion limit is not modelled; calls are bounded by a fuel that the lemmas quantify over.
- Bit operations of the conversions are written as arithmetic on unbounded integers with the same constants; the word operations of the Merkle tree are bit vectors.
- Float64.FixTruncates: exponent 127 is excluded, because the shift there has no defined result.
- Hashes and signatures: a hash is a function, without collisions where a lemma says so; a signature is what was signed.
- Dpos.CalcLastIrreversible: the standard library's selection is taken by its contract.
- Dpos.NextState: the default timestamp, signatures, schedule versions, header extensions and protocol features are not modelled.
- DposSafety.ConflictNeedsThird: that irreversible blocks of different numbers do not conflict is not a consequence of these rules; it would rest on which fork producers choose, which is not modelled.
- ForkDatabase.Database.Add: the validator for protocol features is not modelled; that a linked block has the next number and an id of its own, which ids made from headers give, is required.
- Locking, the bytes of the fork database file with its magic number and version, and files that were not written by closing; `fetch_branch`, a shorter form of `search_on_branch`.
- Controller, ABI serializer, authorizations, resource limits, system contracts, networking and plugins.
- Rounds.FourProducersFiftySlots: at which slot the test's window starts is an input.
