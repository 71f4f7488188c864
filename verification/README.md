# Sudoku clause engine in Dafny

A model of the clause engine behind a Python Sudoku solver, with proofs about it.

A literal is a `(bool, name)` pair, a clause is a list of literals, and a CNF (the code calls it a KNF) is a list of clauses. The model keeps these as sequences. Equality is sequence equality, as Python's list equality is: ordered, with repeats counted.

The model covers two source files.

- `KnfMethods.py`, the CNF toolkit. The Dafny modules are `KnfSimplify`, `KnfUnitResolution` and `KnfMinimize`.
  - `minimizeClausesRoughly` drops tautologies and collapses repeated literals.
  - `subsumAndRemoveDuplicatesFromKNF` removes repeated clauses, then every clause that a strictly shorter clause subsumes.
  - `makeUnitResolutionWithinKNF` runs rounds of unit resolution that never touch clauses of length one.
  - `__checkForPossibleResolution` and `minimzeKNF` run a fixed number of rounds of resolution between equal-length clauses.
- `sudokuSolver.py`, the solver.
  - `Propagation` models `__unitResolutionForSet__` and its inner `makeUnitResolution`, which keep the empty clause as the sign of a contradiction.
  - `SudokuNames` models the variable names `"rc-n"` and how they are read back.
  - `SudokuCnf` models `__generalCNF__` and `__createSudokuCnf__`.
  - `SudokuGrid` relates the CNF to the rules of Sudoku on a 9x9 grid.
  - `SudokuSolver` models `solveSudoku`: the solved-state test, the choice of the next cell, clue encoding, result decoding and the depth-first search with its stack of checkpoints.

`KnfExamples` restates the examples of `KnfMethods_test.py` about the model. The engine only compares names for equality, so the test's names `"a"` to `"e"` become the constructors `A` to `E` of a small datatype.

`Seqs` holds the Python list operations the code uses: `list.remove`, `list.index`, `s[:-1]`, and the loops that de-duplicate a list. `Logic` holds literals, clauses, tautologies, subsumption and what it means for a set of true names to model a CNF.

Every pass is a pure function from lists to lists. Loops that mutate a list in place become recursive functions over an explicit state. Each pass is paired with a reference statement of what it does, and lemmas connect the two. Most passes have three kinds of lemma:

- one describing the exact contents of the result;
- one showing the pass keeps exactly the same models;
- one stating an invariant the pass establishes, such as no repeats, no subsumed clause, or no unit with work left.

The search is proved sound: a returned grid is a solution that keeps the clues. It is also proved complete in one direction: it reports "unsolvable" only when no solution keeps the clues.

## Model

| member | source | states |
|---|---|---|
| Seqs.RemoveFirst | KnfMethods.py:19 | `list.remove(x)` takes exactly one copy of `x` out of the multiset of elements, shortens the list by one when `x` is present, and leaves it unchanged otherwise |
| Seqs.RemoveAllOf | KnfMethods.py:40-42 | removing every copy of every listed clause keeps exactly the elements not listed, and never lengthens the list |
| Seqs.DedupLast | KnfMethods.py:17-19 | the keep-last de-duplication has the same members as its input, no repeats, and is no longer |
| KnfSimplify.DropTautologies | KnfMethods.py:57-61 | the first loop of `minimizeClausesRoughly` removes every copy of every clause that holds a literal together with its negation, and keeps every other clause with its full count |
| KnfSimplify.TautologySweepDrops | KnfMethods.py:57-61 | the loop as written, which for each literal of each clause calls `tmp.remove(clause)` while a copy is left, gives the same list as filtering out the tautologies |
| KnfSimplify.RemovableCollapse | KnfMethods.py:64-71 | removing the first copy of each literal that occurs again later in the clause is the same as keeping only the last occurrence of each literal |
| KnfSimplify.CollapseAll | KnfMethods.py:64-71 | the second loop keeps the clause count and replaces each clause by its keep-last de-duplication |
| KnfSimplify.MinimizeClausesRoughly | KnfMethods.py:46-72 | the result is no longer than the input; every non-tautological input clause appears with its repeats collapsed; every result clause comes from such an input clause and has no repeated literal and no complementary pair |
| KnfSimplify.MinimizeClausesRoughlyModels | KnfMethods.py:46-72 | an assignment models the input exactly when it models the result, since tautologies are always true and repeats do not matter |
| KnfSimplify.MinimizeClausesRoughlyInPlace | KnfMethods.py:46-72 | on a list without tautologies the result has the same length, and its clause at each position is the input clause there with only the last copy of each literal kept |
| KnfSimplify.MinimizeClausesRoughlyCounts | KnfMethods.py:46-72 | every non-tautological clause occurring `k` times in the input has its collapsed form occurring at least `k` times in the result |
| KnfSimplify.MinimizeClausesRoughlyClean | KnfMethods.py:46-72 | a list whose clauses have no repeated literal and no complementary pair is returned unchanged |
| KnfSimplify.MinimizeClausesRoughlyKeepsUnits | KnfMethods.py:57-72 | every unit clause of the input is still in the result, counted with multiplicity |
| KnfSimplify.DedupSweepKeepsLast | KnfMethods.py:17-19 | the duplicate-removal loop of `subsumAndRemoveDuplicatesFromKNF` keeps the last occurrence of every clause, because `remove` drops the first one |
| KnfSimplify.RemoveDuplicateClauses | KnfMethods.py:15-19 | the first loop's result is the keep-last de-duplication of the clause list |
| KnfSimplify.CollectPairs | KnfMethods.py:31-37 | the inner loop adds to the delete list exactly the later clauses that `clauseOrg` strictly subsumes, and `clauseOrg` itself when a later clause strictly subsumes it |
| KnfSimplify.CollectBroaderExact | KnfMethods.py:29-37 | on a repeat-free list, the delete list holds exactly the clauses that some strictly shorter clause of the list subsumes |
| KnfSimplify.SubsumAndRemoveDuplicatesSpec | KnfMethods.py:5-44 | the result has no repeated clause, is no longer than the input, and holds exactly the input clauses that no strictly shorter input clause subsumes |
| KnfSimplify.SubsumOrder | KnfMethods.py:5-44 | the result is the keep-last de-duplication of the input with every copy of the strictly subsumed clauses removed, in that order |
| KnfSimplify.SubsumNoBroader | KnfMethods.py:5-44 | when no clause is strictly subsumed, the result is just the keep-last de-duplication |
| KnfSimplify.SubsumptionFree | KnfMethods.py:21-42 | no clause of the result subsumes a strictly longer clause of the result |
| KnfSimplify.SubsumIdempotent | KnfMethods.py:5-44 | running `subsumAndRemoveDuplicatesFromKNF` twice gives the same list as running it once |
| KnfSimplify.CoveredByResult | KnfMethods.py:29-42 | every input clause is subsumed by some clause that survives |
| KnfSimplify.SubsumModels | KnfMethods.py:5-44 | an assignment models the input exactly when it models the result |
| KnfUnitResolution.ScanStepInv | KnfMethods.py:93-103 | one visit of the inner loop keeps the round invariant: the same list length, unit clauses untouched, each clause a subset of its round-start version, and only clauses longer than one that hold a unit literal marked |
| KnfUnitResolution.RoundShrinks | KnfMethods.py:88-107 | a round that sets `changesMade` strictly lowers the total number of literals, so the `while changesMade` loop terminates |
| KnfUnitResolution.RoundUnchangedIffReduced | KnfMethods.py:88-107 | a round reports no change exactly when no unit literal, or its negation, occurs in a longer clause, and then the list is returned unchanged |
| KnfUnitResolution.RoundKeepsUnits | KnfMethods.py:93-98 | a round never removes or alters a clause of length one, duplicates included |
| KnfUnitResolution.RoundShrinksClauses | KnfMethods.py:95-106 | every clause after a round is a subset of some clause before it, and repeat-free clauses stay repeat-free |
| KnfUnitResolution.RoundModels | KnfMethods.py:88-107 | an assignment models the list before a round exactly when it models the list after it |
| KnfUnitResolution.UnitResolutionLoopSpec | KnfMethods.py:88-108 | at the fixpoint no unit literal or its negation occurs in a longer clause, and every unit clause of the input is still present |
| KnfUnitResolution.UnitResolutionLoopParts | KnfMethods.py:88-108 | every clause of the fixpoint is a subset of an input clause, and repeat-free clauses stay repeat-free |
| KnfUnitResolution.UnitResolutionLoopModels | KnfMethods.py:88-108 | the rounds keep exactly the same models |
| KnfUnitResolution.UnitResolutionLoopIdempotent | KnfMethods.py:88-108 | running the rounds on their own result changes nothing |
| KnfUnitResolution.NoUnitsNoChange | KnfMethods.py:92-93 | a list without unit clauses is returned unchanged |
| KnfUnitResolution.MakeUnitResolutionWithinKnfSpec | KnfMethods.py:74-108 | the result has no unit with work left on a longer clause, and keeps every unit clause of the input |
| KnfUnitResolution.MakeUnitResolutionWithinKnfParts | KnfMethods.py:84-108 | the result has no repeated literal within a clause and no tautology, and each clause is a subset of a non-tautological input clause |
| KnfUnitResolution.MakeUnitResolutionWithinKnfFixed | KnfMethods.py:74-108 | a clean list on which no unit has work left is returned unchanged |
| KnfUnitResolution.MakeUnitResolutionWithinKnfNoUnits | KnfMethods.py:84-108 | a clean list without unit clauses is returned unchanged |
| KnfUnitResolution.MakeUnitResolutionWithinKnfIdempotent | KnfMethods.py:74-108 | running `makeUnitResolutionWithinKNF` on its own result changes nothing |
| KnfUnitResolution.MakeUnitResolutionWithinKnfModels | KnfMethods.py:74-108 | an assignment models the input exactly when it models the result |
| KnfMinimize.CheckForPossibleResolution | KnfMethods.py:111-138 | a returned literal lies in `clauseOrg`, is missing from `clauseCheck`, and has its negation in `clauseCheck` |
| KnfMinimize.CheckSpecFrom | KnfMethods.py:125-137 | the scan from any point, with or without a literal already found, agrees with the reference decision on the literals still to visit |
| KnfMinimize.CheckForPossibleResolutionSpec | KnfMethods.py:111-138 | the test answers with a literal exactly when that literal is the only one of `clauseOrg` missing from `clauseCheck` and its negation is in `clauseCheck`; otherwise it answers `(False, None)` |
| KnfMinimize.Resolve | KnfMethods.py:173-183 | a resolvent of equal-length clauses is `clauseOrg` with one literal removed |
| KnfMinimize.ResolventsExact | KnfMethods.py:171-183 | `tempRes` holds exactly the resolvents of the pairs at positions `i < j` |
| KnfMinimize.ResolventSound | KnfMethods.py:177-183 | an assignment that satisfies both clauses of a pair satisfies their resolvent |
| KnfMinimize.MaxClauseLength | KnfMethods.py:159-162 | `maxResolutionTimes` bounds every clause length and is reached by some clause, or is 0 for the empty list |
| KnfMinimize.ResolutionRoundClean | KnfMethods.py:168-194 | after a round no clause has a repeated literal or is a tautology |
| KnfMinimize.ResolutionRoundModels | KnfMethods.py:168-194 | on a clean list a round keeps exactly the same models |
| KnfMinimize.ResolutionRoundsReduced | KnfMethods.py:164-194 | after at least one round no unit has work left on a longer clause |
| KnfMinimize.MinimizeKnfModels | KnfMethods.py:140-196 | `minimzeKNF` keeps exactly the same models, and its result is clean and has no unit with work left |
| KnfMinimize.MinimizeKnfEmpty | KnfMethods.py:140-196 | the empty list minimizes to the empty list |
| KnfExamples.SubsumEmpty | KnfMethods_test.py:16 | the empty list stays empty |
| KnfExamples.SubsumTwoCopies | KnfMethods_test.py:17 | two copies of a clause become one |
| KnfExamples.SubsumThreeCopies | KnfMethods_test.py:18 | three copies of a clause become one |
| KnfExamples.SubsumKeepsLastCopy | KnfMethods_test.py:19 | of two copies around `[not d]` the last one stays, so the result is `[[not d], [a, b, not b]]` |
| KnfExamples.SubsumSingle | KnfMethods_test.py:23 | a single clause stays |
| KnfExamples.SubsumDropsLonger | KnfMethods_test.py:24 | `[a]` removes the longer `[a, not a, a]` |
| KnfExamples.SubsumEqualLengths | KnfMethods_test.py:25 | two clauses of equal length both stay, in order |
| KnfExamples.SubsumBoth | KnfMethods_test.py:28 | both copies of `[a, b, not b]` go, because `[a, not b]` lies inside it |
| KnfExamples.UnitResolutionEmpty | KnfMethods_test.py:31 | the empty list stays empty |
| KnfExamples.UnitResolutionNoUnits | KnfMethods_test.py:32 | a list without unit clauses is returned unchanged |
| KnfExamples.UnitResolutionOneRound | KnfMethods_test.py:33 | the unit `a` removes `[a, not b]` and shortens `[c, not a]` to `[c]` |
| KnfExamples.UnitResolutionUnitsKept | KnfMethods_test.py:34 | both copies of the unit `[a]` stay, and the result is `[[a], [c], [a]]` |
| KnfExamples.UnitResolutionChain | KnfMethods_test.py:36-42 | the unit `not c` made in the first round shortens `[c, not d]` in the second, giving `[[a], [not d], [not c]]` |
| KnfExamples.ChainFor | KnfMethods_test.py:36-42 | the same two rounds give the same result for any four different names |
| Propagation.StripRemovesNegated | sudokuSolver.py:185-190 | the inner loop removes from the copy `tmpCl` exactly one copy of each unit's negation that occurs in the clause, and nothing else |
| Propagation.StrippedCounts | sudokuSolver.py:185-190 | with distinct units, a literal of the clause whose negation is a unit loses exactly one of its copies, and every other literal keeps its count |
| Propagation.StripShorter | sudokuSolver.py:185-190 | a clause that holds a negated unit loses at least one literal |
| Propagation.StrippedSatisfied | sudokuSolver.py:184-193 | when every unit holds, the stripped clause is satisfied exactly when the original is |
| Propagation.AddUnitClauses | sudokuSolver.py:200-203 | after the final loop the list holds its old clauses plus a singleton for every unit |
| Propagation.PassShape | sudokuSolver.py:175-197 | the clause loop leaves the untouched clauses in order, followed by the shrunk clauses in order; clauses that meet a unit are gone |
| Propagation.PassMembers | sudokuSolver.py:174-205 | a clause is in the round's result exactly when it was untouched, is a shrunk clause, or is the singleton of a unit |
| Propagation.MakeUnitResolutionNewUnits | sudokuSolver.py:196-197 | the new units are exactly the single literals left in shrunk clauses, with no repeats |
| Propagation.MakeUnitResolutionModels | sudokuSolver.py:174-205 | an assignment models the round's result exactly when it models the input and makes every unit true |
| Propagation.MakeUnitResolutionKeepsEmpty | sudokuSolver.py:185-193 | an empty clause survives a round |
| Propagation.MakeUnitResolutionRecords | sudokuSolver.py:177-203 | a unit, or a singleton already present, is present after the round unless the empty clause is |
| Propagation.MakeUnitResolutionDecreases | sudokuSolver.py:174-205 | a round never raises the number of surplus literals, and lowers it when it finds a new unit, so the `while` loop terminates |
| Propagation.UnitResolutionForSet | sudokuSolver.py:214-219 | the returned list has no repeated clause |
| Propagation.PropagateModels | sudokuSolver.py:207-212 | the loop's result is modelled exactly by the assignments that model the input and make every starting unit true |
| Propagation.UnitResolutionForSetModels | sudokuSolver.py:163-219 | `__unitResolutionForSet__` is modelled exactly by the assignments that model the input and make every unit true |
| Propagation.UnitResolutionForSetRecords | sudokuSolver.py:163-219 | an empty clause is kept, and every unit ends up as a singleton unless the empty clause is present |
| SudokuNames.DecodeNameOfName | sudokuSolver.py:134-136 | reading `int(name[0])`, `int(name[1])`, `int(name[3])` from `str(r) + str(c) + "-" + str(n)` gives back `(r, c, n)` for single digits |
| SudokuNames.NameInjective | sudokuSolver.py:94 | two names with single-digit cells are equal only when cell and number are equal |
| SudokuNames.NameCell | sudokuSolver.py:94 | equal names with single-digit cells name the same cell |
| SudokuCnf.GeneralCnfShape | sudokuSolver.py:222-260 | `__generalCNF__` is 36 clauses of two distinct negated letters, then the clause of all nine letters |
| SudokuCnf.GeneralCnfPairs | sudokuSolver.py:222-258 | every pair of distinct letters is forbidden by some clause |
| SudokuCnf.GeneralCnfMeaning | sudokuSolver.py:222-260 | an assignment models `__generalCNF__` exactly when exactly one of the nine letters is true |
| SudokuCnf.BlockTableCells | sudokuSolver.py:334-346 | entry `k` of block `b` is the cell `(3(b/3) + k/3, 3(b%3) + k%3)` |
| SudokuCnf.GroupNameCell | sudokuSolver.py:273-352 | the rename tables send letter `k` of a cell, row, column or block group to the name of the cell and number it stands for |
| SudokuCnf.RenameCnfModels | sudokuSolver.py:284-289 | a renamed CNF holds under an assignment exactly when the original holds under the letters whose renamed names are true |
| SudokuCnf.GroupModels | sudokuSolver.py:270-354 | one renamed copy holds exactly when exactly one of the group's nine names is true |
| SudokuCnf.ExpandModels | sudokuSolver.py:270-354 | the concatenated copies hold exactly when every group has exactly one true name |
| SudokuCnf.ExpandMembers | sudokuSolver.py:270-354 | a clause is in the concatenated copies exactly when it is clause `k` of `__generalCNF__` renamed for one of the groups |
| SudokuCnf.CreateSudokuCnfClauses | sudokuSolver.py:262-362 | a clause is in `__createSudokuCnf__` exactly when it is a clause of `__generalCNF__` renamed for one of the 324 cell, row, column and block groups |
| SudokuCnf.CreateSudokuCnfShape | sudokuSolver.py:222-362 | every clause of `__createSudokuCnf__` is either two negated literals or nine positive ones |
| SudokuCnf.CreateSudokuCnf | sudokuSolver.py:356-362 | the constructed CNF has no repeated clause |
| SudokuCnf.DedupExpandModels | sudokuSolver.py:356-362 | removing repeated clauses keeps exactly the same models |
| SudokuCnf.CreateSudokuCnfModels | sudokuSolver.py:262-362 | an assignment models `__createSudokuCnf__` exactly when each of the 324 groups has exactly one true name |
| SudokuGrid.CellGroupOnGrid | sudokuSolver.py:270-289 | on a grid's assignment, a cell group holds exactly when the cell holds a digit 1-9 |
| SudokuGrid.RowGroupOnGrid | sudokuSolver.py:291-310 | on a grid's assignment, a row group for `n` holds exactly when `n` occurs once in the row |
| SudokuGrid.ColGroupOnGrid | sudokuSolver.py:312-331 | on a grid's assignment, a column group for `n` holds exactly when `n` occurs once in the column |
| SudokuGrid.BlockGroupOnGrid | sudokuSolver.py:333-354 | on a grid's assignment, a block group for `n` holds exactly when `n` occurs once in the block |
| SudokuGrid.RulesHoldModels | sudokuSolver.py:262-362 | an assignment models the Sudoku CNF exactly when every cell has one number and every row, column and block has each number once |
| SudokuGrid.RulesHoldOnGrid | sudokuSolver.py:270-354 | for a grid filled with digits 1-9, the rules hold of its assignment exactly when the grid is a solution |
| SudokuGrid.CreateSudokuCnfOnGrid | sudokuSolver.py:262-362 | a filled grid's assignment models the Sudoku CNF exactly when the grid is a Sudoku solution |
| SudokuSolver.CellScanSpec | sudokuSolver.py:38-46 | the scan over numbers `n`..9 of a cell succeeds exactly when every such number is set or ruled out, and exactly one is set, or none if one was already seen |
| SudokuSolver.CellsFromSpec | sudokuSolver.py:36-48 | the scan over cells from `k` on succeeds exactly when each of those cells is decided |
| SudokuSolver.IsInSolvedStateSpec | sudokuSolver.py:19-53 | `isInSolvedState` holds exactly when there are 729 clauses, all units, and every cell has every number set or ruled out and exactly one number set |
| SudokuSolver.CandidatesSpec | sudokuSolver.py:69-72 | a cell's candidates are exactly the numbers 1-9 without a negative unit, in increasing order |
| SudokuSolver.FieldScanTwo | sudokuSolver.py:73-74 | the scan returns at once the first open cell with exactly two candidates |
| SudokuSolver.FieldScanSpec | sudokuSolver.py:66-80 | from any point of the scan, the answer is absent exactly when no cell is open, and is otherwise the first open cell with two candidates or the first open cell with the fewest |
| SudokuSolver.GetUnallocatedFieldSpec | sudokuSolver.py:55-80 | `getUnallocatetField` returns `None` exactly when no cell lacks a positive unit; otherwise it returns the first row-major open cell with two candidates, or failing that the first with the fewest |
| SudokuSolver.ChosenField | sudokuSolver.py:55-80 | the chosen cell is on the board and carries its own candidate list |
| SudokuSolver.ModelCandidate | sudokuSolver.py:69-72 | a number true for the chosen cell in a model of the list is among its candidates |
| SudokuSolver.ClueLiteralsSpec | sudokuSolver.py:89-94 | the clue set holds, with no repeats, exactly the positive literal of each filled cell and its number |
| SudokuSolver.ClueUnitsSet | sudokuSolver.py:91-94 | a clue unit sets a cell to `n` exactly when the puzzle holds a non-zero `n` there |
| SudokuSolver.FillFromCells | sudokuSolver.py:134-136 | reading back unit clauses whose positive literals name a board cell and a digit, with at most one number per cell, succeeds; each cell a positive unit sets gets that number and every other cell keeps its old value |
| SudokuSolver.ClueRoundTrip | sudokuSolver.py:120-137 | decoding the unit clauses of the encoded clues into the zero grid gives back the puzzle |
| SudokuSolver.SolvedFill | sudokuSolver.py:120-137 | in a solved state, decoding succeeds, fills every cell with a digit 1-9, and the grid's assignment models the list |
| SudokuSolver.CluesOnGrid | sudokuSolver.py:91-94 | a filled grid's assignment makes every clue true exactly when the grid keeps the puzzle's clues |
| SudokuSolver.SolvedSound | sudokuSolver.py:120-137 | if every model of a solved list obeys the rules and clues, the decoded grid is a solution that keeps the clues |
| SudokuSolver.PopStepSound | sudokuSolver.py:104-108 | popping a checkpoint and propagating its guess on its snapshot keeps every list sound |
| SudokuSolver.GuessSound | sudokuSolver.py:109-117 | propagating the first candidate keeps the list sound, and the pushed checkpoints carry sound snapshots |
| SudokuSolver.StepSound | sudokuSolver.py:100-117 | from a sound list and stack, a round either answers with a solution that keeps the clues, or continues with a sound list and stack |
| SudokuSolver.LoopKeeps | sudokuSolver.py:100-117 | any property of round results that each round preserves, and that holds of running out of rounds, holds of the loop's outcome |
| SudokuSolver.SearchSound | sudokuSolver.py:100-117 | a search started from a sound round returns only solutions that keep the clues |
| SudokuSolver.GuessComplete | sudokuSolver.py:109-117 | any solution that models the list models the propagated first candidate, or one pushed checkpoint with its guess |
| SudokuSolver.PopComplete | sudokuSolver.py:104-108 | popping on an empty clause loses no solution: a list holding `[]` has no model, so every solution lives in the popped checkpoint with its guess or in a checkpoint still on the stack |
| SudokuSolver.PushComplete | sudokuSolver.py:109-117 | guessing and pushing the other candidates loses no solution |
| SudokuSolver.StepComplete | sudokuSolver.py:100-117 | a round answers "unsolvable" only when no assignment obeys the rules and clues, and otherwise loses none |
| SudokuSolver.SearchComplete | sudokuSolver.py:100-117 | a search that has lost no solution answers "unsolvable" only when there is none |
| SudokuSolver.SolveSudokuSound | sudokuSolver.py:9-138 | a grid returned by `solveSudoku` is a Sudoku solution that keeps every clue |
| SudokuSolver.SolveSudokuComplete | sudokuSolver.py:9-138 | `solveSudoku` returns `[]` only when no Sudoku solution keeps the clues |

## Left out

- `printSudoku`, `demo_code.py` and `sudokus.py` are console output and puzzle data. `__doc__` and the script at the end of `KnfMethods.py` build and format a table but never minimize it.
- The `print` in `minimzeKNF` and its `progressMessages` flag are console output only.
- The optional `sudokuGeneralCnf` import and its `try/except` are not modelled. That module is not part of this model, so the solver always starts from `__createSudokuCnf__`.
- In-place mutation and aliasing of the caller's lists are not modelled. Each pass returns a new list, which is what every call site uses.
- Python's `set` iteration order is not modelled. The unit set of `__unitResolutionForSet__` is a sequence without repeats, processed in any given order. Units derived in a round are kept in the order they are found.
- Python raises when `list.remove` misses, when `getUnallocatetField` returns `None`, when a cell has no candidates, or when a name does not decode. `RemoveFirst` is total and leaves the list unchanged when the value is absent; the model never reaches that case where the code would raise. The other three raise cases end the search with the outcome `Crash`.
- SudokuSolver.SolveSudoku: the search runs for a given number of rounds, and `OutOfFuel` stands for a search cut short by that bound. Termination of the full search is not modelled: a whole puzzle has 729 variables and thousands of clauses.
- SudokuSolver.SolveSudokuComplete: is stated for the answer "unsolvable" only. It does not promise that a solvable puzzle yields a grid: the search can also end in `Crash` or run out of rounds. Unit propagation can leave `[x]` and `[not x]` side by side without producing `[]`, when both literals become units in the same round. The `[] in cnf` test then misses the conflict.
- Propagation.UnitResolutionForSetModels: requires the units to have no repeats, as a Python `set` has none.
- Digits are the ASCII characters `'0'` to `'9'`. Python's `int` also accepts other Unicode digits, which no name built by the code contains.
- Puzzles are taken to be 9 rows of 9 numbers, the shape `solveSudoku` indexes. Decoding assumes single-digit numbers, which every name built from a valid grid has.
- `minimzeKNF` runs exactly `maxResolutionTimes` rounds, as the code does; it does not stop early when a round changes nothing.
- The 16-clause example of `test_minimzeKNF`, which shrinks to 7 clauses, is not proved. Its resolution rounds compare every pair of clauses four times over, which is far beyond what the verifier can evaluate on concrete lists in reasonable time. `KnfMinimize.MinimizeKnfEmpty` covers that test's empty case.
- KnfSimplify.SubsumAndRemoveDuplicates, KnfUnitResolution.MakeUnitResolutionWithinKnf, KnfUnitResolution.UnitResolutionLoop, KnfMinimize.ResolutionRound, KnfMinimize.MinimizeKnf, SudokuSolver.IsInSolvedState, SudokuSolver.GetUnallocatedField and SudokuSolver.Step carry no `ensures` of their own. Their properties are stated by the lemmas listed above, so that the functions stay cheap to unfold.
