# Verification of CardSAT-LS

CardSAT-LS decides formulas of cardinality rows. A row is a list of literals
with a degree and says that at least that many of its literals are true; a
clause is a row of degree one. This project models the parts of the program
whose correctness is not visible from any one function, and proves them:

* **Preprocessing and model recovery** (`Knf` to `Preprocess`, `Solver`).
  Cardinality-aware unit propagation, bounded variable elimination over
  cardinality rows, pure literals, and the merging of equivalent variables
  with a signed union-find. Each pass renames the variables. The theorem is
  end to end: code 20 means that no assignment satisfies the input, and
  otherwise every model of the reduced rows is carried back, through the
  variable map and the elimination log replayed in reverse, to a full model of
  the input (`Preprocess.Preprocessor.BuildModel`, `Solver.Run`).
* **Local search** (`IndexedStack` to `LocalSearch`, `Neighbors`). Counts,
  scores, weights and three indexed stacks are patched in place. `Moves` says
  what one flip and one weight increase do, patch by patch, and proves that
  after any run of them everything equals its definition from scratch. The
  search loop performs such a run; `Turns` says which variables it may pick at
  each step and when it may end. The fused pair flip ends in exactly the state
  of two single flips, the order of the stacks included.
* **Cardinality encodings** (`Clauses`, `SplitEncoding`,
  `CardinalityEncoding`). The totalizer and the split at-most-one encoding say
  exactly what the constraint says once the fresh variables are projected away.
* **Extension stack and clause elimination** (`Extension`, `ElimRepair`,
  `GlobalBlocking`, `Conditioning`, `Condition`). The flat backward walk is a
  fold over the pushed entries; eliminated clauses and globally blocked clauses
  are repaired by it. Within its limit a round of conditioning is complete: of
  the clauses it tries, it removes exactly those that some set of true literals
  blocks.
* **RUP checker** (`Watches`, `Checker`). Two watched literals with blocking
  literals: over whole proofs, accepted clauses follow from the original ones,
  propagation misses nothing, and what was added and not deleted stays known.
* **Clique extraction** (`Cliques`, `Triangles`, `Card`). Planned cliques are
  cliques, use each row once, and are replaced by one cardinality row without
  changing the models. A search that is not cut short misses no triangle that
  shares no edge with what it planned.

Imperative code is modelled by classes and methods with loops; what a method
computes is tied to specification functions and predicates, and the facts
about those are lemmas. A predicate written `true == (...)` is an ordinary
predicate that the verifier keeps as one proof obligation.

Conventions: an assignment is a total map from variables to truth values. Rows
are numbered from 0. An input row is read with each literal counted once,
which is what unit propagation makes of it (`UnitRows.DedupDistinct` shows
that this is the plain reading when no literal is repeated).

## Model

| member | source | states |
|---|---|---|
| `UnitRows.DedupDistinct` | src/PreProcess/propagation.cpp:57-93 | dropping repeats does not change a row that has none, so the deduplicated reading is the plain reading of such rows |
| `UnitRows.DedupCounts` | src/PreProcess/propagation.cpp:57-93 | counting the true literals of a row without repeats is counting its different true literals |
| `UnitPropagation.NormalisedMeaning` | src/PreProcess/propagation.cpp:57-93 | dropping repeated literals and paying one degree per complementary pair keeps the models of a row; a row declared satisfied is true everywhere |
| `UnitPropagation.Propagator.NormaliseRow` | src/PreProcess/propagation.cpp:57-93 | the stamped scan computes exactly that normal form and leaves the stamps reusable |
| `UnitPropagation.Propagator.AssignLit` | src/PreProcess/propagation.cpp:15-22 | succeeds iff the literal is compatible with the values, and then the values say what they said and the literal; each variable is queued at most once |
| `UnitPropagation.Propagator.ForceRemaining` | src/PreProcess/propagation.cpp:24-30 | all literals become true, or no assignment agreeing with the values makes them true |
| `UnitPropagation.CompactMeaning` | src/PreProcess/propagation.cpp:32-55 | removing assigned literals and paying the true ones keeps the row's meaning under the values; degree above size is a conflict |
| `UnitPropagation.Propagator.SimplifyClause` | src/PreProcess/propagation.cpp:32-55 | row, deletion mark and values together keep their meaning; failure only if the row is impossible; a row left has no assigned variable and 1 <= degree < size |
| `UnitPropagation.FixpointReached` | src/PreProcess/propagation.cpp:95-109 | with the queue empty the input says exactly what the values and the live rows say, and no live row mentions an assigned variable |
| `UnitPropagation.Propagator.Run` | src/PreProcess/propagation.cpp:3-109 | the whole pass: on success equivalence with the input, settled rows with 1 <= degree < size and a queue without repeats; failure only if no model exists |
| `Projection.ParentsProject` | src/PreProcess/resolution.cpp:192-214 | under the all-clauses or tight-tail guard some value of the pivot satisfies the parents iff all pairwise resolvents hold |
| `Projection.TightTailForces` | src/PreProcess/resolution.cpp:196-214 | a row with degree at least size - 1 on the other side forces the rest of a parent up to degree - 1 |
| `Projection.GuardIsNeeded` | src/PreProcess/resolution.cpp:196-214 | without the guard all resolvents can hold while no value of the pivot satisfies the parents (concrete rows) |
| `Elimination.EliminationProjects` | src/PreProcess/resolution.cpp:183-258 | on the whole table: the rows after an elimination are the projection of the rows before it along the pivot |
| `Elimination.RecoversElimination` | src/PreProcess/resolution.cpp:86-95 | logging the removed parents keeps the promise that replaying the log turns every model of the live rows into one of the original rows |
| `ResolutionPass.ResolventRow` | src/PreProcess/resolution.cpp:102-151 | the merged literals with degree p + n - 1 are the resolvent, clause duplicates included; degree above size means it has no model |
| `ResolutionPass.Resolver.BuildResolvent` | src/PreProcess/resolution.cpp:102-151 | shared iff a cardinality row is involved and the parents share another variable; tautology iff two clauses clash in another literal; infeasible only if the resolvent has no model; otherwise the resolvent. All marks are clear again on every exit |
| `ResolutionPass.BuiltResolvable` | src/PreProcess/resolution.cpp:102-151 | the outcome is a resolvent or a tautology exactly if the pair shares no other variable of a cardinality row and has a resolvent with a model |
| `ResolutionPass.Resolver.EnqueuePureCandidate` | src/PreProcess/resolution.cpp:34-39 | the variable is waiting unless retired, at most once, and nobody waiting is lost |
| `ResolutionPass.Resolver.DecCount` | src/PreProcess/resolution.cpp:49-56 | one count drops by one, and every unretired variable whose count is zero is still waiting in the queue |
| `ResolutionPass.Resolver.IndexAll` | src/PreProcess/resolution.cpp:58-73 | occurrence lists and counts are those of the rows, and the empty log recovers |
| `ResolutionPass.Resolver.CollectLive` | src/PreProcess/resolution.cpp:183-214 | the list is exactly the live rows with the literal, as many as its counter says |
| `ResolutionPass.Resolver.CheckGuard` | src/PreProcess/resolution.cpp:192-214 | true iff the elimination guard holds of the exact lists of live parents |
| `ResolutionPass.Resolver.AppendClause` | src/PreProcess/resolution.cpp:153-168 | a new row keeps counters and occurrence lists exact |
| `ResolutionPass.Resolver.DeleteActiveClause` | src/PreProcess/resolution.cpp:170-176 | a deleted row keeps them exact; deleting twice changes nothing |
| `ResolutionPass.Resolver.CommitElimination` | src/PreProcess/resolution.cpp:240-257 | parents logged and replaced, pivot retired, counters exact, log still recovers, and the number of live rows changes by resolvents minus parents |
| `ResolutionPass.Resolver.TryEliminate` | src/PreProcess/resolution.cpp:183-258 | the pivot is retired and logged iff the guard holds of its live parents and each pair has a resolvent or is a tautology, else the rows stay; all invariants hold, the number of live rows never grows, and it fails only if the input of the pass has no model |
| `ResolutionPass.Resolver.EliminateVariables` | src/PreProcess/resolution.cpp:183-258 | every variable is tried once, in order: the tables between the tries show for each that it was retired, its parents removed and their resolvents appended, iff guard and resolvents allow it, and that nothing changed otherwise; the retired ones are those in the log |
| `ResolutionPass.Resolver.SimplifyPureClause` | src/PreProcess/resolution.cpp:261-285 | never fails; the row loses the pure variable and one degree, or goes away, with exact counters |
| `ResolutionPass.Resolver.RetirePure` | src/PreProcess/resolution.cpp:287-312 | fixing a pure variable keeps counters, queue and recovery |
| `ResolutionPass.Resolver.PropagatePure` | src/PreProcess/resolution.cpp:287-312 | ends, never fails, and every variable left occurs in both polarities |
| `ResolutionPass.Resolver.Run` | src/PreProcess/resolution.cpp:23-336 | the pass: every variable is tried for elimination; failure means no model; otherwise every model of the live rows replays to a model of the original rows, and each variable left occurs in both polarities |
| `Relabel.UpdateVarClauseLabel` | src/PreProcess/preprocess.cpp:131-176 | live rows move to the front under new names; the naming is a bijection between the mentioned variables and 1..vars |
| `Relabel.RelabelledModels` | src/PreProcess/preprocess.cpp:131-176 | models before and after correspond in both directions |
| `SignedUnionFind.UnionFind.Find` | src/PreProcess/binary.cpp:81-100 | returns the root, with the sign of the variable, and path compression changes no class |
| `SignedUnionFind.UnionFind.AssignValue` | src/PreProcess/binary.cpp:135-143 | afterwards exactly the former assignments with that value are represented; failure means there are none; it reports a change exactly if a root without a value gets one |
| `SignedUnionFind.UnionFind.Unite` | src/PreProcess/binary.cpp:145-174 | afterwards exactly the former assignments with that relation are represented; failure means there are none; other roots are untouched; it reports a change exactly if there is one root less |
| `SignedUnionFind.LinkMeaning` | src/PreProcess/binary.cpp:160-174 | linking two roots by a sign, with their values, is adding one equation |
| `BinaryPass.RelationFound` | src/PreProcess/binary.cpp:220-234 | two clauses with opposite literals force the recorded relation, which implies both clauses |
| `BinaryPass.FixedFound` | src/PreProcess/binary.cpp:220-234 | two clauses sharing one literal and clashing in the other force that literal, which implies both |
| `BinaryPass.CardRowRooted` | src/PreProcess/binary.cpp:110-133 | variables of cardinality rows stay single unassigned roots, so such rows need no rewriting |
| `BinaryPass.Binary.CollectActions` | src/PreProcess/binary.cpp:194-234 | the actions are exactly those of safe patterns of two live clauses, and the rows marked for deletion are exactly the rows of such patterns |
| `BinaryPass.YieldsMeans` | src/PreProcess/binary.cpp:207-234 | the action of a matched pattern follows from the two clauses and implies them |
| `BinaryPass.Binary.PerformActions` | src/PreProcess/binary.cpp:236-247 | in any order, the union-find then represents exactly the assignments that satisfy all actions; failure means there are none |
| `BinaryPass.WitnessesImplied` | src/PreProcess/binary.cpp:249-254 | deleting the witness rows changes nothing once their actions are performed |
| `BinaryPass.Binary.MapLiteral` | src/PreProcess/binary.cpp:256-300 | replacing a literal by its signed root, dropping repeats and false roots, keeps the clause's meaning; a clash or a true root satisfies it |
| `BinaryPass.Binary.RewriteRow` | src/PreProcess/binary.cpp:256-316 | a clause is rewritten onto unassigned roots without changing the meaning of the whole; failure means no model |
| `BinaryPass.Binary.RewriteRows` | src/PreProcess/binary.cpp:256-316 | each live clause goes iff one of its literals is true or clashes, and else becomes its signed unfixed roots in order of first occurrence, each once; cardinality rows stay |
| `BinaryPass.Binary.Turn` | src/PreProcess/binary.cpp:178-340 | one turn: the union-find represents the former assignments that satisfy the actions of all safe patterns, the rows of the patterns are deleted, all clauses left are rewritten; it reports a change exactly if the table differs |
| `BinaryPass.Binary.Run` | src/PreProcess/binary.cpp:102-353 | the pass: its tables are one turn apart and each differs from the one before; it ends at a table that a turn does not change and that has no safe pattern, unless there are too many clauses, sixteen turns were made, or the next one would exceed the limit of clause rounds; original rows mean what union-find and live rows mean, failure means no model |
| `Stages.UpRecovers` | src/PreProcess/propagation.cpp:110-121 | propagation followed by renaming: models correspond through the variable map |
| `Stages.ResolutionRecovers` | src/PreProcess/resolution.cpp:314-335 | elimination followed by renaming keeps end-to-end recovery |
| `Stages.BinaryRecovers` | src/PreProcess/binary.cpp:317-353 | merging followed by renaming keeps end-to-end recovery with the log unchanged |
| `Recovery.NamedReplayAgrees` | src/PreProcess/preprocess.cpp:178-235 | replay on the three-valued map of original names succeeds exactly when replay on assignments does, with the same result |
| `Preprocess.Preprocessor.SatisfiedWith` | src/PreProcess/preprocess.cpp:191-200 | counts the literals true under the map with the pivot set, against the degree |
| `Preprocess.Preprocessor.ReplayPivot` | src/PreProcess/preprocess.cpp:208-235 | true is tried first, then false, and the turn fails only if neither satisfies the pivot's rows |
| `Preprocess.Preprocessor.GetCompleteModel` | src/PreProcess/preprocess.cpp:178-235 | the backward loop over the flat log is the replay of its groups |
| `Preprocess.Preprocessor.DoPreprocess` | src/PreProcess/preprocess.cpp:237-262 | 20 only if no assignment satisfies the input; 0 leaves a state from which every model recovers |
| `Preprocess.SameSatisfiability` | src/PreProcess/preprocess.cpp:237-262 | after each pass the current rows are satisfiable iff the input is |
| `Preprocess.InputMeans` | src/PreProcess/preprocess.cpp:48-61 | an assignment satisfies the rows that the passes start from iff it makes as many different literals of each input row true as its degree says, and one where the degree is missing |
| `Preprocess.Preprocessor.BuildModel` | src/solver.cpp:58-96 | never fails on a solution of the reduced rows and returns a full model of the input |
| `Solver.Run` | src/solver.cpp:12-56 | with or without preprocessing, in terms of the rows as they were read: 20 means that no assignment makes as many different literals of each row true as its degree asks for (one if it is missing); 10 comes with a full assignment that does |
| `Scores.ScoreIsViolationChange` | include/cardsatLS.hpp:32-48 | the score of a variable is the weighted violation before minus after its flip |
| `Scores.FlipNegatesScore` | src/LocalSearch/heuristic.cpp:44-75 | flipping back negates the score |
| `Scores.NoViolation` | src/LocalSearch/cardsat.cpp:289-307 | with positive weights the violation is zero exactly for models |
| `Tally.TallyCounts` | src/LocalSearch/heuristic.cpp:77-90 | after a prefix of the occurrences exactly the rows seen have their counts moved |
| `RowUpdate.AfterScoreMembers` | src/LocalSearch/heuristic.cpp:30-42 | in the two modes that maintain the stack, the variable is on it afterwards iff it had to stay or its new score is positive; nobody else moves |
| `LocalSearch.CardSATLS.UpdateClauseNeighborScores` | src/LocalSearch/heuristic.cpp:44-75 | all other variables of the row move by exactly the change of their contribution |
| `LocalSearch.CardSATLS.UpdateOneFlipOccurrence` | src/LocalSearch/heuristic.cpp:92-105 | count, stacks and scores after one occurrence |
| `LocalSearch.CardSATLS.FlipWithNeighbor` | src/LocalSearch/cardsat.cpp:261-270 | ends in the one state that a flip means, stack order included |
| `LocalSearch.CardSATLS.FlipNoNeighbor` | src/LocalSearch/cardsat.cpp:272-287 | a flip without neighbour lists: same numbers, and the good stack in exactly the order of its patches; only the flipped variable may be positive and absent |
| `LocalSearch.CardSATLS.UpdateSharedPairScores` | src/LocalSearch/heuristic.cpp:139-192 | one pass over a shared row does the first variable's updates and delays exactly the second's |
| `LocalSearch.CardSATLS.AccumulateDelayedScore` | src/LocalSearch/heuristic.cpp:125-137 | the delayed table gains the delta and lists each touched variable once |
| `FusedSwap.DelayedApplied` | src/LocalSearch/heuristic.cpp:438-459 | applying the delayed table and flipping the second variable gives the scores of two flips |
| `LocalSearch.CardSATLS.FlipPairAtomic` | src/LocalSearch/heuristic.cpp:367-460 | equals flip(first); flip(second) in every field and stack order; scratch marks are zero again; out-of-range or equal variables change nothing |
| `SearchState.GoodAfterMembers` | src/LocalSearch/cardsat.cpp:235-259 | the sweep and the additions leave exactly the members and neighbours with positive score |
| `SearchState.FlippedAbsent` | src/LocalSearch/cardsat.cpp:235-259 | a flip makes no variable but the flipped one newly positive and off the stack |
| `SearchState.FarScore` | src/LocalSearch/reader.cpp:55-115 | only variables sharing a row can change their score |
| `SearchState.FlipLowersViolation` | src/LocalSearch/cardsat.cpp:192-228 | a flip lowers the weighted violation by the score |
| `Moves.PatchRowDone` | src/LocalSearch/heuristic.cpp:44-75 | the patches of a row move each other variable of it by exactly the change of its contribution, whichever stack mode is in force |
| `Moves.FlipStepExact` | src/LocalSearch/heuristic.cpp:77-113 | the patches of all occurrences of the flipped variable end in the numbers from scratch, in both modes |
| `Moves.ReweighExact` | src/LocalSearch/weight.cpp:8-58 | the collected deltas, applied one by one, end in the scores under the new weights; exactly the violated rows weigh one more |
| `Moves.GoodRunBounded` | src/LocalSearch/cardsat.cpp:39-72 | consecutive flips of good variables are no more than the violation at the start |
| `Moves.RunKeepsState` | src/LocalSearch/cardsat.cpp:39-72 | any sequence of flips and weight increases, each given by its patches, from one state whose numbers are those from scratch: at the end counts, row stacks and scores are those from scratch, and only flipped variables can be newly positive and off the good stack |
| `Weights.BumpedScores` | src/LocalSearch/weight.cpp:8-58 | adding the collected deltas gives the scores under the new weights |
| `LocalSearch.CardSATLS.IncreaseWeights` | src/LocalSearch/weight.cpp:8-58 | weights of violated rows grow by one, scores and good stack follow, scratch tables are zero again |
| `LocalSearch.CardSATLS.InitTally` | src/LocalSearch/cardsat.cpp:141-190 | counts are true and the two row stacks hold exactly the violated rows and the satisfied rows of degree above one |
| `LocalSearch.CardSATLS.InitScoreMulti` | src/LocalSearch/heuristic.cpp:196-224 | scores are those from scratch |
| `LocalSearch.CardSATLS.InitLocalSearch` | src/LocalSearch/cardsat.cpp:141-190 | from any assignment to a state in which everything agrees and no positive variable is off the stack |
| `LocalSearch.CardSATLS.VerifySol` | src/LocalSearch/cardsat.cpp:289-307 | 10 iff the assignment satisfies every row |
| `LocalSearch.CardSATLS.PickBestGood` | src/LocalSearch/cardsat.cpp:192-233 | a member of the good stack that no member beats |
| `LocalSearch.CardSATLS.SelectVarAfterUpdateWeight` | src/LocalSearch/heuristic.cpp:260-310 | a variable of a violated row, false in it unless the row has no false literal; outside the random walk no false literal of the row is better by score and time stamp |
| `LocalSearch.CardSATLS.PickVar` | src/LocalSearch/cardsat.cpp:192-233 | positive score if the good stack has members, and the best member in the greedy branch; else the weights have grown and it is a literal of a violated row |
| `Swap.SampleCount` | src/LocalSearch/heuristic.cpp:10-12 | at most half the row, rounded up, and at most the cap, with one of the two attained |
| `Swap.ProbesDistinct` | src/LocalSearch/heuristic.cpp:312-365 | either stride probes pairwise different positions |
| `Swap.SwapKeepsRow` | src/LocalSearch/heuristic.cpp:312-365 | exchanging a true and a false literal keeps the row's count and its place on the stack of satisfied cardinality rows |
| `LocalSearch.CardSATLS.Consider` | src/LocalSearch/heuristic.cpp:335-347 | a probe replaces the best candidate of its side only by a better one |
| `LocalSearch.CardSATLS.ProbeRow` | src/LocalSearch/heuristic.cpp:312-357 | of the probed literals the best true one and the best false one, 0 iff there is none |
| `LocalSearch.CardSATLS.SwapVars` | src/LocalSearch/heuristic.cpp:312-365 | the best true and the best false literal among the probes of a satisfied cardinality row are exchanged, and the row stays satisfied; nothing changes only if there is no such row or all probed literals are true or all false |
| `LocalSearch.CardSATLS.LocalSearchFlip` | src/LocalSearch/cardsat.cpp:39-72 | a run of turns, each from a state with a violated row and below the limits: a flip of a member of the good stack (the best one in the greedy branch), or with an empty stack weight increase and a flip out of a row violated before (the best one outside the random walk), or a swap; time stamps follow; 10 iff a model is reached before the last step, else a limit is reached; the turns are moves, so `Moves.RunKeepsState` applies |
| `Turns.RunPlayed` | src/LocalSearch/cardsat.cpp:39-72 | any such run of turns is a run of flips and weight increases from the same state to the same state |
| `Turns.GoodTurnLowers` | src/LocalSearch/cardsat.cpp:39-72 | a turn with good variables flips one of positive score and lowers the violation by it |
| `Turns.RunMore` | src/LocalSearch/cardsat.cpp:62-68 | the counter of steps without improvement is the number of turns since the fewest violated rows went down |
| `LocalSearch.CardSATLS.InitAssignment` | src/LocalSearch/init.cpp:8-80 | all false, all true, or false for the variables flipped late in the try before, as the mode says; time stamps are zero again |
| `LocalSearch.CardSATLS.Solve` | src/LocalSearch/cardsat.cpp:20-37 | 10 iff the final assignment satisfies every row; the tries are complete runs, each started with weights one from where the one before has ended, and 0 only after as many tries as allowed |
| `Neighbors.ParseInstance` | src/LocalSearch/reader.cpp:7-53 | occurrence lists are sorted by row and complete |
| `Neighbors.BuildNeighborRelation` | src/LocalSearch/reader.cpp:55-115 | true with exactly the row-sharing variables if they fit into the budget, else false because they do not; flags are zero again |
| `CardinalityEncoding.Encoder.TotalizerMidVariables` | lib/ccdcl/src/cardinality_encoding.cpp:148-157 | min(left + right, bound + 1) consecutive fresh variables |
| `CardinalityEncoding.Encoder.TotalizerBranchClauses` | lib/ccdcl/src/cardinality_encoding.cpp:113-146 | the emitted clauses hold iff the branch conditions hold |
| `CardinalityEncoding.BranchNode` | lib/ccdcl/src/cardinality_encoding.cpp:113-146 | a joined node has min(leaves, bound + 1) literals forced by the counts below it and bounds the leaves |
| `CardinalityEncoding.BranchSatisfiable` | lib/ccdcl/src/cardinality_encoding.cpp:113-146 | reading each node literal as its count satisfies the clauses whenever the bound is kept |
| `CardinalityEncoding.Join` | lib/ccdcl/src/cardinality_encoding.cpp:178-239 | joining two neighbours of the queue keeps the forest invariant |
| `CardinalityEncoding.Encoder.TotalizerFullEncoding` | lib/ccdcl/src/cardinality_encoding.cpp:178-239 | the emitted clauses extend an assignment iff at most `bound` of the literals are true; they use up the fresh variables: none beyond the returned one, and the last one occurs |
| `SplitEncoding.BaseCases` | lib/ccdcl/src/cardinality_encoding.cpp:43-103 | the clauses for three and four literals say that at most one is false |
| `SplitEncoding.LinkEncodes` | lib/ccdcl/src/cardinality_encoding.cpp:43-103 | three literals and the link variable reduce the encoding to a shorter one |
| `SplitEncoding.LinkDefined` | lib/ccdcl/src/cardinality_encoding.cpp:43-103 | the same holds with the clause that defines the link variable, which only the proof gets |
| `CardinalityEncoding.Encoder.SplitFullEncoding` | lib/ccdcl/src/cardinality_encoding.cpp:43-103 | exactly at most one false literal, with 3n - 6 clauses and (n + 1) / 2 - 2 fresh variables; the proof clauses contain them and say the same |
| `CardinalityEncoding.CountPermuted` | lib/ccdcl/src/cardinality_encoding.cpp:256-365 | the order of the literals does not matter |
| `CardinalityEncoding.EncodedRow` | lib/ccdcl/src/cardinality_encoding.cpp:256-365 | what either encoding says of the reordered literals is the row |
| `CardinalityEncoding.Encoder.EncodeCardinalityConstraint` | lib/ccdcl/src/cardinality_encoding.cpp:256-365 | the clauses emitted for a row extend an assignment iff it satisfies the row; the new maximum is the last variable that occurs in them, or the old one; the proof clauses say the same |
| `Clauses.FreshConcat` | lib/ccdcl/src/cardinality_encoding.cpp:348-349 | encodings with fresh variables of their own do not interfere: together they extend an assignment iff the first extends it and it satisfies the second row |
| `CardinalityEncoding.Encoder.EncodeAll` | lib/ccdcl/src/internal.cpp:232-237 | encoding row after row: all clauses together extend an assignment of the old variables iff it satisfies every row encoded; those rows are garbage then |
| `Extension.LastEntry` | lib/ccdcl/src/extend.cpp:65-80 | where the parts of the last entry lie in the flat vector |
| `Extension.External.PushClause` | lib/ccdcl/src/extend.cpp:38-50 | pushes the clause with its pivot as only witness |
| `Extension.External.PushClauseAndWitness` | lib/ccdcl/src/extend.cpp:65-80 | pushes the clause with a whole witness |
| `Extension.External.Extend` | lib/ccdcl/src/extend.cpp:94-157 | the flat backward walk is the fold over the entries from last to first |
| `ElimRepair.EliminationRepaired` | lib/ccdcl/src/elim.cpp:490-536 | positive parents pushed before negative ones: every model of the resolvents is repaired to all parents, whatever the pivot's value, changing only the pivot |
| `ElimRepair.GateRepaired` | lib/ccdcl/src/elim.cpp:490-536 | if the gate clauses define the pivot, resolving gate clauses with the others and pushing only gate clauses is enough |
| `ElimRepair.MarkEliminatedClausesAsGarbage` | lib/ccdcl/src/elim.cpp:490-536 | pushes entries with that property for the parents that are not garbage, or only for the gate clauses if a gate defines the pivot, and marks all as garbage |
| `ElimRepair.ResolveClauses` | lib/ccdcl/src/elim.cpp:232-365 | for every model agreeing with the root values each outcome (tautology, empty, unit, resolvent) says what the two parents say without the pivot; a resolvent within a parent strengthens that parent; marks are clear again |
| `GlobalBlocking.GloballyBlocked` | lib/ccdcl/src/condition.cpp:724-764 | at the fixpoint every model of the other clauses stays one, and satisfies the candidate, after the autarky is made true whenever it falsifies the candidate |
| `GlobalBlocking.RestoresMore` | lib/ccdcl/src/condition.cpp:724-764 | pushing the candidate with the autarky keeps the promise of all entries pushed before |
| `Conditioning.FixpointBlocks` | lib/ccdcl/src/condition.cpp:496-675 | everything processed and an autarky literal left means that the candidate is globally blocked |
| `Conditioning.AutarkyBlocks` | lib/ccdcl/src/condition.cpp:496-675 | the autarky left at the fixpoint is a set of true literals that blocks the candidate |
| `Conditioning.NothingBlocks` | lib/ccdcl/src/condition.cpp:496-675 | if the candidate has no autarky literal left, no set of true literals whatever blocks it: the autarky is the largest such set |
| `Condition.Conditioner.ScanClauses` | lib/ccdcl/src/condition.cpp:262-367 | clauses satisfied at the root go out of use; the candidates are exactly the others with a true literal; each clause is watched by a true literal or has its false literals made conditional |
| `Condition.Conditioner.ProcessUnassigned` | lib/ccdcl/src/condition.cpp:496-675 | each clause of the list finds another true literal or makes its false autarky literals conditional |
| `Condition.Conditioner.Refine` | lib/ccdcl/src/condition.cpp:496-675 | ends below the limit only at the fixpoint, or with no autarky literal of the candidate left; counts one propagation for each literal it unassigns |
| `Condition.Conditioner.Restore` | lib/ccdcl/src/condition.cpp:770-797 | assignment, conditional marks and stacks are back where they were |
| `Condition.Conditioner.TryCandidate` | lib/ccdcl/src/condition.cpp:455-800 | below the limit, blocked iff some set of true literals blocks the candidate; then it is pushed and leaves, and models of what remains unwind to models of all; the state is restored either way |
| `Condition.Conditioner.ConditionRound` | lib/ccdcl/src/condition.cpp:150-856 | every model of what is left, agreeing with the root level, unwinds to a model of all clauses that were in use; below the limit exactly those of the tried clauses leave that some set of true literals blocks, and if no end was asked for, the same holds of all candidates that are no reasons; each candidate costs at most one propagation per variable |
| `Condition.NothingToBlock` | lib/ccdcl/src/condition.cpp:458-460 | once all true literals are conditional, nothing blocks any candidate, so stopping loses nothing |
| `Watches.QuietIsComplete` | lib/ccdcl/src/checker.cpp:364-413 | at the end of propagation no live clause is false or has one literal left |
| `Watches.UnitForced` | lib/ccdcl/src/checker.cpp:364-413 | a literal left alone in an implied clause follows from the formula and the assumptions |
| `Watches.Pigeons` | lib/ccdcl/src/checker.cpp:364-413 | the trail has no more literals than there are variables, so propagation ends |
| `Checker.Checker.Propagate` | lib/ccdcl/src/checker.cpp:364-413 | true at a fixpoint that keeps all watch invariants, false only if the assumptions are refuted |
| `Checker.Checker.Backtrack` | lib/ccdcl/src/checker.cpp:342-357 | the trail is the old prefix and every watch invariant holds again, with the blocking literals left as they are |
| `Checker.Checker.Check` | lib/ccdcl/src/checker.cpp:415-424 | true only if the clause is implied; false leaves an assignment against it under which no live clause is false or unit |
| `Checker.Checker.Tautological` | lib/ccdcl/src/checker.cpp:252-267 | a clash or a true literal, else the clause without repeats and without true literals |
| `Checker.Checker.Insert` | lib/ccdcl/src/checker.cpp:37-68 | two unassigned literals come first and are watched; the store gains a permutation of the clause |
| `Checker.Checker.AddOriginalClause` | lib/ccdcl/src/checker.cpp:459-472 | the formula gains the clause; it is stored anew, satisfied at the root, a tautology, or the formula is inconsistent; the root trail only grows, no stored clause is lost, and all that was known still is |
| `Checker.Checker.AddDerivedClause` | lib/ccdcl/src/checker.cpp:474-494 | accepted clauses are implied by the original clauses and stored or known without; rejected ones leave everything in place and a fixpoint against them; the root trail only grows and all that was known still is |
| `Checker.MoreCopies` | lib/ccdcl/src/checker.cpp:428-494 | adding a clause gives it one more live copy, unless it is known without, and takes none from others |
| `Checker.Checker.CheckProof` | lib/ccdcl/src/proof.cpp:165-184 | over any sequence of additions and deletions up to the first that fails: derived clauses follow from the original ones before them; of every clause, counted from any step on, as many live copies are there as were added and not deleted, unless it is known without; a failing step is a derived clause at which propagation is stuck or a deletion of a clause that is not there |
| `Checker.AddedIsRecorded` | lib/ccdcl/src/checker.cpp:428-531 | a clause that was added and not deleted since is known to the checker |
| `Checker.Checker.Find` | lib/ccdcl/src/checker.cpp:295-314 | a live clause with exactly these literals, or there is none |
| `Checker.FoundMeans` | lib/ccdcl/src/checker.cpp:295-314 | comparing sizes and marks finds the clauses with the same literals as the given one |
| `Checker.Checker.DeleteClause` | lib/ccdcl/src/checker.cpp:498-531 | true iff there is nothing to delete or a live clause has exactly these literals; that clause becomes garbage, and besides it only satisfied ones; of every clause as many copies stay as there were, of this one at most one less |
| `Checker.Checker.CollectGarbageClauses` | lib/ccdcl/src/checker.cpp:116-157 | exactly the clauses satisfied at the root become garbage too; garbage leaves all lists; all invariants hold |
| `Cliques.PairwiseIsCount` | src/PreProcess/card.cpp:107-140 | the pairwise clauses on n literals say that at least n - 1 are true |
| `Cliques.CliqueMeaning` | src/PreProcess/card.cpp:107-140 | the rows of a clique, duplicates included, say what its cardinality row says |
| `Card.VerifyClique` | src/PreProcess/card.cpp:45-87 | accepts exactly the cliques |
| `Card.IsPureTriangle` | src/PreProcess/card.cpp:89-99 | accepts exactly the triangles without duplicates |
| `Card.BuildEdges` | src/PreProcess/card.cpp:148-192 | each clause on two variables stands for its edge or is among its duplicates, and the neighbours of a vertex are exactly the other ends of its edges |
| `Card.GrownClique` | src/PreProcess/card.cpp:203-268 | what the greedy loop has grown is a clique that uses each row once |
| `Card.EraseShrinks` | src/PreProcess/card.cpp:203-268 | erasing the used edges leaves fewer, so the endless loops end |
| `Card.AffordsGrowth` | src/PreProcess/card.cpp:203-268 | each growth takes an edge away or is the last of its start vertex, so probes made and edges left stay within a total |
| `Triangles.LoneEdge` | src/PreProcess/card.cpp:203-268 | an edge that the growth has rejected with every neighbour lies in no triangle, so nothing is lost by erasing it |
| `Triangles.AllPaid` | src/PreProcess/card.cpp:203-268 | when all vertices have been started from, every triangle has an edge among those used |
| `Card.SearchAlmostOne` | src/PreProcess/card.cpp:144-271 | all planned cliques pass the verification and no row is used twice; if the search ends, every triangle of clauses has an edge in a planned clique; it ends whenever the limit is at least (n + 2v) * n * (n + 1) for n rows and v variables |
| `Card.CommitRows` | src/PreProcess/card.cpp:107-140 | kept rows in order, then the new rows, in the old space |
| `Card.ReplaceCliques` | src/PreProcess/card.cpp:297-322 | all cliques are replaced or nothing is, and nothing stops it for cliques as the search plans them |
| `Card.ReplacedModels` | src/PreProcess/card.cpp:297-322 | the replaced rows have the same models |
| `Card.PreprocessCard` | src/PreProcess/card.cpp:275-330 | the pass keeps the models exactly; if it replaces, all planned cliques are triangles, all are replaced, and no triangle of clauses is disjoint from them; the rows stay only if a size limit is exceeded, the probes cannot suffice, there is no triangle of clauses, or a planned clique is not a pure triangle |

## Left out

- Reading and writing files, options, printing, timing, statistics, signals.
- C arrays and vectors are sequence fields of classes, hash maps are maps, and rows are numbered from 0; allocation and release of memory are not part of this model.
- Integers are unbounded: overflow of scores, weights and counters is not modelled.
- Random numbers are arbitrary values, so every statement holds for all of them; the probability thresholds are left out. Termination requests are an input.
- Weights grow by one; their smoothing (floating point), the running average and the total weight, which nothing else reads, are left out, and so are the best-solution and step statistics.
- Repeated literals of an input row count once, as the scan of unit propagation reads them.
- `UnitPropagation.Propagator.Run`: failure is one-sided, because propagation does not decide satisfiability.
- `ResolutionPass.Resolver.Run`: failure is one-sided for the same reason.
- `BinaryPass.Binary.Run`: failure is one-sided for the same reason, and nothing is promised about patterns left when the limits stop the turns.
- `Preprocess.Preprocessor.DoPreprocess`: 20 is one-sided for the same reason.
- `Solver.Run`: the conflict-driven mode is left out, and without preprocessing the rows have each variable at most once and a literal at least, as the search itself needs for its counts.
- `BinaryPass.Binary.PerformActions`: the actions come in any order instead of the sorted one; what the union-find represents does not depend on it.
- `Card.PreprocessCard`: stands alone, because the pipeline has it commented out; it is not stated that no planned clique could be larger.
- `LocalSearch.CardSATLS.LocalSearchFlip`: 0 promises nothing about satisfiability, as the search is incomplete.
- `LocalSearch.CardSATLS.SwapVars`: which row is taken and where the probes start is arbitrary.
- `LocalSearch.CardSATLS.PickVar`: in the sampled branch any member of the good stack may come out, as the samples may all be that one.
- `LocalSearch.CardSATLS.InitAssignment`: the random mode is an arbitrary assignment.
- `Extension.External.Extend`: the numbering of the inner solver and the walk over witnesses for other readers are left out; the scratch value vectors are the assignment itself.
- `ElimRepair.ResolveClauses`: assigning and propagating a learned unit, shrinking the strengthened parent in place, and skipping garbage parents are left out.
- `ElimRepair.MarkEliminatedClausesAsGarbage`: finding gates is left out; that the gate clauses define the pivot is the premise under which the gate case is proved.
- `Condition.Conditioner.ConditionRound`: the assignment in force is given; the preference for candidates not tried last time is left out, so which candidates are reached before the limit may differ.
- `Checker.Checker.Find`: a search through the store instead of the hash table; garbage stays in the store but is never found or watched again.
- `Checker.Checker.CollectGarbageClauses`: the threshold at which deletion calls it is arbitrary.
- `CardinalityEncoding.Encoder.EncodeCardinalityConstraint`: the sorting of the literals is any permutation; how many fresh variables the totalizer takes is stated by what occurs in its clauses, not as a formula; writing the proof to a file is left out, and so is the mode that only derives.
