# A verified model of the solver, the learner and the rule search

This project models four components of the repository in Dafny 4.11 and proves what they are for.

* **The CDCL solver** (`external/satsolvers/minisat`). The class `SatSolver.Solver` follows the
  methods of the C++ class: two watched literals with blockers, first-UIP analysis, recursive
  clause minimisation, backjumping, assumptions, lazy detaching, clause reduction and copying
  garbage collection. The ghost field `added` is the set of every clause ever added, and `Valid`
  says that facts of level 0 and problem clauses are equivalent to it, or that it is
  contradictory. Activities are real numbers; random draws, budgets and clock-like counters are
  arbitrary values. The values the invariants speak of (`TrailState`, clause memory, watch lists)
  are in the `Sat...` modules, with one small lemma per step and invariant. Beyond what the source
  claims, a search is shown to end: read as the digits of a number, the free room on the decision
  levels falls with every decision and every backjump, which bounds the conflicts of a search, and
  the restart limits, taken as unbounded integers, grow past that bound. A True answer assigns all
  decision variables so that every clause has a true literal or two unassigned ones; it comes with
  a model of all clauses in every run if and only if no more than one variable is not a decision
  variable (such variables are made in `learning/cdnf/minisat_stubs.cc`, lines 76-80). Conflict
  analysis is described by paths of reasons: which point it stops at, which literals minimisation
  drops and what is bumped.
* **The learner of boolean functions** (`external/cdnfcore/cdnf.c`, `cdnfformula.c`). The teacher
  is a function of the time of the question, so it may answer anything; what holds for any teacher
  and what holds for a consistent one are stated separately. Walking stops in a local minimum; for a
  consistent teacher each support is charged to a term and each basis to a clause of the target,
  and for any teacher supports and points are told apart, so that learning over a fixed number of
  variables always ends.
* **The translation to conjunctive normal form** (`external/cdnfcore/boolformula.c`), as a builder
  that appends and fills in clauses, with a specification function and both directions of its
  correctness; and negation and copying of formulas whose nodes may be shared.
* **The rule search** (`external/gpa-5/src/gpa.c`): the branch and bound finds what exhaustive
  search would find, and the rule loop ends.

Where the comments and the code differ, the code is followed: `analyzeFinal` is described as giving
a possibly empty set, but its result always contains the given literal; with phase-saving mode 1
the decision literal of the last level is not saved. The ranges that the option declarations
enforce on decay factors and restart parameters are preconditions or part of `Valid`. The limit on
conflicts that `search` takes is the integer part of a real number here. The rule search assumes at
least one class, as its count arrays do.

Files: `Basics` and `SetSizes` hold what several modules use, the `Sat...` files values and
step lemmas, `ClauseAllocator`, `OccLists`, `OrderHeap`, `Sort` and `Luby` the data structures,
`Solver` the class and `SolverRuns` whole runs;
`BoolFormulas`, `CnfTranslation` and `FormulaNodes` the formulas; `BitVectors`, `CdnfFormulas`,
`CdnfTheory` and `CdnfLearner` the learner; `GpaData`, `GpaSearch` and `GpaRules` the rule search.
`hide` statements keep the bodies of large invariants out of proofs that only pass them on.

## Model

| member | source | states |
|---|---|---|
| SolverRuns.Run | external/satsolvers/minisat/core/Solver.cc:114-793 | any sequence of new variables, clauses, simplifications, budget changes and solve calls: every answer is right for the clauses added up to then, dropped or shortened ones included, and undecided only while a budget is set; after a plain run (consistent unit clauses first, then clauses with two open literals) that fixes all decision variables, solving without assumptions never answers False |
| SatSolver.Solver.Solve | external/satsolvers/minisat/core/Solver.cc:751-793 | True comes with an assignment of all decision variables in which all assumptions are true and every clause ever added is a tautology, has a true literal or has two unassigned literals of different variables, so that it is a model if no more than one variable is not a decision variable; False without a conflict clause means those clauses have no model and `ok` is cleared; False with one means the clauses imply that clause of negated assumptions; Undef only when a budget is set and used up; with nothing to assume and nothing left to decide the answer is never False; the solver is valid at level 0 again |
| SatSolver.Solver.SolveLimited | external/satsolvers/minisat/core/Solver.h:357 | True gives an assignment as Solve does, for the given assumptions; False means no model of the added clauses satisfies all the assumptions; Undef only when a budget is set and used up |
| SatSolver.Solver.SolveUnlimited | external/satsolvers/minisat/core/Solver.h:343-356 | without a budget the answer is never undecided: true comes with an assignment as Solve gives, false means no model of the added clauses satisfies all assumptions |
| SatSolver.Solver.SearchWithRestarts | external/satsolvers/minisat/core/Solver.cc:774-781 | the restart loop terminates: the restart limit, an unbounded integer here and a 32-bit int in the source, outgrows the most conflicts one search can have; it is undecided only when a budget is set and used up |
| SatSolver.Solver.Search | external/satsolvers/minisat/core/Solver.cc:614-705 | the search terminates, whatever is learnt, reduced or collected meanwhile; it gives up for want of conflicts only if its limit is below (n + 2) to the power n + a + 1 for n variables and a assumptions; its answers mean what Solve says |
| SatSolver.Solver.SearchRound | external/satsolvers/minisat/core/Solver.cc:621-704 | one round of the loop answers, or uses up room and keeps the search invariant; it goes back some levels and counts one conflict, or goes on some levels and counts none, and then the limit on conflicts is not reached yet; with everything propagated at level 0, nothing to assume and nothing to decide it answers, and not False |
| SatSolver.Solver.SearchStep | external/satsolvers/minisat/core/Solver.cc:667-702 | a round without a conflict ends in an answer or lowers the measure of the search; it answers True when there is nothing to assume and nothing to decide |
| SatSolver.Solver.ConflictSearch | external/satsolvers/minisat/core/Solver.cc:623-642 | a conflict above level 0 keeps the search invariant and lowers the measure |
| SatSolver.Solver.PropagateSearch | external/satsolvers/minisat/core/Solver.cc:623-624 | propagation keeps the assumption levels and does not raise the measure |
| SatSolver.Solver.Housekeeping | external/satsolvers/minisat/core/Solver.cc:667-673 | simplification and reduction keep the search going with the same room and the same assignment; the answer False that the source foresees after simplification never occurs, as everything has been propagated |
| SatSolver.Solver.NextAssumption | external/satsolvers/minisat/core/Solver.cc:675-688 | takes a level for each assumption that holds; a false one yields an implied, non-empty clause of negated assumptions |
| SatSolver.Solver.Branch | external/satsolvers/minisat/core/Solver.cc:690-702 | finishes if and only if there is no assumption to take and no decision variable is unassigned, and then every assumption is true; otherwise it decides the assumption, or a decision variable with its saved sign, a most active one unless random choice is on, and lowers the measure |
| SatSolver.Solver.Restart | external/satsolvers/minisat/core/Solver.cc:658-664 | back at level 0 with everything there propagated |
| SatSolver.Solver.Undo | external/satsolvers/minisat/core/Solver.cc:784-793 | after an answer the solver is valid at level 0 again |
| SatSolver.Solver.RestartBase | external/satsolvers/minisat/core/Solver.cc:776 | the restart base is a power of the increment, with the Luby exponent or the number of restarts |
| SatSolver.Solver.LastRound | external/satsolvers/minisat/core/Solver.cc:774-779 | for any bound there is a round whose conflict limit, taken as an unbounded integer, reaches it |
| SatSolver.Solver.FinishedModel | external/satsolvers/minisat/core/Solver.cc:784-787 | when nothing is left to decide, the assignment is what a True answer promises |
| SatSearch.LiveWitnessed | external/satsolvers/minisat/core/Solver.cc:449-508 | after complete propagation a live clause has a true literal or two unassigned ones of different variables |
| SatSearch.CompleteWitness | external/satsolvers/minisat/core/Solver.cc:784-787 | and so has every clause ever added that is not a tautology, dropped and shortened ones included |
| SatSearch.WitnessedModel | external/satsolvers/minisat/core/Solver.cc:784-787 | such an assignment that leaves out one variable at most is a model, whatever value that variable gets |
| SatSearch.GoodModelSatisfies | external/satsolvers/minisat/core/Solver.cc:784-787 | a True answer is a model of the clauses and assumptions if no more than one variable is not a decision variable |
| SatSteps.CompleteImplies | external/satsolvers/minisat/core/Solver.cc:132-159 | what satisfies the facts of level 0 and the problem clauses satisfies every clause ever added |
| SatSteps.CompleteStays | external/satsolvers/minisat/core/Solver.cc:545-598 | clauses stay represented while facts stay and what leaves the list is true at level 0 |
| SatSearch.FailedAssumptions | external/satsolvers/minisat/core/Solver.cc:390-397 | no model of the clauses satisfies all assumptions of an explained failure |
| SolverRuns.UndecidedRun | external/satsolvers/minisat/core/Solver.cc:609-613 | for any decision flags with two variables that are not decision variables there is a run without a budget, with contradictory clauses, whose only right answer to solving without assumptions, by Run, is True: a True answer comes with a model in every run with these flags if and only if no more than one variable is not a decision variable |
| SolverRuns.TrackUnit | external/satsolvers/minisat/core/Solver.cc:132-159 | in a plain run a unit clause assigns its variable and nothing else: consistent units have models that differ on every other variable |
| SatSolver.Solver.AssignedImplied | external/satsolvers/minisat/core/Solver.cc:577-598 | between calls, what is assigned follows from the clauses added |
| SatMeasure.BackjumpMeasure | external/satsolvers/minisat/core/Solver.cc:629-636 | a backjump with its asserted literal lowers the measure of the search |
| SatMeasure.DecideMeasure | external/satsolvers/minisat/core/Solver.cc:700-702 | a decision lowers the measure |
| SatMeasure.OpenMeasure | external/satsolvers/minisat/core/Solver.cc:678-680 | an empty level for an assumption lowers the measure |
| SatMeasure.GrowMeasure | external/satsolvers/minisat/core/Solver.cc:449-508 | propagated literals do not raise the measure |
| SatMeasure.MeasureBound | external/satsolvers/minisat/core/Solver.cc:614-705 | the measure is below (n + 2) to the power n + a + 1 for n variables and a assumptions |
| SatSearch.BackjumpSearch | external/satsolvers/minisat/core/Solver.cc:629-636 | a backjump keeps the link between levels and assumptions |
| SatSearch.DecideSearch | external/satsolvers/minisat/core/Solver.cc:675-702 | a decision keeps it, when the next assumption goes first |
| SatSearch.DummySearch | external/satsolvers/minisat/core/Solver.cc:678-680 | an empty level for a true assumption keeps it |
| SatSolver.Solver.constructor | external/satsolvers/minisat/core/Solver.cc:49-95 | an empty solver is valid |
| SatSolver.Solver.NewVar | external/satsolvers/minisat/core/Solver.cc:114-129 | a new, unassigned variable; everything else, and the meaning of the database, stays |
| SatSolver.Solver.SetDecisionVar | external/satsolvers/minisat/core/Solver.h:331-338 | changing what may be decided keeps branching complete |
| SatSolver.Solver.AddClause | external/satsolvers/minisat/core/Solver.cc:132-159 | the clause joins the formula: afterwards facts and problem clauses are equivalent to all clauses added, or these are contradictory and false is returned; assignments stay, a clause of one literal assigns it, one with two open literals of different variables assigns nothing |
| SatSolver.Solver.FilterLits | external/satsolvers/minisat/core/Solver.cc:137-145 | sorting and filtering yields exactly the unassigned literals, each variable once, unless the clause holds a true literal or a complementary pair |
| SatSolver.Solver.AddUnit | external/satsolvers/minisat/core/Solver.cc:149-151 | one literal left becomes a fact and is propagated; it stays true and nothing older changes |
| SatSolver.Solver.AddProblemClause | external/satsolvers/minisat/core/Solver.cc:152-156 | two or more literals left become a watched problem clause |
| SatAdd.SuperfluousState | external/satsolvers/minisat/core/Solver.cc:139-141 | a satisfied or tautological clause may be dropped without changing what the database means |
| SatAdd.FilteredImplied | external/satsolvers/minisat/core/Solver.cc:142-144 | dropping literals that are false at level 0 keeps what the clause says |
| SatAdd.UnitState | external/satsolvers/minisat/core/Solver.cc:149-151 | a unit clause as a fact keeps the database equivalent to the grown formula |
| SatAdd.ClauseState | external/satsolvers/minisat/core/Solver.cc:152-156 | a filtered clause keeps the database equivalent to the grown formula and all search invariants |
| SatAdd.EmptyRefuted | external/satsolvers/minisat/core/Solver.cc:147-148 | when every literal is false at level 0 the clauses have no model |
| SatAdd.GrownState | external/satsolvers/minisat/core/Solver.cc:114-129 | a new variable keeps all invariants |
| SatSolver.Solver.AttachClause | external/satsolvers/minisat/core/Solver.cc:162-168 | the clause is watched at the negations of its first two literals, each with the other as blocker |
| SatSteps.AttachWatch | external/satsolvers/minisat/core/Solver.cc:162-168 | then every live clause is watched exactly there |
| SatSolver.Solver.RemoveClause | external/satsolvers/minisat/core/Solver.cc:171-195 | marks, frees and lazily detaches the clause and clears it as a reason |
| SatSteps.ReleasedReasons | external/satsolvers/minisat/core/Solver.cc:188-195 | no reason refers to a removed clause |
| SatSolver.Solver.CancelUntil | external/satsolvers/minisat/core/Solver.cc:207-218 | undoes exactly the levels above the given one, saves signs as the phase-saving mode asks, and keeps every unassigned decision variable in the heap |
| SatSteps.CancelProp | external/satsolvers/minisat/core/Solver.cc:207-218 | what was propagated below stays propagated |
| SatSteps.CancelReasons | external/satsolvers/minisat/core/Solver.cc:207-218 | the reasons of what remains are still reasons |
| SatSolver.Solver.PickBranchLit | external/satsolvers/minisat/core/Solver.cc:225-244 | a literal is found if and only if some decision variable is unassigned; it is of such a variable, a most active one unless random choice is on, with the saved sign |
| SatSolver.Solver.InsertVarOrder | external/satsolvers/minisat/core/Solver.h:280-281 | the heap gains the variable if it is a decision variable |
| SatSolver.Solver.VarBumpActivity | external/satsolvers/minisat/core/Solver.h:285-294 | the activity is bumped, all are scaled down together above the limit, and heap order and entries are kept; in units of the increment one activity grows by one and no other changes |
| SatSolver.Solver.ClaBumpActivity | external/satsolvers/minisat/core/Solver.h:297-302 | the clause activity is bumped; above the limit the activities of all learnt clauses, each listed once, and the increment are scaled down together; in units of the increment one activity grows by one |
| SatSolver.Solver.DecayActivities | external/satsolvers/minisat/core/Solver.h:283-296 | decay divides the increments by the decay factors, so that multiplying gives them back |
| SatSolver.Solver.UncheckedEnqueue | external/satsolvers/minisat/core/Solver.cc:429-435 | the new assignment stack, exactly |
| SatCore.EnqueueTrail | external/satsolvers/minisat/core/Solver.cc:429-435 | trail and assignment still describe each other and nothing older changes |
| SatSolver.Solver.Propagate | external/satsolvers/minisat/core/Solver.cc:449-508 | without a conflict no live clause is unit or false: each false watch sits in a clause true at no higher level; with one, some clause is falsified at the current level; new literals are forced by clauses and clauses keep their literals; with nothing queued nothing happens |
| SatSolver.Solver.PropagateLit | external/satsolvers/minisat/core/Solver.cc:455-503 | the same for one literal taken from the queue |
| SatSolver.Solver.VisitNext | external/satsolvers/minisat/core/Solver.cc:461-501 | one watcher: the invariant of the half-rewritten watch list is kept, or a conflict found |
| SatSolver.Solver.VisitClause | external/satsolvers/minisat/core/Solver.cc:476-498 | the four cases of a clause whose blocker is not true |
| SatSolver.Solver.NormalizeVisited | external/satsolvers/minisat/core/Solver.cc:467-474 | the false literal is moved to index 1 |
| SatSolver.Solver.FindWatch | external/satsolvers/minisat/core/Solver.cc:482-487 | the first literal from index 2 that is not false |
| SatSolver.Solver.CopyRest | external/satsolvers/minisat/core/Solver.cc:494-496 | after a conflict no watcher is lost |
| SatCore.MoveWatch | external/satsolvers/minisat/core/Solver.cc:482-487 | moving a watch keeps every clause watched exactly at its first two literals |
| SatPropagate.VisitUnit | external/satsolvers/minisat/core/Solver.cc:489-498 | enqueuing the unit literal keeps the invariants of the visit |
| SatPropagate.VisitEnd | external/satsolvers/minisat/core/Solver.cc:502 | when the list has been visited the literal is completely propagated |
| SatSteps.PropagateSound | external/satsolvers/minisat/core/Solver.cc:449-508 | propagation adds nothing that the clauses do not imply |
| SatSteps.PropagateComplete | external/satsolvers/minisat/core/Solver.cc:449-508 | and loses nothing of the formula |
| SatSolver.Solver.Analyze | external/satsolvers/minisat/core/Solver.cc:264-356 | an implied clause, false under the trail, with its only current-level literal first, a literal of the highest other level second and that level returned (0 if there is none); it consists of the falsified literals of the first unique implication point and of what is reached beside it, less exactly what minimisation drops; all marks are cleared |
| SatSolver.Solver.FirstUip | external/satsolvers/minisat/core/Solver.cc:274-302 | resolution ends at the first unique implication point seen from the conflict, and the marks are exactly the other variables that paths of reasons reach below it; the clause of all marked literals is implied; every variable on such a path and every learnt clause resolved on has been bumped exactly once, and no other |
| SatSolver.Solver.MarkClause | external/satsolvers/minisat/core/Solver.cc:281-292 | exactly the literals of the clause above level 0 are marked; pathC counts the marked current-level variables still ahead, the clause collects the others |
| SatSolver.Solver.NextSeen | external/satsolvers/minisat/core/Solver.cc:294-296 | the scan of the trail finds a marked literal before it leaves the current level |
| SatSolver.Solver.ResolveClause | external/satsolvers/minisat/core/Solver.cc:276-292 | one resolution step leaves something to count and a conflicting set of marks |
| SatSolver.Solver.ResolveNext | external/satsolvers/minisat/core/Solver.cc:274-297 | one round of the loop: what paths of reasons reach below the next literal taken is marked, no unique implication point has been passed, and everything involved so far has been bumped once |
| SatActivity.BumpedStep | external/satsolvers/minisat/core/Solver.cc:281-285 | a round bumps exactly the variables that become involved, none of them a second time |
| SatActivity.ResolventsStep | external/satsolvers/minisat/core/Solver.cc:274-280 | each round resolves on a clause not resolved on before: the falsified clause or the reason of the literal taken |
| SatActivity.SkipResolvents | external/satsolvers/minisat/core/Solver.cc:294-297 | the scan of the trail changes nothing about the clauses resolved on |
| SatUip.FrontStep | external/satsolvers/minisat/core/Solver.cc:274-301 | what paths of reasons from the conflict reach below an index of the trail: what they reach below the next one, with the literal at the index replaced by the rest of its reason |
| SatUip.SkipFront | external/satsolvers/minisat/core/Solver.cc:294-296 | the scan to the next marked literal passes nothing reached and no unique implication point |
| SatUip.PointReached | external/satsolvers/minisat/core/Solver.cc:298-302 | when no other literal of the current level is reached this is the first unique implication point |
| SatLearn.ResolveStep | external/satsolvers/minisat/core/Solver.cc:274-301 | replacing a literal by the rest of its reason keeps the set of marks contradictory |
| SatLearn.HasReason | external/satsolvers/minisat/core/Solver.cc:275 | while something else is counted the literal taken has a reason |
| SatLearn.Level0Implied | external/satsolvers/minisat/core/Solver.cc:284-292 | literals of level 0 may be left out: they are implied |
| SatSolver.Solver.LitRedundant | external/satsolvers/minisat/core/Solver.cc:361-387 | a literal is redundant if and only if no chain of reasons through unmarked variables above level 0 leads from it to a decision or to a level that no literal of the clause has, modulo 32; then exactly the variables on such chains are marked, and otherwise the marks are as before |
| SatSolver.Solver.ExpandReason | external/satsolvers/minisat/core/Solver.cc:366-383 | one reason is expanded and what it leads to is marked; the attempt fails only if a chain of reasons leads to where the search must give up |
| SatSolver.Solver.Rollback | external/satsolvers/minisat/core/Solver.cc:377-379 | exactly the marks made since top are cleared |
| SatSolver.Solver.ReasonMarked | external/satsolvers/minisat/core/Solver.cc:324-328 | mode 1: whether the reason has only marked literals and facts |
| SatSolver.Solver.Minimize | external/satsolvers/minisat/core/Solver.cc:304-336 | what is left of the clause is still implied and starts with the asserting literal; in mode 2 exactly the redundant literals are dropped, judged by the marks of the clause alone and by the levels of its literals modulo 32, in mode 1 those whose reason has only marked literals and facts, in other modes none |
| SatRedundancy.ExploredAll | external/satsolvers/minisat/core/Solver.cc:361-387 | a search for redundancy that ends has marked exactly what chains of reasons reach, and nothing it must give up at |
| SatRedundancy.MarksIrrelevant | external/satsolvers/minisat/core/Solver.cc:304-336 | marks left by successful searches do not change which literals are redundant |
| SatRedundancy.StillClean | external/satsolvers/minisat/core/Solver.cc:304-336 | the marks of one more successful search are such marks |
| SatRedundancy.AbstractsMore | external/satsolvers/minisat/core/Solver.h:320 | the bits of the abstraction are exactly the residues of the levels |
| SatLearn.MinimizedImplied | external/satsolvers/minisat/core/Solver.cc:304-336 | dropped literals are implied false by the kept ones: justifications go strictly down the trail |
| SatSolver.Solver.BacktrackLevel | external/satsolvers/minisat/core/Solver.cc:338-353 | the first literal of the highest remaining level changes places with that at index 1 |
| SatSolver.Solver.ClearSeen | external/satsolvers/minisat/core/Solver.cc:355 | all marks are cleared |
| SatMinimize.AssertingFacts | external/satsolvers/minisat/core/Solver.cc:629-642 | after backtracking the clause is ready: first literal unassigned, the others false, the second at the current level |
| SatSolver.Solver.AnalyzeFinal | external/satsolvers/minisat/core/Solver.cc:399-426 | the explanation is implied by the clauses alone and contains only negated assumptions; it consists of the failed literal and the negations of exactly the decisions from which reasons lead to it, and at level 0 of that literal alone |
| SatFinal.EndFinal | external/satsolvers/minisat/core/Solver.cc:399-426 | below the first decision nothing unexplained is marked |
| SatFinal.ReasonFront | external/satsolvers/minisat/core/Solver.cc:411-422 | replacing a forced literal by the rest of its reason keeps the marks on exactly what reasons reach below it |
| SatSolver.Solver.ResolveConflict | external/satsolvers/minisat/core/Solver.cc:623-642 | analyse, backtrack, learn, assert: the clause is that of the first unique implication point, minimised; unless it is a fact it joins memory and list as a learnt clause; the new state is the backtracked one with the asserted literal; in units of the increments before decay, exactly the variables and learnt clauses involved have become more active, by one each, and the new clause has activity one |
| SatSolver.Solver.Learn | external/satsolvers/minisat/core/Solver.cc:634-640 | stores, lists, watches and asserts the learnt clause; all invariants hold |
| SatDatabase.LearnState | external/satsolvers/minisat/core/Solver.cc:634-640 | learning at the asserting level keeps propagation below complete and the database equivalent to the formula |
| SatSolver.Solver.Simplify | external/satsolvers/minisat/core/Solver.cc:577-598 | the database stays equivalent to the clauses and the assignment is the same; the result is false only if the clauses were known to be contradictory before |
| SatSolver.Solver.RemoveSatisfied | external/satsolvers/minisat/core/Solver.cc:545-556 | what is left of the list is exactly its unsatisfied clauses, in order |
| SatSolver.Solver.SimplifyDb | external/satsolvers/minisat/core/Solver.cc:588-592 | the learnt clauses listed afterwards are the unsatisfied ones of before, and so are the problem clauses if satisfied ones are to be removed, even when garbage collection renames them; no satisfied clause is listed any more; the heap holds exactly the unassigned decision variables |
| SatReduce.UnsatisfiedAre | external/satsolvers/minisat/core/Solver.cc:545-556 | a listed clause is left if and only if it is not satisfied |
| SatSolver.Solver.RebuildOrderHeap | external/satsolvers/minisat/core/Solver.cc:559-566 | the heap holds exactly the unassigned decision variables |
| SatDatabase.RemoveProblem | external/satsolvers/minisat/core/Solver.cc:545-556 | removing a satisfied problem clause keeps the equivalence with the formula |
| SatSolver.Solver.ReduceLearnts | external/satsolvers/minisat/core/Solver.cc:525-542 | binary clauses and reasons stay; of the others, whatever is dropped is among the first half of the sorted list or less active than the increment divided by the number of learnt clauses, whatever stays is in the second half and at least that active, and nothing dropped is more active than what stays; the trail is untouched |
| SatSolver.Solver.ReduceDB | external/satsolvers/minisat/core/Solver.cc:525-543 | the same of the clauses listed after garbage collection, whatever references denote them; reduction changes nothing the search relies on |
| SatReduce.SurvivorsKeep | external/satsolvers/minisat/core/Solver.cc:532-539 | binary clauses and reasons survive |
| SatReduce.SurvivorsReduced | external/satsolvers/minisat/core/Solver.cc:525-539 | what the loop keeps of a sorted list, in terms of position, activity, size and locks alone |
| SatReduce.ReduceWeak | external/satsolvers/minisat/core/Solver.cc:519-524 | the comparison is a strict weak order on clauses of two literals or more |
| SatReduce.ReduceWeakExactly | external/satsolvers/minisat/core/Solver.cc:519-524 | with clauses of any size the comparison is a strict weak order if and only if no long clause meets a unit clause that is no more active while some clause is binary or more active than the long one |
| SatReduce.PermutedRefs | external/satsolvers/minisat/core/Solver.cc:530 | sorting the list keeps it a list of the same clauses |
| SatSolver.Solver.GarbageCollect | external/satsolvers/minisat/core/Solver.cc:912-923 | every watcher, reason and list entry denotes the same clause as before, one to one; the size shrinks by the waste, and nothing is wasted |
| SatSolver.Solver.RelocAll | external/satsolvers/minisat/core/Solver.cc:876-909 | all references are renamed by one bijection from the live clauses |
| SatSolver.Solver.RelocWatches | external/satsolvers/minisat/core/Solver.cc:878-890 | the watch lists lead to every live clause |
| SatSolver.Solver.RelocReasons | external/satsolvers/minisat/core/Solver.cc:892-899 | every reason is renamed, none is lost |
| SatSolver.Solver.CheckGarbage | external/satsolvers/minisat/core/Solver.h:304-307 | garbage is collected if and only if the waste exceeds the fraction of the region allowed, and afterwards it does not; the invariants and the clauses listed stay |
| SatReloc.MoveState | external/satsolvers/minisat/core/Solver.cc:876-923 | all invariants of the solver survive a copying collection |
| SatReloc.LiveWords | external/satsolvers/minisat/mtl/Alloc.h:56-60 | size minus waste is the number of words of live clauses |
| ClauseAllocators.ClauseAllocator.Alloc | external/satsolvers/minisat/core/SolverTypes.h:208-219 | a new clause at the end of the region, in no other clause's place |
| ClauseAllocators.ClauseAllocator.Free | external/satsolvers/minisat/core/SolverTypes.h:228-232 | only the waste grows, by the words of the clause |
| ClauseAllocators.ClauseAllocator.Reloc | external/satsolvers/minisat/core/SolverTypes.h:234-248 | moves a clause once, with its extra fields, and afterwards forwards to it |
| ClauseAllocators.ClauseAllocator.MoveTo | external/satsolvers/minisat/mtl/Alloc.h:71-80 | the region is handed over whole, and the old one is empty |
| OccurrenceLists.OccLists.Smudge | external/satsolvers/minisat/core/SolverTypes.h:273-278 | a dirty list is on the list of dirty ones |
| OccurrenceLists.OccLists.Clean | external/satsolvers/minisat/core/SolverTypes.h:299-309 | compaction keeps the live watchers in order |
| OccurrenceLists.OccLists.CleanAll | external/satsolvers/minisat/core/SolverTypes.h:288-296 | no list is dirty afterwards |
| OccurrenceLists.CleanWatch | external/satsolvers/minisat/core/SolverTypes.h:266-309 | after cleaning no watcher of a freed clause survives and no other one is lost |
| OrderHeaps.OrderHeap.PercolateUp | external/satsolvers/minisat/mtl/Heap.h:44-57 | repairs an entry that is too far down; same entries |
| OrderHeaps.OrderHeap.PercolateDown | external/satsolvers/minisat/mtl/Heap.h:60-72 | repairs an entry that is too far up; same entries |
| OrderHeaps.OrderHeap.Insert | external/satsolvers/minisat/mtl/Heap.h:99-107 | the entry joins; heap and positions stay inverse |
| OrderHeaps.OrderHeap.RemoveMin | external/satsolvers/minisat/mtl/Heap.h:110-119 | a most active entry leaves |
| OrderHeaps.OrderHeap.Build | external/satsolvers/minisat/mtl/Heap.h:122-134 | the heap of exactly the given entries |
| OrderHeaps.OrderHeap.Decrease | external/satsolvers/minisat/mtl/Heap.h:84 | order is restored after an activity has grown |
| OrderHeaps.RootFirst | external/satsolvers/minisat/mtl/Heap.h:110-119 | the root of a heap is a most active entry |
| Sorting.SelectionSort | external/satsolvers/minisat/mtl/Sort.h:38-52 | a sorted permutation for any strict weak order |
| Sorting.Partition | external/satsolvers/minisat/mtl/Sort.h:62-75 | the sentinel scans stay in range, the split index lies strictly inside, nothing before it is above the pivot and nothing from it on below |
| Sorting.Sort | external/satsolvers/minisat/mtl/Sort.h:56-80 | a sorted permutation for any strict weak order, and the recursion ends |
| LubySequence.Luby | external/satsolvers/minisat/core/Solver.cc:734-748 | the power whose exponent is that of the recursive Luby sequence at x |
| LubySequence.BlockExponent | external/satsolvers/minisat/core/Solver.cc:722-732 | the finite subsequences agree: the exponent at x does not depend on the subsequence it is read from |
| LubySequence.PowUnbounded | external/satsolvers/minisat/core/Solver.cc:776 | powers of an increment above 1 exceed every bound |
| BoolFormulas.NumOfVar | external/cdnfcore/boolformula.c:300-317 | the largest variable that occurs, 0 if there is none |
| CnfTranslation.CnfBuilder.AddClauses | external/cdnfcore/boolformula.c:161-213 | appends exactly the clauses of the node and advances the counter by the number of its inner nodes |
| CnfTranslation.CnfBuilder.AddConjunction | external/cdnfcore/boolformula.c:166-183 | the conjunction case, clause by clause |
| CnfTranslation.CnfBuilder.AddDisjunctionNode | external/cdnfcore/boolformula.c:184-205 | the disjunction case: the clause is added first and filled in while the children append theirs |
| CnfTranslation.ToCnf | external/cdnfcore/boolformula.c:216-238 | the loops compute the translation that the lemmas below speak of |
| CnfTranslation.CnfSound | external/cdnfcore/boolformula.c:216-238 | every assignment satisfying the translation satisfies the formula |
| CnfTranslation.CnfComplete | external/cdnfcore/boolformula.c:216-238 | if no fresh variable occurs in the formula, every assignment satisfying the formula extends, on the fresh variables alone, to one satisfying the translation |
| CnfTranslation.ClausesSound | external/cdnfcore/boolformula.c:161-213 | the clauses of a node force it wherever its variable is true |
| CnfTranslation.Extend | external/cdnfcore/boolformula.c:161-213 | any assignment extends so that all clauses hold and each fresh variable has the value of its node, if the fresh variables do not occur in the formula |
| CnfTranslation.CnfVariables | external/cdnfcore/boolformula.c:216-238 | the fresh variables are exactly num_var+1, ..., num_var+k for the k inner nodes |
| CnfTranslation.CnfShape | external/cdnfcore/boolformula.c:161-213 | the result is in conjunctive normal form |
| CnfTranslation.CnfCapture | external/cdnfcore/boolformula.c:216-238 | a formula in which a fresh variable occurs can be satisfiable while its translation is not |
| FormulaNodes.FormulaStore.Neg | external/cdnfcore/boolformula.c:133-156 | in-place negation flips a node once for every path that leads to it |
| FormulaNodes.NegIsDual | external/cdnfcore/boolformula.c:133-156 | the result is the De Morgan dual if and only if every node is reached by an odd number of paths |
| FormulaNodes.DualNegates | external/cdnfcore/boolformula.c:133-156 | the dual is the negation |
| FormulaNodes.SharedNotNegated | external/cdnfcore/boolformula.c:133-156 | what in-place negation leaves of a conjunction of a node with itself is not the dual, and has the value of the original in every world |
| FormulaNodes.FormulaStore.Copy | external/cdnfcore/boolformula.c:321-348 | the copy denotes the same tree, shares nothing with the original and nothing within itself |
| BitVectors.XorZeros | external/cdnfcore/bitvector.c:81-137 | the exclusive or is zero exactly for equal vectors |
| CdnfFormulas.MonomialMDnf | external/cdnfcore/cdnfformula.c:34-51 | the set variables, last first; never the empty monomial for a vector that is not zero |
| CdnfFormulas.EvalMonomial | external/cdnfcore/cdnfformula.c:174-189 | whether all literals hold |
| CdnfFormulas.EvalMDnf | external/cdnfcore/cdnfformula.c:191-202 | whether some monomial holds |
| CdnfFormulas.ComputeMOfXXorA | external/cdnfcore/cdnf.c:98-112 | literals are complemented where the point is set |
| CdnfFormulas.TermMeaning | external/cdnfcore/cdnf.c:140-144 | a term holds exactly where its support is agreed with in all positions that differ from the point |
| CdnfFormulas.CdnfToBoolFormula | external/cdnfcore/cdnfformula.c:230-239 | the formula built by the loops |
| CdnfFormulas.CdnfMeaning | external/cdnfcore/cdnfformula.c:230-239 | evaluates as the disjunctions do |
| CdnfLearner.Learner.Walk | external/cdnfcore/cdnf.c:32-51 | ends, for any oracle, between the start and the point, where every single flip towards the point has been refused, at the start or at a vector that was accepted, after no more than (d + 1) * n membership queries for n variables and distance d; for a deterministic oracle at a member where no single flip towards the point stays a member |
| CdnfLearner.Learner.GetIndicesToModify | external/cdnfcore/cdnf.c:82-96 | exactly the bases whose hypothesis the vector falsifies, in order |
| CdnfLearner.Learner.RebuildDisjunctions | external/cdnfcore/cdnf.c:114-152 | the hypotheses are the terms of the supports; no support equals its point |
| CdnfLearner.Learner.RefineBases | external/cdnfcore/cdnf.c:154-225 | one more bit for every point and support, as the oracles say at the times of one query each, one after the other; only a last basis without supports is dropped; what is asserted holds for any teacher |
| CdnfLearner.Learner.AddSupport | external/cdnfcore/cdnf.c:344-393 | a conflict exactly when the walk ends at the point; otherwise the new support and its term |
| CdnfLearner.Learner.FixBases | external/cdnfcore/cdnf.c:344-397 | every listed basis gets the end of its walk as a support until a walk ends at its point; then, and only then, the modes with a fixed number of variables fail and the others add one variable and refine all bases; supports of bases told apart are new; with a consistent teacher no walk ends at its point |
| CdnfLearner.Learner.Refute | external/cdnfcore/cdnf.c:309-398 | when no hypothesis is false a new basis is added, or in mode CDNF_Plus3, if the membership question asked in that mode only is answered yes, a variable; otherwise the bases are fixed; so with any teacher, unless a conflict is found, there is one more variable, basis or support, and points and supports stay told apart |
| CdnfLearner.Learner.LearnRound | external/cdnfcore/cdnf.c:289-398 | one equivalence question; then learning is over or there is one more variable, or one more basis or support, with any teacher in any mode |
| CdnfLearner.Learner.RefinedSeparated | external/cdnfcore/cdnf.c:154-225 | bases refined by one more bit are still told apart |
| CdnfLearner.Learner.LearnCore | external/cdnfcore/cdnf.c:258-402 | against any teacher, in every mode, no more equivalence queries are asked than the sum of 4^k + 1 for all numbers k of variables from the first to the last; in modes CDNF and CDNF_Plus these are equal and learning ends; in every mode a consistent teacher never leads to NULL, and t*s+t+1 equivalence queries are enough to learn a function with a CNF of t clauses and a DNF of s terms |
| CdnfLearner.Learner.Learn | external/cdnfcore/cdnf.c:405-420 | the same bound holds over all attempts, against any teacher in every mode; in mode CDNF_Plus, if the teacher is consistent over some N variables, not fewer than at the start, and whatever it answers before, the retries end with a formula over N variables or fewer; over N variables it is the target |
| CdnfTheory.TermImpliesClause | external/cdnfcore/cdnf.c:140-144 | the term of a member implies every clause that the point falsifies |
| CdnfTheory.LocalMinFromTerm | external/cdnfcore/cdnf.c:32-51 | a local minimum is the projection of the point on a term it satisfies |
| CdnfTheory.FromTermUnique | external/cdnfcore/cdnf.c:344-398 | such a projection is determined by the point and the term |
| CdnfTheory.NewBasis | external/cdnfcore/cdnf.c:312-335 | a new point falsifies a clause that no earlier point falsifies |
| CdnfTheory.NewSupport | external/cdnfcore/cdnf.c:357-393 | a new support lies outside the old hypothesis and belongs to a term of its own |
| CdnfTheory.SupportBound | external/cdnfcore/cdnf.c:344-398 | at most s supports per basis |
| CdnfTheory.BasisBound | external/cdnfcore/cdnf.c:289-402 | at most t bases |
| CdnfTheory.SizeBound | external/cdnfcore/cdnf.c:289-402 | bases and supports together stay below the query bound |
| CdnfTheory.FalseAtPoint | external/cdnfcore/cdnf.c:140-144 | the hypothesis of a basis does not hold at its own point |
| CdnfTheory.SeparatedPoint | external/cdnfcore/cdnf.c:312-335 | whatever the teacher answers, a point where all hypotheses hold is a new one |
| CdnfTheory.SeparatedSupport | external/cdnfcore/cdnf.c:344-393 | and a support found from outside a hypothesis is a new one of its basis |
| CdnfTheory.SeparatedBound | external/cdnfcore/cdnf.c:289-402 | so bases and supports together do not outnumber the pairs of assignments |
| GpaRules.RMatch | external/gpa-5/src/gpa.c:122-134 | whether the instance has every attribute of the rule |
| GpaSearch.BuildIndex | external/gpa-5/src/gpa.c:264-273 | the index lists exactly the instances of each attribute |
| GpaSearch.SearchContext.Intersect | external/gpa-5/src/gpa.c:355-368 | the instances of the current domain that have the attribute |
| GpaSearch.SearchContext.CountClasses | external/gpa-5/src/gpa.c:388-400 | the class counts and mistakes of the domain |
| GpaSearch.SearchContext.BestClass | external/gpa-5/src/gpa.c:402-414 | the first largest class and the largest number of mistakes |
| GpaSearch.SearchContext.TryAttribute | external/gpa-5/src/gpa.c:349-446 | the rule with the attribute is dealt with: it is no better than the best, and the bound below it is known, or nothing below it can matter |
| GpaSearch.SearchContext.UpdateBest | external/gpa-5/src/gpa.c:431-445 | a better rule, or an equally good one with fewer attributes, replaces the best, and no other does |
| GpaSearch.SearchContext.SortCandidates | external/gpa-5/src/gpa.c:451-455 | the candidates in order of falling bounds |
| GpaSearch.SearchContext.Recurse | external/gpa-5/src/gpa.c:470-487 | the recursive calls and the early break cover every extension of the current rule |
| GpaSearch.SearchContext.Search | external/gpa-5/src/gpa.c:333-491 | no extension by up to depth attributes is better than the best rule, in gain or in equal gain with fewer attributes, in spite of all prunings, and only a better rule has replaced it; extensions that match every instance are left out |
| GpaSearch.SearchContext.FindRule | external/gpa-5/src/gpa.c:655-665 | the whole search equals the exhaustive one if and only if no attribute is had by all instances or predicting a single class for everything is no better than the rule found, as when it gains nothing; a positive best is attained by the rule returned |
| GpaData.GainBound | external/gpa-5/src/gpa.c:408-425 | the bound: no rule below gains more than the largest class of mistakes |
| GpaData.NoEffect | external/gpa-5/src/gpa.c:374-378 | an attribute without effect has none on larger attribute sets either |
| GpaSearch.StopExhausts | external/gpa-5/src/gpa.c:471-474 | stopping at the first useless candidate misses nothing |
| GpaSearch.AllCovering | external/gpa-5/src/gpa.c:374-378 | where every instance has all attributes the search finds nothing, and that is right if and only if predicting a single class for everything gains nothing |
| GpaSearch.SearchedAll | external/gpa-5/src/gpa.c:374-378 | the exact condition under which leaving out the rules that match everything loses nothing |
| GpaSearch.SearchContext.InitClass | external/gpa-5/src/gpa.c:493-526 | a largest class |
| GpaRules.ApplyTo | external/gpa-5/src/gpa.c:536-552 | the new guesses, the domain, the correct instances and the gain of a rule |
| GpaRules.GainIsProgress | external/gpa-5/src/gpa.c:540-552 | the gain is the change in the number of correct guesses |
| GpaRules.RuleLearner.RuleApply | external/gpa-5/src/gpa.c:536-568 | totals stay the numbers of correct guesses, each guess is that of the last rule that matches, and the rule records its gain, correct guesses and domain on both sets of instances |
| GpaRules.RuleLearner.FirstRule | external/gpa-5/src/gpa.c:633-641 | after the first rule predicting a single class gains nothing |
| GpaRules.RuleLearner.LearnRule | external/gpa-5/src/gpa.c:654-676 | a best rule for the current guesses is applied, and its gain is the one searched; or no rule gains anything |
| GpaRules.RuleLearner.Run | external/gpa-5/src/gpa.c:633-701 | ends with at most one rule per training instance and the first; every rule is a best one for the guesses of those before it among all with as many attributes as allowed, whatever their number if no depth is given; unless it stopped waiting no rule gains anything any more, and it stops exactly when the rules after the printed ones reach the waiting number; the printed prefix is the one that guesses the validation set best |
| GpaRules.RuleLearner.NextPrint | external/gpa-5/src/gpa.c:685-698 | the printed prefix and the best validation total |

## Left out

- SatSolver.Solver.Simplify: whether enough has changed since the last simplification is an arbitrary choice, because it depends on propagation counters that only steer effort.
- SatSolver.Solver.Search: when to reduce the learnt clauses is an arbitrary choice instead of the `max_learnts` schedule; budgets and interruption are arbitrary too.
- SatSolver.Solver.SearchWithRestarts: the conflict limit of a restart is an unbounded integer, not a 32-bit int, so that its overflow is not modelled; a search that stopped for lack of budget is taken to end the loop; an interruption withdrawn between the two checks is not modelled.
- SatSolver.Solver.SolveUnlimited: an interrupt from outside is taken not to come; `solve` would answer false on one.
- SatSolver.Solver.LastRound: holds for the unbounded limits of SearchWithRestarts.
- SatSolver.Solver.ClaBumpActivity: the scaled activities are stated for a list of learnt clauses without repetition, as the list of a valid solver is.
- CdnfLearner.Learner.LearnCore: takes a limit on equivalence queries that counts in modes CDNF_PlusPlus and CDNF_Plus3 only, where an inconsistent teacher can have variables added for ever; the queries stay within the bound for the variables there are, and a consistent teacher is done within its own bound.
- CdnfLearner.Learner.Learn: in mode CDNF_Plus no further attempt is made once as many equivalence queries as the limit have been asked, because a teacher that is consistent over no number of variables can reject every attempt.
- FormulaNodes.FormulaStore.Copy: the vector of a copied node is filled before it is stored in the node; addresses and contents are the same.
- CnfTranslation.ToCnf: builds a value; that the clauses of a conjunction share the node of their negated literal is not modelled there, but FormulaNodes says what in-place negation does to any sharing.
- Literals are pairs of variable and sign, not packed integers; clause references are integers and the undefined reference is -1.
- The forwarding reference of a relocated clause and the activity word are kept in maps beside the clause memory, not inside it.
- 32-bit limits of region offsets, the 27-bit clause size and integer overflow of counters and restart limits.
- The extra clause field with abstractions, subsumption and strengthening of clauses: the solver modelled here does not use them.
- Statistics, verbosity, progress estimates, printing and the memory of the C and C++ programs (reference counts, buffers, reallocation).
- DIMACS output and `toDimacs`, which numbers assumption variables after printing the header.
- `setPolarity`, `enqueue`, `detachClause` in strict mode, `Heap::increase` and `Heap::update`: not used by the operations modelled.
- Bit vectors as machine words, and the growth of vectors.
- Reading the data file of the rule learner, its random split into training and validation sets and its output: the two sets are parameters.
- Memory buffers of the rule search and their doubling: memory is taken as sufficient. `qsort` is modelled by the verified sort.
- The Weka filters, the foreign-language stubs and the drivers around all of this.
