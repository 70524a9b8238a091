# SAT encodings for multi-agent path finding: verification project

The program decides whether agents on a grid can walk from their starts to their goals without colliding, within a
limit on makespan or on the sum of individual plan lengths. It turns the question into clauses, hands them to a
solver, reads a plan back, and raises the limit until a plan exists. This project models that pipeline in Dafny and
proves that it is a faithful translation in both directions and that the loop around it returns an optimal plan.

Verify everything with `dafny verify dfyconfig.toml`.

## What is modelled

| module | content |
|---|---|
| `Grids`, `Distances`, `Instances` | the map and its numbering, `BFS` on an array and a queue, `SetAgents` and the lower bounds |
| `Plans` | valid plans, costs, normalisation of extracted rows |
| `Cnf` | clauses and their models, an at-most-k encoder and a satisfiability oracle, both with bodies |
| `Encodings` | the time windows, the variables, and the meaning of each clause family as a predicate on models |
| `Windows`, `Numbering` | the windows lose nothing; variable numbers are one-to-one |
| `Solvers` | the clause generators, as methods that push clauses; each contract says what the clauses mean |
| `Soundness`, `Completeness`, `Equivalence` | models to plans, plans to models, and the two together |
| `SatSolvers` | formula assembly, extraction, conflict generation and the solving loop |
| `SharedGoal` | what lazy solving does when agents share a goal |
| `Monosat`, `MonosatPlans`, `MonosatOracle`, `MonosatSolvers` | movement as reachability in switched graphs, what those formulas decide, and the loop with MonoSAT |
| `MonosatCases` | calls on which that loop, and the formula over Shift variables, fail |
| `Binary`, `BitBounds`, `Circuits` | numbers as bits, bound refinement on partly assigned bit-vectors, and adder, multiplier and comparator circuits |

A model of clauses is the set of its true variables. A clause generator's contract has the form "a model satisfies
the clauses afterwards exactly when it satisfied those before and the family's predicate holds". Generators that
add auxiliary variables promise instead that every model satisfies the predicate, and that every assignment that
does extends, unchanged on the older variables, to a model. `Hard`, `Eager` and `RespectsAll` in `Encodings` collect
the families; `Means` and `FormulaOk` in `SatSolvers` say that the assembled formula has exactly these models.

`Fits` is the other side: a plan of adjacent steps from starts to goals, free of vertex and swapping conflicts (and,
under pebble motion, of following), within the cost limit. `FormulaDecides` and the contract of `Solve` connect both.

The loop's wall-clock limit is a budget of solver calls. With CaDiCaL `Solve` promises: result 0 comes with the smallest
allowance from the starting one on that has a valid plan, and with such a plan; result -1 (oneshot) means the starting
allowance has none; result 1 means the budget ran out, and then the budget was smaller than the number of rounds up
to any solvable allowance (one per allowance, plus in lazy mode one per conflict that can still be excluded).

With MonoSAT it does not. A formula for MonoSAT exists only as text in a string stream, and the calls of `clear()` on
that stream (src/encodings/solver_common.cpp:73, 146 and 1333) reset its error state and keep its content. So the file
handed over holds the formulas of all earlier allowances and calls as well; their graphs stay attached when their
identifiers are declared anew (src/externals/monosat/graph/GraphParser.h:197-213). `ThenModels` says that the models of
the whole text are the common models of its parts, and `MonosatSolver.Solve` what follows: it succeeds exactly if the
formula of the starting allowance has a common model with the text written before; on a new solver, exactly if the
starting allowance has a valid plan. Otherwise it goes on until the budget is spent, and so does every later call on
the same object. `NeverSolved` is a map on which this happens although one more timestep would do.

Goals must be reachable from starts; `LoadedRunnable` derives what the solvers require from a loaded map on which this
holds. No connectivity of the map is assumed: cells an agent cannot reach have distance -1 and a window of their own,
and the proofs deal with their variables.

Starts and goals need not be distinct. With CaDiCaL every answer is right even then. Under sum of costs agents that
share a goal stand there once they have arrived, and a conflict listed there has no variables: `FoundExpressibleIff`
says when this happens, and `SharedGoalListed` is a call where the clause added for it contradicts the start and goal
of another agent. But then no valid plan exists, and a clause too many can only remove models (`Means`); `FoundViolated`
still finds a conflict with variables in every round. The MonoSAT formula over Shift variables has no variables for
vertices. It decides whether a plan exists exactly if agents that share a goal start apart and, under sum of costs, are
due there at the same timestep, or if it has no model at all (`ShiftDecidesIff`). `MeetingAccepted` and `TwiceAccepted`
are calls where it has a model and no plan exists.

Where code and comments differ the code is followed. The comment that the windows of the Pass variables might be
wrong (src/encodings/solver_common.cpp:221-226) is settled by `PassWindow`: they are exact, for every cell. The
comment "check this!" in the subtractor (src/externals/monosat/api/Circuit.h:826) is settled by `Subtract`: the
borrow is right. `refine_ubound` and `refine_lbound` only look at as many bits of the bound as the vector has;
`UBoundExactIff` and `LBoundExactIff` say for which vectors and bounds their answers are right all the same, and
`UBoundMatchesCheck` and `LBoundMatchesCheck` that these are the ones for which the exhaustive check agrees. The
bounds for which they are wrong lie outside the range that `updateApproximations` checks, in debug builds, before it
calls the refinement (src/externals/monosat/bv/BVTheorySolver.h:6578-6609).
`Multiply` yields one output bit for vectors of length one, and 2n otherwise.

Variables are numbered on from the previous allowance, since the counter is not reset between allowances, and
conflicts listed for one allowance are still listed when the next formula is built. Both are modelled; the second is
harmless because windows only widen (`ExpressibleMonotone`).

## Model

| member | source | states |
|---|---|---|
| Grids.NeighborsDiffer | src/instance.cpp:80-119 | on the map two directions from one cell never lead to the same neighbour |
| Grids.FreeCellIsNeighbor | src/instance.cpp:80-119 | every free cell one step north, south, west or east is a neighbour in that direction, and GetNeighbor answers with its number |
| Grids.NeighborIff | src/instance.cpp:80-119 | one cell is the neighbour of another in a direction exactly when it lies one step away in that direction |
| Grids.GetNeighborAgrees | src/instance.cpp:80-119 | HasNeighbor and GetNeighbor on cell numbers agree with the test on coordinates |
| Grids.GraphOfValid | src/instance.cpp:80-119 | the numbered grid is a graph with symmetric, uniquely labelled edges |
| Distances.BFS | src/instance.cpp:285-318 | terminates and leaves in the array a table that is 0 at the start only, consistent along edges, with a parent for every other reached cell, and -1 elsewhere |
| Distances.DistTableExact | src/instance.cpp:285-318 | such a table holds exactly the shortest walk lengths, and -1 exactly for unreachable cells |
| Distances.DistanceSymmetric | src/instance.cpp:48-64 | the distance from the goal to v is the distance from v to the goal |
| Distances.DistanceLipschitz | src/instance.cpp:121-135 | distances of adjacent cells differ by at most one and are defined together |
| Distances.SameComponent | src/instance.cpp:48-64 | a cell is reachable from the start exactly when it is reachable from a reachable goal |
| Instances.LowerBoundsCover | src/instance.cpp:48-64 | the makespan bound of a prefix covers the shortest path of each of its agents |
| Instances.TablesDetermined | src/instance.cpp:48-64 | the tables and bounds are a function of map and agents, whatever calls filled them |
| Instances.Instance.SetAgents | src/instance.cpp:48-64 | afterwards the tables of each of the first ags agents hold the distances from the cells with the coordinates of its start and of its goal, its shortest path is the distance between them, and the bounds are the maximum and the sum of shortest paths plus one, also when some agents were filled in before |
| Instances.CellsOfAgent | src/instance.cpp:48-64 | the numbers used for start and goal of an agent belong to the cells with their coordinates |
| Instances.Instance.LoadMapData | src/instance.cpp:263-283 | exactly the cells that are not obstacles are numbered, row by row, and coordinates invert the numbering |
| Instances.Instance.constructor | src/instance.cpp:18-26 | an instance from data is loaded, with no agent's tables filled in, and usable exactly when starts and goals are free cells |
| Plans.MakespanLowerBound | src/instance.cpp:32-64 | GetMksLB of every prefix is a lower bound on the timesteps of any valid plan |
| Plans.SumOfCostsLowerBound | src/instance.cpp:40-64 | GetSocLB of every prefix is a lower bound on the summed lengths of any valid plan |
| Plans.NormalizedPath | src/encodings/solver_common.cpp:1358-1380 | a normalised row is the filled row cut to a common length, ends at the goal, and arrives when the raw row's suffix of goals and -1 begins |
| Plans.NormalizeKeepsConflicts | src/encodings/solver_common.cpp:1358-1380 | dropping the columns in which everyone is at the goal neither adds nor hides a conflict |
| Cnf.EncodeAtMostK | src/encodings/solver_common.cpp:996-1001 | the promise the cost and no-duplicates encodings rely on: models have at most k of the literals true, every assignment with at most k extends by fresh variables, and the last fresh number is returned |
| Cnf.CallSolver | src/encodings/SAT_encoding.cpp:209-214 | the promise of the SAT solver: a model of the clauses, or none exists |
| Windows.NoDeadEndAt | src/encodings/solver_common.cpp:686-706 | for a reachable vertex in its window the list of next At variables is empty exactly at the goal in the last timestep |
| Windows.NoDeadEndPass | src/encodings/solver_common.cpp:789-805 | the same for the list of Pass variables leaving it |
| Windows.PassWindow | src/encodings/solver_common.cpp:221-226 | a Pass variable exists exactly when the At variables at both of its ends do, for every cell |
| Windows.ShiftWindow | src/encodings/solver_common.cpp:254-276 | a Shift variable exists for every move some agent can make inside its windows |
| Windows.WindowStep | src/instance.cpp:121-135 | the windows of adjacent cells are shifted by at most one timestep |
| Numbering.BlocksNumber | src/encodings/solver_common.cpp:173-285 | consecutive At, Pass and Shift blocks together number the existing variables one-to-one onto a contiguous range |
| Numbering.OwnsInOrder | src/encodings/solver_common.cpp:173-285 | variables of one kind are numbered in the order of agent, cell, direction and timestep |
| Solvers.Solver.CreateAt | src/encodings/solver_common.cpp:173-202 | the table has the windows of every agent and vertex; the block maps (agent, vertex, timestep) one-to-one onto lit, lit + 1, ... |
| Solvers.Solver.CreatePass | src/encodings/solver_common.cpp:204-240 | the same for Pass variables and their windows |
| Solvers.Solver.CreateShift | src/encodings/solver_common.cpp:242-285 | timestep lists are strictly increasing and list exactly the existing variables; start and end times are their first and last timestep; numbering is one-to-one and in order |
| Solvers.Solver.FindShift | src/encodings/solver_common.cpp:353-357 | the find lookup succeeds exactly for existing Shift variables and then inverts the numbering |
| Solvers.Solver.CreatePossition_Start | src/encodings/solver_common.cpp:291-299 | adds exactly: every agent is at its start at timestep 0 |
| Solvers.Solver.CreatePossition_Goal | src/encodings/solver_common.cpp:301-310 | adds exactly: every agent is at its goal in its last timestep |
| Solvers.Solver.CreatePossition_NoneAtGoal | src/encodings/solver_common.cpp:312-335 | adds exactly: nobody is at an agent's goal after that agent's last timestep |
| Solvers.Solver.CreatePossition_NoneAtGoal_Shift | src/encodings/solver_common.cpp:337-366 | adds exactly: no shift leaves an agent's goal from that agent's last timestep on |
| Solvers.Solver.CreateConf_Vertex | src/encodings/solver_common.cpp:368-394 | adds exactly: no two agents at one vertex at one timestep |
| Solvers.Solver.CreateConf_Swapping_At | src/encodings/solver_common.cpp:396-434 | adds exactly: no two agents exchange adjacent vertices |
| Solvers.Solver.CreateConf_Swapping_Pass | src/encodings/solver_common.cpp:436-471 | adds exactly: opposite Pass variables of two agents exclude each other |
| Solvers.Solver.CreateConf_Swapping_Shift | src/encodings/solver_common.cpp:473-500 | adds exactly: opposite shifts exclude each other |
| Solvers.Solver.CreateConf_Pebble_At | src/encodings/solver_common.cpp:502-534 | adds exactly: no agent at a vertex another occupied one timestep before |
| Solvers.Solver.CreateConf_Pebble_Pass | src/encodings/solver_common.cpp:536-573 | adds exactly: no agent traverses an edge into a vertex another agent is at |
| Solvers.Solver.CreateConf_Pebble_Shift | src/encodings/solver_common.cpp:575-606 | adds exactly: a shift into a vertex excludes every shift out of it |
| Solvers.Solver.CreateMove_NoDuplicates | src/encodings/solver_common.cpp:608-672 | forces one place per agent and timestep, and excludes no assignment that respects this as long as earlier clauses leave the new variables alone |
| Solvers.Solver.CreateMove_NextVertex_At | src/encodings/solver_common.cpp:674-716 | adds exactly: an agent is next at a neighbour, wherever a neighbour variable exists |
| Solvers.Solver.CreateMove_EnterVertex_Pass | src/encodings/solver_common.cpp:718-746 | adds exactly: traversing an edge puts the agent at its end |
| Solvers.Solver.CreateMove_NextEdge_Pass | src/encodings/solver_common.cpp:777-815 | adds exactly: an agent at a vertex leaves by some edge, wherever one exists |
| Solvers.Solver.CreateMove_ExactlyOne_Shift | src/encodings/solver_common.cpp:817-857 | adds exactly: at most one shift leaves a vertex at a timestep |
| Solvers.Solver.CreateMove_ExactlyOneIncoming_Shift | src/encodings/solver_common.cpp:859-916 | adds exactly: at most one shift enters a vertex at a timestep |
| Solvers.Solver.CreateMove_NextVertex_Shift | src/encodings/solver_common.cpp:918-964 | adds exactly: an agent follows the shift out of its vertex and no other |
| Solvers.Solver.CreateConst_LimitSoc | src/encodings/solver_common.cpp:966-1003 | bounds the total delay, counted as not being at the goal, by delta, and excludes nothing else as long as earlier clauses leave the new variables alone |
| Solvers.Solver.CreateConst_LimitSoc_AllAt | src/encodings/solver_common.cpp:1005-1060 | the same, counting an agent as late while any of its At variables elsewhere is true |
| Solvers.Solver.CreateConst_LimitSoc_Shift | src/encodings/solver_common.cpp:1062-1115 | the same, counting an agent as late when some shift enters its goal |
| Solvers.Solver.CreateConf_Vertex_OnDemand | src/encodings/solver_common.cpp:1122-1135 | adds exactly the exclusion of the two numbers computed for each listed vertex conflict, whether or not they belong to the variables meant |
| Solvers.Solver.CreateConf_Swapping_OnDemand | src/encodings/solver_common.cpp:1137-1209 | adds exactly the exclusion of the listed swapping conflicts, over each kind of variables |
| Solvers.Solver.CreateConf_Pebble_OnDemand | src/encodings/solver_common.cpp:1211-1288 | adds exactly the exclusion of the listed following conflicts, over each kind of variables |
| Soundness.NeverStuck | src/encodings/SAT_encoding.cpp:259-329 | before its last timestep the extracted walk always finds a next vertex |
| Soundness.StuckAfterEnd | src/encodings/SAT_encoding.cpp:324-328 | at the goal in its last timestep an agent has no next vertex |
| Soundness.WalkFollows | src/encodings/SAT_encoding.cpp:219-233 | the extracted walk stays on true At variables despite ghosts, is at the goal in the last timestep, and is -1 afterwards |
| Soundness.ShownRows | src/encodings/solver_common.cpp:1358-1380 | rows that stop at the goal are shown with their -1 suffix turned into goals, at a common length that covers every walk |
| Soundness.StopsLength | src/encodings/solver_common.cpp:1358-1380 | under makespan the plan is shown to the last timestep, under sum of costs some agent is away from its goal in the last timestep but one |
| Soundness.ArrivalWithinDelay | src/encodings/solver_common.cpp:966-1060 | the shown row arrives no later than the shortest path plus the agent's delay, also with ghosts |
| Soundness.VertexViolated | src/encodings/solver_common.cpp:1122-1135 | two shown rows meeting means both At variables exist and the clause for that conflict is false in the model |
| Soundness.SwapViolated | src/encodings/solver_common.cpp:1137-1209 | the same for a swap, over each kind of variables |
| Soundness.PebbleViolated | src/encodings/solver_common.cpp:1211-1288 | a following conflict is expressible, and is violated unless the two also meet |
| Completeness.PosFacts | src/encodings/solver_common.cpp:173-202 | at every timestep a fitting plan keeps each agent inside its window |
| Completeness.ArrivesInTime | src/instance.cpp:126-135 | every agent of a fitting plan has arrived by its last timestep |
| Completeness.PlanModel | src/encodings/solver_common.cpp:173-285 | because numbering is one-to-one some model makes true exactly the variables of the plan |
| Completeness.PlanHard | src/encodings/SAT_encoding.cpp:125-166 | the model of a fitting plan satisfies positions, movement, no duplicates and the cost limit |
| Completeness.PlanEager | src/encodings/SAT_encoding.cpp:72-95 | the model of a fitting plan satisfies every eager conflict clause of its motion |
| Completeness.PlanLimitSoc | src/encodings/solver_common.cpp:966-1115 | the model of a fitting plan stays within the allowance under each of the three ways of counting lateness |
| Completeness.PlanNoneAtGoal | src/encodings/solver_common.cpp:312-335 | the no-one-at-goal units lose no fitting plan |
| Equivalence.DetectionAgrees | src/encodings/solver_common.cpp:1401-1473 | a conflict is reported exactly when verifying the plan would print something |
| Equivalence.SwapIsPebble | src/encodings/solver_common.cpp:1445-1466 | every swapping conflict is also, for both agents, a following conflict |
| Equivalence.FoundViolated | src/encodings/solver_common.cpp:1122-1288 | a reported plan with a conflict violates one that has variables and for which clauses are added, so each lazy round rules out its own model, also with shared goals |
| Equivalence.FoundListable | src/encodings/solver_common.cpp:1430-1473 | a conflict found in a reported plan has its variables unless two agents with one goal stand there |
| Equivalence.SharedGoalMet | src/encodings/solver_common.cpp:301-335 | in every model agents with one goal are due there at the same timestep, and collide there |
| Equivalence.SolvableApart | src/encodings/solver_common.cpp:1401-1423 | agents of a valid plan have distinct starts and distinct goals |
| Equivalence.FoundExpressible | src/encodings/solver_common.cpp:1122-1288 | every conflict found in a reported plan has its variables if shared goals have theirs up to the last timestep shown |
| Equivalence.EagerGoalsApart | src/encodings/SAT_encoding.cpp:72-95 | a model of an eager formula exists only when no two agents share a goal under sum of costs |
| SharedGoal.SharedGoalInexpressible | src/encodings/solver_common.cpp:1430-1443 | two agents that have arrived at a shared goal are listed as a vertex conflict at each later timestep shown, and it has no variables |
| SharedGoal.FoundExpressibleIff | src/encodings/solver_common.cpp:1430-1473 | all listed conflicts have their variables if and only if agents sharing a goal have theirs up to the last timestep shown |
| SharedGoal.SharedGoalListed | src/encodings/solver_common.cpp:1122-1135 | a task, a model of its formula, and a listed conflict whose clause contradicts the start and goal of one agent, since it gets the numbers of that agent's variables |
| Equivalence.EagerRespects | src/encodings/SAT_encoding.cpp:72-118 | the eager clauses contain what any on-demand clauses say |
| Equivalence.EagerSound | src/encodings/SAT_encoding.cpp:219-237 | every model of an eager formula shows a valid conflict-free plan within the cost limit, for every kind of variables, motion, cost and treatment of duplicates |
| Equivalence.ShiftPebbleRobust | src/encodings/solver_common.cpp:575-606 | forbidding a shift in together with a shift out makes plans 1-robust: no agent enters a cell occupied one timestep before |
| Equivalence.ReportedCost | src/encodings/solver_common.cpp:966-1060 | the summed lengths of the shown plan are at most GetSocLB plus delta |
| Equivalence.FormulaDecides | src/encodings/SAT_encoding.cpp:44-177 | the formula is satisfiable exactly when a valid plan within the cost limit exists |
| Equivalence.EncodingsEquisatisfiable | src/encodings/SAT_encoding.cpp:130-148 | At, Pass and Shift formulas, single or dupli, are equisatisfiable |
| Equivalence.LazyComplete | src/encodings/SAT_encoding.cpp:96-118 | a solvable call has a model of the formula with any on-demand clauses added |
| Equivalence.ExpressibleMonotone | src/encodings/solver_common.cpp:139-144 | conflicts listed for one allowance keep their variables in the next |
| SatSolvers.SatSolver.GetNextVertex | src/encodings/SAT_encoding.cpp:259-329 | returns the vertex in the first direction the model lets the agent go, and -1 exactly when there is none |
| SatSolvers.SatSolver.ExtractPlan | src/encodings/SAT_encoding.cpp:219-233 | every row is the walk from the agent's start through these choices, first directions first |
| Solvers.Solver.NormalizePlan | src/encodings/solver_common.cpp:1358-1380 | the plan becomes its normalised form, cut to the returned length |
| SatSolvers.SatSolver.GenerateConflicts | src/encodings/solver_common.cpp:1430-1473 | the three lists hold exactly the conflicts of the plan, each once, and conflicts are present exactly when it is not conflict-free |
| SatSolvers.SatSolver.VerifyPlan | src/encodings/solver_common.cpp:1401-1423 | nothing would be printed exactly when the plan is conflict-free |
| SatSolvers.SatSolver.CreateFormula | src/encodings/SAT_encoding.cpp:44-177 | first try or not, every model is intended, given the conflicts known so far, and satisfies each family of the chosen options by itself; without shared goals the clauses mean exactly the intended models; all numbers in use are below the returned one, which is the next free one and unchanged on later tries |
| SatSolvers.SatSolver.InvokeSolver | src/encodings/solver_common.cpp:1316-1352 | no model: no valid plan for this allowance, and an empty plan; a model without conflicts: the plan fits and is no longer than it has to be; with conflicts: they are listed, and some listed one is not yet excluded; a plan nobody asked for is empty |
| SatSolvers.SatSolver.Attempt | src/encodings/solver_common.cpp:87-164 | one pass of the loop keeps its invariant and either solves, adds a new conflict, or moves to the next allowance |
| SatSolvers.SatSolver.Solve | src/encodings/solver_common.cpp:58-165 | returns the smallest solvable allowance with a fitting plan and bounds on the number of calls, or that the oneshot allowance has none, or that the budget was too small for every solvable allowance; after a failure no plan is left, except one with conflicts when lazy solving ran out of budget |
| SatSolvers.LoadedRunnable | src/instance.cpp:48-64 | a loaded map whose agents are set and can reach their goals meets what Solve requires |
| SatSolvers.LoadedPlan | src/instance.cpp:48-119 | a valid plan for a loaded map begins and ends at the coordinates of each agent's start and goal, and moves one step at a time over free cells |
| SatSolvers.LoadedApart | src/instance.cpp:48-64 | goals on different cells of the map have different numbers, so that no agents share one |
| SatSolvers.NoCheaperPlan | src/encodings/solver_common.cpp:87-164 | when no smaller allowance is solvable no valid plan of any kind is cheaper |
| SatSolvers.UniverseIsRoomy | src/encodings/solver_common.cpp:1430-1473 | the conflicts that can ever be excluded for one allowance are finitely many, with an explicit bound |
| SatSolvers.MeansMore | src/encodings/SAT_encoding.cpp:96-123 | adding clauses on demand adds the exclusion of the new conflicts to the formula's meaning, and without shared goals nothing else |
| Monosat.CantorInjective | src/encodings/SMT_encoding.cpp:290-293 | the pairing of vertex and timestep is injective at every size |
| Monosat.NamingKeepsReachability | src/encodings/SMT_encoding.cpp:262-326 | numbering the nodes through the dictionary keeps reachability in both directions |
| Monosat.ShiftReach | src/encodings/SMT_encoding.cpp:262-326 | reachability in the shared graph is a walk over true shifts from start to goal at the last timestep |
| Monosat.PassReach | src/encodings/SMT_encoding.cpp:174-260 | reachability in an agent's split graph is a walk through true At and Pass variables |
| MonosatSolvers.VarToID | src/encodings/SMT_encoding.cpp:420-432 | a new key gets the next number, a known key its own; different keys have different numbers, and numbers given out are kept |
| MonosatSolvers.MonosatSolver.CreateMove_Graph_MonosatShift | src/encodings/SMT_encoding.cpp:262-326 | each agent's reach line holds in a model exactly when the agent has a walk over true shifts; its variable is forced |
| MonosatSolvers.MonosatSolver.CreateMove_Graph_MonosatPass | src/encodings/SMT_encoding.cpp:174-260 | each agent's reach line holds exactly when it has a path through true At and Pass variables; its variable is forced |
| MonosatSolvers.MonosatSolver.CreateFormulaShift | src/encodings/SMT_encoding.cpp:61-168 | behind whatever was written before, adds text whose graph models are, on the Shift variables, exactly the assignments that satisfy the formula's meaning; all clause, edge and reach variables are below the returned number, which is the next free one |
| MonosatSolvers.MonosatSolver.CreateFormulaPass | src/encodings/SMT_encoding.cpp:61-168 | the same over At and Pass variables with duplicates forbidden |
| MonosatSolvers.MonosatSolver.GetNextVertex | src/encodings/SMT_encoding.cpp:434-484 | returns the vertex in the first direction the model lets the agent go, and -1 exactly when there is none |
| MonosatSolvers.MonosatSolver.ExtractPlan | src/encodings/SMT_encoding.cpp:395-407 | every row is the greedy walk from the agent's start, first directions first |
| MonosatSolvers.MonosatSolver.ShiftSolverDecides | src/encodings/SMT_encoding.cpp:61-168 | one formula has a graph model exactly when a valid plan exists, and the plan read off any model fits, if sharers of a goal are apart; otherwise there is no plan |
| MonosatSolvers.MonosatSolver.PassSolverDecides | src/encodings/SMT_encoding.cpp:61-168 | one formula over At and Pass variables has a graph model exactly when a valid plan exists, and the plan read off any model fits |
| MonosatOracle.ReachSet | src/encodings/SMT_encoding.cpp:174-326 | the nodes reachable over the switched-on edges, exactly |
| MonosatOracle.CallMonosat | src/encodings/SMT_encoding.cpp:353-370 | the promise of MonoSAT: a model of clauses and reach lines, or none exists |
| MonosatOracle.ThenModels | src/externals/monosat/graph/GraphParser.h:197-213 | the models of text followed by more text, which declares its graphs anew, are the common models of both |
| MonosatOracle.NoModelLater | src/encodings/solver_common.cpp:1318-1327 | text without a model has none whatever follows it |
| MonosatSolvers.MonosatSolver.InvokeSolver | src/encodings/SMT_encoding.cpp:353-418 | succeeds exactly when the whole text written so far has a model; then (over Shift variables, if sharers of a goal are apart) the task has a valid plan and the plan kept is one; otherwise the plan is empty |
| MonosatSolvers.MonosatSolver.Attempt | src/encodings/solver_common.cpp:87-164 | one pass of the loop adds the formula of its allowance to the text, solves the text, and moves on |
| MonosatSolvers.MonosatSolver.Solve | src/encodings/solver_common.cpp:58-165 | succeeds if and only if the formula of the starting allowance has a common model with the text written before, so on a new solver (over Shift variables, if sharers of a goal are apart) if and only if that allowance has a valid plan; later allowances never succeed, nor do later calls; after a failure no plan is left |
| MonosatCases.CrossingNeedsOne | src/encodings/solver_common.cpp:139-147 | a map on which allowance 0 has no valid plan and allowance 1 has one |
| MonosatCases.NeverSolved | src/encodings/solver_common.cpp:139-147 | on that map a new solver that starts at allowance 0 exhausts every budget, and one that starts at 1 succeeds at once |
| MonosatPlans.NeverMeet | src/encodings/solver_common.cpp:859-916 | walks from distinct cells never share a cell, by backward induction over incoming shifts |
| MonosatPlans.NeverSwap | src/encodings/solver_common.cpp:473-500 | walks never swap |
| MonosatPlans.NotAtOthersGoal | src/encodings/solver_common.cpp:337-366 | a walk still under way is never at the goal of an agent that has arrived for good |
| MonosatPlans.ShiftSound | src/encodings/SMT_encoding.cpp:395-411 | every model over Shift variables shows a valid conflict-free plan within the cost limit, without any clause about vertices |
| MonosatPlans.StartTogether | src/encodings/solver_common.cpp:817-857 | in a model agents with one start have one goal and are due there at the same timestep |
| MonosatPlans.ModelSeparates | src/encodings/solver_common.cpp:859-916 | if sharers of a goal are apart then a model exists only for distinct starts and, under sum of costs, distinct goals |
| MonosatPlans.ShiftComplete | src/encodings/SMT_encoding.cpp:61-168 | every fitting plan is a model over Shift variables |
| MonosatPlans.ShiftDecidesIff | src/encodings/SMT_encoding.cpp:61-168 | the formula over Shift variables decides whether a plan exists if and only if sharers of a goal are apart or it has no model |
| MonosatCases.MeetingAccepted | src/encodings/SMT_encoding.cpp:119-145 | two agents arriving at one goal one after the other: however it is numbered, the formula has a model, and no plan exists |
| MonosatCases.TwiceAccepted | src/encodings/SMT_encoding.cpp:119-145 | the same for one agent given twice under makespan |
| MonosatPlans.PassRowStops | src/encodings/SMT_encoding.cpp:439-458 | without duplicates the greedy walk is the path in the graph: it never gets stuck and is at the goal in its last timestep |
| MonosatPlans.PassSound | src/encodings/SMT_encoding.cpp:395-411 | every model over At and Pass variables without duplicates shows a valid conflict-free plan within the cost limit |
| MonosatPlans.PassComplete | src/encodings/SMT_encoding.cpp:61-168 | every fitting plan is a model over At and Pass variables |
| BitBounds.RefineUBound | src/externals/monosat/bv/BVTheorySolver.h:9733-9827 | the least completion not below the bound, or -1 when there is none; a negative bound is seen through its lowest bits |
| BitBounds.RefineLBound | src/externals/monosat/bv/BVTheorySolver.h:9829-9927 | the greatest completion not above the bound, or -1 when there is none; a bound beyond the width is seen through its lowest bits |
| BitBounds.UBoundExactIff | src/externals/monosat/bv/BVTheorySolver.h:9733-9827 | for a given vector and bound the answer is right if and only if the bound is not negative or its lowest bits are at most the least value the vector can take |
| BitBounds.UBoundMatchesCheck | src/externals/monosat/bv/BVTheorySolver.h:9818-9824 | the answer equals that of the exhaustive check under exactly the same condition |
| BitBounds.UBoundExactAtWidth | src/externals/monosat/bv/BVTheorySolver.h:9733-9827 | right for every vector of width n if and only if the bound is not negative or a multiple of 2^n |
| BitBounds.LBoundExactIff | src/externals/monosat/bv/BVTheorySolver.h:9829-9927 | for a given vector and bound the answer is right if and only if the bound is below 2^n or its lowest bits are at least the greatest value the vector can take |
| BitBounds.LBoundMatchesCheck | src/externals/monosat/bv/BVTheorySolver.h:9918-9925 | the answer equals that of the exhaustive check under exactly the same condition |
| BitBounds.LBoundExactAtWidth | src/externals/monosat/bv/BVTheorySolver.h:9829-9927 | right for every vector of width n if and only if the bound is below 2^n or congruent to 2^n - 1 |
| BitBounds.RefineUBoundCheck | src/externals/monosat/bv/BVTheorySolver.h:9695-9712 | the exhaustive check is exact for every bound |
| BitBounds.RefineLBoundCheck | src/externals/monosat/bv/BVTheorySolver.h:9714-9731 | the exhaustive check is exact for every bound |
| BitBounds.EvaluateCompletions | src/externals/monosat/bv/BVTheorySolver.h:9678-9692 | the enumerated numbers are exactly those the vector can still become |
| BitBounds.NegativeBoundMissed | src/externals/monosat/bv/BVTheorySolver.h:9733-9827 | a concrete negative bound, outside the range checked at 6578-6609, for which the answer is none although 0 is right |
| BitBounds.WideBoundMissed | src/externals/monosat/bv/BVTheorySolver.h:9829-9927 | a concrete bound beyond the width, outside the range checked at 6578-6609, for which the answer is none although 1 is right |
| Circuits.Circuit.And | src/externals/monosat/api/Circuit.h:314-339 | the output is the conjunction in every model, and every model before extends |
| Circuits.Circuit.Or | src/externals/monosat/api/Circuit.h:367-389 | the output is the disjunction in every model, and every model before extends |
| Circuits.Circuit.Xor | src/externals/monosat/api/Circuit.h:621-640 | the output is the exclusive disjunction in every model, and every model before extends |
| Circuits.Circuit.HalfAdder | src/externals/monosat/api/Circuit.h:752-755 | sum and carry denote the sum of two bits |
| Circuits.Circuit.FullAdder | src/externals/monosat/api/Circuit.h:757-763 | sum and carry denote the sum of three bits |
| Circuits.Circuit.Add | src/externals/monosat/api/Circuit.h:783-796 | outputs and carry denote the sum of the two numbers, and every model before extends |
| Circuits.Circuit.Subtract | src/externals/monosat/api/Circuit.h:816-829 | outputs denote the difference, plus 2^n exactly when the borrow is set |
| Circuits.Circuit.Multiply | src/externals/monosat/api/Circuit.h:891-959 | the outputs denote the product of the two numbers, and every model before extends |
| Circuits.Circuit.LEQ | src/externals/monosat/api/Circuit.h:1262-1285 | the output is true exactly when the first number is at most the second, at any two lengths |
| Circuits.ConservativeTrans | src/externals/monosat/api/Circuit.h:783-796 | extensions of models compose across gates |
| Circuits.DefinitionConservative | src/externals/monosat/api/Circuit.h:334-338 | clauses that define a new variable exclude no model of the clauses before |

## Left out

- File and map parsing, the command line, logging, printing and the DIMACS file written next to CaDiCaL: input and output only. The text for MonoSAT is modelled by what its lines mean, not character by character.
- Clock time, threads and termination of the solver from outside: a budget of solver calls stands for the timeout. It is looked at before a call only; a timeout noticed after a call, where the source returns 1 whatever the answer was and keeps the plan just read, is not modelled.
- CaDiCaL and the at-most-k encoder of pblib: their code is not part of this model. `CallSolver` and `EncodeAtMostK` are small bodies that keep the promises the rest relies on.
- The MonoSAT binary: its code is not part of this model. `CallMonosat` is an exhaustive search that keeps its promise of a graph model. It is always given a file name for the formula. A witness that cannot be read, or that has more numbers than the current formula, is not modelled.
- `CreateConst_Avoid` and avoided locations: it does not consult the agent's window and indexes the map as [y][x].
- MonoSAT over Pass variables with duplicates allowed: no claim about its greedy walk.
- `CreateMove_LeaveVertex_Pass`, which is never called, the clause counters, and the memory handling of `CleanUp`.
- Machine integers: numbers are unbounded, so an overflow of `int` in variable numbers or in the pairing function is not modelled.
- Variable tables and clause lists are sequence-valued fields instead of arrays of pointers; sharing between them is not modelled.
- Gates with an `out` parameter, gates over lists, and the ignored bit of the refinement functions, which no caller passes.
- The rest of the vendored MonoSAT and pblib headers. What the solver has fixed at level 0 when a gate asks is a parameter: any function from clauses to literals they imply.
- The two copies of the bit scan in refine_ubound and refine_lbound are one method here, applied to the vector or to its complement.
