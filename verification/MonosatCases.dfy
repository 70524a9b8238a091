/**
 * Calls on which MonoSAT fails: text that is never thrown away, and agents that share a goal or are given twice.
 */
module MonosatCases {
  import opened Grids
  import opened Distances
  import opened Instances
  import opened Plans
  import opened Cnf
  import opened Encodings
  import opened Windows
  import opened Completeness
  import opened Equivalence
  import opened SatSolvers
  import opened SharedGoal
  import opened Monosat
  import opened MonosatOracle
  import opened MonosatPlans
  import opened MonosatSolvers

  // ----- three cells in a row and one below the middle: both shortest paths lead through the middle at once -----

  const STAR := Graph([[0, -1, -1, -1, 1], [1, -1, 3, 0, 2], [2, -1, -1, 1, -1], [3, 1, -1, -1, -1]])

  const CROSSING := Inst(
    STAR, [0, 3], [2, 0],
    [[0, 1, 2, 2], [2, 1, 2, 0]], [[2, 1, 0, 2], [0, 1, 2, 2]],
    [2, 2], [0, 3, 3], [0, 3, 6])

  const WAITING: Plan := [[0, 1, 2, 2], [3, 3, 1, 0]]

  predicate StarEdge(v: int, dir: int, u: int) {
    || (0 <= v < 4 && dir == 0 && u == v)
    || (v == 0 && dir == 4 && u == 1) || (v == 1 && dir == 3 && u == 0)
    || (v == 1 && dir == 4 && u == 2) || (v == 2 && dir == 3 && u == 1)
    || (v == 1 && dir == 2 && u == 3) || (v == 3 && dir == 1 && u == 1)
  }

  lemma StarLeads(v: int, dir: int, u: int)
    ensures STAR.Leads(v, dir, u) <==> StarEdge(v, dir, u)
  {
  }

  lemma StarValid()
    ensures STAR.Valid()
  {
    forall v, dir, u ensures STAR.Leads(v, dir, u) <==> StarEdge(v, dir, u) {
      StarLeads(v, dir, u);
    }
  }

  /** Distances are one to and from the middle. */
  lemma StarTable(s: int, len: seq<int>)
    requires (s == 0 || s == 2 || s == 3) && |len| == 4
    requires forall v :: 0 <= v < 4 ==> len[v] == if v == s then 0 else if v == 1 then 1 else 2
    ensures DistTable(STAR, s, len)
  {
    StarValid();
    forall v, dir, u ensures STAR.Leads(v, dir, u) <==> StarEdge(v, dir, u) {
      StarLeads(v, dir, u);
    }
    forall v | 0 <= v < 4 && len[v] > 0 ensures HasParent(STAR, len, v) {
      var dir, u := if v == 1 then (if s == 0 then 3 else if s == 2 then 4 else 2) else if v == 0 then 4
                    else if v == 2 then 3 else 1, if v == 1 then s else 1;
      assert STAR.Leads(v, dir, u);
    }
  }

  lemma CrossingRunnable()
    ensures Runnable(CROSSING, 2)
  {
    StarValid();
    forall a: nat | a < 2 ensures CROSSING.AgentTables(a) {
      StarTable(CROSSING.starts[a], CROSSING.lengthFromStart[a]);
      StarTable(CROSSING.goals[a], CROSSING.lengthFromGoal[a]);
    }
  }

  /** The call for CROSSING with allowance d. */
  function Crossing(cost: Cost, variables: Variables, withAt: bool, d: nat): Task {
    TaskFor(CROSSING, 2, cost, variables, d).(withAt := withAt)
  }

  /** Without an allowance both agents are in the middle at timestep 1; with one, the second can wait. */
  lemma CrossingNeedsOne(cost: Cost, variables: Variables, withAt: bool)
    ensures !Solvable(Crossing(cost, variables, withAt, 0), Parallel)
    ensures Solvable(Crossing(cost, variables, withAt, 1), Parallel)
    ensures SharersApart(Crossing(cost, variables, withAt, 0))
  {
    CrossingRunnable();
    var task := Crossing(cost, variables, withAt, 0);
    TaskForValid(CROSSING, 2, cost, variables, 0);
    if Solvable(task, Parallel) {
      var plan :| Fits(task, Parallel, plan);
      InTheMiddle(task, plan, 0);
      InTheMiddle(task, plan, 1);
      NeverCollide(task, Parallel, plan, 0, 1, 1);
    }
    WaitingFits(Crossing(cost, variables, withAt, 1));
  }

  lemma InTheMiddle(task: Task, plan: Plan, a: int)
    requires task.Valid() && task.inst == CROSSING && task.agents == 2 && task.delta == 0 && 0 <= a < 2
    requires Fits(task, Parallel, plan)
    ensures Where(plan, a, 1) == 1
  {
    AgentFacts(task, a);
    PosFacts(task, Parallel, plan, a, 1);
    var v := Where(plan, a, 1);
    assert v == 0 || v == 1 || v == 2 || v == 3;
    assert task.First(a, v) == CROSSING.lengthFromStart[a][v];
  }

  lemma WaitingFits(task: Task)
    requires task.inst == CROSSING && task.agents == 2 && task.delta == 1 && task.timesteps == 4
    ensures Fits(task, Parallel, WAITING)
  {
    forall a: nat | a < 2 ensures ValidPath(CROSSING, a, WAITING[a]) {
      forall t | 0 <= t < 3 ensures STAR.Adjacent(WAITING[a][t], WAITING[a][t + 1]) {
        var v, u := WAITING[a][t], WAITING[a][t + 1];
        var dir := if v == u then 0 else if v == 3 then 1 else if u == 0 then 3 else 4;
        assert STAR.Leads(v, dir, u);
      }
    }
    assert Apart(WAITING[0], WAITING[1], Parallel);
    ArrivalUnique(WAITING[0], 2, 2);
    ArrivalUnique(WAITING[1], 0, 3);
    assert CostOfFirst(WAITING, CROSSING.goals, 1) == 3;
    assert CostOfFirst(WAITING, CROSSING.goals, 2) == 7;
  }

  /** A new solver never solves CROSSING from allowance 0 on, however long it may try; from 1 on it does at once. */
  method NeverSolved(variables: Variables, cost: Cost, keep: bool, budget: nat) returns (res: int, later: int)
    requires (variables.UsePass? || variables.UseShift?) && budget > 0
    ensures res == 1 && later == 0
  {
    CrossingRunnable();
    CrossingNeedsOne(cost, variables, variables.UsePass?);
    hide Solvable, Runnable, SharersApart, Text.HasModel;
    var solver := new MonosatSolver(variables, cost, CROSSING);
    ghost var formula;
    res, formula := solver.Solve(2, 0, false, keep, budget);
    solver := new MonosatSolver(variables, cost, CROSSING);
    later, formula := solver.Solve(2, 1, false, keep, budget);
  }

  // ----- a shared goal with different distances, and one agent given twice -----

  const MEETING := Inst(
    LINE, [0, 3], [1, 1],
    [[0, 1, 2, 3], [3, 2, 1, 0]], [[1, 0, 1, 2], [1, 0, 1, 2]],
    [1, 2], [0, 2, 3], [0, 2, 5])

  const TWICE := Inst(
    LINE, [0, 0], [1, 1],
    [[0, 1, 2, 3], [0, 1, 2, 3]], [[1, 0, 1, 2], [1, 0, 1, 2]],
    [1, 1], [0, 2, 2], [0, 2, 4])

  const MEETING_CALL := Task(MEETING, 2, SumOfCosts, 0, 3, UseShift, false)

  const TWICE_CALL := Task(TWICE, 2, Makespan, 0, 2, UseShift, false)

  lemma CallsValid()
    ensures MEETING_CALL.Valid() && TWICE_CALL.Valid()
  {
    LineValid();
    forall a: nat | a < 2 ensures MEETING.AgentTables(a) && TWICE.AgentTables(a) {
      LineTable(MEETING.starts[a], MEETING.lengthFromStart[a]);
      LineTable(MEETING.goals[a], MEETING.lengthFromGoal[a]);
      LineTable(TWICE.starts[a], TWICE.lengthFromStart[a]);
      LineTable(TWICE.goals[a], TWICE.lengthFromGoal[a]);
    }
  }

  /** All variables true. */
  lemma AllTrue(f: Frame, lo: int, hi: int) returns (m: Model)
    requires f.Numbered(lo, hi)
    ensures forall x :: f.Holds(m, x) <==> f.task.Exists(x)
  {
    m := if lo < hi then NodesFrom(lo, hi - 1 - lo, 0) else {};
  }

  lemma MeetingVariables(x: Atom)
    ensures MEETING_CALL.Exists(x) <==> x == Shift(0, 4, 0) || x == Shift(3, 3, 0) || x == Shift(2, 3, 1)
  {
    if x.Shift? {
      var u := MEETING_CALL.Neighbor(x.v, x.dir);
      assert u != -1 ==> LineEdge(x.v, x.dir, u);
      assert MEETING_CALL.CanTraverse(0, x.v, x.dir, x.t) || MEETING_CALL.CanTraverse(1, x.v, x.dir, x.t) ||
        !MEETING_CALL.Exists(x);
    }
  }

  lemma TwiceVariables(x: Atom)
    ensures TWICE_CALL.Exists(x) <==> x == Shift(0, 4, 0)
  {
    if x.Shift? {
      var u := TWICE_CALL.Neighbor(x.v, x.dir);
      assert u != -1 ==> LineEdge(x.v, x.dir, u);
      assert TWICE_CALL.CanTraverse(0, x.v, x.dir, x.t) || !TWICE_CALL.Exists(x);
    }
  }

  /** The paths of both agents over three true shifts. */
  lemma MeetingPaths(f: Frame, m: Model)
    requires f.task == MEETING_CALL
    requires f.Holds(m, Shift(0, 4, 0)) && f.Holds(m, Shift(3, 3, 0)) && f.Holds(m, Shift(2, 3, 1))
    ensures ShiftPath(f, m, 0) && ShiftPath(f, m, 1)
  {
    hide Frame.Holds;
    assert MEETING_CALL.End(0) == 1 && MEETING_CALL.End(1) == 2;
    assert f.task.Leads(0, 4, 1) && f.task.Leads(3, 3, 2) && f.task.Leads(2, 3, 1);
    assert ShiftTo(f, m, 0, 1, 0) && ShiftTo(f, m, 3, 2, 0) && ShiftTo(f, m, 2, 1, 1);
    assert IsShiftPath(f, m, 0, [0, 1]) && IsShiftPath(f, m, 1, [3, 2, 1]);
  }

  /** The shifts into a cell at one timestep come from one side, and none is opposed. */
  lemma MeetingClauses(f: Frame, m: Model)
    requires f.task == MEETING_CALL
    requires forall x :: f.Holds(m, x) <==> x == Shift(0, 4, 0) || x == Shift(3, 3, 0) || x == Shift(2, 3, 1)
    ensures f.NoneAtGoalShift(m) && f.SwapConfShift(m) && f.OneShift(m) && f.OneIncomingShift(m)
  {
    hide Frame.Holds;
    assert MEETING_CALL.End(0) == 1 && MEETING_CALL.End(1) == 2 && MEETING_CALL.Goal(0) == MEETING_CALL.Goal(1) == 1;
    forall v, t ensures f.OneShiftIn(m, v, t) {
      assert f.Incoming(v, 3, t).v == f.task.Neighbor(v, 3) && f.Incoming(v, 4, t).v == f.task.Neighbor(v, 4);
    }
    forall v, dir, u | 2 <= dir < 4 && f.task.Leads(v, dir, u) ensures LineEdge(v, dir, u) {
      LineLeads(v, dir, u);
    }
  }

  /** Two agents arrive at one goal, one after the other: the formula has a model, however it is numbered. */
  lemma MeetingAccepted(f: Frame, lo: int, hi: int)
    requires f.task == MEETING_CALL && f.Numbered(lo, hi)
    ensures f.task.Valid() && !SharersApart(f.task) && !Solvable(f.task, Parallel)
    ensures exists m :: ShiftFormula(f, m)
  {
    hide Frame.Numbered, Task.Exists, ShiftPath, Task.Valid, Frame.Holds, Solvable;
    CallsValid();
    assert MEETING_CALL.End(0) == 1 && MEETING_CALL.End(1) == 2 && MEETING_CALL.Goal(0) == MEETING_CALL.Goal(1);
    ShiftDecides(f, lo, hi);
    var m := AllTrue(f, lo, hi);
    forall x ensures f.Holds(m, x) <==> x == Shift(0, 4, 0) || x == Shift(3, 3, 0) || x == Shift(2, 3, 1) {
      MeetingVariables(x);
    }
    NoAllowance(f, m, Entering, 2);
    MeetingPaths(f, m);
    MeetingClauses(f, m);
    hide Frame.NoneAtGoalShift, Frame.SwapConfShift, Frame.OneShift, Frame.OneIncomingShift;
    assert forall a :: f.task.IsAgent(a) ==> a == 0 || a == 1;
    assert ShiftFormula(f, m);
  }

  lemma TwicePaths(f: Frame, m: Model)
    requires f.task == TWICE_CALL && f.Holds(m, Shift(0, 4, 0))
    ensures ShiftPath(f, m, 0) && ShiftPath(f, m, 1)
  {
    hide Frame.Holds;
    assert TWICE_CALL.End(0) == 1 && TWICE_CALL.End(1) == 1;
    assert f.task.Leads(0, 4, 1);
    assert ShiftTo(f, m, 0, 1, 0);
    assert IsShiftPath(f, m, 0, [0, 1]) && IsShiftPath(f, m, 1, [0, 1]);
  }

  /** One agent given twice: under makespan the formula has a model as well. */
  lemma TwiceAccepted(f: Frame, lo: int, hi: int)
    requires f.task == TWICE_CALL && f.Numbered(lo, hi)
    ensures f.task.Valid() && !SharersApart(f.task) && !Solvable(f.task, Parallel)
    ensures exists m :: ShiftFormula(f, m)
  {
    hide Frame.Numbered, Task.Exists, ShiftPath, Task.Valid, Frame.Holds, Solvable;
    CallsValid();
    assert TWICE_CALL.Start(0) == TWICE_CALL.Start(1) && TWICE_CALL.Goal(0) == TWICE_CALL.Goal(1);
    ShiftDecides(f, lo, hi);
    var m := AllTrue(f, lo, hi);
    forall x ensures f.Holds(m, x) <==> x == Shift(0, 4, 0) {
      TwiceVariables(x);
    }
    TwicePaths(f, m);
    OnlyOneShift(f, m);
    hide Frame.SwapConfShift, Frame.OneShift, Frame.OneIncomingShift;
    assert forall a :: f.task.IsAgent(a) ==> a == 0 || a == 1;
    assert ShiftFormula(f, m);
  }

  lemma OnlyOneShift(f: Frame, m: Model)
    requires f.task == TWICE_CALL && forall x :: f.Holds(m, x) <==> x == Shift(0, 4, 0)
    ensures f.SwapConfShift(m) && f.OneShift(m) && f.OneIncomingShift(m)
  {
    hide Frame.Holds;
    forall v, t ensures f.OneShiftIn(m, v, t) {
      assert f.Incoming(v, 3, t).v == f.task.Neighbor(v, 3);
    }
  }
}
