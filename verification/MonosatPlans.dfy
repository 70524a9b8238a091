/**
 * What the MonoSAT formulas decide: their models are exactly the conflict-free plans, and extraction reads them off.
 */
module MonosatPlans {
  import opened Grids
  import opened Instances
  import opened Plans
  import opened Cnf
  import opened Encodings
  import opened Windows
  import opened Soundness
  import opened Completeness
  import opened Equivalence
  import opened Monosat

  // ----- Shift: walks are unique and never meet -----

  /** At most one shift leaves a vertex, so there is only one way on. */
  lemma ShiftUnique(f: Frame, m: Model, v: int, u1: int, u2: int, t: int)
    requires f.OneShift(m) && ShiftTo(f, m, v, u1, t) && ShiftTo(f, m, v, u2, t)
    ensures u1 == u2
  {
    var d1 :| 0 <= d1 < 5 && f.task.Leads(v, d1, u1) && f.Holds(m, Shift(v, d1, t));
    var d2 :| 0 <= d2 < 5 && f.task.Leads(v, d2, u2) && f.Holds(m, Shift(v, d2, t));
    assert f.OneShiftOut(m, v, t);
  }

  /** At most one shift enters a vertex, so there is only one way in. */
  lemma ShiftInUnique(f: Frame, m: Model, v1: int, v2: int, u: int, t: int)
    requires f.task.inst.graph.Valid() && f.OneIncomingShift(m) && ShiftTo(f, m, v1, u, t) && ShiftTo(f, m, v2, u, t)
    ensures v1 == v2
  {
    var d1 :| 0 <= d1 < 5 && f.task.Leads(v1, d1, u) && f.Holds(m, Shift(v1, d1, t));
    var d2 :| 0 <= d2 < 5 && f.task.Leads(v2, d2, u) && f.Holds(m, Shift(v2, d2, t));
    var g := f.task.inst.graph;
    NeighborSymmetry(g, v1, d1, u);
    NeighborSymmetry(g, v2, d2, u);
    var b1, b2 := OppositeDir(d1), OppositeDir(d2);
    assert f.task.Neighbor(u, b1) == v1 && f.task.Neighbor(u, b2) == v2;
    assert f.Incoming(u, b1, t) == Shift(v1, d1, t) && f.Incoming(u, b2, t) == Shift(v2, d2, t);
    assert f.OneShiftIn(m, u, t);
  }

  /** Walks from distinct cells never share a cell. */
  lemma {:induction false} NeverMeet(f: Frame, m: Model, w1: seq<int>, w2: seq<int>, t: nat)
    requires f.task.inst.graph.Valid() && f.OneIncomingShift(m) && ShiftWalk(f, m, w1) && ShiftWalk(f, m, w2)
    requires t < |w1| && t < |w2| && w1[0] != w2[0]
    ensures w1[t] != w2[t]
  {
    if t > 0 {
      NeverMeet(f, m, w1, w2, t - 1);
      if w1[t] == w2[t] {
        ShiftInUnique(f, m, w1[t - 1], w2[t - 1], w1[t], t - 1);
      }
    }
  }

  /** Walks from one cell are the same walk. */
  lemma {:induction false} SameWalk(f: Frame, m: Model, w1: seq<int>, w2: seq<int>, t: nat)
    requires f.OneShift(m) && ShiftWalk(f, m, w1) && ShiftWalk(f, m, w2)
    requires t < |w1| && t < |w2| && w1[0] == w2[0]
    ensures w1[t] == w2[t]
  {
    if t > 0 {
      SameWalk(f, m, w1, w2, t - 1);
      assert ShiftTo(f, m, w1[t - 1], w1[t], t - 1) && ShiftTo(f, m, w2[t - 1], w2[t], t - 1);
      ShiftUnique(f, m, w1[t - 1], w1[t], w2[t], t - 1);
    }
  }

  /** No shift leaves the goal of an agent that has to be there for good. */
  lemma GoalNotLeft(f: Frame, m: Model, a: int, v: int, u: int, t: int)
    requires f.NoneAtGoalShift(m) && f.task.IsAgent(a) && t >= f.task.End(a) && ShiftTo(f, m, v, u, t)
    ensures v != f.task.Goal(a)
  {
    var dir :| 0 <= dir < 5 && f.task.Leads(v, dir, u) && f.Holds(m, Shift(v, dir, t));
    assert !f.Holds(m, Shift(f.task.Goal(a), dir, t));
  }

  /** Agents that start together share their goal and the timestep at which they have to be there. */
  lemma StartTogether(f: Frame, m: Model, a: int, b: int)
    requires f.task.Valid() && ShiftFormula(f, m) && f.task.IsAgent(a) && f.task.IsAgent(b)
    requires f.task.Start(a) == f.task.Start(b) && f.task.End(a) <= f.task.End(b)
    ensures f.task.Goal(a) == f.task.Goal(b) && f.task.End(a) == f.task.End(b)
  {
    hide Frame.NoneAtGoalShift;
    AgentFacts(f.task, a);
    AgentFacts(f.task, b);
    assert ShiftPath(f, m, a) && ShiftPath(f, m, b);
    var wa :| IsShiftPath(f, m, a, wa);
    var wb :| IsShiftPath(f, m, b, wb);
    SameWalk(f, m, wa, wb, f.task.End(a));
    if f.task.End(a) < f.task.End(b) {
      GoalNotLeft(f, m, a, wb[f.task.End(a)], wb[f.task.End(a) + 1], f.task.End(a));
    }
  }

  /** A model needs distinct starts, and distinct goals under sum of costs, if sharing a goal is limited. */
  lemma ModelSeparates(f: Frame, m: Model)
    requires f.task.Valid() && ShiftFormula(f, m) && SharersApart(f.task)
    ensures DistinctStarts(f.task) && f.task.GoalsApart()
  {
    forall a, b | 0 <= a < b < f.task.agents
      ensures f.task.Start(a) != f.task.Start(b)
      ensures f.task.cost.SumOfCosts? ==> f.task.Goal(a) != f.task.Goal(b)
    {
      if f.task.Start(a) == f.task.Start(b) {
        if f.task.End(a) <= f.task.End(b) {
          StartTogether(f, m, a, b);
        } else {
          StartTogether(f, m, b, a);
        }
      }
      if f.task.cost.SumOfCosts? && f.task.Goal(a) == f.task.Goal(b) {
        AgentFacts(f.task, a);
        AgentFacts(f.task, b);
        assert ShiftPath(f, m, a) && ShiftPath(f, m, b);
        var wa :| IsShiftPath(f, m, a, wa);
        var wb :| IsShiftPath(f, m, b, wb);
        NeverMeet(f, m, wa, wb, f.task.End(a));
      }
    }
  }

  /** Opposite shifts exclude each other, so walks never swap. */
  lemma NeverSwap(f: Frame, m: Model, v: int, u: int, t: int)
    requires f.task.inst.graph.Valid() && f.SwapConfShift(m) && v != u
    ensures !(ShiftTo(f, m, v, u, t) && ShiftTo(f, m, u, v, t))
  {
    if ShiftTo(f, m, v, u, t) && ShiftTo(f, m, u, v, t) {
      var d1 :| 0 <= d1 < 5 && f.task.Leads(v, d1, u) && f.Holds(m, Shift(v, d1, t));
      var d2 :| 0 <= d2 < 5 && f.task.Leads(u, d2, v) && f.Holds(m, Shift(u, d2, t));
      var g := f.task.inst.graph;
      assert d1 != 0 && OppositeDir(OppositeDir(d1)) == d1 by {
        assert g.nbr[v][0] == v;
      }
      NeighborSymmetry(g, v, d1, u);
      DirectionUnique(g, u, d2, OppositeDir(d1), v);
    }
  }

  // ----- Shift: soundness -----

  /** The row of agent a: its path, then -1. */
  lemma ShiftRowStops(f: Frame, m: Model, a: int, row: seq<int>) returns (w: seq<int>)
    requires f.task.Valid() && f.task.IsAgent(a) && f.task.variables.UseShift? && ShiftFormula(f, m)
    requires MonoExtracted(f, m, a, row)
    ensures Stops(f.task, a, row) && IsShiftPath(f, m, a, w)
    ensures forall t :: 0 <= t < |w| ==> w[t] == row[t] && f.task.IsVertex(w[t])
  {
    AgentFacts(f.task, a);
    assert ShiftPath(f, m, a);
    w :| IsShiftPath(f, m, a, w);
    var e := f.task.End(a);
    forall t | 0 <= t < |w| ensures f.task.IsVertex(w[t]) {
      ShiftWalkVertex(f, m, w, t);
    }
    forall i, u | 0 <= i < e ensures MonoGoesTo(f, m, a, w[i], u, i) <==> u == w[i + 1] {
      assert ShiftTo(f, m, w[i], w[i + 1], i);
      GoesIsShift(f, m, a, w[i], u, i);
      if MonoGoesTo(f, m, a, w[i], u, i) {
        ShiftUnique(f, m, w[i], u, w[i + 1], i);
      }
    }
    forall u | e < f.task.timesteps - 1 ensures !MonoGoesTo(f, m, a, w[e], u, e) {
      GoesIsShift(f, m, a, w[e], u, e);
    }
    forall t | 0 <= t < |row| ensures (t <= e ==> row[t] == w[t]) && (t > e ==> row[t] == -1) {
      RowFollows(f, m, a, row, w, t);
    }
  }

  lemma GoesIsShift(f: Frame, m: Model, a: int, v: int, u: int, t: int)
    requires f.task.variables.UseShift?
    ensures MonoGoesTo(f, m, a, v, u, t) <==> ShiftTo(f, m, v, u, t)
  {
    if ShiftTo(f, m, v, u, t) {
      var dir :| 0 <= dir < 5 && f.task.Leads(v, dir, u) && f.Holds(m, Shift(v, dir, t));
      assert MonoGoes(f, m, a, v, dir, u, t);
    }
  }

  lemma ShiftWalkVertex(f: Frame, m: Model, w: seq<int>, t: nat)
    requires f.task.inst.graph.Valid() && ShiftWalk(f, m, w) && f.task.IsVertex(w[0]) && t < |w|
    ensures f.task.IsVertex(w[t])
  {
    if t > 0 {
      assert ShiftTo(f, m, w[t - 1], w[t], t - 1);
      var dir :| 0 <= dir < 5 && f.task.Leads(w[t - 1], dir, w[t]);
    }
  }

  /** A row r of the shown plan: the path w, then the goal. */
  ghost predicate ShiftReported(f: Frame, m: Model, a: int, w: seq<int>, r: Path) {
    && IsShiftPath(f, m, a, w) && (forall t :: 0 <= t < |w| ==> f.task.IsVertex(w[t]))
    && 0 < |r| && r[|r| - 1] == f.task.Goal(a)
    && forall t :: 0 <= t < |r| ==> r[t] == if t < |w| then w[t] else f.task.Goal(a)
  }

  ghost predicate HasShiftReport(f: Frame, m: Model, a: int, r: Path) { exists w :: ShiftReported(f, m, a, w, r) }

  lemma ShiftReportedValid(f: Frame, m: Model, a: int, w: seq<int>, r: Path)
    requires f.task.Valid() && f.task.IsAgent(a) && ShiftReported(f, m, a, w, r)
    ensures ValidPath(f.task.inst, a, r)
  {
    AgentFacts(f.task, a);
    var g := f.task.inst.graph;
    forall t | 0 <= t < |r| - 1 ensures g.Adjacent(r[t], r[t + 1]) {
      if t + 1 < |w| {
        assert ShiftTo(f, m, w[t], w[t + 1], t);
        var dir :| 0 <= dir < 5 && f.task.Leads(w[t], dir, w[t + 1]);
      } else {
        assert g.Leads(r[t], 0, r[t + 1]);
      }
    }
  }

  /** While b is still on its way it cannot be at the goal of an agent that has arrived for good. */
  lemma NotAtOthersGoal(f: Frame, m: Model, a: int, b: int, w: seq<int>, t: nat)
    requires f.task.Valid() && f.task.IsAgent(a) && f.task.IsAgent(b)
    requires f.task.Goal(a) != f.task.Goal(b) && f.task.cost.SumOfCosts?
    requires f.NoneAtGoalShift(m) && IsShiftPath(f, m, b, w) && f.task.End(a) <= t < |w|
    ensures w[t] != f.task.Goal(a)
  {
    AgentFacts(f.task, a);
    if t < |w| - 1 {
      GoalNotLeft(f, m, a, w[t], w[t + 1], t);
    }
  }

  lemma ShiftRowsApart(f: Frame, m: Model, a: int, b: int, wa: seq<int>, wb: seq<int>, ra: Path, rb: Path)
    requires f.task.Valid() && ShiftFormula(f, m) && DistinctStarts(f.task)
    requires f.task.GoalsApart() && 0 <= a < b < f.task.agents
    requires ShiftReported(f, m, a, wa, ra) && ShiftReported(f, m, b, wb, rb) && |ra| == |rb| <= f.task.timesteps
    ensures Apart(ra, rb, Parallel)
  {
    forall t | 0 <= t < |ra| ensures ra[t] != rb[t] {
      ShiftRowsDiffer(f, m, a, b, wa, wb, ra, rb, t);
    }
    forall t | 0 <= t < |ra| - 1 ensures !(ra[t] == rb[t + 1] && ra[t + 1] == rb[t]) {
      if ra[t] == rb[t + 1] && ra[t + 1] == rb[t] {
        assert ra[t] != rb[t];
        ShiftMover(f, m, a, wa, ra, t);
        ShiftMover(f, m, b, wb, rb, t);
        AgentFacts(f.task, a);
        NeverSwap(f, m, ra[t], rb[t], t);
      }
    }
  }

  lemma ShiftMover(f: Frame, m: Model, a: int, w: seq<int>, r: Path, t: nat)
    requires ShiftReported(f, m, a, w, r) && t + 1 < |r| && r[t] != r[t + 1]
    ensures ShiftTo(f, m, r[t], r[t + 1], t)
  {
    assert t + 1 < |w|;
  }

  lemma ShiftRowsDiffer(f: Frame, m: Model, a: int, b: int, wa: seq<int>, wb: seq<int>, ra: Path, rb: Path, t: nat)
    requires f.task.Valid() && ShiftFormula(f, m) && DistinctStarts(f.task)
    requires f.task.GoalsApart() && 0 <= a < b < f.task.agents
    requires ShiftReported(f, m, a, wa, ra) && ShiftReported(f, m, b, wb, rb) && |ra| == |rb| <= f.task.timesteps
    requires t < |ra|
    ensures ra[t] != rb[t]
  {
    AgentFacts(f.task, a);
    AgentFacts(f.task, b);
    if t < |wa| && t < |wb| {
      NeverMeet(f, m, wa, wb, t);
    } else if t < |wb| {
      NotAtOthersGoal(f, m, a, b, wb, t);
    } else if t < |wa| {
      NotAtOthersGoal(f, m, b, a, wa, t);
    } else {
      assert f.task.Goal(a) != f.task.Goal(b);
    }
  }

  /** The last move into the goal is a lateness the cost clauses count. */
  lemma ShiftArrival(f: Frame, m: Model, a: int, w: seq<int>, r: Path)
    requires f.task.Valid() && f.task.IsAgent(a) && f.task.cost.SumOfCosts? && ShiftReported(f, m, a, w, r)
    ensures Arrival(r, f.task.Goal(a)) <= f.task.inst.spLengths[a] + f.Delay(m, Entering, a, f.task.delta)
  {
    hide Frame.Late, ShiftWalk;
    AgentFacts(f.task, a);
    var arr, sp, goal := Arrival(r, f.task.Goal(a)), f.task.inst.spLengths[a], f.task.Goal(a);
    if arr > sp {
      var t := arr - 1;
      assert r[t] != goal && r[t + 1] == goal;
      ShiftMover(f, m, a, w, r, t);
      EnteringIsLate(f, m, a, r[t], t, t - sp);
    }
  }

  lemma EnteringIsLate(f: Frame, m: Model, a: int, v: int, t: int, d: int)
    requires f.task.inst.graph.Valid() && f.task.Goal(a) != v && ShiftTo(f, m, v, f.task.Goal(a), t)
    requires t == f.task.First(a, f.task.Goal(a)) + d
    ensures f.Late(m, Entering, a, d)
  {
    var goal := f.task.Goal(a);
    var dir :| 0 <= dir < 5 && f.task.Leads(v, dir, goal) && f.Holds(m, Shift(v, dir, t));
    var g := f.task.inst.graph;
    assert dir != 0 && OppositeDir(OppositeDir(dir)) == dir by {
      assert g.nbr[v][0] == v;
    }
    NeighborSymmetry(g, v, dir, goal);
    assert f.task.Leads(goal, OppositeDir(dir), v);
  }

  /**
   * Every model of the formula over Shift variables shows a valid plan without vertex or swapping conflicts, within
   * the cost limit, although no clause mentions vertices.
   */
  lemma ShiftSound(f: Frame, m: Model, rows: Plan)
    requires f.task.Valid() && f.task.variables.UseShift? && ShiftFormula(f, m) && SharersApart(f.task)
    requires |rows| == f.task.agents && forall a :: 0 <= a < |rows| ==> MonoExtracted(f, m, a, rows[a])
    ensures Fits(f.task, Parallel, Shown(f.task, rows)) && ShownLength(f.task, Shown(f.task, rows))
  {
    forall a | 0 <= a < |rows| ensures Stops(f.task, a, rows[a]) {
      var w := ShiftRowStops(f, m, a, rows[a]);
    }
    ShownRows(f.task, rows);
    StopsLength(f.task, rows);
    var plan := Shown(f.task, rows);
    forall a | 0 <= a < |plan| ensures HasShiftReport(f, m, a, plan[a]) {
      var w := ShiftRowStops(f, m, a, rows[a]);
      assert ShiftReported(f, m, a, w, plan[a]);
    }
    ModelSeparates(f, m);
    ShiftPlanFits(f, m, plan);
  }

  lemma ShiftPlanFits(f: Frame, m: Model, plan: Plan)
    requires f.task.Valid() && f.task.variables.UseShift? && ShiftFormula(f, m)
    requires DistinctStarts(f.task) && f.task.GoalsApart()
    requires |plan| == f.task.agents && Rectangular(plan, Timesteps(plan)) && Timesteps(plan) <= f.task.timesteps
    requires forall a :: 0 <= a < |plan| ==> HasShiftReport(f, m, a, plan[a])
    ensures Fits(f.task, Parallel, plan)
  {
    var inst := f.task.inst;
    forall a | 0 <= a < |plan|
      ensures ValidPath(inst, a, plan[a])
      ensures f.task.cost.SumOfCosts? ==>
        Arrival(plan[a], inst.goals[a]) <= inst.spLengths[a] + f.Delay(m, Entering, a, f.task.delta)
    {
      assert HasShiftReport(f, m, a, plan[a]);
      var w :| ShiftReported(f, m, a, w, plan[a]);
      ShiftReportedValid(f, m, a, w, plan[a]);
      if f.task.cost.SumOfCosts? {
        ShiftArrival(f, m, a, w, plan[a]);
      }
    }
    forall a, b | 0 <= a < b < |plan| ensures Apart(plan[a], plan[b], Parallel) {
      assert HasShiftReport(f, m, a, plan[a]) && HasShiftReport(f, m, b, plan[b]);
      var wa :| ShiftReported(f, m, a, wa, plan[a]);
      var wb :| ShiftReported(f, m, b, wb, plan[b]);
      ShiftRowsApart(f, m, a, b, wa, wb, plan[a], plan[b]);
    }
    LowerBoundsCover(inst, f.task.agents);
    if f.task.cost.SumOfCosts? {
      CostWithinDelay(f, m, plan, Entering, f.task.agents);
    }
  }

  // ----- Shift: completeness -----

  lemma PlanShiftTo(f: Frame, m: Model, plan: Plan, a: int, t: int)
    requires f.task.Valid() && f.task.variables.UseShift? && Fits(f.task, Parallel, plan) && Describes(f, m, plan)
    requires f.task.IsAgent(a) && 0 <= t < f.task.End(a)
    ensures ShiftTo(f, m, Where(plan, a, t), Where(plan, a, t + 1), t)
  {
    hide Where, Fits, Task.Valid, Task.End, Task.Exists, Steps;
    var dir := PlanStep(f.task, Parallel, plan, a, t);
    assert InPlan(f.task, plan, Shift(Where(plan, a, t), dir, t));
  }

  lemma PlanShiftPath(f: Frame, m: Model, plan: Plan, a: int)
    requires f.task.Valid() && f.task.variables.UseShift? && Fits(f.task, Parallel, plan) && Describes(f, m, plan)
    requires f.task.IsAgent(a)
    ensures ShiftPath(f, m, a)
  {
    hide Where, Fits, Task.Valid, Task.End, ShiftTo, Describes, InPlan;
    AgentFacts(f.task, a);
    var e := f.task.End(a);
    var w := seq(e + 1, t => Where(plan, a, t));
    forall t, s | 0 <= t < e && s == t + 1 ensures ShiftTo(f, m, w[t], w[s], t) {
      PlanShiftTo(f, m, plan, a, t);
    }
    PosFacts(f.task, Parallel, plan, a, 0);
    PosFacts(f.task, Parallel, plan, a, e);
    assert IsShiftPath(f, m, a, w);
  }

  lemma PlanNoneAtGoalShift(f: Frame, m: Model, plan: Plan)
    requires f.task.Valid() && Fits(f.task, Parallel, plan) && Describes(f, m, plan)
    ensures f.NoneAtGoalShift(m)
  {
    forall a, dir, t | 0 <= a < f.task.agents && 0 <= dir < 5 && t >= f.task.End(a)
      ensures !f.Holds(m, Shift(f.task.Goal(a), dir, t))
    {
      if f.Holds(m, Shift(f.task.Goal(a), dir, t)) {
        assert InPlan(f.task, plan, Shift(f.task.Goal(a), dir, t));
        var b :| 0 <= b < f.task.agents && Steps(f.task, plan, b, f.task.Goal(a), dir, t);
        AgentFacts(f.task, a);
        PosFacts(f.task, Parallel, plan, a, t);
        if a != b {
          NeverCollide(f.task, Parallel, plan, a, b, t);
        }
      }
    }
  }

  lemma PlanOneIncoming(f: Frame, m: Model, plan: Plan)
    requires f.task.Valid() && Fits(f.task, Parallel, plan) && Describes(f, m, plan)
    ensures f.OneIncomingShift(m)
  {
    forall v, t ensures f.OneShiftIn(m, v, t) {
      forall d1, d2 | 0 <= d1 < d2 < 5 && f.task.Neighbor(v, d1) != -1 && f.task.Neighbor(v, d2) != -1
        ensures !(f.Holds(m, f.Incoming(v, d1, t)) && f.Holds(m, f.Incoming(v, d2, t)))
      {
        if f.Holds(m, f.Incoming(v, d1, t)) && f.Holds(m, f.Incoming(v, d2, t)) {
          IncomingStep(f, m, plan, v, d1, t);
          IncomingStep(f, m, plan, v, d2, t);
          OneEnters(f, plan, v, d1, d2, t);
        }
      }
    }
  }

  /** Some agent enters v at t + 1 from its neighbour in direction dir. */
  ghost predicate Enters(task: Task, plan: Plan, b: int, v: int, dir: int, t: int) {
    task.IsAgent(b) && t >= 0 && Where(plan, b, t) == task.Neighbor(v, dir) && Where(plan, b, t + 1) == v
  }

  lemma IncomingStep(f: Frame, m: Model, plan: Plan, v: int, dir: int, t: int)
    requires f.task.Valid() && Fits(f.task, Parallel, plan) && Describes(f, m, plan) && 0 <= dir < 5
    requires f.task.Neighbor(v, dir) != -1 && f.Holds(m, f.Incoming(v, dir, t))
    ensures exists b :: Enters(f.task, plan, b, v, dir, t)
  {
    var x := f.Incoming(v, dir, t);
    assert InPlan(f.task, plan, x);
    var b :| 0 <= b < f.task.agents && Steps(f.task, plan, b, x.v, x.dir, t);
    NeighborLeads(f.task, v, dir);
    NeighborSymmetry(f.task.inst.graph, v, dir, x.v);
    assert Enters(f.task, plan, b, v, dir, t);
  }

  lemma OneEnters(f: Frame, plan: Plan, v: int, d1: int, d2: int, t: int)
    requires f.task.Valid() && Fits(f.task, Parallel, plan) && 0 <= d1 < 5 && 0 <= d2 < 5
    requires f.task.Neighbor(v, d1) != -1 && f.task.Neighbor(v, d2) != -1
    requires exists b :: Enters(f.task, plan, b, v, d1, t)
    requires exists b :: Enters(f.task, plan, b, v, d2, t)
    ensures d1 == d2
  {
    var b1 :| Enters(f.task, plan, b1, v, d1, t);
    var b2 :| Enters(f.task, plan, b2, v, d2, t);
    if b1 != b2 {
      NeverCollide(f.task, Parallel, plan, b1, b2, t + 1);
    }
    NeighborLeads(f.task, v, d1);
    NeighborLeads(f.task, v, d2);
    DirectionUnique(f.task.inst.graph, v, d1, d2, f.task.Neighbor(v, d1));
  }

  /** Every fitting plan is a model of the formula over Shift variables. */
  lemma ShiftComplete(f: Frame, m: Model, plan: Plan)
    requires f.task.Valid() && f.task.variables.UseShift? && Fits(f.task, Parallel, plan) && Describes(f, m, plan)
    ensures ShiftFormula(f, m)
  {
    forall a | f.task.IsAgent(a) ensures ShiftPath(f, m, a) {
      PlanShiftPath(f, m, plan, a);
    }
    PlanNoneAtGoalShift(f, m, plan);
    PlanSwap(f, m, Parallel, plan);
    PlanOneShift(f, m, Parallel, plan);
    PlanOneIncoming(f, m, plan);
    if f.task.cost.SumOfCosts? {
      PlanLimitSoc(f, m, Parallel, plan, Entering);
    }
  }

  // ----- Pass: the greedy walk is the path -----

  /** The extracted row is the path w, then -1. */
  ghost predicate OnPath(f: Frame, m: Model, a: int, w: seq<int>, row: seq<int>) {
    IsPassPath(f, m, a, w) && Stops(f.task, a, row) && forall t :: 0 <= t < |w| && t < |row| ==> w[t] == row[t]
  }

  /** The graph path of agent a is the only way: at each of its timesteps the greedy choice is its next cell. */
  lemma PassRowStops(f: Frame, m: Model, a: int, row: seq<int>) returns (w: seq<int>)
    requires f.task.Valid() && f.task.withAt && f.task.IsAgent(a) && f.task.variables.UsePass? && PassFormula(f, m)
    requires MonoExtracted(f, m, a, row)
    ensures OnPath(f, m, a, w, row)
  {
    AgentFacts(f.task, a);
    assert PassPath(f, m, a);
    w :| IsPassPath(f, m, a, w);
    var e := f.task.End(a);
    forall i, u | 0 <= i < e ensures MonoGoesTo(f, m, a, w[i], u, i) <==> u == w[i + 1] {
      PassStepUnique(f, m, a, w, i, u);
    }
    forall u | e < f.task.timesteps - 1 ensures !MonoGoesTo(f, m, a, w[e], u, e) {
      NoPassAfterEnd(f, m, a, u);
    }
    forall t | 0 <= t < |row| ensures (t <= e ==> row[t] == w[t]) && (t > e ==> row[t] == -1) {
      RowFollows(f, m, a, row, w, t);
    }
  }

  lemma PassStepUnique(f: Frame, m: Model, a: int, w: seq<int>, i: nat, u: int)
    requires f.task.Valid() && f.task.IsAgent(a) && f.task.variables.UsePass? && f.NoDuplicates(m)
    requires IsPassPath(f, m, a, w) && i + 1 < |w|
    ensures MonoGoesTo(f, m, a, w[i], u, i) <==> u == w[i + 1]
  {
    AgentFacts(f.task, a);
    assert PassTo(f, m, a, w[i], w[i + 1], i);
    var dir :| 0 <= dir < 5 && f.task.Leads(w[i], dir, w[i + 1]) && f.Holds(m, Pass(a, w[i], dir, i));
    assert f.Holds(m, At(a, w[i + 1], i + 1));
    assert MonoGoes(f, m, a, w[i], dir, w[i + 1], i);
    assert f.InOnePlace(m, a, i + 1);
  }

  /** No Pass variable leads away from the goal once the agent has to be there. */
  lemma NoPassAfterEnd(f: Frame, m: Model, a: int, u: int)
    requires f.task.Valid() && f.task.IsAgent(a) && f.task.variables.UsePass?
    ensures !MonoGoesTo(f, m, a, f.task.Goal(a), u, f.task.End(a))
  {
    AgentFacts(f.task, a);
    if dir :| 0 <= dir < 5 && MonoGoes(f, m, a, f.task.Goal(a), dir, u, f.task.End(a)) {
      WindowStep(f.task, a, f.task.Goal(a), dir, u);
      LastBeforeEnd(f.task, a, u);
    }
  }

  // ----- Pass: soundness, by keeping of the model only the paths -----

  /** One path for every agent. */
  ghost predicate ArePaths(f: Frame, m: Model, paths: Plan) {
    |paths| == f.task.agents && forall a :: 0 <= a < |paths| ==> IsPassPath(f, m, a, paths[a])
  }

  /** Everything true on the paths was true in the model. */
  lemma PathsInModel(f: Frame, m: Model, m': Model, paths: Plan, x: Atom)
    requires f.task.Valid() && f.task.withAt && f.task.variables.UsePass?
    requires ArePaths(f, m, paths) && Describes(f, m', paths)
    requires f.Holds(m', x)
    ensures f.Holds(m, x)
  {
    assert InPlan(f.task, paths, x);
    match x
    case At(a, v, t) => assert IsPassPath(f, m, a, paths[a]);
    case Pass(a, v, dir, t) =>
      assert IsPassPath(f, m, a, paths[a]);
      assert PassTo(f, m, a, paths[a][t], paths[a][t + 1], t);
      var d :| 0 <= d < 5 && f.task.Leads(v, d, paths[a][t + 1]) && f.Holds(m, Pass(a, v, d, t));
      AgentFacts(f.task, a);
      DirectionUnique(f.task.inst.graph, v, d, dir, paths[a][t + 1]);
    case Shift(v, dir, t) =>
  }

  lemma PathsHold(f: Frame, m: Model, m': Model, paths: Plan, a: int, t: nat)
    requires f.task.Valid() && f.task.withAt && f.task.variables.UsePass?
    requires ArePaths(f, m, paths) && Describes(f, m', paths)
    requires f.task.IsAgent(a) && t < |paths[a]|
    ensures |paths[a]| == f.task.End(a) + 1 && f.Holds(m', At(a, paths[a][t], t))
    ensures t < f.task.End(a) ==> PassTo(f, m', a, paths[a][t], paths[a][t + 1], t)
  {
    assert IsPassPath(f, m, a, paths[a]);
    assert f.Holds(m, At(a, paths[a][t], t));
    assert InPlan(f.task, paths, At(a, paths[a][t], t));
    if t < f.task.End(a) {
      assert PassTo(f, m, a, paths[a][t], paths[a][t + 1], t);
      var d :| 0 <= d < 5 && f.task.Leads(paths[a][t], d, paths[a][t + 1]) && f.Holds(m, Pass(a, paths[a][t], d, t));
      assert InPlan(f.task, paths, Pass(a, paths[a][t], d, t));
    }
  }

  lemma PathsMovement(f: Frame, m: Model, m': Model, paths: Plan)
    requires f.task.Valid() && f.task.withAt && f.task.variables.UsePass?
    requires ArePaths(f, m, paths) && Describes(f, m', paths)
    ensures f.StartsHold(m') && f.GoalsHold(m') && f.Movement(m')
  {
    forall a | 0 <= a < f.task.agents
      ensures f.Holds(m', At(a, f.task.Start(a), 0)) && f.Holds(m', At(a, f.task.Goal(a), f.task.End(a)))
    {
      AgentFacts(f.task, a);
      assert IsPassPath(f, m, a, paths[a]);
      PathsHold(f, m, m', paths, a, 0);
      PathsHold(f, m, m', paths, a, f.task.End(a));
    }
    forall a, v, dir, u, t | f.task.Leads(v, dir, u) && f.Holds(m', Pass(a, v, dir, t))
      ensures f.Holds(m', At(a, u, t + 1))
    {
      assert InPlan(f.task, paths, Pass(a, v, dir, t));
      assert IsPassPath(f, m, a, paths[a]);
      PathsHold(f, m, m', paths, a, t + 1);
    }
    forall a, v, t | f.Holds(m', At(a, v, t)) && f.HasNextPass(a, v, t) ensures f.LeavesBy(m', a, v, t) {
      assert InPlan(f.task, paths, At(a, v, t));
      assert IsPassPath(f, m, a, paths[a]);
      PathsHold(f, m, m', paths, a, t);
      if t == f.task.End(a) {
        AgentFacts(f.task, a);
        NoDeadEndPass(f, a, v, t);
      }
      assert PassTo(f, m', a, v, paths[a][t + 1], t);
    }
  }

  lemma PathsClauses(f: Frame, m: Model, m': Model, paths: Plan)
    requires f.task.Valid() && f.task.withAt && f.task.variables.UsePass? && PassFormula(f, m)
    requires ArePaths(f, m, paths) && Describes(f, m', paths)
    ensures (f.task.cost.SumOfCosts? ==> f.NoneAtGoal(m')) && f.Eager(m', Parallel) && f.NoDuplicates(m')
  {
    hide Task.Valid, ArePaths, Describes, Frame.Holds, Task.Exists;
    forall x | f.Holds(m', x) ensures f.Holds(m, x) {
      PathsInModel(f, m, m', paths, x);
    }
    forall a, t | 0 <= a < f.task.agents && 0 <= t < f.task.timesteps ensures f.InOnePlace(m', a, t) {
      assert f.InOnePlace(m, a, t);
    }
  }

  /** Without duplicates, off the goal in the model and on the path are the same. */
  lemma {:induction false} PathsDelay(f: Frame, m: Model, m': Model, paths: Plan, a: int, n: nat)
    requires f.task.Valid() && f.task.withAt && f.task.variables.UsePass?
    requires f.task.cost.SumOfCosts? && f.NoDuplicates(m)
    requires ArePaths(f, m, paths) && Describes(f, m', paths) && f.task.IsAgent(a) && n <= f.task.delta
    ensures f.Delay(m', NotAtGoal, a, n) == f.Delay(m, NotAtGoal, a, n)
  {
    hide ArePaths, Describes, Frame.NoDuplicates, Frame.Late, Task.Valid;
    if n > 0 {
      PathsDelay(f, m, m', paths, a, n - 1);
      PathsLate(f, m, m', paths, a, n - 1);
    }
  }

  lemma PathsLate(f: Frame, m: Model, m': Model, paths: Plan, a: int, d: nat)
    requires f.task.Valid() && f.task.withAt && f.task.variables.UsePass?
    requires f.task.cost.SumOfCosts? && f.NoDuplicates(m)
    requires ArePaths(f, m, paths) && Describes(f, m', paths) && f.task.IsAgent(a) && d < f.task.delta
    ensures f.Late(m', NotAtGoal, a, d) <==> f.Late(m, NotAtGoal, a, d)
  {
    AgentFacts(f.task, a);
    var g, t := f.task.Goal(a), f.task.First(a, f.task.Goal(a)) + d;
    assert IsPassPath(f, m, a, paths[a]);
    PathsHold(f, m, m', paths, a, t);
    assert f.Holds(m, At(a, paths[a][t], t)) && f.InOnePlace(m, a, t);
    if f.Holds(m', At(a, g, t)) {
      PathsInModel(f, m, m', paths, At(a, g, t));
    }
  }

  lemma {:induction false} PathsTotalDelay(f: Frame, m: Model, m': Model, paths: Plan, k: nat)
    requires f.task.Valid() && f.task.withAt && f.task.variables.UsePass?
    requires f.task.cost.SumOfCosts? && f.NoDuplicates(m)
    requires ArePaths(f, m, paths) && Describes(f, m', paths) && k <= f.task.agents
    ensures f.TotalDelay(m', NotAtGoal, k) == f.TotalDelay(m, NotAtGoal, k)
  {
    hide ArePaths, Describes, Frame.NoDuplicates, Frame.Delay;
    if k > 0 {
      PathsTotalDelay(f, m, m', paths, k - 1);
      PathsDelay(f, m, m', paths, k - 1, f.task.delta);
    }
  }

  lemma RowExtracted(f: Frame, m: Model, m': Model, paths: Plan, a: int, row: seq<int>)
    requires f.task.Valid() && f.task.withAt && f.task.variables.UsePass?
    requires ArePaths(f, m, paths) && Describes(f, m', paths)
    requires f.task.IsAgent(a) && OnPath(f, m, a, paths[a], row)
    ensures Extracted(f, m', a, row)
  {
    AgentFacts(f.task, a);
    assert IsPassPath(f, m, a, paths[a]);
    forall t | 0 <= t < |row| - 1 ensures NextVertex(f, m', a, row[t], row[t + 1], t) {
      if t < f.task.End(a) {
        PathsHold(f, m, m', paths, a, t);
        assert PassTo(f, m', a, row[t], row[t + 1], t);
        var dir :| 0 <= dir < 5 && f.task.Leads(row[t], dir, row[t + 1]) && f.Holds(m', Pass(a, row[t], dir, t));
        assert Goes(f, m', a, row[t], dir, row[t + 1], t);
        assert GoesTo(f, m', a, row[t], row[t + 1], t);
      } else if t == f.task.End(a) {
        forall u ensures !GoesTo(f, m', a, row[t], u, t) {
          StuckAfterEnd(f, m', a, u);
        }
      }
    }
  }

  /**
   * Every model of the formula over At and Pass variables without duplicates shows a valid conflict-free plan within
   * the cost limit: the greedy walk is the path in the graph, so it never gets stuck.
   */
  lemma PassSound(f: Frame, m: Model, rows: Plan, lo: int, hi: int)
    requires f.task.Valid() && f.task.withAt && f.task.variables.UsePass? && f.Numbered(lo, hi) && PassFormula(f, m)
    requires |rows| == f.task.agents <= |f.task.inst.goals|
    requires forall a :: 0 <= a < |rows| ==> MonoExtracted(f, m, a, rows[a])
    ensures Fits(f.task, Parallel, Shown(f.task, rows)) && ShownLength(f.task, Shown(f.task, rows))
  {
    var paths := PathsOf(f, m, rows, f.task.agents);
    var m' := PlanModel(f, paths, lo, hi);
    PathsMovement(f, m, m', paths);
    PathsClauses(f, m, m', paths);
    if f.task.cost.SumOfCosts? {
      PathsTotalDelay(f, m, m', paths, f.task.agents);
    }
    forall a | 0 <= a < |rows| ensures Extracted(f, m', a, rows[a]) {
      RowExtracted(f, m, m', paths, a, rows[a]);
    }
    EagerSound(f, m', Parallel, false, rows);
    ShownStops(f, m', rows);
  }

  lemma {:induction false} PathsOf(f: Frame, m: Model, rows: Plan, k: nat) returns (paths: Plan)
    requires f.task.Valid() && f.task.withAt && f.task.variables.UsePass?
    requires PassFormula(f, m) && k <= f.task.agents == |rows|
    requires forall a :: 0 <= a < |rows| ==> MonoExtracted(f, m, a, rows[a])
    ensures |paths| == k && forall a :: 0 <= a < k ==> OnPath(f, m, a, paths[a], rows[a])
  {
    if k == 0 {
      paths := [];
    } else {
      paths := PathsOf(f, m, rows, k - 1);
      var w := PassRowStops(f, m, k - 1, rows[k - 1]);
      paths := paths + [w];
    }
  }

  // ----- Pass: completeness -----

  lemma PassComplete(f: Frame, m: Model, plan: Plan)
    requires f.task.Valid() && f.task.withAt && f.task.variables.UsePass?
    requires Fits(f.task, Parallel, plan) && Describes(f, m, plan)
    ensures PassFormula(f, m)
  {
    hide Describes, Fits, Task.Valid, PassPath, Frame.Movement, Frame.StartsHold, Frame.GoalsHold;
    PlanHard(f, m, Parallel, plan, false);
    PlanEager(f, m, Parallel, plan);
    forall a | f.task.IsAgent(a) ensures PassPath(f, m, a) {
      PlanPassPath(f, m, plan, a);
    }
  }

  lemma PlanPassPath(f: Frame, m: Model, plan: Plan, a: int)
    requires f.task.Valid() && f.task.withAt && f.task.variables.UsePass? && f.task.IsAgent(a)
    requires Fits(f.task, Parallel, plan) && Describes(f, m, plan)
    ensures PassPath(f, m, a)
  {
    hide Fits, Task.Valid;
    AgentFacts(f.task, a);
    var e := f.task.End(a);
    var w := seq(e + 1, t => Where(plan, a, t));
    forall t | 0 <= t < |w| ensures f.Holds(m, At(a, w[t], t)) {
      PlanAtExists(f.task, Parallel, plan, a, t);
    }
    forall t, s | 0 <= t < e && s == t + 1 ensures PassTo(f, m, a, w[t], w[s], t) {
      var dir := PlanStep(f.task, Parallel, plan, a, t);
      assert InPlan(f.task, plan, Pass(a, w[t], dir, t));
    }
    PosFacts(f.task, Parallel, plan, a, 0);
    PosFacts(f.task, Parallel, plan, a, e);
    assert IsPassPath(f, m, a, w);
  }

  // ----- both formulas decide the same question -----

  lemma {:induction false} MonoRowExists(f: Frame, m: Model, a: int, n: nat) returns (row: seq<int>)
    ensures |row| == n && (n > 0 ==> row[0] == f.task.Start(a))
    ensures forall t, s :: 0 <= t < n - 1 && s == t + 1 ==> MonoNext(f, m, a, row[t], row[s], t)
  {
    if n == 0 {
      row := [];
    } else if n == 1 {
      row := [f.task.Start(a)];
    } else {
      var prefix := MonoRowExists(f, m, a, n - 1);
      var v, u, i := prefix[n - 2], -1, n - 2;
      if v != -1 && exists w :: MonoGoesTo(f, m, a, v, w, i) {
        u :| MonoGoesTo(f, m, a, v, u, i);
      }
      row := prefix + [u];
    }
  }

  lemma {:induction false} MonoRowsExist(f: Frame, m: Model, k: nat) returns (rows: Plan)
    ensures |rows| == k && forall a :: 0 <= a < k ==> MonoExtracted(f, m, a, rows[a])
  {
    if k == 0 {
      rows := [];
    } else {
      rows := MonoRowsExist(f, m, k - 1);
      var row := MonoRowExists(f, m, k - 1, f.task.timesteps);
      rows := rows + [row];
    }
  }

  /**
   * The formula over Shift variables has a model exactly when a valid plan within the cost limit exists, if agents that
   * share a goal start apart and (under sum of costs) are due at the same timestep. Otherwise there is no plan.
   */
  lemma ShiftDecides(f: Frame, lo: int, hi: int)
    requires f.task.Valid() && f.task.variables.UseShift? && f.Numbered(lo, hi)
    ensures Solvable(f.task, Parallel) ==> SharersApart(f.task) && exists m :: ShiftFormula(f, m)
    ensures SharersApart(f.task) && (exists m :: ShiftFormula(f, m)) ==> Solvable(f.task, Parallel)
  {
    if m :| SharersApart(f.task) && ShiftFormula(f, m) {
      var rows := MonoRowsExist(f, m, f.task.agents);
      ShiftSound(f, m, rows);
    }
    if Solvable(f.task, Parallel) {
      SolvableApart(f.task, Parallel);
      var plan :| Fits(f.task, Parallel, plan);
      var m := PlanModel(f, plan, lo, hi);
      ShiftComplete(f, m, plan);
    }
  }

  /** So the formula decides whether there is a plan exactly when sharing is limited so, or it has no model at all. */
  lemma ShiftDecidesIff(f: Frame, lo: int, hi: int)
    requires f.task.Valid() && f.task.variables.UseShift? && f.Numbered(lo, hi)
    ensures ((exists m :: ShiftFormula(f, m)) <==> Solvable(f.task, Parallel))
       <==> SharersApart(f.task) || !exists m :: ShiftFormula(f, m)
  {
    ShiftDecides(f, lo, hi);
  }

  /** So has the formula over At and Pass variables, even when starts coincide. */
  lemma PassDecides(f: Frame, lo: int, hi: int)
    requires f.task.Valid() && f.task.withAt && f.task.variables.UsePass? && f.Numbered(lo, hi)
    ensures (exists m :: PassFormula(f, m)) <==> Solvable(f.task, Parallel)
  {
    if exists m :: PassFormula(f, m) {
      var m :| PassFormula(f, m);
      var rows := MonoRowsExist(f, m, f.task.agents);
      PassSound(f, m, rows, lo, hi);
    }
    if Solvable(f.task, Parallel) {
      var plan :| Fits(f.task, Parallel, plan);
      var m := PlanModel(f, plan, lo, hi);
      PassComplete(f, m, plan);
    }
  }
}
