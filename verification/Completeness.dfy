/**
 * From plans to models: every valid plan within the cost limit is a model of the formula, so the windows lose nothing.
 */
module Completeness {
  import opened Grids
  import opened Instances
  import opened Plans
  import opened Cnf
  import opened Encodings
  import opened Windows

  /** A valid plan that respects the cost limit. */
  ghost predicate Fits(task: Task, motion: Motion, plan: Plan) {
    && task.agents <= |task.inst.starts| == |task.inst.goals| && task.agents < |task.inst.socLBs|
    && ValidPlan(task.inst, task.agents, motion, plan)
    && match task.cost
       case Makespan => Timesteps(plan) <= task.timesteps
       case SumOfCosts => SumOfCostsOf(plan, task.inst.goals) <= task.inst.GetSocLB(task.agents) + task.delta
  }

  // ----- positions over all time -----

  /** Every agent of a fitting plan has arrived by the last timestep it has variables for. */
  lemma ArrivesInTime(task: Task, motion: Motion, plan: Plan, a: int)
    requires task.Valid() && Fits(task, motion, plan) && task.IsAgent(a)
    ensures ValidPath(task.inst, a, plan[a]) && |plan[a]| == Timesteps(plan)
    ensures task.inst.spLengths[a] <= Arrival(plan[a], task.Goal(a)) <= task.End(a)
  {
    AgentFacts(task, a);
    PathNotShorter(task.inst, task.agents, a, plan[a]);
    if task.cost.SumOfCosts? {
      LowerBoundsCover(task.inst, task.agents);
      SlackBounds(task, motion, plan, a, task.agents);
    }
  }

  /** No agent uses more of the allowance than the plan does in total. */
  lemma {:induction false} SlackBounds(task: Task, motion: Motion, plan: Plan, a: int, k: nat)
    requires task.Valid() && ValidPlan(task.inst, task.agents, motion, plan) && 0 <= a < k <= task.agents
    ensures Arrival(plan[a], task.inst.goals[a]) - task.inst.spLengths[a]
         <= CostOfFirst(plan, task.inst.goals, k) - task.inst.socLBs[k]
  {
    assert task.inst.AgentTables(k - 1);
    SumOfCostsLowerBound(task.inst, task.agents, k - 1, motion, plan);
    LowerBoundsCover(task.inst, k - 1);
    PathNotShorter(task.inst, task.agents, k - 1, plan[k - 1]);
    if a < k - 1 {
      SlackBounds(task, motion, plan, a, k - 1);
    }
  }

  /** Where agent a is at t, waiting at its goal after the plan. */
  function Where(plan: Plan, a: int, t: int): int {
    if 0 <= a < |plan| && |plan[a]| > 0 && t >= 0 then Pos(plan[a], t) else -1
  }

  lemma PosFacts(task: Task, motion: Motion, plan: Plan, a: int, t: int)
    requires task.Valid() && Fits(task, motion, plan) && task.IsAgent(a) && t >= 0
    ensures task.IsVertex(Where(plan, a, t)) && task.inst.graph.Adjacent(Where(plan, a, t), Where(plan, a, t + 1))
    ensures t >= Arrival(plan[a], task.Goal(a)) ==> Where(plan, a, t) == task.Goal(a)
    ensures t >= task.End(a) ==> Where(plan, a, t) == task.Goal(a)
    ensures Where(plan, a, 0) == task.Start(a)
    ensures t <= task.End(a) ==>
      Usable(task, a, Where(plan, a, t)) && task.First(a, Where(plan, a, t)) <= t <= task.Last(a, Where(plan, a, t))
  {
    var p := plan[a];
    ArrivesInTime(task, motion, plan, a);
    AgentFacts(task, a);
    ArrivalInside(task.inst, a, p);
    var arr := Arrival(p, task.Goal(a));
    var g := task.inst.graph;
    if t < |p| - 1 {
      assert g.Adjacent(p[t], p[t + 1]);
    } else {
      assert g.Leads(Where(plan, a, t), 0, Where(plan, a, t + 1));
    }
    if t <= task.End(a) {
      UsableFacts(task, a, Where(plan, a, t));
      if t <= arr {
        PathFromStart(task.inst, task.agents, a, p, t);
        PathToGoal(task.inst, task.agents, a, p, t, arr);
      } else {
        PathFromStart(task.inst, task.agents, a, p, arr);
      }
    }
  }

  /** Two agents never meet, swap or (under pebble motion) follow, at any time. */
  lemma NeverCollide(task: Task, motion: Motion, plan: Plan, a1: int, a2: int, t: int)
    requires task.Valid() && Fits(task, motion, plan) && task.IsAgent(a1) && task.IsAgent(a2) && a1 != a2 && t >= 0
    ensures Where(plan, a1, t) != Where(plan, a2, t)
    ensures !(Where(plan, a1, t) == Where(plan, a2, t + 1) && Where(plan, a1, t + 1) == Where(plan, a2, t))
    ensures motion.Pebble? ==>
      Where(plan, a1, t) != Where(plan, a2, t + 1) && Where(plan, a1, t + 1) != Where(plan, a2, t)
  {
    var n := Timesteps(plan);
    var b1, b2 := if a1 < a2 then a1 else a2, if a1 < a2 then a2 else a1;
    assert ValidPath(task.inst, b1, plan[b1]) && ValidPath(task.inst, b2, plan[b2]);
    assert Apart(plan[b1], plan[b2], motion);
    assert !Collide(plan[b1], plan[b2], n - 1, motion);
    if t < n {
      assert !Collide(plan[b1], plan[b2], t, motion);
    }
  }

  // ----- the model of a plan -----

  /** The plan makes variable x true. Agents are described up to their last timestep only. */
  ghost predicate InPlan(task: Task, plan: Plan, x: Atom) {
    match x
    case At(a, v, t) => 0 <= t <= task.End(a) && Where(plan, a, t) == v
    case Pass(a, v, dir, t) => Steps(task, plan, a, v, dir, t)
    case Shift(v, dir, t) => exists a :: 0 <= a < task.agents && Steps(task, plan, a, v, dir, t)
  }

  /** Agent a moves (or waits) from v in direction dir at t, still before its last timestep. */
  ghost predicate Steps(task: Task, plan: Plan, a: int, v: int, dir: int, t: int) {
    0 <= t < task.End(a) && Where(plan, a, t) == v && Where(plan, a, t + 1) == task.Neighbor(v, dir)
  }

  /** The model says of every variable whether the plan makes it true. */
  ghost predicate Describes(f: Frame, m: Model, plan: Plan) {
    forall x :: f.Holds(m, x) <==> f.task.Exists(x) && InPlan(f.task, plan, x)
  }

  ghost predicate Marked(f: Frame, plan: Plan, i: int) {
    exists x :: f.task.Exists(x) && f.Id(x) == i && InPlan(f.task, plan, x)
  }

  /** Because the numbering is injective, some model describes the plan. */
  lemma PlanModel(f: Frame, plan: Plan, lo: int, hi: int) returns (m: Model)
    requires f.Numbered(lo, hi)
    ensures Describes(f, m, plan)
  {
    m := MarkedBelow(f, plan, lo, hi);
    forall x ensures f.Holds(m, x) <==> f.task.Exists(x) && InPlan(f.task, plan, x) {
      if f.task.Exists(x) && InPlan(f.task, plan, x) {
        assert Marked(f, plan, f.Id(x));
      }
      if f.Holds(m, x) {
        var y :| f.task.Exists(y) && f.Id(y) == f.Id(x) && InPlan(f.task, plan, y);
        assert x == y;
      }
    }
  }

  ghost function MarkedBelow(f: Frame, plan: Plan, lo: int, hi: int): (m: set<int>)
    ensures forall i :: i in m <==> lo <= i < hi && Marked(f, plan, i)
    decreases hi - lo
  {
    if hi <= lo then {}
    else MarkedBelow(f, plan, lo, hi - 1) + (if Marked(f, plan, hi - 1) then {hi - 1} else {})
  }

  /** The windows cut nothing the plan uses. */
  lemma PlanAtExists(task: Task, motion: Motion, plan: Plan, a: int, t: int)
    requires task.Valid() && task.withAt && Fits(task, motion, plan) && task.IsAgent(a) && 0 <= t <= task.End(a)
    ensures task.Exists(At(a, Where(plan, a, t), t)) && InPlan(task, plan, At(a, Where(plan, a, t), t))
  {
    PosFacts(task, motion, plan, a, t);
  }

  /** A step of the plan has a direction, and its movement variables exist. */
  lemma PlanStep(task: Task, motion: Motion, plan: Plan, a: int, t: int) returns (dir: int)
    requires task.Valid() && Fits(task, motion, plan) && task.IsAgent(a) && 0 <= t < task.End(a)
    ensures 0 <= dir < 5 && task.Leads(Where(plan, a, t), dir, Where(plan, a, t + 1))
    ensures Steps(task, plan, a, Where(plan, a, t), dir, t)
    ensures task.variables.UsePass? ==> task.Exists(Pass(a, Where(plan, a, t), dir, t))
    ensures task.variables.UseShift? ==> task.Exists(Shift(Where(plan, a, t), dir, t))
  {
    PosFacts(task, motion, plan, a, t);
    PosFacts(task, motion, plan, a, t + 1);
    var v, u := Where(plan, a, t), Where(plan, a, t + 1);
    dir :| 0 <= dir < 5 && task.inst.graph.Leads(v, dir, u);
    WindowStep(task, a, v, dir, u);
    if task.variables.UseShift? {
      ShiftWindow(task, a, v, dir, u, t);
    }
  }

  // ----- the model satisfies every clause family -----

  lemma PositionsHold(f: Frame, m: Model, motion: Motion, plan: Plan)
    requires f.task.Valid() && f.task.withAt && Fits(f.task, motion, plan) && Describes(f, m, plan)
    ensures f.StartsHold(m) && f.GoalsHold(m)
  {
    forall a | 0 <= a < f.task.agents
      ensures f.Holds(m, At(a, f.task.Start(a), 0)) && f.Holds(m, At(a, f.task.Goal(a), f.task.End(a)))
    {
      AgentFacts(f.task, a);
      PlanAtExists(f.task, motion, plan, a, 0);
      PlanAtExists(f.task, motion, plan, a, f.task.End(a));
      PosFacts(f.task, motion, plan, a, 0);
      PosFacts(f.task, motion, plan, a, f.task.End(a));
    }
  }

  lemma PlanNoneAtGoal(f: Frame, m: Model, motion: Motion, plan: Plan)
    requires f.task.Valid() && f.task.withAt && Fits(f.task, motion, plan) && Describes(f, m, plan)
    ensures f.NoneAtGoal(m)
  {
    forall a, a2, t | 0 <= a < f.task.agents && 0 <= a2 < f.task.agents && t > f.task.End(a)
      ensures !f.Holds(m, At(a2, f.task.Goal(a), t))
    {
      AgentFacts(f.task, a);
      PosFacts(f.task, motion, plan, a, t);
      if a != a2 {
        NeverCollide(f.task, motion, plan, a, a2, t);
      }
    }
  }

  lemma PlanNoDuplicates(f: Frame, m: Model, plan: Plan)
    requires Describes(f, m, plan)
    ensures f.NoDuplicates(m)
  {
    forall a, t | 0 <= a < f.task.agents && 0 <= t < f.task.timesteps ensures f.InOnePlace(m, a, t) {
    }
  }

  lemma PlanNextVertexAt(f: Frame, m: Model, motion: Motion, plan: Plan)
    requires f.task.Valid() && f.task.withAt && Fits(f.task, motion, plan) && Describes(f, m, plan)
    ensures f.NextVertexAt(m)
  {
    forall a, v, t | f.Holds(m, At(a, v, t)) && f.HasNextAt(a, v, t) ensures f.MovesTo(m, a, v, t) {
      assert InPlan(f.task, plan, At(a, v, t));
      PosFacts(f.task, motion, plan, a, t);
      NoDeadEndAt(f, a, v, t);
      assert t < f.task.End(a);
      var dir := PlanStep(f.task, motion, plan, a, t);
      PlanAtExists(f.task, motion, plan, a, t + 1);
      assert f.Holds(m, At(a, Where(plan, a, t + 1), t + 1));
    }
  }

  lemma PlanPass(f: Frame, m: Model, motion: Motion, plan: Plan)
    requires f.task.Valid() && f.task.withAt && f.task.variables.UsePass?
    requires Fits(f.task, motion, plan) && Describes(f, m, plan)
    ensures f.EnterVertexPass(m) && f.NextEdgePass(m)
  {
    forall a, v, dir, u, t | f.task.Leads(v, dir, u) && f.Holds(m, Pass(a, v, dir, t))
      ensures f.Holds(m, At(a, u, t + 1))
    {
      assert InPlan(f.task, plan, Pass(a, v, dir, t));
      PlanAtExists(f.task, motion, plan, a, t + 1);
    }
    forall a, v, t | f.Holds(m, At(a, v, t)) && f.HasNextPass(a, v, t) ensures f.LeavesBy(m, a, v, t) {
      assert InPlan(f.task, plan, At(a, v, t));
      PosFacts(f.task, motion, plan, a, t);
      NoDeadEndPass(f, a, v, t);
      var dir := PlanStep(f.task, motion, plan, a, t);
      assert f.Holds(m, Pass(a, v, dir, t));
    }
  }

  /** Only one agent can step from v at t, and in one direction. */
  lemma StepUnique(task: Task, motion: Motion, plan: Plan, a1: int, a2: int, v: int, d1: int, d2: int, t: int)
    requires task.Valid() && Fits(task, motion, plan) && task.IsAgent(a1) && task.IsAgent(a2)
    requires Steps(task, plan, a1, v, d1, t) && Steps(task, plan, a2, v, d2, t)
    requires task.Neighbor(v, d1) != -1 && task.Neighbor(v, d2) != -1
    ensures a1 == a2 && d1 == d2
  {
    if a1 != a2 {
      NeverCollide(task, motion, plan, a1, a2, t);
    }
    NeighborLeads(task, v, d1);
    NeighborLeads(task, v, d2);
    DirectionUnique(task.inst.graph, v, d1, d2, task.Neighbor(v, d1));
  }

  lemma PlanOneShift(f: Frame, m: Model, motion: Motion, plan: Plan)
    requires f.task.Valid() && Fits(f.task, motion, plan) && Describes(f, m, plan)
    ensures f.OneShift(m)
  {
    forall v, t ensures f.OneShiftOut(m, v, t) {
      forall d1, d2 | 0 <= d1 < d2 < 5 && f.Holds(m, Shift(v, d1, t)) ensures !f.Holds(m, Shift(v, d2, t)) {
        assert InPlan(f.task, plan, Shift(v, d1, t));
        var a1 :| 0 <= a1 < f.task.agents && Steps(f.task, plan, a1, v, d1, t);
        if a2 :| 0 <= a2 < f.task.agents && Steps(f.task, plan, a2, v, d2, t) && f.Holds(m, Shift(v, d2, t)) {
          StepUnique(f.task, motion, plan, a1, a2, v, d1, d2, t);
        }
      }
    }
  }

  lemma PlanNextShift(f: Frame, m: Model, motion: Motion, plan: Plan)
    requires f.task.Valid() && f.task.withAt && Fits(f.task, motion, plan) && Describes(f, m, plan)
    ensures f.NextVertexShift(m)
  {
    forall a, v, dir, u, t | f.task.Leads(v, dir, u) ensures f.FollowsShift(m, a, v, dir, u, t) {
      if f.Holds(m, At(a, v, t)) && f.task.Exists(At(a, u, t + 1)) && f.task.Exists(Shift(v, dir, t)) {
        assert InPlan(f.task, plan, At(a, v, t));
        PosFacts(f.task, motion, plan, a, t);
        WindowStep(f.task, a, v, dir, u);
        LastBeforeEnd(f.task, a, u);
        assert 0 <= t < f.task.End(a);
        if f.Holds(m, Shift(v, dir, t)) {
          assert InPlan(f.task, plan, Shift(v, dir, t));
          var b :| 0 <= b < f.task.agents && Steps(f.task, plan, b, v, dir, t);
          if a != b {
            NeverCollide(f.task, motion, plan, a, b, t);
          }
          assert InPlan(f.task, plan, At(a, u, t + 1));
        }
        if f.Holds(m, At(a, u, t + 1)) {
          assert InPlan(f.task, plan, At(a, u, t + 1));
          assert Steps(f.task, plan, a, v, dir, t);
          assert InPlan(f.task, plan, Shift(v, dir, t));
        }
      }
    }
  }

  lemma PlanMovement(f: Frame, m: Model, motion: Motion, plan: Plan)
    requires f.task.Valid() && f.task.withAt && Fits(f.task, motion, plan) && Describes(f, m, plan)
    ensures f.Movement(m)
  {
    PlanNextVertexAt(f, m, motion, plan);
    if f.task.variables.UsePass? {
      PlanPass(f, m, motion, plan);
    }
    if f.task.variables.UseShift? {
      PlanOneShift(f, m, motion, plan);
      PlanNextShift(f, m, motion, plan);
    }
  }

  // ----- cost -----

  /** The plan makes no agent later than it is: at a late timestep the agent has not arrived. */
  lemma LateNotArrived(f: Frame, m: Model, motion: Motion, plan: Plan, how: LateTest, a: int, d: nat)
    requires f.task.Valid() && f.task.IsAgent(a) && Fits(f.task, motion, plan) && Describes(f, m, plan)
    requires f.task.cost.SumOfCosts? && (how.NotAtGoal? || how.Elsewhere? ==> f.task.withAt) && d < f.task.delta
    requires f.Late(m, how, a, d)
    ensures Arrival(plan[a], f.task.Goal(a)) > f.task.inst.spLengths[a] + d
  {
    AgentFacts(f.task, a);
    var t := f.task.First(a, f.task.Goal(a)) + d;
    match how
    case NotAtGoal =>
      PosFacts(f.task, motion, plan, a, t);
      PlanAtExists(f.task, motion, plan, a, t);
    case Elsewhere =>
      PosFacts(f.task, motion, plan, a, t);
      var v :| v != f.task.Goal(a) && f.Holds(m, At(a, v, t));
      assert InPlan(f.task, plan, At(a, v, t));
    case Entering => LateEntered(f, m, motion, plan, a, d);
  }

  lemma LateEntered(f: Frame, m: Model, motion: Motion, plan: Plan, a: int, d: nat)
    requires f.task.Valid() && f.task.IsAgent(a) && Fits(f.task, motion, plan) && Describes(f, m, plan)
    requires f.Late(m, Entering, a, d)
    ensures Arrival(plan[a], f.task.Goal(a)) > f.task.inst.spLengths[a] + d
  {
    AgentFacts(f.task, a);
    var t := f.task.First(a, f.task.Goal(a)) + d;
    var dir, u :| 1 <= dir < 5 && f.task.Leads(f.task.Goal(a), dir, u) && f.Holds(m, Shift(u, OppositeDir(dir), t));
    assert InPlan(f.task, plan, Shift(u, OppositeDir(dir), t));
    var b :| 0 <= b < f.task.agents && Steps(f.task, plan, b, u, OppositeDir(dir), t);
    EnterGoal(f.task, motion, plan, a, b, dir, u, t);
  }

  lemma PlanDelay(f: Frame, m: Model, motion: Motion, plan: Plan, how: LateTest, a: int)
    requires f.task.Valid() && f.task.IsAgent(a) && Fits(f.task, motion, plan) && Describes(f, m, plan)
    requires f.task.cost.SumOfCosts? && (how.NotAtGoal? || how.Elsewhere? ==> f.task.withAt)
    ensures f.Delay(m, how, a, f.task.delta) <= Arrival(plan[a], f.task.Goal(a)) - f.task.inst.spLengths[a]
  {
    ArrivesInTime(f.task, motion, plan, a);
    var d := f.Delay(m, how, a, f.task.delta) - 1;
    if d >= 0 {
      LateNotArrived(f, m, motion, plan, how, a, d);
    }
  }

  lemma EnterGoal(task: Task, motion: Motion, plan: Plan, a: int, b: int, dir: int, u: int, t: int)
    requires task.Valid() && task.IsAgent(a) && task.IsAgent(b) && Fits(task, motion, plan)
    requires 1 <= dir < 5 && task.Leads(task.Goal(a), dir, u) && Steps(task, plan, b, u, OppositeDir(dir), t)
    ensures Arrival(plan[a], task.Goal(a)) > t
  {
    AgentFacts(task, a);
    var g := task.inst.graph;
    var goal := task.Goal(a);
    NeighborSymmetry(g, goal, dir, u);
    assert Where(plan, b, t + 1) == goal;
    assert u != goal by {
      assert g.Leads(goal, 0, goal);
      if u == goal {
        DirectionUnique(g, goal, dir, 0, goal);
      }
    }
    PosFacts(task, motion, plan, a, t);
    PosFacts(task, motion, plan, a, t + 1);
    if a != b {
      NeverCollide(task, motion, plan, a, b, t + 1);
    }
  }

  lemma {:induction false} TotalDelayWithinCost(f: Frame, m: Model, plan: Plan, how: LateTest, k: nat)
    requires k <= |plan| == f.task.agents && f.task.inst.Valid(f.task.agents)
    requires forall a :: 0 <= a < k ==>
      f.Delay(m, how, a, f.task.delta) <= Arrival(plan[a], f.task.inst.goals[a]) - f.task.inst.spLengths[a]
    ensures f.TotalDelay(m, how, k) + f.task.inst.socLBs[k] <= CostOfFirst(plan, f.task.inst.goals, k)
  {
    if k > 0 {
      TotalDelayWithinCost(f, m, plan, how, k - 1);
      assert f.task.inst.AgentTables(k - 1);
    }
  }

  lemma PlanLimitSoc(f: Frame, m: Model, motion: Motion, plan: Plan, how: LateTest)
    requires f.task.Valid() && Fits(f.task, motion, plan) && Describes(f, m, plan)
    requires f.task.cost.SumOfCosts? && (how.NotAtGoal? || how.Elsewhere? ==> f.task.withAt)
    ensures f.LimitSoc(m, how)
  {
    LowerBoundsCover(f.task.inst, f.task.agents);
    forall a | 0 <= a < f.task.agents
      ensures f.Delay(m, how, a, f.task.delta) <= Arrival(plan[a], f.task.inst.goals[a]) - f.task.inst.spLengths[a]
    {
      PlanDelay(f, m, motion, plan, how, a);
    }
    TotalDelayWithinCost(f, m, plan, how, f.task.agents);
  }

  // ----- conflicts -----

  lemma PlanVertexConf(f: Frame, m: Model, motion: Motion, plan: Plan)
    requires f.task.Valid() && Fits(f.task, motion, plan) && Describes(f, m, plan)
    ensures f.VertexConf(m)
  {
    forall a1, a2, v, t | 0 <= a1 < a2 < f.task.agents && f.Holds(m, At(a1, v, t)) ensures !f.Holds(m, At(a2, v, t)) {
      assert InPlan(f.task, plan, At(a1, v, t));
      NeverCollide(f.task, motion, plan, a1, a2, t);
    }
  }

  lemma PlanSwap(f: Frame, m: Model, motion: Motion, plan: Plan)
    requires f.task.Valid() && Fits(f.task, motion, plan) && Describes(f, m, plan)
    ensures f.SwapConfAt(m) && f.SwapConfPass(m) && f.SwapConfShift(m)
  {
    forall a1, a2, v, dir, u, t | 0 <= a1 < a2 < f.task.agents && 1 <= dir < 5 && f.task.Leads(v, dir, u)
      ensures !f.SwapAt(m, a1, a2, v, u, t)
      ensures !(f.Holds(m, Pass(a1, v, dir, t)) && f.Holds(m, Pass(a2, u, OppositeDir(dir), t)))
    {
      NeighborSymmetry(f.task.inst.graph, v, dir, u);
      if t >= 0 {
        NeverCollide(f.task, motion, plan, a1, a2, t);
      }
    }
    forall v, dir, u, back, t |
      2 <= dir < 4 && f.task.Leads(v, dir, u) && back == OppositeDir(dir) && f.Holds(m, Shift(v, dir, t))
      ensures !f.Holds(m, Shift(u, back, t))
    {
      NoSwapShift(f, m, motion, plan, v, dir, u, t);
    }
  }

  lemma NoSwapShift(f: Frame, m: Model, motion: Motion, plan: Plan, v: int, dir: int, u: int, t: int)
    requires f.task.Valid() && Fits(f.task, motion, plan) && Describes(f, m, plan)
    requires 1 <= dir < 5 && f.task.Leads(v, dir, u) && f.Holds(m, Shift(v, dir, t))
    ensures !f.Holds(m, Shift(u, OppositeDir(dir), t))
  {
    var g := f.task.inst.graph;
    NeighborSymmetry(g, v, dir, u);
    assert InPlan(f.task, plan, Shift(v, dir, t));
    var a1 :| 0 <= a1 < f.task.agents && Steps(f.task, plan, a1, v, dir, t);
    var back := OppositeDir(dir);
    if a2 :| 0 <= a2 < f.task.agents && Steps(f.task, plan, a2, u, back, t) && f.Holds(m, Shift(u, back, t)) {
      if a1 == a2 {
        assert g.Leads(v, 0, v);
        DirectionUnique(g, v, dir, 0, v);
      } else {
        NeverCollide(f.task, motion, plan, a1, a2, t);
      }
    }
  }

  lemma PlanPebble(f: Frame, m: Model, plan: Plan)
    requires f.task.Valid() && Fits(f.task, Pebble, plan) && Describes(f, m, plan)
    ensures f.PebbleConfAt(m) && f.PebbleConfPass(m) && f.PebbleConfShift(m)
  {
    forall a1, a2, v, s, t | 0 <= a1 < f.task.agents && 0 <= a2 < f.task.agents && a1 != a2 && t == s + 1
      ensures !(f.Holds(m, At(a1, v, t)) && f.Holds(m, At(a2, v, s)))
    {
      if s >= 0 {
        NeverCollide(f.task, Pebble, plan, a1, a2, s);
      }
    }
    forall a1, a2, v, dir, u, t |
      f.task.IsAgent(a1) && f.task.IsAgent(a2) && a1 != a2 && 1 <= dir < 5 && f.task.Leads(v, dir, u)
      ensures !(f.Holds(m, Pass(a1, v, dir, t)) && f.Holds(m, At(a2, u, t)))
    {
      if t >= 0 {
        NeverCollide(f.task, Pebble, plan, a1, a2, t);
      }
    }
    forall v, dir, u, t | f.task.Leads(v, dir, u) && f.Holds(m, Shift(v, dir, t)) ensures f.NothingLeaves(m, u, t) {
      forall dir' | 1 <= dir' < 5 ensures !f.Holds(m, Shift(u, dir', t)) {
        NothingFollows(f, m, plan, v, dir, u, dir', t);
      }
    }
  }

  lemma NothingFollows(f: Frame, m: Model, plan: Plan, v: int, dir: int, u: int, dir': int, t: int)
    requires f.task.Valid() && Fits(f.task, Pebble, plan) && Describes(f, m, plan)
    requires f.task.Leads(v, dir, u) && f.Holds(m, Shift(v, dir, t)) && 1 <= dir' < 5
    ensures !f.Holds(m, Shift(u, dir', t))
  {
    assert InPlan(f.task, plan, Shift(v, dir, t));
    var a1 :| 0 <= a1 < f.task.agents && Steps(f.task, plan, a1, v, dir, t);
    if a2 :| 0 <= a2 < f.task.agents && Steps(f.task, plan, a2, u, dir', t) && f.Holds(m, Shift(u, dir', t)) {
      if a1 != a2 {
        NeverCollide(f.task, Pebble, plan, a1, a2, t);
      } else {
        var g := f.task.inst.graph;
        NeighborLeads(f.task, u, dir');
        assert g.Leads(u, 0, u);
        DirectionUnique(g, u, dir', 0, u);
      }
    }
  }

  lemma PlanEager(f: Frame, m: Model, motion: Motion, plan: Plan)
    requires f.task.Valid() && Fits(f.task, motion, plan) && Describes(f, m, plan)
    ensures f.Eager(m, motion)
  {
    PlanVertexConf(f, m, motion, plan);
    PlanSwap(f, m, motion, plan);
    if motion.Pebble? {
      PlanPebble(f, m, plan);
    }
  }

  lemma PlanHard(f: Frame, m: Model, motion: Motion, plan: Plan, dupli: bool)
    requires f.task.Valid() && f.task.withAt && Fits(f.task, motion, plan) && Describes(f, m, plan)
    ensures f.Hard(m, dupli)
  {
    PositionsHold(f, m, motion, plan);
    PlanNoneAtGoal(f, m, motion, plan);
    PlanNoDuplicates(f, m, plan);
    PlanMovement(f, m, motion, plan);
    if f.task.cost.SumOfCosts? {
      PlanLimitSoc(f, m, motion, plan, if dupli then Elsewhere else NotAtGoal);
    }
  }
}
