/** From models to plans: every model of a formula, walked from the starts, is a valid plan within the cost limit. */
module Soundness {
  import opened Grids
  import opened Plans
  import opened Cnf
  import opened Encodings
  import opened Windows

  /** What GetNextVertex looks for: the model lets a go from v in direction dir to u, leaving at s. */
  ghost predicate Goes(f: Frame, m: Model, a: int, v: int, dir: int, u: int, s: int) {
    && f.task.Leads(v, dir, u)
    && match f.task.variables
       case UseAt => f.Holds(m, At(a, u, s + 1))
       case UsePass => f.Holds(m, Pass(a, v, dir, s))
       case UseShift => f.task.Exists(At(a, u, s + 1)) && f.Holds(m, Shift(v, dir, s))
  }

  ghost predicate GoesTo(f: Frame, m: Model, a: int, v: int, u: int, s: int) {
    exists dir :: 0 <= dir < 5 && Goes(f, m, a, v, dir, u, s)
  }

  /** u is what GetNextVertex answers at v, leaving at s: a cell the model lets a go to, or -1 if there is none. */
  ghost predicate NextVertex(f: Frame, m: Model, a: int, v: int, u: int, s: int) {
    if v == -1 then u == -1
    else GoesTo(f, m, a, v, u, s) || (u == -1 && forall w :: !GoesTo(f, m, a, v, w, s))
  }

  /** u is where the first possible direction leads. */
  ghost predicate FirstWay(f: Frame, m: Model, a: int, v: int, u: int, s: int) {
    exists dir :: 0 <= dir < 5 && Goes(f, m, a, v, dir, u, s) && NoWayBefore(f, m, a, v, dir, s)
  }

  ghost predicate NoWayBefore(f: Frame, m: Model, a: int, v: int, dir: int, s: int) {
    forall w, d :: 0 <= d < dir ==> !Goes(f, m, a, v, d, w, s)
  }

  /** The row written by the extraction loop. */
  ghost predicate Extracted(f: Frame, m: Model, a: int, row: seq<int>) {
    && |row| == f.task.timesteps
    && (|row| > 0 ==> row[0] == f.task.Start(a))
    && forall t :: 0 <= t < |row| - 1 ==> NextVertex(f, m, a, row[t], row[t + 1], t)
  }

  /** An agent the model places somewhere is placed wherever it goes. */
  lemma GoesLands(f: Frame, m: Model, a: int, v: int, u: int, s: int)
    requires f.task.Valid() && f.task.withAt && f.Movement(m)
    requires f.Holds(m, At(a, v, s)) && Usable(f.task, a, v) && GoesTo(f, m, a, v, u, s)
    ensures f.Holds(m, At(a, u, s + 1)) && Usable(f.task, a, u)
  {
    var dir :| 0 <= dir < 5 && Goes(f, m, a, v, dir, u, s);
    WindowStep(f.task, a, v, dir, u);
    match f.task.variables
    case UseAt =>
    case UsePass =>
      assert f.Holds(m, Pass(a, v, dir, s)) ==> f.Holds(m, At(a, u, s + 1));
    case UseShift =>
      assert f.FollowsShift(m, a, v, dir, u, s);
  }

  /** Before its last timestep the walk never gets stuck. */
  lemma NeverStuck(f: Frame, m: Model, a: int, v: int, s: int)
    requires f.task.Valid() && f.task.withAt && f.Movement(m)
    requires f.Holds(m, At(a, v, s)) && Usable(f.task, a, v) && s < f.task.End(a)
    ensures exists u :: GoesTo(f, m, a, v, u, s)
  {
    NoDeadEndAt(f, a, v, s);
    match f.task.variables
    case UseAt =>
      assert f.MovesTo(m, a, v, s);
      var dir, u :| f.task.Leads(v, dir, u) && f.Holds(m, At(a, u, s + 1));
      assert Goes(f, m, a, v, dir, u, s);
      assert GoesTo(f, m, a, v, u, s);
    case UsePass =>
      NoDeadEndPass(f, a, v, s);
      assert f.LeavesBy(m, a, v, s);
      var dir :| 0 <= dir < 5 && f.Holds(m, Pass(a, v, dir, s));
      AgentFacts(f.task, a);
      NeighborLeads(f.task, v, dir);
      assert Goes(f, m, a, v, dir, f.task.Neighbor(v, dir), s);
      assert GoesTo(f, m, a, v, f.task.Neighbor(v, dir), s);
    case UseShift =>
      assert f.MovesTo(m, a, v, s);
      var dir, u :| f.task.Leads(v, dir, u) && f.Holds(m, At(a, u, s + 1));
      ShiftWindow(f.task, a, v, dir, u, s);
      assert f.FollowsShift(m, a, v, dir, u, s);
      assert Goes(f, m, a, v, dir, u, s);
      assert GoesTo(f, m, a, v, u, s);
  }

  /** After its last timestep an agent has no variables, and the walk reports -1. */
  lemma StuckAfterEnd(f: Frame, m: Model, a: int, u: int)
    requires f.task.Valid() && f.task.withAt && f.task.IsAgent(a)
    ensures !GoesTo(f, m, a, f.task.Goal(a), u, f.task.End(a))
  {
    AgentFacts(f.task, a);
    if dir :| 0 <= dir < 5 && Goes(f, m, a, f.task.Goal(a), dir, u, f.task.End(a)) {
      WindowStep(f.task, a, f.task.Goal(a), dir, u);
      LastBeforeEnd(f.task, a, u);
    }
  }

  /** Up to its last timestep the walk follows true At variables; there it is at the goal; afterwards it is -1. */
  lemma {:induction false} WalkFollows(f: Frame, m: Model, a: int, row: seq<int>, t: nat)
    requires f.task.Valid() && f.task.withAt && f.task.IsAgent(a) && f.StartsHold(m) && f.Movement(m)
    requires Extracted(f, m, a, row) && t < |row|
    ensures t <= f.task.End(a) ==> Usable(f.task, a, row[t]) && f.Holds(m, At(a, row[t], t))
    ensures 0 < t <= f.task.End(a) ==> GoesTo(f, m, a, row[t - 1], row[t], t - 1)
    ensures t == f.task.End(a) ==> row[t] == f.task.Goal(a)
    ensures t > f.task.End(a) ==> row[t] == -1
  {
    AgentFacts(f.task, a);
    if t > 0 {
      WalkFollows(f, m, a, row, t - 1);
      assert NextVertex(f, m, a, row[t - 1], row[t - 1 + 1], t - 1);
      if t <= f.task.End(a) {
        NeverStuck(f, m, a, row[t - 1], t - 1);
        GoesLands(f, m, a, row[t - 1], row[t], t - 1);
      } else if t == f.task.End(a) + 1 {
        StuckAfterEnd(f, m, a, row[t]);
      }
    }
    if t == f.task.End(a) {
      LastBeforeEnd(f.task, a, row[t]);
    }
  }

  /** A row of the reported plan: the walk up to the agent's last timestep, then the goal. */
  ghost predicate Reported(f: Frame, m: Model, a: int, r: Path) {
    && 0 < |r| <= f.task.timesteps
    && r[0] == f.task.Start(a) && r[|r| - 1] == f.task.Goal(a)
    && (forall t :: 0 <= t < |r| && t <= f.task.End(a) ==> Usable(f.task, a, r[t]) && f.Holds(m, At(a, r[t], t)))
    && (forall t, s :: 0 <= t < |r| - 1 && t < f.task.End(a) && s == t + 1 ==> GoesTo(f, m, a, r[t], r[s], t))
    && (forall t :: 0 <= t < |r| && f.task.End(a) <= t ==> r[t] == f.task.Goal(a))
  }

  // ----- the plan shown for the extracted rows -----

  /** An extracted row: cells up to the agent's last timestep, where it is at the goal, then -1. */
  predicate Stops(task: Task, a: int, row: seq<int>) {
    && |row| == task.timesteps && 0 <= task.End(a) < |row| && row[task.End(a)] == task.Goal(a)
    && forall t :: 0 <= t < |row| ==> (row[t] == -1 <==> t > task.End(a))
  }

  lemma WalkStops(f: Frame, m: Model, a: int, row: seq<int>)
    requires f.task.Valid() && f.task.withAt && f.task.IsAgent(a) && f.StartsHold(m) && f.Movement(m)
    requires Extracted(f, m, a, row)
    ensures Stops(f.task, a, row)
  {
    hide Frame.Movement;
    AgentFacts(f.task, a);
    forall t | 0 <= t < |row|
      ensures (row[t] == -1 <==> t > f.task.End(a)) && (t == f.task.End(a) ==> row[t] == f.task.Goal(a))
    {
      WalkFollows(f, m, a, row, t);
    }
  }

  /** The plan reported for the extracted rows. */
  function Shown(task: Task, rows: Plan): Plan
    requires |rows| <= |task.inst.goals|
  {
    match task.cost
    case Makespan => rows
    case SumOfCosts => Normalized(rows, task.inst.goals)
  }

  /** Under makespan a plan is shown to the last timestep, under sum of costs no longer than some agent is away. */
  ghost predicate ShownLength(task: Task, plan: Plan) {
    && |plan| == task.agents <= |task.inst.goals| && Rectangular(plan, Timesteps(plan))
    && match task.cost
       case Makespan => |plan| > 0 ==> Timesteps(plan) == task.timesteps
       case SumOfCosts =>
         Timesteps(plan) <= 1 || exists a :: 0 <= a < |plan| && AwayAtLast(plan[a], task.inst.goals[a])
  }

  ghost predicate AwayAtLast(r: Path, goal: int) { |r| > 1 && r[|r| - 2] != goal }

  /** A row that is -1 exactly after e, where it is at the goal, with its -1 suffix turned into goals. */
  lemma FilledStop(row: seq<int>, goal: int, e: nat)
    requires goal != -1 && e < |row| && row[e] == goal && forall t :: 0 <= t < |row| ==> (row[t] == -1 <==> t > e)
    ensures Tail(row, goal) <= e
    ensures forall t :: 0 <= t < |row| ==> Filled(row, goal)[t] == if t <= e then row[t] else goal
  {
    var k := Tail(row, goal);
    assert k > 0 ==> row[k - 1] != -1 && row[k - 1] != goal;
  }

  /**
   * The shown rows are the extracted ones with the -1 entries turned into goals, cut to a common length that covers all
   * walks.
   */
  lemma ShownRows(task: Task, rows: Plan)
    requires task.Valid() && |rows| == task.agents <= |task.inst.goals|
    requires forall a :: 0 <= a < |rows| ==> Stops(task, a, rows[a])
    ensures |Shown(task, rows)| == |rows| && Rectangular(Shown(task, rows), Timesteps(Shown(task, rows)))
    ensures forall a :: 0 <= a < |rows| ==> ShownRow(task, a, rows[a], Shown(task, rows)[a])
    ensures task.cost.Makespan? && |rows| > 0 ==> Timesteps(Shown(task, rows)) == task.timesteps
  {
    var goals := task.inst.goals;
    forall a | 0 <= a < |rows| ensures Tail(rows[a], goals[a]) + 1 <= task.timesteps {
      AgentFacts(task, a);
      FilledStop(rows[a], task.Goal(a), task.End(a));
    }
    assert |rows| > 0 ==> FinalTimestep(rows, goals, |rows|) <= task.timesteps;
    forall a | 0 <= a < |rows|
      ensures ShownRow(task, a, rows[a], Shown(task, rows)[a])
      ensures |Shown(task, rows)[a]| ==
        if task.cost.Makespan? then task.timesteps else FinalTimestep(rows, goals, |rows|)
    {
      AgentFacts(task, a);
      FilledStop(rows[a], task.Goal(a), task.End(a));
      if task.cost.SumOfCosts? {
        NormalizedPath(rows, goals, task.timesteps, a);
      }
    }
  }

  lemma StopsLength(task: Task, rows: Plan)
    requires task.Valid() && |rows| == task.agents <= |task.inst.goals|
    requires forall a :: 0 <= a < |rows| ==> Stops(task, a, rows[a])
    ensures ShownLength(task, Shown(task, rows))
  {
    hide Task.Valid, Stops, ShownRow, Shown;
    ShownRows(task, rows);
    if task.cost.SumOfCosts? && Timesteps(Shown(task, rows)) > 1 {
      var a := LastAway(task, rows);
    }
  }

  /** The agent that determines the length of the normalised plan. */
  lemma LastAway(task: Task, rows: Plan) returns (a: nat)
    requires task.Valid() && |rows| == task.agents <= |task.inst.goals| && task.cost.SumOfCosts?
    requires forall a :: 0 <= a < |rows| ==> Stops(task, a, rows[a])
    requires Timesteps(Shown(task, rows)) > 1
    ensures a < |Shown(task, rows)| == |rows| && AwayAtLast(Shown(task, rows)[a], task.inst.goals[a])
  {
    hide Task.Valid;
    var goals := task.inst.goals;
    var t := FinalTimestep(rows, goals, |rows|);
    assert |Shown(task, rows)[0]| == t;
    a :| 0 <= a < |rows| && t == Tail(rows[a], goals[a]) + 1;
    AgentFacts(task, a);
    FilledStop(rows[a], task.Goal(a), task.End(a));
    AwayBeforeTail(rows[a], goals[a], t);
  }

  lemma AwayBeforeTail(row: seq<int>, goal: int, t: nat)
    requires 1 < t == Tail(row, goal) + 1 <= |row|
    ensures AwayAtLast(Resize(Filled(row, goal), t), goal)
  {
  }

  /** r shows the extracted row. */
  predicate ShownRow(task: Task, a: int, row: seq<int>, r: Path) {
    && 0 < |r| <= |row| && r[|r| - 1] == task.Goal(a)
    && forall t :: 0 <= t < |r| ==> r[t] == if t <= task.End(a) then row[t] else task.Goal(a)
  }

  lemma WalkReported(f: Frame, m: Model, a: int, row: seq<int>, r: Path)
    requires f.task.Valid() && f.task.withAt && f.task.IsAgent(a) && f.StartsHold(m) && f.Movement(m)
    requires Extracted(f, m, a, row) && ShownRow(f.task, a, row, r)
    ensures Reported(f, m, a, r)
  {
    hide Frame.Movement, GoesTo;
    AgentFacts(f.task, a);
    forall t | 0 <= t < |r|
      ensures t <= f.task.End(a) ==> Usable(f.task, a, r[t]) && f.Holds(m, At(a, r[t], t))
      ensures t >= f.task.End(a) ==> r[t] == f.task.Goal(a)
      ensures 0 < t <= f.task.End(a) ==> GoesTo(f, m, a, r[t - 1], r[t], t - 1)
    {
      WalkFollows(f, m, a, row, t);
    }
  }

  // ----- a reported row is a valid path within its delay -----

  lemma ReportedValid(f: Frame, m: Model, a: int, r: Path)
    requires f.task.Valid() && f.task.withAt && f.task.IsAgent(a) && Reported(f, m, a, r)
    ensures ValidPath(f.task.inst, a, r)
  {
    AgentFacts(f.task, a);
    var g := f.task.inst.graph;
    forall t | 0 <= t < |r| - 1 ensures g.Adjacent(r[t], r[t + 1]) {
      if t < f.task.End(a) {
        assert GoesTo(f, m, a, r[t], r[t + 1], t);
        var dir :| 0 <= dir < 5 && Goes(f, m, a, r[t], dir, r[t + 1], t);
        assert g.Leads(r[t], dir, r[t + 1]);
      } else {
        assert g.Leads(r[t], 0, r[t + 1]);
      }
    }
    forall t | 0 <= t < |r| ensures g.IsVertex(r[t]) {
    }
  }

  /** An agent arrives no later than its shortest path plus its delay. */
  lemma ArrivalWithinDelay(f: Frame, m: Model, a: int, r: Path, dupli: bool)
    requires f.task.Valid() && f.task.withAt && f.task.IsAgent(a) && Reported(f, m, a, r)
    requires f.task.cost.SumOfCosts? && f.Hard(m, dupli)
    ensures Arrival(r, f.task.Goal(a)) <= f.task.inst.spLengths[a]
              + f.Delay(m, if dupli then Elsewhere else NotAtGoal, a, f.task.delta)
  {
    AgentFacts(f.task, a);
    var how := if dupli then Elsewhere else NotAtGoal;
    var arr, sp, g := Arrival(r, f.task.Goal(a)), f.task.inst.spLengths[a], f.task.Goal(a);
    if arr > sp {
      var d := arr - 1 - sp;
      assert r[arr - 1] != g;
      assert arr - 1 < f.task.End(a);
      assert f.Holds(m, At(a, r[arr - 1], arr - 1));
      assert f.task.First(a, g) + d == arr - 1;
      if !dupli {
        assert f.InOnePlace(m, a, arr - 1);
        assert !f.Holds(m, At(a, g, arr - 1));
      }
      assert f.Late(m, how, a, d);
    }
  }

  lemma {:induction false} CostWithinDelay(f: Frame, m: Model, plan: Plan, how: LateTest, k: nat)
    requires k <= |plan| == f.task.agents && f.task.inst.Valid(f.task.agents)
    requires forall a :: 0 <= a < k ==>
      Arrival(plan[a], f.task.inst.goals[a]) <= f.task.inst.spLengths[a] + f.Delay(m, how, a, f.task.delta)
    ensures CostOfFirst(plan, f.task.inst.goals, k) <= f.task.inst.socLBs[k] + f.TotalDelay(m, how, k)
  {
    if k > 0 {
      CostWithinDelay(f, m, plan, how, k - 1);
      assert f.task.inst.AgentTables(k - 1);
    }
  }

  // ----- conflicts between reported rows are expressible and violated -----

  /** Agents can only meet where both still have variables. */
  lemma MeetInWindow(f: Frame, m: Model, a1: int, r1: Path, a2: int, r2: Path, t: int)
    requires f.task.Valid() && f.task.withAt && f.task.IsAgent(a1) && f.task.IsAgent(a2) && a1 != a2
    requires f.task.cost.SumOfCosts? ==> f.NoneAtGoal(m)
    requires f.task.cost.SumOfCosts? && f.task.Goal(a1) == f.task.Goal(a2) ==>
      t <= f.task.End(a1) || t <= f.task.End(a2)
    requires Reported(f, m, a1, r1) && Reported(f, m, a2, r2) && 0 <= t < |r1| && t < |r2| && r1[t] == r2[t]
    ensures t <= f.task.End(a1) && t <= f.task.End(a2)
  {
    AgentFacts(f.task, a1);
    AgentFacts(f.task, a2);
    assert r1[t] == f.task.Goal(a1) || t <= f.task.End(a1);
    assert r2[t] == f.task.Goal(a2) || t <= f.task.End(a2);
  }

  lemma VertexViolated(f: Frame, m: Model, a1: int, r1: Path, a2: int, r2: Path, t: int)
    requires f.task.Valid() && f.task.withAt && f.task.IsAgent(a1) && f.task.IsAgent(a2) && a1 != a2
    requires f.task.cost.SumOfCosts? ==> f.NoneAtGoal(m)
    requires f.task.cost.SumOfCosts? && f.task.Goal(a1) == f.task.Goal(a2) ==>
      t <= f.task.End(a1) || t <= f.task.End(a2)
    requires Reported(f, m, a1, r1) && Reported(f, m, a2, r2) && 0 <= t < |r1| && t < |r2| && r1[t] == r2[t]
    ensures Expressible(f.task, VertexC(a1, a2, r1[t], t)) && !f.Respects(m, VertexC(a1, a2, r1[t], t))
  {
    MeetInWindow(f, m, a1, r1, a2, r2, t);
  }

  /** An agent that changes its cell at t is still moving. */
  lemma MoverBeforeEnd(f: Frame, m: Model, a: int, r: Path, t: int)
    requires Reported(f, m, a, r) && 0 <= t < |r| - 1 && r[t] != r[t + 1]
    ensures t < f.task.End(a) && GoesTo(f, m, a, r[t], r[t + 1], t)
  {
    assert r[t] == f.task.Goal(a) || t < f.task.End(a);
    assert r[t + 1] == f.task.Goal(a) || t + 1 < f.task.End(a);
  }

  lemma GoesAdjacent(f: Frame, m: Model, a: int, v: int, u: int, s: int)
    requires GoesTo(f, m, a, v, u, s)
    ensures f.task.inst.graph.Adjacent(v, u)
  {
    var dir :| 0 <= dir < 5 && Goes(f, m, a, v, dir, u, s);
    assert f.task.inst.graph.Leads(v, dir, u);
  }

  lemma SwapViolated(f: Frame, m: Model, a1: int, r1: Path, a2: int, r2: Path, t: int)
    requires f.task.Valid() && f.task.withAt && f.task.IsAgent(a1) && f.task.IsAgent(a2) && a1 != a2
    requires Reported(f, m, a1, r1) && Reported(f, m, a2, r2) && 0 <= t < |r1| - 1 && |r1| == |r2|
    requires r1[t] == r2[t + 1] && r1[t + 1] == r2[t] && r1[t] != r2[t]
    ensures Expressible(f.task, SwapC(a1, a2, r1[t], r1[t + 1], t))
    ensures !f.Respects(m, SwapC(a1, a2, r1[t], r1[t + 1], t))
  {
    MoverBeforeEnd(f, m, a1, r1, t);
    MoverBeforeEnd(f, m, a2, r2, t);
    var v, u := r1[t], r1[t + 1];
    GoesAdjacent(f, m, a1, v, u, t);
    var d1 :| 0 <= d1 < 5 && Goes(f, m, a1, v, d1, u, t);
    var d2 :| 0 <= d2 < 5 && Goes(f, m, a2, u, d2, v, t);
    AgentFacts(f.task, a1);
    var g := f.task.inst.graph;
    assert d1 != 0 && d2 != 0 by {
      assert g.nbr[v][0] == v && g.nbr[u][0] == u;
    }
    NeighborSymmetry(g, v, d1, u);
    DirectionUnique(g, u, d2, OppositeDir(d1), v);
  }

  /** Agent q enters at t+1 the cell p occupies at t. Either that is violated, or they meet at t+1. */
  lemma PebbleViolated(f: Frame, m: Model, q: int, rq: Path, p: int, rp: Path, t: int)
    requires f.task.Valid() && f.task.withAt && f.task.IsAgent(q) && f.task.IsAgent(p) && q != p
    requires f.task.cost.SumOfCosts? ==> f.NoneAtGoal(m)
    requires Reported(f, m, q, rq) && Reported(f, m, p, rp) && 0 <= t < |rq| - 1 && |rq| == |rp|
    requires rp[t] == rq[t + 1] && rq[t] != rq[t + 1]
    ensures Expressible(f.task, PebbleC(q, p, rq[t], rq[t + 1], t + 1))
    ensures f.Respects(m, PebbleC(q, p, rq[t], rq[t + 1], t + 1)) ==> rp[t + 1] == rq[t + 1]
  {
    AgentFacts(f.task, q);
    AgentFacts(f.task, p);
    MoverBeforeEnd(f, m, q, rq, t);
    var v, u := rq[t], rq[t + 1];
    GoesAdjacent(f, m, q, v, u, t);
    assert f.Holds(m, At(q, u, t + 1));
    assert t <= f.task.End(p);
    assert f.Holds(m, At(p, u, t));
    var dir :| 0 <= dir < 5 && Goes(f, m, q, v, dir, u, t);
    var g := f.task.inst.graph;
    assert dir != 0 by {
      assert g.nbr[v][0] == v;
    }
    if f.task.variables.UseShift? && rp[t + 1] != u {
      MoverLeaves(f, m, p, rp, t);
    }
  }

  /** Over Shift variables, an agent that changes its cell shifts out of it. */
  lemma MoverLeaves(f: Frame, m: Model, a: int, r: Path, t: int)
    requires f.task.inst.graph.Valid() && f.task.variables.UseShift?
    requires Reported(f, m, a, r) && 0 <= t < |r| - 1 && r[t] != r[t + 1]
    ensures !f.NothingLeaves(m, r[t], t)
  {
    MoverBeforeEnd(f, m, a, r, t);
    var dir :| 0 <= dir < 5 && Goes(f, m, a, r[t], dir, r[t + 1], t);
    assert dir != 0 by {
      assert f.task.inst.graph.nbr[r[t]][0] == r[t];
    }
    assert f.Holds(m, Shift(r[t], dir, t));
  }
}
