/**
 * What a formula decides: it is satisfiable exactly when a valid plan within the cost limit exists, eagerly or lazily.
 */
module Equivalence {
  import opened Grids
  import opened Instances
  import opened Plans
  import opened Cnf
  import opened Encodings
  import opened Windows
  import opened Soundness
  import opened Completeness

  // ----- reported conflicts -----

  ghost predicate FoundVertex(plan: Plan, c: Conflict)
    requires Rectangular(plan, Timesteps(plan))
  {
    && c.VertexC? && 0 <= c.a1 < c.a2 < |plan| && 0 <= c.t < Timesteps(plan)
    && plan[c.a1][c.t] == plan[c.a2][c.t] == c.v
  }

  ghost predicate FoundSwap(plan: Plan, c: Conflict)
    requires Rectangular(plan, Timesteps(plan))
  {
    && c.SwapC? && 0 <= c.a1 < c.a2 < |plan| && 0 <= c.t < Timesteps(plan) - 1
    && plan[c.a1][c.t] == plan[c.a2][c.t + 1] == c.v && plan[c.a1][c.t + 1] == plan[c.a2][c.t] == c.u
    && c.v != c.u
  }

  /** Agent a1 arrives at t where a2 was the timestep before. */
  ghost predicate FoundPebble(plan: Plan, c: Conflict)
    requires Rectangular(plan, Timesteps(plan))
  {
    && c.PebbleC? && 0 <= c.a1 < |plan| && 0 <= c.a2 < |plan| && c.a1 != c.a2 && 1 <= c.t < Timesteps(plan)
    && plan[c.a1][c.t - 1] == c.v && plan[c.a1][c.t] == plan[c.a2][c.t - 1] == c.u
    && c.v != c.u
  }

  ghost predicate Found(plan: Plan, motion: Motion, c: Conflict)
    requires Rectangular(plan, Timesteps(plan))
  {
    FoundVertex(plan, c) || FoundSwap(plan, c) || (motion.Pebble? && FoundPebble(plan, c))
  }

  /** A swap is also, twice, a following conflict. */
  lemma SwapIsPebble(plan: Plan, c: Conflict)
    requires Rectangular(plan, Timesteps(plan)) && FoundSwap(plan, c)
    ensures FoundPebble(plan, PebbleC(c.a1, c.a2, c.v, c.u, c.t + 1))
    ensures FoundPebble(plan, PebbleC(c.a2, c.a1, c.u, c.v, c.t + 1))
  {
  }

  /** GenerateConflicts reports something exactly when VerifyPlan would print something. */
  lemma DetectionAgrees(plan: Plan, motion: Motion)
    requires Rectangular(plan, Timesteps(plan))
    ensures ConflictFree(plan, motion) <==> forall c :: !Found(plan, motion, c)
  {
    if forall c :: !Found(plan, motion, c) {
      forall a1, a2, t | 0 <= a1 < a2 < |plan| && 0 <= t < Timesteps(plan)
        ensures !Collide(plan[a1], plan[a2], t, motion)
      {
        var p, q := plan[a1], plan[a2];
        assert !Found(plan, motion, VertexC(a1, a2, p[t], t));
        if t < Timesteps(plan) - 1 {
          assert !Found(plan, motion, SwapC(a1, a2, p[t], p[t + 1], t));
          assert !Found(plan, motion, PebbleC(a2, a1, q[t], q[t + 1], t + 1));
          assert !Found(plan, motion, PebbleC(a1, a2, p[t], p[t + 1], t + 1));
        }
      }
    }
    if ConflictFree(plan, motion) {
      forall c ensures !Found(plan, motion, c) {
        NothingFound(plan, motion, c);
      }
    }
  }

  lemma NothingFound(plan: Plan, motion: Motion, c: Conflict)
    requires Rectangular(plan, Timesteps(plan)) && ConflictFree(plan, motion)
    ensures !Found(plan, motion, c)
  {
    if 0 <= c.a1 < |plan| && 0 <= c.a2 < |plan| && c.a1 != c.a2 {
      var b1, b2 := if c.a1 < c.a2 then c.a1 else c.a2, if c.a1 < c.a2 then c.a2 else c.a1;
      assert Apart(plan[b1], plan[b2], motion);
      var t := if c.PebbleC? then c.t - 1 else c.t;
      assert 0 <= t < Timesteps(plan) ==> !Collide(plan[b1], plan[b2], t, motion);
    }
  }

  /** Every conflict found in a reported plan has its variables, so its clauses mean what they should. */
  lemma FoundExpressible(f: Frame, m: Model, motion: Motion, plan: Plan, c: Conflict)
    requires f.task.Valid() && f.task.withAt && (f.task.cost.SumOfCosts? ==> f.NoneAtGoal(m))
    requires |plan| == f.task.agents && Rectangular(plan, Timesteps(plan)) && f.task.SharedGoalsLast(Timesteps(plan))
    requires forall a :: 0 <= a < |plan| ==> Reported(f, m, a, plan[a])
    requires Found(plan, motion, c)
    ensures Expressible(f.task, c)
  {
    match c
    case VertexC(a1, a2, v, t) => VertexViolated(f, m, a1, plan[a1], a2, plan[a2], t);
    case SwapC(a1, a2, v, u, t) => SwapViolated(f, m, a1, plan[a1], a2, plan[a2], t);
    case PebbleC(a1, a2, v, u, t) => PebbleViolated(f, m, a1, plan[a1], a2, plan[a2], t - 1);
  }

  /** A conflict found in a reported plan has its variables, unless two agents with one goal stand there. */
  lemma FoundListable(f: Frame, m: Model, motion: Motion, plan: Plan, c: Conflict)
    requires f.task.Valid() && f.task.withAt && (f.task.cost.SumOfCosts? ==> f.NoneAtGoal(m))
    requires |plan| == f.task.agents && Rectangular(plan, Timesteps(plan))
    requires forall a :: 0 <= a < |plan| ==> Reported(f, m, a, plan[a])
    requires Found(plan, motion, c)
    ensures Expressible(f.task, c) || AtSharedGoal(f.task, c)
  {
    match c
    case VertexC(a1, a2, v, t) =>
      AgentFacts(f.task, a1);
      AgentFacts(f.task, a2);
      if t <= f.task.End(a1) || t <= f.task.End(a2) || f.task.Goal(a1) != f.task.Goal(a2) || f.task.cost.Makespan? {
        VertexViolated(f, m, a1, plan[a1], a2, plan[a2], t);
      }
    case SwapC(a1, a2, v, u, t) => SwapViolated(f, m, a1, plan[a1], a2, plan[a2], t);
    case PebbleC(a1, a2, v, u, t) => PebbleViolated(f, m, a1, plan[a1], a2, plan[a2], t - 1);
  }

  /**
   * A plan with conflicts violates one that has variables and for which clauses are added: each lazy round rules its
   * own model out.
   */
  lemma FoundViolated(f: Frame, m: Model, motion: Motion, plan: Plan, c: Conflict) returns (d: Conflict)
    requires f.task.Valid() && f.task.withAt && f.GoalsHold(m) && (f.task.cost.SumOfCosts? ==> f.NoneAtGoal(m))
    requires |plan| == f.task.agents && Rectangular(plan, Timesteps(plan))
    requires forall a :: 0 <= a < |plan| ==> Reported(f, m, a, plan[a])
    requires Found(plan, motion, c)
    ensures Found(plan, motion, d) && Relevant(motion, d) && Expressible(f.task, d) && !f.Respects(m, d)
  {
    hide Expressible, Frame.Respects, Frame.NoneAtGoal, Frame.GoalsHold, Reported;
    if f.task.SharedGoalsLast(Timesteps(plan)) {
      hide Task.SharedGoalsLast;
      d := FoundViolatedApart(f, m, motion, plan, c);
    } else {
      var a1, a2 :| 0 <= a1 < a2 < f.task.agents && f.task.Goal(a1) == f.task.Goal(a2)
                    && Timesteps(plan) - 1 > f.task.End(a1) && Timesteps(plan) - 1 > f.task.End(a2);
      d := VertexC(a1, a2, f.task.Goal(a1), f.task.End(a1));
      SharedGoalMet(f, m, plan, a1, a2);
    }
  }

  /** Agents that share a goal have to be there at the same timestep, where they collide. */
  lemma SharedGoalMet(f: Frame, m: Model, plan: Plan, a1: int, a2: int)
    requires f.task.Valid() && f.task.withAt && f.task.cost.SumOfCosts? && f.GoalsHold(m) && f.NoneAtGoal(m)
    requires 0 <= a1 < a2 < f.task.agents && f.task.Goal(a1) == f.task.Goal(a2)
    requires |plan| == f.task.agents && Rectangular(plan, Timesteps(plan))
    requires Reported(f, m, a1, plan[a1]) && Reported(f, m, a2, plan[a2])
    requires f.task.End(a1) < Timesteps(plan) && f.task.End(a2) < Timesteps(plan)
    ensures f.task.End(a1) == f.task.End(a2)
    ensures
      var c := VertexC(a1, a2, f.task.Goal(a1), f.task.End(a1));
      FoundVertex(plan, c) && Expressible(f.task, c) && !f.Respects(m, c)
  {
    AgentFacts(f.task, a1);
    AgentFacts(f.task, a2);
    assert f.Holds(m, At(a1, f.task.Goal(a1), f.task.End(a1))) && f.Holds(m, At(a2, f.task.Goal(a2), f.task.End(a2)));
  }

  lemma FoundViolatedApart(f: Frame, m: Model, motion: Motion, plan: Plan, c: Conflict) returns (d: Conflict)
    requires f.task.Valid() && f.task.withAt && (f.task.cost.SumOfCosts? ==> f.NoneAtGoal(m))
    requires |plan| == f.task.agents && Rectangular(plan, Timesteps(plan)) && f.task.SharedGoalsLast(Timesteps(plan))
    requires forall a :: 0 <= a < |plan| ==> Reported(f, m, a, plan[a])
    requires Found(plan, motion, c)
    ensures Found(plan, motion, d) && Relevant(motion, d) && Expressible(f.task, d) && !f.Respects(m, d)
  {
    hide Expressible, Frame.Respects, Frame.NoneAtGoal, Reported, Task.SharedGoalsLast;
    if c.VertexC? {
      d := c;
      AgentsMeet(f, m, plan, c);
    } else if c.SwapC? && motion.Parallel? {
      d := c;
      SwapViolated(f, m, c.a1, plan[c.a1], c.a2, plan[c.a2], c.t);
    } else {
      if c.SwapC? {
        SwapIsPebble(plan, c);
      }
      d := if c.SwapC? then PebbleC(c.a1, c.a2, c.v, c.u, c.t + 1) else c;
      assert FoundPebble(plan, d);
      PebbleViolated(f, m, d.a1, plan[d.a1], d.a2, plan[d.a2], d.t - 1);
      if f.Respects(m, d) {
        d := VertexC(if d.a1 < d.a2 then d.a1 else d.a2, if d.a1 < d.a2 then d.a2 else d.a1, d.u, d.t);
        AgentsMeet(f, m, plan, d);
      }
    }
  }

  lemma AgentsMeet(f: Frame, m: Model, plan: Plan, c: Conflict)
    requires f.task.Valid() && f.task.withAt && (f.task.cost.SumOfCosts? ==> f.NoneAtGoal(m))
    requires |plan| == f.task.agents && Rectangular(plan, Timesteps(plan)) && f.task.SharedGoalsLast(Timesteps(plan))
    requires forall a :: 0 <= a < |plan| ==> Reported(f, m, a, plan[a])
    requires FoundVertex(plan, c)
    ensures Expressible(f.task, c) && !f.Respects(m, c)
  {
    hide Expressible, Frame.NoneAtGoal, Reported;
    VertexViolated(f, m, c.a1, plan[c.a1], c.a2, plan[c.a2], c.t);
  }

  /** The eager clauses contain what any on-demand clauses say. */
  lemma EagerRespects(f: Frame, m: Model, motion: Motion, c: Conflict)
    requires f.task.Valid() && f.Eager(m, motion) && Expressible(f.task, c) && Relevant(motion, c)
    ensures f.Respects(m, c)
  {
    match c
    case VertexC(a1, a2, v, t) =>
      assert a1 < a2 || a2 < a1;
    case SwapC(a1, a2, v, u, t) =>
      forall dir | 1 <= dir < 5 && f.task.Leads(v, dir, u) ensures f.Respects(m, c) {
        EagerSwap(f, m, c, dir);
      }
      var dir :| 0 <= dir < 5 && f.task.inst.graph.Leads(v, dir, u);
      assert dir != 0 by {
        assert f.task.inst.graph.nbr[v][0] == v;
      }
      assert f.task.Leads(v, dir, u);
    case PebbleC(a1, a2, v, u, t) =>
  }

  lemma EagerSwap(f: Frame, m: Model, c: Conflict, dir: int)
    requires f.task.Valid() && f.Eager(m, Parallel) && Expressible(f.task, c) && c.SwapC?
    requires 1 <= dir < 5 && f.task.Leads(c.v, dir, c.u)
    ensures f.Respects(m, c)
  {
    var SwapC(a1, a2, v, u, t) := c;
    var g := f.task.inst.graph;
    var back := OppositeDir(dir);
    NeighborSymmetry(g, v, dir, u);
    assert f.task.Leads(u, back, v);
    forall d | 1 <= d < 5 && f.task.Leads(v, d, u) ensures d == dir {
      DirectionUnique(g, v, d, dir, u);
    }
    match f.task.variables
    case UseAt =>
      assert !f.SwapAt(m, a1, a2, v, u, t) || a2 < a1;
      assert !f.SwapAt(m, a2, a1, u, v, t) || a1 < a2;
    case UsePass =>
      assert OppositeDir(back) == dir;
    case UseShift =>
      assert 2 <= dir < 4 || 2 <= back < 4;
      assert OppositeDir(back) == dir;
  }

  // ----- what the solver shows -----

  /** The rows shown are reported rows, all of the same length. */
  lemma ShownReported(f: Frame, m: Model, rows: Plan)
    requires f.task.Valid() && f.task.withAt && f.StartsHold(m) && f.Movement(m)
    requires |rows| == f.task.agents <= |f.task.inst.goals|
    requires forall a :: 0 <= a < |rows| ==> Extracted(f, m, a, rows[a])
    ensures |Shown(f.task, rows)| == |rows| && Rectangular(Shown(f.task, rows), Timesteps(Shown(f.task, rows)))
    ensures forall a :: 0 <= a < |rows| ==> Reported(f, m, a, Shown(f.task, rows)[a])
    ensures f.task.cost.Makespan? && |rows| > 0 ==> Timesteps(Shown(f.task, rows)) == f.task.timesteps
  {
    forall a | 0 <= a < |rows| ensures Stops(f.task, a, rows[a]) {
      WalkStops(f, m, a, rows[a]);
    }
    ShownRows(f.task, rows);
    forall a | 0 <= a < |rows| ensures Reported(f, m, a, Shown(f.task, rows)[a]) {
      WalkReported(f, m, a, rows[a], Shown(f.task, rows)[a]);
    }
  }

  lemma ShownStops(f: Frame, m: Model, rows: Plan)
    requires f.task.Valid() && f.task.withAt && f.StartsHold(m) && f.Movement(m)
    requires |rows| == f.task.agents <= |f.task.inst.goals|
    requires forall a :: 0 <= a < |rows| ==> Extracted(f, m, a, rows[a])
    ensures ShownLength(f.task, Shown(f.task, rows))
  {
    forall a | 0 <= a < |rows| ensures Stops(f.task, a, rows[a]) {
      WalkStops(f, m, a, rows[a]);
    }
    StopsLength(f.task, rows);
  }

  /** A shown plan without conflicts is a valid plan within the cost limit. */
  lemma CleanPlanFits(f: Frame, m: Model, motion: Motion, dupli: bool, rows: Plan)
    requires f.task.Valid() && f.task.withAt && f.Hard(m, dupli)
    requires |rows| == f.task.agents <= |f.task.inst.goals|
    requires forall a :: 0 <= a < |rows| ==> Extracted(f, m, a, rows[a])
    requires
      var plan := Shown(f.task, rows);
      Rectangular(plan, Timesteps(plan)) && ConflictFree(plan, motion)
    ensures Fits(f.task, motion, Shown(f.task, rows))
  {
    var plan := Shown(f.task, rows);
    ShownReported(f, m, rows);
    forall a | 0 <= a < f.task.agents ensures ValidPath(f.task.inst, a, plan[a]) {
      ReportedValid(f, m, a, plan[a]);
    }
    LowerBoundsCover(f.task.inst, f.task.agents);
    if f.task.cost.SumOfCosts? {
      ReportedCost(f, m, dupli, plan);
    }
  }

  /** The cost clauses bound the summed individual lengths of the reported plan. */
  lemma ReportedCost(f: Frame, m: Model, dupli: bool, plan: Plan)
    requires f.task.Valid() && f.task.withAt && f.task.cost.SumOfCosts? && f.Hard(m, dupli)
    requires |plan| == f.task.agents <= |f.task.inst.goals|
    requires forall a :: 0 <= a < |plan| ==> Reported(f, m, a, plan[a])
    ensures SumOfCostsOf(plan, f.task.inst.goals) <= f.task.inst.GetSocLB(f.task.agents) + f.task.delta
  {
    var how := if dupli then Elsewhere else NotAtGoal;
    forall a | 0 <= a < f.task.agents
      ensures Arrival(plan[a], f.task.inst.goals[a]) <= f.task.inst.spLengths[a] + f.Delay(m, how, a, f.task.delta)
    {
      ArrivalWithinDelay(f, m, a, plan[a], dupli);
    }
    CostWithinDelay(f, m, plan, how, f.task.agents);
    LowerBoundsCover(f.task.inst, f.task.agents);
  }

  /** The eager formulas have no model when two agents share a goal under sum of costs. */
  lemma EagerGoalsApart(f: Frame, m: Model, dupli: bool)
    requires f.task.Valid() && f.task.withAt && f.Hard(m, dupli) && f.VertexConf(m)
    ensures f.task.GoalsApart()
  {
    if f.task.cost.SumOfCosts? {
      forall a1, a2 | 0 <= a1 < a2 < f.task.agents ensures f.task.Goal(a1) != f.task.Goal(a2) {
        assert f.Holds(m, At(a1, f.task.Goal(a1), f.task.End(a1)));
        assert f.Holds(m, At(a2, f.task.Goal(a2), f.task.End(a2)));
      }
    }
  }

  /** Soundness of the eager formulas: every model shows a valid plan within the cost limit. */
  lemma EagerSound(f: Frame, m: Model, motion: Motion, dupli: bool, rows: Plan)
    requires f.task.Valid() && f.task.withAt && f.Hard(m, dupli) && f.Eager(m, motion)
    requires |rows| == f.task.agents <= |f.task.inst.goals|
    requires forall a :: 0 <= a < |rows| ==> Extracted(f, m, a, rows[a])
    ensures Fits(f.task, motion, Shown(f.task, rows))
  {
    var plan := Shown(f.task, rows);
    ShownReported(f, m, rows);
    forall c ensures !Found(plan, motion, c) {
      if Found(plan, motion, c) {
        var d := FoundViolated(f, m, motion, plan, c);
        EagerRespects(f, m, motion, d);
      }
    }
    DetectionAgrees(plan, motion);
    CleanPlanFits(f, m, motion, dupli, rows);
  }

  /**
   * Forbidding a shift into a cell together with a shift out of it makes plans over Shift variables 1-robust: no
   * agent enters a cell that another agent occupied one timestep before.
   */
  lemma ShiftPebbleRobust(f: Frame, m: Model, dupli: bool, rows: Plan, a1: nat, a2: nat, t: nat)
    requires f.task.Valid() && f.task.withAt && f.task.variables.UseShift? && f.Hard(m, dupli)
    requires f.VertexConf(m) && f.PebbleConfShift(m)
    requires |rows| == f.task.agents <= |f.task.inst.goals|
    requires forall a :: 0 <= a < |rows| ==> Extracted(f, m, a, rows[a])
    requires a1 < |rows| && a2 < |rows| && a1 != a2
    ensures
      var plan := Shown(f.task, rows);
      |plan| == |rows| && |plan[a1]| == |plan[a2]| && (t + 1 < |plan[a1]| ==> plan[a1][t + 1] != plan[a2][t])
  {
    var plan := Shown(f.task, rows);
    EagerSound(f, m, Pebble, dupli, rows);
    var b1, b2 := if a1 < a2 then a1 else a2, if a1 < a2 then a2 else a1;
    assert Apart(plan[b1], plan[b2], Pebble);
    assert t + 1 < |plan[a1]| ==> !Collide(plan[b1], plan[b2], t, Pebble);
  }

  // ----- satisfiability -----

  lemma {:induction false} WalkExists(f: Frame, m: Model, a: int, n: nat) returns (row: seq<int>)
    ensures |row| == n && (n > 0 ==> row[0] == f.task.Start(a))
    ensures forall t :: 0 <= t < n - 1 ==> NextVertex(f, m, a, row[t], row[t + 1], t)
  {
    if n == 0 {
      row := [];
    } else if n == 1 {
      row := [f.task.Start(a)];
    } else {
      var prefix := WalkExists(f, m, a, n - 1);
      var v, u, s := prefix[n - 2], -1, n - 2;
      if v != -1 && exists w :: GoesTo(f, m, a, v, w, s) {
        u :| GoesTo(f, m, a, v, u, s);
      }
      row := prefix + [u];
    }
  }

  lemma {:induction false} WalksExist(f: Frame, m: Model, k: nat) returns (rows: Plan)
    ensures |rows| == k && forall a :: 0 <= a < k ==> Extracted(f, m, a, rows[a])
  {
    if k == 0 {
      rows := [];
    } else {
      rows := WalksExist(f, m, k - 1);
      var row := WalkExists(f, m, k - 1, f.task.timesteps);
      rows := rows + [row];
    }
  }

  ghost predicate Solvable(task: Task, motion: Motion) {
    exists plan :: Fits(task, motion, plan)
  }

  /** Agents of a valid plan have distinct starts and distinct goals. */
  lemma SolvableApart(task: Task, motion: Motion)
    requires task.Valid() && Solvable(task, motion)
    ensures forall a1, a2 :: 0 <= a1 < a2 < task.agents ==>
      task.Start(a1) != task.Start(a2) && task.Goal(a1) != task.Goal(a2)
  {
    var plan :| Fits(task, motion, plan);
    forall a1, a2 | 0 <= a1 < a2 < task.agents
      ensures task.Start(a1) != task.Start(a2) && task.Goal(a1) != task.Goal(a2)
    {
      assert ValidPath(task.inst, a1, plan[a1]) && ValidPath(task.inst, a2, plan[a2]);
      assert Apart(plan[a1], plan[a2], motion);
      assert !Collide(plan[a1], plan[a2], 0, motion) && !Collide(plan[a1], plan[a2], Timesteps(plan) - 1, motion);
    }
  }

  ghost predicate Satisfiable(f: Frame, motion: Motion, dupli: bool) {
    exists m :: f.Hard(m, dupli) && f.Eager(m, motion)
  }

  /**
   * The makespan and sum-of-costs formulas over At, Pass or Shift variables, with or without duplicated agents, are
   * satisfiable exactly when a valid plan within the cost limit exists.
   */
  lemma FormulaDecides(f: Frame, motion: Motion, dupli: bool, lo: int, hi: int)
    requires f.task.Valid() && f.task.withAt && f.Numbered(lo, hi)
    ensures Satisfiable(f, motion, dupli) <==> Solvable(f.task, motion)
  {
    if Satisfiable(f, motion, dupli) {
      var m :| f.Hard(m, dupli) && f.Eager(m, motion);
      var rows := WalksExist(f, m, f.task.agents);
      EagerSound(f, m, motion, dupli, rows);
    }
    if Solvable(f.task, motion) {
      var plan :| Fits(f.task, motion, plan);
      var m := PlanModel(f, plan, lo, hi);
      PlanHard(f, m, motion, plan, dupli);
      PlanEager(f, m, motion, plan);
    }
  }

  /** The three kinds of variables and the treatment of duplicates make no difference to satisfiability. */
  lemma EncodingsEquisatisfiable(f1: Frame, f2: Frame, motion: Motion, d1: bool, d2: bool, n1: int, n2: int, n3: int,
                                 n4: int)
    requires f1.task.Valid() && f1.task.withAt && f1.Numbered(n1, n2)
    requires f2.task.Valid() && f2.task.withAt && f2.Numbered(n3, n4)
    requires f2.task == f1.task.(variables := f2.task.variables)
    ensures Satisfiable(f1, motion, d1) <==> Satisfiable(f2, motion, d2)
  {
    FormulaDecides(f1, motion, d1, n1, n2);
    FormulaDecides(f2, motion, d2, n3, n4);
    assert forall plan :: Fits(f1.task, motion, plan) <==> Fits(f2.task, motion, plan);
  }

  /**
   * Completeness of every stage of lazy solving: a solvable task has a model of the formula with any clauses on demand.
   */
  lemma LazyComplete(f: Frame, motion: Motion, dupli: bool, known: set<Conflict>, lo: int, hi: int) returns (m: Model)
    requires f.task.Valid() && f.task.withAt && f.Numbered(lo, hi) && Solvable(f.task, motion)
    requires forall c :: c in known ==> Expressible(f.task, c) && Relevant(motion, c)
    ensures f.Hard(m, dupli) && f.Eager(m, motion) && f.RespectsAll(m, known)
  {
    var plan :| Fits(f.task, motion, plan);
    m := PlanModel(f, plan, lo, hi);
    PlanHard(f, m, motion, plan, dupli);
    PlanEager(f, m, motion, plan);
    forall c | c in known ensures f.Respects(m, c) {
      EagerRespects(f, m, motion, c);
    }
  }

  /** One more unit of delta only widens the windows: conflicts found before stay expressible. */
  lemma ExpressibleMonotone(t1: Task, t2: Task, c: Conflict)
    requires t1.Valid() && t2.Valid() && Expressible(t1, c)
    requires t2 == t1.(delta := t1.delta + 1, timesteps := t1.timesteps + 1)
    ensures Expressible(t2, c)
  {
    forall a, v | t1.IsAgent(a) && t1.IsVertex(v)
      ensures t2.First(a, v) == t1.First(a, v) && t2.Last(a, v) == t1.Last(a, v) + 1
    {
      AgentFacts(t1, a);
    }
  }
}
