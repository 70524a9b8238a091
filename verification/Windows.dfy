/** The time windows never cut a usable move: no dead ends, and the Pass windows match the At windows. */
module Windows {
  import opened Distances
  import opened Instances
  import opened Encodings

  /** Shape of the tables of one agent. */
  lemma AgentFacts(task: Task, a: int)
    requires task.Valid() && task.IsAgent(a)
    ensures task.inst.AgentTables(a) && task.inst.graph.Valid()
    ensures task.IsVertex(task.Start(a)) && task.IsVertex(task.Goal(a))
    ensures |task.inst.lengthFromStart[a]| == |task.inst.lengthFromGoal[a]| == task.inst.graph.Size()
    ensures task.First(a, task.Start(a)) == 0
    ensures 0 <= task.First(a, task.Goal(a)) == task.inst.spLengths[a] <= task.End(a) <= task.timesteps - 1
    ensures task.End(a) == if task.cost.Makespan? then task.timesteps - 1 else task.inst.spLengths[a] + task.delta
    ensures task.inst.lengthFromGoal[a][task.Start(a)] == task.inst.spLengths[a]
    ensures 0 <= task.Last(a, task.Start(a))
  {
    LowerBoundsCover(task.inst, task.agents);
    assert task.inst.AgentTables(a);
    var i := task.inst;
    DistanceSymmetric(i.graph, i.starts[a], i.lengthFromStart[a], i.goals[a], i.lengthFromGoal[a]);
  }

  /** a can reach v, equivalently v can reach the goal of a. */
  predicate Usable(task: Task, a: int, v: int) {
    task.IsAgent(a) && task.IsVertex(v) && task.First(a, v) >= 0
  }

  lemma UsableFacts(task: Task, a: int, v: int)
    requires task.Valid() && task.IsAgent(a) && task.IsVertex(v)
    ensures task.inst.AgentTables(a)
    ensures |task.inst.lengthFromStart[a]| == |task.inst.lengthFromGoal[a]| == task.inst.graph.Size()
    ensures Usable(task, a, v) <==> task.inst.lengthFromStart[a][v] >= 0
    ensures Usable(task, a, v) <==> task.inst.lengthFromGoal[a][v] >= 0
    ensures task.Last(a, v) == task.End(a) - task.inst.lengthFromGoal[a][v]
  {
    AgentFacts(task, a);
    var i := task.inst;
    SameComponent(i.graph, i.starts[a], i.lengthFromStart[a], i.goals[a], i.lengthFromGoal[a], v);
  }

  /** Windows of adjacent cells are shifted by at most one timestep. */
  lemma WindowStep(task: Task, a: int, v: int, dir: int, u: int)
    requires task.Valid() && task.IsAgent(a) && task.Leads(v, dir, u)
    ensures task.IsVertex(u) && task.Neighbor(v, dir) == u && u != -1
    ensures task.First(a, v) - 1 <= task.First(a, u) <= task.First(a, v) + 1
    ensures task.Last(a, v) - 1 <= task.Last(a, u) <= task.Last(a, v) + 1
    ensures Usable(task, a, v) <==> Usable(task, a, u)
  {
    UsableFacts(task, a, v);
    UsableFacts(task, a, u);
    var i := task.inst;
    DistanceLipschitz(i.graph, i.starts[a], i.lengthFromStart[a], v, dir, u);
    DistanceLipschitz(i.graph, i.goals[a], i.lengthFromGoal[a], v, dir, u);
  }

  /** A usable cell is on the goal exactly when its window ends with the agent's. */
  lemma LastBeforeEnd(task: Task, a: int, v: int)
    requires task.Valid() && Usable(task, a, v)
    ensures task.Last(a, v) <= task.End(a)
    ensures task.Last(a, v) == task.End(a) <==> v == task.Goal(a)
  {
    UsableFacts(task, a, v);
    AgentFacts(task, a);
  }

  /** Towards the goal there is always a next cell whose window is open. */
  lemma StepTowardsGoal(task: Task, a: int, v: int, t: int) returns (dir: int, u: int)
    requires task.Valid() && task.withAt && Usable(task, a, v) && task.Exists(At(a, v, t))
    requires !(v == task.Goal(a) && t == task.End(a))
    ensures task.Leads(v, dir, u) && task.Exists(At(a, u, t + 1))
  {
    UsableFacts(task, a, v);
    var i := task.inst;
    if v == i.goals[a] {
      dir, u := 0, v;
    } else {
      assert HasParent(i.graph, i.lengthFromGoal[a], v);
      dir, u :| i.graph.Leads(v, dir, u) && i.graph.IsVertex(u) && i.lengthFromGoal[a][u] == i.lengthFromGoal[a][v] - 1;
    }
    UsableFacts(task, a, u);
    WindowStep(task, a, v, dir, u);
  }

  /** No dead ends: the list of next vertices of a usable variable is empty only at the goal in its last timestep. */
  lemma NoDeadEndAt(f: Frame, a: int, v: int, t: int)
    requires f.task.Valid() && f.task.withAt && Usable(f.task, a, v) && f.task.Exists(At(a, v, t))
    ensures !f.HasNextAt(a, v, t) <==> v == f.task.Goal(a) && t == f.task.End(a)
  {
    if !(v == f.task.Goal(a) && t == f.task.End(a)) {
      var dir, u := StepTowardsGoal(f.task, a, v, t);
    } else if f.HasNextAt(a, v, t) {
      var dir, u :| f.task.Leads(v, dir, u) && f.task.Exists(At(a, u, t + 1));
      WindowStep(f.task, a, v, dir, u);
      LastBeforeEnd(f.task, a, u);
    }
  }

  /**
   * The Pass windows are right, for every cell: a Pass variable exists exactly when the At variables at both of
   * its ends do.
   */
  lemma PassWindow(task: Task, a: int, v: int, dir: int, u: int, t: int)
    requires task.Valid() && task.withAt && task.variables.UsePass? && task.IsAgent(a) && task.Leads(v, dir, u)
    ensures task.Exists(Pass(a, v, dir, t)) <==> task.Exists(At(a, v, t)) && task.Exists(At(a, u, t + 1))
  {
    WindowStep(task, a, v, dir, u);
  }

  /** No dead ends for the Pass variables either. */
  lemma NoDeadEndPass(f: Frame, a: int, v: int, t: int)
    requires f.task.Valid() && f.task.withAt && f.task.variables.UsePass?
    requires Usable(f.task, a, v) && f.task.Exists(At(a, v, t))
    ensures !f.HasNextPass(a, v, t) <==> v == f.task.Goal(a) && t == f.task.End(a)
  {
    NoDeadEndAt(f, a, v, t);
    if f.HasNextAt(a, v, t) {
      var dir, u :| f.task.Leads(v, dir, u) && f.task.Exists(At(a, u, t + 1));
      PassWindow(f.task, a, v, dir, u, t);
      assert f.task.Exists(Pass(a, v, dir, t));
    }
    if f.HasNextPass(a, v, t) {
      var dir :| 0 <= dir < 5 && f.task.Exists(Pass(a, v, dir, t));
      NeighborLeads(f.task, v, dir);
      PassWindow(f.task, a, v, dir, f.task.Neighbor(v, dir), t);
    }
  }

  lemma NeighborLeads(task: Task, v: int, dir: int)
    requires task.inst.graph.Valid() && task.Neighbor(v, dir) != -1
    ensures 0 <= dir < 5 && task.IsVertex(v) && task.Leads(v, dir, task.Neighbor(v, dir))
  {
  }

  /** A Shift variable exists wherever some agent has the At variables at both ends of the edge. */
  lemma ShiftWindow(task: Task, a: int, v: int, dir: int, u: int, t: int)
    requires task.Valid() && task.variables.UseShift? && task.IsAgent(a) && task.Leads(v, dir, u)
    requires t >= 0 && task.First(a, v) <= t && t + 1 <= task.Last(a, u)
    requires Usable(task, a, v)
    ensures task.Exists(Shift(v, dir, t))
  {
    WindowStep(task, a, v, dir, u);
    AgentFacts(task, a);
    LastBeforeEnd(task, a, u);
    assert task.CanTraverse(a, v, dir, t);
  }
}
