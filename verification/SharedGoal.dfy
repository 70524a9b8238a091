/** Lazy solving under sum of costs when agents share a goal: conflicts are listed that have no variables. */
module SharedGoal {
  import opened Grids
  import opened Distances
  import opened Instances
  import opened Plans
  import opened Cnf
  import opened Encodings
  import opened Windows
  import opened Soundness
  import opened Equivalence
  import opened SatSolvers

  /**
   * Two agents that have arrived at a shared goal are reported as a vertex conflict at every later timestep shown,
   * and that conflict has no variables.
   */
  lemma SharedGoalInexpressible(task: Task, rows: Plan, a1: nat, a2: nat, t: nat)
    requires task.Valid() && task.withAt && task.cost.SumOfCosts?
    requires |rows| == task.agents <= |task.inst.goals|
    requires forall a :: 0 <= a < |rows| ==> Stops(task, a, rows[a])
    requires a1 < a2 < task.agents && task.Goal(a1) == task.Goal(a2)
    requires task.End(a1) < t && task.End(a2) < t
    ensures |Shown(task, rows)| == |rows| && Rectangular(Shown(task, rows), Timesteps(Shown(task, rows)))
    ensures t < Timesteps(Shown(task, rows)) ==> FoundVertex(Shown(task, rows), VertexC(a1, a2, task.Goal(a1), t))
    ensures !Expressible(task, VertexC(a1, a2, task.Goal(a1), t))
  {
    ShownRows(task, rows);
    assert ShownRow(task, a1, rows[a1], Shown(task, rows)[a1]);
    assert ShownRow(task, a2, rows[a2], Shown(task, rows)[a2]);
  }

  /**
   * The conflicts listed for the plan read off a model all have variables exactly when agents sharing a goal have
   * theirs up to the last timestep shown. Distinct goals ensure it.
   */
  lemma FoundExpressibleIff(f: Frame, m: Model, motion: Motion, dupli: bool, rows: Plan)
    requires f.task.Valid() && f.task.withAt && f.Hard(m, dupli) && |rows| == f.task.agents <= |f.task.inst.goals|
    requires forall a :: 0 <= a < |rows| ==> Extracted(f, m, a, rows[a])
    ensures Rectangular(Shown(f.task, rows), Timesteps(Shown(f.task, rows)))
    ensures (forall c :: Found(Shown(f.task, rows), motion, c) ==> Expressible(f.task, c))
       <==> f.task.SharedGoalsLast(Timesteps(Shown(f.task, rows)))
    ensures f.task.GoalsApart() ==> f.task.SharedGoalsLast(Timesteps(Shown(f.task, rows)))
  {
    hide Expressible, Frame.Hard, FoundSwap, FoundPebble, Extracted, Reported, Shown;
    HardParts(f, m, dupli);
    var plan := Shown(f.task, rows);
    ShownReported(f, m, rows);
    if f.task.SharedGoalsLast(Timesteps(plan)) {
      forall c | Found(plan, motion, c) ensures Expressible(f.task, c) {
        FoundExpressible(f, m, motion, plan, c);
      }
    }
    if !f.task.SharedGoalsLast(Timesteps(plan)) {
      forall a | 0 <= a < |rows| ensures Stops(f.task, a, rows[a]) {
        WalkStops(f, m, a, rows[a]);
      }
      var a1: nat, a2: nat :| a1 < a2 < f.task.agents && f.task.Goal(a1) == f.task.Goal(a2)
                              && Timesteps(plan) - 1 > f.task.End(a1) && Timesteps(plan) - 1 > f.task.End(a2);
      AgentFacts(f.task, a1);
      SharedGoalInexpressible(f.task, rows, a1, a2, Timesteps(plan) - 1);
      assert Found(plan, motion, VertexC(a1, a2, f.task.Goal(a1), Timesteps(plan) - 1));
    }
  }

  lemma HardParts(f: Frame, m: Model, dupli: bool)
    requires f.Hard(m, dupli)
    ensures f.StartsHold(m) && f.GoalsHold(m) && f.Movement(m) && (f.task.cost.SumOfCosts? ==> f.NoneAtGoal(m))
  {
  }

  /** The plan shown for the rows has the conflict c, which has no variables. */
  ghost predicate ListedWithoutVariables(task: Task, rows: Plan, c: Conflict) {
    && |rows| <= |task.inst.goals|
    && Rectangular(Shown(task, rows), Timesteps(Shown(task, rows)))
    && FoundVertex(Shown(task, rows), c) && !Expressible(task, c)
  }

  // ----- an instance: four cells in a row, two agents entering cell 1 from both sides, a third leaving it -----

  const LINE := Graph([[0, -1, -1, -1, 1], [1, -1, -1, 0, 2], [2, -1, -1, 1, 3], [3, -1, -1, 2, -1]])

  const INSTANCE := Inst(
    LINE, [0, 2, 1], [1, 1, 3],
    [[0, 1, 2, 3], [2, 1, 0, 1], [1, 0, 1, 2]], [[1, 0, 1, 2], [1, 0, 1, 2], [3, 2, 1, 0]],
    [1, 1, 2], [0, 2, 2, 3], [0, 2, 4, 7])

  const CALL := Task(INSTANCE, 3, SumOfCosts, 0, 3, UseAt, true)

  const NONE := TEGAgent(0, 0, 0)

  const TABLES := Frame(
    CALL,
    [[TEGAgent(1, 0, 0), TEGAgent(2, 1, 1), NONE, NONE],
     [NONE, TEGAgent(3, 1, 1), TEGAgent(4, 0, 0), NONE],
     [NONE, TEGAgent(5, 0, 0), TEGAgent(6, 1, 1), TEGAgent(7, 2, 2)]],
    [], [], [], [])

  const MODEL: Model := {1, 2, 3, 4, 5, 6, 7}

  const ROWS: Plan := [[0, 1, -1], [2, 1, -1], [1, 2, 3]]

  /** The cell of each agent at each timestep of its window, or -1. */
  function Cell(a: int, t: int): int {
    if 0 <= a < 3 && 0 <= t < 3 then ROWS[a][t] else -1
  }

  predicate LineEdge(v: int, dir: int, u: int) {
    || (0 <= v < 4 && dir == 0 && u == v)
    || (1 <= v < 4 && dir == 3 && u == v - 1)
    || (0 <= v < 3 && dir == 4 && u == v + 1)
  }

  lemma LineLeads(v: int, dir: int, u: int)
    ensures LINE.Leads(v, dir, u) <==> LineEdge(v, dir, u)
  {
  }

  lemma CallValid()
    ensures CALL.Valid()
  {
    LineValid();
    forall a: nat | a < 3 ensures INSTANCE.AgentTables(a) {
      LineTable(INSTANCE.starts[a], INSTANCE.lengthFromStart[a]);
      LineTable(INSTANCE.goals[a], INSTANCE.lengthFromGoal[a]);
    }
  }

  lemma LineValid()
    ensures LINE.Valid()
  {
    forall v, dir, u ensures LINE.Leads(v, dir, u) <==> LineEdge(v, dir, u)
    {
      LineLeads(v, dir, u);
    }
  }

  lemma LineTable(s: int, len: seq<int>)
    requires 0 <= s < 4 && |len| == 4 && forall v :: 0 <= v < 4 ==> len[v] == if v < s then s - v else v - s
    ensures DistTable(LINE, s, len)
  {
    LineValid();
    forall v, dir, u ensures LINE.Leads(v, dir, u) <==> LineEdge(v, dir, u)
    {
      LineLeads(v, dir, u);
    }
    forall v | 0 <= v < 4 && len[v] > 0 ensures HasParent(LINE, len, v) {
      if v < s {
        assert LINE.Leads(v, 4, v + 1);
      } else {
        assert LINE.Leads(v, 3, v - 1);
      }
    }
  }

  /** The variables of the call are the cells of the rows. */
  lemma Variables(a: int, v: int, t: int)
    ensures CALL.Exists(At(a, v, t)) <==> 0 <= v && Cell(a, t) == v
    ensures CALL.Exists(At(a, v, t)) ==> TABLES.Holds(MODEL, At(a, v, t))
  {
  }

  /** The number of the variable of agent a at t. */
  function Number(a: int, t: int): int {
    if a == 0 then t + 1 else if a == 1 then 4 - t else t + 5
  }

  lemma Numbers(x: Atom)
    ensures CALL.Exists(x) <==> x.At? && 0 <= x.v && Cell(x.a, x.t) == x.v
    ensures CALL.Exists(x) ==> TABLES.Id(x) == Number(x.a, x.t) && TABLES.Holds(MODEL, x)
  {
    if x.At? {
      Variables(x.a, x.v, x.t);
    }
  }

  lemma TablesNumbered()
    ensures TABLES.Numbered(1, 8)
  {
    forall x ensures CALL.Exists(x) <==> x.At? && 0 <= x.v && Cell(x.a, x.t) == x.v
      ensures CALL.Exists(x) ==> TABLES.Id(x) == Number(x.a, x.t)
    {
      Numbers(x);
    }
    hide Task.Exists, Frame.Id;
    forall i | 1 <= i < 8 ensures TABLES.IsNumber(i) {
      NumberUsed(i);
    }
  }

  lemma NumberUsed(i: int)
    requires 1 <= i < 8
    ensures TABLES.IsNumber(i)
  {
    var a, t := if i < 3 then 0 else if i < 5 then 1 else 2, if i < 3 then i - 1 else if i < 5 then 4 - i else i - 5;
    var x := At(a, Cell(a, t), t);
    Numbers(x);
    assert CALL.Exists(x) && TABLES.Id(x) == i;
  }

  lemma TablesReady()
    ensures TABLES.Ready()
  {
    CallValid();
    hide Task.Valid;
    forall a, v | 0 <= a < 3 && 0 <= v < 4 ensures TABLES.AtEntryOk(a, v, TABLES.at[a][v]) {
    }
  }

  lemma Ends()
    ensures CALL.End(0) == 1 && CALL.End(1) == 1 && CALL.End(2) == 2
    ensures CALL.Goal(0) == 1 && CALL.Goal(1) == 1 && CALL.Goal(2) == 3
    ensures CALL.Start(0) == 0 && CALL.Start(1) == 2 && CALL.Start(2) == 1
  {
  }

  /** The model makes exactly the variables of the rows true. */
  lemma ModelCells()
    ensures forall a, v, t :: TABLES.Holds(MODEL, At(a, v, t)) <==> 0 <= v && Cell(a, t) == v
  {
    forall a, v, t ensures TABLES.Holds(MODEL, At(a, v, t)) <==> 0 <= v && Cell(a, t) == v {
      Variables(a, v, t);
    }
  }

  lemma ModelPositions()
    ensures TABLES.StartsHold(MODEL) && TABLES.GoalsHold(MODEL)
    ensures TABLES.NoneAtGoal(MODEL) && TABLES.NoDuplicates(MODEL)
  {
    ModelCells();
    Ends();
    hide Frame.Holds, Task.End, Task.Goal, Task.Start;
    forall a | 0 <= a < 3
      ensures TABLES.Holds(MODEL, At(a, CALL.Start(a), 0)) && TABLES.Holds(MODEL, At(a, CALL.Goal(a), CALL.End(a)))
    {
      assert a == 0 || a == 1 || a == 2;
    }
    forall a, b, t | 0 <= a < 3 && 0 <= b < 3 && t > CALL.End(a) ensures !TABLES.Holds(MODEL, At(b, CALL.Goal(a), t)) {
      assert (a == 0 || a == 1 || a == 2) && (b == 0 || b == 1 || b == 2);
    }
  }

  lemma ModelMoves()
    ensures TABLES.NextVertexAt(MODEL)
  {
    forall a, v, t | TABLES.Holds(MODEL, At(a, v, t)) && TABLES.HasNextAt(a, v, t)
      ensures TABLES.MovesTo(MODEL, a, v, t)
    {
      var dir, u :| LINE.Leads(v, dir, u) && CALL.Exists(At(a, u, t + 1));
      Variables(a, u, t + 1);
      assert CALL.Leads(v, dir, u) && TABLES.Holds(MODEL, At(a, u, t + 1));
    }
  }

  /** A model of everything but conflict clauses, whether or not agents may be duplicated. */
  lemma ModelHard(dupli: bool)
    ensures TABLES.Hard(MODEL, dupli)
  {
    hide Frame.Holds, Frame.NextVertexAt, Frame.NoDuplicates, Frame.NoneAtGoal, Frame.StartsHold, Frame.GoalsHold;
    ModelPositions();
    ModelMoves();
    NoAllowance(TABLES, MODEL, if dupli then Elsewhere else NotAtGoal, 3);
  }

  /** The rows are what the extraction loop reads off that model. */
  lemma RowExtracted(a: nat)
    requires a < 3
    ensures Extracted(TABLES, MODEL, a, ROWS[a])
  {
    forall v, t ensures TABLES.Holds(MODEL, At(a, v, t)) <==> 0 <= v && Cell(a, t) == v {
      Variables(a, v, t);
    }
    forall t | 0 <= t < 2 ensures NextVertex(TABLES, MODEL, a, ROWS[a][t], ROWS[a][t + 1], t) {
      var v, u := Cell(a, t), Cell(a, t + 1);
      if u != -1 {
        var dir := if u < v then 3 else 4;
        LineLeads(v, dir, u);
        assert Goes(TABLES, MODEL, a, v, dir, u, t);
      }
    }
  }

  /**
   * On this call a lazy round lists a vertex conflict at timestep 2 for which there are no variables. The numbers
   * computed for it belong to the second agent, at its goal and at its start, which every model needs: the clause can
   * only be added because there is no plan anyway.
   */
  lemma SharedGoalListed(dupli: bool)
    ensures CALL.Valid() && TABLES.Ready() && TABLES.Numbered(1, 8) && TABLES.Hard(MODEL, dupli)
    ensures forall a :: 0 <= a < 3 ==> Extracted(TABLES, MODEL, a, ROWS[a])
    ensures ListedWithoutVariables(CALL, ROWS, VertexC(0, 1, 1, 2))
    ensures TABLES.Id(At(0, 1, 2)) == TABLES.Id(At(1, 1, 1)) && CALL.Goal(1) == 1 && CALL.End(1) == 1
    ensures TABLES.Id(At(1, 1, 2)) == TABLES.Id(At(1, 2, 0)) && CALL.Start(1) == 2
    ensures forall m :: !(TABLES.StartsHold(m) && TABLES.GoalsHold(m) && TABLES.Demands(m, VertexC(0, 1, 1, 2)))
  {
    hide Frame.Ready, Frame.Numbered, Frame.Hard, Extracted, Task.Valid, Frame.Id, ListedWithoutVariables;
    CallValid();
    TablesReady();
    TablesNumbered();
    ModelHard(dupli);
    forall a | 0 <= a < 3 ensures Extracted(TABLES, MODEL, a, ROWS[a]) {
      RowExtracted(a);
    }
    Ends();
    Listed();
    SameNumber();
    forall m ensures !(TABLES.StartsHold(m) && TABLES.GoalsHold(m) && TABLES.Demands(m, VertexC(0, 1, 1, 2))) {
      ClauseRefuted(m);
    }
  }

  lemma ClauseRefuted(m: Model)
    ensures !(TABLES.StartsHold(m) && TABLES.GoalsHold(m) && TABLES.Demands(m, VertexC(0, 1, 1, 2)))
  {
    Ends();
    SameNumber();
    hide Frame.Id, Task.Exists;
    if TABLES.StartsHold(m) && TABLES.GoalsHold(m) {
      assert TABLES.Holds(m, At(1, CALL.Start(1), 0)) && TABLES.Holds(m, At(1, CALL.Goal(1), CALL.End(1)));
    }
  }

  lemma SameNumber()
    ensures TABLES.Id(At(0, 1, 2)) == TABLES.Id(At(1, 1, 1)) && TABLES.Id(At(1, 1, 2)) == TABLES.Id(At(1, 2, 0))
  {
  }

  lemma Listed()
    ensures ListedWithoutVariables(CALL, ROWS, VertexC(0, 1, 1, 2))
  {
    CallValid();
    Ends();
    hide Task.Valid, Task.Exists, Expressible, Task.End, Task.Goal, Shown;
    forall a | 0 <= a < 3 ensures Stops(CALL, a, ROWS[a]) {
      assert a == 0 || a == 1 || a == 2;
    }
    SharedGoalInexpressible(CALL, ROWS, 0, 1, 2);
    ShownRows(CALL, ROWS);
    ThirdShown(Shown(CALL, ROWS)[2]);
  }

  /** The third agent leaves its goal's neighbour at timestep 1, so its row is shown up to timestep 2. */
  lemma ThirdShown(r: Path)
    requires ShownRow(CALL, 2, ROWS[2], r)
    ensures |r| == 3
  {
    Ends();
  }
}
