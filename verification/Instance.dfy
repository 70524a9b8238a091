/** The problem instance of src/instance.cpp: map, agents, distance tables and lower bounds. */
module Instances {
  import opened Grids
  import opened Distances

  datatype Agent = Agent(start: Vertex, goal: Vertex)

  datatype Cost = Makespan | SumOfCosts

  function Max(a: int, b: int): int { if a > b then a else b }

  function Min(a: int, b: int): int { if a < b then a else b }

  /** What the solvers read of an instance, as a value. */
  datatype Inst = Inst(
    graph: Graph, starts: seq<int>, goals: seq<int>,
    lengthFromStart: seq<seq<int>>, lengthFromGoal: seq<seq<int>>,
    spLengths: seq<int>, mksLBs: seq<int>, socLBs: seq<int>)
  {
    /** The tables of the first k agents are filled in. */
    ghost predicate Valid(k: nat) {
      && graph.Valid()
      && k <= |starts| == |goals| == |lengthFromStart| == |lengthFromGoal| == |spLengths|
      && |mksLBs| == |socLBs| == |starts| + 1
      && mksLBs[0] == 0 && socLBs[0] == 0
      && forall a :: 0 <= a < k ==> AgentTables(a)
    }

    ghost predicate AgentTables(a: nat)
      requires a < |starts| == |goals| == |lengthFromStart| == |lengthFromGoal| == |spLengths|
      requires |mksLBs| == |socLBs| == |starts| + 1
    {
      && DistTable(graph, starts[a], lengthFromStart[a])
      && DistTable(graph, goals[a], lengthFromGoal[a])
      && spLengths[a] == lengthFromStart[a][goals[a]]
      && mksLBs[a + 1] == Max(mksLBs[a], spLengths[a] + 1)
      && socLBs[a + 1] == socLBs[a] + spLengths[a] + 1
    }

    /** Every one of the first k agents can reach its goal. */
    predicate Reachable(k: nat)
      requires k <= |spLengths|
    {
      forall a :: 0 <= a < k ==> spLengths[a] >= 0
    }

    function GetMksLB(k: nat): int
      requires k < |mksLBs|
    {
      if mksLBs[k] >= 0 then mksLBs[k] else -1
    }

    function GetSocLB(k: nat): int
      requires k < |socLBs|
    {
      if socLBs[k] >= 0 then socLBs[k] else -1
    }

    function FirstTimestep(a: nat, v: nat): int
      requires a < |lengthFromStart| && v < |lengthFromStart[a]|
    {
      lengthFromStart[a][v]
    }

    function LastTimestep(a: nat, v: nat, timelimit: int, delta: int, cost: Cost): int
      requires a < |lengthFromGoal| == |spLengths| && v < |lengthFromGoal[a]|
    {
      match cost
      case Makespan => timelimit - lengthFromGoal[a][v] - 1
      case SumOfCosts => spLengths[a] + delta - lengthFromGoal[a][v]
    }
  }

  /** The lower bounds are attained by no fewer timesteps than each agent's shortest path needs. */
  lemma {:induction false} LowerBoundsCover(inst: Inst, k: nat)
    requires inst.Valid(k)
    ensures inst.mksLBs[k] >= 0 && inst.socLBs[k] >= 0
    ensures forall a :: 0 <= a < k ==> inst.spLengths[a] >= -1 && inst.spLengths[a] + 1 <= inst.mksLBs[k]
  {
    if k > 0 {
      assert inst.AgentTables(k - 1);
      LowerBoundsCover(inst, k - 1);
    }
  }

  lemma DistTableUnique(g: Graph, s: int, l1: seq<int>, l2: seq<int>)
    requires g.Valid() && DistTable(g, s, l1) && DistTable(g, s, l2)
    ensures l1 == l2
  {
    forall v | g.IsVertex(v) ensures l1[v] == l2[v] {
      DistTableExact(g, s, l1, v);
      DistTableExact(g, s, l2, v);
      if l1[v] >= 0 {
        assert Within(g, s, v, l1[v]);
      }
      if l2[v] >= 0 {
        assert Within(g, s, v, l2[v]);
      }
    }
  }

  /** The tables are a function of the map and the agents: no call history of SetAgents can change them. */
  lemma {:induction false} TablesDetermined(i1: Inst, i2: Inst, k: nat)
    requires i1.Valid(k) && i2.Valid(k)
    requires i1.graph == i2.graph && i1.starts == i2.starts && i1.goals == i2.goals
    ensures forall a :: 0 <= a < k ==>
      && i1.lengthFromStart[a] == i2.lengthFromStart[a] && i1.lengthFromGoal[a] == i2.lengthFromGoal[a]
      && i1.spLengths[a] == i2.spLengths[a]
    ensures i1.mksLBs[..k + 1] == i2.mksLBs[..k + 1] && i1.socLBs[..k + 1] == i2.socLBs[..k + 1]
  {
    if k > 0 {
      TablesDetermined(i1, i2, k - 1);
      assert i1.AgentTables(k - 1) && i2.AgentTables(k - 1);
      DistTableUnique(i1.graph, i1.starts[k - 1], i1.lengthFromStart[k - 1], i2.lengthFromStart[k - 1]);
      DistTableUnique(i1.graph, i1.goals[k - 1], i1.lengthFromGoal[k - 1], i2.lengthFromGoal[k - 1]);
      assert i1.mksLBs[k - 1] == i1.mksLBs[..k][k - 1] == i2.mksLBs[..k][k - 1] == i2.mksLBs[k - 1];
      assert i1.socLBs[k - 1] == i1.socLBs[..k][k - 1] == i2.socLBs[..k][k - 1] == i2.socLBs[k - 1];
      assert i1.mksLBs[..k + 1] == i1.mksLBs[..k] + [i1.mksLBs[k]];
      assert i2.mksLBs[..k + 1] == i2.mksLBs[..k] + [i2.mksLBs[k]];
      assert i1.socLBs[..k + 1] == i1.socLBs[..k] + [i1.socLBs[k]];
      assert i2.socLBs[..k + 1] == i2.socLBs[..k] + [i2.socLBs[k]];
    }
  }

  lemma TableLength(g: Graph, s: int, len: seq<int>)
    requires DistTable(g, s, len)
    ensures |len| == g.Size()
  {
  }

  /** The instance after the tables of agent i have been filled in. */
  ghost function WithTables(inst: Inst, i: nat, fromStart: seq<int>, fromGoal: seq<int>): Inst
    requires inst.Valid(i) && i < |inst.starts|
    requires DistTable(inst.graph, inst.starts[i], fromStart) && DistTable(inst.graph, inst.goals[i], fromGoal)
  {
    var sp := fromStart[inst.goals[i]];
    inst.(lengthFromStart := inst.lengthFromStart[i := fromStart], lengthFromGoal := inst.lengthFromGoal[i := fromGoal],
          spLengths := inst.spLengths[i := sp],
          mksLBs := inst.mksLBs[i + 1 := Max(inst.mksLBs[i], sp + 1)],
          socLBs := inst.socLBs[i + 1 := inst.socLBs[i] + sp + 1])
  }

  lemma TablesExtended(inst: Inst, i: nat, fromStart: seq<int>, fromGoal: seq<int>)
    requires inst.Valid(i) && i < |inst.starts|
    requires DistTable(inst.graph, inst.starts[i], fromStart) && DistTable(inst.graph, inst.goals[i], fromGoal)
    ensures WithTables(inst, i, fromStart, fromGoal).Valid(i + 1)
  {
    hide DistTable, Graph.Valid;
    forall a | 0 <= a < i + 1 ensures WithTables(inst, i, fromStart, fromGoal).AgentTables(a) {
      assert a < i ==> inst.AgentTables(a);
    }
  }

  /** Cell (i, j) has been numbered before (x, y) in the row-by-row scan. */
  predicate Before(c: Vertex, x: nat, y: nat) { c.x < x || (c.x == x && c.y < y) }

  /** Scanning state of LoadMapData: cells before (x, y) are numbered, the others still raw. */
  ghost predicate Scanned(raw: seq<seq<int>>, cells: seq<seq<int>>, coords: seq<Vertex>, x: nat, y: nat) {
    var g := Grid(cells, coords);
    && |cells| == |raw| && (forall i :: 0 <= i < |raw| ==> |cells[i]| == |raw[i]|)
    && (forall v :: 0 <= v < |coords| ==> g.InGrid(coords[v]) && Before(coords[v], x, y))
    && g.Rectangular()
    && (forall v :: 0 <= v < |coords| ==> cells[coords[v].x][coords[v].y] == v)
    && (forall c: Vertex :: g.InGrid(c) && Before(c, x, y) && cells[c.x][c.y] != -1 ==>
          0 <= cells[c.x][c.y] < |coords| && coords[cells[c.x][c.y]] == c)
    && (forall c: Vertex :: g.InGrid(c) && !Before(c, x, y) ==> cells[c.x][c.y] == raw[c.x][c.y])
    && (forall c: Vertex :: g.InGrid(c) ==> (cells[c.x][c.y] == -1 <==> raw[c.x][c.y] == -1))
    && (forall u, v :: 0 <= u < v < |coords| ==> Before(coords[u], coords[v].x, coords[v].y))
  }

  lemma NumberNextCell(raw: seq<seq<int>>, cells: seq<seq<int>>, coords: seq<Vertex>, x: nat, y: nat)
    requires Scanned(raw, cells, coords, x, y) && x < |raw| && y < |raw[x]| && cells[x][y] != -1
    ensures Scanned(raw, cells[x := cells[x][y := |coords|]], coords + [Vertex(x, y)], x, y + 1)
  {
    var cells', coords' := cells[x := cells[x][y := |coords|]], coords + [Vertex(x, y)];
    var g, g' := Grid(cells, coords), Grid(cells', coords');
    assert g'.Width() == g.Width();
    forall v | 0 <= v < |coords'|
      ensures g'.InGrid(coords'[v]) && Before(coords'[v], x, y + 1) && cells'[coords'[v].x][coords'[v].y] == v
    {
      if v < |coords| {
        assert Before(coords[v], x, y);
      }
    }
  }

  lemma SkipObstacle(raw: seq<seq<int>>, cells: seq<seq<int>>, coords: seq<Vertex>, x: nat, y: nat)
    requires Scanned(raw, cells, coords, x, y) && x < |raw| && y < |raw[x]| && cells[x][y] == -1
    ensures Scanned(raw, cells, coords, x, y + 1)
  {
    forall c: Vertex | Grid(cells, coords).InGrid(c) && Before(c, x, y + 1) && cells[c.x][c.y] != -1
      ensures Before(c, x, y)
    {
    }
  }

  lemma RowScanned(raw: seq<seq<int>>, cells: seq<seq<int>>, coords: seq<Vertex>, x: nat)
    requires |raw| > 0 && (forall i :: 0 <= i < |raw| ==> |raw[i]| == |raw[0]|)
    requires Scanned(raw, cells, coords, x, |raw[0]|) && x < |raw|
    ensures Scanned(raw, cells, coords, x + 1, 0)
  {
    forall c: Vertex | Grid(cells, coords).InGrid(c) ensures Before(c, x, |raw[0]|) <==> Before(c, x + 1, 0) {
    }
  }

  lemma AllScanned(raw: seq<seq<int>>, g: Grid)
    requires Scanned(raw, g.cells, g.coords, |raw|, 0)
    ensures NumbersFreeCells(raw, g)
  {
    assert g == Grid(g.cells, g.coords);
    forall c: Vertex | g.InGrid(c) && g.cells[c.x][c.y] != -1
      ensures g.IsVertex(g.cells[c.x][c.y]) && g.coords[g.cells[c.x][c.y]] == c
    {
      assert Before(c, |raw|, 0);
    }
  }

  /** The grid numbers exactly the cells that are not obstacles, row by row. */
  ghost predicate NumbersFreeCells(raw: seq<seq<int>>, g: Grid) {
    && g.Valid()
    && |g.cells| == |raw| && (forall i :: 0 <= i < |raw| ==> |g.cells[i]| == |raw[i]|)
    && (forall c: Vertex :: g.InGrid(c) ==> (g.cells[c.x][c.y] == -1 <==> raw[c.x][c.y] == -1))
    && (forall u, v :: 0 <= u < v < |g.coords| ==> Before(g.coords[u], g.coords[v].x, g.coords[v].y))
  }

  predicate FreeCells(raw: seq<seq<int>>, ps: seq<(nat, nat)>) {
    forall a :: 0 <= a < |ps| ==> ps[a].0 < |raw| && ps[a].1 < |raw[ps[a].0]| && raw[ps[a].0][ps[a].1] != -1
  }

  predicate AgentsFrom(starts: seq<(nat, nat)>, goals: seq<(nat, nat)>, agents: seq<Agent>)
    requires |starts| <= |goals|
  {
    && |agents| == |starts|
    && forall a :: 0 <= a < |agents| ==>
         agents[a] == Agent(Vertex(starts[a].0, starts[a].1), Vertex(goals[a].0, goals[a].1))
  }

  predicate OnFreeCell(g: Grid, c: Vertex)
    requires g.Rectangular()
  {
    g.InGrid(c) && g.cells[c.x][c.y] != -1
  }

  /** Every start and goal is a free cell of the map. */
  predicate OnFreeCells(g: Grid, agents: seq<Agent>)
    requires g.Rectangular()
  {
    forall a :: 0 <= a < |agents| ==> OnFreeCell(g, agents[a].start) && OnFreeCell(g, agents[a].goal)
  }

  function StartCells(g: Grid, agents: seq<Agent>): (cells: seq<int>)
    requires g.Rectangular() && OnFreeCells(g, agents)
    ensures |cells| == |agents|
  {
    seq(|agents|, a requires 0 <= a < |agents| && g.Rectangular() && OnFreeCells(g, agents) =>
      g.cells[agents[a].start.x][agents[a].start.y])
  }

  function GoalCells(g: Grid, agents: seq<Agent>): (cells: seq<int>)
    requires g.Rectangular() && OnFreeCells(g, agents)
    ensures |cells| == |agents|
  {
    seq(|agents|, a requires 0 <= a < |agents| && g.Rectangular() && OnFreeCells(g, agents) =>
      g.cells[agents[a].goal.x][agents[a].goal.y])
  }

  /** The numbers of start and goal belong to the cells with their coordinates. */
  lemma CellsOfAgent(g: Grid, agents: seq<Agent>, a: nat)
    requires g.Valid() && OnFreeCells(g, agents) && a < |agents|
    ensures g.IsVertex(StartCells(g, agents)[a]) && g.coords[StartCells(g, agents)[a]] == agents[a].start
    ensures g.IsVertex(GoalCells(g, agents)[a]) && g.coords[GoalCells(g, agents)[a]] == agents[a].goal
  {
    assert OnFreeCell(g, agents[a].start) && OnFreeCell(g, agents[a].goal);
  }

  lemma AgentsOnFreeCells(raw: seq<seq<int>>, g: Grid, starts: seq<(nat, nat)>, goals: seq<(nat, nat)>,
                          agents: seq<Agent>)
    requires NumbersFreeCells(raw, g) && |starts| <= |goals| && AgentsFrom(starts, goals, agents)
    requires |raw| > 0 && forall i :: 0 <= i < |raw| ==> |raw[i]| == |raw[0]|
    ensures OnFreeCells(g, agents) <==> FreeCells(raw, starts) && FreeCells(raw, goals[..|starts|])
  {
    hide Grid.Valid;
    assert g.Rectangular();
    forall x: nat, y: nat ensures OnFreeCell(g, Vertex(x, y)) <==> x < |raw| && y < |raw[x]| && raw[x][y] != -1 {
      assert g.InGrid(Vertex(x, y)) <==> x < |raw| && y < |raw[x]|;
    }
    forall a | 0 <= a < |agents|
      ensures agents[a].start == Vertex(starts[a].0, starts[a].1) && agents[a].goal == Vertex(goals[a].0, goals[a].1)
    {
    }
    if OnFreeCells(g, agents) {
      forall a | 0 <= a < |starts|
        ensures OnFreeCell(g, Vertex(starts[a].0, starts[a].1)) && OnFreeCell(g, Vertex(goals[a].0, goals[a].1))
      {
        assert OnFreeCell(g, agents[a].start) && OnFreeCell(g, agents[a].goal);
      }
    }
    if FreeCells(raw, starts) && FreeCells(raw, goals[..|starts|]) {
      forall a | 0 <= a < |agents| ensures OnFreeCell(g, agents[a].start) && OnFreeCell(g, agents[a].goal) {
        assert goals[..|starts|][a] == goals[a];
      }
    }
  }

  class Instance {
    var grid: Grid
    var agents: seq<Agent>
    var lengthFromStart: seq<seq<int>>
    var lengthFromGoal: seq<seq<int>>
    var spLengths: seq<int>
    var mksLBs: seq<int>
    var socLBs: seq<int>
    var lastNumberOfAgents: nat

    function CellOf(c: Vertex): int
      requires grid.Rectangular() && grid.InGrid(c)
      reads `grid
    {
      grid.cells[c.x][c.y]
    }

    ghost predicate Loaded()
      reads this
    {
      grid.Valid() && OnFreeCells(grid, agents)
    }

    ghost function View(): Inst
      requires Loaded()
      reads this
    {
      Inst(GraphOf(grid), StartCells(grid, agents), GoalCells(grid, agents),
           lengthFromStart, lengthFromGoal, spLengths, mksLBs, socLBs)
    }

    ghost predicate Valid()
      reads this
    {
      Loaded() && View().Valid(lastNumberOfAgents)
    }

    constructor (mapVector: seq<seq<int>>, starts: seq<(nat, nat)>, goals: seq<(nat, nat)>)
      requires |mapVector| > 0 && forall i :: 0 <= i < |mapVector| ==> |mapVector[i]| == |mapVector[0]|
      requires |starts| <= |goals|
      ensures lastNumberOfAgents == 0 && NumbersFreeCells(mapVector, grid) && AgentsFrom(starts, goals, agents)
      ensures Valid() <==> FreeCells(mapVector, starts) && FreeCells(mapVector, goals[..|starts|])
    {
      grid := Grid([], []);
      agents := [];
      new;
      LoadAgentsData(starts, goals);
      LoadMapData(mapVector);
      lastNumberOfAgents := 0;
      AgentsOnFreeCells(mapVector, grid, starts, goals, agents);
      GraphOfValid(grid);
    }

    method LoadAgentsData(starts: seq<(nat, nat)>, goals: seq<(nat, nat)>)
      requires |starts| <= |goals| && agents == []
      modifies this
      ensures grid == old(grid) && lastNumberOfAgents == old(lastNumberOfAgents)
      ensures AgentsFrom(starts, goals, agents)
      ensures |mksLBs| == |socLBs| == |agents| + 1 && mksLBs[0] == 0 && socLBs[0] == 0
      ensures |spLengths| == |lengthFromStart| == |lengthFromGoal| == |agents|
    {
      for i := 0 to |starts|
        invariant grid == old(grid) && lastNumberOfAgents == old(lastNumberOfAgents)
        invariant AgentsFrom(starts[..i], goals[..i], agents)
      {
        agents := agents + [Agent(Vertex(starts[i].0, starts[i].1), Vertex(goals[i].0, goals[i].1))];
      }
      mksLBs := seq(|agents| + 1, _ => -1)[0 := 0];
      socLBs := seq(|agents| + 1, _ => -1)[0 := 0];
      spLengths := seq(|agents|, _ => 0);
      lengthFromStart := seq(|agents|, _ => []);
      lengthFromGoal := seq(|agents|, _ => []);
    }

    /** Number the free cells row by row. */
    method LoadMapData(mapVector: seq<seq<int>>)
      requires |mapVector| > 0 && forall i :: 0 <= i < |mapVector| ==> |mapVector[i]| == |mapVector[0]|
      modifies `grid
      ensures NumbersFreeCells(mapVector, grid)
    {
      var cells, coords := mapVector, [];
      var numberOfVertices := 0;
      for i := 0 to |mapVector|
        invariant Scanned(mapVector, cells, coords, i, 0) && numberOfVertices == |coords|
      {
        for j := 0 to |mapVector[0]|
          invariant Scanned(mapVector, cells, coords, i, j) && numberOfVertices == |coords|
        {
          if cells[i][j] != -1 {
            NumberNextCell(mapVector, cells, coords, i, j);
            cells := cells[i := cells[i][j := numberOfVertices]];
            numberOfVertices := numberOfVertices + 1;
            coords := coords + [Vertex(i, j)];
          } else {
            SkipObstacle(mapVector, cells, coords, i, j);
          }
        }
        RowScanned(mapVector, cells, coords, i);
      }
      grid := Grid(cells, coords);
      AllScanned(mapVector, grid);
    }

    /** Fill in the tables of agents not used before. */
    method SetAgents(ags: nat)
      requires Valid() && ags <= |agents|
      modifies this
      ensures grid == old(grid) && agents == old(agents)
      ensures Valid() && lastNumberOfAgents == ags
      ensures forall a :: 0 <= a < ags ==> AgentSet(a)
      ensures |mksLBs| > 0 && |socLBs| > 0 && mksLBs[0] == 0 && socLBs[0] == 0
    {
      for i := lastNumberOfAgents to Max(lastNumberOfAgents, ags)
        invariant grid == old(grid) && agents == old(agents) && lastNumberOfAgents == old(lastNumberOfAgents)
        invariant Loaded() && View().Valid(i)
      {
        SetAgent(i);
      }
      ghost var filled := View();
      lastNumberOfAgents := ags;
      assert View() == filled;
      forall a | 0 <= a < ags ensures AgentSet(a) {
        TablesSet(a);
      }
    }

    /**
     * The tables of agent a hold the distances from the cells with the coordinates of its start and its goal, and the
     * bounds count its shortest path.
     */
    ghost predicate AgentSet(a: nat)
      requires grid.Valid() && a < |agents|
      reads this
    {
      && a < |lengthFromStart| && a < |lengthFromGoal| && a < |spLengths| && a + 1 < |mksLBs| && a + 1 < |socLBs|
      && (exists s :: grid.IsVertex(s) && grid.coords[s] == agents[a].start
                      && DistTable(GraphOf(grid), s, lengthFromStart[a]))
      && (exists t :: grid.IsVertex(t) && grid.coords[t] == agents[a].goal
                      && DistTable(GraphOf(grid), t, lengthFromGoal[a])
                      && t < |lengthFromStart[a]| && spLengths[a] == lengthFromStart[a][t])
      && mksLBs[a + 1] == Max(mksLBs[a], spLengths[a] + 1) && socLBs[a + 1] == socLBs[a] + spLengths[a] + 1
    }

    lemma TablesSet(a: nat)
      requires Loaded() && a < |agents| && View().Valid(a + 1)
      ensures AgentSet(a)
    {
      hide DistTable, Scanned, Within, IsDistance;
      CellsOfAgent(grid, agents, a);
      GraphOfValid(grid);
      var s, t := View().starts[a], View().goals[a];
      assert View().AgentTables(a);
      TableLength(GraphOf(grid), s, lengthFromStart[a]);
      assert grid.coords[s] == agents[a].start && DistTable(GraphOf(grid), s, lengthFromStart[a]);
      assert grid.coords[t] == agents[a].goal && DistTable(GraphOf(grid), t, lengthFromGoal[a]);
    }

    /** One iteration of the loop of SetAgents. */
    method SetAgent(i: nat)
      requires Loaded() && View().Valid(i) && i < |agents|
      modifies `lengthFromStart, `lengthFromGoal, `spLengths, `mksLBs, `socLBs
      ensures Loaded() && View().Valid(i + 1)
    {
      hide DistTable, Inst.Valid, Inst.AgentTables, Graph.Valid, Scanned, Within, IsDistance;
      ghost var before := View();
      var fromStart := DistancesFrom(agents[i].start);
      var fromGoal := DistancesFrom(agents[i].goal);
      TablesExtended(before, i, fromStart, fromGoal);
      StoreTables(i, fromStart, fromGoal, CellOf(agents[i].goal));
    }

    method DistancesFrom(start: Vertex) returns (table: seq<int>)
      requires Loaded() && OnFreeCell(grid, start)
      ensures DistTable(GraphOf(grid), CellOf(start), table)
    {
      GraphOfValid(grid);
      var lengthFrom := new int[grid.NumberOfVertices()](_ => -1);
      BFS(grid, lengthFrom, start);
      table := lengthFrom[..];
    }

    method StoreTables(i: nat, fromStart: seq<int>, fromGoal: seq<int>, goal: int)
      requires Loaded() && View().Valid(i) && i < |agents| && goal == View().goals[i]
      requires DistTable(GraphOf(grid), View().starts[i], fromStart) && DistTable(GraphOf(grid), goal, fromGoal)
      modifies `lengthFromStart, `lengthFromGoal, `spLengths, `mksLBs, `socLBs
      ensures Loaded() && View() == WithTables(old(View()), i, fromStart, fromGoal)
    {
      hide Grid.Valid, OnFreeCells, StartCells, GoalCells, Scanned, Within, IsDistance, Inst.AgentTables, Graph.Valid;
      lengthFromStart := lengthFromStart[i := fromStart];
      lengthFromGoal := lengthFromGoal[i := fromGoal];
      spLengths := spLengths[i := fromStart[goal]];
      mksLBs := mksLBs[i + 1 := Max(mksLBs[i], spLengths[i] + 1)];
      socLBs := socLBs[i + 1 := socLBs[i] + spLengths[i] + 1];
    }
  }
}
