/** The MonoSAT-based solver of src/encodings/SMT_encoding.cpp: graph builders, formulas and plan extraction. */
module MonosatSolvers {
  import opened Instances
  import opened Plans
  import opened Cnf
  import opened Encodings
  import opened Windows
  import opened Numbering
  import opened Solvers
  import opened SatSolvers
  import opened Soundness
  import opened Completeness
  import opened Equivalence
  import opened Monosat
  import opened MonosatOracle
  import opened MonosatPlans

  /** A graph under construction: its edges, and the node numbers given out by VarToID. */
  datatype Builder = Builder(edges: seq<Edge>, dict: map<int, int>, freshID: int)

  /** The variables lit, ..., lit + n - 1 are true. */
  ghost predicate LitsTrue(m: Model, lit: int, n: nat) { forall a :: 0 <= a < n ==> Node(m, lit, a) }

  /** The first n reach lines, with variables from lit on, ask for the paths of the agents. */
  ghost predicate ReachesMean(graphs: seq<seq<Edge>>, reaches: seq<Reach>, path: (Model, int) -> bool, lit: int,
                              n: nat)
  {
    |reaches| == n && forall a :: 0 <= a < n ==> reaches[a].lit == lit + a && Requires(graphs, reaches[a], path, a)
  }

  ghost predicate Requires(graphs: seq<seq<Edge>>, r: Reach, path: (Model, int) -> bool, a: int) {
    r.graph < |graphs| && forall m :: Reaches(m, graphs[r.graph], r.from, r.to) <==> path(m, a)
  }

  ghost function ShiftPaths(f: Frame): (Model, int) -> bool { (m: Model, a: int) => ShiftPath(f, m, a) }

  ghost function PassPaths(f: Frame): (Model, int) -> bool { (m: Model, a: int) => PassPath(f, m, a) }

  function ShiftKey(n: TimeNode): int { Cantor(n.v, n.t) }

  predicate ShiftDom(n: TimeNode) { n.v >= 0 && n.t >= 0 && !n.out }

  lemma ShiftKeysDistinct()
    ensures forall x, y {:trigger ShiftDom(x), ShiftDom(y)} ::
      ShiftDom(x) && ShiftDom(y) && ShiftKey(x) == ShiftKey(y) ==> x == y
  {
    forall x, y | ShiftDom(x) && ShiftDom(y) && ShiftKey(x) == ShiftKey(y) ensures x == y {
      CantorInjective(x.v, x.t, y.v, y.t);
    }
  }

  /** The builder's edges are the arcs, with numbered nodes. */
  ghost predicate Built(b: Builder, arcs: seq<Arc>, key: TimeNode -> int) {
    b.freshID >= 0 && Dictionary(b.dict, b.freshID) && Named(b.edges, arcs, key, b.dict)
  }

  /** Numbers given out are kept. */
  ghost predicate Keeps(b: Builder, b': Builder) { forall k :: k in b.dict ==> k in b'.dict && b'.dict[k] == b.dict[k] }

  lemma NamedKept(b: Builder, b': Builder, arcs: seq<Arc>, key: TimeNode -> int)
    requires Named(b.edges, arcs, key, b.dict) && Keeps(b, b') && b'.edges == b.edges
    ensures Named(b'.edges, arcs, key, b'.dict)
  {
    forall i | 0 <= i < |arcs|
      ensures key(arcs[i].from) in b'.dict && key(arcs[i].to) in b'.dict
      ensures b'.edges[i] == Edge(b'.dict[key(arcs[i].from)], b'.dict[key(arcs[i].to)], arcs[i].lit)
    {
      var x, y := key(arcs[i].from), key(arcs[i].to);
      assert x in b.dict && y in b.dict && b.edges[i] == Edge(b.dict[x], b.dict[y], arcs[i].lit);
      assert x in b'.dict && y in b'.dict && b'.dict[x] == b.dict[x] && b'.dict[y] == b.dict[y];
    }
  }

  method VarToID(v: int, duplicate: bool, b: Builder) returns (id: int, b': Builder)
    requires b.freshID >= 0 && Dictionary(b.dict, b.freshID)
    ensures b'.freshID >= 0 && Dictionary(b'.dict, b'.freshID) && b'.edges == b.edges && Keeps(b, b')
    ensures (if duplicate then -v else v) in b'.dict && id == b'.dict[if duplicate then -v else v]
    ensures var key := if duplicate then -v else v; if key in b.dict then b' == b else id == b.freshID == b'.freshID - 1
  {
    var key := if duplicate then -v else v;
    b' := b;
    if key !in b.dict {
      b' := Builder(b.edges, b.dict[key := b.freshID], b.freshID + 1);
    }
    id := b'.dict[key];
  }

  /** One edge between the nodes named after the variables v1 and v2. */
  method AddEdge(b: Builder, v1: int, dup1: bool, v2: int, dup2: bool, x: int,
                 ghost arcs: seq<Arc>, ghost r: Arc, ghost key: TimeNode -> int) returns (b': Builder)
    requires Built(b, arcs, key) && r.lit == x
    requires key(r.from) == (if dup1 then -v1 else v1) && key(r.to) == (if dup2 then -v2 else v2)
    ensures Built(b', arcs + [r], key) && Keeps(b, b')
  {
    var node1, b1 := VarToID(v1, dup1, b);
    var node2, b2 := VarToID(v2, dup2, b1);
    NamedKept(b, b1, arcs, key);
    NamedKept(b1, b2, arcs, key);
    b' := Builder(b2.edges + [Edge(node1, node2, x)], b2.dict, b2.freshID);
  }

  lemma UnitAdded(cs: seq<Clause>, x: int)
    requires x > 0
    ensures AddsFresh(cs, cs + [[x]], x, x + 1)
  {
    assert (cs + [[x]])[|cs|] == [x] && x in [x] && Abs(x) == x;
    if Below(cs, x) {
      BelowAppend(cs, [[x]], x, x + 1);
    }
  }

  lemma ShiftEdgesNumbered(f: Frame, b: Builder, arcs: seq<Arc>)
    requires Built(b, arcs, ShiftKey) && forall r :: r in arcs <==> IsShiftArc(f, r)
    ensures forall e :: e in b.edges ==> f.IsNumber(e.lit)
  {
    forall e | e in b.edges ensures f.IsNumber(e.lit) {
      var i :| 0 <= i < |b.edges| && b.edges[i] == e;
      assert arcs[i] in arcs;
      var dir, t :| ShiftArcBy(f, arcs[i], dir, t);
      NumberOf(f, Shift(arcs[i].from.v, dir, t));
    }
  }

  lemma PassEdgesNumbered(f: Frame, a: int, b: Builder, arcs: seq<Arc>)
    requires Built(b, arcs, PassKey(f, a)) && forall r :: r in arcs <==> IsPassArc(f, a, r)
    ensures forall e :: e in b.edges ==> f.IsNumber(e.lit)
  {
    forall e | e in b.edges ensures f.IsNumber(e.lit) {
      var i :| 0 <= i < |b.edges| && b.edges[i] == e;
      var r := arcs[i];
      assert r in arcs;
      if IsAtArc(f, a, r) {
        NumberOf(f, At(a, r.from.v, r.from.t));
      } else {
        var dir :| PassArcBy(f, a, r, dir);
        NumberOf(f, Pass(a, r.from.v, dir, r.from.t));
      }
    }
  }

  /** r asks for the walk of agent a in the graph over Shift variables. */
  ghost predicate ShiftRequired(f: Frame, b: Builder, a: int, r: Reach) {
    var x, y := Cantor(f.task.Start(a), 0), Cantor(f.task.Goal(a), f.task.End(a));
    x in b.dict && y in b.dict && r.graph == 0 && r.from == b.dict[x] && r.to == b.dict[y]
  }

  /** Reachability of the numbered nodes is the walk the formula talks about. */
  lemma ShiftReaches(f: Frame, b: Builder, arcs: seq<Arc>, a: int)
    requires f.task.Valid() && f.task.IsAgent(a) && Built(b, arcs, ShiftKey)
    requires forall r :: r in arcs <==> IsShiftArc(f, r)
    requires Cantor(f.task.Start(a), 0) in b.dict && Cantor(f.task.Goal(a), f.task.End(a)) in b.dict
    ensures forall m ::
      Reaches(m, b.edges, b.dict[Cantor(f.task.Start(a), 0)], b.dict[Cantor(f.task.Goal(a), f.task.End(a))])
      <==> ShiftPath(f, m, a)
  {
    AgentFacts(f.task, a);
    ShiftKeysDistinct();
    var x, y := TimeNode(f.task.Start(a), 0, false), TimeNode(f.task.Goal(a), f.task.End(a), false);
    forall r | r in arcs ensures ShiftDom(r.from) && ShiftDom(r.to) {
      var dir, t :| ShiftArcBy(f, r, dir, t);
    }
    forall m ensures Reaches(m, b.edges, b.dict[ShiftKey(x)], b.dict[ShiftKey(y)]) <==> ShiftPath(f, m, a) {
      NamingKeepsReachability(m, b.edges, arcs, ShiftKey, ShiftDom, b.dict, b.freshID, x, y);
      ShiftReach(f, m, arcs, a);
    }
  }

  /** The key of a node of the split graph of agent a: the variable's number, negated for leaving. */
  function PassKey(f: Frame, a: int): TimeNode -> int {
    (n: TimeNode) => if n.out then -f.Id(At(a, n.v, n.t)) else f.Id(At(a, n.v, n.t))
  }

  function PassDom(f: Frame, a: int): TimeNode -> bool {
    (n: TimeNode) => f.task.Exists(At(a, n.v, n.t))
  }

  lemma PassDistinguishes(f: Frame, a: int, arcs: seq<Arc>, lo: int, hi: int)
    requires f.task.Valid() && f.task.withAt && f.task.variables.UsePass?
    requires f.Numbered(lo, hi) && lo > 0 && f.task.IsAgent(a)
    requires forall r :: r in arcs <==> IsPassArc(f, a, r)
    ensures Distinguishes(PassKey(f, a), PassDom(f, a), arcs)
  {
    forall r | r in arcs ensures PassDom(f, a)(r.from) && PassDom(f, a)(r.to) {
      assert IsPassArc(f, a, r);
      if !IsAtArc(f, a, r) {
        var dir :| PassArcBy(f, a, r, dir);
        PassWindow(f.task, a, r.from.v, dir, r.to.v, r.from.t);
      }
    }
  }

  /** r asks for the path of agent a in its graph. */
  ghost predicate PassRequired(f: Frame, a: int, edges: seq<Edge>, r: Reach) {
    r.graph == a && forall m :: Reaches(m, edges, r.from, r.to) <==> PassPath(f, m, a)
  }

  lemma PassReaches(f: Frame, b: Builder, arcs: seq<Arc>, a: int, lo: int, hi: int)
    requires f.task.Valid() && f.task.withAt && f.task.variables.UsePass?
    requires f.Numbered(lo, hi) && lo > 0 && f.task.IsAgent(a)
    requires Built(b, arcs, PassKey(f, a)) && forall r :: r in arcs <==> IsPassArc(f, a, r)
    requires f.Id(At(a, f.task.Start(a), 0)) in b.dict && -f.Id(At(a, f.task.Goal(a), f.task.End(a))) in b.dict
    ensures forall m ::
      Reaches(m, b.edges, b.dict[f.Id(At(a, f.task.Start(a), 0))], b.dict[-f.Id(At(a, f.task.Goal(a), f.task.End(a)))])
      <==> PassPath(f, m, a)
  {
    AgentFacts(f.task, a);
    PassDistinguishes(f, a, arcs, lo, hi);
    var x, y := TimeNode(f.task.Start(a), 0, false), TimeNode(f.task.Goal(a), f.task.End(a), true);
    var key, dom := PassKey(f, a), PassDom(f, a);
    assert dom(x) && dom(y) && key(x) == f.Id(At(a, x.v, x.t)) && key(y) == -f.Id(At(a, y.v, y.t));
    forall m ensures Reaches(m, b.edges, b.dict[key(x)], b.dict[key(y)]) <==> PassPath(f, m, a) {
      NamingKeepsReachability(m, b.edges, arcs, key, dom, b.dict, b.freshID, x, y);
      PassReach(f, m, a, arcs);
    }
  }

  // ----- models that agree on the variables -----

  lemma ShiftPathAgree(f: Frame, m: Model, m': Model, a: int, n: int)
    requires f.AtomsBelow(n) && Agree(m, m', n) && ShiftPath(f, m, a)
    ensures ShiftPath(f, m', a)
  {
    HoldsAgree(f, m, m', n);
    var w :| IsShiftPath(f, m, a, w);
    forall t, s | 0 <= t < |w| - 1 && s == t + 1 ensures ShiftTo(f, m', w[t], w[s], t) {
      assert ShiftTo(f, m, w[t], w[s], t);
    }
    assert IsShiftPath(f, m', a, w);
  }

  lemma PassPathAgree(f: Frame, m: Model, m': Model, a: int, n: int)
    requires f.AtomsBelow(n) && Agree(m, m', n) && PassPath(f, m, a)
    ensures PassPath(f, m', a)
  {
    HoldsAgree(f, m, m', n);
    var w :| IsPassPath(f, m, a, w);
    forall t, s | 0 <= t < |w| - 1 && s == t + 1 ensures PassTo(f, m', a, w[t], w[s], t) {
      assert PassTo(f, m, a, w[t], w[s], t);
    }
    assert IsPassPath(f, m', a, w);
  }

  /** The clauses of the Shift formula before the cost limit: reach variables, units, exclusions. */
  ghost predicate ShiftClauses(f: Frame, m: Model) {
    (f.task.cost.SumOfCosts? ==> f.NoneAtGoalShift(m)) && f.SwapConfShift(m) && f.OneShift(m) && f.OneIncomingShift(m)
  }

  ghost predicate PassClauses(f: Frame, m: Model) {
    (f.task.cost.SumOfCosts? ==> f.NoneAtGoal(m)) && f.VertexConf(m) && f.SwapConfPass(m)
  }

  lemma ShiftClausesAgree(f: Frame, m: Model, m': Model, n: int)
    requires f.AtomsBelow(n) && Agree(m, m', n) && ShiftClauses(f, m)
    ensures ShiftClauses(f, m')
  {
    HoldsAgree(f, m, m', n);
    SwapAgree(f, m, m');
    forall v, t ensures f.OneShiftOut(m', v, t) && f.OneShiftIn(m', v, t) {
      assert f.OneShiftOut(m, v, t) && f.OneShiftIn(m, v, t);
    }
  }

  lemma PassClausesAgree(f: Frame, m: Model, m': Model, n: int)
    requires f.AtomsBelow(n) && Agree(m, m', n) && PassClauses(f, m)
    ensures PassClauses(f, m')
  {
    HoldsAgree(f, m, m', n);
    SwapAgree(f, m, m');
  }

  lemma NoDuplicatesAgree(f: Frame, m: Model, m': Model, n: int)
    requires f.AtomsBelow(n) && Agree(m, m', n) && f.NoDuplicates(m)
    ensures f.NoDuplicates(m')
  {
    HoldsAgree(f, m, m', n);
    forall a, t | 0 <= a < f.task.agents && 0 <= t < f.task.timesteps ensures f.InOnePlace(m', a, t) {
      assert f.InOnePlace(m, a, t);
    }
  }

  lemma LimitAgree(f: Frame, m: Model, m': Model, how: LateTest, n: int)
    requires f.AtomsBelow(n) && Agree(m, m', n) && f.LimitSoc(m, how)
    ensures f.LimitSoc(m', how)
  {
    TotalDelayAgree(f, m, m', how, n, f.task.agents);
  }

  /** m with lit, ..., lit + n - 1 made true. */
  lemma WithLits(m: Model, lit: int, n: nat) returns (m': Model)
    requires lit > 0
    ensures Agree(m, m', lit) && LitsTrue(m', lit, n)
  {
    m' := m + set x | x in LateList(lit, n);
    LateListBelow(lit, n);
    forall a | 0 <= a < n ensures Node(m', lit, a) {
      assert LateList(lit, n)[a] == lit + a;
    }
  }

  lemma LitsTrueAgree(m: Model, m': Model, lit: int, n: nat)
    requires lit > 0 && Agree(m, m', lit + n) && LitsTrue(m, lit, n)
    ensures LitsTrue(m', lit, n)
  {
    forall a | 0 <= a < n ensures Node(m', lit, a) {
      assert Node(m, lit, a);
    }
  }

  /** Every step of the row takes the first possible direction. */
  ghost predicate MonoFirstWays(f: Frame, m: Model, a: int, row: seq<int>) {
    forall t, u :: 0 <= t < |row| - 1 && u == t + 1 && row[t] != -1 && row[u] != -1 ==>
      MonoFirstWay(f, m, a, row[t], row[u], t)
  }

  /** The plan shown for the rows is valid, and not longer than it has to be. */
  ghost predicate ShownFits(task: Task, rows: Plan)
    requires |rows| <= |task.inst.goals|
  {
    Fits(task, Parallel, Shown(task, rows)) && ShownLength(task, Shown(task, rows))
  }

  class MonosatSolver {
    const s: Solver

    // the text written for MonoSAT since the solver was made, which clearing the stream's state does not shorten
    var text: Text

    // the lines of the current formula, next to s.clauses: graphs, and reachability requirements
    var graphs: seq<seq<Edge>>
    var reaches: seq<Reach>

    // solving loop
    var nrVars: int
    var solverCalls: nat
    var solvedDelta: nat

    constructor (variables: Variables, cost: Cost, inst: Inst)
      requires variables.UsePass? || variables.UseShift?
      ensures s.variables == variables && s.cost == cost && s.inst == inst && s.withAt == variables.UsePass?
      ensures fresh(s) && text == EMPTY
    {
      s := new Solver(variables, cost, variables.UsePass?, inst);
      text, graphs, reaches := EMPTY, [], [];
      nrVars, solverCalls, solvedDelta := 1, 0, 0;
    }

    // ----- the graph over Shift variables -----

    /** The edges leaving v at t. */
    method ShiftEdgesAt(v: int, t: int, b: Builder, ghost arcs: seq<Arc>, ghost f: Frame)
      returns (b': Builder, ghost arcs': seq<Arc>)
      requires f == s.F() && f.Ready() && s.variables.UseShift? && s.inst.graph.IsVertex(v) && Built(b, arcs, ShiftKey)
      ensures Built(b', arcs', ShiftKey)
      ensures forall r :: r in arcs' <==> r in arcs || (r.from.v == v && r.from.t == t && IsShiftArc(f, r))
    {
      b', arcs' := b, arcs;
      for dir := 0 to 5
        invariant Built(b', arcs', ShiftKey)
        invariant forall r :: r in arcs' <==>
          r in arcs || (r.from.v == v && exists d :: 0 <= d < dir && ShiftArcBy(f, r, d, t))
      {
        if !s.inst.graph.HasNeighbor(v, dir) {
          continue;
        }
        var u := s.inst.graph.GetNeighbor(v, dir);
        var found, x := s.FindShift(v, dir, t, f);
        if found {
          ghost var r := Arc(TimeNode(v, t, false), TimeNode(u, t + 1, false), x);
          assert ShiftArcBy(f, r, dir, t);
          b' := AddEdge(b', Cantor(v, t), false, Cantor(u, t + 1), false, x, arcs', r, ShiftKey);
          arcs' := arcs' + [r];
        }
      }
    }

    method ShiftEdges(ghost f: Frame) returns (b: Builder, ghost arcs: seq<Arc>)
      requires f == s.F() && f.Ready() && s.variables.UseShift?
      ensures Built(b, arcs, ShiftKey) && forall r :: r in arcs <==> IsShiftArc(f, r)
    {
      b, arcs := Builder([], map[], 0), [];
      for v := 0 to s.inst.graph.Size()
        invariant Built(b, arcs, ShiftKey) && forall r :: r in arcs <==> 0 <= r.from.v < v && IsShiftArc(f, r)
      {
        assert f.ShiftTimesOk(v);
        if s.shiftTimesStart[v] == -1 {
          continue;
        }
        ghost var before := arcs;
        for t := s.shiftTimesStart[v] to Max(s.shiftTimesStart[v], s.shiftTimesEnd[v] + 1)
          invariant Built(b, arcs, ShiftKey)
          invariant forall r :: r in arcs <==> r in before || (r.from.v == v && r.from.t < t && IsShiftArc(f, r))
        {
          b, arcs := ShiftEdgesAt(v, t, b, arcs, f);
        }
      }
    }

    method CreateMove_Graph_MonosatShift(lit: int, ghost f: Frame) returns (lit': int)
      requires f == s.F() && f.Ready() && s.variables.UseShift? && lit > 0
      modifies `graphs, `reaches, s`clauses
      ensures lit' == lit + s.agents && ReachesMean(graphs, reaches, ShiftPaths(f), lit, s.agents)
      ensures forall m :: Sat(m, s.clauses) <==> Sat(m, old(s.clauses)) && LitsTrue(m, lit, s.agents)
      ensures ReachesAdded(f, old(s.clauses), lit, lit')
    {
      hide Built, Sat, AddsFresh, Frame.AtTable, Frame.PassTable, Frame.ShiftTable;
      AddsNoFresh(s.clauses, lit);
      ghost var arcs;
      var b;
      b, arcs := ShiftEdges(f);
      reaches, lit' := [], lit;
      for a := 0 to s.agents
        invariant lit' == lit + a && |reaches| == a && Built(b, arcs, ShiftKey)
        invariant forall c :: 0 <= c < a ==> reaches[c].lit == lit + c && ShiftRequired(f, b, c, reaches[c])
        invariant AddsFresh(old(s.clauses), s.clauses, lit, lit') && forall r :: r in reaches ==> lit <= r.lit < lit'
        invariant forall m :: Sat(m, s.clauses) <==> Sat(m, old(s.clauses)) && LitsTrue(m, lit, a)
      {
        var r;
        b, r := ShiftReachLine(a, lit', b, arcs, f);
        reaches := reaches + [r];
        ghost var before := s.clauses;
        RequireLit(lit, a);
        UnitAdded(before, lit + a);
        AddsFreshMore(old(s.clauses), before, s.clauses, lit, lit + a, lit + a + 1);
        lit' := lit' + 1;
      }
      graphs := [b.edges];
      ShiftEdgesNumbered(f, b, arcs);
      forall a | 0 <= a < s.agents ensures Requires(graphs, reaches[a], ShiftPaths(f), a) {
        assert ShiftRequired(f, b, a, reaches[a]);
        ShiftReaches(f, b, arcs, a);
      }
    }

    /** The reach line of agent a, whose nodes get numbers if they have none. */
    method ShiftReachLine(a: nat, lit: int, b: Builder, ghost arcs: seq<Arc>, ghost f: Frame)
      returns (b': Builder, r: Reach)
      requires f == s.F() && f.Ready() && s.variables.UseShift? && a < s.agents && Built(b, arcs, ShiftKey)
      ensures Built(b', arcs, ShiftKey) && Keeps(b, b') && r.lit == lit && ShiftRequired(f, b', a, r)
    {
      AgentFacts(f.task, a);
      var node1, node2;
      node1, b' := VarToID(Cantor(s.inst.starts[a], 0), false, b);
      var t := s.inst.LastTimestep(a, s.inst.goals[a], s.maxTimestep, s.delta, s.cost);
      node2, b' := VarToID(Cantor(s.inst.goals[a], t), false, b');
      NamedKept(b, b', arcs, ShiftKey);
      r := Reach(0, node1, node2, lit);
    }

    /** Unit clauses and reach lines with fresh variables have been added, and edges over existing variables. */
    ghost predicate ReachesAdded(f: Frame, before: seq<Clause>, lit: int, lit': int)
      reads `graphs, `reaches, s`clauses
    {
      && AddsFresh(before, s.clauses, lit, lit')
      && (forall g, e :: g in graphs && e in g ==> f.IsNumber(e.lit))
      && forall r :: r in reaches ==> lit <= r.lit < lit'
    }

    /** The unit clause of the reach variable of agent a. */
    method RequireLit(lit: int, a: nat)
      requires lit > 0
      modifies s`clauses
      ensures forall m :: Sat(m, s.clauses) <==> Sat(m, old(s.clauses)) && Node(m, lit, a)
      ensures s.clauses == old(s.clauses) + [[lit + a]]
    {
      s.AddClause([lit + a]);
      forall m ensures SatClause(m, [lit + a]) <==> Node(m, lit, a) {
        SatOne(m, lit + a);
      }
    }

    // ----- the graphs over At and Pass variables -----

    /** The edges through the cells of agent a. */
    method AtEdges(a: int, ghost f: Frame) returns (b: Builder, ghost arcs: seq<Arc>)
      requires f == s.F() && f.Ready() && s.withAt && f.task.IsAgent(a)
      ensures Built(b, arcs, PassKey(f, a)) && forall r :: r in arcs <==> IsAtArc(f, a, r)
    {
      b, arcs := Builder([], map[], 0), [];
      for v := 0 to s.inst.graph.Size()
        invariant Built(b, arcs, PassKey(f, a)) && forall r :: r in arcs <==> 0 <= r.from.v < v && IsAtArc(f, a, r)
      {
        assert f.AtEntryOk(a, v, s.at[a][v]);
        if s.at[a][v].firstVariable == 0 {
          continue;
        }
        ghost var before := arcs;
        for t := s.at[a][v].firstTimestep to s.at[a][v].lastTimestep + 1
          invariant Built(b, arcs, PassKey(f, a))
          invariant forall r :: r in arcs <==> r in before || (r.from.v == v && r.from.t < t && IsAtArc(f, a, r))
        {
          var x := s.AtVar(a, v, t);
          ghost var r := Arc(TimeNode(v, t, false), TimeNode(v, t, true), x);
          b := AddEdge(b, x, false, x, true, x, arcs, r, PassKey(f, a));
          arcs := arcs + [r];
        }
      }
    }

    /** The edges along one direction out of v. */
    method PassEdgesAlong(a: int, v: int, dir: int, b: Builder, ghost arcs: seq<Arc>, ghost f: Frame)
      returns (b': Builder, ghost arcs': seq<Arc>)
      requires f == s.F() && f.Ready() && s.withAt && s.variables.UsePass? && f.task.IsAgent(a)
      requires s.inst.graph.IsVertex(v) && 0 <= dir < 5 && Built(b, arcs, PassKey(f, a))
      ensures Built(b', arcs', PassKey(f, a))
      ensures forall r :: r in arcs' <==> r in arcs || (r.from.v == v && PassArcBy(f, a, r, dir))
    {
      b', arcs' := b, arcs;
      if !s.inst.graph.HasNeighbor(v, dir) {
        return;
      }
      assert f.PassEntryOk(a, v, dir, s.pass[a][v][dir]);
      if s.pass[a][v][dir].firstVariable == 0 {
        return;
      }
      var u := s.inst.graph.GetNeighbor(v, dir);
      for t := s.pass[a][v][dir].firstTimestep to s.pass[a][v][dir].lastTimestep + 1
        invariant Built(b', arcs', PassKey(f, a))
        invariant forall r :: r in arcs' <==> r in arcs || (r.from.v == v && r.from.t < t && PassArcBy(f, a, r, dir))
      {
        PassWindow(f.task, a, v, dir, u, t);
        assert f.AtEntryOk(a, v, s.at[a][v]) && f.AtEntryOk(a, u, s.at[a][u]);
        var x := s.PassVar(a, v, dir, t);
        ghost var r := Arc(TimeNode(v, t, true), TimeNode(u, t + 1, false), x);
        assert PassArcBy(f, a, r, dir);
        b' := AddEdge(b', s.AtVar(a, v, t), true, s.AtVar(a, u, t + 1), false, x, arcs', r, PassKey(f, a));
        arcs' := arcs' + [r];
      }
    }

    method PassEdges(a: int, ghost f: Frame) returns (b: Builder, ghost arcs: seq<Arc>)
      requires f == s.F() && f.Ready() && s.withAt && s.variables.UsePass? && f.task.IsAgent(a)
      ensures Built(b, arcs, PassKey(f, a)) && forall r :: r in arcs <==> IsPassArc(f, a, r)
    {
      b, arcs := AtEdges(a, f);
      for v := 0 to s.inst.graph.Size()
        invariant Built(b, arcs, PassKey(f, a))
        invariant forall r :: r in arcs <==> IsAtArc(f, a, r) || (0 <= r.from.v < v && IsPassArc(f, a, r))
      {
        assert f.AtEntryOk(a, v, s.at[a][v]);
        if s.at[a][v].firstVariable == 0 {
          NoPassWithoutAt(f, a, v);
          continue;
        }
        ghost var before := arcs;
        for dir := 0 to 5
          invariant Built(b, arcs, PassKey(f, a))
          invariant forall r :: r in arcs <==>
            r in before || (r.from.v == v && exists d :: 0 <= d < dir && PassArcBy(f, a, r, d))
        {
          b, arcs := PassEdgesAlong(a, v, dir, b, arcs, f);
        }
      }
    }

    lemma NoPassWithoutAt(f: Frame, a: int, v: int)
      requires f.task.Valid() && f.task.withAt && f.task.variables.UsePass? && f.task.IsAgent(a) && f.task.IsVertex(v)
      requires f.task.First(a, v) > f.task.Last(a, v)
      ensures forall r: Arc, dir :: r.from.v == v ==> !PassArcBy(f, a, r, dir)
    {
      forall r: Arc, dir | r.from.v == v ensures !PassArcBy(f, a, r, dir) {
        if PassArcBy(f, a, r, dir) {
          PassWindow(f.task, a, v, dir, r.to.v, r.from.t);
        }
      }
    }

    method CreateMove_Graph_MonosatPass(lit: int, ghost f: Frame, ghost lo: int) returns (lit': int)
      requires f == s.F() && f.Ready() && s.withAt && s.variables.UsePass? && 0 < lo <= lit && f.Numbered(lo, lit)
      modifies `graphs, `reaches, s`clauses
      ensures lit' == lit + s.agents && ReachesMean(graphs, reaches, PassPaths(f), lit, s.agents)
      ensures forall m :: Sat(m, s.clauses) <==> Sat(m, old(s.clauses)) && LitsTrue(m, lit, s.agents)
      ensures ReachesAdded(f, old(s.clauses), lit, lit')
    {
      hide AddsFresh, Sat;
      AddsNoFresh(s.clauses, lit);
      graphs, reaches, lit' := [], [], lit;
      for a := 0 to s.agents
        invariant lit' == lit + a && |reaches| == |graphs| == a
        invariant AddsFresh(old(s.clauses), s.clauses, lit, lit') && forall r :: r in reaches ==> lit <= r.lit < lit'
        invariant forall g, e :: g in graphs && e in g ==> f.IsNumber(e.lit)
        invariant forall m :: Sat(m, s.clauses) <==> Sat(m, old(s.clauses)) && LitsTrue(m, lit, a)
        invariant forall c :: 0 <= c < a ==> reaches[c].lit == lit + c && PassRequired(f, c, graphs[c], reaches[c])
      {
        var edges, node1, node2 := AgentGraph(a, f, lo, lit);
        graphs := graphs + [edges];
        reaches := reaches + [Reach(a, node1, node2, lit')];
        ghost var before := s.clauses;
        RequireLit(lit, a);
        UnitAdded(before, lit + a);
        AddsFreshMore(old(s.clauses), before, s.clauses, lit, lit + a, lit + a + 1);
        lit' := lit' + 1;
      }
      forall a | 0 <= a < s.agents ensures Requires(graphs, reaches[a], PassPaths(f), a) {
        assert PassRequired(f, a, graphs[a], reaches[a]);
      }
    }

    /** The graph of agent a, and the numbers of its first and last node. */
    method AgentGraph(a: int, ghost f: Frame, ghost lo: int, ghost hi: int)
      returns (edges: seq<Edge>, node1: int, node2: int)
      requires f == s.F() && f.Ready() && s.withAt && s.variables.UsePass?
      requires f.task.IsAgent(a) && lo > 0 && f.Numbered(lo, hi)
      ensures forall m :: Reaches(m, edges, node1, node2) <==> PassPath(f, m, a)
      ensures forall e :: e in edges ==> f.IsNumber(e.lit)
    {
      AgentFacts(f.task, a);
      var start, goal := s.inst.starts[a], s.inst.goals[a];
      var b;
      ghost var arcs;
      b, arcs := PassEdges(a, f);
      PassEdgesNumbered(f, a, b, arcs);
      ghost var b0 := b;
      assert f.AtEntryOk(a, start, s.at[a][start]) && f.AtEntryOk(a, goal, s.at[a][goal]);
      node1, b := VarToID(s.at[a][start].firstVariable, false, b);
      var e := s.at[a][goal];
      node2, b := VarToID(e.firstVariable + (e.lastTimestep - e.firstTimestep), true, b);
      NamedKept(b0, b, arcs, PassKey(f, a));
      PassReaches(f, b, arcs, a, lo, hi);
      edges := b.edges;
    }

    // ----- the formulas -----

    /** The lines of the current formula. */
    function Lines(): Text
      reads `graphs, `reaches, s`clauses
    {
      Text(s.clauses, graphs, reaches)
    }

    lemma LinesClosed(path: (Model, int) -> bool, lit: int, n: nat)
      requires ReachesMean(graphs, reaches, path, lit, n)
      ensures Lines().Closed()
    {
      forall r | r in reaches ensures r.graph < |graphs| {
        var a :| 0 <= a < |reaches| && reaches[a] == r;
        assert Requires(graphs, reaches[a], path, a);
      }
    }

    /**
     * Sound and complete: a graph model's variables describe the formula's meaning, and every such assignment extends.
     */
    ghost predicate ShiftFormulaOk(f: Frame, n: int)
      reads `graphs, `reaches, s`clauses
    {
      && (forall m :: GraphModel(m, s.clauses, graphs, reaches) ==> ShiftFormula(f, m))
      && (forall m :: ShiftFormula(f, m) ==> HasGraphModel(m, n))
    }

    ghost predicate PassFormulaOk(f: Frame, n: int)
      reads `graphs, `reaches, s`clauses
    {
      && (forall m :: GraphModel(m, s.clauses, graphs, reaches) ==> PassFormula(f, m))
      && (forall m :: PassFormula(f, m) ==> HasGraphModel(m, n))
    }

    ghost predicate HasGraphModel(m: Model, n: int)
      reads `graphs, `reaches, s`clauses
    {
      exists m' :: Agree(m, m', n) && GraphModel(m', s.clauses, graphs, reaches)
    }

    lemma GraphModelPaths(m: Model, path: (Model, int) -> bool, lit: int)
      requires ReachesMean(graphs, reaches, path, lit, s.agents) && LitsTrue(m, lit, s.agents)
      ensures (forall r :: r in reaches ==> ReachHolds(m, graphs, r)) <==> forall a :: 0 <= a < s.agents ==> path(m, a)
    {
      forall a | 0 <= a < s.agents ensures ReachHolds(m, graphs, reaches[a]) <==> path(m, a) {
        assert Node(m, lit, a) && Requires(graphs, reaches[a], path, a);
      }
      if forall r :: r in reaches ==> ReachHolds(m, graphs, r) {
        forall a | 0 <= a < s.agents ensures path(m, a) {
          assert reaches[a] in reaches;
        }
      }
    }

    /**
     * Putting the formula together: reach variables from n on, `base` said exactly, `extra` up to further variables.
     */
    lemma FormulaFinish(path: (Model, int) -> bool, base: Model -> bool, extra: Model -> bool, n: int,
                        before: seq<Clause>)
      requires n > 0 && ReachesMean(graphs, reaches, path, n, s.agents)
      requires forall m :: Sat(m, before) <==> LitsTrue(m, n, s.agents) && base(m)
      requires forall m :: Sat(m, s.clauses) ==> Sat(m, before) && extra(m)
      requires forall m :: Sat(m, before) && extra(m) ==> ExtendsTo(m, n + s.agents, s.clauses)
      requires forall m, m' :: Agree(m, m', n) ==> (base(m) ==> base(m')) && (extra(m) ==> extra(m'))
      requires forall m, m', a :: Agree(m, m', n) && path(m, a) ==> path(m', a)
      ensures forall m :: GraphModel(m, s.clauses, graphs, reaches) ==>
        base(m) && extra(m) && forall a :: 0 <= a < s.agents ==> path(m, a)
      ensures forall m :: base(m) && extra(m) && (forall a :: 0 <= a < s.agents ==> path(m, a)) ==> HasGraphModel(m, n)
    {
      hide Sat, ExtendsTo, ReachesMean, ReachHolds;
      forall m | GraphModel(m, s.clauses, graphs, reaches) ensures forall a :: 0 <= a < s.agents ==> path(m, a) {
        GraphModelPaths(m, path, n);
      }
      forall m | base(m) && extra(m) && forall a :: 0 <= a < s.agents ==> path(m, a) ensures HasGraphModel(m, n) {
        var m1 := WithLits(m, n, s.agents);
        assert Sat(m1, before);
        var m2 := Extension(m1, n + s.agents, s.clauses);
        LitsTrueAgree(m1, m2, n, s.agents);
        assert Agree(m, m2, n);
        forall a | 0 <= a < s.agents ensures path(m2, a) {
          assert path(m, a);
        }
        GraphModelPaths(m2, path, n);
      }
    }

    /** All numbers are below lit, of which the variables have those below n; the last one is in use. */
    ghost predicate NumbersUsed(n: int, lit: int)
      reads `graphs, `reaches, s`clauses, s`inst, s`agents, s`delta, s`maxTimestep
      reads s`at, s`pass, s`shift, s`shiftTimesStart, s`shiftTimesEnd
    {
      && s.F().AtomsBelow(n) && n <= lit && Lines().NumberedBelow(lit)
      && (lit == 1 || s.F().IsNumber(lit - 1) || Mentions(s.clauses, lit - 1))
    }

    lemma LinesNumbered(f: Frame, c1: seq<Clause>, c2: seq<Clause>, n: int, lit1: int, lit: int)
      requires f == s.F() && f.Numbered(1, n) && 1 <= n <= lit1
      requires AddsFresh([], c1, n, lit1) && f.Adds(c1, c2) && AddsFresh(c2, s.clauses, lit1, lit)
      requires forall g, e :: g in graphs && e in g ==> f.IsNumber(e.lit)
      requires forall r :: r in reaches ==> n <= r.lit < lit1
      ensures NumbersUsed(n, lit)
    {
      assert Below([], n) && f.AtomsBelow(lit1);
      forall g, e | g in graphs && e in g ensures 0 < e.lit < lit {
        assert f.IsNumber(e.lit);
        var x :| f.task.Exists(x) && f.Id(x) == e.lit;
      }
      MentionsMore(c1, s.clauses, lit1 - 1);
      assert n > 1 ==> f.IsNumber(n - 1);
    }

    /** The formula over Shift variables, behind whatever has been written before. */
    method CreateFormulaShift(timesteps: nat, ghost task: Task) returns (lit: int, ghost n: int)
      requires s.variables.UseShift? && !s.withAt
      requires task == Task(s.inst, s.agents, s.cost, s.delta, timesteps, s.variables, false) && task.Valid()
      modifies `text, `graphs, `reaches
      modifies s`shift, s`shiftTimesStart, s`shiftTimesEnd, s`maxTimestep, s`clauses
      ensures s.F().task == task && s.F().Ready() && s.F().Numbered(1, n) && n <= lit
      ensures ShiftFormulaOk(s.F(), n)
      ensures text == old(text).Then(Lines()) && Lines().Closed()
      ensures NumbersUsed(n, lit)
      ensures s.F().AtomsBelow(lit) && Lines().NumberedBelow(lit)
      ensures lit == 1 || s.F().IsNumber(lit - 1) || Mentions(s.clauses, lit - 1)
    {
      hide Frame.Ready, ShiftFormulaOk, Task.Valid, Text.Then;
      s.clauses := [];
      lit, n := ShiftLines(timesteps, task);
      text := text.Then(Lines());
    }

    /** The lines of that formula. */
    method ShiftLines(timesteps: nat, ghost task: Task) returns (lit: int, ghost n: int)
      requires s.variables.UseShift? && !s.withAt && s.clauses == []
      requires task == Task(s.inst, s.agents, s.cost, s.delta, timesteps, s.variables, false) && task.Valid()
      modifies `graphs, `reaches
      modifies s`shift, s`shiftTimesStart, s`shiftTimesEnd, s`maxTimestep, s`clauses
      ensures s.F().task == task && s.F().Ready() && s.F().Numbered(1, n) && n <= lit
      ensures ShiftFormulaOk(s.F(), n)
      ensures Lines().Closed()
      ensures NumbersUsed(n, lit)
    {
      hide NumbersUsed, Sat, AddsFresh, Frame.AddsWith, ReachesMean, Frame.Ready, Frame.LimitSoc;
      hide ShiftClauses, LitsTrue, ShiftFormula;
      SatNothing();
      lit := ShiftVariables(timesteps);
      n := lit;
      ghost var f := s.F();
      lit := CreateMove_Graph_MonosatShift(lit, f);
      ghost var c1, lit1 := s.clauses, lit;
      AddShiftClauses(f);
      ghost var before := s.clauses;
      ShiftBefore(f, before, n);
      if s.cost.SumOfCosts? && s.delta > 0 {
        assert f.AtomsBelow(lit);
        lit := s.CreateConst_LimitSoc_Shift(lit, f);
      } else {
        NoLimitNeeded(f, Entering, before, n + s.agents);
        AddsNoFresh(before, lit);
      }
      LinesNumbered(f, c1, before, n, lit1, lit);
      ShiftFinish(f, before, n);
      LinesClosed(ShiftPaths(f), n, s.agents);
    }

    method ShiftVariables(timesteps: nat) returns (lit: int)
      requires s.variables.UseShift? && !s.withAt
      requires Task(s.inst, s.agents, s.cost, s.delta, timesteps, s.variables, false).Valid()
      modifies s`shift, s`shiftTimesStart, s`shiftTimesEnd, s`maxTimestep
      ensures s.F().task == Task(s.inst, s.agents, s.cost, s.delta, timesteps, s.variables, false)
      ensures lit >= 1 && s.F().Ready() && s.F().Numbered(1, lit)
    {
      ghost var owner;
      lit, owner := s.CreateShift(1, timesteps);
      ghost var f := s.F();
      OwnsNothing(f, 1, At(0, 0, 0));
      OwnsNothing(f, 1, Pass(0, 0, 0, 0));
      BlocksNumber(f, map[], map[], owner, 1, 1, 1, lit);
    }

    lemma SatNothing()
      ensures forall m :: Sat(m, [])
    {
    }

    method AddShiftClauses(ghost f: Frame)
      requires f == s.F() && f.Ready() && s.variables.UseShift?
      modifies s`clauses
      ensures forall m :: Sat(m, s.clauses) <==> Sat(m, old(s.clauses)) && ShiftClauses(f, m)
      ensures f.Adds(old(s.clauses), s.clauses)
    {
      if s.cost.SumOfCosts? {
        s.CreatePossition_NoneAtGoal_Shift(f);
      }
      s.CreateConf_Swapping_Shift(f);
      s.CreateMove_ExactlyOne_Shift(f);
      s.CreateMove_ExactlyOneIncoming_Shift(f);
    }

    lemma ShiftBefore(f: Frame, before: seq<Clause>, n: int)
      requires f.AtomsBelow(n) && n > 0
      requires forall m :: Sat(m, before) <==> LitsTrue(m, n, s.agents) && ShiftClauses(f, m)
      ensures Indep(before, n + s.agents)
    {
      forall m, m' | Agree(m, m', n + s.agents) && Sat(m, before) ensures Sat(m', before) {
        assert Agree(m, m', n);
        ShiftClausesAgree(f, m, m', n);
        LitsTrueAgree(m, m', n, s.agents);
      }
    }

    /** Under makespan, and without an allowance, there is no cost to limit. */
    lemma NoLimitNeeded(f: Frame, how: LateTest, cs: seq<Clause>, lit: int)
      requires f.task.cost.SumOfCosts? ==> f.task.delta == 0
      ensures forall m :: f.task.cost.SumOfCosts? ==> f.LimitSoc(m, how)
      ensures forall m :: Sat(m, cs) ==> ExtendsTo(m, lit, cs)
    {
      forall m | f.task.cost.SumOfCosts? ensures f.LimitSoc(m, how) {
        NoAllowance(f, m, how, f.task.agents);
      }
      assert forall m :: Agree(m, m, lit);
    }

    lemma ShiftFinish(f: Frame, before: seq<Clause>, n: int)
      requires f.AtomsBelow(n) && n > 0 && f.task.agents == s.agents
      requires ReachesMean(graphs, reaches, ShiftPaths(f), n, s.agents)
      requires forall m :: Sat(m, before) <==> LitsTrue(m, n, s.agents) && ShiftClauses(f, m)
      requires forall m :: Sat(m, s.clauses) ==> Sat(m, before) && (f.task.cost.SumOfCosts? ==> f.LimitSoc(m, Entering))
      requires forall m :: Sat(m, before) && (f.task.cost.SumOfCosts? ==> f.LimitSoc(m, Entering)) ==>
        ExtendsTo(m, n + s.agents, s.clauses)
      ensures ShiftFormulaOk(f, n)
    {
      hide ReachesMean, Sat, ShiftClauses, ShiftFormula, Frame.LimitSoc;
      hide Agree, ShiftPath, GraphModel, ExtendsTo, LitsTrue;
      var path := ShiftPaths(f);
      var base := (m: Model) => ShiftClauses(f, m);
      var extra := (m: Model) => f.task.cost.SumOfCosts? ==> f.LimitSoc(m, Entering);
      forall m, m' | Agree(m, m', n) ensures (base(m) ==> base(m')) && (extra(m) ==> extra(m')) {
        ShiftStable(f, m, m', n);
      }
      forall m, m', a | Agree(m, m', n) && path(m, a) ensures path(m', a) {
        ShiftPathAgree(f, m, m', a, n);
      }
      FormulaFinish(path, base, extra, n, before);
      forall m ensures ShiftFormula(f, m) <==> base(m) && extra(m) && forall a :: 0 <= a < s.agents ==> path(m, a) {
        ShiftParts(f, m);
      }
    }

    lemma ShiftStable(f: Frame, m: Model, m': Model, n: int)
      requires f.AtomsBelow(n) && Agree(m, m', n)
      ensures ShiftClauses(f, m) ==> ShiftClauses(f, m')
      ensures f.LimitSoc(m, Entering) ==> f.LimitSoc(m', Entering)
    {
      if ShiftClauses(f, m) {
        ShiftClausesAgree(f, m, m', n);
      }
      if f.LimitSoc(m, Entering) {
        LimitAgree(f, m, m', Entering, n);
      }
    }

    lemma ShiftParts(f: Frame, m: Model)
      ensures ShiftFormula(f, m) <==>
        && ShiftClauses(f, m) && (f.task.cost.SumOfCosts? ==> f.LimitSoc(m, Entering))
        && forall a :: 0 <= a < f.task.agents ==> ShiftPaths(f)(m, a)
    {
      forall a ensures ShiftPaths(f)(m, a) <==> ShiftPath(f, m, a) {
      }
    }

    /** The formula over At and Pass variables without duplicated agents, behind whatever has been written before. */
    method CreateFormulaPass(timesteps: nat, ghost task: Task) returns (lit: int, ghost n: int)
      requires s.variables.UsePass? && s.withAt
      requires task == Task(s.inst, s.agents, s.cost, s.delta, timesteps, s.variables, true) && task.Valid()
      modifies `text, `graphs, `reaches
      modifies s`at, s`pass, s`maxTimestep, s`clauses
      ensures s.F().task == task && s.F().Ready() && s.F().Numbered(1, n) && n <= lit
      ensures PassFormulaOk(s.F(), n)
      ensures text == old(text).Then(Lines()) && Lines().Closed()
      ensures NumbersUsed(n, lit)
      ensures s.F().AtomsBelow(lit) && Lines().NumberedBelow(lit)
      ensures lit == 1 || s.F().IsNumber(lit - 1) || Mentions(s.clauses, lit - 1)
    {
      hide Frame.Ready, PassFormulaOk, Task.Valid, Text.Then;
      s.clauses := [];
      lit, n := PassLines(timesteps, task);
      text := text.Then(Lines());
    }

    /** The lines of that formula. */
    method PassLines(timesteps: nat, ghost task: Task) returns (lit: int, ghost n: int)
      requires s.variables.UsePass? && s.withAt && s.clauses == []
      requires task == Task(s.inst, s.agents, s.cost, s.delta, timesteps, s.variables, true) && task.Valid()
      modifies `graphs, `reaches
      modifies s`at, s`pass, s`maxTimestep, s`clauses
      ensures s.F().task == task && s.F().Ready() && s.F().Numbered(1, n) && n <= lit
      ensures PassFormulaOk(s.F(), n)
      ensures Lines().Closed()
      ensures NumbersUsed(n, lit)
    {
      hide NumbersUsed, Sat, AddsFresh, Frame.AddsWith, ReachesMean, Frame.Ready, Frame.LimitSoc;
      hide PassClauses, LitsTrue, PassFormula;
      SatNothing();
      lit := PassVariables(timesteps);
      n := lit;
      ghost var f := s.F();
      lit := CreateMove_Graph_MonosatPass(lit, f, 1);
      ghost var c1, lit0 := s.clauses, lit;
      AddPassClauses(f);
      ghost var before := s.clauses;
      PassBefore(f, before, n);
      assert f.AtomsBelow(lit);
      lit := s.CreateMove_NoDuplicates(lit, f);
      ghost var placed, lit1 := s.clauses, lit;
      if s.cost.SumOfCosts? && s.delta > 0 {
        assert f.AtomsBelow(lit);
        lit := s.CreateConst_LimitSoc(lit, f);
      } else {
        NoLimitNeeded(f, NotAtGoal, placed, lit);
        AddsNoFresh(placed, lit);
      }
      AddsFreshMore(before, placed, s.clauses, lit0, lit1, lit);
      LinesNumbered(f, c1, before, n, lit0, lit);
      TwoFamilies(f, before, placed, s.clauses, n, lit1);
      PassFinish(f, before, n);
      LinesClosed(PassPaths(f), n, s.agents);
    }

    method PassVariables(timesteps: nat) returns (lit: int)
      requires s.variables.UsePass? && s.withAt
      requires Task(s.inst, s.agents, s.cost, s.delta, timesteps, s.variables, true).Valid()
      modifies s`at, s`pass, s`maxTimestep
      ensures s.F().task == Task(s.inst, s.agents, s.cost, s.delta, timesteps, s.variables, true)
      ensures lit >= 1 && s.F().Ready() && s.F().Numbered(1, lit)
    {
      ghost var atOwner, passOwner;
      lit, atOwner := s.CreateAt(1, timesteps);
      ghost var n1, f1 := lit, s.F();
      lit, passOwner := s.CreatePass(lit, timesteps);
      ghost var f := s.F();
      TablesKept(f1, f, atOwner, 1, n1);
      OwnsNothing(f, lit, Shift(0, 0, 0));
      BlocksNumber(f, atOwner, passOwner, map[], 1, n1, lit, lit);
    }

    /** The conflict clauses are emitted twice. */
    method AddPassClauses(ghost f: Frame)
      requires f == s.F() && f.Ready() && s.withAt && s.variables.UsePass?
      modifies s`clauses
      ensures forall m :: Sat(m, s.clauses) <==> Sat(m, old(s.clauses)) && PassClauses(f, m)
      ensures f.Adds(old(s.clauses), s.clauses)
    {
      if s.cost.SumOfCosts? {
        s.CreatePossition_NoneAtGoal(f);
      }
      s.CreateConf_Vertex(f);
      s.CreateConf_Swapping_Pass(f);
      s.CreateConf_Vertex(f);
      s.CreateConf_Swapping_Pass(f);
    }

    lemma PassBefore(f: Frame, before: seq<Clause>, n: int)
      requires f.AtomsBelow(n) && n > 0
      requires forall m :: Sat(m, before) <==> LitsTrue(m, n, s.agents) && PassClauses(f, m)
      ensures Indep(before, n + s.agents)
    {
      forall m, m' | Agree(m, m', n + s.agents) && Sat(m, before) ensures Sat(m', before) {
        assert Agree(m, m', n);
        PassClausesAgree(f, m, m', n);
        LitsTrueAgree(m, m', n, s.agents);
      }
    }

    ghost predicate PlacedWithinLimit(f: Frame, m: Model) {
      f.NoDuplicates(m) && (f.task.cost.SumOfCosts? ==> f.LimitSoc(m, NotAtGoal))
    }

    /** Two families with further variables, one after the other. */
    lemma TwoFamilies(f: Frame, before: seq<Clause>, placed: seq<Clause>, after: seq<Clause>, n: int, lit1: int)
      requires f.AtomsBelow(n) && n + s.agents <= lit1
      requires forall m :: Sat(m, placed) ==> Sat(m, before) && f.NoDuplicates(m)
      requires forall m :: Sat(m, before) && f.NoDuplicates(m) ==> ExtendsTo(m, n + s.agents, placed)
      requires forall m :: Sat(m, after) ==> Sat(m, placed) && (f.task.cost.SumOfCosts? ==> f.LimitSoc(m, NotAtGoal))
      requires forall m :: Sat(m, placed) && (f.task.cost.SumOfCosts? ==> f.LimitSoc(m, NotAtGoal)) ==>
        ExtendsTo(m, lit1, after)
      ensures forall m :: Sat(m, after) ==> Sat(m, before) && PlacedWithinLimit(f, m)
      ensures forall m :: Sat(m, before) && PlacedWithinLimit(f, m) ==> ExtendsTo(m, n + s.agents, after)
    {
      hide Sat, ExtendsTo, Frame.NoDuplicates;
      forall m | Sat(m, before) && PlacedWithinLimit(f, m) ensures ExtendsTo(m, n + s.agents, after) {
        var m1 := Extension(m, n + s.agents, placed);
        assert Agree(m, m1, n);
        if f.task.cost.SumOfCosts? {
          LimitAgree(f, m, m1, NotAtGoal, n);
        }
        ExtendsFurther(m, m1, n + s.agents, lit1, after);
      }
    }

    lemma PassFinish(f: Frame, before: seq<Clause>, n: int)
      requires f.AtomsBelow(n) && n > 0 && f.task.agents == s.agents
      requires ReachesMean(graphs, reaches, PassPaths(f), n, s.agents)
      requires forall m :: Sat(m, before) <==> LitsTrue(m, n, s.agents) && PassClauses(f, m)
      requires forall m :: Sat(m, s.clauses) ==> Sat(m, before) && PlacedWithinLimit(f, m)
      requires forall m :: Sat(m, before) && PlacedWithinLimit(f, m) ==> ExtendsTo(m, n + s.agents, s.clauses)
      ensures PassFormulaOk(f, n)
    {
      hide ReachesMean, Sat, PassClauses, PassFormula, PlacedWithinLimit;
      hide Agree, PassPath, GraphModel, ExtendsTo, LitsTrue;
      var path := PassPaths(f);
      var base := (m: Model) => PassClauses(f, m);
      var extra := (m: Model) => PlacedWithinLimit(f, m);
      forall m, m' | Agree(m, m', n) ensures (base(m) ==> base(m')) && (extra(m) ==> extra(m')) {
        PassStable(f, m, m', n);
      }
      forall m, m', a | Agree(m, m', n) && path(m, a) ensures path(m', a) {
        PassPathAgree(f, m, m', a, n);
      }
      FormulaFinish(path, base, extra, n, before);
      forall m ensures PassFormula(f, m) <==> base(m) && extra(m) && forall a :: 0 <= a < s.agents ==> path(m, a) {
        PassParts(f, m);
      }
    }

    lemma PassStable(f: Frame, m: Model, m': Model, n: int)
      requires f.AtomsBelow(n) && Agree(m, m', n)
      ensures PassClauses(f, m) ==> PassClauses(f, m')
      ensures PlacedWithinLimit(f, m) ==> PlacedWithinLimit(f, m')
    {
      if PassClauses(f, m) {
        PassClausesAgree(f, m, m', n);
      }
      if PlacedWithinLimit(f, m) {
        NoDuplicatesAgree(f, m, m', n);
        if f.task.cost.SumOfCosts? {
          LimitAgree(f, m, m', NotAtGoal, n);
        }
      }
    }

    lemma PassParts(f: Frame, m: Model)
      ensures PassFormula(f, m) <==>
        && PassClauses(f, m) && PlacedWithinLimit(f, m)
        && forall a :: 0 <= a < f.task.agents ==> PassPaths(f)(m, a)
    {
      forall a ensures PassPaths(f)(m, a) <==> PassPath(f, m, a) {
      }
    }

    // ----- reading the plan back -----

    method GetNextVertex(m: Model, a: int, v: int, t: int, ghost f: Frame) returns (u: int)
      requires f == s.F() && f.Ready() && f.task.IsAgent(a) && (v == -1 || f.task.IsVertex(v))
      requires s.variables.UseShift? || (s.variables.UsePass? && s.withAt)
      ensures MonoNext(f, m, a, v, u, t - 1)
      ensures u == -1 || f.task.IsVertex(u)
      ensures v != -1 && u != -1 ==> MonoFirstWay(f, m, a, v, u, t - 1)
    {
      if v == -1 {
        return -1;
      }
      var leaveT := t - 1;
      for dir := 0 to 5
        invariant NoMonoWayBefore(f, m, a, v, dir, leaveT)
      {
        if !s.inst.graph.HasNeighbor(v, dir) {
          continue;
        }
        u := s.inst.graph.GetNeighbor(v, dir);
        var can := CanGo(m, a, v, dir, u, t, f);
        if can {
          assert MonoGoesTo(f, m, a, v, u, leaveT);
          return;
        }
      }
      u := -1;
    }

    /** The test GetNextVertex makes, by kind of variables. */
    method CanGo(m: Model, a: int, v: int, dir: int, u: int, t: int, ghost f: Frame) returns (can: bool)
      requires f == s.F() && f.Ready() && f.task.IsAgent(a) && f.task.Leads(v, dir, u)
      requires s.variables.UseShift? || (s.variables.UsePass? && s.withAt)
      ensures can <==> MonoGoes(f, m, a, v, dir, u, t - 1)
    {
      if s.variables.UseShift? {
        var found, x := s.FindShift(v, dir, t - 1, f);
        return found && x in m;
      }
      assert f.PassEntryOk(a, v, dir, s.pass[a][v][dir]);
      if s.pass[a][v][dir].firstVariable == 0 ||
        s.pass[a][v][dir].firstTimestep > t - 1 || s.pass[a][v][dir].lastTimestep < t - 1 {
        return false;
      }
      PassWindow(f.task, a, v, dir, u, t - 1);
      assert f.AtEntryOk(a, u, s.at[a][u]);
      can := s.PassVar(a, v, dir, t - 1) in m && s.AtVar(a, u, t) in m;
    }

    /** The walk of every agent through the model. */
    method ExtractPlan(m: Model, ghost f: Frame)
      requires f == s.F() && f.Ready() && (s.variables.UseShift? || (s.variables.UsePass? && s.withAt))
      modifies s`plan
      ensures |s.plan| == s.agents && forall a :: 0 <= a < |s.plan| ==> MonoExtracted(f, m, a, s.plan[a])
      ensures forall a :: 0 <= a < |s.plan| ==> MonoFirstWays(f, m, a, s.plan[a])
    {
      hide MonoExtracted, MonoFirstWays;
      s.plan := [];
      for a := 0 to s.agents
        invariant |s.plan| == a
        invariant forall b :: 0 <= b < a ==> MonoExtracted(f, m, b, s.plan[b]) && MonoFirstWays(f, m, b, s.plan[b])
      {
        var row := ExtractRow(m, a, f);
        s.plan := s.plan + [row];
      }
    }

    method ExtractRow(m: Model, a: int, ghost f: Frame) returns (row: seq<int>)
      requires f == s.F() && f.Ready() && f.task.IsAgent(a)
      requires s.variables.UseShift? || (s.variables.UsePass? && s.withAt)
      ensures MonoExtracted(f, m, a, row) && MonoFirstWays(f, m, a, row)
    {
      hide MonoFirstWay, MonoNext, Frame.AtTable, Frame.PassTable, Frame.ShiftTable;
      AgentFacts(f.task, a);
      var v := s.inst.starts[a];
      row := [v];
      for t := 1 to s.maxTimestep
        invariant |row| == t && row[0] == f.task.Start(a) && row[t - 1] == v
        invariant v == -1 || f.task.IsVertex(v)
        invariant MonoFirstWays(f, m, a, row)
        invariant forall i, j :: 0 <= i < t - 1 && j == i + 1 ==> MonoNext(f, m, a, row[i], row[j], i)
      {
        v := GetNextVertex(m, a, v, t, f);
        row := row + [v];
      }
    }

    // ----- what the solver decides -----

    /**
     * MonoSAT finds a model of the formula over Shift variables exactly when a valid plan within the cost limit exists,
     * if agents that share a goal start apart and are due at the same timestep. Otherwise there is no plan.
     */
    lemma ShiftSolverDecides(n: int)
      requires s.variables.UseShift? && s.F().Ready() && s.F().Numbered(1, n) && ShiftFormulaOk(s.F(), n)
      ensures Solvable(s.F().task, Parallel) ==> SharersApart(s.F().task) && Lines().HasModel()
      ensures SharersApart(s.F().task) && Lines().HasModel() ==> Solvable(s.F().task, Parallel)
      ensures SharersApart(s.F().task) ==>
        forall m :: Lines().HoldsIn(m) && Read(m) ==> ShownFits(s.F().task, s.plan)
    {
      hide GraphModel, ShiftFormula, Frame.Numbered, Solvable, SharersApart;
      var f := s.F();
      ShiftDecides(f, 1, n);
      if m :| ShiftFormula(f, m) {
        assert HasGraphModel(m, n);
        var m' :| Agree(m, m', n) && GraphModel(m', s.clauses, graphs, reaches);
        assert Lines().HoldsIn(m');
      }
      forall m | SharersApart(f.task) && Lines().HoldsIn(m) && Read(m)
        ensures ShownFits(f.task, s.plan)
      {
        ShiftSound(f, m, s.plan);
      }
    }

    /** The plan is the one ExtractPlan reads off m. */
    ghost predicate Read(m: Model)
      reads s
    {
      && |s.plan| == s.agents <= |s.inst.goals|
      && forall a :: 0 <= a < |s.plan| ==> MonoExtracted(s.F(), m, a, s.plan[a])
    }

    /** The same for the formula over At and Pass variables. */
    lemma PassSolverDecides(n: int)
      requires s.variables.UsePass? && s.withAt && s.F().Ready() && s.F().Numbered(1, n) && PassFormulaOk(s.F(), n)
      ensures Lines().HasModel() <==> Solvable(s.F().task, Parallel)
      ensures forall m :: Lines().HoldsIn(m) && Read(m) ==>
        ShownFits(s.F().task, s.plan)
    {
      hide GraphModel, PassFormula, Frame.Numbered, Solvable;
      var f := s.F();
      PassDecides(f, 1, n);
      if m :| PassFormula(f, m) {
        assert HasGraphModel(m, n);
        var m' :| Agree(m, m', n) && GraphModel(m', s.clauses, graphs, reaches);
        assert Lines().HoldsIn(m');
      }
      forall m | Lines().HoldsIn(m) && Read(m) ensures ShownFits(f.task, s.plan) {
        PassSound(f, m, s.plan, 1, n);
      }
    }

    // ----- the solving loop -----

    ghost function TaskAt(d: nat): Task
      reads s`inst, s`agents
    {
      TaskFor(s.inst, s.agents, s.cost, s.variables, d).(withAt := s.withAt)
    }

    /** Where a formula with a model means that there is a plan. */
    ghost predicate Telling(task: Task) { s.variables.UseShift? ==> SharersApart(task) }

    /** The text has a model when the task has a valid plan, and only then if it is telling. */
    ghost predicate Decides(t: Text, task: Task) {
      (Solvable(task, Parallel) ==> Telling(task) && t.HasModel()) &&
      (Telling(task) && t.HasModel() ==> Solvable(task, Parallel))
    }

    /** A solver for one of the two formulas, for a filled instance. */
    ghost predicate Usable(ags: nat)
      reads s`inst
    {
      (if s.withAt then s.variables.UsePass? else s.variables.UseShift?) && Runnable(s.inst, ags)
    }

    lemma TaskAtValid(d: nat)
      requires Runnable(s.inst, s.agents)
      ensures s.agents < |s.inst.mksLBs| && s.inst.GetMksLB(s.agents) >= 0
      ensures TaskAt(d).Valid() && TaskAt(d).timesteps == s.inst.GetMksLB(s.agents) + d
      ensures s.agents <= |s.inst.goals|
    {
      TaskForValid(s.inst, s.agents, s.cost, s.variables, d);
    }

    /** The formula of the current allowance, behind whatever has been written before. */
    method CreateFormula(ghost task: Task) returns (lit: int, ghost n: int)
      requires Usable(s.agents) && task == TaskAt(s.delta)
      modifies `text, `graphs, `reaches
      modifies s`at, s`pass, s`shift, s`shiftTimesStart, s`shiftTimesEnd, s`maxTimestep, s`clauses
      ensures s.F().task == task && FormulaOk(n)
      ensures text == old(text).Then(Lines()) && Lines().Closed()
      ensures NumbersUsed(n, lit)
    {
      hide PassFormulaOk, ShiftFormulaOk, Frame.Ready, Frame.Numbered, Task.Valid;
      TaskAtValid(s.delta);
      var timesteps := s.inst.GetMksLB(s.agents) + s.delta;
      if s.variables.UsePass? {
        lit, n := CreateFormulaPass(timesteps, task);
      } else {
        lit, n := CreateFormulaShift(timesteps, task);
      }
    }

    /** The current lines are the formula over the variables in place. */
    ghost predicate FormulaOk(n: int)
      reads `graphs, `reaches, s`clauses
      reads s`inst, s`agents, s`delta, s`maxTimestep, s`at, s`pass, s`shift, s`shiftTimesStart, s`shiftTimesEnd
    {
      && s.F().Ready() && s.F().Numbered(1, n)
      && if s.withAt then s.variables.UsePass? && PassFormulaOk(s.F(), n)
         else s.variables.UseShift? && ShiftFormulaOk(s.F(), n)
    }

    lemma LinesDecide(n: int)
      requires FormulaOk(n)
      ensures Decides(Lines(), s.F().task)
      ensures Telling(s.F().task) ==>
        forall m :: Lines().HoldsIn(m) && Read(m) ==> ShownFits(s.F().task, s.plan)
    {
      hide PassFormulaOk, ShiftFormulaOk, Frame.Ready, Frame.Numbered, Text.HoldsIn, Solvable, SharersApart, Read;
      if s.withAt {
        PassSolverDecides(n);
      } else {
        ShiftSolverDecides(n);
      }
    }

    /** Solve the whole text, of which the current formula is the end, and read the plan back. */
    method InvokeSolver(keep: bool, ghost task: Task, ghost n: int, ghost before: Text) returns (res: int)
      requires s.F().task == task && FormulaOk(n)
      requires text == before.Then(Lines()) && before.Closed() && Lines().Closed()
      modifies s`plan, `solverCalls
      ensures solverCalls == old(solverCalls) + 1 && (res == 0 || res == 1)
      ensures res == 0 <==> text.HasModel()
      ensures res == 0 && Telling(task) ==> Solvable(task, Parallel)
      ensures res == 0 && Telling(task) && keep ==> Fits(task, Parallel, s.plan) && ShownLength(task, s.plan)
      ensures res == 1 || !keep ==> s.plan == []
    {
      hide PassFormulaOk, ShiftFormulaOk, Frame.Numbered, GraphModel;
      hide Solvable, Fits, ShownLength, SharersApart, Frame.AtTable, Frame.PassTable, Frame.ShiftTable;
      s.plan := [];
      var answer := CallMonosat(text.clauses, text.graphs, text.reaches);
      solverCalls := solverCalls + 1;
      LinesDecide(n);
      if answer.None? {
        return 1;
      }
      ghost var f := s.F();
      assert text.HoldsIn(answer.value);
      ThenModels(answer.value, before, Lines());
      if keep {
        ExtractPlan(answer.value, f);
        AllGoalsReal(task);
        assert Read(answer.value);
        LinesDecide(n);
        if s.cost.SumOfCosts? {
          var maxT := s.NormalizePlan();
        }
      }
      return 0;
    }

    /** One pass through the loop body. */
    method Attempt(keep: bool) returns (res: int)
      requires Usable(s.agents) && text.Closed()
      modifies this, s
      ensures s.inst == old(s.inst) && s.agents == old(s.agents) && (res == 0 || res == 1)
      ensures solvedDelta == old(s.delta) && s.delta == solvedDelta + 1 && solverCalls == old(solverCalls) + 1
      ensures text == old(text).Then(Lines()) && text.Closed() && Lines().Closed()
      ensures Decides(Lines(), TaskAt(solvedDelta))
      ensures res == 0 <==> text.HasModel()
      ensures res == 0 && Telling(TaskAt(solvedDelta)) ==> Solved(keep)
      ensures Lines().NumberedBelow(nrVars)
      ensures res == 1 || !keep ==> s.plan == []
    {
      hide Text.NumberedBelow, Solvable, Fits, Runnable, FormulaOk, SharersApart, Text.HasModel;
      ghost var task, before := TaskAt(s.delta), text;
      ghost var n;
      nrVars, n := CreateFormula(task);
      ThenModels({}, before, Lines());
      LinesDecide(n);
      res := InvokeSolver(keep, task, n, before);
      solvedDelta := s.delta;
      s.delta := s.delta + 1;
    }

    /** The allowance solved last has a valid plan, and the plan (if kept) is one. */
    ghost predicate Solved(keep: bool)
      reads this, s
    {
      && Solvable(TaskAt(solvedDelta), Parallel)
      && (if keep then Fits(TaskAt(solvedDelta), Parallel, s.plan) && ShownLength(TaskAt(solvedDelta), s.plan)
          else s.plan == [])
    }

    /**
     * The solving loop with MonoSAT, which is always eager. The text of one allowance is followed by the text of the
     * next, so it has no model any more once it had none: whether the loop succeeds is settled by the formula of
     * inputDelta and what was written before it. Without a model of these the loop goes on until the budget is spent.
     */
    method Solve(ags: nat, inputDelta: nat, oneshot: bool, keep: bool, budget: nat)
      returns (res: int, ghost formula: Text)
      requires Usable(ags) && text.Closed()
      modifies this, s
      ensures s.inst == old(s.inst) && s.agents == ags && text.Closed()
      ensures budget > 0 ==> formula.Closed() && Decides(formula, TaskAt(inputDelta))
      ensures budget > 0 ==> (res == 0 <==> old(text).Then(formula).HasModel())
      ensures old(text) == EMPTY && budget > 0 && Telling(TaskAt(inputDelta)) ==>
        (res == 0 <==> Solvable(TaskAt(inputDelta), Parallel))
      ensures res == 0 ==> solvedDelta == inputDelta && s.delta == inputDelta + 1 && solverCalls == 1
      ensures res == 0 && Telling(TaskAt(inputDelta)) ==> Solved(keep)
      ensures res == 0 || (res == -1 && oneshot && solverCalls == 1) || (res == 1 && solverCalls == budget)
      ensures res != 0 && budget > 0 ==> !text.HasModel()
      ensures !old(text).HasModel() ==> res != 0
      ensures budget > 0 && (res != 0 || !keep) ==> s.plan == []
    {
      hide Solvable, Fits, Runnable, SharersApart, Text.HasModel, Text.Then, Text.Closed;
      s.delta := inputDelta;
      solverCalls := 0;
      s.agents := ags;
      formula := EMPTY;
      ghost var before := text;
      while true
        invariant s.inst == old(s.inst) && s.agents == ags && solverCalls <= budget && text.Closed()
        invariant s.delta == inputDelta + solverCalls
        invariant oneshot ==> solverCalls == 0
        invariant solverCalls > 0 ==> s.plan == []
        invariant solverCalls == 0 ==> text == before
        invariant solverCalls > 0 ==> formula.Closed() && Decides(formula, TaskAt(inputDelta))
        invariant solverCalls > 0 ==> !before.Then(formula).HasModel() && !text.HasModel()
        decreases budget - solverCalls
      {
        if solverCalls == budget {
          if solverCalls > 0 {
            NoModelLater(before, formula);
          }
          return 1, formula;
        }
        ghost var written := text;
        res := Attempt(keep);
        NoModelLater(written, Lines());
        if s.delta == inputDelta + 1 {
          formula := Lines();
        }
        if res == 0 {
          return 0, formula;
        }
        if oneshot {
          return -1, formula;
        }
      }
    }
  }
}
