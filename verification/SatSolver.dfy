/** The CaDiCaL-based solver of src/encodings/SAT_encoding.cpp and the solving loop of solver_common.cpp. */
module SatSolvers {
  import opened Grids
  import opened Distances
  import opened Instances
  import opened Plans
  import opened Cnf
  import opened Encodings
  import opened Windows
  import opened Numbering
  import opened Solvers
  import opened Soundness
  import opened Completeness
  import opened Equivalence

  datatype Options = Options(motion: Motion, isLazy: bool, dupli: bool)

  // ----- what the clauses mean -----

  /** The conflict clauses: all of them, or those demanded so far. */
  ghost predicate Conflicts(f: Frame, m: Model, o: Options, known: set<Conflict>) {
    if o.isLazy then f.RespectsAll(m, known) else f.Eager(m, o.motion)
  }

  ghost predicate Positions(f: Frame, m: Model) {
    f.StartsHold(m) && f.GoalsHold(m) && (f.task.cost.SumOfCosts? ==> f.NoneAtGoal(m))
  }

  ghost predicate Single(f: Frame, m: Model, o: Options) { !o.dupli ==> f.NoDuplicates(m) }

  ghost predicate Limited(f: Frame, m: Model, o: Options) {
    f.task.cost.SumOfCosts? ==> f.LimitSoc(m, if o.dupli then Elsewhere else NotAtGoal)
  }

  /** The models a formula should have: everything hard, and the conflict clauses eager or so far on demand. */
  ghost predicate Intended(f: Frame, m: Model, o: Options, known: set<Conflict>) {
    f.Hard(m, o.dupli) && Conflicts(f, m, o, known)
  }

  /** The eager clauses next to those about vertices, by motion and kind of variables. */
  ghost predicate SwapsOrFollows(f: Frame, m: Model, motion: Motion) {
    match motion
    case Parallel =>
      && (f.task.variables.UseAt? ==> f.SwapConfAt(m)) && (f.task.variables.UsePass? ==> f.SwapConfPass(m))
      && (f.task.variables.UseShift? ==> f.SwapConfShift(m))
    case Pebble =>
      && (f.task.variables.UseAt? ==> f.PebbleConfAt(m)) && (f.task.variables.UsePass? ==> f.PebbleConfPass(m))
      && (f.task.variables.UseShift? ==> f.PebbleConfShift(m))
  }

  /** No clause mentions a number that belongs to no variable or to another one: see the module SharedGoal. */
  ghost predicate Exact(f: Frame, o: Options) { !o.isLazy || f.task.GoalsApart() }

  /**
   * Every model is intended. Without shared goals the clauses have, up to auxiliary variables from n on, exactly the
   * intended models; with shared goals there may be fewer.
   */
  ghost predicate Means(f: Frame, cs: seq<Clause>, o: Options, known: set<Conflict>, n: int) {
    && (forall m :: Sat(m, cs) ==> Intended(f, m, o, known))
    && (Exact(f, o) ==> forall m :: Intended(f, m, o, known) ==> ExtendsTo(m, n, cs))
  }

  ghost predicate AllExpressible(task: Task, motion: Motion, cs: set<Conflict>) {
    forall c :: c in cs ==> Expressible(task, c) && Relevant(motion, c)
  }

  /** Adding the clauses of more conflicts. */
  lemma MeansMore(f: Frame, before: seq<Clause>, after: seq<Clause>, o: Options, known: set<Conflict>,
                  more: set<Conflict>, n: int)
    requires o.isLazy && f.AtomsBelow(n) && Means(f, before, o, known, n)
    requires forall m :: Sat(m, after) ==> Sat(m, before) && f.RespectsAll(m, more)
    requires Exact(f, o) ==> forall m :: Sat(m, before) && f.RespectsAll(m, more) ==> Sat(m, after)
    ensures Means(f, after, o, known + more, n)
  {
    forall m | Exact(f, o) && Intended(f, m, o, known + more) ensures ExtendsTo(m, n, after) {
      assert f.RespectsAll(m, known) && f.RespectsAll(m, more);
      assert Intended(f, m, o, known);
      var m' :| Agree(m, m', n) && Sat(m', before);
      RespectsAgree(f, m, m', more, n);
    }
    forall m | Sat(m, after) ensures Intended(f, m, o, known + more) {
      assert Intended(f, m, o, known);
    }
  }

  lemma RespectsAgree(f: Frame, m: Model, m': Model, cs: set<Conflict>, n: int)
    requires f.AtomsBelow(n) && Agree(m, m', n) && f.RespectsAll(m, cs)
    ensures f.RespectsAll(m', cs)
  {
    HoldsAgree(f, m, m', n);
    forall c | c in cs ensures f.Respects(m', c) {
      assert f.Respects(m, c);
    }
  }

  lemma ApartExpressible(task: Task, c: Conflict)
    requires task.GoalsApart() && (Expressible(task, c) || AtSharedGoal(task, c))
    ensures Expressible(task, c)
  {
  }

  /** The models make the same variables of the frame true. */
  ghost predicate Same(f: Frame, m: Model, m': Model) { forall x :: f.Holds(m, x) <==> f.Holds(m', x) }

  lemma SwapAgree(f: Frame, m: Model, m': Model)
    requires Same(f, m, m')
    ensures f.SwapConfAt(m) ==> f.SwapConfAt(m')
    ensures f.SwapConfPass(m) ==> f.SwapConfPass(m')
    ensures f.SwapConfShift(m) ==> f.SwapConfShift(m')
  {
    if f.SwapConfAt(m) {
      forall a1, a2, v, dir, u, t | 0 <= a1 < a2 < f.task.agents && 1 <= dir < 5 && f.task.Leads(v, dir, u)
        ensures !f.SwapAt(m', a1, a2, v, u, t)
      {
        assert !f.SwapAt(m, a1, a2, v, u, t);
      }
    }
  }

  lemma PebbleAgree(f: Frame, m: Model, m': Model)
    requires Same(f, m, m')
    ensures f.PebbleConfAt(m) ==> f.PebbleConfAt(m')
    ensures f.PebbleConfPass(m) ==> f.PebbleConfPass(m')
    ensures f.PebbleConfShift(m) ==> f.PebbleConfShift(m')
  {
    if f.PebbleConfShift(m) {
      forall v, dir, u, t | f.task.Leads(v, dir, u) && f.Holds(m', Shift(v, dir, t)) ensures f.NothingLeaves(m', u, t) {
        assert f.NothingLeaves(m, u, t);
      }
    }
  }

  lemma VertexAgree(f: Frame, m: Model, m': Model)
    requires Same(f, m, m')
    ensures f.VertexConf(m) ==> f.VertexConf(m')
  {
  }

  lemma EagerAgree(f: Frame, m: Model, m': Model, motion: Motion, n: int)
    requires f.AtomsBelow(n) && Agree(m, m', n) && f.Eager(m, motion)
    ensures f.Eager(m', motion)
  {
    HoldsAgree(f, m, m', n);
    assert Same(f, m, m');
    hide Same, Frame.VertexConf, Frame.SwapConfAt, Frame.SwapConfPass, Frame.SwapConfShift;
    hide Frame.PebbleConfAt, Frame.PebbleConfPass, Frame.PebbleConfShift;
    VertexAgree(f, m, m');
    SwapAgree(f, m, m');
    PebbleAgree(f, m, m');
  }

  lemma PositionsAgree(f: Frame, m: Model, m': Model, n: int)
    requires f.AtomsBelow(n) && Agree(m, m', n) && Positions(f, m)
    ensures Positions(f, m')
  {
    HoldsAgree(f, m, m', n);
  }

  lemma NextVertexAgree(f: Frame, m: Model, m': Model)
    requires Same(f, m, m') && f.NextVertexAt(m)
    ensures f.NextVertexAt(m')
  {
    forall a, v, t | f.Holds(m', At(a, v, t)) && f.HasNextAt(a, v, t) ensures f.MovesTo(m', a, v, t) {
      assert f.MovesTo(m, a, v, t);
    }
  }

  lemma PassAgree(f: Frame, m: Model, m': Model)
    requires Same(f, m, m') && f.EnterVertexPass(m) && f.NextEdgePass(m)
    ensures f.EnterVertexPass(m') && f.NextEdgePass(m')
  {
    forall a, v, t | f.Holds(m', At(a, v, t)) && f.HasNextPass(a, v, t) ensures f.LeavesBy(m', a, v, t) {
      assert f.LeavesBy(m, a, v, t);
    }
  }

  lemma ShiftAgree(f: Frame, m: Model, m': Model)
    requires Same(f, m, m') && f.OneShift(m) && f.NextVertexShift(m)
    ensures f.OneShift(m') && f.NextVertexShift(m')
  {
    forall v, t ensures f.OneShiftOut(m', v, t) {
      assert f.OneShiftOut(m, v, t);
    }
    forall a, v, dir, u, t | f.task.Leads(v, dir, u) ensures f.FollowsShift(m', a, v, dir, u, t) {
      assert f.FollowsShift(m, a, v, dir, u, t);
    }
  }

  lemma MovementAgree(f: Frame, m: Model, m': Model, n: int)
    requires f.AtomsBelow(n) && Agree(m, m', n) && f.Movement(m)
    ensures f.Movement(m')
  {
    HoldsAgree(f, m, m', n);
    match f.task.variables
    case UseAt => NextVertexAgree(f, m, m');
    case UsePass => PassAgree(f, m, m');
    case UseShift =>
      NextVertexAgree(f, m, m');
      ShiftAgree(f, m, m');
  }

  lemma {:induction false} TotalDelayAgree(f: Frame, m: Model, m': Model, how: LateTest, n: int, k: nat)
    requires f.AtomsBelow(n) && Agree(m, m', n)
    ensures f.TotalDelay(m, how, k) == f.TotalDelay(m', how, k)
  {
    if k > 0 {
      TotalDelayAgree(f, m, m', how, n, k - 1);
      DelayAgree(f, m, m', how, k - 1, n, f.task.delta);
    }
  }

  // ----- the formula, family by family -----

  /** cs says, without shared goals exactly: conflicts and positions. */
  ghost predicate Stage1(f: Frame, cs: seq<Clause>, o: Options, known: set<Conflict>) {
    && (forall m :: Sat(m, cs) ==> Conflicts(f, m, o, known) && Positions(f, m))
    && (Exact(f, o) ==> forall m :: Conflicts(f, m, o, known) && Positions(f, m) ==> Sat(m, cs))
  }

  lemma Stage1Indep(f: Frame, cs: seq<Clause>, o: Options, known: set<Conflict>, n: int)
    requires f.AtomsBelow(n) && Stage1(f, cs, o, known) && Exact(f, o)
    ensures Indep(cs, n)
  {
    forall m, m' | Agree(m, m', n) && Sat(m, cs) ensures Sat(m', cs) {
      PositionsAgree(f, m, m', n);
      if o.isLazy {
        RespectsAgree(f, m, m', known, n);
      } else {
        EagerAgree(f, m, m', o.motion, n);
      }
    }
  }

  /** And no duplicates, up to auxiliary variables. */
  ghost predicate Stage2(f: Frame, cs: seq<Clause>, o: Options, known: set<Conflict>, n: int) {
    && (forall m :: Sat(m, cs) ==> Conflicts(f, m, o, known) && Positions(f, m) && Single(f, m, o))
    && (Exact(f, o) ==>
          forall m :: Conflicts(f, m, o, known) && Positions(f, m) && Single(f, m, o) ==> ExtendsTo(m, n, cs))
  }

  lemma Stage2Plain(f: Frame, cs: seq<Clause>, o: Options, known: set<Conflict>, n: int)
    requires o.dupli && Stage1(f, cs, o, known)
    ensures Stage2(f, cs, o, known, n)
  {
    assert forall m :: Agree(m, m, n);
  }

  /** And movement. */
  ghost predicate Stage3(f: Frame, cs: seq<Clause>, o: Options, known: set<Conflict>, n: int) {
    && (forall m :: Sat(m, cs) ==> Conflicts(f, m, o, known) && Positions(f, m) && Single(f, m, o) && f.Movement(m))
    && (Exact(f, o) ==> forall m ::
          Conflicts(f, m, o, known) && Positions(f, m) && Single(f, m, o) && f.Movement(m) ==> ExtendsTo(m, n, cs))
  }

  lemma Stage3From(f: Frame, before: seq<Clause>, after: seq<Clause>, o: Options, known: set<Conflict>, n: int,
                   lit: int)
    requires n <= lit && f.AtomsBelow(n) && Stage2(f, before, o, known, n) && (Exact(f, o) ==> Indep(before, lit))
    requires forall m :: Sat(m, after) <==> Sat(m, before) && f.Movement(m)
    ensures Stage3(f, after, o, known, n) && (Exact(f, o) ==> Indep(after, lit))
  {
    forall m | Exact(f, o) && Conflicts(f, m, o, known) && Positions(f, m) && Single(f, m, o) && f.Movement(m)
      ensures ExtendsTo(m, n, after)
    {
      var m' :| Agree(m, m', n) && Sat(m', before);
      MovementAgree(f, m, m', n);
    }
    forall m, m' | Exact(f, o) && Agree(m, m', lit) && Sat(m, after) ensures Sat(m', after) {
      assert Agree(m, m', n);
      MovementAgree(f, m, m', n);
    }
  }

  lemma IntendedParts(f: Frame, m: Model, o: Options, known: set<Conflict>)
    ensures Intended(f, m, o, known) <==>
      Conflicts(f, m, o, known) && Positions(f, m) && Single(f, m, o) && f.Movement(m) && Limited(f, m, o)
  {
  }

  lemma Stage4From(f: Frame, before: seq<Clause>, after: seq<Clause>, o: Options, known: set<Conflict>, n: int,
                   lit: int, how: LateTest)
    requires n <= lit && f.AtomsBelow(n) && Stage3(f, before, o, known, n) && f.task.cost.SumOfCosts?
    requires how == if o.dupli then Elsewhere else NotAtGoal
    requires forall m :: Sat(m, after) ==> Sat(m, before) && f.LimitSoc(m, how)
    requires Exact(f, o) ==> forall m :: Sat(m, before) && f.LimitSoc(m, how) ==> ExtendsTo(m, lit, after)
    ensures Means(f, after, o, known, n)
  {
    hide Sat, ExtendsTo, Intended, Conflicts, Positions, Single, Frame.Movement, Frame.LimitSoc, Frame.AtomsBelow;
    forall m | Exact(f, o) && Intended(f, m, o, known) ensures ExtendsTo(m, n, after) {
      IntendedParts(f, m, o, known);
      LimitExtends(f, m, how, before, after, n, lit);
    }
    forall m | Sat(m, after) ensures Intended(f, m, o, known) {
      IntendedParts(f, m, o, known);
    }
  }

  lemma LimitExtends(f: Frame, m: Model, how: LateTest, before: seq<Clause>, after: seq<Clause>, n: int, lit: int)
    requires n <= lit && f.AtomsBelow(n) && ExtendsTo(m, n, before) && f.LimitSoc(m, how)
    requires forall m :: Sat(m, before) && f.LimitSoc(m, how) ==> ExtendsTo(m, lit, after)
    ensures ExtendsTo(m, n, after)
  {
    var m1 :| Agree(m, m1, n) && Sat(m1, before);
    TotalDelayAgree(f, m, m1, how, n, f.task.agents);
    assert f.LimitSoc(m1, how);
    var m2 :| Agree(m1, m2, lit) && Sat(m2, after);
    assert Agree(m, m2, n);
  }

  /** Without an allowance the windows alone limit the cost. */
  lemma Stage4Plain(f: Frame, cs: seq<Clause>, o: Options, known: set<Conflict>, n: int)
    requires Stage3(f, cs, o, known, n) && (f.task.cost.SumOfCosts? ==> f.task.delta == 0)
    ensures Means(f, cs, o, known, n)
  {
    forall m ensures Intended(f, m, o, known) <==>
      Conflicts(f, m, o, known) && Positions(f, m) && Single(f, m, o) && f.Movement(m)
    {
      IntendedParts(f, m, o, known);
      if f.task.cost.SumOfCosts? {
        NoAllowance(f, m, if o.dupli then Elsewhere else NotAtGoal, f.task.agents);
      }
    }
  }

  lemma {:induction false} NoAllowance(f: Frame, m: Model, how: LateTest, k: nat)
    requires f.task.delta == 0
    ensures f.TotalDelay(m, how, k) == 0
  {
    if k > 0 {
      NoAllowance(f, m, how, k - 1);
    }
  }

  /** Four stages of a formula: over variables, with fresh ones, over variables, with fresh ones. */
  lemma StepsBelow(f: Frame, c1: seq<Clause>, c2: seq<Clause>, c3: seq<Clause>, c4: seq<Clause>, lit1: int, lit2: int,
                   lit3: int, n: int)
    requires 0 < n <= lit1 && f.AtomsBelow(n)
    requires AddsFresh(c1, c2, lit1, lit2) && f.Adds(c2, c3) && AddsFresh(c3, c4, lit2, lit3)
    ensures f.Adds([], c1) ==> Below(c4, lit3)
    ensures lit3 == lit1 || Mentions(c4, lit3 - 1)
  {
    MentionsMore(c2, c4, lit2 - 1);
    if f.Adds([], c1) {
      assert Below([], lit1) && f.AtomsBelow(lit1) && f.AtomsBelow(lit2);
    }
  }

  // ----- the rounds of lazy solving -----

  /** All conflicts that could ever be reported for one allowance. */
  ghost function Universe(task: Task): set<Conflict> {
    var n, top := task.inst.graph.Size(), task.timesteps;
    (set a1, a2, v, t | 0 <= a1 < task.agents && 0 <= a2 < task.agents && 0 <= v < n && -1 <= t <= top ::
       VertexC(a1, a2, v, t))
    + (set a1, a2, v, u, t |
         0 <= a1 < task.agents && 0 <= a2 < task.agents && 0 <= v < n && 0 <= u < n && -1 <= t <= top ::
         SwapC(a1, a2, v, u, t))
    + (set a1, a2, v, u, t |
         0 <= a1 < task.agents && 0 <= a2 < task.agents && 0 <= v < n && 0 <= u < n && -1 <= t <= top + 1 ::
         PebbleC(a1, a2, v, u, t))
  }

  lemma ExpressibleInUniverse(task: Task, c: Conflict)
    requires task.Valid() && Expressible(task, c)
    ensures c in Universe(task)
  {
    AgentFacts(task, c.a1);
    AgentFacts(task, c.a2);
    forall a, v, t | task.Exists(At(a, v, t)) ensures -1 <= t <= task.timesteps && task.IsVertex(v) {
      AgentFacts(task, a);
      UsableFacts(task, a, v);
    }
  }

  lemma KnownBounded(task: Task, motion: Motion, known: set<Conflict>)
    requires task.Valid() && AllExpressible(task, motion, known)
    ensures |known| <= |Universe(task)|
  {
    forall c | c in known ensures c in Universe(task) {
      ExpressibleInUniverse(task, c);
    }
    SubsetSize(known, Universe(task));
  }

  lemma {:induction false} SubsetSize<T>(a: set<T>, b: set<T>)
    requires a <= b
    ensures |a| <= |b|
  {
    if a != {} {
      var x :| x in a;
      SubsetSize(a - {x}, b - {x});
    }
  }

  lemma StrictGrowth<T>(a: set<T>, b: set<T>)
    requires a < b
    ensures |a| < |b|
  {
    var x :| x in b && x !in a;
    SubsetSize(a, b - {x});
  }

  /** The solver call for an allowance of d. */
  function TaskFor(inst: Inst, agents: nat, cost: Cost, variables: Variables, d: nat): Task {
    var lb := if agents < |inst.mksLBs| then Max(0, inst.GetMksLB(agents)) else 0;
    Task(inst, agents, cost, d, lb + d, variables, true)
  }

  /** Creating Pass or Shift variables leaves the At numbers alone. */
  lemma TablesKept(f1: Frame, f: Frame, owner: Owner, lo: int, hi: int)
    requires f.task == f1.task && f.at == f1.at && Owns(f1, owner, lo, hi, At(0, 0, 0))
    ensures Owns(f, owner, lo, hi, At(0, 0, 0))
  {
    OwnedSame(owner, OfKind(f1, At(0, 0, 0)), x => f1.Id(x), OfKind(f, At(0, 0, 0)), x => f.Id(x), lo, hi);
  }

  lemma AgreeBelow(n: int, lit: int)
    requires n <= lit
    ensures forall m, m' :: Agree(m, m', lit) ==> Agree(m, m', n)
  {
  }

  predicate Compared(b1: int, b2: int, s: int, a1: int, a2: int, t: int) {
    b1 < a1 || (b1 == a1 && (b2 < a2 || (b2 == a2 && s < t)))
  }

  predicate NoRepeats(list: seq<Conflict>) { forall i, j :: 0 <= i < j < |list| ==> list[i] != list[j] }

  /** The vertex conflicts of the pairs and timesteps before (a1, a2, t), and the other two lists alike. */
  ghost predicate VertexScan(plan: Plan, list: seq<Conflict>, a1: int, a2: int, t: int)
    requires Rectangular(plan, Timesteps(plan))
  {
    NoRepeats(list) && forall c :: c in list <==> FoundVertex(plan, c) && Compared(c.a1, c.a2, c.t, a1, a2, t)
  }

  ghost predicate SwapScan(plan: Plan, list: seq<Conflict>, a1: int, a2: int, t: int)
    requires Rectangular(plan, Timesteps(plan))
  {
    NoRepeats(list) && forall c :: c in list <==> FoundSwap(plan, c) && Compared(c.a1, c.a2, c.t, a1, a2, t)
  }

  ghost predicate PebbleScan(plan: Plan, list: seq<Conflict>, motion: Motion, a1: int, a2: int, t: int)
    requires Rectangular(plan, Timesteps(plan))
  {
    && NoRepeats(list)
    && forall c :: c in list <==>
         motion.Pebble? && FoundPebble(plan, c) && Compared(Min(c.a1, c.a2), Max(c.a1, c.a2), c.t - 1, a1, a2, t)
  }

  lemma VertexScanStep(plan: Plan, list: seq<Conflict>, a1: nat, a2: nat, t: nat)
    requires Rectangular(plan, Timesteps(plan)) && a1 < a2 < |plan|
    requires t < Timesteps(plan) && VertexScan(plan, list, a1, a2, t)
    ensures VertexScan(plan, if plan[a1][t] == plan[a2][t] then list + [VertexC(a1, a2, plan[a1][t], t)] else list,
                       a1, a2, t + 1)
  {
  }

  lemma SwapScanStep(plan: Plan, list: seq<Conflict>, a1: nat, a2: nat, t: nat)
    requires Rectangular(plan, Timesteps(plan)) && a1 < a2 < |plan|
    requires t < Timesteps(plan) && SwapScan(plan, list, a1, a2, t)
    ensures
      var p, q := plan[a1], plan[a2];
      SwapScan(plan, if t < |p| - 1 && p[t] == q[t + 1] && p[t + 1] == q[t] && p[t] != q[t]
                     then list + [SwapC(a1, a2, p[t], p[t + 1], t)] else list, a1, a2, t + 1)
  {
  }

  function PebbleNew(p: Path, q: Path, a1: nat, a2: nat, t: nat): seq<Conflict>
    requires t < |p| == |q|
  {
    (if t < |p| - 1 && p[t] == q[t + 1] && q[t] != q[t + 1] then [PebbleC(a2, a1, q[t], q[t + 1], t + 1)] else [])
    + (if t < |p| - 1 && p[t + 1] == q[t] && p[t] != p[t + 1] then [PebbleC(a1, a2, p[t], p[t + 1], t + 1)] else [])
  }

  lemma PebbleScanStep(plan: Plan, list: seq<Conflict>, motion: Motion, a1: nat, a2: nat, t: nat)
    requires Rectangular(plan, Timesteps(plan)) && a1 < a2 < |plan| && t < Timesteps(plan)
    requires PebbleScan(plan, list, motion, a1, a2, t)
    ensures PebbleScan(plan, list + (if motion.Pebble? then PebbleNew(plan[a1], plan[a2], a1, a2, t) else []),
                       motion, a1, a2, t + 1)
  {
    if motion.Pebble? {
      var p, q := plan[a1], plan[a2];
      var added := PebbleNew(p, q, a1, a2, t);
      forall c ensures c in list + added <==>
        FoundPebble(plan, c) && Compared(Min(c.a1, c.a2), Max(c.a1, c.a2), c.t - 1, a1, a2, t + 1)
      {
        assert c in list + added <==> c in list || c in added;
      }
    }
  }

  /** What the callers guarantee: tables filled in and goals reachable. */
  ghost predicate Runnable(inst: Inst, k: nat) { inst.Valid(k) && inst.Reachable(k) }

  /** On the loaded map the goal of a can be reached from its start. */
  ghost predicate GoalReachable(i: Instance, a: nat)
    requires i.Loaded() && a < |i.agents|
    reads i
  {
    exists n :: Within(i.View().graph, i.View().starts[a], i.View().goals[a], n)
  }

  /** A loaded map whose first k agents have been set, and can reach their goals, is what the solvers need. */
  lemma LoadedRunnable(i: Instance, k: nat)
    requires i.Valid() && k <= i.lastNumberOfAgents <= |i.agents|
    requires forall a :: 0 <= a < k ==> GoalReachable(i, a)
    ensures Runnable(i.View(), k)
  {
    var inst := i.View();
    forall a | 0 <= a < k ensures inst.AgentTables(a) && inst.spLengths[a] >= 0 {
      assert inst.AgentTables(a) && GoalReachable(i, a);
      var n :| Within(inst.graph, inst.starts[a], inst.goals[a], n);
      DistTableExact(inst.graph, inst.starts[a], inst.lengthFromStart[a], inst.goals[a]);
    }
  }

  /** Agents with goals on different cells of the map have goals with different numbers. */
  lemma LoadedApart(i: Instance, k: nat, cost: Cost, variables: Variables, d: nat)
    requires i.Valid() && k <= |i.agents|
    requires forall a1, a2 :: 0 <= a1 < a2 < k ==> i.agents[a1].goal != i.agents[a2].goal
    ensures
      var task := TaskFor(i.View(), k, cost, variables, d);
      task.GoalsApart() && forall a1, a2 :: 0 <= a1 < a2 < k ==> task.Goal(a1) != task.Goal(a2)
  {
    var task := TaskFor(i.View(), k, cost, variables, d);
    forall a1, a2 | 0 <= a1 < a2 < k ensures task.Goal(a1) != task.Goal(a2) {
      assert OnFreeCell(i.grid, i.agents[a1].goal) && OnFreeCell(i.grid, i.agents[a2].goal);
      assert i.grid.coords[task.Goal(a1)] == i.agents[a1].goal && i.grid.coords[task.Goal(a2)] == i.agents[a2].goal;
    }
  }

  /** A plan for a loaded map takes agent a from its start to its goal, one step at a time over free cells. */
  lemma LoadedPlan(i: Instance, task: Task, motion: Motion, plan: Plan, a: nat)
    requires i.Valid() && task.inst == i.View() && Fits(task, motion, plan) && a < task.agents
    ensures a < |plan| && |plan[a]| > 0 && forall t :: 0 <= t < |plan[a]| ==> i.grid.IsVertex(plan[a][t])
    ensures i.grid.coords[plan[a][0]] == i.agents[a].start
    ensures i.grid.coords[plan[a][|plan[a]| - 1]] == i.agents[a].goal
    ensures forall t, u :: 0 <= t < |plan[a]| - 1 && u == t + 1 ==>
      OnMap(i.grid, i.grid.coords[plan[a][t]], i.grid.coords[plan[a][u]])
  {
    hide DistTable, Inst.Valid;
    CellsOfAgent(i.grid, i.agents, a);
    GraphOfValid(i.grid);
    var p := plan[a];
    assert ValidPath(task.inst, a, p);
    forall t, u | 0 <= t < |p| - 1 && u == t + 1 ensures OnMap(i.grid, i.grid.coords[p[t]], i.grid.coords[p[u]]) {
      assert task.inst.graph.Adjacent(p[t], p[t + 1]);
      var dir :| 0 <= dir < 5 && task.inst.graph.Leads(p[t], dir, p[t + 1]);
      NeighborIff(i.grid, p[t], dir, p[t + 1]);
    }
  }

  /** c and d are free cells at most one step apart. */
  predicate OnMap(g: Grid, c: Vertex, d: Vertex)
    requires g.Rectangular()
  {
    OnFreeCell(g, c) && OnFreeCell(g, d) && exists dir :: 0 <= dir < 5 && OneStep(c, dir, d)
  }

  lemma RunnableBound(inst: Inst, k: nat, cost: Cost)
    requires Runnable(inst, k)
    ensures k < |inst.mksLBs| && inst.GetMksLB(k) >= 0
  {
    LowerBoundsCover(inst, k);
  }

  lemma TaskForValid(inst: Inst, k: nat, cost: Cost, variables: Variables, d: nat)
    requires Runnable(inst, k)
    ensures k < |inst.mksLBs| && inst.GetMksLB(k) >= 0 && TaskFor(inst, k, cost, variables, d).Valid()
  {
    RunnableBound(inst, k, cost);
  }

  /** room(d) is at least the number of conflicts that can be excluded by clauses for allowance d. */
  ghost predicate Roomy(inst: Inst, k: nat, cost: Cost, variables: Variables, motion: Motion, room: nat -> nat) {
    forall d: nat, cs :: AllExpressible(TaskFor(inst, k, cost, variables, d), motion, cs) ==> |cs| <= room(d)
  }

  /** There is such a bound: the conflicts over all agents, cells and timesteps. */
  lemma UniverseIsRoomy(inst: Inst, k: nat, cost: Cost, variables: Variables, motion: Motion)
    requires Runnable(inst, k)
    ensures Roomy(inst, k, cost, variables, motion, d => |Universe(TaskFor(inst, k, cost, variables, d))|)
  {
    forall d: nat, cs | AllExpressible(TaskFor(inst, k, cost, variables, d), motion, cs)
      ensures |cs| <= |Universe(TaskFor(inst, k, cost, variables, d))|
    {
      TaskForValid(inst, k, cost, variables, d);
      KnownBounded(TaskFor(inst, k, cost, variables, d), motion, cs);
    }
  }

  /** Solver calls that suffice for the allowances lo, ..., hi - 1. */
  ghost function CallBound(room: nat -> nat, isLazy: bool, lo: nat, hi: nat): nat {
    if hi <= lo then 0 else CallBound(room, isLazy, lo, hi - 1) + 1 + (if isLazy then room(hi - 1) else 0)
  }

  lemma {:induction false} CallBoundMonotone(room: nat -> nat, isLazy: bool, lo: nat, h1: nat, h2: nat)
    requires h1 <= h2
    ensures CallBound(room, isLazy, lo, h1) <= CallBound(room, isLazy, lo, h2)
  {
    if h1 < h2 {
      CallBoundMonotone(room, isLazy, lo, h1, h2 - 1);
    }
  }

  /** On a later try the known conflicts grow by at least the new one. */
  lemma GrowthStep(known0: set<Conflict>, first0: bool, reports: set<Conflict>, known: set<Conflict>)
    requires !first0 ==> known == known0 + reports && exists c :: c in reports && c !in known0
    ensures !first0 ==> |known0| + 1 <= |known|
  {
    if !first0 {
      StrictGrowth(known0, known);
    }
  }

  /** No allowance from lo to hi - 1 has a valid plan. */
  ghost predicate UnsolvableBelow(inst: Inst, k: nat, cost: Cost, variables: Variables, motion: Motion, lo: nat,
                                  hi: nat)
  {
    forall e: nat :: lo <= e < hi ==> !Solvable(TaskFor(inst, k, cost, variables, e), motion)
  }

  /** If no smaller allowance is solvable then no valid plan is cheaper than the lower bound plus the allowance. */
  lemma NoCheaperPlan(inst: Inst, k: nat, cost: Cost, variables: Variables, motion: Motion, d: nat, plan: Plan)
    requires Runnable(inst, k) && ValidPlan(inst, k, motion, plan)
    requires UnsolvableBelow(inst, k, cost, variables, motion, 0, d)
    ensures cost.Makespan? ==> inst.GetMksLB(k) + d <= Timesteps(plan)
    ensures cost.SumOfCosts? ==> inst.GetSocLB(k) + d <= SumOfCostsOf(plan, inst.goals)
  {
    MakespanLowerBound(inst, k, k, motion, plan);
    SumOfCostsLowerBound(inst, k, k, motion, plan);
    LowerBoundsCover(inst, k);
    var e := match cost
             case Makespan => Timesteps(plan) - inst.GetMksLB(k)
             case SumOfCosts => SumOfCostsOf(plan, inst.goals) - inst.GetSocLB(k);
    if e < d {
      assert Fits(TaskFor(inst, k, cost, variables, e), motion, plan);
    }
  }

  lemma AllGoalsReal(task: Task)
    requires task.Valid()
    ensures task.agents <= |task.inst.goals| && forall a :: 0 <= a < task.agents ==> task.inst.goals[a] != -1
  {
    forall a | 0 <= a < task.agents ensures task.inst.goals[a] != -1 {
      AgentFacts(task, a);
    }
  }

  /** Every step of the row takes the first possible direction. */
  ghost predicate FirstWays(f: Frame, m: Model, a: int, row: seq<int>) {
    forall t, u :: 0 <= t < |row| - 1 && u == t + 1 && row[t] != -1 && row[u] != -1 ==>
      FirstWay(f, m, a, row[t], row[u], t)
  }

  class SatSolver {
    const s: Solver
    const o: Options

    // reported conflicts
    var conflictsPresent: bool
    var vertexConflicts: seq<Conflict>
    var swapConflicts: seq<Conflict>
    var pebbleConflicts: seq<Conflict>

    // solving loop
    var firstTry: bool
    var nrVars: int
    var solverCalls: nat
    var solvedDelta: nat

    // numbers of the variables of the current formula, and the conflicts its clauses exclude
    ghost var atomsStart: int
    ghost var atomsEnd: int
    ghost var known: set<Conflict>

    constructor (variables: Variables, cost: Cost, motion: Motion, isLazy: bool, dupli: bool, inst: Inst)
      ensures fresh(s) && s.variables == variables && s.cost == cost && s.withAt && s.inst == inst
      ensures o == Options(motion, isLazy, dupli)
    {
      s := new Solver(variables, cost, true, inst);
      o := Options(motion, isLazy, dupli);
      vertexConflicts, swapConflicts, pebbleConflicts := [], [], [];
      conflictsPresent, firstTry, nrVars, solverCalls, solvedDelta := false, true, 1, 0, 0;
    }

    /** The conflicts with variables whose clauses the next formula will get. */
    ghost function Reports(task: Task): set<Conflict>
      reads `vertexConflicts, `swapConflicts, `pebbleConflicts
    {
      (set c | c in vertexConflicts && Expressible(task, c)) + (set c | o.motion.Parallel? && c in swapConflicts)
      + (set c | o.motion.Pebble? && c in pebbleConflicts)
    }

    /** Some listed conflict with variables is not yet excluded. */
    ghost predicate NewReport(task: Task)
      reads `vertexConflicts, `swapConflicts, `pebbleConflicts, `known
    {
      exists c :: c in Reports(task) && c !in known
    }

    ghost predicate ReportsOk(task: Task)
      reads `vertexConflicts, `swapConflicts, `pebbleConflicts
    {
      && (forall c :: c in vertexConflicts ==> c.VertexC? && (Expressible(task, c) || AtSharedGoal(task, c)))
      && (o.motion.Parallel? ==> forall c :: c in swapConflicts ==> c.SwapC? && Expressible(task, c))
      && (o.motion.Pebble? ==> forall c :: c in pebbleConflicts ==> c.PebbleC? && Expressible(task, c))
    }

    // ----- plan extraction -----

    method GetNextVertex(m: Model, a: int, v: int, t: int, ghost f: Frame) returns (u: int)
      requires f == s.F() && f.Ready() && s.withAt && f.task.IsAgent(a) && (v == -1 || f.task.IsVertex(v))
      ensures NextVertex(f, m, a, v, u, t - 1)
      ensures u == -1 || f.task.IsVertex(u)
      ensures v != -1 && u != -1 ==> FirstWay(f, m, a, v, u, t - 1)
    {
      if v == -1 {
        return -1;
      }
      var leaveT := t - 1;
      for dir := 0 to 5
        invariant NoWayBefore(f, m, a, v, dir, leaveT)
      {
        if !s.inst.graph.HasNeighbor(v, dir) {
          continue;
        }
        u := s.inst.graph.GetNeighbor(v, dir);
        var can := CanGo(m, a, v, dir, u, t, f);
        if can {
          assert GoesTo(f, m, a, v, u, leaveT);
          return;
        }
      }
      u := -1;
    }

    /** The test GetNextVertex makes, by kind of variables. */
    method CanGo(m: Model, a: int, v: int, dir: int, u: int, t: int, ghost f: Frame) returns (can: bool)
      requires f == s.F() && f.Ready() && s.withAt && f.task.IsAgent(a) && f.task.Leads(v, dir, u)
      ensures can <==> Goes(f, m, a, v, dir, u, t - 1)
    {
      assert f.AtEntryOk(a, u, s.at[a][u]);
      match s.variables
      case UseAt =>
        if s.at[a][u].firstVariable == 0 || s.at[a][u].firstTimestep > t || s.at[a][u].lastTimestep < t {
          return false;
        }
        can := s.AtVar(a, u, t) in m;
      case UsePass =>
        assert f.PassEntryOk(a, v, dir, s.pass[a][v][dir]);
        if s.pass[a][v][dir].firstVariable == 0 ||
          s.pass[a][v][dir].firstTimestep > t - 1 || s.pass[a][v][dir].lastTimestep < t - 1 {
          return false;
        }
        can := s.PassVar(a, v, dir, t - 1) in m;
      case UseShift =>
        if s.at[a][u].firstVariable == 0 || s.at[a][u].firstTimestep > t || s.at[a][u].lastTimestep < t {
          return false;
        }
        var found, x := s.FindShift(v, dir, t - 1, f);
        can := found && x in m;
    }

    /** The walk of every agent through the model. */
    method ExtractPlan(m: Model, ghost f: Frame)
      requires f == s.F() && f.Ready() && s.withAt
      modifies s`plan
      ensures |s.plan| == s.agents && forall a :: 0 <= a < |s.plan| ==> Extracted(f, m, a, s.plan[a])
      ensures forall a :: 0 <= a < |s.plan| ==> FirstWays(f, m, a, s.plan[a])
    {
      hide Extracted, FirstWays;
      s.plan := [];
      for a := 0 to s.agents
        invariant |s.plan| == a
        invariant forall b :: 0 <= b < a ==> Extracted(f, m, b, s.plan[b]) && FirstWays(f, m, b, s.plan[b])
      {
        var row := ExtractRow(m, a, f);
        s.plan := s.plan + [row];
      }
    }

    method ExtractRow(m: Model, a: int, ghost f: Frame) returns (row: seq<int>)
      requires f == s.F() && f.Ready() && s.withAt && f.task.IsAgent(a)
      ensures Extracted(f, m, a, row) && FirstWays(f, m, a, row)
    {
      hide FirstWay, NextVertex, Frame.AtTable, Frame.PassTable, Frame.ShiftTable;
      AgentFacts(f.task, a);
      var v := s.inst.starts[a];
      row := [v];
      for t := 1 to s.maxTimestep
        invariant |row| == t && row[0] == f.task.Start(a) && row[t - 1] == v
        invariant v == -1 || f.task.IsVertex(v)
        invariant forall i :: 0 <= i < t - 1 ==> NextVertex(f, m, a, row[i], row[i + 1], i)
        invariant FirstWays(f, m, a, row)
      {
        v := GetNextVertex(m, a, v, t, f);
        row := row + [v];
      }
    }

    // ----- conflict detection -----

    /** Exactly the conflicts of the pairs and timesteps before (a1, a2, t) are listed. */
    ghost predicate Scanning(a1: int, a2: int, t: int)
      requires Rectangular(s.plan, Timesteps(s.plan))
      reads this, s`plan
    {
      && VertexScan(s.plan, vertexConflicts, a1, a2, t)
      && SwapScan(s.plan, swapConflicts, a1, a2, t)
      && PebbleScan(s.plan, pebbleConflicts, o.motion, a1, a2, t)
    }

    ghost predicate NothingListed()
      reads this
    {
      |vertexConflicts| == 0 && |swapConflicts| == 0 && |pebbleConflicts| == 0
    }

    /** The body of the innermost loop of GenerateConflicts. */
    method CompareAt(a1: nat, a2: nat, t: nat)
      requires Rectangular(s.plan, Timesteps(s.plan)) && a1 < a2 < |s.plan| && t < Timesteps(s.plan)
      requires Scanning(a1, a2, t) && (conflictsPresent <==> !NothingListed())
      modifies `vertexConflicts, `swapConflicts, `pebbleConflicts, `conflictsPresent
      ensures Scanning(a1, a2, t + 1) && (conflictsPresent <==> !NothingListed())
    {
      hide VertexScan, SwapScan, PebbleScan, FoundVertex, FoundSwap, FoundPebble, NoRepeats;
      VertexScanStep(s.plan, vertexConflicts, a1, a2, t);
      SwapScanStep(s.plan, swapConflicts, a1, a2, t);
      PebbleScanStep(s.plan, pebbleConflicts, o.motion, a1, a2, t);
      var p, q := s.plan[a1], s.plan[a2];
      if p[t] == q[t] {
        conflictsPresent := true;
        vertexConflicts := vertexConflicts + [VertexC(a1, a2, p[t], t)];
      }
      if t < |p| - 1 && p[t] == q[t + 1] && p[t + 1] == q[t] && p[t] != q[t] {
        conflictsPresent := true;
        swapConflicts := swapConflicts + [SwapC(a1, a2, p[t], p[t + 1], t)];
      }
      ghost var before := pebbleConflicts;
      if o.motion.Pebble? && t < |p| - 1 && p[t] == q[t + 1] && q[t] != q[t + 1] {
        conflictsPresent := true;
        pebbleConflicts := pebbleConflicts + [PebbleC(a2, a1, q[t], q[t + 1], t + 1)];
      }
      if o.motion.Pebble? && t < |p| - 1 && p[t + 1] == q[t] && p[t] != p[t + 1] {
        conflictsPresent := true;
        pebbleConflicts := pebbleConflicts + [PebbleC(a1, a2, p[t], p[t + 1], t + 1)];
      }
      assert pebbleConflicts == before + if o.motion.Pebble? then PebbleNew(p, q, a1, a2, t) else [];
    }

    method GenerateConflicts()
      requires Rectangular(s.plan, Timesteps(s.plan)) && !conflictsPresent
      modifies `vertexConflicts, `swapConflicts, `pebbleConflicts, `conflictsPresent
      ensures forall c :: c in vertexConflicts <==> FoundVertex(s.plan, c)
      ensures forall c :: c in swapConflicts <==> FoundSwap(s.plan, c)
      ensures forall c :: c in pebbleConflicts <==> o.motion.Pebble? && FoundPebble(s.plan, c)
      ensures Listed()
      ensures NoRepeats(vertexConflicts) && NoRepeats(swapConflicts) && NoRepeats(pebbleConflicts)
      ensures conflictsPresent <==> !ConflictFree(s.plan, o.motion)
    {
      vertexConflicts, swapConflicts, pebbleConflicts := [], [], [];
      for a1 := 0 to |s.plan|
        invariant Scanning(a1, a1 + 1, 0) && (conflictsPresent <==> !NothingListed())
      {
        for a2 := a1 + 1 to |s.plan|
          invariant Scanning(a1, a2, 0) && (conflictsPresent <==> !NothingListed())
        {
          for t := 0 to |s.plan[a1]|
            invariant Scanning(a1, a2, t) && (conflictsPresent <==> !NothingListed())
          {
            CompareAt(a1, a2, t);
          }
          ScanNextPair(a1, a2);
        }
        ScanNextAgent(a1);
      }
      DetectionAgrees(s.plan, o.motion);
      ListedIffFound();
    }

    lemma ScanNextPair(a1: nat, a2: nat)
      requires Rectangular(s.plan, Timesteps(s.plan)) && a1 < a2 < |s.plan| && Scanning(a1, a2, Timesteps(s.plan))
      ensures Scanning(a1, a2 + 1, 0)
    {
    }

    lemma ScanNextAgent(a1: nat)
      requires Rectangular(s.plan, Timesteps(s.plan)) && a1 < |s.plan| && Scanning(a1, |s.plan|, 0)
      ensures Scanning(a1 + 1, a1 + 2, 0)
    {
    }

    lemma ListedIffFound()
      requires Rectangular(s.plan, Timesteps(s.plan)) && Scanning(|s.plan|, |s.plan| + 1, 0)
      ensures forall c :: c in vertexConflicts <==> FoundVertex(s.plan, c)
      ensures forall c :: c in swapConflicts <==> FoundSwap(s.plan, c)
      ensures forall c :: c in pebbleConflicts <==> o.motion.Pebble? && FoundPebble(s.plan, c)
      ensures NothingListed() <==> forall c :: !Found(s.plan, o.motion, c)
    {
      if |vertexConflicts| > 0 {
        assert vertexConflicts[0] in vertexConflicts;
        assert Found(s.plan, o.motion, vertexConflicts[0]);
      }
      if |swapConflicts| > 0 {
        assert swapConflicts[0] in swapConflicts;
        assert Found(s.plan, o.motion, swapConflicts[0]);
      }
      if |pebbleConflicts| > 0 {
        assert pebbleConflicts[0] in pebbleConflicts;
        assert Found(s.plan, o.motion, pebbleConflicts[0]);
      }
    }

    /** The lists hold the conflicts of the plan, and the flag says whether there are any. */
    ghost predicate Listed()
      reads `vertexConflicts, `swapConflicts, `pebbleConflicts, `conflictsPresent, s`plan
    {
      && Rectangular(s.plan, Timesteps(s.plan))
      && (forall c :: c in vertexConflicts <==> FoundVertex(s.plan, c))
      && (forall c :: c in swapConflicts <==> FoundSwap(s.plan, c))
      && (forall c :: c in pebbleConflicts <==> o.motion.Pebble? && FoundPebble(s.plan, c))
      && (conflictsPresent <==> !ConflictFree(s.plan, o.motion))
    }

    /** What VerifyPlan would print: nothing exactly when the plan is free of conflicts. */
    method VerifyPlan() returns (clean: bool)
      requires Rectangular(s.plan, Timesteps(s.plan))
      ensures clean <==> ConflictFree(s.plan, o.motion)
    {
      clean := true;
      for a1 := 0 to |s.plan|
        invariant clean <==>
          forall b1, b2 :: 0 <= b1 < a1 && b1 < b2 < |s.plan| ==> Apart(s.plan[b1], s.plan[b2], o.motion)
      {
        ghost var clean1 := clean;
        for a2 := a1 + 1 to |s.plan|
          invariant clean <==> clean1 && forall b2 :: a1 < b2 < a2 ==> Apart(s.plan[a1], s.plan[b2], o.motion)
        {
          ghost var clean2 := clean;
          var p, q := s.plan[a1], s.plan[a2];
          for t := 0 to |p|
            invariant clean <==> clean2 && forall i :: 0 <= i < t ==> !Collide(p, q, i, o.motion)
          {
            ghost var was := clean;
            if p[t] == q[t] {
              clean := false;
            }
            if t < |p| - 1 && p[t] == q[t + 1] && p[t + 1] == q[t] {
              clean := false;
            }
            if o.motion.Pebble? && t < |p| - 1 && p[t] == q[t + 1] {
              clean := false;
            }
            if o.motion.Pebble? && t < |p| - 1 && p[t + 1] == q[t] {
              clean := false;
            }
            assert clean <==> was && !Collide(p, q, t, o.motion);
          }
        }
      }
    }

    // ----- the formula -----

    /** The formula is in place; known conflicts are excluded by clauses. */
    ghost predicate FormulaOk(task: Task)
      reads `atomsStart, `atomsEnd, `known, s`clauses
      reads s`inst, s`agents, s`delta, s`maxTimestep, s`at, s`pass, s`shift, s`shiftTimesStart, s`shiftTimesEnd
    {
      var f := s.F();
      && f.task == task && f.Ready() && task.withAt
      && f.AtomsBelow(atomsEnd) && f.Numbered(atomsStart, atomsEnd)
      && Means(f, s.clauses, o, known, atomsEnd)
      && AllExpressible(task, o.motion, known)
      && (!o.isLazy ==> known == {})
    }

    method CreateVariables(timesteps: nat, lit: int) returns (lit': int)
      requires lit > 0 && s.withAt && Task(s.inst, s.agents, s.cost, s.delta, timesteps, s.variables, true).Valid()
      modifies s`at, s`pass, s`shift, s`shiftTimesStart, s`shiftTimesEnd, s`maxTimestep
      ensures lit' >= lit && s.F().task == Task(s.inst, s.agents, s.cost, s.delta, timesteps, s.variables, true)
      ensures s.F().Ready() && s.F().Numbered(lit, lit')
    {
      ghost var atOwner, passOwner, shiftOwner: Owner := map[], map[], map[];
      lit', atOwner := s.CreateAt(lit, timesteps);
      ghost var n1 := lit';
      ghost var f1 := s.F();
      if s.variables.UsePass? {
        lit', passOwner := s.CreatePass(lit', timesteps);
      }
      ghost var n2 := lit';
      if s.variables.UseShift? {
        lit', shiftOwner := s.CreateShift(lit', timesteps);
      }
      ghost var f := s.F();
      TablesKept(f1, f, atOwner, lit, n1);
      if !s.variables.UsePass? {
        OwnsNothing(f, n1, Pass(0, 0, 0, 0));
      }
      if !s.variables.UseShift? {
        OwnsNothing(f, n2, Shift(0, 0, 0));
      }
      BlocksNumber(f, atOwner, passOwner, shiftOwner, lit, n1, n2, lit');
    }

    /** Eager conflict clauses, by motion and kind of variables. */
    method AddEager(ghost f: Frame)
      requires f == s.F() && f.Ready() && s.withAt
      modifies s`clauses
      ensures forall m :: Sat(m, s.clauses) <==> Sat(m, old(s.clauses)) && f.Eager(m, o.motion)
      ensures f.Adds(old(s.clauses), s.clauses)
    {
      s.CreateConf_Vertex(f);
      match (o.motion, s.variables)
      case (Parallel, UseAt) => s.CreateConf_Swapping_At(f);
      case (Parallel, UsePass) => s.CreateConf_Swapping_Pass(f);
      case (Parallel, UseShift) => s.CreateConf_Swapping_Shift(f);
      case (Pebble, UseAt) => s.CreateConf_Pebble_At(f);
      case (Pebble, UsePass) => s.CreateConf_Pebble_Pass(f);
      case (Pebble, UseShift) => s.CreateConf_Pebble_Shift(f);
    }

    /** Conflict clauses for the conflicts reported last. */
    method AddReports(ghost f: Frame)
      requires f == s.F() && f.Ready() && s.withAt && ReportsOk(f.task)
      modifies s`clauses
      ensures forall m :: Sat(m, s.clauses) ==> Sat(m, old(s.clauses)) && f.RespectsAll(m, Reports(f.task))
      ensures f.task.GoalsApart() ==>
        forall m :: Sat(m, old(s.clauses)) && f.RespectsAll(m, Reports(f.task)) ==> Sat(m, s.clauses)
      ensures old(s.clauses) <= s.clauses && (f.task.GoalsApart() ==> f.Adds(old(s.clauses), s.clauses))
    {
      if f.task.GoalsApart() {
        forall c | c in vertexConflicts ensures Expressible(f.task, c) {
          ApartExpressible(f.task, c);
        }
      }
      s.CreateConf_Vertex_OnDemand(vertexConflicts, f);
      match o.motion {
        case Parallel => s.CreateConf_Swapping_OnDemand(swapConflicts, f);
        case Pebble => s.CreateConf_Pebble_OnDemand(pebbleConflicts, f);
      }
      assert forall m :: Sat(m, s.clauses) <==> Sat(m, old(s.clauses)) && Demanded(f, m);
      hide Sat, Demanded, Frame.RespectsAll;
      forall m | Sat(m, s.clauses) ensures f.RespectsAll(m, Reports(f.task)) {
        DemandedRespects(f, m);
      }
      forall m | f.task.GoalsApart() && Sat(m, old(s.clauses)) && f.RespectsAll(m, Reports(f.task))
        ensures Sat(m, s.clauses)
      {
        DemandedRespects(f, m);
      }
    }

    /** What the clauses for the listed conflicts say. */
    ghost predicate Demanded(f: Frame, m: Model)
      reads `vertexConflicts, `swapConflicts, `pebbleConflicts
    {
      && (forall c :: c in vertexConflicts ==> f.Demands(m, c))
      && (o.motion.Parallel? ==> forall c :: c in swapConflicts ==> f.Respects(m, c))
      && (o.motion.Pebble? ==> forall c :: c in pebbleConflicts ==> f.Respects(m, c))
    }

    lemma DemandedRespects(f: Frame, m: Model)
      requires ReportsOk(f.task)
      ensures Demanded(f, m) ==> f.RespectsAll(m, Reports(f.task))
      ensures f.task.GoalsApart() && f.RespectsAll(m, Reports(f.task)) ==> Demanded(f, m)
    {
      hide Frame.Demands, Frame.Respects, Expressible;
      forall c | c in vertexConflicts
        ensures f.Demands(m, c) ==> f.Respects(m, c)
        ensures f.task.GoalsApart() ==> Expressible(f.task, c) && (f.Demands(m, c) <==> f.Respects(m, c))
      {
        DemandsRespects(f, m, c);
        assert AtSharedGoal(f.task, c) ==> !f.task.GoalsApart();
      }
    }

    /** The movement clauses, by kind of variables. */
    method AddMovement(ghost f: Frame)
      requires f == s.F() && f.Ready() && s.withAt
      modifies s`clauses
      ensures forall m :: Sat(m, s.clauses) <==> Sat(m, old(s.clauses)) && f.Movement(m)
      ensures f.Adds(old(s.clauses), s.clauses)
    {
      match s.variables
      case UseAt => s.CreateMove_NextVertex_At(f);
      case UsePass =>
        s.CreateMove_EnterVertex_Pass(f);
        s.CreateMove_NextEdge_Pass(f);
      case UseShift =>
        s.CreateMove_NextVertex_At(f);
        s.CreateMove_ExactlyOne_Shift(f);
        s.CreateMove_NextVertex_Shift(f);
    }

    method AddPositions(ghost f: Frame)
      requires f == s.F() && f.Ready() && s.withAt
      modifies s`clauses
      ensures forall m :: Sat(m, s.clauses) <==> Sat(m, old(s.clauses)) && Positions(f, m)
      ensures f.Adds(old(s.clauses), s.clauses)
    {
      s.CreatePossition_Start(f);
      s.CreatePossition_Goal(f);
      if s.cost.SumOfCosts? {
        s.CreatePossition_NoneAtGoal(f);
      }
    }

    method AddConflicts(ghost f: Frame)
      requires f == s.F() && f.Ready() && s.withAt && ReportsOk(f.task)
      modifies s`clauses
      ensures forall m :: Sat(m, s.clauses) ==>
        Sat(m, old(s.clauses)) && Conflicts(f, m, o, if o.isLazy then Reports(f.task) else {})
      ensures Exact(f, o) ==> forall m ::
        Sat(m, old(s.clauses)) && Conflicts(f, m, o, if o.isLazy then Reports(f.task) else {}) ==> Sat(m, s.clauses)
      ensures old(s.clauses) <= s.clauses && (Exact(f, o) ==> f.Adds(old(s.clauses), s.clauses))
    {
      if o.isLazy {
        AddReports(f);
      } else {
        AddEager(f);
      }
    }

    /** The clauses of a fresh formula after the variables. */
    method FillFormula(lit: int, ghost n: int, ghost f: Frame) returns (lit': int)
      requires f == s.F() && f.Ready() && s.withAt && ReportsOk(f.task) && s.clauses == []
      requires 0 < n <= lit && f.AtomsBelow(n)
      modifies s`clauses
      ensures lit' >= lit && Means(f, s.clauses, o, if o.isLazy then Reports(f.task) else {}, n)
      ensures Exact(f, o) ==> Below(s.clauses, lit')
      ensures lit' == lit || Mentions(s.clauses, lit' - 1)
    {
      ghost var k := if o.isLazy then Reports(f.task) else {};
      AddConflicts(f);
      AddPositions(f);
      ghost var c1 := s.clauses;
      assert Stage1(f, c1, o, k);
      if Exact(f, o) {
        Stage1Indep(f, c1, o, k, n);
        IndepMonotone(c1, n, lit);
      }
      lit' := AddSingle(lit, n, k, f);
      ghost var c2 := s.clauses;
      AddMovement(f);
      ghost var c3, lit2 := s.clauses, lit';
      Stage3From(f, c2, c3, o, k, n, lit');
      lit' := AddLimit(lit', n, k, f);
      StepsBelow(f, c1, c2, c3, s.clauses, lit, lit2, lit', n);
    }

    method AddSingle(lit: int, ghost n: int, ghost k: set<Conflict>, ghost f: Frame) returns (lit': int)
      requires f == s.F() && f.Ready() && s.withAt && 0 < n <= lit && f.AtomsBelow(n)
      requires Stage1(f, s.clauses, o, k) && (Exact(f, o) ==> Indep(s.clauses, lit))
      modifies s`clauses
      ensures lit' >= lit && Stage2(f, s.clauses, o, k, n) && (Exact(f, o) ==> Indep(s.clauses, lit'))
      ensures AddsFresh(old(s.clauses), s.clauses, lit, lit')
    {
      lit' := lit;
      AddsNoFresh(s.clauses, lit);
      if o.dupli {
        Stage2Plain(f, s.clauses, o, k, n);
      } else {
        assert f.AtomsBelow(lit);
        lit' := s.CreateMove_NoDuplicates(lit, f);
        AgreeBelow(n, lit);
      }
    }

    method AddLimit(lit: int, ghost n: int, ghost k: set<Conflict>, ghost f: Frame) returns (lit': int)
      requires f == s.F() && f.Ready() && s.withAt && 0 < n <= lit && f.AtomsBelow(n)
      requires Stage3(f, s.clauses, o, k, n) && (Exact(f, o) ==> Indep(s.clauses, lit))
      modifies s`clauses
      ensures lit' >= lit && Means(f, s.clauses, o, k, n)
      ensures AddsFresh(old(s.clauses), s.clauses, lit, lit')
    {
      lit' := lit;
      AddsNoFresh(s.clauses, lit);
      ghost var before := s.clauses;
      if s.cost.SumOfCosts? && s.delta > 0 {
        assert f.AtomsBelow(lit);
        if o.dupli {
          lit' := s.CreateConst_LimitSoc_AllAt(lit, f);
          Stage4From(f, before, s.clauses, o, k, n, lit, Elsewhere);
        } else {
          lit' := s.CreateConst_LimitSoc(lit, f);
          Stage4From(f, before, s.clauses, o, k, n, lit, NotAtGoal);
        }
      } else {
        Stage4Plain(f, before, o, k, n);
      }
    }

    /**
     * The whole formula on the first try for an allowance, with clauses for conflicts still listed from the
     * allowance before; on later tries only the clauses for newly reported conflicts.
     */
    method CreateFormula(ghost task: Task) returns (lit: int)
      requires s.withAt && s.agents < |s.inst.mksLBs| && s.inst.GetMksLB(s.agents) >= 0
      requires task == TaskFor(s.inst, s.agents, s.cost, s.variables, s.delta) && task.Valid()
      requires ReportsOk(task) && nrVars >= 1
      requires firstTry ==> s.clauses == []
      requires !firstTry ==> o.isLazy && FormulaOk(task) && NumbersBelow(nrVars)
      modifies `atomsStart, `atomsEnd, `known
      modifies s`at, s`pass, s`shift, s`shiftTimesStart, s`shiftTimesEnd, s`maxTimestep, s`clauses
      ensures lit >= 1 && FormulaOk(task) && NumbersBelow(lit)
      ensures s.F().AtomsBelow(lit) && (!o.isLazy || task.GoalsApart() ==> Below(s.clauses, lit))
      ensures old(firstTry) ==> atomsStart == nrVars <= lit && (lit == nrVars || Used(lit - 1))
      ensures !old(firstTry) ==> lit == nrVars
      ensures forall m :: Sat(m, s.clauses) ==> s.F().StartsHold(m) && s.F().GoalsHold(m)
      ensures s.cost.SumOfCosts? ==> forall m :: Sat(m, s.clauses) ==> s.F().NoneAtGoal(m)
      ensures !o.dupli ==>
        forall m, a, t, v, u | Sat(m, s.clauses) && 0 <= a < s.agents && 0 <= t < task.timesteps ::
          s.F().Holds(m, At(a, v, t)) && s.F().Holds(m, At(a, u, t)) ==> v == u
      ensures s.variables.UseAt? || s.variables.UseShift? ==>
        forall m :: Sat(m, s.clauses) ==> s.F().NextVertexAt(m)
      ensures s.variables.UsePass? ==>
        forall m :: Sat(m, s.clauses) ==> s.F().EnterVertexPass(m) && s.F().NextEdgePass(m)
      ensures s.variables.UseShift? ==>
        forall m :: Sat(m, s.clauses) ==> s.F().OneShift(m) && s.F().NextVertexShift(m)
      ensures !o.isLazy ==> forall m :: Sat(m, s.clauses) ==> s.F().VertexConf(m) && SwapsOrFollows(s.F(), m, o.motion)
      ensures s.cost.SumOfCosts? ==>
        forall m :: Sat(m, s.clauses) ==> s.F().LimitSoc(m, if o.dupli then Elsewhere else NotAtGoal)
      ensures known == (if old(firstTry) then {} else old(known)) + (if o.isLazy then Reports(task) else {})
    {
      var timesteps := s.inst.GetMksLB(s.agents) + s.delta;
      lit := nrVars;
      ReportsExpressible(task);
      if firstTry {
        lit := FirstFormula(timesteps, lit, task);
      } else {
        MoreClauses(task);
      }
      FamiliesHold(task);
    }

    /** Number x belongs to a variable or occurs in a clause. */
    ghost predicate Used(x: int)
      reads s`clauses, s`inst, s`agents, s`delta, s`maxTimestep
      reads s`at, s`pass, s`shift, s`shiftTimesStart, s`shiftTimesEnd
    {
      s.F().IsNumber(x) || Mentions(s.clauses, x)
    }

    /** All variables and clauses are numbered below n; with shared goals, only the variables. */
    ghost predicate NumbersBelow(n: int)
      reads s`clauses, s`inst, s`agents, s`delta, s`maxTimestep
      reads s`at, s`pass, s`shift, s`shiftTimesStart, s`shiftTimesEnd
    {
      s.F().AtomsBelow(n) && (Exact(s.F(), o) ==> Below(s.clauses, n))
    }

    method FirstFormula(timesteps: nat, lit: int, ghost task: Task) returns (lit': int)
      requires s.withAt && task == Task(s.inst, s.agents, s.cost, s.delta, timesteps, s.variables, true) && task.Valid()
      requires ReportsOk(task) && AllExpressible(task, o.motion, Reports(task)) && lit >= 1 && s.clauses == []
      modifies `atomsStart, `atomsEnd, `known
      modifies s`at, s`pass, s`shift, s`shiftTimesStart, s`shiftTimesEnd, s`maxTimestep, s`clauses
      ensures lit' >= 1 && FormulaOk(task) && known == if o.isLazy then Reports(task) else {}
      ensures s.F().AtomsBelow(lit') && (Exact(s.F(), o) ==> Below(s.clauses, lit'))
      ensures atomsStart == lit <= lit' && (lit' == lit || Used(lit' - 1))
    {
      lit' := CreateVariables(timesteps, lit);
      ghost var f := s.F();
      atomsStart, atomsEnd := lit, lit';
      lit' := FillFormula(lit', atomsEnd, f);
      known := if o.isLazy then Reports(task) else {};
      assert s.F() == f;
      assert atomsEnd > lit ==> f.IsNumber(atomsEnd - 1);
    }

    method MoreClauses(ghost task: Task)
      requires task.Valid() && o.isLazy && FormulaOk(task) && ReportsOk(task)
      requires AllExpressible(task, o.motion, Reports(task))
      modifies `known, s`clauses
      ensures FormulaOk(task) && known == old(known) + Reports(task)
      ensures s.F() == old(s.F()) && old(s.clauses) <= s.clauses && atomsStart == old(atomsStart)
      ensures task.GoalsApart() ==> s.F().Adds(old(s.clauses), s.clauses)
    {
      ghost var f, before := s.F(), s.clauses;
      AddReports(f);
      MeansMore(f, before, s.clauses, o, known, Reports(task), atomsEnd);
      known := known + Reports(task);
      assert s.F() == f;
    }

    /** Every family of clauses is there. */
    lemma FamiliesHold(task: Task)
      requires FormulaOk(task)
      ensures forall m :: Sat(m, s.clauses) ==> s.F().StartsHold(m) && s.F().GoalsHold(m)
      ensures s.cost.SumOfCosts? ==> forall m :: Sat(m, s.clauses) ==> s.F().NoneAtGoal(m)
      ensures !o.dupli ==>
        forall m, a, t, v, u | Sat(m, s.clauses) && 0 <= a < s.agents && 0 <= t < task.timesteps ::
          s.F().Holds(m, At(a, v, t)) && s.F().Holds(m, At(a, u, t)) ==> v == u
      ensures s.variables.UseAt? || s.variables.UseShift? ==>
        forall m :: Sat(m, s.clauses) ==> s.F().NextVertexAt(m)
      ensures s.variables.UsePass? ==>
        forall m :: Sat(m, s.clauses) ==> s.F().EnterVertexPass(m) && s.F().NextEdgePass(m)
      ensures s.variables.UseShift? ==>
        forall m :: Sat(m, s.clauses) ==> s.F().OneShift(m) && s.F().NextVertexShift(m)
      ensures !o.isLazy ==> forall m :: Sat(m, s.clauses) ==> s.F().VertexConf(m) && SwapsOrFollows(s.F(), m, o.motion)
      ensures s.cost.SumOfCosts? ==>
        forall m :: Sat(m, s.clauses) ==> s.F().LimitSoc(m, if o.dupli then Elsewhere else NotAtGoal)
    {
      forall m | Sat(m, s.clauses) ensures Intended(s.F(), m, o, known) {
      }
      hide Sat, Frame.Ready, Frame.LimitSoc, Frame.NoneAtGoal, Frame.NextVertexAt, Frame.EnterVertexPass;
      hide Frame.NextEdgePass, Frame.OneShift, Frame.NextVertexShift, Frame.VertexConf, Frame.StartsHold;
      hide Frame.GoalsHold;
      if !o.dupli {
        forall m, a, t, v, u | Sat(m, s.clauses) && 0 <= a < s.agents && 0 <= t < task.timesteps &&
            s.F().Holds(m, At(a, v, t)) && s.F().Holds(m, At(a, u, t))
          ensures v == u
        {
          assert s.F().InOnePlace(m, a, t);
        }
      }
    }

    lemma ReportsExpressible(task: Task)
      requires ReportsOk(task)
      ensures AllExpressible(task, o.motion, Reports(task))
    {
    }

    /** Solve the formula; 0 means a model was found, 1 that there is none. */
    method InvokeSolver(keep: bool, ghost task: Task) returns (res: int)
      requires s.withAt && task.Valid() && FormulaOk(task) && ReportsOk(task) && !conflictsPresent
      modifies s`plan, `conflictsPresent, `vertexConflicts, `swapConflicts, `pebbleConflicts, `solverCalls
      ensures solverCalls == old(solverCalls) + 1
      ensures FormulaOk(task) && ReportsOk(task)
      ensures res == 0 || res == 1
      ensures res == 1 ==> !Solvable(task, o.motion) && !conflictsPresent
      ensures res == 0 && !conflictsPresent ==> Solvable(task, o.motion)
      ensures res == 0 && !conflictsPresent && (keep || o.isLazy) ==> Fits(task, o.motion, s.plan)
      ensures conflictsPresent ==> o.isLazy && NewReport(task)
      ensures res == 1 ==> s.plan == []
      ensures res == 0 && !keep && !o.isLazy ==> s.plan == []
      ensures res == 0 && (keep || o.isLazy) ==> ShownLength(task, s.plan)
      ensures res == 0 && o.isLazy && |s.plan| > 0 ==> Listed()
      ensures conflictsPresent ==> Listed()
    {
      hide FormulaOk, ReportsOk, NewReport, Fits, Intended, ShownLength;
      s.plan := [];
      var answer := CallSolver(s.clauses);
      solverCalls := solverCalls + 1;
      if answer.None? {
        NoModelNoPlan(task);
        return 1;
      }
      ModelIntended(task, answer.value);
      if keep || o.isLazy {
        ShowPlan(answer.value, task, s.F());
      } else {
        EagerSolvable(task, answer.value);
      }
      return 0;
    }

    /** Read the plan off the model, and list its conflicts when solving lazily. */
    method ShowPlan(m: Model, ghost task: Task, ghost f: Frame)
      requires s.withAt && task.Valid() && f == s.F() && f.task == task && f.Ready()
      requires Intended(f, m, o, known) && ReportsOk(task) && !conflictsPresent
      modifies s`plan, `conflictsPresent, `vertexConflicts, `swapConflicts, `pebbleConflicts
      ensures ReportsOk(task)
      ensures !conflictsPresent ==> Fits(task, o.motion, s.plan)
      ensures conflictsPresent ==> o.isLazy && NewReport(task)
      ensures ShownLength(task, s.plan)
      ensures o.isLazy && |s.plan| > 0 ==> Listed()
      ensures conflictsPresent ==> Listed()
    {
      hide ReportsOk, NewReport, Fits, ConflictFree, Intended, ShownLength;
      hide Extracted, Reported, FoundVertex, FoundSwap, FoundPebble, Normalized;
      ExtractPlan(m, f);
      ghost var rows := s.plan;
      if s.cost.SumOfCosts? {
        AllGoalsReal(task);
        var maxT := s.NormalizePlan();
      }
      IntendedShown(f, m, rows);
      if |s.plan| > 0 && o.isLazy {
        GenerateConflicts();
        ReportsFound(f, m);
      }
      PlanVerdict(f, m, rows);
    }

    lemma IntendedShown(f: Frame, m: Model, rows: Plan)
      requires f.task.Valid() && f.task.withAt && Intended(f, m, o, known)
      requires |rows| == f.task.agents <= |f.task.inst.goals|
      requires forall a :: 0 <= a < |rows| ==> Extracted(f, m, a, rows[a])
      ensures |Shown(f.task, rows)| == |rows| && Rectangular(Shown(f.task, rows), Timesteps(Shown(f.task, rows)))
      ensures forall a :: 0 <= a < |rows| ==> Reported(f, m, a, Shown(f.task, rows)[a])
      ensures ShownLength(f.task, Shown(f.task, rows))
    {
      ShownReported(f, m, rows);
      ShownStops(f, m, rows);
    }

    lemma NoModelNoPlan(task: Task)
      requires task.Valid() && FormulaOk(task) && forall m :: !Sat(m, s.clauses)
      ensures !Solvable(task, o.motion)
    {
      hide Solvable;
      if Solvable(task, o.motion) {
        SolvableApart(task, o.motion);
        var m := LazyComplete(s.F(), o.motion, o.dupli, known, atomsStart, atomsEnd);
        var m' := IntendedModel(s.F(), m, s.clauses);
      }
    }

    lemma ModelIntended(task: Task, m: Model)
      requires FormulaOk(task) && Sat(m, s.clauses)
      ensures s.F().task == task && s.F().Ready() && Intended(s.F(), m, o, known)
    {
      hide Intended;
    }

    lemma IntendedModel(f: Frame, m: Model, cs: seq<Clause>) returns (m': Model)
      requires Means(f, cs, o, known, atomsEnd) && Intended(f, m, o, known) && Exact(f, o)
      ensures Sat(m', cs)
    {
      assert ExtendsTo(m, atomsEnd, cs);
      m' :| Agree(m, m', atomsEnd) && Sat(m', cs);
    }

    lemma EagerSolvable(task: Task, m: Model)
      requires task.Valid() && task.withAt && s.F().task == task && !o.isLazy && Intended(s.F(), m, o, known)
      ensures Solvable(task, o.motion)
    {
      var rows := WalksExist(s.F(), m, task.agents);
      EagerSound(s.F(), m, o.motion, o.dupli, rows);
    }

    /** Listed conflicts have variables or are at a shared goal, and any conflict brings a new clause. */
    lemma ReportsFound(f: Frame, m: Model)
      requires f.task.Valid() && f.task.withAt && o.isLazy && Intended(f, m, o, known)
      requires |s.plan| == f.task.agents && Rectangular(s.plan, Timesteps(s.plan))
      requires forall a :: 0 <= a < |s.plan| ==> Reported(f, m, a, s.plan[a])
      requires forall c :: c in vertexConflicts <==> FoundVertex(s.plan, c)
      requires forall c :: c in swapConflicts <==> FoundSwap(s.plan, c)
      requires forall c :: c in pebbleConflicts <==> o.motion.Pebble? && FoundPebble(s.plan, c)
      ensures ReportsOk(f.task)
      ensures !ConflictFree(s.plan, o.motion) ==> NewReport(f.task)
    {
      hide Reported, Expressible, ConflictFree, Frame.Movement;
      forall c | Found(s.plan, o.motion, c) ensures Expressible(f.task, c) || AtSharedGoal(f.task, c) {
        FoundListable(f, m, o.motion, s.plan, c);
      }
      DetectionAgrees(s.plan, o.motion);
      if !ConflictFree(s.plan, o.motion) {
        var c :| Found(s.plan, o.motion, c);
        var d := FoundViolated(f, m, o.motion, s.plan, c);
        assert f.RespectsAll(m, known);
        assert d in Reports(f.task) && d !in known;
      }
    }

    lemma PlanVerdict(f: Frame, m: Model, rows: Plan)
      requires f.task.Valid() && f.task.withAt && Intended(f, m, o, known)
      requires |rows| == f.task.agents <= |f.task.inst.goals|
      requires forall a :: 0 <= a < |rows| ==> Extracted(f, m, a, rows[a])
      requires s.plan == Shown(f.task, rows) && Rectangular(s.plan, Timesteps(s.plan))
      requires |s.plan| > 0 && o.isLazy ==> (conflictsPresent <==> !ConflictFree(s.plan, o.motion))
      requires !(|s.plan| > 0 && o.isLazy) ==> !conflictsPresent
      ensures !conflictsPresent ==> Fits(f.task, o.motion, s.plan)
    {
      if !conflictsPresent {
        if !o.isLazy {
          EagerSound(f, m, o.motion, o.dupli, rows);
        } else {
          CleanPlanFits(f, m, o.motion, o.dupli, rows);
        }
      }
    }

    // ----- the solving loop -----

    ghost function TaskAt(d: nat): Task
      reads s`inst, s`agents
    {
      TaskFor(s.inst, s.agents, s.cost, s.variables, d)
    }

    /** What holds at the head of the loop: nothing smaller is solvable, and the calls so far are accounted for. */
    ghost predicate Looping(room: nat -> nat, lo: nat)
      reads this, s
    {
      && s.withAt && Runnable(s.inst, s.agents) && s.delta >= lo && nrVars >= 1
      && Roomy(s.inst, s.agents, s.cost, s.variables, o.motion, room)
      && UnsolvableBelow(s.inst, s.agents, s.cost, s.variables, o.motion, lo, s.delta)
      && ReportsOk(TaskAt(s.delta))
      && (firstTry ==> s.clauses == [])
      && (!firstTry ==>
            o.isLazy && FormulaOk(TaskAt(s.delta)) && NewReport(TaskAt(s.delta)) && NumbersBelow(nrVars))
      && solverCalls <= CallBound(room, o.isLazy, lo, s.delta)
                        + (if firstTry then 0 else |known| + 1)
    }

    /** The last allowance tried is solved, the smallest one from lo on, and the plan (if kept) is for it. */
    ghost predicate Solved(lo: nat, keep: bool)
      reads this, s
    {
      && Runnable(s.inst, s.agents)
      && solvedDelta >= lo && s.delta == solvedDelta + 1
      && Solvable(TaskAt(solvedDelta), o.motion)
      && UnsolvableBelow(s.inst, s.agents, s.cost, s.variables, o.motion, lo, solvedDelta)
      && (if keep || o.isLazy
          then Fits(TaskAt(solvedDelta), o.motion, s.plan) && ShownLength(TaskAt(solvedDelta), s.plan)
          else s.plan == [])
    }

    /** The formula of the current allowance is in place, and `spare` calls for it are not yet accounted for. */
    ghost predicate Built(room: nat -> nat, lo: nat, spare: nat)
      reads this, s
    {
      && s.withAt && Runnable(s.inst, s.agents) && s.delta >= lo && nrVars >= 1
      && Roomy(s.inst, s.agents, s.cost, s.variables, o.motion, room)
      && UnsolvableBelow(s.inst, s.agents, s.cost, s.variables, o.motion, lo, s.delta)
      && ReportsOk(TaskAt(s.delta)) && FormulaOk(TaskAt(s.delta)) && NumbersBelow(nrVars)
      && solverCalls <= CallBound(room, o.isLazy, lo, s.delta) + |known| + spare
    }

    method Build(ghost lo: nat, ghost room: nat -> nat)
      requires Looping(room, lo)
      modifies this, s
      ensures s.inst == old(s.inst) && s.agents == old(s.agents) && s.delta == old(s.delta)
      ensures solverCalls == old(solverCalls) && conflictsPresent == old(conflictsPresent)
      ensures Built(room, lo, 0)
    {
      hide FormulaOk, ReportsOk, Roomy, UnsolvableBelow, Solvable, Runnable;
      ghost var task := TaskAt(s.delta);
      TaskForValid(s.inst, s.agents, s.cost, s.variables, s.delta);
      ghost var known0, first0 := known, firstTry;
      nrVars := CreateFormula(task);
      GrowthStep(known0, first0, Reports(task), known);
    }

    /** Conflicts are left: add constraints, on the same allowance. */
    method Again(ghost lo: nat, ghost room: nat -> nat)
      requires Built(room, lo, 1) && o.isLazy && NewReport(TaskAt(s.delta))
      modifies `firstTry
      ensures Looping(room, lo)
    {
      firstTry := false;
    }

    /** The formula has served; prepare for the next allowance. */
    method Advance(ghost lo: nat, ghost room: nat -> nat)
      requires Built(room, lo, 1)
      modifies s`clauses, s`delta, `firstTry, `solvedDelta
      ensures solvedDelta == old(s.delta) && s.delta == solvedDelta + 1
      ensures !Solvable(TaskAt(solvedDelta), o.motion) ==> Looping(room, lo)
      ensures solverCalls <= CallBound(room, o.isLazy, lo, s.delta)
    {
      hide FormulaOk, ReportsOk, NewReport, Roomy, Solvable, Runnable;
      TaskForValid(s.inst, s.agents, s.cost, s.variables, s.delta);
      RoundsOver(TaskAt(s.delta), lo, room);
      NextDelta(TaskAt(s.delta), s.delta);
      s.clauses := [];
      firstTry := true;
      solvedDelta := s.delta;
      s.delta := s.delta + 1;
    }

    method Invoke(keep: bool, ghost lo: nat, ghost room: nat -> nat) returns (res: int)
      requires Built(room, lo, 0) && !conflictsPresent
      modifies s`plan, `conflictsPresent, `vertexConflicts, `swapConflicts, `pebbleConflicts, `solverCalls
      ensures solverCalls == old(solverCalls) + 1 && Built(room, lo, 1)
      ensures res == 0 || res == 1
      ensures res == 1 ==> !Solvable(TaskAt(s.delta), o.motion) && !conflictsPresent
      ensures res == 0 && !conflictsPresent ==> Solvable(TaskAt(s.delta), o.motion)
      ensures res == 0 && !conflictsPresent && (keep || o.isLazy) ==> Fits(TaskAt(s.delta), o.motion, s.plan)
      ensures conflictsPresent ==> o.isLazy && NewReport(TaskAt(s.delta))
      ensures res == 1 || (!keep && !o.isLazy) ==> s.plan == []
      ensures res == 0 && (keep || o.isLazy) ==> ShownLength(TaskAt(s.delta), s.plan)
      ensures conflictsPresent ==> Listed()
    {
      TaskForValid(s.inst, s.agents, s.cost, s.variables, s.delta);
      res := InvokeSolver(keep, TaskAt(s.delta));
    }

    /** One pass through the loop body. */
    method Attempt(keep: bool, ghost lo: nat, ghost room: nat -> nat) returns (res: int)
      requires Looping(room, lo)
      modifies this, s
      ensures s.inst == old(s.inst) && s.agents == old(s.agents) && solverCalls == old(solverCalls) + 1
      ensures (res == 0 || res == 1) && s.delta <= old(s.delta) + 1
      ensures res == 0 && conflictsPresent ==> Looping(room, lo) && o.isLazy && s.delta == old(s.delta)
      ensures res == 0 && !conflictsPresent ==>
        Solved(lo, keep) && s.delta == solvedDelta + 1 && solverCalls <= CallBound(room, o.isLazy, lo, s.delta)
      ensures res == 1 ==> Looping(room, lo) && !conflictsPresent && s.delta == old(s.delta) + 1
      ensures res == 1 || (!keep && !o.isLazy) ==> s.plan == []
      ensures conflictsPresent ==> Listed()
    {
      hide NumbersBelow, Listed, FormulaOk, ReportsOk, NewReport, Roomy, UnsolvableBelow, Solvable, Runnable;
      conflictsPresent := false;
      Build(lo, room);
      res := Invoke(keep, lo, room);
      if res == 0 && o.isLazy && conflictsPresent {
        Again(lo, room);
      } else {
        Advance(lo, room);
      }
    }

    /** What Solve sets before its loop. */
    method Begin(ags: nat, inputDelta: nat, ghost room: nat -> nat)
      requires s.withAt && Runnable(s.inst, ags)
      requires Roomy(s.inst, ags, s.cost, s.variables, o.motion, room)
      modifies this, s
      ensures s.inst == old(s.inst) && s.agents == ags && s.delta == inputDelta && solverCalls == 0
      ensures nrVars == 1 && s.clauses == [] && vertexConflicts == swapConflicts == pebbleConflicts == [] && firstTry
      ensures Looping(room, inputDelta)
    {
      hide Runnable, Roomy, FormulaOk, NewReport, NumbersBelow;
      s.delta := inputDelta;
      solverCalls := 0;
      nrVars := 1;
      vertexConflicts, swapConflicts, pebbleConflicts := [], [], [];
      s.clauses := [];
      s.agents := ags;
      firstTry := true;
    }

    /**
     * The solving loop. Wall-clock time is a budget of solver calls. 0: solved, at the smallest allowance from
     * inputDelta on that has a valid plan; -1 (oneshot only): inputDelta has none; 1: the budget ran out, which it
     * cannot when it covers the rounds up to some solvable allowance.
     */
    method Solve(ags: nat, inputDelta: nat, oneshot: bool, keep: bool, budget: nat, ghost room: nat -> nat)
      returns (res: int)
      requires s.withAt && Runnable(s.inst, ags)
      requires Roomy(s.inst, ags, s.cost, s.variables, o.motion, room)
      modifies this, s
      ensures s.inst == old(s.inst) && s.agents == ags
      ensures res == 0 || res == -1 || res == 1
      ensures res == 0 ==> Solved(inputDelta, keep)
      ensures res == -1 ==> oneshot && !Solvable(TaskAt(inputDelta), o.motion)
      ensures res == -1 || (res == 1 && !o.isLazy && budget > 0) ==> s.plan == []
      ensures res == 1 && budget > 0 && s.plan != [] ==> Listed() && conflictsPresent
      ensures res == 0 ==>
        solvedDelta - inputDelta < solverCalls <= CallBound(room, o.isLazy, inputDelta, solvedDelta + 1)
      ensures solverCalls <= budget
      ensures res == 1 ==> solverCalls == budget
      ensures res == 1 ==> forall bound: nat :: inputDelta <= bound && Solvable(TaskAt(bound), o.motion) ==>
        budget < CallBound(room, o.isLazy, inputDelta, bound + 1)
    {
      hide Looping, Listed, Solved, Solvable, Runnable, Roomy;
      Begin(ags, inputDelta, room);
      while true
        invariant s.inst == old(s.inst) && s.agents == ags && solverCalls <= budget
        invariant Looping(room, inputDelta)
        invariant oneshot ==> s.delta == inputDelta
        invariant s.delta - inputDelta <= solverCalls
        invariant solverCalls > 0 && s.plan != [] ==> Listed() && conflictsPresent && o.isLazy
        decreases budget - solverCalls
      {
        if solverCalls == budget {
          BudgetSpent(inputDelta, room);
          return 1;
        }
        res := Attempt(keep, inputDelta, room);
        if res == 0 && o.isLazy && conflictsPresent {
          continue;
        }
        if res == 0 {
          return 0;
        }
        if oneshot {
          LastUnsolvable(inputDelta, room);
          return -1;
        }
      }
    }

    lemma LastUnsolvable(d: nat, room: nat -> nat)
      requires Looping(room, d) && s.delta == d + 1
      ensures !Solvable(TaskAt(d), o.motion)
    {
    }

    /** Conflicts listed for one allowance stay expressible for the next. */
    lemma NextDelta(task: Task, d: nat)
      requires Runnable(s.inst, s.agents) && task == TaskAt(d) && ReportsOk(task)
      ensures ReportsOk(TaskAt(d + 1))
    {
      TaskForValid(s.inst, s.agents, s.cost, s.variables, d);
      TaskForValid(s.inst, s.agents, s.cost, s.variables, d + 1);
      forall c | Expressible(task, c) ensures Expressible(TaskAt(d + 1), c) {
        ExpressibleMonotone(task, TaskAt(d + 1), c);
      }
    }

    /** The calls for one allowance are covered by its room. */
    lemma RoundsOver(task: Task, lo: nat, room: nat -> nat)
      requires lo <= s.delta && task == TaskAt(s.delta) && FormulaOk(task)
      requires Roomy(s.inst, s.agents, s.cost, s.variables, o.motion, room)
      ensures CallBound(room, o.isLazy, lo, s.delta) + |known| + 1 <= CallBound(room, o.isLazy, lo, s.delta + 1)
    {
    }

    /** When the budget runs out, it was too small for every solvable allowance. */
    lemma BudgetSpent(lo: nat, room: nat -> nat)
      requires Looping(room, lo)
      ensures forall bound: nat :: lo <= bound && Solvable(TaskAt(bound), o.motion) ==>
        solverCalls < CallBound(room, o.isLazy, lo, bound + 1)
    {
      hide FormulaOk, ReportsOk, NewReport, Roomy, Solvable, Runnable;
      CallsSoFar(lo, room);
      forall bound: nat | lo <= bound && Solvable(TaskAt(bound), o.motion)
        ensures solverCalls < CallBound(room, o.isLazy, lo, bound + 1)
      {
        assert s.delta <= bound;
        CallBoundMonotone(room, o.isLazy, lo, s.delta + 1, bound + 1);
      }
    }

    lemma CallsSoFar(lo: nat, room: nat -> nat)
      requires Looping(room, lo)
      ensures solverCalls < CallBound(room, o.isLazy, lo, s.delta + 1)
    {
      hide FormulaOk, ReportsOk, NewReport, Roomy, UnsolvableBelow, Runnable;
      if !firstTry {
        RoomForMore(TaskAt(s.delta), room);
      }
    }

    lemma KnownExpressible(task: Task)
      requires FormulaOk(task)
      ensures AllExpressible(task, o.motion, known)
    {
    }

    lemma RoomForMore(task: Task, room: nat -> nat)
      requires task == TaskAt(s.delta) && FormulaOk(task) && ReportsOk(task) && NewReport(task)
      requires Roomy(s.inst, s.agents, s.cost, s.variables, o.motion, room)
      ensures |known| + 1 <= room(s.delta)
    {
      hide FormulaOk, ReportsOk;
      ReportsExpressible(task);
      KnownExpressible(task);
      var c :| c in Reports(task) && c !in known;
      assert AllExpressible(task, o.motion, known + {c});
      StrictGrowth(known, known + {c});
    }
  }
}
