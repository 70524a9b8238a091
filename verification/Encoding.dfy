/** What the formulas talk about: time windows, variables and their numbers, and the meaning of each clause family. */
module Encodings {
  import opened Grids
  import opened Instances
  import opened Plans
  import opened Cnf

  /** Which variables describe movement. */
  datatype Variables = UseAt | UsePass | UseShift

  /**
   * Propositional variables: agent a is at v, leaves v in direction dir, or something moves from v in direction dir.
   */
  datatype Atom =
    | At(a: int, v: int, t: int)
    | Pass(a: int, v: int, dir: int, t: int)
    | Shift(v: int, dir: int, t: int)

  /** One solver call: the first `agents` agents, an allowance `delta` over the lower bound, the cost function. */
  datatype Task = Task(
    inst: Inst, agents: nat, cost: Cost, delta: nat, timesteps: nat, variables: Variables, withAt: bool)
  {

    ghost predicate Valid() {
      && inst.Valid(agents)
      && inst.Reachable(agents)
      && timesteps == inst.GetMksLB(agents) + delta
    }

    /** Under sum of costs, no two agents share a goal. */
    predicate GoalsApart() {
      cost.SumOfCosts? ==> forall a1, a2 :: 0 <= a1 < a2 < agents ==> Goal(a1) != Goal(a2)
    }

    /** Under sum of costs, agents that share a goal keep their variables up to timestep n - 1. */
    predicate SharedGoalsLast(n: int) {
      cost.SumOfCosts? ==>
        forall a1, a2 :: 0 <= a1 < a2 < agents && Goal(a1) == Goal(a2) ==> n - 1 <= End(a1) || n - 1 <= End(a2)
    }

    predicate IsAgent(a: int) { 0 <= a < agents }

    predicate IsVertex(v: int) { inst.graph.IsVertex(v) }

    predicate Leads(v: int, dir: int, u: int) { inst.graph.Leads(v, dir, u) }

    function Start(a: int): int { if 0 <= a < |inst.starts| then inst.starts[a] else -1 }

    function Goal(a: int): int { if 0 <= a < |inst.goals| then inst.goals[a] else -1 }

    /** First timestep at which a can be at v. */
    function First(a: int, v: int): int {
      if 0 <= a < |inst.lengthFromStart| && 0 <= v < |inst.lengthFromStart[a]| then inst.FirstTimestep(a, v) else 0
    }

    /** Last timestep at which a can be at v and still make it. */
    function Last(a: int, v: int): int {
      if 0 <= a < |inst.lengthFromGoal| == |inst.spLengths| && 0 <= v < |inst.lengthFromGoal[a]|
      then inst.LastTimestep(a, v, timesteps, delta, cost) else -1
    }

    /** The timestep at which a has to be at its goal; it has no variables afterwards. */
    function End(a: int): int { Last(a, Goal(a)) }

    function Neighbor(v: int, dir: int): int {
      if 0 <= dir < 5 && IsVertex(v) && |inst.graph.nbr[v]| == 5 then inst.graph.nbr[v][dir] else -1
    }

    predicate CanTraverse(a: int, v: int, dir: int, t: int) {
      First(a, v) <= t < Last(a, Neighbor(v, dir))
    }

    /** The variables a formula has. */
    predicate Exists(x: Atom) {
      match x
      case At(a, v, t) => withAt && IsAgent(a) && IsVertex(v) && First(a, v) <= t <= Last(a, v)
      case Pass(a, v, dir, t) => variables.UsePass? && IsAgent(a) && Neighbor(v, dir) != -1 && CanTraverse(a, v, dir, t)
      case Shift(v, dir, t) => variables.UseShift? && Neighbor(v, dir) != -1 && 0 <= t < timesteps &&
                               exists a :: 0 <= a < agents && CanTraverse(a, v, dir, t)
    }
  }

  datatype TEGAgent = TEGAgent(firstVariable: int, firstTimestep: int, lastTimestep: int)

  datatype ShiftVariables = ShiftVariables(firstVariable: int, timestep: seq<int>)

  /** std::find: the first index of x, or the length. */
  function Find(s: seq<int>, x: int): (i: nat)
    ensures i <= |s|
    ensures i < |s| ==> s[i] == x
    ensures forall j :: 0 <= j < i ==> s[j] != x
  {
    if |s| == 0 || s[0] == x then 0 else 1 + Find(s[1..], x)
  }

  /** A solver call with its variable tables. */
  datatype Frame = Frame(
    task: Task, at: seq<seq<TEGAgent>>, pass: seq<seq<seq<TEGAgent>>>,
    shift: seq<seq<ShiftVariables>>, shiftTimesStart: seq<int>, shiftTimesEnd: seq<int>)
  {
    /** The number of a variable. */
    function Id(x: Atom): int {
      match x
      case At(a, v, t) =>
        if 0 <= a < |at| && 0 <= v < |at[a]| then at[a][v].firstVariable + (t - at[a][v].firstTimestep) else 0
      case Pass(a, v, dir, t) =>
        if 0 <= a < |pass| && 0 <= v < |pass[a]| && 0 <= dir < |pass[a][v]|
        then pass[a][v][dir].firstVariable + (t - pass[a][v][dir].firstTimestep) else 0
      case Shift(v, dir, t) =>
        if 0 <= v < |shift| && 0 <= dir < |shift[v]|
        then shift[v][dir].firstVariable + Find(shift[v][dir].timestep, t) else 0
    }

    predicate AtEntryOk(a: int, v: int, e: TEGAgent) {
      if task.First(a, v) <= task.Last(a, v)
      then e.firstVariable > 0 && e.firstTimestep == task.First(a, v) && e.lastTimestep == task.Last(a, v)
      else e.firstVariable == 0
    }

    predicate AtTable() {
      task.withAt ==>
        && |at| == task.agents
        && forall a :: 0 <= a < task.agents ==>
             |at[a]| == task.inst.graph.Size() && forall v :: 0 <= v < |at[a]| ==> AtEntryOk(a, v, at[a][v])
    }

    predicate PassEntryOk(a: int, v: int, dir: int, e: TEGAgent) {
      var u := task.Neighbor(v, dir);
      if u != -1 && task.First(a, v) < task.Last(a, u)
      then e.firstVariable > 0 && e.firstTimestep == task.First(a, v) && e.lastTimestep == task.Last(a, u) - 1
      else e.firstVariable == 0
    }

    predicate PassTable() {
      task.variables.UsePass? ==>
        && |pass| == task.agents
        && forall a :: 0 <= a < task.agents ==>
             && |pass[a]| == task.inst.graph.Size()
             && forall v :: 0 <= v < |pass[a]| ==>
                  |pass[a][v]| == 5 && forall dir :: 0 <= dir < 5 ==> PassEntryOk(a, v, dir, pass[a][v][dir])
    }

    /** The timestep list of an edge is strictly increasing and lists exactly the timesteps with a variable. */
    ghost predicate ShiftEntryOk(v: int, dir: int, e: ShiftVariables) {
      && e.firstVariable > 0
      && (forall i, j :: 0 <= i < j < |e.timestep| ==> e.timestep[i] < e.timestep[j])
      && (forall t :: t in e.timestep <==> task.Exists(Shift(v, dir, t)))
    }

    ghost predicate ShiftTimesOk(v: int)
      requires 0 <= v < |shiftTimesStart| == |shiftTimesEnd|
    {
      && shiftTimesStart[v] >= -1
      && forall dir, t :: 0 <= dir < 5 && task.Exists(Shift(v, dir, t)) ==>
        shiftTimesStart[v] != -1 && shiftTimesStart[v] <= t <= shiftTimesEnd[v]
    }

    ghost predicate ShiftTable() {
      task.variables.UseShift? ==>
        && |shift| == |shiftTimesStart| == |shiftTimesEnd| == task.inst.graph.Size()
        && forall v :: 0 <= v < |shift| ==>
             && |shift[v]| == 5
             && ShiftTimesOk(v)
             && forall dir :: 0 <= dir < 5 ==> ShiftEntryOk(v, dir, shift[v][dir])
    }

    /** The numbers lo..hi-1 and the existing variables correspond one to one. */
    ghost predicate Numbered(lo: int, hi: int) {
      && (forall x :: task.Exists(x) ==> lo <= Id(x) < hi)
      && (forall x, y {:trigger Id(x), Id(y)} :: task.Exists(x) && task.Exists(y) && Id(x) == Id(y) ==> x == y)
      && (forall i :: lo <= i < hi ==> IsNumber(i))
    }

    ghost predicate IsNumber(i: int) { exists x :: task.Exists(x) && Id(x) == i }

    ghost predicate Ready() {
      task.Valid() && AtTable() && PassTable() && ShiftTable()
    }

    /** All variables are numbered below n. */
    ghost predicate AtomsBelow(n: int) { forall x {:trigger Id(x)} :: task.Exists(x) ==> 0 < Id(x) < n }

    /** Clauses over existing variables have been added, and none dropped. */
    ghost predicate Adds(before: seq<Clause>, after: seq<Clause>) { AddsWith(before, after, 0) }

    /** Clauses over existing variables and over others up to top have been added, and none dropped. */
    ghost predicate AddsWith(before: seq<Clause>, after: seq<Clause>, top: int) {
      before <= after && forall n :: top < n && AtomsBelow(n) && Below(before, n) ==> Below(after, n)
    }

    /** The literals are over existing variables. */
    ghost predicate Names(c: seq<int>) { forall l :: l in c ==> IsNumber(Abs(l)) }

    /** Variable x exists and is true in m. */
    predicate Holds(m: Model, x: Atom) { task.Exists(x) && Id(x) in m }

    // ----- positions -----

    ghost predicate StartsHold(m: Model) {
      forall a :: 0 <= a < task.agents ==> Holds(m, At(a, task.Start(a), 0))
    }

    ghost predicate GoalsHold(m: Model) {
      forall a :: 0 <= a < task.agents ==> Holds(m, At(a, task.Goal(a), task.End(a)))
    }

    /** Once a has to be at its goal for good, nobody else is there. */
    ghost predicate NoneAtGoal(m: Model) {
      forall a, a2, t :: 0 <= a < task.agents && 0 <= a2 < task.agents && t > task.End(a) ==>
        !Holds(m, At(a2, task.Goal(a), t))
    }

    ghost predicate NoneAtGoalShift(m: Model) {
      forall a, dir, t :: 0 <= a < task.agents && 0 <= dir < 5 && t >= task.End(a) ==>
        !Holds(m, Shift(task.Goal(a), dir, t))
    }

    // ----- conflicts -----

    ghost predicate VertexConf(m: Model) {
      forall a1, a2, v, t :: 0 <= a1 < a2 < task.agents ==> !(Holds(m, At(a1, v, t)) && Holds(m, At(a2, v, t)))
    }

    ghost predicate SwapAt(m: Model, a1: int, a2: int, v: int, u: int, t: int) {
      Holds(m, At(a1, v, t)) && Holds(m, At(a1, u, t + 1)) && Holds(m, At(a2, u, t)) && Holds(m, At(a2, v, t + 1))
    }

    ghost predicate SwapConfAt(m: Model) {
      forall a1, a2, v, dir, u, t :: 0 <= a1 < a2 < task.agents && 1 <= dir < 5 && task.Leads(v, dir, u) ==>
        !SwapAt(m, a1, a2, v, u, t)
    }

    ghost predicate SwapConfPass(m: Model) {
      forall a1, a2, v, dir, u, t :: 0 <= a1 < a2 < task.agents && 1 <= dir < 5 && task.Leads(v, dir, u) ==>
        !(Holds(m, Pass(a1, v, dir, t)) && Holds(m, Pass(a2, u, OppositeDir(dir), t)))
    }

    ghost predicate SwapConfShift(m: Model) {
      forall v, dir, u, back, t :: 2 <= dir < 4 && task.Leads(v, dir, u) && back == OppositeDir(dir) ==>
        !(Holds(m, Shift(v, dir, t)) && Holds(m, Shift(u, back, t)))
    }

    ghost predicate PebbleConfAt(m: Model) {
      forall a1, a2, v, s, t :: 0 <= a1 < task.agents && 0 <= a2 < task.agents && a1 != a2 && t == s + 1 ==>
        !(Holds(m, At(a1, v, t)) && Holds(m, At(a2, v, s)))
    }

    ghost predicate PebbleConfPass(m: Model) {
      forall a1, a2, v, dir, u, t :: task.IsAgent(a1) && task.IsAgent(a2) && a1 != a2 && 1 <= dir < 5 &&
                                     task.Leads(v, dir, u) ==>
        !(Holds(m, Pass(a1, v, dir, t)) && Holds(m, At(a2, u, t)))
    }

    ghost predicate NothingLeaves(m: Model, u: int, t: int) {
      forall dir :: 1 <= dir < 5 ==> !Holds(m, Shift(u, dir, t))
    }

    ghost predicate PebbleConfShift(m: Model) {
      forall v, dir, u, t :: task.Leads(v, dir, u) && Holds(m, Shift(v, dir, t)) ==> NothingLeaves(m, u, t)
    }

    // ----- movement -----

    /** No agent is at two places within the timesteps of the plan. */
    ghost predicate NoDuplicates(m: Model) {
      forall a, t :: 0 <= a < task.agents && 0 <= t < task.timesteps ==> InOnePlace(m, a, t)
    }

    ghost predicate InOnePlace(m: Model, a: int, t: int) {
      forall v, u :: v != u ==> !(Holds(m, At(a, v, t)) && Holds(m, At(a, u, t)))
    }

    ghost predicate HasNextAt(a: int, v: int, t: int) {
      exists dir, u :: task.Leads(v, dir, u) && task.Exists(At(a, u, t + 1))
    }

    ghost predicate MovesTo(m: Model, a: int, v: int, t: int) {
      exists dir, u :: task.Leads(v, dir, u) && Holds(m, At(a, u, t + 1))
    }

    /** An agent is next at a neighbour, if there is any neighbour variable. */
    ghost predicate NextVertexAt(m: Model) {
      forall a, v, t :: Holds(m, At(a, v, t)) && HasNextAt(a, v, t) ==> MovesTo(m, a, v, t)
    }

    ghost predicate EnterVertexPass(m: Model) {
      forall a, v, dir, u, t :: task.Leads(v, dir, u) && Holds(m, Pass(a, v, dir, t)) ==> Holds(m, At(a, u, t + 1))
    }

    ghost predicate HasNextPass(a: int, v: int, t: int) {
      exists dir :: 0 <= dir < 5 && task.Exists(Pass(a, v, dir, t))
    }

    ghost predicate LeavesBy(m: Model, a: int, v: int, t: int) {
      exists dir :: 0 <= dir < 5 && Holds(m, Pass(a, v, dir, t))
    }

    ghost predicate NextEdgePass(m: Model) {
      forall a, v, t :: Holds(m, At(a, v, t)) && HasNextPass(a, v, t) ==> LeavesBy(m, a, v, t)
    }

    ghost predicate OneShift(m: Model) {
      forall v, t :: OneShiftOut(m, v, t)
    }

    ghost predicate OneShiftOut(m: Model, v: int, t: int) {
      forall d1, d2 :: 0 <= d1 < d2 < 5 ==> !(Holds(m, Shift(v, d1, t)) && Holds(m, Shift(v, d2, t)))
    }

    ghost predicate OneIncomingShift(m: Model) {
      forall v, t :: OneShiftIn(m, v, t)
    }

    /** The shift into v from its neighbour in direction dir. */
    function Incoming(v: int, dir: int, t: int): Atom {
      Shift(task.Neighbor(v, dir), OppositeDir(dir), t)
    }

    ghost predicate OneShiftIn(m: Model, v: int, t: int) {
      forall d1, d2 :: 0 <= d1 < d2 < 5 && task.Neighbor(v, d1) != -1 && task.Neighbor(v, d2) != -1 ==>
        !(Holds(m, Incoming(v, d1, t)) && Holds(m, Incoming(v, d2, t)))
    }

    /** An agent follows the shift out of its vertex, as far as the three variables exist. */
    ghost predicate NextVertexShift(m: Model) {
      forall a, v, dir, u, t :: task.Leads(v, dir, u) ==> FollowsShift(m, a, v, dir, u, t)
    }

    ghost predicate FollowsShift(m: Model, a: int, v: int, dir: int, u: int, t: int) {
      Holds(m, At(a, v, t)) && task.Exists(At(a, u, t + 1)) && task.Exists(Shift(v, dir, t)) ==>
        (Holds(m, Shift(v, dir, t)) <==> Holds(m, At(a, u, t + 1)))
    }

    // ----- sum of costs -----

    /** Agent a is late d timesteps after its shortest arrival, in one of three senses. */
    ghost predicate Late(m: Model, how: LateTest, a: int, d: int) {
      var g, t := task.Goal(a), task.First(a, task.Goal(a)) + d;
      match how
      case NotAtGoal => !Holds(m, At(a, g, t))
      case Elsewhere => exists v :: v != g && Holds(m, At(a, v, t))
      case Entering => exists dir, u :: 1 <= dir < 5 && task.Leads(g, dir, u) && Holds(m, Shift(u, OppositeDir(dir), t))
    }

    /** One more than the last of the first n timesteps at which a is late. */
    ghost function Delay(m: Model, how: LateTest, a: int, n: nat): (d: nat)
      ensures d <= n
      ensures forall i :: d <= i < n ==> !Late(m, how, a, i)
      ensures d > 0 ==> Late(m, how, a, d - 1)
    {
      if n == 0 then 0 else if Late(m, how, a, n - 1) then n else Delay(m, how, a, n - 1)
    }

    ghost function TotalDelay(m: Model, how: LateTest, k: nat): nat {
      if k == 0 then 0 else TotalDelay(m, how, k - 1) + Delay(m, how, k - 1, task.delta)
    }

    /** The agents are late for at most delta timesteps in total. */
    ghost predicate LimitSoc(m: Model, how: LateTest) {
      TotalDelay(m, how, task.agents) <= task.delta
    }

    /** Fresh variables lit, ..., lit + n - 1 say that a is late, and later lateness implies earlier. */
    ghost predicate LateChain(m: Model, how: LateTest, a: int, lit: int, n: nat) {
      && (forall d :: 0 <= d < n ==> (Late(m, how, a, d) ==> Node(m, lit, d)))
      && (forall d :: 0 <= d < n && d < task.delta - 1 ==> (Node(m, lit, d + 1) ==> Node(m, lit, d)))
    }

    // ----- whole formulas -----

    ghost predicate Movement(m: Model) {
      match task.variables
      case UseAt => NextVertexAt(m)
      case UsePass => EnterVertexPass(m) && NextEdgePass(m)
      case UseShift => NextVertexAt(m) && OneShift(m) && NextVertexShift(m)
    }

    /** Everything but the conflict clauses. */
    ghost predicate Hard(m: Model, dupli: bool) {
      && StartsHold(m) && GoalsHold(m)
      && (task.cost.SumOfCosts? ==> NoneAtGoal(m))
      && (!dupli ==> NoDuplicates(m))
      && Movement(m)
      && (task.cost.SumOfCosts? ==> LimitSoc(m, if dupli then Elsewhere else NotAtGoal))
    }

    /** The conflict clauses of the eager formulas. */
    ghost predicate Eager(m: Model, motion: Motion) {
      && VertexConf(m)
      && match (motion, task.variables)
         case (Parallel, UseAt) => SwapConfAt(m)
         case (Parallel, UsePass) => SwapConfPass(m)
         case (Parallel, UseShift) => SwapConfShift(m)
         case (Pebble, UseAt) => PebbleConfAt(m)
         case (Pebble, UsePass) => PebbleConfPass(m)
         case (Pebble, UseShift) => PebbleConfShift(m)
    }

    // ----- conflict clauses on demand -----

    /** What the clauses added for a reported conflict say. */
    ghost predicate Respects(m: Model, c: Conflict) {
      match c
      case VertexC(a1, a2, v, t) => !(Holds(m, At(a1, v, t)) && Holds(m, At(a2, v, t)))
      case SwapC(a1, a2, v, u, t) =>
        (match task.variables
         case UseAt => !SwapAt(m, a1, a2, v, u, t)
         case UsePass => forall dir :: 1 <= dir < 5 && task.Leads(v, dir, u) ==>
           !(Holds(m, Pass(a1, v, dir, t)) && Holds(m, Pass(a2, u, OppositeDir(dir), t)))
         case UseShift => forall dir :: 1 <= dir < 5 && task.Leads(v, dir, u) ==>
           !(Holds(m, Shift(v, dir, t)) && Holds(m, Shift(u, OppositeDir(dir), t))))
      case PebbleC(a1, a2, v, u, t) =>
        (match task.variables
         case UseAt => !(Holds(m, At(a1, u, t)) && Holds(m, At(a2, u, t - 1)))
         case UsePass => forall dir :: 1 <= dir < 5 && task.Leads(v, dir, u) ==>
           !(Holds(m, Pass(a1, v, dir, t - 1)) && Holds(m, At(a2, u, t - 1)))
         case UseShift => forall dir :: 1 <= dir < 5 && task.Leads(v, dir, u) && Holds(m, Shift(v, dir, t - 1)) ==>
           NothingLeaves(m, u, t - 1))
    }

    /** The clauses added for a reported conflict, over numbers that are computed also where there is no variable. */
    ghost predicate Demands(m: Model, c: Conflict) {
      match c
      case VertexC(a1, a2, v, t) => !(Id(At(a1, v, t)) in m && Id(At(a2, v, t)) in m)
      case _ => Respects(m, c)
    }

    ghost predicate RespectsAll(m: Model, cs: set<Conflict>) { forall c :: c in cs ==> Respects(m, c) }
  }

  lemma NumberOf(f: Frame, x: Atom)
    requires f.task.Exists(x)
    ensures f.IsNumber(f.Id(x))
  {
  }

  lemma AddsOne(f: Frame, c0: seq<Clause>, before: seq<Clause>, c: Clause, top: int)
    requires f.AddsWith(c0, before, top) && forall l :: l in c ==> f.IsNumber(Abs(l)) || 0 < Abs(l) <= top
    ensures f.AddsWith(c0, before + [c], top)
  {
    forall n | top < n && f.AtomsBelow(n) && Below(c0, n) ensures Below(before + [c], n) {
      forall l | l in c ensures 0 < Abs(l) < n {
        if f.IsNumber(Abs(l)) {
          var x :| f.task.Exists(x) && f.Id(x) == Abs(l);
        }
      }
    }
  }

  lemma HoldsAgree(f: Frame, m: Model, m': Model, n: int)
    requires f.AtomsBelow(n) && Agree(m, m', n)
    ensures forall x :: f.Holds(m, x) <==> f.Holds(m', x)
  {
  }

  datatype LateTest = NotAtGoal | Elsewhere | Entering

  /** The tuples of vertex_conflicts, swap_conflicts and pebble_conflicts. */
  datatype Conflict =
    | VertexC(a1: int, a2: int, v: int, t: int)
    | SwapC(a1: int, a2: int, v: int, u: int, t: int)
    | PebbleC(a1: int, a2: int, v: int, u: int, t: int)

  /** The conflict concerns reachable cells of two of the agents, and their variables exist. */
  ghost predicate Expressible(task: Task, c: Conflict) {
    && task.IsAgent(c.a1) && task.IsAgent(c.a2) && c.a1 != c.a2
    && match c
       case VertexC(a1, a2, v, t) => task.Exists(At(a1, v, t)) && task.Exists(At(a2, v, t))
       case SwapC(a1, a2, v, u, t) =>
         && v != u && task.inst.graph.Adjacent(v, u) && task.First(a1, v) >= 0 && task.First(a2, u) >= 0
         && task.Exists(At(a1, v, t)) && task.Exists(At(a1, u, t + 1))
         && task.Exists(At(a2, u, t)) && task.Exists(At(a2, v, t + 1))
       case PebbleC(a1, a2, v, u, t) =>
         && v != u && task.inst.graph.Adjacent(v, u) && task.First(a1, v) >= 0
         && task.Exists(At(a1, v, t - 1)) && task.Exists(At(a1, u, t)) && task.Exists(At(a2, u, t - 1))
  }

  /** Two agents with one goal stand there; they may have no variables any more. */
  ghost predicate AtSharedGoal(task: Task, c: Conflict) {
    && c.VertexC? && task.cost.SumOfCosts? && task.IsAgent(c.a1) && task.IsAgent(c.a2) && c.a1 != c.a2
    && task.Goal(c.a1) == c.v && task.Goal(c.a2) == c.v && task.First(c.a1, c.v) <= c.t && task.First(c.a2, c.v) <= c.t
  }

  /** What a clause on demand says of existing variables; with both variables there, it says nothing else. */
  lemma DemandsRespects(f: Frame, m: Model, c: Conflict)
    ensures f.Demands(m, c) ==> f.Respects(m, c)
    ensures Expressible(f.task, c) ==> (f.Demands(m, c) <==> f.Respects(m, c))
  {
  }

  /** The conflicts for which clauses are added under the given motion. */
  predicate Relevant(motion: Motion, c: Conflict) {
    c.VertexC? || (motion.Parallel? && c.SwapC?) || (motion.Pebble? && c.PebbleC?)
  }
}
