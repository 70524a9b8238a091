/** The common solver of src/encodings/solver_common.cpp: it owns the variable tables and the growing clause list. */
module Solvers {
  import opened Grids
  import opened Instances
  import opened Plans
  import opened Cnf
  import opened Encodings
  import opened Windows
  import opened Numbering

  predicate AnyTrue(m: Model, xs: seq<int>) { exists x :: x in xs && x in m }

  lemma AnyTrueAppend(m: Model, xs: seq<int>, y: int)
    ensures AnyTrue(m, xs + [y]) <==> AnyTrue(m, xs) || y in m
  {
    assert forall x :: x in xs + [y] <==> x in xs || x == y;
  }

  /** The clause "not x, or one of xs". */
  lemma SatChoice(m: Model, xs: seq<int>, x: int)
    requires x > 0 && forall l :: l in xs ==> l > 0
    ensures SatClause(m, xs + [-x]) <==> (x in m ==> AnyTrue(m, xs))
  {
    assert forall l :: l in xs + [-x] <==> l in xs || l == -x;
    assert x !in m ==> TrueLit(m, -x);
    assert forall l :: l in xs ==> (TrueLit(m, l) <==> l in m);
  }

  /** vc lists the existing shifts out of v at t in directions below n, dirs their directions. */
  ghost predicate ListsShifts(f: Frame, v: int, t: int, vc: seq<int>, dirs: seq<int>, n: int) {
    && |vc| == |dirs|
    && (forall i :: 0 <= i < |dirs| ==> 0 <= dirs[i] < n && f.task.Exists(Shift(v, dirs[i], t)))
    && (forall i :: 0 <= i < |dirs| ==> vc[i] == f.Id(Shift(v, dirs[i], t)) && vc[i] > 0)
    && (forall i, j :: 0 <= i < j < |dirs| ==> dirs[i] < dirs[j])
    && (forall d :: 0 <= d < n && f.task.Exists(Shift(v, d, t)) ==> d in dirs)
  }

  lemma PairwiseShifts(f: Frame, m: Model, v: int, t: int, vc: seq<int>, dirs: seq<int>)
    requires ListsShifts(f, v, t, vc, dirs, 5)
    ensures PairwiseFalse(m, vc) <==> f.OneShiftOut(m, v, t)
  {
    if f.OneShiftOut(m, v, t) {
      forall i, j | 0 <= i < j < |vc| ensures !(vc[i] in m && vc[j] in m) {
        assert !(f.Holds(m, Shift(v, dirs[i], t)) && f.Holds(m, Shift(v, dirs[j], t)));
      }
    }
  }

  /** vc lists the existing shifts into v at t from directions below n, dirs those directions. */
  ghost predicate ListsIncoming(f: Frame, v: int, t: int, vc: seq<int>, dirs: seq<int>, n: int) {
    && |vc| == |dirs|
    && (forall i :: 0 <= i < |dirs| ==> 0 <= dirs[i] < n && f.task.Neighbor(v, dirs[i]) != -1)
    && (forall i :: 0 <= i < |dirs| ==> f.task.Exists(f.Incoming(v, dirs[i], t)))
    && (forall i :: 0 <= i < |dirs| ==> vc[i] == f.Id(f.Incoming(v, dirs[i], t)) && vc[i] > 0)
    && (forall i, j :: 0 <= i < j < |dirs| ==> dirs[i] < dirs[j])
    && (forall d :: 0 <= d < n && f.task.Neighbor(v, d) != -1 && f.task.Exists(f.Incoming(v, d, t)) ==> d in dirs)
  }

  lemma PairwiseIncoming(f: Frame, m: Model, v: int, t: int, vc: seq<int>, dirs: seq<int>)
    requires ListsIncoming(f, v, t, vc, dirs, 5)
    ensures PairwiseFalse(m, vc) <==> f.OneShiftIn(m, v, t)
  {
    if f.OneShiftIn(m, v, t) {
      forall i, j | 0 <= i < j < |vc| ensures !(vc[i] in m && vc[j] in m) {
        assert !(f.Holds(m, f.Incoming(v, dirs[i], t)) && f.Holds(m, f.Incoming(v, dirs[j], t)));
      }
    }
  }

  lemma IncomingNames(f: Frame, v: int, t: int, vc: seq<int>, dirs: seq<int>, n: int)
    requires ListsIncoming(f, v, t, vc, dirs, n)
    ensures f.Names(vc)
  {
    forall l | l in vc ensures f.IsNumber(Abs(l)) {
      var i :| 0 <= i < |vc| && vc[i] == l;
      NumberOf(f, f.Incoming(v, dirs[i], t));
    }
  }

  /** vars lists the existing At variables of a at t on cells below n, vs their cells. */
  ghost predicate ListsPlaces(f: Frame, a: int, t: int, vars: seq<int>, vs: seq<int>, n: int) {
    && |vars| == |vs|
    && (forall i :: 0 <= i < |vs| ==> 0 <= vs[i] < n && f.task.Exists(At(a, vs[i], t)))
    && (forall i :: 0 <= i < |vs| ==> vars[i] == f.Id(At(a, vs[i], t)) && vars[i] > 0)
    && (forall i, j :: 0 <= i < j < |vs| ==> vs[i] < vs[j])
    && (forall v :: 0 <= v < n && f.task.Exists(At(a, v, t)) ==> v in vs)
  }

  lemma PairwisePlaces(f: Frame, m: Model, a: int, t: int, vars: seq<int>, vs: seq<int>)
    requires ListsPlaces(f, a, t, vars, vs, f.task.inst.graph.Size())
    ensures PairwiseFalse(m, vars) <==> f.InOnePlace(m, a, t)
  {
    if f.InOnePlace(m, a, t) {
      forall i, j | 0 <= i < j < |vars| ensures !(vars[i] in m && vars[j] in m) {
        assert !(f.Holds(m, At(a, vs[i], t)) && f.Holds(m, At(a, vs[j], t)));
      }
    }
    if PairwiseFalse(m, vars) {
      forall v, u | v != u ensures !(f.Holds(m, At(a, v, t)) && f.Holds(m, At(a, u, t))) {
        assert f.Holds(m, At(a, v, t)) ==> v in vs;
        assert f.Holds(m, At(a, u, t)) ==> u in vs;
      }
    }
  }

  /** Every agent before a, and a before t, is in one place at a time. */
  ghost predicate PlacedOnce(f: Frame, m: Model, a: int, t: int) {
    forall b, s :: 0 <= b < f.task.agents && 0 <= s < f.task.timesteps && (b < a || (b == a && s < t)) ==>
      f.InOnePlace(m, b, s)
  }

  /** lit, ..., lit + n - 1 */
  function LateList(lit: int, n: nat): seq<int> {
    if n == 0 then [] else LateList(lit, n - 1) + [lit + (n - 1)]
  }

  lemma {:induction false} LateListBelow(lit: int, n: nat)
    requires lit > 0
    ensures |LateList(lit, n)| == n && forall i :: 0 <= i < n ==> LateList(lit, n)[i] == lit + i
    ensures LitsBelow(LateList(lit, n), lit + n)
  {
    if n > 0 {
      LateListBelow(lit, n - 1);
    }
  }

  /** If the first c variables of the list are true then at least c are; if exactly those, exactly c. */
  lemma {:induction false} CountPrefix(m: Model, lit: int, n: nat, c: nat)
    requires c <= n && forall d :: 0 <= d < c ==> Node(m, lit, d)
    ensures Count(m, LateList(lit, n)) >= c
    ensures (forall d :: c <= d < n ==> !Node(m, lit, d)) ==> Count(m, LateList(lit, n)) == c
  {
    if n > 0 {
      CountAppend(m, LateList(lit, n - 1), [lit + (n - 1)]);
      assert Node(m, lit, n - 1) <==> lit + (n - 1) in m;
      CountPrefix(m, lit, n - 1, if c < n then c else c - 1);
    }
  }

  lemma {:induction false} ChainDown(f: Frame, m: Model, how: LateTest, a: int, lit: int, d: nat, e: nat)
    requires f.LateChain(m, how, a, lit, f.task.delta) && e <= d < f.task.delta && Node(m, lit, d)
    ensures Node(m, lit, e)
    decreases d
  {
    if e < d {
      assert Node(m, lit, d - 1 + 1);
      ChainDown(f, m, how, a, lit, d - 1, e);
    }
  }

  lemma ChainStart(f: Frame, how: LateTest, a: int, lit: int)
    ensures forall m :: f.LateChain(m, how, a, lit, 0)
  {
  }

  lemma ChainStep(f: Frame, how: LateTest, a: int, lit: int, d: nat)
    ensures forall m :: f.LateChain(m, how, a, lit, d + 1) <==>
      && f.LateChain(m, how, a, lit, d)
      && (f.Late(m, how, a, d) ==> Node(m, lit, d))
      && (d < f.task.delta - 1 ==> Node(m, lit, d + 1) ==> Node(m, lit, d))
  {
    hide Frame.Late, Node;
  }

  lemma ChainCounts(f: Frame, m: Model, how: LateTest, a: int, lit: int)
    requires f.LateChain(m, how, a, lit, f.task.delta)
    ensures f.Delay(m, how, a, f.task.delta) <= Count(m, LateList(lit, f.task.delta))
  {
    var c := f.Delay(m, how, a, f.task.delta);
    forall d | 0 <= d < c ensures Node(m, lit, d) {
      ChainDown(f, m, how, a, lit, c - 1, d);
    }
    CountPrefix(m, lit, f.task.delta, c);
  }

  /** A model of the clauses so far that agrees with m and has no more lateness variables true than m's delays. */
  ghost predicate DelayExtends(f: Frame, m: Model, how: LateTest, a: nat, lit: int, cs: seq<Clause>, late: seq<int>) {
    exists m' :: Agree(m, m', lit) && Sat(m', cs) && Count(m', late) == f.TotalDelay(m, how, a)
  }

  lemma LateAgree(f: Frame, m: Model, m': Model, how: LateTest, a: int, n: int)
    requires f.AtomsBelow(n) && Agree(m, m', n)
    ensures forall d :: f.Late(m, how, a, d) <==> f.Late(m', how, a, d)
  {
    HoldsAgree(f, m, m', n);
  }

  lemma {:induction false} DelayAgree(f: Frame, m: Model, m': Model, how: LateTest, a: int, n: int, d: nat)
    requires f.AtomsBelow(n) && Agree(m, m', n)
    ensures f.Delay(m, how, a, d) == f.Delay(m', how, a, d)
  {
    LateAgree(f, m, m', how, a, n);
    if d > 0 {
      DelayAgree(f, m, m', how, a, n, d - 1);
    }
  }

  lemma LateIndep(f: Frame, how: LateTest, a: int, lit: int, lit': int, before: seq<Clause>, after: seq<Clause>)
    requires 0 < lit && lit' == lit + f.task.delta && f.AtomsBelow(lit) && Indep(before, lit)
    requires forall m :: Sat(m, after) <==> Sat(m, before) && f.LateChain(m, how, a, lit, f.task.delta)
    ensures Indep(after, lit')
  {
    forall m, m' | Agree(m, m', lit') && Sat(m, after) ensures Sat(m', after) {
      assert Agree(m, m', lit);
      LateAgree(f, m, m', how, a, lit);
      assert forall d :: 0 <= d < f.task.delta ==> (Node(m, lit, d) <==> Node(m', lit, d));
    }
  }

  /** Below lit as m, from lit on exactly the first c variables true. */
  lemma WithPrefix(m: Model, lit: int, c: nat) returns (m': Model)
    requires lit > 0
    ensures Agree(m, m', lit)
    ensures forall d :: d >= 0 ==> (Node(m', lit, d) <==> d < c)
  {
    m' := (set x | x in m && x < lit) + (set x | x in LateList(lit, c));
    LateListBelow(lit, c);
    forall d | 0 <= d < c ensures Node(m', lit, d) {
      assert LateList(lit, c)[d] == lit + d;
    }
  }

  lemma ExtendDelay(f: Frame, m: Model, how: LateTest, a: nat, lit0: int, lit: int,
                    before: seq<Clause>, after: seq<Clause>, late: seq<int>)
    requires 0 < lit0 <= lit && f.AtomsBelow(lit0) && LitsBelow(late, lit) && Indep(before, lit)
    requires DelayExtends(f, m, how, a, lit0, before, late)
    requires forall m' :: Sat(m', after) <==> Sat(m', before) && f.LateChain(m', how, a, lit, f.task.delta)
    ensures DelayExtends(f, m, how, a + 1, lit0, after, late + LateList(lit, f.task.delta))
  {
    var n := f.task.delta;
    var m1 :| Agree(m, m1, lit0) && Sat(m1, before) && Count(m1, late) == f.TotalDelay(m, how, a);
    var c := f.Delay(m, how, a, n);
    var m2 := WithPrefix(m1, lit, c);
    assert Agree(m, m2, lit0);
    DelayedChain(f, m, m2, how, a, lit0, lit);
    assert Sat(m2, after);
    CountAgree(m1, m2, late, lit);
    CountPrefix(m2, lit, n, c);
    CountAppend(m2, late, LateList(lit, n));
  }

  lemma DelayedChain(f: Frame, m: Model, m2: Model, how: LateTest, a: nat, lit0: int, lit: int)
    requires f.AtomsBelow(lit0) && Agree(m, m2, lit0)
    requires forall d :: d >= 0 ==> (Node(m2, lit, d) <==> d < f.Delay(m, how, a, f.task.delta))
    ensures f.LateChain(m2, how, a, lit, f.task.delta)
  {
    LateAgree(f, m, m2, how, a, lit0);
  }

  /** One more (agent, timestep) pair, with fresh variables from lit1 on. */
  lemma ExtendPlaced(f: Frame, m: Model, a: int, t: int, lit: int, lit1: int, before: seq<Clause>, after: seq<Clause>)
    requires 0 < lit <= lit1 && f.AtomsBelow(lit) && f.InOnePlace(m, a, t) && ExtendsTo(m, lit, before)
    requires forall m' :: Sat(m', before) && f.InOnePlace(m', a, t) ==> ExtendsTo(m', lit1, after)
    ensures ExtendsTo(m, lit, after)
  {
    var m1 :| Agree(m, m1, lit) && Sat(m1, before);
    HoldsAgree(f, m, m1, lit);
    assert f.InOnePlace(m1, a, t);
    var m2 :| Agree(m1, m2, lit1) && Sat(m2, after);
    assert Agree(m, m2, lit);
  }

  /**
   * cs says of the models of c0 that every agent before a, and a before t, is in one place at a time, and says no more
   * when c0 leaves the variables from lit on alone.
   */
  ghost predicate SaysPlaced(f: Frame, c0: seq<Clause>, cs: seq<Clause>, a: int, t: int, lit: int) {
    && (forall m :: Sat(m, cs) ==> Sat(m, c0) && PlacedOnce(f, m, a, t))
    && (Indep(c0, lit) ==> forall m :: Sat(m, c0) && PlacedOnce(f, m, a, t) ==> ExtendsTo(m, lit, cs))
  }

  lemma SaysPlacedStart(f: Frame, c0: seq<Clause>, lit: int)
    ensures SaysPlaced(f, c0, c0, 0, 0, lit)
  {
    assert forall m :: Agree(m, m, lit);
  }

  lemma SaysPlacedStep(f: Frame, c0: seq<Clause>, before: seq<Clause>, after: seq<Clause>, a: int, t: int, lit: int,
                       lit1: int)
    requires 0 <= a < f.task.agents && 0 <= t < f.task.timesteps
    requires 0 < lit <= lit1 && f.AtomsBelow(lit) && SaysPlaced(f, c0, before, a, t, lit)
    requires forall m :: Sat(m, after) ==> Sat(m, before) && f.InOnePlace(m, a, t)
    requires Indep(c0, lit) ==> forall m :: Sat(m, before) && f.InOnePlace(m, a, t) ==> ExtendsTo(m, lit1, after)
    ensures SaysPlaced(f, c0, after, a, t + 1, lit)
  {
    forall m | Sat(m, after) ensures PlacedOnce(f, m, a, t + 1) {
      assert PlacedOnce(f, m, a, t) && f.InOnePlace(m, a, t);
    }
    forall m | Indep(c0, lit) && Sat(m, c0) && PlacedOnce(f, m, a, t + 1) ensures ExtendsTo(m, lit, after) {
      assert PlacedOnce(f, m, a, t) && f.InOnePlace(m, a, t);
      ExtendPlaced(f, m, a, t, lit, lit1, before, after);
    }
  }

  lemma SaysPlacedNextAgent(f: Frame, c0: seq<Clause>, cs: seq<Clause>, a: int, lit: int)
    requires SaysPlaced(f, c0, cs, a, f.task.timesteps, lit)
    ensures SaysPlaced(f, c0, cs, a + 1, 0, lit)
  {
    assert forall m :: PlacedOnce(f, m, a, f.task.timesteps) <==> PlacedOnce(f, m, a + 1, 0);
  }

  lemma SaysPlacedAll(f: Frame, c0: seq<Clause>, cs: seq<Clause>, lit: int)
    requires SaysPlaced(f, c0, cs, f.task.agents, 0, lit)
    ensures forall m :: Sat(m, cs) ==> Sat(m, c0) && f.NoDuplicates(m)
    ensures Indep(c0, lit) ==> forall m :: Sat(m, c0) && f.NoDuplicates(m) ==> ExtendsTo(m, lit, cs)
  {
    assert forall m :: PlacedOnce(f, m, f.task.agents, 0) <==> f.NoDuplicates(m);
  }

  /**
   * cs adds to c0 lateness variables `lates` of the agents before a that count at least their delay, and at best
   * exactly that when c0 leaves the variables from lit on alone.
   */
  ghost predicate SaysLate(f: Frame, how: LateTest, c0: seq<Clause>, cs: seq<Clause>, a: nat, lates: seq<int>,
                           lit: int)
  {
    && (forall m :: Sat(m, cs) ==> Sat(m, c0) && f.TotalDelay(m, how, a) <= Count(m, lates))
    && (Indep(c0, lit) ==> forall m :: Sat(m, c0) ==> DelayExtends(f, m, how, a, lit, cs, lates))
  }

  lemma SaysLateStart(f: Frame, how: LateTest, c0: seq<Clause>, lit: int)
    ensures SaysLate(f, how, c0, c0, 0, [], lit)
  {
    forall m | Sat(m, c0) ensures DelayExtends(f, m, how, 0, lit, c0, []) {
      assert Agree(m, m, lit);
    }
  }

  lemma SaysLateStep(f: Frame, how: LateTest, c0: seq<Clause>, before: seq<Clause>, after: seq<Clause>,
                     a: nat, lates: seq<int>, lit: int, lit1: int)
    requires 0 < lit <= lit1 && f.AtomsBelow(lit) && LitsBelow(lates, lit1) && (Indep(c0, lit) ==> Indep(before, lit1))
    requires SaysLate(f, how, c0, before, a, lates, lit)
    requires forall m :: Sat(m, after) <==> Sat(m, before) && f.LateChain(m, how, a, lit1, f.task.delta)
    ensures SaysLate(f, how, c0, after, a + 1, lates + LateList(lit1, f.task.delta), lit)
  {
    var late := LateList(lit1, f.task.delta);
    forall m | Sat(m, after) ensures Sat(m, c0) && f.TotalDelay(m, how, a + 1) <= Count(m, lates + late) {
      CountAppend(m, lates, late);
      ChainCounts(f, m, how, a, lit1);
    }
    forall m | Indep(c0, lit) && Sat(m, c0) ensures DelayExtends(f, m, how, a + 1, lit, after, lates + late) {
      ExtendDelay(f, m, how, a, lit, lit1, before, after, lates);
    }
  }

  lemma SaysLimited(f: Frame, how: LateTest, c0: seq<Clause>, before: seq<Clause>, after: seq<Clause>,
                    lates: seq<int>, lit: int, lit1: int)
    requires 0 < lit <= lit1 && SaysLate(f, how, c0, before, f.task.agents, lates, lit)
    requires forall m :: Sat(m, after) ==> Sat(m, before) && Count(m, lates) <= f.task.delta
    requires Indep(c0, lit) ==>
      forall m :: Sat(m, before) && Count(m, lates) <= f.task.delta ==> ExtendsTo(m, lit1, after)
    ensures forall m :: Sat(m, after) ==> Sat(m, c0) && f.LimitSoc(m, how)
    ensures Indep(c0, lit) ==> forall m :: Sat(m, c0) && f.LimitSoc(m, how) ==> ExtendsTo(m, lit, after)
  {
    hide Sat, Count, Frame.TotalDelay;
    forall m | Indep(c0, lit) && Sat(m, c0) && f.LimitSoc(m, how) ensures ExtendsTo(m, lit, after) {
      assert DelayExtends(f, m, how, f.task.agents, lit, before, lates);
      var m1 :| Agree(m, m1, lit) && Sat(m1, before) && Count(m1, lates) == f.TotalDelay(m, how, f.task.agents);
      ExtendsFurther(m, m1, lit, lit1, after);
    }
  }

  lemma TailUnique(row: seq<int>, goal: int, t: nat)
    requires t <= |row| && (forall i :: t <= i < |row| ==> row[i] == goal || row[i] == -1)
    requires t > 0 ==> row[t - 1] != goal && row[t - 1] != -1
    ensures Tail(row, goal) == t
  {
    var k := Tail(row, goal);
    assert t > 0 ==> !(k <= t - 1 < |row|);
    assert k > 0 ==> !(t <= k - 1 < |row|);
  }

  lemma LateIsElsewhere(f: Frame, m: Model, a: int, d: int, g: int, t: int)
    requires g == f.task.Goal(a) && t == f.task.First(a, g) + d
    ensures f.Late(m, Elsewhere, a, d) <==>
      exists w :: 0 <= w < f.task.inst.graph.Size() && w != g && f.Holds(m, At(a, w, t))
  {
    if f.Late(m, Elsewhere, a, d) {
      var w :| w != g && f.Holds(m, At(a, w, t));
      assert 0 <= w < f.task.inst.graph.Size();
    }
    if w :| 0 <= w < f.task.inst.graph.Size() && w != g && f.Holds(m, At(a, w, t)) {
      assert f.Holds(m, At(a, w, f.task.First(a, f.task.Goal(a)) + d));
    }
  }

  lemma AddsWithHigher(f: Frame, c0: seq<Clause>, c1: seq<Clause>, top: int, top': int)
    requires f.AddsWith(c0, c1, top) && top <= top'
    ensures f.AddsWith(c0, c1, top')
  {
  }

  lemma AddsWithMore(f: Frame, c0: seq<Clause>, c1: seq<Clause>, c2: seq<Clause>, top: int)
    requires f.AddsWith(c0, c1, top) && f.AddsWith(c1, c2, top)
    ensures f.AddsWith(c0, c2, top)
  {
  }

  /** A shift enters goal from its neighbour in direction dir. */
  ghost predicate EntersFrom(f: Frame, m: Model, goal: int, dir: int, t: int) {
    exists u :: f.task.Leads(goal, dir, u) && f.Holds(m, Shift(u, OppositeDir(dir), t))
  }

  lemma LateIsEntering(f: Frame, m: Model, a: int, d: int, g: int, t: int)
    requires g == f.task.Goal(a) && t == f.task.First(a, g) + d
    ensures f.Late(m, Entering, a, d) <==> exists e :: 1 <= e < 5 && EntersFrom(f, m, g, e, t)
  {
    if f.Late(m, Entering, a, d) {
      var e, u :| 1 <= e < 5 && f.task.Leads(g, e, u) && f.Holds(m, Shift(u, OppositeDir(e), t));
      assert EntersFrom(f, m, g, e, t);
    }
    if e :| 1 <= e < 5 && EntersFrom(f, m, g, e, t) {
      var u :| f.task.Leads(g, e, u) && f.Holds(m, Shift(u, OppositeDir(e), t));
    }
  }

  lemma FormulaAdded(before: seq<Clause>, formula: seq<Clause>, lit: int, lit': int)
    requires lit <= lit' && Below(formula, lit') && Mentions(formula, lit' - 1)
    ensures AddsFresh(before, before + formula, lit, lit') && Mentions(before + formula, lit' - 1)
  {
    var c, l :| c in formula && l in c && Abs(l) == lit' - 1;
    assert c in before + formula;
    if Below(before, lit) {
      BelowAppend(before, formula, lit, lit');
    }
  }

  lemma AddsNoFresh(cs: seq<Clause>, lit: int)
    ensures AddsFresh(cs, cs, lit, lit)
  {
  }

  lemma PrefixOne(cs: seq<Clause>, c: Clause)
    ensures cs <= cs + [c]
  {
  }

  lemma AddsNothing(f: Frame, cs: seq<Clause>)
    ensures f.Adds(cs, cs)
  {
  }

  lemma AddsWithNothing(f: Frame, cs: seq<Clause>, top: int)
    ensures f.AddsWith(cs, cs, top)
  {
  }

  lemma AddsMore(f: Frame, c0: seq<Clause>, c1: seq<Clause>, c2: seq<Clause>)
    requires f.Adds(c0, c1) && f.Adds(c1, c2)
    ensures f.Adds(c0, c2)
  {
  }

  class Solver {
    // options fixed when the solver is made
    const variables: Variables
    const cost: Cost
    const withAt: bool

    // the current call
    var inst: Inst
    var agents: nat
    var delta: nat
    var maxTimestep: nat

    // variable tables
    var at: seq<seq<TEGAgent>>
    var pass: seq<seq<seq<TEGAgent>>>
    var shift: seq<seq<ShiftVariables>>
    var shiftTimesStart: seq<int>
    var shiftTimesEnd: seq<int>

    // clauses handed to the SAT solver since it was created
    var clauses: seq<Clause>

    // found plan
    var plan: Plan

    constructor (variables: Variables, cost: Cost, withAt: bool, inst: Inst)
      ensures this.variables == variables && this.cost == cost && this.withAt == withAt && this.inst == inst
      ensures clauses == []
    {
      this.variables, this.cost, this.withAt, this.inst := variables, cost, withAt, inst;
      agents, delta, maxTimestep := 0, 0, 0;
      at, pass, shift, shiftTimesStart, shiftTimesEnd := [], [], [], [], [];
      clauses, plan := [], [];
    }

    function CurrentTask(): Task
      reads `inst, `agents, `delta, `maxTimestep
    {
      Task(inst, agents, cost, delta, maxTimestep, variables, withAt)
    }

    function F(): Frame
      reads `inst, `agents, `delta, `maxTimestep, `at, `pass, `shift, `shiftTimesStart, `shiftTimesEnd
    {
      Frame(CurrentTask(), at, pass, shift, shiftTimesStart, shiftTimesEnd)
    }

    function AtVar(a: int, v: int, t: int): int
      requires 0 <= a < |at| && 0 <= v < |at[a]|
      reads `at
    {
      at[a][v].firstVariable + (t - at[a][v].firstTimestep)
    }

    function PassVar(a: int, v: int, dir: int, t: int): int
      requires 0 <= a < |pass| && 0 <= v < |pass[a]| && 0 <= dir < |pass[a][v]|
      reads `pass
    {
      pass[a][v][dir].firstVariable + (t - pass[a][v][dir].firstTimestep)
    }

    method AddClause(c: Clause)
      modifies `clauses
      ensures clauses == old(clauses) + [c]
      ensures forall m :: Sat(m, clauses) <==> Sat(m, old(clauses)) && SatClause(m, c)
    {
      clauses := clauses + [c];
    }

    /** The clause {-vx, -vy} over the variables numbered vx and vy. */
    method Forbid2(vx: int, vy: int, ghost x: Atom, ghost y: Atom, ghost f: Frame)
      requires f == F() && f.task.Exists(x) && f.Id(x) == vx > 0 && f.task.Exists(y) && f.Id(y) == vy > 0
      modifies `clauses
      ensures forall m :: Sat(m, clauses) <==> Sat(m, old(clauses)) && !(f.Holds(m, x) && f.Holds(m, y))
      ensures f.Adds(old(clauses), clauses)
    {
      hide Sat, SatClause;
      AddClause([-vx, -vy]);
      forall m ensures SatClause(m, [-vx, -vy]) <==> !(f.Holds(m, x) && f.Holds(m, y)) {
        SatTwo(m, -vx, -vy);
      }
    }

    // ----- start and goal positions -----

    method CreatePossition_Start(ghost f: Frame)
      requires f == F() && f.Ready() && withAt
      modifies `clauses
      ensures forall m :: Sat(m, clauses) <==> Sat(m, old(clauses)) && f.StartsHold(m)
      ensures f.Adds(old(clauses), clauses)
    {
      hide Sat, SatClause;
      for a := 0 to agents
        invariant f.Adds(old(clauses), clauses)
        invariant forall m :: Sat(m, clauses) <==>
          && Sat(m, old(clauses))
          && forall b :: 0 <= b < a ==> f.Holds(m, At(b, f.task.Start(b), 0))
      {
        AgentFacts(f.task, a);
        var v := inst.starts[a];
        assert f.AtEntryOk(a, v, at[a][v]);
        NumberOf(f, At(a, v, 0));
        AddsOne(f, old(clauses), clauses, [at[a][v].firstVariable], 0);
        AddClause([at[a][v].firstVariable]);
        forall m ensures SatClause(m, [at[a][v].firstVariable]) <==> f.Holds(m, At(a, v, 0)) {
          SatOne(m, at[a][v].firstVariable);
        }
      }
    }

    method CreatePossition_Goal(ghost f: Frame)
      requires f == F() && f.Ready() && withAt
      modifies `clauses
      ensures forall m :: Sat(m, clauses) <==> Sat(m, old(clauses)) && f.GoalsHold(m)
      ensures f.Adds(old(clauses), clauses)
    {
      hide Sat, SatClause;
      for a := 0 to agents
        invariant f.Adds(old(clauses), clauses)
        invariant forall m :: Sat(m, clauses) <==>
          && Sat(m, old(clauses))
          && forall b :: 0 <= b < a ==> f.Holds(m, At(b, f.task.Goal(b), f.task.End(b)))
      {
        AgentFacts(f.task, a);
        var v := inst.goals[a];
        assert f.AtEntryOk(a, v, at[a][v]);
        var x := at[a][v].firstVariable + (at[a][v].lastTimestep - at[a][v].firstTimestep);
        NumberOf(f, At(a, v, f.task.End(a)));
        AddsOne(f, old(clauses), clauses, [x], 0);
        AddClause([x]);
        forall m ensures SatClause(m, [x]) <==> f.Holds(m, At(a, v, f.task.End(a))) {
          SatOne(m, x);
        }
      }
    }

    /** Forbid a2 at v from timestep `from` on. */
    method ForbidFrom(a2: int, v: int, from: int, ghost f: Frame)
      requires f == F() && f.Ready() && withAt && 0 <= a2 < agents && 0 <= v < |at[a2]| && at[a2][v].firstVariable != 0
      modifies `clauses
      ensures forall m :: Sat(m, clauses) <==>
        && Sat(m, old(clauses))
        && forall t :: t >= from ==> !f.Holds(m, At(a2, v, t))
      ensures f.Adds(old(clauses), clauses)
    {
      hide Sat, SatClause;
      assert f.AtEntryOk(a2, v, at[a2][v]);
      var t := Max(at[a2][v].firstTimestep, from);
      var end := at[a2][v].lastTimestep + 1;
      while t < end
        invariant f.Adds(old(clauses), clauses)
        invariant t >= at[a2][v].firstTimestep && t >= from
        invariant forall m :: Sat(m, clauses) <==>
          && Sat(m, old(clauses))
          && forall i :: from <= i < t ==> !f.Holds(m, At(a2, v, i))
        decreases end - t
      {
        NumberOf(f, At(a2, v, t));
        AddsOne(f, old(clauses), clauses, [-AtVar(a2, v, t)], 0);
        AddClause([-AtVar(a2, v, t)]);
        forall m ensures SatClause(m, [-AtVar(a2, v, t)]) <==> !f.Holds(m, At(a2, v, t)) {
          SatOne(m, -AtVar(a2, v, t));
        }
        t := t + 1;
      }
    }

    method CreatePossition_NoneAtGoal(ghost f: Frame)
      requires f == F() && f.Ready() && withAt
      modifies `clauses
      ensures forall m :: Sat(m, clauses) <==> Sat(m, old(clauses)) && f.NoneAtGoal(m)
      ensures f.Adds(old(clauses), clauses)
    {
      hide Sat, SatClause;
      for a := 0 to agents
        invariant f.Adds(old(clauses), clauses)
        invariant forall m :: Sat(m, clauses) <==>
          && Sat(m, old(clauses))
          && forall b, b2, t :: 0 <= b < a && 0 <= b2 < agents && t > f.task.End(b) ==>
               !f.Holds(m, At(b2, f.task.Goal(b), t))
      {
        AgentFacts(f.task, a);
        var v := inst.goals[a];
        assert f.AtEntryOk(a, v, at[a][v]);
        ghost var c1 := clauses;
        for a2 := 0 to agents
          invariant f.Adds(old(clauses), clauses)
          invariant forall m :: Sat(m, clauses) <==>
            && Sat(m, c1)
            && forall b2, t :: 0 <= b2 < a2 && t > f.task.End(a) ==> !f.Holds(m, At(b2, v, t))
        {
          assert f.AtEntryOk(a2, v, at[a2][v]);
          if at[a2][v].firstVariable == 0 {
            continue;
          }
          ForbidFrom(a2, v, at[a][v].lastTimestep + 1, f);
        }
      }
    }

    // ----- eager conflicts -----

    method ConfVertexPair(v: int, a1: int, a2: int, ghost f: Frame)
      requires f == F() && f.Ready() && withAt && 0 <= a1 < agents
      requires 0 <= a2 < agents && 0 <= v < |at[a1]| && v < |at[a2]|
      requires at[a1][v].firstVariable != 0 && at[a2][v].firstVariable != 0
      modifies `clauses
      ensures forall m :: Sat(m, clauses) <==>
        && Sat(m, old(clauses))
        && forall t :: !(f.Holds(m, At(a1, v, t)) && f.Holds(m, At(a2, v, t)))
      ensures f.Adds(old(clauses), clauses)
    {
      hide Sat, SatClause;
      assert f.AtEntryOk(a1, v, at[a1][v]) && f.AtEntryOk(a2, v, at[a2][v]);
      var t := Max(at[a1][v].firstTimestep, at[a2][v].firstTimestep);
      var end := Min(at[a1][v].lastTimestep, at[a2][v].lastTimestep) + 1;
      while t < end
        invariant f.Adds(old(clauses), clauses)
        invariant t >= at[a1][v].firstTimestep && t >= at[a2][v].firstTimestep
        invariant forall m :: Sat(m, clauses) <==>
          && Sat(m, old(clauses))
          && forall i :: i < t ==> !(f.Holds(m, At(a1, v, i)) && f.Holds(m, At(a2, v, i)))
        decreases end - t
      {
        Forbid2(AtVar(a1, v, t), AtVar(a2, v, t), At(a1, v, t), At(a2, v, t), f);
        t := t + 1;
      }
    }

    method CreateConf_Vertex(ghost f: Frame)
      requires f == F() && f.Ready() && withAt
      modifies `clauses
      ensures forall m :: Sat(m, clauses) <==> Sat(m, old(clauses)) && f.VertexConf(m)
      ensures f.Adds(old(clauses), clauses)
    {
      hide Sat, SatClause;
      for v := 0 to inst.graph.Size()
        invariant f.Adds(old(clauses), clauses)
        invariant forall m :: Sat(m, clauses) <==>
          && Sat(m, old(clauses))
          && forall a1, a2, w, t :: 0 <= a1 < a2 < agents && w < v ==>
               !(f.Holds(m, At(a1, w, t)) && f.Holds(m, At(a2, w, t)))
      {
        ghost var c1 := clauses;
        for a1 := 0 to agents
          invariant f.Adds(old(clauses), clauses)
          invariant forall m :: Sat(m, clauses) <==>
            && Sat(m, c1)
            && forall b1, a2, t :: 0 <= b1 < a1 && b1 < a2 < agents ==>
                 !(f.Holds(m, At(b1, v, t)) && f.Holds(m, At(a2, v, t)))
        {
          assert f.AtEntryOk(a1, v, at[a1][v]);
          if at[a1][v].firstVariable == 0 {
            continue;
          }
          ghost var c2 := clauses;
          for a2 := a1 + 1 to agents
            invariant f.Adds(old(clauses), clauses)
            invariant forall m :: Sat(m, clauses) <==>
              && Sat(m, c2)
              && forall b2, t :: a1 < b2 < a2 ==> !(f.Holds(m, At(a1, v, t)) && f.Holds(m, At(b2, v, t)))
          {
            assert f.AtEntryOk(a2, v, at[a2][v]);
            if at[a2][v].firstVariable == 0 {
              continue;
            }
            ConfVertexPair(v, a1, a2, f);
          }
        }
      }
    }

    method ConfSwapPair_At(v: int, u: int, a1: int, a2: int, ghost f: Frame)
      requires f == F() && f.Ready() && withAt && 0 <= a1 < agents && 0 <= a2 < agents
      requires 0 <= v < inst.graph.Size() && 0 <= u < inst.graph.Size()
      requires at[a1][v].firstVariable != 0 && at[a1][u].firstVariable != 0
      requires at[a2][v].firstVariable != 0 && at[a2][u].firstVariable != 0
      modifies `clauses
      ensures forall m :: Sat(m, clauses) <==> Sat(m, old(clauses)) && forall t :: !f.SwapAt(m, a1, a2, v, u, t)
      ensures f.Adds(old(clauses), clauses)
    {
      hide Sat, SatClause, Frame.AddsWith;
      assert f.AtEntryOk(a1, v, at[a1][v]) && f.AtEntryOk(a2, v, at[a2][v]);
      assert f.AtEntryOk(a1, u, at[a1][u]) && f.AtEntryOk(a2, u, at[a2][u]);
      var t := Max(Max(at[a1][v].firstTimestep, at[a1][u].firstTimestep - 1),
                   Max(at[a2][u].firstTimestep, at[a2][v].firstTimestep - 1));
      var end := Min(Min(at[a1][v].lastTimestep, at[a1][u].lastTimestep - 1),
                     Min(at[a2][u].lastTimestep, at[a2][v].lastTimestep - 1)) + 1;
      AddsNothing(f, clauses);
      while t < end
        invariant f.Adds(old(clauses), clauses)
        invariant t >= at[a1][v].firstTimestep && t >= at[a1][u].firstTimestep - 1
        invariant t >= at[a2][u].firstTimestep && t >= at[a2][v].firstTimestep - 1
        invariant forall m :: Sat(m, clauses) <==>
          && Sat(m, old(clauses))
          && forall i :: i < t ==> !f.SwapAt(m, a1, a2, v, u, i)
        decreases end - t
      {
        ghost var before := clauses;
        ForbidExchange(v, u, a1, a2, t, f);
        AddsMore(f, old(clauses), before, clauses);
        t := t + 1;
      }
    }

    /** a1 going from v to u and a2 from u to v at t, over their four At variables. */
    method ForbidExchange(v: int, u: int, a1: int, a2: int, t: int, ghost f: Frame)
      requires f == F() && f.Ready() && withAt
      requires f.task.Exists(At(a1, v, t)) && f.task.Exists(At(a1, u, t + 1))
      requires f.task.Exists(At(a2, u, t)) && f.task.Exists(At(a2, v, t + 1))
      modifies `clauses
      ensures forall m :: Sat(m, clauses) <==> Sat(m, old(clauses)) && !f.SwapAt(m, a1, a2, v, u, t)
      ensures f.Adds(old(clauses), clauses)
    {
      hide Sat, SatClause, Frame.AddsWith, Frame.IsNumber;
      assert f.AtEntryOk(a1, v, at[a1][v]) && f.AtEntryOk(a2, v, at[a2][v]);
      assert f.AtEntryOk(a1, u, at[a1][u]) && f.AtEntryOk(a2, u, at[a2][u]);
      var x := [-AtVar(a1, v, t), -AtVar(a1, u, t + 1), -AtVar(a2, v, t + 1), -AtVar(a2, u, t)];
      NumberOf(f, At(a1, v, t));
      NumberOf(f, At(a1, u, t + 1));
      NumberOf(f, At(a2, v, t + 1));
      NumberOf(f, At(a2, u, t));
      AddsNothing(f, clauses);
      AddsOne(f, clauses, clauses, x, 0);
      AddClause(x);
      forall m ensures SatClause(m, x) <==> !f.SwapAt(m, a1, a2, v, u, t) {
        SatFour(m, x[0], x[1], x[2], x[3]);
      }
    }

    method ConfSwapEdge_At(v: int, dir: int, u: int, ghost f: Frame)
      requires f == F() && f.Ready() && withAt && 1 <= dir < 5 && f.task.Leads(v, dir, u)
      modifies `clauses
      ensures forall m :: Sat(m, clauses) <==>
        && Sat(m, old(clauses))
        && forall a1, a2, t :: 0 <= a1 < a2 < agents ==> !f.SwapAt(m, a1, a2, v, u, t)
      ensures f.Adds(old(clauses), clauses)
    {
      hide Sat, SatClause;
      for a1 := 0 to agents
        invariant f.Adds(old(clauses), clauses)
        invariant forall m :: Sat(m, clauses) <==>
          && Sat(m, old(clauses))
          && forall b1, a2, t :: 0 <= b1 < a1 && b1 < a2 < agents ==> !f.SwapAt(m, b1, a2, v, u, t)
      {
        assert f.AtEntryOk(a1, v, at[a1][v]) && f.AtEntryOk(a1, u, at[a1][u]);
        if at[a1][v].firstVariable == 0 || at[a1][u].firstVariable == 0 {
          continue;
        }
        ghost var c1 := clauses;
        for a2 := a1 + 1 to agents
          invariant f.Adds(old(clauses), clauses)
          invariant forall m :: Sat(m, clauses) <==>
            && Sat(m, c1)
            && forall b2, t :: a1 < b2 < a2 ==> !f.SwapAt(m, a1, b2, v, u, t)
        {
          assert f.AtEntryOk(a2, v, at[a2][v]) && f.AtEntryOk(a2, u, at[a2][u]);
          if at[a2][u].firstVariable == 0 || at[a2][v].firstVariable == 0 {
            continue;
          }
          ConfSwapPair_At(v, u, a1, a2, f);
        }
      }
    }

    method CreateConf_Swapping_At(ghost f: Frame)
      requires f == F() && f.Ready() && withAt
      modifies `clauses
      ensures forall m :: Sat(m, clauses) <==> Sat(m, old(clauses)) && f.SwapConfAt(m)
      ensures f.Adds(old(clauses), clauses)
    {
      hide Sat, SatClause, Frame.Holds, Task.Exists;
      for v := 0 to inst.graph.Size()
        invariant f.Adds(old(clauses), clauses)
        invariant forall m :: Sat(m, clauses) <==>
          && Sat(m, old(clauses))
          && forall a1, a2, w, dir, u, t ::
               0 <= a1 < a2 < agents && w < v && 1 <= dir < 5 && f.task.Leads(w, dir, u) ==>
               !f.SwapAt(m, a1, a2, w, u, t)
      {
        ghost var c1 := clauses;
        for dir := 1 to 5
          invariant f.Adds(old(clauses), clauses)
          invariant forall m :: Sat(m, clauses) <==>
            && Sat(m, c1)
            && forall a1, a2, d, u, t :: 0 <= a1 < a2 < agents && 1 <= d < dir && f.task.Leads(v, d, u) ==>
                 !f.SwapAt(m, a1, a2, v, u, t)
        {
          if !inst.graph.HasNeighbor(v, dir) {
            continue;
          }
          assert f.task.Leads(v, dir, inst.graph.GetNeighbor(v, dir));
          ConfSwapEdge_At(v, dir, inst.graph.GetNeighbor(v, dir), f);
        }
      }
    }

    method ConfSwapPair_Pass(v: int, dir: int, u: int, opDir: int, a1: int, a2: int, ghost f: Frame)
      requires f == F() && f.Ready() && variables.UsePass? && 0 <= a1 < agents && 0 <= a2 < agents
      requires f.task.Leads(v, dir, u) && f.task.Leads(u, opDir, v)
      requires pass[a1][v][dir].firstVariable != 0 && pass[a2][u][opDir].firstVariable != 0
      modifies `clauses
      ensures forall m :: Sat(m, clauses) <==>
        && Sat(m, old(clauses))
        && forall t :: !(f.Holds(m, Pass(a1, v, dir, t)) && f.Holds(m, Pass(a2, u, opDir, t)))
      ensures f.Adds(old(clauses), clauses)
    {
      hide Sat, SatClause;
      assert f.PassEntryOk(a1, v, dir, pass[a1][v][dir]) && f.PassEntryOk(a2, u, opDir, pass[a2][u][opDir]);
      var t := Max(pass[a1][v][dir].firstTimestep, pass[a2][u][opDir].firstTimestep);
      var end := Min(pass[a1][v][dir].lastTimestep, pass[a2][u][opDir].lastTimestep) + 1;
      while t < end
        invariant f.Adds(old(clauses), clauses)
        invariant t >= pass[a1][v][dir].firstTimestep && t >= pass[a2][u][opDir].firstTimestep
        invariant forall m :: Sat(m, clauses) <==>
          && Sat(m, old(clauses))
          && forall i :: i < t ==> !(f.Holds(m, Pass(a1, v, dir, i)) && f.Holds(m, Pass(a2, u, opDir, i)))
        decreases end - t
      {
        Forbid2(PassVar(a1, v, dir, t), PassVar(a2, u, opDir, t), Pass(a1, v, dir, t), Pass(a2, u, opDir, t), f);
        t := t + 1;
      }
    }

    method ConfSwapEdge_Pass(v: int, dir: int, ghost f: Frame)
      requires f == F() && f.Ready() && variables.UsePass? && 1 <= dir < 5
      requires f.task.IsVertex(v) && f.task.Neighbor(v, dir) != -1
      modifies `clauses
      ensures forall m :: Sat(m, clauses) <==>
        && Sat(m, old(clauses))
        && forall a1, a2, t :: 0 <= a1 < a2 < agents ==>
             !(f.Holds(m, Pass(a1, v, dir, t)) && f.Holds(m, Pass(a2, f.task.Neighbor(v, dir), OppositeDir(dir), t)))
      ensures f.Adds(old(clauses), clauses)
    {
      hide Sat, SatClause;
      ghost var w, back := f.task.Neighbor(v, dir), OppositeDir(dir);
      NeighborLeads(f.task, v, dir);
      NeighborSymmetry(inst.graph, v, dir, w);
      for a1 := 0 to agents
        invariant f.Adds(old(clauses), clauses)
        invariant forall m :: Sat(m, clauses) <==>
          && Sat(m, old(clauses))
          && forall b1, a2, t :: 0 <= b1 < a1 && b1 < a2 < agents ==>
               !(f.Holds(m, Pass(b1, v, dir, t)) && f.Holds(m, Pass(a2, w, back, t)))
      {
        assert f.PassEntryOk(a1, v, dir, pass[a1][v][dir]);
        if pass[a1][v][dir].firstVariable == 0 {
          continue;
        }
        ghost var c1 := clauses;
        for a2 := a1 + 1 to agents
          invariant f.Adds(old(clauses), clauses)
          invariant forall m :: Sat(m, clauses) <==>
            && Sat(m, c1)
            && forall b2, t :: a1 < b2 < a2 ==>
                 !(f.Holds(m, Pass(a1, v, dir, t)) && f.Holds(m, Pass(b2, w, back, t)))
        {
          var u := inst.graph.GetNeighbor(v, dir);
          var opDir := OppositeDir(dir);
          assert f.PassEntryOk(a2, u, opDir, pass[a2][u][opDir]);
          if pass[a2][u][opDir].firstVariable == 0 {
            continue;
          }
          ConfSwapPair_Pass(v, dir, u, opDir, a1, a2, f);
        }
      }
    }

    method CreateConf_Swapping_Pass(ghost f: Frame)
      requires f == F() && f.Ready() && variables.UsePass?
      modifies `clauses
      ensures forall m :: Sat(m, clauses) <==> Sat(m, old(clauses)) && f.SwapConfPass(m)
      ensures f.Adds(old(clauses), clauses)
    {
      hide Sat, SatClause, Frame.Holds, Task.Exists;
      for v := 0 to inst.graph.Size()
        invariant f.Adds(old(clauses), clauses)
        invariant forall m :: Sat(m, clauses) <==>
          && Sat(m, old(clauses))
          && forall a1, a2, w, dir, u, t ::
               0 <= a1 < a2 < agents && w < v && 1 <= dir < 5 && f.task.Leads(w, dir, u) ==>
               !(f.Holds(m, Pass(a1, w, dir, t)) && f.Holds(m, Pass(a2, u, OppositeDir(dir), t)))
      {
        ghost var c1 := clauses;
        for dir := 1 to 5
          invariant f.Adds(old(clauses), clauses)
          invariant forall m :: Sat(m, clauses) <==>
            && Sat(m, c1)
            && forall a1, a2, d, u, t :: 0 <= a1 < a2 < agents && 1 <= d < dir && f.task.Leads(v, d, u) ==>
                 !(f.Holds(m, Pass(a1, v, d, t)) && f.Holds(m, Pass(a2, u, OppositeDir(d), t)))
        {
          if !inst.graph.HasNeighbor(v, dir) {
            continue;
          }
          ConfSwapEdge_Pass(v, dir, f);
        }
      }
    }

    /** Does edge (v, dir) have a Shift variable at t, and at which index of its timestep list? */
    method FindShift(v: int, dir: int, t: int, ghost f: Frame) returns (found: bool, x: int)
      requires f == F() && f.Ready() && variables.UseShift? && 0 <= v < |shift| && 0 <= dir < 5
      ensures found <==> f.task.Exists(Shift(v, dir, t))
      ensures found ==> x == f.Id(Shift(v, dir, t)) > 0
    {
      assert f.ShiftEntryOk(v, dir, shift[v][dir]);
      var ind := Find(shift[v][dir].timestep, t);
      found := ind != |shift[v][dir].timestep| && shift[v][dir].timestep[ind] == t;
      x := shift[v][dir].firstVariable + ind;
    }

    method CreatePossition_NoneAtGoal_Shift(ghost f: Frame)
      requires f == F() && f.Ready() && variables.UseShift?
      modifies `clauses
      ensures forall m :: Sat(m, clauses) <==> Sat(m, old(clauses)) && f.NoneAtGoalShift(m)
      ensures f.Adds(old(clauses), clauses)
    {
      hide Sat, SatClause, Frame.Holds, Task.Exists;
      for a := 0 to agents
        invariant f.Adds(old(clauses), clauses)
        invariant forall m :: Sat(m, clauses) <==>
          && Sat(m, old(clauses))
          && forall b, dir, t :: 0 <= b < a && 0 <= dir < 5 && t >= f.task.End(b) ==>
               !f.Holds(m, Shift(f.task.Goal(b), dir, t))
      {
        AgentFacts(f.task, a);
        StayAtGoal(a, inst.goals[a], f);
      }
    }

    /** No variable leads away from the goal v of a once it has to be there. */
    method StayAtGoal(a: int, v: int, ghost f: Frame)
      requires f == F() && f.Ready() && variables.UseShift? && 0 <= a < agents
      requires inst.graph.IsVertex(v) && v == f.task.Goal(a)
      modifies `clauses
      ensures forall m :: Sat(m, clauses) <==>
        && Sat(m, old(clauses))
        && forall dir, t :: 0 <= dir < 5 && t >= f.task.End(a) ==> !f.Holds(m, Shift(v, dir, t))
      ensures f.Adds(old(clauses), clauses)
    {
      hide Sat, SatClause;
      AgentFacts(f.task, a);
      assert f.ShiftTimesOk(v);
      hide Frame.Ready;
      if shiftTimesStart[v] == -1 {
        return;
      }
      var last := inst.LastTimestep(a, v, maxTimestep, delta, cost);
      var t := Max(last, shiftTimesStart[v]);
      while t <= shiftTimesEnd[v]
        invariant f.Adds(old(clauses), clauses)
        invariant t >= last && t >= shiftTimesStart[v]
        invariant forall m :: Sat(m, clauses) <==>
          && Sat(m, old(clauses))
          && forall dir, i :: 0 <= dir < 5 && last <= i < t ==> !f.Holds(m, Shift(v, dir, i))
        decreases shiftTimesEnd[v] + 1 - t
      {
        NoneLeaves(v, t, f);
        t := t + 1;
      }
    }

    method NoneLeaves(v: int, t: int, ghost f: Frame)
      requires f == F() && f.Ready() && variables.UseShift? && inst.graph.IsVertex(v)
      modifies `clauses
      ensures forall m :: Sat(m, clauses) <==>
        && Sat(m, old(clauses))
        && forall dir :: 0 <= dir < 5 ==> !f.Holds(m, Shift(v, dir, t))
      ensures f.Adds(old(clauses), clauses)
    {
      hide Sat, SatClause;
      for dir := 0 to 5
        invariant f.Adds(old(clauses), clauses)
        invariant forall m :: Sat(m, clauses) <==>
          && Sat(m, old(clauses))
          && forall d :: 0 <= d < dir ==> !f.Holds(m, Shift(v, d, t))
      {
        if !inst.graph.HasNeighbor(v, dir) {
          continue;
        }
        var found, x := FindShift(v, dir, t, f);
        if found {
          AddClause([-x]);
          forall m ensures SatClause(m, [-x]) <==> !f.Holds(m, Shift(v, dir, t)) {
            SatOne(m, -x);
          }
        }
      }
    }

    method ConfSwapEdge_Shift(v: int, dir: int, u: int, opDir: int, ghost f: Frame)
      requires f == F() && f.Ready() && variables.UseShift? && 0 <= dir < 5 && 0 <= opDir < 5
      requires f.task.Leads(v, dir, u) && f.task.Leads(u, opDir, v)
      modifies `clauses
      ensures forall m :: Sat(m, clauses) <==>
        && Sat(m, old(clauses))
        && forall t :: !(f.Holds(m, Shift(v, dir, t)) && f.Holds(m, Shift(u, opDir, t)))
      ensures f.Adds(old(clauses), clauses)
    {
      hide Sat, SatClause, Frame.AddsWith;
      AddsNothing(f, clauses);
      assert f.ShiftEntryOk(v, dir, shift[v][dir]);
      var ts := shift[v][dir].timestep;
      for i := 0 to |ts|
        invariant f.Adds(old(clauses), clauses)
        invariant forall m :: Sat(m, clauses) <==>
          && Sat(m, old(clauses))
          && forall j :: 0 <= j < i ==> !(f.Holds(m, Shift(v, dir, ts[j])) && f.Holds(m, Shift(u, opDir, ts[j])))
      {
        ghost var before := clauses;
        ForbidOpposite(v, dir, i, u, opDir, f);
        AddsMore(f, old(clauses), before, clauses);
      }
      assert forall t :: f.task.Exists(Shift(v, dir, t)) ==> t in ts;
    }

    /** The i-th shift along an edge excludes the opposite one at that timestep. */
    method ForbidOpposite(v: int, dir: int, i: nat, u: int, opDir: int, ghost f: Frame)
      requires f == F() && f.Ready() && variables.UseShift? && 0 <= dir < 5 && 0 <= opDir < 5
      requires f.task.Leads(v, dir, u) && f.task.Leads(u, opDir, v) && i < |shift[v][dir].timestep|
      modifies `clauses
      ensures
        var t := shift[v][dir].timestep[i];
        forall m :: Sat(m, clauses) <==>
          Sat(m, old(clauses)) && !(f.Holds(m, Shift(v, dir, t)) && f.Holds(m, Shift(u, opDir, t)))
      ensures f.Adds(old(clauses), clauses)
    {
      hide Sat, SatClause, Frame.AddsWith;
      AddsNothing(f, clauses);
      assert f.ShiftEntryOk(v, dir, shift[v][dir]);
      var t := shift[v][dir].timestep[i];
      var found, x := FindShift(u, opDir, t, f);
      if !found {
        return;
      }
      assert Find(shift[v][dir].timestep, t) == i;
      Forbid2(shift[v][dir].firstVariable + i, x, Shift(v, dir, t), Shift(u, opDir, t), f);
    }

    method CreateConf_Swapping_Shift(ghost f: Frame)
      requires f == F() && f.Ready() && variables.UseShift?
      modifies `clauses
      ensures forall m :: Sat(m, clauses) <==> Sat(m, old(clauses)) && f.SwapConfShift(m)
      ensures f.Adds(old(clauses), clauses)
    {
      hide Sat, SatClause, Frame.Holds, Task.Exists;
      for v := 0 to inst.graph.Size()
        invariant f.Adds(old(clauses), clauses)
        invariant forall m :: Sat(m, clauses) <==>
          && Sat(m, old(clauses))
          && forall w, dir, u, back, t ::
               w < v && 2 <= dir < 4 && f.task.Leads(w, dir, u) && back == OppositeDir(dir) ==>
               !(f.Holds(m, Shift(w, dir, t)) && f.Holds(m, Shift(u, back, t)))
      {
        ghost var c1 := clauses;
        for dir := 2 to 4
          invariant f.Adds(old(clauses), clauses)
          invariant forall m :: Sat(m, clauses) <==>
            && Sat(m, c1)
            && forall d, u, back, t :: 2 <= d < dir && f.task.Leads(v, d, u) && back == OppositeDir(d) ==>
                 !(f.Holds(m, Shift(v, d, t)) && f.Holds(m, Shift(u, back, t)))
        {
          if !inst.graph.HasNeighbor(v, dir) {
            continue;
          }
          NeighborSymmetry(inst.graph, v, dir, inst.graph.GetNeighbor(v, dir));
          ConfSwapEdge_Shift(v, dir, inst.graph.GetNeighbor(v, dir), OppositeDir(dir), f);
        }
      }
    }

    method ConfPebblePair_At(v: int, a1: int, a2: int, ghost f: Frame)
      requires f == F() && f.Ready() && withAt && 0 <= a1 < agents && 0 <= a2 < agents && 0 <= v < inst.graph.Size()
      requires at[a1][v].firstVariable != 0 && at[a2][v].firstVariable != 0
      modifies `clauses
      ensures forall m :: Sat(m, clauses) <==>
        && Sat(m, old(clauses))
        && forall s, t :: t == s + 1 ==> !(f.Holds(m, At(a1, v, t)) && f.Holds(m, At(a2, v, s)))
      ensures f.Adds(old(clauses), clauses)
    {
      hide Sat, SatClause;
      assert f.AtEntryOk(a1, v, at[a1][v]) && f.AtEntryOk(a2, v, at[a2][v]);
      var t := Max(at[a1][v].firstTimestep, at[a2][v].firstTimestep + 1);
      var end := Min(at[a1][v].lastTimestep, at[a2][v].lastTimestep + 1) + 1;
      while t < end
        invariant f.Adds(old(clauses), clauses)
        invariant t >= at[a1][v].firstTimestep && t >= at[a2][v].firstTimestep + 1
        invariant forall m :: Sat(m, clauses) <==>
          && Sat(m, old(clauses))
          && forall s, i :: i == s + 1 && i < t ==> !(f.Holds(m, At(a1, v, i)) && f.Holds(m, At(a2, v, s)))
        decreases end - t
      {
        Forbid2(AtVar(a1, v, t), AtVar(a2, v, t - 1), At(a1, v, t), At(a2, v, t - 1), f);
        t := t + 1;
      }
    }

    method CreateConf_Pebble_At(ghost f: Frame)
      requires f == F() && f.Ready() && withAt
      modifies `clauses
      ensures forall m :: Sat(m, clauses) <==> Sat(m, old(clauses)) && f.PebbleConfAt(m)
      ensures f.Adds(old(clauses), clauses)
    {
      hide Sat, SatClause;
      for v := 0 to inst.graph.Size()
        invariant f.Adds(old(clauses), clauses)
        invariant forall m :: Sat(m, clauses) <==>
          && Sat(m, old(clauses))
          && forall a1, a2, w, s, t :: 0 <= a1 < agents && 0 <= a2 < agents && a1 != a2 && w < v && t == s + 1 ==>
               !(f.Holds(m, At(a1, w, t)) && f.Holds(m, At(a2, w, s)))
      {
        ghost var c1 := clauses;
        for a1 := 0 to agents
          invariant f.Adds(old(clauses), clauses)
          invariant forall m :: Sat(m, clauses) <==>
            && Sat(m, c1)
            && forall b1, a2, s, t :: 0 <= b1 < a1 && 0 <= a2 < agents && b1 != a2 && t == s + 1 ==>
                 !(f.Holds(m, At(b1, v, t)) && f.Holds(m, At(a2, v, s)))
        {
          assert f.AtEntryOk(a1, v, at[a1][v]);
          if at[a1][v].firstVariable == 0 {
            continue;
          }
          ghost var c2 := clauses;
          for a2 := 0 to agents
            invariant f.Adds(old(clauses), clauses)
            invariant forall m :: Sat(m, clauses) <==>
              && Sat(m, c2)
              && forall b2, s, t :: 0 <= b2 < a2 && a1 != b2 && t == s + 1 ==>
                   !(f.Holds(m, At(a1, v, t)) && f.Holds(m, At(b2, v, s)))
          {
            if a1 == a2 {
              continue;
            }
            assert f.AtEntryOk(a2, v, at[a2][v]);
            if at[a2][v].firstVariable == 0 {
              continue;
            }
            ConfPebblePair_At(v, a1, a2, f);
          }
        }
      }
    }

    method ConfPebblePair_Pass(v: int, dir: int, u: int, a1: int, a2: int, ghost f: Frame)
      requires f == F() && f.Ready() && withAt && variables.UsePass? && 0 <= a1 < agents && 0 <= a2 < agents
      requires f.task.Leads(v, dir, u)
      requires pass[a1][v][dir].firstVariable != 0 && at[a2][u].firstVariable != 0
      modifies `clauses
      ensures forall m :: Sat(m, clauses) <==>
        && Sat(m, old(clauses))
        && forall t :: !(f.Holds(m, Pass(a1, v, dir, t)) && f.Holds(m, At(a2, u, t)))
      ensures f.Adds(old(clauses), clauses)
    {
      hide Sat, SatClause;
      assert f.PassEntryOk(a1, v, dir, pass[a1][v][dir]) && f.AtEntryOk(a2, u, at[a2][u]);
      var t := Max(pass[a1][v][dir].firstTimestep, at[a2][u].firstTimestep);
      var end := Min(pass[a1][v][dir].lastTimestep, at[a2][u].lastTimestep) + 1;
      while t < end
        invariant f.Adds(old(clauses), clauses)
        invariant t >= pass[a1][v][dir].firstTimestep && t >= at[a2][u].firstTimestep
        invariant forall m :: Sat(m, clauses) <==>
          && Sat(m, old(clauses))
          && forall i :: i < t ==> !(f.Holds(m, Pass(a1, v, dir, i)) && f.Holds(m, At(a2, u, i)))
        decreases end - t
      {
        Forbid2(PassVar(a1, v, dir, t), AtVar(a2, u, t), Pass(a1, v, dir, t), At(a2, u, t), f);
        t := t + 1;
      }
    }

    method ConfPebbleEdge_Pass(v: int, dir: int, u: int, ghost f: Frame)
      requires f == F() && f.Ready() && withAt && variables.UsePass? && 1 <= dir < 5 && f.task.Leads(v, dir, u)
      modifies `clauses
      ensures forall m :: Sat(m, clauses) <==>
        && Sat(m, old(clauses))
        && forall a1, a2, t :: 0 <= a1 < agents && 0 <= a2 < agents && a1 != a2 ==>
             !(f.Holds(m, Pass(a1, v, dir, t)) && f.Holds(m, At(a2, u, t)))
      ensures f.Adds(old(clauses), clauses)
    {
      hide Sat, SatClause;
      for a1 := 0 to agents
        invariant f.Adds(old(clauses), clauses)
        invariant forall m :: Sat(m, clauses) <==>
          && Sat(m, old(clauses))
          && forall b1, a2, t :: 0 <= b1 < a1 && 0 <= a2 < agents && b1 != a2 ==>
               !(f.Holds(m, Pass(b1, v, dir, t)) && f.Holds(m, At(a2, u, t)))
      {
        assert f.PassEntryOk(a1, v, dir, pass[a1][v][dir]);
        if pass[a1][v][dir].firstVariable == 0 {
          continue;
        }
        ghost var c1 := clauses;
        for a2 := 0 to agents
          invariant f.Adds(old(clauses), clauses)
          invariant forall m :: Sat(m, clauses) <==>
            && Sat(m, c1)
            && forall b2, t :: 0 <= b2 < a2 && a1 != b2 ==>
                 !(f.Holds(m, Pass(a1, v, dir, t)) && f.Holds(m, At(b2, u, t)))
        {
          if a1 == a2 {
            continue;
          }
          assert f.AtEntryOk(a2, u, at[a2][u]);
          if at[a2][u].firstVariable == 0 {
            continue;
          }
          ConfPebblePair_Pass(v, dir, u, a1, a2, f);
        }
      }
    }

    method CreateConf_Pebble_Pass(ghost f: Frame)
      requires f == F() && f.Ready() && withAt && variables.UsePass?
      modifies `clauses
      ensures forall m :: Sat(m, clauses) <==> Sat(m, old(clauses)) && f.PebbleConfPass(m)
      ensures f.Adds(old(clauses), clauses)
    {
      hide Sat, SatClause, Frame.Holds, Task.Exists;
      for v := 0 to inst.graph.Size()
        invariant f.Adds(old(clauses), clauses)
        invariant forall m :: Sat(m, clauses) <==>
          && Sat(m, old(clauses))
          && forall a1, a2, w, dir, u, t :: f.task.IsAgent(a1) && f.task.IsAgent(a2) && a1 != a2 && w < v &&
                                            1 <= dir < 5 && f.task.Leads(w, dir, u) ==>
               !(f.Holds(m, Pass(a1, w, dir, t)) && f.Holds(m, At(a2, u, t)))
      {
        ghost var c1 := clauses;
        for dir := 1 to 5
          invariant f.Adds(old(clauses), clauses)
          invariant forall m :: Sat(m, clauses) <==>
            && Sat(m, c1)
            && forall a1, a2, d, u, t :: f.task.IsAgent(a1) && f.task.IsAgent(a2) && a1 != a2 &&
                                         1 <= d < dir && f.task.Leads(v, d, u) ==>
                 !(f.Holds(m, Pass(a1, v, d, t)) && f.Holds(m, At(a2, u, t)))
        {
          if !inst.graph.HasNeighbor(v, dir) {
            continue;
          }
          assert f.task.Leads(v, dir, inst.graph.GetNeighbor(v, dir));
          ConfPebbleEdge_Pass(v, dir, inst.graph.GetNeighbor(v, dir), f);
        }
      }
    }

    /** Nothing moves out of u at t if x, something moving into u at t, holds. */
    method ForbidLeaving(u: int, t: int, vx: int, ghost x: Atom, ghost f: Frame)
      requires f == F() && f.Ready() && variables.UseShift? && 0 <= u < |shift|
      requires f.task.Exists(x) && f.Id(x) == vx > 0
      modifies `clauses
      ensures forall m :: Sat(m, clauses) <==> Sat(m, old(clauses)) && (f.Holds(m, x) ==> f.NothingLeaves(m, u, t))
      ensures f.Adds(old(clauses), clauses)
    {
      hide Sat, SatClause;
      for uDir := 1 to 5
        invariant f.Adds(old(clauses), clauses)
        invariant forall m :: Sat(m, clauses) <==>
          && Sat(m, old(clauses))
          && (f.Holds(m, x) ==> forall d :: 1 <= d < uDir ==> !f.Holds(m, Shift(u, d, t)))
      {
        var found, y := FindShift(u, uDir, t, f);
        if !found {
          continue;
        }
        Forbid2(vx, y, x, Shift(u, uDir, t), f);
      }
    }

    method ConfPebbleEdge_Shift(v: int, dir: int, u: int, ghost f: Frame)
      requires f == F() && f.Ready() && variables.UseShift? && 0 <= dir < 5 && f.task.Leads(v, dir, u)
      modifies `clauses
      ensures forall m :: Sat(m, clauses) <==>
        && Sat(m, old(clauses))
        && forall t :: f.Holds(m, Shift(v, dir, t)) ==> f.NothingLeaves(m, u, t)
      ensures f.Adds(old(clauses), clauses)
    {
      hide Sat, SatClause, Frame.AddsWith;
      AddsNothing(f, clauses);
      assert f.ShiftEntryOk(v, dir, shift[v][dir]);
      var ts := shift[v][dir].timestep;
      for i := 0 to |ts|
        invariant f.Adds(old(clauses), clauses)
        invariant forall m :: Sat(m, clauses) <==>
          && Sat(m, old(clauses))
          && forall j :: 0 <= j < i ==> (f.Holds(m, Shift(v, dir, ts[j])) ==> f.NothingLeaves(m, u, ts[j]))
      {
        ghost var before := clauses;
        assert Find(ts, ts[i]) == i;
        ForbidLeaving(u, ts[i], shift[v][dir].firstVariable + i, Shift(v, dir, ts[i]), f);
        AddsMore(f, old(clauses), before, clauses);
      }
      assert forall t :: f.task.Exists(Shift(v, dir, t)) ==> t in ts;
    }

    method CreateConf_Pebble_Shift(ghost f: Frame)
      requires f == F() && f.Ready() && variables.UseShift?
      modifies `clauses
      ensures forall m :: Sat(m, clauses) <==> Sat(m, old(clauses)) && f.PebbleConfShift(m)
      ensures f.Adds(old(clauses), clauses)
    {
      hide Sat, SatClause, Frame.Holds, Task.Exists;
      for v := 0 to inst.graph.Size()
        invariant f.Adds(old(clauses), clauses)
        invariant forall m :: Sat(m, clauses) <==>
          && Sat(m, old(clauses))
          && forall w, dir, u, t :: w < v && f.task.Leads(w, dir, u) && f.Holds(m, Shift(w, dir, t)) ==>
               f.NothingLeaves(m, u, t)
      {
        ghost var c1 := clauses;
        for dir := 0 to 5
          invariant f.Adds(old(clauses), clauses)
          invariant forall m :: Sat(m, clauses) <==>
            && Sat(m, c1)
            && forall d, u, t :: 0 <= d < dir && f.task.Leads(v, d, u) && f.Holds(m, Shift(v, d, t)) ==>
                 f.NothingLeaves(m, u, t)
        {
          if !inst.graph.HasNeighbor(v, dir) {
            continue;
          }
          assert f.task.Leads(v, dir, inst.graph.GetNeighbor(v, dir));
          ConfPebbleEdge_Shift(v, dir, inst.graph.GetNeighbor(v, dir), f);
        }
      }
    }

    // ----- movement -----

    method CreateMove_NextVertex_At(ghost f: Frame)
      requires f == F() && f.Ready() && withAt
      modifies `clauses
      ensures forall m :: Sat(m, clauses) <==> Sat(m, old(clauses)) && f.NextVertexAt(m)
      ensures f.Adds(old(clauses), clauses)
    {
      hide Sat, SatClause;
      for a := 0 to agents
        invariant f.Adds(old(clauses), clauses)
        invariant forall m :: Sat(m, clauses) <==>
          && Sat(m, old(clauses))
          && forall b, v, t :: b < a && f.Holds(m, At(b, v, t)) && f.HasNextAt(b, v, t) ==> f.MovesTo(m, b, v, t)
      {
        ghost var c1 := clauses;
        for v := 0 to inst.graph.Size()
          invariant f.Adds(old(clauses), clauses)
          invariant forall m :: Sat(m, clauses) <==>
            && Sat(m, c1)
            && forall w, t :: w < v && f.Holds(m, At(a, w, t)) && f.HasNextAt(a, w, t) ==> f.MovesTo(m, a, w, t)
        {
          assert f.AtEntryOk(a, v, at[a][v]);
          if at[a][v].firstVariable == 0 {
            continue;
          }
          MoveFrom_At(a, v, f);
        }
      }
    }

    method MoveFrom_At(a: int, v: int, ghost f: Frame)
      requires f == F() && f.Ready() && withAt && 0 <= a < agents && 0 <= v < inst.graph.Size()
      requires at[a][v].firstVariable != 0
      modifies `clauses
      ensures forall m :: Sat(m, clauses) <==>
        && Sat(m, old(clauses))
        && forall t :: f.Holds(m, At(a, v, t)) && f.HasNextAt(a, v, t) ==> f.MovesTo(m, a, v, t)
      ensures f.Adds(old(clauses), clauses)
    {
      hide Sat, SatClause, Frame.AddsWith, Frame.IsNumber;
      AddsNothing(f, clauses);
      assert f.AtEntryOk(a, v, at[a][v]);
      var t := at[a][v].firstTimestep;
      var end := at[a][v].lastTimestep + 1;
      while t < end
        invariant f.Adds(old(clauses), clauses)
        invariant at[a][v].firstTimestep <= t
        invariant forall m :: Sat(m, clauses) <==>
          && Sat(m, old(clauses))
          && forall i :: i < t && f.Holds(m, At(a, v, i)) && f.HasNextAt(a, v, i) ==> f.MovesTo(m, a, v, i)
        decreases end - t
      {
        var neibs := NextVertices(a, v, t, f);
        if |neibs| > 0 {
          ghost var c := neibs + [-AtVar(a, v, t)];
          NumberOf(f, At(a, v, t));
          AddsOne(f, old(clauses), clauses, c, 0);
          AddClause(neibs + [-AtVar(a, v, t)]);
          forall m ensures SatClause(m, c) <==> (f.Holds(m, At(a, v, t)) ==> f.MovesTo(m, a, v, t)) {
            SatChoice(m, neibs, AtVar(a, v, t));
          }
        }
        t := t + 1;
      }
    }

    /** The numbers of the variables for where a can be right after being at v at t. */
    method NextVertices(a: int, v: int, t: int, ghost f: Frame) returns (neibs: Clause)
      requires f == F() && f.Ready() && withAt && 0 <= a < agents && 0 <= v < inst.graph.Size()
      ensures (forall l :: l in neibs ==> l > 0) && f.Names(neibs)
      ensures |neibs| > 0 <==> f.HasNextAt(a, v, t)
      ensures forall m :: AnyTrue(m, neibs) <==> f.MovesTo(m, a, v, t)
    {
      hide Sat, SatClause;
      neibs := [];
      for dir := 0 to 5
        invariant (forall l :: l in neibs ==> l > 0) && f.Names(neibs)
        invariant |neibs| > 0 <==> exists d, u :: d < dir && f.task.Leads(v, d, u) && f.task.Exists(At(a, u, t + 1))
        invariant forall m :: AnyTrue(m, neibs) <==>
          exists d, u :: d < dir && f.task.Leads(v, d, u) && f.Holds(m, At(a, u, t + 1))
      {
        if !inst.graph.HasNeighbor(v, dir) {
          continue;
        }
        var u := inst.graph.GetNeighbor(v, dir);
        assert f.task.Leads(v, dir, u);
        assert f.AtEntryOk(a, u, at[a][u]);
        if at[a][u].firstVariable == 0 {
          continue;
        }
        if at[a][u].firstTimestep <= t + 1 && at[a][u].lastTimestep >= t + 1 {
          ghost var before := neibs;
          NumberOf(f, At(a, u, t + 1));
          neibs := neibs + [AtVar(a, u, t + 1)];
          forall m ensures AnyTrue(m, neibs) <==> AnyTrue(m, before) || f.Holds(m, At(a, u, t + 1)) {
            AnyTrueAppend(m, before, AtVar(a, u, t + 1));
          }
        }
      }
    }

    method CreateMove_EnterVertex_Pass(ghost f: Frame)
      requires f == F() && f.Ready() && withAt && variables.UsePass?
      modifies `clauses
      ensures forall m :: Sat(m, clauses) <==> Sat(m, old(clauses)) && f.EnterVertexPass(m)
      ensures f.Adds(old(clauses), clauses)
    {
      hide Sat, SatClause;
      for v := 0 to inst.graph.Size()
        invariant f.Adds(old(clauses), clauses)
        invariant forall m :: Sat(m, clauses) <==>
          && Sat(m, old(clauses))
          && forall a, w, dir, u, t :: w < v && f.task.Leads(w, dir, u) && f.Holds(m, Pass(a, w, dir, t)) ==>
               f.Holds(m, At(a, u, t + 1))
      {
        ghost var c1 := clauses;
        for dir := 0 to 5
          invariant f.Adds(old(clauses), clauses)
          invariant forall m :: Sat(m, clauses) <==>
            && Sat(m, c1)
            && forall a, d, u, t :: d < dir && f.task.Leads(v, d, u) && f.Holds(m, Pass(a, v, d, t)) ==>
                 f.Holds(m, At(a, u, t + 1))
        {
          if !inst.graph.HasNeighbor(v, dir) {
            continue;
          }
          var u := inst.graph.GetNeighbor(v, dir);
          assert f.task.Leads(v, dir, u);
          ghost var c2 := clauses;
          for a := 0 to agents
            invariant f.Adds(old(clauses), clauses)
            invariant forall m :: Sat(m, clauses) <==>
              && Sat(m, c2)
              && forall b, t :: b < a && f.Holds(m, Pass(b, v, dir, t)) ==> f.Holds(m, At(b, u, t + 1))
          {
            assert f.PassEntryOk(a, v, dir, pass[a][v][dir]);
            if pass[a][v][dir].firstVariable == 0 {
              continue;
            }
            EnterBy(a, v, dir, u, f);
          }
        }
      }
    }

    method EnterBy(a: int, v: int, dir: int, u: int, ghost f: Frame)
      requires f == F() && f.Ready() && withAt && variables.UsePass? && 0 <= a < agents && f.task.Leads(v, dir, u)
      requires pass[a][v][dir].firstVariable != 0
      modifies `clauses
      ensures forall m :: Sat(m, clauses) <==>
        && Sat(m, old(clauses))
        && forall t :: f.Holds(m, Pass(a, v, dir, t)) ==> f.Holds(m, At(a, u, t + 1))
      ensures f.Adds(old(clauses), clauses)
    {
      hide Sat, SatClause, Frame.IsNumber, Frame.AddsWith;
      AddsNothing(f, clauses);
      assert f.PassEntryOk(a, v, dir, pass[a][v][dir]);
      var t := pass[a][v][dir].firstTimestep;
      var end := pass[a][v][dir].lastTimestep + 1;
      while t < end
        invariant f.Adds(old(clauses), clauses)
        invariant pass[a][v][dir].firstTimestep <= t
        invariant forall m :: Sat(m, clauses) <==>
          && Sat(m, old(clauses))
          && forall i :: i < t && f.Holds(m, Pass(a, v, dir, i)) ==> f.Holds(m, At(a, u, i + 1))
        decreases end - t
      {
        PassWindow(f.task, a, v, dir, u, t);
        assert f.AtEntryOk(a, u, at[a][u]);
        var x, y := PassVar(a, v, dir, t), AtVar(a, u, t + 1);
        NumberOf(f, Pass(a, v, dir, t));
        NumberOf(f, At(a, u, t + 1));
        AddsOne(f, old(clauses), clauses, [-x, y], 0);
        AddClause([-x, y]);
        forall m ensures SatClause(m, [-x, y]) <==> (f.Holds(m, Pass(a, v, dir, t)) ==> f.Holds(m, At(a, u, t + 1))) {
          SatTwo(m, -x, y);
        }
        t := t + 1;
      }
    }

    method CreateMove_NextEdge_Pass(ghost f: Frame)
      requires f == F() && f.Ready() && withAt && variables.UsePass?
      modifies `clauses
      ensures forall m :: Sat(m, clauses) <==> Sat(m, old(clauses)) && f.NextEdgePass(m)
      ensures f.Adds(old(clauses), clauses)
    {
      hide Sat, SatClause;
      for a := 0 to agents
        invariant f.Adds(old(clauses), clauses)
        invariant forall m :: Sat(m, clauses) <==>
          && Sat(m, old(clauses))
          && forall b, v, t :: b < a && f.Holds(m, At(b, v, t)) && f.HasNextPass(b, v, t) ==> f.LeavesBy(m, b, v, t)
      {
        ghost var c1 := clauses;
        for v := 0 to inst.graph.Size()
          invariant f.Adds(old(clauses), clauses)
          invariant forall m :: Sat(m, clauses) <==>
            && Sat(m, c1)
            && forall w, t :: w < v && f.Holds(m, At(a, w, t)) && f.HasNextPass(a, w, t) ==> f.LeavesBy(m, a, w, t)
        {
          assert f.AtEntryOk(a, v, at[a][v]);
          if at[a][v].firstVariable == 0 {
            continue;
          }
          MoveFrom_Pass(a, v, f);
        }
      }
    }

    method MoveFrom_Pass(a: int, v: int, ghost f: Frame)
      requires f == F() && f.Ready() && withAt && variables.UsePass? && 0 <= a < agents && 0 <= v < inst.graph.Size()
      requires at[a][v].firstVariable != 0
      modifies `clauses
      ensures forall m :: Sat(m, clauses) <==>
        && Sat(m, old(clauses))
        && forall t :: f.Holds(m, At(a, v, t)) && f.HasNextPass(a, v, t) ==> f.LeavesBy(m, a, v, t)
      ensures f.Adds(old(clauses), clauses)
    {
      hide Sat, SatClause, Frame.AddsWith, Frame.IsNumber;
      AddsNothing(f, clauses);
      assert f.AtEntryOk(a, v, at[a][v]);
      var t := at[a][v].firstTimestep;
      var end := at[a][v].lastTimestep + 1;
      while t < end
        invariant f.Adds(old(clauses), clauses)
        invariant at[a][v].firstTimestep <= t
        invariant forall m :: Sat(m, clauses) <==>
          && Sat(m, old(clauses))
          && forall i :: i < t && f.Holds(m, At(a, v, i)) && f.HasNextPass(a, v, i) ==> f.LeavesBy(m, a, v, i)
        decreases end - t
      {
        var neibs := NextEdges(a, v, t, f);
        if |neibs| > 0 {
          ghost var c := neibs + [-AtVar(a, v, t)];
          NumberOf(f, At(a, v, t));
          AddsOne(f, old(clauses), clauses, c, 0);
          AddClause(neibs + [-AtVar(a, v, t)]);
          forall m ensures SatClause(m, c) <==> (f.Holds(m, At(a, v, t)) ==> f.LeavesBy(m, a, v, t)) {
            SatChoice(m, neibs, AtVar(a, v, t));
          }
        }
        t := t + 1;
      }
    }

    /** The numbers of the variables for how a can leave v at t. */
    method NextEdges(a: int, v: int, t: int, ghost f: Frame) returns (neibs: Clause)
      requires f == F() && f.Ready() && variables.UsePass? && 0 <= a < agents && 0 <= v < inst.graph.Size()
      ensures (forall l :: l in neibs ==> l > 0) && f.Names(neibs)
      ensures |neibs| > 0 <==> f.HasNextPass(a, v, t)
      ensures forall m :: AnyTrue(m, neibs) <==> f.LeavesBy(m, a, v, t)
    {
      hide Sat, SatClause, Frame.IsNumber;
      neibs := [];
      for dir := 0 to 5
        invariant (forall l :: l in neibs ==> l > 0) && f.Names(neibs)
        invariant |neibs| > 0 <==> exists d :: 0 <= d < dir && f.task.Exists(Pass(a, v, d, t))
        invariant forall m :: AnyTrue(m, neibs) <==> exists d :: 0 <= d < dir && f.Holds(m, Pass(a, v, d, t))
      {
        assert f.PassEntryOk(a, v, dir, pass[a][v][dir]);
        if pass[a][v][dir].firstVariable == 0 {
          continue;
        }
        if pass[a][v][dir].firstTimestep <= t && pass[a][v][dir].lastTimestep >= t {
          ghost var before := neibs;
          NumberOf(f, Pass(a, v, dir, t));
          neibs := neibs + [PassVar(a, v, dir, t)];
          forall m ensures AnyTrue(m, neibs) <==> AnyTrue(m, before) || f.Holds(m, Pass(a, v, dir, t)) {
            AnyTrueAppend(m, before, PassVar(a, v, dir, t));
          }
        }
      }
    }

    /** Pairwise at-most-one over a list of variables, each pair in order. */
    method AtMostOne(vc: seq<int>, ghost f: Frame)
      requires (forall i :: 0 <= i < |vc| ==> vc[i] > 0) && f.Names(vc)
      modifies `clauses
      ensures forall m :: Sat(m, clauses) <==> Sat(m, old(clauses)) && PairwiseFalse(m, vc)
      ensures f.Adds(old(clauses), clauses)
    {
      hide Sat, SatClause;
      for i := 0 to |vc|
        invariant f.Adds(old(clauses), clauses)
        invariant forall m :: Sat(m, clauses) <==>
          && Sat(m, old(clauses))
          && forall i', j :: 0 <= i' < i && i' < j < |vc| ==> !(vc[i'] in m && vc[j] in m)
      {
        ghost var c1 := clauses;
        for j := i + 1 to |vc|
          invariant f.Adds(old(clauses), clauses)
          invariant forall m :: Sat(m, clauses) <==>
            && Sat(m, c1)
            && forall j' :: i < j' < j ==> !(vc[i] in m && vc[j'] in m)
        {
          assert vc[i] in vc && vc[j] in vc && Abs(-vc[i]) == Abs(vc[i]) && Abs(-vc[j]) == Abs(vc[j]);
          AddsOne(f, old(clauses), clauses, [-vc[i], -vc[j]], 0);
          AddClause([-vc[i], -vc[j]]);
          forall m ensures SatClause(m, [-vc[i], -vc[j]]) <==> !(vc[i] in m && vc[j] in m) {
            SatTwo(m, -vc[i], -vc[j]);
          }
        }
      }
    }

    method CreateMove_ExactlyOne_Shift(ghost f: Frame)
      requires f == F() && f.Ready() && variables.UseShift?
      modifies `clauses
      ensures forall m :: Sat(m, clauses) <==> Sat(m, old(clauses)) && f.OneShift(m)
      ensures f.Adds(old(clauses), clauses)
    {
      hide Sat, SatClause;
      for v := 0 to inst.graph.Size()
        invariant f.Adds(old(clauses), clauses)
        invariant forall m :: Sat(m, clauses) <==>
          && Sat(m, old(clauses))
          && forall w, t :: w < v ==> f.OneShiftOut(m, w, t)
      {
        assert f.ShiftTimesOk(v);
        if shiftTimesStart[v] == -1 {
          continue;
        }
        ghost var c1 := clauses;
        var t := shiftTimesStart[v];
        while t <= shiftTimesEnd[v]
          invariant f.Adds(old(clauses), clauses)
          invariant t >= shiftTimesStart[v]
          invariant forall m :: Sat(m, clauses) <==>
            && Sat(m, c1)
            && forall i :: i < t ==> f.OneShiftOut(m, v, i)
          decreases shiftTimesEnd[v] + 1 - t
        {
          OneShiftFrom(v, t, f);
          t := t + 1;
        }
      }
    }

    method OneShiftFrom(v: int, t: int, ghost f: Frame)
      requires f == F() && f.Ready() && variables.UseShift? && 0 <= v < inst.graph.Size()
      modifies `clauses
      ensures forall m :: Sat(m, clauses) <==> Sat(m, old(clauses)) && f.OneShiftOut(m, v, t)
      ensures f.Adds(old(clauses), clauses)
    {
      hide Sat, SatClause;
      var vc := ShiftsOut(v, t, f);
      AtMostOne(vc, f);
    }

    /** The numbers of the variables for shifts out of v at t. */
    method ShiftsOut(v: int, t: int, ghost f: Frame) returns (vc: seq<int>)
      requires f == F() && f.Ready() && variables.UseShift? && 0 <= v < inst.graph.Size()
      ensures (forall i :: 0 <= i < |vc| ==> vc[i] > 0) && f.Names(vc)
      ensures forall m :: PairwiseFalse(m, vc) <==> f.OneShiftOut(m, v, t)
    {
      hide Sat, SatClause;
      vc := [];
      ghost var dirs: seq<int> := [];
      for dir := 0 to 5
        invariant ListsShifts(f, v, t, vc, dirs, dir)
      {
        if !inst.graph.HasNeighbor(v, dir) {
          continue;
        }
        var found, x := FindShift(v, dir, t, f);
        if found {
          vc, dirs := vc + [x], dirs + [dir];
        }
      }
      forall l | l in vc ensures f.IsNumber(Abs(l)) {
        var i :| 0 <= i < |vc| && vc[i] == l;
        NumberOf(f, Shift(v, dirs[i], t));
      }
      forall m ensures PairwiseFalse(m, vc) <==> f.OneShiftOut(m, v, t) {
        PairwiseShifts(f, m, v, t, vc, dirs);
      }
    }

    method CreateMove_NextVertex_Shift(ghost f: Frame)
      requires f == F() && f.Ready() && withAt && variables.UseShift?
      modifies `clauses
      ensures forall m :: Sat(m, clauses) <==> Sat(m, old(clauses)) && f.NextVertexShift(m)
      ensures f.Adds(old(clauses), clauses)
    {
      hide Sat, SatClause;
      for a := 0 to agents
        invariant f.Adds(old(clauses), clauses)
        invariant forall m :: Sat(m, clauses) <==>
          && Sat(m, old(clauses))
          && forall b, v, dir, u, t :: b < a && f.task.Leads(v, dir, u) ==> f.FollowsShift(m, b, v, dir, u, t)
      {
        ghost var c1 := clauses;
        for v := 0 to inst.graph.Size()
          invariant f.Adds(old(clauses), clauses)
          invariant forall m :: Sat(m, clauses) <==>
            && Sat(m, c1)
            && forall w, dir, u, t :: w < v && f.task.Leads(w, dir, u) ==> f.FollowsShift(m, a, w, dir, u, t)
        {
          assert f.AtEntryOk(a, v, at[a][v]);
          if at[a][v].firstVariable == 0 {
            continue;
          }
          ghost var c2 := clauses;
          var t := at[a][v].firstTimestep;
          var end := at[a][v].lastTimestep + 1;
          while t < end
            invariant f.Adds(old(clauses), clauses)
            invariant at[a][v].firstTimestep <= t
            invariant forall m :: Sat(m, clauses) <==>
              && Sat(m, c2)
              && forall dir, u, i :: i < t && f.task.Leads(v, dir, u) ==> f.FollowsShift(m, a, v, dir, u, i)
            decreases end - t
          {
            FollowFrom(a, v, t, f);
            t := t + 1;
          }
        }
      }
    }

    method FollowFrom(a: int, v: int, t: int, ghost f: Frame)
      requires f == F() && f.Ready() && withAt && variables.UseShift? && f.task.Exists(At(a, v, t))
      modifies `clauses
      ensures forall m :: Sat(m, clauses) <==>
        && Sat(m, old(clauses))
        && forall dir, u :: f.task.Leads(v, dir, u) ==> f.FollowsShift(m, a, v, dir, u, t)
      ensures f.Adds(old(clauses), clauses)
    {
      hide Sat, SatClause;
      for dir := 0 to 5
        invariant f.Adds(old(clauses), clauses)
        invariant forall m :: Sat(m, clauses) <==>
          && Sat(m, old(clauses))
          && forall d, u :: d < dir && f.task.Leads(v, d, u) ==> f.FollowsShift(m, a, v, d, u, t)
      {
        if !inst.graph.HasNeighbor(v, dir) {
          continue;
        }
        assert f.task.Leads(v, dir, inst.graph.GetNeighbor(v, dir));
        FollowEdge(a, v, dir, inst.graph.GetNeighbor(v, dir), t, f);
      }
    }

    method FollowEdge(a: int, v: int, dir: int, u: int, t: int, ghost f: Frame)
      requires f == F() && f.Ready() && withAt && variables.UseShift? && f.task.Exists(At(a, v, t))
      requires f.task.Leads(v, dir, u)
      modifies `clauses
      ensures forall m :: Sat(m, clauses) <==> Sat(m, old(clauses)) && f.FollowsShift(m, a, v, dir, u, t)
      ensures f.Adds(old(clauses), clauses)
    {
      hide Sat, SatClause, Frame.AddsWith;
      AddsNothing(f, clauses);
      assert f.AtEntryOk(a, u, at[a][u]) && f.AtEntryOk(a, v, at[a][v]);
      if at[a][u].firstVariable == 0 {
        return;
      }
      if at[a][u].firstTimestep > t + 1 || at[a][u].lastTimestep < t + 1 {
        return;
      }
      var found, s := FindShift(v, dir, t, f);
      if !found {
        return;
      }
      FollowClauses(AtVar(a, v, t), s, AtVar(a, u, t + 1), At(a, v, t), Shift(v, dir, t), At(a, u, t + 1), f);
    }

    /** Where the first variable is true, the other two are equal. */
    method FollowClauses(vx: int, vs: int, vy: int, ghost x: Atom, ghost s: Atom, ghost y: Atom, ghost f: Frame)
      requires f.task.Exists(x) && f.task.Exists(s) && f.task.Exists(y)
      requires f.Id(x) == vx > 0 && f.Id(s) == vs > 0 && f.Id(y) == vy > 0
      modifies `clauses
      ensures forall m :: Sat(m, clauses) <==>
        Sat(m, old(clauses)) && (f.Holds(m, x) ==> (f.Holds(m, s) <==> f.Holds(m, y)))
      ensures f.Adds(old(clauses), clauses)
    {
      hide Sat, SatClause, Frame.AddsWith, Frame.IsNumber, Task.Exists, Frame.Id;
      NumberOf(f, x);
      NumberOf(f, s);
      NumberOf(f, y);
      AddsNothing(f, clauses);
      AddsOne(f, old(clauses), clauses, [-vx, -vs, vy], 0);
      AddClause([-vx, -vs, vy]);
      AddsOne(f, old(clauses), clauses, [-vx, -vy, vs], 0);
      AddClause([-vx, -vy, vs]);
      forall m
        ensures SatClause(m, [-vx, -vs, vy]) && SatClause(m, [-vx, -vy, vs]) <==>
          (f.Holds(m, x) ==> (f.Holds(m, s) <==> f.Holds(m, y)))
      {
        SatThree(m, -vx, -vs, vy);
        SatThree(m, -vx, -vy, vs);
      }
    }

    // ----- no duplicated agents -----

    /** The numbers of the variables for a being anywhere at t. */
    method PlacesOf(a: int, t: int, ghost f: Frame) returns (vars: seq<int>, ghost vs: seq<int>)
      requires f == F() && f.Ready() && withAt && 0 <= a < agents
      ensures ListsPlaces(f, a, t, vars, vs, inst.graph.Size())
    {
      vars, vs := [], [];
      for v := 0 to inst.graph.Size()
        invariant ListsPlaces(f, a, t, vars, vs, v)
      {
        assert f.AtEntryOk(a, v, at[a][v]);
        if at[a][v].firstVariable == 0 {
          continue;
        }
        if at[a][v].firstTimestep > t || at[a][v].lastTimestep < t {
          continue;
        }
        vars, vs := vars + [AtVar(a, v, t)], vs + [v];
      }
    }

    method AddClauses(formula: seq<Clause>)
      modifies `clauses
      ensures clauses == old(clauses) + formula
    {
      for i := 0 to |formula|
        invariant clauses == old(clauses) + formula[..i]
      {
        AddClause(formula[i]);
        assert formula[..i + 1] == formula[..i] + [formula[i]];
      }
      assert formula[..|formula|] == formula;
    }

    /** At most k of the variables, with auxiliary variables from lit on. */
    method AddAtMostK(vars: seq<int>, k: nat, lit: int) returns (lit': int)
      requires lit > 0 && LitsBelow(vars, lit)
      modifies `clauses
      ensures lit' >= lit && (Indep(old(clauses), lit) ==> Indep(clauses, lit'))
      ensures forall m :: Sat(m, clauses) ==> Sat(m, old(clauses)) && Count(m, vars) <= k
      ensures Indep(old(clauses), lit) ==>
        forall m :: Sat(m, old(clauses)) && Count(m, vars) <= k ==> ExtendsTo(m, lit, clauses)
      ensures AddsFresh(old(clauses), clauses, lit, lit') && Mentions(clauses, lit' - 1)
    {
      hide Sat, SatClause;
      var formula, last := EncodeAtMostK(vars, k, lit);
      lit' := last + 1;
      ghost var before := clauses;
      AddClauses(formula);
      FormulaAdded(before, formula, lit, lit');
      BelowIsIndep(formula, lit');
      if Indep(before, lit) {
        IndepMonotone(before, lit, lit');
        IndepAppend(before, formula, lit');
      }
      forall m | Sat(m, clauses) ensures Sat(m, before) && Count(m, vars) <= k {
        SatAppend(m, before, formula);
      }
      forall m | Indep(before, lit) && Sat(m, before) && Count(m, vars) <= k ensures ExtendsTo(m, lit, clauses) {
        var m' :| Agree(m, m', lit) && Sat(m', formula);
        assert Sat(m', before);
        SatAppend(m', before, formula);
      }
    }

    method PlaceOnce(a: int, t: int, lit: int, ghost f: Frame) returns (lit': int)
      requires f == F() && f.Ready() && withAt && 0 <= a < agents && lit > 0 && f.AtomsBelow(lit)
      modifies `clauses
      ensures lit' >= lit && (Indep(old(clauses), lit) ==> Indep(clauses, lit'))
      ensures forall m :: Sat(m, clauses) ==> Sat(m, old(clauses)) && f.InOnePlace(m, a, t)
      ensures Indep(old(clauses), lit) ==>
        forall m :: Sat(m, old(clauses)) && f.InOnePlace(m, a, t) ==> ExtendsTo(m, lit, clauses)
      ensures AddsFresh(old(clauses), clauses, lit, lit')
    {
      hide Sat, SatClause;
      lit' := lit;
      var vars, vs := PlacesOf(a, t, f);
      forall m ensures Count(m, vars) <= 1 <==> f.InOnePlace(m, a, t) {
        PairwisePlaces(f, m, a, t, vars, vs);
        CountPairwise(m, vars);
      }
      if |vars| > 1 {
        forall i | 0 <= i < |vars| ensures 0 < vars[i] < lit {
          assert f.task.Exists(At(a, vs[i], t));
        }
        lit' := AddAtMostK(vars, 1, lit);
      } else {
        forall m ensures Count(m, vars) <= 1 {
          CountPairwise(m, vars);
        }
        assert forall m :: Agree(m, m, lit);
      }
    }

    method CreateMove_NoDuplicates(lit: int, ghost f: Frame) returns (lit': int)
      requires f == F() && f.Ready() && withAt && lit > 0 && f.AtomsBelow(lit)
      modifies `clauses
      ensures lit' >= lit && (Indep(old(clauses), lit) ==> Indep(clauses, lit'))
      ensures forall m :: Sat(m, clauses) ==> Sat(m, old(clauses)) && f.NoDuplicates(m)
      ensures Indep(old(clauses), lit) ==>
        forall m :: Sat(m, old(clauses)) && f.NoDuplicates(m) ==> ExtendsTo(m, lit, clauses)
      ensures AddsFresh(old(clauses), clauses, lit, lit')
    {
      hide Sat, SatClause, Frame.Holds, Task.Exists, AddsFresh;
      AddsNoFresh(clauses, lit);
      lit' := lit;
      SaysPlacedStart(f, clauses, lit);
      for a := 0 to agents
        invariant lit' >= lit && (Indep(old(clauses), lit) ==> Indep(clauses, lit'))
        invariant SaysPlaced(f, old(clauses), clauses, a, 0, lit)
        invariant AddsFresh(old(clauses), clauses, lit, lit')
      {
        for t := 0 to maxTimestep
          invariant lit' >= lit && (Indep(old(clauses), lit) ==> Indep(clauses, lit'))
          invariant SaysPlaced(f, old(clauses), clauses, a, t, lit)
          invariant AddsFresh(old(clauses), clauses, lit, lit')
        {
          ghost var before, lit1 := clauses, lit';
          lit' := PlaceOnce(a, t, lit', f);
          SaysPlacedStep(f, old(clauses), before, clauses, a, t, lit, lit1);
          AddsFreshMore(old(clauses), before, clauses, lit, lit1, lit');
        }
        SaysPlacedNextAgent(f, old(clauses), clauses, a, lit);
      }
      SaysPlacedAll(f, old(clauses), clauses, lit);
    }

    // ----- sum of costs -----

    /** If a is late d timesteps after its shortest arrival then variable lit is true. */
    method LateClauses(how: LateTest, a: int, d: int, lit: int, ghost f: Frame)
      requires f == F() && f.Ready() && cost.SumOfCosts? && 0 <= a < agents && 0 <= d < delta && lit > 0
      requires if how.Entering? then variables.UseShift? else withAt
      modifies `clauses
      ensures forall m :: Sat(m, clauses) <==> Sat(m, old(clauses)) && (f.Late(m, how, a, d) ==> lit in m)
      ensures f.AddsWith(old(clauses), clauses, lit)
    {
      hide Sat, SatClause;
      match how
      case NotAtGoal => LateNotAtGoal(a, d, lit, f);
      case Elsewhere => LateElsewhere(a, d, lit, f);
      case Entering => LateEntering(a, d, lit, f);
    }

    method LateNotAtGoal(a: int, d: int, lit: int, ghost f: Frame)
      requires f == F() && f.Ready() && cost.SumOfCosts? && withAt && 0 <= a < agents && 0 <= d < delta && lit > 0
      modifies `clauses
      ensures forall m :: Sat(m, clauses) <==> Sat(m, old(clauses)) && (f.Late(m, NotAtGoal, a, d) ==> lit in m)
      ensures f.AddsWith(old(clauses), clauses, lit)
    {
      hide Sat, SatClause;
      AgentFacts(f.task, a);
      var goal := inst.goals[a];
      assert f.AtEntryOk(a, goal, at[a][goal]);
      var x := at[a][goal].firstVariable + d;
      assert f.Id(At(a, goal, f.task.First(a, goal) + d)) == x;
      NumberOf(f, At(a, goal, f.task.First(a, goal) + d));
      AddsOne(f, clauses, clauses, [x, lit], lit);
      AddClause([x, lit]);
      forall m ensures SatClause(m, [x, lit]) <==> (f.Late(m, NotAtGoal, a, d) ==> lit in m) {
        SatTwo(m, x, lit);
      }
    }

    method LateElsewhere(a: int, d: int, lit: int, ghost f: Frame)
      requires f == F() && f.Ready() && cost.SumOfCosts? && withAt && 0 <= a < agents && 0 <= d < delta && lit > 0
      modifies `clauses
      ensures forall m :: Sat(m, clauses) <==> Sat(m, old(clauses)) && (f.Late(m, Elsewhere, a, d) ==> lit in m)
      ensures f.AddsWith(old(clauses), clauses, lit)
    {
      hide Sat, Frame.AddsWith, Frame.Holds, Frame.Late;
      AddsWithNothing(f, clauses, lit);
      AgentFacts(f.task, a);
      var goal := inst.goals[a];
      assert f.AtEntryOk(a, goal, at[a][goal]);
      var t := at[a][goal].firstTimestep + d;
      for v := 0 to inst.graph.Size()
        invariant f.AddsWith(old(clauses), clauses, lit)
        invariant forall m :: Sat(m, clauses) <==>
          && Sat(m, old(clauses))
          && forall w :: 0 <= w < v && w != goal && f.Holds(m, At(a, w, t)) ==> lit in m
      {
        if v == goal {
          continue;
        }
        ghost var before := clauses;
        LateElsewhereAt(a, v, t, lit, f);
        AddsWithMore(f, old(clauses), before, clauses, lit);
      }
      forall m: Model
        ensures f.Late(m, Elsewhere, a, d) <==>
          exists w :: 0 <= w < inst.graph.Size() && w != goal && f.Holds(m, At(a, w, t))
      {
        LateIsElsewhere(f, m, a, d, goal, t);
      }
    }

    /** If a is at v at t then variable lit is true. */
    method LateElsewhereAt(a: int, v: int, t: int, lit: int, ghost f: Frame)
      requires f == F() && f.Ready() && withAt && 0 <= a < agents && f.task.IsVertex(v) && lit > 0
      modifies `clauses
      ensures forall m :: Sat(m, clauses) <==> Sat(m, old(clauses)) && (f.Holds(m, At(a, v, t)) ==> lit in m)
      ensures f.AddsWith(old(clauses), clauses, lit)
    {
      hide Sat, SatClause, Frame.AddsWith, Frame.IsNumber;
      AddsWithNothing(f, clauses, lit);
      assert f.AtEntryOk(a, v, at[a][v]);
      if at[a][v].firstVariable == 0 || at[a][v].firstTimestep > t || at[a][v].lastTimestep < t {
        return;
      }
      var x := AtVar(a, v, t);
      NumberOf(f, At(a, v, t));
      AddsOne(f, clauses, clauses, [-x, lit], lit);
      AddClause([-x, lit]);
      forall m ensures SatClause(m, [-x, lit]) <==> (f.Holds(m, At(a, v, t)) ==> lit in m) {
        SatTwo(m, -x, lit);
      }
    }

    method LateEntering(a: int, d: int, lit: int, ghost f: Frame)
      requires f == F() && f.Ready() && cost.SumOfCosts? && variables.UseShift?
      requires 0 <= a < agents && 0 <= d < delta && lit > 0
      modifies `clauses
      ensures forall m :: Sat(m, clauses) <==> Sat(m, old(clauses)) && (f.Late(m, Entering, a, d) ==> lit in m)
      ensures f.AddsWith(old(clauses), clauses, lit)
    {
      hide Sat, Frame.Holds;
      AgentFacts(f.task, a);
      var goal := inst.goals[a];
      var t := inst.FirstTimestep(a, goal) + d;
      for dir := 1 to 5
        invariant f.AddsWith(old(clauses), clauses, lit)
        invariant forall m :: Sat(m, clauses) <==>
          && Sat(m, old(clauses))
          && forall e :: 1 <= e < dir && EntersFrom(f, m, goal, e, t) ==> lit in m
      {
        LateEnteringFrom(goal, dir, t, lit, f);
      }
      forall m ensures f.Late(m, Entering, a, d) <==> exists e :: 1 <= e < 5 && EntersFrom(f, m, goal, e, t) {
        LateIsEntering(f, m, a, d, goal, t);
      }
    }

    /** If something enters the goal from direction dir then variable lit is true. */
    method LateEnteringFrom(goal: int, dir: int, t: int, lit: int, ghost f: Frame)
      requires f == F() && f.Ready() && variables.UseShift? && inst.graph.IsVertex(goal) && 1 <= dir < 5 && lit > 0
      modifies `clauses
      ensures forall m :: Sat(m, clauses) <==> Sat(m, old(clauses)) && (EntersFrom(f, m, goal, dir, t) ==> lit in m)
      ensures f.AddsWith(old(clauses), clauses, lit)
    {
      hide Sat, SatClause;
      if !inst.graph.HasNeighbor(goal, dir) {
        return;
      }
      var u := inst.graph.GetNeighbor(goal, dir);
      assert f.task.Leads(goal, dir, u);
      NeighborSymmetry(inst.graph, goal, dir, u);
      var found, x := FindShift(u, OppositeDir(dir), t, f);
      if found {
        NumberOf(f, Shift(u, OppositeDir(dir), t));
        AddsOne(f, clauses, clauses, [-x, lit], lit);
        AddClause([-x, lit]);
        forall m ensures SatClause(m, [-x, lit]) <==> (f.Holds(m, Shift(u, OppositeDir(dir), t)) ==> lit in m) {
          SatTwo(m, -x, lit);
        }
      }
    }

    /** The lateness variables of one agent, numbered from lit on. */
    method LateAgent(how: LateTest, a: int, lit: int, ghost f: Frame) returns (late: seq<int>)
      requires f == F() && f.Ready() && cost.SumOfCosts? && 0 <= a < agents && lit > 0
      requires if how.Entering? then variables.UseShift? else withAt
      modifies `clauses
      ensures late == LateList(lit, delta)
      ensures forall m :: Sat(m, clauses) <==> Sat(m, old(clauses)) && f.LateChain(m, how, a, lit, delta)
      ensures f.AddsWith(old(clauses), clauses, lit + delta - 1)
    {
      hide Sat, SatClause, Frame.Late, Frame.LateChain, Frame.AddsWith;
      AddsWithNothing(f, clauses, lit + delta - 1);
      late := [];
      assert forall m :: f.LateChain(m, how, a, lit, 0) by {
        ChainStart(f, how, a, lit);
      }
      for d := 0 to delta
        invariant f.AddsWith(old(clauses), clauses, lit + delta - 1)
        invariant late == LateList(lit, d)
        invariant forall m :: Sat(m, clauses) <==> Sat(m, old(clauses)) && f.LateChain(m, how, a, lit, d)
      {
        ghost var before := clauses;
        LateClauses(how, a, d, lit + d, f);
        AddsWithHigher(f, before, clauses, lit + d, lit + delta - 1);
        AddsWithMore(f, old(clauses), before, clauses, lit + delta - 1);
        if d < delta - 1 {
          AddsOne(f, old(clauses), clauses, [lit + d, -(lit + d + 1)], lit + delta - 1);
          AddClause([lit + d, -(lit + d + 1)]);
          forall m ensures SatClause(m, [lit + d, -(lit + d + 1)]) <==> (Node(m, lit, d + 1) ==> Node(m, lit, d)) {
            SatTwo(m, lit + d, -(lit + d + 1));
          }
        }
        late := late + [lit + d];
        ChainStep(f, how, a, lit, d);
      }
    }

    /** One round of the loop over the agents: lateness variables lit, ..., lit + delta - 1. */
    method LateNext(how: LateTest, a: int, lit: int, lates: seq<int>, ghost lit0: int, ghost c0: seq<Clause>,
                    ghost f: Frame)
      returns (lates': seq<int>, lit': int)
      requires f == F() && f.Ready() && cost.SumOfCosts? && 0 <= a < agents
      requires if how.Entering? then variables.UseShift? else withAt
      requires 0 < lit0 <= lit && f.AtomsBelow(lit0) && LitsBelow(lates, lit)
      requires Indep(c0, lit0) ==> Indep(clauses, lit)
      requires c0 <= clauses && (Below(c0, lit0) ==> Below(clauses, lit))
      requires SaysLate(f, how, c0, clauses, a, lates, lit0)
      modifies `clauses
      ensures lit' >= lit && LitsBelow(lates', lit') && (Indep(c0, lit0) ==> Indep(clauses, lit'))
      ensures SaysLate(f, how, c0, clauses, a + 1, lates', lit0)
      ensures c0 <= clauses && (Below(c0, lit0) ==> Below(clauses, lit'))
    {
      ghost var before := clauses;
      var late := LateAgent(how, a, lit, f);
      lates', lit' := lates + late, lit + delta;
      assert f.AtomsBelow(lit);
      SaysLateStep(f, how, c0, before, clauses, a, lates, lit0, lit);
      LateListBelow(lit, delta);
      LitsBelowAppend(lates, late, lit, lit');
      if Indep(c0, lit0) {
        LateIndep(f, how, a, lit, lit', before, clauses);
      }
    }

    /** The shared shape of CreateConst_LimitSoc, CreateConst_LimitSoc_AllAt and CreateConst_LimitSoc_Shift. */
    method LimitSocBy(how: LateTest, lit: int, ghost f: Frame) returns (lit': int)
      requires f == F() && f.Ready() && cost.SumOfCosts? && lit > 0 && f.AtomsBelow(lit)
      requires if how.Entering? then variables.UseShift? else withAt
      modifies `clauses
      ensures lit' >= lit && (Indep(old(clauses), lit) ==> Indep(clauses, lit'))
      ensures forall m :: Sat(m, clauses) ==> Sat(m, old(clauses)) && f.LimitSoc(m, how)
      ensures Indep(old(clauses), lit) ==>
        forall m :: Sat(m, old(clauses)) && f.LimitSoc(m, how) ==> ExtendsTo(m, lit, clauses)
      ensures AddsFresh(old(clauses), clauses, lit, lit')
    {
      hide Sat, SatClause, SaysLate, Indep, ExtendsTo, Frame.LimitSoc, Frame.AtomsBelow, Task.Valid;
      var lateVariables: seq<int> := [];
      lit' := lit;
      SaysLateStart(f, how, clauses, lit);
      for a := 0 to agents
        invariant lit' >= lit && LitsBelow(lateVariables, lit')
        invariant Indep(old(clauses), lit) ==> Indep(clauses, lit')
        invariant old(clauses) <= clauses && (Below(old(clauses), lit) ==> Below(clauses, lit'))
        invariant SaysLate(f, how, old(clauses), clauses, a, lateVariables, lit)
      {
        lateVariables, lit' := LateNext(how, a, lit', lateVariables, lit, old(clauses), f);
      }
      ghost var before, lit1 := clauses, lit';
      lit' := AddAtMostK(lateVariables, delta, lit');
      SaysLimited(f, how, old(clauses), before, clauses, lateVariables, lit, lit1);
    }

    method CreateConst_LimitSoc(lit: int, ghost f: Frame) returns (lit': int)
      requires f == F() && f.Ready() && withAt && cost.SumOfCosts?
      requires lit > 0 && f.AtomsBelow(lit)
      modifies `clauses
      ensures lit' >= lit && (Indep(old(clauses), lit) ==> Indep(clauses, lit'))
      ensures forall m :: Sat(m, clauses) ==> Sat(m, old(clauses)) && f.LimitSoc(m, NotAtGoal)
      ensures Indep(old(clauses), lit) ==>
        forall m :: Sat(m, old(clauses)) && f.LimitSoc(m, NotAtGoal) ==> ExtendsTo(m, lit, clauses)
      ensures AddsFresh(old(clauses), clauses, lit, lit')
    {
      hide Sat, SatClause;
      lit' := LimitSocBy(NotAtGoal, lit, f);
    }

    method CreateConst_LimitSoc_AllAt(lit: int, ghost f: Frame) returns (lit': int)
      requires f == F() && f.Ready() && withAt && cost.SumOfCosts?
      requires lit > 0 && f.AtomsBelow(lit)
      modifies `clauses
      ensures lit' >= lit && (Indep(old(clauses), lit) ==> Indep(clauses, lit'))
      ensures forall m :: Sat(m, clauses) ==> Sat(m, old(clauses)) && f.LimitSoc(m, Elsewhere)
      ensures Indep(old(clauses), lit) ==>
        forall m :: Sat(m, old(clauses)) && f.LimitSoc(m, Elsewhere) ==> ExtendsTo(m, lit, clauses)
      ensures AddsFresh(old(clauses), clauses, lit, lit')
    {
      hide Sat, SatClause;
      lit' := LimitSocBy(Elsewhere, lit, f);
    }

    method CreateConst_LimitSoc_Shift(lit: int, ghost f: Frame) returns (lit': int)
      requires f == F() && f.Ready() && variables.UseShift? && cost.SumOfCosts?
      requires lit > 0 && f.AtomsBelow(lit)
      modifies `clauses
      ensures lit' >= lit && (Indep(old(clauses), lit) ==> Indep(clauses, lit'))
      ensures forall m :: Sat(m, clauses) ==> Sat(m, old(clauses)) && f.LimitSoc(m, Entering)
      ensures Indep(old(clauses), lit) ==>
        forall m :: Sat(m, old(clauses)) && f.LimitSoc(m, Entering) ==> ExtendsTo(m, lit, clauses)
      ensures AddsFresh(old(clauses), clauses, lit, lit')
    {
      hide Sat, SatClause;
      lit' := LimitSocBy(Entering, lit, f);
    }

    // ----- conflict clauses on demand -----

    /** The direction from v to u, as the on-demand generators look it up. */
    method DirectionTo(v: int, u: int) returns (dir: int, opDir: int)
      requires inst.graph.Valid() && inst.graph.IsVertex(v) && v != u && inst.graph.Adjacent(v, u)
      ensures 1 <= dir < 5 && inst.graph.Leads(v, dir, u)
      ensures opDir == OppositeDir(dir) && inst.graph.Leads(u, opDir, v) && 0 <= opDir < 5
      ensures forall d :: 1 <= d < 5 && inst.graph.Leads(v, d, u) ==> d == dir
    {
      dir, opDir := -1, -1;
      var d := 1;
      while d < 5
        invariant 1 <= d <= 5
        invariant dir == -1 ==> forall e :: 1 <= e < d ==> !inst.graph.Leads(v, e, u)
        invariant dir != -1 ==> 1 <= dir < 5 && inst.graph.Leads(v, dir, u) && opDir == OppositeDir(dir)
      {
        if inst.graph.GetNeighbor(v, d) == u {
          dir := d;
          opDir := OppositeDir(dir);
          break;
        }
        d := d + 1;
      }
      var e :| 0 <= e < 5 && inst.graph.Leads(v, e, u);
      NeighborSymmetry(inst.graph, v, dir, u);
      forall d | 1 <= d < 5 && inst.graph.Leads(v, d, u) ensures d == dir {
        DirectionUnique(inst.graph, v, d, dir, u);
      }
    }

    /** The numbers are computed without a look at the windows. */
    method CreateConf_Vertex_OnDemand(conflicts: seq<Conflict>, ghost f: Frame)
      requires f == F() && f.Ready() && withAt
      requires forall c :: c in conflicts ==> c.VertexC? && (Expressible(f.task, c) || AtSharedGoal(f.task, c))
      modifies `clauses
      ensures forall m :: Sat(m, clauses) <==> Sat(m, old(clauses)) && forall c :: c in conflicts ==> f.Demands(m, c)
      ensures old(clauses) <= clauses
      ensures (forall c :: c in conflicts ==> Expressible(f.task, c)) ==> f.Adds(old(clauses), clauses)
    {
      hide Sat, SatClause;
      for i := 0 to |conflicts|
        invariant old(clauses) <= clauses
        invariant (forall c :: c in conflicts[..i] ==> Expressible(f.task, c)) ==> f.Adds(old(clauses), clauses)
        invariant forall m :: Sat(m, clauses) <==>
          && Sat(m, old(clauses))
          && forall c :: c in conflicts[..i] ==> f.Demands(m, c)
      {
        var c := conflicts[i];
        assert conflicts[..i + 1] == conflicts[..i] + [c];
        ForbidMeeting(c, f);
      }
      assert conflicts[..|conflicts|] == conflicts;
    }

    method ForbidMeeting(c: Conflict, ghost f: Frame)
      requires f == F() && f.Ready() && withAt
      requires c.VertexC? && (Expressible(f.task, c) || AtSharedGoal(f.task, c))
      modifies `clauses
      ensures forall m :: Sat(m, clauses) <==> Sat(m, old(clauses)) && f.Demands(m, c)
      ensures old(clauses) <= clauses && (Expressible(f.task, c) ==> f.Adds(old(clauses), clauses))
    {
      hide Sat, SatClause, Frame.AddsWith, Frame.IsNumber;
      var VertexC(a1, a2, v, t) := c;
      AgentFacts(f.task, a1);
      AgentFacts(f.task, a2);
      assert f.AtEntryOk(a1, v, at[a1][v]) && f.AtEntryOk(a2, v, at[a2][v]);
      var x := [-AtVar(a1, v, t), -AtVar(a2, v, t)];
      AddsNothing(f, clauses);
      PrefixOne(clauses, x);
      if Expressible(f.task, c) {
        NumberOf(f, At(a1, v, t));
        NumberOf(f, At(a2, v, t));
        AddsOne(f, clauses, clauses, x, 0);
      }
      AddClause(x);
      forall m ensures SatClause(m, x) <==> f.Demands(m, c) {
        SatTwo(m, x[0], x[1]);
      }
    }

    method CreateConf_Swapping_OnDemand(conflicts: seq<Conflict>, ghost f: Frame)
      requires f == F() && f.Ready() && withAt
      requires forall c :: c in conflicts ==> c.SwapC? && Expressible(f.task, c)
      modifies `clauses
      ensures forall m :: Sat(m, clauses) <==> Sat(m, old(clauses)) && forall c :: c in conflicts ==> f.Respects(m, c)
      ensures f.Adds(old(clauses), clauses)
    {
      hide Sat, SatClause, Frame.Holds, Task.Exists;
      for i := 0 to |conflicts|
        invariant f.Adds(old(clauses), clauses)
        invariant forall m :: Sat(m, clauses) <==>
          && Sat(m, old(clauses))
          && forall c :: c in conflicts[..i] ==> f.Respects(m, c)
      {
        var c := conflicts[i];
        assert conflicts[..i + 1] == conflicts[..i] + [c];
        ForbidSwap(c, f);
      }
      assert conflicts[..|conflicts|] == conflicts;
    }

    method ForbidSwap(c: Conflict, ghost f: Frame)
      requires f == F() && f.Ready() && withAt && c.SwapC? && Expressible(f.task, c)
      modifies `clauses
      ensures forall m :: Sat(m, clauses) <==> Sat(m, old(clauses)) && f.Respects(m, c)
      ensures f.Adds(old(clauses), clauses)
    {
      hide Sat, SatClause;
      match variables
      case UseAt => ForbidSwap_At(c, f);
      case UsePass => ForbidSwap_Pass(c, f);
      case UseShift => ForbidSwap_Shift(c, f);
    }

    method ForbidSwap_At(c: Conflict, ghost f: Frame)
      requires f == F() && f.Ready() && withAt && variables.UseAt? && c.SwapC? && Expressible(f.task, c)
      modifies `clauses
      ensures forall m :: Sat(m, clauses) <==> Sat(m, old(clauses)) && f.Respects(m, c)
      ensures f.Adds(old(clauses), clauses)
    {
      hide Sat, SatClause;
      var SwapC(a1, a2, v, u, t) := c;
      ForbidExchange(v, u, a1, a2, t, f);
    }

    method ForbidSwap_Pass(c: Conflict, ghost f: Frame)
      requires f == F() && f.Ready() && withAt && variables.UsePass? && c.SwapC? && Expressible(f.task, c)
      modifies `clauses
      ensures forall m :: Sat(m, clauses) <==> Sat(m, old(clauses)) && f.Respects(m, c)
      ensures f.Adds(old(clauses), clauses)
    {
      hide Sat, SatClause;
      var SwapC(a1, a2, v, u, t) := c;
      var dir, opDir := DirectionTo(v, u);
      PassWindow(f.task, a1, v, dir, u, t);
      PassWindow(f.task, a2, u, opDir, v, t);
      assert f.PassEntryOk(a1, v, dir, pass[a1][v][dir]) && f.PassEntryOk(a2, u, opDir, pass[a2][u][opDir]);
      Forbid2(PassVar(a1, v, dir, t), PassVar(a2, u, opDir, t), Pass(a1, v, dir, t), Pass(a2, u, opDir, t), f);
    }

    method ForbidSwap_Shift(c: Conflict, ghost f: Frame)
      requires f == F() && f.Ready() && withAt && variables.UseShift? && c.SwapC? && Expressible(f.task, c)
      modifies `clauses
      ensures forall m :: Sat(m, clauses) <==> Sat(m, old(clauses)) && f.Respects(m, c)
      ensures f.Adds(old(clauses), clauses)
    {
      hide Sat, SatClause;
      var SwapC(a1, a2, v, u, t) := c;
      var dir, opDir := DirectionTo(v, u);
      ShiftWindow(f.task, a1, v, dir, u, t);
      ShiftWindow(f.task, a2, u, opDir, v, t);
      var found1, x := FindShift(v, dir, t, f);
      var found2, y := FindShift(u, opDir, t, f);
      assert found1 && found2;
      Forbid2(x, y, Shift(v, dir, t), Shift(u, opDir, t), f);
    }

    method CreateConf_Pebble_OnDemand(conflicts: seq<Conflict>, ghost f: Frame)
      requires f == F() && f.Ready() && withAt
      requires forall c :: c in conflicts ==> c.PebbleC? && Expressible(f.task, c)
      modifies `clauses
      ensures forall m :: Sat(m, clauses) <==> Sat(m, old(clauses)) && forall c :: c in conflicts ==> f.Respects(m, c)
      ensures f.Adds(old(clauses), clauses)
    {
      hide Sat, SatClause, Frame.Holds, Task.Exists;
      for i := 0 to |conflicts|
        invariant f.Adds(old(clauses), clauses)
        invariant forall m :: Sat(m, clauses) <==>
          && Sat(m, old(clauses))
          && forall c :: c in conflicts[..i] ==> f.Respects(m, c)
      {
        var c := conflicts[i];
        assert conflicts[..i + 1] == conflicts[..i] + [c];
        ForbidPebble(c, f);
      }
      assert conflicts[..|conflicts|] == conflicts;
    }

    method ForbidPebble(c: Conflict, ghost f: Frame)
      requires f == F() && f.Ready() && withAt && c.PebbleC? && Expressible(f.task, c)
      modifies `clauses
      ensures forall m :: Sat(m, clauses) <==> Sat(m, old(clauses)) && f.Respects(m, c)
      ensures f.Adds(old(clauses), clauses)
    {
      hide Sat, SatClause;
      match variables
      case UseAt => ForbidPebble_At(c, f);
      case UsePass => ForbidPebble_Pass(c, f);
      case UseShift => ForbidPebble_Shift(c, f);
    }

    method ForbidPebble_At(c: Conflict, ghost f: Frame)
      requires f == F() && f.Ready() && withAt && variables.UseAt? && c.PebbleC? && Expressible(f.task, c)
      modifies `clauses
      ensures forall m :: Sat(m, clauses) <==> Sat(m, old(clauses)) && f.Respects(m, c)
      ensures f.Adds(old(clauses), clauses)
    {
      hide Sat, SatClause;
      var PebbleC(a1, a2, v, u, t) := c;
      assert f.AtEntryOk(a1, u, at[a1][u]) && f.AtEntryOk(a2, u, at[a2][u]);
      Forbid2(AtVar(a1, u, t), AtVar(a2, u, t - 1), At(a1, u, t), At(a2, u, t - 1), f);
    }

    method ForbidPebble_Pass(c: Conflict, ghost f: Frame)
      requires f == F() && f.Ready() && withAt && variables.UsePass? && c.PebbleC? && Expressible(f.task, c)
      modifies `clauses
      ensures forall m :: Sat(m, clauses) <==> Sat(m, old(clauses)) && f.Respects(m, c)
      ensures f.Adds(old(clauses), clauses)
    {
      hide Sat, SatClause;
      var PebbleC(a1, a2, v, u, t) := c;
      var dir, opDir := DirectionTo(v, u);
      PassWindow(f.task, a1, v, dir, u, t - 1);
      assert f.PassEntryOk(a1, v, dir, pass[a1][v][dir]) && f.AtEntryOk(a2, u, at[a2][u]);
      Forbid2(PassVar(a1, v, dir, t - 1), AtVar(a2, u, t - 1), Pass(a1, v, dir, t - 1), At(a2, u, t - 1), f);
      forall m ensures !(f.Holds(m, Pass(a1, v, dir, t - 1)) && f.Holds(m, At(a2, u, t - 1))) <==> f.Respects(m, c) {
        assert f.task.Leads(v, dir, u);
      }
    }

    method ForbidPebble_Shift(c: Conflict, ghost f: Frame)
      requires f == F() && f.Ready() && withAt && variables.UseShift? && c.PebbleC? && Expressible(f.task, c)
      modifies `clauses
      ensures forall m :: Sat(m, clauses) <==> Sat(m, old(clauses)) && f.Respects(m, c)
      ensures f.Adds(old(clauses), clauses)
    {
      hide Sat, SatClause;
      var PebbleC(a1, a2, v, u, t) := c;
      var dir, opDir := DirectionTo(v, u);
      ShiftWindow(f.task, a1, v, dir, u, t - 1);
      var found, x := FindShift(v, dir, t - 1, f);
      assert found;
      ForbidLeaving(u, t - 1, x, Shift(v, dir, t - 1), f);
      forall m ensures (f.Holds(m, Shift(v, dir, t - 1)) ==> f.NothingLeaves(m, u, t - 1)) <==> f.Respects(m, c) {
        assert f.task.Leads(v, dir, u);
      }
    }

    // ----- variables -----

    method CreateAt(lit: int, timesteps: nat) returns (lit': int, ghost owner: Owner)
      requires lit > 0 && withAt && Task(inst, agents, cost, delta, timesteps, variables, withAt).Valid()
      modifies `at, `maxTimestep
      ensures maxTimestep == timesteps && F().AtTable()
      ensures lit <= lit' && Owns(F(), owner, lit, lit', At(0, 0, 0))
    {
      hide Task.Valid;
      maxTimestep := timesteps;
      ghost var f := F();
      var table: seq<seq<TEGAgent>> := [];
      lit', owner := lit, map[];
      for a := 0 to agents
        invariant maxTimestep == timesteps && |table| == a && lit <= lit'
        invariant a > 0 ==> AtFilled(f, table, a - 1, inst.graph.Size())
        invariant Owned(owner, AtDone(f.task, a, 0), x => AtId(table, x), lit, lit')
      {
        AgentFacts(f.task, a);
        AtNextRow(f, table, owner, a, lit, lit');
        table := table + [[]];
        table, lit', owner := CreateAtRow(a, table, lit', timesteps, lit, owner, f);
        AtRowDone(f, table, owner, a, lit, lit');
      }
      at := table;
      AtOwnedComplete(F(), owner, lit, lit');
    }

    /** The cells of one agent. */
    method CreateAtRow(a: int, table: seq<seq<TEGAgent>>, lit: int, timesteps: nat, ghost lit0: int, ghost owner: Owner,
                       ghost f: Frame)
      returns (table': seq<seq<TEGAgent>>, lit': int, ghost owner': Owner)
      requires f.task == Task(inst, agents, cost, delta, timesteps, variables, withAt) && f.task.Valid() && withAt
      requires 0 <= a < agents && |table| == a + 1 && 0 < lit0 <= lit && AtFilled(f, table, a, 0)
      requires Owned(owner, AtDone(f.task, a, 0), x => AtId(table, x), lit0, lit)
      ensures |table'| == a + 1 && lit <= lit' && AtFilled(f, table', a, inst.graph.Size())
      ensures Owned(owner', AtDone(f.task, a, inst.graph.Size()), x => AtId(table', x), lit0, lit')
    {
      hide Owned, AtDone, AtId, Frame.AtEntryOk;
      table', lit', owner' := table, lit, owner;
      for v := 0 to inst.graph.Size()
        invariant |table'| == a + 1 && lit <= lit'
        invariant AtFilled(f, table', a, v)
        invariant Owned(owner', AtDone(f.task, a, v), x => AtId(table', x), lit0, lit')
      {
        var e := AtEntry(a, v, timesteps, lit', f);
        owner' := AtBlock(f, table', owner', lit0, lit', a, v, e);
        table' := table'[a := table'[a] + [e]];
        if e.firstVariable != 0 {
          lit' := lit' + (e.lastTimestep - e.firstTimestep + 1);
        }
      }
    }

    method AtEntry(a: int, v: int, timesteps: nat, lit: int, ghost f: Frame) returns (e: TEGAgent)
      requires f.task == Task(inst, agents, cost, delta, timesteps, variables, withAt) && f.task.Valid()
      requires 0 <= a < agents && 0 <= v < inst.graph.Size() && lit > 0
      ensures f.AtEntryOk(a, v, e) && (e.firstVariable == 0 || e.firstVariable == lit)
    {
      AgentFacts(f.task, a);
      if inst.FirstTimestep(a, v) <= inst.LastTimestep(a, v, timesteps, delta, cost) {
        e := TEGAgent(lit, inst.FirstTimestep(a, v), inst.LastTimestep(a, v, timesteps, delta, cost));
      } else {
        e := TEGAgent(0, 0, 0);
      }
    }

    method CreatePass(lit: int, timesteps: nat) returns (lit': int, ghost owner: Owner)
      requires lit > 0 && variables.UsePass? && maxTimestep == timesteps && CurrentTask().Valid()
      modifies `pass
      ensures F().PassTable()
      ensures lit <= lit' && Owns(F(), owner, lit, lit', Pass(0, 0, 0, 0))
    {
      hide Task.Valid;
      ghost var f := F();
      var table: seq<seq<seq<TEGAgent>>> := [];
      lit', owner := lit, map[];
      for a := 0 to agents
        invariant |table| == a && lit <= lit' && PassComplete(f, table, a)
        invariant Owned(owner, PassDone(f.task, a, 0, 0), x => PassId(table, x), lit, lit')
      {
        ghost var before := table;
        table := table + [[]];
        PassNextRow(f, before, table, owner, a, 0, lit, lit');
        for v := 0 to inst.graph.Size()
          invariant |table| == a + 1 && |table[a]| == v && lit <= lit' && PassComplete(f, table[..a], a)
          invariant forall w :: 0 <= w < v ==> PassRow(f, a, w, table[a][w])
          invariant Owned(owner, PassDone(f.task, a, v, 0), x => PassId(table, x), lit, lit')
        {
          ghost var next := table[a := table[a] + [[]]];
          PassNextRow(f, table, next, owner, a, v, lit, lit');
          table := table[a := table[a] + [[]]];
          table, lit', owner := CreatePassCell(a, v, table, lit', timesteps, lit, owner, f);
          PassCellDone(f, table, owner, a, v, lit, lit');
        }
        PassRowDone(f, table, owner, a, lit, lit');
        assert table == table[..a] + [table[a]];
      }
      pass := table;
      PassOwnedComplete(F(), owner, lit, lit');
    }

    /** The five directions of one cell of one agent. */
    method CreatePassCell(a: int, v: int, table: seq<seq<seq<TEGAgent>>>, lit: int, timesteps: nat, ghost lit0: int,
                          ghost owner: Owner, ghost f: Frame)
      returns (table': seq<seq<seq<TEGAgent>>>, lit': int, ghost owner': Owner)
      requires f.task == CurrentTask() && f.task.Valid() && variables.UsePass? && maxTimestep == timesteps
      requires 0 <= a < agents && inst.graph.IsVertex(v) && 0 < lit0 <= lit && PassFilled(f, table, a, v, 0)
      requires Owned(owner, PassDone(f.task, a, v, 0), x => PassId(table, x), lit0, lit)
      ensures lit <= lit' && PassFilled(f, table', a, v, 5)
      ensures Owned(owner', PassDone(f.task, a, v, 5), x => PassId(table', x), lit0, lit')
    {
      hide Owned, PassDone, PassId, Frame.PassEntryOk;
      table', lit', owner' := table, lit, owner;
      for dir := 0 to 5
        invariant lit <= lit' && PassFilled(f, table', a, v, dir)
        invariant Owned(owner', PassDone(f.task, a, v, dir), x => PassId(table', x), lit0, lit')
      {
        var e := PassEntry(a, v, dir, timesteps, lit', f);
        owner' := PassBlock(f, table', owner', lit0, lit', a, v, dir, e);
        table' := table'[a := table'[a][v := table'[a][v] + [e]]];
        if e.firstVariable != 0 {
          lit' := lit' + (e.lastTimestep - e.firstTimestep + 1);
        }
      }
    }

    method PassEntry(a: int, v: int, dir: int, timesteps: nat, lit: int, ghost f: Frame) returns (e: TEGAgent)
      requires f.task == Task(inst, agents, cost, delta, timesteps, variables, withAt) && f.task.Valid()
      requires 0 <= a < agents && 0 <= v < inst.graph.Size() && 0 <= dir < 5 && lit > 0
      ensures f.PassEntryOk(a, v, dir, e) && (e.firstVariable == 0 || e.firstVariable == lit)
    {
      AgentFacts(f.task, a);
      if !inst.graph.HasNeighbor(v, dir) {
        return TEGAgent(0, 0, 0);
      }
      var last := inst.LastTimestep(a, inst.graph.GetNeighbor(v, dir), timesteps, delta, cost);
      if inst.FirstTimestep(a, v) < last {
        e := TEGAgent(lit, inst.FirstTimestep(a, v), last - 1);
      } else {
        e := TEGAgent(0, 0, 0);
      }
    }

    /** Can any agent traverse the edge at t? */
    method AnyTraverses(v: int, dir: int, t: int, timesteps: nat, ghost f: Frame) returns (can: bool)
      requires f.task == CurrentTask() && f.task.Valid() && variables.UseShift? && timesteps == maxTimestep
      requires inst.graph.IsVertex(v) && 0 <= dir < 5 && inst.graph.HasNeighbor(v, dir) && 0 <= t < timesteps
      ensures can <==> f.task.Exists(Shift(v, dir, t))
    {
      can := false;
      for a := 0 to agents
        invariant !can && forall b :: 0 <= b < a ==> !f.task.CanTraverse(b, v, dir, t)
      {
        AgentFacts(f.task, a);
        if inst.FirstTimestep(a, v) <= t &&
          inst.LastTimestep(a, inst.graph.GetNeighbor(v, dir), timesteps, delta, cost) > t {
          assert f.task.CanTraverse(a, v, dir, t);
          return true;
        }
      }
    }

    /** The timestep list of edge (v, dir), whose variables are numbered from lit on. */
    method FillShift(table: seq<seq<ShiftVariables>>, lit: int, v: int, dir: int, timesteps: nat, start: int, end: int,
                     ghost owner: Owner, ghost lo: int, ghost f: Frame)
      returns (table': seq<seq<ShiftVariables>>, lit': int, start': int, end': int, ghost owner': Owner)
      requires f.task == CurrentTask() && f.task.Valid() && variables.UseShift? && timesteps == maxTimestep
      requires inst.graph.IsVertex(v) && 0 <= dir < 5 && |table| == v + 1 && |table[v]| == dir + 1
      requires table[v][dir] == ShiftVariables(lit, []) && 0 < lo <= lit
      requires Owned(owner, ShiftDone(f.task, v, dir, 0), x => ShiftId(table, x), lo, lit)
      requires ShiftBracket(f.task, v, dir, 0, start, end)
      ensures |table'| == v + 1 && |table'[v]| == dir + 1 && lit <= lit'
      ensures table'[..v] == table[..v] && table'[v][..dir] == table[v][..dir]
      ensures f.ShiftEntryOk(v, dir, table'[v][dir])
      ensures Owned(owner', ShiftDone(f.task, v, dir, f.task.timesteps), x => ShiftId(table', x), lo, lit')
      ensures ShiftBracket(f.task, v, dir, f.task.timesteps, start', end')
    {
      hide ShiftBracket;
      table', lit', start', end', owner' := table, lit, start, end, owner;
      for t := 0 to timesteps
        invariant |table'| == v + 1 && |table'[v]| == dir + 1 && lit <= lit'
        invariant table'[..v] == table[..v] && table'[v][..dir] == table[v][..dir]
        invariant ShiftFilling(f, v, dir, table'[v][dir], t)
        invariant lit' == table'[v][dir].firstVariable + |table'[v][dir].timestep|
        invariant Owned(owner', ShiftDone(f.task, v, dir, t), x => ShiftId(table', x), lo, lit')
        invariant ShiftBracket(f.task, v, dir, t, start', end')
      {
        hide ShiftBracket, Owned, ShiftDone, ShiftId;
        FillingStep(f, v, dir, table'[v][dir], t);
        var can := false;
        if inst.graph.HasNeighbor(v, dir) {
          can := AnyTraverses(v, dir, t, timesteps, f);
        }
        BracketStep(f.task, v, dir, t, start', end', can);
        if can {
          owner' := ShiftOne(f, table', owner', lo, lit', v, dir, t);
          table' := table'[v := table'[v][dir := table'[v][dir].(timestep := table'[v][dir].timestep + [t])]];
          lit' := lit' + 1;
          if start' == -1 || start' > t {
            start' := t;
          }
          if end' < t {
            end' := t;
          }
        } else {
          ShiftSkip(f, table', owner', lo, lit', v, dir, t);
        }
      }
    }

    /** The five edges of one cell. */
    method FillShiftRow(table: seq<seq<ShiftVariables>>, lit: int, v: int, timesteps: nat, ghost owner: Owner,
                        ghost lo: int,
                        ghost f: Frame)
      returns (table': seq<seq<ShiftVariables>>, lit': int, start: int, end: int, ghost owner': Owner)
      requires f.task == CurrentTask() && f.task.Valid() && variables.UseShift? && timesteps == maxTimestep
      requires inst.graph.IsVertex(v) && |table| == v + 1 && |table[v]| == 0 && 0 < lo <= lit
      requires Owned(owner, ShiftDone(f.task, v, 0, 0), x => ShiftId(table, x), lo, lit)
      ensures |table'| == v + 1 && table'[..v] == table[..v] && lit <= lit'
      ensures ShiftRow(f, v, table'[v]) && ShiftBracket(f.task, v, 5, 0, start, end)
      ensures Owned(owner', ShiftDone(f.task, v + 1, 0, 0), x => ShiftId(table', x), lo, lit')
    {
      hide Task.Valid, Frame.ShiftEntryOk;
      table', lit', owner' := table, lit, owner;
      start, end := -1, -1;
      for dir := 0 to 5
        invariant |table'| == v + 1 && |table'[v]| == dir && lit <= lit'
        invariant table'[..v] == table[..v]
        invariant forall d :: 0 <= d < dir ==> f.ShiftEntryOk(v, d, table'[v][d])
        invariant Owned(owner', ShiftDone(f.task, v, dir, 0), x => ShiftId(table', x), lo, lit')
        invariant ShiftBracket(f.task, v, dir, 0, start, end)
      {
        hide Owned, ShiftDone, ShiftId, ShiftBracket;
        ghost var row := table'[v];
        ShiftNextDir(f, table', owner', lo, lit', v, dir);
        table' := table'[v := table'[v] + [ShiftVariables(lit', [])]];
        table', lit', start, end, owner' := FillShift(table', lit', v, dir, timesteps, start, end, owner', lo, f);
        ShiftDirDone(f, table', owner', lo, lit', v, dir);
        assert table'[v][..dir] == row;
        forall d | 0 <= d < dir + 1 ensures f.ShiftEntryOk(v, d, table'[v][d]) {
          assert d < dir ==> table'[v][d] == row[d];
        }
      }
      ShiftRowDone(f, table', owner', lo, lit', v);
    }

    method CreateShift(lit: int, timesteps: nat) returns (lit': int, ghost owner: Owner)
      requires lit > 0 && variables.UseShift? && Task(inst, agents, cost, delta, timesteps, variables, withAt).Valid()
      modifies `shift, `shiftTimesStart, `shiftTimesEnd, `maxTimestep
      ensures maxTimestep == timesteps && F().ShiftTable()
      ensures |shiftTimesStart| == |shiftTimesEnd| == inst.graph.Size()
      ensures forall v :: 0 <= v < inst.graph.Size() ==>
        TightBracket(F().task, v, shiftTimesStart[v], shiftTimesEnd[v])
      ensures lit <= lit' && Owns(F(), owner, lit, lit', Shift(0, 0, 0))
    {
      hide Task.Valid, Frame.ShiftTable;
      maxTimestep := timesteps;
      ghost var f := F();
      var table: seq<seq<ShiftVariables>> := [];
      var starts: seq<int>, ends: seq<int> := [], [];
      lit', owner := lit, map[];
      for v := 0 to inst.graph.Size()
        invariant maxTimestep == timesteps && |table| == |starts| == |ends| == v && lit <= lit'
        invariant forall w :: 0 <= w < v ==> ShiftRow(f, w, table[w])
        invariant forall w :: 0 <= w < v ==> ShiftBracket(f.task, w, 5, 0, starts[w], ends[w])
        invariant Owned(owner, ShiftDone(f.task, v, 0, 0), x => ShiftId(table, x), lit, lit')
      {
        ShiftNextRow(f, table, owner, lit, lit', v);
        ghost var before := table;
        var start, end;
        table, lit', start, end, owner := FillShiftRow(table + [[]], lit', v, timesteps, owner, lit, f);
        starts, ends := starts + [start], ends + [end];
        forall w | 0 <= w < v + 1 ensures ShiftRow(f, w, table[w]) {
          assert w < v ==> table[w] == before[w];
        }
      }
      shift, shiftTimesStart, shiftTimesEnd := table, starts, ends;
      ghost var g := F();
      ShiftTableComplete(f, g);
      forall v | 0 <= v < inst.graph.Size() ensures TightBracket(g.task, v, starts[v], ends[v]) {
        assert ShiftBracket(f.task, v, 5, 0, starts[v], ends[v]);
      }
      ShiftOwnedComplete(g, owner, lit, lit');
    }

    method CreateMove_ExactlyOneIncoming_Shift(ghost f: Frame)
      requires f == F() && f.Ready() && variables.UseShift?
      modifies `clauses
      ensures forall m :: Sat(m, clauses) <==> Sat(m, old(clauses)) && f.OneIncomingShift(m)
      ensures f.Adds(old(clauses), clauses)
    {
      hide Sat, SatClause;
      for v := 0 to inst.graph.Size()
        invariant f.Adds(old(clauses), clauses)
        invariant forall m :: Sat(m, clauses) <==>
          && Sat(m, old(clauses))
          && forall w, t :: w < v ==> f.OneShiftIn(m, w, t)
      {
        ghost var c1 := clauses;
        var minT, maxT := IncomingTimes(v, f);
        var t := minT;
        while t <= maxT
          invariant f.Adds(old(clauses), clauses)
          invariant t >= minT
          invariant forall m :: Sat(m, clauses) <==>
            && Sat(m, c1)
            && forall i :: minT <= i < t ==> f.OneShiftIn(m, v, i)
          decreases maxT + 1 - t
        {
          OneShiftInto(v, t, f);
          t := t + 1;
        }
        forall m, i | i < minT || i >= t ensures f.OneShiftIn(m, v, i) {
        }
      }
      forall m, w, t | w < 0 || w >= inst.graph.Size() ensures f.OneShiftIn(m, w, t) {
      }
    }

    /** The timesteps between which anything can move into v. */
    method IncomingTimes(v: int, ghost f: Frame) returns (minT: int, maxT: int)
      requires f == F() && f.Ready() && variables.UseShift? && 0 <= v < inst.graph.Size()
      ensures forall dir, t :: 0 <= dir < 5 && f.task.Neighbor(v, dir) != -1 && f.task.Exists(f.Incoming(v, dir, t)) ==>
        minT <= t <= maxT
    {
      minT, maxT := 0x7fff_ffff, -1;
      for dir := 0 to 5
        invariant forall d, t :: 0 <= d < dir && f.task.Neighbor(v, d) != -1 && f.task.Exists(f.Incoming(v, d, t)) ==>
          minT <= t <= maxT
      {
        if !inst.graph.HasNeighbor(v, dir) {
          continue;
        }
        var u := inst.graph.GetNeighbor(v, dir);
        NeighborSymmetry(inst.graph, v, dir, u);
        assert f.ShiftTimesOk(u);
        if shiftTimesStart[u] == -1 {
          continue;
        }
        minT := Min(minT, shiftTimesStart[u]);
        maxT := Max(maxT, shiftTimesEnd[u]);
      }
    }

    /** The at-most-one clauses are added again for every prefix of the list. */
    method OneShiftInto(v: int, t: int, ghost f: Frame)
      requires f == F() && f.Ready() && variables.UseShift? && 0 <= v < inst.graph.Size()
      modifies `clauses
      ensures forall m :: Sat(m, clauses) <==> Sat(m, old(clauses)) && f.OneShiftIn(m, v, t)
      ensures f.Adds(old(clauses), clauses)
    {
      hide Sat, SatClause;
      var vc: seq<int> := [];
      ghost var dirs: seq<int> := [];
      for dir := 0 to 5
        invariant f.Adds(old(clauses), clauses)
        invariant ListsIncoming(f, v, t, vc, dirs, dir)
        invariant forall m :: Sat(m, clauses) <==> Sat(m, old(clauses)) && PairwiseFalse(m, vc)
      {
        if !inst.graph.HasNeighbor(v, dir) {
          continue;
        }
        ghost var before := vc;
        vc, dirs := AddIncoming(v, dir, t, vc, dirs, f);
        assert forall m :: PairwiseFalse(m, vc) ==> PairwiseFalse(m, before);
        if |vc| == 0 {
          continue;
        }
        IncomingNames(f, v, t, vc, dirs, dir + 1);
        ghost var c1 := clauses;
        AtMostOne(vc, f);
        AddsMore(f, old(clauses), c1, clauses);
      }
      forall m ensures PairwiseFalse(m, vc) <==> f.OneShiftIn(m, v, t) {
        PairwiseIncoming(f, m, v, t, vc, dirs);
      }
    }

    method AddIncoming(v: int, dir: int, t: int, vc: seq<int>, ghost dirs: seq<int>, ghost f: Frame)
      returns (vc': seq<int>, ghost dirs': seq<int>)
      requires f == F() && f.Ready() && variables.UseShift? && 0 <= v < inst.graph.Size() && 0 <= dir < 5
      requires inst.graph.HasNeighbor(v, dir) && ListsIncoming(f, v, t, vc, dirs, dir)
      ensures vc <= vc' && ListsIncoming(f, v, t, vc', dirs', dir + 1)
    {
      var u := inst.graph.GetNeighbor(v, dir);
      NeighborSymmetry(inst.graph, v, dir, u);
      var found, x := FindShift(u, OppositeDir(dir), t, f);
      vc', dirs' := vc, dirs;
      if found {
        vc', dirs' := vc + [x], dirs + [dir];
      }
    }

    // ----- the found plan -----

    /** Turn the -1 suffixes into goals and drop the columns in which every agent is at its goal. */
    method NormalizePlan() returns (maxT: int)
      requires |plan| <= |inst.goals| && forall a :: 0 <= a < |plan| ==> inst.goals[a] != -1
      modifies `plan
      ensures plan == Normalized(old(plan), inst.goals)
      ensures maxT == FinalTimestep(old(plan), inst.goals, |old(plan)|)
    {
      hide FinalTimestep, Filled;
      maxT := FillPlan();
      ghost var filled := plan;
      for a := 0 to |plan|
        invariant |plan| == |filled|
        invariant forall b :: 0 <= b < a ==> plan[b] == Resize(filled[b], maxT)
        invariant plan[a..] == filled[a..]
      {
        plan := plan[a := Resize(plan[a], maxT)];
      }
    }

    /** The backward scans of all rows. */
    method FillPlan() returns (maxT: int)
      requires |plan| <= |inst.goals| && forall a :: 0 <= a < |plan| ==> inst.goals[a] != -1
      modifies `plan
      ensures plan == FilledPlan(old(plan), inst.goals)
      ensures maxT == FinalTimestep(old(plan), inst.goals, |old(plan)|)
    {
      hide Tail, Filled;
      maxT := 1;
      var n := |plan|;
      ghost var goals, plan0 := inst.goals, plan;
      for a := 0 to n
        invariant |plan| == n && maxT == FinalTimestep(plan0, goals, a)
        invariant forall b :: 0 <= b < a ==> plan[b] == Filled(plan0[b], goals[b])
        invariant forall b :: a <= b < n ==> plan[b] == plan0[b]
      {
        var row, away := FillRow(plan[a], inst.goals[a]);
        plan := plan[a := row];
        if away >= 0 {
          maxT := Max(maxT, away + 2);
        }
      }
    }

    /** The backward scan of one row; `away` is the last timestep away from the goal, or -1. */
    static method FillRow(row: seq<int>, goal: int) returns (row': seq<int>, away: int)
      requires goal != -1
      ensures row' == Filled(row, goal) && away == Tail(row, goal) - 1
    {
      row' := row;
      var t := |row| - 1;
      while t >= 0
        invariant -1 <= t < |row| == |row'|
        invariant forall i :: 0 <= i <= t ==> row'[i] == row[i]
        invariant forall i :: t < i < |row| ==> row'[i] == goal && (row[i] == goal || row[i] == -1)
      {
        if row'[t] == -1 {
          row' := row'[t := goal];
        }
        if row'[t] != goal {
          TailUnique(row, goal, t + 1);
          return row', t;
        }
        t := t - 1;
      }
      TailUnique(row, goal, 0);
      away := -1;
    }
  }
}
