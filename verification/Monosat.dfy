/**
 * The MonoSAT formulas of src/encodings/SMT_encoding.cpp: movement as reachability in a graph whose edges are
 * switched on by variables, and what such a formula says about plans.
 */
module Monosat {
  import opened Cnf
  import opened Encodings
  import opened Windows

  // ----- graphs with switched edges -----

  datatype Edge = Edge(from: int, to: int, lit: int)

  ghost predicate TrueEdge(m: Model, edges: seq<Edge>, x: int, y: int) {
    exists e :: e in edges && e.from == x && e.to == y && e.lit in m
  }

  ghost predicate EdgePath(m: Model, edges: seq<Edge>, p: seq<int>) {
    |p| > 0 && forall i, j :: 0 <= i < |p| - 1 && j == i + 1 ==> TrueEdge(m, edges, p[i], p[j])
  }

  /** MonoSAT's reachability: a path of edges whose variables are true. */
  ghost predicate Reaches(m: Model, edges: seq<Edge>, x: int, y: int) {
    exists p :: EdgePath(m, edges, p) && p[0] == x && p[|p| - 1] == y
  }

  /** A node of the time-expanded graph: v at t, entering or (when vertices are split) leaving. */
  datatype TimeNode = TimeNode(v: int, t: int, out: bool)

  datatype Arc = Arc(from: TimeNode, to: TimeNode, lit: int)

  ghost predicate TrueArc(m: Model, arcs: seq<Arc>, x: TimeNode, y: TimeNode) {
    exists r :: r in arcs && r.from == x && r.to == y && r.lit in m
  }

  ghost predicate ArcPath(m: Model, arcs: seq<Arc>, p: seq<TimeNode>) {
    |p| > 0 && forall i, j :: 0 <= i < |p| - 1 && j == i + 1 ==> TrueArc(m, arcs, p[i], p[j])
  }

  ghost predicate ArcReaches(m: Model, arcs: seq<Arc>, x: TimeNode, y: TimeNode) {
    exists p :: ArcPath(m, arcs, p) && p[0] == x && p[|p| - 1] == y
  }

  // ----- naming the nodes -----

  /** The dictionary of VarToID: distinct keys have distinct numbers below next. */
  ghost predicate Dictionary(dict: map<int, int>, next: int) {
    && (forall k :: k in dict ==> 0 <= dict[k] < next)
    && (forall k1, k2 :: k1 in dict && k2 in dict && dict[k1] == dict[k2] ==> k1 == k2)
  }

  /** The edges are the arcs with their nodes numbered through key and dict. */
  ghost predicate Named(edges: seq<Edge>, arcs: seq<Arc>, key: TimeNode -> int, dict: map<int, int>) {
    && |edges| == |arcs|
    && forall i :: 0 <= i < |arcs| ==>
         && key(arcs[i].from) in dict && key(arcs[i].to) in dict
         && edges[i] == Edge(dict[key(arcs[i].from)], dict[key(arcs[i].to)], arcs[i].lit)
  }

  /** Nodes in dom have distinct keys, and the arcs run between nodes in dom. */
  ghost predicate Distinguishes(key: TimeNode -> int, dom: TimeNode -> bool, arcs: seq<Arc>) {
    && (forall x, y {:trigger dom(x), dom(y)} :: dom(x) && dom(y) && key(x) == key(y) ==> x == y)
    && (forall r :: r in arcs ==> dom(r.from) && dom(r.to))
  }

  lemma NamedEdge(m: Model, edges: seq<Edge>, arcs: seq<Arc>, key: TimeNode -> int, dict: map<int, int>, x: TimeNode,
                  y: TimeNode)
    requires Named(edges, arcs, key, dict) && TrueArc(m, arcs, x, y)
    ensures key(x) in dict && key(y) in dict && TrueEdge(m, edges, dict[key(x)], dict[key(y)])
  {
    var r :| r in arcs && r.from == x && r.to == y && r.lit in m;
    var i :| 0 <= i < |arcs| && arcs[i] == r;
    assert edges[i] in edges;
  }

  lemma NamedArc(m: Model, edges: seq<Edge>, arcs: seq<Arc>, key: TimeNode -> int, dom: TimeNode -> bool,
                 dict: map<int, int>,
                 next: int, x: TimeNode, b: int) returns (y: TimeNode)
    requires Named(edges, arcs, key, dict) && Dictionary(dict, next) && Distinguishes(key, dom, arcs)
    requires dom(x) && key(x) in dict && TrueEdge(m, edges, dict[key(x)], b)
    ensures dom(y) && key(y) in dict && dict[key(y)] == b && TrueArc(m, arcs, x, y)
  {
    var e :| e in edges && e.from == dict[key(x)] && e.to == b && e.lit in m;
    var i :| 0 <= i < |edges| && edges[i] == e;
    y := arcs[i].to;
    assert arcs[i] in arcs;
    assert arcs[i].from == x;
  }

  lemma {:induction false} LiftPath(m: Model, edges: seq<Edge>, arcs: seq<Arc>, key: TimeNode -> int,
                                    dom: TimeNode -> bool,
                                    dict: map<int, int>, next: int, p: seq<int>, x: TimeNode) returns (q: seq<TimeNode>)
    requires Named(edges, arcs, key, dict) && Dictionary(dict, next) && Distinguishes(key, dom, arcs)
    requires EdgePath(m, edges, p) && dom(x) && key(x) in dict && p[0] == dict[key(x)]
    ensures ArcPath(m, arcs, q) && |q| == |p| && q[0] == x
    ensures dom(q[|q| - 1]) && key(q[|q| - 1]) in dict && dict[key(q[|q| - 1])] == p[|p| - 1]
  {
    if |p| == 1 {
      q := [x];
    } else {
      var n := |p| - 1;
      q := LiftPath(m, edges, arcs, key, dom, dict, next, p[..n], x);
      var y := NamedArc(m, edges, arcs, key, dom, dict, next, q[n - 1], p[n]);
      q := q + [y];
    }
  }

  /** Numbering the nodes keeps reachability, because it is injective. */
  lemma NamingKeepsReachability(m: Model, edges: seq<Edge>, arcs: seq<Arc>, key: TimeNode -> int, dom: TimeNode -> bool,
                                dict: map<int, int>, next: int, x: TimeNode, y: TimeNode)
    requires Named(edges, arcs, key, dict) && Dictionary(dict, next) && Distinguishes(key, dom, arcs)
    requires dom(x) && dom(y) && key(x) in dict && key(y) in dict
    ensures Reaches(m, edges, dict[key(x)], dict[key(y)]) <==> ArcReaches(m, arcs, x, y)
  {
    if Reaches(m, edges, dict[key(x)], dict[key(y)]) {
      var p :| EdgePath(m, edges, p) && p[0] == dict[key(x)] && p[|p| - 1] == dict[key(y)];
      var q := LiftPath(m, edges, arcs, key, dom, dict, next, p, x);
      assert q[|q| - 1] == y;
    }
    if ArcReaches(m, arcs, x, y) {
      var q :| ArcPath(m, arcs, q) && q[0] == x && q[|q| - 1] == y;
      var p := NumberPath(m, edges, arcs, key, dict, q);
      assert p[0] == dict[key(x)];
    }
  }

  lemma {:induction false} NumberPath(m: Model, edges: seq<Edge>, arcs: seq<Arc>, key: TimeNode -> int,
                                      dict: map<int, int>,
                                      q: seq<TimeNode>) returns (p: seq<int>)
    requires Named(edges, arcs, key, dict) && ArcPath(m, arcs, q) && key(q[0]) in dict
    ensures EdgePath(m, edges, p) && |p| == |q| && p[0] == dict[key(q[0])]
    ensures key(q[|q| - 1]) in dict && p[|p| - 1] == dict[key(q[|q| - 1])]
  {
    if |q| == 1 {
      p := [dict[key(q[0])]];
    } else {
      var n := |q| - 1;
      p := NumberPath(m, edges, arcs, key, dict, q[..n]);
      assert q[..n][n - 1] == q[n - 1];
      NamedEdge(m, edges, arcs, key, dict, q[n - 1], q[n]);
      p := p + [dict[key(q[n])]];
    }
  }

  // ----- the pairing function -----

  function Triangle(s: int): int { s * (s + 1) / 2 }

  /** Cantor's pairing function, as written in the graph builder. */
  function Cantor(v: int, t: int): int { (v + t) * (v + t + 1) / 2 + t }

  lemma TriangleStep(s: nat)
    ensures Triangle(s + 1) == Triangle(s) + s + 1
  {
    assert (s + 1) * (s + 1 + 1) == s * (s + 1) + 2 * (s + 1);
  }

  lemma {:induction false} TriangleMonotone(s: nat, r: nat)
    requires s <= r
    ensures Triangle(s) <= Triangle(r)
  {
    if s < r {
      TriangleMonotone(s, r - 1);
      TriangleStep(r - 1);
    }
  }

  /** The pairing is injective on cells and timesteps, at every size. */
  lemma CantorInjective(v1: nat, t1: nat, v2: nat, t2: nat)
    requires Cantor(v1, t1) == Cantor(v2, t2)
    ensures v1 == v2 && t1 == t2
  {
    var s1, s2 := v1 + t1, v2 + t2;
    assert Cantor(v1, t1) == Triangle(s1) + t1 && Cantor(v2, t2) == Triangle(s2) + t2;
    TriangleStep(s1);
    TriangleStep(s2);
    if s1 < s2 {
      TriangleMonotone(s1 + 1, s2);
    } else if s2 < s1 {
      TriangleMonotone(s2 + 1, s1);
    }
  }

  // ----- the graph over Shift variables -----

  /** The model lets something move from v to u at t. */
  ghost predicate ShiftTo(f: Frame, m: Model, v: int, u: int, t: int) {
    exists dir :: 0 <= dir < 5 && f.task.Leads(v, dir, u) && f.Holds(m, Shift(v, dir, t))
  }

  ghost predicate ShiftWalk(f: Frame, m: Model, w: seq<int>) {
    |w| > 0 && forall t, s :: 0 <= t < |w| - 1 && s == t + 1 ==> ShiftTo(f, m, w[t], w[s], t)
  }

  /** The w of agent a: from its start to its goal at its last timestep. */
  ghost predicate IsShiftPath(f: Frame, m: Model, a: int, w: seq<int>) {
    |w| == f.task.End(a) + 1 && ShiftWalk(f, m, w) && w[0] == f.task.Start(a) && w[|w| - 1] == f.task.Goal(a)
  }

  ghost predicate ShiftPath(f: Frame, m: Model, a: int) { exists w :: IsShiftPath(f, m, a, w) }

  ghost predicate IsShiftArc(f: Frame, r: Arc) {
    exists dir, t :: ShiftArcBy(f, r, dir, t)
  }

  /** r is the arc of Shift(v, dir, t). */
  ghost predicate ShiftArcBy(f: Frame, r: Arc, dir: int, t: int) {
    var v := r.from.v;
    && 0 <= dir < 5 && f.task.Leads(v, dir, r.to.v) && f.task.Exists(Shift(v, dir, t))
    && r == Arc(TimeNode(v, t, false), TimeNode(r.to.v, t + 1, false), f.Id(Shift(v, dir, t)))
  }

  lemma ShiftArcTrue(f: Frame, m: Model, arcs: seq<Arc>, x: TimeNode, y: TimeNode)
    requires forall r :: r in arcs <==> IsShiftArc(f, r)
    ensures TrueArc(m, arcs, x, y) <==> !x.out && !y.out && y.t == x.t + 1 && ShiftTo(f, m, x.v, y.v, x.t)
  {
    if TrueArc(m, arcs, x, y) {
      var r :| r in arcs && r.from == x && r.to == y && r.lit in m;
      var dir, t :| ShiftArcBy(f, r, dir, t);
      assert f.Holds(m, Shift(x.v, dir, t));
    }
    if !x.out && !y.out && y.t == x.t + 1 && ShiftTo(f, m, x.v, y.v, x.t) {
      var dir :| 0 <= dir < 5 && f.task.Leads(x.v, dir, y.v) && f.Holds(m, Shift(x.v, dir, x.t));
      var r := Arc(x, y, f.Id(Shift(x.v, dir, x.t)));
      assert ShiftArcBy(f, r, dir, x.t);
    }
  }

  /** Along a path time advances by one per arc. */
  lemma {:induction false} ShiftTimes(f: Frame, m: Model, arcs: seq<Arc>, p: seq<TimeNode>, i: nat)
    requires forall r :: r in arcs <==> IsShiftArc(f, r)
    requires ArcPath(m, arcs, p) && p[0].t == 0 && !p[0].out && i < |p|
    ensures p[i].t == i && !p[i].out
  {
    if i > 0 {
      ShiftTimes(f, m, arcs, p, i - 1);
      ShiftArcTrue(f, m, arcs, p[i - 1], p[i]);
    }
  }

  /** Reachability from (start, 0) to (goal, last timestep) is a walk over true shifts. */
  lemma ShiftReach(f: Frame, m: Model, arcs: seq<Arc>, a: int)
    requires forall r :: r in arcs <==> IsShiftArc(f, r)
    requires f.task.Valid() && f.task.IsAgent(a)
    ensures ArcReaches(m, arcs, TimeNode(f.task.Start(a), 0, false), TimeNode(f.task.Goal(a), f.task.End(a), false))
       <==> ShiftPath(f, m, a)
  {
    AgentFacts(f.task, a);
    var x, y := TimeNode(f.task.Start(a), 0, false), TimeNode(f.task.Goal(a), f.task.End(a), false);
    if ArcReaches(m, arcs, x, y) {
      var p: seq<TimeNode> :| ArcPath(m, arcs, p) && p[0] == x && p[|p| - 1] == y;
      ShiftTimes(f, m, arcs, p, |p| - 1);
      var w := seq(|p|, i requires 0 <= i < |p| => p[i].v);
      forall t, s | 0 <= t < |w| - 1 && s == t + 1 ensures ShiftTo(f, m, w[t], w[s], t) {
        ShiftTimes(f, m, arcs, p, t);
        ShiftArcTrue(f, m, arcs, p[t], p[s]);
      }
      assert IsShiftPath(f, m, a, w);
    }
    if ShiftPath(f, m, a) {
      var w :| IsShiftPath(f, m, a, w);
      var p := seq(|w|, i requires 0 <= i < |w| => TimeNode(w[i], i, false));
      forall i, j | 0 <= i < |p| - 1 && j == i + 1 ensures TrueArc(m, arcs, p[i], p[j]) {
        ShiftArcTrue(f, m, arcs, p[i], p[j]);
      }
      assert ArcPath(m, arcs, p);
    }
  }

  // ----- the graph over At and Pass variables -----

  ghost predicate PassTo(f: Frame, m: Model, a: int, v: int, u: int, t: int) {
    exists dir :: 0 <= dir < 5 && f.task.Leads(v, dir, u) && f.Holds(m, Pass(a, v, dir, t))
  }

  ghost predicate PassWalk(f: Frame, m: Model, a: int, w: seq<int>) {
    && |w| > 0
    && (forall t :: 0 <= t < |w| ==> f.Holds(m, At(a, w[t], t)))
    && (forall t, s :: 0 <= t < |w| - 1 && s == t + 1 ==> PassTo(f, m, a, w[t], w[s], t))
  }

  ghost predicate IsPassPath(f: Frame, m: Model, a: int, w: seq<int>) {
    |w| == f.task.End(a) + 1 && PassWalk(f, m, a, w) && w[0] == f.task.Start(a) && w[|w| - 1] == f.task.Goal(a)
  }

  ghost predicate PassPath(f: Frame, m: Model, a: int) { exists w :: IsPassPath(f, m, a, w) }

  /** The arc through v at t. */
  ghost predicate IsAtArc(f: Frame, a: int, r: Arc) {
    var x := At(a, r.from.v, r.from.t);
    f.task.Exists(x) && r == Arc(TimeNode(x.v, x.t, false), TimeNode(x.v, x.t, true), f.Id(x))
  }

  ghost predicate IsPassArc(f: Frame, a: int, r: Arc) {
    IsAtArc(f, a, r) || exists dir :: PassArcBy(f, a, r, dir)
  }

  ghost predicate PassArcBy(f: Frame, a: int, r: Arc, dir: int) {
    var x := Pass(a, r.from.v, dir, r.from.t);
    && 0 <= dir < 5 && f.task.Leads(x.v, dir, r.to.v) && f.task.Exists(x)
    && r == Arc(TimeNode(x.v, x.t, true), TimeNode(r.to.v, x.t + 1, false), f.Id(x))
  }

  ghost predicate PassNext(f: Frame, m: Model, a: int, x: TimeNode, y: TimeNode) {
    if x.out then !y.out && y.t == x.t + 1 && PassTo(f, m, a, x.v, y.v, x.t)
    else y == TimeNode(x.v, x.t, true) && f.Holds(m, At(a, x.v, x.t))
  }

  lemma PassArcTrue(f: Frame, m: Model, a: int, arcs: seq<Arc>, x: TimeNode, y: TimeNode)
    requires forall r :: r in arcs <==> IsPassArc(f, a, r)
    ensures TrueArc(m, arcs, x, y) <==> PassNext(f, m, a, x, y)
  {
    if TrueArc(m, arcs, x, y) {
      var r :| r in arcs && r.from == x && r.to == y && r.lit in m;
      assert IsPassArc(f, a, r);
      if x.out {
        var dir :| PassArcBy(f, a, r, dir);
        assert f.Holds(m, Pass(a, x.v, dir, x.t));
      }
    }
    if PassNext(f, m, a, x, y) {
      if x.out {
        var dir :| 0 <= dir < 5 && f.task.Leads(x.v, dir, y.v) && f.Holds(m, Pass(a, x.v, dir, x.t));
        var r := Arc(x, y, f.Id(Pass(a, x.v, dir, x.t)));
        assert PassArcBy(f, a, r, dir);
        assert r in arcs;
      } else {
        var r := Arc(x, y, f.Id(At(a, x.v, x.t)));
        assert IsAtArc(f, a, r);
        assert r in arcs;
      }
    }
  }

  /** A path alternates between entering and leaving. */
  lemma {:induction false} PassTimes(f: Frame, m: Model, a: int, arcs: seq<Arc>, p: seq<TimeNode>, i: nat)
    requires forall r :: r in arcs <==> IsPassArc(f, a, r)
    requires ArcPath(m, arcs, p) && p[0].t == 0 && !p[0].out && i < |p|
    ensures p[i].t == i / 2 && p[i].out == (i % 2 == 1)
  {
    if i > 0 {
      PassTimes(f, m, a, arcs, p, i - 1);
      PassArcTrue(f, m, a, arcs, p[i - 1], p[i]);
    }
  }

  lemma PathWalks(f: Frame, m: Model, a: int, arcs: seq<Arc>, p: seq<TimeNode>, w: seq<int>)
    requires forall r :: r in arcs <==> IsPassArc(f, a, r)
    requires ArcPath(m, arcs, p) && p[0].t == 0 && !p[0].out && |p| == 2 * |w| > 0
    requires forall i :: 0 <= i < |w| ==> w[i] == p[2 * i].v
    ensures PassWalk(f, m, a, w) && p[|p| - 1].v == w[|w| - 1]
  {
    hide ArcPath;
    forall t | 0 <= t < |w| ensures f.Holds(m, At(a, w[t], t)) && p[2 * t + 1] == TimeNode(w[t], t, true) {
      PathStep(f, m, a, arcs, p, 2 * t);
    }
    forall t, s | 0 <= t < |w| - 1 && s == t + 1 ensures PassTo(f, m, a, w[t], w[s], t) {
      assert p[2 * t + 1] == TimeNode(w[t], t, true);
      PathStep(f, m, a, arcs, p, 2 * t + 1);
    }
  }

  lemma PathStep(f: Frame, m: Model, a: int, arcs: seq<Arc>, p: seq<TimeNode>, i: nat)
    requires forall r :: r in arcs <==> IsPassArc(f, a, r)
    requires ArcPath(m, arcs, p) && p[0].t == 0 && !p[0].out && i + 1 < |p|
    ensures p[i].t == i / 2 && p[i].out == (i % 2 == 1) && PassNext(f, m, a, p[i], p[i + 1])
  {
    PassTimes(f, m, a, arcs, p, i);
    PassArcTrue(f, m, a, arcs, p[i], p[i + 1]);
  }

  lemma WalkPaths(f: Frame, m: Model, a: int, arcs: seq<Arc>, w: seq<int>)
    requires forall r :: r in arcs <==> IsPassArc(f, a, r)
    requires PassWalk(f, m, a, w)
    ensures ArcPath(m, arcs, SplitPath(w))
  {
    var p := SplitPath(w);
    forall i, j | 0 <= i < |p| - 1 && j == i + 1 ensures TrueArc(m, arcs, p[i], p[j]) {
      PassArcTrue(f, m, a, arcs, p[i], p[j]);
    }
  }

  lemma PassReachWalk(f: Frame, m: Model, a: int, arcs: seq<Arc>, p: seq<TimeNode>)
    requires forall r :: r in arcs <==> IsPassArc(f, a, r)
    requires ArcPath(m, arcs, p) && f.task.End(a) >= 0 && p[0] == TimeNode(f.task.Start(a), 0, false)
    requires p[|p| - 1] == TimeNode(f.task.Goal(a), f.task.End(a), true)
    ensures PassPath(f, m, a)
  {
    PassTimes(f, m, a, arcs, p, |p| - 1);
    hide ArcPath, PassWalk, IsPassArc;
    var n := f.task.End(a) + 1;
    assert |p| == 2 * n;
    var w := EveryOther(p, n);
    PathWalks(f, m, a, arcs, p, w);
    assert IsPassPath(f, m, a, w);
  }

  function EveryOther(p: seq<TimeNode>, n: nat): (w: seq<int>)
    requires |p| == 2 * n
    ensures |w| == n && forall i :: 0 <= i < n ==> w[i] == p[2 * i].v
  {
    seq(n, i requires 0 <= i < n && |p| == 2 * n => p[2 * i].v)
  }

  /** Reachability in the split graph is a walk through true At variables along true Pass variables. */
  lemma PassReach(f: Frame, m: Model, a: int, arcs: seq<Arc>)
    requires forall r :: r in arcs <==> IsPassArc(f, a, r)
    requires f.task.Valid() && f.task.IsAgent(a)
    ensures ArcReaches(m, arcs, TimeNode(f.task.Start(a), 0, false), TimeNode(f.task.Goal(a), f.task.End(a), true))
       <==> PassPath(f, m, a)
  {
    hide ArcPath, PassWalk, IsPassArc, Task.Valid;
    AgentFacts(f.task, a);
    var x, y := TimeNode(f.task.Start(a), 0, false), TimeNode(f.task.Goal(a), f.task.End(a), true);
    if ArcReaches(m, arcs, x, y) {
      var p := ArcPathOf(m, arcs, x, y);
      PassReachWalk(f, m, a, arcs, p);
    }
    if PassPath(f, m, a) {
      var w :| IsPassPath(f, m, a, w);
      WalkPaths(f, m, a, arcs, w);
      var p := SplitPath(w);
      assert p[0] == x && p[|p| - 1] == y;
    }
  }

  lemma ArcPathOf(m: Model, arcs: seq<Arc>, x: TimeNode, y: TimeNode) returns (p: seq<TimeNode>)
    requires ArcReaches(m, arcs, x, y)
    ensures ArcPath(m, arcs, p) && |p| > 0 && p[0] == x && p[|p| - 1] == y
  {
    p :| ArcPath(m, arcs, p) && p[0] == x && p[|p| - 1] == y;
  }

  /** Every cell of a walk, entered and left. */
  function SplitPath(w: seq<int>): (p: seq<TimeNode>)
    ensures |p| == 2 * |w|
    ensures forall i :: 0 <= i < |p| ==> p[i] == TimeNode(w[i / 2], i / 2, i % 2 == 1)
  {
    seq(2 * |w|, i requires 0 <= i < 2 * |w| => TimeNode(w[i / 2], i / 2, i % 2 == 1))
  }

  // ----- what the formulas say -----

  ghost predicate DistinctStarts(task: Task) {
    forall a1, a2 :: 0 <= a1 < a2 < task.agents ==> task.Start(a1) != task.Start(a2)
  }

  /** Agents that share a goal start apart and, under sum of costs, have to be there at the same timestep. */
  ghost predicate SharersApart(task: Task) {
    forall a1, a2 :: 0 <= a1 < a2 < task.agents && task.Goal(a1) == task.Goal(a2) ==>
      task.Start(a1) != task.Start(a2) && (task.cost.SumOfCosts? ==> task.End(a1) == task.End(a2))
  }

  /** The formula over Shift variables: movement by reachability, no vertex clauses. */
  ghost predicate ShiftFormula(f: Frame, m: Model) {
    && (forall a :: f.task.IsAgent(a) ==> ShiftPath(f, m, a))
    && (f.task.cost.SumOfCosts? ==> f.NoneAtGoalShift(m))
    && f.SwapConfShift(m) && f.OneShift(m) && f.OneIncomingShift(m)
    && (f.task.cost.SumOfCosts? ==> f.LimitSoc(m, Entering))
  }

  /** The formula over At and Pass variables, without duplicated agents. */
  ghost predicate PassFormula(f: Frame, m: Model) {
    && (forall a :: f.task.IsAgent(a) ==> PassPath(f, m, a))
    && (f.task.cost.SumOfCosts? ==> f.NoneAtGoal(m))
    && f.VertexConf(m) && f.SwapConfPass(m) && f.NoDuplicates(m)
    && (f.task.cost.SumOfCosts? ==> f.LimitSoc(m, NotAtGoal))
  }

  // ----- extraction -----

  /** What GetNextVertex looks for, by kind of variables. */
  ghost predicate MonoGoes(f: Frame, m: Model, a: int, v: int, dir: int, u: int, s: int) {
    && f.task.Leads(v, dir, u)
    && if f.task.variables.UseShift? then f.Holds(m, Shift(v, dir, s))
       else f.Holds(m, Pass(a, v, dir, s)) && f.Holds(m, At(a, u, s + 1))
  }

  ghost predicate MonoGoesTo(f: Frame, m: Model, a: int, v: int, u: int, s: int) {
    exists dir :: 0 <= dir < 5 && MonoGoes(f, m, a, v, dir, u, s)
  }

  /** u is where the first possible direction leads. */
  ghost predicate MonoFirstWay(f: Frame, m: Model, a: int, v: int, u: int, s: int) {
    exists dir :: 0 <= dir < 5 && MonoGoes(f, m, a, v, dir, u, s) && NoMonoWayBefore(f, m, a, v, dir, s)
  }

  ghost predicate NoMonoWayBefore(f: Frame, m: Model, a: int, v: int, dir: int, s: int) {
    forall w, d :: 0 <= d < dir ==> !MonoGoes(f, m, a, v, d, w, s)
  }

  ghost predicate MonoNext(f: Frame, m: Model, a: int, v: int, u: int, s: int) {
    if v == -1 then u == -1
    else MonoGoesTo(f, m, a, v, u, s) || (u == -1 && forall w :: !MonoGoesTo(f, m, a, v, w, s))
  }

  ghost predicate MonoExtracted(f: Frame, m: Model, a: int, row: seq<int>) {
    && |row| == f.task.timesteps
    && (|row| > 0 ==> row[0] == f.task.Start(a))
    && forall t, s :: 0 <= t < |row| - 1 && s == t + 1 ==> MonoNext(f, m, a, row[t], row[s], t)
  }

  /** A row that takes w's steps because there are no others, and stops after it, stops at the goal. */
  lemma {:induction false} RowFollows(f: Frame, m: Model, a: int, row: seq<int>, w: seq<int>, t: nat)
    requires f.task.Valid() && f.task.IsAgent(a) && MonoExtracted(f, m, a, row) && t < |row|
    requires |w| == f.task.End(a) + 1 > 0 && w[0] == f.task.Start(a)
    requires forall i :: 0 <= i < |w| ==> f.task.IsVertex(w[i])
    requires forall i, u :: 0 <= i < f.task.End(a) ==> (MonoGoesTo(f, m, a, w[i], u, i) <==> u == w[i + 1])
    requires f.task.End(a) < f.task.timesteps - 1 ==>
      forall u :: !MonoGoesTo(f, m, a, w[f.task.End(a)], u, f.task.End(a))
    ensures t <= f.task.End(a) ==> row[t] == w[t]
    ensures t > f.task.End(a) ==> row[t] == -1
  {
    if t > 0 {
      RowFollows(f, m, a, row, w, t - 1);
      assert MonoNext(f, m, a, row[t - 1], row[t], t - 1);
      if t <= f.task.End(a) {
        assert MonoGoesTo(f, m, a, w[t - 1], w[t - 1 + 1], t - 1);
      } else if t == f.task.End(a) + 1 {
        assert !MonoGoesTo(f, m, a, row[t - 1], row[t], f.task.End(a));
      }
    }
  }
}
