/**
 * What MonoSAT is trusted for: models of clauses together with reachability requirements, here found by exhaustive
 * search.
 */
module MonosatOracle {
  import opened Cnf
  import opened Monosat

  /** A "reach" line: variable lit says that node `to` is reachable from node `from`. */
  datatype Reach = Reach(graph: nat, from: int, to: int, lit: int)

  /** What MonoSAT calls a model: it satisfies the clauses, and reach variables say what is reachable. */
  ghost predicate GraphModel(m: Model, clauses: seq<Clause>, graphs: seq<seq<Edge>>, reaches: seq<Reach>) {
    Sat(m, clauses) && forall r :: r in reaches ==> ReachHolds(m, graphs, r)
  }

  ghost predicate ReachHolds(m: Model, graphs: seq<seq<Edge>>, r: Reach) {
    r.graph < |graphs| && (r.lit in m <==> Reaches(m, graphs[r.graph], r.from, r.to))
  }

  // ----- the text of a formula -----

  /** A formula as MonoSAT reads it: clauses, graphs in the order of their declaration, and reach lines. */
  datatype Text = Text(clauses: seq<Clause>, graphs: seq<seq<Edge>>, reaches: seq<Reach>) {
    /** Reach lines name graphs that are declared. */
    predicate Closed() { forall r :: r in reaches ==> r.graph < |graphs| }

    /**
     * This text followed by more. The added text declares its graphs anew, and its lines mean these, while the graphs
     * declared before under the same identifiers and the reach lines about them stay.
     */
    function Then(more: Text): Text {
      Text(clauses + more.clauses, graphs + more.graphs, reaches + MovedOn(more.reaches, |graphs|))
    }

    /** All variables are numbered below n. */
    ghost predicate NumberedBelow(n: int) {
      && Below(clauses, n)
      && (forall g, e :: g in graphs && e in g ==> 0 < e.lit < n)
      && (forall r :: r in reaches ==> 0 < r.lit < n)
    }

    ghost predicate HoldsIn(m: Model) { GraphModel(m, clauses, graphs, reaches) }

    ghost predicate HasModel() { exists m :: HoldsIn(m) }
  }

  const EMPTY: Text := Text([], [], [])

  /** The reach lines, k graphs further on. */
  function MovedOn(reaches: seq<Reach>, k: nat): (r: seq<Reach>)
    ensures |r| == |reaches|
    ensures forall i :: 0 <= i < |r| ==> r[i] == reaches[i].(graph := reaches[i].graph + k)
  {
    seq(|reaches|, i requires 0 <= i < |reaches| => reaches[i].(graph := reaches[i].graph + k))
  }

  /** The models of the whole text are the common models of its parts. */
  lemma ThenModels(m: Model, before: Text, more: Text)
    requires before.Closed() && more.Closed()
    ensures before.Then(more).Closed()
    ensures before.Then(more).HoldsIn(m) <==> before.HoldsIn(m) && more.HoldsIn(m)
  {
    var all, moved := before.Then(more), MovedOn(more.reaches, |before.graphs|);
    SatAppend(m, before.clauses, more.clauses);
    forall r | r in before.reaches ensures ReachHolds(m, all.graphs, r) <==> ReachHolds(m, before.graphs, r) {
    }
    forall i | 0 <= i < |moved|
      ensures ReachHolds(m, all.graphs, moved[i]) <==> ReachHolds(m, more.graphs, more.reaches[i])
    {
      assert more.reaches[i] in more.reaches;
    }
    assert forall r :: r in all.reaches <==> r in before.reaches || r in moved;
  }

  /** Text that contradicts itself does so whatever follows. */
  lemma NoModelLater(before: Text, more: Text)
    requires before.Closed() && more.Closed()
    ensures before.Then(more).HasModel() ==> before.HasModel() && more.HasModel()
    ensures before == EMPTY ==> (before.Then(more).HasModel() <==> more.HasModel())
  {
    forall m ensures before.Then(more).HoldsIn(m) <==> before.HoldsIn(m) && more.HoldsIn(m) {
      ThenModels(m, before, more);
    }
  }

  // ----- reachability -----

  lemma ReachesSelf(m: Model, edges: seq<Edge>, x: int)
    ensures Reaches(m, edges, x, x)
  {
    assert EdgePath(m, edges, [x]);
  }

  lemma ReachesNext(m: Model, edges: seq<Edge>, x: int, y: int, z: int)
    requires Reaches(m, edges, x, y) && TrueEdge(m, edges, y, z)
    ensures Reaches(m, edges, x, z)
  {
    var p :| EdgePath(m, edges, p) && p[0] == x && p[|p| - 1] == y;
    assert EdgePath(m, edges, p + [z]);
  }

  /** A set that no true edge leaves contains everything reachable from it. */
  lemma {:induction false} ClosedContains(m: Model, edges: seq<Edge>, s: set<int>, p: seq<int>)
    requires forall e :: e in edges && e.from in s && e.lit in m ==> e.to in s
    requires EdgePath(m, edges, p) && p[0] in s
    ensures p[|p| - 1] in s
  {
    if |p| > 1 {
      var n := |p| - 1;
      ClosedContains(m, edges, s, p[..n]);
      assert TrueEdge(m, edges, p[n - 1], p[n]);
    }
  }

  /** The nodes reachable from x, by adding ends of true edges as long as there are new ones. */
  method ReachSet(m: Model, edges: seq<Edge>, x: int) returns (s: set<int>)
    ensures forall y :: y in s <==> Reaches(m, edges, x, y)
  {
    ghost var ends := set e | e in edges :: e.to;
    s := {x};
    ReachesSelf(m, edges, x);
    while exists i :: 0 <= i < |edges| && edges[i].from in s && edges[i].lit in m && edges[i].to !in s
      invariant x in s && forall y :: y in s ==> Reaches(m, edges, x, y)
      decreases ends - s
    {
      var i :| 0 <= i < |edges| && edges[i].from in s && edges[i].lit in m && edges[i].to !in s;
      assert edges[i] in edges && edges[i].to in ends;
      assert TrueEdge(m, edges, edges[i].from, edges[i].to);
      ReachesNext(m, edges, x, edges[i].from, edges[i].to);
      s := s + {edges[i].to};
    }
    forall y | Reaches(m, edges, x, y) ensures y in s {
      var p :| EdgePath(m, edges, p) && p[0] == x && p[|p| - 1] == y;
      ClosedContains(m, edges, s, p);
    }
  }

  // ----- search -----

  method IsGraphModel(m: Model, clauses: seq<Clause>, graphs: seq<seq<Edge>>, reaches: seq<Reach>) returns (yes: bool)
    ensures yes <==> GraphModel(m, clauses, graphs, reaches)
  {
    yes := Sat(m, clauses);
    for i := 0 to |reaches|
      invariant yes <==> Sat(m, clauses) && forall k :: 0 <= k < i ==> ReachHolds(m, graphs, reaches[k])
    {
      var r := reaches[i];
      if r.graph >= |graphs| {
        yes := false;
      } else {
        var reachable := ReachSet(m, graphs[r.graph], r.from);
        yes := yes && (r.lit in m <==> r.to in reachable);
      }
    }
  }

  /** The variables of vars are still open in m; try both values of each. */
  method SearchGraph(vars: seq<int>, m: Model, clauses: seq<Clause>, graphs: seq<seq<Edge>>, reaches: seq<Reach>)
    returns (r: Option<Model>)
    ensures r.Some? ==> GraphModel(r.value, clauses, graphs, reaches)
    ensures r.None? ==> forall m' :: SameOutside(m, m', vars) ==> !GraphModel(m', clauses, graphs, reaches)
    decreases |vars|
  {
    if |vars| == 0 {
      var yes := IsGraphModel(m, clauses, graphs, reaches);
      forall m' | SameOutside(m, m', vars) ensures m' == m {
        assert forall x :: x in m <==> x in m';
      }
      return if yes then Some(m) else None;
    }
    var v := vars[0];
    r := SearchGraph(vars[1..], m + {v}, clauses, graphs, reaches);
    if r.None? {
      r := SearchGraph(vars[1..], m - {v}, clauses, graphs, reaches);
      forall m' | SameOutside(m, m', vars) ensures SameOutside(if v in m' then m + {v} else m - {v}, m', vars[1..]) {
        assert vars == [v] + vars[1..];
      }
    }
  }

  ghost predicate SameOutside(m: Model, m': Model, vars: seq<int>) {
    forall x :: x !in vars ==> (x in m <==> x in m')
  }

  function ClauseVars(c: Clause): (vars: seq<int>)
    ensures forall l :: l in c ==> Abs(l) in vars
  {
    if |c| == 0 then [] else [Abs(c[0])] + ClauseVars(c[1..])
  }

  function ClausesVars(cs: seq<Clause>): (vars: seq<int>)
    ensures forall c, l :: c in cs && l in c ==> Abs(l) in vars
  {
    if |cs| == 0 then []
    else
      assert forall c :: c in cs ==> c == cs[0] || c in cs[1..];
      ClauseVars(cs[0]) + ClausesVars(cs[1..])
  }

  function EdgeVars(edges: seq<Edge>): (vars: seq<int>)
    ensures forall e :: e in edges ==> e.lit in vars
  {
    if |edges| == 0 then [] else [edges[0].lit] + EdgeVars(edges[1..])
  }

  function GraphVars(graphs: seq<seq<Edge>>): (vars: seq<int>)
    ensures forall g, e :: g in graphs && e in g ==> e.lit in vars
  {
    if |graphs| == 0 then []
    else
      assert forall g :: g in graphs ==> g == graphs[0] || g in graphs[1..];
      EdgeVars(graphs[0]) + GraphVars(graphs[1..])
  }

  function ReachVars(reaches: seq<Reach>): (vars: seq<int>)
    ensures forall r :: r in reaches ==> r.lit in vars
  {
    if |reaches| == 0 then [] else [reaches[0].lit] + ReachVars(reaches[1..])
  }

  lemma SameEdges(m: Model, m': Model, edges: seq<Edge>, x: int, y: int)
    requires (forall e :: e in edges ==> (e.lit in m <==> e.lit in m')) && Reaches(m, edges, x, y)
    ensures Reaches(m', edges, x, y)
  {
    var p :| EdgePath(m, edges, p) && p[0] == x && p[|p| - 1] == y;
    forall i, j | 0 <= i < |p| - 1 && j == i + 1 ensures TrueEdge(m', edges, p[i], p[j]) {
      assert TrueEdge(m, edges, p[i], p[j]);
    }
    assert EdgePath(m', edges, p);
  }

  /** Only the variables that occur matter. */
  lemma SameGraphModel(m: Model, m': Model, clauses: seq<Clause>, graphs: seq<seq<Edge>>, reaches: seq<Reach>,
                       vars: seq<int>)
    requires vars == ClausesVars(clauses) + GraphVars(graphs) + ReachVars(reaches)
    requires (forall x :: x in vars ==> (x in m <==> x in m')) && GraphModel(m, clauses, graphs, reaches)
    ensures GraphModel(m', clauses, graphs, reaches)
  {
    SameVariables(m, m', clauses);
    forall r | r in reaches ensures ReachHolds(m', graphs, r) {
      assert ReachHolds(m, graphs, r) && r.lit in ReachVars(reaches) && r.lit in vars;
      forall e | e in graphs[r.graph] ensures e.lit in m <==> e.lit in m' {
        assert graphs[r.graph] in graphs && e.lit in GraphVars(graphs) && e.lit in vars;
      }
      if Reaches(m, graphs[r.graph], r.from, r.to) {
        SameEdges(m, m', graphs[r.graph], r.from, r.to);
      }
      if Reaches(m', graphs[r.graph], r.from, r.to) {
        SameEdges(m', m, graphs[r.graph], r.from, r.to);
      }
    }
  }

  /** A model of clauses and reachability requirements, or there is none. */
  method CallMonosat(clauses: seq<Clause>, graphs: seq<seq<Edge>>, reaches: seq<Reach>) returns (r: Option<Model>)
    ensures r.Some? ==> GraphModel(r.value, clauses, graphs, reaches)
    ensures r.None? ==> forall m :: !GraphModel(m, clauses, graphs, reaches)
  {
    var vars := ClausesVars(clauses) + GraphVars(graphs) + ReachVars(reaches);
    r := SearchGraph(vars, {}, clauses, graphs, reaches);
    if r.None? {
      forall m ensures !GraphModel(m, clauses, graphs, reaches) {
        var m' := set x | x in m && x in vars;
        assert SameOutside({}, m', vars);
        if GraphModel(m, clauses, graphs, reaches) {
          SameGraphModel(m, m', clauses, graphs, reaches, vars);
        }
      }
    }
  }
}
