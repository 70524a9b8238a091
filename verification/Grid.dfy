/** The four-connected grid of src/instance.cpp: free cells are numbered, obstacles are -1. */
module Grids {

  datatype Vertex = Vertex(x: nat, y: nat)

  /** Directions are 0 (wait), 1 (north), 2 (south), 3 (west) and 4 (east). */
  function OppositeDir(dir: int): int {
    if dir == 1 then 2
    else if dir == 2 then 1
    else if dir == 3 then 4
    else if dir == 4 then 3
    else if dir == 0 then 0
    else -1
  }

  datatype Grid = Grid(cells: seq<seq<int>>, coords: seq<Vertex>) {

    function Height(): nat { |cells| }

    function Width(): nat { if |cells| == 0 then 0 else |cells[0]| }

    function NumberOfVertices(): nat { |coords| }

    predicate IsVertex(v: int) { 0 <= v < |coords| }

    predicate Rectangular() { forall i :: 0 <= i < |cells| ==> |cells[i]| == Width() }

    predicate InGrid(c: Vertex) { c.x < Height() && c.y < Width() }

    /** The numbering of the free cells and their coordinate list are inverse to each other. */
    ghost predicate Valid() {
      && Rectangular()
      && (forall v :: 0 <= v < |coords| ==> InGrid(coords[v]) && cells[coords[v].x][coords[v].y] == v)
      && (forall c: Vertex :: InGrid(c) && cells[c.x][c.y] != -1 ==>
            IsVertex(cells[c.x][c.y]) && coords[cells[c.x][c.y]] == c)
    }

    predicate HasNeighborAt(c: Vertex, dir: int)
      requires Rectangular() && InGrid(c)
    {
      || dir == 0
      || (dir == 1 && c.x > 0 && cells[c.x - 1][c.y] != -1)
      || (dir == 2 && c.x < Height() - 1 && cells[c.x + 1][c.y] != -1)
      || (dir == 3 && c.y > 0 && cells[c.x][c.y - 1] != -1)
      || (dir == 4 && c.y < Width() - 1 && cells[c.x][c.y + 1] != -1)
    }

    predicate HasNeighbor(v: int, dir: int)
      requires Valid() && IsVertex(v)
    {
      dir == 0 || HasNeighborAt(coords[v], dir)
    }

    /** The cell one step away; -1 off the cells, and -1 at an obstacle. */
    function GetNeighbor(v: int, dir: int): int
      requires Valid() && IsVertex(v)
    {
      if dir == 0 then v
      else
        var c := coords[v];
        if dir == 1 && c.x > 0 then cells[c.x - 1][c.y]
        else if dir == 2 && c.x < Height() - 1 then cells[c.x + 1][c.y]
        else if dir == 3 && c.y > 0 then cells[c.x][c.y - 1]
        else if dir == 4 && c.y < Width() - 1 then cells[c.x][c.y + 1]
        else -1
    }
  }

  /**
   * The same cells seen as a graph: nbr[v][dir] is the cell in direction dir, or -1.
   * Everything beyond the breadth-first search only asks HasNeighbor and GetNeighbor.
   */
  datatype Graph = Graph(nbr: seq<seq<int>>) {

    function Size(): nat { |nbr| }

    predicate IsVertex(v: int) { 0 <= v < |nbr| }

    predicate Shape() { forall v :: 0 <= v < |nbr| ==> |nbr[v]| == 5 }

    predicate HasNeighbor(v: int, dir: int)
      requires Shape() && IsVertex(v) && 0 <= dir < 5
    {
      nbr[v][dir] != -1
    }

    function GetNeighbor(v: int, dir: int): int
      requires Shape() && IsVertex(v) && 0 <= dir < 5
    {
      nbr[v][dir]
    }

    /** Direction dir leads from v to u. */
    predicate Leads(v: int, dir: int, u: int) {
      && 0 <= dir < 5 && IsVertex(v) && IsVertex(u)
      && |nbr[v]| == 5 && nbr[v][dir] == u
    }

    /** u is v itself or one of its four neighbours. */
    predicate Adjacent(v: int, u: int) {
      exists dir :: 0 <= dir < 5 && Leads(v, dir, u)
    }

    ghost predicate Back(v: int, dir: int, u: int) { Leads(u, OppositeDir(dir), v) }

    ghost predicate SameDirection(v: int, d1: int, d2: int, u: int) { d1 == d2 }

    ghost predicate Valid() {
      && Shape()
      && (forall v :: IsVertex(v) ==> nbr[v][0] == v)
      && (forall v, dir :: IsVertex(v) && 0 <= dir < 5 && nbr[v][dir] != -1 ==> IsVertex(nbr[v][dir]))
      && (forall v, dir, u {:trigger Back(v, dir, u)} :: Leads(v, dir, u) ==> Back(v, dir, u))
      && (forall v, d1, d2, u {:trigger SameDirection(v, d1, d2, u)} ::
            Leads(v, d1, u) && Leads(v, d2, u) ==> SameDirection(v, d1, d2, u))
    }
  }

  /** Going back the opposite way returns. */
  lemma NeighborSymmetry(g: Graph, v: int, dir: int, u: int)
    requires g.Valid() && g.Leads(v, dir, u)
    ensures 0 <= OppositeDir(dir) < 5 && OppositeDir(OppositeDir(dir)) == dir
    ensures g.Leads(u, OppositeDir(dir), v)
  {
    assert g.Back(v, dir, u);
  }

  /** Two directions never lead to the same cell. */
  lemma DirectionUnique(g: Graph, v: int, d1: int, d2: int, u: int)
    requires g.Valid() && g.Leads(v, d1, u) && g.Leads(v, d2, u)
    ensures d1 == d2
  {
    assert g.SameDirection(v, d1, d2, u);
  }

  function NeighborOrNone(g: Grid, v: int, dir: int): int
    requires g.Valid() && g.IsVertex(v)
  {
    if g.HasNeighbor(v, dir) then g.GetNeighbor(v, dir) else -1
  }

  function GraphOf(g: Grid): Graph
    requires g.Valid()
  {
    Graph(seq(g.NumberOfVertices(), v requires 0 <= v < g.NumberOfVertices() =>
      seq(5, dir => NeighborOrNone(g, v, dir))))
  }

  /** d is c itself (direction 0) or the cell one step north, south, west or east of it. */
  predicate OneStep(c: Vertex, dir: int, d: Vertex) {
    || (dir == 0 && d == c)
    || (dir == 1 && d.x == c.x - 1 && d.y == c.y)
    || (dir == 2 && d.x == c.x + 1 && d.y == c.y)
    || (dir == 3 && d.x == c.x && d.y == c.y - 1)
    || (dir == 4 && d.x == c.x && d.y == c.y + 1)
  }

  /** Every free cell one step away is a neighbour, and GetNeighbor finds it. */
  lemma FreeCellIsNeighbor(g: Grid, c: Vertex, dir: int, d: Vertex)
    requires g.Valid() && g.InGrid(c) && g.InGrid(d) && g.cells[c.x][c.y] != -1 && g.cells[d.x][d.y] != -1
    requires OneStep(c, dir, d)
    ensures g.HasNeighborAt(c, dir) && g.HasNeighbor(g.cells[c.x][c.y], dir)
    ensures g.GetNeighbor(g.cells[c.x][c.y], dir) == g.cells[d.x][d.y]
  {
    assert g.coords[g.cells[c.x][c.y]] == c;
  }

  /** Neighbours are exactly the free cells one step away. */
  lemma NeighborIff(g: Grid, v: int, dir: int, u: int)
    requires g.Valid() && g.IsVertex(v) && g.IsVertex(u) && 0 <= dir < 5
    ensures g.HasNeighbor(v, dir) && g.GetNeighbor(v, dir) == u <==> OneStep(g.coords[v], dir, g.coords[u])
    ensures GraphOf(g).Leads(v, dir, u) <==> OneStep(g.coords[v], dir, g.coords[u])
  {
    GraphOfValid(g);
    var c, d := g.coords[v], g.coords[u];
    if OneStep(c, dir, d) {
      FreeCellIsNeighbor(g, c, dir, d);
    }
    if g.HasNeighbor(v, dir) && g.GetNeighbor(v, dir) == u {
      NeighborCoords(g, v, dir);
    }
  }

  /** GetNeighbor answers with a vertex exactly when HasNeighbor says there is one, and going back returns. */
  lemma GetNeighborAgrees(g: Grid, v: int, dir: int)
    requires g.Valid() && g.IsVertex(v) && 0 <= dir < 5
    ensures g.HasNeighbor(v, dir) <==> g.GetNeighbor(v, dir) != -1
    ensures g.HasNeighbor(v, dir) ==>
      && g.IsVertex(g.GetNeighbor(v, dir))
      && g.HasNeighbor(g.GetNeighbor(v, dir), OppositeDir(dir))
      && g.GetNeighbor(g.GetNeighbor(v, dir), OppositeDir(dir)) == v
  {
    var c := g.coords[v];
    if dir == 1 && c.x > 0 {
      assert g.InGrid(Vertex(c.x - 1, c.y));
    } else if dir == 2 && c.x < g.Height() - 1 {
      assert g.InGrid(Vertex(c.x + 1, c.y));
    } else if dir == 3 && c.y > 0 {
      assert g.InGrid(Vertex(c.x, c.y - 1));
    } else if dir == 4 && c.y < g.Width() - 1 {
      assert g.InGrid(Vertex(c.x, c.y + 1));
    }
  }

  lemma NeighborCoords(g: Grid, v: int, dir: int)
    requires g.Valid() && g.IsVertex(v) && 0 <= dir < 5 && g.HasNeighbor(v, dir)
    ensures g.IsVertex(g.GetNeighbor(v, dir))
    ensures
      var c, d := g.coords[v], g.coords[g.GetNeighbor(v, dir)];
      && d.x == (if dir == 1 then c.x - 1 else if dir == 2 then c.x + 1 else c.x)
      && d.y == (if dir == 3 then c.y - 1 else if dir == 4 then c.y + 1 else c.y)
  {
    GetNeighborAgrees(g, v, dir);
    var c := g.coords[v];
    if dir == 1 {
      assert g.InGrid(Vertex(c.x - 1, c.y));
    } else if dir == 2 {
      assert g.InGrid(Vertex(c.x + 1, c.y));
    } else if dir == 3 {
      assert g.InGrid(Vertex(c.x, c.y - 1));
    } else if dir == 4 {
      assert g.InGrid(Vertex(c.x, c.y + 1));
    }
  }

  /** Different directions lead to different cells. */
  lemma NeighborsDiffer(g: Grid, v: int, d1: int, d2: int)
    requires g.Valid() && g.IsVertex(v) && 0 <= d1 < 5 && 0 <= d2 < 5 && g.HasNeighbor(v, d1) && g.HasNeighbor(v, d2)
    ensures g.GetNeighbor(v, d1) == g.GetNeighbor(v, d2) ==> d1 == d2
  {
    NeighborCoords(g, v, d1);
    NeighborCoords(g, v, d2);
  }

  /** The cells of a map form a symmetric graph in which every neighbour has one direction. */
  lemma GraphOfValid(g: Grid)
    requires g.Valid()
    ensures GraphOf(g).Valid() && GraphOf(g).Size() == g.NumberOfVertices()
    ensures forall v, dir :: g.IsVertex(v) && 0 <= dir < 5 ==>
      && GraphOf(g).HasNeighbor(v, dir) == g.HasNeighbor(v, dir)
      && GraphOf(g).GetNeighbor(v, dir) == g.GetNeighbor(v, dir)
  {
    var h := GraphOf(g);
    forall v, dir | g.IsVertex(v) && 0 <= dir < 5
      ensures h.HasNeighbor(v, dir) == g.HasNeighbor(v, dir) && h.GetNeighbor(v, dir) == g.GetNeighbor(v, dir)
      ensures h.nbr[v][dir] != -1 ==> h.IsVertex(h.nbr[v][dir])
    {
      GetNeighborAgrees(g, v, dir);
    }
    forall v, dir, u | h.Leads(v, dir, u) ensures h.Back(v, dir, u) {
      GetNeighborAgrees(g, v, dir);
    }
    forall v, d1, d2, u | h.Leads(v, d1, u) && h.Leads(v, d2, u) ensures h.SameDirection(v, d1, d2, u) {
      NeighborsDiffer(g, v, d1, d2);
    }
  }
}
