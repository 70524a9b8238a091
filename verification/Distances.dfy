/** Grid distances: what a distance table is, why it is exact, and the breadth-first search that fills it. */
module Distances {
  import opened Grids

  /** An agent starting at s can stand at v after n timesteps (waiting allowed). */
  ghost predicate Within(g: Graph, s: int, v: int, n: nat)
    decreases n
  {
    if n == 0 then v == s
    else exists dir, u :: g.Leads(v, dir, u) && Within(g, s, u, n - 1)
  }

  /** d is the length of a shortest walk from s to v, or -1 when there is none. */
  ghost predicate IsDistance(g: Graph, s: int, v: int, d: int)
  {
    && d >= -1
    && forall n: nat :: Within(g, s, v, n) <==> 0 <= d <= n
  }

  /** The local shape of a distance table: one source, no step gains more than one, every cell has a parent. */
  ghost predicate DistTable(g: Graph, s: int, len: seq<int>)
  {
    && |len| == g.Size()
    && g.IsVertex(s) && len[s] == 0
    && (forall v :: g.IsVertex(v) ==> len[v] >= -1 && (len[v] == 0 ==> v == s))
    && (forall v, dir, u :: g.Leads(v, dir, u) && len[v] >= 0 ==> g.IsVertex(u) && 0 <= len[u] <= len[v] + 1)
    && (forall v {:trigger HasParent(g, len, v)} :: g.IsVertex(v) && len[v] > 0 ==> HasParent(g, len, v))
  }

  ghost predicate HasParent(g: Graph, len: seq<int>, v: int)
    requires |len| == g.Size()
  {
    exists dir, u :: g.Leads(v, dir, u) && g.IsVertex(u) && len[u] == len[v] - 1
  }

  lemma {:induction false} WithinMonotone(g: Graph, s: int, v: int, n: nat)
    requires g.Valid() && g.IsVertex(s) && Within(g, s, v, n)
    ensures g.IsVertex(v) && Within(g, s, v, n + 1)
  {
    assert g.IsVertex(v) ==> g.Leads(v, 0, v);
  }

  lemma {:induction false} WithinIffLen(g: Graph, s: int, len: seq<int>, v: int, n: nat)
    requires g.Valid() && DistTable(g, s, len) && g.IsVertex(v)
    ensures Within(g, s, v, n) <==> 0 <= len[v] <= n
    decreases n
  {
    if n > 0 {
      if Within(g, s, v, n) {
        var dir, u :| g.Leads(v, dir, u) && Within(g, s, u, n - 1);
        NeighborSymmetry(g, v, dir, u);
        WithinIffLen(g, s, len, u, n - 1);
      }
      if 0 <= len[v] <= n {
        if len[v] == 0 {
          WithinIffLen(g, s, len, v, n - 1);
          WithinMonotone(g, s, v, n - 1);
        } else {
          assert HasParent(g, len, v);
          var dir, u :| g.Leads(v, dir, u) && g.IsVertex(u) && len[u] == len[v] - 1;
          WithinIffLen(g, s, len, u, n - 1);
        }
      }
    }
  }

  /** A table of that local shape holds exactly the shortest distances. */
  lemma DistTableExact(g: Graph, s: int, len: seq<int>, v: int)
    requires g.Valid() && DistTable(g, s, len) && g.IsVertex(v)
    ensures IsDistance(g, s, v, len[v])
  {
    forall n: nat ensures Within(g, s, v, n) <==> 0 <= len[v] <= n {
      WithinIffLen(g, s, len, v, n);
    }
  }

  /** Adjacent cells differ by at most one, in both directions. */
  lemma DistanceLipschitz(g: Graph, s: int, len: seq<int>, v: int, dir: int, u: int)
    requires g.Valid() && DistTable(g, s, len) && g.Leads(v, dir, u)
    ensures g.IsVertex(u)
    ensures (len[v] >= 0) == (len[u] >= 0)
    ensures len[v] - 1 <= len[u] <= len[v] + 1
  {
    NeighborSymmetry(g, v, dir, u);
  }

  lemma {:induction false} WithinExtendFront(g: Graph, s: int, dir: int, s': int, v: int, n: nat)
    requires g.Valid() && g.Leads(s', dir, s) && Within(g, s, v, n)
    ensures Within(g, s', v, n + 1)
    decreases n
  {
    NeighborSymmetry(g, s', dir, s);
    if n == 0 {
      assert g.Leads(v, OppositeDir(dir), s') && Within(g, s', s', 0);
    } else {
      var d, u :| g.Leads(v, d, u) && Within(g, s, u, n - 1);
      WithinExtendFront(g, s, dir, s', u, n - 1);
    }
  }

  /** Walks can be walked backwards, so distance from the goal is distance to the goal. */
  lemma {:induction false} WithinSymmetric(g: Graph, s: int, v: int, n: nat)
    requires g.Valid() && g.IsVertex(s) && Within(g, s, v, n)
    ensures Within(g, v, s, n)
    decreases n
  {
    if n > 0 {
      var dir, u :| g.Leads(v, dir, u) && Within(g, s, u, n - 1);
      WithinSymmetric(g, s, u, n - 1);
      WithinExtendFront(g, u, dir, v, s, n - 1);
    }
  }

  lemma DistanceSymmetric(g: Graph, s: int, ls: seq<int>, v: int, lv: seq<int>)
    requires g.Valid() && DistTable(g, s, ls) && DistTable(g, v, lv)
    ensures ls[v] == lv[s]
  {
    if ls[v] >= 0 {
      WithinIffLen(g, s, ls, v, ls[v]);
      WithinSymmetric(g, s, v, ls[v]);
      WithinIffLen(g, v, lv, s, ls[v]);
    }
    if lv[s] >= 0 {
      WithinIffLen(g, v, lv, s, lv[s]);
      WithinSymmetric(g, v, s, lv[s]);
      WithinIffLen(g, s, ls, v, lv[s]);
    }
  }

  /** The cells reachable from s are the cells from which s is reachable. */
  lemma SameComponent(g: Graph, s: int, ls: seq<int>, v: int, lv: seq<int>, w: int)
    requires g.Valid() && DistTable(g, s, ls) && DistTable(g, v, lv) && ls[v] >= 0 && g.IsVertex(w)
    ensures ls[w] >= 0 <==> lv[w] >= 0
  {
    DistanceSymmetric(g, s, ls, v, lv);
    if ls[w] >= 0 {
      WithinIffLen(g, s, ls, w, ls[w]);
      ReachSpreads(g, s, v, lv, w, ls[w]);
    }
    if lv[w] >= 0 {
      WithinIffLen(g, v, lv, w, lv[w]);
      ReachSpreads(g, v, s, ls, w, lv[w]);
    }
  }

  lemma {:induction false} ReachSpreads(g: Graph, s: int, r: int, lr: seq<int>, w: int, n: nat)
    requires g.Valid() && DistTable(g, r, lr) && g.IsVertex(s) && lr[s] >= 0 && Within(g, s, w, n)
    ensures g.IsVertex(w) && lr[w] >= 0
    decreases n
  {
    if n > 0 {
      var dir, u :| g.Leads(w, dir, u) && Within(g, s, u, n - 1);
      ReachSpreads(g, s, r, lr, u, n - 1);
      NeighborSymmetry(g, w, dir, u);
    }
  }

  // ----- breadth-first search -----

  ghost function Unvisited(len: seq<int>): set<int> {
    set v | 0 <= v < |len| && len[v] == -1
  }

  ghost predicate OneSource(g: Graph, s: int, len: seq<int>) {
    && |len| == g.Size()
    && g.IsVertex(s) && len[s] == 0
    && forall v :: g.IsVertex(v) ==> len[v] >= -1 && (len[v] == 0 ==> v == s)
  }

  /** Queued cells are visited, in order of distance, starting no lower than base. */
  ghost predicate QueueOrdered(g: Graph, len: seq<int>, q: seq<int>, base: int)
    requires |len| == g.Size()
  {
    && (forall i :: 0 <= i < |q| ==> g.IsVertex(q[i]) && len[q[i]] >= 0 && len[q[i]] >= base)
    && (forall i, j :: 0 <= i < j < |q| ==> len[q[i]] <= len[q[j]])
  }

  ghost predicate Ceiling(g: Graph, len: seq<int>, base: int)
    requires |len| == g.Size()
  {
    forall v :: g.IsVertex(v) ==> len[v] <= base + 1
  }

  /** Every visited cell that is not queued has handed its distance to its neighbours (cur only below k). */
  ghost predicate Settled(g: Graph, len: seq<int>, q: seq<int>, cur: int, k: int)
    requires |len| == g.Size()
  {
    forall v, dir, u :: g.Leads(v, dir, u) && len[v] >= 0 && v !in q && (v == cur ==> dir < k) ==>
      0 <= len[u] <= len[v] + 1
  }

  ghost predicate Parents(g: Graph, len: seq<int>)
    requires |len| == g.Size()
  {
    forall v {:trigger HasParent(g, len, v)} :: g.IsVertex(v) && len[v] > 0 ==> HasParent(g, len, v)
  }

  /** The state of the search: `q` is the queue, `cur` (or -1) the cell being expanded in directions 1..k-1. */
  ghost predicate Searching(g: Graph, s: int, len: seq<int>, q: seq<int>, cur: int, k: int) {
    && OneSource(g, s, len)
    && (cur == -1 || (g.IsVertex(cur) && len[cur] >= 0))
    && QueueOrdered(g, len, q, if cur == -1 then 0 else len[cur])
    && (cur != -1 ==> Ceiling(g, len, len[cur]))
    && (cur == -1 && |q| > 0 ==> Ceiling(g, len, len[q[0]]))
    && Settled(g, len, q, cur, k)
    && Parents(g, len)
  }

  lemma PopKeepsSearching(g: Graph, s: int, len: seq<int>, q: seq<int>)
    requires g.Valid() && Searching(g, s, len, q, -1, 0) && |q| > 0
    ensures Searching(g, s, len, q[1..], q[0], 1)
  {
    assert q == [q[0]] + q[1..];
  }

  lemma SkipKeepsSearching(g: Graph, s: int, len: seq<int>, q: seq<int>, cur: int, k: int)
    requires g.Valid() && Searching(g, s, len, q, cur, k) && cur != -1 && 1 <= k < 5
    requires g.HasNeighbor(cur, k) ==> g.IsVertex(g.GetNeighbor(cur, k)) && len[g.GetNeighbor(cur, k)] != -1
    ensures Searching(g, s, len, q, cur, k + 1)
  {
  }

  lemma VisitKeepsSettled(g: Graph, len: seq<int>, q: seq<int>, cur: int, k: int, u: int)
    requires g.Valid() && |len| == g.Size() && Settled(g, len, q, cur, k)
    requires g.Leads(cur, k, u) && len[u] == -1 && len[cur] >= 0
    ensures Settled(g, len[u := len[cur] + 1], q + [u], cur, k + 1)
  {
    var len', q' := len[u := len[cur] + 1], q + [u];
    forall v, dir, w | g.Leads(v, dir, w) && len'[v] >= 0 && v !in q' && (v == cur ==> dir < k + 1)
      ensures 0 <= len'[w] <= len'[v] + 1
    {
      assert u in q';
      assert v != u && v !in q;
      if v == cur && dir == k {
        assert w == u;
      }
    }
  }

  lemma VisitKeepsParents(g: Graph, len: seq<int>, cur: int, k: int, u: int)
    requires g.Valid() && |len| == g.Size() && Parents(g, len)
    requires g.Leads(cur, k, u) && len[u] == -1 && len[cur] >= 0
    ensures Parents(g, len[u := len[cur] + 1])
  {
    var len' := len[u := len[cur] + 1];
    forall v | g.IsVertex(v) && len'[v] > 0 ensures HasParent(g, len', v) {
      if v == u {
        NeighborSymmetry(g, cur, k, u);
        assert g.Leads(u, OppositeDir(k), cur) && len'[cur] == len'[u] - 1;
      } else {
        assert HasParent(g, len, v);
        var dir, w :| g.Leads(v, dir, w) && g.IsVertex(w) && len[w] == len[v] - 1;
        assert g.Leads(v, dir, w) && len'[w] == len'[v] - 1;
      }
    }
  }

  lemma VisitKeepsSearching(g: Graph, s: int, len: seq<int>, q: seq<int>, cur: int, k: int, u: int)
    requires g.Valid() && Searching(g, s, len, q, cur, k) && cur != -1 && 1 <= k < 5
    requires g.Leads(cur, k, u) && len[u] == -1
    ensures Searching(g, s, len[u := len[cur] + 1], q + [u], cur, k + 1)
    ensures Unvisited(len[u := len[cur] + 1]) < Unvisited(len)
  {
    var len', q' := len[u := len[cur] + 1], q + [u];
    assert u !in Unvisited(len') && u in Unvisited(len);
    VisitKeepsSettled(g, len, q, cur, k, u);
    VisitKeepsParents(g, len, cur, k, u);
  }

  lemma EmptyQueueIsTable(g: Graph, s: int, len: seq<int>)
    requires g.Valid() && Searching(g, s, len, [], -1, 0)
    ensures DistTable(g, s, len)
  {
    forall v, dir, u | g.Leads(v, dir, u) && len[v] >= 0 ensures g.IsVertex(u) && 0 <= len[u] <= len[v] + 1 {
      assert v !in [];
    }
  }

  lemma StartSearching(g: Graph, s: int, len: seq<int>)
    requires g.Valid() && g.IsVertex(s) && |len| == g.Size()
    requires forall v :: g.IsVertex(v) ==> len[v] == if v == s then 0 else -1
    ensures Searching(g, s, len, [s], -1, 0)
  {
  }

  lemma ExpandedAll(g: Graph, s: int, len: seq<int>, q: seq<int>, cur: int)
    requires g.Valid() && cur != -1 && Searching(g, s, len, q, cur, 5)
    ensures Searching(g, s, len, q, -1, 0)
  {
  }

  /** Expand cell v in direction dir towards cell c (the four branches of the loop body share this shape). */
  method Expand(g: Grid, lengthFrom: array<int>, que: seq<Vertex>, v: Vertex, dir: int, c: Vertex,
                ghost s: int, ghost q: seq<int>) returns (que': seq<Vertex>, ghost q': seq<int>)
    requires g.Valid() && g.InGrid(v) && g.cells[v.x][v.y] != -1 && 1 <= dir < 5
    requires Searching(GraphOf(g), s, lengthFrom[..], q, g.cells[v.x][v.y], dir)
    requires g.HasNeighborAt(v, dir) ==> g.InGrid(c) && g.cells[c.x][c.y] == g.GetNeighbor(g.cells[v.x][v.y], dir)
    requires SameQueue(g, que, q)
    modifies lengthFrom
    ensures Searching(GraphOf(g), s, lengthFrom[..], q', g.cells[v.x][v.y], dir + 1)
    ensures SameQueue(g, que', q')
    ensures
      || (lengthFrom[..] == old(lengthFrom[..]) && que' == que)
      || Unvisited(lengthFrom[..]) < Unvisited(old(lengthFrom[..]))
  {
    que', q' := que, q;
    ghost var len, cur, h := lengthFrom[..], g.cells[v.x][v.y], GraphOf(g);
    GraphOfValid(g);
    GetNeighborAgrees(g, cur, dir);
    if g.HasNeighborAt(v, dir) && lengthFrom[g.cells[c.x][c.y]] == -1 {
      lengthFrom[g.cells[c.x][c.y]] := lengthFrom[g.cells[v.x][v.y]] + 1;
      que' := que + [c];
      ghost var u := g.cells[c.x][c.y];
      assert h.GetNeighbor(cur, dir) == u;
      VisitKeepsSearching(h, s, len, q, cur, dir, u);
      q' := q + [u];
      assert lengthFrom[..] == len[u := len[cur] + 1];
    } else {
      assert h.HasNeighbor(cur, dir) == g.HasNeighbor(cur, dir);
      SkipKeepsSearching(h, s, len, q, cur, dir);
    }
  }

  ghost predicate SameQueue(g: Grid, que: seq<Vertex>, q: seq<int>)
    requires g.Valid()
  {
    && |que| == |q|
    && forall i :: 0 <= i < |que| ==> g.InGrid(que[i]) && g.cells[que[i].x][que[i].y] == q[i] && q[i] != -1
  }

  method ExpandCell(g: Grid, lengthFrom: array<int>, rest: seq<Vertex>, v: Vertex, ghost s: int, ghost r: seq<int>)
    returns (que: seq<Vertex>, ghost q: seq<int>)
    requires g.Valid() && g.InGrid(v) && g.cells[v.x][v.y] != -1
    requires Searching(GraphOf(g), s, lengthFrom[..], r, g.cells[v.x][v.y], 1)
    requires SameQueue(g, rest, r)
    modifies lengthFrom
    ensures Searching(GraphOf(g), s, lengthFrom[..], q, -1, 0)
    ensures SameQueue(g, que, q)
    ensures
      || (lengthFrom[..] == old(lengthFrom[..]) && que == rest)
      || Unvisited(lengthFrom[..]) < Unvisited(old(lengthFrom[..]))
  {
    GraphOfValid(g);
    assert g.coords[g.cells[v.x][v.y]] == v;
    que, q := Expand(g, lengthFrom, rest, v, 1, Vertex(if v.x > 0 then v.x - 1 else 0, v.y), s, r);
    que, q := Expand(g, lengthFrom, que, v, 2, Vertex(v.x + 1, v.y), s, q);
    que, q := Expand(g, lengthFrom, que, v, 3, Vertex(v.x, if v.y > 0 then v.y - 1 else 0), s, q);
    que, q := Expand(g, lengthFrom, que, v, 4, Vertex(v.x, v.y + 1), s, q);
    ExpandedAll(GraphOf(g), s, lengthFrom[..], q, g.cells[v.x][v.y]);
  }

  /** Breadth-first search: afterwards every entry is the exact distance from start, -1 when unreachable. */
  method BFS(g: Grid, lengthFrom: array<int>, start: Vertex)
    requires g.Valid() && g.InGrid(start) && g.cells[start.x][start.y] != -1
    requires lengthFrom.Length == g.NumberOfVertices()
    requires forall v :: 0 <= v < lengthFrom.Length ==> lengthFrom[v] == -1
    modifies lengthFrom
    ensures DistTable(GraphOf(g), g.cells[start.x][start.y], lengthFrom[..])
    ensures forall v :: g.IsVertex(v) ==> IsDistance(GraphOf(g), g.cells[start.x][start.y], v, lengthFrom[v])
  {
    ghost var s, h := g.cells[start.x][start.y], GraphOf(g);
    GraphOfValid(g);
    lengthFrom[g.cells[start.x][start.y]] := 0;
    var que := [start];
    ghost var q := [s];
    StartSearching(h, s, lengthFrom[..]);

    while |que| > 0
      invariant SameQueue(g, que, q)
      invariant Searching(h, s, lengthFrom[..], q, -1, 0)
      decreases Unvisited(lengthFrom[..]), |que|
    {
      PopKeepsSearching(h, s, lengthFrom[..], q);
      que, q := ExpandCell(g, lengthFrom, que[1..], que[0], s, q[1..]);
    }
    EmptyQueueIsTable(h, s, lengthFrom[..]);
    forall v | g.IsVertex(v) ensures IsDistance(h, s, v, lengthFrom[v]) {
      DistTableExact(h, s, lengthFrom[..], v);
    }
  }
}
