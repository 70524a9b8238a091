/** Variable numbering: each creation pass maps its variables one-to-one onto a contiguous range of numbers. */
module Numbering {
  import opened Encodings

  /** The variable behind each number handed out so far. */
  type Owner = map<int, Atom>

  /** The order in which variables of one kind are numbered. */
  predicate InOrder(x: Atom, y: Atom) {
    match (x, y)
    case (At(a, v, t), At(b, w, s)) => a < b || (a == b && (v < w || (v == w && t < s)))
    case (Pass(a, v, d, t), Pass(b, w, e, s)) =>
      a < b || (a == b && (v < w || (v == w && (d < e || (d == e && t < s)))))
    case (Shift(v, d, t), Shift(w, e, s)) => v < w || (v == w && (d < e || (d == e && t < s)))
    case _ => false
  }

  /** The numbers lo..hi-1 and the variables in `done` correspond one to one and in order, by `id` and by `owner`. */
  ghost predicate Owned(owner: Owner, done: iset<Atom>, id: Atom -> int, lo: int, hi: int) {
    && (forall i :: i in owner <==> lo <= i < hi)
    && (forall i :: i in owner ==> owner[i] in done && id(owner[i]) == i)
    && (forall x :: x in done ==> id(x) in owner && owner[id(x)] == x)
    && (forall i, j :: i in owner && j in owner && i < j ==> InOrder(owner[i], owner[j]))
  }

  function BlockMap(block: seq<Atom>, lit: int): (r: Owner)
    ensures forall i :: i in r <==> lit <= i < lit + |block|
    ensures forall i :: 0 <= i < |block| ==> r[lit + i] == block[i]
  {
    var n := |block|;
    if n == 0 then map[] else BlockMap(block[..n - 1], lit)[lit + (n - 1) := block[n - 1]]
  }

  /** Hand out lit, lit + 1, ... to a block of variables. */
  lemma AddBlock(owner: Owner, done: iset<Atom>, id: Atom -> int, lo: int, lit: int,
                 block: seq<Atom>, done': iset<Atom>, id': Atom -> int)
    returns (owner': Owner)
    requires lo <= lit && Owned(owner, done, id, lo, lit)
    requires forall x :: x in done' <==> x in done || x in block
    requires forall x :: x in done ==> id'(x) == id(x)
    requires forall i :: 0 <= i < |block| ==> id'(block[i]) == lit + i
    requires forall x, y :: x in done && y in block ==> InOrder(x, y)
    requires forall i, j :: 0 <= i < j < |block| ==> InOrder(block[i], block[j])
    ensures Owned(owner', done', id', lo, lit + |block|)
  {
    var b := BlockMap(block, lit);
    owner' := owner + b;
    forall i | i in owner' ensures owner'[i] in done' && id'(owner'[i]) == i {
      if i in b {
        assert b[lit + (i - lit)] == block[i - lit];
      }
    }
    forall i, j | i in owner' && j in owner' && i < j ensures InOrder(owner'[i], owner'[j]) {
      if j in b {
        assert b[lit + (j - lit)] == block[j - lit] && block[j - lit] in block;
      }
      if i in b {
        assert b[lit + (i - lit)] == block[i - lit];
      }
    }
    forall x | x in done' ensures id'(x) in owner' && owner'[id'(x)] == x {
      if x in block {
        var i :| 0 <= i < |block| && block[i] == x;
        assert b[lit + i] == x;
      }
    }
  }

  /** Nothing new, or only new names for what is done: the same numbers for the same variables. */
  lemma OwnedSame(owner: Owner, done: iset<Atom>, id: Atom -> int, done': iset<Atom>, id': Atom -> int, lo: int,
                  hi: int)
    requires Owned(owner, done, id, lo, hi)
    requires forall x :: x in done <==> x in done'
    requires forall x :: x in done ==> id'(x) == id(x)
    ensures Owned(owner, done', id', lo, hi)
  {
  }

  ghost function OfKind(f: Frame, k: Atom): iset<Atom> {
    iset x: Atom | SameKind(x, k) && f.task.Exists(x)
  }

  predicate SameKind(x: Atom, y: Atom) {
    (x.At? && y.At?) || (x.Pass? && y.Pass?) || (x.Shift? && y.Shift?)
  }

  /** The numbers lo..hi-1 and the existing variables like k correspond one to one. */
  ghost predicate Owns(f: Frame, owner: Owner, lo: int, hi: int, k: Atom) {
    Owned(owner, OfKind(f, k), (x: Atom) => f.Id(x), lo, hi)
  }

  /** So numbers grow with agent, cell, direction and timestep. */
  lemma OwnsInOrder(f: Frame, owner: Owner, lo: int, hi: int, k: Atom, x: Atom, y: Atom)
    requires Owns(f, owner, lo, hi, k) && SameKind(x, k) && SameKind(y, k) && f.task.Exists(x) && f.task.Exists(y)
    ensures f.Id(x) < f.Id(y) <==> InOrder(x, y)
  {
    assert x in OfKind(f, k) && y in OfKind(f, k);
    assert owner[f.Id(x)] == x && owner[f.Id(y)] == y;
  }

  /** Blocks created one after the other make one numbering. */
  lemma BlocksNumber(f: Frame, at: Owner, pass: Owner, shift: Owner, n0: int, n1: int, n2: int, n3: int)
    requires n0 <= n1 <= n2 <= n3
    requires Owns(f, at, n0, n1, At(0, 0, 0)) && Owns(f, pass, n1, n2, Pass(0, 0, 0, 0))
    requires Owns(f, shift, n2, n3, Shift(0, 0, 0))
    ensures f.Numbered(n0, n3)
  {
    var owner := at + pass + shift;
    forall x | f.task.Exists(x) ensures n0 <= f.Id(x) < n3 && f.Id(x) in owner && owner[f.Id(x)] == x {
      assert x in OfKind(f, At(0, 0, 0)) || x in OfKind(f, Pass(0, 0, 0, 0)) || x in OfKind(f, Shift(0, 0, 0));
    }
    forall i | n0 <= i < n3 ensures f.IsNumber(i) {
      assert f.task.Exists(owner[i]) && f.Id(owner[i]) == i;
    }
  }

  // ----- At -----

  function AtId(at: seq<seq<TEGAgent>>, x: Atom): int {
    if x.At? && 0 <= x.a < |at| && 0 <= x.v < |at[x.a]|
    then at[x.a][x.v].firstVariable + (x.t - at[x.a][x.v].firstTimestep) else 0
  }

  predicate Earlier(b: int, w: int, a: int, v: int) { b < a || (b == a && w < v) }

  /** The variables of agents before a, and of agent a at cells before v. */
  ghost function AtDone(task: Task, a: int, v: int): iset<Atom> {
    iset x: Atom | x.At? && Earlier(x.a, x.v, a, v) && task.Exists(x)
  }

  /** The table is filled for all agents before a, and for cells before v of agent a. */
  ghost predicate AtFilled(f: Frame, at: seq<seq<TEGAgent>>, a: int, v: int) {
    && 0 <= a < |at| && |at| == a + 1 && |at[a]| == v
    && (forall b :: 0 <= b < a ==> |at[b]| == f.task.inst.graph.Size())
    && (forall b, w :: 0 <= b <= a && 0 <= w < |at[b]| ==> f.AtEntryOk(b, w, at[b][w]))
  }

  function AtAppend(at: seq<seq<TEGAgent>>, a: int, e: TEGAgent): seq<seq<TEGAgent>>
    requires 0 <= a < |at|
  {
    at[a := at[a] + [e]]
  }

  function BlockLength(e: TEGAgent): int {
    if e.firstVariable == 0 then 0 else e.lastTimestep - e.firstTimestep + 1
  }

  /** Give a the numbers lit, lit + 1, ... for being at v throughout its window, if that is not empty. */
  lemma AtBlock(f: Frame, at: seq<seq<TEGAgent>>, owner: Owner, lo: int, lit: int, a: int, v: int, e: TEGAgent)
    returns (owner': Owner)
    requires 0 < lo <= lit && f.task.withAt && f.task.IsAgent(a) && f.task.IsVertex(v)
    requires AtFilled(f, at, a, v) && Owned(owner, AtDone(f.task, a, v), x => AtId(at, x), lo, lit)
    requires f.AtEntryOk(a, v, e) && (e.firstVariable == 0 || e.firstVariable == lit)
    ensures AtFilled(f, AtAppend(at, a, e), a, v + 1) && lo <= lit + BlockLength(e)
    ensures Owned(owner', AtDone(f.task, a, v + 1), x => AtId(AtAppend(at, a, e), x), lo, lit + BlockLength(e))
  {
    var at' := AtAppend(at, a, e);
    var block := seq(BlockLength(e), i => At(a, v, e.firstTimestep + i));
    forall x ensures x in AtDone(f.task, a, v + 1) <==> x in AtDone(f.task, a, v) || x in block {
      if x in AtDone(f.task, a, v + 1) && x !in AtDone(f.task, a, v) {
        assert x == block[x.t - e.firstTimestep];
      }
    }
    owner' := AddBlock(owner, AtDone(f.task, a, v), x => AtId(at, x), lo, lit, block,
                       AtDone(f.task, a, v + 1), x => AtId(at', x));
  }

  /** Open the row of the next agent. */
  lemma AtNextRow(f: Frame, at: seq<seq<TEGAgent>>, owner: Owner, a: int, lo: int, hi: int)
    requires |at| == a && Owned(owner, AtDone(f.task, a, 0), x => AtId(at, x), lo, hi)
    ensures Owned(owner, AtDone(f.task, a, 0), x => AtId(at + [[]], x), lo, hi)
  {
    OwnedSame(owner, AtDone(f.task, a, 0), x => AtId(at, x), AtDone(f.task, a, 0), x => AtId(at + [[]], x), lo, hi);
  }

  lemma AtRowDone(f: Frame, at: seq<seq<TEGAgent>>, owner: Owner, a: int, lo: int, hi: int)
    requires Owned(owner, AtDone(f.task, a, f.task.inst.graph.Size()), x => AtId(at, x), lo, hi)
    ensures Owned(owner, AtDone(f.task, a + 1, 0), x => AtId(at, x), lo, hi)
  {
    OwnedSame(owner, AtDone(f.task, a, f.task.inst.graph.Size()), x => AtId(at, x),
              AtDone(f.task, a + 1, 0), x => AtId(at, x), lo, hi);
  }

  lemma AtOwnedComplete(f: Frame, owner: Owner, lo: int, hi: int)
    requires |f.at| == f.task.agents
    requires Owned(owner, AtDone(f.task, f.task.agents, 0), x => AtId(f.at, x), lo, hi)
    ensures Owns(f, owner, lo, hi, At(0, 0, 0))
  {
    forall x ensures x in OfKind(f, At(0, 0, 0)) <==> x in AtDone(f.task, f.task.agents, 0) {
    }
    forall x | x in OfKind(f, At(0, 0, 0)) ensures f.Id(x) == AtId(f.at, x) {
    }
  }

  // ----- Pass -----

  function PassId(pass: seq<seq<seq<TEGAgent>>>, x: Atom): int {
    if x.Pass? && 0 <= x.a < |pass| && 0 <= x.v < |pass[x.a]| && 0 <= x.dir < |pass[x.a][x.v]|
    then pass[x.a][x.v][x.dir].firstVariable + (x.t - pass[x.a][x.v][x.dir].firstTimestep) else 0
  }

  predicate EarlierEdge(b: int, w: int, d: int, a: int, v: int, dir: int) {
    Earlier(b, w, a, v) || (b == a && w == v && d < dir)
  }

  ghost function PassDone(task: Task, a: int, v: int, dir: int): iset<Atom> {
    iset x: Atom | x.Pass? && EarlierEdge(x.a, x.v, x.dir, a, v, dir) && task.Exists(x)
  }

  /** The list of (a, v) is being filled and holds the directions below dir; the lists before are complete. */
  ghost predicate PassFilled(f: Frame, pass: seq<seq<seq<TEGAgent>>>, a: int, v: int, dir: int) {
    && 0 <= a && |pass| == a + 1 && PassComplete(f, pass[..a], a)
    && 0 <= v && |pass[a]| == v + 1
    && (forall w :: 0 <= w < v ==> PassRow(f, a, w, pass[a][w]))
    && |pass[a][v]| == dir
    && (forall d :: 0 <= d < dir ==> f.PassEntryOk(a, v, d, pass[a][v][d]))
  }

  predicate PassRow(f: Frame, a: int, v: int, row: seq<TEGAgent>) {
    |row| == 5 && forall dir :: 0 <= dir < 5 ==> f.PassEntryOk(a, v, dir, row[dir])
  }

  /** The tables of the first k agents are complete. */
  predicate PassComplete(f: Frame, pass: seq<seq<seq<TEGAgent>>>, k: int) {
    |pass| == k && forall a :: 0 <= a < k ==>
      |pass[a]| == f.task.inst.graph.Size() && forall v :: 0 <= v < |pass[a]| ==> PassRow(f, a, v, pass[a][v])
  }

  function PassAppend(pass: seq<seq<seq<TEGAgent>>>, a: int, v: int, e: TEGAgent): seq<seq<seq<TEGAgent>>>
    requires 0 <= a < |pass| && 0 <= v < |pass[a]|
  {
    pass[a := pass[a][v := pass[a][v] + [e]]]
  }

  lemma PassAppendFilled(f: Frame, pass: seq<seq<seq<TEGAgent>>>, a: int, v: int, dir: int, e: TEGAgent)
    requires PassFilled(f, pass, a, v, dir) && f.PassEntryOk(a, v, dir, e)
    ensures PassFilled(f, PassAppend(pass, a, v, e), a, v, dir + 1)
    ensures forall x :: x in PassDone(f.task, a, v, dir) ==> PassId(PassAppend(pass, a, v, e), x) == PassId(pass, x)
    ensures forall t :: PassId(PassAppend(pass, a, v, e), Pass(a, v, dir, t)) == e.firstVariable + (t - e.firstTimestep)
  {
  }

  lemma PassBlock(f: Frame, pass: seq<seq<seq<TEGAgent>>>, owner: Owner, lo: int, lit: int, a: int, v: int, dir: int,
                  e: TEGAgent)
    returns (owner': Owner)
    requires 0 < lo <= lit && f.task.variables.UsePass? && f.task.IsAgent(a) && f.task.IsVertex(v) && 0 <= dir < 5
    requires PassFilled(f, pass, a, v, dir) && Owned(owner, PassDone(f.task, a, v, dir), x => PassId(pass, x), lo, lit)
    requires f.PassEntryOk(a, v, dir, e) && (e.firstVariable == 0 || e.firstVariable == lit)
    ensures PassFilled(f, PassAppend(pass, a, v, e), a, v, dir + 1) && lo <= lit + BlockLength(e)
    ensures Owned(owner', PassDone(f.task, a, v, dir + 1), x => PassId(PassAppend(pass, a, v, e), x),
                  lo, lit + BlockLength(e))
  {
    var pass' := PassAppend(pass, a, v, e);
    PassAppendFilled(f, pass, a, v, dir, e);
    var block := seq(BlockLength(e), i => Pass(a, v, dir, e.firstTimestep + i));
    forall x ensures x in PassDone(f.task, a, v, dir + 1) <==> x in PassDone(f.task, a, v, dir) || x in block {
      if x in PassDone(f.task, a, v, dir + 1) && x !in PassDone(f.task, a, v, dir) {
        assert x == block[x.t - e.firstTimestep];
      }
    }
    owner' := AddBlock(owner, PassDone(f.task, a, v, dir), x => PassId(pass, x), lo, lit, block,
                       PassDone(f.task, a, v, dir + 1), x => PassId(pass', x));
  }

  /** Open the list of the next agent and cell. */
  lemma PassNextRow(f: Frame, pass: seq<seq<seq<TEGAgent>>>, pass': seq<seq<seq<TEGAgent>>>, owner: Owner,
                    a: int, v: int, lo: int, hi: int)
    requires 0 <= a && Owned(owner, PassDone(f.task, a, v, 0), x => PassId(pass, x), lo, hi)
    requires forall x :: x in PassDone(f.task, a, v, 0) ==> PassId(pass', x) == PassId(pass, x)
    ensures Owned(owner, PassDone(f.task, a, v, 0), x => PassId(pass', x), lo, hi)
  {
    OwnedSame(owner, PassDone(f.task, a, v, 0), x => PassId(pass, x),
              PassDone(f.task, a, v, 0), x => PassId(pass', x), lo, hi);
  }

  lemma PassCellDone(f: Frame, pass: seq<seq<seq<TEGAgent>>>, owner: Owner, a: int, v: int, lo: int, hi: int)
    requires Owned(owner, PassDone(f.task, a, v, 5), x => PassId(pass, x), lo, hi)
    ensures Owned(owner, PassDone(f.task, a, v + 1, 0), x => PassId(pass, x), lo, hi)
  {
    OwnedSame(owner, PassDone(f.task, a, v, 5), x => PassId(pass, x),
              PassDone(f.task, a, v + 1, 0), x => PassId(pass, x), lo, hi);
  }

  lemma PassRowDone(f: Frame, pass: seq<seq<seq<TEGAgent>>>, owner: Owner, a: int, lo: int, hi: int)
    requires Owned(owner, PassDone(f.task, a, f.task.inst.graph.Size(), 0), x => PassId(pass, x), lo, hi)
    ensures Owned(owner, PassDone(f.task, a + 1, 0, 0), x => PassId(pass, x), lo, hi)
  {
    OwnedSame(owner, PassDone(f.task, a, f.task.inst.graph.Size(), 0), x => PassId(pass, x),
              PassDone(f.task, a + 1, 0, 0), x => PassId(pass, x), lo, hi);
  }

  lemma PassOwnedComplete(f: Frame, owner: Owner, lo: int, hi: int)
    requires |f.pass| == f.task.agents
    requires Owned(owner, PassDone(f.task, f.task.agents, 0, 0), x => PassId(f.pass, x), lo, hi)
    ensures Owns(f, owner, lo, hi, Pass(0, 0, 0, 0))
  {
    forall x ensures x in OfKind(f, Pass(0, 0, 0, 0)) <==> x in PassDone(f.task, f.task.agents, 0, 0) {
    }
    forall x | x in OfKind(f, Pass(0, 0, 0, 0)) ensures f.Id(x) == PassId(f.pass, x) {
    }
  }

  // ----- Shift -----

  function ShiftId(shift: seq<seq<ShiftVariables>>, x: Atom): int {
    if x.Shift? && 0 <= x.v < |shift| && 0 <= x.dir < |shift[x.v]|
    then shift[x.v][x.dir].firstVariable + Find(shift[x.v][x.dir].timestep, x.t) else 0
  }

  predicate EarlierShift(w: int, d: int, s: int, v: int, dir: int, t: int) {
    w < v || (w == v && (d < dir || (d == dir && s < t)))
  }

  ghost function ShiftDone(task: Task, v: int, dir: int, t: int): iset<Atom> {
    iset x: Atom | x.Shift? && EarlierShift(x.v, x.dir, x.t, v, dir, t) && task.Exists(x)
  }

  /** The timestep list of (v, dir) is being filled and holds the timesteps before t. */
  ghost predicate ShiftFilling(f: Frame, v: int, dir: int, e: ShiftVariables, t: int) {
    && e.firstVariable > 0
    && (forall i, j :: 0 <= i < j < |e.timestep| ==> e.timestep[i] < e.timestep[j])
    && (forall s :: s in e.timestep <==> s < t && f.task.Exists(Shift(v, dir, s)))
  }

  lemma FindAppend(s: seq<int>, x: int, y: int)
    ensures x in s ==> Find(s + [y], x) == Find(s, x)
    ensures x !in s ==> Find(s + [x], x) == |s|
  {
    var i, j := Find(s, x), Find(s + [y], x);
    if x in s {
      assert (s + [y])[i] == x;
      assert j < |s| ==> s[j] == (s + [y])[j];
    } else {
      assert (s + [x])[|s|] == x;
    }
  }

  function ShiftAppend(shift: seq<seq<ShiftVariables>>, v: int, dir: int, t: int): seq<seq<ShiftVariables>>
    requires 0 <= v < |shift| && 0 <= dir < |shift[v]|
  {
    shift[v := shift[v][dir := shift[v][dir].(timestep := shift[v][dir].timestep + [t])]]
  }

  lemma FillingStep(f: Frame, v: int, dir: int, e: ShiftVariables, t: int)
    requires ShiftFilling(f, v, dir, e, t)
    ensures
      ShiftFilling(f, v, dir, if f.task.Exists(Shift(v, dir, t)) then e.(timestep := e.timestep + [t]) else e, t + 1)
  {
    assert forall i :: 0 <= i < |e.timestep| ==> e.timestep[i] in e.timestep;
  }

  /** One more timestep in the list of (v, dir), numbered lit. */
  lemma ShiftOne(f: Frame, shift: seq<seq<ShiftVariables>>, owner: Owner, lo: int, lit: int, v: int, dir: int, t: int)
    returns (owner': Owner)
    requires 0 <= v < |shift| && 0 <= dir < |shift[v]| && lo <= lit
    requires Owned(owner, ShiftDone(f.task, v, dir, t), x => ShiftId(shift, x), lo, lit)
    requires ShiftFilling(f, v, dir, shift[v][dir], t) && f.task.Exists(Shift(v, dir, t))
    requires lit == shift[v][dir].firstVariable + |shift[v][dir].timestep|
    ensures Owned(owner', ShiftDone(f.task, v, dir, t + 1), x => ShiftId(ShiftAppend(shift, v, dir, t), x), lo, lit + 1)
  {
    var ts := shift[v][dir].timestep;
    var shift' := ShiftAppend(shift, v, dir, t);
    FindAppend(ts, t, t);
    forall x | x in ShiftDone(f.task, v, dir, t) ensures ShiftId(shift', x) == ShiftId(shift, x) {
      FindAppend(ts, x.t, t);
    }
    forall x
      ensures x in ShiftDone(f.task, v, dir, t + 1) <==> x in ShiftDone(f.task, v, dir, t) || x in [Shift(v, dir, t)]
    {
    }
    owner' := AddBlock(owner, ShiftDone(f.task, v, dir, t), x => ShiftId(shift, x), lo, lit, [Shift(v, dir, t)],
                       ShiftDone(f.task, v, dir, t + 1), x => ShiftId(shift', x));
  }

  lemma ShiftSkip(f: Frame, shift: seq<seq<ShiftVariables>>, owner: Owner, lo: int, lit: int, v: int, dir: int, t: int)
    requires Owned(owner, ShiftDone(f.task, v, dir, t), x => ShiftId(shift, x), lo, lit)
    requires !f.task.Exists(Shift(v, dir, t))
    ensures Owned(owner, ShiftDone(f.task, v, dir, t + 1), x => ShiftId(shift, x), lo, lit)
  {
    OwnedSame(owner, ShiftDone(f.task, v, dir, t), x => ShiftId(shift, x),
              ShiftDone(f.task, v, dir, t + 1), x => ShiftId(shift, x), lo, lit);
  }

  function ShiftOpen(shift: seq<seq<ShiftVariables>>, v: int, lit: int): seq<seq<ShiftVariables>>
    requires 0 <= v < |shift|
  {
    shift[v := shift[v] + [ShiftVariables(lit, [])]]
  }

  /** Open the list of the next direction. */
  lemma ShiftNextDir(f: Frame, shift: seq<seq<ShiftVariables>>, owner: Owner, lo: int, lit: int, v: int, dir: int)
    requires 0 <= v < |shift| && |shift[v]| == dir && lit > 0 && 0 <= dir < 5
    requires Owned(owner, ShiftDone(f.task, v, dir, 0), x => ShiftId(shift, x), lo, lit)
    ensures Owned(owner, ShiftDone(f.task, v, dir, 0), x => ShiftId(ShiftOpen(shift, v, lit), x), lo, lit)
    ensures ShiftFilling(f, v, dir, ShiftOpen(shift, v, lit)[v][dir], 0)
  {
    var shift' := ShiftOpen(shift, v, lit);
    OwnedSame(owner, ShiftDone(f.task, v, dir, 0), x => ShiftId(shift, x),
              ShiftDone(f.task, v, dir, 0), x => ShiftId(shift', x), lo, lit);
  }

  lemma ShiftDirDone(f: Frame, shift: seq<seq<ShiftVariables>>, owner: Owner, lo: int, lit: int, v: int, dir: int)
    requires Owned(owner, ShiftDone(f.task, v, dir, f.task.timesteps), x => ShiftId(shift, x), lo, lit)
    ensures Owned(owner, ShiftDone(f.task, v, dir + 1, 0), x => ShiftId(shift, x), lo, lit)
  {
    OwnedSame(owner, ShiftDone(f.task, v, dir, f.task.timesteps), x => ShiftId(shift, x),
              ShiftDone(f.task, v, dir + 1, 0), x => ShiftId(shift, x), lo, lit);
  }

  /** Open the row of the next cell. */
  lemma ShiftNextRow(f: Frame, shift: seq<seq<ShiftVariables>>, owner: Owner, lo: int, lit: int, v: int)
    requires |shift| == v && Owned(owner, ShiftDone(f.task, v, 0, 0), x => ShiftId(shift, x), lo, lit)
    ensures Owned(owner, ShiftDone(f.task, v, 0, 0), x => ShiftId(shift + [[]], x), lo, lit)
  {
    OwnedSame(owner, ShiftDone(f.task, v, 0, 0), x => ShiftId(shift, x),
              ShiftDone(f.task, v, 0, 0), x => ShiftId(shift + [[]], x), lo, lit);
  }

  lemma ShiftRowDone(f: Frame, shift: seq<seq<ShiftVariables>>, owner: Owner, lo: int, lit: int, v: int)
    requires Owned(owner, ShiftDone(f.task, v, 5, 0), x => ShiftId(shift, x), lo, lit)
    ensures Owned(owner, ShiftDone(f.task, v + 1, 0, 0), x => ShiftId(shift, x), lo, lit)
  {
    OwnedSame(owner, ShiftDone(f.task, v, 5, 0), x => ShiftId(shift, x),
              ShiftDone(f.task, v + 1, 0, 0), x => ShiftId(shift, x), lo, lit);
  }

  /** start and end bracket the timesteps of the variables of v created so far. */
  ghost predicate ShiftBracket(task: Task, v: int, dir: int, t: int, start: int, end: int) {
    && start >= -1 && TightBracket(task, v, start, end)
    && forall d, s :: 0 <= d && EarlierShift(v, d, s, v, dir, t) && task.Exists(Shift(v, d, s)) ==>
         start != -1 && start <= s <= end
  }

  /** The bracket begins and ends with timesteps that have a variable. */
  ghost predicate TightBracket(task: Task, v: int, start: int, end: int) {
    (start != -1 ==> ShiftAt(task, v, start)) && (end != -1 ==> ShiftAt(task, v, end))
  }

  ghost predicate ShiftAt(task: Task, v: int, t: int) { exists d :: 0 <= d < 5 && task.Exists(Shift(v, d, t)) }

  /** One more timestep of edge (v, dir), which has a variable at t exactly if can. */
  lemma BracketStep(task: Task, v: int, dir: int, t: int, start: int, end: int, can: bool)
    requires ShiftBracket(task, v, dir, t, start, end) && t >= 0 && 0 <= dir < 5
    requires can <==> task.Exists(Shift(v, dir, t))
    ensures ShiftBracket(task, v, dir, t + 1,
                         if can && (start == -1 || start > t) then t else start, if can && end < t then t else end)
  {
  }

  ghost predicate ShiftRow(f: Frame, v: int, row: seq<ShiftVariables>) {
    |row| == 5 && forall dir :: 0 <= dir < 5 ==> f.ShiftEntryOk(v, dir, row[dir])
  }

  lemma ShiftTableComplete(f: Frame, g: Frame)
    requires g.task == f.task && |g.shift| == |g.shiftTimesStart| == |g.shiftTimesEnd| == f.task.inst.graph.Size()
    requires forall v :: 0 <= v < |g.shift| ==> ShiftRow(f, v, g.shift[v])
    requires forall v :: 0 <= v < |g.shift| ==> ShiftBracket(f.task, v, 5, 0, g.shiftTimesStart[v], g.shiftTimesEnd[v])
    ensures g.ShiftTable()
  {
    forall v | 0 <= v < |g.shift| ensures g.ShiftTimesOk(v) {
      assert ShiftBracket(f.task, v, 5, 0, g.shiftTimesStart[v], g.shiftTimesEnd[v]);
    }
  }

  lemma ShiftOwnedComplete(f: Frame, owner: Owner, lo: int, hi: int)
    requires |f.shift| == f.task.inst.graph.Size()
    requires Owned(owner, ShiftDone(f.task, |f.shift|, 0, 0), x => ShiftId(f.shift, x), lo, hi)
    ensures Owns(f, owner, lo, hi, Shift(0, 0, 0))
  {
    forall x ensures x in OfKind(f, Shift(0, 0, 0)) <==> x in ShiftDone(f.task, |f.shift|, 0, 0) {
    }
    forall x | x in OfKind(f, Shift(0, 0, 0)) ensures f.Id(x) == ShiftId(f.shift, x) {
    }
  }

  /** A pass that creates no variables of its kind. */
  lemma OwnsNothing(f: Frame, lo: int, k: Atom)
    requires k.At? ==> !f.task.withAt
    requires k.Pass? ==> !f.task.variables.UsePass?
    requires k.Shift? ==> !f.task.variables.UseShift?
    ensures Owns(f, map[], lo, lo, k)
  {
  }
}
