/** Plans: what a valid, conflict-free plan is, what it costs, and how an extracted walk is normalised. */
module Plans {
  import opened Distances
  import opened Instances

  type Path = seq<int>
  type Plan = seq<Path>

  /** Parallel motion forbids vertex and swapping conflicts; pebble motion also forbids following. */
  datatype Motion = Parallel | Pebble

  predicate Rectangular(plan: Plan, n: nat) { forall a :: 0 <= a < |plan| ==> |plan[a]| == n }

  function Timesteps(plan: Plan): nat { if |plan| == 0 then 0 else |plan[0]| }

  /** Agents on paths p and q collide at timestep t: the three tests of VerifyPlan. */
  predicate Collide(p: Path, q: Path, t: nat, motion: Motion)
    requires t < |p| == |q|
  {
    || p[t] == q[t]
    || (t < |p| - 1 && p[t] == q[t + 1] && p[t + 1] == q[t])
    || (motion.Pebble? && t < |p| - 1 && (p[t] == q[t + 1] || p[t + 1] == q[t]))
  }

  /** Two agents never collide. */
  predicate Apart(p: Path, q: Path, motion: Motion)
    requires |p| == |q|
  {
    forall t :: 0 <= t < |p| ==> !Collide(p, q, t, motion)
  }

  predicate ConflictFree(plan: Plan, motion: Motion)
    requires Rectangular(plan, Timesteps(plan))
  {
    forall a1, a2 :: 0 <= a1 < a2 < |plan| ==> Apart(plan[a1], plan[a2], motion)
  }

  /** A walk over adjacent cells (or waiting) from the agent's start to its goal. */
  predicate ValidPath(inst: Inst, a: nat, p: Path)
    requires a < |inst.starts| == |inst.goals|
  {
    && |p| > 0
    && p[0] == inst.starts[a]
    && p[|p| - 1] == inst.goals[a]
    && (forall t :: 0 <= t < |p| ==> inst.graph.IsVertex(p[t]))
    && (forall t :: 0 <= t < |p| - 1 ==> inst.graph.Adjacent(p[t], p[t + 1]))
  }

  predicate ValidPlan(inst: Inst, k: nat, motion: Motion, plan: Plan)
    requires k <= |inst.starts| == |inst.goals|
  {
    && |plan| == k
    && Rectangular(plan, Timesteps(plan))
    && (forall a :: 0 <= a < k ==> ValidPath(inst, a, plan[a]))
    && ConflictFree(plan, motion)
  }

  /** The timestep from which p stays at goal for good. */
  function Arrival(p: Path, goal: int): (t: nat)
    ensures t <= |p|
    ensures forall i :: t <= i < |p| ==> p[i] == goal
    ensures t > 0 ==> p[t - 1] != goal
  {
    if |p| == 0 || p[|p| - 1] != goal then |p| else Arrival(p[..|p| - 1], goal)
  }

  lemma ArrivalUnique(p: Path, goal: int, t: nat)
    requires t <= |p| && (forall i :: t <= i < |p| ==> p[i] == goal) && (t > 0 ==> p[t - 1] != goal)
    ensures Arrival(p, goal) == t
  {
    var s := Arrival(p, goal);
    assert t > 0 ==> !(s <= t - 1 < |p|);
    assert s > 0 ==> !(t <= s - 1 < |p|);
  }

  /** Individual plan length: timesteps up to and including the final arrival. */
  function PathCost(p: Path, goal: int): nat { Arrival(p, goal) + 1 }

  function CostOfFirst(plan: Plan, goals: seq<int>, k: nat): nat
    requires k <= |plan| && k <= |goals|
  {
    if k == 0 then 0 else CostOfFirst(plan, goals, k - 1) + PathCost(plan[k - 1], goals[k - 1])
  }

  function SumOfCostsOf(plan: Plan, goals: seq<int>): nat
    requires |plan| <= |goals|
  {
    CostOfFirst(plan, goals, |plan|)
  }

  /** Where the agent is at timestep t, staying at the end of its path. */
  function Pos(p: Path, t: nat): int
    requires |p| > 0
  {
    if t < |p| then p[t] else p[|p| - 1]
  }

  // ----- distances along a path -----

  lemma {:induction false} PathFromStart(inst: Inst, k: nat, a: nat, p: Path, t: nat)
    requires inst.Valid(k) && a < k && ValidPath(inst, a, p) && t < |p|
    ensures inst.AgentTables(a)
    ensures 0 <= inst.lengthFromStart[a][p[t]] <= t
  {
    assert inst.AgentTables(a);
    if t > 0 {
      PathFromStart(inst, k, a, p, t - 1);
      assert inst.graph.Adjacent(p[t - 1], p[t - 1 + 1]);
    }
  }

  /** A cell of the path is at most as far from the goal as the time left until the final arrival. */
  lemma {:induction false} PathToGoal(inst: Inst, k: nat, a: nat, p: Path, t: nat, last: nat)
    requires inst.Valid(k) && a < k && ValidPath(inst, a, p) && t <= last < |p| && p[last] == inst.goals[a]
    ensures inst.AgentTables(a)
    ensures 0 <= inst.lengthFromGoal[a][p[t]] <= last - t
    decreases last - t
  {
    assert inst.AgentTables(a);
    if t < last {
      PathToGoal(inst, k, a, p, t + 1, last);
      assert inst.graph.Adjacent(p[t], p[t + 1]);
      var dir :| 0 <= dir < 5 && inst.graph.Leads(p[t], dir, p[t + 1]);
      DistanceLipschitz(inst.graph, inst.goals[a], inst.lengthFromGoal[a], p[t], dir, p[t + 1]);
    }
  }

  lemma ArrivalInside(inst: Inst, a: nat, p: Path)
    requires a < |inst.starts| == |inst.goals| && ValidPath(inst, a, p)
    ensures Arrival(p, inst.goals[a]) < |p| && p[Arrival(p, inst.goals[a])] == inst.goals[a]
  {
  }

  lemma PathNotShorter(inst: Inst, k: nat, a: nat, p: Path)
    requires inst.Valid(k) && a < k && ValidPath(inst, a, p)
    ensures 0 <= inst.spLengths[a] <= Arrival(p, inst.goals[a]) < |p|
  {
    assert inst.AgentTables(a);
    ArrivalInside(inst, a, p);
    PathFromStart(inst, k, a, p, Arrival(p, inst.goals[a]));
  }

  /** GetMksLB is a lower bound on the timesteps of any valid plan of the first k agents. */
  lemma {:induction false} MakespanLowerBound(inst: Inst, k: nat, j: nat, motion: Motion, plan: Plan)
    requires inst.Valid(k) && j <= k && ValidPlan(inst, k, motion, plan)
    ensures inst.GetMksLB(j) <= Timesteps(plan)
  {
    LowerBoundsCover(inst, j);
    if j > 0 {
      MakespanLowerBound(inst, k, j - 1, motion, plan);
      LowerBoundsCover(inst, j - 1);
      assert inst.AgentTables(j - 1);
      PathNotShorter(inst, k, j - 1, plan[j - 1]);
    }
  }

  /** GetSocLB is a lower bound on the sum of costs, for every prefix of the agents. */
  lemma {:induction false} SumOfCostsLowerBound(inst: Inst, k: nat, j: nat, motion: Motion, plan: Plan)
    requires inst.Valid(k) && j <= k && ValidPlan(inst, k, motion, plan)
    ensures inst.GetSocLB(j) <= CostOfFirst(plan, inst.goals, j)
  {
    LowerBoundsCover(inst, j);
    if j > 0 {
      SumOfCostsLowerBound(inst, k, j - 1, motion, plan);
      LowerBoundsCover(inst, j - 1);
      assert inst.AgentTables(j - 1);
      PathNotShorter(inst, k, j - 1, plan[j - 1]);
    }
  }

  // ----- normalisation -----

  /** Length of the row without its suffix of goal and -1 entries. */
  function Tail(row: seq<int>, goal: int): (t: nat)
    ensures t <= |row|
    ensures forall i :: t <= i < |row| ==> row[i] == goal || row[i] == -1
    ensures t > 0 ==> row[t - 1] != goal && row[t - 1] != -1
  {
    if |row| == 0 || (row[|row| - 1] != goal && row[|row| - 1] != -1) then |row|
    else Tail(row[..|row| - 1], goal)
  }

  /** The row with that suffix turned into goals. */
  function Filled(row: seq<int>, goal: int): (r: seq<int>)
    ensures |r| == |row|
  {
    row[..Tail(row, goal)] + seq(|row| - Tail(row, goal), _ => goal)
  }

  /** Timesteps until every one of the first k rows stays at its goal. */
  function FinalTimestep(plan: Plan, goals: seq<int>, k: nat): (m: nat)
    requires k <= |plan| && k <= |goals|
    ensures m >= 1
    ensures forall a :: 0 <= a < k ==> Tail(plan[a], goals[a]) + 1 <= m
    ensures m == 1 || exists a :: 0 <= a < k && m == Tail(plan[a], goals[a]) + 1
  {
    if k == 0 then 1 else Max(FinalTimestep(plan, goals, k - 1), Tail(plan[k - 1], goals[k - 1]) + 1)
  }

  /** std::vector::resize: cut, or pad with zeros. */
  function Resize(row: seq<int>, n: nat): (r: seq<int>)
    ensures |r| == n
  {
    if n <= |row| then row[..n] else row + seq(n - |row|, _ => 0)
  }

  function FilledPlan(plan: Plan, goals: seq<int>): (r: Plan)
    requires |plan| <= |goals|
    ensures |r| == |plan|
  {
    seq(|plan|, a requires 0 <= a < |plan| <= |goals| => Filled(plan[a], goals[a]))
  }

  function Normalized(plan: Plan, goals: seq<int>): (r: Plan)
    requires |plan| <= |goals|
    ensures |r| == |plan|
  {
    seq(|plan|, a requires 0 <= a < |plan| <= |goals| =>
      Resize(Filled(plan[a], goals[a]), FinalTimestep(plan, goals, |plan|)))
  }

  lemma NormalizedPath(plan: Plan, goals: seq<int>, n: nat, a: nat)
    requires |plan| <= |goals| && a < |plan| && Rectangular(plan, n) && FinalTimestep(plan, goals, |plan|) <= n
    ensures
      var m := FinalTimestep(plan, goals, |plan|);
      var r := Normalized(plan, goals)[a];
      && |r| == m && r == Filled(plan[a], goals[a])[..m]
      && r[m - 1] == goals[a]
      && Arrival(r, goals[a]) == Tail(plan[a], goals[a])
  {
    var m := FinalTimestep(plan, goals, |plan|);
    var r := Normalized(plan, goals)[a];
    ArrivalUnique(r, goals[a], Tail(plan[a], goals[a]));
  }

  /** Cutting two rows where both sit at their goals for good, but keeping one such column, keeps the verdict. */
  lemma PrefixKeepsConflicts(f1: Path, f2: Path, g1: int, g2: int, m: nat, motion: Motion)
    requires 1 <= m <= |f1| == |f2|
    requires forall i :: m - 1 <= i < |f1| ==> f1[i] == g1 && f2[i] == g2
    ensures Apart(f1[..m], f2[..m], motion) <==> Apart(f1, f2, motion)
  {
    var r1, r2 := f1[..m], f2[..m];
    if Apart(f1, f2, motion) {
      forall t | 0 <= t < m ensures !Collide(r1, r2, t, motion) {
        assert !Collide(f1, f2, t, motion);
      }
    }
    if Apart(r1, r2, motion) {
      assert !Collide(r1, r2, m - 1, motion);
      forall t | 0 <= t < |f1| ensures !Collide(f1, f2, t, motion) {
        if t < m {
          assert !Collide(r1, r2, t, motion);
        }
      }
    }
  }

  lemma RowsOf(plan: Plan, goals: seq<int>, n: nat, a: nat)
    requires |plan| <= |goals| && a < |plan| && Rectangular(plan, n) && FinalTimestep(plan, goals, |plan|) <= n
    ensures
      var m := FinalTimestep(plan, goals, |plan|);
      var f := FilledPlan(plan, goals)[a];
      && |f| == n && Normalized(plan, goals)[a] == f[..m]
      && forall i :: m - 1 <= i < n ==> f[i] == goals[a]
  {
  }

  lemma RowPair(plan: Plan, goals: seq<int>, n: nat, a1: nat, a2: nat, motion: Motion)
    requires |plan| <= |goals| && a1 < a2 < |plan| && Rectangular(plan, n)
    requires FinalTimestep(plan, goals, |plan|) <= n
    ensures |FilledPlan(plan, goals)[a1]| == |FilledPlan(plan, goals)[a2]|
    ensures |Normalized(plan, goals)[a1]| == |Normalized(plan, goals)[a2]|
    ensures Apart(Normalized(plan, goals)[a1], Normalized(plan, goals)[a2], motion)
       <==> Apart(FilledPlan(plan, goals)[a1], FilledPlan(plan, goals)[a2], motion)
  {
    RowsOf(plan, goals, n, a1);
    RowsOf(plan, goals, n, a2);
    PrefixKeepsConflicts(FilledPlan(plan, goals)[a1], FilledPlan(plan, goals)[a2], goals[a1], goals[a2],
                         FinalTimestep(plan, goals, |plan|), motion);
  }

  lemma SameVerdict(f: Plan, r: Plan, motion: Motion)
    requires |f| == |r| && Rectangular(f, Timesteps(f)) && Rectangular(r, Timesteps(r))
    requires forall a1, a2 :: 0 <= a1 < a2 < |f| ==> (Apart(r[a1], r[a2], motion) <==> Apart(f[a1], f[a2], motion))
    ensures ConflictFree(r, motion) <==> ConflictFree(f, motion)
  {
  }

  /** Dropping the columns in which every agent sits at its goal neither adds nor hides a conflict. */
  lemma NormalizeKeepsConflicts(plan: Plan, goals: seq<int>, n: nat, motion: Motion)
    requires |plan| <= |goals| && Rectangular(plan, n) && FinalTimestep(plan, goals, |plan|) <= n
    ensures Rectangular(Normalized(plan, goals), Timesteps(Normalized(plan, goals)))
    ensures Rectangular(FilledPlan(plan, goals), Timesteps(FilledPlan(plan, goals)))
    ensures ConflictFree(Normalized(plan, goals), motion) <==> ConflictFree(FilledPlan(plan, goals), motion)
  {
    var f, r := FilledPlan(plan, goals), Normalized(plan, goals);
    forall a1, a2 | 0 <= a1 < a2 < |f| ensures Apart(r[a1], r[a2], motion) <==> Apart(f[a1], f[a2], motion) {
      RowPair(plan, goals, n, a1, a2, motion);
    }
    SameVerdict(f, r, motion);
  }
}
