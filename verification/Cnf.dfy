/** Propositional logic: clauses over integer literals, an at-most-k encoder and a SAT oracle. */
module Cnf {

  datatype Option<+T> = None | Some(value: T)

  /** A literal is a variable (positive) or its negation (negative). */
  type Clause = seq<int>

  /** A model is the set of its true variables. */
  type Model = set<int>

  predicate TrueLit(m: Model, l: int) { if l >= 0 then l in m else -l !in m }

  predicate SatClause(m: Model, c: Clause) { exists l :: l in c && TrueLit(m, l) }

  predicate Sat(m: Model, cs: seq<Clause>) { forall c :: c in cs ==> SatClause(m, c) }

  function Abs(l: int): nat { if l >= 0 then l else -l }

  lemma SatAppend(m: Model, cs: seq<Clause>, ds: seq<Clause>)
    ensures Sat(m, cs + ds) <==> Sat(m, cs) && Sat(m, ds)
  {
    assert forall c :: c in cs + ds <==> c in cs || c in ds;
  }

  lemma SatOne(m: Model, a: int)
    ensures SatClause(m, [a]) <==> TrueLit(m, a)
  {
    assert a in [a];
  }

  lemma SatTwo(m: Model, a: int, b: int)
    ensures SatClause(m, [a, b]) <==> TrueLit(m, a) || TrueLit(m, b)
  {
    assert a in [a, b] && b in [a, b];
  }

  lemma SatThree(m: Model, a: int, b: int, c: int)
    ensures SatClause(m, [a, b, c]) <==> TrueLit(m, a) || TrueLit(m, b) || TrueLit(m, c)
  {
    assert a in [a, b, c] && b in [a, b, c] && c in [a, b, c];
  }

  lemma SatFour(m: Model, a: int, b: int, c: int, d: int)
    ensures SatClause(m, [a, b, c, d]) <==> TrueLit(m, a) || TrueLit(m, b) || TrueLit(m, c) || TrueLit(m, d)
  {
    assert a in [a, b, c, d] && b in [a, b, c, d] && c in [a, b, c, d] && d in [a, b, c, d];
  }

  // ----- which variables matter -----

  /** m and m' agree on the variables below n. */
  ghost predicate Agree(m: Model, m': Model, n: int) { forall x :: 0 < x < n ==> (x in m <==> x in m') }

  /** cs only speaks of variables below n. */
  ghost predicate Below(cs: seq<Clause>, n: int) { forall c, l :: c in cs && l in c ==> 0 < Abs(l) < n }

  /** Variable x occurs in cs. */
  ghost predicate Mentions(cs: seq<Clause>, x: int) { exists c, l :: c in cs && l in c && Abs(l) == x }

  /** Clauses over older variables and fresh ones from lit on have been added; lit' is the next number. */
  ghost predicate AddsFresh(before: seq<Clause>, after: seq<Clause>, lit: int, lit': int) {
    && before <= after && lit <= lit' && (lit' == lit || Mentions(after, lit' - 1))
    && (Below(before, lit) ==> Below(after, lit'))
  }

  lemma AddsFreshMore(c0: seq<Clause>, c1: seq<Clause>, c2: seq<Clause>, l0: int, l1: int, l2: int)
    requires AddsFresh(c0, c1, l0, l1) && AddsFresh(c1, c2, l1, l2)
    ensures AddsFresh(c0, c2, l0, l2)
  {
    MentionsMore(c1, c2, l1 - 1);
  }

  lemma MentionsMore(c1: seq<Clause>, c2: seq<Clause>, x: int)
    requires c1 <= c2
    ensures Mentions(c1, x) ==> Mentions(c2, x)
  {
    if Mentions(c1, x) {
      var c, l :| c in c1 && l in c && Abs(l) == x;
      assert c in c2;
    }
  }

  lemma BelowAppend(cs: seq<Clause>, ds: seq<Clause>, n: int, n': int)
    requires Below(cs, n) && Below(ds, n') && n <= n'
    ensures Below(cs + ds, n')
  {
    forall c, l | c in cs + ds && l in c ensures 0 < Abs(l) < n' {
      assert c in cs || c in ds;
    }
  }

  lemma AgreeSat(m: Model, m': Model, cs: seq<Clause>, n: int)
    requires Agree(m, m', n) && Below(cs, n) && Sat(m, cs)
    ensures Sat(m', cs)
  {
    forall c | c in cs ensures SatClause(m', c) {
      assert SatClause(m, c);
      var l :| l in c && TrueLit(m, l);
      assert 0 < Abs(l) < n;
      assert TrueLit(m', l);
    }
  }

  /** cs cannot tell models apart that agree below n. */
  ghost predicate Indep(cs: seq<Clause>, n: int) {
    forall m, m' {:trigger Agree(m, m', n)} :: Agree(m, m', n) && Sat(m, cs) ==> Sat(m', cs)
  }

  lemma BelowIsIndep(cs: seq<Clause>, n: int)
    requires Below(cs, n)
    ensures Indep(cs, n)
  {
    forall m, m' | Agree(m, m', n) && Sat(m, cs) ensures Sat(m', cs) {
      AgreeSat(m, m', cs, n);
    }
  }

  lemma IndepMonotone(cs: seq<Clause>, n: int, n': int)
    requires Indep(cs, n) && n <= n'
    ensures Indep(cs, n')
  {
    forall m, m' | Agree(m, m', n') && Sat(m, cs) ensures Sat(m', cs) {
      assert Agree(m, m', n);
    }
  }

  lemma IndepAppend(cs: seq<Clause>, ds: seq<Clause>, n: int)
    requires Indep(cs, n) && Indep(ds, n)
    ensures Indep(cs + ds, n)
  {
    forall m, m' | Agree(m, m', n) && Sat(m, cs + ds) ensures Sat(m', cs + ds) {
      SatAppend(m, cs, ds);
      SatAppend(m', cs, ds);
    }
  }

  /** Some model of cs agrees with m below n. */
  ghost predicate ExtendsTo(m: Model, n: int, cs: seq<Clause>) {
    exists m' :: Agree(m, m', n) && Sat(m', cs)
  }

  lemma ExtendsFurther(m: Model, m1: Model, lit: int, lit1: int, cs: seq<Clause>)
    requires lit <= lit1 && Agree(m, m1, lit) && ExtendsTo(m1, lit1, cs)
    ensures ExtendsTo(m, lit, cs)
  {
    var m2 :| Agree(m1, m2, lit1) && Sat(m2, cs);
    assert Agree(m, m2, lit);
  }

  lemma Extension(m: Model, n: int, cs: seq<Clause>) returns (m': Model)
    requires ExtendsTo(m, n, cs)
    ensures Agree(m, m', n) && Sat(m', cs)
  {
    m' :| Agree(m, m', n) && Sat(m', cs);
  }

  // ----- at most k -----

  function Count(m: Model, lits: seq<int>): nat {
    if |lits| == 0 then 0 else (if lits[0] in m then 1 else 0) + Count(m, lits[1..])
  }

  lemma {:induction false} CountAppend(m: Model, xs: seq<int>, ys: seq<int>)
    ensures Count(m, xs + ys) == Count(m, xs) + Count(m, ys)
  {
    if |xs| == 0 {
      assert xs + ys == ys;
    } else {
      assert (xs + ys)[1..] == xs[1..] + ys;
      CountAppend(m, xs[1..], ys);
    }
  }

  predicate PairwiseFalse(m: Model, vc: seq<int>) {
    forall i, j :: 0 <= i < j < |vc| ==> !(vc[i] in m && vc[j] in m)
  }

  lemma {:induction false} CountZero(m: Model, vc: seq<int>)
    ensures Count(m, vc) == 0 <==> forall i :: 0 <= i < |vc| ==> vc[i] !in m
  {
    if |vc| > 0 {
      CountZero(m, vc[1..]);
      assert forall i :: 1 <= i < |vc| ==> vc[i] == vc[1..][i - 1];
    }
  }

  lemma {:induction false} CountPairwise(m: Model, vc: seq<int>)
    ensures Count(m, vc) <= 1 <==> PairwiseFalse(m, vc)
  {
    if |vc| > 0 {
      CountPairwise(m, vc[1..]);
      CountZero(m, vc[1..]);
      assert forall i :: 1 <= i < |vc| ==> vc[i] == vc[1..][i - 1];
      if PairwiseFalse(m, vc[1..]) && (vc[0] in m ==> forall i :: 1 <= i < |vc| ==> vc[i] !in m) {
        forall i, j | 0 <= i < j < |vc| ensures !(vc[i] in m && vc[j] in m) {
          if i > 0 {
            assert vc[i] == vc[1..][i - 1] && vc[j] == vc[1..][j - 1];
          }
        }
      }
      if PairwiseFalse(m, vc) {
        forall i, j | 0 <= i < j < |vc[1..]| ensures !(vc[1..][i] in m && vc[1..][j] in m) {
          assert vc[i + 1] == vc[1..][i] && vc[j + 1] == vc[1..][j];
        }
      }
    }
  }

  predicate LitsBelow(lits: seq<int>, n: int) { forall i :: 0 <= i < |lits| ==> 0 < lits[i] < n }

  lemma LitsBelowAppend(xs: seq<int>, ys: seq<int>, n: int, n': int)
    requires LitsBelow(xs, n) && LitsBelow(ys, n') && n <= n'
    ensures LitsBelow(xs + ys, n')
  {
  }

  lemma {:induction false} CountAgree(m: Model, m': Model, lits: seq<int>, n: int)
    requires Agree(m, m', n) && LitsBelow(lits, n)
    ensures Count(m, lits) == Count(m', lits)
  {
    if |lits| > 0 {
      CountAgree(m, m', lits[1..], n);
    }
  }

  predicate Node(m: Model, b: int, j: int) { b + j in m }

  /** The variables of a layer at b from its c-th one on. */
  function NodesFrom(b: int, k: int, c: nat): (r: set<int>)
    ensures forall x :: x in r <==> b + c <= x <= b + k
    decreases k
  {
    if k < c then {} else NodesFrom(b, k - 1, c) + {b + k}
  }

  /** Meaning of the layer of the counter at b: its j-th variable says that at most j of lits are true. */
  ghost predicate LayerSound(m: Model, b: int, k: nat, lits: seq<int>) {
    forall j :: 0 <= j <= k && Node(m, b, j) ==> Count(m, lits) <= j
  }

  ghost predicate LayerExact(m: Model, b: int, k: nat, lits: seq<int>) {
    forall j :: 0 <= j <= k ==> (Node(m, b, j) <==> Count(m, lits) <= j)
  }

  /** Variable j at b' implies what it must about x and the layer at b. */
  ghost predicate LayerStep(m: Model, b: int, b': int, x: int, j: int) {
    Node(m, b', j) ==> Node(m, b, j) && (x in m ==> j > 0 && Node(m, b, j - 1))
  }

  /** Some model of the formula agrees with m below n and has an exact layer at b. */
  ghost predicate Extends(m: Model, formula: seq<Clause>, n: int, b: int, k: nat, lits: seq<int>) {
    exists m' :: Agree(m, m', n) && Sat(m', formula) && LayerExact(m', b, k, lits)
  }

  method EncodeLayer(x: int, b: int, b': int, k: nat) returns (formula: seq<Clause>)
    requires 0 < x < b && b' == b + k + 1
    ensures Below(formula, b' + k + 1)
    ensures forall m :: Sat(m, formula) <==> forall j :: 0 <= j <= k ==> LayerStep(m, b, b', x, j)
  {
    formula := [];
    for j := 0 to k + 1
      invariant Below(formula, b' + k + 1)
      invariant forall m :: Sat(m, formula) <==> forall i :: 0 <= i < j ==> LayerStep(m, b, b', x, i)
    {
      ghost var before := formula;
      var c1, c2 := [-(b' + j), b + j], if j == 0 then [-(b' + j), -x] else [-(b' + j), -x, b + j - 1];
      formula := formula + [c1, c2];
      forall m: Model ensures Sat(m, formula) <==> Sat(m, before) && LayerStep(m, b, b', x, j) {
        SatAppend(m, before, [c1, c2]);
        assert c1 in [c1, c2] && c2 in [c1, c2];
        SatTwo(m, -(b' + j), b + j);
        SatTwo(m, -(b' + j), -x);
        SatThree(m, -(b' + j), -x, b + j - 1);
      }
    }
  }

  /** A model of the lower layers extends to the new one. */
  lemma ExtendLayer(m: Model, formula: seq<Clause>, layer: seq<Clause>, b: int, b': int, k: nat, lits: seq<int>, n: int)
    requires |lits| > 0 && 0 < n <= b && b' == b + k + 1 && LitsBelow(lits, n)
    requires Sat(m, formula) && Below(formula, b') && LayerExact(m, b, k, lits[1..])
    requires forall m' :: Sat(m', layer) <==> forall j :: 0 <= j <= k ==> LayerStep(m', b, b', lits[0], j)
    ensures Extends(m, formula + layer, b', b', k, lits)
  {
    var m' := (set x | x in m && x < b') + NodesFrom(b', k, Count(m, lits));
    assert Agree(m, m', b');
    AgreeSat(m, m', formula, b');
    CountAgree(m, m', lits, n);
    forall j | 0 <= j <= k ensures LayerStep(m', b, b', lits[0], j) {
      assert Node(m', b, j) <==> Node(m, b, j);
      assert j > 0 ==> (Node(m', b, j - 1) <==> Node(m, b, j - 1));
    }
    SatAppend(m', formula, layer);
  }

  lemma LayerStepSound(m: Model, b: int, b': int, k: nat, lits: seq<int>)
    requires |lits| > 0 && LayerSound(m, b, k, lits[1..])
    requires forall j :: 0 <= j <= k ==> LayerStep(m, b, b', lits[0], j)
    ensures LayerSound(m, b', k, lits)
  {
    forall j | 0 <= j <= k && Node(m, b', j) ensures Count(m, lits) <= j {
      assert LayerStep(m, b, b', lits[0], j);
      if lits[0] in m {
        assert Node(m, b, j - 1);
      }
    }
  }

  /**
   * pblib's encodeAtMostK: fresh variables from `first` to `last`, and the models of the formula are, on the
   * older variables, exactly those with at most k of the literals true.
   */
  method EncodeAtMostK(lits: seq<int>, k: nat, first: int) returns (formula: seq<Clause>, last: int)
    requires first > 0 && LitsBelow(lits, first)
    ensures last >= first - 1 && Below(formula, last + 1) && Mentions(formula, last)
    ensures forall m :: Sat(m, formula) ==> Count(m, lits) <= k
    ensures forall m :: Count(m, lits) <= k ==> exists m' :: Agree(m, m', first) && Sat(m', formula)
  {
    formula := [];
    var b, i := first, |lits|;
    assert lits[i..] == [];
    forall m: Model ensures Extends(m, formula, first, b, k, lits[i..]) {
      var m' := (set x | x in m && x < first) + NodesFrom(first, k, 0);
      assert Agree(m, m', first) && Sat(m', formula);
      assert forall j :: 0 <= j <= k ==> Node(m', b, j);
      assert LayerExact(m', b, k, lits[i..]);
    }
    while i > 0
      invariant 0 <= i <= |lits| && first <= b
      invariant Below(formula, b + k + 1)
      invariant forall m :: Sat(m, formula) ==> LayerSound(m, b, k, lits[i..])
      invariant forall m :: Extends(m, formula, first, b, k, lits[i..])
    {
      i := i - 1;
      assert lits[i..][0] == lits[i] && lits[i..][1..] == lits[i + 1..];
      ghost var before := formula;
      var layer := EncodeLayer(lits[i], b, b + k + 1, k);
      formula := formula + layer;
      forall m | Sat(m, formula) ensures LayerSound(m, b + k + 1, k, lits[i..]) {
        SatAppend(m, before, layer);
        LayerStepSound(m, b, b + k + 1, k, lits[i..]);
      }
      ghost var b' := b + k + 1;
      forall m: Model ensures Extends(m, formula, first, b', k, lits[i..]) {
        assert Extends(m, before, first, b, k, lits[i + 1..]);
        var m1 :| Agree(m, m1, first) && Sat(m1, before) && LayerExact(m1, b, k, lits[i + 1..]);
        ExtendLayer(m1, before, layer, b, b + k + 1, k, lits[i..], first);
        var m2 :| Agree(m1, m2, b + k + 1) && Sat(m2, before + layer) && LayerExact(m2, b + k + 1, k, lits[i..]);
        assert Agree(m, m2, first);
      }
      b := b + k + 1;
    }
    ghost var before := formula;
    formula := formula + [[b + k]];
    last := b + k;
    assert formula[|formula| - 1] in formula && b + k in formula[|formula| - 1] && Abs(b + k) == b + k;
    forall m: Model ensures Sat(m, formula) <==> Sat(m, before) && b + k in m {
      SatAppend(m, before, [[b + k]]);
      SatOne(m, b + k);
    }
    assert lits[i..] == lits;
    forall m | Sat(m, formula) ensures Count(m, lits) <= k {
      assert Node(m, b, k);
    }
    forall m | Count(m, lits) <= k ensures exists m' :: Agree(m, m', first) && Sat(m', formula) {
      assert Extends(m, before, first, b, k, lits[i..]);
      var m' :| Agree(m, m', first) && Sat(m', before) && LayerExact(m', b, k, lits[i..]);
      CountAgree(m, m', lits, first);
      assert Node(m', b, k);
      assert Sat(m', formula);
    }
  }

  // ----- the oracle -----

  function MaxVar(cs: seq<Clause>): (n: nat)
    ensures forall c, l :: c in cs && l in c ==> Abs(l) <= n
  {
    if |cs| == 0 then 0
    else
      var a, b := MaxOf(cs[0]), MaxVar(cs[1..]);
      if a > b then a else b
  }

  function MaxOf(c: Clause): (n: nat)
    ensures forall l :: l in c ==> Abs(l) <= n
  {
    if |c| == 0 then 0
    else
      var b := MaxOf(c[1..]);
      if Abs(c[0]) > b then Abs(c[0]) else b
  }

  /** m decides the variables above n; try both values of n, n - 1, ..., 0 below it. */
  function Search(cs: seq<Clause>, n: int, m: Model): (r: Option<Model>)
    requires n >= -1
    ensures r.Some? ==> Sat(r.value, cs)
    ensures r.None? ==> forall m': Model :: (forall x :: x > n ==> (x in m' <==> x in m)) ==> !Sat(m', cs)
    decreases n
  {
    if n == -1 then
      assert forall m' :: (forall x :: x > n ==> (x in m' <==> x in m)) && Sat(m', cs) ==> Sat(m, cs) by {
        forall m' | (forall x :: x > n ==> (x in m' <==> x in m)) && Sat(m', cs) ensures Sat(m, cs) {
          SameVariables(m', m, cs);
        }
      }
      if Sat(m, cs) then Some(m) else None
    else
      var r := Search(cs, n - 1, m + {n});
      if r.Some? then r else Search(cs, n - 1, m - {n})
  }

  lemma SameVariables(m: Model, m': Model, cs: seq<Clause>)
    requires (forall c, l :: c in cs && l in c ==> (Abs(l) in m <==> Abs(l) in m')) && Sat(m, cs)
    ensures Sat(m', cs)
  {
    forall c | c in cs ensures SatClause(m', c) {
      assert SatClause(m, c);
      var l :| l in c && TrueLit(m, l);
      assert Abs(l) in m <==> Abs(l) in m';
      assert TrueLit(m', l);
    }
  }

  /** The contract CaDiCaL is trusted for, here met by exhaustive search: a model of the clauses, or there is none. */
  method CallSolver(cs: seq<Clause>) returns (r: Option<Model>)
    ensures r.Some? ==> Sat(r.value, cs)
    ensures r.None? ==> forall m :: !Sat(m, cs)
  {
    r := Search(cs, MaxVar(cs), {});
    if r.None? {
      forall m: Model ensures !Sat(m, cs) {
        var m' := set x | x in m && x <= MaxVar(cs);
        if Sat(m, cs) {
          SameVariables(m, m', cs);
        }
      }
    }
  }
}
