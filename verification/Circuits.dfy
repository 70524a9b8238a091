/**
 * Combinational circuits as clauses, src/externals/monosat/api/Circuit.h. A literal is a non-zero number, its
 * negation ~a is -a.
 */
module Circuits {
  import opened Cnf
  import opened Binary

  // ----- numbers made of literals -----

  function Bit(m: Model, a: int): (b: nat)
    ensures b <= 1
  {
    if TrueLit(m, a) then 1 else 0
  }

  /** The number denoted by literals, least significant first. */
  function Num(m: Model, lits: seq<int>): nat {
    if |lits| == 0 then 0 else Bit(m, lits[0]) + 2 * Num(m, lits[1..])
  }

  lemma {:induction false} NumAppend(m: Model, xs: seq<int>, ys: seq<int>)
    ensures Num(m, xs + ys) == Num(m, xs) + Pow2(|xs|) * Num(m, ys)
  {
    if |xs| == 0 {
      assert xs + ys == ys;
    } else {
      NumAppend(m, xs[1..], ys);
      assert (xs + ys)[1..] == xs[1..] + ys;
      MulAssociative(2, Pow2(|xs| - 1), Num(m, ys));
    }
  }

  lemma MulAssociative(a: int, b: int, c: int)
    ensures a * (b * c) == a * b * c
  {
  }

  lemma NumPush(m: Model, xs: seq<int>, x: int)
    ensures Num(m, xs + [x]) == Num(m, xs) + Pow2(|xs|) * Bit(m, x)
  {
    NumAppend(m, xs, [x]);
    assert Num(m, [x]) == Bit(m, x) + 2 * Num(m, [x][1..]);
  }

  lemma {:induction false} NumBound(m: Model, lits: seq<int>)
    ensures Num(m, lits) < Pow2(|lits|)
  {
    if |lits| > 0 {
      NumBound(m, lits[1..]);
    }
  }

  // ----- extending a formula -----

  /** A formula and the number of its next variable. */
  datatype State = State(nVars: int, clauses: seq<Clause>)

  /**
   * after only adds constraints on variables new in it: every model of before is, on the old variables, one of after.
   */
  ghost predicate Conservative(before: State, after: State) {
    && before.nVars <= after.nVars
    && (forall m :: Sat(m, after.clauses) ==> Sat(m, before.clauses))
    && (forall m :: Sat(m, before.clauses) ==> ExtendsTo(m, before.nVars, after.clauses))
  }

  lemma ConservativeRefl(s: State)
    ensures Conservative(s, s)
  {
    assert forall m :: Agree(m, m, s.nVars);
  }

  lemma ConservativeTrans(s1: State, s2: State, s3: State)
    requires Conservative(s1, s2) && Conservative(s2, s3)
    ensures Conservative(s1, s3)
  {
    hide Sat, Agree, ExtendsTo;
    forall m | Sat(m, s1.clauses) ensures ExtendsTo(m, s1.nVars, s3.clauses) {
      var m' := Extension(m, s1.nVars, s2.clauses);
      ExtendsFurther(m, m', s1.nVars, s2.nVars, s3.clauses);
    }
  }

  /** m with variable n set to b. */
  function SetVar(m: Model, n: int, b: bool): (m': Model)
    requires n > 0
    ensures Agree(m, m', n)
    ensures TrueLit(m', n) == b && TrueLit(m', -n) == !b
    ensures forall l :: 0 < Abs(l) < n ==> (TrueLit(m', l) <==> TrueLit(m, l))
  {
    if b then m + {n} else m - {n}
  }

  /** Clauses that define the new variable of s as a function of the old ones are conservative. */
  lemma DefinitionConservative(s: State, defs: seq<Clause>, value: Model -> bool)
    requires s.nVars > 0 && Below(s.clauses, s.nVars)
    requires forall m :: Sat(SetVar(m, s.nVars, value(m)), defs)
    ensures Conservative(s, State(s.nVars + 1, s.clauses + defs))
  {
    forall m ensures Sat(m, s.clauses + defs) <==> Sat(m, s.clauses) && Sat(m, defs) {
      SatAppend(m, s.clauses, defs);
    }
    forall m | Sat(m, s.clauses) ensures ExtendsTo(m, s.nVars, s.clauses + defs) {
      var m' := SetVar(m, s.nVars, value(m));
      AgreeSat(m, m', s.clauses, s.nVars);
      assert Sat(m', s.clauses + defs);
    }
  }

  // ----- the clauses of the gates -----

  function AndClauses(a: int, b: int, out: int): seq<Clause> { [[a, -out], [b, -out], [-a, -b, out]] }

  function OrClauses(a: int, b: int, out: int): seq<Clause> { [[-a, out], [-b, out], [a, b, -out]] }

  function XorClauses(a: int, b: int, out: int): seq<Clause> {
    [[a, b, -out], [-a, b, out], [a, -b, out], [-a, -b, -out]]
  }

  lemma SatTriple(m: Model, c: Clause, d: Clause, e: Clause)
    ensures Sat(m, [c, d, e]) <==> SatClause(m, c) && SatClause(m, d) && SatClause(m, e)
  {
    assert c in [c, d, e] && d in [c, d, e] && e in [c, d, e];
  }

  lemma AndMeans(m: Model, a: int, b: int, out: int)
    requires a != 0 && b != 0 && out != 0
    ensures Sat(m, AndClauses(a, b, out)) <==> (TrueLit(m, out) <==> TrueLit(m, a) && TrueLit(m, b))
  {
    SatTriple(m, [a, -out], [b, -out], [-a, -b, out]);
    SatTwo(m, a, -out);
    SatTwo(m, b, -out);
    SatThree(m, -a, -b, out);
  }

  lemma OrMeans(m: Model, a: int, b: int, out: int)
    requires a != 0 && b != 0 && out != 0
    ensures Sat(m, OrClauses(a, b, out)) <==> (TrueLit(m, out) <==> TrueLit(m, a) || TrueLit(m, b))
  {
    SatTriple(m, [-a, out], [-b, out], [a, b, -out]);
    SatTwo(m, -a, out);
    SatTwo(m, -b, out);
    SatThree(m, a, b, -out);
  }

  lemma XorMeans(m: Model, a: int, b: int, out: int)
    requires a != 0 && b != 0 && out != 0
    ensures Sat(m, XorClauses(a, b, out)) <==> (TrueLit(m, out) <==> TrueLit(m, a) != TrueLit(m, b))
  {
    var cs := XorClauses(a, b, out);
    assert Sat(m, cs) <==> SatClause(m, cs[0]) && SatClause(m, cs[1]) && SatClause(m, cs[2]) && SatClause(m, cs[3]) by {
      assert cs[0] in cs && cs[1] in cs && cs[2] in cs && cs[3] in cs;
    }
    SatThree(m, a, b, -out);
    SatThree(m, -a, b, out);
    SatThree(m, a, -b, out);
    SatThree(m, -a, -b, -out);
  }

  lemma AndConservative(s: State, a: int, b: int)
    requires s.nVars > 0 && Below(s.clauses, s.nVars) && 0 < Abs(a) < s.nVars && 0 < Abs(b) < s.nVars
    ensures Conservative(s, State(s.nVars + 1, s.clauses + AndClauses(a, b, s.nVars)))
  {
    var value := (m: Model) => TrueLit(m, a) && TrueLit(m, b);
    forall m ensures Sat(SetVar(m, s.nVars, value(m)), AndClauses(a, b, s.nVars)) {
      AndMeans(SetVar(m, s.nVars, value(m)), a, b, s.nVars);
    }
    DefinitionConservative(s, AndClauses(a, b, s.nVars), value);
  }

  lemma OrConservative(s: State, a: int, b: int)
    requires s.nVars > 0 && Below(s.clauses, s.nVars) && 0 < Abs(a) < s.nVars && 0 < Abs(b) < s.nVars
    ensures Conservative(s, State(s.nVars + 1, s.clauses + OrClauses(a, b, s.nVars)))
  {
    var value := (m: Model) => TrueLit(m, a) || TrueLit(m, b);
    forall m ensures Sat(SetVar(m, s.nVars, value(m)), OrClauses(a, b, s.nVars)) {
      OrMeans(SetVar(m, s.nVars, value(m)), a, b, s.nVars);
    }
    DefinitionConservative(s, OrClauses(a, b, s.nVars), value);
  }

  lemma XorConservative(s: State, a: int, b: int)
    requires s.nVars > 0 && Below(s.clauses, s.nVars) && 0 < Abs(a) < s.nVars && 0 < Abs(b) < s.nVars
    ensures Conservative(s, State(s.nVars + 1, s.clauses + XorClauses(a, b, s.nVars)))
  {
    var value := (m: Model) => TrueLit(m, a) != TrueLit(m, b);
    forall m ensures Sat(SetVar(m, s.nVars, value(m)), XorClauses(a, b, s.nVars)) {
      XorMeans(SetVar(m, s.nVars, value(m)), a, b, s.nVars);
    }
    DefinitionConservative(s, XorClauses(a, b, s.nVars), value);
  }

  // ----- what the outputs denote -----

  /** sum and carry are, in every model of cs, those of adding the numbers a and b. */
  ghost predicate Adds(cs: seq<Clause>, a: seq<int>, b: seq<int>, sum: seq<int>, carry: int) {
    forall m :: Sat(m, cs) ==> Num(m, sum) + Pow2(|sum|) * Bit(m, carry) == Num(m, a) + Num(m, b)
  }

  ghost predicate Subtracts(cs: seq<Clause>, a: seq<int>, b: seq<int>, dif: seq<int>, borrow: int) {
    forall m :: Sat(m, cs) ==> Num(m, dif) + Num(m, b) == Num(m, a) + Pow2(|dif|) * Bit(m, borrow)
  }

  lemma Distribute(p: int, x: int, y: int, z: int)
    ensures p * (x + y + z) == p * x + p * y + p * z
  {
  }

  lemma AddsPush(m: Model, a: seq<int>, b: seq<int>, sum: seq<int>, carry: int, x: int, y: int, s: int, c: int)
    requires |a| == |b| == |sum|
    requires Num(m, sum) + Pow2(|sum|) * Bit(m, carry) == Num(m, a) + Num(m, b)
    requires Bit(m, s) + 2 * Bit(m, c) == Bit(m, x) + Bit(m, y) + Bit(m, carry)
    ensures Num(m, sum + [s]) + Pow2(|sum| + 1) * Bit(m, c) == Num(m, a + [x]) + Num(m, b + [y])
  {
    hide Num, Bit;
    NumPush(m, sum, s);
    NumPush(m, a, x);
    NumPush(m, b, y);
    RowPushArithmetic(Pow2(|sum|), Num(m, sum), 1, Num(m, a), Num(m, b), Bit(m, carry), Bit(m, x), Bit(m, y), Bit(m, s),
                      Bit(m, c));
  }

  lemma RowPushArithmetic(p: int, res: int, q: nat, ms: int, xs: int, carry: int, m0: int, x: int, s: int, c: int)
    requires q <= 1 && res + p * carry == q * ms + xs && s + 2 * c == q * m0 + x + carry
    ensures res + p * s + 2 * p * c == q * (ms + p * m0) + (xs + p * x)
  {
    Distribute(p, s, c, c);
    Distribute(p, q * m0, x, carry);
    assert 2 * p * c == p * c + p * c;
    assert q == 0 || q == 1;
  }

  lemma SubtractsPush(m: Model, a: seq<int>, b: seq<int>, dif: seq<int>, borrow: int, x: int, y: int, d: int, c: int)
    requires |a| == |b| == |dif|
    requires Num(m, dif) + Num(m, b) == Num(m, a) + Pow2(|dif|) * Bit(m, borrow)
    requires Bit(m, d) + Bit(m, y) + Bit(m, borrow) == Bit(m, x) + 2 * Bit(m, c)
    ensures Num(m, dif + [d]) + Num(m, b + [y]) == Num(m, a + [x]) + Pow2(|dif| + 1) * Bit(m, c)
  {
    hide Num, Bit;
    NumPush(m, dif, d);
    NumPush(m, a, x);
    NumPush(m, b, y);
    SubtractArithmetic(Pow2(|dif|), Num(m, dif), Num(m, a), Num(m, b), Bit(m, borrow), Bit(m, x), Bit(m, y), Bit(m, d),
                       Bit(m, c));
  }

  lemma SubtractArithmetic(p: int, dif: int, a: int, b: int, borrow: int, x: int, y: int, d: int, c: int)
    requires dif + b == a + p * borrow && d + y + borrow == x + 2 * c
    ensures dif + p * d + (b + p * y) == a + p * x + 2 * p * c
  {
    Distribute(p, d, y, borrow);
    Distribute(p, x, c, c);
    assert 2 * p * c == p * c + p * c;
  }

  lemma FirstBit(cs: seq<Clause>, a: seq<int>, b: seq<int>, s: int, c: int)
    requires |a| == |b| > 0
    requires forall m :: Sat(m, cs) ==> Bit(m, s) + 2 * Bit(m, c) == Bit(m, a[0]) + Bit(m, b[0])
    ensures Adds(cs, a[..1], b[..1], [s], c)
  {
    assert a[..1] == [a[0]] && b[..1] == [b[0]] && Pow2(1) == 2 * Pow2(0);
    forall m ensures Num(m, [s]) == Bit(m, s) && Num(m, [a[0]]) == Bit(m, a[0]) && Num(m, [b[0]]) == Bit(m, b[0]) {
      NumOne(m, s);
      NumOne(m, a[0]);
      NumOne(m, b[0]);
    }
  }

  lemma FirstDifference(cs: seq<Clause>, a: seq<int>, b: seq<int>, d: int, c: int)
    requires |a| == |b| > 0
    requires forall m :: Sat(m, cs) ==> Bit(m, d) + Bit(m, b[0]) == Bit(m, a[0]) + 2 * Bit(m, c)
    ensures Subtracts(cs, a[..1], b[..1], [d], c)
  {
    assert a[..1] == [a[0]] && b[..1] == [b[0]] && Pow2(1) == 2 * Pow2(0);
    forall m ensures Num(m, [d]) == Bit(m, d) && Num(m, [a[0]]) == Bit(m, a[0]) && Num(m, [b[0]]) == Bit(m, b[0]) {
      NumOne(m, d);
      NumOne(m, a[0]);
      NumOne(m, b[0]);
    }
  }

  lemma NumOne(m: Model, a: int)
    ensures Num(m, [a]) == Bit(m, a)
  {
    assert [a][1..] == [];
  }

  lemma AddsNext(before: seq<Clause>, after: seq<Clause>, a: seq<int>, b: seq<int>, sum: seq<int>, carry: int, s: int,
                 c: int)
    requires |a| == |b| > |sum| && Adds(before, a[..|sum|], b[..|sum|], sum, carry)
    requires forall m :: Sat(m, after) ==>
      Sat(m, before) && Bit(m, s) + 2 * Bit(m, c) == Bit(m, a[|sum|]) + Bit(m, b[|sum|]) + Bit(m, carry)
    ensures Adds(after, a[..|sum| + 1], b[..|sum| + 1], sum + [s], c)
  {
    hide Num, Bit, Sat;
    var i := |sum|;
    assert a[..i + 1] == a[..i] + [a[i]] && b[..i + 1] == b[..i] + [b[i]];
    forall m | Sat(m, after)
      ensures Num(m, sum + [s]) + Pow2(i + 1) * Bit(m, c) == Num(m, a[..i + 1]) + Num(m, b[..i + 1])
    {
      AddsPush(m, a[..i], b[..i], sum, carry, a[i], b[i], s, c);
    }
  }

  lemma SubtractsNext(before: seq<Clause>, after: seq<Clause>, a: seq<int>, b: seq<int>, dif: seq<int>, borrow: int,
                      d: int, c: int)
    requires |a| == |b| > |dif| && Subtracts(before, a[..|dif|], b[..|dif|], dif, borrow)
    requires forall m :: Sat(m, after) ==>
      Sat(m, before) && Bit(m, d) + Bit(m, b[|dif|]) + Bit(m, borrow) == Bit(m, a[|dif|]) + 2 * Bit(m, c)
    ensures Subtracts(after, a[..|dif| + 1], b[..|dif| + 1], dif + [d], c)
  {
    hide Num, Bit, Sat;
    var i := |dif|;
    assert a[..i + 1] == a[..i] + [a[i]] && b[..i + 1] == b[..i] + [b[i]];
    forall m | Sat(m, after)
      ensures Num(m, dif + [d]) + Num(m, b[..i + 1]) == Num(m, a[..i + 1]) + Pow2(i + 1) * Bit(m, c)
    {
      SubtractsPush(m, a[..i], b[..i], dif, borrow, a[i], b[i], d, c);
    }
  }

  // ----- rows of the multiplier -----

  /** res and carry are the sum of q times the number ms and the number xs. */
  ghost predicate RowAdds(cs: seq<Clause>, q: int, ms: seq<int>, xs: seq<int>, res: seq<int>, carry: int) {
    forall m :: Sat(m, cs) ==> Num(m, res) + Pow2(|res|) * Bit(m, carry) == Bit(m, q) * Num(m, ms) + Num(m, xs)
  }

  /** xs is q times the first bits of ys. */
  ghost predicate RowScaled(cs: seq<Clause>, q: int, xs: seq<int>, ys: seq<int>) {
    |xs| <= |ys| && forall m, k :: Sat(m, cs) && 0 <= k < |xs| ==> Bit(m, xs[k]) == Bit(m, q) * Bit(m, ys[k])
  }

  /** res, its last literal being the carry, is the sum of q times the number ms and the number xs. */
  ghost predicate RowIs(cs: seq<Clause>, q: int, ms: seq<int>, xs: seq<int>, res: seq<int>) {
    forall m :: Sat(m, cs) ==> Num(m, res) == Bit(m, q) * Num(m, ms) + Num(m, xs)
  }

  /** The same for the first row: q1 * mm + q0 * (mm / 2). */
  ghost predicate FirstRowIs(cs: seq<Clause>, q0: int, q1: int, mm: seq<int>, res: seq<int>)
    requires |mm| > 0
  {
    forall m :: Sat(m, cs) ==> Num(m, res) == Bit(m, q1) * Num(m, mm) + Bit(m, q0) * Num(m, mm[1..])
  }

  lemma RowStart(cs: seq<Clause>, q: int, carry: int)
    requires forall m :: Sat(m, cs) ==> Bit(m, carry) == 0
    ensures RowAdds(cs, q, [], [], [], carry)
  {
  }

  lemma ScaledStart(cs: seq<Clause>, q: int, ys: seq<int>)
    ensures RowScaled(cs, q, [], ys)
  {
  }

  lemma RowPush(m: Model, q: int, ms: seq<int>, xs: seq<int>, res: seq<int>, carry: int, m0: int, x: int, s: int,
                c: int)
    requires |ms| == |xs| == |res|
    requires Num(m, res) + Pow2(|res|) * Bit(m, carry) == Bit(m, q) * Num(m, ms) + Num(m, xs)
    requires Bit(m, s) + 2 * Bit(m, c) == Bit(m, q) * Bit(m, m0) + Bit(m, x) + Bit(m, carry)
    ensures Num(m, res + [s]) + Pow2(|res| + 1) * Bit(m, c) == Bit(m, q) * Num(m, ms + [m0]) + Num(m, xs + [x])
  {
    hide Num, Bit;
    NumPush(m, res, s);
    NumPush(m, ms, m0);
    NumPush(m, xs, x);
    RowPushArithmetic(Pow2(|res|), Num(m, res), Bit(m, q), Num(m, ms), Num(m, xs), Bit(m, carry), Bit(m, m0), Bit(m, x),
                      Bit(m, s), Bit(m, c));
  }

  lemma RowNext(before: seq<Clause>, after: seq<Clause>, q: int, ms: seq<int>, xs: seq<int>, res: seq<int>, carry: int,
                x: int, s: int, c: int)
    requires |xs| == |res| < |ms| && RowAdds(before, q, ms[..|res|], xs, res, carry)
    requires forall m :: Sat(m, after) ==>
      Sat(m, before) && Bit(m, s) + 2 * Bit(m, c) == Bit(m, q) * Bit(m, ms[|res|]) + Bit(m, x) + Bit(m, carry)
    ensures RowAdds(after, q, ms[..|res| + 1], xs + [x], res + [s], c)
  {
    hide Num, Bit, Sat;
    var i := |res|;
    assert ms[..i + 1] == ms[..i] + [ms[i]];
    forall m | Sat(m, after)
      ensures Num(m, res + [s]) + Pow2(i + 1) * Bit(m, c) == Bit(m, q) * Num(m, ms[..i + 1]) + Num(m, xs + [x])
    {
      RowPush(m, q, ms[..i], xs, res, carry, ms[i], x, s, c);
    }
  }

  lemma RowDone(cs: seq<Clause>, q: int, ms: seq<int>, xs: seq<int>, res: seq<int>, carry: int)
    requires RowAdds(cs, q, ms, xs, res, carry)
    ensures RowIs(cs, q, ms, xs, res + [carry])
  {
    hide Num, Bit, Sat;
    forall m | Sat(m, cs) ensures Num(m, res + [carry]) == Bit(m, q) * Num(m, ms) + Num(m, xs) {
      NumPush(m, res, carry);
    }
  }

  lemma {:induction false} ScaledNum(m: Model, q: int, xs: seq<int>, ys: seq<int>)
    requires |xs| == |ys| && forall k :: 0 <= k < |xs| ==> Bit(m, xs[k]) == Bit(m, q) * Bit(m, ys[k])
    ensures Num(m, xs) == Bit(m, q) * Num(m, ys)
  {
    if |xs| > 0 {
      ScaledNum(m, q, xs[1..], ys[1..]);
    }
  }

  lemma FirstRowDone(cs: seq<Clause>, q0: int, q1: int, mm: seq<int>, xs: seq<int>, res: seq<int>, carry: int,
                     trueLit: int)
    requires |mm| > 0 && |xs| == |mm| && RowAdds(cs, q1, mm, xs, res, carry)
    requires RowScaled(cs, q0, xs, mm[1..] + [-trueLit]) && forall m :: Sat(m, cs) ==> Bit(m, -trueLit) == 0
    ensures FirstRowIs(cs, q0, q1, mm, res + [carry])
  {
    hide Num, Bit, Sat;
    RowDone(cs, q1, mm, xs, res, carry);
    forall m | Sat(m, cs) ensures Num(m, xs) == Bit(m, q0) * Num(m, mm[1..]) {
      ScaledNum(m, q0, xs, mm[1..] + [-trueLit]);
      NumPush(m, mm[1..], -trueLit);
    }
  }

  // ----- the product -----

  lemma NumHead(m: Model, lits: seq<int>)
    requires |lits| > 0
    ensures Num(m, lits) == Bit(m, lits[0]) + 2 * Num(m, lits[1..])
  {
  }

  lemma ProductOfBits(cs: seq<Clause>, mm: seq<int>, q: seq<int>, out: int)
    requires |mm| == |q| == 1 && forall m :: Sat(m, cs) ==> Bit(m, out) == Bit(m, mm[0]) * Bit(m, q[0])
    ensures forall m :: Sat(m, cs) ==> Num(m, [out]) == Num(m, mm) * Num(m, q)
  {
    hide Num, Bit, Sat;
    assert mm == [mm[0]] && q == [q[0]];
    forall m | Sat(m, cs) ensures Num(m, [out]) == Num(m, mm) * Num(m, q) {
      NumOne(m, out);
      NumOne(m, mm[0]);
      NumOne(m, q[0]);
    }
  }

  /** store, followed by the row cur, denotes mm times the bits of q used so far. */
  ghost predicate ProductSoFar(cs: seq<Clause>, mm: seq<int>, q: seq<int>, store: seq<int>, cur: seq<int>) {
    forall m :: Sat(m, cs) ==> Num(m, store) + Pow2(|store|) * Num(m, cur) == Num(m, mm) * Num(m, q)
  }

  lemma FirstTwoBits(m: Model, mm: seq<int>, q: seq<int>, out: int, cur: seq<int>)
    requires |mm| > 0 && |q| == 2 && Bit(m, out) == Bit(m, mm[0]) * Bit(m, q[0])
    requires Num(m, cur) == Bit(m, q[1]) * Num(m, mm) + Bit(m, q[0]) * Num(m, mm[1..])
    ensures Bit(m, out) + 2 * Num(m, cur) == Num(m, mm) * Num(m, q)
  {
    hide Num, Bit;
    NumHead(m, mm);
    NumHead(m, q);
    assert q[1..] == [q[1]];
    NumOne(m, q[1]);
    TwoBitsArithmetic(Bit(m, mm[0]), Num(m, mm[1..]), Bit(m, q[0]), Bit(m, q[1]));
  }

  lemma TwoBitsArithmetic(m0: int, rest: int, q0: nat, q1: nat)
    requires q0 <= 1 && q1 <= 1
    ensures m0 * q0 + 2 * (q1 * (m0 + 2 * rest) + q0 * rest) == (m0 + 2 * rest) * (q0 + 2 * q1)
  {
    assert (q0 == 0 || q0 == 1) && (q1 == 0 || q1 == 1);
  }

  lemma ProductStart(before: seq<Clause>, after: seq<Clause>, mm: seq<int>, q: seq<int>, out: int, cur: seq<int>)
    requires |mm| > 0 && |q| >= 2 && forall m :: Sat(m, before) ==> Bit(m, out) == Bit(m, mm[0]) * Bit(m, q[0])
    requires (forall m :: Sat(m, after) ==> Sat(m, before)) && FirstRowIs(after, q[0], q[1], mm, cur)
    ensures ProductSoFar(after, mm, q[..2], [out], cur)
  {
    hide Num, Bit, Sat;
    assert Pow2(1) == 2 * Pow2(0);
    forall m | Sat(m, after) ensures Num(m, [out]) + Pow2(1) * Num(m, cur) == Num(m, mm) * Num(m, q[..2]) {
      NumOne(m, out);
      FirstTwoBits(m, mm, q[..2], out, cur);
    }
  }

  /** p + 2^j cur with cur = c0 + 2 rest, against the next row next = q1 * a + rest. */
  lemma RowArithmetic(done: int, p: int, c0: int, rest: int, a: int, qs: int, q1: int)
    requires done + p * (c0 + 2 * rest) == a * qs
    ensures done + p * c0 + 2 * p * (q1 * a + rest) == a * (qs + 2 * p * q1)
  {
    assert p * (c0 + 2 * rest) == p * c0 + 2 * p * rest;
    assert 2 * p * (q1 * a + rest) == 2 * p * (q1 * a) + 2 * p * rest;
    assert a * (qs + 2 * p * q1) == a * qs + a * (2 * p * q1);
    assert a * (2 * p * q1) == 2 * p * (q1 * a);
  }

  lemma ProductStep(before: seq<Clause>, after: seq<Clause>, mm: seq<int>, q: seq<int>, j: nat,
                    store: seq<int>, prev: seq<int>, cur: seq<int>)
    requires 2 <= j < |q| && |store| == j && |prev| > 0 && store[j - 1] == prev[0]
    requires ProductSoFar(before, mm, q[..j], store[..j - 1], prev)
    requires (forall m :: Sat(m, after) ==> Sat(m, before)) && RowIs(after, q[j], mm, prev[1..], cur)
    ensures ProductSoFar(after, mm, q[..j + 1], store, cur)
  {
    hide Num, Bit, Sat;
    assert q[..j + 1] == q[..j] + [q[j]] && store == store[..j - 1] + [prev[0]];
    forall m | Sat(m, after) ensures Num(m, store) + Pow2(j) * Num(m, cur) == Num(m, mm) * Num(m, q[..j + 1]) {
      NumPush(m, store[..j - 1], prev[0]);
      NumPush(m, q[..j], q[j]);
      NumHead(m, prev);
      RowArithmetic(Num(m, store[..j - 1]), Pow2(j - 1), Bit(m, prev[0]), Num(m, prev[1..]), Num(m, mm), Num(m, q[..j]),
                    Bit(m, q[j]));
    }
  }

  lemma ProductDone(cs: seq<Clause>, mm: seq<int>, q: seq<int>, store: seq<int>, cur: seq<int>)
    requires |store| > 0 && |cur| > 0 && store[|store| - 1] == cur[0]
    requires ProductSoFar(cs, mm, q, store[..|store| - 1], cur)
    ensures forall m :: Sat(m, cs) ==> Num(m, store + cur[1..]) == Num(m, mm) * Num(m, q)
  {
    hide Num, Bit, Sat;
    var init := store[..|store| - 1];
    assert store + cur[1..] == init + cur;
    forall m | Sat(m, cs) ensures Num(m, store + cur[1..]) == Num(m, mm) * Num(m, q) {
      NumAppend(m, init, cur);
    }
  }

  // ----- comparison -----

  ghost predicate Compared(cs: seq<Clause>, a: seq<int>, b: seq<int>, lt: int, eq: int) {
    forall m :: Sat(m, cs) ==>
      (TrueLit(m, lt) <==> Num(m, a) < Num(m, b)) && (TrueLit(m, eq) <==> Num(m, a) == Num(m, b))
  }

  lemma ComparedStart(cs: seq<Clause>, a: seq<int>, b: seq<int>, trueLit: int)
    requires |a| <= |b| && trueLit != 0 && forall m :: Sat(m, cs) ==> Bit(m, -trueLit) == 0
    ensures Compared(cs, a[|a|..], b[|a|..|a|], -trueLit, trueLit)
  {
    forall m | Sat(m, cs) ensures TrueLit(m, trueLit) {
      assert Bit(m, -trueLit) == 0;
    }
  }

  lemma ComparedNext(before: seq<Clause>, after: seq<Clause>, a: seq<int>, b: seq<int>, j: nat,
                     lt0: int, eq0: int, lt: int, eq: int)
    requires j < |a| <= |b| && Compared(before, a[j + 1..], b[j + 1..|a|], lt0, eq0)
    requires forall m :: Sat(m, after) ==>
      && Sat(m, before)
      && (TrueLit(m, lt) <==> (TrueLit(m, eq0) && !TrueLit(m, a[j]) && TrueLit(m, b[j])) || TrueLit(m, lt0))
      && (TrueLit(m, eq) <==> (TrueLit(m, a[j]) == TrueLit(m, b[j])) && TrueLit(m, eq0))
    ensures Compared(after, a[j..], b[j..|a|], lt, eq)
  {
    hide Num, Sat, TrueLit;
    assert a[j..][1..] == a[j + 1..] && b[j..|a|][1..] == b[j + 1..|a|];
    forall m | Sat(m, after)
      ensures TrueLit(m, lt) <==> Num(m, a[j..]) < Num(m, b[j..|a|])
      ensures TrueLit(m, eq) <==> Num(m, a[j..]) == Num(m, b[j..|a|])
    {
      NumHead(m, a[j..]);
      NumHead(m, b[j..|a|]);
    }
  }

  lemma {:induction false} PaddedNum(m: Model, b: seq<int>, padded: seq<int>, trueLit: int)
    requires |b| <= |padded| && padded[..|b|] == b && Bit(m, -trueLit) == 0
    requires forall k :: |b| <= k < |padded| ==> padded[k] == -trueLit
    ensures Num(m, padded) == Num(m, b)
  {
    if |padded| == |b| {
      assert padded == b;
    } else {
      var n := |padded| - 1;
      PaddedNum(m, b, padded[..n], trueLit);
      assert padded == padded[..n] + [padded[n]];
      NumPush(m, padded[..n], padded[n]);
    }
  }

  /** lt compares a with the lowest k bits of b. */
  ghost predicate HighCompared(cs: seq<Clause>, a: seq<int>, b: seq<int>, k: nat, lt: int) {
    if k <= |b| then forall m :: Sat(m, cs) ==> (TrueLit(m, lt) <==> Num(m, a) < Num(m, b[..k]))
    else forall m :: Sat(m, cs) ==> (TrueLit(m, lt) <==> Num(m, a) < Num(m, b))
  }

  /** b with further literals up to the length of a, if that is longer. */
  predicate IsPadded(a: seq<int>, b: seq<int>, padded: seq<int>) {
    |a| <= |padded| && |b| <= |padded| && padded[..|b|] == b && (|padded| > |b| ==> |padded| <= |a|)
  }

  lemma LowerPart(cs: seq<Clause>, a: seq<int>, b: seq<int>, padded: seq<int>, lt: int, eq: int)
    requires IsPadded(a, b, padded)
    requires Compared(cs, a, padded[0..|a|], lt, eq) && forall m :: Sat(m, cs) ==> Num(m, padded) == Num(m, b)
    ensures HighCompared(cs, a, b, |a|, lt)
  {
    if |a| <= |b| {
      assert padded[0..|a|] == b[..|a|];
    } else {
      assert padded[0..|a|] == padded;
    }
  }

  lemma {:induction false} Pow2Monotone(i: nat, j: nat)
    requires i <= j
    ensures Pow2(i) <= Pow2(j)
  {
    if i < j {
      Pow2Monotone(i, j - 1);
    }
  }

  lemma HighNext(before: seq<Clause>, after: seq<Clause>, a: seq<int>, b: seq<int>, k: nat, lt0: int, lt: int)
    requires |a| <= k < |b| && HighCompared(before, a, b, k, lt0)
    requires forall m :: Sat(m, after) ==> Sat(m, before) && (TrueLit(m, lt) <==> TrueLit(m, b[k]) || TrueLit(m, lt0))
    ensures HighCompared(after, a, b, k + 1, lt)
  {
    hide Num, Sat, TrueLit;
    assert b[..k + 1] == b[..k] + [b[k]];
    Pow2Monotone(|a|, k);
    forall m | Sat(m, after) ensures TrueLit(m, lt) <==> Num(m, a) < Num(m, b[..k + 1]) {
      NumPush(m, b[..k], b[k]);
      NumBound(m, a);
    }
  }

  lemma LEQDone(lower: seq<Clause>, before: seq<Clause>, after: seq<Clause>, a: seq<int>, b: seq<int>, k: nat,
                padded: seq<int>,
                lt0: int, lt: int, eq: int, out: int)
    requires IsPadded(a, b, padded) && k >= |b| && HighCompared(before, a, b, k, lt)
    requires forall m :: Sat(m, lower) ==> Num(m, padded) == Num(m, b)
    requires Compared(lower, a, padded[0..|a|], lt0, eq)
    requires forall m :: Sat(m, before) ==> Sat(m, lower)
    requires forall m :: Sat(m, after) ==> Sat(m, before) && (TrueLit(m, out) <==> TrueLit(m, lt) || TrueLit(m, eq))
    ensures forall m :: Sat(m, after) ==> (TrueLit(m, out) <==> Num(m, a) <= Num(m, b))
  {
    hide Num, Sat, TrueLit;
    assert b[..|b|] == b;
    forall m | Sat(m, after) ensures TrueLit(m, out) <==> Num(m, a) <= Num(m, b) {
      assert TrueLit(m, lt) <==> Num(m, a) < Num(m, b);
      CutNum(m, a, padded);
    }
  }

  /** A number equal to one cut to its length is equal to it or less. */
  lemma CutNum(m: Model, a: seq<int>, b: seq<int>)
    requires |a| <= |b|
    ensures Num(m, a) == Num(m, b) ==> Num(m, a) == Num(m, b[0..|a|])
    ensures Num(m, a) == Num(m, b[0..|a|]) ==> Num(m, a) <= Num(m, b)
  {
    hide Num;
    assert b == b[0..|a|] + b[|a|..];
    NumAppend(m, b[0..|a|], b[|a|..]);
    NumBound(m, a);
    Scaled(Pow2(|a|), Num(m, b[|a|..]));
    assert Num(m, b[|a|..]) == 0 ==> Pow2(|a|) * Num(m, b[|a|..]) == 0;
  }

  /** Whatever the solver fixes at decision level 0 follows from the clauses. */
  ghost predicate Propagates(propagate: seq<Clause> -> set<int>) {
    forall cs, m, l :: Sat(m, cs) && l in propagate(cs) ==> TrueLit(m, l)
  }

  class Circuit {
    const trueLit: int

    // the literals that the solver fixes when it propagates over some clauses
    const propagate: seq<Clause> -> set<int>

    // the solver: next variable, clauses, and the literals it has fixed at decision level 0
    var nVars: int
    var clauses: seq<Clause>
    var fixed: set<int>

    ghost function Now(): State
      reads `nVars, `clauses
    {
      State(nVars, clauses)
    }

    predicate IsLit(a: int)
      reads `nVars
    {
      0 < Abs(a) < nVars
    }

    predicate AreLits(s: seq<int>)
      reads `nVars
    {
      forall i :: 0 <= i < |s| ==> IsLit(s[i])
    }

    ghost predicate Valid()
      reads this
    {
      && nVars > 0 && Below(clauses, nVars) && trueLit in fixed && Propagates(propagate)
      && forall l :: l in fixed ==> IsLit(l) && forall m :: Sat(m, clauses) ==> TrueLit(m, l)
    }

    /** Valid, and a conservative extension of base. */
    ghost predicate Grown(base: State)
      reads this
    {
      Valid() && Conservative(base, Now())
    }

    constructor (propagate: seq<Clause> -> set<int>)
      requires Propagates(propagate)
      ensures Valid() && this.propagate == propagate
    {
      this.propagate := propagate;
      trueLit := 1;
      nVars, clauses, fixed := 2, [[1]], {1};
      new;
      forall m | Sat(m, clauses) ensures TrueLit(m, 1) {
        assert [1] in clauses;
        SatOne(m, 1);
      }
    }

    /** A circuit extends itself: any valid one can start a construction. */
    lemma Start()
      requires Valid()
      ensures Grown(Now())
    {
      ConservativeRefl(Now());
    }

    method NewLit(ghost base: State) returns (a: int)
      requires Grown(base)
      modifies `nVars
      ensures Grown(base) && a == old(nVars) && nVars == a + 1
    {
      a := nVars;
      nVars := nVars + 1;
      assert Conservative(State(a, clauses), Now()) by {
        assert forall m :: Agree(m, m, a);
      }
      ConservativeTrans(base, State(a, clauses), Now());
    }

    predicate IsConstTrue(l: int)
      reads `fixed
    {
      l in fixed
    }

    predicate IsConstFalse(l: int)
      reads `fixed
    {
      -l in fixed
    }

    /** Add a clause, and let the solver propagate. */
    method AddClause(c: Clause)
      requires Valid() && AreLits(c)
      modifies `clauses, `fixed
      ensures Valid() && clauses == old(clauses) + [c]
    {
      clauses := clauses + [c];
      forall m | Sat(m, clauses) ensures Sat(m, old(clauses)) {
        SatAppend(m, old(clauses), [c]);
      }
      fixed := fixed + set l | l in propagate(clauses) && IsLit(l);
    }

    method AddClauses(cs: seq<Clause>)
      requires Valid() && forall i :: 0 <= i < |cs| ==> AreLits(cs[i])
      modifies `clauses, `fixed
      ensures Valid() && clauses == old(clauses) + cs
    {
      for i := 0 to |cs|
        invariant Valid() && clauses == old(clauses) + cs[..i]
      {
        AddClause(cs[i]);
        assert cs[..i + 1] == cs[..i] + [cs[i]];
      }
      assert cs[..|cs|] == cs;
    }

    /** A new variable with its defining clauses. */
    method Define(defs: seq<Clause>, ghost base: State) returns (out: int)
      requires Grown(base) && Conservative(Now(), State(nVars + 1, clauses + defs))
      requires forall i, j :: 0 <= i < |defs| && 0 <= j < |defs[i]| ==> 0 < Abs(defs[i][j]) <= nVars
      modifies this
      ensures Grown(base) && out == old(nVars) && nVars == out + 1 && clauses == old(clauses) + defs
      ensures forall m :: Sat(m, clauses) ==> Sat(m, old(clauses)) && Sat(m, defs)
    {
      ghost var before := Now();
      out := NewLit(base);
      AddClauses(defs);
      ConservativeTrans(base, before, Now());
      forall m | Sat(m, clauses) ensures Sat(m, before.clauses) && Sat(m, defs) {
        SatAppend(m, before.clauses, defs);
      }
    }

    // ----- gates -----

    method And(a: int, b: int, ghost base: State) returns (out: int)
      requires Grown(base) && IsLit(a) && IsLit(b)
      modifies this
      ensures Grown(base) && nVars >= old(nVars) && IsLit(out)
      ensures forall m :: Sat(m, clauses) ==>
        Sat(m, old(clauses)) && (TrueLit(m, out) <==> TrueLit(m, a) && TrueLit(m, b))
    {
      hide Sat, Conservative, Below;
      if a == b {
        return a;
      } else if Abs(a) == Abs(b) {
        return -trueLit;
      }
      if IsConstTrue(a) {
        return b;
      } else if IsConstFalse(a) {
        return a;
      } else if IsConstTrue(b) {
        return a;
      } else if IsConstFalse(b) {
        return b;
      }
      AndConservative(Now(), a, b);
      out := Define(AndClauses(a, b, nVars), base);
      forall m | Sat(m, clauses) ensures TrueLit(m, out) <==> TrueLit(m, a) && TrueLit(m, b) {
        AndMeans(m, a, b, out);
      }
    }

    method Or(a: int, b: int, ghost base: State) returns (out: int)
      requires Grown(base) && IsLit(a) && IsLit(b)
      modifies this
      ensures Grown(base) && nVars >= old(nVars) && IsLit(out)
      ensures forall m :: Sat(m, clauses) ==>
        Sat(m, old(clauses)) && (TrueLit(m, out) <==> TrueLit(m, a) || TrueLit(m, b))
    {
      hide Sat, Conservative, Below;
      if a == b {
        return a;
      } else if Abs(a) == Abs(b) {
        return trueLit;
      }
      if IsConstTrue(a) {
        return trueLit;
      } else if IsConstTrue(b) {
        return trueLit;
      } else if IsConstFalse(a) {
        return b;
      } else if IsConstFalse(b) {
        return a;
      }
      OrConservative(Now(), a, b);
      out := Define(OrClauses(a, b, nVars), base);
      forall m | Sat(m, clauses) ensures TrueLit(m, out) <==> TrueLit(m, a) || TrueLit(m, b) {
        OrMeans(m, a, b, out);
      }
    }

    method Xor(a: int, b: int, ghost base: State) returns (out: int)
      requires Grown(base) && IsLit(a) && IsLit(b)
      modifies this
      ensures Grown(base) && nVars >= old(nVars) && IsLit(out)
      ensures forall m :: Sat(m, clauses) ==>
        Sat(m, old(clauses)) && (TrueLit(m, out) <==> TrueLit(m, a) != TrueLit(m, b))
    {
      hide Sat, Conservative, Below;
      if IsConstTrue(a) {
        return -b;
      } else if IsConstFalse(a) {
        return b;
      } else if IsConstTrue(b) {
        return -a;
      } else if IsConstFalse(b) {
        return a;
      }
      XorConservative(Now(), a, b);
      out := Define(XorClauses(a, b, nVars), base);
      forall m | Sat(m, clauses) ensures TrueLit(m, out) <==> TrueLit(m, a) != TrueLit(m, b) {
        XorMeans(m, a, b, out);
      }
    }

    // ----- adders -----

    method HalfAdder(a: int, b: int, ghost base: State) returns (sum: int, carryOut: int)
      requires Grown(base) && IsLit(a) && IsLit(b)
      modifies this
      ensures Grown(base) && nVars >= old(nVars) && IsLit(sum) && IsLit(carryOut)
      ensures forall m :: Sat(m, clauses) ==>
        Sat(m, old(clauses)) && Bit(m, sum) + 2 * Bit(m, carryOut) == Bit(m, a) + Bit(m, b)
    {
      hide Sat, TrueLit, Conservative, Valid;
      carryOut := And(a, b, base);
      sum := Xor(a, b, base);
    }

    method FullAdder(a: int, b: int, cIn: int, ghost base: State) returns (sum: int, carryOut: int)
      requires Grown(base) && IsLit(a) && IsLit(b) && IsLit(cIn)
      modifies this
      ensures Grown(base) && nVars >= old(nVars) && IsLit(sum) && IsLit(carryOut)
      ensures forall m :: Sat(m, clauses) ==>
        Sat(m, old(clauses)) && Bit(m, sum) + 2 * Bit(m, carryOut) == Bit(m, a) + Bit(m, b) + Bit(m, cIn)
    {
      hide Sat, TrueLit, Conservative, Valid;
      var aXorB := Xor(a, b, base);
      var aAndB := And(a, b, base);
      var both := And(cIn, aXorB, base);
      carryOut := Or(aAndB, both, base);
      sum := Xor(aXorB, cIn, base);
    }

    /** The body of the loop of Add: one more bit of the sum. */
    method AddBit(x: int, y: int, cIn: int, ghost base: State) returns (sum: int, carryOut: int)
      requires Grown(base) && IsLit(x) && IsLit(y) && IsLit(cIn)
      modifies this
      ensures Grown(base) && nVars >= old(nVars) && IsLit(sum) && IsLit(carryOut)
      ensures forall m :: Sat(m, clauses) ==>
        Sat(m, old(clauses)) && Bit(m, sum) + 2 * Bit(m, carryOut) == Bit(m, x) + Bit(m, y) + Bit(m, cIn)
    {
      hide Sat, TrueLit, Conservative, Valid;
      var x1 := Xor(x, y, base);
      sum := Xor(x1, cIn, base);
      var c1 := And(x1, cIn, base);
      var both := And(x, y, base);
      carryOut := Or(both, c1, base);
    }

    method Add(a: seq<int>, b: seq<int>, ghost base: State) returns (storeOut: seq<int>, carry: int)
      requires Grown(base) && |a| == |b| > 0 && AreLits(a) && AreLits(b)
      modifies this
      ensures Grown(base) && nVars >= old(nVars) && AreLits(storeOut) && IsLit(carry) && |storeOut| == |a|
      ensures forall m :: Sat(m, clauses) ==> Sat(m, old(clauses))
      ensures Adds(clauses, a, b, storeOut, carry)
    {
      hide Sat, TrueLit, Conservative, Valid, Bit, Num;
      var sum;
      sum, carry := HalfAdder(a[0], b[0], base);
      storeOut := [sum];
      FirstBit(clauses, a, b, sum, carry);
      for i := 1 to |a|
        invariant Grown(base) && nVars >= old(nVars) && AreLits(storeOut) && IsLit(carry) && |storeOut| == i
        invariant forall m :: Sat(m, clauses) ==> Sat(m, old(clauses))
        invariant Adds(clauses, a[..i], b[..i], storeOut, carry)
      {
        ghost var c, before := carry, clauses;
        sum, carry := AddBit(a[i], b[i], carry, base);
        AddsNext(before, clauses, a, b, storeOut, c, sum, carry);
        storeOut := storeOut + [sum];
      }
      assert a[..|a|] == a && b[..|b|] == b;
    }

    method HalfSubtractor(a: int, b: int, ghost base: State) returns (dif: int, borrowOut: int)
      requires Grown(base) && IsLit(a) && IsLit(b)
      modifies this
      ensures Grown(base) && nVars >= old(nVars) && IsLit(dif) && IsLit(borrowOut)
      ensures forall m :: Sat(m, clauses) ==>
        Sat(m, old(clauses)) && Bit(m, dif) + Bit(m, b) == Bit(m, a) + 2 * Bit(m, borrowOut)
    {
      hide Sat, Conservative, Valid;
      borrowOut := And(-a, b, base);
      dif := Xor(a, b, base);
    }

    /** The body of the loop of Subtract: one more bit of the difference. */
    method SubtractBit(x: int, y: int, bIn: int, ghost base: State) returns (dif: int, borrowOut: int)
      requires Grown(base) && IsLit(x) && IsLit(y) && IsLit(bIn)
      modifies this
      ensures Grown(base) && nVars >= old(nVars) && IsLit(dif) && IsLit(borrowOut)
      ensures forall m :: Sat(m, clauses) ==>
        Sat(m, old(clauses)) && Bit(m, dif) + Bit(m, y) + Bit(m, bIn) == Bit(m, x) + 2 * Bit(m, borrowOut)
    {
      hide Sat, Conservative, Valid;
      var x1 := Xor(x, y, base);
      dif := Xor(x1, bIn, base);
      var c1 := And(-x1, bIn, base);
      var less := And(-x, y, base);
      borrowOut := Or(less, c1, base);
    }

    method Subtract(a: seq<int>, b: seq<int>, ghost base: State) returns (storeOut: seq<int>, borrow: int)
      requires Grown(base) && |a| == |b| > 0 && AreLits(a) && AreLits(b)
      modifies this
      ensures Grown(base) && nVars >= old(nVars) && AreLits(storeOut) && IsLit(borrow) && |storeOut| == |a|
      ensures forall m :: Sat(m, clauses) ==> Sat(m, old(clauses))
      ensures Subtracts(clauses, a, b, storeOut, borrow)
    {
      hide Sat, TrueLit, Conservative, Valid, Bit, Num;
      var dif;
      dif, borrow := HalfSubtractor(a[0], b[0], base);
      storeOut := [dif];
      FirstDifference(clauses, a, b, dif, borrow);
      for i := 1 to |a|
        invariant Grown(base) && nVars >= old(nVars) && AreLits(storeOut) && IsLit(borrow) && |storeOut| == i
        invariant forall m :: Sat(m, clauses) ==> Sat(m, old(clauses))
        invariant Subtracts(clauses, a[..i], b[..i], storeOut, borrow)
      {
        ghost var c, before := borrow, clauses;
        dif, borrow := SubtractBit(a[i], b[i], borrow, base);
        SubtractsNext(before, clauses, a, b, storeOut, c, dif, borrow);
        storeOut := storeOut + [dif];
      }
      assert a[..|a|] == a && b[..|b|] == b;
    }

    // ----- multiplier -----

    method MBlock(m0: int, m1: int, q0: int, q1: int, cIn: int, ghost base: State) returns (res: int, cOut: int, b: int)
      requires Grown(base) && IsLit(m0) && IsLit(m1) && IsLit(q0) && IsLit(q1) && IsLit(cIn)
      modifies this
      ensures Grown(base) && nVars >= old(nVars) && IsLit(res) && IsLit(cOut) && IsLit(b)
      ensures forall m :: Sat(m, clauses) ==>
        && Sat(m, old(clauses)) && Bit(m, b) == Bit(m, q0) * Bit(m, m1)
        && Bit(m, res) + 2 * Bit(m, cOut) == Bit(m, q1) * Bit(m, m0) + Bit(m, b) + Bit(m, cIn)
    {
      hide Sat, TrueLit, Conservative, Valid;
      var a := And(q1, m0, base);
      b := And(q0, m1, base);
      res, cOut := FullAdder(a, b, cIn, base);
    }

    method NBlock(m0: int, m1: int, q0: int, cIn: int, ghost base: State) returns (res: int, cOut: int)
      requires Grown(base) && IsLit(m0) && IsLit(m1) && IsLit(q0) && IsLit(cIn)
      modifies this
      ensures Grown(base) && nVars >= old(nVars) && IsLit(res) && IsLit(cOut)
      ensures forall m :: Sat(m, clauses) ==>
        && Sat(m, old(clauses))
        && Bit(m, res) + 2 * Bit(m, cOut) == Bit(m, q0) * Bit(m, m0) + Bit(m, m1) + Bit(m, cIn)
    {
      hide Sat, TrueLit, Conservative, Valid;
      var a := And(q0, m0, base);
      res, cOut := FullAdder(a, m1, cIn, base);
    }

    /** One cell of the first row: bit q0 * m1 of the number added, and the row's next sum bit. */
    method FirstCell(mm: seq<int>, m1: int, q0: int, q1: int, cIn: int, i: nat, ghost xs: seq<int>, ghost res: seq<int>,
                     ghost shifted: seq<int>, ghost base: State)
      returns (r: int, cOut: int, ghost x: int)
      requires Grown(base) && AreLits(mm) && IsLit(m1) && IsLit(q0) && IsLit(q1) && IsLit(cIn)
      requires i == |xs| == |res| < |mm| == |shifted| && m1 == shifted[i]
      requires RowAdds(clauses, q1, mm[..|res|], xs, res, cIn) && RowScaled(clauses, q0, xs, shifted)
      modifies this
      ensures Grown(base) && nVars >= old(nVars) && IsLit(r) && IsLit(cOut)
      ensures forall m :: Sat(m, clauses) ==> Sat(m, old(clauses))
      ensures RowAdds(clauses, q1, mm[..|res| + 1], xs + [x], res + [r], cOut)
      ensures RowScaled(clauses, q0, xs + [x], shifted)
    {
      hide Sat, TrueLit, Grown, Bit, Num, RowAdds;
      ghost var before := clauses;
      var b;
      r, cOut, b := MBlock(mm[i], m1, q0, q1, cIn, base);
      x := b;
      RowNext(before, clauses, q1, mm, xs, res, cIn, b, r, cOut);
    }

    method NextCell(mm: seq<int>, m1: int, q: int, cIn: int, i: nat, ghost xs: seq<int>, ghost res: seq<int>,
                    ghost base: State)
      returns (r: int, cOut: int)
      requires Grown(base) && AreLits(mm) && IsLit(m1) && IsLit(q) && IsLit(cIn)
      requires i == |xs| == |res| < |mm| && RowAdds(clauses, q, mm[..|res|], xs, res, cIn)
      modifies this
      ensures Grown(base) && nVars >= old(nVars) && IsLit(r) && IsLit(cOut)
      ensures forall m :: Sat(m, clauses) ==> Sat(m, old(clauses))
      ensures RowAdds(clauses, q, mm[..|res| + 1], xs + [m1], res + [r], cOut)
    {
      hide Sat, TrueLit, Grown, Bit, Num, RowAdds;
      ghost var before := clauses;
      r, cOut := NBlock(mm[i], m1, q, cIn, base);
      RowNext(before, clauses, q, mm, xs, res, cIn, m1, r, cOut);
    }

    /** The row of bit 1 of q, which also takes bit 0: res is q1 * mm + q0 * (mm / 2), carry included. */
    method FirstRow(mm: seq<int>, q0: int, q1: int, ghost base: State) returns (res: seq<int>, passthrough: seq<int>)
      requires Grown(base) && |mm| > 0 && AreLits(mm) && IsLit(q0) && IsLit(q1)
      modifies this
      ensures Grown(base) && nVars >= old(nVars) && AreLits(res) && |res| == |mm| + 1 && passthrough == mm
      ensures forall m :: Sat(m, clauses) ==> Sat(m, old(clauses))
      ensures FirstRowIs(clauses, q0, q1, mm, res)
    {
      var carry := -trueLit;
      hide Sat, TrueLit, Grown, Bit, Num, RowAdds, RowScaled, FirstRowIs;
      ghost var shifted, xs: seq<int> := mm[1..] + [-trueLit], [];
      res, passthrough := [], [];
      assert IsLit(carry) && RowAdds(clauses, q1, [], [], [], carry) by {
        FalseBit(base);
        RowStart(clauses, q1, carry);
      }
      assert RowScaled(clauses, q0, xs, shifted) by {
        ScaledStart(clauses, q0, shifted);
      }
      for i := 0 to |mm|
        invariant Grown(base) && nVars >= old(nVars) && AreLits(res) && IsLit(carry) && |res| == |xs| == i
        invariant passthrough == mm[..i]
        invariant forall m :: Sat(m, clauses) ==> Sat(m, old(clauses))
        invariant RowAdds(clauses, q1, mm[..i], xs, res, carry)
        invariant RowScaled(clauses, q0, xs, shifted)
      {
        var m1 := if i + 1 < |mm| then mm[i + 1] else -trueLit;
        assert m1 == shifted[i];
        var r;
        ghost var b;
        r, carry, b := FirstCell(mm, m1, q0, q1, carry, i, xs, res, shifted, base);
        res, passthrough, xs := res + [r], passthrough + [mm[i]], xs + [b];
      }
      assert mm[..|mm|] == mm;
      assert FirstRowIs(clauses, q0, q1, mm, res + [carry]) by {
        FalseBit(base);
        FirstRowDone(clauses, q0, q1, mm, xs, res, carry, trueLit);
      }
      res := res + [carry];
    }

    /** A further row: res is q * passthrough + prev / 2, carry included. */
    method NextRow(prevPassthrough: seq<int>, prev: seq<int>, q: int, ghost base: State)
      returns (res: seq<int>, passthrough: seq<int>)
      requires Grown(base) && |prev| == |prevPassthrough| + 1 && AreLits(prevPassthrough) && AreLits(prev) && IsLit(q)
      modifies this
      ensures Grown(base) && nVars >= old(nVars) && AreLits(res) && |res| == |prev| && passthrough == prevPassthrough
      ensures forall m :: Sat(m, clauses) ==> Sat(m, old(clauses))
      ensures RowIs(clauses, q, passthrough, prev[1..], res)
    {
      var carry := -trueLit;
      hide Sat, TrueLit, Grown, Bit, Num, RowAdds, RowIs;
      res, passthrough := [], [];
      ghost var xs := prev[1..];
      assert IsLit(carry) && RowAdds(clauses, q, [], [], [], carry) by {
        FalseBit(base);
        RowStart(clauses, q, carry);
      }
      for i := 0 to |prevPassthrough|
        invariant Grown(base) && nVars >= old(nVars) && AreLits(res) && IsLit(carry) && |res| == i
        invariant passthrough == prevPassthrough[..i]
        invariant forall m :: Sat(m, clauses) ==> Sat(m, old(clauses))
        invariant RowAdds(clauses, q, prevPassthrough[..i], xs[..i], res, carry)
      {
        assert prev[i + 1] == xs[i] && xs[..i + 1] == xs[..i] + [xs[i]];
        var r;
        r, carry := NextCell(prevPassthrough, prev[i + 1], q, carry, i, xs[..i], res, base);
        res, passthrough := res + [r], passthrough + [prevPassthrough[i]];
      }
      assert prevPassthrough[..|xs|] == prevPassthrough && xs[..|xs|] == xs;
      RowDone(clauses, q, passthrough, prev[1..], res, carry);
      res := res + [carry];
    }

    lemma FalseBit(base: State)
      requires Grown(base)
      ensures IsLit(-trueLit)
      ensures forall m :: Sat(m, clauses) ==> Bit(m, -trueLit) == 0
    {
    }

    /** The array multiplier: 2n output bits (one, if n is 1) that denote the product. */
    method Multiply(mm: seq<int>, q: seq<int>, ghost base: State) returns (storeOut: seq<int>)
      requires Grown(base) && |mm| == |q| > 0 && AreLits(mm) && AreLits(q)
      modifies this
      ensures Grown(base) && AreLits(storeOut) && |storeOut| == if |mm| == 1 then 1 else 2 * |mm|
      ensures forall m :: Sat(m, clauses) ==> Sat(m, old(clauses)) && Num(m, storeOut) == Num(m, mm) * Num(m, q)
    {
      hide Sat, Conservative, Valid, Num;
      var res := And(mm[0], q[0], base);
      storeOut := [res];
      assert forall m :: Sat(m, clauses) ==> Bit(m, res) == Bit(m, mm[0]) * Bit(m, q[0]);
      hide TrueLit, Bit;
      if |mm| == 1 {
        ProductOfBits(clauses, mm, q, res);
        return;
      }
      ghost var start := clauses;
      var cur, passthrough := FirstRow(mm, q[0], q[1], base);
      ProductStart(start, clauses, mm, q, res, cur);
      storeOut := storeOut + [cur[0]];
      for j := 2 to |q|
        invariant Grown(base) && nVars >= old(nVars) && AreLits(cur) && AreLits(storeOut)
        invariant |storeOut| == j && |cur| == |mm| + 1 && passthrough == mm && storeOut[j - 1] == cur[0]
        invariant forall m :: Sat(m, clauses) ==> Sat(m, old(clauses))
        invariant ProductSoFar(clauses, mm, q[..j], storeOut[..j - 1], cur)
      {
        ghost var before, prev := clauses, cur;
        cur, passthrough := NextRow(passthrough, cur, q[j], base);
        ProductStep(before, clauses, mm, q, j, storeOut, prev, cur);
        storeOut := storeOut + [cur[0]];
        assert storeOut[..j] + [cur[0]] == storeOut;
      }
      assert q[..|q|] == q;
      ProductDone(clauses, mm, q, storeOut, cur);
      storeOut := storeOut + cur[1..];
    }

    // ----- comparison -----

    /** b, padded with false literals to the length of a. */
    method Pad(a: seq<int>, b: seq<int>, ghost base: State) returns (padded: seq<int>)
      requires Grown(base) && AreLits(a) && AreLits(b)
      ensures AreLits(padded) && IsPadded(a, b, padded)
      ensures forall m :: Sat(m, clauses) ==> Num(m, padded) == Num(m, b)
    {
      FalseBit(base);
      hide Sat, Grown, Num, Bit;
      padded := b;
      while |padded| < |a|
        invariant AreLits(padded) && |padded| >= |b| && padded[..|b|] == b && (|padded| > |b| ==> |padded| <= |a|)
        invariant forall k :: |b| <= k < |padded| ==> padded[k] == -trueLit
      {
        padded := padded + [-trueLit];
      }
      forall m | Sat(m, clauses) ensures Num(m, padded) == Num(m, b) {
        PaddedNum(m, b, padded, trueLit);
      }
    }

    /** One step of the loop of LEQ, for bit j. */
    method CompareBit(a: seq<int>, padded: seq<int>, j: nat, lt0: int, eq0: int, ghost base: State)
      returns (lt: int, eq: int)
      requires Grown(base) && j < |a| <= |padded| && AreLits(a) && AreLits(padded) && IsLit(lt0) && IsLit(eq0)
      requires Compared(clauses, a[j + 1..], padded[j + 1..|a|], lt0, eq0)
      modifies this
      ensures Grown(base) && nVars >= old(nVars) && IsLit(lt) && IsLit(eq)
      ensures forall m :: Sat(m, clauses) ==> Sat(m, old(clauses))
      ensures Compared(clauses, a[j..], padded[j..|a|], lt, eq)
    {
      hide Sat, TrueLit, Grown, Num, Compared;
      ghost var before := clauses;
      var x, y := a[j], padded[j];
      var differ := Xor(x, y, base);
      var less := And(-x, y, base);
      var here := And(eq0, less, base);
      lt := Or(here, lt0, base);
      eq := And(-differ, eq0, base);
      NotLit(x);
      NotLit(differ);
      ComparedNext(before, clauses, a, padded, j, lt0, eq0, lt, eq);
    }

    method LEQ(a: seq<int>, b: seq<int>, ghost base: State) returns (out: int)
      requires Grown(base) && AreLits(a) && AreLits(b)
      modifies this
      ensures Grown(base) && IsLit(out)
      ensures forall m :: Sat(m, clauses) ==> Sat(m, old(clauses)) && (TrueLit(m, out) <==> Num(m, a) <= Num(m, b))
    {
      hide Sat, TrueLit, Grown, Num, Compared, HighCompared;
      FalseBit(base);
      var padded := Pad(a, b, base);
      var lt, eq := -trueLit, trueLit;
      ComparedStart(clauses, a, padded, trueLit);
      var j := |a| - 1;
      while j >= 0
        invariant Grown(base) && nVars >= old(nVars) && IsLit(lt) && IsLit(eq) && -1 <= j < |a|
        invariant forall m :: Sat(m, clauses) ==> Sat(m, old(clauses))
        invariant Compared(clauses, a[j + 1..], padded[j + 1..|a|], lt, eq)
      {
        lt, eq := CompareBit(a, padded, j, lt, eq, base);
        j := j - 1;
      }
      assert a[0..] == a;
      ghost var lower, ltLow := clauses, lt;
      LowerPart(clauses, a, b, padded, lt, eq);
      var k := |a|;
      while k < |b|
        invariant Grown(base) && nVars >= old(nVars) && IsLit(lt) && IsLit(eq) && |a| <= k && (|a| <= |b| ==> k <= |b|)
        invariant forall m :: Sat(m, clauses) ==> Sat(m, old(clauses)) && Sat(m, lower)
        invariant HighCompared(clauses, a, b, k, lt)
      {
        ghost var before, lt0 := clauses, lt;
        lt := Or(b[k], lt, base);
        HighNext(before, clauses, a, b, k, lt0, lt);
        k := k + 1;
      }
      ghost var before, ltEnd := clauses, lt;
      out := Or(lt, eq, base);
      LEQDone(lower, before, clauses, a, b, k, padded, ltLow, ltEnd, eq, out);
    }

    lemma NotLit(a: int)
      requires a != 0
      ensures forall m :: TrueLit(m, -a) <==> !TrueLit(m, a)
    {
    }
  }
}
