/**
 * Bound refinement on partly assigned bit-vectors, src/externals/monosat/bv/BVTheorySolver.h: the least value
 * at or above a bound, and the greatest at or below it, that the bits assigned so far still allow.
 */
module BitBounds {
  import opened Binary

  datatype LBool = LTrue | LFalse | LUndef

  // ----- completions -----

  ghost predicate Completes(bv: seq<LBool>, x: seq<bool>) {
    && |x| == |bv|
    && forall k :: 0 <= k < |bv| ==> (bv[k].LTrue? ==> x[k]) && (bv[k].LFalse? ==> !x[k])
  }

  /** r is the least number not below the bound that bv can still become, or -1 when there is none. */
  ghost predicate IsLeast(bv: seq<LBool>, bound: int, r: int) {
    && (forall y :: Completes(bv, y) && Value(y) >= bound ==> 0 <= r <= Value(y))
    && (r == -1 || exists x :: Completes(bv, x) && Value(x) == r && r >= bound)
  }

  /** r is the greatest number not above the bound that bv can still become, or -1 when there is none. */
  ghost predicate IsGreatest(bv: seq<LBool>, bound: int, r: int) {
    && (forall y :: Completes(bv, y) && Value(y) <= bound ==> Value(y) <= r)
    && (r == -1 || exists x :: Completes(bv, x) && Value(x) == r && r <= bound)
  }

  lemma LeastUnique(bv: seq<LBool>, bound: int, r1: int, r2: int)
    requires IsLeast(bv, bound, r1) && IsLeast(bv, bound, r2)
    ensures r1 == r2
  {
  }

  lemma GreatestUnique(bv: seq<LBool>, bound: int, r1: int, r2: int)
    requires IsGreatest(bv, bound, r1) && IsGreatest(bv, bound, r2)
    ensures r1 == r2
  {
  }

  // ----- comparing bit-vectors from the top -----

  ghost predicate EqualAbove(x: seq<bool>, y: seq<bool>, p: int) {
    |x| == |y| && forall k :: p < k < |x| && k >= 0 ==> x[k] == y[k]
  }

  lemma {:induction false} ValueEqual(x: seq<bool>, y: seq<bool>)
    requires EqualAbove(x, y, -1)
    ensures x == y
  {
  }

  lemma {:induction false} ValueLess(x: seq<bool>, y: seq<bool>, p: nat)
    requires p < |x| && EqualAbove(x, y, p) && !x[p] && y[p]
    ensures Value(x) < Value(y)
  {
    var n := |x| - 1;
    if p < n {
      ValueLess(x[..n], y[..n], p);
    }
  }

  lemma {:induction false} TopDifference(x: seq<bool>, y: seq<bool>, n: nat) returns (p: nat)
    requires |x| == |y| && n <= |x| && EqualAbove(x, y, n - 1) && x != y
    ensures p < n && EqualAbove(x, y, p) && x[p] != y[p]
  {
    if n == 0 {
      ValueEqual(x, y);
    } else if x[n - 1] != y[n - 1] {
      p := n - 1;
    } else {
      p := TopDifference(x, y, n - 1);
    }
  }

  /**
   * Below p a completion falls short of b: somewhere b has a bit that is fixed to 0, and nothing before makes up for
   * it.
   */
  ghost predicate Blocked(bv: seq<LBool>, b: seq<bool>, p: int) {
    |b| == |bv| && exists i :: BlockedAt(bv, b, p, i)
  }

  ghost predicate BlockedAt(bv: seq<LBool>, b: seq<bool>, p: int, i: int)
    requires |b| == |bv|
  {
    0 <= i < p <= |bv| && b[i] && bv[i].LFalse? && forall k :: i < k < p && !b[k] ==> bv[k].LFalse?
  }

  lemma BlockedLess(bv: seq<LBool>, b: seq<bool>, p: int, y: seq<bool>)
    requires Blocked(bv, b, p) && Completes(bv, y) && EqualAbove(y, b, p - 1)
    ensures Value(y) < Value(b)
  {
    var i :| BlockedAt(bv, b, p, i);
    assert y[i] != b[i];
    var d := TopDifference(y, b, p);
    ValueLess(y, b, d);
  }

  // ----- the scan -----

  /** Above i the bits can be made to match b with the proposed ones, without exceeding b before a proposed bit. */
  ghost predicate Matching(bv: seq<LBool>, b: seq<bool>, proposed: seq<bool>, i: int) {
    && |b| == |proposed| == |bv|
    && (forall k :: 0 <= k < |bv| && proposed[k] ==> k > i && b[k] && bv[k].LUndef?)
    && (forall k :: 0 <= k < |bv| && k > i && b[k] ==> bv[k].LTrue? || proposed[k])
    && (forall j, k :: 0 <= k < j < |bv| && proposed[k] ==> b[j] || !bv[j].LTrue?)
  }

  /** The result of the scan, p being the first bit from the top that will exceed b (-1: none does). */
  ghost predicate SettledAt(bv: seq<LBool>, b: seq<bool>, proposed: seq<bool>, p: int) {
    && |b| == |proposed| == |bv| && -1 <= p < |bv|
    && (forall k :: 0 <= k < |bv| && proposed[k] ==> bv[k].LUndef?)
    && (forall k :: p < k < |bv| ==> (b[k] <==> bv[k].LTrue? || proposed[k]))
    && (p >= 0 ==>
          && !b[p]
          && if proposed[p] then Blocked(bv, b, p) else bv[p].LTrue? && forall k :: 0 <= k < p ==> !proposed[k])
  }

  /** A scan that ran to its end, or was stopped by a fixed 1 above, leaves the first fixed excess to settle matters. */
  lemma {:induction false} MatchingSettles(bv: seq<LBool>, b: seq<bool>, proposed: seq<bool>, i: int, n: nat)
    returns (p: int)
    requires Matching(bv, b, proposed, i) && -1 <= i && n <= |bv|
    requires forall k :: n <= k < |bv| ==> b[k] || !bv[k].LTrue?
    requires i == -1 || exists j :: i < j < n && !b[j] && bv[j].LTrue?
    ensures SettledAt(bv, b, proposed, p)
  {
    if n == 0 {
      p := -1;
    } else if !b[n - 1] && bv[n - 1].LTrue? {
      p := n - 1;
    } else {
      p := MatchingSettles(bv, b, proposed, i, n - 1);
    }
  }

  /** Nothing above i exceeds b, and b[i] is fixed to 0: every completion is too small. */
  lemma NothingReaches(bv: seq<LBool>, b: seq<bool>, i: nat)
    requires |b| == |bv| && BlockedAt(bv, b, |bv|, i)
    ensures forall y :: Completes(bv, y) ==> Value(y) < Value(b)
  {
    forall y | Completes(bv, y) ensures Value(y) < Value(b) {
      BlockedLess(bv, b, |bv|, y);
    }
  }

  /** What the downward search for bit i has seen above j: no fixed excess, and last is the lowest free bit. */
  ghost predicate Searched(bv: seq<LBool>, b: seq<bool>, proposed: seq<bool>, j: int, last: int)
    requires |b| == |proposed| == |bv|
  {
    && -1 <= j
    && (last == -1 || (j < last < |bv| && bv[last].LUndef? && !proposed[last]))
    && (forall k :: j < k < |bv| && k >= 0 && k < (if last == -1 then |bv| else last) ==> !bv[k].LUndef? || proposed[k])
    && (forall k :: j < k < |bv| && k >= 0 && !b[k] ==> !bv[k].LTrue? && !proposed[k])
  }

  /**
   * The search of the inner loop: `over` if a bit above i already exceeds b, else the lowest free bit from i on, or -1.
   */
  method FindFlip(bv: seq<LBool>, b: seq<bool>, proposed: seq<bool>, i: nat) returns (over: bool, last: int)
    requires i < |bv| && Matching(bv, b, proposed, i) && b[i] && !bv[i].LTrue?
    ensures over ==> exists j :: i < j < |bv| && !b[j] && bv[j].LTrue?
    ensures !over ==> Searched(bv, b, proposed, i - 1, last)
  {
    over, last := false, -1;
    var j := |bv| - 1;
    while j >= i
      invariant i - 1 <= j < |bv| && Searched(bv, b, proposed, j, last)
    {
      if bv[j].LUndef? && !proposed[j] {
        last := j;
      } else if !b[j] && (bv[j].LTrue? || proposed[j]) {
        return true, -1;
      }
      j := j - 1;
    }
  }

  /** The scan shared by refine_ubound and refine_lbound: which free bits to set so that b is reached, if it can be. */
  method Propose(bv: seq<LBool>, b: seq<bool>) returns (ok: bool, proposed: seq<bool>, ghost p: int)
    requires |b| == |bv|
    ensures ok ==> SettledAt(bv, b, proposed, p)
    ensures !ok ==> forall y :: Completes(bv, y) ==> Value(y) < Value(b)
  {
    ok, proposed := true, seq(|bv|, _ => false);
    var i := |bv| - 1;
    while i >= 0
      invariant -1 <= i < |bv| && ok && Matching(bv, b, proposed, i)
    {
      if !bv[i].LTrue? && b[i] {
        var over, last := FindFlip(bv, b, proposed, i);
        if over {
          p := MatchingSettles(bv, b, proposed, i, |bv|);
          return;
        }
        if last == -1 {
          assert BlockedAt(bv, b, |bv|, i);
          NothingReaches(bv, b, i);
          return false, proposed, -1;
        }
        assert !proposed[last];
        if last > i {
          p := last;
          assert BlockedAt(bv, b, p, i);
          proposed := proposed[last := true];
          return;
        }
        proposed := proposed[last := true];
      }
      i := i - 1;
    }
    p := MatchingSettles(bv, b, proposed, -1, |bv|);
  }

  /** The 1 bits fixed so far: lowest() for bv, and the sum over the 0 bits for the flipped vector. */
  function Lowest(bv: seq<LBool>): seq<bool> {
    seq(|bv|, k requires 0 <= k < |bv| => bv[k].LTrue?)
  }

  /** The proposed bits from the top, as far as the first that exceeds b. */
  method Assemble(bv: seq<LBool>, b: seq<bool>, proposed: seq<bool>, ghost p: int) returns (x: seq<bool>)
    requires SettledAt(bv, b, proposed, p)
    ensures Completes(bv, x) && Value(x) >= Value(b)
    ensures forall y :: Completes(bv, y) && Value(y) >= Value(b) ==> Value(x) <= Value(y)
  {
    x := Lowest(bv);
    var j := |bv| - 1;
    while j >= 0
      invariant -1 <= j < |bv| == |x|
      invariant forall k :: 0 <= k < |bv| ==> (x[k] <==> bv[k].LTrue? || (k > j && proposed[k]))
      invariant forall k :: j < k < |bv| && proposed[k] ==> b[k]
    {
      if proposed[j] {
        assert !x[j];
        x := x[j := true];
        if !b[j] {
          break;
        }
      }
      j := j - 1;
    }
    SettledLeast(bv, b, proposed, p, x);
  }

  lemma SettledLeast(bv: seq<LBool>, b: seq<bool>, proposed: seq<bool>, p: int, x: seq<bool>)
    requires SettledAt(bv, b, proposed, p) && |x| == |bv|
    requires forall k :: 0 <= k < |bv| ==> (x[k] <==> bv[k].LTrue? || (k >= p && proposed[k]))
    ensures Completes(bv, x) && Value(x) >= Value(b)
    ensures forall y :: Completes(bv, y) && Value(y) >= Value(b) ==> Value(x) <= Value(y)
  {
    if p == -1 {
      ValueEqual(x, b);
    } else {
      ValueLess(b, x, p);
    }
    forall y | Completes(bv, y) && Value(y) >= Value(b) ensures Value(x) <= Value(y) {
      if x != y {
        var d := TopDifference(x, y, |x|);
        if y[d] {
          ValueLess(x, y, d);
        } else if d > p {
          ValueLess(y, b, d);
        } else {
          assert d == p && proposed[p];
          BlockedLess(bv, b, p, y);
        }
      }
    }
  }

  // ----- refinement -----

  /** Only the lowest n bits of a bound are looked at; a bound beyond n bits is then found out of reach. */
  function UpperSeen(bound: int, n: nat): int { if bound < 0 then bound % Pow2(n) else bound }

  method RefineUBound(bv: seq<LBool>, bound: int) returns (r: int)
    ensures IsLeast(bv, UpperSeen(bound, |bv|), r)
  {
    var b := Bits(bound, |bv|);
    ValueOfBits(bound, |bv|);
    ModAtMost(bound, Pow2(|bv|));
    var ok, proposed, p := Propose(bv, b);
    if !ok {
      return -1;
    }
    var x := Assemble(bv, b, proposed, p);
    if Value(x) < bound {
      ModSmall(bound, Pow2(|bv|));
      return -1;
    }
    r := Value(x);
    if bound >= 0 {
      ModSmall(bound, Pow2(|bv|));
    }
  }

  /** The bits with 0 and 1 exchanged. */
  function Flipped(bv: seq<LBool>): (r: seq<LBool>)
    ensures |r| == |bv|
  {
    seq(|bv|, k requires 0 <= k < |bv| => match bv[k] case LTrue => LFalse case LFalse => LTrue case LUndef => LUndef)
  }

  function Negated(x: seq<bool>): (r: seq<bool>)
    ensures |r| == |x|
  {
    seq(|x|, k requires 0 <= k < |x| => !x[k])
  }

  lemma {:induction false} NegatedValue(x: seq<bool>)
    ensures Value(Negated(x)) == Pow2(|x|) - 1 - Value(x)
  {
    if |x| > 0 {
      NegatedValue(x[..|x| - 1]);
      assert Negated(x)[..|x| - 1] == Negated(x[..|x| - 1]);
    }
  }

  lemma FlippedCompletes(bv: seq<LBool>, x: seq<bool>)
    ensures Completes(bv, x) <==> Completes(Flipped(bv), Negated(x))
    ensures Completes(bv, x) ==> |x| == |bv|
  {
    if Completes(Flipped(bv), Negated(x)) {
      forall k | 0 <= k < |bv| ensures (bv[k].LTrue? ==> x[k]) && (bv[k].LFalse? ==> !x[k]) {
        assert Flipped(bv)[k] == match bv[k] case LTrue => LFalse case LFalse => LTrue case LUndef => LUndef;
        assert Negated(x)[k] == !x[k];
      }
    }
  }

  function LowerSeen(obound: int, n: nat): int { if obound >= Pow2(n) then obound % Pow2(n) else obound }

  method RefineLBound(bv: seq<LBool>, obound: int) returns (r: int)
    ensures IsGreatest(bv, LowerSeen(obound, |bv|), r)
  {
    hide Value, Pow2;
    var n := |bv|;
    var b := Bits(-1 - obound, n);
    ghost var m := obound % Pow2(n);
    ValueOfBits(-1 - obound, n);
    ComplementMod(obound, Pow2(n));
    ModSmall(obound, Pow2(n));
    var ok, proposed, p := Propose(Flipped(bv), b);
    if !ok {
      NoneBelow(bv, b, m);
      return -1;
    }
    var x := Assemble(Flipped(bv), b, proposed, p);
    r := Pow2(n) - 1 - Value(x);
    GreatestFrom(bv, b, x, m);
    if r > obound {
      return -1;
    }
  }

  lemma NegatedTwice(x: seq<bool>)
    ensures Negated(Negated(x)) == x
  {
  }

  lemma NoneBelow(bv: seq<LBool>, b: seq<bool>, m: int)
    requires |b| == |bv| && Value(b) == Pow2(|bv|) - 1 - m
    requires forall y :: Completes(Flipped(bv), y) ==> Value(y) < Value(b)
    ensures forall y :: Completes(bv, y) ==> Value(y) > m
  {
    forall y | Completes(bv, y) ensures Value(y) > m {
      FlippedCompletes(bv, y);
      NegatedValue(y);
    }
  }

  lemma DualBound(bv: seq<LBool>, b: seq<bool>, x: seq<bool>, m: int, y: seq<bool>)
    requires |b| == |bv| == |x| && Value(b) == Pow2(|bv|) - 1 - m && Completes(bv, y) && Value(y) <= m
    requires Value(Negated(y)) >= Value(b) && Completes(Flipped(bv), Negated(y)) ==> Value(x) <= Value(Negated(y))
    ensures Value(y) <= Pow2(|bv|) - 1 - Value(x)
  {
    hide Value, Pow2, Negated, Flipped;
    FlippedCompletes(bv, y);
    NegatedValue(y);
  }

  lemma GreatestFrom(bv: seq<LBool>, b: seq<bool>, x: seq<bool>, m: int)
    requires |b| == |bv| && Value(b) == Pow2(|bv|) - 1 - m
    requires Completes(Flipped(bv), x) && Value(x) >= Value(b)
    requires forall y :: Completes(Flipped(bv), y) && Value(y) >= Value(b) ==> Value(x) <= Value(y)
    ensures IsGreatest(bv, m, Pow2(|bv|) - 1 - Value(x)) && Value(x) < Pow2(|bv|)
  {
    hide Value, Pow2, Negated, Flipped;
    var z := Negated(x);
    NegatedTwice(x);
    FlippedCompletes(bv, z);
    NegatedValue(x);
    assert Completes(bv, z) && Value(z) == Pow2(|bv|) - 1 - Value(x) <= m;
    forall y | Completes(bv, y) && Value(y) <= m ensures Value(y) <= Pow2(|bv|) - 1 - Value(x) {
      DualBound(bv, b, x, m, y);
    }
  }

  // ----- when the refinement is exact -----

  /** No completion is smaller than the one that sets no free bit. */
  lemma LowestLeast(bv: seq<LBool>)
    ensures Completes(bv, Lowest(bv)) && forall y :: Completes(bv, y) ==> Value(Lowest(bv)) <= Value(y)
  {
    forall y | Completes(bv, y) ensures Value(Lowest(bv)) <= Value(y) {
      if y != Lowest(bv) {
        var p := TopDifference(Lowest(bv), y, |bv|);
        ValueLess(Lowest(bv), y, p);
      }
    }
  }

  /** Every bit 1 that may be. */
  function Highest(bv: seq<LBool>): seq<bool> {
    seq(|bv|, k requires 0 <= k < |bv| => !bv[k].LFalse?)
  }

  lemma HighestGreatest(bv: seq<LBool>)
    ensures Completes(bv, Highest(bv)) && forall y :: Completes(bv, y) ==> Value(y) <= Value(Highest(bv))
  {
    forall y | Completes(bv, y) ensures Value(y) <= Value(Highest(bv)) {
      if y != Highest(bv) {
        var p := TopDifference(y, Highest(bv), |bv|);
        ValueLess(y, Highest(bv), p);
      }
    }
  }

  /**
   * refine_ubound is right about a bit-vector exactly when the bound is not negative, or its lowest bits, read as a
   * number, are not above the lowest completion.
   */
  lemma UBoundExactIff(bv: seq<LBool>, bound: int, r: int)
    requires IsLeast(bv, UpperSeen(bound, |bv|), r)
    ensures IsLeast(bv, bound, r) <==> bound >= 0 || Value(Lowest(bv)) >= bound % Pow2(|bv|)
  {
    hide Value, Completes, Pow2;
    LowestLeast(bv);
    if bound < 0 {
      var low := Value(Lowest(bv));
      assert IsLeast(bv, bound, low);
      if IsLeast(bv, bound, r) {
        LeastUnique(bv, bound, r, low);
      }
      if low >= UpperSeen(bound, |bv|) {
        assert IsLeast(bv, UpperSeen(bound, |bv|), low);
        LeastUnique(bv, UpperSeen(bound, |bv|), r, low);
      }
    }
  }

  /** refine_lbound likewise, for bounds below 2^n or with lowest bits not below the highest completion. */
  lemma LBoundExactIff(bv: seq<LBool>, bound: int, r: int)
    requires IsGreatest(bv, LowerSeen(bound, |bv|), r)
    ensures IsGreatest(bv, bound, r) <==> bound < Pow2(|bv|) || Value(Highest(bv)) <= bound % Pow2(|bv|)
  {
    HighestGreatest(bv);
    assert Value(Highest(bv)) < Pow2(|bv|);
    hide Value, Completes, Pow2;
    if bound >= Pow2(|bv|) {
      var high := Value(Highest(bv));
      assert IsGreatest(bv, bound, high);
      if IsGreatest(bv, bound, r) {
        GreatestUnique(bv, bound, r, high);
      }
      if high <= LowerSeen(bound, |bv|) {
        assert IsGreatest(bv, LowerSeen(bound, |bv|), high);
        GreatestUnique(bv, LowerSeen(bound, |bv|), r, high);
      }
    }
  }

  /** The refinement agrees with the exhaustive check under the same condition. */
  lemma UBoundMatchesCheck(bv: seq<LBool>, bound: int, r: int, expected: int)
    requires IsLeast(bv, UpperSeen(bound, |bv|), r) && IsLeast(bv, bound, expected)
    ensures r == expected <==> bound >= 0 || Value(Lowest(bv)) >= bound % Pow2(|bv|)
  {
    UBoundExactIff(bv, bound, r);
    if IsLeast(bv, bound, r) {
      LeastUnique(bv, bound, r, expected);
    }
  }

  lemma LBoundMatchesCheck(bv: seq<LBool>, bound: int, r: int, expected: int)
    requires IsGreatest(bv, LowerSeen(bound, |bv|), r) && IsGreatest(bv, bound, expected)
    ensures r == expected <==> bound < Pow2(|bv|) || Value(Highest(bv)) <= bound % Pow2(|bv|)
  {
    LBoundExactIff(bv, bound, r);
    if IsGreatest(bv, bound, r) {
      GreatestUnique(bv, bound, r, expected);
    }
  }

  /**
   * A bound for which refine_ubound is right whatever bits of width n are assigned: not negative, or a multiple of 2^n.
   */
  lemma UBoundExactAtWidth(n: nat, bound: int)
    ensures (forall bv, r :: |bv| == n && IsLeast(bv, UpperSeen(bound, n), r) ==> IsLeast(bv, bound, r)) <==>
      bound >= 0 || bound % Pow2(n) == 0
  {
    if bound < 0 && bound % Pow2(n) != 0 {
      var bv, zero := seq(n, _ => LFalse), seq(n, _ => false);
      AllZero(n);
      forall y | Completes(bv, y) ensures y == zero {
      }
      assert Completes(bv, zero);
      assert IsLeast(bv, UpperSeen(bound, n), -1);
      assert !IsLeast(bv, bound, -1);
    }
  }

  lemma {:induction false} AllZero(n: nat)
    ensures Value(seq(n, _ => false)) == 0
  {
    if n > 0 {
      AllZero(n - 1);
      assert seq(n, _ => false)[..n - 1] == seq(n - 1, _ => false);
    }
  }

  /** A bound for which refine_lbound is: below 2^n, or congruent to the largest number of n bits. */
  lemma LBoundExactAtWidth(n: nat, bound: int)
    ensures (forall bv, r :: |bv| == n && IsGreatest(bv, LowerSeen(bound, n), r) ==> IsGreatest(bv, bound, r)) <==>
      bound < Pow2(n) || bound % Pow2(n) == Pow2(n) - 1
  {
    if bound >= Pow2(n) && bound % Pow2(n) != Pow2(n) - 1 {
      var bv, zero := seq(n, _ => LTrue), seq(n, _ => false);
      AllZero(n);
      NegatedValue(zero);
      var one := Negated(zero);
      forall y | Completes(bv, y) ensures y == one {
      }
      assert Completes(bv, one);
      assert IsGreatest(bv, LowerSeen(bound, n), -1);
      assert !IsGreatest(bv, bound, -1);
    }
  }

  /** One bit fixed to 0 against the bound -1: the answer is -1, none, although 0 is not below the bound. */
  lemma NegativeBoundMissed()
    ensures IsLeast([LFalse], UpperSeen(-1, 1), -1) && IsLeast([LFalse], -1, 0) && !IsLeast([LFalse], -1, -1)
  {
    assert Pow2(1) == 2 * Pow2(0);
    assert Completes([LFalse], [false]) && Value([false]) == 0;
    forall y | Completes([LFalse], y) ensures y == [false] {
    }
  }

  /** One bit fixed to 1 against the bound 2: the answer is -1, none, although 1 is not above the bound. */
  lemma WideBoundMissed()
    ensures IsGreatest([LTrue], LowerSeen(2, 1), -1) && IsGreatest([LTrue], 2, 1) && !IsGreatest([LTrue], 2, -1)
  {
    assert Pow2(1) == 2 * Pow2(0);
    assert Completes([LTrue], [true]) && Value([true]) == 1;
    forall y | Completes([LTrue], y) ensures y == [true] {
    }
  }

  // ----- the exhaustive check -----

  /** dbg_evaluate: the numbers the bits up to pos can still become, each plus val. */
  function Evaluate(bv: seq<LBool>, pos: int, val: int): (vals: seq<int>)
    requires -1 <= pos < |bv|
    decreases pos
  {
    if pos == -1 then [val]
    else
      (if bv[pos].LFalse? then [] else Evaluate(bv, pos - 1, val + Pow2(pos)))
      + (if bv[pos].LTrue? then [] else Evaluate(bv, pos - 1, val))
  }

  /** v is val plus some number the lowest n bits can still become. */
  ghost predicate CanBecome(bv: seq<LBool>, n: nat, val: int, v: int)
    requires n <= |bv|
  {
    exists x :: Completes(bv[..n], x) && v == val + Value(x)
  }

  predicate Allows(b: LBool, last: bool) { if last then !b.LFalse? else !b.LTrue? }

  lemma WithTop(bv: seq<LBool>, n: nat, val: int, v: int, last: bool)
    requires n < |bv| && Allows(bv[n], last) && CanBecome(bv, n, if last then val + Pow2(n) else val, v)
    ensures CanBecome(bv, n + 1, val, v)
  {
    var x :| Completes(bv[..n], x) && v == (if last then val + Pow2(n) else val) + Value(x);
    var y := x + [last];
    assert y[..n] == x && bv[..n + 1][..n] == bv[..n];
    assert Completes(bv[..n + 1], y);
  }

  lemma WithoutTop(bv: seq<LBool>, n: nat, val: int, v: int) returns (last: bool)
    requires n < |bv| && CanBecome(bv, n + 1, val, v)
    ensures Allows(bv[n], last) && CanBecome(bv, n, if last then val + Pow2(n) else val, v)
  {
    var y :| Completes(bv[..n + 1], y) && v == val + Value(y);
    last := y[n];
    assert bv[..n + 1][n] == bv[n] && bv[..n + 1][..n] == bv[..n];
    assert Completes(bv[..n], y[..n]);
  }

  lemma {:induction false} EvaluateAll(bv: seq<LBool>, pos: int, val: int, v: int)
    requires -1 <= pos < |bv|
    ensures v in Evaluate(bv, pos, val) <==> CanBecome(bv, pos + 1, val, v)
    decreases pos
  {
    if pos == -1 {
      assert Completes(bv[..0], []) && Value([]) == 0;
      assert forall x :: Completes(bv[..0], x) ==> x == [];
    } else {
      EvaluateAll(bv, pos - 1, val + Pow2(pos), v);
      EvaluateAll(bv, pos - 1, val, v);
      if CanBecome(bv, pos + 1, val, v) {
        var last := WithoutTop(bv, pos, val, v);
      }
      forall last | Allows(bv[pos], last) && CanBecome(bv, pos, if last then val + Pow2(pos) else val, v)
        ensures CanBecome(bv, pos + 1, val, v)
      {
        WithTop(bv, pos, val, v, last);
      }
      assert Allows(bv[pos], true) <==> !bv[pos].LFalse?;
      assert Allows(bv[pos], false) <==> !bv[pos].LTrue?;
    }
  }

  ghost predicate IsCompletion(bv: seq<LBool>, v: int) { exists x :: Completes(bv, x) && v == Value(x) }

  lemma EvaluateCompletions(bv: seq<LBool>, vals: seq<int>)
    requires vals == Evaluate(bv, |bv| - 1, 0)
    ensures forall v :: v in vals <==> IsCompletion(bv, v)
  {
    hide Evaluate;
    forall v ensures v in vals <==> IsCompletion(bv, v) {
      EvaluateAll(bv, |bv| - 1, 0, v);
      assert bv[..|bv|] == bv;
    }
  }

  /** refine_ubound_check, right for every bound. */
  method RefineUBoundCheck(bv: seq<LBool>, bound: int) returns (r: int)
    ensures IsLeast(bv, bound, r)
  {
    hide Value, Pow2, Completes, Evaluate;
    var vals := Evaluate(bv, |bv| - 1, 0);
    r := -1;
    EvaluateCompletions(bv, vals);
    for i := 0 to |vals|
      invariant forall k :: 0 <= k < i && vals[k] >= bound ==> 0 <= r <= vals[k]
      invariant r == -1 || (r in vals && r >= bound && r >= 0)
    {
      assert vals[i] in vals;
      if vals[i] >= bound && (r < 0 || vals[i] < r) {
        r := vals[i];
      }
    }
    forall y | Completes(bv, y) && Value(y) >= bound ensures 0 <= r <= Value(y) {
      assert IsCompletion(bv, Value(y));
      assert Value(y) in vals;
    }
  }

  /** refine_lbound_check, right for every bound. */
  method RefineLBoundCheck(bv: seq<LBool>, bound: int) returns (r: int)
    ensures IsGreatest(bv, bound, r)
  {
    hide Value, Pow2, Completes, Evaluate;
    var vals := Evaluate(bv, |bv| - 1, 0);
    r := -1;
    EvaluateCompletions(bv, vals);
    for i := 0 to |vals|
      invariant forall k :: 0 <= k < i && vals[k] <= bound ==> vals[k] <= r
      invariant r == -1 || (r in vals && r <= bound)
    {
      assert vals[i] in vals;
      if vals[i] <= bound && (r < 0 || vals[i] > r) {
        r := vals[i];
      }
    }
    forall y | Completes(bv, y) && Value(y) <= bound ensures Value(y) <= r {
      assert IsCompletion(bv, Value(y));
      assert Value(y) in vals;
    }
  }
}
