/** Numbers as bit-vectors, and division by powers of two. */
module Binary {
  function Pow2(n: nat): (p: nat)
    ensures p >= 1
  {
    if n == 0 then 1 else 2 * Pow2(n - 1)
  }

  /** The number a bit-vector denotes, bit 0 being the least significant. */
  function Value(x: seq<bool>): (v: nat)
    ensures v < Pow2(|x|)
  {
    if |x| == 0 then 0
    else Value(x[..|x| - 1]) + (if x[|x| - 1] then Pow2(|x| - 1) else 0)
  }

  /** The lowest n bits of the two's complement form of b. */
  function Bits(b: int, n: nat): (x: seq<bool>)
    ensures |x| == n
  {
    if n == 0 then [] else Bits(b, n - 1) + [b / Pow2(n - 1) % 2 == 1]
  }

  lemma {:induction false} ValueOfBits(b: int, n: nat)
    ensures Value(Bits(b, n)) == b % Pow2(n)
  {
    if n > 0 {
      ValueOfBits(b, n - 1);
      var p := Pow2(n - 1);
      assert Bits(b, n)[..n - 1] == Bits(b, n - 1);
      ModSplit(b, p);
    }
  }

  lemma ModSplit(b: int, p: nat)
    requires p >= 1
    ensures b % (2 * p) == b % p + (if b / p % 2 == 1 then p else 0)
  {
    var q, h, w := b / p, b / p / 2, b / p % 2;
    assert b == p * q + b % p && q == 2 * h + w && 0 <= w < 2;
    assert b == (2 * p) * h + (p * w + b % p);
    DivisionUnique(b, 2 * p, h, p * w + b % p);
  }

  lemma DivisionUnique(b: int, d: nat, q: int, r: int)
    requires d >= 1 && b == d * q + r && 0 <= r < d
    ensures b % d == r
  {
    var q', r' := b / d, b % d;
    Scaled(d, q - q');
    Scaled(d, q' - q);
    assert d * (q - q') == d * q - d * q' && d * (q' - q) == d * q' - d * q;
  }

  lemma Scaled(d: nat, e: int)
    ensures e >= 1 ==> d * e >= d
  {
  }

  lemma ModAtMost(b: int, d: nat)
    requires d >= 1
    ensures b >= 0 ==> b % d <= b
  {
    if b >= 0 {
      assert b == d * (b / d) + b % d;
      assert b / d >= 0;
    }
  }

  lemma ModSmall(b: int, d: nat)
    requires d >= 1
    ensures 0 <= b < d ==> b % d == b
  {
  }

  lemma ComplementMod(b: int, d: nat)
    requires d >= 1
    ensures (-1 - b) % d == d - 1 - b % d
  {
    assert b == d * (b / d) + b % d;
    assert -1 - b == d * (-(b / d) - 1) + (d - 1 - b % d);
    DivisionUnique(-1 - b, d, -(b / d) - 1, d - 1 - b % d);
  }
}
