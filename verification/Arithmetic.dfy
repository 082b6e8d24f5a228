/** Division facts that the models share. */
module Arithmetic {

  lemma MulSign(d: int, p: int)
    requires p >= 1
    ensures d >= 1 ==> d * p >= p
    ensures d <= -1 ==> d * p <= -p
  {
  }

  // Quotient and remainder are determined by b == q * p + r.
  lemma DivModUnique(b: int, p: nat, q: int, r: nat)
    requires b == q * p + r && r < p
    ensures b % p == r && b / p == q
  {
    var d := q - b / p;
    assert b % p == r + d * p;
    MulSign(d, p);
  }

  lemma MulMod(q: int, a: nat)
    requires a >= 1
    ensures (q * a) % a == 0
  {
    DivModUnique(q * a, a, q, 0);
  }

  lemma DivisibleTrans(x: int, b: nat, a: nat)
    requires a >= 1 && b >= 1 && x % b == 0 && b % a == 0
    ensures x % a == 0
  {
    var k, j := x / b, b / a;
    assert x == k * b && b == j * a;
    assert x == (k * j) * a;
    MulMod(k * j, a);
  }

  lemma MultipleAtLeast(x: nat, a: nat)
    requires a >= 1 && x % a == 0 && x > 0
    ensures x >= a
  {
  }

  // Whole objects of m bytes, each shrunk to f bytes, take no more room than before.
  lemma ShrunkFits(x: nat, m: nat, f: nat)
    requires 1 <= f <= m
    ensures x / m * f <= x
  {
    var q := x / m;
    assert q * m <= x;
    assert q * f <= q * m;
  }

  lemma AddDivisible(x: nat, y: nat, a: nat)
    requires a >= 1 && x % a == 0 && y % a == 0
    ensures (x + y) % a == 0
  {
    assert x == x / a * a && y == y / a * a;
    assert x + y == (x / a + y / a) * a;
    MulMod(x / a + y / a, a);
  }

  // The least multiple of a that is not below x.
  function RoundUp(x: nat, a: nat): (r: nat)
    requires a >= 1
    ensures x <= r < x + a && r % a == 0
  {
    var q := (x + a - 1) / a;
    assert q * a <= x + a - 1 < q * a + a;
    MulMod(q, a);
    q * a
  }

  predicate IsPow2(d: nat) {
    d == 1 || (d > 1 && d % 2 == 0 && IsPow2(d / 2))
  }

  // The larger of two powers of two is a multiple of the smaller.
  lemma {:induction false} Pow2Divides(a: nat, b: nat)
    requires IsPow2(a) && IsPow2(b) && a <= b
    ensures b % a == 0
  {
    if a > 1 {
      Pow2Divides(a / 2, b / 2);
      var k := (b / 2) / (a / 2);
      assert b / 2 == k * (a / 2);
      assert b == k * a;
      MulMod(k, a);
    }
  }

  lemma ModBound(x: nat, d: nat)
    requires d >= 1
    ensures x % d < d && x % d <= x
  {
  }

  lemma ModSmall(x: nat, d: nat)
    requires x < d
    ensures x % d == x && x / d == 0
  {
    DivModUnique(x, d, 0, x);
  }

  lemma ModSucc(x: nat, d: nat)
    requires d >= 1
    ensures (x + 1) % d == if x % d == d - 1 then 0 else x % d + 1
  {
    var q, r := x / d, x % d;
    if r == d - 1 {
      assert x + 1 == (q + 1) * d + 0;
      DivModUnique(x + 1, d, q + 1, 0);
    } else {
      DivModUnique(x + 1, d, q, r + 1);
    }
  }

  function Pow2(k: nat): (p: nat)
    ensures p >= 1
  {
    if k == 0 then 1 else 2 * Pow2(k - 1)
  }

  function Max(a: nat, b: nat): nat {
    if a < b then b else a
  }
}
