/** Powers of two and the Euclidean division facts the bit arithmetic of the
    encoder rests on. A right shift of a non-negative integer by `n` is a
    division by `Pow2(n)`, and masking with `2^n - 1` is `% Pow2(n)`. */
module Arith {

  function Pow2(n: nat): (p: nat)
    ensures p >= 1
  {
    if n == 0 then 1 else 2 * Pow2(n - 1)
  }

  lemma {:induction false} Pow2Add(a: nat, b: nat)
    ensures Pow2(a + b) == Pow2(a) * Pow2(b)
  {
    if a > 0 {
      Pow2Add(a - 1, b);
      assert Pow2(a + b) == 2 * Pow2(a - 1 + b);
    }
  }

  /** Euclidean division is unique: any quotient/remainder pair is THE pair. */
  lemma DivModUnique(x: int, m: int, q: int, r: int)
    requires m > 0 && 0 <= r < m && x == m * q + r
    ensures x / m == q && x % m == r
  {
    var q', r' := x / m, x % m;
    assert m * q' + r' == m * q + r;
    if q' != q {
      var d := if q' > q then q' - q else q - q';
      MulAtLeast(m, d);
      assert false;
    }
  }

  lemma MulAtLeast(m: int, d: int)
    requires m > 0 && d >= 1
    ensures m * d >= m
  {
  }

  lemma DivAddMultiple(a: int, q: int, m: int)
    requires m > 0
    ensures (a + m * q) / m == a / m + q
    ensures (a + m * q) % m == a % m
  {
    DivModUnique(a + m * q, m, a / m + q, a % m);
  }

  /** Dividing by `a` and then by `b` is dividing by `a * b`; the remainder
      modulo `a * b` splits into the two digits. */
  lemma DivModNested(x: int, a: int, b: int)
    requires x >= 0 && a > 0 && b > 0
    ensures x / (a * b) == (x / a) / b
    ensures x % (a * b) == x % a + a * ((x / a) % b)
  {
    var q1, r1 := x / a, x % a;
    var q2, r2 := q1 / b, q1 % b;
    assert x == a * q1 + r1;
    assert q1 == b * q2 + r2;
    MulDistributes(a, b * q2, r2);
    MulAssociates(a, b, q2);
    assert x == (a * b) * q2 + (a * r2 + r1);
    MulMonotone(a, r2, b - 1);
    MulDistributes(a, b - 1, 1);
    assert a * r2 + r1 < a * b;
    DivModUnique(x, a * b, q2, a * r2 + r1);
  }

  lemma DivAtMost(x: int, m: int)
    requires x >= 0 && m >= 1
    ensures 0 <= x / m <= x
  {
    DivModUnique(x, m, x / m, x % m);
    MulAtLeast(m, x / m + 1);
  }

  lemma MulDistributes(a: int, b: int, c: int)
    ensures a * (b + c) == a * b + a * c
  {
  }

  lemma MulAssociates(a: int, b: int, c: int)
    ensures a * (b * c) == (a * b) * c
  {
  }

  lemma MulMonotone(a: int, b: int, c: int)
    requires a >= 0 && b <= c
    ensures a * b <= a * c
  {
    MulDistributes(a, b, c - b);
    assert a * (c - b) >= 0;
  }
}
