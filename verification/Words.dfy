/** Two's-complement machine words of the C sources, as bounded integers.
    A right shift of a signed or unsigned value by n bits is floor division by 2^n,
    which is what Dafny's `/` computes for a positive divisor. */
module Words {

  type Q7 = x: int | -0x80 <= x < 0x80
  type Q15 = x: int | -0x8000 <= x < 0x8000
  type Q31 = x: int | -0x8000_0000 <= x < 0x8000_0000
  type Q63 = x: int | -0x8000_0000_0000_0000 <= x < 0x8000_0000_0000_0000
  type U16 = x: int | 0 <= x < 0x1_0000
  type U32 = x: int | 0 <= x < 0x1_0000_0000

  /** Conversion to a signed type of 8, 16, 32 or 64 bits: the representative of `x`
      modulo 2^width that lies in the type. */
  function Wrap7(x: int): (r: Q7)
    ensures (r - x) % 0x100 == 0
  {
    (x + 0x80) % 0x100 - 0x80
  }

  function Wrap15(x: int): (r: Q15)
    ensures (r - x) % 0x1_0000 == 0
  {
    (x + 0x8000) % 0x1_0000 - 0x8000
  }

  function Wrap31(x: int): (r: Q31)
    ensures (r - x) % 0x1_0000_0000 == 0
  {
    (x + 0x8000_0000) % 0x1_0000_0000 - 0x8000_0000
  }

  function Wrap63(x: int): (r: Q63)
    ensures (r - x) % 0x1_0000_0000_0000_0000 == 0
  {
    (x + 0x8000_0000_0000_0000) % 0x1_0000_0000_0000_0000 - 0x8000_0000_0000_0000
  }

  /** Adding whole multiples of the modulus does not change the converted value. */
  lemma Wrap7Of(v: Q7, k: int)
    ensures Wrap7(v + k * 0x100) == v
  {
  }

  lemma Wrap15Of(v: Q15, k: int)
    ensures Wrap15(v + k * 0x1_0000) == v
  {
  }

  lemma Wrap31Of(v: Q31, k: int)
    ensures Wrap31(v + k * 0x1_0000_0000) == v
  {
  }

  lemma Wrap63Of(v: Q63, k: int)
    ensures Wrap63(v + k * 0x1_0000_0000_0000_0000) == v
  {
  }

  /** Conversion to uint32_t. */
  function ToU32(x: int): (r: U32)
    ensures (r - x) % 0x1_0000_0000 == 0
  {
    x % 0x1_0000_0000
  }

  function Min(a: int, b: int): int { if a <= b then a else b }
  function Max(a: int, b: int): int { if a <= b then b else a }

  /** The member of [lo, hi] nearest to `x`. */
  function Clamp(x: int, lo: int, hi: int): int
    requires lo <= hi
  {
    if x < lo then lo else if x > hi then hi else x
  }

  function Pow2(n: nat): (r: int)
    ensures r > 0
  {
    if n == 0 then 1 else 2 * Pow2(n - 1)
  }

  lemma Pow2Add(m: nat, n: nat)
    ensures Pow2(m + n) == Pow2(m) * Pow2(n)
  {
    if m == 0 {
    } else {
      Pow2Add(m - 1, n);
      assert Pow2(m + n) == 2 * Pow2(m - 1 + n) && Pow2(m) == 2 * Pow2(m - 1);
      MulAssociates(2, Pow2(m - 1), Pow2(n));
    }
  }

  lemma Pow2Monotone(m: nat, n: nat)
    requires m <= n
    ensures Pow2(m) <= Pow2(n)
  {
    if m == n {
    } else {
      Pow2Monotone(m, n - 1);
    }
  }

  /** The quotient and remainder by `m` of a number written as quotient and remainder. */
  lemma DivModUnique(x: int, m: int, q: int, r: int)
    requires 0 <= r < m && x == q * m + r
    ensures x / m == q && x % m == r
  {
    var d := x / m - q;
    assert d * m == r - x % m by {
      assert x / m * m + x % m == x;
    }
    MultipleBetween(d, m);
  }

  lemma MultipleBetween(d: int, m: int)
    requires m > 0 && -m < d * m < m
    ensures d == 0
  {
    assert d >= 1 ==> (d - 1) * m >= 0;
    assert d <= -1 ==> (-1 - d) * m >= 0;
  }

  /** Nested floor divisions combine. */
  lemma DivDiv(x: int, a: int, b: int)
    requires a > 0 && b > 0
    ensures a * b > 0 && x / a / b == x / (a * b)
  {
    var q, r := x / a / b, x / a % b;
    assert x == (q * b + r) * a + x % a;
    assert r * a + x % a < a * b by {
      assert r * a <= (b - 1) * a;
    }
    assert 0 <= r * a;
    assert x == q * (a * b) + (r * a + x % a);
    DivModUnique(x, a * b, q, r * a + x % a);
  }

  /** A product of two bounded factors is bounded by the product of the bounds. */
  lemma ProductBound(x: int, y: int, m: int, n: int)
    requires -m <= x <= m && -n <= y <= n
    ensures -(m * n) <= x * y <= m * n
  {
    assert (m - x) * (n + y) >= 0 && (m + x) * (n - y) >= 0;
    assert (m - x) * (n - y) >= 0 && (m + x) * (n + y) >= 0;
  }

  lemma MulMonotone(a: int, b: int, c: int)
    requires a <= b && 0 <= c
    ensures a * c <= b * c
  {
    assert (b - a) * c >= 0;
  }

  lemma MulDistributes(a: int, b: int, c: int)
    ensures (a + b) * c == a * c + b * c
    ensures c * (a + b) == c * a + c * b
  {
  }

  lemma MulAssociates(a: int, b: int, c: int)
    ensures a * (b * c) == (a * b) * c
    ensures a * (b * c) == (a * c) * b
  {
  }

  lemma DivModIdentity(x: int, m: int)
    requires m > 0
    ensures x == x / m * m + x % m && 0 <= x % m < m
  {
  }

  lemma DivZero(x: int, m: int)
    requires 0 <= x < m
    ensures x / m == 0 && x % m == x
  {
    DivModUnique(x, m, 0, x);
  }

  /** A quotient is below `q` when the dividend is below `q * m`. */
  lemma DivBelow(x: int, m: int, q: int)
    requires m > 0 && x < q * m
    ensures x / m < q
  {
    DivModIdentity(x, m);
    if x / m >= q {
      MulMonotone(q, x / m, m);
    }
  }

  lemma DivNonNegative(x: int, m: int)
    requires 0 <= x && 0 < m
    ensures 0 <= x / m
  {
    DivModIdentity(x, m);
    if x / m < 0 {
      MulMonotone(x / m, -1, m);
    }
  }
}
