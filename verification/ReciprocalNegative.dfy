/** The Q15 reciprocal of CMSIS/arm_math.h on negative inputs.  The source has a branch for them,
    but the index then selects the entry of another input and the unclipped cast wraps. */
module ReciprocalNegative {
  import opened Words
  import opened Saturation
  import opened Bits
  import opened Reciprocal

  // ---- One step in signed arithmetic ----

  /** A step without its cast, in signed arithmetic. */
  function Raw(a: int, y: int): int {
    y * (0x7FFF - a * y / 0x8000) / 0x4000
  }

  /** For any operands the unsigned arithmetic amounts to one reduction of the signed value to
      16 bits. */
  lemma StepIsRaw(a: Q15, y: Q15)
    ensures StepQ15(a, y) == Wrap15(Raw(a, y))
  {
    var f: int := ToU32(0x7FFF - ToU32(a * y / 0x8000));
    var j := FactorModulo(a * y / 0x8000);
    FactorProduct(y, f, 0x7FFF - a * y / 0x8000, j);
    CastOfUnsigned(y * f, y * (0x7FFF - a * y / 0x8000), y * j);
  }

  lemma FactorModulo(q: int) returns (j: int)
    ensures ToU32(0x7FFF - ToU32(q)) == 0x7FFF - q + j * 0x1_0000_0000
  {
    var f := ToU32(0x7FFF - ToU32(q));
    var i := (ToU32(q) - q) / 0x1_0000_0000;
    var k := (f - (0x7FFF - ToU32(q))) / 0x1_0000_0000;
    j := k - i;
  }

  lemma FactorProduct(y: int, f: int, g: int, j: int)
    requires f == g + j * 0x1_0000_0000
    ensures y * f == y * g + y * j * 0x1_0000_0000
  {
    MulDistributes(g, j * 0x1_0000_0000, y);
    MulAssociates(y, j, 0x1_0000_0000);
  }

  lemma CastOfUnsigned(x: int, z: int, k: int)
    requires x == z + k * 0x1_0000_0000
    ensures Wrap15(ToU32(x) / 0x4000) == Wrap15(z / 0x4000)
  {
    var n := (ToU32(x) - x) / 0x1_0000_0000 + k;
    assert ToU32(x) == z + n * 0x1_0000_0000;
    DivModUnique(ToU32(x), 0x4000, z / 0x4000 + n * 0x4_0000, z % 0x4000);
    SameWrap(z / 0x4000, 4 * n);
  }

  lemma SameWrap(x: int, k: int)
    ensures Wrap15(x + k * 0x1_0000) == Wrap15(x)
  {
    var n := (x - Wrap15(x)) / 0x1_0000;
    assert x == Wrap15(x) + n * 0x1_0000;
    Wrap15Of(Wrap15(x), n + k);
    Wrap15Of(Wrap15(x), n);
  }

  lemma Negated(a: int, m: int, y: int)
    requires a + m == 0
    ensures a * y == 0 - m * y
  {
  }

  lemma BothNegated(a: int, m: int, y: int, z: int)
    requires a + m == 0 && y + z == 0
    ensures a * y == m * z
  {
    Negated(a, m, y);
    Negated(y, z, m);
  }

  lemma Products(a: nat, y: nat, a': nat, y': nat)
    requires a <= a' && y <= y'
    ensures 0 <= a * y <= a' * y'
  {
    MulMonotone(a, a', y);
    MulMonotone(y, y', a');
    MulMonotone(0, a, y);
  }

  /** The error lies strictly between zero and one: the product is positive and below ideal. */
  ghost predicate Undershoots(a: Q15, y: Q15) {
    0.0 < ErrQ15(a * y) < 1.0
  }

  lemma UndershootsIff(a: Q15, y: Q15)
    ensures Undershoots(a, y) <==> 0 < a * y < 0x2000_0000
  {
  }

  /** A negative approximation works unless its product comes within a 128th of the ideal. */
  lemma FromNegative(a: Q15, y: Q15)
    requires -0x8000 < a <= -0x4000 && y < 0 && ClearOfIdeal(a * y)
    ensures Undershoots(a, StepQ15(a, y))
  {
    var p, r := a * y, Raw(a, y);
    var f := 0x7FFF - p / 0x8000;
    NegativeNumber(a, y, f, r);
    CorrectedProduct(p, f);
    var x: int := a * r;
    assert 0 < x < 0x2000_0000 by {
      FloorProduct(a, y, f, r);
    }
    assert -0x8000 <= r by {
      MulMonotone(0x4000, -a, -r);
      assert -a * -r == x;
    }
    StepIsRaw(a, y);
    Wrap15Of(r, 0);
    UndershootsIff(a, r);
  }

  lemma NegativeNumber(a: int, y: int, f: int, r: int)
    requires a < 0 && y < 0 && f > 0 && r == y * f / 0x4000
    ensures r < 0 && 0 < a * r
  {
    assert y * f < 0;
  }

  ghost predicate ClearOfIdeal(p: int) {
    p <= 0x1FC0_0000 || 0x2040_0000 <= p < 0x3FFF_8000
  }

  lemma CorrectedProduct(p: int, f: int)
    requires f == 0x7FFF - p / 0x8000 && 0 <= p && ClearOfIdeal(p)
    ensures f > 0 && p * f <= 0x800_0000_0000 - 0x2000_0000
  {
    assert 0x8000 * f <= 0x4000_0000 - p;
    MulMonotone(0x8000 * f, 0x4000_0000 - p, p);
    FarFromIdeal(0x2000_0000 - p);
    assert p * (0x4000_0000 - p) == 0x2000_0000 * 0x2000_0000 - (0x2000_0000 - p) * (0x2000_0000 - p);
    assert p * (0x8000 * f) == 0x8000 * (p * f);
  }

  lemma FarFromIdeal(d: int)
    requires d >= 0x40_0000 || d <= -0x40_0000
    ensures d * d >= 0x1000_0000_0000
  {
    var e := if d < 0 then -d else d;
    assert d * d == e * e;
    MulMonotone(0x40_0000, e, 0x40_0000);
    MulMonotone(0x40_0000, e, e);
  }

  lemma FloorProduct(a: int, y: int, f: int, r: int)
    requires -0x8000 < a < 0 && r == y * f / 0x4000
    requires a * y * f <= 0x800_0000_0000 - 0x2000_0000
    ensures a * r < 0x2000_0000
  {
    DivModIdentity(y * f, 0x4000);
    var m := y * f % 0x4000;
    MulAssociates(a, y, f);
    MulDistributes(r * 0x4000, m, a);
    MulAssociates(a, r, 0x4000);
    ProductBound(a, m, 0x7FFF, 0x3FFF);
  }

  /** The approximation at hand lies within a 128th of the reciprocal of `b`. */
  ghost predicate Accurate(b: int, y: int) {
    -1.0 / 128.0 <= ErrQ15(b * y) <= 1.0 / 128.0
  }

  lemma AccurateProduct(b: int, y: int)
    requires Accurate(b, y)
    ensures 0x1FC0_0000 <= b * y <= 0x2040_0000
  {
  }

  lemma TwoStepsUnfoldQ15(a: Q15, y: Q15)
    ensures NewtonQ15(a, y, 2) == StepQ15(a, StepQ15(a, y))
  {
    assert NewtonQ15(a, y, 1) == StepQ15(a, NewtonQ15(a, y, 0));
  }

  /** The correction factor on a magnitude `m`. */
  lemma FactorOf(a: int, m: nat, y: nat) returns (f: int)
    requires a + m == 0
    ensures f == 0x7FFF - a * y / 0x8000 && Raw(a, y) == y * f / 0x4000
    ensures 0x8000 * 0x7FFF + m * y <= 0x8000 * f < 0x8000 * 0x8000 + m * y && 0 <= f
  {
    Negated(a, m, y);
    Products(0, 0, m, y);
    f := 0x7FFF - a * y / 0x8000;
    DivModIdentity(a * y, 0x8000);
  }

  /** The floor of a quotient by 2^14, multiplied by `m`. */
  lemma ScaledQuotient(m: int, x: int)
    requires m > 0
    ensures 0x4000 * (m * (x / 0x4000)) <= m * x < 0x4000 * (m * (x / 0x4000)) + 0x4000 * m
  {
    DivModIdentity(x, 0x4000);
    var r, d := x / 0x4000, x % 0x4000;
    MulDistributes(r * 0x4000, d, m);
    MulAssociates(m, r, 0x4000);
    MulMonotone(0, d, m);
    MulMonotone(d + 1, 0x4000, m);
    MulDistributes(d, 1, m);
  }

  /** First step from an approximation accurate for the magnitude itself. */
  lemma OwnFirst(a: Q15, m: nat, y: Q15)
    requires a + m == 0 && m > 0 && Accurate(m, y)
    ensures 0 < y && 1593835776 - m < m * Raw(a, y) <= 1627422720
  {
    AccurateProduct(m, y);
    if y <= 0 {
      MulMonotone(y, 0, m);
    }
    var f := FactorOf(a, m, y);
    Products(0x1FC0_0000, 49023, m * y, f);
    Products(m * y, f, 0x2040_0000, 49280);
    MulAssociates(m, y, f);
    ScaledQuotient(m, y * f);
  }

  /** The second step on a positive first one, in terms of the product `x` with the magnitude. */
  lemma SecondScaled(a: Q15, m: nat, y: nat)
    requires a + m == 0 && m > 0
    ensures 0 <= Raw(a, y)
    ensures var x, z := m * y, m * Raw(a, y);
            0x2000_0000 * z <= x * (0x4000_0000 + x) && x * (0x3FFF_8000 + x) < 0x2000_0000 * (z + m)
  {
    var f := FactorOf(a, m, y);
    Products(0, 0, m, y);
    Products(0, 0, y, f);
    MulAssociates(m, y, f);
    ScaledQuotient(m, y * f);
    ScaledFactor(m * y, f);
  }

  lemma ScaledFactor(x: nat, f: int)
    requires 0x3FFF_8000 + x <= 0x8000 * f <= 0x4000_0000 + x
    ensures x * (0x3FFF_8000 + x) <= 0x8000 * (x * f) <= x * (0x4000_0000 + x)
  {
    MulMonotone(0x3FFF_8000 + x, 0x8000 * f, x);
    MulMonotone(0x8000 * f, 0x4000_0000 + x, x);
    MulAssociates(x, 0x8000, f);
  }

  /** Comparison of a factor through its product with the magnitude. */
  lemma CompareFactor(m: int, r: int, k: int)
    requires m > 0
    ensures m * r < m * k <==> r < k
    ensures m * r <= m * k <==> r <= k
  {
    if r < k {
      MulMonotone(1, k - r, m);
      MulDistributes(k, -r, m);
    } else {
      MulMonotone(0, r - k, m);
      MulDistributes(r, -k, m);
      if r > k {
        MulMonotone(1, r - k, m);
      }
    }
  }

  /** A step before its cast, in terms of the product with the magnitude. */
  lemma RawBounds(a: int, m: nat, y: nat)
    requires a + m == 0
    ensures 0x2000_0000 * Raw(a, y) <= y * (0x4000_0000 + m * y)
    ensures y * (0x3FFF_8000 + m * y) < 0x2000_0000 * (Raw(a, y) + 1)
  {
    var f := FactorOf(a, m, y);
    DivModIdentity(y * f, 0x4000);
    MulMonotone(0x8000 * f, 0x4000_0000 + m * y, y);
    MulMonotone(0x3FFF_8000 + m * y, 0x8000 * f, y);
    MulAssociates(y, 0x8000, f);
  }

  /** A step from any approximation undershoots exactly when the correction, before its cast, lies
      less than the ideal value below a multiple of 2^16. */
  lemma NegativeStepIff(a: Q15, m: nat, y: Q15)
    requires a + m == 0 && 0x4000 <= m < 0x8000
    ensures var below := (0 - Raw(a, y)) % 0x1_0000;
            Undershoots(a, StepQ15(a, y)) <==> 0 < below && m * below < 0x2000_0000
  {
    var r := Raw(a, y);
    var below := (0 - r) % 0x1_0000;
    StepIsRaw(a, y);
    CastBelow(r);
    if below <= 0x8000 {
      BothNegated(a, m, 0 - below, below);
      SignOfProduct(m, below);
      UndershootsIff(a, 0 - below);
    } else {
      NotNegative(a, m, 0x1_0000 - below);
      Products(0x4000, 0x8001, m, below);
    }
  }

  lemma CastBelow(r: int)
    ensures var below := (0 - r) % 0x1_0000;
            Wrap15(r) == if below <= 0x8000 then 0 - below else 0x1_0000 - below
  {
    var below := (0 - r) % 0x1_0000;
    var k := (0 - r) / 0x1_0000;
    assert r == (0 - below) + (0 - k) * 0x1_0000;
    if below <= 0x8000 {
      Wrap15Of(0 - below, 0 - k);
    } else {
      Wrap15Of(0x1_0000 - below, 0 - k - 1);
    }
  }

  lemma SignOfProduct(m: int, x: nat)
    requires m > 0
    ensures 0 < m * x <==> 0 < x
  {
    MulMonotone(1, m, x);
  }

  lemma NotNegative(a: Q15, m: nat, y: Q15)
    requires a + m == 0 && 0 <= y
    ensures !Undershoots(a, y)
  {
    Products(0, 0, m, y);
    Negated(a, m, y);
    UndershootsIff(a, y);
  }

  // ---- From the first step to the result ----

  /** The cast makes a first step in the upper half of its 2^16 negative. */
  lemma NegativeFirst(a: Q15, m: nat, y: Q15, r: int, top: int)
    requires a + m == 0 && 0x4000 <= m < 0x8000 && r == Raw(a, y)
    requires (top == 0x1_0000 || top == 0x2_0000) && top - 0x8000 <= r < top && ClearOfIdeal(m * (top - r))
    ensures Undershoots(a, NewtonQ15(a, y, 2))
  {
    StepIsRaw(a, y);
    Wrap15Of(r - top, top / 0x1_0000);
    BothNegated(a, m, r - top, top - r);
    FromNegative(a, r - top);
    TwoStepsUnfoldQ15(a, y);
  }

  /** The second step from a positive first one, multiplied by the magnitude, lands in one of two
      windows below a multiple of 2^16, exactly when the result undershoots. */
  ghost predicate InWindow(m: int, z: int, k: int) {
    0x1_0000 * k * m - 0x2000_0000 < z < 0x1_0000 * k * m
  }

  lemma PositiveFirst(a: Q15, m: nat, y: Q15, r: int) returns (z: int)
    requires a + m == 0 && 0x4000 <= m < 0x8000 && r == Raw(a, y) && 0x1_0000 <= r < 0x1_8000
    ensures SecondOf(m, m * (r - 0x1_0000), z)
    ensures Undershoots(a, NewtonQ15(a, y, 2)) <==> InWindow(m, z, 1) || InWindow(m, z, 2)
  {
    StepIsRaw(a, y);
    Wrap15Of(r - 0x1_0000, 1);
    var y1: Q15 := r - 0x1_0000;
    z := SecondRange(a, m, y1);
    NegativeStepIff(a, m, y1);
    SecondBelow(m, Raw(a, y1), z);
    TwoStepsUnfoldQ15(a, y);
  }

  lemma SecondRange(a: Q15, m: nat, y: Q15) returns (z: int)
    requires a + m == 0 && 0x4000 <= m < 0x8000 && 0 <= y
    ensures z == m * Raw(a, y) && 0 <= Raw(a, y) < 0x2_0000 && SecondOf(m, m * y, z)
  {
    SecondScaled(a, m, y);
    RawBounds(a, m, y);
    Products(m, y, 0x8000, 0x7FFF);
    Products(y, 0x4000_0000 + m * y, 0x7FFF, 0x8000_0000);
    CompareFactor(m, Raw(a, y), 0x2_0000);
    z := m * Raw(a, y);
  }

  /** Bounds of the second step by the product `x` of the first one with the magnitude. */
  ghost predicate SecondOf(m: int, x: int, z: int) {
    && 0x2000_0000 * z <= x * (0x4000_0000 + x) && x * (0x3FFF_8000 + x) < 0x2000_0000 * (z + m)
    && z < 0x2_0000 * m
  }

  lemma SecondBelow(m: nat, r: nat, z: int)
    requires 0x4000 <= m && r < 0x2_0000 && z == m * r
    ensures var below := (0 - r) % 0x1_0000;
            0 < below && m * below < 0x2000_0000 <==> InWindow(m, z, 1) || InWindow(m, z, 2)
  {
    var below := (0 - r) % 0x1_0000;
    var k := if r == 0 then 0 else if r <= 0x1_0000 then 1 else 2;
    DivModUnique(0 - r, 0x1_0000, 0 - k, 0x1_0000 * k - r);
    MulDistributes(0x1_0000 * k, 0 - r, m);
    Products(0x4000, below, m, below);
    CompareFactor(m, r, 0x1_0000);
    CompareFactor(m, r, 0x2_0000);
    SignOfProduct(m, below);
  }

  // Where the second step lies, from bounds on the first one.

  /** Linear bounds of a quadratic between zero and `k`, and from `k` on. */
  lemma Secant(x: nat, k: int, c: int)
    ensures x <= k ==> x * (c + x) <= (c + k) * x
    ensures k <= x ==> (c + k) * x <= x * (c + x)
  {
    if x <= k {
      MulMonotone(c + x, c + k, x);
    } else {
      MulMonotone(c + k, c + x, x);
    }
  }

  /** An upper bound `t` of the second step ... */
  ghost predicate AtMost(xhi: int, t: int) {
    (0x4000_0000 + xhi) * xhi < 0x2000_0000 * (t + 1)
  }

  /** ... and a lower bound. */
  ghost predicate AtLeast(xlo: int, mhi: int, t: int) {
    0 <= xlo && 0x2000_0000 * (t - 1 + mhi) <= (0x3FFF_8000 + xlo) * xlo
  }

  lemma SecondAtMost(m: int, x: nat, z: int, xhi: int, t: int)
    requires SecondOf(m, x, z) && x <= xhi && AtMost(xhi, t)
    ensures z <= t
  {
    Secant(x, xhi, 0x4000_0000);
    MulMonotone(x, xhi, 0x4000_0000 + xhi);
  }

  lemma SecondAtLeast(m: int, x: nat, z: int, xlo: int, mhi: int, t: int)
    requires SecondOf(m, x, z) && xlo <= x && m <= mhi && AtLeast(xlo, mhi, t)
    ensures t <= z
  {
    Secant(x, xlo, 0x3FFF_8000);
    MulMonotone(xlo, x, 0x3FFF_8000 + xlo);
  }

  lemma BelowWindow(m: int, x: nat, z: int, mlo: int, xhi: int)
    requires SecondOf(m, x, z) && 0x4000 <= mlo <= m && x <= xhi
    requires AtMost(xhi, 0x1_0000 * mlo - 0x2000_0000)
    ensures !InWindow(m, z, 1) && !InWindow(m, z, 2)
  {
    SecondAtMost(m, x, z, xhi, 0x1_0000 * mlo - 0x2000_0000);
  }

  lemma BetweenWindows(m: int, x: nat, z: int, mlo: int, mhi: int, xlo: int, xhi: int)
    requires SecondOf(m, x, z) && 0x4000 <= mlo <= m <= mhi && xlo <= x <= xhi
    requires AtLeast(xlo, mhi, 0x1_0000 * mhi) && AtMost(xhi, 0x2_0000 * mlo - 0x2000_0000)
    ensures !InWindow(m, z, 1) && !InWindow(m, z, 2)
  {
    SecondAtMost(m, x, z, xhi, 0x2_0000 * mlo - 0x2000_0000);
    SecondAtLeast(m, x, z, xlo, mhi, 0x1_0000 * mhi);
  }

  lemma InsideWindow(m: int, x: nat, z: int, mlo: int, mhi: int, xlo: int, xhi: int, k: int)
    requires SecondOf(m, x, z) && 0x4000 <= mlo <= m <= mhi && xlo <= x <= xhi && (k == 1 || k == 2)
    requires AtLeast(xlo, mhi, 0x1_0000 * k * mhi - 0x1FFF_FFFF) && AtMost(xhi, 0x1_0000 * k * mlo - 1)
    ensures InWindow(m, z, k)
  {
    SecondAtMost(m, x, z, xhi, 0x1_0000 * k * mlo - 1);
    SecondAtLeast(m, x, z, xlo, mhi, 0x1_0000 * k * mhi - 0x1FFF_FFFF);
  }

  // ---- Seeds accurate for the magnitude itself ----

  lemma OwnHighWorks(a: Q15, m: nat, y: Q15)
    requires a + m == 0 && Accurate(m, y) && 0x6110 <= m <= 0x7EB0
    ensures Undershoots(a, NewtonQ15(a, y, 2))
  {
    OwnFirst(a, m, y);
    var r := Raw(a, y);
    CompareFactor(m, r, 0x1_0000);
    CompareFactor(m, r, 0x7FFF);
    MulDistributes(0x1_0000, -r, m);
    NegativeFirst(a, m, y, r, 0x1_0000);
  }

  /** The first step stays positive for the lower magnitudes. */
  lemma OwnPositive(a: Q15, m: nat, y: Q15) returns (x: int, z: int)
    requires a + m == 0 && Accurate(m, y) && 0x40C0 <= m <= 0x5F00
    ensures 0 <= x && 1593835776 - 0x1_0001 * m < x <= 1627422720 - 0x1_0000 * m && SecondOf(m, x, z)
    ensures Undershoots(a, NewtonQ15(a, y, 2)) <==> InWindow(m, z, 1) || InWindow(m, z, 2)
  {
    OwnFirst(a, m, y);
    var r := Raw(a, y);
    CompareFactor(m, r, 0xFFFF);
    CompareFactor(m, r, 0x1_8000);
    MulDistributes(r, -0x1_0000, m);
    x := m * (r - 0x1_0000);
    Products(0, 0, m, r - 0x1_0000);
    z := PositiveFirst(a, m, y, r);
  }

  lemma OwnMiddleFails(a: Q15, m: nat, y: Q15)
    requires a + m == 0 && Accurate(m, y) && 0x4ED0 <= m <= 0x5F00
    ensures !Undershoots(a, NewtonQ15(a, y, 2))
  {
    var x, z := OwnPositive(a, m, y);
    BelowWindow(m, x, z, 0x4ED0, 305168384);
  }

  lemma OwnLowWorks(a: Q15, m: nat, y: Q15)
    requires a + m == 0 && Accurate(m, y) && 0x4780 <= m <= 0x4D40
    ensures Undershoots(a, NewtonQ15(a, y, 2))
  {
    var x, z := OwnPositive(a, m, y);
    InsideWindow(m, x, z, 0x4780, 0x4D40, 297776063, 427851776, 1);
  }

  lemma OwnLowFails(a: Q15, m: nat, y: Q15)
    requires a + m == 0 && Accurate(m, y) && 0x40C0 <= m <= 0x45E0
    ensures !Undershoots(a, NewtonQ15(a, y, 2))
  {
    var x, z := OwnPositive(a, m, y);
    BetweenWindows(m, x, z, 0x40C0, 0x45E0, 421509919, 541097984);
  }

  /** At the lowest magnitude the width of the seed keeps the first step below 3 * 2^15. */
  lemma LowestFails(a: Q15, m: nat, y: Q15)
    requires a + m == 0 && Accurate(m, y) && m == 0x4000
    ensures !Undershoots(a, NewtonQ15(a, y, 2))
  {
    OwnFirst(a, m, y);
    var r := Raw(a, y);
    CompareFactor(m, r, 97278);
    Products(m, y, 0x4000, 0x7FFF);
    Products(y, 0x4000_0000 + m * y, 0x7FFF, 0x4000_0000 + 0x4000 * 0x7FFF);
    RawBounds(a, m, y);
    var z := PositiveFirst(a, m, y, r);
    Products(m, r - 0x1_0000, 0x4000, 32766);
    Products(0x4000, 31743, m, r - 0x1_0000);
    BetweenWindows(m, m * (r - 0x1_0000), z, 0x4000, 0x4000, 520077312, 536838144);
  }

  /** Negative inputs with a selected entry accurate for the magnitude itself: the normalised
      magnitudes on which the result has the right sign and undershoots, and those on which it is
      no reciprocal. */
  lemma OwnSeed(input: Q15, shift: nat, table: seq<Q15>)
    requires -0x8000 < input < 0 && 1 <= shift && IsLeadingZeros(Abs(input), shift + 16) && |table| == 64
    requires var a := NormalisedQ15(input, shift); Accurate(0 - a, SeedQ15(a, table))
    ensures var m := Abs(NormalisedQ15(input, shift));
            var error := ErrQ15(Product(input, ResultQ15(input, shift, table), shift));
            && (0x4780 <= m <= 0x4D40 || 0x6110 <= m <= 0x7EB0 ==> 0.0 < error < 1.0)
            && (m == 0x4000 || 0x40C0 <= m <= 0x45E0 || 0x4ED0 <= m <= 0x5F00 ==> !(0.0 < error < 1.0))
  {
    var a := NormalisedQ15(input, shift);
    var m: nat, y := Abs(a), SeedQ15(a, table);
    NormalRangeQ15(input, shift);
    if m == 0x4000 {
      LowestFails(a, m, y);
    } else if 0x40C0 <= m <= 0x45E0 {
      OwnLowFails(a, m, y);
    } else if 0x4780 <= m <= 0x4D40 {
      OwnLowWorks(a, m, y);
    } else if 0x4ED0 <= m <= 0x5F00 {
      OwnMiddleFails(a, m, y);
    } else if 0x6110 <= m <= 0x7EB0 {
      OwnHighWorks(a, m, y);
    }
  }

  // ---- Entries accurate for the mirrored input and its neighbours ----

  /** The first step before its cast, and the second one after a cast that removes 2^16. */
  function First(m: int, y: int): int { Raw(0 - m, y) }

  function Second(m: int, y: int): int { Raw(0 - m, First(m, y) - 0x1_0000) }

  /** Steps grow with the magnitude and with the approximation. */
  lemma RawMonotone(m: nat, y: nat, m': nat, y': nat)
    requires m <= m' && y <= y'
    ensures Raw(0 - m, y) <= Raw(0 - m', y')
  {
    var f := FactorOf(0 - m, m, y);
    var f' := FactorOf(0 - m', m', y');
    Products(m, y, m', y');
    FactorMonotone(0 - m, m, y, 0 - m', m', y');
    Products(y, f, y', f');
    DivMonotone(y * f, y' * f', 0x4000);
  }

  lemma FactorMonotone(a: int, m: nat, y: nat, a': int, m': nat, y': nat)
    requires a + m == 0 && a' + m' == 0 && m * y <= m' * y'
    ensures 0x7FFF - a * y / 0x8000 <= 0x7FFF - a' * y' / 0x8000
  {
    Negated(a, m, y);
    Negated(a', m', y');
    DivMonotone(a' * y', a * y, 0x8000);
  }

  lemma DivMonotone(x: int, x': int, m: int)
    requires m > 0 && x <= x'
    ensures x / m <= x' / m
  {
    DivModIdentity(x', m);
    MulDistributes(x' / m, 1, m);
    if x / m > x' / m {
      MulMonotone(x' / m + 1, x / m, m);
      DivModIdentity(x, m);
    }
  }

  /** Both steps, evaluated: `f` and `g` are the correction factors, `c` and `r` the results. */
  lemma Evaluate(m: nat, y: nat, f: int, c: int, g: int, r: int)
    requires 0x8000 * (f - 0x8000) < m * y <= 0x8000 * (f - 0x7FFF)
    requires 0x4000 * c <= y * f < 0x4000 * (c + 1) && 0x1_0000 <= c
    requires 0x8000 * (g - 0x8000) < m * (c - 0x1_0000) <= 0x8000 * (g - 0x7FFF)
    requires 0x4000 * r <= (c - 0x1_0000) * g < 0x4000 * (r + 1)
    ensures First(m, y) == c && Second(m, y) == r
  {
    EvaluateFirst(m, y, f, c);
    EvaluateFirst(m, c - 0x1_0000, g, r);
  }

  lemma EvaluateFirst(m: nat, y: nat, f: int, c: int)
    requires 0x8000 * (f - 0x8000) < m * y <= 0x8000 * (f - 0x7FFF)
    requires 0x4000 * c <= y * f < 0x4000 * (c + 1)
    ensures First(m, y) == c
  {
    var f' := FactorOf(0 - m, m, y);
    DivModUnique(y * f, 0x4000, c, y * f - c * 0x4000);
  }

  /** Every magnitude from `mlo` to `mhi`, with an approximation from `ylo` to `yhi`. */
  ghost predicate InRow(a: Q15, m: nat, y: Q15, mlo: nat, mhi: nat, ylo: nat, yhi: nat) {
    a + m == 0 && 0x4000 <= mlo <= m <= mhi < 0x8000 && ylo <= y <= yhi
  }

  lemma FirstBetween(a: Q15, m: nat, y: Q15, mlo: nat, mhi: nat, ylo: nat, yhi: nat)
    requires InRow(a, m, y, mlo, mhi, ylo, yhi)
    ensures First(mlo, ylo) <= Raw(a, y) <= First(mhi, yhi)
  {
    RawMonotone(mlo, ylo, m, y);
    RawMonotone(m, y, mhi, yhi);
    assert 0 - m == a;
  }

  /** The cast makes the first step negative, clear of the ideal. */
  lemma RowTurnsNegative(a: Q15, m: nat, y: Q15, mlo: nat, mhi: nat, ylo: nat, yhi: nat, top: int)
    requires InRow(a, m, y, mlo, mhi, ylo, yhi)
    requires TurnsNegative(mlo, mhi, First(mlo, ylo), First(mhi, yhi), top)
    ensures Undershoots(a, NewtonQ15(a, y, 2))
  {
    hide First;
    FirstBetween(a, m, y, mlo, mhi, ylo, yhi);
    TurnedNegative(a, m, y, mlo, mhi, First(mlo, ylo), First(mhi, yhi), top);
  }

  ghost predicate TurnsNegative(mlo: nat, mhi: nat, clo: int, chi: int, top: int) {
    && (top == 0x1_0000 || top == 0x2_0000) && top - 0x8000 <= clo && chi < top
    && (mhi * (top - clo) <= 0x1FC0_0000 || (0x2040_0000 <= mlo * (top - chi) && mhi * (top - clo) < 0x3FFF_8000))
  }

  lemma TurnedNegative(a: Q15, m: nat, y: Q15, mlo: nat, mhi: nat, clo: int, chi: int, top: int)
    requires a + m == 0 && 0x4000 <= mlo <= m <= mhi < 0x8000 && clo <= Raw(a, y) <= chi
    requires TurnsNegative(mlo, mhi, clo, chi, top)
    ensures Undershoots(a, NewtonQ15(a, y, 2))
  {
    var r := Raw(a, y);
    Products(m, top - r, mhi, top - clo);
    Products(mlo, top - chi, m, top - r);
    NegativeFirst(a, m, y, r, top);
  }

  /** The first step stays positive, and the second one lies between its values at the corners. */
  lemma SecondBetween(a: Q15, m: nat, y: Q15, mlo: nat, mhi: nat, clo: int, chi: int) returns (r: int)
    requires a + m == 0 && 0x4000 <= mlo <= m <= mhi < 0x8000
    requires 0x1_0000 <= clo <= Raw(a, y) <= chi < 0x1_8000
    ensures 0 <= r && Raw(0 - mlo, clo - 0x1_0000) <= r <= Raw(0 - mhi, chi - 0x1_0000)
    ensures var below := (0 - r) % 0x1_0000;
            Undershoots(a, NewtonQ15(a, y, 2)) <==> 0 < below && m * below < 0x2000_0000
  {
    var c := Raw(a, y);
    StepIsRaw(a, y);
    Wrap15Of(c - 0x1_0000, 1);
    var y1: Q15 := c - 0x1_0000;
    RawMonotone(mlo, clo - 0x1_0000, m, y1);
    RawMonotone(m, y1, mhi, chi - 0x1_0000);
    assert 0 - m == a;
    var z := SecondRange(a, m, y1);
    NegativeStepIff(a, m, y1);
    TwoStepsUnfoldQ15(a, y);
    r := Raw(a, y1);
  }

  /** Corners at which the second step is less than the ideal below `k` times 2^16 ... */
  ghost predicate WorksAt(mhi: nat, rlo: int, rhi: int, k: int) {
    (k == 1 || k == 2) && rlo <= rhi < 0x1_0000 * k && mhi * (0x1_0000 * k - rlo) < 0x2000_0000
  }

  /** ... and at which it is the ideal or more below it. */
  ghost predicate FailsAt(mlo: nat, rlo: int, rhi: int, k: int) {
    (k == 1 || k == 2) && 0x1_0000 * (k - 1) <= rlo <= rhi < 0x1_0000 * k && 0x2000_0000 <= mlo * (0x1_0000 * k - rhi)
  }

  lemma SecondWorks(m: nat, r: int, mhi: nat, rlo: int, rhi: int, k: int)
    requires 0x4000 <= m <= mhi && 0 <= r && rlo <= r <= rhi && WorksAt(mhi, rlo, rhi, k)
    ensures var below := (0 - r) % 0x1_0000; 0 < below && m * below < 0x2000_0000
  {
    Products(m, 0x1_0000 * k - r, mhi, 0x1_0000 * k - rlo);
    Products(0x4000, 0x1_0000 * k - r, m, 0x1_0000 * k - r);
    DivModUnique(0 - r, 0x1_0000, 0 - k, 0x1_0000 * k - r);
  }

  lemma SecondFails(m: nat, r: int, mlo: nat, rlo: int, rhi: int, k: int)
    requires mlo <= m && 0 <= r && rlo <= r <= rhi && FailsAt(mlo, rlo, rhi, k)
    ensures var below := (0 - r) % 0x1_0000; !(0 < below && m * below < 0x2000_0000)
  {
    if r == 0x1_0000 * (k - 1) {
      DivModUnique(0 - r, 0x1_0000, 1 - k, 0);
    } else {
      Products(mlo, 0x1_0000 * k - rhi, m, 0x1_0000 * k - r);
      DivModUnique(0 - r, 0x1_0000, 0 - k, 0x1_0000 * k - r);
    }
  }

  lemma RowWorks(a: Q15, m: nat, y: Q15, mlo: nat, mhi: nat, ylo: nat, yhi: nat, k: int)
    requires InRow(a, m, y, mlo, mhi, ylo, yhi) && 0x1_0000 <= First(mlo, ylo) && First(mhi, yhi) < 0x1_8000
    requires WorksAt(mhi, Second(mlo, ylo), Second(mhi, yhi), k)
    ensures Undershoots(a, NewtonQ15(a, y, 2))
  {
    FirstBetween(a, m, y, mlo, mhi, ylo, yhi);
    var r := SecondBetween(a, m, y, mlo, mhi, First(mlo, ylo), First(mhi, yhi));
    SecondWorks(m, r, mhi, Second(mlo, ylo), Second(mhi, yhi), k);
  }

  lemma RowFails(a: Q15, m: nat, y: Q15, mlo: nat, mhi: nat, ylo: nat, yhi: nat, k: int)
    requires InRow(a, m, y, mlo, mhi, ylo, yhi) && 0x1_0000 <= First(mlo, ylo) && First(mhi, yhi) < 0x1_8000
    requires FailsAt(mlo, Second(mlo, ylo), Second(mhi, yhi), k)
    ensures !Undershoots(a, NewtonQ15(a, y, 2))
  {
    FirstBetween(a, m, y, mlo, mhi, ylo, yhi);
    var r := SecondBetween(a, m, y, mlo, mhi, First(mlo, ylo), First(mhi, yhi));
    SecondFails(m, r, mlo, Second(mlo, ylo), Second(mhi, yhi), k);
  }

  /** A row across 3 * 2^15: below it the second step is near 2^17, above it the first step turns
      negative. */
  lemma RowStraddles(a: Q15, m: nat, y: Q15, mlo: nat, mhi: nat, ylo: nat, yhi: nat)
    requires InRow(a, m, y, mlo, mhi, ylo, yhi) && 0x1_0000 <= First(mlo, ylo) < 0x1_8000
    requires WorksAt(mhi, Second(mlo, ylo), Raw(0 - mhi, 0x7FFF), 2)
    requires TurnsNegative(mlo, mhi, 0x1_8000, First(mhi, yhi), 0x2_0000)
    ensures Undershoots(a, NewtonQ15(a, y, 2))
  {
    FirstBetween(a, m, y, mlo, mhi, ylo, yhi);
    if Raw(a, y) < 0x1_8000 {
      var r := SecondBetween(a, m, y, mlo, mhi, First(mlo, ylo), 0x1_7FFF);
      SecondWorks(m, r, mhi, Second(mlo, ylo), Raw(0 - mhi, 0x7FFF), 2);
    } else {
      TurnedNegative(a, m, y, mlo, mhi, 0x1_8000, First(mhi, yhi), 0x2_0000);
    }
  }

  /** The inputs that share the entry of the mirrored one: the entry is accurate for the lowest and
      the highest of them. */
  ghost predicate BinAccurate(m: nat, y: Q15) {
    var base := (0xC000 - m) / 0x100 * 0x100;
    Accurate(base, y) && Accurate(base + 0xFF, y)
  }

  /** Seeds for magnitudes from `mlo` to `mhi`: `base` is the lowest input that shares the entry of
      the first one, `end` the highest that shares the entry of the last. */
  lemma SeedBetween(m: nat, y: Q15, mlo: nat, mhi: nat, base: nat, end: nat, ylo: nat, yhi: nat)
    requires 0x4000 < mlo <= m <= mhi < 0x8000 && BinAccurate(m, y)
    requires base == (0xC000 - mlo) / 0x100 * 0x100 && end == (0xC000 - mhi) / 0x100 * 0x100 + 0xFF
    requires 1 <= ylo && (ylo - 1) * base < 0x1FC0_0000 && 0x2040_0000 < (yhi + 1) * end
    ensures ylo <= y <= yhi
  {
    var b := (0xC000 - m) / 0x100 * 0x100;
    SameOrder(0xC000 - mhi, 0xC000 - m);
    SameOrder(0xC000 - m, 0xC000 - mlo);
    AccurateProduct(b, y);
    AccurateProduct(b + 0xFF, y);
    BoundedSeed(b, y, base, end, ylo, yhi);
  }

  lemma SameOrder(x: int, x': int)
    requires x <= x'
    ensures x / 0x100 * 0x100 <= x' / 0x100 * 0x100
  {
  }

  lemma BoundedSeed(b: nat, y: int, base: nat, end: nat, ylo: nat, yhi: nat)
    requires 0 < b <= base && end <= b + 0xFF && 0x1FC0_0000 <= b * y && (b + 0xFF) * y <= 0x2040_0000
    requires 1 <= ylo && (ylo - 1) * base < 0x1FC0_0000 && 0x2040_0000 < (yhi + 1) * end
    ensures ylo <= y <= yhi
  {
    if y < 0 {
      MulMonotone(y, 0, b);
    } else if y < ylo {
      Products(b, y, base, ylo - 1);
    } else if yhi < y {
      Products(end, yhi + 1, b + 0xFF, y);
    }
  }

  // The rows.  In each range the corners are evaluated: the lowest magnitude with its lowest seed and
  // the highest with its highest.

  lemma LowWorksA(a: Q15, m: nat, y: Q15)
    requires a + m == 0 && 0x4001 <= m <= 0x54AA && BinAccurate(m, y)
    ensures Undershoots(a, NewtonQ15(a, y, 2))
  {
    hide First, Second, NewtonQ15;
    SeedBetween(m, y, 0x4001, 0x54AA, 0x7F00, 0x6BFF, 16384, 19570);
    EvaluateFirst(0x4001, 16384, 40960, 40960);
    EvaluateFirst(0x54AA, 19570, 45712, 54601);
    RowTurnsNegative(a, m, y, 0x4001, 0x54AA, 16384, 19570, 0x1_0000);
  }

  lemma LowWorksB(a: Q15, m: nat, y: Q15)
    requires a + m == 0 && 0x54AB <= m <= 0x6000 && BinAccurate(m, y)
    ensures Undershoots(a, NewtonQ15(a, y, 2))
  {
    hide First, Second, NewtonQ15;
    SeedBetween(m, y, 0x54AB, 0x6000, 0x6B00, 0x60FF, 19447, 21789);
    EvaluateFirst(0x54AB, 19447, 45631, 54161);
    EvaluateFirst(0x6000, 21789, 49109, 65309);
    RowTurnsNegative(a, m, y, 0x54AB, 0x6000, 19447, 21789, 0x1_0000);
  }

  lemma LowWorks(a: Q15, m: nat, y: Q15)
    requires a + m == 0 && 0x4001 <= m <= 0x6000 && BinAccurate(m, y)
    ensures Undershoots(a, NewtonQ15(a, y, 2))
  {
    if m <= 0x54AA {
      LowWorksA(a, m, y);
    } else {
      LowWorksB(a, m, y);
    }
  }

  lemma LowFailsA(a: Q15, m: nat, y: Q15)
    requires a + m == 0 && 0x6001 <= m <= 0x6B00 && BinAccurate(m, y)
    ensures !Undershoots(a, NewtonQ15(a, y, 2))
  {
    hide First, Second, NewtonQ15;
    SeedBetween(m, y, 0x6001, 0x6B00, 0x5F00, 0x55FF, 21903, 24577);
    Evaluate(0x6001, 21903, 49195, 65766, 32940, 462);
    Evaluate(0x6B00, 24577, 53312, 79971, 44834, 39500);
    RowFails(a, m, y, 0x6001, 0x6B00, 21903, 24577, 1);
  }

  lemma LowFailsB(a: Q15, m: nat, y: Q15)
    requires a + m == 0 && 0x6B01 <= m <= 0x6C00 && BinAccurate(m, y)
    ensures !Undershoots(a, NewtonQ15(a, y, 2))
  {
    hide First, Second, NewtonQ15;
    SeedBetween(m, y, 0x6B01, 0x6C00, 0x5400, 0x54FF, 24772, 24866);
    Evaluate(0x6B01, 24772, 53476, 80853, 45572, 42604);
    Evaluate(0x6C00, 24866, 53748, 81573, 46299, 45318);
    RowFails(a, m, y, 0x6B01, 0x6C00, 24772, 24866, 1);
  }

  lemma LowFails(a: Q15, m: nat, y: Q15)
    requires a + m == 0 && 0x6001 <= m <= 0x6C00 && BinAccurate(m, y)
    ensures !Undershoots(a, NewtonQ15(a, y, 2))
  {
    if m <= 0x6B00 {
      LowFailsA(a, m, y);
    } else {
      LowFailsB(a, m, y);
    }
  }

  lemma MiddleWorks(a: Q15, m: nat, y: Q15)
    requires a + m == 0 && 0x6C01 <= m <= 0x6EA2 && BinAccurate(m, y)
    ensures Undershoots(a, NewtonQ15(a, y, 2))
  {
    hide First, Second, NewtonQ15;
    SeedBetween(m, y, 0x6C01, 0x6EA2, 0x5300, 0x51FF, 25070, 25776);
    Evaluate(0x6C01, 25070, 53921, 82507, 47087, 48774);
    Evaluate(0x6EA2, 25776, 55046, 86600, 50974, 65534);
    RowWorks(a, m, y, 0x6C01, 0x6EA2, 25070, 25776, 1);
  }

  lemma MiddleFails(a: Q15, m: nat, y: Q15)
    requires a + m == 0 && 0x6F01 <= m <= 0x7300 && BinAccurate(m, y)
    ensures !Undershoots(a, NewtonQ15(a, y, 2))
  {
    hide First, Second, NewtonQ15;
    SeedBetween(m, y, 0x6F01, 0x7300, 0x5000, 0x4DFF, 26010, 27097);
    Evaluate(0x6F01, 26010, 55324, 87828, 52100, 70887);
    Evaluate(0x7300, 27097, 57112, 94455, 58749, 103696);
    RowFails(a, m, y, 0x6F01, 0x7300, 26010, 27097, 2);
  }

  lemma HighWorksA(a: Q15, m: nat, y: Q15)
    requires a + m == 0 && 0x73CD <= m <= 0x73DF && BinAccurate(m, y)
    ensures Undershoots(a, NewtonQ15(a, y, 2))
  {
    hide First, Second, NewtonQ15;
    SeedBetween(m, y, 0x73CD, 0x73DF, 0x4C00, 0x4CFF, 27379, 27449);
    Evaluate(0x73CD, 27379, 57537, 96149, 60463, 112973);
    Evaluate(0x73DF, 27449, 57616, 96527, 60822, 115047);
    RowWorks(a, m, y, 0x73CD, 0x73DF, 27379, 27449, 2);
  }

  lemma HighWorksB(a: Q15, m: nat, y: Q15)
    requires a + m == 0 && 0x73E0 <= m <= 0x74FB && BinAccurate(m, y)
    ensures Undershoots(a, NewtonQ15(a, y, 2))
  {
    hide First, Second, NewtonQ15;
    SeedBetween(m, y, 0x73E0, 0x74FB, 0x4C00, 0x4BFF, 27379, 27811);
    Evaluate(0x73E0, 27379, 57553, 96175, 60504, 113145);
    EvaluateFirst(0x74FB, 27811, 58184, 98764);
    EvaluateFirst(0x74FB, 0x7FFF, 62714, 125424);
    RowStraddles(a, m, y, 0x73E0, 0x74FB, 27379, 27811);
  }

  lemma HighWorksC(a: Q15, m: nat, y: Q15)
    requires a + m == 0 && 0x74FC <= m <= 0x7A00 && BinAccurate(m, y)
    ensures Undershoots(a, NewtonQ15(a, y, 2))
  {
    hide First, Second, NewtonQ15;
    SeedBetween(m, y, 0x74FC, 0x7A00, 0x4B00, 0x46FF, 27744, 29769);
    EvaluateFirst(0x74FC, 27744, 58124, 98424);
    EvaluateFirst(0x7A00, 29769, 61141, 111090);
    RowTurnsNegative(a, m, y, 0x74FC, 0x7A00, 27744, 29769, 0x2_0000);
  }

  lemma HighWorksD(a: Q15, m: nat, y: Q15)
    requires a + m == 0 && 0x7A01 <= m <= 0x7ABC && BinAccurate(m, y)
    ensures Undershoots(a, NewtonQ15(a, y, 2))
  {
    hide First, Second, NewtonQ15;
    SeedBetween(m, y, 0x7A01, 0x7ABC, 0x4500, 0x45FF, 30157, 30195);
    EvaluateFirst(0x7A01, 30157, 61512, 113221);
    EvaluateFirst(0x7ABC, 30195, 61720, 113747);
    RowTurnsNegative(a, m, y, 0x7A01, 0x7ABC, 30157, 30195, 0x2_0000);
  }

  lemma HighWorksE(a: Q15, m: nat, y: Q15)
    requires a + m == 0 && 0x7ABD <= m <= 0x7AFA && BinAccurate(m, y)
    ensures Undershoots(a, NewtonQ15(a, y, 2))
  {
    hide First, Second, NewtonQ15;
    SeedBetween(m, y, 0x7ABD, 0x7AFA, 0x4500, 0x45FF, 30157, 30195);
    EvaluateFirst(0x7ABD, 30157, 61685, 113539);
    EvaluateFirst(0x7AFA, 30195, 61777, 113852);
    RowTurnsNegative(a, m, y, 0x7ABD, 0x7AFA, 30157, 30195, 0x2_0000);
  }

  lemma HighWorksF(a: Q15, m: nat, y: Q15)
    requires a + m == 0 && 0x7AFB <= m <= 0x7B00 && BinAccurate(m, y)
    ensures Undershoots(a, NewtonQ15(a, y, 2))
  {
    hide First, Second, NewtonQ15;
    SeedBetween(m, y, 0x7AFB, 0x7B00, 0x4500, 0x45FF, 30157, 30195);
    EvaluateFirst(0x7AFB, 30157, 61742, 113644);
    EvaluateFirst(0x7B00, 30195, 61783, 113863);
    RowTurnsNegative(a, m, y, 0x7AFB, 0x7B00, 30157, 30195, 0x2_0000);
  }

  lemma HighWorksG(a: Q15, m: nat, y: Q15)
    requires a + m == 0 && 0x7B01 <= m <= 0x7FFF && BinAccurate(m, y)
    ensures Undershoots(a, NewtonQ15(a, y, 2))
  {
    hide First, Second, NewtonQ15;
    SeedBetween(m, y, 0x7B01, 0x7FFF, 0x4400, 0x40FF, 30600, 32517);
    EvaluateFirst(0x7B01, 30600, 62173, 116119);
    EvaluateFirst(0x7FFF, 32517, 65284, 129567);
    RowTurnsNegative(a, m, y, 0x7B01, 0x7FFF, 30600, 32517, 0x2_0000);
  }

  lemma HighWorks(a: Q15, m: nat, y: Q15)
    requires a + m == 0 && 0x73CD <= m <= 0x7FFF && BinAccurate(m, y)
    ensures Undershoots(a, NewtonQ15(a, y, 2))
  {
    if m <= 0x73DF {
      HighWorksA(a, m, y);
    } else if m <= 0x74FB {
      HighWorksB(a, m, y);
    } else if m <= 0x7A00 {
      HighWorksC(a, m, y);
    } else if m <= 0x7ABC {
      HighWorksD(a, m, y);
    } else if m <= 0x7AFA {
      HighWorksE(a, m, y);
    } else if m <= 0x7B00 {
      HighWorksF(a, m, y);
    } else {
      HighWorksG(a, m, y);
    }
  }

  // The two gaps, with the lowest and the highest accurate entry.

  lemma LowerGapWorks(a: Q15, m: nat, y: Q15)
    requires a + m == 0 && 0x6EA3 <= m <= 0x6F00 && y == 25689
    ensures Undershoots(a, NewtonQ15(a, y, 2))
  {
    hide First, Second, NewtonQ15;
    Evaluate(0x6EA3, 25689, 54972, 86192, 50622, 63821);
    Evaluate(0x6F00, 25689, 55045, 86306, 50779, 64372);
    RowWorks(a, m, y, 0x6EA3, 0x6F00, 25689, 25689, 1);
  }

  lemma LowerGapFails(a: Q15, m: nat, y: Q15)
    requires a + m == 0 && 0x6EA3 <= m <= 0x6F00 && y == 25776
    ensures !Undershoots(a, NewtonQ15(a, y, 2))
  {
    hide First, Second, NewtonQ15;
    Evaluate(0x6EA3, 25776, 55047, 86602, 50976, 65543);
    Evaluate(0x6F00, 25776, 55120, 86717, 51135, 66106);
    RowFails(a, m, y, 0x6EA3, 0x6F00, 25776, 25776, 2);
  }

  lemma UpperGapWorks(a: Q15, m: nat, y: Q15)
    requires a + m == 0 && 0x7301 <= m <= 0x73CC && y == 27449
    ensures Undershoots(a, NewtonQ15(a, y, 2))
  {
    hide First, Second, NewtonQ15;
    Evaluate(0x7301, 27449, 57430, 96215, 60332, 112971);
    Evaluate(0x73CC, 27449, 57600, 96500, 60779, 114865);
    RowWorks(a, m, y, 0x7301, 0x73CC, 27449, 27449, 2);
  }

  lemma UpperGapFailsA(a: Q15, m: nat, y: Q15)
    requires a + m == 0 && 0x7301 <= m <= 0x73BF && y == 27379
    ensures !Undershoots(a, NewtonQ15(a, y, 2))
  {
    hide First, Second, NewtonQ15;
    Evaluate(0x7301, 27379, 57367, 95864, 60016, 111094);
    Evaluate(0x73BF, 27379, 57525, 96128, 60431, 112836);
    RowFails(a, m, y, 0x7301, 0x73BF, 27379, 27379, 2);
  }

  lemma UpperGapFailsB(a: Q15, m: nat, y: Q15)
    requires a + m == 0 && 0x73C0 <= m <= 0x73CB && y == 27379
    ensures !Undershoots(a, NewtonQ15(a, y, 2))
  {
    hide First, Second, NewtonQ15;
    Evaluate(0x73C0, 27379, 57526, 96130, 60434, 112848);
    Evaluate(0x73CB, 27379, 57535, 96145, 60457, 112947);
    RowFails(a, m, y, 0x73C0, 0x73CB, 27379, 27379, 2);
  }

  lemma UpperGapFailsC(a: Q15, m: nat, y: Q15)
    requires a + m == 0 && 0x73CC <= m <= 0x73CC && y == 27379
    ensures !Undershoots(a, NewtonQ15(a, y, 2))
  {
    hide First, Second, NewtonQ15;
    Evaluate(0x73CC, 27379, 57536, 96147, 60460, 112960);
    RowFails(a, m, y, 0x73CC, 0x73CC, 27379, 27379, 2);
  }

  lemma UpperGapFails(a: Q15, m: nat, y: Q15)
    requires a + m == 0 && 0x7301 <= m <= 0x73CC && y == 27379
    ensures !Undershoots(a, NewtonQ15(a, y, 2))
  {
    if m <= 0x73BF {
      UpperGapFailsA(a, m, y);
    } else if m <= 0x73CB {
      UpperGapFailsB(a, m, y);
    } else {
      UpperGapFailsC(a, m, y);
    }
  }

  // ---- The function ----

  /** A table whose entries lie within a 128th of the reciprocals of all positive inputs. */
  ghost predicate AccurateTable(table: seq<Q15>) {
    |table| == 64 && forall b: Q15 | 0x4000 <= b :: Accurate(b, SeedQ15(b, table))
  }

  /** The table is divided into blocks of 2^8 normalised inputs, counted from any multiple of 2^14;
      the entry of the block is corrected twice, each time with a cast to 16 bits. */
  lemma RecipQ15Value(input: Q15, shift: nat, table: seq<Q15>, i: nat, k: int)
    requires input != -0x8000 && 1 <= shift && IsLeadingZeros(Abs(input), shift + 16) && |table| == 64 && i < 64
    requires i * 0x100 <= input * Pow2(shift - 1) - k * 0x4000 < (i + 1) * 0x100
    ensures var a := input * Pow2(shift - 1);
            var y := Wrap15(table[i] * (0x7FFF - a * table[i] / 0x8000) / 0x4000);
            ResultQ15(input, shift, table) == Wrap15(y * (0x7FFF - a * y / 0x8000) / 0x4000)
  {
    hide Pow2, StepQ15, Wrap15;
    NormalRangeQ15(input, shift);
    var a := NormalisedQ15(input, shift);
    DivModUnique(a, 0x100, k * 64 + i, a - k * 0x4000 - i * 0x100);
    DivModUnique(k * 64 + i, 64, k, i);
    TwoStepsUnfoldQ15(a, table[i]);
    StepIsRaw(a, table[i]);
    StepIsRaw(a, StepQ15(a, table[i]));
  }

  /** The index of a negative input selects the entry of another positive input. */
  lemma MirroredIndex(a: Q15, table: seq<Q15>)
    requires -0x8000 < a < -0x4000 && |table| == 64
    ensures 0x4000 <= a + 0xC000 < 0x8000 && SeedQ15(a, table) == SeedQ15(a + 0xC000, table)
  {
    assert (a + 0xC000) / 0x100 == a / 0x100 + 3 * 64;
  }

  /** The lowest normalised magnitude, that of the powers of two, selects the first entry. */
  lemma FirstIndex(a: Q15, table: seq<Q15>)
    requires a == -0x4000 && |table| == 64
    ensures SeedQ15(a, table) == SeedQ15(0x4000, table) == table[0]
  {
    assert a / 0x100 % 64 == 0 && 0x4000 / 0x100 % 64 == 0;
  }

  lemma MirroredEntry(a: Q15, m: nat, table: seq<Q15>)
    requires a + m == 0 && 0x4000 < m < 0x8000 && AccurateTable(table)
    ensures BinAccurate(m, SeedQ15(a, table))
  {
    MirroredIndex(a, table);
    var b: Q15 := 0xC000 - m;
    var base: Q15, end: Q15 := b / 0x100 * 0x100, b / 0x100 * 0x100 + 0xFF;
    assert base / 0x100 == b / 0x100 && end / 0x100 == b / 0x100;
    assert SeedQ15(base, table) == SeedQ15(b, table) && SeedQ15(end, table) == SeedQ15(b, table);
    assert Accurate(base, SeedQ15(base, table)) && Accurate(end, SeedQ15(end, table));
  }

  /** The normalised magnitudes on which a table made for positive inputs serves negative ones ... */
  predicate Served(m: int) {
    0x4001 <= m <= 0x6000 || 0x6C01 <= m <= 0x6EA2 || 0x73CD <= m <= 0x7FFF
  }

  /** ... and on which it fails them. */
  predicate Failed(m: int) {
    m == 0x4000 || 0x6001 <= m <= 0x6C00 || 0x6F01 <= m <= 0x7300
  }

  lemma SeedOfTable(a: Q15, m: nat, table: seq<Q15>)
    requires a + m == 0 && 0x4000 <= m < 0x8000 && AccurateTable(table)
    ensures Served(m) ==> Undershoots(a, NewtonQ15(a, SeedQ15(a, table), 2))
    ensures Failed(m) ==> !Undershoots(a, NewtonQ15(a, SeedQ15(a, table), 2))
  {
    hide NewtonQ15;
    var y := SeedQ15(a, table);
    if m == 0x4000 {
      FirstIndex(a, table);
      var lowest: Q15 := 0x4000;
      assert Accurate(lowest, SeedQ15(lowest, table));
      LowestFails(a, m, y);
    } else {
      MirroredEntry(a, m, table);
      if m <= 0x6000 {
        LowWorks(a, m, y);
      } else if m <= 0x6C00 {
        LowFails(a, m, y);
      } else if m <= 0x6EA2 {
        MiddleWorks(a, m, y);
      } else if 0x6F01 <= m <= 0x7300 {
        MiddleFails(a, m, y);
      } else if 0x73CD <= m {
        HighWorks(a, m, y);
      }
    }
  }

  /** Negative inputs with any table accurate for the positive ones, whose entries are then
      selected in reverse: the result has the right sign and undershoots on the first ranges, and
      it is no reciprocal on the second. */
  lemma NegativeInput(input: Q15, shift: nat, table: seq<Q15>)
    requires -0x8000 < input < 0 && 1 <= shift && IsLeadingZeros(Abs(input), shift + 16) && AccurateTable(table)
    ensures var m := Abs(NormalisedQ15(input, shift));
            var error := ErrQ15(Product(input, ResultQ15(input, shift, table), shift));
            (Served(m) ==> 0.0 < error < 1.0) && (Failed(m) ==> !(0.0 < error < 1.0))
  {
    hide NewtonQ15;
    NormalRangeQ15(input, shift);
    SeedOfTable(NormalisedQ15(input, shift), Abs(NormalisedQ15(input, shift)), table);
  }

  // The ranges cannot be extended: in the gaps between them accurate tables disagree.

  /** The reciprocal of the middle of the 256 inputs from 0x4000 + 256 * i on, which share entry i. */
  function Centre(i: nat): (y: Q15)
    requires i < 64
  {
    CentreRange(i);
    0x4000_0000 / (0x80FF + 0x200 * i)
  }

  lemma CentreRange(i: nat)
    requires i < 64
    ensures var w, y := 0x80FF + 0x200 * i, 0x4000_0000 / (0x80FF + 0x200 * i);
            0 <= y <= 32515 && y * w <= 0x4000_0000 < y * w + w
  {
    var w, y := 0x80FF + 0x200 * i, 0x4000_0000 / (0x80FF + 0x200 * i);
    DivModIdentity(0x4000_0000, w);
    DivNonNegative(0x4000_0000, w);
    if y > 32515 {
      Products(32516, 0x80FF, y, w);
    }
  }

  function CentreTable(): (table: seq<Q15>)
    ensures |table| == 64
  {
    seq(64, i requires 0 <= i < 64 => Centre(i))
  }

  /** The middle is accurate for all inputs of its entry. */
  lemma CentreAccurate(b: Q15)
    requires 0x4000 <= b
    ensures 0 <= b / 0x100 - 64 < 64 && Accurate(b, Centre(b / 0x100 - 64))
  {
    var i := b / 0x100 - 64;
    var w, y := 0x80FF + 0x200 * i, Centre(i);
    CentreRange(i);
    MulDistributes(w, 2 * b - w, y);
    ProductBound(2 * b - w, y, 0xFF, 32515);
    assert y * (2 * b) == 2 * (b * y);
    NearIdeal(b * y);
  }

  lemma NearIdeal(p: int)
    requires 0x1FC0_0000 <= p <= 0x2040_0000
    ensures -1.0 / 128.0 <= ErrQ15(p) <= 1.0 / 128.0
  {
  }

  lemma CentreTableAccurate()
    ensures AccurateTable(CentreTable())
  {
    hide Accurate, Centre;
    forall b: Q15 | 0x4000 <= b
      ensures Accurate(b, SeedQ15(b, CentreTable()))
    {
      CentreAccurate(b);
      EntryNumber(b);
    }
  }

  lemma EntryNumber(b: Q15)
    requires 0x4000 <= b
    ensures b / 0x100 % 64 == b / 0x100 - 64
  {
  }

  /** Another accurate entry at one place gives another accurate table. */
  lemma ReplaceEntry(i: nat, y: Q15)
    requires i < 64 && 0x1FC0_0000 <= (0x4000 + 0x100 * i) * y && (0x40FF + 0x100 * i) * y <= 0x2040_0000 && 0 <= y
    ensures AccurateTable(CentreTable()[i := y])
  {
    hide Centre, CentreTable;
    CentreTableAccurate();
    var table := CentreTable()[i := y];
    forall b: Q15 | 0x4000 <= b
      ensures Accurate(b, SeedQ15(b, table))
    {
      EntryNumber(b);
      if b / 0x100 - 64 == i {
        EntryInputs(b, i, y);
      } else {
        assert SeedQ15(b, table) == SeedQ15(b, CentreTable());
      }
    }
  }

  lemma EntryInputs(b: Q15, i: nat, y: Q15)
    requires b / 0x100 - 64 == i && 0 <= y
    requires 0x1FC0_0000 <= (0x4000 + 0x100 * i) * y && (0x40FF + 0x100 * i) * y <= 0x2040_0000
    ensures Accurate(b, y)
  {
    MulMonotone(0x4000 + 0x100 * i, b, y);
    MulMonotone(b, 0x40FF + 0x100 * i, y);
    NearIdeal(b * y);
  }

  ghost predicate Serves(m: nat, table: seq<Q15>)
    requires 0x4000 <= m < 0x8000 && |table| == 64
  {
    Undershoots(0 - m, NewtonQ15(0 - m, SeedQ15(0 - m, table), 2))
  }

  /** In the lower gap the lowest accurate entry serves every magnitude and the highest fails it. */
  lemma LowerGap(m: nat) returns (good: seq<Q15>, bad: seq<Q15>)
    requires 0x6EA3 <= m <= 0x6F00
    ensures AccurateTable(good) && Serves(m, good) && AccurateTable(bad) && !Serves(m, bad)
  {
    hide NewtonQ15, CentreTable;
    ReplaceEntry(17, 25689);
    ReplaceEntry(17, 25776);
    good, bad := CentreTable()[17 := 25689], CentreTable()[17 := 25776];
    GapIndex(m, good);
    GapIndex(m, bad);
    LowerGapWorks(0 - m, m, 25689);
    LowerGapFails(0 - m, m, 25776);
  }

  /** In the upper gap it is the other way round. */
  lemma UpperGap(m: nat) returns (good: seq<Q15>, bad: seq<Q15>)
    requires 0x7301 <= m <= 0x73CC
    ensures AccurateTable(good) && Serves(m, good) && AccurateTable(bad) && !Serves(m, bad)
  {
    hide NewtonQ15, CentreTable;
    ReplaceEntry(12, 27449);
    ReplaceEntry(12, 27379);
    good, bad := CentreTable()[12 := 27449], CentreTable()[12 := 27379];
    GapIndex(m, good);
    GapIndex(m, bad);
    UpperGapWorks(0 - m, m, 27449);
    UpperGapFails(0 - m, m, 27379);
  }

  lemma GapIndex(m: nat, table: seq<Q15>)
    requires 0x4000 < m < 0x8000 && |table| == 64
    ensures 0x6EA3 <= m <= 0x6F00 ==> SeedQ15(0 - m, table) == table[17]
    ensures 0x7301 <= m <= 0x73CC ==> SeedQ15(0 - m, table) == table[12]
  {
    MirroredIndex(0 - m, table);
    EntryNumber(0xC000 - m);
  }

  /** A normalised magnitude is served by every accurate table exactly on the first ranges, and by
      none exactly on the second. */
  lemma ServedIff(m: nat)
    requires 0x4000 <= m < 0x8000
    ensures Served(m) <==> forall table | AccurateTable(table) :: Serves(m, table)
    ensures Failed(m) <==> forall table | AccurateTable(table) :: !Serves(m, table)
  {
    hide NewtonQ15, CentreTable, Accurate, Undershoots;
    forall table | AccurateTable(table)
      ensures (Served(m) ==> Serves(m, table)) && (Failed(m) ==> !Serves(m, table))
    {
      SeedOfTable(0 - m, m, table);
    }
    CentreTableAccurate();
    if 0x6EA3 <= m <= 0x6F00 {
      var good, bad := LowerGap(m);
    } else if 0x7301 <= m <= 0x73CC {
      var good, bad := UpperGap(m);
    }
  }

  /** At -1/2, which normalises to itself and selects the first entry, the entry closest to the
      reciprocals of its inputs gives a result of the wrong sign. */
  lemma MinusHalf(input: Q15, shift: nat, table: seq<Q15>)
    requires input == -0x4000 && shift == 1 && |table| == 64 && table[0] == Centre(0)
    ensures IsLeadingZeros(Abs(input), shift + 16) && NormalisedQ15(input, shift) == -0x4000
    ensures ResultQ15(input, shift, table) == 28730 && ErrQ15(Product(input, 28730, shift)) > 1.0
  {
    HalfZeros();
    FirstIndex(input, table);
    HalfResult(input, table[0]);
  }

  lemma HalfResult(a: Q15, y: Q15)
    requires a == -0x4000 && y == Centre(0)
    ensures NewtonQ15(a, y, 2) == 28730
  {
    DivModUnique(0x4000_0000, 0x80FF, 32514, 32002);
    Evaluate(0x4000, 32514, 49024, 97287, 48643, 94266);
    StepIsRaw(a, y);
    Wrap15Of(31751, 1);
    StepIsRaw(a, 31751);
    Wrap15Of(28730, 1);
    TwoStepsUnfoldQ15(a, y);
  }

  lemma HalfZeros()
    ensures Pow2(14) == 0x4000 && Pow2(15) == 0x8000 && IsLeadingZeros(0x4000, 17)
  {
    assert Pow2(8) == 0x100 && Pow2(6) == 0x40;
    Pow2Add(8, 6);
  }
}
