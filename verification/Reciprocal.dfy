/** Newton-Raphson reciprocal of CMSIS/arm_math.h, in Q31 and Q15.
    The table of initial approximations is a parameter: its contents are not part of this model. */
module Reciprocal {
  import opened Words
  import opened Saturation
  import opened Bits

  // ---- One Newton step, for both word widths ----

  /** The quotients taken in one step y -> y' on the normalised input `a`: `q` is the truncated
      product, and y' the truncated correction of y.  The ideal value of a*y is 2*h*h. */
  ghost predicate IsStep(h: int, a: int, y: int, q: int, y': int) {
    && h > 0 && 0 <= a <= 2 * h && 0 <= y <= 2 * h && 0 <= q <= 2 * h - 1
    && 2 * h * q <= a * y < 2 * h * (q + 1)
    && h * y' <= y * (2 * h - 1 - q) < h * (y' + 1)
  }

  /** A step never reaches the ideal product, whatever it starts from. */
  lemma StepUnder(h: int, a: int, y: int, q: int, y': int)
    requires IsStep(h, a, y, q, y')
    ensures a * y' < 2 * h * h
  {
    var t := 2 * h - 1 - q;
    ScaleDown(h, a, y, t, y');
    if t == 0 {
      Positive(h, a * y');
      Positive(h, 2 * h);
    } else {
      GapBound(h, a * y, t);
      MulAssociates(h, 2 * h, h);
      Cancel(h, a * y', 2 * h * h);
    }
  }

  lemma ScaleDown(h: int, a: int, y: int, t: int, y': int)
    requires a >= 0 && h * y' <= y * t
    ensures h * (a * y') <= a * y * t
  {
    MulMonotone(h * y', y * t, a);
    MulAssociates(a, h, y');
    MulAssociates(a, y, t);
  }

  lemma ScaleUp(h: int, a: int, y: int, t: int, y': int)
    requires a >= 0 && y * t < h * (y' + 1)
    ensures a * y * t <= h * (a * y') + a * h
  {
    MulMonotone(y * t, h * (y' + 1), a);
    MulAssociates(a, h, y' + 1);
    MulAssociates(a, y, t);
    MulDistributes(y', 1, a);
    MulDistributes(a * y', a, h);
  }

  lemma Positive(h: int, x: int)
    requires h > 0
    ensures h * x <= 0 ==> x <= 0
    ensures x > 0 ==> h * x > 0
  {
  }

  lemma Cancel(h: int, x: int, y: int)
    requires h > 0 && h * x < h * y
    ensures x < y
  {
    Positive(h, x - y);
    MulDistributes(x, -y, h);
  }

  /** (2h - t) * t is at most h^2. */
  lemma GapBound(h: int, p: int, t: int)
    requires h > 0 && t > 0 && p < 2 * h * (2 * h - t)
    ensures p * t < h * (2 * h * h)
  {
    var g := 2 * h - t;
    Positive(t, 2 * h * g - p);
    MulDistributes(2 * h * g, -p, t);
    assert p * t < 2 * h * g * t;
    MulAssociates(2 * h, g, t);
    GeometricMean(h, t);
    MulMonotone(g * t, h * h, 2 * h);
    MulAssociates(h, 2 * h, h);
  }

  lemma GeometricMean(h: int, t: int)
    ensures (2 * h - t) * t <= h * h
  {
    assert (h - t) * (h - t) >= 0;
  }

  /** Quadratic convergence: with d the distance of a*y from the ideal product i = 2h^2, the
      new distance d' satisfies i*d' <= d^2 + 12h^3, where the last term covers both floors. */
  lemma StepConverges(h: int, a: int, y: int, q: int, y': int)
    requires IsStep(h, a, y, q, y')
    ensures var i := 2 * h * h;
            i * (i - a * y') <= (i - a * y) * (i - a * y) + 12 * (h * h * h)
  {
    var t, p, i := 2 * h - 1 - q, a * y, 2 * h * h;
    ProductBound(a, y, 2 * h, 2 * h);
    MulMonotone(0, a, y);
    ScaleUp(h, a, y, t, y');
    ScaledFloor(h, a, a * y', p * t);
    CorrectionBound(h, p, q);
    FloorTerms(h, a, p);
    Combine(i, p, a * y', a, h * p, h * h * h, 2 * h * (p * t));
  }

  lemma ScaledFloor(h: int, a: int, x: int, pt: int)
    requires h > 0 && pt <= h * x + a * h
    ensures 2 * h * pt <= 2 * h * h * x + 2 * h * h * a
  {
    MulMonotone(pt, h * x + a * h, 2 * h);
  }

  lemma CorrectionBound(h: int, p: int, q: int)
    requires p >= 0 && 2 * h * q <= p
    ensures 2 * (2 * h * h * p) - 2 * (h * p) - p * p <= 2 * h * (p * (2 * h - 1 - q))
  {
    var t := 2 * h - 1 - q;
    assert 2 * h * t == 4 * h * h - 2 * h - 2 * h * q;
    MulMonotone(4 * h * h - 2 * h - p, 2 * h * t, p);
    MulAssociates(2 * h, p, t);
  }

  lemma FloorTerms(h: int, a: int, p: int)
    requires h > 0 && a <= 2 * h && p <= 2 * h * (2 * h)
    ensures h * p <= 4 * (h * h * h) && 2 * h * h * a <= 4 * (h * h * h)
  {
    MulMonotone(p, 2 * h * (2 * h), h);
    MulMonotone(0, h, h);
    MulMonotone(a, 2 * h, 2 * h * h);
  }

  lemma Combine(i: int, p: int, x: int, a: int, hp: int, k: int, z: int)
    requires 2 * (i * p) - 2 * hp - p * p <= z <= i * x + i * a
    requires hp <= 4 * k && i * a <= 4 * k
    ensures i * (i - x) <= (i - p) * (i - p) + 12 * k
  {
    MulDistributes(i, -x, i);
    assert (i - p) * (i - p) == i * i - 2 * (i * p) + p * p;
  }

  /** Bound on the error after one step from error `e`. */
  function Contract(e: real, delta: real): real {
    e * e + delta
  }

  /** From the integer form of quadratic convergence to relative errors. */
  lemma RealForm(i: int, d: int, d': int, k: int, ri: real, delta: real)
    requires ri == i as real && i > 0
    requires i * d' <= d * d + k
    requires k as real == delta * (ri * ri)
    ensures d' as real / ri <= Contract(d as real / ri, delta)
  {
    var e, e' := d as real / ri, d' as real / ri;
    assert (i * d') as real == ri * (ri * e');
    assert (d * d) as real == (ri * e) * (ri * e);
    var s := ri * ri;
    assert s * e' <= s * (e * e + delta);
  }

  lemma ContractMonotone(e: real, m: real, delta: real)
    requires -m <= e <= m
    ensures Contract(e, delta) <= Contract(m, delta)
  {
    DifferenceOfSquares(m, e);
    RealProduct(m - e, m + e);
  }

  lemma DifferenceOfSquares(x: real, y: real)
    ensures (x - y) * (x + y) == x * x - y * y
  {
  }

  lemma RealProduct(x: real, y: real)
    requires 0.0 <= x && 0.0 <= y
    ensures 0.0 <= x * y
  {
  }

  /** Squaring twice: a seed within `eps` ends within eps^4 up to truncation. */
  lemma TwoSteps(e0: real, e1: real, e2: real, eps: real, delta: real)
    requires -eps <= e0 <= eps
    requires 0.0 < e1 <= Contract(e0, delta) && e2 <= Contract(e1, delta)
    ensures e2 <= Contract(Contract(eps, delta), delta)
  {
    ContractMonotone(e0, eps, delta);
    ContractMonotone(e1, Contract(eps, delta), delta);
  }

  // ---- Q31 ----

  /** One pass of the loop: truncated product, correction factor in unsigned arithmetic, and
      the clipped corrected approximation. */
  function StepQ31(a: Q31, y: Q31): Q31
  {
    var tempVal: int := ToU32(a * y / 0x8000_0000);
    var factor: int := ToU32(0x7FFF_FFFF - tempVal);
    ProductBound(y, factor, 0x8000_0000, 0x1_0000_0000);
    ClipQ63ToQ31(y * factor / 0x4000_0000)
  }

  function NewtonQ31(a: Q31, seed: Q31, steps: nat): Q31
  {
    if steps == 0 then seed else StepQ31(a, NewtonQ31(a, seed, steps - 1))
  }

  function SeedQ31(a: Q31, table: seq<Q31>): Q31
    requires |table| == 64
  {
    table[a / 0x100_0000 % 64]
  }

  function Abs(x: int): nat { if x > 0 then x else -x }

  /** The input moved up by one bit less than its number of leading zeros. */
  function NormalisedQ31(input: Q31, shift: nat): (a: Q31)
    requires input != -0x8000_0000 && shift >= 1 && IsLeadingZeros(Abs(input), shift)
    ensures a == input * Pow2(shift - 1)
    ensures input > 0 ==> 0x4000_0000 <= a
    ensures input < 0 ==> a <= -0x4000_0000
  {
    NormalRange(input, shift);
    Wrap31(input * Pow2(shift - 1))
  }

  lemma NormalRange(input: Q31, shift: nat)
    requires input != -0x8000_0000 && shift >= 1 && IsLeadingZeros(Abs(input), shift)
    ensures input == 0 ==> input * Pow2(shift - 1) == 0
    ensures input > 0 ==> 0x4000_0000 <= input * Pow2(shift - 1) < 0x8000_0000
    ensures input < 0 ==> -0x8000_0000 < input * Pow2(shift - 1) <= -0x4000_0000
  {
    if input != 0 {
      Normalises(Abs(input), shift);
      NegateProduct(input, Pow2(shift - 1));
    }
  }

  lemma NegateProduct(x: int, y: int)
    ensures -x * y == -(x * y)
  {
  }

  /** The loop body. */
  method RefineQ31(a: Q31, out: Q31) returns (next: Q31)
    ensures next == StepQ31(a, out)
  {
    var product: int := a * out;
    var tempVal: int := ToU32(product / 0x8000_0000);
    tempVal := ToU32(0x7FFF_FFFF - tempVal);
    ProductBound(out, tempVal, 0x8000_0000, 0x1_0000_0000);
    next := ClipQ63ToQ31(out * tempVal / 0x4000_0000);
  }

  method RecipQ31(input: Q31, table: seq<Q31>) returns (dst: Q31, shift: U32)
    requires input != -0x8000_0000 && |table| == 64
    ensures 1 <= shift && IsLeadingZeros(Abs(input), shift)
    ensures dst == ResultQ31(input, shift, table)
    ensures var a := input * Pow2(shift - 1);
            dst == CorrectedQ31(a, CorrectedQ31(a, table[a / 0x100_0000 % 64]))
  {
    hide CorrectedQ31;
    var clz;
    if input > 0 {
      clz := Clz(input);
    } else {
      clz := Clz(-input);
    }
    AtLeastOne(Abs(input), clz);
    var signBits: U32 := clz - 1;
    var shifted: int := input * Pow2(signBits);
    var a := Wrap31(shifted);
    assert a == NormalisedQ31(input, clz);
    var index := a / 0x100_0000 % 64;
    var out := table[index];
    for i := 0 to 2
      invariant out == NewtonQ31(a, table[index], i)
    {
      out := RefineQ31(a, out);
    }
    ResultCorrected(input, clz, table);
    return out, signBits + 1;
  }

  lemma AtLeastOne(data: nat, c: nat)
    requires data < 0x8000_0000 && IsLeadingZeros(data, c)
    ensures 1 <= c
  {
    Pow2Of32();
  }

  /** What the method stores through `dst`. */
  function ResultQ31(input: Q31, shift: nat, table: seq<Q31>): Q31
    requires input != -0x8000_0000 && shift >= 1 && IsLeadingZeros(Abs(input), shift) && |table| == 64
  {
    var a := NormalisedQ31(input, shift);
    NewtonQ31(a, SeedQ31(a, table), 2)
  }

  /** The true value of the result is dst * 2^(shift-1); this is its product with the input. */
  function Product(input: int, dst: int, shift: nat): int
    requires shift >= 1
  {
    input * Pow2(shift - 1) * dst
  }

  /** What truncation adds to the relative error in one Q31 step. */
  const DELTA_Q31 := 3.0 / 1073741824.0

  /** Relative error of the product a*y against its ideal value 2^61. */
  function ErrQ31(product: int): real
  {
    (0x2000_0000_0000_0000 - product) as real / 2305843009213693952.0
  }

  /** For a normalised positive input and a non-negative approximation the machine step is the
      exact integer step: nothing wraps and the clip never fires. */
  lemma StepQ31IsExact(a: Q31, y: Q31) returns (q: int)
    requires 0x4000_0000 <= a && 0 <= y
    ensures IsStep(0x4000_0000, a, y, q, StepQ31(a, y)) && 0 <= StepQ31(a, y)
    ensures StepQ31(a, y) == y * (0x7FFF_FFFF - q) / 0x4000_0000
  {
    q := a * y / 0x8000_0000;
    assert 0 <= q <= 0x7FFF_FFFF by {
      ProductBound(a, y, 0x7FFF_FFFF, 0x7FFF_FFFF);
      MulMonotone(0, a, y);
    }
    var t: int := 0x7FFF_FFFF - q;
    assert ToU32(0x7FFF_FFFF - ToU32(q)) == t;
    MulMonotone(0, t, y);
    var raw: int := y * t / 0x4000_0000;
    StepUnder(0x4000_0000, a, y, q, raw);
    assert raw < 0x8000_0000 by {
      MulMonotone(0x4000_0000, a, raw);
    }
  }

  /** Each step leaves a strictly positive error that is at most the square of the old one
      plus 3 * 2^-30, so the approximation is always strictly below the true reciprocal. */
  lemma StepQ31Converges(a: Q31, y: Q31)
    requires 0x4000_0000 <= a && 0 <= y
    ensures 0 <= StepQ31(a, y)
    ensures 0.0 < ErrQ31(a * StepQ31(a, y)) <= Contract(ErrQ31(a * y), DELTA_Q31)
  {
    var q := StepQ31IsExact(a, y);
    StepUnder(0x4000_0000, a, y, q, StepQ31(a, y));
    StepConverges(0x4000_0000, a, y, q, StepQ31(a, y));
    ErrorForm(a * y, a * StepQ31(a, y));
    ErrorBelowOne(a * StepQ31(a, y));
  }

  lemma ErrorForm(p: int, p': int)
    requires 0x2000_0000_0000_0000 * (0x2000_0000_0000_0000 - p')
          <= (0x2000_0000_0000_0000 - p) * (0x2000_0000_0000_0000 - p) + 12 * (0x4000_0000 * 0x4000_0000 * 0x4000_0000)
    ensures ErrQ31(p') <= Contract(ErrQ31(p), DELTA_Q31)
  {
    RealForm(0x2000_0000_0000_0000, 0x2000_0000_0000_0000 - p, 0x2000_0000_0000_0000 - p',
      12 * (0x4000_0000 * 0x4000_0000 * 0x4000_0000), 2305843009213693952.0, DELTA_Q31);
  }

  /** The error is positive below the ideal product and below one for a positive product. */
  lemma ErrorBelowOne(p: int)
    ensures 0.0 < ErrQ31(p) <==> p < 0x2000_0000_0000_0000
    ensures ErrQ31(p) < 1.0 <==> 0 < p
  {
  }

  lemma NewtonAccuracy(a: Q31, y: Q31, eps: real)
    requires 0x4000_0000 <= a && 0 <= y && -eps <= ErrQ31(a * y) <= eps
    ensures 0.0 < ErrQ31(a * NewtonQ31(a, y, 2)) <= Contract(Contract(eps, DELTA_Q31), DELTA_Q31)
  {
    var y1 := StepQ31(a, y);
    TwoStepsUnfold(a, y);
    StepQ31Converges(a, y);
    StepQ31Converges(a, y1);
    var e0, e1, e2 := ErrQ31(a * y), ErrQ31(a * y1), ErrQ31(a * StepQ31(a, y1));
    TwoSteps(e0, e1, e2, eps, DELTA_Q31);
  }

  lemma TwoStepsUnfold(a: Q31, y: Q31)
    ensures NewtonQ31(a, y, 2) == StepQ31(a, StepQ31(a, y))
  {
    assert NewtonQ31(a, y, 1) == StepQ31(a, NewtonQ31(a, y, 0));
  }

  /** For every positive input and a table whose selected entry approximates the reciprocal of
      the normalised input within `eps`: input * dst * 2^(shift-1) falls short of 2^61 by a
      relative amount that is positive and of order eps^4. */
  lemma RecipQ31Accuracy(input: Q31, shift: nat, table: seq<Q31>, eps: real)
    requires 0 < input && 1 <= shift && IsLeadingZeros(input, shift) && |table| == 64
    requires var a := NormalisedQ31(input, shift);
             0 <= SeedQ31(a, table) && -eps <= ErrQ31(a * SeedQ31(a, table)) <= eps
    ensures 0.0 < ErrQ31(Product(input, ResultQ31(input, shift, table), shift))
                <= Contract(Contract(eps, DELTA_Q31), DELTA_Q31)
  {
    var a := NormalisedQ31(input, shift);
    NewtonAccuracy(a, SeedQ31(a, table), eps);
  }

  /** From a positive approximation a step stays positive for either sign of the input. */
  lemma StepQ31Positive(a: Q31, y: Q31)
    requires (a <= 0 || 0x4000_0000 <= a) && 0 < y
    ensures 0 < StepQ31(a, y)
  {
    if a > 0 {
      var q := StepQ31IsExact(a, y);
      PositiveCorrection(a, y, q);
    } else {
      NegativeCorrection(a, y);
    }
  }

  lemma PositiveCorrection(a: Q31, y: Q31, q: int)
    requires 0 < a && 0 < y && q == a * y / 0x8000_0000
    ensures y * (0x7FFF_FFFF - q) >= 0x4000_0000
  {
    var t: int := 0x7FFF_FFFF - q;
    MulMonotone(a, 0x7FFF_FFFF, y);
    if y >= 0x4000_0000 {
      assert t >= 1;
      MulMonotone(1, t, y);
    } else {
      assert q <= y - 1;
      MulMonotone(0x4000_0000, t, y);
    }
  }

  lemma NegativeCorrection(a: Q31, y: Q31)
    requires a <= 0 && 0 < y
    ensures 0 < StepQ31(a, y)
  {
    NegativeProduct(a, y);
    ProductBound(a, y, 0x8000_0000, 0x7FFF_FFFF);
    var q: int := a * y / 0x8000_0000;
    var t: int := 0x7FFF_FFFF - q;
    assert ToU32(0x7FFF_FFFF - ToU32(q)) == t;
    MulMonotone(0x4000_0000, t, y);
    ProductBound(y, t, 0x8000_0000, 0x1_0000_0000);
  }

  lemma NegativeProduct(a: int, y: int)
    requires a <= 0 && 0 < y
    ensures a * y <= 0
  {
  }

  /** After two steps from a positive approximation the sign of the product is that of the
      normalised input. */
  lemma NewtonSign(a: Q31, y: Q31)
    requires (a <= 0 || 0x4000_0000 <= a) && 0 < y
    ensures 0.0 < ErrQ31(a * NewtonQ31(a, y, 2)) < 1.0 <==> 0 < a
  {
    var y1 := StepQ31(a, y);
    var y2 := StepQ31(a, y1);
    TwoStepsUnfold(a, y);
    StepQ31Positive(a, y);
    StepQ31Positive(a, y1);
    ErrorBelowOne(a * y2);
    if a > 0 {
      StepQ31Converges(a, y1);
      Positive(y2, a);
    } else {
      NegativeProduct(a, y2);
    }
  }

  /** The branch for inputs that are not positive computes no reciprocal: with positive table
      entries, input * dst has a relative error below one exactly for positive inputs. */
  lemma RecipQ31IffPositive(input: Q31, shift: nat, table: seq<Q31>)
    requires input != -0x8000_0000 && 1 <= shift && IsLeadingZeros(Abs(input), shift) && |table| == 64
    requires 0 < SeedQ31(NormalisedQ31(input, shift), table)
    ensures 0.0 < ErrQ31(Product(input, ResultQ31(input, shift, table), shift)) < 1.0 <==> 0 < input
  {
    var a := NormalisedQ31(input, shift);
    NewtonSign(a, SeedQ31(a, table));
    NormalRange(input, shift);
  }

  /** The corrected approximation in unbounded arithmetic, clamped to 32 bits. */
  function CorrectedQ31(a: int, y: int): int {
    Clamp(y * (0x7FFF_FFFF - a * y / 0x8000_0000) / 0x4000_0000, -0x8000_0000, 0x7FFF_FFFF)
  }

  /** For operands of either sign the unsigned correction factor is the exact one; only -1 times
      -1 would wrap. */
  lemma StepQ31IsCorrected(a: Q31, y: Q31)
    requires a != -0x8000_0000
    ensures StepQ31(a, y) == CorrectedQ31(a, y)
  {
    ProductBound(a, y, 0x7FFF_FFFF, 0x8000_0000);
    FactorExact(a * y);
    ProductBound(y, 0x7FFF_FFFF - a * y / 0x8000_0000, 0x8000_0000, 0x1_0000_0000);
  }

  lemma FactorExact(p: int)
    requires -(0x7FFF_FFFF * 0x8000_0000) <= p <= 0x7FFF_FFFF * 0x8000_0000
    ensures 0 <= 0x7FFF_FFFF - p / 0x8000_0000 < 0x1_0000_0000
    ensures ToU32(0x7FFF_FFFF - ToU32(p / 0x8000_0000)) == 0x7FFF_FFFF - p / 0x8000_0000
  {
  }

  /** The table is divided into blocks of 2^24 normalised inputs, counted from any multiple of
      2^30, and the entry of the block is corrected twice. */
  lemma RecipQ31Value(input: Q31, shift: nat, table: seq<Q31>, i: nat, k: int)
    requires input != -0x8000_0000 && 1 <= shift && IsLeadingZeros(Abs(input), shift) && |table| == 64 && i < 64
    requires i * 0x100_0000 <= input * Pow2(shift - 1) - k * 0x4000_0000 < (i + 1) * 0x100_0000
    ensures var a := input * Pow2(shift - 1);
            ResultQ31(input, shift, table) == CorrectedQ31(a, CorrectedQ31(a, table[i]))
  {
    hide Pow2, CorrectedQ31;
    BlockIndex(input * Pow2(shift - 1), i, k);
    ResultCorrected(input, shift, table);
  }

  lemma ResultCorrected(input: Q31, shift: nat, table: seq<Q31>)
    requires input != -0x8000_0000 && 1 <= shift && IsLeadingZeros(Abs(input), shift) && |table| == 64
    ensures var a := input * Pow2(shift - 1);
            ResultQ31(input, shift, table) == CorrectedQ31(a, CorrectedQ31(a, table[a / 0x100_0000 % 64]))
  {
    hide Pow2, CorrectedQ31, NewtonQ31;
    NormalRange(input, shift);
    var a := NormalisedQ31(input, shift);
    TwoCorrections(a, SeedQ31(a, table));
  }

  lemma TwoCorrections(a: Q31, y: Q31)
    requires a != -0x8000_0000
    ensures NewtonQ31(a, y, 2) == CorrectedQ31(a, CorrectedQ31(a, y))
  {
    hide CorrectedQ31, StepQ31;
    TwoStepsUnfold(a, y);
    StepQ31IsCorrected(a, y);
    StepQ31IsCorrected(a, StepQ31(a, y));
  }

  lemma BlockIndex(a: int, i: nat, k: int)
    requires i < 64 && i * 0x100_0000 <= a - k * 0x4000_0000 < (i + 1) * 0x100_0000
    ensures a / 0x100_0000 % 64 == i
  {
    DivModUnique(a, 0x100_0000, k * 64 + i, a - k * 0x4000_0000 - i * 0x100_0000);
    DivModUnique(k * 64 + i, 64, k, i);
  }

  /** Every entry is within `eps` of the reciprocals of the 2^24 normalised inputs of its block. */
  ghost predicate AccurateBlocks(table: seq<Q31>, eps: real) {
    && |table| == 64
    && forall i: nat, b: int | i < 64 && InBlock(b, i) :: 0 <= table[i] && -eps <= ErrQ31(b * table[i]) <= eps
  }

  predicate InBlock(b: int, i: nat) {
    0x4000_0000 + i * 0x100_0000 <= b < 0x4000_0000 + (i + 1) * 0x100_0000
  }

  /** With such a table every positive input has a result that falls short of its reciprocal by a
      relative error of order eps^4. */
  lemma RecipQ31Table(input: Q31, shift: nat, table: seq<Q31>, eps: real)
    requires 0 < input && 1 <= shift && IsLeadingZeros(input, shift) && AccurateBlocks(table, eps)
    ensures 0.0 < ErrQ31(Product(input, ResultQ31(input, shift, table), shift))
                <= Contract(Contract(eps, DELTA_Q31), DELTA_Q31)
  {
    hide ErrQ31, Contract, ResultQ31, Product;
    NormalRange(input, shift);
    var a := NormalisedQ31(input, shift);
    var i := a / 0x100_0000 - 64;
    DivModIdentity(a, 0x100_0000);
    BlockIndex(a, i, 1);
    assert InBlock(a, i);
    RecipQ31Accuracy(input, shift, table, eps);
  }

  /** The reciprocal of the middle of block `i`, for which the ideal product is 2^61. */
  function CentreQ31(i: nat): (y: Q31)
    requires i < 64
    ensures 0 <= y
  {
    CentreQ31Range(0x80FF_FFFF + 0x200_0000 * i);
    0x4000_0000_0000_0000 / (0x80FF_FFFF + 0x200_0000 * i)
  }

  lemma CentreQ31Range(w: int)
    requires 0x80FF_FFFF <= w
    ensures var y := 0x4000_0000_0000_0000 / w;
            0 <= y < 0x7F80_0000 && y * w <= 0x4000_0000_0000_0000 < y * w + w
  {
    DivModIdentity(0x4000_0000_0000_0000, w);
    DivNonNegative(0x4000_0000_0000_0000, w);
    MulMonotone(0x80FF_FFFF, w, 0x7F80_0000);
    DivBelow(0x4000_0000_0000_0000, w, 0x7F80_0000);
  }

  lemma CentreQ31Accurate(i: nat, b: int)
    requires i < 64 && InBlock(b, i)
    ensures -1.0 / 128.0 <= ErrQ31(b * CentreQ31(i)) <= 1.0 / 128.0
  {
    var w: int := 0x80FF_FFFF + 0x200_0000 * i;
    CentreQ31Range(w);
    CentreProduct(b, w, CentreQ31(i));
    NearIdealQ31(b * CentreQ31(i));
  }

  lemma CentreProduct(b: int, w: int, y: int)
    requires 0 <= y < 0x7F80_0000 && y * w <= 0x4000_0000_0000_0000 < y * w + w
    requires w <= 0x1_0000_0000 && -0xFF_FFFF <= 2 * b - w <= 0xFF_FFFF
    ensures 0x1FC0_0000_0000_0000 <= b * y <= 0x2040_0000_0000_0000
  {
    ProductBound(2 * b - w, y, 0xFF_FFFF, 0x7F80_0000);
    MulDistributes(w, 2 * b - w, y);
    MulAssociates(2, b, y);
  }

  lemma NearIdealQ31(p: int)
    requires 0x1FC0_0000_0000_0000 <= p <= 0x2040_0000_0000_0000
    ensures -1.0 / 128.0 <= ErrQ31(p) <= 1.0 / 128.0
  {
  }

  /** Tables within a 128th exist. */
  lemma CentreQ31Table() returns (table: seq<Q31>)
    ensures AccurateBlocks(table, 1.0 / 128.0)
  {
    hide CentreQ31, ErrQ31;
    table := seq(64, i requires 0 <= i < 64 => CentreQ31(i));
    forall i: nat, b: int | i < 64 && InBlock(b, i)
      ensures 0 <= table[i] && -1.0 / 128.0 <= ErrQ31(b * table[i]) <= 1.0 / 128.0
    {
      CentreQ31Accurate(i, b);
    }
  }

  // ---- Q15 ----

  const DELTA_Q15 := 3.0 / 16384.0

  /** Relative error of the product a*y against its ideal value 2^29. */
  function ErrQ15(product: int): real
  {
    (0x2000_0000 - product) as real / 536870912.0
  }

  /** One pass of the loop.  The corrected product is formed in unsigned arithmetic and cast
      down without the clip. */
  function StepQ15(a: Q15, y: Q15): Q15
  {
    var tempVal: int := ToU32(a * y / 0x8000);
    var factor: int := ToU32(0x7FFF - tempVal);
    Wrap15(ToU32(y * factor) / 0x4000)
  }

  function NewtonQ15(a: Q15, seed: Q15, steps: nat): Q15
  {
    if steps == 0 then seed else StepQ15(a, NewtonQ15(a, seed, steps - 1))
  }

  function SeedQ15(a: Q15, table: seq<Q15>): Q15
    requires |table| == 64
  {
    table[a / 0x100 % 64]
  }

  function NormalisedQ15(input: Q15, shift: nat): (a: Q15)
    requires input != -0x8000 && shift >= 1 && IsLeadingZeros(Abs(input), shift + 16)
    ensures a == input * Pow2(shift - 1)
    ensures input > 0 ==> 0x4000 <= a
  {
    NormalRangeQ15(input, shift);
    Wrap15(input * Pow2(shift - 1))
  }

  lemma NormalRangeQ15(input: Q15, shift: nat)
    requires input != -0x8000 && shift >= 1 && IsLeadingZeros(Abs(input), shift + 16)
    ensures input == 0 ==> input * Pow2(shift - 1) == 0
    ensures input > 0 ==> 0x4000 <= input * Pow2(shift - 1) < 0x8000
    ensures input < 0 ==> -0x8000 < input * Pow2(shift - 1) <= -0x4000
  {
    if input != 0 {
      NormalRange(input, shift + 16);
      Pow2Add(shift - 1, 16);
      assert Pow2(16) == 0x1_0000 by {
        assert Pow2(8) == 0x100;
        Pow2Add(8, 8);
      }
      MulAssociates(input, Pow2(shift - 1), 0x1_0000);
    }
  }

  function ResultQ15(input: Q15, shift: nat, table: seq<Q15>): Q15
    requires input != -0x8000 && shift >= 1 && IsLeadingZeros(Abs(input), shift + 16) && |table| == 64
  {
    var a := NormalisedQ15(input, shift);
    NewtonQ15(a, SeedQ15(a, table), 2)
  }

  /** The loop body. */
  method RefineQ15(a: Q15, out: Q15) returns (next: Q15)
    ensures next == StepQ15(a, out)
  {
    var product: int := a * out;
    var tempVal: int := ToU32(product / 0x8000);
    tempVal := ToU32(0x7FFF - tempVal);
    var corrected: int := out * tempVal;
    next := Wrap15(ToU32(corrected) / 0x4000);
  }

  method RecipQ15(input: Q15, table: seq<Q15>) returns (dst: Q15, shift: U32)
    requires input != -0x8000 && |table| == 64
    ensures 1 <= shift && IsLeadingZeros(Abs(input), shift + 16)
    ensures dst == ResultQ15(input, shift, table)
  {
    var clz;
    if input > 0 {
      clz := Clz(input);
    } else {
      clz := Clz(-input);
    }
    AtLeastSeventeen(Abs(input), clz);
    var signBits: U32 := clz - 17;
    var shifted: int := input * Pow2(signBits);
    var a := Wrap15(shifted);
    assert a == NormalisedQ15(input, clz - 16);
    var index := a / 0x100 % 64;
    var out := table[index];
    for i := 0 to 2
      invariant out == NewtonQ15(a, table[index], i)
    {
      out := RefineQ15(a, out);
    }
    return out, signBits + 1;
  }

  lemma AtLeastSeventeen(data: nat, c: nat)
    requires data < 0x8000 && IsLeadingZeros(data, c)
    ensures 17 <= c
  {
    assert Pow2(8) == 0x100;
    Pow2Add(8, 7);
    if data != 0 && c < 17 {
      Pow2Monotone(15, 31 - c);
    }
  }

  /** For a normalised positive input and a non-negative approximation nothing wraps, and the
      cast to 16 bits loses nothing although the source leaves its clip commented out. */
  lemma StepQ15IsExact(a: Q15, y: Q15) returns (q: int)
    requires 0x4000 <= a && 0 <= y
    ensures IsStep(0x4000, a, y, q, StepQ15(a, y)) && 0 <= StepQ15(a, y)
    ensures StepQ15(a, y) == y * (0x7FFF - q) / 0x4000
  {
    q := a * y / 0x8000;
    assert 0 <= q <= 0x7FFF by {
      ProductBound(a, y, 0x7FFF, 0x7FFF);
      MulMonotone(0, a, y);
    }
    var t: int := 0x7FFF - q;
    assert ToU32(0x7FFF - ToU32(q)) == t;
    var product: int := y * t;
    assert 0 <= product < 0x4000_0000 by {
      MulMonotone(0, t, y);
      ProductBound(y, t, 0x7FFF, 0x7FFF);
    }
    StepUnder(0x4000, a, y, q, product / 0x4000);
    assert product / 0x4000 < 0x8000 by {
      MulMonotone(0x4000, a, product / 0x4000);
    }
    CastIsExact(product);
  }

  lemma CastIsExact(product: int)
    requires 0 <= product < 0x2000_0000
    ensures Wrap15(ToU32(product) / 0x4000) == product / 0x4000
  {
  }

  lemma StepQ15Converges(a: Q15, y: Q15)
    requires 0x4000 <= a && 0 <= y
    ensures 0 <= StepQ15(a, y)
    ensures 0.0 < ErrQ15(a * StepQ15(a, y)) <= Contract(ErrQ15(a * y), DELTA_Q15)
  {
    var q := StepQ15IsExact(a, y);
    StepUnder(0x4000, a, y, q, StepQ15(a, y));
    StepConverges(0x4000, a, y, q, StepQ15(a, y));
    ErrorFormQ15(a * y, a * StepQ15(a, y));
  }

  lemma ErrorFormQ15(p: int, p': int)
    requires p' < 0x2000_0000
    requires 0x2000_0000 * (0x2000_0000 - p')
          <= (0x2000_0000 - p) * (0x2000_0000 - p) + 12 * (0x4000 * 0x4000 * 0x4000)
    ensures 0.0 < ErrQ15(p') <= Contract(ErrQ15(p), DELTA_Q15)
  {
    RealForm(0x2000_0000, 0x2000_0000 - p, 0x2000_0000 - p', 12 * (0x4000 * 0x4000 * 0x4000),
      536870912.0, DELTA_Q15);
  }

  lemma RecipQ15Accuracy(input: Q15, shift: nat, table: seq<Q15>, eps: real)
    requires 0 < input && 1 <= shift && IsLeadingZeros(input, shift + 16) && |table| == 64
    requires var a := NormalisedQ15(input, shift);
             0 <= SeedQ15(a, table) && -eps <= ErrQ15(a * SeedQ15(a, table)) <= eps
    ensures 0.0 < ErrQ15(Product(input, ResultQ15(input, shift, table), shift))
                <= Contract(Contract(eps, DELTA_Q15), DELTA_Q15)
  {
    var a := NormalisedQ15(input, shift);
    var y := SeedQ15(a, table);
    var y1 := StepQ15(a, y);
    assert NewtonQ15(a, y, 1) == StepQ15(a, NewtonQ15(a, y, 0));
    StepQ15Converges(a, y);
    StepQ15Converges(a, y1);
    var e0, e1, e2 := ErrQ15(a * y), ErrQ15(a * y1), ErrQ15(a * StepQ15(a, y1));
    TwoSteps(e0, e1, e2, eps, DELTA_Q15);
  }
}
