/** The Q31 Clarke and Park transforms of CMSIS/arm_math.h and their inverses.
    Angles are given by `sinVal` and `cosVal`, where 2^31 stands for one. */
module Rotation {
  import opened Words
  import opened Saturation

  /** A 1.31 product: the 2.62 product without its lower 31 bits, narrowed to 32 bits. */
  function Product(x: Q31, y: Q31): Q31
  {
    ProductBound(x, y, 0x8000_0000, 0x8000_0000);
    Wrap31(x * y / 0x8000_0000)
  }

  // ---- Park ----

  function Park(alpha: Q31, beta: Q31, sinVal: Q31, cosVal: Q31): (Q31, Q31)
  {
    (QAdd(Product(alpha, cosVal), Product(beta, sinVal)),
     QSub(Product(beta, cosVal), Product(alpha, sinVal)))
  }

  function InvPark(id: Q31, iq: Q31, sinVal: Q31, cosVal: Q31): (Q31, Q31)
  {
    (QSub(Product(id, cosVal), Product(iq, sinVal)),
     QAdd(Product(iq, cosVal), Product(id, sinVal)))
  }

  /** Only -1 times -1 does not fit the narrowed product. */
  lemma ProductExact(x: Q31, y: Q31)
    requires x != -0x8000_0000 || y != -0x8000_0000
    ensures Product(x, y) == x * y / 0x8000_0000
  {
    if x != -0x8000_0000 {
      ProductBound(x, y, 0x7FFF_FFFF, 0x8000_0000);
    } else {
      ProductBound(x, y, 0x8000_0000, 0x7FFF_FFFF);
    }
  }

  /** A product truncated to 31 bits, which -1 times -1 turns into -1. */
  function Truncated(x: Q31, y: Q31): int {
    if x == y == -0x8000_0000 then -0x8000_0000 else x * y / 0x8000_0000
  }

  lemma ProductIsTruncated(x: Q31, y: Q31)
    ensures Product(x, y) == Truncated(x, y)
  {
    if x == y == -0x8000_0000 {
      OnlyWrap(x * y);
    } else {
      ProductExact(x, y);
    }
  }

  lemma OnlyWrap(p: int)
    requires p == 0x8000_0000 * 0x8000_0000
    ensures Wrap31(p / 0x8000_0000) == -0x8000_0000
  {
  }

  /** For all operands, angle or not, both transforms are the clamped sums of their truncated
      products. */
  lemma ParkExact(alpha: Q31, beta: Q31, s: Q31, c: Q31)
    ensures Park(alpha, beta, s, c)
         == (Clamp(Truncated(alpha, c) + Truncated(beta, s), -0x8000_0000, 0x7FFF_FFFF),
             Clamp(Truncated(beta, c) - Truncated(alpha, s), -0x8000_0000, 0x7FFF_FFFF))
    ensures NoWrap(alpha, beta, s, c) ==>
      Park(alpha, beta, s, c)
      == (Clamp(alpha * c / 0x8000_0000 + beta * s / 0x8000_0000, -0x8000_0000, 0x7FFF_FFFF),
          Clamp(beta * c / 0x8000_0000 - alpha * s / 0x8000_0000, -0x8000_0000, 0x7FFF_FFFF))
  {
    hide Product;
    ProductIsTruncated(alpha, c);
    ProductIsTruncated(beta, s);
    ProductIsTruncated(beta, c);
    ProductIsTruncated(alpha, s);
  }

  lemma InvParkExact(id: Q31, iq: Q31, s: Q31, c: Q31)
    ensures InvPark(id, iq, s, c)
         == (Clamp(Truncated(id, c) - Truncated(iq, s), -0x8000_0000, 0x7FFF_FFFF),
             Clamp(Truncated(iq, c) + Truncated(id, s), -0x8000_0000, 0x7FFF_FFFF))
    ensures NoWrap(id, iq, s, c) ==>
      InvPark(id, iq, s, c)
      == (Clamp(id * c / 0x8000_0000 - iq * s / 0x8000_0000, -0x8000_0000, 0x7FFF_FFFF),
          Clamp(iq * c / 0x8000_0000 + id * s / 0x8000_0000, -0x8000_0000, 0x7FFF_FFFF))
  {
    hide Product;
    ProductIsTruncated(id, c);
    ProductIsTruncated(iq, s);
    ProductIsTruncated(iq, c);
    ProductIsTruncated(id, s);
  }

  /** No factor -1 meets an axis at -1. */
  predicate NoWrap(alpha: Q31, beta: Q31, s: Q31, c: Q31) {
    && !(alpha == c == -0x8000_0000) && !(beta == s == -0x8000_0000)
    && !(beta == c == -0x8000_0000) && !(alpha == s == -0x8000_0000)
  }

  /** Sum of squares of the dot and cross product of two vectors. */
  lemma Lagrange(a: int, b: int, s: int, c: int)
    ensures (a * c + b * s) * (a * c + b * s) + (b * c - a * s) * (b * c - a * s)
         == (a * a + b * b) * (c * c + s * s)
  {
    Expand(a * c, b * s, b * c, a * s);
    Regroup(a, c, a, c);
    Regroup(b, s, b, s);
    Regroup(b, c, b, c);
    Regroup(a, s, a, s);
    Regroup(a, c, b, s);
    Regroup(a, s, b, c);
    MulDistributes(a * a, b * b, c * c + s * s);
    MulDistributes(c * c, s * s, a * a);
    MulDistributes(c * c, s * s, b * b);
  }

  lemma Regroup(w: int, x: int, y: int, z: int)
    ensures (w * x) * (y * z) == (w * y) * (x * z)
  {
    MulAssociates(w * x, y, z);
    MulAssociates(w, x, y);
    MulAssociates(w * y, x, z);
    MulAssociates(x, y, z);
  }

  lemma Expand(p: int, q: int, r: int, t: int)
    ensures (p + q) * (p + q) + (r - t) * (r - t)
         == p * p + q * q + r * r + t * t + 2 * (p * q) - 2 * (r * t)
  {
  }

  /** A number whose square is bounded by a square is bounded. */
  lemma RootBound(v: int, m: int)
    requires v * v <= m * m && 0 <= m
    ensures -m <= v <= m
  {
    if v > m {
      StrictSquare(m, v);
    } else if v < -m {
      StrictSquare(m, -v);
    }
  }

  lemma StrictSquare(m: int, v: int)
    requires 0 <= m < v
    ensures m * m < v * v
  {
    MulMonotone(m, v, m);
    assert m * v < v * v by {
      assert (v - m) * v > 0;
    }
  }

  /** Sine and cosine of one angle, up to rounding towards the inside of the unit circle. */
  ghost predicate IsAngle(sinVal: Q31, cosVal: Q31) {
    cosVal * cosVal + sinVal * sinVal <= 0x8000_0000 * 0x8000_0000
  }

  /** The rotated components before saturation: sums of truncated products. */
  function DirectSum(alpha: Q31, beta: Q31, s: Q31, c: Q31): int {
    alpha * c / 0x8000_0000 + beta * s / 0x8000_0000
  }

  function QuadratureSum(alpha: Q31, beta: Q31, s: Q31, c: Q31): int {
    beta * c / 0x8000_0000 - alpha * s / 0x8000_0000
  }

  predicate FitsQ31(x: int) { -0x8000_0000 <= x < 0x8000_0000 }

  /** Neither sum saturates; -1 times a sine of -1 is the one product that wraps while both sums
      fit. */
  predicate ForwardFits(alpha: Q31, beta: Q31, s: Q31, c: Q31) {
    && FitsQ31(DirectSum(alpha, beta, s, c)) && FitsQ31(QuadratureSum(alpha, beta, s, c))
    && !(alpha == s == -0x8000_0000)
  }

  /** An angle with a component at -1 lies on that axis. */
  lemma AxisAngle(s: Q31, c: Q31)
    requires IsAngle(s, c)
    ensures c == -0x8000_0000 ==> s == 0
    ensures s == -0x8000_0000 ==> c == 0
  {
    if c == -0x8000_0000 {
      RootBound(s, 0);
    } else if s == -0x8000_0000 {
      RootBound(c, 0);
    }
  }

  lemma Squares(a: int, b: int)
    ensures 0 <= a * a + b * b && 0 <= a * a
  {
  }

  /** On an axis at -1 the rotated components are the negated or swapped inputs. */
  lemma AxisSums(alpha: Q31, beta: Q31, s: Q31, c: Q31)
    requires IsAngle(s, c)
    ensures c == -0x8000_0000 ==> DirectSum(alpha, beta, s, c) == 0 - alpha
    ensures c == -0x8000_0000 ==> QuadratureSum(alpha, beta, s, c) == 0 - beta
    ensures s == -0x8000_0000 ==> DirectSum(alpha, beta, s, c) == 0 - beta
    ensures s == -0x8000_0000 ==> QuadratureSum(alpha, beta, s, c) == alpha
  {
    AxisAngle(s, c);
    AxisQuotient(alpha, c, s);
    AxisQuotient(beta, c, s);
    AxisQuotient(alpha, s, c);
    AxisQuotient(beta, s, c);
  }

  lemma AxisQuotient(x: int, p: int, q: int)
    requires p == -0x8000_0000 ==> q == 0
    ensures p == -0x8000_0000 ==> x * p / 0x8000_0000 == -x && x * q / 0x8000_0000 == 0
  {
    if p == -0x8000_0000 {
      OnAxis(x, p, q);
    }
  }

  lemma OnAxis(x: int, one: int, zero: int)
    requires one == -0x8000_0000 && zero == 0
    ensures x * one / 0x8000_0000 == -x && x * zero / 0x8000_0000 == 0
  {
    DivModUnique(x * one, 0x8000_0000, -x, 0);
  }

  /** When the sums fit the four products are exact. */
  lemma ForwardProducts(alpha: Q31, beta: Q31, s: Q31, c: Q31)
    requires IsAngle(s, c)
    requires (c != -0x8000_0000 && s != -0x8000_0000) || ForwardFits(alpha, beta, s, c)
    ensures Product(alpha, c) == alpha * c / 0x8000_0000 && Product(beta, s) == beta * s / 0x8000_0000
    ensures Product(beta, c) == beta * c / 0x8000_0000 && Product(alpha, s) == alpha * s / 0x8000_0000
  {
    AxisSums(alpha, beta, s, c);
    ProductExact(alpha, c);
    ProductExact(beta, s);
    ProductExact(beta, c);
    ProductExact(alpha, s);
  }

  /** The forward transform returns the two sums exactly when they fit. */
  lemma ForwardExactIff(alpha: Q31, beta: Q31, s: Q31, c: Q31)
    requires IsAngle(s, c)
    ensures Park(alpha, beta, s, c) == (DirectSum(alpha, beta, s, c), QuadratureSum(alpha, beta, s, c))
       <==> ForwardFits(alpha, beta, s, c)
  {
    if ForwardFits(alpha, beta, s, c) {
      ForwardProducts(alpha, beta, s, c);
    } else if alpha == s == -0x8000_0000 {
      WrappedProduct(beta, c);
    }
  }

  /** Rotating -1 by a sine of -1 wraps one product: the quadrature component turns from its
      lowest to its highest value. */
  lemma WrappedProduct(beta: Q31, c: Q31)
    requires IsAngle(-0x8000_0000, c)
    ensures c == 0 && Park(-0x8000_0000, beta, -0x8000_0000, c).1 == 0x7FFF_FFFF
    ensures Product(0x7FFF_FFFF, -0x8000_0000) == -0x7FFF_FFFF
  {
    AxisAngle(-0x8000_0000, c);
    OnAxis(beta, -0x8000_0000, c);
    OnAxis(-0x8000_0000, -0x8000_0000, c);
    OnAxis(0x7FFF_FFFF, -0x8000_0000, c);
  }

  /** The truncations of the forward pass. */
  lemma SumOfFloors(p: int, q: int) returns (r: int)
    ensures 0 <= r < 0x1_0000_0000
    ensures 0x8000_0000 * (p / 0x8000_0000 + q / 0x8000_0000) == p + q - r
  {
    r := p % 0x8000_0000 + q % 0x8000_0000;
  }

  lemma DifferenceOfFloors(p: int, q: int) returns (r: int)
    ensures -0x8000_0000 < r < 0x8000_0000
    ensures 0x8000_0000 * (p / 0x8000_0000 - q / 0x8000_0000) == p - q - r
  {
    r := p % 0x8000_0000 - q % 0x8000_0000;
  }

  /** Rotating back multiplies by the squared length of the angle vector; the errors `rd` and
      `rq` of the forward pass are rotated along. */
  lemma BackAlgebra(a: int, b: int, s: int, c: int, id: int, iq: int, rd: int, rq: int)
    requires 0x8000_0000 * id == a * c + b * s - rd
    requires 0x8000_0000 * iq == b * c - a * s - rq
    ensures 0x8000_0000 * (id * c) - 0x8000_0000 * (iq * s) == a * (c * c + s * s) - rd * c + rq * s
    ensures 0x8000_0000 * (iq * c) + 0x8000_0000 * (id * s) == b * (c * c + s * s) - rq * c - rd * s
  {
    ScaledRow(id, a * c, b * s, rd, c);
    ScaledRow(id, a * c, b * s, rd, s);
    ScaledRow(iq, b * c, -(a * s), rq, c);
    ScaledRow(iq, b * c, -(a * s), rq, s);
    Monomials(a, s, c);
    Monomials(b, s, c);
  }

  lemma ScaledRow(x: int, u: int, v: int, r: int, k: int)
    requires 0x8000_0000 * x == u + v - r
    ensures 0x8000_0000 * (x * k) == u * k + v * k - r * k
  {
    assert 0x8000_0000 * (x * k) == (u + v - r) * k;
  }

  lemma Monomials(a: int, s: int, c: int)
    ensures a * c * c + a * s * s == a * (c * c + s * s)
    ensures a * c * s == a * s * c && -(a * s) * c == -(a * s * c) && -(a * s) * s == -(a * s * s)
  {
  }

  /** What a component that came back as `x` misses of its target, in units of 2^-62. */
  function Miss(x: int, target: int): int {
    x * 0x4000_0000_0000_0000 - target
  }

  ghost predicate Near(x: int, target: int, units: int) {
    -units * 0x4000_0000_0000_0000 < Miss(x, target) < units * 0x4000_0000_0000_0000
  }

  /** The round trip returns each component scaled by sin^2 + cos^2, to within four and five
      units in the last place. */
  ghost predicate Returns(alpha: Q31, beta: Q31, s: Q31, c: Q31) {
    var (id, iq) := Park(alpha, beta, s, c);
    var (alpha', beta') := InvPark(id, iq, s, c);
    Near(alpha', alpha * (c * c + s * s), 4) && Near(beta', beta * (c * c + s * s), 5)
  }

  /** The backward pass before its saturation misses its targets by the rotated forward errors
      and the errors of its own two truncations each. */
  lemma BackwardMiss(alpha: Q31, beta: Q31, s: Q31, c: Q31, id: Q31, iq: Q31, rd: int, rq: int)
      returns (ra: int, rb: int)
    requires 0x8000_0000 * id == alpha * c + beta * s - rd
    requires 0x8000_0000 * iq == beta * c - alpha * s - rq
    ensures -0x4000_0000_0000_0000 < ra < 0x4000_0000_0000_0000
    ensures 0 <= rb < 0x8000_0000_0000_0000
    ensures var n := c * c + s * s;
            && Miss(id * c / 0x8000_0000 - iq * s / 0x8000_0000, alpha * n) == -(rd * c) + rq * s - ra
            && Miss(iq * c / 0x8000_0000 + id * s / 0x8000_0000, beta * n) == -(rq * c) - rd * s - rb
  {
    BackAlgebra(alpha, beta, s, c, id, iq, rd, rq);
    var r := DifferenceOfFloors(id * c, iq * s);
    var r' := SumOfFloors(iq * c, id * s);
    ra, rb := 0x8000_0000 * r, 0x8000_0000 * r';
  }

  /** The products of the backward pass are exact. */
  lemma BackwardProducts(id: Q31, iq: Q31, s: Q31, c: Q31)
    requires c == -0x8000_0000 || s == -0x8000_0000 ==> id != -0x8000_0000 && iq != -0x8000_0000
    ensures InvPark(id, iq, s, c)
         == (Clamp(id * c / 0x8000_0000 - iq * s / 0x8000_0000, -0x8000_0000, 0x7FFF_FFFF),
             Clamp(iq * c / 0x8000_0000 + id * s / 0x8000_0000, -0x8000_0000, 0x7FFF_FFFF))
  {
    ProductExact(id, c);
    ProductExact(iq, s);
    ProductExact(iq, c);
    ProductExact(id, s);
  }

  /** Clamping moves a value towards every target inside the range. */
  lemma ClampCloser(e: int, target: int, k: int)
    requires -0x8000_0000 * 0x4000_0000_0000_0000 <= target <= 0x8000_0000 * 0x4000_0000_0000_0000
    requires k >= 2 && Near(e, target, k)
    ensures Near(Clamp(e, -0x8000_0000, 0x7FFF_FFFF), target, k)
  {
  }

  /** Targets stay inside the range. */
  lemma TargetRange(x: Q31, s: Q31, c: Q31)
    requires IsAngle(s, c)
    ensures -0x8000_0000 * 0x4000_0000_0000_0000 <= x * (c * c + s * s) <= 0x8000_0000 * 0x4000_0000_0000_0000
    ensures x >= 0 ==> 0 <= x * (c * c + s * s)
    ensures x <= 0 ==> x * (c * c + s * s) <= 0
  {
    Squares(c, s);
    ProductBound(x, c * c + s * s, 0x8000_0000, 0x4000_0000_0000_0000);
    SignOfTarget(x, c * c + s * s);
  }

  /** Park followed by inverse Park at the same angle: through eight truncated products and four
      saturating additions the components return whenever the forward sums fit. */
  lemma ParkRoundTrip(alpha: Q31, beta: Q31, s: Q31, c: Q31)
    requires IsAngle(s, c) && ForwardFits(alpha, beta, s, c)
    ensures Returns(alpha, beta, s, c)
  {
    ForwardExactIff(alpha, beta, s, c);
    AxisSums(alpha, beta, s, c);
    var id: Q31, iq: Q31 := DirectSum(alpha, beta, s, c), QuadratureSum(alpha, beta, s, c);
    var rd := SumOfFloors(alpha * c, beta * s);
    var rq := DifferenceOfFloors(beta * c, alpha * s);
    var ra, rb := BackwardMiss(alpha, beta, s, c, id, iq, rd, rq);
    ErrorBounds(rd, rq, s, c);
    BackwardProducts(id, iq, s, c);
    TargetRange(alpha, s, c);
    TargetRange(beta, s, c);
    ClampCloser(id * c / 0x8000_0000 - iq * s / 0x8000_0000, alpha * (c * c + s * s), 4);
    ClampCloser(iq * c / 0x8000_0000 + id * s / 0x8000_0000, beta * (c * c + s * s), 5);
  }

  lemma ErrorBounds(rd: int, rq: int, s: Q31, c: Q31)
    requires 0 <= rd < 0x1_0000_0000 && -0x8000_0000 < rq < 0x8000_0000
    ensures -3 * 0x4000_0000_0000_0000 < rq * s - rd * c < 3 * 0x4000_0000_0000_0000
    ensures -3 * 0x4000_0000_0000_0000 < -(rq * c) - rd * s < 3 * 0x4000_0000_0000_0000
  {
    ProductBound(rd, c, 0xFFFF_FFFF, 0x8000_0000);
    ProductBound(rd, s, 0xFFFF_FFFF, 0x8000_0000);
    ProductBound(rq, c, 0x7FFF_FFFF, 0x8000_0000);
    ProductBound(rq, s, 0x7FFF_FFFF, 0x8000_0000);
  }

  /** With an angle that misses the unit circle by at most `k` units in the last place of the
      squared length, each component comes back within a fixed number of units. */
  lemma ParkRoundTripUnit(alpha: Q31, beta: Q31, s: Q31, c: Q31, k: nat)
    requires IsAngle(s, c) && ForwardFits(alpha, beta, s, c)
    requires 0x4000_0000_0000_0000 - k * 0x8000_0000 <= c * c + s * s
    ensures var (id, iq) := Park(alpha, beta, s, c);
            var (alpha', beta') := InvPark(id, iq, s, c);
            && -4 - k < alpha' - alpha < 4 + k
            && -5 - k < beta' - beta < 5 + k
  {
    ParkRoundTrip(alpha, beta, s, c);
    var (id, iq) := Park(alpha, beta, s, c);
    var (alpha', beta') := InvPark(id, iq, s, c);
    Defect(alpha, alpha', c * c + s * s, k, 4);
    Defect(beta, beta', c * c + s * s, k, 5);
  }

  lemma Defect(x: int, x': int, n: int, k: nat, m: int)
    requires -0x8000_0000 <= x <= 0x8000_0000
    requires 0x4000_0000_0000_0000 - k * 0x8000_0000 <= n <= 0x4000_0000_0000_0000
    requires Near(x', x * n, m)
    ensures -m - k < x' - x < m + k
  {
    var d := 0x4000_0000_0000_0000 - n;
    ProductBound(x, d, 0x8000_0000, k * 0x8000_0000);
    MulDistributes(0x4000_0000_0000_0000, -d, x);
  }

  /** The largest vector length for which the forward transform cannot saturate at any angle. */
  const LENGTH := 0x7FFF_FFFE

  ghost predicate IsVector(alpha: Q31, beta: Q31) {
    alpha * alpha + beta * beta <= LENGTH * LENGTH
  }

  lemma ComponentBound(a: int, b: int, s: int, c: int, m: int, n: int)
    requires a * a + b * b <= m * m && c * c + s * s <= n * n && 0 <= m && 0 <= n
    ensures -(m * n) <= a * c + b * s <= m * n && -(m * n) <= b * c - a * s <= m * n
  {
    var u, v := a * c + b * s, b * c - a * s;
    Lagrange(a, b, s, c);
    SquareProduct(a * a + b * b, c * c + s * s, m, n) by {
      Squares(a, b);
      Squares(c, s);
    }
    MulMonotone(0, m, n);
    Squares(u, 0);
    Squares(v, 0);
    RootBound(u, m * n);
    RootBound(v, m * n);
  }

  lemma SquareProduct(x: int, y: int, m: int, n: int)
    requires 0 <= x <= m * m && 0 <= y <= n * n
    ensures x * y <= (m * n) * (m * n)
  {
    MulMonotone(x, m * m, y);
    Squares(m, 0);
    MulMonotone(y, n * n, m * m);
    assert (m * m) * (n * n) == (m * n) * (m * n);
  }

  /** A vector of at most that length fits at every angle. */
  lemma VectorFits(alpha: Q31, beta: Q31, s: Q31, c: Q31)
    requires IsVector(alpha, beta) && IsAngle(s, c)
    ensures ForwardFits(alpha, beta, s, c)
  {
    Squares(alpha, 0);
    Squares(beta, 0);
    RootBound(alpha, LENGTH);
    ComponentBound(alpha, beta, s, c, LENGTH, 0x8000_0000);
    var rd := SumOfFloors(alpha * c, beta * s);
    var rq := DifferenceOfFloors(beta * c, alpha * s);
  }

  lemma ParkVectorRoundTrip(alpha: Q31, beta: Q31, s: Q31, c: Q31)
    requires IsVector(alpha, beta) && IsAngle(s, c)
    ensures Returns(alpha, beta, s, c)
  {
    VectorFits(alpha, beta, s, c);
    ParkRoundTrip(alpha, beta, s, c);
  }

  // Saturation of the forward pass.

  /** Fifteen or more units outside the range. */
  predicate FarOutside(x: int) { x <= -0x8000_0000 - 15 || 0x7FFF_FFFF + 15 <= x }

  function Abs(x: int): nat { if x < 0 then -x else x }

  lemma AbsProduct(x: int, y: int)
    ensures Abs(x * y) == Abs(x) * Abs(y)
  {
  }

  /** The two sums cannot both leave the range when one does so by fifteen units. */
  lemma OneSaturates(alpha: Q31, beta: Q31, s: Q31, c: Q31)
    requires IsAngle(s, c)
    ensures !(FarOutside(DirectSum(alpha, beta, s, c)) && !FitsQ31(QuadratureSum(alpha, beta, s, c)))
    ensures !(FarOutside(QuadratureSum(alpha, beta, s, c)) && !FitsQ31(DirectSum(alpha, beta, s, c)))
  {
    var u: int, v: int := alpha * c + beta * s, beta * c - alpha * s;
    var rd := SumOfFloors(alpha * c, beta * s);
    var rq := DifferenceOfFloors(beta * c, alpha * s);
    Lagrange(alpha, beta, s, c);
    DoubleSquare(alpha, beta, s, c);
    TooLong(u, v);
    TooLong(v, u);
  }

  lemma DoubleSquare(alpha: Q31, beta: Q31, s: Q31, c: Q31)
    requires IsAngle(s, c)
    ensures (alpha * alpha + beta * beta) * (c * c + s * s) <= 2 * 0x4000_0000_0000_0000 * 0x4000_0000_0000_0000
  {
    ProductBound(alpha, alpha, 0x8000_0000, 0x8000_0000);
    ProductBound(beta, beta, 0x8000_0000, 0x8000_0000);
    Squares(alpha, beta);
    Squares(c, s);
    ProductBound(alpha * alpha + beta * beta, c * c + s * s, 2 * 0x4000_0000_0000_0000, 0x4000_0000_0000_0000);
  }

  lemma TooLong(u: int, v: int)
    requires u * u + v * v <= 2 * 0x4000_0000_0000_0000 * 0x4000_0000_0000_0000
    ensures !(Abs(u) >= 0x8000_0000 * 0x8000_000D && Abs(v) >= 0x8000_0000 * 0x7FFF_FFFF)
  {
    if Abs(u) >= 0x8000_0000 * 0x8000_000D && Abs(v) >= 0x8000_0000 * 0x7FFF_FFFF {
      SquareAtLeast(u, 0x8000_0000 * 0x8000_000D);
      SquareAtLeast(v, 0x8000_0000 * 0x7FFF_FFFF);
      assert false;
    }
  }

  lemma SquareAtLeast(u: int, m: nat)
    requires Abs(u) >= m
    ensures u * u >= m * m
  {
    var v := Abs(u);
    assert u * u == v * v;
    MulMonotone(m, v, m);
    MulMonotone(m, v, v);
  }

  /** The excess `r` over the range, along the axes `p` and `q` of the angle, is too large for
      both components: at least one axis carries more than the truncation errors can hide. */
  lemma ExcessShows(p: int, q: int, r: int, l: nat)
    requires Abs(p) + Abs(q) >= 0x8000_0000 && Abs(r) >= (12 + l) * 0x8000_0000
    ensures || Abs(r * p) >= 5 * 0x4000_0000_0000_0000 + l * 0x8000_0000 * Abs(q)
            || Abs(r * q) >= 7 * 0x4000_0000_0000_0000 + l * 0x8000_0000 * Abs(p)
  {
    var k, sum := l * 0x8000_0000, Abs(p) + Abs(q);
    AbsProduct(r, p);
    AbsProduct(r, q);
    MulDistributes(Abs(p), Abs(q), Abs(r));
    MulDistributes(Abs(p), Abs(q), k);
    MulMonotone(k + 12 * 0x8000_0000, Abs(r), sum);
    MulDistributes(k, 12 * 0x8000_0000, sum);
  }

  /** A long projection needs both components and both axes, with matching signs. */
  lemma LongProjection(a: Q31, b: Q31, p: int, q: int)
    requires -0x8000_0000 <= p <= 0x8000_0000 && -0x8000_0000 <= q <= 0x8000_0000
    requires Abs(a * p + b * q) >= 0x8000_0000 * 0x8000_000D
    ensures Abs(p) + Abs(q) >= 0x8000_0000
    ensures a * p + b * q > 0 ==> a * p > 0 && b * q > 0
    ensures a * p + b * q < 0 ==> a * p < 0 && b * q < 0
  {
    ProductBound(a, p, 0x8000_0000, 0x8000_0000);
    ProductBound(b, q, 0x8000_0000, 0x8000_0000);
    ProductBound(a, p, 0x8000_0000, Abs(p));
    ProductBound(b, q, 0x8000_0000, Abs(q));
  }

  /** A component that falls short of its target on the side of zero is not brought back by the
      clamp. */
  lemma PulledIn(e: int, target: int, k: nat)
    requires k < 0x8000_0000 && Abs(Miss(e, target)) >= k * 0x4000_0000_0000_0000
    requires Miss(e, target) < 0 ==> target >= 0
    requires Miss(e, target) > 0 ==> target <= 0
    ensures !Near(Clamp(e, -0x8000_0000, 0x7FFF_FFFF), target, k)
  {
  }

  /** Saturation by fifteen units cannot be undone: `r` is the error of the saturated component
      along the axes `p` and `q`; `sa`, `sb`, `ra` and `rb` collect the truncation errors. */
  lemma SaturationShows(a: Q31, b: Q31, p: int, q: int, r: int, l: nat, n: nat, ea: int, eb: int,
                        sa: int, sb: int, ra: int, rb: int)
    requires Abs(p) + Abs(q) >= 0x8000_0000 && Abs(r) >= (12 + l) * 0x8000_0000
    requires (r * p > 0 && a > 0) || (r * p < 0 && a < 0)
    requires (r * q > 0 && b > 0) || (r * q < 0 && b < 0)
    requires Abs(sa) <= l * 0x8000_0000 * Abs(q) && Abs(sb) <= l * 0x8000_0000 * Abs(p)
    requires Abs(ra) < 0x4000_0000_0000_0000 && 0 <= rb < 0x8000_0000_0000_0000
    requires Miss(ea, a * n) == -(r * p) + sa - ra && Miss(eb, b * n) == -(r * q) + sb - rb
    ensures !(Near(Clamp(ea, -0x8000_0000, 0x7FFF_FFFF), a * n, 4)
           && Near(Clamp(eb, -0x8000_0000, 0x7FFF_FFFF), b * n, 5))
  {
    ExcessShows(p, q, r, l);
    SignOfTarget(a, n);
    SignOfTarget(b, n);
    if Abs(r * p) >= 5 * 0x4000_0000_0000_0000 + l * 0x8000_0000 * Abs(q) {
      PulledIn(ea, a * n, 4);
    } else {
      PulledIn(eb, b * n, 5);
    }
  }

  lemma SignOfTarget(x: int, n: nat)
    ensures x >= 0 ==> x * n >= 0
    ensures x <= 0 ==> x * n <= 0
  {
  }

  lemma DirectSaturates(alpha: Q31, beta: Q31, s: Q31, c: Q31)
    requires IsAngle(s, c) && FarOutside(DirectSum(alpha, beta, s, c))
    ensures !Returns(alpha, beta, s, c)
  {
    hide Near, Miss, Product;
    AxisSums(alpha, beta, s, c);
    OneSaturates(alpha, beta, s, c);
    ForwardProducts(alpha, beta, s, c);
    var (id, iq) := Park(alpha, beta, s, c);
    var n: int := c * c + s * s;
    Squares(c, s);
    var rd := SumOfFloors(alpha * c, beta * s);
    var rq := DifferenceOfFloors(beta * c, alpha * s);
    var excess := 0x8000_0000 * (DirectSum(alpha, beta, s, c) - id) + rd;
    var ra, rb := BackwardMiss(alpha, beta, s, c, id, iq, excess, rq);
    BackwardProducts(id, iq, s, c);
    DirectShows(alpha, beta, s, c, excess, rq, n,
      id * c / 0x8000_0000 - iq * s / 0x8000_0000, iq * c / 0x8000_0000 + id * s / 0x8000_0000, ra, rb);
  }

  lemma DirectShows(a: Q31, b: Q31, s: Q31, c: Q31, rd: int, rq: int, n: nat, ea: int, eb: int, ra: int, rb: int)
    requires Abs(a * c + b * s) >= 0x8000_0000 * 0x8000_000D && Abs(rd) >= 13 * 0x8000_0000
    requires a * c + b * s > 0 <==> rd > 0
    requires Abs(rq) <= 0x8000_0000 && Abs(ra) < 0x4000_0000_0000_0000 && 0 <= rb < 0x8000_0000_0000_0000
    requires Miss(ea, a * n) == -(rd * c) + rq * s - ra && Miss(eb, b * n) == -(rq * c) - rd * s - rb
    ensures !(Near(Clamp(ea, -0x8000_0000, 0x7FFF_FFFF), a * n, 4)
           && Near(Clamp(eb, -0x8000_0000, 0x7FFF_FFFF), b * n, 5))
  {
    LongProjection(a, b, c, s);
    MatchingSigns(a, c, rd, a * c + b * s);
    MatchingSigns(b, s, rd, a * c + b * s);
    SmallError(rq, s, 1);
    SmallError(rq, c, 1);
    SaturationShows(a, b, c, s, rd, 1, n, ea, eb, rq * s, -(rq * c), ra, rb);
  }

  lemma MatchingSigns(a: int, p: int, r: int, d: int)
    requires (r > 0 && d > 0 && a * p > 0) || (r < 0 && d < 0 && a * p < 0)
    ensures (r * p > 0 && a > 0) || (r * p < 0 && a < 0)
  {
    SameSign(a, p);
    SameSign(r, p);
  }

  lemma SameSign(x: int, y: int)
    ensures x * y > 0 <==> (x > 0 && y > 0) || (x < 0 && y < 0)
    ensures x * y < 0 <==> (x > 0 && y < 0) || (x < 0 && y > 0)
  {
  }

  lemma SmallError(r: int, x: int, l: nat)
    requires Abs(r) <= l * 0x8000_0000
    ensures Abs(r * x) <= l * 0x8000_0000 * Abs(x) && Abs(-(r * x)) <= l * 0x8000_0000 * Abs(x)
  {
    AbsProduct(r, x);
    MulMonotone(Abs(r), l * 0x8000_0000, Abs(x));
  }

  lemma QuadratureSaturates(alpha: Q31, beta: Q31, s: Q31, c: Q31)
    requires IsAngle(s, c) && FarOutside(QuadratureSum(alpha, beta, s, c))
    ensures !Returns(alpha, beta, s, c)
  {
    hide Near, Miss, Product;
    AxisSums(alpha, beta, s, c);
    OneSaturates(alpha, beta, s, c);
    ForwardProducts(alpha, beta, s, c);
    var (id, iq) := Park(alpha, beta, s, c);
    var n: int := c * c + s * s;
    Squares(c, s);
    var rd := SumOfFloors(alpha * c, beta * s);
    var rq := DifferenceOfFloors(beta * c, alpha * s);
    var excess := 0x8000_0000 * (QuadratureSum(alpha, beta, s, c) - iq) + rq;
    var ra, rb := BackwardMiss(alpha, beta, s, c, id, iq, rd, excess);
    BackwardProducts(id, iq, s, c);
    QuadratureShows(alpha, beta, s, c, rd, excess, n,
      id * c / 0x8000_0000 - iq * s / 0x8000_0000, iq * c / 0x8000_0000 + id * s / 0x8000_0000, ra, rb);
  }

  lemma QuadratureShows(a: Q31, b: Q31, s: Q31, c: Q31, rd: int, rq: int, n: nat, ea: int, eb: int, ra: int, rb: int)
    requires Abs(b * c - a * s) >= 0x8000_0000 * 0x8000_000D && Abs(rq) >= 14 * 0x8000_0000
    requires b * c - a * s > 0 <==> rq > 0
    requires Abs(rd) <= 0x1_0000_0000 && Abs(ra) < 0x4000_0000_0000_0000 && 0 <= rb < 0x8000_0000_0000_0000
    requires Miss(ea, a * n) == -(rd * c) + rq * s - ra && Miss(eb, b * n) == -(rq * c) - rd * s - rb
    ensures !(Near(Clamp(ea, -0x8000_0000, 0x7FFF_FFFF), a * n, 4)
           && Near(Clamp(eb, -0x8000_0000, 0x7FFF_FFFF), b * n, 5))
  {
    var p: int := 0 - s;
    NegatedFactor(a, s, p);
    NegatedFactor(rq, s, p);
    LongProjection(a, b, p, c);
    MatchingSigns(a, p, rq, a * p + b * c);
    MatchingSigns(b, c, rq, a * p + b * c);
    SmallError(rd, s, 2);
    SmallError(rd, c, 2);
    SaturationShows(a, b, p, c, rq, 2, n, ea, eb, -(rd * c), -(rd * s), ra, rb);
  }

  lemma NegatedFactor(x: int, y: int, z: int)
    requires z == -y
    ensures x * z == -(x * y)
  {
  }

  /** -1 at a sine of -1 comes back as the highest value. */
  lemma WrapShows(beta: Q31, c: Q31)
    requires IsAngle(-0x8000_0000, c)
    ensures !Returns(-0x8000_0000, beta, -0x8000_0000, c)
  {
    WrappedProduct(beta, c);
    var (id, iq) := Park(-0x8000_0000, beta, -0x8000_0000, c);
    OnAxis(id, -0x8000_0000, c);
    assert Product(id, c) == 0;
    assert InvPark(id, iq, -0x8000_0000, c).0 == 0x7FFF_FFFF;
  }

  /** The round trip returns exactly when the forward pass fits, for every angle and every
      vector except those that saturate by less than fifteen units. */
  lemma ParkRoundTripIff(alpha: Q31, beta: Q31, s: Q31, c: Q31)
    requires IsAngle(s, c)
    requires FitsQ31(DirectSum(alpha, beta, s, c)) || FarOutside(DirectSum(alpha, beta, s, c))
    requires FitsQ31(QuadratureSum(alpha, beta, s, c)) || FarOutside(QuadratureSum(alpha, beta, s, c))
    ensures Returns(alpha, beta, s, c) <==> ForwardFits(alpha, beta, s, c)
  {
    if ForwardFits(alpha, beta, s, c) {
      ParkRoundTrip(alpha, beta, s, c);
    } else if FarOutside(DirectSum(alpha, beta, s, c)) {
      DirectSaturates(alpha, beta, s, c);
    } else if FarOutside(QuadratureSum(alpha, beta, s, c)) {
      QuadratureSaturates(alpha, beta, s, c);
    } else {
      WrapShows(beta, c);
    }
  }

  /** How far a sum lies outside the range. */
  function Excess(x: int): nat { Abs(x - Clamp(x, -0x8000_0000, 0x7FFF_FFFF)) }

  /** Without a wrap every vector, saturating or not, returns within the bounds of the fitting
      ones widened by what the two sums exceed the range. */
  lemma ParkRoundTripBound(alpha: Q31, beta: Q31, s: Q31, c: Q31)
    requires IsAngle(s, c) && NoWrap(alpha, beta, s, c)
    ensures var (id, iq) := Park(alpha, beta, s, c);
            var (alpha', beta') := InvPark(id, iq, s, c);
            var e := Excess(DirectSum(alpha, beta, s, c)) + Excess(QuadratureSum(alpha, beta, s, c));
            Near(alpha', alpha * (c * c + s * s), 4 + e) && Near(beta', beta * (c * c + s * s), 5 + e)
  {
    hide Park, InvPark, Truncated;
    AxisSums(alpha, beta, s, c);
    ParkExact(alpha, beta, s, c);
    var (id, iq) := Park(alpha, beta, s, c);
    var rd := SumOfFloors(alpha * c, beta * s);
    var rq := DifferenceOfFloors(beta * c, alpha * s);
    BackwardProducts(id, iq, s, c);
    BoundBack(alpha, beta, s, c, id, iq, rd, rq,
      DirectSum(alpha, beta, s, c) - id, QuadratureSum(alpha, beta, s, c) - iq);
  }

  /** The backward pass with forward sums that were moved by `ed` and `eq`. */
  lemma BoundBack(alpha: Q31, beta: Q31, s: Q31, c: Q31, id: Q31, iq: Q31, rd: int, rq: int, ed: int, eq: int)
    requires IsAngle(s, c) && 0 <= rd < 0x1_0000_0000 && -0x8000_0000 < rq < 0x8000_0000
    requires 0x8000_0000 * (id + ed) == alpha * c + beta * s - rd
    requires 0x8000_0000 * (iq + eq) == beta * c - alpha * s - rq
    ensures var ea, eb := id * c / 0x8000_0000 - iq * s / 0x8000_0000, iq * c / 0x8000_0000 + id * s / 0x8000_0000;
            var n, e := c * c + s * s, Abs(ed) + Abs(eq);
            && Near(Clamp(ea, -0x8000_0000, 0x7FFF_FFFF), alpha * n, 4 + e)
            && Near(Clamp(eb, -0x8000_0000, 0x7FFF_FFFF), beta * n, 5 + e)
  {
    var ra, rb := BackwardMiss(alpha, beta, s, c, id, iq, rd + 0x8000_0000 * ed, rq + 0x8000_0000 * eq);
    ErrorBounds(rd, rq, s, c);
    WidenedError(rd, rq, ed, eq, s, c);
    TargetRange(alpha, s, c);
    TargetRange(beta, s, c);
    var e: int := Abs(ed) + Abs(eq);
    ClampCloser(id * c / 0x8000_0000 - iq * s / 0x8000_0000, alpha * (c * c + s * s), 4 + e);
    ClampCloser(iq * c / 0x8000_0000 + id * s / 0x8000_0000, beta * (c * c + s * s), 5 + e);
  }

  lemma WidenedError(rd: int, rq: int, ed: int, eq: int, s: Q31, c: Q31)
    requires -3 * 0x4000_0000_0000_0000 < rq * s - rd * c < 3 * 0x4000_0000_0000_0000
    requires -3 * 0x4000_0000_0000_0000 < -(rq * c) - rd * s < 3 * 0x4000_0000_0000_0000
    ensures var rd', rq', n := rd + 0x8000_0000 * ed, rq + 0x8000_0000 * eq, 3 + Abs(ed) + Abs(eq);
            && Abs(-(rd' * c) + rq' * s) < n * 0x4000_0000_0000_0000
            && Abs(-(rq' * c) - rd' * s) < n * 0x4000_0000_0000_0000
  {
    ScaledExcess(rd, ed, c);
    ScaledExcess(rd, ed, s);
    ScaledExcess(rq, eq, c);
    ScaledExcess(rq, eq, s);
  }

  lemma ScaledExcess(r: int, e: int, x: Q31)
    ensures (r + 0x8000_0000 * e) * x == r * x + 0x8000_0000 * (e * x)
    ensures Abs(e * x) <= 0x8000_0000 * Abs(e)
  {
    MulDistributes(r, 0x8000_0000 * e, x);
    MulAssociates(0x8000_0000, e, x);
    AbsProduct(e, x);
    MulMonotone(Abs(x), 0x8000_0000, Abs(e));
  }

  /** At 45 degrees both components of the longest diagonal vector return 629 million units short. */
  lemma ParkSaturates(v: Q31, r: Q31)
    requires v == 0x7FFF_FFFF && r == 1518500249
    ensures IsAngle(r, r) && FarOutside(DirectSum(v, v, r, r))
    ensures Park(v, v, r, r) == (0x7FFF_FFFF, 0)
    ensures InvPark(0x7FFF_FFFF, 0, r, r) == (v - 628983399, v - 628983399)
  {
    ProductIs(v, r, 1518500248);
    ProductIs(0, r, 0);
  }

  /** The margin is needed: a vector that saturates by twelve units still returns. */
  lemma TwelveUnitsReturn(alpha: Q31, beta: Q31, s: Q31, c: Q31)
    requires alpha == 2147440843 && beta == -2086218663 && s == 1107877251 && c == -1071234093
    ensures IsAngle(s, c) && Returns(alpha, beta, s, c)
    ensures DirectSum(alpha, beta, s, c) == -0x8000_0000 - 12
  {
    ProductIs(alpha, c, -1071212741);
    ProductIs(beta, s, -1076270919);
    ProductIs(beta, c, 1040673142);
    ProductIs(alpha, s, 1107855168);
    assert Park(alpha, beta, s, c) == (-0x8000_0000, -67182026);
    ProductIs(-0x8000_0000, c, 1071234093);
    ProductIs(-67182026, s, -34658909);
    ProductIs(-67182026, c, 33512560);
    ProductIs(-0x8000_0000, s, -1107877251);
    assert InvPark(-0x8000_0000, -67182026, s, c) == (1105893002, -1074364691);
  }

  lemma ProductIs(x: Q31, y: Q31, z: Q31)
    requires 0x8000_0000 * z <= x * y < 0x8000_0000 * (z + 1)
    ensures x * y / 0x8000_0000 == z && Product(x, y) == z
  {
    DivModUnique(x * y, 0x8000_0000, z, x * y - z * 0x8000_0000);
    Wrap31Of(z, 0);
  }

  // ---- Clarke ----

  /** 1/sqrt(3) and 2/sqrt(3) in 2.30 format. */
  const INV_SQRT3 := 0x24F3_4E8B
  const TWO_INV_SQRT3 := 0x49E6_9D16

  function Clarke(ia: Q31, ib: Q31): (Q31, Q31)
  {
    (ia, QAdd(Scaled30(ia, INV_SQRT3), Scaled30(ib, TWO_INV_SQRT3)))
  }

  /** 1/2 and sqrt(3)/2 in 1.31 format. */
  const HALF := 0x4000_0000
  const HALF_SQRT3 := 0x6ED9_EBA1

  function InvClarke(ialpha: Q31, ibeta: Q31): (Q31, Q31)
  {
    (ialpha, QSub(Product(ibeta, HALF_SQRT3), Product(ialpha, HALF)))
  }

  /** Product with a 2.30 constant, narrowed to 32 bits. */
  function Scaled30(x: Q31, factor: Q31): Q31
  {
    Wrap31(x * factor / 0x4000_0000)
  }

  /** The narrowing of the second product, before the saturating addition, keeps its value
      exactly up to 0.866 of full scale; beyond that it is off by 2^32. */
  lemma ClarkeProductFits(ib: Q31)
    ensures Scaled30(ib, TWO_INV_SQRT3) == ib * TWO_INV_SQRT3 / 0x4000_0000
            <==> -1859775393 <= ib <= 1859775393
    ensures ib > 1859775393 ==> Scaled30(ib, TWO_INV_SQRT3) == ib * TWO_INV_SQRT3 / 0x4000_0000 - 0x1_0000_0000
    ensures ib < -1859775393 ==> Scaled30(ib, TWO_INV_SQRT3) == ib * TWO_INV_SQRT3 / 0x4000_0000 + 0x1_0000_0000
  {
    WrapCases(ib * TWO_INV_SQRT3 / 0x4000_0000);
  }

  lemma WrapCases(x: int)
    requires -0x1_8000_0000 <= x < 0x1_8000_0000
    ensures Wrap31(x) == if x >= 0x8000_0000 then x - 0x1_0000_0000
                         else if x < -0x8000_0000 then x + 0x1_0000_0000 else x
  {
  }

  /** The exact sum that the forward transform saturates. */
  function ClarkeSum(ia: Q31, ib: Q31): int {
    ia * INV_SQRT3 / 0x4000_0000 + ib * TWO_INV_SQRT3 / 0x4000_0000
  }

  /** The product keeps its value and the sum does not saturate. */
  predicate ClarkeFits(ia: Q31, ib: Q31) {
    -1859775393 <= ib <= 1859775393 && FitsQ31(ClarkeSum(ia, ib))
  }

  /** The round trip returns the first phase unchanged and the second within three units below
      and two above. */
  ghost predicate ClarkeReturns(ia: Q31, ib: Q31) {
    var (alpha, beta) := Clarke(ia, ib);
    var (a, b) := InvClarke(alpha, beta);
    a == ia && -3 <= b - ib <= 2
  }

  /** The difference that the inverse transform saturates. */
  function Difference(ia: Q31, beta: Q31): int {
    beta * HALF_SQRT3 / 0x8000_0000 - ia * HALF / 0x8000_0000
  }

  lemma ProductsFit(ia: Q31, beta: Q31)
    ensures Scaled30(ia, INV_SQRT3) == ia * INV_SQRT3 / 0x4000_0000
    ensures Product(ia, HALF) == ia * HALF / 0x8000_0000
    ensures Product(beta, HALF_SQRT3) == beta * HALF_SQRT3 / 0x8000_0000
  {
    WrapCases(ia * INV_SQRT3 / 0x4000_0000);
    ProductExact(ia, HALF);
    ProductExact(beta, HALF_SQRT3);
  }

  /** The forward transform on all phases: the first is copied; the second result is the clamp of
      the weighted sum of the phases by 1/sqrt(3) and 2/sqrt(3), rounded down twice, where beyond
      0.866 of full scale the second weighted phase is off by 2^32. */
  lemma ClarkeExact(ia: Q31, ib: Q31) returns (v: int)
    ensures Clarke(ia, ib) == (ia, Clamp(v, -0x8000_0000, 0x7FFF_FFFF))
    ensures var off := if ib > 1859775393 then 0x1_0000_0000 else if ib < -1859775393 then -0x1_0000_0000 else 0;
            && 0 <= ia * 0x24F3_4E8B + ib * 0x49E6_9D16 - 0x4000_0000 * (v + off) < 2 * 0x4000_0000
            && v + off == ia * 0x24F3_4E8B / 0x4000_0000 + ib * 0x49E6_9D16 / 0x4000_0000
  {
    ClarkeProductFits(ib);
    ProductsFit(ia, 0);
    v := Scaled30(ia, INV_SQRT3) + Scaled30(ib, TWO_INV_SQRT3);
    TwoFloors30(ia * INV_SQRT3, ib * TWO_INV_SQRT3);
  }

  lemma TwoFloors30(p: int, q: int)
    ensures 0 <= p + q - 0x4000_0000 * (p / 0x4000_0000 + q / 0x4000_0000) < 2 * 0x4000_0000
  {
  }

  /** The inverse transform on all inputs, whether or not they come from the forward one: the
      first is copied; the second result is the clamp of their difference weighted by sqrt(3)/2
      and 1/2, up to one unit in either direction. */
  lemma InvClarkeExact(ialpha: Q31, ibeta: Q31) returns (v: int)
    ensures InvClarke(ialpha, ibeta) == (ialpha, Clamp(v, -0x8000_0000, 0x7FFF_FFFF))
    ensures -0x8000_0000 < ibeta * 0x6ED9_EBA1 - ialpha * 0x4000_0000 - 0x8000_0000 * v < 0x8000_0000
    ensures v == ibeta * 0x6ED9_EBA1 / 0x8000_0000 - ialpha * 0x4000_0000 / 0x8000_0000
  {
    ProductsFit(ialpha, ibeta);
    v := Difference(ialpha, ibeta);
    var r := DifferenceOfFloors(ibeta * HALF_SQRT3, ialpha * HALF);
  }

  /** Both transforms for a phase whose product fits: clamp, rotate back, clamp. */
  lemma ClarkeThere(ia: Q31, ib: Q31)
    requires -1859775393 <= ib <= 1859775393
    ensures var (alpha, beta) := Clarke(ia, ib);
            && alpha == ia && beta == Clamp(ClarkeSum(ia, ib), -0x8000_0000, 0x7FFF_FFFF)
            && InvClarke(alpha, beta) == (ia, Clamp(Difference(ia, beta), -0x8000_0000, 0x7FFF_FFFF))
  {
    var (alpha, beta) := Clarke(ia, ib);
    ClarkeProductFits(ib);
    ProductsFit(ia, beta);
  }

  /** The truncations of a sum that fits ... */
  lemma ClarkeTruncation(ia: Q31, ib: Q31)
    requires ClarkeFits(ia, ib)
    ensures -3 <= Difference(ia, ClarkeSum(ia, ib)) - ib <= 2
  {
  }

  /** What a saturated sum returns depends on one combination of the phases, because one constant
      of the forward transform is twice the other. */
  lemma ClarkeSaturation(ia: Q31, ib: Q31)
    requires -1859775393 <= ib <= 1859775393
    ensures var half := (ia + 2 * ib) / 2;
            && (ClarkeSum(ia, ib) >= 0x8000_0000 ==>
                  Returned(ia, 0x7FFF_FFFF) - ib == 1859775392 - half && 1859775393 <= half)
            && (ClarkeSum(ia, ib) < -0x8000_0000 ==>
                  Returned(ia, -0x8000_0000) - ib == -1859775393 - half && half <= -1859775392)
  {
    PhaseSum(ia * INV_SQRT3, ib * TWO_INV_SQRT3, ia + 2 * ib);
    assert 0x7FFF_FFFF * HALF_SQRT3 / 0x8000_0000 == 1859775392;
    assert -0x8000_0000 * HALF_SQRT3 / 0x8000_0000 == -1859775393;
    HalfPhase(ia, ib);
  }

  function Returned(ia: Q31, beta: Q31): int {
    Clamp(Difference(ia, beta), -0x8000_0000, 0x7FFF_FFFF)
  }

  lemma PhaseSum(p: int, q: int, t: int)
    requires p + q == t * INV_SQRT3
    ensures p / 0x4000_0000 + q / 0x4000_0000 >= 0x8000_0000 ==> t >= 3719550786
    ensures p / 0x4000_0000 + q / 0x4000_0000 < -0x8000_0000 ==> t <= -3719550784
    ensures p / 0x4000_0000 + q / 0x4000_0000 >= 0x8000_0003 ==> t >= 3719550792
    ensures p / 0x4000_0000 + q / 0x4000_0000 <= -0x8000_0004 ==> t <= -3719550791
  {
    DivModIdentity(p, 0x4000_0000);
    DivModIdentity(q, 0x4000_0000);
  }

  lemma HalfPhase(ia: int, ib: int)
    ensures ia * HALF / 0x8000_0000 + ib == (ia + 2 * ib) / 2
  {
    DivModUnique(ia * HALF, 0x8000_0000, ia / 2, ia % 2 * HALF);
  }

  /** The phases that return: the product keeps its value, and where the sum saturates the phases
      lie close enough to the edge of the range. */
  predicate ClarkeRecovers(ia: Q31, ib: Q31) {
    && -1859775393 <= ib <= 1859775393
    && (ClarkeSum(ia, ib) >= 0x8000_0000 ==> (ia + 2 * ib) / 2 <= 1859775395)
    && (ClarkeSum(ia, ib) < -0x8000_0000 ==> -1859775395 <= (ia + 2 * ib) / 2)
  }

  /** Clarke followed by inverse Clarke returns exactly these phases. */
  lemma ClarkeRoundTripIff(ia: Q31, ib: Q31)
    ensures ClarkeReturns(ia, ib) <==> ClarkeRecovers(ia, ib)
  {
    if -1859775393 <= ib <= 1859775393 {
      ClarkeThere(ia, ib);
      ClarkeSaturation(ia, ib);
      if ClarkeFits(ia, ib) {
        ClarkeTruncation(ia, ib);
      }
    } else {
      ClarkeWraps(ia, ib);
    }
  }

  /** In terms of the sum alone: a sum that fits returns, and one that saturates by four units or
      more does not. */
  lemma ClarkeMargin(ia: Q31, ib: Q31)
    ensures ClarkeFits(ia, ib) ==> ClarkeReturns(ia, ib)
    ensures ClarkeSum(ia, ib) >= 0x8000_0003 || ClarkeSum(ia, ib) <= -0x8000_0004 ==> !ClarkeReturns(ia, ib)
  {
    ClarkeRoundTripIff(ia, ib);
    PhaseSum(ia * INV_SQRT3, ib * TWO_INV_SQRT3, ia + 2 * ib);
  }

  /** The margin is needed: a sum that saturates by three units can still return. */
  lemma ThreeUnitsReturn(ia: Q31, ib: Q31)
    requires ia == 291 && ib == 1859775250
    ensures ClarkeSum(ia, ib) == 0x8000_0002 && ClarkeReturns(ia, ib)
  {
    hide ClarkeReturns;
    ClarkeRoundTripIff(ia, ib);
  }

  /** Beyond that the product wraps in spite of the saturating addition, and the second phase
      comes back wrong by more than half of full scale. */
  lemma ClarkeWraps(ia: Q31, ib: Q31)
    requires ib < -1859775393 || 1859775393 < ib
    ensures var (alpha, beta) := Clarke(ia, ib);
            var (_, b) := InvClarke(alpha, beta);
            b - ib < -0x4000_0000 || 0x4000_0000 < b - ib
  {
    var (alpha, beta) := Clarke(ia, ib);
    ClarkeProductFits(ib);
    ProductsFit(ia, beta);
    WrappedBack(ia, ib, beta);
  }

  lemma WrappedBack(ia: Q31, ib: Q31, beta: Q31)
    requires ib < -1859775393 || 1859775393 < ib
    requires var wrong := if ib > 0 then -0x1_0000_0000 else 0x1_0000_0000;
             beta == Clamp(ClarkeSum(ia, ib) + wrong, -0x8000_0000, 0x7FFF_FFFF)
    ensures var b := Clamp(beta * HALF_SQRT3 / 0x8000_0000 - ia * HALF / 0x8000_0000, -0x8000_0000, 0x7FFF_FFFF);
            b - ib < -0x4000_0000 || 0x4000_0000 < b - ib
  {
  }
}
