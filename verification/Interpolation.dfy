/** Linear and bilinear table interpolation of CMSIS/arm_math.h.
    Coordinates are in 12.20 format: x / 2^20 is the table index and x mod 2^20 the fraction.
    A table is a sequence whose length is the source's nValues. */
module Interpolation {
  import opened Words

  // ---- The polygon through the table ----

  /** The weighted sum of two neighbouring entries.  The weights add up to 2^20 - 1. */
  function Weighted(y0: int, y1: int, fract: int): int {
    y0 * (0xF_FFFF - fract) + y1 * fract
  }

  /** The missing unit of weight takes one from a positive value after truncation. */
  function Shrunk(y: int): int {
    if y > 0 then y - 1 else y
  }

  lemma WeightedBounds(y0: int, y1: int, fract: int)
    requires 0 <= fract <= 0xF_FFFF
    ensures 0xF_FFFF * Min(y0, y1) <= Weighted(y0, y1, fract) <= 0xF_FFFF * Max(y0, y1)
  {
    var lo, hi := Min(y0, y1), Max(y0, y1);
    MulMonotone(lo, y0, 0xF_FFFF - fract);
    MulMonotone(y0, hi, 0xF_FFFF - fract);
    MulMonotone(lo, y1, fract);
    MulMonotone(y1, hi, fract);
  }

  lemma WeightedMonotone(y0: int, y1: int, f: int, f': int)
    requires y0 <= y1 && f <= f'
    ensures Weighted(y0, y1, f) <= Weighted(y0, y1, f')
  {
    MulMonotone(y0, y1, f' - f);
  }

  ghost predicate NonDecreasing(table: seq<int>) {
    forall i, j | 0 <= i <= j < |table| :: table[i] <= table[j]
  }

  /** The unscaled interpolation at `x` inside the table. */
  function Poly(table: seq<int>, x: int): int
    requires 0 <= x / 0x10_0000 < |table| - 1
  {
    Weighted(table[x / 0x10_0000], table[x / 0x10_0000 + 1], x % 0x10_0000)
  }

  /** Neighbouring segments meet at the shared entry, so the polygon of a non-decreasing table
      is non-decreasing across segments. */
  lemma PolyMonotone(table: seq<int>, x: int, x': int)
    requires NonDecreasing(table) && x <= x'
    requires 0 <= x / 0x10_0000 && x' / 0x10_0000 < |table| - 1
    ensures Poly(table, x) <= Poly(table, x')
  {
    var i, i' := x / 0x10_0000, x' / 0x10_0000;
    if i == i' {
      WeightedMonotone(table[i], table[i + 1], x % 0x10_0000, x' % 0x10_0000);
    } else {
      WeightedBounds(table[i], table[i + 1], x % 0x10_0000);
      WeightedBounds(table[i'], table[i' + 1], x' % 0x10_0000);
      assert table[i + 1] <= table[i'];
    }
  }

  // ---- Linear interpolation, Q15 and Q7 ----

  function SegmentQ15(y0: Q15, y1: Q15, fract: nat): (r: Q15)
    requires fract <= 0xF_FFFF
    ensures r == Weighted(y0, y1, fract) / 0x10_0000
    ensures Shrunk(Min(y0, y1)) <= r <= Max(y0, y1)
  {
    ProductBound(y0, 0xF_FFFF - fract, 0x8000, 0xF_FFFF);
    ProductBound(y1, fract, 0x8000, 0xF_FFFF);
    WeightedBounds(y0, y1, fract);
    var y: Q63 := y0 * (0xF_FFFF - fract);
    var sum: Q63 := y + y1 * fract;
    Wrap15Of(sum / 0x10_0000, 0);
    Wrap15(sum / 0x10_0000)
  }

  function LinearQ15(table: seq<Q15>, x: Q31): Q15
    requires 1 <= |table| <= 0x8000_0000
  {
    var index := x / 0x10_0000;
    if index >= |table| - 1 then table[|table| - 1]
    else if index < 0 then table[0]
    else SegmentQ15(table[index], table[index + 1], x % 0x10_0000)
  }

  /** The Q7 segment is computed in 32-bit arithmetic. */
  function SegmentQ7(y0: Q7, y1: Q7, fract: nat): (r: Q7)
    requires fract <= 0xF_FFFF
    ensures r == Weighted(y0, y1, fract) / 0x10_0000
    ensures Shrunk(Min(y0, y1)) <= r <= Max(y0, y1)
  {
    ProductBound(y0, 0xF_FFFF - fract, 0x80, 0xF_FFFF);
    ProductBound(y1, fract, 0x80, 0xF_FFFF);
    WeightedBounds(y0, y1, fract);
    var y: Q31 := y0 * (0xF_FFFF - fract);
    var sum: Q31 := y + y1 * fract;
    Wrap7Of(sum / 0x10_0000, 0);
    Wrap7(sum / 0x10_0000)
  }

  function LinearQ7(table: seq<Q7>, x: Q31): Q7
    requires 1 <= |table| < 0x1_0000_0000
  {
    if x < 0 then table[0]
    else
      var index := x / 0x10_0000 % 0x1000;
      if index >= |table| - 1 then table[|table| - 1]
      else SegmentQ7(table[index], table[index + 1], x % 0x10_0000)
  }

  /** The common curve: clamped at both ends, truncated polygon in between. */
  function Curve(table: seq<int>, x: int): int
    requires 1 <= |table|
  {
    var index := x / 0x10_0000;
    if index >= |table| - 1 then table[|table| - 1]
    else if index < 0 then table[0]
    else Poly(table, x) / 0x10_0000
  }

  /** Entries small enough for the missing unit of weight to cost less than one. */
  ghost predicate Small(table: seq<int>) {
    forall i | 0 <= i < |table| :: -0x8000 <= table[i] < 0x8000
  }

  /** The truncated polygon lies in the hull of the two entries, extended by one unit below. */
  lemma PolyHull(table: seq<int>, x: int)
    requires Small(table) && 0 <= x / 0x10_0000 < |table| - 1
    ensures var i := x / 0x10_0000;
            Shrunk(Min(table[i], table[i + 1])) <= Poly(table, x) / 0x10_0000 <= Max(table[i], table[i + 1])
  {
    var i := x / 0x10_0000;
    WeightedBounds(table[i], table[i + 1], x % 0x10_0000);
  }

  /** Neither narrowing loses anything: both formats compute the common curve. */
  lemma LinearQ15IsCurve(table: seq<Q15>, x: Q31)
    requires 1 <= |table| <= 0x8000_0000
    ensures LinearQ15(table, x) == Curve(table, x)
  {
  }

  lemma LinearQ7IsCurve(table: seq<Q7>, x: Q31)
    requires 1 <= |table| < 0x1_0000_0000
    ensures LinearQ7(table, x) == Curve(table, x)
  {
    IndexBits(x);
  }

  lemma IndexBits(x: Q31)
    ensures x < 0 <==> x / 0x10_0000 < 0
    ensures x >= 0 ==> x / 0x10_0000 % 0x1000 == x / 0x10_0000 < 0x800
  {
  }

  /** The Q15 result for every table and coordinate: the first entry below the table, the last one
      from its index on, and in between the weighted sum of the two neighbours, rounded down. */
  lemma LinearQ15Value(table: seq<Q15>, x: Q31)
    requires 1 <= |table| <= 0x8000_0000
    ensures var i, f, r := x / 0x10_0000, x % 0x10_0000, LinearQ15(table, x);
            && (i < 0 ==> r == table[0])
            && (|table| - 1 <= i ==> r == table[|table| - 1])
            && (0 <= i < |table| - 1 ==>
                  0 <= table[i] * (0xF_FFFF - f) + table[i + 1] * f - 0x10_0000 * r < 0x10_0000)
  {
  }

  lemma LinearQ7Value(table: seq<Q7>, x: Q31)
    requires 1 <= |table| < 0x1_0000_0000
    ensures var i, f, r := x / 0x10_0000, x % 0x10_0000, LinearQ7(table, x);
            && (i < 0 ==> r == table[0])
            && (|table| - 1 <= i ==> r == table[|table| - 1])
            && (0 <= i < |table| - 1 ==>
                  0 <= table[i] * (0xF_FFFF - f) + table[i + 1] * f - 0x10_0000 * r < 0x10_0000)
  {
    IndexBits(x);
  }

  /** Linear interpolation of a non-decreasing table is non-decreasing on all coordinates that
      are not negative, across segments and into the upper clamp. */
  lemma CurveMonotone(table: seq<int>, x: int, x': int)
    requires 1 <= |table| && Small(table) && NonDecreasing(table) && 0 <= x <= x'
    ensures Curve(table, x) <= Curve(table, x')
  {
    var i, i' := x / 0x10_0000, x' / 0x10_0000;
    if i' < |table| - 1 {
      PolyMonotone(table, x, x');
    } else if i < |table| - 1 {
      PolyHull(table, x);
      assert table[i + 1] <= table[|table| - 1];
    }
  }

  lemma LinearQ15Monotone(table: seq<Q15>, x: Q31, x': Q31)
    requires 1 <= |table| <= 0x8000_0000 && NonDecreasing(table) && 0 <= x <= x'
    ensures LinearQ15(table, x) <= LinearQ15(table, x')
  {
    LinearQ15IsCurve(table, x);
    LinearQ15IsCurve(table, x');
    CurveMonotone(table, x, x');
  }

  lemma LinearQ7Monotone(table: seq<Q7>, x: Q31, x': Q31)
    requires 1 <= |table| < 0x1_0000_0000 && NonDecreasing(table) && 0 <= x <= x'
    ensures LinearQ7(table, x) <= LinearQ7(table, x')
  {
    LinearQ7IsCurve(table, x);
    LinearQ7IsCurve(table, x');
    CurveMonotone(table, x, x');
  }

  /** At a table point the curve is the entry when that is not positive, and one less when it
      is: the weight of an entry never reaches one. */
  lemma CurveAtPoint(table: seq<int>, i: nat)
    requires i < |table| - 1 && Small(table)
    ensures Curve(table, i * 0x10_0000) == Shrunk(table[i])
  {
    DivModUnique(i * 0x10_0000, 0x10_0000, i, 0);
    assert Poly(table, i * 0x10_0000) == table[i] * 0xF_FFFF;
  }

  ghost predicate MonotoneEverywhere(table: seq<int>)
    requires 1 <= |table|
  {
    forall x: Q31, x': Q31 | x <= x' :: Curve(table, x) <= Curve(table, x')
  }

  /** On all coordinates, negative ones included, monotonicity holds exactly for tables of one
      entry or with a first entry that is not positive: below zero the curve returns the first
      entry itself, at zero one less when that entry is positive. */
  lemma MonotoneEverywhereIff(table: seq<int>)
    requires 1 <= |table| && Small(table) && NonDecreasing(table)
    ensures MonotoneEverywhere(table) <==> |table| == 1 || table[0] <= 0
  {
    if |table| > 1 && table[0] > 0 {
      CurveAtPoint(table, 0);
      var below: Q31, zero: Q31 := -1, 0;
      assert Curve(table, below) > Curve(table, zero);
    } else {
      forall x: Q31, x': Q31 | x <= x'
        ensures Curve(table, x) <= Curve(table, x')
      {
        if x >= 0 {
          CurveMonotone(table, x, x');
        } else if x' >= 0 && |table| > 1 {
          CurveMonotone(table, 0, x');
          CurveAtPoint(table, 0);
        }
      }
    }
  }

  lemma LinearQ15MonotoneEverywhereIff(table: seq<Q15>)
    requires 1 <= |table| <= 0x8000_0000 && NonDecreasing(table)
    ensures (forall x: Q31, x': Q31 | x <= x' :: LinearQ15(table, x) <= LinearQ15(table, x'))
       <==> |table| == 1 || table[0] <= 0
  {
    forall x: Q31
      ensures LinearQ15(table, x) == Curve(table, x)
    {
      LinearQ15IsCurve(table, x);
    }
    MonotoneEverywhereIff(table);
  }

  lemma LinearQ7MonotoneEverywhereIff(table: seq<Q7>)
    requires 1 <= |table| < 0x1_0000_0000 && NonDecreasing(table)
    ensures (forall x: Q31, x': Q31 | x <= x' :: LinearQ7(table, x) <= LinearQ7(table, x'))
       <==> |table| == 1 || table[0] <= 0
  {
    forall x: Q31
      ensures LinearQ7(table, x) == Curve(table, x)
    {
      LinearQ7IsCurve(table, x);
    }
    MonotoneEverywhereIff(table);
  }

  /** A signed coordinate reaches only the indices up to 2047, so entries from index 2049 on
      cannot influence the result although tables of 4096 entries are announced as supported. */
  lemma UpperEntriesUnused(s: seq<int>, t: seq<int>, x: Q31)
    requires |s| == |t| > 2048 && s[..2049] == t[..2049]
    ensures Curve(s, x) == Curve(t, x)
  {
    IndexBits(x);
    SamePrefix(s, t, x / 0x10_0000);
  }

  /** Both entries of a reachable segment, and the first entry, lie in the common prefix. */
  lemma SamePrefix(s: seq<int>, t: seq<int>, i: int)
    requires |s| == |t| > 2048 && s[..2049] == t[..2049] && i < 2048
    ensures s[0] == t[0] && (0 <= i ==> s[i] == t[i] && s[i + 1] == t[i + 1])
  {
    assert s[..2049][0] == t[..2049][0];
    if 0 <= i {
      assert s[..2049][i] == t[..2049][i] && s[..2049][i + 1] == t[..2049][i + 1];
    }
  }

  lemma LinearQ15UpperEntriesUnused(s: seq<Q15>, t: seq<Q15>, x: Q31)
    requires 2048 < |s| == |t| <= 0x8000_0000 && s[..2049] == t[..2049]
    ensures LinearQ15(s, x) == LinearQ15(t, x)
  {
    LinearQ15IsCurve(s, x);
    LinearQ15IsCurve(t, x);
    UpperEntriesUnused(s, t, x);
  }

  lemma LinearQ7UpperEntriesUnused(s: seq<Q7>, t: seq<Q7>, x: Q31)
    requires 2048 < |s| == |t| < 0x1_0000_0000 && s[..2049] == t[..2049]
    ensures LinearQ7(s, x) == LinearQ7(t, x)
  {
    LinearQ7IsCurve(s, x);
    LinearQ7IsCurve(t, x);
    UpperEntriesUnused(s, t, x);
  }

  lemma LinearQ31UpperEntriesUnused(s: seq<Q31>, t: seq<Q31>, x: Q31)
    requires 2048 < |s| == |t| <= 0x8000_0000 && s[..2049] == t[..2049]
    ensures LinearQ31(s, x) == LinearQ31(t, x)
  {
    IndexBits(x);
    SamePrefix(s, t, x / 0x10_0000);
  }

  // ---- Linear interpolation, Q31 ----

  /** The two weighted entries, with the fraction in 1.31 format. */
  function LeftTerm(y0: int, fract: int): int { y0 * (0x7FFF_FFFF - fract * 0x800) }

  function RightTerm(y1: int, fract: int): int { y1 * (fract * 0x800) }

  /** The exact weighted sum.  The weights add up to 2^31 - 1. */
  function WeightedQ31(y0: int, y1: int, fract: int): int {
    LeftTerm(y0, fract) + RightTerm(y1, fract)
  }

  /** Both products are truncated to 2.30 format separately and their sum is doubled; neither
      the sum nor the final left shift leaves 32 bits. */
  function SegmentQ31(y0: Q31, y1: Q31, fract: nat): (r: Q31)
    requires fract <= 0xF_FFFF
    ensures var exact := WeightedQ31(y0, y1, fract);
            exact - 4 * 0x8000_0000 < r * 0x8000_0000 <= exact && r % 2 == 0
    ensures Min(y0, y1) - 4 <= r <= Max(y0, y1)
  {
    hide High, WeightedQ31;
    SegmentFacts(y0, y1, fract);
    DoubledSum(High(LeftTerm(y0, fract)), High(RightTerm(y1, fract)))
  }

  /** The upper word of a product: its floor in 2.30 format. */
  function High(p: int): int { p / 0x1_0000_0000 }

  function DoubledSum(u: int, v: int): (r: Q31)
    requires -0x4000_0000 <= u < 0x4000_0000 && -0x4000_0000 <= u + v < 0x4000_0000
    ensures r == (u + v) * 2 && r % 2 == 0
  {
    var y: Q31 := u;
    var sum: Q31 := y + v;
    sum * 2
  }

  lemma SegmentFacts(y0: Q31, y1: Q31, fract: nat)
    requires fract <= 0xF_FFFF
    ensures var u, v := High(LeftTerm(y0, fract)), High(RightTerm(y1, fract));
            var sum, exact := u + v, WeightedQ31(y0, y1, fract);
            && -0x4000_0000 <= u < 0x4000_0000 && -0x4000_0000 <= sum < 0x4000_0000
            && exact - 4 * 0x8000_0000 < sum * 2 * 0x8000_0000 <= exact
            && Min(y0, y1) - 4 <= sum * 2 <= Max(y0, y1)
  {
    HalfRange(y0, 0x7FFF_FFFF - fract * 0x800);
    HalfRange(y1, fract * 0x800);
    var p, q := LeftTerm(y0, fract), RightTerm(y1, fract);
    var u, v := p / 0x1_0000_0000, q / 0x1_0000_0000;
    SumRange(u, v, fract);
    TwoFloors(p, q);
    WeightedQ31Bounds(y0, y1, fract);
    LowestSum(y0, y1, u, v, fract);
    Hull((u + v) * 2, p + q, Min(y0, y1), Max(y0, y1));
  }

  lemma LowestSum(y0: Q31, y1: Q31, u: int, v: int, fract: nat)
    requires fract <= 0xF_FFFF
    requires y0 == -0x8000_0000 ==> u == -((0x8000_0000 - fract * 0x800) / 2)
    requires y1 == -0x8000_0000 ==> v == -((fract * 0x800 + 1) / 2)
    ensures Max(y0, y1) == -0x8000_0000 ==> (u + v) * 2 == -0x8000_0000
  {
    DivModUnique(0x8000_0000 - fract * 0x800, 2, 0x4000_0000 - fract * 0x400, 0);
    DivModUnique(fract * 0x800 + 1, 2, fract * 0x400, 1);
  }

  lemma SumRange(u: int, v: int, fract: nat)
    requires fract <= 0xF_FFFF
    requires -((0x8000_0000 - fract * 0x800) / 2) <= u <= (0x7FFF_FFFF - fract * 0x800) / 2
    requires -((fract * 0x800 + 1) / 2) <= v <= fract * 0x800 / 2
    ensures -0x4000_0000 <= u + v < 0x4000_0000
  {
  }

  /** A truncated product with a weight w lies between -(w+1)/2 and w/2; equality of both
      extremes needs the minimal entry. */
  lemma HalfRange(y: Q31, w: nat)
    requires w <= 0x7FFF_FFFF
    ensures -((w + 1) / 2) <= y * w / 0x1_0000_0000 <= w / 2
    ensures y == -0x8000_0000 ==> y * w / 0x1_0000_0000 == -((w + 1) / 2)
  {
    MulMonotone(-0x8000_0000, y, w);
    MulMonotone(y, 0x7FFF_FFFF, w);
  }

  lemma Hull(r: int, exact: int, lo: Q31, hi: Q31)
    requires exact - 4 * 0x8000_0000 < r * 0x8000_0000 <= exact
    requires 0x7FFF_FFFF * lo <= exact <= 0x7FFF_FFFF * hi
    requires hi == -0x8000_0000 ==> r == -0x8000_0000
    ensures lo - 4 <= r <= hi
  {
  }

  lemma WeightedQ31Bounds(y0: int, y1: int, fract: int)
    requires 0 <= fract <= 0xF_FFFF
    ensures 0x7FFF_FFFF * Min(y0, y1) <= WeightedQ31(y0, y1, fract) <= 0x7FFF_FFFF * Max(y0, y1)
  {
    var lo, hi, f := Min(y0, y1), Max(y0, y1), fract * 0x800;
    MulMonotone(lo, y0, 0x7FFF_FFFF - f);
    MulMonotone(y0, hi, 0x7FFF_FFFF - f);
    MulMonotone(lo, y1, f);
    MulMonotone(y1, hi, f);
  }

  lemma TwoFloors(p: int, q: int)
    ensures var r := 2 * (p / 0x1_0000_0000 + q / 0x1_0000_0000);
            p + q - 4 * 0x8000_0000 < r * 0x8000_0000 <= p + q
  {
  }

  function LinearQ31(table: seq<Q31>, x: Q31): Q31
    requires 1 <= |table| <= 0x8000_0000
  {
    var index := x / 0x10_0000;
    if index >= |table| - 1 then table[|table| - 1]
    else if index < 0 then table[0]
    else SegmentQ31(table[index], table[index + 1], x % 0x10_0000)
  }

  /** The Q31 result for every table and coordinate: the clamps at both ends, and in between twice
      the sum of the two weighted neighbours, each rounded down to 2.30 format. */
  lemma LinearQ31Value(table: seq<Q31>, x: Q31)
    requires 1 <= |table| <= 0x8000_0000
    ensures var i, f, r := x / 0x10_0000, x % 0x10_0000, LinearQ31(table, x);
            && (i < 0 ==> r == table[0])
            && (|table| - 1 <= i ==> r == table[|table| - 1])
            && (0 <= i < |table| - 1 ==>
                  r == 2 * (table[i] * (0x7FFF_FFFF - f * 0x800) / 0x1_0000_0000
                              + table[i + 1] * (f * 0x800) / 0x1_0000_0000))
  {
  }

  lemma WeightedQ31Monotone(y0: int, y1: int, f: int, f': int)
    requires y0 <= y1 && f <= f'
    ensures WeightedQ31(y0, y1, f) <= WeightedQ31(y0, y1, f')
  {
    MulMonotone(y0, y1, (f' - f) * 0x800);
  }

  function PolyQ31(table: seq<Q31>, x: Q31): int
    requires 0 <= x / 0x10_0000 < |table| - 1
  {
    WeightedQ31(table[x / 0x10_0000], table[x / 0x10_0000 + 1], x % 0x10_0000)
  }

  /** The exact weighted sum of a non-decreasing table is non-decreasing across segments. */
  lemma ExactMonotone(table: seq<Q31>, x: Q31, x': Q31)
    requires NonDecreasing(table) && x <= x'
    requires 0 <= x / 0x10_0000 && x' / 0x10_0000 < |table| - 1
    ensures PolyQ31(table, x) <= PolyQ31(table, x')
  {
    var i, i' := x / 0x10_0000, x' / 0x10_0000;
    if i == i' {
      WeightedQ31Monotone(table[i], table[i + 1], x % 0x10_0000, x' % 0x10_0000);
    } else {
      WeightedQ31Bounds(table[i], table[i + 1], x % 0x10_0000);
      WeightedQ31Bounds(table[i'], table[i' + 1], x' % 0x10_0000);
      assert table[i + 1] <= table[i'];
    }
  }

  /** The separate truncations cost the Q31 format strict monotonicity: a non-decreasing table
      can step back by two units, never by more, and never against the upper clamp. */
  lemma LinearQ31NearlyMonotone(table: seq<Q31>, x: Q31, x': Q31)
    requires 1 <= |table| <= 0x8000_0000 && NonDecreasing(table) && 0 <= x <= x'
    ensures LinearQ31(table, x) <= LinearQ31(table, x') + 2
    ensures |table| - 1 <= x' / 0x10_0000 ==> LinearQ31(table, x) <= LinearQ31(table, x')
  {
    var i, i' := x / 0x10_0000, x' / 0x10_0000;
    if i' < |table| - 1 {
      ExactMonotone(table, x, x');
      Within(LinearQ31(table, x), LinearQ31(table, x'), PolyQ31(table, x), PolyQ31(table, x'));
    } else if i < |table| - 1 {
      assert LinearQ31(table, x) <= Max(table[i], table[i + 1]);
      assert table[i + 1] <= table[|table| - 1];
    }
  }

  lemma Within(r: int, r': int, exact: int, exact': int)
    requires r % 2 == 0 && r' % 2 == 0 && exact <= exact'
    requires r * 0x8000_0000 <= exact && exact' - 4 * 0x8000_0000 < r' * 0x8000_0000
    ensures r <= r' + 2
  {
  }

  /** The step back happens already in a table of two small entries, and in a segment that rises
      by two million per step of the index. */
  lemma LinearQ31StepsBack(table: seq<Q31>, x: Q31, steep: seq<Q31>, z: Q31)
    requires table == [18, 21] && x == 466033
    requires steep == [-792709541, -790633262] && z == 657959
    ensures NonDecreasing(table) && LinearQ31(table, x) == LinearQ31(table, x + 1) + 2
    ensures steep[1] - steep[0] == 2076279 && LinearQ31(steep, z) == LinearQ31(steep, z + 1) + 2
  {
    SegmentIs(table, x, 466033, 5, 4);
    SegmentIs(table, x + 1, 466034, 4, 4);
    SegmentIs(steep, z, 657959, -147650634, -248052726);
    SegmentIs(steep, z + 1, 657960, -147650257, -248053104);
  }

  /** A value in the first segment from the truncated products of its two entries. */
  lemma SegmentIs(table: seq<Q31>, x: Q31, fract: nat, u: int, v: int)
    requires |table| == 2 && x == fract <= 0xF_FFFF
    requires 0x1_0000_0000 * u <= table[0] * (0x7FFF_FFFF - fract * 0x800) < 0x1_0000_0000 * (u + 1)
    requires 0x1_0000_0000 * v <= table[1] * (fract * 0x800) < 0x1_0000_0000 * (v + 1)
    ensures LinearQ31(table, x) == (u + v) * 2
  {
    DivModUnique(x, 0x10_0000, 0, fract);
    HighIs(LeftTerm(table[0], fract), u);
    HighIs(RightTerm(table[1], fract), v);
  }

  lemma HighIs(p: int, u: int)
    requires 0x1_0000_0000 * u <= p < 0x1_0000_0000 * (u + 1)
    ensures High(p) == u
  {
    DivModUnique(p, 0x1_0000_0000, u, p - 0x1_0000_0000 * u);
  }

  /** The interpolation between two entries does not step back. */
  ghost predicate SegmentMonotone(y0: Q31, y1: Q31) {
    forall f: nat, f': nat | f <= f' <= 0xF_FFFF :: SegmentQ31(y0, y1, f) <= SegmentQ31(y0, y1, f')
  }

  /** No segment that a coordinate reaches steps back. */
  ghost predicate SegmentsMonotone(table: seq<Q31>) {
    forall i | 0 <= i < |table| - 1 && i < 0x800 :: SegmentMonotone(table[i], table[i + 1])
  }

  ghost predicate MonotoneQ31(table: seq<Q31>)
    requires 1 <= |table| <= 0x8000_0000
  {
    forall x: Q31, x': Q31 | 0 <= x <= x' :: LinearQ31(table, x) <= LinearQ31(table, x')
  }

  /** The value at the start of a segment. */
  lemma SegmentStart(y0: Q31, y1: Q31)
    ensures SegmentQ31(y0, y1, 0) == High(y0 * 0x7FFF_FFFF) * 2
  {
  }

  /** The last value of a segment does not exceed the first one of any later segment. */
  lemma EndMeetsStart(y0: Q31, y1: Q31, z0: Q31, z1: Q31)
    requires y0 <= y1 <= z0
    ensures SegmentQ31(y0, y1, 0xF_FFFF) <= SegmentQ31(z0, z1, 0)
  {
    SegmentStart(z0, z1);
    WeightedQ31Bounds(y0, y1, 0xF_FFFF);
    HighOfSum(LeftTerm(y0, 0xF_FFFF), RightTerm(y1, 0xF_FFFF), z0 * 0x7FFF_FFFF);
  }

  lemma HighOfSum(p: int, q: int, bound: int)
    requires p + q <= bound
    ensures High(p) + High(q) <= High(bound)
  {
  }

  /** Steps back never happen between segments: the whole interpolation is monotone exactly when
      each reachable segment is. */
  lemma LinearQ31MonotoneIff(table: seq<Q31>)
    requires 1 <= |table| <= 0x8000_0000 && NonDecreasing(table)
    ensures MonotoneQ31(table) <==> SegmentsMonotone(table)
  {
    if MonotoneQ31(table) {
      forall i | 0 <= i < |table| - 1 && i < 0x800
        ensures SegmentMonotone(table[i], table[i + 1])
      {
        MonotoneWithin(table, i);
      }
    }
    if SegmentsMonotone(table) {
      forall x: Q31, x': Q31 | 0 <= x <= x'
        ensures LinearQ31(table, x) <= LinearQ31(table, x')
      {
        AcrossSegments(table, x, x');
      }
    }
  }

  lemma MonotoneWithin(table: seq<Q31>, i: nat)
    requires 1 <= |table| <= 0x8000_0000 && MonotoneQ31(table) && i < |table| - 1 && i < 0x800
    ensures SegmentMonotone(table[i], table[i + 1])
  {
    hide SegmentQ31;
    var y0, y1 := table[i], table[i + 1];
    forall f: nat, f': nat | f <= f' <= 0xF_FFFF
      ensures SegmentQ31(y0, y1, f) <= SegmentQ31(y0, y1, f')
    {
      var x: Q31, x': Q31 := i * 0x10_0000 + f, i * 0x10_0000 + f';
      DivModUnique(x, 0x10_0000, i, f);
      DivModUnique(x', 0x10_0000, i, f');
      assert LinearQ31(table, x) <= LinearQ31(table, x');
    }
  }

  lemma AcrossSegments(table: seq<Q31>, x: Q31, x': Q31)
    requires 1 <= |table| <= 0x8000_0000 && NonDecreasing(table) && SegmentsMonotone(table) && 0 <= x <= x'
    ensures LinearQ31(table, x) <= LinearQ31(table, x')
  {
    hide SegmentQ31;
    IndexBits(x);
    IndexBits(x');
    var i, i' := x / 0x10_0000, x' / 0x10_0000;
    if i' >= |table| - 1 {
      LinearQ31NearlyMonotone(table, x, x');
    } else if i == i' {
      assert SegmentMonotone(table[i], table[i + 1]);
    } else {
      assert SegmentMonotone(table[i], table[i + 1]) && SegmentMonotone(table[i'], table[i' + 1]);
      assert SegmentQ31(table[i], table[i + 1], x % 0x10_0000) <= SegmentQ31(table[i], table[i + 1], 0xF_FFFF);
      EndMeetsStart(table[i], table[i + 1], table[i'], table[i' + 1]);
      assert SegmentQ31(table[i'], table[i' + 1], 0) <= SegmentQ31(table[i'], table[i' + 1], x' % 0x10_0000);
    }
  }

  /** A segment that rises by at least 2^21 raises the exact sum by two units of the result at
      every step, so it does not step back. */
  lemma SteepSegment(y0: Q31, y1: Q31)
    requires y0 + 0x20_0000 <= y1
    ensures SegmentMonotone(y0, y1)
  {
    forall f: nat, f': nat | f <= f' <= 0xF_FFFF
      ensures SegmentQ31(y0, y1, f) <= SegmentQ31(y0, y1, f')
    {
      if f < f' {
        RiseWithin(y0, y1, f, f');
        Upwards(SegmentQ31(y0, y1, f), SegmentQ31(y0, y1, f'), WeightedQ31(y0, y1, f), WeightedQ31(y0, y1, f'));
      }
    }
  }

  lemma RiseWithin(y0: int, y1: int, f: int, f': int)
    requires y0 + 0x20_0000 <= y1 && f < f'
    ensures WeightedQ31(y0, y1, f) + 0x1_0000_0000 <= WeightedQ31(y0, y1, f')
  {
    assert WeightedQ31(y0, y1, f') - WeightedQ31(y0, y1, f) == (y1 - y0) * ((f' - f) * 0x800);
    MulMonotone(0x20_0000, y1 - y0, (f' - f) * 0x800);
  }

  lemma Upwards(r: int, r': int, exact: int, exact': int)
    requires r % 2 == 0 && r' % 2 == 0 && exact + 0x1_0000_0000 <= exact'
    requires r * 0x8000_0000 <= exact && exact' - 4 * 0x8000_0000 < r' * 0x8000_0000
    ensures r <= r'
  {
  }

  /** A segment that starts or ends at zero has one truncation only. */
  lemma ZeroSegment(y0: Q31, y1: Q31)
    requires (y0 == 0 <= y1) || (y0 <= 0 == y1)
    ensures SegmentMonotone(y0, y1)
  {
    forall f: nat, f': nat | f <= f' <= 0xF_FFFF
      ensures SegmentQ31(y0, y1, f) <= SegmentQ31(y0, y1, f')
    {
      OneTerm(y0, y1, f, f');
    }
  }

  lemma OneTerm(y0: Q31, y1: Q31, f: nat, f': nat)
    requires (y0 == 0 <= y1) || (y0 <= 0 == y1)
    requires f <= f' <= 0xF_FFFF
    ensures SegmentQ31(y0, y1, f) <= SegmentQ31(y0, y1, f')
  {
    MulMonotone(f * 0x800, f' * 0x800, if y1 >= 0 then y1 else 0);
    MulMonotone(0x7FFF_FFFF - f' * 0x800, 0x7FFF_FFFF - f * 0x800, if y0 <= 0 then 0 - y0 else 0);
    HighMonotone(LeftTerm(y0, f), LeftTerm(y0, f'));
    HighMonotone(RightTerm(y1, f), RightTerm(y1, f'));
  }

  lemma HighMonotone(p: int, p': int)
    requires p <= p'
    ensures High(p) <= High(p')
  {
  }

  /** Tables whose segments all rise by at least 2^21 or touch zero are interpolated without any
      step back, across segments and into the upper clamp. */
  lemma LinearQ31MonotoneIfSteep(table: seq<Q31>)
    requires 1 <= |table| <= 0x8000_0000 && NonDecreasing(table)
    requires forall i | 0 <= i < |table| - 1 ::
      table[i] as int + 0x20_0000 <= table[i + 1] || table[i] == 0 || table[i + 1] == 0
    ensures MonotoneQ31(table)
  {
    forall i | 0 <= i < |table| - 1
      ensures SegmentMonotone(table[i], table[i + 1])
    {
      assert table[i] <= table[i + 1];
      if table[i] as int + 0x20_0000 <= table[i + 1] {
        SteepSegment(table[i], table[i + 1]);
      } else {
        ZeroSegment(table[i], table[i + 1]);
      }
    }
    LinearQ31MonotoneIff(table);
  }

  // ---- Bilinear interpolation, Q7 ----

  /** The accumulator, in the source's order of terms. */
  function Accumulate(x1: int, x2: int, y1: int, y2: int, xf: int, yf: int): int {
    x1 * (0xF_FFFF - xf) * (0xF_FFFF - yf)
    + x2 * (0xF_FFFF - yf) * xf
    + y1 * (0xF_FFFF - xf) * yf
    + y2 * yf * xf
  }

  /** The accumulator is the interpolation along y of two interpolations along x. */
  lemma AccumulateIsNested(x1: int, x2: int, y1: int, y2: int, xf: int, yf: int)
    ensures Accumulate(x1, x2, y1, y2, xf, yf)
         == Weighted(Weighted(x1, x2, xf), Weighted(y1, y2, xf), yf)
  {
    var u, v := 0xF_FFFF - xf, 0xF_FFFF - yf;
    MulDistributes(x1 * u, x2 * xf, v);
    MulAssociates(x2, v, xf);
    MulDistributes(y1 * u, y2 * xf, yf);
    MulAssociates(y2, yf, xf);
  }

  /** The coordinates that pass the source's boundary test.  It compares X, which selects the
      entry within a row, with the number of rows, and Y with the number of columns. */
  predicate PassesGuard(numRows: U16, numCols: U16, X: Q31, Y: Q31) {
    && 0 <= X / 0x10_0000 <= numRows - 1
    && 0 <= Y / 0x10_0000 <= numCols - 1
  }

  /** The last of the four indices read. */
  function LastRead(numCols: U16, X: Q31, Y: Q31): int {
    X / 0x10_0000 + numCols * (Y / 0x10_0000 + 1) + 1
  }

  /** Both entries of the cell in both rows exist: the table is stored row by row. */
  ghost predicate InteriorCell(numRows: U16, numCols: U16, X: Q31, Y: Q31) {
    && 0 <= X / 0x10_0000 < numCols - 1
    && 0 <= Y / 0x10_0000 < numRows - 1
  }

  ghost predicate IsTable(table: seq<Q7>, numRows: U16, numCols: U16) {
    |table| == numRows * numCols
  }

  lemma CellInTable(numRows: U16, numCols: U16, r: int, c: int)
    requires 0 <= r < numCols - 1 && 0 <= c < numRows - 1
    ensures 0 <= numCols * c && r + numCols * (c + 1) + 1 < numRows * numCols
    ensures numCols * (c + 1) == numCols * c + numCols && numCols * (c + 2) <= numRows * numCols
  {
    MulMonotone(c + 2, numRows, numCols);
    MulMonotone(0, c, numCols);
  }

  /** The reads stay inside the table for every coordinate that passes the test in an interior
      cell, and for others up to the end of the table. */
  function BilinearQ7(table: seq<Q7>, numRows: U16, numCols: U16, X: Q31, Y: Q31): Q7
    requires IsTable(table, numRows, numCols)
    requires PassesGuard(numRows, numCols, X, Y) ==> LastRead(numCols, X, Y) < |table|
  {
    if !PassesGuard(numRows, numCols, X, Y) then 0
    else
      var r, c := X / 0x10_0000, Y / 0x10_0000;
      FirstRead(numCols, c);
      CellQ7(table[r + numCols * c], table[r + numCols * c + 1],
             table[r + numCols * (c + 1)], table[r + numCols * (c + 1) + 1],
             X % 0x10_0000, Y % 0x10_0000)
  }

  /** The result for every coordinate whose reads stay inside the table: zero when an index fails
      the boundary test, and otherwise the four entries around it, weighted and rounded down. */
  lemma BilinearQ7Value(table: seq<Q7>, numRows: U16, numCols: U16, X: Q31, Y: Q31)
    requires |table| == numRows * numCols
    requires var r, c := X / 0x10_0000, Y / 0x10_0000;
             0 <= r < numRows && 0 <= c < numCols ==> r + numCols * (c + 1) + 1 < |table|
    ensures var z := BilinearQ7(table, numRows, numCols, X, Y);
            var r, c, u, v := X / 0x10_0000, Y / 0x10_0000, X % 0x10_0000, Y % 0x10_0000;
            if 0 <= r < numRows && 0 <= c < numCols then
              && 0 <= numCols * c <= numCols * (c + 1)
              && 0 <= table[r + numCols * c] * (0xF_FFFF - u) * (0xF_FFFF - v)
                        + table[r + numCols * c + 1] * u * (0xF_FFFF - v)
                        + table[r + numCols * (c + 1)] * (0xF_FFFF - u) * v
                        + table[r + numCols * (c + 1) + 1] * u * v
                        - 0x100_0000_0000 * z < 0x100_0000_0000
            else z == 0
  {
    hide CellQ7;
    var r, c := X / 0x10_0000, Y / 0x10_0000;
    if 0 <= r < numRows && 0 <= c < numCols {
      FirstRead(numCols, c);
      CellValue(table[r + numCols * c], table[r + numCols * c + 1],
        table[r + numCols * (c + 1)], table[r + numCols * (c + 1) + 1], X % 0x10_0000, Y % 0x10_0000);
    }
  }

  lemma CellValue(x1: Q7, x2: Q7, y1: Q7, y2: Q7, u: nat, v: nat)
    requires u <= 0xF_FFFF && v <= 0xF_FFFF
    ensures 0 <= x1 * (0xF_FFFF - u) * (0xF_FFFF - v) + x2 * u * (0xF_FFFF - v) + y1 * (0xF_FFFF - u) * v
                   + y2 * u * v - 0x100_0000_0000 * CellQ7(x1, x2, y1, y2, u, v) < 0x100_0000_0000
  {
    hide CellQ7;
    MulAssociates(x2, 0xF_FFFF - v, u);
    MulAssociates(y2, v, u);
    DivModIdentity(Accumulate(x1, x2, y1, y2, u, v), 0x100_0000_0000);
  }

  lemma FirstRead(numCols: U16, c: nat)
    ensures 0 <= numCols * c <= numCols * (c + 1)
  {
    MulMonotone(0, c, numCols);
    MulDistributes(c, 1, numCols);
  }

  function CellQ7(x1: Q7, x2: Q7, y1: Q7, y2: Q7, xf: nat, yf: nat): (r: Q7)
    requires xf <= 0xF_FFFF && yf <= 0xF_FFFF
    ensures r == Accumulate(x1, x2, y1, y2, xf, yf) / 0x100_0000_0000
    ensures Shrunk(Min(Min(x1, x2), Min(y1, y2))) <= r <= Max(Max(x1, x2), Max(y1, y2))
  {
    CellHull(x1, x2, y1, y2, xf, yf);
    Narrow(AccumulateQ7(x1, x2, y1, y2, xf, yf))
  }

  /** The final shift and cast of an accumulator that is in range. */
  function Narrow(acc: Q63): (r: Q7)
    requires -0x80 <= acc / 0x100_0000_0000 < 0x80
    ensures r == acc / 0x100_0000_0000
  {
    Wrap7Of(acc / 0x100_0000_0000, 0);
    Wrap7(acc / 0x100_0000_0000)
  }

  function AccumulateQ7(x1: Q7, x2: Q7, y1: Q7, y2: Q7, xf: nat, yf: nat): (acc: Q63)
    requires xf <= 0xF_FFFF && yf <= 0xF_FFFF
    ensures acc == Accumulate(x1, x2, y1, y2, xf, yf)
  {
    var acc1 := AddTerm(0, 0, x1, 0xF_FFFF - xf, 0xF_FFFF - yf);
    var acc2 := AddTerm(acc1, 1, x2, 0xF_FFFF - yf, xf);
    var acc3 := AddTerm(acc2, 2, y1, 0xF_FFFF - xf, yf);
    AddTerm(acc3, 3, y2, yf, xf)
  }

  /** One term of the accumulator: a 32-bit product, widened and added in 64 bits; `n` terms
      have been added before. */
  function AddTerm(acc: int, n: int, y: Q7, u: int, v: int): (sum: Q63)
    requires 0 <= n <= 3 && -n * 0x8000_0000_0000 <= acc <= n * 0x8000_0000_0000
    requires 0 <= u <= 0xF_FFFF && 0 <= v <= 0xF_FFFF
    ensures sum == acc + y * u * v
    ensures -(n + 1) * 0x8000_0000_0000 <= sum <= (n + 1) * 0x8000_0000_0000
  {
    Term(y, u, v);
    var out: Q31 := y * u;
    acc + out * v
  }

  lemma Term(y: Q7, u: int, v: int)
    requires 0 <= u <= 0xF_FFFF && 0 <= v <= 0xF_FFFF
    ensures -0x800_0000 <= y * u <= 0x800_0000
    ensures -0x8000_0000_0000 <= y * u * v <= 0x8000_0000_0000
  {
    ProductBound(y, u, 0x80, 0xF_FFFF);
    ProductBound(y * u, v, 0x800_0000, 0x10_0000);
  }

  lemma CellHull(x1: Q7, x2: Q7, y1: Q7, y2: Q7, xf: nat, yf: nat)
    requires xf <= 0xF_FFFF && yf <= 0xF_FFFF
    ensures var r := Accumulate(x1, x2, y1, y2, xf, yf) / 0x100_0000_0000;
            Shrunk(Min(Min(x1, x2), Min(y1, y2))) <= r <= Max(Max(x1, x2), Max(y1, y2))
  {
    AccumulateIsNested(x1, x2, y1, y2, xf, yf);
    WeightedBounds(x1, x2, xf);
    WeightedBounds(y1, y2, xf);
    WeightedBounds(Weighted(x1, x2, xf), Weighted(y1, y2, xf), yf);
  }

  // The rows of the table and the surface they span.

  function Row(table: seq<Q7>, numRows: U16, numCols: U16, c: int): (row: seq<Q7>)
    requires IsTable(table, numRows, numCols) && 0 <= c < numRows
    ensures |row| == numCols
  {
    FirstRead(numCols, c);
    MulMonotone(c + 1, numRows, numCols);
    table[numCols * c..numCols * (c + 1)]
  }

  /** Entry `r` of row `c`. */
  lemma RowEntry(table: seq<Q7>, numRows: U16, numCols: U16, r: int, c: int)
    requires IsTable(table, numRows, numCols) && 0 <= r < numCols && 0 <= c < numRows
    ensures 0 <= r + numCols * c < |table| && Row(table, numRows, numCols, c)[r] == table[r + numCols * c]
  {
    FirstRead(numCols, c);
    MulMonotone(c + 1, numRows, numCols);
  }

  /** The values at coordinate X of the polygons through the rows. */
  ghost function Column(table: seq<Q7>, numRows: U16, numCols: U16, X: Q31): (values: seq<int>)
    requires IsTable(table, numRows, numCols) && 0 <= X / 0x10_0000 < numCols - 1
    ensures |values| == numRows
    ensures forall c | 0 <= c < numRows :: values[c] == Poly(Row(table, numRows, numCols, c), X)
  {
    seq(numRows, c requires 0 <= c < numRows => Poly(Row(table, numRows, numCols, c), X))
  }

  /** Bilinear interpolation is linear interpolation along y of linear interpolations along x,
      truncated once. */
  lemma BilinearIsSurface(table: seq<Q7>, numRows: U16, numCols: U16, X: Q31, Y: Q31)
    requires IsTable(table, numRows, numCols) && InteriorCell(numRows, numCols, X, Y)
    ensures LastRead(numCols, X, Y) < |table|
    ensures PassesGuard(numRows, numCols, X, Y) ==>
      BilinearQ7(table, numRows, numCols, X, Y) == Poly(Column(table, numRows, numCols, X), Y) / 0x100_0000_0000
  {
    var r, c := X / 0x10_0000, Y / 0x10_0000;
    CellInTable(numRows, numCols, r, c);
    var row, next := Row(table, numRows, numCols, c), Row(table, numRows, numCols, c + 1);
    RowEntry(table, numRows, numCols, r, c);
    RowEntry(table, numRows, numCols, r + 1, c);
    RowEntry(table, numRows, numCols, r, c + 1);
    RowEntry(table, numRows, numCols, r + 1, c + 1);
    AccumulateIsNested(row[r], row[r + 1], next[r], next[r + 1], X % 0x10_0000, Y % 0x10_0000);
  }

  /** An interior cell whose coordinates the boundary test lets through. */
  ghost predicate Interpolated(numRows: U16, numCols: U16, X: Q31, Y: Q31) {
    InteriorCell(numRows, numCols, X, Y) && PassesGuard(numRows, numCols, X, Y)
  }

  function Bilinear(table: seq<Q7>, numRows: U16, numCols: U16, X: Q31, Y: Q31): Q7
    requires IsTable(table, numRows, numCols) && Interpolated(numRows, numCols, X, Y)
  {
    CellInTable(numRows, numCols, X / 0x10_0000, Y / 0x10_0000);
    BilinearQ7(table, numRows, numCols, X, Y)
  }

  lemma EdgeOfPoly(row: seq<int>, x: int)
    requires x % 0x10_0000 == 0xF_FFFF && 0 <= x / 0x10_0000 < |row| - 2
    ensures (x + 1) / 0x10_0000 == x / 0x10_0000 + 1
    ensures Poly(row, x) == Poly(row, x + 1)
  {
  }

  /** Neighbouring cells of a row agree on their shared edge: the last coordinate of one cell
      and the first of the next give the same value. */
  lemma SharedEdgeX(table: seq<Q7>, numRows: U16, numCols: U16, X: Q31, X': Q31, Y: Q31)
    requires IsTable(table, numRows, numCols) && X % 0x10_0000 == 0xF_FFFF && X' == X + 1
    requires Interpolated(numRows, numCols, X, Y) && Interpolated(numRows, numCols, X', Y)
    ensures Bilinear(table, numRows, numCols, X, Y) == Bilinear(table, numRows, numCols, X', Y)
  {
    BilinearIsSurface(table, numRows, numCols, X, Y);
    BilinearIsSurface(table, numRows, numCols, X', Y);
    forall c | 0 <= c < numRows
      ensures Column(table, numRows, numCols, X)[c] == Column(table, numRows, numCols, X')[c]
    {
      EdgeOfPoly(Row(table, numRows, numCols, c), X);
    }
    assert Column(table, numRows, numCols, X) == Column(table, numRows, numCols, X');
  }

  /** The same for neighbouring cells of a column. */
  lemma SharedEdgeY(table: seq<Q7>, numRows: U16, numCols: U16, X: Q31, Y: Q31, Y': Q31)
    requires IsTable(table, numRows, numCols) && Y % 0x10_0000 == 0xF_FFFF && Y' == Y + 1
    requires Interpolated(numRows, numCols, X, Y) && Interpolated(numRows, numCols, X, Y')
    ensures Bilinear(table, numRows, numCols, X, Y) == Bilinear(table, numRows, numCols, X, Y')
  {
    BilinearIsSurface(table, numRows, numCols, X, Y);
    BilinearIsSurface(table, numRows, numCols, X, Y');
    EdgeOfPoly(Column(table, numRows, numCols, X), Y);
  }

  ghost predicate RowsNonDecreasing(table: seq<Q7>, numRows: U16, numCols: U16)
    requires IsTable(table, numRows, numCols)
  {
    forall c | 0 <= c < numRows :: NonDecreasing(Row(table, numRows, numCols, c))
  }

  ghost predicate ColumnsNonDecreasing(table: seq<Q7>, numRows: U16, numCols: U16)
    requires IsTable(table, numRows, numCols)
  {
    forall c, c' | 0 <= c <= c' < numRows ::
      Below(Row(table, numRows, numCols, c), Row(table, numRows, numCols, c'))
  }

  ghost predicate Below(s: seq<int>, t: seq<int>) {
    |s| == |t| && forall i | 0 <= i < |s| :: s[i] <= t[i]
  }

  lemma PolyBelow(s: seq<int>, t: seq<int>, x: int)
    requires Below(s, t) && 0 <= x / 0x10_0000 < |s| - 1
    ensures Poly(s, x) <= Poly(t, x)
  {
    var i, f := x / 0x10_0000, x % 0x10_0000;
    MulMonotone(s[i], t[i], 0xF_FFFF - f);
    MulMonotone(s[i + 1], t[i + 1], f);
  }

  /** If every row is non-decreasing the surface is non-decreasing in X, across cells. */
  lemma BilinearMonotoneX(table: seq<Q7>, numRows: U16, numCols: U16, X: Q31, X': Q31, Y: Q31)
    requires IsTable(table, numRows, numCols) && RowsNonDecreasing(table, numRows, numCols) && X <= X'
    requires Interpolated(numRows, numCols, X, Y) && Interpolated(numRows, numCols, X', Y)
    ensures Bilinear(table, numRows, numCols, X, Y) <= Bilinear(table, numRows, numCols, X', Y)
  {
    BilinearIsSurface(table, numRows, numCols, X, Y);
    BilinearIsSurface(table, numRows, numCols, X', Y);
    forall c | 0 <= c < numRows
      ensures Column(table, numRows, numCols, X)[c] <= Column(table, numRows, numCols, X')[c]
    {
      PolyMonotone(Row(table, numRows, numCols, c), X, X');
    }
    PolyBelow(Column(table, numRows, numCols, X), Column(table, numRows, numCols, X'), Y);
  }

  /** If every column is non-decreasing the surface is non-decreasing in Y, across cells. */
  lemma BilinearMonotoneY(table: seq<Q7>, numRows: U16, numCols: U16, X: Q31, Y: Q31, Y': Q31)
    requires IsTable(table, numRows, numCols) && ColumnsNonDecreasing(table, numRows, numCols) && Y <= Y'
    requires Interpolated(numRows, numCols, X, Y) && Interpolated(numRows, numCols, X, Y')
    ensures Bilinear(table, numRows, numCols, X, Y) <= Bilinear(table, numRows, numCols, X, Y')
  {
    BilinearIsSurface(table, numRows, numCols, X, Y);
    BilinearIsSurface(table, numRows, numCols, X, Y');
    var values := Column(table, numRows, numCols, X);
    forall c, c' | 0 <= c <= c' < |values|
      ensures values[c] <= values[c']
    {
      PolyBelow(Row(table, numRows, numCols, c), Row(table, numRows, numCols, c'), X);
    }
    PolyMonotone(values, Y, Y');
  }

  // The boundary test.

  ghost predicate GuardAdmitsAllCells(numRows: U16, numCols: U16) {
    forall X: Q31, Y: Q31 | InteriorCell(numRows, numCols, X, Y) :: PassesGuard(numRows, numCols, X, Y)
  }

  /** The transposed boundary test lets every cell of the table through exactly when neither
      dimension exceeds the other by two or more, up to the 2048 indices a coordinate reaches;
      otherwise it returns zero for cells inside the table. */
  lemma GuardAdmitsAllCellsIff(numRows: U16, numCols: U16)
    ensures GuardAdmitsAllCells(numRows, numCols)
       <==> || numRows < 2 || numCols < 2
            || ((numCols <= numRows + 1 || numRows >= 0x800) && (numRows <= numCols + 1 || numCols >= 0x800))
  {
    if numRows >= 2 && numCols >= 2 {
      if numCols > numRows + 1 && numRows < 0x800 {
        var X: Q31, Y: Q31 := numRows * 0x10_0000, 0;
        assert InteriorCell(numRows, numCols, X, Y) && !PassesGuard(numRows, numCols, X, Y);
      } else if numRows > numCols + 1 && numCols < 0x800 {
        var X: Q31, Y: Q31 := 0, numCols * 0x10_0000;
        assert InteriorCell(numRows, numCols, X, Y) && !PassesGuard(numRows, numCols, X, Y);
      }
    }
  }

  ghost predicate GuardAdmitsOnlyCells(numRows: U16, numCols: U16) {
    forall X: Q31, Y: Q31 | PassesGuard(numRows, numCols, X, Y) :: InteriorCell(numRows, numCols, X, Y)
  }

  /** Nor does the test keep the coordinates inside the cells: it does so only for tables
      without a row or column and for tables beyond the reach of a coordinate in both
      dimensions. */
  lemma GuardAdmitsOnlyCellsIff(numRows: U16, numCols: U16)
    ensures GuardAdmitsOnlyCells(numRows, numCols)
       <==> numRows == 0 || numCols == 0 || (numRows > 0x800 && numCols > 0x800)
  {
    if 0 < numRows <= numCols && numRows <= 0x800 {
      var X: Q31, Y: Q31 := 0, (numRows - 1) * 0x10_0000;
      assert PassesGuard(numRows, numCols, X, Y) && !InteriorCell(numRows, numCols, X, Y);
    } else if 0 < numCols < numRows && numCols <= 0x800 {
      var X: Q31, Y: Q31 := (numCols - 1) * 0x10_0000, 0;
      assert PassesGuard(numRows, numCols, X, Y) && !InteriorCell(numRows, numCols, X, Y);
    }
  }

  ghost predicate ReadsStayInside(numRows: U16, numCols: U16) {
    forall X: Q31, Y: Q31 | PassesGuard(numRows, numCols, X, Y) :: LastRead(numCols, X, Y) < numRows * numCols
  }

  /** The reads stay inside the table for all coordinates that pass the test exactly when the
      largest of them does; tall tables qualify, square ones do not. */
  lemma ReadsStayInsideIff(numRows: U16, numCols: U16)
    ensures ReadsStayInside(numRows, numCols)
       <==> || numRows == 0 || numCols == 0
            || Min(numRows, 0x800) + numCols * Min(numCols, 0x800) < numRows * numCols
  {
    if numRows > 0 && numCols > 0 {
      var X: Q31, Y: Q31 := (Min(numRows, 0x800) - 1) * 0x10_0000, (Min(numCols, 0x800) - 1) * 0x10_0000;
      assert PassesGuard(numRows, numCols, X, Y);
      assert LastRead(numCols, X, Y) == Min(numRows, 0x800) + numCols * Min(numCols, 0x800);
      forall X': Q31, Y': Q31 | PassesGuard(numRows, numCols, X', Y')
        ensures LastRead(numCols, X', Y') <= LastRead(numCols, X, Y)
      {
        MulMonotone(Y' / 0x10_0000 + 1, Y / 0x10_0000 + 1, numCols);
      }
    }
  }

  /** In a table of two by two the last cell passes the test and reads three entries beyond the
      end. */
  lemma TwoByTwoReadsOutside(X: Q31, Y: Q31)
    requires X == Y == 0x10_0000
    ensures PassesGuard(2, 2, X, Y) && LastRead(2, X, Y) == 2 * 2 + 2
  {
  }
}
