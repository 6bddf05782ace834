/** Saturating helpers and packed intrinsics of CMSIS/arm_math.h and CMSIS/cmsis_gcc.h. */
module Saturation {
  import opened Words

  /** Exclusive-or of a non-negative mask with a sign word, which is 0 or all ones. */
  function XorSign(mask: nat, sign: int): int
    requires sign == 0 || sign == -1
  {
    if sign == 0 then mask else -1 - mask
  }

  function ClipQ63ToQ31(x: Q63): (r: Q31)
    ensures r == Clamp(x, -0x8000_0000, 0x7FFF_FFFF)
  {
    if Wrap31(x / 0x1_0000_0000) != Wrap31(x) / 0x8000_0000
    then XorSign(0x7FFF_FFFF, x / 0x8000_0000_0000_0000)
    else Wrap31(x)
  }

  function ClipQ31ToQ15(x: Q31): (r: Q15)
    ensures r == Clamp(x, -0x8000, 0x7FFF)
  {
    if x / 0x1_0000 != x / 0x8000 then XorSign(0x7FFF, x / 0x8000_0000) else Wrap15(x)
  }

  function ClipQ31ToQ7(x: Q31): Q7
  {
    if x / 0x100_0000 != x / 0x80_0000 then XorSign(0x7F, x / 0x8000_0000) else Wrap7(x)
  }

  function ClipQ63ToQ15(x: Q63): Q15
  {
    if Wrap31(x / 0x1_0000_0000) != Wrap31(x) / 0x8000_0000
    then XorSign(0x7FFF, x / 0x8000_0000_0000_0000)
    else Wrap15(x / 0x8000)
  }

  /** The Q7 clip compares the wrong bits: between the Q7 range and +-2^23 it truncates, so it
      clamps there only when the low byte happens to be the saturation value. */
  lemma ClipQ31ToQ7Exact(x: Q31)
    ensures ClipQ31ToQ7(x) == Clamp(x, -0x80, 0x7F) <==>
            || -0x80 <= x <= 0x7F
            || x < -0x80_0000 || x >= 0x80_0000
            || (x > 0x7F && x % 0x100 == 0x7F)
            || (x < -0x80 && x % 0x100 == 0x80)
    ensures -0x80_0000 <= x < 0x80_0000 ==> (ClipQ31ToQ7(x) - x) % 0x100 == 0
    ensures ClipQ31ToQ7(0x80) == -0x80
  {
    hide ClipQ31ToQ7;
    TruncationBand(x);
    TruncationBand(0x80);
  }

  lemma TruncationBand(x: Q31)
    ensures -0x80_0000 <= x < 0x80_0000 ==> ClipQ31ToQ7(x) == Wrap7(x)
    ensures x < -0x80_0000 ==> ClipQ31ToQ7(x) == -0x80
    ensures x >= 0x80_0000 ==> ClipQ31ToQ7(x) == 0x7F
  {
  }

  /** The Q15 clip of a 2.62 value shifts by 15 after testing for 32 bits: it is the clamp of
      the shifted value exactly outside the bands where the shifted value needs 17 bits. */
  lemma ClipQ63ToQ15Exact(x: Q63)
    ensures ClipQ63ToQ15(x) == Clamp(x / 0x8000, -0x8000, 0x7FFF) <==>
            !(0x4000_0000 <= x < 0x8000_0000) && !(-0x8000_0000 <= x < -0x4000_0000)
    ensures -0x8000_0000 <= x < 0x8000_0000 ==> (ClipQ63ToQ15(x) - x / 0x8000) % 0x1_0000 == 0
    ensures ClipQ63ToQ15(0x4000_0000) == -0x8000
  {
    NarrowWords(x);
    if -0x8000_0000 <= x < 0x8000_0000 {
      ShiftedWrap(x / 0x8000);
    }
  }

  /** The word comparison holds exactly for values of 32 bits. */
  lemma NarrowWords(x: Q63)
    ensures Wrap31(x / 0x1_0000_0000) == Wrap31(x) / 0x8000_0000 <==> -0x8000_0000 <= x < 0x8000_0000
    ensures x / 0x8000_0000_0000_0000 == if x < 0 then -1 else 0
  {
  }

  lemma ShiftedWrap(y: int)
    requires -0x1_0000 <= y < 0x1_0000
    ensures Wrap15(y) == Clamp(y, -0x8000, 0x7FFF) <==> -0x8000 <= y < 0x8000
  {
  }

  function QAdd(x: Q31, y: Q31): (r: Q31)
    ensures r == Clamp(x + y, -0x8000_0000, 0x7FFF_FFFF)
  {
    ClipQ63ToQ31(x + y)
  }

  function QSub(x: Q31, y: Q31): (r: Q31)
    ensures r == Clamp(x - y, -0x8000_0000, 0x7FFF_FFFF)
  {
    ClipQ63ToQ31(x - y)
  }

  /** Partial products of the low and high words recombine to the floor of the full
      product; the result types say that neither product nor the sum overflows. */
  function Mult32x64(x: Q63, y: Q31): (r: Q63)
    ensures r == x * y / 0x1_0000_0000
  {
    SplitProduct(x, y);
    var low: Q63 := (x % 0x1_0000_0000) * y;
    var high: Q63 := (x / 0x1_0000_0000) * y;
    low / 0x1_0000_0000 + high
  }

  lemma SplitProduct(x: Q63, y: Q31)
    ensures var low, high := (x % 0x1_0000_0000) * y, (x / 0x1_0000_0000) * y;
            && x * y == low + high * 0x1_0000_0000
            && -0x8000_0000 * 0x1_0000_0000 <= low <= 0x8000_0000 * 0x1_0000_0000
            && -0x8000_0000 * 0x8000_0000 <= high <= 0x8000_0000 * 0x8000_0000
  {
    var l, h := x % 0x1_0000_0000, x / 0x1_0000_0000;
    assert x * y == (l + h * 0x1_0000_0000) * y == l * y + h * y * 0x1_0000_0000;
    ProductBound(l, y, 0x1_0000_0000, 0x8000_0000);
    ProductBound(h, y, 0x8000_0000, 0x8000_0000);
  }

  /** Signed saturation to `sat` bits; other bit counts leave the value alone. */
  function Ssat(val: Q31, sat: U32): (r: Q31)
    ensures 1 <= sat <= 32 ==> r == Clamp(val, -Pow2(sat - 1), Pow2(sat - 1) - 1)
    ensures !(1 <= sat <= 32) ==> r == val
  {
    if 1 <= sat <= 32 then
      var max := Pow2(sat - 1) - 1;
      var min := -1 - max;
      if val > max then max else if val < min then min else val
    else val
  }

  /** The signed 16-bit halves of a packed word: shift up, then arithmetic shift down. */
  function Lo16(x: U32): (r: Q15)
    ensures r == Wrap15(x)
  {
    LowHalf(x);
    Wrap31(Wrap31(x) * 0x1_0000) / 0x1_0000
  }

  function Hi16(x: U32): (r: Q15)
    ensures r == Wrap15(x / 0x1_0000)
  {
    HighHalf(x);
    Wrap31(x) / 0x1_0000
  }

  /** Shifting up by 16 and back down keeps exactly the low half, sign-extended. */
  lemma LowHalf(x: int)
    ensures Wrap31(Wrap31(x) * 0x1_0000) / 0x1_0000 == Wrap15(x)
  {
    var low: int := Wrap15(x);
    var k := (x - low) / 0x1_0000;
    var n := (Wrap31(x) - x) / 0x1_0000_0000;
    assert Wrap31(x) == low + k * 0x1_0000 + n * 0x1_0000_0000;
    Wrap31Of(low * 0x1_0000, k + n * 0x1_0000);
  }

  lemma HighHalf(x: U32)
    ensures Wrap31(x) / 0x1_0000 == Wrap15(x / 0x1_0000)
  {
    var high: int := x / 0x1_0000;
    if x < 0x8000_0000 {
      Wrap31Of(x, 0);
      Wrap15Of(high, 0);
    } else {
      Wrap31Of(x - 0x1_0000_0000, 1);
      Wrap15Of(high - 0x1_0000, 1);
    }
  }

  /** The word that holds `lo` in its low half and `hi` in its high half. */
  function Pack16(lo: Q15, hi: Q15): (r: U32)
    ensures Lo16(r) == lo && Hi16(r) == hi
  {
    var r := hi % 0x1_0000 * 0x1_0000 + lo % 0x1_0000;
    assert r / 0x1_0000 == hi % 0x1_0000;
    HalfOf(lo, hi % 0x1_0000);
    HalfOf(hi, 0);
    r
  }

  lemma HalfOf(v: Q15, rest: int)
    ensures Wrap15(rest * 0x1_0000 + v % 0x1_0000) == v
  {
  }

  lemma PackHalves(w: U32)
    ensures Pack16(Lo16(w), Hi16(w)) == w
  {
    assert Wrap15(w) % 0x1_0000 == w % 0x1_0000;
    assert Wrap15(w / 0x1_0000) % 0x1_0000 == w / 0x1_0000;
  }

  // ---- Lane-wise saturating addition and dual multiply-accumulate ----

  /** The four signed bytes of a packed word, lane 0 lowest. */
  function Lane8(x: U32, lane: nat): Q7
    requires lane < 4
  {
    if lane == 0 then Wrap7(x)
    else if lane == 1 then Wrap7(x / 0x100)
    else if lane == 2 then Wrap7(x / 0x1_0000)
    else Wrap7(x / 0x100_0000)
  }

  function QAdd16(x: U32, y: U32): (z: U32)
    ensures Lo16(z) == Clamp(Lo16(x) + Lo16(y), -0x8000, 0x7FFF)
    ensures Hi16(z) == Clamp(Hi16(x) + Hi16(y), -0x8000, 0x7FFF)
  {
    assert Pow2(15) == 0x8000;
    Pack16(Ssat(Lo16(x) + Lo16(y), 16), Ssat(Hi16(x) + Hi16(y), 16))
  }

  function Pack8(a: Q7, b: Q7, c: Q7, d: Q7): (z: U32)
    ensures Lane8(z, 0) == a && Lane8(z, 1) == b && Lane8(z, 2) == c && Lane8(z, 3) == d
  {
    var r, s, t, u := a % 0x100, b % 0x100, c % 0x100, d % 0x100;
    var z := u * 0x100_0000 + t * 0x1_0000 + s * 0x100 + r;
    assert z / 0x100 == u * 0x1_0000 + t * 0x100 + s;
    assert z / 0x1_0000 == u * 0x100 + t;
    assert z / 0x100_0000 == u;
    LaneOf(a, u * 0x1_0000 + t * 0x100 + s);
    LaneOf(b, u * 0x100 + t);
    LaneOf(c, u);
    LaneOf(d, 0);
    z
  }

  lemma LaneOf(v: Q7, rest: int)
    ensures Wrap7(rest * 0x100 + v % 0x100) == v
  {
  }

  function QAdd8(x: U32, y: U32): (z: U32)
    ensures forall i | 0 <= i < 4 :: Lane8(z, i) == Clamp(Lane8(x, i) + Lane8(y, i), -0x80, 0x7F)
  {
    assert Pow2(7) == 0x80;
    Pack8(
      Ssat(Lane8(x, 0) + Lane8(y, 0), 8),
      Ssat(Lane8(x, 1) + Lane8(y, 1), 8),
      Ssat(Lane8(x, 2) + Lane8(y, 2), 8),
      Ssat(Lane8(x, 3) + Lane8(y, 3), 8))
  }

  /** Sum of the two lane products, in 32-bit arithmetic. */
  function DualProduct(x: U32, y: U32): Q31
  {
    Wrap31(Lo16(x) * Lo16(y) + Hi16(x) * Hi16(y))
  }

  function Smuad(x: U32, y: U32): U32
  {
    ToU32(DualProduct(x, y))
  }

  /** The 64-bit accumulator argument and result are carried as signed values. */
  function Smlald(x: U32, y: U32, sum: Q63): Q63
  {
    Wrap63(DualProduct(x, y) + sum)
  }

  /** The 32-bit sum of two lane products is exact unless all four halves are -32768, when it
      falls short by 2^32. */
  lemma DualProductExact(x: U32, y: U32)
    ensures DualProduct(x, y) == Lo16(x) * Lo16(y) + Hi16(x) * Hi16(y) - Shortfall(Lo16(x), Lo16(y), Hi16(x), Hi16(y))
  {
    LaneProduct(Lo16(x), Lo16(y));
    LaneProduct(Hi16(x), Hi16(y));
    SumOfProducts(Lo16(x) * Lo16(y), Hi16(x) * Hi16(y));
  }

  function Shortfall(a: int, b: int, c: int, d: int): int {
    if a == b == c == d == -0x8000 then 0x1_0000_0000 else 0
  }

  lemma SumOfProducts(p: int, q: int)
    requires -0x4000_0000 <= p <= 0x4000_0000 && -0x4000_0000 <= q <= 0x4000_0000
    ensures Wrap31(p + q) == p + q - if p == q == 0x4000_0000 then 0x1_0000_0000 else 0
  {
  }

  /** The 64-bit accumulation is exact for every sum that fits, and otherwise off by 2^64. */
  lemma SmlaldExact(x: U32, y: U32, sum: Q63)
    ensures var exact := DualProduct(x, y) + sum;
            && (Smlald(x, y, sum) == exact <==> -0x8000_0000_0000_0000 <= exact < 0x8000_0000_0000_0000)
            && (exact >= 0x8000_0000_0000_0000 ==> Smlald(x, y, sum) == exact - 0x1_0000_0000_0000_0000)
            && (exact < -0x8000_0000_0000_0000 ==> Smlald(x, y, sum) == exact + 0x1_0000_0000_0000_0000)
  {
    LongSum(DualProduct(x, y), sum);
  }

  lemma LongSum(a: Q31, b: Q63)
    ensures Wrap63(a + b) == if a + b >= 0x8000_0000_0000_0000 then a + b - 0x1_0000_0000_0000_0000
                             else if a + b < -0x8000_0000_0000_0000 then a + b + 0x1_0000_0000_0000_0000
                             else a + b
  {
  }

  /** The instruction of cores with the DSP extension adds both lane products to the 64-bit
      accumulator, without a 32-bit sum in between. */
  function SmlaldInstruction(x: U32, y: U32, sum: Q63): Q63
  {
    Wrap63(Lo16(x) * Lo16(y) + Hi16(x) * Hi16(y) + sum)
  }

  /** The C fallback for cores without the extension computes what the instruction computes,
      whatever the accumulator, exactly unless all four halves are -32768. */
  lemma FallbackAgreesIff(x: U32, y: U32, sum: Q63)
    ensures Smlald(x, y, sum) == SmlaldInstruction(x, y, sum)
       <==> !(Lo16(x) == Lo16(y) == Hi16(x) == Hi16(y) == -0x8000)
  {
    hide Wrap63, Lo16, Hi16, DualProduct;
    DualProductExact(x, y);
    WrapDistinct(Lo16(x) * Lo16(y) + Hi16(x) * Hi16(y) + sum);
  }

  /** Values 2^32 apart wrap to different 64-bit words. */
  lemma WrapDistinct(a: int)
    ensures Wrap63(a - 0x1_0000_0000) != Wrap63(a)
  {
    assert (a - 0x1_0000_0000 - Wrap63(a - 0x1_0000_0000)) % 0x1_0000_0000_0000_0000 == 0;
  }

  lemma LaneProduct(a: Q15, b: Q15)
    ensures -0x4000_0000 < a * b <= 0x4000_0000
    ensures a * b == 0x4000_0000 <==> a == b == -0x8000
  {
    ProductBound(a, b, 0x8000, 0x8000);
    if a >= -0x7FFF {
      ProductBound(a, b, 0x7FFF, 0x8000);
    } else if b >= -0x7FFF {
      ProductBound(a, b, 0x8000, 0x7FFF);
    }
  }
}
