/** The software bit loops `__CLZ` and `__RBIT` and the rotation `__ROR`.
    A word is its value, bit i is the quotient by 2^i modulo 2, a left shift is multiplication
    truncated to 32 bits, and or-ing disjoint fields is addition. */
module Bits {
  import opened Words

  function Bit(v: nat, i: nat): (b: nat)
    ensures b <= 1
  {
    v / Pow2(i) % 2
  }

  /** The low `n` bits of `v` in reverse order. */
  function Reverse(v: nat, n: nat): (r: nat)
    ensures r < Pow2(n)
  {
    if n == 0 then 0 else v % 2 * Pow2(n - 1) + Reverse(v / 2, n - 1)
  }

  // ---- Count leading zeros ----

  ghost predicate IsLeadingZeros(data: U32, c: nat) {
    if data == 0 then c == 32 else c <= 31 && Pow2(31 - c) <= data < Pow2(32 - c)
  }

  method Clz(data: U32) returns (count: nat)
    ensures IsLeadingZeros(data, count)
  {
    if data == 0 {
      return 32;
    }
    count := 0;
    var mask := 0x8000_0000;
    Pow2Of32();
    while data / mask % 2 == 0
      invariant count <= 31 && mask == Pow2(31 - count)
      invariant data < 2 * mask
      decreases 31 - count
    {
      SmallQuotient(data, mask);
      count := count + 1;
      mask := mask / 2;
    }
    if data < mask {
      DivZero(data, mask);
    }
  }

  lemma SmallQuotient(data: nat, mask: nat)
    requires 0 < mask && data < 2 * mask && data / mask % 2 == 0
    ensures data < mask
  {
    if data >= mask {
      DivModUnique(data, mask, 1, data - mask);
    }
  }

  lemma Pow2Of32()
    ensures Pow2(30) == 0x4000_0000 && Pow2(31) == 0x8000_0000 && Pow2(32) == 0x1_0000_0000
  {
    assert Pow2(8) == 0x100;
    Pow2Add(8, 8);
    Pow2Add(16, 8);
    Pow2Add(24, 6);
  }

  /** The bounds determine the count. */
  lemma LeadingZerosUnique(data: U32, c: nat, d: nat)
    requires IsLeadingZeros(data, c) && IsLeadingZeros(data, d)
    ensures c == d
  {
    if data != 0 {
      if c < d {
        Pow2Monotone(32 - d, 31 - c);
      } else if d < c {
        Pow2Monotone(32 - c, 31 - d);
      }
    }
  }

  /** Shifting left by one less than the count moves a positive 31-bit number to [2^30, 2^31). */
  lemma Normalises(data: nat, c: nat)
    requires 0 < data < 0x8000_0000 && IsLeadingZeros(data, c)
    ensures c >= 1 && 0x4000_0000 <= data * Pow2(c - 1) < 0x8000_0000
  {
    Pow2Of32();
    assert c >= 1;
    Pow2Add(31 - c, c - 1);
    Pow2Add(32 - c, c - 1);
    MulMonotone(Pow2(31 - c), data, Pow2(c - 1));
    MulMonotone(data + 1, Pow2(32 - c), Pow2(c - 1));
    MulDistributes(data, 1, Pow2(c - 1));
  }

  // ---- Bit reversal ----

  method Rbit(v: U32) returns (result: U32)
    ensures result == Reverse(v, 32)
  {
    var s := 31;
    var value := v / 2;
    result := v;
    ReverseStart(v);
    while value != 0
      invariant 0 <= s <= 31
      invariant value == v / Pow2(32 - s)
      invariant result == Pending(v, 32 - s)
      decreases s
    {
      EnoughShifts(v, s);
      ReverseStep(v, 32 - s);
      result := ToU32(result * 2);
      result := result + value % 2;
      s := s - 1;
      value := value / 2;
    }
    ReverseEnd(v, 32 - s);
    result := ToU32(result * Pow2(s));
  }

  /** The word under construction after `k` bits: the reversed low bits of `v`, below what is
      left of its upper bits. */
  ghost function Pending(v: nat, k: nat): U32 {
    ToU32(v / 2 * Pow2(k) + Reverse(v, k))
  }

  lemma EnoughShifts(v: U32, s: nat)
    requires s <= 31 && v / Pow2(32 - s) != 0
    ensures s > 0
  {
    Pow2Of32();
    if s == 0 {
      DivZero(v, Pow2(32));
    }
  }

  /** Before the loop the result is the word itself, whose lowest bit is its reversed prefix. */
  lemma ReverseStart(v: U32)
    ensures v / Pow2(1) == v / 2 && Pending(v, 1) == v
  {
    assert Pow2(1) == 2 && Pow2(0) == 1;
    assert Reverse(v, 1) == v % 2 * Pow2(0) + Reverse(v / 2, 0);
  }

  /** One iteration doubles the unread upper part and appends the next bit. */
  lemma ReverseStep(v: nat, k: nat)
    ensures v / Pow2(k) / 2 == v / Pow2(k + 1)
    ensures ToU32(Pending(v, k) * 2) + v / Pow2(k) % 2 == Pending(v, k + 1)
  {
    DivDiv(v, Pow2(k), 2);
    ReverseSnoc(v, k);
    MulAssociates(v / 2, 2, Pow2(k));
    var x := v / 2 * Pow2(k) + Reverse(v, k);
    AppendBit(x, Bit(v, k));
  }

  lemma AppendBit(x: int, b: int)
    requires 0 <= b <= 1
    ensures ToU32(ToU32(x) * 2) + b == ToU32(2 * x + b)
  {
    var m := 0x1_0000_0000;
    var q, r := x / m, x % m;
    if r < 0x8000_0000 {
      DivModUnique(2 * x + b, m, 2 * q, 2 * r + b);
    } else {
      DivModUnique(2 * x + b, m, 2 * q + 1, 2 * r + b - m);
    }
  }

  /** When no bit is left, the final shift pushes the upper part out of the word. */
  lemma ReverseEnd(v: nat, k: nat)
    requires k <= 32 && v / Pow2(k) == 0
    ensures ToU32(Pending(v, k) * Pow2(32 - k)) == Reverse(v, 32)
  {
    var s := 32 - k;
    QuotientZero(v, Pow2(k));
    ReverseShort(v, k, s);
    Pow2Of32();
    Pow2Add(k, s);
    ShiftOut(v / 2, Reverse(v, k), Pow2(k), Pow2(s));
  }

  lemma ShiftOut(high: int, low: int, p: int, q: int)
    requires p * q == 0x1_0000_0000 && 0 <= low * q < 0x1_0000_0000
    ensures ToU32(ToU32(high * p + low) * q) == low * q
  {
    hide ToU32;
    ShiftedSum(high, low, p, q, 0x1_0000_0000);
    ModTimes(high * p + low, q);
    DropMultiple(high, low * q);
    SmallWord(low * q);
  }

  lemma ShiftedSum(high: int, low: int, p: int, q: int, m: int)
    requires p * q == m
    ensures (high * p + low) * q == high * m + low * q
  {
    MulDistributes(high * p, low, q);
    MulAssociates(high, p, q);
  }

  lemma SmallWord(x: int)
    requires 0 <= x < 0x1_0000_0000
    ensures ToU32(x) == x
  {
  }

  lemma QuotientZero(v: nat, m: nat)
    requires m > 0 && v / m == 0
    ensures v < m
  {
  }

  lemma ModTimes(x: int, p: int)
    ensures ToU32(ToU32(x) * p) == ToU32(x * p)
  {
    var q := x / 0x1_0000_0000;
    MulDistributes(q * 0x1_0000_0000, ToU32(x), p);
    MulAssociates(q, 0x1_0000_0000, p);
    DropMultiple(q * p, ToU32(x) * p);
  }

  lemma DropMultiple(k: int, y: int)
    ensures ToU32(k * 0x1_0000_0000 + y) == ToU32(y)
  {
  }

  lemma {:induction false} ReverseSnoc(v: nat, n: nat)
    ensures Reverse(v, n + 1) == 2 * Reverse(v, n) + Bit(v, n)
  {
    if n == 0 {
      BitZero(v);
      assert Reverse(v, 1) == v % 2 * Pow2(0) + Reverse(v / 2, 0);
    } else {
      ReverseSnoc(v / 2, n - 1);
      BitTail(v, n);
      assert Reverse(v, n + 1) == v % 2 * Pow2(n) + Reverse(v / 2, n);
      assert Pow2(n) == 2 * Pow2(n - 1);
      MulAssociates(v % 2, 2, Pow2(n - 1));
    }
  }

  /** Bit n of v is bit n-1 of v/2. */
  lemma BitTail(v: nat, n: nat)
    requires n > 0
    ensures Bit(v, n) == Bit(v / 2, n - 1)
  {
    DivDiv(v, 2, Pow2(n - 1));
  }

  lemma {:induction false} ReverseShort(v: nat, n: nat, extra: nat)
    requires v < Pow2(n)
    ensures Reverse(v, n + extra) == Reverse(v, n) * Pow2(extra)
  {
    if extra == 0 {
    } else {
      ReverseShort(v, n, extra - 1);
      Pow2Monotone(n, n + extra - 1);
      var m := n + extra - 1;
      assert Bit(v, m) == 0 by {
        DivZero(v, Pow2(m));
      }
      ReverseSnoc(v, m);
      MulAssociates(Reverse(v, n), 2, Pow2(extra - 1));
    }
  }

  /** Bits of a number assembled from a high and a low part. */
  lemma BitOfSum(high: nat, low: nat, n: nat, i: nat)
    requires low < Pow2(n)
    ensures i < n ==> Bit(high * Pow2(n) + low, i) == Bit(low, i)
    ensures i >= n ==> Bit(high * Pow2(n) + low, i) == Bit(high, i - n)
  {
    var x := high * Pow2(n) + low;
    if i < n {
      var p := Pow2(n - i - 1);
      Pow2Add(n - i, i);
      MulAssociates(high, 2 * p, Pow2(i));
      DivModIdentity(low, Pow2(i));
      MulDistributes(high * (2 * p), low / Pow2(i), Pow2(i));
      DivModUnique(x, Pow2(i), high * (2 * p) + low / Pow2(i), low % Pow2(i));
      EvenPlus(high, p, low / Pow2(i));
    } else {
      DivModUnique(x, Pow2(n), high, low);
      Pow2Add(n, i - n);
      DivDiv(x, Pow2(n), Pow2(i - n));
    }
  }

  lemma EvenPlus(h: int, p: int, x: int)
    ensures (h * (2 * p) + x) % 2 == x % 2
  {
    MulAssociates(h, 2, p);
    assert h * (2 * p) + x == 2 * (h * p) + x;
  }

  lemma BitZero(v: nat)
    ensures Bit(v, 0) == v % 2
  {
    assert Pow2(0) == 1;
  }

  /** Reversal puts bit i at position n-1-i. */
  lemma {:induction false} ReverseBit(v: nat, n: nat, i: nat)
    requires i < n
    ensures Bit(Reverse(v, n), i) == Bit(v, n - 1 - i)
  {
    BitOfSum(v % 2, Reverse(v / 2, n - 1), n - 1, i);
    if i < n - 1 {
      ReverseBit(v / 2, n - 1, i);
      BitTail(v, n - 1 - i);
    } else {
      BitZero(v);
      BitZero(v % 2);
    }
  }

  /** Numbers of n bits with equal bits are equal. */
  lemma {:induction false} BitsExtensional(a: nat, b: nat, n: nat)
    requires a < Pow2(n) && b < Pow2(n)
    requires forall i | 0 <= i < n :: Bit(a, i) == Bit(b, i)
    ensures a == b
  {
    if n == 0 {
    } else {
      assert Bit(a, 0) == Bit(b, 0);
      forall i | 0 <= i < n - 1
        ensures Bit(a / 2, i) == Bit(b / 2, i)
      {
        BitTail(a, i + 1);
        BitTail(b, i + 1);
        assert Bit(a, i + 1) == Bit(b, i + 1);
      }
      BitsExtensional(a / 2, b / 2, n - 1);
    }
  }

  /** Reversing the 32 bits twice restores the word. */
  lemma RbitInvolution(v: U32)
    ensures Reverse(v, 32) < 0x1_0000_0000
    ensures Reverse(Reverse(v, 32), 32) == v
  {
    Pow2Of32();
    var w := Reverse(v, 32);
    forall i | 0 <= i < 32
      ensures Bit(Reverse(w, 32), i) == Bit(v, i)
    {
      ReverseBit(w, 32, i);
      ReverseBit(v, 32, 31 - i);
    }
    BitsExtensional(Reverse(w, 32), v, 32);
  }

  // ---- Rotation ----

  function Ror(op1: U32, op2: U32): U32
  {
    var k := op2 % 32;
    if k == 0 then op1
    else
      RotateParts(op1, k);
      op1 / Pow2(k) + ToU32(op1 * Pow2(32 - k))
  }

  lemma RotateParts(x: U32, k: nat)
    requires 0 < k < 32
    ensures ToU32(x * Pow2(32 - k)) == x % Pow2(k) * Pow2(32 - k)
    ensures 0 <= x / Pow2(k) < Pow2(32 - k)
    ensures x / Pow2(k) + x % Pow2(k) * Pow2(32 - k) < 0x1_0000_0000
  {
    Pow2Of32();
    Pow2Add(k, 32 - k);
    SplitProduct(x, Pow2(k), Pow2(32 - k), 0x1_0000_0000);
  }

  lemma SplitProduct(x: nat, p: nat, q: nat, m: nat)
    requires 0 < p && 0 < q && p * q == m && x < m
    ensures x * q % m == x % p * q
    ensures 0 <= x / p < q
    ensures x / p + x % p * q < m
  {
    DivModIdentity(x, p);
    var d, r := x / p, x % p;
    MulDistributes(d * p, r, q);
    MulAssociates(d, p, q);
    MulMonotone(r + 1, p, q);
    MulDistributes(r, 1, q);
    MulMonotone(0, r, q);
    DivModUnique(x * q, m, d, r * q);
    DivBelow(x, p, q);
  }

  /** Rotation right by k moves bit (i+k) mod 32 to position i. */
  lemma RorBit(x: U32, k: U32, i: nat)
    requires i < 32
    ensures Bit(Ror(x, k), i) == Bit(x, (i + k) % 32)
  {
    hide Bit, Pow2;
    var r := k % 32;
    if r == 0 {
      RotatedIndex(i, k);
    } else {
      RotatedIndex(i, k);
      RotateParts(x, r);
      DivModIdentity(x, Pow2(r));
      SwappedBit(x / Pow2(r), x % Pow2(r), r, i);
    }
  }

  lemma RotatedIndex(i: nat, k: nat)
    requires i < 32
    ensures (i + k) % 32 == if i < 32 - k % 32 then i + k % 32 else i + k % 32 - 32
  {
  }

  /** Swapping the two parts of a word moves every bit by the width of the lower part. */
  lemma SwappedBit(low: nat, high: nat, r: nat, i: nat)
    requires 0 < r < 32 && i < 32
    requires low < Pow2(32 - r) && high < Pow2(r)
    ensures Bit(high * Pow2(32 - r) + low, i)
         == Bit(low * Pow2(r) + high, if i < 32 - r then i + r else i + r - 32)
  {
    BitOfSum(high, low, 32 - r, i);
    BitOfSum(low, high, r, if i < 32 - r then i + r else i + r - 32);
  }

  lemma RotationsAdd(i: int, a: int, b: int)
    ensures ((i + b) % 32 + a) % 32 == (i + (a + b)) % 32
  {
  }

  /** Rotations compose by adding their amounts. */
  lemma RorCompose(x: U32, a: U32, b: U32)
    requires a + b < 0x1_0000_0000
    ensures Ror(Ror(x, a), b) == Ror(x, a + b)
  {
    Pow2Of32();
    forall i | 0 <= i < 32
      ensures Bit(Ror(Ror(x, a), b), i) == Bit(Ror(x, a + b), i)
    {
      RorBit(Ror(x, a), b, i);
      RorBit(x, a, (i + b) % 32);
      RorBit(x, a + b, i);
      RotationsAdd(i, a, b);
    }
    BitsExtensional(Ror(Ror(x, a), b), Ror(x, a + b), 32);
  }
}
