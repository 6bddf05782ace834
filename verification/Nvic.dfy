/** Interrupt priorities: the grouping arithmetic shared by all cores, and the two layouts of the
    priority registers, bytes on Mainline (CMSIS/core_armv8mml.h) and packed words on Baseline
    (CMSIS/core_armv8mbl.h).  Masks of k low bits are remainders by 2^k, shifts are products and
    quotients by powers of two; `bits` is __NVIC_PRIO_BITS. */
module Nvic {
  import opened Words

  // ---- Encoding under a priority grouping ----

  function PreemptBits(group: nat, bits: nat): nat {
    var g := group % 8;
    if 7 - g > bits then bits else 7 - g
  }

  function SubBits(group: nat, bits: nat): nat {
    var g := group % 8;
    if g + bits < 7 then 0 else g + bits - 7
  }

  function EncodePriority(group: nat, preempt: nat, sub: nat, bits: nat): nat
  {
    preempt % Pow2(PreemptBits(group, bits)) * Pow2(SubBits(group, bits)) + sub % Pow2(SubBits(group, bits))
  }

  function DecodePriority(priority: nat, group: nat, bits: nat): (nat, nat)
  {
    (priority / Pow2(SubBits(group, bits)) % Pow2(PreemptBits(group, bits)), priority % Pow2(SubBits(group, bits)))
  }

  /** The two fields fill exactly the implemented bits. */
  lemma FieldsFill(group: nat, bits: nat)
    requires 1 <= bits <= 8
    ensures PreemptBits(group, bits) + SubBits(group, bits) == bits
    ensures Pow2(PreemptBits(group, bits)) * Pow2(SubBits(group, bits)) == Pow2(bits)
  {
    Pow2Add(PreemptBits(group, bits), SubBits(group, bits));
  }

  /** Decoding an encoded pair returns both values, masked to their fields. */
  lemma DecodeEncode(group: nat, preempt: nat, sub: nat, bits: nat)
    requires 1 <= bits <= 8
    ensures DecodePriority(EncodePriority(group, preempt, sub, bits), group, bits)
         == (preempt % Pow2(PreemptBits(group, bits)), sub % Pow2(SubBits(group, bits)))
    ensures EncodePriority(group, preempt, sub, bits) < Pow2(bits)
  {
    var p, s := Pow2(PreemptBits(group, bits)), Pow2(SubBits(group, bits));
    FieldsFill(group, bits);
    Compose(preempt % p, sub % s, p, s);
    DivZero(preempt % p, p);
  }

  lemma Compose(x: nat, y: nat, p: nat, s: nat)
    requires x < p && y < s
    ensures x * s + y < p * s && (x * s + y) / s == x && (x * s + y) % s == y
  {
    MulMonotone(x + 1, p, s);
    MulDistributes(x, 1, s);
    DivModUnique(x * s + y, s, x, y);
  }

  /** Encoding a decoded priority returns it, masked to the implemented bits. */
  lemma EncodeDecode(group: nat, priority: nat, bits: nat)
    requires 1 <= bits <= 8
    ensures var (preempt, sub) := DecodePriority(priority, group, bits);
            EncodePriority(group, preempt, sub, bits) == priority % Pow2(bits)
  {
    var p, s := Pow2(PreemptBits(group, bits)), Pow2(SubBits(group, bits));
    FieldsFill(group, bits);
    Recompose(priority, p, s);
    DivZero(priority / s % p, p);
    DivZero(priority % s, s);
  }

  lemma Recompose(x: nat, p: nat, s: nat)
    requires p > 0 && s > 0
    ensures x / s % p * s + x % s == x % (p * s)
  {
    DivModIdentity(x, s);
    DivModIdentity(x / s, p);
    var q, r := x / s / p, x / s % p;
    MulDistributes(q * p, r, s);
    MulAssociates(q, p, s);
    Compose(r, x % s, p, s);
    DivModUnique(x, p * s, q, r * s + x % s);
  }

  /** Codes are ordered like pairs: first by preemption priority, then by subpriority. */
  lemma EncodeOrder(group: nat, p: nat, s: nat, p': nat, s': nat, bits: nat)
    requires 1 <= bits <= 8
    requires p < Pow2(PreemptBits(group, bits)) && p' < Pow2(PreemptBits(group, bits))
    requires s < Pow2(SubBits(group, bits)) && s' < Pow2(SubBits(group, bits))
    ensures EncodePriority(group, p, s, bits) < EncodePriority(group, p', s', bits)
       <==> p < p' || (p == p' && s < s')
  {
    var m, n := Pow2(PreemptBits(group, bits)), Pow2(SubBits(group, bits));
    DivZero(p, m);
    DivZero(p', m);
    DivZero(s, n);
    DivZero(s', n);
    PairOrder(p, s, p', s', n);
  }

  lemma PairOrder(x: int, y: int, x': int, y': int, n: int)
    requires 0 <= y < n && 0 <= y' < n
    ensures x * n + y < x' * n + y' <==> x < x' || (x == x' && y < y')
  {
    if x < x' {
      MulMonotone(x + 1, x', n);
      MulDistributes(x, 1, n);
    } else if x' < x {
      MulMonotone(x' + 1, x, n);
      MulDistributes(x', 1, n);
    }
  }

  // ---- The priority byte and its interpretation by the hardware ----

  /** What a priority write puts into the register byte: the priority in the upper bits. */
  function PriorityByte(priority: nat, bits: nat): (b: nat)
    requires 1 <= bits <= 8
    ensures b < 0x100
  {
    priority * Pow2(8 - bits) % 0x100
  }

  /** The group priority of a byte: the field above PRIGROUP (section B1.5.4 of DDI 0403). */
  function GroupPriority(b: nat, group: nat): nat
    requires group < 8
  {
    DivNonNegative(b, Pow2(group + 1));
    b / Pow2(group + 1)
  }

  function ReadPriority(b: nat, bits: nat): nat
    requires 1 <= bits <= 8
  {
    DivNonNegative(b, Pow2(8 - bits));
    b / Pow2(8 - bits)
  }

  lemma Pow2Of8()
    ensures Pow2(8) == 0x100
  {
  }

  /** Writing and reading back a priority masks it to the implemented bits; the bits below are
      zero. */
  lemma ReadBack(priority: nat, bits: nat)
    requires 1 <= bits <= 8
    ensures ReadPriority(PriorityByte(priority, bits), bits) == priority % Pow2(bits)
    ensures PriorityByte(priority, bits) == priority % Pow2(bits) * Pow2(8 - bits)
  {
    Pow2Of8();
    Pow2Add(bits, 8 - bits);
    ShiftedMask(priority, Pow2(bits), Pow2(8 - bits));
  }

  lemma ShiftedMask(x: nat, p: nat, s: nat)
    requires p > 0 && s > 0
    ensures x * s % (p * s) == x % p * s && x % p * s / s == x % p
  {
    DivModIdentity(x, p);
    MulDistributes(x / p * p, x % p, s);
    MulAssociates(x / p, p, s);
    MulMonotone(x % p + 1, p, s);
    MulDistributes(x % p, 1, s);
    MulMonotone(0, x % p, s);
    DivModUnique(x * s, p * s, x / p, x % p * s);
    DivModUnique(x % p * s, s, x % p, 0);
  }

  /** The group priority that the hardware reads from an encoded priority is the preemption
      priority, scaled by a power of two when fewer bits are implemented than the grouping
      offers. */
  lemma GroupPriorityOfCode(group: nat, p: nat, s: nat, bits: nat)
    requires group < 8 && 1 <= bits <= 8
    requires p < Pow2(PreemptBits(group, bits)) && s < Pow2(SubBits(group, bits))
    ensures GroupPriority(PriorityByte(EncodePriority(group, p, s, bits), bits), group)
         == p * Pow2(7 - group - PreemptBits(group, bits))
  {
    hide Pow2, PreemptBits, SubBits, EncodePriority, PriorityByte;
    ByteOfCode(group, p, s, bits);
    FieldWidths(group, bits);
    if group + bits <= 7 {
      NarrowField(p, s, 7 - group - bits, group + 1, 8 - bits);
    } else {
      WideField(p, s, group + bits - 7, 8 - bits, group + 1);
    }
  }

  lemma FieldWidths(group: nat, bits: nat)
    requires group < 8
    ensures group + bits <= 7 ==> PreemptBits(group, bits) == bits && SubBits(group, bits) == 0
    ensures group + bits > 7 ==> PreemptBits(group, bits) == 7 - group && SubBits(group, bits) == group + bits - 7
  {
  }

  /** Without a subpriority field the group priority is the code, moved up by `e` bits. */
  lemma NarrowField(p: nat, s: nat, e: nat, g: nat, k: nat)
    requires s < Pow2(0) && k == e + g
    ensures (p * Pow2(0) + s) * Pow2(k) / Pow2(g) == p * Pow2(e)
  {
    Unscaled(p);
    Pow2Add(e, g);
    WholeQuotient(p, Pow2(e), Pow2(g));
  }

  lemma Unscaled(p: nat)
    ensures Pow2(0) == 1 && p * Pow2(0) == p
  {
  }

  /** With one it is what remains above the `f` bits of that field and the `k` unused bits. */
  lemma WideField(p: nat, s: nat, f: nat, k: nat, g: nat)
    requires s < Pow2(f) && g == f + k
    ensures (p * Pow2(f) + s) * Pow2(k) / Pow2(g) == p * Pow2(0)
  {
    Unscaled(p);
    Pow2Add(f, k);
    PartQuotient(p, s, Pow2(f), Pow2(k));
  }

  /** A code fits the implemented bits, so its byte is the code moved up. */
  lemma ByteOfCode(group: nat, p: nat, s: nat, bits: nat)
    requires group < 8 && 1 <= bits <= 8
    requires p < Pow2(PreemptBits(group, bits)) && s < Pow2(SubBits(group, bits))
    ensures PriorityByte(EncodePriority(group, p, s, bits), bits)
         == (p * Pow2(SubBits(group, bits)) + s) * Pow2(8 - bits)
  {
    DivZero(p, Pow2(PreemptBits(group, bits)));
    DivZero(s, Pow2(SubBits(group, bits)));
    DecodeEncode(group, p, s, bits);
    ByteOfSmall(p * Pow2(SubBits(group, bits)) + s, bits);
  }

  lemma ByteOfSmall(code: nat, bits: nat)
    requires 1 <= bits <= 8 && code < Pow2(bits)
    ensures PriorityByte(code, bits) == code * Pow2(8 - bits)
  {
    Pow2Of8();
    Pow2Add(bits, 8 - bits);
    ShiftedMask(code, Pow2(bits), Pow2(8 - bits));
    DivZero(code, Pow2(bits));
  }

  lemma WholeQuotient(p: nat, m: nat, n: nat)
    requires n > 0
    ensures p * (m * n) / n == p * m
  {
    MulAssociates(p, m, n);
    DivModUnique(p * (m * n), n, p * m, 0);
  }

  lemma PartQuotient(p: nat, s: nat, m: nat, n: nat)
    requires s < m && n > 0
    ensures m * n > 0 && (p * m + s) * n / (m * n) == p
  {
    MulDistributes(p * m, s, n);
    MulAssociates(p, m, n);
    MulMonotone(s + 1, m, n);
    MulDistributes(s, 1, n);
    MulMonotone(0, s, n);
    DivModUnique((p * m + s) * n, m * n, p, s * n);
  }

  lemma ScaleOrder(p: int, p': int, n: int)
    requires n > 0
    ensures p * n < p' * n <==> p < p'
  {
    PairOrder(p, 0, p', 0, n);
  }

  /** One interrupt preempts another by group priority exactly when its preemption priority is
      lower. */
  lemma PreemptionOrder(group: nat, p: nat, s: nat, p': nat, s': nat, bits: nat)
    requires group < 8 && 1 <= bits <= 8
    requires p < Pow2(PreemptBits(group, bits)) && p' < Pow2(PreemptBits(group, bits))
    requires s < Pow2(SubBits(group, bits)) && s' < Pow2(SubBits(group, bits))
    ensures GroupPriority(PriorityByte(EncodePriority(group, p, s, bits), bits), group)
          < GroupPriority(PriorityByte(EncodePriority(group, p', s', bits), bits), group)
       <==> p < p'
  {
    GroupPriorityOfCode(group, p, s, bits);
    GroupPriorityOfCode(group, p', s', bits);
    ScaleOrder(p, p', Pow2(7 - group - PreemptBits(group, bits)));
  }

  // ---- The abstract store and its two layouts ----

  /** Priority bytes by interrupt number; negative numbers are system exceptions. */
  type Store = map<int, nat>

  /** Exceptions with a priority register on Mainline and on Baseline, and external interrupts. */
  predicate OnMainline(irq: int) { -12 <= irq < 496 }

  predicate OnBaseline(irq: int) { -8 <= irq < 496 }

  datatype Setting = Setting(irq: int, priority: U32)

  /** The store after a run of settings. */
  function RunSettings(m: Store, settings: seq<Setting>, bits: nat): Store
    requires 1 <= bits <= 8
  {
    if settings == [] then m
    else
      var n := |settings| - 1;
      RunSettings(m, settings[..n], bits)[settings[n].irq := PriorityByte(settings[n].priority, bits)]
  }

  /** After any run each interrupt reads back the priority it was set to last, masked to the
      implemented bits. */
  lemma {:induction false} LastSettingWins(m: Store, settings: seq<Setting>, k: nat, bits: nat)
    requires 1 <= bits <= 8 && k < |settings|
    requires forall i | k < i < |settings| :: settings[i].irq != settings[k].irq
    ensures settings[k].irq in RunSettings(m, settings, bits)
    ensures RunSettings(m, settings, bits)[settings[k].irq] == PriorityByte(settings[k].priority, bits)
    ensures ReadPriority(RunSettings(m, settings, bits)[settings[k].irq], bits) == settings[k].priority % Pow2(bits)
  {
    var n := |settings| - 1;
    if k < n {
      LastSettingWins(m, settings[..n], k, bits);
      assert settings[n].irq != settings[k].irq;
    } else {
      ReadBack(settings[k].priority, bits);
    }
  }

  /** Interrupts without a setting in the run keep their byte. */
  lemma {:induction false} OthersKeep(m: Store, settings: seq<Setting>, irq: int, bits: nat)
    requires 1 <= bits <= 8 && irq in m
    requires forall i | 0 <= i < |settings| :: settings[i].irq != irq
    ensures irq in RunSettings(m, settings, bits) && RunSettings(m, settings, bits)[irq] == m[irq]
  {
    if settings == [] {
    } else {
      var n := |settings| - 1;
      OthersKeep(m, settings[..n], irq, bits);
      assert settings[n].irq != irq;
    }
  }

  ghost predicate Agree(mainline: Store, baseline: Store) {
    forall irq | OnBaseline(irq) :: irq in mainline && irq in baseline && mainline[irq] == baseline[irq]
  }

  // Mainline: one byte register per interrupt.

  /** Index into SHPR: the low four bits of the exception number, less four. */
  function MainlineIndex(irq: int): nat
    requires OnMainline(irq)
  {
    if irq >= 0 then irq else irq % 16 - 4
  }

  lemma OwnByte(i: int, j: int)
    requires OnMainline(i) && OnMainline(j)
    ensures (i >= 0 <==> j >= 0) && MainlineIndex(i) == MainlineIndex(j) ==> i == j
  {
  }

  class MainlineNvic {
    /** __NVIC_PRIO_BITS. */
    const bits: nat
    var IPR: array<nat>
    var SHPR: array<nat>
    var AIRCR: U32

    ghost predicate Valid()
      reads this
    {
      1 <= bits <= 8 && IPR.Length == 496 && SHPR.Length == 12 && IPR != SHPR
    }

    function ByteAt(irq: int): nat
      requires Valid() && OnMainline(irq)
      reads this, IPR, SHPR
    {
      if irq >= 0 then IPR[MainlineIndex(irq)] else SHPR[MainlineIndex(irq)]
    }

    ghost function View(): Store
      requires Valid()
      reads this, IPR, SHPR
    {
      map irq | -12 <= irq < 496 :: ByteAt(irq)
    }

    /** Priority bytes compared as the hardware compares them: by the field above PRIGROUP. */
    predicate Preempts(irq: int, other: int)
      requires Valid() && OnMainline(irq) && OnMainline(other)
      reads this, IPR, SHPR
    {
      GroupPriority(ByteAt(irq), Prigroup(AIRCR)) < GroupPriority(ByteAt(other), Prigroup(AIRCR))
    }

    method SetPriority(irq: int, priority: U32)
      requires Valid() && OnMainline(irq)
      modifies IPR, SHPR
      ensures Valid() && View() == old(View())[irq := PriorityByte(priority, bits)]
      ensures 0 <= irq ==> IPR[..] == old(IPR[..])[irq := PriorityByte(priority, bits)] && SHPR[..] == old(SHPR[..])
      ensures irq < 0 ==> SHPR[..] == old(SHPR[..])[irq + 12 := PriorityByte(priority, bits)] && IPR[..] == old(IPR[..])
    {
      var b := PriorityByte(priority, bits);
      if irq >= 0 {
        IPR[irq] := b;
      } else {
        SHPR[irq % 16 - 4] := b;
      }
      forall j | OnMainline(j)
        ensures ByteAt(j) == if j == irq then b else old(ByteAt(j))
      {
        OwnByte(irq, j);
      }
    }

    method GetPriority(irq: int) returns (priority: nat)
      requires Valid() && OnMainline(irq)
      ensures priority == ReadPriority(View()[irq], bits)
      ensures priority == (if irq < 0 then SHPR[irq + 12] else IPR[irq]) / Pow2(8 - bits)
    {
      DivNonNegative(ByteAt(irq), Pow2(8 - bits));
      if irq >= 0 {
        priority := IPR[irq] / Pow2(8 - bits);
      } else {
        priority := SHPR[irq % 16 - 4] / Pow2(8 - bits);
      }
    }

    /** A store to AIRCR takes effect only with the key 0x5FA in its upper half, which reads
        back as 0xFA05. */
    method StoreAircr(value: U32)
      modifies this`AIRCR
      ensures AIRCR == if value / 0x1_0000 == 0x5FA then 0xFA05 * 0x1_0000 + value % 0x1_0000 else old(AIRCR)
    {
      if value / 0x1_0000 == 0x5FA {
        AIRCR := 0xFA05 * 0x1_0000 + value % 0x1_0000;
      }
    }

    /** Setting the grouping unlocks the register, replaces the PRIGROUP field and leaves every
        other control bit alone. */
    method SetPriorityGrouping(group: U32)
      modifies this`AIRCR
      ensures Prigroup(AIRCR) == group % 8
      ensures AIRCR % 0x100 == old(AIRCR) % 0x100
      ensures AIRCR / 0x800 % 0x20 == old(AIRCR) / 0x800 % 0x20
    {
      var regValue: int := AIRCR;
      GroupingWord(AIRCR, group % 8);
      regValue := regValue % 0x1_0000 - regValue / 0x100 % 8 * 0x100;
      regValue := regValue + 0x5FA * 0x1_0000 + group % 8 * 0x100;
      StoreAircr(regValue);
    }

    /** Configures a grouping and then a run of priorities. */
    method Configure(group: U32, settings: seq<Setting>)
      requires Valid() && forall i | 0 <= i < |settings| :: OnMainline(settings[i].irq)
      modifies this`AIRCR, IPR, SHPR
      ensures Valid() && Prigroup(AIRCR) == group % 8
      ensures View() == RunSettings(old(View()), settings, bits)
    {
      SetPriorityGrouping(group);
      for i := 0 to |settings|
        invariant Valid() && Prigroup(AIRCR) == group % 8
        invariant View() == RunSettings(old(View()), settings[..i], bits)
      {
        assert settings[..i + 1][..i] == settings[..i];
        SetPriority(settings[i].irq, settings[i].priority);
      }
      assert settings[..|settings|] == settings;
    }
  }

  /** Two interrupts whose last settings in a run were encoded under the grouping that the
      register holds: one preempts the other exactly when its preemption priority is lower,
      whatever the subpriorities.  Configure establishes the premises. */
  lemma PreemptionAfterRun(nvic: MainlineNvic, was: Store, settings: seq<Setting>, i: nat, j: nat, group: U32,
                           p: nat, s: nat, p': nat, s': nat)
    requires nvic.Valid() && nvic.View() == RunSettings(was, settings, nvic.bits) && Prigroup(nvic.AIRCR) == group % 8
    requires i < |settings| && OnMainline(settings[i].irq) && j < |settings| && OnMainline(settings[j].irq)
    requires forall k | i < k < |settings| :: settings[k].irq != settings[i].irq
    requires forall k | j < k < |settings| :: settings[k].irq != settings[j].irq
    requires settings[i].priority == EncodePriority(group, p, s, nvic.bits)
    requires settings[j].priority == EncodePriority(group, p', s', nvic.bits)
    requires p < Pow2(PreemptBits(group, nvic.bits)) && p' < Pow2(PreemptBits(group, nvic.bits))
    requires s < Pow2(SubBits(group, nvic.bits)) && s' < Pow2(SubBits(group, nvic.bits))
    ensures nvic.Preempts(settings[i].irq, settings[j].irq) <==> p < p'
  {
    hide RunSettings, PriorityByte, EncodePriority, Pow2, PreemptBits, SubBits, GroupPriority;
    LastSettingWins(was, settings, i, nvic.bits);
    LastSettingWins(was, settings, j, nvic.bits);
    assert nvic.View()[settings[i].irq] == nvic.ByteAt(settings[i].irq);
    assert nvic.View()[settings[j].irq] == nvic.ByteAt(settings[j].irq);
    EncodedPreemption(group, p, s, p', s', nvic.bits);
  }

  /** Preemption order under a group whose upper bits are ignored. */
  lemma EncodedPreemption(group: nat, p: nat, s: nat, p': nat, s': nat, bits: nat)
    requires 1 <= bits <= 8
    requires p < Pow2(PreemptBits(group, bits)) && p' < Pow2(PreemptBits(group, bits))
    requires s < Pow2(SubBits(group, bits)) && s' < Pow2(SubBits(group, bits))
    ensures GroupPriority(PriorityByte(EncodePriority(group, p, s, bits), bits), group % 8)
          < GroupPriority(PriorityByte(EncodePriority(group, p', s', bits), bits), group % 8)
       <==> p < p'
  {
    hide Pow2, PreemptBits, SubBits, GroupPriority, PriorityByte;
    MaskedGroup(group, bits);
    PreemptionOrder(group % 8, p, s, p', s', bits);
  }

  /** Only the three low bits of a group count. */
  lemma MaskedGroup(group: nat, bits: nat)
    ensures PreemptBits(group % 8, bits) == PreemptBits(group, bits)
    ensures SubBits(group % 8, bits) == SubBits(group, bits)
  {
  }

  function Prigroup(aircr: U32): nat { aircr / 0x100 % 8 }

  /** The word with the key and a new PRIGROUP field, and what the register then reads. */
  lemma GroupingWord(aircr: U32, g: nat)
    requires g < 8
    ensures var low := aircr % 0x1_0000 - aircr / 0x100 % 8 * 0x100 + g * 0x100;
            var value := low + 0x5FA * 0x1_0000;
            var stored := 0xFA05 * 0x1_0000 + low;
            && 0 <= low < 0x1_0000 && value / 0x1_0000 == 0x5FA && value % 0x1_0000 == low
            && stored < 0x1_0000_0000 && stored / 0x100 % 8 == g
            && stored % 0x100 == aircr % 0x100 && stored / 0x800 % 0x20 == aircr / 0x800 % 0x20
  {
    var a, q := aircr % 0x100, aircr / 0x100;
    var b, c := q % 8, q / 8 % 0x20;
    assert aircr / 0x800 == q / 8;
    assert aircr % 0x1_0000 == c * 0x800 + b * 0x100 + a;
    var low := c * 0x800 + g * 0x100 + a;
    var stored := 0xFA05 * 0x1_0000 + low;
    assert stored / 0x100 == 0xFA05 * 0x100 + c * 8 + g && stored / 0x800 == 0xFA05 * 0x20 + c;
  }

  // Baseline: four interrupts share a word.

  function ByteScale(k: nat): nat
    requires k < 4
  {
    if k == 0 then 1 else if k == 1 then 0x100 else if k == 2 then 0x1_0000 else 0x100_0000
  }

  /** Byte `k` of a word: shift right by 8k bits and mask. */
  function ByteOf(w: U32, k: nat): nat
    requires k < 4
  {
    w / ByteScale(k) % 0x100
  }

  /** The word with byte `k` cleared by the inverted mask and replaced by `b`. */
  function SetByte(w: U32, k: nat, b: nat): (r: U32)
    requires k < 4 && b < 0x100
    ensures forall j: nat | j < 4 :: ByteOf(r, j) == if j == k then b else ByteOf(w, j)
  {
    ReplaceByte(w, k, b);
    w - ByteOf(w, k) * ByteScale(k) + b * ByteScale(k)
  }

  lemma ReplaceByte(w: U32, k: nat, b: nat)
    requires k < 4 && b < 0x100
    ensures var r := w - ByteOf(w, k) * ByteScale(k) + b * ByteScale(k);
            0 <= r < 0x1_0000_0000 && forall j: nat | j < 4 :: ByteOf(r, j) == if j == k then b else ByteOf(w, j)
  {
    hide ByteOf;
    SplitWord(w);
    var w0, w1, w2, w3 := ByteOf(w, 0), ByteOf(w, 1), ByteOf(w, 2), ByteOf(w, 3);
    JoinWord(if k == 0 then b else w0, if k == 1 then b else w1, if k == 2 then b else w2, if k == 3 then b else w3);
  }

  lemma SplitWord(w: U32)
    ensures w == ByteOf(w, 0) + ByteOf(w, 1) * 0x100 + ByteOf(w, 2) * 0x1_0000 + ByteOf(w, 3) * 0x100_0000
    ensures forall j: nat | j < 4 :: ByteOf(w, j) < 0x100
  {
    var q1 := w / 0x100;
    var q2 := q1 / 0x100;
    var q3 := q2 / 0x100;
    assert w / 0x1_0000 == q2 && w / 0x100_0000 == q3;
    assert w == q1 * 0x100 + ByteOf(w, 0) && q1 == q2 * 0x100 + ByteOf(w, 1) && q2 == q3 * 0x100 + ByteOf(w, 2);
  }

  lemma JoinWord(w0: nat, w1: nat, w2: nat, w3: nat)
    requires w0 < 0x100 && w1 < 0x100 && w2 < 0x100 && w3 < 0x100
    ensures var w := w0 + w1 * 0x100 + w2 * 0x1_0000 + w3 * 0x100_0000;
            && w < 0x1_0000_0000
            && ByteOf(w, 0) == w0 && ByteOf(w, 1) == w1 && ByteOf(w, 2) == w2 && ByteOf(w, 3) == w3
  {
    var w := w0 + w1 * 0x100 + w2 * 0x1_0000 + w3 * 0x100_0000;
    assert w / 0x100 == w1 + w2 * 0x100 + w3 * 0x1_0000;
    assert w / 0x1_0000 == w2 + w3 * 0x100;
    assert w / 0x100_0000 == w3;
  }

  function BaselineByte(irq: int): nat { irq % 4 }

  function BaselineIndex(irq: int): nat
    requires OnBaseline(irq)
  {
    if irq >= 0 then irq / 4 else (irq % 16 - 8) / 4
  }

  /** Register addresses: both layouts keep the byte of an interrupt at the same address. */
  function MainlineAddress(irq: int): int
    requires OnMainline(irq)
  {
    (if irq >= 0 then 0xE000_E400 else 0xE000_ED18) + MainlineIndex(irq)
  }

  function BaselineAddress(irq: int): int
    requires OnBaseline(irq)
  {
    (if irq >= 0 then 0xE000_E400 else 0xE000_ED1C) + 4 * BaselineIndex(irq) + BaselineByte(irq)
  }

  /** The twelve system exceptions follow one another from SHPR1 on, the interrupts from IPR0 on. */
  lemma MainlineAddresses(irq: int)
    requires OnMainline(irq)
    ensures MainlineAddress(irq) == if irq < 0 then 0xE000_ED18 + irq + 12 else 0xE000_E400 + irq
  {
  }

  lemma SameAddress(irq: int)
    requires OnBaseline(irq)
    ensures MainlineAddress(irq) == BaselineAddress(irq)
  {
  }

  class BaselineNvic {
    /** __NVIC_PRIO_BITS. */
    const bits: nat
    var IPR: array<U32>
    var SHPR: array<U32>

    ghost predicate Valid()
      reads this
    {
      1 <= bits <= 8 && IPR.Length == 124 && SHPR.Length == 2 && IPR != SHPR
    }

    function ByteAt(irq: int): nat
      requires Valid() && OnBaseline(irq)
      reads this, IPR, SHPR
    {
      if irq >= 0 then ByteOf(IPR[BaselineIndex(irq)], BaselineByte(irq))
      else ByteOf(SHPR[BaselineIndex(irq)], BaselineByte(irq))
    }

    ghost function View(): Store
      requires Valid()
      reads this, IPR, SHPR
    {
      map irq | -8 <= irq < 496 :: ByteAt(irq)
    }

    /** The read-modify-write of a shared word changes the byte of one interrupt only. */
    method SetPriority(irq: int, priority: U32)
      requires Valid() && OnBaseline(irq)
      modifies IPR, SHPR
      ensures Valid() && View() == old(View())[irq := PriorityByte(priority, bits)]
    {
      var k := BaselineIndex(irq);
      var b := PriorityByte(priority, bits);
      if irq >= 0 {
        IPR[k] := SetByte(IPR[k], BaselineByte(irq), b);
      } else {
        SHPR[k] := SetByte(SHPR[k], BaselineByte(irq), b);
      }
      forall j | OnBaseline(j)
        ensures ByteAt(j) == if j == irq then b else old(ByteAt(j))
      {
        SharedWord(irq, j);
      }
    }

    method GetPriority(irq: int) returns (priority: nat)
      requires Valid() && OnBaseline(irq)
      ensures priority == ReadPriority(View()[irq], bits)
    {
      var k := BaselineIndex(irq);
      DivNonNegative(ByteAt(irq), Pow2(8 - bits));
      if irq >= 0 {
        priority := ByteOf(IPR[k], BaselineByte(irq)) / Pow2(8 - bits);
      } else {
        priority := ByteOf(SHPR[k], BaselineByte(irq)) / Pow2(8 - bits);
      }
    }
  }

  /** Word and byte position determine the interrupt within one register array. */
  lemma SharedWord(i: int, j: int)
    requires OnBaseline(i) && OnBaseline(j)
    ensures (i >= 0 <==> j >= 0) && BaselineIndex(i) == BaselineIndex(j) && BaselineByte(i) == BaselineByte(j) ==>
      i == j
  {
  }

  /** A run of the same settings on both layouts, with equal bytes at equal addresses before,
      leaves equal bytes at equal addresses. */
  method RunBoth(mainline: MainlineNvic, baseline: BaselineNvic, settings: seq<Setting>)
    requires mainline.Valid() && baseline.Valid() && mainline.bits == baseline.bits
    requires {mainline.IPR, mainline.SHPR} !! {baseline.IPR, baseline.SHPR}
    requires forall i | 0 <= i < |settings| :: OnBaseline(settings[i].irq)
    requires Agree(mainline.View(), baseline.View())
    modifies mainline.IPR, mainline.SHPR, baseline.IPR, baseline.SHPR
    ensures mainline.Valid() && baseline.Valid() && Agree(mainline.View(), baseline.View())
    ensures mainline.View() == RunSettings(old(mainline.View()), settings, mainline.bits)
    ensures baseline.View() == RunSettings(old(baseline.View()), settings, baseline.bits)
  {
    hide Agree;
    for i := 0 to |settings|
      invariant mainline.Valid() && baseline.Valid() && Agree(mainline.View(), baseline.View())
      invariant mainline.View() == RunSettings(old(mainline.View()), settings[..i], mainline.bits)
      invariant baseline.View() == RunSettings(old(baseline.View()), settings[..i], baseline.bits)
    {
      assert settings[..i + 1][..i] == settings[..i];
      SetBoth(mainline, baseline, settings[i].irq, settings[i].priority);
    }
    assert settings[..|settings|] == settings;
  }

  /** The same setting on both layouts. */
  method SetBoth(mainline: MainlineNvic, baseline: BaselineNvic, irq: int, priority: U32)
    requires mainline.Valid() && baseline.Valid() && mainline.bits == baseline.bits && OnBaseline(irq)
    requires {mainline.IPR, mainline.SHPR} !! {baseline.IPR, baseline.SHPR}
    requires Agree(mainline.View(), baseline.View())
    modifies mainline.IPR, mainline.SHPR, baseline.IPR, baseline.SHPR
    ensures mainline.Valid() && baseline.Valid() && Agree(mainline.View(), baseline.View())
    ensures mainline.View() == old(mainline.View())[irq := PriorityByte(priority, mainline.bits)]
    ensures baseline.View() == old(baseline.View())[irq := PriorityByte(priority, baseline.bits)]
  {
    hide Agree;
    ghost var m, b := mainline.View(), baseline.View();
    mainline.SetPriority(irq, priority);
    assert baseline.View() == b;
    ghost var m' := mainline.View();
    baseline.SetPriority(irq, priority);
    assert mainline.View() == m';
    AgreeOnUpdate(m, b, irq, PriorityByte(priority, mainline.bits));
  }

  lemma AgreeOnUpdate(mainline: Store, baseline: Store, irq: int, value: nat)
    requires Agree(mainline, baseline)
    ensures Agree(mainline[irq := value], baseline[irq := value])
  {
  }
}
