/** The Armv7-M memory protection unit (CMSIS/mpu_armv7.h, CMSIS/core_cm7.h), after section
    B3.5 of the Armv7-M Architecture Reference Manual (DDI 0403).
    Bit fields of a word do not overlap, so or-ing them is addition and masking is remainder. */
module MpuV7 {
  import opened Words
  import opened MpuTable

  /** A region: the address field of its RBAR and its whole RASR. */
  datatype Region = Region(base: U32, rasr: U32)

  /** Region number register and register file. */
  datatype Contents = Contents(rnr: nat, regions: seq<Region>) {
    predicate Valid() { |regions| == 16 && rnr < 16 }
  }

  // ---- Register words ----

  /** ARM_MPU_RBAR: address bits [31:5], VALID bit 4, region number bits [3:0]. */
  function Rbar(region: nat, base: U32): U32
  {
    base - base % 32 + region % 16 + 16
  }

  /** The word names its region, masked to four bits, and the base without its five low bits. */
  lemma RbarDecodes(region: nat, base: U32)
    ensures var w := Rbar(region, base);
            && w % 16 == region % 16 && w / 16 % 2 == 1 && w / 32 == base / 32
            && HasRegion(w) && RegionNumber(w) == region % 16 && AddressField(w) == AddressField(base) == base / 32 * 32
  {
    LowBits(base / 32, region % 16);
  }

  lemma LowBits(k: nat, r: nat)
    requires r < 16
    ensures var w := k * 32 + r + 16; w % 16 == r && w / 16 % 2 == 1 && w % 32 == r + 16 && w / 32 == k
  {
    var w := k * 32 + r + 16;
    DivModUnique(w, 16, 2 * k + 1, r);
    DivModUnique(w, 32, k, r + 16);
  }

  predicate HasRegion(rbar: U32) { rbar / 16 % 2 == 1 }

  function RegionNumber(rbar: U32): (r: nat)
    ensures r < 16
  {
    rbar % 16
  }

  function AddressField(rbar: U32): U32 { rbar - rbar % 32 }

  /** Execute-never, access permission and memory type fields of RASR. */
  datatype Attributes = Attributes(xn: nat, ap: nat, tex: nat, s: nat, c: nat, b: nat)

  /** ARM_MPU_RASR: every argument is masked to the width of its field. */
  function Rasr(xn: nat, ap: nat, tex: nat, s: nat, c: nat, b: nat, srd: nat, size: nat): U32
  {
    xn % 2 * 0x1000_0000 + ap % 8 * 0x100_0000 + tex % 8 * 0x8_0000 + s % 2 * 0x4_0000 + c % 2 * 0x2_0000
      + b % 2 * 0x1_0000 + srd % 256 * 0x100 + size % 32 * 2 + 1
  }

  /** Every argument, masked to its width, stands at its bits of the word: XN at bit 28, AP at bits
      [26:24], TEX at [21:19], S, C and B at 18, 17 and 16, SRD at [15:8], SIZE at [5:1] and ENABLE
      at bit 0.  The unit reads them back. */
  lemma RasrDecodes(xn: nat, ap: nat, tex: nat, s: nat, c: nat, b: nat, srd: nat, size: nat)
    ensures var w := Rasr(xn, ap, tex, s, c, b, srd, size);
            && w / 0x1000_0000 == xn % 2 && w / 0x100_0000 % 8 == ap % 8 && w / 0x8_0000 % 8 == tex % 8
            && w / 0x4_0000 % 2 == s % 2 && w / 0x2_0000 % 2 == c % 2 && w / 0x1_0000 % 2 == b % 2
            && w / 0x100 % 0x100 == srd % 256 && w / 2 % 32 == size % 32 && w % 2 == 1
            && SizeField(w) == size % 32 && SubregionField(w) == srd % 256
            && AttributesOf(w) == Attributes(xn % 2, ap % 8, tex % 8, s % 2, c % 2, b % 2)
  {
    LowFields(srd % 256, size % 32);
    var low := srd % 256 * 0x100 + size % 32 * 2 + 1;
    HighFields(xn % 2, ap % 8, tex % 8, s % 2, c % 2, b % 2, low);
  }

  /** The lower half of the word. */
  lemma LowFields(srd: nat, size: nat)
    requires srd < 256 && size < 32
    ensures var low := srd * 0x100 + size * 2 + 1;
            low < 0x1_0000 && low % 2 == 1 && low / 2 % 32 == size && low / 0x100 == srd
  {
    assert (srd * 0x100 + size * 2 + 1) / 2 == srd * 0x80 + size;
  }

  /** The upper half, above any lower half. */
  lemma HighFields(xn: nat, ap: nat, tex: nat, s: nat, c: nat, b: nat, low: nat)
    requires xn < 2 && ap < 8 && tex < 8 && s < 2 && c < 2 && b < 2 && low < 0x1_0000
    ensures var w := xn * 0x1000_0000 + ap * 0x100_0000 + tex * 0x8_0000 + s * 0x4_0000 + c * 0x2_0000
                       + b * 0x1_0000 + low;
            && w < 0x1_0000_0000 && w % 2 == low % 2 && w / 2 % 32 == low / 2 % 32 && w / 0x100 % 0x100 == low / 0x100
            && w / 0x1000_0000 == xn && w / 0x100_0000 % 8 == ap && w / 0x8_0000 % 8 == tex
            && w / 0x4_0000 % 2 == s && w / 0x2_0000 % 2 == c && w / 0x1_0000 % 2 == b
  {
    var high := xn * 0x1000 + ap * 0x100 + tex * 8 + s * 4 + c * 2 + b;
    HighParts(xn, ap, tex, s, c, b);
    AboveLow(high, low);
  }

  lemma HighParts(xn: nat, ap: nat, tex: nat, s: nat, c: nat, b: nat)
    requires xn < 2 && ap < 8 && tex < 8 && s < 2 && c < 2 && b < 2
    ensures var high := xn * 0x1000 + ap * 0x100 + tex * 8 + s * 4 + c * 2 + b;
            && high < 0x2000 && high / 0x1000 == xn && high / 0x100 % 8 == ap && high / 8 % 8 == tex
            && high / 4 % 2 == s && high / 2 % 2 == c && high % 2 == b
  {
    var high := xn * 0x1000 + ap * 0x100 + tex * 8 + s * 4 + c * 2 + b;
    assert high / 2 == xn * 0x800 + ap * 0x80 + tex * 4 + s * 2 + c;
    assert high / 4 == xn * 0x400 + ap * 0x40 + tex * 2 + s;
    assert high / 8 == xn * 0x200 + ap * 0x20 + tex;
    assert high / 0x100 == xn * 0x10 + ap;
    assert high / 0x1000 == xn;
  }

  lemma AboveLow(high: nat, low: nat)
    requires low < 0x1_0000
    ensures var w := high * 0x1_0000 + low;
            && w % 2 == low % 2 && w / 2 % 32 == low / 2 % 32 && w / 0x100 % 0x100 == low / 0x100
            && w / 0x1_0000 == high && w / 0x2_0000 == high / 2 && w / 0x4_0000 == high / 4
            && w / 0x8_0000 == high / 8 && w / 0x100_0000 == high / 0x100 && w / 0x1000_0000 == high / 0x1000
  {
    var w := high * 0x1_0000 + low;
    LowKept(high, low);
    DivModUnique(w, 0x1_0000, high, low);
    DivDiv(w, 0x1_0000, 2);
    DivDiv(w, 0x1_0000, 4);
    DivDiv(w, 0x1_0000, 8);
    DivDiv(w, 0x1_0000, 0x100);
    DivDiv(w, 0x1_0000, 0x1000);
  }

  lemma LowKept(high: nat, low: nat)
    requires low < 0x1_0000
    ensures var w := high * 0x1_0000 + low;
            w % 2 == low % 2 && w / 2 % 32 == low / 2 % 32 && w / 0x100 % 0x100 == low / 0x100
  {
    var w := high * 0x1_0000 + low;
    DivModUnique(w, 2, high * 0x8000 + low / 2, low % 2);
    DivModUnique(w / 2, 32, high * 0x400 + low / 64, low / 2 % 32);
    DivModUnique(w, 0x100, high * 0x100 + low / 0x100, low % 0x100);
    DivModUnique(w / 0x100, 0x100, high, low / 0x100);
  }

  function SizeField(rasr: U32): nat { rasr / 2 % 32 }

  function SubregionField(rasr: U32): nat { rasr / 0x100 % 0x100 }

  function AttributesOf(rasr: U32): Attributes {
    Attributes(rasr / 0x1000_0000 % 2, rasr / 0x100_0000 % 8, rasr / 0x8_0000 % 8, rasr / 0x4_0000 % 2,
               rasr / 0x2_0000 % 2, rasr / 0x1_0000 % 2)
  }

  // ---- Register writes ----

  /** A write to RBAR.  With VALID set it also selects the region named in the word. */
  function WriteRbar(u: Contents, value: U32): (u': Contents)
    requires u.Valid()
    ensures u'.Valid()
  {
    var r := if HasRegion(value) then RegionNumber(value) else u.rnr;
    Contents(r, u.regions[r := u.regions[r].(base := AddressField(value))])
  }

  function WriteRasr(u: Contents, value: U32): (u': Contents)
    requires u.Valid()
    ensures u'.Valid()
  {
    u.(regions := u.regions[u.rnr := u.regions[u.rnr].(rasr := value)])
  }

  /** A write to the window behind RBAR: the alias registers act like the plain pair. */
  function WriteWord(u: Contents, offset: nat, value: U32): (u': Contents)
    requires u.Valid()
    ensures u'.Valid()
  {
    if offset % 2 == 0 then WriteRbar(u, value) else WriteRasr(u, value)
  }

  function WriteWords(u: Contents, words: seq<U32>): (u': Contents)
    requires u.Valid()
    ensures u'.Valid()
  {
    if words == [] then u
    else
      var n := |words| - 1;
      WriteWord(WriteWords(u, words[..n]), n, words[n])
  }

  function SetRegion(u: Contents, e: Entry): (u': Contents)
    requires u.Valid()
    ensures u'.Valid()
  {
    WriteRasr(WriteRbar(u, e.rbar), e.attr)
  }

  /** The row goes to the region named in its base word, or else to the selected region, which
      keeps the base without its five low bits. */
  lemma SetRegionPlaces(u: Contents, e: Entry)
    requires u.Valid()
    ensures var r := if e.rbar / 16 % 2 == 1 then e.rbar % 16 else u.rnr;
            SetRegion(u, e) == Contents(r, u.regions[r := Region(e.rbar / 32 * 32, e.attr)])
  {
    DivModIdentity(e.rbar, 32);
  }

  /** Setting the rows one after the other. */
  function SetAll(u: Contents, table: seq<Entry>): (u': Contents)
    requires u.Valid()
    ensures u'.Valid()
  {
    if table == [] then u
    else
      var n := |table| - 1;
      SetRegion(SetAll(u, table[..n]), table[n])
  }

  lemma WriteSnoc(u: Contents, words: seq<U32>, a: U32)
    requires u.Valid()
    ensures WriteWords(u, words + [a]) == WriteWord(WriteWords(u, words), |words|, a)
  {
    assert (words + [a])[..|words|] == words;
  }

  /** The two words of row `n` set it. */
  lemma RowWrites(u: Contents, n: nat, row: Entry)
    requires u.Valid()
    ensures WriteWord(WriteWord(u, 2 * n, row.rbar), 2 * n + 1, row.attr) == SetRegion(u, row)
  {
    hide WriteRbar, WriteRasr;
  }

  /** The words of a table, written in memory order, set its rows. */
  lemma {:induction false} WordsSetAll(u: Contents, table: seq<Entry>)
    requires u.Valid()
    ensures WriteWords(u, TableWords(table)) == SetAll(u, table)
  {
    if table == [] {
    } else {
      var n := |table| - 1;
      hide WriteWord, WriteWords, SetRegion;
      var words, row := TableWords(table[..n]), table[n];
      WordsSetAll(u, table[..n]);
      WriteSnoc(u, words, row.rbar);
      var more := words + [row.rbar];
      WriteSnoc(u, more, row.attr);
      assert more + [row.attr] == TableWords(table);
      RowWrites(SetAll(u, table[..n]), n, row);
    }
  }

  lemma {:induction false} SetAllConcat(u: Contents, rows: seq<Entry>, more: seq<Entry>)
    requires u.Valid()
    ensures SetAll(u, rows + more) == SetAll(SetAll(u, rows), more)
  {
    if more == [] {
      assert rows + more == rows;
    } else {
      var n := |more| - 1;
      SetAllConcat(u, rows, more[..n]);
      assert (rows + more)[..|rows| + n] == rows + more[..n];
    }
  }

  // ---- What a table leaves in the register file ----

  ghost predicate AllNamed(table: seq<Entry>) {
    forall i | 0 <= i < |table| :: HasRegion(table[i].rbar)
  }

  function Configured(e: Entry): Region { Region(AddressField(e.rbar), e.attr) }

  /** The contents of region `r` after the table: its last row for that region, if any. */
  function Final(table: seq<Entry>, r: nat, unset: Region): Region {
    if table == [] then unset
    else
      var n := |table| - 1;
      if RegionNumber(table[n].rbar) == r then Configured(table[n]) else Final(table[..n], r, unset)
  }

  /** With every row naming its region the last row for a region wins, and regions without a
      row keep their contents. */
  lemma {:induction false} LastRowWins(u: Contents, table: seq<Entry>, r: nat)
    requires u.Valid() && AllNamed(table) && r < 16
    ensures SetAll(u, table).regions[r] == Final(table, r, u.regions[r])
  {
    if table == [] {
    } else {
      LastRowWins(u, table[..|table| - 1], r);
    }
  }

  ghost predicate DistinctRegions(table: seq<Entry>) {
    forall i, j | 0 <= i < j < |table| :: RegionNumber(table[i].rbar) != RegionNumber(table[j].rbar)
  }

  lemma {:induction false} FinalOfDistinct(table: seq<Entry>, i: nat, unset: Region)
    requires DistinctRegions(table) && i < |table|
    ensures Final(table, RegionNumber(table[i].rbar), unset) == Configured(table[i])
  {
    var n := |table| - 1;
    if i == n {
    } else {
      FinalOfDistinct(table[..n], i, unset);
      assert RegionNumber(table[i].rbar) != RegionNumber(table[n].rbar);
    }
  }

  lemma {:induction false} FinalOfAbsent(table: seq<Entry>, r: nat, unset: Region)
    requires forall i | 0 <= i < |table| :: RegionNumber(table[i].rbar) != r
    ensures Final(table, r, unset) == unset
  {
    if table == [] {
    } else {
      FinalOfAbsent(table[..|table| - 1], r, unset);
    }
  }

  lemma {:induction false} RepeatedRow(table: seq<Entry>, i: nat, j: nat)
    requires i < j < |table| && table[i] == table[j]
    ensures multiset(table)[table[i]] >= 2
  {
    var n := |table| - 1;
    assert table == table[..n] + [table[n]];
    if j < n {
      RepeatedRow(table[..n], i, j);
    } else {
      assert table[..n][i] in multiset(table[..n]);
    }
  }

  lemma {:induction false} UniqueRow(table: seq<Entry>, e: Entry)
    requires DistinctRegions(table)
    ensures multiset(table)[e] <= 1
  {
    if table == [] {
    } else {
      var n := |table| - 1;
      assert table == table[..n] + [table[n]];
      UniqueRow(table[..n], e);
      forall i | 0 <= i < n
        ensures table[..n][i] != table[n]
      {
        assert RegionNumber(table[i].rbar) != RegionNumber(table[n].rbar);
      }
      assert table[n] !in table[..n];
    }
  }

  lemma PermutationIsDistinct(table: seq<Entry>, other: seq<Entry>)
    requires DistinctRegions(table) && multiset(table) == multiset(other)
    ensures DistinctRegions(other)
  {
    forall i, j | 0 <= i < j < |other|
      ensures RegionNumber(other[i].rbar) != RegionNumber(other[j].rbar)
    {
      assert other[i] in multiset(table) && other[j] in multiset(table);
      var k :| 0 <= k < |table| && table[k] == other[i];
      var l :| 0 <= l < |table| && table[l] == other[j];
      if k == l {
        RepeatedRow(other, i, j);
        UniqueRow(table, other[i]);
      } else if k < l {
        assert RegionNumber(table[k].rbar) != RegionNumber(table[l].rbar);
      } else {
        assert RegionNumber(table[l].rbar) != RegionNumber(table[k].rbar);
      }
    }
  }

  /** CTRL with its enable bit set or cleared. */
  function WithEnable(ctrl: U32, on: bool): (r: U32)
    ensures r % 2 == if on then 1 else 0
    ensures r / 2 == ctrl / 2
  {
    ctrl - ctrl % 2 + if on then 1 else 0
  }

  /** SHCSR with bit 16, the memory-fault enable bit, set or cleared. */
  function WithMemFault(shcsr: U32, on: bool): (r: U32)
    ensures r / 0x1_0000 % 2 == if on then 1 else 0
    ensures r % 0x1_0000 == shcsr % 0x1_0000 && r / 0x2_0000 == shcsr / 0x2_0000
  {
    SplitMemFault(shcsr % 0x1_0000, shcsr / 0x1_0000 % 2, shcsr / 0x2_0000);
    SplitMemFault(shcsr % 0x1_0000, if on then 1 else 0, shcsr / 0x2_0000);
    assert shcsr == shcsr / 0x2_0000 * 0x2_0000 + shcsr / 0x1_0000 % 2 * 0x1_0000 + shcsr % 0x1_0000;
    shcsr - shcsr / 0x1_0000 % 2 * 0x1_0000 + if on then 0x1_0000 else 0
  }

  lemma SplitMemFault(low: nat, bit: nat, high: nat)
    requires low < 0x1_0000 && bit < 2
    ensures var w := high * 0x2_0000 + bit * 0x1_0000 + low;
            w % 0x1_0000 == low && w / 0x1_0000 % 2 == bit && w / 0x2_0000 == high
  {
    var w := high * 0x2_0000 + bit * 0x1_0000 + low;
    assert w / 0x1_0000 == 2 * high + bit;
  }

  /** Tables of distinct named regions configure the same file in any order of their rows. */
  lemma OrderIrrelevant(u: Contents, table: seq<Entry>, other: seq<Entry>)
    requires u.Valid() && AllNamed(table) && DistinctRegions(table) && multiset(table) == multiset(other)
    ensures SetAll(u, table).regions == SetAll(u, other).regions
  {
    PermutationIsDistinct(table, other);
    forall i | 0 <= i < |other|
      ensures HasRegion(other[i].rbar)
    {
      assert other[i] in multiset(table);
    }
    forall r: nat | r < 16
      ensures SetAll(u, table).regions[r] == SetAll(u, other).regions[r]
    {
      LastRowWins(u, table, r);
      LastRowWins(u, other, r);
      SameFinal(table, other, r, u.regions[r]);
    }
  }

  lemma SameFinal(table: seq<Entry>, other: seq<Entry>, r: nat, unset: Region)
    requires DistinctRegions(table) && DistinctRegions(other) && multiset(table) == multiset(other)
    ensures Final(table, r, unset) == Final(other, r, unset)
  {
    if i :| 0 <= i < |table| && RegionNumber(table[i].rbar) == r {
      assert table[i] in multiset(other);
      var k :| 0 <= k < |other| && other[k] == table[i];
      FinalOfDistinct(table, i, unset);
      FinalOfDistinct(other, k, unset);
    } else {
      forall k | 0 <= k < |other|
        ensures RegionNumber(other[k].rbar) != r
      {
        assert other[k] in multiset(table);
      }
      FinalOfAbsent(table, r, unset);
      FinalOfAbsent(other, r, unset);
    }
  }

  // ---- The unit ----

  class Mpu {
    /** MPU_TYPE_RALIASES. */
    const aliases: nat
    var ctrl: U32
    var rnr: nat
    /** SHCSR of the system control block, which holds the memory-fault enable bit. */
    var shcsr: U32
    var regions: array<Region>

    ghost predicate Valid()
      reads this
    {
      aliases >= 1 && rnr < 16 && regions.Length == 16
    }

    ghost function View(): (u: Contents)
      requires Valid()
      reads this, regions
      ensures u.Valid()
    {
      Contents(rnr, regions[..])
    }

    method Disable()
      modifies this`ctrl, this`shcsr
      ensures ctrl == WithEnable(old(ctrl), false)
      ensures shcsr == WithMemFault(old(shcsr), false)
    {
      shcsr := WithMemFault(shcsr, false);
      ctrl := WithEnable(ctrl, false);
    }

    /** The given control word, enabled, replaces CTRL. */
    method Enable(control: U32)
      modifies this`ctrl, this`shcsr
      ensures ctrl == WithEnable(control, true)
      ensures shcsr == WithMemFault(old(shcsr), true)
    {
      ctrl := WithEnable(control, true);
      shcsr := WithMemFault(shcsr, true);
    }

    method StoreRbar(value: U32)
      requires Valid()
      modifies this`rnr, regions
      ensures Valid() && View() == WriteRbar(old(View()), value)
    {
      if HasRegion(value) {
        rnr := RegionNumber(value);
      }
      regions[rnr] := regions[rnr].(base := AddressField(value));
    }

    method StoreRasr(value: U32)
      requires Valid()
      modifies regions
      ensures Valid() && View() == WriteRasr(old(View()), value)
    {
      regions[rnr] := regions[rnr].(rasr := value);
    }

    method SetRegion(rbar: U32, rasr: U32)
      requires Valid()
      modifies this`rnr, regions
      ensures Valid() && View() == SetAll(old(View()), [Entry(rbar, rasr)])
      ensures rnr == if rbar / 16 % 2 == 1 then rbar % 16 else old(rnr)
      ensures regions[..] == old(regions[..])[rnr := Region(rbar / 32 * 32, rasr)]
    {
      SetRegionPlaces(View(), Entry(rbar, rasr));
      StoreRbar(rbar);
      StoreRasr(rasr);
      assert [Entry(rbar, rasr)][..0] == [];
    }

    method ClrRegion(region: nat)
      requires Valid() && region < 16
      modifies this`rnr, regions
      ensures Valid() && rnr == region
      ensures regions[..] == old(regions[..])[region := old(regions[region]).(rasr := 0)]
    {
      rnr := region;
      StoreRasr(0);
    }

    method OrderedCpy(src: seq<U32>, len: nat)
      requires Valid() && len <= |src| && len <= 2 * aliases
      modifies this`rnr, regions
      ensures Valid() && View() == WriteWords(old(View()), src[..len])
    {
      for i := 0 to len
        invariant Valid() && View() == WriteWords(old(View()), src[..i])
      {
        assert src[..i + 1][..i] == src[..i];
        if i % 2 == 0 {
          StoreRbar(src[i]);
        } else {
          StoreRasr(src[i]);
        }
      }
    }

    /** The copy of `c` rows extends the rows already set. */
    method CopyTable(table: seq<Entry>, row: nat, c: nat, ghost was: Contents)
      requires Valid() && row + c <= |table| && c <= aliases
      requires was.Valid() && View() == SetAll(was, table[..row])
      modifies this`rnr, regions
      ensures Valid() && View() == SetAll(was, table[..row + c])
    {
      hide TableWords, WriteWords, SetAll;
      ghost var rows := table[row..row + c];
      assert table[row..][..c] == rows;
      WordsPrefix(table[row..], c);
      WordsSetAll(View(), rows);
      OrderedCpy(TableWords(table[row..]), 2 * c);
      SetAllConcat(was, table[..row], rows);
      assert table[..row] + rows == table[..row + c];
    }

    /** Loading a table in chunks of the alias window equals setting its rows one by one, for
        every table, whether or not its rows name their regions. */
    method Load(table: seq<Entry>, cnt: nat)
      requires Valid() && cnt <= |table|
      modifies this`rnr, regions
      ensures Valid() && View() == SetAll(old(View()), table[..cnt])
    {
      ghost var was := View();
      var row: nat, left: nat := 0, cnt;
      while left > aliases
        invariant Valid() && row + left == cnt
        invariant View() == SetAll(was, table[..row])
        decreases left
      {
        CopyTable(table, row, aliases, was);
        row := row + aliases;
        left := left - aliases;
      }
      CopyTable(table, row, left, was);
    }
  }
}
