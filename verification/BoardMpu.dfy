/** The memory map of board/board.c: nine overlapping regions, resolved by highest number as in
    section B3.5 of the Armv7-M Architecture Reference Manual (DDI 0403).
    The two build options are parameters: `xip` for XIP_EXTERNAL_FLASH == 1 and `shareable` for
    SDRAM_IS_SHAREABLE. */
module BoardMpu {
  import opened Words
  import opened MpuTable
  import opened MpuV7

  const AP_FULL := 3
  const AP_RO := 6

  const SIZE_128KB := 0x10
  const SIZE_256KB := 0x11
  const SIZE_2MB := 0x14
  const SIZE_32MB := 0x18
  const SIZE_64MB := 0x19
  const SIZE_512MB := 0x1C
  const SIZE_1GB := 0x1D

  const DEVICE := Attributes(0, AP_FULL, 2, 0, 0, 0)
  const DEVICE_READ_ONLY := Attributes(0, AP_RO, 2, 0, 0, 0)
  const WRITE_BACK := Attributes(0, AP_FULL, 0, 0, 1, 1)
  const WRITE_BACK_SHAREABLE := Attributes(0, AP_FULL, 0, 1, 1, 1)
  const WRITE_BACK_READ_ONLY := Attributes(0, AP_RO, 0, 0, 1, 1)
  const NON_CACHEABLE := Attributes(0, AP_FULL, 1, 0, 0, 0)

  // ---- Resolution of an address ----

  datatype Resolution = Background | Mapped(attributes: Attributes)

  function SizeOf(rasr: U32): (n: int)
    ensures n > 0
  {
    Pow2(SizeField(rasr) + 1)
  }

  /** An address lies in a region when it agrees with the base above the size. */
  predicate Spans(base: U32, bytes: int, addr: U32)
    requires bytes > 0
  {
    addr - addr % bytes == base - base % bytes
  }

  /** The eighth of a region that an address lies in. */
  function Eighth(addr: U32, bytes: int): nat
    requires bytes > 0
  {
    addr % bytes * 8 / bytes
  }

  predicate SubregionEnabled(field: nat, k: nat) {
    field == 0 || field / Pow2(k) % 2 == 0
  }

  /** An enabled region covers the addresses it spans, except its disabled eighths. */
  predicate Covers(region: Region, addr: U32) {
    var bytes := SizeOf(region.rasr);
    && region.rasr % 2 == 1
    && Spans(region.base, bytes, addr)
    && SubregionEnabled(SubregionField(region.rasr), Eighth(addr, bytes))
  }

  /** The highest-numbered covering region among the first `n` decides. */
  function Resolve(regions: seq<Region>, addr: U32, n: nat): Resolution
    requires n <= |regions|
  {
    if n == 0 then Background
    else if Covers(regions[n - 1], addr) then Mapped(AttributesOf(regions[n - 1].rasr))
    else Resolve(regions, addr, n - 1)
  }

  // ---- The configuration ----

  /** The arguments of one pair of register writes. */
  datatype Row = Row(region: nat, base: U32, attributes: Attributes, size: nat)

  function RowEntry(r: Row): Entry {
    var a := r.attributes;
    Entry(Rbar(r.region, r.base), Rasr(a.xn, a.ap, a.tex, a.s, a.c, a.b, 0, r.size))
  }

  function BoardRow(k: nat, xip: bool, shareable: bool): Row
    requires k < 9
  {
    match k
    case 0 => Row(0, 0xC000_0000, DEVICE, SIZE_512MB)
    case 1 => Row(1, 0x8000_0000, DEVICE, SIZE_1GB)
    case 2 => Row(2, 0x6000_0000, if xip then WRITE_BACK_READ_ONLY else DEVICE_READ_ONLY, SIZE_64MB)
    case 3 => Row(3, 0x0000_0000, DEVICE, SIZE_1GB)
    case 4 => Row(4, 0x0000_0000, WRITE_BACK, SIZE_128KB)
    case 5 => Row(5, 0x2000_0000, WRITE_BACK, SIZE_128KB)
    case 6 => Row(6, 0x2020_0000, WRITE_BACK, SIZE_256KB)
    case 7 => Row(7, 0x8000_0000, if shareable then WRITE_BACK_SHAREABLE else WRITE_BACK, SIZE_32MB)
    case 8 => Row(8, 0x81E0_0000, NON_CACHEABLE, SIZE_2MB)
  }

  function BoardTable(xip: bool, shareable: bool): (table: seq<Entry>)
    ensures |table| == 9
  {
    seq(9, k requires 0 <= k < 9 => RowEntry(BoardRow(k, xip, shareable)))
  }

  /** The intended map, as one interval after the other. */
  function BoardMap(addr: U32, xip: bool, shareable: bool): Resolution {
    if addr < 0x0002_0000 then Mapped(WRITE_BACK)
    else if addr < 0x2000_0000 then Mapped(DEVICE)
    else if addr < 0x2002_0000 then Mapped(WRITE_BACK)
    else if addr < 0x2020_0000 then Mapped(DEVICE)
    else if addr < 0x2024_0000 then Mapped(WRITE_BACK)
    else if addr < 0x4000_0000 then Mapped(DEVICE)
    else if addr < 0x6000_0000 then Background
    else if addr < 0x6400_0000 then Mapped(if xip then WRITE_BACK_READ_ONLY else DEVICE_READ_ONLY)
    else if addr < 0x8000_0000 then Background
    else if addr < 0x81E0_0000 then Mapped(if shareable then WRITE_BACK_SHAREABLE else WRITE_BACK)
    else if addr < 0x8200_0000 then Mapped(NON_CACHEABLE)
    else if addr < 0xE000_0000 then Mapped(DEVICE)
    else Background
  }

  /** Sizes in bytes of the size codes used. */
  lemma Sizes()
    ensures Pow2(SIZE_128KB + 1) == 0x2_0000 && Pow2(SIZE_256KB + 1) == 0x4_0000
    ensures Pow2(SIZE_2MB + 1) == 0x20_0000 && Pow2(SIZE_32MB + 1) == 0x200_0000
    ensures Pow2(SIZE_64MB + 1) == 0x400_0000 && Pow2(SIZE_512MB + 1) == 0x2000_0000
    ensures Pow2(SIZE_1GB + 1) == 0x4000_0000
  {
    assert Pow2(8) == 0x100 && Pow2(1) == 2;
    Pow2Add(8, 8);
    Pow2Add(16, 1);
    Pow2Add(17, 1);
    Pow2Add(18, 3);
    Pow2Add(21, 4);
    Pow2Add(25, 1);
    Pow2Add(26, 3);
    Pow2Add(29, 1);
    assert Pow2(3) == 8 && Pow2(4) == 16;
  }

  /** An enabled region with an aligned base covers the addresses from its base to its end. */
  lemma RegionCovers(g: Region, bytes: int, addr: U32)
    requires g.rasr % 2 == 1 && SizeOf(g.rasr) == bytes && SubregionField(g.rasr) == 0 && g.base % bytes == 0
    ensures Covers(g, addr) <==> g.base <= addr < g.base + bytes
  {
    SameBlock(addr, g.base, bytes);
  }

  ghost predicate WellFormed(r: Row) {
    var a := r.attributes;
    r.size < 32 && a.xn < 2 && a.ap < 8 && a.tex < 8 && a.s < 2 && a.c < 2 && a.b < 2
  }

  lemma RowFields(r: Row)
    requires WellFormed(r)
    ensures var g := Configured(RowEntry(r));
            && g.base == AddressField(r.base) && g.rasr % 2 == 1 && SizeField(g.rasr) == r.size
            && SubregionField(g.rasr) == 0 && AttributesOf(g.rasr) == r.attributes
  {
    var a := r.attributes;
    assert Attributes(a.xn % 2, a.ap % 8, a.tex % 8, a.s % 2, a.c % 2, a.b % 2) == a && r.size % 32 == r.size;
    RasrDecodes(a.xn, a.ap, a.tex, a.s, a.c, a.b, 0, r.size);
    RbarDecodes(r.region, r.base);
  }

  lemma RowNumber(r: Row)
    requires r.region < 16
    ensures HasRegion(RowEntry(r).rbar) && RegionNumber(RowEntry(r).rbar) == r.region
  {
    RbarDecodes(r.region, r.base);
  }

  /** A row decides exactly the addresses of its interval and leaves the others to the rows
      below it. */
  lemma ResolveRow(regions: seq<Region>, addr: U32, n: nat, r: Row, bytes: int)
    requires 0 < n <= |regions| && regions[n - 1] == Configured(RowEntry(r)) && WellFormed(r)
    requires bytes == Pow2(r.size + 1) && bytes % 32 == 0 && r.base % bytes == 0
    ensures Resolve(regions, addr, n) == if r.base <= addr < r.base + bytes then Mapped(r.attributes)
                                         else Resolve(regions, addr, n - 1)
  {
    RowFields(r);
    AlignedBase(r.base, bytes);
    RegionCovers(regions[n - 1], bytes, addr);
  }

  lemma AlignedBase(base: U32, bytes: int)
    requires bytes > 0 && bytes % 32 == 0 && base % bytes == 0
    ensures AddressField(base) == base
  {
    DivModIdentity(base, bytes);
    DivModIdentity(bytes, 32);
    MulAssociates(base / bytes, bytes / 32, 32);
    DivModUnique(base, 32, base / bytes * (bytes / 32), 0);
  }

  lemma SameBlock(addr: int, base: int, bytes: int)
    requires bytes > 0 && base % bytes == 0
    ensures addr - addr % bytes == base <==> base <= addr < base + bytes
  {
    DivModIdentity(addr, bytes);
    DivModIdentity(base, bytes);
    if base <= addr < base + bytes {
      DivModUnique(addr, bytes, base / bytes, addr - base);
    }
  }

  function Bytes(k: nat): int
    requires k < 9
  {
    match k
    case 0 => 0x2000_0000
    case 1 => 0x4000_0000
    case 2 => 0x400_0000
    case 3 => 0x4000_0000
    case 4 => 0x2_0000
    case 5 => 0x2_0000
    case 6 => 0x4_0000
    case 7 => 0x200_0000
    case 8 => 0x20_0000
  }

  /** Every base is a multiple of its region's size, as the unit demands. */
  lemma BasesAligned(k: nat, xip: bool, shareable: bool)
    requires k < 9
    ensures var r := BoardRow(k, xip, shareable);
            && WellFormed(r) && r.region == k && Pow2(r.size + 1) == Bytes(k)
            && Bytes(k) % 32 == 0 && r.base % Bytes(k) == 0
  {
    hide Pow2;
    Sizes();
    BaseMultiple(k, xip, shareable);
  }

  lemma BaseMultiple(k: nat, xip: bool, shareable: bool)
    requires k < 9
    ensures Bytes(k) % 32 == 0 && BoardRow(k, xip, shareable).base % Bytes(k) == 0
  {
  }

  /** The register file after the nine rows: regions 0 to 8 as configured, the rest untouched. */
  lemma BoardRegions(u: Contents, xip: bool, shareable: bool, k: nat)
    requires u.Valid() && k < 16
    ensures SetAll(u, BoardTable(xip, shareable)).regions[k]
         == if k < 9 then Configured(RowEntry(BoardRow(k, xip, shareable))) else u.regions[k]
  {
    var table := BoardTable(xip, shareable);
    BoardRowsNamed(xip, shareable);
    LastRowWins(u, table, k);
    if k < 9 {
      FinalOfDistinct(table, k, u.regions[k]);
    } else {
      FinalOfAbsent(table, k, u.regions[k]);
    }
  }

  lemma BoardRowsNamed(xip: bool, shareable: bool)
    ensures var table := BoardTable(xip, shareable);
            && AllNamed(table) && DistinctRegions(table)
            && forall i | 0 <= i < 9 :: RegionNumber(table[i].rbar) == i
  {
    var table := BoardTable(xip, shareable);
    forall i | 0 <= i < 9
      ensures HasRegion(table[i].rbar) && RegionNumber(table[i].rbar) == i
    {
      RowNumber(BoardRow(i, xip, shareable));
    }
  }

  /** Base address and attribute word of the nine regions, in numbers. */
  function RegisterWords(xip: bool, shareable: bool): seq<Region> {
    [Region(0xC000_0000, 0x0310_0039), Region(0x8000_0000, 0x0310_003B),
     Region(0x6000_0000, if xip then 0x0603_0033 else 0x0610_0033),
     Region(0x0000_0000, 0x0310_003B), Region(0x0000_0000, 0x0303_0021), Region(0x2000_0000, 0x0303_0021),
     Region(0x2020_0000, 0x0303_0023), Region(0x8000_0000, if shareable then 0x0307_0031 else 0x0303_0031),
     Region(0x81E0_0000, 0x0308_0029)]
  }

  /** The words that the nine rows leave in the registers. */
  lemma BoardWords(u: Contents, xip: bool, shareable: bool)
    requires u.Valid()
    ensures SetAll(u, BoardTable(xip, shareable)).regions == RegisterWords(xip, shareable) + u.regions[9..]
  {
    hide SetAll, BoardTable, RowEntry;
    var g := SetAll(u, BoardTable(xip, shareable)).regions;
    forall k: nat | k < 16
      ensures g[k] == (RegisterWords(xip, shareable) + u.regions[9..])[k]
    {
      BoardRegions(u, xip, shareable, k);
      if k < 9 {
        RowWords(k, xip, shareable);
      }
    }
  }

  lemma RowWords(k: nat, xip: bool, shareable: bool)
    requires k < 9
    ensures Configured(RowEntry(BoardRow(k, xip, shareable))) == RegisterWords(xip, shareable)[k]
  {
    hide Rasr, Rbar, AddressField, Pow2;
    var r := BoardRow(k, xip, shareable);
    BasesAligned(k, xip, shareable);
    RbarDecodes(r.region, r.base);
    AlignedBase(r.base, Bytes(k));
    UnmaskedWord(r.attributes, r.size);
  }

  /** Values that fit their fields are added up as they are. */
  lemma UnmaskedWord(a: Attributes, size: nat)
    requires a.xn < 2 && a.ap < 8 && a.tex < 8 && a.s < 2 && a.c < 2 && a.b < 2 && size < 32
    ensures Rasr(a.xn, a.ap, a.tex, a.s, a.c, a.b, 0, size)
         == a.xn * 0x1000_0000 + a.ap * 0x100_0000 + a.tex * 0x8_0000 + a.s * 0x4_0000 + a.c * 0x2_0000
              + a.b * 0x1_0000 + size * 2 + 1
  {
    assert a.ap % 8 == a.ap && a.tex % 8 == a.tex && size % 32 == size;
  }

  ghost predicate UpperRegionsDisabled(u: Contents)
    requires u.Valid()
  {
    forall k | 9 <= k < 16 :: u.regions[k].rasr % 2 == 0
  }

  lemma {:induction false} SkipDisabled(regions: seq<Region>, addr: U32, m: nat, n: nat)
    requires m <= n <= |regions|
    requires forall k | m <= k < n :: regions[k].rasr % 2 == 0
    ensures Resolve(regions, addr, n) == Resolve(regions, addr, m)
  {
    if m == n {
    } else {
      SkipDisabled(regions, addr, m, n - 1);
    }
  }

  /** Resolution among the first `n` rows of the board, by interval. */
  function BoardResolve(addr: U32, n: nat, xip: bool, shareable: bool): Resolution
    requires n <= 9
  {
    if n == 0 then Background
    else
      var r := BoardRow(n - 1, xip, shareable);
      if r.base <= addr < r.base + Bytes(n - 1) then Mapped(r.attributes)
      else BoardResolve(addr, n - 1, xip, shareable)
  }

  lemma {:induction false} ResolveIsBoard(regions: seq<Region>, addr: U32, n: nat, xip: bool, shareable: bool)
    requires n <= 9 <= |regions|
    requires forall k: nat | k < 9 :: regions[k] == Configured(RowEntry(BoardRow(k, xip, shareable)))
    ensures Resolve(regions, addr, n) == BoardResolve(addr, n, xip, shareable)
  {
    if n == 0 {
    } else {
      BasesAligned(n - 1, xip, shareable);
      ResolveRow(regions, addr, n, BoardRow(n - 1, xip, shareable), Bytes(n - 1));
      ResolveIsBoard(regions, addr, n - 1, xip, shareable);
    }
  }

  /** The overlapping rows and the list of intervals agree. */
  lemma RowsAreMap(addr: U32, xip: bool, shareable: bool)
    ensures BoardResolve(addr, 9, xip, shareable) == BoardMap(addr, xip, shareable)
  {
    var flash := Mapped(if xip then WRITE_BACK_READ_ONLY else DEVICE_READ_ONLY);
    var sdram := Mapped(if shareable then WRITE_BACK_SHAREABLE else WRITE_BACK);
    assert BoardResolve(addr, 1, xip, shareable)
        == if 0xC000_0000 <= addr < 0xE000_0000 then Mapped(DEVICE) else Background;
    var r1 := if 0x8000_0000 <= addr < 0xE000_0000 then Mapped(DEVICE) else Background;
    assert BoardResolve(addr, 2, xip, shareable) == r1;
    var r3 := if 0x6000_0000 <= addr < 0x6400_0000 then flash else if addr < 0x4000_0000 then Mapped(DEVICE) else r1;
    assert BoardResolve(addr, 3, xip, shareable) == if 0x6000_0000 <= addr < 0x6400_0000 then flash else r1;
    assert BoardResolve(addr, 4, xip, shareable) == r3;
    var r4 := if addr < 0x2_0000 then Mapped(WRITE_BACK) else r3;
    assert BoardResolve(addr, 5, xip, shareable) == r4;
    var r5 := if 0x2000_0000 <= addr < 0x2002_0000 then Mapped(WRITE_BACK) else r4;
    assert BoardResolve(addr, 6, xip, shareable) == r5;
    var r6 := if 0x2020_0000 <= addr < 0x2024_0000 then Mapped(WRITE_BACK) else r5;
    assert BoardResolve(addr, 7, xip, shareable) == r6;
    var r7 := if 0x8000_0000 <= addr < 0x8200_0000 then sdram else r6;
    assert BoardResolve(addr, 8, xip, shareable) == r7;
  }

  /** For every address the nine overlapping regions resolve to the intended map, whatever they
      held before, provided no higher region was left enabled. */
  lemma EffectiveMap(u: Contents, xip: bool, shareable: bool, addr: U32)
    requires u.Valid() && UpperRegionsDisabled(u)
    ensures Resolve(SetAll(u, BoardTable(xip, shareable)).regions, addr, 16) == BoardMap(addr, xip, shareable)
  {
    var g := SetAll(u, BoardTable(xip, shareable)).regions;
    forall k: nat | k < 16
      ensures g[k] == if k < 9 then Configured(RowEntry(BoardRow(k, xip, shareable))) else u.regions[k]
    {
      BoardRegions(u, xip, shareable, k);
    }
    SkipDisabled(g, addr, 9, 16);
    ResolveIsBoard(g, addr, 9, xip, shareable);
    RowsAreMap(addr, xip, shareable);
  }

  /** An address resolved to these register fields, with execution allowed. */
  ghost predicate Fields(r: Resolution, ap: nat, tex: nat, s: nat, c: nat, b: nat) {
    && r.Mapped? && r.attributes.xn == 0 && r.attributes.ap == ap
    && r.attributes.tex == tex && r.attributes.s == s && r.attributes.c == c && r.attributes.b == b
  }

  predicate Within(addr: U32, base: int, bytes: int) { base <= addr < base + bytes }

  /** What the board's memories need.  Access permission 3 is full access and 6 read-only; TEX, C
      and B are 0, 1, 1 for write-back memory, 1, 0, 0 for memory that is not cached and 2, 0, 0
      for devices. */
  ghost predicate MeetsMap(r: Resolution, addr: U32, xip: bool, shareable: bool) {
    // The two tightly coupled memories and the on-chip RAM.
    && (Within(addr, 0x0000_0000, 128 * 1024) ==> Fields(r, 3, 0, 0, 1, 1))
    && (Within(addr, 0x2000_0000, 128 * 1024) ==> Fields(r, 3, 0, 0, 1, 1))
    && (Within(addr, 0x2020_0000, 256 * 1024) ==> Fields(r, 3, 0, 0, 1, 1))
    // SDRAM, of which the last two megabytes are kept out of the cache.
    && (Within(addr, 0x8000_0000, 30 * 1024 * 1024) ==> Fields(r, 3, 0, if shareable then 1 else 0, 1, 1))
    && (Within(addr, 0x81E0_0000, 2 * 1024 * 1024) ==> Fields(r, 3, 1, 0, 0, 0))
    // External flash.
    && (Within(addr, 0x6000_0000, 64 * 1024 * 1024) ==>
          if xip then Fields(r, 6, 0, 0, 1, 1) else Fields(r, 6, 2, 0, 0, 0))
    // The device windows around them.
    && (0x0002_0000 <= addr < 0x2000_0000 || 0x2002_0000 <= addr < 0x2020_0000 ==> Fields(r, 3, 2, 0, 0, 0))
    && (0x2024_0000 <= addr < 0x4000_0000 || 0x8200_0000 <= addr < 0xE000_0000 ==> Fields(r, 3, 2, 0, 0, 0))
    // Everything else is left to the background map.
    && (0x4000_0000 <= addr < 0x6000_0000 || 0x6400_0000 <= addr < 0x8000_0000 ==> r.Background?)
    && (0xE000_0000 <= addr ==> r.Background?)
  }

  lemma EffectiveFields(u: Contents, xip: bool, shareable: bool, addr: U32)
    requires u.Valid() && UpperRegionsDisabled(u)
    ensures MeetsMap(Resolve(SetAll(u, BoardTable(xip, shareable)).regions, addr, 16), addr, xip, shareable)
  {
    hide Resolve, SetAll, BoardTable, UpperRegionsDisabled;
    EffectiveMap(u, xip, shareable, addr);
  }

  /** The map does not depend on the order in which the regions are written. */
  lemma MapOrderIrrelevant(u: Contents, xip: bool, shareable: bool, other: seq<Entry>, addr: U32)
    requires u.Valid() && UpperRegionsDisabled(u)
    requires multiset(other) == multiset(BoardTable(xip, shareable))
    ensures Resolve(SetAll(u, other).regions, addr, 16) == BoardMap(addr, xip, shareable)
    ensures MeetsMap(Resolve(SetAll(u, other).regions, addr, 16), addr, xip, shareable)
  {
    hide MeetsMap;
    BoardRowsNamed(xip, shareable);
    OrderIrrelevant(u, BoardTable(xip, shareable), other);
    EffectiveMap(u, xip, shareable, addr);
    EffectiveFields(u, xip, shareable, addr);
  }

  // ---- The configuration sequence ----

  /** Bit 2 of CTRL: privileged code sees the background map. */
  const CTRL_PRIVDEFENA := 4

  /** The states of the unit while rows 0, 1, ... are written. */
  ghost predicate IsTrace(us: seq<Contents>, xip: bool, shareable: bool) {
    && 1 <= |us| <= 10
    && (forall i | 0 <= i < |us| :: us[i].Valid())
    && forall i | 0 <= i < |us| - 1 :: us[i + 1] == SetRegion(us[i], RowEntry(BoardRow(i, xip, shareable)))
  }

  lemma {:induction false} TraceSetsAll(us: seq<Contents>, xip: bool, shareable: bool)
    requires IsTrace(us, xip, shareable)
    ensures us[|us| - 1] == SetAll(us[0], BoardTable(xip, shareable)[..|us| - 1])
  {
    hide SetRegion, RowEntry, BoardRow;
    var k := |us| - 1;
    if k == 0 {
    } else {
      TraceSetsAll(us[..k], xip, shareable);
      var table := BoardTable(xip, shareable);
      assert table[..k][..k - 1] == table[..k - 1];
      assert us[k] == SetRegion(us[k - 1], table[k - 1]);
    }
  }

  ghost predicate ResolvesToMap(was: Contents, u: Contents, xip: bool, shareable: bool)
    requires was.Valid() && u.Valid()
  {
    UpperRegionsDisabled(was) ==>
      forall addr: U32 :: MeetsMap(Resolve(u.regions, addr, 16), addr, xip, shareable)
  }

  lemma TraceResolves(us: seq<Contents>, xip: bool, shareable: bool)
    requires IsTrace(us, xip, shareable) && |us| == 10
    ensures us[9] == SetAll(us[0], BoardTable(xip, shareable))
    ensures us[9].regions == RegisterWords(xip, shareable) + us[0].regions[9..]
    ensures ResolvesToMap(us[0], us[9], xip, shareable)
  {
    TraceSetsAll(us, xip, shareable);
    assert BoardTable(xip, shareable)[..9] == BoardTable(xip, shareable);
    BoardWords(us[0], xip, shareable);
    if UpperRegionsDisabled(us[0]) {
      forall addr: U32
        ensures MeetsMap(Resolve(us[9].regions, addr, 16), addr, xip, shareable)
      {
        EffectiveFields(us[0], xip, shareable, addr);
      }
    }
  }

  /** The pair of register writes for row `k`. */
  method WriteRow(mpu: Mpu, k: nat, xip: bool, shareable: bool, ghost us: seq<Contents>)
      returns (ghost us': seq<Contents>)
    requires mpu.Valid() && k < 9 && |us| == k + 1
    requires IsTrace(us, xip, shareable) && us[k] == mpu.View()
    modifies mpu`rnr, mpu.regions
    ensures mpu.Valid() && |us'| == k + 2 && us'[0] == us[0]
    ensures IsTrace(us', xip, shareable) && us'[k + 1] == mpu.View()
  {
    var r := BoardRow(k, xip, shareable);
    var a := r.attributes;
    mpu.StoreRbar(Rbar(r.region, r.base));
    mpu.StoreRasr(Rasr(a.xn, a.ap, a.tex, a.s, a.c, a.b, 0, r.size));
    us' := us + [mpu.View()];
  }

  /** BOARD_ConfigMPU without its cache maintenance: disable the unit, write the nine regions,
      enable it with the default map as background for privileged code and with memory faults.
      The unit then resolves every address to the intended map. */
  method ConfigMpu(mpu: Mpu, xip: bool, shareable: bool)
    requires mpu.Valid()
    modifies mpu`ctrl, mpu`shcsr, mpu`rnr, mpu.regions
    ensures mpu.Valid() && mpu.View() == SetAll(old(mpu.View()), BoardTable(xip, shareable))
    ensures mpu.ctrl == 0x5 && mpu.shcsr / 0x1_0000 % 2 == 1
    ensures mpu.shcsr % 0x1_0000 == old(mpu.shcsr) % 0x1_0000 && mpu.shcsr / 0x2_0000 == old(mpu.shcsr) / 0x2_0000
    ensures mpu.regions[..] == RegisterWords(xip, shareable) + old(mpu.regions[9..])
    ensures ResolvesToMap(old(mpu.View()), mpu.View(), xip, shareable)
  {
    ghost var us := [mpu.View()];
    mpu.Disable();
    us := WriteRow(mpu, 0, xip, shareable, us);
    us := WriteRow(mpu, 1, xip, shareable, us);
    us := WriteRow(mpu, 2, xip, shareable, us);
    us := WriteRow(mpu, 3, xip, shareable, us);
    us := WriteRow(mpu, 4, xip, shareable, us);
    us := WriteRow(mpu, 5, xip, shareable, us);
    us := WriteRow(mpu, 6, xip, shareable, us);
    us := WriteRow(mpu, 7, xip, shareable, us);
    us := WriteRow(mpu, 8, xip, shareable, us);
    TraceResolves(us, xip, shareable);
    mpu.Enable(CTRL_PRIVDEFENA);
  }
}
