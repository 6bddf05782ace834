/** Loading region tables into the Armv8-M memory protection unit (CMSIS/mpu_armv8.h).
    Register words are opaque 32-bit values.  The alias registers follow the MPU_RBAR_A<n> and
    MPU_RLAR_A<n> descriptions of the Armv8-M Architecture Reference Manual (DDI 0553): alias n
    accesses the region whose number is RNR with its two lowest bits replaced by n. */
module MpuV8 {
  import opened Words
  import opened MpuTable

  // ---- The register file ----

  /** The region accessed through alias `n`; alias 0 is the plain register pair. */
  function Target(rnr: nat, n: nat): nat {
    if n == 0 then rnr else rnr - rnr % 4 + n
  }

  /** The region that holds the word `offset` words behind RBAR. */
  function WordTarget(rnr: nat, offset: nat): nat {
    Target(rnr, offset / 2)
  }

  /** Effect of storing a word `offset` words behind RBAR: even words are base address
      registers, odd words limit address registers.  Stores beyond the file have no effect here;
      the methods never make them. */
  function PutWord(file: seq<Entry>, rnr: nat, offset: nat, value: U32): (r: seq<Entry>)
    ensures |r| == |file|
  {
    var k := WordTarget(rnr, offset);
    if k >= |file| then file
    else if offset % 2 == 0 then file[k := file[k].(rbar := value)]
    else file[k := file[k].(attr := value)]
  }

  /** Effect of an ordered copy of words to the window behind RBAR. */
  function PutWords(file: seq<Entry>, rnr: nat, dst: nat, words: seq<U32>): (r: seq<Entry>)
    ensures |r| == |file|
  {
    if words == [] then file
    else
      var n := |words| - 1;
      PutWord(PutWords(file, rnr, dst, words[..n]), rnr, dst + n, words[n])
  }

  ghost predicate InFile(size: nat, rnr: nat, dst: nat, len: nat) {
    forall k: nat | dst <= k < dst + len :: WordTarget(rnr, k) < size
  }

  /** Setting the rows one after the other, each through its own region number. */
  function SetAll(file: seq<Entry>, first: nat, rows: seq<Entry>): (r: seq<Entry>)
    requires first + |rows| <= |file|
    ensures |r| == |file|
  {
    if rows == [] then file
    else
      var n := |rows| - 1;
      SetAll(file, first, rows[..n])[first + n := rows[n]]
  }

  /** The simple loop places row i at region first + i and touches nothing else. */
  lemma {:induction false} SetAllPlaces(file: seq<Entry>, first: nat, rows: seq<Entry>)
    requires first + |rows| <= |file|
    ensures SetAll(file, first, rows) == file[..first] + rows + file[first + |rows|..]
  {
    if rows == [] {
    } else {
      SetAllPlaces(file, first, rows[..|rows| - 1]);
    }
  }

  lemma {:induction false} SetAllConcat(file: seq<Entry>, first: nat, rows: seq<Entry>, more: seq<Entry>)
    requires first + |rows| + |more| <= |file|
    ensures SetAll(file, first, rows + more) == SetAll(SetAll(file, first, rows), first + |rows|, more)
  {
    SetAllPlaces(file, first, rows);
    SetAllPlaces(file, first, rows + more);
    SetAllPlaces(SetAll(file, first, rows), first + |rows|, more);
  }

  /** Alias numbers from `offset` on reach consecutive regions: always from an aligned region
      number within four aliases, and trivially for the plain register pair alone. */
  ghost predicate Consecutive(base: nat, offset: nat, count: nat) {
    (base % 4 == 0 && offset + count <= 4) || (offset == 0 && count <= 1)
  }

  lemma TargetConsecutive(base: nat, offset: nat, count: nat, i: nat)
    requires Consecutive(base, offset, count) && i < count
    ensures Target(base, offset + i) == base + offset + i
  {
  }

  lemma WindowInFile(size: nat, base: nat, offset: nat, count: nat)
    requires Consecutive(base, offset, count) && base + offset + count <= size
    ensures InFile(size, base, 2 * offset, 2 * count)
  {
    forall k: nat | 2 * offset <= k < 2 * offset + 2 * count
      ensures WordTarget(base, k) < size
    {
      TargetConsecutive(base, offset, count, k / 2 - offset);
    }
  }

  /** Copying the words of some rows through the aliases sets exactly those rows. */
  lemma {:induction false} CopyIsSetAll(file: seq<Entry>, base: nat, offset: nat, rows: seq<Entry>)
    requires Consecutive(base, offset, |rows|) && base + offset + |rows| <= |file|
    ensures PutWords(file, base, 2 * offset, TableWords(rows)) == SetAll(file, base + offset, rows)
  {
    if rows == [] {
    } else {
      var n := |rows| - 1;
      CopyIsSetAll(file, base, offset, rows[..n]);
      TargetConsecutive(base, offset, |rows|, n);
      CopyRow(file, base, offset, TableWords(rows[..n]), rows[n]);
    }
  }

  /** Two more words store one more row. */
  lemma CopyRow(file: seq<Entry>, base: nat, offset: nat, words: seq<U32>, row: Entry)
    requires |words| % 2 == 0 && Target(base, offset + |words| / 2) < |file|
    ensures PutWords(file, base, 2 * offset, words + [row.rbar, row.attr])
         == PutWords(file, base, 2 * offset, words)[Target(base, offset + |words| / 2) := row]
  {
    PutTwo(file, base, 2 * offset, words, row.rbar, row.attr);
    PutPair(PutWords(file, base, 2 * offset, words), base, offset + |words| / 2, row);
  }

  lemma PutTwo(file: seq<Entry>, rnr: nat, dst: nat, words: seq<U32>, a: U32, b: U32)
    ensures PutWords(file, rnr, dst, words + [a, b])
         == PutWord(PutWord(PutWords(file, rnr, dst, words), rnr, dst + |words|, a), rnr, dst + |words| + 1, b)
  {
    hide PutWord, PutWords;
    PutSnoc(file, rnr, dst, words, a);
    var more := words + [a];
    PutSnoc(file, rnr, dst, more, b);
    assert more + [b] == words + [a, b];
  }

  lemma PutSnoc(file: seq<Entry>, rnr: nat, dst: nat, words: seq<U32>, a: U32)
    ensures PutWords(file, rnr, dst, words + [a])
         == PutWord(PutWords(file, rnr, dst, words), rnr, dst + |words|, a)
  {
    assert (words + [a])[..|words|] == words;
  }

  lemma PutPair(file: seq<Entry>, rnr: nat, alias: nat, row: Entry)
    requires Target(rnr, alias) < |file|
    ensures PutWord(PutWord(file, rnr, 2 * alias, row.rbar), rnr, 2 * alias + 1, row.attr)
         == file[Target(rnr, alias) := row]
  {
    assert WordTarget(rnr, 2 * alias) == WordTarget(rnr, 2 * alias + 1) == Target(rnr, alias);
  }

  /** The start of the alias block that contains a region. */
  function BlockBase(region: nat, aliases: nat): nat
    requires aliases > 0
  {
    region - region % aliases
  }

  lemma SameBlock(base: nat, k: nat)
    requires base % 4 == 0 && k < 4
    ensures BlockBase(base + k, 4) == base
  {
    DivModUnique(base + k, 4, base / 4, k);
  }

  /** The protection unit: its region number register and its register file. */
  class Mpu {
    /** MPU_TYPE_RALIASES: four on Mainline, one on Baseline. */
    const aliases: nat
    var rnr: nat
    var regions: array<Entry>

    ghost predicate Valid()
      reads this
    {
      (aliases == 1 || aliases == 4) && regions.Length <= 256
    }

    /** A store into the window of alias registers. */
    method StoreWord(offset: nat, value: U32)
      requires Valid() && offset < 2 * aliases && WordTarget(rnr, offset) < regions.Length
      modifies regions
      ensures regions[..] == PutWord(old(regions[..]), rnr, offset, value)
    {
      var k := WordTarget(rnr, offset);
      if offset % 2 == 0 {
        regions[k] := regions[k].(rbar := value);
      } else {
        regions[k] := regions[k].(attr := value);
      }
    }

    /** The copy loop; its precondition keeps it inside the alias window. */
    method OrderedCpy(dst: nat, src: seq<U32>, len: nat)
      requires Valid() && len <= |src| && dst + len <= 2 * aliases
      requires InFile(regions.Length, rnr, dst, len)
      modifies regions
      ensures regions[..] == PutWords(old(regions[..]), rnr, dst, src[..len])
    {
      for i := 0 to len
        invariant regions[..] == PutWords(old(regions[..]), rnr, dst, src[..i])
      {
        assert src[..i + 1][..i] == src[..i];
        StoreWord(dst + i, src[i]);
      }
    }

    /** The copy of `c` rows of a table, from row `row` on, to the window from alias `offset` on:
        it extends the rows already set. */
    method CopyTable(offset: nat, table: seq<Entry>, row: nat, c: nat, ghost was: seq<Entry>, ghost first: nat)
      requires Valid() && row + c <= |table| && offset + c <= aliases
      requires Consecutive(rnr, offset, c) && rnr + offset == first + row
      requires |was| == regions.Length && first + row + c <= |was|
      requires regions[..] == SetAll(was, first, table[..row])
      modifies regions
      ensures regions[..] == SetAll(was, first, table[..row + c])
    {
      hide TableWords, SetAll, PutWords, Target;
      var words := TableWords(table[row..]);
      ghost var rows := table[row..row + c];
      assert table[row..][..c] == rows;
      WordsPrefix(table[row..], c);
      CopyIsSetAll(regions[..], rnr, offset, rows);
      WindowInFile(regions.Length, rnr, offset, c);
      OrderedCpy(2 * offset, words, 2 * c);
      NextRows(was, first, table, row, c);
    }

    method SetRegionEx(region: nat, rbar: U32, rlar: U32)
      requires Valid() && region < regions.Length
      modifies this`rnr, regions
      ensures regions[..] == SetAll(old(regions[..]), region, [Entry(rbar, rlar)])
      ensures rnr == region
    {
      rnr := region;
      assert WordTarget(rnr, 0) == region && WordTarget(rnr, 1) == region;
      StoreWord(0, rbar);
      StoreWord(1, rlar);
      assert [Entry(rbar, rlar)][..0] == [];
    }

    method ClrRegionEx(region: nat)
      requires Valid() && region < regions.Length
      modifies this`rnr, regions
      ensures regions[..] == old(regions[..])[region := old(regions[region]).(attr := 0)]
      ensures rnr == region
    {
      rnr := region;
      assert WordTarget(rnr, 1) == region;
      StoreWord(1, 0);
    }

    /** Loading `cnt` rows from region `first` on, split at alias block boundaries, equals setting
        them one by one; only the final region number differs. */
    method LoadEx(first: nat, table: seq<Entry>, cnt: nat)
      requires Valid() && cnt <= |table| && first + cnt <= regions.Length
      modifies this`rnr, regions
      ensures regions[..] == SetAll(old(regions[..]), first, table[..cnt])
      ensures rnr == if cnt == 1 then first
                     else if cnt == 0 then BlockBase(first, aliases)
                     else BlockBase(first + cnt - 1, aliases)
    {
      hide SetAll, Target;
      ghost var was := regions[..];
      assert SetAll(was, first, table[..0]) == was by {
        SetAllPlaces(was, first, table[..0]);
      }
      if cnt == 1 {
        rnr := first;
        CopyTable(0, table, 0, 1, was, first);
      } else {
        FirstBlock(first);
        var rnrBase: nat := first - first % aliases;
        var rnrOffset: nat := first % aliases;
        var row: nat, left: nat := 0, cnt;
        rnr := rnrBase;
        while rnrOffset + left > aliases
          invariant rnrOffset < aliases && Aligned(rnrBase) && rnr == rnrBase
          invariant row + left == cnt && rnrBase + rnrOffset == first + row
          invariant left == 0 ==> row == 0
          invariant regions[..] == SetAll(was, first, table[..row])
          decreases left
        {
          var c := aliases - rnrOffset;
          CopyTable(rnrOffset, table, row, c, was, first);
          row := row + c;
          left := left - c;
          rnrOffset := 0;
          rnrBase := rnrBase + aliases;
          rnr := rnrBase;
        }
        CopyTable(rnrOffset, table, row, left, was, first);
        LastBlock(rnrBase, rnrOffset, left);
      }
    }

    ghost predicate Aligned(base: nat) {
      aliases == 4 ==> base % 4 == 0
    }

    lemma FirstBlock(first: nat)
      requires Valid()
      ensures 0 <= first % aliases < aliases
      ensures first >= first % aliases && Aligned(first - first % aliases)
    {
    }

    lemma LastBlock(base: nat, offset: nat, count: nat)
      requires Valid() && Aligned(base) && offset + count <= aliases && offset < aliases
      ensures BlockBase(if count == 0 then base + offset else base + offset + count - 1, aliases) == base
    {
      if aliases == 1 {
      } else {
        SameBlock(base, if count == 0 then offset else offset + count - 1);
      }
    }

    lemma NextRows(file: seq<Entry>, first: nat, table: seq<Entry>, row: nat, c: nat)
      requires row + c <= |table| && first + row + c <= |file|
      ensures SetAll(SetAll(file, first, table[..row]), first + row, table[row..row + c])
           == SetAll(file, first, table[..row + c])
    {
      SetAllConcat(file, first, table[..row], table[row..row + c]);
      assert table[..row] + table[row..row + c] == table[..row + c];
    }
  }
}
