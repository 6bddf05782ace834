/** Region tables of both memory protection units: rows of two words that lie one after the other
    in memory, as the loaders copy them. */
module MpuTable {
  import opened Words

  /** A row: the base address word and the attribute word behind it, which is RLAR on Armv8-M and
      RASR on Armv7-M. */
  datatype Entry = Entry(rbar: U32, attr: U32)

  /** The words of a table in memory order. */
  function TableWords(table: seq<Entry>): (words: seq<U32>)
    ensures |words| == 2 * |table|
  {
    if table == [] then []
    else
      var n := |table| - 1;
      TableWords(table[..n]) + [table[n].rbar, table[n].attr]
  }

  /** The words of the first `c` rows come first. */
  lemma {:induction false} WordsPrefix(table: seq<Entry>, c: nat)
    requires c <= |table|
    ensures TableWords(table)[..2 * c] == TableWords(table[..c])
  {
    if c == |table| {
      assert table[..c] == table;
    } else {
      var n := |table| - 1;
      WordsPrefix(table[..n], c);
      assert table[..n][..c] == table[..c];
    }
  }
}
