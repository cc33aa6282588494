/** Sorting rows by a count column in descending order: the
    `sort_values(by=..., ascending=False)` step every helper ends with. The
    model sorts by insertion; its contracts say only that the result is a
    permutation ordered by the column, so nothing depends on how ties are
    broken (pandas' default quicksort does not promise an order for them). */
module Sorting {
  import opened Seqs
  import opened Frame

  /** Column `col` never increases from one row to a later one. */
  ghost predicate SortedDesc(rows: seq<Row>, col: string) {
    forall i, j :: 0 <= i < j < |rows| ==> Num(rows[i], col) >= Num(rows[j], col)
  }

  /** `row` put before the first row whose count it is at least. */
  function Insert(row: Row, rows: seq<Row>, col: string): (r: seq<Row>)
    ensures multiset(r) == multiset(rows) + multiset{row}
    ensures SortedDesc(rows, col) ==> SortedDesc(r, col)
  {
    if rows == [] || Num(row, col) >= Num(rows[0], col) then
      PrependSorted(row, rows, col);
      [row] + rows
    else
      assert rows == [rows[0]] + rows[1..];
      var tail := Insert(row, rows[1..], col);
      BoundedByHead(rows, row, tail, col);
      PrependSorted(rows[0], tail, col);
      [rows[0]] + tail
  }

  /** A row at least as large as everything after it extends a sorted
      sequence at the front. */
  lemma PrependSorted(h: Row, rows: seq<Row>, col: string)
    ensures (rows != [] ==> Num(h, col) >= Num(rows[0], col)) && SortedDesc(rows, col) ==>
              SortedDesc([h] + rows, col)
  {
  }

  /** Inserting a smaller row into the tail of a sorted sequence keeps every
      row of the result at most the head. */
  lemma BoundedByHead(rows: seq<Row>, row: Row, tail: seq<Row>, col: string)
    requires rows != []
    requires Num(row, col) < Num(rows[0], col)
    requires multiset(tail) == multiset(rows[1..]) + multiset{row}
    ensures SortedDesc(rows, col) && tail != [] ==> Num(rows[0], col) >= Num(tail[0], col)
  {
    if SortedDesc(rows, col) && tail != [] {
      assert tail[0] in multiset(tail);
      if tail[0] != row {
        assert tail[0] in rows[1..];
      }
    }
  }

  /** The rows ordered by column `col`, largest count first. */
  function SortDesc(rows: seq<Row>, col: string): (r: seq<Row>)
    ensures multiset(r) == multiset(rows)
    ensures SortedDesc(r, col)
  {
    if rows == [] then []
    else
      assert rows == [rows[0]] + rows[1..];
      Insert(rows[0], SortDesc(rows[1..], col), col)
  }

  /** Rows already in order come back unchanged: a sorted table is a fixed
      point of the sort. */
  lemma {:induction false} SortDescKeepsSorted(rows: seq<Row>, col: string)
    requires SortedDesc(rows, col)
    ensures SortDesc(rows, col) == rows
  {
    if rows != [] {
      assert SortedDesc(rows[1..], col);
      SortDescKeepsSorted(rows[1..], col);
      assert rows == [rows[0]] + rows[1..];
    }
  }
}
