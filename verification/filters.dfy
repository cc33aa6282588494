/** `row_filter` and `nrow_filter`: keep the rows whose value in one column is
    (or is not) among given values, then order them by the death count,
    largest first. */
module Filters {
  import opened Seqs
  import opened Frame
  import opened Sorting
  import opened Errors

  /** The death-count column both filters sort by. */
  const TotalCol := "Total"

  /** `df[k].isin(vs)` for one row. */
  predicate IsIn(row: Row, k: string, vs: seq<Value>) {
    k in row && row[k] in vs
  }

  /** `isin` hashes the cells of column `k` and the values looked for, so
      it raises unless all of them can be hashed. */
  predicate CanHash(rows: seq<Row>, k: string, vs: seq<Value>) {
    HashableColumn(rows, k) && AllHashable(vs)
  }

  /** Boolean-mask selection, order kept: `df[mask]` when `keep` holds and
      `df[~mask]` otherwise, for the mask `df[k].isin(vs)`. */
  function Mask(rows: seq<Row>, k: string, vs: seq<Value>, keep: bool): (r: seq<Row>)
    ensures forall row :: multiset(r)[row] == if IsIn(row, k, vs) == keep then multiset(rows)[row] else 0
  {
    if rows == [] then []
    else
      assert rows == [rows[0]] + rows[1..];
      (if IsIn(rows[0], k, vs) == keep then [rows[0]] else []) + Mask(rows[1..], k, vs, keep)
  }

  /** A mask every row passes selects everything. */
  lemma {:induction false} MaskKeepsAll(rows: seq<Row>, k: string, vs: seq<Value>, keep: bool)
    requires forall i :: 0 <= i < |rows| ==> IsIn(rows[i], k, vs) == keep
    ensures Mask(rows, k, vs, keep) == rows
  {
    if rows != [] {
      MaskKeepsAll(rows[1..], k, vs, keep);
      assert rows == [rows[0]] + rows[1..];
    }
  }

  /** The masked rows, then the sort by "Total". A missing filter column
      raises first, then a list cell `isin` cannot hash, then a missing
      "Total" column. */
  function Select(t: Table, k: string, vs: seq<Value>, keep: bool): (r: Result<Table>)
    requires t.Valid() && t.CountColumn(TotalCol)
    ensures r.Err? <==> k !in t.columns || !CanHash(t.rows, k, vs) || TotalCol !in t.columns
    ensures k !in t.columns ==> r == Err(MissingColumn(k))
    ensures k in t.columns && !CanHash(t.rows, k, vs) ==> r == Err(Unhashable(k))
    ensures k in t.columns && CanHash(t.rows, k, vs) && TotalCol !in t.columns ==> r == Err(MissingColumn(TotalCol))
    ensures r.Ok? ==> r.value.columns == t.columns && r.value.Valid() && r.value.CountColumn(TotalCol)
    ensures r.Ok? ==> SortedDesc(r.value.rows, TotalCol)
    ensures r.Ok? ==> forall row :: multiset(r.value.rows)[row] ==
                        if IsIn(row, k, vs) == keep then multiset(t.rows)[row] else 0
  {
    if k !in t.columns then Err(MissingColumn(k))
    else if !CanHash(t.rows, k, vs) then Err(Unhashable(k))
    else if TotalCol !in t.columns then Err(MissingColumn(TotalCol))
    else
      var kept := Mask(t.rows, k, vs, keep);
      var sorted := SortDesc(kept, TotalCol);
      SelectKeepsRows(t, k, vs, keep, sorted);
      Ok(Table(t.columns, sorted))
  }

  /** Rows drawn from a valid table, in any order, form a valid table with
      the same columns. */
  lemma SelectKeepsRows(t: Table, k: string, vs: seq<Value>, keep: bool, out: seq<Row>)
    requires t.Valid() && t.CountColumn(TotalCol)
    requires multiset(out) == multiset(Mask(t.rows, k, vs, keep))
    ensures Table(t.columns, out).Valid() && Table(t.columns, out).CountColumn(TotalCol)
  {
    forall i | 0 <= i < |out| ensures out[i] in t.rows {
      assert out[i] in multiset(out);
    }
  }

  /** `row_filter`: the rows whose value in column `k` is one of `vs`, each as
      often as in the input, ordered by "Total" from largest to smallest,
      with every column kept. Asking for a column the table lacks raises, and
      so does a list among the cells of `k` or among `vs`. */
  function RowFilter(t: Table, k: string, vs: seq<Value>): (r: Result<Table>)
    requires t.Valid() && t.CountColumn(TotalCol)
    ensures r.Err? <==> k !in t.columns || !CanHash(t.rows, k, vs) || TotalCol !in t.columns
    ensures k !in t.columns ==> r == Err(MissingColumn(k))
    ensures k in t.columns && !CanHash(t.rows, k, vs) ==> r == Err(Unhashable(k))
    ensures k in t.columns && CanHash(t.rows, k, vs) && TotalCol !in t.columns ==> r == Err(MissingColumn(TotalCol))
    ensures r.Ok? ==> r.value.columns == t.columns && r.value.Valid() && r.value.CountColumn(TotalCol)
    ensures r.Ok? ==> SortedDesc(r.value.rows, TotalCol)
    ensures r.Ok? ==> forall row :: multiset(r.value.rows)[row] ==
                        if IsIn(row, k, vs) then multiset(t.rows)[row] else 0
  {
    Select(t, k, vs, true)
  }

  /** `nrow_filter`: as `row_filter`, for the rows whose value in column `k`
      is none of `vs`. */
  function NRowFilter(t: Table, k: string, vs: seq<Value>): (r: Result<Table>)
    requires t.Valid() && t.CountColumn(TotalCol)
    ensures r.Err? <==> k !in t.columns || !CanHash(t.rows, k, vs) || TotalCol !in t.columns
    ensures k !in t.columns ==> r == Err(MissingColumn(k))
    ensures k in t.columns && !CanHash(t.rows, k, vs) ==> r == Err(Unhashable(k))
    ensures k in t.columns && CanHash(t.rows, k, vs) && TotalCol !in t.columns ==> r == Err(MissingColumn(TotalCol))
    ensures r.Ok? ==> r.value.columns == t.columns && r.value.Valid() && r.value.CountColumn(TotalCol)
    ensures r.Ok? ==> SortedDesc(r.value.rows, TotalCol)
    ensures r.Ok? ==> forall row :: multiset(r.value.rows)[row] ==
                        if IsIn(row, k, vs) then 0 else multiset(t.rows)[row]
  {
    Select(t, k, vs, false)
  }

  /** The two filters with the same arguments split the table: together they
      hold every input row exactly as often as the input does, no row is in
      both, and the death counts of the two parts add up to the input's. */
  lemma FiltersPartition(t: Table, k: string, vs: seq<Value>)
    requires t.Valid() && t.CountColumn(TotalCol)
    ensures RowFilter(t, k, vs).Ok? <==> NRowFilter(t, k, vs).Ok?
    ensures RowFilter(t, k, vs).Ok? ==>
              var kept := RowFilter(t, k, vs).value.rows;
              var dropped := NRowFilter(t, k, vs).value.rows;
              && multiset(kept) + multiset(dropped) == multiset(t.rows)
              && multiset(kept) !! multiset(dropped)
              && SumOf(kept, TotalCol) + SumOf(dropped, TotalCol) == SumOf(t.rows, TotalCol)
  {
    if RowFilter(t, k, vs).Ok? {
      var kept := RowFilter(t, k, vs).value.rows;
      var dropped := NRowFilter(t, k, vs).value.rows;
      MultisetPartition(t.rows, kept, dropped, k, vs);
      SumOfPermutation(kept + dropped, t.rows, TotalCol);
      SumOfConcat(kept, dropped, TotalCol);
    }
  }

  /** Two multisets that count each row as the two masks do add up to the
      rows and share nothing. */
  lemma MultisetPartition(rows: seq<Row>, kept: seq<Row>, dropped: seq<Row>, k: string, vs: seq<Value>)
    requires forall row :: multiset(kept)[row] == if IsIn(row, k, vs) then multiset(rows)[row] else 0
    requires forall row :: multiset(dropped)[row] == if IsIn(row, k, vs) then 0 else multiset(rows)[row]
    ensures multiset(kept + dropped) == multiset(rows)
    ensures multiset(kept) !! multiset(dropped)
  {
    forall row ensures multiset(kept + dropped)[row] == multiset(rows)[row] {
    }
  }

  /** Filtering the result of `row_filter` again with the same arguments
      changes nothing: every row already passes and the order is already
      sorted. */
  lemma RowFilterIdempotent(t: Table, k: string, vs: seq<Value>)
    requires t.Valid() && t.CountColumn(TotalCol)
    requires RowFilter(t, k, vs).Ok?
    ensures RowFilter(RowFilter(t, k, vs).value, k, vs) == RowFilter(t, k, vs)
  {
    var out := RowFilter(t, k, vs).value;
    forall i | 0 <= i < |out.rows| ensures IsIn(out.rows[i], k, vs) && out.rows[i] in t.rows {
      assert out.rows[i] in multiset(out.rows);
    }
    HashableSubset(out.rows, t.rows, k);
    MaskKeepsAll(out.rows, k, vs, true);
    SortDescKeepsSorted(out.rows, TotalCol);
  }

  /** The same for `nrow_filter`. */
  lemma NRowFilterIdempotent(t: Table, k: string, vs: seq<Value>)
    requires t.Valid() && t.CountColumn(TotalCol)
    requires NRowFilter(t, k, vs).Ok?
    ensures NRowFilter(NRowFilter(t, k, vs).value, k, vs) == NRowFilter(t, k, vs)
  {
    var out := NRowFilter(t, k, vs).value;
    forall i | 0 <= i < |out.rows| ensures !IsIn(out.rows[i], k, vs) && out.rows[i] in t.rows {
      assert out.rows[i] in multiset(out.rows);
    }
    HashableSubset(out.rows, t.rows, k);
    MaskKeepsAll(out.rows, k, vs, false);
    SortDescKeepsSorted(out.rows, TotalCol);
  }
}
