/** An immutable stand-in for the pandas DataFrame the helpers work on: a
    table is its column names plus a sequence of rows, and a row maps every
    column name to the value in that cell. The positional index pandas keeps
    beside the rows is left implicit: every helper resets it, so a result is
    simply a sequence. */
module Frame {
  import opened Seqs

  /** A cell value: a categorical label, a death count, or a list of values
      (the `values` column of a categorical summary holds one). Counts are
      unbounded integers rather than the floats pandas may store. */
  datatype Value =
    | Text(s: string)
    | Count(n: int)
    | Items(elems: seq<Value>)

  /** One row: column name to cell value. */
  type Row = map<string, Value>

  datatype Table = Table(columns: seq<string>, rows: seq<Row>) {

    /** Column names are distinct and every row has a value in exactly the
        table's columns: no missing cells. */
    ghost predicate Valid() {
      && NoDups(columns)
      && forall i :: 0 <= i < |rows| ==> rows[i].Keys == Members(columns)
    }

    /** Column `c`, where present, holds death counts in every row. */
    ghost predicate CountColumn(c: string) {
      forall i :: 0 <= i < |rows| ==> c in rows[i] ==> rows[i][c].Count?
    }
  }

  /** The value of a row in column `c`. The empty label stands in for a cell
      a row does not have, which a valid table never lacks. */
  function Cell(row: Row, c: string): Value {
    if c in row then row[c] else Text("")
  }

  /** The count in column `c`, used as a sort and sum key. A cell that is
      absent or not a count reads as 0; the operations require count cells
      wherever they sort or sum. */
  function Num(row: Row, c: string): int {
    if c in row && row[c].Count? then row[c].n else 0
  }

  /** Column `c` of the rows, top to bottom: pandas' `df[c]`. */
  function Column(rows: seq<Row>, c: string): seq<Value> {
    Map(rows, (row: Row) => Cell(row, c))
  }

  /** A value pandas can hash: a label or a count. A list cell is
      unhashable, so `unique()`, `isin` and `groupby` raise on it. */
  predicate Hashable(v: Value) {
    !v.Items?
  }

  /** Every value in the list is hashable. */
  predicate AllHashable(vs: seq<Value>) {
    forall i :: 0 <= i < |vs| ==> Hashable(vs[i])
  }

  /** Every cell of column `c` is hashable. */
  predicate HashableColumn(rows: seq<Row>, c: string) {
    AllHashable(Column(rows, c))
  }

  /** The position of the first column of `cols` holding a list cell, or
      `|cols|` when every one of them can be hashed. */
  function FirstUnhashable(rows: seq<Row>, cols: seq<string>): (i: nat)
    ensures i <= |cols|
    ensures forall j :: 0 <= j < i ==> HashableColumn(rows, cols[j])
    ensures i < |cols| ==> !HashableColumn(rows, cols[i])
  {
    if cols == [] || !HashableColumn(rows, cols[0]) then 0
    else 1 + FirstUnhashable(rows, cols[1..])
  }

  /** Rows drawn from a column with no list cell carry no list cell there
      either. */
  lemma HashableSubset(a: seq<Row>, b: seq<Row>, c: string)
    requires forall i :: 0 <= i < |a| ==> a[i] in b
    requires HashableColumn(b, c)
    ensures HashableColumn(a, c)
  {
    forall i | 0 <= i < |a| ensures Hashable(Column(a, c)[i]) {
      var j :| 0 <= j < |b| && b[j] == a[i];
      assert Column(b, c)[j] == Cell(a[i], c);
    }
  }

  /** The sum of column `c` over the rows. */
  function SumOf(rows: seq<Row>, c: string): int {
    if rows == [] then 0 else Num(rows[0], c) + SumOf(rows[1..], c)
  }

  /** The sum of a column is additive over concatenation. */
  lemma {:induction false} SumOfConcat(a: seq<Row>, b: seq<Row>, c: string)
    ensures SumOf(a + b, c) == SumOf(a, c) + SumOf(b, c)
  {
    if a == [] {
      assert a + b == b;
    } else {
      assert (a + b)[0] == a[0];
      assert (a + b)[1..] == a[1..] + b;
      SumOfConcat(a[1..], b, c);
    }
  }

  /** The sum of a column depends only on the multiset of rows, so no
      reordering of the rows changes it. */
  lemma {:induction false} SumOfPermutation(a: seq<Row>, b: seq<Row>, c: string)
    requires multiset(a) == multiset(b)
    ensures SumOf(a, c) == SumOf(b, c)
    decreases |a|
  {
    if a != [] {
      assert a[0] in multiset(b);
      var p :| 0 <= p < |b| && b[p] == a[0];
      RemoveMatching(a, b, p);
      SumOfPermutation(a[1..], b[..p] + b[p + 1..], c);
      SumOfConcat(b[..p], b[p + 1..], c);
      SumOfConcat(b[..p] + [b[p]], b[p + 1..], c);
      SumOfConcat(b[..p], [b[p]], c);
    } else {
      assert b == [];
    }
  }
}
