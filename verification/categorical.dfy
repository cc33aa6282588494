/** `cat_var`: a summary of categorical columns, one row per column naming it,
    listing its distinct values and counting them, ordered by that count,
    largest first. */
module Categorical {
  import opened Seqs
  import opened Frame
  import opened Sorting
  import opened Errors

  const VariableCol := "categorical_variable"
  const CountCol := "number_of_possible_values"
  const ValuesCol := "values"

  /** The columns of a summary table, in the order pandas builds them. */
  const SummaryColumns := [VariableCol, CountCol, ValuesCol]

  /** The summary row of column `c`: `df[c].unique()` and its length. */
  function Summary(rows: seq<Row>, c: string): Row {
    var u := Distinct(Column(rows, c));
    map[VariableCol := Text(c), CountCol := Count(|u|), ValuesCol := Items(u)]
  }

  /** The column a summary row describes. */
  function NameOf(row: Row): string {
    if VariableCol in row && row[VariableCol].Text? then row[VariableCol].s else ""
  }

  /** The columns the summary rows describe, top to bottom. */
  function Names(rows: seq<Row>): seq<string> {
    Map(rows, NameOf)
  }

  /** `row` correctly summarises its column of `rows`: it lists every value of
      the column once, in order of first appearance, and its count is the
      number of distinct values. */
  ghost predicate Summarizes(row: Row, rows: seq<Row>) {
    && row.Keys == Members(SummaryColumns)
    && row[VariableCol].Text?
    && row[ValuesCol].Items?
    && var col := Column(rows, row[VariableCol].s);
       var u := row[ValuesCol].elems;
       && (forall i :: 0 <= i < |u| ==> u[i] in col)
       && (forall i :: 0 <= i < |col| ==> col[i] in u)
       && NoDups(u)
       && (forall i, j :: 0 <= i < j < |u| ==> FirstIndex(col, u[i]) < FirstIndex(col, u[j]))
       && row[CountCol] == Count(|Members(col)|)
  }

  /** Each summary row summarises the column it names. */
  lemma SummarySummarizes(rows: seq<Row>, c: string)
    ensures NameOf(Summary(rows, c)) == c
    ensures Summarizes(Summary(rows, c), rows)
  {
    var col := Column(rows, c);
    var u := Distinct(col);
    NoDupsCard(u);
    assert Members(u) == Members(col);
  }

  /** The position of the first listed column that `df[col].unique()`
      fails on, because the table lacks it or it holds a list cell, or
      `|cols|` when there is none. */
  function FirstUnusable(t: Table, cols: seq<string>): (i: nat)
    ensures i <= |cols|
    ensures forall j :: 0 <= j < i ==> cols[j] in t.columns && HashableColumn(t.rows, cols[j])
    ensures i < |cols| ==> cols[i] !in t.columns || !HashableColumn(t.rows, cols[i])
  {
    if cols == [] || cols[0] !in t.columns || !HashableColumn(t.rows, cols[0]) then 0
    else 1 + FirstUnusable(t, cols[1..])
  }

  /** `cat_var(df, cols)`. The columns are summarised in the order listed,
      and the first one the table lacks or whose values include a list raises.
      With no columns at all the summary frame has no count column to sort
      by, which raises too. */
  function CatVar(t: Table, cols: seq<string>): (r: Result<Table>)
    requires t.Valid()
    ensures r.Err? <==> cols == [] || FirstUnusable(t, cols) < |cols|
    ensures cols == [] ==> r == Err(MissingColumn(CountCol))
    ensures FirstUnusable(t, cols) < |cols| && cols[FirstUnusable(t, cols)] !in t.columns ==>
              r == Err(MissingColumn(cols[FirstUnusable(t, cols)]))
    ensures FirstUnusable(t, cols) < |cols| && cols[FirstUnusable(t, cols)] in t.columns ==>
              r == Err(Unhashable(cols[FirstUnusable(t, cols)]))
    ensures r.Ok? ==> r.value.columns == SummaryColumns && r.value.Valid() && r.value.CountColumn(CountCol)
    ensures r.Ok? ==> |r.value.rows| == |cols| && multiset(Names(r.value.rows)) == multiset(cols)
    ensures r.Ok? ==> forall i :: 0 <= i < |r.value.rows| ==> Summarizes(r.value.rows[i], t.rows)
    ensures r.Ok? ==> SortedDesc(r.value.rows, CountCol)
  {
    if FirstUnusable(t, cols) < |cols| then
      var c := cols[FirstUnusable(t, cols)];
      if c !in t.columns then Err(MissingColumn(c)) else Err(Unhashable(c))
    else if cols == [] then Err(MissingColumn(CountCol))
    else
      var summaries := Map(cols, (c: string) => Summary(t.rows, c));
      var out := SortDesc(summaries, CountCol);
      CatVarFacts(t.rows, cols, summaries, out);
      Ok(Table(SummaryColumns, out))
  }

  /** The proof obligations of `CatVar`'s successful path. */
  lemma CatVarFacts(rows: seq<Row>, cols: seq<string>, summaries: seq<Row>, out: seq<Row>)
    requires |summaries| == |cols|
    requires forall i :: 0 <= i < |cols| ==> summaries[i] == Summary(rows, cols[i])
    requires multiset(out) == multiset(summaries)
    ensures Table(SummaryColumns, out).Valid() && Table(SummaryColumns, out).CountColumn(CountCol)
    ensures |out| == |cols| && multiset(Names(out)) == multiset(cols)
    ensures forall i :: 0 <= i < |out| ==> Summarizes(out[i], rows)
  {
    SummariesNames(rows, cols, summaries);
    MapPermutation(out, summaries, NameOf);
    assert |out| == |cols| by {
      assert |multiset(out)| == |multiset(summaries)|;
    }
    SummariesHold(rows, cols, summaries);
    PermutedSummaries(rows, summaries, out);
  }

  /** The summaries name the columns asked for, in order. */
  lemma SummariesNames(rows: seq<Row>, cols: seq<string>, summaries: seq<Row>)
    requires |summaries| == |cols|
    requires forall i :: 0 <= i < |cols| ==> summaries[i] == Summary(rows, cols[i])
    ensures Names(summaries) == cols
  {
  }

  /** Every summary summarises. */
  lemma SummariesHold(rows: seq<Row>, cols: seq<string>, summaries: seq<Row>)
    requires |summaries| == |cols|
    requires forall i :: 0 <= i < |cols| ==> summaries[i] == Summary(rows, cols[i])
    ensures forall i :: 0 <= i < |summaries| ==> Summarizes(summaries[i], rows)
  {
    forall i | 0 <= i < |cols| ensures Summarizes(summaries[i], rows) {
      SummarySummarizes(rows, cols[i]);
    }
  }

  /** Reordering summary rows keeps them summary rows of a valid table. */
  lemma PermutedSummaries(rows: seq<Row>, summaries: seq<Row>, out: seq<Row>)
    requires forall i :: 0 <= i < |summaries| ==> Summarizes(summaries[i], rows)
    requires multiset(out) == multiset(summaries)
    ensures Table(SummaryColumns, out).Valid() && Table(SummaryColumns, out).CountColumn(CountCol)
    ensures forall i :: 0 <= i < |out| ==> Summarizes(out[i], rows)
  {
    forall i | 0 <= i < |out| ensures Summarizes(out[i], rows) {
      assert out[i] in multiset(summaries);
    }
    assert NoDups(SummaryColumns);
  }

  /** Summarising the "values" column of a summary raises: its cells are the
      lists of distinct values, which `unique()` cannot hash. */
  lemma CatVarOfOwnValues(t: Table, cols: seq<string>)
    requires t.Valid()
    requires cols != [] && FirstUnusable(t, cols) == |cols|
    ensures CatVar(t, cols).Ok?
    ensures CatVar(CatVar(t, cols).value, [ValuesCol]) == Err(Unhashable(ValuesCol))
  {
  }
}
