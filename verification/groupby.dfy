/** `groupby_sum`: one row per combination of grouping-column values that
    occurs, holding that combination and the sum of the aggregated column over
    its rows, ordered by the sort column, largest first. */
module GroupBy {
  import opened Seqs
  import opened Frame
  import opened Sorting
  import opened Errors

  /** A row's group key: its values in the grouping columns, in their order. */
  function KeyOf(row: Row, gv: seq<string>): seq<Value> {
    Map(gv, (c: string) => Cell(row, c))
  }

  /** The keys of the rows, top to bottom. */
  function KeysOf(rows: seq<Row>, gv: seq<string>): seq<seq<Value>> {
    Map(rows, (row: Row) => KeyOf(row, gv))
  }

  /** The keys that occur in the rows. */
  function KeySet(rows: seq<Row>, gv: seq<string>): set<seq<Value>> {
    Members(KeysOf(rows, gv))
  }

  /** The sum of column `agg` over the rows whose key is `key`: what one
      group adds up to, defined independently of how groups are formed. */
  function GroupTotal(rows: seq<Row>, gv: seq<string>, agg: string, key: seq<Value>): int {
    if rows == [] then 0
    else (if KeyOf(rows[0], gv) == key then Num(rows[0], agg) else 0) + GroupTotal(rows[1..], gv, agg, key)
  }

  /** The grouping columns paired with the key's values. */
  function Zip(gv: seq<string>, key: seq<Value>): (m: map<string, Value>)
    requires |key| == |gv|
    ensures m.Keys == Members(gv)
    ensures NoDups(gv) ==> forall i :: 0 <= i < |gv| ==> m[gv[i]] == key[i]
  {
    if gv == [] then map[]
    else Zip(gv[1..], key[1..])[gv[0] := key[0]]
  }

  /** The output row of one group: its key in the grouping columns and its
      total in the aggregated column. */
  function GroupRow(gv: seq<string>, key: seq<Value>, agg: string, total: int): (row: Row)
    requires |key| == |gv| && NoDups(gv) && agg !in gv
    ensures row.Keys == Members(gv + [agg])
    ensures KeyOf(row, gv) == key
    ensures row[agg] == Count(total)
  {
    var row := Zip(gv, key)[agg := Count(total)];
    assert forall i :: 0 <= i < |gv| ==> KeyOf(row, gv)[i] == key[i];
    row
  }

  /** One output row per key of `ks`, in the order of `ks`. */
  function Groups(rows: seq<Row>, gv: seq<string>, agg: string, ks: seq<seq<Value>>): (r: seq<Row>)
    requires NoDups(gv) && agg !in gv
    requires forall i :: 0 <= i < |ks| ==> |ks[i]| == |gv|
    ensures |r| == |ks|
    ensures forall i :: 0 <= i < |ks| ==> r[i] == GroupRow(gv, ks[i], agg, GroupTotal(rows, gv, agg, ks[i]))
  {
    if ks == [] then []
    else [GroupRow(gv, ks[0], agg, GroupTotal(rows, gv, agg, ks[0]))] + Groups(rows, gv, agg, ks[1..])
  }

  /** The group totals of the keys `ks`, added up. */
  function TotalOver(rows: seq<Row>, gv: seq<string>, agg: string, ks: seq<seq<Value>>): int {
    if ks == [] then 0
    else GroupTotal(rows, gv, agg, ks[0]) + TotalOver(rows, gv, agg, ks[1..])
  }

  /** The output rows of `ks` carry the group totals of `ks` between them. */
  lemma {:induction false} GroupsSum(rows: seq<Row>, gv: seq<string>, agg: string, ks: seq<seq<Value>>)
    requires NoDups(gv) && agg !in gv
    requires forall i :: 0 <= i < |ks| ==> |ks[i]| == |gv|
    ensures SumOf(Groups(rows, gv, agg, ks), agg) == TotalOver(rows, gv, agg, ks)
  {
    if ks != [] {
      GroupsSum(rows, gv, agg, ks[1..]);
      assert Groups(rows, gv, agg, ks)[1..] == Groups(rows, gv, agg, ks[1..]);
    }
  }

  /** With no rows every group total is zero. */
  lemma {:induction false} TotalOverEmpty(gv: seq<string>, agg: string, ks: seq<seq<Value>>)
    ensures TotalOver([], gv, agg, ks) == 0
  {
    if ks != [] {
      TotalOverEmpty(gv, agg, ks[1..]);
    }
  }

  /** Taking the first row away takes its count out of exactly one group
      total when its key is among the distinct keys `ks`, and out of none
      otherwise. */
  lemma {:induction false} TotalOverStep(rows: seq<Row>, gv: seq<string>, agg: string, ks: seq<seq<Value>>)
    requires rows != [] && NoDups(ks)
    ensures TotalOver(rows, gv, agg, ks) ==
              TotalOver(rows[1..], gv, agg, ks) + (if KeyOf(rows[0], gv) in ks then Num(rows[0], agg) else 0)
  {
    if ks != [] {
      assert NoDups(ks[1..]);
      TotalOverStep(rows, gv, agg, ks[1..]);
      assert ks == [ks[0]] + ks[1..];
      assert ks[0] !in ks[1..];
    }
  }

  /** Adding up the totals of distinct keys that cover every row's key gives
      the total of the whole column: grouping loses and duplicates nothing. */
  lemma {:induction false} TotalOverAll(rows: seq<Row>, gv: seq<string>, agg: string, ks: seq<seq<Value>>)
    requires NoDups(ks)
    requires forall i :: 0 <= i < |rows| ==> KeyOf(rows[i], gv) in ks
    ensures TotalOver(rows, gv, agg, ks) == SumOf(rows, agg)
  {
    if rows == [] {
      TotalOverEmpty(gv, agg, ks);
    } else {
      TotalOverStep(rows, gv, agg, ks);
      TotalOverAll(rows[1..], gv, agg, ks);
    }
  }

  /** Reordering rows reorders their keys. */
  lemma KeysOfPermutation(a: seq<Row>, b: seq<Row>, gv: seq<string>)
    requires multiset(a) == multiset(b)
    ensures multiset(KeysOf(a, gv)) == multiset(KeysOf(b, gv))
  {
    var f := (row: Row) => KeyOf(row, gv);
    MapPermutation(a, b, f);
    assert KeysOf(a, gv) == Map(a, f);
    assert KeysOf(b, gv) == Map(b, f);
  }

  /** `groupby_sum(df, gv, agg, sortVar)`. Raises, in this order, when no
      grouping column is given, when a grouping column or the aggregated
      column is missing, when a grouping column holds a list cell it cannot
      hash, and when the sort column is not among the result's columns. */
  function GroupBySum(t: Table, gv: seq<string>, agg: string, sortVar: string): (r: Result<Table>)
    requires t.Valid()
    requires NoDups(gv) && agg !in gv
    requires t.CountColumn(agg)
    requires sortVar in gv ==> t.CountColumn(sortVar)
    ensures r.Err? <==>
              || gv == []
              || FirstAbsent(gv, t.columns) < |gv|
              || agg !in t.columns
              || FirstUnhashable(t.rows, gv) < |gv|
              || (sortVar != agg && sortVar !in gv)
    ensures gv == [] ==> r == Err(NoGroupKeys)
    ensures gv != [] && FirstAbsent(gv, t.columns) < |gv| ==>
              r == Err(MissingColumn(gv[FirstAbsent(gv, t.columns)]))
    ensures gv != [] && FirstAbsent(gv, t.columns) == |gv| && agg !in t.columns ==>
              r == Err(MissingColumn(agg))
    ensures gv != [] && FirstAbsent(gv, t.columns) == |gv| && agg in t.columns && FirstUnhashable(t.rows, gv) < |gv| ==>
              r == Err(Unhashable(gv[FirstUnhashable(t.rows, gv)]))
    ensures gv != [] && FirstAbsent(gv, t.columns) == |gv| && agg in t.columns && FirstUnhashable(t.rows, gv) == |gv|
            && sortVar != agg && sortVar !in gv ==>
              r == Err(MissingColumn(sortVar))
    ensures r.Ok? ==> r.value.columns == gv + [agg] && r.value.Valid() && r.value.CountColumn(agg)
    ensures r.Ok? ==> KeySet(r.value.rows, gv) == KeySet(t.rows, gv)
    ensures r.Ok? ==> NoDups(KeysOf(r.value.rows, gv))
    ensures r.Ok? ==> forall i :: 0 <= i < |r.value.rows| ==>
              Num(r.value.rows[i], agg) == GroupTotal(t.rows, gv, agg, KeyOf(r.value.rows[i], gv))
    ensures r.Ok? ==> SumOf(r.value.rows, agg) == SumOf(t.rows, agg)
    ensures r.Ok? ==> SortedDesc(r.value.rows, sortVar)
  {
    if gv == [] then Err(NoGroupKeys)
    else if FirstAbsent(gv, t.columns) < |gv| then Err(MissingColumn(gv[FirstAbsent(gv, t.columns)]))
    else if agg !in t.columns then Err(MissingColumn(agg))
    else if FirstUnhashable(t.rows, gv) < |gv| then Err(Unhashable(gv[FirstUnhashable(t.rows, gv)]))
    else if sortVar != agg && sortVar !in gv then Err(MissingColumn(sortVar))
    else
      var keys := KeysOf(t.rows, gv);
      var ks := Distinct(keys);
      var groups := Groups(t.rows, gv, agg, ks);
      var out := SortDesc(groups, sortVar);
      GroupByFacts(t, gv, agg, sortVar, ks, groups, out);
      Ok(Table(gv + [agg], out))
  }

  /** The proof obligations of `GroupBySum`'s successful path. */
  lemma GroupByFacts(t: Table, gv: seq<string>, agg: string, sortVar: string,
                     ks: seq<seq<Value>>, groups: seq<Row>, out: seq<Row>)
    requires t.Valid()
    requires NoDups(gv) && agg !in gv
    requires ks == Distinct(KeysOf(t.rows, gv))
    requires forall i :: 0 <= i < |ks| ==> |ks[i]| == |gv|
    requires groups == Groups(t.rows, gv, agg, ks)
    requires multiset(out) == multiset(groups)
    ensures Table(gv + [agg], out).Valid() && Table(gv + [agg], out).CountColumn(agg)
    ensures KeySet(out, gv) == KeySet(t.rows, gv)
    ensures NoDups(KeysOf(out, gv))
    ensures forall i :: 0 <= i < |out| ==> Num(out[i], agg) == GroupTotal(t.rows, gv, agg, KeyOf(out[i], gv))
    ensures SumOf(out, agg) == SumOf(t.rows, agg)
  {
    GroupsKeys(t.rows, gv, agg, ks);
    KeysOfPermutation(out, groups, gv);
    NoDupsPermutation(ks, KeysOf(out, gv));
    OutputRows(t.rows, gv, agg, ks, out);
    OutputKeySet(t.rows, gv, ks, KeysOf(out, gv));
    OutputSum(t.rows, gv, agg, ks, out);
  }

  /** The groups are keyed by exactly the keys they were built from. */
  lemma GroupsKeys(rows: seq<Row>, gv: seq<string>, agg: string, ks: seq<seq<Value>>)
    requires NoDups(gv) && agg !in gv
    requires forall i :: 0 <= i < |ks| ==> |ks[i]| == |gv|
    ensures KeysOf(Groups(rows, gv, agg, ks), gv) == ks
  {
  }

  /** Every output row is one of the groups: it has the grouping columns and
      the aggregated column, and carries its group's total. */
  lemma OutputRows(rows: seq<Row>, gv: seq<string>, agg: string, ks: seq<seq<Value>>, out: seq<Row>)
    requires NoDups(gv) && agg !in gv
    requires forall i :: 0 <= i < |ks| ==> |ks[i]| == |gv|
    requires multiset(out) == multiset(Groups(rows, gv, agg, ks))
    ensures Table(gv + [agg], out).Valid() && Table(gv + [agg], out).CountColumn(agg)
    ensures forall i :: 0 <= i < |out| ==> Num(out[i], agg) == GroupTotal(rows, gv, agg, KeyOf(out[i], gv))
  {
    var groups := Groups(rows, gv, agg, ks);
    forall i | 0 <= i < |out|
      ensures out[i].Keys == Members(gv + [agg])
      ensures out[i][agg].Count?
      ensures Num(out[i], agg) == GroupTotal(rows, gv, agg, KeyOf(out[i], gv))
    {
      assert out[i] in multiset(groups);
      var j :| 0 <= j < |groups| && groups[j] == out[i];
      GroupFacts(rows, gv, agg, ks, j);
    }
    OutputColumns(gv, agg);
  }

  /** What one group row holds. */
  lemma GroupFacts(rows: seq<Row>, gv: seq<string>, agg: string, ks: seq<seq<Value>>, j: nat)
    requires NoDups(gv) && agg !in gv
    requires forall i :: 0 <= i < |ks| ==> |ks[i]| == |gv|
    requires j < |ks|
    ensures var row := Groups(rows, gv, agg, ks)[j];
            && row.Keys == Members(gv + [agg])
            && row[agg].Count?
            && Num(row, agg) == GroupTotal(rows, gv, agg, KeyOf(row, gv))
  {
  }

  /** The grouping columns and the aggregated column are distinct names. */
  lemma OutputColumns(gv: seq<string>, agg: string)
    requires NoDups(gv) && agg !in gv
    ensures NoDups(gv + [agg])
  {
  }

  /** A permutation of the distinct keys holds exactly the keys of the rows. */
  lemma OutputKeySet(rows: seq<Row>, gv: seq<string>, ks: seq<seq<Value>>, outKeys: seq<seq<Value>>)
    requires ks == Distinct(KeysOf(rows, gv))
    requires multiset(outKeys) == multiset(ks)
    ensures Members(outKeys) == KeySet(rows, gv)
  {
    assert Members(outKeys) == Members(ks) by {
      assert forall x :: x in outKeys <==> x in multiset(outKeys);
      assert forall x :: x in ks <==> x in multiset(ks);
    }
    DistinctMembers(KeysOf(rows, gv));
  }

  /** The output's column total is the input's. */
  lemma OutputSum(rows: seq<Row>, gv: seq<string>, agg: string, ks: seq<seq<Value>>, out: seq<Row>)
    requires NoDups(gv) && agg !in gv
    requires ks == Distinct(KeysOf(rows, gv))
    requires forall i :: 0 <= i < |ks| ==> |ks[i]| == |gv|
    requires multiset(out) == multiset(Groups(rows, gv, agg, ks))
    ensures SumOf(out, agg) == SumOf(rows, agg)
  {
    var keys := KeysOf(rows, gv);
    SumOfPermutation(out, Groups(rows, gv, agg, ks), agg);
    GroupsSum(rows, gv, agg, ks);
    forall i | 0 <= i < |rows| ensures KeyOf(rows[i], gv) in ks {
      assert keys[i] == KeyOf(rows[i], gv);
    }
    TotalOverAll(rows, gv, agg, ks);
  }
}
