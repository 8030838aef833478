/** `demand_summary.pivot_table(index='flattened_categories',
    columns='positionLevels', values=..., aggfunc='sum', fill_value=0)`:
    a dense category-by-level table of summed applications. */
module Pivot {
  import opened Frame
  import opened GroupBy
  import opened Explosion

  /** Row labels (categories), column labels (position levels), and one row
      of cells per row label with one cell per column label. */
  datatype PivotTable = PivotTable(rowKeys: seq<Value>, colKeys: seq<Value>, cells: seq<seq<int>>)

  ghost predicate NoDuplicates(s: seq<Value>)
  {
    forall i, j :: 0 <= i < j < |s| ==> s[i] != s[j]
  }

  /** The distinct values of `s`, in order of first appearance. */
  function Distinct(s: seq<Value>): (r: seq<Value>)
    ensures NoDuplicates(r)
    ensures forall v :: v in r <==> v in s
  {
    if s == [] then []
    else
      var init, x := s[..|s| - 1], s[|s| - 1];
      assert s == init + [x];
      var d := Distinct(init);
      if x in d then d else d + [x]
  }

  function CategoryColumn(agg: seq<AggRow<DemandKey>>): (c: seq<Value>)
    ensures |c| == |agg| && forall i :: 0 <= i < |agg| ==> c[i] == agg[i].key.category
  {
    seq(|agg|, i requires 0 <= i < |agg| => agg[i].key.category)
  }

  function LevelColumn(agg: seq<AggRow<DemandKey>>): (c: seq<Value>)
    ensures |c| == |agg| && forall i :: 0 <= i < |agg| ==> c[i] == agg[i].key.positionLevels
  {
    seq(|agg|, i requires 0 <= i < |agg| => agg[i].key.positionLevels)
  }

  /** Selects the keys of one cell. */
  function InCell(r: Value, c: Value): DemandKey -> bool
  {
    (k: DemandKey) => k.category == r && k.positionLevels == c
  }

  /** `aggfunc='sum'` for one cell; an empty selection sums to the fill value 0. */
  function CellSum(agg: seq<AggRow<DemandKey>>, r: Value, c: Value): int
  {
    SumAgg(agg, InCell(r, c))
  }

  function CellRow(agg: seq<AggRow<DemandKey>>, r: Value, cols: seq<Value>): (row: seq<int>)
    ensures |row| == |cols| && forall j :: 0 <= j < |cols| ==> row[j] == CellSum(agg, r, cols[j])
  {
    seq(|cols|, j requires 0 <= j < |cols| => CellSum(agg, r, cols[j]))
  }

  /** The pivot table. Every observed category meets every observed level:
      the table is dense, and each cell is the sum over the grouped rows
      with that category and level. */
  function PivotDemand(agg: seq<AggRow<DemandKey>>): (t: PivotTable)
    ensures NoDuplicates(t.rowKeys) && NoDuplicates(t.colKeys)
    ensures forall v :: v in t.rowKeys <==> exists i :: 0 <= i < |agg| && agg[i].key.category == v
    ensures forall v :: v in t.colKeys <==> exists i :: 0 <= i < |agg| && agg[i].key.positionLevels == v
    ensures |t.cells| == |t.rowKeys|
    ensures forall i :: 0 <= i < |t.rowKeys| ==> |t.cells[i]| == |t.colKeys|
    ensures forall i, j :: 0 <= i < |t.rowKeys| && 0 <= j < |t.colKeys| ==>
              t.cells[i][j] == CellSum(agg, t.rowKeys[i], t.colKeys[j])
  {
    var rows := Distinct(CategoryColumn(agg));
    var cols := Distinct(LevelColumn(agg));
    PivotTable(rows, cols, seq(|rows|, i requires 0 <= i < |rows| => CellRow(agg, rows[i], cols)))
  }

  /** `fill_value=0`: a category and level that never occur together get a
      cell of exactly 0. */
  lemma CellAbsentIsZero(agg: seq<AggRow<DemandKey>>, r: Value, c: Value)
    requires forall i :: 0 <= i < |agg| ==> agg[i].key.category != r || agg[i].key.positionLevels != c
    ensures CellSum(agg, r, c) == 0
  {
    SumAggNothing(agg, InCell(r, c));
  }

  function Sum(s: seq<int>): int
  {
    if s == [] then 0 else s[0] + Sum(s[1..])
  }

  function TableTotal(cells: seq<seq<int>>): int
  {
    if cells == [] then 0 else Sum(cells[0]) + TableTotal(cells[1..])
  }

  function InRow(r: Value, cols: seq<Value>): DemandKey -> bool
  {
    (k: DemandKey) => k.category == r && k.positionLevels in cols
  }

  function InTable(rows: seq<Value>, cols: seq<Value>): DemandKey -> bool
  {
    (k: DemandKey) => k.category in rows && k.positionLevels in cols
  }

  lemma {:induction false} RowTotal(agg: seq<AggRow<DemandKey>>, r: Value, cols: seq<Value>)
    requires NoDuplicates(cols)
    ensures Sum(CellRow(agg, r, cols)) == SumAgg(agg, InRow(r, cols))
  {
    if cols == [] {
      SumAggNothing(agg, InRow(r, cols));
    } else {
      var rest := cols[1..];
      assert CellRow(agg, r, cols)[1..] == CellRow(agg, r, rest);
      assert cols[0] !in rest by {
        forall j | 0 <= j < |rest| ensures rest[j] != cols[0] {
          assert rest[j] == cols[j + 1];
        }
      }
      assert NoDuplicates(rest) by {
        forall i, j | 0 <= i < j < |rest| ensures rest[i] != rest[j] {
          assert rest[i] == cols[i + 1] && rest[j] == cols[j + 1];
        }
      }
      RowTotal(agg, r, rest);
      SumAggSplit(agg, InRow(r, cols), InCell(r, cols[0]), InRow(r, rest));
    }
  }

  lemma {:induction false} TableTotalSum(agg: seq<AggRow<DemandKey>>, rows: seq<Value>, cols: seq<Value>)
    requires NoDuplicates(rows) && NoDuplicates(cols)
    ensures TableTotal(seq(|rows|, i requires 0 <= i < |rows| => CellRow(agg, rows[i], cols)))
              == SumAgg(agg, InTable(rows, cols))
    decreases |rows|
  {
    var cells := seq(|rows|, i requires 0 <= i < |rows| => CellRow(agg, rows[i], cols));
    if rows == [] {
      SumAggNothing(agg, InTable(rows, cols));
    } else {
      var rest := rows[1..];
      assert cells[1..] == seq(|rest|, i requires 0 <= i < |rest| => CellRow(agg, rest[i], cols));
      assert rows[0] !in rest by {
        forall j | 0 <= j < |rest| ensures rest[j] != rows[0] {
          assert rest[j] == rows[j + 1];
        }
      }
      assert NoDuplicates(rest) by {
        forall i, j | 0 <= i < j < |rest| ensures rest[i] != rest[j] {
          assert rest[i] == rows[i + 1] && rest[j] == rows[j + 1];
        }
      }
      TableTotalSum(agg, rest, cols);
      RowTotal(agg, rows[0], cols);
      SumAggSplit(agg, InTable(rows, cols), InRow(rows[0], cols), InTable(rest, cols));
    }
  }

  /** Densifying loses and invents nothing: the cells of the pivot table add
      up to the total of the grouped rows. */
  lemma PivotPreservesTotal(agg: seq<AggRow<DemandKey>>)
    ensures TableTotal(PivotDemand(agg).cells) == SumAgg(agg, AnyKey())
  {
    var t := PivotDemand(agg);
    TableTotalSum(agg, t.rowKeys, t.colKeys);
    forall i | 0 <= i < |agg| ensures InTable(t.rowKeys, t.colKeys)(agg[i].key) == AnyKey<DemandKey>()(agg[i].key) {
      assert agg[i].key.category in t.rowKeys;
      assert agg[i].key.positionLevels in t.colKeys;
    }
    SumAggAgree(agg, InTable(t.rowKeys, t.colKeys), AnyKey());
  }
}
