/** `df.explode('flattened_categories')`: one row per (record, name) pair,
    and the group key `(flattened_categories, positionLevels, title)` read
    off an exploded row. */
module Explosion {
  import opened Wrappers
  import opened Frame

  /** One row of `df_exploded`: the record's columns, copied unchanged, and
      the single value that replaced its list in `flattened_categories`. */
  datatype Row = Row(record: Record, category: Value)

  /** The rows of a record whose list has at least one name, in list order. */
  function RowsFor(rec: Record, names: seq<Value>): (r: seq<Row>)
    ensures |r| == |names|
    ensures forall i :: 0 <= i < |r| ==> r[i].record == rec && r[i].category == names[i]
  {
    seq(|names|, i requires 0 <= i < |names| => Row(rec, names[i]))
  }

  /** The rows one record explodes into. A `None` cell or an empty list
      becomes a single row whose category is missing. */
  function ExplodeOne(rec: Record, cell: Names): (r: seq<Row>)
    ensures |r| == CellRows(cell)
    ensures forall j :: 0 <= j < |r| ==> r[j].record == rec
    ensures cell.None? || cell.value == [] ==> r[0].category == Missing
    ensures cell.Some? ==> forall i :: 0 <= i < |cell.value| ==> r[i].category == cell.value[i]
  {
    if cell.None? || cell.value == [] then [Row(rec, Missing)] else RowsFor(rec, cell.value)
  }

  /** Number of rows `explode` produces for a column of cells. */
  function RowCount(column: seq<Names>): nat
  {
    if column == [] then 0
    else CellRows(column[0]) + RowCount(column[1..])
  }

  /** The exploded frame: each record's rows, records in order. */
  function Explode(records: seq<Record>, column: seq<Names>): (r: seq<Row>)
    requires |column| == |records|
    ensures |r| == RowCount(column)
    ensures |r| >= |records|
    ensures forall j :: 0 <= j < |r| ==> r[j].record in records
  {
    if records == [] then []
    else
      var head := ExplodeOne(records[0], column[0]);
      var tail := Explode(records[1..], column[1..]);
      head + tail
  }

  /** The number of rows one cell explodes into. */
  function CellRows(cell: Names): nat
  {
    if cell.None? || cell.value == [] then 1 else |cell.value|
  }

  /** Record `i`'s rows form one block of the exploded frame, starting after
      the rows of the records before it: `explode` keeps record order and
      gives each record exactly its own rows. */
  lemma ExplodeBlock(records: seq<Record>, column: seq<Names>, i: nat)
    requires |column| == |records| && i < |records|
    ensures RowCount(column[..i]) + CellRows(column[i]) <= |Explode(records, column)|
    ensures Explode(records, column)[RowCount(column[..i])..RowCount(column[..i]) + CellRows(column[i])] == ExplodeOne(records[i], column[i])
  {
    ExplodeBlockRows(records, column, i);
    SliceOf(Explode(records, column), RowCount(column[..i]), CellRows(column[i]), ExplodeOne(records[i], column[i]));
  }

  /** `ExplodeBlock` for every record at once. */
  lemma ExplodeBlocks(records: seq<Record>, column: seq<Names>)
    requires |column| == |records|
    ensures forall i | 0 <= i < |records| ::
              RowCount(column[..i]) + CellRows(column[i]) <= |Explode(records, column)|
              && Explode(records, column)[RowCount(column[..i])..RowCount(column[..i]) + CellRows(column[i])]
                 == ExplodeOne(records[i], column[i])
  {
    forall i | 0 <= i < |records| {
      ExplodeBlock(records, column, i);
    }
  }

  /** Pointwise form of `ExplodeBlock`. */
  lemma ExplodeBlockRows(records: seq<Record>, column: seq<Names>, i: nat)
    requires |column| == |records| && i < |records|
    ensures RowCount(column[..i]) + CellRows(column[i]) <= |Explode(records, column)|
    ensures forall j :: 0 <= j < CellRows(column[i]) ==>
              Explode(records, column)[RowCount(column[..i]) + j] == ExplodeOne(records[i], column[i])[j]
  {
    ExplodeRow(records, column, i, CellRows(column[i]) - 1);
    forall j | 0 <= j < CellRows(column[i])
      ensures Explode(records, column)[RowCount(column[..i]) + j] == ExplodeOne(records[i], column[i])[j]
    {
      ExplodeRow(records, column, i, j);
    }
  }

  /** Row `j` of record `i`'s rows, found at its place in the exploded frame. */
  lemma {:induction false} ExplodeRow(records: seq<Record>, column: seq<Names>, i: nat, j: nat)
    requires |column| == |records| && i < |records| && j < CellRows(column[i])
    ensures RowCount(column[..i]) + j < |Explode(records, column)|
    ensures Explode(records, column)[RowCount(column[..i]) + j] == ExplodeOne(records[i], column[i])[j]
  {
    if i == 0 {
      assert RowCount(column[..i]) == 0 by { assert column[..i] == []; }
      ExplodeAtHead(records, column, j);
    } else {
      assert column[1..][i - 1] == column[i];
      ExplodeRow(records[1..], column[1..], i - 1, j);
      ExplodeRowShift(records, column, i, j);
    }
  }

  /** The step of `ExplodeRow`: a row found among the records after the
      first is found in the whole frame, shifted past the first record's rows. */
  lemma {:induction false} ExplodeRowShift(records: seq<Record>, column: seq<Names>, i: nat, j: nat)
    requires |column| == |records| && 0 < i < |records| && j < CellRows(column[i])
    requires RowCount(column[1..][..i - 1]) + j < |Explode(records[1..], column[1..])|
    requires Explode(records[1..], column[1..])[RowCount(column[1..][..i - 1]) + j]
             == ExplodeOne(records[1..][i - 1], column[1..][i - 1])[j]
    ensures RowCount(column[..i]) + j < |Explode(records, column)|
    ensures Explode(records, column)[RowCount(column[..i]) + j] == ExplodeOne(records[i], column[i])[j]
  {
    assert records[1..][i - 1] == records[i] && column[1..][i - 1] == column[i];
    var k := RowCount(column[1..][..i - 1]) + j;
    RowCountPrefix(column, i);
    assert RowCount(column[..i]) + j == CellRows(column[0]) + k;
    ExplodeAtTail(records, column, k);
  }

  /** The first record's rows open the exploded frame. */
  lemma {:induction false} ExplodeAtHead(records: seq<Record>, column: seq<Names>, k: nat)
    requires |column| == |records| && 0 < |records| && k < CellRows(column[0])
    ensures k < |Explode(records, column)|
    ensures Explode(records, column)[k] == ExplodeOne(records[0], column[0])[k]
  {
    ExplodeCons(records, column);
  }

  /** The rows of the other records follow, shifted past the first
      record's rows. */
  lemma {:induction false} ExplodeAtTail(records: seq<Record>, column: seq<Names>, k: nat)
    requires |column| == |records| && 0 < |records| && k < |Explode(records[1..], column[1..])|
    ensures CellRows(column[0]) + k < |Explode(records, column)|
    ensures Explode(records, column)[CellRows(column[0]) + k] == Explode(records[1..], column[1..])[k]
  {
    ExplodeCons(records, column);
  }

  /** A sequence that agrees with `block` from `start` on holds it as a slice. */
  lemma SliceOf<T>(r: seq<T>, start: nat, n: nat, block: seq<T>)
    requires n == |block| && start + n <= |r|
    requires forall j :: 0 <= j < n ==> r[start + j] == block[j]
    ensures r[start..start + n] == block
  {
  }

  /** A non-empty frame explodes into its first record's rows followed by
      the rest. */
  lemma {:induction false} ExplodeCons(records: seq<Record>, column: seq<Names>)
    requires |column| == |records| && 0 < |records|
    ensures Explode(records, column) == ExplodeOne(records[0], column[0]) + Explode(records[1..], column[1..])
  {
  }

  /** The rows before record `i` are those of the first record and then
      those of the records between it and `i`. */
  lemma {:induction false} RowCountPrefix(column: seq<Names>, i: nat)
    requires 0 < i <= |column|
    ensures RowCount(column[..i]) == CellRows(column[0]) + RowCount(column[1..][..i - 1])
  {
    assert column[..i][1..] == column[1..][..i - 1];
  }

  /** The group key of line 101, with its three components in order. */
  datatype DemandKey = DemandKey(category: Value, positionLevels: Value, title: Value)

  /** The key of an exploded row, `None` when any component is missing:
      such rows are dropped by `groupby`. */
  function DemandKeyOf(row: Row): (k: Option<DemandKey>)
    ensures k.Some? <==> row.category != Missing && row.record.positionLevels != Missing && row.record.title != Missing
    ensures k.Some? ==> k.value == DemandKey(row.category, row.record.positionLevels, row.record.title)
  {
    if row.category == Missing || row.record.positionLevels == Missing || row.record.title == Missing then None
    else Some(DemandKey(row.category, row.record.positionLevels, row.record.title))
  }

  /** The measure of an exploded row: its record's application count. */
  function RowApplications(row: Row): int
  {
    RecordApplications(row.record)
  }
}
