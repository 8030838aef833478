/** The job frame `df`, which the script changes in place: line 95 adds the
    column `flattened_categories`, and line 98 reads the frame back out,
    exploded. */
module JobTable {
  import opened Wrappers
  import opened Frame
  import opened Categories
  import opened Explosion

  class JobFrame {
    var records: seq<Record>
    /** The column `flattened_categories`; `None` until it is added. */
    var flattened: Option<seq<Names>>

    ghost predicate Valid()
      reads this
    {
      flattened.Some? ==> |flattened.value| == |records|
    }

    constructor (records: seq<Record>)
      ensures Valid()
      ensures this.records == records && flattened == None
    {
      this.records := records;
      flattened := None;
    }

    /** `df['flattened_categories'] = df['categories'].apply(extract_category)`.
        `apply` calls `extract_category` on each record in turn; when a call
        raises, the exception propagates and the frame is left as it was. */
    method AddFlattenedCategories(catMap: map<int, string>, parse: string -> Option<PyObject>)
      returns (err: Option<PyError>)
      requires Valid()
      modifies this
      ensures Valid()
      ensures records == old(records)
      ensures ExtractColumn(catMap, parse, records).Success? ==>
                err == None && flattened == Some(ExtractColumn(catMap, parse, records).value)
      ensures ExtractColumn(catMap, parse, records).Failure? ==>
                err == Some(ExtractColumn(catMap, parse, records).error) && flattened == old(flattened)
    {
      var column: seq<Names> := [];
      var i := 0;
      while i < |records|
        invariant 0 <= i <= |records|
        invariant |column| == i
        invariant forall j :: 0 <= j < i ==> ExtractCategory(catMap, parse, records[j].categories) == Success(column[j])
      {
        var cell := ExtractCategory(catMap, parse, records[i].categories);
        if cell.Failure? {
          // record i is the first one that raises
          ghost var result := ExtractColumn(catMap, parse, records);
          assert result.Failure?;
          ghost var first :| 0 <= first < |records|
            && ExtractCategory(catMap, parse, records[first].categories) == Failure(result.error)
            && forall j :: 0 <= j < first ==> ExtractCategory(catMap, parse, records[j].categories).Success?;
          assert first == i;
          return Some(cell.error);
        }
        column := column + [cell.value];
        i := i + 1;
      }
      ghost var result := ExtractColumn(catMap, parse, records);
      assert result.Success?;
      assert result.value == column;
      flattened := Some(column);
      return None;
    }

    /** `df.explode('flattened_categories')`, a new frame: every posting
        contributes its own rows, in posting order. */
    function Exploded(): (rows: seq<Row>)
      reads this
      requires Valid() && flattened.Some?
      ensures |rows| >= |records|
      ensures |rows| == RowCount(flattened.value)
      ensures forall x | x in rows :: x.record in records
      ensures forall i | 0 <= i < |records| ::
                RowCount(flattened.value[..i]) + CellRows(flattened.value[i]) <= |rows|
                && rows[RowCount(flattened.value[..i])..RowCount(flattened.value[..i]) + CellRows(flattened.value[i])]
                   == ExplodeOne(records[i], flattened.value[i])
    {
      ExplodeBlocks(records, flattened.value);
      Explode(records, flattened.value)
    }
  }
}
