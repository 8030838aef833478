/** The demand analysis of the script, put together: the required-column
    check guarding the demand by position level and by title (lines 42-65),
    and the category pipeline of lines 95-130 (flatten, explode, group,
    rank, pivot). */
module Demand {
  import opened Wrappers
  import opened Frame
  import opened Categories
  import opened Explosion
  import opened GroupBy
  import opened Ranking
  import opened Pivot

  const RequiredColumns: seq<string> := ["positionLevels", "title", "metadata_totalNumberJobApplication"]

  /** `a` is `b` with some elements left out, the rest in the same order. */
  predicate IsSubsequence(a: seq<string>, b: seq<string>)
  {
    if a == [] then true
    else if b == [] then false
    else (a[0] == b[0] && IsSubsequence(a[1..], b[1..])) || IsSubsequence(a, b[1..])
  }

  /** `[col for col in required_cols if col not in df.columns]`. */
  function MissingColumns(required: seq<string>, columns: set<string>): (missing: seq<string>)
    ensures forall c :: c in missing <==> c in required && c !in columns
    ensures IsSubsequence(missing, required)
    ensures forall c :: multiset(missing)[c] == if c in columns then 0 else multiset(required)[c]
  {
    if required == [] then []
    else
      var rest := MissingColumns(required[1..], columns);
      assert required == [required[0]] + required[1..];
      assert multiset(required) == multiset([required[0]]) + multiset(required[1..]);
      if required[0] in columns then rest
      else
        assert ([required[0]] + rest)[1..] == rest;
        assert multiset([required[0]] + rest) == multiset([required[0]]) + multiset(rest);
        [required[0]] + rest
  }

  function LevelKeyOf(rec: Record): Option<Value>
  {
    if rec.positionLevels == Missing then None else Some(rec.positionLevels)
  }

  function TitleKeyOf(rec: Record): Option<Value>
  {
    if rec.title == Missing then None else Some(rec.title)
  }

  /** `position_demand` (line 48) and the 20 titles plotted from
      `title_demand` (lines 51 and 65). */
  datatype LevelTitleDemand = LevelTitleDemand(positionDemand: seq<AggRow<Value>>, topTitles: seq<AggRow<Value>>)

  /** Lines 42-65: when a required column is absent, the script reports the
      missing columns (the `Failure` case) and computes neither demand. */
  function LevelAndTitleDemand(columns: set<string>, records: seq<Record>): (r: Result<LevelTitleDemand, seq<string>>)
    ensures r.Failure? <==> exists c :: c in RequiredColumns && c !in columns
    ensures r.Failure? ==> r.error == MissingColumns(RequiredColumns, columns)
    ensures r.Success? ==>
              var byLevel := GroupSum(records, LevelKeyOf, RecordApplications);
              SortedDesc(r.value.positionDemand) && multiset(r.value.positionDemand) == multiset(byLevel)
    ensures r.Success? ==> IsTopK(GroupSum(records, TitleKeyOf, RecordApplications), 20, r.value.topTitles)
  {
    var missing := MissingColumns(RequiredColumns, columns);
    if missing != [] then
      assert missing[0] in missing;
      Failure(missing)
    else
      Success(LevelTitleDemand(
        SortDesc(GroupSum(records, LevelKeyOf, RecordApplications)),
        TopK(GroupSum(records, TitleKeyOf, RecordApplications), 20)))
  }

  /** Lines 98-101 once the category column exists: explode, then group on
      (category, positionLevels, title) and sum the application counts. */
  function Summarize(records: seq<Record>, column: seq<Names>): (agg: seq<AggRow<DemandKey>>)
    requires |column| == |records|
    ensures DistinctKeys(agg)
    ensures KeySet(agg) == PresentKeys(Explode(records, column), DemandKeyOf)
  {
    GroupSum(Explode(records, column), DemandKeyOf, RowApplications)
  }

  /** `demand_summary` (lines 95-101), or the exception `extract_category`
      raised for the first record that made it raise. */
  function DemandSummary(catMap: map<int, string>, parse: string -> Option<PyObject>, records: seq<Record>)
    : (r: Result<seq<AggRow<DemandKey>>, PyError>)
    ensures r.Success? <==> ExtractColumn(catMap, parse, records).Success?
    ensures r.Failure? ==> r.error == ExtractColumn(catMap, parse, records).error
    ensures r.Success? ==> r.value == Summarize(records, ExtractColumn(catMap, parse, records).value)
    ensures r.Success? ==> forall c ::
              SumAgg(r.value, OnCategory(KeyIs(c)))
              == RecordsDemand(records, ExtractColumn(catMap, parse, records).value, KeyIs(c))
    ensures r.Success? ==>
              SumAgg(r.value, AnyKey()) == RecordsDemand(records, ExtractColumn(catMap, parse, records).value, AnyKey<Value>())
  {
    var column :- ExtractColumn(catMap, parse, records);
    assert forall c :: SumAgg(Summarize(records, column), OnCategory(KeyIs(c)))
                       == RecordsDemand(records, column, KeyIs(c)) by {
      forall c {
        SummaryCategoryTotal(records, column, c);
      }
    }
    SummaryGrandTotal(records, column);
    Success(Summarize(records, column))
  }

  /** `top_demand` (line 104): the 10 largest groups, ties in no fixed order. */
  function TopDemand(summary: seq<AggRow<DemandKey>>): (top: seq<AggRow<DemandKey>>)
    ensures IsTopK(summary, 10, top)
  {
    TopK(summary, 10)
  }

  /** The number of names in a cell that are present and satisfy `p`
      (a `None` cell has none). */
  function Counted(cell: Names, p: Value -> bool): nat
  {
    if cell.None? then 0 else CountNames(cell.value, p)
  }

  function CountNames(names: seq<Value>, p: Value -> bool): nat
  {
    if names == [] then 0
    else
      var last := names[|names| - 1];
      CountNames(names[..|names| - 1], p) + (if last != Missing && p(last) then 1 else 0)
  }

  /** The demand the records place on the categories selected by `p`: each
      record with a level and a title counts its applications once per
      selected name in its list. A record without categories counts 0. */
  function RecordsDemand(records: seq<Record>, column: seq<Names>, p: Value -> bool): int
    requires |column| == |records|
  {
    if records == [] then 0
    else
      var rec := records[0];
      (if rec.positionLevels != Missing && rec.title != Missing
       then RecordApplications(rec) * Counted(column[0], p) else 0)
        + RecordsDemand(records[1..], column[1..], p)
  }

  function OnCategory(p: Value -> bool): DemandKey -> bool
  {
    (k: DemandKey) => p(k.category)
  }

  lemma {:induction false} RowsForSum(rec: Record, names: seq<Value>, p: Value -> bool)
    ensures SumRows(RowsFor(rec, names), DemandKeyOf, RowApplications, OnCategory(p))
            == if rec.positionLevels != Missing && rec.title != Missing
               then RecordApplications(rec) * CountNames(names, p) else 0
  {
    if names != [] {
      var init := names[..|names| - 1];
      assert RowsFor(rec, names)[..|names| - 1] == RowsFor(rec, init);
      RowsForSum(rec, init, p);
      var a := RecordApplications(rec);
      var n := CountNames(init, p);
      assert a * (n + 1) == a * n + a;
    }
  }

  lemma ExplodeOneSum(rec: Record, cell: Names, p: Value -> bool)
    ensures SumRows(ExplodeOne(rec, cell), DemandKeyOf, RowApplications, OnCategory(p))
            == if rec.positionLevels != Missing && rec.title != Missing
               then RecordApplications(rec) * Counted(cell, p) else 0
  {
    if cell.None? || cell.value == [] {
      assert ExplodeOne(rec, cell) == [Row(rec, Missing)];
      assert ExplodeOne(rec, cell)[..0] == [];
    } else {
      RowsForSum(rec, cell.value, p);
    }
  }

  /** Exploding and then summing by category gives each record's count once
      per matching name: a record with k names is counted k times, a record
      with no names (None or an empty list) not at all, and a missing name,
      level or title keeps a row out of every group. */
  lemma {:induction false} ExplodedDemand(records: seq<Record>, column: seq<Names>, p: Value -> bool)
    requires |column| == |records|
    ensures SumRows(Explode(records, column), DemandKeyOf, RowApplications, OnCategory(p))
            == RecordsDemand(records, column, p)
  {
    if records != [] {
      ExplodeOneSum(records[0], column[0], p);
      ExplodedDemand(records[1..], column[1..], p);
      SumRowsAppend(ExplodeOne(records[0], column[0]), Explode(records[1..], column[1..]),
                    DemandKeyOf, RowApplications, OnCategory(p));
    }
  }

  /** The groups of one category in `demand_summary` add up to the
      applications of the records listing that category, each counted once
      per listing. */
  lemma SummaryCategoryTotal(records: seq<Record>, column: seq<Names>, c: Value)
    requires |column| == |records|
    ensures SumAgg(Summarize(records, column), OnCategory(KeyIs(c))) == RecordsDemand(records, column, KeyIs(c))
  {
    GroupSumPreservesSums(Explode(records, column), DemandKeyOf, RowApplications, OnCategory(KeyIs(c)));
    ExplodedDemand(records, column, KeyIs(c));
  }

  /** All of `demand_summary` adds up to the applications of every record
      with a level and a title, counted once per present category name. */
  lemma SummaryGrandTotal(records: seq<Record>, column: seq<Names>)
    requires |column| == |records|
    ensures SumAgg(Summarize(records, column), AnyKey()) == RecordsDemand(records, column, AnyKey<Value>())
  {
    var rows := Explode(records, column);
    GroupSumPreservesSums(rows, DemandKeyOf, RowApplications, OnCategory(AnyKey<Value>()));
    ExplodedDemand(records, column, AnyKey<Value>());
    SumAggAgree(Summarize(records, column), AnyKey(), OnCategory(AnyKey<Value>()));
  }

  /** The heatmap of lines 124-130: each cell is the number of applications
      of the exploded rows with that category and level (and a title). */
  lemma HeatmapCell(records: seq<Record>, column: seq<Names>, i: nat, j: nat)
    requires |column| == |records|
    requires var t := PivotDemand(Summarize(records, column)); i < |t.rowKeys| && j < |t.colKeys|
    ensures var t := PivotDemand(Summarize(records, column));
            t.cells[i][j] == SumRows(Explode(records, column), DemandKeyOf, RowApplications, InCell(t.rowKeys[i], t.colKeys[j]))
  {
    var t := PivotDemand(Summarize(records, column));
    GroupSumPreservesSums(Explode(records, column), DemandKeyOf, RowApplications, InCell(t.rowKeys[i], t.colKeys[j]));
  }

  /** The heatmap's cells add up to the whole demand of the records. */
  lemma HeatmapTotal(records: seq<Record>, column: seq<Names>)
    requires |column| == |records|
    ensures TableTotal(PivotDemand(Summarize(records, column)).cells) == RecordsDemand(records, column, AnyKey<Value>())
  {
    PivotPreservesTotal(Summarize(records, column));
    SummaryGrandTotal(records, column);
  }

  /** A worked example: two postings for the same title and level, one
      listing category 7 and one listing 7 and 14, both with inline names. */
  const ExampleItem7: Item := Dict(map["id" := Int(7), "category" := Str("Consulting")])
  const ExampleItem14: Item := Dict(map["id" := Int(14), "category" := Str("Events")])
  const ExampleRecords: seq<Record> := [
    Record(Str("Analyst"), Str("Entry"), Some(100), PyList([ExampleItem7])),
    Record(Str("Analyst"), Str("Entry"), Some(50), PyList([ExampleItem7, ExampleItem14]))]

  /** The names come from the dict of lines 75-81, not from the items. */
  lemma ExampleFlattened(parse: string -> Option<PyObject>)
    ensures ExtractColumn(CategoryMap, parse, ExampleRecords)
            == Success([Some([Str("Consulting")]), Some([Str("Consulting"), Str("Events / Promotions")])])
  {
    var c, e := Str("Consulting"), Str("Events / Promotions");
    assert ResolveItem(CategoryMap, ExampleItem7) == Success(c);
    assert ResolveItem(CategoryMap, ExampleItem14) == Success(e);
    var both := ResolveAll(CategoryMap, [ExampleItem7, ExampleItem14]);
    assert both.Success? && both.value == [c, e];
    var one := ResolveAll(CategoryMap, [ExampleItem7]);
    assert one.Success? && one.value == [c];
    var column := ExtractColumn(CategoryMap, parse, ExampleRecords);
    assert column.Success? && column.value == [Some([c]), Some([c, e])];
  }

  /** The second posting explodes into two rows. */
  lemma ExampleExploded()
    ensures var c, e := Str("Consulting"), Str("Events / Promotions");
            Explode(ExampleRecords, [Some([c]), Some([c, e])])
              == [Row(ExampleRecords[0], c), Row(ExampleRecords[1], c), Row(ExampleRecords[1], e)]
  {
    var c, e := Str("Consulting"), Str("Events / Promotions");
    var r1, r2 := ExampleRecords[0], ExampleRecords[1];
    assert ExampleRecords[1..] == [r2] && [r2][1..] == [];
    assert [Some([c]), Some([c, e])][1..] == [Some([c, e])] && [Some([c, e])][1..] == [];
    assert ExplodeOne(r1, Some([c])) == [Row(r1, c)];
    assert ExplodeOne(r2, Some([c, e])) == [Row(r2, c), Row(r2, e)];
    assert Explode([r2], [Some([c, e])]) == ExplodeOne(r2, Some([c, e])) + Explode([], []);
  }

  /** The two Consulting rows of the example share one group. */
  lemma ExampleSameKey(r1: Record, r2: Record)
    requires r1.title == r2.title == Str("Analyst") && r1.positionLevels == r2.positionLevels == Str("Entry")
    requires r1.applications == Some(100) && r2.applications == Some(50)
    ensures var c := Str("Consulting");
            GroupSum([Row(r1, c), Row(r2, c)], DemandKeyOf, RowApplications)
              == [AggRow(DemandKey(c, Str("Entry"), Str("Analyst")), 150)]
  {
    var c := Str("Consulting");
    var kc := DemandKey(c, Str("Entry"), Str("Analyst"));
    assert DemandKeyOf(Row(r1, c)) == Some(kc) && RowApplications(Row(r1, c)) == 100;
    assert DemandKeyOf(Row(r2, c)) == Some(kc) && RowApplications(Row(r2, c)) == 50;
    GroupSumSnoc([], Row(r1, c), DemandKeyOf, RowApplications);
    assert [] + [Row(r1, c)] == [Row(r1, c)];
    AccumulateAppends([], kc, 100);
    assert GroupSum([Row(r1, c)], DemandKeyOf, RowApplications) == [AggRow(kc, 100)];
    GroupSumSnoc([Row(r1, c)], Row(r2, c), DemandKeyOf, RowApplications);
    AccumulateUpdates([AggRow(kc, 100)], kc, 50, 0);
    assert [Row(r1, c)] + [Row(r2, c)] == [Row(r1, c), Row(r2, c)];
  }

  /** The three rows fall into two groups: Consulting with 100 + 50 and
      Events / Promotions with 50. */
  lemma ExampleGrouped(r1: Record, r2: Record)
    requires r1.title == r2.title == Str("Analyst") && r1.positionLevels == r2.positionLevels == Str("Entry")
    requires r1.applications == Some(100) && r2.applications == Some(50)
    ensures var c, e := Str("Consulting"), Str("Events / Promotions");
            GroupSum([Row(r1, c), Row(r2, c), Row(r2, e)], DemandKeyOf, RowApplications)
              == [AggRow(DemandKey(c, Str("Entry"), Str("Analyst")), 150),
                  AggRow(DemandKey(e, Str("Entry"), Str("Analyst")), 50)]
  {
    var c, e := Str("Consulting"), Str("Events / Promotions");
    var kc := DemandKey(c, Str("Entry"), Str("Analyst"));
    var ke := DemandKey(e, Str("Entry"), Str("Analyst"));
    assert DemandKeyOf(Row(r2, e)) == Some(ke) && RowApplications(Row(r2, e)) == 50;
    ExampleSameKey(r1, r2);
    GroupSumSnoc([Row(r1, c), Row(r2, c)], Row(r2, e), DemandKeyOf, RowApplications);
    AccumulateAppends([AggRow(kc, 150)], ke, 50);
    assert [Row(r1, c), Row(r2, c)] + [Row(r2, e)] == [Row(r1, c), Row(r2, c), Row(r2, e)];
  }

  /** The summary of the example. */
  lemma ExampleSummary(parse: string -> Option<PyObject>)
    ensures var top := AggRow(DemandKey(Str("Consulting"), Str("Entry"), Str("Analyst")), 150);
            var second := AggRow(DemandKey(Str("Events / Promotions"), Str("Entry"), Str("Analyst")), 50);
            DemandSummary(CategoryMap, parse, ExampleRecords) == Success([top, second])
  {
    var c, e := Str("Consulting"), Str("Events / Promotions");
    ExampleFlattened(parse);
    var column := [Some([c]), Some([c, e])];
    ExampleExploded();
    ExampleGrouped(ExampleRecords[0], ExampleRecords[1]);
    assert Summarize(ExampleRecords, column)
        == GroupSum([Row(ExampleRecords[0], c), Row(ExampleRecords[1], c), Row(ExampleRecords[1], e)], DemandKeyOf, RowApplications);
  }

  /** Its top group is Consulting. */
  lemma ExampleTop()
    ensures var top := AggRow(DemandKey(Str("Consulting"), Str("Entry"), Str("Analyst")), 150);
            var second := AggRow(DemandKey(Str("Events / Promotions"), Str("Entry"), Str("Analyst")), 50);
            TopK([top, second], 1) == [top]
  {
    var top := AggRow(DemandKey(Str("Consulting"), Str("Entry"), Str("Analyst")), 150);
    var second := AggRow(DemandKey(Str("Events / Promotions"), Str("Entry"), Str("Analyst")), 50);
    var pair := [top, second];
    assert pair[1..] == [second] && pair[1..][1..] == [];
    assert SortDesc(pair) == pair;
  }

  /** `extract_category` reads `item['category']` even when the id is
      mapped, so a list item carrying only an id aborts the whole analysis
      with `KeyError: 'category'`. */
  lemma IdOnlyItemsRaise(parse: string -> Option<PyObject>)
    ensures var records := [Record(Str("Analyst"), Str("Entry"), Some(100), PyList([Dict(map["id" := Int(7)])]))];
            DemandSummary(CategoryMap, parse, records) == Failure(KeyError("category"))
  {
    var item := Dict(map["id" := Int(7)]);
    assert "category" !in item.fields;
    assert ResolveAll(CategoryMap, [item]) == Failure(KeyError("category"));
  }
}
