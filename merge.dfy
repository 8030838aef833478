/** `demand_unstacked.merge(category_map, left_on='categories',
    right_on='id', how='left')`: attaches a category name to each row of a
    table keyed by category id. */
module Merge {
  import opened Wrappers
  import opened Frame
  import opened Categories

  /** A row of the name table built at lines 143-149. */
  datatype CategoryRow = CategoryRow(id: Value, category: Value)

  /** A merged row: the left row, then the matched `id` and `category`
      (both missing when the left key has no match). */
  datatype Joined<L> = Joined(left: L, id: Value, category: Value)

  /** The `category_map` frame of lines 143-149. */
  const CategoryTable: seq<CategoryRow> := [
    CategoryRow(Int(7), Str("Consulting")),
    CategoryRow(Int(14), Str("Events / Promotions")),
    CategoryRow(Int(24), Str("Logistics / Supply Chain")),
    CategoryRow(Int(29), Str("Professional Services")),
    CategoryRow(Int(35), Str("Sales / Retail"))]

  /** The right rows whose id equals `v`, in right order. As in pandas, a
      missing key on the left matches a missing id on the right. */
  function Matches(right: seq<CategoryRow>, v: Value): (r: seq<CategoryRow>)
    ensures forall x | x in r :: x in right && x.id == v
    ensures forall i :: 0 <= i < |right| && right[i].id == v ==> right[i] in r
    ensures |r| <= |right|
  {
    if right == [] then []
    else (if right[0].id == v then [right[0]] else []) + Matches(right[1..], v)
  }

  /** Each right row carrying the id is matched as often as it occurs, in
      any table, duplicates included; no other row is matched. */
  lemma {:induction false} MatchesCount(right: seq<CategoryRow>, v: Value)
    ensures forall x :: multiset(Matches(right, v))[x] == if x.id == v then multiset(right)[x] else 0
  {
    if right != [] {
      MatchesCount(right[1..], v);
      assert right == [right[0]] + right[1..];
      assert multiset(right) == multiset([right[0]]) + multiset(right[1..]);
    }
  }

  /** The merged rows for one left row. */
  function JoinOne<L>(row: L, v: Value, right: seq<CategoryRow>): (r: seq<Joined<L>>)
    ensures |r| == if Matches(right, v) == [] then 1 else |Matches(right, v)|
  {
    var m := Matches(right, v);
    if m == [] then [Joined(row, Missing, Missing)]
    else seq(|m|, i requires 0 <= i < |m| => Joined(row, m[i].id, m[i].category))
  }

  /** Every merged row of one left row carries that row; with no match its
      `id` and `category` are missing, otherwise row i carries match i's. */
  lemma JoinOneRows<L>(row: L, v: Value, right: seq<CategoryRow>)
    ensures var r, m := JoinOne(row, v, right), Matches(right, v);
            && (forall i :: 0 <= i < |r| ==> r[i].left == row)
            && (m == [] ==> r[0].id == Missing && r[0].category == Missing)
            && (m != [] ==> forall i :: 0 <= i < |r| ==> r[i].id == m[i].id && r[i].category == m[i].category)
  {
  }

  /** The left join: left rows in order, each followed by its matches. */
  function LeftJoin<L>(left: seq<L>, leftKey: L -> Value, right: seq<CategoryRow>): (r: seq<Joined<L>>)
    ensures |r| >= |left|
  {
    if left == [] then []
    else JoinOne(left[0], leftKey(left[0]), right) + LeftJoin(left[1..], leftKey, right)
  }

  ghost predicate UniqueIds(right: seq<CategoryRow>)
  {
    forall i, j :: 0 <= i < j < |right| ==> right[i].id != right[j].id
  }

  /** The name a unique-id table gives to `v`, missing when absent. */
  function NameOf(right: seq<CategoryRow>, v: Value): Value
  {
    if right == [] then Missing
    else if right[0].id == v then right[0].category
    else NameOf(right[1..], v)
  }

  lemma {:induction false} MatchesUnique(right: seq<CategoryRow>, v: Value)
    requires UniqueIds(right)
    ensures |Matches(right, v)| <= 1
    ensures Matches(right, v) == [] <==> NameOf(right, v) == Missing && (forall x | x in right :: x.id != v)
    ensures Matches(right, v) != [] ==> Matches(right, v)[0].category == NameOf(right, v)
  {
    if right != [] {
      var rest := right[1..];
      assert UniqueIds(rest) by {
        forall i, j | 0 <= i < j < |rest| ensures rest[i].id != rest[j].id {
          assert rest[i] == right[i + 1] && rest[j] == right[j + 1];
        }
      }
      MatchesUnique(rest, v);
      if right[0].id == v {
        forall x | x in rest ensures x.id != v {
          var j :| 0 <= j < |rest| && rest[j] == x;
          assert rest[j] == right[j + 1];
        }
        assert Matches(rest, v) == [];
      }
    }
  }

  lemma JoinOneUnique<L>(row: L, v: Value, right: seq<CategoryRow>)
    requires UniqueIds(right)
    ensures |JoinOne(row, v, right)| == 1
    ensures JoinOne(row, v, right)[0].left == row && JoinOne(row, v, right)[0].category == NameOf(right, v)
  {
    MatchesUnique(right, v);
  }

  lemma {:induction false} LeftJoinLength<L>(left: seq<L>, leftKey: L -> Value, right: seq<CategoryRow>)
    requires UniqueIds(right)
    ensures |LeftJoin(left, leftKey, right)| == |left|
  {
    if left != [] {
      JoinOneUnique(left[0], leftKey(left[0]), right);
      LeftJoinLength(left[1..], leftKey, right);
    }
  }

  lemma {:induction false} LeftJoinAt<L>(left: seq<L>, leftKey: L -> Value, right: seq<CategoryRow>, i: nat)
    requires UniqueIds(right) && i < |left|
    ensures |LeftJoin(left, leftKey, right)| == |left|
    ensures LeftJoin(left, leftKey, right)[i].left == left[i]
    ensures LeftJoin(left, leftKey, right)[i].category == NameOf(right, leftKey(left[i]))
  {
    LeftJoinLength(left, leftKey, right);
    var head := JoinOne(left[0], leftKey(left[0]), right);
    var tail := LeftJoin(left[1..], leftKey, right);
    JoinOneUnique(left[0], leftKey(left[0]), right);
    assert LeftJoin(left, leftKey, right) == head + tail;
    if i > 0 {
      LeftJoinAt(left[1..], leftKey, right, i - 1);
      assert (head + tail)[i] == tail[i - 1];
      assert left[1..][i - 1] == left[i];
    }
  }

  /** With unique ids on the right, the left join keeps exactly one row per
      left row, in order, and each row carries the name of its key, or a
      missing name when the key is absent. */
  lemma LeftJoinUnique<L>(left: seq<L>, leftKey: L -> Value, right: seq<CategoryRow>)
    requires UniqueIds(right)
    ensures |LeftJoin(left, leftKey, right)| == |left|
    ensures forall i :: 0 <= i < |left| ==>
              LeftJoin(left, leftKey, right)[i].left == left[i]
              && LeftJoin(left, leftKey, right)[i].category == NameOf(right, leftKey(left[i]))
  {
    LeftJoinLength(left, leftKey, right);
    forall i | 0 <= i < |left|
      ensures LeftJoin(left, leftKey, right)[i].left == left[i]
      ensures LeftJoin(left, leftKey, right)[i].category == NameOf(right, leftKey(left[i]))
    {
      LeftJoinAt(left, leftKey, right, i);
    }
  }

  /** The name table of lines 143-149 gives every id the name the dict of
      lines 75-81 gives it, so the two `category_map`s agree. */
  lemma CategoryTableAgrees(v: Value)
    ensures UniqueIds(CategoryTable)
    ensures NameOf(CategoryTable, v) == if v.Int? && v.i in CategoryMap then Str(CategoryMap[v.i]) else Missing
  {
    CategoryTableUnique();
    if v.Int? && v.i in CategoryMap {
      MappedName(v.i);
    } else {
      UnmappedName(v);
    }
  }

  /** No two rows of the table share an id. */
  lemma CategoryTableUnique()
    ensures UniqueIds(CategoryTable)
  {
  }

  /** An id of the dict finds its row. */
  lemma MappedName(n: int)
    requires n in CategoryMap
    ensures NameOf(CategoryTable, Int(n)) == Str(CategoryMap[n])
  {
    var t := CategoryTable;
    assert t[1..][1..][1..][1..][1..] == [];
  }

  /** Any other value runs past all five rows. */
  lemma UnmappedName(v: Value)
    requires !(v.Int? && v.i in CategoryMap)
    ensures NameOf(CategoryTable, v) == Missing
  {
    var t := CategoryTable;
    assert t[1..][1..][1..][1..][1..] == [];
    assert NameOf(t, v) == NameOf(t[1..], v) == NameOf(t[1..][1..], v)
        == NameOf(t[1..][1..][1..], v) == NameOf(t[1..][1..][1..][1..], v) == Missing;
  }

  /** An item with both keys resolves, under the dict of lines 75-81, to the
      name the table of lines 143-149 gives its id, and to its own
      `'category'` when the table has no row for that id (a string id, an
      unmapped integer, a missing id). */
  lemma ItemNameAgrees(item: Item)
    requires item.Dict? && "id" in item.fields && "category" in item.fields
    ensures var name := NameOf(CategoryTable, item.fields["id"]);
            ResolveItem(CategoryMap, item) == Success(if name != Missing then name else item.fields["category"])
  {
    CategoryTableAgrees(item.fields["id"]);
  }
}
