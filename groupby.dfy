/** `groupby(keys)[measure].sum().reset_index()` over a table of rows: one
    output row per distinct key among the rows whose key has no missing
    component, holding the sum of the measure over that group. */
module GroupBy {
  import opened Wrappers

  /** One row of the grouped frame: a group key and its summed measure. */
  datatype AggRow<K> = AggRow(key: K, total: int)

  /** The sum of `count` over the rows whose key is present and satisfies `p`.
      `key` returns `None` for a row with a missing key component, which
      pandas' default `dropna=True` leaves out of every group. */
  function SumRows<R, K>(rows: seq<R>, key: R -> Option<K>, count: R -> int, p: K -> bool): int
  {
    if rows == [] then 0
    else
      var last := rows[|rows| - 1];
      SumRows(rows[..|rows| - 1], key, count, p)
        + (if key(last).Some? && p(key(last).value) then count(last) else 0)
  }

  /** The sum of the totals of the grouped rows whose key satisfies `p`. */
  function SumAgg<K>(agg: seq<AggRow<K>>, p: K -> bool): int
  {
    if agg == [] then 0
    else (if p(agg[0].key) then agg[0].total else 0) + SumAgg(agg[1..], p)
  }

  /** Selects exactly one key. */
  function KeyIs<K(==)>(k: K): K -> bool
  {
    j => j == k
  }

  /** Selects every key. */
  function AnyKey<K>(): K -> bool
  {
    j => true
  }

  ghost predicate DistinctKeys<K>(agg: seq<AggRow<K>>)
  {
    forall i, j :: 0 <= i < j < |agg| ==> agg[i].key != agg[j].key
  }

  function KeySet<K>(agg: seq<AggRow<K>>): set<K>
  {
    set i | 0 <= i < |agg| :: agg[i].key
  }

  /** The keys of the rows that take part in the grouping. */
  function PresentKeys<R, K>(rows: seq<R>, key: R -> Option<K>): set<K>
  {
    set i | 0 <= i < |rows| && key(rows[i]).Some? :: key(rows[i]).value
  }

  lemma KeySetCons<K>(a: AggRow<K>, agg: seq<AggRow<K>>)
    ensures KeySet([a] + agg) == {a.key} + KeySet(agg)
  {
    var s := [a] + agg;
    forall k | k in KeySet(agg) ensures k in KeySet(s) {
      var i :| 0 <= i < |agg| && agg[i].key == k;
      assert s[i + 1].key == k;
    }
    assert s[0].key == a.key;
  }

  lemma PresentKeysSnoc<R, K>(rows: seq<R>, key: R -> Option<K>)
    requires rows != []
    ensures var last := rows[|rows| - 1];
            PresentKeys(rows, key)
              == PresentKeys(rows[..|rows| - 1], key) + (if key(last).Some? then {key(last).value} else {})
  {
    var init := rows[..|rows| - 1];
    forall k | k in PresentKeys(init, key) ensures k in PresentKeys(rows, key) {
      var i :| 0 <= i < |init| && key(init[i]).Some? && key(init[i]).value == k;
      assert rows[i] == init[i];
    }
  }

  /** Adds measure `m` to the group `k`: the row for `k` has its total raised
      by `m`, or, when `k` has no row yet, a row `(k, m)` is appended. */
  function Accumulate<K(==)>(acc: seq<AggRow<K>>, k: K, m: int): (r: seq<AggRow<K>>)
    ensures KeySet(r) == KeySet(acc) + {k}
    ensures DistinctKeys(acc) ==> DistinctKeys(r)
  {
    if acc == [] then
      assert [AggRow(k, m)][0].key == k;
      [AggRow(k, m)]
    else if acc[0].key == k then
      KeySetCons(acc[0], acc[1..]);
      KeySetCons(AggRow(k, acc[0].total + m), acc[1..]);
      assert acc == [acc[0]] + acc[1..];
      [AggRow(k, acc[0].total + m)] + acc[1..]
    else
      var rest := Accumulate(acc[1..], k, m);
      KeySetCons(acc[0], acc[1..]);
      KeySetCons(acc[0], rest);
      assert acc == [acc[0]] + acc[1..];
      assert DistinctKeys(acc) ==> acc[0].key !in KeySet(acc[1..]);
      [acc[0]] + rest
  }

  /** Accumulating into a key without a row appends the row `(k, m)`. */
  lemma {:induction false} AccumulateAppends<K>(acc: seq<AggRow<K>>, k: K, m: int)
    requires k !in KeySet(acc)
    ensures Accumulate(acc, k, m) == acc + [AggRow(k, m)]
  {
    if acc != [] {
      KeySetCons(acc[0], acc[1..]);
      assert acc == [acc[0]] + acc[1..];
      AccumulateAppends(acc[1..], k, m);
    }
  }

  /** With distinct keys, accumulating into the key of row `i` raises that
      row's total in place and changes nothing else. */
  lemma {:induction false} AccumulateUpdates<K>(acc: seq<AggRow<K>>, k: K, m: int, i: nat)
    requires DistinctKeys(acc) && i < |acc| && acc[i].key == k
    ensures Accumulate(acc, k, m) == acc[i := AggRow(k, acc[i].total + m)]
  {
    var rest := acc[1..];
    var row := AggRow(k, acc[i].total + m);
    assert acc == [acc[0]] + rest;
    if i == 0 {
      assert Accumulate(acc, k, m) == [row] + rest;
      assert acc[i := row] == [row] + rest;
    } else {
      assert acc[0].key != k;
      assert Accumulate(acc, k, m) == [acc[0]] + Accumulate(rest, k, m);
      DistinctDropFirst(acc);
      assert rest[i - 1] == acc[i];
      AccumulateUpdates(rest, k, m, i - 1);
      assert acc[i := row] == [acc[0]] + rest[i - 1 := row];
    }
  }

  lemma DistinctDropFirst<K>(acc: seq<AggRow<K>>)
    requires DistinctKeys(acc) && acc != []
    ensures DistinctKeys(acc[1..])
  {
    var rest := acc[1..];
    forall p, q | 0 <= p < q < |rest| ensures rest[p].key != rest[q].key {
      assert rest[p] == acc[p + 1] && rest[q] == acc[q + 1];
    }
  }

  /** The grouped frame, in order of first appearance of each key. */
  function GroupSum<R, K(==)>(rows: seq<R>, key: R -> Option<K>, count: R -> int): (r: seq<AggRow<K>>)
    ensures DistinctKeys(r)
    ensures KeySet(r) == PresentKeys(rows, key)
  {
    if rows == [] then []
    else
      var acc := GroupSum(rows[..|rows| - 1], key, count);
      var last := rows[|rows| - 1];
      PresentKeysSnoc(rows, key);
      match key(last)
      case None => acc
      case Some(k) => Accumulate(acc, k, count(last))
  }

  /** One more row folds into the grouped frame of the rows before it. */
  lemma GroupSumSnoc<R, K>(rows: seq<R>, row: R, key: R -> Option<K>, count: R -> int)
    ensures GroupSum(rows + [row], key, count)
            == match key(row)
               case None => GroupSum(rows, key, count)
               case Some(k) => Accumulate(GroupSum(rows, key, count), k, count(row))
  {
    assert (rows + [row])[..|rows|] == rows;
  }

  lemma {:induction false} AccumulateSum<K>(acc: seq<AggRow<K>>, k: K, m: int, p: K -> bool)
    ensures SumAgg(Accumulate(acc, k, m), p) == SumAgg(acc, p) + (if p(k) then m else 0)
  {
    if acc != [] && acc[0].key != k {
      AccumulateSum(acc[1..], k, m, p);
      var r := Accumulate(acc, k, m);
      assert r[1..] == Accumulate(acc[1..], k, m);
    }
  }

  /** Grouping neither creates nor loses demand: for every selection `p` of
      keys, the grouped totals of the selected groups add up to the measure
      of the rows in those groups. */
  lemma {:induction false} GroupSumPreservesSums<R, K>(rows: seq<R>, key: R -> Option<K>, count: R -> int, p: K -> bool)
    ensures SumAgg(GroupSum(rows, key, count), p) == SumRows(rows, key, count, p)
  {
    if rows != [] {
      var last := rows[|rows| - 1];
      GroupSumPreservesSums(rows[..|rows| - 1], key, count, p);
      if key(last).Some? {
        AccumulateSum(GroupSum(rows[..|rows| - 1], key, count), key(last).value, count(last), p);
      }
    }
  }

  lemma {:induction false} SumAggAbsent<K>(agg: seq<AggRow<K>>, k: K)
    requires k !in KeySet(agg)
    ensures SumAgg(agg, KeyIs(k)) == 0
  {
    if agg != [] {
      KeySetCons(agg[0], agg[1..]);
      assert agg == [agg[0]] + agg[1..];
      SumAggAbsent(agg[1..], k);
    }
  }

  lemma {:induction false} SumAggOne<K>(agg: seq<AggRow<K>>, i: nat)
    requires DistinctKeys(agg) && i < |agg|
    ensures SumAgg(agg, KeyIs(agg[i].key)) == agg[i].total
  {
    KeySetCons(agg[0], agg[1..]);
    assert agg == [agg[0]] + agg[1..];
    if i == 0 {
      assert agg[0].key !in KeySet(agg[1..]);
      SumAggAbsent(agg[1..], agg[0].key);
    } else {
      SumAggOne(agg[1..], i - 1);
    }
  }

  /** Each output row holds exactly the sum of its group: the rows whose key
      is present and equal to the output row's key. */
  lemma GroupSumRowTotal<R, K>(rows: seq<R>, key: R -> Option<K>, count: R -> int, i: nat)
    requires i < |GroupSum(rows, key, count)|
    ensures var r := GroupSum(rows, key, count);
            r[i].total == SumRows(rows, key, count, KeyIs(r[i].key))
  {
    var r := GroupSum(rows, key, count);
    SumAggOne(r, i);
    GroupSumPreservesSums(rows, key, count, KeyIs(r[i].key));
  }

  /** Summed over all groups, the totals equal the measure over every row
      whose key has no missing component. */
  lemma GroupSumTotal<R, K>(rows: seq<R>, key: R -> Option<K>, count: R -> int)
    ensures SumAgg(GroupSum(rows, key, count), AnyKey()) == SumRows(rows, key, count, AnyKey())
  {
    GroupSumPreservesSums(rows, key, count, AnyKey());
  }

  /** Splitting a selection into two disjoint selections splits its sum. */
  lemma {:induction false} SumAggSplit<K>(agg: seq<AggRow<K>>, pq: K -> bool, p: K -> bool, q: K -> bool)
    requires forall k :: pq(k) == (p(k) || q(k))
    requires forall k :: !(p(k) && q(k))
    ensures SumAgg(agg, pq) == SumAgg(agg, p) + SumAgg(agg, q)
  {
    if agg != [] {
      SumAggSplit(agg[1..], pq, p, q);
    }
  }

  /** Two selections that agree on the keys of `agg` have the same sum. */
  lemma {:induction false} SumAggAgree<K>(agg: seq<AggRow<K>>, p: K -> bool, q: K -> bool)
    requires forall i :: 0 <= i < |agg| ==> p(agg[i].key) == q(agg[i].key)
    ensures SumAgg(agg, p) == SumAgg(agg, q)
  {
    if agg != [] {
      assert forall i :: 0 <= i < |agg| - 1 ==> agg[1..][i] == agg[i + 1];
      SumAggAgree(agg[1..], p, q);
    }
  }

  /** A selection that no key of `agg` satisfies sums to zero. */
  lemma {:induction false} SumAggNothing<K>(agg: seq<AggRow<K>>, p: K -> bool)
    requires forall i :: 0 <= i < |agg| ==> !p(agg[i].key)
    ensures SumAgg(agg, p) == 0
  {
    if agg != [] {
      assert forall i :: 0 <= i < |agg| - 1 ==> agg[1..][i] == agg[i + 1];
      SumAggNothing(agg[1..], p);
    }
  }

  /** Sums over consecutive parts of a table add up. */
  lemma {:induction false} SumRowsAppend<R, K>(a: seq<R>, b: seq<R>, key: R -> Option<K>, count: R -> int, p: K -> bool)
    ensures SumRows(a + b, key, count, p) == SumRows(a, key, count, p) + SumRows(b, key, count, p)
    decreases |b|
  {
    if b == [] {
      assert a + b == a;
    } else {
      var b' := b[..|b| - 1];
      assert (a + b)[..|a + b| - 1] == a + b';
      SumRowsAppend(a, b', key, count, p);
    }
  }
}
