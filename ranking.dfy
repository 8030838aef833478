/** `sort_values(ascending=False)` and `.head(k)` on a grouped frame. The
    sort is pandas' default quicksort, which is not stable and is given no
    tie-break, so the order of rows with equal totals is not determined:
    `IsTopK` admits every such order and `TopK` computes one of them. */
module Ranking {
  import opened GroupBy

  ghost predicate SortedDesc<K>(s: seq<AggRow<K>>)
  {
    forall i, j :: 0 <= i < j < |s| ==> s[i].total >= s[j].total
  }

  /** The measure column of a frame. */
  function Measures<K>(s: seq<AggRow<K>>): (m: seq<int>)
    ensures |m| == |s| && forall i :: 0 <= i < |s| ==> m[i] == s[i].total
  {
    seq(|s|, i requires 0 <= i < |s| => s[i].total)
  }

  /** `SortedDesc` for the bare totals of `Measures`: two admissible heads
      may hold different rows, so they are compared by totals alone. */
  ghost predicate SortedIntsDesc(s: seq<int>)
  {
    forall i, j :: 0 <= i < j < |s| ==> s[i] >= s[j]
  }

  function Min(a: nat, b: nat): nat
  {
    if a <= b then a else b
  }

  /** What `sort_values(ascending=False).head(k)` may return for `rows`:
      `min(k, |rows|)` rows, in non-increasing order of total, taken from
      `rows` (as a sub-multiset), and no row left out has a larger total
      than the smallest one kept. */
  ghost predicate IsTopK<K>(rows: seq<AggRow<K>>, k: nat, r: seq<AggRow<K>>)
  {
    && |r| == Min(k, |rows|)
    && SortedDesc(r)
    && multiset(r) <= multiset(rows)
    && (|r| > 0 ==> forall x | x in multiset(rows) - multiset(r) :: x.total <= r[|r| - 1].total)
  }

  /** Inserts `x` before the first row with a smaller total. */
  function Insert<K>(x: AggRow<K>, s: seq<AggRow<K>>): (r: seq<AggRow<K>>)
    requires SortedDesc(s)
    ensures |r| == |s| + 1
    ensures SortedDesc(r)
    ensures multiset(r) == multiset(s) + multiset{x}
    ensures r[0] == x || (s != [] && r[0] == s[0])
  {
    if s == [] then [x]
    else if x.total >= s[0].total then
      ConsSorted(x, s);
      [x] + s
    else
      SortedDropFirst(s);
      var rest := Insert(x, s[1..]);
      assert s == [s[0]] + s[1..];
      ConsSorted(s[0], rest);
      assert multiset([s[0]] + rest) == multiset{s[0]} + multiset(rest);
      [s[0]] + rest
  }

  lemma SortedDropFirst<K>(s: seq<AggRow<K>>)
    requires SortedDesc(s) && s != []
    ensures SortedDesc(s[1..])
  {
  }

  lemma ConsSorted<K>(h: AggRow<K>, s: seq<AggRow<K>>)
    requires SortedDesc(s)
    requires s != [] ==> s[0].total <= h.total
    ensures SortedDesc([h] + s)
  {
  }

  /** `sort_values(ascending=False)`: a permutation of the rows in
      non-increasing order of total. */
  function SortDesc<K>(s: seq<AggRow<K>>): (r: seq<AggRow<K>>)
    ensures SortedDesc(r)
    ensures multiset(r) == multiset(s)
    ensures |r| == |s|
  {
    if s == [] then []
    else
      assert s == [s[0]] + s[1..];
      var r := Insert(s[0], SortDesc(s[1..]));
      assert |r| == |multiset(r)|;
      r
  }

  /** `sort_values(ascending=False).head(k)`. */
  function TopK<K>(rows: seq<AggRow<K>>, k: nat): (r: seq<AggRow<K>>)
    ensures IsTopK(rows, k, r)
  {
    var s := SortDesc(rows);
    SortedPrefixIsTopK(rows, k, s);
    s[..Min(k, |rows|)]
  }

  /** The first `k` rows of any sorted permutation of `rows` are an
      admissible top-k result. */
  lemma SortedPrefixIsTopK<K>(rows: seq<AggRow<K>>, k: nat, s: seq<AggRow<K>>)
    requires SortedDesc(s) && |s| == |rows| && multiset(s) == multiset(rows)
    ensures IsTopK(rows, k, s[..Min(k, |rows|)])
  {
    PrefixLeavesSmaller(s, Min(k, |rows|));
  }

  /** The rows after a prefix of a sorted frame are the ones the prefix
      leaves out, and none is larger than the prefix's last row. */
  lemma PrefixLeavesSmaller<K>(s: seq<AggRow<K>>, m: nat)
    requires SortedDesc(s) && m <= |s|
    ensures SortedDesc(s[..m])
    ensures multiset(s[..m]) <= multiset(s)
    ensures multiset(s) - multiset(s[..m]) == multiset(s[m..])
    ensures m > 0 ==> forall x | x in multiset(s) - multiset(s[..m]) :: x.total <= s[m - 1].total
  {
    assert s == s[..m] + s[m..];
    assert multiset(s) == multiset(s[..m]) + multiset(s[m..]);
    if m > 0 {
      forall x | x in multiset(s[m..]) ensures x.total <= s[m - 1].total {
        var j :| m <= j < |s| && s[j] == x;
      }
    }
  }

  lemma {:induction false} SortedIntsUnique(a: seq<int>, b: seq<int>)
    requires SortedIntsDesc(a) && SortedIntsDesc(b)
    requires multiset(a) == multiset(b)
    ensures a == b
    decreases |a|
  {
    assert |a| == |multiset(a)| == |multiset(b)| == |b|;
    if a != [] {
      HeadIsMax(a, b);
      HeadIsMax(b, a);
      var a', b' := a[1..], b[1..];
      assert a == [a[0]] + a' && b == [b[0]] + b';
      assert multiset(a') == multiset(a) - multiset{a[0]};
      assert multiset(b') == multiset(b) - multiset{b[0]};
      SortedTail(a);
      SortedTail(b);
      SortedIntsUnique(a', b');
    }
  }

  lemma HeadIsMax(a: seq<int>, b: seq<int>)
    requires SortedIntsDesc(b) && a != [] && multiset(a) == multiset(b)
    ensures b != [] && a[0] <= b[0]
  {
    assert a[0] in multiset(b);
    var j :| 0 <= j < |b| && b[j] == a[0];
  }

  lemma SortedTail(a: seq<int>)
    requires SortedIntsDesc(a) && a != []
    ensures SortedIntsDesc(a[1..])
  {
    var a' := a[1..];
    forall p, q | 0 <= p < q < |a'| ensures a'[p] >= a'[q] {
      assert a'[p] == a[p + 1] && a'[q] == a[q + 1];
    }
  }

  lemma MeasuresAppend<K>(a: seq<AggRow<K>>, b: seq<AggRow<K>>)
    ensures Measures(a + b) == Measures(a) + Measures(b)
  {
  }

  lemma {:induction false} MeasuresPerm<K>(a: seq<AggRow<K>>, b: seq<AggRow<K>>)
    requires multiset(a) == multiset(b)
    ensures multiset(Measures(a)) == multiset(Measures(b))
    decreases |a|
  {
    if a == [] {
      assert |b| == |multiset(b)| == 0;
    } else {
      var x := a[0];
      assert x in multiset(b);
      var j :| 0 <= j < |b| && b[j] == x;
      var rest := b[..j] + b[j + 1..];
      RemoveAtMeasures(b, j);
      RemoveFirstMeasures(a);
      MultisetCancel(multiset(a[1..]), multiset(rest), multiset{x});
      MeasuresPerm(a[1..], rest);
    }
  }

  /** The special case of `RemoveAtMeasures` for the first row. */
  lemma RemoveFirstMeasures<K>(a: seq<AggRow<K>>)
    requires |a| > 0
    ensures multiset(a) == multiset(a[1..]) + multiset{a[0]}
    ensures multiset(Measures(a)) == multiset(Measures(a[1..])) + multiset{a[0].total}
  {
    assert a == [a[0]] + a[1..];
    MeasuresAppend([a[0]], a[1..]);
    assert Measures([a[0]]) == [a[0].total];
  }

  lemma MultisetCancel<T>(p: multiset<T>, q: multiset<T>, x: multiset<T>)
    requires p + x == q + x
    ensures p == q
  {
    assert forall e :: p[e] == (p + x)[e] - x[e] && q[e] == (q + x)[e] - x[e];
  }

  /** Taking out the row at position `j` takes its total out of the
      measure column. */
  lemma RemoveAtMeasures<K>(b: seq<AggRow<K>>, j: nat)
    requires j < |b|
    ensures multiset(b) == multiset(b[..j] + b[j + 1..]) + multiset{b[j]}
    ensures multiset(Measures(b)) == multiset(Measures(b[..j] + b[j + 1..])) + multiset{b[j].total}
  {
    var pre, post := b[..j], b[j + 1..];
    assert b == pre + [b[j]] + post;
    assert multiset(b) == multiset(pre) + multiset{b[j]} + multiset(post);
    MeasuresAppend(pre + [b[j]], post);
    MeasuresAppend(pre, [b[j]]);
    MeasuresAppend(pre, post);
    assert Measures([b[j]]) == [b[j].total];
    assert multiset(Measures(b)) == multiset(Measures(pre)) + multiset{b[j].total} + multiset(Measures(post));
  }

  /** Two frames holding the same rows, both in non-increasing order of
      total, have the same measure column. */
  lemma SortedSameMeasures<K>(a: seq<AggRow<K>>, b: seq<AggRow<K>>)
    requires SortedDesc(a) && SortedDesc(b)
    requires multiset(a) == multiset(b)
    ensures Measures(a) == Measures(b)
  {
    MeasuresPerm(a, b);
    SortedIntsUnique(Measures(a), Measures(b));
  }

  /** Any admissible top-k result carries the k largest totals of the whole
      frame, in order: ties change which rows are shown, never the totals. */
  lemma IsTopKMeasures<K>(rows: seq<AggRow<K>>, k: nat, r: seq<AggRow<K>>)
    requires IsTopK(rows, k, r)
    ensures Measures(r) == Measures(SortDesc(rows))[..|r|]
  {
    var rest := SortDesc(Without(rows, r));
    CompleteTopK(rows, k, r);
    SortedSameMeasures(r + rest, SortDesc(rows));
    MeasuresAppend(r, rest);
    assert Measures(r + rest)[..|r|] == Measures(r);
  }

  /** An admissible top-k result followed by the sorted rows it leaves out
      is a sorted permutation of the whole frame. */
  lemma CompleteTopK<K>(rows: seq<AggRow<K>>, k: nat, r: seq<AggRow<K>>)
    requires IsTopK(rows, k, r)
    ensures SortedDesc(r + SortDesc(Without(rows, r)))
    ensures multiset(r + SortDesc(Without(rows, r))) == multiset(rows)
  {
    var rest := SortDesc(Without(rows, r));
    assert multiset(rest) == multiset(rows) - multiset(r);
    assert multiset(r + rest) == multiset(r) + multiset(rest);
    AppendSorted(r, rest);
  }

  /** A sorted frame followed by a sorted frame of rows no larger than its
      last row is sorted. */
  lemma AppendSorted<K>(r: seq<AggRow<K>>, rest: seq<AggRow<K>>)
    requires SortedDesc(r) && SortedDesc(rest)
    requires |r| > 0 ==> forall x | x in multiset(rest) :: x.total <= r[|r| - 1].total
    ensures SortedDesc(r + rest)
  {
    var t := r + rest;
    forall i, j | 0 <= i < j < |t| ensures t[i].total >= t[j].total {
      if j >= |r| {
        assert t[j] == rest[j - |r|];
        if i < |r| {
          assert t[j] in multiset(rest);
          assert r[i].total >= r[|r| - 1].total;
        }
      }
    }
  }

  /** Determinism up to ties: two admissible results of the same top-k
      call have equal measure columns. */
  lemma TopKMeasuresDetermined<K>(rows: seq<AggRow<K>>, k: nat, r1: seq<AggRow<K>>, r2: seq<AggRow<K>>)
    requires IsTopK(rows, k, r1) && IsTopK(rows, k, r2)
    ensures Measures(r1) == Measures(r2)
  {
    IsTopKMeasures(rows, k, r1);
    IsTopKMeasures(rows, k, r2);
  }

  /** `s` with one occurrence of `x` removed. */
  ghost function RemoveOne<K>(s: seq<AggRow<K>>, x: AggRow<K>): (r: seq<AggRow<K>>)
    ensures multiset(r) == multiset(s) - multiset{x}
  {
    if s == [] then []
    else
      assert s == [s[0]] + s[1..];
      if s[0] == x then s[1..] else [s[0]] + RemoveOne(s[1..], x)
  }

  /** `s` with the rows of `t` removed, one occurrence each. */
  ghost function Without<K>(s: seq<AggRow<K>>, t: seq<AggRow<K>>): (r: seq<AggRow<K>>)
    ensures multiset(t) <= multiset(s) ==> multiset(r) == multiset(s) - multiset(t)
    decreases |t|
  {
    if t == [] then s
    else
      assert t == [t[0]] + t[1..];
      Without(RemoveOne(s, t[0]), t[1..])
  }
}
