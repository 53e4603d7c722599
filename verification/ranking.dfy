/** `sort_values(by="Total_Sales", ascending=False)` and `head(n)` (app.py:43-44, 62-63, 68). */
module Ranking {
  import opened Wrappers
  import opened Records
  import opened Unique
  import opened GroupBy

  function Min(a: nat, b: nat): nat {
    if a <= b then a else b
  }

  /** Non-increasing by Total_Sales. */
  predicate SortedDesc<K>(gs: seq<Group<K>>) {
    forall i, j :: 0 <= i < j < |gs| ==> gs[i].total >= gs[j].total
  }

  /**
   * Places `g` into a table sorted non-increasing, after every row with a Total_Sales at least
   * as large (so equal totals keep their input order).
   */
  function Insert<K(==)>(gs: seq<Group<K>>, g: Group<K>): (r: seq<Group<K>>)
    requires SortedDesc(gs)
    ensures SortedDesc(r)
    ensures multiset(r) == multiset(gs) + multiset{g}
  {
    if |gs| == 0 then [g]
    else if gs[|gs| - 1].total >= g.total then
      AppendSorted(gs, g);
      gs + [g]
    else
      var init := gs[..|gs| - 1];
      var last := gs[|gs| - 1];
      assert gs == init + [last];
      var front := Insert(init, g);
      BoundedBelow(init, g, front, last.total);
      AppendSorted(front, last);
      front + [last]
  }

  /** Appending a row no larger than any present keeps a table sorted. */
  lemma AppendSorted<K>(gs: seq<Group<K>>, g: Group<K>)
    requires SortedDesc(gs)
    requires forall i :: 0 <= i < |gs| ==> gs[i].total >= g.total
    ensures SortedDesc(gs + [g])
  {
  }

  /** A reordering of a table plus `g` inherits a lower bound both satisfy. */
  lemma BoundedBelow<K>(gs: seq<Group<K>>, g: Group<K>, r: seq<Group<K>>, bound: int)
    requires g.total >= bound
    requires forall i :: 0 <= i < |gs| ==> gs[i].total >= bound
    requires multiset(r) == multiset(gs) + multiset{g}
    ensures forall i :: 0 <= i < |r| ==> r[i].total >= bound
  {
    forall i | 0 <= i < |r|
      ensures r[i].total >= bound
    {
      assert r[i] in multiset(r);
      if r[i] != g {
        assert r[i] in multiset(gs);
        var j :| 0 <= j < |gs| && gs[j] == r[i];
      }
    }
  }

  /** The table reordered non-increasing by Total_Sales; the model keeps ties in input order. */
  function SortDesc<K(==)>(gs: seq<Group<K>>): (r: seq<Group<K>>)
    ensures SortedDesc(r)
    ensures multiset(r) == multiset(gs)
  {
    if |gs| == 0 then []
    else
      assert gs == gs[..|gs| - 1] + [gs[|gs| - 1]];
      Insert(SortDesc(gs[..|gs| - 1]), gs[|gs| - 1])
  }

  /** `head(n)`: the first `n` rows, or all of them when there are fewer. */
  function Head<T>(s: seq<T>, n: nat): (r: seq<T>)
    ensures |r| == Min(n, |s|)
    ensures forall i :: 0 <= i < |r| ==> r[i] == s[i]
  {
    s[..Min(n, |s|)]
  }

  /**
   * `r` is a top-n table of `gs`: min(n, |gs|) rows, sorted non-increasing, all taken from `gs`,
   * and every group left out sells no more than every group kept.
   */
  ghost predicate IsTop<K>(r: seq<Group<K>>, gs: seq<Group<K>>, n: nat) {
    && |r| == Min(n, |gs|)
    && SortedDesc(r)
    && multiset(r) <= multiset(gs)
    && forall x, y :: x in multiset(gs) - multiset(r) && y in r ==> x.total <= y.total
  }

  /** `sort_values(by="Total_Sales", ascending=False).head(n)`: the n largest groups, largest first. */
  function TopN<K(==)>(gs: seq<Group<K>>, n: nat): (r: seq<Group<K>>)
    ensures IsTop(r, gs, n)
  {
    var s := SortDesc(gs);
    HeadOfSorted(s, gs, n);
    Head(s, n)
  }

  /** The first n rows of a sorted reordering of `gs` are a top-n table of `gs`. */
  lemma HeadOfSorted<K>(s: seq<Group<K>>, gs: seq<Group<K>>, n: nat)
    requires SortedDesc(s) && multiset(s) == multiset(gs)
    ensures IsTop(Head(s, n), gs, n)
  {
    var k := Min(n, |s|);
    var r := Head(s, n);
    var rest := s[k..];
    assert r == s[..k];
    assert s == r + rest;
    assert multiset(gs) == multiset(r) + multiset(rest);
    assert |gs| == |s| by {
      assert |multiset(gs)| == |multiset(s)|;
    }
    SortedSplit(s, k);
    assert SortedDesc(r);
  }

  /** In a sorted table, every row after position k sells no more than every row before it. */
  lemma SortedSplit<K>(s: seq<Group<K>>, k: nat)
    requires SortedDesc(s) && k <= |s|
    ensures forall x, y :: x in multiset(s[k..]) && y in s[..k] ==> x.total <= y.total
  {
    forall x, y | x in multiset(s[k..]) && y in s[..k]
      ensures x.total <= y.total
    {
      var i :| k <= i < |s| && s[i] == x;
      var j :| 0 <= j < k && s[j] == y;
    }
  }

  /** A table whose keys are distinct holds each group at most once. */
  lemma {:induction false} DistinctKeysOnce<K>(gs: seq<Group<K>>, x: Group<K>)
    requires NoDuplicates(Keys(gs))
    ensures multiset(gs)[x] <= 1
  {
    if |gs| > 0 {
      var n := |gs| - 1;
      var init := gs[..n];
      assert gs == init + [gs[n]];
      assert Keys(init) == Keys(gs)[..n];
      DistinctKeysOnce(init, x);
      if x == gs[n] {
        forall j | 0 <= j < n
          ensures init[j] != x
        {
          assert Keys(gs)[j] != Keys(gs)[n];
        }
      }
    }
  }

  /** A reordering of a table with distinct keys still has distinct keys. */
  lemma PermutedKeysDistinct<K>(r: seq<Group<K>>, gs: seq<Group<K>>)
    requires multiset(r) == multiset(gs) && NoDuplicates(Keys(gs))
    ensures NoDuplicates(Keys(r))
  {
    forall i, j | 0 <= i < j < |r|
      ensures Keys(r)[i] != Keys(r)[j]
    {
      if r[i].key == r[j].key {
        assert r[i] in multiset(gs) && r[j] in multiset(gs);
        var a :| 0 <= a < |gs| && gs[a] == r[i];
        var b :| 0 <= b < |gs| && gs[b] == r[j];
        assert Keys(gs)[a] == Keys(gs)[b];
        assert r == r[..j] + r[j..];
        assert r[i] in r[..j] && r[j] in r[j..];
        assert multiset(r)[r[i]] == multiset(r[..j])[r[i]] + multiset(r[j..])[r[i]];
        DistinctKeysOnce(gs, r[i]);
      }
    }
  }

  /** An hour is a key of the Hours grouping exactly when some row carries it. */
  lemma HoursPresent(rows: seq<Record>)
    ensures forall h :: Some(h) in KeyColumn(HourEntries(rows)) <==> exists x :: x in rows && x.hours == Some(h)
  {
    forall h
      ensures Some(h) in KeyColumn(HourEntries(rows)) <==> exists x :: x in rows && x.hours == Some(h)
    {
      if exists x :: x in rows && x.hours == Some(h) {
        var x :| x in rows && x.hours == Some(h);
        var i :| 0 <= i < |rows| && rows[i] == x;
        assert KeyColumn(HourEntries(rows))[i] == Some(h);
      }
    }
  }

  /** What `peak_hours` promises about the rows it summarises. */
  ghost predicate IsPeakHours(rows: seq<Record>, r: seq<Group<int>>) {
    && SortedDesc(r)
    && NoDuplicates(Keys(r))
    && (forall h :: h in Keys(r) <==> exists x :: x in rows && x.hours == Some(h))
    && forall i :: 0 <= i < |r| ==> r[i].total == SumFor(HourEntries(rows), r[i].key)
  }

  /**
   * `peak_hours`: one row per Hours value present, none dropped by truncation, each with the sum
   * of its rows' prices, ordered non-increasing by Total_Sales.
   */
  function PeakHours(rows: seq<Record>): (r: seq<Group<int>>)
    ensures IsPeakHours(rows, r)
  {
    var es := HourEntries(rows);
    var gs := GroupSum(es);
    var r := SortDesc(gs);
    PermutedKeysDistinct(r, gs);
    PermutedKeys(r, gs);
    PermutedSums(r, gs, es);
    HoursPresent(rows);
    r
  }
}
