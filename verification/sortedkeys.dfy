/**
 * Group keys in sorted order: `groupby` sorts its keys by default, so `monthly_sales` and
 * `trending_product` come out ordered by Month and by Description (app.py:47-57).
 */
module SortedKeys {
  import opened Wrappers
  import opened Records
  import opened Unique
  import opened GroupBy

  /** Python's `<` on `str`: code point by code point, a proper prefix sorting first. */
  predicate LexLess(a: string, b: string) {
    if |a| == 0 then |b| > 0
    else if |b| == 0 then false
    else if a[0] != b[0] then a[0] < b[0]
    else LexLess(a[1..], b[1..])
  }

  lemma {:induction false} LexIrreflexive(a: string)
    ensures !LexLess(a, a)
  {
    if |a| > 0 {
      LexIrreflexive(a[1..]);
    }
  }

  lemma {:induction false} LexTransitive(a: string, b: string, c: string)
    requires LexLess(a, b) && LexLess(b, c)
    ensures LexLess(a, c)
  {
    if |a| > 0 && a[0] == b[0] && b[0] == c[0] {
      LexTransitive(a[1..], b[1..], c[1..]);
    }
  }

  lemma {:induction false} LexTotal(a: string, b: string)
    requires a != b
    ensures LexLess(a, b) || LexLess(b, a)
  {
    if |a| > 0 && |b| > 0 && a[0] == b[0] {
      assert a == [a[0]] + a[1..] && b == [b[0]] + b[1..];
      LexTotal(a[1..], b[1..]);
    }
  }

  lemma LexAsymmetric(a: string, b: string)
    ensures !(LexLess(a, b) && LexLess(b, a))
  {
    if LexLess(a, b) && LexLess(b, a) {
      LexTransitive(a, b, a);
      LexIrreflexive(a);
    }
  }

  /** Strictly increasing, hence free of duplicates. */
  predicate Ascending(ks: seq<string>) {
    forall i, j :: 0 <= i < j < |ks| ==> LexLess(ks[i], ks[j])
  }

  lemma AscendingDistinct(ks: seq<string>)
    requires Ascending(ks)
    ensures NoDuplicates(ks)
  {
    forall i, j | 0 <= i < j < |ks|
      ensures ks[i] != ks[j]
    {
      LexIrreflexive(ks[i]);
    }
  }

  /** Extending an ascending list by a key above all of it keeps it ascending. */
  lemma AscendingSnoc(ks: seq<string>, k: string)
    requires Ascending(ks)
    requires forall i :: 0 <= i < |ks| ==> LexLess(ks[i], k)
    ensures Ascending(ks + [k])
  {
  }

  /** A key above the last of an ascending list is above all of it. */
  lemma AboveAll(ks: seq<string>, k: string)
    requires Ascending(ks) && |ks| > 0 && LexLess(ks[|ks| - 1], k)
    ensures forall i :: 0 <= i < |ks| ==> LexLess(ks[i], k)
  {
    forall i | 0 <= i < |ks| - 1
      ensures LexLess(ks[i], k)
    {
      LexTransitive(ks[i], ks[|ks| - 1], k);
    }
  }

  lemma KeysSnoc<K>(gs: seq<Group<K>>, g: Group<K>)
    ensures Keys(gs + [g]) == Keys(gs) + [g.key]
  {
  }

  /** Places a group with a new key into a key-ascending table. */
  function InsertByKey(gs: seq<Group<string>>, g: Group<string>): (r: seq<Group<string>>)
    requires Ascending(Keys(gs)) && g.key !in Keys(gs)
    ensures Ascending(Keys(r))
    ensures multiset(r) == multiset(gs) + multiset{g}
    ensures forall k :: k in Keys(r) <==> k in Keys(gs) || k == g.key
    ensures TotalSales(r) == TotalSales(gs) + g.total
  {
    if |gs| == 0 then
      assert Keys([g]) == [g.key];
      [g]
    else
      var init := gs[..|gs| - 1];
      var last := gs[|gs| - 1];
      if LexLess(last.key, g.key) then
        AppendAbove(gs, g);
        gs + [g]
      else
        SplitLast(gs, g);
        var front := InsertByKey(init, g);
        FrontBelow(gs, g, front);
        TotalSalesAppend(front, last);
        TotalSalesAppend(init, last);
        assert gs == init + [last];
        KeysSnoc(init, last);
        KeysSnoc(front, last);
        front + [last]
  }

  /** The case where the new key is above every key present: it goes at the end. */
  lemma AppendAbove(gs: seq<Group<string>>, g: Group<string>)
    requires Ascending(Keys(gs)) && |gs| > 0 && LexLess(gs[|gs| - 1].key, g.key)
    ensures Ascending(Keys(gs + [g])) && TotalSales(gs + [g]) == TotalSales(gs) + g.total
    ensures Keys(gs + [g]) == Keys(gs) + [g.key]
  {
    var ks := Keys(gs);
    LastKey(gs);
    AboveAll(ks, g.key);
    AscendingSnoc(ks, g.key);
    KeysSnoc(gs, g);
    TotalSalesAppend(gs, g);
  }

  lemma LastKey<K>(gs: seq<Group<K>>)
    requires |gs| > 0
    ensures |Keys(gs)| == |gs| && Keys(gs)[|gs| - 1] == gs[|gs| - 1].key
  {
  }

  /** The case where the new key is below the last key: it goes into the front part. */
  lemma SplitLast(gs: seq<Group<string>>, g: Group<string>)
    requires Ascending(Keys(gs)) && |gs| > 0 && g.key !in Keys(gs)
    requires !LexLess(gs[|gs| - 1].key, g.key)
    ensures Ascending(Keys(gs[..|gs| - 1])) && g.key !in Keys(gs[..|gs| - 1])
    ensures LexLess(g.key, gs[|gs| - 1].key)
  {
    var init := gs[..|gs| - 1];
    assert gs == init + [gs[|gs| - 1]];
    KeysSnoc(init, gs[|gs| - 1]);
    assert Keys(init) == Keys(gs)[..|gs| - 1];
    assert Keys(gs)[|gs| - 1] == gs[|gs| - 1].key;
    LexTotal(gs[|gs| - 1].key, g.key);
  }

  /** Re-attaching the last group after inserting into the front part keeps keys ascending. */
  lemma FrontBelow(gs: seq<Group<string>>, g: Group<string>, front: seq<Group<string>>)
    requires Ascending(Keys(gs)) && |gs| > 0
    requires LexLess(g.key, gs[|gs| - 1].key)
    requires Ascending(Keys(front))
    requires forall k :: k in Keys(front) <==> k in Keys(gs[..|gs| - 1]) || k == g.key
    ensures Ascending(Keys(front + [gs[|gs| - 1]]))
  {
    var last := gs[|gs| - 1];
    FrontKeysBelow(gs, g, Keys(front));
    KeysSnoc(front, last);
    AscendingSnoc(Keys(front), last.key);
  }

  /** Keys drawn from all but the last key of an ascending list, or below it, are below it. */
  lemma FrontKeysBelow(gs: seq<Group<string>>, g: Group<string>, ks: seq<string>)
    requires Ascending(Keys(gs)) && |gs| > 0
    requires LexLess(g.key, gs[|gs| - 1].key)
    requires forall k :: k in ks ==> k in Keys(gs[..|gs| - 1]) || k == g.key
    ensures forall i :: 0 <= i < |ks| ==> LexLess(ks[i], gs[|gs| - 1].key)
  {
    var n := |gs| - 1;
    assert Keys(gs[..n]) == Keys(gs)[..n];
    assert Keys(gs)[n] == gs[n].key;
    forall i | 0 <= i < |ks|
      ensures LexLess(ks[i], gs[n].key)
    {
      var k := ks[i];
      assert k in ks;
      if k != g.key {
        var j :| 0 <= j < n && Keys(gs)[j] == k;
        assert LexLess(Keys(gs)[j], Keys(gs)[n]);
      }
    }
  }

  /** The grouped table reordered by ascending key, as `groupby` emits it. */
  function SortByKey(gs: seq<Group<string>>): (r: seq<Group<string>>)
    requires NoDuplicates(Keys(gs))
    ensures Ascending(Keys(r))
    ensures multiset(r) == multiset(gs)
    ensures forall k :: k in Keys(r) <==> k in Keys(gs)
    ensures TotalSales(r) == TotalSales(gs)
  {
    if |gs| == 0 then []
    else
      var init := gs[..|gs| - 1];
      var last := gs[|gs| - 1];
      assert gs == init + [last];
      KeysSnoc(init, last);
      assert Keys(init) == Keys(gs)[..|gs| - 1];
      assert last.key !in Keys(init) by {
        assert forall j :: 0 <= j < |init| ==> Keys(init)[j] == Keys(gs)[j] != Keys(gs)[|gs| - 1];
      }
      InsertByKey(SortByKey(init), last)
  }

  /** The grouping of `es` with its keys in ascending order. */
  function SortedGroupSum(es: seq<Entry<string>>): (r: seq<Group<string>>)
    ensures Ascending(Keys(r))
    ensures forall k :: k in Keys(r) <==> Some(k) in KeyColumn(es)
    ensures forall i :: 0 <= i < |r| ==> r[i].total == SumFor(es, r[i].key)
    ensures TotalSales(r) == KeyedSum(es)
  {
    var gs := GroupSum(es);
    GroupSumConserves(es);
    var r := SortByKey(gs);
    PermutedSums(r, gs, es);
    r
  }

  /** What `monthly_sales` promises about the rows it summarises. */
  ghost predicate IsMonthlySales(rows: seq<Record>, r: seq<Group<string>>) {
    && Ascending(Keys(r))
    && (forall m :: m in Keys(r) <==> exists x :: x in rows && x.month == Some(m))
    && (forall i :: 0 <= i < |r| ==> r[i].total == SumFor(MonthEntries(rows), r[i].key))
    && TotalSales(r) == MonthlyTotal(rows)
  }

  /**
   * `monthly_sales`: one row per Month present, in ascending Month order, each with the sum of
   * its rows' prices; the Total_Sales add up to the Total_Price of every row with a Month.
   */
  function MonthlySales(rows: seq<Record>): (r: seq<Group<string>>)
    ensures IsMonthlySales(rows, r)
  {
    var es := MonthEntries(rows);
    MonthEntriesKeyedSum(rows);
    assert forall m :: Some(m) in KeyColumn(es) <==> exists x :: x in rows && x.month == Some(m) by {
      forall m
        ensures Some(m) in KeyColumn(es) <==> exists x :: x in rows && x.month == Some(m)
      {
        if exists x :: x in rows && x.month == Some(m) {
          var x :| x in rows && x.month == Some(m);
          var i :| 0 <= i < |rows| && rows[i] == x;
          assert KeyColumn(es)[i] == Some(m);
        }
      }
    }
    SortedGroupSum(es)
  }
}
