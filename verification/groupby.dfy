/** `groupby(key).agg(Total_Sales=("Total_Price", "sum"))` (app.py:39-41, 47-49, 60-61, 66-67). */
module GroupBy {
  import opened Wrappers
  import opened Records
  import opened Unique

  /** A row seen through one grouping: its key cell (nullable) and its price. */
  datatype Entry<K> = Entry(key: Option<K>, price: int)

  /** One output row of a grouping: a key value and its Total_Sales. */
  datatype Group<K> = Group(key: K, total: int)

  function KeyColumn<K>(es: seq<Entry<K>>): seq<Option<K>> {
    seq(|es|, i requires 0 <= i < |es| => es[i].key)
  }

  function Keys<K>(gs: seq<Group<K>>): seq<K> {
    seq(|gs|, i requires 0 <= i < |gs| => gs[i].key)
  }

  /** Reference sum: Total_Price over the entries whose key is `k`. */
  function SumFor<K(==)>(es: seq<Entry<K>>, k: K): int {
    if |es| == 0 then 0
    else SumFor(es[..|es| - 1], k) + (if es[|es| - 1].key == Some(k) then es[|es| - 1].price else 0)
  }

  /** Total_Price over the entries whose key is not null (null keys are dropped by the grouping). */
  function KeyedSum<K>(es: seq<Entry<K>>): int {
    if |es| == 0 then 0
    else KeyedSum(es[..|es| - 1]) + (if es[|es| - 1].key.Some? then es[|es| - 1].price else 0)
  }

  /** Sum of the Total_Sales column of a grouped table. */
  function TotalSales<K>(gs: seq<Group<K>>): int {
    if |gs| == 0 then 0 else TotalSales(gs[..|gs| - 1]) + gs[|gs| - 1].total
  }

  /** Adds `p` to the group whose key is `k`. */
  function AddTo<K(==)>(gs: seq<Group<K>>, k: K, p: int): (r: seq<Group<K>>)
    ensures |r| == |gs| && Keys(r) == Keys(gs)
  {
    seq(|gs|, i requires 0 <= i < |gs| => if gs[i].key == k then Group(k, gs[i].total + p) else gs[i])
  }

  /** Folds one row into the running groups: null keys are skipped, new keys open a group. */
  function Accumulate<K(==)>(gs: seq<Group<K>>, e: Entry<K>): seq<Group<K>> {
    match e.key
    case None => gs
    case Some(k) => if k in Keys(gs) then AddTo(gs, k, e.price) else gs + [Group(k, e.price)]
  }

  /**
   * The grouped sums, one row per distinct non-null key in order of first appearance, each
   * carrying the sum of the prices of that key's rows.
   */
  function GroupSum<K(==,!new)>(es: seq<Entry<K>>): (gs: seq<Group<K>>)
    ensures Keys(gs) == Distinct(KeyColumn(es))
    ensures forall i :: 0 <= i < |gs| ==> gs[i].total == SumFor(es, gs[i].key)
  {
    if |es| == 0 then []
    else
      var init := es[..|es| - 1];
      var e := es[|es| - 1];
      var prev := GroupSum(init);
      assert KeyColumn(es) == KeyColumn(init) + [e.key];
      assert es == init + [e];
      AccumulateSums(init, e, prev);
      Accumulate(prev, e)
  }

  /** Folding in one more entry keeps every group's Total_Sales equal to its key's sum. */
  lemma AccumulateSums<K(!new)>(init: seq<Entry<K>>, e: Entry<K>, prev: seq<Group<K>>)
    requires Keys(prev) == Distinct(KeyColumn(init))
    requires forall i :: 0 <= i < |prev| ==> prev[i].total == SumFor(init, prev[i].key)
    ensures var gs := Accumulate(prev, e);
      forall i :: 0 <= i < |gs| ==> gs[i].total == SumFor(init + [e], gs[i].key)
  {
    var es := init + [e];
    match e.key
    case None =>
      forall i | 0 <= i < |prev|
        ensures prev[i].total == SumFor(es, prev[i].key)
      {
        SumForSnoc(init, e, prev[i].key);
      }
    case Some(k) =>
      var gs := Accumulate(prev, e);
      if k in Keys(prev) {
        forall i | 0 <= i < |gs|
          ensures gs[i].total == SumFor(es, gs[i].key)
        {
          assert Keys(gs)[i] == Keys(prev)[i];
          SumForSnoc(init, e, gs[i].key);
        }
      } else {
        forall i | 0 <= i < |gs|
          ensures gs[i].total == SumFor(es, gs[i].key)
        {
          SumForSnoc(init, e, gs[i].key);
          if i < |prev| {
            assert Keys(prev)[i] == prev[i].key;
          } else {
            SumForAbsent(init, k);
          }
        }
      }
  }

  /** Appending an entry adds its price to its own key's sum and to no other. */
  lemma SumForSnoc<K>(init: seq<Entry<K>>, e: Entry<K>, k: K)
    ensures SumFor(init + [e], k) == SumFor(init, k) + (if e.key == Some(k) then e.price else 0)
  {
    assert (init + [e])[..|init|] == init;
  }

  /** A key no entry carries sums to zero. */
  lemma {:induction false} SumForAbsent<K>(es: seq<Entry<K>>, k: K)
    requires Some(k) !in KeyColumn(es)
    ensures SumFor(es, k) == 0
  {
    if |es| > 0 {
      var init := es[..|es| - 1];
      assert KeyColumn(es) == KeyColumn(init) + [es[|es| - 1].key];
      SumForAbsent(init, k);
    }
  }

  /** Adding to one group of a keyed table adds to its Total_Sales exactly once. */
  lemma {:induction false} AddToTotal<K>(gs: seq<Group<K>>, k: K, p: int)
    requires NoDuplicates(Keys(gs))
    ensures TotalSales(AddTo(gs, k, p)) == TotalSales(gs) + (if k in Keys(gs) then p else 0)
  {
    if |gs| > 0 {
      var n := |gs| - 1;
      var init := gs[..n];
      assert Keys(init) == Keys(gs)[..n];
      assert AddTo(gs, k, p)[..n] == AddTo(init, k, p);
      AddToTotal(init, k, p);
      assert Keys(gs) == Keys(init) + [gs[n].key];
      if gs[n].key == k {
        assert forall j :: 0 <= j < n ==> Keys(init)[j] == Keys(gs)[j] != Keys(gs)[n];
      }
    }
  }

  lemma TotalSalesAppend<K>(gs: seq<Group<K>>, g: Group<K>)
    ensures TotalSales(gs + [g]) == TotalSales(gs) + g.total
  {
    assert (gs + [g])[..|gs|] == gs;
  }

  /**
   * Conservation: the Total_Sales of a grouping add up to the Total_Price of every row whose key
   * is not null.
   */
  lemma {:induction false} GroupSumConserves<K(!new)>(es: seq<Entry<K>>)
    ensures TotalSales(GroupSum(es)) == KeyedSum(es)
  {
    if |es| > 0 {
      var init := es[..|es| - 1];
      var e := es[|es| - 1];
      var prev := GroupSum(init);
      GroupSumConserves(init);
      match e.key
      case None =>
      case Some(k) =>
        if k in Keys(prev) {
          AddToTotal(prev, k, e.price);
        } else {
          TotalSalesAppend(prev, Group(k, e.price));
        }
    }
  }

  /**
   * One row per key: a grouping holds a row for `k` exactly when some entry has key `k`, never
   * two, and its Total_Sales is that key's sum.
   */
  lemma GroupSumExact<K(!new)>(es: seq<Entry<K>>, k: K)
    ensures var gs := GroupSum(es);
      NoDuplicates(Keys(gs)) &&
      (k in Keys(gs) <==> Some(k) in KeyColumn(es)) &&
      forall i :: 0 <= i < |gs| && gs[i].key == k ==> gs[i].total == SumFor(es, k)
  {
  }

  /** Reordering a grouped table keeps its set of keys. */
  lemma PermutedKeys<K>(r: seq<Group<K>>, gs: seq<Group<K>>)
    requires multiset(r) == multiset(gs)
    ensures forall k :: k in Keys(r) <==> k in Keys(gs)
  {
    forall k
      ensures k in Keys(r) ==> k in Keys(gs)
      ensures k in Keys(gs) ==> k in Keys(r)
    {
      if k in Keys(r) {
        var i :| 0 <= i < |r| && Keys(r)[i] == k;
        assert r[i] in multiset(gs);
        var a :| 0 <= a < |gs| && gs[a] == r[i];
        assert Keys(gs)[a] == k;
      }
      if k in Keys(gs) {
        var a :| 0 <= a < |gs| && Keys(gs)[a] == k;
        assert gs[a] in multiset(r);
        var i :| 0 <= i < |r| && r[i] == gs[a];
        assert Keys(r)[i] == k;
      }
    }
  }

  /** Reordering a grouped table keeps every row's total equal to its key's reference sum. */
  lemma PermutedSums<K>(r: seq<Group<K>>, gs: seq<Group<K>>, es: seq<Entry<K>>)
    requires multiset(r) == multiset(gs)
    requires forall i :: 0 <= i < |gs| ==> gs[i].total == SumFor(es, gs[i].key)
    ensures forall i :: 0 <= i < |r| ==> r[i].total == SumFor(es, r[i].key)
  {
    forall i | 0 <= i < |r|
      ensures r[i].total == SumFor(es, r[i].key)
    {
      assert r[i] in multiset(gs);
      var a :| 0 <= a < |gs| && gs[a] == r[i];
    }
  }

  /** The rows as seen by each grouping of the dashboard. */
  function DescriptionEntries(rows: seq<Record>): seq<Entry<string>> {
    seq(|rows|, i requires 0 <= i < |rows| => Entry(rows[i].description, Price(rows[i])))
  }

  function MonthEntries(rows: seq<Record>): seq<Entry<string>> {
    seq(|rows|, i requires 0 <= i < |rows| => Entry(rows[i].month, Price(rows[i])))
  }

  function CountryEntries(rows: seq<Record>): seq<Entry<string>> {
    seq(|rows|, i requires 0 <= i < |rows| => Entry(rows[i].country, Price(rows[i])))
  }

  function HourEntries(rows: seq<Record>): seq<Entry<int>> {
    seq(|rows|, i requires 0 <= i < |rows| => Entry(rows[i].hours, Price(rows[i])))
  }

  /** Total_Price over the rows whose Month is not null. */
  function MonthlyTotal(rows: seq<Record>): int {
    if |rows| == 0 then 0
    else MonthlyTotal(rows[..|rows| - 1]) + (if rows[|rows| - 1].month.Some? then Price(rows[|rows| - 1]) else 0)
  }

  /** Null-keyed rows aside, the Month grouping sees every row's price. */
  lemma {:induction false} MonthEntriesKeyedSum(rows: seq<Record>)
    ensures KeyedSum(MonthEntries(rows)) == MonthlyTotal(rows)
  {
    if |rows| > 0 {
      var init := rows[..|rows| - 1];
      assert MonthEntries(rows)[..|rows| - 1] == MonthEntries(init);
      MonthEntriesKeyedSum(init);
    }
  }
}
