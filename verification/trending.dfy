/** `trending_product`: the most frequent Month of each product (app.py:53-57, 93). */
module Trending {
  import opened Wrappers
  import opened Records
  import opened Unique
  import opened GroupBy
  import opened SortedKeys

  /** One row of the trending table. */
  datatype Trend = Trend(product: string, month: string)

  /** Why the trending table cannot be built: a product has no Month value to take a mode of. */
  datatype TrendError = EmptyMode(product: string)

  /** `m` occurs in `ms` and no value of `ms` occurs more often. */
  predicate IsMode(ms: seq<string>, m: string) {
    m in ms && forall x :: x in ms ==> multiset(ms)[x] <= multiset(ms)[m]
  }

  /** `mode()[0]`: `mode()` lists the most frequent values in ascending order, so `m` is the least of them. */
  predicate IsFirstMode(ms: seq<string>, m: string) {
    IsMode(ms, m) && forall x :: x in ms && IsMode(ms, x) && x != m ==> LexLess(m, x)
  }

  /** Of the candidates, one occurring in `ms` most often; among equally frequent ones, the least. */
  function MostFrequent(ms: seq<string>, candidates: seq<string>): (r: string)
    requires |candidates| > 0
    ensures r in candidates
    ensures forall x :: x in candidates ==> multiset(ms)[x] <= multiset(ms)[r]
    ensures forall x :: x in candidates && x != r && multiset(ms)[x] == multiset(ms)[r] ==> LexLess(r, x)
  {
    if |candidates| == 1 then candidates[0]
    else
      var c := candidates[0];
      var best := MostFrequent(ms, candidates[1..]);
      assert candidates == [c] + candidates[1..];
      if multiset(ms)[c] > multiset(ms)[best] || (multiset(ms)[c] == multiset(ms)[best] && LexLess(c, best)) then
        assert forall x :: x in candidates[1..] && x != c && multiset(ms)[x] == multiset(ms)[c] ==> LexLess(c, x) by {
          forall x | x in candidates[1..] && x != c && multiset(ms)[x] == multiset(ms)[c]
            ensures LexLess(c, x)
          {
            if x != best {
              LexTransitive(c, best, x);
            }
          }
        }
        c
      else
        assert c != best && multiset(ms)[c] == multiset(ms)[best] ==> LexLess(best, c) by {
          if c != best && multiset(ms)[c] == multiset(ms)[best] {
            LexTotal(c, best);
          }
        }
        best
  }

  /** `mode()[0]` of a non-empty column of months: the least of its most frequent values. */
  function Mode(ms: seq<string>): (r: string)
    requires |ms| > 0
    ensures IsFirstMode(ms, r)
  {
    MostFrequent(ms, ms)
  }

  /** A trending row whose Month is what `mode()[0]` gives for its product. */
  predicate HasModalMonth(rows: seq<Record>, t: Trend) {
    IsFirstMode(MonthsOf(rows, t.product), t.month)
  }

  /** The Description column of a trending table. */
  function Products(ts: seq<Trend>): seq<string> {
    seq(|ts|, i requires 0 <= i < |ts| => ts[i].product)
  }

  lemma ProductsCons(t: Trend, ts: seq<Trend>)
    ensures Products([t] + ts) == [t.product] + Products(ts)
  {
    assert forall i :: 0 <= i < |ts| ==> ([t] + ts)[i + 1] == ts[i];
  }

  /** The non-null months of the rows whose Description is `product` (what `mode()` sees). */
  function MonthsOf(rows: seq<Record>, product: string): seq<string> {
    if |rows| == 0 then []
    else
      var init := MonthsOf(rows[..|rows| - 1], product);
      var last := rows[|rows| - 1];
      match (last.description, last.month)
      case (Some(d), Some(m)) => if d == product then init + [m] else init
      case _ => init
  }

  /** The positions of the rows with Description `product` and Month `m`. */
  ghost function RowsWith(rows: seq<Record>, product: string, m: string): set<int> {
    set i | 0 <= i < |rows| && rows[i].description == Some(product) && rows[i].month == Some(m)
  }

  /**
   * The trending rows for `products`, in that order. The first product with no Month value
   * aborts the computation, as `mode()[0]` of an empty column does.
   */
  function TrendRows(rows: seq<Record>, products: seq<string>): (r: Result<seq<Trend>, TrendError>)
    ensures r.Failure? ==> r.error.product in products && |MonthsOf(rows, r.error.product)| == 0
    ensures r.Success? ==> Products(r.value) == products
    ensures r.Success? ==> forall i :: 0 <= i < |r.value| ==> HasModalMonth(rows, r.value[i])
  {
    if |products| == 0 then Success([])
    else
      var p := products[0];
      var ms := MonthsOf(rows, p);
      if |ms| == 0 then
        assert p in products;
        Failure(EmptyMode(p))
      else
        var rest := TrendRows(rows, products[1..]);
        if rest.Failure? then
          assert rest.error.product in products;
          rest
        else
          var t := Trend(p, Mode(ms));
          assert HasModalMonth(rows, t);
          var out := [t] + rest.value;
          ProductsCons(t, rest.value);
          assert products == [p] + products[1..];
          Success(out)
  }

  /** What `trending_product` promises when it can be built. */
  ghost predicate IsTrending(rows: seq<Record>, ts: seq<Trend>) {
    && Ascending(Products(ts))
    && (forall p :: p in Products(ts) <==> Some(p) in DescriptionColumn(rows))
    && forall i :: 0 <= i < |ts| ==> HasModalMonth(rows, ts[i])
  }

  /**
   * `trending_product`: when it can be built it has exactly one row per distinct non-null
   * Description, in ascending Description order, whose Month is `mode()[0]` of that product's
   * months; it fails exactly when some product present has no Month in any of its rows, and
   * the failure names such a product.
   */
  function TrendingProduct(rows: seq<Record>): (r: Result<seq<Trend>, TrendError>)
    ensures r.Success? ==> IsTrending(rows, r.value)
    ensures r.Failure? ==>
      Some(r.error.product) in DescriptionColumn(rows) && |MonthsOf(rows, r.error.product)| == 0
    ensures r.Failure? <==> exists p :: Some(p) in DescriptionColumn(rows) && |MonthsOf(rows, p)| == 0
  {
    var es := DescriptionEntries(rows);
    assert KeyColumn(es) == DescriptionColumn(rows);
    TrendRows(rows, Keys(SortedGroupSum(es)))
  }

  /** The months collected for a product are exactly the Month values of that product's rows. */
  lemma {:induction false} MonthsOfSound(rows: seq<Record>, product: string, m: string)
    ensures m in MonthsOf(rows, product) <==>
      exists r :: r in rows && r.description == Some(product) && r.month == Some(m)
  {
    if |rows| > 0 {
      var init := rows[..|rows| - 1];
      MonthsOfSound(init, product, m);
      assert rows == init + [rows[|rows| - 1]];
    }
  }

  /** Each month occurs among a product's months once per row of that product with that month. */
  lemma {:induction false} MonthsOfCount(rows: seq<Record>, product: string, m: string)
    ensures multiset(MonthsOf(rows, product))[m] == |RowsWith(rows, product, m)|
  {
    if |rows| > 0 {
      var n := |rows| - 1;
      var init := rows[..n];
      MonthsOfCount(init, product, m);
      var last := rows[n];
      if last.description == Some(product) && last.month.Some? {
        assert MonthsOf(rows, product) == MonthsOf(init, product) + [last.month.value];
      } else {
        assert MonthsOf(rows, product) == MonthsOf(init, product);
      }
      RowsWithSnoc(rows, product, m);
    }
  }

  /** Extending the rows by one adds its position to `RowsWith` exactly when it matches. */
  lemma RowsWithSnoc(rows: seq<Record>, product: string, m: string)
    requires |rows| > 0
    ensures var n := |rows| - 1;
      |RowsWith(rows, product, m)| ==
        |RowsWith(rows[..n], product, m)| +
        if rows[n].description == Some(product) && rows[n].month == Some(m) then 1 else 0
  {
    var n := |rows| - 1;
    var before := RowsWith(rows[..n], product, m);
    var after := RowsWith(rows, product, m);
    assert forall i :: 0 <= i < n ==> rows[..n][i] == rows[i];
    if rows[n].description == Some(product) && rows[n].month == Some(m) {
      assert after == before + {n};
    } else {
      assert after == before;
    }
  }
}
