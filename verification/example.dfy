/** A worked example: three transactions, two products, two countries, two hours. */
module Example {
  import opened Wrappers
  import opened Records
  import opened Filter
  import opened GroupBy
  import opened Ranking
  import opened SortedKeys
  import opened Trending

  function Sample(): seq<Record> {
    [ Record(Some("UK"), Some("Mug"), Some(10), Some("Jan"), Some(9)),
      Record(Some("UK"), Some("Mug"), Some(20), Some("Feb"), Some(9)),
      Record(Some("US"), Some("Pen"), Some(5), Some("Jan"), Some(14)) ]
  }

  /** Grouping the sample by product: Mug sells 10 + 20, Pen 5. */
  lemma ProductGroupsExample()
    ensures GroupSum(DescriptionEntries(Sample())) == [Group("Mug", 30), Group("Pen", 5)]
  {
    var es := DescriptionEntries(Sample());
    assert es == [Entry(Some("Mug"), 10), Entry(Some("Mug"), 20), Entry(Some("Pen"), 5)];
    assert es[..1] == [Entry(Some("Mug"), 10)];
    assert es[..2] == [Entry(Some("Mug"), 10), Entry(Some("Mug"), 20)];
    assert GroupSum(es[..1][..0]) == [];
    assert GroupSum(es[..1]) == [Group("Mug", 10)];
    assert GroupSum(es[..2]) == [Group("Mug", 30)];
  }

  /** Ranking the sample's products: Mug with 30 comes before Pen with 5. */
  lemma ProductSalesExample()
    ensures TopN(GroupSum(DescriptionEntries(Sample())), 10) == [Group("Mug", 30), Group("Pen", 5)]
  {
    ProductGroupsExample();
    var gs := [Group("Mug", 30), Group("Pen", 5)];
    assert gs[..1] == [Group("Mug", 30)];
    assert SortDesc(gs[..1]) == [Group("Mug", 30)];
    assert SortDesc(gs) == gs;
  }

  /** Choosing "UK" keeps the two Mug rows and drops the Pen row. */
  lemma CountryFilterExample()
    ensures Where(Sample(), ByCountry, "UK") == Sample()[..2]
  {
    var rows := Sample();
    assert rows[1..][1..][1..] == [];
  }

  /** An ascending list holding exactly the keys `a` and `b`, with `a` below `b`, is `[a, b]`. */
  lemma AscendingPair(ks: seq<string>, a: string, b: string)
    requires Ascending(ks) && LexLess(a, b)
    requires forall k :: k in ks <==> k == a || k == b
    ensures ks == [a, b]
  {
    LexIrreflexive(a);
    LexIrreflexive(b);
    LexAsymmetric(a, b);
    forall i | 0 <= i < |ks|
      ensures ks[i] == a || ks[i] == b
    {
      assert ks[i] in ks;
    }
    assert a in ks && b in ks;
    assert |ks| >= 2;
    assert LexLess(ks[0], ks[1]);
    if |ks| > 2 {
      AscendingThird(ks);
      assert false;
    }
  }

  lemma AscendingThird(ks: seq<string>)
    requires Ascending(ks) && |ks| > 2
    ensures LexLess(ks[1], ks[2])
  {
  }

  /** The sample's Month values are "Jan" and "Feb". */
  lemma SampleMonths(m: string)
    ensures (exists x :: x in Sample() && x.month == Some(m)) <==> m == "Jan" || m == "Feb"
  {
    var rows := Sample();
    assert rows[0] in rows && rows[1] in rows;
  }

  /** The sample's sales per month: 20 in "Feb", 10 + 5 in "Jan". */
  lemma SampleMonthSums()
    ensures SumFor(MonthEntries(Sample()), "Feb") == 20
    ensures SumFor(MonthEntries(Sample()), "Jan") == 15
  {
    var es := MonthEntries(Sample());
    assert es == [Entry(Some("Jan"), 10), Entry(Some("Feb"), 20), Entry(Some("Jan"), 5)];
    assert es[..2] == [Entry(Some("Jan"), 10), Entry(Some("Feb"), 20)];
    assert es[..2][..1] == [Entry(Some("Jan"), 10)];
    assert SumFor(es[..2][..1], "Feb") == 0 && SumFor(es[..2][..1], "Jan") == 10;
    assert SumFor(es[..2], "Feb") == 20 && SumFor(es[..2], "Jan") == 10;
  }

  /** A monthly table over the months "Feb" and "Jan" is keyed "Feb" first. */
  lemma TwoMonthKeys(rows: seq<Record>)
    requires forall m :: (exists x :: x in rows && x.month == Some(m)) <==> m == "Jan" || m == "Feb"
    ensures Keys(MonthlySales(rows)) == ["Feb", "Jan"]
  {
    var ks := Keys(MonthlySales(rows));
    forall m
      ensures m in ks <==> m == "Feb" || m == "Jan"
    {
      assert m in ks <==> exists x :: x in rows && x.month == Some(m);
    }
    assert LexLess("Feb", "Jan");
    AscendingPair(ks, "Feb", "Jan");
  }

  /** A monthly table keyed "Feb", "Jan" with known sums is those two rows. */
  lemma TwoMonths(rows: seq<Record>, feb: int, jan: int)
    requires Keys(MonthlySales(rows)) == ["Feb", "Jan"]
    requires SumFor(MonthEntries(rows), "Feb") == feb && SumFor(MonthEntries(rows), "Jan") == jan
    ensures MonthlySales(rows) == [Group("Feb", feb), Group("Jan", jan)]
  {
    var r := MonthlySales(rows);
    assert |r| == 2 && r[0].key == Keys(r)[0] && r[1].key == Keys(r)[1];
    var es := MonthEntries(rows);
    assert r[0].total == SumFor(es, r[0].key) && r[1].total == SumFor(es, r[1].key);
    assert r == [r[0], r[1]];
  }

  /** Months sort as strings: "Feb" (20) comes before "Jan" (10 + 5). */
  lemma MonthlySalesExample()
    ensures MonthlySales(Sample()) == [Group("Feb", 20), Group("Jan", 15)]
  {
    forall m
      ensures (exists x :: x in Sample() && x.month == Some(m)) <==> m == "Jan" || m == "Feb"
    {
      SampleMonths(m);
    }
    SampleMonthSums();
    TwoMonthKeys(Sample());
    TwoMonths(Sample(), 20, 15);
  }

  /** The months each sample product is seen in. */
  lemma SampleMonthsOf()
    ensures MonthsOf(Sample(), "Mug") == ["Jan", "Feb"]
    ensures MonthsOf(Sample(), "Pen") == ["Jan"]
  {
    var rows := Sample();
    assert rows[..2][..1] == [rows[0]];
    assert MonthsOf(rows[..2][..1], "Mug") == ["Jan"];
    assert MonthsOf(rows[..2], "Mug") == ["Jan", "Feb"];
    assert MonthsOf(rows[..2][..1], "Pen") == [];
    assert MonthsOf(rows[..2], "Pen") == [];
  }

  /** Both sample products have a month, so the trending table is built. */
  lemma SampleTrendable()
    ensures TrendingProduct(Sample()).Success?
  {
    var rows := Sample();
    SampleMonthsOf();
    forall p | Some(p) in DescriptionColumn(rows)
      ensures |MonthsOf(rows, p)| > 0
    {
      var i :| 0 <= i < |rows| && DescriptionColumn(rows)[i] == Some(p);
      assert p == "Mug" || p == "Pen";
    }
  }

  /** Any product seen once in January and once in February trends in "Feb", the smaller month. */
  lemma JanFebTrendsFeb(rows: seq<Record>, product: string)
    requires MonthsOf(rows, product) == ["Jan", "Feb"]
    ensures TrendingProduct(rows).Success? ==>
      forall t :: t in TrendingProduct(rows).value && t.product == product ==> t.month == "Feb"
  {
    assert LexLess("Feb", "Jan");
    assert IsMode(["Jan", "Feb"], "Jan") && IsMode(["Jan", "Feb"], "Feb");
    assert forall m :: IsFirstMode(["Jan", "Feb"], m) ==> m == "Feb";
    var r := TrendingProduct(rows);
    if r.Success? {
      forall t | t in r.value && t.product == product
        ensures t.month == "Feb"
      {
        var i :| 0 <= i < |r.value| && r.value[i] == t;
        assert HasModalMonth(rows, r.value[i]);
      }
    }
  }

  /** Mug sold once in January and once in February: `mode()[0]` is the smaller, "Feb". */
  lemma TrendingExample()
    ensures TrendingProduct(Sample()).Success?
    ensures forall t :: t in TrendingProduct(Sample()).value && t.product == "Mug" ==> t.month == "Feb"
  {
    SampleTrendable();
    SampleMonthsOf();
    JanFebTrendsFeb(Sample(), "Mug");
  }
}
