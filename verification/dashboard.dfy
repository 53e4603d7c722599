/** One run of the dashboard script: filter stage, then the five derived tables (app.py:22-68, 93). */
module Dashboard {
  import opened Wrappers
  import opened Records
  import opened Filter
  import opened GroupBy
  import opened Ranking
  import opened Trending
  import opened SortedKeys

  /** Rows kept by `head(10)` in the product, country and trending charts. */
  const ChartRows: nat := 10

  /** Why a run aborts: a column an aggregation names is absent, or a product has no Month. */
  datatype DashboardError = MissingColumn(column: Column) | NoModalMonth(product: string)

  /** The tables handed to the charts. */
  datatype Views = Views(
    productSales: seq<Group<string>>,
    monthlySales: seq<Group<string>>,
    trendingProduct: seq<Trend>,
    trendingShown: seq<Trend>,
    topTenSalesByCountry: seq<Group<string>>,
    peakHours: seq<Group<int>>
  )

  /** The columns the aggregations name. */
  predicate HasAggregatedColumns(columns: set<Column>) {
    Description in columns && TotalPrice in columns && Month in columns && Country in columns && Hours in columns
  }

  /** Every product present has at least one non-null Month, so each mode exists. */
  ghost predicate EveryProductHasMonth(rows: seq<Record>) {
    forall p :: Some(p) in DescriptionColumn(rows) ==> |MonthsOf(rows, p)| > 0
  }

  /**
   * The aggregation stage. Columns are looked up in the order the script names them; the first
   * absent one aborts the run, as does a product whose Month values are all null.
   */
  function ComputeViews(ds: Dataset): (r: Result<Views, DashboardError>)
    ensures r.Success? <==> HasAggregatedColumns(ds.columns) && EveryProductHasMonth(ds.rows)
    ensures r.Success? ==> ViewsSound(ds.rows, r.value)
    ensures r.Failure? && r.error.MissingColumn? ==> r.error.column !in ds.columns
    ensures r.Failure? && r.error.NoModalMonth? ==>
      Some(r.error.product) in DescriptionColumn(ds.rows) && |MonthsOf(ds.rows, r.error.product)| == 0
  {
    var rows := ds.rows;
    if Description !in ds.columns then Failure(MissingColumn(Description))
    else if TotalPrice !in ds.columns then Failure(MissingColumn(TotalPrice))
    else if Month !in ds.columns then Failure(MissingColumn(Month))
    else
      match TrendingProduct(rows)
      case Failure(e) => Failure(NoModalMonth(e.product))
      case Success(_) =>
        if Country !in ds.columns then Failure(MissingColumn(Country))
        else if Hours !in ds.columns then Failure(MissingColumn(Hours))
        else
          Success(Tables(rows))
  }

  /**
   * The six tables of a run whose columns all exist and whose products all have a month; they
   * are everything the aggregation stage promises.
   */
  function Tables(rows: seq<Record>): (v: Views)
    requires EveryProductHasMonth(rows)
    ensures ViewsSound(rows, v)
  {
    var trend := TrendingProduct(rows);
    assert trend.Success?;
    Views(
      TopN(GroupSum(DescriptionEntries(rows)), ChartRows),
      MonthlySales(rows),
      trend.value,
      Head(trend.value, ChartRows),
      TopN(GroupSum(CountryEntries(rows)), ChartRows),
      PeakHours(rows))
  }

  /**
   * A whole interaction: sidebar choices and filtering, then the tables over the narrowed rows.
   * The tables are built exactly when the aggregated columns exist and every product left after
   * filtering has a month, and then they describe the narrowed rows.
   */
  function Run(ds: Dataset, country: string, product: string): (r: (Sidebar, Result<Views, DashboardError>))
    ensures r.0 == RunSidebar(ds, country, product)
    ensures r.1.Success? <==> HasAggregatedColumns(ds.columns) && EveryProductHasMonth(r.0.data.rows)
    ensures r.1.Success? ==> ViewsSound(r.0.data.rows, r.1.value)
  {
    var s := RunSidebar(ds, country, product);
    (s, ComputeViews(s.data))
  }

  /**
   * The promises of the aggregation stage about the tables it hands to the charts: product and
   * country tables that are the top ten of their groupings, monthly sales by ascending Month,
   * the full trending table and its first ten rows, and every hour ranked by sales.
   */
  ghost predicate ViewsSound(rows: seq<Record>, v: Views) {
    && IsTop(v.productSales, GroupSum(DescriptionEntries(rows)), ChartRows)
    && IsMonthlySales(rows, v.monthlySales)
    && IsTrending(rows, v.trendingProduct)
    && |v.trendingShown| == Min(ChartRows, |v.trendingProduct|)
    && v.trendingShown == v.trendingProduct[..|v.trendingShown|]
    && IsTop(v.topTenSalesByCountry, GroupSum(CountryEntries(rows)), ChartRows)
    && IsPeakHours(rows, v.peakHours)
  }
}
