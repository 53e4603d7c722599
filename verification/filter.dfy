/** The sidebar: choice lists for the two selectors and the filter they apply (app.py:21-33). */
module Filter {
  import opened Wrappers
  import opened Records
  import opened Unique

  /** The sentinel choice that disables a selector. */
  const All: string := "All"

  /** The two columns a user can narrow the data by. */
  datatype Facet = ByCountry | ByProduct

  function ColumnOf(f: Facet): Column {
    match f
    case ByCountry => Country
    case ByProduct => Description
  }

  /** The value of a row in the facet's column. */
  function Field(r: Record, f: Facet): Option<string> {
    match f
    case ByCountry => r.country
    case ByProduct => r.description
  }

  /** The facet's column, nulls included. */
  function FacetColumn(rows: seq<Record>, f: Facet): seq<Option<string>> {
    match f
    case ByCountry => CountryColumn(rows)
    case ByProduct => DescriptionColumn(rows)
  }

  /** Whether a row passes `column == v`; a null cell never equals a selection. */
  predicate Matches(r: Record, f: Facet, v: string) {
    Field(r, f) == Some(v)
  }

  /** Boolean-mask selection `data[data[col] == v]`: the matching rows, in their original order. */
  function Where(rows: seq<Record>, f: Facet, v: string): (r: seq<Record>)
    ensures forall x :: x in r ==> Matches(x, f, v)
    ensures forall x :: multiset(r)[x] == if Matches(x, f, v) then multiset(rows)[x] else 0
  {
    if |rows| == 0 then []
    else
      var rest := Where(rows[1..], f, v);
      assert rows == [rows[0]] + rows[1..];
      if Matches(rows[0], f, v) then [rows[0]] + rest else rest
  }

  /** A selector's list: "All" followed by the column's distinct non-null values. */
  function Choices(rows: seq<Record>, f: Facet): (r: seq<string>)
    ensures |r| >= 1 && r[0] == All
    ensures NoDuplicates(r[1..])
    ensures forall v :: v in r[1..] <==> exists x :: x in rows && Matches(x, f, v)
  {
    var vals := Distinct(FacetColumn(rows, f));
    forall v
      ensures Some(v) in FacetColumn(rows, f) <==> exists x :: x in rows && Matches(x, f, v)
    {
      if Some(v) in FacetColumn(rows, f) {
        var i :| 0 <= i < |rows| && FacetColumn(rows, f)[i] == Some(v);
        assert rows[i] in rows && Matches(rows[i], f, v);
      }
      if exists x :: x in rows && Matches(x, f, v) {
        var x :| x in rows && Matches(x, f, v);
        var i :| 0 <= i < |rows| && rows[i] == x;
        assert FacetColumn(rows, f)[i] == Some(v);
      }
    }
    assert ([All] + vals)[1..] == vals;
    [All] + vals
  }

  /** One selector applied: skipped when its column is absent or "All" is chosen. */
  function FilterBy(ds: Dataset, f: Facet, selection: string): (r: Dataset)
    ensures r.columns == ds.columns
    ensures ColumnOf(f) !in ds.columns || selection == All ==> r == ds
    ensures ColumnOf(f) in ds.columns && selection != All ==>
              (forall x :: x in r.rows ==> Matches(x, f, selection)) &&
              (forall x :: Matches(x, f, selection) ==> multiset(r.rows)[x] == multiset(ds.rows)[x])
  {
    if ColumnOf(f) in ds.columns && selection != All then
      ds.(rows := Where(ds.rows, f, selection))
    else
      ds
  }

  /** What the sidebar shows (a list per selector whose column exists) and the narrowed data. */
  datatype Sidebar = Sidebar(
    countryChoices: Option<seq<string>>,
    productChoices: Option<seq<string>>,
    data: Dataset
  )

  /** Whether a row survives one selector: skipped selectors keep every row. */
  predicate Kept(columns: set<Column>, f: Facet, selection: string, x: Record) {
    ColumnOf(f) !in columns || selection == All || Matches(x, f, selection)
  }

  /**
   * The filter stage run top to bottom: the country list and filter first, then the product
   * list, computed from the rows the country filter kept, and the product filter. A list is
   * shown exactly when its column exists; it offers "All" and then each value once; the product
   * list offers the products of the rows the country selector kept; and the data reaching the
   * aggregations holds each row kept by both selectors as often as the loaded data does.
   */
  function RunSidebar(ds: Dataset, country: string, product: string): (r: Sidebar)
    ensures r.data.columns == ds.columns
    ensures r.countryChoices.Some? <==> Country in ds.columns
    ensures r.countryChoices.Some? ==> var cs := r.countryChoices.value;
      && |cs| >= 1 && cs[0] == All && NoDuplicates(cs[1..])
      && forall v :: v in cs[1..] <==> exists x :: x in ds.rows && Matches(x, ByCountry, v)
    ensures r.productChoices.Some? <==> Description in ds.columns
    ensures r.productChoices.Some? ==> var ps := r.productChoices.value;
      && |ps| >= 1 && ps[0] == All && NoDuplicates(ps[1..])
      && forall v :: v in ps[1..] <==>
           exists x :: x in ds.rows && Kept(ds.columns, ByCountry, country, x) && Matches(x, ByProduct, v)
    ensures forall x :: multiset(r.data.rows)[x] ==
              if Kept(ds.columns, ByCountry, country, x) && Kept(ds.columns, ByProduct, product, x)
              then multiset(ds.rows)[x] else 0
  {
    var countryChoices := if Country in ds.columns then Some(Choices(ds.rows, ByCountry)) else None;
    var byCountry := FilterBy(ds, ByCountry, country);
    assert forall x :: x in byCountry.rows <==> x in ds.rows && Kept(ds.columns, ByCountry, country, x) by {
      forall x
        ensures x in byCountry.rows <==> x in ds.rows && Kept(ds.columns, ByCountry, country, x)
      {
        assert x in byCountry.rows <==> multiset(byCountry.rows)[x] > 0;
        assert x in ds.rows <==> multiset(ds.rows)[x] > 0;
      }
    }
    var productChoices :=
      if Description in byCountry.columns then Some(Choices(byCountry.rows, ByProduct)) else None;
    Sidebar(countryChoices, productChoices, FilterBy(byCountry, ByProduct, product))
  }

  /** Row order survives a selection: selecting over a concatenation concatenates the selections. */
  lemma {:induction false} WhereAppend(a: seq<Record>, b: seq<Record>, f: Facet, v: string)
    ensures Where(a + b, f, v) == Where(a, f, v) + Where(b, f, v)
  {
    if |a| == 0 {
      assert a + b == b;
    } else {
      assert (a + b)[1..] == a[1..] + b;
      WhereAppend(a[1..], b, f, v);
    }
  }

  /** "All", or a missing column, leaves both the rows and their order untouched. */
  lemma SidebarIdentity(ds: Dataset, country: string, product: string)
    requires country == All || Country !in ds.columns
    requires product == All || Description !in ds.columns
    ensures RunSidebar(ds, country, product).data == ds
  {
  }

  /** Both selectors active: the result is the rows matching the country and the product. */
  lemma SidebarConjunction(ds: Dataset, country: string, product: string)
    requires Country in ds.columns && country != All
    requires Description in ds.columns && product != All
    ensures var r := RunSidebar(ds, country, product).data.rows;
      forall x :: multiset(r)[x] ==
        if Matches(x, ByCountry, country) && Matches(x, ByProduct, product) then multiset(ds.rows)[x] else 0
  {
  }

  /** The two selections commute: narrowing by product first gives the same rows in the same order. */
  lemma {:induction false} WhereCommutes(rows: seq<Record>, country: string, product: string)
    ensures Where(Where(rows, ByCountry, country), ByProduct, product)
         == Where(Where(rows, ByProduct, product), ByCountry, country)
  {
    if |rows| > 0 {
      WhereCommutes(rows[1..], country, product);
    }
  }

  /**
   * The product list is computed after the country filter: with a country chosen, every product
   * offered is sold in that country, and every product sold there is offered.
   */
  lemma ProductChoicesFollowCountry(ds: Dataset, country: string, product: string, p: string)
    requires Country in ds.columns && Description in ds.columns && country != All
    ensures var s := RunSidebar(ds, country, product);
      s.productChoices.Some? &&
      (p in s.productChoices.value[1..] <==>
         exists x :: x in ds.rows && Matches(x, ByCountry, country) && Matches(x, ByProduct, p))
  {
  }
}
