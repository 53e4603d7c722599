/** The transaction table the dashboard reads: one Record per CSV row. */
module Records {
  import opened Wrappers

  /** The columns the dashboard refers to by name. */
  datatype Column = Country | Description | TotalPrice | Month | Hours

  /** One transaction line. Every column is nullable; a price is in cents. */
  datatype Record = Record(
    country: Option<string>,
    description: Option<string>,
    totalPrice: Option<int>,
    month: Option<string>,
    hours: Option<int>
  )

  /** The loaded table: which named columns exist, and the rows in file order. */
  datatype Dataset = Dataset(columns: set<Column>, rows: seq<Record>)

  /** What a row adds to a sum of Total_Price: a missing price adds nothing. */
  function Price(r: Record): int {
    r.totalPrice.GetOr(0)
  }

  /** The Country column, nulls included. */
  function CountryColumn(rows: seq<Record>): seq<Option<string>> {
    seq(|rows|, i requires 0 <= i < |rows| => rows[i].country)
  }

  /** The Description column, nulls included. */
  function DescriptionColumn(rows: seq<Record>): seq<Option<string>> {
    seq(|rows|, i requires 0 <= i < |rows| => rows[i].description)
  }
}
