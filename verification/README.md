# Retail store dashboard: filter and aggregation stages

A Dafny model of the computational core of a Streamlit retail dashboard (`app.py`). Each time
the user changes a selector, the script runs from top to bottom:

1. **Filter stage.** A country selector and then a product selector each offer "All" followed by
   the distinct non-null values of their column. Choosing "All" changes nothing. Choosing a value
   keeps the rows whose cell equals it. A selector whose column is missing is skipped.
2. **Aggregation stage.** Over the narrowed rows the script builds `product_sales` (top 10
   products by summed `Total_Price`), `monthly_sales` (sum per `Month`, in ascending `Month`
   order because `groupby` sorts its keys), `trending_product` (the most frequent `Month` of each
   product, by ascending `Description`, ten of them shown), `top_ten_sales_by_country` and
   `peak_hours` (all hours, largest first).

The model is a set of pure functions over an immutable `seq<Record>`:

- `Records`: the `Record` row type. Every column is `Option`. Prices are integer cents.
  `Dataset` pairs the rows with the set of columns the table has.
- `Unique`: `dropna().unique()`, which gives distinct non-null values in order of first appearance.
- `Filter`: the boolean-mask selection, the choice lists and the sidebar run.
- `GroupBy`: group-by-sum, built as a left fold that opens a group for each new key. It is
  proved equal to an independent per-key reference sum.
- `SortedKeys`: Python's string order and the reordering of a grouping by ascending key, which
  is the order `groupby` emits.
- `Ranking`: a descending sort (insertion sort), `head(n)`, the top-n tables and `peak_hours`.
- `Trending`: the per-product mode of `Month`.
- `Dashboard`: the aggregation stage as one `Result`-valued function, and a whole run.
- `Example`: a worked example on three transactions.

Errors the script would raise are modelled as `Failure` values rather than as preconditions.
There are two:

- An aggregation names a column the table lacks (pandas raises `KeyError`). The model returns
  `MissingColumn`, checking the columns in the order the script names them.
- A product's `Month` cells are all null. Then `Series.mode()` is empty and `mode()[0]` raises,
  so the model returns `NoModalMonth`.

The product list is computed from the rows the country filter kept (app.py:29-31), not from the
loaded data. `Filter.RunSidebar` and `Filter.ProductChoicesFollowCountry` state this behaviour.

## Model

| member | source | states |
|---|---|---|
| `Unique.Distinct` | app.py:23 | the choice values are each non-null value of the column exactly once, and they come in order of first appearance |
| `Filter.Where` | app.py:26 | after `data[data[col] == v]` every row has `col == v`, and each matching input row survives exactly as many times as it occurred, while non-matching rows are gone |
| `Filter.WhereAppend` | app.py:26 | selection preserves row order: selecting over a concatenation is the concatenation of the selections |
| `Filter.Choices` | app.py:23-24 | a selector list starts with "All", and the rest is exactly the set of values some row has in that column, with no repeats |
| `Filter.FilterBy` | app.py:22-26 | a filter returns the dataset unchanged when the selection is "All" or the column is absent; otherwise it keeps exactly the matching rows, with their multiplicities, and leaves the column set alone |
| `Filter.RunSidebar` | app.py:22-33 | a selector list is shown exactly when its column exists, starts with "All" and offers each value once; the product list offers exactly the products of the rows the country selector kept; the data passed on keeps its columns and holds each row kept by both selectors as often as the loaded data does, and no other row |
| `Filter.SidebarIdentity` | app.py:22-33 | with both selectors on "All", or with their columns absent, the data reaching the aggregations is the loaded data |
| `Filter.SidebarConjunction` | app.py:25-33 | with both selectors active, the rows kept are exactly those matching the country and the product, with their multiplicities |
| `Filter.WhereCommutes` | app.py:25-33 | applying the country filter then the product filter gives the same rows, in the same order, as applying them the other way round |
| `Filter.ProductChoicesFollowCountry` | app.py:29-31 | once a country is chosen, the product list offers exactly the products that have a row in that country |
| `GroupBy.GroupSum` | app.py:39-41 | a grouping has one row per distinct non-null key, and each row's Total_Sales equals the reference sum of Total_Price over that key's rows |
| `GroupBy.GroupSumExact` | app.py:60-61 | a key has a row in the grouping exactly when some input row carries it; no key appears twice; its total is that key's sum |
| `GroupBy.GroupSumConserves` | app.py:47-49 | the Total_Sales of any grouping add up to the Total_Price of all rows whose key is not null |
| `SortedKeys.LexTransitive` | app.py:48 | the string order `groupby` sorts keys by is transitive |
| `SortedKeys.LexTotal` | app.py:48 | any two different strings are ordered one way or the other |
| `SortedKeys.SortByKey` | app.py:48 | a grouped table with distinct keys is reordered into strictly ascending key order, as a permutation that keeps the key set and the grand total |
| `SortedKeys.SortedGroupSum` | app.py:48-50 | a `groupby` over string keys has strictly ascending keys, one per non-null key present, each with that key's sum, and the totals add up to the keyed Total_Price |
| `SortedKeys.MonthlySales` | app.py:47-51 | `monthly_sales` has one row per Month present, in ascending Month order, each with the sum of its rows' Total_Price, and the Total_Sales add up to the Total_Price of all rows with a Month |
| `Ranking.SortDesc` | app.py:43 | `sort_values(ascending=False)` returns a permutation of its input that is non-increasing by Total_Sales |
| `Ranking.Head` | app.py:44 | `head(n)` holds min(n, length) rows, and they are the first rows of its input |
| `Ranking.TopN` | app.py:43-44 | sort then `head(n)` gives min(n, groups) rows, sorted non-increasing, drawn from the grouping, with every group left out selling no more than every group kept |
| `Ranking.HeadOfSorted` | app.py:62-63 | the first n rows of any non-increasing reordering of a grouping form such a top-n table |
| `Ranking.PeakHours` | app.py:66-68 | `peak_hours` has one row per Hours value present, no key twice, each with that hour's sum, sorted non-increasing by Total_Sales |
| `Trending.MostFrequent` | app.py:55 | the chosen value is one of the candidates, no candidate occurs more often, and every other candidate occurring as often is larger |
| `Trending.Mode` | app.py:55 | `mode()[0]` of a non-empty month column is a month of that column that no month beats in frequency, and the least of the equally frequent ones |
| `Trending.TrendRows` | app.py:53-57 | per-product rows are built for exactly the given products, in order, each with its `mode()[0]` month; the build fails when some given product has no month, and the failure names such a product |
| `Trending.TrendingProduct` | app.py:53-57 | `trending_product` has one row per distinct non-null Description, in ascending Description order, each with `mode()[0]` of that product's months; it fails exactly when a product present has no non-null Month, naming such a product |
| `Trending.MonthsOfSound` | app.py:54 | the months a product's mode is taken over are exactly the Month values of that product's rows |
| `Trending.MonthsOfCount` | app.py:54-55 | each month occurs among a product's months exactly as many times as there are rows with that product and that month, so the mode counts rows |
| `Dashboard.ComputeViews` | app.py:39-68 | the aggregation stage succeeds exactly when the five named columns exist and every product has a month; a failure names an absent column or a product with no month; a success carries tables meeting all the promises of `Dashboard.Tables` |
| `Dashboard.Tables` | app.py:39-68 | when every product has a month: product and country tables are top-10 tables of their groupings; monthly sales are by ascending Month with conserved totals; the trending table is complete and sorted, and the ten rows shown are its first ten; peak hours are every hour ranked by sales |
| `Dashboard.Run` | app.py:22-68 | a whole run applies the sidebar and then builds the tables over the narrowed rows; it succeeds exactly when the columns exist and every product left after filtering has a month |
| `Example.ProductGroupsExample` | app.py:39-41 | on three sample transactions (Mug 10 and 20, Pen 5), grouping by product gives Mug with 30 and Pen with 5 |
| `Example.ProductSalesExample` | app.py:39-44 | on the same sample, `product_sales` is Mug with 30 followed by Pen with 5 |
| `Example.CountryFilterExample` | app.py:25-26 | on the same sample, choosing "UK" keeps exactly the two UK rows, in order |
| `Example.MonthlySalesExample` | app.py:47-51 | on the same sample, `monthly_sales` is "Feb" with 20 then "Jan" with 15: months sort as strings, not as dates |
| `Example.TrendingExample` | app.py:53-57 | on the same sample the trending table is built, and Mug, seen once in "Jan" and once in "Feb", trends in "Feb", the smaller of its two modes |

## Left out

- Streamlit widgets, titles and chart placement (app.py:19, 72-99) are left out as UI plumbing. So is the whole-script re-execution model: `Dashboard.Run` is one run, and the selections are its parameters.
- Data loading (app.py:6-14) is left out: zip extraction, CSV parsing and the `st.cache_data` memoisation are I/O plus a library cache. The dataset is a parameter.
- Plotly figure construction, colour palettes and the `[0, max * 1.1]` y-axis range (app.py:76-98) are left out. They are library calls and floating-point presentation.
- Prices are integer cents rather than floats. A null price adds 0 to a sum, as pandas' `sum` skips NaN. dtype coercion is not modelled.
- `GroupBy.GroupSum` emits groups in first-appearance order of their keys, whereas pandas `groupby` sorts them. Only the tables whose order reaches a chart unsorted, `monthly_sales` and `trending_product`, depend on that order, and both go through `SortedKeys.SortByKey`. The other three are re-sorted by Total_Sales.
- `Ranking.SortDesc` is a stable sort. pandas' default sort is not stable, so the model claims only sortedness and permutation, never a particular order among equal totals. `Ranking.TopN` therefore claims only that no group left out outsells a group kept, not which of several tied groups is kept.
- `SortedKeys.LexLess` compares Dafny `char`s, which are Unicode scalar values, so it orders strings by code point as Python does. Python strings holding lone surrogates have no Dafny counterpart.
- `SortedKeys.MonthlySales` and `SortedKeys.SortedGroupSum` assume `Month` and `Description` hold strings. A numeric Month column would sort numerically in pandas. `Hours` is an integer, and its grouping order is irrelevant because `peak_hours` is re-sorted.
- The selections are parameters of `Filter.RunSidebar`. The model does not require them to belong to the list the selectbox offers. A product or country literally named "All" cannot be selected on its own, because the sentinel takes precedence.
- The full `sales_by_country` table (app.py:60-62) is modelled only through its top ten, which is the only part the charts use.
