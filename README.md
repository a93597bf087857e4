# Risk dashboard: data shaping and chart data, in Dafny

This project models the data side of `Dash5.py`, a Dash dashboard of listed
companies' risk scores. It covers everything between "the CSV has been parsed"
and "the charting library receives arrays":

- **Loading** (`Loader.Load`, imperative, one method per step of the
  module-level script). It strips the header names and fails with the set of
  missing required columns (`company`, `RD_0`..`RD_6`). It backfills `year`
  with "全部" and `industry` with "未指定" when the file lacks them. It derives
  the five risk categories (市场 = RD_0, 信用 = RD_1, 操作 = RD_2 + RD_5,
  法律合规 = RD_3, 技术 = RD_4 + RD_6) and the composite 综合 as their mean.
  It collects the distinct years and sorts them.
- **Ranking** (`Ranking`, functions and lemmas). This is `sort_values` by a
  metric and `top_companies(year, n)`.
- **Views** (`Views`, functions and lemmas). These are the data parts of the
  callbacks: the year-driven option cascade `_options_by_year`, the closed
  radar polygon `_radar`, the sorted and sign-labelled comparison bars
  `_bars`, and the category × row matrix `_heatmap`.

Supporting modules:

- `Text`: Python's `str.strip()` and the code-point order Python uses to
  compare strings.
- `Seqs`: boolean-mask filtering, `unique()` and `head(n)`.
- `Risk`: the row types, the categories and the schema.
- `Wrappers`: `Option` and `Result`.

Scores are exact `real`s. A table row (`Risk.WideRow`) keeps its frame index
label. The heatmap's columns carry that label, because `px.imshow(dfy[CATS].T)`
labels its x axis with the frame index and not with company names.

`top_companies` sorts with `sort_values`' default algorithm, which pandas
documents as not stable, so no contract fixes the order of rows with equal
scores.

## Model

| member | source | states |
|---|---|---|
| `Text.Strip` | Dash5.py:39 | the stripped header has no whitespace at either end |
| `Text.StripIsTrimmedSlice` | Dash5.py:39 | stripping removes only whitespace, and only from the two ends: the result is a slice `s[i..j]` with whitespace outside it |
| `Text.StripIdempotent` | Dash5.py:39 | stripping an already stripped header changes nothing |
| `Risk.ColumnsOfHeaders` | Dash5.py:39-42 | a name is among the columns exactly when some header, once stripped, equals it |
| `Risk.Missing` | Dash5.py:41-44 | the missing set is a subset of the required columns; it is empty exactly when every required column is among the stripped headers; a column is in it exactly when it is required and no stripped header equals it |
| `Risk.DeriveSpec` | Dash5.py:46-64 | for every row: year and industry keep the file's values when the column exists and otherwise take the defaults; 市场 = RD_0, 信用 = RD_1, 操作 = RD_2 + RD_5, 法律合规 = RD_3, 技术 = RD_4 + RD_6; 综合 is the mean of the five |
| `Risk.Derive` | Dash5.py:46-64 | each of RD_0..RD_6 enters exactly one category, so the five categories sum to the seven indicators, and 综合 equals that sum divided by five |
| `Risk.DeriveExample` | Dash5.py:51-64 | RD = [1..7] gives categories (1, 2, 9, 4, 12) and composite 5.6; with a `year` column and no `industry` column, the year is kept and the industry is "未指定" |
| `Loader.StripHeaders` | Dash5.py:39 | each column name is the stripped header at the same position |
| `Loader.DeriveRows` | Dash5.py:46-64 | row k of the wide table is the backfilled and derived version of raw row k, with index label k |
| `Loader.UniqueYears` | Dash5.py:61 | the years are listed without duplicates, and they are exactly the years in the table |
| `Loader.SortYears` | Dash5.py:62 | sorting distinct years gives a strictly ascending list of the same years |
| `Loader.Load` | Dash5.py:38-64 | loading fails exactly when a required column is missing, and then reports exactly the missing set; otherwise the table has one row per raw row, derived as above, and YEARS is strictly ascending and contains exactly the table's years |
| `Text.StrictlyAscendingUnique` | Dash5.py:61-62 | two strictly ascending lists with the same elements are equal, so YEARS is fully determined by the table |
| `Text.LessTotal` | Dash5.py:62 | any two distinct strings are ordered one way or the other |
| `Text.LessTransitive` | Dash5.py:62 | the string order is transitive |
| `Text.LessIrreflexive` | Dash5.py:62 | no string is less than itself |
| `Text.Less` | Dash5.py:62 | a string is never less than an equal string, and a proper prefix comes before every longer string that extends it |
| `Ranking.SortBy` | Dash5.py:67 | the result of `sort_values` is a permutation of its input, ordered by the metric in the requested direction |
| `Ranking.SortByMembers` | Dash5.py:67 | sorting keeps exactly the rows it was given |
| `Ranking.TakeOfDescending` | Dash5.py:67-68 | the first n rows of a descending sort come from the input, have non-increasing composites, and no other input row has a greater composite than any of them |
| `Ranking.TopRowsSpec` | Dash5.py:66-68 | `top_companies` draws on min(n, rows of that year) rows, all of that year, with non-increasing composites, and none of the year's rows left out has a greater composite than one chosen |
| `Ranking.TopCompaniesSpec` | Dash5.py:66-68 | `top_companies(year, n)` returns at most n companies, exactly min(n, rows of that year) of them, each the company of a row of that year, in order of non-increasing composite |
| `Ranking.RowsOfYear` | Dash5.py:67 | `wide[wide["year"] == year]` holds exactly the table's rows of that year, each no more often than in the table |
| `Ranking.RowsOfYearCount` | Dash5.py:67 | `wide[wide["year"] == year]` keeps each row of that year exactly as often as the table holds it, and no other row |
| `Ranking.RowsOfYearAppend` | Dash5.py:67 | the rows of a year keep table order: selecting from two consecutive parts of the table gives the selection from the first part followed by that from the second |
| `Ranking.TopRowsOfYear` | Dash5.py:66-68 | the rows behind `top_companies(year, n)` number min(n, rows of that year) and all belong to that year |
| `Ranking.TopCompanies` | Dash5.py:66-68 | `top_companies(year, n)` returns min(n, rows of that year) names, each the company of a row of that year |
| `Ranking.SortedHeadIsMax` | Dash5.py:176 | the first row of a descending sort by composite is an input row with the greatest composite |
| `Views.OptionsByYear` | Dash5.py:171-179 | the default company is None exactly when no row has that year; the industry value is always reset to None; the comparison options are the company options |
| `Views.OptionsForEmptyYear` | Dash5.py:172-175 | the cascade returns `([], None, [], None, [], [])` exactly when the year has no rows |
| `Views.ChoicesOfUnique` | Dash5.py:173 | options built from `unique()` list each value of the column once, labelled with itself |
| `Views.CompaniesOfYear` | Dash5.py:172-173 | a company appears in the year's company column exactly when some row of that year has it |
| `Views.IndustriesOfYear` | Dash5.py:172-178 | an industry appears in the year's industry column exactly when some row of that year has it |
| `Views.OptionsLists` | Dash5.py:171-179 | for a year with rows, the company options and the industry options have no duplicates, have labels equal to values, and name exactly that year's companies and industries; the comparison options equal the company options; the industry value is reset to None |
| `Views.OptionsDefaultCompany` | Dash5.py:176 | for a year with rows, the default company is the company of a row of that year with maximal composite |
| `Views.OptionsDefaultCompare` | Dash5.py:177 | for a year with rows, the default comparison list is `top_companies(year, min(8, rows of that year))`; it has that length and every entry is one of the company options |
| `Views.Radar` | Dash5.py:193-199 | the polygon has one more angle and value than there are categories, and it is closed: the last angle and the last value repeat the first |
| `Views.RadarShape` | Dash5.py:193-199 | the radar has one more angle and value than there are categories; the angles are the category column names of CATS, closed by the first; the last value equals the first; with no row matching (year, company) every value is zero |
| `Views.RadarFirstMatch` | Dash5.py:193-199 | with a matching row, the values are the first matching row's five categories, followed by its first category again |
| `Views.Bars` | Dash5.py:230-240 | the figure is empty exactly when no row is selected; otherwise the bar values ascend, and a bar is in the "正" class exactly when its value is at least zero |
| `Views.BarsSelection` | Dash5.py:230-233 | the bars' rows hold each table row of that year whose company is selected exactly as often as the table does, and no other row; the figure is empty exactly when no such row exists, and always when the selection is empty |
| `Views.BarsOrder` | Dash5.py:235-240 | bar i shows row i's company and metric value; the values ascend; a bar is labelled "正" exactly when its value is at least zero, and "负" otherwise |
| `Views.Heatmap` | Dash5.py:265-268 | the figure is empty exactly when the year has no rows; otherwise the matrix is rectangular, with one row per category and one column per x label |
| `Views.HeatmapSpec` | Dash5.py:265-268 | the heatmap is empty exactly when the year has no rows; otherwise it has one row per category, labelled with the CATS column names in order, and one column per row of that year, holding that row's category values under its index label, and every row of that year has a column |
| `Seqs.Filter` | Dash5.py:172 | a boolean-mask filter keeps exactly the elements satisfying the mask, each no more often than in its input |
| `Seqs.FilterCount` | Dash5.py:172 | a boolean-mask filter keeps every occurrence of a matching element and none of the others |
| `Seqs.FilterAppend` | Dash5.py:172 | filtering a concatenation is filtering each part in turn, so the kept elements stay in input order |
| `Seqs.FilterFirst` | Dash5.py:193-197 | the first row a filter keeps is the first input row that matches, which is the row `.iloc[0]` reads |
| `Seqs.FilterEmpty` | Dash5.py:194 | a filter keeps nothing exactly when no input row matches |
| `Seqs.Unique` | Dash5.py:173 | `unique()` has no duplicates and the same values as its input |
| `Seqs.UniqueOrder` | Dash5.py:173-178 | `unique()` lists values in order of first appearance: when one value precedes another in the result, an occurrence of the first comes before every occurrence of the second in the input |
| `Seqs.Take` | Dash5.py:68 | `head(n)` is the first min(n, length) elements |

## Left out

- Reading the data (Dash5.py:24-35) is not modelled: the HTTP fetch with its 30-second timeout, the file read, `chardet` encoding detection and `pandas.read_csv`. The model starts from the parsed header row and records.
- The Dash application is not modelled: layout, theme colours, the dark-mode toggle and `toggle_theme` (Dash5.py:71-159). They do not affect which data is selected.
- The default year selection `YEARS[-1]` (Dash5.py:116) belongs to the layout and is not modelled.
- The reactive runtime that decides which callbacks rerun is framework behaviour and is not modelled.
- Server start-up (Dash5.py:279-284) is not modelled.
- Plotly figures are not modelled: titles, margins, colours and trace settings. Each chart is modelled as the arrays handed to it, and `None` stands for the empty `go.Figure()`.
- Views.BarsOrder: the bar text is `round(value, 2)` (Dash5.py:240). The model keeps the exact value, because scores are exact reals here.
- Floating point is not modelled. Scores are exact `real`s with no NaN, so `mean` skipping NaN (Dash5.py:64) does not arise.
- Loader.SortYears: requires its input to have no duplicates. `list.sort()` accepts duplicates, but here it only ever sorts the output of `pd.unique` (Dash5.py:61-62), so the model sorts distinct years only.
- Ranking.SortBy: does not fix the order of rows with equal scores. pandas' default sort is not stable (Dash5.py:67, 176, 235), so the source promises no tie order.
- Years are strings. A CSV whose `year` column pandas parses as integers would compare and sort years numerically; that case is not modelled.
- Header names that collide after stripping would create duplicate frame columns. The model does not cover this: each record carries one value per named column.
- The comparison metric is one of the six values the metric dropdown offers (综合 and the five categories), not an arbitrary string.
- Changing the frame in place (`raw[...] = ...`) is not modelled as aliasing. `Loader.Load` builds the table in local sequences, step by step, and returns it.
