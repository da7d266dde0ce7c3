# Promedios por estación — a Dafny model

`prueba.py` is a small Streamlit page that reads a yearly climate table. Each row of the table holds:

- a station (`ID_SIGA`);
- a scenario (`Escenario`);
- a date (`Fecha`);
- one numeric column per variable.

The page's steps are:

1. derive the variable columns;
2. list the stations;
3. keep the rows of the chosen station;
4. average the rows in one of two modes:
   - **"Total"**: the mean of every variable per scenario, then a long `(Escenario, Variable, Promedio)` form for the bar chart;
   - **"Por año"**: the mean of one chosen variable per (year, scenario);
5. offer the table for download under a name built from the station, the variable and the mode.

This project models those steps as pure Dafny functions and proves what each step promises. Three widget choices, the station, the mode and the variable, are parameters.

The pandas operations the script relies on are written out in module `Frame` (`frame.dfy`):

- **Boolean-mask filter** (`Where`): keeps the matching rows in order.
- **`groupby(key).mean()`** (`GroupByMean`):
  - the groups are the distinct keys, in ascending order;
  - each cell is the mean of the non-missing values in the group;
  - a cell is missing when the group has no values.
- **`melt`** (`Melt`): one long row per (row, column) cell, column after column.

The script never pivots. `Pivot` is this model's own inverse of `melt`, defined only to state that the long table loses nothing.

Some representation choices:

- Cells are `Option<real>`; `None` stands for NaN.
- Means are exact rationals.
- Identifiers are strings, compared like Python's `str`: lexicographically by code point, with a proper prefix first (module `Ordering`, `ordering.dfy`).
- `sorted(set(...))` is insertion into an ascending, duplicate-free sequence.

Module `Promedios` (`promedios.dfy`) holds the page's own steps.

## Model

| member | source | states |
|---|---|---|
| Promedios.Variables | prueba.py:13 | a column is a variable exactly when it is a column of the table and not `Escenario`, `ID_SIGA` or `Fecha` |
| Promedios.VariablesAppend | prueba.py:13 | the variable list keeps the table's column order: it distributes over concatenation of column lists |
| Promedios.VariablesKeepOthers | prueba.py:13 | without identifier columns the variable list is the column list itself |
| Promedios.VariablesDistinct | prueba.py:13 | distinct columns give distinct variables |
| Promedios.Stations | prueba.py:14 | the station list is strictly ascending (hence duplicate-free) and holds a station exactly when some row has that `ID_SIGA` |
| Promedios.StationsIgnoreRowOrder | prueba.py:14 | tables with the same rows in any order give the same station list |
| Ordering.Below | prueba.py:14 | Python's `<` on `str`, used by `sorted` and by `groupby`'s key sort: lexicographic on code points, a proper prefix first |
| Ordering.BelowFirstDifference | prueba.py:14 | `a < b` exactly when, at the first position where the strings differ or `a` ends, `a` ends or has the smaller code point while `b` goes on |
| Ordering.SortedUnique | prueba.py:14 | `sorted(set(xs))` is ascending, has exactly the elements of `xs` and is no longer than `xs` |
| Ordering.SortedUniqueCanonical | prueba.py:14 | `sorted(set(xs))` depends only on which values occur in `xs` |
| Ordering.AscendingUnique | prueba.py:14 | two ascending sequences with the same elements are equal |
| Ordering.BelowIsStrictTotalOrder | prueba.py:14 | Python's string `<` is irreflexive, transitive and total on distinct strings |
| Promedios.FilterStation | prueba.py:21 | the filtered rows are exactly the rows with the chosen `ID_SIGA` |
| Promedios.FilterStationKeepsOrder | prueba.py:21 | the filter keeps row order: it distributes over concatenation |
| Promedios.FilterStationEmpty | prueba.py:21 | the filter selects nothing exactly when the station is not in the station list |
| Frame.Where | prueba.py:21 | a boolean-mask filter keeps exactly the rows whose key equals the value |
| Frame.WhereAppend | prueba.py:21 | a mask filter distributes over concatenation |
| Promedios.TotalMeans | prueba.py:25 | one row per scenario of the filtered rows, ascending, no other scenario; each cell is the mean of that variable over the scenario's rows |
| Promedios.TotalMeansColumnIndependent | prueba.py:25 | a value missing or different in another column does not change a variable's means |
| Promedios.TotalMeansExample | prueba.py:25 | Temp readings 10.0 and 20.0 give 15.0; Prec readings 4.0 and NaN give 4.0 |
| Promedios.MeanExamples | prueba.py:25 | mean of 10.0 and 20.0 is 15.0; mean of 4.0 and NaN is 4.0 |
| Promedios.TotalMeansEmpty | prueba.py:21-25 | the "Total" table is empty exactly when the filtered rows are |
| Frame.GroupByMean | prueba.py:25 | groups are the distinct keys, ascending; each cell is the skip-NaN mean of its column over the group's rows |
| Frame.Mean | prueba.py:25 | the mean is missing exactly when every value is missing; otherwise it times the number of present values equals their sum |
| Frame.Average | prueba.py:25 | sum over count of a non-empty list; missing for the empty list |
| Frame.MeanWithin | prueba.py:25 | a mean lies between any lower and upper bound of the present values |
| Frame.MeanSkipsMissing | prueba.py:25 | inserting a NaN anywhere leaves the mean unchanged |
| Frame.PresentEmpty | prueba.py:25 | a column has no present values exactly when all of its cells are missing |
| Frame.WhereColumnAgrees | prueba.py:25 | two tables that agree on keys and on one column give that column the same per-group values |
| Promedios.TotalLong | prueba.py:29 | the long table has (wide rows) × (variables) rows, and each is a (scenario, variable, wide cell) triple |
| Promedios.TotalLongRoundTrip | prueba.py:29 | every (scenario, variable) pair occurs once in the long table, and pivoting it back gives the "Total" table |
| Frame.Melt | prueba.py:29 | `melt` gives one row per wide cell and nothing else; the row count is the product of rows and value columns |
| Frame.MeltLayout | prueba.py:29 | the cell of wide row `i`, column `j` stands at position `j * rows + i` (column after column) |
| Frame.MeltUniquePairs | prueba.py:29 | with distinct scenarios and distinct columns, no (scenario, variable) pair repeats in the long table |
| Frame.MeltPivot | prueba.py:29 | pivoting the melted table on the wide table's scenarios and columns gives the wide table back |
| Frame.Pivot | prueba.py:29 | the pivoted table has the given scenarios as keys and one cell per given column |
| Frame.LookupAt | prueba.py:29 | in a table without repeated pairs, looking a row's pair up returns that row's value |
| Promedios.Year | prueba.py:41 | `Año` is the calendar-year field of the row's parsed `Fecha` (a field read; `YearMeansYears` states what the grouping does with it) |
| Promedios.YearMeans | prueba.py:41-43 | one row per (year of `Fecha`, scenario) pair of the filtered rows, ascending by year then scenario; each value is the mean of the chosen variable over that pair's rows |
| Promedios.YearMeansYears | prueba.py:41-43 | the set of output years equals the set of years of the rows' dates |
| Promedios.YearMeansEmpty | prueba.py:41-43 | the "Por año" table is empty exactly when the filtered rows are |
| Promedios.YearKeyBelowIsStrictTotalOrder | prueba.py:43 | (year, scenario) ordered by year then scenario is a strict total order |
| Promedios.ModeSlug | prueba.py:68 | the mode part of the name is `total` for "Total" and `por_año` for "Por año" |
| Promedios.Lower | prueba.py:68 | lower-casing keeps the length; each letter A–Z becomes the same letter in a–z, and every other character is kept |
| Promedios.Underscored | prueba.py:68 | replacing spaces keeps the length; each space becomes `_`, and every other character is kept |
| Promedios.FileName | prueba.py:64-68 | the name is `promedios_<station>_todas_total.csv` in "Total" mode and `promedios_<station>_<variable>_por_año.csv` in "Por año" mode |
| Promedios.FileNamePerYearExample | prueba.py:64-68 | station A1, variable Temp in "Por año" mode gives `promedios_A1_Temp_por_año.csv` |
| Promedios.FileNameTotalExample | prueba.py:64-68 | station B2 in "Total" mode gives `promedios_B2_todas_total.csv` |
| Promedios.Aggregate | prueba.py:21-43 | the mode picks the table. In "Total" mode it is the station's per-scenario means of all variables, and the long table is their melt, with (wide rows) × (variables) rows. In "Por año" mode it is the station's per-(year, scenario) means of the chosen variable. Either table is empty exactly when the station is unknown, and an unknown station gives empty tables without error |

## Left out

- The Streamlit page:
  - the page setup;
  - the select boxes and radio;
  - the rendered table;
  - the download button.
  
  The chosen station, mode and variable are parameters, and the CSV text the button serves is not modelled.
- The Plotly charts, which only render.
- Reading the CSV and parsing `Fecha`. A row holds an already-parsed `Date`; `Año` is its `year` field.
- The `"{:.2f}"` display formatting and the `to_csv` serialisation: float-to-text conversion done by the libraries.
- Floating point. Means are exact `real` arithmetic, so rounding in pandas' sum and division is not modelled.
- Promedios.Lower: lower-cases only the ASCII letters A–Z. Python's `str.lower()` also lower-cases other Unicode letters, but the only strings it meets here are the two mode labels, which need nothing more.
- Promedios.Stations: models `ID_SIGA` as strings ordered like Python's `str`. A numeric `ID_SIGA` column would be sorted numerically by pandas.
- Rows whose scenario or date is NaN: pandas' `groupby` drops them. Here every row has a scenario and a date.
- A non-numeric variable column, on which pandas' `mean` raises: every variable cell is a number or missing.
- `reset_index` only turns the group key into an ordinary column. Groups carry their key as a field, so nothing more is modelled.
