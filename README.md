# Digital-transformation index dashboard: query and ranking model

The dashboard loads a table of listed companies' digital-transformation index, one row per
stock code and year. A user searches for a stock by code or by company name and picks a
year. The page then shows that company's row, the year's top ten, the company's rank in every
year it reports, and its rank and percentile in the selected year. Below that it shows the mean
index per year and how many rows fall in each of five index levels.

This project models that query and ranking logic in Dafny. The input is a sequence of rows
`(code, name, year, index)` in load order, and every output is stated exactly.

- `Wrappers`: `Option` and `Result`.
- `Text`: Python's string order (`LexLess`) and substring test (`Contains`).
- `Collections`: list comprehension with a condition (`Keep`) and `list.index` (`IndexOf`).
- `Sorting`: `sorted(set(..))` (`SortedUnique`) and a stable sort by a key (`SortBy`).
- `Table`: rows, the name preprocessing, the row masks, the count of rows at or above a score,
  the sorted list of the table's years, and the code-to-name map.
- `Sidebar`: the available codes, the defaults with their fallback, the stock search and the
  selected stock.
- `Ranking`: `nlargest`, the top-ten table, the per-year rank loop (the method
  `AnnualRanks`), the current rank, row count and percentile.
- `Statistics`: the per-year mean, the five-band level classifier and the level counts.

The index is a Dafny `real`. No comparison in the code depends on floating-point rounding.
Years are `int` and codes and names are `string`. Python's `str` ordering is lexicographic by
code point, so it is written out as `LexLess` and proved a strict total order.

## Model

| member | source | states |
|---|---|---|
| `Text.Contains` | digital_transformation_app.py:75-77 | `needle in hay` holds exactly when the needle occurs at some position of the haystack; the empty needle occurs everywhere |
| `Collections.Keep` | digital_transformation_app.py:75-77 | the comprehension keeps exactly the elements that satisfy the condition and is never longer than its input |
| `Collections.IndexOf` | digital_transformation_app.py:97 | `list.index` finds a position exactly when the value is in the list; that position holds the value and no earlier one does |
| `Sorting.SortedUnique` | digital_transformation_app.py:82 | `sorted(set(s))` is strictly increasing (so has no duplicates) and has exactly the elements of `s` |
| `Sorting.SortedUniqueOfIncreasing` | digital_transformation_app.py:82 | de-duplicating and sorting a list that is already sorted and distinct returns it unchanged |
| `Sorting.SortByStable` | digital_transformation_app.py:134 | the sort keeps load order among rows with equal keys |
| `Table.Preprocess` | digital_transformation_app.py:43-44 | every row keeps its code, year and index; names that are missing become `未知企业` |
| `Table.Select` | digital_transformation_app.py:105 | indexing with a mask (the code-and-year mask here, and the code, year and at-least-score masks at lines 127, 134, 137 and 161) keeps exactly the rows the mask holds for and is never longer than the table; an empty result is an ordinary value |
| `Table.SelectMultiplicity` | digital_transformation_app.py:105 | every row the mask holds for is kept as often as it occurs in the table, and no other row is kept |
| `Table.SelectAppend` | digital_transformation_app.py:105 | a mask keeps load order: selecting from two consecutive parts of the table gives the first part's selection followed by the second's |
| `Table.FirstSelected` | digital_transformation_app.py:110 | `iloc[0]` of a selection is the earliest row of the table that the mask holds for |
| `Table.FirstFiltered` | digital_transformation_app.py:105-117 | with duplicate (code, year) rows, the name and index the page shows come from the earliest loaded row with that code and year |
| `Table.CountAtLeast` | digital_transformation_app.py:161 | `s[s[index] >= v].shape[0]` is the number of rows the at-least-`v` mask keeps |
| `Table.FilteredIsYearOfCompany` | digital_transformation_app.py:105 | the code-and-year selection equals the year selection over the company's rows, order included |
| `Table.AvailableYears` | digital_transformation_app.py:40 | the years are strictly increasing, and a year is listed exactly when some row has it |
| `Table.NameMap` | digital_transformation_app.py:47 | a code is a key exactly when the table has a row with it, and it maps to the name of its first row in load order |
| `Table.DisplayName` | digital_transformation_app.py:91 | the shown name is the first row's name, or `未知企业` for a code the table lacks, never an error |
| `Table.NameOfFirstLoadedRow` | digital_transformation_app.py:43-47 | after preprocessing, a code's name is its first loaded row's name, or `未知企业` when that name was missing |
| `Sidebar.AvailableStocks` | digital_transformation_app.py:39 | the codes are strictly increasing in string order, and a code is listed exactly when some row has it |
| `Sidebar.ChooseDefault` | digital_transformation_app.py:53-57 | returns the preferred value when it is available, else the first available value, else nothing; any value returned is available |
| `Sidebar.Startup` | digital_transformation_app.py:39-57 | fails (no stock to default to) exactly on an empty table; otherwise the default stock and year are among the available ones and are the preferred `600000` and 1999 whenever those exist, and the first available code and year whenever they do not |
| `Sidebar.DefaultYearHasIndex` | digital_transformation_app.py:94-98 | on a non-empty table the year box's initial `index(default_year)` exists and points at the default year |
| `Sidebar.SearchStocks` | digital_transformation_app.py:73-82 | the result is strictly increasing. With a name typed, it holds exactly the available codes whose mapped name contains it; otherwise, with a code typed, exactly the available codes containing it; otherwise every available code |
| `Sidebar.SearchKeepsAvailableOrder` | digital_transformation_app.py:73-82 | over the sorted, distinct available codes the de-duplication changes nothing: the result is the comprehension itself |
| `Sidebar.SelectedStock` | digital_transformation_app.py:84-88 | when some available code matches, the selected code is a match below every other match; when none matches, it is the default |
| `Ranking.NLargestIsTop` | digital_transformation_app.py:127 | `nlargest(n)` returns `min(n, rows)` rows, in non-increasing index order, all from the input; no row left out scores above a row kept |
| `Ranking.TopOfYear` | digital_transformation_app.py:127 | every row `nlargest` picks from a year's rows belongs to that year |
| `Ranking.NLargestKeepsTieOrder` | digital_transformation_app.py:127 | among rows with the same index, the kept ones are the first loaded, in load order |
| `Ranking.Top10` | digital_transformation_app.py:127-128 | succeeds exactly when the year has at least ten rows; then ranks 1 to 10 label the `nlargest` rows, all of that year; otherwise it fails with the year's row count |
| `Ranking.RankedTop` | digital_transformation_app.py:127-128 | corrected top table: one rank label per returned row, ranks 1 to the row count, equal to `Top10` wherever that succeeds |
| `Ranking.Top10FailsOnShortYear` | digital_transformation_app.py:128 | a year with one row makes the ten-label assignment fail, while the corrected table ranks that row first |
| `Ranking.RankWithinYear` | digital_transformation_app.py:138 | a row's rank among rows that include it lies between 1 and their number |
| `Ranking.RankMonotone` | digital_transformation_app.py:138 | a higher index never gets a larger rank |
| `Ranking.RankOneIsUniqueTop` | digital_transformation_app.py:161 | rank 1 means every other row of the year scores strictly lower |
| `Ranking.CountZero` | digital_transformation_app.py:161 | no row counts exactly when every row scores below the threshold |
| `Ranking.CompanyAllYears` | digital_transformation_app.py:134 | the company's rows, as a permutation, in non-decreasing year order |
| `Ranking.CompanyYearIsFiltered` | digital_transformation_app.py:134-138 | a year's first row in the sorted company rows is the first loaded row of that code and year, which is the row the page shows at the top |
| `Ranking.CompanyYearReported` | digital_transformation_app.py:136-138 | every year in the company's sorted rows has a row for that code and year |
| `Ranking.YearRankOf` | digital_transformation_app.py:136-138 | the company's rank in a year it reports lies between 1 and the year's row count |
| `Ranking.AnnualRanks` | digital_transformation_app.py:134-140 | one table row per company row, in year order. Each row carries its year and index and the rank of the company's first row of that year, the same rank the current-year panel shows |
| `Ranking.Percentile` | digital_transformation_app.py:164 | for a rank between 1 and a positive total the percentile is in (0, 100], and it is 100 exactly at rank 1 |
| `Ranking.PercentileMonotone` | digital_transformation_app.py:164 | a better rank never gives a lower percentile |
| `Ranking.CurrentStanding` | digital_transformation_app.py:161-164 | nothing exactly when no row has the selected code and year (the warning branch of lines 165-166). Otherwise it holds the first such row's name and index (lines 110 and 117), its rank (the same as in the history table) between 1 and the year's row count, that row count, and the percentile `(total - rank + 1) / total * 100`, which lies in (0, 100] and is 100 exactly at rank 1 |
| `Ranking.RankExample` | digital_transformation_app.py:138-164 | scores 95, 80, 80, 60 get ranks 1, 3, 3, 4; rank 3 of 4 is the 50th percentile |
| `Statistics.MeanBounded` | digital_transformation_app.py:186 | a mean lies between the lowest and the highest index it averages |
| `Statistics.YearMeans` | digital_transformation_app.py:186 | one entry per year of the table, years strictly ascending, each the arithmetic mean of that year's indices |
| `Statistics.YearMeanWithinYear` | digital_transformation_app.py:186 | every year's mean lies between that year's lowest and highest index |
| `Statistics.IndexLevel` | digital_transformation_app.py:211-221 | the five levels partition the reals: at least 80, [60, 80), [40, 60), [20, 40) and below 20, each level exactly on its band |
| `Statistics.GetIndexLevel` | digital_transformation_app.py:211-221 | the label shown is `领先水平 (80-100)` exactly from 80 up, `良好水平 (60-79)` exactly on [60, 80), `中等水平 (40-59)` exactly on [40, 60), `起步水平 (20-39)` exactly on [20, 40) and `待提升 (<20)` exactly below 20 |
| `Statistics.LevelMonotone` | digital_transformation_app.py:211-221 | a higher index never gets a lower level |
| `Statistics.LabelsDistinct` | digital_transformation_app.py:211-221 | the five labels are pairwise different |
| `Statistics.LevelCountsPartition` | digital_transformation_app.py:223-225 | the five level counts add up to the number of rows |
| `Statistics.StatisticsExample` | digital_transformation_app.py:186-221 | 2019 scores 10 and 20 and a 2020 score of 30 give means 15 and 30; 80 is the top level and 79.999 the next |

## Left out

- Loading the spreadsheet with `pd.read_excel`, the `@st.cache_data` cache and the load-error branch (lines 17-30): file I/O and a library cache. The model starts from the loaded rows.
- Code normalisation with `astype(str)` (line 33): codes are strings in the model from the start.
- In-place column assignments (lines 43-44 and 223 on the table itself, line 128 on `year_top10`, line 140 on `company_all_years`): lines 43-44 are modelled as the function `Preprocess` that returns the new table, line 223 as the level each row gets from `IndexLevel`, line 128 as the `TopEntry` sequence `Top10` returns, and line 140 as the `YearRank` table the method `AnnualRanks` builds. No other code holds a reference to those frames, so no aliasing is lost.
- The technology and application dimension columns: only the scatter chart reads them.
- All Streamlit widgets, layout and text output, including number formatting (`.2f`, `.1f`), the query button (line 102, which changes nothing) and the code box's initial text. The typed search strings and the chosen year are parameters of the model.
- The dataset overview (lines 149-152): a row count, a distinct-code count and the year span, shown as text only.
- The histogram, line, pie, scatter and box charts (lines 173-258): the charting library does the binning and drawing.
- `describe()` (line 206): floating-point standard deviation and quantiles computed by pandas.
- The order of the `value_counts()` rows (line 224): only the count per level is modelled, and that order only feeds the pie chart.
- NaN index values: the model has no NaN, so the way pandas sorts NaN rows last in `nlargest` (they still count toward the ten rows at line 128), skips them in `mean` and puts them in the bottom level is not modelled. Nor is a NaN index on the selected row: no row compares `>=` to NaN, so the script shows rank 0 and a percentile above 100 (lines 138, 161 and 164), while the model's rank is always at least 1.
- Name normalisation with `astype(str)` (line 44): names are strings in the model from the start, so a non-string name (a number read from the spreadsheet, say) and its string form are not distinguished.
- Ranking.CurrentStanding: follows the corrected flow of the page. As written, a selected year with fewer than ten rows raises at line 128 (see Findings), and the history table and current standing are never shown; the model computes them for every year.
- `Ranking.CompanyAllYears`: `sort_values('年份')` at line 134 uses pandas' default sort, which does not promise stability. The model sorts stably, so the "first row of a year" in the history table is the first loaded row, as for the filter at line 105.
- The reindexing boolean mask at line 161: only the count it computes is modelled.
- test_data.py: a print-driven script that repeats the preprocessing, default check, filter and name map already modelled here.

## Findings

| source | as written | input that shows it | evidently intended | confidence | as-written member | corrected member |
|---|---|---|---|---|---|---|
| digital_transformation_app.py:127-128 | the ten rank labels `range(1, 11)` are written into whatever `nlargest(10)` returned; the exception ends the script run, so nothing after line 128 (the history table, the current standing, the overview and the charts) is shown | a year with fewer than ten rows, e.g. a single row in 2020: the assignment fails on a length mismatch | rank labels 1 to the number of rows returned | not executed; medium (the authors likely assumed every year has at least ten companies) | `Ranking.Top10` (failure shown by `Ranking.Top10FailsOnShortYear`) | `Ranking.RankedTop` |
