# Middle-school enrollment pipeline: a Dafny model

This project models the data pipeline behind the Streamlit page
`Portfolio/pages/student_dataset.py`, which analyses French middle-school
(collège) enrollment. The page does the following on the enrollment table
(one row per school and school year):

- it offers the distinct years and keeps the rows of the chosen year;
- it sums the student totals per academic region (a top-10 table), per
  department code (a choropleth map) and per sector (public or private);
- it zero-pads department codes to three characters on both the table side
  and the GeoJSON side, then joins each GeoJSON feature to its total or to
  the sentinel "Not available", which is drawn in black;
- it totals girls and boys per region, turns them into percentages and
  ranks the regions by the gap between the two, with a strict `>` rule for
  the majority;
- it sums the LV1/LV2 foreign-language columns, skipping columns the file
  does not have, for the whole year and for one region;
- it counts schools per (region, sector) and ranks regions by their share
  of private schools.

A row is a datatype (`Records.Row`) with:

- the year, region, department code and sector;
- girls' and boys' counts for the four grades;
- the student total;
- a map from language-column name to count.

The pandas stages become functions over `seq<Row>`. `pandas.DataFrame`
sorting is modelled as a descending insertion sort on `Number` values,
with NaN last. A `Number` is a float64 cell: NaN or an exact `real`.

The source has two loops and one in-place column assignment:

- the vectorised assignment to "Code département" on line 45;
- the feature loop of lines 64-72;
- the loop of `calculate_language_totals` (lines 170-172).

Each is a method with loop invariants, proved against the functions that
specify it. The column assignment is a loop over an array of rows.

Modules, one per file:

| file | module | what it holds |
|---|---|---|
| records.dfy | `Records` | rows, tables, boolean-mask filters, `unique()`, `KeyError` |
| grouping.dfy | `Grouping` | `groupby(...).sum()` as a fold, its reference sum, conservation |
| ranking.dfy | `Ranking` | float64 percentages with NaN, NaN-aware descending sort, `head(n)` |
| regions.dfy | `Regions` | region totals, the top-10 table, sector totals |
| departments.dfy | `Departments` | `zfill`, padded department totals, the feature join loop |
| gender.dfy | `Gender` | per-region gender statistics and their ranking |
| languages.dfy | `Languages` | `calculate_language_totals`, `calculate_language_distribution` |
| sectors.dfy | `Sectors` | the private-school share per region |

All source paths below are in `Portfolio/pages/student_dataset.py`.

## Model

| member | source | states |
|---|---|---|
| Records.Where | Portfolio/pages/student_dataset.py:13 | The boolean-mask filter keeps exactly the rows that match the selected year, and never more rows than it was given |
| Records.WhereConcat | Portfolio/pages/student_dataset.py:13 | Filtering distributes over concatenation, so the kept rows stay in their original order |
| Records.WhereMultiset | Portfolio/pages/student_dataset.py:13 | Each matching row is kept as many times as it occurs; each non-matching row is dropped |
| Records.WhereIdempotent | Portfolio/pages/student_dataset.py:13 | Filtering again by the same year changes nothing |
| Records.WhereCommutes | Portfolio/pages/student_dataset.py:227 | Filtering by region after filtering by year gives the same rows as the opposite order |
| Records.Unique | Portfolio/pages/student_dataset.py:11 | `unique()` contains every value of the column, contains only values of the column, and has no duplicates |
| Records.UniqueFirstAppearance | Portfolio/pages/student_dataset.py:234 | `unique()` lists values in the order of their first occurrence |
| Records.Years | Portfolio/pages/student_dataset.py:11 | The year choices contain the year of every row, only years that occur, and none twice; their order is stated by Records.UniqueFirstAppearance |
| Records.YearsCoverRows | Portfolio/pages/student_dataset.py:11-13 | A year is offered by the selector exactly when filtering by it keeps at least one row |
| Grouping.GroupSum | Portfolio/pages/student_dataset.py:46 | The one-pass group-by has exactly the keys present in the rows, and each holds the sum over the rows with that key |
| Grouping.Aggregate | Portfolio/pages/student_dataset.py:20 | `groupby(key)[field].sum().reset_index()` has one row per distinct key present and no key twice, and each row holds its group's sum |
| Grouping.GroupSumConserves | Portfolio/pages/student_dataset.py:20 | The group sums add up to the sum over all rows: no row is dropped or counted twice |
| Grouping.SumWhereCovers | Portfolio/pages/student_dataset.py:46 | A row's value is included in the sum of its own group |
| Ranking.Percentage | Portfolio/pages/student_dataset.py:143-144 | `part / whole * 100` is NaN exactly when the whole is 0; otherwise it lies in [0, 100] and, times the whole, gives back the part times 100 |
| Ranking.Insert | Portfolio/pages/student_dataset.py:21 | Inserting into a descending sequence keeps it descending (NaN last) and adds exactly that element |
| Ranking.SortDescending | Portfolio/pages/student_dataset.py:21 | `sort_values(ascending=False)` returns a descending sequence (NaN last) that is a permutation of its input |
| Ranking.Head | Portfolio/pages/student_dataset.py:151 | `head(n)` keeps min(n, size) rows, and they are the first rows of its input |
| Ranking.Top | Portfolio/pages/student_dataset.py:21 | `sort_values(ascending=False).head(n)` keeps min(n, size) rows, in descending order (NaN last), all taken from the input; which rows are kept is Ranking.TopSelects |
| Ranking.TopSelects | Portfolio/pages/student_dataset.py:21 | `sort_values(...).head(n)` keeps min(n, size) rows taken from the input, in descending order, and no row left out ranks above a row kept |
| Regions.RegionTotals | Portfolio/pages/student_dataset.py:20 | `regions_data` has each region once, a row for exactly the regions of the input rows (every row's region, and no other), and each total is the sum over that region's rows; conservation is Regions.RegionTotalsConserve |
| Regions.TopRegions | Portfolio/pages/student_dataset.py:21 | `top_10_regions` has at most 10 rows, all of them rows of `regions_data`; exact size and order are Regions.TopRegionsSize and Regions.TopRegionsOrder |
| Regions.TopBySum | Portfolio/pages/student_dataset.py:21 | Keeping the n largest group rows gives min(n, size) of them, non-increasing by total, with every row left out no larger than every row kept |
| Regions.TopRegionsSize | Portfolio/pages/student_dataset.py:21-23 | The top-10 table has min(10, number of regions) rows, all of them rows of `regions_data` |
| Regions.TopRegionsOrder | Portfolio/pages/student_dataset.py:21 | The top-10 table is non-increasing by total, and no region left out has a larger total than a region kept |
| Regions.RegionTotalsConserve | Portfolio/pages/student_dataset.py:20 | `regions_data` lists each region once, and its totals add up to the students of the selected year |
| Regions.SectorTotals | Portfolio/pages/student_dataset.py:258 | `enrollment_sector` has each sector once, a row for exactly the sectors of the input rows (every row's sector, and no other), and each total is the sum over that sector's rows |
| Regions.SectorTotalsConserve | Portfolio/pages/student_dataset.py:258 | `enrollment_sector` totals add up to the students of the selected year |
| Regions.TopTwoExample | Portfolio/pages/student_dataset.py:21 | Ranking the totals A:50, B:30, C:90, D:10 and keeping two gives C then A |
| Departments.ZFill | Portfolio/pages/student_dataset.py:45 | `zfill` returns a string of length max(width, len), and a code already long enough unchanged; the padding shape is Departments.ZFillPads |
| Departments.ZFillPads | Portfolio/pages/student_dataset.py:45 | `zfill` gives length max(width, len). A long enough code is unchanged. An unsigned code ends with the original, preceded only by '0's. A signed code keeps its sign in front of the zeros |
| Departments.ZFillIdempotent | Portfolio/pages/student_dataset.py:67 | Padding an already padded code changes nothing |
| Departments.ZFillIgnoresLeadingZero | Portfolio/pages/student_dataset.py:67 | A short unsigned code pads to the same string with or without one more leading '0' |
| Departments.ZFillExamples | Portfolio/pages/student_dataset.py:45 | "1" becomes "001", "2A" becomes "02A", "75" becomes "075", "974" is unchanged, and "-1" becomes "-01" |
| Departments.PadCodes | Portfolio/pages/student_dataset.py:45 | The assigned column pads every department code to width 3 and leaves every other field and the row count unchanged |
| Departments.PadCodeColumn | Portfolio/pages/student_dataset.py:45 | The in-place assignment over the rows yields exactly the padded table |
| Departments.DepartmentTotals | Portfolio/pages/student_dataset.py:46-47 | Every key of `student_data_dict` is at least 3 characters long, and the padded code of every row is a key; the exact keys and values are Departments.DepartmentTotalsKeys |
| Departments.DepartmentTotalsKeys | Portfolio/pages/student_dataset.py:46-47 | `student_data_dict` has a key exactly for each padded code of a row; every key is at least 3 characters; each value is the student sum of the rows with that padded code |
| Departments.Decimal | Portfolio/pages/student_dataset.py:72 | `str()` of a count is a non-empty string of decimal digits with no leading '0', except for the count 0 itself |
| Departments.DecimalRoundTrip | Portfolio/pages/student_dataset.py:72 | Reading the shown digits back gives the count |
| Departments.Shown | Portfolio/pages/student_dataset.py:72 | `{num_students}` shows a total as canonical decimal digits that read back as the total, and the sentinel as "Not available" |
| Departments.JoinFeature | Portfolio/pages/student_dataset.py:65-72 | One loop iteration fails exactly when "code" or "nom" is missing, with `KeyError("code")` first; otherwise its code is the padded code, at least 3 characters long |
| Departments.JoinFeatureResolves | Portfolio/pages/student_dataset.py:64-69 | The join fails exactly when "code" or "nom" is missing. Otherwise the feature gets exactly one value: the dictionary total for its padded code, or "Not available". The fill is black for "Not available" and the scale's colour for a total |
| Departments.BlackIffNotAvailable | Portfolio/pages/student_dataset.py:69 | With a scale that never yields black, the fill is `#000000` exactly when the value is "Not available" |
| Departments.Tooltip | Portfolio/pages/student_dataset.py:70-72 | The popup text has the name right after the "Name" label, the code right after the "Department Code" label, and the value as shown at the end |
| Departments.TooltipContents | Portfolio/pages/student_dataset.py:65-72 | A joined feature's popup shows its "nom", its code padded by `zfill(3)`, and at the end digits that read back as its total, or "Not available" |
| Departments.JoinFindsRow | Portfolio/pages/student_dataset.py:45-68 | A feature whose code pads to a row's padded code resolves to a total that includes that row's students |
| Departments.BuildChoropleth | Portfolio/pages/student_dataset.py:64-72 | The feature loop succeeds exactly when every feature joins. On success it gives one joined feature per feature, in order. On failure it returns the `KeyError` of the first failing feature |
| Gender.GenderRowOf | Portfolio/pages/student_dataset.py:140-148 | A region's row holds its girls' and boys' sums over the four grades, Total = girls + boys, "Percentage Boys" = Percentage(boys, total) and "Percentage Girls" = Percentage(girls, total), NaN exactly when that total is 0; majority and difference are Gender.GenderRowFacts |
| Gender.GenderStats | Portfolio/pages/student_dataset.py:138-148 | `region_gender_data` has one row per region present, in order, each holding that region's statistics |
| Gender.AbsDifference | Portfolio/pages/student_dataset.py:145 | `abs(a - b)` is NaN exactly when either side is NaN, and otherwise a non-negative number equal to a - b or b - a |
| Gender.Greater | Portfolio/pages/student_dataset.py:147 | `a > b` is false whenever NaN is involved, and between numbers holds exactly when a strictly precedes b in the descending order |
| Gender.PercentageMonotone | Portfolio/pages/student_dataset.py:143-147 | For a positive total, %boys > %girls exactly when boys > girls, and the percentage gap is the count gap over the total, times 100 |
| Gender.GenderRowFacts | Portfolio/pages/student_dataset.py:140-148 | Total = girls + boys. The majority is "Boys" exactly when boys > girls. The difference is NaN exactly when the total is 0; otherwise it is \|boys - girls\| / total * 100 and lies in [0, 100] |
| Gender.CountGap | Portfolio/pages/student_dataset.py:143-147 | %boys > %girls exactly when boys > girls; with pupils present, the gap times the total is \|boys - girls\| times 100 and lies in [0, 100] |
| Gender.TieIsGirls | Portfolio/pages/student_dataset.py:146-148 | An exact tie gives "Girls" and, with pupils present, a zero difference |
| Gender.GenderRanking | Portfolio/pages/student_dataset.py:150-151 | The gender ranking has at most 10 rows, all from `region_gender_data`, sorted by difference with NaN last; exact size and dominance are Gender.GenderRankingSelects |
| Gender.GenderRankingSelects | Portfolio/pages/student_dataset.py:150-151 | The ranking keeps min(10, regions) rows of `region_gender_data`, ordered by difference with NaN last, and no region left out ranks above one kept |
| Languages.Existing | Portfolio/pages/student_dataset.py:171 | `existing_cols` holds exactly the listed columns that the data has |
| Languages.ColumnSum | Portfolio/pages/student_dataset.py:172 | A column's `sum()` is at least every cell of the column, and is 0 exactly when every cell is 0 or missing |
| Languages.FrameSum | Portfolio/pages/student_dataset.py:172 | `data[cols].sum().sum()` is at least every column's sum, and is 0 exactly when every column sums to 0 |
| Languages.LanguageTotal | Portfolio/pages/student_dataset.py:172 | The total stored for one language equals the tolerant sum over its listed columns, in which absent columns count 0 |
| Languages.LanguageTotalTolerant | Portfolio/pages/student_dataset.py:171-172 | A language's total is the sum over its listed columns, with absent columns counting 0; it is 0 when none exists |
| Languages.LanguageTotals | Portfolio/pages/student_dataset.py:168-173 | `calculate_language_totals` has one entry per language of `lv_columns`, and each holds the tolerant sum of its columns |
| Languages.RegionTable | Portfolio/pages/student_dataset.py:227 | `data[data["Région académique"] == region]` keeps the columns and exactly the rows of that region, never more rows than the data has |
| Languages.LanguageDistribution | Portfolio/pages/student_dataset.py:226-232 | The LV1 and LV2 totals of one region have the same keys as `lv1_columns` / `lv2_columns`, and hold the tolerant sums over that region's rows |
| Languages.RegionTotalBounded | Portfolio/pages/student_dataset.py:226-229 | A region's total for a language is never larger than the total over all regions |
| Languages.LanguageColumns | Portfolio/pages/student_dataset.py:189-202 | `lv1_columns` has 4 languages and `lv2_columns` 5, each with one column per grade, and no language twice |
| Languages.MisspelledColumnSkipped | Portfolio/pages/student_dataset.py:201 | When the file has no column spelled "6ème LV2 autres langues", the LV2 "Other" total equals the sum of its three other columns: no error, and no 6th-grade count |
| Sectors.SchoolCount | Portfolio/pages/student_dataset.py:292 | The count for a (region, sector) pair never exceeds the number of rows, and is 0 exactly when no row has that region and sector, as `unstack(fill_value=0)` fills it |
| Sectors.PrivatePercentage | Portfolio/pages/student_dataset.py:293 | The share is NaN exactly when both counts are 0; otherwise share * (public + private) = private * 100, within [0, 100] |
| Sectors.ShareOf | Portfolio/pages/student_dataset.py:292-293 | A region's row holds its PUBLIC and PRIVE school counts and the share PrivatePercentage(PUBLIC, PRIVE) = PRIVE / (PUBLIC + PRIVE) * 100; each count is 0 exactly when the region has no school of that sector, and the share is NaN exactly when it has neither |
| Sectors.HasSector | Portfolio/pages/student_dataset.py:292-293 | `unstack` produces a sector's column exactly when the rows of that sector are not empty |
| Sectors.Shares | Portfolio/pages/student_dataset.py:292-295 | `schools_count` has one row per region present, holding its PUBLIC and PRIVE school counts (0 when absent) and its private share |
| Sectors.SectorShares | Portfolio/pages/student_dataset.py:292-296 | The result is Ok exactly when both a PRIVE and a PUBLIC row exist; otherwise it is `KeyError('PRIVE')` when PRIVE is missing and `KeyError('PUBLIC')` when only PUBLIC is; an Ok result is sorted by share with NaN last and is a permutation of the per-region rows |
| Sectors.PrivatePercentageFacts | Portfolio/pages/student_dataset.py:293 | The share is 0.0 exactly when the region has PUBLIC schools and no PRIVE school, and 100.0 exactly when it has PRIVE schools and no PUBLIC one |
| Sectors.QuarterExample | Portfolio/pages/student_dataset.py:293 | Three public schools and one private school give 25.0 |
| Sectors.SectorCountsSplit | Portfolio/pages/student_dataset.py:292 | The PUBLIC and PRIVE counts never exceed the number of rows, and equal it when every row is one of the two |
| Sectors.ShareOfPresentRegion | Portfolio/pages/student_dataset.py:292-293 | For a region present in data where every row is PUBLIC or PRIVE, the two counts add up to the region's rows and the share is a number |
| Sectors.SectorSharesOutcome | Portfolio/pages/student_dataset.py:292-296 | No PRIVE row raises `KeyError('PRIVE')`; PRIVE rows without PUBLIC rows raise `KeyError('PUBLIC')`; otherwise the result has one row per region, sorted by share with NaN last, and is a permutation of the per-region rows |

## Left out

- Streamlit page layout is not modelled, because it is presentation with no logic. This covers selectboxes, columns and containers, markdown headings, `st.dataframe`, `st.plotly_chart` and `folium_static`. The selected year and region are parameters.
- Reading the CSV (line 10) is not modelled; the model starts from the parsed table. This includes the `on_bad_lines='skip'` policy.
- Loading the GeoJSON file (lines 42-43) is not modelled either; the model starts from the list of features.
- Plotly and Folium chart construction, and the `style_function` / `highlight_function` hooks, are not modelled: rendering only.
- The colour scale fitted by `folium.Choropleth` (lines 51-62, 69) is a library call. It is the function parameter `scale`.
- Departments.BlackIffNotAvailable: assumes that the colour scale never returns `#000000`, which the library's YlOrRd scale does not promise in its type.
- The per-grade averages with `.mean()` (lines 267-268) are not modelled. They are floating-point means with no further logic.
- The per-grade chart series (lines 92-115 and 214-222) are not modelled. They are plain column sums for plotting; `Grouping.Total` covers the same kind of sum.
- `Portfolio/portfolio.py` is not part of this model: page configuration, static content and charts only.
- Percentages are exact reals, so float64 rounding is not modelled. Counts are unbounded naturals, so int64 overflow is not modelled.
- `Grouping.Aggregate` lists groups in order of first appearance, whereas pandas sorts group keys. Every property stated about the group rows holds in either order, but the pre-sort row order of `regions_data`, `region_gender_data` and `schools_count` is not modelled.
- `Ranking.SortDescending` breaks ties by insertion. pandas' default quicksort is unstable and promises no tie order. So the lemmas state only tie-independent facts: sorted, a permutation, and top-n dominance.
- Missing (NaN) group keys are not modelled, nor are missing numeric cells. The model takes every row to have a region, code and sector, and missing counts as 0, which is what `sum()` does with NaN cells.
- `Languages.LanguageTotals` returns a map, so the insertion order of the Python dict is not modelled; the keys and values are.
- Python string details are not modelled:
  - `astype(str)` of a float or NaN code (for example "1.0", "nan"): codes are the strings after conversion;
  - a non-string GeoJSON code, on which `.zfill` would raise;
  - a feature with no `properties` object at all.
- pandas' `Series.str.zfill` on line 45 is taken to handle a leading sign as Python's `str.zfill` does on line 67.
