# NFL combine and season dashboard — data core in Dafny

This project models the data core of the NFL player dashboard in `code/main_nfl_app.py`.
The dashboard has two pages: one compares two existing players, and one enters a new player and finds similar ones.
The model covers the parts of those pages that compute something:

- **Combine conversions.** Heights written "feet-inches" become centimetres. Pounds become kilograms and inches become metres or centimetres. Each result is rounded to two decimals, and nulls stay null. The height conversion is kept as written, including the tokens on which it raises. Loading the combine table therefore fails on such a token, as the code does. A corrected conversion and loader sit next to them (see Findings).
- **Season loading.** The season column is coerced to a number, and rows whose season is not numeric are dropped. The rest are truncated to integers.
- **Seasonal views.** Both pages keep only the selected players' rows in the 2010–2023 window. They drop duplicate (player, season, stat values) rows, keeping the first, and drop rows with a null stat. The comparison page also works out a warning for a player with no seasonal data. The page never displays it (see Left out).
- **The stat menu** of the new-player page for a WR or an RB.
- **The position mean:** `groupby('season')[stat].mean()` over the position's rows in the window.
- **The similarity search** `find_similar_players`:
  1. the pool's six metric columns are standardized with a scaler fitted on the pool;
  2. each pool row gets its Euclidean distance to the query, which is standardized with the same fit;
  3. rows are sorted nearest first, the first `n` are kept, and they are ranked from 1.

The season tables are sequences of `Entry(index, row)`, so pandas' row labels are explicit.
The combine table and the similarity pool carry no labels: they are plain sequences of rows, in row order.
For the season tables, "a subsequence of the input, order kept" is stated two ways:
- every result entry is an entry of the input;
- indices still strictly increase.

Null cells are `Option.None`.
An operation whose raising stops the page returns `Result.Failure`: `FeetInchesToCm`, `LoadCombine` and `FindSimilar`.
An `int()` that raises is `Option.None` in `Text.ParseInt` and `Conversions.HeightParts`. The as-written `FeetInchesToCm` turns it into a `Failure`, and the corrected `HeightToCm` into a null height.
`to_numeric` with `errors='coerce'` does not raise: `Text.ParseDecimal` gives `None` where it gives NaN.
Numbers are exact reals.

Modules and files:

| module | file | what it holds |
|---|---|---|
| `Wrappers` | wrappers.dfy | `Option` and `Result` |
| `Columns` | columns.dfy | `.dropna()` and `.unique()` on a column, and where a value first appears |
| `Text` | text.dfy | Python `int()`, `str.split`, the strings `to_numeric` accepts |
| `Rounding` | rounding.dfy | `round(x, 2)` with ties to even |
| `Cells` | cells.dfy | raw CSV cells, `to_numeric(errors='coerce')`, `astype(int)` |
| `Conversions` | conversions.dfy | the four unit conversions |
| `Frames` | frames.dfy | labelled tables, boolean-mask selection, `drop_duplicates` |
| `Statistics` | statistics.dfy | mean and population variance, and standardization facts |
| `Combine` | combine.dfy | the combine table, its derived columns, menus and position pool |
| `Seasons` | seasons.dfy | the season table, the seasonal views, warnings, stat menu |
| `PositionMeans` | position_means.dfy | the per-season position mean |
| `Similarity` | similarity.dfy | `find_similar_players` |

## Model

| member | source | states |
|---|---|---|
| Conversions.FeetInchesToCm | code/main_nfl_app.py:40-44 | As written. A non-string, or a string without '-', gives None. Any string with a '-' never gives None: it either converts or raises. A converted value is some whole number of feet and inches times 2.54, rounded to hundredths. |
| Conversions.DanglingHyphenRaises | code/main_nfl_app.py:41-43 | "6-" makes the as-written conversion raise, because `int('')` fails. |
| Conversions.SecondHyphenRaises | code/main_nfl_app.py:41-42 | "6-2-1" makes the as-written conversion raise, because three pieces cannot unpack into two names. |
| Conversions.HeightToCm | code/main_nfl_app.py:40-44 | Corrected conversion. It gives a value exactly when the cell is a string of two integers joined by one '-'. The value is (12·feet + inches)·2.54 rounded to hundredths. It agrees with the as-written version wherever that one does not raise, and gives None wherever that one raises. |
| Conversions.HeightTokenRoundTrip | code/main_nfl_app.py:40-44 | A token rendered as "F-I" from naturals F and I converts to exactly (12F + I)·2.54. This holds for both versions, since the product is already whole hundredths. |
| Conversions.PoundsToKg | code/main_nfl_app.py:46-47 | None exactly when the weight is null. Otherwise the weight times 0.453592, rounded to hundredths. |
| Conversions.InchesToM | code/main_nfl_app.py:49-50 | None exactly when the input is null. Otherwise the input times 0.0254, rounded to hundredths. |
| Conversions.InchesToCm | code/main_nfl_app.py:52-53 | None exactly when the input is null. Otherwise the input times 2.54, rounded to hundredths. |
| Conversions.ConversionsPreserveOrder | code/main_nfl_app.py:46-53 | A larger raw measurement never converts to a smaller value, in any of the three scalings. |
| Conversions.WholeInchesToCmIsExact | code/main_nfl_app.py:52-53 | A whole number of inches converts to centimetres with no rounding error. |
| Rounding.RoundHalfEven | code/main_nfl_app.py:43 | The result is an integer nearest to x, no farther than 0.5 from it. On an exact tie the result is even (Python 3 rounding). |
| Rounding.Round2 | code/main_nfl_app.py:43 | `round(x, 2)` is a whole number of hundredths, at most 0.005 from x, and no farther from x than any other hundredth. On an exact tie it is the even hundredth. |
| Rounding.TieGoesToEven | code/main_nfl_app.py:43 | `round(0.125, 2)` is 0.12 and `round(0.135, 2)` is 0.14: an exact tie goes to the even hundredth. |
| Rounding.Round2OfCents | code/main_nfl_app.py:43 | A value already in hundredths is returned unchanged. |
| Rounding.Round2Monotone | code/main_nfl_app.py:43 | Rounding never reverses the order of two values. |
| Text.ParseInt | code/main_nfl_app.py:43 | `int()` accepts exactly a nonempty digit string, optionally after one sign. The value is the digits read in base ten, negated after a '-'. |
| Text.ParseIntOfShowInt | code/main_nfl_app.py:43 | `int()` reads every rendered integer back as itself. |
| Text.Split | code/main_nfl_app.py:42 | `str.split(sep)` yields at least one piece, and no piece contains the separator. |
| Text.JoinSplit | code/main_nfl_app.py:42 | Joining the pieces of `split` with the separator gives back the original string. |
| Text.SplitAtSingleSeparator | code/main_nfl_app.py:42 | A string with exactly one '-' splits into the two pieces around it. |
| Text.ParseDecimalOfShowInt | code/main_nfl_app.py:25 | `to_numeric` reads every rendered integer string as that integer. |
| Cells.ToNumeric | code/main_nfl_app.py:25 | NaN stays NaN, and a number passes through unchanged. A string coerces to a number exactly when it is a decimal: an optional sign, digits with at most one point, and at least one digit. Its value is the number `ParseDecimal` reads, so a digit string coerces to the integer it spells. |
| Cells.PointZeroStringsCoerceToThemselves | code/main_nfl_app.py:25-29 | A season written with a trailing ".0", as a float column is saved, coerces to that integer and truncates back to it. |
| Text.ParseDecimalOfPointZero | code/main_nfl_app.py:25 | `to_numeric` reads every rendered integer followed by ".0" as that integer, for either sign. |
| Text.ParseDecimal | code/main_nfl_app.py:25 | A string is read as a number exactly when it is a decimal. A leading '+' is ignored and a leading '-' negates. |
| Text.UnsignedDecimalValue | code/main_nfl_app.py:25 | A decimal with its point at `k` is worth its digits with the point removed, divided by ten to the number of digits after the point. |
| Cells.TruncateToInt | code/main_nfl_app.py:29 | `astype(int)` truncates toward zero. For x ≥ 0 the result n satisfies n ≤ x < n+1. For x < 0 it satisfies n−1 < x ≤ n. |
| Cells.IntegerStringsCoerceToThemselves | code/main_nfl_app.py:25-29 | A season cell holding an integer string survives coercion and truncation as that integer. |
| Seasons.CoerceRow | code/main_nfl_app.py:25-29 | A row survives exactly when its season coerces to a number. A surviving row keeps its player, position and stats, and its season is the truncated number. |
| Seasons.LoadSeasons | code/main_nfl_app.py:25-29 | Row i survives exactly when its season is numeric. Survivors keep their index and their relative order, and each one is the coerced form of its source row. |
| Seasons.IntegerSeasonIsKept | code/main_nfl_app.py:25-29 | A row whose season is written as an integer is kept, with that season. |
| Frames.Where | code/main_nfl_app.py:304 | A boolean mask keeps exactly the entries whose row passes. It keeps their order, never adds an entry, and never repeats one. |
| Frames.DropDuplicates | code/main_nfl_app.py:334 | Every result entry comes from the input, and the set of keys is unchanged. No two result entries share a key. Order is kept, and the entry kept for each key is the earliest one. |
| Frames.OrderedFrameIsDeterminedByEntries | code/main_nfl_app.py:304-307 | Two ordered frames with the same entries are equal, so a filter's membership and order properties fix its result. |
| Seasons.SeasonWindow | code/main_nfl_app.py:304-307 | The view holds exactly the table rows of the selected players with a season in 2010..2023, in table order. |
| Seasons.CompleteIsDecidedByKey | code/main_nfl_app.py:334-335 | Two rows with the same duplicate key either both have every stat or both lack one. So dropping duplicates first loses no complete key. |
| Seasons.CleanView | code/main_nfl_app.py:334-335 | Every result row comes from the input and has every stat present. No two result rows share a (player, season, stat values) key. Every complete input row's key survives. Order is kept, and the row kept for each key is the earliest one. |
| Seasons.SeasonWarnings | code/main_nfl_app.py:316-322 | At most one warning. There is none exactly when both players have rows. If neither has rows, the warning names both. If only one lacks rows, the warning names that player. |
| Seasons.RowsOf | code/main_nfl_app.py:310-311 | The player's view is empty exactly when the player has no row in it. |
| Seasons.WindowRowsAreActive | code/main_nfl_app.py:304-311 | A selected player has rows in the window exactly when the table holds a 2010–2023 row for that player. |
| Seasons.CompareSeasons | code/main_nfl_app.py:302-335 | The warning cases are stated against the table itself. Nothing is plotted exactly when neither player has a 2010–2023 row. What is plotted satisfies `PlotsCleanRows`: the players' window rows with every receiving stat present, one per key, and every such key kept, as its earliest row in table order. |
| Seasons.CleanWindowRows | code/main_nfl_app.py:304-335 | Cleaning the window gives rows of the selected players, in 2010..2023, with every stat present. No key appears twice, every complete key is covered, and table order is kept. |
| Seasons.SelectedPlayersSeasons | code/main_nfl_app.py:514-523 | The new-player view satisfies the same clean-rows property for the one chosen stat, and every row has that stat present. |
| Seasons.StatMenu | code/main_nfl_app.py:502-507 | There is a menu exactly for "WR" and "RB". The WR menu holds the four receiving stats and starts with receiving yards, which the select box preselects. The RB menu holds the three rushing stats and starts with carries. No stat appears twice. |
| Columns.PresentValues | code/main_nfl_app.py:191 | `.dropna()` keeps every present value as often as it occurs and nothing else. It is empty exactly when every cell is null. |
| Columns.PresentValuesKeepOrder | code/main_nfl_app.py:191 | `.dropna()` keeps the order in which two values first appear in the column. |
| Columns.Unique | code/main_nfl_app.py:191 | `.unique()` holds the same values, each once, in the order in which they first appear. |
| Columns.DistinctPresent | code/main_nfl_app.py:191 | `.dropna().unique()` holds exactly the present values, each once, in the order in which they first appear in the column. |
| Combine.Derive | code/main_nfl_app.py:56-59 | Each derived column is null exactly when its source column is null, or, for height, malformed. Otherwise it is the rounded conversion of that source column. Wherever the as-written height conversion succeeds, the height is its result. |
| Combine.LoadCombine | code/main_nfl_app.py:56-59 | As written. The load fails exactly when some row's height token makes the conversion raise, with the error of the first such row. Otherwise every row is kept, in order, with its derived columns, and each height is the as-written conversion's result. |
| Combine.LoadCombineCorrected | code/main_nfl_app.py:56-59 | Corrected load. It never fails: every row is kept, in order, with its derived columns (`Derive`), and a height is present exactly when its token is two integers joined by one '-'. Wherever the as-written load succeeds, it gives this same table. |
| Combine.Metrics | code/main_nfl_app.py:478 | The six compared metrics in the order listed: height cm, weight kg, 40yd, vertical cm, broad jump m, bench. |
| Combine.PositionPool | code/main_nfl_app.py:433 | The pool holds every row of the position exactly as often as the table does, and no other row. A row with no position never matches. |
| Combine.PositionChoices | code/main_nfl_app.py:191-192 | The position menu holds exactly the non-null positions, each once, ordered by the first table row with that position. So the first row's position is the one preselected. |
| Combine.PlayerChoices | code/main_nfl_app.py:195-200 | Each player menu holds exactly the names of the players at the position, each once, ordered by each name's first row at that position. So the first such player is the one preselected. |
| PositionMeans.PositionWindow | code/main_nfl_app.py:526-529 | Exactly the position's rows with a season in 2010..2023. |
| PositionMeans.GroupSeasons | code/main_nfl_app.py:530 | The group keys are in strictly ascending order and are exactly the in-range seasons that occur. |
| PositionMeans.PositionMeans | code/main_nfl_app.py:526-530 | Seasons ascend strictly, and a season is listed exactly when the position has a row in it within 2010–2023. A season's mean is NaN exactly when every one of its rows has a null stat. Otherwise it is the mean of all non-null values of that season, counting every row. |
| PositionMeans.GroupMeanDescribesSeason | code/main_nfl_app.py:530 | Grouping the position's rows for one season gives the NaN-or-mean entry that `PositionMeans` promises. |
| PositionMeans.WhereWhere | code/main_nfl_app.py:526-530 | Filtering to the window and then to one season gives the same rows, in the same order, as filtering once on both conditions. |
| PositionMeans.MeanWithinSeasonRange | code/main_nfl_app.py:530 | A season's mean lies between any lower and any upper bound of that season's values. |
| PositionMeans.ConstantSeasonMean | code/main_nfl_app.py:530 | If every non-null value of a season is c, the season's mean is c. |
| PositionMeans.SeasonValueComesFromRow | code/main_nfl_app.py:530 | Every value averaged for a season is the stat of one of the position's rows in that season. |
| Statistics.MeanWithinBounds | code/main_nfl_app.py:530 | A mean lies between any lower and upper bound of its values. |
| Statistics.CenteredColumnSumsToZero | code/main_nfl_app.py:468 | Subtracting a column's mean leaves values that sum to zero. |
| Statistics.StandardizedColumnHasUnitVariance | code/main_nfl_app.py:468 | Dividing squared deviations by a nonzero population variance gives squared scores that sum to the number of values. |
| Statistics.ConstantColumn | code/main_nfl_app.py:468 | A constant column has that constant as its mean and zero variance. |
| Similarity.FitColumn | code/main_nfl_app.py:466-468 | The scaler has nothing to fit exactly when every value of the column is null. Otherwise it fits the mean and the population variance of the column's non-null values. |
| Similarity.Fit | code/main_nfl_app.py:466-468 | One fit per metric, computed from the pool's column alone. |
| Similarity.Scale2 | code/main_nfl_app.py:468 | The squared scale is always positive. It is the variance when that is positive, so a constant column is never divided by zero. |
| Similarity.SqDistance | code/main_nfl_app.py:469-471 | A distance exists exactly when the row has every metric and every column was fitted; a missing one gives NaN. A distance is never negative, and it is zero when the row equals the query. |
| Similarity.SqDistanceIsScaledGapSum | code/main_nfl_app.py:468-471 | Because query and row are standardized with the same fit, the distance is the sum over the metrics of the squared gap between query and row, each divided by its column's variance. The fitted means cancel. |
| Similarity.Score | code/main_nfl_app.py:466-472 | Each pool row is paired with its distance. The pool's fit is used for the rows and for the query alike, never a fit of the query. |
| Similarity.Insert | code/main_nfl_app.py:473 | Inserting into a list sorted by distance, NaN last, keeps it sorted and adds exactly that row. |
| Similarity.Sort | code/main_nfl_app.py:473 | `sort_values(by='Distance')` returns the same rows, as a multiset, ordered by distance with NaN last. |
| Similarity.DistLeIsTotalPreorder | code/main_nfl_app.py:473 | The distance order, with NaN last, is reflexive, total and transitive. |
| Similarity.HeadCount | code/main_nfl_app.py:473 | `head(n)` keeps min(n, len) rows for n ≥ 0, and for negative n all but the last −n. |
| Similarity.Number | code/main_nfl_app.py:474 | Ranks are 1, 2, …, len in list order, with player and distance carried over. |
| Similarity.FindSimilar | code/main_nfl_app.py:465-475 | It fails exactly on an empty pool. Otherwise it returns `head(n)` many rows, ranked 1..len. The rows come from the scored pool, nearest first, and no left-out pool row is nearer than a returned one. |
| Similarity.TopOfSorted | code/main_nfl_app.py:473 | The first h rows of a sorted list form a nearest-first cut of it. |
| Similarity.ExactMatchIsAtZero | code/main_nfl_app.py:466-472 | A pool row whose six metrics equal the query has distance zero. |
| Similarity.ExactMatchRanksFirst | code/main_nfl_app.py:466-474 | If some pool row equals the query and n > 0, the search succeeds and the rank-1 row has distance zero. Which tied row comes first is not fixed. |
| Similarity.FittedColumnIsCentred | code/main_nfl_app.py:468 | A fitted column, centred on its fitted mean, sums to zero. |
| Similarity.FittedColumnHasUnitVariance | code/main_nfl_app.py:468 | If a column's non-null values have positive population variance, the scaler fits it with that variance. Its standardized values then have squared scores that sum to their count, which is unit variance. |
| Similarity.ConstantColumnStandardizesToZero | code/main_nfl_app.py:468 | A column whose present values all equal c fits to mean c and variance 0. Its scale is then 1, so every value standardizes to 0 rather than to NaN or infinity. |

## Left out

- CSV loading (code/main_nfl_app.py:19, 22): file input. The tables are given as sequences of rows.
- Streamlit widgets, sidebar, session state and pop-ups. Examples are the new-player inputs and their ranges (code/main_nfl_app.py:402-422) and the player multiselect (code/main_nfl_app.py:499-500). They are user interaction; the model takes the chosen values as parameters.
- HTML and markdown rendering (code/main_nfl_app.py:372-388). `Seasons.SeasonWarnings` computes the warnings, but the code never displays them. They are appended to `final_section_explanation` at line 329, inside `plot_seasonal_performance`, which runs at line 388, after that text was rendered at lines 377-385. The `warnings` list at line 298 stays empty, because the function fills its own local list (line 314), so lines 372-374 never run. The model returns the warnings as data and does not model their display.
- The comparison table (code/main_nfl_app.py:202-238), which shows a null as "This value was not recorded": presentation of values the model already produces.
- matplotlib and seaborn plotting (code/main_nfl_app.py:337-370, 535-545): rendering.
- Binary floating point. `round(x, 2)` is modelled on exact reals with ties to even. The float representation of 2.54 or 0.453592, and the rounding of the products, are not modelled.
- Conversions.ConversionsPreserveOrder: holds for exact reals; binary products are not modelled.
- Similarity.SqDistance: the distance is kept squared, with no square root. The square root is monotone, so order, cut and ranks are unchanged. The reported `Distance` values are the square roots of the modelled ones.
- Similarity.SqDistance: a zero distance is shown to follow from equal metrics, not the converse.
- Similarity.Scale2: the scaler treats a variance below a small float threshold as zero. The model treats only an exact zero that way.
- Similarity.Sort: pandas' default sort is not stable. The model fixes one order among tied distances and promises nothing about it.
- Text.ParseInt: Python `int()` also accepts surrounding whitespace and underscores between digits. The model accepts only an optional sign followed by ASCII digits.
- Conversions.FeetInchesToCm, Conversions.HeightToCm, Combine.LoadCombine: because `int()` is modelled without whitespace stripping, a height token with blanks around a piece ("6-2 ", "6 -2") is read as malformed. The code converts it: `FeetInchesToCm` and `LoadCombine` fail on it instead, and `HeightToCm` gives null.
- Cells.ToNumeric: `to_numeric` also accepts exponents, "inf" and surrounding whitespace. The model accepts an optional sign and a plain decimal.
- The new-player query is given as six reals. The widgets always supply all six (code/main_nfl_app.py:414-421).
- In these places the model follows the code, even where a reader might expect otherwise:
  - a malformed height raises instead of giving null, so `Combine.LoadCombine` fails on it (see Findings);
  - a season in which every row of the position has a null stat still gets a position-mean entry, with a NaN mean;
  - an empty pool makes the scaler raise (`FindSimilar` fails) instead of giving an empty result;
  - the pool is not filtered to rows with all six metrics, so a row missing one gets a NaN distance and sorts last;
  - ties are not broken by pool order.

## Findings

| source | as written | input that shows it | evidently intended | confidence | as-written member | corrected member |
|---|---|---|---|---|---|---|
| code/main_nfl_app.py:41-43 | Any string containing '-' is split and both pieces go to `int()`. A token with a second hyphen or a non-integer piece raises `ValueError` inside `.apply` (line 56), which stops the page from loading. | "6-" (`int('')` fails) and "6-2-1" (three pieces for two names) | A malformed height is a null measurement, like a missing or hyphen-free cell | not executed | Conversions.FeetInchesToCm (Conversions.DanglingHyphenRaises, Conversions.SecondHyphenRaises), Combine.LoadCombine | Conversions.HeightToCm, Combine.LoadCombineCorrected |
