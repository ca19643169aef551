# Spotify Top 50 Explorer: the table pipeline

A Streamlit dashboard over a table of weekly Spotify chart entries (country,
country name, week, artist, track, ranking and audio features). The user
narrows the table with four sidebar filters, and the page draws a top-10 bar
chart, a per-country summary and a popularity trend for the chosen track.
This project models the part of the script that is not widgets or charts.
That part is cleaning, the filter cascade, the option lists, top-10
selection, the per-country summary and the trend ordering. It proves what
these operations return.

Modules, one per stage of `streamlit_app.py`:

- `Dataset` (`dataset.dfy`): raw rows and cleaned records, and cleaning.
  Columns whose name contains "Unnamed" are dropped, and so are rows without a
  week. `Clean` is a method with loops, proved against `KeptColumns` and
  `CleanRows`.
- `Filters` (`filters.dfy`): the "All"-or-equal filters, applied in the order
  country, week, artist, track. Also the sorted option lists. `Sidebar` is the
  sequence of guarded updates of lines 30-45.
- `TopN` (`topn.dfy`): drop duplicate (track, artist) pairs keeping the first,
  sort by the chosen metric with the largest first, keep 10 rows. Also the
  fixed Popularity axis.
- `Summary` (`summary.dfy`): per-country weeks featured and best ranking for
  one track, taken from the whole table.
- `Trend` (`trend.dfy`): the track's rows, narrowed to the selected country
  when there is one, sorted by week as text.
- `Lex` (`lex.dfy`): Python's string order and `sorted(set(...))`.
- `Seqs` (`seqs.dfy`): subsequences and a descending sort on an integer key.
- `Page` (`page.dfy`): one run of the page. The chart reads the filtered
  view. The song details (summary and trend) read the whole cleaned table and
  are shown only when a track is selected.
- `Scenarios` (`scenarios.dfy`): two worked examples.

Missing values (NaN) in Country, Country Name, Artist Name and Track Name are
`None` of an `Option<string>`. A missing value equals no selection and is never
offered as an option. A filter choice is a plain string, and the string "All"
switches a filter off, as in the script. So a country or artist literally named
"All" cannot be selected as a filter. The metrics and the ranking are integers;
only their order matters.

The option lists do not cascade alike. Only the track list is computed from
the narrowed view (line 41). The country, week and artist lists come from the
whole cleaned table (lines 18, 22, 26). The trend sorts the week as text, so
"10" comes before "2".

## Model

| member | source | states |
|---|---|---|
| `Dataset.Clean` | streamlit_app.py:9-11 | returns the header with the "Unnamed" columns dropped and the table of rows that have a week, as `KeptColumns` and `CleanRows` define them |
| `Dataset.OccursSpec` | streamlit_app.py:9 | `'Unnamed' in col` holds exactly when "Unnamed" starts at some position of the column name |
| `Dataset.KeptColumnsSpec` | streamlit_app.py:9 | the kept columns are in header order and are exactly the header's columns whose name does not contain "Unnamed" |
| `Dataset.CleanRowsSpec` | streamlit_app.py:10-11 | the cleaned table, read back as raw rows, is an order-preserving subsequence of the raw rows. It holds every row with a week as often as the raw table does, and no row without a week |
| `Lex.LessTotal` | streamlit_app.py:18 | Python's string order is total: two strings are equal or one is less than the other |
| `Lex.SortedUniqueSpec` | streamlit_app.py:18 | `sorted(set(xs))` is strictly ascending and holds exactly the values of `xs` |
| `Filters.KeepSpec` | streamlit_app.py:33 | `t[t[f] == v]` is an order-preserving subsequence holding each row whose field equals `v` as often as `t` does, and no other row |
| `Filters.WhereSpec` | streamlit_app.py:32-39 | "All" leaves the view unchanged; any other choice keeps exactly the rows whose field equals it, in order |
| `Filters.ApplyIsMatching` | streamlit_app.py:30-45 | `Apply`, the four chained filters equal one pass keeping the rows that pass all four choices, so their order does not change the view |
| `Filters.ApplySpec` | streamlit_app.py:30-45 | the filtered view `Apply(t, s)` is an order-preserving subsequence of the table holding each row that passes every choice as often as the table does, and no other row |
| `Filters.ApplyIdempotent` | streamlit_app.py:32-45 | `Apply` with the same choices, run on the filtered view, returns the same view |
| `Filters.CandidatesSpec` | streamlit_app.py:18-41 | each option list is strictly ascending and holds exactly the values present in the table it is drawn from; missing values are never offered |
| `Filters.TrackChoiceNonEmpty` | streamlit_app.py:41-45 | any track offered by the track list gives a non-empty final view |
| `Filters.Sidebar` | streamlit_app.py:18-45 | the country, week and artist lists are drawn from the whole table, the track list from the view after the first three filters, and the view is the four filters applied in order |
| `TopN.DedupSpec` | streamlit_app.py:61 | `Dedup`, dropping duplicates, keeps, in view order, one row per (track, artist) pair of the view. That row is the pair's first occurrence, and as many rows remain as there are distinct pairs |
| `TopN.TopRows` | streamlit_app.py:59-64 | the chart `Top(view, m)` has min(10, number of distinct pairs) rows. Each is a row of the view and the first occurrence of its pair there, and no two share a pair |
| `TopN.TopSorted` | streamlit_app.py:62 | the rows of `Top(view, m)` are in non-increasing order of the metric `m` |
| `TopN.TopIsBest` | streamlit_app.py:62-63 | the rows of `Top(view, m)` come from `Dedup(view)`, and no row left off has a larger metric than a row on the chart |
| `TopN.YAxisRange` | streamlit_app.py:75-76 | the y-axis is fixed to 0..100 exactly when the metric is Popularity |
| `Summary.MinRankingSpec` | streamlit_app.py:94 | the minimum ranking of a group is at most every ranking in it and is one of them |
| `Summary.GroupStatsSpec` | streamlit_app.py:93-95 | a country's row counts the distinct weeks of the track's rows there and holds the least of their rankings |
| `Summary.SummaryCountries` | streamlit_app.py:91-95 | the summary `Summarize(table, track)` has exactly one row per country name among the track's rows of `table` (which `Page.Render` passes as the whole cleaned table) |
| `Summary.SummaryStats` | streamlit_app.py:93-95 | every row of `Summarize(table, track)` has weeks featured equal to the number of distinct weeks of the track in that country. Its best ranking is at most every ranking there, and is reached |
| `Summary.SummarySorted` | streamlit_app.py:98 | `Summarize(table, track)` is in non-increasing order of weeks featured |
| `Trend.SortByWeekSpec` | streamlit_app.py:129 | sorting by week is a permutation that puts the weeks in ascending string order |
| `Trend.TrendSpec` | streamlit_app.py:126-129 | the trend `TrendRows(table, track, country)` holds every row of `table` (the whole cleaned table, in `Page.Render`) for the track, and for the country when one is selected, as often as the table does. It holds no other row, in ascending string order of week |
| `Trend.WeeksCompareAsText` | streamlit_app.py:129 | weeks compare as text: "1" < "10" < "2" |
| `Page.Render` | streamlit_app.py:59-129 | the chart is `Top` of the filtered view `Apply(table, s)`, and every charted row is a table row passing all four choices. The details exist exactly when a track is selected (line 82). The summary and trend are drawn from the whole table, and the trend holds exactly the table's rows for the track and, unless "All", the country: the week and artist choices do not affect it. The summary has one row per country of the track |
| `Scenarios.SummaryExample` | streamlit_app.py:91-98 | a track at ranks 3 and 5 in two US weeks and rank 1 in one UK week gives US (2 weeks, best 3) before UK (1 week, best 1) |
| `Scenarios.TrendExample` | streamlit_app.py:126-129 | weeks "2", "10", "1" come out in the order "1", "10", "2" |

## Left out

- Reading the CSV file (line 8) is left out: it is file I/O, and a missing file is fatal. The model starts from a header and a sequence of raw rows.
- The `astype(str)` conversions (lines 11-12) are left out. The model takes each week as the text that `astype(str)` produces, or as missing, and does not model the conversion itself (a numeric week column read with missing values would give texts such as "1.0"). The Markets column is not modelled: no operation reads it.
- The sidebar widgets, titles, markdown and every Plotly figure (lines 16-27, 47-56, 66-78, 83, 97, 101-118, 125, 130-131, 133-161) are left out: they are UI and charting calls. Only the Popularity axis rule (lines 75-76) is kept, as `TopN.YAxisRange`.
- The page-title country-name lookup with `.iloc[0]` (line 49) is left out: it is cosmetic.
- The Spotify search link (lines 86-89) is left out: `urllib.parse.quote` is a library call that builds a display-only URL.
- The feature means and their rounded tags (lines 102-103, 121-122, 137-138, 156-157) are left out: they are floating-point averages, NaN on an empty view.
- Missing values in the metric and ranking columns are left out: both are integers here. So neither the NaN-last placement of `sort_values` nor `min()` skipping NaN is modelled.
- Tie order is left out. pandas' default sort is not stable, so `TopN.TopSorted`, `Summary.SummarySorted` and `Trend.TrendSpec` promise only the order and the permutation. Which rows are charted when ties straddle the tenth place is likewise not fixed; `TopN.TopIsBest` states what holds either way. The model's insertion sorts pick one admissible order.
