# Problem-management dashboard: filter and aggregates

A Dafny model of the logic inside `Dashbord.py`, a Dash application that shows a
spreadsheet of problem-management records. Each record has a status (`Status Card`),
a priority (`Prioridade`), an impacted module (`Módulo Impactado`) and a creation date
(`Data Criação`). The model covers two parts. The first is `filtrar_dados`, which keeps
the records matching optional status, priority and module selections and an optional
inclusive date range. The second is the pure part of the callback `atualizar_conteudo`:
it loads the frame, lists the distinct values of each categorical column, takes the
earliest and latest creation dates as the default range, and filters with that range.
From the filtered rows it computes the total, resolved and open cards, the per-status
bar data, the per-priority pie data and the per-day line data.

Modules, one per concern:

- `Optional` (`optional.dfy`): `Option` for a cell pandas reads as NaN or NaT, and
  `Result` for the callback's exceptions.
- `Sequences` (`sequences.dfy`): `Select`, order-preserving boolean-mask indexing,
  and `Count`, which is `len(frame[mask])`. It also has the positions a mask keeps
  and the algebra of successive masks.
- `Records` (`records.dfy`): the row, the parsed date `Stamp = NaT | Day(ordinal)`,
  pandas' NaT-aware comparisons, and the column projections.
- `Filtering` (`filtering.dfy`): `filtrar_dados` as its four guarded steps. It also
  defines the reference semantics `Matches`: a row is kept when every active
  criterion holds.
- `FilterLaws` (`filter_laws.dfy`): what the filter promises. The result is a
  subsequence, a row is kept exactly when it matches, an unset or empty selection
  filters nothing, one bound alone filters nothing, the steps can run in any order,
  and the filter is idempotent.
- `Tally` (`tally.dfy`): `dropna().unique()`, `value_counts()` and the sorted
  `groupby(...).size()`.
- `DateBounds` (`date_bounds.dfy`): `Series.min()` and `Series.max()`, both skipping NaT.
- `Dashboard` (`dashboard.dfy`): the callback, its error paths and its view.

Python semantics the model writes out explicitly:

- `if status:` is false for both `None` and `[]`.
- `if data_ini and data_fim:` is true for any two timestamps, NaT included, because
  NaT is a `datetime` subclass with no falsity of its own. When no creation date
  parses, the default bounds are NaT, the date step still runs, and since every
  comparison with NaT is false it keeps no row.
- `isin` never matches a NaN cell against a list of strings.
- `== 'Resolvido'` is false on NaN, so a NaN status counts as open.

Behaviour of `Dashbord.py` that the model states as written:

- Line 123 calls `base64.b64decode`, but `base64` is never imported, so every upload
  raises (`Dashboard.LoadFrame`).
- When the workbook is absent, line 18 falls back to `pd.DataFrame()`, a frame with
  no columns, so line 129 raises `KeyError` on the first callback
  (`Dashboard.MissingWorkbookFails`).
- Lines 135-138 filter with the range [earliest, latest] of the parsed dates, so
  every row whose date did not parse is dropped from the cards and from all three
  charts (`Dashboard.DefaultRangeKeepsDated`, `Dashboard.BuildView`,
  `Dashboard.UndatedRowLeavesAggregates`). The table still shows the whole
  unfiltered frame.

## Model

| member | source | states |
|---|---|---|
| Sequences.SelectIsSubsequence | Dashbord.py:94-100 | boolean-mask indexing returns the input read at strictly increasing positions, and a position is read exactly when its row passes the mask |
| Filtering.MatchesIffAllStages | Dashbord.py:93-100 | a row satisfies every active criterion exactly when it passes each of the four guarded steps, whatever list of steps contains all four |
| Filtering.ApplyStagesSelects | Dashbord.py:93-100 | running guarded steps one after another keeps exactly the rows that pass all of them, in their original order |
| Filtering.FilterSelectsMatches | Dashbord.py:91-101 | `filtrar_dados` keeps exactly the rows whose status, priority and module are in the active selections and whose date lies in the range when both bounds are given, in input order |
| FilterLaws.FilterIsSubsequence | Dashbord.py:91-101 | the result is a subsequence of the input (no row invented or duplicated, order kept); position j is kept if and only if row j matches; the result's multiset is contained in the input's |
| FilterLaws.FilterMembership | Dashbord.py:93-100 | a row value is in the result if and only if it is in the input and satisfies every active criterion |
| FilterLaws.NoCriteriaKeepsAll | Dashbord.py:93-99 | with no selection and no date bound the result is the input itself |
| FilterLaws.EmptySelectionIsUnset | Dashbord.py:93-98 | an empty status, priority or module list filters exactly like an unset one |
| FilterLaws.OneBoundIsNoRange | Dashbord.py:99 | a range missing either bound filters exactly like no range at all |
| FilterLaws.DateRangeInclusive | Dashbord.py:99-100 | once both bounds are given, no undated row is kept, and a row dated exactly on either bound of a non-empty range is kept when the other criteria hold |
| FilterLaws.StageOrderIrrelevant | Dashbord.py:93-100 | the steps run in any order, repeats allowed, give the same rows as the source order as long as each step runs |
| FilterLaws.FilterIdempotent | Dashbord.py:91-101 | filtering the result again with the same criteria changes nothing |
| FilterLaws.FilterCommutes | Dashbord.py:91-101 | two successive filterings equal keeping the rows that satisfy both, so they commute |
| Tally.Unique | Dashbord.py:131-133 | the option list has no duplicates and holds a value exactly when some non-missing cell holds it |
| Tally.UniquePrefix | Dashbord.py:131-133 | the option list is in first-appearance order: the distinct values of any leading part of the column are a leading part of the whole column's list |
| Tally.Bump | Dashbord.py:149 | counting one more cell adds one to that key's count only, adds one to the total, keeps counts positive, and appends a new key at the end |
| Tally.GroupCounts | Dashbord.py:149 | value counts have one row per distinct non-missing value in first-appearance order, each count positive and equal to that value's occurrences, summing to the number of non-missing cells |
| Tally.BumpSorted | Dashbord.py:159 | counting one more day keeps the rows strictly ascending, adds one to that day's count only and one to the total |
| Tally.SortedGroupCounts | Dashbord.py:159 | per-day counts are strictly ascending by day, positive, equal to each day's occurrences, with a row exactly for the days present, and sum to the number of dated cells |
| DateBounds.Earliest | Dashbord.py:135 | the minimum skips NaT: it is NaT exactly when no date parsed, otherwise a date of the column that no parsed date precedes |
| DateBounds.Latest | Dashbord.py:136 | the maximum skips NaT: it is NaT exactly when no date parsed, otherwise a date of the column that no parsed date follows |
| Dashboard.LoadFrame | Dashbord.py:119-127 | with no upload the start-up frame is used unchanged; every upload raises, either on unpacking the split or on the undefined `base64` |
| Dashboard.FirstMissing | Dashbord.py:129-133 | reports none exactly when all four required headers are present; otherwise reports a header the frame lacks, every header read before it (date, status, priority, module) being present |
| Dashboard.Summarize | Dashbord.py:140-142 | total is the row count, resolved counts exact `Resolvido` statuses and is at most total, open is non-negative and counts every other row (NaN status included) |
| Dashboard.DefaultCriteria | Dashbord.py:135-138 | the default call selects no category and passes both bounds; every dated row lies within them, each dated bound is the date of some row, and both are NaT when no date parsed |
| Dashboard.DefaultRangeKeepsDated | Dashbord.py:135-138 | filtering with the default range keeps exactly the rows whose date parsed, in order |
| Dashboard.BuildView | Dashbord.py:129-164 | options are `dropna().unique()` of each column (distinct, non-missing, first-appearance order); the range bounds every dated row and is attained; total counts dated rows, resolved counts exact `Resolvido` statuses among them and open counts the rest, so resolved plus open is total; status and priority counts match occurrences among dated rows and sum to at most total; per-day counts are ascending and sum to total; the table is the unfiltered frame |
| Dashboard.Refresh | Dashbord.py:118-164 | the callback succeeds exactly when nothing was uploaded and all four required columns exist, raises KeyError for the first missing one, and on success returns the full view of the start-up frame (options, bounds, cards and chart counts as `Dashboard.BuildView` states), with the whole frame in the table |
| Dashboard.UndatedRowLeavesAggregates | Dashbord.py:135-149 | with one dated and one undated `Resolvido` row, the table shows both rows, but the total is 1 and the status counts give `Resolvido` a count of 1 |
| Dashboard.MissingWorkbookFails | Dashbord.py:17-18 | without the workbook the first callback raises KeyError for `Data Criação` instead of showing an empty dashboard |

## Left out

- Page layout, the callback decorator, option formatting (`{'label', 'value'}`) and the export buttons (lines 20-88, 103-117, 164): presentation only.
- Plotly figure construction and styling (lines 151-162): each figure is reduced to the table of counts it draws.
- Reading the workbook or CSV, the hard-coded path and `os.path.exists` (lines 10-18, 123-127): I/O. `Dashboard.StartupFrame` takes the existence check and the loaded sheet as parameters.
- Dashboard.StartupFrame: line 16 raises `KeyError` at import time when the sheet has no `Data Criação` column; the model takes the loaded sheet as given and does not raise there.
- The extension test and the CSV/Excel readers after the upload decode (lines 124-127) are not modelled, because the undefined `base64` raises before them.
- Day-first date parsing with `errors='coerce'` (lines 16, 129): a library call. Its output is given as a `Stamp`, either a calendar-day ordinal or NaT.
- Records: time of day is not modelled. A creation date is a whole day, which is what day-first strings parse to.
- Records: columns other than the four the callback reads are not carried in a row; `Frame.columns` keeps their names only. Two rows that differ only in other columns are the same value in the model, which matters for the value-based `FilterLaws.FilterMembership`.
- Records: cells are strings or missing. Numeric or mixed-type cells, and a NaN inside a selection list, are not modelled. The dropdown options never contain NaN.
- Filtering.Criteria: the date bounds are stamps. The date-picker strings the widget could send are not modelled, because the callback only ever passes the column's min and max.
- Tally.GroupCounts: rows are in first-appearance order. `value_counts` sorts by descending count, which only changes the bar order in the chart.
- Dashboard.BuildView: the priority pie is modelled as a per-priority count like the status counts. Plotly does this aggregation internally, and its handling of NaN names is not modelled.
