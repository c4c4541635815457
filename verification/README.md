# CodeXcel automated processor — Dafny model

CodeXcel is a small Streamlit application. A user uploads a spreadsheet of product records. The
application checks that the required columns are present and sorts the rows by their
record-creation time (RCT). It then derives a `Concatenated` column from the three brand fields
and translates every `PRODUCT_DESCRIPTION` into English through a remote translation service,
memoising translations in a module-level cache (line 10), rebuilt on every run of the script. A
progress bar and a status line are updated as it goes.

This project models the processing core of `Automated_Processor.py` and proves properties of it:

- `columns.dfy` (module `Columns`): the required-column check. It reports every missing column,
  in the order of the required list.
- `concatenation.dfy` (module `Concatenation`): the brand concatenation. Each null field becomes
  `""`, the three fields are joined with `;`, and each run of `;` is collapsed to one `;`.
  Separators at the edges are kept.
- `records.dfy` (module `Records`): rows, tables and the ascending RCT sort. The sort is specified
  only as a permutation ordered non-decreasingly by RCT.
- `progress.dfy` (module `Progress`): the progress bar and status events of a run, including the
  report at every 100th row of the translation loop.
- `translation.dfy` (module `Translation`): the remote translator as a possibly failing oracle
  with a log of its calls, `translate_text` as a pure function `Lookup` over (cache, call log), the
  whole translation loop as `Scan`, and the invariant `Consistent` linking the cache to the
  remote calls.
- `processor.dfy` (module `Processor`): class `Processor` holds the module-level translator and
  translation cache created by lines 9-10. Its methods `TranslateText`, `TranslateDescriptions` and `ProcessFile` update
  that state in place and are proved against `Lookup`, `Scan` and the progress functions.

The remote service is a function `answer(text, k)`: the reply to the k-th call made through this
translator, or `None` when that call raises. Because the reply may depend on k, a text that failed
once can succeed when asked again.

The model follows the code in these places, where a reader might expect otherwise:

- A failed remote call is not cached (lines 22-23). The same text is sent again the next time it
  is looked up (`Translation.RepeatAfterFailure`).
- The sort is pandas' default `sort_values` (line 41), which is not stable. Nothing is claimed
  about the order of rows with equal RCT.
- Edge separators are not stripped (line 46). An all-empty row gives `";"`, not `""`.
  `(null, "X", null)` gives `";X;"`, not `"X"` (`Concatenation.Examples`).

The cache is a module-level dictionary (line 10). Streamlit executes the whole script again on
every interaction, so lines 9-10 run again and each processed upload starts with a new translator
and an empty cache. `Processor`'s constructor gives exactly that state. Its methods are proved for
any state that satisfies `Valid()`, so the model also covers repeated calls on one object, which
the script as run does not make.

## Model

| member | source | states |
|---|---|---|
| `Columns.Absent` | Automated_Processor.py:32 | a column is reported iff it is required and absent from the header; never more entries than required columns |
| `Columns.AbsentKeepsOrder` | Automated_Processor.py:32 | the reported columns are a subsequence of the required list, so they keep its order |
| `Columns.MissingColumns` | Automated_Processor.py:31-34 | the missing list is exactly the required columns absent from the header, in required order; it is empty iff all five are present |
| `Columns.NothingPresentMissesAll` | Automated_Processor.py:32-35 | the check does not stop at the first miss: with none present, every required column is reported |
| `Concatenation.Field` | Automated_Processor.py:46 | `fillna("")`: a null cell becomes the empty string, a present cell is kept |
| `Concatenation.Collapse` | Automated_Processor.py:46 | the result is no longer than the input and keeps the input's first and last character, so edge separators are not stripped |
| `Concatenation.CollapseKeepsSep` | Automated_Processor.py:46 | the result contains `;` iff the input does |
| `Concatenation.CollapseNoRepeatedSep` | Automated_Processor.py:46 | after collapsing, no `;` follows another |
| `Concatenation.CollapseKeepsClean` | Automated_Processor.py:46 | a string without adjacent `;` is unchanged |
| `Concatenation.CollapseIdempotent` | Automated_Processor.py:46 | collapsing twice equals collapsing once |
| `Concatenation.CollapseMergesRun` | Automated_Processor.py:46 | two adjacent separators anywhere collapse as one; with `CollapseNoRepeatedSep` and `CollapseKeepsClean` this fixes the result as each run of `;` replaced by exactly one `;` |
| `Concatenation.CollapseKeepsText` | Automated_Processor.py:46 | only separators are removed: the other characters are those of the input, in order |
| `Concatenation.Concatenate` | Automated_Processor.py:46 | the cell holds no `;;`, always holds a `;`, and its non-separator characters are those of the three fields (null as empty) in order |
| `Concatenation.PlainFields` | Automated_Processor.py:46 | for fields without `;`: owner + `;` + (brand + `;` unless brand is empty) + extension; edge separators stay |
| `Concatenation.Examples` | Automated_Processor.py:46 | ("A","","B") gives "A;B"; ("A","B","C") gives "A;B;C"; all-empty gives ";"; (null,"X",null) gives ";X;" |
| `Records.SortByRct` | Automated_Processor.py:41 | the result is ordered non-decreasingly by RCT and is a permutation (same multiset) of the rows |
| `Records.SortKeepsCount` | Automated_Processor.py:41 | sorting keeps the number of rows |
| `Progress.Percent` | Automated_Processor.py:61 | for a row index below the row count, the percentage lies in [30, 80) |
| `Progress.PercentMonotone` | Automated_Processor.py:61 | a later row never gets a smaller percentage |
| `Progress.ScanEvents` | Automated_Processor.py:59-63 | the loop's progress events: two per row whose index is a multiple of 100 (bar, then status); defined by cases, contents in the `ScanEventsShape` row |
| `Progress.ScanEventsShape` | Automated_Processor.py:56-63 | the loop's events are exactly, for each multiple m·100 below the row count, the bar at that row's percentage followed by the "m·100/total rows processed" status; no events for zero rows |
| `Progress.RowReported` | Automated_Processor.py:60-63 | a row is reported iff its index is below the row count and a multiple of 100, and the report carries the row count; for an empty table nothing is reported |
| `Progress.ReportedRowIsMultiple` | Automated_Processor.py:60-63 | a reported row is below the rows handled so far, a multiple of 100, and carries the row count |
| `Progress.MultipleRowIsReported` | Automated_Processor.py:60-63 | every multiple of 100 below the row count is reported |
| `Progress.ScanEventsBar` | Automated_Processor.py:59-62 | during translation every bar value lies in [30, 80) and the bar never moves backwards |
| `Progress.RunEvents` | Automated_Processor.py:42-74 | a successful run's events: bar 10 first, "processing complete" last, nine fixed events plus the loop's; the order is that of lines 42-74 |
| `Progress.RunBarMonotone` | Automated_Processor.py:42-73 | over a whole successful run the bar stays within [10, 100] and never moves backwards |
| `Translation.Translator.constructor` | Automated_Processor.py:9 | a new translator has made no remote calls |
| `Translation.Translator.Translate` | Automated_Processor.py:19 | one remote call: the reply is the oracle's answer for this call's number, and the text is appended to the call log |
| `Translation.Lookup` | Automated_Processor.py:13-24 | `translate_text` on (cache, call log): no entry is removed or overwritten; at most one remote call, only for a present text not in the cache; the cache changes only by storing the returned value under that text. Case by case in the `Lookup*` rows |
| `Translation.LookupNull` | Automated_Processor.py:14-24 | a null description returns "" with the cache and the call log unchanged |
| `Translation.LookupCached` | Automated_Processor.py:15-16 | a cached description returns the stored value, with no remote call and the cache unchanged |
| `Translation.LookupMiss` | Automated_Processor.py:17-23 | an uncached description costs exactly one remote call; a reply is returned and stored under exactly that text; a failure returns "Translation Error" and leaves the cache unchanged |
| `Translation.LookupGrows` | Automated_Processor.py:15-21 | no entry is ever removed or overwritten, and the call log only grows |
| `Translation.RepeatAfterSuccess` | Automated_Processor.py:15-21 | after a successful miss, the same text is a hit: same value, no second remote call |
| `Translation.RepeatAfterFailure` | Automated_Processor.py:22-23 | a failure is not cached: the next lookup of the same text makes another remote call |
| `Translation.LookupKeepsConsistent` | Automated_Processor.py:13-24 | the lookup preserves the cache/call-log invariant: each stored value is a successful reply for its text, each successful call's text is stored, and a text is re-sent only after its earlier call failed |
| `Translation.Scan` | Automated_Processor.py:55-57 | the translation loop yields one value per row |
| `Translation.ScanAligned` | Automated_Processor.py:56-57 | entry i is the lookup of row i's description with the cache and call log left by rows 0..i-1 |
| `Translation.ScanGrows` | Automated_Processor.py:56-57 | the cache after any prefix of the rows is contained in the final cache, and its call log is a prefix of the final log |
| `Translation.ScanKeepsConsistent` | Automated_Processor.py:56-57 | the whole loop preserves the cache/call-log invariant, so each text has at most one successful remote call |
| `Translation.ScanRow` | Automated_Processor.py:56-57 | a row's value is "" for a null description, the stored translation when cached beforehand, and otherwise "Translation Error" or the value the cache holds for that text at the end |
| `Translation.ScanCallsAreRowTexts` | Automated_Processor.py:56-57 | every remote call made by the loop is for the description of one of its rows |
| `Translation.NoCallForCachedText` | Automated_Processor.py:15-16 | whatever the starting cache, a text cached before the loop is never sent to the remote service during it |
| `Processor.WithColumn` | Automated_Processor.py:46-65 | assigning a column keeps the existing header as a prefix and makes the column present; the header grows by one column exactly when the name was absent, so nothing else is added |
| `Processor.Descriptions` | Automated_Processor.py:56 | the PRODUCT_DESCRIPTION column: one cell per row, in row order |
| `Processor.ConcatenatedColumn` | Automated_Processor.py:46 | one Concatenated value per row, computed from that row's three brand fields |
| `Processor.Processor.constructor` | Automated_Processor.py:9-10 | the application state starts with a fresh translator, an empty cache and no remote calls |
| `Processor.Processor.TranslateText` | Automated_Processor.py:13-24 | the returned value, the new cache and the new call log are those of `Lookup` on the old cache and log; the cache invariant is kept |
| `Processor.Processor.TranslateDescriptions` | Automated_Processor.py:52-65 | the translated list, the cache and the call log are those of `Scan` over the descriptions, and the events are exactly the loop's progress events for that row count |
| `Processor.Processor.ProcessFile` | Automated_Processor.py:27-77 | no upload: nothing happens; missing columns: the full missing list is reported and nothing is sorted or translated; otherwise the rows are a sorted permutation of the input, the Concatenated column and the translations are aligned with them, the cache and call log advance as `Scan` says, and the events are the run's progress events |

## Left out

- The Streamlit page (lines 88-148): page setup, styling, upload widget, preview and download button. Progress-bar and status-line calls are kept only as recorded `Progress.Event` values. The status texts become `Progress.Status` constructors, without the emoji.
- Reading and writing spreadsheets: `pd.read_excel` (line 29) and `to_excel` (lines 80-85). This is foreign library I/O. An upload is given directly as a `Records.Table`.
- The googletrans service (line 19). Its behaviour is not visible. It is the oracle `Translation.Backend` (a reply per call number, or a failure), always translating into English.
- Wall-clock timing (`time.time`, lines 38 and 70-74): the elapsed time in the last status line and the `total_time` result are dropped.
- Progress.Percent: computes `floor(50*i/total)` exactly in integers. The source computes `int((i / total_rows) * 50)` in floating point, which can round differently when the quotient is close to an integer.
- pandas-specific behaviour: where NaN keys land in `sort_values`, the order quicksort gives rows with equal RCT, and `";".join` raising on non-string cells. RCT is an integer and brand fields and descriptions are optional strings.
- Records.SortByRct: is one concrete sort (insertion), so it fixes one order for equal keys. `Processor.Processor.ProcessFile` promises only a sorted permutation, which holds whatever order pandas picks.
- Columns other than the five required ones: a `Records.Record` carries only those five cells. The header keeps every column name, and `Processor.WithColumn` adds the two derived columns.
- Processor.Processor.ProcessFile: on an upload with the five required columns and no rows, the model completes the run with an empty table and the nine fixed events. The program may instead raise at line 46: depending on the pandas version, `.agg(";".join, axis=1)` on a frame with no rows can return a DataFrame rather than a Series, and `.str.replace` then fails after bar 10 and the "sorted" status. This pandas behaviour is not modelled.
- Processor.Processor.ProcessFile: builds its event list after the work. The order of events matches the source's calls. The model has no observer that could see the interleaving with the work.
- The rejected-upload return value: line 36 returns a single `None`, but the caller at line 132 unpacks two values. That caller is part of the page and is not modelled. The model returns the distinct outcome `Rejected`.
- The unused `joblib` import (line 6): there is no parallelism in the code.
