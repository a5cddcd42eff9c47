# Iso leg press trial parser, in Dafny

This project models `process_text_files` from `iso_leg_press.py`. That function turns a batch of
uploaded force-plate exports into a table with one row per trial: the athlete's name,
the session date, the trial number and the peak resultant force. For each file it:

* takes the name and the trial from the `_`-separated segments of the filename;
* scans the lines once. The first line holding "Date" and at least two words fixes the date,
  using words 1 to 3 of the line; a "Date" line with fewer words leaves the capture open. A line holding "abs time" opens the data region. From the next line on, each line is
  stripped and split on runs of tabs. Fields 1 and 3 are read as `fx` and `fz`, and the largest
  `round(sqrt(fx² + fz²), 1)` is kept. Lines whose fields do not parse are skipped;
* falls back to the date in the filename (`…_day.month.year.txt`, with a two-digit year
  widened to `20yy`) when the content holds none. It skips the file when that fails too;
* stops the whole batch when a filename has no `_`. The `IndexError` raised when the trial
  segment is read is not caught.

Modules, one per concern:

* `Wrappers` (`wrappers.dfy`): `Option` and `Result`.
* `Text` (`text.dfy`): the Python string operations used, written out over `string`:
  * `in`
  * `split(sep)` and the join that inverts it
  * `split()`
  * `strip()`, with whitespace as `str.isspace` defines it
  * `re.split(r'\t+', …)`
  * `replace(pat, "")`
* `LineScan` (`line_scan.dfy`): the per-line scan as a fold of an immutable `ScanState`.
  It has position-based reference definitions (`AfterHeader`, `Contributes`), the lemmas that
  tie the fold to them, and the loop itself (`ScanLines`).
* `FilenameDate` (`filename_date.dfy`): the date read from the filename.
* `TrialParser` (`trial_parser.dfy`): what one file contributes (`ProcessFile`), the batch
  (`ProcessFiles`) and the batch loop (`ProcessAll`).

`float(…)` and `round(math.sqrt(fx ** 2 + fz ** 2), 1)` are not modelled as floating point.
They are the parameters `Numerics.parse`, which gives `None` where Python raises
`ValueError`, and `Numerics.resultant`, a non-negative real. Every property below holds
for any such pair.

Three points of the code are easy to misread, and the model follows the code in each:

* A filename without `_` is not skipped. `file_name.split("_")[1]` (line 18) raises an
  `IndexError` outside any `try`, so the whole batch fails. `ProcessFile` gives `Aborted`, and
  `ProcessFiles` gives a `Failure` naming the first such file.
* `.replace(".txt", "")` (line 53) removes every occurrence of ".txt", not only a trailing
  one, and `RemoveAll` does the same.
* The three date parts are not checked to be numbers. Any date segment that, once every
  ".txt" is removed, has exactly two dots gives a date.

## Model

| member | source | states |
|---|---|---|
| Text.Contains | iso_leg_press.py:27 | `pat in s` is true exactly when `pat` occurs at some position of `s` |
| Text.SplitOn | iso_leg_press.py:17-18 | `split(sep)` gives at least one part, none of them containing the separator, and the whole string when the separator is absent |
| Text.JoinSplitOn | iso_leg_press.py:17-18 | joining the parts of `split(sep)` with the separator gives back the original string |
| Text.SplitOnJoin | iso_leg_press.py:54 | splitting a join of separator-free parts gives back exactly those parts |
| Text.SplitOnConcat | iso_leg_press.py:53 | splitting `a + sep + b` gives the parts of `a` followed by the parts of `b` |
| Text.TrimLeft | iso_leg_press.py:33 | the result is no longer than the input and does not start with whitespace |
| Text.TrimRight | iso_leg_press.py:33 | the result is no longer than the input and does not end with whitespace |
| Text.TrimLeftCut | iso_leg_press.py:33 | left trimming drops exactly a prefix made of whitespace |
| Text.TrimRightCut | iso_leg_press.py:33 | right trimming drops exactly a suffix made of whitespace |
| Text.Strip | iso_leg_press.py:33 | `strip()` leaves neither a leading nor a trailing whitespace character |
| Text.StripIsMiddle | iso_leg_press.py:33 | `strip()` gives a contiguous slice of its input |
| Text.StripUnchanged | iso_leg_press.py:33 | a string without whitespace at either end is left as it is |
| Text.WordEnd | iso_leg_press.py:29 | the first word ends at the first whitespace character or at the end of the string |
| Text.SplitWhitespace | iso_leg_press.py:29 | `split()` yields only non-empty words free of whitespace |
| Text.SplitWhitespaceStep | iso_leg_press.py:29 | a word followed by whitespace or the end is the first item of `split()` |
| Text.SplitWhitespaceSkipsSpace | iso_leg_press.py:29 | leading whitespace adds no word |
| Text.SplitWhitespaceJoin | iso_leg_press.py:29 | `split()` of words joined by single spaces gives back the words |
| Text.SplitTabRuns | iso_leg_press.py:33 | the split of `re.split(r'\t+', …)` gives at least one field, no field holds a tab, the empty string gives one empty field, and text not starting with a tab gives a non-empty first field |
| Text.SplitTabRunsInnerFields | iso_leg_press.py:33 | only the first and the last field can be empty, because a run of tabs is one separator |
| Text.SplitTabRunsStep | iso_leg_press.py:33 | a tab-free field followed by a run of one or more tabs and then text not starting with a tab splits into that field followed by the split of the text |
| Text.TabRunExample | iso_leg_press.py:33 | "a", two tabs, "b" splits into the two fields "a" and "b" |
| Text.SplitTabRunsJoin | iso_leg_press.py:33 | splitting fields joined by single tabs gives back the fields when no inner field is empty |
| Text.RemoveAll | iso_leg_press.py:53 | `replace(pat, "")` never lengthens its input |
| Text.RemoveAllAbsent | iso_leg_press.py:53 | a string without the pattern is unchanged |
| Text.RemoveAllFirst | iso_leg_press.py:53 | the first occurrence of the pattern is deleted, the text before it is kept, and removal resumes right after it |
| Text.RemoveAllKeepsPrefix | iso_leg_press.py:53 | a prefix that cannot start the pattern is kept as it is |
| LineScan.Slice | iso_leg_press.py:29 | Python slicing `xs[lo:hi]` clamps both bounds to the length and keeps the elements in order |
| LineScan.DateText | iso_leg_press.py:29-30 | the date text is non-empty exactly when the date line has at least two words |
| LineScan.Sample | iso_leg_press.py:33-37 | a data line has no sample exactly when it has fewer than four tab-run fields or field 1 or field 3 does not parse |
| LineScan.SampleOfTabbedLine | iso_leg_press.py:33-37 | a line of four or more words separated by single tabs yields fields 1 and 3 as its sample |
| LineScan.Force | iso_leg_press.py:36-38 | the force of a sample line is the resultant of its parsed fields 1 and 3, after strip and the tab-run split |
| LineScan.Step | iso_leg_press.py:27-47 | per line: the date is captured once and never overwritten; the data region opens at a header line and stays open; the force never decreases, changes only for a sample inside the data region, and then becomes the larger of the two |
| LineScan.Scan | iso_leg_press.py:21 | the force reported for a file is never negative |
| LineScan.ScanInData | iso_leg_press.py:46-47 | the data region is open after the scan exactly when some line holds "abs time" |
| LineScan.ScanMaxForce | iso_leg_press.py:32-41 | the reported force is at least every contributing line's force, and is either 0 or the force of a contributing line |
| LineScan.NoHeaderNoForce | iso_leg_press.py:21-47 | a file with no "abs time" line reports 0 |
| LineScan.NothingBeforeData | iso_leg_press.py:32-47 | no line up to and including the first header line contributes a force |
| LineScan.ScanMonotone | iso_leg_press.py:40-41 | the running maximum never decreases from one prefix to a longer one |
| LineScan.ScanDate | iso_leg_press.py:27-30 | the content date is empty exactly when no line captures one; otherwise it is the date text of the first capturing line |
| LineScan.HeaderThenSample | iso_leg_press.py:32-47 | a header line followed by the line `0.0 30.0 0.0 40.0` reports the resultant of (30, 40) |
| LineScan.DateLineExample | iso_leg_press.py:27-30 | the line "Date Sep 25, 2024 17:29:18" captures "Sep 25, 2024" |
| LineScan.ScanLines | iso_leg_press.py:20-47 | the loop over mutable locals computes the same state as the fold |
| FilenameDate.FullYear | iso_leg_press.py:55-56 | a two-character year gains the prefix "20"; any other year is kept |
| FilenameDate.LastSegment | iso_leg_press.py:53 | the last `_`-segment holds no `_` |
| FilenameDate.DateStem | iso_leg_press.py:53 | the date stem is never longer than the last `_`-segment |
| FilenameDate.DateStemPlain | iso_leg_press.py:53 | a last `_`-segment holding no ".txt" is its own date stem |
| FilenameDate.FileNameDate | iso_leg_press.py:53-57 | a date read from the filename is never empty |
| FilenameDate.FileNameDateFromStem | iso_leg_press.py:53-57 | a date stem of three dot-free parts joined by dots is read as "day month year", with the year widened |
| FilenameDate.FileNameDateToStem | iso_leg_press.py:53-57 | conversely, a date is read only from a stem of exactly three dot-free parts, and it is those parts separated by spaces |
| FilenameDate.RemoveExtensionSkipsDot | iso_leg_press.py:53 | removing ".txt" leaves a dot followed by digits unchanged |
| FilenameDate.RemoveExtensionOfDate | iso_leg_press.py:53 | "d.m.y.txt" with numeric parts loses exactly its extension |
| FilenameDate.FileNameDateOf | iso_leg_press.py:53-57 | a name ending in "_day.month.year.txt" with numeric parts reads back as "day month year", with the year widened |
| FilenameDate.FileNameDateNoDots | iso_leg_press.py:54-60 | a date segment without any dot, followed by ".txt", gives no date |
| FilenameDate.FileNameDateExample | iso_leg_press.py:53-57 | "Alice_3_25.09.24.txt" gives "25 09 2024" |
| TrialParser.UnderscoreSegments | iso_leg_press.py:17-18 | a filename has a trial segment exactly when it holds `_` |
| TrialParser.ProcessFile | iso_leg_press.py:14-68 | a file aborts the batch exactly when its name lacks `_`, and is skipped exactly when neither the content nor the name gives a date. Otherwise its row has the first two name segments, the scanned force and a non-empty date, and the content date takes precedence over the filename date |
| TrialParser.NameAndTrial | iso_leg_press.py:17-18 | for "name_trial" or "name_trial_…", the row carries exactly that name and trial |
| TrialParser.ProcessFiles | iso_leg_press.py:12-68 | the batch has at most one row per file |
| TrialParser.ProcessFilesFailure | iso_leg_press.py:14-18 | the batch fails exactly when some filename lacks `_`, and the failure names the first such file |
| TrialParser.ProcessFilesAppend | iso_leg_press.py:14-68 | rows keep the order of their files: the batch of `a + b` is the rows of `a` followed by those of `b`, unless a failure stops it |
| TrialParser.FailureStops | iso_leg_press.py:14-18 | once a prefix of the batch has failed, the whole batch fails with the same error |
| TrialParser.EmittedRows | iso_leg_press.py:63-68 | the filter-map has at most one row per file |
| TrialParser.EmittedRowsFrom | iso_leg_press.py:63-68 | every row of the filter-map is the row that some file emits |
| TrialParser.EmittedRowsSnoc | iso_leg_press.py:63-68 | one more file adds its row at the end of the filter-map, or nothing when it emits none |
| TrialParser.ProcessFilesRows | iso_leg_press.py:14-68 | when every filename holds `_`, the batch succeeds with exactly the rows of the emitting files, in file order |
| TrialParser.DatedByName | iso_leg_press.py:49-68 | an empty file named "name_trial_day.month.year.txt" gives one row with that name, trial and date and a force of 0 |
| TrialParser.UndatedSkipped | iso_leg_press.py:50-60 | an empty file whose name holds no day.month.year is skipped |
| TrialParser.BatchOfThree | iso_leg_press.py:14-68 | a dated file, then a skipped file, gives only the first file's row; appending a name without `_` makes the batch fail with that name |
| TrialParser.ExampleBatch | iso_leg_press.py:14-68 | "Alice_3_25.09.24.txt" then "Alice_2.txt", both empty, give the single row (Alice, 25 09 2024, 3, 0) |
| TrialParser.ProcessAll | iso_leg_press.py:12-68 | the loop, which continues past a skipped file and exits early on the uncaught error, computes the same as the fold |

## Left out

- The Streamlit app (`main`, iso_leg_press.py:79-101) and `st.error`. They are user interface: a skipped file is the `Skipped` outcome and no message is modelled.
- pandas. The `DataFrame` built at lines 9 and 71 is the sequence of `Row`s.
- The date conversion `pd.to_datetime(…, format="%d %m %Y")` at line 74 is left out; the date stays the text the scan or the filename gave. A date captured from the content (such as "Sep 25, 2024") does not have that format, so the conversion would raise for it.
- Floating point. `float(…)`, `math.sqrt`, `** 2` and `round(…, 1)` are the `Numerics` parameters, so NaN, infinities and rounding ties are not modelled.
- An `OverflowError` from `fx ** 2` on a huge value is not modelled. It is not a `ValueError`, so the source would stop the batch.
- `getvalue().decode("utf-8").splitlines()` at line 25. Each file is given as its sequence of lines, so invalid UTF-8 and the line-break characters are not modelled.
- The regular-expression engine. `re.split(r'\t+', …)` is modelled by its meaning for this one pattern (`SplitTabRuns`).
- `max_force = 0` at line 21 is an `int` until a larger force is found. The model uses the real `0.0` and does not tell the two apart.
