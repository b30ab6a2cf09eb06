# Phone-purchase map/reduce pipeline, modelled in Dafny

The repository's core is a two-stage Hadoop-streaming job.

- The **mapper** (`process/mapper.py`) reads CSV rows `phone,product` and prints `phone<TAB>product`.
  It skips rows that are blank once stripped and any row whose stripped text starts with `PhoneNumber`.
  Any other row with no comma aborts the run.
- The **reducer** (`process/reducer.py`) reads those lines after Hadoop has sorted them by key.
  It prints one line `phone<TAB>p1,p2,...` for each maximal run of consecutive records with the same phone.
  Blank lines are skipped, so a blank line between two equal keys does not break their run.
  A line that is non-blank once stripped and has no tab left after stripping aborts the run.

Both scripts are top-level `for line in sys.stdin` loops. Here each becomes a method over a
`seq<string>` of input lines that returns the printed lines and a failure flag:

- `Mapper.MapStream` models mapper.py.
- `Reducer.ReduceStream` models reducer.py. It keeps `current_phone` (`Option<string>`) and `products`
  as loop state, exactly as the script does.

Each method is proved equal to a pure specification: `Mapper.Run` and `Reducer.Run`.
The properties the pipeline promises are then proved as lemmas about those specifications.

Modules:

- `Text` (text.dfy): the Python string builtins used: `strip()`, `startswith`, `split(sep, 1)`, `join`.
  `IsWs` is the exact set of code points `str.isspace()` accepts.
- `Streams` (streams.dfy): `Outcome<T>`, which is the output produced so far plus a failure flag.
  It also holds `Process`, a single forward pass that stops at the first failing line, with its laws.
- `Grouping` (grouping.dfy): records, groups, and `Runs`, which cuts a record stream into maximal runs of
  equal keys. Also the contiguity precondition that stands for the external sort.
- `Mapper` (mapper.dfy) and `Reducer` (reducer.dfy): the two stages.
- `Pipeline` (pipeline.dfy): what the reducer makes of the mapper's output lines.

Points of the code's behaviour, and how the model treats each:

- A header row is recognised by `line.startswith("PhoneNumber")` on the whole stripped line, not by its first
  field. So a row such as `PhoneNumber2,x` is skipped as well.
- The reducer tests `if current_phone:` (Python truthiness), which is meant as "a group is open".
  `Reducer.CurrentPhoneTruthiness` proves the two agree, because a key read from a stripped line is never empty.
- A malformed line raises Python's `ValueError` from tuple unpacking. That message does not name the line or its number.
  The model records only that the run failed.
- Nothing checks that the tab delimiter stays out of keys. A mapper key containing a tab is re-split by the reducer at that tab.
  `Pipeline.RowRoundTrip` states the conditions under which a row survives both stages unchanged.
  A row with an empty key (`,x`) is printed as `<TAB>x`, and the reducer strips that tab away (`Pipeline.EmptyKeyRow`).
- The mapper splits at the first comma only, so the value keeps any later commas: a row `555,Widget,2024-01-01`
  has the value `Widget,2024-01-01`. The reducer joins values with commas too, so its printed list cannot always be
  split back into the values (`Reducer.CommaValuesAmbiguous`). It can when no value holds a comma
  (`Reducer.FormatGroupReadsBack`).

## Model

| member | source | states |
|---|---|---|
| Text.Strip | process/mapper.py:5 | `strip()` leaves no whitespace at either end and is empty exactly when the line is all whitespace |
| Text.StripParts | process/mapper.py:5 | the line is the stripped text with whitespace-only padding on both sides |
| Text.StripUnique | process/reducer.py:8 | any decomposition into whitespace, an unpadded core and whitespace has that core as its `strip()` |
| Text.SplitFirst | process/mapper.py:10 | `split(d, 1)` unpacks into two parts exactly when `d` occurs; the left part holds no `d`, and left + d + right is the line |
| Text.SplitFirstUnique | process/mapper.py:10 | the first occurrence is the only split point with a `d`-free left part, so key/value are determined |
| Text.StartsWith | process/mapper.py:8 | `s.startswith(prefix)` as the prefix relation on code point sequences; used by Mapper.MapLineCases |
| Text.Join | process/reducer.py:17 | `sep.join(parts)`; Text.SplitJoin states that it loses nothing when no part holds the separator |
| Text.SplitJoin | process/reducer.py:17 | joining values that contain no comma is undone by splitting on commas |
| Streams.Process | process/mapper.py:4-11 | the `for line in sys.stdin` loop that stops at the first line whose step raises, shared by both scripts (reducer.py:7-11 as well); Streams.ProcessAppend, Streams.ProcessFailsIff and Streams.ProcessStopsAt state its properties |
| Streams.ProcessAppend | process/mapper.py:4-11 | a line-by-line pass over `a + b` is the pass over `a` followed by the pass over `b`, unless `a` aborted |
| Streams.ProcessFailsIff | process/mapper.py:10 | a pass fails exactly when some line's step fails |
| Streams.ProcessStopsAt | process/reducer.py:11 | a failing line ends the pass; output of earlier lines stands and later lines contribute nothing |
| Mapper.MapLine | process/mapper.py:5-11 | the loop body for one line; its cases are stated by Mapper.MapLineCases and Mapper.MapLineSplitsAtFirstComma |
| Mapper.Run | process/mapper.py:4-11 | what the whole script prints and whether it aborts; Mapper.MapStream is proved equal to it, and Mapper.RunAppend, Mapper.SkippedLineIgnored, Mapper.EmittedLineInPlace, Mapper.MalformedLineAborts and Mapper.RunFailsIff state its properties |
| Mapper.MapStream | process/mapper.py:4-11 | the script's loop (strip, skip blank, skip header, split at first comma, print key TAB value, abort on no comma) prints exactly `Run(lines)` |
| Mapper.MapLineCases | process/mapper.py:5-10 | a line is skipped iff it is blank after stripping or starts with `PhoneNumber`; it aborts iff it is not skipped and has no comma |
| Mapper.MapLineSplitsAtFirstComma | process/mapper.py:10-11 | a stripped line `key,value` with a comma-free key prints `key<TAB>value`; the value keeps any later commas |
| Mapper.RunAppend | process/mapper.py:4-11 | the mapper is stateless: output for `a + b` is output(a) then output(b), unless `a` aborted |
| Mapper.SkippedLineIgnored | process/mapper.py:5-9 | a blank or header line anywhere in the stream changes neither output nor failure |
| Mapper.EmittedLineInPlace | process/mapper.py:10-11 | an accepted line contributes exactly one output line, in input order |
| Mapper.MalformedLineAborts | process/mapper.py:10 | a line that, once stripped, is non-blank, not a header and holds no comma fails the run wherever it appears; lines printed before it (or before an earlier abort) stand, nothing after it is printed |
| Mapper.RunFailsIff | process/mapper.py:10 | the mapper fails iff some line is malformed |
| Reducer.ParseLine | process/reducer.py:8-11 | the reading part of the loop body for one line; its cases are stated by Reducer.ParseLineCases and Reducer.ParseLineSplitsAtFirstTab |
| Reducer.Read | process/reducer.py:7-11 | the records read, up to the first line that is non-blank once stripped and has no tab left after stripping; Reducer.RunFailsIff and Reducer.CurrentPhoneTruthiness state its properties |
| Reducer.Truthy | process/reducer.py:16-22 | Python's truth value of `current_phone`; Reducer.CurrentPhoneTruthiness shows it holds of every key read |
| Reducer.FormatGroup | process/reducer.py:17 | the f-string `key<TAB>join(",", values)`, also used at line 23; Reducer.FormatGroupReadsBack states when it can be read back |
| Reducer.Emitted | process/reducer.py:13-23 | the groups printed: the runs of the records read, without the open run on an abort; Reducer.OutputKeepsRecords, Reducer.OutputLinesAreGroups and Reducer.SortedInputGroupsByKey state its properties |
| Reducer.Run | process/reducer.py:4-23 | what the whole script prints and whether it aborts; Reducer.ReduceStream is proved equal to it |
| Reducer.ReduceStream | process/reducer.py:4-23 | the script's loop over `current_phone`/`products`, with the final flush, prints exactly `Run(lines)`: the formatted runs of the records read, minus the open run on an abort |
| Reducer.KeyIsNonEmpty | process/reducer.py:8-11 | the key before the first tab of a stripped line is never empty |
| Reducer.ParseLineCases | process/reducer.py:8-11 | a line is skipped iff blank after stripping, aborts iff, once stripped, it is non-blank and holds no tab, and otherwise gives a non-empty, tab-free key and the rest as value |
| Reducer.ParseLineSplitsAtFirstTab | process/reducer.py:11 | a stripped line `key<TAB>value` with a tab-free key reads as exactly that record |
| Reducer.CurrentPhoneTruthiness | process/reducer.py:16-22 | every key read is non-empty, so `if current_phone:` is "a key has been seen" |
| Reducer.FormatAll | process/reducer.py:17 | one printed line per group, each `key<TAB>join(",", values)` |
| Reducer.ExtendRun | process/reducer.py:13-14 | a record with the open run's key appends its value to that run |
| Reducer.OpenRunAfter | process/reducer.py:15-19 | a record with another key closes the open run (printed) and opens a run holding just its value |
| Reducer.AbortLosesOpenRun | process/reducer.py:11 | on an abort, what has been printed is exactly the closed runs |
| Reducer.RunFailsIff | process/reducer.py:11 | the reducer fails iff some line, once stripped, is non-blank and holds no tab |
| Reducer.BlankInputPrintsNothing | process/reducer.py:7-23 | an empty or all-blank input prints nothing and does not fail |
| Reducer.MalformedLineAborts | process/reducer.py:11 | a line that, once stripped, is non-blank and holds no tab fails a run that had not failed before it; printed groups stand and the open group is not printed |
| Reducer.OutputLinesAreGroups | process/reducer.py:17-23 | every printed line is `key<TAB>join(",", values)` with non-empty key and values, and consecutive groups differ in key |
| Reducer.OutputKeepsRecords | process/reducer.py:13-23 | the printed groups read back as the input records and their values in arrival order: all of them on a clean run, a prefix on an abort |
| Reducer.KeyPrintedOncePerRun | process/reducer.py:13-19 | on a clean run, with no sorting assumption, a key in k separate runs is printed k times |
| Reducer.FormatGroupReadsBack | process/reducer.py:17 | a printed group with a tab-free key splits at its first tab into the key and the joined values, and these split on commas into the values when none holds a comma |
| Reducer.CommaValuesAmbiguous | process/reducer.py:17 | one value `a,b` and two values `a`, `b` print the same line |
| Reducer.SortedInputGroupsByKey | process/reducer.py:13-19 | with equal keys contiguous, each key is printed once, with all its values in arrival order, and on a clean run every key is printed |
| Grouping.Runs | process/reducer.py:13-19 | the maximal runs: at most one per record, none for no records, and the last run has the last record's key |
| Grouping.RunsWellFormed | process/reducer.py:13-19 | every run is non-empty and neighbouring runs differ in key |
| Grouping.ExpandRuns | process/reducer.py:13-19 | the runs read back as records are exactly the input (nothing lost, duplicated or reordered) |
| Grouping.RunsUnique | process/reducer.py:13-19 | any well-formed grouping that reads back as the input is `Runs` of it, so `Runs` is the maximal-run decomposition |
| Grouping.RunsKeepValues | process/reducer.py:13-19 | concatenating the runs' value lists gives the input values in arrival order |
| Grouping.RunsKeys | process/reducer.py:13-19 | the runs carry exactly the input's keys |
| Grouping.RunsCountRuns | process/reducer.py:13-19 | the number of runs with key k equals the number of maximal runs of k in the input |
| Grouping.RunsDistinctKeys | process/reducer.py:13-19 | with contiguous keys, no key labels two runs |
| Grouping.RunsCollectValues | process/reducer.py:13-19 | with contiguous keys, a key's run holds every value of that key in arrival order |
| Grouping.SortedIsContiguous | process/reducer.py:13-19 | input sorted lexicographically by key satisfies the contiguity precondition |
| Grouping.SplitKeyEmittedTwice | process/reducer.py:13-19 | keys a, b, a give three groups; the two `a` runs are not merged |
| Pipeline.TabLineIsStripped | process/reducer.py:8 | the line the mapper prints for a row with non-empty key and value is left unchanged by the reducer's strip |
| Pipeline.RowRoundTrip | process/mapper.py:10-11 | a row `key,value` with non-empty key and value and no tab in the key is printed as `key<TAB>value`, and the reducer reads that back as the same record |
| Pipeline.EmptyValueRow | process/reducer.py:8-11 | a row `abc,` is printed as `abc<TAB>`, which the reducer's strip turns into a tab-less line and aborts on; the row `,` becomes a lone tab, skipped as blank |
| Pipeline.EmptyKeyRow | process/reducer.py:8-11 | a row `,value` is printed as `<TAB>value`; the reducer strips the tab and reads the value alone, so it aborts when the value holds no tab |
| Pipeline.SkippedRowPrintsNothing | process/mapper.py:6-9 | a blank or header row makes the mapper print nothing and not fail |
| Pipeline.MapperOutputReadsBack | process/mapper.py:4-11 | on a file of header, blank and round-trip rows, the mapper does not fail and the reducer reads its output as exactly the data rows' records, in order |

## Left out

- import_random_dated.py and "import random.py": random test-data generators (pandas, `random`, dates, CSV writing). They are not part of this model.
- The Hadoop shuffle/sort between the stages is not modelled as an operation. It appears only as the preconditions `Grouping.Contiguous` and `Grouping.SortedByKey`.
- That the grouped output is the same whatever order the rows arrive in is not proved, because it needs a model of the sort.
- stdin and stdout: input is a `seq<string>` of lines, and output is the returned `seq<string>` without `print`'s trailing newline.
- The exception raised on a malformed line, and its traceback, become a `failed` flag next to the lines already printed.
- The bounded-memory property (only one open group is held) is not stated. The model's ghost `records` sequence exists only for the proof.
- The Hadoop framework itself is not modelled: partitioning, multiple reducers and retries.
