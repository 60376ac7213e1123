# pytest-memray, modelled in Dafny

A model of the pure logic of the pytest-memray plugin, with proofs about it.

The plugin runs each test under memray's allocation tracker. A
`limit_memory("2KB")` marker fails a passing test whose high-water
allocations reach the given ceiling. At the end of the session a summary
ranks the traced tests by peak memory. For each shown test it prints a
histogram of its allocation sizes and its biggest allocating functions.

The model covers:

- **Units** (`units.dfy`, utils.py):
  - the memory-size grammar `UNIT_REGEXP`, as a deterministic prefix scan;
  - `parse_memory_string` and the unit-to-multiplier table;
  - the prefix selection of `sizeof_fmt`.
- **Marks** (`marks.dfy`, marks.py): the `limit_memory` ceiling policy and the report it builds.
- **Histogram** (`histogram.dfy`): `histogram` and the glyph drawing of `cli_hist`.
- **TraceNaming** (`naming.dfy`): the trace-file naming of `_build_bin_path` and the `.metadata` companion name.
- **Wrapper** (`wrapper.dfy`): the install/restore protocol of `pytest_pyfunc_call`. It is a small state machine over `item.obj`, the results dict, the trace and metadata directories and the number of tracker sessions.
- **ReportHooks** (`reports.dfy`): the outcome transitions of `pytest_runtest_makereport` and `pytest_report_teststatus`.
- **Summary** (`summary.dfy`): `pytest_terminal_summary` and `_report_records_for_test`. This covers:
  - rebuilding the results from the metadata records when the in-memory map is empty;
  - ranking by peak memory;
  - each test's block with its five largest allocations;
  - the closing "binary dumps" line.
- **Supporting modules:**
  - `OrderedMap` (`ordered.dfy`): a Python `dict` with insertion order;
  - `Sorting` (`sorting.dfy`): `sorted(..., reverse=True)` and `Counter.most_common(n)`;
  - `Text` (`text.dfy`): `str.replace`, `"sep".join` and integer formatting;
  - `Results` (`results.dfy`): `Option`/`Result`.

Modelling choices:

- Quantities are exact `real`s.
- A raised Python exception is the `Err` case of a `Result`.
- Four things become parameters:
  - the rendering of a number with `{:3.1f}`, as `render: real -> string`;
  - `math.log`, as `log: real -> real`;
  - what memray's `FileReader` reads back from a trace file;
  - the `uuid4().hex` tokens.

## Model

| member | source | states |
|---|---|---|
| Units.UnitKnown | src/pytest_memray/utils.py:24-35 | every ASCII unit the grammar admits, upper-cased, is a key of the multiplier table, so for ASCII input the lookup in `parse_memory_string` never fails |
| Units.DigitRunSpec | src/pytest_memray/utils.py:22 | the digit scan consumes only digits and stops at the first non-digit, i.e. `\d+` is matched greedily |
| Units.SpaceRunSpec | src/pytest_memray/utils.py:23 | the whitespace scan consumes only spaces and stops at the first non-space (`\s*`) |
| Units.FractionSpec | src/pytest_memray/utils.py:22 | the number is either `digits` with at least one digit, or `digits*` then `.` then at least one digit; the number group fails exactly when a dot follows the digits with no digit after it, or when there are neither digits nor a dot |
| Units.MatchSound | src/pytest_memray/utils.py:20-27 | whatever the scan accepts is a well-formed literal (optional `+`, digits, optional fraction, spaces, a unit) spelled out at the very start of the input |
| Units.MatchSpelling | src/pytest_memray/utils.py:20-27 | completeness of the scan: every well-formed literal, followed by any text, is matched back as exactly that literal |
| Units.ParseMemoryString | src/pytest_memray/utils.py:38-43 | accepts exactly when the prefix scan finds a literal; the value is the literal's quantity times the multiplier of its upper-cased unit and is never negative; otherwise the error is "Invalid memory size format: " followed by the input |
| Units.ParseSpelling | src/pytest_memray/utils.py:38-43 | round trip: parsing the spelling of any well-formed literal, followed by anything, yields that literal's byte count |
| Units.TrailingIgnored | src/pytest_memray/utils.py:39 | `re.match` anchors only at the start: appending any text to an accepted string leaves the result unchanged |
| Units.LeadingSpaceRejected | src/pytest_memray/utils.py:39-41 | a string that starts with whitespace is rejected |
| Units.MinusRejected | src/pytest_memray/utils.py:22 | a leading minus sign is rejected ("-100 B"), so no negative size is ever accepted |
| Units.UnitMissingRejected | src/pytest_memray/utils.py:24 | a number followed by text that does not start with a unit is rejected: "100", "100.0", "100 NB", "100 K", "+100.0 K" |
| Units.NoByteLetterRejected | src/pytest_memray/utils.py:24 | every unit ends in `B`, so a string with no `b`/`B` anywhere is rejected ("100", "100 K") |
| Units.NoNumberRejected | tests/test_utils.py:52 | a string that is empty or opens with anything but `+`, `.` or a digit is rejected, as "Some bad string" is |
| Units.DotWithoutDigitRejected | src/pytest_memray/utils.py:22 | an optional `+`, digits and a dot with no digit after it is rejected whatever follows ("1.B", "3. KB") |
| Units.UnitCaseInsensitive | src/pytest_memray/utils.py:43 | spelling the unit in any case gives the same result as spelling it in upper case |
| Units.ParseMegabytes | tests/test_utils.py:28 | "3 MB" parses to 3 * 1024^2 |
| Units.ParsePetabytes | tests/test_utils.py:31 | "3.14 PB" parses to 3.14 * 1024^5 |
| Units.ParseKilobytesMixedCase | tests/test_utils.py:35 | "100 Kb" parses to 102400 |
| Units.ParseKilobytesSigned | tests/test_utils.py:34 | "+100 KB" parses to 102400 |
| Units.ParseBytes | tests/test_utils.py:41 | "+100.0   b" parses to 100 |
| Units.ScaleFrom | src/pytest_memray/utils.py:13-16 | dividing by 1024 from step k on stops at a power between k and 8; magnitude times 1024 to the steps taken is the input; below the last step the magnitude is under 1024 |
| Units.SizeOf | src/pytest_memray/utils.py:12-17 | the chosen power p is at most 8 (8 is "Yi"); the number equals magnitude * 1024^p; for p < 8 the magnitude is below 1024; a positive p is only chosen when the number is at least 1024^p |
| Units.SizeOfProduct | src/pytest_memray/utils.py:16 | the shown magnitude times 1024 to the chosen power is exactly the input |
| Units.SizeOfMinimal | src/pytest_memray/utils.py:13-17 | the power is the right one: the number's absolute value is at least 1024^q for every q up to it, and below 1024^(p+1) unless p is the last ("Yi") step |
| Units.SmallSizeUnscaled | src/pytest_memray/utils.py:14-15 | a number below 1024 in absolute value is shown as itself with no prefix |
| Units.SizeOfExample | tests/test_pytest_memray.py:319 | 2048 bytes are shown as 2.0 with the prefix "Ki" |
| Units.SizeText | src/pytest_memray/utils.py:12-17 | the text is the rendered magnitude, the prefix and "B" for a scale that writes the number as magnitude times 1024^p with p ≤ 8, the magnitude under 1024 below "Yi", and the number at least 1024^p when p > 0 |
| Units.ScaleOfUnique | src/pytest_memray/utils.py:12-17 | at most one scale meets those conditions, so the text is determined: the loop's first power whose magnitude is under 1024 |
| Units.SizeTextExample | tests/test_pytest_memray.py:321 | 2048 bytes print as the rendering of 2.0 followed by "KiB", as in "-> 2.0KiB" |
| Marks.LimitMemory | src/pytest_memray/marks.py:5-23 | an unparsable limit is the parser's error, before any record is looked at. Otherwise the policy passes exactly when the total size is strictly below the limit. A failure has the key "memray-max-memory" and the lines "Test is using X out of limit of Y", "List of allocations: " and one line per record with a stack |
| Marks.ListedLines | src/pytest_memray/marks.py:15-21 | the listing has one line per record with a non-empty stack and no other lines; record i's line sits after those of the earlier listed records, so input order is kept and empty stacks are skipped |
| Marks.TwoKilobytes | src/pytest_memray/utils.py:28-35 | the marker argument "2KB" is 2048 bytes |
| Marks.CeilingBoundary | tests/test_pytest_memray.py:77-102 | under "2KB", a 2048-byte allocation fails the test and a 2047-byte one passes |
| Marks.ZeroLimitAlwaysFails | src/pytest_memray/marks.py:8-10 | with a zero limit every allocation list fails, the empty one included, because 0 < 0 is false |
| Histogram.Tally | src/pytest_memray/plugin.py:59-60 | the `Counter` read back over `range(bins)` gives, for each bin, exactly the number of values whose floor-divided offset is that bin |
| Histogram.HistogramAsWritten | src/pytest_memray/plugin.py:48-60 | as written: raises exactly when `bins` is 0, or when the step `(high-low)/bins or low` is 0 and there is a value; otherwise `bins` counts, bin b counting the values with `(x-low)//step == b` |
| Histogram.Histogram | src/pytest_memray/plugin.py:58-60 | with the zero step repaired: `bins` counts with the same per-bin meaning, equal to the source's result wherever the source does not raise |
| Histogram.ZeroStepCrash | src/pytest_memray/plugin.py:58-59 | a single one-byte allocation makes low == high == 0, so the source divides by a zero step |
| Histogram.ZeroStepRepaired | src/pytest_memray/plugin.py:58-59 | the repaired histogram counts that allocation in bin 0 |
| Histogram.LowInFirstBin | src/pytest_memray/plugin.py:59 | the value equal to `low` always lands in bin 0 |
| Histogram.HighNotCounted | src/pytest_memray/plugin.py:58-60 | in exact arithmetic, when high > low the value equal to `high` falls in bin `bins`, outside `range(bins)`: the bins are half-open |
| Histogram.CountsAtMostValues | src/pytest_memray/plugin.py:59-60 | the counts add up to at most the number of values: out-of-range values are dropped and none is counted twice |
| Histogram.Doctest | src/pytest_memray/plugin.py:53-55 | the doctest: the scores 82, 85, 90, 91, 70, 87, 45 over (0, 100) in ten bins give 0,0,0,0,1,0,0,1,3,2 |
| Histogram.MinOf | src/pytest_memray/plugin.py:65 | `min(data)` is an element that no element is below |
| Histogram.MaxOf | src/pytest_memray/plugin.py:66 | `max(data)` is an element that no element exceeds |
| Histogram.LogOfNonZeroKept | src/pytest_memray/plugin.py:68 | the logarithm of every non-zero size survives the filter into the histogram's data |
| Histogram.SmallestCounted | src/pytest_memray/plugin.py:65-71 | the smallest size's logarithm is `low` and is counted in bin 0, so the busiest bin holds at least one value |
| Histogram.Level | src/pytest_memray/plugin.py:72 | `int(count * 8 / busiest)` is a glyph index in 0..8, and it is 8 exactly for the busiest count |
| Histogram.Draw | src/pytest_memray/plugin.py:72-73 | the bar line has one glyph per bin at even positions, the glyph of the bin's level, single spaces between them, and at least one full bar |
| Histogram.CliHist | src/pytest_memray/plugin.py:63-74 | with the repaired step: succeeds exactly when there is a size, no size is 0 (the log domain) and there is a bin; the result is the bar line of the histogram of the sizes' logarithms between log(min) and log(max) |
| Histogram.CliHistAsWritten | src/pytest_memray/plugin.py:58-74 | as written: raises exactly when there is no size, a size is 0, there is no bin, or log(min) and log(max) are both 0 (a zero step); when it does not raise it draws the same bar line as `CliHist` |
| Histogram.OneByteTraceCrashes | src/pytest_memray/plugin.py:58-59 | with log(1) = 0, a trace of one 1-byte record makes `cli_hist` as written raise, while the repaired one draws a bar |
| Text.NatToString | src/pytest_memray/plugin.py:288 | an integer formats as a string of decimal digits with no leading zero that reads back as the same integer |
| Text.ReplaceChar | src/pytest_memray/plugin.py:140 | replacing a one-character separator maps each occurrence to the replacement and leaves every other character in place |
| Text.ReplaceAbsent | src/pytest_memray/plugin.py:139-140 | replacing a pattern that does not occur leaves the string unchanged |
| Text.JoinSingletons | src/pytest_memray/plugin.py:73 | joining one-character glyphs with a one-character separator puts glyph i at position 2i and the separator between them |
| TraceNaming.BuildBinPath | src/pytest_memray/plugin.py:137-147 | the trace file gets the mode's name; with a user directory a stale file of that name is removed first; with the plugin's own temporary directory nothing is removed |
| TraceNaming.NodeIdPartClean | src/pytest_memray/plugin.py:139-140 | the node-id part of a deterministic name contains neither "::" nor the path separator |
| TraceNaming.DeterministicName | src/pytest_memray/plugin.py:138-141 | without the plugin's own temporary directory the name is the prefix, "-", an id free of "::" and separators, and ".bin" |
| TraceNaming.PlainNodeIdUnchanged | src/pytest_memray/plugin.py:139-140 | a node id with no colon and no separator is used as it is |
| TraceNaming.NodeIdOfNestedTest | tests/test_pytest_memray.py:508-512 | "dir/file::test" with prefix H becomes "H-dir-file-test.bin", as in "H-magic-test_a.py-test_b[2].bin" |
| TraceNaming.Suffix | src/pytest_memray/plugin.py:165 | `PurePath.suffix` is an ending of the name: a dot, at least one more character and no other dot, never the whole name; it is empty when no dot lies strictly inside the name or the name ends in a dot |
| TraceNaming.WithSuffix | src/pytest_memray/plugin.py:165 | `with_suffix` keeps the name without its suffix and appends the new suffix |
| TraceNaming.MetadataOfBin | src/pytest_memray/plugin.py:165 | `with_suffix(".metadata")` turns "stem.bin" into "stem.metadata" |
| TraceNaming.MetadataSharesStem | src/pytest_memray/plugin.py:163-166 | in both naming modes the trace is "stem.bin" and its metadata record "stem.metadata" |
| OrderedMap.Get | src/pytest_memray/plugin.py:197 | `dict.get` finds nothing exactly for absent keys, and otherwise returns a value stored under the key |
| OrderedMap.Set | src/pytest_memray/plugin.py:169 | `d[k] = v` keeps keys unique, adds k, keeps the positions of existing keys, appends a new key at the end, and changes no other entry |
| OrderedMap.GetSet | src/pytest_memray/plugin.py:247 | after `d[k] = v`, reading k gives v and every other key reads as before |
| Wrapper.Install | src/pytest_memray/plugin.py:127-135 | the hook wraps `item.obj` around the captured callable exactly when a `limit_memory` marker is present or `--memray` is on, and changes nothing else |
| Wrapper.Dispatch | src/pytest_memray/plugin.py:124-178 | after a dispatch the results keep unique keys; a wrapper the hook installed is taken off again, leaving `item.obj` as it was, and it opens one tracker session besides those of wrappers already in place |
| Wrapper.Call | src/pytest_memray/plugin.py:151-176 | a call through the wrapper opens one tracker session per wrapper layer and restores `item.obj` to the captured callable. An exception passes through with nothing recorded. An unreadable trace returns None. Otherwise the test's own return value comes back |
| Wrapper.DispatchRestores | src/pytest_memray/plugin.py:170-178 | after a dispatch `item.obj` is the test function again, and exactly one session was opened if the hook installed the wrapper, none otherwise |
| Wrapper.NotInstalledUntouched | src/pytest_memray/plugin.py:127-135 | without a `limit_memory` marker and without `--memray` the test runs untraced and nothing changes |
| Wrapper.RaiseRecordsNothing | src/pytest_memray/plugin.py:154-176 | a raising test records no result and its exception reaches pytest |
| Wrapper.UnreadableTraceRecordsNothing | src/pytest_memray/plugin.py:158-161 | when the trace cannot be read the call returns None and records nothing, while the trace file stays behind |
| Wrapper.SuccessRecords | src/pytest_memray/plugin.py:162-169 | a traced test that returns keeps its value; its record is stored under its node id (replacing an earlier one) and under the trace's `.metadata` name; other tests' records are untouched |
| Wrapper.RerunOneSessionEach | src/pytest_memray/plugin.py:171-175 | re-dispatching the same test never stacks wrappers: one session per run, `item.obj` restored, and in the deterministic naming mode every run writes the same trace file |
| ReportHooks.LimitArgument | src/pytest_memray/plugin.py:203-208 | binding the marker's arguments to `limit_memory(limit, *, _allocations)` succeeds exactly with one positional argument or the one keyword `limit`, and yields that argument |
| ReportHooks.Verdict | src/pytest_memray/plugin.py:193-208 | markers of other plugins, and tests without a stored result, contribute nothing; a `limit_memory` marker on a test with a stored result gets the ceiling policy's verdict on the records of its trace file, or the binding error of its arguments; any violation carries the ceiling key |
| ReportHooks.ApplyVerdicts | src/pytest_memray/plugin.py:193-213 | the loop raises exactly when a verdict is an exception. Otherwise: the report is failed exactly when it was already failed or some marker is violated; one section is appended per violation, each under the ceiling key; earlier sections are kept |
| ReportHooks.Flag | src/pytest_memray/plugin.py:209-213 | a violation fails the report in the same phase and appends exactly its own section |
| ReportHooks.MakeReport | src/pytest_memray/plugin.py:181-214 | only a passed call-phase report is evaluated; any other report is kept unchanged |
| ReportHooks.NeverUnfails | src/pytest_memray/plugin.py:186-213 | no report ever turns from failed or skipped into passed; sections are only appended, each under the ceiling key |
| ReportHooks.FailsIffViolated | src/pytest_memray/plugin.py:193-213 | an evaluated passing call ends failed exactly when one of its markers is violated, with one new section per violated marker |
| ReportHooks.UnmarkedUnchanged | src/pytest_memray/plugin.py:193-199 | a test without a stored result, or without `limit_memory` markers, keeps the report pytest made |
| ReportHooks.TestStatus | src/pytest_memray/plugin.py:216-226 | the status is overridden to ("failed", "M", "MEMORY PROBLEMS") exactly for failed call reports with a section whose name contains "memray" |
| ReportHooks.KeyNamesMemray | src/pytest_memray/marks.py:23 | the ceiling key "memray-max-memory" contains "memray" |
| ReportHooks.CeilingFailsTest | tests/test_pytest_memray.py:77-102 | end to end: a passing test marked `limit_memory("2KB")` whose trace holds 2048 bytes ends failed and is shown as ("failed", "M", "MEMORY PROBLEMS") |
| ReportHooks.CeilingPassesTest | tests/test_pytest_memray.py:77-102 | end to end: with 2047 traced bytes the same test keeps the report pytest made |
| ReportHooks.OneViolation | src/pytest_memray/plugin.py:203-213 | a passing call whose only marker is violated ends with that violation flagged: failed, its text as the long representation, its section appended |
| ReportHooks.ViolationShownAsM | src/pytest_memray/plugin.py:209-225 | a call the ceiling check failed is shown as "M"; a call that still passes keeps pytest's default status |
| Sorting.Insert | src/pytest_memray/plugin.py:293 | inserting into a descending sequence keeps it descending and adds exactly that element |
| Sorting.SortDesc | src/pytest_memray/plugin.py:293 | `sorted(..., reverse=True)` is a descending permutation of its input |
| Sorting.SortStable | src/pytest_memray/plugin.py:293 | the sort is stable: for every key, the elements with that key appear in their input order |
| Sorting.InsertStable | src/pytest_memray/plugin.py:293 | inserting an element puts it ahead of the elements with an equal key and leaves the others' order alone |
| Sorting.Top | src/pytest_memray/plugin.py:259 | the first n of the descending order: min(n, length) elements, descending, drawn from the input, none smaller than any element left out |
| Sorting.TopStable | src/pytest_memray/plugin.py:259 | among elements with an equal key, the first n keep those that come first in the input, in input order |
| Sorting.TopOfAll | src/pytest_memray/plugin.py:294 | with n at least the length, every element is shown |
| Summary.Load | src/pytest_memray/plugin.py:245-247 | loading the metadata records gives unique keys, exactly the records' test ids |
| Summary.LoadKeepsLatest | src/pytest_memray/plugin.py:245-247 | for each test id the loaded map holds the record listed last |
| Summary.Recover | src/pytest_memray/plugin.py:240-247 | a non-empty results map is kept as it is; an empty one becomes the map of the stored records, later ones winning |
| Summary.Existing | src/pytest_memray/plugin.py:249-255 | the results considered are exactly those whose trace file still exists |
| Summary.ExistingAppend | src/pytest_memray/plugin.py:249-255 | the filter keeps dict order: filtering two concatenated maps concatenates the filtered parts |
| Summary.ExistingUnique | src/pytest_memray/plugin.py:249-255 | the filtered map keeps unique keys |
| Summary.TotalsAreCounter | src/pytest_memray/plugin.py:249-255 | `total_sizes` holds each test id once, and (id, peak) is in it exactly when the result of id has a trace file and that peak memory |
| Summary.Rank | src/pytest_memray/plugin.py:249-259 | the ranking shows min(n, m) of the m results with a trace, largest peak first, each one of those results, and no result left out has a larger peak than a shown one |
| Summary.RankStable | src/pytest_memray/plugin.py:259 | among tests with equal peaks the ranking shows those that come first in dict order, in that order |
| Summary.FirstIsLargest | src/pytest_memray/plugin.py:259 | with n ≥ 1 and at least one trace, the first test shown has the largest peak of all |
| Summary.TopLines | src/pytest_memray/plugin.py:293-299 | at most five lines: those of the five largest records, largest first, skipping records without a stack |
| Summary.MinZero | src/pytest_memray/plugin.py:65-69 | the smallest size is 0 exactly when some size is 0 |
| Summary.HistogramFailsOnZero | src/pytest_memray/plugin.py:289-290 | with the repaired step, the histogram of a test's sizes raises exactly when one record has size 0 |
| Summary.BlockLines | src/pytest_memray/plugin.py:284-300 | a test's block: its header naming the test, the histogram line, then the top lines and a final blank line |
| Summary.TestBlock | src/pytest_memray/plugin.py:277-300 | with the repaired step, a test's block fails exactly when some record has size 0; otherwise it is the block around the histogram of its sizes in min(records, 5) bins |
| Summary.BlockOf | src/pytest_memray/plugin.py:259-271 | with the repaired step, a ranked test raises exactly when its result is known, its trace holds records, and one of those records is zero bytes; otherwise it gets a block exactly when the trace holds records, and that block is labelled with its test id and holds the lines written for that test |
| Summary.Collect | src/pytest_memray/plugin.py:259-271 | the summary raises exactly when some shown test's histogram raises |
| Summary.CollectedAreBlocks | src/pytest_memray/plugin.py:259-271 | when no attempt raises, every block the summary keeps holds the lines written for its own test |
| Summary.AttemptsFail | src/pytest_memray/plugin.py:259-271 | with the repaired step, the loop over the ranking raises exactly when some ranked test's trace holds a zero-byte record |
| Summary.BlocksFollowRanking | src/pytest_memray/plugin.py:259-271 | the blocks are exactly those of the ranked tests whose trace holds records, in ranking order |
| Summary.TerminalSummary | src/pytest_memray/plugin.py:228-275 | nothing is written when the summary is hidden or memray is off. Otherwise the summary works from the recovered results and ranks them; it shows at most n blocks, in ranking order; the closing line appears exactly when this process did not create the temporary directory; with the repaired step, it raises exactly when some ranked test with records has a zero-byte record, and otherwise every block holds the lines written for its test |
| Summary.Footer | src/pytest_memray/plugin.py:272-275 | the closing line is written exactly when this process did not create the temporary directory (`_tmp_dir is None`, which also holds in an xdist worker); it names the count in decimal with no leading zero, the result directory and the prefix |
| Summary.FooterCountsAllDumps | src/pytest_memray/plugin.py:272-275 | the closing line counts every result whose trace file exists, including those the ranking does not show |

## Left out

- `WriteEnabledDirectoryAction` (src/pytest_memray/utils.py:46-67): it only checks file-system permissions and creates directories.
- The temporary-directory and `MEMRAY_RESULT_PATH` lifecycle of `Manager.__init__` and `pytest_unconfigure`: these are process environment and file-system effects.
  - The naming mode is a parameter: "owns a temporary directory".
  - A worker that inherits the variable runs with that flag false and uses deterministic names.
- memray's `Tracker`, `FileReader`, `Metadata` and `AllocationRecord`:
  - records and metadata are plain values;
  - reading a trace is a parameter (`read`, `World.reading`);
  - a tracker session is only counted.
- Pickling, `glob`, `exists` and `unlink` are file-system effects.
  - The metadata directory is a map from names to records.
  - The order in which `glob` lists it is the order of the `stored` sequence.
- Floating point is out: `{:3.1f}` rendering is the parameter `render`, `math.log` is the parameter `log`, and `float()` parsing is exact.
  - Histogram.CliHist: it uses the repaired histogram, not the one as written (see Findings). The as-written behaviour is `Histogram.HistogramAsWritten` and `Histogram.CliHistAsWritten`.
  - Summary.HistogramFailsOnZero: built on the repaired `cli_hist`. As written, the summary also raises ZeroDivisionError for a trace whose smallest and largest sizes both have logarithm 0 (all records of 1 byte); `Histogram.CliHistAsWritten` states that case.
  - Summary.TestBlock: built on the repaired `cli_hist`, so a trace of 1-byte records gets a block rather than the as-written ZeroDivisionError. When the histogram raises, the model's `Err` also drops the lines the source has already written (the block's first four lines and the blocks of earlier tests); terminal output is not modelled.
  - Summary.BlockOf: built on the repaired `cli_hist`, so a ranked test whose records are all 1 byte gets a block, while the source raises ZeroDivisionError for it (see `Histogram.CliHistAsWritten`).
  - Summary.AttemptsFail: built on the repaired `cli_hist`. As written, the loop over the ranking also raises when some ranked test's records are all 1 byte (see `Histogram.CliHistAsWritten`).
  - Summary.TerminalSummary: built on the repaired `cli_hist`. As written, the summary also raises when some ranked test's records are all 1 byte (see `Histogram.CliHistAsWritten`).
  - Histogram.HighNotCounted: the step `(high - low) / bins` and the floor division are exact here. In floats, the step may round down, and then `(high - low) // step` gives `bins - 1`: `1.0 // 0.1` is 9.0, so the source puts `high` in the last bin of `histogram([1.0], 0, 1, 10)`. Whether the largest allocation is counted by `cli_hist` therefore depends on how that step rounds.
  - Units.SizeOf: models the unit choice and the scaled value, not the rounding of the text.
- Regular-expression details are narrowed:
  - `\d` and `\s` are ASCII digits and whitespace rather than their Unicode classes;
  - `re.IGNORECASE` is modelled only for the unit letters.
  - Units.UnitKnown: case folding is ASCII-only. Python's Unicode IGNORECASE also lets `K` match U+212A KELVIN SIGN, whose `.upper()` is not a key of the table, so "1 \u212aB" raises KeyError in the source; non-ASCII input of that kind is not modelled.
- Hook registration, option parsing and terminal writing (src/pytest_memray/plugin.py:303-376 and the reporter calls) are left out. The summary returns the lines it would write.
- The plugin calls the policy with `_config` and reads `.long_repr`/`.section` from its result, but `limit_memory` accepts neither and returns a tuple.
  - The model binds only `limit` and `_allocations`.
  - It treats the returned pair as the section and its text as the long representation.
- `--most-allocations=0`: `Counter.most_common(0)` returns nothing, and that is what Summary.Rank states, since min(0, m) = 0. `value_or_ini` is not part of this model, so whether 0 is mapped to "all" before the call is left open.
- TraceNaming.NodeIdPartClean: requires the separator to differ from "-". Replacing a "-" separator by "-" cannot remove it, so for that separator the "no separator left" half does not hold; no platform has that `os.sep`.
- Behaviour the plugin's tests exercise that this version of the plugin does not implement: `limit_leaks`, `--stacks`, `--fail-on-increase`, the "Test was limited to" message and others. `value_or_ini` and `positive_int` are imported from utils.py but not defined there. None of this is part of this model.

## Findings

| source | as written | input that shows it | evidently intended | confidence | as-written member | corrected member |
|---|---|---|---|---|---|---|
| src/pytest_memray/plugin.py:58-59 | the step is `((high - low) / bins) or low`; when high == low == 0 the step is 0 and `(x - low) // step` raises ZeroDivisionError | `cli_hist` over sizes that are all 1 byte: log(1) = 0, so low == high == 0, and the summary crashes for that test | a non-zero step whenever all values are equal, so that they are all counted in bin 0 | not executed | Histogram.ZeroStepCrash | Histogram.ZeroStepRepaired |
