# A verified model of the flaky-test report in `hello.py`

`hello.py` reads the CI failure page for the `next` target and reports
which test commands failed or flaked most often in the last 48 hours. This
project models its core in Dafny:

- `parse_test_line`: one line of the page becomes a record of seven
  optional fields (timestamp, status, link, test command, duration, exit
  code, target). The timestamp is a match at the start of the line. The
  other text fields come from three regular-expression searches over the
  "rest of the line", which follows a hard-coded link-closing marker
  (`line_parser.dfy`).
- The timestamp resolution of `main` (`parse_datetime`). The current year
  is put in front of the `MM-DD HH:MM:SS` text, and the result is read as
  a pandas timestamp. It is modelled as seconds since 1970 on the proleptic
  Gregorian calendar. Impossible dates and times outside pandas'
  nanosecond range resolve to nothing (`calendar.dfy`).
- The pipeline of `main` (`report.dfy`):
  - split the page into lines and parse those ending in `(target: next)`;
  - resolve their timestamps and keep the last 48 hours;
  - group by test command and aggregate each group;
  - rank the groups by how often they ran;
  - with nothing recent, produce no summary.
- Python's string built-ins the parser relies on (`text.dfy`):
  `str.strip` with the exact `str.isspace` set, `str.find`, `str.endswith`,
  `str.split("\n")` and slicing past the end.
- The pandas operations of the aggregation, as sequence functions
  (`seqs.dfy`): boolean-mask filtering, counting and `Series.unique()`.

The HTML parser's answers (the status span and the first link of a line)
enter as an input, `soup: string -> Markup`. The current year and the
current time (`now`, in microseconds, the resolution of `datetime.now()`)
are parameters.

Where the prose description of the tool and the code disagree, the model
follows the code:

- Status: the code takes the text of the first `<span>` whose text matches
  the regular expression `(FAILED|FLAKED)` anywhere. It is not an exact
  match, so a status such as `FAILED (retry)` is kept as is. It then
  counts as neither FAILED nor FLAKED, because those counts compare the
  whole text (`Report.RowCounts`).
- Rest of the line: the code finds `</a></span>)` without the colon, then
  skips the length of `</a></span>):` with the colon. The one character
  after `)` is always dropped, colon or not
  (`LineParser.CharAfterMarkerIgnored`).
- `total_runs` is pandas' `count` of the status column, which skips rows
  with no status. It can be lower than the number of records in the group.
- Ranking: `sort_values` uses pandas' default quicksort, which is not
  stable. The order of commands that ran equally often is not fixed, so
  only "most runs first" and "same rows" are proved.

## Model

| member | source | states |
|---|---|---|
| LineParser.Timestamp | hello.py:15-16 | a timestamp is present exactly when the line starts with `\d\d-\d\d \d\d:\d\d:\d\d:`, and it is the first 14 characters |
| LineParser.CiLineStamp | hello.py:15-16 | a line that starts with a well-formed stamp and a colon yields that stamp |
| LineParser.RestOfLine | hello.py:30-33 | without the marker `</a></span>)` anywhere in the line the rest of the line is empty |
| LineParser.RestAfterMarker | hello.py:30-33 | with the marker first at `i`, the rest of the line is the stripped text from one character past the marker |
| LineParser.CharAfterMarkerIgnored | hello.py:30-33 | the character right after the marker never affects the rest of the line, whatever it is |
| Text.Strip | hello.py:32 | `str.strip` gives no more than its input, and a non-empty result neither starts nor ends with white space; `Text.StripSlice` states which slice it is |
| Text.StripSlice | hello.py:32 | `str.strip` gives a slice of the input with only white space on either side, and that slice neither starts nor ends with white space |
| Text.LStripExact | hello.py:32 | `lstrip` removes exactly the leading run of white space |
| Text.RStripExact | hello.py:32 | `rstrip` removes exactly the trailing run of white space |
| Text.LeadingZero | hello.py:46 | `int()` of a digit string is unchanged by a leading zero |
| Text.Find | hello.py:30 | `str.find` is -1 exactly when the pattern never occurs, else the lowest index where it occurs |
| Text.FindIsFirst | hello.py:30 | the first occurrence is the index `str.find` reports |
| LineParser.Search | hello.py:36-50 | a hit is a scanner match at or after the start position, with no match at any earlier position; no hit means no match anywhere from the start position on |
| LineParser.TestCommand | hello.py:36-42 | present exactly when the duration search finds something; its value is stated by `LineParser.CommandAndDurationFromFirstMatch` |
| LineParser.Duration | hello.py:36-42 | present exactly when the duration search finds something, and then one or more digits followed by `s` |
| LineParser.ExitCode | hello.py:45-46 | present exactly when the exit-code search finds something; its value, `int()` of the digits (`Text.DigitsValue`), is stated by `LineParser.ExitCodeFromFirstMatch` |
| LineParser.Target | hello.py:49-50 | present exactly when the target search finds something, and then non-empty text without `)` |
| LineParser.MatchAtIsRegex | hello.py:36-50 | the scanner matches at `p` with group `g` if and only if the regular expression `\((\d+s)\)`, `\(code: (\d+)\)` or `\(target: ([^)]+)\)` matches there with that group |
| LineParser.SearchFindsFirstRegexMatch | hello.py:36-50 | `re.search` returns a match at `p` with group `g` if and only if that is the leftmost match of the regular expression |
| LineParser.SearchFailsIffNoRegexMatch | hello.py:36-50 | `re.search` finds nothing if and only if the regular expression matches nowhere |
| LineParser.HitIsRegexMatch | hello.py:36-50 | whatever a search returns is a match, and its group is digits followed by `s`, digits, or non-empty text without `)` |
| LineParser.ParseLine | hello.py:9-60 | the timestamp is `LineParser.Timestamp` of the line; status and link are those of the markup; command and duration are present together; a duration is digits followed by `s`; a target is non-empty and holds no `)` |
| LineParser.NoMarkerNoFields | hello.py:30-50 | a line without the marker has no command, duration, exit code or target |
| LineParser.CommandAndDurationFromFirstMatch | hello.py:36-42 | the command is the stripped text before the leftmost `(<digits>s)`, and the duration is that match's group; with no match both are missing |
| LineParser.ExitCodeFromFirstMatch | hello.py:45-46 | the exit code is the decimal value of the leftmost `(code: N)`'s digits; with no match it is missing |
| LineParser.TargetFromFirstMatch | hello.py:49-50 | the target is the group of the leftmost `(target: ...)`; with no match it is missing |
| LineParser.CiLineRoundTrip | hello.py:9-60 | a line built the way the CI page prints one (markup, marker, command, `(<digits>s) (code: <n>) (target: <t>)`) parses back to exactly its command, duration, exit code and target |
| Text.JoinSplit | hello.py:73 | joining the pieces of `split("\n")` with newlines gives back the page |
| Text.SplitJoin | hello.py:73 | splitting a newline-join of newline-free lines gives back those lines |
| Text.Split | hello.py:73 | `split("\n")` yields at least one piece and no piece holds a newline |
| Seqs.Filter | hello.py:77-79 | a filter keeps no more than it was given, and only elements of the input that pass the test |
| Seqs.FilterAppend | hello.py:77-79 | filtering a concatenation is the concatenation of the filtered parts, so order is kept |
| Seqs.FilterMultiplicity | hello.py:77-79 | each element is kept exactly as often as it occurs if it passes the test, otherwise never |
| Report.ParseSelected | hello.py:73-79 | the selection loop's result is the parse of exactly the lines ending in `(target: next)`, in order |
| Report.SelectionExact | hello.py:77-79 | a line is parsed as often as it occurs if it ends in `(target: next)`, otherwise never; never more records than lines |
| Report.SelectionInOrder | hello.py:77-79 | selecting from two consecutive parts of the page selects from each in turn |
| Calendar.ParseStamp | hello.py:93 | the text reads as a stamp exactly when it has the 14-character two-digit shape, and every field is below 100 |
| Calendar.FormatStamp | hello.py:93 | the writing of a stamp has the separators of `%m-%d %H:%M:%S` and each field zero-padded to two digits |
| Calendar.ParseFormat | hello.py:93 | reading the writing of a stamp gives back the stamp |
| Calendar.FormatParse | hello.py:93 | writing the stamp read from a text gives back the text |
| Calendar.MonthsFillYear | hello.py:93 | the twelve months have exactly the days of the year (366 in a leap year) |
| Calendar.YearLength | hello.py:93 | consecutive New Year days are 366 days apart in a Gregorian leap year and 365 otherwise |
| Calendar.EpochDayIsNewYear1970 | hello.py:93 | the day count of 1970-01-01 is the epoch offset used |
| Calendar.EpochSecondsGrow | hello.py:93-103 | a calendar time earlier field by field has fewer seconds since 1970 |
| Calendar.ChronologicalOrder | hello.py:93-103 | for valid times, fewer seconds since 1970 if and only if earlier, and equal seconds if and only if the same year and stamp |
| Calendar.RepresentableNanos | hello.py:93-95 | a time is in range exactly when its count of nanoseconds fits a signed 64-bit integer |
| Calendar.Resolve | hello.py:88-96 | a resolved time comes from a present timestamp and lies in pandas' range; `Calendar.ResolveMeaning` states exactly when and to what a timestamp resolves |
| Calendar.ResolveMeaning | hello.py:88-96 | a timestamp resolves to `t` if and only if it is the writing of a valid time of the year, pandas can hold it, and it lies `t` seconds after 1970 |
| Calendar.ResolvedTime | hello.py:88-96 | a resolved timestamp reads as a valid time whose seconds since 1970 are the result |
| Calendar.ResolvedWriting | hello.py:88-96 | a resolved timestamp is the writing of the time it reads as, and that time is in range |
| Calendar.WritingResolves | hello.py:88-96 | the writing of a valid, in-range time resolves to that time |
| Report.StampReads | hello.py:88-93 | every timestamp the line parser accepts has the shape the resolver reads |
| Report.LineTime | hello.py:88-98 | a parsed line gets no time exactly when it has no timestamp, the date does not exist in the year, or pandas cannot hold the time |
| Report.RecentExact | hello.py:101-103 | an entry is recent, as often as it occurs, exactly when it has a time no more than 48 hours before `now`; a missing time never passes |
| Report.RecentInOrder | hello.py:101-103 | the recent entries keep the order of the entries they came from |
| Report.FutureInWindow | hello.py:101-103 | the window has no upper end: any time after `now` counts as recent |
| Report.CommandsOf | hello.py:112 | a command is listed exactly when some recent entry carries it |
| Seqs.Dedup | hello.py:119 | `unique()`: no value twice, every value of the input, nothing else, in order of first appearance |
| Seqs.CountDisjoint | hello.py:114-117 | two disjoint counts under a third add up to no more than it, and to exactly it if and only if every counted element falls under one of them |
| Report.ResolveAll | hello.py:98 | one entry per record, in order, each keeping its record and carrying the time its timestamp resolves to |
| Report.Recent | hello.py:101-103 | `df_recent` holds no more than the entries, only entries that are in the window; `Report.RecentExact` and `Report.RecentInOrder` state that it holds all of them, as often as they occur, in order |
| Report.Keys | hello.py:112 | the group keys are distinct, and a command is a key exactly when some recent entry carries it |
| Report.Summary | hello.py:112-131 | one row per group key, in key order, each the aggregate of that key's group |
| Report.Summarize | hello.py:112-131 | a row's failed and flaked counts add up to at most its total, which is at most the group size, with equality of the first exactly when every non-null status is FAILED or FLAKED; exit codes are the group's unique codes; durations are all of the group's, in order; the counts' values are `Report.RowCounts` |
| Report.RowCounts | hello.py:114-117 | `total_runs` is the number of the command's recent entries that have a status; `failed_count` and `flaked_count` are the numbers whose status is exactly `FAILED` and exactly `FLAKED` |
| Seqs.FilterCount | hello.py:115-117 | the length of a filter is the number of positions whose element passes the test |
| Seqs.FilterFilter | hello.py:112-117 | filtering what one test kept with a second test is filtering with both |
| Report.RowExitCodes | hello.py:119 | a row's exit codes are distinct, include every code of the group (a missing code too), include nothing else, and come in order of first appearance |
| Report.SummaryKeys | hello.py:112 | rows have distinct commands, and a command has a row if and only if some recent entry carries it |
| Report.DurationsPresent | hello.py:112-120 | when command and duration always come together, a row's durations hold no missing value |
| Report.EntriesCoupled | hello.py:36-42 | every parsed and resolved entry has a command exactly when it has a duration |
| Report.Insert | hello.py:134 | inserting a row adds exactly that row and keeps the rest |
| Report.InsertKeepsOrder | hello.py:134 | inserting into rows ordered by decreasing runs keeps that order |
| Report.Rank | hello.py:134 | the ranking is a permutation of the rows in non-increasing order of `total_runs` |
| Report.Run | hello.py:63-162 | the corrected pipeline never reaches the missing-column crash (`KeyError`), and the total it reports is the number of selected lines |
| Report.RunAsWritten | hello.py:82-98 | the pipeline as written raises `KeyError` on the missing column exactly when no line is selected |
| Report.SelectedCount | hello.py:76-79 | as many records are parsed as there are lines ending in `(target: next)` |
| Report.RunReportsRecent | hello.py:101-162 | a report is produced if and only if some selected line resolves to a time inside the window; a report's recent entries are `df_recent` of the page's entries; the total (`len(df)`) is the number of lines ending in `(target: next)`; otherwise nothing is summarised or exported |
| Report.RunRanking | hello.py:112-134 | a report's ranking holds exactly the summary rows, most runs first, and no row lists a missing duration |
| Report.NoSelectedLineCrashes | hello.py:82-98 | an empty page crashes the pipeline as written and reports no recent failures in the corrected one |
| Report.AsWrittenAgrees | hello.py:82-98 | whenever some line is selected, the pipeline as written and the corrected one agree |
| Report.DecemberInJanuary | hello.py:86-103 | before February, a line stamped in December resolves to December of the current year, which lies after `now` |
| Report.DecemberAfterFebruary | hello.py:86-98 | a resolved December timestamp lies after the first of February of the same year |

## Left out

- LineParser.ExitCode: reads a digit string of any length. From CPython 3.11 (and the 3.7.14, 3.8.14, 3.9.14 and 3.10.7 security releases), `int()` at hello.py:46 raises `ValueError` for more than 4300 digits (`sys.get_int_max_str_digits()`); the model does not capture that limit.
- LineParser.ExitCodeFromFirstMatch: states the decimal value for an exit code of any length, so it does not capture the `ValueError` that `int()` raises above 4300 digits.
- Report.Run: not capturing the 4300-digit limit, it produces an outcome for a selected line whose leftmost `(code: N)` has more than 4300 digits, where the program aborts at hello.py:46 with an uncaught `ValueError`.
- Report.RunAsWritten: models the `KeyError` crash only. The uncaught `ValueError` of an exit code longer than 4300 digits (hello.py:46, reached from hello.py:79) is not modelled.
- The HTTP request (hello.py:65-70): the page body is a parameter of `Report.Run`.
- The HTML parser (hello.py:12, 19-26): `BeautifulSoup`'s choice of status span and first link is an input (`soup`). A status is any text the parser hands over.
- The clock (hello.py:86, 101): the year and `now` are parameters. `now` is in microseconds, resolved times in whole seconds.
- The console report, the top-10 cut and the status breakdown (hello.py:105-107, 136-152, 162): output only.
- The CSV exports (hello.py:155-160): file output only.
- `\d` in Python also matches non-ASCII decimal digits; the model accepts the ASCII digits only.
- Calendar.ParseStamp: a `strptime`-style format also accepts one-digit fields. The model reads only the exact two-digit shape, which is the only shape the line parser ever passes on (`Report.StampReads`).
- Time zones: pandas ignores them for naive timestamps, and so does the model.
- Calendar.Resolve: rejects a second of `60` or `61`, and so does `Report.LineTime`. pandas 2.x's ISO parser rejects them too, but pandas may then fall back to a `strptime`-style parser. Its `%S` admits `60` and `61`, and the time may roll over into the next minute (`12:00:60` read as `12:01:00`). The model does not follow that fallback.
- pandas' data types: a column of exit codes with a missing value becomes a float column (`1.0`, `NaN`). The model keeps whole numbers and an explicit missing value.
- The order of `groupby` keys (sorted by pandas) and of rows that ran equally often (unstable quicksort). `Report.Rank` is an insertion sort, and only its order by `total_runs` and its permutation are promised.
- Report.DecemberInJanuary: states only that the resolved time lies after `now`. That it then counts as recent is `Report.FutureInWindow`, kept separate.
- No concrete line of the CI page is parsed in the model. `LineParser.CiLineRoundTrip` covers every line of that shape instead.

## Findings

| source | as written | input that shows it | evidently intended | confidence | as-written member | corrected member |
|---|---|---|---|---|---|---|
| hello.py:82-98 | `pd.DataFrame(parsed_data)` of an empty list has no columns, so `df["date-time"]` raises `KeyError` before the empty case at line 110 is reached | a page with no line ending in `(target: next)`, e.g. the empty body `""` | report no test failures in the last 48 hours and write no files, as the `else` branch at lines 161-162 does | not executed | Report.NoSelectedLineCrashes (with Report.RunAsWritten) | Report.Run, with Report.RunReportsRecent and Report.AsWrittenAgrees |
