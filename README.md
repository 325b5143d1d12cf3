# Log-Analyser in Dafny

A model of the parse-and-query pipeline of the Log-Analyser scripts. Each line of a
log file has the form `YYYY-MM-DD HH:MM:SS LEVEL message`. The pipeline does the following:

- It strips each line and skips blank lines silently.
- It splits the line at its first three single spaces.
- It checks the level against the four names `INFO`, `WARNING`, `ERROR` and `DEBUG`, and only then checks the
  timestamp as `strptime("%Y-%m-%d %H:%M:%S")` would. Every rejected line gets a warning.
- It collects the parsed `(timestamp, level, message)` records in line order.
- On these records it then offers:
  - a per-level count;
  - the most recent record of a level, where ties go to the first one in list order, as Python's `max` decides them;
  - an inclusive date-range filter;
  - the line format used to save records.

The pipeline exists twice: `log_analyzer.py` calls a separate `parse_log_line`, while `log.py` writes the parser
out inside its read loop. Both are modelled:

- `LogAnalyzer` is `log_analyzer.py`.
- `LogScript` is `log.py`. Its loop is proved to return the same records and warnings as the parser-based reader.

Modules:

- `Options`: the Option type (`None` of Python).
- `Sequences`: `Filter`, `Map`, `Somes` and `Count` over sequences. Their lemmas cover order-preserving positions
  (`FilterIndices`, `SomesIndices`), concatenation, and counting under permutation.
- `Text`: `str.strip()` over Python's whitespace set; `str.split(" ", n)`, where single spaces cut and the last field
  keeps the rest verbatim; and the joining that undoes it.
- `Calendar`: `datetime` and `date` values, their validity (years 1..9999, Gregorian leap years) and their field-by-field order.
- `Timestamps`: the strict `%Y-%m-%d %H:%M:%S` parse and format, and the two round trips between them.
- `LogAnalyzer`, `LogScript`: the two scripts.

Records are `LogRecord(timestamp, level, message)`, where `level` is an enumeration of the four valid names.
`parse_log_line`'s `None` is split into `Blank` and `Rejected(reason)`. The reasons are `MalformedEntry`,
`InvalidLevel` and `InvalidTimestamp`, in the order the code tests them.

## Model

| member | source | states |
|---|---|---|
| LogAnalyzer.LevelName | log_analyzer.py:5 | the spelling of each of the four levels is non-empty and holds no space, so it is one field of a line |
| LogAnalyzer.IsValidLogLevel | log_analyzer.py:5-10 | a level string is valid exactly when it is the name of one of the four levels (case-sensitive) |
| LogAnalyzer.ParseLevel | log_analyzer.py:30-31 | the level field is accepted exactly when it is valid, and the level found has that field as its name |
| LogAnalyzer.ParseFields | log_analyzer.py:28-37 | a field tuple never gives a blank or malformed result; a parsed record's level name is the third field, its message is the fourth, and its timestamp formats back to `date time` |
| LogAnalyzer.ParseLine | log_analyzer.py:18-21 | a line gives no record and no warning (`Blank`) exactly when it is empty or all whitespace |
| LogAnalyzer.ParseLineSound | log_analyzer.py:18-37 | a parsed record has a valid timestamp and a message that is non-empty and does not end in whitespace, and its text `timestamp level message` is exactly the stripped line, so the message is everything after the third space |
| LogAnalyzer.FewFieldsMalformed | log_analyzer.py:24-26 | a line is rejected as malformed exactly when it is not blank and its stripped text has fewer than three spaces |
| LogAnalyzer.LevelCheckedFirst | log_analyzer.py:30-35 | for a line with four fields, it is rejected for its level exactly when the third field is not a valid level; a timestamp rejection implies the level was valid |
| LogAnalyzer.RecordText | log_analyzer.py:91-92 | the renderer's text `timestamp level message`; `ParseLineSound` and `LineOutcomeSpec` show it is exactly the stripped line a record comes from |
| LogAnalyzer.FormatLogLine | log_analyzer.py:91-92 | the saved line, the record's text and a newline; `ParseRendered` and `ReadBackSaved` show it parses back to the record |
| LogAnalyzer.StripRendered | log_analyzer.py:91-92 | the saved line of a well-formed record strips to the record's text |
| LogAnalyzer.SplitRendered | log_analyzer.py:24-28 | the record's text splits into the formatted date, the formatted time, the level name and the whole message |
| LogAnalyzer.FieldsRendered | log_analyzer.py:28-37 | the fields of a record with a valid timestamp pass both checks and give the record back |
| LogAnalyzer.ParseRendered | log_analyzer.py:91-92 | parsing the saved line of a well-formed record gives that record |
| LogAnalyzer.LineOutcomeSpec | log_analyzer.py:13-41 | `parse_log_line` returns a record `r` exactly when `r` is well formed and its text `timestamp level message` is the stripped line; otherwise it returns None |
| LogAnalyzer.Warnings | log_analyzer.py:39-40 | there are at most as many warnings as lines |
| LogAnalyzer.ReadStep | log_analyzer.py:59-62 | reading one more line appends its record if it parses, and its warning (1-based number, stripped text) if it is rejected |
| LogAnalyzer.ParsedRecords | log_analyzer.py:59-62 | the list `read_and_parse_logs` returns; `ParsedRecordsIndices` and `ParsedRecordsWellFormed` state what it holds |
| LogAnalyzer.ReadAndParseLogs | log_analyzer.py:48-64 | the loop returns the records of the parsed lines, in line order, and the warnings of the rejected lines, in line order |
| LogAnalyzer.NoLinesNoRecords | log_analyzer.py:58-64 | no lines give no records and no warnings |
| LogAnalyzer.BlankLineSkipped | log_analyzer.py:18-21 | a blank line adds neither a record nor a warning |
| LogAnalyzer.ParsedRecordsAppend | log_analyzer.py:59-62 | reading two runs of lines one after the other gives the records of the first and then those of the second |
| LogAnalyzer.ParsedRecordsIndices | log_analyzer.py:59-62 | the records are an order-preserving subsequence of the lines: increasing positions that are exactly the lines that parse, each record being its line's parse; so there are at most as many records as lines |
| LogAnalyzer.ParsedRecordsWellFormed | log_analyzer.py:59-62 | every record read has a valid timestamp and a non-empty message with no trailing whitespace |
| LogAnalyzer.SaveFilteredLogs | log_analyzer.py:87-92 | the loop writes one line per record, in order, each line being the record's rendering |
| LogAnalyzer.ReadBackSaved | log_analyzer.py:87-92 | reading back the lines saved for well-formed records whose messages hold no line break gives the same records, in order |
| LogAnalyzer.CountLogLevels | log_analyzer.py:67-69 | the counter holds exactly the levels that occur, each with its number of occurrences |
| LogAnalyzer.OccurrencesSum | log_analyzer.py:67-69 | the occurrences of the four levels add up to the number of records |
| LogAnalyzer.CountsSumToLength | log_analyzer.py:67-69 | the four counts, with a missing level read as 0, add up to the number of records |
| LogAnalyzer.CountsIndependentOfOrder | log_analyzer.py:67-69 | two record lists that are permutations of each other give the same counter |
| LogAnalyzer.LevelConditionsAgree | log_analyzer.py:69-74 | the level condition of the counter and that of `find_most_recent_log` select the same records for a level's own name |
| LogAnalyzer.MaxIndex | log_analyzer.py:79 | `max` by timestamp picks a position whose timestamp is at least every other, and every earlier element is strictly older, so ties go to the first |
| LogAnalyzer.MaxOfMembers | log_analyzer.py:79 | the maximum's timestamp is at least that of every member |
| LogAnalyzer.FindMostRecentLog | log_analyzer.py:72-79 | the result is None exactly when no record has the level; otherwise it is a record of the list with that level whose timestamp is at least that of every record of the level |
| LogAnalyzer.MostRecentIsFirstMaximal | log_analyzer.py:74-79 | a record of the level that is at least as recent as all others of the level, with every earlier one strictly older, is the one returned |
| LogAnalyzer.MostRecentPosition | log_analyzer.py:74-79 | the record returned sits at a position where it has the level, none of the level is more recent, and every earlier one of the level is strictly older |
| LogAnalyzer.SelectedOrder | log_analyzer.py:74-79 | the maximum of the records selected by a condition is, among the selected records in the original list, the most recent and the first such |
| LogAnalyzer.FilterLogsByDate | log_analyzer.py:82-84 | a record is kept exactly when it is in the list and its date lies within `[start, end]`; there are at most as many kept records as records |
| LogAnalyzer.FilterLogsByDateIndices | log_analyzer.py:82-84 | the kept records are an order-preserving subsequence: increasing positions that are exactly the records dated within the range |
| LogAnalyzer.FilterEmptyRange | log_analyzer.py:84 | whenever the start date is after the end date, nothing is kept |
| LogAnalyzer.FilterSingleDay | log_analyzer.py:84 | the range `[d, d]` keeps exactly the records dated `d` |
| LogScript.ReadAndParseLogs | log.py:13-49 | the inlined loop (strip, skip blank, split, field count, level, timestamp, append) returns the same records and warnings as reading with `parse_log_line`, and every record is well formed with a level in VALID_LOG_LEVELS |
| LogScript.CountLogLevels | log.py:52-54 | each level's count, missing levels read as 0, is its number of occurrences, and the four add up to the number of records |
| LogScript.FindMostRecentLog | log.py:57-64 | None exactly when no record has the level; otherwise the record at a position where it has the level, none of the level is more recent and every earlier one of the level is strictly older |
| LogScript.FilterLogsByDate | log.py:67-69 | a record is kept exactly when it is in the list and its date lies within `[start, end]`, and nothing is kept when start is after end |
| LogScript.FilterLogsByDateOrder | log.py:67-69 | the kept records are an order-preserving subsequence with their multiplicity: increasing positions that are exactly the records dated within the range |
| Text.Strip | log_analyzer.py:18 | `line.strip()`; `StripSpec` states it is empty exactly for all-whitespace text and otherwise has no whitespace at either end |
| Text.TrimStartSpec | log_analyzer.py:18 | the leading trim keeps a suffix, drops only whitespace, and leaves no leading whitespace |
| Text.TrimEndSpec | log_analyzer.py:18 | the trailing trim keeps a prefix, drops only whitespace, and leaves no trailing whitespace |
| Text.StripSpec | log_analyzer.py:18-20 | `strip()` gives the empty string exactly for all-whitespace text, and otherwise text that neither starts nor ends with whitespace |
| Text.AllSpaceConcat | log_analyzer.py:18 | a concatenation is all whitespace exactly when both parts are |
| Text.StripPadded | log_analyzer.py:18 | stripping whitespace padding around text that starts and ends with a non-space gives that text |
| Text.TrimStartSpaces | log_analyzer.py:18 | the leading trim removes exactly a whitespace prefix in front of a non-space |
| Text.TrimEndSpaces | log_analyzer.py:18 | the trailing trim removes exactly a whitespace suffix after a non-space |
| Text.SplitN | log_analyzer.py:24 | `split(" ", n)` gives between 1 and n+1 fields |
| Text.JoinPrepend | log_analyzer.py:24 | adding a character in front of the first field adds it in front of the joined text |
| Text.SplitJoin | log_analyzer.py:24 | joining the fields with single spaces gives the text back |
| Text.SplitInnerNoSpace | log_analyzer.py:24 | every field but the last contains no space |
| Text.SplitLastNoSpace | log_analyzer.py:24 | when fewer than n+1 fields come out, the last contains no space either |
| Text.SpaceCountFront | log_analyzer.py:24 | the space count of a text is that of its tail plus one if it starts with a space |
| Text.SplitAfterField | log_analyzer.py:24 | a space-free field followed by a space is split off as the first field, using up one cut |
| Text.SplitNoCuts | log_analyzer.py:24 | with no cuts left the whole text is one field |
| Text.SplitFieldCount | log_analyzer.py:24-25 | the number of fields is one more than the smaller of the space count and n |
| Text.JoinFour | log_analyzer.py:28 | four fields join to `a b c d` |
| Text.SplitFour | log_analyzer.py:24-28 | `a b c d` with space-free a, b, c splits into exactly `[a, b, c, d]` |
| Text.FinalFieldEnds | log_analyzer.py:18-28 | the last field of a text that does not end in whitespace is non-empty and does not end in whitespace |
| Calendar.DaysInMonth | log_analyzer.py:33-35 | a month has 28 to 31 days |
| Calendar.TimestampOrder | log_analyzer.py:79 | timestamps are totally ordered: `<=` is `<` or equality, `<` is asymmetric, and the orders are transitive |
| Calendar.DateOrder | log_analyzer.py:84 | dates are totally ordered the same way, and `a <= b <= a` only for equal dates |
| Timestamps.Pow10 | log_analyzer.py:33-35 | a power of ten is positive |
| Timestamps.DigitsValue | log_analyzer.py:33-35 | the value of w digits is below 10^w |
| Timestamps.Padded | log_analyzer.py:91 | zero-padding gives exactly `width` digits |
| Timestamps.PaddedValue | log_analyzer.py:91 | reading back a padded number that fits the width gives the number |
| Timestamps.ValuePadded | log_analyzer.py:33-35 | every digit string is the padded form of its own value |
| Timestamps.FormatDate | log_analyzer.py:91 | the date part is ten characters without a space |
| Timestamps.FormatTime | log_analyzer.py:91 | the time part is eight characters without a space |
| Timestamps.FormatTimestamp | log_analyzer.py:91 | the formatted timestamp is 19 characters and starts with a digit |
| Timestamps.ParseTimestamp | log_analyzer.py:33-35 | a successful parse comes from text of the exact shape and gives a timestamp `datetime` accepts |
| Timestamps.ParseFormatted | log_analyzer.py:33-35 | parsing the formatted text of a valid timestamp gives the timestamp back |
| Timestamps.FormatParsed | log_analyzer.py:33-35 | text that parses is exactly the formatting of what it parses to |
| Timestamps.DateTextParsed | log_analyzer.py:33-35 | the date part of text of the timestamp shape is the padded form of its three numbers |
| Timestamps.TimeTextParsed | log_analyzer.py:33-35 | the time part of text of the timestamp shape is the padded form of its three numbers |
| Sequences.Filter | log_analyzer.py:82-84 | a comprehension with a condition keeps at most as many elements as it reads |
| Sequences.Somes | log_analyzer.py:61-62 | keeping the non-None results keeps at most as many as there are |
| Sequences.Map | log_analyzer.py:59-60 | applying a function to each element keeps the length |
| Sequences.MapAppend | log_analyzer.py:59-60 | mapping a concatenation is concatenating the maps |
| Sequences.MapPrefix | log_analyzer.py:59-60 | a prefix of a map is the map of the prefix |
| Sequences.Count | log_analyzer.py:69 | a count is at most the length |
| Sequences.ExtendPositions | log_analyzer.py:61-62 | appending the next position (or not) keeps the positions increasing |
| Sequences.ExtendedMembers | log_analyzer.py:61-62 | after the step the earlier positions are unchanged and the new one is present exactly when kept |
| Sequences.FilterIndices | log_analyzer.py:82-84 | a filter's result is the subsequence at increasing positions that are exactly those satisfying the condition |
| Sequences.FilterStep | log_analyzer.py:82-84 | the position facts of a filter carry over to one more element |
| Sequences.FilterStepValues | log_analyzer.py:82-84 | after one more element each listed position still holds the corresponding result |
| Sequences.FilterMembers | log_analyzer.py:82-84 | an element is in a filter's result exactly when it is in the input and satisfies the condition |
| Sequences.FilterAppend | log_analyzer.py:82-84 | filtering a concatenation is concatenating the filters |
| Sequences.SomesIndices | log_analyzer.py:59-62 | the kept results are the subsequence at increasing positions that are exactly the non-None ones |
| Sequences.SomesStep | log_analyzer.py:59-62 | the position facts of the kept results carry over to one more element |
| Sequences.SomesStepValues | log_analyzer.py:59-62 | after one more element each listed position still holds the corresponding kept result |
| Sequences.SomesAppend | log_analyzer.py:59-62 | keeping the results of a concatenation is concatenating the kept results |
| Sequences.SomesAllSome | log_analyzer.py:59-62 | when every result is present, the kept results are all of them |
| Sequences.CountAppend | log_analyzer.py:69 | a count over a concatenation is the sum of the counts |
| Sequences.CountPermutation | log_analyzer.py:69 | permutations have the same counts |
| Sequences.RemoveMatching | log_analyzer.py:69 | removing the same element from two permutations leaves permutations |
| Sequences.CountRemove | log_analyzer.py:69 | removing one element lowers the count by one exactly when it satisfies the condition |
| Sequences.CountSingle | log_analyzer.py:69 | a one-element count is 1 or 0 by the condition |

## Left out

- `main()` in both scripts (log_analyzer.py:95-149, log.py:80-134) is left out: it covers the prompts, upper-casing the user's level,
  parsing the prompted dates and printing. Its use of `counts.get(level, 0)` is modelled by `CountOf`.
- The file checks and file handling are left out. This covers `os.path.exists`, `os.stat(...).st_size`, `open`, and iterating a file object
  (log_analyzer.py:50-58, log.py:15-23). The input is the sequence of lines read. A missing or empty file returns `[]`, which
  `NoLinesNoRecords` covers for the empty case.
- The `print` of each warning is modelled as a returned list of `Warning(lineNumber, strippedLine)` values, in the
  order printed. The console itself is not modelled.
- `SaveFilteredLogs` returns the text of each `file.write` call rather than writing a file. `save_filtered_logs` in
  log.py:72-77 is the same code and is modelled by the same member.
- `LogAnalyzer.ReadBackSaved` takes each `file.write` call as one line of the re-read file. It therefore requires messages
  without '\n' or '\r', because reading in text mode ends a line at either. A message holding one would come back as
  several lines. The round trip also relies on `FormatTimestamp`'s four-digit year. Where `%Y` does not zero-pad years
  below 1000, a saved timestamp of such a year is rejected when it is read back.
- `Timestamps.ParseTimestamp` accepts only the strict zero-padded form with ASCII digits. Python's `strptime` also accepts
  single-digit fields, Unicode digits, and other whitespace at the date/time separator, since `strptime` reads the
  format's space as any run of whitespace. For those lines the model rejects a line that Python would accept.
- `Timestamps.FormatTimestamp` pads the year to four digits. C libraries differ on `%Y` for years below 1000.
- Microseconds and time zones are left out: parsed timestamps never carry them.
- `Counter` internals are left out. The counter is a map holding only the levels that occur, and a missing level reads as 0.
- The model orders the checks as the code does: the field count first, then the level (log_analyzer.py:30-31, log.py:37-38), then the
  timestamp.
- `Exception` catching: the model's rejections are the three `ValueError`s the code can raise. Nothing else in the
  parser raises.
