/**
 * The parse-and-query pipeline of `log_analyzer.py`: a line parser, the
 * loop that collects parsed records in line order, a per-level counter,
 * the most recent record of a level, a date-range filter and the line
 * format used to save records.
 */
module LogAnalyzer {
  import opened Options
  import opened Text
  import opened Calendar
  import opened Timestamps
  import opened Sequences

  /** The members of VALID_LOG_LEVELS. */
  datatype Level = INFO | WARNING | ERROR | DEBUG

  /** The spelling of each level in a log line. */
  function LevelName(l: Level): (s: string)
    ensures s != [] && ' ' !in s
  {
    match l
    case INFO => "INFO"
    case WARNING => "WARNING"
    case ERROR => "ERROR"
    case DEBUG => "DEBUG"
  }

  /** `is_valid_log_level`: membership in VALID_LOG_LEVELS, case-sensitive. */
  function IsValidLogLevel(level: string): (r: bool)
    ensures r <==> exists l: Level :: LevelName(l) == level
  {
    assert LevelName(INFO) == "INFO" && LevelName(WARNING) == "WARNING";
    assert LevelName(ERROR) == "ERROR" && LevelName(DEBUG) == "DEBUG";
    level == "INFO" || level == "WARNING" || level == "ERROR" || level == "DEBUG"
  }

  /** The level a valid level field names. */
  function ParseLevel(field: string): (r: Option<Level>)
    ensures r.Some? <==> IsValidLogLevel(field)
    ensures r.Some? ==> LevelName(r.value) == field
  {
    if field == "INFO" then Some(INFO)
    else if field == "WARNING" then Some(WARNING)
    else if field == "ERROR" then Some(ERROR)
    else if field == "DEBUG" then Some(DEBUG)
    else None
  }

  /** One parsed log entry, the tuple `(timestamp, level, message)`. */
  datatype LogRecord = LogRecord(timestamp: DateTime, level: Level, message: string)

  /**
   * What every record the parser produces satisfies: a timestamp Python's
   * `datetime` accepts, and a message that is non-empty and does not end
   * in whitespace, because the line was stripped.
   */
  predicate WellFormed(r: LogRecord) {
    IsValidDateTime(r.timestamp) && r.message != [] && !IsSpace(r.message[|r.message| - 1])
  }

  /** `f"{timestamp_str} {log[1]} {log[2]}"`, the record as one line of text. */
  function RecordText(r: LogRecord): string {
    FormatTimestamp(r.timestamp) + " " + LevelName(r.level) + " " + r.message
  }

  /** The line `save_filtered_logs` writes for a record. */
  function FormatLogLine(r: LogRecord): string {
    RecordText(r) + "\n"
  }

  /** Why a non-blank line was skipped, in the order the parser checks. */
  datatype Rejection = MalformedEntry | InvalidLevel | InvalidTimestamp

  /**
   * The outcome of `parse_log_line`: a blank line (None, silently), a
   * rejected line (None, after printing a warning) or a record.
   */
  datatype LineResult = Blank | Rejected(reason: Rejection) | Parsed(record: LogRecord)

  /** The checks on the four fields of a line, the level before the timestamp. */
  function ParseFields(date: string, time: string, levelField: string, message: string): (r: LineResult)
    ensures r.Parsed? ==> LevelName(r.record.level) == levelField && r.record.message == message
    ensures r.Parsed? ==> FormatTimestamp(r.record.timestamp) == date + " " + time
    ensures !r.Blank? && r != Rejected(MalformedEntry)
  {
    match ParseLevel(levelField)
    case None => Rejected(InvalidLevel)
    case Some(level) =>
      match ParseTimestamp(date + " " + time)
      case None => Rejected(InvalidTimestamp)
      case Some(t) =>
        FormatParsed(date + " " + time);
        Parsed(LogRecord(t, level, message))
  }

  /**
   * `parse_log_line`: strip the line; a blank line is no record; split it
   * at the first three single spaces; fewer than four fields is malformed;
   * then the fields are checked.
   */
  function ParseLine(line: string): (r: LineResult)
    ensures r.Blank? <==> AllSpace(line)
  {
    StripSpec(line);
    var s := Strip(line);
    if s == [] then Blank
    else
      var parts := SplitN(s, 3);
      if |parts| < 4 then Rejected(MalformedEntry)
      else ParseFields(parts[0], parts[1], parts[2], parts[3])
  }

  /**
   * A parsed record is the stripped line read back: its text is exactly
   * the stripped line, so the message is everything after the third space,
   * non-empty and without trailing whitespace.
   */
  lemma ParseLineSound(line: string)
    requires ParseLine(line).Parsed?
    ensures WellFormed(ParseLine(line).record)
    ensures RecordText(ParseLine(line).record) == Strip(line)
  {
    var s := Strip(line);
    var parts := SplitN(s, 3);
    var r := ParseLine(line).record;
    assert |parts| == 4 && ParseFields(parts[0], parts[1], parts[2], parts[3]) == Parsed(r);
    StripSpec(line);
    SplitJoin(s, 3);
    JoinFour(parts);
    assert RecordText(r) == s;
    FinalFieldEnds(parts[0] + " " + parts[1] + " " + parts[2], parts[3]);
  }

  /** A line with fewer than three single spaces after stripping has fewer than four fields and is malformed. */
  lemma FewFieldsMalformed(line: string)
    ensures ParseLine(line) == Rejected(MalformedEntry)
            <==> !AllSpace(line) && SpaceCount(Strip(line)) < 3
  {
    SplitFieldCount(Strip(line), 3);
  }

  /**
   * The level is checked before the timestamp: a four-field line whose
   * third field is not a level is rejected as such whatever its timestamp,
   * and a timestamp rejection implies the level was valid.
   */
  lemma LevelCheckedFirst(line: string)
    requires !AllSpace(line) && |SplitN(Strip(line), 3)| == 4
    ensures ParseLine(line) == Rejected(InvalidLevel) <==> !IsValidLogLevel(SplitN(Strip(line), 3)[2])
    ensures ParseLine(line) == Rejected(InvalidTimestamp) ==> IsValidLogLevel(SplitN(Strip(line), 3)[2])
  {
  }

  /** The rendered line strips to the record's text: it starts with a digit and the message ends in a non-space. */
  lemma StripRendered(r: LogRecord)
    requires WellFormed(r)
    ensures Strip(FormatLogLine(r)) == RecordText(r)
  {
    var text := RecordText(r);
    assert text[|text| - 1] == r.message[|r.message| - 1];
    assert text[0] == FormatTimestamp(r.timestamp)[0];
    StripPadded([], text, "\n");
    assert [] + text + "\n" == FormatLogLine(r);
  }

  /** The record's text splits into the date, the time, the level name and the whole message. */
  lemma SplitRendered(r: LogRecord)
    ensures SplitN(RecordText(r), 3)
            == [FormatDate(r.timestamp), FormatTime(r.timestamp), LevelName(r.level), r.message]
  {
    var date, time := FormatDate(r.timestamp), FormatTime(r.timestamp);
    assert RecordText(r) == date + " " + time + " " + LevelName(r.level) + " " + r.message;
    SplitFour(date, time, LevelName(r.level), r.message);
  }

  /** The fields of a record's text pass both checks and give the record. */
  lemma FieldsRendered(r: LogRecord)
    requires IsValidDateTime(r.timestamp)
    ensures ParseFields(FormatDate(r.timestamp), FormatTime(r.timestamp), LevelName(r.level), r.message) == Parsed(r)
  {
    ParseFormatted(r.timestamp);
    assert ParseLevel(LevelName(r.level)) == Some(r.level) by {
      match r.level
      case INFO =>
      case WARNING =>
      case ERROR =>
      case DEBUG =>
    }
  }

  /** Rendering a record and parsing the line gives the record back. */
  lemma ParseRendered(r: LogRecord)
    requires WellFormed(r)
    ensures ParseLine(FormatLogLine(r)) == Parsed(r)
  {
    StripRendered(r);
    SplitRendered(r);
    FieldsRendered(r);
  }

  /**
   * `parse_log_line`'s return value: the record, or None for a blank or
   * rejected line.
   */
  function AsOption(r: LineResult): Option<LogRecord> {
    if r.Parsed? then Some(r.record) else None
  }

  /** `parse_log_line(line, n)` on one line. */
  function LineOutcome(line: string): Option<LogRecord> {
    AsOption(ParseLine(line))
  }

  /**
   * What `parse_log_line` returns, in both directions: a line gives the
   * record `r` exactly when `r` is well formed and its text is the
   * stripped line.
   */
  lemma LineOutcomeSpec(line: string, r: LogRecord)
    ensures LineOutcome(line) == Some(r) <==> WellFormed(r) && RecordText(r) == Strip(line)
  {
    if LineOutcome(line) == Some(r) {
      ParseLineSound(line);
    }
    if WellFormed(r) && RecordText(r) == Strip(line) {
      StripRendered(r);
      ParseRendered(r);
      assert ParseLine(line) == ParseLine(FormatLogLine(r));
    }
  }

  /** `parse_log_line(line, n)` for each line of the file, in order. */
  function Outcomes(lines: seq<string>): seq<Option<LogRecord>> {
    Map(lines, LineOutcome)
  }

  /** The records `read_and_parse_logs` returns for the lines of a file: the non-None parses, in line order. */
  function ParsedRecords(lines: seq<string>): seq<LogRecord> {
    Somes(Outcomes(lines))
  }

  /** A warning printed for a skipped line: its 1-based number and its stripped text. */
  datatype Warning = Warning(lineNumber: nat, text: string)

  /** The warnings printed while reading the lines: one per rejected line, numbered from 1, in line order. */
  function Warnings(lines: seq<string>): (ws: seq<Warning>)
    ensures |ws| <= |lines|
  {
    if lines == [] then []
    else
      var line := lines[|lines| - 1];
      Warnings(lines[..|lines| - 1])
      + (if ParseLine(line).Rejected? then [Warning(|lines|, Strip(line))] else [])
  }

  /** Reading one more line appends that line's parse, if any, and its warning, if any. */
  lemma ReadStep(lines: seq<string>, k: nat)
    requires k < |lines|
    ensures ParsedRecords(lines[..k + 1])
            == ParsedRecords(lines[..k]) + (if ParseLine(lines[k]).Parsed? then [ParseLine(lines[k]).record] else [])
    ensures Warnings(lines[..k + 1])
            == Warnings(lines[..k]) + (if ParseLine(lines[k]).Rejected? then [Warning(k + 1, Strip(lines[k]))] else [])
  {
    var prefix := lines[..k + 1];
    assert prefix[..k] == lines[..k];
    MapPrefix(prefix, LineOutcome, k);
    var o := Outcomes(prefix);
    assert o == o[..k] + [LineOutcome(lines[k])];
  }

  /**
   * `read_and_parse_logs` once the file is open: parse each line, numbered
   * from 1, and append what parses.  The prints become the returned list
   * of warnings.
   */
  method ReadAndParseLogs(lines: seq<string>) returns (logs: seq<LogRecord>, warnings: seq<Warning>)
    ensures logs == ParsedRecords(lines)
    ensures warnings == Warnings(lines)
  {
    logs, warnings := [], [];
    for lineNumber := 1 to |lines| + 1
      invariant logs == ParsedRecords(lines[..lineNumber - 1])
      invariant warnings == Warnings(lines[..lineNumber - 1])
    {
      var line := lines[lineNumber - 1];
      ReadStep(lines, lineNumber - 1);
      var parsed := ParseLine(line);
      if parsed.Parsed? {
        logs := logs + [parsed.record];
      } else if parsed.Rejected? {
        warnings := warnings + [Warning(lineNumber, Strip(line))];
      }
    }
    assert lines[..|lines|] == lines;
  }

  /** No lines, no records: an empty file gives an empty list. */
  lemma NoLinesNoRecords()
    ensures ParsedRecords([]) == [] && Warnings([]) == []
  {
  }

  /** A blank or whitespace-only line adds neither a record nor a warning. */
  lemma BlankLineSkipped(lines: seq<string>, line: string)
    requires AllSpace(line)
    ensures ParsedRecords(lines + [line]) == ParsedRecords(lines)
    ensures Warnings(lines + [line]) == Warnings(lines)
  {
    var all := lines + [line];
    assert all[..|lines|] == lines && all[..|lines| + 1] == all && all[|lines|] == line;
    ReadStep(all, |lines|);
  }

  /** Reading the concatenation of two line sequences is reading each in turn. */
  lemma ParsedRecordsAppend(a: seq<string>, b: seq<string>)
    ensures ParsedRecords(a + b) == ParsedRecords(a) + ParsedRecords(b)
  {
    MapAppend(a, b, LineOutcome);
    SomesAppend(Outcomes(a), Outcomes(b));
  }

  /**
   * The records are exactly the parsed lines, as an order-preserving
   * subsequence: `idx` lists, increasing, the positions of the lines that
   * parse, and the q-th record is what line `idx[q]` parses to.  So there
   * are at most as many records as lines.
   */
  lemma ParsedRecordsIndices(lines: seq<string>) returns (idx: seq<nat>)
    ensures |idx| == |ParsedRecords(lines)| <= |lines|
    ensures IncreasingBelow(idx, |lines|)
    ensures forall q | 0 <= q < |idx| :: ParseLine(lines[idx[q]]) == Parsed(ParsedRecords(lines)[q])
    ensures forall j | 0 <= j < |lines| :: ParseLine(lines[j]).Parsed? <==> j in idx
  {
    var o := Outcomes(lines);
    idx := SomesIndices(o);
    forall q | 0 <= q < |idx| ensures ParseLine(lines[idx[q]]) == Parsed(ParsedRecords(lines)[q]) {
      assert o[idx[q]] == LineOutcome(lines[idx[q]]);
    }
    forall j | 0 <= j < |lines| ensures ParseLine(lines[j]).Parsed? <==> j in idx {
      assert o[j] == LineOutcome(lines[j]);
    }
  }

  /** Every record read from a file is well formed: a valid timestamp and a stripped, non-empty message. */
  lemma ParsedRecordsWellFormed(lines: seq<string>)
    ensures forall i | 0 <= i < |ParsedRecords(lines)| :: WellFormed(ParsedRecords(lines)[i])
  {
    var idx := ParsedRecordsIndices(lines);
    forall i | 0 <= i < |ParsedRecords(lines)| ensures WellFormed(ParsedRecords(lines)[i]) {
      ParseLineSound(lines[idx[i]]);
    }
  }

  /** The lines `save_filtered_logs` writes, one per record in order. */
  function Rendered(logs: seq<LogRecord>): seq<string> {
    Map(logs, FormatLogLine)
  }

  /** `save_filtered_logs` without the file: the text of each `file.write` call, in order. */
  method SaveFilteredLogs(filtered: seq<LogRecord>) returns (written: seq<string>)
    ensures written == Rendered(filtered)
  {
    written := [];
    for i := 0 to |filtered|
      invariant written == Rendered(filtered[..i])
    {
      written := written + [FormatLogLine(filtered[i])];
    }
    assert filtered[..|filtered|] == filtered;
  }

  /**
   * The message holds no line break: reading a file in text mode ends a
   * line at '\n' and at '\r', so only such a record is written as exactly
   * one line of the file.
   */
  predicate OnOneLine(r: LogRecord) {
    '\n' !in r.message && '\r' !in r.message
  }

  /**
   * Reading back what was saved gives the saved records, so a read store
   * survives a save and a re-read, when each message fits on one line.
   */
  lemma ReadBackSaved(logs: seq<LogRecord>)
    requires forall i | 0 <= i < |logs| :: WellFormed(logs[i]) && OnOneLine(logs[i])
    ensures ParsedRecords(Rendered(logs)) == logs
  {
    var lines := Rendered(logs);
    var o := Outcomes(lines);
    forall i | 0 <= i < |logs| ensures o[i] == Some(logs[i]) {
      ParseRendered(logs[i]);
      assert lines[i] == FormatLogLine(logs[i]);
      assert o[i] == LineOutcome(lines[i]);
    }
    SomesAllSome(o, logs);
  }

  /**
   * The condition `log[1] == level` on a record, for a level given as a
   * value: the Counter's keys are the levels themselves.  It is kept apart
   * from HasLevel, whose level is the caller's string (which may name no
   * level), so that counting needs no reasoning about spellings;
   * LevelConditionsAgree shows the two coincide on a level's own name.
   */
  function IsLevel(l: Level): LogRecord -> bool {
    (r: LogRecord) => r.level == l
  }

  /** The number of records with level `l`. */
  function Occurrences(logs: seq<LogRecord>, l: Level): nat {
    Count(logs, IsLevel(l))
  }

  /**
   * `count_log_levels`, a Counter over the levels: it holds exactly the
   * levels that occur, each with its number of occurrences.
   */
  function CountLogLevels(logs: seq<LogRecord>): (counts: map<Level, nat>)
    ensures forall l: Level :: l in counts <==> Occurrences(logs, l) > 0
    ensures forall l | l in counts :: counts[l] == Occurrences(logs, l)
  {
    if logs == [] then map[]
    else
      var counts := CountLogLevels(logs[..|logs| - 1]);
      var l := logs[|logs| - 1].level;
      counts[l := (if l in counts then counts[l] else 0) + 1]
  }

  /** `counts.get(level, 0)`. */
  function CountOf(counts: map<Level, nat>, l: Level): nat {
    if l in counts then counts[l] else 0
  }

  lemma {:induction false} OccurrencesSum(logs: seq<LogRecord>)
    ensures Occurrences(logs, INFO) + Occurrences(logs, WARNING)
            + Occurrences(logs, ERROR) + Occurrences(logs, DEBUG) == |logs|
  {
    if logs != [] {
      OccurrencesSum(logs[..|logs| - 1]);
    }
  }

  /** The four counts, missing levels read as 0, add up to the number of records. */
  lemma CountsSumToLength(logs: seq<LogRecord>)
    ensures var counts := CountLogLevels(logs);
            CountOf(counts, INFO) + CountOf(counts, WARNING)
            + CountOf(counts, ERROR) + CountOf(counts, DEBUG) == |logs|
  {
    OccurrencesSum(logs);
  }

  /** The counts depend only on which records there are, not on their order. */
  lemma CountsIndependentOfOrder(a: seq<LogRecord>, b: seq<LogRecord>)
    requires multiset(a) == multiset(b)
    ensures CountLogLevels(a) == CountLogLevels(b)
  {
    forall l: Level ensures Occurrences(a, l) == Occurrences(b, l) {
      CountPermutation(a, b, IsLevel(l));
    }
    assert CountLogLevels(a).Keys == CountLogLevels(b).Keys;
  }

  /** The condition `log[1] == level` of `find_most_recent_log`, with the level as the caller's string. */
  function HasLevel(level: string): LogRecord -> bool {
    (r: LogRecord) => LevelName(r.level) == level
  }

  /** For a level's own name, the string condition and the value condition select the same records. */
  lemma LevelConditionsAgree(l: Level, r: LogRecord)
    ensures HasLevel(LevelName(l))(r) <==> IsLevel(l)(r)
  {
    match l
    case INFO =>
    case WARNING =>
    case ERROR =>
    case DEBUG =>
  }

  /**
   * `max(records, key=lambda x: x[0])`: the position of the element Python's
   * max returns.  Its timestamp is at least every other, and it is the
   * first such element: every earlier one is strictly older.  The
   * comparison is a total order on timestamps (Calendar.TimestampOrder),
   * so this position exists and is unique.
   */
  function MaxIndex(records: seq<LogRecord>): (k: nat)
    requires records != []
    ensures k < |records|
    ensures forall j | 0 <= j < |records| :: NotAfter(records[j].timestamp, records[k].timestamp)
    ensures forall j | 0 <= j < k :: Before(records[j].timestamp, records[k].timestamp)
  {
    if |records| == 1 then 0
    else
      var n := |records|;
      var k := MaxIndex(records[..n - 1]);
      assert forall j | 0 <= j < n - 1 :: records[j] == records[..n - 1][j];
      if Before(records[k].timestamp, records[n - 1].timestamp) then n - 1 else k
  }

  /** A timestamp at least every other in a sequence is at least that of each member. */
  lemma MaxOfMembers(records: seq<LogRecord>, k: nat)
    requires k < |records|
    requires forall j | 0 <= j < |records| :: NotAfter(records[j].timestamp, records[k].timestamp)
    ensures forall x | x in records :: NotAfter(x.timestamp, records[k].timestamp)
  {
  }

  /**
   * `find_most_recent_log`: None exactly when no record has the level;
   * otherwise a record of that level whose timestamp is at least that of
   * every record of the level.
   */
  function FindMostRecentLog(logs: seq<LogRecord>, level: string): (r: Option<LogRecord>)
    ensures r.None? <==> forall i | 0 <= i < |logs| :: LevelName(logs[i].level) != level
    ensures r.Some? ==> r.value in logs && LevelName(r.value.level) == level
    ensures r.Some? ==> forall i | 0 <= i < |logs| && LevelName(logs[i].level) == level ::
                          NotAfter(logs[i].timestamp, r.value.timestamp)
  {
    var filtered := Filter(logs, HasLevel(level));
    FilterMembers(logs, HasLevel(level));
    assert forall i | 0 <= i < |logs| :: HasLevel(level)(logs[i]) ==> logs[i] in filtered by {
      forall i | 0 <= i < |logs| ensures HasLevel(level)(logs[i]) ==> logs[i] in filtered {
        assert logs[i] in logs;
      }
    }
    if filtered == [] then
      None
    else
      var k := MaxIndex(filtered);
      assert filtered[k] in filtered;
      MaxOfMembers(filtered, k);
      Some(filtered[k])
  }

  /**
   * Ties go to the earliest record: if `logs[k]` has the level, a
   * timestamp no record of the level exceeds, and every earlier record of
   * the level is strictly older, then it is the record returned.
   */
  lemma MostRecentIsFirstMaximal(logs: seq<LogRecord>, level: string, k: nat)
    requires k < |logs| && LevelName(logs[k].level) == level
    requires forall j | 0 <= j < |logs| && LevelName(logs[j].level) == level ::
               NotAfter(logs[j].timestamp, logs[k].timestamp)
    requires forall j | 0 <= j < k && LevelName(logs[j].level) == level ::
               Before(logs[j].timestamp, logs[k].timestamp)
    ensures FindMostRecentLog(logs, level) == Some(logs[k])
  {
    var p := HasLevel(level);
    var filtered := Filter(logs, p);
    var idx := FilterIndices(logs, p);
    var m := MaxIndex(filtered);
    SelectedOrder(logs, p, idx, m);
    assert p(logs[k]);
    var q :| 0 <= q < |idx| && idx[q] == k;
    assert q == m by {
      assert p(logs[idx[m]]);
    }
  }

  /**
   * Ties go to the earliest record, the other way round: the record
   * returned sits at a position `k` where it has the level, no record of
   * the level is more recent, and every earlier record of the level is
   * strictly older.
   */
  lemma MostRecentPosition(logs: seq<LogRecord>, level: string) returns (k: nat)
    requires FindMostRecentLog(logs, level).Some?
    ensures k < |logs| && logs[k] == FindMostRecentLog(logs, level).value
    ensures LevelName(logs[k].level) == level
    ensures forall j | 0 <= j < |logs| && LevelName(logs[j].level) == level ::
              NotAfter(logs[j].timestamp, logs[k].timestamp)
    ensures forall j | 0 <= j < k && LevelName(logs[j].level) == level ::
              Before(logs[j].timestamp, logs[k].timestamp)
  {
    var p := HasLevel(level);
    var filtered := Filter(logs, p);
    var idx := FilterIndices(logs, p);
    var m := MaxIndex(filtered);
    k := idx[m];
    SelectedOrder(logs, p, idx, m);
  }

  /**
   * Where the filtered sequence's maximum sits in the original: every
   * selected record is no more recent, and every one selected before it is
   * strictly older.
   */
  lemma SelectedOrder(logs: seq<LogRecord>, p: LogRecord -> bool, idx: seq<nat>, m: nat)
    requires IncreasingBelow(idx, |logs|)
    requires |idx| == |Filter(logs, p)|
    requires forall q | 0 <= q < |idx| :: logs[idx[q]] == Filter(logs, p)[q]
    requires forall j | 0 <= j < |logs| :: p(logs[j]) <==> j in idx
    requires m < |idx|
    requires forall j | 0 <= j < |idx| :: NotAfter(Filter(logs, p)[j].timestamp, Filter(logs, p)[m].timestamp)
    requires forall j | 0 <= j < m :: Before(Filter(logs, p)[j].timestamp, Filter(logs, p)[m].timestamp)
    ensures forall j | 0 <= j < |logs| && p(logs[j]) :: NotAfter(logs[j].timestamp, logs[idx[m]].timestamp)
    ensures forall j | 0 <= j < idx[m] && p(logs[j]) :: Before(logs[j].timestamp, logs[idx[m]].timestamp)
  {
    forall j | 0 <= j < |logs| && p(logs[j])
      ensures NotAfter(logs[j].timestamp, logs[idx[m]].timestamp)
    {
      var q :| 0 <= q < |idx| && idx[q] == j;
    }
    forall j | 0 <= j < idx[m] && p(logs[j])
      ensures Before(logs[j].timestamp, logs[idx[m]].timestamp)
    {
      var q :| 0 <= q < |idx| && idx[q] == j;
      assert q < m;
    }
  }

  /** The condition of `filter_logs_by_date`: the record's calendar date lies within the inclusive bounds. */
  function WithinDates(start: Date, end: Date): LogRecord -> bool {
    (r: LogRecord) => DateNotAfter(start, DateOf(r.timestamp)) && DateNotAfter(DateOf(r.timestamp), end)
  }

  /**
   * `filter_logs_by_date`: a record is kept exactly when it is one of the
   * records and its date lies within `[start, end]`.
   */
  function FilterLogsByDate(logs: seq<LogRecord>, start: Date, end: Date): (r: seq<LogRecord>)
    ensures |r| <= |logs|
    ensures forall x :: x in r <==> x in logs && DateNotAfter(start, DateOf(x.timestamp)) && DateNotAfter(DateOf(x.timestamp), end)
  {
    FilterMembers(logs, WithinDates(start, end));
    Filter(logs, WithinDates(start, end))
  }

  /**
   * The kept records stay in their original order: the q-th result is the
   * record at `idx[q]`, and `idx` holds, increasing, exactly the positions
   * whose record's date lies in the range.
   */
  lemma FilterLogsByDateIndices(logs: seq<LogRecord>, start: Date, end: Date) returns (idx: seq<nat>)
    ensures |idx| == |FilterLogsByDate(logs, start, end)|
    ensures IncreasingBelow(idx, |logs|)
    ensures forall q | 0 <= q < |idx| :: logs[idx[q]] == FilterLogsByDate(logs, start, end)[q]
    ensures forall j | 0 <= j < |logs| ::
              (DateNotAfter(start, DateOf(logs[j].timestamp)) && DateNotAfter(DateOf(logs[j].timestamp), end)) <==> j in idx
  {
    idx := FilterIndices(logs, WithinDates(start, end));
  }

  /** A start date after the end date selects nothing. */
  lemma FilterEmptyRange(logs: seq<LogRecord>, start: Date, end: Date)
    ensures DateBefore(end, start) ==> FilterLogsByDate(logs, start, end) == []
  {
    var r := FilterLogsByDate(logs, start, end);
    if DateBefore(end, start) && r != [] {
      assert r[0] in r;
      DateOrder(start, DateOf(r[0].timestamp), end);
    }
  }

  /** A one-day range `[d, d]` keeps exactly the records dated `d`. */
  lemma FilterSingleDay(logs: seq<LogRecord>, d: Date)
    ensures forall x :: x in FilterLogsByDate(logs, d, d) <==> x in logs && DateOf(x.timestamp) == d
  {
    forall x: LogRecord ensures (DateNotAfter(d, DateOf(x.timestamp)) && DateNotAfter(DateOf(x.timestamp), d)) <==> DateOf(x.timestamp) == d {
      DateOrder(d, DateOf(x.timestamp), d);
    }
  }
}
