/**
 * The stand-alone script `log.py`: the same pipeline as `log_analyzer.py`
 * with the line parser written out inside the read loop.  Its queries are
 * the same definitions as in `LogAnalyzer`, and its `save_filtered_logs`
 * is `LogAnalyzer.SaveFilteredLogs`; what this module adds is the inlined
 * loop, proved to read a file exactly as the parser-based one does.
 */
module LogScript {
  import opened Options
  import opened Text
  import opened Calendar
  import opened Timestamps
  import opened LogAnalyzer
  import opened Sequences

  /**
   * `read_and_parse_logs` once the file is open.  Each line is stripped;
   * a blank line is skipped silently; a line with fewer than four fields,
   * an unknown level or an invalid timestamp is skipped with a warning;
   * anything else is appended.  The result is what the parser-based reader
   * gives for the same lines, and every record is well formed.
   */
  method ReadAndParseLogs(lines: seq<string>) returns (logs: seq<LogRecord>, warnings: seq<Warning>)
    ensures logs == ParsedRecords(lines)
    ensures warnings == Warnings(lines)
    ensures forall i | 0 <= i < |logs| :: WellFormed(logs[i]) && IsValidLogLevel(LevelName(logs[i].level))
  {
    logs, warnings := [], [];
    for lineNumber := 1 to |lines| + 1
      invariant logs == ParsedRecords(lines[..lineNumber - 1])
      invariant warnings == Warnings(lines[..lineNumber - 1])
    {
      ReadStep(lines, lineNumber - 1);
      var line := lines[lineNumber - 1];
      ghost var original := line;
      line := Strip(line);
      if line == [] {
        assert ParseLine(original) == Blank;
        continue;
      }
      var parts := SplitN(line, 3);
      if |parts| < 4 {
        assert ParseLine(original) == Rejected(MalformedEntry);
        warnings := warnings + [Warning(lineNumber, line)];
        continue;
      }
      var datePart, timePart, logLevel, message := parts[0], parts[1], parts[2], parts[3];
      assert ParseLine(original) == ParseFields(datePart, timePart, logLevel, message);
      var level := ParseLevel(logLevel);
      if level.None? {
        assert ParseLine(original) == Rejected(InvalidLevel);
        warnings := warnings + [Warning(lineNumber, line)];
        continue;
      }
      var timestamp := ParseTimestamp(datePart + " " + timePart);
      if timestamp.None? {
        assert ParseLine(original) == Rejected(InvalidTimestamp);
        warnings := warnings + [Warning(lineNumber, line)];
        continue;
      }
      assert ParseLine(original) == Parsed(LogRecord(timestamp.value, level.value, message));
      logs := logs + [LogRecord(timestamp.value, level.value, message)];
    }
    assert lines[..|lines|] == lines;
    ParsedRecordsWellFormed(lines);
  }

  /**
   * `count_log_levels` in `log.py`: each level's count, missing levels
   * read as 0, is its number of occurrences, and the four add up to the
   * number of records.
   */
  function CountLogLevels(logs: seq<LogRecord>): (counts: map<Level, nat>)
    ensures forall l: Level :: CountOf(counts, l) == Occurrences(logs, l)
    ensures CountOf(counts, INFO) + CountOf(counts, WARNING)
            + CountOf(counts, ERROR) + CountOf(counts, DEBUG) == |logs|
  {
    CountsSumToLength(logs);
    LogAnalyzer.CountLogLevels(logs)
  }

  /**
   * `find_most_recent_log` in `log.py`: None exactly when no record has
   * the level; otherwise a record of that level at least as recent as
   * every other, and the earliest such in list order.
   */
  function FindMostRecentLog(logs: seq<LogRecord>, level: string): (r: Option<LogRecord>)
    ensures r.None? <==> forall i | 0 <= i < |logs| :: LevelName(logs[i].level) != level
    ensures r.Some? ==> exists k | 0 <= k < |logs| :: logs[k] == r.value && LevelName(logs[k].level) == level
                          && (forall j | 0 <= j < |logs| && LevelName(logs[j].level) == level ::
                                NotAfter(logs[j].timestamp, logs[k].timestamp))
                          && (forall j | 0 <= j < k && LevelName(logs[j].level) == level ::
                                Before(logs[j].timestamp, logs[k].timestamp))
  {
    var r := LogAnalyzer.FindMostRecentLog(logs, level);
    if r.Some? then
      assert exists k | 0 <= k < |logs| :: logs[k] == r.value && LevelName(logs[k].level) == level
               && (forall j | 0 <= j < |logs| && LevelName(logs[j].level) == level ::
                     NotAfter(logs[j].timestamp, logs[k].timestamp))
               && (forall j | 0 <= j < k && LevelName(logs[j].level) == level ::
                     Before(logs[j].timestamp, logs[k].timestamp)) by {
        var k := MostRecentPosition(logs, level);
      }
      r
    else r
  }

  /**
   * `filter_logs_by_date` in `log.py`: the records whose date lies within
   * `[start, end]`, and none when the range is empty.
   */
  function FilterLogsByDate(logs: seq<LogRecord>, start: Date, end: Date): (r: seq<LogRecord>)
    ensures forall x :: x in r <==> x in logs && DateNotAfter(start, DateOf(x.timestamp)) && DateNotAfter(DateOf(x.timestamp), end)
    ensures DateBefore(end, start) ==> r == []
  {
    FilterEmptyRange(logs, start, end);
    LogAnalyzer.FilterLogsByDate(logs, start, end)
  }

  /**
   * The records kept by `log.py`'s filter stay in their original order
   * and keep their multiplicity: the q-th result is the record at
   * `idx[q]`, and `idx` holds, increasing, exactly the positions whose
   * record's date lies in the range.
   */
  lemma FilterLogsByDateOrder(logs: seq<LogRecord>, start: Date, end: Date) returns (idx: seq<nat>)
    ensures |idx| == |FilterLogsByDate(logs, start, end)|
    ensures IncreasingBelow(idx, |logs|)
    ensures forall q | 0 <= q < |idx| :: logs[idx[q]] == FilterLogsByDate(logs, start, end)[q]
    ensures forall j | 0 <= j < |logs| ::
              (DateNotAfter(start, DateOf(logs[j].timestamp)) && DateNotAfter(DateOf(logs[j].timestamp), end)) <==> j in idx
  {
    idx := FilterLogsByDateIndices(logs, start, end);
  }
}
