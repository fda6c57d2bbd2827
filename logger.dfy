/** The log lines, time stamps, log file names and run summaries of the
    Node command-line tool. Console and file output are left out: each
    operation yields the text it would print or append. */
module Logger {
  import opened Wrappers
  import opened Strings
  import opened Sorting

  const DefaultLevel: string := "INFO"

  // ---------------------------------------------------------------------
  // getJSTDateTime

  /** `getJSTDateTime` given the ISO text of the clock shifted to Japan
      time: the first `T` becomes a space and `.mmmZ` becomes ` JST`. */
  function JstDateTime(jstIso: string): string {
    ReplaceMillis(ReplaceFirst(jstIso, "T", " "), " JST")
  }

  /** `<date>T<time>.<mmm>Z` becomes `<date> <time> JST`. */
  lemma JstDateTimeShape(date: string, time: string, ms: string)
    requires 'T' !in date
    requires |ms| == 3 && IsDigit(ms[0]) && IsDigit(ms[1]) && IsDigit(ms[2])
    ensures JstDateTime(date + "T" + time + "." + ms + "Z") == date + " " + time + " JST"
  {
    var rest := time + "." + ms + "Z";
    assert date + "T" + time + "." + ms + "Z" == date + ['T'] + rest;
    ReplaceFirstAfter(date, 'T', rest, " ");
    var spaced := date + " " + rest;
    assert spaced == (date + " " + time) + "." + ms + "Z";
    assert spaced[..|spaced| - 5] == date + " " + time;
  }

  // ---------------------------------------------------------------------
  // log

  /** `log(message, level)`: the line printed and returned. */
  function LogLine(timestamp: string, message: string, level: Option<string>): string {
    Formatted(timestamp, if level.Some? then level.value else DefaultLevel, message)
  }

  function Formatted(timestamp: string, lvl: string, message: string): string {
    "[" + timestamp + "] [" + lvl + "] " + message
  }

  /** The index of the first `c` in `s`. */
  function IndexOf(s: string, c: char): (r: Option<nat>)
    ensures r.Some? ==> r.value < |s| && s[r.value] == c && c !in s[..r.value]
    ensures r.None? ==> c !in s
    decreases |s|
  {
    if s == [] then None
    else if s[0] == c then Some(0)
    else
      var r := IndexOf(s[1..], c);
      if r.Some? then
        assert s[..r.value + 1] == [s[0]] + s[1..][..r.value];
        Some(r.value + 1)
      else None
  }

  /** Reads a log line back: the time stamp, the level and the message. */
  function ParseLogLine(line: string): Option<(string, string, string)> {
    if line == [] || line[0] != '[' then None
    else
      var body := line[1..];
      match IndexOf(body, ']')
      case None => None
      case Some(i) =>
        var after := body[i + 1..];
        if |after| < 2 || after[..2] != " [" then None
        else
          var tail := after[2..];
          match IndexOf(tail, ']')
          case None => None
          case Some(j) =>
            if j + 1 < |tail| && tail[j + 1] == ' ' then Some((body[..i], tail[..j], tail[j + 2..]))
            else None
  }

  lemma IndexOfPrefix(a: string, c: char, b: string)
    requires c !in a
    ensures IndexOf(a + [c] + b, c) == Some(|a|)
  {
    var s := a + [c] + b;
    var r := IndexOf(s, c);
    assert s[|a|] == c;
    assert r.Some? && r.value == |a| by {
      if r.None? {
        assert false;
      } else if r.value < |a| {
        assert false;
      } else if r.value > |a| {
        assert false;
      }
    }
  }

  lemma FormattedRoundTrip(timestamp: string, lvl: string, message: string)
    requires ']' !in timestamp && ']' !in lvl
    ensures ParseLogLine(Formatted(timestamp, lvl, message)) == Some((timestamp, lvl, message))
  {
    var line := Formatted(timestamp, lvl, message);
    var body := line[1..];
    var tail := lvl + "] " + message;
    assert body == timestamp + [']'] + (" [" + tail);
    IndexOfPrefix(timestamp, ']', " [" + tail);
    assert body[|timestamp| + 1..] == " [" + tail;
    assert tail == lvl + [']'] + (" " + message);
    IndexOfPrefix(lvl, ']', " " + message);
    assert tail[|lvl| + 2..] == message;
    assert body[..|timestamp|] == timestamp;
    assert tail[..|lvl|] == lvl;
  }

  /** A log line gives back its time stamp, level (INFO when none was
      given) and message, whenever the stamp and level hold no `]`. */
  lemma LogLineRoundTrip(timestamp: string, message: string, level: Option<string>)
    requires ']' !in timestamp
    requires level.Some? ==> ']' !in level.value
    ensures ParseLogLine(LogLine(timestamp, message, level)) ==
      Some((timestamp, if level.Some? then level.value else DefaultLevel, message))
  {
    var lvl := if level.Some? then level.value else DefaultLevel;
    assert ']' !in lvl by {
      if level.None? {
        assert forall i :: 0 <= i < |DefaultLevel| ==> DefaultLevel[i] != ']';
      }
    }
    FormattedRoundTrip(timestamp, lvl, message);
  }

  // ---------------------------------------------------------------------
  // saveLog

  /** The default log file of a day: `log_` and the date part of the ISO
      time, `.txt`. */
  function DefaultLogName(iso: string): string {
    "log_" + Split(iso, 'T')[0] + ".txt"
  }

  lemma {:induction false} SplitFirst(date: string, rest: string, sep: char)
    requires sep !in date
    ensures Split(date + [sep] + rest, sep)[0] == date
    decreases |date|
  {
    if date == [] {
      assert date + [sep] + rest == [sep] + rest;
    } else {
      assert (date + [sep] + rest)[1..] == date[1..] + [sep] + rest;
      SplitFirst(date[1..], rest, sep);
    }
  }

  /** An ISO time `<date>T...` names the file `log_<date>.txt`. */
  lemma DefaultLogNameShape(date: string, time: string)
    requires 'T' !in date
    ensures DefaultLogName(date + "T" + time) == "log_" + date + ".txt"
  {
    assert date + "T" + time == date + ['T'] + time;
    SplitFirst(date, time, 'T');
  }

  function LogPath(cwd: string, filename: Option<string>, iso: string): string {
    var name := if filename.Some? && filename.value != "" then filename.value else DefaultLogName(iso);
    cwd + "/logs/" + name
  }

  /** `saveLog` on a map from paths to file texts: the message and a line
      break are appended where the write succeeds; a failed write is
      swallowed and changes nothing. */
  /** The text of the file at `p`, empty when there is none yet. */
  function LogText(files: map<string, string>, p: string): string {
    if p in files then files[p] else ""
  }

  function SaveLog(files: map<string, string>, cwd: string, message: string, filename: Option<string>,
                   iso: string, writable: bool): (r: map<string, string>)
    ensures forall p :: p in files && p != LogPath(cwd, filename, iso) ==> p in r && r[p] == files[p]
    ensures writable ==> (LogPath(cwd, filename, iso) in r &&
      EndsWith(r[LogPath(cwd, filename, iso)], message + "\n"))
    ensures writable ==> r == files[LogPath(cwd, filename, iso) := LogText(files, LogPath(cwd, filename, iso)) + message + "\n"]
    ensures !writable ==> r == files
  {
    if !writable then files
    else
      var p := LogPath(cwd, filename, iso);
      var before := LogText(files, p);
      var after := before + message + "\n";
      assert after[|after| - |message + "\n"|..] == message + "\n";
      files[p := after]
  }

  /** Appending twice keeps the earlier text and both messages, in order. */
  lemma SaveLogTwice(files: map<string, string>, cwd: string, m1: string, m2: string, filename: Option<string>, iso: string)
    ensures SaveLog(SaveLog(files, cwd, m1, filename, iso, true), cwd, m2, filename, iso, true)[LogPath(cwd, filename, iso)]
      == LogText(files, LogPath(cwd, filename, iso)) + m1 + "\n" + m2 + "\n"
  {
  }

  // ---------------------------------------------------------------------
  // generateSummary

  /** What the summary reads of a run's result: `success` and `skipped`,
      each as JavaScript truthiness. */
  datatype RunResult = RunResult(success: bool, skipped: bool)

  datatype Summary = Summary(total: nat, success: nat, failed: nat, skipped: nat)

  predicate Succeeded(r: RunResult) { r.success }
  predicate Failed(r: RunResult) { !r.success }
  predicate Skipped(r: RunResult) { r.skipped }

  function GenerateSummary(results: seq<RunResult>): Summary {
    Summary(|results|, |Filter(results, Succeeded)|, |Filter(results, Failed)|, |Filter(results, Skipped)|)
  }

  lemma {:induction false} SuccessFailedSplit(results: seq<RunResult>)
    ensures |Filter(results, Succeeded)| + |Filter(results, Failed)| == |results|
    ensures |Filter(results, Skipped)| <= |results|
    decreases |results|
  {
    if results != [] {
      SuccessFailedSplit(results[..|results| - 1]);
    }
  }

  /** Every result is a success or a failure, never both; the skipped
      count is taken apart and may overlap either. */
  lemma SummaryCounts(results: seq<RunResult>)
    ensures GenerateSummary(results).success + GenerateSummary(results).failed == GenerateSummary(results).total
    ensures GenerateSummary(results).skipped <= GenerateSummary(results).total
    ensures GenerateSummary([RunResult(true, true)]) == Summary(1, 1, 0, 1)
  {
    SuccessFailedSplit(results);
  }

  /** The lines of the summary message logged. */
  function SummaryLines(s: Summary, timestamp: string): seq<string> {
    ["", "=== 実行結果要約 ===", "総件数: " + NatToString(s.total), "成功: " + NatToString(s.success),
     "失敗: " + NatToString(s.failed), "スキップ: " + NatToString(s.skipped), "実行時刻: " + timestamp]
  }

  /** The summary message: a leading line break, then the lines. */
  function SummaryMessage(s: Summary, timestamp: string): string {
    var lines := SummaryLines(s, timestamp);
    "\n" + lines[1] + "\n" + Join(lines[2..], "\n")
  }

  lemma NoLineBreakInNumber(n: nat)
    ensures '\n' !in NatToString(n)
  {
    NatToStringDigits(n);
    var d := NatToString(n);
    forall i | 0 <= i < |d|
      ensures d[i] != '\n'
    {
      assert IsDigit(d[i]);
    }
  }

  lemma NoLineBreakInLabelled(prefix: string, n: nat)
    requires '\n' !in prefix
    ensures '\n' !in prefix + NatToString(n)
  {
    NoLineBreakInNumber(n);
  }

  /** Split at line breaks, the summary message gives back its lines, the
      first (before the leading break) empty. */
  lemma SummaryMessageLines(s: Summary, timestamp: string)
    requires '\n' !in timestamp
    ensures Split(SummaryMessage(s, timestamp), '\n') == SummaryLines(s, timestamp)
  {
    var lines := SummaryLines(s, timestamp);
    assert Join(lines, "\n") == lines[0] + "\n" + Join(lines[1..], "\n");
    assert Join(lines[1..], "\n") == lines[1] + "\n" + Join(lines[1..][1..], "\n");
    assert lines[1..][1..] == lines[2..];
    assert SummaryMessage(s, timestamp) == Join(lines, "\n");
    NoLineBreakInLabelled("総件数: ", s.total);
    NoLineBreakInLabelled("成功: ", s.success);
    NoLineBreakInLabelled("失敗: ", s.failed);
    NoLineBreakInLabelled("スキップ: ", s.skipped);
    assert forall i :: 0 <= i < |lines| ==> '\n' !in lines[i];
    SplitJoin(lines, '\n');
  }
}
