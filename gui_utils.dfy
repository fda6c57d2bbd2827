/** The GUI's helpers for posting times and the queue listing
    (gui/utils.py): the `postTime` and `fixedTimes` text fields are parsed,
    formatted and validated, and the `sns/` directory is listed. */
module GuiUtils {
  import opened Wrappers
  import opened Strings
  import opened Sorting
  import opened WorkflowOptimizer

  // ---------------------------------------------------------------------
  // postTime

  /** `parse_post_time`: the input without surrounding whitespace. */
  function ParsePostTime(input: string): (r: string)
    ensures r == [] <==> AllSpace(input, IsPySpace)
    ensures r != [] ==> !IsPySpace(r[0]) && !IsPySpace(r[|r| - 1])
    ensures |r| <= |input|
  {
    TrimShape(input, IsPySpace);
    TrimLength(input, IsPySpace);
    PyStrip(input)
  }

  lemma TrimLength(s: string, ws: char -> bool)
    ensures |Trim(s, ws)| <= |s|
  {
    TrimStartFront(s, ws);
    TrimEndBack(TrimStart(s, ws), ws);
  }

  /** Parsing an already parsed value changes nothing. */
  lemma ParsePostTimeIdempotent(input: string)
    ensures ParsePostTime(ParsePostTime(input)) == ParsePostTime(input)
  {
    TrimIdempotent(input, IsPySpace);
  }

  // ---------------------------------------------------------------------
  // fixedTimes

  /** `[t.strip() for t in parts if t.strip()]`. */
  function StrippedPieces(parts: seq<string>): (r: seq<string>)
    ensures |r| <= |parts|
    decreases |parts|
  {
    if parts == [] then []
    else
      var t := PyStrip(parts[0]);
      (if t == [] then [] else [t]) + StrippedPieces(parts[1..])
  }

  /** A field entry as the GUI keeps it: non-empty, stripped, without a
      comma. */
  predicate CleanEntry(x: string) {
    x != [] && !IsPySpace(x[0]) && !IsPySpace(x[|x| - 1]) && ',' !in x
  }

  /** Every kept piece is clean, given that no piece holds a comma. */
  lemma {:induction false} StrippedPiecesClean(parts: seq<string>)
    requires forall k :: 0 <= k < |parts| ==> ',' !in parts[k]
    ensures forall k :: 0 <= k < |StrippedPieces(parts)| ==> CleanEntry(StrippedPieces(parts)[k])
    decreases |parts|
  {
    if parts != [] {
      StrippedPiecesClean(parts[1..]);
      var t := PyStrip(parts[0]);
      TrimShape(parts[0], IsPySpace);
      TrimSubset(parts[0], IsPySpace);
    }
  }

  /** Trimming keeps a contiguous run of the input, so it adds no
      character. */
  lemma TrimSubset(s: string, ws: char -> bool)
    ensures forall c :: c in Trim(s, ws) ==> c in s
  {
    TrimStartFront(s, ws);
    var t := TrimStart(s, ws);
    TrimEndBack(t, ws);
    var i := |s| - |t|;
    var r := Trim(s, ws);
    forall c | c in r ensures c in s {
      var k :| 0 <= k < |r| && r[k] == c;
      assert r[k] == t[k] == s[i + k];
    }
  }

  /** Clean entries are kept as they are. */
  lemma {:induction false} StrippedPiecesOfClean(parts: seq<string>)
    requires forall k :: 0 <= k < |parts| ==> CleanEntry(parts[k])
    ensures StrippedPieces(parts) == parts
    decreases |parts|
  {
    if parts != [] {
      TrimNoop(parts[0], IsPySpace);
      StrippedPiecesOfClean(parts[1..]);
      assert parts == [parts[0]] + parts[1..];
    }
  }

  /** `parse_fixed_times`: the comma-separated pieces, stripped, with the
      empty ones dropped; nothing for a blank field. */
  function ParseFixedTimes(input: string): (r: seq<string>)
    ensures AllSpace(input, IsPySpace) ==> r == []
    ensures forall k :: 0 <= k < |r| ==> CleanEntry(r[k])
  {
    TrimShape(input, IsPySpace);
    if PyStrip(input) == [] then []
    else
      SplitPartsLackSeparator(input, ',');
      StrippedPiecesClean(Split(input, ','));
      StrippedPieces(Split(input, ','))
  }

  /** `format_fixed_times`. */
  function FormatFixedTimes(times: seq<string>): (r: string)
    ensures times == [] ==> r == ""
    ensures |times| == 1 ==> r == times[0]
  {
    Join(times, ",")
  }

  lemma JoinStart(parts: seq<string>, sep: string)
    requires parts != [] && parts[0] != []
    ensures Join(parts, sep) != [] && Join(parts, sep)[0] == parts[0][0]
  {
  }

  /** A list of clean entries survives formatting and parsing back. */
  lemma ParseFormatRoundTrip(times: seq<string>)
    requires forall k :: 0 <= k < |times| ==> CleanEntry(times[k])
    ensures ParseFixedTimes(FormatFixedTimes(times)) == times
  {
    if times != [] {
      var s := Join(times, ",");
      JoinStart(times, ",");
      TrimShape(s, IsPySpace);
      assert !AllSpace(s, IsPySpace);
      SplitJoin(times, ',');
      StrippedPiecesOfClean(times);
    }
  }

  /** What `format_times_for_display` shows for a non-empty list of clean
      entries parses back to that list: the blank after each comma is
      stripped again. */
  lemma ParseDisplayRoundTrip(times: seq<string>)
    requires times != []
    requires forall k :: 0 <= k < |times| ==> CleanEntry(times[k])
    ensures ParseFixedTimes(FormatTimesForDisplay(times)) == times
  {
    var spaced := [times[0]] + seq(|times| - 1, k requires 0 <= k < |times| - 1 => " " + times[k + 1]);
    JoinSpaced(times);
    var s := Join(times, ", ");
    JoinStart(spaced, ",");
    TrimShape(s, IsPySpace);
    assert !AllSpace(s, IsPySpace);
    forall k | 0 <= k < |spaced| ensures ',' !in spaced[k] {
      if k > 0 { assert spaced[k] == " " + times[k]; }
    }
    SplitJoin(spaced, ',');
    StrippedSpaced(times);
  }

  /** Joining with ", " is joining with "," after a blank is put before
      every entry but the first. */
  lemma {:induction false} JoinSpaced(times: seq<string>)
    requires times != []
    ensures Join(times, ", ")
      == Join([times[0]] + seq(|times| - 1, k requires 0 <= k < |times| - 1 => " " + times[k + 1]), ",")
    decreases |times|
  {
    var spaced := [times[0]] + seq(|times| - 1, k requires 0 <= k < |times| - 1 => " " + times[k + 1]);
    if |times| > 1 {
      var tail := times[1..];
      JoinSpaced(tail);
      var spacedTail := [tail[0]] + seq(|tail| - 1, k requires 0 <= k < |tail| - 1 => " " + tail[k + 1]);
      var rest := spaced[1..];
      assert rest[0] == " " + tail[0];
      assert rest[1..] == spacedTail[1..];
      JoinCons(spacedTail, rest, " ");
      calc {
        Join(times, ", ");
        times[0] + ", " + Join(tail, ", ");
        times[0] + ", " + Join(spacedTail, ",");
        { ConcatAssoc(times[0] + ",", " ", Join(spacedTail, ",")); }
        times[0] + "," + (" " + Join(spacedTail, ","));
        times[0] + "," + Join(rest, ",");
        Join(spaced, ",");
      }
    }
  }

  /** Putting `pre` before the first entry puts it before the join. */
  lemma JoinCons(parts: seq<string>, parts': seq<string>, pre: string)
    requires parts != [] && |parts'| == |parts|
    requires parts'[0] == pre + parts[0] && parts'[1..] == parts[1..]
    ensures Join(parts', ",") == pre + Join(parts, ",")
  {
    if |parts| > 1 {
      var rest := "," + Join(parts[1..], ",");
      assert Join(parts', ",") == parts'[0] + rest;
      assert Join(parts, ",") == parts[0] + rest;
      ConcatAssoc(pre, parts[0], rest);
    }
  }

  lemma {:induction false} StrippedSpaced(times: seq<string>)
    requires times != []
    requires forall k :: 0 <= k < |times| ==> CleanEntry(times[k])
    ensures StrippedPieces([times[0]] + seq(|times| - 1, k requires 0 <= k < |times| - 1 => " " + times[k + 1])) == times
  {
    var pieces := seq(|times| - 1, k requires 0 <= k < |times| - 1 => " " + times[k + 1]);
    TrimNoop(times[0], IsPySpace);
    StrippedBlankPrefixed(times[1..]);
    assert pieces == seq(|times[1..]|, k requires 0 <= k < |times[1..]| => " " + times[1..][k]);
    assert ([times[0]] + pieces)[1..] == pieces;
    assert times == [times[0]] + times[1..];
  }

  lemma {:induction false} StrippedBlankPrefixed(xs: seq<string>)
    requires forall k :: 0 <= k < |xs| ==> CleanEntry(xs[k])
    ensures StrippedPieces(seq(|xs|, k requires 0 <= k < |xs| => " " + xs[k])) == xs
    decreases |xs|
  {
    if xs != [] {
      var pieces := seq(|xs|, k requires 0 <= k < |xs| => " " + xs[k]);
      StripBlankPrefixed(xs[0]);
      StrippedBlankPrefixed(xs[1..]);
      assert pieces[1..] == seq(|xs[1..]|, k requires 0 <= k < |xs[1..]| => " " + xs[1..][k]);
      assert xs == [xs[0]] + xs[1..];
    }
  }

  lemma StripBlankPrefixed(x: string)
    requires CleanEntry(x)
    ensures PyStrip(" " + x) == x
  {
    assert (" " + x)[1..] == x;
    TrimNoop(x, IsPySpace);
  }

  // ---------------------------------------------------------------------
  // Validation

  /** `validate_time_format`: "auto", or two `:`-separated parts that
      `int()` accepts, an hour 0..23 and a minute 0..59. Every exception is
      caught, so the answer is always a Boolean. */
  function ValidateTimeFormat(t: string): (ok: bool)
    ensures t == "auto" ==> ok
  {
    if t == "auto" then true
    else
      var parts := Split(t, ':');
      if |parts| != 2 then false
      else
        match (PyInt(parts[0]), PyInt(parts[1]))
        case (Some(h), Some(m)) => 0 <= h <= 23 && 0 <= m <= 59
        case _ => false
    }

  /** `t` has exactly one colon, at `i`, and the text around it parses to an
      hour and a minute in range. */
  predicate ClockAt(t: string, i: nat) {
    && i < |t| && t[i] == ':'
    && ':' !in t[..i] && ':' !in t[i + 1..]
    && InRange(PyInt(t[..i]), 23) && InRange(PyInt(t[i + 1..]), 59)
  }

  predicate InRange(v: Option<int>, hi: int) {
    v.Some? && 0 <= v.value <= hi
  }

  /** The validator accepts exactly "auto" and the texts with a single
      colon between an hour and a minute in range. */
  lemma ValidateTimeFormatIff(t: string)
    ensures ValidateTimeFormat(t) <==> t == "auto" || exists i :: ClockAt(t, i)
  {
    if t != "auto" {
      if ValidateTimeFormat(t) {
        ClockIfValid(t);
      }
      if exists i :: ClockAt(t, i) {
        var i :| ClockAt(t, i);
        ValidIfClock(t, i);
      }
    }
  }

  lemma ClockIfValid(t: string)
    requires t != "auto" && ValidateTimeFormat(t)
    ensures ClockAt(t, |Split(t, ':')[0]|)
  {
    var parts := Split(t, ':');
    SplitPartsLackSeparator(t, ':');
    JoinSplit(t, ':');
    var i := |parts[0]|;
    assert t == parts[0] + ":" + parts[1];
    assert t[..i] == parts[0] && t[i + 1..] == parts[1];
  }

  lemma ValidIfClock(t: string, i: nat)
    requires t != "auto" && ClockAt(t, i)
    ensures ValidateTimeFormat(t)
  {
    assert t == t[..i] + ":" + t[i + 1..];
    SplitJoin([t[..i], t[i + 1..]], ':');
    assert Join([t[..i], t[i + 1..]], ":") == t[..i] + ":" + t[i + 1..];
  }

  /** Five-character `HH:MM` with in-range values is valid. */
  lemma ValidClock(t: string)
    requires |t| == 5 && t[2] == ':'
    requires IsDigit(t[0]) && IsDigit(t[1]) && IsDigit(t[3]) && IsDigit(t[4])
    requires 10 * (t[0] as int - '0' as int) + (t[1] as int - '0' as int) <= 23
    requires 10 * (t[3] as int - '0' as int) + (t[4] as int - '0' as int) <= 59
    ensures ValidateTimeFormat(t)
  {
    var hh, mm := t[..2], t[3..];
    assert ':' !in hh && ':' !in mm;
    TwoDigits(hh);
    TwoDigits(mm);
    assert ClockAt(t, 2);
    assert t != "auto";
    ValidIfClock(t, 2);
  }

  lemma TwoDigits(d: string)
    requires |d| == 2 && IsDigit(d[0]) && IsDigit(d[1])
    ensures PyInt(d) == Some(10 * (d[0] as int - '0' as int) + (d[1] as int - '0' as int))
  {
    assert d[..1][..0] == [] && d[..1][0] == d[0];
    assert DigitsValue(d[..1]) == d[0] as int - '0' as int;
    PyIntOfDigits(d);
  }

  /** A colon-free text (for instance a bare hour) is never valid, unless
      it is "auto". */
  lemma ValidateNeedsColon(t: string)
    requires ':' !in t && t != "auto"
    ensures !ValidateTimeFormat(t)
  {
    SplitNoSeparator(t, ':');
  }

  // ---------------------------------------------------------------------
  // The queue listing

  /** The path `str(file_path)` of an entry of `<cwd>/sns`. */
  function QueuePath(cwd: string, name: string): string {
    cwd + "/sns/" + name
  }

  /** The names `get_sns_files` keeps from the directory listing, in
      listing order: those that `*-sns.txt` matches and whose full path
      does not contain `posted`. */
  function Kept(cwd: string, listing: seq<string>): (r: seq<string>)
    decreases |listing|
  {
    if listing == [] then []
    else
      var name := listing[|listing| - 1];
      Kept(cwd, listing[..|listing| - 1])
        + (if EndsWith(name, "-sns.txt") && !Contains(QueuePath(cwd, name), "posted") then [name] else [])
  }

  lemma {:induction false} KeptMembers(cwd: string, listing: seq<string>)
    ensures forall n :: n in Kept(cwd, listing) <==>
      n in listing && EndsWith(n, "-sns.txt") && !Contains(QueuePath(cwd, n), "posted")
    decreases |listing|
  {
    if listing != [] {
      var init := listing[..|listing| - 1];
      KeptMembers(cwd, init);
      assert listing == init + [listing[|listing| - 1]];
    }
  }

  /** `get_sns_files` given the working directory, whether `sns/` exists,
      and the names the directory holds, in the order the file system
      lists them. */
  method GetSnsFiles(cwd: string, dirExists: bool, listing: seq<string>) returns (files: seq<string>)
    ensures !dirExists ==> files == []
    ensures dirExists ==> multiset(files) == multiset(Kept(cwd, listing))
    ensures SortedBy(files, StrLe)
  {
    if !dirExists {
      return [];
    }
    var kept: seq<string> := [];
    for i := 0 to |listing|
      invariant kept == Kept(cwd, listing[..i])
    {
      var name := listing[i];
      assert listing[..i + 1][..i] == listing[..i];
      if EndsWith(name, "-sns.txt") && !Contains(QueuePath(cwd, name), "posted") {
        kept := kept + [name];
      }
    }
    assert listing[..|listing|] == listing;
    StrLeIsTotalPreorder();
    files := Sort(kept, StrLe);
  }

  /** The listing holds exactly the queue files of the directory: names
      ending in `-sns.txt` whose path avoids `posted`, each as often as the
      directory lists it. */
  lemma SnsFilesMembers(cwd: string, listing: seq<string>, files: seq<string>)
    requires multiset(files) == multiset(Kept(cwd, listing))
    ensures forall n :: n in files <==>
      n in listing && EndsWith(n, "-sns.txt") && !Contains(QueuePath(cwd, n), "posted")
  {
    KeptMembers(cwd, listing);
    forall n ensures n in files <==> n in Kept(cwd, listing) {
      assert n in files <==> n in multiset(files);
      assert n in Kept(cwd, listing) <==> n in multiset(Kept(cwd, listing));
    }
  }

  /** The `posted` test looks at the whole path, so a working directory
      whose path contains `posted` lists nothing. */
  lemma {:induction false} PostedWorkingDirectory(cwd: string, listing: seq<string>)
    requires Contains(cwd, "posted")
    ensures Kept(cwd, listing) == []
    decreases |listing|
  {
    if listing != [] {
      PostedWorkingDirectory(cwd, listing[..|listing| - 1]);
      var name := listing[|listing| - 1];
      ContainsPrefixPart(cwd, "/sns/" + name, "posted");
      assert QueuePath(cwd, name) == cwd + ("/sns/" + name);
    }
  }
}
