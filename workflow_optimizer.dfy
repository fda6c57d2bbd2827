/** The GitHub Actions schedule derived from the fixed posting times
    (gui/workflow_optimizer.py): JST "HH:MM" strings become a UTC cron line,
    a frequency report is computed from the same list, and the `- cron:`
    value of a workflow file is rewritten. */
module WorkflowOptimizer {
  import opened Wrappers
  import opened Strings

  /** The cron line used when no hour is known: every hour. */
  const Hourly: string := "0 * * * *"

  /** `int(time_str.split(':')[0])`, or None where `int` raises ValueError. */
  function JstHour(t: string): Option<int> {
    PyInt(Split(t, ':')[0])
  }

  /** JST is UTC+9; Python's `%` by a positive modulus is the floor modulus,
      which is Dafny's `%` as well. */
  function UtcHour(h: int): (u: int)
    ensures 0 <= u < 24
  {
    (h - 9) % 24
  }

  /** On a day's hours the shift is 09 to 00, …, 23 to 14, then 00 to 15, …,
      08 to 23. */
  lemma UtcHourOfDay(h: int)
    requires 0 <= h < 24
    ensures UtcHour(h) == if h >= 9 then h - 9 else h + 15
  {
    if h < 9 {
      assert h - 9 == -1 * 24 + (h + 15);
    }
  }

  /** The hour part of every entry, parsed: what each loop iteration
      computes before it appends or skips. */
  function ParsedHours(times: seq<string>): (ps: seq<Option<int>>)
  {
    seq(|times|, k requires 0 <= k < |times| => JstHour(times[k]))
  }

  /** The list `utc_hours` that the loop builds from the parsed hours: one
      UTC hour per entry that parsed, in input order. */
  function UtcOf(ps: seq<Option<int>>): seq<int>
    decreases |ps|
  {
    if ps == [] then []
    else
      var last := ps[|ps| - 1];
      UtcOf(ps[..|ps| - 1]) + (if last.Some? then [UtcHour(last.value)] else [])
  }

  function UtcHours(times: seq<string>): seq<int> {
    UtcOf(ParsedHours(times))
  }

  /** Some entry parsed to a JST hour that is `u` in UTC. */
  predicate HourListed(ps: seq<Option<int>>, u: int) {
    exists k :: 0 <= k < |ps| && ps[k].Some? && UtcHour(ps[k].value) == u
  }

  lemma {:induction false} UtcOfMembers(ps: seq<Option<int>>, u: int)
    ensures u in UtcOf(ps) <==> HourListed(ps, u)
    decreases |ps|
  {
    if ps != [] {
      var init := ps[..|ps| - 1];
      UtcOfMembers(init, u);
      if HourListed(init, u) {
        var k :| 0 <= k < |init| && init[k].Some? && UtcHour(init[k].value) == u;
        assert ps[k] == init[k];
      }
      if HourListed(ps, u) {
        var k :| 0 <= k < |ps| && ps[k].Some? && UtcHour(ps[k].value) == u;
        if k < |init| { assert init[k] == ps[k]; }
      }
    }
  }

  predicate StrictlyAscending(s: seq<int>) {
    forall i, j :: 0 <= i < j < |s| ==> s[i] < s[j]
  }

  /** `sorted(hs)` for a set of hours: the members of `hs` from `k` to 23 in
      ascending order. */
  function HoursFrom(hs: set<int>, k: nat): seq<nat>
    requires k <= 24
    decreases 24 - k
  {
    if k == 24 then []
    else if k in hs then [k] + HoursFrom(hs, k + 1)
    else HoursFrom(hs, k + 1)
  }

  /** HoursFrom is sorted, without repeats, and lists exactly the members
      of the set in its range. */
  lemma {:induction false} HoursFromSorted(hs: set<int>, k: nat)
    requires k <= 24
    ensures StrictlyAscending(HoursFrom(hs, k))
    ensures forall x :: x in HoursFrom(hs, k) <==> x in hs && k <= x < 24
    decreases 24 - k
  {
    if k < 24 {
      HoursFromSorted(hs, k + 1);
      var rest := HoursFrom(hs, k + 1);
      assert forall j :: 0 <= j < |rest| ==> rest[j] in rest;
    }
  }

  /** `','.join(map(str, hours))`. */
  function HoursText(hs: seq<nat>): string
    decreases |hs|
  {
    if hs == [] then []
    else if |hs| == 1 then NatToString(hs[0])
    else NatToString(hs[0]) + "," + HoursText(hs[1..])
  }

  /** The cron line for the parsed hours: `0 h1,…,hn * * *` over
      `sorted(set(utc_hours))`, or the hourly line when none parsed. */
  function CronOf(ps: seq<Option<int>>): string {
    var utc := UtcOf(ps);
    if utc == [] then Hourly
    else "0 " + HoursText(HoursFrom(set u | u in utc, 0)) + " * * *"
  }

  function CronFor(times: seq<string>): string {
    CronOf(ParsedHours(times))
  }

  /** `optimize_cron_for_times`: the loop collects the UTC hours of the
      entries whose hour parses, skipping the rest. */
  method OptimizeCronForTimes(times: seq<string>) returns (cron: string)
    ensures cron == CronFor(times)
  {
    if times == [] {
      return Hourly;
    }
    ghost var ps := ParsedHours(times);
    var utcHours: seq<int> := [];
    var i := 0;
    while i < |times|
      invariant 0 <= i <= |times|
      invariant utcHours == UtcOf(ps[..i])
    {
      var jst := JstHour(times[i]);
      assert jst == ps[i];
      if jst.Some? {
        utcHours := utcHours + [UtcHour(jst.value)];
      }
      assert ps[..i + 1][..i] == ps[..i];
      i := i + 1;
    }
    assert ps[..i] == ps;
    if utcHours == [] {
      return Hourly;
    }
    var uniqueHours := HoursFrom(set u | u in utcHours, 0);
    cron := "0 " + HoursText(uniqueHours) + " * * *";
  }

  lemma HoursTextStart(hs: seq<nat>)
    requires hs != []
    ensures HoursText(hs) != [] && HoursText(hs)[0] == NatToString(hs[0])[0]
  {
    NatToStringDigits(hs[0]);
  }

  lemma CronOfDefault(ps: seq<Option<int>>)
    ensures CronOf(ps) == Hourly <==> forall k :: 0 <= k < |ps| ==> ps[k].None?
  {
    var utc := UtcOf(ps);
    if utc != [] {
      var u := utc[0];
      assert HourListed(ps, u) by { UtcOfMembers(ps, u); }
      assert CronOf(ps) != Hourly by {
        var hs := HoursFrom(set v | v in utc, 0);
        HoursFromSorted(set v | v in utc, 0);
        assert u in hs;
        assert CronOf(ps)[2] != '*' by {
          NatToStringDigits(hs[0]);
          HoursTextStart(hs);
        }
      }
    } else {
      forall k | 0 <= k < |ps| ensures ps[k].None? {
        if ps[k].Some? {
          UtcOfMembers(ps, UtcHour(ps[k].value));
        }
      }
    }
  }

  /** The hourly line comes back exactly when no entry's hour part parses
      (in particular for the empty list). */
  lemma CronDefault(times: seq<string>)
    ensures CronFor(times) == Hourly <==> forall k :: 0 <= k < |times| ==> JstHour(times[k]).None?
  {
    var ps := ParsedHours(times);
    CronOfDefault(ps);
    assert forall k :: 0 <= k < |times| ==> ps[k] == JstHour(times[k]);
  }

  lemma CronOfHours(ps: seq<Option<int>>)
    requires exists k :: 0 <= k < |ps| && ps[k].Some?
    ensures exists hs: seq<nat> ::
      && CronOf(ps) == "0 " + HoursText(hs) + " * * *"
      && hs != []
      && StrictlyAscending(hs)
      && (forall u :: u in hs ==> u < 24)
      && (forall u: int :: u in hs <==> HourListed(ps, u))
  {
    var k :| 0 <= k < |ps| && ps[k].Some?;
    var utc := UtcOf(ps);
    UtcOfMembers(ps, UtcHour(ps[k].value));
    var hs := HoursFrom(set u | u in utc, 0);
    HoursFromSorted(set u | u in utc, 0);
    forall u: int ensures u in hs <==> HourListed(ps, u) {
      UtcOfMembers(ps, u);
    }
    assert UtcHour(ps[k].value) in hs;
  }

  /** Otherwise the line is `0 h1,…,hn * * *` where h1 < … < hn are UTC
      hours, and hour u is listed exactly when some entry's JST hour H has
      (H - 9) mod 24 == u. The minutes of the entries play no part. */
  lemma CronHours(times: seq<string>)
    requires exists k :: 0 <= k < |times| && JstHour(times[k]).Some?
    ensures exists hs: seq<nat> ::
      && CronFor(times) == "0 " + HoursText(hs) + " * * *"
      && hs != []
      && StrictlyAscending(hs)
      && (forall u :: u in hs ==> u < 24)
      && (forall u: int :: u in hs <==>
            exists k :: 0 <= k < |times| && JstHour(times[k]).Some? && UtcHour(JstHour(times[k]).value) == u)
  {
    var ps := ParsedHours(times);
    assert forall k :: 0 <= k < |times| ==> ps[k] == JstHour(times[k]);
    CronOfHours(ps);
  }

  /** An "HH:MM" entry with plain digits has hour HH. */
  lemma JstHourOfDigits(hh: string, mm: string)
    requires hh != [] && AllDigits(hh) && ':' !in mm
    ensures JstHour(hh + ":" + mm) == Some(DigitsValue(hh))
  {
    assert ':' !in hh by { assert forall k :: 0 <= k < |hh| ==> IsDigit(hh[k]); }
    SplitJoin([hh, mm], ':');
    assert Join([hh, mm], [':']) == hh + ":" + mm;
    PyIntOfDigits(hh);
  }

  /** When every entry parses, the loop's list is the entries' hours shifted
      to UTC, in order. */
  lemma {:induction false} UtcOfParsed(ps: seq<Option<int>>, hours: seq<int>)
    requires |ps| == |hours|
    requires forall k :: 0 <= k < |ps| ==> ps[k] == Some(hours[k])
    ensures |UtcOf(ps)| == |hours|
    ensures forall k :: 0 <= k < |hours| ==> UtcOf(ps)[k] == UtcHour(hours[k])
    decreases |ps|
  {
    if ps != [] {
      var n := |ps| - 1;
      UtcOfParsed(ps[..n], hours[..n]);
      assert UtcOf(ps) == UtcOf(ps[..n]) + [UtcHour(hours[n])];
    }
  }

  /** An entry `hh:mm` written with five characters has hour hh. */
  lemma ClockHour(t: string)
    requires |t| == 5 && IsDigit(t[0]) && IsDigit(t[1]) && t[2] == ':' && IsDigit(t[3]) && IsDigit(t[4])
    ensures JstHour(t) == Some(10 * (t[0] as int - '0' as int) + (t[1] as int - '0' as int))
  {
    var hh, mm := t[..2], t[3..];
    assert t == hh + ":" + mm;
    assert hh[..1][..0] == [] && hh[..1][0] == t[0] && hh[1] == t[1];
    assert DigitsValue(hh[..1]) == t[0] as int - '0' as int;
    assert DigitsValue(hh) == 10 * DigitsValue(hh[..1]) + (t[1] as int - '0' as int);
    JstHourOfDigits(hh, mm);
  }

  /** `["09:00", "12:00", "18:00"]` gives `"0 0,3,9 * * *"`. */
  lemma CronExample(times: seq<string>)
    requires times == ["09:00", "12:00", "18:00"]
    ensures CronFor(times) == "0 0,3,9 * * *"
  {
    ExampleParsed(times);
    CronOfThreeHours(ParsedHours(times), 9, 12, 18);
    ExampleCronText();
  }

  lemma ExampleParsed(times: seq<string>)
    requires times == ["09:00", "12:00", "18:00"]
    ensures ParsedHours(times) == [Some(9), Some(12), Some(18)]
  {
    ExampleEntries(times[0], times[1], times[2]);
    ParsedThree(times, 9, 12, 18);
  }

  lemma ExampleEntries(t0: string, t1: string, t2: string)
    requires t0 == "09:00" && t1 == "12:00" && t2 == "18:00"
    ensures JstHour(t0) == Some(9) && JstHour(t1) == Some(12) && JstHour(t2) == Some(18)
  {
    ExampleEntry(t0, 9);
    ExampleEntry(t1, 12);
    ExampleEntry(t2, 18);
  }

  lemma ExampleEntry(t: string, h: int)
    requires (t == "09:00" && h == 9) || (t == "12:00" && h == 12) || (t == "18:00" && h == 18)
    ensures JstHour(t) == Some(h)
  {
    ClockHour(t);
  }

  lemma ParsedThree(times: seq<string>, a: int, b: int, c: int)
    requires |times| == 3
    requires JstHour(times[0]) == Some(a) && JstHour(times[1]) == Some(b) && JstHour(times[2]) == Some(c)
    ensures ParsedHours(times) == [Some(a), Some(b), Some(c)]
  {
  }

  lemma ExampleCronText()
    ensures "0 " + HoursText([0, 3, 9]) + " * * *" == "0 0,3,9 * * *"
  {
    assert NatToString(0) == "0" && NatToString(3) == "3" && NatToString(9) == "9";
  }

  /** Three entries with JST hours 9 <= a < b < c < 24. */
  lemma CronOfThreeHours(ps: seq<Option<int>>, a: nat, b: nat, c: nat)
    requires 9 <= a < b < c < 24
    requires ps == [Some(a), Some(b), Some(c)]
    ensures CronOf(ps) == "0 " + HoursText([a - 9, b - 9, c - 9]) + " * * *"
  {
    var hs := set u | u in UtcOf(ps);
    assert hs == {a - 9, b - 9, c - 9} by {
      UtcOfParsed(ps, [a, b, c]);
      UtcHourOfDay(a);
      UtcHourOfDay(b);
      UtcHourOfDay(c);
      assert UtcOf(ps) == [a - 9, b - 9, c - 9];
    }
    HoursFromThree(hs, a - 9, b - 9, c - 9);
  }

  /** Three distinct hours come out in ascending order. */
  lemma HoursFromThree(hs: set<int>, x: nat, y: nat, z: nat)
    requires x < y < z < 24 && hs == {x, y, z}
    ensures HoursFrom(hs, 0) == [x, y, z]
  {
    HoursFromSkip(hs, z + 1, 24);
    assert HoursFrom(hs, z) == [z];
    HoursFromSkip(hs, y + 1, z);
    assert HoursFrom(hs, y) == [y, z];
    HoursFromSkip(hs, x + 1, y);
    assert HoursFrom(hs, x) == [x, y, z];
    HoursFromSkip(hs, 0, x);
  }

  /** Hours absent from the set are skipped: HoursFrom jumps over them. */
  lemma {:induction false} HoursFromSkip(hs: set<int>, k: nat, k2: nat)
    requires k <= k2 <= 24
    requires forall x :: k <= x < k2 ==> x !in hs
    ensures HoursFrom(hs, k) == HoursFrom(hs, k2)
    decreases k2 - k
  {
    if k < k2 {
      HoursFromSkip(hs, k + 1, k2);
    }
  }

  /** Several minutes within one hour give one cron hour: `15:01`, `15:02`
      and `15:03` all run at 06 UTC. */
  lemma CronMinutesIgnored(times: seq<string>)
    requires times == ["15:01", "15:02", "15:03"]
    ensures CronFor(times) == "0 6 * * *"
  {
    ClockHour(times[0]);
    ClockHour(times[1]);
    ClockHour(times[2]);
    CronOfOneHour(ParsedHours(times));
  }

  lemma CronOfOneHour(ps: seq<Option<int>>)
    requires ps == [Some(15), Some(15), Some(15)]
    ensures CronOf(ps) == "0 6 * * *"
  {
    UtcOfParsed(ps, [15, 15, 15]);
    var hs := set u | u in UtcOf(ps);
    assert hs == {6};
    HoursFromSkip(hs, 7, 24);
    HoursFromSkip(hs, 0, 6);
    assert HoursText([6]) == "6";
  }

  // ---------------------------------------------------------------------
  // Frequency report

  /** The dictionary `get_execution_frequency_info` returns; `savingsTenths`
      is `savings_percent` in tenths of a percent, None where the key is
      absent. */
  datatype FrequencyInfo = FrequencyInfo(
    executionsPerDay: int,
    cronExpression: string,
    description: string,
    savingsTenths: Option<int>)

  /** `round((24 - n) / 24 * 100, 1)` in tenths: (24 - n) * 1000 / 24 is a
      third of an integer, so it is never half-way between two tenths and
      the nearest integer is unique. */
  function SavingsTenths(n: int): (t: int)
    ensures -1 <= 3 * t - 125 * (24 - n) <= 1
  {
    (125 * (24 - n) + 1) / 3
  }

  lemma SavingsExample()
    ensures SavingsTenths(5) == 792
  {
  }

  /** The distinct JST hours `{int(t.split(':')[0]) for t in times}`. */
  function JstHourSet(times: seq<string>): set<int>
    requires forall k :: 0 <= k < |times| ==> JstHour(times[k]).Some?
  {
    set k | 0 <= k < |times| :: JstHour(times[k]).value
  }

  /** `get_execution_frequency_info`. It raises ValueError (here Err) on an
      entry whose hour part does not parse, where OptimizeCronForTimes skips
      that entry. */
  function FrequencyInfoFor(times: seq<string>): (r: Result<FrequencyInfo, string>)
    ensures times == [] ==> r == Ok(FrequencyInfo(24, Hourly, "毎時実行", None))
    ensures times != [] ==>
      (r.Err? <==> exists k :: 0 <= k < |times| && JstHour(times[k]).None?)
    ensures r.Ok? && times != [] ==>
      && r.value.cronExpression == CronFor(times)
      && r.value.executionsPerDay == |JstHourSet(times)| >= 1
      && r.value.savingsTenths.Some?
      && -1 <= 3 * r.value.savingsTenths.value - 125 * (24 - r.value.executionsPerDay) <= 1
  {
    if times == [] then Ok(FrequencyInfo(24, Hourly, "毎時実行", None))
    else if exists k :: 0 <= k < |times| && JstHour(times[k]).None? then Err("ValueError")
    else
      var n := |JstHourSet(times)|;
      assert JstHour(times[0]).value in JstHourSet(times);
      Ok(FrequencyInfo(n, CronFor(times), "1日" + NatToString(n) + "回実行", Some(SavingsTenths(n))))
  }

  /** When every JST hour lies in 0..23, the reported number of runs per day
      is the number of hours in the cron line: the shift by 9 hours is a
      bijection on a day. */
  lemma ExecutionsMatchCron(times: seq<string>)
    requires times != []
    requires forall k :: 0 <= k < |times| ==> JstHour(times[k]).Some? && 0 <= JstHour(times[k]).value < 24
    ensures FrequencyInfoFor(times).Ok?
    ensures FrequencyInfoFor(times).value.executionsPerDay == |set u | u in UtcHours(times)|
  {
    var ps := ParsedHours(times);
    assert forall k :: 0 <= k < |times| ==> ps[k] == JstHour(times[k]);
    assert JstHourSet(times) == HourSet(ps);
    ShiftPreservesSize(ps);
  }

  /** The distinct hours of entries that all parsed. */
  function HourSet(ps: seq<Option<int>>): set<int>
    requires forall k :: 0 <= k < |ps| ==> ps[k].Some?
  {
    set k | 0 <= k < |ps| :: ps[k].value
  }

  lemma HourSetSnoc(ps: seq<Option<int>>)
    requires ps != [] && forall k :: 0 <= k < |ps| ==> ps[k].Some?
    ensures HourSet(ps) == HourSet(ps[..|ps| - 1]) + {ps[|ps| - 1].value}
  {
    var n := |ps| - 1;
    forall k | 0 <= k < n ensures ps[..n][k] == ps[k] { }
  }

  lemma {:induction false} ShiftPreservesSize(ps: seq<Option<int>>)
    requires forall k :: 0 <= k < |ps| ==> ps[k].Some? && 0 <= ps[k].value < 24
    ensures |HourSet(ps)| == |set u | u in UtcOf(ps)|
    decreases |ps|
  {
    if ps != [] {
      var n := |ps| - 1;
      var init := ps[..n];
      ShiftPreservesSize(init);
      var h := ps[n].value;
      HourSetSnoc(ps);
      assert (set u | u in UtcOf(ps)) == (set u | u in UtcOf(init)) + {UtcHour(h)} by {
        assert UtcOf(ps) == UtcOf(init) + [UtcHour(h)];
      }
      NewHourIsNewShift(init, h);
      AddToBoth(HourSet(init), (set u | u in UtcOf(init)), h, UtcHour(h));
    }
  }

  /** Adding matching elements to two sets of one size keeps them of one size. */
  lemma AddToBoth(a: set<int>, b: set<int>, x: int, y: int)
    requires |a| == |b| && (x in a <==> y in b)
    ensures |a + {x}| == |b + {y}|
  {
    if x !in a {
      assert |a + {x}| == |a| + 1;
      assert |b + {y}| == |b| + 1;
    } else {
      assert a + {x} == a;
      assert b + {y} == b;
    }
  }

  /** An hour joins the set of JST hours exactly when its shift joins the
      set of UTC hours. */
  lemma NewHourIsNewShift(ps: seq<Option<int>>, h: int)
    requires forall k :: 0 <= k < |ps| ==> ps[k].Some? && 0 <= ps[k].value < 24
    requires 0 <= h < 24
    ensures h in HourSet(ps) <==> UtcHour(h) in UtcOf(ps)
  {
    UtcOfMembers(ps, UtcHour(h));
    if h in HourSet(ps) {
      var k :| 0 <= k < |ps| && ps[k].value == h;
      assert ps[k].Some? && UtcHour(ps[k].value) == UtcHour(h);
    } else {
      forall k | 0 <= k < |ps| ensures UtcHour(ps[k].value) != UtcHour(h) {
        assert ps[k].value in HourSet(ps);
        UtcHourOfDay(ps[k].value);
        UtcHourOfDay(h);
      }
    }
  }

  /** `format_times_for_display`. */
  function FormatTimesForDisplay(times: seq<string>): (r: string)
    ensures times == [] ==> r == "設定なし"
    ensures |times| == 1 ==> r == times[0]
  {
    if times == [] then "設定なし" else Join(times, ", ")
  }

  // ---------------------------------------------------------------------
  // Rewriting the workflow file

  predicate IsQuote(c: char) { c == '\'' || c == '"' }

  /** Index of the first character at or after `i` that is not whitespace
      (`\s*`, greedy). */
  function SkipSpace(s: string, i: nat): (j: nat)
    requires i <= |s|
    ensures i <= j <= |s|
    ensures forall k :: i <= k < j ==> IsPySpace(s[k])
    ensures j < |s| ==> !IsPySpace(s[j])
    decreases |s| - i
  {
    if i < |s| && IsPySpace(s[i]) then SkipSpace(s, i + 1) else i
  }

  /** Index of the first quote at or after `i` on the current line (`.*?`
      followed by `['"]`; `.` does not match a newline), if any. */
  function CloseQuote(s: string, i: nat): (e: Option<nat>)
    requires i <= |s|
    ensures e.Some? ==> i <= e.value < |s| && IsQuote(s[e.value])
    ensures e.Some? ==> forall k :: i <= k < e.value ==> !IsQuote(s[k]) && s[k] != '\n'
    decreases |s| - i
  {
    if i == |s| || s[i] == '\n' then None
    else if IsQuote(s[i]) then Some(i)
    else CloseQuote(s, i + 1)
  }

  /** A match of `(\s*-\s*cron:\s*['"])(.*?)(['"])` at the start of `s`:
      the bounds of group 2, which is followed by the closing quote. The
      leading `\s*` and the `\s*` before the quote cannot give back a
      character, so the match, when there is one, is unique. */
  function CronMatch(s: string): (m: Option<(nat, nat)>)
    ensures m.Some? ==> m.value.0 <= m.value.1 < |s| && IsQuote(s[m.value.1])
    ensures m.Some? ==> Contains(s, "cron:")
  {
    var j := SkipSpace(s, 0);
    if j == |s| || s[j] != '-' then None else AfterDash(s, j + 1)
  }

  /** The rest of a match once `\s*-` has been read up to `i`. */
  function AfterDash(s: string, i: nat): (m: Option<(nat, nat)>)
    requires i <= |s|
    ensures m.Some? ==> m.value.0 <= m.value.1 < |s| && IsQuote(s[m.value.1])
    ensures m.Some? ==> Contains(s, "cron:")
  {
    var k := SkipSpace(s, i);
    if !(k + 5 <= |s| && s[k..k + 5] == "cron:") then None
    else
      ContainsAt(s, "cron:", k);
      AfterKey(s, k + 5)
  }

  /** The rest of a match once `\s*-\s*cron:` has been read up to `i`. */
  function AfterKey(s: string, i: nat): (m: Option<(nat, nat)>)
    requires i <= |s|
    ensures m.Some? ==> i < m.value.0 <= m.value.1 < |s| && IsQuote(s[m.value.1])
  {
    var l := SkipSpace(s, i);
    if l == |s| || !IsQuote(s[l]) then None
    else
      match CloseQuote(s, l + 1)
      case None => None
      case Some(e) => Some((l + 1, e))
  }

  /** `re.sub(cron_pattern, replace_cron, content)`: scanning left to
      right, every match keeps groups 1 and 3 and has group 2 replaced by
      `cron`; between matches the text is copied. */
  function RewriteCron(s: string, cron: string): string
    decreases |s|
  {
    if s == [] then []
    else
      var m := CronMatch(s);
      if m.Some? then s[..m.value.0] + cron + [s[m.value.1]] + RewriteCron(s[m.value.1 + 1..], cron)
      else [s[0]] + RewriteCron(s[1..], cron)
  }

  /** A text without `cron:` has no match and is copied unchanged. */
  lemma {:induction false} RewriteWithoutCron(s: string, cron: string)
    requires !Contains(s, "cron:")
    ensures RewriteCron(s, cron) == s
    decreases |s|
  {
    if s != [] {
      assert !Contains(s[1..], "cron:");
      RewriteWithoutCron(s[1..], cron);
      assert s == [s[0]] + s[1..];
    }
  }

  lemma {:induction false} SkipSpaceTo(s: string, i: nat, j: nat)
    requires i <= j < |s| && !IsPySpace(s[j])
    requires forall k :: i <= k < j ==> IsPySpace(s[k])
    ensures SkipSpace(s, i) == j
    decreases j - i
  {
    if i < j {
      SkipSpaceTo(s, i + 1, j);
    }
  }

  /** An entry `- cron: '` after whitespace only, whose value runs up to
      the next quote on the same line: the text through the opening quote
      is kept, the value is replaced, the closing quote is kept, and the
      scan resumes after it. */
  /** The text `- cron: '` at `i` (what the workflow file carries). */
  predicate EntryHeadAt(s: string, i: nat) {
    && i + 9 <= |s|
    && s[i] == '-' && s[i + 1] == ' '
    && s[i + 2] == 'c' && s[i + 3] == 'r' && s[i + 4] == 'o' && s[i + 5] == 'n' && s[i + 6] == ':'
    && s[i + 7] == ' ' && s[i + 8] == '\''
  }

  lemma EntryAt(s: string, i: nat, e: nat, cron: string)
    requires i + 9 <= e < |s| && IsQuote(s[e])
    requires forall k :: 0 <= k < i ==> IsPySpace(s[k])
    requires EntryHeadAt(s, i)
    requires forall k :: i + 9 <= k < e ==> !IsQuote(s[k]) && s[k] != '\n'
    ensures RewriteCron(s, cron) == s[..i + 9] + cron + [s[e]] + RewriteCron(s[e + 1..], cron)
  {
    DashAt(s, i);
    KeyWordAt(s, i + 1);
    KeyAt(s, i + 7, e);
    RewriteAtMatch(s, cron, i + 9, e);
  }

  /** Whitespace only, then `-`: the rest of the match starts after it. */
  lemma DashAt(s: string, i: nat)
    requires i < |s| && s[i] == '-'
    requires forall k :: 0 <= k < i ==> IsPySpace(s[k])
    ensures CronMatch(s) == AfterDash(s, i + 1)
  {
    SkipSpaceTo(s, 0, i);
  }

  /** After the `-`, a blank and `cron:`. */
  lemma KeyWordAt(s: string, i: nat)
    requires i + 6 <= |s| && s[i] == ' '
    requires s[i + 1] == 'c' && s[i + 2] == 'r' && s[i + 3] == 'o' && s[i + 4] == 'n' && s[i + 5] == ':'
    ensures AfterDash(s, i) == AfterKey(s, i + 6)
  {
    SkipSpaceTo(s, i, i + 1);
    assert s[i + 1..i + 6] == "cron:";
  }

  /** After `cron:`, a blank and a quote open the value, which runs up to
      the next quote on the same line. */
  lemma KeyAt(s: string, i: nat, e: nat)
    requires i + 2 <= e < |s| && IsQuote(s[e])
    requires s[i] == ' ' && s[i + 1] == '\''
    requires forall k :: i + 2 <= k < e ==> !IsQuote(s[k]) && s[k] != '\n'
    ensures AfterKey(s, i) == Some((i + 2, e))
  {
    SkipSpaceTo(s, i, i + 1);
    CloseQuoteAt(s, i + 2, e);
  }

  lemma RewriteAtMatch(s: string, cron: string, m: nat, e: nat)
    requires CronMatch(s) == Some((m, e))
    ensures RewriteCron(s, cron) == s[..m] + cron + [s[e]] + RewriteCron(s[e + 1..], cron)
  {
  }

  /** Text before the first `-` that does not end in whitespace is copied
      unchanged: no match can start inside it. */
  lemma {:induction false} CopyPrefix(p: string, r: string, cron: string)
    requires forall k :: 0 <= k < |p| ==> p[k] != '-'
    requires p != [] ==> !IsPySpace(p[|p| - 1])
    ensures RewriteCron(p + r, cron) == p + RewriteCron(r, cron)
    decreases |p|
  {
    if p != [] {
      var q := p[1..];
      assert RewriteCron(p + r, cron) == [p[0]] + RewriteCron(q + r, cron) by {
        var s := p + r;
        assert s[1..] == q + r;
        NoMatchBeforeDash(s, |p|);
        RewriteWithoutMatch(s, cron);
      }
      assert RewriteCron(q + r, cron) == q + RewriteCron(r, cron) by {
        assert q != [] ==> q[|q| - 1] == p[|p| - 1];
        CopyPrefix(q, r, cron);
      }
      PrependChar(RewriteCron(p + r, cron), RewriteCron(q + r, cron), p, RewriteCron(r, cron));
    } else {
      assert p + r == r;
    }
  }

  lemma RewriteWithoutMatch(s: string, cron: string)
    requires s != [] && CronMatch(s) == None
    ensures RewriteCron(s, cron) == [s[0]] + RewriteCron(s[1..], cron)
  {
  }

  /** No match starts where the leading whitespace ends before a
      non-whitespace character other than `-`. */
  /** One character in front of a string that continues with `x`. */
  lemma PrependChar(a: string, b: string, p: string, x: string)
    requires p != [] && a == [p[0]] + b && b == p[1..] + x
    ensures a == p + x
  {
    assert p == [p[0]] + p[1..];
  }

  lemma NoMatchBeforeDash(s: string, w: nat)
    requires 0 < w <= |s| && !IsPySpace(s[w - 1])
    requires forall k :: 0 <= k < w ==> s[k] != '-'
    ensures CronMatch(s) == None
  {
    assert SkipSpace(s, 0) < w;
  }

  lemma {:induction false} CloseQuoteAt(s: string, i: nat, e: nat)
    requires i <= e < |s| && IsQuote(s[e])
    requires forall k :: i <= k < e ==> !IsQuote(s[k]) && s[k] != '\n'
    ensures CloseQuote(s, i) == Some(e)
    decreases e - i
  {
    if i < e {
      CloseQuoteAt(s, i + 1, e);
    }
  }

  /** What `update_workflow_cron` does with the file: `written` is the new
      content when it differs from the old (the file is only written then),
      `ok` the returned flag. */
  datatype UpdateOutcome = UpdateOutcome(ok: bool, written: Option<string>)

  /** `update_workflow_cron` given the file's content (None: the file does
      not exist, FileNotFoundError) and whether the write raises. Every
      exception is caught and reported as False. */
  function UpdateWorkflowCron(times: seq<string>, file: Option<string>, writeFails: bool): (r: UpdateOutcome)
    ensures file.None? ==> r == UpdateOutcome(false, None)
    ensures file.Some? && RewriteCron(file.value, CronFor(times)) == file.value ==> r == UpdateOutcome(true, None)
    ensures file.Some? && RewriteCron(file.value, CronFor(times)) != file.value ==>
      r.written == Some(RewriteCron(file.value, CronFor(times))) && r.ok == !writeFails
  {
    match file
    case None => UpdateOutcome(false, None)
    case Some(content) =>
      var newContent := RewriteCron(content, CronFor(times));
      if newContent == content then UpdateOutcome(true, None)
      else UpdateOutcome(!writeFails, Some(newContent))
  }

  /** A workflow without any `cron:` is reported as updated although
      nothing is written. */
  lemma UpdateWithoutCron(times: seq<string>, content: string, writeFails: bool)
    requires !Contains(content, "cron:")
    ensures UpdateWorkflowCron(times, Some(content), writeFails) == UpdateOutcome(true, None)
  {
    RewriteWithoutCron(content, CronFor(times));
  }
}
