/** The fixed-time slot scheduler of the posting CLI (`core/scheduler.js`).

    Instants are integer milliseconds of local wall-clock time counted from
    1 January 1970 00:00; a day is the integer `instant / DayMs`, so its
    midnight is `day * DayMs`. The configured posting times arrive already
    split into an hour and a minute number. */
module Scheduler {
  import opened Wrappers
  import opened Strings
  import opened Sorting

  const MinuteMs := 60000
  const HourMs := 3600000
  const DayMs := 86400000

  // ---------------------------------------------------------------------
  // Dates

  /** `getDay()` of a day: 1 January 1970 was a Thursday (4). */
  function Weekday(day: int): (w: int)
    ensures 0 <= w < 7
  {
    (day + 4) % 7
  }

  /** `isWeekend`: Sunday (0) or Saturday (6). */
  predicate IsWeekend(day: int) {
    Weekday(day) == 0 || Weekday(day) == 6
  }

  /** The days from 1 January 1970 to day `d` of month `m` (1 to 12) of
      year `y` in the proleptic Gregorian calendar. */
  function DaysFromCivil(y: int, m: int, d: int): int
    requires 1 <= m <= 12
  {
    var y' := if m <= 2 then y - 1 else y;
    var era := y' / 400;
    var yoe := y' - era * 400;
    var mp := if m > 2 then m - 3 else m + 9;
    var doy := (153 * mp + 2) / 5 + d - 1;
    var doe := yoe * 365 + yoe / 4 - yoe / 100 + doy;
    era * 146097 + doe - 719468
  }

  /** `new Date(year, monthIndex, day)`: a year from 0 to 99 means 1900 to
      1999, a month index outside 0 to 11 carries into the year and a day
      outside the month into the next or previous months; the result is
      local midnight. */
  function LocalMidnight(year: int, monthIndex: int, day: int): (t: int)
    ensures t % DayMs == 0
  {
    var y := if 0 <= year <= 99 then 1900 + year else year;
    var ym := y + monthIndex / 12;
    var mn := monthIndex % 12;
    (DaysFromCivil(ym, mn + 1, 1) + day - 1) * DayMs
  }

  lemma EpochDay()
    ensures DaysFromCivil(1970, 1, 1) == 0
  {
  }

  lemma NewYear2024()
    ensures DaysFromCivil(2024, 1, 1) == 19723 && Weekday(19723) == 1
  {
  }

  /** A month index of 12 is January of the next year. */
  lemma MonthCarries()
    ensures LocalMidnight(2024, 12, 1) == LocalMidnight(2025, 0, 1)
  {
  }

  /** 30 February 2024 is 1 March 2024. */
  lemma DayCarries()
    ensures LocalMidnight(2024, 1, 30) == LocalMidnight(2024, 2, 1)
  {
    assert DaysFromCivil(2024, 2, 1) == 19754;
    assert DaysFromCivil(2024, 3, 1) == 19783;
  }

  /** Year 99 means 1999. */
  lemma TwoDigitYear()
    ensures LocalMidnight(99, 0, 1) == LocalMidnight(1999, 0, 1)
  {
  }

  /** A date as `parseJSTDate` builds it: from the three numbers of a
      `YYYY-MM-DD` text, or by the `Date` constructor's own parsing of any
      other text. */
  datatype JsDate = FromFields(year: int, monthIndex: int, day: int) | FromText(text: string)

  /** The text has the shape `^\d{4}-\d{2}-\d{2}$`. */
  predicate IsDateShape(s: string) {
    && |s| == 10 && s[4] == '-' && s[7] == '-'
    && AllDigits(s[..4]) && AllDigits(s[5..7]) && AllDigits(s[8..])
  }

  /** `parseJSTDate`: `null` for `auto`, the three numbers of a
      `YYYY-MM-DD` text with the month made 0-based, any other text left to
      the `Date` constructor. */
  function ParseJSTDate(s: string): (r: Option<JsDate>)
    ensures r.None? <==> s == "auto"
    ensures IsDateShape(s) ==> r == Some(FromFields(DigitsValue(s[..4]), DigitsValue(s[5..7]) - 1, DigitsValue(s[8..])))
    ensures s != "auto" && !IsDateShape(s) ==> r == Some(FromText(s))
  {
    if s == "auto" then None
    else if IsDateShape(s) then Some(FromFields(DigitsValue(s[..4]), DigitsValue(s[5..7]) - 1, DigitsValue(s[8..])))
    else Some(FromText(s))
  }

  /** The instant of a parsed date; `parse` is the `Date` constructor's
      parsing of free text, which is not part of this model. */
  function Instant(d: JsDate, parse: string -> int): int {
    match d
    case FromFields(y, m, day) => LocalMidnight(y, m, day)
    case FromText(t) => parse(t)
  }

  // ---------------------------------------------------------------------
  // Configuration and results

  /** A posting time split on `:` into its hour and minute numbers. */
  datatype Clock = Clock(hours: int, minutes: int)

  /** The offset from midnight that `setHours(hours, minutes, 0, 0)`
      gives; hours beyond 23 and minutes beyond 59 carry over. */
  function Offset(c: Clock): int {
    c.hours * HourMs + c.minutes * MinuteMs
  }

  /** The value of `posting.times` or `posting.fixedTimes`: missing, an
      array, or some other value that JavaScript counts as true or false. */
  datatype TimesField = Absent | Times(clocks: seq<Clock>) | NonArray(truthy: bool)

  predicate Truthy(f: TimesField) {
    match f
    case Absent => false
    case Times(_) => true
    case NonArray(t) => t
  }

  datatype Posting = Posting(use: bool, times: TimesField, fixedTimes: TimesField, startDate: string, skipWeekends: bool)

  datatype File = File(name: string, path: string, content: string)

  /** One entry of the schedule. */
  datatype Entry =
    | Scheduled(file: string, path: string, content: string, time: int)
    | Unscheduled(file: string, reason: string)

  /** Why `calculateSchedule` throws. */
  datatype ScheduleError =
    | TimesRequired           // no `times` array
    | NoTimeOfDay             // `times[0]` is undefined: `timeStr.split` throws a TypeError

  function Message(e: ScheduleError): string {
    match e
    case TimesRequired => "投稿時刻の設定が必要です (times配列)"
    case NoTimeOfDay => "TypeError"
  }

  const DisabledReason := "スケジューリングが無効"

  // ---------------------------------------------------------------------
  // The schedule as a specification

  /** A time slot: the `index`-th posting time of a day. */
  datatype Slot = Slot(day: int, index: nat)

  /** Slots in the order the scheduler visits them: by day, then by index. */
  predicate Before(a: Slot, b: Slot) {
    a.day < b.day || (a.day == b.day && a.index < b.index)
  }

  function SlotTime(clocks: seq<Clock>, s: Slot): int
    requires s.index < |clocks|
  {
    s.day * DayMs + Offset(clocks[s.index])
  }

  /** A slot the scheduler may use: it exists, is not on a skipped weekend
      day, and is not earlier than the start. */
  predicate Eligible(clocks: seq<Clock>, start: int, skip: bool, s: Slot) {
    && s.index < |clocks|
    && !(skip && IsWeekend(s.day))
    && SlotTime(clocks, s) >= start
  }

  /** The first `|slots|` eligible slots from the start's day on, in order:
      each is eligible, they strictly increase, and no eligible slot before
      the last one is missing. */
  ghost predicate FirstEligible(clocks: seq<Clock>, start: int, skip: bool, slots: seq<Slot>) {
    && (forall k :: 0 <= k < |slots| ==> Eligible(clocks, start, skip, slots[k]) && slots[k].day >= start / DayMs)
    && (forall k :: 0 <= k < |slots| - 1 ==> Before(slots[k], slots[k + 1]))
    && (forall s: Slot :: Eligible(clocks, start, skip, s) && s.day >= start / DayMs && |slots| > 0 && Before(s, slots[|slots| - 1]) ==> s in slots)
  }

  function EntryFor(f: File, clocks: seq<Clock>, s: Slot): Entry
    requires s.index < |clocks|
  {
    Scheduled(f.name, f.path, f.content, SlotTime(clocks, s))
  }

  /** The entries give the `k`-th file the `k`-th eligible slot. */
  ghost predicate Assigned(files: seq<File>, clocks: seq<Clock>, start: int, skip: bool, slots: seq<Slot>, entries: seq<Entry>) {
    && |slots| == |files| == |entries|
    && FirstEligible(clocks, start, skip, slots)
    && (forall k :: 0 <= k < |files| ==> entries[k] == EntryFor(files[k], clocks, slots[k]))
  }

  /** `entries` is the schedule for `files`. */
  ghost predicate ScheduleOf(files: seq<File>, clocks: seq<Clock>, start: int, skip: bool, entries: seq<Entry>) {
    exists slots :: Assigned(files, clocks, start, skip, slots, entries)
  }

  // ---------------------------------------------------------------------
  // The loop of calculateSchedule

  /** The slot after `s`: the next time of the same day, or the first time
      of the next day. */
  function Next(clocks: seq<Clock>, s: Slot): Slot {
    if s.index + 1 < |clocks| then Slot(s.day, s.index + 1) else Slot(s.day + 1, 0)
  }

  /** What the loop has established when it stands at slot `pos`. */
  ghost predicate Progress(files: seq<File>, clocks: seq<Clock>, start: int, skip: bool, slots: seq<Slot>, entries: seq<Entry>, pos: Slot) {
    && |slots| == |entries| <= |files|
    && (forall k :: 0 <= k < |slots| ==> Eligible(clocks, start, skip, slots[k]) && slots[k].day >= start / DayMs && Before(slots[k], pos))
    && (forall k :: 0 <= k < |slots| - 1 ==> Before(slots[k], slots[k + 1]))
    && (forall k :: 0 <= k < |slots| ==> entries[k] == EntryFor(files[k], clocks, slots[k]))
    && (forall s: Slot :: Eligible(clocks, start, skip, s) && s.day >= start / DayMs && Before(s, pos) ==> s in slots)
  }

  lemma ProgressStart(files: seq<File>, clocks: seq<Clock>, start: int, skip: bool)
    ensures Progress(files, clocks, start, skip, [], [], Slot(start / DayMs, 0))
  {
  }

  /** A skipped weekend day holds no eligible slot. */
  lemma WeekendStep(files: seq<File>, clocks: seq<Clock>, start: int, skip: bool, slots: seq<Slot>, entries: seq<Entry>, pos: Slot)
    requires Progress(files, clocks, start, skip, slots, entries, pos)
    requires skip && IsWeekend(pos.day)
    ensures Progress(files, clocks, start, skip, slots, entries, Slot(pos.day + 1, 0))
  {
  }

  /** A slot earlier than the start is not eligible. */
  lemma EarlyStep(files: seq<File>, clocks: seq<Clock>, start: int, skip: bool, slots: seq<Slot>, entries: seq<Entry>, pos: Slot)
    requires Progress(files, clocks, start, skip, slots, entries, pos)
    requires pos.index < |clocks| && SlotTime(clocks, pos) < start
    ensures Progress(files, clocks, start, skip, slots, entries, Next(clocks, pos))
  {
  }

  /** An eligible slot goes to the next file. */
  lemma PlaceStep(files: seq<File>, clocks: seq<Clock>, start: int, skip: bool, slots: seq<Slot>, entries: seq<Entry>, pos: Slot)
    requires Progress(files, clocks, start, skip, slots, entries, pos)
    requires Eligible(clocks, start, skip, pos) && pos.day >= start / DayMs && |slots| < |files|
    ensures Progress(files, clocks, start, skip, slots + [pos], entries + [EntryFor(files[|slots|], clocks, pos)], Next(clocks, pos))
  {
    var slots', entries' := slots + [pos], entries + [EntryFor(files[|slots|], clocks, pos)];
    assert forall k :: 0 <= k < |slots| ==> slots'[k] == slots[k] && entries'[k] == entries[k];
  }

  lemma ProgressDone(files: seq<File>, clocks: seq<Clock>, start: int, skip: bool, slots: seq<Slot>, entries: seq<Entry>, pos: Slot)
    requires Progress(files, clocks, start, skip, slots, entries, pos) && |slots| == |files|
    ensures Assigned(files, clocks, start, skip, slots, entries)
  {
  }

  /** The sum of the sizes of all offsets: a bound on each. */
  function Spread(clocks: seq<Clock>): (b: nat)
    decreases |clocks|
  {
    if clocks == [] then 0
    else Spread(clocks[..|clocks| - 1]) + (var o := Offset(clocks[|clocks| - 1]); if o < 0 then -o else o)
  }

  lemma {:induction false} SpreadBounds(clocks: seq<Clock>, i: nat)
    requires i < |clocks|
    ensures -(Spread(clocks) as int) <= Offset(clocks[i]) <= Spread(clocks)
    decreases |clocks|
  {
    if i < |clocks| - 1 {
      SpreadBounds(clocks[..|clocks| - 1], i);
    }
  }

  /** A day from which on no slot is earlier than the start. */
  function Horizon(clocks: seq<Clock>, start: int): int {
    start / DayMs + 1 + Spread(clocks)
  }

  lemma HorizonBound(clocks: seq<Clock>, start: int, s: Slot)
    requires s.index < |clocks|
    ensures s.day >= Horizon(clocks, start) ==> SlotTime(clocks, s) >= start
  {
    SpreadBounds(clocks, s.index);
  }

  /** How many weekend days in a row are still to be skipped from `day`. */
  function WeekendRun(skip: bool, day: int): nat {
    if !skip then 0 else if Weekday(day) == 6 then 2 else if Weekday(day) == 0 then 1 else 0
  }

  lemma WeekendRunShrinks(skip: bool, day: int)
    requires skip && IsWeekend(day)
    ensures WeekendRun(skip, day + 1) < WeekendRun(skip, day)
  {
  }

  /** The `while` loop of `calculateSchedule`: it visits the slots day by
      day from the start's day, skips weekend days when asked to, skips
      slots earlier than the start, and gives each file in turn the next
      slot. It throws when there are files and no posting time. */
  method FixedTimeSchedule(files: seq<File>, clocks: seq<Clock>, start: int, skip: bool) returns (schedule: Option<seq<Entry>>)
    ensures schedule.None? <==> |clocks| == 0 && |files| > 0
    ensures schedule.Some? ==> ScheduleOf(files, clocks, start, skip, schedule.value)
  {
    var entries: seq<Entry> := [];
    ghost var slots: seq<Slot> := [];
    var currentDay := start / DayMs;
    var fileIndex, timeIndex := 0, 0;
    ghost var horizon := Horizon(clocks, start);
    ProgressStart(files, clocks, start, skip);
    while fileIndex < |files|
      invariant fileIndex <= |files| && |slots| == fileIndex
      invariant timeIndex == 0 || timeIndex < |clocks|
      invariant |clocks| == 0 ==> fileIndex == 0
      invariant currentDay >= start / DayMs
      invariant Progress(files, clocks, start, skip, slots, entries, Slot(currentDay, timeIndex))
      decreases |files| - fileIndex, if horizon > currentDay then horizon - currentDay else 0, WeekendRun(skip, currentDay), |clocks| - timeIndex
    {
      var pos := Slot(currentDay, timeIndex);
      if skip && IsWeekend(currentDay) {
        WeekendStep(files, clocks, start, skip, slots, entries, pos);
        WeekendRunShrinks(skip, currentDay);
        currentDay := currentDay + 1;
        timeIndex := 0;
        continue;
      }
      if timeIndex >= |clocks| {
        return None;
      }
      var scheduledTime := currentDay * DayMs + Offset(clocks[timeIndex]);
      assert scheduledTime == SlotTime(clocks, pos);
      HorizonBound(clocks, start, pos);
      if scheduledTime < start {
        EarlyStep(files, clocks, start, skip, slots, entries, pos);
        timeIndex := timeIndex + 1;
        if timeIndex >= |clocks| {
          currentDay := currentDay + 1;
          timeIndex := 0;
        }
        assert Slot(currentDay, timeIndex) == Next(clocks, pos);
        continue;
      }
      var file := files[fileIndex];
      PlaceStep(files, clocks, start, skip, slots, entries, pos);
      entries := entries + [Scheduled(file.name, file.path, file.content, scheduledTime)];
      slots := slots + [pos];
      fileIndex := fileIndex + 1;
      timeIndex := timeIndex + 1;
      if timeIndex >= |clocks| {
        currentDay := currentDay + 1;
        timeIndex := 0;
      }
      assert Slot(currentDay, timeIndex) == Next(clocks, pos);
    }
    ProgressDone(files, clocks, start, skip, slots, entries, Slot(currentDay, timeIndex));
    return Some(entries);
  }

  // ---------------------------------------------------------------------
  // calculateSchedule and filterDueItems

  /** The entries of a disabled schedule. */
  function Disabled(files: seq<File>): (r: seq<Entry>)
    ensures |r| == |files|
  {
    seq(|files|, k requires 0 <= k < |files| => Unscheduled(files[k].name, DisabledReason))
  }

  /** `posting.times || posting.fixedTimes`. */
  function TimesOf(posting: Posting): TimesField {
    if Truthy(posting.times) then posting.times else posting.fixedTimes
  }

  /** The start instant: the clock reading `now` for `auto`, otherwise the
      date `parseJSTDate` makes of the text. `parseJSTDate` returns `null`
      only for `auto`, so the invalid-start error cannot be raised. */
  function StartOf(startDate: string, now: int, parse: string -> int): int {
    if startDate == "auto" then now else Instant(ParseJSTDate(startDate).value, parse)
  }

  /** `calculateSchedule`. */
  method CalculateSchedule(files: seq<File>, posting: Posting, now: int, parse: string -> int)
    returns (r: Result<seq<Entry>, ScheduleError>)
    ensures !posting.use ==> r == Ok(Disabled(files))
    ensures posting.use && !TimesOf(posting).Times? ==> r == Err(TimesRequired)
    ensures posting.use && TimesOf(posting).Times? ==>
      var clocks, start := TimesOf(posting).clocks, StartOf(posting.startDate, now, parse);
      if |clocks| == 0 && |files| > 0 then r == Err(NoTimeOfDay)
      else r.Ok? && ScheduleOf(files, clocks, start, posting.skipWeekends, r.value)
  {
    if !posting.use {
      return Ok(Disabled(files));
    }
    var times := TimesOf(posting);
    if !times.Times? {
      return Err(TimesRequired);
    }
    var start := StartOf(posting.startDate, now, parse);
    var schedule := FixedTimeSchedule(files, times.clocks, start, posting.skipWeekends);
    if schedule.None? {
      return Err(NoTimeOfDay);
    }
    return Ok(schedule.value);
  }

  /** Sorted slots are in order whatever their distance. */
  lemma {:induction false} BeforeChain(slots: seq<Slot>, i: nat, j: nat)
    requires forall k :: 0 <= k < |slots| - 1 ==> Before(slots[k], slots[k + 1])
    requires i < j < |slots|
    ensures Before(slots[i], slots[j])
    decreases j - i
  {
    if i + 1 < j {
      BeforeChain(slots, i + 1, j);
    }
  }

  /** There is only one way to pick the first `n` eligible slots. */
  lemma {:induction false} FirstEligibleUnique(clocks: seq<Clock>, start: int, skip: bool, a: seq<Slot>, b: seq<Slot>, k: nat)
    requires FirstEligible(clocks, start, skip, a) && FirstEligible(clocks, start, skip, b)
    requires |a| == |b| && k <= |a|
    ensures a[..k] == b[..k]
    decreases k
  {
    if k > 0 {
      FirstEligibleUnique(clocks, start, skip, a, b, k - 1);
      var i := k - 1;
      var n := |a|;
      NoMissedSlot(clocks, start, skip, a, b, i);
      NoMissedSlot(clocks, start, skip, b, a, i);
      assert a[..k] == a[..i] + [a[i]] && b[..k] == b[..i] + [b[i]];
    }
  }

  /** If `a` and `b` agree below `i`, `a[i]` does not come before `b[i]`:
      `b` would miss an eligible slot. */
  lemma NoMissedSlot(clocks: seq<Clock>, start: int, skip: bool, a: seq<Slot>, b: seq<Slot>, i: nat)
    requires FirstEligible(clocks, start, skip, a) && FirstEligible(clocks, start, skip, b)
    requires |a| == |b| && i < |a| && a[..i] == b[..i]
    ensures !Before(a[i], b[i])
  {
    var n := |b|;
    if Before(a[i], b[i]) {
      if i < n - 1 {
        BeforeChain(b, i, n - 1);
      }
      assert a[i] in b;
      var j :| 0 <= j < n && b[j] == a[i];
      if j < i {
        assert b[j] == a[j];
        BeforeChain(a, j, i);
      } else if j > i {
        BeforeChain(b, i, j);
      }
    }
  }

  /** The schedule is a function of the files, the times, the start and
      the weekend switch. */
  lemma ScheduleUnique(files: seq<File>, clocks: seq<Clock>, start: int, skip: bool, e1: seq<Entry>, e2: seq<Entry>)
    requires ScheduleOf(files, clocks, start, skip, e1) && ScheduleOf(files, clocks, start, skip, e2)
    ensures e1 == e2
  {
    var a :| Assigned(files, clocks, start, skip, a, e1);
    var b :| Assigned(files, clocks, start, skip, b, e2);
    FirstEligibleUnique(clocks, start, skip, a, b, |a|);
    assert a[..|a|] == a && b[..|b|] == b;
  }

  /** Every file gets one scheduled entry, in file order, at or after the
      start. */
  lemma ScheduleFacts(files: seq<File>, clocks: seq<Clock>, start: int, skip: bool, entries: seq<Entry>)
    requires ScheduleOf(files, clocks, start, skip, entries)
    ensures |entries| == |files|
    ensures forall k :: 0 <= k < |entries| ==>
      && entries[k].Scheduled?
      && entries[k].file == files[k].name && entries[k].path == files[k].path && entries[k].content == files[k].content
      && entries[k].time >= start
  {
    var slots: seq<Slot> :| Assigned(files, clocks, start, skip, slots, entries);
    assert forall k :: 0 <= k < |entries| ==> Eligible(clocks, start, skip, slots[k]);
  }

  /** Posting times that are times of day. */
  predicate WithinDay(clocks: seq<Clock>) {
    forall i :: 0 <= i < |clocks| ==> 0 <= Offset(clocks[i]) < DayMs
  }

  /** A slot of a time of day lies on its own day. */
  lemma SlotDay(clocks: seq<Clock>, s: Slot)
    requires WithinDay(clocks) && s.index < |clocks|
    ensures SlotTime(clocks, s) / DayMs == s.day
  {
    var o := Offset(clocks[s.index]);
    assert 0 <= o < DayMs;
    DayOf(s.day, o);
  }

  lemma DayOf(day: int, offset: int)
    requires 0 <= offset < DayMs
    ensures (day * DayMs + offset) / DayMs == day
  {
  }

  /** With times of day and weekend skipping, nothing is posted on a
      Saturday or a Sunday. */
  lemma NoWeekendPosts(files: seq<File>, clocks: seq<Clock>, start: int, entries: seq<Entry>)
    requires WithinDay(clocks) && ScheduleOf(files, clocks, start, true, entries)
    ensures forall k :: 0 <= k < |entries| ==> entries[k].Scheduled? && !IsWeekend(entries[k].time / DayMs)
  {
    var slots: seq<Slot> :| Assigned(files, clocks, start, true, slots, entries);
    forall k | 0 <= k < |entries| ensures entries[k].Scheduled? && !IsWeekend(entries[k].time / DayMs) {
      var s := slots[k];
      assert Eligible(clocks, start, true, s);
      SlotDay(clocks, s);
      assert entries[k] == EntryFor(files[k], clocks, s);
    }
  }

  /** Two times a day from a Thursday midnight: the third file goes to
      the first time of the next day. */
  lemma TwoTimesADay(f1: File, f2: File, f3: File)
    ensures var clocks := [Clock(9, 0), Clock(18, 0)];
      ScheduleOf([f1, f2, f3], clocks, 0, false, [
        Scheduled(f1.name, f1.path, f1.content, 9 * HourMs),
        Scheduled(f2.name, f2.path, f2.content, 18 * HourMs),
        Scheduled(f3.name, f3.path, f3.content, DayMs + 9 * HourMs)])
  {
    var clocks := [Clock(9, 0), Clock(18, 0)];
    var slots := [Slot(0, 0), Slot(0, 1), Slot(1, 0)];
    assert forall s: Slot :: s.day >= 0 && Before(s, Slot(1, 0)) ==> s == Slot(0, s.index);
    assert Assigned([f1, f2, f3], clocks, 0, false, slots, [
        Scheduled(f1.name, f1.path, f1.content, 9 * HourMs),
        Scheduled(f2.name, f2.path, f2.content, 18 * HourMs),
        Scheduled(f3.name, f3.path, f3.content, DayMs + 9 * HourMs)]);
  }

  /** The weekend check is made on the day, not on the posting instant: a
      time of `25:00` on a Friday posts on Saturday at 1:00. */
  lemma WeekendSkipChecksTheDay(f: File)
    ensures Weekday(1) == 5 && Weekday(2) == 6
    ensures ScheduleOf([f], [Clock(25, 0)], DayMs, true, [Scheduled(f.name, f.path, f.content, 2 * DayMs + HourMs)])
  {
    var clocks := [Clock(25, 0)];
    var slots := [Slot(1, 0)];
    assert Eligible(clocks, DayMs, true, Slot(1, 0));
    assert Assigned([f], clocks, DayMs, true, slots, [Scheduled(f.name, f.path, f.content, 2 * DayMs + HourMs)]);
  }

  predicate Earlier(a: Entry, b: Entry) {
    a.Scheduled? && b.Scheduled? && a.time < b.time
  }

  /** Times of day in strictly ascending order give strictly increasing
      posting instants. */
  lemma AscendingTimes(files: seq<File>, clocks: seq<Clock>, start: int, skip: bool, entries: seq<Entry>)
    requires WithinDay(clocks) && (forall i :: 0 <= i < |clocks| - 1 ==> Offset(clocks[i]) < Offset(clocks[i + 1]))
    requires ScheduleOf(files, clocks, start, skip, entries)
    ensures forall k :: 0 <= k < |entries| - 1 ==> Earlier(entries[k], entries[k + 1])
  {
    var slots: seq<Slot> :| Assigned(files, clocks, start, skip, slots, entries);
    forall k | 0 <= k < |entries| - 1 ensures Earlier(entries[k], entries[k + 1]) {
      assert Eligible(clocks, start, skip, slots[k]) && Eligible(clocks, start, skip, slots[k + 1]);
      SlotsIncrease(clocks, slots[k], slots[k + 1]);
    }
  }

  lemma SlotsIncrease(clocks: seq<Clock>, a: Slot, b: Slot)
    requires WithinDay(clocks) && (forall i :: 0 <= i < |clocks| - 1 ==> Offset(clocks[i]) < Offset(clocks[i + 1]))
    requires a.index < |clocks| && b.index < |clocks| && Before(a, b)
    ensures SlotTime(clocks, a) < SlotTime(clocks, b)
  {
    if a.day == b.day {
      OffsetsAscend(clocks, a.index, b.index);
    }
  }

  lemma {:induction false} OffsetsAscend(clocks: seq<Clock>, i: nat, j: nat)
    requires forall i :: 0 <= i < |clocks| - 1 ==> Offset(clocks[i]) < Offset(clocks[i + 1])
    requires i < j < |clocks|
    ensures Offset(clocks[i]) < Offset(clocks[j])
    decreases j - i
  {
    if i + 1 < j {
      OffsetsAscend(clocks, i + 1, j);
    }
  }

  /** `filterDueItems`: the scheduled entries due at `now`, in order;
      `currentTime` defaults to the clock reading. */
  function FilterDueItems(schedule: seq<Entry>, currentTime: Option<int>, clock: int): seq<Entry> {
    var now := if currentTime.Some? then currentTime.value else clock;
    Filter(schedule, (e: Entry) => e.Scheduled? && e.time <= now)
  }

  lemma DueMembers(schedule: seq<Entry>, now: int)
    ensures forall e :: e in FilterDueItems(schedule, Some(now), 0) <==> e in schedule && e.Scheduled? && e.time <= now
  {
    FilterMembers(schedule, (e: Entry) => e.Scheduled? && e.time <= now);
  }

  /** On a schedule whose instants never decrease, the due entries are a
      prefix of it. */
  lemma {:induction false} DuePrefix(schedule: seq<Entry>, now: int)
    requires forall k :: 0 <= k < |schedule| ==> schedule[k].Scheduled?
    requires forall k :: 0 <= k < |schedule| - 1 ==> schedule[k].time <= schedule[k + 1].time
    ensures var due := FilterDueItems(schedule, Some(now), 0);
      |due| <= |schedule| && due == schedule[..|due|]
    decreases |schedule|
  {
    var p := (e: Entry) => e.Scheduled? && e.time <= now;
    if schedule != [] {
      var n := |schedule| - 1;
      var init := schedule[..n];
      DuePrefix(init, now);
      if p(schedule[n]) {
        forall k | 0 <= k < |schedule| ensures p(schedule[k]) {
          TimesNondecreasing(schedule, k, n);
        }
        FilterAll(schedule, p);
      }
    }
  }

  lemma {:induction false} TimesNondecreasing(schedule: seq<Entry>, i: nat, j: nat)
    requires forall k :: 0 <= k < |schedule| ==> schedule[k].Scheduled?
    requires forall k :: 0 <= k < |schedule| - 1 ==> schedule[k].time <= schedule[k + 1].time
    requires i <= j < |schedule|
    ensures schedule[i].time <= schedule[j].time
    decreases j - i
  {
    if i < j {
      TimesNondecreasing(schedule, i + 1, j);
    }
  }
}
