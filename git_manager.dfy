/** The Git operations behind the settings window: the generated commit
    message, reading `git status --porcelain` and `git status -b
    --porcelain`, the outcome of `git pull`, and the add, commit and push
    sequence. A command run is an oracle that answers each command line;
    threads and callbacks become returned values. */
module GitManager {
  import opened Wrappers
  import opened Strings
  import opened Sorting

  /** What `subprocess.run` gives: a finished process, a timeout, or
      another exception (`git` missing, say), each with its text. */
  datatype Ran = Ran(code: int, stdout: string, stderr: string) | TimedOut(message: string) | Failed(message: string)

  /** Python's `s[:n]` and `s[n:]`, which clamp instead of failing. */
  function Head(s: string, n: nat): string {
    if n <= |s| then s[..n] else s
  }

  function From(s: string, n: nat): string {
    if n <= |s| then s[n..] else ""
  }

  // ---------------------------------------------------------------------
  // check_git_status, is_git_available

  /** `check_git_status`: inside a repository exactly when `git status`
      exits with 0. */
  function CheckGitStatus(r: Ran): bool {
    r.Ran? && r.code == 0
  }

  /** `is_git_available`: `git --version` ran at all, whatever its exit
      code; a timeout or a failure to start means no. */
  function IsGitAvailable(r: Ran): bool {
    r.Ran?
  }

  /** Inside a repository exactly when `git status` ran and exited with 0. */
  lemma CheckGitStatusCases(r: Ran, code: int, out: string, err: string)
    ensures CheckGitStatus(Ran(code, out, err)) <==> code == 0
    ensures r.TimedOut? || r.Failed? ==> !CheckGitStatus(r)
  {
  }

  /** `git` counts as available even when the command fails, but never after
      a timeout or a failure to start; being inside a repository needs it. */
  lemma GitAvailableCases(r: Ran, code: int, out: string, err: string)
    ensures IsGitAvailable(Ran(code, out, err))
    ensures r.TimedOut? || r.Failed? ==> !IsGitAvailable(r)
    ensures CheckGitStatus(r) ==> IsGitAvailable(r)
  {
  }

  // ---------------------------------------------------------------------
  // generate_commit_message

  const ConfigChange: string := "投稿設定更新"
  const WorkflowChange: string := "GitHub Actions最適化"
  const OtherChange: string := "設定ファイル更新"

  /** The fixed trailer after the change list. */
  const Trailer: string := "\n\n\U{1F916} Generated with [Claude Code](https://claude.ai/code)\n\nCo-Authored-By: Claude <noreply@anthropic.com>"

  predicate IsConfigPath(p: string) { Contains(p, "sns.json") }
  predicate IsWorkflowPath(p: string) { Contains(p, "sns.yml") || Contains(p, "workflow") }

  /** The list of changes: the posting settings and the workflow, in that
      order, each if some path is of its kind; else a generic entry. */
  function ChangeList(paths: seq<string>): seq<string> {
    var changes := (if Filter(paths, IsConfigPath) != [] then [ConfigChange] else [])
      + (if Filter(paths, IsWorkflowPath) != [] then [WorkflowChange] else []);
    if changes == [] then [OtherChange] else changes
  }

  function ChangeText(paths: seq<string>): string {
    Join(ChangeList(paths), ", ")
  }

  /** `generate_commit_message`. */
  function CommitMessage(paths: seq<string>): string {
    "feat: " + ChangeText(paths) + Trailer
  }

  lemma FilterNonEmpty(paths: seq<string>, p: string -> bool)
    ensures Filter(paths, p) != [] <==> exists i :: 0 <= i < |paths| && p(paths[i])
  {
    FilterMembers(paths, p);
    if Filter(paths, p) != [] {
      assert Filter(paths, p)[0] in Filter(paths, p);
    }
    if exists i :: 0 <= i < |paths| && p(paths[i]) {
      var i :| 0 <= i < |paths| && p(paths[i]);
      assert paths[i] in Filter(paths, p);
    }
  }

  /** Which changes the message lists, in both directions: the settings
      entry exactly when some path holds `sns.json`, the workflow entry
      exactly when some path holds `sns.yml` or `workflow`, and the generic
      entry exactly when neither; the settings entry comes first. */
  lemma ChangeListCases(paths: seq<string>)
    ensures var cfg := exists i :: 0 <= i < |paths| && IsConfigPath(paths[i]);
      var wf := exists i :: 0 <= i < |paths| && IsWorkflowPath(paths[i]);
      ChangeList(paths) == (if cfg && wf then [ConfigChange, WorkflowChange]
        else if cfg then [ConfigChange] else if wf then [WorkflowChange] else [OtherChange])
  {
    FilterNonEmpty(paths, IsConfigPath);
    FilterNonEmpty(paths, IsWorkflowPath);
  }

  /** The message begins with `feat: ` and always ends with the trailer. */
  lemma CommitMessageFrame(paths: seq<string>)
    ensures StartsWith(CommitMessage(paths), "feat: ")
    ensures EndsWith(CommitMessage(paths), Trailer)
  {
    var m := CommitMessage(paths);
    assert m[..6] == "feat: ";
    assert m[|m| - |Trailer|..] == Trailer;
  }

  /** The change text tells apart all four cases: equal messages come from
      paths of the same kinds. */
  lemma CommitMessageDetermines(a: seq<string>, b: seq<string>)
    requires CommitMessage(a) == CommitMessage(b)
    ensures ChangeList(a) == ChangeList(b)
  {
    var ta, tb := ChangeText(a), ChangeText(b);
    assert |ta| == |tb|;
    assert ("feat: " + ta + Trailer)[6..6 + |ta|] == ta;
    assert ("feat: " + tb + Trailer)[6..6 + |tb|] == tb;
    assert ta == tb;
    assert [ConfigChange, WorkflowChange][1..] == [WorkflowChange];
    assert Join([WorkflowChange], ", ") == WorkflowChange;
    var both := Join([ConfigChange, WorkflowChange], ", ");
    assert both == ConfigChange + ", " + WorkflowChange;
    assert |ConfigChange| == 6 && |WorkflowChange| == 17 && |OtherChange| == 8;
    assert ConfigChange[0] != OtherChange[0];
    ChangeListCases(a);
    ChangeListCases(b);
  }

  // ---------------------------------------------------------------------
  // get_git_status

  datatype Change = Change(status: string, file: string)

  /** One line of `git status --porcelain`: the two status letters, then
      the path after the separating space. */
  function ChangeOf(line: string): Change {
    Change(Head(line, 2), From(line, 3))
  }

  predicate Blank(line: string) { PyStrip(line) == [] }

  /** The changes of the lines that are not blank, in order. */
  function ChangesOf(lines: seq<string>): seq<Change>
    decreases |lines|
  {
    if lines == [] then []
    else ChangesOf(lines[..|lines| - 1]) + (if Blank(lines[|lines| - 1]) then [] else [ChangeOf(lines[|lines| - 1])])
  }

  datatype GitStatus = StatusError(error: string) | GitStatus(hasChanges: bool, changes: seq<Change>, currentBranch: string)

  /** `get_git_status` given what `git status --porcelain` and `git branch
      --show-current` give. The output is stripped before it is split into
      lines. */
  method GetGitStatus(status: Ran, branch: Ran) returns (r: GitStatus)
    ensures status.Ran? && status.code != 0 ==> r == StatusError("Git status取得失敗")
    ensures !status.Ran? ==> r == StatusError(status.message)
    ensures status.Ran? && status.code == 0 && branch.Ran? ==> (r.GitStatus? &&
      r.changes == ChangesOf(Split(PyStrip(status.stdout), '\n')) && r.hasChanges == (r.changes != []) &&
      r.currentBranch == (if branch.code == 0 then PyStrip(branch.stdout) else "unknown"))
    ensures status.Ran? && status.code == 0 && !branch.Ran? ==> r == StatusError(branch.message)
  {
    if !status.Ran? {
      return StatusError(status.message);
    }
    if status.code != 0 {
      return StatusError("Git status取得失敗");
    }
    var lines := Split(PyStrip(status.stdout), '\n');
    var changes: seq<Change> := [];
    for i := 0 to |lines|
      invariant changes == ChangesOf(lines[..i])
    {
      assert lines[..i + 1][..i] == lines[..i];
      if PyStrip(lines[i]) != [] {
        changes := changes + [ChangeOf(lines[i])];
      }
    }
    assert lines[..|lines|] == lines;
    if !branch.Ran? {
      return StatusError(branch.message);
    }
    var currentBranch := if branch.code == 0 then PyStrip(branch.stdout) else "unknown";
    r := GitStatus(|changes| > 0, changes, currentBranch);
  }

  lemma {:induction false} ChangesOfMembers(lines: seq<string>)
    ensures ChangesOf(lines) != [] <==> exists i :: 0 <= i < |lines| && !Blank(lines[i])
    ensures |ChangesOf(lines)| <= |lines|
    decreases |lines|
  {
    if lines != [] {
      var init := lines[..|lines| - 1];
      ChangesOfMembers(init);
      if exists i :: 0 <= i < |init| && !Blank(init[i]) {
        var i :| 0 <= i < |init| && !Blank(init[i]);
        assert lines[i] == init[i];
      }
      if exists i :: 0 <= i < |lines| && !Blank(lines[i]) {
        var i :| 0 <= i < |lines| && !Blank(lines[i]);
        if i < |init| {
          assert init[i] == lines[i];
        }
      }
    }
  }

  /** There are changes exactly when the stripped output has a line that
      is not blank, and each change splits its line into the status and the
      path around the separating character. */
  lemma GitStatusChanges(stdout: string)
    ensures ChangesOf(Split(PyStrip(stdout), '\n')) != [] <==>
      exists i :: 0 <= i < |Split(PyStrip(stdout), '\n')| && !Blank(Split(PyStrip(stdout), '\n')[i])
    ensures forall line :: |line| >= 3 ==> line == ChangeOf(line).status + [line[2]] + ChangeOf(line).file
  {
    ChangesOfMembers(Split(PyStrip(stdout), '\n'));
    forall line: string | |line| >= 3
      ensures line == ChangeOf(line).status + [line[2]] + ChangeOf(line).file
    {
      assert line == line[..2] + [line[2]] + line[3..];
    }
  }

  /** The porcelain line of one change: status, a space, the path. */
  function PorcelainLine(c: Change): string {
    c.status + " " + c.file
  }

  function PorcelainLines(cs: seq<Change>): (lines: seq<string>)
    ensures |lines| == |cs|
    ensures forall i :: 0 <= i < |cs| ==> lines[i] == PorcelainLine(cs[i])
  {
    seq(|cs|, i requires 0 <= i < |cs| => PorcelainLine(cs[i]))
  }

  /** What `git status --porcelain` prints: one line per change, each
      ended by a line break. */
  function Porcelain(cs: seq<Change>): string {
    if cs == [] then "" else Join(PorcelainLines(cs), "\n") + "\n"
  }

  /** The reading of the porcelain output that keeps each line whole:
      split at line breaks without stripping the text first. */
  function ParsePorcelain(stdout: string): seq<Change> {
    ChangesOf(Split(stdout, '\n'))
  }

  /** A change git can report: two status letters that are not both
      blank, a path without line breaks. */
  predicate WellFormed(c: Change) {
    |c.status| == 2 && '\n' !in c.status && '\n' !in c.file && !(IsPySpace(c.status[0]) && IsPySpace(c.status[1]))
  }

  lemma JoinSnocEmpty(parts: seq<string>, sep: string)
    requires parts != []
    ensures Join(parts + [""], sep) == Join(parts, sep) + sep
    decreases |parts|
  {
    if |parts| == 1 {
      assert parts + [""] == [parts[0], ""];
    } else {
      assert (parts + [""])[1..] == parts[1..] + [""];
      JoinSnocEmpty(parts[1..], sep);
    }
  }

  lemma StripKeepsLetter(line: string, i: nat)
    requires i < |line| && !IsPySpace(line[i])
    ensures !Blank(line)
  {
    TrimShape(line, IsPySpace);
  }

  lemma PorcelainLineRead(c: Change)
    requires WellFormed(c)
    ensures !Blank(PorcelainLine(c)) && ChangeOf(PorcelainLine(c)) == c
  {
    var line := PorcelainLine(c);
    assert line[..2] == c.status && line[3..] == c.file;
    if !IsPySpace(c.status[0]) {
      StripKeepsLetter(line, 0);
    } else {
      StripKeepsLetter(line, 1);
    }
  }

  lemma {:induction false} ChangesOfWellFormed(cs: seq<Change>)
    requires forall i :: 0 <= i < |cs| ==> WellFormed(cs[i])
    ensures ChangesOf(PorcelainLines(cs)) == cs
    decreases |cs|
  {
    if cs != [] {
      var n := |cs| - 1;
      ChangesOfWellFormed(cs[..n]);
      assert PorcelainLines(cs)[..n] == PorcelainLines(cs[..n]);
      PorcelainLineRead(cs[n]);
      assert cs[..n] + [cs[n]] == cs;
    }
  }

  /** Read without stripping, the porcelain output gives back exactly the
      changes git reported, in order. */
  lemma ParsePorcelainRoundTrip(cs: seq<Change>)
    requires forall i :: 0 <= i < |cs| ==> WellFormed(cs[i])
    ensures ParsePorcelain(Porcelain(cs)) == cs
  {
    if cs != [] {
      var lines := PorcelainLines(cs);
      JoinSnocEmpty(lines, "\n");
      forall k | 0 <= k < |lines + [""]|
        ensures '\n' !in (lines + [""])[k]
      {
        if k < |lines| {
          var c := cs[k];
          assert lines[k] == c.status + " " + c.file;
        }
      }
      SplitJoin(lines + [""], '\n');
      assert Split(Porcelain(cs), '\n') == lines + [""];
      assert (lines + [""])[..|lines|] == lines;
      assert Blank("");
      ChangesOfWellFormed(cs);
    }
  }

  /** An unstaged change on the first line, `" M <path>"` say, loses its
      leading space to the strip: its status reads `"M "` and its path
      loses its first character. */
  lemma StripEatsFirstStatus(x: char, file: string)
    requires !IsPySpace(x) && x != '\n'
    requires file != [] && !IsPySpace(file[|file| - 1]) && '\n' !in file
    ensures ChangesOf(Split(PyStrip(" " + [x] + " " + file + "\n"), '\n')) == [Change([x, ' '], file[1..])]
  {
    var out := " " + [x] + " " + file + "\n";
    var stripped := [x] + " " + file;
    assert out[1..] == stripped + "\n";
    assert TrimStart(out, IsPySpace) == TrimStart(out[1..], IsPySpace) == out[1..];
    assert (stripped + "\n")[..|stripped|] == stripped;
    assert TrimEnd(stripped + "\n", IsPySpace) == TrimEnd(stripped, IsPySpace) == stripped;
    assert '\n' !in stripped;
    SplitNoSeparator(stripped, '\n');
    StripKeepsLetter(stripped, 0);
    assert ChangesOf([stripped]) == ChangesOf([stripped][..0]) + [ChangeOf(stripped)];
    assert stripped[..2] == [x, ' '] && stripped[3..] == file[1..];
  }

  /** Read without stripping, the same output gives the change as git
      reported it. */
  lemma UnstrippedKeepsFirstStatus(x: char, file: string)
    requires !IsPySpace(x) && x != '\n'
    requires '\n' !in file
    ensures ParsePorcelain(" " + [x] + " " + file + "\n") == [Change([' ', x], file)]
  {
    var line := " " + [x] + " " + file;
    assert '\n' !in line;
    assert Join([line, ""], "\n") == line + "\n";
    SplitJoin([line, ""], '\n');
    StripKeepsLetter(line, 1);
    assert Blank("");
    assert [line, ""][..1] == [line];
    assert ChangesOf([line]) == ChangesOf([line][..0]) + [ChangeOf(line)];
    assert line[..2] == [' ', x] && line[3..] == file;
  }

  // ---------------------------------------------------------------------
  // check_remote_changes

  lemma DigitRunAllDigits(t: string)
    ensures AllDigits(t[..DigitRun(t)])
    decreases |t|
  {
    if t != [] && IsDigit(t[0]) {
      DigitRunAllDigits(t[1..]);
      assert t[..DigitRun(t)] == [t[0]] + t[1..][..DigitRun(t[1..])];
    }
  }

  /** A match of `lead`, one or more ASCII digits and then one of
      `closers`, at the start of `t`: the number read. */
  function MatchHere(t: string, lead: string, closers: set<char>): Option<nat> {
    if !StartsWith(t, lead) then None
    else
      var rest := t[|lead|..];
      var k := DigitRun(rest);
      DigitRunAllDigits(rest);
      if k >= 1 && k < |rest| && rest[k] in closers then Some(DigitsValue(rest[..k])) else None
  }

  /** `re.search`: the leftmost match in `t`. */
  function Search(t: string, lead: string, closers: set<char>): Option<nat>
    decreases |t|
  {
    if MatchHere(t, lead, closers).Some? || t == [] then MatchHere(t, lead, closers)
    else Search(t[1..], lead, closers)
  }

  /** The counts as read: `[behind N]` and `[ahead N]`, each 0 when
      absent. */
  const BracketBehind: string := "[behind "
  const AheadLead: string := "[ahead "
  const BehindLead: string := "behind "

  function BehindAsWritten(line: string): nat {
    var m := Search(line, BracketBehind, {']'});
    if m.Some? then m.value else 0
  }

  function AheadAsWritten(line: string): nat {
    var m := Search(line, AheadLead, {']'});
    if m.Some? then m.value else 0
  }

  /** The counts as git prints them, including a branch that is both ahead
      and behind (`[ahead A, behind B]`). */
  function Behind(line: string): nat {
    var m := Search(line, BehindLead, {']'});
    if m.Some? then m.value else 0
  }

  function Ahead(line: string): nat {
    var m := Search(line, AheadLead, {']', ','});
    if m.Some? then m.value else 0
  }

  datatype RemoteStatus = RemoteError(error: string) | RemoteStatus(hasChanges: bool, behind: nat, ahead: nat)

  const TimeoutMessage: string := "Git操作がタイムアウトしました"

  function RanError(r: Ran): string
    requires !r.Ran?
  {
    if r.TimedOut? then TimeoutMessage else r.message
  }

  /** `check_remote_changes` given what `git fetch` and `git status -b
      --porcelain` give, reading the counts with `behind` and `ahead`. */
  function CheckRemoteChangesWith(fetch: Ran, status: Ran, behind: string -> nat, ahead: string -> nat): RemoteStatus {
    if !fetch.Ran? then RemoteError(RanError(fetch))
    else if fetch.code != 0 then RemoteError("git fetch失敗: " + fetch.stderr)
    else if !status.Ran? then RemoteError(RanError(status))
    else if status.code != 0 then RemoteError("git status取得失敗")
    else
      var first := Split(PyStrip(status.stdout), '\n')[0];
      RemoteStatus(behind(first) > 0, behind(first), ahead(first))
  }

  /** `check_remote_changes` as written. */
  function CheckRemoteChangesAsWritten(fetch: Ran, status: Ran): RemoteStatus {
    CheckRemoteChangesWith(fetch, status, BehindAsWritten, AheadAsWritten)
  }

  /** `check_remote_changes` with the counts read as git prints them. */
  function CheckRemoteChanges(fetch: Ran, status: Ran): RemoteStatus {
    CheckRemoteChangesWith(fetch, status, Behind, Ahead)
  }

  /** Remote changes are reported exactly when the branch is behind, and
      each failing step gives its own error. */
  lemma RemoteChangesCases(fetch: Ran, status: Ran)
    ensures var r := CheckRemoteChanges(fetch, status);
      r.RemoteStatus? <==> fetch.Ran? && fetch.code == 0 && status.Ran? && status.code == 0
    ensures var r := CheckRemoteChanges(fetch, status);
      r.RemoteStatus? ==> (r.hasChanges <==> r.behind > 0)
    ensures fetch.TimedOut? ==> CheckRemoteChanges(fetch, status) == RemoteError(TimeoutMessage)
  {
  }

  /** Text free of the lead's first character holds no match, so the
      search goes on past it. */
  lemma {:induction false} SearchSkips(x: string, y: string, lead: string, closers: set<char>)
    requires lead != [] && lead[0] !in x
    ensures Search(x + y, lead, closers) == Search(y, lead, closers)
    decreases |x|
  {
    if x != [] {
      assert (x + y)[0] == x[0];
      assert (x + y)[1..] == x[1..] + y;
      SearchSkips(x[1..], y, lead, closers);
    } else {
      assert x + y == y;
    }
  }

  lemma SearchNone(t: string, lead: string, closers: set<char>)
    requires lead != [] && lead[0] !in t
    ensures Search(t, lead, closers) == None
  {
    SearchSkips(t, [], lead, closers);
    assert t + [] == t;
  }

  /** The match at the start of `lead + <digits of n> + c + tail`. */
  lemma MatchNumber(lead: string, n: nat, c: char, tail: string, closers: set<char>)
    requires !IsDigit(c)
    ensures MatchHere(lead + (NatToString(n) + ([c] + tail)), lead, closers) ==
      if c in closers then Some(n) else None
  {
    var d := NatToString(n);
    NatToStringDigits(n);
    var t := lead + (d + ([c] + tail));
    assert t[..|lead|] == lead;
    var rest := t[|lead|..];
    assert rest == d + ([c] + tail);
    DigitRunStops(d, c, tail);
    assert d + [c] + tail == rest;
    assert rest[..|d|] == d;
  }

  lemma DigitsLack(n: nat, c: char)
    requires !IsDigit(c)
    ensures c !in NatToString(n)
  {
    NatToStringDigits(n);
    var d := NatToString(n);
    forall k | 0 <= k < |d|
      ensures d[k] != c
    {
      assert IsDigit(d[k]);
    }
  }

  /** The first line of `git status -b --porcelain` for a branch both
      ahead and behind its upstream: `...[ahead A, behind B]...`. */
  function DivergedLine(prefix: string, a: nat, b: nat, suffix: string): string {
    prefix + (AheadLead + (NatToString(a) + ([','] + (" " + (BehindLead + (NatToString(b) + ([']'] + suffix)))))))
  }

  /** The code as written reads a branch that is both ahead and behind
      (`[ahead 1, behind 2]`, say) as neither, so the commits waiting on
      the remote go unreported. */
  lemma DivergedAsWritten(prefix: string, a: nat, b: nat, suffix: string)
    requires '[' !in prefix && '[' !in suffix
    ensures BehindAsWritten(DivergedLine(prefix, a, b, suffix)) == 0
    ensures AheadAsWritten(DivergedLine(prefix, a, b, suffix)) == 0
  {
    var da, db := NatToString(a), NatToString(b);
    var tail := " " + (BehindLead + (db + ([']'] + suffix)));
    var rest := AheadLead + (da + ([','] + tail));
    DigitsLack(a, '[');
    DigitsLack(b, '[');
    assert '[' !in " " && '[' !in BehindLead && '[' !in AheadLead[1..];
    assert rest[1..] == AheadLead[1..] + (da + ([','] + tail));
    assert '[' !in rest[1..];
    SearchSkips(prefix, rest, BracketBehind, {']'});
    assert rest[1] == AheadLead[1] != BracketBehind[1];
    assert !StartsWith(rest, BracketBehind);
    SearchNone(rest[1..], BracketBehind, {']'});
    SearchSkips(prefix, rest, AheadLead, {']'});
    MatchNumber(AheadLead, a, ',', tail, {']'});
    SearchNone(rest[1..], AheadLead, {']'});
  }

  /** Read as git prints it, the same line gives both counts. */
  lemma DivergedRead(prefix: string, a: nat, b: nat, suffix: string)
    requires '[' !in prefix && 'b' !in prefix
    ensures Behind(DivergedLine(prefix, a, b, suffix)) == b
    ensures Ahead(DivergedLine(prefix, a, b, suffix)) == a
  {
    var da, db := NatToString(a), NatToString(b);
    var post := BehindLead + (db + ([']'] + suffix));
    var tail := " " + post;
    var rest := AheadLead + (da + ([','] + tail));
    SearchSkips(prefix, rest, AheadLead, {']', ','});
    MatchNumber(AheadLead, a, ',', tail, {']', ','});
    DigitsLack(a, 'b');
    assert 'b' !in AheadLead && 'b' !in " " && 'b' !in [','];
    SearchSkips(prefix, rest, BehindLead, {']'});
    SearchSkips(AheadLead, da + ([','] + tail), BehindLead, {']'});
    SearchSkips(da, [','] + tail, BehindLead, {']'});
    SearchSkips([','], tail, BehindLead, {']'});
    SearchSkips(" ", post, BehindLead, {']'});
    MatchNumber(BehindLead, b, ']', suffix, {']'});
  }

  /** A branch only behind is read the same both ways. */
  lemma BehindOnlyAgrees(prefix: string, n: nat, suffix: string)
    requires '[' !in prefix && 'b' !in prefix
    ensures var line := prefix + ("[" + (BehindLead + (NatToString(n) + ([']'] + suffix))));
      BehindAsWritten(line) == n && Behind(line) == n
  {
    var post := BehindLead + (NatToString(n) + ([']'] + suffix));
    assert "[" + post == BracketBehind + (NatToString(n) + ([']'] + suffix));
    SearchSkips(prefix, "[" + post, BracketBehind, {']'});
    MatchNumber(BracketBehind, n, ']', suffix, {']'});
    SearchSkips(prefix, "[" + post, BehindLead, {']'});
    SearchSkips("[", post, BehindLead, {']'});
    MatchNumber(BehindLead, n, ']', suffix, {']'});
  }

  // ---------------------------------------------------------------------
  // pull_from_remote

  /** `pull_from_remote`'s outcome, as the completion callback gets it. */
  function PullOutcome(pull: Ran): (bool, string) {
    if pull.TimedOut? then (false, "Git pullがタイムアウトしました")
    else if pull.Failed? then (false, "Git pullエラー: " + pull.message)
    else if pull.code != 0 then
      if Contains(pull.stdout, "CONFLICT") || Contains(pull.stderr, "CONFLICT") then
        (false, "Git pullエラー: マージ競合が発生しました。手動で解決してください。")
      else (false, "Git pullエラー: git pull失敗: " + pull.stderr)
    else
      var output := PyStrip(pull.stdout);
      if Contains(output, "Already up to date") then (true, "既に最新状態です")
      else if Contains(output, "Fast-forward") || Contains(output, "Merge made") then (true, "最新情報を取得しました")
      else (true, "同期が完了しました")
  }

  const PullProgress: string := "最新情報を取得中..."

  /** `pull_from_remote`'s worker: the one progress message, sent before
      `git pull` runs, and the outcome for the completion callback. */
  function PullFromRemote(pull: Ran): (r: (seq<string>, (bool, string)))
    ensures r.0 == [PullProgress]
    ensures r.1.0 <==> pull.Ran? && pull.code == 0
  {
    PullCases(pull);
    ([PullProgress], PullOutcome(pull))
  }

  /** The pull succeeds exactly when git exits with 0; a failure reports a
      merge conflict exactly when either stream mentions `CONFLICT`; a
      success says which kind of update it was, an up-to-date branch
      first. */
  lemma PullCases(pull: Ran)
    ensures PullOutcome(pull).0 <==> pull.Ran? && pull.code == 0
    ensures pull.Ran? && pull.code != 0 ==>
      (PullOutcome(pull).1 == "Git pullエラー: マージ競合が発生しました。手動で解決してください。" <==>
       Contains(pull.stdout, "CONFLICT") || Contains(pull.stderr, "CONFLICT"))
    ensures pull.Ran? && pull.code == 0 ==> (PullOutcome(pull).1 ==
      (if Contains(PyStrip(pull.stdout), "Already up to date") then "既に最新状態です"
       else if Contains(PyStrip(pull.stdout), "Fast-forward") || Contains(PyStrip(pull.stdout), "Merge made") then "最新情報を取得しました"
       else "同期が完了しました"))
  {
    if pull.Ran? && pull.code != 0 && !(Contains(pull.stdout, "CONFLICT") || Contains(pull.stderr, "CONFLICT")) {
      var m := "Git pullエラー: git pull失敗: " + pull.stderr;
      assert m[13] != "Git pullエラー: マージ競合が発生しました。手動で解決してください。"[13];
    }
  }

  // ---------------------------------------------------------------------
  // commit_and_push

  function AddCommand(paths: seq<string>): seq<string> { ["git", "add"] + paths }
  function CommitCommand(message: string): seq<string> { ["git", "commit", "-m", message] }
  const PushCommand: seq<string> := ["git", "push"]

  /** The commands in their order. */
  function Steps(paths: seq<string>, message: string): seq<seq<string>> {
    [AddCommand(paths), CommitCommand(message), PushCommand]
  }

  const StepNames: seq<string> := ["git add失敗: ", "git commit失敗: ", "git push失敗: "]

  /** Whether a step's run lets the sequence go on. */
  predicate StepOk(r: Ran) { r.Ran? && r.code == 0 }

  /** Why a step stopped the sequence. */
  function StepFailure(k: nat, r: Ran): string
    requires k < 3 && !StepOk(r)
  {
    if r.TimedOut? then "Git操作がタイムアウトしました"
    else if r.Failed? then "Git操作エラー: " + r.message
    else "Git操作エラー: " + StepNames[k] + r.stderr
  }

  /** The steps run: each after the one before it succeeded. */
  function StepsRun(paths: seq<string>, message: string, run: seq<string> -> Ran, k: nat): (s: seq<seq<string>>)
    requires k <= 3
    ensures |s| <= 3 - k
    decreases 3 - k
  {
    if k == 3 then []
    else [Steps(paths, message)[k]] + (if StepOk(run(Steps(paths, message)[k])) then StepsRun(paths, message, run, k + 1) else [])
  }

  const DoneMessage: string := "GitHubへの反映が完了しました"

  /** The outcome the completion callback gets. */
  function PushOutcome(paths: seq<string>, message: string, run: seq<string> -> Ran, k: nat): (bool, string)
    requires k <= 3
    decreases 3 - k
  {
    if k == 3 then (true, DoneMessage)
    else
      var r := run(Steps(paths, message)[k]);
      if StepOk(r) then PushOutcome(paths, message, run, k + 1) else (false, StepFailure(k, r))
  }

  const StartMessage: string := "Git操作を開始..."
  const StepMessages: seq<string> := ["ファイルをステージング中...", "コミット中...", "GitHubにプッシュ中..."]

  /** One step of the sequence: it runs, and the rest follows only when it
      succeeded. */
  lemma StepUnfold(paths: seq<string>, message: string, run: seq<string> -> Ran, k: nat)
    requires k < 3
    ensures StepsRun(paths, message, run, k) ==
      [Steps(paths, message)[k]] + (if StepOk(run(Steps(paths, message)[k])) then StepsRun(paths, message, run, k + 1) else [])
    ensures PushOutcome(paths, message, run, k) ==
      (if StepOk(run(Steps(paths, message)[k])) then PushOutcome(paths, message, run, k + 1)
       else (false, StepFailure(k, run(Steps(paths, message)[k]))))
  {
  }

  lemma MessagesSnoc(k: nat)
    requires k < 3
    ensures StepMessages[..k + 1] == StepMessages[..k] + [StepMessages[k]]
  {
  }

  /** `commit_and_push`'s worker: the progress messages reported, the
      commands run in order, and the one outcome for the completion
      callback. */
  method CommitAndPush(paths: seq<string>, message: string, run: seq<string> -> Ran)
    returns (progress: seq<string>, ran: seq<seq<string>>, outcome: (bool, string))
    ensures ran == StepsRun(paths, message, run, 0)
    ensures outcome == PushOutcome(paths, message, run, 0)
    ensures |progress| == |ran| + 1
    ensures progress == [StartMessage] + StepMessages[..|ran|]
  {
    var steps := Steps(paths, message);
    progress := [StartMessage];
    ran := [];
    var k := 0;
    while k < 3
      invariant k <= 3 && |ran| == k
      invariant progress == [StartMessage] + StepMessages[..k]
      invariant forall j :: 0 <= j < k ==> StepOk(run(steps[j]))
      invariant ran + StepsRun(paths, message, run, k) == StepsRun(paths, message, run, 0)
      invariant PushOutcome(paths, message, run, k) == PushOutcome(paths, message, run, 0)
    {
      MessagesSnoc(k);
      progress := progress + [StepMessages[k]];
      var r := run(steps[k]);
      ran := ran + [steps[k]];
      StepUnfold(paths, message, run, k);
      if !StepOk(r) {
        outcome := (false, StepFailure(k, r));
        return;
      }
      k := k + 1;
    }
    outcome := (true, DoneMessage);
  }

  /** The steps run are always add, then commit, then push, cut short at
      the first that fails; the sequence succeeds exactly when all three
      ran and exited with 0. */
  lemma CommitAndPushOrder(paths: seq<string>, message: string, run: seq<string> -> Ran)
    ensures var ran := StepsRun(paths, message, run, 0);
      1 <= |ran| && ran == Steps(paths, message)[..|ran|]
    ensures var ran := StepsRun(paths, message, run, 0);
      forall j :: 0 <= j < |ran| - 1 ==> StepOk(run(ran[j]))
    ensures PushOutcome(paths, message, run, 0).0 <==>
      forall j :: 0 <= j < 3 ==> StepOk(run(Steps(paths, message)[j]))
    ensures !StepOk(run(AddCommand(paths))) ==> StepsRun(paths, message, run, 0) == [AddCommand(paths)]
  {
    var s := Steps(paths, message);
    assert s[0] == AddCommand(paths);
    if StepOk(run(s[0])) {
      if StepOk(run(s[1])) {
        assert s[..3] == s;
      }
    }
  }
}
