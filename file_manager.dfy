/** The post files of the Node command-line tool: finding the queued `.txt`
    files of a directory, checking their contents, and moving a file out of
    the queue once it has been posted (or has failed). The file system is a
    listing handed in (for reading) and a `Directory.Folder` keyed by full
    paths (for renaming). */
module FileManager {
  import opened Wrappers
  import opened Strings
  import opened Sorting
  import opened Directory

  // ---------------------------------------------------------------------
  // Paths (POSIX `path.join`, `path.basename`, `path.dirname`)

  function JoinPath(dir: string, name: string): string {
    dir + "/" + name
  }

  /** The index of the last `/` of a path, if it has one. */
  function LastSlash(p: string): (r: Option<nat>)
    ensures r.Some? ==> r.value < |p| && p[r.value] == '/' && '/' !in p[r.value + 1..]
    ensures r.None? ==> '/' !in p
    decreases |p|
  {
    if p == [] then None
    else if p[|p| - 1] == '/' then Some(|p| - 1)
    else
      var r := LastSlash(p[..|p| - 1]);
      assert p[..|p| - 1] + [p[|p| - 1]] == p;
      if r.Some? then
        assert p[r.value + 1..] == p[..|p| - 1][r.value + 1..] + [p[|p| - 1]];
        r
      else None
  }

  function BaseName(p: string): string {
    match LastSlash(p)
    case None => p
    case Some(i) => p[i + 1..]
  }

  function DirName(p: string): string {
    match LastSlash(p)
    case None => "."
    case Some(i) => if i == 0 then "/" else p[..i]
  }

  /** Joining a directory and a name without `/` is undone by `dirname`
      and `basename`. */
  lemma JoinPathParts(dir: string, name: string)
    requires dir != [] && '/' !in name
    ensures DirName(JoinPath(dir, name)) == dir
    ensures BaseName(JoinPath(dir, name)) == name
  {
    var p := JoinPath(dir, name);
    assert p[|dir|] == '/';
    assert p[|dir| + 1..] == name;
    var r := LastSlash(p);
    assert r.Some?;
    assert r.value == |dir| by {
      if r.value < |dir| {
        assert false;
      } else if r.value > |dir| {
        assert false;
      }
    }
    assert p[..|dir|] == dir;
  }

  /** `basename` never holds a `/`. */
  lemma BaseNameLacksSlash(p: string)
    ensures '/' !in BaseName(p)
  {
  }

  // ---------------------------------------------------------------------
  // getSnsFiles

  /** What `fs.stat` and `fs.readFile` find behind a listed name: a regular
      file with its text, size and modification time, something that is
      not a regular file, or an error. */
  datatype Stat = Regular(content: string, size: nat, mtime: nat) | NotRegular | Unreadable

  datatype Listed = Listed(name: string, stat: Stat)

  datatype SnsFile = SnsFile(name: string, path: string, content: string, size: nat, modified: nat)

  /** The directory searched: the one given, else `sns` under the working
      directory. */
  function SnsDir(snsDir: Option<string>, cwd: string): string {
    if snsDir.Some? && snsDir.value != "" then snsDir.value else JoinPath(cwd, "sns")
  }

  /** A queued post: a `.txt` file other than `README.txt`. */
  predicate IsPostName(name: string) {
    EndsWith(name, ".txt") && name != "README.txt"
  }

  predicate Keeps(e: Listed) {
    IsPostName(e.name) && e.stat.Regular?
  }

  function FileOf(dir: string, e: Listed): SnsFile
    requires e.stat.Regular?
  {
    SnsFile(e.name, JoinPath(dir, e.name), JsTrim(e.stat.content), e.stat.size, e.stat.mtime)
  }

  /** The records the loop collects, in listing order; names that are not
      regular files or cannot be read are skipped. */
  function Loaded(dir: string, listing: seq<Listed>): seq<SnsFile>
    decreases |listing|
  {
    if listing == [] then []
    else
      var e := listing[|listing| - 1];
      Loaded(dir, listing[..|listing| - 1]) + (if Keeps(e) then [FileOf(dir, e)] else [])
  }

  /** `(a, b) => a.name.localeCompare(b.name)` as an order on records. */
  function ByName(before: (string, string) -> bool): (SnsFile, SnsFile) -> bool {
    (a: SnsFile, b: SnsFile) => before(a.name, b.name)
  }

  lemma ByNameTotal(before: (string, string) -> bool)
    requires TotalPreorder(before)
    ensures TotalPreorder(ByName(before))
  {
    var le := ByName(before);
    forall a: SnsFile, b: SnsFile
      ensures le(a, b) || le(b, a)
    {
      assert before(a.name, b.name) || before(b.name, a.name);
    }
    forall a: SnsFile, b: SnsFile, c: SnsFile | le(a, b) && le(b, c)
      ensures le(a, c)
    {
      assert before(a.name, b.name) && before(b.name, c.name);
    }
  }

  /** `getSnsFiles`: `listing` is None where `fs.access` fails (then no
      files), else the names `fs.readdir` returns with what `fs.stat` finds
      behind each; `before` is `localeCompare(...) <= 0`. */
  method GetSnsFiles(snsDir: Option<string>, cwd: string, listing: Option<seq<Listed>>,
                     before: (string, string) -> bool) returns (files: seq<SnsFile>)
    requires TotalPreorder(before)
    ensures listing.None? ==> files == []
    ensures listing.Some? ==> multiset(files) == multiset(Loaded(SnsDir(snsDir, cwd), listing.value))
    ensures SortedBy(files, ByName(before))
  {
    if listing.None? {
      return [];
    }
    var dir := SnsDir(snsDir, cwd);
    var names := listing.value;
    var fileList: seq<SnsFile> := [];
    for i := 0 to |names|
      invariant fileList == Loaded(dir, names[..i])
    {
      var e := names[i];
      assert names[..i + 1][..i] == names[..i];
      if IsPostName(e.name) && e.stat.Regular? {
        fileList := fileList + [FileOf(dir, e)];
      }
    }
    assert names[..|names|] == names;
    ByNameTotal(before);
    files := Sort(fileList, ByName(before));
  }

  lemma {:induction false} LoadedMembers(dir: string, listing: seq<Listed>)
    ensures forall f :: f in Loaded(dir, listing) <==>
      exists e :: e in listing && Keeps(e) && f == FileOf(dir, e)
    decreases |listing|
  {
    if listing != [] {
      var init := listing[..|listing| - 1];
      LoadedMembers(dir, init);
      assert listing == init + [listing[|listing| - 1]];
    }
  }

  /** Every record found is a queued post of the directory, its text
      trimmed, and every regular queued post of the listing is found. */
  lemma SnsFilesMembers(snsDir: Option<string>, cwd: string, listing: seq<Listed>, files: seq<SnsFile>)
    requires multiset(files) == multiset(Loaded(SnsDir(snsDir, cwd), listing))
    ensures forall f :: f in files <==>
      exists e :: e in listing && Keeps(e) && f == FileOf(SnsDir(snsDir, cwd), e)
    ensures forall f :: f in files ==>
      IsPostName(f.name) && f.path == JoinPath(SnsDir(snsDir, cwd), f.name) && JsTrim(f.content) == f.content
  {
    var dir := SnsDir(snsDir, cwd);
    LoadedMembers(dir, listing);
    forall f | f in files
      ensures IsPostName(f.name) && f.path == JoinPath(dir, f.name) && JsTrim(f.content) == f.content
    {
      assert f in multiset(Loaded(dir, listing));
      assert f in Loaded(dir, listing);
      var e :| e in listing && Keeps(e) && f == FileOf(dir, e);
      TrimIdempotent(e.stat.content, IsJsSpace);
    }
    forall f
      ensures f in files <==> f in Loaded(dir, listing)
    {
      assert f in files <==> f in multiset(files);
    }
  }

  /** A listing whose names are distinct (as a directory's are) under an
      order that tells names apart gives one sorted result only: the order
      is stable whatever order the directory lists entries in. */
  lemma SnsFilesDetermined(dir: string, listing: seq<Listed>, before: (string, string) -> bool,
                           a: seq<SnsFile>, b: seq<SnsFile>)
    requires forall i, j :: 0 <= i < |listing| && 0 <= j < |listing| && listing[i].name == listing[j].name ==> i == j
    requires forall x, y :: before(x, y) && before(y, x) ==> x == y
    requires multiset(a) == multiset(Loaded(dir, listing)) && multiset(b) == multiset(a)
    requires SortedBy(a, ByName(before)) && SortedBy(b, ByName(before))
    ensures a == b
  {
    LoadedMembers(dir, listing);
    forall x, y | x in a && y in a && ByName(before)(x, y) && ByName(before)(y, x)
      ensures x == y
    {
      assert x in multiset(Loaded(dir, listing)) && y in multiset(Loaded(dir, listing));
      assert x in Loaded(dir, listing) && y in Loaded(dir, listing);
      var ex :| ex in listing && Keeps(ex) && x == FileOf(dir, ex);
      var ey :| ey in listing && Keeps(ey) && y == FileOf(dir, ey);
      var i :| 0 <= i < |listing| && listing[i] == ex;
      var j :| 0 <= j < |listing| && listing[j] == ey;
      assert before(x.name, y.name) && before(y.name, x.name);
    }
    SortedUnique(a, b, ByName(before));
  }

  // ---------------------------------------------------------------------
  // validateFileContent

  const MaxChars: nat := 280

  function EmptyFileMessage(filename: string): string {
    "空のファイル: " + filename
  }

  function ControlCharMessage(filename: string): string {
    "制御文字が含まれています: " + filename
  }

  /** The characters of `/[\x00-\x08\x0B\x0C\x0E-\x1F\x7F]/`: the C0
      controls and DEL, except TAB, LF and CR. */
  predicate IsControl(c: char) {
    c <= '\U{8}' || c == '\U{B}' || c == '\U{C}' || ('\U{E}' <= c <= '\U{1F}') || c == '\U{7F}'
  }

  predicate HasControlChars(s: string) {
    exists i :: 0 <= i < |s| && IsControl(s[i])
  }

  /** `validateFileContent`: the error messages for a file's text. A blank
      file gets only the empty-file message; otherwise a control character
      gives the control message. */
  function ValidateFileContent(content: string, filename: string): (errors: seq<string>)
    ensures |errors| <= 1
  {
    if JsTrim(content) == [] then [EmptyFileMessage(filename)]
    else if HasControlChars(content) then [ControlCharMessage(filename)]
    else []
  }

  /** The warning logged (not an error) for text longer than a post may be,
      counted in code points. */
  function LengthWarning(content: string, filename: string): Option<string> {
    if JsTrim(content) != [] && |content| > MaxChars then
      Some("文字数超過: " + filename + " (" + NatToString(|content|) + "文字)")
    else None
  }

  lemma MessagesDiffer(filename: string)
    ensures EmptyFileMessage(filename) != ControlCharMessage(filename)
  {
    assert EmptyFileMessage(filename)[0] != ControlCharMessage(filename)[0];
  }

  /** Which message a text gets, in both directions: blank text (white
      space only, or nothing) and only it is an empty file; non-blank text
      holding a control character and only it is rejected for that; all
      other text is valid, however long. TAB, LF and CR are not control
      characters here. */
  lemma ValidateCases(content: string, filename: string)
    ensures ValidateFileContent(content, filename) == [EmptyFileMessage(filename)] <==> AllSpace(content, IsJsSpace)
    ensures ValidateFileContent(content, filename) == [ControlCharMessage(filename)] <==>
      !AllSpace(content, IsJsSpace) && HasControlChars(content)
    ensures ValidateFileContent(content, filename) == [] <==>
      !AllSpace(content, IsJsSpace) && !HasControlChars(content)
    ensures !IsControl('\t') && !IsControl('\n') && !IsControl('\r')
  {
    TrimShape(content, IsJsSpace);
    MessagesDiffer(filename);
  }

  /** The length warning never makes a file invalid: a long valid text
      stays valid. */
  lemma LongTextValid(content: string, filename: string)
    requires LengthWarning(content, filename).Some? && !HasControlChars(content)
    ensures ValidateFileContent(content, filename) == []
    ensures |content| > MaxChars
  {
  }

  // ---------------------------------------------------------------------
  // lintFiles

  datatype LintResult = LintResult(file: string, valid: bool, errors: seq<string>, charCount: nat, size: nat)

  function LintOf(f: SnsFile): LintResult {
    var errors := ValidateFileContent(f.content, f.name);
    LintResult(f.name, errors == [], errors, |f.content|, f.size)
  }

  /** `lintFiles`: one result per file, in order. */
  method LintFiles(files: seq<SnsFile>) returns (results: seq<LintResult>)
    ensures |results| == |files|
    ensures forall i :: 0 <= i < |files| ==> results[i] == LintOf(files[i])
  {
    results := [];
    for i := 0 to |files|
      invariant |results| == i
      invariant forall k :: 0 <= k < i ==> results[k] == LintOf(files[k])
    {
      results := results + [LintOf(files[i])];
    }
  }

  predicate IsValid(r: LintResult) { r.valid }
  predicate IsInvalid(r: LintResult) { !r.valid }

  /** The summary logged: how many results are valid and how many not. */
  function LintSummary(results: seq<LintResult>): (counts: (nat, nat)) {
    (|Filter(results, IsValid)|, |Filter(results, IsInvalid)|)
  }

  lemma {:induction false} FilterSplits(results: seq<LintResult>)
    ensures |Filter(results, IsValid)| + |Filter(results, IsInvalid)| == |results|
    decreases |results|
  {
    if results != [] {
      FilterSplits(results[..|results| - 1]);
    }
  }

  /** The counts of a lint add up to the number of files, and a result is
      valid exactly when its file got no error (so blank files and files
      with control characters are the invalid ones). */
  lemma LintResultsCount(files: seq<SnsFile>, results: seq<LintResult>)
    requires |results| == |files|
    requires forall i :: 0 <= i < |files| ==> results[i] == LintOf(files[i])
    ensures LintSummary(results).0 + LintSummary(results).1 == |files|
    ensures forall i :: 0 <= i < |files| ==>
      (results[i].valid <==> !AllSpace(files[i].content, IsJsSpace) && !HasControlChars(files[i].content))
    ensures forall i :: 0 <= i < |files| ==> results[i].file == files[i].name && results[i].charCount == |files[i].content|
  {
    FilterSplits(results);
    forall i | 0 <= i < |files|
      ensures results[i].valid <==> !AllSpace(files[i].content, IsJsSpace) && !HasControlChars(files[i].content)
    {
      ValidateCases(files[i].content, files[i].name);
    }
  }

  // ---------------------------------------------------------------------
  // moveToPosted

  /** The time stamp of a moved file made from `new Date().toISOString()`:
      every `:` becomes `-`, the milliseconds and `Z` go, and the first `T`
      becomes `_`. */
  function PostedStamp(iso: string): string {
    ReplaceFirst(ReplaceMillis(ReplaceChar(iso, ':', '-'), ""), "T", "_")
  }

  /** An ISO time `<date>T<hh>:<mm>:<ss>.<mmm>Z` gives
      `<date>_<hh>-<mm>-<ss>`. */
  lemma PostedStampShape(date: string, hh: string, mm: string, ss: string, ms: string)
    requires 'T' !in date && ':' !in date
    requires ':' !in hh + mm + ss
    requires |ms| == 3 && IsDigit(ms[0]) && IsDigit(ms[1]) && IsDigit(ms[2])
    ensures PostedStamp(date + "T" + hh + ":" + mm + ":" + ss + "." + ms + "Z") == date + "_" + hh + "-" + mm + "-" + ss
  {
    var iso := date + "T" + hh + ":" + mm + ":" + ss + "." + ms + "Z";
    var dashed := date + "T" + hh + "-" + mm + "-" + ss + "." + ms + "Z";
    var r := ReplaceChar(iso, ':', '-');
    assert |r| == |dashed|;
    forall i | 0 <= i < |r|
      ensures r[i] == dashed[i]
    {
      if i < |date| {
        assert iso[i] == date[i] && dashed[i] == date[i];
      } else if i == |date| {
      } else if i < |date| + 1 + |hh| {
        assert iso[i] == hh[i - |date| - 1] && dashed[i] == hh[i - |date| - 1];
      } else if i == |date| + 1 + |hh| {
      } else if i < |date| + 2 + |hh| + |mm| {
        var k := i - |date| - 2 - |hh|;
        assert iso[i] == mm[k] && dashed[i] == mm[k];
        assert mm[k] in hh + mm + ss;
      } else if i == |date| + 2 + |hh| + |mm| {
      } else if i < |date| + 3 + |hh| + |mm| + |ss| {
        var k := i - |date| - 3 - |hh| - |mm|;
        assert iso[i] == ss[k] && dashed[i] == ss[k];
        assert ss[k] in hh + mm + ss;
      } else {
        assert iso[i] == dashed[i];
      }
    }
    assert r == dashed;
    var rest := hh + "-" + mm + "-" + ss;
    var kept := date + ['T'] + rest;
    assert dashed == kept + "." + ms + "Z";
    assert |dashed| == |kept| + 5;
    assert dashed[..|dashed| - 5] == kept;
    assert ReplaceMillis(dashed, "") == kept;
    ReplaceFirstAfter(date, 'T', rest, "_");
    assert date + "_" + rest == date + "_" + hh + "-" + mm + "-" + ss;
  }

  /** `filename.replace(/\.txt$/, '')`. */
  function TxtStem(filename: string): string {
    if EndsWith(filename, ".txt") then filename[..|filename| - 4] else filename
  }

  function Suffix(success: bool): string {
    if success then "posted" else "failed"
  }

  /** The name a moved file takes: its stem, the outcome and the time. */
  function PostedName(filename: string, success: bool, stamp: string): string {
    TxtStem(filename) + "_" + Suffix(success) + "_" + stamp + ".txt"
  }

  /** A moved name is itself a `.txt` name whose stem records the original
      stem, the outcome and the time, so neither the outcome nor the time is
      lost; it has no `/` when its parts have none. */
  lemma PostedNameParts(filename: string, success: bool, stamp: string)
    ensures EndsWith(PostedName(filename, success, stamp), ".txt")
    ensures TxtStem(PostedName(filename, success, stamp)) == TxtStem(filename) + "_" + Suffix(success) + "_" + stamp
    ensures '/' !in filename && '/' !in stamp ==> '/' !in PostedName(filename, success, stamp)
    ensures Suffix(true) != Suffix(false)
  {
    var stem := TxtStem(filename) + "_" + Suffix(success) + "_" + stamp;
    assert PostedName(filename, success, stamp) == stem + ".txt";
    TxtStemOfTxt(stem);
    EndsWithTxt(stem);
    if '/' !in filename && '/' !in stamp {
      PostedNameLacksSlash(filename, success, stamp);
    }
    assert Suffix(true)[0] != Suffix(false)[0];
  }

  lemma PostedNameLacksSlash(filename: string, success: bool, stamp: string)
    requires '/' !in filename && '/' !in stamp
    ensures '/' !in PostedName(filename, success, stamp)
  {
    var t := TxtStem(filename);
    assert '/' !in t by {
      assert t == filename[..|t|];
    }
    var u := Suffix(success);
    assert '/' !in u by {
      assert u == "posted" || u == "failed";
    }
    var n := PostedName(filename, success, stamp);
    forall i | 0 <= i < |n|
      ensures n[i] != '/'
    {
      if i < |t| {
        assert n[i] == t[i];
      } else if i < |t| + 1 + |u| + 1 {
      } else if i < |t| + 2 + |u| + |stamp| {
        assert n[i] == stamp[i - |t| - 2 - |u|];
      }
    }
  }

  lemma EndsWithTxt(x: string)
    ensures EndsWith(x + ".txt", ".txt")
  {
    var n := x + ".txt";
    assert n[|n| - 4..] == ".txt";
  }

  /** The stem of `x.txt` is `x`: exactly one `.txt` goes. */
  lemma TxtStemOfTxt(x: string)
    ensures TxtStem(x + ".txt") == x
  {
    var n := x + ".txt";
    assert n[|n| - 4..] == ".txt";
    assert n[..|n| - 4] == x;
  }

  function IsAbsolute(p: string): bool {
    p != [] && p[0] == '/'
  }

  /** Where a posted file goes: the given directory (as is when absolute,
      under the working directory when relative), else `posted` beside the
      file. */
  function PostedDir(filePath: string, postedDirPath: Option<string>, cwd: string): string {
    if postedDirPath.Some? && postedDirPath.value != "" then
      if IsAbsolute(postedDirPath.value) then postedDirPath.value else JoinPath(cwd, postedDirPath.value)
    else JoinPath(DirName(filePath), "posted")
  }

  function PostedPath(filePath: string, success: bool, postedDirPath: Option<string>, cwd: string, iso: string): string {
    JoinPath(PostedDir(filePath, postedDirPath, cwd), PostedName(BaseName(filePath), success, PostedStamp(iso)))
  }

  /** Why the rename raised. */
  datatype MoveError = RenameFailed

  /** `moveToPosted` on a file system keyed by full paths; `iso` is
      `new Date().toISOString()`. The rename either happens, and the new
      path is returned, or raises and nothing moves. */
  method MoveToPosted(fs: Folder, filePath: string, success: bool, postedDirPath: Option<string>,
                      cwd: string, iso: string) returns (r: Result<string, MoveError>)
    modifies fs
    ensures var newPath := PostedPath(filePath, success, postedDirPath, cwd, iso);
      && (r.Ok? <==> filePath in old(fs.entries) && (filePath, newPath) !in fs.refused)
      && (r.Ok? ==> r.value == newPath && fs.entries == MoveEntry(old(fs.entries), filePath, newPath))
      && (r.Err? ==> fs.entries == old(fs.entries))
  {
    var filename := BaseName(filePath);
    var postedDir := PostedDir(filePath, postedDirPath, cwd);
    var stamp := PostedStamp(iso);
    var newPath := JoinPath(postedDir, PostedName(filename, success, stamp));
    var ok := fs.Move(filePath, newPath);
    if ok {
      r := Ok(newPath);
    } else {
      r := Err(RenameFailed);
    }
  }

  /** The moved file lands directly in the posted directory, under its
      posted name: `dirname` and `basename` of the new path give them
      back. */
  lemma PostedPathParts(filePath: string, success: bool, postedDirPath: Option<string>, cwd: string, iso: string)
    requires '/' !in PostedStamp(iso)
    requires cwd != []
    ensures var dir := PostedDir(filePath, postedDirPath, cwd);
      var name := PostedName(BaseName(filePath), success, PostedStamp(iso));
      DirName(PostedPath(filePath, success, postedDirPath, cwd, iso)) == dir &&
      BaseName(PostedPath(filePath, success, postedDirPath, cwd, iso)) == name
  {
    var dir := PostedDir(filePath, postedDirPath, cwd);
    var name := PostedName(BaseName(filePath), success, PostedStamp(iso));
    BaseNameLacksSlash(filePath);
    PostedNameParts(BaseName(filePath), success, PostedStamp(iso));
    if !(postedDirPath.Some? && postedDirPath.value != "") {
      assert dir == DirName(filePath) + "/" + "posted";
    }
    assert dir != [];
    JoinPathParts(dir, name);
  }
}
