# auto_X in Dafny

auto_X posts prepared texts to X (Twitter) on a schedule. An operator uses a
Python tkinter window together with small Python tools. The window edits the
posting times, turns them into the cron line of the GitHub Actions workflow,
and commits and pushes with git. The tools reorder a folder of draft posts
under content-mix rules and rename the files in two phases. A Node command-line
program does the rest: it loads and migrates `configs/sns.json`, checks the
queued `.txt` posts, computes their schedule, signs requests with OAuth 1.0a,
posts with retries and an endpoint fallback, moves posted files away and
writes log lines and a run summary.

This project models the logic of those programs and proves what it promises.
There is one Dafny module per source file:

- `WorkflowOptimizer`: `gui/workflow_optimizer.py`, the cron line computed from Japan-time posting times, the frequency report and the rewrite of the `- cron:` entry of a workflow text.
- `GuiUtils`: `gui/utils.py`, parsing, formatting and validation of the time lists, and the listing of queued posts.
- `MixFiles`, `MixSnsFiles`, `MixDraftFiles`: the three mix tools in `tools/`, each with its classifier, its placement policy (round robin; a blog post at every tenth place with the surplus at the end; a blog post on every tenth slot with the surplus in the earliest free slot) and its rename protocol.
- `Scheduler`: `core/scheduler.js`, the fixed-time slot loop and the due filter.
- `Config`: `core/config.js`, the legacy-key migration, the merge with the defaults and the environment, and the ordered validation messages.
- `OAuth`: `core/oauth.js`, RFC 3986 percent-encoding over UTF-8, the signature base string and signing key of RFC 5849, and the `Authorization` header.
- `FileManager`: `core/file-manager.js`, the queued-post listing, content validation, lint accounting and the posted name and path.
- `TwitterApi`: `core/twitter-api.js`, retry with backoff, the status classification, truncation to 280 code points and the endpoint fallback.
- `Logger`: `core/logger.js`, the log-line format, the time stamp shaping, the log file append and the run summary.
- `GitManager`: `gui/git_manager.py`, the commit message, the porcelain and ahead/behind readers, the pull outcome and the add, commit and push sequence.
- `Launcher`: `scripts/post-to-sns.js`, the rewrite of the launcher's arguments.

Shared modules serve these:

- `Wrappers`: `Option` and `Result`.
- `Strings`: Python's and JavaScript's `split`, `join`, `strip`/`trim`, `replace`, `int()` and `{i:03d}`.
- `Sorting`: a stable insertion sort, filters, class partitions, and shuffles given as permutations.
- `Directory`: a folder as a class whose `entries` map is changed by `Move`, together with the two-phase staged rename that all three tools use.
- `JsValues`: JavaScript values with property reads, writes, `delete` and object spread.

### Abstractions

- A folder is a map from names to file identities. `shutil.move` and `fs.rename` fail exactly on a given set of (source, target) pairs or when the source is missing. A successful move overwrites its target, as it does on POSIX.
- `random.shuffle` is an arbitrary permutation given as a parameter.
- Instants are integer milliseconds, and a day is counted from 1 January 1970, which was a Thursday, so the weekday is `(day + 4) % 7`.
- `localeCompare` is an arbitrary total order given as a parameter.
- HMAC-SHA1 with base64 is a function parameter.
- Clocks and random bytes are inputs.
- A network request or a git command is an oracle: a function from the request or command line to its reply.
- Threads and callbacks become returned values: the progress messages in order and the single outcome.

### Where the code and its comments differ

The model follows the code in each of these cases:

- `core/twitter-api.js:14`: the comment promises waits of 1.5 s, 3 s, 6 s, but the code multiplies by 1.5 (`TwitterApi.DefaultDelays` proves 1.5 s, 2.25 s, 3.375 s, 5.0625 s).
- `tools/mix_draft_files.py:75`: the comment says surplus blog posts go to the end, but the code puts each in the earliest free slot (`MixDraftFiles.LeftoverAtFront`).
- The surplus rule differs between the tools: `tools/mix_sns_files.py` appends surplus blog posts at the end, `tools/mix_draft_files.py` fills the earliest free slots. Each tool is modelled as written.
- Only staging a file is followed by cleanup in `tools/mix_files.py` and `tools/mix_sns_files.py`, and the cleanup rebuilds original names with `str.replace`, which removes every occurrence of the temporary prefix (`Directory.RestoreRemovesEveryOccurrence`). `tools/mix_draft_files.py` has no rollback at all.

## Model

| member | source | states |
|---|---|---|
| WorkflowOptimizer.CronFor | gui/workflow_optimizer.py:14-47 | the reference definition of the cron line; OptimizeCronForTimes is proved equal to it, and CronDefault, CronOfHours and CronHours state its form |
| WorkflowOptimizer.RewriteCron | gui/workflow_optimizer.py:79-86 | the `re.sub` of the `- cron:` entries; RewriteWithoutCron, EntryAt, RewriteAtMatch and CopyPrefix state its steps |
| WorkflowOptimizer.UtcHour | gui/workflow_optimizer.py:34 | the JST to UTC shift `(h - 9) % 24` with Python's floor modulus always lies in 0..23 |
| WorkflowOptimizer.UtcHourOfDay | gui/workflow_optimizer.py:34 | on the hours of a day the shift maps h to h-9 from 09 on and to h+15 before 09 |
| WorkflowOptimizer.UtcOfMembers | gui/workflow_optimizer.py:29-37 | a UTC hour is collected by the loop iff some entry whose hour parses shifts to it |
| WorkflowOptimizer.HoursFromSorted | gui/workflow_optimizer.py:43 | `sorted(set(...))` is strictly ascending and lists exactly the members of the set |
| WorkflowOptimizer.OptimizeCronForTimes | gui/workflow_optimizer.py:14-47 | the loop over the entries, skipping unparseable ones, returns the cron line of the specification function CronFor |
| WorkflowOptimizer.CronOfDefault | gui/workflow_optimizer.py:24-40 | the hourly line `0 * * * *` comes back iff no parsed hour is present |
| WorkflowOptimizer.CronDefault | gui/workflow_optimizer.py:24-40 | an empty list, or one where no entry's text before the first `:` parses, gives `0 * * * *`, and only those do |
| WorkflowOptimizer.CronOfHours | gui/workflow_optimizer.py:43-47 | otherwise the line is `0 ` + comma-joined hours + ` * * *`, the hours non-empty, strictly ascending, below 24 and exactly the listed ones |
| WorkflowOptimizer.CronHours | gui/workflow_optimizer.py:31-47 | on entries: an hour is listed iff some parseable entry with JST hour H has `(H - 9) mod 24` equal to it |
| WorkflowOptimizer.JstHourOfDigits | gui/workflow_optimizer.py:32 | an entry `HH:MM` with plain digits has JST hour HH |
| WorkflowOptimizer.UtcOfParsed | gui/workflow_optimizer.py:29-37 | when every entry parses, the collected list is the entries' hours shifted, in order |
| WorkflowOptimizer.ClockHour | gui/workflow_optimizer.py:32 | a five-character `hh:mm` entry has hour `hh` |
| WorkflowOptimizer.CronExample | gui/workflow_optimizer.py:19-22 | the docstring example: `["09:00","12:00","18:00"]` gives `0 0,3,9 * * *` |
| WorkflowOptimizer.CronOfThreeHours | gui/workflow_optimizer.py:34-47 | three ascending JST hours from 09 on shift by nine each and keep their order |
| WorkflowOptimizer.HoursFromThree | gui/workflow_optimizer.py:43 | three distinct hours are sorted ascending |
| WorkflowOptimizer.HoursFromSkip | gui/workflow_optimizer.py:43 | hours absent from the set do not appear |
| WorkflowOptimizer.CronMinutesIgnored | gui/workflow_optimizer.py:47 | the minute field is always 0: `15:01`, `15:02`, `15:03` give the single hour 6 |
| WorkflowOptimizer.CronOfOneHour | gui/workflow_optimizer.py:43-47 | duplicate hours collapse into one |
| WorkflowOptimizer.SavingsTenths | gui/workflow_optimizer.py:127 | the savings in tenths of a percent is the nearest integer to `(24-n)*125/3`, within a third of it |
| WorkflowOptimizer.SavingsExample | gui/workflow_optimizer.py:127 | five hours save 79.2 percent |
| WorkflowOptimizer.FrequencyInfoFor | gui/workflow_optimizer.py:103-128 | empty list: 24 runs, the hourly cron, `毎時実行`, no savings; otherwise an error iff some entry's hour does not parse, else the distinct JST hour count, CronFor's line and the rounded savings |
| WorkflowOptimizer.ExecutionsMatchCron | gui/workflow_optimizer.py:120-121 | when every hour parses within a day, the number of runs equals the number of hours in the cron line |
| WorkflowOptimizer.ShiftPreservesSize | gui/workflow_optimizer.py:34 | shifting a set of day hours to UTC keeps its size |
| WorkflowOptimizer.NewHourIsNewShift | gui/workflow_optimizer.py:34 | an hour is new among the JST hours iff its shift is new among the UTC hours |
| WorkflowOptimizer.FormatTimesForDisplay | gui/workflow_optimizer.py:131-144 | no times give `設定なし`; a single time is shown as it is |
| WorkflowOptimizer.SkipSpace | gui/workflow_optimizer.py:79 | `\s*` reads the greedy run of whitespace |
| WorkflowOptimizer.CloseQuote | gui/workflow_optimizer.py:79 | `.*?['"]` stops at the first quote on the same line |
| WorkflowOptimizer.CronMatch | gui/workflow_optimizer.py:79 | a match of the cron pattern ends on a quote and its text holds `cron:` |
| WorkflowOptimizer.AfterKey | gui/workflow_optimizer.py:79 | after `cron:` the replaced value lies strictly inside the text and ends before a quote |
| WorkflowOptimizer.RewriteWithoutCron | gui/workflow_optimizer.py:86 | a text without `cron:` is copied unchanged by the substitution |
| WorkflowOptimizer.EntryAt | gui/workflow_optimizer.py:79-86 | a `- cron: '<x>'` entry after leading whitespace has `<x>` replaced by the new cron, quotes and prefix kept, and the rest rewritten |
| WorkflowOptimizer.DashAt | gui/workflow_optimizer.py:79 | leading whitespace then `-` starts a match |
| WorkflowOptimizer.KeyAt | gui/workflow_optimizer.py:79 | after `cron:` a blank and a quote open the value, which runs to the next quote on the line |
| WorkflowOptimizer.RewriteAtMatch | gui/workflow_optimizer.py:81-86 | at a match the value between the quotes is replaced and the substitution goes on after the closing quote |
| WorkflowOptimizer.CopyPrefix | gui/workflow_optimizer.py:86 | text before the first `-` not ending in whitespace is copied unchanged |
| WorkflowOptimizer.RewriteWithoutMatch | gui/workflow_optimizer.py:86 | where no match starts, the first character is copied |
| WorkflowOptimizer.NoMatchBeforeDash | gui/workflow_optimizer.py:79 | no match starts before a non-blank character other than `-` |
| WorkflowOptimizer.UpdateWorkflowCron | gui/workflow_optimizer.py:61-100 | a missing file gives False and no write; an unchanged text gives True with no write; otherwise the rewritten text is written and the result is True iff the write succeeds |
| WorkflowOptimizer.UpdateWithoutCron | gui/workflow_optimizer.py:88-90 | a workflow without `cron:` reports True although nothing is written |
| GuiUtils.ParsePostTime | gui/utils.py:87-97 | `parse_post_time` strips: empty iff the input is all whitespace, otherwise no whitespace at either end, never longer |
| GuiUtils.ParsePostTimeIdempotent | gui/utils.py:97 | stripping twice is stripping once |
| GuiUtils.StrippedPieces | gui/utils.py:113 | the comprehension keeps at most as many pieces as it is given |
| GuiUtils.StrippedPiecesClean | gui/utils.py:113 | every kept piece is non-empty, stripped and comma-free |
| GuiUtils.StrippedPiecesOfClean | gui/utils.py:113 | clean pieces are all kept, unchanged |
| GuiUtils.ParseFixedTimes | gui/utils.py:100-113 | a blank field gives `[]`; every element is non-empty, stripped and comma-free |
| GuiUtils.FormatFixedTimes | gui/utils.py:116-126 | no times give the empty text and a single time is itself |
| GuiUtils.ParseFormatRoundTrip | gui/utils.py:113-126 | parsing the formatted list of clean entries gives the list back |
| GuiUtils.ParseDisplayRoundTrip | gui/utils.py:100-113 | parsing the `, `-joined display text of clean entries gives the list back too |
| GuiUtils.StrippedSpaced | gui/utils.py:113 | the blanks after each comma of the display text are stripped off again |
| GuiUtils.StripBlankPrefixed | gui/utils.py:113 | stripping a clean entry with a blank in front gives the entry |
| GuiUtils.ValidateTimeFormat | gui/utils.py:129-150 | `auto` is valid; the function is total, as every exception is caught |
| GuiUtils.ValidateTimeFormatIff | gui/utils.py:139-150 | valid iff `auto` or exactly two `:`-parts, both `int()`-parsable, hour 0..23 and minute 0..59 |
| GuiUtils.ClockIfValid | gui/utils.py:143-148 | a valid text other than `auto` is a clock whose colon is the end of the first part |
| GuiUtils.ValidIfClock | gui/utils.py:143-148 | every clock text in range is valid |
| GuiUtils.ValidClock | gui/utils.py:147-148 | a five-character `HH:MM` in range is valid |
| GuiUtils.TwoDigits | gui/utils.py:147 | `int()` of two digits is their value |
| GuiUtils.ValidateNeedsColon | gui/utils.py:143-145 | a text without `:` other than `auto` is invalid |
| GuiUtils.KeptMembers | gui/utils.py:77-81 | a name is kept iff it is listed, ends in `-sns.txt` and its path does not contain `posted` |
| GuiUtils.GetSnsFiles | gui/utils.py:64-84 | no directory gives `[]`; otherwise the loop's names are a permutation of the kept ones, sorted ascending |
| GuiUtils.SnsFilesMembers | gui/utils.py:77-84 | the returned names are exactly the listed `-sns.txt` names whose path lacks `posted` |
| GuiUtils.PostedWorkingDirectory | gui/utils.py:80 | the `posted` test reads the whole path, so a working directory under a `posted` path lists nothing |
| MixFiles.BalancedMix | tools/mix_files.py:36-56 | the reference definition of the mix; CreateBalancedMix is proved equal to it, and BalancedMixElements and BalancedMixByCategory state its contents and order |
| MixFiles.CategorizeFiles | tools/mix_files.py:12-34 | the loop puts each `.txt` draft into expert (`-sns.txt`), experience (`-04.txt`) or other, and each list comes out as the chosen shuffle of that category |
| MixFiles.CategoriesPartition | tools/mix_files.py:22-28 | every file lands in exactly one of the three categories |
| MixFiles.InCategoryMembers | tools/mix_files.py:22-28 | a name is in a category iff it is one of the files and the suffix rule chooses that category |
| MixFiles.CategorizedDrafts | tools/mix_files.py:14-32 | after the shuffles the three lists together hold every `.txt` draft of the folder exactly once |
| MixFiles.CreateBalancedMix | tools/mix_files.py:36-56 | the loop builds the round-by-round mix BalancedMix |
| MixFiles.RoundsElements | tools/mix_files.py:47-54 | the first n rounds hold the first n drafts of each category |
| MixFiles.BalancedMixElements | tools/mix_files.py:41-56 | the mix has the summed length and is a permutation of the three categories; empty categories give an empty mix |
| MixFiles.RoundsPrefix | tools/mix_files.py:47-54 | earlier rounds are a prefix of later ones |
| MixFiles.BalancedMixRound | tools/mix_files.py:47-54 | round i occupies one contiguous stretch, so every item of round i precedes every item of round i+1 |
| MixFiles.FullRound | tools/mix_files.py:48-54 | while every category has drafts, round i is expert[i], experience[i], other[i] |
| MixFiles.RoundAlternates | tools/mix_files.py:49-54 | inside one round neighbouring items differ in category |
| MixFiles.RoundSeam | tools/mix_files.py:47-54 | at a round boundary two neighbours share a category only when the next round holds that category alone |
| MixFiles.RoundOf | tools/mix_files.py:47 | every position of the mix lies in exactly one round |
| MixFiles.AdjacentSameCategory | tools/mix_files.py:47-54 | two adjacent items of one category mean the second opens a round that holds only it |
| MixFiles.SeamAt | tools/mix_files.py:47-54 | neighbours of the same category sit on either side of a round boundary |
| MixFiles.RoundByCategory | tools/mix_files.py:49-54 | a round sorted back into categories gives each category's i-th draft |
| MixFiles.RoundsByCategory | tools/mix_files.py:47-54 | picking one category out of the first n rounds gives that category's first n drafts |
| MixFiles.BalancedMixByCategory | tools/mix_files.py:47-54 | each category keeps its order: picking it out of the mix gives the category's list back |
| MixFiles.RenameFilesWithMixPrefix | tools/mix_files.py:58-100 | the directory after the two-phase rename, and the result, are those of the staged-rename protocol with prefixes `temp_` and `mix_` |
| MixFiles.MixPrefixesDiverge | tools/mix_files.py:67-72 | a temporary name never equals a final name |
| Directory.StagedOutcome | tools/mix_files.py:58-100 | the reference definition of the two-phase rename; StagedRename is proved equal to it, and StagedRenameSucceeds, StagingFailureRestores and FinalizingFailureKeepsFinals state its outcomes |
| Directory.Folder.constructor | tools/mix_files.py:58 | a folder holds the given entries and the set of moves `shutil.move` refuses |
| Directory.Folder.Move | tools/mix_files.py:71 | `shutil.move` succeeds iff the source exists and the move is not refused; then the file is under the new name (overwriting it), otherwise nothing changes |
| Directory.MoveAll | tools/mix_files.py:66-72 | a sequence of moves stops at the first that raises and counts the moves done |
| Directory.FirstRefused | tools/mix_files.py:66-72 | the first refused move of a batch and that every earlier one is allowed |
| Directory.RelocatedAt | tools/mix_files.py:71-79 | independent moves put every file under its new name, keep the untouched names and remove the old ones |
| Directory.RelocatedCons | tools/mix_files.py:66-72 | doing the first move and then the rest is relocating all |
| Directory.MoveAllRelocates | tools/mix_files.py:66-72 | independent moves none of which is refused relocate every file |
| Directory.MoveAllStops | tools/mix_files.py:64-72 | the first refused move stops the batch, with every move before it done |
| Directory.MoveAllUpTo | tools/mix_files.py:64-72 | a batch stopped at its c-th move has relocated exactly the first c files |
| Directory.RestoreAllRelocates | tools/mix_files.py:90-98 | cleanup moves none of which is refused relocate the files back |
| Directory.RestoreAllAbsent | tools/mix_files.py:92 | cleanup moves whose files are gone change nothing |
| Directory.RestoreAllSplit | tools/mix_files.py:90-98 | the cleanup loop may be split at any point: its later moves go on from the folder its earlier ones leave, a failed move being ignored |
| Directory.RelocatedBack | tools/mix_files.py:71-96 | moving files and moving them back restores the folder when no new name was taken before |
| Directory.Staged | tools/mix_files.py:66-72 | the numbered names `<prefix>{i:03d}_<name>` of a batch, numbered from 1, one per file |
| Directory.Restored | tools/mix_files.py:90-95 | the cleanup name of each temporary name, one per temporary name |
| Directory.RestoreRemovesEveryOccurrence | tools/mix_files.py:94 | `str.replace` removes every occurrence of the prefix: a name holding it again is not restored to itself |
| Directory.StagedNameInjective | tools/mix_files.py:67 | a numbered name determines its number and original name |
| Directory.StagedNamesDiverge | tools/mix_files.py:67-72 | the temporary and final prefixes of a tool never yield the same name |
| Directory.StagedDistinct | tools/mix_files.py:67 | the temporary names of a batch are distinct |
| Directory.RestoredNames | tools/mix_files.py:94 | a name that does not contain its own temporary prefix is restored to itself |
| Directory.StageAll | tools/mix_files.py:64-72 | step 1 moves each file to its temporary name until a move raises, recording the temporary and final names of the moves done |
| Directory.FinalizeAll | tools/mix_files.py:76-79 | step 2 moves each recorded file to its final name until a move raises |
| Directory.CleanUp | tools/mix_files.py:88-98 | the cleanup moves every recorded file still present back to its name with the prefix removed, ignoring failures |
| Directory.StagedRename | tools/mix_files.py:58-100 | the whole protocol: the result and the folder are the staged-rename outcome StagedOutcome |
| Directory.TempsAndFinalsDiffer | tools/mix_files.py:67-72 | no final name of a batch equals any temporary name of it |
| Directory.BatchStages | tools/mix_files.py:64-79 | for a batch whose temporary names are free, both phases are independent moves |
| Directory.StagedRenameSucceeds | tools/mix_files.py:64-83 | True iff no staging and no finalizing move is refused; then file i is at `<final>{i:03d}_<name>` and every other file is untouched |
| Directory.StagingFailureRestores | tools/mix_files.py:85-100 | a refused staging move gives False and, when the cleanup moves succeed and no name holds its own prefix, the folder as it was |
| Directory.RelocatedSnoc | tools/mix_files.py:66-72 | one more independent move after a batch is the longer batch |
| Directory.FinalizedThenRestored | tools/mix_files.py:76-98 | after j files were finalized, putting the rest back leaves exactly the first j files renamed |
| Directory.CleanUpAfterFinalizing | tools/mix_files.py:88-98 | the cleanup after a refused finalizing move j restores every file from j on and leaves the first j at their final names |
| Directory.FinalizingFailureKeepsFinals | tools/mix_files.py:76-100 | a refused finalizing move gives False, the files already finalized stay at their final names and the others are moved back |
| MixSnsFiles.SnsMix | tools/mix_sns_files.py:47-88 | the mix in closed form; CreateBlogOptimizedMix is proved equal to it, and SnsMixElements, EveryTenthPlace and LateBlogPosts state its contents and placement |
| MixSnsFiles.CategorizeSnsFiles | tools/mix_sns_files.py:13-45 | the loop sorts each `.txt` post into blog (content holds `www.coommu.com`), short tips (`-05/-06/-07/-02.txt`) or professional (the rest and unreadable files), each list the chosen shuffle of that category |
| MixSnsFiles.SnsCategoriesPartition | tools/mix_sns_files.py:23-39 | every post lands in exactly one category |
| MixSnsFiles.SourceOf | tools/mix_sns_files.py:70-81 | every place of the mix is filled from the blog or the regular posts, within range |
| MixSnsFiles.EveryTenthPlace | tools/mix_sns_files.py:72-79 | while regular posts remain, a place holds a blog post iff its 1-based number is a multiple of ten and a blog post is left for it |
| MixSnsFiles.LastRegular | tools/mix_sns_files.py:77-79 | the last regular post sits right after the blog posts placed early |
| MixSnsFiles.LateBlogPosts | tools/mix_sns_files.py:70-81 | a blog post reaches a place that is not a tenth place only after all regular posts: only blog posts follow it |
| MixSnsFiles.SourceKeepsOrder | tools/mix_sns_files.py:72-79 | blog posts and regular posts each keep their relative order |
| MixSnsFiles.Interleave | tools/mix_sns_files.py:70-81 | nine regular posts then a blog post, as long as blog posts last, then the rest: length is the sum |
| MixSnsFiles.InterleaveElements | tools/mix_sns_files.py:70-81 | the interleaving is a permutation of its two inputs |
| MixSnsFiles.SlotClosed | tools/mix_sns_files.py:70-81 | closed form of the place a post lands in |
| MixSnsFiles.SnsMixElements | tools/mix_sns_files.py:56-86 | the mix has length B+R and holds every blog and regular post exactly once |
| MixSnsFiles.SnsMixAt | tools/mix_sns_files.py:70-81 | place i of the mix holds the post SourceOf names |
| MixSnsFiles.CreateBlogOptimizedMix | tools/mix_sns_files.py:47-88 | the while loop over `blog_index`, `regular_index` and `position` terminates, returns the mix of the blog posts with the shuffled regular posts, and leaves no blog post to the trailing append loop |
| MixSnsFiles.SnsMixPointwise | tools/mix_sns_files.py:70-81 | a list agreeing with SourceOf at every place is the mix |
| MixSnsFiles.BlogStep | tools/mix_sns_files.py:72-74 | the loop's blog step places the post SourceOf names and keeps the loop invariant |
| MixSnsFiles.RegularStep | tools/mix_sns_files.py:76-79 | the loop's regular step places the post SourceOf names and keeps the loop invariant |
| MixSnsFiles.IdleStep | tools/mix_sns_files.py:70-81 | a step that places nothing brings `position` closer to the next tenth place, so some post is placed within ten steps |
| MixSnsFiles.Gap | tools/mix_sns_files.py:72-81 | the distance to the next tenth place is below ten |
| MixSnsFiles.RenameSnsFilesWithMixPrefix | tools/mix_sns_files.py:90-139 | the result and the folder are the staged-rename outcome with prefixes `sns_temp_` and `sns_mix_` |
| MixSnsFiles.SnsPrefixesDiverge | tools/mix_sns_files.py:99-104 | a temporary name never equals a final name |
| MixDraftFiles.AnalyzeFileContent | tools/mix_draft_files.py:13-25 | `analyze_file_content`; UnreadableSnsIsExpert and LinkMattersOnlyForSns state how its answer is used |
| MixDraftFiles.CategorizeDraftFiles | tools/mix_draft_files.py:27-51 | the loop lists each `mix_*.txt` draft, in listing order, under blog, short tips, expert or regular by the name and content rule |
| MixDraftFiles.DraftCategoriesPartition | tools/mix_draft_files.py:40-49 | every draft lands in exactly one of the four lists |
| MixDraftFiles.CategorizedAreCandidates | tools/mix_draft_files.py:29-49 | a categorized draft is a listed name starting with `mix_` and ending in `.txt`, and the rule puts it in its list |
| MixDraftFiles.UnreadableSnsIsExpert | tools/mix_draft_files.py:13-45 | an `-sns.txt` draft that cannot be read is an expert post |
| MixDraftFiles.LinkMattersOnlyForSns | tools/mix_draft_files.py:40-49 | the blog link decides only among `-sns.txt` drafts |
| MixDraftFiles.ShortTipExample | tools/mix_draft_files.py:46 | `-0[0-9]\.txt$` matches `-03.txt` and not `-13.txt` |
| MixDraftFiles.Tenths | tools/mix_draft_files.py:63-73 | the number of blog posts placed on tenth slots is at most the blog count and one per full block of ten |
| MixDraftFiles.DraftMix | tools/mix_draft_files.py:53-90 | the mix has one entry per input |
| MixDraftFiles.Layout | tools/mix_draft_files.py:60-81 | the slot array after the blog placement, slot by slot |
| MixDraftFiles.EmptyLayout | tools/mix_draft_files.py:60 | the array starts as `total` empty names |
| MixDraftFiles.ReserveNext | tools/mix_draft_files.py:70-73 | putting blog post j on slot `10j+9` gives the next layout |
| MixDraftFiles.FillFree | tools/mix_draft_files.py:77-81 | putting a surplus blog post on the free slot of the next rank gives the next layout |
| MixDraftFiles.DraftMixClosed | tools/mix_draft_files.py:53-90 | the mix in closed form, place by place |
| MixDraftFiles.BlogPositions | tools/mix_draft_files.py:62-66 | the 0-based blog positions are 9, 19, 29, ..., one per full block of ten |
| MixDraftFiles.PlaceOnTenths | tools/mix_draft_files.py:68-73 | the array loop puts blog posts on the blog positions while they last |
| MixDraftFiles.PlaceLeftover | tools/mix_draft_files.py:75-81 | the `while`/`for ... break` loop puts every surplus blog post into the earliest empty slot, and terminates |
| MixDraftFiles.FreeSlotExists | tools/mix_draft_files.py:76-81 | while blog posts remain an empty slot exists, so the search always finds one |
| MixDraftFiles.LeftoverStep | tools/mix_draft_files.py:77-81 | the search stops on the first empty slot, which is the slot of the next rank |
| MixDraftFiles.FillGaps | tools/mix_draft_files.py:84-88 | the regular fill keeps the number of slots |
| MixDraftFiles.PlaceRegular | tools/mix_draft_files.py:83-88 | the array loop puts the regular posts in order into the empty slots |
| MixDraftFiles.FillLayout | tools/mix_draft_files.py:83-88 | filling the blog layout with the regular posts gives the closed-form mix |
| MixDraftFiles.DraftMixNoEmpty | tools/mix_draft_files.py:90 | with non-empty names every slot is filled, so the final `!= ''` filter removes nothing |
| MixDraftFiles.DraftMixElements | tools/mix_draft_files.py:53-90 | the mix is a permutation of the blog and regular posts |
| MixDraftFiles.DraftBlogOnTenths | tools/mix_draft_files.py:63-73 | for k below min(B, total/10), the 1-based place 10(k+1) holds the k-th blog post |
| MixDraftFiles.DraftEnoughRegular | tools/mix_draft_files.py:63-81 | with nine regular posts per blog post every blog post sits on a tenth slot |
| MixDraftFiles.LeftoverPlace | tools/mix_draft_files.py:75-81 | the k-th surplus blog post takes the k-th free slot |
| MixDraftFiles.RegularPlace | tools/mix_draft_files.py:84-88 | regular post a takes the free slot after the surplus blog posts and the a earlier regular posts |
| MixDraftFiles.DraftOrder | tools/mix_draft_files.py:57-88 | the regular posts (short tips, expert, regular) keep their order, after every surplus blog post |
| MixDraftFiles.LeftoverAtFront | tools/mix_draft_files.py:75-81 | surplus blog posts go to the front of the mix, not to its end as the comment at line 75 says |
| MixDraftFiles.CreateOptimalMix | tools/mix_draft_files.py:53-90 | the array phases compute the mix DraftMix of the blog posts with short tips, expert and regular posts joined |
| MixDraftFiles.DraftFinals | tools/mix_draft_files.py:106 | one `draft_mix_{i:03d}_` name per draft |
| MixDraftFiles.StageDrafts | tools/mix_draft_files.py:99-106 | the staging loop records at most one temporary and one final name per draft |
| MixDraftFiles.RaisedStays | tools/mix_draft_files.py:99-106 | a move that raised ends the staging loop for good |
| MixDraftFiles.BackupAndRenameFiles | tools/mix_draft_files.py:92-114 | the folder and the count after staging and finalizing are DraftRenameOutcome; a raising move gives no count |
| MixDraftFiles.NoDraftFound | tools/mix_draft_files.py:104-114 | when no listed draft exists nothing moves and the count is 0 |
| MixDraftFiles.SkippedDraftKeepsNumber | tools/mix_draft_files.py:99-106 | a missing draft is skipped silently and the next draft keeps its own number |
| MixDraftFiles.DraftFinalNameStrips | tools/mix_draft_files.py:106 | the final name drops every `mix_` and `temp_`: `mix_x` becomes `draft_mix_NNN_x` |
| MixDraftFiles.StagedPrefix | tools/mix_draft_files.py:99-106 | the first i staging moves of existing drafts, none refused, rename them as if all at once |
| MixDraftFiles.DraftStagingStops | tools/mix_draft_files.py:99-106 | a refused staging move raises: the earlier drafts stay at their temporary names, nothing is moved back |
| MixDraftFiles.DraftFinalsDistinct | tools/mix_draft_files.py:106 | drafts at different positions get different final names |
| MixDraftFiles.DraftFinalsAvoidTemps | tools/mix_draft_files.py:101-106 | no final name is a temporary name |
| MixDraftFiles.DraftRenameSucceeds | tools/mix_draft_files.py:99-114 | the count equals the number of drafts iff no move is refused; then draft i is at its final name and every other file is untouched |
| Scheduler.IsWeekend | core/scheduler.js:29-32 | Sunday or Saturday of a day; NoWeekendPosts and WeekendSkipChecksTheDay state how the schedule uses it |
| Scheduler.ScheduleOf | core/scheduler.js:70-115 | the reference definition of the slot loop, the k-th file taking the k-th eligible slot; FixedTimeSchedule is proved against it, and ScheduleUnique, NoMissedSlot and ScheduleFacts state its properties |
| Scheduler.FilterDueItems | core/scheduler.js:121-128 | `filterDueItems`; DueMembers and DuePrefix state which entries it keeps and in what order |
| Scheduler.Weekday | core/scheduler.js:29-30 | `getDay()` of a day lies in 0..6, 1 January 1970 being a Thursday |
| Scheduler.LocalMidnight | core/scheduler.js:20 | `new Date(year, month - 1, day)` is a local midnight |
| Scheduler.NewYear2024 | core/scheduler.js:20-30 | 1 January 2024 is day 19723, a Monday |
| Scheduler.MonthCarries | core/scheduler.js:20 | month index 12 carries into January of the next year |
| Scheduler.DayCarries | core/scheduler.js:20 | 30 February 2024 is 1 March 2024 |
| Scheduler.TwoDigitYear | core/scheduler.js:20 | `Date` reads year 99 as 1999 |
| Scheduler.ParseJSTDate | core/scheduler.js:14-24 | `null` iff the text is `auto`; `YYYY-MM-DD` becomes (year, month-1, day); any other text goes to the `Date` text parser |
| Scheduler.ProgressStart | core/scheduler.js:64-69 | the loop starts at the start day's midnight, first time, no file placed |
| Scheduler.WeekendStep | core/scheduler.js:73-77 | a skipped weekend day holds no eligible slot and the index resets to 0 |
| Scheduler.EarlyStep | core/scheduler.js:86-94 | a slot before the start is skipped, moving to the next day after the last time |
| Scheduler.PlaceStep | core/scheduler.js:96-112 | an eligible slot goes to the next file, and the loop moves to the next slot |
| Scheduler.ProgressDone | core/scheduler.js:71-115 | when every file is placed the entries are the schedule specified by ScheduleOf |
| Scheduler.HorizonBound | core/scheduler.js:86 | slots far enough after the start are never early, which bounds the loop |
| Scheduler.WeekendRunShrinks | core/scheduler.js:73-77 | skipping a weekend day brings the next weekday closer |
| Scheduler.FixedTimeSchedule | core/scheduler.js:64-115 | the `while` loop over day, time index and file index throws iff there are files and no time, and otherwise returns the schedule ScheduleOf: the first eligible slots in (day, index) order, one per file |
| Scheduler.Disabled | core/scheduler.js:40-46 | a disabled schedule has one entry per file |
| Scheduler.CalculateSchedule | core/scheduler.js:37-116 | `use` false gives one unscheduled entry per file; no `times` array (after the `fixedTimes` fallback) throws; otherwise the fixed-time schedule from the start instant |
| Scheduler.FirstEligibleUnique | core/scheduler.js:71-113 | there is one way to pick the first n eligible slots |
| Scheduler.NoMissedSlot | core/scheduler.js:79-112 | no eligible slot is passed over |
| Scheduler.ScheduleUnique | core/scheduler.js:71-113 | the schedule is a function of the files, the times, the start and the weekend switch |
| Scheduler.ScheduleFacts | core/scheduler.js:96-103 | one scheduled entry per file, in file order, carrying its name, path and content, never before the start |
| Scheduler.SlotDay | core/scheduler.js:82-83 | a time within a day lies on its own day |
| Scheduler.NoWeekendPosts | core/scheduler.js:29-77 | with weekend skipping and times within a day nothing is posted on day 0 or day 6 |
| Scheduler.TwoTimesADay | core/scheduler.js:79-112 | two times a day: the third file takes the first time of the next day |
| Scheduler.WeekendSkipChecksTheDay | core/scheduler.js:73-83 | the weekend test is made on the day: `25:00` on a Friday posts on Saturday at 1:00 |
| Scheduler.AscendingTimes | core/scheduler.js:79-112 | strictly ascending times within a day give strictly increasing posting instants |
| Scheduler.SlotsIncrease | core/scheduler.js:82-83 | a later slot is a later instant when the times ascend |
| Scheduler.DueMembers | core/scheduler.js:121-128 | an entry is due iff it is in the schedule, scheduled and not after now |
| Scheduler.DuePrefix | core/scheduler.js:124-127 | on a schedule in time order the due entries are a prefix of it, in their order |
| Config.SetNestedValue | core/config.js:45-60 | `setNestedValue` along the path split at `.`, a missing or false step becoming `{}`; PostingPath, SetPostingField and SetPostingFieldLost state its effect on `posting.<field>` |
| Config.MergeDefaults | core/config.js:118-121 | the two merged sections; MergeKeepsDefaults states that they hold every default key, the file's values winning |
| Config.LoadConfig | core/config.js:96-137 | `loadConfig` by how reading the file ended; LoadFailures, LoadWithoutFile and LoadFromFile state each outcome |
| Config.PostingPath | core/config.js:46 | a legacy target path `posting.<field>` splits into `posting` and the field |
| Config.SetPostingField | core/config.js:45-57 | setting `posting.f` stores the value in the existing `posting` object, or in a new `{}` when `posting` is missing or false |
| Config.SetPostingFieldLost | core/config.js:50-56 | a `posting` value that is true but not an object swallows the assignment |
| Config.LegacyKeyMapShape | core/config.js:33-40 | the six legacy keys and their fields are distinct, and no field holds a dot |
| Config.MigrateErrStays | core/config.js:78-84 | once a step throws, the migration throws that error |
| Config.MigrateLegacyConfig | core/config.js:74-91 | the loop over the legacy keys computes Migrated, the migration of a copy of the input |
| Config.MigrateObject | core/config.js:78-84 | on an object whose `posting` can take fields, the migration succeeds and keeps the facts MigrateFacts lists |
| Config.MigratePresentStep | core/config.js:79-82 | a legacy key that is not undefined is moved to `posting.<field>` and deleted from the top level |
| Config.MigrateAbsentStep | core/config.js:79 | an undefined legacy key changes nothing |
| Config.MigrateLegacyObject | core/config.js:76-84 | every present legacy key is deleted and its value is under its field of `posting`; every other key and field is kept; without legacy keys the object comes back equal |
| Config.MigratePrimitive | core/config.js:76-84 | on a non-object, `null` throws at the first legacy key and other values come back unchanged |
| Config.EnvOr | core/config.js:64-67 | `env.A \|\| env.B \|\| ''`: the first non-empty variable, or empty iff both are empty or missing |
| Config.MergeKeepsDefaults | core/config.js:119-122 | the merged `posting` and `twitterApi` hold every default key, the file's values win and the defaults fill the rest |
| Config.EnvFallback | core/config.js:125-129 | the environment replaces the four API keys iff the merged `apiKey` is false and the environment's API key is non-empty |
| Config.DefaultsNeedNoMigration | core/config.js:8-40 | the defaults contain no legacy key |
| Config.LoadFailures | core/config.js:103-135 | a read error other than a missing file and a parse error are thrown, and so is migrating a `null` file |
| Config.LoadWithoutFile | core/config.js:107-129 | a missing file loads the defaults, with the API keys from the environment when it has one |
| Config.MigratedPosting | core/config.js:76-84 | what the migration leaves in `posting`: the legacy values under their fields and the other fields as they were |
| Config.LoadFromFile | core/config.js:115-122 | a file object loads with exactly `posting` and `twitterApi`, its legacy values migrated into `posting` and its own `posting` fields kept |
| Config.PreparedPosting | core/config.js:119-129 | after the merge every setting of the migrated `posting` is kept, and the environment touches only `twitterApi` |
| Config.TimeMatchesClocks | core/config.js:185 | `^([01]?[0-9]\|2[0-3]):[0-5][0-9]$` accepts exactly one or two hour digits up to 23, a colon and two minute digits up to 59 |
| Config.KeyMessages | core/config.js:166 | one `Twitter API設定が不足: <key>` message per missing key, in order |
| Config.TimeMessages | core/config.js:186 | one invalid-time message per rejected entry, in order |
| Config.CollectMissingKeys | core/config.js:163-168 | the loop reports each false required API key, in key order |
| Config.CollectTimeErrors | core/config.js:184-188 | the loop reports each `fixedTimes` entry failing the pattern |
| Config.CheckSchedule | core/config.js:170-192 | the `posting` checks produce ScheduleErrors |
| Config.ValidateConfig | core/config.js:159-195 | `validateConfig` returns ConfigErrors: key errors first, then schedule errors; a missing section throws |
| Config.NoMissingKeys | core/config.js:164-168 | no key error iff every required key is true |
| Config.NoTimeErrors | core/config.js:184-188 | no time error iff every entry matches |
| Config.ValidIffNoErrors | core/config.js:159-195 | no errors iff the configuration is valid |
| Config.NoScheduleErrors | core/config.js:170-192 | no schedule error iff the `posting` section is valid |
| Config.MissingKeyMessageInjective | core/config.js:166 | the key message names its key |
| Config.KeyErrorsExact | core/config.js:164-168 | a key's message is reported iff the key is required and false |
| Config.AllKeysMissing | core/config.js:163-168 | with every key false the four messages come in the order apiKey, apiKeySecret, accessToken, accessTokenSecret |
| Config.UnknownScheduleType | core/config.js:171-192 | any other `scheduleType` after the `interval` default gives exactly one error naming it |
| Config.IntervalErrors | core/config.js:173-176 | interval mode gives one error iff `interval <= 0`, and none otherwise |
| Config.FixedErrors | core/config.js:177-189 | fixed mode: one error for a missing or non-array `fixedTimes`, one for an empty array, else one per entry failing the pattern |
| Config.DefaultTimesMatch | core/config.js:18 | the default times match the pattern |
| Config.ValidFromParts | core/config.js:159-195 | a valid `posting` with the four keys filled validates clean |
| Config.FixedModeValid | core/config.js:177-189 | fixed mode with non-empty matching times is valid |
| Config.DefaultsValid | core/config.js:159-195 | the defaults with the keys filled validate clean |
| Config.DefaultFixedTimesValid | core/config.js:177-189 | so do the defaults in fixed mode with the default times |
| JsValues.Get | core/config.js:79 | reading a property of `undefined` or `null` throws; of an object it gives the property or `undefined` |
| JsValues.Put | core/config.js:51-56 | assigning to `undefined` or `null` throws; on an object it sets the property; on any other value it changes nothing |
| JsValues.Delete | core/config.js:81 | `delete` removes the key from an object and leaves other values alone |
| JsValues.SpreadMerge | core/config.js:120-127 | `{ ...a, ...b }` holds the keys of both, the values of `b` winning |
| JsValues.KeysOf | core/oauth.js:18 | `Object.keys` gives an object's keys in insertion order, one per property |
| OAuth.PercentEncode | core/oauth.js:6-11 | `encodeURIComponent` followed by the escapes of `!'()*`; PercentEncodeEach proves it equal to the per-character encoding of RFC 3986 |
| OAuth.BaseString | core/oauth.js:24-28 | the signature base string; BaseStringSplit gives back its three parts |
| OAuth.SigningKey | core/oauth.js:31 | the signing key; SigningKeyParts and SigningKeyInjective state that it holds and determines both secrets |
| OAuth.Signature | core/oauth.js:16-40 | `generateOAuthSignature` with HMAC-SHA1 and base64 as a parameter; ParamsOrderIrrelevant states that key insertion order does not change it |
| OAuth.Header | core/oauth.js:45-68 | `generateOAuthHeader`; HeaderSplit, HeaderTextDetermines and HeaderNonceFresh state its entries and that it changes with each value and each nonce |
| OAuth.Utf8 | core/oauth.js:7 | a Unicode scalar value has one to four UTF-8 bytes |
| OAuth.Utf8RoundTrip | core/oauth.js:7 | decoding the UTF-8 bytes of a string gives it back (section 3 of RFC 3629) |
| OAuth.Utf8Injective | core/oauth.js:7 | different strings have different UTF-8 bytes |
| OAuth.ReplaceMarksConcat | core/oauth.js:8-10 | the `[!'()*]` replacement works piece by piece |
| OAuth.ReplaceMarksNone | core/oauth.js:8-10 | text without those marks is left alone |
| OAuth.EscapeAlphabet | core/oauth.js:7 | escapes are three characters per byte, `%` and uppercase hex digits |
| OAuth.MarkEscape | core/oauth.js:9 | `'%' + charCode.toString(16).toUpperCase()` of a mark is its own one-byte escape |
| OAuth.PercentEncodeEach | core/oauth.js:6-11 | `percentEncode` is the character-by-character encoding of sections 2.1 and 2.3 of RFC 3986 |
| OAuth.PercentEncodeConcat | core/oauth.js:6-11 | the empty string encodes to itself and `enc(a+b) == enc(a)+enc(b)` |
| OAuth.PercentEncodeChar | core/oauth.js:6-11 | a character is unchanged iff it is unreserved (A-Z, a-z, 0-9, `-._~`); any other becomes `%XX` per UTF-8 byte, `! ' ( ) *` included |
| OAuth.PercentEncodeAlphabet | core/oauth.js:6-11 | the output holds only unreserved characters, `%` and hex digits, so no `&`, `=`, `"` or `,` |
| OAuth.HexValue | core/oauth.js:9 | a hex digit's value is below 16 |
| OAuth.DecodeEscapes | core/oauth.js:7 | percent-decoding escapes gives their bytes |
| OAuth.DecodeEncode | core/oauth.js:6-11 | percent-decoding the encoding of a string gives its UTF-8 bytes (section 2.1 of RFC 3986) |
| OAuth.PercentEncodeInjective | core/oauth.js:6-11 | different strings have different encodings |
| OAuth.EncodeUnreserved | core/oauth.js:6-11 | a string of unreserved characters is its own encoding |
| OAuth.KeyLeIsTotalPreorder | core/oauth.js:19 | ordering the pairs by key with the default sort's string order is a total preorder |
| OAuth.SortedParams | core/oauth.js:18-19 | the parameters sorted by key: a sorted permutation |
| OAuth.ParamEntries | core/oauth.js:20 | one `enc(k)=enc(v)` entry per parameter |
| OAuth.ParamsOrderIrrelevant | core/oauth.js:18-37 | the insertion order of distinct keys does not matter: the same pairs give the same parameter string, base string and signature |
| OAuth.EntryLacks | core/oauth.js:20 | an entry holds no `&` and splits at `=` into the encoded key and value |
| OAuth.ParamStringSplit | core/oauth.js:18-21 | the parameter string splits back at `&` into the entries in key order, each at `=` into key and value; no parameters give the empty string |
| OAuth.BaseStringSplit | core/oauth.js:24-28 | the base string splits at `&` into `upper(method)`, `enc(url)` and `enc(params)`, the last decoding to the parameter string (section 3.4.1 of RFC 5849) |
| OAuth.SigningKeyParts | core/oauth.js:16-31 | the signing key is `enc(consumerSecret)&enc(tokenSecret)`, the token secret defaulting to empty (section 3.4.2 of RFC 5849) |
| OAuth.SigningKeyInjective | core/oauth.js:31 | the signing key determines both secrets |
| OAuth.HexBytes | core/oauth.js:47 | `toString('hex')` writes two digits per byte |
| OAuth.HexBytesInjective | core/oauth.js:47 | the hex text of equally long byte strings determines them |
| OAuth.HexBytesUnreserved | core/oauth.js:47 | hex text needs no escaping |
| OAuth.HeaderEntries | core/oauth.js:63-64 | one `enc(k)="enc(v)"` entry per parameter, in insertion order |
| OAuth.JoinCommaSpace | core/oauth.js:65 | joining with `, ` is joining with `,` after a blank before every entry but the first |
| OAuth.HeaderTextSplit | core/oauth.js:63-65 | the header starts with `OAuth ` and splits at `,` into its entries |
| OAuth.HeaderSplit | core/oauth.js:45-68 | the header of `generateOAuthHeader` is `OAuth ` plus its seven entries joined by `, ` |
| OAuth.NonceUnreserved | core/oauth.js:46-47 | the timestamp and the nonce need no escaping |
| OAuth.HeaderParamsShape | core/oauth.js:46-60 | the header parameters are the six oauth parameters in insertion order, the timestamp in seconds, the nonce the hex random bytes plus the timestamp, then `oauth_signature` of those six |
| OAuth.HeaderEntriesShape | core/oauth.js:49-65 | the seven header entries, with the fixed values written as they are and `oauth_signature` last |
| OAuth.NonceInjective | core/oauth.js:47 | the nonce determines its random bytes |
| OAuth.HeaderEntryInjective | core/oauth.js:64 | a header entry determines its value |
| OAuth.HeaderTextDetermines | core/oauth.js:63-65 | different values at one key give different headers |
| OAuth.HeaderNonceFresh | core/oauth.js:45-68 | two calls in the same second with different random bytes give different headers |
| OAuth.Utf8First | core/oauth.js:7 | the UTF-8 bytes of a character, whatever follows, decode back to that character and their count |
| OAuth.DecodeTriplet | core/oauth.js:7 | an uppercase `%XX` triplet decodes to its byte |
| OAuth.AsciiUpperKeeps | core/oauth.js:25 | `toUpperCase` introduces no character that was not a letter, so no `&` |
| OAuth.PlainLiterals | core/oauth.js:49-60 | the parameter names, `HMAC-SHA1` and `1.0` need no escaping |
| OAuth.EntriesShape | core/oauth.js:63-64 | with the timestamp and nonce unreserved, the seven entries are `key="value"` with only the consumer key, the token and the signature escaped |
| Strings.AsciiUpper | core/oauth.js:25 | the upper-cased text has the length of the input |
| Logger.JstDateTime | core/logger.js:16-20 | `getJSTDateTime` on the shifted ISO text; JstDateTimeShape states the result |
| Logger.LogLine | core/logger.js:25-30 | the line `log` prints and returns; LogLineRoundTrip reads it back |
| Logger.GenerateSummary | core/logger.js:53-72 | the summary counts; SummaryCounts and SummaryMessageLines state how they add up and the message lines |
| Logger.JstDateTimeShape | core/logger.js:16-20 | an ISO time `<date>T<time>.<mmm>Z` shifted to Japan time is written `<date> <time> JST` |
| Logger.LogLineRoundTrip | core/logger.js:25-30 | the line `[stamp] [level] message` gives back its stamp, its level (INFO when none is given) and its message |
| Logger.FormattedRoundTrip | core/logger.js:27 | the line format can be read back whenever the stamp and the level hold no `]` |
| Logger.DefaultLogNameShape | core/logger.js:37-40 | without a file name the log goes to `log_<date>.txt`, the date part of the ISO time |
| Logger.SaveLog | core/logger.js:35-48 | a writable log file's new text is its old text (empty for a new file) followed by the message and a line break, and no other file changes; a failed write is swallowed and nothing changes |
| Logger.SaveLogTwice | core/logger.js:44 | appending twice keeps the earlier text and both messages, in order |
| Logger.SuccessFailedSplit | core/logger.js:54-58 | the success and failure counts add up to the total; the skipped count is at most the total |
| Logger.SummaryCounts | core/logger.js:53-59 | every result is counted once as a success or a failure; skipped results are counted apart and may overlap |
| Logger.SummaryMessageLines | core/logger.js:61-68 | split at line breaks, the summary gives back an empty first line, the heading and the five labelled lines |
| Launcher.CliArgsShape | scripts/post-to-sns.js:14-32 | `run` is passed when there are no arguments or the first is an option; otherwise the arguments are passed unchanged; the given arguments always end the list |
| Launcher.CliArgsIdempotent | scripts/post-to-sns.js:20-32 | the arguments passed on already begin with a command, so passing them on again changes nothing |
| FileManager.LintOf | core/file-manager.js:91-101 | one file's lint result; LintFiles and LintResultsCount state the results and their counts |
| FileManager.PostedStamp | core/file-manager.js:147-150 | the time stamp of a moved file; PostedStampShape states its form |
| FileManager.PostedName | core/file-manager.js:152-154 | a moved file's name; PostedNameParts states its parts |
| FileManager.PostedDir | core/file-manager.js:132-141 | where a moved file goes; PostedPathParts states the absolute, relative and default cases |
| FileManager.LastSlash | core/file-manager.js:128-129 | the last `/` of a path: found, nothing after it, or no `/` at all |
| FileManager.JoinPathParts | core/file-manager.js:128-155 | `dirname` and `basename` undo joining a directory and a name without `/` |
| FileManager.BaseNameLacksSlash | core/file-manager.js:128 | a `basename` holds no `/` |
| FileManager.ByNameTotal | core/file-manager.js:46 | comparing records by name is a total preorder when the string order is |
| FileManager.GetSnsFiles | core/file-manager.js:8-54 | a missing directory gives no files; otherwise the regular `.txt` files other than `README.txt`, text trimmed, as a permutation sorted by name; the default directory is `<cwd>/sns` |
| FileManager.LoadedMembers | core/file-manager.js:23-43 | a record is loaded exactly when a listed entry is a regular file with a post name |
| FileManager.SnsFilesMembers | core/file-manager.js:23-43 | every record found is a post of the directory with its joined path and trimmed text, and every such post is found |
| FileManager.SnsFilesDetermined | core/file-manager.js:46 | with distinct names and an antisymmetric order, the sorted list does not depend on the listing order |
| FileManager.ValidateFileContent | core/file-manager.js:59-80 | at most one error |
| FileManager.ValidateCases | core/file-manager.js:59-80 | the empty-file error exactly for blank text; otherwise the control-character error exactly when a C0 control other than tab, LF, CR (or DEL) occurs; no error otherwise |
| FileManager.MessagesDiffer | core/file-manager.js:63-76 | the two error messages can be told apart |
| FileManager.LongTextValid | core/file-manager.js:67-71 | more than 280 characters only warns; the text stays valid |
| FileManager.LintFiles | core/file-manager.js:85-121 | one result per file, in order, each its name, its validity, its errors and its character count |
| FileManager.FilterSplits | core/file-manager.js:111-113 | valid and invalid results add up to the total |
| FileManager.LintResultsCount | core/file-manager.js:91-113 | the counts add up, a result is valid exactly when the text is non-blank and free of control characters, and it carries the file's name and length |
| FileManager.PostedStampShape | core/file-manager.js:147-150 | the ISO time `<date>T<hh>:<mm>:<ss>.<mmm>Z` becomes `<date>_<hh>-<mm>-<ss>` |
| FileManager.PostedNameParts | core/file-manager.js:152-154 | the new name ends in `.txt` and its stem is the old stem, `_posted` or `_failed`, `_` and the stamp |
| FileManager.TxtStemOfTxt | core/file-manager.js:152 | exactly one final `.txt` is removed |
| FileManager.MoveToPosted | core/file-manager.js:126-166 | the file moves to the new path, which is returned, exactly when it exists and the rename succeeds; otherwise the error is raised and nothing moves |
| FileManager.PostedPathParts | core/file-manager.js:132-155 | the new path's directory is the given posted directory (joined to the working directory when relative) or `<dir>/posted`, and its name is the new name |
| TwitterApi.Attempts | core/twitter-api.js:8-23 | the reference definition of the retry loop; RetryWithBackoff is proved equal to it, and AttemptsSuccess, AttemptsStopAt, AttemptsExhausted and AttemptsError state its outcomes |
| TwitterApi.Truncate | core/twitter-api.js:85-89 | the 280-code-point limit; TruncateShape states the result's length, prefix and idempotence |
| TwitterApi.TryEndpoint | core/twitter-api.js:100-139 | one endpoint's retried request and parsed reply; TryOne computes it |
| TwitterApi.Fallback | core/twitter-api.js:99-148 | the endpoints in order, each after the one before failed; FallbackOrder and PostedTweet state which outcome stands |
| TwitterApi.Growth | core/twitter-api.js:14 | `Math.pow(1.5, i)` is at least 1 |
| TwitterApi.Delay | core/twitter-api.js:14 | every wait is between 1.5 s and the 45 s cap |
| TwitterApi.AttemptsMade | core/twitter-api.js:9-21 | the attempts from `i` on call the operation at most `n - i` times |
| TwitterApi.RetryWithBackoff | core/twitter-api.js:8-23 | the loop's outcome is the recursive definition's, it makes at most `maxRetries` calls, and it waits `Delay(k)` only after attempt `k` raised a retryable error |
| TwitterApi.AttemptsSuccess | core/twitter-api.js:11 | a success is some attempt's value, every earlier attempt having raised a retryable error |
| TwitterApi.AttemptsStopAt | core/twitter-api.js:11-19 | the first attempt that succeeds or raises a non-retryable error decides the outcome and is the last call |
| TwitterApi.AttemptsExhausted | core/twitter-api.js:13-22 | when every attempt raises a retryable error, all are made and `Failed after n retries` is raised |
| TwitterApi.AttemptsError | core/twitter-api.js:19-22 | an error raised is either a non-retryable one raised by an attempt or the give-up error |
| TwitterApi.GrowthIncreasing | core/twitter-api.js:14 | the growth factor never shrinks |
| TwitterApi.DelayMonotone | core/twitter-api.js:14 | the waits never shrink |
| TwitterApi.DefaultDelays | core/twitter-api.js:14 | the waits are 1.5 s, 2.25 s, 3.375 s and 5.0625 s, growing by half each time |
| TwitterApi.DelayCap | core/twitter-api.js:14 | the 45 s cap holds exactly from the tenth wait on |
| TwitterApi.MakeRequest | core/twitter-api.js:28-66 | a reply with a 2xx status resolves with its status and body; any other status rejects carrying it; a network error rejects without a status |
| TwitterApi.RetriedReplies | core/twitter-api.js:13-59 | an attempt is retried exactly when the reply's status is 429 or 5xx |
| TwitterApi.TruncateShape | core/twitter-api.js:85-89 | a text over 280 code points becomes its first 277 and `...`, 280 in all; a shorter one is kept; truncating twice is truncating once |
| TwitterApi.PostTweet | core/twitter-api.js:71-149 | a simulation succeeds at once with the text and a `sim_` id; otherwise the truncated text is posted to `api.x.com`, falling back to `api.twitter.com` |
| TwitterApi.TryOne | core/twitter-api.js:100-138 | one endpoint's try is the retried request to `/2/tweets` and the result built from the parsed reply |
| TwitterApi.FallbackOrder | core/twitter-api.js:99-148 | a success at the first endpoint is the result; otherwise the second endpoint decides, its error included |
| TwitterApi.PostedTweet | core/twitter-api.js:133-145 | a post succeeds with the truncated text, at most 280 code points, naming the endpoint used; a failure is the last endpoint's error |
| GitManager.CheckGitStatus | gui/git_manager.py:26-43 | `check_git_status`; CheckGitStatusCases states when it holds |
| GitManager.IsGitAvailable | gui/git_manager.py:322-337 | `is_git_available`; GitAvailableCases states when it holds |
| GitManager.CommitMessage | gui/git_manager.py:174-197 | `generate_commit_message`; CommitMessageFrame and CommitMessageDetermines state its frame and what it records |
| GitManager.ChangeOf | gui/git_manager.py:69-71 | one porcelain line read as status and path; PorcelainLineRead reads git's rendering back |
| GitManager.CheckRemoteChangesAsWritten | gui/git_manager.py:255-320 | `check_remote_changes` as written; DivergedAsWritten shows a diverged branch read as 0 and 0 |
| GitManager.CheckRemoteChanges | gui/git_manager.py:255-320 | `check_remote_changes` with the counts read as git prints them; RemoteChangesCases and DivergedRead state its cases |
| GitManager.PullOutcome | gui/git_manager.py:222-253 | the outcome of `pull_from_remote`; PullCases states its cases |
| GitManager.PullFromRemote | gui/git_manager.py:211-253 | the one progress message, sent before `git pull` runs, and an outcome that succeeds exactly when `git pull` exits with 0 |
| GitManager.PushOutcome | gui/git_manager.py:109-169 | the outcome of the add, commit and push sequence; CommitAndPushOrder states when it succeeds |
| GitManager.CheckGitStatusCases | gui/git_manager.py:26-43 | inside a repository exactly when `git status` ran and exited with 0; a timeout or another exception means no |
| GitManager.GitAvailableCases | gui/git_manager.py:322-337 | `git` is available when `git --version` ran at all, whatever its exit code, and not after a timeout or a failure to start; a repository needs an available `git` |
| GitManager.FilterNonEmpty | gui/git_manager.py:184-190 | a filtered list is non-empty exactly when some path is of its kind |
| GitManager.ChangeListCases | gui/git_manager.py:184-194 | the settings entry when some path names `sns.json`, the workflow entry when one names `sns.yml` or `workflow`, in that order, and the generic entry exactly when neither |
| GitManager.CommitMessageFrame | gui/git_manager.py:196 | the message begins with `feat: ` and ends with the fixed trailer |
| GitManager.CommitMessageDetermines | gui/git_manager.py:184-197 | equal messages come from path lists of the same kinds |
| GitManager.GetGitStatus | gui/git_manager.py:45-91 | a failing `git status` gives its error; otherwise the changes read from the stripped output, `has_changes` exactly when there are any, and the stripped branch name or `unknown`; an exception gives its text |
| GitManager.ChangesOfMembers | gui/git_manager.py:66-71 | a change is recorded for every non-blank line and only for those |
| GitManager.GitStatusChanges | gui/git_manager.py:66-85 | there are changes exactly when the stripped output has a non-blank line; a line is its two-character status, one separator and the path |
| GitManager.PorcelainLines | gui/git_manager.py:69-70 | one porcelain line per change |
| GitManager.PorcelainLineRead | gui/git_manager.py:68-71 | a well-formed porcelain line is non-blank and reads back as its change |
| GitManager.ChangesOfWellFormed | gui/git_manager.py:66-71 | the lines of well-formed changes read back as those changes |
| GitManager.ParsePorcelainRoundTrip | gui/git_manager.py:66-71 | read without the outer strip, the porcelain output gives back exactly the changes, in order |
| GitManager.StripEatsFirstStatus | gui/git_manager.py:67-70 | the outer strip eats the leading blank of the first line, so ` M a.txt` is read as status `M ` and file `.txt` |
| GitManager.UnstrippedKeepsFirstStatus | gui/git_manager.py:67-70 | the same output read without the outer strip gives status ` M` and the whole file name |
| GitManager.RemoteChangesCases | gui/git_manager.py:255-320 | counts are returned exactly when fetch and status both exit with 0, `has_changes` exactly when behind; each failing step gives its own error and a timeout its message |
| GitManager.SearchSkips | gui/git_manager.py:303-304 | `re.search` goes past text that cannot start a match |
| GitManager.SearchNone | gui/git_manager.py:303-304 | text without the lead has no match |
| GitManager.MatchNumber | gui/git_manager.py:303-309 | `[behind N]` at the start matches, giving `N`, exactly when the digits are closed by the expected character |
| GitManager.DivergedAsWritten | gui/git_manager.py:303-309 | the combined line `[ahead A, behind B]` matches neither regular expression, so both counts are 0 |
| GitManager.DivergedRead | gui/git_manager.py:303-309 | read as git writes it, the combined line gives both counts |
| GitManager.BehindOnlyAgrees | gui/git_manager.py:303-309 | a branch that is only behind is read the same both ways |
| GitManager.PullCases | gui/git_manager.py:199-253 | success exactly when `git pull` exits with 0; a failure reports the merge conflict exactly when `CONFLICT` is in either output; a success reports up to date, fetched or synchronised, in that order |
| GitManager.StepsRun | gui/git_manager.py:118-158 | at most the three commands are run |
| GitManager.CommitAndPush | gui/git_manager.py:93-172 | the commands run and the outcome are those of StepsRun and PushOutcome; the progress messages are the start message followed by the message of each step run, in order |
| GitManager.CommitAndPushOrder | gui/git_manager.py:118-168 | add, commit and push run in that order, each only after the one before succeeded; success exactly when all three exit with 0; a failing add stops everything |
| Strings.Split | gui/utils.py:113 | `str.split(sep)` on one character always gives at least one piece |
| Strings.SplitPartsLackSeparator | gui/utils.py:113 | no piece holds the separator |
| Strings.JoinSplit | gui/utils.py:113 | joining the pieces of `split` with the separator gives the string back |
| Strings.SplitJoin | core/logger.js:61-68 | splitting a join of separator-free pieces gives the pieces back |
| Strings.TrimShape | gui/utils.py:97 | `strip` gives a slice whose ends are not whitespace, empty exactly when every character was |
| Strings.TrimIdempotent | gui/utils.py:113 | stripping twice is stripping once |
| Strings.Pad3Injective | tools/mix_files.py:67-72 | `{i:03d}` gives different names for different numbers, from 1000 on too |
| Strings.Pad3Shape | tools/mix_files.py:67-72 | `{i:03d}` is three digits below 1000 and more from then on |
| Strings.Pad3Value | tools/mix_files.py:67-72 | the padded digits read back as the number |
| Sorting.Sort | gui/utils.py:84 | `sorted` returns a sorted permutation of its input |
| Sorting.SortStable | gui/utils.py:84 | stability: for every element, the elements tied with it by the order keep their input order in the result |
| Sorting.SortedUnique | gui/utils.py:84 | by an antisymmetric order there is exactly one sorted permutation |
| Sorting.StrLeIsTotalPreorder | gui/utils.py:84 | Python's string order is a total preorder |
| Sorting.PermutePreservesMultiset | tools/mix_files.py:32 | `random.shuffle` only reorders: the same elements, each as often |

## Left out

- The tkinter windows, dialogs and event handlers (`gui/config_tab.py`, `gui/post_tab.py`, `gui/main_window.py`, `gui.py`, `tools/draft_manager/draft_manager.py`), `core/index.js` and `cli/index.js`: widgets and wiring with no logic of their own beyond display rules.
- The daily sequence counter and a cron-to-times inverse: neither exists in the modelled files (`tools/draft_manager/draft_manager.py` is not part of this model).
- Subprocesses and threads: `subprocess.run`, `threading.Thread`, `spawn` and `process.exit` are left out; only the command lines and the texts they return are modelled.
- Filesystem I/O beyond moves: reads, writes, `mkdir`, `appendFile`, `copyFile` and `fs.access`/`fs.stat` become inputs (a listing of names with their kinds and texts, a flag for a failed write). `path.join` is joining with `/`, without normalising `..` or repeated slashes.
- `fs.readdir` failing after `fs.access` succeeded is not modelled: `getSnsFiles` then rethrows, and the model always lists.
- The Windows path at `tools/mix_draft_files.py:117` and the console output of the tools, including the `blog_positions` report at `tools/mix_sns_files.py:115-120`: printing only.
- `validate_workflow_file`, `saveConfig`, `createBackup`, `displaySchedule` and `formatJSTDateTime`: I/O or display outside the modelled operations.
- `getJSTDate` and `toLocaleString` time-zone round trips: instants are taken already shifted to Japan time, as integers; `Date` text parsing other than `YYYY-MM-DD` is a parameter, and `NaN`/Invalid Date results are not modelled.
- The conversion of a posting time by `timeStr.split(':').map(Number)` at `core/scheduler.js:81`: a time reaches the scheduler as an hour and a minute number. Extra `:` parts (ignored there), blanks and `Number('')` (0) and text that gives `NaN` are not modelled.
- `Config.JsonCopy`: `JSON.parse(JSON.stringify(x))` also drops properties whose value is `undefined` and turns `undefined` array items into `null`; the model copies such values unchanged. `loadConfig` only passes in values from `JSON.parse` or the defaults, which hold no `undefined`.
- Floating point: `Math.pow(1.5, i)` and the delays are exact reals, and `round((24 - n) / 24 * 100, 1)` is computed exactly in tenths, which is the same for every n from 0 to 24.
- `setTimeout` sleeping: only the waits chosen are recorded.
- Percent-encoding works on Unicode scalar values; `encodeURIComponent`'s rejection of lone surrogates cannot arise.
- `Sorting.Sort`: JavaScript's default `sort()` compares UTF-16 code units and Python compares code points; the model compares characters, which equals both below U+10000.
- `Strings.AsciiUpper`: `toUpperCase` is modelled on ASCII letters only; HTTP method names are ASCII.
- `Strings.PyInt`: Python's `int()` is modelled with surrounding whitespace, a sign and single underscores between digits, but only ASCII digits; Unicode digits are not accepted.
- The `Authorization` and `Content-Length` headers and the JSON body of a tweet are not part of the modelled request; the request records the endpoint and the text, and the header is proved separately in `OAuth`.
- `TwitterApi.RetryWithBackoff`: `maxRetries` is a natural number; a negative count is not modelled.
- `GitManager.RemoteChangesCases`: the `if not lines` branch at `gui/git_manager.py:294-295` is never taken, because `split` always gives at least one piece; the model has no such case.
- `GitManager.DivergedAsWritten` and `GitManager.DivergedRead` require that the text before the bracket holds no `[`, and that the count digits are followed directly by the closing character.
- `MixDraftFiles.DraftMixNoEmpty`: it requires non-empty names, which every name taken from a directory listing has.
- `JsValues.SpreadMerge`: spreading arrays and strings into an object is not modelled; only objects and the values that spread to nothing.
- `commit_and_push` and `pull_from_remote` with no progress callback would report nothing; the model always returns the messages that would be reported.

## Findings

| source | as written | input that shows it | evidently intended | confidence | as-written member | corrected member |
|---|---|---|---|---|---|---|
| gui/git_manager.py:67-70 | `status_result.stdout.strip()` strips the whole output before splitting, so a first line that starts with a blank loses it and `line[:2]`/`line[3:]` are read one character late | `git status --porcelain` printing ` M a.txt` gives status `M ` and file `.txt` | status ` M` and file `a.txt`, as for every later line | high (not executed) | GitManager.StripEatsFirstStatus | GitManager.UnstrippedKeepsFirstStatus |
| gui/git_manager.py:303-304 | the patterns `\[behind (\d+)\]` and `\[ahead (\d+)\]` need the closing bracket right after the number | a diverged branch `## main...origin/main [ahead 1, behind 2]` gives behind 0 and ahead 0, so remote changes are not reported | behind 2 and ahead 1, reporting remote changes | high (not executed) | GitManager.DivergedAsWritten | GitManager.DivergedRead |
