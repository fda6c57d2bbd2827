/** The draft-folder mixer: the `mix_…` drafts are told apart into blog
    posts, short tips, expert posts and regular posts, the blog posts go to
    every tenth slot of the mix while the mix is long enough, the blog
    posts left over to the earliest free slots, the other drafts fill the
    rest in order, and each draft is renamed `draft_mix_001_…`,
    `draft_mix_002_…` through a temporary `temp_001_…` name. */
module MixDraftFiles {
  import opened Wrappers
  import opened Strings
  import opened Sorting
  import opened Directory
  import opened MixSnsFiles

  datatype DraftCategory = BlogDraft | ShortTip | ExpertDraft | RegularDraft

  /** What `analyze_file_content` reports about a file. */
  datatype ContentKind = BlogLink | NoBlogLink

  /** `analyze_file_content`: a file links to the blog when it can be read
      and its text holds the blog's address; a read error counts as no
      link. */
  function AnalyzeFileContent(content: Option<string>): ContentKind {
    match content
    case Some(text) => if Contains(text, BlogMarker) then BlogLink else NoBlogLink
    case None => NoBlogLink
  }

  /** `-0<digit>.txt` at the very end of `name`. */
  predicate TipSuffix(name: string) {
    && |name| >= 7
    && name[|name| - 7] == '-' && name[|name| - 6] == '0' && IsDigit(name[|name| - 5])
    && name[|name| - 4..] == ".txt"
  }

  /** `re.search(r'-0[0-9]\.txt$', name)`: Python's `$` also matches just
      before a final newline. */
  predicate ShortTipName(name: string) {
    TipSuffix(name) || (name != [] && name[|name| - 1] == '\n' && TipSuffix(name[..|name| - 1]))
  }

  /** The category `categorize_files` gives a draft: by its name, and for
      an `-sns.txt` draft by its text. */
  function DraftCategoryOf(f: SnsFile): DraftCategory {
    if EndsWith(f.name, "-sns.txt") then
      if AnalyzeFileContent(f.content) == BlogLink then BlogDraft else ExpertDraft
    else if ShortTipName(f.name) then ShortTip
    else RegularDraft
  }

  /** The drafts `categorize_files` looks at: names starting `mix_` and
      ending `.txt`, in the order the folder lists them. */
  function Candidates(listing: seq<SnsFile>): seq<SnsFile> {
    Filter(listing, (f: SnsFile) => StartsWith(f.name, "mix_") && EndsWith(f.name, ".txt"))
  }

  function InDraftCategory(files: seq<SnsFile>, c: DraftCategory): seq<SnsFile> {
    Select(files, DraftCategoryOf, c)
  }

  /** `categorize_files`: the drafts of each category, in listing order. */
  method CategorizeDraftFiles(listing: seq<SnsFile>)
    returns (blog: seq<SnsFile>, shortTips: seq<SnsFile>, expert: seq<SnsFile>, regular: seq<SnsFile>)
    ensures blog == InDraftCategory(Candidates(listing), BlogDraft)
    ensures shortTips == InDraftCategory(Candidates(listing), ShortTip)
    ensures expert == InDraftCategory(Candidates(listing), ExpertDraft)
    ensures regular == InDraftCategory(Candidates(listing), RegularDraft)
  {
    var files := Candidates(listing);
    blog, shortTips, expert, regular := [], [], [], [];
    for i := 0 to |files|
      invariant blog == InDraftCategory(files[..i], BlogDraft)
      invariant shortTips == InDraftCategory(files[..i], ShortTip)
      invariant expert == InDraftCategory(files[..i], ExpertDraft)
      invariant regular == InDraftCategory(files[..i], RegularDraft)
    {
      var file := files[i];
      assert files[..i + 1] == files[..i] + [file];
      SelectSnoc(files[..i], file, DraftCategoryOf, BlogDraft, blog);
      SelectSnoc(files[..i], file, DraftCategoryOf, ShortTip, shortTips);
      SelectSnoc(files[..i], file, DraftCategoryOf, ExpertDraft, expert);
      SelectSnoc(files[..i], file, DraftCategoryOf, RegularDraft, regular);
      if EndsWith(file.name, "-sns.txt") {
        if AnalyzeFileContent(file.content) == BlogLink {
          blog := blog + [file];
        } else {
          expert := expert + [file];
        }
      } else if ShortTipName(file.name) {
        shortTips := shortTips + [file];
      } else {
        regular := regular + [file];
      }
    }
    assert files[..|files|] == files;
  }

  /** Every draft lands in exactly one of the four categories. */
  lemma DraftCategoriesPartition(files: seq<SnsFile>)
    ensures multiset(InDraftCategory(files, BlogDraft)) + multiset(InDraftCategory(files, ShortTip))
          + multiset(InDraftCategory(files, ExpertDraft)) + multiset(InDraftCategory(files, RegularDraft))
         == multiset(files)
  {
    var cs := [BlogDraft, ShortTip, ExpertDraft, RegularDraft];
    SelectPartition(files, DraftCategoryOf, cs);
    assert Gathered(files, DraftCategoryOf, cs)
        == multiset(InDraftCategory(files, BlogDraft)) + (multiset(InDraftCategory(files, ShortTip))
         + (multiset(InDraftCategory(files, ExpertDraft)) + (multiset(InDraftCategory(files, RegularDraft)) + multiset{})))
    by {
      assert cs[1..] == [ShortTip, ExpertDraft, RegularDraft];
      assert cs[1..][1..] == [ExpertDraft, RegularDraft];
      assert cs[1..][1..][1..] == [RegularDraft] && cs[1..][1..][1..][1..] == [];
    }
  }

  /** Every categorized draft is a candidate of the listing. */
  lemma CategorizedAreCandidates(listing: seq<SnsFile>, c: DraftCategory, f: SnsFile)
    requires f in InDraftCategory(Candidates(listing), c)
    ensures f in listing && StartsWith(f.name, "mix_") && EndsWith(f.name, ".txt") && DraftCategoryOf(f) == c
  {
    SelectMembers(Candidates(listing), DraftCategoryOf, c);
    FilterMembers(listing, (f: SnsFile) => StartsWith(f.name, "mix_") && EndsWith(f.name, ".txt"));
  }

  /** An `-sns.txt` draft that cannot be read is an expert post. */
  lemma UnreadableSnsIsExpert(name: string)
    requires EndsWith(name, "-sns.txt")
    ensures DraftCategoryOf(SnsFile(name, None)) == ExpertDraft
  {
  }

  /** The blog link decides only among `-sns.txt` drafts. */
  lemma LinkMattersOnlyForSns(f: SnsFile, text: string)
    requires !EndsWith(f.name, "-sns.txt")
    ensures DraftCategoryOf(SnsFile(f.name, Some(text))) == DraftCategoryOf(f)
  {
  }

  lemma ShortTipExample()
    ensures ShortTipName("mix_012-03.txt") && !ShortTipName("mix_012-13.txt")
  {
    assert "mix_012-03.txt"[|"mix_012-03.txt"| - 4..] == ".txt";
  }

  // ---------------------------------------------------------------------
  // create_optimal_mix in closed form

  /** How many blog posts `create_optimal_mix` puts on tenth slots: one
      per full block of ten slots, while blog posts last. */
  function Tenths(blogCount: nat, regularCount: nat): (j: nat)
    ensures j <= blogCount && 10 * j <= blogCount + regularCount
  {
    Min(blogCount, (blogCount + regularCount) / 10)
  }

  /** The mix `create_optimal_mix` builds: the first `Tenths` blog posts on
      slots 10, 20, 30, … (1-based), and on the other slots, in order, the
      remaining blog posts and then the regular posts. */
  function DraftMix(blog: seq<string>, regular: seq<string>): (mix: seq<string>)
    ensures |mix| == |blog| + |regular|
  {
    var j := Tenths(|blog|, |regular|);
    Interleave(blog[..j], blog[j..] + regular)
  }

  /** Slot `p` (0-based) is the tenth slot of one of the first `j` blocks. */
  predicate Reserved(j: nat, p: nat) {
    (p + 1) % 10 == 0 && (p + 1) / 10 <= j
  }

  /** The number of slots before `p` that are not reserved. */
  function Rank(j: nat, p: nat): nat {
    p - Min(j, p / 10)
  }

  /** The slot that is not reserved and has rank `t`. */
  function Unrank(j: nat, t: nat): nat {
    t + Min(j, t / 9)
  }

  lemma RankStep(j: nat, p: nat)
    ensures Rank(j, p + 1) == Rank(j, p) + (if Reserved(j, p) then 0 else 1)
  {
    var q, r := p / 10, p % 10;
    assert p == 10 * q + r;
    if r == 9 {
      assert (p + 1) / 10 == q + 1 && (p + 1) % 10 == 0;
    } else {
      assert (p + 1) / 10 == q && (p + 1) % 10 != 0;
    }
  }

  lemma {:induction false} RankMonotone(j: nat, p: nat, q: nat)
    requires p <= q
    ensures Rank(j, p) <= Rank(j, q)
    ensures p < q && !Reserved(j, p) ==> Rank(j, p) < Rank(j, q)
    decreases q - p
  {
    if p < q {
      RankStep(j, p);
      RankMonotone(j, p + 1, q);
    }
  }

  lemma UnrankFacts(j: nat, t: nat)
    ensures !Reserved(j, Unrank(j, t)) && Rank(j, Unrank(j, t)) == t
    ensures Unrank(j, t) <= t + j
  {
    var a, b := t / 9, t % 9;
    assert t == 9 * a + b;
    var u := Unrank(j, t);
    if a >= j {
      assert u == t + j;
      assert u / 10 >= j;
      if (u + 1) % 10 == 0 {
        assert u + 1 >= 10 * j + 10;
      }
    } else {
      assert u == 10 * a + b;
      assert u / 10 == a && u % 10 == b;
      assert (u + 1) % 10 == b + 1;
    }
  }

  /** The slots while `create_optimal_mix` runs: the reserved slots of
      the first `j` blocks hold their blog posts, the first `s` other slots
      the next blog posts, and the rest are still empty. */
  function SlotState(blog: seq<string>, j: nat, s: nat, p: nat): string
    requires j + s <= |blog|
  {
    if Reserved(j, p) then blog[(p + 1) / 10 - 1]
    else if Rank(j, p) < s then blog[j + Rank(j, p)]
    else ""
  }

  function Layout(blog: seq<string>, j: nat, s: nat, n: nat): (slots: seq<string>)
    requires j + s <= |blog|
    ensures |slots| == n && forall p :: 0 <= p < n ==> slots[p] == SlotState(blog, j, s, p)
  {
    seq(n, (p: nat) => SlotState(blog, j, s, p))
  }

  predicate NoEmptyName(names: seq<string>) {
    forall k :: 0 <= k < |names| ==> names[k] != ""
  }

  lemma EmptyLayout(blog: seq<string>, n: nat)
    ensures Layout(blog, 0, 0, n) == seq(n, _ => "")
  {
  }

  /** Placing blog post `j` on the tenth slot of block `j`. */
  lemma ReserveNext(blog: seq<string>, j: nat, n: nat)
    requires j < |blog| && 10 * j + 9 < n
    ensures Layout(blog, j, 0, n)[10 * j + 9 := blog[j]] == Layout(blog, j + 1, 0, n)
  {
    assert Reserved(j + 1, 10 * j + 9) && !Reserved(j, 10 * j + 9);
  }

  /** Placing a leftover blog post on the free slot of rank `s`. */
  lemma FillFree(blog: seq<string>, j: nat, s: nat, n: nat, p: nat)
    requires j + s < |blog| && p < n && !Reserved(j, p) && Rank(j, p) == s
    ensures Layout(blog, j, s, n)[p := blog[j + s]] == Layout(blog, j, s + 1, n)
  {
    forall q | 0 <= q < n && q != p && !Reserved(j, q)
      ensures Rank(j, q) != s
    {
      if q < p { RankMonotone(j, q, p); } else { RankMonotone(j, p, q); }
    }
  }

  /** Slot `p` of the mix in closed form: a reserved slot holds its blog
      post, any other slot the entry of its rank among the leftover blog
      posts followed by the regular posts. */
  function MixAt(blog: seq<string>, regular: seq<string>, p: nat): string
    requires p < |blog| + |regular|
  {
    var n, j := |blog| + |regular|, Tenths(|blog|, |regular|);
    if Reserved(j, p) then blog[(p + 1) / 10 - 1]
    else if Rank(j, p) < |blog| - j then blog[j + Rank(j, p)]
    else
      assert Rank(j, p) < n - j by {
        RankMonotone(j, p, n);
      }
      regular[Rank(j, p) - (|blog| - j)]
  }

  function MixClosed(blog: seq<string>, regular: seq<string>): (mix: seq<string>)
    ensures |mix| == |blog| + |regular|
    ensures forall p :: 0 <= p < |mix| ==> mix[p] == MixAt(blog, regular, p)
  {
    seq(|blog| + |regular|, (p: nat) requires p < |blog| + |regular| => MixAt(blog, regular, p))
  }

  lemma DraftMixAt(blog: seq<string>, regular: seq<string>, p: nat)
    requires p < |blog| + |regular|
    ensures DraftMix(blog, regular)[p] == MixAt(blog, regular, p)
  {
    var j := Tenths(|blog|, |regular|);
    InterleaveAt(blog[..j], blog[j..] + regular, p);
    SlotClosed(j, p);
  }

  /** The mix in closed form. */
  lemma DraftMixClosed(blog: seq<string>, regular: seq<string>)
    ensures DraftMix(blog, regular) == MixClosed(blog, regular)
  {
    forall p | 0 <= p < |blog| + |regular| ensures DraftMix(blog, regular)[p] == MixClosed(blog, regular)[p] {
      DraftMixAt(blog, regular, p);
    }
  }

  lemma DivTen(k: nat, n: nat)
    requires 10 * k <= n < 10 * k + 10
    ensures n / 10 == k
  {
  }

  /** The 0-based blog positions 9, 19, 29, … of `create_optimal_mix`, one
      per full block of ten slots. */
  method BlogPositions(total: nat) returns (positions: seq<nat>)
    ensures |positions| == total / 10
    ensures forall k :: 0 <= k < |positions| ==> positions[k] == 10 * k + 9
  {
    positions := [];
    var i := 10;
    while i <= total
      invariant i == 10 * |positions| + 10 && 10 * |positions| <= total
      invariant forall k :: 0 <= k < |positions| ==> positions[k] == 10 * k + 9
    {
      if i <= total {
        positions := positions + [i - 1];
      }
      i := i + 10;
    }
    DivTen(|positions|, total);
  }

  /** The blog posts, one per blog position, while they last. */
  method PlaceOnTenths(slots: array<string>, blog: seq<string>, positions: seq<nat>) returns (placed: nat)
    requires forall k :: 0 <= k < |positions| ==> positions[k] == 10 * k + 9
    requires 10 * |positions| <= slots.Length
    requires slots[..] == Layout(blog, 0, 0, slots.Length)
    modifies slots
    ensures placed == Min(|blog|, |positions|)
    ensures slots[..] == Layout(blog, placed, 0, slots.Length)
  {
    placed := 0;
    for k := 0 to |positions|
      invariant placed == Min(|blog|, k)
      invariant slots[..] == Layout(blog, placed, 0, slots.Length)
    {
      var pos := positions[k];
      if placed < |blog| && pos < slots.Length {
        ReserveNext(blog, placed, slots.Length);
        slots[pos] := blog[placed];
        placed := placed + 1;
      }
    }
  }

  /** The blog posts left after the blog positions, each to the first
      free slot. */
  method PlaceLeftover(slots: array<string>, blog: seq<string>, j: nat)
    requires NoEmptyName(blog) && j <= |blog| <= slots.Length
    requires slots[..] == Layout(blog, j, 0, slots.Length)
    modifies slots
    ensures slots[..] == Layout(blog, j, |blog| - j, slots.Length)
  {
    var blogIndex := j;
    ghost var done := 0;
    while blogIndex < |blog|
      invariant blogIndex == j + done <= |blog|
      invariant slots[..] == Layout(blog, j, done, slots.Length)
      decreases |blog| - blogIndex
    {
      ghost var u, before := Unrank(j, done), blogIndex;
      FreeSlotExists(blog, j, done, slots.Length, slots[..]);
      var placed := false;
      var p := 0;
      while p < slots.Length && !placed
        invariant p <= u < slots.Length
        invariant blogIndex == j + done <= |blog| && blogIndex == before + (if placed then 1 else 0)
        invariant !placed ==> u == Unrank(j, done) && blogIndex < |blog|
        invariant slots[..] == Layout(blog, j, done, slots.Length)
        decreases slots.Length - p, if placed then 0 else 1
      {
        LeftoverStep(blog, j, done, slots.Length, p, slots[..]);
        if slots[p] == "" {
          slots[p] := blog[blogIndex];
          blogIndex := blogIndex + 1;
          done := done + 1;
          placed := true;
        } else {
          p := p + 1;
        }
      }
    }
  }

  /** While blog posts are left over, the slot of the next rank is free. */
  lemma FreeSlotExists(blog: seq<string>, j: nat, s: nat, n: nat, slots: seq<string>)
    requires j + s < |blog| <= n && slots == Layout(blog, j, s, n)
    ensures Unrank(j, s) < n && slots[Unrank(j, s)] == ""
  {
    UnrankFacts(j, s);
  }

  /** One slot of the search for the first free slot: the search stops on
      the slot of the next rank, and any slot before it is taken. */
  lemma LeftoverStep(blog: seq<string>, j: nat, s: nat, n: nat, p: nat, slots: seq<string>)
    requires NoEmptyName(blog) && j + s < |blog| <= n && slots == Layout(blog, j, s, n)
    requires p <= Unrank(j, s) < n
    ensures slots[p] == "" ==> slots[p := blog[j + s]] == Layout(blog, j, s + 1, n)
    ensures slots[p] != "" ==> p < Unrank(j, s)
  {
    UnrankFacts(j, s);
    if slots[p] == "" {
      RankMonotone(j, p, Unrank(j, s));
      FillFree(blog, j, s, n, p);
    }
  }

  /** How many regular posts lie before slot `p` of the mix. */
  function RegularsBefore(blog: seq<string>, regular: seq<string>, p: nat): nat {
    var j := Tenths(|blog|, |regular|);
    if Rank(j, p) <= |blog| - j then 0 else Rank(j, p) - (|blog| - j)
  }

  /** Slot `p` of the regular fill: a free slot takes the next regular
      post, which is what the mix holds there; a taken slot already holds
      its entry of the mix. */
  lemma RegularSlot(blog: seq<string>, regular: seq<string>, p: nat)
    requires NoEmptyName(blog) && p < |blog| + |regular|
    ensures var j := Tenths(|blog|, |regular|);
      var slot, next := SlotState(blog, j, |blog| - j, p), RegularsBefore(blog, regular, p);
      && (slot == "" ==> next < |regular| && MixAt(blog, regular, p) == regular[next]
                         && RegularsBefore(blog, regular, p + 1) == next + 1)
      && (slot != "" ==> MixAt(blog, regular, p) == slot && RegularsBefore(blog, regular, p + 1) == next)
  {
    var j := Tenths(|blog|, |regular|);
    RankStep(j, p);
    RankMonotone(j, p, |blog| + |regular|);
  }

  /** The last phase of `create_optimal_mix` on its own: the empty slots,
      front to back, take the regular posts in order while any are left. */
  function FillGaps(slots: seq<string>, regular: seq<string>): (filled: seq<string>)
    ensures |filled| == |slots|
    decreases |slots|
  {
    if slots == [] then []
    else if slots[0] == "" && regular != [] then [regular[0]] + FillGaps(slots[1..], regular[1..])
    else [slots[0]] + FillGaps(slots[1..], regular)
  }

  /** The regular fill, one slot on. */
  lemma FillGapsStep(done: seq<string>, rest: seq<string>, regular: seq<string>)
    requires rest != []
    ensures var take := rest[0] == "" && regular != [];
      done + FillGaps(rest, regular)
      == (done + [if take then regular[0] else rest[0]]) + FillGaps(rest[1..], if take then regular[1..] else regular)
  {
  }

  /** The regular posts, in order, to the slots still free. */
  method PlaceRegular(slots: array<string>, regular: seq<string>)
    modifies slots
    ensures slots[..] == FillGaps(old(slots[..]), regular)
  {
    ghost var start := slots[..];
    var regularIndex := 0;
    for p := 0 to slots.Length
      invariant regularIndex <= |regular|
      invariant slots[p..] == start[p..]
      invariant slots[..p] + FillGaps(start[p..], regular[regularIndex..]) == FillGaps(start, regular)
    {
      ghost var before := slots[..];
      FillGapsStep(before[..p], start[p..], regular[regularIndex..]);
      assert start[p..][0] == slots[p] && start[p..][1..] == start[p + 1..];
      if slots[p] == "" && regularIndex < |regular| {
        assert regular[regularIndex..][0] == regular[regularIndex] && regular[regularIndex..][1..] == regular[regularIndex + 1..];
        slots[p] := regular[regularIndex];
        regularIndex := regularIndex + 1;
      }
      assert slots[..p + 1] == before[..p] + [slots[p]];
    }
    assert slots[..slots.Length] == slots[..];
  }

  lemma RegularsBound(blog: seq<string>, regular: seq<string>, p: nat)
    requires p <= |blog| + |regular|
    ensures RegularsBefore(blog, regular, p) <= |regular|
  {
    var j := Tenths(|blog|, |regular|);
    RankMonotone(j, p, |blog| + |regular|);
  }

  /** Slot `q` of a regular fill, with `counts[q]` regular posts used
      before it. */
  predicate FillsAt(slots: seq<string>, regular: seq<string>, filled: seq<string>, counts: seq<nat>, q: nat)
    requires q < |slots| && q < |filled| && q + 1 < |counts|
  {
    if slots[q] == "" && counts[q] < |regular|
    then filled[q] == regular[counts[q]] && counts[q + 1] == counts[q] + 1
    else filled[q] == slots[q] && counts[q + 1] == counts[q]
  }

  /** A sequence that agrees slot by slot with a regular fill is that
      fill. */
  lemma {:induction false} FillGapsMatches(slots: seq<string>, regular: seq<string>, filled: seq<string>, counts: seq<nat>, p: nat)
    requires |slots| == |filled| && |counts| == |slots| + 1 && p <= |slots|
    requires forall q :: 0 <= q < |counts| ==> counts[q] <= |regular|
    requires forall q :: 0 <= q < |slots| ==> FillsAt(slots, regular, filled, counts, q)
    ensures FillGaps(slots[p..], regular[counts[p]..]) == filled[p..]
    decreases |slots| - p
  {
    if p < |slots| {
      FillGapsMatches(slots, regular, filled, counts, p + 1);
      assert FillsAt(slots, regular, filled, counts, p);
      assert slots[p..][1..] == slots[p + 1..] && filled[p..][1..] == filled[p + 1..];
      var remaining := regular[counts[p]..];
      if slots[p] == "" && counts[p] < |regular| {
        assert remaining[0] == regular[counts[p]] && remaining[1..] == regular[counts[p] + 1..];
      }
      FillCons(slots[p..], remaining, filled[p..], regular[counts[p + 1]..]);
    } else {
      assert slots[p..] == [] && filled[p..] == [];
    }
  }

  /** The regular fill, by its first slot. */
  lemma FillCons(slots: seq<string>, regular: seq<string>, filled: seq<string>, left: seq<string>)
    requires slots != [] && |filled| == |slots| && FillGaps(slots[1..], left) == filled[1..]
    requires if slots[0] == "" && regular != []
      then filled[0] == regular[0] && left == regular[1..]
      else filled[0] == slots[0] && left == regular
    ensures FillGaps(slots, regular) == filled
  {
    assert filled == [filled[0]] + filled[1..];
  }

  /** The regular fill of the blog layout is the mix. */
  lemma FillLayout(blog: seq<string>, regular: seq<string>)
    requires NoEmptyName(blog)
    ensures var j := Tenths(|blog|, |regular|);
      FillGaps(Layout(blog, j, |blog| - j, |blog| + |regular|), regular) == MixClosed(blog, regular)
  {
    var j := Tenths(|blog|, |regular|);
    var layout, final := Layout(blog, j, |blog| - j, |blog| + |regular|), MixClosed(blog, regular);
    var counts := FillCounts(blog, regular, layout, final);
    FillGapsMatches(layout, regular, final, counts, 0);
    FillFromStart(layout, regular, final, counts[0]);
  }

  /** The regular posts used before each slot, and every slot of the blog
      layout filling as the mix says. */
  lemma FillCounts(blog: seq<string>, regular: seq<string>, layout: seq<string>, final: seq<string>)
    returns (counts: seq<nat>)
    requires NoEmptyName(blog)
    requires layout == Layout(blog, Tenths(|blog|, |regular|), |blog| - Tenths(|blog|, |regular|), |blog| + |regular|)
    requires final == MixClosed(blog, regular)
    ensures |counts| == |layout| + 1 && counts[0] == 0
    ensures forall q :: 0 <= q < |counts| ==> counts[q] <= |regular|
    ensures forall q :: 0 <= q < |layout| ==> FillsAt(layout, regular, final, counts, q)
  {
    counts := seq(|layout| + 1, (q: nat) => RegularsBefore(blog, regular, q));
    forall q | 0 <= q < |counts| ensures counts[q] <= |regular| {
      RegularsBound(blog, regular, q);
    }
    assert counts[0] == RegularsBefore(blog, regular, 0);
    forall q | 0 <= q < |layout| ensures FillsAt(layout, regular, final, counts, q) {
      RegularSlotFills(blog, regular, q, layout, final, counts);
    }
  }

  lemma RegularSlotFills(blog: seq<string>, regular: seq<string>, q: nat,
                         layout: seq<string>, final: seq<string>, counts: seq<nat>)
    requires NoEmptyName(blog) && q < |blog| + |regular|
    requires q < |layout| && layout[q] == SlotState(blog, Tenths(|blog|, |regular|), |blog| - Tenths(|blog|, |regular|), q)
    requires q < |final| && final[q] == MixAt(blog, regular, q)
    requires q + 1 < |counts| && counts[q] == RegularsBefore(blog, regular, q)
    requires counts[q + 1] == RegularsBefore(blog, regular, q + 1)
    ensures FillsAt(layout, regular, final, counts, q)
  {
    RegularSlot(blog, regular, q);
  }

  lemma FillFromStart(slots: seq<string>, regular: seq<string>, filled: seq<string>, first: nat)
    requires first == 0 && first <= |regular| && FillGaps(slots[0..], regular[first..]) == filled[0..]
    ensures FillGaps(slots, regular) == filled
  {
    assert slots[0..] == slots && regular[0..] == regular && filled[0..] == filled;
  }

  /** Every name in the mix is a blog or regular post's name, so none is
      empty. */
  lemma DraftMixNoEmpty(blog: seq<string>, regular: seq<string>)
    requires NoEmptyName(blog) && NoEmptyName(regular)
    ensures forall x :: x in DraftMix(blog, regular) ==> x != ""
  {
    DraftMixElements(blog, regular);
    forall x | x in DraftMix(blog, regular) ensures x != "" {
      assert x in multiset(DraftMix(blog, regular));
    }
  }

  // ---------------------------------------------------------------------
  // What the mix promises

  /** The mix holds every blog and regular post, each as often as given. */
  lemma DraftMixElements(blog: seq<string>, regular: seq<string>)
    ensures multiset(DraftMix(blog, regular)) == multiset(blog) + multiset(regular)
  {
    var j := Tenths(|blog|, |regular|);
    InterleaveElements(blog[..j], blog[j..] + regular);
    assert blog[..j] + blog[j..] == blog;
  }

  /** Blog post `k` is the `10(k+1)`-th entry of the mix, for each of the
      first `Tenths` blog posts. */
  lemma DraftBlogOnTenths(blog: seq<string>, regular: seq<string>, k: nat)
    requires k < Tenths(|blog|, |regular|)
    ensures 10 * k + 9 < |blog| + |regular| && DraftMix(blog, regular)[10 * k + 9] == blog[k]
  {
    var j := Tenths(|blog|, |regular|);
    assert Reserved(j, 10 * k + 9) && (10 * k + 10) / 10 - 1 == k;
    DraftMixAt(blog, regular, 10 * k + 9);
  }

  /** With nine regular posts or more per blog post, every blog post is on
      a tenth slot: the mix is the plain interleaving of the two lists. */
  lemma DraftEnoughRegular(blog: seq<string>, regular: seq<string>)
    requires |regular| >= 9 * |blog|
    ensures Tenths(|blog|, |regular|) == |blog| && DraftMix(blog, regular) == Interleave(blog, regular)
  {
    assert (|blog| + |regular|) / 10 >= |blog|;
    assert blog[..|blog|] == blog && blog[|blog|..] + regular == regular;
  }

  lemma {:induction false} UnrankMonotone(j: nat, t: nat, u: nat)
    requires t < u
    ensures Unrank(j, t) < Unrank(j, u)
  {
    var a, b := t / 9, u / 9;
    assert t == 9 * a + t % 9 && u == 9 * b + u % 9;
    assert a <= b;
  }

  /** The `k`-th blog post left over from the tenth slots takes the `k`-th
      free slot. */
  lemma LeftoverPlace(blog: seq<string>, regular: seq<string>, k: nat)
    requires k < |blog| - Tenths(|blog|, |regular|)
    ensures var j := Tenths(|blog|, |regular|);
      Unrank(j, k) < |blog| + |regular| && DraftMix(blog, regular)[Unrank(j, k)] == blog[j + k]
  {
    var j := Tenths(|blog|, |regular|);
    var u := Unrank(j, k);
    UnrankFacts(j, k);
    assert u < |blog| + |regular|;
    assert MixAt(blog, regular, u) == blog[j + k];
    DraftMixAt(blog, regular, u);
  }

  /** Regular post `a` takes the free slot after all leftover blog posts
      and the `a` regular posts before it. */
  lemma RegularPlace(blog: seq<string>, regular: seq<string>, a: nat)
    requires a < |regular|
    ensures var j := Tenths(|blog|, |regular|);
      Unrank(j, |blog| - j + a) < |blog| + |regular| && DraftMix(blog, regular)[Unrank(j, |blog| - j + a)] == regular[a]
  {
    var j := Tenths(|blog|, |regular|);
    UnrankFacts(j, |blog| - j + a);
    DraftMixAt(blog, regular, Unrank(j, |blog| - j + a));
  }

  /** The regular posts keep their order, and come after every leftover
      blog post. */
  lemma DraftOrder(blog: seq<string>, regular: seq<string>, k: nat, a: nat, b: nat)
    requires k < |blog| - Tenths(|blog|, |regular|) && a < b < |regular|
    ensures var j := Tenths(|blog|, |regular|);
      Unrank(j, k) < Unrank(j, |blog| - j + a) < Unrank(j, |blog| - j + b)
  {
    var j := Tenths(|blog|, |regular|);
    UnrankMonotone(j, k, |blog| - j + a);
    UnrankMonotone(j, |blog| - j + a, |blog| - j + b);
  }

  /** The blog posts left over go to the front of the mix, not to its end:
      the first free slots, before any regular post. */
  lemma LeftoverAtFront(blog: seq<string>, regular: seq<string>, i: nat)
    requires i < 9 && i < |blog| - Tenths(|blog|, |regular|)
    ensures DraftMix(blog, regular)[i] == blog[Tenths(|blog|, |regular|) + i]
  {
    LeftoverPlace(blog, regular, i);
    assert Unrank(Tenths(|blog|, |regular|), i) == i;
  }

  /** `create_optimal_mix`: the mixed order of the drafts' names. */
  method CreateOptimalMix(blog: seq<string>, shortTips: seq<string>, expert: seq<string>, regularPosts: seq<string>)
    returns (mixed: seq<string>)
    requires NoEmptyName(blog) && NoEmptyName(shortTips + expert + regularPosts)
    ensures mixed == DraftMix(blog, shortTips + expert + regularPosts)
  {
    var regular := shortTips + expert + regularPosts;
    var total := |blog| + |regular|;
    var slots := new string[total](_ => "");
    EmptyLayout(blog, total);
    var positions := BlogPositions(total);
    var blogIndex := PlaceOnTenths(slots, blog, positions);
    ghost var j := Tenths(|blog|, |regular|);
    assert blogIndex == j;
    PlaceLeftover(slots, blog, blogIndex);
    ghost var layout := Layout(blog, j, |blog| - j, |blog| + |regular|);
    assert slots[..] == layout;
    PlaceRegular(slots, regular);
    assert slots[..] == DraftMix(blog, regular) by {
      FillLayout(blog, regular);
      DraftMixClosed(blog, regular);
    }
    DraftMixNoEmpty(blog, regular);
    FilterAll(slots[..], (name: string) => name != "");
    mixed := Filter(slots[..], (name: string) => name != "");
  }

  // ---------------------------------------------------------------------
  // backup_and_rename_files

  /** The final name of the `i`-th draft (from 1): the `mix_` and `temp_`
      fragments of its old name removed, under the `draft_mix_NNN_`
      prefix. */
  function DraftFinalName(i: nat, name: string): string {
    StagedName("draft_mix_", i, ReplaceAll(ReplaceAll(name, "mix_", ""), "temp_", ""))
  }

  /** The final names of a batch in which every draft exists. */
  function DraftFinals(names: seq<string>): (r: seq<string>)
    ensures |r| == |names|
  {
    seq(|names|, k requires 0 <= k < |names| => DraftFinalName(k + 1, names[k]))
  }

  /** The folder after the staging loop, the temporary and final names
      recorded so far, and whether a move raised. */
  datatype Staging = Staging(entries: Entries, temps: seq<string>, finals: seq<string>, raised: bool)

  /** One turn of the staging loop for the `i`-th name: a name missing
      from the folder is skipped, keeping its number; once a move has
      raised, nothing further happens. */
  function StageStep(r: Staging, refused: set<(string, string)>, i: nat, name: string): Staging {
    if r.raised || name !in r.entries then r
    else
      var t := StagedName("temp_", i, name);
      if (name, t) in refused then r.(raised := true)
      else Staging(MoveEntry(r.entries, name, t), r.temps + [t], r.finals + [DraftFinalName(i, name)], false)
  }

  /** The staging loop over `names` numbered from 1. */
  function StageDrafts(m: Entries, refused: set<(string, string)>, names: seq<string>): (r: Staging)
    ensures |r.temps| == |r.finals| <= |names|
    decreases |names|
  {
    if names == [] then Staging(m, [], [], false)
    else StageStep(StageDrafts(m, refused, names[..|names| - 1]), refused, |names|, names[|names| - 1])
  }

  /** What `backup_and_rename_files` leaves in the folder and returns: the
      number of drafts renamed, or `None` when a move raised (the folder
      then stays as the moves before it left it). */
  function DraftRenameOutcome(m: Entries, refused: set<(string, string)>, names: seq<string>): (Entries, Option<nat>) {
    var r := StageDrafts(m, refused, names);
    if r.raised then (r.entries, None)
    else
      var f := MoveAll(r.entries, refused, r.temps, r.finals);
      (f.0, if f.1 < |r.temps| then None else Some(|r.temps|))
  }

  lemma StageDraftsSnoc(m: Entries, refused: set<(string, string)>, names: seq<string>, i: nat)
    requires i < |names|
    ensures StageDrafts(m, refused, names[..i + 1]) == StageStep(StageDrafts(m, refused, names[..i]), refused, i + 1, names[i])
  {
    assert names[..i + 1][..i] == names[..i];
  }

  /** A move that raised ends the staging loop for good. */
  lemma {:induction false} RaisedStays(m: Entries, refused: set<(string, string)>, names: seq<string>, i: nat)
    requires i <= |names| && StageDrafts(m, refused, names[..i]).raised
    ensures StageDrafts(m, refused, names) == StageDrafts(m, refused, names[..i])
    decreases |names| - i
  {
    if i < |names| {
      StageDraftsSnoc(m, refused, names, i);
      RaisedStays(m, refused, names, i + 1);
    } else {
      assert names[..i] == names;
    }
  }

  /** `backup_and_rename_files`: each existing draft is moved to its
      numbered temporary name, then every temporary name to its final
      name; the result is the number of drafts renamed. A move that
      raises ends the operation with nothing moved back. */
  method BackupAndRenameFiles(folder: Folder, mixedList: seq<string>) returns (count: Option<nat>)
    modifies folder
    ensures (folder.entries, count) == DraftRenameOutcome(old(folder.entries), folder.refused, mixedList)
  {
    ghost var m0 := folder.entries;
    var temps: seq<string> := [];
    var finals: seq<string> := [];
    var i := 0;
    while i < |mixedList|
      invariant i <= |mixedList|
      invariant StageDrafts(m0, folder.refused, mixedList[..i]) == Staging(folder.entries, temps, finals, false)
    {
      var name := mixedList[i];
      StageDraftsSnoc(m0, folder.refused, mixedList, i);
      if name in folder.entries {
        var tempName := StagedName("temp_", i + 1, name);
        var ok := folder.Move(name, tempName);
        if !ok {
          RaisedStays(m0, folder.refused, mixedList, i + 1);
          return None;
        }
        temps := temps + [tempName];
        finals := finals + [DraftFinalName(i + 1, name)];
      }
      i := i + 1;
    }
    assert mixedList[..i] == mixedList;
    var done := FinalizeAll(folder, temps, finals);
    if done < |temps| {
      return None;
    }
    return Some(|temps|);
  }

  // ---------------------------------------------------------------------
  // What backup_and_rename_files achieves

  /** When no draft of the list is in the folder, nothing is moved and the
      count is 0. */
  lemma {:induction false} NoDraftFound(m: Entries, refused: set<(string, string)>, names: seq<string>)
    requires forall k :: 0 <= k < |names| ==> names[k] !in m
    ensures DraftRenameOutcome(m, refused, names) == (m, Some(0))
  {
    var i := 0;
    while i < |names|
      invariant i <= |names|
      invariant StageDrafts(m, refused, names[..i]) == Staging(m, [], [], false)
    {
      StageDraftsSnoc(m, refused, names, i);
      i := i + 1;
    }
    assert names[..i] == names;
  }

  /** A draft missing from the folder is skipped but keeps its number: the
      second draft of the list is staged as `temp_002_…` even when the
      first is gone. */
  lemma SkippedDraftKeepsNumber(m: Entries, refused: set<(string, string)>, a: string, b: string)
    requires a !in m && b in m && (b, StagedName("temp_", 2, b)) !in refused
    ensures var t := StagedName("temp_", 2, b);
      StageDrafts(m, refused, [a, b]) == Staging(MoveEntry(m, b, t), [t], [DraftFinalName(2, b)], false)
  {
    StageDraftsSnoc(m, refused, [a, b], 0);
    StageDraftsSnoc(m, refused, [a, b], 1);
  }

  /** The names `mix_` and `temp_` fragments are removed from the old
      name wherever they occur; a draft `mix_x` whose rest is free of them
      becomes `draft_mix_NNN_x`. */
  lemma DraftFinalNameStrips(i: nat, x: string)
    requires !Contains(x, "mix_") && !Contains(x, "temp_")
    ensures DraftFinalName(i, "mix_" + x) == "draft_mix_" + Pad3(i) + "_" + x
  {
    ReplaceAllLeading("mix_", x, "");
    ReplaceAllAbsent(x, "mix_", "");
    assert ReplaceAll("mix_" + x, "mix_", "") == x;
    ReplaceAllAbsent(x, "temp_", "");
  }

  /** The staging loop over a batch of existing drafts, none of whose
      first `i` moves is refused, renames them as if all at once. */
  lemma {:induction false} StagedPrefix(m: Entries, refused: set<(string, string)>, names: seq<string>, i: nat)
    requires Batch(m, names, "temp_", "draft_mix_") && i <= |names|
    requires forall k :: 0 <= k < i ==> (names[k], Staged("temp_", names)[k]) !in refused
    ensures Independent(m, names[..i], Staged("temp_", names)[..i])
    ensures var temps := Staged("temp_", names);
      StageDrafts(m, refused, names[..i]) == Staging(Relocated(m, names[..i], temps[..i]), temps[..i], DraftFinals(names)[..i], false)
    decreases i
  {
    var temps := Staged("temp_", names);
    BatchStages(m, names, "temp_", "draft_mix_");
    IndependentPrefix(m, names, temps, i);
    if i == 0 {
      RelocatedNone(m);
    } else {
      StagedPrefix(m, refused, names, i - 1);
      StageDraftsSnoc(m, refused, names, i - 1);
      SnocSlice(names, i - 1);
      SnocSlice(temps, i - 1);
      SnocSlice(DraftFinals(names), i - 1);
      RelocatedSnoc(m, names[..i - 1], temps[..i - 1], names[i - 1], temps[i - 1]);
    }
  }

  /** The staging loop stops at the first refused move and the drafts
      staged before it stay under their temporary names: nothing is moved
      back and no count is returned. */
  lemma DraftStagingStops(m: Entries, refused: set<(string, string)>, names: seq<string>)
    requires Batch(m, names, "temp_", "draft_mix_")
    requires !NoneRefused(refused, names, Staged("temp_", names))
    ensures var temps := Staged("temp_", names);
      var c := FirstRefused(refused, names, temps);
      DraftRenameOutcome(m, refused, names) == (Relocated(m, names[..c], temps[..c]), None)
  {
    var temps := Staged("temp_", names);
    var c := FirstRefused(refused, names, temps);
    StagedPrefix(m, refused, names, c);
    StageDraftsSnoc(m, refused, names, c);
    RaisedStays(m, refused, names, c + 1);
  }

  /** Drafts at different positions get different final names. */
  lemma DraftFinalsDistinct(names: seq<string>)
    ensures Distinct(DraftFinals(names))
  {
    var finals := DraftFinals(names);
    forall k, j | 0 <= k < j < |names| ensures finals[k] != finals[j] {
      if finals[k] == finals[j] {
        var a := ReplaceAll(ReplaceAll(names[k], "mix_", ""), "temp_", "");
        var b := ReplaceAll(ReplaceAll(names[j], "mix_", ""), "temp_", "");
        StagedNameInjective("draft_mix_", k + 1, a, j + 1, b);
      }
    }
  }

  /** No final name is a temporary name. */
  lemma DraftFinalsAvoidTemps(names: seq<string>)
    ensures forall k, j :: 0 <= k < |names| && 0 <= j < |names| ==> DraftFinals(names)[k] != Staged("temp_", names)[j]
  {
    assert "draft_mix_"[0] != "temp_"[0];
    forall k, j | 0 <= k < |names| && 0 <= j < |names| ensures DraftFinals(names)[k] != Staged("temp_", names)[j] {
      var a := ReplaceAll(ReplaceAll(names[k], "mix_", ""), "temp_", "");
      StagedNamesDiverge("draft_mix_", "temp_", k + 1, a, j + 1, names[j]);
    }
  }

  /** The finalizing moves of a batch of existing drafts cannot interfere
      with each other. */
  lemma DraftFinalsIndependent(m: Entries, names: seq<string>)
    requires Batch(m, names, "temp_", "draft_mix_")
    ensures Independent(Relocated(m, names, Staged("temp_", names)), Staged("temp_", names), DraftFinals(names))
  {
    var temps := Staged("temp_", names);
    BatchStages(m, names, "temp_", "draft_mix_");
    forall k | 0 <= k < |names| ensures temps[k] in Relocated(m, names, temps) {
      RelocatedAtIndex(m, names, temps, k);
    }
    DraftFinalsDistinct(names);
    DraftFinalsAvoidTemps(names);
  }

  /** On a batch of existing drafts the count is the number of drafts
      exactly when no move is refused, and then each draft is under its
      final name, the old and temporary names are gone and every other
      file is untouched. */
  lemma DraftRenameSucceeds(m: Entries, refused: set<(string, string)>, names: seq<string>)
    requires Batch(m, names, "temp_", "draft_mix_")
    ensures var temps, finals := Staged("temp_", names), DraftFinals(names);
      DraftRenameOutcome(m, refused, names).1 == Some(|names|)
      <==> NoneRefused(refused, names, temps) && NoneRefused(refused, temps, finals)
    ensures var r := DraftRenameOutcome(m, refused, names);
      var temps, finals := Staged("temp_", names), DraftFinals(names);
      r.1 == Some(|names|) ==>
        && (forall k :: 0 <= k < |names| ==> finals[k] in r.0 && r.0[finals[k]] == m[names[k]])
        && (forall x :: x in r.0 <==> (x in m && x !in names && x !in temps) || x in finals)
        && (forall x :: x in m && x !in names && x !in temps && x !in finals ==> r.0[x] == m[x])
  {
    var temps, finals := Staged("temp_", names), DraftFinals(names);
    var n := |names|;
    if NoneRefused(refused, names, temps) {
      StagedPrefix(m, refused, names, n);
      assert names[..n] == names && temps[..n] == temps && finals[..n] == finals;
      var m1 := Relocated(m, names, temps);
      RelocatedAt(m, names, temps);
      DraftFinalsIndependent(m, names);
      var d := FirstRefused(refused, temps, finals);
      MoveAllUpTo(m1, refused, temps, finals, d);
      if d == n {
        assert temps[..n] == temps && finals[..n] == finals;
        RelocatedAt(m1, temps, finals);
      }
    } else {
      DraftStagingStops(m, refused, names);
    }
  }
}
