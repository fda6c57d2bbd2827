/** The blog-aware post mixer: posts that link to the blog, short tips
    (`-05`, `-06`, `-07`, `-02`) and professional posts are told apart, the
    short tips and professional posts are shuffled together into one pool of
    regular posts, a blog post goes to every tenth place while regular posts
    remain, the blog posts left over go to the end, and the files are renamed
    `sns_mix_001_…`, `sns_mix_002_…` in that order through temporary
    `sns_temp_001_…` names. */
module MixSnsFiles {
  import opened Wrappers
  import opened Strings
  import opened Sorting
  import opened Directory

  /** A file of the posts folder: its name and, unless reading it failed,
      its text. */
  datatype SnsFile = SnsFile(name: string, content: Option<string>)

  datatype SnsCategory = Blog | ShortTips | Professional

  const BlogMarker: string := "www.coommu.com"

  /** A post whose text links to the blog is a blog post whatever its name;
      an unreadable file is a professional post. */
  function SnsCategoryOf(f: SnsFile): SnsCategory {
    match f.content
    case None => Professional
    case Some(text) =>
      if Contains(text, BlogMarker) then Blog
      else if EndsWith(f.name, "-05.txt") || EndsWith(f.name, "-06.txt") || EndsWith(f.name, "-07.txt") || EndsWith(f.name, "-02.txt") then ShortTips
      else Professional
  }

  /** The files `glob("*.txt")` finds in the folder. */
  function Posts(listing: seq<SnsFile>): seq<SnsFile> {
    Filter(listing, (f: SnsFile) => EndsWith(f.name, ".txt"))
  }

  function InSnsCategory(files: seq<SnsFile>, c: SnsCategory): seq<SnsFile> {
    Select(files, SnsCategoryOf, c)
  }

  /** `categorize_sns_files`: the posts of each category, shuffled by the
      permutation `random.shuffle` happens to choose for it. */
  method CategorizeSnsFiles(listing: seq<SnsFile>, pb: seq<nat>, ps: seq<nat>, pp: seq<nat>)
    returns (blog: seq<SnsFile>, shortTips: seq<SnsFile>, professional: seq<SnsFile>)
    requires IsPermutation(pb, |InSnsCategory(Posts(listing), Blog)|)
    requires IsPermutation(ps, |InSnsCategory(Posts(listing), ShortTips)|)
    requires IsPermutation(pp, |InSnsCategory(Posts(listing), Professional)|)
    ensures blog == Permute(InSnsCategory(Posts(listing), Blog), pb)
    ensures shortTips == Permute(InSnsCategory(Posts(listing), ShortTips), ps)
    ensures professional == Permute(InSnsCategory(Posts(listing), Professional), pp)
  {
    var files := Posts(listing);
    blog, shortTips, professional := [], [], [];
    for i := 0 to |files|
      invariant blog == InSnsCategory(files[..i], Blog)
      invariant shortTips == InSnsCategory(files[..i], ShortTips)
      invariant professional == InSnsCategory(files[..i], Professional)
    {
      var file := files[i];
      assert files[..i + 1] == files[..i] + [file];
      SelectSnoc(files[..i], file, SnsCategoryOf, Blog, blog);
      SelectSnoc(files[..i], file, SnsCategoryOf, ShortTips, shortTips);
      SelectSnoc(files[..i], file, SnsCategoryOf, Professional, professional);
      match file.content {
        case None =>
          professional := professional + [file];
        case Some(content) =>
          if Contains(content, BlogMarker) {
            blog := blog + [file];
          } else if EndsWith(file.name, "-05.txt") || EndsWith(file.name, "-06.txt") || EndsWith(file.name, "-07.txt") || EndsWith(file.name, "-02.txt") {
            shortTips := shortTips + [file];
          } else {
            professional := professional + [file];
          }
      }
    }
    assert files[..|files|] == files;
    blog := Permute(blog, pb);
    shortTips := Permute(shortTips, ps);
    professional := Permute(professional, pp);
  }

  /** Every post lands in exactly one category. */
  lemma SnsCategoriesPartition(files: seq<SnsFile>)
    ensures multiset(InSnsCategory(files, Blog)) + multiset(InSnsCategory(files, ShortTips)) + multiset(InSnsCategory(files, Professional))
         == multiset(files)
  {
    var cs := [Blog, ShortTips, Professional];
    SelectPartition(files, SnsCategoryOf, cs);
    assert Gathered(files, SnsCategoryOf, cs)
        == multiset(InSnsCategory(files, Blog)) + (multiset(InSnsCategory(files, ShortTips)) + (multiset(InSnsCategory(files, Professional)) + multiset{}))
    by {
      assert cs[1..] == [ShortTips, Professional] && cs[1..][1..] == [Professional] && cs[1..][1..][1..] == [];
    }
  }

  // ---------------------------------------------------------------------
  // The mix, in closed form

  /** How many blog posts go among the regular posts, one at every tenth
      place, before the regular posts run out. */
  function Early(nB: nat, nR: nat): nat {
    if nR == 0 then 0 else Min(nB, (nR - 1) / 9)
  }

  /** Where the item at (0-based) place `i` of the mix comes from. */
  datatype Source = FromBlog(k: nat) | FromRegular(k: nat)

  function SourceOf(nB: nat, nR: nat, i: nat): (s: Source)
    requires i < nB + nR
    ensures s.FromBlog? ==> s.k < nB
    ensures s.FromRegular? ==> s.k < nR
  {
    var e := Early(nB, nR);
    if i < nR + e then
      if (i + 1) % 10 == 0 && (i + 1) / 10 <= e then FromBlog((i + 1) / 10 - 1)
      else FromRegular(i - Min(e, i / 10))
    else FromBlog(i - nR)
  }

  function Pick<T>(blog: seq<T>, regular: seq<T>, s: Source): T
    requires s.FromBlog? ==> s.k < |blog|
    requires s.FromRegular? ==> s.k < |regular|
  {
    match s
    case FromBlog(k) => blog[k]
    case FromRegular(k) => regular[k]
  }

  /** While regular posts remain (up to the place of the last one), a place
      holds a blog post exactly when it is a tenth place and blog posts are
      left for it. */
  lemma EveryTenthPlace(nB: nat, nR: nat, i: nat)
    requires i < nR + Early(nB, nR)
    ensures SourceOf(nB, nR, i).FromBlog? <==> (i + 1) % 10 == 0 && (i + 1) / 10 <= nB
  {
  }

  /** The last regular post sits at place `nR + Early - 1`. */
  lemma LastRegular(nB: nat, nR: nat)
    requires nR > 0
    ensures SourceOf(nB, nR, nR + Early(nB, nR) - 1) == FromRegular(nR - 1)
  {
  }

  /** A blog post reaches a place that is not a tenth place only once every
      regular post has been placed: only blog posts follow it. */
  lemma LateBlogPosts(nB: nat, nR: nat, i: nat, j: nat)
    requires i < j < nB + nR
    requires SourceOf(nB, nR, i).FromBlog? && (i + 1) % 10 != 0
    ensures SourceOf(nB, nR, j).FromBlog?
  {
  }

  /** Blog posts and regular posts each keep their order. */
  lemma SourceKeepsOrder(nB: nat, nR: nat, i: nat, j: nat)
    requires i < j < nB + nR
    ensures SourceOf(nB, nR, i).FromBlog? && SourceOf(nB, nR, j).FromBlog? ==> SourceOf(nB, nR, i).k < SourceOf(nB, nR, j).k
    ensures SourceOf(nB, nR, i).FromRegular? && SourceOf(nB, nR, j).FromRegular? ==> SourceOf(nB, nR, i).k < SourceOf(nB, nR, j).k
  {
  }

  // ---------------------------------------------------------------------
  // The mix, as a sequence

  /** Nine regular posts, then a blog post, for as long as there are blog
      posts; then the remaining regular posts. */
  function Interleave<T>(bs: seq<T>, rs: seq<T>): (r: seq<T>)
    requires |rs| >= 9 * |bs|
    ensures |r| == |bs| + |rs|
    decreases |bs|
  {
    if bs == [] then rs else rs[..9] + [bs[0]] + Interleave(bs[1..], rs[9..])
  }

  /** `create_blog_optimized_mix`, in closed form: the blog posts that fit
      among the regular posts at every tenth place, then the rest. */
  function SnsMix(blog: seq<SnsFile>, regular: seq<SnsFile>): seq<SnsFile> {
    var e := Early(|blog|, |regular|);
    Interleave(blog[..e], regular) + blog[e..]
  }

  lemma {:induction false} InterleaveElements<T>(bs: seq<T>, rs: seq<T>)
    requires |rs| >= 9 * |bs|
    ensures multiset(Interleave(bs, rs)) == multiset(bs) + multiset(rs)
    decreases |bs|
  {
    if bs != [] {
      InterleaveElements(bs[1..], rs[9..]);
      assert bs == [bs[0]] + bs[1..];
      assert rs == rs[..9] + rs[9..];
    }
  }

  /** Where place `i` of `Interleave` takes its post from, when it goes
      through `n` blog posts: the first nine places of each block of ten are
      regular posts and the tenth the next blog post. */
  function Slot(n: nat, i: nat): Source
    decreases n
  {
    if n == 0 || i < 9 then FromRegular(i)
    else if i == 9 then FromBlog(0)
    else Shifted(Slot(n - 1, i - 10))
  }

  /** The source one block of ten further on. */
  function Shifted(s: Source): Source {
    match s
    case FromBlog(k) => FromBlog(k + 1)
    case FromRegular(k) => FromRegular(k + 9)
  }

  /** Place `i` of an interleaving holds the post `Slot` names. */
  lemma {:induction false} InterleaveAt<T>(bs: seq<T>, rs: seq<T>, i: nat)
    requires |rs| >= 9 * |bs| && i < |bs| + |rs|
    ensures match Slot(|bs|, i)
      case FromBlog(k) => k < |bs| && Interleave(bs, rs)[i] == bs[k]
      case FromRegular(k) => k < |rs| && Interleave(bs, rs)[i] == rs[k]
    decreases |bs|
  {
    if bs != [] {
      var bs', rs' := bs[1..], rs[9..];
      var head := rs[..9] + [bs[0]];
      assert Interleave(bs, rs) == head + Interleave(bs', rs');
      if i >= 10 {
        InterleaveAt(bs', rs', i - 10);
        assert Interleave(bs, rs)[i] == Interleave(bs', rs')[i - 10];
      } else {
        assert Interleave(bs, rs)[i] == head[i];
      }
    }
  }

  /** `Slot` in closed form: a tenth place holds a blog post while blog
      posts last; any other place holds the regular post that follows all
      those placed before it. */
  lemma {:induction false} SlotClosed(n: nat, i: nat)
    ensures Slot(n, i) ==
      if (i + 1) % 10 == 0 && (i + 1) / 10 <= n then FromBlog((i + 1) / 10 - 1) else FromRegular(i - Min(n, i / 10))
    decreases n
  {
    if n > 0 && i >= 10 {
      SlotClosed(n - 1, i - 10);
      ShiftByTen(n, i);
    }
  }

  /** Place `i` of a mix is place `i - 10` of the mix without its first ten. */
  lemma ShiftByTen(n: nat, i: nat)
    requires n > 0 && i >= 10
    ensures ((i - 10 + 1) % 10 == 0) == ((i + 1) % 10 == 0)
    ensures (i - 10 + 1) / 10 == (i + 1) / 10 - 1
    ensures Min(n - 1, (i - 10) / 10) == Min(n, i / 10) - 1
  {
  }

  /** The mix holds every blog and regular post exactly once. */
  lemma SnsMixElements(blog: seq<SnsFile>, regular: seq<SnsFile>)
    ensures |SnsMix(blog, regular)| == |blog| + |regular|
    ensures multiset(SnsMix(blog, regular)) == multiset(blog) + multiset(regular)
  {
    var e := Early(|blog|, |regular|);
    InterleaveElements(blog[..e], regular);
    assert blog == blog[..e] + blog[e..];
  }

  /** Place `i` of the mix holds the post `SourceOf` names. */
  lemma SnsMixAt(blog: seq<SnsFile>, regular: seq<SnsFile>, i: nat)
    requires i < |blog| + |regular|
    ensures |SnsMix(blog, regular)| == |blog| + |regular|
    ensures SnsMix(blog, regular)[i] == Pick(blog, regular, SourceOf(|blog|, |regular|, i))
  {
    SnsMixElements(blog, regular);
    var e := Early(|blog|, |regular|);
    var front := Interleave(blog[..e], regular);
    if i < |regular| + e {
      assert SnsMix(blog, regular)[i] == front[i];
      assert front[i] == Pick(blog[..e], regular, Slot(e, i)) by {
        InterleaveAt(blog[..e], regular, i);
      }
      SlotClosed(e, i);
    } else {
      assert SnsMix(blog, regular)[i] == blog[e..][i - |front|];
    }
  }

  /** `create_blog_optimized_mix`: the short tips and professional posts are
      shuffled together (by the permutation `pr`) into the regular posts,
      which the loop then interleaves with the blog posts. `leftover` is the
      number of blog posts still unplaced when the loop ends: none, so the
      loop that appends leftovers at lines 84-86 never runs. */
  method CreateBlogOptimizedMix(blog: seq<SnsFile>, shortTips: seq<SnsFile>, professional: seq<SnsFile>, pr: seq<nat>)
    returns (mixed: seq<SnsFile>, leftover: nat)
    requires IsPermutation(pr, |shortTips| + |professional|)
    ensures mixed == SnsMix(blog, Permute(shortTips + professional, pr))
    ensures leftover == 0
  {
    var regular := Permute(shortTips + professional, pr);
    var nB, nR := |blog|, |regular|;
    mixed := [];
    var blogIndex, regularIndex, position := 0, 0, 1;
    while regularIndex < nR || blogIndex < nB
      invariant Progress(nB, nR, blogIndex, regularIndex, position)
      invariant |mixed| == blogIndex + regularIndex
      invariant forall t :: 0 <= t < |mixed| ==> mixed[t] == Pick(blog, regular, SourceOf(nB, nR, t))
      decreases 10 * (nR - regularIndex + nB - blogIndex) + Gap(position)
    {
      if position % 10 == 0 && blogIndex < nB {
        BlogStep(nB, nR, blogIndex, regularIndex, position);
        PlacedSnoc(blog, regular, mixed, blog[blogIndex]);
        mixed := mixed + [blog[blogIndex]];
        blogIndex := blogIndex + 1;
      } else if regularIndex < nR {
        RegularStep(nB, nR, blogIndex, regularIndex, position);
        PlacedSnoc(blog, regular, mixed, regular[regularIndex]);
        mixed := mixed + [regular[regularIndex]];
        regularIndex := regularIndex + 1;
      } else {
        IdleStep(nB, nR, blogIndex, regularIndex, position);
      }
      position := position + 1;
    }
    leftover := nB - blogIndex;
    SnsMixPointwise(blog, regular, mixed);
  }

  lemma SnsMixPointwise(blog: seq<SnsFile>, regular: seq<SnsFile>, mixed: seq<SnsFile>)
    requires |mixed| == |blog| + |regular|
    requires forall t :: 0 <= t < |mixed| ==> mixed[t] == Pick(blog, regular, SourceOf(|blog|, |regular|, t))
    ensures mixed == SnsMix(blog, regular)
  {
    SnsMixElements(blog, regular);
    forall t | 0 <= t < |mixed| ensures mixed[t] == SnsMix(blog, regular)[t] {
      SnsMixAt(blog, regular, t);
    }
  }

  /** Appending the post `SourceOf` names for the next place keeps every
      place of the mix built so far right. */
  lemma PlacedSnoc(blog: seq<SnsFile>, regular: seq<SnsFile>, mixed: seq<SnsFile>, x: SnsFile)
    requires |mixed| < |blog| + |regular|
    requires forall t :: 0 <= t < |mixed| ==> mixed[t] == Pick(blog, regular, SourceOf(|blog|, |regular|, t))
    requires x == Pick(blog, regular, SourceOf(|blog|, |regular|, |mixed|))
    ensures forall t :: 0 <= t < |mixed| + 1 ==> (mixed + [x])[t] == Pick(blog, regular, SourceOf(|blog|, |regular|, t))
  {
  }

  /** What the loop of `create_blog_optimized_mix` keeps: while regular
      posts remain, `position` is the 1-based place to fill next and every
      tenth place so far has taken a blog post (while any were left); once
      they are all placed, at least the early blog posts are too. */
  ghost predicate Progress(nB: nat, nR: nat, bi: nat, ri: nat, position: nat) {
    && bi <= nB && ri <= nR && position >= 1
    && (ri < nR ==> position == bi + ri + 1 && bi == Min(nB, (bi + ri) / 10))
    && (ri == nR ==> bi >= Early(nB, nR))
  }

  /** How many steps `position` still takes to reach the next tenth place. */
  function Gap(position: nat): (g: nat)
    ensures g < 10
  {
    (10 - position % 10) % 10
  }

  /** A blog post placed by the loop is the one `SourceOf` names. */
  lemma BlogStep(nB: nat, nR: nat, bi: nat, ri: nat, position: nat)
    requires Progress(nB, nR, bi, ri, position)
    requires position % 10 == 0 && bi < nB
    ensures SourceOf(nB, nR, bi + ri) == FromBlog(bi)
    ensures Progress(nB, nR, bi + 1, ri, position + 1)
  {
  }

  /** A regular post placed by the loop is the one `SourceOf` names. */
  lemma RegularStep(nB: nat, nR: nat, bi: nat, ri: nat, position: nat)
    requires Progress(nB, nR, bi, ri, position)
    requires !(position % 10 == 0 && bi < nB) && ri < nR
    ensures SourceOf(nB, nR, bi + ri) == FromRegular(ri)
    ensures Progress(nB, nR, bi, ri + 1, position + 1)
  {
  }

  /** Once the regular posts are placed, a step that is not at a tenth place
      places nothing but moves `position` closer to the next one. */
  lemma IdleStep(nB: nat, nR: nat, bi: nat, ri: nat, position: nat)
    requires Progress(nB, nR, bi, ri, position)
    requires !(position % 10 == 0 && bi < nB) && ri == nR && bi < nB
    ensures Progress(nB, nR, bi, ri, position + 1)
    ensures Gap(position + 1) < Gap(position)
  {
    GapShrinks(position);
  }

  lemma GapShrinks(position: nat)
    requires position % 10 != 0
    ensures Gap(position + 1) < Gap(position)
  {
    var q, r := position / 10, position % 10;
    assert position + 1 == 10 * q + (r + 1);
    if r == 9 {
      assert (position + 1) % 10 == 0;
    } else {
      assert (position + 1) % 10 == r + 1;
    }
  }

  // ---------------------------------------------------------------------
  // Renaming

  function Names(files: seq<SnsFile>): (names: seq<string>)
    ensures |names| == |files| && forall i :: 0 <= i < |files| ==> names[i] == files[i].name
  {
    seq(|files|, i requires 0 <= i < |files| => files[i].name)
  }

  /** `rename_sns_files_with_mix_prefix`: the `i`-th post becomes
      `sns_mix_{i:03d}_<name>` by way of `sns_temp_{i:03d}_<name>`. */
  method RenameSnsFilesWithMixPrefix(folder: Folder, mixedOrder: seq<SnsFile>) returns (ok: bool)
    modifies folder
    ensures (ok, folder.entries) == StagedOutcome(old(folder.entries), folder.refused, Names(mixedOrder), "sns_temp_", "sns_mix_")
  {
    ok := StagedRename(folder, Names(mixedOrder), "sns_temp_", "sns_mix_");
  }

  /** Temporary and final names of this tool never coincide. */
  lemma SnsPrefixesDiverge()
    ensures Diverge("sns_temp_", "sns_mix_")
  {
    assert "sns_temp_"[4] != "sns_mix_"[4];
  }
}
