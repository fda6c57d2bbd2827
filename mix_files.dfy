/** The round-robin draft mixer: drafts are sorted by name into expert
    articles (`-sns.txt`), experience reports (`-04.txt`) and the rest,
    each category is shuffled, the three are interleaved one of each per
    round, and the files are renamed `mix_001_…`, `mix_002_…` in that order
    through temporary `temp_001_…` names. */
module MixFiles {
  import opened Strings
  import opened Sorting
  import opened Directory

  datatype Category = Expert | Experience | Other

  /** The category a draft goes to, by its name alone. */
  function CategoryOf(name: string): Category {
    if EndsWith(name, "-sns.txt") then Expert
    else if EndsWith(name, "-04.txt") then Experience
    else Other
  }

  /** The names `glob("*.txt")` finds in a folder listing. */
  function Drafts(listing: seq<string>): seq<string> {
    Filter(listing, (name: string) => EndsWith(name, ".txt"))
  }

  /** The names of category `c`, in listing order. */
  function InCategory(files: seq<string>, c: Category): seq<string> {
    Select(files, CategoryOf, c)
  }

  /** `categorize_files`: the drafts of each category, shuffled by the
      permutation `random.shuffle` happens to choose for it. */
  method CategorizeFiles(listing: seq<string>, pe: seq<nat>, px: seq<nat>, po: seq<nat>)
    returns (expert: seq<string>, experience: seq<string>, other: seq<string>)
    requires IsPermutation(pe, |InCategory(Drafts(listing), Expert)|)
    requires IsPermutation(px, |InCategory(Drafts(listing), Experience)|)
    requires IsPermutation(po, |InCategory(Drafts(listing), Other)|)
    ensures expert == Permute(InCategory(Drafts(listing), Expert), pe)
    ensures experience == Permute(InCategory(Drafts(listing), Experience), px)
    ensures other == Permute(InCategory(Drafts(listing), Other), po)
  {
    var files := Drafts(listing);
    expert, experience, other := [], [], [];
    for i := 0 to |files|
      invariant expert == InCategory(files[..i], Expert)
      invariant experience == InCategory(files[..i], Experience)
      invariant other == InCategory(files[..i], Other)
    {
      var name := files[i];
      assert files[..i + 1] == files[..i] + [name];
      SelectSnoc(files[..i], name, CategoryOf, Expert, expert);
      SelectSnoc(files[..i], name, CategoryOf, Experience, experience);
      SelectSnoc(files[..i], name, CategoryOf, Other, other);
      if EndsWith(name, "-sns.txt") {
        expert := expert + [name];
      } else if EndsWith(name, "-04.txt") {
        experience := experience + [name];
      } else {
        other := other + [name];
      }
    }
    assert files[..|files|] == files;
    expert := Permute(expert, pe);
    experience := Permute(experience, px);
    other := Permute(other, po);
  }

  /** Every draft lands in exactly one category, and nothing else does. */
  lemma CategoriesPartition(files: seq<string>)
    ensures multiset(InCategory(files, Expert)) + multiset(InCategory(files, Experience)) + multiset(InCategory(files, Other))
         == multiset(files)
  {
    var cs := [Expert, Experience, Other];
    SelectPartition(files, CategoryOf, cs);
    assert Gathered(files, CategoryOf, cs)
        == multiset(InCategory(files, Expert)) + (multiset(InCategory(files, Experience)) + (multiset(InCategory(files, Other)) + multiset{}))
    by {
      assert cs[1..] == [Experience, Other] && cs[1..][1..] == [Other] && cs[1..][1..][1..] == [];
    }
  }

  /** A name is in category `c` exactly when it is one of the files and
      `CategoryOf` puts it there. */
  lemma InCategoryMembers(files: seq<string>, c: Category)
    ensures forall x :: x in InCategory(files, c) <==> x in files && CategoryOf(x) == c
  {
    SelectMembers(files, CategoryOf, c);
  }

  /** The categorized, shuffled drafts hold every draft of the folder once. */
  lemma CategorizedDrafts(listing: seq<string>, pe: seq<nat>, px: seq<nat>, po: seq<nat>)
    requires IsPermutation(pe, |InCategory(Drafts(listing), Expert)|)
    requires IsPermutation(px, |InCategory(Drafts(listing), Experience)|)
    requires IsPermutation(po, |InCategory(Drafts(listing), Other)|)
    ensures var files := Drafts(listing);
      multiset(Permute(InCategory(files, Expert), pe)) + multiset(Permute(InCategory(files, Experience), px))
        + multiset(Permute(InCategory(files, Other), po))
      == multiset(files)
    ensures forall x :: x in Drafts(listing) <==> x in listing && EndsWith(x, ".txt")
  {
    var files := Drafts(listing);
    CategoriesPartition(files);
    PermutePreservesMultiset(InCategory(files, Expert), pe);
    PermutePreservesMultiset(InCategory(files, Experience), px);
    PermutePreservesMultiset(InCategory(files, Other), po);
    FilterMembers(listing, (name: string) => EndsWith(name, ".txt"));
  }

  // ---------------------------------------------------------------------
  // The round-robin mix

  function Max3(a: nat, b: nat, c: nat): nat {
    if a >= b && a >= c then a else if b >= c then b else c
  }

  /** The `i`-th draft of one category, if it has that many. */
  function Part(s: seq<string>, i: nat): seq<string> {
    if i < |s| then [s[i]] else []
  }

  /** Round `i` of the mix: the `i`-th expert article, experience report
      and other draft, those that exist, in that order. */
  function Round(e: seq<string>, x: seq<string>, o: seq<string>, i: nat): seq<string> {
    Part(e, i) + Part(x, i) + Part(o, i)
  }

  /** The first `n` rounds. */
  function Rounds(e: seq<string>, x: seq<string>, o: seq<string>, n: nat): seq<string> {
    if n == 0 then [] else Rounds(e, x, o, n - 1) + Round(e, x, o, n - 1)
  }

  /** The mix: as many rounds as the longest category has drafts. */
  function BalancedMix(e: seq<string>, x: seq<string>, o: seq<string>): seq<string> {
    Rounds(e, x, o, Max3(|e|, |x|, |o|))
  }

  /** `create_balanced_mix`. */
  method CreateBalancedMix(e: seq<string>, x: seq<string>, o: seq<string>) returns (mixed: seq<string>)
    ensures mixed == BalancedMix(e, x, o)
  {
    var maxLength := Max3(|e|, |x|, |o|);
    mixed := [];
    for i := 0 to maxLength
      invariant mixed == Rounds(e, x, o, i)
    {
      ghost var before := mixed;
      RoundsSnoc(e, x, o, i);
      if i < |e| {
        mixed := mixed + [e[i]];
      }
      assert mixed == before + Part(e, i);
      if i < |x| {
        mixed := mixed + [x[i]];
      }
      assert mixed == before + Part(e, i) + Part(x, i);
      if i < |o| {
        mixed := mixed + [o[i]];
      }
      assert mixed == before + Part(e, i) + Part(x, i) + Part(o, i);
    }
  }

  /** Where round `i` starts. */
  function Start(e: seq<string>, x: seq<string>, o: seq<string>, i: nat): nat {
    Min(i, |e|) + Min(i, |x|) + Min(i, |o|)
  }

  lemma PartStep(s: seq<string>, i: nat)
    ensures s[..Min(i + 1, |s|)] == s[..Min(i, |s|)] + Part(s, i)
    ensures multiset(s[..Min(i + 1, |s|)]) == multiset(s[..Min(i, |s|)]) + multiset(Part(s, i))
  {
    if i < |s| {
      assert s[..i + 1] == s[..i] + [s[i]];
    }
  }

  lemma RoundsSnoc(e: seq<string>, x: seq<string>, o: seq<string>, i: nat)
    ensures Rounds(e, x, o, i + 1) == Rounds(e, x, o, i) + Part(e, i) + Part(x, i) + Part(o, i)
  {
    var a, pe, px, po := Rounds(e, x, o, i), Part(e, i), Part(x, i), Part(o, i);
    assert a + (pe + px + po) == a + pe + px + po;
  }

  lemma RoundsStep(e: seq<string>, x: seq<string>, o: seq<string>, i: nat)
    ensures multiset(Rounds(e, x, o, i + 1)) == multiset(Rounds(e, x, o, i)) + multiset(Part(e, i)) + multiset(Part(x, i)) + multiset(Part(o, i))
  {
    RoundsSnoc(e, x, o, i);
  }

  lemma {:induction false} RoundsLength(e: seq<string>, x: seq<string>, o: seq<string>, n: nat)
    ensures |Rounds(e, x, o, n)| == Start(e, x, o, n)
    decreases n
  {
    if n > 0 {
      RoundsLength(e, x, o, n - 1);
    }
  }

  /** The first `n` rounds hold the first `n` drafts of each category. */
  lemma {:induction false} RoundsElements(e: seq<string>, x: seq<string>, o: seq<string>, n: nat)
    ensures multiset(Rounds(e, x, o, n)) == multiset(e[..Min(n, |e|)]) + multiset(x[..Min(n, |x|)]) + multiset(o[..Min(n, |o|)])
    decreases n
  {
    if n > 0 {
      var i := n - 1;
      RoundsElements(e, x, o, i);
      PartStep(e, i);
      PartStep(x, i);
      PartStep(o, i);
      RoundsStep(e, x, o, i);
    }
  }

  /** The mix is a permutation of the three categories together; so empty
      categories give an empty mix. */
  lemma BalancedMixElements(e: seq<string>, x: seq<string>, o: seq<string>)
    ensures |BalancedMix(e, x, o)| == |e| + |x| + |o|
    ensures multiset(BalancedMix(e, x, o)) == multiset(e) + multiset(x) + multiset(o)
  {
    var n := Max3(|e|, |x|, |o|);
    RoundsLength(e, x, o, n);
    RoundsElements(e, x, o, n);
    AllRounds(e, x, o);
  }

  /** After the last round every category is used up. */
  lemma AllRounds(e: seq<string>, x: seq<string>, o: seq<string>)
    ensures var n := Max3(|e|, |x|, |o|);
      && e[..Min(n, |e|)] == e && x[..Min(n, |x|)] == x && o[..Min(n, |o|)] == o
      && Start(e, x, o, n) == |e| + |x| + |o|
  {
    var n := Max3(|e|, |x|, |o|);
    assert Min(n, |e|) == |e| && Min(n, |x|) == |x| && Min(n, |o|) == |o|;
  }

  /** Earlier rounds are a prefix of later ones. */
  lemma {:induction false} RoundsPrefix(e: seq<string>, x: seq<string>, o: seq<string>, n: nat, k: nat)
    requires n <= k
    ensures |Rounds(e, x, o, n)| <= |Rounds(e, x, o, k)|
    ensures Rounds(e, x, o, n) == Rounds(e, x, o, k)[..|Rounds(e, x, o, n)|]
    decreases k - n
  {
    if n < k {
      RoundsPrefix(e, x, o, n, k - 1);
      var a := Rounds(e, x, o, k - 1);
      assert Rounds(e, x, o, k)[..|a|] == a;
    }
  }

  /** Round `i` occupies positions `Start(i)` up to `Start(i + 1)` of the
      mix: every item of a round comes before every item of a later one. */
  lemma BalancedMixRound(e: seq<string>, x: seq<string>, o: seq<string>, i: nat)
    requires i < Max3(|e|, |x|, |o|)
    ensures Start(e, x, o, i) <= Start(e, x, o, i + 1) <= |BalancedMix(e, x, o)|
    ensures BalancedMix(e, x, o)[Start(e, x, o, i)..Start(e, x, o, i + 1)] == Round(e, x, o, i)
  {
    var n := Max3(|e|, |x|, |o|);
    RoundsPrefix(e, x, o, i + 1, n);
    RoundsLength(e, x, o, i);
    RoundsLength(e, x, o, i + 1);
    RoundsLength(e, x, o, n);
    var a := Rounds(e, x, o, i);
    var b := Rounds(e, x, o, i + 1);
    assert b == a + Round(e, x, o, i);
    assert b[|a|..] == Round(e, x, o, i);
  }

  /** While every category still has drafts, the mix runs expert,
      experience, other. */
  lemma FullRound(e: seq<string>, x: seq<string>, o: seq<string>, i: nat)
    requires i < |e| && i < |x| && i < |o|
    ensures 3 * i + 2 < |BalancedMix(e, x, o)|
    ensures BalancedMix(e, x, o)[3 * i] == e[i]
    ensures BalancedMix(e, x, o)[3 * i + 1] == x[i]
    ensures BalancedMix(e, x, o)[3 * i + 2] == o[i]
  {
    BalancedMixRound(e, x, o, i);
    var s := Start(e, x, o, i);
    assert s == 3 * i;
    var r := BalancedMix(e, x, o)[s..Start(e, x, o, i + 1)];
    assert r == [e[i], x[i], o[i]];
  }

  /** Within a round the categories differ from one item to the next. */
  lemma RoundAlternates(e: seq<string>, x: seq<string>, o: seq<string>, i: nat, cat: string -> Category)
    requires forall k :: 0 <= k < |e| ==> cat(e[k]) == Expert
    requires forall k :: 0 <= k < |x| ==> cat(x[k]) == Experience
    requires forall k :: 0 <= k < |o| ==> cat(o[k]) == Other
    ensures forall a :: 0 <= a < |Round(e, x, o, i)| - 1 ==> cat(Round(e, x, o, i)[a]) != cat(Round(e, x, o, i)[a + 1])
  {
  }

  /** Where the last item of round `i` and the first of round `i + 1` share
      a category, only that category has drafts left in round `i + 1`. */
  lemma RoundSeam(e: seq<string>, x: seq<string>, o: seq<string>, i: nat, cat: string -> Category)
    requires forall k :: 0 <= k < |e| ==> cat(e[k]) == Expert
    requires forall k :: 0 <= k < |x| ==> cat(x[k]) == Experience
    requires forall k :: 0 <= k < |o| ==> cat(o[k]) == Other
    requires i + 1 < Max3(|e|, |x|, |o|)
    ensures Round(e, x, o, i) != [] && Round(e, x, o, i + 1) != []
    ensures var r, t := Round(e, x, o, i), Round(e, x, o, i + 1);
      cat(r[|r| - 1]) == cat(t[0]) ==> t == [t[0]]
  {
  }

  /** The round that holds position `q` of the mix, searching from round `r`. */
  function RoundOf(e: seq<string>, x: seq<string>, o: seq<string>, q: nat, r: nat): (k: nat)
    requires r < Max3(|e|, |x|, |o|) && Start(e, x, o, r) <= q < |e| + |x| + |o|
    ensures r <= k < Max3(|e|, |x|, |o|)
    ensures Start(e, x, o, k) <= q < Start(e, x, o, k + 1)
    decreases Max3(|e|, |x|, |o|) - r
  {
    if q < Start(e, x, o, r + 1) then r else RoundOf(e, x, o, q, r + 1)
  }

  /** Two neighbours in the mix share a category only where the second one
      opens a round that holds nothing else: a round in which just that
      category still has drafts. Stated for any classifier `cat` under which
      the three lists are what `CategorizeFiles` makes of them under
      `CategoryOf`. */
  lemma AdjacentSameCategory(e: seq<string>, x: seq<string>, o: seq<string>, p: nat, cat: string -> Category) returns (k: nat)
    requires forall k :: 0 <= k < |e| ==> cat(e[k]) == Expert
    requires forall k :: 0 <= k < |x| ==> cat(x[k]) == Experience
    requires forall k :: 0 <= k < |o| ==> cat(o[k]) == Other
    requires p + 1 < |BalancedMix(e, x, o)|
    requires cat(BalancedMix(e, x, o)[p]) == cat(BalancedMix(e, x, o)[p + 1])
    ensures k < Max3(|e|, |x|, |o|) && Start(e, x, o, k) == p + 1
    ensures Round(e, x, o, k) == [BalancedMix(e, x, o)[p + 1]]
  {
    var i := SeamAt(e, x, o, p, cat);
    k := i + 1;
    var mix, r, t := BalancedMix(e, x, o), Round(e, x, o, i), Round(e, x, o, k);
    assert r != [] && mix[p] == r[|r| - 1] by { LastOfRound(e, x, o, i); }
    assert t != [] && mix[p + 1] == t[0] by { FirstOfRound(e, x, o, k); }
    assert cat(r[|r| - 1]) == cat(t[0]) ==> t == [t[0]] by { RoundSeam(e, x, o, i, cat); }
    LoneOpener(mix[p], mix[p + 1], r, t, cat);
  }

  /** The item after a seam is alone in its round when it shares its
      category with the item before the seam. */
  lemma LoneOpener(a: string, b: string, r: seq<string>, t: seq<string>, cat: string -> Category)
    requires r != [] && t != [] && a == r[|r| - 1] && b == t[0]
    requires cat(r[|r| - 1]) == cat(t[0]) ==> t == [t[0]]
    requires cat(a) == cat(b)
    ensures t == [b]
  {
  }

  /** Neighbours of the same category sit on either side of a round boundary. */
  lemma SeamAt(e: seq<string>, x: seq<string>, o: seq<string>, p: nat, cat: string -> Category) returns (i: nat)
    requires forall k :: 0 <= k < |e| ==> cat(e[k]) == Expert
    requires forall k :: 0 <= k < |x| ==> cat(x[k]) == Experience
    requires forall k :: 0 <= k < |o| ==> cat(o[k]) == Other
    requires p + 1 < |BalancedMix(e, x, o)|
    requires cat(BalancedMix(e, x, o)[p]) == cat(BalancedMix(e, x, o)[p + 1])
    ensures i + 1 < Max3(|e|, |x|, |o|) && Start(e, x, o, i + 1) == p + 1
  {
    var mix := BalancedMix(e, x, o);
    BalancedMixElements(e, x, o);
    i := RoundOf(e, x, o, p, 0);
    BalancedMixRound(e, x, o, i);
    RoundAlternates(e, x, o, i, cat);
    SeamCore(mix, Round(e, x, o, i), Start(e, x, o, i), Start(e, x, o, i + 1), p, cat);
    StartBelowEnd(e, x, o, i + 1);
  }

  /** In a stretch `r` of `mix` whose neighbours always differ in category,
      two neighbours of the same category can meet only at its end. */
  lemma SeamCore(mix: seq<string>, r: seq<string>, s: nat, s': nat, p: nat, cat: string -> Category)
    requires s <= p < s' <= |mix| && mix[s..s'] == r && p + 1 < |mix|
    requires forall a :: 0 <= a < |r| - 1 ==> cat(r[a]) != cat(r[a + 1])
    requires cat(mix[p]) == cat(mix[p + 1])
    ensures p + 1 == s'
  {
    SliceAt(mix, s, s', r, p);
    if p + 1 < s' {
      SliceAt(mix, s, s', r, p + 1);
      assert false;
    }
  }

  /** A round that starts inside the mix is one of its rounds. */
  lemma StartBelowEnd(e: seq<string>, x: seq<string>, o: seq<string>, k: nat)
    ensures Start(e, x, o, k) < |e| + |x| + |o| ==> k < Max3(|e|, |x|, |o|)
  {
  }

  lemma FirstOfRound(e: seq<string>, x: seq<string>, o: seq<string>, k: nat)
    requires k < Max3(|e|, |x|, |o|)
    ensures Round(e, x, o, k) != [] && Start(e, x, o, k) < |BalancedMix(e, x, o)|
    ensures BalancedMix(e, x, o)[Start(e, x, o, k)] == Round(e, x, o, k)[0]
  {
    BalancedMixRound(e, x, o, k);
    SliceAt(BalancedMix(e, x, o), Start(e, x, o, k), Start(e, x, o, k + 1), Round(e, x, o, k), Start(e, x, o, k));
  }

  lemma LastOfRound(e: seq<string>, x: seq<string>, o: seq<string>, i: nat)
    requires i < Max3(|e|, |x|, |o|)
    ensures Round(e, x, o, i) != [] && 0 < Start(e, x, o, i + 1) <= |BalancedMix(e, x, o)|
    ensures var r := Round(e, x, o, i);
      BalancedMix(e, x, o)[Start(e, x, o, i + 1) - 1] == r[|r| - 1]
  {
    BalancedMixRound(e, x, o, i);
    SliceAt(BalancedMix(e, x, o), Start(e, x, o, i), Start(e, x, o, i + 1), Round(e, x, o, i), Start(e, x, o, i + 1) - 1);
  }

  /** Past the last round every category is used up. */
  lemma StartAtEnd(e: seq<string>, x: seq<string>, o: seq<string>, k: nat)
    requires k >= Max3(|e|, |x|, |o|)
    ensures Start(e, x, o, k) == |e| + |x| + |o|
  {
  }

  lemma SliceAt(m: seq<string>, a: nat, b: nat, r: seq<string>, q: nat)
    requires a <= b <= |m| && m[a..b] == r && a <= q < b
    ensures |r| == b - a && m[q] == r[q - a]
  {
  }

  /** The drafts of category `c` in one round. */
  lemma SelectPart(s: seq<string>, i: nat, cat: string -> Category, c: Category)
    ensures Select(Part(s, i), cat, c) == if i < |s| && cat(s[i]) == c then [s[i]] else []
  {
    if i < |s| {
      SelectSingle(s[i], cat, c);
    }
  }

  /** A round, sorted back into categories, gives each category's draft. */
  lemma RoundByCategory(e: seq<string>, x: seq<string>, o: seq<string>, i: nat, cat: string -> Category, c: Category)
    requires forall k :: 0 <= k < |e| ==> cat(e[k]) == Expert
    requires forall k :: 0 <= k < |x| ==> cat(x[k]) == Experience
    requires forall k :: 0 <= k < |o| ==> cat(o[k]) == Other
    ensures Select(Round(e, x, o, i), cat, c) == match c
      case Expert => Part(e, i)
      case Experience => Part(x, i)
      case Other => Part(o, i)
  {
    SelectConcat(Part(e, i) + Part(x, i), Part(o, i), cat, c);
    SelectConcat(Part(e, i), Part(x, i), cat, c);
    SelectPart(e, i, cat, c);
    SelectPart(x, i, cat, c);
    SelectPart(o, i, cat, c);
  }

  /** Picking one category out of the first `n` rounds gives back the first
      `n` drafts of that category. */
  lemma {:induction false} RoundsByCategory(e: seq<string>, x: seq<string>, o: seq<string>, n: nat, cat: string -> Category, c: Category)
    requires forall k :: 0 <= k < |e| ==> cat(e[k]) == Expert
    requires forall k :: 0 <= k < |x| ==> cat(x[k]) == Experience
    requires forall k :: 0 <= k < |o| ==> cat(o[k]) == Other
    ensures Select(Rounds(e, x, o, n), cat, c) == match c
      case Expert => e[..Min(n, |e|)]
      case Experience => x[..Min(n, |x|)]
      case Other => o[..Min(n, |o|)]
    decreases n
  {
    if n > 0 {
      var i := n - 1;
      RoundsByCategory(e, x, o, i, cat, c);
      SelectConcat(Rounds(e, x, o, i), Round(e, x, o, i), cat, c);
      RoundByCategory(e, x, o, i, cat, c);
      match c
      case Expert => PartStep(e, i);
      case Experience => PartStep(x, i);
      case Other => PartStep(o, i);
    }
  }

  /** Each category keeps its order in the mix: picking one category out of
      the mix gives back that category's drafts. */
  lemma BalancedMixByCategory(e: seq<string>, x: seq<string>, o: seq<string>)
    requires forall k :: 0 <= k < |e| ==> CategoryOf(e[k]) == Expert
    requires forall k :: 0 <= k < |x| ==> CategoryOf(x[k]) == Experience
    requires forall k :: 0 <= k < |o| ==> CategoryOf(o[k]) == Other
    ensures InCategory(BalancedMix(e, x, o), Expert) == e
    ensures InCategory(BalancedMix(e, x, o), Experience) == x
    ensures InCategory(BalancedMix(e, x, o), Other) == o
  {
    var n := Max3(|e|, |x|, |o|);
    RoundsByCategory(e, x, o, n, CategoryOf, Expert);
    RoundsByCategory(e, x, o, n, CategoryOf, Experience);
    RoundsByCategory(e, x, o, n, CategoryOf, Other);
    AllRounds(e, x, o);
  }

  // ---------------------------------------------------------------------
  // Renaming

  /** `rename_files_with_mix_prefix`: the `i`-th file of the mix becomes
      `mix_{i:03d}_<name>` by way of `temp_{i:03d}_<name>`. */
  method RenameFilesWithMixPrefix(folder: Folder, mixedOrder: seq<string>) returns (ok: bool)
    modifies folder
    ensures (ok, folder.entries) == StagedOutcome(old(folder.entries), folder.refused, mixedOrder, "temp_", "mix_")
  {
    ok := StagedRename(folder, mixedOrder, "temp_", "mix_");
  }

  /** Temporary and final names of this tool never coincide. */
  lemma MixPrefixesDiverge()
    ensures Diverge("temp_", "mix_")
  {
    assert "temp_"[0] != "mix_"[0];
  }
}
