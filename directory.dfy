/** One folder of draft files, and the two-phase renaming that the mix
    tools run over it: every file of a batch is first moved to a numbered
    temporary name, then to its numbered final name; if a move raises,
    the files still at temporary names are moved back. */
module Directory {
  import opened Strings
  import opened Sorting

  /** The identity of a file's contents; renaming keeps it. */
  type FileId = nat

  /** What a folder holds: each file name with the file behind it. */
  type Entries = map<string, FileId>

  /** `shutil.move(src, dst)` inside one folder on POSIX: the file at `src`
      takes the name `dst`, replacing a file already called `dst`. */
  function MoveEntry(m: Entries, src: string, dst: string): Entries
    requires src in m
  {
    (m - {src})[dst := m[src]]
  }

  class Folder {
    var entries: Entries
    /** The moves the environment refuses (permissions, a locked file, a
        full disk): `shutil.move` raises for them. */
    const refused: set<(string, string)>

    constructor (entries0: Entries, refused0: set<(string, string)>)
      ensures entries == entries0 && refused == refused0
    {
      entries := entries0;
      refused := refused0;
    }

    /** `shutil.move` on two names of this folder; `ok` is false where it
        raises, which it does when the source is missing or the move is
        refused, and then nothing changes. */
    method Move(src: string, dst: string) returns (ok: bool)
      modifies this
      ensures ok <==> src in old(entries) && (src, dst) !in refused
      ensures ok ==> entries == MoveEntry(old(entries), src, dst)
      ensures !ok ==> entries == old(entries)
    {
      ok := src in entries && (src, dst) !in refused;
      if ok {
        entries := MoveEntry(entries, src, dst);
      }
    }
  }

  predicate Succeeds(m: Entries, refused: set<(string, string)>, src: string, dst: string) {
    src in m && (src, dst) !in refused
  }

  // ---------------------------------------------------------------------
  // Sequences of moves

  /** Moves `srcs[k]` to `dsts[k]` in order until a move raises: the folder
      afterwards and the number of moves done. */
  function MoveAll(m: Entries, refused: set<(string, string)>, srcs: seq<string>, dsts: seq<string>): (r: (Entries, nat))
    requires |srcs| == |dsts|
    ensures r.1 <= |srcs|
    decreases |srcs|
  {
    if srcs == [] then (m, 0)
    else if Succeeds(m, refused, srcs[0], dsts[0]) then
      var t := MoveAll(MoveEntry(m, srcs[0], dsts[0]), refused, srcs[1..], dsts[1..]);
      (t.0, t.1 + 1)
    else (m, 0)
  }

  /** Moves `srcs[k]` to `dsts[k]` in order wherever the source still
      exists, ignoring the moves that raise. */
  function RestoreAll(m: Entries, refused: set<(string, string)>, srcs: seq<string>, dsts: seq<string>): Entries
    requires |srcs| == |dsts|
    decreases |srcs|
  {
    if srcs == [] then m
    else
      var m' := if Succeeds(m, refused, srcs[0], dsts[0]) then MoveEntry(m, srcs[0], dsts[0]) else m;
      RestoreAll(m', refused, srcs[1..], dsts[1..])
  }

  predicate NoneRefused(refused: set<(string, string)>, srcs: seq<string>, dsts: seq<string>)
    requires |srcs| == |dsts|
  {
    forall k :: 0 <= k < |srcs| ==> (srcs[k], dsts[k]) !in refused
  }

  /** The index of the first refused move, or the number of moves. */
  function FirstRefused(refused: set<(string, string)>, srcs: seq<string>, dsts: seq<string>): (c: nat)
    requires |srcs| == |dsts|
    ensures c <= |srcs|
    ensures forall k :: 0 <= k < c ==> (srcs[k], dsts[k]) !in refused
    ensures c < |srcs| ==> (srcs[c], dsts[c]) in refused
    decreases |srcs|
  {
    if srcs == [] then 0
    else if (srcs[0], dsts[0]) in refused then 0
    else FirstRefused(refused, srcs[1..], dsts[1..]) + 1
  }

  function Elems(s: seq<string>): set<string> {
    set x | x in s
  }

  /** Where `x` occurs in `s`. */
  function IndexOf(s: seq<string>, x: string): (k: nat)
    requires x in s
    ensures k < |s| && s[k] == x
    decreases |s|
  {
    if s[0] == x then 0 else IndexOf(s[1..], x) + 1
  }

  /** The folder after each `srcs[k]` has been renamed `dsts[k]` as if all
      at once; a file already at a destination name is replaced. */
  function Relocated(m: Entries, srcs: seq<string>, dsts: seq<string>): Entries
    requires |srcs| == |dsts|
    requires forall k :: 0 <= k < |srcs| ==> srcs[k] in m
  {
    map x | x in (m.Keys - Elems(srcs)) + Elems(dsts) ::
      if x in dsts then m[srcs[IndexOf(dsts, x)]] else m[x]
  }

  /** The conditions under which a sequence of moves cannot interfere with
      itself: distinct sources, all present, distinct destinations, and no
      destination is the source of a later move. */
  predicate Independent(m: Entries, srcs: seq<string>, dsts: seq<string>) {
    && |srcs| == |dsts|
    && Distinct(srcs) && Distinct(dsts)
    && (forall k :: 0 <= k < |srcs| ==> srcs[k] in m)
    && (forall k, j :: 0 <= k < j < |srcs| ==> dsts[k] != srcs[j])
  }

  lemma EntriesEqual(a: Entries, b: Entries)
    requires forall x :: (x in a <==> x in b) && (x in a ==> a[x] == b[x])
    ensures a == b
  {
  }

  lemma RelocatedNone(m: Entries)
    ensures Relocated(m, [], []) == m
  {
  }

  /** What relocating does, name by name. */
  lemma RelocatedAt(m: Entries, srcs: seq<string>, dsts: seq<string>)
    requires Independent(m, srcs, dsts)
    ensures forall k :: 0 <= k < |dsts| ==> dsts[k] in Relocated(m, srcs, dsts) && Relocated(m, srcs, dsts)[dsts[k]] == m[srcs[k]]
    ensures forall x :: x in Relocated(m, srcs, dsts) <==> (x in m && x !in srcs) || x in dsts
    ensures forall x :: x in m && x !in srcs && x !in dsts ==> Relocated(m, srcs, dsts)[x] == m[x]
  {
  }

  lemma IndependentTail(m: Entries, srcs: seq<string>, dsts: seq<string>)
    requires srcs != [] && Independent(m, srcs, dsts)
    ensures Independent(MoveEntry(m, srcs[0], dsts[0]), srcs[1..], dsts[1..])
  {
    var m' := MoveEntry(m, srcs[0], dsts[0]);
    forall j | 0 <= j < |srcs| - 1 ensures srcs[1..][j] in m' {
      assert srcs[1..][j] == srcs[j + 1] && srcs[j + 1] != srcs[0];
    }
  }

  lemma IndependentPrefix(m: Entries, srcs: seq<string>, dsts: seq<string>, c: nat)
    requires Independent(m, srcs, dsts) && c <= |srcs|
    ensures Independent(m, srcs[..c], dsts[..c])
  {
  }

  /** What relocating does to one name. */
  lemma RelocatedPoint(m: Entries, srcs: seq<string>, dsts: seq<string>, x: string)
    requires Independent(m, srcs, dsts)
    ensures x in Relocated(m, srcs, dsts) <==> (x in m && x !in srcs) || x in dsts
    ensures x in dsts ==> Relocated(m, srcs, dsts)[x] == m[srcs[IndexOf(dsts, x)]]
    ensures x !in dsts && x in m && x !in srcs ==> Relocated(m, srcs, dsts)[x] == m[x]
  {
  }

  /** Doing the first move and then the others is relocating all. */
  lemma RelocatedCons(m: Entries, srcs: seq<string>, dsts: seq<string>)
    requires srcs != [] && Independent(m, srcs, dsts)
    ensures Independent(MoveEntry(m, srcs[0], dsts[0]), srcs[1..], dsts[1..])
    ensures Relocated(MoveEntry(m, srcs[0], dsts[0]), srcs[1..], dsts[1..]) == Relocated(m, srcs, dsts)
  {
    var m' := MoveEntry(m, srcs[0], dsts[0]);
    var a, b := srcs[1..], dsts[1..];
    IndependentTail(m, srcs, dsts);
    assert srcs == [srcs[0]] + a && dsts == [dsts[0]] + b;
    var l := Relocated(m', a, b);
    var r := Relocated(m, srcs, dsts);
    forall x ensures (x in l <==> x in r) && (x in l ==> l[x] == r[x]) {
      RelocatedPoint(m', a, b, x);
      RelocatedPoint(m, srcs, dsts, x);
      if x in b {
        var i := IndexOf(b, x);
        assert dsts[i + 1] == x;
        assert IndexOf(dsts, x) == i + 1;
        assert a[i] == srcs[i + 1] && srcs[i + 1] != srcs[0];
      } else if x == dsts[0] {
        assert IndexOf(dsts, x) == 0;
      }
    }
    assert l == r;
  }

  /** Independent moves, none refused, relocate the files. */
  lemma {:induction false} MoveAllRelocates(m: Entries, refused: set<(string, string)>, srcs: seq<string>, dsts: seq<string>)
    requires Independent(m, srcs, dsts) && NoneRefused(refused, srcs, dsts)
    ensures MoveAll(m, refused, srcs, dsts) == (Relocated(m, srcs, dsts), |srcs|)
    decreases |srcs|
  {
    if srcs == [] {
      RelocatedNone(m);
    } else {
      RelocatedCons(m, srcs, dsts);
      MoveAllRelocates(MoveEntry(m, srcs[0], dsts[0]), refused, srcs[1..], dsts[1..]);
    }
  }

  /** The first refused move stops the sequence; the moves before it are
      all done. */
  lemma {:induction false} MoveAllStops(m: Entries, refused: set<(string, string)>, srcs: seq<string>, dsts: seq<string>, c: nat)
    requires Independent(m, srcs, dsts) && c <= |srcs|
    requires forall k :: 0 <= k < c ==> (srcs[k], dsts[k]) !in refused
    requires c < |srcs| ==> (srcs[c], dsts[c]) in refused
    ensures MoveAll(m, refused, srcs, dsts) == (MoveAll(m, refused, srcs[..c], dsts[..c]).0, c)
    decreases c
  {
    if c == 0 {
      assert srcs[..0] == [] && dsts[..0] == [];
    } else {
      IndependentTail(m, srcs, dsts);
      MoveAllStops(MoveEntry(m, srcs[0], dsts[0]), refused, srcs[1..], dsts[1..], c - 1);
      assert srcs[1..][..c - 1] == srcs[..c][1..];
      assert dsts[1..][..c - 1] == dsts[..c][1..];
    }
  }

  lemma MoveAllUpTo(m: Entries, refused: set<(string, string)>, srcs: seq<string>, dsts: seq<string>, c: nat)
    requires Independent(m, srcs, dsts) && c <= |srcs|
    requires forall k :: 0 <= k < c ==> (srcs[k], dsts[k]) !in refused
    requires c < |srcs| ==> (srcs[c], dsts[c]) in refused
    ensures Independent(m, srcs[..c], dsts[..c])
    ensures MoveAll(m, refused, srcs, dsts) == (Relocated(m, srcs[..c], dsts[..c]), c)
  {
    MoveAllStops(m, refused, srcs, dsts, c);
    IndependentPrefix(m, srcs, dsts, c);
    MoveAllRelocates(m, refused, srcs[..c], dsts[..c]);
  }

  /** Independent restoring moves, none refused, relocate the files. */
  lemma {:induction false} RestoreAllRelocates(m: Entries, refused: set<(string, string)>, srcs: seq<string>, dsts: seq<string>)
    requires Independent(m, srcs, dsts) && NoneRefused(refused, srcs, dsts)
    ensures RestoreAll(m, refused, srcs, dsts) == Relocated(m, srcs, dsts)
    decreases |srcs|
  {
    if srcs == [] {
      RelocatedNone(m);
    } else {
      RelocatedCons(m, srcs, dsts);
      RestoreAllRelocates(MoveEntry(m, srcs[0], dsts[0]), refused, srcs[1..], dsts[1..]);
    }
  }

  /** `MoveAll` from position `i` on, counting positions rather than moves:
      the shape of the loops that carry the moves out. */
  function MoveFrom(m: Entries, refused: set<(string, string)>, srcs: seq<string>, dsts: seq<string>, i: nat): (Entries, nat)
    requires |srcs| == |dsts| && i <= |srcs|
    decreases |srcs| - i
  {
    if i == |srcs| then (m, i)
    else if Succeeds(m, refused, srcs[i], dsts[i]) then MoveFrom(MoveEntry(m, srcs[i], dsts[i]), refused, srcs, dsts, i + 1)
    else (m, i)
  }

  lemma {:induction false} MoveFromAll(m: Entries, refused: set<(string, string)>, srcs: seq<string>, dsts: seq<string>, i: nat)
    requires |srcs| == |dsts| && i <= |srcs|
    ensures var t := MoveAll(m, refused, srcs[i..], dsts[i..]);
      MoveFrom(m, refused, srcs, dsts, i) == (t.0, t.1 + i)
    decreases |srcs| - i
  {
    if i < |srcs| {
      MoveAllStep(m, refused, srcs, dsts, i);
      if Succeeds(m, refused, srcs[i], dsts[i]) {
        MoveFromAll(MoveEntry(m, srcs[i], dsts[i]), refused, srcs, dsts, i + 1);
      }
    }
  }

  /** One step of a sequence of moves, from position `i` on. */
  lemma MoveAllStep(m: Entries, refused: set<(string, string)>, srcs: seq<string>, dsts: seq<string>, i: nat)
    requires |srcs| == |dsts| && i < |srcs|
    ensures MoveAll(m, refused, srcs[i..], dsts[i..])
         == if Succeeds(m, refused, srcs[i], dsts[i]) then
              var t := MoveAll(MoveEntry(m, srcs[i], dsts[i]), refused, srcs[i + 1..], dsts[i + 1..]);
              (t.0, t.1 + 1)
            else (m, 0)
  {
    assert srcs[i..][0] == srcs[i] && dsts[i..][0] == dsts[i];
    assert srcs[i..][1..] == srcs[i + 1..] && dsts[i..][1..] == dsts[i + 1..];
  }

  /** Restoring whose sources are all gone changes nothing. */
  lemma {:induction false} RestoreAllAbsent(m: Entries, refused: set<(string, string)>, srcs: seq<string>, dsts: seq<string>)
    requires |srcs| == |dsts| && forall k :: 0 <= k < |srcs| ==> srcs[k] !in m
    ensures RestoreAll(m, refused, srcs, dsts) == m
    decreases |srcs|
  {
    if srcs != [] {
      RestoreAllAbsent(m, refused, srcs[1..], dsts[1..]);
    }
  }

  lemma {:induction false} RestoreAllSplit(m: Entries, refused: set<(string, string)>, srcs: seq<string>, dsts: seq<string>, j: nat)
    requires |srcs| == |dsts| && j <= |srcs|
    ensures RestoreAll(m, refused, srcs, dsts)
         == RestoreAll(RestoreAll(m, refused, srcs[..j], dsts[..j]), refused, srcs[j..], dsts[j..])
    decreases j
  {
    if j == 0 {
      assert srcs[..0] == [] && dsts[..0] == [];
      assert srcs[0..] == srcs && dsts[0..] == dsts;
    } else {
      var m' := if Succeeds(m, refused, srcs[0], dsts[0]) then MoveEntry(m, srcs[0], dsts[0]) else m;
      RestoreAllSplit(m', refused, srcs[1..], dsts[1..], j - 1);
      assert srcs[1..][..j - 1] == srcs[..j][1..] && dsts[1..][..j - 1] == dsts[..j][1..];
      assert srcs[1..][j - 1..] == srcs[j..] && dsts[1..][j - 1..] == dsts[j..];
    }
  }

  /** Relocating files and then relocating them back leaves the folder as
      it was, when no destination name was taken to begin with. */
  lemma RelocatedBack(m: Entries, srcs: seq<string>, dsts: seq<string>)
    requires Independent(m, srcs, dsts)
    requires forall k :: 0 <= k < |dsts| ==> dsts[k] !in m
    ensures Independent(Relocated(m, srcs, dsts), dsts, srcs)
    ensures Relocated(Relocated(m, srcs, dsts), dsts, srcs) == m
  {
    var r := Relocated(m, srcs, dsts);
    RelocatedAt(m, srcs, dsts);
    assert Independent(r, dsts, srcs);
    var b := Relocated(r, dsts, srcs);
    RelocatedAt(r, dsts, srcs);
    forall x | x in srcs ensures x in b && b[x] == m[x] {
      var k := IndexOf(srcs, x);
      assert b[x] == r[dsts[k]];
    }
    forall x | x !in srcs ensures x in b <==> x in m {
      if x in dsts {
        var k := IndexOf(dsts, x);
        assert x !in m;
      }
    }
    forall x | x !in srcs && x in m ensures b[x] == m[x] {
      assert x !in dsts;
    }
    assert b == m;
  }

  // ---------------------------------------------------------------------
  // The numbered names

  /** `f"{prefix}{i:03d}_{name}"`. */
  function StagedName(prefix: string, i: nat, name: string): string {
    prefix + Pad3(i) + "_" + name
  }

  /** The numbered names for a batch, numbered from 1 as `enumerate(…, 1)`
      does. */
  function Staged(prefix: string, names: seq<string>): (r: seq<string>)
    ensures |r| == |names|
  {
    seq(|names|, k requires 0 <= k < |names| => StagedName(prefix, k + 1, names[k]))
  }

  /** The name a file at temporary name `temps[k]` is moved back to:
      `temps[k].replace(f"{prefix}{k+1:03d}_", "")`. */
  function Restored(prefix: string, temps: seq<string>): (r: seq<string>)
    ensures |r| == |temps|
  {
    seq(|temps|, k requires 0 <= k < |temps| => ReplaceAll(temps[k], prefix + Pad3(k + 1) + "_", ""))
  }

  lemma SnocSlice(s: seq<string>, i: nat)
    requires i < |s|
    ensures s[..i + 1] == s[..i] + [s[i]]
  {
  }

  /** Why the restoring lemmas exclude names that contain their own
      temporary prefix: a file left as `temp_001_b` by an earlier run,
      staged first and then restored, comes back as `b`. */
  lemma RestoreRemovesEveryOccurrence(prefix: string, b: string)
    requires !Contains(b, prefix + Pad3(1) + "_")
    ensures var name := prefix + Pad3(1) + "_" + b;
      Restored(prefix, Staged(prefix, [name])) == [b]
  {
    var pat := prefix + Pad3(1) + "_";
    var name := pat + b;
    assert Staged(prefix, [name])[0] == pat + name;
    ReplaceAllLeading(pat, name, "");
    ReplaceAllLeading(pat, b, "");
    ReplaceAllAbsent(b, pat, "");
    var r := Restored(prefix, Staged(prefix, [name]));
    assert r[0] == ReplaceAll(pat + name, pat, "") == ReplaceAll(name, pat, "") == b;
    assert r == [b];
  }

  /** Two prefixes that differ at some position. */
  predicate Diverge(a: string, b: string) {
    exists i :: 0 <= i < |a| && i < |b| && a[i] != b[i]
  }

  lemma DigitRunBeforeSeparator(d: string, x: string)
    requires AllDigits(d)
    ensures DigitRun(d + "_" + x) == |d|
  {
    assert d + "_" + x == d + ['_'] + x;
    DigitRunStops(d, '_', x);
  }

  lemma {:induction false} StagedNameInjective(p: string, i: nat, a: string, j: nat, b: string)
    requires StagedName(p, i, a) == StagedName(p, j, b)
    ensures i == j && a == b
  {
    var d, e := Pad3(i), Pad3(j);
    Pad3Value(i);
    Pad3Value(j);
    var t := StagedName(p, i, a)[|p|..];
    assert t == d + "_" + a;
    assert t == StagedName(p, j, b)[|p|..] == e + "_" + b;
    DigitRunBeforeSeparator(d, a);
    DigitRunBeforeSeparator(e, b);
    assert d == t[..|d|] == e;
    assert a == t[|d| + 1..] == b;
  }

  lemma StagedNamesDiverge(p: string, q: string, i: nat, a: string, j: nat, b: string)
    requires Diverge(p, q)
    ensures StagedName(p, i, a) != StagedName(q, j, b)
  {
    var k :| 0 <= k < |p| && k < |q| && p[k] != q[k];
    assert StagedName(p, i, a)[k] == p[k];
    assert StagedName(q, j, b)[k] == q[k];
  }

  lemma StagedDistinct(p: string, names: seq<string>)
    ensures Distinct(Staged(p, names))
  {
    var s := Staged(p, names);
    forall i, j | 0 <= i < j < |s| ensures s[i] != s[j] {
      if s[i] == s[j] {
        StagedNameInjective(p, i + 1, names[i], j + 1, names[j]);
      }
    }
  }

  /** A name that does not contain its own temporary prefix is restored to
      itself. */
  lemma RestoredNames(prefix: string, names: seq<string>, lo: nat, hi: nat)
    requires lo <= hi <= |names|
    requires forall k :: lo <= k < hi ==> !Contains(names[k], prefix + Pad3(k + 1) + "_")
    ensures Restored(prefix, Staged(prefix, names))[lo..hi] == names[lo..hi]
    ensures lo == 0 ==> Restored(prefix, Staged(prefix, names))[..hi] == names[..hi]
    ensures hi == |names| ==> Restored(prefix, Staged(prefix, names))[lo..] == names[lo..]
  {
    var r := Restored(prefix, Staged(prefix, names));
    forall k | lo <= k < hi ensures r[k] == names[k] {
      var pat := prefix + Pad3(k + 1) + "_";
      assert StagedName(prefix, k + 1, names[k]) == pat + names[k];
      ReplaceAllLeading(pat, names[k], "");
      ReplaceAllAbsent(names[k], pat, "");
    }
  }

  // ---------------------------------------------------------------------
  // The two-phase rename

  /** What the two-phase rename of `names` with temporary prefix `tp` and
      final prefix `fp` returns, and the folder it leaves behind. */
  function StagedOutcome(m: Entries, refused: set<(string, string)>, names: seq<string>, tp: string, fp: string): (bool, Entries) {
    var temps := Staged(tp, names);
    var s := MoveAll(m, refused, names, temps);
    if s.1 < |names| then
      var recorded := temps[..s.1];
      (false, RestoreAll(s.0, refused, recorded, Restored(tp, recorded)))
    else
      var f := MoveAll(s.0, refused, temps, Staged(fp, names));
      if f.1 == |names| then (true, f.0)
      else (false, RestoreAll(f.0, refused, temps, Restored(tp, temps)))
  }

  /** Step 1: every file to its temporary name, recording the temporary
      and the final name, until a move raises. */
  method StageAll(folder: Folder, names: seq<string>, tp: string, fp: string) returns (temps: seq<string>, finals: seq<string>)
    modifies folder
    ensures |temps| == |finals| <= |names|
    ensures temps == Staged(tp, names)[..|temps|] && finals == Staged(fp, names)[..|temps|]
    ensures (folder.entries, |temps|) == MoveAll(old(folder.entries), folder.refused, names, Staged(tp, names))
  {
    ghost var all, fin := Staged(tp, names), Staged(fp, names);
    ghost var m0 := folder.entries;
    temps, finals := [], [];
    var i := 0;
    while i < |names|
      invariant 0 <= i <= |names|
      invariant temps == all[..i] && finals == fin[..i]
      invariant MoveFrom(folder.entries, folder.refused, names, all, i) == MoveFrom(m0, folder.refused, names, all, 0)
    {
      var temp := StagedName(tp, i + 1, names[i]);
      var final := StagedName(fp, i + 1, names[i]);
      SnocSlice(all, i);
      SnocSlice(fin, i);
      var ok := folder.Move(names[i], temp);
      if !ok {
        break;
      }
      temps := temps + [temp];
      finals := finals + [final];
      i := i + 1;
    }
    MoveFromAll(m0, folder.refused, names, all, 0);
    assert names[0..] == names && all[0..] == all;
  }

  /** Step 2: every recorded file from its temporary to its final name,
      until a move raises; `done` moves succeed. */
  method FinalizeAll(folder: Folder, temps: seq<string>, finals: seq<string>) returns (done: nat)
    requires |temps| == |finals|
    modifies folder
    ensures (folder.entries, done) == MoveAll(old(folder.entries), folder.refused, temps, finals)
  {
    ghost var m0 := folder.entries;
    done := 0;
    while done < |temps|
      invariant 0 <= done <= |temps|
      invariant MoveFrom(folder.entries, folder.refused, temps, finals, done) == MoveFrom(m0, folder.refused, temps, finals, 0)
    {
      var ok := folder.Move(temps[done], finals[done]);
      if !ok {
        break;
      }
      done := done + 1;
    }
    MoveFromAll(m0, folder.refused, temps, finals, 0);
    assert temps[0..] == temps && finals[0..] == finals;
  }

  /** The cleanup after a failure: each recorded file still at its
      temporary name is moved to that name with the temporary prefix
      removed; a move that raises is ignored. */
  method CleanUp(folder: Folder, temps: seq<string>, tp: string)
    modifies folder
    ensures folder.entries == RestoreAll(old(folder.entries), folder.refused, temps, Restored(tp, temps))
  {
    ghost var back := Restored(tp, temps);
    ghost var m0 := folder.entries;
    for i := 0 to |temps|
      invariant RestoreAll(folder.entries, folder.refused, temps[i..], back[i..]) == RestoreAll(m0, folder.refused, temps, back)
    {
      assert temps[i..][1..] == temps[i + 1..] && back[i..][1..] == back[i + 1..];
      if temps[i] in folder.entries {
        var original := ReplaceAll(temps[i], tp + Pad3(i + 1) + "_", "");
        var _ := folder.Move(temps[i], original);
      }
    }
  }

  /** The two-phase rename: `True` when every file reached its final name,
      `False` after the cleanup otherwise. */
  method StagedRename(folder: Folder, names: seq<string>, tp: string, fp: string) returns (ok: bool)
    modifies folder
    ensures (ok, folder.entries) == StagedOutcome(old(folder.entries), folder.refused, names, tp, fp)
  {
    var temps, finals := StageAll(folder, names, tp, fp);
    if |temps| == |names| {
      assert temps == Staged(tp, names) && finals == Staged(fp, names);
      var done := FinalizeAll(folder, temps, finals);
      if done == |temps| {
        return true;
      }
    }
    CleanUp(folder, temps, tp);
    return false;
  }

  // ---------------------------------------------------------------------
  // What the two-phase rename achieves

  /** The batch a rename is run on: distinct files of the folder, prefixes
      that tell temporary from final names apart, and no temporary name
      that is the name of a file still waiting to be staged (a move onto
      it would replace that file). */
  predicate Batch(m: Entries, names: seq<string>, tp: string, fp: string) {
    && Distinct(names)
    && (forall k :: 0 <= k < |names| ==> names[k] in m)
    && Diverge(tp, fp)
    && (forall k, j :: 0 <= k < j < |names| ==> StagedName(tp, k + 1, names[k]) != names[j])
  }

  /** No name of `xs` is taken in the folder. */
  predicate Fresh(m: Entries, xs: seq<string>) {
    forall k :: 0 <= k < |xs| ==> xs[k] !in m
  }

  lemma TempsAndFinalsDiffer(names: seq<string>, tp: string, fp: string)
    requires Diverge(tp, fp)
    ensures forall k, j :: 0 <= k < |names| && 0 <= j < |names| ==> Staged(fp, names)[k] != Staged(tp, names)[j]
  {
    forall k, j | 0 <= k < |names| && 0 <= j < |names| ensures Staged(fp, names)[k] != Staged(tp, names)[j] {
      StagedNamesDiverge(fp, tp, k + 1, names[k], j + 1, names[j]);
    }
  }

  lemma BatchStages(m: Entries, names: seq<string>, tp: string, fp: string)
    requires Batch(m, names, tp, fp)
    ensures Independent(m, names, Staged(tp, names))
    ensures Independent(Relocated(m, names, Staged(tp, names)), Staged(tp, names), Staged(fp, names))
    ensures forall k, j :: 0 <= k < |names| && 0 <= j < |names| ==> Staged(fp, names)[k] != Staged(tp, names)[j]
  {
    var temps, finals := Staged(tp, names), Staged(fp, names);
    StagedDistinct(tp, names);
    StagedDistinct(fp, names);
    assert Independent(m, names, temps);
    forall k | 0 <= k < |names| ensures temps[k] in Relocated(m, names, temps) {
      RelocatedAtIndex(m, names, temps, k);
    }
    TempsAndFinalsDiffer(names, tp, fp);
  }

  /** The rename succeeds exactly when none of its moves is refused, and
      then each file of the batch is under its final name, the batch's
      old names and the temporary names are gone, and every other file is
      untouched. */
  lemma StagedRenameSucceeds(m: Entries, refused: set<(string, string)>, names: seq<string>, tp: string, fp: string)
    requires Batch(m, names, tp, fp)
    ensures var temps, finals := Staged(tp, names), Staged(fp, names);
      StagedOutcome(m, refused, names, tp, fp).0
      <==> NoneRefused(refused, names, temps) && NoneRefused(refused, temps, finals)
    ensures var r := StagedOutcome(m, refused, names, tp, fp);
      var temps, finals := Staged(tp, names), Staged(fp, names);
      r.0 ==>
        && (forall k :: 0 <= k < |names| ==> finals[k] in r.1 && r.1[finals[k]] == m[names[k]])
        && (forall x :: x in r.1 <==> (x in m && x !in names && x !in temps) || x in finals)
        && (forall x :: x in m && x !in names && x !in temps && x !in finals ==> r.1[x] == m[x])
  {
    var temps, finals := Staged(tp, names), Staged(fp, names);
    var n := |names|;
    BatchStages(m, names, tp, fp);
    var c := FirstRefused(refused, names, temps);
    MoveAllUpTo(m, refused, names, temps, c);
    if c == n {
      assert names[..n] == names && temps[..n] == temps;
      var m1 := Relocated(m, names, temps);
      RelocatedAt(m, names, temps);
      var d := FirstRefused(refused, temps, finals);
      MoveAllUpTo(m1, refused, temps, finals, d);
      if d == n {
        assert temps[..n] == temps && finals[..n] == finals;
        RelocatedAt(m1, temps, finals);
      }
    }
  }

  /** When staging stops at a refused move, the cleanup puts every staged
      file back under its old name, and the folder is as before, as long as
      no temporary name was taken, no cleanup move is refused and no name
      contains its own temporary prefix (the cleanup removes every
      occurrence of the prefix, not only the leading one). */
  lemma StagingFailureRestores(m: Entries, refused: set<(string, string)>, names: seq<string>, tp: string, fp: string)
    requires Batch(m, names, tp, fp) && Fresh(m, Staged(tp, names))
    requires !NoneRefused(refused, names, Staged(tp, names))
    requires var c := FirstRefused(refused, names, Staged(tp, names));
      && (forall k :: 0 <= k < c ==> !Contains(names[k], tp + Pad3(k + 1) + "_"))
      && NoneRefused(refused, Staged(tp, names)[..c], names[..c])
    ensures StagedOutcome(m, refused, names, tp, fp) == (false, m)
  {
    var temps := Staged(tp, names);
    var c := FirstRefused(refused, names, temps);
    BatchStages(m, names, tp, fp);
    MoveAllUpTo(m, refused, names, temps, c);
    RestoredNames(tp, names, 0, c);
    assert Restored(tp, temps[..c]) == Restored(tp, temps)[..c] == names[..c];
    RelocatedBack(m, names[..c], temps[..c]);
    RestoreAllRelocates(Relocated(m, names[..c], temps[..c]), refused, temps[..c], names[..c]);
  }

  /** Renaming one more file after a batch of independent renames is the
      same as renaming the longer batch at once. */
  lemma RelocatedSnoc(m: Entries, srcs: seq<string>, dsts: seq<string>, s: string, t: string)
    requires Independent(m, srcs + [s], dsts + [t])
    ensures Independent(m, srcs, dsts)
    ensures s in Relocated(m, srcs, dsts)
    ensures Relocated(m, srcs + [s], dsts + [t]) == MoveEntry(Relocated(m, srcs, dsts), s, t)
  {
    var n := |srcs|;
    IndependentPrefix(m, srcs + [s], dsts + [t], n);
    assert (srcs + [s])[..n] == srcs && (dsts + [t])[..n] == dsts;
    var a := Relocated(m, srcs, dsts);
    var l := Relocated(m, srcs + [s], dsts + [t]);
    RelocatedAt(m, srcs, dsts);
    RelocatedAt(m, srcs + [s], dsts + [t]);
    assert (srcs + [s])[n] == s && (dsts + [t])[n] == t;
    assert s !in srcs && s !in dsts;
    var r := MoveEntry(a, s, t);
    forall x ensures (x in l <==> x in r) && (x in l ==> l[x] == r[x]) {
      if x in dsts {
        var k := IndexOf(dsts, x);
        assert (srcs + [s])[k] == srcs[k] && (dsts + [t])[k] == x;
      }
    }
    EntriesEqual(l, r);
  }

  lemma RelocatedAtIndex(m: Entries, srcs: seq<string>, dsts: seq<string>, k: nat)
    requires Independent(m, srcs, dsts) && k < |srcs|
    ensures dsts[k] in Relocated(m, srcs, dsts) && Relocated(m, srcs, dsts)[dsts[k]] == m[srcs[k]]
  {
    assert IndexOf(dsts, dsts[k]) == k;
  }

  /** The conditions of `FinalizedThenRestored`. */
  predicate Staging(m: Entries, names: seq<string>, temps: seq<string>, finals: seq<string>) {
    && Independent(m, names, temps) && Fresh(m, temps) && Fresh(m, finals)
    && |finals| == |names| && Distinct(finals)
    && (forall k, l :: 0 <= k < |names| && 0 <= l < |names| ==> finals[k] != temps[l])
  }

  lemma StagedThenFinalized(m: Entries, names: seq<string>, temps: seq<string>, finals: seq<string>, j: nat)
    requires Staging(m, names, temps, finals) && j <= |names|
    ensures Independent(Relocated(m, names, temps), temps[..j], finals[..j])
    ensures Independent(Relocated(Relocated(m, names, temps), temps[..j], finals[..j]), temps[j..], names[j..])
  {
    var n := |names|;
    var t1, t2, f1 := temps[..j], temps[j..], finals[..j];
    var m1 := Relocated(m, names, temps);
    forall k | 0 <= k < j ensures t1[k] in m1 {
      RelocatedAtIndex(m, names, temps, k);
    }
    assert Independent(m1, t1, f1);
    var m2 := Relocated(m1, t1, f1);
    forall i | 0 <= i < n - j ensures t2[i] in m2 {
      RelocatedAtIndex(m, names, temps, j + i);
      RelocatedPoint(m1, t1, f1, temps[j + i]);
    }
  }

  /** The three kinds of names `FinalizedThenRestored` deals with: one put
      back under its old name, one finalized, and any other. */
  lemma RestoredBackAt(m: Entries, names: seq<string>, temps: seq<string>, finals: seq<string>, j: nat, i: nat)
    requires Staging(m, names, temps, finals) && j + i < |names|
    requires Independent(Relocated(m, names, temps), temps[..j], finals[..j])
    requires Independent(Relocated(Relocated(m, names, temps), temps[..j], finals[..j]), temps[j..], names[j..])
    ensures var r := Relocated(Relocated(Relocated(m, names, temps), temps[..j], finals[..j]), temps[j..], names[j..]);
      names[j + i] in r && r[names[j + i]] == m[names[j + i]]
  {
    var m1 := Relocated(m, names, temps);
    var m2 := Relocated(m1, temps[..j], finals[..j]);
    RelocatedAtIndex(m2, temps[j..], names[j..], i);
    RelocatedPoint(m1, temps[..j], finals[..j], temps[j + i]);
    RelocatedAtIndex(m, names, temps, j + i);
  }

  lemma FinalizedAt(m: Entries, names: seq<string>, temps: seq<string>, finals: seq<string>, j: nat, k: nat)
    requires Staging(m, names, temps, finals) && k < j <= |names|
    requires Independent(Relocated(m, names, temps), temps[..j], finals[..j])
    requires Independent(Relocated(Relocated(m, names, temps), temps[..j], finals[..j]), temps[j..], names[j..])
    ensures var r := Relocated(Relocated(Relocated(m, names, temps), temps[..j], finals[..j]), temps[j..], names[j..]);
      finals[k] in r && r[finals[k]] == m[names[k]]
  {
    var m1 := Relocated(m, names, temps);
    var m2 := Relocated(m1, temps[..j], finals[..j]);
    var x := finals[k];
    assert x !in names[j..] && x !in temps[j..];
    RelocatedPoint(m2, temps[j..], names[j..], x);
    RelocatedAtIndex(m1, temps[..j], finals[..j], k);
    RelocatedAtIndex(m, names, temps, k);
  }

  lemma UntouchedAt(m: Entries, names: seq<string>, temps: seq<string>, finals: seq<string>, j: nat, x: string)
    requires Staging(m, names, temps, finals) && j <= |names|
    requires Independent(Relocated(m, names, temps), temps[..j], finals[..j])
    requires Independent(Relocated(Relocated(m, names, temps), temps[..j], finals[..j]), temps[j..], names[j..])
    requires x !in names[j..] && x !in finals[..j]
    ensures var r := Relocated(Relocated(Relocated(m, names, temps), temps[..j], finals[..j]), temps[j..], names[j..]);
      (x in r <==> x in m && x !in names) && (x in r ==> r[x] == m[x])
  {
    var m1 := Relocated(m, names, temps);
    var m2 := Relocated(m1, temps[..j], finals[..j]);
    var r := Relocated(m2, temps[j..], names[j..]);
    assert (x in r <==> x in m2 && x !in temps[j..]) && (x in r ==> r[x] == m2[x]) by {
      RelocatedPoint(m2, temps[j..], names[j..], x);
    }
    assert (x in m2 <==> x in m1 && x !in temps[..j]) && (x in m2 ==> m2[x] == m1[x]) by {
      RelocatedPoint(m1, temps[..j], finals[..j], x);
    }
    assert (x in m1 <==> (x in m && x !in names) || x in temps) && (x in m1 && x !in temps ==> m1[x] == m[x]) by {
      RelocatedPoint(m, names, temps, x);
    }
    InSplit(temps, j, x);
    assert x in temps ==> x !in m;
  }

  lemma InSplit(s: seq<string>, j: nat, x: string)
    requires j <= |s|
    ensures x in s <==> x in s[..j] || x in s[j..]
  {
    assert s == s[..j] + s[j..];
  }

  lemma FinalizedThenRestoredAt(m: Entries, names: seq<string>, temps: seq<string>, finals: seq<string>, j: nat, x: string)
    requires Staging(m, names, temps, finals) && j <= |names|
    requires Independent(Relocated(m, names, temps), temps[..j], finals[..j])
    requires Independent(Relocated(Relocated(m, names, temps), temps[..j], finals[..j]), temps[j..], names[j..])
    ensures var r := Relocated(Relocated(Relocated(m, names, temps), temps[..j], finals[..j]), temps[j..], names[j..]);
      var e := Relocated(m, names[..j], finals[..j]);
      (x in r <==> x in e) && (x in r ==> r[x] == e[x])
  {
    IndependentPrefix(m, names, finals, j);
    RelocatedPoint(m, names[..j], finals[..j], x);
    assert names == names[..j] + names[j..];
    if x in names[j..] {
      var i := IndexOf(names[j..], x);
      RestoredBackAt(m, names, temps, finals, j, i);
      assert x !in names[..j] && x !in finals[..j];
    } else if x in finals[..j] {
      var k := IndexOf(finals[..j], x);
      FinalizedAt(m, names, temps, finals, j, k);
    } else {
      UntouchedAt(m, names, temps, finals, j, x);
    }
  }

  /** Staging a batch, finalizing its first `j` files and moving the rest
      back leaves the first `j` files under their final names and the others
      where they were, when no temporary or final name was taken. */
  lemma FinalizedThenRestored(m: Entries, names: seq<string>, temps: seq<string>, finals: seq<string>, j: nat)
    requires Staging(m, names, temps, finals) && j <= |names|
    ensures Independent(Relocated(m, names, temps), temps[..j], finals[..j])
    ensures var m2 := Relocated(Relocated(m, names, temps), temps[..j], finals[..j]);
      && Independent(m2, temps[j..], names[j..])
      && Relocated(m2, temps[j..], names[j..]) == Relocated(m, names[..j], finals[..j])
  {
    StagedThenFinalized(m, names, temps, finals, j);
    IndependentPrefix(m, names, finals, j);
    var r := Relocated(Relocated(Relocated(m, names, temps), temps[..j], finals[..j]), temps[j..], names[j..]);
    var e := Relocated(m, names[..j], finals[..j]);
    forall x ensures (x in r <==> x in e) && (x in r ==> r[x] == e[x]) {
      FinalizedThenRestoredAt(m, names, temps, finals, j, x);
    }
    EntriesEqual(r, e);
  }

  /** The cleanup after the `j`-th finalizing move was refused. */
  lemma CleanUpAfterFinalizing(m: Entries, refused: set<(string, string)>, names: seq<string>, tp: string, fp: string, j: nat)
    requires Batch(m, names, tp, fp) && Fresh(m, Staged(tp, names)) && Fresh(m, Staged(fp, names)) && j <= |names|
    requires forall k :: j <= k < |names| ==> !Contains(names[k], tp + Pad3(k + 1) + "_")
    requires NoneRefused(refused, Staged(tp, names)[j..], names[j..])
    ensures Independent(Relocated(m, names, Staged(tp, names)), Staged(tp, names)[..j], Staged(fp, names)[..j])
    ensures var temps, finals := Staged(tp, names), Staged(fp, names);
      var m2 := Relocated(Relocated(m, names, temps), temps[..j], finals[..j]);
      RestoreAll(m2, refused, temps, Restored(tp, temps)) == Relocated(m, names[..j], finals[..j])
  {
    var temps, finals := Staged(tp, names), Staged(fp, names);
    var n := |names|;
    var m1 := Relocated(m, names, temps);
    var back := Restored(tp, temps);
    BatchStages(m, names, tp, fp);
    FinalizedThenRestored(m, names, temps, finals, j);
    var m2 := Relocated(m1, temps[..j], finals[..j]);
    RestoreAllSplit(m2, refused, temps, back, j);
    forall k | 0 <= k < j ensures temps[..j][k] !in m2 {
      RelocatedPoint(m1, temps[..j], finals[..j], temps[k]);
      assert temps[k] !in finals[..j];
    }
    RestoreAllAbsent(m2, refused, temps[..j], back[..j]);
    RestoredNames(tp, names, j, n);
    RestoreAllRelocates(m2, refused, temps[j..], names[j..]);
  }

  /** When a move to a final name is refused, the files already finalized
      stay under their final names and the cleanup puts every other file
      back under its old name, under the same conditions as for a staging
      failure; then nothing else changes. */
  lemma FinalizingFailureKeepsFinals(m: Entries, refused: set<(string, string)>, names: seq<string>, tp: string, fp: string)
    requires Batch(m, names, tp, fp) && Fresh(m, Staged(tp, names)) && Fresh(m, Staged(fp, names))
    requires NoneRefused(refused, names, Staged(tp, names))
    requires !NoneRefused(refused, Staged(tp, names), Staged(fp, names))
    requires var j := FirstRefused(refused, Staged(tp, names), Staged(fp, names));
      && (forall k :: j <= k < |names| ==> !Contains(names[k], tp + Pad3(k + 1) + "_"))
      && NoneRefused(refused, Staged(tp, names)[j..], names[j..])
    ensures var j := FirstRefused(refused, Staged(tp, names), Staged(fp, names));
      StagedOutcome(m, refused, names, tp, fp) == (false, Relocated(m, names[..j], Staged(fp, names)[..j]))
  {
    var temps, finals := Staged(tp, names), Staged(fp, names);
    var n := |names|;
    var j := FirstRefused(refused, temps, finals);
    var m1 := Relocated(m, names, temps);
    BatchStages(m, names, tp, fp);
    MoveAllUpTo(m, refused, names, temps, n);
    assert names[..n] == names && temps[..n] == temps;
    MoveAllUpTo(m1, refused, temps, finals, j);
    CleanUpAfterFinalizing(m, refused, names, tp, fp, j);
  }
}
