/** Sorting (Python's `sorted`, JavaScript's `Array.prototype.sort`) and
    shuffling (Python's `random.shuffle`) over sequences. */
module Sorting {

  function Min(a: nat, b: nat): nat {
    if a <= b then a else b
  }

  // ---------------------------------------------------------------------
  // Orders

  ghost predicate TotalPreorder<T(!new)>(le: (T, T) -> bool) {
    && (forall a, b :: le(a, b) || le(b, a))
    && (forall a, b, c :: le(a, b) && le(b, c) ==> le(a, c))
  }

  predicate SortedBy<T>(s: seq<T>, le: (T, T) -> bool) {
    forall i, j :: 0 <= i < j < |s| ==> le(s[i], s[j])
  }

  /** Code-point order on strings, Python's comparison of `str` values:
      a prefix comes first, else the first differing character decides. */
  predicate StrLe(a: string, b: string)
    decreases |a|
  {
    a == [] || (b != [] && (a[0] < b[0] || (a[0] == b[0] && StrLe(a[1..], b[1..]))))
  }

  lemma {:induction false} StrLeTotal(a: string, b: string)
    ensures StrLe(a, b) || StrLe(b, a)
    decreases |a|
  {
    if a != [] && b != [] && a[0] == b[0] {
      StrLeTotal(a[1..], b[1..]);
    }
  }

  lemma {:induction false} StrLeTransitive(a: string, b: string, c: string)
    requires StrLe(a, b) && StrLe(b, c)
    ensures StrLe(a, c)
    decreases |a|
  {
    if a != [] && a[0] == b[0] && b[0] == c[0] {
      StrLeTransitive(a[1..], b[1..], c[1..]);
    }
  }

  lemma {:induction false} StrLeAntisymmetric(a: string, b: string)
    requires StrLe(a, b) && StrLe(b, a)
    ensures a == b
    decreases |a|
  {
    if a != [] {
      StrLeAntisymmetric(a[1..], b[1..]);
      assert a == [a[0]] + a[1..] && b == [b[0]] + b[1..];
    }
  }

  lemma StrLeIsTotalPreorder()
    ensures TotalPreorder(StrLe)
  {
    forall a, b ensures StrLe(a, b) || StrLe(b, a) { StrLeTotal(a, b); }
    forall a, b, c | StrLe(a, b) && StrLe(b, c) ensures StrLe(a, c) { StrLeTransitive(a, b, c); }
  }

  // ---------------------------------------------------------------------
  // Stable insertion sort

  function Insert<T>(x: T, s: seq<T>, le: (T, T) -> bool): seq<T>
    decreases |s|
  {
    if s == [] then [x]
    else if le(x, s[0]) then [x] + s
    else [s[0]] + Insert(x, s[1..], le)
  }

  lemma {:induction false} InsertElements<T>(x: T, s: seq<T>, le: (T, T) -> bool)
    ensures multiset(Insert(x, s, le)) == multiset(s) + multiset{x}
    ensures forall y :: y in Insert(x, s, le) <==> y == x || y in s
    decreases |s|
  {
    if s != [] {
      assert s == [s[0]] + s[1..];
      if !le(x, s[0]) {
        InsertElements(x, s[1..], le);
      }
    }
  }

  lemma {:induction false} InsertSorted<T(!new)>(x: T, s: seq<T>, le: (T, T) -> bool)
    requires TotalPreorder(le) && SortedBy(s, le)
    ensures SortedBy(Insert(x, s, le), le)
    decreases |s|
  {
    if s != [] && !le(x, s[0]) {
      var t := s[1..];
      InsertSorted(x, t, le);
      InsertElements(x, t, le);
      var r := Insert(x, t, le);
      assert le(s[0], x);
      assert forall y :: y in r ==> le(s[0], y);
      var u := [s[0]] + r;
      forall i, j | 0 <= i < j < |u| ensures le(u[i], u[j]) {
        assert u[j] == r[j - 1];
        if i == 0 {
          assert r[j - 1] in r;
        } else {
          assert u[i] == r[i - 1];
        }
      }
    } else if s != [] {
      var u := [x] + s;
      forall i, j | 0 <= i < j < |u| ensures le(u[i], u[j]) {
        if i == 0 && j > 1 {
          assert le(x, s[0]) && le(s[0], s[j - 1]);
        }
      }
    }
  }

  /** The sorted permutation of `s`; stable, so equal elements keep their
      input order, as `sorted` and `Array.prototype.sort` do. */
  function Sort<T(!new)>(s: seq<T>, le: (T, T) -> bool): (r: seq<T>)
    requires TotalPreorder(le)
    ensures SortedBy(r, le)
    ensures multiset(r) == multiset(s)
    decreases |s|
  {
    if s == [] then []
    else
      var t := Sort(s[1..], le);
      InsertSorted(s[0], t, le);
      InsertElements(s[0], t, le);
      assert s == [s[0]] + s[1..];
      Insert(s[0], t, le)
  }

  /** The elements tied with `z`: ordered both ways against it. */
  function TiedWith<T>(le: (T, T) -> bool, z: T): T -> bool {
    (y: T) => le(z, y) && le(y, z)
  }

  lemma FilterCons<T>(a: T, t: seq<T>, p: T -> bool)
    ensures Filter([a] + t, p) == (if p(a) then [a] else []) + Filter(t, p)
  {
    FilterConcat([a], t, p);
    assert [a][..0] == [];
  }

  lemma FilterHead<T>(s: seq<T>, p: T -> bool)
    requires s != []
    ensures Filter(s, p) == (if p(s[0]) then [s[0]] else []) + Filter(s[1..], p)
  {
    assert s == [s[0]] + s[1..];
    FilterCons(s[0], s[1..], p);
  }

  /** Inserting `x` keeps the order of the elements tied with `z`: `x`
      passes only elements strictly below it, none of which is tied with
      `z` when `x` is. */
  lemma {:induction false} InsertStable<T(!new)>(x: T, s: seq<T>, le: (T, T) -> bool, z: T)
    requires TotalPreorder(le)
    ensures Filter(Insert(x, s, le), TiedWith(le, z)) == Filter([x] + s, TiedWith(le, z))
    decreases |s|
  {
    if s != [] && !le(x, s[0]) {
      var p := TiedWith(le, z);
      var t := s[1..];
      InsertStable(x, t, le, z);
      assert Insert(x, s, le) == [s[0]] + Insert(x, t, le);
      assert s == [s[0]] + t;
      FilterCons(s[0], Insert(x, t, le), p);
      FilterCons(x, t, p);
      FilterCons(x, s, p);
      FilterCons(s[0], t, p);
      NotBothTied(le, z, x, s[0]);
      SwapSingles(x, s[0], p(x), p(s[0]));
      SeqStep(Filter(Insert(x, s, le), p), Filter([x] + s, p), Filter(Insert(x, t, le), p), Filter(t, p),
        if p(x) then [x] else [], if p(s[0]) then [s[0]] else []);
    }
  }

  lemma SeqStep<T>(lhs: seq<T>, rhs: seq<T>, a: seq<T>, b: seq<T>, ex: seq<T>, e0: seq<T>)
    requires lhs == e0 + a && a == ex + b && rhs == ex + (e0 + b) && e0 + ex == ex + e0
    ensures lhs == rhs
  {
    assert e0 + (ex + b) == (e0 + ex) + b;
  }

  /** Two elements tied with the same `z` are ordered both ways. */
  lemma NotBothTied<T(!new)>(le: (T, T) -> bool, z: T, x: T, y: T)
    requires TotalPreorder(le) && !le(x, y)
    ensures !(TiedWith(le, z)(x) && TiedWith(le, z)(y))
  {
  }

  lemma SwapSingles<T>(x: T, y: T, bx: bool, b: bool)
    requires !(bx && b)
    ensures (if b then [y] else []) + (if bx then [x] else []) == (if bx then [x] else []) + (if b then [y] else [])
  {
  }

  lemma SortCons<T(!new)>(s: seq<T>, le: (T, T) -> bool)
    requires TotalPreorder(le) && s != []
    ensures Sort(s, le) == Insert(s[0], Sort(s[1..], le), le)
  {
  }

  lemma SeqChain<T>(lhs: seq<T>, a: seq<T>, b: seq<T>, c: seq<T>, rhs: seq<T>, e: seq<T>)
    requires lhs == a && a == e + b && b == c && rhs == e + c
    ensures lhs == rhs
  {
  }

  /** Stability: for every `z`, the elements tied with `z` come out in
      their input order, as with `sorted` and `Array.prototype.sort`. */
  lemma {:induction false} SortStable<T(!new)>(s: seq<T>, le: (T, T) -> bool, z: T)
    requires TotalPreorder(le)
    ensures Filter(Sort(s, le), TiedWith(le, z)) == Filter(s, TiedWith(le, z))
    decreases |s|
  {
    if s != [] {
      var p := TiedWith(le, z);
      var t := s[1..];
      var st := Sort(t, le);
      SortStable(t, le, z);
      InsertStable(s[0], st, le, z);
      FilterCons(s[0], st, p);
      FilterHead(s, p);
      SortCons(s, le);
      SeqChain(Filter(Sort(s, le), p), Filter([s[0]] + st, p), Filter(st, p), Filter(t, p), Filter(s, p),
        if p(s[0]) then [s[0]] else []);
    }
  }

  /** No two different elements of `s` are ordered both ways. */
  ghost predicate AntisymmetricOn<T>(s: seq<T>, le: (T, T) -> bool) {
    forall x, y :: x in s && y in s && le(x, y) && le(y, x) ==> x == y
  }

  /** Two sorted arrangements of the same elements agree when the order
      has no ties among those elements: the sorted result does not depend
      on the input order. */
  /** The first element of a sorted sequence is below every other one. */
  lemma SortedFirst<T>(a: seq<T>, le: (T, T) -> bool, x: T)
    requires SortedBy(a, le) && x in a
    ensures a[0] == x || le(a[0], x)
  {
    var i :| 0 <= i < |a| && a[i] == x;
    if i > 0 { assert le(a[0], a[i]); }
  }

  lemma SortedHead<T>(a: seq<T>, b: seq<T>, le: (T, T) -> bool)
    requires SortedBy(a, le) && SortedBy(b, le)
    requires multiset(a) == multiset(b)
    requires AntisymmetricOn(a, le)
    requires a != []
    ensures b != [] && a[0] == b[0]
  {
    assert a[0] in multiset(b);
    assert b[0] in multiset(a);
    SortedFirst(a, le, b[0]);
    SortedFirst(b, le, a[0]);
  }

  lemma {:induction false} SortedUnique<T>(a: seq<T>, b: seq<T>, le: (T, T) -> bool)
    requires SortedBy(a, le) && SortedBy(b, le)
    requires multiset(a) == multiset(b)
    requires AntisymmetricOn(a, le)
    ensures a == b
    decreases |a|
  {
    if a == [] {
      assert |b| == |multiset(b)| == 0;
    } else {
      SortedHead(a, b, le);
      var a', b' := a[1..], b[1..];
      assert multiset(a) == multiset([a[0]]) + multiset(a') by { assert a == [a[0]] + a'; }
      assert multiset(b) == multiset([b[0]]) + multiset(b') by { assert b == [b[0]] + b'; }
      assert forall x :: x in a' ==> x in a;
      assert SortedBy(a', le) by {
        forall x, y | 0 <= x < y < |a'| ensures le(a'[x], a'[y]) { assert a'[x] == a[x + 1] && a'[y] == a[y + 1]; }
      }
      assert SortedBy(b', le) by {
        forall x, y | 0 <= x < y < |b'| ensures le(b'[x], b'[y]) { assert b'[x] == b[x + 1] && b'[y] == b[y + 1]; }
      }
      assert multiset(a') == multiset(a) - multiset([a[0]]);
      assert multiset(b') == multiset(b) - multiset([b[0]]);
      SortedUnique(a', b', le);
      assert a == [a[0]] + a' && b == [b[0]] + b';
    }
  }

  // ---------------------------------------------------------------------
  // Shuffling

  /** No element occurs twice. */
  predicate Distinct<T(==)>(s: seq<T>) {
    forall i, j :: 0 <= i < j < |s| ==> s[i] != s[j]
  }

  /** `p` lists every index below `n` exactly once. */
  predicate IsPermutation(p: seq<nat>, n: nat) {
    && |p| == n
    && (forall i :: 0 <= i < n ==> p[i] < n)
    && (forall i, j :: 0 <= i < j < n ==> p[i] != p[j])
  }

  /** The list that `random.shuffle` leaves behind when it happens to choose
      the permutation `p`: position i receives the old element p[i]. */
  function Permute<T>(s: seq<T>, p: seq<nat>): (r: seq<T>)
    requires IsPermutation(p, |s|)
    ensures |r| == |s|
  {
    seq(|s|, i requires 0 <= i < |s| => s[p[i]])
  }

  /** `p` without its first entry, renumbered to close the gap p[0] leaves. */
  function Renumber(p: seq<nat>): (q: seq<nat>)
    requires |p| > 0 && IsPermutation(p, |p|)
    ensures IsPermutation(q, |p| - 1)
  {
    var n := |p|;
    var m := p[0];
    var q := seq(n - 1, i requires 0 <= i < n - 1 => if p[i + 1] < m then p[i + 1] else p[i + 1] - 1);
    assert forall i | 1 <= i < n :: p[i] != p[0];
    q
  }

  lemma PermuteFirst<T>(s: seq<T>, p: seq<nat>)
    requires |s| > 0 && IsPermutation(p, |s|)
    ensures Permute(s, p) == [s[p[0]]] + Permute(s[..p[0]] + s[p[0] + 1..], Renumber(p))
  {
    var m := p[0];
    var r := Permute(s, p);
    var r' := Permute(s[..m] + s[m + 1..], Renumber(p));
    forall i | 1 <= i < |s| ensures r[i] == r'[i - 1] {
      assert p[i] != p[0];
    }
  }

  /** Shuffling only reorders: the result holds exactly the same elements,
      each as often as before. */
  lemma {:induction false} PermutePreservesMultiset<T>(s: seq<T>, p: seq<nat>)
    requires IsPermutation(p, |s|)
    ensures multiset(Permute(s, p)) == multiset(s)
    decreases |s|
  {
    if |s| > 0 {
      // take out the element that lands first and recurse on the rest
      var m := p[0];
      var s' := s[..m] + s[m + 1..];
      PermutePreservesMultiset(s', Renumber(p));
      PermuteFirst(s, p);
      assert s == s[..m] + [s[m]] + s[m + 1..];
      assert multiset(s) == multiset(s[..m]) + multiset{s[m]} + multiset(s[m + 1..]);
    }
  }

  /** The identity permutation: the shuffle that changes nothing. */
  function Identity(n: nat): (p: seq<nat>)
    ensures IsPermutation(p, n)
  {
    seq(n, i requires 0 <= i < n => i)
  }

  // ---------------------------------------------------------------------
  // Filtering (list comprehensions with an `if`, `Array.prototype.filter`)

  function Filter<T>(s: seq<T>, p: T -> bool): seq<T>
    decreases |s|
  {
    if s == [] then [] else Filter(s[..|s| - 1], p) + (if p(s[|s| - 1]) then [s[|s| - 1]] else [])
  }

  lemma {:induction false} FilterMembers<T>(s: seq<T>, p: T -> bool)
    ensures forall x :: x in Filter(s, p) <==> x in s && p(x)
    ensures |Filter(s, p)| <= |s|
    decreases |s|
  {
    if s != [] {
      FilterMembers(s[..|s| - 1], p);
      assert s == s[..|s| - 1] + [s[|s| - 1]];
    }
  }

  lemma {:induction false} FilterConcat<T>(a: seq<T>, b: seq<T>, p: T -> bool)
    ensures Filter(a + b, p) == Filter(a, p) + Filter(b, p)
    decreases |b|
  {
    if b == [] {
      assert a + b == a;
    } else {
      var n := |b| - 1;
      FilterConcat(a, b[..n], p);
      assert (a + b)[..|a + b| - 1] == a + b[..n];
    }
  }

  /** Filtering by a predicate that every element satisfies keeps the whole
      sequence. */
  lemma {:induction false} FilterAll<T>(s: seq<T>, p: T -> bool)
    requires forall x :: x in s ==> p(x)
    ensures Filter(s, p) == s
    decreases |s|
  {
    if s != [] {
      FilterAll(s[..|s| - 1], p);
      assert s == s[..|s| - 1] + [s[|s| - 1]];
    }
  }

  /** Filtering one more element of a prefix. */
  lemma FilterPrefix<T>(s: seq<T>, i: nat, p: T -> bool)
    requires i < |s|
    ensures Filter(s[..i + 1], p) == Filter(s[..i], p) + (if p(s[i]) then [s[i]] else [])
  {
    assert s[..i + 1][..i] == s[..i];
  }

  lemma {:induction false} FilterNone<T>(s: seq<T>, p: T -> bool)
    requires forall x :: x in s ==> !p(x)
    ensures Filter(s, p) == []
    decreases |s|
  {
    if s != [] {
      FilterNone(s[..|s| - 1], p);
    }
  }

  // ---------------------------------------------------------------------
  // Sorting items into classes by a key (a loop that appends each item to
  // the list its class names)

  /** The items of class `c`, in their original order. */
  function Select<T, C(==)>(s: seq<T>, key: T -> C, c: C): seq<T> {
    Filter(s, (x: T) => key(x) == c)
  }

  lemma SelectLast<T, C>(s: seq<T>, key: T -> C, c: C)
    requires s != []
    ensures var n := |s| - 1;
      Select(s, key, c) == Select(s[..n], key, c) + if key(s[n]) == c then [s[n]] else []
  {
  }

  /** Appending an item to the class lists: only its own list grows. */
  lemma SelectSnoc<T, C>(s: seq<T>, x: T, key: T -> C, c: C, acc: seq<T>)
    requires acc == Select(s, key, c)
    ensures Select(s + [x], key, c) == if key(x) == c then acc + [x] else acc
  {
    SelectLast(s + [x], key, c);
    assert (s + [x])[..|s|] == s;
  }

  /** All items of the classes `cs`, counted together. */
  function Gathered<T, C(==)>(s: seq<T>, key: T -> C, cs: seq<C>): multiset<T>
    decreases |cs|
  {
    if cs == [] then multiset{} else multiset(Select(s, key, cs[0])) + Gathered(s, key, cs[1..])
  }

  lemma DistinctTail<C>(cs: seq<C>)
    requires cs != [] && Distinct(cs)
    ensures Distinct(cs[1..]) && cs[0] !in cs[1..]
  {
    forall i, j | 0 <= i < j < |cs| - 1 ensures cs[1..][i] != cs[1..][j] {
      assert cs[1..][i] == cs[i + 1] && cs[1..][j] == cs[j + 1];
    }
  }

  lemma MultisetStep<T>(g: multiset<T>, a: multiset<T>, r: multiset<T>, gt: multiset<T>, at: multiset<T>, rt: multiset<T>,
                        da: multiset<T>, dr: multiset<T>)
    requires g == a + r && gt == at + rt && a == at + da && r == rt + dr
    ensures g == gt + (da + dr)
  {
  }

  lemma HeadOrTail<C>(c: C, cs: seq<C>)
    requires cs != [] && Distinct(cs)
    ensures (c in cs <==> c == cs[0] || c in cs[1..]) && !(c == cs[0] && c in cs[1..])
  {
    assert cs == [cs[0]] + cs[1..];
    DistinctTail(cs);
  }

  lemma DeltaJoin<T>(x: T, b1: bool, b2: bool, b: bool)
    requires !(b1 && b2) && b == (b1 || b2)
    ensures (if b1 then multiset{x} else multiset{}) + (if b2 then multiset{x} else multiset{}) == if b then multiset{x} else multiset{}
  {
  }

  lemma {:induction false} GatheredLast<T, C>(s: seq<T>, key: T -> C, cs: seq<C>)
    requires s != [] && Distinct(cs)
    ensures var n := |s| - 1;
      Gathered(s, key, cs) == Gathered(s[..n], key, cs) + if key(s[n]) in cs then multiset{s[n]} else multiset{}
    decreases |cs|
  {
    if cs != [] {
      var n := |s| - 1;
      var rest, x, t := cs[1..], s[n], s[..n];
      DistinctTail(cs);
      GatheredLast(s, key, rest);
      SelectLast(s, key, cs[0]);
      var da := if key(x) == cs[0] then multiset{x} else multiset{};
      var dr := if key(x) in rest then multiset{x} else multiset{};
      MultisetStep(Gathered(s, key, cs), multiset(Select(s, key, cs[0])), Gathered(s, key, rest),
        Gathered(t, key, cs), multiset(Select(t, key, cs[0])), Gathered(t, key, rest), da, dr);
      HeadOrTail(key(x), cs);
      DeltaJoin(x, key(x) == cs[0], key(x) in rest, key(x) in cs);
    }
  }

  /** When the key sends every item to one of the distinct classes `cs`,
      the classes together hold every item exactly once. */
  lemma {:induction false} SelectPartition<T(!new), C>(s: seq<T>, key: T -> C, cs: seq<C>)
    requires Distinct(cs)
    requires forall x :: key(x) in cs
    ensures Gathered(s, key, cs) == multiset(s)
    decreases |s|
  {
    if s == [] {
      GatheredEmpty(s, key, cs);
    } else {
      var n := |s| - 1;
      SelectPartition(s[..n], key, cs);
      GatheredLast(s, key, cs);
      assert s == s[..n] + [s[n]];
    }
  }

  lemma {:induction false} GatheredEmpty<T, C>(s: seq<T>, key: T -> C, cs: seq<C>)
    requires s == []
    ensures Gathered(s, key, cs) == multiset{}
    decreases |cs|
  {
    if cs != [] {
      GatheredEmpty(s, key, cs[1..]);
    }
  }

  /** An item is in class `c` exactly when it is an item of that class. */
  lemma SelectMembers<T, C>(s: seq<T>, key: T -> C, c: C)
    ensures forall x :: x in Select(s, key, c) <==> x in s && key(x) == c
  {
    FilterMembers(s, (x: T) => key(x) == c);
  }

  lemma SelectConcat<T, C>(a: seq<T>, b: seq<T>, key: T -> C, c: C)
    ensures Select(a + b, key, c) == Select(a, key, c) + Select(b, key, c)
  {
    FilterConcat(a, b, (x: T) => key(x) == c);
  }

  lemma SelectSingle<T, C>(x: T, key: T -> C, c: C)
    ensures Select([x], key, c) == if key(x) == c then [x] else []
  {
    assert [x][..0] == [];
    assert Select([x], key, c) == Filter([], (y: T) => key(y) == c) + (if key(x) == c then [x] else []);
  }
}
