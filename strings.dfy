/** The string operations of Python's `str` and JavaScript's `String` that
    the modelled code relies on, over strings of Unicode scalar values. */
module Strings {
  import opened Wrappers

  // ---------------------------------------------------------------------
  // Prefixes, suffixes, containment

  predicate StartsWith(s: string, p: string) {
    |p| <= |s| && s[..|p|] == p
  }

  predicate EndsWith(s: string, p: string) {
    |p| <= |s| && s[|s| - |p|..] == p
  }

  /** Python's `sub in s`, JavaScript's `s.includes(sub)`. */
  predicate Contains(s: string, sub: string)
    decreases |s|
  {
    StartsWith(s, sub) || (s != [] && Contains(s[1..], sub))
  }

  lemma {:induction false} ContainsAt(s: string, sub: string, i: nat)
    requires i + |sub| <= |s| && s[i..i + |sub|] == sub
    ensures Contains(s, sub)
    decreases i
  {
    if i > 0 {
      assert s[1..][i - 1..i - 1 + |sub|] == s[i..i + |sub|];
      ContainsAt(s[1..], sub, i - 1);
    }
  }

  lemma {:induction false} ContainsConcat(a: string, b: string, sub: string)
    requires Contains(b, sub)
    ensures Contains(a + b, sub)
    decreases |a|
  {
    if a != [] {
      assert (a + b)[1..] == a[1..] + b;
      ContainsConcat(a[1..], b, sub);
      assert Contains((a + b)[1..], sub);
    } else {
      assert a + b == b;
    }
  }

  lemma {:induction false} ContainsPrefixPart(a: string, b: string, sub: string)
    requires Contains(a, sub)
    ensures Contains(a + b, sub)
    decreases |a|
  {
    if StartsWith(a, sub) {
      assert (a + b)[..|sub|] == a[..|sub|];
    } else {
      assert (a + b)[1..] == a[1..] + b;
      ContainsPrefixPart(a[1..], b, sub);
    }
  }

  /** Stated on its own so that it can be used where the strings involved
      are costly to unfold. */
  lemma ConcatAssoc(a: string, b: string, c: string)
    ensures a + (b + c) == (a + b) + c
  {
  }

  /** A single character is found in `s` exactly when it occurs in it. */
  lemma {:induction false} ContainsChar(s: string, c: char)
    ensures Contains(s, [c]) <==> c in s
    decreases |s|
  {
    if s != [] {
      ContainsChar(s[1..], c);
      assert s == [s[0]] + s[1..];
    }
  }

  // ---------------------------------------------------------------------
  // Replacement

  /** Python's `s.replace(pat, rep)` and JavaScript's `s.replace(/pat/g, rep)`
      for a non-empty literal pattern: leftmost, non-overlapping matches. */
  function ReplaceAll(s: string, pat: string, rep: string): string
    requires pat != []
    decreases |s|
  {
    if |s| < |pat| then s
    else if s[..|pat|] == pat then rep + ReplaceAll(s[|pat|..], pat, rep)
    else [s[0]] + ReplaceAll(s[1..], pat, rep)
  }

  /** A string that does not contain the pattern is left unchanged. */
  lemma {:induction false} ReplaceAllAbsent(s: string, pat: string, rep: string)
    requires pat != [] && !Contains(s, pat)
    ensures ReplaceAll(s, pat, rep) == s
    decreases |s|
  {
    if |s| >= |pat| {
      ReplaceAllAbsent(s[1..], pat, rep);
      assert [s[0]] + s[1..] == s;
    }
  }

  /** Every occurrence is removed: after deleting `pat`, a leading copy of it
      and the rest are treated alike. */
  lemma ReplaceAllLeading(pat: string, x: string, rep: string)
    requires pat != []
    ensures ReplaceAll(pat + x, pat, rep) == rep + ReplaceAll(x, pat, rep)
  {
    assert (pat + x)[..|pat|] == pat;
    assert (pat + x)[|pat|..] == x;
  }

  /** JavaScript's `s.replace('lit', rep)`: only the first occurrence. */
  function ReplaceFirst(s: string, pat: string, rep: string): string
    requires pat != []
    decreases |s|
  {
    if |s| < |pat| then s
    else if s[..|pat|] == pat then rep + s[|pat|..]
    else [s[0]] + ReplaceFirst(s[1..], pat, rep)
  }

  lemma {:induction false} ReplaceFirstAbsent(s: string, pat: string, rep: string)
    requires pat != [] && !Contains(s, pat)
    ensures ReplaceFirst(s, pat, rep) == s
    decreases |s|
  {
    if |s| >= |pat| {
      ReplaceFirstAbsent(s[1..], pat, rep);
      assert [s[0]] + s[1..] == s;
    }
  }

  /** With a one-character pattern, the first occurrence is the one after
      the longest prefix free of that character. */
  lemma {:induction false} ReplaceFirstAfter(a: string, c: char, b: string, rep: string)
    requires c !in a
    ensures ReplaceFirst(a + [c] + b, [c], rep) == a + rep + b
    decreases |a|
  {
    if a == [] {
      assert a + [c] + b == [c] + b;
      assert ([c] + b)[1..] == b;
    } else {
      assert (a + [c] + b)[1..] == a[1..] + [c] + b;
      ReplaceFirstAfter(a[1..], c, b, rep);
      assert [a[0]] + a[1..] == a;
    }
  }

  /** Replace every occurrence of one character by another. */
  function ReplaceChar(s: string, c: char, d: char): (r: string)
    ensures |r| == |s|
    ensures forall i :: 0 <= i < |s| ==> r[i] == (if s[i] == c then d else s[i])
  {
    seq(|s|, i requires 0 <= i < |s| => if s[i] == c then d else s[i])
  }

  // ---------------------------------------------------------------------
  // Splitting and joining

  /** Python's `s.split(sep)` and JavaScript's `s.split(sep)` for a
      one-character separator. */
  function Split(s: string, sep: char): (parts: seq<string>)
    ensures |parts| >= 1
    decreases |s|
  {
    if s == [] then [""]
    else if s[0] == sep then [""] + Split(s[1..], sep)
    else
      var rest := Split(s[1..], sep);
      [[s[0]] + rest[0]] + rest[1..]
  }

  /** The strings `f` gives for the characters of `s`, one after another. */
  function ConcatMap(s: string, f: char -> string): string
    decreases |s|
  {
    if s == [] then [] else f(s[0]) + ConcatMap(s[1..], f)
  }

  /** Mapping characters to strings commutes with concatenation. */
  lemma {:induction false} ConcatMapConcat(a: string, b: string, f: char -> string)
    ensures ConcatMap(a + b, f) == ConcatMap(a, f) + ConcatMap(b, f)
    decreases |a|
  {
    if a == [] {
      assert a + b == b;
    } else {
      ConcatMapConcat(a[1..], b, f);
      assert (a + b)[1..] == a[1..] + b && (a + b)[0] == a[0];
    }
  }

  /** Python's `sep.join(parts)` and JavaScript's `parts.join(sep)`. */
  function Join(parts: seq<string>, sep: string): string
    decreases |parts|
  {
    if parts == [] then ""
    else if |parts| == 1 then parts[0]
    else parts[0] + sep + Join(parts[1..], sep)
  }

  lemma {:induction false} SplitPartsLackSeparator(s: string, sep: char)
    ensures forall k :: 0 <= k < |Split(s, sep)| ==> sep !in Split(s, sep)[k]
    decreases |s|
  {
    if s != [] {
      SplitPartsLackSeparator(s[1..], sep);
    }
  }

  /** Joining the pieces with the separator gives the string back. */
  lemma {:induction false} JoinSplit(s: string, sep: char)
    ensures Join(Split(s, sep), [sep]) == s
    decreases |s|
  {
    if s != [] {
      JoinSplit(s[1..], sep);
      var rest := Split(s[1..], sep);
      if s[0] == sep {
        assert Split(s, sep) == [""] + rest;
        assert s == [sep] + s[1..];
      } else {
        var parts := [[s[0]] + rest[0]] + rest[1..];
        assert Split(s, sep) == parts;
        if |rest| == 1 {
          assert Join(parts, [sep]) == [s[0]] + rest[0];
        } else {
          assert parts[1..] == rest[1..];
          assert Join(rest, [sep]) == rest[0] + [sep] + Join(rest[1..], [sep]);
        }
        assert s == [s[0]] + s[1..];
      }
    }
  }

  /** Splitting a join of separator-free pieces gives back the pieces. */
  lemma {:induction false} SplitJoin(parts: seq<string>, sep: char)
    requires |parts| >= 1
    requires forall k :: 0 <= k < |parts| ==> sep !in parts[k]
    ensures Split(Join(parts, [sep]), sep) == parts
    decreases |parts|, |parts[0]|
  {
    if |parts| == 1 {
      SplitNoSeparator(parts[0], sep);
    } else if parts[0] == [] {
      var tail := parts[1..];
      SplitJoin(tail, sep);
      assert Join(parts, [sep]) == [sep] + Join(tail, [sep]);
      assert parts == [""] + tail;
    } else {
      var p0 := parts[0];
      var shorter := [p0[1..]] + parts[1..];
      assert forall k :: 0 <= k < |shorter| ==> sep !in shorter[k] by {
        forall k | 0 <= k < |shorter| ensures sep !in shorter[k] {
          if k == 0 { assert forall c :: c in p0[1..] ==> c in p0; } else { assert shorter[k] == parts[k]; }
        }
      }
      SplitJoin(shorter, sep);
      assert shorter[1..] == parts[1..];
      var j := Join(parts, [sep]);
      assert j == p0 + [sep] + Join(parts[1..], [sep]);
      assert Join(shorter, [sep]) == p0[1..] + [sep] + Join(parts[1..], [sep]);
      assert j[1..] == Join(shorter, [sep]);
      assert j[0] == p0[0] && p0[0] != sep;
      assert [p0[0]] + p0[1..] == p0;
    }
  }

  lemma {:induction false} SplitNoSeparator(s: string, sep: char)
    requires sep !in s
    ensures Split(s, sep) == [s]
    decreases |s|
  {
    if s != [] {
      SplitNoSeparator(s[1..], sep);
      assert [s[0]] + s[1..] == s;
    }
  }

  // ---------------------------------------------------------------------
  // Whitespace and trimming

  /** Python's `str.isspace()` for one character (also what `\s` matches in
      a `re` pattern over `str`). */
  predicate IsPySpace(c: char) {
    c == ' ' || ('\t' <= c <= '\r') || ('\U{1C}' <= c <= '\U{1F}') || c == '\U{85}'
    || c == '\U{A0}' || c == '\U{1680}' || ('\U{2000}' <= c <= '\U{200A}')
    || c == '\U{2028}' || c == '\U{2029}' || c == '\U{202F}' || c == '\U{205F}' || c == '\U{3000}'
  }

  /** ECMAScript WhiteSpace and LineTerminator, what `String.prototype.trim`
      removes. */
  predicate IsJsSpace(c: char) {
    c == ' ' || c == '\t' || c == '\U{B}' || c == '\U{C}' || c == '\n' || c == '\r'
    || c == '\U{A0}' || c == '\U{FEFF}' || c == '\U{1680}' || ('\U{2000}' <= c <= '\U{200A}')
    || c == '\U{2028}' || c == '\U{2029}' || c == '\U{202F}' || c == '\U{205F}' || c == '\U{3000}'
  }

  function TrimStart(s: string, ws: char -> bool): string
    decreases |s|
  {
    if s != [] && ws(s[0]) then TrimStart(s[1..], ws) else s
  }

  function TrimEnd(s: string, ws: char -> bool): string
    decreases |s|
  {
    if s != [] && ws(s[|s| - 1]) then TrimEnd(s[..|s| - 1], ws) else s
  }

  /** Python's `s.strip()` (with IsPySpace) and JavaScript's `s.trim()` (with
      IsJsSpace). */
  function Trim(s: string, ws: char -> bool): string {
    TrimEnd(TrimStart(s, ws), ws)
  }

  function PyStrip(s: string): string { Trim(s, IsPySpace) }
  function JsTrim(s: string): string { Trim(s, IsJsSpace) }

  predicate AllSpace(s: string, ws: char -> bool) {
    forall i :: 0 <= i < |s| ==> ws(s[i])
  }

  lemma {:induction false} TrimStartFront(s: string, ws: char -> bool)
    ensures TrimStart(s, ws) == [] <==> AllSpace(s, ws)
    ensures TrimStart(s, ws) != [] ==> !ws(TrimStart(s, ws)[0])
    ensures |TrimStart(s, ws)| <= |s| && TrimStart(s, ws) == s[|s| - |TrimStart(s, ws)|..]
    decreases |s|
  {
    if s != [] && ws(s[0]) {
      TrimStartFront(s[1..], ws);
      assert AllSpace(s, ws) <==> AllSpace(s[1..], ws) by {
        if AllSpace(s[1..], ws) {
          forall i | 0 <= i < |s| ensures ws(s[i]) { if i > 0 { assert s[i] == s[1..][i - 1]; } }
        }
      }
    }
  }

  lemma {:induction false} TrimEndBack(t: string, ws: char -> bool)
    ensures TrimEnd(t, ws) != [] ==> !ws(TrimEnd(t, ws)[|TrimEnd(t, ws)| - 1])
    ensures t != [] && !ws(t[0]) ==> TrimEnd(t, ws) != [] && TrimEnd(t, ws)[0] == t[0]
    ensures |TrimEnd(t, ws)| <= |t| && TrimEnd(t, ws) == t[..|TrimEnd(t, ws)|]
    decreases |t|
  {
    if t != [] && ws(t[|t| - 1]) {
      TrimEndBack(t[..|t| - 1], ws);
    }
  }

  /** The result of trimming is a slice of the input whose ends are not
      whitespace, and it is empty exactly when every character was. */
  lemma TrimShape(s: string, ws: char -> bool)
    ensures Trim(s, ws) == [] <==> AllSpace(s, ws)
    ensures Trim(s, ws) != [] ==> !ws(Trim(s, ws)[0]) && !ws(Trim(s, ws)[|Trim(s, ws)| - 1])
  {
    TrimStartFront(s, ws);
    TrimEndBack(TrimStart(s, ws), ws);
  }

  /** A string whose ends are not whitespace is its own trim. */
  lemma TrimNoop(s: string, ws: char -> bool)
    requires s != [] ==> !ws(s[0]) && !ws(s[|s| - 1])
    ensures Trim(s, ws) == s
  {
  }

  /** Trimming twice is trimming once. */
  lemma TrimIdempotent(s: string, ws: char -> bool)
    ensures Trim(Trim(s, ws), ws) == Trim(s, ws)
  {
    TrimShape(s, ws);
    TrimNoop(Trim(s, ws), ws);
  }

  // ---------------------------------------------------------------------
  // Decimal numbers

  predicate IsDigit(c: char) { '0' <= c <= '9' }

  predicate AllDigits(s: string) { forall i :: 0 <= i < |s| ==> IsDigit(s[i]) }

  function DigitChar(d: nat): (c: char)
    requires d < 10
    ensures IsDigit(c) && c as int - '0' as int == d
  {
    ('0' as int + d) as char
  }

  /** Python's `str(n)` and JavaScript's `String(n)` for a natural number. */
  function NatToString(n: nat): (s: string)
    decreases n
  {
    if n < 10 then [DigitChar(n)] else NatToString(n / 10) + [DigitChar(n % 10)]
  }

  /** Whether a string ends like an ISO time's `.mmmZ`: the
      `/\.\d{3}Z$/` of the JavaScript code. */
  predicate EndsInMillis(s: string) {
    |s| >= 5 && s[|s| - 5] == '.' && IsDigit(s[|s| - 4]) && IsDigit(s[|s| - 3]) && IsDigit(s[|s| - 2]) && s[|s| - 1] == 'Z'
  }

  /** `s.replace(/\.\d{3}Z$/, rep)`. */
  function ReplaceMillis(s: string, rep: string): string {
    if EndsInMillis(s) then s[..|s| - 5] + rep else s
  }

  /** The value of a run of ASCII digits. */
  function DigitsValue(s: string): nat
    requires AllDigits(s)
    decreases |s|
  {
    if s == [] then 0 else DigitsValue(s[..|s| - 1]) * 10 + (s[|s| - 1] as int - '0' as int)
  }

  /** The length of the leading run of digits. */
  function DigitRun(t: string): (n: nat)
    ensures n <= |t|
    decreases |t|
  {
    if t == [] || !IsDigit(t[0]) then 0 else DigitRun(t[1..]) + 1
  }

  lemma {:induction false} DigitRunStops(d: string, c: char, x: string)
    requires AllDigits(d) && !IsDigit(c)
    ensures DigitRun(d + [c] + x) == |d|
    decreases |d|
  {
    if d != [] {
      assert (d + [c] + x)[1..] == d[1..] + [c] + x;
      DigitRunStops(d[1..], c, x);
    } else {
      assert d + [c] + x == [c] + x;
    }
  }

  lemma {:induction false} NatToStringDigits(n: nat)
    ensures |NatToString(n)| >= 1 && AllDigits(NatToString(n))
    ensures DigitsValue(NatToString(n)) == n
    ensures n >= 10 ==> NatToString(n)[0] != '0'
    decreases n
  {
    if n >= 10 {
      NatToStringDigits(n / 10);
      var s := NatToString(n);
      assert s[..|s| - 1] == NatToString(n / 10);
      assert s[|s| - 1] == DigitChar(n % 10);
    }
  }

  lemma {:induction false} NatToStringLength(n: nat)
    ensures n < 10 ==> |NatToString(n)| == 1
    ensures 10 <= n < 100 ==> |NatToString(n)| == 2
    ensures 100 <= n < 1000 ==> |NatToString(n)| == 3
    ensures 1000 <= n ==> |NatToString(n)| >= 4
    decreases n
  {
    if n >= 10 { NatToStringLength(n / 10); }
  }

  /** Python's `f"{n:03d}"`: at least three digits, zero-padded. */
  function Pad3(n: nat): string {
    var d := NatToString(n);
    if |d| < 3 then seq(3 - |d|, _ => '0') + d else d
  }

  lemma Pad3Shape(n: nat)
    ensures AllDigits(Pad3(n))
    ensures n < 1000 ==> |Pad3(n)| == 3
    ensures n >= 1000 ==> |Pad3(n)| >= 4
  {
    NatToStringDigits(n);
    NatToStringLength(n);
  }

  lemma Pad3Value(n: nat)
    ensures AllDigits(Pad3(n)) && DigitsValue(Pad3(n)) == n
  {
    NatToStringDigits(n);
    var d := NatToString(n);
    if |d| < 3 {
      LeadingZeros(3 - |d|, d);
    }
  }

  lemma {:induction false} LeadingZeros(k: nat, d: string)
    requires AllDigits(d)
    ensures AllDigits(seq(k, _ => '0') + d) && DigitsValue(seq(k, _ => '0') + d) == DigitsValue(d)
    decreases |d|
  {
    var z := seq(k, _ => '0');
    if d == [] {
      assert z + d == z;
      ZerosValue(k);
    } else {
      LeadingZeros(k, d[..|d| - 1]);
      assert (z + d)[..|z + d| - 1] == z + d[..|d| - 1];
    }
  }

  lemma {:induction false} ZerosValue(k: nat)
    ensures AllDigits(seq(k, _ => '0')) && DigitsValue(seq(k, _ => '0')) == 0
    decreases k
  {
    if k > 0 {
      ZerosValue(k - 1);
      assert seq(k, _ => '0')[..k - 1] == seq(k - 1, _ => '0');
    }
  }

  /** Distinct numbers have distinct paddings (also from 1000 on, where the
      padding has more than three digits). */
  lemma Pad3Injective(m: nat, n: nat)
    requires m != n
    ensures Pad3(m) != Pad3(n)
  {
    Pad3Value(m);
    Pad3Value(n);
  }

  /** Python's `int(s)` for base 10 over ASCII digits: surrounding whitespace
      and one sign are accepted, and single underscores between digits. */
  function PyInt(s: string): Option<int> {
    var t := PyStrip(s);
    if t == [] then None
    else
      var neg := t[0] == '-';
      var body := if t[0] == '-' || t[0] == '+' then t[1..] else t;
      if !PyDigitGroups(body) then None
      else
        var v: int := DigitsValue(RemoveUnderscores(body));
        Some(if neg then -v else v)
  }

  /** Digits, optionally separated by single underscores. */
  predicate PyDigitGroups(b: string) {
    && b != []
    && IsDigit(b[0]) && IsDigit(b[|b| - 1])
    && (forall i :: 0 <= i < |b| ==> IsDigit(b[i]) || b[i] == '_')
    && (forall i :: 0 <= i < |b| - 1 ==> !(b[i] == '_' && b[i + 1] == '_'))
  }

  function RemoveUnderscores(b: string): (r: string)
    requires forall i :: 0 <= i < |b| ==> IsDigit(b[i]) || b[i] == '_'
    ensures AllDigits(r)
    decreases |b|
  {
    if b == [] then [] else (if b[0] == '_' then [] else [b[0]]) + RemoveUnderscores(b[1..])
  }

  lemma RemoveUnderscoresDigits(b: string)
    requires AllDigits(b)
    ensures RemoveUnderscores(b) == b
  {
    if b != [] {
      RemoveUnderscoresDigits(b[1..]);
      assert [b[0]] + b[1..] == b;
    }
  }

  /** Plain decimal digits, with no sign or padding, parse to their value. */
  lemma PyIntOfDigits(s: string)
    requires s != [] && AllDigits(s)
    ensures PyInt(s) == Some(DigitsValue(s))
  {
    DigitIsPlain(s[0]);
    DigitIsPlain(s[|s| - 1]);
    TrimNoop(s, IsPySpace);
    assert PyStrip(s) == s;
    assert PyDigitGroups(s);
    RemoveUnderscoresDigits(s);
  }

  lemma DigitIsPlain(c: char)
    requires IsDigit(c)
    ensures !IsPySpace(c) && c != '-' && c != '+'
  {
  }

  // ---------------------------------------------------------------------
  // ASCII case

  /** JavaScript's `toUpperCase()` restricted to ASCII letters. */
  function AsciiUpper(s: string): (r: string)
    ensures |r| == |s|
  {
    seq(|s|, i requires 0 <= i < |s| => if 'a' <= s[i] <= 'z' then (s[i] as int - 32) as char else s[i])
  }
}
