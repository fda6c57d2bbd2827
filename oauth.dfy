/** OAuth 1.0a signing for the posting CLI (`core/oauth.js`): the
    percent-encoding of RFC 3986 (section 2.1 for the `%XX` triplets,
    section 2.3 for the unreserved characters), the signature base string
    and signing key of RFC 5849 (sections 3.4.1 and 3.4.2), and the
    `Authorization` header. HMAC-SHA1 with base64 is a parameter. */
module OAuth {
  import opened Wrappers
  import opened Strings
  import opened Sorting
  import JsValues

  type Byte = b: int | 0 <= b < 256

  // ---------------------------------------------------------------------
  // UTF-8

  /** The UTF-8 bytes of one Unicode scalar value. */
  function Utf8(c: char): (bs: seq<Byte>)
    ensures 1 <= |bs| <= 4
  {
    var n := c as int;
    if n < 0x80 then [n]
    else if n < 0x800 then [0xC0 + n / 64, 0x80 + n % 64]
    else if n < 0x10000 then [0xE0 + n / 4096, 0x80 + (n / 64) % 64, 0x80 + n % 64]
    else [0xF0 + n / 262144, 0x80 + (n / 4096) % 64, 0x80 + (n / 64) % 64, 0x80 + n % 64]
  }

  function Utf8Bytes(s: string): seq<Byte>
    decreases |s|
  {
    if s == [] then [] else Utf8(s[0]) + Utf8Bytes(s[1..])
  }

  predicate Continuation(b: Byte) { 0x80 <= b < 0xC0 }

  /** The six payload bits of a continuation byte. */
  function Low(b: Byte): int { b as int - 0x80 }

  /** Reads the code point that the bytes start with, and how many bytes it
      takes; `None` for a malformed start. */
  function DecodeFirst(bs: seq<Byte>): Option<(int, nat)>
    requires bs != []
  {
    var b0: int := bs[0];
    if b0 < 0x80 then Some((b0, 1))
    else if 0xC0 <= b0 < 0xE0 && |bs| >= 2 && Continuation(bs[1]) then
      Some(((b0 - 0xC0) * 64 + Low(bs[1]), 2))
    else if 0xE0 <= b0 < 0xF0 && |bs| >= 3 && Continuation(bs[1]) && Continuation(bs[2]) then
      Some(((b0 - 0xE0) * 4096 + Low(bs[1]) * 64 + Low(bs[2]), 3))
    else if 0xF0 <= b0 < 0xF8 && |bs| >= 4 && Continuation(bs[1]) && Continuation(bs[2]) && Continuation(bs[3]) then
      Some(((b0 - 0xF0) * 262144 + Low(bs[1]) * 4096 + Low(bs[2]) * 64 + Low(bs[3]), 4))
    else None
  }

  predicate IsScalar(n: int) { 0 <= n < 0xD800 || 0xE000 <= n < 0x110000 }

  /** UTF-8 decoding. */
  function Utf8Decode(bs: seq<Byte>): Option<string>
    decreases |bs|
  {
    if bs == [] then Some([])
    else
      var first := DecodeFirst(bs);
      if first.None? || !IsScalar(first.value.0) || first.value.1 > |bs| then None
      else
        var rest := Utf8Decode(bs[first.value.1..]);
        if rest.None? then None else Some([first.value.0 as char] + rest.value)
  }

  lemma Utf8First(c: char, rest: seq<Byte>)
    ensures DecodeFirst(Utf8(c) + rest) == Some((c as int, |Utf8(c)|))
  {
    var n := c as int;
    var bs := Utf8(c) + rest;
    if n < 0x80 {
    } else if n < 0x800 {
      assert bs[0] == 0xC0 + n / 64 && bs[1] == 0x80 + n % 64;
    } else if n < 0x10000 {
      assert bs[0] == 0xE0 + n / 4096 && bs[1] == 0x80 + (n / 64) % 64 && bs[2] == 0x80 + n % 64;
      Digits64(n, 4096);
    } else {
      assert bs[0] == 0xF0 + n / 262144 && bs[1] == 0x80 + (n / 4096) % 64;
      assert bs[2] == 0x80 + (n / 64) % 64 && bs[3] == 0x80 + n % 64;
      Digits64(n, 4096);
      Digits64(n / 64, 4096);
      Digits64(n, 262144);
    }
  }

  /** Splitting a number into six-bit groups. */
  lemma Digits64(n: nat, m: nat)
    requires m == 4096 || m == 262144
    ensures m == 4096 ==> n == (n / 4096) * 4096 + ((n / 64) % 64) * 64 + n % 64
    ensures m == 262144 ==> n == (n / 262144) * 262144 + ((n / 4096) % 64) * 4096 + ((n / 64) % 64) * 64 + n % 64
  {
    var q := n / 64;
    assert n == q * 64 + n % 64;
    assert q == (q / 64) * 64 + q % 64;
    assert q / 64 == n / 4096;
    var r := q / 64;
    assert r == (r / 64) * 64 + r % 64;
    assert r / 64 == n / 262144;
  }

  /** Decoding the UTF-8 bytes of a string gives the string back. */
  lemma {:induction false} Utf8RoundTrip(s: string)
    ensures Utf8Decode(Utf8Bytes(s)) == Some(s)
    decreases |s|
  {
    if s != [] {
      Utf8RoundTrip(s[1..]);
      var bs := Utf8Bytes(s);
      Utf8First(s[0], Utf8Bytes(s[1..]));
      assert bs[|Utf8(s[0])|..] == Utf8Bytes(s[1..]);
      assert IsScalar(s[0] as int);
      assert [s[0]] + s[1..] == s;
    }
  }

  /** Different strings have different UTF-8 bytes. */
  lemma Utf8Injective(a: string, b: string)
    requires Utf8Bytes(a) == Utf8Bytes(b)
    ensures a == b
  {
    Utf8RoundTrip(a);
    Utf8RoundTrip(b);
  }

  // ---------------------------------------------------------------------
  // percentEncode

  /** An uppercase hexadecimal digit. */
  function HexUpper(d: nat): (c: char)
    requires d < 16
  {
    if d < 10 then ('0' as int + d) as char else ('A' as int + d - 10) as char
  }

  function HexLower(d: nat): (c: char)
    requires d < 16
  {
    if d < 10 then ('0' as int + d) as char else ('a' as int + d - 10) as char
  }

  /** JavaScript's `n.toString(16)`. */
  function JsHex(n: nat): string
    decreases n
  {
    if n < 16 then [HexLower(n)] else JsHex(n / 16) + [HexLower(n % 16)]
  }

  /** The unreserved characters of section 2.3 of RFC 3986. */
  predicate Unreserved(c: char) {
    ('A' <= c <= 'Z') || ('a' <= c <= 'z') || ('0' <= c <= '9') || c == '-' || c == '.' || c == '_' || c == '~'
  }

  /** The characters `!'()*` that `encodeURIComponent` keeps but RFC 3986
      reserves. */
  predicate IsMark(c: char) {
    c == '!' || c == '\'' || c == '(' || c == ')' || c == '*'
  }

  /** Each byte as `%` and two uppercase hexadecimal digits (section 2.1 of
      RFC 3986). */
  function EscapeBytes(bs: seq<Byte>): string
    decreases |bs|
  {
    if bs == [] then [] else ['%', HexUpper(bs[0] / 16), HexUpper(bs[0] % 16)] + EscapeBytes(bs[1..])
  }

  /** JavaScript's `encodeURIComponent` over Unicode scalar values. */
  function EncodeURIComponent(s: string): string
    decreases |s|
  {
    if s == [] then []
    else (if Unreserved(s[0]) || IsMark(s[0]) then [s[0]] else EscapeBytes(Utf8(s[0]))) + EncodeURIComponent(s[1..])
  }

  /** `.replace(/[!'()*]/g, c => '%' + c.charCodeAt(0).toString(16).toUpperCase())`. */
  function ReplaceMarks(s: string): string
    decreases |s|
  {
    if s == [] then []
    else (if IsMark(s[0]) then "%" + AsciiUpper(JsHex(s[0] as int)) else [s[0]]) + ReplaceMarks(s[1..])
  }

  /** `percentEncode`. */
  function PercentEncode(s: string): string {
    ReplaceMarks(EncodeURIComponent(s))
  }

  /** The encoding RFC 3986 asks for, one character at a time: unreserved
      characters stay, every other character becomes its UTF-8 bytes as
      `%XX` triplets. */
  function EncodeChar(c: char): string {
    if Unreserved(c) then [c] else EscapeBytes(Utf8(c))
  }

  function EncodeEach(s: string): string {
    ConcatMap(s, EncodeChar)
  }

  lemma EncodeEachCons(s: string)
    requires s != []
    ensures EncodeEach(s) == EncodeChar(s[0]) + EncodeEach(s[1..])
  {
  }

  lemma {:induction false} ReplaceMarksConcat(a: string, b: string)
    ensures ReplaceMarks(a + b) == ReplaceMarks(a) + ReplaceMarks(b)
    decreases |a|
  {
    if a != [] {
      ReplaceMarksConcat(a[1..], b);
      assert (a + b)[1..] == a[1..] + b && (a + b)[0] == a[0];
      var head := if IsMark(a[0]) then "%" + AsciiUpper(JsHex(a[0] as int)) else [a[0]];
      ConcatAssoc(head, ReplaceMarks(a[1..]), ReplaceMarks(b));
    } else {
      assert a + b == b;
    }
  }

  /** Text without marks is left alone by the replacement. */
  lemma {:induction false} ReplaceMarksNone(s: string)
    requires forall i :: 0 <= i < |s| ==> !IsMark(s[i])
    ensures ReplaceMarks(s) == s
    decreases |s|
  {
    if s != [] {
      ReplaceMarksNone(s[1..]);
    }
  }

  /** Escapes are `%` and hexadecimal digits only. */
  lemma {:induction false} EscapeAlphabet(bs: seq<Byte>)
    ensures forall i :: 0 <= i < |EscapeBytes(bs)| ==> EscapeBytes(bs)[i] == '%' || IsUpperHex(EscapeBytes(bs)[i])
    ensures |EscapeBytes(bs)| == 3 * |bs|
    decreases |bs|
  {
    if bs != [] {
      EscapeAlphabet(bs[1..]);
    }
  }

  predicate IsUpperHex(c: char) { ('0' <= c <= '9') || ('A' <= c <= 'F') }

  /** The replacement writes a mark as its one UTF-8 byte, escaped. */
  lemma MarkEscape(c: char)
    requires IsMark(c)
    ensures "%" + AsciiUpper(JsHex(c as int)) == EscapeBytes(Utf8(c))
  {
    var n := c as int;
    assert n / 16 == 2;
    assert JsHex(n) == JsHex(2) + [HexLower(n % 16)];
  }

  /** `percentEncode` is the encoding of RFC 3986. */
  lemma {:induction false} PercentEncodeEach(s: string)
    ensures PercentEncode(s) == EncodeEach(s)
    decreases |s|
  {
    if s != [] {
      var c := s[0];
      var piece := if Unreserved(c) || IsMark(c) then [c] else EscapeBytes(Utf8(c));
      ReplaceMarksConcat(piece, EncodeURIComponent(s[1..]));
      PercentEncodeEach(s[1..]);
      if IsMark(c) {
        MarkEscape(c);
        assert ReplaceMarks(piece) == EscapeBytes(Utf8(c));
      } else if Unreserved(c) {
        assert ReplaceMarks(piece) == [c];
      } else {
        EscapeAlphabet(Utf8(c));
        ReplaceMarksNone(piece);
      }
    }
  }

  lemma EncodeEachConcat(a: string, b: string)
    ensures EncodeEach(a + b) == EncodeEach(a) + EncodeEach(b)
  {
    ConcatMapConcat(a, b, EncodeChar);
  }

  /** The encoding works character by character: the empty string stays
      empty and a concatenation is encoded piece by piece. */
  lemma PercentEncodeConcat(a: string, b: string)
    ensures PercentEncode("") == ""
    ensures PercentEncode(a + b) == PercentEncode(a) + PercentEncode(b)
  {
    PercentEncodeEach(a);
    PercentEncodeEach(b);
    PercentEncodeEach(a + b);
    EncodeEachConcat(a, b);
  }

  /** A character is left as it is exactly when it is unreserved; any other
      character becomes one `%XX` triplet per UTF-8 byte. */
  lemma PercentEncodeChar(c: char)
    ensures PercentEncode([c]) == [c] <==> Unreserved(c)
    ensures !Unreserved(c) ==> PercentEncode([c]) == EscapeBytes(Utf8(c)) && |PercentEncode([c])| == 3 * |Utf8(c)|
  {
    PercentEncodeEach([c]);
    EncodeEachCons([c]);
    assert EncodeEach([c]) == EncodeChar(c);
    if !Unreserved(c) {
      EscapeAlphabet(Utf8(c));
      assert EscapeBytes(Utf8(c))[0] == '%';
    }
  }

  /** The output holds only unreserved characters, `%` and uppercase
      hexadecimal digits; in particular no `&`, `=`, `"` or `,`. */
  lemma {:induction false} EncodeAlphabet(s: string)
    ensures forall i :: 0 <= i < |EncodeEach(s)| ==> Unreserved(EncodeEach(s)[i]) || EncodeEach(s)[i] == '%'
    decreases |s|
  {
    if s != [] {
      EncodeAlphabet(s[1..]);
      EncodeEachCons(s);
      EscapeAlphabet(Utf8(s[0]));
    }
  }

  lemma PercentEncodeAlphabet(s: string)
    ensures forall c :: c in PercentEncode(s) ==> Unreserved(c) || c == '%'
    ensures '&' !in PercentEncode(s) && '=' !in PercentEncode(s) && '"' !in PercentEncode(s) && ',' !in PercentEncode(s)
  {
    PercentEncodeEach(s);
    EncodeAlphabet(s);
  }

  // ---------------------------------------------------------------------
  // Percent-decoding (section 2.1 of RFC 3986)

  predicate IsHexDigit(c: char) { ('0' <= c <= '9') || ('A' <= c <= 'F') || ('a' <= c <= 'f') }

  function HexValue(c: char): (v: nat)
    requires IsHexDigit(c)
    ensures v < 16
  {
    if c <= '9' then c as int - '0' as int else if c <= 'F' then c as int - 'A' as int + 10 else c as int - 'a' as int + 10
  }

  /** The bytes that an encoded text stands for: a triplet is its byte, an
      ASCII character its code; anything else is malformed. */
  function PercentDecode(t: string): Option<seq<Byte>>
    decreases |t|
  {
    if t == [] then Some([])
    else if t[0] == '%' then
      if |t| >= 3 && IsHexDigit(t[1]) && IsHexDigit(t[2]) then
        var rest := PercentDecode(t[3..]);
        if rest.None? then None else Some([HexValue(t[1]) * 16 + HexValue(t[2])] + rest.value)
      else None
    else if (t[0] as int) < 128 then
      var rest := PercentDecode(t[1..]);
      if rest.None? then None else Some([t[0] as int] + rest.value)
    else None
  }

  lemma HexDigitValue(d: nat)
    requires d < 16
    ensures IsHexDigit(HexUpper(d)) && HexValue(HexUpper(d)) == d
  {}

  lemma DecodeTriplet(b: Byte, u: string)
    requires PercentDecode(u).Some?
    ensures PercentDecode(['%', HexUpper(b / 16), HexUpper(b % 16)] + u) == Some([b] + PercentDecode(u).value)
  {
    var t := ['%', HexUpper(b / 16), HexUpper(b % 16)] + u;
    HexDigitValue(b / 16);
    HexDigitValue(b % 16);
    assert t[1] == HexUpper(b / 16) && t[2] == HexUpper(b % 16);
    assert t[3..] == u;
  }

  lemma {:induction false} DecodeEscapes(bs: seq<Byte>, rest: string)
    requires PercentDecode(rest).Some?
    ensures PercentDecode(EscapeBytes(bs) + rest) == Some(bs + PercentDecode(rest).value)
    decreases |bs|
  {
    if bs == [] {
      assert EscapeBytes(bs) + rest == rest;
      assert bs + PercentDecode(rest).value == PercentDecode(rest).value;
    } else {
      var b := bs[0];
      DecodeEscapes(bs[1..], rest);
      var u := EscapeBytes(bs[1..]) + rest;
      ConcatAssoc(['%', HexUpper(b / 16), HexUpper(b % 16)], EscapeBytes(bs[1..]), rest);
      DecodeTriplet(b, u);
      assert [b] + (bs[1..] + PercentDecode(rest).value) == bs + PercentDecode(rest).value;
    }
  }

  /** Decoding the encoding of a string gives its UTF-8 bytes. */
  lemma {:induction false} DecodeEncode(s: string)
    ensures PercentDecode(EncodeEach(s)) == Some(Utf8Bytes(s))
    decreases |s|
  {
    if s != [] {
      DecodeEncode(s[1..]);
      EncodeEachCons(s);
      var rest := EncodeEach(s[1..]);
      if Unreserved(s[0]) {
        var t := [s[0]] + rest;
        assert t[1..] == rest;
        assert Utf8(s[0]) == [s[0] as int];
      } else {
        DecodeEscapes(Utf8(s[0]), rest);
      }
    }
  }

  /** `percentEncode` loses nothing: different strings have different
      encodings. */
  lemma PercentEncodeInjective(a: string, b: string)
    requires PercentEncode(a) == PercentEncode(b)
    ensures a == b
  {
    PercentEncodeEach(a);
    PercentEncodeEach(b);
    DecodeEncode(a);
    DecodeEncode(b);
    Utf8Injective(a, b);
  }

  /** A string of unreserved characters is its own encoding. */
  lemma {:induction false} EncodeUnreserved(s: string)
    requires forall i :: 0 <= i < |s| ==> Unreserved(s[i])
    ensures PercentEncode(s) == s
    decreases |s|
  {
    PercentEncodeEach(s);
    if s != [] {
      EncodeUnreserved(s[1..]);
      PercentEncodeEach(s[1..]);
      assert s == [s[0]] + s[1..];
    }
  }

  // ---------------------------------------------------------------------
  // Signature base string and signing key (sections 3.4.1 and 3.4.2 of
  // RFC 5849)

  /** A JavaScript object of string parameters: its key and value pairs in
      insertion order. */
  type Params = seq<(string, string)>

  /** Pairs compared by key, as `Object.keys(params).sort()` compares. */
  predicate KeyLe(p: (string, string), q: (string, string)) {
    StrLe(p.0, q.0)
  }

  lemma KeyLeIsTotalPreorder()
    ensures TotalPreorder(KeyLe)
  {
    forall p, q ensures KeyLe(p, q) || KeyLe(q, p) { StrLeTotal(p.0, q.0); }
    forall p, q, r | KeyLe(p, q) && KeyLe(q, r) ensures KeyLe(p, r) { StrLeTransitive(p.0, q.0, r.0); }
  }

  /** The pairs in the order of their sorted keys. */
  function SortedParams(params: Params): (r: Params)
    ensures SortedBy(r, KeyLe) && multiset(r) == multiset(params) && |r| == |params|
  {
    KeyLeIsTotalPreorder();
    var r := Sort(params, KeyLe);
    assert |r| == |multiset(r)| == |params|;
    r
  }

  /** `${percentEncode(key)}=${percentEncode(value)}`. */
  function ParamEntry(p: (string, string)): string {
    PercentEncode(p.0) + "=" + PercentEncode(p.1)
  }

  function ParamEntries(params: Params): (es: seq<string>)
    ensures |es| == |params| && forall i :: 0 <= i < |params| ==> es[i] == ParamEntry(params[i])
  {
    seq(|params|, i requires 0 <= i < |params| => ParamEntry(params[i]))
  }

  /** The normalized parameter string: the encoded pairs sorted by key and
      joined by `&`. */
  function ParamString(params: Params): string {
    Join(ParamEntries(SortedParams(params)), "&")
  }

  /** The signature base string: the uppercased method, the encoded URL and
      the encoded parameter string, joined by `&`. */
  function BaseString(httpMethod: string, url: string, params: Params): string {
    Join([AsciiUpper(httpMethod), PercentEncode(url), PercentEncode(ParamString(params))], "&")
  }

  /** The signing key; a missing token secret counts as the empty string. */
  function SigningKey(consumerSecret: string, tokenSecret: Option<string>): string {
    PercentEncode(consumerSecret) + "&" + PercentEncode(if tokenSecret.Some? then tokenSecret.value else "")
  }

  /** `generateOAuthSignature`: `hmac(key, text)` stands for HMAC-SHA1 of
      `text` under `key`, in base64. */
  function Signature(httpMethod: string, url: string, params: Params, consumerSecret: string,
                     tokenSecret: Option<string>, hmac: (string, string) -> string): string
  {
    hmac(SigningKey(consumerSecret, tokenSecret), BaseString(httpMethod, url, params))
  }

  /** The order in which an object's keys were inserted does not matter: the
      same pairs give the same parameter string, base string and signature. */
  lemma ParamsOrderIrrelevant(p: Params, q: Params, httpMethod: string, url: string, consumerSecret: string,
                              tokenSecret: Option<string>, hmac: (string, string) -> string)
    requires Distinct(JsValues.KeysOf(p))
    requires multiset(p) == multiset(q)
    ensures SortedParams(p) == SortedParams(q)
    ensures ParamString(p) == ParamString(q)
    ensures BaseString(httpMethod, url, p) == BaseString(httpMethod, url, q)
    ensures Signature(httpMethod, url, p, consumerSecret, tokenSecret, hmac) == Signature(httpMethod, url, q, consumerSecret, tokenSecret, hmac)
  {
    var sp, sq := SortedParams(p), SortedParams(q);
    forall x, y | x in sp && y in sp && KeyLe(x, y) && KeyLe(y, x) ensures x == y {
      assert x in multiset(p) && y in multiset(p);
      var i :| 0 <= i < |p| && p[i] == x;
      var j :| 0 <= j < |p| && p[j] == y;
      StrLeAntisymmetric(x.0, y.0);
      assert JsValues.KeysOf(p)[i] == JsValues.KeysOf(p)[j];
    }
    SortedUnique(sp, sq, KeyLe);
  }

  lemma EntryLacks(p: (string, string))
    ensures '&' !in ParamEntry(p)
    ensures Split(ParamEntry(p), '=') == [PercentEncode(p.0), PercentEncode(p.1)]
  {
    PercentEncodeAlphabet(p.0);
    PercentEncodeAlphabet(p.1);
    SplitJoin([PercentEncode(p.0), PercentEncode(p.1)], '=');
    assert Join([PercentEncode(p.0), PercentEncode(p.1)], "=") == ParamEntry(p);
  }

  /** The parameter string splits back at `&` into its entries, in key
      order, and each entry at `=` into the encoded key and value. */
  lemma ParamStringSplit(params: Params)
    ensures params == [] ==> ParamString(params) == ""
    ensures params != [] ==> Split(ParamString(params), '&') == ParamEntries(SortedParams(params))
    ensures forall i :: 0 <= i < |params| ==>
      Split(ParamEntries(SortedParams(params))[i], '=') == [PercentEncode(SortedParams(params)[i].0), PercentEncode(SortedParams(params)[i].1)]
  {
    var es := ParamEntries(SortedParams(params));
    if params != [] {
      forall k | 0 <= k < |es| ensures '&' !in es[k] { EntryLacks(SortedParams(params)[k]); }
      SplitJoin(es, '&');
    }
    forall i | 0 <= i < |params| ensures Split(es[i], '=') == [PercentEncode(SortedParams(params)[i].0), PercentEncode(SortedParams(params)[i].1)] {
      EntryLacks(SortedParams(params)[i]);
    }
  }

  lemma AsciiUpperKeeps(s: string, c: char)
    requires c !in s && !('a' <= c <= 'z') && !('A' <= c <= 'Z')
    ensures c !in AsciiUpper(s)
  {
    forall i | 0 <= i < |s| ensures AsciiUpper(s)[i] != c {
      assert s[i] != c;
    }
  }

  /** The base string splits back at `&` into the uppercased method, the
      encoded URL and the encoded parameter string, and the last decodes to
      the UTF-8 bytes of the parameter string. */
  lemma BaseStringSplit(httpMethod: string, url: string, params: Params)
    requires '&' !in httpMethod
    ensures Split(BaseString(httpMethod, url, params), '&') == [AsciiUpper(httpMethod), PercentEncode(url), PercentEncode(ParamString(params))]
    ensures PercentDecode(PercentEncode(ParamString(params))) == Some(Utf8Bytes(ParamString(params)))
  {
    AsciiUpperKeeps(httpMethod, '&');
    PercentEncodeAlphabet(url);
    PercentEncodeAlphabet(ParamString(params));
    var parts := [AsciiUpper(httpMethod), PercentEncode(url), PercentEncode(ParamString(params))];
    forall k | 0 <= k < 3 ensures '&' !in parts[k] {}
    SplitJoin(parts, '&');
    PercentEncodeEach(ParamString(params));
    DecodeEncode(ParamString(params));
  }

  /** The signing key splits back at `&` into the two encoded secrets, so it
      determines both; an omitted token secret is the empty one. */
  lemma SigningKeyParts(consumerSecret: string, tokenSecret: Option<string>)
    ensures var t := if tokenSecret.Some? then tokenSecret.value else "";
      Split(SigningKey(consumerSecret, tokenSecret), '&') == [PercentEncode(consumerSecret), PercentEncode(t)]
    ensures SigningKey(consumerSecret, None) == SigningKey(consumerSecret, Some("")) == PercentEncode(consumerSecret) + "&"
  {
    var t := if tokenSecret.Some? then tokenSecret.value else "";
    PercentEncodeAlphabet(consumerSecret);
    PercentEncodeAlphabet(t);
    SplitJoin([PercentEncode(consumerSecret), PercentEncode(t)], '&');
    assert Join([PercentEncode(consumerSecret), PercentEncode(t)], "&") == SigningKey(consumerSecret, tokenSecret);
    PercentEncodeConcat("", "");
  }

  lemma SigningKeyInjective(c1: string, t1: string, c2: string, t2: string)
    requires SigningKey(c1, Some(t1)) == SigningKey(c2, Some(t2))
    ensures c1 == c2 && t1 == t2
  {
    SigningKeyParts(c1, Some(t1));
    SigningKeyParts(c2, Some(t2));
    PercentEncodeInjective(c1, c2);
    PercentEncodeInjective(t1, t2);
  }

  // ---------------------------------------------------------------------
  // The Authorization header

  /** Node's `buf.toString('hex')`: two lowercase hexadecimal digits per
      byte. */
  function HexBytes(bs: seq<Byte>): (h: string)
    ensures |h| == 2 * |bs|
    decreases |bs|
  {
    if bs == [] then [] else [HexLower(bs[0] / 16), HexLower(bs[0] % 16)] + HexBytes(bs[1..])
  }

  lemma {:induction false} HexBytesInjective(a: seq<Byte>, b: seq<Byte>)
    requires |a| == |b| && HexBytes(a) == HexBytes(b)
    ensures a == b
    decreases |a|
  {
    if a != [] {
      var ha, hb := HexBytes(a), HexBytes(b);
      assert ha[0] == hb[0] && ha[1] == hb[1];
      assert a[0] / 16 == b[0] / 16 && a[0] % 16 == b[0] % 16;
      assert ha[2..] == HexBytes(a[1..]) && hb[2..] == HexBytes(b[1..]);
      HexBytesInjective(a[1..], b[1..]);
      assert a == [a[0]] + a[1..] && b == [b[0]] + b[1..];
    }
  }

  lemma {:induction false} HexBytesUnreserved(bs: seq<Byte>)
    ensures forall i :: 0 <= i < |HexBytes(bs)| ==> Unreserved(HexBytes(bs)[i])
    decreases |bs|
  {
    if bs != [] {
      HexBytesUnreserved(bs[1..]);
    }
  }

  /** `Math.floor(Date.now() / 1000).toString()` for a clock reading in
      milliseconds. */
  function Timestamp(nowMillis: nat): string {
    NatToString(nowMillis / 1000)
  }

  /** The random bytes in hexadecimal followed by the timestamp. */
  function Nonce(randomBytes: seq<Byte>, timestamp: string): string {
    HexBytes(randomBytes) + timestamp
  }

  /** The six protocol parameters, in the order the object literal lists
      them. */
  function OAuthParams(apiKey: string, accessToken: string, timestamp: string, nonce: string): Params {
    [("oauth_consumer_key", apiKey), ("oauth_token", accessToken), ("oauth_signature_method", "HMAC-SHA1"),
     ("oauth_timestamp", timestamp), ("oauth_nonce", nonce), ("oauth_version", "1.0")]
  }

  /** The six protocol parameters signed with the API key secret and the
      access token secret, then `oauth_signature` added last. */
  function HeaderParams(httpMethod: string, url: string, apiKey: string, apiKeySecret: string, accessToken: string,
                        accessTokenSecret: string, nowMillis: nat, randomBytes: seq<Byte>,
                        hmac: (string, string) -> string): Params
  {
    var timestamp := Timestamp(nowMillis);
    var params := OAuthParams(apiKey, accessToken, timestamp, Nonce(randomBytes, timestamp));
    params + [("oauth_signature", Signature(httpMethod, url, params, apiKeySecret, Some(accessTokenSecret), hmac))]
  }

  /** `key="value"`. */
  function Quoted(key: string, value: string): string {
    key + "=\"" + value + "\""
  }

  /** `${percentEncode(key)}="${percentEncode(value)}"`. */
  function HeaderEntry(p: (string, string)): string {
    Quoted(PercentEncode(p.0), PercentEncode(p.1))
  }

  function HeaderEntries(params: Params): (es: seq<string>)
    ensures |es| == |params| && forall i :: 0 <= i < |params| ==> es[i] == HeaderEntry(params[i])
  {
    seq(|params|, i requires 0 <= i < |params| => HeaderEntry(params[i]))
  }

  /** `generateOAuthHeader`, with the clock reading and the 16 random bytes
      as inputs. */
  function Header(httpMethod: string, url: string, apiKey: string, apiKeySecret: string, accessToken: string,
                  accessTokenSecret: string, nowMillis: nat, randomBytes: seq<Byte>,
                  hmac: (string, string) -> string): string
  {
    HeaderText(HeaderParams(httpMethod, url, apiKey, apiKeySecret, accessToken, accessTokenSecret, nowMillis, randomBytes, hmac))
  }

  /** `'OAuth ' + entries.join(', ')`. */
  function HeaderText(params: Params): string {
    "OAuth " + Join(HeaderEntries(params), ", ")
  }

  /** The entries after the first, each behind the space of `", "`. */
  function Spaced(es: seq<string>): (r: seq<string>)
    requires es != []
    ensures |r| == |es| && r[0] == es[0] && forall i :: 1 <= i < |es| ==> r[i] == " " + es[i]
  {
    seq(|es|, i requires 0 <= i < |es| => if i == 0 then es[0] else " " + es[i])
  }

  lemma {:induction false} JoinCommaSpace(es: seq<string>)
    requires es != []
    ensures Join(es, ", ") == Join(Spaced(es), ",")
    decreases |es|
  {
    if |es| > 1 {
      JoinCommaSpace(es[1..]);
      var tail := Spaced(es[1..]);
      assert Spaced(es)[1..] == [" " + tail[0]] + tail[1..];
      var rest := Join(es[1..], ", ");
      JoinSpaceFront(tail);
      assert Join(Spaced(es)[1..], ",") == " " + Join(tail, ",");
      assert Join(es, ", ") == es[0] + ", " + rest;
      assert Join(Spaced(es), ",") == es[0] + "," + Join(Spaced(es)[1..], ",");
    }
  }

  lemma JoinSpaceFront(t: seq<string>)
    requires t != []
    ensures Join([" " + t[0]] + t[1..], ",") == " " + Join(t, ",")
  {
    var h := " " + t[0];
    var u := [h] + t[1..];
    assert u[0] == h && u[1..] == t[1..] && |u| == |t|;
    if |t| == 1 {
      assert Join(u, ",") == h;
      assert Join(t, ",") == t[0];
    } else {
      var r := "," + Join(t[1..], ",");
      assert Join(u, ",") == h + r;
      assert Join(t, ",") == t[0] + r;
      ConcatAssoc(" ", t[0], r);
    }
  }

  lemma HeaderEntryLacksComma(p: (string, string))
    ensures ',' !in HeaderEntry(p)
  {
    PercentEncodeAlphabet(p.0);
    PercentEncodeAlphabet(p.1);
  }

  lemma HeaderTextSplit(ps: Params)
    requires ps != []
    ensures StartsWith(HeaderText(ps), "OAuth ")
    ensures Split(HeaderText(ps)[6..], ',') == Spaced(HeaderEntries(ps))
  {
    var es := HeaderEntries(ps);
    JoinCommaSpace(es);
    var sp := Spaced(es);
    forall k | 0 <= k < |sp| ensures ',' !in sp[k] {
      HeaderEntryLacksComma(ps[k]);
    }
    SplitJoin(sp, ',');
    assert ("OAuth " + Join(es, ", "))[6..] == Join(sp, ",");
  }

  /** The header is `OAuth ` followed by the entries separated by `, `:
      splitting the rest at `,` gives the entries back, in insertion order,
      each after the first behind one space. */
  lemma HeaderSplit(httpMethod: string, url: string, apiKey: string, apiKeySecret: string, accessToken: string,
                    accessTokenSecret: string, nowMillis: nat, randomBytes: seq<Byte>,
                    hmac: (string, string) -> string)
    ensures var h := Header(httpMethod, url, apiKey, apiKeySecret, accessToken, accessTokenSecret, nowMillis, randomBytes, hmac);
      StartsWith(h, "OAuth ") &&
      Split(h[6..], ',') == Spaced(HeaderEntries(HeaderParams(httpMethod, url, apiKey, apiKeySecret, accessToken,
                                                             accessTokenSecret, nowMillis, randomBytes, hmac)))
  {
    HeaderTextSplit(HeaderParams(httpMethod, url, apiKey, apiKeySecret, accessToken, accessTokenSecret, nowMillis, randomBytes, hmac));
  }

  predicate AllUnreserved(s: string) {
    forall i :: 0 <= i < |s| ==> Unreserved(s[i])
  }

  /** The key names, the signature method and the version need no escaping. */
  lemma PlainLiterals()
    ensures AllUnreserved("oauth_consumer_key") && AllUnreserved("oauth_token")
    ensures AllUnreserved("oauth_signature_method") && AllUnreserved("oauth_timestamp")
    ensures AllUnreserved("oauth_nonce") && AllUnreserved("oauth_version") && AllUnreserved("oauth_signature")
    ensures AllUnreserved("HMAC-SHA1") && AllUnreserved("1.0")
  {
    PlainKeys();
    PlainSignatureKeys();
    assert AllUnreserved("HMAC-SHA1") && AllUnreserved("1.0");
  }

  lemma PlainKeys()
    ensures AllUnreserved("oauth_consumer_key") && AllUnreserved("oauth_token")
    ensures AllUnreserved("oauth_nonce") && AllUnreserved("oauth_version")
  {}

  lemma PlainSignatureKeys()
    ensures AllUnreserved("oauth_signature_method") && AllUnreserved("oauth_timestamp")
    ensures AllUnreserved("oauth_signature")
  {}

  lemma EntryPlain(k: string, v: string)
    requires AllUnreserved(k)
    ensures HeaderEntry((k, v)) == Quoted(k, PercentEncode(v))
  {
    EncodeUnreserved(k);
  }

  lemma NonceUnreserved(randomBytes: seq<Byte>, nowMillis: nat)
    ensures AllUnreserved(Timestamp(nowMillis)) && AllUnreserved(Nonce(randomBytes, Timestamp(nowMillis)))
  {
    var ts := Timestamp(nowMillis);
    var nonce := Nonce(randomBytes, ts);
    NatToStringDigits(nowMillis / 1000);
    HexBytesUnreserved(randomBytes);
    forall i | 0 <= i < |nonce| ensures Unreserved(nonce[i]) {
      if i >= |HexBytes(randomBytes)| { assert nonce[i] == ts[i - |HexBytes(randomBytes)|]; }
    }
  }

  /** The seven parameters of the header: the six protocol parameters in
      the order the object literal lists them, then the signature of those
      six. */
  lemma HeaderParamsShape(httpMethod: string, url: string, apiKey: string, apiKeySecret: string, accessToken: string,
                          accessTokenSecret: string, nowMillis: nat, randomBytes: seq<Byte>,
                          hmac: (string, string) -> string)
    ensures var ts := Timestamp(nowMillis);
      var ps := HeaderParams(httpMethod, url, apiKey, apiKeySecret, accessToken, accessTokenSecret, nowMillis, randomBytes, hmac);
      && |ps| == 7
      && ps[0] == ("oauth_consumer_key", apiKey)
      && ps[1] == ("oauth_token", accessToken)
      && ps[2] == ("oauth_signature_method", "HMAC-SHA1")
      && ps[3] == ("oauth_timestamp", ts)
      && ps[4] == ("oauth_nonce", HexBytes(randomBytes) + ts)
      && ps[5] == ("oauth_version", "1.0")
      && ps[6] == ("oauth_signature", Signature(httpMethod, url, OAuthParams(apiKey, accessToken, ts, Nonce(randomBytes, ts)),
                                                apiKeySecret, Some(accessTokenSecret), hmac))
  {
    var ts := Timestamp(nowMillis);
    var params := OAuthParams(apiKey, accessToken, ts, Nonce(randomBytes, ts));
    var sig := Signature(httpMethod, url, params, apiKeySecret, Some(accessTokenSecret), hmac);
    assert HeaderParams(httpMethod, url, apiKey, apiKeySecret, accessToken, accessTokenSecret, nowMillis, randomBytes, hmac)
      == params + [("oauth_signature", sig)];
    ParamsSnoc(params, "oauth_signature", sig, apiKey, accessToken, ts, Nonce(randomBytes, ts));
  }

  lemma ParamsSnoc(params: Params, k: string, v: string, apiKey: string, accessToken: string, ts: string, nonce: string)
    requires params == OAuthParams(apiKey, accessToken, ts, nonce)
    ensures var ps := params + [(k, v)];
      && |ps| == 7
      && ps[0] == ("oauth_consumer_key", apiKey)
      && ps[1] == ("oauth_token", accessToken)
      && ps[2] == ("oauth_signature_method", "HMAC-SHA1")
      && ps[3] == ("oauth_timestamp", ts)
      && ps[4] == ("oauth_nonce", nonce)
      && ps[5] == ("oauth_version", "1.0")
      && ps[6] == (k, v)
  {}

  /** The entries of seven parameters with unreserved keys and with
      unreserved values in the third to sixth place. */
  lemma EntriesShape(ps: Params, apiKey: string, accessToken: string, ts: string, nonce: string, sig: string)
    requires |ps| == 7
    requires ps[0] == ("oauth_consumer_key", apiKey) && ps[1] == ("oauth_token", accessToken)
    requires ps[2] == ("oauth_signature_method", "HMAC-SHA1") && ps[3] == ("oauth_timestamp", ts)
    requires ps[4] == ("oauth_nonce", nonce) && ps[5] == ("oauth_version", "1.0") && ps[6] == ("oauth_signature", sig)
    requires AllUnreserved(ts) && AllUnreserved(nonce)
    ensures var es := HeaderEntries(ps);
      && |es| == 7
      && es[0] == Quoted("oauth_consumer_key", PercentEncode(apiKey))
      && es[1] == Quoted("oauth_token", PercentEncode(accessToken))
      && es[2] == Quoted("oauth_signature_method", "HMAC-SHA1")
      && es[3] == Quoted("oauth_timestamp", ts)
      && es[4] == Quoted("oauth_nonce", nonce)
      && es[5] == Quoted("oauth_version", "1.0")
      && es[6] == Quoted("oauth_signature", PercentEncode(sig))
  {
    PlainLiterals();
    EncodeUnreserved(ts);
    EncodeUnreserved(nonce);
    EncodeUnreserved("HMAC-SHA1");
    EncodeUnreserved("1.0");
    EntryPlain(ps[0].0, ps[0].1);
    EntryPlain(ps[1].0, ps[1].1);
    EntryPlain(ps[2].0, ps[2].1);
    EntryPlain(ps[3].0, ps[3].1);
    EntryPlain(ps[4].0, ps[4].1);
    EntryPlain(ps[5].0, ps[5].1);
    EntryPlain(ps[6].0, ps[6].1);
  }

  /** The seven entries of the header: the key names, the method name, the
      version, the timestamp and the nonce are all unreserved and so are
      written as they are; `oauth_signature` comes last. */
  lemma HeaderEntriesShape(httpMethod: string, url: string, apiKey: string, apiKeySecret: string, accessToken: string,
                           accessTokenSecret: string, nowMillis: nat, randomBytes: seq<Byte>,
                           hmac: (string, string) -> string)
    ensures var ts := Timestamp(nowMillis);
      var sig := Signature(httpMethod, url, OAuthParams(apiKey, accessToken, ts, Nonce(randomBytes, ts)),
                           apiKeySecret, Some(accessTokenSecret), hmac);
      var es := HeaderEntries(HeaderParams(httpMethod, url, apiKey, apiKeySecret, accessToken, accessTokenSecret,
                                           nowMillis, randomBytes, hmac));
      && |es| == 7
      && es[0] == Quoted("oauth_consumer_key", PercentEncode(apiKey))
      && es[1] == Quoted("oauth_token", PercentEncode(accessToken))
      && es[2] == Quoted("oauth_signature_method", "HMAC-SHA1")
      && es[3] == Quoted("oauth_timestamp", ts)
      && es[4] == Quoted("oauth_nonce", HexBytes(randomBytes) + ts)
      && es[5] == Quoted("oauth_version", "1.0")
      && es[6] == Quoted("oauth_signature", PercentEncode(sig))
  {
    var ts := Timestamp(nowMillis);
    var sig := Signature(httpMethod, url, OAuthParams(apiKey, accessToken, ts, Nonce(randomBytes, ts)),
                         apiKeySecret, Some(accessTokenSecret), hmac);
    var ps := HeaderParams(httpMethod, url, apiKey, apiKeySecret, accessToken, accessTokenSecret, nowMillis, randomBytes, hmac);
    HeaderParamsShape(httpMethod, url, apiKey, apiKeySecret, accessToken, accessTokenSecret, nowMillis, randomBytes, hmac);
    NonceUnreserved(randomBytes, nowMillis);
    EntriesShape(ps, apiKey, accessToken, ts, HexBytes(randomBytes) + ts, sig);
  }

  lemma QuotedValue(k: string, v: string)
    ensures Quoted(k, v)[|k| + 2..|Quoted(k, v)| - 1] == v
  {}

  lemma NonceInjective(r1: seq<Byte>, r2: seq<Byte>, ts: string)
    requires |r1| == |r2| && Nonce(r1, ts) == Nonce(r2, ts)
    ensures r1 == r2
  {
    assert Nonce(r1, ts)[..2 * |r1|] == HexBytes(r1);
    assert Nonce(r2, ts)[..2 * |r2|] == HexBytes(r2);
    HexBytesInjective(r1, r2);
  }

  lemma HeaderEntryInjective(k: string, a: string, b: string)
    requires HeaderEntry((k, a)) == HeaderEntry((k, b))
    ensures a == b
  {
    QuotedValue(PercentEncode(k), PercentEncode(a));
    QuotedValue(PercentEncode(k), PercentEncode(b));
    PercentEncodeInjective(a, b);
  }

  /** The header text determines every value: two parameter lists with the
      same key at some place but different values there give different
      headers. */
  lemma HeaderTextDetermines(ps1: Params, ps2: Params, i: nat)
    requires i < |ps1| && i < |ps2|
    requires ps1[i].0 == ps2[i].0 && ps1[i].1 != ps2[i].1
    ensures HeaderText(ps1) != HeaderText(ps2)
  {
    HeaderTextSplit(ps1);
    HeaderTextSplit(ps2);
    var e1, e2 := HeaderEntries(ps1)[i], HeaderEntries(ps2)[i];
    assert ps1[i] == (ps1[i].0, ps1[i].1) && ps2[i] == (ps1[i].0, ps2[i].1);
    if e1 == e2 {
      HeaderEntryInjective(ps1[i].0, ps1[i].1, ps2[i].1);
    }
    if i > 0 {
      assert Spaced(HeaderEntries(ps1))[i] == " " + e1 && Spaced(HeaderEntries(ps2))[i] == " " + e2;
      assert (" " + e1)[1..] == e1 && (" " + e2)[1..] == e2;
    }
  }

  /** Two calls in the same second with different random bytes give
      different headers, because their nonces differ. */
  lemma HeaderNonceFresh(httpMethod: string, url: string, apiKey: string, apiKeySecret: string, accessToken: string,
                         accessTokenSecret: string, nowMillis: nat, r1: seq<Byte>, r2: seq<Byte>,
                         hmac: (string, string) -> string)
    requires |r1| == |r2| && r1 != r2
    ensures Header(httpMethod, url, apiKey, apiKeySecret, accessToken, accessTokenSecret, nowMillis, r1, hmac)
         != Header(httpMethod, url, apiKey, apiKeySecret, accessToken, accessTokenSecret, nowMillis, r2, hmac)
  {
    var ts := Timestamp(nowMillis);
    if Nonce(r1, ts) == Nonce(r2, ts) {
      NonceInjective(r1, r2, ts);
    }
    HeaderParamsShape(httpMethod, url, apiKey, apiKeySecret, accessToken, accessTokenSecret, nowMillis, r1, hmac);
    HeaderParamsShape(httpMethod, url, apiKey, apiKeySecret, accessToken, accessTokenSecret, nowMillis, r2, hmac);
    HeaderTextDetermines(HeaderParams(httpMethod, url, apiKey, apiKeySecret, accessToken, accessTokenSecret, nowMillis, r1, hmac),
                         HeaderParams(httpMethod, url, apiKey, apiKeySecret, accessToken, accessTokenSecret, nowMillis, r2, hmac), 4);
  }
}
