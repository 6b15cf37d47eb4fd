/**
 The canonical request of AWS Signature Version 4 (src/auth/presigned.rs:277-319, 359-387, 421-433,
 src/auth/sigv4.rs:27-38): percent-encoding as in RFC 3986 sections 2.1 and 2.3, the sorted query
 string, and the signed headers. The main result is that it can be read back: two requests have
 the same canonical form exactly when they agree on everything the signature is meant to cover.
 */
module Canonical {
  import opened Common
  import opened Sorting
  import opened Text

  // ---- Percent-encoding ----

  predicate Unreserved(c: char) {
    'A' <= c <= 'Z' || 'a' <= c <= 'z' || '0' <= c <= '9' || c == '-' || c == '_' || c == '.' || c == '~'
  }

  function HexDigit(n: nat): char
    requires n < 16
  {
    if n < 10 then '0' + n as char else 'A' + (n - 10) as char
  }

  function HexValue(c: char): (r: Option<nat>)
    ensures r.Some? ==> r.value < 16
  {
    if '0' <= c <= '9' then Some((c - '0') as nat)
    else if 'A' <= c <= 'F' then Some((c - 'A') as nat + 10)
    else if 'a' <= c <= 'f' then Some((c - 'a') as nat + 10)
    else None
  }

  function EncodeByte(c: char): string {
    if Unreserved(c) || c as int >= 256 then [c]
    else ['%', HexDigit(c as nat / 16), HexDigit(c as nat % 16)]
  }

  /** uri_encode */
  function UriEncode(s: string): string {
    if s == "" then "" else EncodeByte(s[0]) + UriEncode(s[1..])
  }

  predicate Escape(s: string) { |s| >= 3 && s[0] == '%' && HexValue(s[1]).Some? && HexValue(s[2]).Some? }

  /** Percent-decoding to bytes; an incomplete escape stands for itself. */
  function Decode(s: string): string {
    if s == "" then ""
    else if Escape(s) then [(16 * HexValue(s[1]).value + HexValue(s[2]).value) as char] + Decode(s[3..])
    else [s[0]] + Decode(s[1..])
  }

  /** `d` is the hexadecimal digit of `n`, in either case. */
  predicate DigitOf(d: char, n: nat)
    requires n < 16
  {
    d == "0123456789ABCDEF"[n] || d == "0123456789abcdef"[n]
  }

  lemma DigitValue(d: char, n: nat)
    requires n < 16
    ensures DigitOf(d, n) <==> HexValue(d) == Some(n)
  {
  }

  /** A percent sign and two hexadecimal digits stand for one byte. */
  lemma DecodeEscape(s: string, i: nat, j: nat)
    requires |s| >= 3 && i < 16 && j < 16 && s[0] == '%' && DigitOf(s[1], i) && DigitOf(s[2], j)
    ensures Decode(s) == [(16 * i + j) as char] + Decode(s[3..])
  {
    DigitValue(s[1], i);
    DigitValue(s[2], j);
    hide DigitOf, HexValue;
  }

  predicate IsHex(c: char) { exists n: nat | n < 16 :: DigitOf(c, n) }

  lemma HexExactly(c: char)
    ensures IsHex(c) <==> HexValue(c).Some?
  {
    forall n: nat | n < 16 ensures DigitOf(c, n) <==> HexValue(c) == Some(n) { DigitValue(c, n); }
    hide DigitOf;
    if HexValue(c).Some? { assert DigitOf(c, HexValue(c).value); }
  }

  /** Everything else stands for itself. */
  lemma DecodeOther(s: string)
    requires s != "" && (s[0] != '%' || |s| < 3 || !IsHex(s[1]) || !IsHex(s[2]))
    ensures Decode(s) == [s[0]] + Decode(s[1..])
  {
    if |s| >= 3 {
      HexExactly(s[1]);
      HexExactly(s[2]);
    }
    hide IsHex, HexValue;
  }

  lemma HexRoundTrip(n: nat)
    requires n < 16
    ensures HexValue(HexDigit(n)) == Some(n)
  {
  }

  lemma EncodeByteDecodes(c: char, rest: string)
    requires c as int < 256
    ensures Decode(EncodeByte(c) + rest) == [c] + Decode(rest)
  {
    var s := EncodeByte(c) + rest;
    if Unreserved(c) {
      assert s[1..] == rest;
    } else {
      var n := c as nat;
      HexRoundTrip(n / 16);
      HexRoundTrip(n % 16);
      assert s[3..] == rest;
      assert 16 * (n / 16) + n % 16 == n;
    }
  }

  const HEX_DIGITS := "0123456789ABCDEF"

  /** A letter, a digit, or one of four marks stands for itself; any other byte is an upper-case escape. */
  lemma EncodedByte(c: char)
    requires c as int < 256
    ensures UriEncode([c]) ==
      if 'A' <= c <= 'Z' || 'a' <= c <= 'z' || '0' <= c <= '9' || c in "-_.~" then [c]
      else ['%', HEX_DIGITS[c as int / 16], HEX_DIGITS[c as int % 16]]
  {
    UpperHex(c as int / 16);
    UpperHex(c as int % 16);
    assert [c][1..] == "";
    var marks := "-_.~";
    assert marks[0] == '-' && marks[1] == '_' && marks[2] == '.' && marks[3] == '~';
    hide HexDigit;
  }

  lemma UpperHex(n: nat)
    requires n < 16
    ensures HexDigit(n) == HEX_DIGITS[n]
  {
  }

  /** Texts are encoded byte by byte. */
  lemma {:induction false} EncodeConcat(a: string, b: string)
    ensures UriEncode(a + b) == UriEncode(a) + UriEncode(b)
  {
    hide EncodeByte;
    if a == "" {
      assert a + b == b;
    } else {
      EncodeConcat(a[1..], b);
      assert (a + b)[0] == a[0] && (a + b)[1..] == a[1..] + b;
      Associate(EncodeByte(a[0]), UriEncode(a[1..]), UriEncode(b));
    }
  }

  /** Encoding loses nothing. */
  lemma {:induction false} EncodeRoundTrip(s: string)
    requires IsBytes(s)
    ensures Decode(UriEncode(s)) == s
  {
    if s != "" {
      EncodeRoundTrip(s[1..]);
      EncodeByteDecodes(s[0], UriEncode(s[1..]));
      assert s == [s[0]] + s[1..];
    }
  }

  lemma EncodeInjective(a: string, b: string)
    requires IsBytes(a) && IsBytes(b) && UriEncode(a) == UriEncode(b)
    ensures a == b
  {
    EncodeRoundTrip(a);
    EncodeRoundTrip(b);
  }

  /** An encoded text holds unreserved characters and escapes only. */
  predicate Encoded(s: string) { forall i | 0 <= i < |s| :: Unreserved(s[i]) || s[i] == '%' }

  lemma {:induction false} EncodeIsEncoded(s: string)
    requires IsBytes(s)
    ensures Encoded(UriEncode(s)) && (s == "" <==> UriEncode(s) == "")
  {
    if s != "" { EncodeIsEncoded(s[1..]); }
  }

  lemma {:induction false} EncodePlain(s: string)
    requires forall i | 0 <= i < |s| :: Unreserved(s[i])
    ensures UriEncode(s) == s
  {
    if s != "" {
      EncodePlain(s[1..]);
      assert s == [s[0]] + s[1..];
    }
  }

  lemma {:induction false} DecodeFacts(s: string)
    requires IsBytes(s)
    ensures IsBytes(Decode(s)) && (s == "" <==> Decode(s) == "")
  {
    if s != "" {
      DecodeFacts(if Escape(s) then s[3..] else s[1..]);
    }
  }

  // ---- The path ----

  /** A decoded segment; one that would not be UTF-8 stands for itself. */
  function DecodeSegment(s: string): string { if Utf8(Decode(s)) then Decode(s) else s }

  function DecodeAll(parts: seq<string>): seq<string> {
    seq(|parts|, i requires 0 <= i < |parts| => DecodeSegment(parts[i]))
  }

  function EncodeAll(parts: seq<string>): seq<string> {
    seq(|parts|, i requires 0 <= i < |parts| => UriEncode(parts[i]))
  }

  /** The path as a list of decoded segments. */
  function Segments(path: string): seq<string> { DecodeAll(Split(if path == "" then "/" else path, '/')) }

  /** canonical_uri */
  function CanonicalUri(path: string): string { Join(EncodeAll(Segments(path)), '/') }

  predicate PathText(path: string) { IsBytes(path) && Utf8(path) }

  lemma {:induction false} SplitBytes(s: string, sep: char)
    requires IsBytes(s)
    ensures forall i | 0 <= i < |Split(s, sep)| :: IsBytes(Split(s, sep)[i])
  {
    if s != "" {
      SplitBytes(s[1..], sep);
      var rest := Split(s[1..], sep);
      assert IsBytes(rest[0]);
    }
  }

  lemma SegmentsAreText(path: string)
    requires PathText(path)
    ensures |Segments(path)| > 0
    ensures forall i | 0 <= i < |Segments(path)| :: IsBytes(Segments(path)[i]) && Utf8(Segments(path)[i])
    ensures Segments(path) != [""]
  {
    var p := if path == "" then "/" else path;
    assert Utf8("/") by { assert "/"[1..] == ""; }
    SplitBytes(p, '/');
    Utf8Segments(p, '/');
    var parts := Split(p, '/');
    forall i | 0 <= i < |parts| ensures IsBytes(DecodeSegment(parts[i])) && Utf8(DecodeSegment(parts[i])) {
      DecodeFacts(parts[i]);
    }
    DecodeFacts(parts[0]);
    JoinSplit(p, '/');
    hide Utf8, Decode;
    assert |parts| == 1 ==> parts[0] == p;
    assert |parts| == 1 ==> Segments(path)[0] == DecodeSegment(p) != "";
  }

  /** Some position starts a percent escape. */
  predicate HasEscape(s: string) { exists i | 0 <= i < |s| :: Escape(s[i..]) }

  lemma {:induction false} DecodeShorter(s: string)
    ensures |Decode(s)| <= |s|
  {
    if s != "" { DecodeShorter(if Escape(s) then s[3..] else s[1..]); }
  }

  /** Decoding changes a text exactly when it holds an escape. */
  lemma {:induction false} DecodeFixes(s: string)
    ensures Decode(s) == s <==> !HasEscape(s)
  {
    if s != "" {
      assert s[0..] == s;
      if Escape(s) {
        DecodeShorter(s[3..]);
      } else {
        DecodeFixes(s[1..]);
        assert forall i | 0 <= i < |s| - 1 :: s[1..][i..] == s[i + 1..];
        assert forall i | 1 <= i < |s| :: s[i..] == s[1..][i - 1..];
        assert s == [s[0]] + s[1..] && Decode(s) == [s[0]] + Decode(s[1..]);
      }
    }
  }

  lemma EncodeAllFacts(parts: seq<string>)
    requires forall i | 0 <= i < |parts| :: IsBytes(parts[i])
    ensures forall i | 0 <= i < |parts| :: Encoded(EncodeAll(parts)[i]) && '/' !in EncodeAll(parts)[i]
  {
    forall i | 0 <= i < |parts| ensures Encoded(EncodeAll(parts)[i]) && '/' !in EncodeAll(parts)[i] {
      EncodeIsEncoded(parts[i]);
    }
  }

  /** The canonical path splits back into its encoded segments. */
  lemma CanonicalSplits(path: string)
    requires PathText(path)
    ensures Split(CanonicalUri(path), '/') == EncodeAll(Segments(path)) && CanonicalUri(path) != ""
  {
    SegmentsAreText(path);
    EncodeAllFacts(Segments(path));
    hide Segments;
    SplitJoin(EncodeAll(Segments(path)), '/');
    EncodeIsEncoded(Segments(path)[0]);
    assert |Segments(path)| == 1 ==> Segments(path)[0] != "";
  }

  /** The canonical path stands for the same segments. */
  lemma CanonicalKeepsSegments(path: string)
    requires PathText(path)
    ensures Segments(CanonicalUri(path)) == Segments(path)
  {
    CanonicalSplits(path);
    SegmentsAreText(path);
    var segments := Segments(path);
    forall i | 0 <= i < |segments| ensures DecodeSegment(UriEncode(segments[i])) == segments[i] {
      EncodeRoundTrip(segments[i]);
    }
    hide CanonicalUri, Decode, Utf8, UriEncode;
    assert DecodeAll(EncodeAll(segments)) == segments;
  }

  lemma CanonicalIsIdempotent(path: string)
    requires PathText(path)
    ensures CanonicalUri(CanonicalUri(path)) == CanonicalUri(path)
  {
    CanonicalKeepsSegments(path);
  }

  /** Two paths have the same canonical form exactly when they have the same decoded segments. */
  lemma PathUnambiguous(p: string, q: string)
    requires PathText(p) && PathText(q)
    ensures CanonicalUri(p) == CanonicalUri(q) <==> Segments(p) == Segments(q)
  {
    if CanonicalUri(p) == CanonicalUri(q) {
      CanonicalKeepsSegments(p);
      CanonicalKeepsSegments(q);
    }
  }

  // ---- The query ----

  const SIGNATURE := "X-Amz-Signature"

  type Params = map<string, string>

  predicate ParamText(params: Params) { forall k | k in params :: IsBytes(k) && IsBytes(params[k]) }

  predicate PairLe(a: (string, string), b: (string, string)) {
    if a.0 == b.0 then StrLe(a.1, b.1) else StrLe(a.0, b.0)
  }

  const PAIR_LE: ((string, string), (string, string)) -> bool :=
    (a: (string, string), b: (string, string)) => PairLe(a, b)

  lemma PairOrder()
    ensures TotalOrder(PAIR_LE) && Antisymmetric(PAIR_LE)
  {
    forall a, b ensures PAIR_LE(a, b) || PAIR_LE(b, a) ensures PAIR_LE(a, b) && PAIR_LE(b, a) ==> a == b {
      StrLeTotal(a.0, b.0);
      StrLeTotal(a.1, b.1);
    }
    forall a, b, c | PAIR_LE(a, b) && PAIR_LE(b, c) ensures PAIR_LE(a, c) {
      StrLeTotal(a.0, b.0);
      if a.0 == b.0 == c.0 {
        StrLeTransitive(a.1, b.1, c.1);
      } else if a.0 != b.0 && b.0 != c.0 {
        StrLeTransitive(a.0, b.0, c.0);
      }
    }
  }

  function EncodePair(params: Params, k: string): (string, string)
    requires k in params
  {
    (UriEncode(k), UriEncode(params[k]))
  }

  /** The encoded parameters that are signed. */
  ghost function SignedPairs(params: Params): set<(string, string)> {
    set k | k in params && k != SIGNATURE :: EncodePair(params, k)
  }

  function PairText(p: (string, string)): string { p.0 + "=" + p.1 }

  function PairTexts(pairs: seq<(string, string)>): seq<string> {
    seq(|pairs|, i requires 0 <= i < |pairs| => PairText(pairs[i]))
  }

  /** `pairs` lists the signed parameters in order, once each. */
  ghost predicate Lists(pairs: seq<(string, string)>, params: Params) {
    Sorted(pairs, PAIR_LE) && Distinct(pairs) && forall p :: p in pairs <==> p in SignedPairs(params)
  }

  lemma ListsUnique(a: seq<(string, string)>, b: seq<(string, string)>, p: Params, q: Params)
    requires Lists(a, p) && Lists(b, q) && SignedPairs(p) == SignedPairs(q)
    ensures a == b
  {
    PairOrder();
    SortedDistinctUnique(a, b, PAIR_LE);
  }

  /** `query` is the text of the signed parameters in order. */
  ghost predicate IsQueryOf(query: string, params: Params) {
    exists pairs :: Lists(pairs, params) && query == Join(PairTexts(pairs), '&')
  }

  /** The encoded parameters among `keys`. */
  ghost function PairsOf(params: Params, keys: set<string>): set<(string, string)> {
    set k | k in keys && k in params && k != SIGNATURE :: EncodePair(params, k)
  }

  lemma PairsOfAdd(params: Params, done: set<string>, k: string)
    requires ParamText(params) && k in params && k !in done && k != SIGNATURE
    ensures PairsOf(params, done + {k}) == PairsOf(params, done) + {EncodePair(params, k)}
    ensures EncodePair(params, k) !in PairsOf(params, done)
  {
    forall other | other in done && other in params ensures EncodePair(params, other) != EncodePair(params, k) {
      if UriEncode(other) == UriEncode(k) { EncodeInjective(other, k); }
    }
    hide EncodePair;
  }

  /** canonical_query_string; the parameters arrive in no particular order. */
  method CanonicalQuery(params: Params) returns (query: string)
    requires ParamText(params)
    ensures IsQueryOf(query, params)
  {
    var left := params.Keys;
    var found: seq<(string, string)> := [];
    assert PairsOf(params, {}) == {};
    hide ParamText;
    while left != {}
      invariant left <= params.Keys && Distinct(found)
      invariant forall p :: p in found <==> p in PairsOf(params, params.Keys - left)
      decreases left
    {
      hide PairsOf;
      var k :| k in left;
      ghost var done := params.Keys - left;
      left := left - {k};
      assert params.Keys - left == done + {k};
      if k != SIGNATURE {
        PairsOfAdd(params, done, k);
        found := found + [EncodePair(params, k)];
      } else {
        PairsOfSignature(params, done);
      }
    }
    assert params.Keys - {} == params.Keys && PairsOf(params, params.Keys) == SignedPairs(params);
    hide PairsOf, SignedPairs;
    PairOrder();
    var sorted := Sort(found, PAIR_LE);
    SortSorts(found, PAIR_LE);
    SortMembers(found, PAIR_LE);
    SortKeepsDistinct(found, PAIR_LE);
    assert Lists(sorted, params);
    query := Join(PairTexts(sorted), '&');
  }

  lemma PairsOfSignature(params: Params, done: set<string>)
    ensures PairsOf(params, done + {SIGNATURE}) == PairsOf(params, done)
  {
  }

  lemma SortKeepsDistinct<T(!new)>(s: seq<T>, le: (T, T) -> bool)
    requires Distinct(s)
    ensures Distinct(Sort(s, le))
  {
    SortPermutes(s, le);
    DistinctMeansOnce(s);
    OnceMeansDistinct(Sort(s, le));
  }

  // ---- The query can be read back ----

  /** The same parameters, the signature aside. */
  ghost predicate SameSigned(p: Params, q: Params) {
    forall k | k != SIGNATURE :: (k in p <==> k in q) && (k in p ==> p[k] == q[k])
  }

  lemma ListedIsEncoded(pairs: seq<(string, string)>, params: Params, i: nat)
    requires Lists(pairs, params) && ParamText(params) && i < |pairs|
    ensures Encoded(pairs[i].0) && Encoded(pairs[i].1)
  {
    assert pairs[i] in SignedPairs(params);
    var k :| k in params && k != SIGNATURE && pairs[i] == EncodePair(params, k);
    EncodeIsEncoded(k);
    EncodeIsEncoded(params[k]);
  }

  lemma PairSplits(p: (string, string))
    requires Encoded(p.0) && Encoded(p.1)
    ensures Split(PairText(p), '=') == [p.0, p.1] && '&' !in PairText(p) && PairText(p) != ""
  {
    SplitFirst(p.0, '=', p.1);
    SplitWhole(p.1, '=');
    assert PairText(p) == p.0 + ['='] + p.1;
  }

  lemma PairTextsEqual(a: seq<(string, string)>, b: seq<(string, string)>, p: Params, q: Params)
    requires Lists(a, p) && Lists(b, q) && ParamText(p) && ParamText(q) && PairTexts(a) == PairTexts(b)
    ensures a == b
  {
    hide Lists, ParamText;
    assert |PairTexts(a)| == |a| && |PairTexts(b)| == |b|;
    forall i | 0 <= i < |a| ensures a[i] == b[i] {
      ListedIsEncoded(a, p, i);
      ListedIsEncoded(b, q, i);
      assert PairText(a[i]) == PairTexts(a)[i] == PairTexts(b)[i] == PairText(b[i]);
      hide Encoded, PairText;
      PairSplits(a[i]);
      PairSplits(b[i]);
    }
  }

  lemma QuerySplits(a: seq<(string, string)>, p: Params)
    requires Lists(a, p) && ParamText(p)
    ensures a == [] <==> Join(PairTexts(a), '&') == ""
    ensures a != [] ==> Split(Join(PairTexts(a), '&'), '&') == PairTexts(a)
    ensures '\n' !in Join(PairTexts(a), '&')
  {
    forall i | 0 <= i < |a| ensures '&' !in PairTexts(a)[i] && '\n' !in PairTexts(a)[i] && PairTexts(a)[i] != "" {
      ListedIsEncoded(a, p, i);
      PairSplits(a[i]);
    }
    hide Lists, PairText;
    JoinChars(PairTexts(a), '&', '\n');
    if a != [] { SplitJoin(PairTexts(a), '&'); }
  }

  lemma SamePairs(p: Params, q: Params)
    requires ParamText(p) && ParamText(q)
    ensures SignedPairs(p) == SignedPairs(q) <==> SameSigned(p, q)
  {
    if SignedPairs(p) == SignedPairs(q) {
      forall k | k != SIGNATURE ensures (k in p <==> k in q) && (k in p ==> p[k] == q[k]) {
        if k in p { PairFound(p, q, k); }
        if k in q { PairFound(q, p, k); }
      }
    }
    if SameSigned(p, q) {
      hide UriEncode;
      assert forall k | k in p && k != SIGNATURE :: EncodePair(p, k) == EncodePair(q, k);
      assert SignedPairs(p) == SignedPairs(q);
    }
  }

  lemma PairFound(p: Params, q: Params, k: string)
    requires ParamText(p) && ParamText(q) && SignedPairs(p) == SignedPairs(q) && k in p && k != SIGNATURE
    ensures k in q && q[k] == p[k]
  {
    assert EncodePair(p, k) in SignedPairs(q);
    var other :| other in q && other != SIGNATURE && EncodePair(q, other) == EncodePair(p, k);
    EncodeInjective(other, k);
    EncodeInjective(q[k], p[k]);
  }

  /** Two queries have the same canonical form exactly when they agree on everything but the signature. */
  lemma QueryUnambiguous(a: seq<(string, string)>, b: seq<(string, string)>, p: Params, q: Params)
    requires Lists(a, p) && Lists(b, q) && ParamText(p) && ParamText(q)
    ensures Join(PairTexts(a), '&') == Join(PairTexts(b), '&') <==> SameSigned(p, q)
  {
    SamePairs(p, q);
    QuerySplits(a, p);
    QuerySplits(b, q);
    hide SameSigned, ParamText, Join, Split;
    if Join(PairTexts(a), '&') == Join(PairTexts(b), '&') {
      if a != [] { PairTextsEqual(a, b, p, q); }
      hide SignedPairs;
      assert a == b;
      assert SignedPairs(p) == SignedPairs(q);
    } else if SignedPairs(p) == SignedPairs(q) {
      ListsUnique(a, b, p, q);
    }
  }

  // ---- Header values ----

  predicate Whitespace(c: char) { c == ' ' || Between(c, 9, 13) }

  /** str::split_whitespace */
  function Words(v: string): (words: seq<string>)
    ensures forall i | 0 <= i < |words| :: words[i] != "" && forall c | c in words[i] :: !Whitespace(c)
    ensures v != "" && !Whitespace(v[0]) ==> words != []
  {
    if v == "" then []
    else if Whitespace(v[0]) then Words(v[1..])
    else if |v| == 1 || Whitespace(v[1]) then [[v[0]]] + Words(v[1..])
    else
      var rest := Words(v[1..]);
      [[v[0]] + rest[0]] + rest[1..]
  }

  /** normalize_header_value */
  function Normalize(v: string): string { Join(Words(v), ' ') }

  lemma NormalizeSplits(v: string)
    ensures Words(v) == [] <==> Normalize(v) == ""
    ensures Words(v) != [] ==> Split(Normalize(v), ' ') == Words(v)
    ensures '\n' !in Normalize(v)
  {
    JoinChars(Words(v), ' ', '\n');
    hide Words;
    if Words(v) != [] { SplitJoin(Words(v), ' '); }
  }

  /** ASCII white space: tab, line feed, vertical tab, form feed, carriage return and space. */
  predicate Blank(c: char) { c as int in {9, 10, 11, 12, 13, 32} }

  lemma BlankIsWhitespace(c: char)
    ensures Whitespace(c) <==> Blank(c)
  {
    assert ' ' as int == 32;
  }

  /** A text without blanks is one word, and a blank separates the words before it from those after. */
  lemma {:induction false} WordsExactly(a: string, c: char, b: string)
    ensures a != "" && (forall d | d in a :: !Blank(d)) ==> Words(a) == [a]
    ensures Blank(c) ==> Words(a + [c] + b) == Words(a) + Words(b)
  {
    forall d ensures Whitespace(d) <==> Blank(d) { BlankIsWhitespace(d); }
    hide Blank, Whitespace;
    if a != "" && forall d | d in a :: !Blank(d) {
      OneWord(a, "");
      assert a + "" == a;
    }
    if Blank(c) { WordsCut(a, c, b); }
  }

  lemma {:induction false} WordsCut(a: string, c: char, b: string)
    requires Whitespace(c)
    ensures Words(a + [c] + b) == Words(a) + Words(b)
  {
    hide Whitespace;
    var s := a + [c] + b;
    if a == "" {
      assert s[1..] == b;
    } else {
      assert s[0] == a[0] && s[1..] == a[1..] + [c] + b;
      WordsCut(a[1..], c, b);
      if |a| > 1 { assert s[1] == a[1]; } else { assert a[1..] == "" && s[1] == c; }
    }
  }

  lemma {:induction false} WordsJoin(words: seq<string>)
    requires forall i | 0 <= i < |words| :: words[i] != "" && forall c | c in words[i] :: !Whitespace(c)
    ensures Words(Join(words, ' ')) == words
  {
    if |words| == 1 {
      OneWord(words[0], "");
      assert words[0] + "" == words[0] && words == [words[0]];
    } else if words != [] {
      WordsJoin(words[1..]);
      var rest := Join(words[1..], ' ');
      OneWord(words[0], " " + rest);
      assert (" " + rest)[1..] == rest && Words(" " + rest) == Words(rest);
      assert words[0] + (" " + rest) == words[0] + [' '] + rest;
      assert words == [words[0]] + words[1..];
    }
  }

  lemma {:induction false} OneWord(word: string, rest: string)
    requires word != "" && (forall c | c in word :: !Whitespace(c)) && (rest != "" ==> Whitespace(rest[0]))
    ensures Words(word + rest) == [word] + Words(rest)
  {
    var v := word + rest;
    assert v[0] in word && v[1..] == word[1..] + rest;
    if |word| == 1 {
      assert word == [v[0]];
    } else {
      OneWord(word[1..], rest);
      assert v[1] in word;
      assert word == [word[0]] + word[1..];
    }
  }

  /** A normalised value has single spaces between its words, none around them, and stays as it is. */
  lemma NormalizeIsIdempotent(v: string)
    ensures Normalize(Normalize(v)) == Normalize(v)
  {
    WordsJoin(Words(v));
  }

  /** Values are compared up to runs of white space. */
  lemma NormalizeUnambiguous(v: string, w: string)
    ensures Normalize(v) == Normalize(w) <==> Words(v) == Words(w)
  {
    NormalizeSplits(v);
    NormalizeSplits(w);
  }

  /** A token character of RFC 9110, section 5.6.2. */
  predicate TokenChar(c: char) {
    'A' <= c <= 'Z' || 'a' <= c <= 'z' || '0' <= c <= '9' || c in "!#$%&'*+-.^_`|~"
  }

  /** Visible ASCII without the delimiters of RFC 9110, section 5.6.2. */
  lemma TokenExactly(c: char)
    ensures TokenChar(c) <==> '!' <= c <= '~' && c !in "\"(),/:;<=>?@[\\]{}"
  {
    MarkExactly(c);
    DelimiterExactly(c);
  }

  lemma MarkExactly(c: char)
    ensures c in "!#$%&'*+-.^_`|~" <==>
      || c == '!' || '#' <= c <= '\'' || c == '*' || c == '+' || c == '-' || c == '.' || '^' <= c <= '`'
      || c == '|' || c == '~'
  {
    var marks := "!#$%&'*+-.^_`|~";
    assert |marks| == 15 && marks[0] == '!' && marks[1] == '#' && marks[2] == '$' && marks[3] == '%';
    assert marks[4] == '&' && marks[5] == '\'' && marks[6] == '*' && marks[7] == '+' && marks[8] == '-';
    assert marks[9] == '.' && marks[10] == '^' && marks[11] == '_' && marks[12] == '`' && marks[13] == '|';
    assert marks[14] == '~';
  }

  lemma DelimiterExactly(c: char)
    ensures c in "\"(),/:;<=>?@[\\]{}" <==>
      || c == '"' || c == '(' || c == ')' || c == ',' || c == '/' || ':' <= c <= '@' || '[' <= c <= ']'
      || c == '{' || c == '}'
  {
    var marks := "\"(),/:;<=>?@[\\]{}";
    assert |marks| == 17 && marks[0] == '"' && marks[1] == '(' && marks[2] == ')' && marks[3] == ',';
    assert marks[4] == '/' && marks[5] == ':' && marks[6] == ';' && marks[7] == '<' && marks[8] == '=';
    assert marks[9] == '>' && marks[10] == '?' && marks[11] == '@' && marks[12] == '[' && marks[13] == '\\';
    assert marks[14] == ']' && marks[15] == '{' && marks[16] == '}';
  }

  predicate LowerToken(name: string) {
    name != "" && forall c | c in name :: TokenChar(c) && !('A' <= c <= 'Z')
  }

  /** valid_signed_header_names */
  predicate ValidNames(names: seq<string>) {
    && names != [] && (forall i | 0 <= i < |names| :: LowerToken(names[i]))
    && (forall i | 0 < i < |names| :: StrLe(names[i - 1], names[i]) && names[i - 1] != names[i])
  }

  /** The neighbour-by-neighbour test means sorted without repetition. */
  lemma {:induction false} ValidNamesSorted(names: seq<string>)
    requires forall i | 0 < i < |names| :: StrLe(names[i - 1], names[i]) && names[i - 1] != names[i]
    ensures Sorted(names, STR_LE) && Distinct(names)
  {
    if |names| > 1 {
      var front, last := names[..|names| - 1], Last(names);
      ValidNamesSorted(front);
      forall i | 0 <= i < |front| ensures StrLe(front[i], last) && front[i] != last {
        var prev := Last(front);
        assert names[|names| - 2] == prev;
        if i < |front| - 1 {
          assert STR_LE(front[i], prev);
          StrLeTransitive(front[i], prev, last);
          StrLeTotal(front[i], prev);
          StrLeTotal(prev, last);
        }
      }
    }
  }

  lemma TokenSeparators(name: string)
    requires LowerToken(name)
    ensures ':' !in name && ';' !in name && '\n' !in name
  {
    assert forall c | c in "!#$%&'*+-.^_`|~" :: c != ':' && c != ';' && c != '\n';
  }

  // ---- The canonical request ----

  /** What a signature covers: the request, and the headers its signer named. */
  datatype Signed = Signed(method_: string, path: string, params: Params, headers: map<string, string>,
                           names: seq<string>)

  /** A request that passed the header checks. */
  ghost predicate Checked(r: Signed) {
    && '\n' !in r.method_ && PathText(r.path) && ParamText(r.params) && ValidNames(r.names)
    && forall n | n in r.names :: n in r.headers
  }

  function HeaderLine(name: string, value: string): string { name + ":" + Normalize(value) }

  function HeaderLines(names: seq<string>, headers: map<string, string>): seq<string>
    requires forall n | n in names :: n in headers
  {
    seq(|names|, i requires 0 <= i < |names| => assert names[i] in names; HeaderLine(names[i], headers[names[i]]))
  }

  /** Lines, each with its line break. */
  function Block(lines: seq<string>): string {
    if lines == [] then "" else Block(lines[..|lines| - 1]) + Last(lines) + "\n"
  }

  const PAYLOAD := "UNSIGNED-PAYLOAD"

  /** The text that is hashed and signed. */
  function RequestText(method_: string, uri: string, query: string, block: string, names: string): string {
    method_ + "\n" + uri + "\n" + query + "\n" + block + "\n" + names + "\n" + PAYLOAD
  }

  /** The canonical request, given the signed parameters in order. */
  function CanonicalText(r: Signed, pairs: seq<(string, string)>): string
    requires forall n | n in r.names :: n in r.headers
  {
    RequestText(r.method_, CanonicalUri(r.path), Join(PairTexts(pairs), '&'), Block(HeaderLines(r.names, r.headers)),
                Join(r.names, ';'))
  }

  lemma {:induction false} JoinBlock(lines: seq<string>, rest: seq<string>)
    requires rest != []
    ensures Join(lines + rest, '\n') == Block(lines) + Join(rest, '\n')
  {
    if lines == [] {
      assert lines + rest == rest;
    } else {
      var front, last := lines[..|lines| - 1], Last(lines);
      assert lines + rest == front + ([last] + rest);
      JoinBlock(front, [last] + rest);
      assert ([last] + rest)[1..] == rest;
    }
  }

  /** The canonical request as lines. */
  function Lines(r: Signed, pairs: seq<(string, string)>): seq<string>
    requires forall n | n in r.names :: n in r.headers
  {
    [r.method_, CanonicalUri(r.path), Join(PairTexts(pairs), '&')] + HeaderLines(r.names, r.headers)
    + ["", Join(r.names, ';'), PAYLOAD]
  }

  /** The canonical request, line by line. */
  lemma TextIsLines(r: Signed, pairs: seq<(string, string)>)
    requires forall n | n in r.names :: n in r.headers
    ensures CanonicalText(r, pairs) == Join(Lines(r, pairs), '\n')
    ensures Lines(r, pairs) == [r.method_, CanonicalUri(r.path), Join(PairTexts(pairs), '&')] +
      HeaderLines(r.names, r.headers) + ["", Join(r.names, ';'), "UNSIGNED-PAYLOAD"]
  {
    var m, u, q := r.method_, CanonicalUri(r.path), Join(PairTexts(pairs), '&');
    var lines, n := HeaderLines(r.names, r.headers), Join(r.names, ';');
    hide CanonicalUri, PairTexts, HeaderLines;
    JoinFront(m, u, q, lines + ["", n, PAYLOAD]);
    assert [m, u, q] + (lines + ["", n, PAYLOAD]) == Lines(r, pairs);
    JoinBlock(lines, ["", n, PAYLOAD]);
    JoinThree("", n, PAYLOAD);
    hide Join, Block;
    TextOf(m, u, q, Block(lines), n);
  }

  lemma TextOf(m: string, u: string, q: string, block: string, n: string)
    ensures RequestText(m, u, q, block, n) ==
      m + "\n" + u + "\n" + q + "\n" + (block + ("" + "\n" + n + "\n" + PAYLOAD))
  {
    hide PAYLOAD;
    assert block + ("" + "\n" + n + "\n" + PAYLOAD) == block + "\n" + n + "\n" + PAYLOAD;
  }

  lemma JoinFront(a: string, b: string, c: string, rest: seq<string>)
    requires rest != []
    ensures Join([a, b, c] + rest, '\n') == a + "\n" + b + "\n" + c + "\n" + Join(rest, '\n')
  {
    JoinBlock([a, b, c], rest);
    assert [a, b, c][..2] == [a, b] && [a, b][..1] == [a] && [a][..0] == [];
    assert Block([a]) == a + "\n";
    assert Block([a, b]) == a + "\n" + b + "\n";
    assert Block([a, b, c]) == a + "\n" + b + "\n" + c + "\n";
  }

  lemma JoinThree(a: string, b: string, c: string)
    ensures Join([a, b, c], '\n') == a + "\n" + b + "\n" + c
  {
    assert [a, b, c][1..] == [b, c] && [b, c][1..] == [c];
    assert Join([b, c], '\n') == b + ['\n'] + c;
  }

  /** No line of a checked request contains a line break. */
  lemma LinesAreLines(r: Signed, pairs: seq<(string, string)>)
    requires Checked(r) && Lists(pairs, r.params)
    ensures forall i | 0 <= i < |Lines(r, pairs)| :: '\n' !in Lines(r, pairs)[i]
  {
    QuerySplits(pairs, r.params);
    UriHasNoBreak(r.path);
    HeadersHaveNoBreak(r.names, r.headers);
    assert '\n' !in PAYLOAD;
    hide Lists, CanonicalUri, Join, HeaderLines, PairTexts, PAYLOAD, ValidNames, PathText, ParamText;
    NoBreaks(r.method_, CanonicalUri(r.path), Join(PairTexts(pairs), '&'), HeaderLines(r.names, r.headers),
             Join(r.names, ';'));
  }

  lemma NoBreaks(m: string, u: string, q: string, lines: seq<string>, n: string)
    requires '\n' !in m && '\n' !in u && '\n' !in q && '\n' !in n && '\n' !in PAYLOAD
    requires forall i | 0 <= i < |lines| :: '\n' !in lines[i]
    ensures var all := [m, u, q] + lines + ["", n, PAYLOAD];
      forall i | 0 <= i < |all| :: '\n' !in all[i]
  {
    hide PAYLOAD;
  }

  lemma HeadersHaveNoBreak(names: seq<string>, headers: map<string, string>)
    requires ValidNames(names) && forall n | n in names :: n in headers
    ensures forall i | 0 <= i < |HeaderLines(names, headers)| :: '\n' !in HeaderLines(names, headers)[i]
    ensures '\n' !in Join(names, ';')
  {
    hide Normalize, LowerToken;
    forall i | 0 <= i < |names| ensures '\n' !in HeaderLines(names, headers)[i] && '\n' !in names[i] {
      assert names[i] in names;
      TokenSeparators(names[i]);
      NormalizeSplits(headers[names[i]]);
    }
    JoinChars(names, ';', '\n');
  }

  lemma {:induction false} JoinAscii(parts: seq<string>, sep: char)
    requires sep as int < 0x80 && forall i | 0 <= i < |parts| :: Ascii(parts[i])
    ensures Ascii(Join(parts, sep))
  {
    if |parts| > 1 { JoinAscii(parts[1..], sep); }
  }

  /** A canonical path is plain ASCII. */
  lemma CanonicalIsAscii(path: string)
    requires PathText(path)
    ensures Ascii(CanonicalUri(path))
  {
    SegmentsAreText(path);
    EncodeAllFacts(Segments(path));
    hide Segments;
    JoinAscii(EncodeAll(Segments(path)), '/');
  }

  lemma UriHasNoBreak(path: string)
    requires PathText(path)
    ensures '\n' !in CanonicalUri(path)
  {
    SegmentsAreText(path);
    EncodeAllFacts(Segments(path));
    hide Segments;
    JoinChars(EncodeAll(Segments(path)), '/', '\n');
  }

  /** The two requests agree on everything a signature covers. */
  ghost predicate Agree(r: Signed, s: Signed)
    requires (forall n | n in r.names :: n in r.headers) && (forall n | n in s.names :: n in s.headers)
  {
    && r.method_ == s.method_ && Segments(r.path) == Segments(s.path) && SameSigned(r.params, s.params)
    && r.names == s.names && forall n | n in r.names :: Words(r.headers[n]) == Words(s.headers[n])
  }

  lemma NamesSplit(names: seq<string>)
    requires ValidNames(names)
    ensures Split(Join(names, ';'), ';') == names
  {
    forall i | 0 <= i < |names| ensures ';' !in names[i] { TokenSeparators(names[i]); }
    SplitJoin(names, ';');
  }

  lemma HeadersAgree(names: seq<string>, h: map<string, string>, g: map<string, string>)
    requires (forall n | n in names :: n in h) && (forall n | n in names :: n in g)
    ensures HeaderLines(names, h) == HeaderLines(names, g) <==> forall n | n in names :: Words(h[n]) == Words(g[n])
  {
    hide Normalize, Words;
    forall i | 0 <= i < |names|
      ensures HeaderLines(names, h)[i] == HeaderLines(names, g)[i] <==> Words(h[names[i]]) == Words(g[names[i]])
    {
      assert names[i] in names;
      NormalizeUnambiguous(h[names[i]], g[names[i]]);
      SameTail(names[i] + ":", Normalize(h[names[i]]), Normalize(g[names[i]]));
    }
    hide HeaderLine;
    if HeaderLines(names, h) == HeaderLines(names, g) {
      forall n | n in names ensures Words(h[n]) == Words(g[n]) {
        var i :| 0 <= i < |names| && names[i] == n;
      }
    }
  }

  /**
   The canonical request is unambiguous: two checked requests have the same one exactly when they
   agree on method, decoded path, parameters other than the signature, signed header names, and
   signed values up to white space.
   */
  lemma CanonicalUnambiguous(r: Signed, a: seq<(string, string)>, s: Signed, b: seq<(string, string)>)
    requires Checked(r) && Checked(s) && Lists(a, r.params) && Lists(b, s.params)
    ensures CanonicalText(r, a) == CanonicalText(s, b) <==> Agree(r, s)
  {
    TextIsLines(r, a);
    TextIsLines(s, b);
    LinesAreLines(r, a);
    LinesAreLines(s, b);
    SplitJoin(Lines(r, a), '\n');
    SplitJoin(Lines(s, b), '\n');
    LinesAgree(r, a, s, b);
    hide CanonicalText, Lines, Agree, Checked, Lists;
  }

  lemma LinesAgree(r: Signed, a: seq<(string, string)>, s: Signed, b: seq<(string, string)>)
    requires Checked(r) && Checked(s) && Lists(a, r.params) && Lists(b, s.params)
    ensures Lines(r, a) == Lines(s, b) <==> Agree(r, s)
  {
    PathUnambiguous(r.path, s.path);
    QueryUnambiguous(a, b, r.params, s.params);
    NamesSplit(r.names);
    NamesSplit(s.names);
    hide CanonicalUri, Join, PairTexts, Segments, SameSigned, Lists, PathText, ParamText, ValidNames, Split;
    if r.names == s.names { HeadersAgree(r.names, r.headers, s.headers); }
    hide Words, HeaderLine;
    SameLines(r.method_, CanonicalUri(r.path), Join(PairTexts(a), '&'), HeaderLines(r.names, r.headers),
              Join(r.names, ';'),
              s.method_, CanonicalUri(s.path), Join(PairTexts(b), '&'), HeaderLines(s.names, s.headers),
              Join(s.names, ';'));
    hide HeaderLines;
  }

  lemma SameLines(m: string, u: string, q: string, h: seq<string>, n: string, m': string, u': string, q': string,
                  h': seq<string>, n': string)
    ensures [m, u, q] + h + ["", n, PAYLOAD] == [m', u', q'] + h' + ["", n', PAYLOAD] <==>
      m == m' && u == u' && q == q' && h == h' && n == n'
  {
    var a, b := [m, u, q] + h + ["", n, PAYLOAD], [m', u', q'] + h' + ["", n', PAYLOAD];
    hide PAYLOAD;
    if a == b {
      assert a[0] == m && a[1] == u && a[2] == q && b[0] == m' && b[1] == u' && b[2] == q';
      assert |h| == |h'| && a[3..3 + |h|] == h && b[3..3 + |h|] == h';
      assert a[|h| + 4] == n && b[|h| + 4] == n';
    }
  }
}
