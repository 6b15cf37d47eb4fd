/**
 Text as the sequence of its UTF-8 bytes, one character per byte: splitting and joining, decimal
 numbers, and well-formed UTF-8 (RFC 3629, section 4).
 */
module Text {
  import opened Common

  /** Every character stands for one byte. */
  predicate IsBytes(s: string) { forall i | 0 <= i < |s| :: s[i] as int < 256 }

  function LowerAscii(c: char): char {
    if 'A' <= c <= 'Z' then c - 'A' + 'a' else c
  }

  /** to_ascii_lowercase */
  function Lower(s: string): string {
    seq(|s|, i requires 0 <= i < |s| => LowerAscii(s[i]))
  }

  // ---- Splitting and joining ----

  /** str::split on one character. */
  function Split(s: string, sep: char): (parts: seq<string>)
    ensures |parts| > 0
    ensures forall i | 0 <= i < |parts| :: sep !in parts[i]
  {
    if s == "" then [""]
    else
      var rest := Split(s[1..], sep);
      if s[0] == sep then [""] + rest else [[s[0]] + rest[0]] + rest[1..]
  }

  function Join(parts: seq<string>, sep: char): string {
    if parts == [] then ""
    else if |parts| == 1 then parts[0]
    else parts[0] + [sep] + Join(parts[1..], sep)
  }

  lemma {:induction false} SplitWhole(s: string, sep: char)
    requires sep !in s
    ensures Split(s, sep) == [s]
  {
    if s != "" {
      SplitWhole(s[1..], sep);
      assert [s[0]] + s[1..] == s;
    }
  }

  lemma {:induction false} SplitFirst(a: string, sep: char, b: string)
    requires sep !in a
    ensures Split(a + [sep] + b, sep) == [a] + Split(b, sep)
  {
    var s := a + [sep] + b;
    if a == "" {
      assert s[1..] == b;
    } else {
      SplitFirst(a[1..], sep, b);
      assert s[1..] == a[1..] + [sep] + b;
      assert [a[0]] + a[1..] == a;
    }
  }

  /** Joining parts without the separator loses nothing. */
  lemma {:induction false} SplitJoin(parts: seq<string>, sep: char)
    requires parts != [] && forall i | 0 <= i < |parts| :: sep !in parts[i]
    ensures Split(Join(parts, sep), sep) == parts
  {
    if |parts| == 1 {
      SplitWhole(parts[0], sep);
    } else {
      SplitJoin(parts[1..], sep);
      SplitFirst(parts[0], sep, Join(parts[1..], sep));
      assert parts == [parts[0]] + parts[1..];
    }
  }

  lemma {:induction false} JoinSplit(s: string, sep: char)
    ensures Join(Split(s, sep), sep) == s
  {
    if s != "" {
      JoinSplit(s[1..], sep);
      var rest := Split(s[1..], sep);
      if s[0] == sep {
        assert ([""] + rest)[1..] == rest;
      } else {
        var parts := [[s[0]] + rest[0]] + rest[1..];
        assert parts[1..] == rest[1..];
        assert rest == [rest[0]] + rest[1..];
      }
    }
  }

  lemma {:induction false} JoinChars(parts: seq<string>, sep: char, c: char)
    requires c != sep && forall i | 0 <= i < |parts| :: c !in parts[i]
    ensures c !in Join(parts, sep)
  {
    if |parts| > 1 {
      JoinChars(parts[1..], sep, c);
    }
  }

  /** trim_start_matches on one character. */
  function TrimStart(s: string, c: char): (r: string)
    ensures |r| <= |s| && s[|s| - |r|..] == r && (r != "" ==> r[0] != c)
  {
    if s != "" && s[0] == c then TrimStart(s[1..], c) else s
  }

  /** Trimming separators drops leading empty parts. */
  lemma {:induction false} TrimShortensSplit(s: string, sep: char)
    ensures |Split(TrimStart(s, sep), sep)| <= |Split(s, sep)|
  {
    if s != "" && s[0] == sep {
      TrimShortensSplit(s[1..], sep);
    }
  }

  // ---- Decimal numbers ----

  predicate IsDigit(c: char) { '0' <= c <= '9' }

  /** Digits read as a decimal number; None for anything else. */
  function ParseDigits(s: string): Option<nat> {
    if s == "" || !IsDigit(Last(s)) then None
    else
      var digit := (Last(s) - '0') as nat;
      if |s| == 1 then Some(digit)
      else match ParseDigits(s[..|s| - 1]) case None => None case Some(n) => Some(10 * n + digit)
  }

  function DigitChar(n: nat): char
    requires n < 10
  {
    '0' + n as char
  }

  /** to_string on a number. */
  function Decimal(n: nat): string {
    if n < 10 then [DigitChar(n)] else Decimal(n / 10) + [DigitChar(n % 10)]
  }

  lemma {:induction false} DecimalRoundTrip(n: nat)
    ensures ParseDigits(Decimal(n)) == Some(n) && Decimal(n) != ""
    ensures forall c | c in Decimal(n) :: IsDigit(c)
    ensures n > 0 ==> Decimal(n)[0] != '0'
  {
    if n >= 10 {
      DecimalRoundTrip(n / 10);
      var s := Decimal(n);
      assert s[..|s| - 1] == Decimal(n / 10);
      assert Last(s) == DigitChar(n % 10);
    }
  }

  const I64_MAX: nat := 0x7FFF_FFFF_FFFF_FFFF

  /** str::parse::<i64> */
  function ParseI64(s: string): Option<int> {
    if s != "" && s[0] == '-' then
      match ParseDigits(s[1..])
      case None => None
      case Some(n) => (var m: int := 0 - n; if n <= I64_MAX + 1 then Some(m) else None)
    else
      match ParseDigits(if s != "" && s[0] == '+' then s[1..] else s)
      case None => None
      case Some(n) => (var m: int := n; if n <= I64_MAX then Some(m) else None)
  }

  /** What is read is a 64-bit number. */
  lemma I64Range(s: string)
    ensures ParseI64(s).Some? ==> -0x8000_0000_0000_0000 <= ParseI64(s).value < 0x8000_0000_0000_0000
  {
    hide ParseDigits;
  }

  /** Every 64-bit number is read from its digits, with a sign or without. */
  lemma I64Digits(n: nat)
    ensures n < 0x8000_0000_0000_0000 ==> ParsesTo(Decimal(n), n) && ParsesTo("+" + Decimal(n), n)
    ensures n <= 0x8000_0000_0000_0000 ==> ParsesTo("-" + Decimal(n), 0 - n)
  {
    var s := Decimal(n);
    DecimalRoundTrip(n);
    assert s[0] in s && IsDigit(s[0]);
    hide Decimal, ParsesTo;
    Unsigned(s, n);
    SignedText('+', s, n);
    SignedText('-', s, n);
  }

  lemma Unsigned(s: string, n: nat)
    requires s != "" && IsDigit(s[0]) && ParseDigits(s) == Some(n)
    ensures n < 0x8000_0000_0000_0000 ==> ParsesTo(s, n)
  {
    hide ParseDigits;
  }

  lemma SignedText(sign: char, s: string, n: nat)
    requires (sign == '+' || sign == '-') && ParseDigits(s) == Some(n)
    ensures sign == '+' && n < 0x8000_0000_0000_0000 ==> ParsesTo([sign] + s, n)
    ensures sign == '-' && n <= 0x8000_0000_0000_0000 ==> ParsesTo([sign] + s, 0 - n)
  {
    assert ([sign] + s)[1..] == s;
    hide ParseDigits;
  }

  predicate ParsesTo(s: string, n: int) { ParseI64(s).Some? && ParseI64(s).value == n }

  // ---- UTF-8 ----

  predicate Between(c: char, lo: int, hi: int) { lo <= c as int <= hi }
  predicate Tail(c: char) { Between(c, 0x80, 0xBF) }

  /** The length of the first character, or 0 if it is malformed. */
  function FirstLength(s: string): (n: nat)
    requires s != ""
    ensures n <= |s| && n <= 4
    ensures n == 1 <==> s[0] as int < 0x80
    ensures forall i | 1 <= i < n :: Tail(s[i])
  {
    if s[0] as int < 0x80 then 1
    else if Between(s[0], 0xC2, 0xDF) && |s| > 1 && Tail(s[1]) then 2
    else if |s| > 2 && Tail(s[1]) && Tail(s[2]) &&
            (  (Between(s[0], 0xE0, 0xE0) && Between(s[1], 0xA0, 0xBF)) || Between(s[0], 0xE1, 0xEC)
            || (Between(s[0], 0xED, 0xED) && Between(s[1], 0x80, 0x9F)) || Between(s[0], 0xEE, 0xEF)) then 3
    else if |s| > 3 && Tail(s[1]) && Tail(s[2]) && Tail(s[3]) &&
            (  (Between(s[0], 0xF0, 0xF0) && Between(s[1], 0x90, 0xBF)) || Between(s[0], 0xF1, 0xF3)
            || (Between(s[0], 0xF4, 0xF4) && Between(s[1], 0x80, 0x8F))) then 4
    else 0
  }

  /** The code point of the first character, read from its first `n` bytes. */
  function CodePoint(s: string, n: nat): int
    requires n <= |s|
  {
    if n == 1 then s[0] as int
    else if n == 2 then (s[0] as int - 0xC0) * 64 + (s[1] as int - 0x80)
    else if n == 3 then (s[0] as int - 0xE0) * 4096 + (s[1] as int - 0x80) * 64 + (s[2] as int - 0x80)
    else if n == 4 then
      (s[0] as int - 0xF0) * 262_144 + (s[1] as int - 0x80) * 4096 + (s[2] as int - 0x80) * 64 + (s[3] as int - 0x80)
    else 0
  }

  /** `n` bytes shaped like a character: a lead byte for that length and continuation bytes. */
  predicate Shaped(s: string, n: nat) {
    && 1 <= n <= 4 && n <= |s| && (forall i | 1 <= i < n :: 0x80 <= s[i] as int < 0xC0)
    && (n == 1 ==> s[0] as int < 0x80) && (n == 2 ==> 0xC0 <= s[0] as int < 0xE0)
    && (n == 3 ==> 0xE0 <= s[0] as int < 0xF0) && (n == 4 ==> 0xF0 <= s[0] as int < 0xF8)
  }

  /** A code point that takes exactly `n` bytes: the shortest form, no surrogate, at most U+10FFFF. */
  predicate TakesBytes(cp: int, n: nat) {
    || (n == 1 && 0 <= cp < 0x80) || (n == 2 && 0x80 <= cp < 0x800)
    || (n == 3 && 0x800 <= cp < 0x1_0000 && !(0xD800 <= cp <= 0xDFFF)) || (n == 4 && 0x1_0000 <= cp <= 0x10_FFFF)
  }

  /** A text starts with a character of `n` bytes exactly if they are its shortest UTF-8 form. */
  lemma FirstLengthExactly(s: string, n: nat)
    requires s != "" && 1 <= n <= 4
    ensures FirstLength(s) == n <==> Shaped(s, n) && TakesBytes(CodePoint(s, n), n)
  {
  }

  predicate Utf8(s: string) {
    s == "" || (FirstLength(s) > 0 && Utf8(s[FirstLength(s)..]))
  }

  /** Cutting well-formed text at an ASCII character leaves well-formed text. */
  lemma {:induction false} Utf8Cut(a: string, c: char, b: string)
    requires c as int < 0x80 && Utf8(a + [c] + b)
    ensures Utf8(a) && Utf8(b)
    decreases |a|
  {
    var s := a + [c] + b;
    var n := FirstLength(s);
    if a == "" {
      assert s[1..] == b;
    } else {
      assert s[|a|] == c && n <= |a|;
      assert s[n..] == a[n..] + [c] + b;
      assert forall i | 0 <= i < n :: a[i] == s[i];
      Utf8Cut(a[n..], c, b);
      assert FirstLength(a) == n;
    }
  }

  lemma {:induction false} Utf8Segments(s: string, sep: char)
    requires sep as int < 0x80 && Utf8(s)
    ensures forall i | 0 <= i < |Split(s, sep)| :: Utf8(Split(s, sep)[i])
  {
    var parts := Split(s, sep);
    JoinSplit(s, sep);
    Utf8Parts(parts, sep);
  }

  lemma {:induction false} Utf8Parts(parts: seq<string>, sep: char)
    requires sep as int < 0x80 && Utf8(Join(parts, sep))
    ensures forall i | 0 <= i < |parts| :: Utf8(parts[i])
  {
    if |parts| > 1 {
      Utf8Cut(parts[0], sep, Join(parts[1..], sep));
      Utf8Parts(parts[1..], sep);
      assert parts == [parts[0]] + parts[1..];
    }
  }

  predicate Ascii(s: string) { forall i | 0 <= i < |s| :: s[i] as int < 0x80 }

  lemma {:induction false} AsciiIsUtf8(s: string)
    requires Ascii(s)
    ensures Utf8(s) && IsBytes(s)
  {
    if s != "" { AsciiIsUtf8(s[1..]); }
  }

  lemma FirstLengthPrefix(a: string, b: string)
    requires a != "" && FirstLength(a) > 0
    ensures FirstLength(a + b) == FirstLength(a)
  {
    var s := a + b;
    assert s[0] == a[0];
    assert |a| > 1 ==> s[1] == a[1];
    assert |a| > 2 ==> s[2] == a[2];
    assert |a| > 3 ==> s[3] == a[3];
  }

  lemma Utf8Head(s: string)
    requires Utf8(s) && s != ""
    ensures 0 < FirstLength(s) <= |s| && Utf8(s[FirstLength(s)..])
  {
  }

  lemma Utf8Build(s: string)
    requires s != "" && 0 < FirstLength(s) <= |s| && Utf8(s[FirstLength(s)..])
    ensures Utf8(s)
  {
  }

  lemma {:induction false} Utf8Concat(a: string, b: string)
    requires Utf8(a) && Utf8(b)
    ensures Utf8(a + b)
    decreases |a|
  {
    if a == "" {
      assert a + b == b;
    } else {
      hide FirstLength, Utf8;
      Utf8Head(a);
      var n := FirstLength(a);
      Utf8Concat(a[n..], b);
      FirstLengthPrefix(a, b);
      assert (a + b)[n..] == a[n..] + b;
      Utf8Build(a + b);
    }
  }
}
