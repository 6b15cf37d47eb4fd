/**
 Issuing presigned URLs (src/auth/presigned.rs:82-144), and the round trip: what is issued is
 read back from its own query, and accepted exactly while it is in force.
 */
module PresignIssue {
  import opened Common
  import opened Sorting
  import opened Text
  import opened Canonical
  import opened Presign

  function IntText(n: int): string { if n < 0 then "-" + Decimal(-n) else Decimal(n) }

  function CredentialOf(signer: Signer, config: Config, now: int): Scope {
    Scope(config.accessKey, signer.dateStamp(now), REGION, SERVICE, TERMINATOR)
  }

  const NAMES := [ALGORITHM_NAME, CREDENTIAL_NAME, DATE_NAME, EXPIRES_NAME, HEADERS_NAME]

  /** The values of the five signed parameters, in the order of their names. */
  function Values(signer: Signer, config: Config, expiresIn: int, now: int): seq<string> {
    [ALGORITHM, ScopeText(CredentialOf(signer, config, now)), signer.amzDate(now), IntText(expiresIn), HOST]
  }

  /** Named values as an array of pairs. */
  function Zip(values: seq<string>): seq<(string, string)>
    requires |values| == 5
  {
    [(NAMES[0], values[0]), (NAMES[1], values[1]), (NAMES[2], values[2]), (NAMES[3], values[3]), (NAMES[4], values[4])]
  }

  function EncodedValues(values: seq<string>): (r: seq<string>)
    ensures |r| == |values|
  {
    seq(|values|, i requires 0 <= i < |values| => UriEncode(values[i]))
  }

  /** The parameters a URL carries. */
  function Carried(values: seq<string>, signature: string): Params
    requires |values| == 5
  {
    map[NAMES[0] := values[0], NAMES[1] := values[1], NAMES[2] := values[2], NAMES[3] := values[3],
        NAMES[4] := values[4], SIGNATURE := signature]
  }

  /** What an issued URL says, parameter by parameter. */
  lemma IssuedParameters(signer: Signer, config: Config, expiresIn: int, now: int, signature: string)
    ensures Carried(Values(signer, config, expiresIn, now), signature) ==
      map["X-Amz-Algorithm" := "AWS4-HMAC-SHA256",
          "X-Amz-Credential" := config.accessKey + "/" + signer.dateStamp(now) + "/" + "us-east-1/s3/aws4_request",
          "X-Amz-Date" := signer.amzDate(now),
          "X-Amz-Expires" := IntText(expiresIn),
          "X-Amz-SignedHeaders" := "host",
          "X-Amz-Signature" := signature]
  {
    hide IntText;
    var key, stamp := config.accessKey, signer.dateStamp(now);
    JoinFour(stamp, REGION, SERVICE, TERMINATOR, '/');
    assert [key, stamp, REGION, SERVICE, TERMINATOR][1..] == [stamp, REGION, SERVICE, TERMINATOR];
    var rest := REGION + ['/'] + SERVICE + ['/'] + TERMINATOR;
    assert rest == "us-east-1/s3/aws4_request";
    assert ScopeText(CredentialOf(signer, config, now)) == key + ['/'] + (stamp + ['/'] + rest) by {
      assert stamp + ['/'] + REGION + ['/'] + SERVICE + ['/'] + TERMINATOR == stamp + ['/'] + rest;
    }
    assert key + ['/'] + (stamp + ['/'] + rest) == key + "/" + stamp + "/" + rest;
  }

  predicate IsText(s: string) { IsBytes(s) && Utf8(s) }

  // ---- The parameter names ----

  lemma {:induction false} StrLePrefix(p: string, a: string, b: string)
    ensures StrLe(p + a, p + b) <==> StrLe(a, b)
  {
    if p == "" {
      assert p + a == a && p + b == b;
    } else {
      StrLePrefix(p[1..], a, b);
      assert (p + a)[1..] == p[1..] + a && (p + b)[1..] == p[1..] + b;
    }
  }

  lemma NameOrder(a: string, b: string)
    requires a != "" && b != "" && a[0] < b[0]
    ensures StrLe("X-Amz-" + a, "X-Amz-" + b) && "X-Amz-" + a != "X-Amz-" + b
  {
    StrLePrefix("X-Amz-", a, b);
    assert ("X-Amz-" + a)[6] == a[0] && ("X-Amz-" + b)[6] == b[0];
  }

  lemma NamesOrdered()
    ensures Sorted(NAMES, STR_LE) && Distinct(NAMES)
  {
    Neighbours();
    hide StrLe, NAMES;
    ValidNamesSorted(NAMES);
  }

  lemma NameParts()
    ensures ALGORITHM_NAME == "X-Amz-" + "Algorithm" && CREDENTIAL_NAME == "X-Amz-" + "Credential"
    ensures DATE_NAME == "X-Amz-" + "Date"
    ensures EXPIRES_NAME == "X-Amz-" + "Expires" && HEADERS_NAME == "X-Amz-" + "SignedHeaders"
  {
  }

  lemma Neighbours()
    ensures forall i | 0 < i < |NAMES| :: StrLe(NAMES[i - 1], NAMES[i]) && NAMES[i - 1] != NAMES[i]
  {
    hide StrLe;
    NameOrder("Algorithm", "Credential");
    NameOrder("Credential", "Date");
    NameOrder("Date", "Expires");
    NameOrder("Expires", "SignedHeaders");
    NameParts();
    hide ALGORITHM_NAME, CREDENTIAL_NAME, DATE_NAME, EXPIRES_NAME, HEADERS_NAME;
    forall i | 0 < i < |NAMES| ensures StrLe(NAMES[i - 1], NAMES[i]) && NAMES[i - 1] != NAMES[i] {
      assert i == 1 || i == 2 || i == 3 || i == 4;
    }
  }

  lemma NamesPlain(i: nat)
    requires i < 5
    ensures Plain(NAMES[i]) && Ascii(NAMES[i]) && UriEncode(NAMES[i]) == NAMES[i] && NAMES[i] != ""
  {
    PlainNames();
    hide ALGORITHM_NAME, CREDENTIAL_NAME, DATE_NAME, EXPIRES_NAME, HEADERS_NAME, SIGNATURE;
    assert i == 0 || i == 1 || i == 2 || i == 3 || i == 4;
    hide NAMES;
    EncodePlain(NAMES[i]);
  }

  lemma SignatureIsNoName()
    ensures SIGNATURE !in NAMES
  {
    assert SIGNATURE[9] == 'n' && SIGNATURE[6] == 'S' && HEADERS_NAME[10] == 'e' && SIGNATURE[10] == 'a';
    assert ALGORITHM_NAME[6] == 'A' && CREDENTIAL_NAME[6] == 'C' && DATE_NAME[6] == 'D' && EXPIRES_NAME[6] == 'E';
  }

  lemma PlainNames()
    ensures Plain(NAMES[0]) && Plain(NAMES[1]) && Plain(NAMES[2]) && Plain(NAMES[3]) && Plain(NAMES[4])
    ensures Plain(SIGNATURE)
    ensures forall i | 0 <= i < 5 :: NAMES[i] != ""
  {
  }

  // ---- The query that is signed ----

  lemma CarriedAt(values: seq<string>, signature: string)
    requires |values| == 5
    ensures var m := Carried(values, signature);
      && (forall i | 0 <= i < 5 :: NAMES[i] in m && m[NAMES[i]] == values[i])
      && SIGNATURE in m && m[SIGNATURE] == signature
      && (forall k | k in m :: k == SIGNATURE || k in NAMES)
  {
    NamesOrdered();
    SignatureIsNoName();
    hide ALGORITHM_NAME, CREDENTIAL_NAME, DATE_NAME, EXPIRES_NAME, HEADERS_NAME, SIGNATURE;
    assert |NAMES| == 5;
    hide NAMES;
    assert forall i | 0 <= i < 5 :: NAMES[i] in NAMES;
  }

  /** The issued parameters, encoded, are exactly what validation lists from what was carried. */
  lemma FiveAreListed(values: seq<string>, signature: string)
    requires |values| == 5
    ensures Lists(Zip(EncodedValues(values)), Carried(values, signature))
  {
    var pairs, m := Zip(EncodedValues(values)), Carried(values, signature);
    NamesOrdered();
    SignatureIsNoName();
    CarriedAt(values, signature);
    hide StrLe, UriEncode;
    forall i | 0 <= i < 5 ensures EncodePair(m, NAMES[i]) == pairs[i] && pairs[i].0 == NAMES[i] {
      NamesPlain(i);
      ZipAt(values, i);
    }
    assert |NAMES| == 5 && |pairs| == 5;
    hide Carried, Zip, NAMES, SIGNATURE;
    ListedInOrder(pairs, NAMES, m);
  }

  lemma ListedInOrder(pairs: seq<(string, string)>, names: seq<string>, m: Params)
    requires |pairs| == |names| && Sorted(names, STR_LE) && Distinct(names) && SIGNATURE !in names
    requires forall k :: k in m <==> k == SIGNATURE || k in names
    requires forall i | 0 <= i < |names| ::
      names[i] in m && EncodePair(m, names[i]) == pairs[i] && pairs[i].0 == names[i]
    ensures Lists(pairs, m)
  {
    hide StrLe, UriEncode, SIGNATURE, EncodePair;
    forall i, j | 0 <= i < j < |pairs| ensures PAIR_LE(pairs[i], pairs[j]) && pairs[i] != pairs[j] {
      assert STR_LE(names[i], names[j]) && names[i] != names[j];
    }
    forall p ensures p in pairs <==> p in SignedPairs(m) {
      PairIsListed(pairs, names, m, p);
    }
  }

  lemma PairIsListed(pairs: seq<(string, string)>, names: seq<string>, m: Params, p: (string, string))
    requires |pairs| == |names| && SIGNATURE !in names && forall k :: k in m <==> k == SIGNATURE || k in names
    requires forall i | 0 <= i < |names| :: names[i] in m && EncodePair(m, names[i]) == pairs[i]
    ensures p in pairs <==> p in SignedPairs(m)
  {
    hide SIGNATURE, EncodePair;
    if p in pairs {
      var i :| 0 <= i < |pairs| && pairs[i] == p;
      assert names[i] in names && EncodePair(m, names[i]) == p;
    }
    if p in SignedPairs(m) {
      var k :| k in m && k != SIGNATURE && EncodePair(m, k) == p;
      var i :| 0 <= i < |names| && names[i] == k;
      assert pairs[i] == p;
    }
  }

  lemma ZipAt(values: seq<string>, i: nat)
    requires |values| == 5 && i < 5
    ensures |NAMES| == 5 && |Zip(EncodedValues(values))| == 5
    ensures Zip(EncodedValues(values))[i] == (NAMES[i], UriEncode(values[i]))
  {
    hide UriEncode, ALGORITHM_NAME, CREDENTIAL_NAME, DATE_NAME, EXPIRES_NAME, HEADERS_NAME;
    assert i == 0 || i == 1 || i == 2 || i == 3 || i == 4;
  }

  // ---- Reading the query back ----

  lemma PlainDecodes(s: string)
    requires Plain(s)
    ensures DecodeText(s) == s && Encoded(s)
  {
    EncodePlain(s);
    AsciiIsUtf8(s);
    EncodeRoundTrip(s);
  }

  lemma PairReadsBack(name: string, value: string)
    requires Plain(name) && IsText(value)
    ensures ParsePair(PairText((name, UriEncode(value)))) == (name, value)
    ensures '&' !in PairText((name, UriEncode(value))) && PairText((name, UriEncode(value))) != ""
  {
    PlainDecodes(name);
    EncodeIsEncoded(value);
    EncodeRoundTrip(value);
    PairSplits((name, UriEncode(value)));
    hide Decode, Utf8, UriEncode, PairText, Plain;
    var parts := [name, UriEncode(value)];
    assert parts[1..] == [UriEncode(value)];
    assert Join([UriEncode(value)], '=') == UriEncode(value);
  }

  lemma ParseAppend(parts: seq<string>, part: string)
    requires part != ""
    ensures ParseAll(parts + [part]) == ParseAll(parts)[ParsePair(part).0 := ParsePair(part).1]
  {
    assert (parts + [part])[..|parts|] == parts;
  }

  /** The parameter texts of a URL, the signature last. */
  function UrlParts(values: seq<string>, signature: string): seq<string>
    requires |values| == 5
  {
    PairTexts(Zip(EncodedValues(values))) + [PairText((SIGNATURE, signature))]
  }

  lemma PartAt(values: seq<string>, signature: string, i: nat)
    requires |values| == 5 && i < 5 && IsText(values[i])
    ensures var part := UrlParts(values, signature)[i];
      |UrlParts(values, signature)| == 6 && ParsePair(part) == (NAMES[i], values[i]) && '&' !in part && part != ""
  {
    NamesPlain(i);
    ZipAt(values, i);
    PairReadsBack(NAMES[i], values[i]);
    hide Zip, NAMES, PairText, ParsePair, Plain;
  }

  lemma SignaturePart(values: seq<string>, signature: string)
    requires |values| == 5 && Plain(signature)
    ensures var part := UrlParts(values, signature)[5];
      |UrlParts(values, signature)| == 6 && ParsePair(part) == (SIGNATURE, signature) && '&' !in part && part != ""
  {
    PlainNames();
    EncodePlain(signature);
    AsciiIsUtf8(signature);
    PairReadsBack(SIGNATURE, signature);
    ZipAt(values, 0);
    hide Zip, NAMES, PairText, ParsePair, Plain, SIGNATURE;
  }

  /** Percent-decoding the query of an issued URL gives back the parameters it carries. */
  lemma PartsReadBack(values: seq<string>, signature: string)
    requires |values| == 5 && (forall i | 0 <= i < 5 :: IsText(values[i])) && Plain(signature)
    ensures ParseAll(UrlParts(values, signature)) == Carried(values, signature)
    ensures forall i | 0 <= i < |UrlParts(values, signature)| :: '&' !in UrlParts(values, signature)[i]
  {
    var parts := UrlParts(values, signature);
    forall i | 0 <= i < 5
      ensures |parts| == 6 && ParsePair(parts[i]) == (NAMES[i], values[i]) && '&' !in parts[i] && parts[i] != ""
    {
      PartAt(values, signature, i);
    }
    SignaturePart(values, signature);
    hide UrlParts, ParsePair, IsText, ALGORITHM_NAME, CREDENTIAL_NAME, DATE_NAME, EXPIRES_NAME, HEADERS_NAME, SIGNATURE;
    SixParts(parts, values, signature);
  }

  lemma SixParts(parts: seq<string>, values: seq<string>, signature: string)
    requires |parts| == 6 && |values| == 5 && forall i | 0 <= i < 6 :: parts[i] != ""
    requires forall i | 0 <= i < 5 :: ParsePair(parts[i]) == (NAMES[i], values[i])
    requires ParsePair(parts[5]) == (SIGNATURE, signature)
    ensures ParseAll(parts) == Carried(values, signature)
  {
    hide ParsePair, ALGORITHM_NAME, CREDENTIAL_NAME, DATE_NAME, EXPIRES_NAME, HEADERS_NAME, SIGNATURE;
    assert parts[..0] == [] && ParseAll([]) == map[];
    hide ParseAll;
    forall i | 0 <= i < 6
      ensures ParseAll(parts[..i + 1]) == ParseAll(parts[..i])[ParsePair(parts[i]).0 := ParsePair(parts[i]).1]
    {
      assert parts[..i + 1] == parts[..i] + [parts[i]];
      ParseAppend(parts[..i], parts[i]);
    }
    assert ParseAll(parts[..1]) == map[NAMES[0] := values[0]];
    assert ParseAll(parts[..2]) == ParseAll(parts[..1])[NAMES[1] := values[1]];
    assert ParseAll(parts[..3]) == ParseAll(parts[..2])[NAMES[2] := values[2]];
    assert ParseAll(parts[..4]) == ParseAll(parts[..3])[NAMES[3] := values[3]];
    assert ParseAll(parts[..5]) == ParseAll(parts[..4])[NAMES[4] := values[4]];
    assert parts[..6] == parts;
  }

  // ---- Issuing ----

  function ObjectPath(bucket: string, key: string): string { "/" + bucket + "/" + key }

  function QueryText(values: seq<string>): string
    requires |values| == 5
  {
    Join(PairTexts(Zip(EncodedValues(values))), '&')
  }

  /** The signature of an issued URL; the host goes in as given. */
  function IssuedSignature(signer: Signer, path: string, method_: string, expiresIn: int, host: string, config: Config,
                           now: int): string
  {
    signer.Sign(config.secretKey, signer.amzDate(now), CredentialOf(signer, config, now),
                RequestText(method_, CanonicalUri(path), QueryText(Values(signer, config, expiresIn, now)),
                            "host:" + host + "\n", HOST))
  }

  const NAME_LE: ((string, string), (string, string)) -> bool :=
    (a: (string, string), b: (string, string)) => StrLe(a.0, b.0)

  lemma {:induction false} SortSame<T>(s: seq<T>, le: (T, T) -> bool)
    requires Sorted(s, le)
    ensures Sort(s, le) == s
  {
    if s != [] {
      SortSame(s[1..], le);
      assert s == [s[0]] + s[1..];
    }
  }

  lemma ZipSorted(values: seq<string>)
    requires |values| == 5
    ensures Sorted(Zip(values), NAME_LE)
  {
    NamesOrdered();
    hide StrLe, ALGORITHM_NAME, CREDENTIAL_NAME, DATE_NAME, EXPIRES_NAME, HEADERS_NAME;
    forall i | 0 <= i < 5 ensures Zip(values)[i].0 == NAMES[i] {
      assert i == 0 || i == 1 || i == 2 || i == 3 || i == 4;
    }
    assert |Zip(values)| == 5 && |NAMES| == 5;
    hide Zip, NAMES;
    forall i, j | 0 <= i < j < 5 ensures NAME_LE(Zip(values)[i], Zip(values)[j]) {
      assert STR_LE(NAMES[i], NAMES[j]);
    }
  }

  lemma EncodeZip(values: seq<string>)
    requires |values| == 5
    ensures PairTexts(Zip(EncodedValues(values))) ==
      seq(5, i requires 0 <= i < 5 => Zip(values)[i].0 + "=" + UriEncode(Zip(values)[i].1))
  {
    hide UriEncode, ALGORITHM_NAME, CREDENTIAL_NAME, DATE_NAME, EXPIRES_NAME, HEADERS_NAME;
    var a := PairTexts(Zip(EncodedValues(values)));
    forall i | 0 <= i < 5 ensures a[i] == Zip(values)[i].0 + "=" + UriEncode(Zip(values)[i].1) {
      assert i == 0 || i == 1 || i == 2 || i == 3 || i == 4;
    }
  }

  lemma {:induction false} JoinAppend(parts: seq<string>, last: string, sep: char)
    requires parts != []
    ensures Join(parts + [last], sep) == Join(parts, sep) + [sep] + last
  {
    if |parts| == 1 {
      assert parts + [last] == [parts[0], last] && [parts[0], last][1..] == [last];
    } else {
      JoinAppend(parts[1..], last, sep);
      assert (parts + [last])[1..] == parts[1..] + [last];
    }
  }

  lemma ValuesAreText(signer: Signer, config: Config, expiresIn: int, now: int)
    requires signer.Lawful() && IsText(config.accessKey)
    ensures forall i | 0 <= i < 5 :: IsText(Values(signer, config, expiresIn, now)[i])
  {
    hide Utf8, ScopeText, IntText, IsBytes, Ascii, ALGORITHM, HOST, REGION, SERVICE, TERMINATOR;
    CredentialIsText(CredentialOf(signer, config, now));
    ConstantsAreText();
    AsciiIsUtf8(signer.amzDate(now));
    IntIsAscii(expiresIn);
    AsciiIsUtf8(IntText(expiresIn));
    forall i | 0 <= i < 5 ensures IsText(Values(signer, config, expiresIn, now)[i]) {
      assert i == 0 || i == 1 || i == 2 || i == 3 || i == 4;
    }
  }

  lemma ConstantsAreText()
    ensures IsText(ALGORITHM) && IsText(HOST)
  {
    hide Utf8;
    AsciiIsUtf8(ALGORITHM);
    AsciiIsUtf8(HOST);
  }

  lemma CredentialIsText(s: Scope)
    requires s.region == REGION && s.service == SERVICE && s.terminator == TERMINATOR && IsText(s.accessKey)
    requires Ascii(s.date)
    ensures IsText(ScopeText(s))
  {
    var rest := Join([s.date, REGION, SERVICE, TERMINATOR], '/');
    RestIsAscii(s.date);
    AsciiIsUtf8(['/'] + rest);
    Utf8Concat(s.accessKey, ['/'] + rest);
    ScopeFront(s);
    hide Utf8, Join, REGION, SERVICE, TERMINATOR, ScopeText;
  }

  lemma ScopeFront(s: Scope)
    ensures ScopeText(s) == s.accessKey + (['/'] + Join([s.date, s.region, s.service, s.terminator], '/'))
  {
    var all := [s.accessKey, s.date, s.region, s.service, s.terminator];
    var rest := Join([s.date, s.region, s.service, s.terminator], '/');
    assert all[1..] == [s.date, s.region, s.service, s.terminator];
    assert Join(all, '/') == s.accessKey + ['/'] + rest;
    assert s.accessKey + ['/'] + rest == s.accessKey + (['/'] + rest);
  }

  lemma RestIsAscii(date: string)
    requires Ascii(date)
    ensures Ascii(['/'] + Join([date, REGION, SERVICE, TERMINATOR], '/'))
  {
    assert [date, REGION, SERVICE, TERMINATOR][1..] == [REGION, SERVICE, TERMINATOR];
    assert [REGION, SERVICE, TERMINATOR][1..] == [SERVICE, TERMINATOR] && [SERVICE, TERMINATOR][1..] == [TERMINATOR];
    assert Ascii(REGION) && Ascii(SERVICE) && Ascii(TERMINATOR);
    hide REGION, SERVICE, TERMINATOR;
    assert Join([SERVICE, TERMINATOR], '/') == SERVICE + ['/'] + TERMINATOR;
    assert Join([REGION, SERVICE, TERMINATOR], '/') == REGION + ['/'] + (SERVICE + ['/'] + TERMINATOR);
  }

  lemma IntIsAscii(n: int)
    ensures Ascii(IntText(n))
  {
    var d := Decimal(if n < 0 then -n else n);
    DecimalRoundTrip(if n < 0 then -n else n);
    hide Decimal;
    forall i | 0 <= i < |d| ensures d[i] as int < 0x80 { assert d[i] in d; }
    assert n < 0 ==> IntText(n) == ['-'] + d;
  }

  /** generate_url, from the host on; the query that is sent ends with the signature. */
  method GenerateUrl(signer: Signer, bucket: string, key: string, method_: string, expiresIn: int, host: string,
                     config: Config, now: int)
    returns (path: string, query: string)
    requires signer.Lawful() && IsText(config.accessKey) && PathText(ObjectPath(bucket, key))
    ensures path == UrlPath(bucket, key) && PathText(path)
    ensures Segments(path) == Segments(ObjectPath(bucket, key)) <==> PlainBucket(bucket)
    ensures ParseAll(Split(query, '&')) == Carried(Values(signer, config, expiresIn, now),
      IssuedSignature(signer, ObjectPath(bucket, key), method_, expiresIn, host, config, now))
  {
    hide UriEncode, CanonicalUri, Segments, RequestText, Signer.Sign, Signer.SigningKey, StrLe, Sort, ScopeText;
    hide ParseAll, Carried, Utf8;
    var amzDate, stamp := signer.amzDate(now), signer.dateStamp(now);
    var credential := ScopeText(Scope(config.accessKey, stamp, REGION, SERVICE, TERMINATOR));
    var uri := CanonicalUri(ObjectPath(bucket, key));
    var params := [(ALGORITHM_NAME, ALGORITHM), (CREDENTIAL_NAME, credential), (DATE_NAME, amzDate),
                   (EXPIRES_NAME, IntText(expiresIn)), (HEADERS_NAME, HOST)];
    ghost var values := Values(signer, config, expiresIn, now);
    assert params == Zip(values);
    hide ALGORITHM_NAME, CREDENTIAL_NAME, DATE_NAME, EXPIRES_NAME, HEADERS_NAME, ALGORITHM, IntText;
    ZipSorted(values);
    SortSame(params, NAME_LE);
    params := Sort(params, NAME_LE);
    EncodeZip(values);
    assert |params| == 5;
    hide Zip;
    var parts := seq(5, i requires 0 <= i < 5 => params[i].0 + "=" + UriEncode(params[i].1));
    query := Join(parts, '&');
    assert query == QueryText(values);
    hide QueryText, Join;
    var text := RequestText(method_, uri, query, "host:" + host + "\n", HOST);
    var signature := signer.Sign(config.secretKey, amzDate, Scope(config.accessKey, stamp, REGION, SERVICE, TERMINATOR),
                                 text);
    UrlPathExactly(bucket, key);
    UrlPathIsText(bucket, key);
    ValuesAreText(signer, config, expiresIn, now);
    SignatureIsPlain(signer, config.secretKey, amzDate, Scope(config.accessKey, stamp, REGION, SERVICE, TERMINATOR),
                     text);
    UrlReadsBack(values, signature);
    path := "/" + TrimStart(uri, '/');
    query := query + "&X-Amz-Signature=" + signature;
  }

  lemma SignatureIsPlain(signer: Signer, secret: string, amzDate: string, s: Scope, text: string)
    requires signer.Lawful()
    ensures Plain(signer.Sign(secret, amzDate, s, text))
  {
  }

  lemma Glue(query: string, signature: string)
    ensures query + ['&'] + PairText((SIGNATURE, signature)) == query + "&X-Amz-Signature=" + signature
  {
    assert ['&'] + (SIGNATURE + "=") == "&X-Amz-Signature=";
    var a, b := SIGNATURE + "=", "&X-Amz-Signature=";
    assert query + ['&'] + (a + signature) == query + (['&'] + a) + signature;
  }

  lemma UrlReadsBack(values: seq<string>, signature: string)
    requires |values| == 5 && (forall i | 0 <= i < 5 :: IsText(values[i])) && Plain(signature)
    ensures ParseAll(Split(QueryText(values) + "&X-Amz-Signature=" + signature, '&')) == Carried(values, signature)
  {
    PartsReadBack(values, signature);
    var five := PairTexts(Zip(EncodedValues(values)));
    ZipAt(values, 0);
    hide ParseAll, Carried, Zip, IsText, PairText, SIGNATURE;
    JoinAppend(five, PairText((SIGNATURE, signature)), '&');
    SplitJoin(UrlParts(values, signature), '&');
    hide Join, Split;
    Glue(QueryText(values), signature);
  }

  // ---- The round trip ----

  /** The issued presign is read back from what it carries. */
  lemma IssuedReads(signer: Signer, config: Config, expiresIn: int, now: int, signature: string)
    requires signer.Lawful() && 1 <= expiresIn <= 604_800
    ensures var values := Values(signer, config, expiresIn, now);
      FromParams(signer, Carried(values, signature)) ==
        Some(Presigned(Second(now), expiresIn, signature, values[1], Carried(values, signature)))
  {
    var values := Values(signer, config, expiresIn, now);
    CarriedAt(values, signature);
    var m := Carried(values, signature);
    assert m[NAMES[1]] == values[1] && m[NAMES[2]] == values[2] && m[NAMES[3]] == values[3];
    assert NAMES[1] == CREDENTIAL_NAME && NAMES[2] == DATE_NAME && NAMES[3] == EXPIRES_NAME;
    hide Carried, NAMES, ALGORITHM_NAME, CREDENTIAL_NAME, DATE_NAME, EXPIRES_NAME, HEADERS_NAME, SIGNATURE, ScopeText;
    LifetimeReads(expiresIn);
  }

  lemma LifetimeReads(n: int)
    requires 1 <= n <= 604_800
    ensures ParseI64(IntText(n)) == Some(n)
  {
    DecimalRoundTrip(n);
    hide Decimal, ParseDigits;
    assert IsDigit(Decimal(n)[0]);
  }

  lemma IssuedInForce(signer: Signer, config: Config, expiresIn: int, now: int, signature: string, t: int)
    requires signer.Lawful() && 1 <= expiresIn <= 604_800 && config.accessKey != "" && '/' !in config.accessKey
    ensures var values := Values(signer, config, expiresIn, now);
      var p := Presigned(Second(now), expiresIn, signature, values[1], Carried(values, signature));
      && ParseScope(values[1]) == Some(CredentialOf(signer, config, now))
      && (InForce(signer, p, config, t) <==> Second(now) - SKEW <= t <= Second(now) + expiresIn * SECOND)
  {
    var values := Values(signer, config, expiresIn, now);
    CarriedAt(values, signature);
    assert NAMES[0] == ALGORITHM_NAME;
    hide Carried, NAMES, ALGORITHM_NAME, CREDENTIAL_NAME, DATE_NAME, EXPIRES_NAME, HEADERS_NAME, SIGNATURE;
    CredentialReads(signer, config, now);
    hide ScopeText, ParseScope, IntText, REGION, SERVICE, TERMINATOR, ALGORITHM, HOST;
  }

  lemma CredentialReads(signer: Signer, config: Config, now: int)
    requires signer.Lawful() && config.accessKey != "" && '/' !in config.accessKey
    ensures ParseScope(ScopeText(CredentialOf(signer, config, now))) == Some(CredentialOf(signer, config, now))
  {
    hide ParseScope, ScopeText;
    assert '/' !in REGION && '/' !in SERVICE && '/' !in TERMINATOR && REGION != "" && SERVICE != "" && TERMINATOR != "";
    hide REGION, SERVICE, TERMINATOR;
    ScopeRoundTrip(CredentialOf(signer, config, now));
  }

  /** Headers that carry a host and nothing that would have to be signed besides it. */
  ghost predicate OnlyHostSigned(headers: map<string, string>) {
    HOST in headers && forall h | h in headers :: !StartsWith(h, "x-amz-")
  }

  lemma IssuedHeaders(values: seq<string>, signature: string, headers: map<string, string>)
    requires |values| == 5 && values[4] == HOST
    ensures var m := Carried(values, signature);
      && HEADERS_NAME in m && Split(m[HEADERS_NAME], ';') == [HOST]
      && (HeadersGood(m, headers, [HOST]) <==> OnlyHostSigned(headers))
  {
    var m := Carried(values, signature);
    CarriedAt(values, signature);
    assert NAMES[4] == HEADERS_NAME;
    SplitWhole(HOST, ';');
    NamesStartWithX();
    hide Carried, ALGORITHM_NAME, CREDENTIAL_NAME, DATE_NAME, EXPIRES_NAME, HEADERS_NAME, SIGNATURE, NAMES;
    forall k | k in m ensures Lower(k) != HOST {
      LowerStartsWithX(k);
    }
    hide Lower;
    HostIsValid();
    hide HOST, ValidNames, StartsWith;
    assert !HasConflicts(m, headers, [HOST]);
    hide HasConflicts;
    assert forall h :: h in [HOST] <==> h == HOST;
  }

  lemma NamesStartWithX()
    ensures SIGNATURE[0] == 'X' && forall i | 0 <= i < 5 :: NAMES[i] != "" && NAMES[i][0] == 'X'
  {
  }

  lemma LowerStartsWithX(k: string)
    requires k != "" && k[0] == 'X'
    ensures Lower(k) != HOST
  {
    assert Lower(k)[0] == 'x' && HOST[0] == 'h';
  }

  lemma HostIsValid()
    ensures ValidNames([HOST]) && !StartsWith(HOST, "x-amz-")
  {
    assert HOST[0] == 'h' && "x-amz-"[0] == 'x';
  }

  /** The text that was signed is the one validation computes, for any path with the same segments. */
  lemma IssuedText(method_: string, issuedPath: string, path: string, params: Params, values: seq<string>,
                   headers: map<string, string>, host: string)
    requires PathText(path) && PathText(issuedPath) && Segments(path) == Segments(issuedPath) && |values| == 5
    requires HOST in headers && Normalize(headers[HOST]) == host
    ensures CanonicalText(Signed(method_, path, params, headers, [HOST]), Zip(EncodedValues(values))) ==
      RequestText(method_, CanonicalUri(issuedPath), QueryText(values), "host:" + host + "\n", HOST)
  {
    hide CanonicalUri, Zip, Segments, Normalize, RequestText, Block, HeaderLines, HOST, PathText;
    PathUnambiguous(path, issuedPath);
    HostLine(headers, host);
    assert Join([HOST], ';') == HOST;
  }

  lemma HostLine(headers: map<string, string>, host: string)
    requires HOST in headers && Normalize(headers[HOST]) == host
    ensures Block(HeaderLines([HOST], headers)) == "host:" + host + "\n"
  {
    hide Normalize;
    var lines := HeaderLines([HOST], headers);
    assert HOST + ":" == "host:";
    assert lines[0] == HOST + ":" + Normalize(headers[HOST]);
    assert lines == ["host:" + host] && lines[..0] == [];
  }

  /**
   For every bucket, key, lifetime of 1 to 604800 seconds and access key without a slash: what is
   issued is read back. A request for the same segments whose host, if it has one, is the issued
   one up to white space is accepted exactly if it has a host, carries no x-amz- header, and comes
   from fifteen minutes before the issued date until the lifetime ends.
   */
  lemma PresignRoundTrip(signer: Signer, bucket: string, key: string, method_: string, expiresIn: int, host: string,
                         config: Config, now: int, path: string, headers: map<string, string>, t: int)
    requires signer.Lawful() && 1 <= expiresIn <= 604_800 && config.accessKey != "" && '/' !in config.accessKey
    requires PathText(ObjectPath(bucket, key)) && PathText(path) && Segments(path) == Segments(ObjectPath(bucket, key))
    requires HOST in headers ==> Normalize(headers[HOST]) == host
    ensures var signature := IssuedSignature(signer, ObjectPath(bucket, key), method_, expiresIn, host, config, now);
      var p := FromParams(signer, Carried(Values(signer, config, expiresIn, now), signature));
      && p.Some? && p.value.date == Second(now) == now - now % 1_000_000_000
      && (Acceptable(signer, p.value, method_, path, headers, config, t) <==>
            && OnlyHostSigned(headers)
            && Second(now) - 900_000_000_000 <= t <= Second(now) + expiresIn * 1_000_000_000)
  {
    var values := Values(signer, config, expiresIn, now);
    var signature := IssuedSignature(signer, ObjectPath(bucket, key), method_, expiresIn, host, config, now);
    var m := Carried(values, signature);
    IssuedReads(signer, config, expiresIn, now, signature);
    IssuedInForce(signer, config, expiresIn, now, signature, t);
    IssuedHeaders(values, signature, headers);
    FiveAreListed(values, signature);
    var p := Presigned(Second(now), expiresIn, signature, values[1], m);
    assert signer.amzDate(p.date) == signer.amzDate(now);
    hide Carried, Values, InForce, HeadersGood, FromParams, Segments, CanonicalText, RequestText, Zip, Signer.Lawful;
    hide Lists, ParseScope, QueryText, Signer.Sign, CanonicalUri, ObjectPath, HEADERS_NAME, HOST;
    if OnlyHostSigned(headers) {
      var r := Signed(method_, path, m, headers, [HOST]);
      IssuedText(method_, ObjectPath(bucket, key), path, m, values, headers, host);
      assert SignedBy(signer, p, r, Zip(EncodedValues(values)), config);
    }
  }

  // ---- The path of the URL ----

  /** The URL's path: one slash, then the canonical path without its leading slashes. */
  function UrlPath(bucket: string, key: string): string {
    "/" + TrimStart(CanonicalUri(ObjectPath(bucket, key)), '/')
  }

  /** A bucket that does not run into the leading slash. */
  predicate PlainBucket(bucket: string) { bucket != "" && bucket[0] != '/' }

  /** Decoding leaves the segment as it is: it holds no escape, or one that is not UTF-8. */
  predicate Literal(segment: string) { !HasEscape(segment) || !Utf8(Decode(segment)) }

  lemma UrlPathIsText(bucket: string, key: string)
    requires PathText(ObjectPath(bucket, key))
    ensures PathText(UrlPath(bucket, key))
  {
    var c := CanonicalUri(ObjectPath(bucket, key));
    CanonicalIsAscii(ObjectPath(bucket, key));
    hide CanonicalUri;
    var rest := TrimStart(c, '/');
    assert forall i | 0 <= i < |rest| :: rest[i] == c[|c| - |rest| + i];
    AsciiIsUtf8(UrlPath(bucket, key));
  }

  /** The first segment of an object path is empty, and the second is not, exactly for a plain bucket. */
  lemma ObjectSegments(bucket: string, key: string)
    ensures var parts := Split(ObjectPath(bucket, key), '/');
      |parts| >= 3 && parts[0] == "" && (parts[1] != "" <==> PlainBucket(bucket))
  {
    var rest := bucket + "/" + key;
    assert ObjectPath(bucket, key) == "" + ['/'] + rest;
    SplitFirst("", '/', rest);
    TwoParts(bucket, key);
    if bucket != "" { assert rest[0] == bucket[0]; }
  }

  lemma {:induction false} TwoParts(a: string, b: string)
    ensures |Split(a + "/" + b, '/')| >= 2
    decreases |a|
  {
    var s := a + "/" + b;
    if a == "" {
      assert s[1..] == b;
    } else {
      assert s[1..] == a[1..] + "/" + b;
      TwoParts(a[1..], b);
    }
  }

  /** The canonical object path starts with a slash; a second one follows exactly unless the bucket is plain. */
  lemma CanonicalStart(bucket: string, key: string)
    requires PathText(ObjectPath(bucket, key))
    ensures var c := CanonicalUri(ObjectPath(bucket, key));
      && |c| >= 2 && c[0] == '/' && (c[1] != '/' <==> PlainBucket(bucket))
  {
    var path := ObjectPath(bucket, key);
    ObjectSegments(bucket, key);
    SegmentsAreText(path);
    var segments, parts := Segments(path), Split(path, '/');
    DecodeFactsAt(path);
    var e := EncodeAll(segments);
    EncodeAllFacts(segments);
    EncodeIsEncoded(segments[0]);
    EncodeIsEncoded(segments[1]);
    hide UriEncode, Decode, Utf8, Split, PlainBucket;
    assert e[0] == "" && (e[1] != "" <==> PlainBucket(bucket)) && '/' !in e[1];
    JoinStart(e);
  }

  lemma DecodeFactsAt(path: string)
    requires PathText(path) && path != ""
    ensures |Segments(path)| == |Split(path, '/')|
    ensures forall i | 0 <= i < |Segments(path)| :: Segments(path)[i] == "" <==> Split(path, '/')[i] == ""
  {
    SplitBytes(path, '/');
    var parts := Split(path, '/');
    forall i | 0 <= i < |parts| ensures DecodeSegment(parts[i]) == "" <==> parts[i] == "" { DecodeFacts(parts[i]); }
    hide DecodeSegment, Split;
  }

  lemma JoinStart(e: seq<string>)
    requires |e| >= 3 && e[0] == "" && '/' !in e[1]
    ensures |Join(e, '/')| >= 2 && Join(e, '/')[0] == '/' && (Join(e, '/')[1] != '/' <==> e[1] != "")
  {
    var rest := Join(e[1..], '/');
    assert Join(e, '/') == ['/'] + rest;
    assert e[1..][1..] == e[2..];
    assert rest == e[1] + ['/'] + Join(e[2..], '/');
    if e[1] != "" { assert rest[0] == e[1][0] && e[1][0] in e[1]; }
  }

  /** The URL is for the same segments exactly if the bucket is plain; then its path is the canonical one. */
  lemma UrlPathExactly(bucket: string, key: string)
    requires PathText(ObjectPath(bucket, key))
    ensures Segments(UrlPath(bucket, key)) == Segments(ObjectPath(bucket, key)) <==> PlainBucket(bucket)
    ensures PlainBucket(bucket) ==> UrlPath(bucket, key) == CanonicalUri(ObjectPath(bucket, key))
  {
    var path := ObjectPath(bucket, key);
    var c, url := CanonicalUri(path), UrlPath(bucket, key);
    CanonicalStart(bucket, key);
    CanonicalKeepsSegments(path);
    hide CanonicalUri, PlainBucket;
    if PlainBucket(bucket) {
      assert TrimStart(c, '/') == c[1..];
      assert url == c;
    } else {
      UrlPathShorter(c);
      TrimTwo(c);
      assert url == "/" + TrimStart(c[2..], '/');
      assert |Segments(url)| < |Segments(c)|;
    }
  }

  lemma TrimOne(c: string)
    requires c != "" && c[0] == '/'
    ensures TrimStart(c, '/') == TrimStart(c[1..], '/')
  {
  }

  lemma TrimTwo(c: string)
    requires |c| >= 2 && c[0] == '/' && c[1] == '/'
    ensures TrimStart(c, '/') == TrimStart(c[2..], '/')
  {
    hide TrimStart;
    TrimOne(c);
    TrimOne(c[1..]);
    assert c[1..][1..] == c[2..];
  }

  lemma UrlPathShorter(c: string)
    requires |c| >= 2 && c[0] == '/' && c[1] == '/'
    ensures |Segments("/" + TrimStart(c[2..], '/'))| < |Segments(c)|
  {
    var rest := TrimStart(c[2..], '/');
    TrimShortensSplit(c[2..], '/');
    assert c[1..][1..] == c[2..];
    assert ("/" + rest)[1..] == rest;
    hide DecodeSegment;
    assert |Split("/" + rest, '/')| == 1 + |Split(rest, '/')|;
    assert |Split(c, '/')| == 1 + |Split(c[1..], '/')| == 2 + |Split(c[2..], '/')|;
  }

  /**
   The URL names exactly this bucket and key if and only if the bucket is plain and no segment
   holds a live escape.
   */
  lemma UrlNamesExactly(bucket: string, key: string)
    requires PathText(ObjectPath(bucket, key))
    ensures Segments(UrlPath(bucket, key)) == Split(ObjectPath(bucket, key), '/') <==>
      PlainBucket(bucket) && forall s | s in Split(ObjectPath(bucket, key), '/') :: Literal(s)
  {
    var path := ObjectPath(bucket, key);
    var parts := Split(path, '/');
    UrlPathExactly(bucket, key);
    forall s ensures DecodeSegment(s) == s <==> Literal(s) { DecodeFixes(s); }
    SegmentsLength(bucket, key);
    hide DecodeSegment, Literal, Split, PlainBucket, UrlPath;
    assert |Segments(path)| == |parts| && forall i | 0 <= i < |parts| :: Segments(path)[i] == DecodeSegment(parts[i]);
    assert Segments(path) == parts <==> forall s | s in parts :: Literal(s) by {
      if Segments(path) == parts {
        forall s | s in parts ensures Literal(s) { var i :| 0 <= i < |parts| && parts[i] == s; }
      }
    }
  }

  lemma SegmentsLength(bucket: string, key: string)
    requires PathText(ObjectPath(bucket, key))
    ensures !PlainBucket(bucket) ==> |Segments(UrlPath(bucket, key))| < |Split(ObjectPath(bucket, key), '/')|
  {
    var c := CanonicalUri(ObjectPath(bucket, key));
    CanonicalStart(bucket, key);
    CanonicalKeepsSegments(ObjectPath(bucket, key));
    hide CanonicalUri, PlainBucket, DecodeSegment;
    if !PlainBucket(bucket) {
      UrlPathShorter(c);
      TrimTwo(c);
      assert UrlPath(bucket, key) == "/" + TrimStart(c[2..], '/');
    }
  }
}
