/**
 Presigned URLs (src/auth/presigned.rs:82-206, 236-357): generation, reading back, validation.
 Hashing and calendar formatting are functions of the deployment; nothing is proved about them
 beyond what `Lawful` states.
 */
module Presign {
  import opened Common
  import opened Sorting
  import opened Text
  import opened Canonical

  /** Instants are nanoseconds. */
  const SECOND: int := 1_000_000_000
  const SKEW: int := 15 * 60 * SECOND

  const ALGORITHM_NAME := "X-Amz-Algorithm"
  const CREDENTIAL_NAME := "X-Amz-Credential"
  const DATE_NAME := "X-Amz-Date"
  const EXPIRES_NAME := "X-Amz-Expires"
  const HEADERS_NAME := "X-Amz-SignedHeaders"
  const ALGORITHM := "AWS4-HMAC-SHA256"
  const REGION := "us-east-1"
  const SERVICE := "s3"
  const TERMINATOR := "aws4_request"
  const HOST := "host"

  datatype Config = Config(accessKey: string, secretKey: string)
  datatype Scope = Scope(accessKey: string, date: string, region: string, service: string, terminator: string)
  datatype Presigned = Presigned(date: int, expiresIn: int, signature: string, credential: string, params: Params)

  datatype Error = InvalidRequest | ClockSkew | SignatureMismatch
  datatype Verdict = Accepted | Rejected(error: Error)

  /** An instant cut to whole seconds. */
  function Second(t: int): int { t - t % SECOND }

  datatype Signer = Signer(sha256Hex: string -> string,
                           hmac: (string, string) -> string, hmacHex: (string, string) -> string,
                           amzDate: int -> string, dateStamp: int -> string, parseDate: string -> Option<int>)
  {
    /** Digests are written in hexadecimal; dates are ASCII, read back to the second, and hold no slash. */
    ghost predicate Lawful() {
      && (forall k, d :: Plain(hmacHex(k, d)))
      && (forall t :: parseDate(amzDate(t)) == Some(Second(t)) && amzDate(Second(t)) == amzDate(t) && Ascii(amzDate(t)))
      && (forall t ::
            dateStamp(Second(t)) == dateStamp(t) && dateStamp(t) != "" && '/' !in dateStamp(t) && Ascii(dateStamp(t)))
    }

    /** get_signature_key */
    function SigningKey(secret: string, date: string, region: string, service: string): string {
      hmac(hmac(hmac(hmac("AWS4" + secret, date), region), service), "aws4_request")
    }

    /** The signature of a canonical request. */
    function Sign(secret: string, amzDate: string, s: Scope, text: string): string {
      var scope := s.date + "/" + s.region + "/" + s.service + "/" + s.terminator;
      hmacHex(SigningKey(secret, s.date, s.region, s.service),
              ALGORITHM + "\n" + amzDate + "\n" + scope + "\n" + sha256Hex(text))
    }
  }

  /** Each part keys the next digest. */
  function KeyChain(signer: Signer, key: string, parts: seq<string>): string
    decreases |parts|
  {
    if parts == [] then key else KeyChain(signer, signer.hmac(key, parts[0]), parts[1..])
  }

  /**
   The signature is keyed by the secret, the day, the region, the service and the terminator in this
   order, and covers the algorithm, the date, the scope and the request's digest, a line each.
   */
  lemma SignatureCovers(signer: Signer, secret: string, amzDate: string, s: Scope, text: string)
    ensures signer.Sign(secret, amzDate, s, text) ==
      signer.hmacHex(KeyChain(signer, "AWS4" + secret, [s.date, s.region, s.service, "aws4_request"]),
                     Join(["AWS4-HMAC-SHA256", amzDate, Join([s.date, s.region, s.service, s.terminator], '/'),
                           signer.sha256Hex(text)], '\n'))
  {
    FourKeys(signer, "AWS4" + secret, s.date, s.region, s.service, "aws4_request");
    JoinFour(s.date, s.region, s.service, s.terminator, '/');
    JoinFour("AWS4-HMAC-SHA256", amzDate, s.date + "/" + s.region + "/" + s.service + "/" + s.terminator,
             signer.sha256Hex(text), '\n');
    hide Join, KeyChain;
  }

  lemma FourKeys(signer: Signer, key: string, a: string, b: string, c: string, d: string)
    ensures KeyChain(signer, key, [a, b, c, d]) ==
      signer.hmac(signer.hmac(signer.hmac(signer.hmac(key, a), b), c), d)
  {
    var k1 := signer.hmac(key, a);
    var k2 := signer.hmac(k1, b);
    var k3 := signer.hmac(k2, c);
    assert [a, b, c, d][1..] == [b, c, d] && [b, c, d][1..] == [c, d] && [c, d][1..] == [d] && [d][1..] == [];
    assert KeyChain(signer, k3, [d]) == signer.hmac(k3, d);
    assert KeyChain(signer, k2, [c, d]) == KeyChain(signer, k3, [d]);
    assert KeyChain(signer, k1, [b, c, d]) == KeyChain(signer, k2, [c, d]);
  }

  lemma JoinFour(a: string, b: string, c: string, d: string, sep: char)
    ensures Join([a, b, c, d], sep) == a + [sep] + b + [sep] + c + [sep] + d
  {
    assert [a, b, c, d][1..] == [b, c, d] && [b, c, d][1..] == [c, d] && [c, d][1..] == [d];
    assert Join([c, d], sep) == c + [sep] + d;
    assert Join([b, c, d], sep) == b + [sep] + (c + [sep] + d);
    assert a + [sep] + (b + [sep] + (c + [sep] + d)) == a + [sep] + b + [sep] + c + [sep] + d;
  }

  predicate Plain(s: string) { forall i | 0 <= i < |s| :: Unreserved(s[i]) }

  function ScopeText(s: Scope): string { Join([s.accessKey, s.date, s.region, s.service, s.terminator], '/') }

  /** parse_credential_scope */
  function ParseScope(credential: string): Option<Scope> {
    var s := Split(credential, '/');
    if |s| == 5 && (forall i | 0 <= i < 5 :: s[i] != "") then Some(Scope(s[0], s[1], s[2], s[3], s[4])) else None
  }

  /** A credential is read back exactly when it has five non-empty parts. */
  lemma ScopeRoundTrip(s: Scope)
    requires forall part | part in [s.accessKey, s.date, s.region, s.service, s.terminator] ::
      part != "" && '/' !in part
    ensures ParseScope(ScopeText(s)) == Some(s)
  {
    SplitJoin([s.accessKey, s.date, s.region, s.service, s.terminator], '/');
  }

  // ---- Reading back ----

  /** urlencoding::decode with a default. */
  function DecodeText(s: string): string { if Utf8(Decode(s)) then Decode(s) else "" }

  /** One parameter of a query. */
  function ParsePair(s: string): (string, string) {
    var parts := Split(s, '=');
    if |parts| == 1 then (DecodeText(s), "") else (DecodeText(parts[0]), DecodeText(Join(parts[1..], '=')))
  }

  function ParseAll(parts: seq<string>): Params {
    if parts == [] then map[]
    else if Last(parts) == "" then ParseAll(parts[..|parts| - 1])
    else ParseAll(parts[..|parts| - 1])[ParsePair(Last(parts)).0 := ParsePair(Last(parts)).1]
  }

  /** A non-empty part of a query that gives a value for `name`. */
  predicate Carries(part: string, name: string) { part != "" && ParsePair(part).0 == name }

  predicate CarriedLater(parts: seq<string>, i: nat, name: string) {
    exists j | i < j < |parts| :: Carries(parts[j], name)
  }

  /** A name is there exactly if some part carries it, and has the value of the last part that does. */
  lemma {:induction false} LastPartWins(parts: seq<string>, name: string)
    ensures name in ParseAll(parts) <==> exists i | 0 <= i < |parts| :: Carries(parts[i], name)
    ensures forall i | 0 <= i < |parts| && Carries(parts[i], name) && !CarriedLater(parts, i, name) ::
      name in ParseAll(parts) && ParseAll(parts)[name] == ParsePair(parts[i]).1
  {
    hide ParsePair;
    if parts != [] {
      var front := parts[..|parts| - 1];
      LastPartWins(front, name);
      assert forall i | 0 <= i < |front| :: front[i] == parts[i];
      if Carries(Last(parts), name) { assert Carries(parts[|parts| - 1], name); }
    }
  }

  /** parse_query_params (src/server/http.rs:335-355). */
  method ParseQuery(query: string) returns (params: Params)
    ensures params == ParseAll(Split(query, '&'))
  {
    params := map[];
    var parts := Split(query, '&');
    for i := 0 to |parts|
      invariant params == ParseAll(parts[..i])
    {
      assert parts[..i + 1][..i] == parts[..i];
      if parts[i] == "" { continue; }
      var (name, value) := ParsePair(parts[i]);
      params := params[name := value];
    }
    assert parts[..|parts|] == parts;
  }

  function Get(params: Params, name: string): Option<string> { if name in params then Some(params[name]) else None }

  function GetOr(params: Params, name: string, other: string): Option<string> {
    if name in params then Some(params[name]) else Get(params, other)
  }

  /** from_query_params */
  function FromParams(signer: Signer, params: Params): Option<Presigned> {
    var signature, expires := GetOr(params, SIGNATURE, "Signature"), GetOr(params, EXPIRES_NAME, "Expires");
    var date, credential := Get(params, DATE_NAME), Get(params, CREDENTIAL_NAME);
    if signature == None || expires == None || ParseI64(expires.value) == None then None
    else if date == None || credential == None || signer.parseDate(date.value) == None then None
    else if signer.amzDate(signer.parseDate(date.value).value) != date.value then None
    else Some(Presigned(signer.parseDate(date.value).value, ParseI64(expires.value).value, signature.value,
                        credential.value, params))
  }

  // ---- Validation ----

  predicate StartsWith(s: string, prefix: string) { prefix <= s }

  /** The date, lifetime and credential are good at `now`. */
  predicate InForce(signer: Signer, p: Presigned, config: Config, now: int) {
    && Get(p.params, ALGORITHM_NAME) == Some(ALGORITHM) && 1 <= p.expiresIn <= 604_800
    && p.date <= now + SKEW && now <= p.date + p.expiresIn * SECOND
    && ParseScope(p.credential).Some?
    && var s := ParseScope(p.credential).value;
       && s.accessKey == config.accessKey && s.date == signer.dateStamp(p.date)
       && s.service == SERVICE && s.terminator == TERMINATOR
  }

  /** The signed names are well formed and cover the host and every x-amz- header. */
  ghost predicate NamesGood(headers: map<string, string>, names: seq<string>) {
    ValidNames(names) && HOST in names && forall h | h in headers :: StartsWith(h, "x-amz-") ==> h in names
  }

  ghost predicate HasConflicts(params: Params, headers: map<string, string>, names: seq<string>) {
    exists k | k in params :: Conflicts(params, headers, names, k)
  }

  /** The headers named as signed are well formed, cover what must be signed, and contradict no parameter. */
  ghost predicate HeadersGood(params: Params, headers: map<string, string>, names: seq<string>) {
    NamesGood(headers, names) && !HasConflicts(params, headers, names) && forall n | n in names :: n in headers
  }

  predicate Conflicts(params: Params, headers: map<string, string>, names: seq<string>, k: string)
    requires k in params
  {
    Lower(k) in names && Lower(k) in headers && headers[Lower(k)] != params[k]
  }

  /** The request carries a presign in force, with good headers and the signature of its canonical form. */
  ghost predicate Acceptable(signer: Signer, p: Presigned, method_: string, path: string, headers: map<string, string>,
                             config: Config, now: int)
  {
    && InForce(signer, p, config, now) && HEADERS_NAME in p.params
    && var names := Split(p.params[HEADERS_NAME], ';');
       && HeadersGood(p.params, headers, names)
       && exists pairs ::
         Lists(pairs, p.params) && SignedBy(signer, p, Signed(method_, path, p.params, headers, names), pairs, config)
  }

  predicate SignedBy(signer: Signer, p: Presigned, r: Signed, pairs: seq<(string, string)>, config: Config)
    requires (forall n | n in r.names :: n in r.headers) && ParseScope(p.credential).Some?
  {
    p.signature ==
      signer.Sign(config.secretKey, signer.amzDate(p.date), ParseScope(p.credential).value, CanonicalText(r, pairs))
  }

  /** validate_components */
  method Validate(signer: Signer, p: Presigned, method_: string, path: string, headers: map<string, string>,
                  config: Config, now: int)
    returns (r: Verdict)
    requires ParamText(p.params)
    ensures r == Accepted <==> Acceptable(signer, p, method_, path, headers, config, now)
    ensures r == Rejected(ClockSkew) <==>
      && Get(p.params, ALGORITHM_NAME) == Some(ALGORITHM) && 1 <= p.expiresIn <= 604_800
      && p.date > now + 900_000_000_000
    ensures r == Rejected(InvalidRequest) <==>
      && InForce(signer, p, config, now) && HEADERS_NAME in p.params
      && NamesGood(headers, Split(p.params[HEADERS_NAME], ';'))
      && HasConflicts(p.params, headers, Split(p.params[HEADERS_NAME], ';'))
  {
    if Get(p.params, ALGORITHM_NAME) != Some(ALGORITHM) { return Rejected(SignatureMismatch); }
    if !(1 <= p.expiresIn <= 604_800) { return Rejected(SignatureMismatch); }
    var expiresAt := p.date + p.expiresIn * SECOND;
    if p.date > now + SKEW { return Rejected(ClockSkew); }
    if now > expiresAt { return Rejected(SignatureMismatch); }
    var scope := ParseScope(p.credential);
    if scope == None { return Rejected(SignatureMismatch); }
    if scope.value.accessKey != config.accessKey { return Rejected(SignatureMismatch); }
    if scope.value.date != signer.dateStamp(p.date) { return Rejected(SignatureMismatch); }
    if scope.value.service != SERVICE || scope.value.terminator != TERMINATOR {
      return Rejected(SignatureMismatch);
    }
    assert InForce(signer, p, config, now);
    hide InForce;
    if HEADERS_NAME !in p.params { return Rejected(SignatureMismatch); }
    var query := CanonicalQuery(p.params);
    ghost var pairs :| Lists(pairs, p.params) && query == Join(PairTexts(pairs), '&');
    var names := Split(p.params[HEADERS_NAME], ';');
    var error, block := CheckHeaders(p.params, headers, names);
    if error.Some? { return Rejected(error.value); }
    var text := RequestText(method_, CanonicalUri(path), query, block, Join(names, ';'));
    var expected := signer.Sign(config.secretKey, signer.amzDate(p.date), scope.value, text);
    ghost var signed := Signed(method_, path, p.params, headers, names);
    hide CanonicalText, HeadersGood, Lists, RequestText, NamesGood, HasConflicts;
    assert text == CanonicalText(signed, pairs) by { TextIs(signed, pairs, query, block); }
    forall other | Lists(other, p.params) ensures other == pairs { ListsUnique(other, pairs, p.params, p.params); }
    if p.signature != expected { return Rejected(SignatureMismatch); }
    assert SignedBy(signer, p, signed, pairs, config);
    r := Accepted;
  }

  lemma TextIs(r: Signed, pairs: seq<(string, string)>, query: string, block: string)
    requires forall n | n in r.names :: n in r.headers
    requires query == Join(PairTexts(pairs), '&') && block == Block(HeaderLines(r.names, r.headers))
    ensures RequestText(r.method_, CanonicalUri(r.path), query, block, Join(r.names, ';')) == CanonicalText(r, pairs)
  {
  }

  /** The checks on signed headers, and the block they contribute. */
  method CheckHeaders(params: Params, headers: map<string, string>, names: seq<string>)
    returns (error: Option<Error>, block: string)
    ensures error == None <==> HeadersGood(params, headers, names)
    ensures error == None ==> block == Block(HeaderLines(names, headers))
    ensures error == Some(InvalidRequest) <==> NamesGood(headers, names) && HasConflicts(params, headers, names)
    ensures error != Some(ClockSkew)
  {
    block := "";
    if !ValidNames(names) || HOST !in names || exists h :: h in headers && StartsWith(h, "x-amz-") && h !in names {
      return Some(SignatureMismatch), "";
    }
    hide ValidNames, StartsWith, Conflicts;
    var conflict := HasConflict(params, headers, names);
    if conflict { return Some(InvalidRequest), ""; }
    var found := HeaderBlock(headers, names);
    if found == None { return Some(SignatureMismatch), ""; }
    error, block := None, found.value;
  }

  /** Whether some parameter contradicts a signed header of the same name. */
  method HasConflict(params: Params, headers: map<string, string>, names: seq<string>) returns (conflict: bool)
    ensures conflict <==> HasConflicts(params, headers, names)
  {
    hide Conflicts;
    var left := params.Keys;
    while left != {}
      invariant left <= params.Keys
      invariant forall k | k in params && k !in left :: !Conflicts(params, headers, names, k)
      decreases left
    {
      var k :| k in left;
      left := left - {k};
      if Conflicts(params, headers, names, k) { return true; }
    }
    return false;
  }

  /** The lines of the signed headers; None if one is missing. */
  method HeaderBlock(headers: map<string, string>, names: seq<string>) returns (r: Option<string>)
    ensures r.Some? <==> forall n | n in names :: n in headers
    ensures r.Some? ==> r.value == Block(HeaderLines(names, headers))
  {
    var block := "";
    assert names[..0] == [];
    hide Normalize;
    for i := 0 to |names|
      invariant forall n | n in names[..i] :: n in headers
      invariant block == Block(HeaderLines(names[..i], headers))
    {
      hide Block, HeaderLines;
      if names[i] !in headers {
        assert names[i] in names;
        return None;
      }
      BlockNext(names, headers, i);
      block := block + names[i] + ":" + Normalize(headers[names[i]]) + "\n";
    }
    assert names[..|names|] == names;
    r := Some(block);
  }

  /** constant_time_compare: looks at every byte and still decides equality. */
  method ConstantTimeCompare(a: seq<bv8>, b: seq<bv8>) returns (equal: bool)
    ensures equal <==> a == b
  {
    if |a| != |b| { return false; }
    var result: bv8 := 0;
    for i := 0 to |a|
      invariant result == 0 <==> forall j | 0 <= j < i :: a[j] == b[j]
    {
      OrXorIsZero(result, a[i], b[i]);
      result := result | (a[i] ^ b[i]);
    }
    equal := result == 0;
  }

  lemma OrXorIsZero(r: bv8, x: bv8, y: bv8)
    ensures r | (x ^ y) == 0 <==> r == 0 && x == y
  {
  }

  lemma BlockNext(names: seq<string>, headers: map<string, string>, i: nat)
    requires i < |names| && (forall n | n in names[..i] :: n in headers) && names[i] in headers
    ensures forall n | n in names[..i + 1] :: n in headers
    ensures Block(HeaderLines(names[..i + 1], headers)) ==
      Block(HeaderLines(names[..i], headers)) + names[i] + ":" + Normalize(headers[names[i]]) + "\n"
  {
    assert names[..i + 1] == names[..i] + [names[i]];
    var lines, shorter := HeaderLines(names[..i + 1], headers), HeaderLines(names[..i], headers);
    hide Normalize;
    assert lines[..i] == shorter;
    var a, b, c := Block(shorter), names[i], Normalize(headers[names[i]]);
    assert a + (b + ":" + c) + "\n" == a + b + ":" + c + "\n";
  }

  // ---- The same, in a caller's terms ----

  predicate IsPart(s: string) { s != "" && '/' !in s }

  function ScopeParts(s: Scope): seq<string> { [s.accessKey, s.date, s.region, s.service, s.terminator] }

  /** A credential is read as a scope exactly if it is the scope's five parts, none empty, between slashes. */
  lemma ScopeExactly(credential: string, s: Scope)
    ensures ParseScope(credential) == Some(s) <==>
      credential == Join(ScopeParts(s), '/') && forall i | 0 <= i < 5 :: IsPart(ScopeParts(s)[i])
  {
    var parts := ScopeParts(s);
    if ParseScope(credential) == Some(s) {
      JoinSplit(credential, '/');
      assert Split(credential, '/') == parts;
    }
    if credential == Join(parts, '/') && forall i | 0 <= i < 5 :: IsPart(parts[i]) {
      SplitJoin(parts, '/');
    }
  }

  /** The credential of this key for the day of `date`, in some region. */
  ghost predicate CredentialFor(signer: Signer, credential: string, accessKey: string, date: int, region: string) {
    && credential == Join([accessKey, signer.dateStamp(date), region, "s3", "aws4_request"], '/')
    && IsPart(accessKey) && IsPart(signer.dateStamp(date)) && IsPart(region)
  }

  /**
   A presign is in force exactly if it names the algorithm, lasts one second to seven days, is dated at
   most fifteen minutes ahead, has not expired, and carries this key's credential for its day.
   */
  lemma InForceExactly(signer: Signer, p: Presigned, config: Config, now: int)
    ensures InForce(signer, p, config, now) <==>
      && "X-Amz-Algorithm" in p.params && p.params["X-Amz-Algorithm"] == "AWS4-HMAC-SHA256"
      && 1 <= p.expiresIn <= 604_800
      && p.date - 900_000_000_000 <= now <= p.date + p.expiresIn * 1_000_000_000
      && exists region :: CredentialFor(signer, p.credential, config.accessKey, p.date, region)
  {
    var stamp := signer.dateStamp(p.date);
    var scope := ParseScope(p.credential);
    hide ParseScope;
    if scope.Some? {
      var s := scope.value;
      ScopeExactly(p.credential, s);
      assert forall i | 0 <= i < 5 :: IsPart(ScopeParts(s)[i]) ==> IsPart(ScopeParts(s)[0]);
      if s.accessKey == config.accessKey && s.date == stamp && s.service == SERVICE && s.terminator == TERMINATOR {
        assert IsPart(ScopeParts(s)[0]) && IsPart(ScopeParts(s)[1]) && IsPart(ScopeParts(s)[2]);
        assert CredentialFor(signer, p.credential, config.accessKey, p.date, s.region);
      }
    }
    if region :| CredentialFor(signer, p.credential, config.accessKey, p.date, region) {
      ScopeExactly(p.credential, Scope(config.accessKey, stamp, region, "s3", "aws4_request"));
    }
  }

  /** A query part is cut at its first equals sign; what does not decode to text is dropped. */
  lemma PairExactly(name: string, value: string)
    requires '=' !in name
    ensures ParsePair(name + "=" + value) ==
      (if Utf8(Decode(name)) then Decode(name) else "", if Utf8(Decode(value)) then Decode(value) else "")
    ensures ParsePair(name) == (if Utf8(Decode(name)) then Decode(name) else "", "")
  {
    hide Decode, Utf8;
    SplitWhole(name, '=');
    SplitFirst(name, '=', value);
    JoinSplit(value, '=');
    assert name + "=" + value == name + ['='] + value;
    assert ([name] + Split(value, '='))[1..] == Split(value, '=');
  }

  /** What a presign is read from: the signature and the lifetime also under their older names. */
  ghost predicate ReadFrom(signer: Signer, params: Params, p: Presigned) {
    && p.params == params
    && (if "X-Amz-Signature" in params then p.signature == params["X-Amz-Signature"]
        else "Signature" in params && p.signature == params["Signature"])
    && (if "X-Amz-Expires" in params then ParseI64(params["X-Amz-Expires"]) == Some(p.expiresIn)
        else "Expires" in params && ParseI64(params["Expires"]) == Some(p.expiresIn))
    && "X-Amz-Credential" in params && p.credential == params["X-Amz-Credential"]
    && "X-Amz-Date" in params && signer.parseDate(params["X-Amz-Date"]) == Some(p.date)
    && signer.amzDate(p.date) == params["X-Amz-Date"]
  }

  /** A presign is read exactly from parameters that say so, with a date in its one spelling. */
  lemma ReadsExactly(signer: Signer, params: Params, p: Presigned)
    ensures FromParams(signer, params) == Some(p) <==> ReadFrom(signer, params, p)
  {
    hide ParseI64;
  }

  /** Signed names are accepted exactly if they are lower-case tokens in strict order that cover what must be signed. */
  lemma NamesExactly(headers: map<string, string>, names: seq<string>)
    ensures NamesGood(headers, names) <==>
      && names != [] && (forall i | 0 <= i < |names| :: LowerToken(names[i]))
      && (forall i, j | 0 <= i < j < |names| :: TextBefore(names[i], names[j]) && names[i] != names[j])
      && "host" in names && (forall h | h in headers && |h| >= 6 && h[..6] == "x-amz-" :: h in names)
  {
    StrictExactly(names);
    hide StrLe, TextBefore, LowerToken;
    assert forall h: string :: "x-amz-" <= h <==> |h| >= 6 && h[..6] == "x-amz-";
  }

  /** Neighbours in strict order are all in strict order. */
  lemma StrictExactly(names: seq<string>)
    ensures (forall i | 0 < i < |names| :: StrLe(names[i - 1], names[i]) && names[i - 1] != names[i]) <==>
      forall i, j | 0 <= i < j < |names| :: TextBefore(names[i], names[j]) && names[i] != names[j]
  {
    forall a, b ensures StrLe(a, b) <==> TextBefore(a, b) { StrLeMeans(a, b); }
    hide StrLe, TextBefore;
    if forall i | 0 < i < |names| :: StrLe(names[i - 1], names[i]) && names[i - 1] != names[i] {
      ValidNamesSorted(names);
      assert forall i, j | 0 <= i < j < |names| :: STR_LE(names[i], names[j]) && names[i] != names[j];
    }
  }

  /** A name is a lower-case token exactly if it is not empty and holds no capital and no delimiter. */
  lemma LowerTokenExactly(name: string)
    ensures LowerToken(name) <==>
      name != "" && forall c | c in name :: '!' <= c <= '~' && c !in "\"(),/:;<=>?@[\\]{}" && !('A' <= c <= 'Z')
  {
    forall c ensures TokenChar(c) <==> '!' <= c <= '~' && c !in "\"(),/:;<=>?@[\\]{}" { TokenExactly(c); }
    hide TokenChar;
  }

  /** A parameter conflicts exactly if its name in lower case is a signed header with another value. */
  lemma ConflictExactly(params: Params, headers: map<string, string>, names: seq<string>)
    ensures HasConflicts(params, headers, names) <==>
      exists k, n :: k in params && n in names && n in headers && |n| == |k| && headers[n] != params[k]
        && forall i | 0 <= i < |k| :: n[i] == if 'A' <= k[i] <= 'Z' then (k[i] as int + 32) as char else k[i]
  {
    if HasConflicts(params, headers, names) {
      var k :| k in params && Conflicts(params, headers, names, k);
      var n := Lower(k);
      assert forall i | 0 <= i < |k| :: n[i] == LowerAscii(k[i]);
    }
    if k, n :| k in params && n in names && n in headers && |n| == |k| && headers[n] != params[k]
               && forall i | 0 <= i < |k| :: n[i] == if 'A' <= k[i] <= 'Z' then (k[i] as int + 32) as char else k[i]
    {
      assert n == Lower(k);
      assert Conflicts(params, headers, names, k);
    }
  }
}
