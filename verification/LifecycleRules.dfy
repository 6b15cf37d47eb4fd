/**
 Lifecycle rules on values (src/models/lifecycle.rs, src/lifecycle.rs:38-273): which objects a rule
 selects, when it is due, and which objects and buckets are protected. Protection fails closed:
 a value that cannot be read protects.
 */
module LifecycleRules {
  import opened Common
  import opened Text

  /** Instants are nanoseconds; a civil date stands for its midnight. */
  const DAY: int := 86_400_000_000_000

  /** How stored timestamps and dates are read. */
  datatype Calendar = Calendar(parseTimestamp: string -> Option<int>, parseDate: string -> Option<int>)

  datatype Object = Object(key: string, versionId: Option<string>, lastModified: int, storageClass: string,
                           tags: map<string, string>, providerMetadata: map<string, string>)

  datatype Tag = Tag(key: string, value: string)
  datatype RuleFilter = RuleFilter(prefix: Option<string>, tags: seq<Tag>)
  datatype Expiration = Expiration(days: Option<nat>, date: Option<string>)
  datatype StorageClass = Standard | Glacier | DeepArchive
  datatype Transition = Transition(days: Option<nat>, date: Option<string>, storageClass: StorageClass)
  datatype Status = Enabled | Disabled
  datatype Rule = Rule(status: Status, filter: Option<RuleFilter>, expiration: Option<Expiration>,
                       noncurrentDays: Option<nat>, transitions: seq<Transition>)

  function ClassName(c: StorageClass): string {
    match c case Standard => "STANDARD" case Glacier => "GLACIER" case DeepArchive => "DEEP_ARCHIVE"
  }

  // ---- Selection ----

  /** Filter::matches: the prefix first, then every tag. */
  method FilterMatches(filter: RuleFilter, key: string, tags: map<string, string>) returns (r: bool)
    ensures r <==> Selects(filter, key, tags)
    ensures r <==>
      && (filter.prefix.Some? ==> |filter.prefix.value| <= |key| && key[..|filter.prefix.value|] == filter.prefix.value)
      && forall t | t in filter.tags :: t.key in tags && tags[t.key] == t.value
  {
    if filter.prefix.Some? && !(filter.prefix.value <= key) { return false; }
    for i := 0 to |filter.tags|
      invariant forall j | 0 <= j < i :: HasTag(tags, filter.tags[j])
    {
      if !HasTag(tags, filter.tags[i]) {
        assert filter.tags[i] in filter.tags;
        return false;
      }
    }
    return true;
  }

  predicate HasTag(tags: map<string, string>, t: Tag) { t.key in tags && tags[t.key] == t.value }

  predicate Selects(filter: RuleFilter, key: string, tags: map<string, string>) {
    && (filter.prefix.Some? ==> filter.prefix.value <= key)
    && forall t | t in filter.tags :: HasTag(tags, t)
  }

  /** rule_matches_filter */
  predicate Matches(rule: Rule, key: string, tags: map<string, string>) {
    rule.filter.Some? ==> Selects(rule.filter.value, key, tags)
  }

  // ---- Due dates ----

  /** Division that rounds toward zero. */
  function TruncDiv(a: int, b: int): int
    requires b > 0
  {
    if a >= 0 then a / b else -(-a / b)
  }

  /** TimeDelta::num_days */
  function NumDays(delta: int): int { TruncDiv(delta, DAY) }

  predicate DueByDays(lastModified: int, days: Option<nat>, now: int) {
    days.Some? && NumDays(now - lastModified) >= days.value
  }

  predicate DueByDate(cal: Calendar, date: Option<string>, now: int) {
    date.Some? && cal.parseDate(date.value).Some? && now >= cal.parseDate(date.value).value
  }

  /** should_expire */
  predicate ShouldExpire(cal: Calendar, lastModified: int, e: Expiration, now: int) {
    DueByDays(lastModified, e.days, now) || DueByDate(cal, e.date, now)
  }

  /** should_transition */
  predicate ShouldTransition(cal: Calendar, lastModified: int, t: Transition, now: int) {
    DueByDays(lastModified, t.days, now) || DueByDate(cal, t.date, now)
  }

  /** A whole number of days counts only once it has fully passed. */
  lemma DueByDaysMeans(lastModified: int, days: nat, now: int)
    ensures days > 0 ==> (DueByDays(lastModified, Some(days), now) <==> now - lastModified >= days * DAY)
    ensures days == 0 ==> (DueByDays(lastModified, Some(days), now) <==> now - lastModified > -DAY)
  {
    var delta := now - lastModified;
    if delta >= 0 {
      assert delta == delta / DAY * DAY + delta % DAY;
      if delta / DAY >= days {
        assert delta / DAY * DAY >= days * DAY;
      } else {
        assert (delta / DAY + 1) * DAY <= days * DAY;
      }
    } else {
      assert -delta == -delta / DAY * DAY + -delta % DAY;
    }
  }

  /** When a number of days or a date is due, in instants. */
  ghost predicate DueAt(cal: Calendar, lastModified: int, days: Option<nat>, date: Option<string>, now: int) {
    || (days.Some? && days.value > 0 && now >= lastModified + days.value * 86_400_000_000_000)
    || (days == Some(0) && now > lastModified - 86_400_000_000_000)
    || (date.Some? && cal.parseDate(date.value).Some? && now >= cal.parseDate(date.value).value)
  }

  /** Expirations and transitions are due by their days or by their date, whichever comes first. */
  lemma DueExactly(cal: Calendar, lastModified: int, e: Expiration, t: Transition, now: int)
    ensures ShouldExpire(cal, lastModified, e, now) <==> DueAt(cal, lastModified, e.days, e.date, now)
    ensures ShouldTransition(cal, lastModified, t, now) <==> DueAt(cal, lastModified, t.days, t.date, now)
  {
    if e.days.Some? { DueByDaysMeans(lastModified, e.days.value, now); }
    if t.days.Some? { DueByDaysMeans(lastModified, t.days.value, now); }
    hide NumDays;
  }

  /** What is due stays due. */
  lemma DueOnlyGrows(cal: Calendar, lastModified: int, e: Expiration, now: int, later: int)
    requires now <= later && ShouldExpire(cal, lastModified, e, now)
    ensures ShouldExpire(cal, lastModified, e, later)
  {
    if e.days.Some? {
      DueByDaysMeans(lastModified, e.days.value, now);
      DueByDaysMeans(lastModified, e.days.value, later);
    }
  }

  // ---- Protection ----

  const S3_LOCK_MODE := "s3_object_lock_mode"
  const S3_LOCK_UNTIL := "s3_object_lock_until"
  const S3_LEGAL_HOLD := "s3_object_lock_legal_hold"
  const AZURE_UNTIL := "azure_immutability_until"
  const AZURE_LEGAL_HOLD := "azure_legal_hold"
  const AZURE_MODE := "azure_immutability_mode"
  const AZURE_LEASE := "azure_lease_status"

  /** eq_ignore_ascii_case */
  predicate EqIgnoreCase(a: string, b: string) {
    |a| == |b| && forall i | 0 <= i < |a| :: LowerAscii(a[i]) == LowerAscii(b[i])
  }

  /** A hold is on unless it says off. */
  predicate HoldActive(meta: map<string, string>, key: string, off: string) {
    key in meta && !EqIgnoreCase(meta[key], off)
  }

  /** A retention is active until its end, for ever if the end is unreadable, or if only its mode is set. */
  predicate RetentionActive(cal: Calendar, meta: map<string, string>, mode: string, until: string, now: int) {
    || (until in meta && (cal.parseTimestamp(meta[until]).Some? ==> cal.parseTimestamp(meta[until]).value > now))
    || (mode in meta && until !in meta)
  }

  /** object_has_active_azure_protection */
  predicate AzureProtected(cal: Calendar, o: Object, now: int) {
    var meta := o.providerMetadata;
    || HoldActive(meta, AZURE_LEGAL_HOLD, "false")
    || RetentionActive(cal, meta, AZURE_MODE, AZURE_UNTIL, now)
    || (AZURE_LEASE in meta && meta[AZURE_LEASE] != "unlocked")
  }

  /** object_has_active_data_protection */
  predicate Protected(cal: Calendar, o: Object, now: int) {
    || HoldActive(o.providerMetadata, S3_LEGAL_HOLD, "OFF")
    || RetentionActive(cal, o.providerMetadata, S3_LOCK_MODE, S3_LOCK_UNTIL, now)
    || AzureProtected(cal, o, now)
  }

  /** The value under `key`, if there is one, is not `off` in any letter case. */
  predicate SaysOtherThan(meta: map<string, string>, key: string, off: string) {
    key in meta && Lower(meta[key]) != off
  }

  /** A time under `until` is ahead or cannot be read, or there is a mode without such a time. */
  predicate Retained(cal: Calendar, meta: map<string, string>, until: string, mode: string, now: int) {
    if until in meta then
      match cal.parseTimestamp(meta[until]) case Some(end) => now < end case None => true
    else mode in meta
  }

  /** What protects an object, setting by setting. */
  lemma ProtectedExactly(cal: Calendar, o: Object, now: int)
    ensures var meta := o.providerMetadata;
      Protected(cal, o, now) <==>
      || SaysOtherThan(meta, "s3_object_lock_legal_hold", "off")
      || Retained(cal, meta, "s3_object_lock_until", "s3_object_lock_mode", now)
      || SaysOtherThan(meta, "azure_legal_hold", "false")
      || Retained(cal, meta, "azure_immutability_until", "azure_immutability_mode", now)
      || ("azure_lease_status" in meta && meta["azure_lease_status"] != "unlocked")
  {
    var meta := o.providerMetadata;
    HoldExactly(meta, S3_LEGAL_HOLD, "OFF", "off");
    HoldExactly(meta, AZURE_LEGAL_HOLD, "false", "false");
    hide HoldActive, SaysOtherThan;
  }

  lemma HoldExactly(meta: map<string, string>, key: string, off: string, low: string)
    requires Lower(off) == low
    ensures HoldActive(meta, key, off) <==> SaysOtherThan(meta, key, low)
  {
    if key in meta { LowerEquals(meta[key], off); }
    hide EqIgnoreCase, Lower;
  }

  /** Time alone never protects an object. */
  lemma ProtectionOnlyLapses(cal: Calendar, o: Object, now: int, later: int)
    requires now <= later && Protected(cal, o, later)
    ensures Protected(cal, o, now)
  {
  }

  datatype Protection = Never | Until(end: int) | Forever

  /** The longer of two protections. */
  function Longer(a: Protection, b: Protection): Protection {
    match (a, b)
    case (Forever, _) => Forever
    case (_, Forever) => Forever
    case (Until(s), Until(t)) => (if s < t then b else a)
    case (Never, _) => b
    case (_, Never) => a
  }

  predicate Lasts(p: Protection, now: int) { p.Forever? || (p.Until? && now < p.end) }

  /** What one retention contributes: an unreadable or missing end never comes. */
  function RetentionEnd(cal: Calendar, meta: map<string, string>, mode: string, until: string): Protection {
    if until in meta then
      match cal.parseTimestamp(meta[until]) case Some(end) => Until(end) case None => Forever
    else if mode in meta then Forever else Never
  }

  /** How long an object is protected: for ever by a hold or a lease, otherwise until its later retention ends. */
  function ProtectionOf(cal: Calendar, o: Object): Protection {
    var meta := o.providerMetadata;
    if HoldActive(meta, S3_LEGAL_HOLD, "OFF") || HoldActive(meta, AZURE_LEGAL_HOLD, "false")
       || (AZURE_LEASE in meta && meta[AZURE_LEASE] != "unlocked") then Forever
    else Longer(RetentionEnd(cal, meta, S3_LOCK_MODE, S3_LOCK_UNTIL), RetentionEnd(cal, meta, AZURE_MODE, AZURE_UNTIL))
  }

  lemma RetentionLasts(cal: Calendar, meta: map<string, string>, mode: string, until: string, now: int)
    ensures RetentionActive(cal, meta, mode, until, now) <==> Lasts(RetentionEnd(cal, meta, mode, until), now)
  {
  }

  /** Protection is one deadline, fixed by the object alone: it holds exactly before it. */
  lemma ProtectedUntilDeadline(cal: Calendar, o: Object, now: int)
    ensures Protected(cal, o, now) <==> Lasts(ProtectionOf(cal, o), now)
  {
    RetentionLasts(cal, o.providerMetadata, S3_LOCK_MODE, S3_LOCK_UNTIL, now);
    RetentionLasts(cal, o.providerMetadata, AZURE_MODE, AZURE_UNTIL, now);
    hide RetentionActive, RetentionEnd, HoldActive;
  }

  const GCS_SOFT_DELETE := "gcs_soft_delete_seconds"
  const GCS_RETENTION := "gcs_retention_seconds"
  const AZURE_VERSIONING := "azure_versioning_enabled"
  const AZURE_SOFT_DELETE := "azure_soft_delete_days"

  /** str::parse::<u64>: an optional plus sign, digits, no overflow. */
  function ParseU64(s: string): Option<nat> {
    var r := ParseDigits(if s != "" && s[0] == '+' then s[1..] else s);
    if r.Some? && r.value <= U64_MAX then r else None
  }

  /** positive_duration_or_invalid */
  predicate PositiveOrInvalid(meta: map<string, string>, key: string) {
    key in meta && (ParseU64(meta[key]).Some? ==> ParseU64(meta[key]).value > 0)
  }

  /** Zero, however many digits it is written with. */
  predicate ZeroDigits(s: string) { s != "" && forall i | 0 <= i < |s| :: s[i] == '0' }

  lemma {:induction false} ZeroIsZeros(s: string)
    ensures ParseDigits(s) == Some(0) <==> ZeroDigits(s)
  {
    if |s| > 1 {
      ZeroIsZeros(s[..|s| - 1]);
      if ZeroDigits(s) {
        assert ZeroDigits(s[..|s| - 1]) && Last(s) == '0';
      }
      if ParseDigits(s) == Some(0) {
        assert forall i | 0 <= i < |s| - 1 :: s[..|s| - 1][i] == s[i];
      }
    }
  }

  /** Zero with an optional plus sign. */
  predicate WrittenZero(s: string) { ZeroDigits(s) || (s != "" && s[0] == '+' && ZeroDigits(s[1..])) }

  /** A duration is off exactly when it is absent or written as zero. */
  lemma DurationOff(meta: map<string, string>, key: string)
    ensures !PositiveOrInvalid(meta, key) <==> (key in meta ==> WrittenZero(meta[key]))
  {
    if key in meta {
      var v := meta[key];
      ZeroIsZeros(v);
      if v != "" { ZeroIsZeros(v[1..]); }
    }
  }

  /**
   The rules of a bucket run exactly if each of its three durations is absent or written as zero, and
   its versioning for another provider is absent or "false", in any letter case.
   */
  lemma PassMayRun(meta: map<string, string>)
    ensures !ForeignProtected(meta) <==>
      && ("gcs_soft_delete_seconds" in meta ==> WrittenZero(meta["gcs_soft_delete_seconds"]))
      && ("gcs_retention_seconds" in meta ==> WrittenZero(meta["gcs_retention_seconds"]))
      && ("azure_soft_delete_days" in meta ==> WrittenZero(meta["azure_soft_delete_days"]))
      && ("azure_versioning_enabled" in meta ==> Lower(meta["azure_versioning_enabled"]) == "false")
  {
    DurationOff(meta, GCS_SOFT_DELETE);
    DurationOff(meta, GCS_RETENTION);
    DurationOff(meta, AZURE_SOFT_DELETE);
    hide PositiveOrInvalid, ZeroDigits;
    if AZURE_VERSIONING in meta { LowerEquals(meta[AZURE_VERSIONING], "false"); }
    assert Lower("false") == "false";
    hide EqIgnoreCase, Lower;
  }

  lemma LowerEquals(a: string, b: string)
    ensures EqIgnoreCase(a, b) <==> Lower(a) == Lower(b)
  {
    if Lower(a) == Lower(b) {
      assert |Lower(a)| == |a| && |Lower(b)| == |b|;
      assert forall i | 0 <= i < |a| :: LowerAscii(a[i]) == Lower(a)[i] == Lower(b)[i] == LowerAscii(b[i]);
    }
  }

  /** foreign_provider_data_protection_active */
  predicate ForeignProtected(meta: map<string, string>) {
    || PositiveOrInvalid(meta, GCS_SOFT_DELETE) || PositiveOrInvalid(meta, GCS_RETENTION)
    || (AZURE_VERSIONING in meta && !EqIgnoreCase(meta[AZURE_VERSIONING], "false"))
    || PositiveOrInvalid(meta, AZURE_SOFT_DELETE)
  }
}
