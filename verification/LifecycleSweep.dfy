/**
 What a noncurrent rule removes (src/lifecycle.rs:479-588), call by call: which versions it
 selected, which keys it could not look up, and which deletes failed decide the outcome exactly.
 */
module LifecycleSweep {
  import opened Common
  import opened LifecycleRules
  import opened Lifecycle
  import opened LifecycleSteps

  /** One run of a noncurrent rule: its groups, the keys whose lookup failed, the versions it could not delete. */
  datatype Sweep = Sweep(groups: map<string, seq<Object>>, unread: set<string>, stuck: set<Object>)

  /** By last modification, newest first, then by version id. */
  predicate NewerFirst(a: Object, b: Object) {
    || b.lastModified < a.lastModified
    || (a.lastModified == b.lastModified && IdLe(a.versionId, b.versionId))
  }

  const NEWEST_FIRST: (Object, Object) -> bool := (a: Object, b: Object) => NewerFirst(a, b)

  // ---- Selection ----

  predicate InGroup(groups: map<string, seq<Object>>, o: Object) { o.key in groups && o in groups[o.key] }

  /** Groups hold versions of their own key that the rule selects. */
  ghost predicate Groups(b: Bucket, rule: Rule, groups: map<string, seq<Object>>) {
    forall k, v | k in groups && v in groups[k] ::
      v.key == k && v in Items(b) && v.versionId.Some? && Matches(rule, v.key, TagsOf(b, v.key))
  }

  /** Every selected version is in a group, apart from those of keys whose tags were not read. */
  ghost predicate Complete(b: Bucket, rule: Rule, groups: map<string, seq<Object>>, untagged: set<string>) {
    forall v | v in Items(b) && v.versionId.Some? && Matches(rule, v.key, TagsOf(b, v.key)) && v.key !in untagged ::
      InGroup(groups, v)
  }

  /** A failed tag lookup, which reads as no tags, never selects more. */
  lemma MatchesWithFewerTags(rule: Rule, key: string, tags: map<string, string>)
    requires Matches(rule, key, map[])
    ensures Matches(rule, key, tags)
  {
  }

  lemma AddToGroup(b: Bucket, rule: Rule, groups: map<string, seq<Object>>, v: Object)
    requires Groups(b, rule, groups) && v in Items(b) && v.versionId.Some? && Matches(rule, v.key, TagsOf(b, v.key))
    ensures var added := groups[v.key := (if v.key in groups then groups[v.key] else []) + [v]];
      && Groups(b, rule, added) && InGroup(added, v) && forall w | InGroup(groups, w) :: InGroup(added, w)
  {
    hide Matches;
  }

  lemma FirstOfGroup(b: Bucket, rule: Rule, groups: map<string, seq<Object>>, k: string)
    requires Groups(b, rule, groups) && k in groups && groups[k] != []
    ensures groups[k][0] in Items(b) && groups[k][0].versionId.Some?
  {
    assert groups[k][0] in groups[k];
  }

  lemma OffHasNoVersions(b: Bucket, rule: Rule, groups: map<string, seq<Object>>)
    requires WellFormed(b) && Groups(b, rule, groups) && b.versioning == Off
    ensures forall k | k in groups :: groups[k] == []
  {
    assert forall o | o in Items(b) :: o.versionId == None;
    forall k | k in groups ensures groups[k] == [] {
      if groups[k] != [] { FirstOfGroup(b, rule, groups, k); }
    }
  }

  /** The delete of each of these versions was refused. */
  ghost predicate StuckIn(stuck: set<Object>, news: seq<Refusal>, name: string) {
    forall v | v in stuck :: v.versionId.Some? && DeletingVersion(name, v.key, v.versionId.value) in news
  }

  // ---- One key ----

  /** A version that a noncurrent rule removes when `currentId` is seen as current. */
  predicate Victim(cal: Calendar, v: Object, currentId: Option<string>, days: nat, now: int) {
    v.versionId.Some? && v.versionId != currentId && NumDays(now - v.lastModified) >= days && !Protected(cal, v, now)
  }

  /** `b'` is `b` without the victims among `versions`, apart from those in `stuck`. */
  ghost predicate Pruned(cal: Calendar, b: Bucket, b': Bucket, currentId: Option<string>, days: nat, now: int,
                         versions: seq<Object>, stuck: set<Object>)
  {
    && b'.history <= b.history && (forall v | v in stuck :: v in versions)
    && (forall o :: o in Items(b') <==>
          o in Items(b) && !(o in versions && Victim(cal, o, currentId, days, now) && o !in stuck))
    && (forall o: Object | (forall v | v in versions :: v.key != o.key) :: o in b'.objects <==> o in b.objects)
  }

  lemma PrunedNone(cal: Calendar, b: Bucket, currentId: Option<string>, days: nat, now: int)
    ensures Pruned(cal, b, b, currentId, days, now, [], {})
  {
    hide Victim;
  }

  /** The versions that could not be deleted, after one more attempt on `v`. */
  ghost function StillStuck(cal: Calendar, at: Bucket, stuck: set<Object>, v: Object, currentId: Option<string>,
                            days: nat, now: int, removed: bool): set<Object>
  {
    if removed then stuck - {v}
    else if Victim(cal, v, currentId, days, now) && v in Items(at) then stuck + {v}
    else stuck
  }

  lemma PrunedNext(cal: Calendar, b: Bucket, at: Bucket, next: Bucket, currentId: Option<string>, days: nat, now: int,
                   versions: seq<Object>, i: nat, stuck: set<Object>, removed: bool)
    requires i < |versions| && Pruned(cal, b, at, currentId, days, now, versions[..i], stuck) && WellFormed(b)
    requires versions[i] in Items(b)
    requires removed ==> Victim(cal, versions[i], currentId, days, now)
    requires removed ==> VersionRemoved(at, next, versions[i].key, versions[i].versionId.value)
    requires !removed ==> next == at
    ensures Pruned(cal, b, next, currentId, days, now, versions[..i + 1],
                   StillStuck(cal, at, stuck, versions[i], currentId, days, now, removed))
  {
    var v := versions[i];
    assert versions[..i + 1] == versions[..i] + [v];
    if removed {
      assert v.versionId.Some?;
      assert forall o | o in Items(b) && Is(o, v.key, v.versionId.value) :: o == v;
      hide WellFormed, Victim, Items;
      assert next.history <= b.history;
    } else {
      hide WellFormed, Victim, Items, VersionRemoved;
    }
  }

  lemma SameGroup(cal: Calendar, b: Bucket, b': Bucket, currentId: Option<string>, days: nat, now: int,
                  versions: seq<Object>, group: seq<Object>, stuck: set<Object>)
    requires (forall v :: v in versions <==> v in group) && Pruned(cal, b, b', currentId, days, now, versions, stuck)
    ensures Pruned(cal, b, b', currentId, days, now, group, stuck)
  {
    hide Victim;
  }

  // ---- All keys ----

  /** The version id a sweep took for current: none if the lookup failed. */
  ghost function SeenId(b: Bucket, unread: set<string>, key: string): Option<string> {
    if key in unread then None else CurrentId(b, key)
  }

  /** The sweep removes this version. */
  ghost predicate Removes(cal: Calendar, b: Bucket, s: Sweep, days: nat, now: int, o: Object) {
    InGroup(s.groups, o) && Victim(cal, o, SeenId(b, s.unread, o.key), days, now) && o !in s.stuck
  }

  /** Exactly the removed versions are gone, and nothing is added. */
  ghost predicate SweepOutcome(cal: Calendar, b: Bucket, b': Bucket, s: Sweep, days: nat, now: int) {
    b'.history <= b.history && forall o :: o in Items(b') <==> o in Items(b) && !Removes(cal, b, s, days, now, o)
  }

  /** The groups of all keys but `keys` have been swept. */
  ghost predicate SweptSoFar(cal: Calendar, b: Bucket, at: Bucket, s: Sweep, keys: set<string>, days: nat, now: int) {
    && at.history <= b.history && s.unread !! keys && (forall v | v in s.stuck :: v.key !in keys)
    && (forall o: Object | o.key in keys ::
          (o in Items(at) <==> o in Items(b)) && (o in at.objects <==> o in b.objects))
    && (forall o: Object | o.key !in keys :: o in Items(at) <==> o in Items(b) && !Removes(cal, b, s, days, now, o))
  }

  lemma SweptNone(cal: Calendar, b: Bucket, groups: map<string, seq<Object>>, days: nat, now: int)
    ensures SweptSoFar(cal, b, b, Sweep(groups, {}, {}), groups.Keys, days, now)
  {
    hide Victim;
  }

  lemma GroupMembers(cal: Calendar, b: Bucket, at: Bucket, rule: Rule, s: Sweep, keys: set<string>, days: nat, now: int,
                     key: string)
    requires SweptSoFar(cal, b, at, s, keys, days, now) && Groups(b, rule, s.groups) && key in keys && key in s.groups
    ensures forall v | v in s.groups[key] :: v.key == key && v in Items(at)
  {
    hide Removes, Matches;
  }

  lemma SameCurrent(b: Bucket, at: Bucket, key: string)
    requires WellFormed(b) && WellFormed(at) && forall o: Object | o.key == key :: o in at.objects <==> o in b.objects
    ensures CurrentOf(at, key) == CurrentOf(b, key)
  {
    if o :| o in b.objects && o.key == key {
      CurrentIs(b, o);
      CurrentIs(at, o);
    }
  }

  // ---- What was refused ----

  /** Every selected version outside `versions` is in a group, apart from keys in `untagged`. */
  ghost predicate Grouped(b: Bucket, rule: Rule, groups: map<string, seq<Object>>, untagged: set<string>,
                          versions: set<Object>)
  {
    forall v | v in Items(b) && v.versionId.Some? && v !in versions && Matches(rule, v.key, TagsOf(b, v.key))
               && v.key !in untagged ::
      InGroup(groups, v)
  }

  lemma GroupedNext(b: Bucket, rule: Rule, before: map<string, seq<Object>>, groups: map<string, seq<Object>>,
                    untagged: set<string>, more: set<string>, versions: set<Object>, v: Object)
    requires Grouped(b, rule, before, untagged, versions) && untagged <= more
    requires forall w | InGroup(before, w) :: InGroup(groups, w)
    requires Matches(rule, v.key, TagsOf(b, v.key)) && v.key !in more ==> InGroup(groups, v)
    ensures Grouped(b, rule, groups, more, versions - {v})
  {
    hide InGroup, Matches, TagsOf, Items;
  }

  lemma GroupedAll(b: Bucket, rule: Rule, groups: map<string, seq<Object>>, untagged: set<string>)
    requires Grouped(b, rule, groups, untagged, {})
    ensures Complete(b, rule, groups, untagged)
  {
    hide InGroup, Matches, TagsOf, Items;
  }

  /** One more attempt to read the tags of a key. */
  lemma TagsRead(log: seq<Refusal>, at: seq<Refusal>, after: seq<Refusal>, name: string, key: string)
    requires log <= at && (after == at || after == at + [ReadingTags(name, key)])
    ensures UntaggedKeys(Since(log, after), name) ==
      UntaggedKeys(Since(log, at), name) + if after == at then {} else {key}
    ensures UnreadKeys(Since(log, after), name) == UnreadKeys(Since(log, at), name)
  {
    SinceJoin(log, at, after);
    KeysJoin(Since(log, at), Since(at, after), name);
    assert Since(at, after) == if after == at then [] else [ReadingTags(name, key)];
    OneRefusal(ReadingTags(name, key), name);
  }

  lemma OneRefusal(r: Refusal, name: string)
    ensures UntaggedKeys([], name) == {} == UnreadKeys([], name)
    ensures UntaggedKeys([r], name) == if r.ReadingTags? && r.name == name then {r.key} else {}
    ensures UnreadKeys([r], name) == if r.LookingUp? && r.name == name then {r.key} else {}
  {
    assert r in [r];
  }

  /** One more attempt to delete a version. */
  lemma StuckNext(cal: Calendar, at: Bucket, stuck: set<Object>, v: Object, currentId: Option<string>, days: nat,
                  now: int, removed: bool, log: seq<Refusal>, before: seq<Refusal>, after: seq<Refusal>, name: string)
    requires log <= before && StuckIn(stuck, Since(log, before), name) && UnreadKeys(Since(log, before), name) == {}
    requires removed || !Victim(cal, v, currentId, days, now) ==> after == before
    requires Victim(cal, v, currentId, days, now) && !removed ==>
      after == before + [DeletingVersion(name, v.key, v.versionId.value)]
    ensures log <= after && UnreadKeys(Since(log, after), name) == {}
    ensures StuckIn(StillStuck(cal, at, stuck, v, currentId, days, now, removed), Since(log, after), name)
  {
    assert Victim(cal, v, currentId, days, now) ==> v.versionId.Some?;
    SinceJoin(log, before, after);
    KeysJoin(Since(log, before), Since(before, after), name);
    hide Victim;
    OneRefusal(if v.versionId.Some? then DeletingVersion(name, v.key, v.versionId.value) else ListingBuckets, name);
  }

  /** A sweep knows the lookups and deletes that were refused. */
  ghost predicate Logged(s: Sweep, log: seq<Refusal>, at: seq<Refusal>, name: string) {
    s.unread == UnreadKeys(Since(log, at), name) && StuckIn(s.stuck, Since(log, at), name)
  }

  lemma StuckNowhere(stuck: set<Object>, name: string)
    requires StuckIn(stuck, [], name)
    ensures stuck == {}
  {
  }

  lemma StuckJoin(a: set<Object>, b: set<Object>, s: seq<Refusal>, t: seq<Refusal>, name: string)
    requires StuckIn(a, s, name) && StuckIn(b, t, name)
    ensures StuckIn(a + b, s + t, name)
  {
  }

  lemma LoggedNext(s: Sweep, key: string, looked: bool, stuck: set<Object>, log: seq<Refusal>, at: seq<Refusal>,
                   after: seq<Refusal>, name: string)
    requires log <= at <= after && Logged(s, log, at, name) && StuckIn(stuck, Since(at, after), name)
    requires UnreadKeys(Since(at, after), name) == if looked then {} else {key}
    ensures Logged(NextSweep(s, key, looked, stuck), log, after, name)
  {
    SinceJoin(log, at, after);
    KeysJoin(Since(log, at), Since(at, after), name);
    StuckJoin(s.stuck, stuck, Since(log, at), Since(at, after), name);
    hide StuckIn, Since, UnreadKeys;
  }

  /** A lookup, then the deletes of one group. */
  lemma GroupLogged(log: seq<Refusal>, seen: seq<Refusal>, after: seq<Refusal>, name: string, key: string,
                    looked: bool, stuck: set<Object>)
    requires seen == log + (if looked then [] else [LookingUp(name, key)]) && seen <= after
    requires UnreadKeys(Since(seen, after), name) == {} && StuckIn(stuck, Since(seen, after), name)
    ensures log <= after && UnreadKeys(Since(log, after), name) == if looked then {} else {key}
    ensures StuckIn(stuck, Since(log, after), name)
  {
    SinceJoin(log, seen, after);
    assert Since(log, seen) == if looked then [] else [LookingUp(name, key)];
    OneRefusal(LookingUp(name, key), name);
    KeysJoin(Since(log, seen), Since(seen, after), name);
    StuckJoin({}, stuck, Since(log, seen), Since(seen, after), name);
    assert {} + stuck == stuck;
    hide StuckIn, Since, UnreadKeys;
  }

  /** The outcome of a noncurrent rule, given its sweep. */
  ghost predicate Swept(cal: Calendar, b: Bucket, b': Bucket, rule: Rule, s: Sweep, now: int) {
    rule.noncurrentDays.Some? && SweepOutcome(cal, b, b', s, rule.noncurrentDays.value, now)
  }

  /**
   The sweep of a rule is what the refused calls make of it: its groups miss a selected version
   only if its tags were not read, its unread keys are those whose lookup was refused, and it is
   stuck only on versions whose delete was refused.
   */
  ghost predicate Told(b: Bucket, rule: Rule, s: Sweep, news: seq<Refusal>, name: string) {
    && Groups(b, rule, s.groups) && Complete(b, rule, s.groups, UntaggedKeys(news, name))
    && s.unread == UnreadKeys(news, name) && StuckIn(s.stuck, news, name)
  }

  lemma TellSweep(b: Bucket, rule: Rule, s: Sweep, log: seq<Refusal>, at: seq<Refusal>, after: seq<Refusal>,
                  name: string)
    requires log <= at <= after && Groups(b, rule, s.groups)
    requires Complete(b, rule, s.groups, UntaggedKeys(Since(log, at), name))
    requires UnreadKeys(Since(log, at), name) == {} && s.unread == UnreadKeys(Since(at, after), name)
    requires StuckIn(s.stuck, Since(at, after), name)
    ensures Told(b, rule, s, Since(log, after), name)
  {
    SinceJoin(log, at, after);
    KeysJoin(Since(log, at), Since(at, after), name);
    StuckJoin({}, s.stuck, Since(log, at), Since(at, after), name);
    assert {} + s.stuck == s.stuck;
    hide StuckIn, Since, UnreadKeys, UntaggedKeys, Groups, InGroup, Items, Matches, TagsOf;
  }

  /** The sweep after one more key. */
  function NextSweep(s: Sweep, key: string, looked: bool, stuck: set<Object>): Sweep {
    Sweep(s.groups, if looked then s.unread else s.unread + {key}, s.stuck + stuck)
  }

  lemma SweptStep(cal: Calendar, b: Bucket, at: Bucket, next: Bucket, s: Sweep, keys: set<string>, days: nat, now: int,
                  key: string, looked: bool, stuck: set<Object>)
    requires WellFormed(b) && WellFormed(at) && key !in keys && key in s.groups
    requires SweptSoFar(cal, b, at, s, keys + {key}, days, now) && forall v | v in s.groups[key] :: v.key == key
    requires Pruned(cal, at, next, if looked then CurrentId(at, key) else None, days, now, s.groups[key], stuck)
    ensures SweptSoFar(cal, b, next, NextSweep(s, key, looked, stuck), keys, days, now)
  {
    var t := NextSweep(s, key, looked, stuck);
    SameCurrent(b, at, key);
    hide WellFormed, Victim;
    forall o: Object | o.key !in keys ensures o in Items(next) <==> o in Items(b) && !Removes(cal, b, t, days, now, o) {
      if o.key == key {
        assert SeenId(b, t.unread, key) == if looked then CurrentId(at, key) else None;
      } else {
        assert Removes(cal, b, t, days, now, o) == Removes(cal, b, s, days, now, o);
      }
    }
    hide Removes;
  }

  lemma SweptIsOutcome(cal: Calendar, b: Bucket, at: Bucket, s: Sweep, days: nat, now: int)
    requires SweptSoFar(cal, b, at, s, {}, days, now)
    ensures SweepOutcome(cal, b, at, s, days, now)
  {
    hide Removes;
  }

  lemma SweepIsCareful(cal: Calendar, b: Bucket, at: Bucket, s: Sweep, days: nat, now: int)
    requires SweepOutcome(cal, b, at, s, days, now) && at.versioning == b.versioning
    ensures Careful(cal, b, at, now)
  {
    forall o | o in Items(b) && Protected(cal, o, now) && !Exposed(b, o) ensures Spared(o, at) {
      assert !Removes(cal, b, s, days, now, o);
      assert Same(o, o);
    }
  }

  // ---- What the rule promises ----

  /** What a noncurrent rule removes, given what is current when it starts. */
  ghost predicate NoncurrentDue(cal: Calendar, b: Bucket, rule: Rule, o: Object, now: int) {
    && rule.noncurrentDays.Some? && Matches(rule, o.key, TagsOf(b, o.key))
    && Victim(cal, o, CurrentId(b, o.key), rule.noncurrentDays.value, now)
  }

  ghost predicate NoncurrentPass(cal: Calendar, b: Bucket, b': Bucket, rule: Rule, now: int) {
    forall o :: o in Items(b') <==> o in Items(b) && !NoncurrentDue(cal, b, rule, o, now)
  }

  /** If every read and every delete succeeds, the rule removes exactly what it promises. */
  lemma CleanSweepIsPass(cal: Calendar, b: Bucket, at: Bucket, rule: Rule, s: Sweep, days: nat, now: int)
    requires SweepOutcome(cal, b, at, s, days, now) && s.unread == {} && s.stuck == {}
    requires Groups(b, rule, s.groups) && Complete(b, rule, s.groups, {}) && rule.noncurrentDays == Some(days)
    ensures NoncurrentPass(cal, b, at, rule, now)
  {
    assert forall o, c :: Victim(cal, o, c, days, now) ==> o.versionId.Some?;
    hide Victim, Matches;
    forall o | o in Items(b) ensures Removes(cal, b, s, days, now, o) <==> NoncurrentDue(cal, b, rule, o, now) {
    }
    hide Removes, NoncurrentDue;
  }

  /**
   A version that is current when the rule starts is gone exactly when its lookup failed, the rule
   selected it, it is due and unprotected, and its delete succeeded; other failures do not matter.
   */
  lemma CurrentGoneExactly(cal: Calendar, b: Bucket, at: Bucket, s: Sweep, days: nat, now: int, o: Object)
    requires WellFormed(b) && SweepOutcome(cal, b, at, s, days, now) && o in b.objects
    ensures o !in Items(at) <==>
      && o.key in s.unread && InGroup(s.groups, o) && o !in s.stuck
      && o.versionId.Some? && NumDays(now - o.lastModified) >= days && !Protected(cal, o, now)
  {
    CurrentIs(b, o);
    hide WellFormed, Protected, NumDays;
    assert o in Items(b);
  }

  /** A bucket whose only, current version is lost because its lookup failed. */
  lemma FailedLookupLosesCurrent(cal: Calendar, now: int)
    ensures var rule := Rule(Enabled, None, None, Some(0), []);
      var o := Object("k", Some("v1"), now, "STANDARD", map[], map[]);
      var b := Bucket(map[], Some([rule]), On, [o], {});
      var s := Sweep(map["k" := [o]], {"k"}, {});
      var b' := b.(objects := []);
      && WellFormed(b) && WellFormed(b') && Groups(b, rule, s.groups) && Complete(b, rule, s.groups, {})
      && VersionRemoved(b, b', "k", "v1") && SweepOutcome(cal, b, b', s, 0, now)
      && CurrentOf(b, "k") == Some(o) && o !in Items(b')
  {
    var rule := Rule(Enabled, None, None, Some(0), []);
    var o := Object("k", Some("v1"), now, "STANDARD", map[], map[]);
    var b := Bucket(map[], Some([rule]), On, [o], {});
    var s := Sweep(map["k" := [o]], {"k"}, {});
    assert b.objects[0] == o && forall x | x in Items(b) :: x == o;
    assert s.groups["k"][0] == o;
    CurrentIs(b, o);
    assert Removes(cal, b, s, 0, now, o);
  }
}
