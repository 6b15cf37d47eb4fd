/** The lifecycle passes (src/lifecycle.rs:326-588) and the eager check (src/lifecycle.rs:123-193). */
module LifecyclePasses {
  import opened Common
  import opened Sorting
  import opened LifecycleRules
  import opened LifecycleSpec
  import opened Lifecycle
  import opened LifecycleSteps
  import opened LifecycleSweep
  import opened LifecycleOutcome

  lemma FramedTransitive(a: map<string, Bucket>, b: map<string, Bucket>, c: map<string, Bucket>, name: string)
    requires name in a && Framed(a, b, name) && Framed(b, c, name)
    ensures Framed(a, c, name)
  {
  }

  lemma FramedSame(a: map<string, Bucket>, name: string)
    requires name in a
    ensures Framed(a, a, name)
  {
  }

  lemma FramedKeeps(a: map<string, Bucket>, b: map<string, Bucket>, name: string)
    requires name in a && Framed(a, b, name)
    ensures name in b && b[name].versioning == a[name].versioning && b.Keys == a.Keys
  {
  }

  lemma ReclassedSame(b: Bucket, o: Object)
    requires WellFormed(b) && o in b.objects
    ensures Reclassed(b, o, o.storageClass) == b
  {
    CurrentIs(b, o);
    ReplaceSame(b.objects, o);
  }

  lemma ReclassedFrame(b: Bucket, o: Object, c: string)
    ensures Reclassed(b, o, c) == b.(objects := Reclassed(b, o, c).objects)
  {
  }

  lemma DeletedFrame(b: Bucket, key: string, id: string, now: int)
    ensures var b' := Deleted(b, key, id, now);
      b' == b.(objects := b'.objects, history := b'.history) && b'.objects == Replace(b.objects, key, None)
  {
  }

  lemma FatesCareful(cal: Calendar, b: Bucket, at: Bucket, rule: Rule, now: int, i: nat, troubled: set<string>)
    requires Fates(cal, b, at, rule, now, i, troubled)
    ensures Careful(cal, b, at, now)
  {
  }

  lemma ApplyCases(cal: Calendar, o: Object, rule: Rule, now: int)
    requires rule.status == Enabled
    ensures var due := rule.expiration.Some? && ShouldExpire(cal, o.lastModified, rule.expiration.value, now);
      var r := Apply(cal, o, rule, now);
      && (!Matches(rule, o.key, o.tags) ==> r == Some(o))
      && (Matches(rule, o.key, o.tags) && due ==> r == if Protected(cal, o, now) then Some(o) else None)
      && (Matches(rule, o.key, o.tags) && !due ==> r == match FirstDue(cal, o.lastModified, rule.transitions, now)
            case None => Some(o)
            case Some(t) => Some(o.(storageClass := ClassName(t.storageClass))))
  {
    hide Matches, Protected, ShouldExpire, FirstDue, ClassName;
  }

  /** A rule has worked through the first `i` listed objects; `news` are the calls refused so far. */
  ghost predicate Midway(cal: Calendar, start: map<string, Bucket>, at: map<string, Bucket>, name: string, rule: Rule,
                         now: int, i: nat, news: seq<Refusal>)
    requires name in start
  {
    var b := start[name];
    && Framed(start, at, name) && Fates(cal, b, at[name], rule, now, i, TroubledKeys(news, name))
    && (forall j | i <= j < |Page(b.objects)| :: Page(b.objects)[j] in at[name].objects)
    && (news == [] ==> i <= |b.objects| && at[name].objects == After(cal, b.objects, rule, now, i))
  }

  /** The fates of all versions after one more object; `more` are the calls refused for it. */
  lemma FatesStep(cal: Calendar, b: Bucket, at: Bucket, next: Bucket, rule: Rule, now: int, i: nat, name: string,
                  news: seq<Refusal>, more: seq<Refusal>)
    requires WellFormed(at) && i < |Page(b.objects)| && Page(b.objects)[i] in at.objects
    requires b.versioning == at.versioning && Fates(cal, b, at, rule, now, i, TroubledKeys(news, name))
    requires Stepped(cal, at, next, Page(b.objects)[i], rule, now,
                     Page(b.objects)[i].key !in TroubledKeys(more, name))
    ensures Fates(cal, b, next, rule, now, i + 1, TroubledKeys(news + more, name))
  {
    var o := Page(b.objects)[i];
    KeysJoin(news, more, name);
    hide Fates, Stepped, WellFormed, Page, TroubledKeys;
    SteppedLess(cal, at, next, o, rule, now, o.key !in TroubledKeys(more, name),
                o.key !in TroubledKeys(news + more, name));
    FatesNext(cal, b, at, next, rule, now, i, TroubledKeys(news, name), TroubledKeys(news + more, name));
  }

  lemma OthersStay(cal: Calendar, b: Bucket, at: Bucket, next: Bucket, rule: Rule, now: int, i: nat, done: bool)
    requires WellFormed(at) && DistinctKeys(b.objects) && i < |Page(b.objects)|
    requires forall j | i <= j < |Page(b.objects)| :: Page(b.objects)[j] in at.objects
    requires Stepped(cal, at, next, Page(b.objects)[i], rule, now, done)
    ensures forall j | i < j < |Page(b.objects)| :: Page(b.objects)[j] in next.objects
  {
    assert forall j | i < j < |Page(b.objects)| :: Page(b.objects)[j].key != Page(b.objects)[i].key;
    hide Stepped, WellFormed, Page, Careful, Apply, Replace;
    SteppedFacts(cal, at, next, Page(b.objects)[i], rule, now, done);
  }

  lemma IndexStep(cal: Calendar, b: Bucket, at: Bucket, next: Bucket, rule: Rule, now: int, i: nat)
    requires WellFormed(at) && DistinctKeys(b.objects) && i < |Page(b.objects)| && Page(b.objects)[i] in at.objects
    requires i <= |b.objects| && at.objects == After(cal, b.objects, rule, now, i)
    requires Stepped(cal, at, next, Page(b.objects)[i], rule, now, true)
    ensures i + 1 <= |b.objects| && next.objects == After(cal, b.objects, rule, now, i + 1)
  {
    AfterPage(cal, b.objects, rule, now);
    AfterNext(cal, b.objects, rule, now, i);
    hide Careful, Apply, Replace, After, RulePass, Stepped, WellFormed, Page, DistinctKeys;
    SteppedFacts(cal, at, next, Page(b.objects)[i], rule, now, true);
  }

  lemma MidwayStep(cal: Calendar, start: map<string, Bucket>, at: map<string, Bucket>, next: map<string, Bucket>,
                   name: string, rule: Rule, now: int, i: nat, news: seq<Refusal>, more: seq<Refusal>)
    requires name in start && i < |Page(start[name].objects)| && DistinctKeys(start[name].objects)
    requires Midway(cal, start, at, name, rule, now, i, news) && WellFormed(at[name]) && Framed(at, next, name)
    requires var o := Page(start[name].objects)[i];
      Stepped(cal, at[name], next[name], o, rule, now, o.key !in TroubledKeys(more, name))
    ensures Midway(cal, start, next, name, rule, now, i + 1, news + more)
  {
    var b := start[name];
    assert more == [] ==> TroubledKeys(more, name) == {};
    hide After, Fates, Stepped, WellFormed, Page, TroubledKeys, DistinctKeys;
    FatesStep(cal, b, at[name], next[name], rule, now, i, name, news, more);
    OthersStay(cal, b, at[name], next[name], rule, now, i, Page(b.objects)[i].key !in TroubledKeys(more, name));
    if news + more == [] {
      assert news == [] && more == [];
      IndexStep(cal, b, at[name], next[name], rule, now, i);
    }
    FramedTransitive(start, at, next, name);
    hide Framed;
  }

  lemma MidwayStart(cal: Calendar, start: map<string, Bucket>, name: string, rule: Rule, now: int)
    requires name in start
    ensures Midway(cal, start, start, name, rule, now, 0, [])
  {
    hide Fates, After, RulePass, TroubledKeys, Page;
    FatesNone(cal, start[name], rule, now);
    AfterPage(cal, start[name].objects, rule, now);
    NoTrouble(name);
    FramedSame(start, name);
    hide Framed;
  }

  lemma NoTrouble(name: string)
    ensures TroubledKeys([], name) == {}
  {
  }

  lemma MidwayFacts(cal: Calendar, start: map<string, Bucket>, at: map<string, Bucket>, name: string, rule: Rule,
                    now: int, i: nat, news: seq<Refusal>)
    requires name in start && Midway(cal, start, at, name, rule, now, i, news) && i < |Page(start[name].objects)|
    ensures name in at && Page(start[name].objects)[i] in at[name].objects
  {
    hide Fates, After, Page;
  }

  lemma MidwayEnd(cal: Calendar, start: map<string, Bucket>, at: map<string, Bucket>, name: string, rule: Rule,
                  now: int, news: seq<Refusal>)
    requires name in start && Midway(cal, start, at, name, rule, now, |Page(start[name].objects)|, news)
    requires name in at && WellFormed(at[name])
    ensures Framed(start, at, name) && Careful(cal, start[name], at[name], now)
    ensures Fates(cal, start[name], at[name], rule, now, |Page(start[name].objects)|, TroubledKeys(news, name))
    ensures news == [] ==> CurrentHalf(cal, start[name], at[name], rule, now)
  {
    AfterPage(cal, start[name].objects, rule, now);
    FatesCareful(cal, start[name], at[name], rule, now, |Page(start[name].objects)|, TroubledKeys(news, name));
    assert TroubledKeys([], name) == {};
    hide Fates, After, Page, RulePass, Careful, WellFormed;
  }

  /** The first `i` versions of a group are done. */
  ghost predicate Expiring(cal: Calendar, start: map<string, Bucket>, at: map<string, Bucket>, name: string,
                           currentId: Option<string>, days: nat, now: int, versions: seq<Object>, i: nat,
                           stuck: set<Object>)
    requires name in start
  {
    && Framed(start, at, name) && i <= |versions| && (i == 0 ==> at == start)
    && Pruned(cal, start[name], at[name], currentId, days, now, versions[..i], stuck)
  }

  lemma ExpiringStart(cal: Calendar, start: map<string, Bucket>, name: string, currentId: Option<string>, days: nat,
                      now: int, versions: seq<Object>)
    requires name in start
    ensures Expiring(cal, start, start, name, currentId, days, now, versions, 0, {})
  {
    hide Pruned;
    PrunedNone(cal, start[name], currentId, days, now);
    assert versions[..0] == [];
  }

  lemma ExpiringNext(cal: Calendar, start: map<string, Bucket>, at: map<string, Bucket>, next: map<string, Bucket>,
                     name: string, currentId: Option<string>, days: nat, now: int, versions: seq<Object>, i: nat,
                     stuck: set<Object>, removed: bool)
    requires name in start && Expiring(cal, start, at, name, currentId, days, now, versions, i, stuck) && i < |versions|
    requires Framed(at, next, name) && WellFormed(start[name]) && versions[i] in Items(start[name])
    requires removed ==> Victim(cal, versions[i], currentId, days, now)
    requires removed ==> VersionRemoved(at[name], next[name], versions[i].key, versions[i].versionId.value)
    requires !removed ==> next == at
    ensures Expiring(cal, start, next, name, currentId, days, now, versions, i + 1,
                     StillStuck(cal, at[name], stuck, versions[i], currentId, days, now, removed))
  {
    hide Pruned, VersionRemoved, Victim, WellFormed, Items, StillStuck;
    FramedTransitive(start, at, next, name);
    PrunedNext(cal, start[name], at[name], next[name], currentId, days, now, versions, i, stuck, removed);
  }

  // ---- Refused calls ----

  lemma TagsTrouble(log: seq<Refusal>, name: string, key: string)
    ensures key in TroubledKeys(Since(log, log + [ReadingTags(name, key)]), name)
  {
    assert ReadingTags(name, key) in Since(log, log + [ReadingTags(name, key)]);
  }

  lemma KeyTrouble(log: seq<Refusal>, at: seq<Refusal>, name: string, key: string, call: Refusal)
    requires log <= at && (call == Deleting(name, key) || call == Moving(name, key))
    ensures key in TroubledKeys(Since(log, at + [call]), name)
  {
    assert Since(log, at + [call])[|at| - |log|] == call;
  }

  // ---- Transitions ----

  /** The current version `o` is now in class `c`; nothing else of the bucket differs. */
  ghost predicate MovedTo(b: Bucket, b': Bucket, o: Object, c: StorageClass) {
    var class_ := match c case Standard => "STANDARD" case Glacier => "GLACIER" case DeepArchive => "DEEP_ARCHIVE";
    && b' == b.(objects := b'.objects)
    && forall x :: x in b'.objects <==> (x in b.objects && x.key != o.key) || x == o.(storageClass := class_)
  }

  lemma FirstDueMoves(cal: Calendar, b: Bucket, o: Object, transitions: seq<Transition>, now: int)
    requires WellFormed(b) && o in b.objects
    ensures forall i | 0 <= i < |transitions| && DueFirst(cal, o.lastModified, transitions, now, i) ::
      && FirstDue(cal, o.lastModified, transitions, now) == Some(transitions[i])
      && MovedTo(b, Reclassed(b, o, ClassName(transitions[i].storageClass)), o, transitions[i].storageClass)
  {
    hide ShouldTransition, FirstDue;
    forall i | 0 <= i < |transitions| && DueFirst(cal, o.lastModified, transitions, now, i)
      ensures FirstDue(cal, o.lastModified, transitions, now) == Some(transitions[i])
      ensures MovedTo(b, Reclassed(b, o, ClassName(transitions[i].storageClass)), o, transitions[i].storageClass)
    {
      var due := FirstDue(cal, o.lastModified, transitions, now);
      assert transitions[i] in transitions && due.Some?;
      var k :|
        0 <= k < |transitions| && transitions[k] == due.value && DueFirst(cal, o.lastModified, transitions, now, k);
      assert k == i;
      ReclassMoves(b, o, transitions[i].storageClass);
    }
  }

  lemma FirstDueNone(cal: Calendar, lastModified: int, transitions: seq<Transition>, now: int)
    ensures FirstDue(cal, lastModified, transitions, now) == None <==>
      forall t | t in transitions :: !ShouldTransition(cal, lastModified, t, now)
  {
    hide ShouldTransition;
    var due := FirstDue(cal, lastModified, transitions, now);
    if due.Some? {
      var i :| 0 <= i < |transitions| && DueFirst(cal, lastModified, transitions, now, i);
      assert transitions[i] in transitions;
    }
  }

  lemma ReclassMoves(b: Bucket, o: Object, c: StorageClass)
    requires WellFormed(b) && o in b.objects
    ensures MovedTo(b, Reclassed(b, o, ClassName(c)), o, c)
  {
    forall x ensures x in Reclassed(b, o, ClassName(c)).objects <==>
      (x in b.objects && x.key != o.key) || x == o.(storageClass := ClassName(c))
    {
      ReclassedItems(b, o, ClassName(c), x);
    }
    hide Replace, WellFormed;
  }

  lemma ExpiryFacts(cal: Calendar, buckets: map<string, Bucket>, name: string, o: Object, id: string, now: int)
    requires name in buckets && WellFormed(buckets[name]) && o in buckets[name].objects && !Protected(cal, o, now)
    ensures var b' := Deleted(buckets[name], o.key, id, now);
      && Careful(cal, buckets[name], b', now) && Framed(buckets, buckets[name := b'], name)
    ensures Careful(cal, buckets[name], buckets[name], now) && Framed(buckets, buckets, name)
  {
    var b := buckets[name];
    hide Protected, Careful, Replace;
    CarefulSame(cal, b, now);
    CurrentIs(b, o);
    CarefulDelete(cal, b, o.key, id, now);
    DeletedFrame(b, o.key, id, now);
    hide WellFormed, Deleted;
  }

  class LifecycleExecutor {
    const storage: Store

    constructor (storage: Store)
      ensures this.storage == storage
    {
      this.storage := storage;
    }

    /** apply_transition */
    method ApplyTransition(name: string, rule: Rule, o: Object, now: int)
      requires storage.Valid() && name in storage.buckets && o in storage.buckets[name].objects
      modifies storage
      ensures storage.Valid() && Framed(old(storage.buckets), storage.buckets, name)
      ensures storage.refused == old(storage.refused) || storage.refused == old(storage.refused) + [Moving(name, o.key)]
      ensures storage.refused != old(storage.refused) ==> storage.buckets == old(storage.buckets)
      ensures storage.refused == old(storage.refused) ==>
        storage.buckets[name] == (match FirstDue(storage.cal, o.lastModified, rule.transitions, now)
          case None => old(storage.buckets)[name]
          case Some(t) => Reclassed(old(storage.buckets)[name], o, ClassName(t.storageClass)))
      ensures (forall t | t in rule.transitions :: !ShouldTransition(storage.cal, o.lastModified, t, now)) ==>
        storage.buckets == old(storage.buckets) && storage.refused == old(storage.refused)
      ensures storage.refused == old(storage.refused) ==> var all := rule.transitions;
        forall i | 0 <= i < |all| && ShouldTransition(storage.cal, o.lastModified, all[i], now)
                   && (forall j | 0 <= j < i :: !ShouldTransition(storage.cal, o.lastModified, all[j], now)) ::
          MovedTo(old(storage.buckets)[name], storage.buckets[name], o, all[i].storageClass)
    {
      ghost var b := storage.buckets[name];
      FirstDueMoves(storage.cal, b, o, rule.transitions, now);
      FirstDueNone(storage.cal, o.lastModified, rule.transitions, now);
      hide Reclassed, FirstDue, ClassName, WellFormed, MovedTo, ShouldTransition;
      MoveIfDue(name, rule, o, now);
    }

    /** The transition that is due, if any. */
    method MoveIfDue(name: string, rule: Rule, o: Object, now: int)
      requires storage.Valid() && name in storage.buckets && o in storage.buckets[name].objects
      modifies storage
      ensures storage.Valid() && Framed(old(storage.buckets), storage.buckets, name)
      ensures storage.refused == old(storage.refused) || storage.refused == old(storage.refused) + [Moving(name, o.key)]
      ensures storage.refused != old(storage.refused) ==> storage.buckets == old(storage.buckets)
      ensures FirstDue(storage.cal, o.lastModified, rule.transitions, now) == None ==>
        storage.buckets == old(storage.buckets) && storage.refused == old(storage.refused)
      ensures storage.refused == old(storage.refused) ==>
        storage.buckets[name] == (match FirstDue(storage.cal, o.lastModified, rule.transitions, now)
          case None => old(storage.buckets)[name]
          case Some(t) => Reclassed(old(storage.buckets)[name], o, ClassName(t.storageClass)))
    {
      ghost var b := storage.buckets[name];
      ReclassedSame(b, o);
      hide Reclassed, FirstDue, ClassName, KeyOrdered;
      var transition := FirstDue(storage.cal, o.lastModified, rule.transitions, now);
      if transition == None { return; }
      var class_ := ClassName(transition.value.storageClass);
      hide WellFormed;
      if o.storageClass == class_ { return; }
      var ok := storage.UpdateClass(name, o, class_);
      ReclassedFrame(b, o, class_);
    }

    /** One object of a listing. */
    method ApplyToObject(name: string, rule: Rule, o: Object, now: int)
      requires storage.Valid() && name in storage.buckets && o in storage.buckets[name].objects
      requires rule.status == Enabled
      modifies storage
      ensures storage.Valid() && Framed(old(storage.buckets), storage.buckets, name)
      ensures old(storage.refused) <= storage.refused
      ensures Stepped(storage.cal, old(storage.buckets)[name], storage.buckets[name], o, rule, now,
                      o.key !in TroubledKeys(Since(old(storage.refused), storage.refused), name))
    {
      ghost var b, log := storage.buckets[name], storage.refused;
      ApplyCases(storage.cal, o, rule, now);
      FramedSame(storage.buckets, name);
      hide WellFormed, Apply, Reclassed, Framed, TroubledKeys, Since, IsDeleted, Matches;
      var selected := SelectedBy(name, rule, o);
      ghost var at := storage.refused;
      if at != log { TagsTrouble(log, name, o.key); }
      if !selected { return; }
      hide Stepped;
      ApplyToSelected(name, rule, o, now);
      if storage.refused != at { KeyTrouble(log, at, name, o.key, Last(storage.refused)); }
      SteppedLess(storage.cal, b, storage.buckets[name], o, rule, now, storage.refused == at,
                  o.key !in TroubledKeys(Since(log, storage.refused), name));
    }

    /** rule_matches_filter, with the tags as far as they can be read. */
    method SelectedBy(name: string, rule: Rule, o: Object) returns (selected: bool)
      requires storage.Valid() && name in storage.buckets && o in storage.buckets[name].objects
      modifies storage`refused
      ensures
        || storage.refused == old(storage.refused)
        || storage.refused == old(storage.refused) + [ReadingTags(name, o.key)]
      ensures selected ==> Matches(rule, o.key, o.tags)
      ensures storage.refused == old(storage.refused) ==> (selected <==> Matches(rule, o.key, o.tags))
    {
      ghost var log := storage.refused;
      CurrentIs(storage.buckets[name], o);
      hide WellFormed, CurrentOf, DistinctKeys;
      var tags := storage.ObjectTags(name, o.key);
      selected := true;
      if rule.filter.Some? { selected := FilterMatches(rule.filter.value, o.key, tags); }
      if selected && storage.refused != log { MatchesWithFewerTags(rule, o.key, o.tags); }
    }

    /** One object that the rule selects. */
    method ApplyToSelected(name: string, rule: Rule, o: Object, now: int)
      requires storage.Valid() && name in storage.buckets && o in storage.buckets[name].objects
      requires rule.status == Enabled && Matches(rule, o.key, o.tags)
      modifies storage
      ensures storage.Valid() && Framed(old(storage.buckets), storage.buckets, name)
      ensures
        || storage.refused == old(storage.refused)
        || storage.refused == old(storage.refused) + [Deleting(name, o.key)]
        || storage.refused == old(storage.refused) + [Moving(name, o.key)]
      ensures Stepped(storage.cal, old(storage.buckets)[name], storage.buckets[name], o, rule, now,
                      storage.refused == old(storage.refused))
    {
      ghost var b := storage.buckets[name];
      ReclassedSame(b, o);
      ApplyCases(storage.cal, o, rule, now);
      hide Replace, Protected, ShouldExpire, FirstDue, WellFormed, Apply, Deleted, Reclassed, Matches, IsDeleted;
      if rule.expiration.Some? && ShouldExpire(storage.cal, o.lastModified, rule.expiration.value, now) {
        if Protected(storage.cal, o, now) { return; }
        var gone := ExpireObject(name, o, now);
        return;
      }
      ApplyTransition(name, rule, o, now);
    }

    /** Deletes an unprotected object whose expiry is due. */
    method ExpireObject(name: string, o: Object, now: int) returns (ok: bool)
      requires storage.Valid() && name in storage.buckets && o in storage.buckets[name].objects
      requires !Protected(storage.cal, o, now)
      modifies storage
      ensures storage.Valid() && Framed(old(storage.buckets), storage.buckets, name)
      ensures Careful(storage.cal, old(storage.buckets)[name], storage.buckets[name], now)
      ensures !ok ==> storage.buckets == old(storage.buckets)
      ensures ok ==> IsDeleted(old(storage.buckets)[name], storage.buckets[name], o.key, now)
      ensures storage.refused == old(storage.refused) + if ok then [] else [Deleting(name, o.key)]
    {
      hide Protected, Replace, KeyOrdered, Careful, Deleted, Framed;
      ghost var before, b := storage.buckets, storage.buckets[name];
      assert WellFormed(b);
      hide WellFormed;
      ghost var id;
      ok, id := storage.DeleteObject(name, o.key, now);
      ExpiryFacts(storage.cal, before, name, o, id, now);
    }

    /** apply_current_object_rule */
    method ApplyCurrentRule(name: string, rule: Rule, now: int) returns (ok: bool)
      requires storage.Valid() && name in storage.buckets && rule.status == Enabled
      modifies storage
      ensures storage.Valid() && Framed(old(storage.buckets), storage.buckets, name)
      ensures Careful(storage.cal, old(storage.buckets)[name], storage.buckets[name], now)
      ensures old(storage.refused) <= storage.refused
      ensures ok ==> var b := old(storage.buckets)[name];
        Fates(storage.cal, b, storage.buckets[name], rule, now, |Page(b.objects)|,
              TroubledKeys(Since(old(storage.refused), storage.refused), name))
      ensures storage.refused == old(storage.refused) ==>
        ok && CurrentHalf(storage.cal, old(storage.buckets)[name], storage.buckets[name], rule, now)
      ensures !ok ==>
        storage.buckets == old(storage.buckets) && storage.refused == old(storage.refused) + [Listing(name)]
    {
      ghost var start, log := storage.buckets, storage.refused;
      ghost var b := start[name];
      CarefulSame(storage.cal, b, now);
      WellFormedKeys(b);
      FramedSame(start, name);
      hide Careful, Fates, WellFormed, RulePass, DistinctKeys, Midway, CurrentHalf;
      var listed := storage.ListObjects(name);
      if listed == None { return false; }
      ApplyListed(name, rule, listed.value, now);
      MidwayEnd(storage.cal, start, storage.buckets, name, rule, now, Since(log, storage.refused));
      ok := true;
    }

    /** The loop over a listing. */
    method ApplyListed(name: string, rule: Rule, objects: seq<Object>, now: int)
      requires storage.Valid() && name in storage.buckets && rule.status == Enabled
      requires objects == Page(storage.buckets[name].objects) && DistinctKeys(storage.buckets[name].objects)
      modifies storage
      ensures storage.Valid() && name in storage.buckets && old(storage.refused) <= storage.refused
      ensures Midway(storage.cal, old(storage.buckets), storage.buckets, name, rule, now, |objects|,
                     Since(old(storage.refused), storage.refused))
    {
      hide Midway, WellFormed, DistinctKeys, Page, Since;
      ghost var start, log := storage.buckets, storage.refused;
      MidwayStart(storage.cal, start, name, rule, now);
      SinceSame(log);
      for i := 0 to |objects|
        invariant storage.Valid() && name in storage.buckets && log <= storage.refused
        invariant Midway(storage.cal, start, storage.buckets, name, rule, now, i, Since(log, storage.refused))
      {
        ApplyToNext(name, rule, objects, i, now, start, log);
      }
    }

    /** The next object of a listing. */
    method ApplyToNext(name: string, rule: Rule, objects: seq<Object>, i: nat, now: int,
                       ghost start: map<string, Bucket>, ghost log: seq<Refusal>)
      requires storage.Valid() && name in storage.buckets && rule.status == Enabled && log <= storage.refused
      requires name in start && DistinctKeys(start[name].objects)
      requires objects == Page(start[name].objects) && i < |objects|
      requires Midway(storage.cal, start, storage.buckets, name, rule, now, i, Since(log, storage.refused))
      modifies storage
      ensures storage.Valid() && name in storage.buckets && log <= storage.refused
      ensures Midway(storage.cal, start, storage.buckets, name, rule, now, i + 1, Since(log, storage.refused))
    {
      ghost var before, at := storage.buckets, storage.refused;
      hide Midway, DistinctKeys, Page, Stepped, Since, TroubledKeys, Framed;
      MidwayFacts(storage.cal, start, before, name, rule, now, i, Since(log, at));
      assert WellFormed(before[name]);
      hide WellFormed;
      ApplyToObject(name, rule, objects[i], now);
      FramedKeeps(before, storage.buckets, name);
      SinceJoin(log, at, storage.refused);
      MidwayStep(storage.cal, start, before, storage.buckets, name, rule, now, i, Since(log, at),
                 Since(at, storage.refused));
    }

    /** filtered_versions_by_key */
    method FilteredVersions(name: string, rule: Rule) returns (r: Option<map<string, seq<Object>>>)
      requires storage.Valid() && name in storage.buckets
      modifies storage`refused
      ensures old(storage.refused) <= storage.refused
      ensures r == None ==> storage.refused == old(storage.refused) + [ListingVersions(name)]
      ensures r.Some? ==> Groups(storage.buckets[name], rule, r.value)
      ensures r.Some? ==> Complete(storage.buckets[name], rule, r.value,
                                   UntaggedKeys(Since(old(storage.refused), storage.refused), name))
      ensures r.Some? ==> UnreadKeys(Since(old(storage.refused), storage.refused), name) == {}
    {
      var listed := storage.ListVersions(name);
      if listed == None { return None; }
      var versions, groups: map<string, seq<Object>> := listed.value, map[];
      ghost var b, log := storage.buckets[name], storage.refused;
      assert Since(log, log) == [] && UnreadKeys([], name) == {};
      while versions != {}
        invariant log <= storage.refused && UnreadKeys(Since(log, storage.refused), name) == {}
        invariant Groups(b, rule, groups)
        invariant forall v | v in versions :: v in Items(b) && v.versionId.Some?
        invariant Grouped(b, rule, groups, UntaggedKeys(Since(log, storage.refused), name), versions)
        decreases versions
      {
        hide Groups, TagsOf, Grouped, Since, UntaggedKeys, UnreadKeys;
        var v :| v in versions;
        WellFormedKeys(b);
        ghost var at := storage.refused;
        var tags := storage.ObjectTags(name, v.key);
        hide WellFormed, Items;
        TagsRead(log, at, storage.refused, name, v.key);
        var selected := true;
        if rule.filter.Some? { selected := FilterMatches(rule.filter.value, v.key, tags); }
        hide Selects;
        ghost var before := groups;
        if selected {
          if storage.refused != at { MatchesWithFewerTags(rule, v.key, TagsOf(b, v.key)); }
          AddToGroup(b, rule, groups, v);
          groups := groups[v.key := (if v.key in groups then groups[v.key] else []) + [v]];
        }
        hide InGroup, Matches;
        GroupedNext(b, rule, before, groups, UntaggedKeys(Since(log, at), name),
                    UntaggedKeys(Since(log, storage.refused), name), versions, v);
        versions := versions - {v};
      }
      GroupedAll(b, rule, groups, UntaggedKeys(Since(log, storage.refused), name));
      r := Some(groups);
    }

    /** expire_noncurrent_versions: one key, given the version id seen as current. */
    method ExpireNoncurrent(name: string, days: nat, now: int, key: string, currentId: Option<string>,
                            versions: seq<Object>)
      returns (ghost stuck: set<Object>)
      requires storage.Valid() && name in storage.buckets
      requires forall v | v in versions :: v.key == key && v in Items(storage.buckets[name])
      modifies storage
      ensures storage.Valid() && Framed(old(storage.buckets), storage.buckets, name)
      ensures Pruned(storage.cal, old(storage.buckets)[name], storage.buckets[name], currentId, days, now,
                     versions, stuck)
      ensures versions == [] ==> storage.buckets == old(storage.buckets)
      ensures old(storage.refused) <= storage.refused
      ensures StuckIn(stuck, Since(old(storage.refused), storage.refused), name)
      ensures UnreadKeys(Since(old(storage.refused), storage.refused), name) == {}
    {
      ghost var start := storage.buckets;
      assert WellFormed(start[name]) && forall i | 0 <= i < |versions| :: versions[i] in Items(start[name]);
      hide WellFormed, Pruned, Items, Framed;
      stuck := ExpireEach(name, days, now, currentId, versions);
      assert versions[..|versions|] == versions;
    }

    /** The loop over the versions of a group. */
    method ExpireEach(name: string, days: nat, now: int, currentId: Option<string>, versions: seq<Object>)
      returns (ghost stuck: set<Object>)
      requires storage.Valid() && name in storage.buckets
      requires forall i | 0 <= i < |versions| :: versions[i] in Items(storage.buckets[name])
      modifies storage
      ensures storage.Valid()
      ensures Expiring(storage.cal, old(storage.buckets), storage.buckets, name, currentId, days, now,
                       versions, |versions|, stuck)
      ensures old(storage.refused) <= storage.refused
      ensures StuckIn(stuck, Since(old(storage.refused), storage.refused), name)
      ensures UnreadKeys(Since(old(storage.refused), storage.refused), name) == {}
    {
      ghost var start, log := storage.buckets, storage.refused;
      stuck := {};
      assert WellFormed(start[name]);
      ExpiringStart(storage.cal, start, name, currentId, days, now, versions);
      assert Since(log, log) == [] && UnreadKeys([], name) == {};
      hide WellFormed, Victim, VersionRemoved, Items, StillStuck, Framed, Expiring, StuckIn, Since, UnreadKeys;
      for i := 0 to |versions|
        invariant storage.Valid() && name in storage.buckets && log <= storage.refused
        invariant Expiring(storage.cal, start, storage.buckets, name, currentId, days, now, versions, i, stuck)
        invariant StuckIn(stuck, Since(log, storage.refused), name)
        invariant UnreadKeys(Since(log, storage.refused), name) == {}
      {
        ghost var before, at := storage.buckets, storage.refused;
        ghost var removed := ExpireVersion(name, versions[i], currentId, days, now);
        FramedKeeps(before, storage.buckets, name);
        ExpiringNext(storage.cal, start, before, storage.buckets, name, currentId, days, now, versions, i, stuck,
                     removed);
        StuckNext(storage.cal, before[name], stuck, versions[i], currentId, days, now, removed, log, at,
                  storage.refused, name);
        stuck := StillStuck(storage.cal, before[name], stuck, versions[i], currentId, days, now, removed);
      }
    }

    /** One version of a group. */
    method ExpireVersion(name: string, v: Object, currentId: Option<string>, days: nat, now: int)
      returns (ghost removed: bool)
      requires storage.Valid() && name in storage.buckets
      modifies storage
      ensures storage.Valid() && Framed(old(storage.buckets), storage.buckets, name)
      ensures removed ==> Victim(storage.cal, v, currentId, days, now)
      ensures removed ==> VersionRemoved(old(storage.buckets)[name], storage.buckets[name], v.key, v.versionId.value)
      ensures !removed ==> storage.buckets == old(storage.buckets)
      ensures Victim(storage.cal, v, currentId, days, now) && !removed ==>
        storage.refused == old(storage.refused) + [DeletingVersion(name, v.key, v.versionId.value)]
      ensures removed || !Victim(storage.cal, v, currentId, days, now) ==> storage.refused == old(storage.refused)
    {
      hide WellFormed, Protected, VersionRemoved, Promoted, HasVersion;
      removed := false;
      if currentId == v.versionId { return; }
      if NumDays(now - v.lastModified) < days { return; }
      if Protected(storage.cal, v, now) { return; }
      if v.versionId.Some? {
        var ok := storage.DeleteVersion(name, v.key, v.versionId.value);
        removed := ok;
      }
    }

    /**
     apply_noncurrent_version_rule. `sweep` holds the selected versions, the failed lookups and the
     failed deletes.
     */
    method ApplyNoncurrentRule(name: string, rule: Rule, now: int) returns (ok: bool, ghost sweep: Sweep)
      requires storage.Valid() && name in storage.buckets
      modifies storage
      ensures storage.Valid() && Framed(old(storage.buckets), storage.buckets, name)
      ensures Careful(storage.cal, old(storage.buckets)[name], storage.buckets[name], now)
      ensures old(storage.refused) <= storage.refused
      ensures old(storage.buckets)[name].versioning == Off ==> storage.buckets == old(storage.buckets)
      ensures ok && rule.noncurrentDays.Some? ==>
        && Swept(storage.cal, old(storage.buckets)[name], storage.buckets[name], rule, sweep, now)
        && Told(old(storage.buckets)[name], rule, sweep, Since(old(storage.refused), storage.refused), name)
      ensures !ok || rule.noncurrentDays.None? ==> storage.buckets == old(storage.buckets)
      ensures !ok ==> storage.refused == old(storage.refused) + [ListingVersions(name)]
      ensures storage.refused == old(storage.refused) ==>
        ok && NoncurrentHalf(storage.cal, old(storage.buckets)[name], storage.buckets[name], rule, now)
    {
      ghost var b, log := storage.buckets[name], storage.refused;
      CarefulSame(storage.cal, b, now);
      sweep := Sweep(map[], {}, {});
      NothingSwept(storage.cal, b, rule, now);
      hide Careful, Complete, SweepOutcome, NoncurrentHalf, Groups, Since, StuckIn, UnreadKeys, UntaggedKeys;
      if rule.noncurrentDays == None { return true, sweep; }
      var days := rule.noncurrentDays.value;
      var found := FilteredVersions(name, rule);
      if found == None { return false, sweep; }
      ghost var at := storage.refused;
      sweep := SweepGroups(name, rule, found.value, days, now);
      SweepIsCareful(storage.cal, b, storage.buckets[name], sweep, days, now);
      TellSweep(b, rule, sweep, log, at, storage.refused, name);
      ok := true;
      if storage.refused == log { QuietSweep(storage.cal, b, storage.buckets[name], rule, sweep, now, log, name); }
    }

    /** Each group in turn. */
    method SweepGroups(name: string, ghost rule: Rule, groups: map<string, seq<Object>>, days: nat, now: int)
      returns (ghost sweep: Sweep)
      requires storage.Valid() && name in storage.buckets && Groups(storage.buckets[name], rule, groups)
      modifies storage
      ensures storage.Valid() && Framed(old(storage.buckets), storage.buckets, name) && sweep.groups == groups
      ensures old(storage.buckets)[name].versioning == Off ==> storage.buckets == old(storage.buckets)
      ensures SweepOutcome(storage.cal, old(storage.buckets)[name], storage.buckets[name], sweep, days, now)
      ensures old(storage.refused) <= storage.refused
      ensures sweep.unread == UnreadKeys(Since(old(storage.refused), storage.refused), name)
      ensures StuckIn(sweep.stuck, Since(old(storage.refused), storage.refused), name)
    {
      ghost var start, log := storage.buckets, storage.refused;
      ghost var b := start[name];
      var keys := groups.Keys;
      sweep := Sweep(groups, {}, {});
      SweptNone(storage.cal, b, groups, days, now);
      if b.versioning == Off { OffHasNoVersions(b, rule, groups); }
      FramedSame(start, name);
      assert Since(log, log) == [] && UnreadKeys([], name) == {};
      hide SweptSoFar, Pruned, WellFormed, Groups, Items, Framed, SweepOutcome, StuckIn, Since, UnreadKeys;
      while keys != {}
        invariant storage.Valid() && name in storage.buckets && Framed(start, storage.buckets, name)
        invariant keys <= groups.Keys && sweep.groups == groups
        invariant SweptSoFar(storage.cal, b, storage.buckets[name], sweep, keys, days, now)
        invariant b.versioning == Off ==> storage.buckets == start
        invariant log <= storage.refused && Logged(sweep, log, storage.refused, name)
        decreases keys
      {
        var key :| key in keys;
        ghost var before, at := storage.buckets, storage.refused;
        GroupMembers(storage.cal, b, before[name], rule, sweep, keys, days, now, key);
        ghost var looked, stuck := SweepGroup(name, key, groups[key], days, now);
        FramedKeeps(before, storage.buckets, name);
        FramedTransitive(start, before, storage.buckets, name);
        assert keys == keys - {key} + {key};
        keys := keys - {key};
        SweptStep(storage.cal, b, before[name], storage.buckets[name], sweep, keys, days, now, key, looked, stuck);
        LoggedNext(sweep, key, looked, stuck, log, at, storage.refused, name);
        sweep := NextSweep(sweep, key, looked, stuck);
      }
      SweptIsOutcome(storage.cal, b, storage.buckets[name], sweep, days, now);
    }

    /** One group, newest version first. */
    method SweepGroup(name: string, key: string, group: seq<Object>, days: nat, now: int)
      returns (ghost looked: bool, ghost stuck: set<Object>)
      requires storage.Valid() && name in storage.buckets
      requires forall v | v in group :: v.key == key && v in Items(storage.buckets[name])
      modifies storage
      ensures storage.Valid() && Framed(old(storage.buckets), storage.buckets, name)
      ensures Pruned(storage.cal, old(storage.buckets)[name], storage.buckets[name],
                     if looked then CurrentId(old(storage.buckets)[name], key) else None, days, now, group, stuck)
      ensures group == [] ==> storage.buckets == old(storage.buckets)
      ensures old(storage.refused) <= storage.refused
      ensures UnreadKeys(Since(old(storage.refused), storage.refused), name) == if looked then {} else {key}
      ensures StuckIn(stuck, Since(old(storage.refused), storage.refused), name)
    {
      ghost var at, log := storage.buckets[name], storage.refused;
      var versions := Sort(group, NEWEST_FIRST);
      SortMembers(group, NEWEST_FIRST);
      WellFormedKeys(at);
      assert group == [] ==> versions == [];
      hide Sort, Pruned, WellFormed, Items, StuckIn, Since, UnreadKeys;
      var ok, current := storage.GetObject(name, key);
      looked := ok;
      ghost var seen := storage.refused;
      var id := if current.Some? then current.value.versionId else None;
      stuck := ExpireNoncurrent(name, days, now, key, id, versions);
      SameGroup(storage.cal, at, storage.buckets[name], id, days, now, versions, group, stuck);
      GroupLogged(log, seen, storage.refused, name, key, looked, stuck);
    }

    /** apply_lifecycle_rules */
    method ApplyRules(name: string, rules: seq<Rule>, now: int) returns (ok: bool)
      requires storage.Valid() && name in storage.buckets
      modifies storage
      ensures storage.Valid() && Framed(old(storage.buckets), storage.buckets, name)
      ensures Careful(storage.cal, old(storage.buckets)[name], storage.buckets[name], now)
      ensures old(storage.refused) <= storage.refused
      ensures ForeignProtected(old(storage.buckets)[name].metadata) ==> storage.buckets == old(storage.buckets)
      ensures storage.refused == old(storage.refused) ==> ok
      ensures var b := old(storage.buckets)[name];
        storage.refused == old(storage.refused) && !ForeignProtected(b.metadata) ==>
          RulesOutcome(storage.cal, b, storage.buckets[name], rules, now)
    {
      ghost var b := storage.buckets[name];
      CarefulSame(storage.cal, b, now);
      FramedSame(storage.buckets, name);
      hide Careful, WellFormed, RulePass, RulesOutcome, ForeignProtected;
      var metadata := storage.ReadMetadata(name);
      if metadata == None { return false; }
      if ForeignProtected(metadata.value) { return true; }
      OutcomeNone(storage.cal, b, rules, now);
      for i := 0 to |rules|
        invariant storage.Valid() && Framed(old(storage.buckets), storage.buckets, name)
        invariant Careful(storage.cal, b, storage.buckets[name], now) && old(storage.refused) <= storage.refused
        invariant storage.refused == old(storage.refused) ==>
          RulesOutcome(storage.cal, b, storage.buckets[name], rules[..i], now)
      {
        ghost var at, log := storage.buckets[name], storage.refused;
        ok := ApplyRule(name, rules[i], now);
        CarefulTransitive(storage.cal, b, at, storage.buckets[name], now);
        if !ok { return; }
        if storage.refused == old(storage.refused) {
          OutcomeNext(storage.cal, b, at, storage.buckets[name], rules, i, now);
        }
      }
      assert rules[..|rules|] == rules;
      ok := true;
    }

    /** Both halves of one rule, if it is enabled. */
    method ApplyRule(name: string, rule: Rule, now: int) returns (ok: bool)
      requires storage.Valid() && name in storage.buckets
      modifies storage
      ensures storage.Valid() && Framed(old(storage.buckets), storage.buckets, name)
      ensures Careful(storage.cal, old(storage.buckets)[name], storage.buckets[name], now)
      ensures old(storage.refused) <= storage.refused
      ensures storage.refused == old(storage.refused) ==>
        ok && Ruled(storage.cal, old(storage.buckets)[name], storage.buckets[name], rule, now)
    {
      ghost var b := storage.buckets[name];
      CarefulSame(storage.cal, b, now);
      FramedSame(storage.buckets, name);
      hide Careful, RulePass, SweepOutcome, Fates, Groups, Complete, CurrentHalf, NoncurrentHalf, WellFormed, Since;
      if rule.status != Enabled { return true; }
      ok := ApplyCurrentRule(name, rule, now);
      if !ok { return; }
      ghost var at, sweep := storage.buckets[name], Sweep(map[], {}, {});
      ok, sweep := ApplyNoncurrentRule(name, rule, now);
      CarefulTransitive(storage.cal, b, at, storage.buckets[name], now);
    }

    /** execute_lifecycle_rules over every bucket; a bucket without readable rules is skipped. */
    method ExecuteRules(now: int) returns (ok: bool)
      requires storage.Valid()
      modifies storage
      ensures storage.Valid() && storage.buckets.Keys == old(storage.buckets).Keys
      ensures old(storage.refused) <= storage.refused && (storage.refused == old(storage.refused) ==> ok)
      ensures forall name | name in old(storage.buckets) ::
        BucketPass(storage.cal, old(storage.buckets)[name], storage.buckets[name], now,
                   storage.refused == old(storage.refused))
    {
      ghost var start, log := storage.buckets, storage.refused;
      ExecutedNone(storage.cal, start, now);
      hide WellFormed, BucketPass, Framed, Executed;
      var listed := storage.ListBuckets();
      if listed == None { return false; }
      var names := listed.value;
      while names != {}
        invariant storage.Valid() && Executed(storage.cal, start, storage.buckets, names, now, storage.refused == log)
        invariant names <= start.Keys && log <= storage.refused
        invariant storage.buckets.Keys == start.Keys
        decreases names
      {
        var name :| name in names;
        ok := ExecuteNext(name, now, names, start, log);
        names := names - {name};
        if !ok { return; }
      }
      ExecutedAll(storage.cal, start, storage.buckets, now, storage.refused == log);
      ok := true;
    }

    /** The next bucket of a pass. */
    method ExecuteNext(name: string, now: int, ghost names: set<string>, ghost start: map<string, Bucket>,
                       ghost log: seq<Refusal>)
      returns (ok: bool)
      requires storage.Valid() && storage.buckets.Keys == start.Keys && name in names && names <= start.Keys
      requires Executed(storage.cal, start, storage.buckets, names, now, storage.refused == log)
      requires log <= storage.refused
      modifies storage
      ensures storage.Valid() && storage.buckets.Keys == start.Keys && log <= storage.refused
      ensures Executed(storage.cal, start, storage.buckets, names - {name}, now, storage.refused == log)
      ensures forall n | n in start :: BucketPass(storage.cal, start[n], storage.buckets[n], now, false)
      ensures !ok ==> storage.refused != log
    {
      hide WellFormed, BucketPass, Executed, Framed;
      ghost var before, at, rest := storage.buckets, storage.refused, names - {name};
      assert names == rest + {name};
      ok := ExecuteBucket(name, now);
      FramedKeeps(before, storage.buckets, name);
      ExecutedNext(storage.cal, start, before, storage.buckets, rest, now, at == log, name, storage.refused == at);
      assert storage.refused == log <==> at == log && storage.refused == at;
    }

    /** The rules of one bucket, if it has any that can be read. */
    method ExecuteBucket(name: string, now: int) returns (ok: bool)
      requires storage.Valid() && name in storage.buckets
      modifies storage
      ensures storage.Valid() && Framed(old(storage.buckets), storage.buckets, name)
      ensures old(storage.refused) <= storage.refused && (storage.refused == old(storage.refused) ==> ok)
      ensures BucketPass(storage.cal, old(storage.buckets)[name], storage.buckets[name], now,
                         storage.refused == old(storage.refused))
    {
      ghost var b := storage.buckets[name];
      CarefulSame(storage.cal, b, now);
      assert WellFormed(b);
      hide Careful, WellFormed, Pass, ForeignProtected, RulesOutcome;
      var readable, config := storage.ReadRules(name);
      if config == None { return true; }
      ok := ApplyRules(name, config.value, now);
      if storage.refused == old(storage.refused) && b.versioning == Off && !ForeignProtected(b.metadata) {
        OffOutcome(storage.cal, b, storage.buckets[name], config.value, now);
      }
    }

    /** check_object_expiration: None stands for an error. */
    method CheckExpiration(name: string, key: string, now: int) returns (r: Option<bool>)
      requires storage.Valid() && name in storage.buckets
      modifies storage
      ensures storage.Valid() && Framed(old(storage.buckets), storage.buckets, name)
      ensures Careful(storage.cal, old(storage.buckets)[name], storage.buckets[name], now)
      ensures r != Some(true) ==> storage.buckets == old(storage.buckets)
      ensures r == Some(true) ==> IsDeleted(old(storage.buckets)[name], storage.buckets[name], key, now)
      ensures r == Some(true) ==> EagerlyDue(storage.cal, old(storage.buckets)[name], key, now)
      ensures storage.refused == old(storage.refused) ==>
        r == EagerAnswer(storage.cal, old(storage.buckets)[name], key, now)
      ensures var b := old(storage.buckets)[name];
        storage.refused == old(storage.refused) ==>
          && (r == None <==>
                b.rules.Some? && !ForeignProtected(b.metadata) && forall o | o in b.objects :: o.key != key)
          && (r == Some(true) <==>
                && b.rules.Some? && !ForeignProtected(b.metadata)
                && exists o | o in b.objects :: o.key == key && Expires(storage.cal, o, b.rules.value, now))
      ensures old(storage.refused) <= storage.refused
    {
      ghost var b := storage.buckets[name];
      CarefulSame(storage.cal, b, now);
      WellFormedKeys(b);
      EagerMeans(storage.cal, b, key, now);
      if o :| o in b.objects && o.key == key { CurrentIs(b, o); }
      hide Careful, Protected, ForeignProtected, Expires, WellFormed, CurrentOf, IsDeleted;
      var readable, rules := storage.ReadRules(name);
      if !readable { return None; }
      if rules == None { return Some(false); }
      var metadata := storage.ReadMetadata(name);
      if metadata == None { return None; }
      if ForeignProtected(metadata.value) { return Some(false); }
      var looked, found := storage.GetObject(name, key);
      if found == None { return None; }
      FoundIsCurrent(b, key);
      r := ExpireIfDue(name, found.value, rules.value, now);
    }

    /** The eager check of an object in a bucket that rules may change. */
    method ExpireIfDue(name: string, o: Object, rules: seq<Rule>, now: int) returns (r: Option<bool>)
      requires storage.Valid() && name in storage.buckets && o in storage.buckets[name].objects
      modifies storage
      ensures storage.Valid() && Framed(old(storage.buckets), storage.buckets, name)
      ensures Careful(storage.cal, old(storage.buckets)[name], storage.buckets[name], now)
      ensures r != Some(true) ==> storage.buckets == old(storage.buckets)
      ensures r == Some(true) ==> IsDeleted(old(storage.buckets)[name], storage.buckets[name], o.key, now)
      ensures r == Some(true) ==> Expires(storage.cal, o, rules, now)
      ensures storage.refused == old(storage.refused) ==> r == Some(Expires(storage.cal, o, rules, now))
      ensures old(storage.refused) <= storage.refused
    {
      ghost var b, log := storage.buckets[name], storage.refused;
      CarefulSame(storage.cal, b, now);
      CurrentIs(b, o);
      hide Careful, Protected, WellFormed, CurrentOf, ExpiryDue, IsDeleted;
      if Protected(storage.cal, o, now) { return Some(false); }
      var tags := storage.ObjectTags(name, o.key);
      var due := SomeRuleDue(storage.cal, o, tags, rules, now);
      assert o.(tags := o.tags) == o;
      if storage.refused != log && due { DueWithFewerTags(storage.cal, o, rules, now); }
      if !due { return Some(false); }
      var ok := ExpireObject(name, o, now);
      r := if ok then Some(true) else None;
    }
  }

  /** The loop of the eager check: whether some enabled, matching rule is due. */
  method SomeRuleDue(cal: Calendar, o: Object, tags: map<string, string>, rules: seq<Rule>, now: int)
    returns (due: bool)
    ensures due <==> exists rule | rule in rules :: ExpiryDue(cal, o.(tags := tags), rule, now)
  {
    for i := 0 to |rules|
      invariant forall j | 0 <= j < i :: !ExpiryDue(cal, o.(tags := tags), rules[j], now)
    {
      var rule := rules[i];
      if rule.status != Enabled { continue; }
      var selected := true;
      if rule.filter.Some? { selected := FilterMatches(rule.filter.value, o.key, tags); }
      if !selected { continue; }
      if rule.expiration.Some? && ShouldExpire(cal, o.lastModified, rule.expiration.value, now) {
        assert rule in rules && ExpiryDue(cal, o.(tags := tags), rule, now);
        return true;
      }
    }
    return false;
  }

  /** Removing the object an eager check found expired is what `Eager` says. */
  lemma EagerIsReplace(cal: Calendar, b: Bucket, key: string, rules: seq<Rule>, now: int)
    requires WellFormed(b)
    ensures Eager(cal, b.objects, key, rules, now) ==
      if CurrentOf(b, key).Some? && Expires(cal, CurrentOf(b, key).value, rules, now) then Replace(b.objects, key, None)
      else b.objects
  {
    hide Expires;
    WellFormedKeys(b);
    if o :| o in b.objects && o.key == key {
      CurrentIs(b, o);
      var i :| 0 <= i < |b.objects| && b.objects[i] == o;
      var a, c := SplitAt(b.objects, i);
      EagerAround(cal, a, o, c, rules, now);
      ReplaceAt(a, o, c, None);
      hide Eager, Replace;
      assert a + [] + c == a + Kept(None) + c;
    } else {
      EagerElsewhere(cal, b.objects, key, rules, now);
    }
  }

  lemma {:induction false} EagerElsewhere(cal: Calendar, objects: seq<Object>, key: string, rules: seq<Rule>, now: int)
    requires forall o | o in objects :: o.key != key
    ensures Eager(cal, objects, key, rules, now) == objects
  {
    hide Expires;
    if objects != [] {
      EagerElsewhere(cal, objects[1..], key, rules, now);
      assert objects[0] in objects && objects == [objects[0]] + objects[1..];
    }
  }

  lemma SplitAt(objects: seq<Object>, i: nat) returns (a: seq<Object>, c: seq<Object>)
    requires DistinctKeys(objects) && i < |objects|
    ensures objects == a + [objects[i]] + c
    ensures (forall x | x in a :: x.key != objects[i].key) && (forall x | x in c :: x.key != objects[i].key)
  {
    a, c := objects[..i], objects[i + 1..];
  }

  lemma EagerAround(cal: Calendar, a: seq<Object>, o: Object, c: seq<Object>, rules: seq<Rule>, now: int)
    requires (forall x | x in a :: x.key != o.key) && (forall x | x in c :: x.key != o.key)
    ensures Eager(cal, a + [o] + c, o.key, rules, now) == a + (if Expires(cal, o, rules, now) then [] else [o]) + c
  {
    var keep := Unexpired(cal, o.key, rules, now);
    hide Expires;
    EagerElsewhere(cal, a, o.key, rules, now);
    EagerElsewhere(cal, c, o.key, rules, now);
    assert Filter([o], keep) == if keep(o) then [o] else [] by { assert [o][1..] == []; }
    hide Filter;
    FilterConcat(a + [o], c, keep);
    FilterConcat(a, [o], keep);
  }

  /** The eager check deletes the object. */
  ghost predicate EagerlyDue(cal: Calendar, b: Bucket, key: string, now: int) {
    && b.rules.Some? && !ForeignProtected(b.metadata)
    && CurrentOf(b, key).Some? && Expires(cal, CurrentOf(b, key).value, b.rules.value, now)
  }

  /** What the eager check answers when no call is refused: an error exactly for a missing object. */
  ghost function EagerAnswer(cal: Calendar, b: Bucket, key: string, now: int): Option<bool> {
    if b.rules.Some? && !ForeignProtected(b.metadata) && CurrentOf(b, key) == None then None
    else Some(EagerlyDue(cal, b, key, now))
  }

  lemma EagerMeans(cal: Calendar, b: Bucket, key: string, now: int)
    requires WellFormed(b)
    ensures EagerAnswer(cal, b, key, now) == None <==>
      b.rules.Some? && !ForeignProtected(b.metadata) && forall o | o in b.objects :: o.key != key
    ensures EagerAnswer(cal, b, key, now) == Some(true) <==>
      && b.rules.Some? && !ForeignProtected(b.metadata)
      && exists o | o in b.objects :: o.key == key && Expires(cal, o, b.rules.value, now)
  {
    hide Expires, ForeignProtected;
    if o :| o in b.objects && o.key == key {
      CurrentIs(b, o);
      assert forall x | x in b.objects && x.key == key :: x == o;
    }
    hide WellFormed;
  }

  lemma FoundIsCurrent(b: Bucket, key: string)
    requires CurrentOf(b, key).Some?
    ensures CurrentOf(b, key).value in b.objects && CurrentOf(b, key).value.key == key
  {
  }

  /** What is due without tags is due with them. */
  lemma DueWithFewerTags(cal: Calendar, o: Object, rules: seq<Rule>, now: int)
    requires exists rule | rule in rules :: ExpiryDue(cal, o.(tags := map[]), rule, now)
    ensures exists rule | rule in rules :: ExpiryDue(cal, o, rule, now)
  {
    var rule :| rule in rules && ExpiryDue(cal, o.(tags := map[]), rule, now);
    MatchesWithFewerTags(rule, o.key, o.tags);
    hide Matches, ShouldExpire;
    assert ExpiryDue(cal, o, rule, now);
  }

  /** What one pass does to one bucket; `done` says that no call was refused. */
  ghost predicate BucketPass(cal: Calendar, b: Bucket, b': Bucket, now: int, done: bool) {
    && Careful(cal, b, b', now)
    && b' == b.(objects := b'.objects, history := b'.history)
    && (b.rules == None || ForeignProtected(b.metadata) ==> b' == b)
    && (done && b.rules.Some? && !ForeignProtected(b.metadata) ==> RulesOutcome(cal, b, b', b.rules.value, now))
    && (done && b.rules.Some? && !ForeignProtected(b.metadata) && b.versioning == Off ==>
          b' == b.(objects := Pass(cal, b.objects, b.rules.value, now)))
  }

  lemma LessDone(cal: Calendar, b: Bucket, b': Bucket, now: int, done: bool, less: bool)
    requires BucketPass(cal, b, b', now, done) && (less ==> done)
    ensures BucketPass(cal, b, b', now, less)
  {
    hide Careful, Pass, ForeignProtected, RulesOutcome;
  }

  /** Every bucket but those in `names` has been worked on. */
  ghost predicate Executed(cal: Calendar, start: map<string, Bucket>, at: map<string, Bucket>, names: set<string>,
                           now: int, clean: bool)
  {
    && at.Keys == start.Keys && (forall n | n in names && n in start :: at[n] == start[n])
    && (forall n | n in start :: BucketPass(cal, start[n], at[n], now, clean && n !in names))
  }

  lemma ExecutedNone(cal: Calendar, start: map<string, Bucket>, now: int)
    ensures Executed(cal, start, start, start.Keys, now, true)
    ensures forall n | n in start :: BucketPass(cal, start[n], start[n], now, false)
  {
    forall n | n in start ensures BucketPass(cal, start[n], start[n], now, false) {
      CarefulSame(cal, start[n], now);
    }
    hide BucketPass;
  }

  lemma ExecutedAll(cal: Calendar, start: map<string, Bucket>, at: map<string, Bucket>, now: int, clean: bool)
    requires Executed(cal, start, at, {}, now, clean)
    ensures at.Keys == start.Keys && forall n | n in start :: BucketPass(cal, start[n], at[n], now, clean)
  {
    hide BucketPass;
    assert forall n | n in start :: (clean && n !in {}) == clean;
  }

  lemma ExecutedNext(cal: Calendar, start: map<string, Bucket>, at: map<string, Bucket>, next: map<string, Bucket>,
                     names: set<string>, now: int, clean: bool, name: string, done: bool)
    requires name in start && name !in names && Executed(cal, start, at, names + {name}, now, clean)
    requires Framed(at, next, name) && BucketPass(cal, at[name], next[name], now, done)
    ensures Executed(cal, start, next, names, now, clean && done)
    ensures forall n | n in start :: BucketPass(cal, start[n], next[n], now, false)
  {
    hide BucketPass;
    forall n | n in start
      ensures BucketPass(cal, start[n], next[n], now, clean && done && n !in names)
      ensures BucketPass(cal, start[n], next[n], now, false)
    {
      if n == name {
        LessDone(cal, start[n], next[n], now, done, clean && done && n !in names);
        LessDone(cal, start[n], next[n], now, done, false);
      } else {
        LessDone(cal, start[n], next[n], now, clean && n !in names + {name}, clean && done && n !in names);
        LessDone(cal, start[n], next[n], now, clean && n !in names + {name}, false);
      }
    }
  }
}
