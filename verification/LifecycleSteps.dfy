/**
 What single lifecycle effects keep. A version is exposed when a delete of its key would replace
 it: the null version in the history of a suspended bucket. Protected versions that are not
 exposed survive everything; protected versions that are exposed are lost exactly when the current
 version of their key expires.
 */
module LifecycleSteps {
  import opened Common
  import opened LifecycleRules
  import opened LifecycleSpec
  import opened Lifecycle

  ghost predicate Exposed(b: Bucket, o: Object) {
    b.versioning == Suspended && o in b.history && o.versionId == Some(NULL)
  }

  /** `o` is still there, and no delete of its key would replace it. */
  ghost predicate Spared(o: Object, b: Bucket) {
    exists o' | o' in Items(b) :: Same(o, o') && !Exposed(b, o')
  }

  /** Every protected version that was not exposed is there and not exposed. */
  ghost predicate Careful(cal: Calendar, b: Bucket, b': Bucket, now: int) {
    forall o | o in Items(b) && Protected(cal, o, now) && !Exposed(b, o) :: Spared(o, b')
  }

  lemma CarefulSame(cal: Calendar, b: Bucket, now: int)
    ensures Careful(cal, b, b, now)
  {
    hide Protected;
    forall o | o in Items(b) && Protected(cal, o, now) && !Exposed(b, o) ensures Spared(o, b) {
      assert Same(o, o);
    }
  }

  lemma CarefulTransitive(cal: Calendar, a: Bucket, b: Bucket, c: Bucket, now: int)
    requires Careful(cal, a, b, now) && Careful(cal, b, c, now)
    ensures Careful(cal, a, c, now)
  {
    hide Exposed;
    forall o | o in Items(a) && Protected(cal, o, now) && !Exposed(a, o) ensures Spared(o, c) {
      assert Spared(o, b);
      var o' :| o' in Items(b) && Same(o, o') && !Exposed(b, o');
      assert Protected(cal, o', now);
      assert Spared(o', c);
      var o'' :| o'' in Items(c) && Same(o', o'') && !Exposed(c, o'');
      assert Same(o, o'');
    }
  }

  /** Careful passes keep every protected version of a bucket that is not suspended. */
  lemma CarefulSpares(cal: Calendar, b: Bucket, b': Bucket, now: int)
    requires Careful(cal, b, b', now) && b.versioning != Suspended
    ensures Spares(cal, b, b', now)
  {
    hide Protected;
    forall o | o in Items(b) && Protected(cal, o, now) ensures Survives(o, b') {
      assert Spared(o, b');
    }
  }

  lemma CarefulDelete(cal: Calendar, b: Bucket, key: string, id: string, now: int)
    requires WellFormed(b) && forall o | o in b.objects && o.key == key :: !Protected(cal, o, now)
    ensures Careful(cal, b, Deleted(b, key, id, now), now)
  {
    var b' := Deleted(b, key, id, now);
    forall o | o in Items(b) && Protected(cal, o, now) && !Exposed(b, o) ensures Spared(o, b') {
      DeletedItems(b, key, id, now, o);
      assert Same(o, o);
    }
  }

  lemma CarefulReclass(cal: Calendar, b: Bucket, o: Object, c: string, now: int)
    requires WellFormed(b) && o in b.objects
    ensures Careful(cal, b, Reclassed(b, o, c), now)
  {
    var b', o' := Reclassed(b, o, c), o.(storageClass := c);
    ReclassedItems(b, o, c, o');
    assert o in Items(b) && (o' in b.history ==> o' in Items(b));
    hide Protected;
    forall x | x in Items(b) && Protected(cal, x, now) && !Exposed(b, x) ensures Spared(x, b') {
      ReclassedItems(b, o, c, x);
      assert Same(o, o') && Same(x, x);
    }
  }

  // ---- One object, one rule ----

  /** `b'` is `b` after a delete of `key`. */
  ghost predicate IsDeleted(b: Bucket, b': Bucket, key: string, now: int) {
    exists id :: b' == Deleted(b, key, id, now)
  }

  /** What a rule does to a bucket for one of its objects; `done` says that nothing failed. */
  ghost predicate Stepped(cal: Calendar, b: Bucket, b': Bucket, o: Object, rule: Rule, now: int, done: bool) {
    var r := Apply(cal, o, rule, now);
    || (r == None && IsDeleted(b, b', o.key, now))
    || (r.Some? && b' == Reclassed(b, o, r.value.storageClass))
    || (b' == b && (done ==> r == Some(o)))
  }

  /**
   Whatever failed, a step is careful and leaves the other objects alone; if nothing failed, it is
   what the rule says.
   */
  lemma SteppedFacts(cal: Calendar, b: Bucket, b': Bucket, o: Object, rule: Rule, now: int, done: bool)
    requires WellFormed(b) && o in b.objects && Stepped(cal, b, b', o, rule, now, done)
    ensures Careful(cal, b, b', now) && b' == b.(objects := b'.objects, history := b'.history)
    ensures forall x | x in b.objects && x.key != o.key :: x in b'.objects
    ensures done ==> b'.objects == Replace(b.objects, o.key, Apply(cal, o, rule, now))
  {
    CurrentIs(b, o);
    NoneMeansUnprotected(cal, o, rule, now);
    SomeMeansMoved(cal, o, rule, now);
    CarefulSame(cal, b, now);
    hide Careful, Replace, Apply, Protected;
    if Apply(cal, o, rule, now) == None && IsDeleted(b, b', o.key, now) {
      var id :| b' == Deleted(b, o.key, id, now);
      CarefulDelete(cal, b, o.key, id, now);
      hide WellFormed;
      forall x | x in b.objects && x.key != o.key ensures x in b'.objects { DeletedItems(b, o.key, id, now, x); }
    } else if Apply(cal, o, rule, now).Some? && b' == Reclassed(b, o, Apply(cal, o, rule, now).value.storageClass) {
      var c := Apply(cal, o, rule, now).value.storageClass;
      CarefulReclass(cal, b, o, c, now);
      forall x | x in b.objects && x.key != o.key ensures x in b'.objects { ReclassedItems(b, o, c, x); }
    } else {
      ReplaceSame(b.objects, o);
    }
  }

  lemma NoneMeansUnprotected(cal: Calendar, o: Object, rule: Rule, now: int)
    ensures Apply(cal, o, rule, now) == None ==> !Protected(cal, o, now)
  {
    hide Protected, ExpiryDue, Move;
  }

  lemma SomeMeansMoved(cal: Calendar, o: Object, rule: Rule, now: int)
    ensures var r := Apply(cal, o, rule, now);
      r.Some? ==> r.value == o.(storageClass := r.value.storageClass)
  {
    hide Protected, ExpiryDue, Move;
  }

  lemma ReplaceSame(objects: seq<Object>, o: Object)
    requires DistinctKeys(objects) && o in objects
    ensures Replace(objects, o.key, Some(o)) == objects
  {
    var i :| 0 <= i < |objects| && objects[i] == o;
    assert objects == objects[..i] + [o] + objects[i + 1..];
    ReplaceAt(objects[..i], o, objects[i + 1..], Some(o));
    assert objects[..i] + Kept(Some(o)) + objects[i + 1..] == objects;
  }

  // ---- The versions one step keeps, loses and adds ----

  /** A delete of its key at `now` ends this version. */
  predicate Ends(versioning: Versioning, x: Object, now: int) {
    match versioning
    case Off => true
    case On => false
    case Suspended => x.versionId == Some(NULL) && !Same(x, Marker(x.key, NULL, now))
  }

  /** A marker that a delete of `key` at `now` adds. */
  predicate IsFresh(versioning: Versioning, y: Object, key: string, now: int) {
    && versioning != Off && y.versionId.Some? && y == Marker(key, y.versionId.value, now)
    && (versioning == Suspended ==> y.versionId == Some(NULL))
  }

  lemma SteppedKeeps(cal: Calendar, b: Bucket, b': Bucket, o: Object, rule: Rule, now: int, done: bool, x: Object)
    requires WellFormed(b) && o in b.objects && Stepped(cal, b, b', o, rule, now, done) && x in Items(b)
    requires x.key != o.key || Apply(cal, o, rule, now).Some? || !Ends(b.versioning, x, now)
    ensures Survives(x, b')
  {
    hide Apply;
    assert Same(x, x);
    if Apply(cal, o, rule, now) == None && IsDeleted(b, b', o.key, now) {
      var id :| b' == Deleted(b, o.key, id, now);
      DeletedItems(b, o.key, id, now, x);
      DeletedItems(b, o.key, id, now, Marker(o.key, NULL, now));
      assert b.versioning == Off ==> x !in b.history;
      hide WellFormed, Deleted;
    } else if b' != b {
      var c := Apply(cal, o, rule, now).value.storageClass;
      ReclassedItems(b, o, c, x);
      ReclassedItems(b, o, c, o.(storageClass := c));
      assert x == o ==> Same(x, o.(storageClass := c));
    }
  }

  lemma SteppedLoses(cal: Calendar, b: Bucket, b': Bucket, o: Object, rule: Rule, now: int, x: Object)
    requires WellFormed(b) && Stepped(cal, b, b', o, rule, now, true)
    requires x.key == o.key && Apply(cal, o, rule, now) == None && Ends(b.versioning, x, now)
    ensures !Survives(x, b')
  {
    hide Apply;
    var id :| b' == Deleted(b, o.key, id, now);
    assert b.versioning == Off ==> b.history == {};
    hide WellFormed, Deleted;
    forall y | y in Items(b') ensures !Same(x, y) {
      DeletedItems(b, o.key, id, now, y);
    }
  }

  lemma SteppedAdds(cal: Calendar, b: Bucket, b': Bucket, o: Object, rule: Rule, now: int, done: bool, y: Object)
    requires WellFormed(b) && o in b.objects && Stepped(cal, b, b', o, rule, now, done) && y in Items(b')
    ensures y in Items(b) || Same(o, y) || (Apply(cal, o, rule, now) == None && IsFresh(b.versioning, y, o.key, now))
  {
    hide Apply;
    if Apply(cal, o, rule, now) == None && IsDeleted(b, b', o.key, now) {
      var id :| b' == Deleted(b, o.key, id, now);
      DeletedItems(b, o.key, id, now, y);
      hide WellFormed, Deleted;
    } else if b' != b {
      ReclassedItems(b, o, Apply(cal, o, rule, now).value.storageClass, y);
    }
  }

  /** With distinct keys, a key has one current version. */
  lemma CurrentIs(b: Bucket, o: Object)
    requires WellFormed(b) && o in b.objects
    ensures CurrentOf(b, o.key) == Some(o) && DistinctKeys(b.objects)
    ensures forall x | x in b.objects && x.key == o.key :: x == o
  {
  }

  lemma WellFormedKeys(b: Bucket)
    requires WellFormed(b)
    ensures DistinctKeys(b.objects)
  {
  }

  // ---- One rule, the listed objects ----

  lemma {:induction false} ApplyEachKeys(cal: Calendar, objects: seq<Object>, rule: Rule, now: int, o: Object)
    requires o in ApplyEach(cal, objects, rule, now)
    ensures exists x :: x in objects && x.key == o.key
  {
    var front := objects[..|objects| - 1];
    if o in ApplyEach(cal, front, rule, now) {
      ApplyEachKeys(cal, front, rule, now, o);
      var x :| x in front && x.key == o.key;
      assert x in objects;
    } else {
      assert Last(objects) in objects;
    }
  }

  /** The objects after the first `i` of them went through a rule. */
  function After(cal: Calendar, objects: seq<Object>, rule: Rule, now: int, i: nat): seq<Object>
    requires i <= |objects|
  {
    ApplyEach(cal, objects[..i], rule, now) + objects[i..]
  }

  lemma AfterNext(cal: Calendar, objects: seq<Object>, rule: Rule, now: int, i: nat)
    requires DistinctKeys(objects) && i < |objects|
    ensures var o := objects[i];
      After(cal, objects, rule, now, i + 1) ==
        Replace(After(cal, objects, rule, now, i), o.key, Apply(cal, o, rule, now))
  {
    hide Apply, Replace;
    var o, done, rest := objects[i], ApplyEach(cal, objects[..i], rule, now), objects[i + 1..];
    ApplyEachNext(cal, objects, rule, now, i);
    hide ApplyEach;
    forall x | x in done ensures x.key != o.key {
      ApplyEachKeys(cal, objects[..i], rule, now, x);
      var y :| y in objects[..i] && y.key == x.key;
    }
    ReplaceAt(done, o, rest, Apply(cal, o, rule, now));
    assert done + objects[i..] == done + [o] + rest;
  }

  lemma ApplyEachNext(cal: Calendar, objects: seq<Object>, rule: Rule, now: int, i: nat)
    requires i < |objects|
    ensures ApplyEach(cal, objects[..i + 1], rule, now) ==
      ApplyEach(cal, objects[..i], rule, now) + Kept(Apply(cal, objects[i], rule, now))
  {
    hide Apply;
    assert objects[..i + 1][..i] == objects[..i];
  }

  /** A listing is a prefix of the bucket, and a rule has passed once all of it is done. */
  lemma AfterPage(cal: Calendar, objects: seq<Object>, rule: Rule, now: int)
    ensures var page := Page(objects);
      && |page| <= |objects| && (forall j | 0 <= j < |page| :: page[j] == objects[j])
      && After(cal, objects, rule, now, |page|) == RulePass(cal, objects, rule, now)
      && After(cal, objects, rule, now, 0) == objects
  {
    hide Apply;
    assert objects[..|objects|] == objects && objects[|objects|..] == [];
    assert objects[..0] == [] && objects[0..] == objects;
  }

  /** Among the first `i` listed objects, the current version of the key expires. */
  ghost predicate ExpiresBefore(cal: Calendar, b: Bucket, rule: Rule, now: int, i: nat, key: string) {
    exists j | 0 <= j < i && j < |Page(b.objects)| ::
      Page(b.objects)[j].key == key && Apply(cal, Page(b.objects)[j], rule, now) == None
  }

  /** A delete of a key among the first `i` listed objects ends this version. */
  ghost predicate Dropped(cal: Calendar, b: Bucket, rule: Rule, now: int, i: nat, x: Object) {
    ExpiresBefore(cal, b, rule, now, i, x.key) && Ends(b.versioning, x, now)
  }

  /** `y` was there before, perhaps in another class, or marks an expired key. */
  ghost predicate Accounted(cal: Calendar, b: Bucket, rule: Rule, now: int, i: nat, y: Object) {
    || (exists x | x in Items(b) :: Same(x, y))
    || (ExpiresBefore(cal, b, rule, now, i, y.key) && IsFresh(b.versioning, y, y.key, now))
  }

  /**
   What one rule does to every version of a bucket, after the first `i` listed objects. Calls may
   have been refused for the keys in `troubled`.
   */
  ghost predicate Fates(cal: Calendar, b: Bucket, at: Bucket, rule: Rule, now: int, i: nat, troubled: set<string>) {
    && Careful(cal, b, at, now)
    && (forall x | x in Items(b) && !Dropped(cal, b, rule, now, i, x) :: Survives(x, at))
    && (forall x | x in Items(b) && Dropped(cal, b, rule, now, i, x) && x.key !in troubled :: !Survives(x, at))
    && (forall y | y in Items(at) :: Accounted(cal, b, rule, now, i, y))
  }

  lemma FatesNone(cal: Calendar, b: Bucket, rule: Rule, now: int)
    ensures Fates(cal, b, b, rule, now, 0, {})
  {
    CarefulSame(cal, b, now);
    hide Careful, Apply, Ends, IsFresh;
    forall o | o in Items(b) ensures Survives(o, b) { assert Same(o, o); }
    forall o | o in Items(b) ensures Accounted(cal, b, rule, now, 0, o) { assert Same(o, o); }
  }

  lemma ExpiresBeforeNext(cal: Calendar, b: Bucket, rule: Rule, now: int, i: nat, key: string)
    requires i < |Page(b.objects)|
    ensures var o := Page(b.objects)[i];
      ExpiresBefore(cal, b, rule, now, i + 1, key) <==>
      ExpiresBefore(cal, b, rule, now, i, key) || (o.key == key && Apply(cal, o, rule, now) == None)
  {
    hide Apply, Page;
  }

  /** A step that is complete for more keys is complete for fewer. */
  lemma SteppedLess(cal: Calendar, b: Bucket, b': Bucket, o: Object, rule: Rule, now: int, done: bool, less: bool)
    requires Stepped(cal, b, b', o, rule, now, done) && (less ==> done)
    ensures Stepped(cal, b, b', o, rule, now, less)
  {
    hide Apply, IsDeleted, Reclassed;
  }

  lemma FatesNext(cal: Calendar, b: Bucket, at: Bucket, next: Bucket, rule: Rule, now: int, i: nat,
                  troubled: set<string>, more: set<string>)
    requires WellFormed(at) && i < |Page(b.objects)| && Page(b.objects)[i] in at.objects
    requires b.versioning == at.versioning && Fates(cal, b, at, rule, now, i, troubled) && troubled <= more
    requires Stepped(cal, at, next, Page(b.objects)[i], rule, now, Page(b.objects)[i].key !in more)
    ensures Fates(cal, b, next, rule, now, i + 1, more)
  {
    var o := Page(b.objects)[i];
    SteppedFacts(cal, at, next, o, rule, now, o.key !in more);
    CarefulTransitive(cal, b, at, next, now);
    hide Careful, Page, WellFormed, Stepped, ExpiresBefore, Survives, Items, Replace, Apply, Dropped, Accounted;
    forall x | x in Items(b) && !Dropped(cal, b, rule, now, i + 1, x) ensures Survives(x, next) {
      KeptNext(cal, b, at, next, rule, now, i, troubled, o.key !in more, x);
    }
    forall x | x in Items(b) && Dropped(cal, b, rule, now, i + 1, x) && x.key !in more ensures !Survives(x, next) {
      GoneNext(cal, b, at, next, rule, now, i, troubled, o.key !in more, x);
    }
    forall y | y in Items(next) ensures Accounted(cal, b, rule, now, i + 1, y) {
      AddedNext(cal, b, at, next, rule, now, i, troubled, o.key !in more, y);
    }
  }

  lemma KeptNext(cal: Calendar, b: Bucket, at: Bucket, next: Bucket, rule: Rule, now: int, i: nat,
                 troubled: set<string>, done: bool, x: Object)
    requires WellFormed(at) && i < |Page(b.objects)| && Page(b.objects)[i] in at.objects
    requires b.versioning == at.versioning && Fates(cal, b, at, rule, now, i, troubled)
    requires Stepped(cal, at, next, Page(b.objects)[i], rule, now, done)
    requires x in Items(b) && !Dropped(cal, b, rule, now, i + 1, x)
    ensures Survives(x, next)
  {
    var o := Page(b.objects)[i];
    ExpiresBeforeNext(cal, b, rule, now, i, x.key);
    hide Careful, Page, WellFormed, Stepped, ExpiresBefore, Items, Apply, Accounted, Marker;
    assert Survives(x, at);
    var y :| y in Items(at) && Same(x, y);
    assert Ends(b.versioning, x, now) == Ends(b.versioning, y, now);
    SteppedKeeps(cal, at, next, o, rule, now, done, y);
    var z :| z in Items(next) && Same(y, z);
    assert Same(x, z);
  }

  lemma GoneNext(cal: Calendar, b: Bucket, at: Bucket, next: Bucket, rule: Rule, now: int, i: nat,
                 troubled: set<string>, done: bool, x: Object)
    requires WellFormed(at) && i < |Page(b.objects)| && Page(b.objects)[i] in at.objects
    requires b.versioning == at.versioning && Fates(cal, b, at, rule, now, i, troubled)
    requires Stepped(cal, at, next, Page(b.objects)[i], rule, now, done) && (x.key == Page(b.objects)[i].key ==> done)
    requires x in Items(b) && Dropped(cal, b, rule, now, i + 1, x) && x.key !in troubled
    ensures !Survives(x, next)
  {
    var o := Page(b.objects)[i];
    ExpiresBeforeNext(cal, b, rule, now, i, x.key);
    assert o in Items(at);
    hide Careful, Page, WellFormed, Stepped, ExpiresBefore, Items, Apply, Accounted, Marker;
    if ExpiresBefore(cal, b, rule, now, i, x.key) {
      assert !Survives(x, at);
      forall z | z in Items(next) ensures !Same(x, z) {
        SteppedAdds(cal, at, next, o, rule, now, done, z);
        assert Same(x, z) && Same(o, z) ==> Same(x, o);
      }
    } else {
      SteppedLoses(cal, at, next, o, rule, now, x);
    }
  }

  lemma AddedNext(cal: Calendar, b: Bucket, at: Bucket, next: Bucket, rule: Rule, now: int, i: nat,
                  troubled: set<string>, done: bool, y: Object)
    requires WellFormed(at) && i < |Page(b.objects)| && Page(b.objects)[i] in at.objects
    requires b.versioning == at.versioning && Fates(cal, b, at, rule, now, i, troubled)
    requires Stepped(cal, at, next, Page(b.objects)[i], rule, now, done) && y in Items(next)
    ensures Accounted(cal, b, rule, now, i + 1, y)
  {
    var o := Page(b.objects)[i];
    SteppedAdds(cal, at, next, o, rule, now, done, y);
    ExpiresBeforeNext(cal, b, rule, now, i, y.key);
    assert Same(o, y) ==> exists x | x in Items(b) :: Same(x, y) by { ListedIsItem(b, i); }
    hide Careful, Page, WellFormed, Stepped, ExpiresBefore, Items, Apply, Survives, Dropped, Same, Fates;
    if y in Items(at) { FatesAccount(cal, b, at, rule, now, i, troubled, y); }
  }

  lemma ListedIsItem(b: Bucket, i: nat)
    requires i < |Page(b.objects)|
    ensures Page(b.objects)[i] in Items(b) && Page(b.objects)[i] in b.objects
  {
  }

  lemma FatesAccount(cal: Calendar, b: Bucket, at: Bucket, rule: Rule, now: int, i: nat, troubled: set<string>,
                     y: Object)
    requires Fates(cal, b, at, rule, now, i, troubled) && y in Items(at)
    ensures Accounted(cal, b, rule, now, i, y)
  {
  }

  // ---- What one rule costs the protected versions ----

  /** A rule costs the bucket this version: it is exposed, and its key's listed current version expires. */
  ghost predicate Loses(cal: Calendar, b: Bucket, rule: Rule, now: int, o: Object) {
    Exposed(b, o) && ExpiresBefore(cal, b, rule, now, |Page(b.objects)|, o.key)
  }

  lemma MarkerIsNotSame(cal: Calendar, x: Object, key: string, id: string, now: int)
    requires Protected(cal, x, now)
    ensures !Same(x, Marker(key, id, now))
  {
    MarkerIsUnprotected(cal, key, id, now, now);
    assert Protected(cal, Marker(key, id, now), now) == AnyProtected(cal, Marker(key, id, now).providerMetadata, now);
    assert Protected(cal, x, now) == AnyProtected(cal, x.providerMetadata, now);
  }

  /** The protected versions a rule drops are those it loses. */
  lemma DroppedIsLost(cal: Calendar, b: Bucket, rule: Rule, now: int, o: Object)
    requires WellFormed(b) && o in Items(b) && Protected(cal, o, now)
    ensures Dropped(cal, b, rule, now, |Page(b.objects)|, o) <==> Loses(cal, b, rule, now, o)
  {
    MarkerIsNotSame(cal, o, o.key, NULL, now);
    var page := Page(b.objects);
    if j :| 0 <= j < |page| && page[j].key == o.key && Apply(cal, page[j], rule, now) == None {
      NoneMeansUnprotected(cal, page[j], rule, now);
      CurrentIs(b, b.objects[j]);
      hide Apply, Protected;
      assert page[j] == b.objects[j] && o !in b.objects;
    }
  }

  /**
   Whatever fails, one rule keeps every protected version it does not lose; unless a call for its
   key was refused, it loses exactly those.
   */
  lemma RuleSparesExactly(cal: Calendar, b: Bucket, b': Bucket, rule: Rule, now: int, troubled: set<string>, o: Object)
    requires WellFormed(b) && Fates(cal, b, b', rule, now, |Page(b.objects)|, troubled)
    requires o in Items(b) && Protected(cal, o, now)
    ensures !Loses(cal, b, rule, now, o) ==> Survives(o, b')
    ensures o.key !in troubled ==> (Survives(o, b') <==> !Loses(cal, b, rule, now, o))
  {
    DroppedIsLost(cal, b, rule, now, o);
    hide Protected, Dropped, Page, Loses, WellFormed, Accounted;
  }

  /** A legal hold lost: in a suspended bucket, expiring the current version replaces a held null version. */
  lemma SuspendedDeleteLosesHold(cal: Calendar, now: int)
    ensures var held := Object("k", Some(NULL), now, "STANDARD", map[], map[S3_LEGAL_HOLD := "ON"]);
      var current := Object("k", Some("v1"), now, "STANDARD", map[], map[]);
      var b := Bucket(map[], Some([EXPIRE_ALL]), Suspended, [current], {held});
      && WellFormed(b) && Protected(cal, held, now) && Expires(cal, current, [EXPIRE_ALL], now)
      && Loses(cal, b, EXPIRE_ALL, now, held) && !Spares(cal, b, Deleted(b, "k", "v2", now), now)
  {
    var held := Object("k", Some(NULL), now, "STANDARD", map[], map[S3_LEGAL_HOLD := "ON"]);
    var current := Object("k", Some("v1"), now, "STANDARD", map[], map[]);
    var b := Bucket(map[], Some([EXPIRE_ALL]), Suspended, [current], {held});
    assert NULL[0] == 'n' && "v1"[0] == 'v';
    assert WellFormed(b);
    assert Protected(cal, held, now);
    DueByDaysMeans(now, 0, now);
    assert EXPIRE_ALL in [EXPIRE_ALL] && ExpiryDue(cal, current, EXPIRE_ALL, now);
    assert Page(b.objects)[0] == current;
    DeletedSparesExactly(cal, b, "k", "v2", now);
  }
}
