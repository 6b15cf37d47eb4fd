/**
 The lifecycle executor and the eager expiry check over stored buckets (src/lifecycle.rs:123-193,
 326-588). Every storage call may fail, and `refused` keeps the calls that did.
 */
module Lifecycle {
  import opened Common
  import opened Sorting
  import opened LifecycleRules
  import opened LifecycleSpec

  datatype Versioning = Off | On | Suspended

  /** `objects` are the current versions in index order, `history` every other version. */
  datatype Bucket = Bucket(metadata: map<string, string>, rules: Option<seq<Rule>>, versioning: Versioning,
                           objects: seq<Object>, history: set<Object>)

  const NULL := "null"

  ghost function Items(b: Bucket): set<Object> { (set o | o in b.objects) + b.history }

  /** A version is identified by its key and version id. */
  predicate Is(o: Object, key: string, id: string) { o.key == key && o.versionId == Some(id) }

  ghost predicate WellFormed(b: Bucket) {
    && DistinctKeys(b.objects) && (forall o | o in b.objects :: o !in b.history)
    && (b.versioning == Off ==> b.history == {} && forall o | o in b.objects :: o.versionId == None)
    && (b.versioning != Off ==> forall o | o in Items(b) :: o.versionId.Some?)
    && (forall x, y | x in Items(b) && y in Items(b) && x.key == y.key && x.versionId == y.versionId :: x == y)
  }

  ghost function CurrentOf(b: Bucket, key: string): Option<Object> {
    if o :| o in b.objects && o.key == key then Some(o) else None
  }

  /** The tags and the version id a rule sees for a key. */
  ghost function TagsOf(b: Bucket, key: string): map<string, string> {
    match CurrentOf(b, key) case Some(o) => o.tags case None => map[]
  }

  ghost function CurrentId(b: Bucket, key: string): Option<string> {
    match CurrentOf(b, key) case Some(o) => o.versionId case None => None
  }

  // ---- Storage effects on one bucket ----

  /** The object stored under `key`, replaced or removed. */
  function Replace(objects: seq<Object>, key: string, r: Option<Object>): seq<Object> {
    if objects == [] then []
    else Replace(objects[..|objects| - 1], key, r) + if Last(objects).key == key then Kept(r) else [Last(objects)]
  }

  function Marker(key: string, id: string, now: int): Object {
    Object(key, Some(id), now, "STANDARD", map[], map["s3_delete_marker" := "true"])
  }

  /** delete_object: removes the object, or hides it behind a delete marker. */
  function Deleted(b: Bucket, key: string, id: string, now: int): Bucket {
    var current := set o | o in b.objects && o.key == key;
    var rest := b.(objects := Replace(b.objects, key, None));
    match b.versioning
    case Off => rest
    case On => rest.(history := b.history + current + {Marker(key, id, now)})
    case Suspended =>
      rest.(history := (set o | o in b.history + current && !Is(o, key, NULL)) + {Marker(key, NULL, now)})
  }

  lemma {:induction false} ReplaceMembers(objects: seq<Object>, key: string, r: Option<Object>, o: Object)
    requires r.Some? ==> r.value.key == key
    ensures o.key != key ==> (o in Replace(objects, key, r) <==> o in objects)
    ensures o.key == key ==>
      (o in Replace(objects, key, r) <==> r == Some(o) && exists x :: x in objects && x.key == key)
  {
    if objects != [] {
      var front := objects[..|objects| - 1];
      ReplaceMembers(front, key, r, o);
      assert objects == front + [Last(objects)];
    }
  }

  lemma {:induction false} ReplaceDistinct(objects: seq<Object>, key: string, r: Option<Object>)
    requires DistinctKeys(objects) && (r.Some? ==> r.value.key == key)
    ensures DistinctKeys(Replace(objects, key, r))
  {
    if objects != [] {
      var front, last := objects[..|objects| - 1], Last(objects);
      ReplaceDistinct(front, key, r);
      var done := Replace(front, key, r);
      forall i | 0 <= i < |done| ensures done[i].key != last.key {
        ReplaceMembers(front, key, r, done[i]);
        if done[i].key == key {
          var x :| x in front && x.key == key;
        }
      }
    }
  }

  /** Replacing one of several objects with distinct keys. */
  lemma ReplaceAt(a: seq<Object>, o: Object, b: seq<Object>, r: Option<Object>)
    requires (forall x | x in a :: x.key != o.key) && (forall x | x in b :: x.key != o.key)
    ensures Replace(a + [o] + b, o.key, r) == a + Kept(r) + b
  {
    ReplaceElsewhere(a, o.key, r);
    ReplaceElsewhere(b, o.key, r);
    ReplaceConcat(a + [o], b, o.key, r);
    ReplaceConcat(a, [o], o.key, r);
    assert [o][..0] == [];
  }

  lemma {:induction false} ReplaceElsewhere(a: seq<Object>, key: string, r: Option<Object>)
    requires forall x | x in a :: x.key != key
    ensures Replace(a, key, r) == a
  {
    if a != [] {
      ReplaceElsewhere(a[..|a| - 1], key, r);
      assert Last(a) in a;
    }
  }

  lemma {:induction false} ReplaceConcat(a: seq<Object>, b: seq<Object>, key: string, r: Option<Object>)
    ensures Replace(a + b, key, r) == Replace(a, key, r) + Replace(b, key, r)
  {
    if b == [] {
      assert a + b == a;
    } else {
      ReplaceConcat(a, b[..|b| - 1], key, r);
      assert (a + b)[..|a + b| - 1] == a + b[..|b| - 1] && Last(a + b) == Last(b);
    }
  }

  /** What `delete_object` keeps and adds. */
  lemma DeletedItems(b: Bucket, key: string, id: string, now: int, o: Object)
    ensures o in Items(Deleted(b, key, id, now)) <==>
      match b.versioning
      case Off => (o in b.objects && o.key != key) || o in b.history
      case On => o in Items(b) || o == Marker(key, id, now)
      case Suspended => (o in Items(b) && !Is(o, key, "null")) || o == Marker(key, "null", now)
    ensures o in Deleted(b, key, id, now).objects <==> o in b.objects && o.key != key
  {
    ReplaceMembers(b.objects, key, None, o);
  }

  /** In a bucket with versions a delete hides the key behind one new marker of that instant. */
  lemma DeletedHides(b: Bucket, key: string, id: string, now: int)
    requires b.versioning != Off
    ensures var b' := Deleted(b, key, id, now);
      && (forall o | o in b'.objects :: o.key != key)
      && exists m | m in b'.history ::
           && m.key == key && m.lastModified == now && m.tags == map[] && IsMarker(m)
           && m.versionId == (if b.versioning == On then Some(id) else Some("null"))
           && forall o | o in Items(b') && o != m :: o in Items(b)
  {
    var b' := Deleted(b, key, id, now);
    var m := Marker(key, if b.versioning == On then id else NULL, now);
    forall o ensures o in b'.objects ==> o.key != key
      ensures o in Items(b') && o != m ==> o in Items(b)
    {
      DeletedItems(b, key, id, now, o);
    }
    assert m in b'.history;
    hide Deleted;
  }

  lemma DeletedWellFormed(b: Bucket, key: string, id: string, now: int)
    requires WellFormed(b) && (forall o | o in Items(b) :: !Is(o, key, id))
    ensures WellFormed(Deleted(b, key, id, now))
  {
    var b' := Deleted(b, key, id, now);
    ReplaceDistinct(b.objects, key, None);
    forall o
      ensures o in Items(b') ==> o in Items(b) || o == Marker(key, if b.versioning == Suspended then NULL else id, now)
      ensures o in Items(b') && o in Items(b) && b.versioning == Suspended ==>
        !Is(o, key, NULL) || o == Marker(key, NULL, now)
      ensures o in b'.objects ==> o in b.objects && o.key != key
      ensures o in b'.history ==> o in b.history || o.key == key
      ensures b.versioning == Off && o in Items(b') ==> o in b.objects
    {
      DeletedItems(b, key, id, now, o);
    }
    assert b'.versioning == b.versioning && (b.versioning == Off ==> b'.history == {});
    hide Deleted, DistinctKeys;
  }

  // ---- Protection ----

  /** The same version, perhaps in another storage class. */
  predicate Same(o: Object, o': Object) { o' == o.(storageClass := o'.storageClass) }

  ghost predicate Survives(o: Object, b: Bucket) { exists o' | o' in Items(b) :: Same(o, o') }

  /** Everything protected at `now` is still there. */
  ghost predicate Spares(cal: Calendar, b: Bucket, b': Bucket, now: int) {
    forall o | o in Items(b) && Protected(cal, o, now) :: Survives(o, b')
  }

  lemma SparesSubset(cal: Calendar, a: Bucket, b: Bucket, now: int)
    requires forall o | o in Items(a) && Protected(cal, o, now) :: o in Items(b)
    ensures Spares(cal, a, b, now)
  {
    forall o | o in Items(a) && Protected(cal, o, now) ensures Survives(o, b) {
      assert Same(o, o);
    }
  }

  lemma MarkerIsUnprotected(cal: Calendar, key: string, id: string, now: int, instant: int)
    ensures !Protected(cal, Marker(key, id, now), instant)
  {
    var meta := Marker(key, id, now).providerMetadata;
    assert forall k | k in meta :: k == "s3_delete_marker";
    assert "s3_delete_marker"[3] == 'd' && S3_LOCK_MODE[3] == 'o' && S3_LOCK_UNTIL[3] == 'o' && S3_LEGAL_HOLD[3] == 'o';
    assert AZURE_UNTIL[0] == 'a' && AZURE_LEGAL_HOLD[0] == 'a' && AZURE_MODE[0] == 'a' && AZURE_LEASE[0] == 'a';
  }

  /**
   Deleting an unprotected object spares everything protected, except that in a suspended bucket
   it replaces the key's null version, protected or not.
   */
  lemma DeletedSparesExactly(cal: Calendar, b: Bucket, key: string, id: string, now: int)
    requires WellFormed(b) && forall o | o in b.objects && o.key == key :: !Protected(cal, o, now)
    ensures Spares(cal, b, Deleted(b, key, id, now), now) <==>
      (b.versioning == Suspended ==> forall o | o in b.history && Is(o, key, NULL) :: !Protected(cal, o, now))
  {
    var b' := Deleted(b, key, id, now);
    forall o | o in Items(b) && Protected(cal, o, now)
               && !(b.versioning == Suspended && o in b.history && Is(o, key, NULL))
      ensures o in Items(b')
    {
      DeletedItems(b, key, id, now, o);
    }
    if o :| b.versioning == Suspended && o in b.history && Is(o, key, NULL) && Protected(cal, o, now) {
      NullVersionGone(cal, b, key, id, now, o);
    } else {
      hide Deleted;
      SparesSubset(cal, b, b', now);
    }
  }

  lemma NullVersionGone(cal: Calendar, b: Bucket, key: string, id: string, now: int, o: Object)
    requires b.versioning == Suspended && o in b.history && Is(o, key, NULL) && Protected(cal, o, now)
    ensures !Survives(o, Deleted(b, key, id, now))
  {
    forall o' | o' in Items(Deleted(b, key, id, now)) ensures !Same(o, o') {
      DeletedItems(b, key, id, now, o');
      MarkerIsUnprotected(cal, key, NULL, now, now);
      assert Protected(cal, Marker(key, NULL, now), now) ==
        AnyProtected(cal, Marker(key, NULL, now).providerMetadata, now);
      assert Protected(cal, o, now) == AnyProtected(cal, o.providerMetadata, now);
    }
  }

  /** Protection depends on an object's provider metadata alone. */
  predicate AnyProtected(cal: Calendar, meta: map<string, string>, now: int) {
    Protected(cal, Object("", None, 0, "", map[], meta), now)
  }

  // ---- The store ----

  /** A storage call that returned an error. */
  datatype Refusal =
    | ListingBuckets
    | ReadingRules(name: string)
    | ReadingBucket(name: string)
    | Listing(name: string)
    | ListingVersions(name: string)
    | ReadingTags(name: string, key: string)
    | LookingUp(name: string, key: string)
    | Deleting(name: string, key: string)
    | Moving(name: string, key: string)
    | DeletingVersion(name: string, key: string, id: string)

  /** The refusals added since `before`. */
  function Since(before: seq<Refusal>, after: seq<Refusal>): seq<Refusal> {
    if |before| <= |after| then after[|before|..] else []
  }

  class Store {
    const cal: Calendar
    var buckets: map<string, Bucket>
    ghost var refused: seq<Refusal>

    ghost predicate Valid()
      reads this
    {
      forall name | name in buckets :: WellFormed(buckets[name])
    }

    constructor (cal: Calendar, buckets: map<string, Bucket>)
      requires forall name | name in buckets :: WellFormed(buckets[name])
      ensures Valid() && this.cal == cal && this.buckets == buckets && refused == []
    {
      this.cal := cal;
      this.buckets := buckets;
      refused := [];
    }

    /** Whether the next call succeeds; if not, it is recorded. */
    method Attempt(ghost call: Refusal) returns (ok: bool)
      modifies this`refused
      ensures refused == old(refused) + if ok then [] else [call]
    {
      ok := *;
      if !ok { refused := refused + [call]; }
    }

    method ListBuckets() returns (r: Option<set<string>>)
      modifies this`refused
      ensures r.Some? ==> r.value == buckets.Keys
      ensures refused == old(refused) + if r.Some? then [] else [ListingBuckets]
    {
      var ok := Attempt(ListingBuckets);
      r := if ok then Some(buckets.Keys) else None;
    }

    /** get_bucket_lifecycle, where no configuration is not a failure. */
    method ReadRules(name: string) returns (ok: bool, rules: Option<seq<Rule>>)
      requires name in buckets
      modifies this`refused
      ensures rules == if ok then buckets[name].rules else None
      ensures refused == old(refused) + if ok then [] else [ReadingRules(name)]
    {
      ok := Attempt(ReadingRules(name));
      rules := if ok then buckets[name].rules else None;
    }

    /** The metadata part of get_bucket. */
    method ReadMetadata(name: string) returns (r: Option<map<string, string>>)
      requires name in buckets
      modifies this`refused
      ensures r.Some? ==> r.value == buckets[name].metadata
      ensures refused == old(refused) + if r.Some? then [] else [ReadingBucket(name)]
    {
      var ok := Attempt(ReadingBucket(name));
      r := if ok then Some(buckets[name].metadata) else None;
    }

    /** list_objects without a limit: the first page. */
    method ListObjects(name: string) returns (r: Option<seq<Object>>)
      requires name in buckets
      modifies this`refused
      ensures r.Some? ==> r.value == Page(buckets[name].objects)
      ensures refused == old(refused) + if r.Some? then [] else [Listing(name)]
    {
      var ok := Attempt(Listing(name));
      r := if ok then Some(Page(buckets[name].objects)) else None;
    }

    /** The current version of `key`. */
    method Find(name: string, key: string) returns (r: Option<Object>)
      requires name in buckets && DistinctKeys(buckets[name].objects)
      ensures r == CurrentOf(buckets[name], key)
    {
      var objects := buckets[name].objects;
      for i := 0 to |objects|
        invariant forall j | 0 <= j < i :: objects[j].key != key
      {
        if objects[i].key == key { return Some(objects[i]); }
      }
      r := None;
    }

    /** get_object and get_object_metadata, where a missing object is not a failure. */
    method GetObject(name: string, key: string) returns (ok: bool, r: Option<Object>)
      requires name in buckets && DistinctKeys(buckets[name].objects)
      modifies this`refused
      ensures r == if ok then CurrentOf(buckets[name], key) else None
      ensures refused == old(refused) + if ok then [] else [LookingUp(name, key)]
    {
      ok := Attempt(LookingUp(name, key));
      r := None;
      if ok { r := Find(name, key); }
    }

    /** get_object_tags, where a failure reads as no tags. */
    method ObjectTags(name: string, key: string) returns (tags: map<string, string>)
      requires name in buckets && DistinctKeys(buckets[name].objects)
      modifies this`refused
      ensures
        || (refused == old(refused) && tags == TagsOf(buckets[name], key))
        || (refused == old(refused) + [ReadingTags(name, key)] && tags == map[])
    {
      var ok := Attempt(ReadingTags(name, key));
      tags := map[];
      if ok {
        var found := Find(name, key);
        if found.Some? { tags := found.value.tags; }
      }
    }

    method DeleteObject(name: string, key: string, now: int) returns (ok: bool, ghost id: string)
      requires Valid() && name in buckets
      modifies this
      ensures Valid()
      ensures buckets == if ok then old(buckets)[name := Deleted(old(buckets)[name], key, id, now)] else old(buckets)
      ensures KeyOrdered(old(buckets)[name].objects) ==> KeyOrdered(buckets[name].objects)
      ensures refused == old(refused) + if ok then [] else [Deleting(name, key)]
    {
      if KeyOrdered(buckets[name].objects) { ReplaceOrdered(buckets[name].objects, key, None); }
      hide KeyOrdered;
      ok := *;
      var uuid: string := *;
      id := uuid;
      var b := buckets[name];
      ok := ok && (forall o | o in b.objects :: !Is(o, key, uuid)) && (forall o | o in b.history :: !Is(o, key, uuid));
      if !ok {
        refused := refused + [Deleting(name, key)];
        return;
      }
      DeletedWellFormed(b, key, uuid, now);
      buckets := buckets[name := Deleted(b, key, uuid, now)];
    }

    /** list_object_versions: every version that has an id. */
    method ListVersions(name: string) returns (r: Option<set<Object>>)
      requires name in buckets
      modifies this`refused
      ensures r.Some? ==> forall o :: o in r.value <==> o in Items(buckets[name]) && o.versionId.Some?
      ensures refused == old(refused) + if r.Some? then [] else [ListingVersions(name)]
    {
      var ok := Attempt(ListingVersions(name));
      var b := buckets[name];
      var found := (set o | o in b.objects && o.versionId.Some?) + (set o | o in b.history && o.versionId.Some?);
      r := if ok then Some(found) else None;
    }

    /**
     delete_object_version: a key left without a current version gets its latest other one, unless
     that is a marker. There must be such a version.
     */
    method DeleteVersion(name: string, key: string, id: string) returns (ok: bool)
      requires Valid() && name in buckets
      modifies this
      ensures Valid() && Framed(old(buckets), buckets, name)
      ensures ok ==> HasVersion(old(buckets)[name], key, id)
      ensures ok ==> VersionRemoved(old(buckets)[name], buckets[name], key, id)
      ensures ok ==> Promoted(old(buckets)[name], buckets[name], key, id)
      ensures !ok ==> buckets == old(buckets)
      ensures KeyOrdered(old(buckets)[name].objects) ==> KeyOrdered(buckets[name].objects)
      ensures refused == old(refused) + if ok then [] else [DeletingVersion(name, key, id)]
    {
      hide HasVersion, WellFormed, VersionRemoved, Promoted, KeyOrdered;
      var b, able := buckets[name], *;
      ok := able && HasVersion(b, key, id);
      if !ok {
        refused := refused + [DeletingVersion(name, key, id)];
        return;
      }
      var removed := RemoveVersion(b, key, id);
      buckets := buckets[name := removed];
    }

    /** update_object_storage_class: changes the class of the current version only. */
    method UpdateClass(name: string, o: Object, class_: string) returns (ok: bool)
      requires Valid() && name in buckets && o in buckets[name].objects
      modifies this
      ensures Valid()
      ensures buckets == if ok then old(buckets)[name := Reclassed(old(buckets)[name], o, class_)] else old(buckets)
      ensures KeyOrdered(old(buckets)[name].objects) ==> KeyOrdered(buckets[name].objects)
      ensures refused == old(refused) + if ok then [] else [Moving(name, o.key)]
    {
      if KeyOrdered(buckets[name].objects) {
        ReplaceOrdered(buckets[name].objects, o.key, Some(o.(storageClass := class_)));
      }
      hide KeyOrdered;
      ok := Attempt(Moving(name, o.key));
      if ok {
        ReclassedWellFormed(buckets[name], o, class_);
        buckets := buckets[name := Reclassed(buckets[name], o, class_)];
      }
    }
  }

  // ---- Refusals ----

  lemma SinceSame(a: seq<Refusal>)
    ensures Since(a, a) == []
  {
  }

  lemma SinceJoin(a: seq<Refusal>, b: seq<Refusal>, c: seq<Refusal>)
    requires a <= b <= c
    ensures Since(a, c) == Since(a, b) + Since(b, c)
  {
  }

  /** The keys of `name` for which reading the tags, deleting or moving was refused. */
  function TroubledKeys(news: seq<Refusal>, name: string): set<string> {
    set r | r in news && (r.ReadingTags? || r.Deleting? || r.Moving?) && r.name == name :: r.key
  }

  /** The keys of `name` that could not be looked up. */
  function UnreadKeys(news: seq<Refusal>, name: string): set<string> {
    set r | r in news && r.LookingUp? && r.name == name :: r.key
  }

  /** The keys of `name` whose tags could not be read. */
  function UntaggedKeys(news: seq<Refusal>, name: string): set<string> {
    set r | r in news && r.ReadingTags? && r.name == name :: r.key
  }

  lemma KeysJoin(a: seq<Refusal>, b: seq<Refusal>, name: string)
    ensures TroubledKeys(a + b, name) == TroubledKeys(a, name) + TroubledKeys(b, name)
    ensures UnreadKeys(a + b, name) == UnreadKeys(a, name) + UnreadKeys(b, name)
    ensures UntaggedKeys(a + b, name) == UntaggedKeys(a, name) + UntaggedKeys(b, name)
  {
  }

  /** Other buckets, and everything but the contents of this one, are as before. */
  ghost predicate Framed(a: map<string, Bucket>, b: map<string, Bucket>, name: string)
    requires name in a
  {
    && b.Keys == a.Keys && (forall n | n in a && n != name :: b[n] == a[n])
    && b[name] == a[name].(objects := b[name].objects, history := b[name].history)
  }

  predicate HasVersion(b: Bucket, key: string, id: string) {
    (exists o | o in b.objects :: Is(o, key, id)) || (exists o | o in b.history :: Is(o, key, id))
  }

  lemma OnlyVersioned(b: Bucket, key: string, id: string)
    requires WellFormed(b) && HasVersion(b, key, id)
    ensures b.versioning != Off
  {
  }

  /** The version `id` of `key` is gone; another version of `key` may have become current. */
  ghost predicate VersionRemoved(b: Bucket, b': Bucket, key: string, id: string) {
    && (forall o :: o in Items(b') <==> o in Items(b) && !Is(o, key, id))
    && (forall o: Object | o.key != key :: o in b'.objects <==> o in b.objects)
    && b'.history <= b.history
  }

  /** None before every id. */
  predicate IdLe(a: Option<string>, b: Option<string>) { a.None? || (b.Some? && StrLe(a.value, b.value)) }

  /** `a` is at most as recent as `b`. */
  predicate OlderOrEqual(a: Object, b: Object) {
    a.lastModified < b.lastModified || (a.lastModified == b.lastModified && IdLe(a.versionId, b.versionId))
  }

  /** Versions are compared by time of modification, then by id as text. */
  lemma OlderExactly(a: Object, b: Object)
    requires a.versionId.Some? && b.versionId.Some?
    ensures OlderOrEqual(a, b) <==>
      || a.lastModified < b.lastModified
      || (a.lastModified == b.lastModified && TextBefore(a.versionId.value, b.versionId.value))
  {
    StrLeMeans(a.versionId.value, b.versionId.value);
    hide StrLe, TextBefore;
  }

  predicate IsMarker(o: Object) {
    "s3_delete_marker" in o.providerMetadata && o.providerMetadata["s3_delete_marker"] == "true"
  }

  /** The versions of `key` in the history, apart from `id`. */
  ghost predicate Candidate(b: Bucket, key: string, id: string, o: Object) {
    o in b.history && o.key == key && !Is(o, key, id)
  }

  /** Some other version of the key is current. */
  ghost predicate StaysCurrent(b: Bucket, key: string, id: string) {
    exists o | o in b.objects :: o.key == key && !Is(o, key, id)
  }

  /** After a delete of version `id`: which version of the key is current. */
  ghost predicate Promoted(b: Bucket, b': Bucket, key: string, id: string) {
    && (forall o | o in b.objects && !Is(o, key, id) :: o in b'.objects)
    && (forall o | o in b'.objects && o !in b.objects ::
          !StaysCurrent(b, key, id) && Candidate(b, key, id, o) && !IsMarker(o)
          && forall c | Candidate(b, key, id, c) :: OlderOrEqual(c, o))
    && (!StaysCurrent(b, key, id) && (forall o | o in b'.objects :: o.key != key) ==>
          forall o | Candidate(b, key, id, o) ::
            exists c ::
              Candidate(b, key, id, c) && IsMarker(c) && forall d | Candidate(b, key, id, d) :: OlderOrEqual(d, c))
  }

  function Page(objects: seq<Object>): seq<Object> {
    if |objects| <= LISTED then objects else objects[..LISTED]
  }

  function Reclassed(b: Bucket, o: Object, c: string): Bucket {
    b.(objects := Replace(b.objects, o.key, Some(o.(storageClass := c))))
  }

  const KEY_LE: (Object, Object) -> bool := (a: Object, b: Object) => StrLe(a.key, b.key)

  lemma VersionFiltered(b: Bucket, key: string, id: string)
    requires WellFormed(b) && b.versioning != Off
    ensures var b' := b.(objects := Filter(b.objects, (o: Object) => !Is(o, key, id)),
                         history := set o | o in b.history && !Is(o, key, id));
      && WellFormed(b') && VersionRemoved(b, b', key, id)
      && forall o :: o in b'.objects <==> o in b.objects && !Is(o, key, id)
  {
    var keep := (o: Object) => !Is(o, key, id);
    forall o ensures o in Filter(b.objects, keep) <==> o in b.objects && keep(o) {
      FilterCount(b.objects, keep, o);
      assert o in Filter(b.objects, keep) <==> o in multiset(Filter(b.objects, keep));
      assert o in b.objects <==> o in multiset(b.objects);
    }
    FilterDistinct(b.objects, keep);
  }

  lemma {:induction false} FilterDistinct(objects: seq<Object>, keep: Object -> bool)
    requires DistinctKeys(objects)
    ensures DistinctKeys(Filter(objects, keep))
  {
    if objects != [] {
      var rest := Filter(objects[1..], keep);
      FilterDistinct(objects[1..], keep);
      forall i | 0 <= i < |rest| ensures rest[i].key != objects[0].key {
        FilterCount(objects[1..], keep, rest[i]);
        assert rest[i] in multiset(rest);
        assert rest[i] in multiset(objects[1..]);
      }
    }
  }

  lemma {:induction false} InsertDistinct(o: Object, objects: seq<Object>)
    requires DistinctKeys(objects) && forall x | x in objects :: x.key != o.key
    ensures DistinctKeys(Insert(o, objects, KEY_LE))
    ensures forall x :: x in Insert(o, objects, KEY_LE) <==> x == o || x in objects
  {
    if objects != [] && !KEY_LE(o, objects[0]) {
      InsertDistinct(o, objects[1..]);
      var t := Insert(o, objects[1..], KEY_LE);
      forall i | 0 <= i < |t| ensures t[i].key != objects[0].key {
        assert t[i] in t;
      }
      assert objects == [objects[0]] + objects[1..];
    }
  }

  method RemoveVersion(b: Bucket, key: string, id: string) returns (r: Bucket)
    requires WellFormed(b) && HasVersion(b, key, id)
    ensures WellFormed(r) && r == b.(objects := r.objects, history := r.history)
    ensures VersionRemoved(b, r, key, id) && Promoted(b, r, key, id)
    ensures KeyOrdered(b.objects) ==> KeyOrdered(r.objects)
  {
    OnlyVersioned(b, key, id);
    if KeyOrdered(b.objects) { FilterOrdered(b.objects, (o: Object) => !Is(o, key, id)); }
    hide KeyOrdered;
    hide HasVersion;
    r := b.(objects := Filter(b.objects, (o: Object) => !Is(o, key, id)),
            history := set o | o in b.history && !Is(o, key, id));
    VersionFiltered(b, key, id);
    hide WellFormed, VersionRemoved, Filter, Promoted;
    r := Promote(r, b, key, id);
  }

  // ---- The index stays in key order ----

  ghost predicate KeyOrdered(objects: seq<Object>) {
    forall i, j | 0 <= i < j < |objects| :: TextBefore(objects[i].key, objects[j].key)
  }

  lemma OrderedIsSorted(objects: seq<Object>)
    ensures KeyOrdered(objects) <==> Sorted(objects, KEY_LE)
  {
    forall a, b ensures TextBefore(a, b) <==> StrLe(a, b) { StrLeMeans(a, b); }
    hide TextBefore, StrLe;
  }

  lemma KeyOrder()
    ensures TotalOrder(KEY_LE)
  {
    forall a, b ensures KEY_LE(a, b) || KEY_LE(b, a) { StrLeTotal(a.key, b.key); }
    forall a, b, c | KEY_LE(a, b) && KEY_LE(b, c) ensures KEY_LE(a, c) { StrLeTransitive(a.key, b.key, c.key); }
  }

  lemma InsertOrdered(o: Object, objects: seq<Object>)
    requires KeyOrdered(objects)
    ensures KeyOrdered(Insert(o, objects, KEY_LE))
  {
    KeyOrder();
    OrderedIsSorted(objects);
    OrderedIsSorted(Insert(o, objects, KEY_LE));
    hide KeyOrdered;
    InsertSorted(o, objects, KEY_LE);
  }

  lemma {:induction false} ReplaceOrdered(objects: seq<Object>, key: string, r: Option<Object>)
    requires KeyOrdered(objects) && (r.Some? ==> r.value.key == key)
    ensures KeyOrdered(Replace(objects, key, r))
  {
    hide TextBefore;
    if objects != [] {
      var front, last := objects[..|objects| - 1], Last(objects);
      ReplaceOrdered(front, key, r);
      var done := Replace(front, key, r);
      forall i | 0 <= i < |done| ensures TextBefore(done[i].key, last.key) {
        ReplaceMembers(front, key, r, done[i]);
        assert done[i] in done;
        var x :| x in front && x.key == done[i].key;
        var j :| 0 <= j < |front| && front[j] == x;
        assert objects[j] == x;
      }
    }
  }

  lemma {:induction false} FilterOrdered(objects: seq<Object>, keep: Object -> bool)
    requires KeyOrdered(objects)
    ensures KeyOrdered(Filter(objects, keep))
  {
    hide TextBefore;
    if objects != [] {
      var rest := Filter(objects[1..], keep);
      FilterOrdered(objects[1..], keep);
      forall i | 0 <= i < |rest| ensures TextBefore(objects[0].key, rest[i].key) {
        FilterCount(objects[1..], keep, rest[i]);
        assert rest[i] in multiset(rest);
        assert rest[i] in multiset(objects[1..]);
        var j :| 0 <= j < |objects[1..]| && objects[1..][j] == rest[i];
        assert objects[j + 1] == rest[i];
      }
    }
  }

  /** Gives a key without a current version its latest other one, unless that is a delete marker. */
  method Promote(b: Bucket, ghost before: Bucket, key: string, ghost id: string) returns (r: Bucket)
    requires WellFormed(b) && b.versioning != Off && VersionRemoved(before, b, key, id)
    requires b == before.(objects := b.objects, history := set o | o in before.history && !Is(o, key, id))
    requires forall o :: o in b.objects <==> o in before.objects && !Is(o, key, id)
    ensures WellFormed(r) && VersionRemoved(before, r, key, id)
    ensures r == before.(objects := r.objects, history := r.history)
    ensures Promoted(before, r, key, id)
    ensures KeyOrdered(b.objects) ==> KeyOrdered(r.objects)
  {
    r := b;
    hide KeyOrdered;
    var candidates := set o | o in b.history && o.key == key;
    assert forall o :: o in candidates <==> Candidate(before, key, id, o);
    if candidates == {} || exists o | o in b.objects :: o.key == key { return; }
    var latest := Latest(candidates);
    if IsMarker(latest) { return; }
    PromotedWellFormed(b, latest);
    if KeyOrdered(b.objects) { InsertOrdered(latest, b.objects); }
    hide WellFormed, Insert, OlderOrEqual, IsMarker;
    r := b.(objects := Insert(latest, b.objects, KEY_LE), history := b.history - {latest});
  }

  /** max_by on the time of modification, then on the version id. */
  method Latest(candidates: set<Object>) returns (latest: Object)
    requires candidates != {}
    ensures latest in candidates && forall o | o in candidates :: OlderOrEqual(o, latest)
  {
    latest :| latest in candidates;
    OlderOrder(latest, latest, latest);
    var left := candidates - {latest};
    while left != {}
      invariant latest in candidates && left <= candidates
      invariant forall o | o in candidates - left :: OlderOrEqual(o, latest)
      decreases left
    {
      hide OlderOrEqual;
      var o :| o in left;
      left := left - {o};
      ghost var previous := latest;
      OlderOrder(o, latest, o);
      if OlderOrEqual(latest, o) { latest := o; }
      forall x | x in candidates && OlderOrEqual(x, previous) ensures OlderOrEqual(x, latest) {
        OlderOrder(x, previous, latest);
      }
    }
  }

  lemma OlderOrder(a: Object, b: Object, c: Object)
    ensures OlderOrEqual(a, a) && (OlderOrEqual(a, b) || OlderOrEqual(b, a))
    ensures OlderOrEqual(a, b) && OlderOrEqual(b, c) ==> OlderOrEqual(a, c)
  {
    var x, y := a.versionId, b.versionId;
    if x.Some? { StrLeTotal(x.value, x.value); }
    if x.Some? && y.Some? {
      StrLeTotal(x.value, y.value);
      if c.versionId.Some? && StrLe(x.value, y.value) && StrLe(y.value, c.versionId.value) {
        StrLeTransitive(x.value, y.value, c.versionId.value);
      }
    }
  }

  /** A version that becomes current moves from the history to the index. */
  lemma PromotedWellFormed(b: Bucket, o: Object)
    requires WellFormed(b) && o in b.history && b.versioning != Off && forall x | x in b.objects :: x.key != o.key
    ensures var b' := b.(objects := Insert(o, b.objects, KEY_LE), history := b.history - {o});
      WellFormed(b') && Items(b') == Items(b) && forall x :: x in b'.objects <==> x == o || x in b.objects
  {
    InsertDistinct(o, b.objects);
  }

  lemma ReclassedItems(b: Bucket, o: Object, c: string, x: Object)
    requires WellFormed(b) && o in b.objects
    ensures x in Items(Reclassed(b, o, c)) <==> (x in Items(b) && x != o) || x == o.(storageClass := c)
    ensures x in Reclassed(b, o, c).objects <==> (x in b.objects && x.key != o.key) || x == o.(storageClass := c)
  {
    ReplaceMembers(b.objects, o.key, Some(o.(storageClass := c)), x);
    assert forall y | y in b.objects && y.key == o.key :: y == o;
  }

  lemma ReclassedWellFormed(b: Bucket, o: Object, c: string)
    requires WellFormed(b) && o in b.objects
    ensures WellFormed(Reclassed(b, o, c))
  {
    ReplaceDistinct(b.objects, o.key, Some(o.(storageClass := c)));
    forall x
      ensures x in Items(Reclassed(b, o, c)) <==> (x in Items(b) && x != o) || x == o.(storageClass := c)
      ensures x in Reclassed(b, o, c).objects ==> x in b.objects || x == o.(storageClass := c)
    {
      ReclassedItems(b, o, c, x);
    }
  }
}
