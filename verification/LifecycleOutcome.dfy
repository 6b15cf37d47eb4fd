/**
 What a pass does to a bucket when no storage call is refused, in any versioning state: rule after
 rule, first the current objects, then the noncurrent versions (src/lifecycle.rs:356-512).
 */
module LifecycleOutcome {
  import opened Common
  import opened LifecycleRules
  import opened LifecycleSpec
  import opened Lifecycle
  import opened LifecycleSteps
  import opened LifecycleSweep

  /** Only the contents of the bucket differ. */
  ghost predicate SameSettings(b: Bucket, b': Bucket) {
    b' == b.(objects := b'.objects, history := b'.history)
  }

  /** The current objects after one rule. */
  ghost predicate CurrentHalf(cal: Calendar, b: Bucket, b': Bucket, rule: Rule, now: int) {
    && WellFormed(b') && SameSettings(b, b') && b'.objects == RulePass(cal, b.objects, rule, now)
    && Fates(cal, b, b', rule, now, |Page(b.objects)|, {})
  }

  /** The noncurrent versions after one rule. */
  ghost predicate NoncurrentHalf(cal: Calendar, b: Bucket, b': Bucket, rule: Rule, now: int) {
    && WellFormed(b') && SameSettings(b, b') && b'.history <= b.history && NoncurrentPass(cal, b, b', rule, now)
    && (b.versioning == Off ==> b' == b)
  }

  ghost predicate RuleOutcome(cal: Calendar, b: Bucket, b': Bucket, rule: Rule, now: int) {
    exists mid :: CurrentHalf(cal, b, mid, rule, now) && NoncurrentHalf(cal, mid, b', rule, now)
  }

  /** A sweep in which nothing was refused. */
  lemma QuietSweep(cal: Calendar, b: Bucket, b': Bucket, rule: Rule, s: Sweep, now: int, log: seq<Refusal>,
                   name: string)
    requires WellFormed(b') && SameSettings(b, b') && (b.versioning == Off ==> b' == b)
    requires Swept(cal, b, b', rule, s, now) && Told(b, rule, s, Since(log, log), name)
    ensures NoncurrentHalf(cal, b, b', rule, now)
  {
    assert Since(log, log) == [] && UnreadKeys([], name) == {} == UntaggedKeys([], name);
    StuckNowhere(s.stuck, name);
    hide WellFormed, Groups, Complete, UnreadKeys, UntaggedKeys, Since;
    CleanSweepIsPass(cal, b, b', rule, s, rule.noncurrentDays.value, now);
    hide Removes, NoncurrentPass;
  }

  lemma NothingSwept(cal: Calendar, b: Bucket, rule: Rule, now: int)
    requires WellFormed(b)
    ensures rule.noncurrentDays == None ==> NoncurrentHalf(cal, b, b, rule, now)
  {
    hide WellFormed;
  }

  /** A rule that is not enabled does nothing. */
  ghost predicate Ruled(cal: Calendar, b: Bucket, b': Bucket, rule: Rule, now: int) {
    if rule.status == Enabled then RuleOutcome(cal, b, b', rule, now) else b' == b
  }

  /** All rules in order. */
  ghost predicate RulesOutcome(cal: Calendar, b: Bucket, b': Bucket, rules: seq<Rule>, now: int)
    decreases |rules|
  {
    if rules == [] then b' == b
    else
      exists mid ::
        RulesOutcome(cal, b, mid, rules[..|rules| - 1], now) && Ruled(cal, mid, b', Last(rules), now)
  }

  lemma OutcomeNone(cal: Calendar, b: Bucket, rules: seq<Rule>, now: int)
    ensures RulesOutcome(cal, b, b, rules[..0], now)
  {
  }

  lemma OutcomeNext(cal: Calendar, b: Bucket, mid: Bucket, b': Bucket, rules: seq<Rule>, i: nat, now: int)
    requires i < |rules| && RulesOutcome(cal, b, mid, rules[..i], now)
    requires Ruled(cal, mid, b', rules[i], now)
    ensures RulesOutcome(cal, b, b', rules[..i + 1], now)
  {
    hide Ruled;
    var upto := rules[..i + 1];
    assert upto[..|upto| - 1] == rules[..i] && Last(upto) == rules[i];
    assert RulesOutcome(cal, b, mid, upto[..|upto| - 1], now);
  }

  // ---- Unversioned buckets ----

  lemma {:induction false} OffOutcome(cal: Calendar, b: Bucket, b': Bucket, rules: seq<Rule>, now: int)
    requires WellFormed(b) && b.versioning == Off && RulesOutcome(cal, b, b', rules, now)
    ensures WellFormed(b') && b' == b.(objects := Pass(cal, b.objects, rules, now))
    decreases |rules|
  {
    hide RulePass, Fates, NoncurrentPass;
    if rules != [] {
      var front, last := rules[..|rules| - 1], Last(rules);
      var mid :| RulesOutcome(cal, b, mid, front, now) && Ruled(cal, mid, b', last, now);
      OffOutcome(cal, b, mid, front, now);
      if last.status == Enabled {
        var half :| CurrentHalf(cal, mid, half, last, now) && NoncurrentHalf(cal, half, b', last, now);
        assert half.history == {} == mid.history;
      } else {
        DisabledPass(cal, mid.objects, last, now);
      }
    }
  }

  lemma DisabledPass(cal: Calendar, objects: seq<Object>, rule: Rule, now: int)
    requires rule.status != Enabled
    ensures RulePass(cal, objects, rule, now) == objects
  {
    DisabledEach(cal, if |objects| <= LISTED then objects else objects[..LISTED], rule, now);
    assert |objects| > LISTED ==> objects[..LISTED] + objects[LISTED..] == objects;
  }

  lemma {:induction false} DisabledEach(cal: Calendar, objects: seq<Object>, rule: Rule, now: int)
    requires rule.status != Enabled
    ensures ApplyEach(cal, objects, rule, now) == objects
  {
    if objects != [] {
      DisabledEach(cal, objects[..|objects| - 1], rule, now);
    }
  }

  // ---- Listings that stay complete ----

  ghost function KeysIn(b: Bucket): set<string> { set o | o in Items(b) :: o.key }

  lemma {:induction false} IndexSize(objects: seq<Object>, keys: set<string>)
    requires DistinctKeys(objects) && forall o | o in objects :: o.key in keys
    ensures |objects| <= |keys|
  {
    if objects != [] {
      var front, last := objects[..|objects| - 1], Last(objects);
      assert last in objects;
      forall o | o in front ensures o.key in keys - {last.key} {
        var i :| 0 <= i < |front| && front[i] == o;
        assert objects[i].key != objects[|objects| - 1].key;
        assert o in objects;
      }
      IndexSize(front, keys - {last.key});
    }
  }

  /** With few enough keys in all its versions, a bucket is listed whole. */
  lemma ListedWhole(b: Bucket, keys: set<string>)
    requires WellFormed(b) && KeysIn(b) <= keys && |keys| <= LISTED
    ensures Page(b.objects) == b.objects
  {
    forall o | o in b.objects ensures o.key in keys { assert o in Items(b) && o.key in KeysIn(b); }
    hide WellFormed;
    WellFormedKeys(b);
    IndexSize(b.objects, keys);
  }

  lemma CurrentHalfKeys(cal: Calendar, b: Bucket, b': Bucket, rule: Rule, now: int)
    requires CurrentHalf(cal, b, b', rule, now)
    ensures KeysIn(b') <= KeysIn(b)
  {
    hide WellFormed, RulePass, Careful, Dropped, Apply, Survives;
    forall y | y in Items(b') ensures y.key in KeysIn(b) {
      assert Accounted(cal, b, rule, now, |Page(b.objects)|, y);
      if ExpiresBefore(cal, b, rule, now, |Page(b.objects)|, y.key) {
        var j :| 0 <= j < |Page(b.objects)| && Page(b.objects)[j].key == y.key;
        ListedIsItem(b, j);
      }
    }
  }

  lemma NoncurrentHalfKeys(cal: Calendar, b: Bucket, b': Bucket, rule: Rule, now: int)
    requires NoncurrentHalf(cal, b, b', rule, now)
    ensures KeysIn(b') <= KeysIn(b)
  {
    hide WellFormed, NoncurrentDue;
  }

  // ---- Protected versions over a whole pass ----

  /** The key's current version and its exposed version are both still there, perhaps in other classes. */
  ghost predicate Standing(b: Bucket, c: Object, x: Object) {
    (exists c' | c' in b.objects :: Same(c, c')) && (exists x' | x' in b.history :: Same(x, x'))
  }

  /** A current version and a protected null version beside it. */
  ghost predicate Pair(cal: Calendar, c: Object, x: Object, now: int) {
    c.key == x.key && x.versionId == Some(NULL) && c.versionId != Some(NULL) && Protected(cal, x, now)
  }

  lemma SameApply(cal: Calendar, c: Object, c': Object, rule: Rule, now: int)
    requires Same(c, c')
    ensures Apply(cal, c', rule, now) == None <==> !Protected(cal, c, now) && ExpiryDue(cal, c, rule, now)
    ensures var r := Apply(cal, c', rule, now);
      r.Some? ==> Same(c', r.value)
  {
    SameProtected(cal, c, c', now);
    hide Protected, ShouldExpire, Matches, FirstDue, ClassName;
  }

  lemma SameProtected(cal: Calendar, c: Object, c': Object, now: int)
    requires Same(c, c')
    ensures Protected(cal, c', now) <==> Protected(cal, c, now)
  {
  }

  lemma {:induction false} ApplyEachKeeps(cal: Calendar, objects: seq<Object>, rule: Rule, now: int, o: Object)
    requires o in objects && Apply(cal, o, rule, now).Some?
    ensures Apply(cal, o, rule, now).value in ApplyEach(cal, objects, rule, now)
  {
    hide Apply;
    if o != Last(objects) {
      assert objects == objects[..|objects| - 1] + [Last(objects)];
      ApplyEachKeeps(cal, objects[..|objects| - 1], rule, now, o);
    }
  }

  /** What is gone stays gone. */
  lemma CurrentStaysGone(cal: Calendar, b: Bucket, b': Bucket, rule: Rule, now: int, x: Object)
    requires CurrentHalf(cal, b, b', rule, now) && Protected(cal, x, now) && !Survives(x, b)
    ensures !Survives(x, b')
  {
    hide WellFormed, RulePass, Careful, Dropped, Apply, Items, ExpiresBefore, Marker;
    forall y | y in Items(b') ensures !Same(x, y) {
      assert Accounted(cal, b, rule, now, |Page(b.objects)|, y);
      if w :| w in Items(b) && Same(w, y) {
        assert Same(x, y) ==> Same(x, w);
      } else {
        MarkerIsNotSame(cal, x, y.key, y.versionId.value, now);
      }
    }
  }

  /** The expiry of the current version ends the null version beside it. */
  lemma CurrentLosesPair(cal: Calendar, b: Bucket, b': Bucket, rule: Rule, now: int, c: Object, x: Object)
    requires CurrentHalf(cal, b, b', rule, now) && b.versioning == Suspended && Page(b.objects) == b.objects
    requires Pair(cal, c, x, now) && Standing(b, c, x) && !Protected(cal, c, now) && ExpiryDue(cal, c, rule, now)
    ensures !Survives(x, b')
  {
    hide WellFormed, RulePass, Careful, Page, Marker, Protected, ExpiryDue, Apply, Accounted;
    var c' :| c' in b.objects && Same(c, c');
    var x' :| x' in b.history && Same(x, x');
    SameApply(cal, c, c', rule, now);
    SameProtected(cal, x, x', now);
    MarkerIsNotSame(cal, x', x'.key, NULL, now);
    var j :| 0 <= j < |b.objects| && b.objects[j] == c';
    assert ExpiresBefore(cal, b, rule, now, |Page(b.objects)|, x'.key);
    assert x' in Items(b) && Dropped(cal, b, rule, now, |Page(b.objects)|, x');
    hide Dropped, ExpiresBefore, Items;
    assert !Survives(x', b');
    forall y | y in Items(b') ensures !Same(x, y) {
      assert Same(x, y) ==> Same(x', y);
    }
  }

  /** With a current version beside it, the null version is in the history. */
  lemma PairStands(cal: Calendar, b: Bucket, c: Object, x: Object, now: int, c': Object, x': Object)
    requires WellFormed(b) && Pair(cal, c, x, now) && c' in b.objects && Same(c, c') && x' in Items(b) && Same(x, x')
    ensures Standing(b, c, x)
  {
    CurrentIs(b, c');
    hide WellFormed, Protected, CurrentOf;
  }

  lemma CurrentKeepsPair(cal: Calendar, b: Bucket, b': Bucket, rule: Rule, now: int, c: Object, x: Object)
    requires WellFormed(b) && CurrentHalf(cal, b, b', rule, now) && Page(b.objects) == b.objects
    requires Pair(cal, c, x, now) && Standing(b, c, x) && (Protected(cal, c, now) || !ExpiryDue(cal, c, rule, now))
    ensures Standing(b', c, x)
  {
    var c' :| c' in b.objects && Same(c, c');
    var x' :| x' in b.history && Same(x, x');
    SameApply(cal, c, c', rule, now);
    CurrentIs(b, c');
    hide WellFormed, Careful, Marker, Protected, ExpiryDue, Apply, Accounted, CurrentOf;
    assert !ExpiresBefore(cal, b, rule, now, |Page(b.objects)|, x'.key);
    assert x' in Items(b) && Survives(x', b');
    var y :| y in Items(b') && Same(x', y);
    ApplyEachKeeps(cal, b.objects, rule, now, c');
    var r := Apply(cal, c', rule, now).value;
    assert r in b'.objects && Same(c, r) && Same(x, y);
    hide Fates, RulePass;
    PairStands(cal, b', c, x, now, r, y);
  }

  lemma NoncurrentStaysGone(cal: Calendar, b: Bucket, b': Bucket, rule: Rule, now: int, x: Object)
    requires NoncurrentHalf(cal, b, b', rule, now) && !Survives(x, b)
    ensures !Survives(x, b')
  {
    hide WellFormed, NoncurrentDue, Items;
  }

  lemma NoncurrentKeepsPair(cal: Calendar, b: Bucket, b': Bucket, rule: Rule, now: int, c: Object, x: Object)
    requires WellFormed(b) && NoncurrentHalf(cal, b, b', rule, now) && Pair(cal, c, x, now) && Standing(b, c, x)
    ensures Standing(b', c, x)
  {
    var c' :| c' in b.objects && Same(c, c');
    var x' :| x' in b.history && Same(x, x');
    SameProtected(cal, x, x', now);
    CurrentIs(b, c');
    assert c' in Items(b) && x' in Items(b) && c' !in b.history;
    hide WellFormed, Protected, CurrentOf, Matches;
    assert !NoncurrentDue(cal, b, rule, c', now) && !NoncurrentDue(cal, b, rule, x', now);
    hide NoncurrentDue;
    assert c' in Items(b') && x' in Items(b');
    PairStands(cal, b', c, x, now, c', x');
  }

  /** One rule: a standing pair falls exactly when the current version expires. */
  lemma RulePairFate(cal: Calendar, b: Bucket, b': Bucket, rule: Rule, now: int, keys: set<string>, c: Object,
                     x: Object)
    requires WellFormed(b) && RuleOutcome(cal, b, b', rule, now) && b.versioning == Suspended
    requires KeysIn(b) <= keys && |keys| <= LISTED && Pair(cal, c, x, now)
    ensures WellFormed(b') && b'.versioning == Suspended && KeysIn(b') <= keys
    ensures !Survives(x, b) ==> !Survives(x, b')
    ensures Standing(b, c, x) && !Protected(cal, c, now) && ExpiryDue(cal, c, rule, now) ==> !Survives(x, b')
    ensures Standing(b, c, x) && (Protected(cal, c, now) || !ExpiryDue(cal, c, rule, now)) ==> Standing(b', c, x)
  {
    var half :| CurrentHalf(cal, b, half, rule, now) && NoncurrentHalf(cal, half, b', rule, now);
    CurrentHalfKeys(cal, b, half, rule, now);
    NoncurrentHalfKeys(cal, half, b', rule, now);
    ListedWhole(b, keys);
    hide KeysIn, Page, Fates, RulePass, NoncurrentPass, Survives, Standing, Protected, ExpiryDue, WellFormed;
    if !Survives(x, b) {
      CurrentStaysGone(cal, b, half, rule, now, x);
      NoncurrentStaysGone(cal, half, b', rule, now, x);
    }
    if Standing(b, c, x) {
      if !Protected(cal, c, now) && ExpiryDue(cal, c, rule, now) {
        CurrentLosesPair(cal, b, half, rule, now, c, x);
        NoncurrentStaysGone(cal, half, b', rule, now, x);
      } else {
        CurrentKeepsPair(cal, b, half, rule, now, c, x);
        NoncurrentKeepsPair(cal, half, b', rule, now, c, x);
      }
    }
  }

  lemma {:induction false} PairFate(cal: Calendar, b: Bucket, b': Bucket, rules: seq<Rule>, now: int, keys: set<string>,
                                    c: Object, x: Object)
    requires WellFormed(b) && RulesOutcome(cal, b, b', rules, now) && b.versioning == Suspended
    requires KeysIn(b) <= keys && |keys| <= LISTED && Pair(cal, c, x, now) && Standing(b, c, x)
    ensures WellFormed(b') && b'.versioning == Suspended && KeysIn(b') <= keys
    ensures if Expires(cal, c, rules, now) then !Survives(x, b') else Standing(b', c, x)
    decreases |rules|
  {
    hide KeysIn, Survives, Standing, Protected, ExpiryDue, WellFormed, RuleOutcome, Pair;
    if rules != [] {
      var front, last := rules[..|rules| - 1], Last(rules);
      var mid :| RulesOutcome(cal, b, mid, front, now) && Ruled(cal, mid, b', last, now);
      PairFate(cal, b, mid, front, now, keys, c, x);
      ExpiresSplit(cal, c, front, last, now);
      assert rules == front + [last];
      hide Expires;
      if last.status == Enabled {
        RulePairFate(cal, mid, b', last, now, keys, c, x);
      } else {
        DisabledNotDue(cal, c, last, now);
      }
    }
  }

  lemma ExpiresSplit(cal: Calendar, c: Object, front: seq<Rule>, last: Rule, now: int)
    ensures Expires(cal, c, front + [last], now) <==>
      Expires(cal, c, front, now) || (!Protected(cal, c, now) && ExpiryDue(cal, c, last, now))
  {
    hide Protected, ExpiryDue;
    if Expires(cal, c, front, now) {
      var rule :| rule in front && ExpiryDue(cal, c, rule, now);
      assert rule in front + [last];
    }
    assert last in front + [last];
  }

  lemma DisabledNotDue(cal: Calendar, c: Object, rule: Rule, now: int)
    requires rule.status != Enabled
    ensures !ExpiryDue(cal, c, rule, now)
  {
  }

  lemma {:induction false} OutcomeCareful(cal: Calendar, b: Bucket, b': Bucket, rules: seq<Rule>, now: int)
    requires RulesOutcome(cal, b, b', rules, now)
    ensures Careful(cal, b, b', now) && b'.versioning == b.versioning
    decreases |rules|
  {
    CarefulSame(cal, b, now);
    hide Careful, RulePass, WellFormed;
    if rules != [] {
      var front, last := rules[..|rules| - 1], Last(rules);
      var mid :| RulesOutcome(cal, b, mid, front, now) && Ruled(cal, mid, b', last, now);
      OutcomeCareful(cal, b, mid, front, now);
      if last.status == Enabled {
        var half :| CurrentHalf(cal, mid, half, last, now) && NoncurrentHalf(cal, half, b', last, now);
        hide NoncurrentHalf, Dropped, Accounted;
        NoncurrentCareful(cal, half, b', last, now);
        CarefulTransitive(cal, mid, half, b', now);
        CarefulTransitive(cal, b, mid, b', now);
      }
    }
  }

  lemma NoncurrentCareful(cal: Calendar, b: Bucket, b': Bucket, rule: Rule, now: int)
    requires NoncurrentHalf(cal, b, b', rule, now)
    ensures Careful(cal, b, b', now) && b'.versioning == b.versioning
  {
    hide WellFormed, Protected, Matches;
    forall o | o in Items(b) && Protected(cal, o, now) && !Exposed(b, o) ensures Spared(o, b') {
      assert !NoncurrentDue(cal, b, rule, o, now);
      assert Same(o, o);
    }
  }

  /**
   A whole pass in which no call is refused, over a bucket with at most 1000 keys: a protected
   version of a key with a current version is lost exactly when it is exposed and that current
   version expires under some rule.
   */
  lemma PassSparesExactly(cal: Calendar, b: Bucket, b': Bucket, rules: seq<Rule>, now: int, c: Object, x: Object)
    requires WellFormed(b) && RulesOutcome(cal, b, b', rules, now) && |KeysIn(b)| <= LISTED
    requires c in b.objects && x in Items(b) && x.key == c.key && Protected(cal, x, now)
    ensures Survives(x, b') <==> !(Exposed(b, x) && Expires(cal, c, rules, now))
  {
    hide Protected, Expires, RulesOutcome, KeysIn;
    assert Same(x, x) && Same(c, c);
    if Exposed(b, x) {
      assert c in Items(b) && c != x;
      assert Pair(cal, c, x, now) && Standing(b, c, x);
      hide WellFormed, Pair;
      PairFate(cal, b, b', rules, now, KeysIn(b), c, x);
      if Standing(b', c, x) {
        var x' :| x' in b'.history && Same(x, x');
        assert x' in Items(b');
      }
    } else {
      OutcomeCareful(cal, b, b', rules, now);
      assert Spared(x, b');
    }
  }
}
