/**
 What a lifecycle pass does to the current objects of an unversioned bucket, rule by rule as the
 executor works (src/lifecycle.rs:356-477), and object by object as the rules promise. The two
 agree as long as one listing covers the bucket.
 */
module LifecycleSpec {
  import opened Common
  import opened Sorting
  import opened LifecycleRules

  /** list_objects without a limit returns one page. */
  const LISTED: nat := 1000

  predicate DistinctKeys(objects: seq<Object>) {
    forall i, j | 0 <= i < j < |objects| :: objects[i].key != objects[j].key
  }

  // ---- One object, one rule ----

  /** An enabled rule that selects the object and whose expiration is due. */
  predicate ExpiryDue(cal: Calendar, o: Object, rule: Rule, now: int) {
    && rule.status == Enabled && Matches(rule, o.key, o.tags)
    && rule.expiration.Some? && ShouldExpire(cal, o.lastModified, rule.expiration.value, now)
  }

  /** `transitions[i]` is due, and none before it. */
  predicate DueFirst(cal: Calendar, lastModified: int, transitions: seq<Transition>, now: int, i: nat)
    requires i < |transitions|
  {
    && ShouldTransition(cal, lastModified, transitions[i], now)
    && forall j | 0 <= j < i :: !ShouldTransition(cal, lastModified, transitions[j], now)
  }

  /** Iterator::find: the first transition that is due. */
  function FirstDue(cal: Calendar, lastModified: int, transitions: seq<Transition>, now: int): (r: Option<Transition>)
    ensures r.Some? ==> exists i | 0 <= i < |transitions| ::
      transitions[i] == r.value && DueFirst(cal, lastModified, transitions, now, i)
    ensures r.None? ==> forall t | t in transitions :: !ShouldTransition(cal, lastModified, t, now)
  {
    assert forall i | 0 < i < |transitions| :: transitions[i] == transitions[1..][i - 1];
    if transitions == [] then None
    else if ShouldTransition(cal, lastModified, transitions[0], now) then Some(transitions[0])
    else FirstDue(cal, lastModified, transitions[1..], now)
  }

  /** The class an enabled rule moves the object to: none if its expiry is due. */
  function Move(cal: Calendar, o: Object, rule: Rule, now: int): Option<string> {
    if rule.status == Enabled && Matches(rule, o.key, o.tags) && !ExpiryDue(cal, o, rule, now) then
      match FirstDue(cal, o.lastModified, rule.transitions, now)
      case None => None
      case Some(t) => Some(ClassName(t.storageClass))
    else None
  }

  /** What one rule leaves of an object. */
  function Apply(cal: Calendar, o: Object, rule: Rule, now: int): Option<Object> {
    if ExpiryDue(cal, o, rule, now) then (if Protected(cal, o, now) then Some(o) else None)
    else match Move(cal, o, rule, now) case None => Some(o) case Some(c) => Some(o.(storageClass := c))
  }

  // ---- What the rules promise ----

  /** Some rule expires the object and nothing protects it. */
  predicate Expires(cal: Calendar, o: Object, rules: seq<Rule>, now: int) {
    !Protected(cal, o, now) && exists rule | rule in rules :: ExpiryDue(cal, o, rule, now)
  }

  /** The class set by the last rule that moves the object. */
  function FinalClass(cal: Calendar, o: Object, rules: seq<Rule>, now: int): string {
    if rules == [] then o.storageClass
    else match Move(cal, o, Last(rules), now)
      case Some(c) => c
      case None => FinalClass(cal, o, rules[..|rules| - 1], now)
  }

  /** What the rules promise for one object. */
  function Outcome(cal: Calendar, o: Object, rules: seq<Rule>, now: int): seq<Object> {
    if Expires(cal, o, rules, now) then [] else [o.(storageClass := FinalClass(cal, o, rules, now))]
  }

  /** What the rules promise for a bucket. */
  function Promised(cal: Calendar, objects: seq<Object>, rules: seq<Rule>, now: int): seq<Object> {
    if objects == [] then []
    else Promised(cal, objects[..|objects| - 1], rules, now) + Outcome(cal, Last(objects), rules, now)
  }

  // ---- What the executor does ----

  function Kept(r: Option<Object>): seq<Object> { if r.Some? then [r.value] else [] }

  /** A rule applied to each of `objects`. */
  function ApplyEach(cal: Calendar, objects: seq<Object>, rule: Rule, now: int): seq<Object> {
    if objects == [] then []
    else ApplyEach(cal, objects[..|objects| - 1], rule, now) + Kept(Apply(cal, Last(objects), rule, now))
  }

  /** A rule applied to the listed part of a bucket. */
  function RulePass(cal: Calendar, objects: seq<Object>, rule: Rule, now: int): seq<Object> {
    if |objects| <= LISTED then ApplyEach(cal, objects, rule, now)
    else ApplyEach(cal, objects[..LISTED], rule, now) + objects[LISTED..]
  }

  function Pass(cal: Calendar, objects: seq<Object>, rules: seq<Rule>, now: int): seq<Object> {
    if rules == [] then objects
    else RulePass(cal, Pass(cal, objects, rules[..|rules| - 1], now), Last(rules), now)
  }

  // ---- The pass keeps its promise on listed buckets ----

  /** Rules only look at attributes that moving an object between classes keeps. */
  lemma ClassDoesNotMatter(cal: Calendar, o: Object, c: string, rule: Rule, now: int)
    ensures var o' := o.(storageClass := c);
      && (ExpiryDue(cal, o', rule, now) <==> ExpiryDue(cal, o, rule, now))
      && Move(cal, o', rule, now) == Move(cal, o, rule, now)
      && (Protected(cal, o', now) <==> Protected(cal, o, now))
  {
  }

  lemma MoreRules(cal: Calendar, o: Object, rules: seq<Rule>, now: int)
    requires rules != []
    ensures Expires(cal, o, rules, now) <==>
      Expires(cal, o, rules[..|rules| - 1], now) || (!Protected(cal, o, now) && ExpiryDue(cal, o, Last(rules), now))
  {
    hide ExpiryDue, Protected;
    assert rules == rules[..|rules| - 1] + [Last(rules)];
  }

  /** One more rule, one object. */
  lemma OutcomeStep(cal: Calendar, o: Object, rules: seq<Rule>, now: int)
    requires rules != []
    ensures ApplyEach(cal, Outcome(cal, o, rules[..|rules| - 1], now), Last(rules), now) == Outcome(cal, o, rules, now)
  {
    var front := rules[..|rules| - 1];
    MoreRules(cal, o, rules, now);
    ClassDoesNotMatter(cal, o, FinalClass(cal, o, front, now), Last(rules), now);
    hide ExpiryDue, Protected, Expires, Move;
    var before := Outcome(cal, o, front, now);
    if before != [] {
      assert before[..0] == [];
    }
  }

  lemma {:induction false} ApplyEachConcat(cal: Calendar, a: seq<Object>, b: seq<Object>, rule: Rule, now: int)
    ensures ApplyEach(cal, a + b, rule, now) == ApplyEach(cal, a, rule, now) + ApplyEach(cal, b, rule, now)
  {
    hide Apply, Kept;
    if b == [] {
      assert a + b == a;
    } else {
      var front := b[..|b| - 1];
      ApplyEachConcat(cal, a, front, rule, now);
      assert (a + b)[..|a + b| - 1] == a + front && Last(a + b) == Last(b);
      Associate(ApplyEach(cal, a, rule, now), ApplyEach(cal, front, rule, now), Kept(Apply(cal, Last(b), rule, now)));
    }
  }

  lemma {:induction false} PromisedStep(cal: Calendar, objects: seq<Object>, rules: seq<Rule>, now: int)
    requires rules != []
    ensures ApplyEach(cal, Promised(cal, objects, rules[..|rules| - 1], now), Last(rules), now) ==
      Promised(cal, objects, rules, now)
  {
    hide Outcome, Apply;
    if objects != [] {
      var front := objects[..|objects| - 1];
      PromisedStep(cal, front, rules, now);
      OutcomeStep(cal, Last(objects), rules, now);
      ApplyEachConcat(cal, Promised(cal, front, rules[..|rules| - 1], now),
                      Outcome(cal, Last(objects), rules[..|rules| - 1], now), Last(rules), now);
    }
  }

  lemma OutcomeShort(cal: Calendar, o: Object, rules: seq<Rule>, now: int)
    ensures |Outcome(cal, o, rules, now)| <= 1 && (rules == [] ==> Outcome(cal, o, rules, now) == [o])
  {
    hide ExpiryDue, Protected, Move;
  }

  lemma {:induction false} PromisedShorter(cal: Calendar, objects: seq<Object>, rules: seq<Rule>, now: int)
    ensures |Promised(cal, objects, rules, now)| <= |objects|
    ensures rules == [] ==> Promised(cal, objects, rules, now) == objects
  {
    hide Outcome;
    if objects != [] {
      PromisedShorter(cal, objects[..|objects| - 1], rules, now);
      OutcomeShort(cal, Last(objects), rules, now);
    }
  }

  /** On a bucket one listing covers, a pass does exactly what the rules promise. */
  lemma {:induction false} PassKeepsPromise(cal: Calendar, objects: seq<Object>, rules: seq<Rule>, now: int)
    requires |objects| <= LISTED
    ensures Pass(cal, objects, rules, now) == Promised(cal, objects, rules, now)
  {
    hide Outcome, Apply, ApplyEach;
    PromisedShorter(cal, objects, rules, now);
    if rules != [] {
      PassKeepsPromise(cal, objects, rules[..|rules| - 1], now);
      PromisedShorter(cal, objects, rules[..|rules| - 1], now);
      PromisedStep(cal, objects, rules, now);
    }
  }

  // ---- Idempotence, and eager expiry ----

  lemma {:induction false} FinalClassAgain(cal: Calendar, o: Object, c: string, rules: seq<Rule>, now: int)
    requires c == FinalClass(cal, o, rules, now)
    ensures FinalClass(cal, o.(storageClass := c), rules, now) == c
    ensures Expires(cal, o.(storageClass := c), rules, now) <==> Expires(cal, o, rules, now)
  {
    forall rule ensures ExpiryDue(cal, o.(storageClass := c), rule, now) <==> ExpiryDue(cal, o, rule, now) {
      ClassDoesNotMatter(cal, o, c, rule, now);
    }
    hide ExpiryDue;
    FinalClassFrom(cal, o, c, rules, now);
  }

  /** The starting class only matters when no rule moves the object. */
  lemma {:induction false} FinalClassFrom(cal: Calendar, o: Object, c: string, rules: seq<Rule>, now: int)
    ensures FinalClass(cal, o.(storageClass := c), rules, now) == c
      || FinalClass(cal, o.(storageClass := c), rules, now) == FinalClass(cal, o, rules, now)
  {
    hide Move;
    if rules != [] {
      ClassDoesNotMatter(cal, o, c, Last(rules), now);
      FinalClassFrom(cal, o, c, rules[..|rules| - 1], now);
    }
  }

  lemma OutcomeAgain(cal: Calendar, o: Object, rules: seq<Rule>, now: int)
    ensures Promised(cal, Outcome(cal, o, rules, now), rules, now) == Outcome(cal, o, rules, now)
  {
    FinalClassAgain(cal, o, FinalClass(cal, o, rules, now), rules, now);
    hide Expires, FinalClass;
    var r := Outcome(cal, o, rules, now);
    if r != [] {
      assert r[..0] == [];
    }
  }

  lemma {:induction false} PromisedConcat(cal: Calendar, a: seq<Object>, b: seq<Object>, rules: seq<Rule>, now: int)
    ensures Promised(cal, a + b, rules, now) == Promised(cal, a, rules, now) + Promised(cal, b, rules, now)
  {
    hide Outcome;
    if b == [] {
      assert a + b == a;
    } else {
      var front := b[..|b| - 1];
      PromisedConcat(cal, a, front, rules, now);
      assert (a + b)[..|a + b| - 1] == a + front && Last(a + b) == Last(b);
      Associate(Promised(cal, a, rules, now), Promised(cal, front, rules, now), Outcome(cal, Last(b), rules, now));
    }
  }

  lemma {:induction false} PromisedAgain(cal: Calendar, objects: seq<Object>, rules: seq<Rule>, now: int)
    ensures Promised(cal, Promised(cal, objects, rules, now), rules, now) == Promised(cal, objects, rules, now)
  {
    hide Outcome;
    if objects != [] {
      var front := objects[..|objects| - 1];
      PromisedAgain(cal, front, rules, now);
      OutcomeAgain(cal, Last(objects), rules, now);
      PromisedConcat(cal, Promised(cal, front, rules, now), Outcome(cal, Last(objects), rules, now), rules, now);
    }
  }

  /** A second pass at the same instant changes nothing. */
  lemma PassIsIdempotent(cal: Calendar, objects: seq<Object>, rules: seq<Rule>, now: int)
    requires |objects| <= LISTED
    ensures Pass(cal, Pass(cal, objects, rules, now), rules, now) == Pass(cal, objects, rules, now)
  {
    hide Promised, Pass;
    PassKeepsPromise(cal, objects, rules, now);
    PromisedShorter(cal, objects, rules, now);
    PassKeepsPromise(cal, Promised(cal, objects, rules, now), rules, now);
    PromisedAgain(cal, objects, rules, now);
  }

  /** The bucket after an eager check of `key`. */
  function Eager(cal: Calendar, objects: seq<Object>, key: string, rules: seq<Rule>, now: int): seq<Object> {
    Filter(objects, Unexpired(cal, key, rules, now))
  }

  function Unexpired(cal: Calendar, key: string, rules: seq<Rule>, now: int): Object -> bool {
    (o: Object) => !(o.key == key && Expires(cal, o, rules, now))
  }

  function EagerAll(cal: Calendar, objects: seq<Object>, keys: seq<string>, rules: seq<Rule>, now: int): seq<Object> {
    if keys == [] then objects
    else Eager(cal, EagerAll(cal, objects, keys[..|keys| - 1], rules, now), Last(keys), rules, now)
  }

  /** Dropping what expires anyway does not change the promise. */
  lemma {:induction false} EagerKeepsPromise(cal: Calendar, objects: seq<Object>, key: string, rules: seq<Rule>,
                                             now: int)
    ensures Promised(cal, Eager(cal, objects, key, rules, now), rules, now) == Promised(cal, objects, rules, now)
    ensures |Eager(cal, objects, key, rules, now)| <= |objects|
  {
    hide Expires, FinalClass;
    if objects != [] {
      var head, rest := [objects[0]], objects[1..];
      assert head + rest == objects;
      EagerKeepsPromise(cal, rest, key, rules, now);
      PromisedConcat(cal, head, rest, rules, now);
      PromisedConcat(cal, head, Eager(cal, rest, key, rules, now), rules, now);
      assert head[..0] == [];
      assert Promised(cal, head, rules, now) == Outcome(cal, objects[0], rules, now);
    }
  }

  /** Eager checks of any keys in any order, then a pass, end where the pass alone ends. */
  lemma {:induction false} EagerThenPass(cal: Calendar, objects: seq<Object>, keys: seq<string>, rules: seq<Rule>,
                                         now: int)
    requires |objects| <= LISTED
    ensures |EagerAll(cal, objects, keys, rules, now)| <= |objects|
    ensures Pass(cal, EagerAll(cal, objects, keys, rules, now), rules, now) == Pass(cal, objects, rules, now)
  {
    hide Promised, Pass, Eager;
    if keys != [] {
      var before := EagerAll(cal, objects, keys[..|keys| - 1], rules, now);
      EagerThenPass(cal, objects, keys[..|keys| - 1], rules, now);
      EagerKeepsPromise(cal, before, Last(keys), rules, now);
      PassKeepsPromise(cal, before, rules, now);
      PassKeepsPromise(cal, Eager(cal, before, Last(keys), rules, now), rules, now);
    }
  }

  // ---- Larger buckets ----

  /** One rule keeps its promise exactly when it leaves every unlisted object alone. */
  lemma RuleExactly(cal: Calendar, objects: seq<Object>, rule: Rule, now: int)
    ensures RulePass(cal, objects, rule, now) == ApplyEach(cal, objects, rule, now) <==>
      forall i | LISTED <= i < |objects| :: Apply(cal, objects[i], rule, now) == Some(objects[i])
  {
    hide ApplyEach, Apply;
    if |objects| > LISTED {
      var listed, rest := objects[..LISTED], objects[LISTED..];
      assert objects == listed + rest;
      ApplyEachConcat(cal, listed, rest, rule, now);
      UntouchedExactly(cal, rest, rule, now);
      SameTail(ApplyEach(cal, listed, rule, now), rest, ApplyEach(cal, rest, rule, now));
      UnlistedIndices(cal, objects, rule, now);
    }
  }

  lemma UnlistedIndices(cal: Calendar, objects: seq<Object>, rule: Rule, now: int)
    requires |objects| > LISTED
    ensures var rest := objects[LISTED..];
      (forall i | 0 <= i < |rest| :: Apply(cal, rest[i], rule, now) == Some(rest[i])) <==>
      forall i | LISTED <= i < |objects| :: Apply(cal, objects[i], rule, now) == Some(objects[i])
  {
    hide Apply;
    var rest := objects[LISTED..];
    assert forall i | LISTED <= i < |objects| :: objects[i] == rest[i - LISTED];
    assert forall i | 0 <= i < |rest| :: rest[i] == objects[i + LISTED];
  }

  lemma {:induction false} ApplyEachShorter(cal: Calendar, objects: seq<Object>, rule: Rule, now: int)
    ensures |ApplyEach(cal, objects, rule, now)| <= |objects|
  {
    hide Apply;
    if objects != [] {
      ApplyEachShorter(cal, objects[..|objects| - 1], rule, now);
    }
  }

  lemma {:induction false} UntouchedExactly(cal: Calendar, objects: seq<Object>, rule: Rule, now: int)
    ensures ApplyEach(cal, objects, rule, now) == objects <==>
      forall i | 0 <= i < |objects| :: Apply(cal, objects[i], rule, now) == Some(objects[i])
  {
    hide Apply;
    if objects == [] {
      assert ApplyEach(cal, objects, rule, now) == [];
    } else {
      var front := objects[..|objects| - 1];
      UntouchedExactly(cal, front, rule, now);
      ApplyEachShorter(cal, front, rule, now);
      EachLast(cal, objects, rule, now);
      var a, r := ApplyEach(cal, front, rule, now), Apply(cal, Last(objects), rule, now);
      SplitLast(a, Kept(r), objects);
      hide ApplyEach;
      assert Kept(r) == [Last(objects)] <==> r == Some(Last(objects));
      assert forall i | 0 <= i < |front| :: front[i] == objects[i];
    }
  }

  lemma EachLast(cal: Calendar, objects: seq<Object>, rule: Rule, now: int)
    requires objects != []
    ensures ApplyEach(cal, objects, rule, now) ==
      ApplyEach(cal, objects[..|objects| - 1], rule, now) + Kept(Apply(cal, Last(objects), rule, now))
  {
    hide Apply;
  }

  lemma SplitLast<T>(a: seq<T>, b: seq<T>, s: seq<T>)
    requires s != [] && |a| <= |s| - 1 && |b| <= 1
    ensures a + b == s <==> a == s[..|s| - 1] && b == [Last(s)]
  {
    if a + b == s {
      assert a == (a + b)[..|s| - 1] && b == (a + b)[|s| - 1..];
    }
  }

  const EXPIRE_ALL := Rule(Enabled, None, Some(Expiration(Some(0), None)), None, [])

  /** Unprotected objects that are not from the future, every one of which the rule above expires. */
  ghost predicate Stale(cal: Calendar, objects: seq<Object>, now: int) {
    forall o | o in objects :: !Protected(cal, o, now) && o.lastModified <= now
  }

  lemma {:induction false} AllStaleGo(cal: Calendar, objects: seq<Object>, now: int)
    requires Stale(cal, objects, now)
    ensures ApplyEach(cal, objects, EXPIRE_ALL, now) == []
    ensures Promised(cal, objects, [EXPIRE_ALL], now) == []
  {
    if objects != [] {
      AllStaleGo(cal, objects[..|objects| - 1], now);
      var o := Last(objects);
      assert o in objects;
      DueByDaysMeans(o.lastModified, 0, now);
      assert ExpiryDue(cal, o, EXPIRE_ALL, now);
      assert EXPIRE_ALL in [EXPIRE_ALL];
      hide Protected, ExpiryDue;
      assert Expires(cal, o, [EXPIRE_ALL], now);
    }
  }

  lemma SingleRulePass(cal: Calendar, objects: seq<Object>, rule: Rule, now: int)
    ensures Pass(cal, objects, [rule], now) == RulePass(cal, objects, rule, now)
  {
    assert [rule][..0] == [];
  }

  /**
   Beyond one listing the promise fails: a rule that expires everything removes the first 1000
   objects and keeps the others, and the next pass goes on where this one stopped.
   */
  lemma LargeBucketKeepsExpired(cal: Calendar, objects: seq<Object>, now: int)
    requires |objects| > LISTED && Stale(cal, objects, now)
    ensures Promised(cal, objects, [EXPIRE_ALL], now) == []
    ensures Pass(cal, objects, [EXPIRE_ALL], now) == objects[LISTED..] != []
    ensures |Pass(cal, objects[LISTED..], [EXPIRE_ALL], now)| < |objects[LISTED..]|
  {
    AllStaleGo(cal, objects, now);
    StaleRulePass(cal, objects, now);
    StaleRulePass(cal, objects[LISTED..], now);
    hide Promised, RulePass, Pass;
    SingleRulePass(cal, objects, EXPIRE_ALL, now);
    SingleRulePass(cal, objects[LISTED..], EXPIRE_ALL, now);
  }

  lemma StaleRulePass(cal: Calendar, objects: seq<Object>, now: int)
    requires Stale(cal, objects, now)
    ensures RulePass(cal, objects, EXPIRE_ALL, now) == if |objects| <= LISTED then [] else objects[LISTED..]
  {
    hide ApplyEach, Protected;
    AllStaleGo(cal, if |objects| <= LISTED then objects else objects[..LISTED], now);
  }

  /** Every pass over `n` objects does what the rules promise. */
  ghost predicate KeepsPromise(n: nat) {
    forall cal: Calendar, objects: seq<Object>, rules: seq<Rule>, now: int | |objects| == n && DistinctKeys(objects) ::
      Pass(cal, objects, rules, now) == Promised(cal, objects, rules, now)
  }

  /** The number of objects decides: a bucket of at most 1000 is safe, and no larger size is. */
  lemma PromiseExactly(n: nat)
    ensures KeepsPromise(n) <==> n <= 1000
  {
    if n <= LISTED {
      forall cal: Calendar, objects: seq<Object>, rules: seq<Rule>, now: int | |objects| == n && DistinctKeys(objects)
        ensures Pass(cal, objects, rules, now) == Promised(cal, objects, rules, now)
      {
        PassKeepsPromise(cal, objects, rules, now);
      }
    } else {
      var cal := Calendar(s => None, s => None);
      var objects := Numbered(n);
      LargeBucketKeepsExpired(cal, objects, 0);
      assert Pass(cal, objects, [EXPIRE_ALL], 0) != Promised(cal, objects, [EXPIRE_ALL], 0);
    }
  }

  /** Every second pass over `n` objects at the same instant changes nothing. */
  ghost predicate Idempotent(n: nat) {
    forall cal: Calendar, objects: seq<Object>, rules: seq<Rule>, now: int | |objects| == n && DistinctKeys(objects) ::
      Pass(cal, Pass(cal, objects, rules, now), rules, now) == Pass(cal, objects, rules, now)
  }

  /** Eager checks of any of `n` objects never change what a pass leaves. */
  ghost predicate EagerAgrees(n: nat) {
    forall cal: Calendar, objects: seq<Object>, keys: seq<string>, rules: seq<Rule>, now: int
      | |objects| == n && DistinctKeys(objects) ::
      Pass(cal, EagerAll(cal, objects, keys, rules, now), rules, now) == Pass(cal, objects, rules, now)
  }

  /** Passes are idempotent on buckets of up to 1000 objects, and on no larger size. */
  lemma IdempotentExactly(n: nat)
    ensures Idempotent(n) <==> n <= 1000
  {
    hide Pass;
    if n <= LISTED {
      forall cal: Calendar, objects: seq<Object>, rules: seq<Rule>, now: int | |objects| == n && DistinctKeys(objects)
        ensures Pass(cal, Pass(cal, objects, rules, now), rules, now) == Pass(cal, objects, rules, now)
      {
        PassIsIdempotent(cal, objects, rules, now);
      }
    } else {
      var cal, objects := Calendar(s => None, s => None), Numbered(n);
      LargeBucketKeepsExpired(cal, objects, 0);
      hide DistinctKeys;
      var once := Pass(cal, objects, [EXPIRE_ALL], 0);
      assert Pass(cal, once, [EXPIRE_ALL], 0) != once;
    }
  }

  /** Eager and batch expiry agree on buckets of up to 1000 objects, and on no larger size. */
  lemma EagerAgreesExactly(n: nat)
    ensures EagerAgrees(n) <==> n <= 1000
  {
    hide Pass, EagerAll;
    if n <= LISTED {
      forall cal: Calendar, objects: seq<Object>, keys: seq<string>, rules: seq<Rule>, now: int
        | |objects| == n && DistinctKeys(objects)
        ensures Pass(cal, EagerAll(cal, objects, keys, rules, now), rules, now) == Pass(cal, objects, rules, now)
      {
        EagerThenPass(cal, objects, keys, rules, now);
      }
    } else {
      var cal, objects := Calendar(s => None, s => None), Numbered(n);
      EagerReachesFurther(cal, objects, 0);
      hide DistinctKeys;
      var keys := [objects[0].key];
      var rules := [EXPIRE_ALL];
      assert Pass(cal, EagerAll(cal, objects, keys, rules, 0), rules, 0) != Pass(cal, objects, rules, 0);
    }
  }

  /** Removing the first object eagerly lets the pass reach one object further. */
  lemma EagerReachesFurther(cal: Calendar, objects: seq<Object>, now: int)
    requires |objects| > LISTED && DistinctKeys(objects) && Stale(cal, objects, now)
    ensures EagerAll(cal, objects, [objects[0].key], [EXPIRE_ALL], now) == objects[1..]
    ensures |Pass(cal, objects[1..], [EXPIRE_ALL], now)| < |Pass(cal, objects, [EXPIRE_ALL], now)|
  {
    EagerTakesFirst(cal, objects, now);
    StaleRulePass(cal, objects, now);
    StaleRulePass(cal, objects[1..], now);
    SingleRulePass(cal, objects, EXPIRE_ALL, now);
    SingleRulePass(cal, objects[1..], EXPIRE_ALL, now);
    hide RulePass, Pass, Eager;
    var keys := [objects[0].key];
    assert keys[..0] == [];
  }

  lemma EagerTakesFirst(cal: Calendar, objects: seq<Object>, now: int)
    requires objects != [] && DistinctKeys(objects) && Stale(cal, objects, now)
    ensures Eager(cal, objects, objects[0].key, [EXPIRE_ALL], now) == objects[1..]
  {
    var o := objects[0];
    DueByDaysMeans(o.lastModified, 0, now);
    assert o in objects && ExpiryDue(cal, o, EXPIRE_ALL, now) && EXPIRE_ALL in [EXPIRE_ALL];
    hide Protected, ExpiryDue;
    assert Expires(cal, o, [EXPIRE_ALL], now);
    hide Expires;
    FilterAll(objects[1..], Unexpired(cal, o.key, [EXPIRE_ALL], now));
  }

  lemma {:induction false} FilterAll<T>(s: seq<T>, keep: T -> bool)
    requires forall x | x in s :: keep(x)
    ensures Filter(s, keep) == s
  {
    if s != [] {
      FilterAll(s[1..], keep);
      assert s[0] in s && s == [s[0]] + s[1..];
    }
  }

  /** `n` plain objects with keys of increasing length. */
  ghost function Numbered(n: nat): (objects: seq<Object>)
    ensures |objects| == n && DistinctKeys(objects)
    ensures forall cal: Calendar :: Stale(cal, objects, 0)
  {
    seq(n, i requires 0 <= i < n => Object(seq(i, _ => 'k'), None, 0, "STANDARD", map[], map[]))
  }
}
