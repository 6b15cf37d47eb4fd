/**
 Recipient fan-out over a store without atomic batches (src/mail/mod.rs:175-316): copies are
 stored one call at a time, and a failure deletes what was written.
 */
module FanOut {
  import opened Common
  import opened Sorting
  import opened Budget
  import opened MailFiles
  import opened MailStoreModel

  datatype Key = Key(mailbox: string, id: string)
  datatype Lookup = Found(message: StoredMessage) | NotFound | Failed

  /** RollbackFailed: some copy of a failed batch could not be deleted. */
  datatype FanOutError = CaptureTooLarge | NoRecipients | AlreadyExists | StoreFailed | RollbackFailed
  datatype FanOutResult<+T> = Done(value: T) | Failure(error: FanOutError)

  type Boxes = map<Key, StoredMessage>

  function KeyOf(m: StoredMessage): Key { Key(m.mailbox, m.id) }

  /** Stores copies one after the other; a later copy replaces an earlier one. */
  function PutCopies(boxes: Boxes, copies: seq<StoredMessage>): Boxes {
    if copies == [] then boxes else PutCopies(boxes, copies[..|copies| - 1])[KeyOf(Last(copies)) := Last(copies)]
  }

  function TargetKeys(targets: seq<Target>): set<Key> {
    set t | t in targets :: Key(t.mailbox, t.id)
  }

  ghost predicate SameOff(a: Boxes, b: Boxes, keys: set<Key>) {
    forall k | k !in keys :: (k in a <==> k in b) && (k in a ==> a[k] == b[k])
  }

  /** None of `keys` is taken. */
  predicate Free(boxes: Boxes, keys: set<Key>) { forall k | k in keys :: k !in boxes }

  lemma RestoredIsOld(a: Boxes, b: Boxes, keys: set<Key>)
    requires SameOff(a, b, keys) && Free(a, keys) && Free(b, keys)
    ensures a == b
  {
    assert a.Keys == b.Keys;
  }

  lemma {:induction false} PutCopiesOff(boxes: Boxes, copies: seq<StoredMessage>, targets: seq<Target>)
    requires Delivers(copies, targets)
    ensures SameOff(boxes, PutCopies(boxes, copies), TargetKeys(targets))
  {
    if copies != [] {
      var n := |copies| - 1;
      PutCopiesOff(boxes, copies[..n], targets[..n]);
      assert targets == targets[..n] + [targets[n]];
      assert TargetKeys(targets[..n]) <= TargetKeys(targets);
      assert targets[n] in targets;
    }
  }

  lemma {:induction false} PutCopiesConcat(boxes: Boxes, a: seq<StoredMessage>, b: seq<StoredMessage>)
    ensures PutCopies(boxes, a + b) == PutCopies(PutCopies(boxes, a), b)
  {
    if b == [] {
      assert a + b == a;
    } else {
      PutCopiesConcat(boxes, a, b[..|b| - 1]);
      assert (a + b)[..|a + b| - 1] == a + b[..|b| - 1] && Last(a + b) == Last(b);
    }
  }

  /** Every target ends up holding one of the copies delivered to it. */
  lemma {:induction false} PutCopiesHolds(boxes: Boxes, copies: seq<StoredMessage>, targets: seq<Target>, t: Target)
    requires Delivers(copies, targets) && t in targets
    ensures var k := Key(t.mailbox, t.id);
      k in PutCopies(boxes, copies) && PutCopies(boxes, copies)[k] in copies && KeyOf(PutCopies(boxes, copies)[k]) == k
  {
    var n := |copies| - 1;
    if t != targets[n] {
      assert targets == targets[..n] + [targets[n]];
      PutCopiesHolds(boxes, copies[..n], targets[..n], t);
    }
  }

  lemma SameIsSameOff(boxes: Boxes, keys: set<Key>)
    ensures SameOff(boxes, boxes, keys)
  {
  }

  lemma CopyNone(start: Boxes)
    ensures Delivers([], []) && PutCopies(start, []) == start && Filed([]) == []
  {
  }

  /** The first `i` copies of `plan` are stored. */
  ghost predicate StoredSoFar(start: Boxes, boxes: Boxes, all: seq<StoredMessage>, plan: seq<Target>, i: nat,
                              stored: seq<StoredMessage>)
  {
    i <= |plan| && Delivers(all, plan[..i]) && stored == Filed(all) && boxes == PutCopies(start, all)
  }

  lemma AllStored(start: Boxes, boxes: Boxes, all: seq<StoredMessage>, plan: seq<Target>, stored: seq<StoredMessage>)
    requires StoredSoFar(start, boxes, all, plan, |plan|, stored)
    ensures Delivers(all, plan) && stored == Filed(all) && boxes == PutCopies(start, all)
    ensures SameOff(start, boxes, TargetKeys(plan))
  {
    assert plan[..|plan|] == plan;
    hide SameOff, PutCopies, Filed;
    PutCopiesOff(start, all, plan);
  }

  lemma CopyAppended(start: Boxes, boxes: Boxes, all: seq<StoredMessage>, plan: seq<Target>, i: nat,
                     stored: seq<StoredMessage>, copy: StoredMessage)
    requires StoredSoFar(start, boxes, all, plan, i, stored) && i < |plan| && Delivers([copy], [plan[i]])
    ensures StoredSoFar(start, boxes[Key(plan[i].mailbox, plan[i].id) := copy], all + [copy], plan, i + 1,
                        if plan[i].mailbox == ALL_MAILBOX then stored else stored + [copy])
  {
    assert (all + [copy])[..|all|] == all;
    assert [copy][0] == copy && [plan[i]][0] == plan[i];
    assert stored + [] == stored;
  }

  lemma CopyAttempted(start: Boxes, before: Boxes, after: Boxes, all: seq<StoredMessage>, plan: seq<Target>, i: nat,
                      stored: seq<StoredMessage>)
    requires StoredSoFar(start, before, all, plan, i, stored) && i < |plan|
    requires SameOff(before, after, {Key(plan[i].mailbox, plan[i].id)})
    ensures SameOff(start, after, TargetKeys(plan[..i + 1]))
  {
    PutCopiesOff(start, all, plan[..i]);
    assert plan[..i + 1] == plan[..i] + [plan[i]];
    KeysConcat(plan[..i], [plan[i]]);
    hide PutCopies, Filed, Delivers;
  }

  /**
   A mail store that keeps each copy on its own. Every call may fail: `refused` counts the deletes
   that did, `faults` the other calls.
   */
  class FallbackStore {
    const codec: MailCodec
    var boxes: Boxes
    ghost var faults: nat
    ghost var refused: nat

    constructor (codec: MailCodec)
      ensures this.codec == codec && boxes == map[] && faults == refused == 0
    {
      this.codec := codec;
      boxes := map[];
      faults, refused := 0, 0;
    }

    method EnsureMailbox(mailbox: string) returns (ok: bool)
      modifies this`faults
      ensures faults == old(faults) + if ok then 0 else 1
    {
      ok := *;
      if !ok { faults := faults + 1; }
    }

    method GetMessage(mailbox: string, id: string) returns (r: Lookup)
      modifies this`faults
      ensures r.Found? ==> Key(mailbox, id) in boxes && r.message == boxes[Key(mailbox, id)]
      ensures r.NotFound? ==> Key(mailbox, id) !in boxes
      ensures faults == old(faults) + if r.Failed? then 1 else 0
    {
      var failed: bool := *;
      if failed {
        faults := faults + 1;
        return Failed;
      }
      r := if Key(mailbox, id) in boxes then Found(boxes[Key(mailbox, id)]) else NotFound;
    }

    /** May fail after its copy became visible. */
    method StoreMessage(mailbox: string, id: string, message: Message) returns (r: Option<StoredMessage>)
      modifies this`boxes, this`faults
      ensures faults == old(faults) + if r.None? then 1 else 0
      ensures r.Some? ==>
        Delivers([r.value], [Target(mailbox, id, message)]) && boxes == old(boxes)[Key(mailbox, id) := r.value]
      ensures SameOff(old(boxes), boxes, {Key(mailbox, id)})
    {
      var fails, visible, now, tx := *, *, *, *;
      var copy := StoredMessage(id, mailbox, message, tx, now, "accepted");
      if !fails || visible { boxes := boxes[Key(mailbox, id) := copy]; }
      if fails { faults := faults + 1; }
      r := if fails then None else Some(copy);
    }

    method DeleteMessage(mailbox: string, id: string) returns (ok: bool)
      modifies this`boxes, this`refused
      ensures refused == old(refused) + if ok then 0 else 1
      ensures SameOff(old(boxes), boxes, {Key(mailbox, id)}) && (ok ==> boxes == old(boxes) - {Key(mailbox, id)})
      ensures Key(mailbox, id) !in old(boxes) ==> boxes == old(boxes)
    {
      var removed;
      ok, removed := *, *;
      if ok || removed { boxes := boxes - {Key(mailbox, id)}; }
      if !ok { refused := refused + 1; }
    }

    /** Deletes each target, going on past failures. */
    method RollBack(targets: seq<Target>) returns (clean: bool)
      modifies this`boxes, this`refused
      ensures SameOff(old(boxes), boxes, TargetKeys(targets))
      ensures clean ==> Free(boxes, TargetKeys(targets)) && refused == old(refused)
      ensures !clean ==> refused > old(refused)
    {
      clean := true;
      for i := 0 to |targets|
        invariant refused >= old(refused) && (clean <==> refused == old(refused))
        invariant SameOff(old(boxes), boxes, TargetKeys(targets))
        invariant clean ==> forall j | 0 <= j < i :: Key(targets[j].mailbox, targets[j].id) !in boxes
      {
        assert targets[i] in targets;
        var ok := DeleteMessage(targets[i].mailbox, targets[i].id);
        clean := clean && ok;
      }
    }

    /** The checks before the first copy is stored. */
    method CheckTargets(targets: seq<string>, id: string) returns (error: Option<FanOutError>)
      modifies this`faults
      ensures error == None ==> faults == old(faults) && forall t | t in targets :: Key(t, id) !in boxes
      ensures error.Some? ==> error.value == StoreFailed || error.value == AlreadyExists
      ensures error == Some(StoreFailed) ==> faults > old(faults)
      ensures error == Some(AlreadyExists) ==> exists t | t in targets :: Key(t, id) in boxes
    {
      for i := 0 to |targets|
        invariant faults == old(faults)
        invariant forall j | 0 <= j < i :: Key(targets[j], id) !in boxes
      {
        var ok := EnsureMailbox(targets[i]);
        if !ok { return Some(StoreFailed); }
        var found := GetMessage(targets[i], id);
        match found {
          case NotFound => {}
          case Found(_) => return Some(AlreadyExists);
          case Failed => return Some(StoreFailed);
        }
      }
      error := None;
    }

    /** fan_out_with_id: every copy of one message, or none. */
    method FanOutWithId(message: Message, id: string)
      returns (r: FanOutResult<seq<StoredMessage>>, ghost all: seq<StoredMessage>)
      requires Sizes(codec, [(id, message)], [])
      modifies this
      ensures r == Failure(CaptureTooLarge) <==> MailTotal(Charges(codec, [(id, message)]), []) > MAX_CAPTURE_BYTES
      ensures r.Done? ==> message.recipients != [] && Free(old(boxes), TargetKeys(MessageTargets(id, message)))
      ensures r.Done? ==> Delivers(all, MessageTargets(id, message)) && boxes == PutCopies(old(boxes), all)
      ensures r.Done? ==> r.value == Filed(all) && faults == old(faults) && refused == old(refused)
      ensures r == Failure(NoRecipients) ==> message.recipients == []
      ensures r == Failure(AlreadyExists) ==> !Free(old(boxes), TargetKeys(MessageTargets(id, message)))
      ensures r == Failure(StoreFailed) ==> faults > old(faults)
      ensures r.Failure? && r.error != RollbackFailed ==> boxes == old(boxes) && refused == old(refused)
      ensures r == Failure(RollbackFailed) ==> faults > old(faults) && refused > old(refused)
      ensures r == Failure(RollbackFailed) ==> Free(old(boxes), TargetKeys(MessageTargets(id, message)))
      ensures SameOff(old(boxes), boxes, TargetKeys(MessageTargets(id, message)))
    {
      all := [];
      SizesAreLengths(codec, [(id, message)], []);
      var ok := CheckMail(Charges(codec, [(id, message)]), []);
      if !ok { return Failure(CaptureTooLarge), []; }
      hide MailTotal, Charges, Sizes, PutCopies, Delivers, Filed, SameOff;
      SameIsSameOff(boxes, TargetKeys(MessageTargets(id, message)));
      var mailboxes := SortedSet(message.recipients);
      SortedSetFacts(message.recipients);
      hide SortedSet, Sorted, Distinct;
      if mailboxes == [] { return Failure(NoRecipients), []; }
      var targets := [ALL_MAILBOX] + mailboxes;
      var error := CheckTargets(targets, id);
      ghost var plan := MessageTargets(id, message);
      TargetsAre(targets, id, message);
      if error.Some? { return Failure(error.value), []; }
      assert Free(boxes, TargetKeys(plan));
      hide MessageTargets, TargetKeys, Free;
      r, all := StoreCopies(targets, id, message, plan);
    }

    /** Stores one copy per target; on failure, deletes the copies written and the failed one. */
    method StoreCopies(targets: seq<string>, id: string, message: Message, ghost plan: seq<Target>)
      returns (r: FanOutResult<seq<StoredMessage>>, ghost all: seq<StoredMessage>)
      requires |plan| == |targets| && forall j | 0 <= j < |plan| :: plan[j] == Target(targets[j], id, message)
      requires Free(boxes, TargetKeys(plan))
      modifies this
      ensures r.Done? ==> Delivers(all, plan) && boxes == PutCopies(old(boxes), all) && r.value == Filed(all)
      ensures r.Done? ==> faults == old(faults) && refused == old(refused)
      ensures r.Failure? ==> (r.error == StoreFailed || r.error == RollbackFailed) && faults > old(faults)
      ensures r == Failure(StoreFailed) ==> boxes == old(boxes) && refused == old(refused)
      ensures r == Failure(RollbackFailed) ==> refused > old(refused)
      ensures SameOff(old(boxes), boxes, TargetKeys(plan))
    {
      var written, stored := [], [];
      all := [];
      ghost var start := boxes;
      CopyNone(start);
      assert plan[..0] == [];
      assert StoredSoFar(start, boxes, all, plan, 0, stored);
      hide StoredSoFar, SameOff, TargetKeys, Free;
      for i := 0 to |targets|
        invariant written == targets[..i] && StoredSoFar(start, boxes, all, plan, i, stored)
        invariant faults == old(faults) && refused == old(refused)
      {
        ghost var before := boxes;
        var copy := StoreMessage(targets[i], id, message);
        CopyAttempted(start, before, boxes, all, plan, i, stored);
        if copy == None {
          r := UndoCopies(written + [targets[i]], id, message, plan, i + 1, start);
          return;
        }
        CopyAppended(start, before, all, plan, i, stored, copy.value);
        written := written + [targets[i]];
        if targets[i] != ALL_MAILBOX { stored := stored + [copy.value]; }
        all := all + [copy.value];
      }
      AllStored(start, boxes, all, plan, stored);
      r := Done(stored);
    }

    /** Undoes the copies of one message after a failed store call. */
    method UndoCopies(written: seq<string>, id: string, message: Message, ghost plan: seq<Target>, n: nat,
                      ghost start: Boxes)
      returns (r: FanOutResult<seq<StoredMessage>>)
      requires n == |written| <= |plan| && forall j | 0 <= j < n :: plan[j] == Target(written[j], id, message)
      requires SameOff(start, boxes, TargetKeys(plan[..n])) && Free(start, TargetKeys(plan))
      modifies this`boxes, this`refused
      ensures r == Failure(StoreFailed) || r == Failure(RollbackFailed)
      ensures r == Failure(StoreFailed) ==> boxes == start && refused == old(refused)
      ensures r == Failure(RollbackFailed) ==> refused > old(refused)
      ensures SameOff(start, boxes, TargetKeys(plan))
    {
      var targets := seq(n, j requires 0 <= j < n => Target(written[j], id, message));
      assert targets == plan[..n];
      assert TargetKeys(targets) <= TargetKeys(plan);
      var clean := RollBack(targets);
      if clean { RestoredIsOld(start, boxes, TargetKeys(targets)); }
      r := if clean then Failure(StoreFailed) else Failure(RollbackFailed);
    }

    /** fan_out_batch: every copy of every message, or none. */
    method FanOutBatch(messages: seq<(string, Message)>)
      returns (r: FanOutResult<seq<seq<StoredMessage>>>, ghost all: seq<StoredMessage>)
      requires Sizes(codec, messages, [])
      modifies this
      ensures r == Failure(CaptureTooLarge) <==> MailTotal(Charges(codec, messages), []) > MAX_CAPTURE_BYTES
      ensures r.Done? ==> Delivers(all, BatchTargets(messages)) && boxes == PutCopies(old(boxes), all)
      ensures r.Done? ==> Fileable(old(boxes), messages) && AllShown(r.value, messages)
      ensures r.Done? ==> faults == old(faults) && refused == old(refused)
      ensures r != Failure(CaptureTooLarge) && r.Failure? && faults == old(faults) ==> !Fileable(old(boxes), messages)
      ensures r == Failure(StoreFailed) ==> faults > old(faults)
      ensures r.Failure? && r.error != RollbackFailed ==> boxes == old(boxes) && refused == old(refused)
      ensures r == Failure(RollbackFailed) ==> refused > old(refused)
      ensures forall k | k in old(boxes) :: k in boxes && boxes[k] == old(boxes)[k]
    {
      all := [];
      SizesAreLengths(codec, messages, []);
      var ok := CheckMail(Charges(codec, messages), []);
      if !ok { return Failure(CaptureTooLarge), []; }
      forall k | 0 <= k < |messages|
        ensures Sizes(codec, [messages[k]], [])
        ensures MailTotal(Charges(codec, [messages[k]]), []) <= MAX_CAPTURE_BYTES
      {
        OneOfBatch(codec, messages, k);
      }
      hide Charges, MailTotal, Sizes, Delivers, BatchTargets, PutCopies, Fileable, AllShown;
      r, all := StoreMessages(messages);
    }

    method StoreMessages(messages: seq<(string, Message)>)
      returns (r: FanOutResult<seq<seq<StoredMessage>>>, ghost all: seq<StoredMessage>)
      requires forall k | 0 <= k < |messages| ::
        Sizes(codec, [messages[k]], []) && MailTotal(Charges(codec, [messages[k]]), []) <= MAX_CAPTURE_BYTES
      modifies this
      ensures r != Failure(CaptureTooLarge)
      ensures r.Done? ==> Delivers(all, BatchTargets(messages)) && boxes == PutCopies(old(boxes), all)
      ensures r.Done? ==> Fileable(old(boxes), messages) && AllShown(r.value, messages)
      ensures r.Done? ==> faults == old(faults) && refused == old(refused)
      ensures r.Failure? && faults == old(faults) ==> !Fileable(old(boxes), messages)
      ensures r == Failure(StoreFailed) ==> faults > old(faults)
      ensures r.Failure? && r.error != RollbackFailed ==> boxes == old(boxes) && refused == old(refused)
      ensures r == Failure(RollbackFailed) ==> refused > old(refused)
      ensures forall k | k in old(boxes) :: k in boxes && boxes[k] == old(boxes)[k]
    {
      all := [];
      BatchNone(boxes, messages);
      var captured: seq<Target>, result: seq<seq<StoredMessage>> := [], [];
      hide BatchSoFar, MessageTargets, BatchTargets, TargetKeys, Filed, Sizes, Charges, MailTotal, PutCopies, Delivers;
      hide SameOff, Free, Fileable, AllShown;
      for k := 0 to |messages|
        invariant BatchSoFar(old(boxes), boxes, messages, k, all, captured, result)
        invariant faults == old(faults) && refused == old(refused)
      {
        var (id, message) := messages[k];
        assert [(id, message)] == [messages[k]];
        ghost var before, copies := boxes, [];
        BatchFacts(old(boxes), before, messages, k, all, captured, result);
        var stored;
        stored, copies := FanOutWithId(message, id);
        if stored.Failure? {
          r := UndoBatch(captured, stored.error, MessageTargets(id, message), before, old(boxes));
          return;
        }
        BatchNext(old(boxes), before, messages, k, all, captured, result, copies);
        captured := captured + CapturedKeys(id, message);
        all := all + copies;
        result := result + [stored.value];
      }
      BatchDone(old(boxes), boxes, messages, all, captured, result);
      r := Done(result);
    }

    /** Undoes the captured messages of a batch after one failed. */
    method UndoBatch(captured: seq<Target>, error: FanOutError, ghost failed: seq<Target>, ghost before: Boxes,
                     ghost start: Boxes)
      returns (r: FanOutResult<seq<seq<StoredMessage>>>)
      requires SameOff(start, before, TargetKeys(captured)) && Free(start, TargetKeys(captured))
      requires SameOff(before, boxes, TargetKeys(failed)) && (error != RollbackFailed ==> boxes == before)
      requires error == RollbackFailed ==> Free(before, TargetKeys(failed))
      modifies this`boxes, this`refused
      ensures r == Failure(error) || (r == Failure(RollbackFailed) && refused > old(refused))
      ensures r == Failure(error) && error != RollbackFailed ==> boxes == start && refused == old(refused)
      ensures refused >= old(refused)
      ensures forall k | k in start :: k in boxes && boxes[k] == start[k]
    {
      var clean := RollBack(captured);
      if clean && error != RollbackFailed { RestoredIsOld(start, boxes, TargetKeys(captured)); }
      r := if clean then Failure(error) else Failure(RollbackFailed);
    }
  }

  /** The targets of one message, one per mailbox. */
  lemma TargetsAre(targets: seq<string>, id: string, message: Message)
    requires targets == [ALL_MAILBOX] + SortedSet(message.recipients)
    ensures var plan := MessageTargets(id, message);
      |plan| == |targets| && forall j | 0 <= j < |plan| :: plan[j] == Target(targets[j], id, message)
    ensures forall t | t in targets :: Key(t, id) in TargetKeys(MessageTargets(id, message))
  {
    hide SortedSet;
    var plan := MessageTargets(id, message);
    forall t | t in targets ensures Key(t, id) in TargetKeys(plan) {
      var j :| 0 <= j < |targets| && targets[j] == t;
      assert plan[j] in plan;
    }
  }

  // ---- What can be filed ----

  predicate DistinctIds(messages: seq<(string, Message)>) {
    forall i, j | 0 <= i < j < |messages| :: messages[i].0 != messages[j].0
  }

  /** Every message has a recipient and its own id, and none of its keys is taken. */
  predicate Fileable(boxes: Boxes, messages: seq<(string, Message)>) {
    && (forall i | 0 <= i < |messages| :: messages[i].1.recipients != [])
    && DistinctIds(messages) && Free(boxes, TargetKeys(BatchTargets(messages)))
  }

  lemma {:induction false} BatchKeys(messages: seq<(string, Message)>)
    ensures forall k | k in TargetKeys(BatchTargets(messages)) :: exists m :: m in messages && m.0 == k.id
    ensures forall m | m in messages :: Key(ALL_MAILBOX, m.0) in TargetKeys(BatchTargets(messages))
  {
    if messages != [] {
      var rest, last := messages[..|messages| - 1], Last(messages);
      BatchKeys(rest);
      KeysConcat(BatchTargets(rest), MessageTargets(last.0, last.1));
      assert MessageTargets(last.0, last.1)[0] in MessageTargets(last.0, last.1);
      hide SortedSet;
      assert last in messages && messages == rest + [last];
    }
  }

  lemma NewKeys(rest: seq<(string, Message)>, last: (string, Message))
    ensures TargetKeys(BatchTargets(rest)) !! TargetKeys(MessageTargets(last.0, last.1)) <==>
      forall i | 0 <= i < |rest| :: rest[i].0 != last.0
  {
    BatchKeys(rest);
    BatchKeys([last]);
    assert BatchTargets([last]) == MessageTargets(last.0, last.1) by {
      assert [last][..0] == [];
    }
    hide MessageTargets, BatchTargets, TargetKeys;
    var a, b := TargetKeys(BatchTargets(rest)), TargetKeys(MessageTargets(last.0, last.1));
    if i :| 0 <= i < |rest| && rest[i].0 == last.0 {
      assert rest[i] in rest && last in [last];
      assert Key(ALL_MAILBOX, last.0) in a * b;
    }
  }

  lemma KeysNext(messages: seq<(string, Message)>, k: nat)
    requires k < |messages|
    ensures TargetKeys(BatchTargets(messages[..k + 1])) ==
      TargetKeys(BatchTargets(messages[..k])) + TargetKeys(MessageTargets(messages[k].0, messages[k].1))
  {
    assert messages[..k + 1][..k] == messages[..k];
    KeysConcat(BatchTargets(messages[..k]), MessageTargets(messages[k].0, messages[k].1));
    hide TargetKeys, MessageTargets;
  }

  lemma {:induction false} KeysOfPrefix(messages: seq<(string, Message)>, k: nat)
    requires k <= |messages|
    ensures TargetKeys(BatchTargets(messages[..k])) <= TargetKeys(BatchTargets(messages))
    decreases |messages| - k
  {
    hide TargetKeys, BatchTargets, MessageTargets;
    if k < |messages| {
      KeysOfPrefix(messages, k + 1);
      KeysNext(messages, k);
    } else {
      assert messages[..k] == messages;
    }
  }

  lemma FileableFree(boxes: Boxes, messages: seq<(string, Message)>)
    requires Fileable(boxes, messages)
    ensures Free(boxes, TargetKeys(BatchTargets(messages)))
  {
  }

  /** The next message of a batch that can be filed can be filed on top of those before it. */
  lemma NextIsFree(start: Boxes, before: Boxes, messages: seq<(string, Message)>, k: nat)
    requires k < |messages| && Fileable(start, messages)
    requires SameOff(start, before, TargetKeys(BatchTargets(messages[..k])))
    ensures messages[k].1.recipients != [] && Free(before, TargetKeys(MessageTargets(messages[k].0, messages[k].1)))
  {
    KeysNext(messages, k);
    KeysOfPrefix(messages, k + 1);
    NewKeys(messages[..k], messages[k]);
    hide TargetKeys, BatchTargets, MessageTargets;
  }

  /** A message filed on top of others is one more of a batch that can be filed. */
  lemma FileableNext(start: Boxes, before: Boxes, messages: seq<(string, Message)>, k: nat)
    requires k < |messages| && Fileable(start, messages[..k]) && messages[k].1.recipients != []
    requires SameOff(start, before, TargetKeys(BatchTargets(messages[..k])))
    requires TargetKeys(BatchTargets(messages[..k])) <= before.Keys
    requires Free(before, TargetKeys(MessageTargets(messages[k].0, messages[k].1)))
    ensures Fileable(start, messages[..k + 1])
  {
    KeysNext(messages, k);
    NewKeys(messages[..k], messages[k]);
    hide TargetKeys, BatchTargets, MessageTargets;
    assert messages[..k + 1] == messages[..k] + [messages[k]];
  }

  lemma KeysHeld(start: Boxes, copies: seq<StoredMessage>, targets: seq<Target>)
    requires Delivers(copies, targets)
    ensures TargetKeys(targets) <= PutCopies(start, copies).Keys
  {
    forall k | k in TargetKeys(targets) ensures k in PutCopies(start, copies) {
      var t :| t in targets && Key(t.mailbox, t.id) == k;
      PutCopiesHolds(start, copies, targets, t);
    }
  }

  /** What the caller is shown of one message. */
  ghost predicate Shown(copies: seq<StoredMessage>, id: string, message: Message) {
    Delivers(copies, ShownTargets(MessageTargets(id, message)))
  }

  ghost predicate AllShown(result: seq<seq<StoredMessage>>, messages: seq<(string, Message)>) {
    |result| == |messages| && forall k | 0 <= k < |messages| :: Shown(result[k], messages[k].0, messages[k].1)
  }

  lemma ShowNext(result: seq<seq<StoredMessage>>, messages: seq<(string, Message)>, k: nat, copies: seq<StoredMessage>)
    requires k < |messages| && AllShown(result, messages[..k]) && Shown(copies, messages[k].0, messages[k].1)
    ensures AllShown(result + [copies], messages[..k + 1])
  {
    hide Shown;
  }

  /** The first `k` messages of a batch are stored. */
  ghost predicate BatchSoFar(start: Boxes, boxes: Boxes, messages: seq<(string, Message)>, k: nat,
                             all: seq<StoredMessage>, captured: seq<Target>, result: seq<seq<StoredMessage>>)
  {
    && k <= |messages| && Delivers(all, BatchTargets(messages[..k])) && boxes == PutCopies(start, all)
    && TargetKeys(captured) == TargetKeys(BatchTargets(messages[..k]))
    && Fileable(start, messages[..k]) && AllShown(result, messages[..k])
  }

  lemma BatchNone(start: Boxes, messages: seq<(string, Message)>)
    ensures BatchSoFar(start, start, messages, 0, [], [], [])
  {
    CopyNone(start);
    assert messages[..0] == [];
  }

  /** What the copies stored so far mean for the next message and for a rollback. */
  lemma BatchFacts(start: Boxes, before: Boxes, messages: seq<(string, Message)>, k: nat, all: seq<StoredMessage>,
                   captured: seq<Target>, result: seq<seq<StoredMessage>>)
    requires BatchSoFar(start, before, messages, k, all, captured, result) && k < |messages|
    ensures SameOff(start, before, TargetKeys(captured)) && Free(start, TargetKeys(captured))
    ensures Fileable(start, messages) ==>
      messages[k].1.recipients != [] && Free(before, TargetKeys(MessageTargets(messages[k].0, messages[k].1)))
  {
    PutCopiesOff(start, all, BatchTargets(messages[..k]));
    FileableFree(start, messages[..k]);
    hide TargetKeys, BatchTargets, MessageTargets, PutCopies, Delivers, SameOff, Free, Fileable, AllShown;
    if Fileable(start, messages) { NextIsFree(start, before, messages, k); }
  }

  lemma BatchNext(start: Boxes, before: Boxes, messages: seq<(string, Message)>, k: nat, all: seq<StoredMessage>,
                  captured: seq<Target>, result: seq<seq<StoredMessage>>, copies: seq<StoredMessage>)
    requires BatchSoFar(start, before, messages, k, all, captured, result) && k < |messages|
    requires messages[k].1.recipients != [] && Delivers(copies, MessageTargets(messages[k].0, messages[k].1))
    requires Free(before, TargetKeys(MessageTargets(messages[k].0, messages[k].1)))
    ensures BatchSoFar(start, PutCopies(before, copies), messages, k + 1, all + copies,
                       captured + CapturedKeys(messages[k].0, messages[k].1), result + [Filed(copies)])
  {
    hide TargetKeys, BatchTargets, MessageTargets, PutCopies, Delivers, SameOff, Free, Fileable, AllShown, Filed;
    hide CapturedKeys, Shown;
    PutCopiesOff(start, all, BatchTargets(messages[..k]));
    KeysHeld(start, all, BatchTargets(messages[..k]));
    Extend(messages, k, all, copies, captured);
    ShowNext(result, messages, k, Filed(copies));
    PutCopiesConcat(start, all, copies);
    FileableNext(start, before, messages, k);
  }

  lemma BatchDone(start: Boxes, boxes: Boxes, messages: seq<(string, Message)>, all: seq<StoredMessage>,
                  captured: seq<Target>, result: seq<seq<StoredMessage>>)
    requires BatchSoFar(start, boxes, messages, |messages|, all, captured, result)
    ensures Delivers(all, BatchTargets(messages)) && boxes == PutCopies(start, all)
    ensures Fileable(start, messages) && AllShown(result, messages)
    ensures forall k | k in start :: k in boxes && boxes[k] == start[k]
  {
    assert messages[..|messages|] == messages;
    FileableFree(start, messages);
    hide TargetKeys, BatchTargets, PutCopies, Delivers, Fileable, AllShown;
    PutCopiesOff(start, all, BatchTargets(messages));
    OldKept(start, boxes, TargetKeys(BatchTargets(messages)));
  }

  lemma OldKept(start: Boxes, end: Boxes, keys: set<Key>)
    requires Free(start, keys) && SameOff(start, end, keys)
    ensures forall k | k in start :: k in end && end[k] == start[k]
  {
  }

  /** The copies a batch remembers for rollback: every recipient as written, then the account-wide one. */
  function CapturedKeys(id: string, message: Message): seq<Target> {
    seq(|message.recipients| + 1, i requires 0 <= i <= |message.recipients| =>
      Target(if i < |message.recipients| then message.recipients[i] else ALL_MAILBOX, id, message))
  }

  /** Undoing by recipient covers exactly the copies that were stored. */
  lemma CapturedAreTargets(id: string, message: Message)
    ensures TargetKeys(CapturedKeys(id, message)) == TargetKeys(MessageTargets(id, message))
  {
    var captured, targets := CapturedKeys(id, message), MessageTargets(id, message);
    SortedSetFacts(message.recipients);
    var boxes := [ALL_MAILBOX] + SortedSet(message.recipients);
    hide SortedSet, Sorted, Distinct;
    forall k | k in TargetKeys(captured) ensures k in TargetKeys(targets) {
      var t :| t in captured && Key(t.mailbox, t.id) == k;
      assert t.mailbox in boxes;
      var i :| 0 <= i < |boxes| && boxes[i] == t.mailbox;
      assert targets[i] in targets;
    }
    forall k | k in TargetKeys(targets) ensures k in TargetKeys(captured) {
      var t :| t in targets && Key(t.mailbox, t.id) == k;
      if t.mailbox == ALL_MAILBOX {
        assert captured[|message.recipients|] in captured;
      } else {
        assert t.mailbox in message.recipients;
        var i :| 0 <= i < |message.recipients| && message.recipients[i] == t.mailbox;
        assert captured[i] in captured;
      }
    }
  }

  lemma KeysConcat(a: seq<Target>, b: seq<Target>)
    ensures TargetKeys(a + b) == TargetKeys(a) + TargetKeys(b)
  {
  }

  lemma Extend(messages: seq<(string, Message)>, k: nat, all: seq<StoredMessage>, copies: seq<StoredMessage>,
               captured: seq<Target>)
    requires k < |messages| && Delivers(all, BatchTargets(messages[..k]))
    requires Delivers(copies, MessageTargets(messages[k].0, messages[k].1)) && messages[k].1.recipients != []
    requires TargetKeys(captured) == TargetKeys(BatchTargets(messages[..k]))
    ensures Delivers(all + copies, BatchTargets(messages[..k + 1]))
    ensures TargetKeys(captured + CapturedKeys(messages[k].0, messages[k].1)) ==
      TargetKeys(BatchTargets(messages[..k + 1]))
    ensures TargetKeys(captured + CapturedKeys(messages[k].0, messages[k].1)) ==
      TargetKeys(captured) + TargetKeys(MessageTargets(messages[k].0, messages[k].1))
    ensures Shown(Filed(copies), messages[k].0, messages[k].1)
  {
    var (id, message) := messages[k];
    assert messages[..k + 1][..k] == messages[..k];
    CapturedAreTargets(id, message);
    KeysConcat(captured, CapturedKeys(id, message));
    KeysConcat(BatchTargets(messages[..k]), MessageTargets(id, message));
    DeliversConcat(all, copies, BatchTargets(messages[..k]), MessageTargets(id, message));
    hide TargetKeys, Delivers, MessageTargets, Filed, CapturedKeys;
    FiledIsShown(copies, id, message);
  }

  lemma DeliversConcat(a: seq<StoredMessage>, b: seq<StoredMessage>, s: seq<Target>, t: seq<Target>)
    requires Delivers(a, s) && Delivers(b, t)
    ensures Delivers(a + b, s + t)
  {
  }

  lemma FiledIsShown(copies: seq<StoredMessage>, id: string, message: Message)
    requires Delivers(copies, MessageTargets(id, message))
    ensures Shown(Filed(copies), id, message)
  {
    FiledReports(copies, MessageTargets(id, message));
  }

  /** One message of an admitted batch would be admitted alone. */
  lemma OneOfBatch(codec: MailCodec, messages: seq<(string, Message)>, k: nat)
    requires k < |messages| && Sizes(codec, messages, [])
    ensures Sizes(codec, [messages[k]], [])
    ensures MailTotal(Charges(codec, [messages[k]]), []) <= MailTotal(Charges(codec, messages), [])
  {
    assert messages[k] in messages;
    var charges, one := Charges(codec, messages), Charges(codec, [messages[k]]);
    SumNext(charges, MailMessageTotal, k);
    assert one[..0] == [] && one == [charges[k]];
    hide MailMessageTotal;
    assert SumBy(one, MailMessageTotal) == SumBy(one[..0], MailMessageTotal) + MailMessageTotal(charges[k]);
  }
}
