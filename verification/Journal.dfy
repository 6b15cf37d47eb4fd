/**
 The capture journal on values (src/capture.rs).

 A store is a set of files below one root directory. Each capture owns a directory
 `.capture-transactions/<id>` that holds its intent (the list of paths it may write) and,
 once the capture is published, an empty `committed` marker. `Recovered` says in one
 expression what reopening the store leaves behind; the lemmas below say which single
 filesystem effects keep that value.
 */
module Journal {
  import opened Common

  /** A path below the store root, as its list of components. */
  type Path = seq<string>

  const JOURNAL := ".capture-transactions"
  const RECORDS := ".repeatability"

  /** The files of a store and the transaction directories that exist in its journal. */
  datatype Fs = Fs(files: map<Path, Bytes>, txs: set<string>)

  function With(fs: Fs, p: Path, data: Bytes): Fs { fs.(files := fs.files[p := data]) }
  function Without(fs: Fs, p: Path): Fs { fs.(files := fs.files - {p}) }

  /** One capture destination and its bytes. */
  datatype File = File(path: Path, data: Bytes)

  function TxFile(id: string, name: string): Path { [JOURNAL, id, name] }
  function StagedIntent(id: string): Path { TxFile(id, "intent.pending") }
  function IntentFile(id: string): Path { TxFile(id, "intent.json") }
  function Marker(id: string): Path { TxFile(id, "committed") }

  lemma TxNames(id: string)
    ensures StagedIntent(id) != IntentFile(id) && IntentFile(id) != Marker(id) && Marker(id) != StagedIntent(id)
    ensures InTx(StagedIntent(id), id) && InTx(IntentFile(id), id) && InTx(Marker(id), id)
  {
    assert StagedIntent(id)[2] != IntentFile(id)[2] && IntentFile(id)[2] != Marker(id)[2];
    assert Marker(id)[2] != StagedIntent(id)[2];
  }

  predicate Journalled(p: Path) { |p| > 0 && p[0] == JOURNAL }
  predicate InTx(p: Path, id: string) { |p| > 2 && p[0] == JOURNAL && p[1] == id }

  /** A directory entry name that `Component::Normal` accepts. */
  predicate NormalComponent(s: string) {
    s != "" && s != "." && s != ".." && '/' !in s
  }

  /** A file readers parse: a stored message or a replay record. */
  predicate Document(p: Path) {
    p != [] && !Journalled(p) && EndsWith(Last(p), ".json")
  }

  /** validate_relative */
  predicate ValidRelative(p: Path) {
    |p| > 0 && forall i | 0 <= i < |p| :: NormalComponent(p[i])
  }

  /** Where a path leads from a directory, as a file system walks it. */
  function Walk(from: Path, p: Path): Path {
    if p == [] then from
    else
      var at := Walk(from, p[..|p| - 1]);
      if Last(p) == "" || Last(p) == "." then at
      else if Last(p) == ".." then (if at == [] then [] else at[..|at| - 1])
      else at + [Last(p)]
  }

  /** A valid path leads below the directory it starts from, component by component. */
  lemma {:induction false} ValidStaysBelow(from: Path, p: Path)
    requires ValidRelative(p)
    ensures Walk(from, p) == from + p
  {
    var front := p[..|p| - 1];
    if front == [] {
      assert p == [Last(p)] && from + [Last(p)] == from + p;
    } else {
      ValidStaysBelow(from, front);
      assert front + [Last(p)] == p && from + front + [Last(p)] == from + p;
    }
  }

  /** A path that would lead elsewhere, or nowhere new, is not valid. */
  lemma StrayIsInvalid(p: Path, i: nat)
    requires i < |p| && (p[i] in {"", ".", ".."} || '/' in p[i])
    ensures !ValidRelative(p)
  {
  }

  /** A destination the journal accepts: relative, and outside the journal itself. */
  predicate Destination(p: Path) {
    ValidRelative(p) && !Journalled(p)
  }

  function PendingSuffix(id: string): string { ".pending-" + id }

  /** pending_path: the staging name beside a destination. */
  function PendingPath(p: Path, id: string): Path {
    if p == [] then [PendingSuffix(id)] else p[..|p| - 1] + [Last(p) + PendingSuffix(id)]
  }

  /** write_atomic's temporary file beside a path. */
  function TmpPath(p: Path): Path {
    if p == [] then [".tmp"] else p[..|p| - 1] + [Last(p) + ".tmp"]
  }

  /** The paths an intent lists: every destination followed by its staging name. */
  function IntentPaths(files: seq<File>, id: string): seq<Path> {
    if files == [] then []
    else [files[0].path, PendingPath(files[0].path, id)] + IntentPaths(files[1..], id)
  }

  predicate Committed(fs: Fs, id: string) { Marker(id) in fs.files }

  /** The shape of a hyphenated UUID, as far as file names care. */
  predicate TxId(id: string) { |id| == 36 && '/' !in id && '.' !in id }

  /** is_committed: documents written before the journal existed name no transaction. */
  predicate Visible(fs: Fs, tag: string) { tag == "" || Committed(fs, tag) }

  /** A new transaction id: one that no journal entry, file or destination carries. */
  ghost predicate FreshId(fs: Fs, id: string, files: seq<File>) {
    && TxId(id) && id !in fs.txs
    && (forall p | p in fs.files :: p != [] ==> !EndsWith(Last(p), PendingSuffix(id)))
    && (forall f | f in files :: f.path != [] ==> !EndsWith(Last(f.path), PendingSuffix(id)))
  }

  /** Writes every file of a batch. */
  function PutAll(fs: Fs, files: seq<File>): Fs {
    if files == [] then fs
    else With(PutAll(fs, files[..|files| - 1]), Last(files).path, Last(files).data)
  }

  /** Every destination is acceptable, free and listed once. */
  ghost predicate Admissible(pre: Fs, files: seq<File>) {
    && (forall f | f in files :: ValidRelative(f.path) && f.path !in pre.files)
    && (forall i, j | 0 <= i < j < |files| :: files[i].path != files[j].path)
  }

  lemma TmpIsSeparate(p: Path)
    requires p != [] && p[0] != JOURNAL
    ensures TmpPath(p) != p && !Journalled(TmpPath(p)) && !Document(TmpPath(p))
    ensures p[0] != RECORDS ==> TmpPath(p)[0] != RECORDS
  {
    var q := TmpPath(p);
    assert Last(q)[|Last(q)| - 1] == 'p';
    assert |p| > 1 ==> q[0] == p[0];
    assert |p| == 1 ==> Last(q) == q[0];
    assert JOURNAL[|JOURNAL| - 1] == 's' && RECORDS[|RECORDS| - 1] == 'y';
  }

  // ---- Paths a capture touches ----

  lemma {:induction false} IntentPathsMember(files: seq<File>, id: string, p: Path)
    ensures p in IntentPaths(files, id) <==>
      exists f :: f in files && (p == f.path || p == PendingPath(f.path, id))
  {
    if files != [] {
      IntentPathsMember(files[1..], id, p);
      assert files == [files[0]] + files[1..];
    }
  }

  /** Writing a batch adds its paths and nothing else. */
  lemma {:induction false} PutAllMember(fs: Fs, files: seq<File>, p: Path)
    ensures PutAll(fs, files).txs == fs.txs
    ensures p in PutAll(fs, files).files <==> p in fs.files || exists f :: f in files && p == f.path
    ensures (forall f | f in files :: f.path != p) && p in fs.files ==> PutAll(fs, files).files[p] == fs.files[p]
  {
    if files != [] {
      PutAllMember(fs, files[..|files| - 1], p);
      assert files == files[..|files| - 1] + [Last(files)];
    }
  }

  /** Writing a batch without repeated paths stores every file with its own bytes. */
  lemma {:induction false} PutAllBytes(fs: Fs, files: seq<File>, k: nat)
    requires k < |files| && forall i, j | 0 <= i < j < |files| :: files[i].path != files[j].path
    ensures files[k].path in PutAll(fs, files).files && PutAll(fs, files).files[files[k].path] == files[k].data
  {
    if k < |files| - 1 {
      PutAllBytes(fs, files[..|files| - 1], k);
    }
  }

  /** A staging name is a valid destination of its own, and can be told from every other path. */
  lemma PendingIsSeparate(p: Path, id: string)
    requires Destination(p) && TxId(id)
    ensures Destination(PendingPath(p, id)) && EndsWith(Last(PendingPath(p, id)), PendingSuffix(id))
    ensures !Document(PendingPath(p, id))
  {
    var q := PendingPath(p, id);
    assert Last(q) == Last(p) + PendingSuffix(id);
    assert forall i | 0 <= i < |p| - 1 :: q[i] == p[i];
    assert '/' !in ".pending-";
    assert Last(q)[|Last(q)| - 5] == id[31];
    if |p| == 1 {
      assert q[0][|p[0]|] == '.';
      assert forall i | 1 <= i < |JOURNAL| :: JOURNAL[i] != '.';
    }
  }

  /**
   How an intent is stored, which bytes readers accept in a document, and the transaction a
   document names. Any encoder with a left inverse will do.
   */
  datatype Codec = Codec(encode: seq<Path> -> Bytes, decode: Bytes -> Option<seq<Path>>,
                         accepts: (Path, Bytes) -> bool, tag: Bytes -> string)
  {

    ghost predicate Lawful() {
      forall paths :: decode(encode(paths)) == Some(paths)
    }

    /** The paths the published intent of `id` lists; none if it does not decode. */
    function Listed(fs: Fs, id: string): seq<Path> {
      if IntentFile(id) in fs.files && decode(fs.files[IntentFile(id)]).Some?
      then decode(fs.files[IntentFile(id)]).value else []
    }

    /** `p` belongs to the unfinished transaction `id`. */
    predicate Owns(fs: Fs, id: string, p: Path) {
      !Committed(fs, id) && (InTx(p, id) || p in Listed(fs, id))
    }

    /** `p` belongs to some unfinished transaction. */
    ghost predicate Doomed(fs: Fs, p: Path) {
      exists id | id in fs.txs :: Owns(fs, id, p)
    }

    /** What reopening the store leaves: everything no unfinished transaction owns. */
    ghost function Recovered(fs: Fs): Fs {
      Fs(map p | p in fs.files && !Doomed(fs, p) :: fs.files[p],
         set id | id in fs.txs && Committed(fs, id))
    }

    /** Journal files sit in existing transaction directories, and no intent names a journal file. */
    ghost predicate Sane(fs: Fs) {
      && "" !in fs.txs
      && (forall p | p in fs.files :: |p| > 2 && Journalled(p) ==> p[1] in fs.txs)
      && (forall id | id in fs.txs :: Committed(fs, id) || ListsOutside(fs, id))
    }

    /** The intent of `id` names no journal file. */
    predicate ListsOutside(fs: Fs, id: string) {
      forall p | p in Listed(fs, id) :: !Journalled(p)
    }

    /** A published intent that is complete and lists valid paths only. */
    predicate Readable(fs: Fs, id: string) {
      IntentFile(id) in fs.files ==>
        && decode(fs.files[IntentFile(id)]).Some?
        && forall p | p in decode(fs.files[IntentFile(id)]).value :: ValidRelative(p)
    }

    /** No unfinished transaction has a damaged intent. */
    ghost predicate IntentsReadable(fs: Fs) {
      forall id | id in fs.txs :: !Committed(fs, id) ==> Readable(fs, id)
    }

    /** Every document is whole. */
    ghost predicate Whole(fs: Fs) {
      forall p | p in fs.files && Document(p) :: accepts(p, fs.files[p])
    }

    /** A document names a published transaction, or the unfinished one that lists it. */
    ghost predicate Tagged(fs: Fs, p: Path)
      requires p in fs.files
    {
      var tag := tag(fs.files[p]);
      && (Visible(fs, tag) || p in Listed(fs, tag))
      && (forall id | id in fs.txs && p in Listed(fs, id) :: Committed(fs, id) || tag == id)
    }

    ghost predicate WellTagged(fs: Fs) {
      forall p | p in fs.files && Document(p) :: Tagged(fs, p)
    }

    /** The invariant of every store the journal leaves behind, however it was interrupted. */
    ghost predicate Inv(fs: Fs) {
      Sane(fs) && IntentsReadable(fs) && Whole(fs) && WellTagged(fs)
    }

    /** Nothing is unfinished. */
    ghost predicate Clean(fs: Fs) {
      Sane(fs) && forall id | id in fs.txs :: Committed(fs, id)
    }

    /** A capture that has published its intent and written `files` of the paths it lists. */
    function Prepared(pre: Fs, id: string, paths: seq<Path>, files: seq<File>): Fs {
      PutAll(With(Fs(pre.files, pre.txs + {id}), IntentFile(id), encode(paths)), files)
    }

    /** The store with one more published batch. */
    function Published(pre: Fs, id: string, files: seq<File>): Fs {
      With(Prepared(pre, id, IntentPaths(files, id), files), Marker(id), [])
    }
  
    // ---- Single effects that keep the recovered store ----

    lemma CleanIsFixpoint(fs: Fs)
      requires Clean(fs)
      ensures IntentsReadable(fs) && Recovered(fs) == fs
    {
      assert forall p | p in fs.files :: !Doomed(fs, p);
      assert Recovered(fs).files == fs.files;
      assert Recovered(fs).txs == fs.txs;
    }

    lemma MarkerSurvives(fs: Fs, id: string)
      requires Sane(fs) && Committed(fs, id)
      ensures !Doomed(fs, Marker(id))
    {
      forall other | other in fs.txs ensures !Owns(fs, other, Marker(id)) {
        assert Journalled(Marker(id)) && Marker(id)[1] == id;
      }
    }

    lemma RecoveredIsClean(fs: Fs)
      requires Sane(fs)
      ensures Clean(Recovered(fs)) && Recovered(Recovered(fs)) == Recovered(fs)
    {
      var r := Recovered(fs);
      forall id | id in r.txs ensures Committed(r, id) {
        MarkerSurvives(fs, id);
      }
      forall p | p in r.files && |p| > 2 && Journalled(p) ensures p[1] in r.txs {
        assert !Owns(fs, p[1], p);
      }
      CleanIsFixpoint(r);
    }

    /** `p` may be removed while `id` is unfinished: `id` owns it, and an intent outlives its paths. */
    ghost predicate Removable(fs: Fs, id: string, p: Path) {
      && id in fs.txs && p in fs.files && Owns(fs, id, p)
      && (p == IntentFile(id) ==> forall q | q in Listed(fs, id) :: q !in fs.files)
    }

    lemma OwnsAfterRemoval(fs: Fs, id: string, p: Path, other: string)
      requires Sane(fs) && Removable(fs, id, p)
      ensures var fs' := Without(fs, p);
        && Committed(fs', other) == Committed(fs, other)
        && (Listed(fs', other) == Listed(fs, other)
            || (other == id && Listed(fs', id) == [] && forall q | q in Listed(fs, id) :: q !in fs.files))
        && (Readable(fs, other) ==> Readable(Without(fs, p), other))
    {
      assert ListsOutside(fs, id);
      assert Journalled(Marker(other)) && Marker(other)[1] == other;
      assert Journalled(IntentFile(other)) && IntentFile(other)[1] == other;
    }

    lemma DoomedAfterRemoval(fs: Fs, id: string, p: Path, q: Path)
      requires Sane(fs) && Removable(fs, id, p) && q in fs.files && q != p
      ensures Doomed(Without(fs, p), q) == Doomed(fs, q)
    {
      var fs' := Without(fs, p);
      if Doomed(fs, q) {
        var other :| other in fs.txs && Owns(fs, other, q);
        OwnsAfterRemoval(fs, id, p, other);
        assert Owns(fs', other, q);
      }
      if Doomed(fs', q) {
        var other :| other in fs'.txs && Owns(fs', other, q);
        OwnsAfterRemoval(fs, id, p, other);
        assert Owns(fs, other, q);
      }
    }

    lemma TaggedAfterRemoval(fs: Fs, id: string, p: Path)
      requires Sane(fs) && WellTagged(fs) && Removable(fs, id, p)
      ensures WellTagged(Without(fs, p))
    {
      var fs' := Without(fs, p);
      hide Sane, Listed, Marker, EndsWith;
      forall q | q in fs'.files && Document(q) ensures Tagged(fs', q) {
        assert Tagged(fs, q);
        OwnsAfterRemoval(fs, id, p, tag(fs.files[q]));
        forall other | other in fs'.txs && q in Listed(fs', other)
          ensures Committed(fs', other) || tag(fs.files[q]) == other
        {
          OwnsAfterRemoval(fs, id, p, other);
        }
      }
    }

    /** Removing a file an unfinished transaction owns; its intent goes last. */
    lemma RemoveOwned(fs: Fs, id: string, p: Path)
      requires Sane(fs) && Removable(fs, id, p)
      ensures var fs' := Without(fs, p);
        && Sane(fs') && Recovered(fs') == Recovered(fs)
        && (Inv(fs) ==> Inv(fs'))
    {
      var fs' := Without(fs, p);
      forall other ensures Committed(fs', other) == Committed(fs, other)
        ensures ListsOutside(fs, other) ==> ListsOutside(fs', other)
        ensures Readable(fs, other) ==> Readable(fs', other)
      {
        OwnsAfterRemoval(fs, id, p, other);
      }
      if WellTagged(fs) {
        TaggedAfterRemoval(fs, id, p);
      }
      hide Tagged;
      forall q | q in fs'.files ensures Doomed(fs', q) == Doomed(fs, q) {
        DoomedAfterRemoval(fs, id, p, q);
      }
      assert Doomed(fs, p);
      assert Recovered(fs').files == Recovered(fs).files;
      assert Recovered(fs').txs == Recovered(fs).txs;
    }

    /**
     A capture of `paths` that has started and not yet published: it added files of its own
     only, its complete intent is in place before any of `paths` exists, and every destination
     that exists is whole.
     */
    ghost predicate InFlight(fs: Fs, pre: Fs, id: string, paths: seq<Path>, files: seq<File>) {
      && fs.txs - {id} == pre.txs
      && (id !in fs.txs ==> forall p | p in fs.files :: !InTx(p, id))
      && (forall p | p in pre.files :: p in fs.files && fs.files[p] == pre.files[p])
      && (forall p | p in fs.files :: p in pre.files || p in paths || InTx(p, id))
      && !Committed(fs, id)
      && (IntentFile(id) in fs.files ==> fs.files[IntentFile(id)] == encode(paths))
      && (forall p | p in paths && p in fs.files :: IntentFile(id) in fs.files)
      && (forall f | f in files && f.path in fs.files :: fs.files[f.path] == f.data)
    }

    /** What a capture may touch: its own transaction directory and `paths`, none of which exist yet. */
    ghost predicate Untouched(pre: Fs, id: string, paths: seq<Path>, files: seq<File>) {
      && Clean(pre) && id !in pre.txs && id != ""
      && (forall p | p in paths :: Destination(p) && p !in pre.files)
      && (forall f | f in files :: f.path in paths)
      && (forall p | p in paths && Document(p) :: exists f :: f in files && f.path == p)
      && Whole(pre) && WellTagged(pre) && AcceptsAll(files, id)
    }

    /** The documents of a batch are ones readers accept, and name its transaction. */
    ghost predicate AcceptsAll(files: seq<File>, id: string) {
      forall f | f in files && Document(f.path) :: accepts(f.path, f.data) && tag(f.data) == id
    }

    lemma InFlightWhole(fs: Fs, pre: Fs, id: string, paths: seq<Path>, files: seq<File>)
      requires Untouched(pre, id, paths, files) && InFlight(fs, pre, id, paths, files)
      ensures Whole(fs)
    {
      hide IntentFile, Marker, Clean;
      forall p | p in fs.files && Document(p) ensures accepts(p, fs.files[p]) {
        if p !in pre.files {
          var f :| f in files && f.path == p;
        }
      }
    }

    lemma CleanVisible(fs: Fs, p: Path)
      requires Clean(fs) && WellTagged(fs) && p in fs.files && Document(p)
      ensures Visible(fs, tag(fs.files[p]))
    {
      var tag := tag(fs.files[p]);
      assert Tagged(fs, p);
      TxNames(tag);
      hide Marker, EndsWith, IntentFile;
    }

    lemma InFlightTagged(fs: Fs, pre: Fs, id: string, paths: seq<Path>, files: seq<File>)
      requires Lawful() && id != "" && Untouched(pre, id, paths, files) && InFlight(fs, pre, id, paths, files)
      ensures WellTagged(fs)
    {
      hide Sane, Marker, EndsWith, IntentFile;
      assert Listed(fs, id) == if IntentFile(id) in fs.files then paths else [];
      forall p | p in fs.files && Document(p) ensures Tagged(fs, p) {
        if p in pre.files {
          CleanVisible(pre, p);
        } else {
          assert !InTx(p, id) && p in paths;
          var f :| f in files && f.path == p;
          assert tag(fs.files[p]) == id;
        }
        forall other | other in fs.txs && p in Listed(fs, other)
          ensures Committed(fs, other) || tag(fs.files[p]) == other
        {
          assert other == id || Committed(pre, other);
        }
      }
    }

    /** In flight, only the new transaction is unfinished, and its intent lists `paths` or nothing. */
    lemma InFlightTx(fs: Fs, pre: Fs, id: string, paths: seq<Path>, files: seq<File>)
      requires Lawful() && Untouched(pre, id, paths, files) && InFlight(fs, pre, id, paths, files)
      ensures Listed(fs, id) == if IntentFile(id) in fs.files then paths else []
      ensures forall other | other in fs.txs && other != id :: Committed(fs, other) && other in pre.txs
      ensures forall p | p in pre.files :: !InTx(p, id)
    {
      hide IntentFile, Marker, Whole, WellTagged, AcceptsAll, EndsWith;
      forall other | other in fs.txs && other != id ensures Committed(fs, other) && other in pre.txs {
        assert Committed(pre, other);
      }
    }

    lemma InFlightSane(fs: Fs, pre: Fs, id: string, paths: seq<Path>, files: seq<File>)
      requires Lawful() && Untouched(pre, id, paths, files) && InFlight(fs, pre, id, paths, files)
      ensures Sane(fs) && IntentsReadable(fs)
    {
      InFlightTx(fs, pre, id, paths, files);
      hide Marker, Whole, WellTagged, AcceptsAll, EndsWith, Listed;
    }

    lemma InFlightDoomed(fs: Fs, pre: Fs, id: string, paths: seq<Path>, files: seq<File>, p: Path)
      requires Lawful() && Untouched(pre, id, paths, files) && InFlight(fs, pre, id, paths, files) && p in fs.files
      ensures Doomed(fs, p) <==> p !in pre.files
    {
      InFlightTx(fs, pre, id, paths, files);
      hide Marker, Whole, WellTagged, AcceptsAll, EndsWith, Listed, Sane, IntentFile;
      if p !in pre.files {
        assert id in fs.txs && Owns(fs, id, p);
      }
    }

    lemma InFlightView(fs: Fs, pre: Fs, id: string, paths: seq<Path>, files: seq<File>)
      requires Lawful() && Untouched(pre, id, paths, files) && InFlight(fs, pre, id, paths, files)
      ensures Sane(fs) && IntentsReadable(fs) && Recovered(fs) == pre
    {
      InFlightSane(fs, pre, id, paths, files);
      forall p | p in fs.files ensures Doomed(fs, p) <==> p !in pre.files {
        InFlightDoomed(fs, pre, id, paths, files, p);
      }
      InFlightTx(fs, pre, id, paths, files);
      hide Marker, IntentFile, Doomed, Sane, IntentsReadable, Whole, WellTagged, AcceptsAll, Listed;
      assert Recovered(fs).files == pre.files;
      assert forall other | other in pre.txs :: Committed(fs, other) by { CleanStays(fs, pre, id, paths, files); }
      assert Recovered(fs).txs == pre.txs;
    }

    lemma CleanStays(fs: Fs, pre: Fs, id: string, paths: seq<Path>, files: seq<File>)
      requires Untouched(pre, id, paths, files) && InFlight(fs, pre, id, paths, files)
      ensures forall other | other in pre.txs :: Committed(fs, other)
    {
      hide Marker, IntentFile, Sane, Whole, WellTagged, AcceptsAll, Listed;
      forall other | other in pre.txs ensures Committed(fs, other) {
        assert Committed(pre, other);
      }
    }

    /** At every instant, readers see exactly the documents that recovery would keep. */
    lemma VisibleIsRecovered(fs: Fs, p: Path)
      requires Inv(fs) && p in fs.files && Document(p)
      ensures Visible(fs, tag(fs.files[p])) <==> p in Recovered(fs).files
    {
      var t := tag(fs.files[p]);
      assert Tagged(fs, p);
      TxNames(t);
      hide EndsWith, Marker, IntentFile, Whole, IntentsReadable;
      if !Visible(fs, t) {
        assert t in fs.txs && Owns(fs, t, p);
      }
      if Doomed(fs, p) {
        var id :| id in fs.txs && Owns(fs, id, p);
        assert p in Listed(fs, id);
      }
    }
  }
}
