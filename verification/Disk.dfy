/**
 The file system under one store, one effect at a time.

 Every primitive may fail. `trace` keeps each state the disk has been in, so a process that
 stops at any point leaves some state of `trace` behind, half-written files included.
 */
module DiskModel {
  import opened Common
  import opened Journal

  /** Removing part of a transaction directory: files below it go first, the directory last. */
  ghost predicate Shrunk(a: Fs, b: Fs, id: string) {
    && (forall p | p in b.files :: p in a.files && b.files[p] == a.files[p])
    && (forall p | p in a.files && !InTx(p, id) :: p in b.files)
    && (b.txs == a.txs || (b.txs == a.txs - {id} && forall p | p in b.files :: !InTx(p, id)))
  }

  /** `b` is `a` with a prefix of `data` appended to the file `p`. */
  ghost predicate Partial(a: Fs, b: Fs, p: Path, data: Bytes)
    requires p in a.files
  {
    exists k | 0 <= k <= |data| :: b == With(a, p, a.files[p] + data[..k])
  }

  class Disk {
    var fs: Fs
    ghost var trace: seq<Fs>

    /** How many calls the environment refused, and how many of them were scans, reads or removals. */
    ghost var faults: nat
    ghost var refused: nat

    ghost predicate Valid()
      reads this
    {
      |trace| > 0 && Last(trace) == fs
    }

    /** The disk as a process finds it, after everything that happened to it before. */
    constructor (found: Fs, ghost past: seq<Fs>)
      ensures Valid() && fs == found && trace == past + [found]
    {
      fs := found;
      trace := past + [found];
      faults, refused := 0, 0;
    }

    /** An operation without an effect on files: a directory sync, or a hook. */
    method Sync() returns (ok: bool)
      requires Valid()
      modifies this
      ensures Valid() && fs == old(fs) && trace == old(trace) + [fs]
      ensures faults == old(faults) + (if ok then 0 else 1) && refused == old(refused)
    {
      ok := *;
      if !ok { faults := faults + 1; }
      trace := trace + [fs];
    }

    /** Listing a directory, or reading a file that is there. */
    method Scan() returns (ok: bool)
      requires Valid()
      modifies this
      ensures Valid() && fs == old(fs) && trace == old(trace) + [fs]
      ensures faults - old(faults) == refused - old(refused) == if ok then 0 else 1
    {
      ok := *;
      if !ok { faults, refused := faults + 1, refused + 1; }
      trace := trace + [fs];
    }

    method MakeTxDir(id: string) returns (ok: bool)
      requires Valid()
      modifies this
      ensures Valid() && trace == old(trace) + [fs]
      ensures fs == if ok then old(fs).(txs := old(fs).txs + {id}) else old(fs)
      ensures faults == old(faults) + (if ok then 0 else 1) && refused == old(refused)
    {
      ok := *;
      if ok { fs := fs.(txs := fs.txs + {id}); } else { faults := faults + 1; }
      trace := trace + [fs];
    }

    /** OpenOptions::create_new: fails on an existing file. */
    method CreateNew(p: Path) returns (ok: bool)
      requires Valid()
      modifies this
      ensures Valid() && trace == old(trace) + [fs]
      ensures fs == if ok then With(old(fs), p, []) else old(fs)
      ensures old(faults) <= faults && refused == old(refused)
      ensures ok <==> p !in old(fs).files && faults == old(faults)
    {
      var able: bool := *;
      if !able { faults := faults + 1; }
      ok := able && p !in fs.files;
      if ok { fs := With(fs, p, []); }
      trace := trace + [fs];
    }

    /** Opens a file for writing, emptying it if it exists. */
    method Truncate(p: Path) returns (ok: bool)
      requires Valid()
      modifies this
      ensures Valid() && trace == old(trace) + [fs]
      ensures fs == if ok then With(old(fs), p, []) else old(fs)
      ensures faults == old(faults) + (if ok then 0 else 1) && refused == old(refused)
    {
      ok := *;
      if ok { fs := With(fs, p, []); } else { faults := faults + 1; }
      trace := trace + [fs];
    }

    /** write_all: may stop after any prefix. */
    method WriteAll(p: Path, data: Bytes) returns (ok: bool)
      requires Valid() && p in fs.files
      modifies this
      ensures Valid() && old(trace) <= trace
      ensures forall i | |old(trace)| <= i < |trace| :: Partial(old(fs), trace[i], p, data)
      ensures Partial(old(fs), fs, p, data)
      ensures ok ==> fs == With(old(fs), p, old(fs).files[p] + data)
      ensures old(faults) <= faults && refused == old(refused) && (ok <==> faults == old(faults))
    {
      ghost var start := fs;
      var n := 0;
      assert start.files[p] + data[..0] == start.files[p];
      assert start == With(start, p, start.files[p] + data[..0]);
      while n < |data|
        invariant n <= |data| && Valid() && old(trace) <= trace
        invariant fs == With(start, p, start.files[p] + data[..n])
        invariant Partial(start, fs, p, data)
        invariant forall i | |old(trace)| <= i < |trace| :: Partial(start, trace[i], p, data)
        invariant faults == old(faults) && refused == old(refused)
      {
        ok := *;
        if !ok {
          faults := faults + 1;
          return;
        }
        assert start.files[p] + data[..n] + [data[n]] == start.files[p] + data[..n + 1];
        fs := With(fs, p, fs.files[p] + [data[n]]);
        assert fs.files == start.files[p := start.files[p] + data[..n + 1]];
        n := n + 1;
        trace := trace + [fs];
      }
      assert data[..n] == data;
      ok := true;
    }

    /** write_new_synced */
    method WriteNewSynced(p: Path, data: Bytes) returns (ok: bool)
      requires Valid()
      modifies this
      ensures Valid() && old(trace) <= trace
      ensures forall i | |old(trace)| <= i < |trace| ::
        trace[i] == old(fs) || (p !in old(fs).files && PartialNew(old(fs), trace[i], p, data))
      ensures fs == old(fs) || (p !in old(fs).files && PartialNew(old(fs), fs, p, data))
      ensures ok ==> fs == With(old(fs), p, data)
      ensures old(faults) <= faults && refused == old(refused)
      ensures ok <==> p !in old(fs).files && faults == old(faults)
    {
      ok := CreateNew(p);
      if !ok { return; }
      ghost var created := fs;
      assert created == With(old(fs), p, [] + data[..0]);
      ok := WriteAll(p, data);
      assert forall s: Fs :: Partial(created, s, p, data) ==> PartialNew(old(fs), s, p, data) by {
        forall s: Fs | Partial(created, s, p, data) ensures PartialNew(old(fs), s, p, data) {
          var k :| 0 <= k <= |data| && s == With(created, p, created.files[p] + data[..k]);
          assert [] + data[..k] == data[..k];
          assert s.files == old(fs).files[p := data[..k]];
        }
      }
      if !ok { return; }
      assert [] + data == data;
      assert fs.files == old(fs).files[p := data];
      ok := Sync();
    }

    method Rename(from: Path, to: Path) returns (ok: bool)
      requires Valid()
      modifies this
      ensures Valid() && trace == old(trace) + [fs]
      ensures old(faults) <= faults && refused == old(refused)
      ensures ok <==> from in old(fs).files && faults == old(faults)
      ensures fs == if ok then With(Without(old(fs), from), to, old(fs).files[from]) else old(fs)
    {
      var able: bool := *;
      if !able { faults := faults + 1; }
      ok := able && from in fs.files;
      if ok { fs := With(Without(fs, from), to, fs.files[from]); }
      trace := trace + [fs];
    }

    /** remove_if_present */
    method RemoveIfPresent(p: Path) returns (ok: bool)
      requires Valid()
      modifies this
      ensures Valid() && trace == old(trace) + [fs]
      ensures fs == old(fs) || fs == Without(old(fs), p)
      ensures ok ==> fs == Without(old(fs), p)
      ensures faults - old(faults) == refused - old(refused) == if ok then 0 else 1
    {
      ok := *;
      if ok { fs := Without(fs, p); } else { faults, refused := faults + 1, refused + 1; }
      trace := trace + [fs];
    }

    /** remove_dir_all on a transaction directory: any order, may stop anywhere. */
    method RemoveTxDir(id: string) returns (ok: bool)
      requires Valid()
      modifies this
      ensures Valid() && old(trace) <= trace
      ensures forall i | |old(trace)| <= i < |trace| :: Shrunk(old(fs), trace[i], id)
      ensures Shrunk(old(fs), fs, id)
      ensures ok ==> fs.txs == old(fs).txs - {id} && forall p | p in fs.files :: !InTx(p, id)
      ensures faults - old(faults) == refused - old(refused) == if ok then 0 else 1
    {
      ghost var start := fs;
      while exists p :: p in fs.files && InTx(p, id)
        invariant Valid() && old(trace) <= trace && fs.txs == start.txs && Shrunk(start, fs, id)
        invariant forall i | |old(trace)| <= i < |trace| :: Shrunk(start, trace[i], id)
        invariant faults == old(faults) && refused == old(refused)
        decreases |fs.files.Keys|
      {
        ok := *;
        if !ok {
          faults, refused := faults + 1, refused + 1;
          return;
        }
        var p :| p in fs.files && InTx(p, id);
        ghost var before := fs.files.Keys;
        fs := Without(fs, p);
        assert fs.files.Keys == before - {p};
        trace := trace + [fs];
      }
      ok := *;
      if !ok {
        faults, refused := faults + 1, refused + 1;
        return;
      }
      fs := fs.(txs := fs.txs - {id});
      trace := trace + [fs];
    }
  }

  /** `b` is `a` with a new file `p` holding a prefix of `data`. */
  ghost predicate PartialNew(a: Fs, b: Fs, p: Path, data: Bytes) {
    exists k | 0 <= k <= |data| :: b == With(a, p, data[..k])
  }
}
