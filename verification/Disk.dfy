/** The files of one database, what each file operation may do to them, and what a crash may leave. */
module Disk {
  import opened Bytes

  /** A log file: its bytes and how many of them count as being on stable storage. No real file has the second
      part; it is what the machine would keep. */
  datatype WalFile = WalFile(bytes: seq<byte>, synced: nat)

  /** `current` is the manifest number that `CURRENT` names; `metas` holds every version of the metadata
      file that a crash may bring back, the present one among them. */
  datatype Files = Files(current: Option<u64>, manifests: map<u64, seq<byte>>, segments: map<u64, seq<byte>>,
                         wals: map<u64, WalFile>, meta: Option<seq<byte>>, metas: set<seq<byte>>)

  function WalOf(d: Files, n: u64): WalFile {
    if n in d.wals then d.wals[n] else WalFile([], 0)
  }

  /** Equal but for one log file. */
  ghost predicate SameButWal(d: Files, e: Files, n: u64) {
    e.(wals := d.wals) == d && forall m: u64 | m != n :: WalOf(e, m) == WalOf(d, m)
  }

  /** Every segment file but one is the same. */
  ghost predicate OnlySegment(d: Files, e: Files, n: u64) {
    forall m: u64 | m != n :: (m in e.segments <==> m in d.segments) && (m in d.segments ==> e.segments[m] == d.segments[m])
  }

  /** A file replaced as a whole. */
  datatype Replacement =
    | SegmentFile(number: u64, bytes: seq<byte>)
    | ManifestFile(number: u64, bytes: seq<byte>)
    | CurrentFile(number: u64)
    | MetaFile(bytes: seq<byte>)

  function Replaced(d: Files, r: Replacement): Files {
    match r
    case SegmentFile(n, bytes) => d.(segments := d.segments[n := bytes])
    case ManifestFile(n, bytes) => d.(manifests := d.manifests[n := bytes])
    case CurrentFile(n) => d.(current := Some(n))
    case MetaFile(bytes) => d.(meta := Some(bytes), metas := d.metas + {bytes})
  }

  /** After a crash: each log may have lost any suffix that was not synced, and the metadata file may have
      gone back to an earlier version. */
  ghost predicate CrashImage(d: Files, e: Files) {
    && e.current == d.current && e.manifests == d.manifests && e.segments == d.segments && e.metas == d.metas
    && e.meta.Some? == d.meta.Some? && (e.meta.Some? ==> e.meta.value in d.metas)
    && forall n: u64 :: LostSuffix(WalOf(d, n), WalOf(e, n))
  }

  /** Bytes of a log that no crash takes away. */
  function Safe(w: WalFile): nat {
    if w.synced < |w.bytes| then w.synced else |w.bytes|
  }

  ghost predicate LostSuffix(a: WalFile, b: WalFile) {
    b.bytes <= a.bytes && Safe(a) <= |b.bytes| == b.synced
  }

  /** How one file operation goes: it works, it reports an error, or the machine stops in it. A write that
      does not work may have put down `kept` bytes; a stop comes before or after the step took effect. */
  datatype Fault = Works | Fails(kept: nat) | Stops(after: bool, kept: nat)

  /** The file system under a schedule of faults; once stopped, nothing changes any more. */
  class FileSystem {
    var files: Files
    var faults: seq<Fault>
    var dead: bool
    /** Logs of which less is on stable storage than `files` counts, and how much. */
    var debts: map<u64, nat>

    constructor (files: Files, faults: seq<Fault>)
      ensures this.files == files && this.faults == faults && !dead && debts == map[]
    {
      this.files, this.faults, dead, debts := files, faults, false, map[];
    }

    /** The files with no log counted further than it is on stable storage. */
    function Real(): Files
      reads this
    {
      files.(wals := map n | n in files.wals :: if n in debts then Lowered(files.wals[n], debts[n]) else files.wals[n])
    }

    /** No log comes to owe anything; a sync pays. */
    twostate predicate Pays()
      reads this
    {
      debts.Keys <= old(debts.Keys)
    }

    /** From here on the whole of a log counts as synced, on credit: what is really on stable storage is the
        same as before. */
    method Count(n: u64)
      requires WalOf(files, n).synced <= |WalOf(files, n).bytes|
      modifies this`files, this`debts
      ensures files == Counted(old(files), n) && Real() == old(Real()) && debts.Keys == old(debts.Keys) + {n}
    {
      debts := debts[n := WalOf(Real(), n).synced];
      files := Counted(files, n);
    }

    /** What every operation with one effect promises: all of it or nothing, and an error while running
        means nothing. */
    twostate predicate Did(ok: bool, goal: Files)
      reads this
    {
      && (ok ==> files == goal && !dead)
      && (!ok ==> files == old(files) || (dead && files == goal))
      && (old(dead) ==> dead && !ok && files == old(files))
    }

    /** Without faults to come, operations work. */
    twostate predicate Calm(ok: bool)
      reads this
    {
      old(!dead && faults == []) ==> ok && !dead && faults == []
    }

    /** The schedule stops the machine in the second operation to come, before it takes effect. */
    twostate predicate KilledInSync()
      reads this
    {
      old(!dead && |faults| >= 2 && faults[0].Works? && faults[1].Stops? && !faults[1].after)
    }

    method Next() returns (f: Fault)
      modifies this`faults, this`dead
      ensures Calm(f.Works?)
      ensures old(!dead && faults != []) ==> f == old(faults)[0] && faults == old(faults)[1..]
      ensures f.Stops? ==> dead && !old(dead)
      ensures !f.Stops? ==> dead == old(dead)
      ensures dead && !f.Stops? ==> f == Fails(0)
    {
      if dead {
        return Fails(0);
      }
      f := Works;
      if faults != [] {
        f, faults := faults[0], faults[1..];
      }
      dead := f.Stops?;
    }

    /** `atomic_write`: temporary file, sync, rename, directory sync. The rename is the one step that
        changes what readers see; an error in the directory sync is taken not to happen. Only the metadata file,
        which is healed, may be written without a sync. */
    method AtomicWrite(r: Replacement, sync: bool) returns (ok: bool)
      requires sync || r.MetaFile?
      modifies this
      ensures Did(ok, Replaced(old(files), r)) && Calm(ok) && debts == old(debts)
      ensures sync && old(!dead && |faults| >= 2 && faults[0].Works? && faults[1].Stops?) ==> dead && files == old(files)
      ensures sync && old(!dead && |faults| >= 4 && faults[0].Works? && faults[1].Works? && faults[2].Works? && faults[3].Stops?) ==>
                dead && files == Replaced(old(files), r)
    {
      var write := Next();
      if !write.Works? {
        return false;
      }
      if sync {
        var flush := Next();
        if !flush.Works? {
          return false;
        }
      }
      var rename := Next();
      if rename.Works? || (rename.Stops? && rename.after) {
        files := Replaced(files, r);
      }
      if !rename.Works? {
        return false;
      }
      if sync {
        var dir := Next();
        return !dead;
      }
      return true;
    }

    /** `append_and_maybe_sync`. A failed append leaves some prefix of the data behind. */
    method Append(n: u64, data: seq<byte>, sync: bool) returns (ok: bool, ghost kept: nat)
      modifies this
      ensures SameButWal(old(files), files, n) && kept <= |data|
      ensures WalOf(files, n).bytes == WalOf(old(files), n).bytes + data[..kept]
      ensures WalOf(files, n).synced == WalOf(old(files), n).synced || WalOf(files, n).synced == |WalOf(files, n).bytes|
      ensures ok ==> !dead && kept == |data| && (sync ==> WalOf(files, n).synced == |WalOf(files, n).bytes|)
      ensures old(dead) ==> dead && !ok && files == old(files)
      ensures Calm(ok) && Pays() && (ok && sync ==> n !in debts)
      ensures sync && KilledInSync() ==> dead && !ok && kept == |data| && WalOf(files, n).synced == WalOf(old(files), n).synced
    {
      var w := WalOf(files, n);
      kept := 0;
      var append := Next();
      if append.Works? {
        kept := |data|;
        files := files.(wals := files.wals[n := WalFile(w.bytes + data, w.synced)]);
      } else {
        var some := if append.kept < |data| then append.kept else |data|;
        if !dead || append.Stops? {
          kept := some;
          files := files.(wals := files.wals[n := WalFile(w.bytes + data[..some], w.synced)]);
        }
        return false, kept;
      }
      if sync {
        var synced := SyncWal(n);
        return synced, kept;
      }
      return true, kept;
    }

    /** `sync_path` on a log. */
    method SyncWal(n: u64) returns (ok: bool)
      modifies this
      ensures SameButWal(old(files), files, n)
      ensures WalOf(files, n).bytes == WalOf(old(files), n).bytes
      ensures WalOf(files, n).synced == WalOf(old(files), n).synced || WalOf(files, n).synced == |WalOf(files, n).bytes|
      ensures ok ==> !dead && WalOf(files, n).synced == |WalOf(files, n).bytes|
      ensures old(dead) ==> dead && !ok && files == old(files)
      ensures Calm(ok) && Pays() && (ok ==> n !in debts)
      ensures old(!dead && faults != [] && faults[0].Stops? && !faults[0].after) ==> dead && !ok && files == old(files)
    {
      var f := Next();
      if f.Works? || (f.Stops? && f.after) {
        var w := WalOf(files, n);
        files, debts := files.(wals := files.wals[n := WalFile(w.bytes, |w.bytes|)]), debts - {n};
      }
      return f.Works?;
    }

    /** `set_len`: taken to fail only when the machine stops. */
    method TruncateWal(n: u64, len: nat) returns (ok: bool)
      requires len <= |WalOf(files, n).bytes|
      modifies this
      ensures Did(ok, CutWal(old(files), n, len)) && (!dead ==> ok) && Calm(ok)
      ensures Pays() && (ok && len == 0 ==> n !in debts)
    {
      var f := Next();
      if !dead || (f.Stops? && f.after) {
        files := CutWal(files, n, len);
        if n in debts {
          debts := if len == 0 then debts - {n} else if len < debts[n] then debts[n := len] else debts;
        }
      }
      return !dead;
    }

    /** `ensure_file` on a log. */
    method EnsureWal(n: u64) returns (ok: bool)
      modifies this
      ensures SameButWal(old(files), files, n) && WalOf(files, n) == WalOf(old(files), n) && (ok ==> n in files.wals)
      ensures (ok ==> !dead) && (old(dead) ==> dead && !ok) && Calm(ok) && debts == old(debts)
    {
      var f := Next();
      if f.Works? || (f.Stops? && f.after) {
        files := files.(wals := files.wals[n := WalOf(files, n)]);
      }
      return f.Works?;
    }

    method RemoveWal(n: u64)
      modifies this
      ensures files == old(files) || files == old(files).(wals := old(files).wals - {n})
      ensures old(dead) ==> dead && files == old(files)
      ensures Calm(!dead) && Pays()
      ensures old(!dead && faults == []) ==> files == old(files).(wals := old(files).wals - {n})
    {
      var f := Next();
      if f.Works? || (f.Stops? && f.after) {
        files, debts := files.(wals := files.wals - {n}), debts - {n};
      }
    }

    method RemoveSegment(n: u64)
      modifies this
      ensures files == old(files) || files == old(files).(segments := old(files).segments - {n})
      ensures old(dead) ==> dead && files == old(files)
      ensures Calm(!dead) && debts == old(debts)
      ensures old(!dead && faults == []) ==> files == old(files).(segments := old(files).segments - {n})
    {
      var f := Next();
      if f.Works? || (f.Stops? && f.after) {
        files := files.(segments := files.segments - {n});
      }
    }
  }

  function Lowered(w: WalFile, n: nat): WalFile {
    w.(synced := if n < w.synced then n else w.synced)
  }

  /** A log with all of its bytes counted as synced. */
  function Counted(d: Files, n: u64): Files {
    if n in d.wals then d.(wals := d.wals[n := WalFile(d.wals[n].bytes, |d.wals[n].bytes|)]) else d
  }

  /** A log cut to a length; the cut counts as being on stable storage at once. */
  function CutWal(d: Files, n: u64, len: nat): Files
    requires len <= |WalOf(d, n).bytes|
  {
    var w := WalOf(d, n);
    d.(wals := d.wals[n := WalFile(w.bytes[..len], if w.synced < len then w.synced else len)])
  }
}
