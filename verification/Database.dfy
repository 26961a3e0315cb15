/** The open database: commit, compaction and recovery over files that may fail or stop at any step. */
module Database {
  import opened Bytes
  import opened Codec
  import opened Keys
  import opened Meta
  import opened State
  import opened Apply
  import opened Commit
  import opened Disk
  import opened Generation
  import opened History
  import opened Wal
  import opened WalRecovery
  import opened WalPacker
  import opened SegmentGuards
  import opened Requests
  import Savepoints
  import Segment
  import Txn

  datatype CommitResult = Committed | QuotaExceeded(needed: nat, available: nat) | IoFailed

  datatype Event =
    | Transact(request: Request, abort: bool)
    | Compact
    | Flush
    | Close
    | Hold(segments: set<u64>)
    | PowerLoss(cuts: map<u64, nat>, meta: seq<byte>, faults: seq<Fault>)
    | ProcessDeath(faults: seq<Fault>)
    | Reopen

  /** How one event may move the history on: a reopening may cut some of it off, and a transaction that was not
      aborted may make of the last content what it asks for. */
  ghost predicate Follows(was: seq<Content>, now: seq<Content>, e: Event, maxKeys: u64) {
    now == was || (e.Reopen? && now <= was) || Adds(was, now, e, maxKeys)
  }

  ghost predicate Adds(was: seq<Content>, now: seq<Content>, e: Event, maxKeys: u64) {
    && e.Transact? && !e.abort && was != [] && was[|was| - 1].meta.Some?
    && now == was + [Wanted(was[|was| - 1], maxKeys, e.request)]
  }

  ghost predicate MadeBy(before: Content, after: Content, events: seq<Event>, maxKeys: u64) {
    exists e :: e in events && e.Transact? && !e.abort && before.meta.Some? && after == Wanted(before, maxKeys, e.request)
  }

  /** Every content that is new in a history is what some transaction asked for of the one before it. */
  ghost predicate Lawful(was: seq<Content>, now: seq<Content>, events: seq<Event>, maxKeys: u64) {
    forall i | 0 < i < |now| ::
      (i < |was| && now[i] == was[i] && now[i - 1] == was[i - 1]) || MadeBy(now[i - 1], now[i], events, maxKeys)
  }

  lemma LawfulStart(log: seq<Content>, events: seq<Event>, maxKeys: u64)
    ensures Lawful(log, log, events, maxKeys)
  {
  }

  lemma LawfulStep(was: seq<Content>, now: seq<Content>, next: seq<Content>, events: seq<Event>, i: nat, maxKeys: u64)
    requires Lawful(was, now, events, maxKeys) && i < |events| && Follows(now, next, events[i], maxKeys)
    ensures Lawful(was, next, events, maxKeys)
  {
    hide Wanted, MadeBy;
    if !(next <= now) {
      var n := |now|;
      forall j | 0 <= j < n ensures next[j] == now[j] {
      }
      assert events[i] in events;
      assert MadeBy(now[n - 1], next[n], events, maxKeys) by { ItMade(now[n - 1], next[n], events, i, maxKeys); }
    } else {
      forall j | 0 <= j < |next| ensures next[j] == now[j] {
      }
    }
  }

  lemma ItMade(before: Content, after: Content, events: seq<Event>, i: nat, maxKeys: u64)
    requires i < |events| && events[i].Transact? && !events[i].abort && before.meta.Some?
    requires after == Wanted(before, maxKeys, events[i].request)
    ensures MadeBy(before, after, events, maxKeys)
  {
    hide Wanted;
    assert events[i] in events;
  }

  /** Events that leave an open database open. */
  predicate StaysOpen(e: Event) {
    e.Transact? || e.Compact? || e.Flush? || e.Hold?
  }

  /** What an event without faults makes of an open database. */
  ghost function AfterEvent(v: DbVal, e: Event, maxKeys: u64, maxPayload: nat): DbVal {
    if e.Transact? && !e.abort then AfterRequest(v, maxKeys, maxPayload, e.request) else v
  }

  ghost function AfterEvents(v: DbVal, events: seq<Event>, maxKeys: u64, maxPayload: nat): DbVal
    decreases |events|
  {
    if events == [] then v
    else AfterEvent(AfterEvents(v, events[..|events| - 1], maxKeys, maxPayload), events[|events| - 1], maxKeys, maxPayload)
  }

  /** `load_manifest`. */
  method ReadManifest(d: Files) returns (m: Option<ManifestData>)
    ensures m == LoadManifest(d)
  {
    hide ParseManifest;
    if d.current.None? || d.current.value !in d.manifests {
      return None;
    }
    m := DecodeManifest(d.manifests[d.current.value]);
  }

  /** Takes over the generators the content does not mention from the metadata. */
  method TakeKeyGens(s: DbState)
    requires s.meta.Some?
    modifies s`keyGens
    ensures s.keyGens == MetaKeyGens(s.meta.value.stores) + old(s.keyGens)
  {
    var stores := s.meta.value.stores;
    assert map[] + s.keyGens == s.keyGens;
    for i := 0 to |stores|
      invariant s.keyGens == MetaKeyGens(stores[..i]) + old(s.keyGens)
    {
      hide MetaKeyGens;
      assert stores[..i + 1] == stores[..i] + [stores[i]];
      MetaKeyGensSnoc(stores[..i], stores[i]);
      if stores[i].id !in s.keyGens {
        s.keyGens := s.keyGens[stores[i].id := stores[i].keyGen];
      }
    }
    assert stores[..|stores|] == stores;
  }

  class FsDatabase {
    const fs: FileSystem
    const name: Utf16
    const maxKeys: u64
    const maxPayload: u32
    const compactBytes: u64
    const compactFrames: u64
    var state: DbState
    var isOpen: bool
    /** Segments that live read-only snapshots still hold. */
    var held: set<u64>

    /** The published generation, every state the database has been in, generators defaulted at the last
        open, and the last state a commit has promised to keep. */
    ghost var g: Gen
    ghost var log: seq<Content>
    ghost var extra: map<u64, u64>
    ghost var promised: nat

    /** A handle on a database that does not exist yet. */
    constructor (fs: FileSystem, name: Utf16, maxKeys: u64, maxPayload: u32, compactBytes: u64, compactFrames: u64)
      requires maxPayload <= MAX_FRAME_PAYLOAD && Encodable(EmptyMeta(name)) && Blank(fs.files, name)
      ensures Kept() && !isOpen && g == FirstGen(name) && log == [ContentOf(Fresh(name))] && promised == Durable() == 0
      ensures this.fs == fs && this.name == name && this.maxKeys == maxKeys && this.maxPayload == maxPayload
      ensures this.compactBytes == compactBytes && this.compactFrames == compactFrames && held == {}
    {
      this.fs, this.name, this.maxKeys, this.maxPayload := fs, name, maxKeys, maxPayload;
      this.compactBytes, this.compactFrames := compactBytes, compactFrames;
      state := new DbState();
      isOpen, held := false, {};
      g, log, extra, promised := FirstGen(name), [ContentOf(Fresh(name))], map[], 0;
      new;
      FirstIsSound(name);
    }

    /** The last state that counts as being on stable storage; what a log in debt owes is counted in. */
    ghost function Durable(): int
      reads this
    {
      DurableAt(log, g)
    }

    /** What holds at every moment, stopped or not: the files, as they count, are those of the generation, and
        every promise is on stable storage. Without debt they count as they are. */
    ghost predicate Kept()
      reads this, fs
    {
      && maxPayload <= MAX_FRAME_PAYLOAD && Encodable(EmptyMeta(name))
      && Keeps(fs.files, name, g, log, promised)
    }

    /** What holds while the database is open: its memory and its log are the generation's, all of it. */
    ghost predicate Live()
      reads this, fs, state
    {
      Kept() && isOpen && !fs.dead && Runs(fs.files, g, extra, state.Val(), Manifest())
    }

    /** The generation memory believes in. */
    function Manifest(): ManifestData
      reads this, state
    {
      ManifestData(state.manifestSeq, state.walSeq, state.segments)
    }

    /** Lengths that fit their 32-bit fields and file counters that have not run out. */
    predicate Roomy(v: DbVal)
      reads this, state
    {
      && Segment.ValFits(v) && state.manifestSeq < U64_MAX && state.walSeq < U64_MAX
      && forall n | n in state.segments :: n < U64_MAX
    }

    /** The log counts as synced further than it is. */
    ghost predicate InDebt()
      reads this, fs
    {
      g.Wal() in fs.debts
    }

    // -------------------------------------------------------------- commit

    /** The append loop: every frame of one transaction, synced at the last if at all, or none of them. */
    method LogTxn(ghost frames: seq<WalFrame>, ghost v: DbVal, bytes: seq<seq<byte>>, lenBefore: nat, walSync: bool)
      returns (ok: bool, appended: nat)
      requires OnDisk(fs.files, g) && Grows(g) && WalOf(fs.files, g.Wal()).bytes == LogBytes(g.txns)
      requires state.walSeq == g.Wal() && frames != [] && lenBefore == |LogBytes(g.txns)|
      requires |bytes| == |frames| && forall i | 0 <= i < |bytes| :: bytes[i] == FrameBytes(frames[i])
      modifies fs
      ensures SameButWal(old(fs.files), fs.files, g.Wal())
      ensures LogBytes(g.txns) <= WalOf(fs.files, g.Wal()).bytes
      ensures WalOf(old(fs.files), g.Wal()).synced <= WalOf(fs.files, g.Wal()).synced || !ok
      ensures ok || fs.dead ==> OnDisk(fs.files, Extended(g, frames, v))
      ensures ok ==> !fs.dead && WalOf(fs.files, g.Wal()).bytes == LogBytes(Extended(g, frames, v).txns)
      ensures ok && walSync ==> WalOf(fs.files, g.Wal()).synced == |WalOf(fs.files, g.Wal()).bytes|
      ensures ok ==> appended == |WalOf(fs.files, g.Wal()).bytes| - lenBefore
      ensures !ok && !fs.dead ==> OnDisk(fs.files, g) && WalOf(fs.files, g.Wal()).bytes == LogBytes(g.txns)
      ensures fs.Calm(ok) && fs.Pays() && (ok && walSync ==> g.Wal() !in fs.debts)
      ensures |frames| == 1 && walSync && fs.KilledInSync() ==>
        && fs.dead && WalOf(fs.files, g.Wal()).synced == old(WalOf(fs.files, g.Wal()).synced)
        && WalOf(fs.files, g.Wal()).bytes == LogBytes(Extended(g, frames, v).txns)
    {
      hide OnDisk, Grows, LogBytes, FrameBytes, WalOf, CutWal, SameButWal, Concat;
      var n := state.walSeq;
      ghost var start, before := fs.files, LogBytes(g.txns);
      appended := 0;
      LogIsSynced(fs.files, g);
      NothingWritten(frames);
      SameButWalTrans(start, start, start, n);
      for i := 0 to |bytes|
        invariant SameButWal(start, fs.files, n)
        invariant WalOf(fs.files, n).bytes == before + Concat(FrameBytes, frames[..i])
        invariant WalOf(start, n).synced <= WalOf(fs.files, n).synced <= |WalOf(fs.files, n).bytes|
        invariant i == |bytes| && walSync ==> WalOf(fs.files, n).synced == |WalOf(fs.files, n).bytes|
        invariant i > 0 ==> !fs.dead
        invariant old(!fs.dead && fs.faults == []) ==> !fs.dead && fs.faults == []
        invariant i == 0 ==> fs.faults == old(fs.faults) && fs.dead == old(fs.dead) && fs.files == start
        invariant i > 0 && |frames| == 1 && walSync ==> !fs.KilledInSync()
        invariant fs.Pays() && (i == |bytes| && walSync ==> n !in fs.debts)
        invariant appended == |Concat(FrameBytes, frames[..i])|
      {
        var doSync := walSync && i + 1 == |bytes|;
        ghost var d := fs.files;
        var done, kept := fs.Append(n, bytes[i], doSync);
        SameButWalTrans(start, d, fs.files, n);
        FrameWritten(before, frames, i, kept);
        if !done {
          CutBackOrStopped(start, fs.files, g, frames, v);
          ExtendedLog(g, frames);
          if |frames| == 1 {
            assert frames[..1] == frames;
          }
          var _ := fs.TruncateWal(n, lenBefore);
          return false, appended;
        }
        appended := appended + |bytes[i]|;
      }
      assert frames[..|bytes|] == frames;
      ExtendedLog(g, frames);
      Appending(start, fs.files, g, frames, v);
      return true, appended;
    }

    // -------------------------------------------------------------- compaction

    /** The new segment and the empty log, of numbers nothing uses. */
    method StageNext(segSeq: u64, walSeq: u64) returns (ok: bool)
      requires OnDisk(fs.files, g) && Segment.ValFits(state.Val())
      requires segSeq !in g.manifest.segments && walSeq != g.Wal()
      modifies fs
      ensures OnDisk(fs.files, g) && WalOf(fs.files, g.Wal()) == old(WalOf(fs.files, g.Wal()))
      ensures fs.files.meta == old(fs.files.meta) && fs.files.current == old(fs.files.current)
      ensures OnlySegment(old(fs.files), fs.files, segSeq)
      ensures ok ==>
        && !fs.dead && segSeq in fs.files.segments && Segment.Holds(fs.files.segments[segSeq], segSeq, state.Val())
        && WalOf(fs.files, walSeq) == WalFile([], 0) && walSeq !in fs.debts
      ensures fs.Calm(ok) && fs.Pays()
    {
      hide OnDisk, Segment.ValFits, Segment.Holds, WalOf, CutWal;
      ghost var v := state.Val();
      MetaIsThere(v);
      var bytes := Segment.EncodeSegment(segSeq, state.Val());
      if bytes.None? {
        return false;
      }
      OtherFile(fs.files, g, SegmentFile(segSeq, bytes.value));
      var wrote := fs.AtomicWrite(SegmentFile(segSeq, bytes.value), true);
      WalKept(old(fs.files), fs.files, g.Wal());
      if !wrote {
        return false;
      }
      ghost var d1 := fs.files;
      var made := fs.EnsureWal(walSeq);
      OtherWal(d1, fs.files, g, walSeq);
      if !made {
        return false;
      }
      ghost var d2 := fs.files;
      WalEmptied(d2, walSeq);
      OtherWal(d2, CutWal(d2, walSeq, 0), g, walSeq);
      ok := fs.TruncateWal(walSeq, 0);
    }

    /** The new segment, the empty log, the manifest, and last of all the name in `CURRENT`. */
    method PublishNext(segSeq: u64, manifestSeq: u64, walSeq: u64) returns (ok: bool)
      requires OnDisk(fs.files, g) && Segment.ValFits(state.Val())
      requires segSeq !in g.manifest.segments && fs.files.current != Some(manifestSeq) && walSeq != g.Wal()
      modifies fs
      ensures var next := Compacted(name, ManifestData(manifestSeq, walSeq, [segSeq]), state.Val());
              && (ok ==> !fs.dead && OnDisk(fs.files, next) && WalOf(fs.files, walSeq).bytes == [])
              && (!ok && !fs.dead ==> OnDisk(fs.files, g) && WalOf(fs.files, g.Wal()) == old(WalOf(fs.files, g.Wal())))
              && (OnDisk(fs.files, g) || OnDisk(fs.files, next)) && fs.Calm(ok)
              && fs.files.current.Some? && fs.files.meta == old(fs.files.meta)
      ensures fs.Pays() && (walSeq !in fs.debts || (!ok && OnDisk(fs.files, g)))
      ensures OnlySegment(old(fs.files), fs.files, segSeq)
    {
      hide OnDisk, Segment.ValFits, Segment.Holds, WalOf, Sealed, ManifestBody, OnlySegment;
      OnDiskIsCurrent(fs.files, g);
      var staged := StageNext(segSeq, walSeq);
      if !staged {
        return false;
      }
      var m := ManifestData(manifestSeq, walSeq, [segSeq]);
      var encoded := EncodeManifest(m);
      ghost var d3 := fs.files;
      OtherFile(d3, g, ManifestFile(manifestSeq, encoded));
      var listed := fs.AtomicWrite(ManifestFile(manifestSeq, encoded), true);
      WalKept(d3, fs.files, g.Wal());
      WalKept(d3, fs.files, walSeq);
      SegmentsKept(old(fs.files), d3, fs.files, segSeq);
      if !listed {
        return false;
      }
      ghost var d4 := fs.files;
      CurrentSwitches(d4, g, name, m, state.Val(), segSeq);
      ok := fs.AtomicWrite(CurrentFile(manifestSeq), true);
      WalKept(d4, fs.files, g.Wal());
      WalKept(d4, fs.files, walSeq);
      SegmentsKept(old(fs.files), d4, fs.files, segSeq);
    }

    /** Superseded segments go as soon as no snapshot holds them. */
    method Reclaim(old_: seq<u64>)
      requires OnDisk(fs.files, g) && forall n | n in old_ :: n !in g.manifest.segments
      modifies fs
      ensures OnDisk(fs.files, g) && WalOf(fs.files, g.Wal()) == old(WalOf(fs.files, g.Wal()))
      ensures fs.files.meta == old(fs.files.meta) && (old(fs.dead) ==> fs.dead) && fs.Calm(!fs.dead) && fs.Pays()
      ensures forall n | n in old(fs.files.segments) && (n !in old_ || n in held) ::
                n in fs.files.segments && fs.files.segments[n] == old(fs.files.segments)[n]
      ensures fs.files.segments.Keys <= old(fs.files.segments.Keys)
      ensures old(!fs.dead && fs.faults == []) ==> forall n | n in old_ && n !in held :: n !in fs.files.segments
    {
      hide OnDisk, WalOf;
      for i := 0 to |old_|
        invariant OnDisk(fs.files, g) && WalOf(fs.files, g.Wal()) == old(WalOf(fs.files, g.Wal()))
        invariant fs.files.meta == old(fs.files.meta) && (old(fs.dead) ==> fs.dead) && fs.Calm(!fs.dead) && fs.Pays()
        invariant forall n | n in old(fs.files.segments) && (n !in old_ || n in held) ::
                    n in fs.files.segments && fs.files.segments[n] == old(fs.files.segments)[n]
        invariant fs.files.segments.Keys <= old(fs.files.segments.Keys)
        invariant old(!fs.dead && fs.faults == []) ==> forall n | n in old_[..i] && n !in held :: n !in fs.files.segments
      {
        if old_[i] !in held {
          ghost var d := fs.files;
          fs.RemoveSegment(old_[i]);
          OtherFileRemoved(d, fs.files, g, old_[i]);
          WalKept(d, fs.files, g.Wal());
        }
      }
    }

    /** The clean-up after publication: superseded segments, the metadata file, the superseded log. */
    method CleanUp(oldWal: u64, oldSegments: seq<u64>) returns (ok: bool)
      requires OnDisk(fs.files, g) && WalOf(fs.files, g.Wal()).bytes == [] && oldWal != g.Wal()
      requires forall n | n in oldSegments :: n !in g.manifest.segments
      requires g.manifest.segments != [] && state.meta.Some? && Encodable(state.meta.value)
      modifies fs
      ensures OnDisk(fs.files, g) && WalOf(fs.files, g.Wal()).bytes == [] && (old(fs.dead) ==> fs.dead)
      ensures ok || old(MetaShown(fs.files, state.meta)) ==> MetaShown(fs.files, state.meta)
      ensures fs.Calm(ok) && fs.Pays()
      ensures forall n | n in old(fs.files.segments) && (n !in oldSegments || n in held) ::
                n in fs.files.segments && fs.files.segments[n] == old(fs.files.segments)[n]
      ensures old(!fs.dead && fs.faults == []) ==>
                oldWal !in fs.files.wals && forall n | n in oldSegments && n !in held :: n !in fs.files.segments
    {
      hide OnDisk, WalOf, Encodable, ParseMeta, MetaBytes;
      OnDiskCounts(fs.files, g);
      Reclaim(oldSegments);
      var bytes := EncodeMeta(state.meta.value);
      MetaWritten(fs.files, g, state.meta.value);
      WrittenIsShown(fs.files, state.meta.value);
      ghost var d := fs.files;
      ok := fs.AtomicWrite(MetaFile(bytes), true);
      WalKept(d, fs.files, g.Wal());
      ghost var e := fs.files;
      fs.RemoveWal(oldWal);
      OtherFileRemoved(e, fs.files, g, oldWal);
      OtherWalRemoved(e, fs.files, oldWal, g.Wal());
    }

    /** `compact_now`. Whatever step it fails or stops in, the history is as it was; once it has published,
        all of the history is on stable storage. */
    method CompactNow() returns (ok: bool)
      requires Live() && Roomy(state.Val())
      modifies this, fs, state
      ensures Kept() && (!fs.dead ==> Live())
      ensures state == old(state) && isOpen && held == old(held) && state.Val() == old(state.Val())
      ensures log == old(log) && promised == old(promised) && Durable() >= old(Durable())
      ensures ok ==> Durable() == |log| - 1 && state.walBytesSinceCompact == state.walFramesSinceCompact == 0
      ensures SameCounters() || state.walBytesSinceCompact == state.walFramesSinceCompact == 0
      ensures ok || old(MetaShown(fs.files, state.meta)) ==> MetaShown(fs.files, state.meta)
      ensures fs.Calm(ok) && (InDebt() ==> !ok && old(InDebt()))
      ensures ok ==> g.txns == [] && g.manifest.segments != []
      ensures Numbers() <= old(Numbers()) + 1
      ensures forall n | n in held && n in old(fs.files.segments) && n != SaturatingInc(Highest(old(state.segments))) ::
                n in fs.files.segments && fs.files.segments[n] == old(fs.files.segments)[n]
      ensures old(fs.faults) == [] ==>
                old(state.walSeq) !in fs.files.wals && forall n | n in old(state.segments) && n !in held :: n !in fs.files.segments
    {
      hide ParseMeta, OnDisk, WalOf, Segment.ValFits, Encodable, Keeps, Runs, LogBytes;
      var oldWal, oldSegments := state.walSeq, state.segments;
      var published := Publish();
      if !published {
        return false;
      }
      ghost var d := fs.files;
      ok := CleanUp(oldWal, oldSegments);
      OnDiskIsCurrent(fs.files, g);
      StillRuns(d, fs.files, name, g, log, promised, extra, state.Val(), Manifest());
    }

    /** Publication, and memory's switch to what was published. */
    method Publish() returns (published: bool)
      requires Live() && Roomy(state.Val())
      modifies this`g, this`extra, fs, state
      ensures Kept() && Durable() >= old(Durable()) && state.Val() == old(state.Val()) && fs.files.meta == old(fs.files.meta)
      ensures state.meta.Some? && Encodable(state.meta.value)
      ensures !published ==> SameCounters() && (!fs.dead ==> Live())
      ensures fs.Calm(published) && (InDebt() ==> !published && old(InDebt()))
      ensures published ==>
        && Live() && OnDisk(fs.files, g) && WalOf(fs.files, g.Wal()).bytes == LogBytes(g.txns) == [] && Durable() == |log| - 1
        && state.walBytesSinceCompact == state.walFramesSinceCompact == 0
        && g.manifest.segments != []
        && old(state.walSeq) != g.Wal() && forall n | n in old(state.segments) :: n !in g.manifest.segments
      ensures published ==> g.txns == [] && held == old(held) && Numbers() <= old(Numbers()) + 1
      ensures !published ==> unchanged(state)
      ensures OnlySegment(old(fs.files), fs.files, SaturatingInc(Highest(old(state.segments))))
      ensures published ==> state.segments == [SaturatingInc(Highest(old(state.segments)))]
    {
      hide OnDisk, WalOf, Sound, Recorded, Mendable, Holds, Segment.ValFits, Encodable, Keeps, Runs, LogBytes, MetaBytes;
      hide OnlySegment, HighestNumber, Highest;
      NumbersGrow(state.manifestSeq, state.walSeq, state.segments);
      var segSeq := SaturatingInc(Highest(state.segments));
      var manifestSeq, walSeq := SaturatingInc(state.manifestSeq), SaturatingInc(state.walSeq);
      ghost var v := state.Val();
      ghost var next := Compacted(name, ManifestData(manifestSeq, walSeq, [segSeq]), v);
      ghost var d, m := fs.files, Manifest();
      BeforeCompaction(d, name, g, log, promised, extra, v, m, next);
      RunningMeta(d, name, g, log, promised, extra, v, m);
      published := PublishNext(segSeq, manifestSeq, walSeq);
      NoLogYet();
      CompactionOutcome(d, fs.files, name, g, log, promised, extra, v, m, next);
      if !published {
        if fs.dead && !OnDisk(fs.files, g) {
          g, extra := next, map[];
        }
        return;
      }
      g, extra := next, map[];
      state.segments, state.manifestSeq, state.walSeq := [segSeq], manifestSeq, walSeq;
      state.walBytesSinceCompact, state.walFramesSinceCompact := 0, 0;
    }

    /** The highest file number in use. */
    function Numbers(): nat
      reads this, state
    {
      HighestNumber(state.manifestSeq, state.walSeq, state.segments)
    }

    twostate predicate SameCounters()
      reads this, state
    {
      && state == old(state) && state.walBytesSinceCompact == old(state.walBytesSinceCompact)
      && state.walFramesSinceCompact == old(state.walFramesSinceCompact)
    }

    /** A generation has just been published: nothing in the log, and everything on stable storage. */
    ghost predicate Compact()
      reads this, state
    {
      && state.walBytesSinceCompact == state.walFramesSinceCompact == 0 && Durable() == |log| - 1
      && g.txns == [] && g.manifest.segments != []
    }

    /** `maybe_compact`. */
    method MaybeCompact() returns (ok: bool)
      requires Live() && Roomy(state.Val())
      modifies this, fs, state
      ensures Kept() && (!fs.dead ==> Live())
      ensures state == old(state) && isOpen && held == old(held) && state.Val() == old(state.Val())
      ensures log == old(log) && promised == old(promised) && Durable() >= old(Durable())
      ensures old(state.walBytesSinceCompact < compactBytes && state.walFramesSinceCompact < compactFrames) ==>
                ok && fs.files == old(fs.files) && fs.dead == old(fs.dead) && SameCounters() && state.walSeq == old(state.walSeq)
      ensures SameCounters() || state.walBytesSinceCompact == state.walFramesSinceCompact == 0
      ensures old(MetaShown(fs.files, state.meta)) ==> MetaShown(fs.files, state.meta)
      ensures fs.Calm(ok) && (InDebt() ==> old(InDebt()))
      ensures old(state.walBytesSinceCompact >= compactBytes || state.walFramesSinceCompact >= compactFrames) && ok ==> Compact()
      ensures Numbers() <= old(Numbers()) + 1
    {
      hide MetaShown;
      ok := true;
      if state.walBytesSinceCompact >= compactBytes || state.walFramesSinceCompact >= compactFrames {
        ok := CompactNow();
      }
    }

    // -------------------------------------------------------------- the commit

    /** The durable half of a commit: the log, then the metadata file, undone together on an error. */
    method Write(ghost frames: seq<WalFrame>, ghost v: DbVal, bytes: seq<seq<byte>>, meta: DatabaseMeta, dirty: bool, sync: bool)
      returns (ok: bool, appended: nat)
      requires OnDisk(fs.files, g) && Grows(g) && WalOf(fs.files, g.Wal()).bytes == LogBytes(g.txns)
      requires state.walSeq == g.Wal() && frames != [] && Encodable(meta) && v.meta == Some(meta)
      requires |bytes| == |frames| && forall i | 0 <= i < |bytes| :: bytes[i] == FrameBytes(frames[i])
      requires Sound(Extended(g, frames, v), name)
      modifies fs
      ensures ok ==> && !fs.dead && WalOf(fs.files, g.Wal()).bytes == LogBytes(Extended(g, frames, v).txns)
                     && OnDisk(fs.files, Next(g, frames, v, sync || dirty))
                     && appended == |WalOf(fs.files, g.Wal()).bytes| - |LogBytes(g.txns)|
                     && (dirty ==> MetaShown(fs.files, Some(meta)))
      ensures !ok && !fs.dead ==> OnDisk(fs.files, g) && WalOf(fs.files, g.Wal()).bytes == LogBytes(g.txns)
      ensures !ok && fs.dead ==> OnDisk(fs.files, Extended(g, frames, v)) || OnDisk(fs.files, Next(g, frames, v, true))
      ensures fs.Calm(ok) && fs.Pays() && (ok && (sync || dirty) ==> g.Wal() !in fs.debts)
      ensures |frames| == 1 && (sync || dirty) && fs.KilledInSync() ==>
        && fs.dead && OnDisk(fs.files, Extended(g, frames, v)) && SameButWal(old(fs.files), fs.files, g.Wal())
        && WalOf(fs.files, g.Wal()) == WalFile(LogBytes(Extended(g, frames, v).txns), old(WalOf(fs.files, g.Wal()).synced))
    {
      hide MetaShown, OnDisk, Grows, Sound, LogBytes, FrameBytes, WalOf, CutWal, Encodable, MetaBytes, RestoresAt;
      SoundGrows(Extended(g, frames, v), name);
      ghost var d, h := fs.files, Extended(g, frames, v);
      var lenBefore := |WalOf(fs.files, state.walSeq).bytes|;
      ok, appended := LogTxn(frames, v, bytes, lenBefore, sync || dirty);
      if !ok {
        return false, appended;
      }
      if sync || dirty {
        SyncedLog(fs.files, h);
      }
      if dirty {
        ghost var e := fs.files;
        StatesCount(h);
        ExtendedLog(g, frames);
        StateRestores(h, name, |h.txns|);
        SameRestores(h, AllSynced(h), meta, |h.txns|);
        MetaWritten(e, AllSynced(h), meta);
        WrittenIsShown(e, meta);
        var encoded := EncodeMeta(meta);
        ok := fs.AtomicWrite(MetaFile(encoded), sync);
        WalKept(e, fs.files, g.Wal());
        if !ok {
          LogIsSynced(e, h);
          CutBackOrStopped(d, e, g, frames, v);
          var _ := fs.TruncateWal(state.walSeq, lenBefore);
          return false, appended;
        }
      }
      return true, appended;
    }

    /** The state a commit of `t` makes. */
    function Outcome(t: Txn.FsTxn): DbVal
      reads this, state, t
    {
      Merged(state.Val(), PendingOf(t), PatchedMeta(t.meta, t.pendingKeyGens), SaturatingInc(state.nextTxnSeq))
    }

    /** Nothing to write: a read-only transaction, or no change at all. */
    predicate Quiet(t: Txn.FsTxn)
      reads t
    {
      t.mode.ReadOnly? || (PendingOf(t).Size() == 0 && !t.schemaDirty)
    }

    /** Every operation of the commit fits a frame. */
    ghost predicate Fitting(t: Txn.FsTxn)
      requires Encodable(PatchedMeta(t.meta, t.pendingKeyGens))
      reads this, t
    {
      PayloadFits(PendingOf(t), PatchedMeta(t.meta, t.pendingKeyGens), t.schemaDirty || t.pendingKeyGens != map[], maxPayload)
    }

    /** A transaction of this database whose commit stays within the formats' limits. */
    ghost predicate Ready(t: Txn.FsTxn)
      reads this, fs, state, t, t.state
    {
      && Live() && t.state == state && t.MetaSound(g.Last().keyGens.Keys)
      && Encodable(PatchedMeta(t.meta, t.pendingKeyGens)) && PendingOf(t).Size() < U64_MAX && Roomy(Outcome(t))
    }

    /** The transaction's frames put on record, or nothing. */
    method Record(p: Pending, ghost o: Order, ghost base: DatabaseMeta, ghost schemaDirty: bool,
                  ops: seq<WalOp>, meta: DatabaseMeta, dirty: bool, sync: bool) returns (r: CommitResult, appended: nat)
      requires Live() && Walks(o, p) && Covered(base, g.Last().keyGens.Keys) && (!schemaDirty ==> state.meta == Some(base))
      requires meta == PatchedMeta(base, p.keyGens) && Encodable(meta) && dirty == (schemaDirty || p.keyGens != map[])
      requires ops == PayloadOps(o, p, meta, dirty) && 0 < |ops| < U64_LIMIT
      modifies this, fs
      ensures Kept() && state == old(state) && held == old(held) && isOpen
      ensures Durable() >= old(Durable()) && promised >= old(promised)
      ensures r.QuotaExceeded? <==> exists op :: op in ops && !FitsAlone(op, maxPayload)
      ensures r.Committed? ==> appended == |WalOf(fs.files, state.walSeq).bytes| - old(|WalOf(fs.files, state.walSeq).bytes|)
      ensures r.Committed? && dirty ==> MetaShown(fs.files, Some(meta))
      ensures fs.Calm(!r.IoFailed?) && (InDebt() ==> old(InDebt()) && !(r.Committed? && (sync || dirty)))
      ensures |ops| == 1 && FitsAlone(ops[0], maxPayload) && (sync || dirty) && fs.KilledInSync() ==>
                fs.dead && r.IoFailed? && BegunUnsynced(old(g), g, old(fs.files), fs.files) && g.Last().meta == Some(meta)
      ensures var v := Merged(state.Val(), p, meta, SaturatingInc(state.nextTxnSeq));
              && (r.Committed? ==> !fs.dead && log == old(log) + [ContentOf(v)] && Runs(fs.files, g, extra, v, Manifest()))
              && (r.Committed? && (sync || dirty) ==> promised == |log| - 1)
              && (!r.Committed? && !fs.dead ==> Live() && log == old(log))
              && (!r.Committed? && !fs.dead ==> WalOf(fs.files, state.walSeq).bytes == old(WalOf(fs.files, state.walSeq).bytes))
              && (!r.Committed? && fs.dead ==> log == old(log) || log == old(log) + [ContentOf(v)])
      ensures r.QuotaExceeded? ==> r.available == maxPayload < r.needed
    {
      hide OnDisk, WalOf, Sound, Grows, Recorded, Mendable, Encodable, Keeps, Runs, LogBytes, Merged, PatchedMeta;
      hide PayloadOps, FrameBytes, FitsAlone, TxnFrames, Walks, Covered, Holds, ContentOf, MetaShown, SameButWal, BegunUnsynced;
      appended := 0;
      ghost var mem := state.Val();
      RunningParts(fs.files, name, g, log, promised, extra, mem, Manifest());
      var encoded := EncodeTxnFramesLimited(state.nextTxnSeq, ops, maxPayload);
      if encoded.Err? {
        MisfitIsTooLarge(ops, maxPayload, encoded.error);
        return QuotaExceeded(encoded.error.needed, maxPayload), 0;
      }
      ghost var frames, v := CommitExtends(g, name, extra, mem, o, p, base, schemaDirty, maxPayload);
      LoneFrame(state.nextTxnSeq, ops, maxPayload);
      var ok;
      ok, appended := RecordFrames(frames, v, Merged(mem, p, meta, SaturatingInc(state.nextTxnSeq)), encoded.value, meta, dirty, sync);
      return if ok then Committed else IoFailed, appended;
    }

    /** The frames on disk, and the history, the generation and the promise with them. */
    method RecordFrames(ghost frames: seq<WalFrame>, ghost v: DbVal, ghost mem: DbVal, bytes: seq<seq<byte>>,
                        meta: DatabaseMeta, dirty: bool, sync: bool) returns (ok: bool, appended: nat)
      requires Live() && frames != [] && Sound(Extended(g, frames, v), name) && Holds(mem, extra, Extended(g, frames, v))
      requires |bytes| == |frames| && forall i | 0 <= i < |bytes| :: bytes[i] == FrameBytes(frames[i])
      requires Encodable(meta) && v.meta == Some(meta) && (!dirty ==> v.meta == g.Last().meta)
      modifies this, fs
      ensures Kept() && state == old(state) && held == old(held) && isOpen
      ensures Durable() >= old(Durable()) && promised >= old(promised)
      ensures ok ==> appended == |WalOf(fs.files, state.walSeq).bytes| - old(|WalOf(fs.files, state.walSeq).bytes|)
      ensures ok && dirty ==> MetaShown(fs.files, Some(meta))
      ensures fs.Calm(ok) && (InDebt() ==> old(InDebt()) && !(ok && (sync || dirty)))
      ensures |frames| == 1 && (sync || dirty) && fs.KilledInSync() ==>
                fs.dead && !ok && BegunUnsynced(old(g), g, old(fs.files), fs.files) && g.Last().meta == Some(meta)
      ensures ok ==> !fs.dead && log == old(log) + [ContentOf(mem)] && Runs(fs.files, g, extra, mem, Manifest())
      ensures ok && (sync || dirty) ==> promised == |log| - 1
      ensures !ok && !fs.dead ==>
        Live() && log == old(log) && WalOf(fs.files, state.walSeq).bytes == old(WalOf(fs.files, state.walSeq).bytes)
      ensures !ok && fs.dead ==> log == old(log) + [ContentOf(mem)]
    {
      hide OnDisk, WalOf, Sound, Grows, Recorded, Mendable, Encodable, Keeps, Runs, LogBytes;
      hide FrameBytes, Holds, ContentOf, MetaShown, SameButWal, BegunUnsynced;
      ghost var d, before, m := fs.files, state.Val(), Manifest();
      RunningParts(d, name, g, log, promised, extra, before, m);
      StatesCount(g);
      SameContent(mem, extra, g, frames, v);
      ok, appended := Write(frames, v, bytes, meta, dirty, sync);
      if !ok {
        if fs.dead {
          ghost var synced := !OnDisk(fs.files, Next(g, frames, v, false));
          NextKeeps(d, fs.files, name, g, log, promised, extra, before, m, frames, v, synced);
          if |frames| == 1 && (sync || dirty) && fs.KilledInSync() {
            Begun(d, fs.files, g, frames, v);
          }
          g, log := Next(g, frames, v, synced), log + [ContentOf(v)];
        } else {
          StillRuns(d, fs.files, name, g, log, promised, extra, before, m);
        }
        return;
      }
      NextKeeps(d, fs.files, name, g, log, promised, extra, before, m, frames, v, sync || dirty);
      NextRuns(d, fs.files, name, g, extra, before, m, frames, v, mem, sync || dirty);
      g, log := Next(g, frames, v, sync || dirty), log + [ContentOf(v)];
      if sync || dirty {
        promised := |log| - 1;
      }
    }

    /** `commit`. */
    method Commit(t: Txn.FsTxn) returns (r: CommitResult)
      requires Ready(t)
      modifies this, fs, state
      ensures Kept() && (!fs.dead ==> Live()) && state == old(state) && held == old(held) && isOpen
      ensures old(log) <= log && Durable() >= old(Durable()) && promised >= old(promised)
      ensures r.Committed? ==> log == if Quiet(t) then old(log) else old(log) + [ContentOf(old(Outcome(t)))]
      ensures r.Committed? && !Quiet(t) && (t.durability.Strict? || t.schemaDirty || t.pendingKeyGens != map[]) ==>
                promised == |log| - 1
      ensures r.Committed? && !Quiet(t) && !fs.dead ==> state.Val() == old(Outcome(t))
      ensures r.Committed? && !Quiet(t) && (t.schemaDirty || t.pendingKeyGens != map[]) ==>
                MetaShown(fs.files, Some(PatchedMeta(t.meta, t.pendingKeyGens)))
      ensures !r.Committed? && !fs.dead ==>
        && log == old(log) && state.Val() == old(state.Val())
        && WalOf(fs.files, state.walSeq).bytes == old(WalOf(fs.files, state.walSeq).bytes)
      ensures !r.Committed? && fs.dead ==> log == old(log) || log == old(log) + [ContentOf(old(Outcome(t)))]
      ensures r.QuotaExceeded? <==> !Quiet(t) && !old(Fitting(t))
      ensures fs.Calm(!r.IoFailed?) && (InDebt() ==> old(InDebt()))
      ensures r.Committed? && !Quiet(t) && (t.durability.Strict? || t.schemaDirty || t.pendingKeyGens != map[]) ==> !InDebt()
      ensures PendingOf(t).Size() == 0 && t.schemaDirty && !t.mode.ReadOnly? && old(Fitting(t)) && fs.KilledInSync() ==>
                && fs.dead && BegunUnsynced(old(g), g, old(fs.files), fs.files) && g.Last().meta == Some(t.meta)
                && log == old(log) + [ContentOf(old(Outcome(t)))]
      ensures Numbers() <= old(Numbers()) + 1
      ensures r.Committed? && Quiet(t) ==> state.Val() == old(state.Val()) && fs.files == old(fs.files)
      ensures r.Committed? && !Quiet(t) && old(fs.faults) == [] ==>
        || Compact()
        || (&& state.walBytesSinceCompact < compactBytes && state.walFramesSinceCompact < compactFrames
            && state.walFramesSinceCompact == SaturatingAdd(old(state.walFramesSinceCompact), 1)
            && |WalOf(fs.files, state.walSeq).bytes| >= old(|WalOf(fs.files, state.walSeq).bytes|)
            && state.walBytesSinceCompact ==
               SaturatingAdd(old(state.walBytesSinceCompact),
                       |WalOf(fs.files, state.walSeq).bytes| - old(|WalOf(fs.files, state.walSeq).bytes|)))
      ensures r.Committed? && !Quiet(t) && SaturatingAdd(old(state.walFramesSinceCompact), 1) >= compactFrames ==>
                old(fs.faults) == [] ==> Compact()
      ensures r.QuotaExceeded? ==> r.available == maxPayload < r.needed
    {
      hide Segment.ValFits, Encodable, Keeps, Runs, Merged, PatchedMeta, PayloadOps, Walks, Covered, ContentOf, WalOf;
      hide MetaShown, FitsAlone;
      if t.mode.ReadOnly? {
        return Committed;
      }
      var sync := t.durability.Strict?;
      var ops, meta, dirty, o := BuildCommitPayload(t);
      var p := PendingOf(t);
      var txnSeq := state.nextTxnSeq;
      if ops == [] {
        QuietParts(fs.files, g, extra, state.Val(), Manifest(), p, t.meta);
        ApplyPendingToState(state, p, meta, txnSeq, false);
        return Committed;
      }
      PayloadFitsMeans(o, p, meta, dirty, maxPayload);
      if p.Size() == 0 && dirty {
        QuietMeta(p, t.meta);
      }
      var appended;
      r, appended := Record(p, o, t.meta, t.schemaDirty, ops, meta, dirty, sync);
      if r.Committed? {
        Finish(p, meta, txnSeq, appended);
      }
    }

    /** The in-memory half of a commit, and the compaction it may set off. */
    method Finish(p: Pending, meta: DatabaseMeta, txnSeq: u64, appended: nat)
      requires maxPayload <= MAX_FRAME_PAYLOAD && Encodable(EmptyMeta(name)) && isOpen && !fs.dead
      requires Keeps(fs.files, name, g, log, promised)
      requires var v := Merged(state.Val(), p, meta, SaturatingInc(txnSeq));
               Runs(fs.files, g, extra, v, Manifest()) && Roomy(v)
      modifies this, fs, state
      ensures Kept() && (!fs.dead ==> Live()) && state == old(state) && held == old(held) && isOpen
      ensures log == old(log) && promised == old(promised) && Durable() >= old(Durable())
      ensures state.Val() == Merged(old(state.Val()), p, meta, SaturatingInc(txnSeq))
      ensures || state.walBytesSinceCompact == state.walFramesSinceCompact == 0
              || (state.walBytesSinceCompact == SaturatingAdd(old(state.walBytesSinceCompact), appended)
                  && state.walFramesSinceCompact == SaturatingAdd(old(state.walFramesSinceCompact), 1))
      ensures old(MetaShown(fs.files, Some(meta))) ==> MetaShown(fs.files, Some(meta))
      ensures fs.Calm(!fs.dead) && (InDebt() ==> old(InDebt()))
      ensures var b, f := SaturatingAdd(old(state.walBytesSinceCompact), appended), SaturatingAdd(old(state.walFramesSinceCompact), 1);
              && (b < compactBytes && f < compactFrames ==>
                    !fs.dead && fs.files == old(fs.files) && state.walSeq == old(state.walSeq)
                    && state.walBytesSinceCompact == b && state.walFramesSinceCompact == f)
              && (b >= compactBytes || f >= compactFrames ==> old(fs.faults) == [] ==> Compact())
      ensures Numbers() <= old(Numbers()) + 1
    {
      hide Keeps, Runs, Segment.ValFits, Encodable, Savepoints.MergedRecords, Savepoints.MergedIndex, MetaShown;
      ApplyPendingToState(state, p, meta, txnSeq, true);
      state.walBytesSinceCompact := SaturatingAdd(state.walBytesSinceCompact, appended);
      state.walFramesSinceCompact := SaturatingAdd(state.walFramesSinceCompact, 1);
      var _ := MaybeCompact();
    }

    /** `flush`: everything committed so far reaches stable storage. */
    method Flush() returns (ok: bool)
      requires Live()
      modifies this, fs
      ensures Kept() && (!fs.dead ==> Live()) && state == old(state) && held == old(held) && isOpen
      ensures log == old(log) && promised == old(promised) && Durable() >= old(Durable())
      ensures ok ==> Durable() == |log| - 1
      ensures fs.Calm(ok) && (InDebt() ==> !ok && old(InDebt()))
    {
      hide Keeps, Runs, Encodable, OnDisk, LogBytes, Sound, Recorded, Mendable, Holds, WalOf;
      ghost var d := fs.files;
      RunningParts(d, name, g, log, promised, extra, state.Val(), Manifest());
      LogIsSynced(d, g);
      ok := fs.SyncWal(state.walSeq);
      FlushOutcome(d, fs.files, name, g, log, promised, extra, state.Val(), Manifest());
      if ok {
        g := AllSynced(g);
      }
    }

    // -------------------------------------------------------------- opening

    /** Opening may bring the metadata file up to date: it restores what is on stable storage already. */
    ghost predicate Stable()
      reads this, fs
    {
      fs.files.current.Some? ==> HealsSafely(fs.files, name)
    }

    /** A crash now can leave files that open to something else than the content their log holds. */
    ghost predicate Ruined()
      reads this, fs
    {
      Sound(g, name) && Recorded(log, g) && exists e :: Misopens(fs.Real(), e, g)
    }

    /** The files would be the generation's, and memory with them, if only the log were synced. */
    ghost predicate Trailing()
      reads this, fs, state
    {
      && maxPayload <= MAX_FRAME_PAYLOAD && Encodable(EmptyMeta(name)) && fs.files.current.Some? && g.synced <= |g.txns|
      && WalOf(fs.files, g.Wal()).synced <= |WalOf(fs.files, g.Wal()).bytes|
      && Keeps(Counted(fs.files, g.Wal()), name, AllSynced(g), log, promised)
      && (isOpen && !fs.dead ==> Runs(Counted(fs.files, g.Wal()), AllSynced(g), extra, state.Val(), Manifest()))
    }

    /** The first generation, when there is none. */
    method Create() returns (ok: bool)
      requires Kept() && fs.files.current.None?
      modifies fs
      ensures Kept() && Stable() && fs.Calm(ok) && fs.debts == old(fs.debts)
      ensures ok ==> !fs.dead && fs.files.current.Some? && fs.files.meta == Some(MetaBytes(EmptyMeta(name)))
    {
      hide Recorded, Sound, OnDisk, Encodable, WalOf, MetaBytes, Sealed, ManifestBody, HealsSafely, LogBytes, Mendable;
      FirstIsSound(name);
      ok := fs.EnsureWal(1);
      if !ok { return; }
      var meta := EncodeMeta(EmptyMeta(name));
      ghost var d1 := fs.files;
      ok := fs.AtomicWrite(MetaFile(meta), true);
      WalKept(d1, fs.files, 1);
      if !ok { return; }
      var manifest := EncodeManifest(ManifestData(1, 1, []));
      ghost var d2 := fs.files;
      ok := fs.AtomicWrite(ManifestFile(1, manifest), true);
      WalKept(d2, fs.files, 1);
      if !ok { return; }
      FirstIsPublished(fs.files, name);
      ghost var e := Replaced(fs.files, CurrentFile(1));
      WalKept(fs.files, e, 1);
      NoLogYet();
      MendableIsSafe(e, FirstGen(name), name);
      ok := fs.AtomicWrite(CurrentFile(1), true);
    }

    /** Fills a new state from the segments and the metadata file. */
    method ReadBase(s: DbState, m: ManifestData) returns (ok: bool)
      requires s.Val() == EMPTY && s.segments == []
      modifies s
      ensures ok == LoadBase(fs.files, name, m).Some?
      ensures ok ==> s.Val() == LoadBase(fs.files, name, m).value && s.segments == m.segments
      ensures s.manifestSeq == old(s.manifestSeq) && s.walSeq == old(s.walSeq)
    {
      hide LoadSegments, ParseMeta;
      ok := ReadSegments(s, m.segments);
      if !ok {
        return false;
      }
      if s.meta.None? && fs.files.meta.Some? {
        var decoded := DecodeMeta(fs.files.meta.value);
        if decoded.None? {
          return false;
        }
        s.meta := decoded;
      }
      if s.meta.None? {
        s.meta := Some(EmptyMeta(name));
      }
      TakeKeyGens(s);
      return true;
    }

    /** The loop over the segments; each replaces what was read before. */
    method ReadSegments(s: DbState, segments: seq<u64>) returns (ok: bool)
      requires s.Val() == EMPTY && s.segments == []
      modifies s
      ensures ok == LoadSegments(fs.files.segments, segments, EMPTY).Some?
      ensures ok ==> s.Val() == LoadSegments(fs.files.segments, segments, EMPTY).value && s.segments == segments
      ensures s.manifestSeq == old(s.manifestSeq) && s.walSeq == old(s.walSeq)
    {
      hide Segment.ParseSegment, ParseMeta;
      assert segments[0..] == segments;
      for i := 0 to |segments|
        invariant LoadSegments(fs.files.segments, segments[i..], s.Val()) == LoadSegments(fs.files.segments, segments, EMPTY)
        invariant s.segments == segments[..i] && s.manifestSeq == old(s.manifestSeq) && s.walSeq == old(s.walSeq)
      {
        var n := segments[i];
        assert segments[i..][0] == n && segments[i..][1..] == segments[i + 1..];
        if n !in fs.files.segments {
          return false;
        }
        var decoded := Segment.DecodeSegment(fs.files.segments[n]);
        if decoded.None? || decoded.value.0 != n {
          return false;
        }
        var v := decoded.value.1;
        s.meta, s.records, s.index, s.keyGens, s.nextTxnSeq := v.meta, v.records, v.index, v.keyGens, v.nextTxnSeq;
        s.segments := s.segments + [n];
      }
      return true;
    }

    /** `open`. Without faults it always succeeds, and what it opens is the end of a prefix of the history
        that holds everything on stable storage. It keeps the files those of a generation if and only if healing
        the metadata is safe or does not happen; otherwise a crash can leave files that open to something else
        than their log holds, until the log is synced. */
    method Open() returns (ok: bool)
      requires Kept() && !isOpen && !fs.dead
      modifies this, fs
      ensures Kept() <==> old(Stable()) || fs.files.meta == old(fs.files.meta)
      ensures !Kept() ==> Ruined() && Trailing()
      ensures held == old(held) && (if ok then isOpen && fresh(state) && !fs.dead else !isOpen && state == old(state))
      ensures ok && old(Stable()) ==> Live()
      ensures ok && !old(Stable()) ==> fs.files.meta != old(fs.files.meta)
      ensures old(Stable()) && !fs.dead ==> Stable()
      ensures log <= old(log) && |log| > old(Durable()) && Durable() >= old(Durable()) && promised == old(promised)
      ensures ok ==> ContentOf(state.Val()) == log[|log| - 1] && MetaShown(fs.files, state.meta)
      ensures ok && old(fs.files.current.None?) ==> g == FirstGen(name) && state.Val() == Fresh(name)
      ensures fs.Calm(ok) && (InDebt() ==> old(InDebt()))
      ensures ok ==> state.walBytesSinceCompact == |LogBytes(g.txns)| && state.walFramesSinceCompact == |Flatten(g.txns)|
    {
      hide Keeps, Sound, OnDisk, Runs, Recorded, Encodable, WalOf, CutWal, LogBytes, LoadBase, LoadManifest, Recover, ApplyFrames;
      hide Mendable, HealsSafely, Holds, WholeWithin, Flatten, MetaBytes, Reopened, ContentOf, MetaShown, Misopens;
      DurableIsPast(fs.files, name, g, log, promised);
      ghost var created := fs.files.current.None?;
      if fs.files.current.None? {
        FirstIsKept(fs.files, name, g, log, promised);
        ok := Create();
        if !ok {
          return false;
        }
      }
      var loaded;
      ghost var k, more;
      loaded, k, more := LoadState();
      if loaded.None? {
        return false;
      }
      if created {
        FirstReopens(name);
      }
      ok := Adopt(loaded.value, k, more);
    }

    /** The writing half of opening: what could not be recovered is cut off the log, and the metadata file is
        brought up to date. */
    method Adopt(s: DbState, ghost k: nat, ghost more: map<u64, u64>) returns (ok: bool)
      requires Kept() && fs.files.current.Some? && !isOpen && !fs.dead
      requires k == WholeWithin(g.txns, |WalOf(fs.files, g.Wal()).bytes|)
      requires k < |g.states| && k <= |g.txns| && Harmless(more, g.states[k].keyGens)
      requires |LogBytes(g.txns[..k])| <= |WalOf(fs.files, g.Wal()).bytes|
      requires s.Val() == Under(more, g.states[k]) && ManifestData(s.manifestSeq, s.walSeq, s.segments) == g.manifest
      requires s.walBytesSinceCompact == |LogBytes(g.txns[..k])| && s.walFramesSinceCompact == |Flatten(g.txns[..k])|
      modifies this, fs
      ensures Kept() <==> old(Stable()) || fs.files.meta == old(fs.files.meta)
      ensures !Kept() ==> Ruined() && Trailing()
      ensures held == old(held) && (if ok then isOpen && state == s && !fs.dead else !isOpen && state == old(state))
      ensures ok && old(Stable()) ==> Live()
      ensures ok && !old(Stable()) ==> fs.files.meta != old(fs.files.meta)
      ensures old(Stable()) && !fs.dead ==> Stable()
      ensures log <= old(log) && |log| > old(Durable()) && Durable() >= old(Durable()) && promised == old(promised)
      ensures ok ==> s.Val() == old(s.Val()) && ContentOf(s.Val()) == log[|log| - 1] && MetaShown(fs.files, s.meta)
      ensures ok ==> g == old(Reopened(g, k, WholeWithin(g.txns, WalOf(fs.files, g.Wal()).synced)))
      ensures fs.Calm(ok) && (InDebt() ==> old(InDebt()))
      ensures ok ==> s.walBytesSinceCompact == |LogBytes(g.txns)| && s.walFramesSinceCompact == |Flatten(g.txns)|
    {
      hide Keeps, OnDisk, Runs, Encodable, WalOf, LogBytes, Mendable, HealsSafely, ContentOf, Harmless, MetaShown, WholeWithin;
      hide Reopened, Sound, Ruined, Trailing;
      ok := CutLog(s.walSeq, s.walBytesSinceCompact, k);
      if !ok {
        return false;
      }
      HarmlessIsInvisible(more, g.Last());
      ok := TakeOver(s, more);
    }

    /** Heals the metadata, and takes the recovered state over. */
    method TakeOver(s: DbState, ghost more: map<u64, u64>) returns (ok: bool)
      requires Kept() && fs.files.current.Some? && !isOpen && !fs.dead && Sound(g, name) && OnDisk(fs.files, g)
      requires WalOf(fs.files, g.Wal()).bytes == LogBytes(g.txns) && g.synced == WholeWithin(g.txns, WalOf(fs.files, g.Wal()).synced)
      requires g.states != [] && s.meta == g.Last().meta && s.meta.Some? && Encodable(s.meta.value)
      requires s.Val() == Under(more, g.Last()) && Harmless(more, g.Last().keyGens)
      requires ManifestData(s.manifestSeq, s.walSeq, s.segments) == g.manifest
      modifies this`state, this`isOpen, this`extra, fs
      ensures Kept() <==> Mendable(g) || fs.files.meta == old(fs.files.meta)
      ensures !Kept() ==> Ruined() && Trailing()
      ensures if ok then isOpen && state == s && !fs.dead else !isOpen && state == old(state)
      ensures if Mendable(g) then Stable() && (ok ==> Live()) else ok ==> fs.files.meta != old(fs.files.meta)
      ensures ok ==> MetaShown(fs.files, s.meta)
      ensures fs.Calm(ok) && fs.debts == old(fs.debts)
    {
      hide Keeps, OnDisk, Runs, Encodable, WalOf, LogBytes, Mendable, HealsSafely, Harmless, MetaShown, MetaBytes;
      hide WholeWithin, Sound, Recorded, Misopens, RestoresAt, Counted, FileSystem.Real, AllSynced, Under;
      ghost var d := fs.files;
      OnDiskCounts(d, g);
      ok := Heal(s.meta.value);
      MendableMeans(g);
      if RestoresAt(g, s.meta.value, g.synced) {
        StillKeeps(d, fs.files, name, g, log, promised);
        MendableIsSafe(fs.files, g, name);
      } else if fs.files != d {
        HealedUnsafely(fs, d, name, g, log, promised, s.meta.value);
      }
      if !ok {
        return false;
      }
      ghost var stored := fs.Real();
      state, isOpen, extra := s, true, more;
      assert fs.Real() == stored;
      if Mendable(g) {
        OpenRuns(fs.files, g, more, s.Val(), Manifest());
      } else {
        OpenRunsOnCredit(Counted(fs.files, g.Wal()), g, more, s.Val(), Manifest());
      }
    }

    /** Cuts the log to its recovered transactions; the history ends with the last of them. */
    method CutLog(walSeq: u64, len: nat, ghost k: nat) returns (ok: bool)
      requires Kept() && fs.files.current.Some? && !fs.dead && walSeq == g.Wal()
      requires k == WholeWithin(g.txns, |WalOf(fs.files, g.Wal()).bytes|) && k < |g.states| && k <= |g.txns|
      requires len == |LogBytes(g.txns[..k])| <= |WalOf(fs.files, g.Wal()).bytes|
      modifies this`g, this`log, fs
      ensures Kept() && fs.Calm(ok) && fs.Pays() && g.Wal() == old(g.Wal()) && fs.files.meta == old(fs.files.meta) && (ok || fs.dead)
      ensures fs.files.current.Some? && (HealsSafely(fs.files, name) <==> old(HealsSafely(fs.files, name)))
      ensures log <= old(log) && |log| > old(Durable()) && Durable() >= old(Durable())
      ensures ok ==>
        && !fs.dead && OnDisk(fs.files, g) && Sound(g, name) && (Mendable(g) <==> old(HealsSafely(fs.files, name)))
        && g == old(Reopened(g, k, WholeWithin(g.txns, WalOf(fs.files, g.Wal()).synced)))
        && WalOf(fs.files, g.Wal()).bytes == LogBytes(g.txns) && g.synced == WholeWithin(g.txns, WalOf(fs.files, g.Wal()).synced)
        && g.txns == old(g.txns[..k])
        && g.states != [] && g.Last() == old(g.states[k]) && g.manifest == old(g.manifest) && log[|log| - 1] == ContentOf(g.Last())
        && g.Last().meta.Some? && Encodable(g.Last().meta.value)
    {
      hide Keeps, OnDisk, Encodable, WalOf, CutWal, LogBytes, Mendable, HealsSafely, ContentOf, WholeWithin, Sound, Reopened;
      DurableIsPast(fs.files, name, g, log, promised);
      ghost var h, kept := OpenKeeps(fs.files, name, g, log, promised, k);
      ReopenedIs(g, k, WholeWithin(g.txns, WalOf(fs.files, g.Wal()).synced));
      CutStays(fs.files, g.Wal(), len);
      if len < |WalOf(fs.files, walSeq).bytes| {
        var cut := fs.TruncateWal(walSeq, len);
        if !cut {
          return false;
        }
      }
      g, log := h, kept;
      KeepsMeans(fs.files, name, g, log, promised);
      return true;
    }

    /** The reading half of opening: the state that the manifest, the segments, the metadata file and the
        whole transactions in the log lead to. */
    method LoadState() returns (loaded: Option<DbState>, ghost k: nat, ghost more: map<u64, u64>)
      requires Kept() && fs.files.current.Some? && !fs.dead
      modifies fs
      ensures Kept() && fs.files.current.Some? && fs.Calm(loaded.Some?) && fs.debts == old(fs.debts)
      ensures fs.files.meta == old(fs.files.meta) && (Stable() <==> old(Stable()))
      ensures k == WholeWithin(g.txns, |WalOf(fs.files, g.Wal()).bytes|)
      ensures k < |g.states| && k <= |g.txns| && Harmless(more, g.states[k].keyGens)
      ensures |LogBytes(g.txns[..k])| <= |WalOf(fs.files, g.Wal()).bytes|
      ensures g.manifest.segments == [] && fs.files.meta == Some(MetaBytes(EmptyMeta(name))) ==> more == map[]
      ensures loaded.Some? ==> var s := loaded.value;
        && fresh(s) && !fs.dead && s.Val() == Under(more, g.states[k])
        && ManifestData(s.manifestSeq, s.walSeq, s.segments) == g.manifest
        && s.walBytesSinceCompact == |LogBytes(g.txns[..k])| && s.walFramesSinceCompact == |Flatten(g.txns[..k])|
    {
      hide Keeps, Sound, OnDisk, Runs, Recorded, Encodable, WalOf, LogBytes, LoadBase, LoadManifest, Recover, ApplyFrames;
      hide Mendable, HealsSafely, Holds, WholeWithin, Flatten, ContentOf, Harmless, MetaBytes, ParseMeta;
      ghost var d := fs.files;
      KeepsMeans(d, name, g, log, promised);
      k, more := OpenFinds(d, g, name);
      EmptyMetaReads(name);
      var manifest := ReadManifest(fs.files);
      if manifest.None? {
        return None, k, more;
      }
      var s := new DbState();
      s.manifestSeq, s.walSeq := manifest.value.manifestSeq, manifest.value.walSeq;
      var based := ReadBase(s, manifest.value);
      if !based {
        return None, k, more;
      }
      var ensured := fs.EnsureWal(s.walSeq);
      SafetyStays(d, fs.files, name, g, log, promised);
      if !ensured {
        return None, k, more;
      }
      var recovered := RecoverCommittedFrames(WalOf(fs.files, s.walSeq).bytes);
      var applied := PerformFrames(s, recovered.frames);
      if !applied {
        return None, k, more;
      }
      s.walBytesSinceCompact, s.walFramesSinceCompact := recovered.validPrefixLen, |recovered.frames|;
      return Some(s), k, more;
    }

    /** Brings the metadata file up to date with the log. The files stay the generation's when the metadata
        restores what is on stable storage, and only then, unless nothing was written. */
    method Heal(meta: DatabaseMeta) returns (ok: bool)
      requires OnDisk(fs.files, g) && Encodable(meta) && g.synced < |g.states| && g.synced <= |g.txns| && !fs.dead
      modifies fs
      ensures fs.files == old(fs.files) || fs.files == Replaced(old(fs.files), MetaFile(MetaBytes(meta)))
      ensures ok ==> !fs.dead && MetaShown(fs.files, Some(meta))
      ensures RestoresAt(g, meta, g.synced) ==> OnDisk(fs.files, g)
      ensures !RestoresAt(g, meta, g.synced) ==>
        && (ok ==> fs.files != old(fs.files)) && old(fs.files.meta) != Some(MetaBytes(meta))
      ensures WalOf(fs.files, g.Wal()) == old(WalOf(fs.files, g.Wal())) && fs.Calm(ok) && fs.debts == old(fs.debts)
    {
      hide Encodable, MetaBytes, LogBytes, WalOf, ParseMeta, Published, RestoresAt;
      var onDisk: Option<DatabaseMeta> := None;
      MetaFitsIfEncodable(meta);
      MetaRoundTrip(meta);
      if fs.files.meta.Some? {
        onDisk := DecodeMeta(fs.files.meta.value);
        assert IsVersion(fs.files.meta.value, g);
        if onDisk.None? {
          return false;
        }
      }
      if onDisk == Some(meta) {
        return true;
      }
      var bytes := EncodeMeta(meta);
      if RestoresAt(g, meta, g.synced) {
        MetaWritten(fs.files, g, meta);
      }
      WrittenIsShown(fs.files, meta);
      WalKept(fs.files, Replaced(fs.files, MetaFile(bytes)), g.Wal());
      ok := fs.AtomicWrite(MetaFile(bytes), true);
    }

    /** After an unsafe healing the log counts as synced, on credit: with that the invariant holds again. */
    method OnCredit()
      requires Trailing()
      modifies this`g, fs`files, fs`debts
      ensures Kept() && (isOpen && !fs.dead ==> Live()) && InDebt() && fs.Real() == old(fs.Real())
      ensures g == old(AllSynced(g)) && fs.files == old(Counted(fs.files, g.Wal())) && Durable() >= old(Durable())
      ensures old(Ruined()) ==> Ruined()
    {
      hide Keeps, Runs, Encodable, Sound, Recorded, WalOf, Counted, FileSystem.Real, ContentOf, LoadManifest, Misopens;
      CountedIs(fs.files, name, g, log, promised);
      var m := LoadManifest(fs.files);
      fs.Count(m.value.walSeq);
      if Ruined() {
        SoundStates(g, name);
        ghost var f :| Misopens(fs.Real(), f, g);
        StillMisopens(fs.Real(), f, g, name, log);
      }
      g := AllSynced(g);
    }

    /** Without debt, whatever a crash at this moment leaves, opening it gives a state of the history no older
        than the last promise. With or without, so does opening the files as they are. */
    lemma RecoversFromAnyCrash(e: Files) returns (i: nat)
      requires Kept() && fs.files.current.Some? && (e == fs.Real() || (!InDebt() && CrashImage(fs.Real(), e)))
      ensures promised <= Durable() <= i < |log|
      ensures Load(e, name).Loaded? && ContentOf(Load(e, name).val) == log[i]
    {
      hide OnDisk, CrashImage, Load, ContentOf, IsTxn, ApplyFrames, Storable, MetaLogged, WholeWithin, WalOf, FileSystem.Real, Keeps;
      KeepsMeans(fs.files, name, g, log, promised);
      RealReadsTheSame(fs);
      OnDiskOpensRight(fs.files, g, name);
      if !InDebt() {
        OtherLogs(fs.files, fs.Real(), name, g, log, promised);
        KeepsMeans(fs.Real(), name, g, log, promised);
        CrashThenLoad(fs.Real(), g, name);
      }
      i := |log| - |g.states| + WholeWithin(g.txns, |WalOf(e, g.Wal()).bytes|);
    }

    /** An open database's files, as they are, open to the last state, in debt or not. */
    lemma OpensToTheLast()
      requires Live()
      ensures Load(fs.Real(), name).Loaded? && ContentOf(Load(fs.Real(), name).val) == log[|log| - 1]
    {
      hide Keeps, Runs, Load, ContentOf, FileSystem.Real;
      RealReadsTheSame(fs);
      RunningOpens(fs.files, name, g, log, promised, extra, state.Val(), Manifest());
    }

    // -------------------------------------------------------------- runs

    method Close()
      requires Live()
      modifies this`isOpen
      ensures Kept() && Stable() && !isOpen
    {
      hide Keeps, Encodable, Sound, OnDisk, Mendable, HealsSafely;
      RunningParts(fs.files, name, g, log, promised, extra, state.Val(), Manifest());
      RunningIsMendable(fs.files, g, extra, state.Val(), Manifest());
      MendableIsSafe(fs.files, g, name);
      isOpen := false;
    }

    /** The machine stops and starts again: files as a crash may leave them, and a new schedule of faults. Only
        a log in debt can lose what it counted as synced. */
    method PowerLoss(cuts: map<u64, nat>, meta: seq<byte>, faults: seq<Fault>) returns (lost: bool)
      requires Kept()
      modifies this`isOpen, fs
      ensures lost <==> old(InDebt()) && |WalOf(fs.files, g.Wal()).bytes| < old(WalOf(fs.files, g.Wal()).synced)
      ensures !lost ==> Kept() && Stable()
      ensures fs.files == Lost(old(fs.Real()), cuts, meta) && CrashImage(old(fs.Real()), fs.files)
      ensures fs.faults == faults && !isOpen && !fs.dead && fs.debts == map[]
    {
      hide Encodable, Lost, Keeps, HealsSafely, CrashImage, WalOf, FileSystem.Real;
      CurrentLog(fs.files, name, g, log, promised);
      var m := LoadManifest(fs.files);
      var n := if m.None? then 1 else m.value.walSeq;
      var e := Lost(fs.Real(), cuts, meta);
      MetaIsAVersion(fs.files, name, g, log, promised);
      RealReadsTheSame(fs);
      LostIsCrashImage(fs.Real(), cuts, meta);
      lost := n in fs.debts && |WalOf(e, n).bytes| < WalOf(fs.files, n).synced;
      if !lost {
        CutAsCounted(fs, e, name, g, log, promised);
      }
      fs.files, fs.faults, fs.dead, fs.debts := e, faults, false, map[];
      isOpen := false;
    }

    /** The process dies while the machine runs on: the files stay as they are, the unsynced bytes of the log
        among them and still unsynced, and another process may go on with them. */
    method ProcessDeath(faults: seq<Fault>)
      requires Kept()
      modifies this`isOpen, fs
      ensures Kept() && fs.files == old(fs.files) && fs.debts == old(fs.debts) && fs.faults == faults && !isOpen && !fs.dead
      ensures old(Live()) ==> Stable()
    {
      hide Encodable, Keeps, Sound, OnDisk, Mendable, HealsSafely, Runs;
      if Live() {
        RunningParts(fs.files, name, g, log, promised, extra, state.Val(), Manifest());
        RunningIsMendable(fs.files, g, extra, state.Val(), Manifest());
        MendableIsSafe(fs.files, g, name);
      }
      fs.faults, fs.dead, isOpen := faults, false, false;
    }

    /** The request can be committed: it fits the formats, and file numbers have not run out. */
    ghost predicate Admissible(q: Request)
      requires state.meta.Some?
      reads this, state
    {
      Writable(state.Val(), maxKeys, q) && Numbers() < U64_MAX
    }

    /** One transaction from begin to commit or abort. An aborted one, and one outside the limits, leaves no trace;
        a committed one makes of the content exactly what it asks for. */
    method Transact(q: Request, abort: bool) returns (r: Option<CommitResult>)
      requires Live()
      modifies this, fs, state
      ensures Kept() && (!fs.dead ==> Live()) && isOpen && state == old(state) && held == old(held)
      ensures old(log) <= log && Durable() >= old(Durable()) && promised >= old(promised)
      ensures fs.Calm(r.Some? ==> !r.value.IoFailed?) && (InDebt() ==> old(InDebt()))
      ensures old(state.meta).Some? && (r.Some? <==> !abort && old(Admissible(q)))
      ensures r.None? ==> log == old(log) && state.Val() == old(state.Val()) && fs.files == old(fs.files) && promised == old(promised)
      ensures r.None? ==> fs.faults == old(fs.faults) && unchanged(state)
      ensures r.Some? && r.value.QuotaExceeded? <==>
                r.Some? && old(!Idle(state.Val(), maxKeys, q) && !FitsFrames(state.Val(), maxKeys, maxPayload, q))
      ensures r.Some? && r.value.Committed? ==>
                log == if old(Idle(state.Val(), maxKeys, q)) then old(log) else old(log) + [old(Wanted(ContentOf(state.Val()), maxKeys, q))]
      ensures r.Some? && r.value.Committed? && !fs.dead ==>
                state.Val() == old(if Idle(state.Val(), maxKeys, q) then state.Val() else Applied(state.Val(), maxKeys, q))
      ensures r.Some? && !r.value.Committed? ==> log == old(log) || log == old(log) + [old(Wanted(ContentOf(state.Val()), maxKeys, q))]
      ensures r.Some? && !r.value.Committed? && !fs.dead ==> log == old(log) && state.Val() == old(state.Val())
      ensures r.Some? && r.value.Committed? && old(!Idle(state.Val(), maxKeys, q)) ==>
                (q.durability.Strict? || ChangesSchema(q) || SetBy(q) != {} ==> promised == |log| - 1 && !InDebt())
      ensures Numbers() <= old(Numbers()) + 1
    {
      hide Live, Kept, Encodable, Merged, PatchedMeta, ContentOf, Txn.FsTxn.MetaSound, Outcome, Quiet, Fitting, Roomy, Compact, InDebt;
      hide RequestedPending, RequestedMeta, Wanted, Applied, Idle, FitsFrames, Admissible, BegunUnsynced, MetaShown, ChangesSchema, SetBy;
      var t := Prepare(q);
      PreparedIs(t, q);
      LiveMeans();
      if abort {
        return None;
      }
      if !Encodable(PatchedMeta(t.meta, t.pendingKeyGens)) || PendingOf(t).Size() >= U64_MAX || !Roomy(Outcome(t)) {
        return None;
      }
      var done := Commit(t);
      return Some(done);
    }

    lemma LiveMeans()
      requires Live()
      ensures Kept() && isOpen && !fs.dead
    {
    }

    /** A prepared transaction stands for its request. */
    lemma PreparedIs(t: Txn.FsTxn, q: Request)
      requires Live() && t.state == state && state.meta.Some? && t.mode == q.mode && t.schemaDirty == ChangesSchema(q)
      requires t.meta == RequestedMeta(state.meta.value, q) && PendingOf(t) == RequestedPending(state.Val(), maxKeys, q)
      ensures Outcome(t) == Applied(state.Val(), maxKeys, q) && (Quiet(t) <==> Idle(state.Val(), maxKeys, q))
      ensures ContentOf(Outcome(t)) == Wanted(ContentOf(state.Val()), maxKeys, q)
      ensures Admissible(q) <==> Encodable(PatchedMeta(t.meta, t.pendingKeyGens)) && PendingOf(t).Size() < U64_MAX && Roomy(Outcome(t))
      ensures Encodable(PatchedMeta(t.meta, t.pendingKeyGens)) ==> (Fitting(t) <==> FitsFrames(state.Val(), maxKeys, maxPayload, q))
      ensures t.pendingKeyGens != map[] <==> SetBy(q) != {}
    {
      hide Live, Encodable, Segment.ValFits, Merged, PatchedMeta, ContentOf, RequestedMeta, Wanted, PayloadFits, Overlay, SetBy;
      AppliedReads(state.Val(), maxKeys, q);
      assert t.pendingKeyGens.Keys == SetBy(q);
    }

    /** A transaction up to its commit; nothing of it shows outside yet. */
    method Prepare(q: Request) returns (t: Txn.FsTxn)
      requires Live()
      ensures g.states != [] && state.meta.Some?
      ensures fresh(t) && t.state == state && t.MetaSound(g.Last().keyGens.Keys)
      ensures t.mode == q.mode && t.durability == q.durability && t.schemaDirty == ChangesSchema(q)
      ensures t.meta == RequestedMeta(state.meta.value, q) && PendingOf(t) == RequestedPending(state.Val(), maxKeys, q)
    {
      hide Live, Txn.FsTxn.Valid, Txn.FsTxn.MetaSound, Untouched, Savepoints.Run, RequestedMeta;
      t := Begin(q.mode, q.scope, q.durability);
      ChangeSchema(t, q);
      t.RunScript(q.script);
      PendingIs(t, maxKeys, q);
    }

    /** The version, then the new stores; refused but in a version change. */
    method ChangeSchema(t: Txn.FsTxn, q: Request)
      requires t.Valid() && t.mode == q.mode
      modifies t`meta, t`schemaDirty
      ensures t.Valid() && (forall stored: set<u64> | old(t.MetaSound(stored)) :: t.MetaSound(stored))
      ensures t.meta == RequestedMeta(old(t.meta), q) && t.schemaDirty == (old(t.schemaDirty) || ChangesSchema(q))
    {
      hide Txn.FsTxn.Valid, Txn.FsTxn.MetaSound;
      if q.version.Some? {
        var _ := t.SetVersion(q.version.value);
      }
      ghost var m := t.meta;
      assert q.stores[..0] == [];
      for i := 0 to |q.stores|
        modifies t`meta, t`schemaDirty
        invariant t.Valid() && (forall stored: set<u64> | old(t.MetaSound(stored)) :: t.MetaSound(stored))
        invariant t.meta == if q.mode.VersionChange? then WithStores(m, q.stores[..i]) else m
        invariant t.schemaDirty == (old(t.schemaDirty) || (q.mode.VersionChange? && (q.version.Some? || i > 0)))
      {
        assert q.stores[..i + 1][..i] == q.stores[..i];
        var _ := t.CreateStore(q.stores[i].name, q.stores[i].keyPath, q.stores[i].autoIncrement);
      }
      assert q.stores[..|q.stores|] == q.stores;
    }

    /** `begin` for a writing transaction. */
    method Begin(mode: Savepoints.TxnMode, scope: seq<u64>, durability: Txn.Durability) returns (t: Txn.FsTxn)
      requires Live()
      ensures g.states != [] && fresh(t) && t.Valid() && t.MetaSound(g.Last().keyGens.Keys) && t.state == state
      ensures t.mode == mode && t.scope == scope && t.durability == durability && t.maxKeys == maxKeys
      ensures t.pendingRecords == map[] && t.pendingIndex == map[] && t.pendingKeyGens == map[] && t.Abs() == Untouched(state.Val())
      ensures state.meta == Some(t.meta) && !t.schemaDirty && fs.files == old(fs.files)
    {
      hide Keeps, Runs, Encodable, Covered, Txn.FsTxn.Valid;
      RunningMeta(fs.files, name, g, log, promised, extra, state.Val(), Manifest());
      MemoryIsCovered(fs.files, name, g, log, promised, extra, state.Val(), Manifest());
      t := new Txn.FsTxn(mode, scope, state.meta.value, state, durability, maxKeys);
    }

    /** At rest between events: running, or closed, or stopped. */
    ghost predicate Resting()
      reads this, fs, state
    {
      Kept() && (!fs.dead && isOpen ==> Live())
    }

    /** Should the database be opened next, it would be safe to. */
    ghost predicate Reopenable()
      reads this, fs
    {
      !fs.dead && !isOpen ==> Stable()
    }

    /** A reopening of these files that wrote metadata which does not restore what is on stable storage. */
    twostate predicate HealedAhead(e: Event)
      reads this, fs
    {
      e.Reopen? && old(!fs.dead && !isOpen && !Stable()) && fs.files.meta != old(fs.files.meta)
    }

    /** One event. The log comes into debt exactly by an unsafe healing, to which only a process that died
        inside an operation can lead, and only a power loss in debt ends the invariant. */
    method Perform(e: Event) returns (lost: bool)
      requires Resting()
      modifies this, fs, state
      ensures lost <==> e.PowerLoss? && old(InDebt()) && |WalOf(fs.files, g.Wal()).bytes| < old(WalOf(fs.files, g.Wal()).synced)
      ensures !lost ==> Resting()
      ensures HealedAhead(e) ==> InDebt() && Ruined()
      ensures InDebt() ==> old(InDebt()) || HealedAhead(e)
      ensures e.Flush? && old(!fs.dead && isOpen && fs.faults == []) ==> !InDebt()
      ensures !lost && old(Reopenable()) && (e.ProcessDeath? ==> old(!fs.dead)) ==> Reopenable() && !HealedAhead(e)
      ensures promised >= old(promised) && Durable() >= old(Durable()) && Agrees(old(log), log, old(Durable()))
      ensures Follows(old(log), log, e, maxKeys)
      ensures old(!fs.dead && isOpen && fs.faults == []) && StaysOpen(e) ==>
                && isOpen && !fs.dead && fs.faults == [] && Numbers() <= old(Numbers()) + 1
                && (old(Numbers()) < U64_MAX ==> state.Val() == AfterEvent(old(state.Val()), e, maxKeys, maxPayload))
      ensures held == if e.Hold? && old(!fs.dead) then e.segments else old(held)
      ensures (e.Close? && old(!fs.dead)) || e.PowerLoss? || e.ProcessDeath? ==> !isOpen
      ensures e.PowerLoss? || e.ProcessDeath? ==> !fs.dead && fs.faults == e.faults
      ensures e.Reopen? && old(!fs.dead && fs.faults == []) ==> isOpen && !fs.dead
      ensures e.Flush? && old(!fs.dead && isOpen && fs.faults == []) ==> Durable() == |log| - 1
      ensures e.Compact? && old(!fs.dead && isOpen && fs.faults == [] && Roomy(state.Val())) ==> Compact()
      ensures state == old(state) || fresh(state)
    {
      hide Keeps, Runs, Encodable, HealsSafely, ContentOf, Segment.ValFits, Sound, Recorded, Misopens, WalOf, CrashImage;
      hide FileSystem.Real, Wanted, AfterRequest, Compact, Ruined;
      DurableIsPast(fs.files, name, g, log, promised);
      lost := false;
      match e {
        case PowerLoss(cuts, meta, faults) => lost := PowerLoss(cuts, meta, faults);
        case ProcessDeath(faults) => ProcessDeath(faults);
        case Reopen => if !fs.dead && !isOpen { Reopen(); }
        case Hold(segments) => if !fs.dead { held := segments; }
        case _ => if !fs.dead && isOpen { PerformOpen(e); }
      }
    }

    /** What an open database may be asked for. */
    method PerformOpen(e: Event)
      requires Live() && (e.Close? || e.Flush? || e.Compact? || e.Transact?)
      modifies this, fs, state
      ensures Resting() && Reopenable() && (InDebt() ==> old(InDebt())) && held == old(held) && state == old(state)
      ensures promised >= old(promised) && Durable() >= old(Durable())
      ensures old(log) <= log && Follows(old(log), log, e, maxKeys)
      ensures old(fs.faults) == [] && !e.Close? ==>
                && isOpen && !fs.dead && fs.faults == [] && Numbers() <= old(Numbers()) + 1
                && (old(Numbers()) < U64_MAX ==> state.Val() == AfterEvent(old(state.Val()), e, maxKeys, maxPayload))
      ensures e.Close? ==> !isOpen
      ensures e.Flush? && old(fs.faults) == [] ==> Durable() == |log| - 1 && !InDebt()
      ensures e.Compact? && old(fs.faults) == [] && old(Roomy(state.Val())) ==> Compact()
    {
      hide Keeps, Runs, Encodable, HealsSafely, ContentOf, Segment.ValFits, WalOf, Wanted, Applied, Writable, Idle, FitsFrames;
      MemoryIsLast(fs.files, name, g, log, promised, extra, state.Val(), Manifest());
      match e {
        case Close => Close();
        case Flush => var _ := Flush();
        case Compact => if Roomy(state.Val()) { var _ := CompactNow(); }
        case Transact(request, abort) => var _ := Transact(request, abort);
        case _ => assert false;
      }
    }

    /** Opening, and the debt it may leave. */
    method Reopen()
      requires Kept() && !isOpen && !fs.dead
      modifies this, fs
      ensures Resting() && promised == old(promised) && held == old(held)
      ensures log <= old(log) && |log| > old(Durable()) && Durable() >= old(Durable())
      ensures HealedAhead(Event.Reopen) ==> InDebt() && Ruined()
      ensures InDebt() ==> old(InDebt()) || HealedAhead(Event.Reopen)
      ensures old(Stable()) ==> Reopenable()
      ensures fs.Calm(isOpen) && (isOpen && old(!Stable()) ==> HealedAhead(Event.Reopen))
      ensures state == old(state) || fresh(state)
    {
      hide Keeps, Runs, Encodable, HealsSafely, ContentOf, Sound, Recorded, Misopens, WalOf, Counted, FileSystem.Real;
      var safe, before := fs.files.current.None? || HealsSafely(fs.files, name), fs.files.meta;
      var _ := Open();
      if !safe && fs.files.meta != before {
        CountedKeepsMeta(fs.files, g.Wal());
        OnCredit();
      }
    }

    /** Over every run of transactions, compactions, flushes, clean closes, stops at any step of any of
        them, power losses, process deaths and reopens: what was on stable storage at the start is never lost,
        promises are kept, and (by `Kept`) the files can always be opened to a state of the history no older
        than the last promise, unless the power goes while the log is in debt. A run that starts without debt
        and has no process deaths never comes into it. */
    method Run(events: seq<Event>) returns (lost: bool, done: nat)
      requires Resting()
      modifies this, fs, state
      ensures !lost ==> Resting() && done == |events|
      ensures lost ==> done < |events| && events[done].PowerLoss?
      ensures old(Reopenable() && !InDebt()) && (forall e | e in events :: !e.ProcessDeath?) ==> !lost && Reopenable() && !InDebt()
      ensures promised >= old(promised) && Durable() >= old(Durable()) && Agrees(old(log), log, old(Durable()))
      ensures Lawful(old(log), log, events, maxKeys)
      ensures old(!fs.dead && isOpen && fs.faults == [] && Numbers() + |events| <= U64_MAX) && (forall e | e in events :: StaysOpen(e)) ==>
                !lost && isOpen && !fs.dead && state.Val() == AfterEvents(old(state.Val()), events, maxKeys, maxPayload)
    {
      hide Keeps, Runs, Encodable, HealsSafely, ContentOf, Agrees, Sound, Recorded, Misopens, FileSystem.Real, WalOf;
      hide Lawful, Follows, AfterEvent, HealedAhead;
      DurableIsPast(fs.files, name, g, log, promised);
      AgreesRefl(log, Durable());
      LawfulStart(log, events, maxKeys);
      ghost var quiet := !fs.dead && isOpen && fs.faults == [] && Numbers() + |events| <= U64_MAX && forall e | e in events :: StaysOpen(e);
      assert events[..0] == [];
      for i := 0 to |events|
        invariant Resting() && promised >= old(promised) && Durable() >= old(Durable())
        invariant old(Reopenable() && !InDebt()) && (forall e | e in events :: !e.ProcessDeath?) ==> Reopenable() && !InDebt()
        invariant Agrees(old(log), log, old(Durable())) && (state == old(state) || fresh(state))
        invariant Lawful(old(log), log, events, maxKeys)
        invariant quiet ==> !fs.dead && isOpen && fs.faults == [] && Numbers() <= old(Numbers()) + i
        invariant quiet ==> state.Val() == AfterEvents(old(state.Val()), events[..i], maxKeys, maxPayload)
      {
        ghost var before, at := log, Durable();
        assert events[..i + 1][..i] == events[..i] && events[i] in events;
        lost := Perform(events[i]);
        AgreesTrans(old(log), before, log, old(Durable()), at);
        LawfulStep(old(log), before, log, events, i, maxKeys);
        if lost {
          return true, i;
        }
      }
      assert events[..|events|] == events;
      return false, |events|;
    }
  }

  /** A new database on an empty disk opens, with nothing in it. */
  method NewDatabase(name: Utf16, maxKeys: u64, maxPayload: u32, compactBytes: u64, compactFrames: u64) returns (db: FsDatabase)
    requires |name| < 0x4000_0000 && maxPayload <= MAX_FRAME_PAYLOAD
    ensures fresh(db) && fresh(db.fs) && fresh(db.state) && db.Live() && db.name == name && db.held == {}
    ensures db.maxKeys == maxKeys && db.maxPayload == maxPayload && db.compactBytes == compactBytes && db.compactFrames == compactFrames
    ensures db.log == [ContentOf(Fresh(name))] && db.state.Val() == Fresh(name)
    ensures db.g == FirstGen(name) && db.fs.faults == []
    ensures db.state.Val() == DbVal(Some(DatabaseMeta(name, 0, [], 1, 1)), map[], {}, map[], 1)
  {
    hide FsDatabase.Live, FsDatabase.Kept, HealsSafely, Encodable, ContentOf, Misopens;
    EmptyMetaFits(name);
    var fs := new FileSystem(Files(None, map[], map[], map[], None, {}), []);
    db := new FsDatabase(fs, name, maxKeys, maxPayload, compactBytes, compactFrames);
    var _ := db.Open();
  }
}
