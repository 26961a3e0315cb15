/** The history of a database and what its files and memory owe it: value-level facts behind every step. */
module History {
  import opened Bytes
  import opened Codec
  import opened Keys
  import opened Meta
  import opened State
  import opened Apply
  import opened Commit
  import opened Disk
  import opened Generation
  import opened Wal
  import opened WalRecovery
  import opened WalPacker
  import opened SegmentGuards
  import Savepoints
  import Segment

  // ---------------------------------------------------------------- the history

  /** The end of the history is the generation's own. */
  ghost predicate Recorded(log: seq<Content>, g: Gen) {
    && |g.states| <= |log|
    && forall i | 0 <= i < |g.states| :: log[|log| - |g.states| + i] == ContentOf(g.states[i])
  }

  /** The metadata file reads as this metadata. */
  ghost predicate MetaShown(d: Files, meta: Option<DatabaseMeta>) {
    meta.Some? && d.meta.Some? && ParseMeta(d.meta.value) == Done(meta.value, [])
  }

  lemma WrittenIsShown(d: Files, meta: DatabaseMeta)
    requires Encodable(meta)
    ensures MetaShown(Replaced(d, MetaFile(MetaBytes(meta))), Some(meta))
  {
    hide ParseMeta, MetaBytes;
    MetaFitsIfEncodable(meta);
    MetaRoundTrip(meta);
  }

  /** The history's last state that is known to be on stable storage. */
  ghost function DurableAt(log: seq<Content>, g: Gen): int {
    |log| - |g.states| + g.synced
  }

  /** Memory holds the last state, over generators defaulted from metadata when the database was opened. */
  ghost predicate Holds(v: DbVal, extra: map<u64, u64>, g: Gen) {
    g.states != [] && v == Under(extra, g.Last()) && Harmless(extra, g.Last().keyGens)
  }

  /** Files of a database that has not been created yet. */
  ghost predicate Blank(d: Files, name: Utf16) {
    && d.current.None? && WalOf(d, 1) == WalFile([], 0)
    && d.metas <= {MetaBytes(EmptyMeta(name))} && (d.meta.Some? ==> d.meta.value in d.metas)
  }

  /** The files are those of the generation, and every promise is on stable storage. */
  ghost predicate Keeps(d: Files, name: Utf16, g: Gen, log: seq<Content>, promised: nat) {
    && Sound(g, name) && Recorded(log, g) && promised <= DurableAt(log, g)
    && if d.current.None? then Blank(d, name) && g == FirstGen(name) else OnDisk(d, g)
  }

  /** An open database's memory and its log are the generation's, all of it. */
  ghost predicate Runs(d: Files, g: Gen, extra: map<u64, u64>, mem: DbVal, m: ManifestData) {
    && d.current.Some? && Mendable(g) && WalOf(d, g.Wal()).bytes == LogBytes(g.txns)
    && Holds(mem, extra, g) && m == g.manifest
  }

  lemma KeepsMeans(d: Files, name: Utf16, g: Gen, log: seq<Content>, promised: nat)
    requires d.current.Some?
    ensures Keeps(d, name, g, log, promised) <==>
            Sound(g, name) && Recorded(log, g) && promised <= DurableAt(log, g) && OnDisk(d, g)
  {
  }

  lemma RecordedMore(log: seq<Content>, g: Gen, frames: seq<WalFrame>, v: DbVal)
    requires Recorded(log, g)
    ensures Recorded(log + [ContentOf(v)], Extended(g, frames, v))
  {
    hide ContentOf;
    var more, h := log + [ContentOf(v)], Extended(g, frames, v);
    forall i | 0 <= i < |h.states| ensures more[|more| - |h.states| + i] == ContentOf(h.states[i]) {
      if i < |g.states| {
        assert more[|more| - |h.states| + i] == log[|log| - |g.states| + i];
      }
    }
  }

  /** Everything a commit needs to know about its frames: they are a transaction that takes the logged
      content to the new one, and the new one is what memory will hold. */
  lemma CommitExtends(g: Gen, name: Utf16, extra: map<u64, u64>, mem: DbVal, o: Order, p: Pending,
                      base: DatabaseMeta, schemaDirty: bool, max: nat) returns (frames: seq<WalFrame>, v: DbVal)
    requires Sound(g, name) && Holds(mem, extra, g) && Walks(o, p) && max <= MAX_FRAME_PAYLOAD
    requires Encodable(PatchedMeta(base, p.keyGens)) && Covered(base, g.Last().keyGens.Keys)
    requires !schemaDirty ==> mem.meta == Some(base)
    requires var ops := PayloadOps(o, p, PatchedMeta(base, p.keyGens), schemaDirty || p.keyGens != map[]);
             ops != [] && forall op | op in ops :: FitsAlone(op, max)
    ensures var meta, dirty := PatchedMeta(base, p.keyGens), schemaDirty || p.keyGens != map[];
            && frames == TxnFrames(mem.nextTxnSeq, PayloadOps(o, p, meta, dirty), max) && IsTxn(frames)
            && v.meta == Some(meta) && (!dirty ==> v.meta == g.Last().meta)
            && Sound(Extended(g, frames, v), name)
            && Holds(Merged(mem, p, meta, SaturatingInc(mem.nextTxnSeq)), extra, Extended(g, frames, v))
  {
    hide PayloadOps, ApplyOps, ApplyFrames, FitsAlone, TxnFrames, Encodable, Patched, Savepoints.MergedRecords, Savepoints.MergedIndex, IsTxn, Sound;
    hide FramesReplaceMeta;
    var last, meta, dirty := g.Last(), PatchedMeta(base, p.keyGens), schemaDirty || p.keyGens != map[];
    var ops := PayloadOps(o, p, meta, dirty);
    frames, v := TxnFrames(mem.nextTxnSeq, ops, max), Merged(last, p, meta, SaturatingInc(mem.nextTxnSeq));
    CommitReplays(last, o, p, base, schemaDirty, max);
    TxnFramesAreATxn(mem.nextTxnSeq, ops, max);
    PatchIsCovered(base.stores, p.keyGens, {}, last.keyGens.Keys);
    if dirty {
      PayloadReplacesMeta(o, p, meta);
      ReplacedSomewhere(frames);
    } else {
      PatchNothing(base.stores, {});
    }
    assert (extra + last.keyGens) + p.keyGens == extra + (last.keyGens + p.keyGens);
    ExtendedIsSound(g, name, frames, v);
  }

  lemma PayloadReplacesMeta(o: Order, p: Pending, meta: DatabaseMeta)
    requires Walks(o, p) && Encodable(meta)
    ensures ReplacesMeta(PayloadOps(o, p, meta, true))
  {
    hide RecordOps, EntryOps, KeyGenOps, MetaBytes, MetaFits;
    var ops := PayloadOps(o, p, meta, true);
    assert ops[|ops| - 1] == MetaReplace(MetaBytes(meta));
  }

  lemma {:induction false} ReplacedSomewhere(frames: seq<WalFrame>)
    requires ReplacesMeta(OpsOf(frames))
    ensures FramesReplaceMeta(frames)
  {
    if frames != [] {
      if !ReplacesMeta(frames[0].ops) {
        var op :| op in OpsOf(frames) && op.MetaReplace?;
        assert op in OpsOf(frames[1..]);
        ReplacedSomewhere(frames[1..]);
        var f :| f in frames[1..] && ReplacesMeta(f.ops);
        assert f in frames;
      }
    }
  }

  /** The generation after a commit, its log synced or not. */
  ghost function Next(g: Gen, frames: seq<WalFrame>, v: DbVal, synced: bool): Gen {
    if synced then AllSynced(Extended(g, frames, v)) else Extended(g, frames, v)
  }

  /** Two histories that agree up to a state both have. */
  ghost predicate Agrees(a: seq<Content>, b: seq<Content>, upTo: int) {
    0 <= upTo < |a| && upTo < |b| && forall i | 0 <= i <= upTo :: a[i] == b[i]
  }

  /** The files after a power loss that cuts each log at a chosen place, where that is possible, and brings
      back a chosen version of the metadata file. */
  function Lost(d: Files, cuts: map<u64, nat>, meta: seq<byte>): Files {
    d.(wals := map n | n in d.wals :: CutAt(d.wals[n], if n in cuts then cuts[n] else 0),
       meta := if d.meta.Some? && meta in d.metas then Some(meta) else d.meta)
  }

  function CutAt(w: WalFile, n: nat): WalFile {
    var len := if Safe(w) <= n <= |w.bytes| then n else Safe(w);
    WalFile(w.bytes[..len], len)
  }

  lemma LostIsCrashImage(d: Files, cuts: map<u64, nat>, meta: seq<byte>)
    requires d.meta.Some? ==> d.meta.value in d.metas
    ensures CrashImage(d, Lost(d, cuts, meta))
  {
  }

  /** And every crash is one of these. */
  lemma EveryCrashIsLost(d: Files, e: Files) returns (cuts: map<u64, nat>, meta: seq<byte>)
    requires CrashImage(d, e) && e.wals.Keys == d.wals.Keys
    ensures Lost(d, cuts, meta) == e
  {
    cuts := map n | n in e.wals :: |e.wals[n].bytes|;
    meta := if e.meta.Some? then e.meta.value else [];
    forall n | n in e.wals ensures Lost(d, cuts, meta).wals[n] == e.wals[n] {
      assert LostSuffix(WalOf(d, n), WalOf(e, n));
    }
    assert Lost(d, cuts, meta).wals == e.wals;
  }

  /** A crash keeps the history, and leaves nothing that a second one could take. */
  lemma CrashKeepsHistory(d: Files, e: Files, name: Utf16, g: Gen, log: seq<Content>, promised: nat)
    requires Keeps(d, name, g, log, promised) && CrashImage(d, e)
    ensures Keeps(e, name, g, log, promised) && (e.current.Some? ==> HealsSafely(e, name))
  {
    hide Sound, Recorded, OnDisk, HealsSafely, RestoresAt;
    assert LostSuffix(WalOf(d, g.Wal()), WalOf(e, g.Wal()));
    if d.current.Some? {
      CrashKeeps(d, e, g);
      var k, s := HealsSafelyMeans(e, g, name);
      StateRestores(g, name, k);
    } else {
      assert LostSuffix(WalOf(d, 1), WalOf(e, 1));
    }
  }

  lemma MetaIsAVersion(d: Files, name: Utf16, g: Gen, log: seq<Content>, promised: nat)
    requires Keeps(d, name, g, log, promised)
    ensures d.meta.Some? ==> d.meta.value in d.metas
  {
    hide Sound, Recorded, Published, LogHolds;
  }

  /** The metadata in memory shows no generator that the logged content does not store. */
  lemma MemoryIsCovered(d: Files, name: Utf16, g: Gen, log: seq<Content>, promised: nat, extra: map<u64, u64>,
                        v: DbVal, m: ManifestData)
    requires Keeps(d, name, g, log, promised) && Runs(d, g, extra, v, m)
    ensures g.states != [] && v.meta.Some? && Covered(v.meta.value, g.Last().keyGens.Keys)
  {
    hide OnDisk, Encodable, ApplyFrames, IsTxn, Covered;
    assert Storable(g.Last());
  }

  lemma AgreesRefl(a: seq<Content>, n: int)
    requires 0 <= n < |a|
    ensures Agrees(a, a, n)
  {
  }

  lemma AgreesTrans(a: seq<Content>, b: seq<Content>, c: seq<Content>, m: int, n: int)
    requires Agrees(a, b, m) && Agrees(b, c, n) && m <= n
    ensures Agrees(a, c, m)
  {
  }

  lemma SafetyStays(d: Files, e: Files, name: Utf16, g: Gen, log: seq<Content>, promised: nat)
    requires Keeps(d, name, g, log, promised) && d.current.Some?
    requires SameButWal(d, e, g.Wal()) && WalOf(e, g.Wal()) == WalOf(d, g.Wal())
    ensures Keeps(e, name, g, log, promised) && (HealsSafely(d, name) <==> HealsSafely(e, name)) && OnDisk(e, g)
  {
    hide Sound, Recorded, OnDisk, WalOf, HealsSafely, RestoresAt;
    LogIsSynced(d, g);
    LogStays(d, e, g);
    var _, _ := HealsSafelyMeans(d, g, name);
    var _, _ := HealsSafelyMeans(e, g, name);
  }

  lemma {:induction false} WholeWithinPrefix(txns: seq<seq<WalFrame>>, k: nat, n: nat)
    requires k <= |txns|
    ensures WholeWithin(txns[..k], n) == if WholeWithin(txns, n) < k then WholeWithin(txns, n) else k
  {
    hide TxnBytes;
    if k > 0 && n >= |TxnBytes(txns[0])| {
      assert txns[..k][1..] == txns[1..][..k - 1];
      WholeWithinPrefix(txns[1..], k - 1, n - |TxnBytes(txns[0])|);
    }
  }

  /** A running database may always be closed, or its process die, and be opened again. */
  lemma MendableIsSafe(d: Files, g: Gen, name: Utf16)
    requires Sound(g, name) && OnDisk(d, g) && Mendable(g) && WalOf(d, g.Wal()).bytes == LogBytes(g.txns)
    ensures HealsSafely(d, name)
  {
    hide Sound, OnDisk, HealsSafely, RestoresAt, WholeWithin, LogBytes, WalOf;
    SoundStates(g, name);
    WholeLog(g.txns);
    var k, s := HealsSafelyMeans(d, g, name);
    RestoresOn(g, g.Last().meta.value, g.synced, s);
  }

  lemma OpenRuns(d: Files, g: Gen, extra: map<u64, u64>, v: DbVal, m: ManifestData)
    requires d.current.Some? && Mendable(g) && WalOf(d, g.Wal()).bytes == LogBytes(g.txns) && m == g.manifest
    requires g.states != [] && v == Under(extra, g.Last()) && Harmless(extra, g.Last().keyGens)
    ensures Runs(d, g, extra, v, m)
  {
  }

  lemma OpenRunsOnCredit(d: Files, g: Gen, extra: map<u64, u64>, v: DbVal, m: ManifestData)
    requires d.current.Some? && Mendable(AllSynced(g)) && WalOf(d, g.Wal()).bytes == LogBytes(AllSynced(g).txns)
    requires m == g.manifest && g.states != [] && v == Under(extra, g.Last()) && Harmless(extra, g.Last().keyGens)
    ensures Runs(d, AllSynced(g), extra, v, m)
  {
    hide WalOf, LogBytes, Mendable, Harmless;
  }

  lemma StillKeeps(d: Files, e: Files, name: Utf16, g: Gen, log: seq<Content>, promised: nat)
    requires Keeps(d, name, g, log, promised) && d.current.Some? && OnDisk(e, g)
    ensures Keeps(e, name, g, log, promised) && e.current.Some?
  {
    hide OnDisk, Sound, Recorded;
    OnDiskIsCurrent(e, g);
  }

  /** Truncating the log to what was recovered: the generation and the history that come back, and whether
      the metadata they end with may be written down. */
  lemma OpenKeeps(d: Files, name: Utf16, g: Gen, log: seq<Content>, promised: nat, k: nat)
    returns (h: Gen, kept: seq<Content>)
    requires Keeps(d, name, g, log, promised) && d.current.Some?
    requires k == WholeWithin(g.txns, |WalOf(d, g.Wal()).bytes|) && |LogBytes(g.txns[..k])| <= |WalOf(d, g.Wal()).bytes|
    ensures k < |g.states| && k <= |g.txns| && h == Reopened(g, k, WholeWithin(g.txns, WalOf(d, g.Wal()).synced))
    ensures kept <= log && |kept| > DurableAt(log, g) && DurableAt(kept, h) >= DurableAt(log, g)
    ensures |kept| == |log| - |g.states| + k + 1 && kept[|kept| - 1] == ContentOf(g.states[k])
    ensures g.states[k].meta.Some? && Encodable(g.states[k].meta.value) && h.states != [] && h.Last() == g.states[k]
    ensures Mendable(h) <==> HealsSafely(d, name)
    ensures var c := CutWal(d, g.Wal(), |LogBytes(g.txns[..k])|);
            && Keeps(c, name, g, log, promised) && (HealsSafely(c, name) <==> HealsSafely(d, name))
            && Keeps(c, name, h, kept, promised) && OnDisk(c, h) && WalOf(c, g.Wal()).bytes == LogBytes(h.txns)
            && h.synced == WholeWithin(h.txns, WalOf(c, g.Wal()).synced)
    ensures |LogBytes(g.txns[..k])| == |WalOf(d, g.Wal()).bytes| ==>
            && Keeps(d, name, h, kept, promised) && OnDisk(d, h) && WalOf(d, g.Wal()).bytes == LogBytes(h.txns)
            && h.synced == WholeWithin(h.txns, WalOf(d, g.Wal()).synced)
  {
    hide Sound, OnDisk, Recorded, LogBytes, WalOf, CutWal, Encodable, ContentOf, Blank, HealsSafely, Mendable, WholeWithin, Reopened;
    var s := OpenFiles(d, g, name, k);
    OpenSafety(d, g, name, k, s);
    CutSafety(d, CutWal(d, g.Wal(), |LogBytes(g.txns[..k])|), g, name, k, s);
    h, kept := Reopened(g, k, s), log[..|log| - |g.states| + k + 1];
    SoundStates(g, name);
    StateIsStorable(g, name, k);
    ReopenedIs(g, k, s);
    ReopenedIsSound(g, name, k, s);
    ReopenedIsRecorded(log, g, k, s);
  }

  lemma ReopenedIs(g: Gen, k: nat, s: nat)
    requires k < |g.states| && k <= |g.txns|
    ensures var h := Reopened(g, k, s);
            h.states != [] && h.Last() == g.states[k] && |h.states| == k + 1 && h.synced == s && h.manifest == g.manifest
            && h.txns == g.txns[..k]
  {
  }

  /** The files of the reopened generation, cut or already short enough. */
  lemma OpenFiles(d: Files, g: Gen, name: Utf16, k: nat) returns (s: nat)
    requires Sound(g, name) && OnDisk(d, g)
    requires k == WholeWithin(g.txns, |WalOf(d, g.Wal()).bytes|) && |LogBytes(g.txns[..k])| <= |WalOf(d, g.Wal()).bytes|
    ensures k < |g.states| && s == WholeWithin(g.txns, WalOf(d, g.Wal()).synced) && g.synced <= s <= k
    ensures var h, c := Reopened(g, k, s), CutWal(d, g.Wal(), |LogBytes(g.txns[..k])|);
            && OnDisk(c, g) && OnDisk(c, h) && WalOf(c, g.Wal()).bytes == LogBytes(g.txns[..k]) && c.current.Some?
            && s == WholeWithin(g.txns[..k], WalOf(c, g.Wal()).synced)
            && WalOf(c, g.Wal()).synced == (if WalOf(d, g.Wal()).synced < |LogBytes(g.txns[..k])| then WalOf(d, g.Wal()).synced
                                            else |LogBytes(g.txns[..k])|)
    ensures |LogBytes(g.txns[..k])| == |WalOf(d, g.Wal()).bytes| ==>
            && OnDisk(d, Reopened(g, k, s)) && WalOf(d, g.Wal()).bytes == LogBytes(g.txns[..k])
            && s == WholeWithin(g.txns[..k], WalOf(d, g.Wal()).synced)
  {
    hide Sound, OnDisk, Grows, LogBytes, WalOf, CutWal, WholeWithin, LogHolds, SameButWal;
    SoundStates(g, name);
    s := SyncedRecovers(d, g, name);
    CutHolds(d, g, k, s);
    var c := CutWal(d, g.Wal(), |LogBytes(g.txns[..k])|);
    LogReplaced(d, c, g);
    ReopenedOnDisk(d, c, g, k, s);
    OnDiskIsCurrent(c, g);
    SyncedAfterCut(g.txns, k, WalOf(d, g.Wal()).synced);
    if |LogBytes(g.txns[..k])| == |WalOf(d, g.Wal()).bytes| {
      ReopenedOnDisk(d, d, g, k, s);
    }
  }

  /** Whether the reopened generation's metadata may be written down shows in the files before. */
  lemma OpenSafety(d: Files, g: Gen, name: Utf16, k: nat, s: nat)
    requires Sound(g, name) && OnDisk(d, g)
    requires k == WholeWithin(g.txns, |WalOf(d, g.Wal()).bytes|) && s == WholeWithin(g.txns, WalOf(d, g.Wal()).synced)
    ensures k < |g.states| && (Mendable(Reopened(g, k, s)) <==> HealsSafely(d, name))
  {
    hide Sound, OnDisk, HealsSafely, RestoresAt, WholeWithin, WalOf;
    var k', s' := HealsSafelyMeans(d, g, name);
    SoundStates(g, name);
    SameRestores(g, Reopened(g, k, s), g.states[k].meta.value, s);
  }

  lemma WholeOfCut(txns: seq<seq<WalFrame>>, k: nat)
    requires k <= |txns|
    ensures WholeWithin(txns, |LogBytes(txns[..k])|) >= k
  {
    hide LogBytes, WholeWithin;
    WholeLog(txns[..k]);
    WholeWithinPrefix(txns, k, |LogBytes(txns[..k])|);
  }

  lemma SameRestores(g: Gen, h: Gen, m: DatabaseMeta, j: nat)
    requires g.name == h.name && g.manifest == h.manifest && j <= |g.txns| && j <= |h.txns| && j < |g.states| && j < |h.states|
    requires g.txns[..j] == h.txns[..j] && g.states[j] == h.states[j]
    ensures RestoresAt(g, m, j) <==> RestoresAt(h, m, j)
  {
    hide Restores;
  }

  /** What is synced of a log cut to its first `k` transactions. */
  lemma SyncedAfterCut(txns: seq<seq<WalFrame>>, k: nat, n: nat)
    requires WholeWithin(txns, n) <= k <= |txns|
    ensures var len := |LogBytes(txns[..k])|;
            WholeWithin(txns[..k], if n < len then n else len) == WholeWithin(txns, n)
  {
    hide LogBytes, WholeWithin;
    var len := |LogBytes(txns[..k])|;
    WholeWithinPrefix(txns, k, n);
    if n >= len {
      WholeLog(txns[..k]);
      LongerHoldsMore(txns[..k], len, n);
    }
  }

  lemma {:induction false} LongerHoldsMore(txns: seq<seq<WalFrame>>, m: nat, n: nat)
    requires m <= n
    ensures WholeWithin(txns, m) <= WholeWithin(txns, n)
  {
    hide TxnBytes;
    if txns != [] && m >= |TxnBytes(txns[0])| {
      LongerHoldsMore(txns[1..], m - |TxnBytes(txns[0])|, n - |TxnBytes(txns[0])|);
    }
  }

  /** Cutting off what was not recovered does not change whether healing is safe. */
  lemma CutSafety(d: Files, c: Files, g: Gen, name: Utf16, k: nat, s: nat)
    requires Sound(g, name) && OnDisk(d, g) && OnDisk(c, g) && k <= |g.txns|
    requires k == WholeWithin(g.txns, |WalOf(d, g.Wal()).bytes|) && WalOf(c, g.Wal()).bytes == LogBytes(g.txns[..k])
    requires |LogBytes(g.txns[..k])| <= |WalOf(d, g.Wal()).bytes|
    requires s == WholeWithin(g.txns, WalOf(d, g.Wal()).synced) <= k
    requires var n := WalOf(d, g.Wal()).synced;
             var len := |LogBytes(g.txns[..k])|;
             WalOf(c, g.Wal()).synced == if n < len then n else len
    ensures HealsSafely(c, name) <==> HealsSafely(d, name)
  {
    hide Sound, OnDisk, LogBytes, WalOf, HealsSafely, RestoresAt, WholeWithin;
    var _, _ := HealsSafelyMeans(d, g, name);
    WholeOfCut(g.txns, k);
    LongerHoldsMore(g.txns, |LogBytes(g.txns[..k])|, |WalOf(d, g.Wal()).bytes|);
    var _, t := HealsSafelyMeans(c, g, name);
    SyncedAfterCut(g.txns, k, WalOf(d, g.Wal()).synced);
    WholeWithinPrefix(g.txns, k, WalOf(c, g.Wal()).synced);
  }

  lemma StateIsStorable(g: Gen, name: Utf16, k: nat)
    requires Sound(g, name) && k < |g.states|
    ensures g.states[k].meta.Some? && Encodable(g.states[k].meta.value)
  {
  }

  lemma ReopenedIsRecorded(log: seq<Content>, g: Gen, k: nat, synced: nat)
    requires Recorded(log, g) && k < |g.states| && k <= |g.txns|
    ensures var kept := log[..|log| - |g.states| + k + 1];
            Recorded(kept, Reopened(g, k, synced)) && kept[|kept| - 1] == ContentOf(g.states[k])
  {
    hide ContentOf;
    var kept, h := log[..|log| - |g.states| + k + 1], Reopened(g, k, synced);
    forall i | 0 <= i < |h.states| ensures kept[|kept| - |h.states| + i] == ContentOf(h.states[i]) {
      assert log[|log| - |g.states| + i] == ContentOf(g.states[i]);
    }
    assert log[|log| - |g.states| + k] == ContentOf(g.states[k]);
  }

  /** The log cut to its first `k` transactions. */
  lemma CutHolds(d: Files, g: Gen, k: nat, synced: nat)
    requires OnDisk(d, g) && g.synced <= synced <= k <= |g.txns| && |LogBytes(g.txns[..k])| <= |WalOf(d, g.Wal()).bytes|
    requires |LogBytes(g.txns[..synced])| <= WalOf(d, g.Wal()).synced
    ensures var c := CutWal(d, g.Wal(), |LogBytes(g.txns[..k])|);
            && SameButWal(d, c, g.Wal()) && WalOf(c, g.Wal()).bytes == LogBytes(g.txns[..k])
            && LogHolds(WalOf(c, g.Wal()), g)
            && WalOf(c, g.Wal()).synced == (if WalOf(d, g.Wal()).synced < |LogBytes(g.txns[..k])| then WalOf(d, g.Wal()).synced
                                            else |LogBytes(g.txns[..k])|)
            && |LogBytes(g.txns[..synced])| <= WalOf(c, g.Wal()).synced <= |LogBytes(g.txns[..k])|
    ensures SameButWal(d, d, g.Wal())
    ensures var w := WalOf(d, g.Wal());
            |LogBytes(g.txns[..k])| == |w.bytes| ==>
            w.bytes == LogBytes(g.txns[..k]) && |LogBytes(g.txns[..synced])| <= w.synced <= |LogBytes(g.txns[..k])|
  {
    hide LogBytes, Published, MetasHold;
    var w := WalOf(d, g.Wal());
    LogGrows(g.txns, k, |g.txns|);
    assert g.txns[..|g.txns|] == g.txns;
    LogGrows(g.txns, g.synced, k);
    LogGrows(g.txns, synced, k);
    assert w.bytes[..|LogBytes(g.txns[..k])|] == LogBytes(g.txns[..k]);
  }

  lemma DurableIsPast(d: Files, name: Utf16, g: Gen, log: seq<Content>, promised: nat)
    requires Keeps(d, name, g, log, promised)
    ensures promised <= DurableAt(log, g) < |log|
  {
    hide IsTxn, ApplyFrames, Storable, OnDisk;
  }

  lemma {:induction false} MetaKeyGensSnoc(stores: seq<StoreMeta>, x: StoreMeta)
    ensures MetaKeyGens(stores + [x]) == map[x.id := x.keyGen] + MetaKeyGens(stores)
  {
    if stores == [] {
      assert [x][1..] == [];
      assert stores + [x] == [x];
    } else {
      assert (stores + [x])[1..] == stores[1..] + [x];
      MetaKeyGensSnoc(stores[1..], x);
    }
  }

  lemma FlushOutcome(d: Files, e: Files, name: Utf16, g: Gen, log: seq<Content>, promised: nat, extra: map<u64, u64>,
                     mem: DbVal, m: ManifestData)
    requires Keeps(d, name, g, log, promised) && Runs(d, g, extra, mem, m) && SameButWal(d, e, g.Wal())
    requires WalOf(e, g.Wal()).bytes == WalOf(d, g.Wal()).bytes
    requires WalOf(d, g.Wal()).synced <= WalOf(e, g.Wal()).synced <= |WalOf(e, g.Wal()).bytes|
    ensures Keeps(e, name, g, log, promised) && Runs(e, g, extra, mem, m)
    ensures WalOf(e, g.Wal()).synced == |WalOf(e, g.Wal()).bytes| ==>
            Keeps(e, name, AllSynced(g), log, promised) && Runs(e, AllSynced(g), extra, mem, m)
    ensures DurableAt(log, g) <= DurableAt(log, AllSynced(g)) == |log| - 1
  {
    hide OnDisk, Sound, Grows, LogBytes, WalOf, ContentOf, Blank, RestoresAt;
    RunningParts(d, name, g, log, promised, extra, mem, m);
    SoundStates(g, name);
    StateRestores(g, name, |g.txns|);
    SameRestores(g, AllSynced(g), g.Last().meta.value, |g.txns|);
    LogStays(d, e, g);
    OnDiskIsCurrent(e, g);
    SyncedIsSound(g, name, log);
    if WalOf(e, g.Wal()).synced == |WalOf(e, g.Wal()).bytes| {
      SyncedLog(e, g);
    }
  }

  lemma LogStays(d: Files, e: Files, g: Gen)
    requires OnDisk(d, g) && SameButWal(d, e, g.Wal())
    requires WalOf(e, g.Wal()).bytes == WalOf(d, g.Wal()).bytes
    requires WalOf(d, g.Wal()).synced <= WalOf(e, g.Wal()).synced <= |WalOf(e, g.Wal()).bytes|
    ensures OnDisk(e, g)
  {
    hide LogBytes, Published, MetasHold, WalOf;
    LogReplaced(d, e, g);
  }

  function SaturatingAdd(a: nat, b: nat): nat {
    if a + b > U64_MAX then U64_MAX else a + b
  }

  /** A counter reaches a threshold exactly when the sum does. */
  lemma CounterReaches(a: nat, b: nat, threshold: u64)
    ensures SaturatingAdd(a, b) >= threshold <==> a + b >= threshold
    ensures SaturatingAdd(a, b) <= U64_MAX
  {
  }

  /** What is known of a running database before a commit. */
  lemma RunningParts(d: Files, name: Utf16, g: Gen, log: seq<Content>, promised: nat, extra: map<u64, u64>,
                     mem: DbVal, m: ManifestData)
    requires Keeps(d, name, g, log, promised) && Runs(d, g, extra, mem, m)
    ensures Sound(g, name) && Grows(g) && OnDisk(d, g) && Holds(mem, extra, g) && m == g.manifest
    ensures WalOf(d, g.Wal()).bytes == LogBytes(g.txns)
  {
    hide OnDisk, LogBytes, Recorded, ApplyFrames, IsTxn, Storable;
  }

  lemma SoundGrows(g: Gen, name: Utf16)
    requires Sound(g, name)
    ensures Grows(g)
  {
  }

  /** How much is synced is no part of soundness. */
  lemma SyncedIsSound(g: Gen, name: Utf16, log: seq<Content>)
    requires Sound(g, name)
    ensures Sound(AllSynced(g), name)
    ensures Recorded(log, g) ==> Recorded(log, AllSynced(g))
  {
    hide IsTxn, ApplyFrames, Storable, FramesReplaceMeta;
    forall i | 0 <= i < |g.states| && g.manifest.segments == [] ensures MetaLogged(AllSynced(g), name, i) {
      assert MetaLogged(g, name, i);
    }
  }

  /** A commit without changes leaves the content alone. */
  lemma QuietCommit(v: DbVal, p: Pending, meta: DatabaseMeta)
    requires p.Size() == 0 && v.meta == Some(meta)
    ensures Merged(v, p, PatchedMeta(meta, p.keyGens), v.nextTxnSeq) == v
  {
    assert p == Pending(map[], map[], map[]);
    PatchNothing(meta.stores, {});
    Savepoints.MergedNothing(v.records, v.index);
    assert v.keyGens + map[] == v.keyGens;
  }

  /** The history with the new state is the new generation's. */
  lemma NextState(g: Gen, name: Utf16, log: seq<Content>, frames: seq<WalFrame>, v: DbVal, synced: bool)
    requires Sound(Extended(g, frames, v), name) && Recorded(log, g) && |g.states| == |g.txns| + 1 && g.synced <= |g.txns|
    ensures var h, more := Next(g, frames, v, synced), log + [ContentOf(v)];
            && Sound(h, name) && Recorded(more, h) && DurableAt(log, g) <= DurableAt(more, h) < |more|
            && (synced ==> DurableAt(more, h) == |more| - 1)
  {
    hide Sound, ContentOf, Recorded;
    RecordedMore(log, g, frames, v);
    SyncedIsSound(Extended(g, frames, v), name, log + [ContentOf(v)]);
  }

  /** Files that hold the next generation keep the longer history. */
  lemma NextKeeps(d: Files, e: Files, name: Utf16, g: Gen, log: seq<Content>, promised: nat, extra: map<u64, u64>,
                  mem: DbVal, m: ManifestData, frames: seq<WalFrame>, v: DbVal, synced: bool)
    requires Keeps(d, name, g, log, promised) && Runs(d, g, extra, mem, m)
    requires Sound(Extended(g, frames, v), name) && OnDisk(e, Next(g, frames, v, synced))
    ensures var h, more := Next(g, frames, v, synced), log + [ContentOf(v)];
            && Keeps(e, name, h, more, promised) && (synced ==> Keeps(e, name, h, more, |more| - 1))
            && promised <= DurableAt(log, g) <= DurableAt(more, h) < |more|
            && e.current.Some?
  {
    hide OnDisk, Sound, Recorded, ContentOf;
    RunningParts(d, name, g, log, promised, extra, mem, m);
    StatesCount(g);
    NextState(g, name, log, frames, v, synced);
    OnDiskIsCurrent(e, Next(g, frames, v, synced));
  }

  lemma NextRuns(d: Files, e: Files, name: Utf16, g: Gen, extra: map<u64, u64>, mem: DbVal, m: ManifestData, frames: seq<WalFrame>,
                 v: DbVal, mem': DbVal, synced: bool)
    requires Runs(d, g, extra, mem, m) && Holds(mem', extra, Extended(g, frames, v)) && |g.states| == |g.txns| + 1
    requires WalOf(e, g.Wal()).bytes == LogBytes(Extended(g, frames, v).txns) && e.current.Some?
    requires Sound(Extended(g, frames, v), name) && (synced || v.meta == g.Last().meta)
    ensures Runs(e, Next(g, frames, v, synced), extra, mem', m)
    ensures ContentOf(mem') == ContentOf(v)
  {
    hide LogBytes, ContentOf, WalOf, Sound, RestoresAt;
    HarmlessIsInvisible(extra, v);
    var h, next := Extended(g, frames, v), Next(g, frames, v, synced);
    if synced {
      StateRestores(h, name, |h.txns|);
      SameRestores(h, next, v.meta.value, |h.txns|);
    } else {
      assert h.txns[..g.synced] == g.txns[..g.synced];
      SameRestores(g, h, v.meta.value, g.synced);
    }
  }

  lemma SameContent(mem: DbVal, extra: map<u64, u64>, g: Gen, frames: seq<WalFrame>, v: DbVal)
    requires Holds(mem, extra, Extended(g, frames, v))
    ensures ContentOf(mem) == ContentOf(v)
  {
    HarmlessIsInvisible(extra, v);
  }

  lemma QuietParts(d: Files, g: Gen, extra: map<u64, u64>, mem: DbVal, m: ManifestData, p: Pending, meta: DatabaseMeta)
    requires Runs(d, g, extra, mem, m)
    ensures p.Size() == 0 && mem.meta == Some(meta) ==> Merged(mem, p, PatchedMeta(meta, p.keyGens), mem.nextTxnSeq) == mem
  {
    hide Runs, Merged, PatchedMeta;
    if p.Size() == 0 && mem.meta == Some(meta) {
      QuietCommit(mem, p, meta);
    }
  }

  /** A commit undone leaves a running database as it was. */
  lemma StillRuns(d: Files, e: Files, name: Utf16, g: Gen, log: seq<Content>, promised: nat, extra: map<u64, u64>,
                  mem: DbVal, m: ManifestData)
    requires Keeps(d, name, g, log, promised) && Runs(d, g, extra, mem, m)
    requires OnDisk(e, g) && WalOf(e, g.Wal()).bytes == LogBytes(g.txns)
    ensures Keeps(e, name, g, log, promised) && Runs(e, g, extra, mem, m)
  {
    hide OnDisk, Sound, Recorded, LogBytes, WalOf, Mendable, Holds;
    OnDiskIsCurrent(e, g);
  }

  lemma {:induction false} UnitsLength(s: Utf16)
    ensures |Concat(UnitBytes, s)| == 2 * |s|
  {
    if s != [] {
      UnitsLength(s[1..]);
    }
  }

  /** An empty database's metadata fits its fields when its name is of any sensible length. */
  lemma EmptyMetaFits(name: Utf16)
    requires |name| < 0x4000_0000
    ensures Encodable(EmptyMeta(name))
  {
    UnitsLength(name);
    CountLen(|name|);
    CountLen(0);
    hide CountBytes, UnitBytes, LeBytes;
    assert |Utf16Bytes(name)| == 4 + 2 * |name|;
  }

  /** Writing metadata that does not restore what is on stable storage ends the generation: a crash can now
      leave files that open to something else than their log holds. */
  lemma HealingRuins(d: Files, name: Utf16, g: Gen, log: seq<Content>, promised: nat, meta: DatabaseMeta) returns (f: Files)
    requires Keeps(d, name, g, log, promised) && d.current.Some? && Encodable(meta)
    requires g.synced < |g.states| && g.synced <= |g.txns|
    requires g.synced == WholeWithin(g.txns, WalOf(d, g.Wal()).synced) && !RestoresAt(g, meta, g.synced)
    ensures var e := Replaced(d, MetaFile(MetaBytes(meta)));
            && !Keeps(e, name, g, log, promised) && e.current.Some? && Sound(g, name) && Recorded(log, g)
            && Misopens(e, f, g)
  {
    hide Sound, Recorded, RestoresAt, LogBytes, ParseMeta, ParseManifest, Segment.ParseSegment, MetaBytes, Misopens, Recoverable;
    hide WholeWithin, WalOf, Encodable, IsVersion;
    var e := Replaced(d, MetaFile(MetaBytes(meta)));
    WalKept(d, e, g.Wal());
    MetaFitsIfEncodable(meta);
    MetaRoundTrip(meta);
    UnsafeMisopens(e, g, name, meta);
    f := Unsynced(e);
  }

  /** Files of which less is on stable storage misopen as well. */
  lemma MisopensToo(d: Files, r: Files, f: Files, g: Gen)
    requires Grows(g) && Misopens(d, f, g) && r.(wals := d.wals) == d
    requires forall n: u64 :: WalOf(r, n).bytes == WalOf(d, n).bytes && Safe(WalOf(r, n)) <= Safe(WalOf(d, n))
    ensures Misopens(r, f, g)
  {
    hide Load, ContentOf, WholeWithin, IsTxn, ApplyFrames, WalOf;
    assert forall n: u64 :: LostSuffix(WalOf(d, n), WalOf(f, n)) ==> LostSuffix(WalOf(r, n), WalOf(f, n));
  }

  lemma StillMisopens(d: Files, f: Files, g: Gen, name: Utf16, log: seq<Content>)
    requires Sound(g, name) && Recorded(log, g) && Misopens(d, f, g)
    ensures Sound(AllSynced(g), name) && Recorded(log, AllSynced(g)) && Misopens(d, f, AllSynced(g))
  {
    hide Sound, Recorded, Load, ContentOf, WholeWithin, WalOf, CrashImage, IsTxn, ApplyFrames;
    SyncedIsSound(g, name, log);
    SoundStates(AllSynced(g), name);
  }

  /** What is on stable storage is no part of what reading the files gives. */
  lemma RealReadsTheSame(fs: FileSystem)
    ensures var d, r := fs.files, fs.Real();
            && r.(wals := d.wals) == d
            && (forall n: u64 :: WalOf(r, n).bytes == WalOf(d, n).bytes && Safe(WalOf(r, n)) <= Safe(WalOf(d, n)))
            && (forall n: u64 | n !in fs.debts :: WalOf(r, n) == WalOf(d, n))
            && forall name :: Load(r, name) == Load(d, name)
  {
    hide ApplyFrames, Recover, ParseManifest, LoadSegments, WithMeta, WithKeyGens;
    var d, r := fs.files, fs.Real();
    assert forall n: u64 :: WalOf(r, n).bytes == WalOf(d, n).bytes && Safe(WalOf(r, n)) <= Safe(WalOf(d, n));
    forall name ensures Load(r, name) == Load(d, name) {
      assert LoadManifest(r) == LoadManifest(d);
      assert forall m :: LoadBase(r, name, m) == LoadBase(d, name, m);
    }
  }

  /** Logs that are not the generation's do not matter to it. */
  lemma OtherLogs(d: Files, r: Files, name: Utf16, g: Gen, log: seq<Content>, promised: nat)
    requires Keeps(d, name, g, log, promised) && r.(wals := d.wals) == d && WalOf(r, g.Wal()) == WalOf(d, g.Wal())
    ensures Keeps(r, name, g, log, promised)
  {
    hide Sound, Recorded, LogBytes, ParseMeta, ParseManifest, Segment.ParseSegment, WalOf;
  }

  /** The log a power loss is asked about. */
  lemma CurrentLog(d: Files, name: Utf16, g: Gen, log: seq<Content>, promised: nat)
    requires Keeps(d, name, g, log, promised)
    ensures LoadManifest(d).None? ==> g.Wal() == 1
    ensures LoadManifest(d).Some? ==> g.Wal() == LoadManifest(d).value.walSeq
  {
    hide Sound, Recorded, LogHolds, MetasHold, ParseManifest;
  }

  function WithLog(r: Files, d: Files, n: u64): Files {
    r.(wals := if n in d.wals then r.wals[n := d.wals[n]] else r.wals - {n})
  }

  lemma OneLogOf(r: Files, d: Files, n: u64)
    ensures WalOf(WithLog(r, d, n), n) == WalOf(d, n) && forall m: u64 | m != n :: WalOf(WithLog(r, d, n), m) == WalOf(r, m)
  {
  }

  /** A crash that leaves the generation's log what it counts as synced is one of the files as they count. */
  lemma CutAsCounted(fs: FileSystem, e: Files, name: Utf16, g: Gen, log: seq<Content>, promised: nat)
    requires Keeps(fs.files, name, g, log, promised) && CrashImage(fs.Real(), e)
    requires g.Wal() in fs.debts ==> |WalOf(e, g.Wal()).bytes| >= WalOf(fs.files, g.Wal()).synced
    ensures Keeps(e, name, g, log, promised) && (e.current.Some? ==> HealsSafely(e, name))
  {
    hide Keeps, FileSystem.Real, WalOf, Load, HealsSafely;
    var d, r, n := fs.files, fs.Real(), g.Wal();
    RealReadsTheSame(fs);
    var c := WithLog(r, d, n);
    OneLogOf(r, d, n);
    OtherLogs(d, c, name, g, log, promised);
    assert LostSuffix(WalOf(r, n), WalOf(e, n));
    CrashKeepsHistory(c, e, name, g, log, promised);
  }

  /** Healing with the metadata of the last transaction, had the log been synced. */
  lemma HealingOnCredit(d: Files, name: Utf16, g: Gen, log: seq<Content>, promised: nat, meta: DatabaseMeta)
    requires Keeps(d, name, g, log, promised) && d.current.Some? && Encodable(meta)
    requires WalOf(d, g.Wal()).bytes == LogBytes(g.txns) && g.states != [] && g.Last().meta == Some(meta)
    ensures var e := Counted(Replaced(d, MetaFile(MetaBytes(meta))), g.Wal());
            && Keeps(e, name, AllSynced(g), log, promised) && e.current.Some? && Mendable(AllSynced(g))
            && WalOf(e, g.Wal()).bytes == LogBytes(g.txns)
    ensures WalOf(d, g.Wal()).synced <= |WalOf(d, g.Wal()).bytes|
  {
    hide Sound, Recorded, OnDisk, LogBytes, WalOf, Encodable, MetaBytes, RestoresAt;
    var n, h := g.Wal(), AllSynced(g);
    SoundStates(g, name);
    LogIsSynced(d, g);
    CountedWal(d, n);
    var c := Counted(d, n);
    LogStays(d, c, g);
    SoundGrows(g, name);
    SyncedLog(c, g);
    SyncedIsSound(g, name, log);
    StateRestores(g, name, |g.txns|);
    SameRestores(g, h, meta, |g.txns|);
    MetaWritten(c, h, meta);
    var e := Counted(Replaced(d, MetaFile(MetaBytes(meta))), n);
    assert e == Replaced(c, MetaFile(MetaBytes(meta)));
    WalKept(c, e, n);
    OnDiskIsCurrent(e, h);
  }

  /** After an unsafe healing: a crash that misopens, and the invariant but for the sync of the log. */
  lemma HealedUnsafely(fs: FileSystem, d: Files, name: Utf16, g: Gen, log: seq<Content>, promised: nat, meta: DatabaseMeta)
    requires Keeps(d, name, g, log, promised) && d.current.Some? && Encodable(meta)
    requires WalOf(d, g.Wal()).bytes == LogBytes(g.txns) && g.states != [] && g.Last().meta == Some(meta)
    requires g.synced < |g.states| && g.synced <= |g.txns|
    requires g.synced == WholeWithin(g.txns, WalOf(d, g.Wal()).synced) && !RestoresAt(g, meta, g.synced)
    requires fs.files == Replaced(d, MetaFile(MetaBytes(meta)))
    ensures !Keeps(fs.files, name, g, log, promised) && fs.files.current.Some? && Sound(g, name) && Recorded(log, g)
    ensures exists f :: Misopens(fs.Real(), f, g)
    ensures var e := Counted(fs.files, g.Wal());
            && Keeps(e, name, AllSynced(g), log, promised) && e.current.Some? && Mendable(AllSynced(g))
            && WalOf(e, g.Wal()).bytes == LogBytes(AllSynced(g).txns)
    ensures WalOf(fs.files, g.Wal()).synced <= |WalOf(fs.files, g.Wal()).bytes|
  {
    hide Keeps, Sound, Recorded, LogBytes, WalOf, Encodable, MetaBytes, RestoresAt, Misopens, Counted, WholeWithin, FileSystem.Real;
    var f := HealingRuins(d, name, g, log, promised, meta);
    SoundStates(g, name);
    RealReadsTheSame(fs);
    MisopensToo(fs.files, fs.Real(), f, g);
    HealingOnCredit(d, name, g, log, promised, meta);
    WalKept(d, fs.files, g.Wal());
  }

  lemma CountedWal(d: Files, n: u64)
    ensures SameButWal(d, Counted(d, n), n) && WalOf(Counted(d, n), n) == WalFile(WalOf(d, n).bytes, |WalOf(d, n).bytes|)
  {
  }

  lemma CountedKeepsMeta(d: Files, n: u64)
    ensures Counted(d, n).meta == d.meta && Counted(d, n).current == d.current
  {
  }

  lemma CountedIs(d: Files, name: Utf16, g: Gen, log: seq<Content>, promised: nat)
    requires d.current.Some? && Keeps(Counted(d, g.Wal()), name, AllSynced(g), log, promised) && g.synced <= |g.txns|
    ensures LoadManifest(d) == Some(g.manifest) && DurableAt(log, AllSynced(g)) == |log| - 1
    ensures DurableAt(log, g) <= DurableAt(log, AllSynced(g))
  {
    hide Recorded, ParseManifest, LogHolds, MetasHold, ApplyFrames, IsTxn, Storable, WalOf;
  }

  lemma RunningOpens(d: Files, name: Utf16, g: Gen, log: seq<Content>, promised: nat, extra: map<u64, u64>, mem: DbVal, m: ManifestData)
    requires Keeps(d, name, g, log, promised) && Runs(d, g, extra, mem, m)
    ensures log != [] && Load(d, name).Loaded? && ContentOf(Load(d, name).val) == log[|log| - 1]
  {
    hide OnDisk, Load, ContentOf, IsTxn, ApplyFrames, Storable, MetaLogged, WholeWithin, WalOf, LogBytes, Mendable, Holds;
    OnDiskOpensRight(d, g, name);
    WholeLog(g.txns);
    assert log[|log| - |g.states| + |g.txns|] == ContentOf(g.states[|g.txns|]);
  }

  /** Memory reads as the last content of the history. */
  lemma MemoryIsLast(d: Files, name: Utf16, g: Gen, log: seq<Content>, promised: nat, extra: map<u64, u64>, mem: DbVal, m: ManifestData)
    requires Keeps(d, name, g, log, promised) && Runs(d, g, extra, mem, m)
    ensures log != [] && log[|log| - 1] == ContentOf(mem) && mem.meta.Some? && ContentOf(mem).meta == mem.meta
  {
    hide OnDisk, IsTxn, ApplyFrames, Encodable, MetaLogged, WalOf, LogBytes, Mendable, Harmless, Covered;
    HarmlessIsInvisible(extra, g.Last());
    assert Storable(g.Last());
    assert log[|log| - |g.states| + |g.txns|] == ContentOf(g.states[|g.txns|]);
  }

  lemma RunningIsMendable(d: Files, g: Gen, extra: map<u64, u64>, mem: DbVal, m: ManifestData)
    requires Runs(d, g, extra, mem, m)
    ensures Mendable(g)
  {
  }

  lemma CutStays(d: Files, n: u64, len: nat)
    requires len <= |WalOf(d, n).bytes|
    ensures CutWal(d, n, len).meta == d.meta && CutWal(d, n, len).current == d.current
  {
  }

  lemma EmptyMetaReads(name: Utf16)
    requires Encodable(EmptyMeta(name))
    ensures ParseMeta(MetaBytes(EmptyMeta(name))) == Done(EmptyMeta(name), [])
    ensures MetaKeyGens(EmptyMeta(name).stores) == map[]
  {
    hide ParseMeta, MetaBytes;
    MetaRoundTrip(EmptyMeta(name));
  }

  /** Before there is a database, the history is the empty one. */
  lemma FirstIsKept(d: Files, name: Utf16, g: Gen, log: seq<Content>, promised: nat)
    requires Keeps(d, name, g, log, promised) && d.current.None?
    ensures g == FirstGen(name)
  {
  }

  lemma FirstReopens(name: Utf16)
    ensures var g := FirstGen(name);
            && g.manifest.segments == [] && |g.states| == 1 && g.states[0] == Fresh(name)
            && Under(map[], Fresh(name)) == Fresh(name)
            && forall n: nat :: WholeWithin(g.txns, n) == 0 && Reopened(g, 0, WholeWithin(g.txns, n)) == g
  {
  }

  lemma NoLogYet()
    ensures LogBytes([]) == []
  {
  }

  lemma OnDiskCounts(d: Files, g: Gen)
    requires OnDisk(d, g)
    ensures g.synced <= |g.txns| && g.synced < |g.states|
  {
  }

  /** One more transaction is in the log, none of it synced, and nothing else has changed. */
  ghost predicate BegunUnsynced(g: Gen, h: Gen, d: Files, e: Files) {
    && |h.txns| == |g.txns| + 1 && h.txns[..|g.txns|] == g.txns && |h.states| == |g.states| + 1 && h.states[..|g.states|] == g.states
    && h.name == g.name && h.manifest == g.manifest && h.synced == g.synced
    && WalOf(e, h.Wal()) == WalFile(LogBytes(h.txns), WalOf(d, g.Wal()).synced)
    && e.meta == d.meta && e.metas == d.metas && e.current == d.current
  }

  lemma Begun(d: Files, e: Files, g: Gen, frames: seq<WalFrame>, v: DbVal)
    requires SameButWal(d, e, g.Wal())
    requires WalOf(e, g.Wal()) == WalFile(LogBytes(Extended(g, frames, v).txns), WalOf(d, g.Wal()).synced)
    ensures BegunUnsynced(g, Next(g, frames, v, false), d, e)
  {
    hide LogBytes, WalOf;
  }

  lemma MetaIsThere(v: DbVal)
    requires Segment.ValFits(v)
    ensures v.meta.Some?
  {
  }

  lemma MendableMeans(g: Gen)
    requires g.states != [] && g.Last().meta.Some? && g.synced <= |g.txns| && g.synced < |g.states|
    ensures Mendable(g) <==> RestoresAt(g, g.Last().meta.value, g.synced)
  {
  }

  lemma LoneFrame(txnSeq: u64, ops: seq<WalOp>, max: nat)
    ensures |ops| == 1 ==> |TxnFrames(txnSeq, ops, max)| == 1
  {
    hide FitsAlone, Fits;
    if |ops| == 1 {
      assert ops[1..] == [];
      assert [] + [ops[0]] == ops;
      assert PackFrom(ops, [], max) == [ops];
    }
  }

  lemma QuietMeta(p: Pending, meta: DatabaseMeta)
    requires p.Size() == 0
    ensures PatchedMeta(meta, p.keyGens) == meta && p.keyGens == map[]
  {
    assert p.keyGens == map[];
    PatchNothing(meta.stores, {});
  }

  lemma StatesCount(g: Gen)
    requires Grows(g)
    ensures |g.states| == |g.txns| + 1
  {
  }

  lemma OnDiskIsCurrent(d: Files, g: Gen)
    requires OnDisk(d, g)
    ensures d.current.Some?
  {
  }

  function HighestNumber(manifestSeq: u64, walSeq: u64, segments: seq<u64>): u64 {
    MaxU64(MaxU64(manifestSeq, walSeq), Highest(segments))
  }

  lemma NumbersGrow(manifestSeq: u64, walSeq: u64, segments: seq<u64>)
    ensures HighestNumber(SaturatingInc(manifestSeq), SaturatingInc(walSeq), [SaturatingInc(Highest(segments))]) <=
            HighestNumber(manifestSeq, walSeq, segments) + 1
  {
  }

  lemma SegmentsKept(c: Files, d: Files, e: Files, n: u64)
    requires OnlySegment(c, d, n) && e.segments == d.segments
    ensures OnlySegment(c, e, n)
  {
  }

  lemma WalKept(d: Files, e: Files, n: u64)
    requires e.wals == d.wals
    ensures WalOf(e, n) == WalOf(d, n)
  {
  }

  lemma OtherWalRemoved(d: Files, e: Files, n: u64, m: u64)
    requires (e == d || e == d.(wals := d.wals - {n})) && m != n
    ensures WalOf(e, m) == WalOf(d, m)
  {
  }

  lemma WalEmptied(d: Files, n: u64)
    ensures SameButWal(d, CutWal(d, n, 0), n) && WalOf(CutWal(d, n, 0), n) == WalFile([], 0)
  {
  }

  lemma SameButWalTrans(c: Files, d: Files, e: Files, n: u64)
    ensures SameButWal(c, c, n)
    ensures SameButWal(c, d, n) && SameButWal(d, e, n) ==> SameButWal(c, e, n)
  {
  }

  lemma NothingWritten(frames: seq<WalFrame>)
    ensures Concat(FrameBytes, frames[..0]) == []
  {
  }

  lemma LogIsSynced(d: Files, g: Gen)
    requires OnDisk(d, g)
    ensures WalOf(d, g.Wal()).synced <= |WalOf(d, g.Wal()).bytes|
  {
  }

  lemma FrameWritten(before: seq<byte>, frames: seq<WalFrame>, i: nat, kept: nat)
    requires i < |frames| && kept <= |FrameBytes(frames[i])|
    ensures var w := before + Concat(FrameBytes, frames[..i]) + FrameBytes(frames[i])[..kept];
            && before <= w <= before + TxnBytes(frames)
            && (kept == |FrameBytes(frames[i])| ==> w == before + Concat(FrameBytes, frames[..i + 1]))
  {
    hide FrameBytes, Concat;
    var one := FrameBytes(frames[i]);
    assert frames == frames[..i + 1] + frames[i + 1..];
    assert frames[..i + 1] == frames[..i] + [frames[i]];
    ConcatAppend(FrameBytes, frames[..i + 1], frames[i + 1..]);
    ConcatAppend(FrameBytes, frames[..i], [frames[i]]);
    ConcatOne(FrameBytes, frames[i]);
    CutInside(before, Concat(FrameBytes, frames[..i]), one, kept, Concat(FrameBytes, frames[i + 1..]));
  }

  lemma CutInside(a: seq<byte>, b: seq<byte>, c: seq<byte>, n: nat, d: seq<byte>)
    requires n <= |c|
    ensures a <= a + b + c[..n] <= a + (b + c + d)
    ensures n == |c| ==> a + b + c[..n] == a + (b + c)
  {
    assert a + (b + c + d) == (a + b + c[..n]) + (c[n..] + d);
  }

  /** After a failed append: the cut restores the generation, and should the machine have stopped, before
      the cut or after it, the files are those of the generation with the transaction begun. */
  lemma CutBackOrStopped(d: Files, e: Files, g: Gen, frames: seq<WalFrame>, v: DbVal)
    requires OnDisk(d, g) && Grows(g) && WalOf(d, g.Wal()).bytes == LogBytes(g.txns) && SameButWal(d, e, g.Wal())
    requires LogBytes(g.txns) <= WalOf(e, g.Wal()).bytes <= LogBytes(g.txns) + TxnBytes(frames)
    requires WalOf(d, g.Wal()).synced <= WalOf(e, g.Wal()).synced <= |WalOf(e, g.Wal()).bytes|
    ensures OnDisk(e, Extended(g, frames, v))
    ensures var c := CutWal(e, g.Wal(), |LogBytes(g.txns)|);
            OnDisk(c, g) && WalOf(c, g.Wal()).bytes == LogBytes(g.txns) && OnDisk(c, Extended(g, frames, v))
            && SameButWal(d, c, g.Wal())
  {
    hide OnDisk, Grows, LogBytes, TxnBytes;
    Appending(d, e, g, frames, v);
    LogCutBack(d, e, g);
    LogIsSynced(d, g);
    Appending(d, CutWal(e, g.Wal(), |LogBytes(g.txns)|), g, frames, v);
  }

  lemma CurrentIs(d: Files, g: Gen)
    requires OnDisk(d, g)
    ensures d.current == Some(g.manifest.manifestSeq)
  {
  }

  /** The compacted generation ends the same history, and all of that is on stable storage. */
  lemma NextIsSound(g: Gen, name: Utf16, log: seq<Content>, v: DbVal, extra: map<u64, u64>, next: Gen)
    requires Sound(g, name) && Recorded(log, g) && Holds(v, extra, g)
    requires next == Compacted(name, next.manifest, v) && |next.manifest.segments| == 1
    ensures Sound(next, name) && Mendable(next) && Recorded(log, next) && Holds(v, map[], next)
    ensures DurableAt(log, g) <= DurableAt(log, next) == |log| - 1
  {
    hide ContentOf, Encodable, ApplyFrames, IsTxn;
    var last := g.Last();
    HarmlessIsInvisible(extra, last);
    assert Storable(last);
    assert Storable(v) by { CoveredGrows(v.meta.value, last.keyGens.Keys, v.keyGens.Keys); }
    CompactedIsSound(next.manifest, v, name);
    assert log[|log| - |g.states| + (|g.states| - 1)] == ContentOf(last);
    assert map[] + v.keyGens == v.keyGens;
  }

  /** What a compaction starts from: the new numbers collide with nothing the generation uses. */
  lemma BeforeCompaction(d: Files, name: Utf16, g: Gen, log: seq<Content>, promised: nat, extra: map<u64, u64>,
                         v: DbVal, m: ManifestData, next: Gen)
    requires Keeps(d, name, g, log, promised) && Runs(d, g, extra, v, m)
    requires m.manifestSeq < U64_MAX && m.walSeq < U64_MAX && forall n | n in m.segments :: n < U64_MAX
    requires next == Compacted(name, ManifestData(SaturatingInc(m.manifestSeq), SaturatingInc(m.walSeq),
                                                  [SaturatingInc(Highest(m.segments))]), v)
    ensures OnDisk(d, g) && d.current == Some(g.manifest.manifestSeq) && m == g.manifest
    ensures WalOf(d, g.Wal()).bytes == LogBytes(g.txns)
  {
    hide Sound, Recorded, OnDisk, LogBytes;
    CurrentIs(d, g);
  }

  /** What a compaction leaves: either generation, each with the whole history before it. */
  lemma CompactionOutcome(d: Files, e: Files, name: Utf16, g: Gen, log: seq<Content>, promised: nat,
                          extra: map<u64, u64>, v: DbVal, m: ManifestData, next: Gen)
    requires Keeps(d, name, g, log, promised) && Runs(d, g, extra, v, m) && e.current.Some?
    requires next == Compacted(name, next.manifest, v) && |next.manifest.segments| == 1
    ensures OnDisk(e, g) ==> Keeps(e, name, g, log, promised)
    ensures OnDisk(e, g) && WalOf(e, g.Wal()) == WalOf(d, g.Wal()) ==> Runs(e, g, extra, v, m)
    ensures OnDisk(e, next) ==> Keeps(e, name, next, log, promised)
    ensures OnDisk(e, next) && WalOf(e, next.Wal()).bytes == [] ==> Runs(e, next, map[], v, next.manifest)
    ensures DurableAt(log, g) <= DurableAt(log, next) == |log| - 1
  {
    hide OnDisk, Sound, Recorded, Mendable, Holds, WalOf;
    NextIsSound(g, name, log, v, extra, next);
    assert LogBytes(next.txns) == [];
  }

  /** An open database's metadata can be written down. */
  lemma RunningMeta(d: Files, name: Utf16, g: Gen, log: seq<Content>, promised: nat, extra: map<u64, u64>,
                    v: DbVal, m: ManifestData)
    requires Keeps(d, name, g, log, promised) && Runs(d, g, extra, v, m)
    ensures v.meta.Some? && Encodable(v.meta.value)
  {
    hide OnDisk, Encodable, ApplyFrames, IsTxn;
    assert Storable(g.Last());
  }
}
