/** Runs of the whole engine, from an empty disk, in which it does less than it is meant to. */
module Limits {
  import opened Bytes
  import opened Codec
  import opened Keys
  import opened Meta
  import opened State
  import opened Apply
  import opened Commit
  import opened Disk
  import opened Generation
  import opened History
  import opened Wal
  import opened WalRecovery
  import opened WalPacker
  import opened Database
  import Savepoints
  import Segment
  import Txn

  /** The metadata of a nameless database without stores. */
  function Bare(version: u64): DatabaseMeta {
    EmptyMeta([]).(version := version)
  }

  lemma BareIsShort(version: u64)
    ensures |MetaBytes(Bare(version))| == 40 && Encodable(Bare(version))
    ensures FitsAlone(MetaReplace(MetaBytes(Bare(version))), MAX_FRAME_PAYLOAD)
  {
    CountLen(0);
    hide CountBytes, LeBytes;
    assert Utf16Bytes([]) == CountBytes(0);
    assert Concat(StoreBytes, []) == [];
    assert |MetaBytes(Bare(version))| == 40;
    assert |VarintBytes(40)| == 1;
    var b := MetaBytes(Bare(version));
    assert OpBytes(MetaReplace(b)) == [OpKind(MetaReplace(b))] + (VarintBytes(40) + b);
  }

  lemma FirstKeyGenFits()
    ensures FitsAlone(KeyGenSet(1, KEY_GEN_START), MAX_FRAME_PAYLOAD)
  {
    assert |VarintBytes(1)| == 1;
  }

  /** A bare transaction's outcome on a bare database. */
  lemma BareOutcome(version: u64, g: map<u64, u64>)
    requires |g| < U32_LIMIT
    ensures var p := Pending(map[], map[], g);
            && PatchedMeta(Bare(version), g) == Bare(version)
            && Merged(Fresh([]), p, Bare(version), 2) == EMPTY.(meta := Some(Bare(version)), keyGens := g, nextTxnSeq := 2)
            && Segment.ValFits(Merged(Fresh([]), p, Bare(version), 2))
  {
    hide MetaBytes;
    BareIsShort(version);
    Savepoints.MergedNothing(map[], {});
  }

  // ---------------------------------------------------------------- a rolled-back generator

  /** A transaction that did nothing but roll one request back has nothing to write, exactly when it could not
      write at all or the request set no generator. */
  method AbandonedIsQuiet(db: FsDatabase, mode: Savepoints.TxnMode, scope: seq<u64>, durability: Txn.Durability,
                          ops: seq<Savepoints.Op>) returns (t: Txn.FsTxn, quiet: bool)
    requires db.Live() && Savepoints.WellNested(ops, 0)
    ensures fresh(t) && quiet == db.Quiet(t)
    ensures quiet <==> mode.ReadOnly? || forall op | op in ops :: !op.KeyGenSet?
  {
    hide FsDatabase.Live, Txn.FsTxn.Valid, Txn.FsTxn.MetaSound, Savepoints.WellNested;
    t := db.Begin(mode, scope, durability);
    assert t.pendingKeyGens == map[];
    t.AbandonRequest(ops);
    quiet := db.Quiet(t);
  }

  /** A generator set and rolled back, and nothing else: the commit still adds a state to the history, which
      only takes a sequence number, and writes generator and metadata to stable storage. */
  method RolledBackStillCommits(value: u64) returns (db: FsDatabase, t: Txn.FsTxn, r: CommitResult)
    ensures db.Live() && r.Committed? && !db.Quiet(t) && MetaShown(db.fs.files, Some(Bare(0)))
    ensures t.pendingKeyGens == map[1 := KEY_GEN_START] && t.pendingRecords == map[] && t.pendingIndex == map[] && !t.schemaDirty
    ensures |db.log| == 2 && db.log[1] == db.log[0].(nextTxnSeq := 2) && db.promised == 1
  {
    hide FsDatabase.Live, FsDatabase.Kept, FsDatabase.Ready, FsDatabase.Fitting, FsDatabase.Outcome, IsNew, Bare, Encodable, MetaShown;
    hide PatchedMeta, BegunUnsynced, ContentOf, Txn.FsTxn.MetaSound, Txn.FsTxn.Valid;
    db, t := RolledBack(value);
    BareIsReady(db, t, 0);
    BareContent();
    r := db.Commit(t);
  }

  lemma BareContent()
    ensures ContentOf(EMPTY.(meta := Some(Bare(0)), keyGens := map[1 := KEY_GEN_START], nextTxnSeq := 2)) ==
            ContentOf(Fresh([])).(nextTxnSeq := 2)
  {
    assert Savepoints.KeyGenView(map[], map[1 := KEY_GEN_START]) == Savepoints.KeyGenView(map[], map[]);
  }

  /** The transaction before its commit. */
  method RolledBack(value: u64) returns (db: FsDatabase, t: Txn.FsTxn)
    ensures fresh(db) && fresh(db.fs) && fresh(db.state) && IsNew(db) && db.fs.faults == [] && t.MetaSound({})
    ensures t.state == db.state && t.meta == Bare(0) && t.mode.ReadWrite? && t.durability.Strict? && !t.schemaDirty
    ensures t.pendingKeyGens == map[1 := KEY_GEN_START] && t.pendingRecords == map[] && t.pendingIndex == map[]
  {
    hide FsDatabase.Live, Txn.FsTxn.Valid, Txn.FsTxn.MetaSound;
    db := NewDatabase([], U64_MAX, MAX_FRAME_PAYLOAD, U64_MAX, U64_MAX);
    assert db.g.Last() == Fresh([]) && Fresh([]).keyGens.Keys == {};
    t := db.Begin(Savepoints.ReadWrite, [1], Txn.Strict);
    AbandonOne(t, value);
  }

  method AbandonOne(t: Txn.FsTxn, value: u64)
    requires t.Valid() && t.mode.ReadWrite? && t.pendingKeyGens == map[] && t.state.keyGens == map[]
    requires t.pendingRecords == map[] && t.pendingIndex == map[]
    modifies t
    ensures t.meta == old(t.meta) && t.schemaDirty == old(t.schemaDirty) && (old(t.MetaSound({})) ==> t.MetaSound({}))
    ensures t.pendingKeyGens == map[1 := KEY_GEN_START] && t.pendingRecords == map[] && t.pendingIndex == map[]
  {
    hide Txn.FsTxn.Valid, Txn.FsTxn.MetaSound;
    var script := [Savepoints.KeyGenSet(1, value)];
    t.AbandonRequest(script);
    assert script[0] in script;
    assert Savepoints.StoresSet(t.Ctx(), script) == {1};
  }

  /** An open database as `NewDatabase` leaves it. */
  ghost predicate IsNew(db: FsDatabase)
    reads db, db.fs, db.state
  {
    && db.Live() && db.name == [] && db.maxPayload == MAX_FRAME_PAYLOAD && db.g == FirstGen([])
    && db.log == [ContentOf(Fresh([]))] && db.state.Val() == Fresh([])
  }

  lemma FreshFiles(db: FsDatabase)
    requires IsNew(db)
    ensures db.state.manifestSeq == db.state.walSeq == 1 && db.state.segments == []
    ensures WalOf(db.fs.files, 1) == WalFile([], 0) && !db.fs.dead && db.fs.files.current.Some?
    ensures db.name == [] && db.g == FirstGen([])
  {
    hide Sound, Recorded, Published, MetasHold, Encodable;
    NoLogYet();
  }

  /** A transaction on a new database that touches at most generators and the version can be committed. */
  lemma BareIsReady(db: FsDatabase, t: Txn.FsTxn, version: u64)
    requires IsNew(db) && t.state == db.state && t.meta == Bare(version) && t.MetaSound({})
    requires t.pendingRecords == map[] && t.pendingIndex == map[]
    requires t.pendingKeyGens == map[] || t.pendingKeyGens == map[1 := KEY_GEN_START]
    ensures !db.fs.dead && db.log == [ContentOf(Fresh([]))]
    ensures db.Ready(t) && db.Fitting(t) && PatchedMeta(t.meta, t.pendingKeyGens) == t.meta
    ensures db.Outcome(t) == EMPTY.(meta := Some(Bare(version)), keyGens := t.pendingKeyGens, nextTxnSeq := 2)
  {
    hide FsDatabase.Live, Encodable, MetaBytes, FitsAlone, Segment.ValFits;
    FreshFiles(db);
    BareIsShort(version);
    FirstKeyGenFits();
    BareOutcome(version, t.pendingKeyGens);
  }

  // ---------------------------------------------------------------- metadata healed too early

  /** A version change is appended, and the process dies in the sync. The next one opens the database, finds
      the change and brings the metadata file up to date with it. A power loss that then takes the log, which
      nobody has synced, leaves the new version beside none of the transaction: no state of the history. */
  method HealedTooEarly() returns (db: FsDatabase, ghost history: seq<Content>, ghost e: Files)
    ensures history == [ContentOf(Fresh([])), ContentOf(Changed())]
    ensures db.isOpen && db.log <= history && CrashImage(db.fs.Real(), e) && Load(e, []).Loaded?
    ensures ContentOf(Load(e, []).val) !in history
  {
    hide FsDatabase.Live, FsDatabase.Kept, FsDatabase.Ruined, FsDatabase.Stable, ContentOf, CrashImage, Load, LogBytes;
    db := KilledInVersionChange();
    history := db.log;
    db.ProcessDeath([]);
    NotStable(db);
    var _ := db.Open();
    Numbered();
    e := LostVersion(db, history);
  }

  /** The same run, but with a flush after the reopening: the debt it left is paid, and nothing can be lost. */
  method HealedThenFlushed() returns (db: FsDatabase, ghost owed: bool, ghost ruined: bool)
    ensures owed && ruined && db.Live() && !db.InDebt()
  {
    hide FsDatabase.Live, FsDatabase.Kept, FsDatabase.Ruined, FsDatabase.Stable, ContentOf, CrashImage, Load, LogBytes;
    db := KilledInVersionChange();
    db.ProcessDeath([]);
    NotStable(db);
    db.Reopen();
    owed, ruined := db.InDebt(), db.Ruined();
    var _ := db.Flush();
  }

  /** The content after the version change. */
  function Changed(): DbVal {
    Fresh([]).(meta := Some(Bare(1)), nextTxnSeq := 2)
  }

  lemma Numbered()
    ensures ContentOf(Fresh([])).nextTxnSeq == 1 && ContentOf(Changed()).nextTxnSeq == 2
  {
  }

  /** A version change in the log, none of it synced, and nothing else. */
  ghost predicate VersionUnsynced(db: FsDatabase)
    reads db, db.fs
  {
    var g := db.g;
    && |g.txns| == 1 && |g.states| == 2 && g.manifest.segments == [] && g.synced == 0 && g.Last().meta == Some(Bare(1))
    && WalOf(db.fs.files, g.Wal()) == WalFile(LogBytes(g.txns), 0) && db.fs.files.current.Some?
  }

  lemma NotStable(db: FsDatabase)
    requires db.Kept() && db.name == [] && VersionUnsynced(db)
    ensures !db.Stable()
  {
    hide OnDisk, LogBytes, ApplyFrames, Storable, MetaLogged, HealsSafely, Recorded;
    var g := db.g;
    WholeLog(g.txns);
    assert g.txns[..0] == [];
    var _, _ := HealsSafelyMeans(db.fs.files, g, []);
    assert IsTxn(g.txns[0]);
    assert Concat(FrameBytes, g.txns[0]) == FrameBytes(g.txns[0][0]) + Concat(FrameBytes, g.txns[0][1..]);
  }

  lemma LostVersion(db: FsDatabase, history: seq<Content>) returns (e: Files)
    requires db.Ruined() && db.name == [] && db.log <= history && |history| == 2
    requires history[0].nextTxnSeq != history[1].nextTxnSeq
    ensures CrashImage(db.fs.Real(), e) && Load(e, []).Loaded? && ContentOf(Load(e, []).val) !in history
  {
    hide CrashImage, Load, Storable, MetaLogged, ApplyFrames, IsTxn, WholeWithin, ContentOf, WalOf;
    e :| Misopens(db.fs.Real(), e, db.g);
    var g := db.g;
    var j := WholeWithin(g.txns, |WalOf(e, g.Wal()).bytes|);
    assert db.log[|db.log| - |g.states| + j] == ContentOf(g.states[j]);
    SequenceShows(Load(e, []).val);
    SequenceShows(g.states[j]);
  }

  lemma SequenceShows(v: DbVal)
    ensures ContentOf(v).nextTxnSeq == v.nextTxnSeq
  {
  }

  /** The process dies before a version change is synced. */
  method KilledInVersionChange() returns (db: FsDatabase)
    ensures fresh(db) && fresh(db.fs) && fresh(db.state) && db.Kept() && db.name == [] && db.fs.dead
    ensures VersionUnsynced(db) && db.log == [ContentOf(Fresh([])), ContentOf(Changed())]
  {
    hide FsDatabase.Live, FsDatabase.Kept, FsDatabase.Ready, FsDatabase.Fitting, FsDatabase.Outcome, IsNew, Bare, Encodable, MetaShown;
    hide PatchedMeta, BegunUnsynced, ContentOf, Txn.FsTxn.MetaSound, Txn.FsTxn.Valid, VersionUnsynced;
    var t;
    db, t := VersionChange();
    BareIsReady(db, t, 1);
    ghost var d := db.fs.files;
    FreshFiles(db);
    var _ := db.Commit(t);
    BegunVersion(d, db);
  }

  lemma BegunVersion(d: Files, db: FsDatabase)
    requires BegunUnsynced(FirstGen([]), db.g, d, db.fs.files) && db.g.Last().meta == Some(Bare(1))
    requires WalOf(d, 1) == WalFile([], 0) && d.current.Some?
    ensures VersionUnsynced(db)
  {
    hide LogBytes, WalOf;
  }

  /** A version change before its commit, on files whose second operation from now stops the process. */
  method VersionChange() returns (db: FsDatabase, t: Txn.FsTxn)
    ensures fresh(db) && fresh(db.fs) && fresh(db.state) && IsNew(db) && db.fs.faults == [Works, Stops(false, 0)]
    ensures t.MetaSound({}) && t.state == db.state && t.meta == Bare(1) && t.mode.VersionChange? && t.schemaDirty
    ensures t.pendingKeyGens == map[] && t.pendingRecords == map[] && t.pendingIndex == map[]
  {
    hide Keeps, Runs, Encodable, Txn.FsTxn.Valid, Txn.FsTxn.MetaSound;
    db := NewDatabase([], U64_MAX, MAX_FRAME_PAYLOAD, U64_MAX, U64_MAX);
    db.fs.faults := [Works, Stops(false, 0)];
    assert db.g.Last() == Fresh([]) && Fresh([]).keyGens.Keys == {};
    t := db.Begin(Savepoints.VersionChange, [], Txn.Default);
    var _ := t.SetVersion(1);
  }

  // ---------------------------------------------------------------- a generator that outlives its transaction

  /** A nameless database with one store, whose generator reads `bits`. */
  function OneStore(bits: u64): DatabaseMeta {
    DatabaseMeta([], 1, [StoreMeta(1, [], Empty, true, bits, [], false)], 2, 1)
  }

  lemma OneStoreIsShort(bits: u64)
    ensures MetaFits(OneStore(bits)) && |MetaBytes(OneStore(bits))| == 67
  {
    CountLen(0);
    CountLen(1);
    hide CountBytes, LeBytes;
    var s := OneStore(bits).stores[0];
    assert Utf16Bytes([]) == CountBytes(0) && Concat(IndexBytes, []) == [];
    ConcatOne(StoreBytes, s);
    assert |StoreBytes(s)| == 27;
  }

  /** The synced log creates the store, and so replaces the metadata; yet a metadata file healed from a lost
      transaction that set the store's generator brings its value back. */
  lemma LostGeneratorExample(bits: u64)
    requires bits != KEY_GEN_START
    ensures |MetaBytes(OneStore(KEY_GEN_START))| < U32_LIMIT
    ensures var frames := [WalFrame(1, FLAG_COMMIT, [MetaReplace(MetaBytes(OneStore(KEY_GEN_START)))])];
            var right := ApplyFrames(Fresh([]), frames);
            var healed := ApplyFrames(Under(MetaKeyGens(OneStore(bits).stores), EMPTY.(meta := Some(OneStore(bits)))), frames);
            && FramesReplaceMeta(frames) && right.Some? && !Restores([], OneStore(bits), frames, right.value.keyGens)
            && ContentOf(right.value).keyGens[1] == KEY_GEN_START
            && healed == Some(right.value.(keyGens := map[1 := bits])) && ContentOf(healed.value).keyGens[1] == bits
  {
    hide MetaBytes, ApplyFrames, MetaKeyGens;
    OneStoreIsShort(KEY_GEN_START);
    OneKeyGen(OneStore(bits).stores[0]);
    LoneReplacement(Fresh([]), OneStore(KEY_GEN_START), 1);
    LoneReplacement(Under(map[1 := bits], EMPTY.(meta := Some(OneStore(bits)))), OneStore(KEY_GEN_START), 1);
    assert map[1 := bits] + map[] == map[1 := bits];
    assert OneStore(bits).stores == [OneStore(bits).stores[0]];
    assert 1 in MetaKeyGens(OneStore(bits).stores) && MetaKeyGens(OneStore(bits).stores)[1] == bits;
  }

  lemma OneKeyGen(s: StoreMeta)
    ensures MetaKeyGens([s]) == map[s.id := s.keyGen]
  {
    assert [s][1..] == [];
  }

  lemma LoneReplacement(v: DbVal, m: DatabaseMeta, txnSeq: u64)
    requires MetaFits(m) && |MetaBytes(m)| < U32_LIMIT
    ensures var frames := [WalFrame(txnSeq, FLAG_COMMIT, [MetaReplace(MetaBytes(m))])];
            && FramesReplaceMeta(frames)
            && ApplyFrames(v, frames) == Some(v.(meta := Some(m), nextTxnSeq := MaxU64(v.nextTxnSeq, SaturatingInc(txnSeq))))
  {
    hide MetaBytes, ParseMeta;
    MetaRoundTrip(m);
    var op := MetaReplace(MetaBytes(m));
    var frames := [WalFrame(txnSeq, FLAG_COMMIT, [op])];
    assert op in frames[0].ops && frames[0] in frames && frames[1..] == [] && [op][1..] == [];
    assert ApplyOps(v.(meta := Some(m)), []) == Some(v.(meta := Some(m)));
  }
}
