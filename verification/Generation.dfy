/** One published generation of files, what opening it must find, and why a crash cannot change that. */
module Generation {
  import opened Bytes
  import opened Codec
  import opened Keys
  import opened Meta
  import opened State
  import opened Apply
  import opened Commit
  import opened Disk
  import opened Wal
  import opened WalRecovery
  import Segment

  // ---------------------------------------------------------------- what opening reads

  function EmptyMeta(name: Utf16): DatabaseMeta {
    DatabaseMeta(name, 0, [], 1, 1)
  }

  /** A database nobody has written to. */
  function Fresh(name: Utf16): DbVal {
    EMPTY.(meta := Some(EmptyMeta(name)))
  }

  /** Each segment replaces the whole content, and must carry the number of its file. */
  function LoadSegments(files: map<u64, seq<byte>>, segments: seq<u64>, v: DbVal): Option<DbVal>
    decreases |segments|
  {
    if segments == [] then Some(v)
    else if segments[0] !in files then None
    else
      var p := Segment.ParseSegment(files[segments[0]]);
      if p.Fail? || p.value.0 != segments[0] then None else LoadSegments(files, segments[1..], p.value.1)
  }

  /** Metadata comes from the segment, else from its file, else it is empty. */
  function WithMeta(file: Option<seq<byte>>, name: Utf16, v: DbVal): Option<DbVal> {
    if v.meta.Some? then Some(v)
    else if file.None? then Some(v.(meta := Some(EmptyMeta(name))))
    else
      var m := ParseMeta(file.value);
      if m.Fail? then None else Some(v.(meta := Some(m.value)))
  }

  /** Generators the content does not mention start from the metadata. */
  function WithKeyGens(v: DbVal): DbVal {
    if v.meta.None? then v else Under(MetaKeyGens(v.meta.value.stores), v)
  }

  datatype Loaded = Unreadable | Loaded(val: DbVal, manifest: ManifestData, valid: nat, frames: nat)

  function LoadManifest(d: Files): Option<ManifestData> {
    if d.current.None? || d.current.value !in d.manifests then None
    else
      var p := ParseManifest(d.manifests[d.current.value]);
      if p.Fail? then None else Some(p.value)
  }

  /** The content before the log is replayed. */
  function LoadBase(d: Files, name: Utf16, m: ManifestData): Option<DbVal> {
    var v := LoadSegments(d.segments, m.segments, EMPTY);
    if v.None? then None
    else
      var w := WithMeta(d.meta, name, v.value);
      if w.None? then None else Some(WithKeyGens(w.value))
  }

  /** What `open` makes of the files, once `CURRENT` exists. */
  function Load(d: Files, name: Utf16): Loaded {
    var m := LoadManifest(d);
    if m.None? then Unreadable
    else
      var base := LoadBase(d, name, m.value);
      if base.None? then Unreadable
      else
        var r := Recover(WalOf(d, m.value.walSeq).bytes);
        var v := ApplyFrames(base.value, r.frames);
        if v.None? then Unreadable else Loaded(v.value, m.value, r.validPrefixLen, |r.frames|)
  }

  /** What opening refuses: no such manifest, a corrupt one, a segment that is missing, corrupt or of another number,
      a corrupt metadata file when no segment brings metadata. */
  lemma OpeningRefuses(d: Files, name: Utf16)
    ensures d.current.None? || d.current.value !in d.manifests ==> Load(d, name).Unreadable?
    ensures d.current.Some? && d.current.value in d.manifests && ParseManifest(d.manifests[d.current.value]).Fail? ==>
              Load(d, name).Unreadable?
    ensures LoadManifest(d).Some? && LoadManifest(d).value.segments != [] ==>
              var n := LoadManifest(d).value.segments[0];
              n !in d.segments || Segment.ParseSegment(d.segments[n]).Fail? || Segment.ParseSegment(d.segments[n]).value.0 != n ==>
                Load(d, name).Unreadable?
    ensures LoadManifest(d).Some? && LoadManifest(d).value.segments == [] && d.meta.Some? && ParseMeta(d.meta.value).Fail? ==>
              Load(d, name).Unreadable?
  {
    hide ParseManifest, ParseMeta, Segment.ParseSegment, Recover, ApplyFrames;
  }

  /** What it starts from: the last segment alone; or, without any, the metadata file, or empty metadata without that
      too. Generators the content stores are its own, the others those of the metadata. */
  lemma OpeningStarts(d: Files, name: Utf16, m: ManifestData)
    ensures m.segments == [] && d.meta.None? ==>
              LoadBase(d, name, m) == Some(Fresh(name))
    ensures m.segments == [] && d.meta.Some? && ParseMeta(d.meta.value).Done? ==>
              var meta := ParseMeta(d.meta.value).value;
              LoadBase(d, name, m) == Some(EMPTY.(meta := Some(meta), keyGens := MetaKeyGens(meta.stores)))
    ensures |m.segments| == 1 && m.segments[0] in d.segments ==>
              var p := Segment.ParseSegment(d.segments[m.segments[0]]);
              p.Done? && p.value.0 == m.segments[0] && p.value.1.meta.Some? ==>
                var v := p.value.1;
                LoadBase(d, name, m) == Some(v.(keyGens := MetaKeyGens(v.meta.value.stores) + v.keyGens))
  {
    hide ParseMeta, Segment.ParseSegment, MetaKeyGens;
    NoGenerators();
    if m.segments == [] && d.meta.Some? && ParseMeta(d.meta.value).Done? {
      var k := MetaKeyGens(ParseMeta(d.meta.value).value.stores);
      assert k + map[] == k;
    }
    if |m.segments| == 1 && m.segments[0] in d.segments {
      var p := Segment.ParseSegment(d.segments[m.segments[0]]);
      assert m.segments[1..] == [];
      if p.Done? && p.value.0 == m.segments[0] {
        assert LoadSegments(d.segments, m.segments[1..], p.value.1) == Some(p.value.1);
      }
    }
  }

  lemma NoGenerators()
    ensures MetaKeyGens([]) == map[]
  {
  }

  // ---------------------------------------------------------------- generations

  /** The transactions logged since the generation was published, the content after each of them, and how
      many are known to be on stable storage. */
  datatype Gen = Gen(name: Utf16, manifest: ManifestData, txns: seq<seq<WalFrame>>, states: seq<DbVal>, synced: nat) {
    function Last(): DbVal
      requires states != []
    {
      states[|states| - 1]
    }

    function Wal(): u64 {
      manifest.walSeq
    }
  }

  ghost predicate Grows(g: Gen) {
    && |g.states| == |g.txns| + 1 && g.synced <= |g.txns|
    && (forall t | t in g.txns :: IsTxn(t))
    && forall i | 0 <= i < |g.txns| :: ApplyFrames(g.states[i], g.txns[i]) == Some(g.states[i + 1])
  }

  /** A content that can be written down, with no generator shown that is not stored. */
  ghost predicate Storable(v: DbVal) {
    v.meta.Some? && Encodable(v.meta.value) && Covered(v.meta.value, v.keyGens.Keys)
  }

  /** In the first generation all metadata but the empty one has been logged. */
  ghost predicate MetaLogged(g: Gen, name: Utf16, i: nat)
    requires i < |g.states| && i <= |g.txns|
  {
    g.states[i].meta == Fresh(name).meta || exists j :: 0 <= j < i && FramesReplaceMeta(g.txns[j])
  }

  ghost predicate Sound(g: Gen, name: Utf16) {
    && g.name == name && Grows(g)
    && (forall i | 0 <= i < |g.states| :: Storable(g.states[i]))
    && |g.manifest.segments| <= 1
    && (g.manifest.segments == [] ==>
          g.states[0] == Fresh(name) && forall i | 0 <= i < |g.states| :: MetaLogged(g, name, i))
  }

  /** Metadata from which replaying `frames` in the first generation ends in the right content: the frames
      replace it or it is the empty metadata they started from, and every generator it shows is stored by then
      or shows the first value. */
  predicate Restores(name: Utf16, m: DatabaseMeta, frames: seq<WalFrame>, stored: map<u64, u64>) {
    (FramesReplaceMeta(frames) || m == EmptyMeta(name)) && Harmless(MetaKeyGens(m.stores), stored)
  }

  /** A segment brings its own metadata; without one the metadata file decides what a log of `j` transactions
      opens to. */
  ghost predicate RestoresAt(g: Gen, m: DatabaseMeta, j: nat)
    requires j < |g.states| && j <= |g.txns|
  {
    g.manifest.segments != [] || Restores(g.name, m, Flatten(g.txns[..j]), g.states[j].keyGens)
  }

  /** A version of the metadata file that may be found beside the generation. */
  ghost predicate IsVersion(b: seq<byte>, g: Gen)
    requires g.synced < |g.states| && g.synced <= |g.txns|
  {
    ParseMeta(b).Done? && RestoresAt(g, ParseMeta(b).value, g.synced)
  }

  ghost predicate Published(d: Files, g: Gen) {
    && LoadManifest(d) == Some(g.manifest) && d.current == Some(g.manifest.manifestSeq)
    && (g.manifest.segments != [] ==>
          var n := g.manifest.segments[0];
          n in d.segments && g.states != [] && Segment.Holds(d.segments[n], n, g.states[0]))
  }

  /** The log is the transactions' bytes, perhaps not all of them yet. */
  ghost predicate LogHolds(w: WalFile, g: Gen)
    requires g.synced <= |g.txns|
  {
    w.bytes <= LogBytes(g.txns) && |LogBytes(g.txns[..g.synced])| <= w.synced <= |w.bytes|
  }

  ghost predicate MetasHold(d: Files, g: Gen)
    requires g.synced < |g.states| && g.synced <= |g.txns|
  {
    d.meta.Some? && d.meta.value in d.metas && forall b | b in d.metas :: IsVersion(b, g)
  }

  /** The files hold the generation. */
  ghost predicate OnDisk(d: Files, g: Gen) {
    && g.synced <= |g.txns| && g.synced < |g.states|
    && Published(d, g) && LogHolds(WalOf(d, g.Wal()), g) && MetasHold(d, g)
  }

  /** No crash takes the files away from the generation. */
  lemma CrashKeeps(d: Files, e: Files, g: Gen)
    requires OnDisk(d, g) && CrashImage(d, e)
    ensures OnDisk(e, g)
  {
    hide ParseManifest, ParseMeta, Segment.ParseSegment, LogBytes;
    assert LostSuffix(WalOf(d, g.Wal()), WalOf(e, g.Wal()));
  }

  // ---------------------------------------------------------------- opening a generation

  lemma {:induction false} ReplayTo(g: Gen, k: nat)
    requires Grows(g) && k <= |g.txns|
    ensures ApplyFrames(g.states[0], Flatten(g.txns[..k])) == Some(g.states[k])
    decreases k
  {
    hide IsTxn;
    if k == 0 {
      assert Flatten(g.txns[..0]) == [];
    } else {
      ReplayTo(g, k - 1);
      assert g.txns[..k] == g.txns[..k - 1] + [g.txns[k - 1]];
      FlattenAppend(g.txns[..k - 1], [g.txns[k - 1]]);
      FlattenOne(g.txns[k - 1]);
      ApplyFramesAppend(g.states[0], Flatten(g.txns[..k - 1]), g.txns[k - 1]);
    }
  }

  lemma FlattenOne<T>(x: seq<T>)
    ensures Flatten([x]) == x
  {
    assert [x][1..] == [];
    assert x + [] == x;
  }

  lemma {:induction false} KeyGensGrow(g: Gen, i: nat, j: nat)
    requires Grows(g) && i <= j <= |g.txns|
    ensures g.states[i].keyGens.Keys <= g.states[j].keyGens.Keys
    decreases j
  {
    hide IsTxn, ApplyFrames;
    if i < j {
      KeyGensGrow(g, i, j - 1);
      FramesKeepKeyGens(g.states[j - 1], g.txns[j - 1]);
    }
  }

  /** Everything synced survives whatever is left of the log. */
  lemma SyncedIsWhole(g: Gen, n: nat)
    requires g.synced <= |g.txns| && |LogBytes(g.txns[..g.synced])| <= n
    ensures g.synced <= WholeWithin(g.txns, n)
  {
    hide LogBytes, WholeWithin;
    WholeWithinIsMaximal(g.txns, n);
    var k := WholeWithin(g.txns, n);
    if k < g.synced {
      LogGrows(g.txns, k + 1, g.synced);
    }
  }

  lemma LogGrows(txns: seq<seq<WalFrame>>, i: nat, j: nat)
    requires i <= j <= |txns|
    ensures LogBytes(txns[..j]) == LogBytes(txns[..i]) + LogBytes(txns[i..j])
  {
    assert txns[..j] == txns[..i] + txns[i..j];
    ConcatAppend(TxnBytes, txns[..i], txns[i..j]);
  }

  /** Replay from metadata that restores ends where the generation's own replay does. */
  lemma RestoredReplay(g: Gen, name: Utf16, m: DatabaseMeta, k: nat)
    requires Sound(g, name) && g.manifest.segments == [] && k <= |g.txns| && RestoresAt(g, m, k)
    ensures ApplyFrames(EMPTY.(meta := Some(m)), Flatten(g.txns[..k])) == Some(g.states[k])
  {
    hide IsTxn, ApplyFrames, FramesReplaceMeta, Harmless, MetaLogged, Storable;
    ReplayTo(g, k);
    FramesFromAnyMeta(EMPTY.(meta := Some(m)), g.states[0], Flatten(g.txns[..k]));
  }

  /** More of the log can only help. */
  lemma RestoresOn(g: Gen, m: DatabaseMeta, i: nat, j: nat)
    requires Grows(g) && i <= j <= |g.txns| && RestoresAt(g, m, i)
    ensures RestoresAt(g, m, j)
  {
    hide IsTxn, ApplyFrames, ReplacesMeta, MetaKeyGens;
    KeyGensGrow(g, i, j);
    assert g.txns[..j] == g.txns[..i] + g.txns[i..j];
    FlattenAppend(g.txns[..i], g.txns[i..j]);
  }

  /** The metadata a transaction left restores from there on. */
  lemma StateRestores(g: Gen, name: Utf16, i: nat)
    requires Sound(g, name) && i <= |g.txns|
    ensures g.states[i].meta.Some? && RestoresAt(g, g.states[i].meta.value, i)
  {
    hide IsTxn, ApplyFrames, FramesReplaceMeta, Encodable, Harmless, MetaKeyGens;
    assert Storable(g.states[i]);
    VersionIsHarmless(g.states[i].meta.value, g.states[i].keyGens);
    if g.manifest.segments == [] && g.states[i].meta != Fresh(name).meta {
      assert MetaLogged(g, name, i);
      var j :| 0 <= j < i && FramesReplaceMeta(g.txns[j]);
      ReplacedWithin(g.txns, j, i);
    }
  }

  lemma {:induction false} ReplacedWithin(txns: seq<seq<WalFrame>>, j: nat, k: nat)
    requires j < k <= |txns| && FramesReplaceMeta(txns[j])
    ensures FramesReplaceMeta(Flatten(txns[..k]))
    decreases j
  {
    hide ReplacesMeta;
    assert txns[..k][0] == txns[0] && txns[..k][1..] == txns[1..][..k - 1];
    if j > 0 {
      ReplacedWithin(txns[1..], j - 1, k - 1);
      var f :| f in Flatten(txns[1..][..k - 1]) && ReplacesMeta(f.ops);
      assert f in Flatten(txns[..k]);
    } else {
      var f :| f in txns[0] && ReplacesMeta(f.ops);
      assert f in Flatten(txns[..k]);
    }
  }

  /** The content a generation is opened from, before its log is read. */
  lemma BaseIs(d: Files, g: Gen, name: Utf16, k: nat) returns (base: DbVal, m: DatabaseMeta)
    requires Sound(g, name) && OnDisk(d, g) && g.synced <= k <= |g.txns|
    ensures LoadBase(d, name, g.manifest) == Some(Under(MetaKeyGens(m.stores), base))
    ensures ApplyFrames(base, Flatten(g.txns[..k])) == Some(g.states[k])
    ensures Harmless(MetaKeyGens(m.stores), g.states[k].keyGens)
    ensures g.manifest.segments == [] ==> ParseMeta(d.meta.value).Done? && m == ParseMeta(d.meta.value).value
  {
    hide IsTxn, ApplyFrames, ParseManifest, ParseMeta, Segment.ParseSegment, LogBytes, Encodable, Covered, MetaLogged, MetaKeyGens;
    hide Harmless, FramesReplaceMeta;
    if g.manifest.segments != [] {
      base, m := g.states[0], g.states[0].meta.value;
      var n := g.manifest.segments[0];
      assert g.manifest.segments == [n] && g.manifest.segments[1..] == [];
      assert LoadSegments(d.segments, [n][1..], base) == Some(base);
      ReplayTo(g, k);
      KeyGensGrow(g, 0, k);
      CoveredGrows(m, g.states[0].keyGens.Keys, g.states[k].keyGens.Keys);
      VersionIsHarmless(m, g.states[k].keyGens);
    } else {
      assert IsVersion(d.meta.value, g);
      m := ParseMeta(d.meta.value).value;
      base := EMPTY.(meta := Some(m));
      RestoresOn(g, m, g.synced, k);
      RestoredReplay(g, name, m, k);
    }
  }

  lemma CoveredGrows(m: DatabaseMeta, a: set<u64>, b: set<u64>)
    requires Covered(m, a) && a <= b
    ensures Covered(m, b)
  {
  }

  /** What opening finds, part by part: the manifest, a base, the end of the whole transactions in the log,
      and the content they lead to over generators that cannot be seen. */
  lemma OpenFinds(d: Files, g: Gen, name: Utf16) returns (k: nat, extra: map<u64, u64>)
    requires Sound(g, name) && OnDisk(d, g)
    ensures k == WholeWithin(g.txns, |WalOf(d, g.Wal()).bytes|) && g.synced <= k < |g.states| && k <= |g.txns|
    ensures LoadManifest(d) == Some(g.manifest) && LoadBase(d, name, g.manifest).Some?
    ensures Recover(WalOf(d, g.Wal()).bytes) == RecoveredWal(Flatten(g.txns[..k]), |LogBytes(g.txns[..k])|)
    ensures |LogBytes(g.txns[..k])| <= |WalOf(d, g.Wal()).bytes|
    ensures ApplyFrames(LoadBase(d, name, g.manifest).value, Flatten(g.txns[..k])) == Some(Under(extra, g.states[k]))
    ensures Harmless(extra, g.states[k].keyGens)
    ensures g.manifest.segments == [] ==> ParseMeta(d.meta.value).Done? && extra == MetaKeyGens(ParseMeta(d.meta.value).value.stores)
  {
    hide LoadManifest, LoadBase, ApplyFrames, Recover, LogBytes, Sound, Published, LogHolds, MetasHold, MetaKeyGens, Covered;
    hide WholeWithin, WalOf, Flatten, Harmless, ParseMeta;
    k := LogRecovers(d, g, name);
    var base, m := BaseIs(d, g, name, k);
    extra := MetaKeyGens(m.stores);
    FramesUnder(extra, base, Flatten(g.txns[..k]));
    PublishedIsRead(d, g);
  }

  lemma VersionIsHarmless(m: DatabaseMeta, own: map<u64, u64>)
    requires Covered(m, own.Keys)
    ensures Harmless(MetaKeyGens(m.stores), own)
  {
    CoveredIsHarmless(m.stores, own);
  }

  lemma PublishedIsRead(d: Files, g: Gen)
    requires Published(d, g)
    ensures LoadManifest(d) == Some(g.manifest)
  {
  }

  /** What the log yields: the transactions it still holds whole, all synced ones among them. */
  lemma LogRecovers(d: Files, g: Gen, name: Utf16) returns (k: nat)
    requires Sound(g, name) && OnDisk(d, g)
    ensures k == WholeWithin(g.txns, |WalOf(d, g.Wal()).bytes|) && g.synced <= k < |g.states|
    ensures Recover(WalOf(d, g.Wal()).bytes) == RecoveredWal(Flatten(g.txns[..k]), |LogBytes(g.txns[..k])|)
    ensures |LogBytes(g.txns[..k])| <= |WalOf(d, g.Wal()).bytes|
  {
    hide Recover, LogBytes, Published, MetasHold, IsTxn, ApplyFrames, Storable;
    var w := WalOf(d, g.Wal());
    var n := |w.bytes|;
    k := WholeWithin(g.txns, n);
    SyncedIsWhole(g, n);
    WholeWithinIsMaximal(g.txns, n);
    assert w.bytes == LogBytes(g.txns)[..n];
    CrashRecoversWholeTransactions(g.txns, n);
  }

  // ---------------------------------------------------------------- which files open right

  /** Opening the files gives the content after exactly the transactions their log holds whole. */
  ghost predicate OpensRight(d: Files, g: Gen)
    requires Grows(g)
  {
    var k := WholeWithin(g.txns, |WalOf(d, g.Wal()).bytes|);
    Load(d, g.name).Loaded? && ContentOf(Load(d, g.name).val) == ContentOf(g.states[k])
  }

  /** So does opening whatever a crash leaves of them. */
  ghost predicate Recoverable(d: Files, g: Gen)
    requires Grows(g)
  {
    forall e | CrashImage(d, e) :: OpensRight(e, g)
  }

  /** Files that hold the generation open right, and no synced transaction is missing. */
  lemma OnDiskOpensRight(d: Files, g: Gen, name: Utf16)
    requires Sound(g, name) && OnDisk(d, g)
    ensures OpensRight(d, g) && g.synced <= WholeWithin(g.txns, |WalOf(d, g.Wal()).bytes|)
  {
    hide LoadManifest, LoadBase, Recover, LogBytes, ApplyFrames, OnDisk, ContentOf, WholeWithin, Flatten, IsTxn, Storable;
    var k, extra := OpenFinds(d, g, name);
    HarmlessIsInvisible(extra, g.states[k]);
  }

  /** The main theorem of a generation: whatever a crash leaves opens to the content after the transactions
      still in the log, every synced one among them. */
  lemma CrashThenLoad(d: Files, g: Gen, name: Utf16)
    requires Sound(g, name) && OnDisk(d, g)
    ensures Recoverable(d, g)
    ensures forall e | CrashImage(d, e) :: g.synced <= WholeWithin(g.txns, |WalOf(e, g.Wal()).bytes|)
  {
    hide OnDisk, CrashImage, Load, ContentOf, WholeWithin, IsTxn, Storable, ApplyFrames, WalOf;
    forall e | CrashImage(d, e)
      ensures OpensRight(e, g) && g.synced <= WholeWithin(g.txns, |WalOf(e, g.Wal()).bytes|) {
      CrashKeeps(d, e, g);
      OnDiskOpensRight(e, g, name);
    }
  }

  /** Metadata and how many stores it has: what replay without a replacement keeps. */
  predicate SameShape(a: Option<DatabaseMeta>, b: Option<DatabaseMeta>) {
    a.Some? && b.Some? && a.value.(stores := []) == b.value.(stores := []) && |a.value.stores| == |b.value.stores|
  }

  lemma {:induction false} OpsKeepShape(v: DbVal, ops: seq<WalOp>)
    requires !ReplacesMeta(ops) && v.meta.Some?
    ensures ApplyOps(v, ops).Some? ==> SameShape(v.meta, ApplyOps(v, ops).value.meta)
    decreases |ops|
  {
    hide WithKeyGen, ParseMeta;
    if ops != [] {
      assert ops[0] in ops;
      if ops[0].KeyGenSet? {
        WithKeyGenLong(v.meta.value.stores, ops[0].store, ops[0].valueBits);
      }
      assert !ReplacesMeta(ops[1..]);
      OpsKeepShape(ApplyOp(v, ops[0]).value, ops[1..]);
    }
  }

  lemma {:induction false} FramesKeepShape(v: DbVal, frames: seq<WalFrame>)
    requires !FramesReplaceMeta(frames) && v.meta.Some?
    ensures ApplyFrames(v, frames).Some? ==> SameShape(v.meta, ApplyFrames(v, frames).value.meta)
    decreases |frames|
  {
    hide ApplyOps, ReplacesMeta;
    if frames != [] {
      assert frames[0] in frames;
      OpsKeepShape(v, frames[0].ops);
      var w := Bumped(ApplyOps(v, frames[0].ops), frames[0].txnSeq);
      assert !FramesReplaceMeta(frames[1..]);
      if w.Some? {
        FramesKeepShape(w.value, frames[1..]);
      }
    }
  }

  /** Extra generators are invisible exactly when they are harmless. */
  lemma VisibleUnlessHarmless(extra: map<u64, u64>, v: DbVal)
    ensures ContentOf(Under(extra, v)).keyGens == ContentOf(v).keyGens <==> Harmless(extra, v.keyGens)
  {
    if !Harmless(extra, v.keyGens) {
      var s :| s in extra && s !in v.keyGens && extra[s] != KEY_GEN_START;
      assert ContentOf(Under(extra, v)).keyGens[s] != ContentOf(v).keyGens[s];
    } else {
      HarmlessIsInvisible(extra, v);
    }
  }

  /** Exactly when replay from given metadata of the first generation ends in the right content. */
  lemma RestoresExactly(g: Gen, name: Utf16, m: DatabaseMeta, j: nat)
    requires Sound(g, name) && g.manifest.segments == [] && j <= |g.txns|
    ensures var v := ApplyFrames(Under(MetaKeyGens(m.stores), EMPTY.(meta := Some(m))), Flatten(g.txns[..j]));
            && v.Some? && v.value.nextTxnSeq == g.states[j].nextTxnSeq
            && (ContentOf(v.value) == ContentOf(g.states[j]) <==> RestoresAt(g, m, j))
  {
    hide IsTxn, ApplyFrames, FramesReplaceMeta, Encodable, MetaKeyGens;
    var frames, start, extra := Flatten(g.txns[..j]), EMPTY.(meta := Some(m)), MetaKeyGens(m.stores);
    ReplayTo(g, j);
    FramesUnder(extra, start, frames);
    FramesFromAnyMeta(start, g.states[0], frames);
    var r := ApplyFrames(start, frames).value;
    assert r.(meta := None) == g.states[j].(meta := None);
    VisibleUnlessHarmless(extra, r);
    if !FramesReplaceMeta(frames) {
      FramesKeepShape(start, frames);
      NotLoggedIsFresh(g, name, j);
    }
    hide Harmless;
    assert r.meta == g.states[j].meta <==> FramesReplaceMeta(frames) || m == EmptyMeta(name);
  }

  lemma NotLoggedIsFresh(g: Gen, name: Utf16, j: nat)
    requires Sound(g, name) && g.manifest.segments == [] && j <= |g.txns| && !FramesReplaceMeta(Flatten(g.txns[..j]))
    ensures g.states[j].meta == Fresh(name).meta
  {
    hide IsTxn, ApplyFrames, FramesReplaceMeta, Encodable;
    assert MetaLogged(g, name, j);
    forall i | 0 <= i < j ensures !FramesReplaceMeta(g.txns[i]) {
      if FramesReplaceMeta(g.txns[i]) {
        ReplacedWithin(g.txns, i, j);
      }
    }
  }

  // ---------------------------------------------------------------- opening after a process died

  /** Whether bringing the metadata file up to date is safe: the metadata found restores the transactions that
      are on stable storage already, should the rest of the log be lost. The model's files say how much of the
      log that is; a real opening cannot see it. */
  predicate HealsSafely(d: Files, name: Utf16) {
    var m, l := LoadManifest(d), Load(d, name);
    if m.None? || l.Unreadable? || l.val.meta.None? then true
    else
      var w := WalOf(d, m.value.walSeq);
      var r := Recover(w.bytes[..Safe(w)]);
      var v := ApplyFrames(EMPTY, r.frames);
      m.value.segments != [] || v.None? || Restores(name, l.val.meta.value, r.frames, v.value.keyGens)
  }

  /** In terms of the generation: the metadata of the last surviving transaction against the last synced one. */
  lemma HealsSafelyMeans(d: Files, g: Gen, name: Utf16) returns (k: nat, s: nat)
    requires Sound(g, name) && OnDisk(d, g)
    ensures k == WholeWithin(g.txns, |WalOf(d, g.Wal()).bytes|) && s == WholeWithin(g.txns, WalOf(d, g.Wal()).synced)
    ensures g.synced <= s <= k < |g.states| && k <= |g.txns| && g.states[k].meta.Some?
    ensures HealsSafely(d, name) <==> RestoresAt(g, g.states[k].meta.value, s)
  {
    hide Load, LoadManifest, ApplyFrames, Recover, LogBytes, MetasHold, Published, LogHolds, Sound, Restores, WholeWithin, Flatten, Safe;
    k := LoadsMetadata(d, g, name);
    s := SyncedRecovers(d, g, name);
    SoundStates(g, name);
    PublishedIsRead(d, g);
    if g.manifest.segments == [] {
      SyncedReplays(g, name, s);
    }
  }

  lemma LoadsMetadata(d: Files, g: Gen, name: Utf16) returns (k: nat)
    requires Sound(g, name) && OnDisk(d, g)
    ensures k == WholeWithin(g.txns, |WalOf(d, g.Wal()).bytes|) && k < |g.states| && k <= |g.txns|
    ensures Load(d, name).Loaded? && Load(d, name).val.meta == g.states[k].meta && g.states[k].meta.Some?
  {
    hide LoadManifest, LoadBase, ApplyFrames, Recover, LogBytes, OnDisk, Sound, WholeWithin, Flatten, WalOf, Harmless;
    var extra;
    k, extra := OpenFinds(d, g, name);
    StateRestores(g, name, k);
  }

  lemma SyncedReplays(g: Gen, name: Utf16, s: nat)
    requires Sound(g, name) && g.manifest.segments == [] && s <= |g.txns|
    ensures var v := ApplyFrames(EMPTY, Flatten(g.txns[..s])); v.Some? && v.value.keyGens == g.states[s].keyGens
  {
    hide ApplyFrames, Flatten, IsTxn, MetaLogged, Storable, FramesReplaceMeta;
    ReplayTo(g, s);
    FramesFromAnyMeta(EMPTY, g.states[0], Flatten(g.txns[..s]));
  }

  /** What the synced part of the log yields. */
  lemma SyncedRecovers(d: Files, g: Gen, name: Utf16) returns (s: nat)
    requires Sound(g, name) && OnDisk(d, g)
    ensures s == WholeWithin(g.txns, WalOf(d, g.Wal()).synced)
    ensures var w := WalOf(d, g.Wal());
            && w.synced == Safe(w) && w.synced <= |w.bytes|
            && Recover(w.bytes[..w.synced]) == RecoveredWal(Flatten(g.txns[..s]), |LogBytes(g.txns[..s])|)
            && g.synced <= s <= WholeWithin(g.txns, |w.bytes|)
            && |LogBytes(g.txns[..s])| <= w.synced
  {
    hide Recover, LogBytes, Published, MetasHold, IsTxn, ApplyFrames, Storable, WholeWithin;
    var w := WalOf(d, g.Wal());
    s := WholeWithin(g.txns, w.synced);
    SyncedIsWhole(g, w.synced);
    WholeWithinIsMaximal(g.txns, w.synced);
    SyncedIsWhole(g.(synced := s), |w.bytes|);
    assert w.bytes == LogBytes(g.txns)[..|w.bytes|];
    assert w.bytes[..w.synced] == LogBytes(g.txns)[..w.synced];
    CrashRecoversWholeTransactions(g.txns, w.synced);
  }

  /** Metadata that no unsynced transaction changed is safe; that is enough, not needed. */
  lemma UnchangedIsSafe(d: Files, g: Gen, name: Utf16)
    requires Sound(g, name) && OnDisk(d, g) && forall i | g.synced <= i < |g.states| :: g.states[i].meta == g.states[g.synced].meta
    ensures HealsSafely(d, name)
  {
    hide OnDisk, Sound, Grows, HealsSafely, RestoresAt;
    var k, s := HealsSafelyMeans(d, g, name);
    SoundStates(g, name);
    StateRestores(g, name, g.synced);
    RestoresOn(g, g.states[g.synced].meta.value, g.synced, s);
  }

  lemma SoundStates(g: Gen, name: Utf16)
    requires Sound(g, name)
    ensures Grows(g) && |g.states| == |g.txns| + 1 && g.synced <= |g.txns| && g.name == name
  {
  }

  /** Once a synced transaction has replaced the metadata, an unsynced one may change all of it but the stores. */
  lemma ChangedCanBeSafe(d: Files, g: Gen, name: Utf16, k: nat, s: nat)
    requires Sound(g, name) && OnDisk(d, g)
    requires k == WholeWithin(g.txns, |WalOf(d, g.Wal()).bytes|) && s == WholeWithin(g.txns, WalOf(d, g.Wal()).synced)
    requires k < |g.states| && s < |g.states| && FramesReplaceMeta(Flatten(g.txns[..s]))
    requires g.states[k].meta.Some? && g.states[s].meta.Some? && g.states[k].meta.value.stores == g.states[s].meta.value.stores
    ensures HealsSafely(d, name)
  {
    hide OnDisk, HealsSafely, FramesReplaceMeta, MetaKeyGens, Harmless, IsTxn, ApplyFrames, WholeWithin;
    var _, _ := HealsSafelyMeans(d, g, name);
    StateRestores(g, name, s);
  }

  /** A crash that takes a generation's files, with metadata that does not restore the synced part, to files
      that open to something else than the content their log holds. */
  ghost predicate Misopens(d: Files, e: Files, g: Gen)
    requires Grows(g)
  {
    var j := WholeWithin(g.txns, |WalOf(e, g.Wal()).bytes|);
    && CrashImage(d, e) && Load(e, g.name).Loaded?
    && Load(e, g.name).val.nextTxnSeq == g.states[j].nextTxnSeq
    && ContentOf(Load(e, g.name).val) != ContentOf(g.states[j])
  }

  /** Every log cut at its last sync. */
  function Unsynced(d: Files): Files {
    d.(wals := map n | n in d.wals :: WalFile(d.wals[n].bytes[..Safe(d.wals[n])], Safe(d.wals[n])))
  }

  lemma UnsyncedIsCrashImage(d: Files)
    requires d.meta.Some? ==> d.meta.value in d.metas
    ensures CrashImage(d, Unsynced(d))
    ensures forall n: u64 :: WalOf(Unsynced(d), n) == WalFile(WalOf(d, n).bytes[..Safe(WalOf(d, n))], Safe(WalOf(d, n)))
  {
  }

  /** A file that shows metadata which does not restore the synced transactions ruins the generation. */
  lemma UnsafeMisopens(d: Files, g: Gen, name: Utf16, m: DatabaseMeta)
    requires Sound(g, name) && Published(d, g) && LogHolds(WalOf(d, g.Wal()), g)
    requires d.meta.Some? && d.meta.value in d.metas && ParseMeta(d.meta.value) == Done(m, [])
    requires g.synced == WholeWithin(g.txns, WalOf(d, g.Wal()).synced) && !RestoresAt(g, m, g.synced)
    ensures Misopens(d, Unsynced(d), g) && !Recoverable(d, g) && !OnDisk(d, g)
  {
    hide ParseManifest, ParseMeta, ApplyFrames, Recover, LogBytes, IsTxn, Restores, MetaKeyGens, Storable, MetaLogged, ContentOf, WholeWithin, WalOf;
    var e, w := Unsynced(d), WalOf(d, g.Wal());
    UnsyncedIsCrashImage(d);
    assert WalOf(e, g.Wal()).bytes == LogBytes(g.txns)[..w.synced];
    CrashRecoversWholeTransactions(g.txns, w.synced);
    RestoresExactly(g, name, m, g.synced);
    assert LoadSegments(e.segments, [], EMPTY) == Some(EMPTY);
    assert LoadBase(e, name, g.manifest) == Some(Under(MetaKeyGens(m.stores), EMPTY.(meta := Some(m))));
    assert LoadManifest(e) == LoadManifest(d);
    assert !OpensRight(e, g);
    assert !IsVersion(d.meta.value, g);
  }

  // ---------------------------------------------------------------- how a generation changes

  /** The metadata in memory restores what is on stable storage. */
  ghost predicate Mendable(g: Gen) {
    && g.states != [] && g.synced <= |g.txns| && g.synced < |g.states|
    && g.Last().meta.Some? && RestoresAt(g, g.Last().meta.value, g.synced)
  }

  /** One more transaction. */
  ghost function Extended(g: Gen, frames: seq<WalFrame>, v: DbVal): Gen {
    g.(txns := g.txns + [frames], states := g.states + [v])
  }

  ghost function AllSynced(g: Gen): Gen {
    g.(synced := |g.txns|)
  }

  lemma ExtendedIsSound(g: Gen, name: Utf16, frames: seq<WalFrame>, v: DbVal)
    requires Sound(g, name) && IsTxn(frames) && ApplyFrames(g.Last(), frames) == Some(v) && Storable(v)
    requires v.meta == g.Last().meta || FramesReplaceMeta(frames)
    ensures Sound(Extended(g, frames, v), name)
  {
    hide IsTxn, ApplyFrames, Storable, FramesReplaceMeta;
    var h := Extended(g, frames, v);
    forall i | 0 <= i < |h.txns| ensures ApplyFrames(h.states[i], h.txns[i]) == Some(h.states[i + 1]) {
      if i < |g.txns| {
        assert ApplyFrames(g.states[i], g.txns[i]) == Some(g.states[i + 1]);
      }
    }
    if g.manifest.segments == [] {
      forall i | 0 <= i < |h.states| ensures MetaLogged(h, name, i) {
        if i < |g.states| {
          LoggedStays(g, name, frames, v, i);
        } else {
          LoggedStays(g, name, frames, v, i - 1);
          assert FramesReplaceMeta(frames) ==> FramesReplaceMeta(h.txns[i - 1]);
        }
      }
    }
  }

  lemma LoggedStays(g: Gen, name: Utf16, frames: seq<WalFrame>, v: DbVal, i: nat)
    requires i < |g.states| == |g.txns| + 1 && MetaLogged(g, name, i)
    ensures MetaLogged(Extended(g, frames, v), name, i)
  {
    hide FramesReplaceMeta;
    var h := Extended(g, frames, v);
    if g.states[i].meta != Fresh(name).meta {
      var j :| 0 <= j < i && FramesReplaceMeta(g.txns[j]);
      assert FramesReplaceMeta(h.txns[j]);
    }
  }

  lemma ExtendedLog(g: Gen, frames: seq<WalFrame>)
    ensures LogBytes(g.txns + [frames]) == LogBytes(g.txns) + TxnBytes(frames)
  {
    ConcatAppend(TxnBytes, g.txns, [frames]);
    ConcatOne(TxnBytes, frames);
  }

  /** While a transaction is being appended, the files hold the generation with it. */
  lemma Appending(d: Files, e: Files, g: Gen, frames: seq<WalFrame>, v: DbVal)
    requires OnDisk(d, g) && Grows(g) && WalOf(d, g.Wal()).bytes == LogBytes(g.txns) && SameButWal(d, e, g.Wal())
    requires LogBytes(g.txns) <= WalOf(e, g.Wal()).bytes <= LogBytes(g.txns) + TxnBytes(frames)
    requires WalOf(d, g.Wal()).synced <= WalOf(e, g.Wal()).synced <= |WalOf(e, g.Wal()).bytes|
    ensures OnDisk(e, Extended(g, frames, v))
  {
    hide LogBytes, TxnBytes, ParseMeta, ParseManifest, Segment.ParseSegment, IsTxn, ApplyFrames, WalOf;
    var h := Extended(g, frames, v);
    ExtendedLog(g, frames);
    assert h.txns[..h.synced] == g.txns[..g.synced];
    VersionsStay(d, g, h);
  }

  lemma VersionsStay(d: Files, g: Gen, h: Gen)
    requires Grows(g) && MetasHold(d, g)
    requires h.name == g.name && h.manifest == g.manifest && g.synced <= h.synced <= |g.txns|
    requires h.synced < |h.states| && h.synced <= |h.txns|
    requires h.txns[..h.synced] == g.txns[..h.synced] && h.states[h.synced] == g.states[h.synced]
    ensures MetasHold(d, h)
  {
    hide ParseMeta, Restores, IsTxn, ApplyFrames;
    forall b | b in d.metas ensures IsVersion(b, h) {
      assert IsVersion(b, g);
      RestoresOn(g, ParseMeta(b).value, g.synced, h.synced);
    }
  }

  /** When the whole log has been synced, every transaction in it is. */
  lemma SyncedLog(d: Files, g: Gen)
    requires OnDisk(d, g) && Grows(g)
    requires WalOf(d, g.Wal()).bytes == LogBytes(g.txns) && WalOf(d, g.Wal()).synced == |LogBytes(g.txns)|
    ensures OnDisk(d, AllSynced(g))
  {
    hide LogBytes, ParseMeta, ParseManifest, Segment.ParseSegment, IsTxn, ApplyFrames, WalOf;
    assert g.txns[..|g.txns|] == g.txns;
    VersionsStay(d, g, AllSynced(g));
  }

  /** Only the log differs, and it still holds the transactions. */
  lemma LogReplaced(d: Files, e: Files, g: Gen)
    requires OnDisk(d, g) && SameButWal(d, e, g.Wal()) && LogHolds(WalOf(e, g.Wal()), g)
    ensures OnDisk(e, g)
  {
    hide LogBytes, ParseMeta, ParseManifest, Segment.ParseSegment, WalOf;
  }

  /** Cutting a failed append off again restores the log. */
  lemma LogCutBack(d: Files, e: Files, g: Gen)
    requires OnDisk(d, g) && WalOf(d, g.Wal()).bytes == LogBytes(g.txns)
    requires SameButWal(d, e, g.Wal()) && LogBytes(g.txns) <= WalOf(e, g.Wal()).bytes
    requires WalOf(d, g.Wal()).synced <= WalOf(e, g.Wal()).synced <= |WalOf(e, g.Wal()).bytes|
    ensures var c := CutWal(e, g.Wal(), |LogBytes(g.txns)|);
            OnDisk(c, g) && WalOf(c, g.Wal()).bytes == LogBytes(g.txns)
  {
    hide LogBytes, ParseMeta, ParseManifest, Segment.ParseSegment;
    var c := CutWal(e, g.Wal(), |LogBytes(g.txns)|);
    assert WalOf(e, g.Wal()).bytes[..|LogBytes(g.txns)|] == LogBytes(g.txns);
    LogReplaced(d, c, g);
  }

  /** Metadata that restores what is on stable storage may be written. */
  lemma MetaWritten(d: Files, g: Gen, m: DatabaseMeta)
    requires OnDisk(d, g) && Encodable(m) && RestoresAt(g, m, g.synced)
    ensures OnDisk(Replaced(d, MetaFile(MetaBytes(m))), g)
  {
    hide LogBytes, ParseMeta, ParseManifest, Segment.ParseSegment, MetaBytes, Restores;
    MetaRoundTrip(m);
    assert IsVersion(MetaBytes(m), g);
  }

  // ---------------------------------------------------------------- compaction

  /** The generation a compaction publishes. */
  ghost function Compacted(name: Utf16, m: ManifestData, v: DbVal): Gen {
    Gen(name, m, [], [v], 0)
  }

  lemma CompactedIsSound(m: ManifestData, v: DbVal, name: Utf16)
    requires |m.segments| == 1 && Storable(v)
    ensures Sound(Compacted(name, m, v), name) && Mendable(Compacted(name, m, v))
  {
  }

  /** Files of other numbers are not part of the generation. */
  lemma OtherFile(d: Files, g: Gen, r: Replacement)
    requires OnDisk(d, g) && (r.SegmentFile? || r.ManifestFile?)
    requires r.SegmentFile? ==> r.number !in g.manifest.segments
    requires r.ManifestFile? ==> d.current != Some(r.number)
    ensures OnDisk(Replaced(d, r), g)
  {
    hide LogBytes, ParseMeta, ParseManifest, Segment.ParseSegment;
  }

  lemma OtherWal(d: Files, e: Files, g: Gen, n: u64)
    requires OnDisk(d, g) && SameButWal(d, e, n) && n != g.Wal()
    ensures OnDisk(e, g)
  {
    hide LogBytes, ParseMeta, ParseManifest, Segment.ParseSegment, WalOf;
  }

  lemma OtherFileRemoved(d: Files, e: Files, g: Gen, n: u64)
    requires OnDisk(d, g)
    requires e == d || e == d.(wals := d.wals - {n}) || e == d.(segments := d.segments - {n})
    requires n != g.Wal() || e.wals == d.wals
    requires n !in g.manifest.segments || e.segments == d.segments
    ensures OnDisk(e, g)
  {
    hide LogBytes, ParseMeta, ParseManifest, Segment.ParseSegment;
  }

  /** The rename of `CURRENT` switches generations: a whole segment, an empty log and the manifest that
      names them are there, and any metadata file will do beside them. */
  lemma CurrentSwitches(d: Files, g: Gen, name: Utf16, m: ManifestData, v: DbVal, n: u64)
    requires OnDisk(d, g) && m.segments == [n]
    requires n in d.segments && Segment.Holds(d.segments[n], n, v)
    requires m.manifestSeq in d.manifests && d.manifests[m.manifestSeq] == Sealed(ManifestBody(m))
    requires WalOf(d, m.walSeq) == WalFile([], 0)
    ensures OnDisk(Replaced(d, CurrentFile(m.manifestSeq)), Compacted(name, m, v))
  {
    hide ParseMeta, ParseManifest, Segment.ParseSegment, Sealed, ManifestBody;
    ManifestRoundTrip(m);
    var h := Compacted(name, m, v);
    assert h.txns[..0] == [] && LogBytes([]) == [];
    forall b | b in d.metas ensures IsVersion(b, h) {
      assert IsVersion(b, g);
    }
  }

  // ---------------------------------------------------------------- creation and reopening

  ghost function FirstGen(name: Utf16): Gen {
    Gen(name, ManifestData(1, 1, []), [], [Fresh(name)], 0)
  }

  lemma FirstIsSound(name: Utf16)
    requires Encodable(EmptyMeta(name))
    ensures Sound(FirstGen(name), name) && Mendable(FirstGen(name))
  {
  }

  /** Publishing the first generation. */
  lemma FirstIsPublished(d: Files, name: Utf16)
    requires Encodable(EmptyMeta(name))
    requires d.meta == Some(MetaBytes(EmptyMeta(name))) && d.metas == {MetaBytes(EmptyMeta(name))}
    requires 1 in d.manifests && d.manifests[1] == Sealed(ManifestBody(ManifestData(1, 1, [])))
    requires WalOf(d, 1) == WalFile([], 0)
    ensures OnDisk(Replaced(d, CurrentFile(1)), FirstGen(name))
  {
    hide ParseMeta, ParseManifest, Segment.ParseSegment, Sealed, ManifestBody, MetaBytes;
    ManifestRoundTrip(ManifestData(1, 1, []));
    MetaRoundTrip(EmptyMeta(name));
    var g := FirstGen(name);
    assert g.txns[..0] == [] && LogBytes([]) == [];
    assert g.states[0].meta == Some(EmptyMeta(name));
    assert IsVersion(MetaBytes(EmptyMeta(name)), g);
  }

  /** What is left of a generation when only its first `k` transactions came back. */
  ghost function Reopened(g: Gen, k: nat, synced: nat): Gen
    requires k < |g.states| && k <= |g.txns|
  {
    Gen(g.name, g.manifest, g.txns[..k], g.states[..k + 1], synced)
  }

  lemma ReopenedIsSound(g: Gen, name: Utf16, k: nat, synced: nat)
    requires Sound(g, name) && k <= |g.txns| && synced <= k
    ensures Sound(Reopened(g, k, synced), name)
  {
    hide IsTxn, ApplyFrames, Storable, FramesReplaceMeta;
    var h := Reopened(g, k, synced);
    forall i | 0 <= i < |h.txns| ensures ApplyFrames(h.states[i], h.txns[i]) == Some(h.states[i + 1]) {
      assert ApplyFrames(g.states[i], g.txns[i]) == Some(g.states[i + 1]);
    }
    if g.manifest.segments == [] {
      forall i | 0 <= i < |h.states| ensures MetaLogged(h, name, i) {
        assert MetaLogged(g, name, i);
        if g.states[i].meta != Fresh(name).meta {
          var j :| 0 <= j < i && FramesReplaceMeta(g.txns[j]);
          assert FramesReplaceMeta(h.txns[j]);
        }
      }
    }
  }

  /** The log once it has been truncated to the transactions that came back. */
  lemma ReopenedOnDisk(d: Files, e: Files, g: Gen, k: nat, synced: nat)
    requires OnDisk(d, g) && Grows(g) && g.synced <= synced <= k <= |g.txns|
    requires SameButWal(d, e, g.Wal()) && WalOf(e, g.Wal()).bytes == LogBytes(g.txns[..k])
    requires |LogBytes(g.txns[..synced])| <= WalOf(e, g.Wal()).synced <= |LogBytes(g.txns[..k])|
    ensures OnDisk(e, Reopened(g, k, synced))
  {
    hide LogBytes, ParseMeta, ParseManifest, Segment.ParseSegment, IsTxn, ApplyFrames, WalOf;
    var h := Reopened(g, k, synced);
    assert h.txns[..synced] == g.txns[..synced];
    VersionsStay(d, g, h);
  }

  lemma MetaFitsIfEncodable(m: DatabaseMeta)
    requires Encodable(m)
    ensures MetaFits(m)
  {
  }
}
