/** What one transaction asks for, and what it makes of a database: a plain database changed by its script. */
module Requests {
  import opened Bytes
  import opened Keys
  import opened Meta
  import opened State
  import opened Savepoints
  import opened Plain
  import opened Apply
  import opened Commit
  import Segment
  import Txn

  datatype NewStore = NewStore(name: Utf16, keyPath: KeyPath, autoIncrement: bool)

  /** Schema changes, then a script of operations. */
  datatype Request = Request(mode: TxnMode, scope: seq<u64>, durability: Txn.Durability, version: Option<u64>,
                             stores: seq<NewStore>, script: seq<Op>)

  // ---------------------------------------------------------------- the schema

  function StoreOf(id: u64, s: NewStore): StoreMeta {
    StoreMeta(id, s.name, s.keyPath, s.autoIncrement, KEY_GEN_START, [], false)
  }

  /** New stores under the ids that come next. */
  function WithStores(m: DatabaseMeta, stores: seq<NewStore>): DatabaseMeta {
    if stores == [] then m
    else
      var n := |stores| - 1;
      var before := WithStores(m, stores[..n]);
      before.(nextStoreId := (before.nextStoreId + 1) % U64_LIMIT, stores := before.stores + [StoreOf(before.nextStoreId, stores[n])])
  }

  /** Nothing else changes, and the ids go on from the next one, wrapping. */
  lemma {:induction false} WithStoresKeeps(m: DatabaseMeta, stores: seq<NewStore>)
    ensures var w := WithStores(m, stores);
            && w.name == m.name && w.version == m.version && w.nextIndexId == m.nextIndexId
            && |w.stores| == |m.stores| + |stores| && w.stores[..|m.stores|] == m.stores
            && w.nextStoreId == (m.nextStoreId + |stores|) % U64_LIMIT
  {
    if stores != [] {
      var n := |stores| - 1;
      WithStoresKeeps(m, stores[..n]);
      assert WithStores(m, stores).stores[..|m.stores|] == WithStores(m, stores[..n]).stores[..|m.stores|];
      Wraps(m.nextStoreId, n);
    }
  }

  /** The stores asked for, in order, each under its own id, empty and at the first generator value. */
  lemma {:induction false} WithStoresAdds(m: DatabaseMeta, stores: seq<NewStore>, i: nat)
    requires i < |stores|
    ensures |WithStores(m, stores).stores| == |m.stores| + |stores|
    ensures WithStores(m, stores).stores[|m.stores| + i] ==
            StoreMeta((m.nextStoreId + i) % U64_LIMIT, stores[i].name, stores[i].keyPath, stores[i].autoIncrement, KEY_GEN_START, [], false)
  {
    var n := |stores| - 1;
    WithStoresKeeps(m, stores);
    WithStoresKeeps(m, stores[..n]);
    if i < n {
      WithStoresAdds(m, stores[..n], i);
    }
  }

  lemma Wraps(a: u64, n: nat)
    ensures ((a + n) % U64_LIMIT + 1) % U64_LIMIT == (a + (n + 1)) % U64_LIMIT
  {
  }

  /** Only a version change may change the schema. */
  function RequestedMeta(m: DatabaseMeta, q: Request): DatabaseMeta {
    if !q.mode.VersionChange? then m
    else WithStores(if q.version.Some? then m.(version := q.version.value) else m, q.stores)
  }

  predicate ChangesSchema(q: Request) {
    q.mode.VersionChange? && (q.version.Some? || q.stores != [])
  }

  // ---------------------------------------------------------------- the overlay a script leaves

  function ContextOf(v: DbVal, maxKeys: u64, q: Request): Context {
    Context(q.mode, q.scope, maxKeys, v)
  }

  /** A transaction that has done nothing yet. */
  ghost function Untouched(v: DbVal): Model {
    Model(View(map[], map[], KeyGenView(map[], v.keyGens)), [])
  }

  ghost function Overlay(v: DbVal, maxKeys: u64, q: Request): View {
    var x := ContextOf(v, maxKeys, q);
    Run(x, Untouched(v), q.script).working
  }

  /** The generators a request sets, rolled back or not. */
  function SetBy(q: Request): set<u64> {
    if q.mode.ReadOnly? then {} else set op | op in q.script && op.KeyGenSet? :: op.store
  }

  ghost function GenAt(keyGens: imap<u64, u64>, s: u64): u64 {
    if s in keyGens then keyGens[s] else KEY_GEN_START
  }

  ghost function RequestedPending(v: DbVal, maxKeys: u64, q: Request): Pending {
    var w := Overlay(v, maxKeys, q);
    Pending(w.records, w.index, map s | s in SetBy(q) :: GenAt(w.keyGens, s))
  }

  ghost function FinalMeta(v: DbVal, maxKeys: u64, q: Request): DatabaseMeta
    requires v.meta.Some?
  {
    PatchedMeta(RequestedMeta(v.meta.value, q), RequestedPending(v, maxKeys, q).keyGens)
  }

  /** The database after the request has been committed. */
  ghost function Applied(v: DbVal, maxKeys: u64, q: Request): DbVal
    requires v.meta.Some?
  {
    Merged(v, RequestedPending(v, maxKeys, q), FinalMeta(v, maxKeys, q), SaturatingInc(v.nextTxnSeq))
  }

  /** Nothing to write. */
  ghost predicate Idle(v: DbVal, maxKeys: u64, q: Request) {
    q.mode.ReadOnly? || (RequestedPending(v, maxKeys, q).Size() == 0 && !ChangesSchema(q))
  }

  /** Lengths and counts fit the formats' fields. */
  ghost predicate Writable(v: DbVal, maxKeys: u64, q: Request)
    requires v.meta.Some?
  {
    && Encodable(FinalMeta(v, maxKeys, q)) && RequestedPending(v, maxKeys, q).Size() < U64_MAX
    && Segment.ValFits(Applied(v, maxKeys, q))
  }

  /** Every operation of the commit fits a frame. */
  ghost predicate FitsFrames(v: DbVal, maxKeys: u64, maxPayload: nat, q: Request)
    requires v.meta.Some? && Encodable(FinalMeta(v, maxKeys, q))
  {
    PayloadFits(RequestedPending(v, maxKeys, q), FinalMeta(v, maxKeys, q),
                ChangesSchema(q) || RequestedPending(v, maxKeys, q).keyGens != map[], maxPayload)
  }

  /** What a request without faults makes of a database: its outcome, or nothing when there is nothing to write
      or it exceeds a limit. */
  ghost function AfterRequest(v: DbVal, maxKeys: u64, maxPayload: nat, q: Request): DbVal {
    if v.meta.None? || Idle(v, maxKeys, q) || !Writable(v, maxKeys, q) || !FitsFrames(v, maxKeys, maxPayload, q) then v
    else Applied(v, maxKeys, q)
  }

  // ---------------------------------------------------------------- the same on what is read

  ghost function PlainContent(c: Content): Plain {
    Plain(c.records, c.index, c.keyGens)
  }

  /** The plain database after the script. */
  ghost function PlainAfter(s: Plain, maxKeys: u64, q: Request): Plain {
    PlainRun(ContextOf(EMPTY, maxKeys, q), PlainModel(s, []), q.script).working
  }

  /** The content a committed request makes of a content: the script's plain effect, the new schema with the
      generators that were set, and the next sequence number. */
  ghost function Wanted(c: Content, maxKeys: u64, q: Request): Content
    requires c.meta.Some?
  {
    var s := PlainAfter(PlainContent(c), maxKeys, q);
    Content(Some(PatchedMeta(RequestedMeta(c.meta.value, q), map x | x in SetBy(q) :: GenAt(s.keyGens, x))),
            s.records, s.index, s.keyGens, SaturatingInc(c.nextTxnSeq))
  }

  lemma {:induction false} AnyCommitted(x: Context, v: DbVal, m: PlainModel, ops: seq<Op>)
    ensures PlainRun(x, m, ops) == PlainRun(x.(committed := v), m, ops)
    decreases |ops|
  {
    hide PlainStep;
    if ops != [] {
      AnyCommittedStep(x, v, m, ops[0]);
      AnyCommitted(x, v, PlainStep(x, m, ops[0]), ops[1..]);
    }
  }

  lemma AnyCommittedStep(x: Context, v: DbVal, m: PlainModel, op: Op)
    ensures PlainStep(x, m, op) == PlainStep(x.(committed := v), m, op)
  {
    hide PlainEffect;
  }

  /** Every view of a model shows a generator as `base` does, but for some stores. */
  ghost predicate AgreeBut(m: Model, base: imap<u64, u64>, stores: set<u64>) {
    && (forall s: u64 :: s in base)
    && (forall s: u64 | s !in stores :: s in m.working.keyGens && m.working.keyGens[s] == base[s])
    && (forall v, s: u64 | v in m.snapshots && s !in stores :: s in v.keyGens && v.keyGens[s] == base[s])
    && (forall s: u64 :: s in m.working.keyGens) && (forall v, s: u64 | v in m.snapshots :: s in v.keyGens)
  }

  lemma AgreeStep(x: Context, m: Model, op: Op, base: imap<u64, u64>, stores: set<u64>)
    requires AgreeBut(m, base, stores) && (op.KeyGenSet? && x.MayWrite() ==> op.store in stores)
    ensures AgreeBut(Step(x, m, op), base, stores)
  {
    hide RangeDeleted, Cleared, PrimaryDeleted, EffectiveKeys, TakenByAnother;
  }

  lemma {:induction false} AgreeRun(x: Context, m: Model, ops: seq<Op>, base: imap<u64, u64>, stores: set<u64>)
    requires AgreeBut(m, base, stores) && forall op | op in ops && op.KeyGenSet? && x.MayWrite() :: op.store in stores
    ensures AgreeBut(Run(x, m, ops), base, stores)
    decreases |ops|
  {
    hide AgreeBut, Step;
    if ops != [] {
      assert ops[0] in ops;
      AgreeStep(x, m, ops[0], base, stores);
      AgreeRun(x, Step(x, m, ops[0]), ops[1..], base, stores);
    }
  }

  /** The script leaves what it leaves of a plain database, and generators it does not set alone. */
  lemma OverlayReads(v: DbVal, maxKeys: u64, q: Request)
    ensures var x, w := ContextOf(v, maxKeys, q), Overlay(v, maxKeys, q);
            && ReadsAs(x, w) == PlainAfter(PlainOf(v), maxKeys, q)
            && forall s: u64 :: s in w.keyGens && (s !in SetBy(q) ==> w.keyGens[s] == KeyGenView(map[], v.keyGens)[s])
  {
    hide Run, PlainRun;
    var x, m := ContextOf(v, maxKeys, q), Untouched(v);
    RunReads(x, m, q.script);
    MergedNothing(v.records, v.index);
    assert ReadsAll(x, m) == PlainModel(PlainOf(v), []);
    AnyCommitted(x, EMPTY, PlainModel(PlainOf(v), []), q.script);
    AgreeRun(x, m, q.script, KeyGenView(map[], v.keyGens), SetBy(q));
  }

  /** The main theorem of a transaction: overlay, undo logs, patched metadata and merge together make of a
      database's content exactly what the plain script asks for. */
  lemma AppliedReads(v: DbVal, maxKeys: u64, q: Request)
    requires v.meta.Some?
    ensures ContentOf(Applied(v, maxKeys, q)) == Wanted(ContentOf(v), maxKeys, q)
  {
    hide Overlay, PlainAfter, MergedRecords, MergedIndex, PatchedMeta, RequestedMeta, SetBy;
    OverlayReads(v, maxKeys, q);
    var w, p := Overlay(v, maxKeys, q), RequestedPending(v, maxKeys, q);
    var s := PlainAfter(PlainOf(v), maxKeys, q);
    assert PlainContent(ContentOf(v)) == PlainOf(v);
    assert KeyGenView(map[], v.keyGens + p.keyGens) == w.keyGens;
    assert p.keyGens == map x | x in SetBy(q) :: GenAt(s.keyGens, x);
  }

  /** A request with nothing to write has changed nothing that is read. */
  lemma IdleReads(v: DbVal, maxKeys: u64, q: Request)
    requires RequestedPending(v, maxKeys, q).Size() == 0
    ensures PlainAfter(PlainOf(v), maxKeys, q) == PlainOf(v)
  {
    hide Overlay, PlainAfter, MergedRecords, MergedIndex;
    OverlayReads(v, maxKeys, q);
    var w, p := Overlay(v, maxKeys, q), RequestedPending(v, maxKeys, q);
    assert p.records == map[] && p.index == map[] && p.keyGens == map[];
    MergedNothing(v.records, v.index);
    assert SetBy(q) == p.keyGens.Keys == {};
    assert w.keyGens == KeyGenView(map[], v.keyGens);
  }

  /** A read-only request leaves no changes. */
  lemma {:induction false} ReadOnlyRuns(x: Context, m: Model, ops: seq<Op>)
    requires !x.MayWrite() && m.working.records == map[] && m.working.index == map[]
    requires forall v | v in m.snapshots :: v.records == map[] && v.index == map[]
    ensures Run(x, m, ops).working.records == map[] && Run(x, m, ops).working.index == map[]
    decreases |ops|
  {
    hide Effect, EffectiveKeys, TakenByAnother;
    if ops != [] {
      ReadOnlyRuns(x, Step(x, m, ops[0]), ops[1..]);
    }
  }

  lemma ReadOnlyIsIdle(v: DbVal, maxKeys: u64, q: Request)
    requires q.mode.ReadOnly?
    ensures RequestedPending(v, maxKeys, q).Size() == 0
  {
    hide Run;
    ReadOnlyRuns(ContextOf(v, maxKeys, q), Untouched(v), q.script);
    assert RequestedPending(v, maxKeys, q) == Pending(map[], map[], map[]);
  }

  /** So an idle request, of whatever kind, changes nothing. */
  lemma IdleChangesNothing(v: DbVal, maxKeys: u64, q: Request)
    requires Idle(v, maxKeys, q)
    ensures PlainAfter(PlainOf(v), maxKeys, q) == PlainOf(v)
  {
    hide RequestedPending, PlainAfter;
    if q.mode.ReadOnly? {
      ReadOnlyIsIdle(v, maxKeys, q);
    }
    IdleReads(v, maxKeys, q);
  }

  // ---------------------------------------------------------------- the transaction object

  /** What a transaction object holds after a request's script is the request's. */
  lemma PendingIs(t: Txn.FsTxn, maxKeys: u64, q: Request)
    requires t.mode == q.mode && t.scope == q.scope && t.maxKeys == maxKeys
    requires t.Abs() == Run(t.Ctx(), Untouched(t.state.Val()), q.script)
    requires t.pendingKeyGens.Keys == StoresSet(t.Ctx(), q.script)
    ensures PendingOf(t) == RequestedPending(t.state.Val(), maxKeys, q)
  {
    hide Run;
    assert SetBy(q) == StoresSet(t.Ctx(), q.script);
    var w := Overlay(t.state.Val(), maxKeys, q);
    assert t.pendingKeyGens == map s | s in SetBy(q) :: GenAt(w.keyGens, s);
  }
}
