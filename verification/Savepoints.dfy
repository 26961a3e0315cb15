/** What a transaction's pending changes mean, the snapshot stack that savepoints refer to, and undo logs. */
module Savepoints {
  import opened Bytes
  import opened Keys
  import opened State

  type Slots = map<RecordKey, Option<Blob>>
  type Flags = map<Key, bool>

  /** The view a savepoint restores: pending records and index flags exactly, key generators as they read. */
  datatype View = View(records: Slots, index: Flags, keyGens: imap<u64, u64>)

  ghost function KeyGenView(pending: map<u64, u64>, committed: map<u64, u64>): imap<u64, u64> {
    imap s: u64 | true :: if s in pending then pending[s] else if s in committed then committed[s] else KEY_GEN_START
  }

  // ---------------------------------------------------------------- merged reads

  predicate HasRecord(p: Slots, c: map<RecordKey, Blob>, k: RecordKey) {
    if k in p then p[k].Some? else k in c
  }

  function EffectiveKeys(p: Slots, c: map<RecordKey, Blob>): set<RecordKey> {
    set k | k in p.Keys + c.Keys && HasRecord(p, c, k)
  }

  /** Net records inserted over committed storage. */
  function Delta(p: Slots, c: map<RecordKey, Blob>): int {
    |EffectiveKeys(p, c)| - |c|
  }

  predicate HasEntry(p: Flags, c: set<Key>, k: Key) {
    if k in p then p[k] else k in c
  }

  /** The records as the transaction reads them. */
  function MergedRecords(c: map<RecordKey, Blob>, p: Slots): map<RecordKey, Blob> {
    map k | k in c.Keys + p.Keys && HasRecord(p, c, k) :: if k in p then p[k].value else c[k]
  }

  function MergedIndex(c: set<Key>, p: Flags): set<Key> {
    set k | k in c + p.Keys && HasEntry(p, c, k)
  }

  lemma MergedNothing(c: map<RecordKey, Blob>, d: set<Key>)
    ensures MergedRecords(c, map[]) == c && MergedIndex(d, map[]) == d
  {
  }

  lemma MergedOneRecord(c: map<RecordKey, Blob>, p: Slots, k: RecordKey, slot: Option<Blob>)
    ensures MergedRecords(c, p[k := slot]) ==
            if slot.Some? then MergedRecords(c, p)[k := slot.value] else MergedRecords(c, p) - {k}
  {
  }

  lemma MergedOneEntry(c: set<Key>, p: Flags, k: Key, flag: bool)
    ensures MergedIndex(c, p[k := flag]) == if flag then MergedIndex(c, p) + {k} else MergedIndex(c, p) - {k}
  {
  }

  /** At most one live primary key for each key of an index. */
  ghost predicate UniqueIndex(p: Flags, c: set<Key>, index: u64) {
    forall a, b | HasEntry(p, c, a) && HasEntry(p, c, b) && a.id == b.id == index && a.key == b.key :: a == b
  }

  lemma OneKeyChanged(before: set<RecordKey>, after: set<RecordKey>, k: RecordKey)
    requires forall x: RecordKey | x != k :: x in after <==> x in before
    ensures |after| == |before| + (if k in after then 1 else 0) - (if k in before then 1 else 0)
  {
    var rest := after - {k};
    assert rest == before - {k};
    assert after == if k in after then rest + {k} else rest;
    assert before == if k in before then rest + {k} else rest;
  }

  lemma EffectiveAfterWrite(p: Slots, c: map<RecordKey, Blob>, k: RecordKey, slot: Option<Blob>)
    ensures Delta(p[k := slot], c) ==
            Delta(p, c) + (if slot.Some? then 1 else 0) - (if HasRecord(p, c, k) then 1 else 0)
  {
    OneKeyChanged(EffectiveKeys(p, c), EffectiveKeys(p[k := slot], c), k);
  }

  lemma EffectiveAfterRemove(p: Slots, c: map<RecordKey, Blob>, k: RecordKey)
    requires k !in c && k in p
    ensures Delta(p - {k}, c) == Delta(p, c) - (if p[k].Some? then 1 else 0)
  {
    OneKeyChanged(EffectiveKeys(p, c), EffectiveKeys(p - {k}, c), k);
  }

  // ---------------------------------------------------------------- undo logs

  /** A record's pending state: a missing entry and a tombstone both read as absent, yet differ. */
  datatype PendingSlot = Absent | Deleted | Value(value: Blob)

  datatype UndoOp =
    | RestoreRecord(key: RecordKey, oldSlot: PendingSlot)
    | RestoreIndex(entry: Key, oldFlag: Option<bool>)
    | RestoreKeyGen(store: u64, oldVal: u64)

  function SlotOf(p: Slots, k: RecordKey): PendingSlot {
    if k !in p then Absent else if p[k].None? then Deleted else Value(p[k].value)
  }

  function FlagOf(p: Flags, k: Key): Option<bool> {
    if k in p then Some(p[k]) else None
  }

  function RestoreSlot(p: Slots, k: RecordKey, slot: PendingSlot): Slots {
    match slot
    case Absent => p - {k}
    case Deleted => p[k := None]
    case Value(v) => p[k := Some(v)]
  }

  function RestoreFlag(p: Flags, k: Key, flag: Option<bool>): Flags {
    if flag.Some? then p[k := flag.value] else p - {k}
  }

  lemma SlotRestores(p: Slots, k: RecordKey, slot: Option<Blob>)
    ensures RestoreSlot(p[k := slot], k, SlotOf(p, k)) == p
    ensures RestoreSlot(p - {k}, k, SlotOf(p, k)) == p
  {
  }

  lemma FlagRestores(p: Flags, k: Key, flag: bool)
    ensures RestoreFlag(p[k := flag], k, FlagOf(p, k)) == p
  {
  }

  ghost function Undo(op: UndoOp, v: View): View {
    match op
    case RestoreRecord(k, slot) => v.(records := RestoreSlot(v.records, k, slot))
    case RestoreIndex(k, flag) => v.(index := RestoreFlag(v.index, k, flag))
    case RestoreKeyGen(s, bits) => v.(keyGens := v.keyGens[s := bits])
  }

  /** Replaying a log backwards. */
  ghost function UndoAll(ops: seq<UndoOp>, v: View): View {
    if ops == [] then v else UndoAll(ops[..|ops| - 1], Undo(ops[|ops| - 1], v))
  }

  lemma {:induction false} UndoAllAppend(a: seq<UndoOp>, b: seq<UndoOp>, v: View)
    ensures UndoAll(a + b, v) == UndoAll(a, UndoAll(b, v))
    decreases |b|
  {
    if b == [] {
      assert a + b == a;
    } else {
      assert (a + b)[..|a + b| - 1] == a + b[..|b| - 1];
      UndoAllAppend(a, b[..|b| - 1], Undo(b[|b| - 1], v));
    }
  }

  /** The undo stack stands for the snapshot stack: unwinding level by level gives every snapshot. */
  ghost predicate Unwinds(undo: seq<seq<UndoOp>>, snaps: seq<View>, v: View) {
    && |undo| == |snaps|
    && (undo != [] ==>
          var n := |undo| - 1;
          var below := UndoAll(undo[n], v);
          below == snaps[n] && Unwinds(undo[..n], snaps[..n], below))
  }

  lemma UnwindsLevels(undo: seq<seq<UndoOp>>, snaps: seq<View>, v: View)
    requires Unwinds(undo, snaps, v)
    ensures |undo| == |snaps|
    ensures undo != [] ==> var n := |undo| - 1;
                           UndoAll(undo[n], v) == snaps[n] && Unwinds(undo[..n], snaps[..n], snaps[n])
    ensures Unwinds(undo + [[]], snaps + [v], v) && Unwinds([], [], v)
  {
    assert (undo + [[]])[..|undo|] == undo && (snaps + [v])[..|snaps|] == snaps;
  }

  lemma UndoLast(ops: seq<UndoOp>, i: nat, v: View)
    requires i < |ops|
    ensures UndoAll(ops[..i + 1], v) == UndoAll(ops[..i], Undo(ops[i], v))
    ensures UndoAll(ops[..0], v) == v && ops[..|ops|] == ops
  {
    assert ops[..i + 1][..i] == ops[..i];
  }

  /** Logging the inverse of a change keeps every level's snapshot. */
  lemma UnwindsAfterLog(undo: seq<seq<UndoOp>>, snaps: seq<View>, before: View, op: UndoOp, after: View)
    requires Unwinds(undo, snaps, before) && undo != [] && Undo(op, after) == before
    ensures var n := |undo| - 1;
            Unwinds(undo[..n] + [undo[n] + [op]], snaps, after)
  {
    var n := |undo| - 1;
    assert (undo[n] + [op])[..|undo[n]|] == undo[n];
    assert (undo[..n] + [undo[n] + [op]])[..n] == undo[..n];
  }

  /** Merging a committed level into its parent keeps the parent's snapshot and drops the level's. */
  lemma UnwindsAfterMerge(undo: seq<seq<UndoOp>>, snaps: seq<View>, v: View)
    requires Unwinds(undo, snaps, v) && |undo| > 1
    ensures var n := |undo| - 1;
            Unwinds(undo[..n - 1] + [undo[n - 1] + undo[n]], snaps[..n], v)
  {
    var n := |undo| - 1;
    UndoAllAppend(undo[n - 1], undo[n], v);
    assert undo[..n][..n - 1] == undo[..n - 1];
    assert (undo[..n - 1] + [undo[n - 1] + undo[n]])[..n - 1] == undo[..n - 1];
  }

  /** Generators a log would put back are among some stores. */
  predicate OpsWithin(ops: seq<UndoOp>, stores: set<u64>) {
    forall op | op in ops && op.RestoreKeyGen? :: op.store in stores
  }

  predicate LogsWithin(undo: seq<seq<UndoOp>>, stores: set<u64>) {
    forall l | l in undo :: OpsWithin(l, stores)
  }

  lemma LogsGrow(undo: seq<seq<UndoOp>>, stores: set<u64>, more: set<u64>)
    requires LogsWithin(undo, stores) && stores <= more
    ensures LogsWithin(undo, more) && LogsWithin(undo + [[]], more)
  {
  }

  lemma LogMore(undo: seq<seq<UndoOp>>, stores: set<u64>, op: UndoOp)
    requires LogsWithin(undo, stores) && undo != [] && (op.RestoreKeyGen? ==> op.store in stores)
    ensures var n := |undo| - 1; LogsWithin(undo[..n] + [undo[n] + [op]], stores)
  {
    assert undo[|undo| - 1] in undo;
  }

  lemma LogsClose(undo: seq<seq<UndoOp>>, stores: set<u64>)
    requires LogsWithin(undo, stores) && undo != []
    ensures var n := |undo| - 1;
            OpsWithin(undo[n], stores) && LogsWithin(undo[..n], stores) &&
            (n > 0 ==> LogsWithin(undo[..n - 1] + [undo[n - 1] + undo[n]], stores))
  {
    var n := |undo| - 1;
    assert undo[n] in undo;
    assert n > 0 ==> undo[n - 1] in undo;
  }

  // ---------------------------------------------------------------- the snapshot-stack model

  /** The working view with one full snapshot for every open savepoint. */
  datatype Model = Model(working: View, snapshots: seq<View>)

  /** Tombstones over some keys. */
  function Tombstoned(p: Slots, d: set<RecordKey>): Slots {
    map k: RecordKey | k in p.Keys + d :: if k in d then None else p[k]
  }

  lemma TombstoneOne(p: Slots, c: map<RecordKey, Blob>, d: set<RecordKey>, k: RecordKey)
    requires k !in d
    ensures Tombstoned(p, d)[k := None] == Tombstoned(p, d + {k})
    ensures HasRecord(Tombstoned(p, d), c, k) <==> HasRecord(p, c, k)
  {
  }

  /** What a transaction may do and what it runs over. */
  datatype TxnMode = ReadOnly | ReadWrite | VersionChange
  datatype Context = Context(mode: TxnMode, scope: seq<u64>, maxKeys: u64, committed: DbVal) {
    predicate InScope(store: u64) {
      mode.VersionChange? || store in scope
    }

    predicate MayWrite() {
      !mode.ReadOnly?
    }
  }

  datatype Op =
    | Begin
    | CommitRequest
    | RollbackRequest
    | Put(store: u64, key: Blob, value: Blob, noOverwrite: bool)
    | DeleteRecord(store: u64, key: Blob)
    | DeleteRange(store: u64, range: EncodedRange)
    | Clear(store: u64)
    | KeyGenSet(store: u64, bits: u64)
    | IndexPut(index: u64, idxKey: Blob, pkey: Blob, unique: bool)
    | IndexDelete(index: u64, idxKey: Blob, pkey: Blob)
    | IndexDeleteByPrimary(index: u64, pkey: Blob)

  predicate InRange(k: RecordKey, store: u64, range: EncodedRange) {
    k.id == store && range.Contains(k.key)
  }

  /** Committed records in range get tombstones; records of this transaction alone vanish. */
  function RangeDeleted(p: Slots, c: map<RecordKey, Blob>, store: u64, range: EncodedRange): Slots {
    map k: RecordKey | k in p.Keys + c.Keys &&
                       (if InRange(k, store, range) then k in c || p[k].None? else k in p)
      :: if InRange(k, store, range) then None else p[k]
  }

  function Cleared(p: Slots, c: map<RecordKey, Blob>, store: u64): Slots {
    map k: RecordKey | k in p.Keys + c.Keys && (k.id == store || k in p) :: if k.id == store then None else p[k]
  }

  function KeysIn(keys: set<RecordKey>, store: u64, range: EncodedRange): set<RecordKey> {
    set k | k in keys && InRange(k, store, range)
  }

  /** The keys that hold a record. */
  function LiveAmong(p: Slots, c: map<RecordKey, Blob>, keys: set<RecordKey>): set<RecordKey> {
    set k | k in keys && HasRecord(p, c, k)
  }

  /** The live pending records among `keys` that committed storage does not have. */
  function PendingOnly(p: Slots, keys: set<RecordKey>, committedKeys: set<RecordKey>): set<RecordKey>
    requires keys <= p.Keys
  {
    set k | k in keys && k !in committedKeys && p[k].Some?
  }

  lemma SweepDeletes(p: Slots, c: map<RecordKey, Blob>, store: u64, range: EncodedRange)
    ensures var tombs := KeysIn(c.Keys, store, range);
            Tombstoned(p, tombs) - PendingOnly(p, KeysIn(p.Keys, store, range), tombs) == RangeDeleted(p, c, store, range)
  {
    hide EncodedRange.Contains;
    var tombs := KeysIn(c.Keys, store, range);
    var a := Tombstoned(p, tombs) - PendingOnly(p, KeysIn(p.Keys, store, range), tombs);
    var b := RangeDeleted(p, c, store, range);
    forall k: RecordKey ensures (k in a <==> k in b) && (k in a ==> a[k] == b[k]) {
      hide InRange;
    }
    assert a == b;
  }

  lemma SweepCounts(p: Slots, c: map<RecordKey, Blob>, store: u64, range: EncodedRange)
    ensures var tombs := KeysIn(c.Keys, store, range);
            |KeysIn(EffectiveKeys(p, c), store, range)| ==
            |LiveAmong(p, c, tombs)| + |PendingOnly(p, KeysIn(p.Keys, store, range), tombs)|
  {
    hide InRange;
    var tombs := KeysIn(c.Keys, store, range);
    var live, gone := LiveAmong(p, c, tombs), PendingOnly(p, KeysIn(p.Keys, store, range), tombs);
    assert KeysIn(EffectiveKeys(p, c), store, range) == live + gone && live !! gone;
  }

  /** The two sweeps of a range deletion make the range deletion, and count what it deletes. */
  lemma RangeDeletedInSteps(p: Slots, c: map<RecordKey, Blob>, store: u64, range: EncodedRange)
    ensures var tombs := KeysIn(c.Keys, store, range);
            var gone := PendingOnly(p, KeysIn(p.Keys, store, range), tombs);
            && Tombstoned(p, tombs) - gone == RangeDeleted(p, c, store, range)
            && |KeysIn(EffectiveKeys(p, c), store, range)| == |LiveAmong(p, c, tombs)| + |gone|
  {
    hide PendingOnly, KeysIn, Tombstoned, RangeDeleted, LiveAmong, EffectiveKeys;
    SweepDeletes(p, c, store, range);
    SweepCounts(p, c, store, range);
  }

  lemma ClearedInSteps(p: Slots, c: map<RecordKey, Blob>, store: u64, tombs: set<RecordKey>)
    requires tombs == set k | k in p.Keys + c.Keys && k.id == store
    ensures Tombstoned(p, tombs) == Cleared(p, c, store)
  {
  }

  function PrimaryDeleted(p: Flags, c: set<Key>, index: u64, pkey: Blob): Flags {
    map k | k in p.Keys + c && (k in p || (k.id == index && k.pkey == pkey))
      :: if k.id == index && k.pkey == pkey && HasEntry(p, c, k) then false else p[k]
  }

  predicate TakenByAnother(p: Flags, c: set<Key>, e: Key) {
    !HasEntry(p, c, e) && exists k :: k in p.Keys + c && k.id == e.id && k.key == e.key && HasEntry(p, c, k)
  }

  datatype TxnError =
    | NoOpenRequest
    | NotInScope(store: u64)
    | ReadOnlyTransaction
    | ConstraintViolated
    | QuotaExceeded(needed: nat, available: nat)

  function CheckStoreWrite(x: Context, store: u64): Option<TxnError> {
    if !x.InScope(store) then Some(NotInScope(store)) else CheckWrite(x)
  }

  function CheckWrite(x: Context): Option<TxnError> {
    if x.MayWrite() then None else Some(ReadOnlyTransaction)
  }

  /** The error an operation is refused with, if any; a refused operation changes nothing. */
  function Check(x: Context, depth: nat, p: Slots, f: Flags, op: Op): Option<TxnError> {
    match op
    case Begin => None
    case CommitRequest => if depth == 0 then Some(NoOpenRequest) else None
    case RollbackRequest => if depth == 0 then Some(NoOpenRequest) else None
    case Put(store, key, _, noOverwrite) =>
      var existed := HasRecord(p, x.committed.records, RecKey(store, key));
      var projected := |EffectiveKeys(p, x.committed.records)| + 1;
      if CheckStoreWrite(x, store).Some? then CheckStoreWrite(x, store)
      else if noOverwrite && existed then Some(ConstraintViolated)
      else if !existed && projected > x.maxKeys then Some(QuotaExceeded(projected, x.maxKeys))
      else None
    case DeleteRecord(store, _) => CheckStoreWrite(x, store)
    case DeleteRange(store, _) => CheckStoreWrite(x, store)
    case Clear(store) => CheckStoreWrite(x, store)
    case KeyGenSet(_, _) => CheckWrite(x)
    case IndexPut(index, ik, pk, unique) =>
      if CheckWrite(x).Some? then CheckWrite(x)
      else if unique && TakenByAnother(f, x.committed.index, Key(index, ik, pk)) then Some(ConstraintViolated)
      else None
    case IndexDelete(_, _, _) => CheckWrite(x)
    case IndexDeleteByPrimary(_, _) => CheckWrite(x)
  }

  predicate Refused(x: Context, depth: nat, p: Slots, f: Flags, op: Op) {
    Check(x, depth, p, f, op).Some?
  }

  ghost function Effect(x: Context, v: View, op: Op): View {
    var c := x.committed;
    match op
    case Put(store, key, value, _) => v.(records := v.records[RecKey(store, key) := Some(value)])
    case DeleteRecord(store, key) => v.(records := v.records[RecKey(store, key) := None])
    case DeleteRange(store, range) => v.(records := RangeDeleted(v.records, c.records, store, range))
    case Clear(store) => v.(records := Cleared(v.records, c.records, store))
    case KeyGenSet(store, bits) => v.(keyGens := v.keyGens[store := bits])
    case IndexPut(index, ik, pk, _) => v.(index := v.index[Key(index, ik, pk) := true])
    case IndexDelete(index, ik, pk) => v.(index := v.index[Key(index, ik, pk) := false])
    case IndexDeleteByPrimary(index, pk) => v.(index := PrimaryDeleted(v.index, c.index, index, pk))
    case _ => v
  }

  /** One operation on the model: savepoints push, drop or restore a snapshot. */
  ghost function Step(x: Context, m: Model, op: Op): Model {
    if Refused(x, |m.snapshots|, m.working.records, m.working.index, op) then m
    else
      match op
      case Begin => m.(snapshots := m.snapshots + [m.working])
      case CommitRequest => m.(snapshots := m.snapshots[..|m.snapshots| - 1])
      case RollbackRequest => Model(m.snapshots[|m.snapshots| - 1], m.snapshots[..|m.snapshots| - 1])
      case _ => m.(working := Effect(x, m.working, op))
  }

  /** Closing a savepoint in the model. */
  lemma CloseStep(x: Context, m: Model, depth: nat, p: Slots, f: Flags)
    ensures Check(x, depth, p, f, CommitRequest) == Check(x, depth, p, f, RollbackRequest)
            == if depth == 0 then Some(NoOpenRequest) else None
    ensures var n := |m.snapshots| - 1;
            && Step(x, m, CommitRequest) == (if n < 0 then m else m.(snapshots := m.snapshots[..n]))
            && Step(x, m, RollbackRequest) == (if n < 0 then m else Model(m.snapshots[n], m.snapshots[..n]))
  {
  }

  ghost function Run(x: Context, m: Model, ops: seq<Op>): Model
    decreases |ops|
  {
    if ops == [] then m else Run(x, Step(x, m, ops[0]), ops[1..])
  }

  /** A script that never closes more savepoints than it opened beyond `depth`, and closes them all. */
  predicate WellNested(ops: seq<Op>, depth: nat) {
    if ops == [] then depth == 0
    else
      match ops[0]
      case Begin => WellNested(ops[1..], depth + 1)
      case CommitRequest => depth > 0 && WellNested(ops[1..], depth - 1)
      case RollbackRequest => depth > 0 && WellNested(ops[1..], depth - 1)
      case _ => WellNested(ops[1..], depth)
  }

  lemma {:induction false} WellNestedKeepsStack(x: Context, m: Model, ops: seq<Op>, depth: nat)
    requires WellNested(ops, depth) && depth <= |m.snapshots|
    ensures Run(x, m, ops).snapshots == m.snapshots[..|m.snapshots| - depth]
    decreases |ops|
  {
    hide Refused, Effect;
    if ops != [] {
      var m' := Step(x, m, ops[0]);
      match ops[0]
      case Begin =>
        NeverRefused(x, |m.snapshots|, m.working.records, m.working.index, ops[0]);
        WellNestedKeepsStack(x, m', ops[1..], depth + 1);
      case CommitRequest =>
        NeverRefused(x, |m.snapshots|, m.working.records, m.working.index, ops[0]);
        WellNestedKeepsStack(x, m', ops[1..], depth - 1);
      case RollbackRequest =>
        NeverRefused(x, |m.snapshots|, m.working.records, m.working.index, ops[0]);
        WellNestedKeepsStack(x, m', ops[1..], depth - 1);
      case _ =>
        WellNestedKeepsStack(x, m', ops[1..], depth);
    }
  }

  lemma NeverRefused(x: Context, depth: nat, p: Slots, f: Flags, op: Op)
    requires op.Begin? || ((op.CommitRequest? || op.RollbackRequest?) && depth > 0)
    ensures !Refused(x, depth, p, f, op)
  {
  }

  /** The stores whose generator a script sets. */
  function StoresSet(x: Context, ops: seq<Op>): set<u64> {
    if x.MayWrite() then set op | op in ops && op.KeyGenSet? :: op.store else {}
  }

  lemma NoStoreSet(x: Context, op: Op, s: set<u64>)
    requires !op.KeyGenSet?
    ensures StoresSet(x, [op]) == {} && s + StoresSet(x, [op]) == s
  {
  }

  lemma NothingMayBeSet(x: Context, op: Op, s: set<u64>)
    ensures !x.MayWrite() ==> StoresSet(x, [op]) == {} && s + StoresSet(x, [op]) == s
  {
  }

  lemma LoneStoreSet(x: Context, store: u64, bits: u64)
    requires x.MayWrite()
    ensures StoresSet(x, [KeyGenSet(store, bits)]) == {store}
  {
    assert KeyGenSet(store, bits) in [KeyGenSet(store, bits)];
  }

  lemma StoresSetSnoc(x: Context, ops: seq<Op>, i: nat)
    requires i < |ops|
    ensures StoresSet(x, ops[..i + 1]) == StoresSet(x, ops[..i]) + StoresSet(x, [ops[i]])
  {
    assert ops[..i + 1] == ops[..i] + [ops[i]];
  }

  lemma {:induction false} RunAppend(x: Context, m: Model, a: seq<Op>, b: seq<Op>)
    ensures Run(x, m, a + b) == Run(x, Run(x, m, a), b)
    decreases |a|
  {
    hide Step;
    if a == [] {
      assert a + b == b;
    } else {
      assert (a + b)[1..] == a[1..] + b;
      RunAppend(x, Step(x, m, a[0]), a[1..], b);
    }
  }

  /** Rolling a request back undoes everything in it, inner requests committed or not. */
  lemma RollbackRestores(x: Context, m: Model, ops: seq<Op>)
    requires WellNested(ops, 0)
    ensures Run(x, m, [Begin] + ops + [RollbackRequest]) == m
  {
    hide Refused, Effect;
    var began := m.(snapshots := m.snapshots + [m.working]);
    NeverRefused(x, |m.snapshots|, m.working.records, m.working.index, Begin);
    WellNestedKeepsStack(x, began, ops, 0);
    var done := Run(x, began, ops);
    assert done.snapshots == began.snapshots;
    NeverRefused(x, |done.snapshots|, done.working.records, done.working.index, RollbackRequest);
    assert [Begin] + ops + [RollbackRequest] == [Begin] + (ops + [RollbackRequest]);
    assert ([Begin] + (ops + [RollbackRequest]))[1..] == ops + [RollbackRequest];
    RunAppend(x, began, ops, [RollbackRequest]);
    assert [RollbackRequest][1..] == [];
    assert Step(x, m, Begin) == began;
    assert Run(x, done, [RollbackRequest]) == Step(x, done, RollbackRequest);
  }

  /** Committing a request keeps what it did and closes its savepoint. */
  lemma CommitKeeps(x: Context, m: Model, ops: seq<Op>)
    requires WellNested(ops, 0)
    ensures var began := m.(snapshots := m.snapshots + [m.working]);
            Run(x, m, [Begin] + ops + [CommitRequest]) == Model(Run(x, began, ops).working, m.snapshots)
  {
    hide Refused, Effect;
    var began := m.(snapshots := m.snapshots + [m.working]);
    NeverRefused(x, |m.snapshots|, m.working.records, m.working.index, Begin);
    WellNestedKeepsStack(x, began, ops, 0);
    var done := Run(x, began, ops);
    NeverRefused(x, |done.snapshots|, done.working.records, done.working.index, CommitRequest);
    assert [Begin] + ops + [CommitRequest] == [Begin] + (ops + [CommitRequest]);
    assert ([Begin] + (ops + [CommitRequest]))[1..] == ops + [CommitRequest];
    RunAppend(x, began, ops, [CommitRequest]);
    assert [CommitRequest][1..] == [];
    assert Step(x, m, Begin) == began;
    assert Run(x, done, [CommitRequest]) == Step(x, done, CommitRequest);
    assert began.snapshots[..|m.snapshots|] == m.snapshots;
  }

  // ---------------------------------------------------------------- what operations keep

  /** Deletions never take a transaction over its key limit. */
  lemma DeletionsShrink(p: Slots, c: map<RecordKey, Blob>, store: u64, range: EncodedRange)
    ensures |EffectiveKeys(RangeDeleted(p, c, store, range), c)| <= |EffectiveKeys(p, c)|
    ensures |EffectiveKeys(Cleared(p, c, store), c)| <= |EffectiveKeys(p, c)|
  {
    CardSubset(EffectiveKeys(RangeDeleted(p, c, store, range), c), EffectiveKeys(p, c));
    CardSubset(EffectiveKeys(Cleared(p, c, store), c), EffectiveKeys(p, c));
  }

  lemma {:induction false} CardSubset<T>(a: set<T>, b: set<T>)
    requires a <= b
    ensures |a| <= |b|
  {
    if a != {} {
      var x :| x in a;
      CardSubset(a - {x}, b - {x});
    }
  }

  /** An accepted operation keeps the key limit. */
  lemma EffectKeepsQuota(x: Context, depth: nat, v: View, op: Op)
    requires |EffectiveKeys(v.records, x.committed.records)| <= x.maxKeys
    requires !Refused(x, depth, v.records, v.index, op)
    ensures |EffectiveKeys(Effect(x, v, op).records, x.committed.records)| <= x.maxKeys
  {
    hide EffectiveKeys, RangeDeleted, Cleared, HasRecord, TakenByAnother, PrimaryDeleted;
    var c := x.committed.records;
    match op
    case Put(store, key, value, _) => EffectiveAfterWrite(v.records, c, RecKey(store, key), Some(value));
    case DeleteRecord(store, key) => EffectiveAfterWrite(v.records, c, RecKey(store, key), None);
    case DeleteRange(store, range) => DeletionsShrink(v.records, c, store, range);
    case Clear(store) => DeletionsShrink(v.records, c, store, EncodedRange(None, None));
    case _ =>
  }

  /** Only an insertion that skips the check can give an index key a second primary key. */
  lemma EffectKeepsUnique(x: Context, depth: nat, v: View, op: Op, index: u64)
    requires UniqueIndex(v.index, x.committed.index, index)
    requires !Refused(x, depth, v.records, v.index, op)
    requires op.IndexPut? && op.index == index ==> op.unique
    ensures UniqueIndex(Effect(x, v, op).index, x.committed.index, index)
  {
  }

  /** Within the key limit, here and at every savepoint a rollback can return to. */
  ghost predicate WithinQuota(x: Context, m: Model) {
    forall v | v == m.working || v in m.snapshots :: |EffectiveKeys(v.records, x.committed.records)| <= x.maxKeys
  }

  /** At most one primary key for each key of the index, here and at every savepoint. */
  ghost predicate UniqueThroughout(x: Context, m: Model, index: u64) {
    forall v | v == m.working || v in m.snapshots :: UniqueIndex(v.index, x.committed.index, index)
  }

  /** No script, however nested, takes a transaction that starts within its key limit over it. */
  lemma {:induction false} RunKeepsQuota(x: Context, m: Model, ops: seq<Op>)
    requires WithinQuota(x, m)
    ensures WithinQuota(x, Run(x, m, ops))
    decreases |ops|
  {
    if ops != [] {
      StepKeepsQuota(x, m, ops[0]);
      RunKeepsQuota(x, Step(x, m, ops[0]), ops[1..]);
    }
  }

  lemma StepKeepsQuota(x: Context, m: Model, op: Op)
    requires WithinQuota(x, m)
    ensures WithinQuota(x, Step(x, m, op))
  {
    hide Refused, Effect, EffectiveKeys;
    var depth := |m.snapshots|;
    if !Refused(x, depth, m.working.records, m.working.index, op) {
      EffectKeepsQuota(x, depth, m.working, op);
      SavepointOps(x, m, op);
    }
  }

  /** The views of a stepped model are old ones, or the effect of the operation on the working one. */
  lemma SavepointOps(x: Context, m: Model, op: Op)
    ensures var m' := Step(x, m, op);
            forall v | v == m'.working || v in m'.snapshots ::
              v == m.working || v in m.snapshots ||
              (v == Effect(x, m.working, op) && !Refused(x, |m.snapshots|, m.working.records, m.working.index, op))
  {
    hide Effect;
  }

  /** As long as every insertion into an index checks, no script gives one of its keys two primary keys. */
  lemma {:induction false} RunKeepsUnique(x: Context, m: Model, ops: seq<Op>, index: u64)
    requires UniqueThroughout(x, m, index)
    requires forall op | op in ops && op.IndexPut? && op.index == index :: op.unique
    ensures UniqueThroughout(x, Run(x, m, ops), index)
    decreases |ops|
  {
    hide Step, UniqueThroughout;
    if ops != [] {
      StepKeepsUnique(x, m, ops[0], index);
      RunKeepsUnique(x, Step(x, m, ops[0]), ops[1..], index);
    }
  }

  lemma StepKeepsUnique(x: Context, m: Model, op: Op, index: u64)
    requires UniqueThroughout(x, m, index)
    requires op.IndexPut? && op.index == index ==> op.unique
    ensures UniqueThroughout(x, Step(x, m, op), index)
  {
    hide Refused, Effect, UniqueIndex;
    var depth := |m.snapshots|;
    if !Refused(x, depth, m.working.records, m.working.index, op) {
      EffectKeepsUnique(x, depth, m.working, op, index);
    }
    SavepointOps(x, m, op);
    hide Step;
  }

  /** Deleting by primary key leaves no merged entry for it in that index, and touches nothing else. */
  lemma PrimaryDeletedLeavesNone(p: Flags, c: set<Key>, index: u64, pkey: Blob, k: Key)
    ensures HasEntry(PrimaryDeleted(p, c, index, pkey), c, k) <==>
            HasEntry(p, c, k) && !(k.id == index && k.pkey == pkey)
  {
  }

  /** A range deletion removes exactly the effective records of the range and touches no other. */
  lemma RangeDeletedReads(p: Slots, c: map<RecordKey, Blob>, store: u64, range: EncodedRange, k: RecordKey)
    ensures var q := RangeDeleted(p, c, store, range);
            && (HasRecord(q, c, k) <==> HasRecord(p, c, k) && !InRange(k, store, range))
            && (!InRange(k, store, range) ==> (k in q <==> k in p) && (k in p ==> q[k] == p[k]))
  {
  }
}
