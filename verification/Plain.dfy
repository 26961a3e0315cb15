/** A database without overlays, tombstones or logs, and that a transaction reads as one. */
module Plain {
  import opened Bytes
  import opened Keys
  import opened State
  import opened Savepoints
  import opened Apply
  import Wal

  /** Records, index entries and key generators as they read. */
  datatype Plain = Plain(records: map<RecordKey, Blob>, index: set<Key>, keyGens: imap<u64, u64>)

  /** Why an operation is refused, told from what is there. */
  function PlainCheck(x: Context, depth: nat, s: Plain, op: Op): Option<TxnError> {
    match op
    case Begin => None
    case CommitRequest => if depth == 0 then Some(NoOpenRequest) else None
    case RollbackRequest => if depth == 0 then Some(NoOpenRequest) else None
    case Put(store, key, _, noOverwrite) =>
      if CheckStoreWrite(x, store).Some? then CheckStoreWrite(x, store)
      else if RecKey(store, key) in s.records then (if noOverwrite then Some(ConstraintViolated) else None)
      else if |s.records| + 1 > x.maxKeys then Some(QuotaExceeded(|s.records| + 1, x.maxKeys))
      else None
    case DeleteRecord(store, _) => CheckStoreWrite(x, store)
    case DeleteRange(store, _) => CheckStoreWrite(x, store)
    case Clear(store) => CheckStoreWrite(x, store)
    case KeyGenSet(_, _) => CheckWrite(x)
    case IndexPut(index, ik, pk, unique) =>
      if CheckWrite(x).Some? then CheckWrite(x)
      else if unique && Key(index, ik, pk) !in s.index && exists k :: k in s.index && k.id == index && k.key == ik
        then Some(ConstraintViolated)
      else None
    case IndexDelete(_, _, _) => CheckWrite(x)
    case IndexDeleteByPrimary(_, _) => CheckWrite(x)
  }

  /** What an accepted operation does. */
  ghost function PlainEffect(s: Plain, op: Op): Plain {
    match op
    case Put(store, key, value, _) => s.(records := s.records[RecKey(store, key) := value])
    case DeleteRecord(store, key) => s.(records := s.records - {RecKey(store, key)})
    case DeleteRange(store, range) =>
      s.(records := map k | k in s.records && !(k.id == store && range.Contains(k.key)) :: s.records[k])
    case Clear(store) => s.(records := map k | k in s.records && k.id != store :: s.records[k])
    case KeyGenSet(store, bits) => s.(keyGens := s.keyGens[store := bits])
    case IndexPut(index, ik, pk, _) => s.(index := s.index + {Key(index, ik, pk)})
    case IndexDelete(index, ik, pk) => s.(index := s.index - {Key(index, ik, pk)})
    case IndexDeleteByPrimary(index, pk) => s.(index := set k | k in s.index && !(k.id == index && k.pkey == pk))
    case _ => s
  }

  datatype PlainModel = PlainModel(working: Plain, snapshots: seq<Plain>)

  ghost function PlainStep(x: Context, m: PlainModel, op: Op): PlainModel {
    if PlainCheck(x, |m.snapshots|, m.working, op).Some? then m
    else
      match op
      case Begin => m.(snapshots := m.snapshots + [m.working])
      case CommitRequest => m.(snapshots := m.snapshots[..|m.snapshots| - 1])
      case RollbackRequest => PlainModel(m.snapshots[|m.snapshots| - 1], m.snapshots[..|m.snapshots| - 1])
      case _ => m.(working := PlainEffect(m.working, op))
  }

  ghost function PlainRun(x: Context, m: PlainModel, ops: seq<Op>): PlainModel
    decreases |ops|
  {
    if ops == [] then m else PlainRun(x, PlainStep(x, m, ops[0]), ops[1..])
  }

  // ---------------------------------------------------------------- what an overlay reads as

  ghost function ReadsAs(x: Context, v: View): Plain {
    Plain(MergedRecords(x.committed.records, v.records), MergedIndex(x.committed.index, v.index), v.keyGens)
  }

  ghost function ReadsAll(x: Context, m: Model): PlainModel {
    PlainModel(ReadsAs(x, m.working), seq(|m.snapshots|, i requires 0 <= i < |m.snapshots| => ReadsAs(x, m.snapshots[i])))
  }

  lemma MergedHas(c: map<RecordKey, Blob>, p: Slots, d: set<Key>, f: Flags)
    ensures forall k :: k in MergedRecords(c, p) <==> HasRecord(p, c, k)
    ensures MergedRecords(c, p).Keys == EffectiveKeys(p, c) && |MergedRecords(c, p)| == |EffectiveKeys(p, c)|
    ensures forall k :: k in MergedIndex(d, f) <==> HasEntry(f, d, k)
  {
    assert MergedRecords(c, p).Keys == EffectiveKeys(p, c);
  }

  /** The reasons for a refusal do not depend on how the changes are kept. */
  lemma CheckReads(x: Context, depth: nat, v: View, op: Op)
    ensures Check(x, depth, v.records, v.index, op) == PlainCheck(x, depth, ReadsAs(x, v), op)
  {
    hide MergedRecords, MergedIndex, EffectiveKeys, HasRecord, HasEntry, TakenByAnother;
    MergedHas(x.committed.records, v.records, x.committed.index, v.index);
    if op.IndexPut? {
      TakenReads(v.index, x.committed.index, op.index, op.idxKey, op.pkey);
    }
  }

  lemma TakenReads(f: Flags, c: set<Key>, index: u64, ik: Blob, pk: Blob)
    ensures var s := MergedIndex(c, f);
            TakenByAnother(f, c, Key(index, ik, pk)) <==> Key(index, ik, pk) !in s && exists k :: k in s && k.id == index && k.key == ik
  {
    var s := MergedIndex(c, f);
    if TakenByAnother(f, c, Key(index, ik, pk)) {
      var k :| k in f.Keys + c && k.id == index && k.key == ik && HasEntry(f, c, k);
      assert k in s;
    }
  }

  /** Nor does what an operation does. */
  lemma EffectReads(x: Context, v: View, op: Op)
    ensures ReadsAs(x, Effect(x, v, op)) == PlainEffect(ReadsAs(x, v), op)
  {
    var c := x.committed;
    match op
    case Put(store, key, value, _) => MergedOneRecord(c.records, v.records, RecKey(store, key), Some(value));
    case DeleteRecord(store, key) => MergedOneRecord(c.records, v.records, RecKey(store, key), None);
    case DeleteRange(store, range) => RangeReads(c.records, v.records, store, range);
    case Clear(store) => ClearedReads(c.records, v.records, store);
    case IndexPut(index, ik, pk, _) => MergedOneEntry(c.index, v.index, Key(index, ik, pk), true);
    case IndexDelete(index, ik, pk) => MergedOneEntry(c.index, v.index, Key(index, ik, pk), false);
    case IndexDeleteByPrimary(index, pk) => PrimaryReads(c.index, v.index, index, pk);
    case _ =>
  }

  lemma RangeReads(c: map<RecordKey, Blob>, p: Slots, store: u64, range: EncodedRange)
    ensures var was := MergedRecords(c, p);
            MergedRecords(c, RangeDeleted(p, c, store, range)) ==
            map k | k in was && !(k.id == store && range.Contains(k.key)) :: was[k]
  {
    hide EncodedRange.Contains;
    var was := MergedRecords(c, p);
    var a, b := MergedRecords(c, RangeDeleted(p, c, store, range)), map k | k in was && !(k.id == store && range.Contains(k.key)) :: was[k];
    forall k: RecordKey ensures (k in a <==> k in b) && (k in a ==> a[k] == b[k]) {
      MergedAt(c, p, k);
      MergedAt(c, RangeDeleted(p, c, store, range), k);
      hide MergedRecords;
    }
    hide MergedRecords, RangeDeleted;
    assert a == b;
  }

  lemma MergedAt(c: map<RecordKey, Blob>, p: Slots, k: RecordKey)
    ensures var m := MergedRecords(c, p);
            (k in m <==> if k in p then p[k].Some? else k in c) && (k in m ==> m[k] == if k in p then p[k].value else c[k])
  {
  }

  lemma ClearedReads(c: map<RecordKey, Blob>, p: Slots, store: u64)
    ensures var was := MergedRecords(c, p);
            MergedRecords(c, Cleared(p, c, store)) == map k | k in was && k.id != store :: was[k]
  {
    var was := MergedRecords(c, p);
    var a, b := MergedRecords(c, Cleared(p, c, store)), map k | k in was && k.id != store :: was[k];
    forall k: RecordKey ensures (k in a <==> k in b) && (k in a ==> a[k] == b[k]) {
    }
  }

  lemma PrimaryReads(c: set<Key>, f: Flags, index: u64, pk: Blob)
    ensures MergedIndex(c, PrimaryDeleted(f, c, index, pk)) ==
            set k | k in MergedIndex(c, f) && !(k.id == index && k.pkey == pk)
  {
  }

  lemma StepReads(x: Context, m: Model, op: Op)
    ensures ReadsAll(x, Step(x, m, op)) == PlainStep(x, ReadsAll(x, m), op)
  {
    hide ReadsAs, Effect, PlainEffect, Check, PlainCheck;
    CheckReads(x, |m.snapshots|, m.working, op);
    EffectReads(x, m.working, op);
    CheckStack(x, |m.snapshots|, m.working, op);
    var a, b := ReadsAll(x, Step(x, m, op)), PlainStep(x, ReadsAll(x, m), op);
    assert a.working == b.working;
    assert a.snapshots == b.snapshots;
  }

  lemma CheckStack(x: Context, depth: nat, v: View, op: Op)
    ensures (op.CommitRequest? || op.RollbackRequest?) && depth == 0 ==> Check(x, depth, v.records, v.index, op).Some?
    ensures Effect(x, v, Begin) == v && Effect(x, v, CommitRequest) == v && Effect(x, v, RollbackRequest) == v
  {
  }

  /** One data operation on a transaction, told by what it reads. */
  lemma DataReads(x: Context, m: Model, op: Op)
    requires !op.Begin? && !op.CommitRequest? && !op.RollbackRequest?
    ensures var s, refusal := ReadsAs(x, m.working), Check(x, |m.snapshots|, m.working.records, m.working.index, op);
            && refusal == PlainCheck(x, |m.snapshots|, s, op)
            && ReadsAs(x, Step(x, m, op).working) == if refusal.Some? then s else PlainEffect(s, op)
  {
    hide ReadsAs, Effect, PlainEffect, Check, PlainCheck;
    CheckReads(x, |m.snapshots|, m.working, op);
    EffectReads(x, m.working, op);
  }

  /** The records a range deletion takes away. */
  lemma RangeGone(x: Context, v: View, store: u64, range: EncodedRange)
    ensures var s := ReadsAs(x, v);
            && KeysIn(s.records.Keys, store, range) == KeysIn(EffectiveKeys(v.records, x.committed.records), store, range)
            && PlainEffect(s, Op.DeleteRange(store, range)) == s.(records := s.records - KeysIn(s.records.Keys, store, range))
  {
    hide EncodedRange.Contains, HasRecord, MergedRecords, EffectiveKeys, MergedIndex;
    MergedHas(x.committed.records, v.records, x.committed.index, v.index);
    RangeLeaves(ReadsAs(x, v).records, store, range);
  }

  lemma RangeSees(x: Context, v: View, store: u64, range: EncodedRange)
    ensures var s := ReadsAs(x, v);
            && KeysIn(EffectiveKeys(v.records, x.committed.records), store, range) == KeysIn(s.records.Keys, store, range)
            && ReadsAs(x, v.(records := RangeDeleted(v.records, x.committed.records, store, range))) ==
               s.(records := s.records - KeysIn(s.records.Keys, store, range))
  {
    hide ReadsAs, PlainEffect, KeysIn, EffectiveKeys, RangeDeleted;
    RangeGone(x, v, store, range);
    EffectReads(x, v, Op.DeleteRange(store, range));
  }

  lemma RangeLeaves(s: map<RecordKey, Blob>, store: u64, range: EncodedRange)
    ensures (map k | k in s && !(k.id == store && range.Contains(k.key)) :: s[k]) == s - KeysIn(s.Keys, store, range)
  {
    hide EncodedRange.Contains;
  }

  /** A transaction's overlay, tombstones and savepoints read, after any script, as a plain database with
      snapshots. */
  lemma {:induction false} RunReads(x: Context, m: Model, ops: seq<Op>)
    ensures ReadsAll(x, Run(x, m, ops)) == PlainRun(x, ReadsAll(x, m), ops)
    decreases |ops|
  {
    hide ReadsAll, Step, PlainStep;
    if ops != [] {
      StepReads(x, m, ops[0]);
      RunReads(x, Step(x, m, ops[0]), ops[1..]);
    }
  }

  // ---------------------------------------------------------------- what a log replays as

  /** A database as it reads. */
  ghost function PlainOf(v: DbVal): Plain {
    Plain(v.records, v.index, KeyGenView(map[], v.keyGens))
  }

  /** The request a logged operation comes from. */
  function Logged(op: Wal.WalOp): Op
    requires !op.MetaReplace?
  {
    match op
    case Put(store, key, value) => Op.Put(store, key, value, false)
    case Delete(store, key) => Op.DeleteRecord(store, key)
    case Clear(store) => Op.Clear(store)
    case IndexPut(index, ik, pk) => Op.IndexPut(index, ik, pk, false)
    case IndexDelete(index, ik, pk) => Op.IndexDelete(index, ik, pk)
    case KeyGenSet(store, bits) => Op.KeyGenSet(store, bits)
  }

  /** Replaying a logged operation does to a plain database what the request does; replacing the metadata does
      nothing to it. */
  lemma ReplayIsPlain(v: DbVal, op: Wal.WalOp)
    ensures ApplyOp(v, op).Some? ==>
              PlainOf(ApplyOp(v, op).value) == if op.MetaReplace? then PlainOf(v) else PlainEffect(PlainOf(v), Logged(op))
    ensures !op.MetaReplace? ==> ApplyOp(v, op).Some?
  {
  }
}
