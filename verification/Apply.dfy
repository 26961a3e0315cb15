/** Replaying recovered frames onto a database, and what replay does not depend on. */
module Apply {
  import opened Bytes
  import opened Codec
  import opened Keys
  import opened Meta
  import opened State
  import opened Savepoints
  import opened WalRecovery
  import opened WalPacker
  import Wal

  /** Sets a store's key generator: the first store with that id. */
  function WithKeyGen(stores: seq<StoreMeta>, store: u64, bits: u64): seq<StoreMeta> {
    if stores == [] then []
    else if stores[0].id == store then [stores[0].(keyGen := bits)] + stores[1..]
    else [stores[0]] + WithKeyGen(stores[1..], store, bits)
  }

  function MetaWithKeyGen(m: DatabaseMeta, store: u64, bits: u64): DatabaseMeta {
    m.(stores := WithKeyGen(m.stores, store, bits))
  }

  /** One operation on the database; metadata bytes that do not decode are an error. */
  function ApplyOp(v: DbVal, op: Wal.WalOp): Option<DbVal> {
    match op
    case Put(store, key, value) => Some(v.(records := v.records[RecKey(store, key) := value]))
    case Delete(store, key) => Some(v.(records := v.records - {RecKey(store, key)}))
    case Clear(store) => Some(v.(records := map k | k in v.records && k.id != store :: v.records[k]))
    case IndexPut(index, ik, pk) => Some(v.(index := v.index + {Key(index, ik, pk)}))
    case IndexDelete(index, ik, pk) => Some(v.(index := v.index - {Key(index, ik, pk)}))
    case KeyGenSet(store, bits) =>
      Some(v.(keyGens := v.keyGens[store := bits],
              meta := if v.meta.Some? then Some(MetaWithKeyGen(v.meta.value, store, bits)) else None))
    case MetaReplace(bytes) =>
      var m := ParseMeta(bytes);
      if m.Fail? then None else Some(v.(meta := Some(m.value)))
  }

  function ApplyOps(v: DbVal, ops: seq<Wal.WalOp>): Option<DbVal>
    decreases |ops|
  {
    if ops == [] then Some(v)
    else
      var w := ApplyOp(v, ops[0]);
      if w.None? then None else ApplyOps(w.value, ops[1..])
  }

  /** The sequence counter after a frame. */
  function Bumped(v: Option<DbVal>, txnSeq: u64): Option<DbVal> {
    if v.None? then None else Some(v.value.(nextTxnSeq := MaxU64(v.value.nextTxnSeq, SaturatingInc(txnSeq))))
  }

  function ApplyFrames(v: DbVal, frames: seq<Wal.WalFrame>): Option<DbVal>
    decreases |frames|
  {
    if frames == [] then Some(v)
    else
      var w := Bumped(ApplyOps(v, frames[0].ops), frames[0].txnSeq);
      if w.None? then None else ApplyFrames(w.value, frames[1..])
  }

  // ---------------------------------------------------------------- the loops

  /** `apply_op`, in place. */
  method PerformOp(s: DbState, op: Wal.WalOp) returns (ok: bool)
    modifies s
    ensures s.KeepsFiles()
    ensures ok == ApplyOp(old(s.Val()), op).Some?
    ensures ok ==> s.Val() == ApplyOp(old(s.Val()), op).value
  {
    hide ParseMeta;
    match op {
      case Put(store, key, value) => s.records := s.records[RecKey(store, key) := value];
      case Delete(store, key) => s.records := s.records - {RecKey(store, key)};
      case Clear(store) => ClearStore(s, store);
      case IndexPut(index, ik, pk) => s.index := s.index + {Key(index, ik, pk)};
      case IndexDelete(index, ik, pk) => s.index := s.index - {Key(index, ik, pk)};
      case KeyGenSet(store, bits) =>
        s.keyGens := s.keyGens[store := bits];
        if s.meta.Some? {
          s.meta := Some(MetaWithKeyGen(s.meta.value, store, bits));
        }
      case MetaReplace(bytes) =>
        var m := DecodeMeta(bytes);
        if m.None? {
          return false;
        }
        s.meta := m;
    }
    return true;
  }

  method ClearStore(s: DbState, store: u64)
    modifies s`records
    ensures s.records == map k | k in old(s.records) && k.id != store :: old(s.records)[k]
  {
    var keys := set k | k in s.records && k.id == store;
    ghost var all := keys;
    while keys != {}
      invariant keys <= all
      invariant s.records == old(s.records) - (all - keys)
      decreases keys
    {
      var k :| k in keys;
      s.records, keys := s.records - {k}, keys - {k};
    }
  }

  /** `apply_frames`, in place. */
  method PerformFrames(s: DbState, frames: seq<Wal.WalFrame>) returns (ok: bool)
    modifies s
    ensures s.KeepsFiles()
    ensures ok == ApplyFrames(old(s.Val()), frames).Some?
    ensures ok ==> s.Val() == ApplyFrames(old(s.Val()), frames).value
  {
    assert frames[0..] == frames;
    for i := 0 to |frames|
      invariant s.KeepsFiles()
      invariant ApplyFrames(s.Val(), frames[i..]) == ApplyFrames(old(s.Val()), frames)
    {
      hide ApplyOp;
      var f := frames[i];
      ghost var before := s.Val();
      assert frames[i..][0] == f && frames[i..][1..] == frames[i + 1..];
      assert f.ops[0..] == f.ops;
      for j := 0 to |f.ops|
        invariant s.KeepsFiles()
        invariant ApplyOps(s.Val(), f.ops[j..]) == ApplyOps(before, f.ops)
      {
        assert f.ops[j..][0] == f.ops[j] && f.ops[j..][1..] == f.ops[j + 1..];
        var done := PerformOp(s, f.ops[j]);
        if !done {
          return false;
        }
      }
      s.nextTxnSeq := MaxU64(s.nextTxnSeq, SaturatingInc(f.txnSeq));
    }
    return true;
  }

  // ---------------------------------------------------------------- composition

  lemma {:induction false} ApplyOpsAppend(v: DbVal, a: seq<Wal.WalOp>, b: seq<Wal.WalOp>)
    ensures ApplyOps(v, a + b) == (var w := ApplyOps(v, a); if w.None? then None else ApplyOps(w.value, b))
    decreases |a|
  {
    hide ApplyOp;
    if a == [] {
      assert a + b == b;
    } else {
      assert (a + b)[1..] == a[1..] + b;
      if ApplyOp(v, a[0]).Some? {
        ApplyOpsAppend(ApplyOp(v, a[0]).value, a[1..], b);
      }
    }
  }

  lemma {:induction false} ApplyFramesAppend(v: DbVal, a: seq<Wal.WalFrame>, b: seq<Wal.WalFrame>)
    ensures ApplyFrames(v, a + b) == (var w := ApplyFrames(v, a); if w.None? then None else ApplyFrames(w.value, b))
    decreases |a|
  {
    hide ApplyOps, Bumped;
    if a == [] {
      assert a + b == b;
    } else {
      assert (a + b)[1..] == a[1..] + b;
      var w := Bumped(ApplyOps(v, a[0].ops), a[0].txnSeq);
      if w.Some? {
        ApplyFramesAppend(w.value, a[1..], b);
      }
    }
  }

  /** Operations neither read nor change the sequence counter. */
  lemma {:induction false} CounterIsInert(v: DbVal, n: u64, ops: seq<Wal.WalOp>)
    ensures ApplyOps(v.(nextTxnSeq := n), ops) ==
            (var w := ApplyOps(v, ops); if w.None? then None else Some(w.value.(nextTxnSeq := n)))
    ensures ApplyOps(v, ops).Some? ==> ApplyOps(v, ops).value.nextTxnSeq == v.nextTxnSeq
    decreases |ops|
  {
    hide WithKeyGen, ParseMeta;
    if ops != [] && ApplyOp(v, ops[0]).Some? {
      var w := ApplyOp(v, ops[0]).value;
      assert ApplyOp(v.(nextTxnSeq := n), ops[0]) == Some(w.(nextTxnSeq := n));
      CounterIsInert(w, n, ops[1..]);
    }
  }

  /** Replaying a transaction's frames is applying its operations in order, however they were packed. */
  lemma {:induction false} FramesAreTheirOps(v: DbVal, frames: seq<Wal.WalFrame>, txnSeq: u64)
    requires frames != [] && forall f | f in frames :: f.txnSeq == txnSeq
    ensures ApplyFrames(v, frames) == Bumped(ApplyOps(v, OpsOf(frames)), txnSeq)
    decreases |frames|
  {
    hide ApplyOp;
    var f, rest := frames[0], frames[1..];
    assert f in frames;
    ApplyOpsAppend(v, f.ops, OpsOf(rest));
    if ApplyOps(v, f.ops).Some? {
      var w := Bumped(ApplyOps(v, f.ops), txnSeq).value;
      if rest == [] {
        assert ApplyFrames(w, []) == Some(w);
      } else {
        FramesAreTheirOps(w, rest, txnSeq);
        CounterIsInert(ApplyOps(v, f.ops).value, w.nextTxnSeq, OpsOf(rest));
        CounterIsInert(ApplyOps(v, f.ops).value, 0, OpsOf(rest));
      }
    }
  }

  // ---------------------------------------------------------------- what replay does not depend on

  /** A database over extra key generators that its own override. */
  function Under(extra: map<u64, u64>, v: DbVal): DbVal {
    v.(keyGens := extra + v.keyGens)
  }

  function UnderAll(extra: map<u64, u64>, v: Option<DbVal>): Option<DbVal> {
    if v.None? then None else Some(Under(extra, v.value))
  }

  lemma {:induction false} OpsUnder(extra: map<u64, u64>, v: DbVal, ops: seq<Wal.WalOp>)
    ensures ApplyOps(Under(extra, v), ops) == UnderAll(extra, ApplyOps(v, ops))
    decreases |ops|
  {
    hide WithKeyGen, ParseMeta;
    if ops != [] {
      var op := ops[0];
      if op.KeyGenSet? {
        assert (extra + v.keyGens)[op.store := op.valueBits] == extra + v.keyGens[op.store := op.valueBits];
      }
      assert ApplyOp(Under(extra, v), op) == UnderAll(extra, ApplyOp(v, op));
      if ApplyOp(v, op).Some? {
        OpsUnder(extra, ApplyOp(v, op).value, ops[1..]);
      }
    }
  }

  /** Replay over defaulted key generators is replay without them, over them. */
  lemma {:induction false} FramesUnder(extra: map<u64, u64>, v: DbVal, frames: seq<Wal.WalFrame>)
    ensures ApplyFrames(Under(extra, v), frames) == UnderAll(extra, ApplyFrames(v, frames))
    decreases |frames|
  {
    hide ApplyOps;
    if frames != [] {
      OpsUnder(extra, v, frames[0].ops);
      var w := Bumped(ApplyOps(v, frames[0].ops), frames[0].txnSeq);
      if w.Some? {
        FramesUnder(extra, w.value, frames[1..]);
      }
    }
  }

  /** Whether some operation replaces the metadata. */
  predicate ReplacesMeta(ops: seq<Wal.WalOp>) {
    exists op :: op in ops && op.MetaReplace?
  }

  predicate FramesReplaceMeta(frames: seq<Wal.WalFrame>) {
    exists f :: f in frames && ReplacesMeta(f.ops)
  }

  /** Equal but for the metadata. */
  predicate SameBut(a: Option<DbVal>, b: Option<DbVal>) {
    a.Some? == b.Some? && (a.Some? ==> a.value.(meta := None) == b.value.(meta := None))
  }

  lemma {:induction false} OpsFromAnyMeta(a: DbVal, b: DbVal, ops: seq<Wal.WalOp>)
    requires SameBut(Some(a), Some(b))
    ensures SameBut(ApplyOps(a, ops), ApplyOps(b, ops))
    ensures ReplacesMeta(ops) ==> ApplyOps(a, ops) == ApplyOps(b, ops)
    decreases |ops|
  {
    hide WithKeyGen, ParseMeta;
    if ops != [] {
      var a', b' := ApplyOp(a, ops[0]), ApplyOp(b, ops[0]);
      assert SameBut(a', b');
      assert ops[0].MetaReplace? ==> a' == b';
      assert ReplacesMeta(ops) ==> ops[0].MetaReplace? || ReplacesMeta(ops[1..]);
      if a'.Some? {
        OpsFromAnyMeta(a'.value, b'.value, ops[1..]);
      }
    }
  }

  /** Once the metadata has been replaced, which metadata replay started from no longer matters. */
  lemma {:induction false} FramesFromAnyMeta(a: DbVal, b: DbVal, frames: seq<Wal.WalFrame>)
    requires SameBut(Some(a), Some(b))
    ensures SameBut(ApplyFrames(a, frames), ApplyFrames(b, frames))
    ensures FramesReplaceMeta(frames) ==> ApplyFrames(a, frames) == ApplyFrames(b, frames)
    decreases |frames|
  {
    hide ApplyOps, ReplacesMeta;
    if frames != [] {
      var f := frames[0];
      OpsFromAnyMeta(a, b, f.ops);
      var a', b' := Bumped(ApplyOps(a, f.ops), f.txnSeq), Bumped(ApplyOps(b, f.ops), f.txnSeq);
      assert FramesReplaceMeta(frames) ==> ReplacesMeta(f.ops) || FramesReplaceMeta(frames[1..]);
      if a'.Some? {
        FramesFromAnyMeta(a'.value, b'.value, frames[1..]);
      }
    }
  }

  /** Replay only ever adds key generators. */
  lemma {:induction false} OpsKeepKeyGens(v: DbVal, ops: seq<Wal.WalOp>)
    ensures ApplyOps(v, ops).Some? ==> v.keyGens.Keys <= ApplyOps(v, ops).value.keyGens.Keys
    decreases |ops|
  {
    hide WithKeyGen, ParseMeta;
    if ops != [] && ApplyOp(v, ops[0]).Some? {
      OpsKeepKeyGens(ApplyOp(v, ops[0]).value, ops[1..]);
    }
  }

  lemma {:induction false} FramesKeepKeyGens(v: DbVal, frames: seq<Wal.WalFrame>)
    ensures ApplyFrames(v, frames).Some? ==> v.keyGens.Keys <= ApplyFrames(v, frames).value.keyGens.Keys
    decreases |frames|
  {
    hide ApplyOps;
    if frames != [] {
      OpsKeepKeyGens(v, frames[0].ops);
      var w := Bumped(ApplyOps(v, frames[0].ops), frames[0].txnSeq);
      if w.Some? {
        FramesKeepKeyGens(w.value, frames[1..]);
      }
    }
  }

  /** Replay never reuses a sequence number: the counter does not fall, and is beyond every frame's own. */
  lemma {:induction false} CounterIsBeyond(v: DbVal, frames: seq<Wal.WalFrame>)
    ensures ApplyFrames(v, frames).Some? ==>
              var n := ApplyFrames(v, frames).value.nextTxnSeq;
              v.nextTxnSeq <= n && forall f | f in frames :: f.txnSeq < n || n == U64_MAX
    decreases |frames|
  {
    hide ApplyOps;
    if frames != [] && ApplyOps(v, frames[0].ops).Some? {
      OpsKeepCounter(v, frames[0].ops);
      CounterIsBeyond(Bumped(ApplyOps(v, frames[0].ops), frames[0].txnSeq).value, frames[1..]);
    }
  }

  lemma {:induction false} OpsKeepCounter(v: DbVal, ops: seq<Wal.WalOp>)
    ensures ApplyOps(v, ops).Some? ==> ApplyOps(v, ops).value.nextTxnSeq == v.nextTxnSeq
    decreases |ops|
  {
    hide ParseMeta, WithKeyGen;
    if ops != [] && ApplyOp(v, ops[0]).Some? {
      OpsKeepCounter(ApplyOp(v, ops[0]).value, ops[1..]);
    }
  }

  /** A replayed generator shows in the metadata, on the first store of its id and nowhere else; other operations
      but a replacement leave the metadata alone. */
  lemma ReplayedMeta(v: DbVal, op: Wal.WalOp)
    requires v.meta.Some? && !op.MetaReplace?
    ensures var w := ApplyOp(v, op).value.meta;
            && w.Some? && w.value.(stores := []) == v.meta.value.(stores := [])
            && (!op.KeyGenSet? ==> w == v.meta)
            && (op.KeyGenSet? ==>
                  var a, b := v.meta.value.stores, w.value.stores;
                  |a| == |b| && forall i | 0 <= i < |a| ::
                    b[i] == if a[i].id == op.store && forall j | 0 <= j < i :: a[j].id != op.store
                            then a[i].(keyGen := op.valueBits) else a[i])
  {
    if op.KeyGenSet? {
      var a := v.meta.value.stores;
      WithKeyGenLong(a, op.store, op.valueBits);
      forall i | 0 <= i < |a| ensures WithKeyGen(a, op.store, op.valueBits)[i] ==
        if a[i].id == op.store && forall j | 0 <= j < i :: a[j].id != op.store then a[i].(keyGen := op.valueBits) else a[i] {
        WithKeyGenAt(a, op.store, op.valueBits, i);
      }
    }
  }

  lemma {:induction false} WithKeyGenLong(stores: seq<StoreMeta>, store: u64, bits: u64)
    ensures |WithKeyGen(stores, store, bits)| == |stores|
  {
    if stores != [] && stores[0].id != store {
      WithKeyGenLong(stores[1..], store, bits);
    }
  }

  lemma {:induction false} WithKeyGenAt(stores: seq<StoreMeta>, store: u64, bits: u64, i: nat)
    requires i < |stores|
    ensures |WithKeyGen(stores, store, bits)| == |stores|
    ensures WithKeyGen(stores, store, bits)[i] ==
            if stores[i].id == store && forall j | 0 <= j < i :: stores[j].id != store then stores[i].(keyGen := bits) else stores[i]
  {
    WithKeyGenLong(stores, store, bits);
    if stores[0].id != store && i > 0 {
      WithKeyGenAt(stores[1..], store, bits, i - 1);
      assert forall j | 0 <= j < i - 1 :: stores[1..][j] == stores[j + 1];
      if forall j | 0 <= j < i - 1 :: stores[1..][j].id != store {
        forall j | 0 <= j < i ensures stores[j].id != store {
          assert j > 0 ==> stores[1..][j - 1] == stores[j];
        }
      }
    }
  }

  /** The first store of each id decides what generator the metadata shows. */
  lemma {:induction false} MetaKeyGensAre(stores: seq<StoreMeta>, i: nat)
    requires i < |stores| && forall j | 0 <= j < i :: stores[j].id != stores[i].id
    ensures stores[i].id in MetaKeyGens(stores) && MetaKeyGens(stores)[stores[i].id] == stores[i].keyGen
  {
    if i > 0 {
      assert stores[0].id != stores[i].id;
      MetaKeyGensAre(stores[1..], i - 1);
    }
  }

  // ---------------------------------------------------------------- logical content

  /** What a user can observe of a database: key generators as they read, wherever they are stored. */
  datatype Content = Content(meta: Option<DatabaseMeta>, records: map<RecordKey, Blob>, index: set<Key>,
                             keyGens: imap<u64, u64>, nextTxnSeq: u64)

  ghost function ContentOf(v: DbVal): Content {
    Content(v.meta, v.records, v.index, KeyGenView(map[], v.keyGens), v.nextTxnSeq)
  }

  /** Two contents are the same exactly when everything but absent generators is. */
  lemma ContentShows(a: DbVal, b: DbVal)
    ensures ContentOf(a) == ContentOf(b) <==>
            && a.meta == b.meta && a.records == b.records && a.index == b.index && a.nextTxnSeq == b.nextTxnSeq
            && forall s: u64 :: ShownGen(a.keyGens, s) == ShownGen(b.keyGens, s)
  {
    forall s: u64
      ensures KeyGenView(map[], a.keyGens)[s] == ShownGen(a.keyGens, s) && KeyGenView(map[], b.keyGens)[s] == ShownGen(b.keyGens, s) {
    }
    if forall s: u64 :: ShownGen(a.keyGens, s) == ShownGen(b.keyGens, s) {
      assert KeyGenView(map[], a.keyGens) == KeyGenView(map[], b.keyGens);
    }
  }

  /** A generator that is not stored shows its first value. */
  function ShownGen(keyGens: map<u64, u64>, s: u64): u64 {
    if s in keyGens then keyGens[s] else KEY_GEN_START
  }

  /** The key generators an opened database takes over from its metadata: the first store of each id. */
  function MetaKeyGens(stores: seq<StoreMeta>): map<u64, u64> {
    if stores == [] then map[] else MetaKeyGens(stores[1..])[stores[0].id := stores[0].keyGen]
  }

  /** Extra generators that are not shadowed all show the first value. */
  predicate Harmless(extra: map<u64, u64>, own: map<u64, u64>) {
    forall s | s in extra && s !in own :: extra[s] == KEY_GEN_START
  }

  lemma HarmlessIsInvisible(extra: map<u64, u64>, v: DbVal)
    requires Harmless(extra, v.keyGens)
    ensures ContentOf(Under(extra, v)) == ContentOf(v)
  {
  }

  lemma {:induction false} CoveredIsHarmless(stores: seq<StoreMeta>, own: map<u64, u64>)
    requires forall s | s in stores :: s.id in own || s.keyGen == KEY_GEN_START
    ensures Harmless(MetaKeyGens(stores), own)
  {
    if stores != [] {
      CoveredIsHarmless(stores[1..], own);
    }
  }
}
