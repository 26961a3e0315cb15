/** What a commit writes, what it does in memory, and that replaying the first does the second. */
module Commit {
  import opened Bytes
  import opened Codec
  import opened Keys
  import opened Meta
  import opened State
  import opened Savepoints
  import opened Apply
  import opened WalRecovery
  import opened WalPacker
  import Segment
  import Txn
  import Wal

  /** A transaction's pending changes. */
  datatype Pending = Pending(records: Slots, index: Flags, keyGens: map<u64, u64>) {
    function Size(): nat {
      |records| + |index| + |keyGens|
    }
  }

  function PendingOf(t: Txn.FsTxn): Pending
    reads t
  {
    Pending(t.pendingRecords, t.pendingIndex, t.pendingKeyGens)
  }

  /** The order in which a commit walks the pending maps. */
  datatype Order = Order(records: seq<RecordKey>, entries: seq<Key>, keyGens: seq<u64>)

  ghost predicate Walks(o: Order, p: Pending) {
    && (forall k :: k in o.records <==> k in p.records)
    && (forall k :: k in o.entries <==> k in p.index)
    && (forall s :: s in o.keyGens <==> s in p.keyGens)
  }

  // ---------------------------------------------------------------- metadata

  /** Every pending generator shown on the first store of its id. */
  function Patched(stores: seq<StoreMeta>, g: map<u64, u64>, seen: set<u64>): seq<StoreMeta> {
    if stores == [] then []
    else
      var s := stores[0];
      [if s.id in g && s.id !in seen then s.(keyGen := g[s.id]) else s] + Patched(stores[1..], g, seen + {s.id})
  }

  function PatchedMeta(m: DatabaseMeta, g: map<u64, u64>): DatabaseMeta {
    m.(stores := Patched(m.stores, g, {}))
  }

  lemma {:induction false} PatchSeen(stores: seq<StoreMeta>, g: map<u64, u64>, seen: set<u64>, s: u64, bits: u64)
    requires s in seen
    ensures Patched(stores, g[s := bits], seen) == Patched(stores, g, seen)
  {
    if stores != [] {
      PatchSeen(stores[1..], g, seen + {stores[0].id}, s, bits);
    }
  }

  /** Setting one generator after some others patches them all. */
  lemma {:induction false} PatchOne(stores: seq<StoreMeta>, g: map<u64, u64>, seen: set<u64>, s: u64, bits: u64)
    requires s !in seen && s !in g
    ensures WithKeyGen(Patched(stores, g, seen), s, bits) == Patched(stores, g[s := bits], seen)
  {
    if stores != [] {
      var rest := Patched(stores, g, seen)[1..];
      assert rest == Patched(stores[1..], g, seen + {stores[0].id});
      if stores[0].id == s {
        PatchSeen(stores[1..], g, seen + {s}, s, bits);
      } else {
        PatchOne(stores[1..], g, seen + {stores[0].id}, s, bits);
      }
    }
  }

  lemma {:induction false} PatchNothing(stores: seq<StoreMeta>, seen: set<u64>)
    ensures Patched(stores, map[], seen) == stores
  {
    if stores != [] {
      PatchNothing(stores[1..], seen + {stores[0].id});
    }
  }

  lemma {:induction false} PatchIsCovered(stores: seq<StoreMeta>, g: map<u64, u64>, seen: set<u64>, stored: set<u64>)
    requires forall s | s in stores :: s.id in stored || s.keyGen == KEY_GEN_START
    ensures forall s | s in Patched(stores, g, seen) :: s.id in stored + g.Keys || s.keyGen == KEY_GEN_START
  {
    if stores != [] {
      assert stores[0] in stores;
      PatchIsCovered(stores[1..], g, seen + {stores[0].id}, stored);
    }
  }

  /** Every length of the metadata fits its 32-bit field, and so does the whole. */
  predicate Encodable(m: DatabaseMeta) {
    MetaFits(m) && |MetaBytes(m)| < U32_LIMIT
  }

  // ---------------------------------------------------------------- the payload

  function RecordOp(k: RecordKey, slot: Option<Blob>): Wal.WalOp {
    if slot.Some? then Wal.Put(k.id, k.key, slot.value) else Wal.Delete(k.id, k.key)
  }

  function EntryOp(k: Key, flag: bool): Wal.WalOp {
    if flag then Wal.IndexPut(k.id, k.key, k.pkey) else Wal.IndexDelete(k.id, k.key, k.pkey)
  }

  function RecordOps(keys: seq<RecordKey>, p: Slots): seq<Wal.WalOp>
    requires forall k | k in keys :: k in p
  {
    if keys == [] then []
    else
      [RecordOp(keys[0], p[keys[0]])] + RecordOps(keys[1..], p)
  }

  function EntryOps(keys: seq<Key>, p: Flags): seq<Wal.WalOp>
    requires forall k | k in keys :: k in p
  {
    if keys == [] then []
    else
      [EntryOp(keys[0], p[keys[0]])] + EntryOps(keys[1..], p)
  }

  function KeyGenOps(stores: seq<u64>, g: map<u64, u64>): seq<Wal.WalOp>
    requires forall s | s in stores :: s in g
  {
    if stores == [] then []
    else [Wal.KeyGenSet(stores[0], g[stores[0]])] + KeyGenOps(stores[1..], g)
  }

  function MetaOps(meta: DatabaseMeta, dirty: bool): seq<Wal.WalOp>
    requires Encodable(meta)
  {
    if dirty then [Wal.MetaReplace(MetaBytes(meta))] else []
  }

  ghost function PayloadOps(o: Order, p: Pending, meta: DatabaseMeta, dirty: bool): seq<Wal.WalOp>
    requires Walks(o, p) && Encodable(meta)
  {
    RecordOps(o.records, p.records) + (EntryOps(o.entries, p.index) + (KeyGenOps(o.keyGens, p.keyGens) + MetaOps(meta, dirty)))
  }

  /** Every operation the pending changes call for fits a frame of its own. */
  ghost predicate PayloadFits(p: Pending, meta: DatabaseMeta, dirty: bool, max: nat)
    requires Encodable(meta)
  {
    && (forall k | k in p.records :: FitsAlone(RecordOp(k, p.records[k]), max))
    && (forall k | k in p.index :: FitsAlone(EntryOp(k, p.index[k]), max))
    && (forall s | s in p.keyGens :: FitsAlone(Wal.KeyGenSet(s, p.keyGens[s]), max))
    && (dirty ==> FitsAlone(Wal.MetaReplace(MetaBytes(meta)), max))
  }

  lemma {:induction false} RecordOpsAre(keys: seq<RecordKey>, p: Slots, max: nat)
    requires forall k | k in keys :: k in p
    ensures (forall op | op in RecordOps(keys, p) :: FitsAlone(op, max)) <==>
            (forall k | k in keys :: FitsAlone(RecordOp(k, p[k]), max))
  {
    hide FitsAlone, RecordOp;
    if keys != [] {
      RecordOpsAre(keys[1..], p, max);
      assert keys[0] in keys && RecordOps(keys, p)[0] in RecordOps(keys, p);
    }
  }

  lemma {:induction false} EntryOpsAre(keys: seq<Key>, p: Flags, max: nat)
    requires forall k | k in keys :: k in p
    ensures (forall op | op in EntryOps(keys, p) :: FitsAlone(op, max)) <==>
            (forall k | k in keys :: FitsAlone(EntryOp(k, p[k]), max))
  {
    hide FitsAlone, EntryOp;
    if keys != [] {
      EntryOpsAre(keys[1..], p, max);
      assert keys[0] in keys && EntryOps(keys, p)[0] in EntryOps(keys, p);
    }
  }

  lemma {:induction false} KeyGenOpsAre(keys: seq<u64>, g: map<u64, u64>, max: nat)
    requires forall k | k in keys :: k in g
    ensures (forall op | op in KeyGenOps(keys, g) :: FitsAlone(op, max)) <==>
            (forall k | k in keys :: FitsAlone(Wal.KeyGenSet(k, g[k]), max))
  {
    hide FitsAlone;
    if keys != [] {
      KeyGenOpsAre(keys[1..], g, max);
      assert keys[0] in keys && KeyGenOps(keys, g)[0] in KeyGenOps(keys, g);
    }
  }

  /** In whatever order it is walked, the payload fits frames exactly when the pending changes do. */
  lemma PayloadFitsMeans(o: Order, p: Pending, meta: DatabaseMeta, dirty: bool, max: nat)
    requires Walks(o, p) && Encodable(meta)
    ensures (forall op | op in PayloadOps(o, p, meta, dirty) :: FitsAlone(op, max)) <==> PayloadFits(p, meta, dirty, max)
  {
    hide FitsAlone, RecordOps, EntryOps, KeyGenOps, RecordOp, EntryOp, MetaBytes, Encodable;
    RecordOpsAre(o.records, p.records, max);
    EntryOpsAre(o.entries, p.index, max);
    KeyGenOpsAre(o.keyGens, p.keyGens, max);
    var a, b, c, d := RecordOps(o.records, p.records), EntryOps(o.entries, p.index), KeyGenOps(o.keyGens, p.keyGens), MetaOps(meta, dirty);
    assert forall op :: op in PayloadOps(o, p, meta, dirty) <==> op in a || op in b || op in c || op in d;
    EncodableIsShort(meta);
    assert dirty ==> Wal.MetaReplace(MetaBytes(meta)) in d;
  }

  // ---------------------------------------------------------------- the commit in memory

  /** The database a transaction's reads were about, made real. */
  function Merged(v: DbVal, p: Pending, meta: DatabaseMeta, next: u64): DbVal {
    DbVal(Some(meta), MergedRecords(v.records, p.records), MergedIndex(v.index, p.index), v.keyGens + p.keyGens, next)
  }

  /** Uniqueness of an index survives the commit, and so does the key count the quota was checked on. */
  lemma MergedKeeps(v: DbVal, p: Pending, meta: DatabaseMeta, next: u64, index: u64)
    ensures var w := Merged(v, p, meta, next);
            && (UniqueIndex(map[], w.index, index) <==> UniqueIndex(p.index, v.index, index))
            && |w.records| == |EffectiveKeys(p.records, v.records)|
  {
    MergedKeys(v.records, p.records);
    hide EffectiveKeys, MergedRecords;
    var w := Merged(v, p, meta, next);
    assert forall k :: HasEntry(map[], w.index, k) <==> HasEntry(p.index, v.index, k);
  }

  lemma MergedKeys(c: map<RecordKey, Blob>, p: Slots)
    ensures |MergedRecords(c, p)| == |EffectiveKeys(p, c)|
  {
    assert MergedRecords(c, p).Keys == EffectiveKeys(p, c);
  }

  // ---------------------------------------------------------------- commit and replay commute

  /** Some of the pending records applied. */
  function RecordsAfter(c: map<RecordKey, Blob>, keys: seq<RecordKey>, p: Slots): map<RecordKey, Blob>
    requires forall k | k in keys :: k in p
  {
    map k: RecordKey | k in c.Keys + p.Keys && (if k in keys then p[k].Some? else k in c) ::
      if k in keys then p[k].value else c[k]
  }

  function IndexAfter(c: set<Key>, keys: seq<Key>, p: Flags): set<Key>
    requires forall k | k in keys :: k in p
  {
    set k | k in c + p.Keys && (if k in keys then p[k] else k in c)
  }

  function KeyGensAfter(c: map<u64, u64>, keys: seq<u64>, g: map<u64, u64>): map<u64, u64>
    requires forall k | k in keys :: k in g
  {
    map k | k in c.Keys + g.Keys && (k in keys || k in c) :: if k in keys then g[k] else c[k]
  }

  lemma RecordsAfterOne(c: map<RecordKey, Blob>, keys: seq<RecordKey>, p: Slots)
    requires keys != [] && forall k | k in keys :: k in p
    ensures var k := keys[0];
            k in keys &&
            RecordsAfter(if p[k].Some? then c[k := p[k].value] else c - {k}, keys[1..], p) == RecordsAfter(c, keys, p)
  {
    var k := keys[0];
    assert k in keys;
    var c' := if p[k].Some? then c[k := p[k].value] else c - {k};
    var a, b := RecordsAfter(c', keys[1..], p), RecordsAfter(c, keys, p);
    forall x: RecordKey ensures (x in a <==> x in b) && (x in a ==> a[x] == b[x]) {
      RecordsAfterAt(c', keys[1..], p, x);
      RecordsAfterAt(c, keys, p, x);
      assert x in keys <==> x == k || x in keys[1..];
    }
    hide RecordsAfter;
    assert a == b;
  }

  lemma RecordsAfterAt(c: map<RecordKey, Blob>, keys: seq<RecordKey>, p: Slots, x: RecordKey)
    requires forall k | k in keys :: k in p
    ensures var a := RecordsAfter(c, keys, p);
            && (x in a <==> if x in keys then p[x].Some? else x in c)
            && (x in a ==> a[x] == if x in keys then p[x].value else c[x])
  {
  }

  lemma {:induction false} ReplayRecords(v: DbVal, keys: seq<RecordKey>, p: Slots)
    requires forall k | k in keys :: k in p
    ensures ApplyOps(v, RecordOps(keys, p)) == Some(v.(records := RecordsAfter(v.records, keys, p)))
    decreases |keys|
  {
    if keys == [] {
      assert RecordsAfter(v.records, keys, p) == v.records;
    } else {
      hide RecordsAfter;
      var k := keys[0];
      RecordsAfterOne(v.records, keys, p);
      assert k == RecKey(k.id, k.key);
      var c := if p[k].Some? then v.records[k := p[k].value] else v.records - {k};
      ReplayRecords(v.(records := c), keys[1..], p);
      assert RecordOps(keys, p)[1..] == RecordOps(keys[1..], p);
    }
  }

  lemma {:induction false} ReplayEntries(v: DbVal, keys: seq<Key>, p: Flags)
    requires forall k | k in keys :: k in p
    ensures ApplyOps(v, EntryOps(keys, p)) == Some(v.(index := IndexAfter(v.index, keys, p)))
    decreases |keys|
  {
    if keys == [] {
      assert IndexAfter(v.index, keys, p) == v.index;
    } else {
      var k := keys[0];
      assert k in keys;
      var c := if p[k] then v.index + {k} else v.index - {k};
      ReplayEntries(v.(index := c), keys[1..], p);
      assert IndexAfter(c, keys[1..], p) == IndexAfter(v.index, keys, p);
      assert EntryOps(keys, p)[1..] == EntryOps(keys[1..], p);
    }
  }

  lemma KeyGensAfterOne(c: map<u64, u64>, keys: seq<u64>, g: map<u64, u64>)
    requires keys != [] && forall k | k in keys :: k in g
    ensures keys[0] in g && KeyGensAfter(c[keys[0] := g[keys[0]]], keys[1..], g) == KeyGensAfter(c, keys, g)
  {
    var k := keys[0];
    assert k in keys;
    var a, b := KeyGensAfter(c[k := g[k]], keys[1..], g), KeyGensAfter(c, keys, g);
    forall x ensures (x in a <==> x in b) && (x in a ==> a[x] == b[x]) {
      assert x in keys <==> x == k || x in keys[1..];
    }
    assert a == b;
  }

  lemma {:induction false} ReplayKeyGens(v: DbVal, keys: seq<u64>, g: map<u64, u64>)
    requires forall k | k in keys :: k in g
    ensures var w := ApplyOps(v, KeyGenOps(keys, g));
            && w.Some? && w.value.(meta := v.meta) == v.(keyGens := KeyGensAfter(v.keyGens, keys, g))
            && (keys == [] ==> w.value == v)
    decreases |keys|
  {
    hide WithKeyGen;
    if keys == [] {
      assert KeyGensAfter(v.keyGens, keys, g) == v.keyGens;
    } else {
      hide KeyGensAfter;
      KeyGensAfterOne(v.keyGens, keys, g);
      var w := ApplyOp(v, KeyGenOps(keys, g)[0]).value;
      ReplayKeyGens(w, keys[1..], g);
      assert KeyGenOps(keys, g)[1..] == KeyGenOps(keys[1..], g);
    }
  }

  lemma ReplayMeta(v: DbVal, meta: DatabaseMeta, dirty: bool)
    requires Encodable(meta)
    ensures ApplyOps(v, MetaOps(meta, dirty)) == Some(if dirty then v.(meta := Some(meta)) else v)
  {
    hide MetaBytes, ParseMeta, MetaFits;
    MetaRoundTrip(meta);
    var ops := MetaOps(meta, dirty);
    if dirty {
      assert ops[1..] == [];
      assert ApplyOps(v.(meta := Some(meta)), []) == Some(v.(meta := Some(meta)));
    }
  }

  lemma WholeWalk(o: Order, p: Pending, v: DbVal)
    requires Walks(o, p)
    ensures RecordsAfter(v.records, o.records, p.records) == MergedRecords(v.records, p.records)
    ensures IndexAfter(v.index, o.entries, p.index) == MergedIndex(v.index, p.index)
    ensures KeyGensAfter(v.keyGens, o.keyGens, p.keyGens) == v.keyGens + p.keyGens
    ensures p.keyGens == map[] ==> o.keyGens == []
  {
    if o.keyGens != [] {
      assert o.keyGens[0] in o.keyGens;
    }
  }

  /** Applying a commit's payload to the database it was built over gives what the commit makes of it in
      memory: records, entries, key generators and metadata. */
  lemma PayloadReplays(v: DbVal, o: Order, p: Pending, base: DatabaseMeta, schemaDirty: bool)
    requires Walks(o, p) && Encodable(PatchedMeta(base, p.keyGens))
    requires !schemaDirty ==> v.meta == Some(base)
    ensures var meta := PatchedMeta(base, p.keyGens);
            ApplyOps(v, PayloadOps(o, p, meta, schemaDirty || p.keyGens != map[])) == Some(Merged(v, p, meta, v.nextTxnSeq))
  {
    hide ApplyOps, RecordsAfter, IndexAfter, KeyGensAfter, MergedRecords, MergedIndex, Encodable, Patched;
    var meta, dirty := PatchedMeta(base, p.keyGens), schemaDirty || p.keyGens != map[];
    WholeWalk(o, p, v);
    var a, b, c, d := RecordOps(o.records, p.records), EntryOps(o.entries, p.index),
                      KeyGenOps(o.keyGens, p.keyGens), MetaOps(meta, dirty);
    var v1 := v.(records := MergedRecords(v.records, p.records));
    var v2 := v1.(index := MergedIndex(v.index, p.index));
    ReplayRecords(v, o.records, p.records);
    ApplyOpsAppend(v, a, b + (c + d));
    ReplayEntries(v1, o.entries, p.index);
    ApplyOpsAppend(v1, b, c + d);
    WholeWalk(o, p, v2);
    ReplayKeyGens(v2, o.keyGens, p.keyGens);
    ApplyOpsAppend(v2, c, d);
    var v3 := ApplyOps(v2, c).value;
    ReplayMeta(v3, meta, dirty);
    if !dirty {
      PatchNothing(base.stores, {});
    }
  }

  /** Commit and replay commute: reading the commit's frames back onto the database gives the state the
      commit leaves in memory, sequence counter included, however the packer split the payload. */
  lemma CommitReplays(v: DbVal, o: Order, p: Pending, base: DatabaseMeta, schemaDirty: bool, max: nat)
    requires Walks(o, p) && Encodable(PatchedMeta(base, p.keyGens)) && max <= Wal.MAX_FRAME_PAYLOAD
    requires !schemaDirty ==> v.meta == Some(base)
    requires var ops := PayloadOps(o, p, PatchedMeta(base, p.keyGens), schemaDirty || p.keyGens != map[]);
             ops != [] && forall op | op in ops :: FitsAlone(op, max)
    ensures var meta := PatchedMeta(base, p.keyGens);
            var ops := PayloadOps(o, p, meta, schemaDirty || p.keyGens != map[]);
            ApplyFrames(v, TxnFrames(v.nextTxnSeq, ops, max)) == Some(Merged(v, p, meta, SaturatingInc(v.nextTxnSeq)))
  {
    hide PayloadOps, ApplyOps, ApplyFrames, FitsAlone, TxnFrames, Encodable, PatchedMeta, MergedRecords, MergedIndex;
    var meta := PatchedMeta(base, p.keyGens);
    var ops := PayloadOps(o, p, meta, schemaDirty || p.keyGens != map[]);
    var fs := TxnFrames(v.nextTxnSeq, ops, max);
    TxnFramesAreATxn(v.nextTxnSeq, ops, max);
    FramesAreTheirOps(v, fs, v.nextTxnSeq);
    PayloadReplays(v, o, p, base, schemaDirty);
  }

  // ---------------------------------------------------------------- the loops

  lemma {:induction false} RecordOpsSnoc(keys: seq<RecordKey>, p: Slots, k: RecordKey)
    requires k in p && forall x | x in keys :: x in p
    ensures RecordOps(keys + [k], p) == RecordOps(keys, p) + RecordOps([k], p)
  {
    if keys != [] {
      assert (keys + [k])[1..] == keys[1..] + [k];
      RecordOpsSnoc(keys[1..], p, k);
    } else {
      assert keys + [k] == [k];
    }
  }

  lemma {:induction false} EntryOpsSnoc(keys: seq<Key>, p: Flags, k: Key)
    requires k in p && forall x | x in keys :: x in p
    ensures EntryOps(keys + [k], p) == EntryOps(keys, p) + EntryOps([k], p)
  {
    if keys != [] {
      assert (keys + [k])[1..] == keys[1..] + [k];
      EntryOpsSnoc(keys[1..], p, k);
    } else {
      assert keys + [k] == [k];
    }
  }

  lemma {:induction false} KeyGenOpsSnoc(keys: seq<u64>, g: map<u64, u64>, k: u64)
    requires k in g && forall x | x in keys :: x in g
    ensures KeyGenOps(keys + [k], g) == KeyGenOps(keys, g) + KeyGenOps([k], g)
  {
    if keys != [] {
      assert (keys + [k])[1..] == keys[1..] + [k];
      KeyGenOpsSnoc(keys[1..], g, k);
    } else {
      assert keys + [k] == [k];
    }
  }

  method BuildRecordOps(p: Slots) returns (ops: seq<Wal.WalOp>, ghost keys: seq<RecordKey>)
    ensures forall k :: k in keys <==> k in p
    ensures ops == RecordOps(keys, p) && |ops| == |p|
  {
    var order := Segment.SortedRecords(p.Keys);
    ops := [];
    for i := 0 to |order|
      invariant forall k | k in order[..i] :: k in p
      invariant ops == RecordOps(order[..i], p) && |ops| == i
    {
      var k := order[i];
      assert k in order;
      assert order[..i + 1] == order[..i] + [k];
      RecordOpsSnoc(order[..i], p, k);
      ops := ops + [RecordOp(k, p[k])];
    }
    assert order[..|order|] == order;
    keys := order;
  }

  method BuildEntryOps(p: Flags) returns (ops: seq<Wal.WalOp>, ghost keys: seq<Key>)
    ensures forall k :: k in keys <==> k in p
    ensures ops == EntryOps(keys, p) && |ops| == |p|
  {
    hide Sorted, InOrder;
    var order := Sorted(false, p.Keys);
    SortedLists(false, p.Keys);
    ops := [];
    for i := 0 to |order|
      invariant forall k | k in order[..i] :: k in p
      invariant ops == EntryOps(order[..i], p) && |ops| == i
    {
      var k := order[i];
      assert k in order;
      assert order[..i + 1] == order[..i] + [k];
      EntryOpsSnoc(order[..i], p, k);
      ops := ops + [EntryOp(k, p[k])];
    }
    assert order[..|order|] == order;
    keys := order;
  }

  /** The key generator operations and the patched metadata, walking the generators in any order. */
  method BuildKeyGenOps(g: map<u64, u64>, m: DatabaseMeta)
    returns (ops: seq<Wal.WalOp>, meta: DatabaseMeta, ghost keys: seq<u64>)
    ensures forall k :: k in keys <==> k in g
    ensures ops == KeyGenOps(keys, g) && meta == PatchedMeta(m, g) && |ops| == |g|
  {
    ops, meta, keys := [], m, [];
    var left := g.Keys;
    ghost var done: map<u64, u64> := map[];
    PatchNothing(m.stores, {});
    while left != {}
      invariant left <= g.Keys && done == g - left
      invariant forall k :: k in keys <==> k in done
      invariant ops == KeyGenOps(keys, g) && meta == PatchedMeta(m, done) && |ops| == |g| - |left|
      decreases left
    {
      hide KeyGenOps, Patched, WithKeyGen;
      var store :| store in left;
      TakeOne(g, left, store);
      PatchOne(m.stores, done, {}, store, g[store]);
      KeyGenOpsSnoc(keys, g, store);
      LoneKeyGenOp(store, g);
      ops := ops + [Wal.KeyGenSet(store, g[store])];
      meta := MetaWithKeyGen(meta, store, g[store]);
      left, keys, done := left - {store}, keys + [store], done[store := g[store]];
    }
    assert done == g;
  }

  /** A map without some of its keys, and one key less without. */
  lemma TakeOne(g: map<u64, u64>, left: set<u64>, k: u64)
    requires k in left && left <= g.Keys
    ensures k in g && k !in g - left && (g - left)[k := g[k]] == g - (left - {k}) && |left - {k}| == |left| - 1
  {
  }

  lemma LoneKeyGenOp(store: u64, g: map<u64, u64>)
    requires store in g
    ensures KeyGenOps([store], g) == [Wal.KeyGenSet(store, g[store])]
  {
  }

  /** `build_commit_payload`. */
  method BuildCommitPayload(t: Txn.FsTxn) returns (ops: seq<Wal.WalOp>, meta: DatabaseMeta, dirty: bool, ghost o: Order)
    requires Encodable(PatchedMeta(t.meta, t.pendingKeyGens))
    ensures Walks(o, PendingOf(t)) && meta == PatchedMeta(t.meta, t.pendingKeyGens)
    ensures dirty == (t.schemaDirty || t.pendingKeyGens != map[])
    ensures ops == PayloadOps(o, PendingOf(t), meta, dirty)
    ensures |ops| == PendingOf(t).Size() + if dirty then 1 else 0
  {
    hide RecordOps, EntryOps, KeyGenOps, PatchedMeta, Encodable, MetaBytes;
    var records, rk := BuildRecordOps(t.pendingRecords);
    var entries, ek := BuildEntryOps(t.pendingIndex);
    var gens, patched, gk := BuildKeyGenOps(t.pendingKeyGens, t.meta);
    meta, o := patched, Order(rk, ek, gk);
    dirty := t.schemaDirty || t.pendingKeyGens != map[];
    var tail: seq<Wal.WalOp> := [];
    if dirty {
      EncodableIsShort(meta);
      var bytes := EncodeMeta(meta);
      tail := [Wal.MetaReplace(bytes)];
    }
    ops := JoinedOps(records, entries, gens, tail);
  }

  function JoinedOps(a: seq<Wal.WalOp>, b: seq<Wal.WalOp>, c: seq<Wal.WalOp>, d: seq<Wal.WalOp>): (r: seq<Wal.WalOp>)
    ensures r == a + (b + (c + d)) && |r| == |a| + |b| + |c| + |d|
  {
    a + b + c + d
  }

  lemma EncodableIsShort(m: DatabaseMeta)
    requires Encodable(m)
    ensures |MetaBytes(m)| < U32_LIMIT
  {
  }

  /** `apply_pending_to_state`, in place. */
  method ApplyPendingToState(s: DbState, p: Pending, meta: DatabaseMeta, txnSeq: u64, bumpSeq: bool)
    modifies s
    ensures s.KeepsFiles()
    ensures s.Val() == Merged(old(s.Val()), p, meta, if bumpSeq then SaturatingInc(txnSeq) else old(s.nextTxnSeq))
  {
    hide MergedRecords, MergedIndex;
    if bumpSeq {
      s.nextTxnSeq := SaturatingInc(txnSeq);
    }
    ApplyPendingRecords(s, p.records);
    ApplyPendingIndex(s, p.index);
    s.keyGens := s.keyGens + p.keyGens;
    s.meta := Some(meta);
  }

  method ApplyPendingRecords(s: DbState, p: Slots)
    modifies s`records
    ensures s.records == MergedRecords(old(s.records), p)
  {
    var left := p.Keys;
    ghost var done: Slots := map[];
    MergedNothing(s.records, s.index);
    while left != {}
      invariant left <= p.Keys && done == p - left
      invariant s.records == MergedRecords(old(s.records), done)
      decreases left
    {
      hide MergedRecords;
      var k :| k in left;
      MergedOneRecord(old(s.records), done, k, p[k]);
      s.records := if p[k].Some? then s.records[k := p[k].value] else s.records - {k};
      left, done := left - {k}, done[k := p[k]];
    }
    assert done == p;
  }

  method ApplyPendingIndex(s: DbState, p: Flags)
    modifies s`index
    ensures s.index == MergedIndex(old(s.index), p)
  {
    var left := p.Keys;
    ghost var done: Flags := map[];
    MergedNothing(s.records, s.index);
    while left != {}
      invariant left <= p.Keys && done == p - left
      invariant s.index == MergedIndex(old(s.index), done)
      decreases left
    {
      hide MergedIndex;
      var k :| k in left;
      MergedOneEntry(old(s.index), done, k, p[k]);
      s.index := if p[k] then s.index + {k} else s.index - {k};
      left, done := left - {k}, done[k := p[k]];
    }
    assert done == p;
  }
}
