/** Immutable segments: a full snapshot of the database behind a checksum. */
module Segment {
  import opened Bytes
  import opened Codec
  import opened Keys
  import opened Meta
  import opened State

  /** `ISEG`, little-endian. */
  const SEG_MAGIC: u32 := 0x4745_5349
  const SEG_VERSION: u32 := 1

  // ---------------------------------------------------------------- maps as item lists

  /** The map a decoder fills from a list of items: a later item replaces an earlier one. */
  function FromItems<K, V>(items: seq<(K, V)>): map<K, V> {
    if items == [] then map[]
    else FromItems(items[..|items| - 1])[items[|items| - 1].0 := items[|items| - 1].1]
  }

  function ItemsOf<K, V>(keys: seq<K>, m: map<K, V>): (items: seq<(K, V)>)
    requires forall k :: k in keys ==> k in m
  {
    seq(|keys|, i requires 0 <= i < |keys| => assert keys[i] in keys; (keys[i], m[keys[i]]))
  }

  lemma NoItems<K, V>()
    ensures FromItems<K, V>([]) == map[]
  {
  }

  lemma OneMoreItem<K, V>(items: seq<(K, V)>, x: (K, V))
    ensures FromItems(items + [x]) == FromItems(items)[x.0 := x.1]
  {
    assert (items + [x])[..|items|] == items;
  }

  /** A listing of all keys, in any order, rebuilds the map. */
  lemma ItemsRebuild<K, V>(keys: seq<K>, m: map<K, V>)
    requires forall k :: k in keys <==> k in m
    ensures FromItems(ItemsOf(keys, m)) == m
  {
    var items := ItemsOf(keys, m);
    ItemsAgree(items, m);
    forall k | k in m ensures k in FromItems(items) {
      var i :| 0 <= i < |keys| && keys[i] == k;
      ItemIsKept(items, i);
    }
  }

  lemma {:induction false} ItemsAgree<K, V>(items: seq<(K, V)>, m: map<K, V>)
    requires forall i | 0 <= i < |items| :: items[i].0 in m && m[items[i].0] == items[i].1
    ensures forall k | k in FromItems(items) :: k in m && m[k] == FromItems(items)[k]
  {
    if items != [] {
      ItemsAgree(items[..|items| - 1], m);
    }
  }

  lemma {:induction false} ItemIsKept<K, V>(items: seq<(K, V)>, i: nat)
    requires i < |items|
    ensures items[i].0 in FromItems(items)
  {
    if i < |items| - 1 {
      ItemIsKept(items[..|items| - 1], i);
    }
  }

  // ---------------------------------------------------------------- items

  type RecordItem = (RecordKey, Blob)
  type KeyGenItem = (u64, u64)

  function RecordBytes(x: RecordItem): seq<byte> {
    LeBytes(x.0.id, 8) + (Bytes32(x.0.key) + Bytes32(x.1))
  }

  function ParseRecord(s: seq<byte>): Parsed<RecordItem> {
    var (store, r) :- ParseU64(s);
    var (key, r) :- ParseBytes32(r);
    var (value, r) :- ParseBytes32(r);
    Done((RecKey(store, key), value), r)
  }

  function EntryBytes(k: Key): seq<byte> {
    LeBytes(k.id, 8) + (Bytes32(k.key) + Bytes32(k.pkey))
  }

  function ParseEntry(s: seq<byte>): Parsed<Key> {
    var (index, r) :- ParseU64(s);
    var (key, r) :- ParseBytes32(r);
    var (pkey, r) :- ParseBytes32(r);
    Done(Key(index, key, pkey), r)
  }

  function KeyGenBytes(x: KeyGenItem): seq<byte> {
    LeBytes(x.0, 8) + LeBytes(x.1, 8)
  }

  function ParseKeyGenItem(s: seq<byte>): Parsed<KeyGenItem> {
    var (store, r) :- ParseU64(s);
    var (bits, r) :- ParseU64(r);
    Done((store, bits), r)
  }

  lemma IdAndTwoInvert(id: u64, a: Blob, b: Blob, rest: seq<byte>)
    requires |a| < U32_LIMIT && |b| < U32_LIMIT
    ensures ParseU64(LeBytes(id, 8) + (Bytes32(a) + Bytes32(b)) + rest) == Done(id, Bytes32(a) + (Bytes32(b) + rest))
    ensures ParseBytes32(Bytes32(a) + (Bytes32(b) + rest)) == Done(a, Bytes32(b) + rest)
    ensures ParseBytes32(Bytes32(b) + rest) == Done(b, rest)
  {
    hide LeBytes, ParseU64, ParseBytes32, Bytes32;
    Assoc(LeBytes(id, 8), Bytes32(a) + Bytes32(b), rest);
    Assoc(Bytes32(a), Bytes32(b), rest);
    ParseWords(id, Bytes32(a) + (Bytes32(b) + rest));
    ParseBytes32Inverts(a, Bytes32(b) + rest);
    ParseBytes32Inverts(b, rest);
  }

  lemma RecordInverts(x: RecordItem)
    requires |x.0.key| < U32_LIMIT && |x.1| < U32_LIMIT
    ensures Inverts(RecordBytes, ParseRecord, x)
  {
    hide LeBytes, ParseU64, ParseBytes32, Bytes32;
    forall r: seq<byte> ensures ParseRecord(RecordBytes(x) + r) == Done(x, r) {
      IdAndTwoInvert(x.0.id, x.0.key, x.1, r);
    }
  }

  lemma EntryInverts(k: Key)
    requires |k.key| < U32_LIMIT && |k.pkey| < U32_LIMIT
    ensures Inverts(EntryBytes, ParseEntry, k)
  {
    hide LeBytes, ParseU64, ParseBytes32, Bytes32;
    forall r: seq<byte> ensures ParseEntry(EntryBytes(k) + r) == Done(k, r) {
      IdAndTwoInvert(k.id, k.key, k.pkey, r);
    }
  }

  lemma KeyGenItemInverts(x: KeyGenItem)
    ensures Inverts(KeyGenBytes, ParseKeyGenItem, x)
  {
    hide LeBytes, ParseU64;
    forall r: seq<byte> ensures ParseKeyGenItem(KeyGenBytes(x) + r) == Done(x, r) {
      Assoc(LeBytes(x.0, 8), LeBytes(x.1, 8), r);
      ParseWords(x.0, LeBytes(x.1, 8) + r);
      ParseWords(x.1, r);
    }
  }

  // ---------------------------------------------------------------- bodies

  /** The lists a segment is written from: maps in key order, key generators in any order. */
  datatype Lists = Lists(records: seq<RecordItem>, entries: seq<Key>, keyGens: seq<KeyGenItem>)

  ghost predicate ListsOf(l: Lists, v: DbVal) {
    && FromItems(l.records) == v.records && (forall k :: k in l.entries <==> k in v.index)
    && FromItems(l.keyGens) == v.keyGens
  }

  function TailBytes(l: Lists): seq<byte> {
    CountBytes(|l.records|) + Concat(RecordBytes, l.records) +
    (CountBytes(|l.entries|) + Concat(EntryBytes, l.entries) +
     (CountBytes(|l.keyGens|) + Concat(KeyGenBytes, l.keyGens)))
  }

  function BodyBytes(seqNo: u64, nextTxnSeq: u64, meta: seq<byte>, l: Lists): seq<byte> {
    LeBytes(SEG_MAGIC, 4) + (LeBytes(SEG_VERSION, 4) + (LeBytes(seqNo, 8) + (LeBytes(nextTxnSeq, 8) +
    (Bytes32(meta) + TailBytes(l)))))
  }

  function ParseTail(s: seq<byte>): Parsed<Lists> {
    var (records, r) :- ParseList(ParseRecord, s);
    var (entries, r) :- ParseList(ParseEntry, r);
    var (keyGens, r) :- ParseList(ParseKeyGenItem, r);
    if r != [] then Fail("trailing segment bytes") else Done(Lists(records, entries, keyGens), r)
  }

  function SetOf(s: seq<Key>): set<Key> {
    set k | k in s
  }

  function ParseContent(s: seq<byte>): Parsed<(u64, DbVal)> {
    var (seqNo, r) :- ParseU64(s);
    var (nextTxnSeq, r) :- ParseU64(r);
    var (metaBytes, r) :- ParseBytes32(r);
    var (meta, _) :- ParseMeta(metaBytes);
    var (l, r) :- ParseTail(r);
    Done((seqNo, DbVal(Some(meta), FromItems(l.records), SetOf(l.entries), FromItems(l.keyGens), nextTxnSeq)), r)
  }

  function ParseSegmentBody(s: seq<byte>): Parsed<(u64, DbVal)> {
    var (magic, r) :- ParseU32(s);
    if magic != SEG_MAGIC then Fail("bad segment magic")
    else
      var (version, r) :- ParseU32(r);
      if version != SEG_VERSION then Fail("unsupported segment version") else ParseContent(r)
  }

  /** `decode_segment`: the segment's number and the whole content it replaces the state with. */
  function ParseSegment(s: seq<byte>): Parsed<(u64, DbVal)> {
    var (body, _) :- Unseal(s, 28);
    ParseSegmentBody(body)
  }

  /** A segment is read only with its checksum, magic number and version in place, and gives its own number. */
  lemma SegmentIsMarked(s: seq<byte>)
    ensures ParseSegment(s).Done? ==>
      && |s| >= 32 && U32At(s[|s| - 4..]) == Crc32c(s[..|s| - 4])
      && U32At(s[..4]) == SEG_MAGIC && U32At(s[4..8]) == SEG_VERSION
      && ParseSegment(s).value.0 == U64At(s[8..16]) && ParseSegment(s).value.1.nextTxnSeq == U64At(s[16..24])
  {
    hide U32At, U64At, Crc32c, ParseTail, ParseMeta, ParseBytes32, FromItems;
    if ParseSegment(s).Done? {
      var body := s[..|s| - 4];
      assert body[..4] == s[..4];
      SplitPrefix(body, 4, 4);
      SplitPrefix(body, 8, 8);
      FieldAt(s, |s| - 4, 4, 4);
      FieldAt(s, |s| - 4, 8, 8);
      FieldAt(s, |s| - 4, 16, 8);
    }
  }

  /** Nothing may stand behind a segment's lists. */
  lemma TailIsExact(l: Lists, rest: seq<byte>)
    requires ListsFit(l)
    ensures ParseTail(TailBytes(l) + rest).Done? <==> rest == []
  {
    forall x | x in l.records ensures Inverts(RecordBytes, ParseRecord, x) { RecordInverts(x); }
    forall k | k in l.entries ensures Inverts(EntryBytes, ParseEntry, k) { EntryInverts(k); }
    forall x | x in l.keyGens ensures Inverts(KeyGenBytes, ParseKeyGenItem, x) { KeyGenItemInverts(x); }
    hide CountBytes, Concat, ParseList, Inverts, RecordBytes, EntryBytes, KeyGenBytes;
    var a := CountBytes(|l.records|) + Concat(RecordBytes, l.records);
    var b := CountBytes(|l.entries|) + Concat(EntryBytes, l.entries);
    var c := CountBytes(|l.keyGens|) + Concat(KeyGenBytes, l.keyGens);
    Assoc(a, b + c, rest);
    Assoc(b, c, rest);
    ListInverts(RecordBytes, ParseRecord, l.records, b + (c + rest));
    ListInverts(EntryBytes, ParseEntry, l.entries, c + rest);
    ListInverts(KeyGenBytes, ParseKeyGenItem, l.keyGens, rest);
  }

  /** Every length and count fits the 32-bit field it is written to. */
  predicate ValFits(v: DbVal) {
    && v.meta.Some? && MetaFits(v.meta.value) && |MetaBytes(v.meta.value)| < U32_LIMIT
    && |v.records| < U32_LIMIT && |v.index| < U32_LIMIT && |v.keyGens| < U32_LIMIT
    && (forall k | k in v.records :: |k.key| < U32_LIMIT && |v.records[k]| < U32_LIMIT)
    && (forall k | k in v.index :: |k.key| < U32_LIMIT && |k.pkey| < U32_LIMIT)
  }

  predicate ListsFit(l: Lists) {
    && |l.records| < U32_LIMIT && |l.entries| < U32_LIMIT && |l.keyGens| < U32_LIMIT
    && (forall x | x in l.records :: |x.0.key| < U32_LIMIT && |x.1| < U32_LIMIT)
    && (forall k | k in l.entries :: |k.key| < U32_LIMIT && |k.pkey| < U32_LIMIT)
  }

  lemma TailInverts(l: Lists)
    requires ListsFit(l)
    ensures ParseTail(TailBytes(l)) == Done(l, [])
  {
    forall x | x in l.records ensures Inverts(RecordBytes, ParseRecord, x) { RecordInverts(x); }
    forall k | k in l.entries ensures Inverts(EntryBytes, ParseEntry, k) { EntryInverts(k); }
    forall x | x in l.keyGens ensures Inverts(KeyGenBytes, ParseKeyGenItem, x) { KeyGenItemInverts(x); }
    hide CountBytes, Concat, ParseList, Inverts;
    var c := CountBytes(|l.keyGens|) + Concat(KeyGenBytes, l.keyGens);
    var b := CountBytes(|l.entries|) + Concat(EntryBytes, l.entries);
    ListInverts(RecordBytes, ParseRecord, l.records, b + c);
    ListInverts(EntryBytes, ParseEntry, l.entries, c);
    ListInverts(KeyGenBytes, ParseKeyGenItem, l.keyGens, []);
    assert c + [] == c;
  }

  lemma BodyInverts(seqNo: u64, v: DbVal, l: Lists)
    requires v.meta.Some? && MetaFits(v.meta.value) && |MetaBytes(v.meta.value)| < U32_LIMIT
    requires ListsFit(l) && ListsOf(l, v)
    ensures ParseSegmentBody(BodyBytes(seqNo, v.nextTxnSeq, MetaBytes(v.meta.value), l)) == Done((seqNo, v), [])
  {
    var meta := MetaBytes(v.meta.value);
    MetaRoundTrip(v.meta.value);
    TailInverts(l);
    assert SetOf(l.entries) == v.index;
    hide LeBytes, ParseU32, ParseU64, ParseBytes32, Bytes32, ParseMeta, MetaBytes, ParseTail, TailBytes, FromItems;
    var g4 := Bytes32(meta) + TailBytes(l);
    var g3 := LeBytes(v.nextTxnSeq, 8) + g4;
    var g2 := LeBytes(seqNo, 8) + g3;
    ParseWords(SEG_MAGIC, LeBytes(SEG_VERSION, 4) + g2);
    ParseWords(SEG_VERSION, g2);
    ParseWords(seqNo, g3);
    ParseWords(v.nextTxnSeq, g4);
    ParseBytes32Inverts(meta, TailBytes(l));
  }

  /** Bytes a reader turns back into exactly this numbered snapshot. */
  ghost predicate Holds(bytes: seq<byte>, seqNo: u64, v: DbVal) {
    ParseSegment(bytes) == Done((seqNo, v), [])
  }

  lemma SegmentRoundTrip(seqNo: u64, v: DbVal, l: Lists)
    requires v.meta.Some? && MetaFits(v.meta.value) && |MetaBytes(v.meta.value)| < U32_LIMIT
    requires ListsFit(l) && ListsOf(l, v)
    ensures Holds(Sealed(BodyBytes(seqNo, v.nextTxnSeq, MetaBytes(v.meta.value), l)), seqNo, v)
  {
    hide MetaBytes, Sealed, Unseal, ParseSegmentBody, TailBytes, Bytes32, MetaFits, ListsFit, ListsOf;
    BodyInverts(seqNo, v, l);
    BodyLong(seqNo, v.nextTxnSeq, MetaBytes(v.meta.value), l);
    SealRoundTrip(BodyBytes(seqNo, v.nextTxnSeq, MetaBytes(v.meta.value), l), 28);
  }

  lemma BodyLong(seqNo: u64, nextTxnSeq: u64, meta: seq<byte>, l: Lists)
    ensures |BodyBytes(seqNo, nextTxnSeq, meta, l)| >= 28
  {
  }

  // ---------------------------------------------------------------- encoder and decoder

  method EncodeRecords(records: map<RecordKey, Blob>) returns (out: seq<byte>, ghost items: seq<RecordItem>)
    ensures out == CountBytes(|items|) + Concat(RecordBytes, items)
    ensures |items| == |records| && FromItems(items) == records
    ensures forall x | x in items :: x.0 in records && records[x.0] == x.1
  {
    hide SortedRecords, FromItems, LeBytes, Bytes32;
    var keys := SortedRecords(records.Keys);
    items := ItemsOf(keys, records);
    ItemsRebuild(keys, records);
    out := CountBytes(|keys|);
    for i := 0 to |keys|
      invariant out == CountBytes(|keys|) + Concat(RecordBytes, items[..i])
    {
      hide CountBytes, RecordBytes;
      assert keys[i] in keys;
      assert items[..i + 1] == items[..i] + [items[i]];
      ConcatAppend(RecordBytes, items[..i], [items[i]]);
      ConcatOne(RecordBytes, items[i]);
      out := out + RecordBytes((keys[i], records[keys[i]]));
    }
    assert items[..|keys|] == items;
  }

  /** Record keys in key order. */
  function SortedRecords(s: set<RecordKey>): (r: seq<RecordKey>)
    ensures |r| == |s| && forall k :: k in r <==> k in s
  {
    if s == {} then []
    else
      var k := Nearest(false, s);
      assert k in s;
      [k] + SortedRecords(s - {k})
  }

  method EncodeEntries(index: set<Key>) returns (out: seq<byte>, ghost items: seq<Key>)
    ensures out == CountBytes(|items|) + Concat(EntryBytes, items)
    ensures |items| == |index| && forall k :: k in items <==> k in index
  {
    hide Sorted, InOrder, LeBytes, Bytes32;
    var keys := Sorted(false, index);
    SortedLists(false, index);
    items := keys;
    out := CountBytes(|keys|);
    for i := 0 to |keys|
      invariant out == CountBytes(|keys|) + Concat(EntryBytes, keys[..i])
    {
      hide CountBytes, EntryBytes;
      assert keys[..i + 1] == keys[..i] + [keys[i]];
      ConcatAppend(EntryBytes, keys[..i], [keys[i]]);
      ConcatOne(EntryBytes, keys[i]);
      out := out + EntryBytes(keys[i]);
    }
    assert keys[..|keys|] == keys;
  }

  /** A hash map's key generators come out in no particular order. */
  method EncodeKeyGens(keyGens: map<u64, u64>) returns (out: seq<byte>, ghost items: seq<KeyGenItem>)
    ensures out == CountBytes(|items|) + Concat(KeyGenBytes, items)
    ensures |items| == |keyGens| && FromItems(items) == keyGens
  {
    out := CountBytes(|keyGens|);
    var left := keyGens.Keys;
    ghost var keys: seq<u64> := [];
    items := [];
    while left != {}
      invariant left <= keyGens.Keys && |keys| + |left| == |keyGens|
      invariant forall k :: k in keys <==> k in keyGens && k !in left
      invariant items == ItemsOf(keys, keyGens)
      invariant out == CountBytes(|keyGens|) + Concat(KeyGenBytes, items)
      decreases left
    {
      hide CountBytes, KeyGenBytes;
      var store :| store in left;
      left := left - {store};
      keys := keys + [store];
      ConcatAppend(KeyGenBytes, items, [(store, keyGens[store])]);
      ConcatOne(KeyGenBytes, (store, keyGens[store]));
      items := items + [(store, keyGens[store])];
      out := out + KeyGenBytes((store, keyGens[store]));
    }
    ItemsRebuild(keys, keyGens);
  }

  /** `encode_segment`: an error without metadata, otherwise bytes that read back as the snapshot. */
  method EncodeSegment(seqNo: u64, v: DbVal) returns (r: Option<seq<byte>>)
    ensures r.Some? <==> v.meta.Some?
    ensures ValFits(v) ==> Holds(r.value, seqNo, v)
  {
    hide MetaBytes, Concat, CountBytes, LeBytes, Bytes32, Sealed, FromItems, Holds, MetaFits;
    if v.meta.None? {
      return None;
    }
    var meta := EncodeMeta(v.meta.value);
    var records, recordItems := EncodeRecords(v.records);
    var entries, entryItems := EncodeEntries(v.index);
    var keyGens, keyGenItems := EncodeKeyGens(v.keyGens);
    ghost var l := Lists(recordItems, entryItems, keyGenItems);
    var tail := records + (entries + keyGens);
    assert tail == TailBytes(l);
    var body := LeBytes(SEG_MAGIC, 4) + (LeBytes(SEG_VERSION, 4) + (LeBytes(seqNo, 8) +
                (LeBytes(v.nextTxnSeq, 8) + (Bytes32(meta) + tail))));
    if ValFits(v) {
      SegmentRoundTrip(seqNo, v, l);
    }
    return Some(Sealed(body));
  }

  method ReadRecord(r: Reader) returns (x: Option<RecordItem>)
    requires r.Valid()
    modifies r
    ensures r.Valid() && Reads(ParseRecord(old(r.Rest())), x, r.Rest())
  {
    hide ParseU64, ParseBytes32;
    var store := r.U64();
    if store.None? { return None; }
    var key := r.ReadBytes32();
    if key.None? { return None; }
    var value := r.ReadBytes32();
    if value.None? { return None; }
    return Some((RecKey(store.value, key.value), value.value));
  }

  method ReadRecords(r: Reader) returns (v: Option<map<RecordKey, Blob>>, ghost items: seq<RecordItem>)
    requires r.Valid()
    modifies r
    ensures r.Valid() && Reads(ParseList(ParseRecord, old(r.Rest())), if v.Some? then Some(items) else None, r.Rest())
    ensures v.Some? ==> v.value == FromItems(items)
  {
    hide ParseRecord;
    items := [];
    var n := r.U32();
    if n.None? {
      return None, [];
    }
    ghost var start := r.Rest();
    var m: map<RecordKey, Blob> := map[];
    PrependNothing(ParseN(ParseRecord, n.value, start));
    for i := 0 to n.value
      invariant r.Valid() && m == FromItems(items)
      invariant Prepend(items, ParseN(ParseRecord, n.value - i, r.Rest())) == ParseN(ParseRecord, n.value, start)
    {
      ParseNStep(ParseRecord, n.value - i, r.Rest(), items);
      var x := ReadRecord(r);
      if x.None? { return None, []; }
      assert (items + [x.value])[..|items|] == items;
      items := items + [x.value];
      m := m[x.value.0 := x.value.1];
    }
    assert items + [] == items;
    return Some(m), items;
  }

  method ReadEntry(r: Reader) returns (x: Option<Key>)
    requires r.Valid()
    modifies r
    ensures r.Valid() && Reads(ParseEntry(old(r.Rest())), x, r.Rest())
  {
    hide ParseU64, ParseBytes32;
    var index := r.U64();
    if index.None? { return None; }
    var key := r.ReadBytes32();
    if key.None? { return None; }
    var pkey := r.ReadBytes32();
    if pkey.None? { return None; }
    return Some(Key(index.value, key.value, pkey.value));
  }

  method ReadEntries(r: Reader) returns (v: Option<set<Key>>, ghost items: seq<Key>)
    requires r.Valid()
    modifies r
    ensures r.Valid() && Reads(ParseList(ParseEntry, old(r.Rest())), if v.Some? then Some(items) else None, r.Rest())
    ensures v.Some? ==> v.value == SetOf(items)
  {
    hide ParseEntry;
    items := [];
    var n := r.U32();
    if n.None? {
      return None, [];
    }
    ghost var start := r.Rest();
    var s: set<Key> := {};
    PrependNothing(ParseN(ParseEntry, n.value, start));
    for i := 0 to n.value
      invariant r.Valid() && s == SetOf(items)
      invariant Prepend(items, ParseN(ParseEntry, n.value - i, r.Rest())) == ParseN(ParseEntry, n.value, start)
    {
      ParseNStep(ParseEntry, n.value - i, r.Rest(), items);
      var k := ReadEntry(r);
      if k.None? { return None, []; }
      items := items + [k.value];
      s := s + {k.value};
    }
    assert items + [] == items;
    return Some(s), items;
  }

  method ReadKeyGens(r: Reader) returns (v: Option<map<u64, u64>>, ghost items: seq<KeyGenItem>)
    requires r.Valid()
    modifies r
    ensures r.Valid() && Reads(ParseList(ParseKeyGenItem, old(r.Rest())), if v.Some? then Some(items) else None, r.Rest())
    ensures v.Some? ==> v.value == FromItems(items)
  {
    hide ParseU64, FromItems;
    NoItems<u64, u64>();
    items := [];
    var n := r.U32();
    if n.None? {
      return None, [];
    }
    ghost var start := r.Rest();
    var m: map<u64, u64> := map[];
    PrependNothing(ParseN(ParseKeyGenItem, n.value, start));
    for i := 0 to n.value
      invariant r.Valid() && m == FromItems(items)
      invariant Prepend(items, ParseN(ParseKeyGenItem, n.value - i, r.Rest())) == ParseN(ParseKeyGenItem, n.value, start)
    {
      ParseNStep(ParseKeyGenItem, n.value - i, r.Rest(), items);
      var store := r.U64();
      if store.None? { return None, []; }
      var bits := r.U64();
      if bits.None? { return None, []; }
      OneMoreItem(items, (store.value, bits.value));
      items := items + [(store.value, bits.value)];
      m := m[store.value := bits.value];
    }
    assert items + [] == items;
    return Some(m), items;
  }

  /** `decode_segment`. */
  method DecodeSegment(bytes: seq<byte>) returns (v: Option<(u64, DbVal)>)
    ensures Reads(ParseSegment(bytes), v, [])
  {
    hide ParseU32, ParseU64, ParseBytes32, ParseMeta, ParseRecord, ParseEntry, ParseKeyGenItem, ParseList, FromItems, Crc32c;
    if |bytes| < 4 + 4 + 8 + 8 + 4 + 4 { return None; }
    var body := bytes[..|bytes| - 4];
    if U32At(bytes[|bytes| - 4..]) != Crc32c(body) { return None; }
    var r := new Reader(body);
    var magic := r.U32();
    if magic.None? || magic.value != SEG_MAGIC { return None; }
    var version := r.U32();
    if version.None? || version.value != SEG_VERSION { return None; }
    var seqNo := r.U64();
    if seqNo.None? { return None; }
    var nextTxnSeq := r.U64();
    if nextTxnSeq.None? { return None; }
    var metaBytes := r.ReadBytes32();
    if metaBytes.None? { return None; }
    var meta := DecodeMeta(metaBytes.value);
    if meta.None? { return None; }
    var records, recordItems := ReadRecords(r);
    if records.None? { return None; }
    var entries, entryItems := ReadEntries(r);
    if entries.None? { return None; }
    var keyGens, keyGenItems := ReadKeyGens(r);
    if keyGens.None? || r.Rest() != [] { return None; }
    return Some((seqNo.value, DbVal(Some(meta.value), records.value, entries.value, keyGens.value, nextTxnSeq.value)));
  }
}
