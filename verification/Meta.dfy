/** Database metadata and the manifest: their encodings, decoders and round trips. */
module Meta {
  import opened Bytes
  import opened Codec

  type Utf16 = seq<u16>

  datatype KeyPath = Empty | Single(path: Utf16) | Array(items: seq<Utf16>)

  datatype IndexMeta = IndexMeta(id: u64, storeId: u64, name: Utf16, keyPath: KeyPath,
                                 unique: bool, multiEntry: bool, deleted: bool)

  /** `keyGen` is the bit pattern of the key generator's number. */
  datatype StoreMeta = StoreMeta(id: u64, name: Utf16, keyPath: KeyPath, autoIncrement: bool,
                                 keyGen: u64, indexes: seq<IndexMeta>, deleted: bool)

  datatype DatabaseMeta = DatabaseMeta(name: Utf16, version: u64, stores: seq<StoreMeta>,
                                       nextStoreId: u64, nextIndexId: u64)

  /** `IMET` and `IMAN`, little-endian. */
  const META_MAGIC: u32 := 0x5445_4D49
  const META_VERSION: u32 := 1
  const MANIFEST_MAGIC: u32 := 0x4E41_4D49
  const MANIFEST_VERSION: u32 := 1

  lemma Assoc(a: seq<byte>, b: seq<byte>, c: seq<byte>)
    ensures a + b + c == a + (b + c)
  {
  }

  // ---------------------------------------------------------------- strings

  function UnitBytes(u: u16): seq<byte> {
    LeBytes(u, 2)
  }

  /** A count behind the source's cast to 32 bits. */
  function CountBytes(n: nat): seq<byte> {
    LeBytes(n % U32_LIMIT, 4)
  }

  function Utf16Bytes(s: Utf16): seq<byte> {
    CountBytes(|s|) + Concat(UnitBytes, s)
  }

  function ParseList<T>(parse: seq<byte> -> Parsed<T>, s: seq<byte>): Parsed<seq<T>> {
    var (n, r) :- ParseU32(s);
    ParseN(parse, n, r)
  }

  lemma CountInverts(n: nat, rest: seq<byte>)
    requires n < U32_LIMIT
    ensures ParseU32(CountBytes(n) + rest) == Done(n, rest)
  {
    hide LeBytes, ParseU32;
    ParseWords(n, rest);
  }

  /** Counted lists read back when their elements do and the count fits its field. */
  lemma ListInverts<T(!new)>(enc: T -> seq<byte>, parse: seq<byte> -> Parsed<T>, items: seq<T>, rest: seq<byte>)
    requires |items| < U32_LIMIT
    requires forall x :: x in items ==> Inverts(enc, parse, x)
    ensures ParseList(parse, CountBytes(|items|) + Concat(enc, items) + rest) == Done(items, rest)
  {
    hide CountBytes, ParseU32, Concat, ParseN, Inverts;
    var count, list := CountBytes(|items|), Concat(enc, items);
    ParseNInverts(enc, parse, items, rest);
    CountInverts(|items|, list + rest);
    Assoc(count, list, rest);
  }

  function ParseUtf16(s: seq<byte>): Parsed<Utf16> {
    ParseList(ParseU16, s)
  }

  lemma Utf16Inverts(s: Utf16, rest: seq<byte>)
    requires |s| < U32_LIMIT
    ensures ParseUtf16(Utf16Bytes(s) + rest) == Done(s, rest)
  {
    forall u: u16 ensures Inverts(UnitBytes, ParseU16, u) {
      forall r: seq<byte> ensures ParseU16(UnitBytes(u) + r) == Done(u, r) {
        ParseWords(u, r);
      }
    }
    ListInverts(UnitBytes, ParseU16, s, rest);
  }

  // ---------------------------------------------------------------- key paths

  function KeyPathBytes(p: KeyPath): seq<byte> {
    match p
    case Empty => [0]
    case Single(s) => [1] + Utf16Bytes(s)
    case Array(items) => [2] + (CountBytes(|items|) + Concat(Utf16Bytes, items))
  }

  function ParseKeyPath(s: seq<byte>): Parsed<KeyPath> {
    var (tag, r) :- ParseU8(s);
    if tag == 0 then Done(Empty, r)
    else if tag == 1 then var (p, r2) :- ParseUtf16(r); Done(Single(p), r2)
    else if tag == 2 then var (items, r2) :- ParseList(ParseUtf16, r); Done(Array(items), r2)
    else Fail("bad keypath tag")
  }

  predicate KeyPathFits(p: KeyPath) {
    match p
    case Empty => true
    case Single(s) => |s| < U32_LIMIT
    case Array(items) => |items| < U32_LIMIT && forall s | s in items :: |s| < U32_LIMIT
  }

  lemma KeyPathInverts(p: KeyPath, rest: seq<byte>)
    requires KeyPathFits(p)
    ensures ParseKeyPath(KeyPathBytes(p) + rest) == Done(p, rest)
  {
    hide ParseUtf16, Utf16Bytes, ParseList, CountBytes;
    match p
    case Empty =>
      assert ([0] + rest)[1..] == rest;
    case Single(s) =>
      assert ([1] + Utf16Bytes(s) + rest)[1..] == Utf16Bytes(s) + rest;
      Utf16Inverts(s, rest);
    case Array(items) =>
      var body := CountBytes(|items|) + Concat(Utf16Bytes, items);
      assert ([2] + body + rest)[1..] == body + rest;
      forall s | s in items ensures Inverts(Utf16Bytes, ParseUtf16, s) {
        forall r: seq<byte> ensures ParseUtf16(Utf16Bytes(s) + r) == Done(s, r) {
          Utf16Inverts(s, r);
        }
      }
      ListInverts(Utf16Bytes, ParseUtf16, items, rest);
  }

  // ---------------------------------------------------------------- indexes, stores, databases

  function BoolByte(b: bool): byte {
    if b then 1 else 0
  }

  function ParseBool(s: seq<byte>): Parsed<bool> {
    var (b, r) :- ParseU8(s);
    Done(b != 0, r)
  }

  lemma BoolInverts(b: bool, rest: seq<byte>)
    ensures ParseBool([BoolByte(b)] + rest) == Done(b, rest)
  {
  }

  function IndexBytes(x: IndexMeta): seq<byte> {
    LeBytes(x.id, 8) + (LeBytes(x.storeId, 8) + (Utf16Bytes(x.name) + (KeyPathBytes(x.keyPath) +
    [BoolByte(x.unique), BoolByte(x.multiEntry), BoolByte(x.deleted)])))
  }

  function ParseIndex(s: seq<byte>): Parsed<IndexMeta> {
    var (id, r) :- ParseU64(s);
    var (storeId, r) :- ParseU64(r);
    var (name, r) :- ParseUtf16(r);
    var (keyPath, r) :- ParseKeyPath(r);
    var (unique, r) :- ParseBool(r);
    var (multiEntry, r) :- ParseBool(r);
    var (deleted, r) :- ParseBool(r);
    Done(IndexMeta(id, storeId, name, keyPath, unique, multiEntry, deleted), r)
  }

  predicate IndexFits(x: IndexMeta) {
    |x.name| < U32_LIMIT && KeyPathFits(x.keyPath)
  }

  lemma IndexInverts(x: IndexMeta, rest: seq<byte>)
    requires IndexFits(x)
    ensures ParseIndex(IndexBytes(x) + rest) == Done(x, rest)
  {
    hide LeBytes, Utf16Bytes, KeyPathBytes, ParseU64, ParseUtf16, ParseKeyPath, ParseBool, BoolByte;
    var u, m, d := BoolByte(x.unique), BoolByte(x.multiEntry), BoolByte(x.deleted);
    var f5 := [u] + ([m] + ([d] + rest));
    assert [u, m, d] + rest == f5;
    var f4 := KeyPathBytes(x.keyPath) + f5;
    var f3 := Utf16Bytes(x.name) + f4;
    var f2 := LeBytes(x.storeId, 8) + f3;
    Assoc(KeyPathBytes(x.keyPath), [u, m, d], rest);
    Assoc(Utf16Bytes(x.name), KeyPathBytes(x.keyPath) + [u, m, d], rest);
    Assoc(LeBytes(x.storeId, 8), Utf16Bytes(x.name) + (KeyPathBytes(x.keyPath) + [u, m, d]), rest);
    Assoc(LeBytes(x.id, 8), LeBytes(x.storeId, 8) + (Utf16Bytes(x.name) + (KeyPathBytes(x.keyPath) + [u, m, d])), rest);
    ParseWords(x.id, f2);
    ParseWords(x.storeId, f3);
    Utf16Inverts(x.name, f4);
    KeyPathInverts(x.keyPath, f5);
    BoolInverts(x.unique, [m] + ([d] + rest));
    BoolInverts(x.multiEntry, [d] + rest);
    BoolInverts(x.deleted, rest);
  }

  function StoreBytes(x: StoreMeta): seq<byte> {
    LeBytes(x.id, 8) + (Utf16Bytes(x.name) + (KeyPathBytes(x.keyPath) + ([BoolByte(x.autoIncrement)] +
    (LeBytes(x.keyGen, 8) + ([BoolByte(x.deleted)] + (CountBytes(|x.indexes|) + Concat(IndexBytes, x.indexes)))))))
  }

  function ParseStore(s: seq<byte>): Parsed<StoreMeta> {
    var (id, r) :- ParseU64(s);
    var (name, r) :- ParseUtf16(r);
    var (keyPath, r) :- ParseKeyPath(r);
    var (autoIncrement, r) :- ParseBool(r);
    var (keyGen, r) :- ParseU64(r);
    var (deleted, r) :- ParseBool(r);
    var (indexes, r) :- ParseList(ParseIndex, r);
    Done(StoreMeta(id, name, keyPath, autoIncrement, keyGen, indexes, deleted), r)
  }

  predicate StoreFits(x: StoreMeta) {
    && |x.name| < U32_LIMIT && KeyPathFits(x.keyPath)
    && |x.indexes| < U32_LIMIT && forall i | i in x.indexes :: IndexFits(i)
  }

  lemma StoreInverts(x: StoreMeta, rest: seq<byte>)
    requires StoreFits(x)
    ensures ParseStore(StoreBytes(x) + rest) == Done(x, rest)
  {
    forall i | i in x.indexes ensures Inverts(IndexBytes, ParseIndex, i) {
      forall r: seq<byte> ensures ParseIndex(IndexBytes(i) + r) == Done(i, r) {
        IndexInverts(i, r);
      }
    }
    hide LeBytes, Utf16Bytes, KeyPathBytes, ParseU64, ParseUtf16, ParseKeyPath, ParseBool, BoolByte;
    hide CountBytes, Concat, ParseList, IndexBytes, ParseIndex, IndexFits, KeyPathFits;
    var g7 := CountBytes(|x.indexes|) + Concat(IndexBytes, x.indexes);
    var g6 := [BoolByte(x.deleted)] + g7;
    var g5 := LeBytes(x.keyGen, 8) + g6;
    var g4 := [BoolByte(x.autoIncrement)] + g5;
    var g3 := KeyPathBytes(x.keyPath) + g4;
    var g2 := Utf16Bytes(x.name) + g3;
    Assoc(LeBytes(x.id, 8), g2, rest);
    Assoc(Utf16Bytes(x.name), g3, rest);
    Assoc(KeyPathBytes(x.keyPath), g4, rest);
    Assoc([BoolByte(x.autoIncrement)], g5, rest);
    Assoc(LeBytes(x.keyGen, 8), g6, rest);
    Assoc([BoolByte(x.deleted)], g7, rest);
    ParseWords(x.id, g2 + rest);
    Utf16Inverts(x.name, g3 + rest);
    KeyPathInverts(x.keyPath, g4 + rest);
    BoolInverts(x.autoIncrement, g5 + rest);
    ParseWords(x.keyGen, g6 + rest);
    BoolInverts(x.deleted, g7 + rest);
    ListInverts(IndexBytes, ParseIndex, x.indexes, rest);
  }

  function MetaBytes(m: DatabaseMeta): seq<byte> {
    LeBytes(META_MAGIC, 4) + (LeBytes(META_VERSION, 4) + (Utf16Bytes(m.name) + (LeBytes(m.version, 8) +
    (LeBytes(m.nextStoreId, 8) + (LeBytes(m.nextIndexId, 8) + (CountBytes(|m.stores|) + Concat(StoreBytes, m.stores)))))))
  }

  function ParseMetaBody(s: seq<byte>): Parsed<DatabaseMeta> {
    var (name, r) :- ParseUtf16(s);
    var (version, r) :- ParseU64(r);
    var (nextStoreId, r) :- ParseU64(r);
    var (nextIndexId, r) :- ParseU64(r);
    var (stores, r) :- ParseList(ParseStore, r);
    if r != [] then Fail("trailing meta bytes")
    else Done(DatabaseMeta(name, version, stores, nextStoreId, nextIndexId), r)
  }

  /** `decode_meta`. */
  function ParseMeta(s: seq<byte>): Parsed<DatabaseMeta> {
    var (magic, r) :- ParseU32(s);
    if magic != META_MAGIC then Fail("bad meta magic")
    else
      var (version, r) :- ParseU32(r);
      if version != META_VERSION then Fail("unsupported meta version") else ParseMetaBody(r)
  }

  /** Every length fits the 32-bit field it is written to. */
  predicate MetaFits(m: DatabaseMeta) {
    |m.name| < U32_LIMIT && |m.stores| < U32_LIMIT && forall s | s in m.stores :: StoreFits(s)
  }

  /** Metadata decodes to the value encoded: nested stores, indexes, key paths and names. */
  lemma MetaRoundTrip(m: DatabaseMeta)
    requires MetaFits(m)
    ensures ParseMeta(MetaBytes(m)) == Done(m, [])
  {
    forall x | x in m.stores ensures Inverts(StoreBytes, ParseStore, x) {
      forall r: seq<byte> ensures ParseStore(StoreBytes(x) + r) == Done(x, r) {
        StoreInverts(x, r);
      }
    }
    hide LeBytes, Utf16Bytes, ParseU32, ParseU64, ParseUtf16, CountBytes, Concat, ParseList, StoreBytes, ParseStore, StoreFits;
    var h6 := CountBytes(|m.stores|) + Concat(StoreBytes, m.stores);
    var h5 := LeBytes(m.nextIndexId, 8) + h6;
    var h4 := LeBytes(m.nextStoreId, 8) + h5;
    var h3 := LeBytes(m.version, 8) + h4;
    var h2 := Utf16Bytes(m.name) + h3;
    ParseWords(META_MAGIC, LeBytes(META_VERSION, 4) + h2);
    ParseWords(META_VERSION, h2);
    Utf16Inverts(m.name, h3);
    ParseWords(m.version, h4);
    ParseWords(m.nextStoreId, h5);
    ParseWords(m.nextIndexId, h6);
    ListInverts(StoreBytes, ParseStore, m.stores, []);
    assert h6 + [] == h6;
  }

  /** Metadata is read only behind its own magic number and version. */
  lemma MetaIsMarked(s: seq<byte>)
    ensures ParseMeta(s).Done? ==> |s| >= 8 && U32At(s[..4]) == META_MAGIC && U32At(s[4..8]) == META_VERSION
  {
    hide ParseMetaBody, U32At;
    if ParseMeta(s).Done? {
      assert s[4..][..4] == s[4..8];
    }
  }

  /** Metadata with anything behind it is no metadata. */
  lemma MetaIsExact(m: DatabaseMeta, rest: seq<byte>)
    requires MetaFits(m)
    ensures ParseMeta(MetaBytes(m) + rest).Done? <==> rest == []
  {
    forall x | x in m.stores ensures Inverts(StoreBytes, ParseStore, x) {
      forall r: seq<byte> ensures ParseStore(StoreBytes(x) + r) == Done(x, r) {
        StoreInverts(x, r);
      }
    }
    hide LeBytes, Utf16Bytes, ParseU32, ParseU64, ParseUtf16, CountBytes, Concat, ParseList, StoreBytes, ParseStore, StoreFits;
    var h6 := CountBytes(|m.stores|) + Concat(StoreBytes, m.stores);
    var h5 := LeBytes(m.nextIndexId, 8) + h6;
    var h4 := LeBytes(m.nextStoreId, 8) + h5;
    var h3 := LeBytes(m.version, 8) + h4;
    var h2 := Utf16Bytes(m.name) + h3;
    var h1 := LeBytes(META_VERSION, 4) + h2;
    Assoc(LeBytes(META_MAGIC, 4), h1, rest);
    Assoc(LeBytes(META_VERSION, 4), h2, rest);
    Assoc(Utf16Bytes(m.name), h3, rest);
    Assoc(LeBytes(m.version, 8), h4, rest);
    Assoc(LeBytes(m.nextStoreId, 8), h5, rest);
    Assoc(LeBytes(m.nextIndexId, 8), h6, rest);
    ParseWords(META_MAGIC, h1 + rest);
    ParseWords(META_VERSION, h2 + rest);
    Utf16Inverts(m.name, h3 + rest);
    ParseWords(m.version, h4 + rest);
    ParseWords(m.nextStoreId, h5 + rest);
    ParseWords(m.nextIndexId, h6 + rest);
    ListInverts(StoreBytes, ParseStore, m.stores, rest);
  }

  // ---------------------------------------------------------------- manifest

  datatype ManifestData = ManifestData(manifestSeq: u64, walSeq: u64, segments: seq<u64>)

  function WordBytes(n: u64): seq<byte> {
    LeBytes(n, 8)
  }

  function ManifestBody(d: ManifestData): seq<byte> {
    LeBytes(MANIFEST_MAGIC, 4) + (LeBytes(MANIFEST_VERSION, 4) + (LeBytes(d.manifestSeq, 8) + (LeBytes(d.walSeq, 8) +
    (CountBytes(|d.segments|) + Concat(WordBytes, d.segments)))))
  }

  /** A body followed by its checksum. */
  function Sealed(body: seq<byte>): seq<byte> {
    body + LeBytes(Crc32c(body), 4)
  }

  /** The body of sealed bytes, when the checksum matches. */
  function Unseal(s: seq<byte>, least: nat): Parsed<seq<byte>> {
    if |s| < least + 4 then Fail("too short")
    else
      var body := s[..|s| - 4];
      if U32At(s[|s| - 4..]) != Crc32c(body) then Fail("crc mismatch") else Done(body, [])
  }

  /** Sealed bytes are read exactly when their last word is the checksum of what is before it. */
  lemma UnsealMeans(s: seq<byte>, least: nat)
    ensures Unseal(s, least).Done? <==> |s| >= least + 4 && U32At(s[|s| - 4..]) == Crc32c(s[..|s| - 4])
    ensures Unseal(s, least).Done? ==> Unseal(s, least).value == s[..|s| - 4]
  {
  }

  lemma SealRoundTrip(body: seq<byte>, least: nat)
    requires least <= |body|
    ensures Unseal(Sealed(body), least) == Done(body, [])
  {
    hide Crc32c;
    WordRoundTrip(Crc32c(body));
    var s := Sealed(body);
    assert s[..|s| - 4] == body && s[|s| - 4..] == LeBytes(Crc32c(body), 4);
  }

  function ParseManifestBody(s: seq<byte>): Parsed<ManifestData> {
    var (magic, r) :- ParseU32(s);
    if magic != MANIFEST_MAGIC then Fail("bad manifest magic")
    else
      var (version, r) :- ParseU32(r);
      if version != MANIFEST_VERSION then Fail("unsupported manifest version")
      else
        var (manifestSeq, r) :- ParseU64(r);
        var (walSeq, r) :- ParseU64(r);
        var (segments, r) :- ParseList(ParseU64, r);
        if r != [] then Fail("trailing manifest bytes") else Done(ManifestData(manifestSeq, walSeq, segments), r)
  }

  /** `decode_manifest`. */
  function ParseManifest(s: seq<byte>): Parsed<ManifestData> {
    var (body, _) :- Unseal(s, 28);
    ParseManifestBody(body)
  }

  /** Nothing may stand between a manifest's list and its checksum. */
  lemma ManifestIsExact(d: ManifestData, rest: seq<byte>)
    requires |d.segments| < U32_LIMIT
    ensures ParseManifestBody(ManifestBody(d) + rest).Done? <==> rest == []
  {
    forall n: u64 ensures Inverts(WordBytes, ParseU64, n) {
      forall r: seq<byte> ensures ParseU64(WordBytes(n) + r) == Done(n, r) {
        ParseWords(n, r);
      }
    }
    hide LeBytes, ParseU32, ParseU64, CountBytes, Concat, ParseList, WordBytes;
    var h4 := CountBytes(|d.segments|) + Concat(WordBytes, d.segments);
    var h3 := LeBytes(d.walSeq, 8) + h4;
    var h2 := LeBytes(d.manifestSeq, 8) + h3;
    var h1 := LeBytes(MANIFEST_VERSION, 4) + h2;
    Assoc(LeBytes(MANIFEST_MAGIC, 4), h1, rest);
    Assoc(LeBytes(MANIFEST_VERSION, 4), h2, rest);
    Assoc(LeBytes(d.manifestSeq, 8), h3, rest);
    Assoc(LeBytes(d.walSeq, 8), h4, rest);
    ParseWords(MANIFEST_MAGIC, h1 + rest);
    ParseWords(MANIFEST_VERSION, h2 + rest);
    ParseWords(d.manifestSeq, h3 + rest);
    ParseWords(d.walSeq, h4 + rest);
    ListInverts(WordBytes, ParseU64, d.segments, rest);
  }

  /** A manifest is read only with its checksum, magic number and version in place. */
  lemma ManifestIsMarked(s: seq<byte>)
    ensures ParseManifest(s).Done? ==>
      && |s| >= 32 && U32At(s[|s| - 4..]) == Crc32c(s[..|s| - 4])
      && U32At(s[..4]) == MANIFEST_MAGIC && U32At(s[4..8]) == MANIFEST_VERSION
  {
    hide U32At, Crc32c, ParseList;
    if ParseManifest(s).Done? {
      var body := s[..|s| - 4];
      assert body[..4] == s[..4];
      FieldAt(s, |s| - 4, 4, 4);
    }
  }

  lemma ManifestRoundTrip(d: ManifestData)
    requires |d.segments| < U32_LIMIT
    ensures ParseManifest(Sealed(ManifestBody(d))) == Done(d, [])
  {
    forall n: u64 ensures Inverts(WordBytes, ParseU64, n) {
      forall r: seq<byte> ensures ParseU64(WordBytes(n) + r) == Done(n, r) {
        ParseWords(n, r);
      }
    }
    hide LeBytes, ParseU32, ParseU64, CountBytes, Concat, ParseList, WordBytes, Sealed, Unseal;
    assert |CountBytes(|d.segments|)| == 4 by { CountLen(|d.segments|); }
    SealRoundTrip(ManifestBody(d), 28);
    var h4 := CountBytes(|d.segments|) + Concat(WordBytes, d.segments);
    var h3 := LeBytes(d.walSeq, 8) + h4;
    var h2 := LeBytes(d.manifestSeq, 8) + h3;
    ParseWords(MANIFEST_MAGIC, LeBytes(MANIFEST_VERSION, 4) + h2);
    ParseWords(MANIFEST_VERSION, h2);
    ParseWords(d.manifestSeq, h3);
    ParseWords(d.walSeq, h4);
    ListInverts(WordBytes, ParseU64, d.segments, []);
    assert h4 + [] == h4;
  }

  lemma CountLen(n: nat)
    ensures |CountBytes(n)| == 4
  {
  }

  // ---------------------------------------------------------------- the encoders and decoders

  /** What a decoding step owes its specification: the same value and the same bytes left. */
  ghost predicate Reads<T>(p: Parsed<T>, r: Option<T>, rest: seq<byte>) {
    if r.Some? then p == Done(r.value, rest) else p.Fail?
  }

  method WriteUtf16(s: Utf16) returns (out: seq<byte>)
    ensures out == Utf16Bytes(s)
  {
    out := CountBytes(|s|);
    for i := 0 to |s|
      invariant out == CountBytes(|s|) + Concat(UnitBytes, s[..i])
    {
      hide UnitBytes, CountBytes;
      assert s[..i + 1] == s[..i] + [s[i]];
      ConcatAppend(UnitBytes, s[..i], [s[i]]);
      ConcatOne(UnitBytes, s[i]);
      out := out + UnitBytes(s[i]);
    }
    assert s[..|s|] == s;
  }

  /** Reading `n` units out of a slice that holds them all. */
  lemma {:induction false} UnitsOfSlice(n: nat, s: seq<byte>)
    requires |s| >= 2 * n
    ensures ParseN(ParseU16, n, s).Done? && ParseN(ParseU16, n, s).rest == s[2 * n..]
    ensures |ParseN(ParseU16, n, s).value| == n
    ensures forall i | 0 <= i < n :: ParseN(ParseU16, n, s).value[i] == U16At(s[2 * i..2 * i + 2])
  {
    if n > 0 {
      var tail := s[2..];
      UnitsOfSlice(n - 1, tail);
      forall i | 0 < i < n ensures s[2 * i..2 * i + 2] == tail[2 * (i - 1)..2 * (i - 1) + 2] {
      }
    }
  }

  lemma {:induction false} TooFewUnits(n: nat, s: seq<byte>)
    requires |s| < 2 * n
    ensures ParseN(ParseU16, n, s).Fail?
  {
    if |s| >= 2 {
      TooFewUnits(n - 1, s[2..]);
    }
  }

  method ReadUtf16(r: Reader) returns (v: Option<Utf16>)
    requires r.Valid()
    modifies r
    ensures r.Valid() && Reads(ParseUtf16(old(r.Rest())), v, r.Rest())
  {
    var len := r.U32();
    if len.None? {
      return None;
    }
    ghost var start := r.Rest();
    var n: nat := len.value;
    var bytes := r.Take(2 * n);
    if bytes.None? {
      TooFewUnits(len.value, start);
      return None;
    }
    UnitsOfSlice(len.value, start);
    var units: seq<u16> := [];
    for i := 0 to len.value
      invariant units == ParseN(ParseU16, len.value, start).value[..i]
    {
      assert bytes.value[2 * i..2 * i + 2] == start[2 * i..2 * i + 2];
      units := units + [U16At(bytes.value[2 * i..2 * i + 2])];
    }
    assert units == ParseN(ParseU16, len.value, start).value;
    return Some(units);
  }

  method WriteKeyPath(p: KeyPath) returns (out: seq<byte>)
    ensures out == KeyPathBytes(p)
  {
    hide Utf16Bytes, CountBytes;
    match p
    case Empty =>
      out := [0];
    case Single(s) =>
      out := WriteUtf16(s);
      out := [1] + out;
    case Array(items) =>
      out := CountBytes(|items|);
      for i := 0 to |items|
        invariant out == CountBytes(|items|) + Concat(Utf16Bytes, items[..i])
      {
        var item := WriteUtf16(items[i]);
        assert items[..i + 1] == items[..i] + [items[i]];
        ConcatAppend(Utf16Bytes, items[..i], [items[i]]);
        ConcatOne(Utf16Bytes, items[i]);
        out := out + item;
      }
      assert items[..|items|] == items;
      out := [2] + out;
  }

  method ReadKeyPath(r: Reader) returns (v: Option<KeyPath>)
    requires r.Valid()
    modifies r
    ensures r.Valid() && Reads(ParseKeyPath(old(r.Rest())), v, r.Rest())
  {
    hide ParseUtf16;
    var tag := r.U8();
    if tag.None? {
      return None;
    }
    if tag.value == 0 {
      return Some(Empty);
    } else if tag.value == 1 {
      var s := ReadUtf16(r);
      v := if s.Some? then Some(Single(s.value)) else None;
    } else if tag.value == 2 {
      var n := r.U32();
      if n.None? {
        return None;
      }
      ghost var start := r.Rest();
      var items: seq<Utf16> := [];
      PrependNothing(ParseN(ParseUtf16, n.value, start));
      for i := 0 to n.value
        invariant r.Valid()
        invariant Prepend(items, ParseN(ParseUtf16, n.value - i, r.Rest())) == ParseN(ParseUtf16, n.value, start)
      {
        ParseNStep(ParseUtf16, n.value - i, r.Rest(), items);
        var s := ReadUtf16(r);
        if s.None? {
          return None;
        }
        items := items + [s.value];
      }
      assert items + [] == items;
      return Some(Array(items));
    } else {
      return None;
    }
  }

  method WriteIndex(x: IndexMeta) returns (out: seq<byte>)
    ensures out == IndexBytes(x)
  {
    hide LeBytes, Utf16Bytes, KeyPathBytes;
    var name := WriteUtf16(x.name);
    var path := WriteKeyPath(x.keyPath);
    out := LeBytes(x.id, 8) + LeBytes(x.storeId, 8) + name + path +
           [BoolByte(x.unique), BoolByte(x.multiEntry), BoolByte(x.deleted)];
  }

  method ReadBool(r: Reader) returns (v: Option<bool>)
    requires r.Valid()
    modifies r
    ensures r.Valid() && Reads(ParseBool(old(r.Rest())), v, r.Rest())
  {
    var b := r.U8();
    v := if b.Some? then Some(b.value != 0) else None;
  }

  method ReadIndex(r: Reader) returns (v: Option<IndexMeta>)
    requires r.Valid()
    modifies r
    ensures r.Valid() && Reads(ParseIndex(old(r.Rest())), v, r.Rest())
  {
    hide ParseU64, ParseUtf16, ParseKeyPath, ParseBool;
    var id := r.U64();
    if id.None? { return None; }
    var storeId := r.U64();
    if storeId.None? { return None; }
    var name := ReadUtf16(r);
    if name.None? { return None; }
    var path := ReadKeyPath(r);
    if path.None? { return None; }
    var unique := ReadBool(r);
    if unique.None? { return None; }
    var multi := ReadBool(r);
    if multi.None? { return None; }
    var deleted := ReadBool(r);
    if deleted.None? { return None; }
    return Some(IndexMeta(id.value, storeId.value, name.value, path.value, unique.value, multi.value, deleted.value));
  }

  method WriteStore(x: StoreMeta) returns (out: seq<byte>)
    ensures out == StoreBytes(x)
  {
    hide LeBytes, Utf16Bytes, KeyPathBytes, CountBytes, IndexBytes;
    var name := WriteUtf16(x.name);
    var path := WriteKeyPath(x.keyPath);
    var list := CountBytes(|x.indexes|);
    for i := 0 to |x.indexes|
      invariant list == CountBytes(|x.indexes|) + Concat(IndexBytes, x.indexes[..i])
    {
      var index := WriteIndex(x.indexes[i]);
      assert x.indexes[..i + 1] == x.indexes[..i] + [x.indexes[i]];
      ConcatAppend(IndexBytes, x.indexes[..i], [x.indexes[i]]);
      ConcatOne(IndexBytes, x.indexes[i]);
      list := list + index;
    }
    assert x.indexes[..|x.indexes|] == x.indexes;
    out := LeBytes(x.id, 8) + name + path + [BoolByte(x.autoIncrement)] + LeBytes(x.keyGen, 8) + [BoolByte(x.deleted)] + list;
  }

  method ReadStore(r: Reader) returns (v: Option<StoreMeta>)
    requires r.Valid()
    modifies r
    ensures r.Valid() && Reads(ParseStore(old(r.Rest())), v, r.Rest())
  {
    hide ParseU64, ParseUtf16, ParseKeyPath, ParseBool, ParseU32, ParseIndex;
    var id := r.U64();
    if id.None? { return None; }
    var name := ReadUtf16(r);
    if name.None? { return None; }
    var path := ReadKeyPath(r);
    if path.None? { return None; }
    var auto := ReadBool(r);
    if auto.None? { return None; }
    var keyGen := r.U64();
    if keyGen.None? { return None; }
    var deleted := ReadBool(r);
    if deleted.None? { return None; }
    ghost var list := r.Rest();
    var indexes := ReadIndexes(r);
    if indexes.None? { return None; }
    return Some(StoreMeta(id.value, name.value, path.value, auto.value, keyGen.value, indexes.value, deleted.value));
  }

  method ReadIndexes(r: Reader) returns (v: Option<seq<IndexMeta>>)
    requires r.Valid()
    modifies r
    ensures r.Valid() && Reads(ParseList(ParseIndex, old(r.Rest())), v, r.Rest())
  {
    hide ParseIndex;
    var n := r.U32();
    if n.None? {
      return None;
    }
    ghost var start := r.Rest();
    var items: seq<IndexMeta> := [];
    PrependNothing(ParseN(ParseIndex, n.value, start));
    for i := 0 to n.value
      invariant r.Valid()
      invariant Prepend(items, ParseN(ParseIndex, n.value - i, r.Rest())) == ParseN(ParseIndex, n.value, start)
    {
      ParseNStep(ParseIndex, n.value - i, r.Rest(), items);
      var x := ReadIndex(r);
      if x.None? {
        return None;
      }
      items := items + [x.value];
    }
    assert items + [] == items;
    return Some(items);
  }

  method ReadStores(r: Reader) returns (v: Option<seq<StoreMeta>>)
    requires r.Valid()
    modifies r
    ensures r.Valid() && Reads(ParseList(ParseStore, old(r.Rest())), v, r.Rest())
  {
    hide ParseStore;
    var n := r.U32();
    if n.None? {
      return None;
    }
    ghost var start := r.Rest();
    var items: seq<StoreMeta> := [];
    PrependNothing(ParseN(ParseStore, n.value, start));
    for i := 0 to n.value
      invariant r.Valid()
      invariant Prepend(items, ParseN(ParseStore, n.value - i, r.Rest())) == ParseN(ParseStore, n.value, start)
    {
      ParseNStep(ParseStore, n.value - i, r.Rest(), items);
      var x := ReadStore(r);
      if x.None? {
        return None;
      }
      items := items + [x.value];
    }
    assert items + [] == items;
    return Some(items);
  }

  /** `encode_meta`. */
  method EncodeMeta(m: DatabaseMeta) returns (out: seq<byte>)
    ensures out == MetaBytes(m)
  {
    hide LeBytes, Utf16Bytes, CountBytes, StoreBytes;
    var name := WriteUtf16(m.name);
    var list := CountBytes(|m.stores|);
    for i := 0 to |m.stores|
      invariant list == CountBytes(|m.stores|) + Concat(StoreBytes, m.stores[..i])
    {
      var store := WriteStore(m.stores[i]);
      assert m.stores[..i + 1] == m.stores[..i] + [m.stores[i]];
      ConcatAppend(StoreBytes, m.stores[..i], [m.stores[i]]);
      ConcatOne(StoreBytes, m.stores[i]);
      list := list + store;
    }
    assert m.stores[..|m.stores|] == m.stores;
    out := LeBytes(META_MAGIC, 4) + LeBytes(META_VERSION, 4) + name + LeBytes(m.version, 8) +
           LeBytes(m.nextStoreId, 8) + LeBytes(m.nextIndexId, 8) + list;
  }

  /** `decode_meta`. */
  method DecodeMeta(bytes: seq<byte>) returns (v: Option<DatabaseMeta>)
    ensures Reads(ParseMeta(bytes), v, [])
  {
    hide ParseU32, ParseU64, ParseUtf16, ParseStore;
    var r := new Reader(bytes);
    var magic := r.U32();
    if magic.None? || magic.value != META_MAGIC { return None; }
    var version := r.U32();
    if version.None? || version.value != META_VERSION { return None; }
    var name := ReadUtf16(r);
    if name.None? { return None; }
    var dbVersion := r.U64();
    if dbVersion.None? { return None; }
    var nextStoreId := r.U64();
    if nextStoreId.None? { return None; }
    var nextIndexId := r.U64();
    if nextIndexId.None? { return None; }
    var stores := ReadStores(r);
    if stores.None? || r.Rest() != [] { return None; }
    return Some(DatabaseMeta(name.value, dbVersion.value, stores.value, nextStoreId.value, nextIndexId.value));
  }

  /** `encode_manifest`. */
  method EncodeManifest(d: ManifestData) returns (out: seq<byte>)
    ensures out == Sealed(ManifestBody(d))
  {
    hide LeBytes, CountBytes, WordBytes, Crc32c;
    var list := CountBytes(|d.segments|);
    for i := 0 to |d.segments|
      invariant list == CountBytes(|d.segments|) + Concat(WordBytes, d.segments[..i])
    {
      assert d.segments[..i + 1] == d.segments[..i] + [d.segments[i]];
      ConcatAppend(WordBytes, d.segments[..i], [d.segments[i]]);
      ConcatOne(WordBytes, d.segments[i]);
      list := list + WordBytes(d.segments[i]);
    }
    assert d.segments[..|d.segments|] == d.segments;
    var body := LeBytes(MANIFEST_MAGIC, 4) + LeBytes(MANIFEST_VERSION, 4) + LeBytes(d.manifestSeq, 8) +
                LeBytes(d.walSeq, 8) + list;
    assert body == ManifestBody(d);
    out := body + LeBytes(Crc32c(body), 4);
  }

  /** The fixed fields of a manifest body, by offset. */
  lemma ManifestFields(body: seq<byte>)
    requires |body| >= 28
    ensures ParseU32(body) == Done(U32At(body[0..4]), body[4..])
    ensures ParseU32(body[4..]) == Done(U32At(body[4..8]), body[8..])
    ensures ParseU64(body[8..]) == Done(U64At(body[8..16]), body[16..])
    ensures ParseU64(body[16..]) == Done(U64At(body[16..24]), body[24..])
    ensures ParseU32(body[24..]) == Done(U32At(body[24..28]), body[28..])
  {
    hide U32At, U64At;
    WordFields(body, 0);
    WordFields(body, 4);
    WordFields(body, 8);
    WordFields(body, 16);
    WordFields(body, 24);
    assert body[0..] == body;
  }

  lemma WordFields(s: seq<byte>, i: nat)
    ensures i + 4 <= |s| ==> ParseU32(s[i..]) == Done(U32At(s[i..i + 4]), s[i + 4..])
    ensures i + 8 <= |s| ==> ParseU64(s[i..]) == Done(U64At(s[i..i + 8]), s[i + 8..])
    ensures i <= |s| < i + 8 ==> ParseU64(s[i..]).Fail?
  {
    hide U32At, U64At;
    if i + 4 <= |s| {
      assert s[i..][..4] == s[i..i + 4] && s[i..][4..] == s[i + 4..];
    }
    if i + 8 <= |s| {
      assert s[i..][..8] == s[i..i + 8] && s[i..][8..] == s[i + 8..];
    }
  }

  /** `decode_manifest`. */
  method DecodeManifest(bytes: seq<byte>) returns (v: Option<ManifestData>)
    ensures Reads(ParseManifest(bytes), v, [])
  {
    hide U32At, U64At, ParseU32, ParseU64, Crc32c;
    if |bytes| < 4 + 4 + 8 + 8 + 4 + 4 { return None; }
    var body := bytes[..|bytes| - 4];
    if U32At(bytes[|bytes| - 4..]) != Crc32c(body) { return None; }
    ManifestFields(body);
    if U32At(body[0..4]) != MANIFEST_MAGIC { return None; }
    if U32At(body[4..8]) != MANIFEST_VERSION { return None; }
    var n := U32At(body[24..28]);
    var pos := 28;
    var segments: seq<u64> := [];
    ghost var start := body[28..];
    PrependNothing(ParseN(ParseU64, n, start));
    for i := 0 to n
      invariant 28 <= pos <= |body|
      invariant Prepend(segments, ParseN(ParseU64, n - i, body[pos..])) == ParseN(ParseU64, n, start)
    {
      ParseNStep(ParseU64, n - i, body[pos..], segments);
      WordFields(body, pos);
      if pos + 8 > |body| { return None; }
      segments := segments + [U64At(body[pos..pos + 8])];
      pos := pos + 8;
    }
    assert segments + [] == segments;
    if pos != |body| { return None; }
    return Some(ManifestData(U64At(body[8..16]), U64At(body[16..24]), segments));
  }
}
