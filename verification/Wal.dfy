/** Write-ahead log codec: LEB128 numbers, operations and checksummed frames. */
module Wal {
  import opened Bytes
  import opened Codec

  /** `IWAL`, little-endian. */
  const WAL_MAGIC: u32 := 0x4C41_5749
  const FLAG_CONTINUES: byte := 0x01
  const FLAG_COMMIT: byte := 0x02
  const MAX_FRAME_PAYLOAD: u32 := 64 * 1024 * 1024
  /** Magic, payload length, sequence number, flags. */
  const HEADER_LEN: nat := 4 + 4 + 8 + 1

  datatype WalOp =
    | Put(store: u64, key: Blob, value: Blob)
    | Delete(store: u64, key: Blob)
    | Clear(store: u64)
    | IndexPut(index: u64, idxKey: Blob, primaryKey: Blob)
    | IndexDelete(index: u64, idxKey: Blob, primaryKey: Blob)
    | KeyGenSet(store: u64, valueBits: u64)
    | MetaReplace(bytes: Blob)

  const OP_PUT: byte := 1
  const OP_DELETE: byte := 2
  const OP_CLEAR: byte := 3
  const OP_INDEX_PUT: byte := 4
  const OP_INDEX_DELETE: byte := 5
  const OP_KEY_GEN: byte := 6
  const OP_META: byte := 7

  datatype WalFrame = WalFrame(txnSeq: u64, flags: byte, ops: seq<WalOp>)

  datatype CodecError =
    | Torn
    | BadMagic(magic: u32)
    | BadCrc(expected: u32, actual: u32)
    | PayloadTooLarge(needed: nat)
    | Malformed(reason: string)

  datatype Result<+T> = Ok(value: T) | Err(error: CodecError)

  // ---------------------------------------------------------------- LEB128

  function VarintBytes(v: nat): (s: seq<byte>)
    ensures |s| > 0
  {
    if v < 0x80 then [v] else [v % 0x80 + 0x80] + VarintBytes(v / 0x80)
  }

  /** One more base-128 digit: `acc` holds the `shift` low bits, so the source's `or` is an addition;
      bits shifted beyond the 64th are lost. */
  function Accumulate(acc: u64, digit: nat, shift: nat): u64 {
    (acc + digit * Pow2(shift)) % U64_LIMIT
  }

  function ParseVarintFrom(s: seq<byte>, shift: nat, acc: u64): Parsed<u64> {
    if s == [] then Fail("truncated varint")
    else if shift >= 64 then Fail("varint overflow")
    else
      var result := Accumulate(acc, s[0] % 0x80, shift);
      if s[0] < 0x80 then Done(result, s[1..]) else ParseVarintFrom(s[1..], shift + 7, result)
  }

  function ParseVarint(s: seq<byte>): Parsed<u64> {
    ParseVarintFrom(s, 0, 0)
  }

  lemma SplitDigit(v: nat, p: nat)
    ensures v * p == (v % 0x80) * p + (v / 0x80) * (0x80 * p)
  {
    var low, high := v % 0x80, v / 0x80;
    assert v == low + high * 0x80;
    assert (low + high * 0x80) * p == low * p + (high * 0x80) * p;
  }

  lemma Pow2Seven(n: nat)
    ensures Pow2(n + 7) == 0x80 * Pow2(n)
  {
    assert Pow2(n + 2) == 4 * Pow2(n);
    assert Pow2(n + 4) == 4 * Pow2(n + 2);
    assert Pow2(n + 6) == 4 * Pow2(n + 4);
  }

  lemma ShiftBound(high: nat, shift: nat)
    requires high > 0 && high * Pow2(shift) < U64_LIMIT
    ensures shift < 64
  {
    hide Pow2;
    assert high * Pow2(shift) >= Pow2(shift);
    WordSizes();
    if shift >= 64 {
      Pow2Monotone(64, shift);
    }
  }

  lemma VarintDigit(v: nat, shift: nat, acc: u64)
    requires acc + v * Pow2(shift) < U64_LIMIT
    ensures v < 0x80 ==> Accumulate(acc, v, shift) == acc + v * Pow2(shift)
    ensures v >= 0x80 ==> shift + 7 < 64
    ensures v >= 0x80 ==> Accumulate(acc, v % 0x80, shift) + (v / 0x80) * Pow2(shift + 7) == acc + v * Pow2(shift)
  {
    hide Pow2;
    if v < 0x80 {
      assert v * Pow2(shift) >= 0;
    } else {
      Pow2Seven(shift);
      SplitDigit(v, Pow2(shift));
      assert (v % 0x80) * Pow2(shift) >= 0 && (v / 0x80) * Pow2(shift + 7) >= 0;
      ShiftBound(v / 0x80, shift + 7);
    }
  }

  lemma {:induction false} VarintFromInverts(v: nat, shift: nat, acc: u64, rest: seq<byte>)
    requires shift < 64 && acc + v * Pow2(shift) < U64_LIMIT
    ensures ParseVarintFrom(VarintBytes(v) + rest, shift, acc) == Done(acc + v * Pow2(shift), rest)
    decreases v
  {
    hide Pow2, Accumulate, ParseVarintFrom;
    VarintDigit(v, shift, acc);
    if v < 0x80 {
      ParseDigit(v, rest, shift, acc);
    } else {
      ParseDigit(v % 0x80 + 0x80, VarintBytes(v / 0x80) + rest, shift, acc);
      assert VarintBytes(v) + rest == [v % 0x80 + 0x80] + (VarintBytes(v / 0x80) + rest);
      VarintFromInverts(v / 0x80, shift + 7, Accumulate(acc, v % 0x80, shift), rest);
    }
  }

  /** One byte of a varint read. */
  lemma ParseDigit(b: byte, rest: seq<byte>, shift: nat, acc: u64)
    requires shift < 64
    ensures ParseVarintFrom([b] + rest, shift, acc) ==
            var result := Accumulate(acc, b % 0x80, shift);
            if b < 0x80 then Done(result, rest) else ParseVarintFrom(rest, shift + 7, result)
  {
    hide Accumulate;
    assert ([b] + rest)[1..] == rest;
  }

  lemma VarintInverts(v: u64, rest: seq<byte>)
    ensures ParseVarint(VarintBytes(v) + rest) == Done(v, rest)
  {
    VarintFromInverts(v, 0, 0, rest);
  }

  method WriteVarint(v0: u64) returns (out: seq<byte>)
    ensures out == VarintBytes(v0)
  {
    out := [];
    var v := v0;
    while true
      invariant 0 <= v
      invariant out + VarintBytes(v) == VarintBytes(v0)
      decreases v
    {
      var b: byte := v % 0x80;
      v := v / 0x80;
      if v != 0 {
        out := out + [b + 0x80];
      } else {
        out := out + [b];
        break;
      }
    }
  }

  method ReadVarint(input: seq<byte>) returns (r: Parsed<u64>)
    ensures r == ParseVarint(input)
  {
    var result: u64 := 0;
    var shift := 0;
    for i := 0 to |input|
      invariant shift >= 0
      invariant ParseVarintFrom(input[i..], shift, result) == ParseVarint(input)
    {
      var b := input[i];
      assert input[i..][0] == b && input[i..][1..] == input[i + 1..];
      if shift >= 64 {
        return Fail("varint overflow");
      }
      result := Accumulate(result, b % 0x80, shift);
      if b < 0x80 {
        return Done(result, input[i + 1..]);
      }
      shift := shift + 7;
    }
    return Fail("truncated varint");
  }

  method VarintLen(v0: u64) returns (len: nat)
    ensures len == |VarintBytes(v0)|
  {
    len := 1;
    var v := v0;
    while v >= 0x80
      invariant 0 <= v && len + |VarintBytes(v)| == 1 + |VarintBytes(v0)|
    {
      len := len + 1;
      v := v / 0x80;
    }
  }

  /** Counting one more operation never shortens the count prefix. */
  lemma {:induction false} VarintLenMonotone(a: nat, b: nat)
    requires a <= b
    ensures |VarintBytes(a)| <= |VarintBytes(b)|
    decreases b
  {
    if a >= 0x80 {
      VarintLenMonotone(a / 0x80, b / 0x80);
    }
  }

  // ---------------------------------------------------------------- operations

  function BlobBytes(b: seq<byte>): seq<byte> {
    VarintBytes(|b|) + b
  }

  function ParseBlob(s: seq<byte>): Parsed<Blob> {
    var (len, r) :- ParseVarint(s);
    if |r| < len then Fail("truncated bytes") else Done(r[..len], r[len..])
  }

  lemma BlobInverts(b: Blob, rest: seq<byte>)
    ensures ParseBlob(BlobBytes(b) + rest) == Done(b, rest)
  {
    assert BlobBytes(b) + rest == VarintBytes(|b|) + (b + rest);
    VarintInverts(|b|, b + rest);
    assert (b + rest)[..|b|] == b && (b + rest)[|b|..] == rest;
  }

  function OpKind(op: WalOp): byte {
    match op
    case Put(_, _, _) => OP_PUT
    case Delete(_, _) => OP_DELETE
    case Clear(_) => OP_CLEAR
    case IndexPut(_, _, _) => OP_INDEX_PUT
    case IndexDelete(_, _, _) => OP_INDEX_DELETE
    case KeyGenSet(_, _) => OP_KEY_GEN
    case MetaReplace(_) => OP_META
  }

  /** The bytes behind an operation's kind byte. */
  function OpBody(op: WalOp): seq<byte> {
    match op
    case Put(store, key, value) => VarintBytes(store) + BlobBytes(key) + BlobBytes(value)
    case Delete(store, key) => VarintBytes(store) + BlobBytes(key)
    case Clear(store) => VarintBytes(store)
    case IndexPut(index, ik, pk) => VarintBytes(index) + BlobBytes(ik) + BlobBytes(pk)
    case IndexDelete(index, ik, pk) => VarintBytes(index) + BlobBytes(ik) + BlobBytes(pk)
    case KeyGenSet(store, bits) => VarintBytes(store) + LeBytes(bits, 8)
    case MetaReplace(bytes) => BlobBytes(bytes)
  }

  function OpBytes(op: WalOp): seq<byte> {
    [OpKind(op)] + OpBody(op)
  }

  function ParseIdBlob(s: seq<byte>): Parsed<(u64, Blob)> {
    var (id, r) :- ParseVarint(s);
    var (a, r2) :- ParseBlob(r);
    Done((id, a), r2)
  }

  function ParseIdBlobBlob(s: seq<byte>): Parsed<(u64, Blob, Blob)> {
    var (x, r) :- ParseIdBlob(s);
    var (b, r2) :- ParseBlob(r);
    Done((x.0, x.1, b), r2)
  }

  function ParseKeyGen(s: seq<byte>): Parsed<WalOp> {
    var (store, r) :- ParseVarint(s);
    if |r| < 8 then Fail("keygen bits") else Done(KeyGenSet(store, U64At(r[..8])), r[8..])
  }

  function ParseOp(s: seq<byte>): Parsed<WalOp> {
    if s == [] then Fail("truncated ops") else ParseOpBody(s[0], s[1..])
  }

  function ParseOpBody(kind: byte, s: seq<byte>): Parsed<WalOp> {
    if kind == OP_PUT then var (x, r) :- ParseIdBlobBlob(s); Done(Put(x.0, x.1, x.2), r)
    else if kind == OP_DELETE then var (x, r) :- ParseIdBlob(s); Done(Delete(x.0, x.1), r)
    else if kind == OP_CLEAR then var (id, r) :- ParseVarint(s); Done(Clear(id), r)
    else if kind == OP_INDEX_PUT then var (x, r) :- ParseIdBlobBlob(s); Done(IndexPut(x.0, x.1, x.2), r)
    else if kind == OP_INDEX_DELETE then var (x, r) :- ParseIdBlobBlob(s); Done(IndexDelete(x.0, x.1, x.2), r)
    else if kind == OP_KEY_GEN then ParseKeyGen(s)
    else if kind == OP_META then var (b, r) :- ParseBlob(s); Done(MetaReplace(b), r)
    else Fail("unknown op kind")
  }

  lemma OpInverts(op: WalOp)
    ensures Inverts(OpBytes, ParseOp, op)
  {
    forall rest: seq<byte> ensures ParseOp(OpBytes(op) + rest) == Done(op, rest) {
      OpRoundTrip(op, rest);
    }
  }

  lemma IdBlobInverts(id: u64, a: Blob, rest: seq<byte>)
    ensures ParseIdBlob(VarintBytes(id) + BlobBytes(a) + rest) == Done((id, a), rest)
  {
    hide VarintBytes, BlobBytes, ParseVarint, ParseBlob;
    assert VarintBytes(id) + BlobBytes(a) + rest == VarintBytes(id) + (BlobBytes(a) + rest);
    VarintInverts(id, BlobBytes(a) + rest);
    BlobInverts(a, rest);
  }

  lemma IdBlobBlobInverts(id: u64, a: Blob, b: Blob, rest: seq<byte>)
    ensures ParseIdBlobBlob(VarintBytes(id) + BlobBytes(a) + BlobBytes(b) + rest) == Done((id, a, b), rest)
  {
    hide VarintBytes, BlobBytes, ParseIdBlob, ParseBlob;
    assert VarintBytes(id) + BlobBytes(a) + BlobBytes(b) + rest == VarintBytes(id) + BlobBytes(a) + (BlobBytes(b) + rest);
    IdBlobInverts(id, a, BlobBytes(b) + rest);
    BlobInverts(b, rest);
  }

  lemma KeyGenInverts(store: u64, bits: u64, rest: seq<byte>)
    ensures ParseKeyGen(VarintBytes(store) + LeBytes(bits, 8) + rest) == Done(KeyGenSet(store, bits), rest)
  {
    hide VarintBytes, ParseVarint;
    assert VarintBytes(store) + LeBytes(bits, 8) + rest == VarintBytes(store) + (LeBytes(bits, 8) + rest);
    VarintInverts(store, LeBytes(bits, 8) + rest);
    ParseWords(bits, rest);
  }

  lemma OpBodyInverts(op: WalOp, rest: seq<byte>)
    ensures ParseOpBody(OpKind(op), OpBody(op) + rest) == Done(op, rest)
  {
    hide VarintBytes, BlobBytes, ParseVarint, ParseBlob, ParseIdBlob, ParseIdBlobBlob, ParseKeyGen;
    match op
    case Put(store, key, value) => IdBlobBlobInverts(store, key, value, rest);
    case Delete(store, key) => IdBlobInverts(store, key, rest);
    case Clear(store) => VarintInverts(store, rest);
    case IndexPut(index, ik, pk) => IdBlobBlobInverts(index, ik, pk, rest);
    case IndexDelete(index, ik, pk) => IdBlobBlobInverts(index, ik, pk, rest);
    case KeyGenSet(store, bits) => KeyGenInverts(store, bits, rest);
    case MetaReplace(bytes) => BlobInverts(bytes, rest);
  }

  lemma OpRoundTrip(op: WalOp, rest: seq<byte>)
    ensures ParseOp(OpBytes(op) + rest) == Done(op, rest)
  {
    hide OpBody, ParseOpBody;
    assert (OpBytes(op) + rest)[1..] == OpBody(op) + rest;
    OpBodyInverts(op, rest);
  }

  method WriteBytes(b: Blob) returns (out: seq<byte>)
    ensures out == BlobBytes(b)
  {
    out := WriteVarint(|b|);
    out := out + b;
  }

  method EncodeOp(op: WalOp) returns (out: seq<byte>)
    ensures out == OpBytes(op)
  {
    hide VarintBytes, BlobBytes;
    match op
    case Put(store, key, value) =>
      var a := WriteVarint(store);
      var b := WriteBytes(key);
      var c := WriteBytes(value);
      out := [OP_PUT] + a + b + c;
    case Delete(store, key) =>
      var a := WriteVarint(store);
      var b := WriteBytes(key);
      out := [OP_DELETE] + a + b;
    case Clear(store) =>
      var a := WriteVarint(store);
      out := [OP_CLEAR] + a;
    case IndexPut(index, ik, pk) =>
      var a := WriteVarint(index);
      var b := WriteBytes(ik);
      var c := WriteBytes(pk);
      out := [OP_INDEX_PUT] + a + b + c;
    case IndexDelete(index, ik, pk) =>
      var a := WriteVarint(index);
      var b := WriteBytes(ik);
      var c := WriteBytes(pk);
      out := [OP_INDEX_DELETE] + a + b + c;
    case KeyGenSet(store, bits) =>
      var a := WriteVarint(store);
      out := [OP_KEY_GEN] + a + LeBytes(bits, 8);
    case MetaReplace(bytes) =>
      var b := WriteBytes(bytes);
      out := [OP_META] + b;
  }

  method BytesLen(b: Blob) returns (len: nat)
    ensures len == |BlobBytes(b)|
  {
    len := VarintLen(|b|);
    len := len + |b|;
  }

  /** The packer's running measure: exact without serializing. */
  method OpEncodedLen(op: WalOp) returns (len: nat)
    ensures len == |OpBytes(op)|
  {
    match op
    case Put(store, key, value) =>
      var a := VarintLen(store);
      var b := BytesLen(key);
      var c := BytesLen(value);
      len := 1 + a + b + c;
    case Delete(store, key) =>
      var a := VarintLen(store);
      var b := BytesLen(key);
      len := 1 + a + b;
    case Clear(store) =>
      var a := VarintLen(store);
      len := 1 + a;
    case IndexPut(index, ik, pk) =>
      var a := VarintLen(index);
      var b := BytesLen(ik);
      var c := BytesLen(pk);
      len := 1 + a + b + c;
    case IndexDelete(index, ik, pk) =>
      var a := VarintLen(index);
      var b := BytesLen(ik);
      var c := BytesLen(pk);
      len := 1 + a + b + c;
    case KeyGenSet(store, _) =>
      var a := VarintLen(store);
      len := 1 + a + 8;
    case MetaReplace(bytes) =>
      var b := BytesLen(bytes);
      len := 1 + b;
  }

  // ---------------------------------------------------------------- frame payloads

  function PayloadBytes(ops: seq<WalOp>): seq<byte> {
    VarintBytes(|ops|) + Concat(OpBytes, ops)
  }

  /** `decode_ops`: the counted operations and nothing after them. */
  function ParsePayload(payload: seq<byte>): Result<seq<WalOp>> {
    match ParseVarint(payload)
    case Fail(reason) => Err(Malformed(reason))
    case Done(count, r) =>
      match ParseN(ParseOp, count, r)
      case Fail(reason) => Err(Malformed(reason))
      case Done(ops, r2) => if r2 != [] then Err(Malformed("trailing payload bytes")) else Ok(ops)
  }

  lemma PayloadRoundTrip(ops: seq<WalOp>)
    requires |ops| < U64_LIMIT
    ensures ParsePayload(PayloadBytes(ops)) == Ok(ops)
  {
    VarintInverts(|ops|, Concat(OpBytes, ops));
    forall op | op in ops ensures Inverts(OpBytes, ParseOp, op) {
      OpInverts(op);
    }
    ParseNInverts(OpBytes, ParseOp, ops, []);
    assert Concat(OpBytes, ops) + [] == Concat(OpBytes, ops);
  }

  /** A payload with anything behind it is no payload. */
  lemma PayloadIsExact(ops: seq<WalOp>, rest: seq<byte>)
    requires |ops| < U64_LIMIT
    ensures ParsePayload(PayloadBytes(ops) + rest).Ok? <==> rest == []
  {
    hide ParseVarint, ParseN, ParseOp, OpBytes, VarintBytes, Concat, Inverts;
    PayloadRoundTrip(ops);
    VarintInverts(|ops|, Concat(OpBytes, ops) + rest);
    assert PayloadBytes(ops) + rest == VarintBytes(|ops|) + (Concat(OpBytes, ops) + rest);
    forall op | op in ops ensures Inverts(OpBytes, ParseOp, op) {
      OpInverts(op);
    }
    ParseNInverts(OpBytes, ParseOp, ops, rest);
  }

  /** An operation is read only behind its own kind byte. */
  lemma KindIsRead(s: seq<byte>)
    ensures ParseOp(s).Done? ==> s != [] && s[0] == OpKind(ParseOp(s).value)
  {
    hide ParseVarint, ParseBlob, ParseIdBlob, ParseIdBlobBlob;
  }

  method DecodeOps(payload0: seq<byte>) returns (r: Result<seq<WalOp>>)
    ensures r == ParsePayload(payload0)
  {
    hide ParseOp, ParseVarint;
    var head := ReadVarint(payload0);
    if head.Fail? {
      return Err(Malformed(head.reason));
    }
    var count, payload := head.value, head.rest;
    var ops: seq<WalOp> := [];
    PrependNothing(ParseN(ParseOp, count, payload));
    for i := 0 to count
      invariant Prepend(ops, ParseN(ParseOp, count - i, payload)) == ParseN(ParseOp, count, head.rest)
    {
      ParseNStep(ParseOp, count - i, payload, ops);
      var op := ParseOp(payload);
      if op.Fail? {
        return Err(Malformed(op.reason));
      }
      ops, payload := ops + [op.value], op.rest;
    }
    assert ops + [] == ops;
    if payload != [] {
      return Err(Malformed("trailing payload bytes"));
    }
    return Ok(ops);
  }

  // ---------------------------------------------------------------- frames

  /** Everything the checksum covers. */
  function FrameBody(f: WalFrame): seq<byte> {
    var payload := PayloadBytes(f.ops);
    LeBytes(WAL_MAGIC, 4) + LeBytes(|payload| % U32_LIMIT, 4) + LeBytes(f.txnSeq, 8) + [f.flags] + payload
  }

  function FrameBytes(f: WalFrame): (s: seq<byte>)
    ensures |s| == HEADER_LEN + |PayloadBytes(f.ops)| + 4
  {
    FrameBody(f) + LeBytes(Crc32c(FrameBody(f)), 4)
  }

  /** What `decode_frame` answers: clean end of input, a frame and the bytes it took, or a defect. */
  datatype Decoded = CleanEof | Frame(frame: WalFrame, consumed: nat) | Defect(error: CodecError)

  function DecodeFrame(input: seq<byte>): (r: Decoded)
    ensures r.Frame? ==> HEADER_LEN < r.consumed <= |input|
  {
    if input == [] then CleanEof
    else if |input| < HEADER_LEN + 4 then Defect(Torn)
    else
      var magic := U32At(input[0..4]);
      if magic != WAL_MAGIC then Defect(BadMagic(magic))
      else
        var len := U32At(input[4..8]);
        if len > MAX_FRAME_PAYLOAD then Defect(PayloadTooLarge(len))
        else
          var body := HEADER_LEN + len;
          var total := body + 4;
          if |input| < total then Defect(Torn)
          else
            var expected := U32At(input[body..total]);
            var actual := Crc32c(input[..body]);
            if expected != actual then Defect(BadCrc(expected, actual))
            else
              match ParsePayload(input[HEADER_LEN..body])
              case Err(e) => Defect(e)
              case Ok(ops) => Frame(WalFrame(U64At(input[8..16]), input[16], ops), total)
  }

  /** On arbitrary bytes: exactly what is taken for a frame. The stored word must be the checksum of everything
      before it. */
  lemma DecodedMeans(s: seq<byte>, f: WalFrame, n: nat)
    ensures DecodeFrame(s) == Frame(f, n) <==>
            && HEADER_LEN + 4 <= n <= |s| && U32At(s[0..4]) == WAL_MAGIC
            && n == HEADER_LEN + U32At(s[4..8]) + 4 && n - HEADER_LEN - 4 <= MAX_FRAME_PAYLOAD
            && U32At(s[n - 4..n]) == Crc32c(s[..n - 4])
            && f.txnSeq == U64At(s[8..16]) && f.flags == s[HEADER_LEN - 1]
            && ParsePayload(s[HEADER_LEN..n - 4]) == Ok(f.ops)
  {
    hide Crc32c, ParsePayload, U32At, U64At;
  }

  /** Any word but its checksum behind a frame's body makes it a corrupt frame, whatever follows. */
  lemma CorruptFrame(f: WalFrame, word: seq<byte>, rest: seq<byte>)
    requires |word| == 4 && |PayloadBytes(f.ops)| <= MAX_FRAME_PAYLOAD && U32At(word) != Crc32c(FrameBody(f))
    ensures DecodeFrame(FrameBody(f) + word + rest) == Defect(BadCrc(U32At(word), Crc32c(FrameBody(f))))
  {
    hide Crc32c, PayloadBytes, LeBytes, U32At, U64At;
    var p := PayloadBytes(f.ops);
    Layout(LeBytes(WAL_MAGIC, 4), LeBytes(|p| % U32_LIMIT, 4), LeBytes(f.txnSeq, 8), f.flags, p, word, rest);
    WordRoundTrip(WAL_MAGIC);
    WordRoundTrip(|p|);
  }

  /** A frame with one bit of its body flipped, outside the length, is no frame. */
  lemma FlippedFrame(f: WalFrame, body: seq<byte>, i: nat, rest: seq<byte>)
    requires |PayloadBytes(f.ops)| <= MAX_FRAME_PAYLOAD && |body| == |FrameBody(f)| && body[4..8] == FrameBody(f)[4..8]
    requires OneBitDiffers(FrameBody(f), body, i)
    ensures !DecodeFrame(body + LeBytes(Crc32c(FrameBody(f)), 4) + rest).Frame?
  {
    hide Crc32c, PayloadBytes, LeBytes, U32At, U64At, Bits;
    var p, n := PayloadBytes(f.ops), |body|;
    FrameLayout(f, []);
    assert FrameBytes(f) + [] == FrameBytes(f);
    assert FrameBytes(f)[4..8] == FrameBody(f)[4..8];
    var s := body + LeBytes(Crc32c(FrameBody(f)), 4) + rest;
    assert s[4..8] == body[4..8] && s[..n] == body && s[n..n + 4] == LeBytes(Crc32c(FrameBody(f)), 4);
    FlippedBitShows(FrameBody(f), body, i);
    WordRoundTrip(Crc32c(FrameBody(f)));
    if DecodeFrame(s).Frame? {
      DecodedMeans(s, DecodeFrame(s).frame, DecodeFrame(s).consumed);
    }
  }

  /** Where the fields of an encoded frame lie. */
  lemma Layout(m: seq<byte>, l: seq<byte>, q: seq<byte>, flags: byte, p: seq<byte>, c: seq<byte>, rest: seq<byte>)
    requires |m| == 4 && |l| == 4 && |q| == 8 && |c| == 4
    ensures var body := m + l + q + [flags] + p;
            var s, n := body + c + rest, HEADER_LEN + |p|;
            && |body| == n && s[0..4] == m && s[4..8] == l && s[8..16] == q && s[16] == flags
            && s[HEADER_LEN..n] == p && s[..n] == body && s[n..n + 4] == c
  {
  }

  lemma FrameLayout(f: WalFrame, rest: seq<byte>)
    ensures var s, p, n := FrameBytes(f) + rest, PayloadBytes(f.ops), HEADER_LEN + |PayloadBytes(f.ops)|;
            && |FrameBody(f)| == n
            && U32At(s[0..4]) == WAL_MAGIC && U64At(s[8..16]) == f.txnSeq && s[16] == f.flags
            && (|p| < U32_LIMIT ==> U32At(s[4..8]) == |p|)
            && s[HEADER_LEN..n] == p
            && s[..n] == FrameBody(f) && U32At(s[n..n + 4]) == Crc32c(FrameBody(f))
  {
    hide Crc32c, PayloadBytes, LeBytes, U32At, U64At;
    var p := PayloadBytes(f.ops);
    var m, l, q := LeBytes(WAL_MAGIC, 4), LeBytes(|p| % U32_LIMIT, 4), LeBytes(f.txnSeq, 8);
    Layout(m, l, q, f.flags, p, LeBytes(Crc32c(FrameBody(f)), 4), rest);
    WordRoundTrip(WAL_MAGIC);
    WordRoundTrip(|p|);
    WordRoundTrip(f.txnSeq);
    WordRoundTrip(Crc32c(FrameBody(f)));
  }

  /** A frame decodes to itself whatever follows it, exactly when its payload is acceptable. */
  lemma FrameRoundTrip(f: WalFrame, rest: seq<byte>)
    requires |PayloadBytes(f.ops)| < U32_LIMIT
    ensures DecodeFrame(FrameBytes(f) + rest) ==
            if |PayloadBytes(f.ops)| <= MAX_FRAME_PAYLOAD then Frame(f, |FrameBytes(f)|)
            else Defect(PayloadTooLarge(|PayloadBytes(f.ops)|))
  {
    FrameLayout(f, rest);
    PayloadHoldsOps(f.ops);
    PayloadRoundTrip(f.ops);
  }

  lemma {:induction false} OpsOccupyBytes(ops: seq<WalOp>)
    ensures |Concat(OpBytes, ops)| >= |ops|
  {
    if ops != [] {
      OpsOccupyBytes(ops[1..]);
    }
  }

  /** Every operation takes a byte, so a payload bounds its operation count. */
  lemma PayloadHoldsOps(ops: seq<WalOp>)
    ensures |ops| < |PayloadBytes(ops)|
  {
    OpsOccupyBytes(ops);
  }

  /** A crash that cuts inside a frame leaves bytes that no reader takes for a frame. */
  lemma TornFrame(f: WalFrame, n: nat)
    requires |PayloadBytes(f.ops)| <= MAX_FRAME_PAYLOAD
    requires 0 < n < |FrameBytes(f)|
    ensures DecodeFrame(FrameBytes(f)[..n]) == Defect(Torn)
  {
    if n >= HEADER_LEN + 4 {
      FrameLayout(f, []);
      var s := FrameBytes(f) + [];
      assert s[..n] == FrameBytes(f)[..n];
      assert s[..n][0..4] == s[0..4] && s[..n][4..8] == s[4..8];
    }
  }

  /** A decoded frame depends on its own bytes only. */
  lemma DecodeFrameLocal(a: seq<byte>, b: seq<byte>)
    requires DecodeFrame(a).Frame?
    ensures var n := DecodeFrame(a).consumed;
            n <= |b| && a[..n] == b[..n] ==> DecodeFrame(b) == DecodeFrame(a)
  {
    hide Crc32c, ParsePayload;
    var n := DecodeFrame(a).consumed;
    if n <= |b| && a[..n] == b[..n] {
      var body := n - 4;
      SlicesAgree(a, b, n, 0, 4);
      SlicesAgree(a, b, n, 4, 8);
      SlicesAgree(a, b, n, 8, 16);
      SlicesAgree(a, b, n, HEADER_LEN, body);
      SlicesAgree(a, b, n, body, n);
      SlicesAgree(a, b, n, 0, body);
      assert a[..n][16] == b[..n][16];
    }
  }

  method EncodePayload(ops: seq<WalOp>) returns (payload: seq<byte>)
    requires |ops| < U64_LIMIT
    ensures payload == PayloadBytes(ops)
  {
    hide VarintBytes, OpBytes;
    payload := WriteVarint(|ops|);
    for i := 0 to |ops|
      invariant payload == VarintBytes(|ops|) + Concat(OpBytes, ops[..i])
    {
      var op := EncodeOp(ops[i]);
      assert ops[..i + 1] == ops[..i] + [ops[i]];
      ConcatAppend(OpBytes, ops[..i], [ops[i]]);
      ConcatOne(OpBytes, ops[i]);
      payload := payload + op;
    }
    assert ops[..|ops|] == ops;
  }

  /** `encode_frame_limited`. */
  method EncodeFrameLimited(f: WalFrame, maxPayload: u32) returns (r: Result<seq<byte>>)
    requires |f.ops| < U64_LIMIT
    ensures r == if |PayloadBytes(f.ops)| > maxPayload then Err(PayloadTooLarge(|PayloadBytes(f.ops)|))
                 else Ok(FrameBytes(f))
  {
    hide PayloadBytes, Crc32c, LeBytes;
    var payload := EncodePayload(f.ops);
    if |payload| > maxPayload {
      return Err(PayloadTooLarge(|payload|));
    }
    var out := LeBytes(WAL_MAGIC, 4) + LeBytes(|payload| % U32_LIMIT, 4) + LeBytes(f.txnSeq, 8) + [f.flags] + payload;
    var crc := Crc32c(out);
    return Ok(out + LeBytes(crc, 4));
  }
}
