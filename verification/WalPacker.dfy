/** Packing one transaction into frames under a payload limit. */
module WalPacker {
  import opened Bytes
  import opened Wal
  import opened WalRecovery

  predicate Fits(ops: seq<WalOp>, max: nat) {
    |PayloadBytes(ops)| <= max
  }

  predicate FitsAlone(op: WalOp, max: nat) {
    |OpBytes(op)| + 1 <= max
  }

  /** An operation fits alone exactly when a frame with nothing else in it is within the limit. */
  lemma FitsAloneMeans(op: WalOp, max: nat)
    ensures FitsAlone(op, max) <==> Fits([op], max)
  {
    ConcatOne(OpBytes, op);
    assert |VarintBytes(1)| == 1;
  }

  lemma MisfitIsTooLarge(ops: seq<WalOp>, max: nat, e: CodecError)
    requires FirstMisfit(ops, max, e)
    ensures e.PayloadTooLarge? && e.needed > max
  {
  }

  /** The greedy split: an operation joins the open group exactly when the group still fits. */
  function PackFrom(open: seq<WalOp>, ops: seq<WalOp>, max: nat): seq<seq<WalOp>>
    decreases |ops|
  {
    if ops == [] then (if open == [] then [] else [open])
    else if open == [] || Fits(open + [ops[0]], max) then PackFrom(open + [ops[0]], ops[1..], max)
    else [open] + PackFrom([ops[0]], ops[1..], max)
  }

  function Pack(ops: seq<WalOp>, max: nat): seq<seq<WalOp>> {
    PackFrom([], ops, max)
  }

  /** The frames of the groups: all but the last continue, the last commits. */
  function Frames(txnSeq: u64, groups: seq<seq<WalOp>>): (fs: seq<WalFrame>)
    ensures |fs| == |groups|
  {
    seq(|groups|, i requires 0 <= i < |groups| =>
        WalFrame(txnSeq, if i == |groups| - 1 then FLAG_COMMIT else FLAG_CONTINUES, groups[i]))
  }

  function TxnFrames(txnSeq: u64, ops: seq<WalOp>, max: nat): seq<WalFrame> {
    Frames(txnSeq, Pack(ops, max))
  }

  /** The operations of a frame list, in order. */
  function OpsOf(frames: seq<WalFrame>): seq<WalOp> {
    if frames == [] then [] else frames[0].ops + OpsOf(frames[1..])
  }

  /** A contiguous part of a group is never longer than the group. */
  lemma PartFits(a: seq<WalOp>, part: seq<WalOp>, b: seq<WalOp>, max: nat)
    requires Fits(a + part + b, max)
    ensures Fits(part, max)
  {
    hide VarintBytes, OpBytes;
    ConcatAppend(OpBytes, a + part, b);
    ConcatAppend(OpBytes, a, part);
    VarintLenMonotone(|part|, |a + part + b|);
  }

  lemma LoneOpFits(op: WalOp, max: nat)
    ensures Fits([op], max) <==> FitsAlone(op, max)
  {
    ConcatOne(OpBytes, op);
  }

  lemma JoinedLength(open: seq<WalOp>, op: WalOp)
    ensures |PayloadBytes(open + [op])| ==
            |VarintBytes(|open| + 1)| + |Concat(OpBytes, open)| + |OpBytes(op)|
    ensures |Concat(OpBytes, open + [op])| == |Concat(OpBytes, open)| + |OpBytes(op)|
  {
    ConcatAppend(OpBytes, open, [op]);
    ConcatOne(OpBytes, op);
  }

  /** The first operation that cannot fit a frame even alone, as the error names it. */
  ghost predicate FirstMisfit(ops: seq<WalOp>, max: nat, error: CodecError) {
    exists k | 0 <= k < |ops| ::
      && !FitsAlone(ops[k], max) && (forall j | 0 <= j < k :: FitsAlone(ops[j], max))
      && error == PayloadTooLarge(|OpBytes(ops[k])| + 1)
  }

  /** The packing loop: one pass over the operations with an exact running length. */
  method GroupOps(ops: seq<WalOp>, max: u32) returns (r: Result<seq<seq<WalOp>>>)
    requires |ops| < U64_LIMIT
    ensures r.Err? ==> FirstMisfit(ops, max, r.error)
    ensures r.Ok? ==> r.value == Pack(ops, max) && forall op | op in ops :: FitsAlone(op, max)
  {
    hide OpBytes, VarintBytes;
    var groups: seq<seq<WalOp>>, current: seq<WalOp> := [], [];
    var currentLen := 0;
    assert ops[0..] == ops;
    for i := 0 to |ops|
      invariant forall j | 0 <= j < i :: FitsAlone(ops[j], max)
      invariant |current| <= i
      invariant currentLen == |Concat(OpBytes, current)|
      invariant groups + PackFrom(current, ops[i..], max) == Pack(ops, max)
    {
      var op, rest := ops[i], ops[i + 1..];
      assert ops[i..][0] == op && ops[i..][1..] == rest;
      assert [] + [op] == [op];
      JoinedLength(current, op);
      JoinedLength([], op);
      var opLen := OpEncodedLen(op);
      if current == [] {
        if opLen + 1 > max {
          return Err(PayloadTooLarge(opLen + 1));
        }
        currentLen, current := opLen, [op];
      } else {
        var countLen := VarintLen(|current| + 1);
        if currentLen + opLen + countLen <= max {
          current, currentLen := current + [op], currentLen + opLen;
        } else {
          assert groups + ([current] + PackFrom([op], rest, max)) == groups + [current] + PackFrom([op], rest, max);
          groups, current := groups + [current], [];
          if opLen + 1 > max {
            return Err(PayloadTooLarge(opLen + 1));
          }
          currentLen, current := opLen, [op];
        }
      }
    }
    if current != [] {
      groups := groups + [current];
    }
    return Ok(groups);
  }

  /** The packer: the frames of the greedy groups, or the first operation no frame can hold. */
  method EncodeTxnFramesLimited(txnSeq: u64, ops: seq<WalOp>, max: u32) returns (r: Result<seq<seq<byte>>>)
    requires |ops| < U64_LIMIT
    ensures r.Ok? <==> forall op | op in ops :: FitsAlone(op, max)
    ensures r.Err? ==> FirstMisfit(ops, max, r.error)
    ensures r.Ok? ==> && |r.value| == |TxnFrames(txnSeq, ops, max)|
                      && forall i | 0 <= i < |r.value| :: r.value[i] == FrameBytes(TxnFrames(txnSeq, ops, max)[i])
  {
    hide FrameBytes, PayloadBytes, OpBytes, PackFrom;
    var grouped := GroupOps(ops, max);
    if grouped.Err? {
      return Err(grouped.error);
    }
    var groups := grouped.value;
    PackPartitions(ops, max);
    var out: seq<seq<byte>> := [];
    for i := 0 to |groups|
      invariant |out| == i
      invariant forall j | 0 <= j < i :: out[j] == FrameBytes(Frames(txnSeq, groups)[j])
    {
      assert groups[i] in groups;
      GroupIsShort(groups, i);
      var flags := if i == |groups| - 1 then FLAG_COMMIT else FLAG_CONTINUES;
      var bytes := EncodeFrameLimited(WalFrame(txnSeq, flags, groups[i]), max);
      out := out + [bytes.value];
    }
    return Ok(out);
  }

  lemma {:induction false} GroupIsShort(groups: seq<seq<WalOp>>, i: nat)
    requires i < |groups|
    ensures |groups[i]| <= |Flatten(groups)|
  {
    if i > 0 {
      GroupIsShort(groups[1..], i - 1);
    }
  }

  /** An order-preserving split of `ops` into groups that each fit one frame. */
  ghost predicate IsSplit(groups: seq<seq<WalOp>>, ops: seq<WalOp>, max: nat) {
    && Flatten(groups) == ops
    && forall g | g in groups :: g != [] && Fits(g, max)
  }

  /** The greedy groups are a split of the input, in order. */
  lemma PackPartitions(ops: seq<WalOp>, max: nat)
    requires forall op | op in ops :: FitsAlone(op, max)
    ensures IsSplit(Pack(ops, max), ops, max)
  {
    PackFromSplits([], ops, max);
    assert [] + ops == ops;
  }

  lemma {:induction false} PackFromSplits(open: seq<WalOp>, ops: seq<WalOp>, max: nat)
    requires open != [] ==> Fits(open, max)
    requires forall op | op in ops :: FitsAlone(op, max)
    ensures IsSplit(PackFrom(open, ops, max), open + ops, max)
    decreases |ops|
  {
    hide Fits, FitsAlone;
    if ops == [] {
      assert open + ops == open;
      if open != [] {
        assert [open][1..] == [];
        assert Flatten([open]) == open + Flatten([open][1..]) == open;
      }
    } else {
      LoneOpFits(ops[0], max);
      assert ops[0] in ops;
      assert [] + [ops[0]] == [ops[0]];
      assert open + ops == (open + [ops[0]]) + ops[1..] == open + ([ops[0]] + ops[1..]);
      if open == [] || Fits(open + [ops[0]], max) {
        PackFromSplits(open + [ops[0]], ops[1..], max);
      } else {
        PackFromSplits([ops[0]], ops[1..], max);
        assert PackFrom(open, ops, max)[1..] == PackFrom([ops[0]], ops[1..], max);
      }
    }
  }

  /** No split of the same operations uses fewer frames than the greedy one. */
  lemma PackIsFewest(ops: seq<WalOp>, max: nat, other: seq<seq<WalOp>>)
    requires forall op | op in ops :: FitsAlone(op, max)
    requires IsSplit(other, ops, max)
    ensures |Pack(ops, max)| <= |other|
  {
    hide PackFrom, Pack, Fits, FitsAlone;
    PackStarts(ops, max);
    if ops != [] {
      assert other != [];
      assert other[0] in other;
      assert ops == other[0] + Flatten(other[1..]);
      assert ops == [ops[0]] + ops[1..];
      assert [ops[0]][|[ops[0]]| - |[ops[0]]|..] == [ops[0]];
      NotBehind([ops[0]], [ops[0]], ops[1..], max, other);
    }
  }

  lemma PackStarts(ops: seq<WalOp>, max: nat)
    ensures Pack(ops, max) == if ops == [] then [] else PackFrom([ops[0]], ops[1..], max)
  {
    if ops != [] {
      assert [] + [ops[0]] == [ops[0]];
    }
  }

  /** The other split's open group starts no later than ours: it has used at least as many groups. */
  lemma {:induction false} NotBehind(open: seq<WalOp>, theirs: seq<WalOp>, ops: seq<WalOp>, max: nat, other: seq<seq<WalOp>>)
    requires open != [] && |open| <= |theirs| && theirs[|theirs| - |open|..] == open
    requires IsSplit(other, theirs + ops, max)
    requires other != [] && theirs <= other[0]
    ensures |PackFrom(open, ops, max)| <= |other|
    decreases |ops|, 1
  {
    hide Fits;
    if ops != [] {
      var op, rest := ops[0], ops[1..];
      assert other[0] in other;
      assert theirs + ops == theirs + [op] + rest;
      NextGroup(theirs, op, rest, max, other);
      if theirs + [op] <= other[0] {
        var before := theirs[..|theirs| - |open|];
        assert theirs + [op] == before + (open + [op]);
        assert other[0] == before + (open + [op]) + other[0][|theirs| + 1..];
        PartFits(before, open + [op], other[0][|theirs| + 1..], max);
        NotBehind(open + [op], theirs + [op], rest, max, other);
      } else if Fits(open + [op], max) {
        OneAhead(open + [op], [op], rest, max, other[1..]);
      } else {
        NotBehind([op], [op], rest, max, other[1..]);
      }
    }
  }

  /** The other split has already closed one group more. */
  lemma {:induction false} OneAhead(open: seq<WalOp>, theirs: seq<WalOp>, ops: seq<WalOp>, max: nat, other: seq<seq<WalOp>>)
    requires open != []
    requires IsSplit(other, theirs + ops, max)
    requires other != [] && theirs != [] && theirs <= other[0]
    ensures |PackFrom(open, ops, max)| <= 1 + |other|
    decreases |ops|, 0
  {
    hide Fits;
    if ops != [] {
      var op, rest := ops[0], ops[1..];
      assert theirs + ops == theirs + [op] + rest;
      NextGroup(theirs, op, rest, max, other);
      if Fits(open + [op], max) {
        if theirs + [op] <= other[0] {
          OneAhead(open + [op], theirs + [op], rest, max, other);
        } else {
          OneAhead(open + [op], [op], rest, max, other[1..]);
        }
      } else if theirs + [op] <= other[0] {
        NotBehind([op], theirs + [op], rest, max, other);
      } else {
        NotBehind([op], [op], rest, max, other[1..]);
      }
    }
  }

  /** The next operation is in the other split's open group or opens its next one. */
  lemma NextGroup(theirs: seq<WalOp>, op: WalOp, rest: seq<WalOp>, max: nat, other: seq<seq<WalOp>>)
    requires IsSplit(other, theirs + [op] + rest, max)
    requires other != [] && theirs <= other[0]
    ensures theirs + [op] <= other[0] ||
            (IsSplit(other[1..], [op] + rest, max) && other[1..] != [] && [op] <= other[1])
  {
    hide Fits;
    var tail := Flatten(other[1..]);
    var all := theirs + [op] + rest;
    assert all == other[0] + tail;
    if |other[0]| > |theirs| {
      assert (theirs + [op]) == all[..|theirs| + 1] == other[0][..|theirs| + 1];
    } else {
      assert other[0] == theirs;
      assert tail == all[|theirs|..] == [op] + rest;
      assert tail[0] == op;
      assert other[1] in other;
      assert tail == other[1] + Flatten(other[1..][1..]);
    }
  }

  /** One transaction's frames: they are a well-formed chain carrying the operations in order. */
  lemma TxnFramesAreATxn(txnSeq: u64, ops: seq<WalOp>, max: nat)
    requires ops != [] && max <= MAX_FRAME_PAYLOAD
    requires forall op | op in ops :: FitsAlone(op, max)
    ensures var fs := TxnFrames(txnSeq, ops, max);
            IsTxn(fs) && fs[0].txnSeq == txnSeq && OpsOf(fs) == ops
  {
    hide PayloadBytes, PackFrom;
    PackPartitions(ops, max);
    var groups := Pack(ops, max);
    var fs := Frames(txnSeq, groups);
    forall i | 0 <= i < |fs| ensures |PayloadBytes(fs[i].ops)| <= MAX_FRAME_PAYLOAD {
      assert groups[i] in groups;
    }
    OpsOfFrames(groups, fs);
  }

  lemma {:induction false} OpsOfFrames(groups: seq<seq<WalOp>>, fs: seq<WalFrame>)
    requires |fs| == |groups| && forall i | 0 <= i < |fs| :: fs[i].ops == groups[i]
    ensures OpsOf(fs) == Flatten(groups)
  {
    if fs != [] {
      OpsOfFrames(groups[1..], fs[1..]);
    }
  }

  /** What the packer writes, a reader gets back: the frames, then whatever the log already held. */
  lemma PackedTxnRecovers(buf: seq<byte>, txnSeq: u64, ops: seq<WalOp>, max: nat)
    requires ops != [] && max <= MAX_FRAME_PAYLOAD
    requires forall op | op in ops :: FitsAlone(op, max)
    ensures var fs, r := TxnFrames(txnSeq, ops, max), Recover(buf);
            Recover(buf[..r.validPrefixLen] + TxnBytes(fs)).frames == r.frames + fs
  {
    hide TxnFrames;
    TxnFramesAreATxn(txnSeq, ops, max);
    AppendAfterRecovery(buf, TxnFrames(txnSeq, ops, max));
  }
}
