/** Crash recovery: the committed prefix of a log is what the automaton `CONTINUES* COMMIT` accepts. */
module WalRecovery {
  import opened Bytes
  import opened Wal

  datatype RecoveredWal = RecoveredWal(frames: seq<WalFrame>, validPrefixLen: nat)

  datatype Group = NoGroup | Group(frames: seq<WalFrame>, len: nat)

  /** One whole transaction at the front of `buf`; `pending` is the sequence number of an open chain. */
  function ParseGroup(buf: seq<byte>, pending: Option<u64>): (r: Group)
    ensures r.Group? ==> 0 < r.len <= |buf|
  {
    hide DecodeFrame;
    match DecodeFrame(buf)
    case Frame(f, n) =>
      if f.flags != FLAG_COMMIT && f.flags != FLAG_CONTINUES then NoGroup
      else if pending.Some? && f.txnSeq != pending.value then NoGroup
      else if f.flags == FLAG_COMMIT then Group([f], n)
      else PrependFrame(f, n, ParseGroup(buf[n..], Some(f.txnSeq)))
    case _ => NoGroup
  }

  function PrependFrame(f: WalFrame, n: nat, g: Group): Group {
    if g.Group? then Group([f] + g.frames, n + g.len) else g
  }

  /** The frames of the whole transactions at the front of `buf`, and how many bytes they fill. */
  function Recover(buf: seq<byte>): (r: RecoveredWal)
    ensures r.validPrefixLen <= |buf|
  {
    hide ParseGroup;
    var g := ParseGroup(buf, None);
    if g.NoGroup? then RecoveredWal([], 0) else After(g.frames, g.len, Recover(buf[g.len..]))
  }

  /** What recovery returns when `buf` continues an open chain of frames taking `taken` bytes. */
  ghost function Resume(buf: seq<byte>, open: seq<WalFrame>, taken: nat, pending: Option<u64>): RecoveredWal {
    var g := ParseGroup(buf, pending);
    if g.NoGroup? then RecoveredWal([], 0)
    else After(open + g.frames, taken + g.len, Recover(buf[g.len..]))
  }

  function After(frames: seq<WalFrame>, len: nat, r: RecoveredWal): RecoveredWal {
    RecoveredWal(frames + r.frames, len + r.validPrefixLen)
  }

  lemma ResumeStart(buf: seq<byte>)
    ensures Resume(buf, [], 0, None) == Recover(buf)
  {
    hide ParseGroup;
    var g := ParseGroup(buf, None);
    if g.Group? {
      assert [] + g.frames == g.frames;
    }
  }

  lemma ResumeChain(buf: seq<byte>, open: seq<WalFrame>, f: WalFrame, taken: nat, n: nat, pending: Option<u64>)
    requires DecodeFrame(buf) == Frame(f, n)
    requires f.flags == FLAG_CONTINUES && (pending.Some? ==> f.txnSeq == pending.value)
    ensures Resume(buf, open, taken, pending) == Resume(buf[n..], open + [f], taken + n, Some(f.txnSeq))
  {
    hide DecodeFrame;
    var g := ParseGroup(buf[n..], Some(f.txnSeq));
    if g.Group? {
      assert buf[n..][g.len..] == buf[n + g.len..];
      assert open + ([f] + g.frames) == (open + [f]) + g.frames;
    }
  }

  lemma ResumeCommit(buf: seq<byte>, open: seq<WalFrame>, f: WalFrame, taken: nat, n: nat, pending: Option<u64>)
    requires DecodeFrame(buf) == Frame(f, n)
    requires f.flags == FLAG_COMMIT && (pending.Some? ==> f.txnSeq == pending.value)
    ensures Resume(buf, open, taken, pending) == After(open + [f], taken + n, Resume(buf[n..], [], 0, None))
  {
    hide DecodeFrame;
    ResumeStart(buf[n..]);
  }

  lemma AfterAfter(a: seq<WalFrame>, m: nat, b: seq<WalFrame>, n: nat, r: RecoveredWal)
    ensures After(a, m, After(b, n, r)) == After(a + b, m + n, r)
  {
    assert a + (b + r.frames) == (a + b) + r.frames;
  }

  /** The scan over a log buffer, stopping at the first defect and never looking past it. */
  method RecoverCommittedFrames(buf: seq<byte>) returns (r: RecoveredWal)
    ensures r == Recover(buf)
  {
    var offset := 0;
    var committed: seq<WalFrame>, pending: seq<WalFrame> := [], [];
    var pendingSeq: Option<u64> := None;
    var validPrefix := 0;
    assert buf[0..] == buf;
    ResumeStart(buf);
    ghost var nothing := RecoveredWal([], 0);
    while offset < |buf|
      invariant validPrefix <= offset <= |buf|
      invariant pendingSeq.None? ==> pending == [] && offset == validPrefix
      invariant Recover(buf) == After(committed, validPrefix,
                                      Resume(buf[offset..], pending, offset - validPrefix, pendingSeq))
      decreases |buf| - offset
    {
      hide DecodeFrame, Recover;
      var tail := buf[offset..];
      var decoded := DecodeFrame(tail);
      if decoded.Frame? {
        var frame, consumed := decoded.frame, decoded.consumed;
        var next := offset + consumed;
        assert tail[consumed..] == buf[next..];
        var isCommit := frame.flags == FLAG_COMMIT;
        var isContinues := frame.flags == FLAG_CONTINUES;
        if !isCommit && !isContinues {
          assert Recover(buf) == After(committed, validPrefix, nothing);
          pending := [];
          break;
        }
        if pendingSeq.Some? && frame.txnSeq != pendingSeq.value {
          assert Recover(buf) == After(committed, validPrefix, nothing);
          pending := [];
          break;
        }
        if isCommit {
          ResumeCommit(tail, pending, frame, offset - validPrefix, consumed, pendingSeq);
          AfterAfter(committed, validPrefix, pending + [frame], next - validPrefix, Resume(buf[next..], [], 0, None));
          offset := next;
          committed, pending, pendingSeq := committed + (pending + [frame]), [], None;
          validPrefix := offset;
        } else {
          ResumeChain(tail, pending, frame, offset - validPrefix, consumed, pendingSeq);
          offset := next;
          pendingSeq, pending := Some(frame.txnSeq), pending + [frame];
        }
      } else {
        assert Recover(buf) == After(committed, validPrefix, nothing);
        pending := [];
        break;
      }
    }
    assert Recover(buf) == After(committed, validPrefix, nothing) by {
      assert offset == |buf| ==> buf[offset..] == [];
    }
    assert committed + [] == committed;
    r := RecoveredWal(committed, validPrefix);
  }

  // ---------------------------------------------------------------- arbitrary bytes

  /** The transaction grammar over frames, as an automaton with the open chain's sequence number as state. */
  predicate Accepts(frames: seq<WalFrame>, pending: Option<u64>) {
    if frames == [] then pending.None?
    else
      var f := frames[0];
      && (pending.Some? ==> f.txnSeq == pending.value)
      && (f.flags == FLAG_COMMIT || f.flags == FLAG_CONTINUES)
      && Accepts(frames[1..], if f.flags == FLAG_COMMIT then None else Some(f.txnSeq))
  }

  /** `buf` is exactly these frames, one after another. */
  predicate Spells(buf: seq<byte>, frames: seq<WalFrame>) {
    if frames == [] then buf == []
    else
      match DecodeFrame(buf)
      case Frame(f, n) => f == frames[0] && Spells(buf[n..], frames[1..])
      case _ => false
  }

  /** A parsed group reads its own bytes only, and whole frames of them. */
  lemma {:induction false} GroupLocal(a: seq<byte>, b: seq<byte>, pending: Option<u64>)
    requires ParseGroup(a, pending).Group?
    requires var n := ParseGroup(a, pending).len; n <= |b| && a[..n] == b[..n]
    ensures ParseGroup(b, pending) == ParseGroup(a, pending)
    ensures var g := ParseGroup(a, pending);
            Spells(a[..g.len], g.frames) && g.frames != [] && Accepts(g.frames, pending)
    decreases |a|
  {
    hide DecodeFrame;
    var g := ParseGroup(a, pending);
    var f, k, n := DecodeFrame(a).frame, DecodeFrame(a).consumed, g.len;
    assert a[..k] == a[..n][..k] && b[..k] == b[..n][..k];
    DecodeFrameLocal(a, b);
    DecodeFrameLocal(a, a[..n]);
    if f.flags == FLAG_CONTINUES {
      assert a[k..][..n - k] == a[..n][k..] && b[k..][..n - k] == b[..n][k..];
      GroupLocal(a[k..], b[k..], Some(f.txnSeq));
      assert g.frames[1..] == ParseGroup(a[k..], Some(f.txnSeq)).frames;
    } else {
      assert a[..n][k..] == [];
    }
  }

  /** Whatever accepted frames a prefix of `buf` spells, recovery finds the first transaction of them. */
  lemma {:induction false} GroupFound(buf: seq<byte>, len: nat, frames: seq<WalFrame>, pending: Option<u64>)
    requires len <= |buf| && frames != [] && Spells(buf[..len], frames) && Accepts(frames, pending)
    ensures var g := ParseGroup(buf, pending);
            && g.Group? && g.frames <= frames && g.len <= len
            && Spells(buf[g.len..][..len - g.len], frames[|g.frames|..]) && Accepts(frames[|g.frames|..], None)
    decreases |frames|
  {
    hide DecodeFrame;
    var f, n := frames[0], DecodeFrame(buf[..len]).consumed;
    PrefixSlices(buf, len, n);
    DecodeFrameLocal(buf[..len], buf);
    assert Accepts(frames[1..], if f.flags == FLAG_COMMIT then None else Some(f.txnSeq));
    hide Accepts;
    if f.flags == FLAG_CONTINUES {
      GroupFound(buf[n..], len - n, frames[1..], Some(f.txnSeq));
      var g := ParseGroup(buf[n..], Some(f.txnSeq));
      SplitPrefix(buf, n, g.len);
      SplitPrefix(frames, 1, |g.frames|);
    }
  }

  lemma {:induction false} SpellsAppend(a: seq<byte>, fa: seq<WalFrame>, b: seq<byte>, fb: seq<WalFrame>)
    requires Spells(a, fa) && Spells(b, fb)
    ensures Spells(a + b, fa + fb)
    decreases |fa|
  {
    hide DecodeFrame;
    if fa == [] {
      assert a + b == b && fa + fb == fb;
    } else {
      var n := DecodeFrame(a).consumed;
      assert (a + b)[..n] == a[..n];
      DecodeFrameLocal(a, a + b);
      assert (a + b)[n..] == a[n..] + b && (fa + fb)[1..] == fa[1..] + fb;
      SpellsAppend(a[n..], fa[1..], b, fb);
    }
  }

  lemma {:induction false} AcceptsAppend(fa: seq<WalFrame>, fb: seq<WalFrame>, pending: Option<u64>)
    requires Accepts(fa, pending) && Accepts(fb, None)
    ensures Accepts(fa + fb, pending)
    decreases |fa|
  {
    if fa == [] {
      assert fa + fb == fb;
    } else {
      assert (fa + fb)[1..] == fa[1..] + fb;
      AcceptsAppend(fa[1..], fb, if fa[0].flags == FLAG_COMMIT then None else Some(fa[0].txnSeq));
    }
  }

  lemma NothingSpelled(buf: seq<byte>)
    ensures Spells([], []) && Accepts([], None) && (Spells(buf, []) ==> buf == [])
  {
  }

  /** The recovered frames are accepted, and the recovered prefix is exactly their bytes. */
  lemma {:induction false} RecoveredIsAccepted(buf: seq<byte>)
    ensures var r := Recover(buf); Spells(buf[..r.validPrefixLen], r.frames) && Accepts(r.frames, None)
    decreases |buf|
  {
    hide DecodeFrame, ParseGroup, Spells, Accepts;
    NothingSpelled([]);
    var g := ParseGroup(buf, None);
    if g.Group? {
      var n, rest := g.len, Recover(buf[g.len..]);
      GroupLocal(buf, buf, None);
      RecoveredIsAccepted(buf[n..]);
      SplitPrefix(buf, n, rest.validPrefixLen);
      SpellsAppend(buf[..n], g.frames, buf[n..][..rest.validPrefixLen], rest.frames);
      AcceptsAppend(g.frames, rest.frames, None);
    }
  }

  /** On arbitrary bytes, no longer prefix spells whole transactions. */
  lemma {:induction false} RecoveredIsLongest(buf: seq<byte>, len: nat, frames: seq<WalFrame>)
    requires len <= |buf| && Spells(buf[..len], frames) && Accepts(frames, None)
    ensures len <= Recover(buf).validPrefixLen && frames <= Recover(buf).frames
    decreases |buf|
  {
    hide DecodeFrame, ParseGroup, Spells, Accepts;
    NothingSpelled(buf[..len]);
    if frames != [] {
      GroupFound(buf, len, frames, None);
      var g := ParseGroup(buf, None);
      RecoveredIsLongest(buf[g.len..], len - g.len, frames[|g.frames|..]);
      PrefixTail(g.frames, frames, Recover(buf[g.len..]).frames);
    }
  }

  /** Bytes after the recovered prefix never change it: truncating there is a fixed point, and whatever
      is appended there is recovered after the old frames. */
  lemma {:induction false} RecoverThenAppend(buf: seq<byte>, rest: seq<byte>)
    ensures var r, more := Recover(buf), Recover(rest);
            Recover(buf[..r.validPrefixLen] + rest) ==
            RecoveredWal(r.frames + more.frames, r.validPrefixLen + more.validPrefixLen)
    decreases |buf|
  {
    hide DecodeFrame, ParseGroup, Spells, Accepts;
    var r, more := Recover(buf), Recover(rest);
    var kept := buf[..r.validPrefixLen] + rest;
    var g := ParseGroup(buf, None);
    if g.Group? {
      var n, tail := g.len, Recover(buf[g.len..]);
      assert kept[..n] == buf[..n];
      GroupLocal(buf, kept, None);
      RecoverThenAppend(buf[n..], rest);
      assert kept[n..] == buf[n..][..tail.validPrefixLen] + rest;
      AfterAfter(g.frames, n, tail.frames, tail.validPrefixLen, more);
    } else {
      assert kept == rest;
      assert [] + more.frames == more.frames;
    }
  }

  lemma TruncateIsFixedPoint(buf: seq<byte>)
    ensures Recover(buf[..Recover(buf).validPrefixLen]) == Recover(buf)
  {
    var r := Recover(buf);
    RecoverThenAppend(buf, []);
    assert buf[..r.validPrefixLen] + [] == buf[..r.validPrefixLen];
    assert r.frames + [] == r.frames;
  }

  // ---------------------------------------------------------------- crash atomicity

  /** The frames of one transaction, each small enough to be read back. */
  predicate IsTxn(frames: seq<WalFrame>) {
    && frames != []
    && (forall i | 0 <= i < |frames| ::
          && frames[i].txnSeq == frames[0].txnSeq
          && frames[i].flags == (if i == |frames| - 1 then FLAG_COMMIT else FLAG_CONTINUES)
          && |PayloadBytes(frames[i].ops)| <= MAX_FRAME_PAYLOAD)
  }

  function TxnBytes(frames: seq<WalFrame>): seq<byte> {
    Concat(FrameBytes, frames)
  }

  /** A log: transactions written one after another. */
  function LogBytes(txns: seq<seq<WalFrame>>): seq<byte> {
    Concat(TxnBytes, txns)
  }

  /** An unfinished transaction is not recovered at all; a finished one is recovered whole. */
  lemma {:induction false} TxnCut(frames: seq<WalFrame>, pending: Option<u64>, rest: seq<byte>, n: nat)
    requires IsTxn(frames) && (pending.Some? ==> frames[0].txnSeq == pending.value)
    requires n <= |TxnBytes(frames) + rest|
    ensures ParseGroup((TxnBytes(frames) + rest)[..n], pending) ==
            if n < |TxnBytes(frames)| then NoGroup else Group(frames, |TxnBytes(frames)|)
    decreases |frames|
  {
    hide DecodeFrame, FrameBytes, PayloadBytes;
    var f := frames[0];
    var head, tail := FrameBytes(f), TxnBytes(frames[1..]);
    var s := (TxnBytes(frames) + rest)[..n];
    assert TxnBytes(frames) + rest == head + (tail + rest);
    CutTail(head, tail + rest, n);
    if n < |head| {
      assert s == head[..n];
      if n == 0 {
        NoFrame();
      } else {
        TornFrame(f, n);
      }
    } else {
      assert s == head + (tail + rest)[..n - |head|];
      FrameRoundTrip(f, (tail + rest)[..n - |head|]);
      assert s[|head|..] == (tail + rest)[..n - |head|];
      if |frames| == 1 {
        assert frames == [f] && tail == [];
      } else {
        assert f.flags == FLAG_CONTINUES;
        assert IsTxn(frames[1..]) by {
          assert forall i | 0 <= i < |frames| - 1 :: frames[1..][i] == frames[i + 1];
        }
        TxnCut(frames[1..], Some(f.txnSeq), rest, n - |head|);
        assert frames == [f] + frames[1..];
      }
    }
  }

  lemma NoFrame()
    ensures DecodeFrame([]) == CleanEof
  {
  }

  lemma EmptyHasNoGroup()
    ensures ParseGroup([], None) == NoGroup
  {
  }

  /** How many of the transactions lie wholly within the first `n` bytes of their log. */
  function WholeWithin(txns: seq<seq<WalFrame>>, n: nat): (k: nat)
    ensures k <= |txns|
  {
    if txns == [] || n < |TxnBytes(txns[0])| then 0
    else 1 + WholeWithin(txns[1..], n - |TxnBytes(txns[0])|)
  }

  lemma {:induction false} WholeWithinIsMaximal(txns: seq<seq<WalFrame>>, n: nat)
    ensures var k := WholeWithin(txns, n);
            && |LogBytes(txns[..k])| <= n
            && (k < |txns| ==> n < |LogBytes(txns[..k + 1])|)
  {
    hide TxnBytes;
    var k := WholeWithin(txns, n);
    if txns == [] || n < |TxnBytes(txns[0])| {
      if txns != [] {
        assert txns[..1] == [txns[0]];
        ConcatOne(TxnBytes, txns[0]);
      }
    } else {
      WholeWithinIsMaximal(txns[1..], n - |TxnBytes(txns[0])|);
      assert txns[..k] == [txns[0]] + txns[1..][..k - 1];
      assert txns[..k][1..] == txns[1..][..k - 1];
      if k < |txns| {
        assert txns[..k + 1] == [txns[0]] + txns[1..][..k];
        assert txns[..k + 1][1..] == txns[1..][..k];
      }
    }
  }

  /** Crash atomicity: cut a log anywhere, and exactly the transactions wholly before the cut come back. */
  lemma {:induction false} CrashRecoversWholeTransactions(txns: seq<seq<WalFrame>>, n: nat)
    requires forall t | t in txns :: IsTxn(t)
    requires n <= |LogBytes(txns)|
    ensures var k := WholeWithin(txns, n);
            Recover(LogBytes(txns)[..n]) == RecoveredWal(Flatten(txns[..k]), |LogBytes(txns[..k])|)
    decreases |txns|
  {
    hide TxnBytes, IsTxn, ParseGroup;
    var k := WholeWithin(txns, n);
    if txns == [] {
      assert LogBytes(txns)[..n] == [];
      EmptyHasNoGroup();
    } else {
      var head, tail := TxnBytes(txns[0]), LogBytes(txns[1..]);
      assert LogBytes(txns) == head + tail;
      TxnCut(txns[0], None, tail, n);
      if n >= |head| {
        CutTail(head, tail, n);
        assert LogBytes(txns)[..n][|head|..] == tail[..n - |head|];
        CrashRecoversWholeTransactions(txns[1..], n - |head|);
        assert txns[..k] == [txns[0]] + txns[1..][..k - 1];
        assert txns[..k][1..] == txns[1..][..k - 1];
      }
    }
  }

  /** Frames of an unfinished transaction, then bytes that are no frame, are no transaction. */
  lemma {:induction false} BrokenChain(frames: seq<WalFrame>, pending: Option<u64>, s: seq<byte>)
    requires forall i | 0 <= i < |frames| ::
               frames[i].flags == FLAG_CONTINUES && |PayloadBytes(frames[i].ops)| <= MAX_FRAME_PAYLOAD
    requires !DecodeFrame(s).Frame?
    ensures ParseGroup(TxnBytes(frames) + s, pending) == NoGroup
    decreases |frames|
  {
    hide DecodeFrame, FrameBytes, PayloadBytes;
    if frames == [] {
      assert TxnBytes(frames) + s == s;
    } else {
      var f, tail := frames[0], TxnBytes(frames[1..]) + s;
      assert TxnBytes(frames) + s == FrameBytes(f) + tail;
      FrameRoundTrip(f, tail);
      assert (FrameBytes(f) + tail)[|FrameBytes(f)|..] == tail;
      BrokenChain(frames[1..], Some(f.txnSeq), s);
    }
  }

  /** After whole transactions, recovery ends where a transaction breaks off in bytes that are no frame: with
      none of that transaction, whatever follows. */
  lemma RecoveryStops(txns: seq<seq<WalFrame>>, frames: seq<WalFrame>, s: seq<byte>)
    requires forall t | t in txns :: IsTxn(t)
    requires forall i | 0 <= i < |frames| ::
               frames[i].flags == FLAG_CONTINUES && |PayloadBytes(frames[i].ops)| <= MAX_FRAME_PAYLOAD
    requires !DecodeFrame(s).Frame?
    ensures Recover(LogBytes(txns) + (TxnBytes(frames) + s)) == RecoveredWal(Flatten(txns), |LogBytes(txns)|)
  {
    hide DecodeFrame, IsTxn, ParseGroup, TxnBytes, LogBytes;
    var log, rest := LogBytes(txns), TxnBytes(frames) + s;
    WholeLog(txns);
    CrashRecoversWholeTransactions(txns, |log|);
    assert log[..|log|] == log && txns[..|txns|] == txns;
    BrokenChain(frames, None, s);
    RecoverThenAppend(log, rest);
    assert Flatten(txns) + [] == Flatten(txns);
  }

  lemma WholeLog(txns: seq<seq<WalFrame>>)
    ensures WholeWithin(txns, |LogBytes(txns)|) == |txns|
  {
    hide Concat, WholeWithin, TxnBytes;
    var k := WholeWithin(txns, |LogBytes(txns)|);
    WholeWithinIsMaximal(txns, |LogBytes(txns)|);
    assert txns[..|txns|] == txns;
    if k < |txns| {
      assert txns == txns[..k + 1] + txns[k + 1..];
      ConcatAppend(TxnBytes, txns[..k + 1], txns[k + 1..]);
    }
  }

  /** A wrong checksum anywhere ends recovery before its transaction, whatever follows. */
  lemma CorruptionStopsRecovery(txns: seq<seq<WalFrame>>, frames: seq<WalFrame>, f: WalFrame, word: seq<byte>, rest: seq<byte>)
    requires forall t | t in txns :: IsTxn(t)
    requires forall i | 0 <= i < |frames| ::
               frames[i].flags == FLAG_CONTINUES && |PayloadBytes(frames[i].ops)| <= MAX_FRAME_PAYLOAD
    requires |word| == 4 && |PayloadBytes(f.ops)| <= MAX_FRAME_PAYLOAD && U32At(word) != Crc32c(FrameBody(f))
    ensures Recover(LogBytes(txns) + (TxnBytes(frames) + (FrameBody(f) + word + rest))) ==
            RecoveredWal(Flatten(txns), |LogBytes(txns)|)
  {
    hide DecodeFrame, IsTxn, TxnBytes, LogBytes, FrameBody, PayloadBytes, Recover, Crc32c, U32At;
    CorruptFrame(f, word, rest);
    RecoveryStops(txns, frames, FrameBody(f) + word + rest);
  }

  /** And so does one flipped bit in a frame's body, outside its length. */
  lemma FlippedBitStopsRecovery(txns: seq<seq<WalFrame>>, frames: seq<WalFrame>, f: WalFrame, body: seq<byte>, i: nat, rest: seq<byte>)
    requires forall t | t in txns :: IsTxn(t)
    requires forall j | 0 <= j < |frames| ::
               frames[j].flags == FLAG_CONTINUES && |PayloadBytes(frames[j].ops)| <= MAX_FRAME_PAYLOAD
    requires |PayloadBytes(f.ops)| <= MAX_FRAME_PAYLOAD && |body| == |FrameBody(f)| && body[4..8] == FrameBody(f)[4..8]
    requires OneBitDiffers(FrameBody(f), body, i)
    ensures Recover(LogBytes(txns) + (TxnBytes(frames) + (body + LeBytes(Crc32c(FrameBody(f)), 4) + rest))) ==
            RecoveredWal(Flatten(txns), |LogBytes(txns)|)
  {
    hide DecodeFrame, IsTxn, TxnBytes, LogBytes, PayloadBytes, Recover, Crc32c, OneBitDiffers, LeBytes;
    FlippedFrame(f, body, i, rest);
    RecoveryStops(txns, frames, body + LeBytes(Crc32c(FrameBody(f)), 4) + rest);
  }

  /** A transaction appended after the recovered prefix of any bytes is recovered after what was there. */
  lemma AppendAfterRecovery(buf: seq<byte>, frames: seq<WalFrame>)
    requires IsTxn(frames)
    ensures var r := Recover(buf);
            Recover(buf[..r.validPrefixLen] + TxnBytes(frames)) ==
            RecoveredWal(r.frames + frames, r.validPrefixLen + |TxnBytes(frames)|)
  {
    RecoverThenAppend(buf, TxnBytes(frames));
    var log := LogBytes([frames]);
    ConcatOne(TxnBytes, frames);
    CrashRecoversWholeTransactions([frames], |log|);
    assert log[..|log|] == log;
    assert [frames][..1] == [frames];
    assert Flatten([frames]) == frames by { assert [frames][1..] == []; assert frames + [] == frames; }
  }
}
