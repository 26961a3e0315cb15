/** Parsers over byte strings: the specification side of every decoder. */
module Codec {
  import opened Bytes

  /** A parsed value with the unread bytes, or the reason the input is malformed. */
  datatype Parsed<+T> = Done(value: T, rest: seq<byte>) | Fail(reason: string) {
    predicate IsFailure() {
      Fail?
    }

    function PropagateFailure<U>(): Parsed<U>
      requires Fail?
    {
      Fail(reason)
    }

    function Extract(): (T, seq<byte>)
      requires Done?
    {
      (value, rest)
    }
  }

  /** `n` values in a row, failing at the first that does not parse. */
  function ParseN<T>(parse: seq<byte> -> Parsed<T>, n: nat, s: seq<byte>): Parsed<seq<T>> {
    if n == 0 then Done([], s)
    else
      var (x, r) :- parse(s);
      var (xs, r2) :- ParseN(parse, n - 1, r);
      Done([x] + xs, r2)
  }

  function Prepend<T>(xs: seq<T>, p: Parsed<seq<T>>): Parsed<seq<T>> {
    if p.Done? then Done(xs + p.value, p.rest) else p
  }

  lemma PrependNothing<T>(p: Parsed<seq<T>>)
    ensures Prepend([], p) == p
  {
    if p.Done? {
      assert [] + p.value == p.value;
    }
  }

  /** One more loop pass of a counted decoder: what is read so far plus what is still to read. */
  lemma ParseNStep<T>(parse: seq<byte> -> Parsed<T>, n: nat, s: seq<byte>, xs: seq<T>)
    requires n > 0
    ensures parse(s).Done? ==>
              Prepend(xs, ParseN(parse, n, s)) == Prepend(xs + [parse(s).value], ParseN(parse, n - 1, parse(s).rest))
    ensures parse(s).Fail? ==> Prepend(xs, ParseN(parse, n, s)) == Fail(parse(s).reason)
  {
    if parse(s).Done? {
      var p := ParseN(parse, n - 1, parse(s).rest);
      if p.Done? {
        assert xs + ([parse(s).value] + p.value) == xs + [parse(s).value] + p.value;
      }
    }
  }

  /** Whether `parse` reads back what `enc` wrote for `x`, whatever bytes follow. */
  ghost predicate Inverts<T(!new)>(enc: T -> seq<byte>, parse: seq<byte> -> Parsed<T>, x: T) {
    forall r: seq<byte> :: parse(enc(x) + r) == Done(x, r)
  }

  lemma {:induction false} ParseNInverts<T(!new)>(
    enc: T -> seq<byte>, parse: seq<byte> -> Parsed<T>, items: seq<T>, rest: seq<byte>)
    requires forall x :: x in items ==> Inverts(enc, parse, x)
    ensures ParseN(parse, |items|, Concat(enc, items) + rest) == Done(items, rest)
  {
    if items == [] {
      assert Concat(enc, items) + rest == rest;
    } else {
      var tail := Concat(enc, items[1..]) + rest;
      assert Concat(enc, items) + rest == enc(items[0]) + tail;
      assert Inverts(enc, parse, items[0]);
      ParseNInverts(enc, parse, items[1..], rest);
      assert items == [items[0]] + items[1..];
    }
  }

  function ParseTake(n: nat, s: seq<byte>): Parsed<seq<byte>> {
    if n > |s| then Fail("truncated") else Done(s[..n], s[n..])
  }

  function ParseU8(s: seq<byte>): Parsed<byte> {
    if s == [] then Fail("truncated") else Done(s[0], s[1..])
  }

  function ParseU16(s: seq<byte>): Parsed<u16> {
    var (b, r) :- ParseTake(2, s);
    Done(U16At(b), r)
  }

  function ParseU32(s: seq<byte>): Parsed<u32> {
    var (b, r) :- ParseTake(4, s);
    Done(U32At(b), r)
  }

  function ParseU64(s: seq<byte>): Parsed<u64> {
    var (b, r) :- ParseTake(8, s);
    Done(U64At(b), r)
  }

  lemma ParseWords(v: nat, rest: seq<byte>)
    ensures v < 0x1_0000 ==> ParseU16(LeBytes(v, 2) + rest) == Done(v, rest)
    ensures v < U32_LIMIT ==> ParseU32(LeBytes(v, 4) + rest) == Done(v, rest)
    ensures v < U64_LIMIT ==> ParseU64(LeBytes(v, 8) + rest) == Done(v, rest)
  {
    WordRoundTrip(v);
    assert (LeBytes(v, 2) + rest)[..2] == LeBytes(v, 2) && (LeBytes(v, 2) + rest)[2..] == rest;
    assert (LeBytes(v, 4) + rest)[..4] == LeBytes(v, 4) && (LeBytes(v, 4) + rest)[4..] == rest;
    assert (LeBytes(v, 8) + rest)[..8] == LeBytes(v, 8) && (LeBytes(v, 8) + rest)[8..] == rest;
  }

  /** A byte string behind its 32-bit length; the length cast truncates. */
  function Bytes32(b: seq<byte>): seq<byte> {
    LeBytes(|b| % U32_LIMIT, 4) + b
  }

  function ParseBytes32(s: seq<byte>): Parsed<Blob> {
    var (n, r) :- ParseU32(s);
    var (b, r2) :- ParseTake(n, r);
    Done(b, r2)
  }

  lemma ParseBytes32Inverts(b: seq<byte>, rest: seq<byte>)
    requires |b| < U32_LIMIT
    ensures ParseBytes32(Bytes32(b) + rest) == Done(b, rest)
  {
    hide LeBytes, ParseU32;
    assert Bytes32(b) + rest == LeBytes(|b|, 4) + (b + rest);
    ParseWords(|b|, b + rest);
    assert (b + rest)[..|b|] == b && (b + rest)[|b|..] == rest;
  }

  /** The cursor the metadata and segment decoders advance. */
  class Reader {
    const buf: seq<byte>
    var pos: nat

    ghost predicate Valid()
      reads this
    {
      pos <= |buf|
    }

    constructor (buf: seq<byte>)
      ensures this.buf == buf && pos == 0 && Valid() && Rest() == buf
    {
      this.buf := buf;
      pos := 0;
    }

    function Rest(): seq<byte>
      reads this
      requires Valid()
    {
      buf[pos..]
    }

    method Take(n: nat) returns (r: Option<seq<byte>>)
      requires Valid()
      modifies this
      ensures Valid()
      ensures r.Some? <==> ParseTake(n, old(Rest())).Done?
      ensures r.Some? ==> ParseTake(n, old(Rest())) == Done(r.value, Rest())
    {
      if pos + n > |buf| {
        return None;
      }
      assert Rest()[..n] == buf[pos..pos + n] && Rest()[n..] == buf[pos + n..];
      r := Some(buf[pos..pos + n]);
      pos := pos + n;
    }

    method U8() returns (r: Option<byte>)
      requires Valid()
      modifies this
      ensures Valid()
      ensures r.Some? <==> ParseU8(old(Rest())).Done?
      ensures r.Some? ==> ParseU8(old(Rest())) == Done(r.value, Rest())
    {
      var b := Take(1);
      r := if b.Some? then Some(b.value[0]) else None;
    }

    method U32() returns (r: Option<u32>)
      requires Valid()
      modifies this
      ensures Valid()
      ensures r.Some? <==> ParseU32(old(Rest())).Done?
      ensures r.Some? ==> ParseU32(old(Rest())) == Done(r.value, Rest())
    {
      var b := Take(4);
      r := if b.Some? then Some(U32At(b.value)) else None;
    }

    method U64() returns (r: Option<u64>)
      requires Valid()
      modifies this
      ensures Valid()
      ensures r.Some? <==> ParseU64(old(Rest())).Done?
      ensures r.Some? ==> ParseU64(old(Rest())) == Done(r.value, Rest())
    {
      var b := Take(8);
      r := if b.Some? then Some(U64At(b.value)) else None;
    }

    method ReadBytes32() returns (r: Option<Blob>)
      requires Valid()
      modifies this
      ensures Valid()
      ensures r.Some? <==> ParseBytes32(old(Rest())).Done?
      ensures r.Some? ==> ParseBytes32(old(Rest())) == Done(r.value, Rest())
    {
      var n := U32();
      if n.None? {
        return None;
      }
      var b := Take(n.value);
      r := if b.Some? then Some(b.value) else None;
    }
  }
}
