/** Machine integers, byte strings, little-endian words and the CRC32C checksum. */
module Bytes {

  type byte = b: int | 0 <= b < 0x100
  type u16 = n: int | 0 <= n < 0x1_0000
  type u32 = n: int | 0 <= n < 0x1_0000_0000
  type u64 = n: int | 0 <= n < 0x1_0000_0000_0000_0000

  const U64_MAX: u64 := 0xFFFF_FFFF_FFFF_FFFF
  const U64_LIMIT: nat := 0x1_0000_0000_0000_0000
  const U32_LIMIT: nat := 0x1_0000_0000

  /** A byte vector: its length is a 64-bit `usize`. */
  type Blob = s: seq<byte> | |s| < 0x1_0000_0000_0000_0000

  datatype Option<+T> = None | Some(value: T)

  function SaturatingInc(n: u64): u64 {
    if n == U64_MAX then n else n + 1
  }

  function MaxU64(a: u64, b: u64): u64 {
    if a < b then b else a
  }

  function Pow2(n: nat): (p: nat)
    ensures p > 0
  {
    if n == 0 then 1 else 2 * Pow2(n - 1)
  }

  lemma {:induction false} Pow2Monotone(m: nat, n: nat)
    requires m <= n
    ensures Pow2(m) <= Pow2(n)
  {
    if m < n {
      Pow2Monotone(m, n - 1);
    }
  }

  /** The `n` low bytes of `v`, least significant first. */
  function LeBytes(v: nat, n: nat): (s: seq<byte>)
    ensures |s| == n
  {
    if n == 0 then [] else [v % 0x100] + LeBytes(v / 0x100, n - 1)
  }

  /** The least significant byte comes first. */
  lemma LittleEndian()
    ensures LeBytes(0x0403_0201, 4) == [1, 2, 3, 4]
  {
  }

  function LeValue(s: seq<byte>): nat {
    if s == [] then 0 else s[0] + 0x100 * LeValue(s[1..])
  }

  lemma {:induction false} LeValueBound(s: seq<byte>)
    ensures LeValue(s) < Pow2(8 * |s|)
  {
    if s != [] {
      LeValueBound(s[1..]);
      Pow2Byte(8 * |s[1..]|);
    }
  }

  lemma Pow2Byte(n: nat)
    ensures Pow2(n + 8) == 0x100 * Pow2(n)
  {
    assert Pow2(n + 2) == 4 * Pow2(n);
    assert Pow2(n + 4) == 4 * Pow2(n + 2);
    assert Pow2(n + 6) == 4 * Pow2(n + 4);
  }

  lemma {:induction false} LeRoundTrip(v: nat, n: nat)
    requires v < Pow2(8 * n)
    ensures LeValue(LeBytes(v, n)) == v
  {
    if n != 0 {
      Pow2Byte(8 * (n - 1));
      LeRoundTrip(v / 0x100, n - 1);
      assert LeBytes(v, n)[1..] == LeBytes(v / 0x100, n - 1);
    }
  }

  lemma WordSizes()
    ensures Pow2(8) == 0x100 && Pow2(16) == 0x1_0000
    ensures Pow2(32) == U32_LIMIT && Pow2(64) == U64_LIMIT
  {
    Pow2Byte(0);
    Pow2Byte(8);
    Pow2Byte(16);
    Pow2Byte(24);
    Pow2Byte(32);
    Pow2Byte(40);
    Pow2Byte(48);
    Pow2Byte(56);
  }

  function U16At(s: seq<byte>): u16
    requires |s| == 2
  {
    WordSizes();
    LeValueBound(s);
    LeValue(s)
  }

  function U32At(s: seq<byte>): u32
    requires |s| == 4
  {
    WordSizes();
    LeValueBound(s);
    LeValue(s)
  }

  function U64At(s: seq<byte>): u64
    requires |s| == 8
  {
    WordSizes();
    LeValueBound(s);
    LeValue(s)
  }

  lemma WordRoundTrip(v: nat)
    ensures v < 0x1_0000 ==> U16At(LeBytes(v, 2)) == v
    ensures v < U32_LIMIT ==> U32At(LeBytes(v, 4)) == v
    ensures v < U64_LIMIT ==> U64At(LeBytes(v, 8)) == v
  {
    WordSizes();
    if v < 0x1_0000 { LeRoundTrip(v, 2); }
    if v < U32_LIMIT { LeRoundTrip(v, 4); }
    if v < U64_LIMIT { LeRoundTrip(v, 8); }
  }

  function Xor(a: nat, b: nat): nat {
    if a == 0 && b == 0 then 0 else (a + b) % 2 + 2 * Xor(a / 2, b / 2)
  }

  lemma {:induction false} XorBound(a: nat, b: nat, bits: nat)
    requires a < Pow2(bits) && b < Pow2(bits)
    ensures Xor(a, b) < Pow2(bits)
    decreases bits
  {
    if bits > 0 {
      XorBound(a / 2, b / 2, bits - 1);
    }
  }

  /** Reflected Castagnoli polynomial. */
  const POLY_REFLECTED: u32 := 0x82F6_3B78

  /** The bits of a message in checksum order: each byte from its least significant bit. */
  function Bits(data: seq<byte>): seq<bool> {
    if data == [] then []
    else
      var b := data[0];
      [b % 2 == 1, b / 2 % 2 == 1, b / 4 % 2 == 1, b / 8 % 2 == 1,
       b / 16 % 2 == 1, b / 32 % 2 == 1, b / 64 % 2 == 1, b / 128 % 2 == 1] + Bits(data[1..])
  }

  function CrcFold(bits: seq<bool>, crc: u32): u32 {
    if bits == [] then crc else CrcFold(bits[1..], CrcStep(crc, bits[0]))
  }

  /** CRC-32/Castagnoli, bit by bit. */
  function Crc32c(data: seq<byte>): u32 {
    0xFFFF_FFFF - CrcFold(Bits(data), 0xFFFF_FFFF)
  }

  lemma XorSplit(a: nat, b: nat)
    ensures Xor(a, b) == (if a % 2 == b % 2 then 0 else 1) + 2 * Xor(a / 2, b / 2)
    ensures Xor(a, b) / 2 == Xor(a / 2, b / 2) && (Xor(a, b) % 2 == 0 <==> a % 2 == b % 2)
  {
    Parity(a, b);
  }

  lemma Parity(a: nat, b: nat)
    ensures (a + b) % 2 == if a % 2 == b % 2 then 0 else 1
  {
  }

  lemma {:induction false} XorTwice(a: nat, b: nat)
    ensures Xor(Xor(a, b), b) == a
    decreases a + b
  {
    XorSplit(a, b);
    XorSplit(Xor(a, b), b);
    if a != 0 || b != 0 {
      hide Xor;
      XorTwice(a / 2, b / 2);
    }
  }

  /** An operand with a higher bit than the other sets that bit. */
  lemma {:induction false} XorTop(a: nat, b: nat, bit: nat)
    requires a < Pow2(bit) <= b
    ensures Xor(a, b) >= Pow2(bit)
    decreases bit
  {
    if bit > 0 {
      XorTop(a / 2, b / 2, bit - 1);
    } else {
      XorNothing(b);
    }
  }

  lemma {:induction false} XorNothing(b: nat)
    ensures Xor(0, b) == b
  {
    if b != 0 {
      XorNothing(b / 2);
    }
  }

  /** One step of the checksum: which branch it took shows in the top bit. */
  function CrcStep(crc: u32, bit: bool): u32 {
    WordSizes();
    XorBound(crc / 2, POLY_REFLECTED, 32);
    if (crc % 2 == 1) != bit then Xor(crc / 2, POLY_REFLECTED) else crc / 2
  }

  lemma CrcStepTells(c: u32, x: bool)
    ensures CrcStep(c, x) >= 0x8000_0000 <==> (c % 2 == 1) != x
  {
    WordSizes();
    assert Pow2(31) == 0x8000_0000;
    hide Xor, Pow2;
    XorTop(c / 2, POLY_REFLECTED, 31);
  }

  lemma CrcStepInverts(c: u32, d: u32, x: bool)
    requires CrcStep(c, x) == CrcStep(d, x)
    ensures c == d
  {
    CrcStepTells(c, x);
    CrcStepTells(d, x);
    XorTwice(c / 2, POLY_REFLECTED);
    XorTwice(d / 2, POLY_REFLECTED);
    hide Xor;
    assert c / 2 == d / 2;
  }

  lemma {:induction false} CrcFoldInverts(bits: seq<bool>, c: u32, d: u32)
    requires CrcFold(bits, c) == CrcFold(bits, d)
    ensures c == d
    decreases |bits|
  {
    hide Xor;
    if bits != [] {
      CrcFoldInverts(bits[1..], CrcStep(c, bits[0]), CrcStep(d, bits[0]));
      CrcStepInverts(c, d, bits[0]);
    }
  }

  lemma {:induction false} FlippedFold(a: seq<bool>, b: seq<bool>, i: nat, c: u32)
    requires |a| == |b| && i < |a| && a[i] != b[i] && forall j | 0 <= j < |a| && j != i :: a[j] == b[j]
    ensures CrcFold(a, c) != CrcFold(b, c)
    decreases i
  {
    hide Xor;
    if i == 0 {
      assert a[1..] == b[1..];
      CrcStepTells(c, a[0]);
      CrcStepTells(c, b[0]);
      if CrcFold(a, c) == CrcFold(b, c) {
        CrcFoldInverts(a[1..], CrcStep(c, a[0]), CrcStep(c, b[0]));
      }
    } else {
      FlippedFold(a[1..], b[1..], i - 1, CrcStep(c, a[0]));
    }
  }

  predicate OneBitDiffers(a: seq<byte>, b: seq<byte>, i: nat) {
    && |Bits(a)| == |Bits(b)| && i < |Bits(a)| && Bits(a)[i] != Bits(b)[i]
    && forall j | 0 <= j < |Bits(a)| && j != i :: Bits(a)[j] == Bits(b)[j]
  }

  /** The checksum of a message with one bit flipped is another one. */
  lemma FlippedBitShows(a: seq<byte>, b: seq<byte>, i: nat)
    requires OneBitDiffers(a, b, i)
    ensures Crc32c(a) != Crc32c(b)
  {
    FlippedFold(Bits(a), Bits(b), i, 0xFFFF_FFFF);
  }

  /** Concatenation of the encodings of the items, in order. */
  function Concat<T>(enc: T -> seq<byte>, items: seq<T>): seq<byte> {
    if items == [] then [] else enc(items[0]) + Concat(enc, items[1..])
  }

  lemma {:induction false} ConcatAppend<T>(enc: T -> seq<byte>, a: seq<T>, b: seq<T>)
    ensures Concat(enc, a + b) == Concat(enc, a) + Concat(enc, b)
  {
    if a == [] {
      assert a + b == b;
    } else {
      assert (a + b)[1..] == a[1..] + b;
      ConcatAppend(enc, a[1..], b);
      assert a[0] == (a + b)[0];
      assert enc(a[0]) + (Concat(enc, a[1..]) + Concat(enc, b))
          == (enc(a[0]) + Concat(enc, a[1..])) + Concat(enc, b);
    }
  }

  lemma ConcatOne<T>(enc: T -> seq<byte>, x: T)
    ensures Concat(enc, [x]) == enc(x)
  {
    assert [x][1..] == [];
  }

  function Flatten<T>(xss: seq<seq<T>>): seq<T> {
    if xss == [] then [] else xss[0] + Flatten(xss[1..])
  }

  lemma {:induction false} FlattenAppend<T>(a: seq<seq<T>>, b: seq<seq<T>>)
    ensures Flatten(a + b) == Flatten(a) + Flatten(b)
  {
    if a == [] {
      assert a + b == b;
    } else {
      assert (a + b)[1..] == a[1..] + b;
      FlattenAppend(a[1..], b);
    }
  }

  /** Cutting a concatenation and regrouping it. */
  lemma CutTail<T>(a: seq<T>, b: seq<T>, n: nat)
    requires n <= |a + b|
    ensures n <= |a| ==> (a + b)[..n] == a[..n]
    ensures n >= |a| ==> (a + b)[..n] == a + b[..n - |a|]
    ensures (a + b)[|a|..] == b && (a + b)[..|a|] == a
  {
  }

  lemma SplitPrefix<T>(s: seq<T>, n: nat, m: nat)
    requires n + m <= |s|
    ensures s[..n + m] == s[..n] + s[n..][..m]
    ensures s[n..][m..] == s[n + m..]
  {
  }

  lemma SlicesAgree<T>(a: seq<T>, b: seq<T>, n: nat, i: nat, j: nat)
    requires n <= |a| && n <= |b| && a[..n] == b[..n] && i <= j <= n
    ensures a[i..j] == b[i..j]
  {
    assert a[i..j] == a[..n][i..j] && b[i..j] == b[..n][i..j];
  }

  lemma FieldAt<T>(s: seq<T>, n: nat, i: nat, k: nat)
    requires i + k <= n <= |s|
    ensures s[..n][i..][..k] == s[i..i + k]
  {
  }

  lemma PrefixTail<T>(a: seq<T>, b: seq<T>, c: seq<T>)
    requires a <= b && b[|a|..] <= c
    ensures b <= a + c
  {
  }

  lemma PrefixSlices<T>(s: seq<T>, len: nat, n: nat)
    requires n <= len <= |s|
    ensures s[..len][..n] == s[..n] && s[..len][n..] == s[n..][..len - n]
  {
  }
}
