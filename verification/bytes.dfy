/** Bytes, the little-endian field helpers and the FNV-1a checksum of the
    binary catalog format. */
module Bytes {

  type byte = x: int | 0 <= x < 0x100

  const U16Limit: nat := 0x1_0000
  const U32Limit: nat := 0x1_0000_0000

  /** The `(uint32_t)` cast of a size. */
  function U32(n: nat): (r: nat)
    ensures r < U32Limit
    ensures n < U32Limit ==> r == n
  {
    n % U32Limit
  }

  /** A byte string seen as characters: each byte becomes one `char`. */
  function Chars(data: seq<byte>): (r: string)
    ensures |r| == |data|
    ensures forall i :: 0 <= i < |data| ==> r[i] as int == data[i]
  {
    seq(|data|, i requires 0 <= i < |data| => data[i] as char)
  }

  /** The `n` bytes of `data` at offset `p`, as characters: the decoder's
      `std::string(data + p, n)`. */
  function CharsAt(data: seq<byte>, p: nat, n: nat): (r: string)
    requires p + n <= |data|
    ensures |r| == n && IsByteString(r)
    ensures forall i :: 0 <= i < n ==> r[i] as int == data[p + i]
  {
    seq(n, i requires 0 <= i < n => data[p + i] as char)
  }

  lemma CharsAtIsChars(data: seq<byte>, p: nat, n: nat)
    requires p + n <= |data|
    ensures CharsAt(data, p, n) == Chars(data[p..p + n])
  {
  }

  /** A character string seen as the bytes of a `std::string`: every
      character keeps its low eight bits. */
  function OfString(s: string): (r: seq<byte>)
    ensures |r| == |s|
    ensures forall i :: 0 <= i < |s| ==> r[i] == s[i] as int % 0x100
  {
    seq(|s|, i requires 0 <= i < |s| => s[i] as int % 0x100)
  }

  /** Every character is one byte, as in a `std::string`. */
  predicate IsByteString(s: string) {
    forall i :: 0 <= i < |s| ==> s[i] as int < 0x100
  }

  lemma CharsOfString(s: string)
    requires IsByteString(s)
    ensures Chars(OfString(s)) == s
  {
  }

  lemma OfStringAppend(a: string, b: string)
    ensures OfString(a + b) == OfString(a) + OfString(b)
  {
  }

  /** `append_le_u16`. */
  function Le16(v: nat): (r: seq<byte>)
    requires v < U16Limit
    ensures |r| == 2
  {
    [v % 0x100, (v / 0x100) % 0x100]
  }

  /** `append_le_u32`. */
  function Le32(v: nat): (r: seq<byte>)
    requires v < U32Limit
    ensures |r| == 4
  {
    [v % 0x100, (v / 0x100) % 0x100, (v / 0x1_0000) % 0x100, (v / 0x100_0000) % 0x100]
  }

  /** `read_le_u16` at offset `p`. */
  function ReadLe16(data: seq<byte>, p: nat): (r: nat)
    requires p + 2 <= |data|
    ensures r < U16Limit
  {
    data[p] as int + data[p + 1] as int * 0x100
  }

  /** `read_le_u32` at offset `p`. */
  function ReadLe32(data: seq<byte>, p: nat): (r: nat)
    requires p + 4 <= |data|
    ensures r < U32Limit
  {
    data[p] as int + data[p + 1] as int * 0x100 + data[p + 2] as int * 0x1_0000
      + data[p + 3] as int * 0x100_0000
  }

  /** Reading back a written 16-bit field gives the value that was written. */
  lemma ReadLe16OfLe16(data: seq<byte>, p: nat, v: nat)
    requires v < U16Limit
    requires p + 2 <= |data| && data[p..p + 2] == Le16(v)
    ensures ReadLe16(data, p) == v
  {
    assert data[p] == v % 0x100 && data[p + 1] == (v / 0x100) % 0x100 by {
      assert data[p..p + 2][0] == data[p] && data[p..p + 2][1] == data[p + 1];
    }
    assert v / 0x100 < 0x100;
  }

  /** Reading back a written 32-bit field gives the value that was written. */
  lemma ReadLe32OfLe32(data: seq<byte>, p: nat, v: nat)
    requires v < U32Limit
    requires p + 4 <= |data| && data[p..p + 4] == Le32(v)
    ensures ReadLe32(data, p) == v
  {
    var w := data[p..p + 4];
    assert data[p] == w[0] && data[p + 1] == w[1] && data[p + 2] == w[2] && data[p + 3] == w[3];
    var q1 := v / 0x100;
    var q2 := q1 / 0x100;
    var q3 := q2 / 0x100;
    assert v == q1 * 0x100 + v % 0x100;
    assert q1 == q2 * 0x100 + q1 % 0x100;
    assert q2 == q3 * 0x100 + q2 % 0x100;
    assert v / 0x1_0000 == q2;
    assert v / 0x100_0000 == q3;
    assert q3 < 0x100;
  }

  /** `piece` sits in `data` at offset `p`. */
  predicate At(data: seq<byte>, p: nat, piece: seq<byte>) {
    p + |piece| <= |data| && data[p..p + |piece|] == piece
  }

  /** A byte string written at `p` reads back unchanged. */
  lemma CharsAtOfString(data: seq<byte>, p: nat, s: string)
    requires IsByteString(s) && At(data, p, OfString(s))
    ensures CharsAt(data, p, |s|) == s
  {
    CharsAtIsChars(data, p, |s|);
    CharsOfString(s);
  }

  /** A window holding `a + b` holds `a` and, right after it, `b`. */
  lemma AtSplit(data: seq<byte>, p: nat, a: seq<byte>, b: seq<byte>)
    requires At(data, p, a + b)
    ensures At(data, p, a) && At(data, p + |a|, b)
  {
    var w := data[p..p + |a| + |b|];
    assert data[p..p + |a|] == w[..|a|];
    assert data[p + |a|..p + |a| + |b|] == w[|a|..];
  }

  /** Appending bytes does not change a field read from the front. */
  lemma ReadLe32Prefix(a: seq<byte>, b: seq<byte>, p: nat)
    requires p + 4 <= |a|
    ensures ReadLe32(a + b, p) == ReadLe32(a, p)
  {
  }

  /** An unsigned 32-bit value. */
  type u32 = x: int | 0 <= x < 0x1_0000_0000

  const FnvOffsetBasis: u32 := 2166136261
  const FnvPrime: u32 := 16777619

  /** Bit-wise exclusive or of two bytes. */
  function Xor8(a: byte, b: byte): byte {
    ((a as bv8) ^ (b as bv8)) as int
  }

  /** One round of FNV-1a: `h ^= byte; h *= prime` on a `uint32_t`. Xoring
      a byte into the word only touches its low eight bits, and the product
      wraps modulo 2^32. */
  function FnvStep(h: u32, b: byte): u32 {
    ((h - h % 0x100 + Xor8(h % 0x100, b)) * FnvPrime) % U32Limit
  }

  /** `fnv1a32_append`: continues a hash over more bytes, first byte first. */
  function Fnv1a32Append(h: u32, data: seq<byte>): u32
    decreases |data|
  {
    if |data| == 0 then h else Fnv1a32Append(FnvStep(h, data[0]), data[1..])
  }

  /** `fnv1a32`: the loop's hash of every prefix, from the offset basis. */
  function Fnv1a32(data: seq<byte>): u32
    decreases |data|
  {
    if |data| == 0 then FnvOffsetBasis
    else FnvStep(Fnv1a32(data[..|data| - 1]), data[|data| - 1])
  }

  /** Hashing `a + b` in one go equals hashing `a` and continuing over `b`:
      the exporter's three-part checksum is the hash of the blocks laid end
      to end. */
  lemma {:induction false} Fnv1a32AppendConcat(h: u32, a: seq<byte>, b: seq<byte>)
    ensures Fnv1a32Append(h, a + b) == Fnv1a32Append(Fnv1a32Append(h, a), b)
    decreases |a|
  {
    if |a| > 0 {
      assert (a + b)[0] == a[0];
      assert (a + b)[1..] == a[1..] + b;
      Fnv1a32AppendConcat(FnvStep(h, a[0]), a[1..], b);
    } else {
      assert a + b == b;
    }
  }

  /** `fnv1a32(d)` is `fnv1a32_append` seeded with 2166136261, so the
      version-1 and version-2 checksums agree on a single block. */
  lemma {:induction false} Fnv1a32IsSeededAppend(data: seq<byte>)
    ensures Fnv1a32(data) == Fnv1a32Append(FnvOffsetBasis, data)
    decreases |data|
  {
    if |data| > 0 {
      var init := data[..|data| - 1];
      var last := data[|data| - 1];
      Fnv1a32IsSeededAppend(init);
      assert data == init + [last];
      Fnv1a32AppendConcat(FnvOffsetBasis, init, [last]);
      assert Fnv1a32Append(Fnv1a32Append(FnvOffsetBasis, init), [last])
          == Fnv1a32Append(FnvStep(Fnv1a32Append(FnvOffsetBasis, init), last), []);
    }
  }
}
