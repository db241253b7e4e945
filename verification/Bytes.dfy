/** Bytes and little-endian numbers. */
module Bytes {
  type byte = x: int | 0 <= x < 256

  /** The number a little-endian byte sequence encodes. */
  function LittleEndian(s: seq<byte>): nat
  {
    if s == [] then 0 else s[0] + 256 * LittleEndian(s[1..])
  }

  /** The low k bytes of a number, least significant first. */
  function Encode(n: int, k: nat): (s: seq<byte>)
    ensures |s| == k
    decreases k
  {
    if k == 0 then [] else [n % 256] + Encode(n / 256, k - 1)
  }

  function Radix(k: nat): nat
  {
    if k == 0 then 1 else 256 * Radix(k - 1)
  }

  lemma {:induction false} EncodeDecode(n: nat, k: nat)
    requires n < Radix(k)
    ensures LittleEndian(Encode(n, k)) == n
  {
    if k > 0 {
      EncodeDecode(n / 256, k - 1);
      assert Encode(n, k)[1..] == Encode(n / 256, k - 1);
    }
  }

  /** A number as a 64-bit word in memory. */
  function Encode64(n: int): (s: seq<byte>)
    ensures |s| == 8
  {
    Encode(n, 8)
  }

  lemma EncodeDecode64(n: nat)
    requires n < W64
    ensures LittleEndian(Encode64(n)) == n
  {
    assert Radix(4) == 0x1_0000_0000;
    assert Radix(8) == W64;
    EncodeDecode(n, 8);
  }

  /** The number of 64-bit words. */
  const W64: nat := 0x1_0000_0000_0000_0000

  function Concat(chunks: seq<seq<byte>>): seq<byte>
  {
    if chunks == [] then [] else Concat(chunks[..|chunks| - 1]) + chunks[|chunks| - 1]
  }

  lemma ConcatEmpty()
    ensures Concat([]) == []
  {
  }

  lemma ConcatSnoc(chunks: seq<seq<byte>>, i: nat)
    requires i < |chunks|
    ensures Concat(chunks[..i + 1]) == Concat(chunks[..i]) + chunks[i]
  {
    assert chunks[..i + 1][..i] == chunks[..i];
  }
}
