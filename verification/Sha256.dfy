/**
 * Buffered SHA-256: the streaming context against the definition of FIPS 180-4,
 * which folds the compression function over the padded message.
 */
module Sha256 {
  import opened Bytes
  import Modular

  datatype State = State(a: bv32, b: bv32, c: bv32, d: bv32, e: bv32, f: bv32, g: bv32, h: bv32)

  const INITIAL := State(0x6a09e667, 0xbb67ae85, 0x3c6ef372, 0xa54ff53a, 0x510e527f, 0x9b05688c, 0x1f83d9ab, 0x5be0cd19)

  /** One of eight words. */
  function Pick(k: int, x0: bv32, x1: bv32, x2: bv32, x3: bv32, x4: bv32, x5: bv32, x6: bv32, x7: bv32): bv32
  {
    if k == 0 then x0 else if k == 1 then x1 else if k == 2 then x2 else if k == 3 then x3
    else if k == 4 then x4 else if k == 5 then x5 else if k == 6 then x6 else x7
  }

  /** The table k of sha256_transform. */
  function RoundConstant(t: nat): bv32
    requires t < 64
  {
    if t < 8 then
      Pick(t, 0x428a2f98, 0x71374491, 0xb5c0fbcf, 0xe9b5dba5, 0x3956c25b, 0x59f111f1, 0x923f82a4, 0xab1c5ed5)
    else if t < 16 then
      Pick(t - 8, 0xd807aa98, 0x12835b01, 0x243185be, 0x550c7dc3, 0x72be5d74, 0x80deb1fe, 0x9bdc06a7, 0xc19bf174)
    else if t < 24 then
      Pick(t - 16, 0xe49b69c1, 0xefbe4786, 0x0fc19dc6, 0x240ca1cc, 0x2de92c6f, 0x4a7484aa, 0x5cb0a9dc, 0x76f988da)
    else if t < 32 then
      Pick(t - 24, 0x983e5152, 0xa831c66d, 0xb00327c8, 0xbf597fc7, 0xc6e00bf3, 0xd5a79147, 0x06ca6351, 0x14292967)
    else if t < 40 then
      Pick(t - 32, 0x27b70a85, 0x2e1b2138, 0x4d2c6dfc, 0x53380d13, 0x650a7354, 0x766a0abb, 0x81c2c92e, 0x92722c85)
    else if t < 48 then
      Pick(t - 40, 0xa2bfe8a1, 0xa81a664b, 0xc24b8b70, 0xc76c51a3, 0xd192e819, 0xd6990624, 0xf40e3585, 0x106aa070)
    else if t < 56 then
      Pick(t - 48, 0x19a4c116, 0x1e376c08, 0x2748774c, 0x34b0bcb5, 0x391c0cb3, 0x4ed8aa4a, 0x5b9cca4f, 0x682e6ff3)
    else
      Pick(t - 56, 0x748f82ee, 0x78a5636f, 0x84c87814, 0x8cc70208, 0x90befffa, 0xa4506ceb, 0xbef9a3f7, 0xc67178f2)
  }

  // ---------------------------------------- the compression function (sections 4.1.2 and 6.2.2 of FIPS 180-4)

  function Ch(x: bv32, y: bv32, z: bv32): bv32
  {
    (x & y) ^ (!x & z)
  }

  function Maj(x: bv32, y: bv32, z: bv32): bv32
  {
    (x & y) ^ (x & z) ^ (y & z)
  }

  function BigSigma0(x: bv32): bv32
  {
    x.RotateRight(2) ^ x.RotateRight(13) ^ x.RotateRight(22)
  }

  function BigSigma1(x: bv32): bv32
  {
    x.RotateRight(6) ^ x.RotateRight(11) ^ x.RotateRight(25)
  }

  function SmallSigma0(x: bv32): bv32
  {
    x.RotateRight(7) ^ x.RotateRight(18) ^ (x >> 3)
  }

  function SmallSigma1(x: bv32): bv32
  {
    x.RotateRight(17) ^ x.RotateRight(19) ^ (x >> 10)
  }

  function Word(b0: int, b1: int, b2: int, b3: int): bv32
    requires 0 <= b0 < 256 && 0 <= b1 < 256 && 0 <= b2 < 256 && 0 <= b3 < 256
  {
    (0x100_0000 * b0 + 0x1_0000 * b1 + 0x100 * b2 + b3) as bv32
  }

  lemma WordIs(b0: int, b1: int, b2: int, b3: int, w: bv32)
    requires 0 <= b0 < 256 && 0 <= b1 < 256 && 0 <= b2 < 256 && 0 <= b3 < 256
    requires w as int == 0x100_0000 * b0 + 0x1_0000 * b1 + 0x100 * b2 + b3
    ensures Word(b0, b1, b2, b3) == w
  {
    assert (w as int) as bv32 == w;
  }

  /** Word t of a block, most significant byte first. */
  function BlockWord(block: seq<byte>, t: nat): bv32
    requires |block| == 64 && t < 16
  {
    Word(block[4 * t], block[4 * t + 1], block[4 * t + 2], block[4 * t + 3])
  }

  /** The recurrence of the message schedule. */
  function FipsWord(w2: bv32, w7: bv32, w15: bv32, w16: bv32): bv32
  {
    SmallSigma1(w2) + w7 + SmallSigma0(w15) + w16
  }

  /** The same sum in the order of sha256_transform. */
  function NextWord(w16: bv32, w15: bv32, w7: bv32, w2: bv32): (w: bv32)
    ensures w == FipsWord(w2, w7, w15, w16)
  {
    w16 + SmallSigma0(w15) + w7 + SmallSigma1(w2)
  }

  /** The message schedule. */
  function Schedule(block: seq<byte>, t: nat): bv32
    requires |block| == 64 && t < 64
  {
    if t < 16 then BlockWord(block, t)
    else FipsWord(Schedule(block, t - 2), Schedule(block, t - 7), Schedule(block, t - 15), Schedule(block, t - 16))
  }

  function Plus(x: bv32, y: bv32): bv32
  {
    x + y
  }

  function T1(s: State, k: bv32, w: bv32): bv32
  {
    s.h + BigSigma1(s.e) + Ch(s.e, s.f, s.g) + k + w
  }

  function T2(s: State): bv32
  {
    BigSigma0(s.a) + Maj(s.a, s.b, s.c)
  }

  function Round(s: State, k: bv32, w: bv32): State
  {
    State(Plus(T1(s, k, w), T2(s)), s.a, s.b, s.c, Plus(s.d, T1(s, k, w)), s.e, s.f, s.g)
  }

  /** The working variables after t rounds. */
  function Rounds(s: State, block: seq<byte>, t: nat): State
    requires |block| == 64 && t <= 64
  {
    if t == 0 then s else Round(Rounds(s, block, t - 1), RoundConstant(t - 1), Schedule(block, t - 1))
  }

  function Sum(s: State, t: State): State
  {
    State(Plus(s.a, t.a), Plus(s.b, t.b), Plus(s.c, t.c), Plus(s.d, t.d), Plus(s.e, t.e), Plus(s.f, t.f),
        Plus(s.g, t.g), Plus(s.h, t.h))
  }

  function Compress(s: State, block: seq<byte>): State
    requires |block| == 64
  {
    Sum(s, Rounds(s, block, 64))
  }

  /** sha256_transform: the schedule in an array, the working variables rotated in place. */
  method Transform(state: State, block: seq<byte>) returns (next: State)
    requires |block| == 64
    ensures next == Compress(state, block)
  {
    hide T1, T2, Plus, Schedule, Rounds, RoundConstant;
    var w := ExpandBlock(block);
    var a, b, c, d := state.a, state.b, state.c, state.d;
    var e, f, g, h := state.e, state.f, state.g, state.h;
    RoundsStart(state, block);
    for i := 0 to 64
      modifies {}
      invariant State(a, b, c, d, e, f, g, h) == Rounds(state, block, i)
    {
      RoundsUnfold(state, block, i);
      var current := State(a, b, c, d, e, f, g, h);
      var t1 := T1(current, RoundConstant(i), w[i]);
      var t2 := T2(current);
      h := g;
      g := f;
      f := e;
      e := Plus(d, t1);
      d := c;
      c := b;
      b := a;
      a := Plus(t1, t2);
    }
    next := State(Plus(state.a, a), Plus(state.b, b), Plus(state.c, c), Plus(state.d, d),
                  Plus(state.e, e), Plus(state.f, f), Plus(state.g, g), Plus(state.h, h));
  }

  lemma RoundsStart(s: State, block: seq<byte>)
    requires |block| == 64
    ensures Rounds(s, block, 0) == s
  {
  }

  lemma RoundsUnfold(s: State, block: seq<byte>, i: nat)
    requires |block| == 64 && i < 64
    ensures Rounds(s, block, i + 1) == Round(Rounds(s, block, i), RoundConstant(i), Schedule(block, i))
  {
    hide Round, Schedule, RoundConstant;
  }

  /** The first two loops of sha256_transform. */
  method ExpandBlock(block: seq<byte>) returns (w: array<bv32>)
    requires |block| == 64
    ensures fresh(w) && w.Length == 64 && forall t | 0 <= t < 64 :: w[t] == Schedule(block, t)
  {
    hide FipsWord, NextWord, BlockWord, Schedule;
    w := new bv32[64];
    for i := 0 to 16
      invariant forall t | 0 <= t < i :: w[t] == Schedule(block, t)
    {
      ScheduleStart(block, i);
      w[i] := BlockWord(block, i);
    }
    for i := 16 to 64
      invariant forall t | 0 <= t < i :: w[t] == Schedule(block, t)
    {
      ScheduleNext(block, i);
      w[i] := NextWord(w[i - 16], w[i - 15], w[i - 7], w[i - 2]);
    }
  }

  lemma ScheduleStart(block: seq<byte>, t: nat)
    requires |block| == 64 && t < 16
    ensures Schedule(block, t) == BlockWord(block, t)
  {
  }

  lemma ScheduleNext(block: seq<byte>, t: nat)
    requires |block| == 64 && 16 <= t < 64
    ensures Schedule(block, t)
         == FipsWord(Schedule(block, t - 2), Schedule(block, t - 7), Schedule(block, t - 15), Schedule(block, t - 16))
  {
    hide FipsWord, BlockWord;
  }

  // ------------------------------------------------------------ padding (section 5.1.1 of FIPS 180-4)

  /** Folding the compression function over the whole blocks of a message. */
  function Fold(msg: seq<byte>): State
  {
    if |msg| < 64 then INITIAL else Compress(Fold(msg[..|msg| - 64]), msg[|msg| - 64..])
  }

  /** A 64-bit number, most significant byte first. */
  function BigEndian64(n: nat): (s: seq<byte>)
    requires n < W64
    ensures |s| == 8
  {
    [n / 0x100_0000_0000_0000 % 256, n / 0x1_0000_0000_0000 % 256, n / 0x100_0000_0000 % 256, n / 0x1_0000_0000 % 256,
     n / 0x100_0000 % 256, n / 0x1_0000 % 256, n / 0x100 % 256, n % 256]
  }

  function Zeros(n: nat): (s: seq<byte>)
    ensures |s| == n
  {
    seq(n, _ => 0)
  }

  /** How many zero bytes follow the 0x80 byte. */
  function Gap(n: nat): nat
  {
    (119 - n % 64) % 64
  }

  predicate LeavesEight(n: nat, k: nat)
  {
    (n + 1 + k) % 64 == 56
  }

  lemma GapTooSmall(q: nat, r: nat, k: nat)
    requires r < 64 && k < (if r <= 55 then 55 - r else 119 - r)
    ensures !LeavesEight(64 * q + r, k)
  {
    var j := r + 1 + k;
    Modular.ModUnique(64 * q + j, 64, q + j / 64, j % 64);
  }

  /** FIPS asks for the least non-negative gap that leaves eight bytes in the last block. */
  lemma GapIsLeast(n: nat)
    ensures LeavesEight(n, Gap(n))
    ensures forall k: nat | k < Gap(n) :: !LeavesEight(n, k)
  {
    var q, r := n / 64, n % 64;
    assert n == 64 * q + r;
    if r <= 55 {
      assert Gap(n) == 55 - r;
    } else {
      assert Gap(n) == 119 - r;
    }
    forall k: nat | k < Gap(n)
      ensures !LeavesEight(n, k)
    {
      GapTooSmall(q, r, k);
    }
  }

  /** The length field holds the bit count modulo 2^64, which is the bit count for messages below 2^61 bytes. */
  function Pad(msg: seq<byte>): seq<byte>
  {
    msg + [0x80] + Zeros(Gap(|msg|)) + BigEndian64(8 * |msg| % W64)
  }

  function Digest(s: State): (d: seq<byte>)
    ensures |d| == 32
  {
    BigEndian32(s.a) + BigEndian32(s.b) + BigEndian32(s.c) + BigEndian32(s.d)
    + BigEndian32(s.e) + BigEndian32(s.f) + BigEndian32(s.g) + BigEndian32(s.h)
  }

  function BigEndian32(w: bv32): (s: seq<byte>)
    ensures |s| == 4
  {
    var n := w as int;
    [n / 0x100_0000 % 256, n / 0x1_0000 % 256, n / 0x100 % 256, n % 256]
  }

  lemma FourDigits(n: int)
    requires 0 <= n < 0x1_0000_0000
    ensures 0x100_0000 * (n / 0x100_0000 % 256) + 0x1_0000 * (n / 0x1_0000 % 256) + 0x100 * (n / 0x100 % 256)
         + n % 256 == n
  {
    var q := n / 0x100;
    var r := q / 0x100;
    DivDiv(n, 0x100);
    DivDiv(n, 0x1_0000);
    assert n / 0x1_0000 == r && n / 0x100_0000 == r / 0x100;
  }

  lemma BytesBack(w: bv32)
    ensures var s := BigEndian32(w); Word(s[0], s[1], s[2], s[3]) == w
  {
    hide Word;
    var n := w as int;
    FourDigits(n);
    WordIs(n / 0x100_0000 % 256, n / 0x1_0000 % 256, n / 0x100 % 256, n % 256, w);
  }

  function DigestWord(d: seq<byte>, i: nat): bv32
    requires |d| == 32 && i < 8
  {
    Word(d[4 * i], d[4 * i + 1], d[4 * i + 2], d[4 * i + 3])
  }

  /** The digest is the eight words of the state in order, most significant byte first. */
  lemma DigestWords(s: State)
    ensures var d := Digest(s);
            && DigestWord(d, 0) == s.a && DigestWord(d, 1) == s.b && DigestWord(d, 2) == s.c && DigestWord(d, 3) == s.d
            && DigestWord(d, 4) == s.e && DigestWord(d, 5) == s.f && DigestWord(d, 6) == s.g && DigestWord(d, 7) == s.h
  {
    hide Word, BigEndian32;
    BytesBack(s.a);
    BytesBack(s.b);
    BytesBack(s.c);
    BytesBack(s.d);
    BytesBack(s.e);
    BytesBack(s.f);
    BytesBack(s.g);
    BytesBack(s.h);
  }

  function Hash(msg: seq<byte>): (d: seq<byte>)
    ensures |d| == 32
  {
    Digest(Fold(Pad(msg)))
  }

  /** The number a big-endian byte sequence encodes. */
  function BigEndian(s: seq<byte>): nat
  {
    if s == [] then 0 else 256 * BigEndian(s[..|s| - 1]) + s[|s| - 1]
  }

  lemma {:induction false} BigEndianDigits(s: seq<byte>, n: nat)
    requires |s| == 8 && n < W64 && s == BigEndian64(n)
    ensures BigEndian(s) == n
  {
    hide BigEndian, BigEndian64;
    BigEndian64At(n);
    BigEndianStart();
    assert s[..0] == [];
    BigEndianSnoc(s, 0);
    BigEndianSnoc(s, 1);
    BigEndianSnoc(s, 2);
    BigEndianSnoc(s, 3);
    BigEndianSnoc(s, 4);
    BigEndianSnoc(s, 5);
    BigEndianSnoc(s, 6);
    BigEndianSnoc(s, 7);
    assert s[..8] == s;
    DigitsAddUp(n);
  }

  lemma BigEndianStart()
    ensures BigEndian([]) == 0
  {
  }

  lemma BigEndianSnoc(s: seq<byte>, i: nat)
    requires i < |s|
    ensures BigEndian(s[..i + 1]) == 256 * BigEndian(s[..i]) + s[i]
  {
    assert s[..i + 1][..i] == s[..i];
  }

  lemma BigEndian64At(n: nat)
    requires n < W64
    ensures var s := BigEndian64(n);
            && s[0] == n / 0x100_0000_0000_0000 % 256 && s[1] == n / 0x1_0000_0000_0000 % 256
            && s[2] == n / 0x100_0000_0000 % 256 && s[3] == n / 0x1_0000_0000 % 256
            && s[4] == n / 0x100_0000 % 256 && s[5] == n / 0x1_0000 % 256 && s[6] == n / 0x100 % 256 && s[7] == n % 256
  {
  }

  lemma DivDiv(n: nat, d: nat)
    requires d > 0
    ensures n / (256 * d) == n / d / 256
    ensures n / d == 256 * (n / (256 * d)) + n / d % 256
  {
    var q := n / d;
    var r := n % d;
    var k, j := q / 256, q % 256;
    assert n == d * q + r;
    assert q == 256 * k + j;
    assert d * q == d * (256 * k) + d * j by { Modular.Distribute(256 * k, j, d); }
    assert d * (256 * k) == (256 * d) * k;
    assert d * j <= d * 255 by { Modular.MulMonotone(j, 255, d); }
    Modular.MulBound(j, d);
    Modular.ModUnique(n, 256 * d, k, d * j + r);
  }

  lemma DigitsAddUp(n: nat)
    requires n < W64
    ensures n == n % 256 + 256 * (n / 0x100 % 256 + 256 * (n / 0x1_0000 % 256 + 256 * (n / 0x100_0000 % 256
         + 256 * (n / 0x1_0000_0000 % 256 + 256 * (n / 0x100_0000_0000 % 256 + 256 * (n / 0x1_0000_0000_0000 % 256
         + 256 * (n / 0x100_0000_0000_0000 % 256)))))))
  {
    DivDiv(n, 1);
    DivDiv(n, 0x100);
    DivDiv(n, 0x1_0000);
    DivDiv(n, 0x100_0000);
    DivDiv(n, 0x1_0000_0000);
    DivDiv(n, 0x100_0000_0000);
    DivDiv(n, 0x1_0000_0000_0000);
  }

  /**
   * The padding of FIPS 180-4, for every message whose bit count fits: the message, a one bit, the least number
   * of zero bits, and a length field that reads as the bit count; whole blocks in all.
   */
  lemma PadIsFips(msg: seq<byte>)
    requires |msg| < 0x2000_0000_0000_0000
    ensures var p := Pad(msg);
            && |p| % 64 == 0 && p[..|msg|] == msg && p[|msg|] == 0x80
            && |p| == |msg| + 1 + Gap(|msg|) + 8
            && (forall i | |msg| < i < |p| - 8 :: p[i] == 0)
            && BigEndian(p[|p| - 8..]) == 8 * |msg|
  {
    hide BigEndian, BigEndian64, Gap;
    var p := Pad(msg);
    GapIsLeast(|msg|);
    var tail := BigEndian64(8 * |msg| % W64);
    assert p[|p| - 8..] == tail;
    assert 8 * |msg| % W64 == 8 * |msg|;
    BigEndianDigits(tail, 8 * |msg|);
  }

  // ------------------------------------------------------------ the streaming context

  lemma FoldSnoc(msg: seq<byte>, block: seq<byte>)
    requires |block| == 64
    ensures Fold(msg + block) == Compress(Fold(msg), block)
  {
    hide Compress;
    var all := msg + block;
    assert all[..|all| - 64] == msg && all[|all| - 64..] == block;
  }

  class Context {
    var state: State
    var bitCount: nat
    var buffer: array<byte>
    var bufferSize: nat
    ghost var done: seq<byte>

    ghost predicate Valid()
      reads this, buffer
    {
      && buffer.Length == 64 && bufferSize < 64 && |done| % 64 == 0
      && state == Fold(done)
      && bitCount == 8 * (|done| + bufferSize) % W64
    }

    /** All bytes given so far. */
    ghost function Absorbed(): seq<byte>
      requires Valid()
      reads this, buffer
    {
      done + buffer[..bufferSize]
    }

    /** kos_sha256_initialize */
    constructor ()
      ensures Valid() && fresh(buffer) && Absorbed() == []
    {
      state := INITIAL;
      bitCount := 0;
      buffer := new byte[64](_ => 0);
      bufferSize := 0;
      done := [];
    }

    /** Compressing a full buffer. */
    method Flush()
      requires buffer.Length == 64 && bufferSize == 64 && state == Fold(done)
      modifies this`state, this`bufferSize, this`done
      ensures bufferSize == 0 && done == old(done) + buffer[..] && state == Fold(done)
    {
      hide Fold, Compress;
      FoldSnoc(done, buffer[..]);
      state := Transform(state, buffer[..]);
      done := done + buffer[..];
      bufferSize := 0;
    }

    /** The copy loop of kos_sha256_update. */
    method Fill(bytes: seq<byte>)
      requires bufferSize + |bytes| <= buffer.Length
      modifies buffer
      ensures buffer[..bufferSize + |bytes|] == old(buffer[..bufferSize]) + bytes
    {
      for i := 0 to |bytes|
        invariant buffer[..bufferSize + i] == old(buffer[..bufferSize]) + bytes[..i]
      {
        buffer[bufferSize + i] := bytes[i];
        assert bytes[..i + 1] == bytes[..i] + [bytes[i]];
      }
      assert bytes[..|bytes|] == bytes;
    }

    /** One turn of the loop in kos_sha256_update. */
    method Take(data: seq<byte>) returns (amount: nat)
      requires buffer.Length == 64 && bufferSize < 64 && |done| % 64 == 0 && state == Fold(done) && |data| > 0
      modifies this`state, this`bufferSize, this`done, buffer
      ensures bufferSize < 64 && |done| % 64 == 0 && state == Fold(done) && 0 < amount <= |data|
      ensures done + buffer[..bufferSize] == old(done + buffer[..bufferSize]) + data[..amount]
    {
      hide Fold;
      amount := if 64 - bufferSize > |data| then |data| else 64 - bufferSize;
      Fill(data[..amount]);
      bufferSize := bufferSize + amount;
      if bufferSize == 64 {
        Flush();
      }
    }

    /** kos_sha256_update: absorbs exactly the given bytes, wherever the message is cut. */
    method Update(data: seq<byte>)
      requires Valid()
      modifies this`state, this`bitCount, this`bufferSize, this`done, buffer
      ensures Valid() && Absorbed() == old(Absorbed()) + data
    {
      hide Fold;
      ghost var before := Absorbed();
      CountAdds(|before|, |data|);
      bitCount := (bitCount + 8 * |data|) % W64;
      var rest := data;
      while |rest| > 0
        invariant bufferSize < 64 && |done| % 64 == 0 && state == Fold(done)
        invariant done + buffer[..bufferSize] + rest == before + data
        modifies this`state, this`bufferSize, this`done, buffer
      {
        ghost var sofar := done + buffer[..bufferSize];
        var amount := Take(rest);
        assert sofar + rest == sofar + rest[..amount] + rest[amount..];
        rest := rest[amount..];
      }
      assert |done + buffer[..bufferSize]| == |before| + |data|;
    }

    ghost predicate Stream(bytes: seq<byte>)
      reads this, buffer
    {
      && buffer.Length == 64 && bufferSize <= 64 && |done| % 64 == 0 && state == Fold(done)
      && done + buffer[..bufferSize] == bytes
    }

    /** One turn of the padding loop of kos_sha256_finalize. */
    method PutZero(ghost bytes: seq<byte>)
      requires Stream(bytes)
      modifies this`state, this`bufferSize, this`done, buffer
      ensures Stream(bytes + [0]) && 0 < bufferSize
    {
      hide Fold;
      if bufferSize == 64 {
        Flush();
      }
      ghost var sofar := buffer[..bufferSize];
      buffer[bufferSize] := 0;
      bufferSize := bufferSize + 1;
      assert buffer[..bufferSize] == sofar + [0];
    }

    /** The padding loop of kos_sha256_finalize: 0x80, then zeros up to offset 56, compressing on the way if needed. */
    method PadBuffer()
      requires Valid()
      modifies this`state, this`bufferSize, this`done, buffer
      ensures bufferSize == 56 && Stream(old(Absorbed()) + [0x80] + Zeros(Gap(|old(Absorbed())|)))
    {
      hide Fold, Gap, Zeros;
      ghost var msg := Absorbed();
      buffer[bufferSize] := 0x80;
      bufferSize := bufferSize + 1;
      ghost var k := 0;
      ZerosEmpty();
      assert Stream(msg + [0x80] + Zeros(0));
      while bufferSize != 56
        invariant 0 < bufferSize && 0 <= k <= Gap(|msg|)
        invariant Stream(msg + [0x80] + Zeros(k))
        decreases Gap(|msg|) - k
      {
        NotYet(|msg|, k, |done|, bufferSize);
        PutZero(msg + [0x80] + Zeros(k));
        ZerosSnoc(k);
        assert msg + [0x80] + Zeros(k + 1) == msg + [0x80] + Zeros(k) + [0];
        k := k + 1;
      }
      Enough(|msg|, k, |done|);
    }

    /** kos_sha256_finalize */
    method Finalize() returns (digest: seq<byte>)
      requires Valid()
      modifies this`state, this`bufferSize, this`done, buffer
      ensures digest == Hash(old(Absorbed()))
    {
      hide Fold, Gap, Zeros, BigEndian64, Digest;
      ghost var msg := Absorbed();
      var field := BigEndian64(bitCount);
      PadBuffer();
      Fill(field);
      bufferSize := 64;
      Flush();
      assert done == Pad(msg);
      digest := Digest(state);
    }
  }

  lemma CountAdds(x: nat, y: nat)
    ensures (8 * x % W64 + 8 * y) % W64 == 8 * (x + y) % W64
  {
    var q := 8 * x / W64;
    assert 8 * (x + y) == W64 * q + (8 * x % W64 + 8 * y);
    Modular.ModUnique(8 * (x + y), W64, q + (8 * x % W64 + 8 * y) / W64, (8 * x % W64 + 8 * y) % W64);
  }

  lemma Enough(n: nat, k: nat, done: nat)
    requires done % 64 == 0 && done + 56 == n + 1 + k && k <= Gap(n)
    ensures k == Gap(n)
  {
    hide Gap;
    GapIsLeast(n);
    Modular.ModUnique(done + 56, 64, done / 64, 56);
    assert LeavesEight(n, k);
  }

  lemma NotYet(n: nat, k: nat, done: nat, size: nat)
    requires done % 64 == 0 && done + size == n + 1 + k && 0 < size <= 64 && size != 56 && k <= Gap(n)
    ensures k < Gap(n)
  {
    hide Gap;
    GapIsLeast(n);
    Modular.ModUnique(done + size, 64, if size == 64 then done / 64 + 1 else done / 64, if size == 64 then 0 else size);
  }

  /** kos_sha256 */
  method Sha256(data: seq<byte>) returns (digest: seq<byte>)
    ensures digest == Hash(data)
  {
    hide Hash;
    var ctx := new Context();
    ctx.Update(data);
    assert [] + data == data;
    digest := ctx.Finalize();
  }

  /** The digest does not depend on how the message is split into updates. */
  method HashChunks(chunks: seq<seq<byte>>) returns (digest: seq<byte>)
    ensures digest == Hash(Concat(chunks))
  {
    hide Hash, Concat;
    var ctx := new Context();
    ConcatEmpty();
    assert chunks[..0] == [];
    for i := 0 to |chunks|
      invariant fresh(ctx) && fresh(ctx.buffer) && ctx.Valid() && ctx.Absorbed() == Concat(chunks[..i])
    {
      ConcatSnoc(chunks, i);
      ctx.Update(chunks[i]);
    }
    assert chunks[..|chunks|] == chunks;
    digest := ctx.Finalize();
  }

  lemma ZerosEmpty()
    ensures Zeros(0) == []
  {
  }

  lemma ZerosSnoc(k: nat)
    ensures Zeros(k + 1) == Zeros(k) + [0]
  {
  }
}
