/**
 Poly1305 in five limbs of 26 bits (lib/crypto.c, ChaCha20-Poly1305 part). The types
 uint32 and uint64 make every step a proof that no intermediate wraps around.
 */
module Poly1305 {
  import opened Bytes
  import opened Modular
  import Words

  newtype uint32 = x: int | 0 <= x < 0x1_0000_0000
  newtype uint64 = x: int | 0 <= x < 0x1_0000_0000_0000_0000

  const Q: int := 0x3_ffff_ffff_ffff_ffff_ffff_ffff_ffff_fffb    // 2^130 - 5

  /** Five limbs of weight 2^26. */
  datatype Limbs = Limbs(a0: uint32, a1: uint32, a2: uint32, a3: uint32, a4: uint32)

  const B1: int := 0x400_0000
  const B2: int := 0x10_0000_0000_0000
  const B3: int := 0x4000_0000_0000_0000_0000
  const B4: int := 0x100_0000_0000_0000_0000_0000_0000

  function Val5(a0: int, a1: int, a2: int, a3: int, a4: int): int
  {
    a0 + B1 * a1 + B2 * a2 + B3 * a3 + B4 * a4
  }

  function Value(l: Limbs): int
  {
    Val5(l.a0 as int, l.a1 as int, l.a2 as int, l.a3 as int, l.a4 as int)
  }

  // ------------------------------------------------------ polynomial product

  lemma Times(h: int, a0: int, a1: int, a2: int, a3: int, a4: int)
    ensures h * Val5(a0, a1, a2, a3, a4) == Val5(h * a0, h * a1, h * a2, h * a3, h * a4)
  {
    Term(h, B1, a1);
    Term(h, B2, a2);
    Term(h, B3, a3);
    Term(h, B4, a4);
    Sum5(h, a0, B1 * a1, B2 * a2, B3 * a3, B4 * a4);
  }

  lemma Term(h: int, b: int, a: int)
    ensures h * (b * a) == b * (h * a)
  {
  }

  lemma Sum5(h: int, a: int, b: int, c: int, d: int, e: int)
    ensures h * (a + b + c + d + e) == h * a + h * b + h * c + h * d + h * e
  {
  }

  /** Multiplying by 2^26 rotates the limbs; the one that leaves returns five-fold. */
  lemma Rotate(a0: int, a1: int, a2: int, a3: int, a4: int)
    ensures Val5(5 * a4, a0, a1, a2, a3) == B1 * Val5(a0, a1, a2, a3, a4) + Q * (-a4)
  {
  }

  /** The coefficients of the product of two five-limb numbers, reduced with 2^130 = 5. */
  function Coefficients(h: Limbs, r: Limbs): (int, int, int, int, int)
  {
    var h0, h1, h2, h3, h4 := h.a0 as int, h.a1 as int, h.a2 as int, h.a3 as int, h.a4 as int;
    var r0, r1, r2, r3, r4 := r.a0 as int, r.a1 as int, r.a2 as int, r.a3 as int, r.a4 as int;
    (h0 * r0 + h1 * (5 * r4) + h2 * (5 * r3) + h3 * (5 * r2) + h4 * (5 * r1),
     h0 * r1 + h1 * r0 + h2 * (5 * r4) + h3 * (5 * r3) + h4 * (5 * r2),
     h0 * r2 + h1 * r1 + h2 * r0 + h3 * (5 * r4) + h4 * (5 * r3),
     h0 * r3 + h1 * r2 + h2 * r1 + h3 * r0 + h4 * (5 * r4),
     h0 * r4 + h1 * r3 + h2 * r2 + h3 * r1 + h4 * r0)
  }

  /** Adding rows limb by limb. */
  lemma Collect(a0: int, a1: int, a2: int, a3: int, a4: int, b0: int, b1: int, b2: int, b3: int, b4: int,
                c0: int, c1: int, c2: int, c3: int, c4: int, d0: int, d1: int, d2: int, d3: int, d4: int,
                e0: int, e1: int, e2: int, e3: int, e4: int)
    ensures Val5(a0 + b0 + c0 + d0 + e0, a1 + b1 + c1 + d1 + e1, a2 + b2 + c2 + d2 + e2,
                 a3 + b3 + c3 + d3 + e3, a4 + b4 + c4 + d4 + e4)
         == Val5(a0, a1, a2, a3, a4) + Val5(b0, b1, b2, b3, b4) + Val5(c0, c1, c2, c3, c4)
            + Val5(d0, d1, d2, d3, d4) + Val5(e0, e1, e2, e3, e4)
  {
  }

  /** The product as a sum of rows. */
  lemma ProductRows(h: Limbs, r: Limbs)
    ensures var r0, r1, r2, r3, r4 := r.a0 as int, r.a1 as int, r.a2 as int, r.a3 as int, r.a4 as int;
            var (d0, d1, d2, d3, d4) := Coefficients(h, r);
            Val5(d0, d1, d2, d3, d4)
            == h.a0 as int * Val5(r0, r1, r2, r3, r4)
             + h.a1 as int * Val5(5 * r4, r0, r1, r2, r3)
             + h.a2 as int * Val5(5 * r3, 5 * r4, r0, r1, r2)
             + h.a3 as int * Val5(5 * r2, 5 * r3, 5 * r4, r0, r1)
             + h.a4 as int * Val5(5 * r1, 5 * r2, 5 * r3, 5 * r4, r0)
  {
    hide Val5;
    var h0, h1, h2, h3, h4 := h.a0 as int, h.a1 as int, h.a2 as int, h.a3 as int, h.a4 as int;
    var r0, r1, r2, r3, r4 := r.a0 as int, r.a1 as int, r.a2 as int, r.a3 as int, r.a4 as int;
    Times(h0, r0, r1, r2, r3, r4);
    Times(h1, 5 * r4, r0, r1, r2, r3);
    Times(h2, 5 * r3, 5 * r4, r0, r1, r2);
    Times(h3, 5 * r2, 5 * r3, 5 * r4, r0, r1);
    Times(h4, 5 * r1, 5 * r2, 5 * r3, 5 * r4, r0);
    Collect(h0 * r0, h0 * r1, h0 * r2, h0 * r3, h0 * r4,
            h1 * (5 * r4), h1 * r0, h1 * r1, h1 * r2, h1 * r3,
            h2 * (5 * r3), h2 * (5 * r4), h2 * r0, h2 * r1, h2 * r2,
            h3 * (5 * r2), h3 * (5 * r3), h3 * (5 * r4), h3 * r0, h3 * r1,
            h4 * (5 * r1), h4 * (5 * r2), h4 * (5 * r3), h4 * (5 * r4), h4 * r0);
  }

  /** If a row stands for w times r, the rotated row stands for 2^26 w times r. */
  lemma NextRow(v: int, v': int, w: int, r: int, k: int)
    requires Congruent(v, w * r, Q) && v' == B1 * v + Q * k
    ensures Congruent(v', (B1 * w) * r, Q)
  {
    Witness(v', B1 * v, Q, k);
    Witness(B1, B1, Q, 0);
    Mul(B1, B1, v, w * r, Q);
    assert B1 * (w * r) == (B1 * w) * r;
    Trans(v', B1 * v, (B1 * w) * r, Q);
  }

  lemma ScaleRow(h: int, v: int, w: int, r: int)
    requires Congruent(v, w * r, Q)
    ensures Congruent(h * v, (w * h) * r, Q)
  {
    Witness(h, h, Q, 0);
    Mul(h, h, v, w * r, Q);
    assert h * (w * r) == (w * h) * r;
  }

  lemma ProductCongruence(h: Limbs, r: Limbs)
    ensures var (d0, d1, d2, d3, d4) := Coefficients(h, r);
            Congruent(Val5(d0, d1, d2, d3, d4), Value(h) * Value(r), Q)
  {
    hide Coefficients, Congruent, Val5;
    var h0, h1, h2, h3, h4 := h.a0 as int, h.a1 as int, h.a2 as int, h.a3 as int, h.a4 as int;
    var r0, r1, r2, r3, r4 := r.a0 as int, r.a1 as int, r.a2 as int, r.a3 as int, r.a4 as int;
    ProductRows(h, r);
    Rotate(r0, r1, r2, r3, r4);
    Rotate(5 * r4, r0, r1, r2, r3);
    Rotate(5 * r3, 5 * r4, r0, r1, r2);
    Rotate(5 * r2, 5 * r3, 5 * r4, r0, r1);
    SumOfRows(h0, h1, h2, h3, h4, Val5(r0, r1, r2, r3, r4), Val5(5 * r4, r0, r1, r2, r3),
              Val5(5 * r3, 5 * r4, r0, r1, r2), Val5(5 * r2, 5 * r3, 5 * r4, r0, r1),
              Val5(5 * r1, 5 * r2, 5 * r3, 5 * r4, r0), -r4, -r3, -r2, -r1);
  }

  lemma SumOfRows(h0: int, h1: int, h2: int, h3: int, h4: int, v0: int, v1: int, v2: int, v3: int, v4: int,
                  k1: int, k2: int, k3: int, k4: int)
    requires v1 == B1 * v0 + Q * k1 && v2 == B1 * v1 + Q * k2 && v3 == B1 * v2 + Q * k3 && v4 == B1 * v3 + Q * k4
    ensures Congruent(h0 * v0 + h1 * v1 + h2 * v2 + h3 * v3 + h4 * v4, Val5(h0, h1, h2, h3, h4) * v0, Q)
  {
    hide Congruent;
    Witness(v0, 1 * v0, Q, 0);
    NextRow(v0, v1, 1, v0, k1);
    NextRow(v1, v2, B1, v0, k2);
    NextRow(v2, v3, B2, v0, k3);
    NextRow(v3, v4, B3, v0, k4);
    ScaleRows(h0, h1, h2, h3, h4, v0, v1, v2, v3, v4);
  }

  lemma ScaleRows(h0: int, h1: int, h2: int, h3: int, h4: int, v0: int, v1: int, v2: int, v3: int, v4: int)
    requires Congruent(v0, 1 * v0, Q) && Congruent(v1, B1 * v0, Q) && Congruent(v2, B2 * v0, Q)
    requires Congruent(v3, B3 * v0, Q) && Congruent(v4, B4 * v0, Q)
    ensures Congruent(h0 * v0 + h1 * v1 + h2 * v2 + h3 * v3 + h4 * v4, Val5(h0, h1, h2, h3, h4) * v0, Q)
  {
    hide Congruent, Q;
    ScaleRow(h0, v0, 1, v0);
    ScaleRow(h1, v1, B1, v0);
    ScaleRow(h2, v2, B2, v0);
    ScaleRow(h3, v3, B3, v0);
    ScaleRow(h4, v4, B4, v0);
    AddFive(h0 * v0, h1 * v1, h2 * v2, h3 * v3, h4 * v4,
            (1 * h0) * v0, (B1 * h1) * v0, (B2 * h2) * v0, (B3 * h3) * v0, (B4 * h4) * v0);
    Sum5(v0, 1 * h0, B1 * h1, B2 * h2, B3 * h3, B4 * h4);
    Commute(v0, Val5(h0, h1, h2, h3, h4));
    Commute(v0, 1 * h0);
    Commute(v0, B1 * h1);
    Commute(v0, B2 * h2);
    Commute(v0, B3 * h3);
    Commute(v0, B4 * h4);
  }

  lemma Commute(x: int, y: int)
    ensures x * y == y * x
  {
  }

  lemma AddFive(x0: int, x1: int, x2: int, x3: int, x4: int, y0: int, y1: int, y2: int, y3: int, y4: int)
    requires Congruent(x0, y0, Q) && Congruent(x1, y1, Q) && Congruent(x2, y2, Q) && Congruent(x3, y3, Q)
    requires Congruent(x4, y4, Q)
    ensures Congruent(x0 + x1 + x2 + x3 + x4, y0 + y1 + y2 + y3 + y4, Q)
  {
    hide Congruent;
    Modular.Add(x0, y0, x1, y1, Q);
    Modular.Add(x0 + x1, y0 + y1, x2, y2, Q);
    Modular.Add(x0 + x1 + x2, y0 + y1 + y2, x3, y3, Q);
    Modular.Add(x0 + x1 + x2 + x3, y0 + y1 + y2 + y3, x4, y4, Q);
  }

  // ---------------------------------------------------------- message limbs

  /** Little-endian 32-bit load. */
  function Load32(m: seq<byte>, i: nat): (t: nat)
    requires i + 4 <= |m|
    ensures t < 0x1_0000_0000
  {
    m[i] as int + 0x100 * m[i + 1] as int + 0x1_0000 * m[i + 2] as int + 0x100_0000 * m[i + 3] as int
  }

  lemma LoadsAreLittleEndian(m: seq<byte>)
    requires |m| == 16
    ensures LittleEndian(m) == Load32(m, 0) + 0x1_0000_0000 * Load32(m, 4)
                               + 0x1_0000_0000_0000_0000 * Load32(m, 8)
                                   + 0x1_0000_0000_0000_0000_0000_0000 * Load32(m, 12)
  {
    Load4(m);
    Load4(m[4..]);
    Load4(m[8..]);
    Load4(m[12..]);
    assert m[4..][4..] == m[8..] && m[8..][4..] == m[12..] && m[12..][4..] == [];
    assert Load32(m[4..], 0) == Load32(m, 4) && Load32(m[8..], 0) == Load32(m, 8)
        && Load32(m[12..], 0) == Load32(m, 12);
  }

  lemma Load4(m: seq<byte>)
    requires |m| >= 4
    ensures LittleEndian(m) == Load32(m, 0) + 0x1_0000_0000 * LittleEndian(m[4..])
  {
    assert m[1..][1..] == m[2..] && m[2..][1..] == m[3..] && m[3..][1..] == m[4..];
    assert LittleEndian(m) == m[0] + 256 * LittleEndian(m[1..]);
    assert LittleEndian(m[1..]) == m[1] + 256 * LittleEndian(m[2..]);
    assert LittleEndian(m[2..]) == m[2] + 256 * LittleEndian(m[3..]);
    assert LittleEndian(m[3..]) == m[3] + 256 * LittleEndian(m[4..]);
  }

  const MASK: nat := 0x3ff_ffff

  /** The limb `((t >> shift) | (next << (32 - shift))) & mask` of two adjacent words. */
  function Straddle(t: nat, next: nat, shift: nat, up: nat): nat
  {
    Words.And(Words.Or(Words.Shr(t, shift), Words.Shl(next, up) % 0x1_0000_0000), MASK)
  }

  lemma StraddleValue(t: nat, next: nat, shift: nat, up: nat)
    requires t < 0x1_0000_0000 && next < 0x1_0000_0000 && shift + up == 32 && up <= 26
    ensures Straddle(t, next, shift, up) == t / Words.Pow2(shift) + Words.Pow2(up) * (next % Words.Pow2(26 - up))
  {
    hide Words.And, Words.Or, Words.Pow2, Words.Shr, Words.Shl;
    Words.ShrIsDiv(t, shift);
    Words.ShlIsMul(next, up);
    var p, u := Words.Pow2(shift), Words.Pow2(up);
    var rest := Words.Pow2(26 - up);
    Words.Pow2Values();
    Pow26();
    Words.Pow2Add(shift, up);
    Words.Pow2Add(up, 26 - up);
    Words.Pow2Add(up, shift);
    DivBound(t, p, u);
    ShiftMod(next, u, p);
    var low, high := t / p, next % p;
    Words.OrDisjoint(low, high, up);
    Words.AndMask(low + u * high, 26);
    MaskConcat(low, high, u, rest);
    Words.Pow2Add(26 - up, shift - (26 - up));
    ModMod(next, rest, Words.Pow2(shift - (26 - up)));
  }

  lemma Pow26()
    ensures Words.Pow2(26) == 0x400_0000 && MASK == Words.Pow2(26) - 1
  {
    assert Words.Pow2(8) == 256;
    assert Words.Pow2(16) == 65536;
    assert Words.Pow2(24) == 0x100_0000;
  }

  lemma DivBound(t: nat, p: nat, u: nat)
    requires p >= 1 && t < p * u
    ensures t / p < u
  {
    var q := t / p;
    assert p * q <= t;
    MulMonotone(u, q, p);
  }

  /** A left shift keeps the low part of the word. */
  lemma ShiftMod(x: nat, u: nat, p: nat)
    requires u >= 1 && p >= 1 && u * p == 0x1_0000_0000
    ensures (x * u) % 0x1_0000_0000 == u * (x % p)
  {
    var q, r := x / p, x % p;
    assert x == p * q + r;
    assert x * u == (u * p) * q + u * r;
    MulMonotone(0, r, u);
    MulMonotone(r, p - 1, u);
    assert u * r < u * p by { assert (p - 1) * u == p * u - u; }
    ModUnique(x * u, u * p, q, u * r);
  }

  lemma MaskConcat(low: nat, high: nat, u: nat, rest: nat)
    requires u >= 1 && rest >= 1 && low < u
    ensures (low + u * high) % (u * rest) == low + u * (high % rest)
  {
    var q, r := high / rest, high % rest;
    assert high == rest * q + r;
    assert u * high == (u * rest) * q + u * r;
    MulMonotone(0, r, u);
    MulMonotone(r, rest - 1, u);
    assert low + u * r < u * rest by { assert (rest - 1) * u == rest * u - u; }
    ModUnique(low + u * high, u * rest, q, low + u * r);
  }

  lemma ModMod(x: nat, a: nat, b: nat)
    requires a >= 1 && b >= 1
    ensures (x % (a * b)) % a == x % a
  {
    MulMonotone(1, a, b);
    var q, r := x / (a * b), x % (a * b);
    assert x == (a * b) * q + r;
    var q', r' := r / a, r % a;
    assert r == a * q' + r';
    assert (a * b) * q == a * (b * q);
    ModUnique(x, a, b * q + q', r');
  }

  lemma SmallPowers()
    ensures Words.Pow2(6) == 0x40 && Words.Pow2(8) == 0x100 && Words.Pow2(12) == 0x1000 && Words.Pow2(14) == 0x4000
    ensures Words.Pow2(18) == 0x4_0000 && Words.Pow2(20) == 0x10_0000 && Words.Pow2(24) == 0x100_0000
  {
    assert Words.Pow2(6) == 64;
    assert Words.Pow2(12) == 4096;
    assert Words.Pow2(18) == 0x4_0000;
  }

  /** The five limbs of a 16-byte block; the 129th bit is set except in the padded last block. */
  function MessageLimbs(m: seq<byte>, last: bool): (nat, nat, nat, nat, nat)
    requires |m| == 16
  {
    var t0, t1, t2, t3 := Load32(m, 0), Load32(m, 4), Load32(m, 8), Load32(m, 12);
    (Words.And(t0, MASK), Straddle(t0, t1, 26, 6), Straddle(t1, t2, 20, 12), Straddle(t2, t3, 14, 18),
     Words.Or(Words.Shr(t3, 8), if last then 0 else 0x100_0000))
  }

  /** What a block contributes to the accumulator (section 2.5 of RFC 8439). */
  function BlockValue(m: seq<byte>, last: bool): nat
    requires |m| == 16
  {
    LittleEndian(m) + (if last then 0 else 0x1_0000_0000_0000_0000_0000_0000_0000_0000)
  }

  lemma LimbsOfWords(t0: nat, t1: nat, t2: nat, t3: nat, top: nat)
    requires t0 < 0x1_0000_0000 && t1 < 0x1_0000_0000 && t2 < 0x1_0000_0000 && t3 < 0x1_0000_0000
    ensures Val5(t0 % 0x400_0000, t0 / 0x400_0000 + 0x40 * (t1 % 0x10_0000), t1 / 0x10_0000 + 0x1000 * (t2 % 0x4000),
                 t2 / 0x4000 + 0x4_0000 * (t3 % 0x100), t3 / 0x100 + top)
         == t0 + 0x1_0000_0000 * t1 + 0x1_0000_0000_0000_0000 * t2 + 0x1_0000_0000_0000_0000_0000_0000 * t3 + B4 * top
  {
  }

  lemma MessageValue(m: seq<byte>, last: bool)
    requires |m| == 16
    ensures var (l0, l1, l2, l3, l4) := MessageLimbs(m, last);
            && l0 <= MASK && l1 <= MASK && l2 <= MASK && l3 <= MASK && l4 <= 0x1ff_ffff
            && Val5(l0, l1, l2, l3, l4) == BlockValue(m, last)
  {
    hide Words.And, Words.Or, Words.Shr, Words.Pow2, Load32, Straddle, LittleEndian;
    var t0, t1, t2, t3 := Load32(m, 0), Load32(m, 4), Load32(m, 8), Load32(m, 12);
    Pow26();
    SmallPowers();
    Words.AndMask(t0, 26);
    StraddleValue(t0, t1, 26, 6);
    StraddleValue(t1, t2, 20, 12);
    StraddleValue(t2, t3, 14, 18);
    Words.ShrIsDiv(t3, 8);
    Words.OrDisjoint(t3 / 0x100, if last then 0 else 1, 24);
    LimbsOfWords(t0, t1, t2, t3, if last then 0 else 0x100_0000);
    LoadsAreLittleEndian(m);
  }

  // ------------------------------------------------------------- block step

  /** Limbs of the clamped key. */
  predicate Clamped(r: Limbs)
  {
    r.a0 <= 0x3ff_ffff && r.a1 <= 0x3ff_ff03 && r.a2 <= 0x3ff_c0ff && r.a3 <= 0x3f0_3fff && r.a4 <= 0xf_ffff
  }

  /** Limbs of the accumulator between blocks. */
  predicate Settled(h: Limbs)
  {
    h.a0 <= 0x3ff_ffff && h.a1 <= 0x400_003f && h.a2 <= 0x3ff_ffff && h.a3 <= 0x3ff_ffff && h.a4 <= 0x3ff_ffff
  }

  /** Limbs of the accumulator after a block has been added. */
  predicate Loaded(h: Limbs)
  {
    h.a0 <= 0x800_0040 && h.a1 <= 0x800_0040 && h.a2 <= 0x800_0040 && h.a3 <= 0x800_0040 && h.a4 <= 0x600_0000
  }

  lemma BoundedProduct(h: int, r: int, hmax: int, rmax: int)
    requires 0 <= h <= hmax && 0 <= r <= rmax
    ensures 0 <= h * r <= hmax * rmax
  {
    MulMonotone(0, r, h);
    MulMonotone(r, rmax, h);
    MulMonotone(h, hmax, rmax);
  }

  const HM: int := 0x800_0040
  const H4: int := 0x600_0000

  /** The products of one accumulator limb with the key limbs, bounded. */
  ghost predicate RowBounded(x: int, r: Limbs, hmax: int)
  {
    && 0 <= x * r.a0 as int <= hmax * 0x3ff_ffff
    && 0 <= x * r.a1 as int <= hmax * 0x3ff_ff03 && x * (5 * r.a1 as int) == 5 * (x * r.a1 as int)
    && 0 <= x * r.a2 as int <= hmax * 0x3ff_c0ff && x * (5 * r.a2 as int) == 5 * (x * r.a2 as int)
    && 0 <= x * r.a3 as int <= hmax * 0x3f0_3fff && x * (5 * r.a3 as int) == 5 * (x * r.a3 as int)
    && 0 <= x * r.a4 as int <= hmax * 0xf_ffff && x * (5 * r.a4 as int) == 5 * (x * r.a4 as int)
  }

  lemma RowProducts(x: int, r: Limbs, hmax: int)
    requires Clamped(r) && 0 <= x <= hmax
    ensures RowBounded(x, r, hmax)
  {
    BoundedProduct(x, r.a0 as int, hmax, 0x3ff_ffff);
    BoundedProduct(x, r.a1 as int, hmax, 0x3ff_ff03);
    BoundedProduct(x, r.a2 as int, hmax, 0x3ff_c0ff);
    BoundedProduct(x, r.a3 as int, hmax, 0x3f0_3fff);
    BoundedProduct(x, r.a4 as int, hmax, 0xf_ffff);
    FiveTimes(x, r.a1 as int);
    FiveTimes(x, r.a2 as int);
    FiveTimes(x, r.a3 as int);
    FiveTimes(x, r.a4 as int);
  }

  lemma FiveTimes(x: int, y: int)
    ensures x * (5 * y) == 5 * (x * y)
  {
  }

  lemma AllRows(h: Limbs, r: Limbs)
    requires Loaded(h) && Clamped(r)
    ensures RowBounded(h.a0 as int, r, HM) && RowBounded(h.a1 as int, r, HM) && RowBounded(h.a2 as int, r, HM)
    ensures RowBounded(h.a3 as int, r, HM) && RowBounded(h.a4 as int, r, H4)
  {
    hide RowBounded;
    RowProducts(h.a0 as int, r, HM);
    RowProducts(h.a1 as int, r, HM);
    RowProducts(h.a2 as int, r, HM);
    RowProducts(h.a3 as int, r, HM);
    RowProducts(h.a4 as int, r, H4);
  }

  /** The five 64-bit column sums of a block step. */
  function Columns(h: Limbs, r: Limbs): (d: (uint64, uint64, uint64, uint64, uint64))
    requires Loaded(h) && Clamped(r)
    ensures (d.0 as int, d.1 as int, d.2 as int, d.3 as int, d.4 as int) == Coefficients(h, r)
    ensures d.0 < 0x200_0000_0000_0000 && d.1 < 0x200_0000_0000_0000 && d.2 < 0x200_0000_0000_0000
    ensures d.3 < 0x200_0000_0000_0000 && d.4 < 0x7f_0000_0000_0000
  {
    AllRows(h, r);
    var h0, h1, h2, h3, h4 := h.a0 as uint64, h.a1 as uint64, h.a2 as uint64, h.a3 as uint64, h.a4 as uint64;
    var r0, r1, r2, r3, r4 := r.a0 as uint64, r.a1 as uint64, r.a2 as uint64, r.a3 as uint64, r.a4 as uint64;
    var s1, s2, s3, s4 := 5 * r.a1, 5 * r.a2, 5 * r.a3, 5 * r.a4;
    (h0 * r0 + h1 * s4 as uint64 + h2 * s3 as uint64 + h3 * s2 as uint64 + h4 * s1 as uint64,
     h0 * r1 + h1 * r0 + h2 * s4 as uint64 + h3 * s3 as uint64 + h4 * s2 as uint64,
     h0 * r2 + h1 * r1 + h2 * r0 + h3 * s4 as uint64 + h4 * s3 as uint64,
     h0 * r3 + h1 * r2 + h2 * r1 + h3 * r0 + h4 * s4 as uint64,
     h0 * r4 + h1 * r3 + h2 * r2 + h3 * r1 + h4 * r0)
  }

  /** The carry chain of a block step; `c * 5` folds the top carry back. */
  function Settle(d0: uint64, d1: uint64, d2: uint64, d3: uint64, d4: uint64): (h: Limbs)
    requires d0 < 0x200_0000_0000_0000 && d1 < 0x200_0000_0000_0000 && d2 < 0x200_0000_0000_0000
    requires d3 < 0x200_0000_0000_0000 && d4 < 0x7f_0000_0000_0000
    ensures Settled(h)
    ensures exists k :: Value(h) == Val5(d0 as int, d1 as int, d2 as int, d3 as int, d4 as int) + Q * k
  {
    var c0 := (d0 / 0x400_0000) as uint32;
    var h0 := (d0 % 0x400_0000) as uint32;
    var e1 := d1 + c0 as uint64;
    var c1 := (e1 / 0x400_0000) as uint32;
    var h1 := (e1 % 0x400_0000) as uint32;
    var e2 := d2 + c1 as uint64;
    var c2 := (e2 / 0x400_0000) as uint32;
    var h2 := (e2 % 0x400_0000) as uint32;
    var e3 := d3 + c2 as uint64;
    var c3 := (e3 / 0x400_0000) as uint32;
    var h3 := (e3 % 0x400_0000) as uint32;
    var e4 := d4 + c3 as uint64;
    var c4 := (e4 / 0x400_0000) as uint32;
    var h4 := (e4 % 0x400_0000) as uint32;
    var f0 := h0 + c4 * 5;
    var c := f0 / 0x400_0000;
    var result := Limbs(f0 % 0x400_0000, h1 + c, h2, h3, h4);
    assert Value(result) == Val5(d0 as int, d1 as int, d2 as int, d3 as int, d4 as int) + Q * (-(c4 as int));
    result
  }

  /** One iteration of poly1305_blocks. */
  function Absorb(h: Limbs, r: Limbs, m: seq<byte>, last: bool): (h': Limbs)
    requires Settled(h) && Clamped(r) && |m| == 16
    ensures Settled(h')
  {
    var (l0, l1, l2, l3, l4) := MessageLimbs(m, last);
    MessageValue(m, last);
    var g := Limbs(h.a0 + l0 as uint32, h.a1 + l1 as uint32, h.a2 + l2 as uint32, h.a3 + l3 as uint32,
        h.a4 + l4 as uint32);
    var (d0, d1, d2, d3, d4) := Columns(g, r);
    Settle(d0, d1, d2, d3, d4)
  }

  /** The columns, settled, are the product. */
  lemma SettledProduct(g: Limbs, r: Limbs)
    requires Loaded(g) && Clamped(r)
    ensures var (d0, d1, d2, d3, d4) := Columns(g, r);
            Congruent(Value(Settle(d0, d1, d2, d3, d4)), Value(g) * Value(r), Q)
  {
    hide Congruent, Coefficients, Settle, Columns, Value, Val5;
    var (d0, d1, d2, d3, d4) := Columns(g, r);
    ProductCongruence(g, r);
    var result := Settle(d0, d1, d2, d3, d4);
    var v := Val5(d0 as int, d1 as int, d2 as int, d3 as int, d4 as int);
    var k :| Value(result) == v + Q * k;
    Witness(Value(result), v, Q, k);
    Trans(Value(result), v, Value(g) * Value(r), Q);
  }

  /** One block multiplies the accumulator plus the block by the key, modulo 2^130 - 5. */
  lemma AbsorbValue(h: Limbs, r: Limbs, m: seq<byte>, last: bool)
    requires Settled(h) && Clamped(r) && |m| == 16
    ensures Congruent(Value(Absorb(h, r, m, last)), (Value(h) + BlockValue(m, last)) * Value(r), Q)
  {
    hide Congruent, Coefficients, MessageLimbs, BlockValue, Settle, Columns;
    var (l0, l1, l2, l3, l4) := MessageLimbs(m, last);
    MessageValue(m, last);
    var g := Limbs(h.a0 + l0 as uint32, h.a1 + l1 as uint32, h.a2 + l2 as uint32, h.a3 + l3 as uint32,
        h.a4 + l4 as uint32);
    SettledProduct(g, r);
    assert Value(g) == Value(h) + BlockValue(m, last);
  }

  // --------------------------------------------------------------- the key

  /** The limbs poly1305_init extracts from the first half of the key. */
  function KeyLimbs(key: seq<byte>): (r: Limbs)
    requires |key| == 32
    ensures Clamped(r)
  {
    var x0, x1, x2 := Load32(key, 0), Words.Shr(Load32(key, 3), 2), Words.Shr(Load32(key, 6), 4);
    var x3, x4 := Words.Shr(Load32(key, 9), 6), Words.Shr(Load32(key, 12), 8);
    Words.AndBound(x0, 0x3ff_ffff);
    Words.AndBound(x1, 0x3ff_ff03);
    Words.AndBound(x2, 0x3ff_c0ff);
    Words.AndBound(x3, 0x3f0_3fff);
    Words.AndBound(x4, 0xf_ffff);
    Limbs(Words.And(x0, 0x3ff_ffff) as uint32, Words.And(x1, 0x3ff_ff03) as uint32, Words.And(x2, 0x3ff_c0ff) as uint32,
          Words.And(x3, 0x3f0_3fff) as uint32, Words.And(x4, 0xf_ffff) as uint32)
  }

  /** The clamping mask of section 2.5 of RFC 8439. */
  const CLAMP: nat := 0x0fff_fffc_0fff_fffc_0fff_fffc_0fff_ffff

  /** A mask of 26 bits sees only the low 26 bits. */
  lemma AndLow(x: nat, m: nat)
    requires m < 0x400_0000
    ensures Words.And(x, m) == Words.And(x % 0x400_0000, m)
  {
    hide Words.And, Words.Pow2;
    Pow26();
    Words.AndConcat(x % 0x400_0000, x / 0x400_0000, m, 0, 26);
    Words.AndBound(x / 0x400_0000, 0);
  }

  /** `&` limb by limb. */
  lemma AndFive(k0: nat, k1: nat, k2: nat, k3: nat, k4: nat, m0: nat, m1: nat, m2: nat, m3: nat, m4: nat)
    requires k0 < B1 && k1 < B1 && k2 < B1 && k3 < B1 && m0 < B1 && m1 < B1 && m2 < B1 && m3 < B1
    ensures Words.And(Val5(k0, k1, k2, k3, k4), Val5(m0, m1, m2, m3, m4))
         == Val5(Words.And(k0, m0), Words.And(k1, m1), Words.And(k2, m2), Words.And(k3, m3), Words.And(k4, m4))
  {
    hide Words.And, Words.Pow2;
    Pow26();
    var k3', m3' := k3 + B1 * k4, m3 + B1 * m4;
    var k2', m2' := k2 + B1 * k3', m2 + B1 * m3';
    var k1', m1' := k1 + B1 * k2', m1 + B1 * m2';
    Words.AndConcat(k0, k1', m0, m1', 26);
    Words.AndConcat(k1, k2', m1, m2', 26);
    Words.AndConcat(k2, k3', m2, m3', 26);
    Words.AndConcat(k3, k4, m3, m4, 26);
  }

  // Shifted 32-bit loads, taken apart: low bits of the first byte go, high bits of the last are cut.

  function Le4(b0: int, b1: int, b2: int, b3: int): int
  {
    b0 + 0x100 * b1 + 0x1_0000 * b2 + 0x100_0000 * b3
  }

  predicate IsByte(b: int)
  {
    0 <= b < 256
  }

  function Cut0(b0: int, b1: int, b2: int, b3: int): int
  {
    b0 / 1 + 0x100 * b1 + 0x10000 * b2 + 0x1000000 * (b3 % 4)
  }

  lemma Cut0Value(b0: int, b1: int, b2: int, b3: int)
    requires IsByte(b0) && IsByte(b1) && IsByte(b2) && IsByte(b3)
    ensures Le4(b0, b1, b2, b3) / 1 % B1 == Cut0(b0, b1, b2, b3)
  {
    var q := b0 / 1 + 0x100 * b1 + 0x10000 * b2 + 0x1000000 * b3;
    ModUnique(Le4(b0, b1, b2, b3), 1, q, b0 % 1);
    ModUnique(q, B1, b3 / 4, Cut0(b0, b1, b2, b3));
  }

  function Cut1(b0: int, b1: int, b2: int, b3: int): int
  {
    b0 / 4 + 0x40 * b1 + 0x4000 * b2 + 0x400000 * (b3 % 16)
  }

  lemma Cut1Value(b0: int, b1: int, b2: int, b3: int)
    requires IsByte(b0) && IsByte(b1) && IsByte(b2) && IsByte(b3)
    ensures Le4(b0, b1, b2, b3) / 4 % B1 == Cut1(b0, b1, b2, b3)
  {
    var q := b0 / 4 + 0x40 * b1 + 0x4000 * b2 + 0x400000 * b3;
    ModUnique(Le4(b0, b1, b2, b3), 4, q, b0 % 4);
    ModUnique(q, B1, b3 / 16, Cut1(b0, b1, b2, b3));
  }

  function Cut2(b0: int, b1: int, b2: int, b3: int): int
  {
    b0 / 16 + 0x10 * b1 + 0x1000 * b2 + 0x100000 * (b3 % 64)
  }

  lemma Cut2Value(b0: int, b1: int, b2: int, b3: int)
    requires IsByte(b0) && IsByte(b1) && IsByte(b2) && IsByte(b3)
    ensures Le4(b0, b1, b2, b3) / 16 % B1 == Cut2(b0, b1, b2, b3)
  {
    var q := b0 / 16 + 0x10 * b1 + 0x1000 * b2 + 0x100000 * b3;
    ModUnique(Le4(b0, b1, b2, b3), 16, q, b0 % 16);
    ModUnique(q, B1, b3 / 64, Cut2(b0, b1, b2, b3));
  }

  function Cut3(b0: int, b1: int, b2: int, b3: int): int
  {
    b0 / 64 + 0x4 * b1 + 0x400 * b2 + 0x40000 * (b3 % 256)
  }

  lemma Cut3Value(b0: int, b1: int, b2: int, b3: int)
    requires IsByte(b0) && IsByte(b1) && IsByte(b2) && IsByte(b3)
    ensures Le4(b0, b1, b2, b3) / 64 % B1 == Cut3(b0, b1, b2, b3)
  {
    var q := b0 / 64 + 0x4 * b1 + 0x400 * b2 + 0x40000 * b3;
    ModUnique(Le4(b0, b1, b2, b3), 64, q, b0 % 64);
    ModUnique(q, B1, b3 / 256, Cut3(b0, b1, b2, b3));
  }

  function Cut4(b1: int, b2: int, b3: int): int
  {
    b1 + 0x100 * b2 + 0x1_0000 * b3
  }

  lemma Cut4Value(b0: int, b1: int, b2: int, b3: int)
    requires IsByte(b0)
    ensures Le4(b0, b1, b2, b3) / 256 == Cut4(b1, b2, b3)
  {
    ModUnique(Le4(b0, b1, b2, b3), 256, Cut4(b1, b2, b3), b0);
  }

  /** The five pieces make up the sixteen bytes. */
  lemma CutsAddUp(b0: int, b1: int, b2: int, b3: int, b4: int, b5: int, b6: int, b7: int, b8: int, b9: int, b10: int,
                  b11: int, b12: int, b13: int, b14: int, b15: int)
    requires IsByte(b12)
    ensures Val5(Cut0(b0, b1, b2, b3), Cut1(b3, b4, b5, b6), Cut2(b6, b7, b8, b9), Cut3(b9, b10, b11, b12),
              Cut4(b13, b14, b15))
         == Le4(b0, b1, b2, b3) + 0x1_0000_0000 * Le4(b4, b5, b6, b7) + 0x1_0000_0000_0000_0000 * Le4(b8, b9, b10, b11)
          + 0x1_0000_0000_0000_0000_0000_0000 * Le4(b12, b13, b14, b15)
  {
  }

  /** The 26-bit limbs of the first key half, read at the overlapping offsets 0, 3, 6, 9 and 12. */
  lemma KeyWords(key: seq<byte>)
    requires |key| == 32
    ensures Val5(Load32(key, 0) / 1 % B1, Load32(key, 3) / 4 % B1, Load32(key, 6) / 16 % B1, Load32(key, 9) / 64 % B1,
              Load32(key, 12) / 256)
         == LittleEndian(key[..16])
  {
    hide LittleEndian, Val5, Load32, Le4, Cut0, Cut1, Cut2, Cut3, Cut4;
    LoadsAreLe4(key);
    LoadsAreLittleEndian(key[..16]);
    Cut0Value(key[0], key[1], key[2], key[3]);
    Cut1Value(key[3], key[4], key[5], key[6]);
    Cut2Value(key[6], key[7], key[8], key[9]);
    Cut3Value(key[9], key[10], key[11], key[12]);
    Cut4Value(key[12], key[13], key[14], key[15]);
    CutsAddUp(key[0], key[1], key[2], key[3], key[4], key[5], key[6], key[7], key[8], key[9], key[10], key[11],
              key[12], key[13], key[14], key[15]);
  }

  lemma LoadsAreLe4(key: seq<byte>)
    requires |key| == 32
    ensures Load32(key, 0) == Le4(key[0], key[1], key[2], key[3]) == Load32(key[..16], 0)
    ensures Load32(key, 3) == Le4(key[3], key[4], key[5], key[6])
    ensures Load32(key, 6) == Le4(key[6], key[7], key[8], key[9])
    ensures Load32(key, 9) == Le4(key[9], key[10], key[11], key[12])
    ensures Load32(key, 12) == Le4(key[12], key[13], key[14], key[15]) == Load32(key[..16], 12)
    ensures Load32(key[..16], 4) == Le4(key[4], key[5], key[6], key[7])
    ensures Load32(key[..16], 8) == Le4(key[8], key[9], key[10], key[11])
  {
  }

  /** poly1305_init clamps as the RFC prescribes. */
  lemma KeyIsClamped(key: seq<byte>)
    requires |key| == 32
    ensures Value(KeyLimbs(key)) == Words.And(LittleEndian(key[..16]), CLAMP)
  {
    hide Words.And, Words.Shr, Words.Pow2, LittleEndian, Load32;
    var x0, x1, x2 := Load32(key, 0), Load32(key, 3) / 4, Load32(key, 6) / 16;
    var x3, x4 := Load32(key, 9) / 64, Load32(key, 12) / 256;
    ShiftConstants();
    Words.ShrIsDiv(Load32(key, 3), 2);
    Words.ShrIsDiv(Load32(key, 6), 4);
    Words.ShrIsDiv(Load32(key, 9), 6);
    Words.ShrIsDiv(Load32(key, 12), 8);
    AndLow(x0, 0x3ff_ffff);
    AndLow(x1, 0x3ff_ff03);
    AndLow(x2, 0x3ff_c0ff);
    AndLow(x3, 0x3f0_3fff);
    KeyWords(key);
    AndFive(x0 % B1, x1 % B1, x2 % B1, x3 % B1, x4, 0x3ff_ffff, 0x3ff_ff03, 0x3ff_c0ff, 0x3f0_3fff, 0xf_ffff);
  }

  lemma ShiftConstants()
    ensures Words.Pow2(2) == 4 && Words.Pow2(4) == 16 && Words.Pow2(6) == 64 && Words.Pow2(8) == 256
  {
  }

  // ------------------------------------------------------------ absorption

  const ZERO := Limbs(0, 0, 0, 0, 0)

  /** The accumulator after whole blocks. */
  function AbsorbAll(r: Limbs, msg: seq<byte>): (h: Limbs)
    requires Clamped(r)
    ensures Settled(h)
  {
    if |msg| < 16 then ZERO
    else Absorb(AbsorbAll(r, msg[..|msg| - 16]), r, msg[|msg| - 16..], false)
  }

  /** Horner evaluation of the tagged blocks at r (section 2.5 of RFC 8439), before reduction. */
  function Horner(r: int, msg: seq<byte>): int
  {
    if |msg| < 16 then 0
    else (Horner(r, msg[..|msg| - 16]) + BlockValue(msg[|msg| - 16..], false)) * r
  }

  /** The limbs are congruent to the Horner value for every message. */
  lemma {:induction false} AbsorbIsHorner(r: Limbs, msg: seq<byte>)
    requires Clamped(r)
    ensures Congruent(Value(AbsorbAll(r, msg)), Horner(Value(r), msg), Q)
  {
    hide Congruent, Absorb, BlockValue;
    if |msg| < 16 {
      Witness(0, 0, Q, 0);
    } else {
      var init, last := msg[..|msg| - 16], msg[|msg| - 16..];
      AbsorbIsHorner(r, init);
      HornerStep(AbsorbAll(r, init), r, last, false, Horner(Value(r), init));
    }
  }

  lemma HornerStep(h: Limbs, r: Limbs, m: seq<byte>, last: bool, acc: int)
    requires Settled(h) && Clamped(r) && |m| == 16 && Congruent(Value(h), acc, Q)
    ensures Congruent(Value(Absorb(h, r, m, last)), (acc + BlockValue(m, last)) * Value(r), Q)
  {
    hide Congruent, Absorb, BlockValue, Value;
    var b := BlockValue(m, last);
    AbsorbValue(h, r, m, last);
    Witness(b, b, Q, 0);
    Modular.Add(Value(h), acc, b, b, Q);
    Witness(Value(r), Value(r), Q, 0);
    Modular.Mul(Value(h) + b, acc + b, Value(r), Value(r), Q);
    Trans(Value(Absorb(h, r, m, last)), (Value(h) + b) * Value(r), (acc + b) * Value(r), Q);
  }

  lemma AbsorbSnoc(r: Limbs, msg: seq<byte>, block: seq<byte>)
    requires Clamped(r) && |block| == 16
    ensures AbsorbAll(r, msg + block) == Absorb(AbsorbAll(r, msg), r, block, false)
  {
    hide Absorb;
    var all := msg + block;
    assert all[..|all| - 16] == msg && all[|all| - 16..] == block;
  }

  class Context {
    var r: Limbs
    var h: Limbs
    var pad: nat
    var buffer: array<byte>
    var leftover: nat
    ghost var done: seq<byte>

    ghost predicate Valid()
      reads this, buffer
    {
      && Clamped(r) && buffer.Length == 16 && leftover < 16 && |done| % 16 == 0
      && h == AbsorbAll(r, done)
    }

    /** All bytes given so far: whole blocks in the accumulator, the rest in the buffer. */
    ghost function Absorbed(): seq<byte>
      requires Valid()
      reads this, buffer
    {
      done + buffer[..leftover]
    }

    /** poly1305_init */
    constructor (key: seq<byte>)
      requires |key| == 32
      ensures Valid() && fresh(buffer) && Absorbed() == [] && r == KeyLimbs(key) && pad == LittleEndian(key[16..])
    {
      r, pad := KeyLimbs(key), LittleEndian(key[16..]);
      h := ZERO;
      buffer := new byte[16](_ => 0);
      leftover := 0;
      done := [];
    }

    /** poly1305_blocks without the final flag. */
    method Blocks(m: seq<byte>)
      requires Clamped(r) && |m| % 16 == 0 && h == AbsorbAll(r, done)
      modifies this`h, this`done
      ensures done == old(done) + m && h == AbsorbAll(r, done)
    {
      hide Absorb, Clamped, Settled, AbsorbAll;
      var i := 0;
      while |m| - i >= 16
        invariant i % 16 == 0 && 0 <= i <= |m|
        invariant done == old(done) + m[..i] && h == AbsorbAll(r, done)
      {
        var block := m[i..i + 16];
        AbsorbSnoc(r, done, block);
        h := Absorb(h, r, block, false);
        done := done + block;
        i := i + 16;
      }
      assert m[..i] == m;
    }

    /** The copy loops of poly1305_update. */
    method Fill(off: nat, bytes: seq<byte>)
      requires off + |bytes| <= buffer.Length
      modifies buffer
      ensures buffer[..off] == old(buffer[..off]) && buffer[off..off + |bytes|] == bytes
    {
      for i := 0 to |bytes|
        invariant buffer[..off] == old(buffer[..off])
        invariant buffer[off..off + i] == bytes[..i]
      {
        buffer[off + i] := bytes[i];
      }
    }

    /** The first part of poly1305_update: completing a partial block. */
    method TopUp(m: seq<byte>) returns (taken: nat)
      requires Valid()
      modifies this`h, this`leftover, this`done, buffer
      ensures Valid() && taken <= |m| && Absorbed() == old(Absorbed()) + m[..taken]
      ensures taken < |m| ==> leftover == 0
    {
      hide AbsorbAll, Clamped, Settled;
      taken := if 16 - leftover > |m| then |m| else 16 - leftover;
      Fill(leftover, m[..taken]);
      leftover := leftover + taken;
      assert buffer[..leftover] == old(buffer[..leftover]) + m[..taken];
      if leftover == 16 {
        Blocks(buffer[..]);
        leftover := 0;
      }
    }

    /** poly1305_update: absorbs exactly the given bytes, wherever the message is cut. */
    method Update(m: seq<byte>)
      requires Valid()
      modifies this`h, this`leftover, this`done, buffer
      ensures Valid() && Absorbed() == old(Absorbed()) + m
    {
      hide AbsorbAll, Clamped, Settled, Absorbed;
      ghost var start := Absorbed();
      var rest := m;
      if leftover > 0 {
        var taken := TopUp(rest);
        rest := rest[taken..];
        assert start + m == start + m[..taken] + rest;
      }
      assert Absorbed() + rest == start + m;
      if |rest| >= 16 {
        var take := |rest| - |rest| % 16;
        ghost var middle := Absorbed();
        assert middle + rest == middle + rest[..take] + rest[take..];
        Whole(rest[..take]);
        rest := rest[take..];
      }
      Keep(rest);
    }

    /** Whole blocks straight from the input. */
    method Whole(m: seq<byte>)
      requires Valid() && leftover == 0 && |m| % 16 == 0
      modifies this`h, this`done
      ensures Valid() && leftover == 0 && Absorbed() == old(Absorbed()) + m
    {
      hide AbsorbAll, Clamped, Settled;
      Blocks(m);
    }

    /** The last copy loop of poly1305_update. */
    method Keep(rest: seq<byte>)
      requires Valid() && leftover + |rest| < 16
      modifies this`leftover, buffer
      ensures Valid() && Absorbed() == old(Absorbed()) + rest
    {
      hide AbsorbAll, Clamped, Settled;
      ghost var kept := buffer[..leftover];
      Fill(leftover, rest);
      leftover := leftover + |rest|;
      assert buffer[..leftover] == kept + rest;
    }

    /** poly1305_finish: the sixteen bytes of the tag. */
    method Finish() returns (mac: seq<byte>)
      requires Valid()
      modifies this`h, buffer
      ensures |mac| == 16 && LittleEndian(mac) == FinalTag(r, old(Absorbed()), pad)
    {
      hide AbsorbAll, Absorb, Clamped, Settled, Tag, SubtractModulus, CarryAround;
      ghost var msg := Absorbed();
      assert WholeBlocks(msg) == done && msg[|done|..] == buffer[..leftover];
      if leftover > 0 {
        ghost var tail := buffer[..leftover];
        buffer[leftover] := 1;
        for i := leftover + 1 to 16
          modifies buffer
          invariant buffer[..leftover] == tail && buffer[leftover] == 1
          invariant forall j | leftover < j < i :: buffer[j] == 0
        {
          buffer[i] := 0;
        }
        assert buffer[..] == Padded(tail);
        h := Absorb(h, r, buffer[..], true);
      }
      assert h == Accumulator(r, msg);
      CarryAroundNarrow(h);
      var tag := Tag(SubtractModulus(CarryAround(h)), pad);
      TagBytes(tag);
      mac := Encode(tag, 16);
    }

    /** Absorption depends on the concatenation of the chunks only. */
    method UpdateAll(chunks: seq<seq<byte>>)
      requires Valid()
      modifies this`h, this`leftover, this`done, buffer
      ensures Valid() && Absorbed() == old(Absorbed()) + Concat(chunks)
    {
      hide Valid, AbsorbAll;
      assert chunks[..0] == [];
      for i := 0 to |chunks|
        invariant Valid() && Absorbed() == old(Absorbed()) + Concat(chunks[..i])
      {
        Update(chunks[i]);
        ConcatSnoc(chunks, i);
      }
      assert chunks[..|chunks|] == chunks;
    }
  }

  /** The whole blocks of a message. */
  function WholeBlocks(msg: seq<byte>): seq<byte>
  {
    msg[..|msg| - |msg| % 16]
  }

  /** The accumulator and the buffered bytes are functions of the message alone. */
  lemma StateOfMessage(c: Context)
    requires c.Valid()
    ensures c.done == WholeBlocks(c.Absorbed())
    ensures c.leftover == |c.Absorbed()| % 16 && c.buffer[..c.leftover] == c.Absorbed()[|c.Absorbed()| - c.leftover..]
    ensures c.h == AbsorbAll(c.r, WholeBlocks(c.Absorbed()))
    ensures Congruent(Value(c.h), Horner(Value(c.r), WholeBlocks(c.Absorbed())), Q)
  {
    hide AbsorbAll, Congruent, Horner, Clamped, Settled;
    AbsorbIsHorner(c.r, c.done);
  }

  // -------------------------------------------------------------- finishing

  /** The accumulator of section 2.5 of RFC 8439 for a whole message, before reduction. */
  function RfcAccumulator(r: int, msg: seq<byte>): int
  {
    var whole := WholeBlocks(msg);
    var tail := msg[|whole|..];
    if tail == [] then Horner(r, whole)
    else (Horner(r, whole) + LittleEndian(tail + [1])) * r
  }

  /** The last partial block, padded with a one byte and zeros. */
  function Padded(tail: seq<byte>): (block: seq<byte>)
    requires |tail| < 16
    ensures |block| == 16
  {
    tail + [1] + seq(15 - |tail|, _ => 0)
  }

  lemma {:induction false} TrailingZeros(s: seq<byte>, n: nat)
    ensures LittleEndian(s + seq(n, _ => 0)) == LittleEndian(s)
  {
    if s == [] {
      if n > 0 {
        var z: seq<byte> := seq(n, _ => 0);
        assert (s + z) == z && z[1..] == [] + seq(n - 1, _ => 0);
        TrailingZeros([], n - 1);
      } else {
        assert s + seq(n, _ => 0) == [];
      }
    } else {
      TrailingZeros(s[1..], n);
      assert (s + seq(n, _ => 0))[1..] == s[1..] + seq(n, _ => 0);
    }
  }

  /** The accumulator after the padded last block. */
  function Accumulator(r: Limbs, msg: seq<byte>): (h: Limbs)
    requires Clamped(r)
    ensures Settled(h)
  {
    var whole := WholeBlocks(msg);
    var tail := msg[|whole|..];
    if tail == [] then AbsorbAll(r, whole) else Absorb(AbsorbAll(r, whole), r, Padded(tail), true)
  }

  lemma AccumulatorIsRfc(r: Limbs, msg: seq<byte>)
    requires Clamped(r)
    ensures Congruent(Value(Accumulator(r, msg)), RfcAccumulator(Value(r), msg), Q)
  {
    hide Congruent, Absorb, AbsorbAll, Horner, Value, LittleEndian, Clamped, Settled;
    var whole := WholeBlocks(msg);
    var tail := msg[|whole|..];
    AbsorbIsHorner(r, whole);
    if tail != [] {
      HornerStep(AbsorbAll(r, whole), r, Padded(tail), true, Horner(Value(r), whole));
      TrailingZeros(tail + [1], 15 - |tail|);
    }
  }

  /** Every limb is below 2^26. */
  predicate Narrow(h: Limbs)
  {
    h.a0 <= 0x3ff_ffff && h.a1 <= 0x3ff_ffff && h.a2 <= 0x3ff_ffff && h.a3 <= 0x3ff_ffff && h.a4 <= 0x3ff_ffff
  }

  /** The first carry chain of poly1305_finish. */
  function CarryAround(h: Limbs): (n: Limbs)
    requires Settled(h)
    ensures Narrow(n)
    ensures Value(n) == Value(h) || Value(n) == Value(h) - Q
  {
    var (u, c4) := CarryUp(h);
    var e0 := u.a0 + c4 * 5;
    u.(a0 := e0 % 0x400_0000, a1 := u.a1 + e0 / 0x400_0000)
  }

  lemma CarryAroundNarrow(h: Limbs)
    requires Settled(h)
    ensures Narrow(CarryAround(h))
  {
  }

  /** Carrying from limb 1 up to limb 4; the carry out is 1 only if limb 1 was almost empty afterwards. */
  function CarryUp(h: Limbs): (r: (Limbs, uint32))
    requires Settled(h)
    ensures Narrow(r.0) && r.1 <= 1 && (r.1 == 1 ==> r.0.a1 < 64) && r.0.a0 == h.a0
    ensures Value(r.0) + (Q + 5) * r.1 as int == Value(h)
  {
    var h1, c1 := h.a1 % 0x400_0000, h.a1 / 0x400_0000;
    var e2 := h.a2 + c1;
    var h2, c2 := e2 % 0x400_0000, e2 / 0x400_0000;
    var e3 := h.a3 + c2;
    var h3, c3 := e3 % 0x400_0000, e3 / 0x400_0000;
    var e4 := h.a4 + c3;
    (Limbs(h.a0, h1, h2, h3, e4 % 0x400_0000), e4 / 0x400_0000)
  }

  /** The low limbs of h + 5 and its top limb with the carry. */
  function PlusFive(h: Limbs): (g: Limbs)
    requires Narrow(h)
    ensures g.a0 <= 0x3ff_ffff && g.a1 <= 0x3ff_ffff && g.a2 <= 0x3ff_ffff && g.a3 <= 0x3ff_ffff && g.a4 <= 0x400_0000
    ensures Value(g) == Value(h) + 5
  {
    var f0 := h.a0 + 5;
    var f1 := h.a1 + f0 / 0x400_0000;
    var f2 := h.a2 + f1 / 0x400_0000;
    var f3 := h.a3 + f2 / 0x400_0000;
    Limbs(f0 % 0x400_0000, f1 % 0x400_0000, f2 % 0x400_0000, f3 % 0x400_0000, h.a4 + f3 / 0x400_0000)
  }

  /** The conditional subtraction: h + 5 - 2^130 replaces h unless its top limb turns negative. */
  function SubtractModulus(h: Limbs): (n: Limbs)
    requires Narrow(h)
  {
    var g := PlusFive(h);
    var g4 := (g.a4 as int - 0x400_0000) % 0x1_0000_0000;
    if g4 / 0x8000_0000 == 1 then h else g.(a4 := g4 as uint32)
  }

  lemma SubtractModulusValue(h: Limbs)
    requires Narrow(h)
    ensures var n := SubtractModulus(h);
            Narrow(n) && Value(n) == if Value(h) >= Q then Value(h) - Q else Value(h)
  {
    hide PlusFive;
    var g := PlusFive(h);
    TopLimbSign(g.a4 as int);
  }

  lemma TopLimbSign(a4: int)
    requires 0 <= a4 <= 0x400_0000
    ensures var g4 := (a4 - 0x400_0000) % 0x1_0000_0000;
            if a4 == 0x400_0000 then g4 == 0 else g4 == a4 - 0x400_0000 + 0x1_0000_0000
  {
  }

  lemma NarrowValue(h: Limbs)
    requires Narrow(h)
    ensures 0 <= Value(h) < Q + 5
  {
  }

  /** The fully reduced accumulator is the representative in [0, 2^130 - 5). */
  lemma FreezeIsReduction(h: Limbs)
    requires Settled(h)
    ensures Value(SubtractModulus(CarryAround(h))) == Value(h) % Q
  {
    hide Value, CarryAround, SubtractModulus, Narrow, Settled;
    var n := CarryAround(h);
    var m := SubtractModulus(n);
    NarrowValue(n);
    SubtractModulusValue(n);
    NarrowValue(m);
    var k := (if Value(n) == Value(h) then 0 else 1) + (if Value(n) >= Q then 1 else 0);
    ModUnique(Value(h), Q, k, Value(m));
  }

  // -------------------------------------------------------------- the tag

  /** The two 64-bit words poly1305_finish serialises, as one number; `s` is the second key half. */
  function Tag(h: Limbs, s: nat): (tag: nat)
    ensures tag < W64 * W64
  {
    var f0 := (h.a0 as int + 0x400_0000 * h.a1 as int + s % W64) % W64;
    var f1 := (h.a2 as int / 0x1000 + 0x4000 * h.a3 as int + 0x100_0000_0000 * (h.a4 as int % 0x100_0000)
        + s / W64) % W64;
    f0 + W64 * f1
  }

  /** The sixteen bytes of a tag. */
  lemma TagBytes(tag: nat)
    requires tag < W64 * W64
    ensures LittleEndian(Encode(tag, 16)) == tag
  {
    hide LittleEndian, Encode;
    assert Radix(4) == 0x1_0000_0000;
    assert Radix(8) == W64;
    assert Radix(12) == 0x1_0000_0000 * W64;
    assert Radix(16) == W64 * W64;
    EncodeDecode(tag, 16);
  }

  /** The tag of section 2.5 of RFC 8439. */
  function RfcTag(acc: nat, s: nat): nat
  {
    (acc + s) % 0x1_0000_0000_0000_0000_0000_0000_0000_0000
  }

  /**
   The serialisation drops bits 52..63 of the accumulator and the carry between the two words, so
   the tag is the RFC's exactly when those bits are zero and the low words add without a carry.
   */
  lemma TagMatchesRfcIff(h: Limbs, s: nat)
    requires Narrow(h) && s < 0x1_0000_0000_0000_0000_0000_0000_0000_0000
    ensures Tag(h, s) == RfcTag(Value(h), s)
            <==> h.a2 % 0x1000 == 0 && Value(h) % W64 + s % W64 < W64
  {
    var low := h.a0 as int + 0x400_0000 * h.a1 as int;
    var mid, rest := h.a2 as int % 0x1000, h.a2 as int / 0x1000;
    var high := rest + 0x4000 * h.a3 as int + 0x100_0000_0000 * (h.a4 as int % 0x100_0000);
    var over := h.a4 as int / 0x100_0000;
    assert Value(h) == low + B2 * mid + W64 * high + W64 * W64 * over;
    TagWords(low, mid, high, over, s % W64, s / W64);
    ModUnique(Value(h), W64, high + W64 * over, low + B2 * mid);
  }

  /** Comparing the two 128-bit sums word by word. */
  lemma TagWords(low: nat, mid: nat, high: nat, over: nat, s0: nat, s1: nat)
    requires low < B2 && mid < 0x1000 && high < W64 && s0 < W64 && s1 < W64
    ensures ((low + s0) % W64 + W64 * ((high + s1) % W64)
             == (low + B2 * mid + W64 * high + W64 * W64 * over + (s0 + W64 * s1)) % (W64 * W64))
            <==> (mid == 0 && low + B2 * mid + s0 < W64)
  {
    var x := low + B2 * mid + s0;
    var c, r0 := x / W64, x % W64;
    var y := high + s1 + c;
    var d, r1 := y / W64, y % W64;
    ModUnique(low + B2 * mid + W64 * high + W64 * W64 * over + (s0 + W64 * s1), W64 * W64, over + d, r0 + W64 * r1);
    if mid == 0 {
      if c == 0 {} else { assert c == 1; }
    } else {
      assert r0 != (low + s0) % W64;
    }
  }

  /** What poly1305_finish computes for a message. */
  function FinalTag(r: Limbs, msg: seq<byte>, s: nat): nat
    requires Clamped(r)
  {
    Tag(SubtractModulus(CarryAround(Accumulator(r, msg))), s)
  }

  /** The accumulator of RFC 8439, reduced. */
  function RfcReduced(r: Limbs, msg: seq<byte>): nat
  {
    RfcAccumulator(Value(r), msg) % Q
  }

  /** Exactly when the computed tag is the RFC's, in terms of the RFC's own accumulator. */
  lemma FinalTagIsRfcIff(r: Limbs, msg: seq<byte>, s: nat)
    requires Clamped(r) && s < 0x1_0000_0000_0000_0000_0000_0000_0000_0000
    ensures var acc := RfcReduced(r, msg);
            (FinalTag(r, msg, s) == RfcTag(acc, s)) <==> (acc / B2 % 0x1000 == 0 && acc % W64 + s % W64 < W64)
  {
    hide Value, Accumulator, RfcAccumulator, SubtractModulus, CarryAround, Tag, RfcTag, Clamped, Settled, Narrow;
    hide Congruent;
    var h := Accumulator(r, msg);
    var n := CarryAround(h);
    var m := SubtractModulus(n);
    AccumulatorIsRfc(r, msg);
    SameRemainder(Value(h), RfcAccumulator(Value(r), msg));
    FreezeIsReduction(h);
    SubtractModulusValue(n);
    TagMatchesRfcIff(m, s);
    MiddleBits(m);
  }

  lemma SameRemainder(x: int, y: int)
    requires Congruent(x, y, Q)
    ensures x % Q == y % Q
  {
    var k := Quotient(x, y, Q);
    ModUnique(x, Q, y / Q + k, y % Q);
  }

  lemma MiddleBits(h: Limbs)
    requires Narrow(h)
    ensures Value(h) / B2 % 0x1000 == h.a2 as int % 0x1000
  {
    var low := h.a0 as int + B1 * h.a1 as int;
    var high := h.a2 as int + B1 * h.a3 as int + B2 * h.a4 as int;
    ModUnique(Value(h), B2, high, low);
    ModUnique(high, 0x1000, h.a2 as int / 0x1000 + 0x4000 * h.a3 as int + 0x100_0000_0000 * h.a4 as int,
        h.a2 as int % 0x1000);
  }

  /** The key with only the first byte set, to one. */
  const KEY_ONE: seq<byte> := [1] + seq(31, _ => 0)

  lemma KeyOneLoads()
    ensures |KEY_ONE| == 32 && Load32(KEY_ONE, 0) == 1
    ensures Load32(KEY_ONE, 3) == 0 && Load32(KEY_ONE, 6) == 0 && Load32(KEY_ONE, 9) == 0 && Load32(KEY_ONE, 12) == 0
    ensures var s := KEY_ONE[16..]; Load32(s, 0) == 0 && Load32(s, 4) == 0 && Load32(s, 8) == 0 && Load32(s, 12) == 0
  {
  }

  lemma AndOne(m: nat)
    requires m % 2 == 1
    ensures Words.And(1, m) == 1 && Words.And(0, m) == 0
  {
  }

  lemma KeyOne()
    ensures |KEY_ONE| == 32 && KeyLimbs(KEY_ONE) == Limbs(1, 0, 0, 0, 0) && LittleEndian(KEY_ONE[16..]) == 0
  {
    hide LittleEndian, Load32, Words.Shr, Words.Pow2, Words.And;
    KeyOneLoads();
    LoadsAreLittleEndian(KEY_ONE[16..]);
    AndOne(0x3ff_ffff);
    AndOne(0x3ff_ff03);
    AndOne(0x3ff_c0ff);
    AndOne(0x3f0_3fff);
    AndOne(0xf_ffff);
    ShiftConstants();
    Words.ShrIsDiv(0, 2);
    Words.ShrIsDiv(0, 4);
    Words.ShrIsDiv(0, 6);
    Words.ShrIsDiv(0, 8);
  }

  /** A message whose tag is not the RFC's: one block with only bit 52 set, under that key. */
  lemma TagCounterexample()
    ensures |KEY_ONE| == 32
    ensures var msg: seq<byte> := [0, 0, 0, 0, 0, 0, 16, 0, 0, 0, 0, 0, 0, 0, 0, 0];
            FinalTag(KeyLimbs(KEY_ONE), msg, LittleEndian(KEY_ONE[16..])) != RfcTag(RfcReduced(KeyLimbs(KEY_ONE), msg),
                LittleEndian(KEY_ONE[16..]))
  {
    hide FinalTag, RfcTag, LittleEndian, KeyLimbs;
    KeyOne();
    var r := Limbs(1, 0, 0, 0, 0);
    var msg: seq<byte> := [0, 0, 0, 0, 0, 0, 16, 0, 0, 0, 0, 0, 0, 0, 0, 0];
    LoadsAreLittleEndian(msg);
    assert msg[..16] == msg && msg[16..] == [] && msg[0..] == msg;
    assert Horner(1, msg[..0]) == 0;
    assert RfcAccumulator(1, msg) == 0x1_0000_0000_0000_0000_0010_0000_0000_0000;
    FinalTagIsRfcIff(r, msg, 0);
  }
}
