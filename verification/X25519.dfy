/**
 Scalar multiplication on Curve25519 (lib/crypto.c, X25519 part), proved equal to the
 function of section 5 of RFC 7748 computed on integers modulo p.
 */
module X25519 {
  import opened Bytes
  import opened Field25519
  import opened Modular
  import Words

  // --------------------------------------------------- addition, subtraction

  lemma {:induction false} ValAdd(a: seq<int64>, b: seq<int64>, c: seq<int64>, sign: int)
    requires |a| == |b| == |c| && forall i | 0 <= i < |a| :: c[i] as int == a[i] as int + sign * b[i] as int
    ensures Val(c) == Val(a) + sign * Val(b)
  {
    if a != [] {
      ValAdd(a[1..], b[1..], c[1..], sign);
      ScaleSign(sign, Val(b[1..]));
      Distribute(b[0] as int, 65536 * Val(b[1..]), sign);
    }
  }

  lemma ScaleSign(sign: int, v: int)
    ensures sign * (65536 * v) == 65536 * (sign * v)
  {
  }

  /** A */
  method Add(a: seq<int64>, b: seq<int64>) returns (o: seq<int64>)
    requires |a| == |b| == 16 && Within(a, 0x2_0000) && Within(b, 0x2_0000)
    ensures |o| == 16 && Within(o, 0x4_0000) && Val(o) == Val(a) + Val(b)
  {
    hide Val;
    o := [];
    for i := 0 to 16
      invariant |o| == i && forall j | 0 <= j < i :: o[j] as int == a[j] as int + 1 * b[j] as int
    {
      o := o + [a[i] + b[i]];
    }
    ValAdd(a, b, o, 1);
  }

  /** Z */
  method Subtract(a: seq<int64>, b: seq<int64>) returns (o: seq<int64>)
    requires |a| == |b| == 16 && Within(a, 0x2_0000) && Within(b, 0x2_0000)
    ensures |o| == 16 && Within(o, 0x4_0000) && Val(o) == Val(a) - Val(b)
  {
    hide Val;
    o := [];
    for i := 0 to 16
      invariant |o| == i && forall j | 0 <= j < i :: o[j] as int == a[j] as int + (-1) * b[j] as int
    {
      o := o + [a[i] - b[i]];
    }
    ValAdd(a, b, o, -1);
  }

  // -------------------------------------------------------------- inversion

  function Power(x: int, e: nat): int
  {
    if e == 0 then 1 else x * Power(x, e - 1)
  }

  lemma {:induction false} PowerAdd(x: int, a: nat, b: nat)
    ensures Power(x, a + b) == Power(x, a) * Power(x, b)
  {
    if a > 0 {
      PowerAdd(x, a - 1, b);
      assert Power(x, a + b) == x * Power(x, a - 1 + b);
    }
  }

  /** The exponent reached when bits 253 down to `k` have been processed. */
  function Exponent(k: nat): nat
    requires k <= 254
    decreases 254 - k
  {
    if k == 254 then 1 else 2 * Exponent(k + 1) + (if k == 2 || k == 4 then 0 else 1)
  }

  lemma {:induction false} ExponentOnes(k: nat)
    requires 5 <= k <= 254
    ensures Exponent(k) == Words.Pow2(255 - k) - 1
    decreases 254 - k
  {
    if k < 254 { ExponentOnes(k + 1); }
  }

  lemma PrimeIsPow2()
    ensures Words.Pow2(255) == P + 19
  {
    hide Words.Pow2;
    Words.Pow2Values();
    Words.Pow2Add(64, 64);
    Words.Pow2Add(128, 128);
    Pow2Succ(255);
  }

  lemma Pow2Succ(n: nat)
    ensures Words.Pow2(n + 1) == 2 * Words.Pow2(n)
  {
  }

  /** The loop that skips bits 2 and 4 builds the exponent p - 2. */
  lemma ExponentIsInverse()
    ensures Exponent(0) == P - 2
  {
    ExponentOnes(5);
    PrimeIsPow2();
    Words.Pow2Add(250, 5);
    assert Words.Pow2(5) == 32;
  }

  lemma SquareStep(c: int, c2: int, x: int, e: nat)
    requires Cong(c, Power(x, e)) && Cong(c2, c * c)
    ensures Cong(c2, Power(x, 2 * e))
  {
    CongMul(c, Power(x, e), c, Power(x, e));
    PowerAdd(x, e, e);
    CongTrans(c2, c * c, Power(x, 2 * e));
  }

  lemma MultiplyStep(c: int, c2: int, x: int, e: nat)
    requires Cong(c, Power(x, e)) && Cong(c2, c * x)
    ensures Cong(c2, Power(x, e + 1))
  {
    CongRefl(x);
    CongMul(c, Power(x, e), x, x);
    CongTrans(c2, c * x, Power(x, e) * x);
  }

  lemma ReducedIsWithin(s: seq<int64>)
    requires Reduced(s)
    ensures |s| == 16 && Within(s, 0x2_0000) && Within(s, FACTOR)
  {
  }

  /** inv25519: the input to the power p - 2. */
  method Invert(i: seq<int64>) returns (o: seq<int64>)
    requires |i| == 16 && Within(i, FACTOR)
    ensures Reduced(o) && Cong(Val(o), Power(Val(i), P - 2))
  {
    hide Val, Cong, Exponent, Power, Reduced;
    var c := i;
    ghost var x := Val(i);
    PowerOne(x);
    CongRefl(x);
    for a := 254 downto 0
      invariant |c| == 16 && Within(c, FACTOR)
      invariant a < 254 ==> Reduced(c)
      invariant Cong(Val(c), Power(x, Exponent(a)))
    {
      var squared := Multiply(c, c);
      SquareStep(Val(c), Val(squared), x, Exponent(a + 1));
      ReducedIsWithin(squared);
      ExponentStep(a);
      if a != 2 && a != 4 {
        c := Multiply(squared, i);
        MultiplyStep(Val(squared), Val(c), x, 2 * Exponent(a + 1));
        ReducedIsWithin(c);
      } else {
        c := squared;
      }
    }
    ExponentIsInverse();
    o := c;
  }

  lemma ExponentStep(a: nat)
    requires a < 254
    ensures Exponent(a) == 2 * Exponent(a + 1) + (if a == 2 || a == 4 then 0 else 1)
    ensures Exponent(254) == 1
  {
  }

  lemma PowerOne(x: int)
    ensures Power(x, Exponent(254)) == x
  {
    assert Power(x, 1) == x * Power(x, 0);
  }

  // ---------------------------------------------------------------- packing

  const P_LIMBS: seq<int64> := [0xffed, 0xffff, 0xffff, 0xffff, 0xffff, 0xffff, 0xffff, 0xffff,
                                0xffff, 0xffff, 0xffff, 0xffff, 0xffff, 0xffff, 0xffff, 0x7fff]

  lemma {:induction false} AllOnes(s: seq<int64>)
    requires forall i | 0 <= i < |s| :: s[i] == 0xffff
    ensures Val(s) == Weight(|s|) - 1
  {
    if s != [] { AllOnes(s[1..]); }
  }

  lemma WeightSucc(n: nat)
    ensures Weight(n + 1) == 65536 * Weight(n)
  {
  }

  lemma PLimbsValue()
    ensures Val(P_LIMBS) == P
  {
    hide Val, Weight;
    var ones := P_LIMBS[15 := 0xffff][0 := 0xffff];
    AllOnes(ones);
    ValUpdate(ones, 0, 0xffed);
    ValUpdate(ones[0 := 0xffed], 15, 0x7fff);
    assert ones[0 := 0xffed][15 := 0x7fff] == P_LIMBS;
    WeightZero();
    WeightSucc(15);
    WeightOfAll();
  }

  /** sel25519 exchanges words under an all-ones mask and keeps them under a zero mask. */
  lemma SelectWord(p: nat, q: nat, b: nat)
    requires p < Words.Pow2(64) && q < Words.Pow2(64) && b <= 1
    ensures var c := SelectMask(b);
            var t := Words.And(Words.Xor(p, q), c);
            Words.Xor(p, t) == (if b == 1 then q else p) && Words.Xor(q, t) == (if b == 1 then p else q)
  {
    hide Words.Pow2, Words.And, Words.Xor, SelectMask;
    Words.Pow2Values();
    Words.XorBound(p, q, 64);
    Words.XorBack(p, q);
    Words.XorZero(p);
    Words.XorZero(q);
    Words.AndMask(Words.Xor(p, q), 64);
    Words.AndMask(Words.Xor(p, q), 0);
    MaskIs(b);
  }

  /** ~(b - 1) on 64 bits. */
  function SelectMask(b: nat): nat
  {
    Words.Pow2Values();
    Words.Not((b + W64 - 1) % W64, 64)
  }

  lemma MaskIs(b: nat)
    requires b <= 1
    ensures SelectMask(b) == (if b == 1 then Words.Pow2(64) - 1 else Words.Pow2(0) - 1) && Words.Pow2(0) == 1
  {
    hide Words.Pow2;
    Words.Pow2Values();
    SmallPowers();
  }

  /** The bits of a limb, in two's complement, and back. */
  function ToWord(x: int64): nat
  {
    if x >= 0 then x as int else x as int + W64
  }

  function FromWord(w: nat): int64
  {
    if w < W64 / 2 then w as int64 else if w < W64 then (w - W64) as int64 else 0
  }

  lemma WordRoundTrip(x: int64)
    ensures FromWord(ToWord(x)) == x && ToWord(x) < Words.Pow2(64)
  {
    Words.Pow2Values();
  }

  /** sel25519 as its loop over the limbs does it, without a branch. */
  method SelectLimbs(p: array<int64>, q: array<int64>, b: nat)
    requires p != q && p.Length == q.Length && b <= 1
    modifies p, q
    ensures p[..] == Select(old(p[..]), old(q[..]), b).0 && q[..] == Select(old(p[..]), old(q[..]), b).1
  {
    hide ToWord, FromWord, SelectMask, Words.And, Words.Xor, Words.Pow2;
    var c := SelectMask(b);
    for i := 0 to p.Length
      invariant forall j | 0 <= j < i :: p[j] == (if b == 1 then old(q[j]) else old(p[j]))
      invariant forall j | 0 <= j < i :: q[j] == (if b == 1 then old(p[j]) else old(q[j]))
      invariant forall j | i <= j < p.Length :: p[j] == old(p[j]) && q[j] == old(q[j])
    {
      var t := Words.And(Words.Xor(ToWord(p[i]), ToWord(q[i])), c);
      WordRoundTrip(p[i]);
      WordRoundTrip(q[i]);
      SelectWord(ToWord(p[i]), ToWord(q[i]), b);
      p[i], q[i] := FromWord(Words.Xor(ToWord(p[i]), t)), FromWord(Words.Xor(ToWord(q[i]), t));
    }
  }

  /** sel25519 on limb sequences. */
  function Select(p: seq<int64>, q: seq<int64>, b: nat): (r: (seq<int64>, seq<int64>))
  {
    if b == 1 then (q, p) else (p, q)
  }

  /**
   One round of the final subtraction: `m` becomes t - p with borrows propagated, and the returned
   borrow says whether t was below p.
   */
  method SubtractPrime(t: seq<int64>) returns (m: seq<int64>, c: int64)
    requires |t| == 16 && Canonical(t)
    ensures |m| == 16 && Val(m) == Val(t) - P
    ensures c == if Val(t) < P then 1 else 0
    ensures c == 0 ==> Canonical(m)
  {
    hide Val, Weight;
    m := [t[0] - 0xffed];
    ghost var pl := P_LIMBS;
    FirstLimb(t, m);
    for i := 1 to 16
      invariant |m| == i
      invariant forall j | 0 <= j < i - 1 :: 0 <= m[j] < LIMB
      invariant -65536 <= m[i - 1] <= 65535
      invariant Val(m) == Val(t[..i]) - Val(pl[..i])
    {
      ghost var m0 := m;
      var borrow := (m[i - 1] / 65536) % 2;
      var low := m[i - 1] % 65536;
      var top := t[i] - (if i == 15 then 0x7fff else 0xffff) - borrow;
      m := m[..i - 1] + [low] + [top];
      BorrowStep(m0, m, i, t, pl, borrow as int);
    }
    assert t[..16] == t && pl[..16] == pl;
    PLimbsValue();
    c := (m[15] / 65536) % 2;
    BorrowMeaning(m, Val(t) - P);
  }

  lemma FirstLimb(t: seq<int64>, m: seq<int64>)
    requires |t| == 16 && Canonical(t) && |m| == 1 && m[0] as int == t[0] as int - 0xffed
    ensures Val(m) == Val(t[..1]) - Val(P_LIMBS[..1])
  {
    assert t[..1] == [t[0]] && P_LIMBS[..1] == [0xffed] && m == [m[0]];
    SingleValue(t[0]);
    SingleValue(0xffed);
    SingleValue(m[0]);
  }

  lemma SingleValue(x: int64)
    ensures Val([x]) == x as int
  {
    assert [x][1..] == [];
  }

  /** Moving a borrow from one limb to the next keeps the difference. */
  lemma BorrowStep(m0: seq<int64>, m: seq<int64>, i: nat, t: seq<int64>, pl: seq<int64>, borrow: int)
    requires 1 <= i < 16 && |m0| == i && |m| == i + 1 && |t| == |pl| == 16
    requires Val(m0) == Val(t[..i]) - Val(pl[..i])
    requires m[..i - 1] == m0[..i - 1] && m[i - 1] as int == m0[i - 1] as int + 65536 * borrow
    requires m[i] as int == t[i] as int - pl[i] as int - borrow
    ensures Val(m) == Val(t[..i + 1]) - Val(pl[..i + 1])
  {
    hide Val, Weight;
    ValSnoc(t, i);
    ValSnoc(pl, i);
    ValSnoc(m, i);
    assert m[..i + 1] == m;
    ValSnoc(m, i - 1);
    ValSnoc(m0, i - 1);
    assert m0[..i] == m0;
    WeightSucc(i - 1);
    BorrowArithmetic(m0[i - 1] as int, borrow, t[i] as int, pl[i] as int, Weight(i - 1));
  }

  lemma BorrowArithmetic(d: int, borrow: int, t: int, p: int, w: int)
    ensures (d + 65536 * borrow) * w + (t - p - borrow) * (65536 * w) == d * w + t * (65536 * w) - p * (65536 * w)
  {
  }

  /** The sign of the top limb is the sign of the difference. */
  lemma BorrowMeaning(m: seq<int64>, v: int)
    requires |m| == 16 && Val(m) == v
    requires (forall j | 0 <= j < 15 :: 0 <= m[j] < LIMB) && -65536 <= m[15] <= 65535
    ensures (m[15] / 65536) % 2 == if v < 0 then 1 else 0
    ensures v >= 0 ==> m[15] >= 0
  {
    hide Val, Weight;
    ValSnoc(m, 15);
    assert m[..16] == m;
    CanonicalBound(m[..15]);
    QuotientSign(m[15] as int, Weight(15), Val(m[..15]));
  }

  lemma QuotientSign(q: int, w: int, r: int)
    requires 0 <= r < w
    ensures q >= 0 ==> r + q * w >= 0
    ensures q < 0 ==> r + q * w < 0
  {
    MulMonotone(0, q, w);
    MulMonotone(q, -1, w);
  }

  /** pack25519: the little-endian encoding of the representative in [0, p). */
  method Pack(n: seq<int64>) returns (out: seq<byte>)
    requires |n| == 16 && Within(n, 0x4000_0000_0000_0000)
    ensures |out| == 32 && LittleEndian(out) == Reduce(Val(n))
  {
    hide Val, Weight, Cong, Reduce, LittleEndian;
    var t := CarryThrice(n);
    CanonicalBound(t);
    WeightOfAll();
    for j := 0 to 2
      invariant |t| == 16 && Canonical(t) && Cong(Val(t), Val(n))
      invariant 0 <= Val(t) < (if j == 0 then 2 * P + 38 else if j == 1 then P + 38 else P)
    {
      var m, c := SubtractPrime(t);
      CanonicalBound(t);
      CongWitness(Val(m), Val(t), -1);
      CongTrans(Val(m), Val(t), Val(n));
      t := Select(t, m, (1 - c) as nat).0;
    }
    CongSym(Val(t), Val(n));
    ReduceUnique(Val(n), Val(t));
    out := ToBytes(t);
  }

  /** The three carry passes of pack25519 make any 62-bit limbs canonical. */
  method CarryThrice(n: seq<int64>) returns (t: seq<int64>)
    requires |n| == 16 && Within(n, 0x4000_0000_0000_0000)
    ensures |t| == 16 && Canonical(t) && Cong(Val(t), Val(n))
  {
    hide Val, Weight, Cong;
    var limbs := new int64[16](i requires 0 <= i < 16 => n[i]);
    assert limbs[..] == n;
    ghost var digits, q := Car(limbs);
    ghost var s1 := limbs[..];
    CarriedValue(n, digits, q, s1);
    forall i | 1 <= i < 16 ensures 0 <= s1[i] < LIMB { assert s1[1..][i - 1] == digits[1..][i - 1]; }
    digits, q := Car(limbs);
    ghost var s2 := limbs[..];
    CarriedValue(s1, digits, q, s2);
    CarryToReduced(s1, digits, q, s2);
    digits, q := Car(limbs);
    t := limbs[..];
    CarriedValue(s2, digits, q, t);
    CarryToCanonical(s2, digits, q, t);
    CongTrans(Val(s2), Val(s1), Val(n));
    CongTrans(Val(t), Val(s2), Val(n));
  }

  function Word16(lo: byte, hi: byte): nat
  {
    lo as int + 256 * hi as int
  }

  /** The output loop of pack25519. */
  method ToBytes(t: seq<int64>) returns (out: seq<byte>)
    requires |t| == 16 && Canonical(t)
    ensures |out| == 32 && LittleEndian(out) == Val(t)
  {
    hide Val, LittleEndian;
    out := [];
    for i := 0 to 16
      invariant |out| == 2 * i
      invariant forall j | 0 <= j < i :: Word16(out[2 * j], out[2 * j + 1]) == t[j] as int
    {
      out := out + [(t[i] % 256) as int, (t[i] / 256 % 256) as int];
    }
    BytesOfLimbs(out, t);
  }

  lemma EmptyBytes()
    ensures LittleEndian([]) == 0
  {
  }

  lemma FirstTwo(out: seq<byte>)
    requires |out| >= 2
    ensures LittleEndian(out) == Word16(out[0], out[1]) + 0x1_0000 * LittleEndian(out[2..])
  {
    assert out[1..][1..] == out[2..];
  }

  lemma {:induction false} BytesOfLimbs(out: seq<byte>, t: seq<int64>)
    requires |out| == 2 * |t| && forall j | 0 <= j < |t| :: Word16(out[2 * j], out[2 * j + 1]) == t[j] as int
    ensures LittleEndian(out) == Val(t)
  {
    hide LittleEndian, Word16;
    if t == [] {
      EmptyBytes();
    } else {
      BytesOfLimbs(out[2..], t[1..]) by {
        forall j | 0 <= j < |t| - 1 ensures Word16(out[2..][2 * j], out[2..][2 * j + 1]) == t[1..][j] as int {
          assert Word16(out[2 * (j + 1)], out[2 * (j + 1) + 1]) == t[j + 1] as int;
        }
      }
      assert Word16(out[2 * 0], out[2 * 0 + 1]) == t[0] as int;
      FirstTwo(out);
    }
  }

  /** unpack25519: the value with its top bit dropped. */
  method Unpack(n: seq<byte>) returns (o: seq<int64>)
    requires |n| == 32
    ensures |o| == 16 && Canonical(o) && Val(o) == LittleEndian(n) % Words.Pow2(255)
  {
    hide Val, Weight, LittleEndian, Words.Pow2;
    o := [];
    for i := 0 to 16
      invariant |o| == i && Canonical(o)
      invariant forall j | 0 <= j < i :: Word16(n[2 * j], n[2 * j + 1]) == o[j] as int
    {
      o := o + [Word16(n[2 * i], n[2 * i + 1]) as int64];
    }

    ghost var full := o;
    BytesOfLimbs(n, o);
    o := o[15 := o[15] % 0x8000];
    TopBit(full, o);
    Pow255();
  }

  lemma Pow255()
    ensures Words.Pow2(255) == 0x8000 * Weight(15)
  {
    hide Weight, Words.Pow2;
    WeightSucc(15);
    WeightOfAll();
    PrimeIsPow2();
  }

  lemma TopBit(full: seq<int64>, o: seq<int64>)
    requires |full| == 16 && Canonical(full) && o == full[15 := full[15] % 0x8000]
    ensures Val(o) == Val(full) % (0x8000 * Weight(15))
  {
    hide *;
    var low := full[..15];
    ValSnoc(full, 15);
    ValSnoc(o, 15);
    assert full[..16] == full && o[..16] == o && o[..15] == low;
    CanonicalPrefix(full, 15);
    CanonicalBound(low);
    ReplaceTop(Val(low), full[15] as int, o[15] as int, Weight(15));
    TopBitArithmetic(Val(full), Val(o), full[15] as int, o[15] as int, Weight(15), Val(low));
  }

  lemma ReplaceTop(low: int, d: int, top: int, w: int)
    ensures low + top * w == (low + d * w) + (top - d) * w
  {
  }

  lemma CanonicalPrefix(s: seq<int64>, n: nat)
    requires Canonical(s) && n <= |s|
    ensures Canonical(s[..n])
  {
  }

  lemma TopBitArithmetic(v: int, r: int, d: int, top: int, w: int, low: int)
    requires r == v + (top - d) * w && r == low + top * w && 0 <= low < w && top == d % 0x8000
    ensures r == v % (0x8000 * w)
  {
    var q := d / 0x8000;
    MulMonotone(top, 0x7fff, w);
    MulMonotone(0, top, w);
    assert (top - d) * w == -((0x8000 * w) * q) by { assert top - d == -(0x8000 * q); }
    ModUnique(v, 0x8000 * w, q, r);
  }

  // ------------------------------------------------- RFC 7748, section 5

  datatype Ladder = Ladder(x2: int, z2: int, x3: int, z3: int)

  const A24: int := 121665

  /** The curve is v^2 = u^3 + A u^2 + u with A = 486662. */
  lemma CurveConstant()
    ensures 4 * A24 + 2 == 486662
  {
  }

  /** One iteration of the Montgomery ladder in GF(p). */
  function SpecStep(x1: int, s: Ladder): Ladder
  {
    var a, b := s.x2 + s.z2, s.x2 - s.z2;
    var aa, bb := a * a, b * b;
    var e := aa - bb;
    var c, d := s.x3 + s.z3, s.x3 - s.z3;
    var da, cb := d * a, c * b;
    Ladder(Reduce(aa * bb), Reduce(e * (aa + A24 * e)),
           Reduce((da + cb) * (da + cb)), Reduce(x1 * ((da - cb) * (da - cb))))
  }

  function SpecSwap(swap: bool, s: Ladder): Ladder
  {
    if swap then Ladder(s.x3, s.z3, s.x2, s.z2) else s
  }

  /** The ladder state and pending swap after bits 254 down to `t` of the scalar. */
  function SpecRun(k: nat, x1: int, t: nat): (Ladder, bool)
    requires t <= 255
    decreases 255 - t
  {
    if t == 255 then (Ladder(1, 0, x1, 1), false)
    else
      var (s, swap) := SpecRun(k, x1, t + 1);
      var bit := Words.Bit(k, t);
      (SpecStep(x1, SpecSwap(swap != bit, s)), bit)
  }

  /** decodeScalar25519 */
  function Clamp(scalar: seq<byte>): (z: seq<byte>)
    requires |scalar| == 32
    ensures |z| == 32
  {
    Words.AndBound(scalar[0], 248);
    Words.AndBound(scalar[31], 127);
    ClampTop(Words.And(scalar[31], 127));
    scalar[0 := Words.And(scalar[0], 248)][31 := Words.Or(Words.And(scalar[31], 127), 64)]
  }

  lemma ClampTop(x: nat)
    requires x <= 127
    ensures Words.Or(x, 64) < 256
  {
    assert Words.Pow2(8) == 256;
    Words.OrBound(x, 64, 8);
  }

  lemma {:induction false} LastByte(s: seq<byte>)
    requires s != []
    ensures LittleEndian(s) == LittleEndian(s[..|s| - 1]) + Words.Pow2(8 * (|s| - 1)) * s[|s| - 1]
    ensures LittleEndian(s) < Words.Pow2(8 * |s|)
  {
    hide Words.Pow2;
    var t := s[1..];
    if t == [] {
      assert s[..0] == [];
      Eightfold(0);
      SmallPowers();
    } else {
      LastByte(t);
      assert t[..|t| - 1] == s[..|s| - 1][1..] && t[|t| - 1] == s[|s| - 1];
      Eightfold(8 * (|t| - 1));
      Eightfold(8 * |t|);
      Outward(Words.Pow2(8 * (|t| - 1)), s[|s| - 1]);
    }
  }

  lemma Outward(p: int, x: int)
    ensures (256 * p) * x == 256 * (p * x)
  {
  }

  lemma Eightfold(n: nat)
    ensures Words.Pow2(n + 8) == 256 * Words.Pow2(n)
  {
    Words.Pow2Add(n, 8);
    Words.Pow2Values();
  }

  lemma EndBytes(s: seq<byte>) returns (m: nat)
    requires |s| == 32
    ensures LittleEndian(s) == s[0] as nat + 256 * m + Words.Pow2(248) * s[31]
    ensures m < Words.Pow2(240) && m == LittleEndian(s[1..31])
  {
    LastByte(s);
    LastByte(s[1..31]);
    m := LittleEndian(s[1..31]);
    assert s[..31][1..] == s[1..31];
  }

  lemma ClampedFirst(x: nat)
    requires x < 256
    ensures Words.And(x, 248) == x - x % 8
  {
    hide Words.And, Words.Pow2;
    SmallPowers();
    var low, high := x % 8, x / 8;
    Words.AndConcat(low, high, 0, 31, 3);
    Words.AndMask(low, 0);
    Words.AndMask(high, 5);
    assert high % 32 == high && low % 1 == 0 && low + 8 * high == x;
  }

  lemma ClampedLast(x: nat)
    requires x < 256
    ensures Words.Or(Words.And(x, 127), 64) == 64 + x % 64
  {
    hide Words.And, Words.Or, Words.Pow2;
    SmallPowers();
    Words.AndMask(x, 7);
    Words.OrTop(x % 128, 6);
    assert x % 128 % 64 == x % 64;
  }

  lemma SmallPowers()
    ensures Words.Pow2(0) == 1 && Words.Pow2(3) == 8 && Words.Pow2(5) == 32
    ensures Words.Pow2(6) == 64 && Words.Pow2(7) == 128
  {
  }

  lemma ClampBytes(scalar: seq<byte>)
    requires |scalar| == 32
    ensures var z := Clamp(scalar);
            && z[0] == scalar[0] - scalar[0] % 8 && z[31] == 64 + scalar[31] % 64 && z[1..31] == scalar[1..31]
  {
    hide Words.And, Words.Or;
    ClampedFirst(scalar[0]);
    ClampedLast(scalar[31]);
  }

  /** Bit 254 of the scalar is set, the bits above it and the lowest three are cleared, all others are kept. */
  lemma ClampIs(scalar: seq<byte>)
    requires |scalar| == 32
    ensures var k := LittleEndian(scalar);
            LittleEndian(Clamp(scalar)) == Words.Pow2(254) + k % Words.Pow2(254) - k % 8
  {
    hide *;
    ClampBytes(scalar);
    var m := EndBytes(scalar);
    var m' := EndBytes(Clamp(scalar));
    ClampSum(LittleEndian(scalar), scalar[0], m, scalar[31]);
  }

  lemma ClampSum(k: nat, a: nat, m: nat, b: nat)
    requires a < 256 && b < 256 && m < Words.Pow2(240) && k == a + 256 * m + Words.Pow2(248) * b
    ensures k % 8 == a % 8
    ensures k % Words.Pow2(254) == a + 256 * m + Words.Pow2(248) * (b % 64)
    ensures Words.Pow2(248) * (64 + b % 64) == Words.Pow2(254) + Words.Pow2(248) * (b % 64)
  {
    hide Words.Pow2;
    Eightfold(240);
    Words.Pow2Add(248, 6);
    SmallPowers();
    ClampDigits(k, a, m, b, Words.Pow2(240), Words.Pow2(248));
    Modular.Distribute(64, b % 64, Words.Pow2(248));
  }

  lemma ClampDigits(k: nat, a: nat, m: nat, b: nat, q: nat, p: nat)
    requires a < 256 && b < 256 && m < q && p == 256 * q && k == a + 256 * m + p * b
    ensures k % 8 == a % 8 && k % (64 * p) == a + 256 * m + p * (b % 64)
  {
    Outward(q, b);
    LowDigits(k, a, m, q * b);
    HighDigits(k, a + 256 * m, b, p);
  }

  lemma LowDigits(k: nat, a: nat, m: nat, x: nat)
    requires k == a + 256 * m + 256 * x
    ensures k % 8 == a % 8
  {
    Modular.ModUnique(k, 8, a / 8 + 32 * m + 32 * x, a % 8);
  }

  lemma HighDigits(k: nat, low: nat, b: nat, p: nat)
    requires low < p && k == low + p * b
    ensures k % (64 * p) == low + p * (b % 64)
  {
    var c, d := b / 64, b % 64;
    assert p * b == p * (64 * c) + p * d by { Modular.Distribute(64 * c, d, p); }
    Inward(p, c);
    Modular.MulMonotone(d, 63, p);
    assert 63 * p + p == 64 * p;
    Modular.ModUnique(k, 64 * p, c, low + p * d);
  }

  lemma Inward(p: int, c: int)
    ensures p * (64 * c) == (64 * p) * c
  {
  }

  /** X25519(k, u) of RFC 7748 as an integer; section 5 encodes it in little-endian order. */
  function SpecX25519(scalar: seq<byte>, u: seq<byte>): int
    requires |scalar| == 32 && |u| == 32
  {
    var x1 := LittleEndian(u) % Words.Pow2(255);
    var (s, swap) := SpecRun(LittleEndian(Clamp(scalar)), x1, 0);
    var last := SpecSwap(swap, s);
    Reduce(last.x2 * Power(last.z2, P - 2))
  }

  // -------------------------------------------------------------- the ladder

  /** Limb state `l` represents field state `s`. */
  ghost predicate Represents(x2: seq<int64>, z2: seq<int64>, x3: seq<int64>, z3: seq<int64>, s: Ladder)
  {
    && Small(x2) && Small(z2) && Small(x3) && Small(z3)
    && Cong(Val(x2), s.x2) && Cong(Val(z2), s.z2) && Cong(Val(x3), s.x3) && Cong(Val(z3), s.z3)
  }

  /** Limbs of sums and differences of these stay far below 2^26. */
  ghost predicate Small(s: seq<int64>)
  {
    |s| == 16 && Within(s, 0x2_0000)
  }

  lemma SmallCases(s: seq<int64>)
    ensures Reduced(s) ==> Small(s)
    ensures |s| == 16 && Canonical(s) ==> Small(s)
    ensures Small(s) ==> |s| == 16 && Within(s, FACTOR)
    ensures |s| == 16 && Within(s, 0x4_0000) ==> Within(s, FACTOR)
  {
  }

  lemma MulCong(o: int, a: int, b: int, sa: int, sb: int)
    requires Cong(o, a * b) && Cong(a, sa) && Cong(b, sb)
    ensures Cong(o, sa * sb)
  {
    CongMul(a, sa, b, sb);
    CongTrans(o, a * b, sa * sb);
  }

  lemma ReducedCong(o: int, x: int)
    requires Cong(o, x)
    ensures Cong(o, Reduce(x))
  {
    CongTrans(o, x, Reduce(x));
  }

  /** M on limbs that stand for field elements. */
  method MulField(a: seq<int64>, b: seq<int64>, ghost sa: int, ghost sb: int) returns (o: seq<int64>)
    requires |a| == |b| == 16 && Within(a, 0x4_0000) && Within(b, 0x4_0000)
    requires Cong(Val(a), sa) && Cong(Val(b), sb)
    ensures Small(o) && Cong(Val(o), sa * sb)
  {
    hide Val, Cong, Reduced, Small;
    SmallCases(a);
    SmallCases(b);
    o := Multiply(a, b);
    SmallCases(o);
    MulCong(Val(o), Val(a), Val(b), sa, sb);
  }

  method AddField(a: seq<int64>, b: seq<int64>, ghost sa: int, ghost sb: int) returns (o: seq<int64>)
    requires Small(a) && Small(b) && Cong(Val(a), sa) && Cong(Val(b), sb)
    ensures |o| == 16 && Within(o, 0x4_0000) && Cong(Val(o), sa + sb)
  {
    hide Val, Cong;
    o := Add(a, b);
    CongAdd(Val(a), sa, Val(b), sb);
  }

  method SubField(a: seq<int64>, b: seq<int64>, ghost sa: int, ghost sb: int) returns (o: seq<int64>)
    requires Small(a) && Small(b) && Cong(Val(a), sa) && Cong(Val(b), sb)
    ensures |o| == 16 && Within(o, 0x4_0000) && Cong(Val(o), sa - sb)
  {
    hide Val, Cong;
    o := Subtract(a, b);
    CongAdd(Val(a), sa, Val(b), sb);
  }

  lemma SmallIsWithin(s: seq<int64>)
    requires Small(s)
    ensures |s| == 16 && Within(s, 0x4_0000)
  {
  }

  const A24_LIMBS: seq<int64> := [0xDB41, 1, 0, 0, 0, 0, 0, 0, 0, 0, 0, 0, 0, 0, 0, 0]

  lemma A24Value()
    ensures |A24_LIMBS| == 16 && Within(A24_LIMBS, 0x4_0000) && Val(A24_LIMBS) == A24
  {
    hide Val, Weight;
    ValZero(ZERO);
    WeightZero();
    WeightSucc(0);
    ValUpdate(ZERO, 0, 0xDB41);
    ValUpdate(ZERO[0 := 0xDB41], 1, 1);
    assert ZERO[0 := 0xDB41][1 := 1] == A24_LIMBS;
  }

  /** The body of the ladder loop after the conditional swaps. */
  method Step(x1: seq<int64>, x2: seq<int64>, z2: seq<int64>, x3: seq<int64>, z3: seq<int64>,
              ghost u: int, ghost s: Ladder)
    returns (nx2: seq<int64>, nz2: seq<int64>, nx3: seq<int64>, nz3: seq<int64>)
    requires Small(x1) && Cong(Val(x1), u) && Represents(x2, z2, x3, z3, s)
    ensures Represents(nx2, nz2, nx3, nz3, SpecStep(u, s))
  {
    hide Val, Cong, Small, Within, Reduce;
    ghost var sa, sb, sc, sd := s.x2 + s.z2, s.x2 - s.z2, s.x3 + s.z3, s.x3 - s.z3;
    ghost var saa, sbb := sa * sa, sb * sb;
    ghost var se, sda, scb := saa - sbb, sd * sa, sc * sb;
    var a := AddField(x2, z2, s.x2, s.z2);
    var aa := MulField(a, a, sa, sa);
    var b := SubField(x2, z2, s.x2, s.z2);
    var bb := MulField(b, b, sb, sb);
    var e := SubField(aa, bb, saa, sbb);
    var c := AddField(x3, z3, s.x3, s.z3);
    var d := SubField(x3, z3, s.x3, s.z3);
    var da := MulField(d, a, sd, sa);
    var cb := MulField(c, b, sc, sb);
    nx3 := AddField(da, cb, sda, scb);
    nx3 := MulField(nx3, nx3, sda + scb, sda + scb);
    nz3 := SubField(da, cb, sda, scb);
    nz3 := MulField(nz3, nz3, sda - scb, sda - scb);
    SmallIsWithin(nz3);
    SmallIsWithin(x1);
    nz3 := MulField(nz3, x1, (sda - scb) * (sda - scb), u);
    SmallIsWithin(aa);
    SmallIsWithin(bb);
    nx2 := MulField(aa, bb, saa, sbb);
    A24Value();
    CongRefl(A24);
    nz2 := MulField(e, A24_LIMBS, se, A24);
    nz2 := AddField(nz2, aa, se * A24, saa);
    nz2 := MulField(e, nz2, se, se * A24 + saa);
    StepResult(Val(nx2), Val(nz2), Val(nx3), Val(nz3), u, s);
  }

  lemma StepResult(x2: int, z2: int, x3: int, z3: int, u: int, s: Ladder)
    requires var sa, sb, sc, sd := s.x2 + s.z2, s.x2 - s.z2, s.x3 + s.z3, s.x3 - s.z3;
             var saa, sbb := sa * sa, sb * sb;
             var se, sda, scb := saa - sbb, sd * sa, sc * sb;
             && Cong(x2, saa * sbb) && Cong(z2, se * (se * A24 + saa))
             && Cong(x3, (sda + scb) * (sda + scb)) && Cong(z3, ((sda - scb) * (sda - scb)) * u)
    ensures var r := SpecStep(u, s);
            Cong(x2, r.x2) && Cong(z2, r.z2) && Cong(x3, r.x3) && Cong(z3, r.z3)
  {
    hide Cong, Reduce;
    var sa, sb, sc, sd := s.x2 + s.z2, s.x2 - s.z2, s.x3 + s.z3, s.x3 - s.z3;
    var saa, sbb := sa * sa, sb * sb;
    var se, sda, scb := saa - sbb, sd * sa, sc * sb;
    ReducedCong(x2, saa * sbb);
    Commute(se, A24);
    ReducedCong(z2, se * (saa + A24 * se));
    ReducedCong(x3, (sda + scb) * (sda + scb));
    Commute((sda - scb) * (sda - scb), u);
    ReducedCong(z3, u * ((sda - scb) * (sda - scb)));
  }

  lemma Commute(x: int, y: int)
    ensures x * y == y * x
  {
  }

  // ----------------------------------------------------------- scalar bits

  lemma {:induction false} BitOfBytes(z: seq<byte>, pos: nat)
    requires pos / 8 < |z|
    ensures Words.Bit(LittleEndian(z), pos) == Words.Bit(z[pos / 8], pos % 8)
  {
    assert Words.Pow2(8) == 256;
    Words.BitConcat(z[0], LittleEndian(z[1..]), 8, pos);
    if pos >= 8 { BitOfBytes(z[1..], pos - 8); }
  }

  /** `(b >> i) & 1` */
  function ShiftBit(b: nat, i: nat): (r: nat)
    ensures r < 2
  {
    if i == 0 then b % 2 else ShiftBit(b / 2, i - 1)
  }

  lemma {:induction false} ShiftBitIsBit(b: nat, i: nat)
    ensures ShiftBit(b, i) == if Words.Bit(b, i) then 1 else 0
  {
    if i > 0 { ShiftBitIsBit(b / 2, i - 1); }
  }

  lemma SwapRepresents(x2: seq<int64>, z2: seq<int64>, x3: seq<int64>, z3: seq<int64>, s: Ladder, b: nat)
    requires Represents(x2, z2, x3, z3, s) && b < 2
    ensures Represents(Select(x2, x3, b).0, Select(z2, z3, b).0, Select(x2, x3, b).1, Select(z2, z3, b).1,
              SpecSwap(b == 1, s))
  {
  }

  /** The loop of kos_x25519. */
  method RunLadder(z: seq<byte>, x1: seq<int64>, ghost u: int)
    returns (x2: seq<int64>, z2: seq<int64>)
    requires |z| == 32 && Small(x1) && Cong(Val(x1), u)
    ensures Small(x2) && Small(z2)
    ensures var (s, swap) := SpecRun(LittleEndian(z), u, 0);
            Cong(Val(x2), SpecSwap(swap, s).x2) && Cong(Val(z2), SpecSwap(swap, s).z2)
  {
    hide Val, Cong, Small, Within, SpecStep, Represents, SpecSwap, Words.Bit, LittleEndian, Select, ShiftBit;
    ghost var k := LittleEndian(z);
    x2, z2 := ONE, ZERO;
    var x3, z3 := x1, ONE;
    var swap := 0;
    StartRepresents(x1, u);
    for pos := 255 downto 0
      invariant swap < 2
      invariant Represents(x2, z2, x3, z3, SpecRun(k, u, pos).0)
      invariant SpecRun(k, u, pos).1 == (swap == 1)
    {
      BitOfBytes(z, pos);
      ShiftBitIsBit(z[pos / 8], pos % 8);
      var bit := ShiftBit(z[pos / 8], pos % 8);
      swap := (swap + bit) % 2;
      ghost var s := SpecRun(k, u, pos + 1).0;
      SwapRepresents(x2, z2, x3, z3, s, swap);
      var (p2, p3) := Select(x2, x3, swap);
      var (q2, q3) := Select(z2, z3, swap);
      x2, z2, x3, z3 := Step(x1, p2, q2, p3, q3, u, SpecSwap(swap == 1, s));
      swap := bit;
    }
    SwapRepresents(x2, z2, x3, z3, SpecRun(k, u, 0).0, swap);
    x2 := Select(x2, x3, swap).0;
    z2 := Select(z2, z3, swap).0;
  }

  const ZERO: seq<int64> := seq(16, _ => 0)
  const ONE: seq<int64> := seq(16, i => if i == 0 then 1 else 0)

  lemma StartRepresents(x1: seq<int64>, u: int)
    requires Small(x1) && Cong(Val(x1), u)
    ensures Represents(ONE, ZERO, x1, ONE, Ladder(1, 0, u, 1))
  {
    hide Cong;
    ValZero(ZERO);
    ValZero(ONE[1..]);
    CongRefl(0);
    CongRefl(1);
  }

  lemma {:induction false} PowerCong(x: int, y: int, e: nat)
    requires Cong(x, y)
    ensures Cong(Power(x, e), Power(y, e))
  {
    if e == 0 {
      CongRefl(1);
    } else {
      PowerCong(x, y, e - 1);
      CongMul(x, y, Power(x, e - 1), Power(y, e - 1));
    }
  }

  /** kos_x25519: the function of RFC 7748 on every scalar and every u-coordinate. */
  method X25519(scalar: seq<byte>, base: seq<byte>) returns (out: seq<byte>)
    requires |scalar| == 32 && |base| == 32
    ensures |out| == 32 && LittleEndian(out) == SpecX25519(scalar, base)
  {
    hide Val, Cong, Small, Within, SpecRun, SpecSwap, LittleEndian, Clamp, Reduced, Reduce, Power, Words.Pow2;
    var z := Clamp(scalar);
    var x1 := Unpack(base);
    ghost var u := LittleEndian(base) % Words.Pow2(255);
    SmallCases(x1);
    CongRefl(u);
    var x2, z2 := RunLadder(z, x1, u);
    SmallCases(z2);
    SmallCases(x2);
    var inverse := Invert(z2);
    SmallCases(inverse);
    var product := Multiply(x2, inverse);
    ghost var (s, swap) := SpecRun(LittleEndian(z), u, 0);
    ghost var last := SpecSwap(swap, s);
    PowerCong(Val(z2), last.z2, P - 2);
    CongTrans(Val(inverse), Power(Val(z2), P - 2), Power(last.z2, P - 2));
    MulCong(Val(product), Val(x2), Val(inverse), last.x2, Power(last.z2, P - 2));
    ReducedIsPackable(product);
    out := Pack(product);
    SameResidue(Val(product), last.x2 * Power(last.z2, P - 2));
  }

  lemma ReducedIsPackable(s: seq<int64>)
    requires Reduced(s)
    ensures |s| == 16 && Within(s, 0x4000_0000_0000_0000)
  {
  }

  lemma SameResidue(x: int, y: int)
    requires Cong(x, y)
    ensures Reduce(x) == Reduce(y)
  {
    CongTrans(x, y, Reduce(y));
    ReduceUnique(x, Reduce(y));
  }
}
