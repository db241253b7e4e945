/**
 Arithmetic modulo p = 2^255 - 19 in sixteen signed limbs of weight 2^16 held in 64-bit
 integers (lib/crypto.c, X25519 part). The type int64 makes every arithmetic step below
 a proof that it does not overflow.
 */
module Field25519 {
  import opened Modular

  newtype int64 = x: int | -0x8000_0000_0000_0000 <= x < 0x8000_0000_0000_0000

  const P: int := 0x7fff_ffff_ffff_ffff_ffff_ffff_ffff_ffff_ffff_ffff_ffff_ffff_ffff_ffff_ffff_ffed

  // ------------------------------------------------------------ limb values

  function Weight(i: nat): (w: int)
    ensures w >= 1
  {
    if i == 0 then 1 else 65536 * Weight(i - 1)
  }

  /** The number a little-endian limb sequence stands for. */
  function Val(s: seq<int64>): int
  {
    if s == [] then 0 else s[0] as int + 65536 * Val(s[1..])
  }

  lemma {:induction false} WeightAdd(i: nat, j: nat)
    ensures Weight(i + j) == Weight(i) * Weight(j)
  {
    if i > 0 {
      WeightAdd(i - 1, j);
      assert Weight(i + j) == 65536 * Weight(i - 1 + j);
    }
  }

  lemma WeightOfAll()
    ensures Weight(16) == 2 * P + 38
  {
    assert Weight(4) == 0x1_0000_0000_0000_0000;
    WeightAdd(4, 4);
    WeightAdd(8, 8);
  }

  lemma {:induction false} ValUpdate(s: seq<int64>, k: nat, v: int64)
    requires k < |s|
    ensures Val(s[k := v]) == Val(s) + (v as int - s[k] as int) * Weight(k)
  {
    if k > 0 {
      ValUpdate(s[1..], k - 1, v);
      assert s[k := v][1..] == s[1..][k - 1 := v];
      Scale(v as int - s[k] as int, Weight(k - 1));
    }
  }

  lemma Scale(d: int, w: int)
    ensures 65536 * (d * w) == d * (65536 * w)
  {
  }

  lemma {:induction false} ValSplit(s: seq<int64>, k: nat)
    requires k <= |s|
    ensures Val(s) == Val(s[..k]) + Weight(k) * Val(s[k..])
  {
    if k == 0 {
      assert s[..k] == [] && s[k..] == s;
    } else {
      ValSplit(s[1..], k - 1);
      assert s[..k][1..] == s[1..][..k - 1];
      assert s[1..][k - 1..] == s[k..];
      SplitStep(s[0] as int, Val(s[..k][1..]), Weight(k - 1), Val(s[k..]));
    }
  }

  lemma SplitStep(d: int, low: int, w: int, high: int)
    ensures d + 65536 * (low + w * high) == (d + 65536 * low) + (65536 * w) * high
  {
  }

  lemma ValSnoc(s: seq<int64>, k: nat)
    requires k < |s|
    ensures Val(s[..k + 1]) == Val(s[..k]) + s[k] as int * Weight(k)
  {
    ValSplit(s[..k + 1], k);
    assert s[..k + 1][..k] == s[..k];
    assert s[..k + 1][k..] == [s[k]];
    assert Val([s[k]]) == s[k] as int;
  }

  // ------------------------------------------------------------- congruence

  /** Congruence modulo p. */
  ghost predicate Cong(x: int, y: int)
  {
    Congruent(x, y, P)
  }

  lemma CongWitness(x: int, y: int, k: int)
    requires x == y + P * k
    ensures Cong(x, y)
  {
    Witness(x, y, P, k);
  }

  lemma CongRefl(x: int)
    ensures Cong(x, x)
  {
  }

  lemma CongTrans(x: int, y: int, z: int)
    requires Cong(x, y) && Cong(y, z)
    ensures Cong(x, z)
  {
    Trans(x, y, z, P);
  }

  lemma CongSym(x: int, y: int)
    requires Cong(x, y)
    ensures Cong(y, x)
  {
    Sym(x, y, P);
  }

  lemma CongAdd(x: int, y: int, u: int, v: int)
    requires Cong(x, y) && Cong(u, v)
    ensures Cong(x + u, y + v) && Cong(x - u, y - v)
  {
    Modular.Add(x, y, u, v, P);
  }

  lemma CongMul(x: int, y: int, u: int, v: int)
    requires Cong(x, y) && Cong(u, v)
    ensures Cong(x * u, y * v)
  {
    Modular.Mul(x, y, u, v, P);
  }

  /** The unique representative in [0, p). */
  function Reduce(x: int): (r: int)
    ensures 0 <= r < P && Cong(x, r)
  {
    var r := x % P;
    assert x - r == P * (x / P);
    MultipleMod(x / P, P);
    r
  }

  lemma ReduceUnique(x: int, r: int)
    requires Cong(x, r) && 0 <= r < P
    ensures Reduce(x) == r
  {
    CongSym(x, Reduce(x));
    CongTrans(Reduce(x), x, r);
    SmallDifference(Reduce(x) - r, P);
  }

  // ------------------------------------------------------------------ carry

  const LIMB: int64 := 65536

  /** All limbs lie in [0, 2^16). */
  ghost predicate Canonical(s: seq<int64>)
  {
    forall i | 0 <= i < |s| :: 0 <= s[i] < LIMB
  }

  ghost predicate Within(s: seq<int64>, bound: int)
  {
    forall i | 0 <= i < |s| :: -bound <= s[i] as int <= bound
  }

  lemma {:induction false} CanonicalBound(s: seq<int64>)
    requires Canonical(s)
    ensures 0 <= Val(s) < Weight(|s|)
  {
    if s != [] { CanonicalBound(s[1..]); }
  }

  lemma {:induction false} WithinBound(s: seq<int64>, bound: int)
    requires Within(s, bound) && bound >= 0 && s != []
    ensures var m := bound * (2 * Weight(|s| - 1) - 1); -m <= Val(s) <= m
  {
    if |s| > 1 {
      WithinBound(s[1..], bound);
      BoundStep(bound, Weight(|s| - 2));
    } else {
      assert s[1..] == [];
    }
  }

  lemma BoundStep(bound: int, w: int)
    requires bound >= 0 && w >= 1
    ensures bound + 65536 * (bound * (2 * w - 1)) <= bound * (2 * (65536 * w) - 1)
  {
  }

  /** A carry chain keeps the value: what leaves limb i enters limb i + 1. */
  lemma CarryKeepsValue(s: seq<int64>, i: nat, q: int, low: int64, high: int64)
    requires i + 1 < |s|
    requires low as int == s[i] as int - 65536 * q && high as int == s[i + 1] as int + q
    ensures Val(s[i + 1 := high][i := low]) == Val(s)
  {
    var t := s[i + 1 := high];
    ValUpdate(s, i + 1, high);
    ValUpdate(t, i, low);
    Scale(q, Weight(i));
  }

  /** The last carry leaves the top limb; its weight 2^256 is twice p plus 38. */
  lemma TopCarry(s: seq<int64>, n: nat, q: int, low: int64)
    requires |s| == n + 1 && low as int == s[n] as int - 65536 * q
    ensures Val(s) == Val(s[n := low]) + q * Weight(n + 1)
  {
    ValUpdate(s, n, low);
    Scale(q, Weight(n));
  }

  /**
   car25519: one carry pass. It divides the value by 2^256: `digits` is the remainder in canonical
   limbs and `q` the quotient, which is folded back into limb 0 with weight 38.
   */
  method Car(o: array<int64>) returns (ghost digits: seq<int64>, ghost q: int)
    requires o.Length == 16 && Within(o[..], 0x4000_0000_0000_0000)
    modifies o
    ensures |digits| == 16 && Canonical(digits)
    ensures Val(old(o[..])) == Val(digits) + q * Weight(16)
    ensures -0x8000_0000_0000 <= q <= 0x8000_0000_0000
    ensures o[0] as int == digits[0] as int + 38 * q && o[1..] == digits[1..]
  {
    hide Weight, Val;
    ghost var start := o[..];
    digits, q := start, 0;
    for i := 0 to 16
      invariant |digits| == 16 && -0x8000_0000_0000 <= q <= 0x8000_0000_0000
      invariant Val(start) == Val(digits) + q * Weight(16)
      invariant forall j | 0 <= j < i :: 0 <= digits[j] < LIMB
      invariant forall j | i < j < 16 :: digits[j] == start[j]
      invariant i < 16 ==> -0x4000_8000_0000_0000 <= digits[i] as int <= 0x4000_8000_0000_0000
      invariant i < 16 ==> q == 0
      invariant o[..] == if i < 16 then digits else digits[0 := o[0]]
      invariant i == 16 ==> o[0] as int == digits[0] as int + 38 * q
    {
      ghost var s := o[..];
      o[i] := o[i] + 65536;
      var c := o[i] / 65536;
      var next := if i < 15 then i + 1 else 0;
      o[next] := o[next] + (c - 1 + 37 * (c - 1) * (if i == 15 then 1 else 0));
      o[i] := o[i] - c * 65536;
      ghost var carry := c as int - 1;
      if i < 15 {
        CarryKeepsValue(s, i, carry, o[i], o[i + 1]);
        digits := o[..];
        assert digits == s[i + 1 := o[i + 1]][i := o[i]];
      } else {
        TopCarry(s, 15, carry, o[15]);
        digits := s[15 := o[15]];
        q := carry;
      }
    }
  }

  /** Limbs 1..15 lie in [0, 2^16) and limb 0 within 38 of it. */
  ghost predicate Reduced(s: seq<int64>)
  {
    |s| == 16 && -38 <= s[0] <= 65535 + 38 && forall i | 1 <= i < 16 :: 0 <= s[i] < LIMB
  }

  /** The relation between the limbs before and after a carry pass. */
  ghost predicate Carried(start: seq<int64>, digits: seq<int64>, q: int, result: seq<int64>)
  {
    && |start| == |digits| == |result| == 16 && Canonical(digits)
    && Val(start) == Val(digits) + q * Weight(16)
    && result[0] as int == digits[0] as int + 38 * q && result[1..] == digits[1..]
  }

  lemma CarriedValue(start: seq<int64>, digits: seq<int64>, q: int, result: seq<int64>)
    requires Carried(start, digits, q, result)
    ensures Val(result) == Val(start) - P * (2 * q) && Cong(Val(result), Val(start))
    ensures Val(result) == Val(digits) + 38 * q
  {
    hide Weight, Val;
    WeightOfAll();
    assert result == digits[0 := result[0]];
    ValUpdate(digits, 0, result[0]);
    WeightZero();
    CongWitness(Val(result), Val(start), -(2 * q));
  }

  lemma WeightZero()
    ensures Weight(0) == 1
  {
  }

  /** The value of limbs that are canonical except for limb 0. */
  lemma NearCanonicalValue(s: seq<int64>) returns (base: seq<int64>)
    requires |s| == 16 && forall i | 1 <= i < 16 :: 0 <= s[i] < LIMB
    ensures |base| == 16 && Canonical(base) && base[0] == 0 && Val(s) == Val(base) + s[0] as int
    ensures 0 <= Val(base) <= Weight(16) - 65536
  {
    hide Weight;
    base := s[0 := 0];
    ValUpdate(base, 0, s[0]);
    WeightZero();
    assert base[0 := s[0]] == s;
    CanonicalBound(base);
    var top := base[0 := 65535];
    CanonicalBound(top);
    ValUpdate(base, 0, 65535);
  }

  /** A quotient by 2^256 is determined by the size of the dividend. */
  lemma QuotientBounds(v: int, d: int, q: int, w: int, lo: int, hi: int)
    requires v == d + q * w && 0 <= d < w && lo * w <= v < (hi + 1) * w
    ensures lo <= q <= hi
  {
    MulMonotone(q, lo - 1, w);
    MulMonotone(hi + 1, q, w);
  }

  /** Once limbs 1..15 are canonical, a pass leaves limb 0 within 38 of its range. */
  lemma CarryToReduced(start: seq<int64>, digits: seq<int64>, q: int, result: seq<int64>)
    requires Carried(start, digits, q, result)
    requires forall i | 1 <= i < 16 :: 0 <= start[i] < LIMB
    requires -0x20_0000_0000_0000 <= start[0] <= 0x20_0000_0000_0000
    ensures Reduced(result)
  {
    WeightOfAll();
    hide Weight, Val;
    var base := NearCanonicalValue(start);
    CanonicalBound(digits);
    QuotientBounds(Val(start), Val(digits), q, Weight(16), -1, 1);
    forall i | 1 <= i < 16 ensures 0 <= result[i] < LIMB { assert result[1..][i - 1] == digits[1..][i - 1]; }
  }

  lemma {:induction false} LowLimb(s: seq<int64>)
    requires |s| > 0 && Canonical(s)
    ensures s[0] as int == Val(s) % 65536
  {
    LowDigit(s[0] as int, Val(s[1..]));
  }

  lemma LowDigit(d: int, rest: int)
    requires 0 <= d < 65536
    ensures (d + 65536 * rest) % 65536 == d
  {
  }

  /** One more pass makes reduced limbs canonical. */
  lemma CarryToCanonical(start: seq<int64>, digits: seq<int64>, q: int, result: seq<int64>)
    requires Carried(start, digits, q, result) && Reduced(start)
    ensures Canonical(result)
  {
    WeightOfAll();
    hide Weight, Val;
    var base := NearCanonicalValue(start);
    CanonicalBound(digits);
    QuotientBounds(Val(start), Val(digits), q, Weight(16), -1, 1);
    LowLimb(digits);
    forall i | 1 <= i < 16 ensures 0 <= result[i] < LIMB { assert result[1..][i - 1] == digits[1..][i - 1]; }
    if q == -1 {
      assert Val(digits) >= Weight(16) - 38;
      assert Weight(16) == 65536 * (Weight(16) / 65536);
      assert digits[0] as int >= 65536 - 38;
    } else if q == 1 {
      assert 0 <= Val(digits) <= 37;
      assert digits[0] as int <= 37;
    }
  }

  // --------------------------------------------------------- multiplication

  const FACTOR: int := 0x400_0000    // 2^26
  const PRODUCT: int := 0x10_0000_0000_0000    // 2^52

  lemma ProductBound(x: int, y: int)
    requires -FACTOR <= x <= FACTOR && -FACTOR <= y <= FACTOR
    ensures -PRODUCT <= x * y <= PRODUCT
  {
    AbsProduct(x, y, FACTOR);
  }

  lemma AbsProduct(x: int, y: int, b: int)
    requires -b <= x <= b && -b <= y <= b
    ensures -(b * b) <= x * y <= b * b
  {
    if x >= 0 {
      MulMonotone(y, b, x);
      MulMonotone(-b, y, x);
      MulMonotone(x, b, b);
    } else {
      MulMonotone(y, b, -x);
      MulMonotone(-b, y, -x);
      MulMonotone(-x, b, b);
    }
  }

  /** One product a[i] * b[j] is added with weight 2^(16(i + j)). */
  lemma AddProduct(t: seq<int64>, i: nat, j: nat, x: int, y: int, v: int64)
    requires i + j < |t| && v as int == t[i + j] as int + x * y
    ensures Val(t[i + j := v]) == Val(t) + x * Weight(i) * (y * Weight(j))
  {
    ValUpdate(t, i + j, v);
    WeightAdd(i, j);
    Regroup(x, y, Weight(i), Weight(j));
  }

  lemma Regroup(x: int, y: int, u: int, v: int)
    ensures x * y * (u * v) == x * u * (y * v)
  {
  }

  /** Row i of the schoolbook product is finished. */
  lemma RowDone(a: seq<int64>, i: nat, total: int, bv: int)
    requires i < |a| && total == Val(a[..i]) * bv + a[i] as int * Weight(i) * bv
    ensures total == Val(a[..i + 1]) * bv
  {
    hide Val, Weight;
    ValSnoc(a, i);
    Distribute(Val(a[..i]), a[i] as int * Weight(i), bv);
  }

  /** The inner loop: row i of the product. */
  method AddRow(t: array<int64>, a: seq<int64>, b: seq<int64>, i: nat)
    requires t.Length == 31 && |a| == |b| == 16 && i < 16
    requires Within(a, FACTOR) && Within(b, FACTOR) && Within(t[..], i * PRODUCT)
    modifies t
    ensures Within(t[..], (i + 1) * PRODUCT)
    ensures Val(t[..]) == old(Val(t[..])) + a[i] as int * Weight(i) * Val(b)
  {
    hide Weight, Val;
    ghost var v0 := Val(t[..]);
    assert b[..0] == [];
    ValNil();
    for j := 0 to 16
      invariant forall k | 0 <= k < i + j :: -((i + 1) * PRODUCT) <= t[k] as int <= (i + 1) * PRODUCT
      invariant forall k | i + j <= k < 31 :: -(i * PRODUCT) <= t[k] as int <= i * PRODUCT
      invariant Val(t[..]) == v0 + a[i] as int * Weight(i) * Val(b[..j])
    {
      ghost var s := t[..];
      ProductBound(a[i] as int, b[j] as int);
      t[i + j] := t[i + j] + a[i] * b[j];
      AddProduct(s, i, j, a[i] as int, b[j] as int, t[i + j]);
      assert t[..] == s[i + j := t[i + j]];
      ValSnoc(b, j);
      Distribute(Val(b[..j]), b[j] as int * Weight(j), a[i] as int * Weight(i));
    }
    assert b[..16] == b;
  }

  lemma ValNil()
    ensures Val([]) == 0
  {
  }

  /** The schoolbook product of two field elements. */
  method Convolve(t: array<int64>, a: seq<int64>, b: seq<int64>)
    requires t.Length == 31 && |a| == |b| == 16 && Within(a, FACTOR) && Within(b, FACTOR)
    requires forall k | 0 <= k < 31 :: t[k] == 0
    modifies t
    ensures Within(t[..], 16 * PRODUCT) && Val(t[..]) == Val(a) * Val(b)
  {
    hide Weight, Val;
    ValZero(t[..]);
    ValNil();
    assert a[..0] == [];
    for i := 0 to 16
      invariant Within(t[..], i * PRODUCT)
      invariant Val(t[..]) == Val(a[..i]) * Val(b)
    {
      AddRow(t, a, b, i);
      RowDone(a, i, Val(t[..]), Val(b));
    }
    assert a[..16] == a;
  }

  lemma {:induction false} ValZero(s: seq<int64>)
    requires forall k | 0 <= k < |s| :: s[k] == 0
    ensures Val(s) == 0
  {
    if s != [] { ValZero(s[1..]); }
  }

  /** The fold of the upper half: 2^256 is congruent to 38. */
  method Fold(t: array<int64>)
    requires t.Length == 31 && Within(t[..], 16 * PRODUCT)
    modifies t
    ensures Within(t[..16], 0x4000_0000_0000_0000)
    ensures Cong(Val(t[..16]), old(Val(t[..])))
  {
    hide Weight, Val;
    ghost var s0 := t[..];
    ghost var low, high := s0[..16], s0[16..];
    ValNil();
    assert high[..0] == [];
    for i := 0 to 15
      invariant forall k | i <= k < 31 :: t[k] == s0[k]
      invariant forall k | 0 <= k < i :: -(39 * 16 * PRODUCT) <= t[k] as int <= 39 * 16 * PRODUCT
      invariant Val(t[..16]) == Val(low) + 38 * Val(high[..i])
    {
      ghost var s := t[..16];
      t[i] := t[i] + 38 * t[i + 16];
      ValUpdate(s, i, t[i]);
      assert t[..16] == s[i := t[i]];
      assert t[i + 16] == high[i];
      ValSnoc(high, i);
      Scale38(high[i] as int, Weight(i));
    }
    assert high[..15] == high;
    ValSplit(s0, 16);
    WeightOfAll();
    CongWitness(Val(t[..16]), Val(s0), -(2 * Val(high)));
  }

  lemma Scale38(d: int, w: int)
    ensures 38 * (d * w) == (38 * d) * w
  {
  }

  /** M: the product modulo p, in reduced limbs. */
  method Multiply(a: seq<int64>, b: seq<int64>) returns (o: seq<int64>)
    requires |a| == |b| == 16 && Within(a, FACTOR) && Within(b, FACTOR)
    ensures Reduced(o) && Cong(Val(o), Val(a) * Val(b))
  {
    hide Weight, Val, Cong;
    var t := new int64[31](_ => 0);
    Convolve(t, a, b);
    Fold(t);
    var limbs := new int64[16](i requires 0 <= i < 31 reads t => t[i]);
    ghost var s0 := limbs[..];
    assert s0 == t[..16];
    ghost var digits, q := Car(limbs);
    ghost var s1 := limbs[..];
    CarriedValue(s0, digits, q, s1);
    forall i | 1 <= i < 16 ensures 0 <= s1[i] < LIMB { assert s1[1..][i - 1] == digits[1..][i - 1]; }
    digits, q := Car(limbs);
    o := limbs[..];
    CarriedValue(s1, digits, q, o);
    CarryToReduced(s1, digits, q, o);
    CongTrans(Val(o), Val(s1), Val(s0));
    CongTrans(Val(o), Val(s0), Val(a) * Val(b));
  }
}
