/**
 Unsigned machine words as natural numbers. The bitwise operators of C are defined
 by recursion on binary digits, so that masks built by shifting and subtracting can be
 related to the individual bits they select.
 */
module Words {
  import opened Bytes
  import Modular

  function Pow2(n: nat): (r: nat)
    ensures r >= 1
  {
    if n == 0 then 1 else 2 * Pow2(n - 1)
  }

  /** Bit `i` of `w`, counted from the least significant one. */
  predicate Bit(w: nat, i: nat)
  {
    if i == 0 then w % 2 == 1 else Bit(w / 2, i - 1)
  }

  function And(a: nat, b: nat): nat
  {
    if a == 0 then 0 else 2 * And(a / 2, b / 2) + (a % 2) * (b % 2)
  }

  function Xor(a: nat, b: nat): nat
    decreases a + b
  {
    if a == 0 && b == 0 then 0 else 2 * Xor(a / 2, b / 2) + (a + b) % 2
  }

  function Or(a: nat, b: nat): nat
  {
    if a == 0 then b else 2 * Or(a / 2, b / 2) + (if a % 2 == 1 || b % 2 == 1 then 1 else 0)
  }

  /** `~w` on a word of `n` bits. */
  function Not(w: nat, n: nat): nat
    requires w < Pow2(n)
  {
    Pow2(n) - 1 - w
  }

  /** `w << k` on a 64-bit word. */
  function Shl64(w: nat, k: nat): nat
  {
    (w * Pow2(k)) % W64
  }

  /** `w >> k` */
  function Shr(w: nat, k: nat): nat
  {
    if k == 0 then w else Shr(w / 2, k - 1)
  }

  /** `w << k` before truncation. */
  function Shl(w: nat, k: nat): nat
  {
    if k == 0 then w else 2 * Shl(w, k - 1)
  }

  function PopCount(w: nat): nat
  {
    if w == 0 then 0 else w % 2 + PopCount(w / 2)
  }

  /** Number of trailing zero bits; C leaves the zero word undefined. */
  function Ctz(w: nat): nat
    requires w != 0
  {
    if w % 2 == 1 then 0 else 1 + Ctz(w / 2)
  }

  lemma {:induction false} AndBit(a: nat, b: nat, i: nat)
    ensures Bit(And(a, b), i) <==> Bit(a, i) && Bit(b, i)
  {
    if a == 0 {
      ZeroBit(i);
    } else if i > 0 {
      assert And(a, b) / 2 == And(a / 2, b / 2);
      AndBit(a / 2, b / 2, i - 1);
    }
  }

  lemma {:induction false} OrBit(a: nat, b: nat, i: nat)
    ensures Bit(Or(a, b), i) <==> Bit(a, i) || Bit(b, i)
  {
    if a == 0 {
      ZeroBit(i);
    } else if i > 0 {
      assert Or(a, b) / 2 == Or(a / 2, b / 2);
      OrBit(a / 2, b / 2, i - 1);
    }
  }

  lemma {:induction false} ZeroBit(i: nat)
    ensures !Bit(0, i)
  {
    if i > 0 { ZeroBit(i - 1); }
  }

  lemma {:induction false} NotBit(w: nat, n: nat, i: nat)
    requires w < Pow2(n) && i < n
    ensures Bit(Not(w, n), i) <==> !Bit(w, i)
  {
    HalfComplement(w, Pow2(n - 1));
    if i > 0 {
      NotBit(w / 2, n - 1, i - 1);
    }
  }

  lemma HalfComplement(w: nat, p: nat)
    requires w < 2 * p
    ensures (2 * p - 1 - w) / 2 == p - 1 - w / 2
    ensures (2 * p - 1 - w) % 2 == 1 - w % 2
  {
  }

  lemma {:induction false} AndBound(a: nat, b: nat)
    ensures And(a, b) <= a && And(a, b) <= b
  {
    if a != 0 {
      AndBound(a / 2, b / 2);
    }
  }

  lemma {:induction false} OrBound(a: nat, b: nat, n: nat)
    requires a < Pow2(n) && b < Pow2(n)
    ensures Or(a, b) < Pow2(n)
  {
    if a != 0 {
      assert n > 0;
      OrBound(a / 2, b / 2, n - 1);
    }
  }

  /** `2^e - 1` has exactly the bits below `e`. */
  lemma {:induction false} LowMaskBit(e: nat, i: nat)
    ensures Bit(Pow2(e) - 1, i) <==> i < e
  {
    if e == 0 {
      ZeroBit(i);
    } else if i > 0 {
      assert (Pow2(e) - 1) / 2 == Pow2(e - 1) - 1;
      LowMaskBit(e - 1, i - 1);
    }
  }

  /** `2^n - 2^f` has exactly the bits from `f` up to but not including `n`. */
  lemma {:induction false} HighMaskBit(n: nat, f: nat, i: nat)
    requires f <= n
    ensures Pow2(f) <= Pow2(n)
    ensures Bit(Pow2(n) - Pow2(f), i) <==> f <= i < n
  {
    if f == 0 {
      LowMaskBit(n, i);
    } else {
      HighMaskBit(n - 1, f - 1, if i > 0 then i - 1 else 0);
      if i > 0 {
        assert (Pow2(n) - Pow2(f)) / 2 == Pow2(n - 1) - Pow2(f - 1);
      }
    }
  }

  lemma {:induction false} OneBit(k: nat, i: nat)
    ensures Bit(Pow2(k), i) <==> i == k
  {
    if k == 0 {
      if i > 0 { ZeroBit(i - 1); }
    } else if i > 0 {
      assert Pow2(k) / 2 == Pow2(k - 1);
      OneBit(k - 1, i - 1);
    }
  }

  lemma {:induction false} BitBound(w: nat, n: nat, i: nat)
    requires w < Pow2(n) && n <= i
    ensures !Bit(w, i)
  {
    if n == 0 {
      ZeroBit(i);
    } else {
      BitBound(w / 2, n - 1, i - 1);
    }
  }

  /** A word is zero exactly when none of its bits is set. */
  lemma {:induction false} NonZeroHasBit(w: nat)
    requires w != 0
    ensures Bit(w, Ctz(w))
    ensures forall i: nat | i < Ctz(w) :: !Bit(w, i)
  {
    if w % 2 == 0 {
      NonZeroHasBit(w / 2);
      forall i: nat | i < Ctz(w) ensures !Bit(w, i) {
        if i > 0 { assert !Bit(w / 2, i - 1); }
      }
    }
  }

  /** `w & (1 << k)` is non-zero exactly when bit `k` is set. */
  lemma TestBit(w: nat, k: nat)
    ensures And(w, Pow2(k)) != 0 <==> Bit(w, k)
  {
    var m := And(w, Pow2(k));
    AndBit(w, Pow2(k), k);
    OneBit(k, k);
    ZeroBit(k);
    if m != 0 {
      NonZeroHasBit(m);
      AndBit(w, Pow2(k), Ctz(m));
      OneBit(k, Ctz(m));
    }
  }

  lemma Pow2Values()
    ensures Pow2(16) == 0x1_0000 && Pow2(32) == 0x1_0000_0000 && Pow2(64) == W64
  {
    assert Pow2(8) == 256;
    assert Pow2(16) == 0x1_0000;
    assert Pow2(24) == 0x100_0000;
    assert Pow2(32) == 0x1_0000_0000;
    assert Pow2(40) == 0x100_0000_0000;
    assert Pow2(48) == 0x1_0000_0000_0000;
    assert Pow2(56) == 0x100_0000_0000_0000;
  }

  lemma {:induction false} Pow2Monotone(a: nat, b: nat)
    requires a <= b
    ensures Pow2(a) <= Pow2(b)
    decreases b
  {
    if a < b { Pow2Monotone(a, b - 1); }
  }

  lemma {:induction false} Pow2Add(a: nat, b: nat)
    ensures Pow2(a + b) == Pow2(a) * Pow2(b)
  {
    if a > 0 {
      Pow2Add(a - 1, b);
      assert Pow2(a + b) == 2 * Pow2(a - 1 + b);
    }
  }

  /** Bits of a number that is composed of a low part of `n` bits and a high part. */
  lemma {:induction false} BitConcat(lo: nat, hi: nat, n: nat, i: nat)
    requires lo < Pow2(n)
    ensures Bit(lo + Pow2(n) * hi, i) <==> if i < n then Bit(lo, i) else Bit(hi, i - n)
  {
    if n > 0 {
      var p := Pow2(n - 1);
      HalveConcat(lo, p * hi);
      assert Pow2(n) * hi == 2 * (p * hi);
      if i > 0 { BitConcat(lo / 2, hi, n - 1, i - 1); }
    }
  }

  lemma HalveConcat(lo: nat, h: nat)
    ensures (lo + 2 * h) / 2 == lo / 2 + h && (lo + 2 * h) % 2 == lo % 2
  {
  }

  lemma {:induction false} ShrIsDiv(w: nat, k: nat)
    ensures Shr(w, k) == w / Pow2(k)
  {
    if k > 0 {
      ShrIsDiv(w / 2, k - 1);
      DivModHalf(w, Pow2(k - 1));
    }
  }

  lemma {:induction false} ShlIsMul(w: nat, k: nat)
    ensures Shl(w, k) == w * Pow2(k)
  {
    if k > 0 {
      ShlIsMul(w, k - 1);
      DoubleProduct(w, Pow2(k - 1));
    }
  }

  /** Masking with `2^n - 1` is reduction modulo `2^n`. */
  lemma {:induction false} AndMask(x: nat, n: nat)
    ensures And(x, Pow2(n) - 1) == x % Pow2(n)
  {
    if n == 0 {
      AndBound(x, 0);
    } else {
      AndMask(x / 2, n - 1);
      AndOddMask(x, Pow2(n - 1));
      DivModHalf(x, Pow2(n - 1));
    }
  }

  lemma AndOddMask(x: nat, p: nat)
    requires p >= 1
    ensures And(x, 2 * p - 1) == 2 * And(x / 2, p - 1) + x % 2
  {
    assert (2 * p - 1) / 2 == p - 1 && (2 * p - 1) % 2 == 1;
  }

  lemma DoubleProduct(w: nat, p: nat)
    ensures w * (2 * p) == 2 * (w * p)
  {
  }

  lemma DivModHalf(x: nat, p: nat)
    requires p >= 1
    ensures x / (2 * p) == (x / 2) / p
    ensures x % (2 * p) == 2 * ((x / 2) % p) + x % 2
  {
    var q, r := (x / 2) / p, (x / 2) % p;
    assert x / 2 == p * q + r;
    assert x == (2 * p) * q + (2 * r + x % 2);
    Modular.ModUnique(x, 2 * p, q, 2 * r + x % 2);
  }

  /** `&` works on the low and the high part separately. */
  lemma {:induction false} AndConcat(a: nat, b: nat, c: nat, d: nat, n: nat)
    requires a < Pow2(n) && c < Pow2(n)
    ensures And(a + Pow2(n) * b, c + Pow2(n) * d) == And(a, c) + Pow2(n) * And(b, d)
  {
    hide And;
    if n == 0 {
      AndBound(0, 0);
    } else {
      var p := Pow2(n - 1);
      AndConcat(a / 2, b, c / 2, d, n - 1);
      DoubleTwice(p, b);
      DoubleTwice(p, d);
      DoubleTwice(p, And(b, d));
      AndHalves(a, c, p * b, p * d, p * And(b, d));
    }
  }

  lemma DoubleTwice(p: nat, b: nat)
    ensures (2 * p) * b == 2 * (p * b)
  {
  }

  lemma AndHalves(a: nat, c: nat, x: nat, y: nat, z: nat)
    requires And(a / 2 + x, c / 2 + y) == And(a / 2, c / 2) + z
    ensures And(a + 2 * x, c + 2 * y) == And(a, c) + 2 * z
  {
    hide And;
    HalveConcat(a, x);
    HalveConcat(c, y);
    AndStep(a + 2 * x, c + 2 * y);
    AndStep(a, c);
  }

  lemma AndStep(a: nat, b: nat)
    ensures And(a, b) == 2 * And(a / 2, b / 2) + (a % 2) * (b % 2)
  {
  }

  lemma {:induction false} AndSelf(m: nat)
    ensures And(m, m) == m
  {
    if m > 0 {
      AndSelf(m / 2);
    }
  }

  /** A word with its lowest set bit removed is zero exactly for the powers of two. */
  lemma {:induction false} AndPredecessor(n: nat)
    requires n > 0
    ensures And(n, n - 1) == 0 <==> exists k: nat :: n == Pow2(k)
  {
    var m := n / 2;
    if n % 2 == 0 {
      assert (n - 1) / 2 == m - 1 && (n - 1) % 2 == 1;
      AndPredecessor(m);
      if And(n, n - 1) == 0 {
        var k: nat :| m == Pow2(k);
        assert n == Pow2(k + 1);
      }
      if k: nat :| n == Pow2(k) {
        assert k > 0 && m == Pow2(k - 1);
      }
    } else {
      assert (n - 1) / 2 == m && (n - 1) % 2 == 0;
      AndSelf(m);
      if m == 0 {
        assert n == Pow2(0);
      }
    }
  }

  /** Bits that do not overlap: `|` is addition. */
  lemma {:induction false} OrDisjoint(a: nat, b: nat, n: nat)
    requires a < Pow2(n)
    ensures Or(a, Pow2(n) * b) == a + Pow2(n) * b
  {
    if a > 0 {
      assert n > 0;
      var p := Pow2(n - 1);
      assert Pow2(n) * b == 2 * (p * b);
      OrDisjoint(a / 2, b, n - 1);
      assert (2 * (p * b)) / 2 == p * b;
    }
  }

  /** Setting the top bit of a word of `n + 1` bits. */
  lemma {:induction false} OrTop(y: nat, n: nat)
    requires y < 2 * Pow2(n)
    ensures Or(y, Pow2(n)) == Pow2(n) + y % Pow2(n)
  {
    if n == 0 {
      assert y == 0 || y == 1;
    } else {
      var p := Pow2(n - 1);
      OrTop(y / 2, n - 1);
      DivModHalf(y, p);
      assert (2 * p) / 2 == p && (2 * p) % 2 == 0;
    }
  }

  /** Number of set bits of `w` below position `n`, counted from the top down. */
  function BitsBelow(w: nat, n: nat): nat
  {
    if n == 0 then 0 else BitsBelow(w, n - 1) + (if Bit(w, n - 1) then 1 else 0)
  }

  lemma {:induction false} BitsBelowHalf(w: nat, n: nat)
    requires n > 0
    ensures BitsBelow(w, n) == w % 2 + BitsBelow(w / 2, n - 1)
  {
    if n > 1 { BitsBelowHalf(w, n - 1); }
  }

  lemma {:induction false} PopCountIsBitsBelow(w: nat, n: nat)
    requires w < Pow2(n)
    ensures BitsBelow(w, n) == PopCount(w)
  {
    if n > 0 {
      BitsBelowHalf(w, n);
      PopCountIsBitsBelow(w / 2, n - 1);
    }
  }

  predicate BitAt(base: nat, w: nat, f: nat)
  {
    base <= f && Bit(w, f - base)
  }

  /** The positions `base + i` of the set bits `i < n` of a word. */
  ghost function BitSet(base: nat, w: nat, n: nat): set<nat>
  {
    set f: nat | f < base + n && BitAt(base, w, f)
  }

  lemma {:induction false} BitSetCardinality(base: nat, w: nat, n: nat)
    ensures |BitSet(base, w, n)| == BitsBelow(w, n)
  {
    if n == 0 {
      assert BitSet(base, w, n) == {};
    } else {
      BitSetCardinality(base, w, n - 1);
      var top := if Bit(w, n - 1) then {base + n - 1} else {};
      assert BitSet(base, w, n) == BitSet(base, w, n - 1) + top;
    }
  }

  // ------------------------------------------------------------ exclusive or

  lemma {:induction false} XorZero(a: nat)
    ensures Xor(a, 0) == a
  {
    if a > 0 { XorZero(a / 2); }
  }

  /** Applying the difference of two words to one of them gives the other. */
  lemma {:induction false} XorBack(a: nat, b: nat)
    ensures Xor(a, Xor(a, b)) == b && Xor(b, Xor(a, b)) == a
    decreases a + b
  {
    hide Xor;
    XorZero(0);
    if a + b > 0 {
      XorBack(a / 2, b / 2);
      XorHalf(a, b);
      XorHalf(a, Xor(a, b));
      XorHalf(b, Xor(a, b));
    }
  }

  lemma XorHalf(a: nat, b: nat)
    ensures Xor(a, b) / 2 == Xor(a / 2, b / 2) && Xor(a, b) % 2 == (a + b) % 2
  {
  }

  lemma {:induction false} XorBound(a: nat, b: nat, n: nat)
    requires a < Pow2(n) && b < Pow2(n)
    ensures Xor(a, b) < Pow2(n)
  {
    if n > 0 {
      XorBound(a / 2, b / 2, n - 1);
    }
  }
}
