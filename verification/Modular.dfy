/** Congruences of integers. */
module Modular {

  ghost predicate Congruent(x: int, y: int, m: int)
    requires m > 0
  {
    (x - y) % m == 0
  }

  lemma MultipleMod(k: int, m: int)
    requires m > 0
    ensures (m * k) % m == 0
  {
    var q, r := (m * k) / m, (m * k) % m;
    assert m * k == m * q + r;
    assert m * (k - q) == r;
    MulBound(k - q, m);
  }

  lemma MulBound(d: int, m: int)
    requires m > 0
    ensures d >= 1 ==> m * d >= m
    ensures d <= -1 ==> m * d <= -m
  {
  }

  lemma MulMonotone(a: int, b: int, w: int)
    requires w >= 0
    ensures a <= b ==> a * w <= b * w
  {
  }

  lemma Distribute(x: int, y: int, z: int)
    ensures (x + y) * z == x * z + y * z && z * (x + y) == z * x + z * y
  {
  }

  lemma Witness(x: int, y: int, m: int, k: int)
    requires m > 0 && x == y + m * k
    ensures Congruent(x, y, m)
  {
    MultipleMod(k, m);
  }

  lemma Quotient(x: int, y: int, m: int) returns (k: int)
    requires m > 0 && Congruent(x, y, m)
    ensures x == y + m * k
  {
    k := (x - y) / m;
  }

  lemma Trans(x: int, y: int, z: int, m: int)
    requires m > 0 && Congruent(x, y, m) && Congruent(y, z, m)
    ensures Congruent(x, z, m)
  {
    var j := Quotient(x, y, m);
    var k := Quotient(y, z, m);
    Distribute(j, k, m);
    Witness(x, z, m, j + k);
  }

  lemma Sym(x: int, y: int, m: int)
    requires m > 0 && Congruent(x, y, m)
    ensures Congruent(y, x, m)
  {
    var k := Quotient(x, y, m);
    Witness(y, x, m, -k);
  }

  lemma Add(x: int, y: int, u: int, v: int, m: int)
    requires m > 0 && Congruent(x, y, m) && Congruent(u, v, m)
    ensures Congruent(x + u, y + v, m) && Congruent(x - u, y - v, m)
  {
    var j := Quotient(x, y, m);
    var k := Quotient(u, v, m);
    Distribute(j, k, m);
    Distribute(j, -k, m);
    Witness(x + u, y + v, m, j + k);
    Witness(x - u, y - v, m, j - k);
  }

  lemma Mul(x: int, y: int, u: int, v: int, m: int)
    requires m > 0 && Congruent(x, y, m) && Congruent(u, v, m)
    ensures Congruent(x * u, y * v, m)
  {
    var j := Quotient(x, y, m);
    var k := Quotient(u, v, m);
    MulExpand(x, y, u, v, j, k, m);
    Witness(x * u, y * v, m, y * k + j * v + m * j * k);
  }

  lemma MulExpand(x: int, y: int, u: int, v: int, j: int, k: int, m: int)
    requires x == y + m * j && u == v + m * k
    ensures x * u == y * v + m * (y * k + j * v + m * j * k)
  {
  }

  /** A remainder is determined by any quotient that leaves something in range. */
  lemma ModUnique(v: int, m: int, q: int, r: int)
    requires m > 0 && 0 <= r < m && v == m * q + r
    ensures v % m == r && v / m == q
  {
    var q', r' := v / m, v % m;
    assert v == m * q' + r';
    assert m * (q - q') == r' - r;
    MulBound(q - q', m);
  }

  lemma SmallDifference(d: int, m: int)
    requires m > 0 && -m < d < m && d % m == 0
    ensures d == 0
  {
  }
}
