/** Arithmetic modulo a prime: divisibility, inverses and Euclid's lemma. */
module PrimeField {
  import Bits

  predicate Divides(d: int, n: int)
    requires d != 0
  {
    n % d == 0
  }

  ghost predicate IsPrime(p: int) {
    p >= 2 && forall d :: 2 <= d < p ==> !Divides(d, p)
  }

  lemma PrimeAboveOne(p: int)
    requires IsPrime(p)
    ensures p > 1
  {
  }

  /** x and y name the same residue. */
  predicate Congruent(p: int, x: int, y: int)
    requires p > 0
  {
    Divides(p, x - y)
  }

  lemma MultipleDivides(p: int, k: int)
    requires p > 0
    ensures Divides(p, p * k)
  {
    Bits.QuotientUnique(p * k, p, k, 0);
  }

  lemma DividesQuotient(p: int, x: int) returns (k: int)
    requires p > 0 && Divides(p, x)
    ensures x == p * k
  {
    k := x / p;
  }

  lemma DividesSum(p: int, x: int, y: int)
    requires p > 0 && Divides(p, x) && Divides(p, y)
    ensures Divides(p, x + y) && Divides(p, x - y)
  {
    var j := DividesQuotient(p, x);
    var k := DividesQuotient(p, y);
    assert x + y == p * (j + k);
    assert x - y == p * (j - k);
    MultipleDivides(p, j + k);
    MultipleDivides(p, j - k);
  }

  lemma DividesProduct(p: int, x: int, y: int)
    requires p > 0 && Divides(p, x)
    ensures Divides(p, x * y) && Divides(p, y * x)
  {
    var j := DividesQuotient(p, x);
    Bits.MulAssoc(p, j, y);
    MultipleDivides(p, j * y);
  }

  /** A multiple of p smaller than p in absolute value is zero. */
  lemma SmallZero(p: int, x: int)
    requires p > 0 && Divides(p, x) && -p < x < p
    ensures x == 0
  {
    var k := DividesQuotient(p, x);
    Bits.SmallMultiple(p, k, x);
  }

  lemma ModCongruent(p: int, x: int)
    requires p > 0
    ensures 0 <= x % p < p && Congruent(p, x % p, x) && Congruent(p, x, x % p)
  {
    MultipleDivides(p, x / p);
    MultipleDivides(p, -(x / p));
    assert x - x % p == p * (x / p);
    assert x % p - x == p * -(x / p);
  }

  /** Residues in range are equal when congruent. */
  lemma CongruentUnique(p: int, x: int, y: int)
    requires p > 0 && 0 <= x < p && 0 <= y < p && Congruent(p, x, y)
    ensures x == y
  {
    SmallZero(p, x - y);
  }

  lemma CongruentSelf(p: int, x: int)
    requires p > 0
    ensures Congruent(p, x, x)
  {
  }

  lemma CongruentTransitive(p: int, x: int, y: int, z: int)
    requires p > 0 && Congruent(p, x, y) && Congruent(p, y, z)
    ensures Congruent(p, x, z)
  {
    DividesSum(p, x - y, y - z);
  }

  lemma CongruentSymmetric(p: int, x: int, y: int)
    requires p > 0 && Congruent(p, x, y)
    ensures Congruent(p, y, x)
  {
    DividesSum(p, 0, x - y);
  }

  lemma CongruentAdd(p: int, x: int, y: int, u: int, v: int)
    requires p > 0 && Congruent(p, x, y) && Congruent(p, u, v)
    ensures Congruent(p, x + u, y + v) && Congruent(p, x - u, y - v)
  {
    DividesSum(p, x - y, u - v);
    assert (x + u) - (y + v) == (x - y) + (u - v);
    assert (x - u) - (y - v) == (x - y) - (u - v);
  }

  lemma CongruentMul(p: int, x: int, y: int, u: int, v: int)
    requires p > 0 && Congruent(p, x, y) && Congruent(p, u, v)
    ensures Congruent(p, x * u, y * v)
  {
    DividesProduct(p, x - y, u);
    DividesProduct(p, u - v, y);
    DividesSum(p, (x - y) * u, y * (u - v));
    assert x * u - y * v == (x - y) * u + y * (u - v);
  }

  /** The inverse of a nonzero residue, from the division of p by a. */
  function Inverse(p: int, a: int): (r: int)
    requires IsPrime(p) && 0 < a < p
    ensures 0 < r < p && Congruent(p, a * r, 1)
    decreases a
  {
    if a == 1 then 1 else
      assert !Divides(a, p);
      var z := Inverse(p, p % a);
      InverseStep(p, a, z);
      (-(p / a) * z) % p
  }

  lemma InverseStep(p: int, a: int, z: int)
    requires p > 1 && 1 < a < p && Congruent(p, (p % a) * z, 1)
    ensures 0 < (-(p / a) * z) % p < p
    ensures Congruent(p, a * ((-(p / a) * z) % p), 1)
  {
    var q, m := p / a, p % a;
    var y := -q * z;
    // a * y == m * z - p * z
    assert a * y == m * z - p * z by {
      Bits.MulAssoc(a, -q, z);
      assert a * -q == m - p;
      assert (m - p) * z == m * z - p * z;
    }
    MultipleDivides(p, z);
    DividesSum(p, m * z - 1, p * z);
    assert Congruent(p, a * y, 1);
    ModCongruent(p, y);
    DividesSum(p, 0, 0);
    CongruentMul(p, a, a, y % p, y);
    CongruentTransitive(p, a * (y % p), a * y, 1);
    if y % p == 0 {
      SmallZero(p, a * 0 - 1);
    }
  }

  lemma Rotated(a: int, z: int, b: int)
    ensures (a * b) * z == a * (z * b)
  {
  }

  lemma DividesCongruent(p: int, x: int, y: int)
    requires p > 0 && Divides(p, x) && (Congruent(p, x, y) || Congruent(p, y, x))
    ensures Divides(p, y)
  {
    if Congruent(p, x, y) { DividesSum(p, x, x - y); } else { DividesSum(p, y - x, x); }
  }

  lemma ZeroResidue(p: int, a: int)
    requires p > 0 && a % p == 0
    ensures Divides(p, a)
  {
  }

  /** Euclid's lemma: a prime that divides a product divides a factor. */
  lemma Euclid(p: int, a: int, b: int)
    requires IsPrime(p) && Divides(p, a * b)
    ensures Divides(p, a) || Divides(p, b)
  {
    hide *;
    PrimeAboveOne(p);
    var m := a % p;
    ModCongruent(p, a);
    if m != 0 {
      var z := Inverse(p, m);
      // b == b * (m * z) == z * (a * b) == 0
      CongruentSelf(p, b);
      CongruentSelf(p, z * b);
      CongruentMul(p, m * z, 1, b, b);
      CongruentMul(p, m, a, z * b, z * b);
      Bits.MulAssoc(m, z, b);
      DividesProduct(p, a * b, z);
      Rotated(a, z, b);
      DividesCongruent(p, (a * b) * z, m * (z * b));
      DividesCongruent(p, m * (z * b), 1 * b);
    } else {
      ZeroResidue(p, a);
    }
  }
}
