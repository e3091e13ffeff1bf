/** An abstract commutative group, its multiples, and elements of known order. */
module Groups {
  import opened PrimeField

  /** The affine coordinates of a point. */
  type Coords = (int, int)

  datatype Group<!P> = Group(zero: P, add: (P, P) -> P, neg: P -> P)

  ghost predicate Abelian<P(!new)>(g: Group<P>) {
    && (forall x, y :: g.add(x, y) == g.add(y, x))
    && (forall x, y, z :: g.add(g.add(x, y), z) == g.add(x, g.add(y, z)))
    && (forall x :: g.add(x, g.zero) == x)
    && (forall x :: g.add(x, g.neg(x)) == g.zero)
  }

  // The laws at given elements: the lemmas below hide the quantified form.

  lemma Comm<P(!new)>(g: Group<P>, x: P, y: P)
    requires Abelian(g)
    ensures g.add(x, y) == g.add(y, x)
  {
  }

  lemma Assoc<P(!new)>(g: Group<P>, x: P, y: P, z: P)
    requires Abelian(g)
    ensures g.add(g.add(x, y), z) == g.add(x, g.add(y, z))
  {
  }

  lemma Unit<P(!new)>(g: Group<P>, x: P)
    requires Abelian(g)
    ensures g.add(x, g.zero) == x && g.add(g.zero, x) == x
  {
    assert g.add(x, g.zero) == g.add(g.zero, x);
  }

  lemma Inverses<P(!new)>(g: Group<P>, x: P)
    requires Abelian(g)
    ensures g.add(x, g.neg(x)) == g.zero && g.add(g.neg(x), x) == g.zero
  {
    assert g.add(x, g.neg(x)) == g.add(g.neg(x), x);
  }

  /** k times x, by repeated addition. */
  function Times<P>(g: Group<P>, k: nat, x: P): P {
    if k == 0 then g.zero else g.add(Times(g, k - 1, x), x)
  }

  lemma Cancel<P(!new)>(g: Group<P>, x: P, y: P, z: P)
    requires Abelian(g) && g.add(x, z) == g.add(y, z)
    ensures x == y
  {
    DifferenceUnique(g, g.add(x, z), z, x);
    DifferenceUnique(g, g.add(y, z), z, y);
  }

  /** z is the difference of x and y when adding y to it gives x. */
  lemma DifferenceUnique<P(!new)>(g: Group<P>, x: P, y: P, z: P)
    requires Abelian(g) && g.add(z, y) == x
    ensures z == g.add(x, g.neg(y))
  {
    hide Abelian;
    Assoc(g, z, y, g.neg(y));
    Inverses(g, y);
    Unit(g, z);
  }

  lemma TimesOne<P(!new)>(g: Group<P>, x: P)
    requires Abelian(g)
    ensures Times(g, 1, x) == x
  {
    hide Abelian;
    assert Times(g, 0, x) == g.zero;
    Unit(g, x);
  }

  lemma {:induction false} TimesAdd<P(!new)>(g: Group<P>, j: nat, k: nat, x: P)
    requires Abelian(g)
    ensures g.add(Times(g, j, x), Times(g, k, x)) == Times(g, j + k, x)
  {
    hide Abelian;
    if k == 0 {
      Unit(g, Times(g, j, x));
    } else {
      TimesAdd(g, j, k - 1, x);
      Assoc(g, Times(g, j, x), Times(g, k - 1, x), x);
    }
  }

  lemma {:induction false} TimesMul<P(!new)>(g: Group<P>, j: nat, k: nat, x: P)
    requires Abelian(g)
    ensures j * k >= 0 && Times(g, j, Times(g, k, x)) == Times(g, j * k, x)
  {
    hide Abelian;
    if j == 0 {
      assert j * k == 0;
    } else {
      TimesMul(g, j - 1, k, x);
      assert (j - 1) * k + k == j * k;
      TimesAdd(g, (j - 1) * k, k, x);
    }
  }

  /** Multiplying by a number respects sums. */
  lemma {:induction false} TimesSum<P(!new)>(g: Group<P>, k: nat, x: P, y: P)
    requires Abelian(g)
    ensures Times(g, k, g.add(x, y)) == g.add(Times(g, k, x), Times(g, k, y))
  {
    hide Abelian;
    if k == 0 {
      Unit(g, g.zero);
    } else {
      TimesSum(g, k - 1, x, y);
      Interchange(g, Times(g, k - 1, x), Times(g, k - 1, y), x, y);
    }
  }

  lemma {:induction false} TimesZero<P(!new)>(g: Group<P>, k: nat)
    requires Abelian(g)
    ensures Times(g, k, g.zero) == g.zero
  {
    if k > 0 { TimesZero(g, k - 1); }
  }

  /** Factors may be taken in either order. */
  lemma TimesSwap<P(!new)>(g: Group<P>, j: nat, k: nat, x: P)
    requires Abelian(g)
    ensures Times(g, j, Times(g, k, x)) == Times(g, k, Times(g, j, x))
  {
    hide Abelian, Times;
    TimesMul(g, j, k, x);
    TimesMul(g, k, j, x);
  }

  /** The multiples of x that vanish are exactly those by multiples of n. */
  ghost predicate HasOrder<P(!new)>(g: Group<P>, x: P, n: nat) {
    n > 0 && forall k: nat :: Times(g, k, x) == g.zero <==> Divides(n, k)
  }

  lemma OrderAt<P(!new)>(g: Group<P>, x: P, n: nat, k: nat)
    requires HasOrder(g, x, n)
    ensures n > 0 && (Times(g, k, x) == g.zero <==> Divides(n, k))
  {
  }

  lemma TimesEqual<P(!new)>(g: Group<P>, x: P, n: nat, j: nat, k: nat)
    requires Abelian(g) && HasOrder(g, x, n)
    ensures Times(g, j, x) == Times(g, k, x) <==> Congruent(n, j, k)
  {
    hide Abelian, Times;
    if j >= k {
      TimesEqualOrdered(g, x, n, j, k);
    } else {
      TimesEqualOrdered(g, x, n, k, j);
      if Congruent(n, j, k) { CongruentSymmetric(n, j, k); }
      if Congruent(n, k, j) { CongruentSymmetric(n, k, j); }
    }
  }

  lemma TimesEqualOrdered<P(!new)>(g: Group<P>, x: P, n: nat, j: nat, k: nat)
    requires Abelian(g) && HasOrder(g, x, n) && j >= k
    ensures Times(g, j, x) == Times(g, k, x) <==> Congruent(n, j, k)
  {
    hide Abelian, Times;
    TimesAdd(g, j - k, k, x);
    OrderAt(g, x, n, j - k);
    Unit(g, Times(g, k, x));
    if Times(g, j, x) == Times(g, k, x) {
      Cancel(g, Times(g, j - k, x), g.zero, Times(g, k, x));
    }
  }

  // ------------------------------------------------------ integer multiples

  function TimesInt<P>(g: Group<P>, k: int, x: P): P {
    if k >= 0 then Times(g, k, x) else g.neg(Times(g, -k, x))
  }

  lemma TimesDifference<P(!new)>(g: Group<P>, j: nat, m: nat, x: P)
    requires Abelian(g) && j >= m
    ensures Times(g, j - m, x) == g.add(Times(g, j, x), g.neg(Times(g, m, x)))
  {
    hide Abelian;
    var k: nat := j - m;
    TimesAdd(g, k, m, x);
    assert k + m == j;
    assert g.add(Times(g, k, x), Times(g, m, x)) == Times(g, j, x);
    DifferenceUnique(g, Times(g, j, x), Times(g, m, x), Times(g, k, x));
  }

  lemma TimesIntNegative<P>(g: Group<P>, k: int, x: P)
    requires k < 0
    ensures TimesInt(g, k, x) == g.neg(Times(g, 0 - k, x))
  {
  }

  lemma NegatedDifference<P(!new)>(g: Group<P>, j: nat, m: nat, x: P)
    requires Abelian(g) && j < m
    ensures g.neg(Times(g, m - j, x)) == g.add(Times(g, j, x), g.neg(Times(g, m, x)))
  {
    hide Abelian, Times;
    TimesDifference(g, m, j, x);
    NegativeDifference(g, Times(g, m, x), Times(g, j, x));
  }

  /** Any way to write k as a difference gives its multiple. */
  lemma TimesIntDifference<P(!new)>(g: Group<P>, j: nat, m: nat, x: P)
    requires Abelian(g)
    ensures TimesInt(g, j - m, x) == g.add(Times(g, j, x), g.neg(Times(g, m, x)))
  {
    hide Abelian, Times;
    if j >= m {
      TimesDifference(g, j, m, x);
    } else {
      TimesIntNegative(g, j - m, x);
      NegatedDifference(g, j, m, x);
      assert 0 - (j - m) == m - j;
    }
  }

  lemma NegativeDifference<P(!new)>(g: Group<P>, m: P, j: P)
    requires Abelian(g)
    ensures g.neg(g.add(m, g.neg(j))) == g.add(j, g.neg(m))
  {
    hide Abelian;
    var d := g.add(m, g.neg(j));
    Assoc(g, m, g.neg(j), j);
    Inverses(g, j);
    Unit(g, m);
    NegativePart(g, d, j, m);
  }

  /** When d + j == m, the inverse of d is j - m. */
  lemma NegativePart<P(!new)>(g: Group<P>, d: P, j: P, m: P)
    requires Abelian(g) && g.add(d, j) == m
    ensures g.neg(d) == g.add(j, g.neg(m))
  {
    hide Abelian;
    Assoc(g, g.neg(d), d, j);
    Inverses(g, d);
    Unit(g, j);
    DifferenceUnique(g, j, m, g.neg(d));
  }

  lemma TimesIntAdd<P(!new)>(g: Group<P>, j: int, k: int, x: P)
    requires Abelian(g)
    ensures g.add(TimesInt(g, j, x), TimesInt(g, k, x)) == TimesInt(g, j + k, x)
  {
    hide Abelian, Times, TimesInt;
    var a: nat, b: nat := if j >= 0 then j else 0, if j >= 0 then 0 else -j;
    var c: nat, d: nat := if k >= 0 then k else 0, if k >= 0 then 0 else -k;
    TimesIntDifference(g, a, b, x);
    TimesIntDifference(g, c, d, x);
    TimesIntDifference(g, a + c, b + d, x);
    TimesAdd(g, a, c, x);
    TimesAdd(g, b, d, x);
    SumOfDifferences(g, Times(g, a, x), Times(g, b, x), Times(g, c, x), Times(g, d, x));
  }

  lemma SumOfDifferences<P(!new)>(g: Group<P>, a: P, b: P, c: P, d: P)
    requires Abelian(g)
    ensures g.add(g.add(a, g.neg(b)), g.add(c, g.neg(d))) == g.add(g.add(a, c), g.neg(g.add(b, d)))
  {
    hide Abelian;
    var x, y := g.add(a, g.neg(b)), g.add(c, g.neg(d));
    Interchange(g, x, y, b, d);
    Assoc(g, a, g.neg(b), b);
    Assoc(g, c, g.neg(d), d);
    Inverses(g, b);
    Inverses(g, d);
    Unit(g, a);
    Unit(g, c);
    DifferenceUnique(g, g.add(a, c), g.add(b, d), g.add(x, y));
  }

  lemma Interchange<P(!new)>(g: Group<P>, x: P, y: P, b: P, d: P)
    requires Abelian(g)
    ensures g.add(g.add(x, y), g.add(b, d)) == g.add(g.add(x, b), g.add(y, d))
  {
    hide Abelian;
    Assoc(g, x, y, g.add(b, d));
    Assoc(g, y, b, d);
    Comm(g, y, b);
    Assoc(g, b, y, d);
    Assoc(g, x, b, g.add(y, d));
  }

  /** Equal integer multiples differ by a multiple of the order. */
  lemma TimesIntEqual<P(!new)>(g: Group<P>, x: P, n: nat, j: int, k: int)
    requires Abelian(g) && HasOrder(g, x, n) && TimesInt(g, j, x) == TimesInt(g, k, x)
    ensures Divides(n, j - k)
  {
    hide Abelian, Times;
    TimesIntAdd(g, j, -k, x);
    TimesIntAdd(g, k, -k, x);
    var m := j - k;
    assert TimesInt(g, 0, x) == g.zero by { OrderAt(g, x, n, 0); DividesSum(n, n, n); }
    if m >= 0 {
      OrderAt(g, x, n, m);
    } else {
      TimesIntAdd(g, m, -m, x);
      TimesIntAdd(g, 0, -m, x);
      assert TimesInt(g, -m, x) == Times(g, -m, x);
      OrderAt(g, x, n, -m);
      DividesSum(n, 0, -m);
    }
  }
}
