/**
 The precomputed tables for fixed-base multiplication and for the Pedersen
 hash (sapling_constants.rs), over an abstract commutative group.
 */
module FixedBase {
  import opened Wrappers
  import opened Bits
  import opened PrimeField
  import opened Groups

  const FIXED_BASE_CHUNKS_PER_GENERATOR: nat := 84
  const PEDERSEN_HASH_CHUNKS_PER_GENERATOR: nat := 63

  /** b to the power w. */
  function Power(b: nat, w: nat): (r: nat)
    requires b > 0
    ensures r > 0
  {
    if w == 0 then 1 else b * Power(b, w - 1)
  }

  lemma PowerZero(b: nat)
    requires b > 0
    ensures Power(b, 0) == 1
  {
  }

  lemma PowerStep(b: nat, w: nat)
    requires b > 0
    ensures Power(b, w + 1) == b * Power(b, w)
  {
  }

  // -------------------------------------------------- fixed-base windows

  /** Entry k of window w: k * 8^w times the generator. */
  function WindowPoint<P>(g: Group<P>, gen: P, w: nat, k: nat): P {
    Times(g, k, Times(g, Power(8, w), gen))
  }

  /** One window over its base: the identity's coordinates, then seven multiples; also the next base. */
  method GenerateWindow<P(!new)>(g: Group<P>, affine: P -> Coords, base: P)
    returns (coeffs: seq<Coords>, next: P)
    requires Abelian(g) && affine(g.zero) == (0, 1)
    ensures |coeffs| == 8 && forall k :: 0 <= k < 8 ==> coeffs[k] == affine(Times(g, k, base))
    ensures next == Times(g, 8, base)
  {
    hide Abelian;
    coeffs := [(0, 1)];
    var acc := base;
    TimesOne(g, base);
    assert Times(g, 0, base) == g.zero;
    for i := 0 to 7
      invariant acc == Times(g, i + 1, base)
      invariant |coeffs| == i + 1 && forall k :: 0 <= k <= i ==> coeffs[k] == affine(Times(g, k, base))
    {
      coeffs := coeffs + [affine(acc)];
      acc := g.add(acc, base);
    }
    next := acc;
  }

  method GenerateCircuitGenerator<P(!new)>(g: Group<P>, affine: P -> Coords, generator: P)
    returns (windows: seq<seq<Coords>>)
    requires Abelian(g) && affine(g.zero) == (0, 1)
    ensures |windows| == FIXED_BASE_CHUNKS_PER_GENERATOR
    ensures forall w :: 0 <= w < |windows| ==> |windows[w]| == 8
    ensures forall w, k :: 0 <= w < |windows| && 0 <= k < 8 ==>
      windows[w][k] == affine(WindowPoint(g, generator, w, k))
  {
    hide Abelian, Times, Power;
    windows := [];
    PowerZero(8);
    var gen := generator;
    TimesOne(g, generator);
    for w := 0 to FIXED_BASE_CHUNKS_PER_GENERATOR
      invariant gen == Times(g, Power(8, w), generator)
      invariant |windows| == w && forall v :: 0 <= v < w ==> |windows[v]| == 8
      invariant forall v, k :: 0 <= v < w && 0 <= k < 8 ==>
        windows[v][k] == affine(WindowPoint(g, generator, v, k))
    {
      var coeffs, next := GenerateWindow(g, affine, gen);
      windows := windows + [coeffs];
      PowerStep(8, w);
      TimesMul(g, 8, Power(8, w), generator);
      gen := next;
    }
  }

  /** The 3-bit digit of s that selects in window w. */
  function Digit(s: nat, w: nat): nat { (s / Power(8, w)) % 8 }

  /** The sum of the selected points of the first n windows. */
  function WindowSum<P>(g: Group<P>, gen: P, s: nat, n: nat): P {
    if n == 0 then g.zero else g.add(WindowSum(g, gen, s, n - 1), WindowPoint(g, gen, n - 1, Digit(s, n - 1)))
  }

  lemma EmptySum<P>(g: Group<P>, gen: P, s: nat)
    ensures WindowSum(g, gen, s, 0) == g.zero == Times(g, s % Power(8, 0), gen)
  {
    assert s % 1 == 0;
  }

  lemma WindowSumStep<P>(g: Group<P>, gen: P, s: nat, n: nat)
    requires n > 0
    ensures Digit(s, n - 1) == (s / Power(8, n - 1)) % 8
    ensures WindowSum(g, gen, s, n) ==
            g.add(WindowSum(g, gen, s, n - 1), Times(g, Digit(s, n - 1), Times(g, Power(8, n - 1), gen)))
  {
    hide Times, Power;
  }

  lemma DigitSplit(s: nat, n: nat)
    requires n > 0
    ensures s % Power(8, n) == s % Power(8, n - 1) + Digit(s, n - 1) * Power(8, n - 1)
  {
    hide Power;
    PowerStep(8, n - 1);
    LowDigits(s, Power(8, n - 1));
  }

  lemma {:induction false} WindowSumIs<P(!new)>(g: Group<P>, gen: P, s: nat, n: nat)
    requires Abelian(g)
    ensures WindowSum(g, gen, s, n) == Times(g, s % Power(8, n), gen)
  {
    hide *;
    if n == 0 {
      EmptySum(g, gen, s);
    } else {
      var b, d := Power(8, n - 1), Digit(s, n - 1);
      WindowSumIs(g, gen, s, n - 1);
      WindowSumStep(g, gen, s, n);
      TimesMul(g, d, b, gen);
      var m: nat := d * b;
      DigitSplit(s, n);
      TimesAdd(g, s % b, m, gen);
    }
  }

  lemma LowDigits(s: nat, b: nat)
    requires b > 0
    ensures s % b + ((s / b) % 8) * b == s % (8 * b)
  {
    var q, r := s / b, s % b;
    var k, d := q / 8, q % 8;
    assert s == (8 * b) * k + (d * b + r) by {
      assert s == b * q + r && q == 8 * k + d;
      assert b * (8 * k + d) == (8 * b) * k + d * b;
    }
    assert d * b + r < 8 * b by { MulMono(b, d, 7); }
    QuotientUnique(s, 8 * b, k, d * b + r);
  }

  /** The sum of a list of points. */
  function Sum<P>(g: Group<P>, points: seq<P>): P {
    if points == [] then g.zero else g.add(Sum(g, points[..|points| - 1]), points[|points| - 1])
  }

  /**
   The table computes multiples: for a scalar below 8^84, the points looked up
   by its digits, one in each window, add up to the scalar times the generator.
   */
  lemma TableComputesMultiples<P(!new)>(g: Group<P>, affine: P -> Coords, gen: P, windows: seq<seq<Coords>>,
                                        s: nat, points: seq<P>)
    requires Abelian(g) && (forall x, y :: affine(x) == affine(y) ==> x == y)
    requires |windows| == FIXED_BASE_CHUNKS_PER_GENERATOR == |points|
    requires forall w :: 0 <= w < |windows| ==> |windows[w]| == 8
    requires forall w, k :: 0 <= w < |windows| && 0 <= k < 8 ==> windows[w][k] == affine(WindowPoint(g, gen, w, k))
    requires s < Power(8, FIXED_BASE_CHUNKS_PER_GENERATOR)
    requires forall w :: 0 <= w < |points| ==> affine(points[w]) == windows[w][Digit(s, w)]
    ensures Sum(g, points) == Times(g, s, gen)
  {
    hide Abelian, WindowPoint, Power;
    forall w | 0 <= w < |points|
      ensures points[w] == WindowPoint(g, gen, w, Digit(s, w))
    {
      assert windows[w][Digit(s, w)] == affine(WindowPoint(g, gen, w, Digit(s, w)));
    }
    SumOfSelected(g, gen, s, points, |points|);
    assert points[..|points|] == points;
    WindowSumIs(g, gen, s, |points|);
    QuotientUnique(s, Power(8, |points|), 0, s);
  }

  lemma EightToSeven()
    ensures Power(8, 7) == 0x20_0000
  {
    assert Power(8, 4) == 4096 by { assert Power(8, 2) == 64; }
  }

  lemma PowerOfEight()
    ensures Power(8, 84) == 0x1000000000000000000000000000000000000000000000000000000000000000
    ensures Power(8, 83) == 0x200000000000000000000000000000000000000000000000000000000000000
  {
    hide Power;
    EightToSeven();
    PowerAdd(8, 7, 7);
    PowerAdd(8, 14, 7);
    PowerAdd(8, 21, 21);
    PowerAdd(8, 42, 42);
    PowerStep(8, 83);
  }

  /** The table has a window for every digit of a scalar, and one fewer would not do. */
  lemma WindowsSuffice()
    ensures JUBJUB_ORDER <= Power(8, FIXED_BASE_CHUNKS_PER_GENERATOR)
    ensures Power(8, FIXED_BASE_CHUNKS_PER_GENERATOR - 1) < JUBJUB_ORDER
  {
    hide Power;
    PowerOfEight();
  }

  /** Hence it computes the multiple by every scalar. */
  lemma TableComputesScalars<P(!new)>(g: Group<P>, affine: P -> Coords, gen: P, windows: seq<seq<Coords>>,
                                      s: nat, points: seq<P>)
    requires Abelian(g) && (forall x, y :: affine(x) == affine(y) ==> x == y)
    requires |windows| == FIXED_BASE_CHUNKS_PER_GENERATOR == |points|
    requires forall w :: 0 <= w < |windows| ==> |windows[w]| == 8
    requires forall w, k :: 0 <= w < |windows| && 0 <= k < 8 ==> windows[w][k] == affine(WindowPoint(g, gen, w, k))
    requires s < JUBJUB_ORDER
    requires forall w :: 0 <= w < |points| ==> affine(points[w]) == windows[w][Digit(s, w)]
    ensures Sum(g, points) == Times(g, s, gen)
  {
    hide Abelian, WindowPoint, Power, Digit;
    WindowsSuffice();
    TableComputesMultiples(g, affine, gen, windows, s, points);
  }

  lemma {:induction false} SumOfSelected<P(!new)>(g: Group<P>, gen: P, s: nat, points: seq<P>, n: nat)
    requires n <= |points| && forall w :: 0 <= w < n ==> points[w] == WindowPoint(g, gen, w, Digit(s, w))
    ensures Sum(g, points[..n]) == WindowSum(g, gen, s, n)
  {
    hide Times, Power, Digit;
    if n > 0 {
      SumOfSelected(g, gen, s, points, n - 1);
      assert points[..n][..n - 1] == points[..n - 1];
    }
  }

  // ------------------------------------------------------ Pedersen chunks

  /** Entry k of chunk w: (k + 1) * 16^w times the generator. */
  function ChunkPoint<P>(g: Group<P>, gen: P, w: nat, k: nat): P {
    Times(g, k + 1, Times(g, Power(16, w), gen))
  }

  /** x to the factor 16, by four doublings. */
  method FourDoublings<P(!new)>(g: Group<P>, x: P) returns (r: P)
    requires Abelian(g)
    ensures r == Times(g, 16, x)
  {
    hide Abelian;
    r := x;
    TimesOne(g, x);
    ghost var k := 1;
    for i := 0 to 4
      invariant k == Power(2, i) && r == Times(g, k, x)
    {
      TimesAdd(g, k, k, x);
      r := g.add(r, r);
      k := k + k;
    }
    assert Power(2, 4) == 16 by { assert Power(2, 2) == 4; }
  }

  /** The first four multiples of a base, in Montgomery form. */
  method GenerateChunk<P(!new)>(g: Group<P>, mont: P -> Option<Coords>, base: P) returns (coeffs: seq<Coords>)
    requires Abelian(g) && (forall x :: mont(x).None? <==> x == g.zero)
    requires forall k :: 1 <= k <= 4 ==> Times(g, k, base) != g.zero
    ensures |coeffs| == 4 && forall k :: 0 <= k < 4 ==> Some(coeffs[k]) == mont(Times(g, k + 1, base))
  {
    hide Abelian;
    coeffs := [];
    var acc := base;
    TimesOne(g, base);
    for i := 0 to 4
      invariant acc == Times(g, i + 1, base)
      invariant |coeffs| == i && forall k :: 0 <= k < i ==> Some(coeffs[k]) == mont(Times(g, k + 1, base))
    {
      assert mont(acc).Some?;
      coeffs := coeffs + [mont(acc).value];
      acc := g.add(acc, base);
    }
  }

  /** No multiple in the table is the identity, so the conversion never fails. */
  lemma ChunkNotZero<P(!new)>(g: Group<P>, gen: P, n: nat, w: nat, k: nat)
    requires Abelian(g) && IsPrime(n) && n > 4 && HasOrder(g, gen, n) && 1 <= k <= 4
    ensures Times(g, k, Times(g, Power(16, w), gen)) != g.zero
  {
    hide Abelian;
    TimesMul(g, k, Power(16, w), gen);
    OrderAt(g, gen, n, k * Power(16, w));
    if Divides(n, k * Power(16, w)) {
      Euclid(n, k, Power(16, w));
      if Divides(n, k) {
        SmallZero(n, k);
      } else {
        PowerNotDivisible(n, w);
      }
    }
  }

  lemma {:induction false} PowerNotDivisible(n: nat, w: nat)
    requires IsPrime(n) && n > 4
    ensures !Divides(n, Power(16, w))
  {
    if Divides(n, Power(16, w)) {
      if w == 0 {
        SmallZero(n, 1);
      } else {
        Euclid(n, 16, Power(16, w - 1));
        PowerNotDivisible(n, w - 1);
        Euclid(n, 4, 4);
        SmallZero(n, 4);
      }
    }
  }

  method GeneratePedersenWindows<P(!new)>(g: Group<P>, mont: P -> Option<Coords>, generator: P, ghost n: nat)
    returns (windows: seq<seq<Coords>>)
    requires Abelian(g) && (forall x :: mont(x).None? <==> x == g.zero)
    requires IsPrime(n) && n > 4 && HasOrder(g, generator, n)
    ensures |windows| == PEDERSEN_HASH_CHUNKS_PER_GENERATOR
    ensures forall w :: 0 <= w < |windows| ==> |windows[w]| == 4
    ensures forall w, k :: 0 <= w < |windows| && 0 <= k < 4 ==>
      Some(windows[w][k]) == mont(ChunkPoint(g, generator, w, k))
  {
    hide Abelian, HasOrder, IsPrime, Power;
    windows := [];
    assert Power(16, 0) == 1 by { PowerZero(16); }
    var gen := generator;
    TimesOne(g, generator);
    for w := 0 to PEDERSEN_HASH_CHUNKS_PER_GENERATOR
      invariant gen == Times(g, Power(16, w), generator)
      invariant |windows| == w && forall v :: 0 <= v < w ==> |windows[v]| == 4
      invariant forall v, k :: 0 <= v < w && 0 <= k < 4 ==>
        Some(windows[v][k]) == mont(ChunkPoint(g, generator, v, k))
    {
      forall k | 1 <= k <= 4 ensures Times(g, k, gen) != g.zero {
        ChunkNotZero(g, generator, n, w, k);
      }
      var coeffs := GenerateChunk(g, mont, gen);
      windows := windows + [coeffs];
      PowerStep(16, w);
      TimesMul(g, 16, Power(16, w), generator);
      gen := FourDoublings(g, gen);
    }
  }

  // ---------------------------------------------- digits and uniqueness

  /** The order of the Jubjub subgroup, section 5.4.9.3 of the Zcash Protocol Specification. */
  const JUBJUB_ORDER: nat := 0x0e7db4ea6533afa906673b0101343b00a6682093ccc81082d0970e5ed6f72cb7

  /** A chunk's signed digit. */
  type ChunkDigit = d: int | -4 <= d <= 4 && d != 0 witness 1

  /** The integer a digit vector encodes: the sum of d_j * 16^j. */
  function Encoded(ds: seq<ChunkDigit>): int {
    if ds == [] then 0 else ds[0] + 16 * Encoded(ds[1..])
  }

  /** Different vectors, of whatever lengths, encode different integers. */
  lemma {:induction false} EncodedInjective(ds: seq<ChunkDigit>, es: seq<ChunkDigit>)
    requires Encoded(ds) == Encoded(es)
    ensures ds == es
  {
    if ds != [] && es != [] {
      EncodedInjective(ds[1..], es[1..]);
      assert ds == [ds[0]] + ds[1..] && es == [es[0]] + es[1..];
    }
  }

  /** The encoded integer of n digits is at most 4 * (16^n - 1) / 15 in absolute value. */
  lemma {:induction false} EncodedBound(ds: seq<ChunkDigit>)
    ensures -4 * (Power(16, |ds|) - 1) <= 15 * Encoded(ds) <= 4 * (Power(16, |ds|) - 1)
  {
    if ds != [] { EncodedBound(ds[1..]); }
  }

  lemma {:induction false} PowerMono(b: nat, m: nat, n: nat)
    requires b > 0 && m <= n
    ensures Power(b, m) <= Power(b, n)
    decreases n
  {
    if m < n {
      PowerMono(b, m, n - 1);
      MulMono(Power(b, n - 1), 1, b);
    }
  }

  lemma {:induction false} PowerAdd(b: nat, m: nat, n: nat)
    requires b > 0
    ensures Power(b, m + n) == Power(b, m) * Power(b, n)
  {
    if m > 0 {
      PowerAdd(b, m - 1, n);
      MulAssoc(b, Power(b, m - 1), Power(b, n));
    }
  }

  lemma PowerSeven()
    ensures Power(16, 7) == 0x1000_0000
  {
    assert Power(16, 3) == 0x1000 by { assert Power(16, 2) == 0x100; }
    assert Power(16, 5) == 0x10_0000 by { assert Power(16, 4) == 0x1_0000; }
  }

  lemma PowerSixteen()
    ensures Power(16, 63) == 0x1000000000000000000000000000000000000000000000000000000000000000
  {
    hide Power;
    PowerSeven();
    PowerAdd(16, 7, 7);
    PowerAdd(16, 14, 7);
    PowerAdd(16, 21, 21);
    PowerAdd(16, 42, 21);
  }

  /** Up to 63 digits stay below half the order. */
  lemma EncodedBelowHalf(ds: seq<ChunkDigit>)
    requires |ds| <= PEDERSEN_HASH_CHUNKS_PER_GENERATOR
    ensures 0 - JUBJUB_ORDER < 2 * Encoded(ds) < JUBJUB_ORDER
  {
    hide Power;
    EncodedBound(ds);
    PowerMono(16, |ds|, 63);
    PowerSixteen();
  }

  /** The signed table entry that digit d selects in chunk w. */
  function SelectedPoint<P>(g: Group<P>, gen: P, w: nat, d: ChunkDigit): P {
    if d > 0 then ChunkPoint(g, gen, w, d - 1) else g.neg(ChunkPoint(g, gen, w, (0 - d as int) - 1))
  }

  /** The sum of the selected entries, from chunk w on. */
  function ChunkSum<P>(g: Group<P>, gen: P, w: nat, ds: seq<ChunkDigit>): P
    decreases |ds|
  {
    if ds == [] then g.zero else g.add(SelectedPoint(g, gen, w, ds[0]), ChunkSum(g, gen, w + 1, ds[1..]))
  }

  lemma SelectedIs<P(!new)>(g: Group<P>, gen: P, w: nat, d: ChunkDigit)
    requires Abelian(g)
    ensures SelectedPoint(g, gen, w, d) == TimesInt(g, d * Power(16, w), gen)
  {
    hide Abelian, Power;
    if d > 0 {
      TimesMul(g, d, Power(16, w), gen);
    } else {
      var m: nat := 0 - d;
      TimesMul(g, m, Power(16, w), gen);
      assert 0 - d * Power(16, w) == m * Power(16, w);
      MulMono(Power(16, w), 1, m);
      TimesIntNegative(g, d * Power(16, w), gen);
    }
  }

  lemma {:induction false} ChunkSumIs<P(!new)>(g: Group<P>, gen: P, w: nat, ds: seq<ChunkDigit>)
    requires Abelian(g)
    ensures ChunkSum(g, gen, w, ds) == TimesInt(g, Power(16, w) * Encoded(ds), gen)
    decreases |ds|
  {
    if ds == [] {
      assert Power(16, w) * 0 == 0;
      assert Times(g, 0, gen) == g.zero;
    } else {
      ChunkSumIs(g, gen, w + 1, ds[1..]);
      ChunkSumStep(g, gen, Power(16, w), Power(16, w + 1), ds[0], Encoded(ds[1..]), Encoded(ds));
      SelectedIs(g, gen, w, ds[0]);
    }
  }

  lemma ChunkSumStep<P(!new)>(g: Group<P>, gen: P, b: nat, c: nat, d: int, e: int, t: int)
    requires Abelian(g) && c == 16 * b && t == d + 16 * e
    ensures g.add(TimesInt(g, d * b, gen), TimesInt(g, c * e, gen)) == TimesInt(g, b * t, gen)
  {
    hide Abelian, TimesInt;
    Collect(d, b, e);
    TimesIntAdd(g, d * b, c * e, gen);
  }

  lemma Collect(d: int, b: int, e: int)
    ensures d * b + (16 * b) * e == b * (d + 16 * e)
  {
  }

  /**
   The Pedersen encoding is injective on points: over a generator of the
   subgroup's order, different digit vectors of up to 63 chunks select table
   entries with different sums.
   */
  lemma PedersenPointsDistinct<P(!new)>(g: Group<P>, gen: P, ds: seq<ChunkDigit>, es: seq<ChunkDigit>)
    requires Abelian(g) && HasOrder(g, gen, JUBJUB_ORDER)
    requires |ds| <= PEDERSEN_HASH_CHUNKS_PER_GENERATOR && |es| <= PEDERSEN_HASH_CHUNKS_PER_GENERATOR
    ensures ChunkSum(g, gen, 0, ds) == ChunkSum(g, gen, 0, es) <==> ds == es
  {
    hide Abelian, HasOrder, TimesInt;
    if ChunkSum(g, gen, 0, ds) == ChunkSum(g, gen, 0, es) {
      ChunkSumIs(g, gen, 0, ds);
      ChunkSumIs(g, gen, 0, es);
      assert Power(16, 0) * Encoded(ds) == Encoded(ds) && Power(16, 0) * Encoded(es) == Encoded(es);
      TimesIntEqual(g, gen, JUBJUB_ORDER, Encoded(ds), Encoded(es));
      EncodedBelowHalf(ds);
      EncodedBelowHalf(es);
      SmallZero(JUBJUB_ORDER, Encoded(ds) - Encoded(es));
      EncodedInjective(ds, es);
    }
  }
}
