/**
 The hypotheses on the curve, its scheme and its gadgets can hold together: the
 complete Edwards curve with d = 7 over the integers modulo 17. Its 24 = 8 * 3
 points are the multiples of one of them, added as integers modulo 24.
 */
module SmallCurve {
  import opened Wrappers
  import opened Bits
  import opened PrimeField
  import opened R1cs
  import opened Groups
  import opened PublicInputs
  import opened Gadgets
  import opened Montgomery
  import opened EdwardsLaw
  import opened EdwardsGadgets
  import opened EdwardsRun
  import opened RedJubjub
  import opened Issuance
  import opened SignatureGadget

  const SMALL: Curve := Curve(17, 7, 7, 5)

  // --------------------------------------------------------- the 24 points

  type Z24 = x: int | 0 <= x < 24

  function Add24(x: Z24, y: Z24): Z24 { if x + y < 24 then x + y else x + y - 24 }
  function Neg24(x: Z24): Z24 { if x == 0 then 0 else 24 - x }
  function Group24(): Group<Z24> { Group(0, Add24, Neg24) }

  /** The sum with (4, 0), a point of order 4. */
  function Turned(q: Coords): Coords { ((4 * q.1) % 17, (4 * q.0) % 17) }

  const FIRST: seq<Coords> := [(0, 1), (2, 5), (5, 11), (9, 15), (10, 14), (3, 9)]

  /** x times (2, 5). */
  function At(x: Z24): Coords { if x < 6 then FIRST[x] else Turned(At(x - 6)) }

  lemma AtIs()
    ensures At(0) == (0, 1) && At(1) == (2, 5) && At(2) == (5, 11) && At(3) == (9, 15) && At(4) == (10, 14)
            && At(5) == (3, 9)
    ensures At(6) == (4, 0) && At(7) == (3, 8) && At(8) == (10, 3) && At(9) == (9, 2) && At(10) == (5, 6)
            && At(11) == (2, 12)
    ensures At(12) == (0, 16) && At(13) == (15, 12) && At(14) == (12, 6) && At(15) == (8, 2) && At(16) == (7, 3)
            && At(17) == (14, 8)
    ensures At(18) == (13, 0) && At(19) == (14, 9) && At(20) == (7, 14) && At(21) == (8, 15) && At(22) == (12, 11)
            && At(23) == (15, 5)
  {
  }

  lemma Cases(x: Z24)
    ensures x < 6 ==> x == 0 || x == 1 || x == 2 || x == 3 || x == 4 || x == 5
    ensures 6 <= x < 12 ==> x == 6 || x == 7 || x == 8 || x == 9 || x == 10 || x == 11
    ensures 12 <= x < 18 ==> x == 12 || x == 13 || x == 14 || x == 15 || x == 16 || x == 17
    ensures 18 <= x ==> x == 18 || x == 19 || x == 20 || x == 21 || x == 22 || x == 23
  {
  }

  lemma TurnedAt(x: Z24)
    ensures At(Add24(x, 6)) == Turned(At(x))
  {
    if x >= 18 {
      AtIs();
      Cases(x);
    }
  }

  // ----------------------------------------------------- the addition law

  /** The law at three points, by the quotients by 17. */
  lemma SumBy(q: Coords, r: Coords, s: Coords, j: int, k: int)
    requires (1 + Cross(7, q, r)) * s.0 - (r.1 * q.0 + r.0 * q.1) == 17 * j
    requires (1 - Cross(7, q, r)) * s.1 - (q.1 * r.1 + q.0 * r.0) == 17 * k
    ensures SumAt(SMALL, q, r, s)
  {
    MultipleDivides(17, j);
    MultipleDivides(17, k);
  }

  lemma Neutral(r: Coords)
    ensures SumAt(SMALL, (0, 1), r, r)
  {
  }

  lemma SumsOfFirst()
    ensures SumAt(SMALL, (2, 5), (2, 5), (5, 11)) && SumAt(SMALL, (2, 5), (5, 11), (9, 15))
    ensures SumAt(SMALL, (2, 5), (9, 15), (10, 14)) && SumAt(SMALL, (2, 5), (10, 14), (3, 9))
    ensures SumAt(SMALL, (2, 5), (3, 9), (4, 0))
  {
    hide SumAt;
    SumBy((2, 5), (2, 5), (5, 11), 205, -454);
    SumBy((2, 5), (5, 11), (9, 15), 2036, -3400);
    SumBy((2, 5), (9, 15), (10, 14), 5555, -7787);
    SumBy((2, 5), (10, 14), (3, 9), 1725, -5193);
    SumBy((2, 5), (3, 9), (4, 0), 443, -3);
  }

  lemma SumsOfSecond()
    ensures SumAt(SMALL, (5, 11), (5, 11), (10, 14)) && SumAt(SMALL, (5, 11), (9, 15), (3, 9))
    ensures SumAt(SMALL, (5, 11), (10, 14), (4, 0)) && SumAt(SMALL, (5, 11), (3, 9), (3, 8))
  {
    hide SumAt;
    SumBy((5, 11), (5, 11), (10, 14), 12450, -17446);
    SumBy((5, 11), (9, 15), (3, 9), 9162, -27528);
    SumBy((5, 11), (10, 14), (4, 0), 12672, -12);
    SumBy((5, 11), (3, 9), (3, 8), 1830, -4898);
  }

  lemma SumsOfOthers()
    ensures SumAt(SMALL, (9, 15), (9, 15), (4, 0)) && SumAt(SMALL, (9, 15), (10, 14), (3, 8))
    ensures SumAt(SMALL, (9, 15), (3, 9), (10, 3)) && SumAt(SMALL, (10, 14), (10, 14), (10, 3))
    ensures SumAt(SMALL, (10, 14), (3, 9), (9, 2)) && SumAt(SMALL, (3, 9), (3, 9), (5, 6))
  {
    hide SumAt;
    SumBy((9, 15), (9, 15), (4, 0), 30002, -18);
    SumBy((9, 15), (10, 14), (3, 8), 23331, -62276);
    SumBy((9, 15), (3, 9), (10, 3), 15002, -4512);
    SumBy((10, 14), (10, 14), (10, 3), 80690, -24229);
    SumBy((10, 14), (3, 9), (9, 2), 14001, -3122);
    SumBy((3, 9), (3, 9), (5, 6), 1498, -1806);
  }

  lemma FirstSums(x: Z24, y: Z24)
    requires x <= y < 6
    ensures SumAt(SMALL, At(x), At(y), At(x + y))
  {
    hide SumAt, At;
    AtIs();
    Neutral(At(y));
    SumsOfFirst();
    SumsOfSecond();
    SumsOfOthers();
  }

  lemma SwapSum(c: Curve, q: Coords, r: Coords, s: Coords)
    requires c.p > 0 && SumAt(c, q, r, s)
    ensures SumAt(c, r, q, s)
  {
    hide Congruent;
  }

  /** One equation of the law, turned. */
  lemma TurnedSide(f: int, g: int, x: int, n: int)
    requires Congruent(17, g, f) && Congruent(17, f * x, n)
    ensures Congruent(17, g * ((4 * x) % 17), 4 * n)
  {
    hide *;
    var y := (4 * x) % 17;
    ModCongruent(17, 4 * x);
    CongruentMul(17, g, f, y, 4 * x);
    CongruentSelf(17, 4);
    CongruentMul(17, 4, 4, f * x, n);
    FourAcross(f, x);
    CongruentTransitive(17, g * y, f * (4 * x), 4 * n);
  }

  lemma FourAcross(f: int, x: int)
    ensures f * (4 * x) == 4 * (f * x)
  {
  }

  lemma TurnedTerms(a: int, b: int, c: int, d: int)
    ensures Congruent(17, 4 * (b * a + d * c), a * ((4 * b) % 17) + c * ((4 * d) % 17))
  {
    hide *;
    ModCongruent(17, 4 * b);
    ModCongruent(17, 4 * d);
    CongruentSelf(17, a);
    CongruentSelf(17, c);
    CongruentMul(17, a, a, 4 * b, (4 * b) % 17);
    CongruentMul(17, c, c, 4 * d, (4 * d) % 17);
    CongruentAdd(17, a * (4 * b), a * ((4 * b) % 17), c * (4 * d), c * ((4 * d) % 17));
    FourAcross(a, b);
    FourAcross(c, d);
  }

  lemma TurnedCross(q: Coords, r: Coords)
    ensures Congruent(17, Cross(7, Turned(q), r), -Cross(7, q, r))
  {
    hide Congruent;
    var u, v, k := (4 * q.1) % 17, (4 * q.0) % 17, (r.1 * q.0) * (r.0 * q.1);
    ModCongruent(17, 4 * q.1);
    ModCongruent(17, 4 * q.0);
    CongruentSelf(17, r.1);
    CongruentSelf(17, r.0);
    CongruentMul(17, r.1, r.1, u, 4 * q.1);
    CongruentMul(17, r.0, r.0, v, 4 * q.0);
    CongruentMul(17, r.1 * u, r.1 * (4 * q.1), r.0 * v, r.0 * (4 * q.0));
    assert (r.1 * (4 * q.1)) * (r.0 * (4 * q.0)) == 16 * k;
    CongruentSelf(17, 7);
    CongruentMul(17, 7, 7, (r.1 * u) * (r.0 * v), 16 * k);
    assert Congruent(17, 7 * (16 * k), -(7 * k)) by { MultipleDivides(17, 7 * k); SameDifference(k); }
    CongruentTransitive(17, 7 * ((r.1 * u) * (r.0 * v)), 7 * (16 * k), -(7 * k));
  }

  lemma SameDifference(k: int)
    requires Divides(17, 17 * (7 * k))
    ensures Congruent(17, 7 * (16 * k), -(7 * k))
  {
  }

  /** Turning an operand turns the sum. */
  lemma TurnSum(q: Coords, r: Coords, s: Coords)
    requires SumAt(SMALL, q, r, s)
    ensures SumAt(SMALL, Turned(q), r, Turned(s))
  {
    hide Congruent, Cross;
    var k, m := Cross(7, q, r), Cross(7, Turned(q), r);
    TurnedCross(q, r);
    CongruentAdd(17, 1, 1, m, -k);
    TurnedSide(1 - k, 1 + m, s.1, q.1 * r.1 + q.0 * r.0);
    TurnedSide(1 + k, 1 - m, s.0, r.1 * q.0 + r.0 * q.1);
    TurnedTerms(r.1, q.1, r.0, q.0);
    TurnedTerms(r.1, q.0, r.0, q.1);
    var t, u := Turned(s), Turned(q);
    CongruentTransitive(17, (1 + m) * t.0, 4 * (q.1 * r.1 + q.0 * r.0), r.1 * u.0 + r.0 * u.1);
    CongruentTransitive(17, (1 - m) * t.1, 4 * (q.0 * r.1 + q.1 * r.0), r.1 * u.1 + r.0 * u.0);
  }

  /** The law at any two points. */
  lemma Sums(x: Z24, y: Z24)
    ensures SumAt(SMALL, At(x), At(y), At(Add24(x, y)))
    decreases x + y, x
  {
    hide SumAt, At, Turned;
    if x >= 6 {
      Sums(x - 6, y);
      TurnSum(At(x - 6), At(y), At(Add24(x - 6, y)));
      TurnedAt(x - 6);
      TurnedAt(Add24(x - 6, y));
    } else if y >= 6 {
      Sums(x, y - 6);
      SwapSum(SMALL, At(x), At(y - 6), At(Add24(x, y - 6)));
      TurnSum(At(y - 6), At(x), At(Add24(x, y - 6)));
      TurnedAt(y - 6);
      TurnedAt(Add24(x, y - 6));
      SwapSum(SMALL, At(y), At(x), At(Add24(x, y)));
    } else if x <= y {
      FirstSums(x, y);
    } else {
      FirstSums(y, x);
      SwapSum(SMALL, At(y), At(x), At(x + y));
    }
  }

  // ------------------------------------------------ the points of the curve

  /** The curve equation, by the quotient by 17. */
  lemma OnBy(q: Coords, k: int)
    requires (q.1 * q.1 - q.0 * q.0) - (1 + 7 * ((q.0 * q.0) * (q.1 * q.1))) == 17 * k
    ensures OnEdwards(SMALL, q.0, q.1)
  {
  }

  lemma FirstPoints()
    ensures OnCurve(SMALL, (0, 1)) && OnCurve(SMALL, (2, 5)) && OnCurve(SMALL, (5, 11))
    ensures OnCurve(SMALL, (9, 15)) && OnCurve(SMALL, (10, 14)) && OnCurve(SMALL, (3, 9))
    ensures OnCurve(SMALL, (4, 0)) && OnCurve(SMALL, (3, 8)) && OnCurve(SMALL, (10, 3))
    ensures OnCurve(SMALL, (9, 2)) && OnCurve(SMALL, (5, 6)) && OnCurve(SMALL, (2, 12))
  {
    hide OnEdwards;
    OnBy((0, 1), 0); OnBy((2, 5), -40); OnBy((5, 11), -1240); OnBy((9, 15), -7496);
    OnBy((10, 14), -8065); OnBy((3, 9), -296); OnBy((4, 0), -1); OnBy((3, 8), -234);
    OnBy((10, 3), -376); OnBy((9, 2), -138); OnBy((5, 6), -370); OnBy((2, 12), -229);
  }

  lemma OtherPoints()
    ensures OnCurve(SMALL, (0, 16)) && OnCurve(SMALL, (15, 12)) && OnCurve(SMALL, (12, 6))
    ensures OnCurve(SMALL, (8, 2)) && OnCurve(SMALL, (7, 3)) && OnCurve(SMALL, (14, 8))
    ensures OnCurve(SMALL, (13, 0)) && OnCurve(SMALL, (14, 9)) && OnCurve(SMALL, (7, 14))
    ensures OnCurve(SMALL, (8, 15)) && OnCurve(SMALL, (12, 11)) && OnCurve(SMALL, (15, 5))
  {
    hide OnEdwards;
    OnBy((0, 16), 15); OnBy((15, 12), -13346); OnBy((12, 6), -2141); OnBy((8, 2), -109);
    OnBy((7, 3), -184); OnBy((14, 8), -5173); OnBy((13, 0), -10); OnBy((14, 9), -6544);
    OnBy((7, 14), -3946); OnBy((8, 15), -5920); OnBy((12, 11), -7176); OnBy((15, 5), -2328);
  }

  lemma PointOn(x: Z24)
    ensures OnCurve(SMALL, At(x))
  {
    hide OnCurve, At;
    AtIs();
    FirstPoints();
    OtherPoints();
  }

  /** The other point with the same first coordinate. */
  lemma Mirrored(x: Z24)
    ensures At(Add24(12, Neg24(x))) == (At(x).0, if At(x).1 == 0 then 0 else 17 - At(x).1)
  {
    hide At;
    AtIs();
    Cases(x);
  }

  /** Two second coordinates over u are equal or opposite. */
  lemma TwoRoots(u: int, v: int, w: int)
    requires 0 <= u < 17 && 0 <= v < 17 && 0 <= w < 17 && OnEdwards(SMALL, u, v) && OnEdwards(SMALL, u, w)
    ensures v == w || v + w == 17
  {
    RootsProduct(u, v, w);
    SeventeenIsPrime();
    hide IsPrime, Divides, OnEdwards;
    Euclid(17, 1 - 7 * (u * u), (v - w) * (v + w));
    FactorNonzero(u);
    Euclid(17, v - w, v + w);
    if Divides(17, v - w) { SmallZero(17, v - w); } else { SumOfResidues(v, w); }
  }

  lemma SumOfResidues(v: int, w: int)
    requires 0 <= v < 17 && 0 <= w < 17 && Divides(17, v + w)
    ensures v == w || v + w == 17
  {
  }

  lemma FactorNonzero(u: int)
    requires 0 <= u < 17
    ensures !Divides(17, 1 - 7 * (u * u))
  {
  }

  lemma RootsProduct(u: int, v: int, w: int)
    requires OnEdwards(SMALL, u, v) && OnEdwards(SMALL, u, w)
    ensures Divides(17, (1 - 7 * (u * u)) * ((v - w) * (v + w)))
  {
    hide Divides;
    var a, b := (v * v - u * u) - (1 + 7 * ((u * u) * (v * v))), (w * w - u * u) - (1 + 7 * ((u * u) * (w * w)));
    DividesSum(17, a, b);
    RootsIdentity(u * u, v, w);
  }

  lemma RootsIdentity(z: int, v: int, w: int)
    ensures ((v * v - z) - (1 + 7 * (z * (v * v)))) - ((w * w - z) - (1 + 7 * (z * (w * w)))) ==
            (1 - 7 * z) * ((v - w) * (v + w))
  {
  }

  function Square17(m: int): int { m * m % 17 }

  lemma NonSquares(m: int)
    requires 0 <= m < 17
    ensures Square17(m) != 5 && Square17(m) != 7 && Square17(m) != 11
  {
  }

  lemma NoPoint(u: int, v: int)
    requires 0 <= v < 17 && (u == 1 || u == 6 || u == 11 || u == 16)
    ensures !OnEdwards(SMALL, u, v)
  {
    hide OnEdwards, Square17;
    NonSquares(v);
    if OnEdwards(SMALL, u, v) {
      if u == 1 { SquareOver(1, v, 14, 11, -5, -1); }
      else if u == 6 { SquareOver(6, v, 13, 5, -192, -28); }
      else if u == 11 { SquareOver(11, v, 13, 5, -647, -93); }
      else { SquareOver(16, v, 14, 11, -1475, -211); }
    }
  }

  /** The residue that v^2 must have over u: b inverts 1 - 7 u^2. */
  lemma SquareOver(u: int, v: int, b: int, r: int, j: int, k: int)
    requires OnEdwards(SMALL, u, v) && 0 <= r < 17
    requires b * (1 - 7 * (u * u)) == 1 + 17 * j && b * (-(u * u) - 1) == 17 * k - r
    ensures Square17(v) == r
  {
    hide Divides;
    EquationOver(u * u, v * v);
    OnlySolution(v * v, 1 - 7 * (u * u), -(u * u) - 1, b, r, j, k);
  }

  lemma EquationOver(s: int, z: int)
    ensures z - s - (1 + 7 * (s * z)) == (1 - 7 * s) * z + (-s - 1)
  {
  }

  lemma OnlySolution(z: int, a: int, e: int, b: int, r: int, j: int, k: int)
    requires Divides(17, a * z + e) && 0 <= r < 17 && b * a == 1 + 17 * j && b * e == 17 * k - r
    ensures z % 17 == r
  {
    hide Divides;
    DividesProduct(17, a * z + e, b);
    assert b * (a * z + e) == (b * a) * z + b * e;
    assert (1 + 17 * j) * z == z + 17 * (j * z);
    MultipleDivides(17, j * z + k);
    DividesSum(17, b * (a * z + e), 17 * (j * z + k));
    ModCongruent(17, z);
    CongruentTransitive(17, z % 17, z, r);
    CongruentUnique(17, z % 17, r);
  }

  function Over(u: int): Z24 {
    if u == 0 then 0 else if u == 2 then 1 else if u == 3 then 5 else if u == 4 then 6 else if u == 5 then 2
    else if u == 7 then 16 else if u == 8 then 15 else if u == 9 then 3 else if u == 10 then 4
    else if u == 12 then 14 else if u == 13 then 18 else if u == 14 then 17 else 13
  }

  /** Every point of the curve is one of the 24. */
  lemma Onto(q: Coords) returns (x: Z24)
    requires OnCurve(SMALL, q)
    ensures At(x) == q
  {
    hide OnEdwards, At;
    if q.0 == 1 || q.0 == 6 || q.0 == 11 || q.0 == 16 { NoPoint(q.0, q.1); }
    AtIs();
    x := Over(q.0);
    if At(x).1 != q.1 {
      PointOn(x);
      TwoRoots(q.0, q.1, At(x).1);
      Mirrored(x);
      x := Add24(12, Neg24(x));
    }
  }

  lemma Distinct(x: Z24, y: Z24)
    requires At(x) == At(y)
    ensures x == y
  {
    hide At;
    AtIs();
    Cases(x);
    Cases(y);
  }

  lemma NoRoot(x: int)
    ensures !IsRoot(17, x, 7)
  {
    if IsRoot(17, x, 7) {
      hide Congruent;
      var m := x % 17;
      ModCongruent(17, x);
      CongruentMul(17, m, x, m, x);
      CongruentTransitive(17, m * m, x * x, 7);
      ModCongruent(17, m * m);
      CongruentTransitive(17, m * m % 17, m * m, 7);
      CongruentUnique(17, m * m % 17, 7);
      NonSquares(m);
    }
  }

  lemma SeventeenIsPrime()
    ensures IsPrime(17)
  {
  }

  lemma GroupLaws()
    ensures Abelian(Group24())
  {
  }

  lemma SmallComplete()
    ensures Complete(SMALL) && Matching(SMALL)
  {
    hide IsPrime, IsRoot;
    SeventeenIsPrime();
    assert IsRoot(17, 4, -1) by { FourIsRoot(); }
    forall x: int ensures !IsRoot(17, x, 7) { NoRoot(x); }
  }

  /** The integers modulo 24 are the group of the curve. */
  lemma SmallCoordinates()
    ensures Coordinates(SMALL, Group24(), At)
  {
    hide At, SumAt, OnCurve, Complete, Abelian;
    SmallComplete();
    GroupLaws();
    AtIs();
    forall x: Z24 ensures OnCurve(SMALL, At(x)) { PointOn(x); }
    forall q: Coords | OnCurve(SMALL, q) ensures exists x: Z24 :: At(x) == q { var x := Onto(q); }
    forall x: Z24, y: Z24 ensures At(x) == At(y) ==> x == y { if At(x) == At(y) { Distinct(x, y); } }
    forall x: Z24, y: Z24 ensures SumAt(SMALL, At(x), At(y), At(Add24(x, y))) { Sums(x, y); }
  }

  lemma FourIsRoot()
    ensures IsRoot(17, 4, -1)
  {
  }

  // ------------------------------------------------------------ the scheme

  function OneHot(x: Z24): (s: seq<bool>)
    ensures |s| == 256
  {
    seq(256, i => i == x)
  }

  function Encode24(x: Z24): Bytes32 { BitsToBytes(OneHot(x)) }

  ghost function Decode24(b: Bytes32): Option<Z24> {
    if exists x: Z24 :: Encode24(x) == b then (var x: Z24 :| Encode24(x) == b; Some(x)) else None
  }

  function Eight(): Bytes32 { LeBytes(8, 32) }

  /** The multiples of 8 are the subgroup of order 3; both hashes have one value. */
  ghost function Scheme24(): Scheme<Z24> {
    Scheme(Group24(), 8, 3, Encode24, Decode24, b => Eight(), (t, b) => Eight())
  }

  lemma EncodedBits(x: Z24)
    ensures BytesToBits(Encode24(x)) == OneHot(x)
  {
    BitsBytesBits(OneHot(x));
  }

  lemma Encoding(x: Z24, y: Z24)
    requires Encode24(x) == Encode24(y)
    ensures x == y
  {
    hide BytesToBits, BitsToBytes;
    EncodedBits(x);
    EncodedBits(y);
    assert OneHot(x)[x] == OneHot(y)[x];
  }

  lemma ModStep(a: nat, x: Z24)
    ensures Add24(a % 24, x) == (a + x) % 24
  {
  }

  lemma {:induction false} Times24(k: nat, x: Z24)
    ensures k * x >= 0 && Times(Group24(), k, x) == (k * x) % 24
  {
    if k > 0 {
      Times24(k - 1, x);
      Distribute(k, x);
      ModStep((k - 1) * x, x);
    }
  }

  lemma Distribute(k: int, x: int)
    ensures k * x == (k - 1) * x + x
  {
  }

  lemma OrderThree(k: nat)
    ensures Times(Group24(), k, 8) == 0 <==> Divides(3, k)
  {
    hide Times;
    Times24(k, 8);
  }

  /** The points the subgroup's order kills are the multiples of 8. */
  lemma Subgroup24(x: Z24)
    ensures Times(Group24(), 3, x) == 0 <==> x % 8 == 0
    ensures x % 8 == 0 ==> x == Times(Group24(), x / 8, 8)
  {
  }

  lemma Multiple24(x: Z24)
    ensures InSubgroup(Scheme24(), x) ==> IsMultiple(Scheme24(), x)
  {
    hide Times;
    Subgroup24(x);
  }

  lemma ThreeIsPrime()
    ensures IsPrime(3) && 256 <= Pow2(256)
  {
  }

  lemma SmallProper()
    ensures Proper(Scheme24())
  {
    hide Times, InSubgroup, IsMultiple, Abelian, IsPrime, Pow2, Encode24;
    GroupLaws();
    ThreeIsPrime();
    assert HasOrder(Group24(), 8, 3) by {
      forall k: nat ensures Times(Group24(), k, 8) == 0 <==> Divides(3, k) { OrderThree(k); }
    }
    forall x: Z24 ensures InSubgroup(Scheme24(), x) ==> IsMultiple(Scheme24(), x) { Multiple24(x); }
    forall x: Z24 ensures Decode24(Encode24(x)) == Some(x) {
      Encoding(x, Decode24(Encode24(x)).value);
    }
  }

  lemma SmallCofactor()
    ensures CofactorEight(Scheme24())
  {
    hide Times;
    forall x: Z24 ensures Times(Group24(), 24, x) == 0 { AllKilled(x); }
  }

  lemma AllKilled(x: Z24)
    ensures Times(Group24(), 24, x) == 0
  {
    hide *;
    Times24(24, x);
    assert (24 * x) % 24 == 0;
  }

  // ------------------------------------------- the encoding of a point

  /** Selector x can be nonzero only where the coordinate is that of point x. */
  function SelectCon(n: nat, x: Z24, i: nat, value: int): Constraint {
    Constraint(Num(n + x), Minus(Num(i), Single(value, One)), [])
  }

  function SelectorSum(n: nat, k: nat): LinComb { if k == 0 then [] else Plus(SelectorSum(n, k - 1), Num(n + k - 1)) }

  /** 24 selectors from n on, of which only the one of the point can differ from 0, with sum 1. */
  function EncodeCons(n: nat, q: EdwardsPoint): (r: seq<Constraint>)
    ensures |r| == 49
  {
    seq(24, x requires 0 <= x < 24 => SelectCon(n, x, q.u, At(x).0)) +
    seq(24, x requires 0 <= x < 24 => SelectCon(n, x, q.v, At(x).1)) + [Constraint(SelectorSum(n, 24), ONES, ONES)]
  }

  function EncodeOut(n: nat): (r: seq<Boolean>)
    ensures |r| == 256
  {
    seq(256, i requires 0 <= i < 256 => if i < 24 then Is(n + i) else Constant(false))
  }

  function EncodeFill(aux: seq<Option<int>>, q: EdwardsPoint, k: nat): Option<int> {
    if k < 24 && PointVal(aux, q).Some? then Some(Bit(PointVal(aux, q).value == At(k))) else None
  }

  function Repr24(): ReprGadget {
    ReprGadget(24, (n: nat, q: EdwardsPoint) => EncodeCons(n, q), (n: nat, q: EdwardsPoint) => EncodeOut(n),
               (aux, q: EdwardsPoint, k: nat) => EncodeFill(aux, q, k))
  }

  function Selector(asg: Assignment, n: nat, x: Z24): int { asg.At(Aux(n + x)) }

  lemma SelectMeaning24(asg: Assignment, n: nat, x: Z24, i: nat, value: int)
    requires InField(17, asg) && 0 <= value < 17
    ensures Sat(17, asg, SelectCon(n, x, i, value)) <==> Selector(asg, n, x) == 0 || asg.At(Aux(i)) == value
  {
    hide Divides;
    ZeroProduct(Selector(asg, n, x), asg.At(Aux(i)), value);
  }

  lemma ZeroProduct(s: int, u: int, w: int)
    requires 0 <= s < 17 && 0 <= u < 17 && 0 <= w < 17
    ensures Divides(17, s * (u - w) - 0) <==> s == 0 || u == w
  {
    hide IsPrime, Divides;
    SeventeenIsPrime();
    if Divides(17, s * (u - w)) {
      Euclid(17, s, u - w);
      if Divides(17, s) { SmallZero(17, s); } else { SmallZero(17, u - w); }
    }
    MultipleDivides(17, 0);
  }

  lemma SelectorMeaning(asg: Assignment, n: nat, q: EdwardsPoint, x: Z24)
    requires InField(17, asg)
    ensures Sat(17, asg, EncodeCons(n, q)[x]) && Sat(17, asg, EncodeCons(n, q)[24 + x]) <==>
            Selector(asg, n, x) == 0 || PointAt(asg, q) == At(x)
  {
    hide At, Sat, SelectCon, SelectorSum, InField, Selector;
    PointOn(x);
    SelectMeaning24(asg, n, x, q.u, At(x).0);
    SelectMeaning24(asg, n, x, q.v, At(x).1);
  }

  lemma EncodeMeaning(asg: Assignment, n: nat, q: EdwardsPoint)
    requires InField(17, asg)
    ensures SatAll(17, asg, EncodeCons(n, q)) <==>
      && (forall x: Z24 :: Selector(asg, n, x) == 0 || PointAt(asg, q) == At(x))
      && Congruent(17, Eval(SelectorSum(n, 24), asg), 1)
  {
    hide At, Congruent, SelectCon, SelectorSum, InField, Selector, PointAt;
    var ks := EncodeCons(n, q);
    if SatAll(17, asg, ks) {
      forall x: Z24 ensures Selector(asg, n, x) == 0 || PointAt(asg, q) == At(x) {
        SelectorMeaning(asg, n, q, x);
      }
    }
    if (forall x: Z24 :: Selector(asg, n, x) == 0 || PointAt(asg, q) == At(x)) && Sat(17, asg, ks[48]) {
      forall i | 0 <= i < 49 ensures Sat(17, asg, ks[i]) {
        if i < 48 { SelectorMeaning(asg, n, q, if i < 24 then i else i - 24); }
      }
    }
  }

  /** The sum of selectors of which only x differs from 0. */
  lemma {:induction false} SumOfSelectors(asg: Assignment, n: nat, x: Z24, k: nat)
    requires k <= 24 && forall y: Z24 :: y != x ==> Selector(asg, n, y) == 0
    ensures Eval(SelectorSum(n, k), asg) == if x < k then Selector(asg, n, x) else 0
  {
    if k > 0 {
      SumOfSelectors(asg, n, x, k - 1);
      assert k - 1 != x ==> Selector(asg, n, k - 1) == 0;
    }
  }

  /** At point x the constraints hold exactly when the selectors are the bits of its encoding. */
  lemma EncodeDecides(asg: Assignment, n: nat, q: EdwardsPoint, x: Z24)
    requires InField(17, asg) && PointAt(asg, q) == At(x)
    ensures SatAll(17, asg, EncodeCons(n, q)) <==> forall y: Z24 :: Selector(asg, n, y) == Bit(y == x)
  {
    hide At, SatAll, EncodeCons, Congruent, SelectorSum;
    EncodeMeaning(asg, n, q);
    forall y: Z24 ensures At(y) == At(x) <==> y == x { if At(y) == At(x) { Distinct(y, x); } }
    if SatAll(17, asg, EncodeCons(n, q)) || forall y: Z24 :: y != x ==> Selector(asg, n, y) == 0 {
      SumOfSelectors(asg, n, x, 24);
      CongruentSelf(17, 1);
      if Congruent(17, Selector(asg, n, x), 1) { CongruentUnique(17, Selector(asg, n, x), 1); }
    }
  }

  lemma SmallRepr(e: EcKit<Z24>)
    requires e.curve == SMALL && e.scheme.encode == Encode24 && e.at == At && e.repr == Repr24()
    ensures ReprCorrect(e)
  {
    hide At, SatAll, EncodeCons, BytesToBits, Encode24, PointVal, InField, Agrees, ReadBits, Known, AllBits, Vals;
    forall n: nat, q: EdwardsPoint, asg, x: Z24 ensures ReprSoundAt(e, n, q, asg, x) {
      ReprSound24(n, q, asg, x);
    }
    forall aux, q: EdwardsPoint, x: Z24 ensures ReprCompleteAt(e, aux, q, x) {
      ReprComplete24(e, aux, q, x);
    }
  }

  lemma ReprSound24(n: nat, q: EdwardsPoint, asg: Assignment, x: Z24)
    ensures InField(17, asg) && PointAt(asg, q) == At(x) && SatAll(17, asg, EncodeCons(n, q)) ==>
      AllBits(asg, EncodeOut(n)) && Vals(asg, EncodeOut(n)) == BytesToBits(Encode24(x))
  {
    hide At, SatAll, EncodeCons, BytesToBits, Encode24, PointAt, InField;
    if InField(17, asg) && PointAt(asg, q) == At(x) && SatAll(17, asg, EncodeCons(n, q)) {
      EncodeDecides(asg, n, q, x);
      EncodedBits(x);
      var out := EncodeOut(n);
      forall i | 0 <= i < 256 ensures out[i].IsBit(asg) && out[i].Holds(asg) == (i == x) {
        if i < 24 { assert Selector(asg, n, i) == Bit(i == x); }
      }
      assert Vals(asg, out) == OneHot(x);
    }
  }

  lemma ReprComplete24(e: EcKit<Z24>, aux: seq<Option<int>>, q: EdwardsPoint, x: Z24)
    requires e.curve == SMALL && e.scheme.encode == Encode24 && e.at == At && e.repr == Repr24()
    ensures ReprCompleteAt(e, aux, q, x)
  {
    hide At, SatAll, EncodeCons, BytesToBits, Encode24, InField, Agrees;
    if PointVal(aux, q) == Some(At(x)) {
      var more := ReprAux(e.repr, aux, q);
      assert more == aux + Filled(x) by {
        forall y: Z24 ensures e.repr.fill(aux, q, y) == Filled(x)[y] {
          if At(y) == At(x) { Distinct(y, x); }
        }
      }
      forall asg | InField(17, asg) && Agrees(asg, more) ensures SatAll(17, asg, EncodeCons(|aux|, q)) {
        SelectorsHeld(asg, aux, q, x);
      }
      EncodedBits(x);
      var out := EncodeOut(|aux|);
      forall i | 0 <= i < 256 ensures ReadBit(more, out[i]) == Some(i == x) {
        if i < 24 { assert more[|aux| + i] == Filled(x)[i] == Some(Bit(i == x)); }
      }
      assert ReadBits(more, out) == Known(OneHot(x));
    }
  }

  function Filled(x: Z24): (r: seq<Option<int>>)
    ensures |r| == 24
  {
    seq(24, i => Some(Bit(i == x)))
  }

  lemma SelectorsHeld(asg: Assignment, aux: seq<Option<int>>, q: EdwardsPoint, x: Z24)
    requires InField(17, asg) && Agrees(asg, aux + Filled(x)) && PointVal(aux, q) == Some(At(x))
    ensures SatAll(17, asg, EncodeCons(|aux|, q))
  {
    hide At, SatAll, EncodeCons, InField;
    EncodeDecides(asg, |aux|, q, x);
  }

  // -------------------------------------------------------- the whole kit

  function ConstantOut(b: Bytes32): (r: seq<Boolean>)
    ensures |r| == 256
  {
    seq(256, i requires 0 <= i < 256 => Constant(BytesToBits(b)[i]))
  }

  /** The gadget of a hash with one value. */
  function ConstantHash(b: Bytes32): HashGadget {
    HashGadget(ins => 0, (n: nat, ins) => [], (n: nat, ins) => ConstantOut(b), (aux, ins, k: nat) => None)
  }

  lemma ConstantHashCorrect(spec: HashSpec, b: Bytes32, p: int)
    requires forall s :: spec(s).Some? ==> spec(s).value == BytesToBits(b)
    ensures HashCorrect(ConstantHash(b), spec, p)
  {
    hide BytesToBits;
    var g := ConstantHash(b);
    forall n: nat, ins, asg ensures HashSoundAt(g, spec, p, n, ins, asg) {
      assert Vals(asg, ConstantOut(b)) == BytesToBits(b);
    }
  }

  ghost function SmallKit(): EcKit<Z24> { EcKit(SMALL, Scheme24(), At, 1, Repr24(), ConstantHash(Eight())) }

  /** All hypotheses on curve, scheme and gadgets at once. */
  lemma SmallKitReady()
    ensures KitReadyForCurve(SmallKit())
  {
    hide Coordinates, Proper, CofactorEight, ReprCorrect, HashCorrect, BytesToBits, BitsToBytes;
    SmallCoordinates();
    SmallProper();
    SmallCofactor();
    SmallRepr(SmallKit());
    ConstantHashCorrect(ChallengeSpec(Scheme24()), Eight(), 17);
  }

  // ------------------------------------------------ a key of mixed order

  lemma ChallengeIsEight(sk: nat, t: Z24, k: nat, u: Z24, hash: Bytes32)
    ensures MixedChallenge(Scheme24(), sk, t, k, u, hash) == 8
  {
    hide LeBytes, FromLe, BitsToBytes, Pow2;
    ThreeIsPrime();
    FromLeOf(8, 32);
  }

  /**
   The key 11 = 1 * 8 + 3, a point of the subgroup plus one of order 8: with
   R = 2 * 8 and s = 1 the circuit accepts, whatever the message, and the host refuses.
   */
  lemma SmallMixedKey(hash: Bytes32)
    ensures var c := SmallKit().scheme;
      && GadgetAccepts(c, MixedKey(c, 1, 3), MixedSignature(c, 2, 0, 1), hash)
      && !HostAccepts(c, MixedKey(c, 1, 3), MixedSignature(c, 2, 0, 1), hash)
  {
    hide Times, MixedChallenge, GadgetAccepts, HostAccepts, KeyInSubgroup, MixedKey, MixedSignature, Proper;
    SmallProper();
    ChallengeIsEight(1, 3, 2, 0, hash);
    assert Times(Group24(), 8, 3) == 0 by { Times24(8, 3); }
    MixedOrderKey(Scheme24(), 1, 3, 2, 1, hash);
  }
}
