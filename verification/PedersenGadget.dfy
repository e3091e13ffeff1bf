/**
 The Pedersen hash gadget (crypto-circuit-age/src/gadgets/sapling_pedersen.rs):
 values that satisfy its lookups, additions and conversions end in the hash
 point that the bits of the input specify.
 */
module PedersenGadget {
  import Bits
  import opened Wrappers
  import opened PrimeField
  import opened R1cs
  import opened Groups
  import opened Lookup
  import opened FixedBase
  import opened Montgomery
  import opened MontgomeryGadgets
  import opened EdwardsLaw
  import opened EdwardsGadgets
  import opened EdwardsRun
  import opened Commit
  import opened SignatureGadget
  import PedersenHash

  // --------------------------------------------------------- one segment

  /** The running sum after entry i; the additions start at the places ns. */
  function Running(es: seq<MontgomeryPoint>, ns: seq<nat>, i: nat): MontgomeryPoint
    requires i < |es| && |ns| + 1 == |es|
  {
    if i == 0 then es[0] else LineOut(ns[i - 1], None, None)
  }

  /** The constraints of the first i additions, each of an entry to the sum before. */
  function SumCons(c: Curve, es: seq<MontgomeryPoint>, ns: seq<nat>, i: nat): seq<Constraint>
    requires i < |es| && |ns| + 1 == |es|
  {
    if i == 0 then [] else SumCons(c, es, ns, i - 1) + LineCons(c, ns[i - 1], es[i], Running(es, ns, i - 1))
  }

  /** Entry w is the one that digit w selects. */
  ghost predicate Selected<P>(c: Curve, g: Group<P>, at: P -> Coords, asg: Assignment, gen: P, es: seq<MontgomeryPoint>,
                              ds: seq<ChunkDigit>)
  {
    |es| == |ds| && forall w :: 0 <= w < |ds| ==> Carries(c, asg, es[w], at(SelectedPoint(g, gen, w, ds[w])))
  }

  lemma {:induction false} SumSnoc<P(!new)>(g: Group<P>, gen: P, w: nat, ds: seq<ChunkDigit>, d: ChunkDigit)
    requires Abelian(g)
    ensures ChunkSum(g, gen, w, ds + [d]) == g.add(SelectedPoint(g, gen, w + |ds|, d), ChunkSum(g, gen, w, ds))
    decreases |ds|
  {
    hide Abelian, SelectedPoint;
    var x := SelectedPoint(g, gen, w + |ds|, d);
    if ds == [] {
      assert [d][1..] == [] && ds + [d] == [d];
    } else {
      assert (ds + [d])[0] == ds[0] && (ds + [d])[1..] == ds[1..] + [d];
      SumSnoc(g, gen, w + 1, ds[1..], d);
      var y, rest := SelectedPoint(g, gen, w, ds[0]), ChunkSum(g, gen, w + 1, ds[1..]);
      Assoc(g, y, x, rest);
      Comm(g, y, x);
      Assoc(g, x, y, rest);
    }
  }

  /** Multiples of a generator of order n are killed by n. */
  lemma OrderKills<P(!new)>(g: Group<P>, gen: P, n: nat, k: int)
    requires Abelian(g) && HasOrder(g, gen, n)
    ensures Times(g, n, TimesInt(g, k, gen)) == g.zero
  {
    hide Abelian, HasOrder, Times;
    var m: nat := if k >= 0 then k else -k;
    OrderPositive(g, gen, n);
    TimesMul(g, n, m, gen);
    MultipleDivides(n, m);
    OrderAt(g, gen, n, n * m);
    if k < 0 {
      var y := Times(g, m, gen);
      TimesIntNegative(g, k, gen);
      TimesSum(g, n, y, g.neg(y));
      Inverses(g, y);
      TimesZero(g, n);
      Unit(g, Times(g, n, g.neg(y)));
    }
  }

  lemma OrderPositive<P(!new)>(g: Group<P>, gen: P, n: nat)
    requires HasOrder(g, gen, n)
    ensures n > 0
  {
  }

  lemma OddJubjub()
    ensures JUBJUB_ORDER % 2 == 1
  {
  }

  /** What an addition of a segment is given. */
  lemma StepRegular<P(!new)>(g: Group<P>, gen: P, ds: seq<ChunkDigit>, d: ChunkDigit)
    requires Abelian(g) && HasOrder(g, gen, JUBJUB_ORDER) && 0 < |ds| < PEDERSEN_HASH_CHUNKS_PER_GENERATOR
    ensures var x, y := SelectedPoint(g, gen, |ds|, d), ChunkSum(g, gen, 0, ds);
      && Times(g, JUBJUB_ORDER, x) == g.zero && Times(g, JUBJUB_ORDER, y) == g.zero
      && x != g.zero && y != g.zero && x != y && x != g.neg(y)
  {
    hide *;
    PedersenHash.AdditionsRegular(g, gen, ds, d);
    SelectedIs(g, gen, |ds|, d);
    OrderKills(g, gen, JUBJUB_ORDER, d * Power(16, |ds|));
    ChunkSumIs(g, gen, 0, ds);
    OrderKills(g, gen, JUBJUB_ORDER, Power(16, 0) * Encoded(ds));
    NotOpposite(g, SelectedPoint(g, gen, |ds|, d), ChunkSum(g, gen, 0, ds));
  }

  lemma NotOpposite<P(!new)>(g: Group<P>, x: P, y: P)
    requires Abelian(g) && y != g.neg(x)
    ensures x != g.neg(y)
  {
    hide Abelian;
    if x == g.neg(y) {
      Inverses(g, y);
      DifferenceUnique(g, g.zero, x, y);
      Unit(g, g.neg(x));
    }
  }

  /** The running sum of a segment carries the sum of the entries so far. */
  lemma {:induction false} RunningSound<P(!new)>(c: Curve, g: Group<P>, at: P -> Coords, asg: Assignment, gen: P,
      es: seq<MontgomeryPoint>, ns: seq<nat>, ds: seq<ChunkDigit>, i: nat)
    requires Coordinates(c, g, at) && Matching(c) && HasOrder(g, gen, JUBJUB_ORDER) && InField(c.p, asg)
    requires Selected(c, g, at, asg, gen, es, ds) && i < |ds| <= PEDERSEN_HASH_CHUNKS_PER_GENERATOR && |ns| + 1 == |es|
    requires c.p > 0 && SatAll(c.p, asg, SumCons(c, es, ns, i))
    ensures Carries(c, asg, Running(es, ns, i), at(ChunkSum(g, gen, 0, ds[..i + 1])))
  {
    hide Coordinates, Matching, HasOrder, InField, Carries, SatAll, LineCons, Abelian, ChunkSum, SelectedPoint, Times;
    CoordinateParts(c, g, at);
    var d := ds[i];
    assert ds[..i + 1] == ds[..i] + [d];
    SumSnoc(g, gen, 0, ds[..i], d);
    if i == 0 {
      assert ds[..0] == [];
      EmptyChunks(g, gen);
      Unit(g, SelectedPoint(g, gen, 0, d));
    } else {
      SatConcat(c.p, asg, SumCons(c, es, ns, i - 1), LineCons(c, ns[i - 1], es[i], Running(es, ns, i - 1)));
      RunningSound(c, g, at, asg, gen, es, ns, ds, i - 1);
      StepRegular(g, gen, ds[..i], d);
      OddJubjub();
      SumSound(c, g, at, asg, ns[i - 1], es[i], Running(es, ns, i - 1), JUBJUB_ORDER, SelectedPoint(g, gen, i, d),
               ChunkSum(g, gen, 0, ds[..i]), Running(es, ns, i));
    }
  }

  lemma EmptyChunks<P>(g: Group<P>, gen: P)
    ensures ChunkSum(g, gen, 0, []) == g.zero
  {
  }

  /** A segment: its additions and, at n, the way back to the Edwards curve. */
  function SegmentCons(c: Curve, es: seq<MontgomeryPoint>, ns: seq<nat>, n: nat): seq<Constraint>
    requires es != [] && |ns| + 1 == |es|
  {
    SumCons(c, es, ns, |es| - 1) + EdwardsCons(c, n, Running(es, ns, |es| - 1))
  }

  /** Satisfying values of a segment end in the sum of the entries its digits select. */
  lemma SegmentSound<P(!new)>(c: Curve, g: Group<P>, at: P -> Coords, asg: Assignment, gen: P,
                              es: seq<MontgomeryPoint>, ns: seq<nat>, n: nat, ds: seq<ChunkDigit>)
    requires Coordinates(c, g, at) && Matching(c) && HasOrder(g, gen, JUBJUB_ORDER) && InField(c.p, asg)
    requires Selected(c, g, at, asg, gen, es, ds) && 0 < |ds| <= PEDERSEN_HASH_CHUNKS_PER_GENERATOR && |ns| + 1 == |es|
    requires c.p > 0 && SatAll(c.p, asg, SegmentCons(c, es, ns, n))
    ensures PointAt(asg, EdwardsPoint(n, n + 1)) == at(ChunkSum(g, gen, 0, ds))
  {
    hide Coordinates, Matching, HasOrder, InField, Carries, SatAll, EdwardsCons, SumCons, Abelian, ChunkSum, Times;
    hide OnEdwards, Complete, PointAt;
    var k, x := |es| - 1, ChunkSum(g, gen, 0, ds);
    SatConcat(c.p, asg, SumCons(c, es, ns, k), EdwardsCons(c, n, Running(es, ns, k)));
    RunningSound(c, g, at, asg, gen, es, ns, ds, k);
    assert ds[..k + 1] == ds;
    CoordinateParts(c, g, at);
    ChunkSumIs(g, gen, 0, ds);
    OrderKills(g, gen, JUBJUB_ORDER, Power(16, 0) * Encoded(ds));
    PedersenHash.NotZeroBySum(g, gen, ds);
    OddJubjub();
    ProperFirst(c, g, at, JUBJUB_ORDER, x);
    PointsOnCurve(c, g, at, x, x);
    EdwardsSound(c, asg, n, Running(es, ns, k), at(x));
  }

  // -------------------------------------------------------- all segments

  /** A segment's entries, where its additions and its conversion start, and the addition to the segments before. */
  datatype SegmentPlaces = SegmentPlaces(entries: seq<MontgomeryPoint>, adds: seq<nat>, out: nat, sum: nat) {
    predicate Valid() { entries != [] && |adds| + 1 == |entries| }
    function Point(): EdwardsPoint { EdwardsPoint(out, out + 1) }
  }

  predicate AllValid(segs: seq<SegmentPlaces>) { forall i :: 0 <= i < |segs| ==> segs[i].Valid() }

  /** The sum of the first i segments. */
  function Accumulated(segs: seq<SegmentPlaces>, i: nat): EdwardsPoint
    requires 0 < i <= |segs|
  {
    if i == 1 then segs[0].Point() else AddOut(segs[i - 1].sum)
  }

  function HashCons(c: Curve, segs: seq<SegmentPlaces>, i: nat): seq<Constraint>
    requires AllValid(segs) && i <= |segs|
  {
    if i == 0 then [] else
      var s := segs[i - 1];
      HashCons(c, segs, i - 1) + SegmentCons(c, s.entries, s.adds, s.out)
      + (if i == 1 then [] else AddCons(c, s.sum, s.Point(), Accumulated(segs, i - 1)))
  }

  /** The digits by segments. */
  function Split(ds: seq<ChunkDigit>): seq<seq<ChunkDigit>> {
    if ds == [] then [] else [ds[..PedersenHash.SegmentLen(ds)]] + Split(ds[PedersenHash.SegmentLen(ds)..])
  }

  function SplitSum<P>(g: Group<P>, gens: seq<P>, dss: seq<seq<ChunkDigit>>): P
    requires |dss| <= |gens|
  {
    if dss == [] then g.zero else
      var k := |dss| - 1;
      g.add(ChunkSum(g, gens[k], 0, dss[k]), SplitSum(g, gens, dss[..k]))
  }

  lemma {:induction false} SplitSumFirst<P(!new)>(g: Group<P>, gens: seq<P>, x: seq<ChunkDigit>,
                                                  dss: seq<seq<ChunkDigit>>)
    requires Abelian(g) && |dss| < |gens|
    ensures SplitSum(g, gens, [x] + dss) == g.add(ChunkSum(g, gens[0], 0, x), SplitSum(g, gens[1..], dss))
    decreases |dss|
  {
    hide Abelian, ChunkSum;
    var k, all, first := |dss|, [x] + dss, ChunkSum(g, gens[0], 0, x);
    if k == 0 {
      assert all[..0] == [];
    } else {
      assert all[..k] == [x] + dss[..k - 1];
      SplitSumFirst(g, gens, x, dss[..k - 1]);
      var y, rest := ChunkSum(g, gens[k], 0, all[k]), SplitSum(g, gens[1..], dss[..k - 1]);
      Assoc(g, y, first, rest);
      Comm(g, y, first);
      Assoc(g, first, y, rest);
    }
  }

  /** The hash point is the sum over the split digits. */
  lemma {:induction false} SegmentsSplit<P(!new)>(g: Group<P>, gens: seq<P>, ds: seq<ChunkDigit>)
    requires Abelian(g) && PedersenHash.SegmentSum(g, gens, ds).Some?
    ensures |Split(ds)| <= |gens| && PedersenHash.SegmentSum(g, gens, ds) == Some(SplitSum(g, gens, Split(ds)))
    decreases |gens|
  {
    hide Abelian, ChunkSum;
    if ds != [] {
      var n := PedersenHash.SegmentLen(ds);
      SegmentsSplit(g, gens[1..], ds[n..]);
      SplitSumFirst(g, gens, ds[..n], Split(ds[n..]));
    }
  }

  predicate Sized(dss: seq<seq<ChunkDigit>>) {
    forall i :: 0 <= i < |dss| ==> 0 < |dss[i]| <= PEDERSEN_HASH_CHUNKS_PER_GENERATOR
  }

  lemma {:induction false} SplitSizes(ds: seq<ChunkDigit>)
    ensures Sized(Split(ds))
  {
    if ds != [] { SplitSizes(ds[PedersenHash.SegmentLen(ds)..]); }
  }

  /** The entries of every segment are those the digits select. */
  ghost predicate AllSelected<P(!new)>(c: Curve, g: Group<P>, at: P -> Coords, asg: Assignment, gens: seq<P>,
                                       segs: seq<SegmentPlaces>, dss: seq<seq<ChunkDigit>>)
  {
    && |segs| == |dss| <= |gens| && AllValid(segs)
    && (forall i :: 0 <= i < |dss| ==> HasOrder(g, gens[i], JUBJUB_ORDER))
    && (forall i :: 0 <= i < |dss| ==> Selected(c, g, at, asg, gens[i], segs[i].entries, dss[i]))
  }

  lemma HashConsParts(c: Curve, asg: Assignment, segs: seq<SegmentPlaces>, i: nat)
    requires AllValid(segs) && 0 < i <= |segs| && c.p > 0 && SatAll(c.p, asg, HashCons(c, segs, i))
    ensures var s := segs[i - 1];
      && SatAll(c.p, asg, HashCons(c, segs, i - 1)) && SatAll(c.p, asg, SegmentCons(c, s.entries, s.adds, s.out))
      && (i > 1 ==> SatAll(c.p, asg, AddCons(c, s.sum, s.Point(), Accumulated(segs, i - 1))))
  {
    hide SatAll, SegmentCons, AddCons;
    var s := segs[i - 1];
    var before, own := HashCons(c, segs, i - 1), SegmentCons(c, s.entries, s.adds, s.out);
    SatConcat(c.p, asg, before + own, if i == 1 then [] else AddCons(c, s.sum, s.Point(), Accumulated(segs, i - 1)));
    SatConcat(c.p, asg, before, own);
  }

  lemma {:induction false} AccumulatedSound<P(!new)>(c: Curve, g: Group<P>, at: P -> Coords, asg: Assignment,
      gens: seq<P>, segs: seq<SegmentPlaces>, dss: seq<seq<ChunkDigit>>, i: nat)
    requires AllSelected(c, g, at, asg, gens, segs, dss) && Sized(dss) && 0 < i <= |segs|
    requires c.p > 0 && SatAll(c.p, asg, HashCons(c, segs, i)) && InField(c.p, asg)
    requires Coordinates(c, g, at) && Matching(c)
    ensures PointAt(asg, Accumulated(segs, i)) == at(SplitSum(g, gens, dss[..i]))
  {
    hide Coordinates, Matching, HasOrder, InField, Selected, SatAll, SegmentCons, AddCons, Abelian, ChunkSum, PointAt;
    hide HashCons;
    CoordinateParts(c, g, at);
    HashConsParts(c, asg, segs, i);
    var s, x := segs[i - 1], ChunkSum(g, gens[i - 1], 0, dss[i - 1]);
    SegmentSound(c, g, at, asg, gens[i - 1], s.entries, s.adds, s.out, dss[i - 1]);
    assert dss[..i][..i - 1] == dss[..i - 1];
    if i == 1 {
      Unit(g, x);
    } else {
      AccumulatedSound(c, g, at, asg, gens, segs, dss, i - 1);
      AddSound(c, g, at, asg, s.sum, s.Point(), Accumulated(segs, i - 1), x, SplitSum(g, gens, dss[..i - 1]));
    }
  }

  /**
   The hash gadget after its lookups: with generators of the subgroup's order
   and entries that the digits of the input select, values that satisfy its
   additions and conversions end in the hash point.
   */
  lemma SumsSound<P(!new)>(c: Curve, g: Group<P>, at: P -> Coords, asg: Assignment, gens: seq<P>,
                           segs: seq<SegmentPlaces>, ds: seq<ChunkDigit>)
    requires Coordinates(c, g, at) && Matching(c) && InField(c.p, asg) && segs != []
    requires AllSelected(c, g, at, asg, gens, segs, Split(ds)) && PedersenHash.SegmentSum(g, gens, ds).Some?
    requires c.p > 0 && SatAll(c.p, asg, HashCons(c, segs, |segs|))
    ensures PointAt(asg, Accumulated(segs, |segs|)) == at(PedersenHash.SegmentSum(g, gens, ds).value)
  {
    hide Coordinates, Matching, HasOrder, InField, Selected, SatAll, HashCons, Abelian, ChunkSum, PointAt;
    CoordinateParts(c, g, at);
    SegmentsSplit(g, gens, ds);
    SplitSizes(ds);
    var dss := Split(ds);
    assert dss[..|segs|] == dss;
    AccumulatedSound(c, g, at, asg, gens, segs, dss, |segs|);
  }

  // ----------------------------------------------------------- the lookups

  /** The i-th bit of the input, false beyond its end. */
  function BitAtOrFalse(all: seq<Boolean>, i: nat): Boolean { if i < |all| then all[i] else Constant(false) }

  /** The point looked up for chunk w of the segment from bit i on, at its place. */
  function Entry(t: seq<Coords>, all: seq<Boolean>, i: nat, w: nat, n: nat): MontgomeryPoint
    requires |t| == 4
  {
    LookupOut(t, n, BitAtOrFalse(all, i + 3 * w), BitAtOrFalse(all, i + 3 * w + 1), None, None)
  }

  predicate Shaped(table: seq<seq<Coords>>) {
    |table| == PEDERSEN_HASH_CHUNKS_PER_GENERATOR && forall w :: 0 <= w < |table| ==> |table[w]| == 4
  }

  function Entries(table: seq<seq<Coords>>, all: seq<Boolean>, i: nat, looks: seq<nat>): (r: seq<MontgomeryPoint>)
    requires Shaped(table) && |looks| <= PEDERSEN_HASH_CHUNKS_PER_GENERATOR
    ensures |r| == |looks|
  {
    seq(|looks|, w requires 0 <= w < |looks| => Entry(table[w], all, i, w, looks[w]))
  }

  /** The constraints of the first k lookups of a segment. */
  function LookCons(table: seq<seq<Coords>>, all: seq<Boolean>, i: nat, looks: seq<nat>, k: nat): seq<Constraint>
    requires Shaped(table) && k <= |looks| <= PEDERSEN_HASH_CHUNKS_PER_GENERATOR
  {
    if k == 0 then [] else
      LookCons(table, all, i, looks, k - 1)
      + LookupCons(table[k - 1], looks[k - 1], BitAtOrFalse(all, i + 3 * (k - 1)),
                   BitAtOrFalse(all, i + 3 * (k - 1) + 1), BitAtOrFalse(all, i + 3 * (k - 1) + 2))
  }

  /** The table of a generator: 63 chunks of the Montgomery coordinates of four multiples. */
  ghost predicate TablesOf<P>(c: Curve, g: Group<P>, at: P -> Coords, gen: P, table: seq<seq<Coords>>) {
    Shaped(table) && forall w: nat :: w < |table| ==> TableOf(c, g, at, gen, w, table[w])
  }

  lemma {:induction false} LookAt(p: int, asg: Assignment, table: seq<seq<Coords>>, all: seq<Boolean>, i: nat,
                                  looks: seq<nat>, k: nat, w: nat)
    requires p > 0 && Shaped(table) && w < k <= |looks| <= PEDERSEN_HASH_CHUNKS_PER_GENERATOR
    requires SatAll(p, asg, LookCons(table, all, i, looks, k))
    ensures SatAll(p, asg, LookupCons(table[w], looks[w], BitAtOrFalse(all, i + 3 * w),
                                      BitAtOrFalse(all, i + 3 * w + 1), BitAtOrFalse(all, i + 3 * w + 2)))
  {
    hide SatAll, LookupCons, BitAtOrFalse;
    SatConcat(p, asg, LookCons(table, all, i, looks, k - 1),
              LookupCons(table[k - 1], looks[k - 1], BitAtOrFalse(all, i + 3 * (k - 1)),
                         BitAtOrFalse(all, i + 3 * (k - 1) + 1), BitAtOrFalse(all, i + 3 * (k - 1) + 2)));
    if w < k - 1 { LookAt(p, asg, table, all, i, looks, k - 1, w); }
  }

  lemma BitsRead(asg: Assignment, all: seq<Boolean>, i: nat, j: nat)
    requires AllBits(asg, all) && i <= |all|
    ensures BitAtOrFalse(all, i + j).IsBit(asg)
    ensures BitAtOrFalse(all, i + j).Holds(asg) == PedersenHash.BitOrZero(Vals(asg, all)[i..], j)
  {
    if i + j < |all| { assert all[i + j].IsBit(asg); }
  }

  lemma EntryBound(w: nat, k: nat)
    requires w < PEDERSEN_HASH_CHUNKS_PER_GENERATOR && k < 4
    ensures 0 < (k + 1) * Power(16, w) < JUBJUB_ORDER
  {
    hide Power;
    PowerMono(16, w, 62);
    PowerStep(16, 62);
    PowerSixteen();
    Bits.MulMono(Power(16, w), 1, k + 1);
    Bits.MulMono(Power(16, w), k + 1, 4);
  }

  lemma NonzeroEntry<P(!new)>(g: Group<P>, gen: P, w: nat, k: nat)
    requires Abelian(g) && HasOrder(g, gen, JUBJUB_ORDER) && w < PEDERSEN_HASH_CHUNKS_PER_GENERATOR && k < 4
    ensures ChunkPoint(g, gen, w, k) != g.zero
  {
    hide Abelian, HasOrder, Times, Power;
    TimesMul(g, k + 1, Power(16, w), gen);
    EntryBound(w, k);
    OrderAt(g, gen, JUBJUB_ORDER, (k + 1) * Power(16, w));
    if Divides(JUBJUB_ORDER, (k + 1) * Power(16, w)) { SmallZero(JUBJUB_ORDER, (k + 1) * Power(16, w)); }
  }

  /** One lookup gives the entry that the digit of its bits selects. */
  lemma EntrySound<P(!new)>(c: Curve, g: Group<P>, at: P -> Coords, asg: Assignment, gen: P, w: nat, t: seq<Coords>,
                            all: seq<Boolean>, m: seq<bool>, i: nat, n: nat)
    requires i <= |m| == |all| && m == Vals(asg, all) && c.p > 0 && |t| == 4
    requires SatAll(c.p, asg, LookupCons(t, n, BitAtOrFalse(all, i + 3 * w), BitAtOrFalse(all, i + 3 * w + 1),
                                         BitAtOrFalse(all, i + 3 * w + 2)))
    requires w < PEDERSEN_HASH_CHUNKS_PER_GENERATOR && AllBits(asg, all) && InField(c.p, asg)
    requires TableOf(c, g, at, gen, w, t) && HasOrder(g, gen, JUBJUB_ORDER) && Coordinates(c, g, at) && Matching(c)
    ensures
      var d := PedersenHash.DigitOf(PedersenHash.BitOrZero(m[i..], 3 * w), PedersenHash.BitOrZero(m[i..], 3 * w + 1),
                                    PedersenHash.BitOrZero(m[i..], 3 * w + 2));
      Carries(c, asg, Entry(t, all, i, w, n), at(SelectedPoint(g, gen, w, d)))
  {
    hide *;
    CoordinateParts(c, g, at);
    OddJubjub();
    var a, b, s := BitAtOrFalse(all, i + 3 * w), BitAtOrFalse(all, i + 3 * w + 1), BitAtOrFalse(all, i + 3 * w + 2);
    BitsRead(asg, all, i, 3 * w);
    BitsRead(asg, all, i, 3 * w + 1);
    BitsRead(asg, all, i, 3 * w + 2);
    BitsAre(a.Holds(asg));
    BitsAre(b.Holds(asg));
    NonzeroEntry(g, gen, w, Bits.Bit(a.Holds(asg)) + 2 * Bits.Bit(b.Holds(asg)));
    EntryIs(t, all, i, w, n);
    LookupSound(c, g, at, asg, gen, JUBJUB_ORDER, w, t, n, a, b, s, Entry(t, all, i, w, n));
  }

  lemma EntryIs(t: seq<Coords>, all: seq<Boolean>, i: nat, w: nat, n: nat)
    requires |t| == 4
    ensures var out := Entry(t, all, i, w, n);
      out == LookupOut(t, n, BitAtOrFalse(all, i + 3 * w), BitAtOrFalse(all, i + 3 * w + 1), out.x.value, out.y.value)
  {
    hide BitAtOrFalse;
  }

  /** The lookups of a segment give the entries that the digits of its bits select. */
  lemma LooksSound<P(!new)>(c: Curve, g: Group<P>, at: P -> Coords, asg: Assignment, gen: P, table: seq<seq<Coords>>,
                            all: seq<Boolean>, i: nat, looks: seq<nat>)
    requires Coordinates(c, g, at) && Matching(c) && InField(c.p, asg) && HasOrder(g, gen, JUBJUB_ORDER)
    requires TablesOf(c, g, at, gen, table) && |looks| <= PEDERSEN_HASH_CHUNKS_PER_GENERATOR && AllBits(asg, all)
    requires i <= |all| && |looks| <= |PedersenHash.Digits(Vals(asg, all)[i..])|
    requires c.p > 0 && SatAll(c.p, asg, LookCons(table, all, i, looks, |looks|))
    ensures Selected(c, g, at, asg, gen, Entries(table, all, i, looks),
                     PedersenHash.Digits(Vals(asg, all)[i..])[..|looks|])
  {
    hide Coordinates, Matching, InField, HasOrder, Carries, SatAll, LookupCons, LookCons, TableOf, Abelian, Vals;
    hide AllBits;
    hide PedersenHash.Digits, PedersenHash.DigitOf, SelectedPoint, BitAtOrFalse, Entry;
    var ds, es := PedersenHash.Digits(Vals(asg, all)[i..]), Entries(table, all, i, looks);
    forall w: nat | w < |looks|
      ensures Carries(c, asg, es[w], at(SelectedPoint(g, gen, w, ds[..|looks|][w])))
    {
      LookAt(c.p, asg, table, all, i, looks, |looks|, w);
      EntrySound(c, g, at, asg, gen, w, table[w], all, Vals(asg, all), i, looks[w]);
      PedersenHash.DigitAt(Vals(asg, all)[i..], w);
    }
  }

  /** Segment k takes the digits of the bits from 189 k on. */
  lemma {:induction false} SplitAt(m: seq<bool>, k: nat)
    requires k < |Split(PedersenHash.Digits(m))|
    ensures 189 * k < |m|
    ensures Split(PedersenHash.Digits(m))[k] ==
            PedersenHash.Digits(m[189 * k..])[..PedersenHash.ChunksFrom(m, 189 * k)]
    decreases k
  {
    hide PedersenHash.Digits;
    var ds := PedersenHash.Digits(m);
    var n := PedersenHash.SegmentLen(ds);
    assert m[0..] == m;
    if k > 0 {
      PedersenHash.DigitsAfter(m, n);
      assert PedersenHash.AfterChunks(m, n) == m[189..];
      SplitAt(m[189..], k - 1);
      assert m[189..][189 * (k - 1)..] == m[189 * k..];
    }
  }

  /** Segment k of the input has its lookups at looks[k] and adds up what they return. */
  predicate PlacedAt(tables: seq<seq<seq<Coords>>>, all: seq<Boolean>, looks: seq<seq<nat>>, segs: seq<SegmentPlaces>,
                     k: nat)
    requires k < |looks| && k < |segs| && k < |tables| && Shaped(tables[k]) && |looks[k]| <= 63
  {
    && 189 * k < |all| && |looks[k]| == (if |all| - 189 * k >= 189 then 63 else (|all| - 189 * k + 2) / 3)
    && segs[k].entries == Entries(tables[k], all, 189 * k, looks[k])
  }

  /** There is a table for each of the n segments, and no segment looks up more than it has chunks. */
  predicate Fitting(tables: seq<seq<seq<Coords>>>, looks: seq<seq<nat>>, n: nat) {
    && n <= |looks| && n <= |tables|
    && forall j :: 0 <= j < n ==> Shaped(tables[j]) && |looks[j]| <= PEDERSEN_HASH_CHUNKS_PER_GENERATOR
  }

  /** The lookups of the first k segments. */
  function AllLookCons(tables: seq<seq<seq<Coords>>>, all: seq<Boolean>, looks: seq<seq<nat>>, k: nat): seq<Constraint>
    requires Fitting(tables, looks, k)
  {
    if k == 0 then [] else
      AllLookCons(tables, all, looks, k - 1) + LookCons(tables[k - 1], all, 189 * (k - 1), looks[k - 1], |looks[k - 1]|)
  }

  /** The segments take the whole input, each its own lookups. */
  predicate AllPlaced(tables: seq<seq<seq<Coords>>>, all: seq<Boolean>, looks: seq<seq<nat>>,
                      segs: seq<SegmentPlaces>) {
    && Fitting(tables, looks, |segs|) && AllValid(segs) && |segs| == (|all| + 188) / 189
    && forall k :: 0 <= k < |segs| ==> PlacedAt(tables, all, looks, segs, k)
  }

  ghost predicate TablesReady<P(!new)>(c: Curve, g: Group<P>, at: P -> Coords, gens: seq<P>,
                                       tables: seq<seq<seq<Coords>>>)
  {
    && |gens| == |tables| && Coordinates(c, g, at) && Matching(c) && c.p > 0
    && (forall k :: 0 <= k < |gens| ==> HasOrder(g, gens[k], JUBJUB_ORDER))
    && (forall k :: 0 <= k < |gens| ==> TablesOf(c, g, at, gens[k], tables[k]))
  }

  lemma {:induction false} AllLooksAt(p: int, asg: Assignment, tables: seq<seq<seq<Coords>>>, all: seq<Boolean>,
                                      looks: seq<seq<nat>>, n: nat, k: nat)
    requires p > 0 && k < n && Fitting(tables, looks, n) && SatAll(p, asg, AllLookCons(tables, all, looks, n))
    ensures SatAll(p, asg, LookCons(tables[k], all, 189 * k, looks[k], |looks[k]|))
  {
    hide SatAll, LookCons;
    SatConcat(p, asg, AllLookCons(tables, all, looks, n - 1),
              LookCons(tables[n - 1], all, 189 * (n - 1), looks[n - 1], |looks[n - 1]|));
    if k < n - 1 { AllLooksAt(p, asg, tables, all, looks, n - 1, k); }
  }

  lemma {:induction false} SplitCount(m: seq<bool>)
    ensures |Split(PedersenHash.Digits(m))| == (|m| + 188) / 189
    decreases |m|
  {
    hide PedersenHash.Digits;
    var ds := PedersenHash.Digits(m);
    var n := PedersenHash.SegmentLen(ds);
    if m != [] {
      PedersenHash.DigitsAfter(m, n);
      if |m| >= 189 {
        assert PedersenHash.AfterChunks(m, n) == m[189..];
        SplitCount(m[189..]);
      } else {
        assert ds[n..] == [];
      }
    }
  }

  lemma SegmentSelected<P(!new)>(c: Curve, g: Group<P>, at: P -> Coords, asg: Assignment, gens: seq<P>,
      tables: seq<seq<seq<Coords>>>, all: seq<Boolean>, looks: seq<seq<nat>>, segs: seq<SegmentPlaces>, k: nat)
    requires AllPlaced(tables, all, looks, segs) && k < |segs| && AllBits(asg, all)
             && TablesReady(c, g, at, gens, tables)
    requires SatAll(c.p, asg, AllLookCons(tables, all, looks, |segs|)) && InField(c.p, asg)
    requires k < |Split(PedersenHash.Digits(Vals(asg, all)))|
    ensures Selected(c, g, at, asg, gens[k], segs[k].entries, Split(PedersenHash.Digits(Vals(asg, all)))[k])
  {
    hide Coordinates, Matching, InField, HasOrder, SatAll, AllLookCons, LookCons, TablesOf, Abelian, Vals, AllBits;
    hide Selected, Entries, Split, PedersenHash.Digits, Shaped;
    assert PlacedAt(tables, all, looks, segs, k);
    SplitAt(Vals(asg, all), k);
    AllLooksAt(c.p, asg, tables, all, looks, |segs|, k);
    LooksSound(c, g, at, asg, gens[k], tables[k], all, 189 * k, looks[k]);
  }

  /** What the lookups return are the entries of all segments. */
  lemma LookupsSelect<P(!new)>(c: Curve, g: Group<P>, at: P -> Coords, asg: Assignment, gens: seq<P>,
      tables: seq<seq<seq<Coords>>>, all: seq<Boolean>, looks: seq<seq<nat>>, segs: seq<SegmentPlaces>)
    requires AllPlaced(tables, all, looks, segs) && AllBits(asg, all) && TablesReady(c, g, at, gens, tables)
    requires SatAll(c.p, asg, AllLookCons(tables, all, looks, |segs|)) && InField(c.p, asg)
    ensures AllSelected(c, g, at, asg, gens, segs, Split(PedersenHash.Digits(Vals(asg, all))))
  {
    hide Coordinates, Matching, InField, HasOrder, SatAll, AllLookCons, LookCons, TablesOf, Abelian, Vals, AllBits;
    hide Selected, Entries, Split, PedersenHash.Digits, Shaped, PlacedAt;
    var m := Vals(asg, all);
    SplitCount(m);
    forall k: nat | k < |segs|
      ensures Selected(c, g, at, asg, gens[k], segs[k].entries, Split(PedersenHash.Digits(m))[k])
    {
      SegmentSelected(c, g, at, asg, gens, tables, all, looks, segs, k);
    }
  }

  /**
   The hash gadget: over the bits of personalisation and input, with tables of
   generators of the subgroup's order, any values that satisfy all lookups,
   additions and conversions end in the point that the bits specify.
   */
  lemma HashSound<P(!new)>(c: Curve, g: Group<P>, at: P -> Coords, asg: Assignment, gens: seq<P>,
      tables: seq<seq<seq<Coords>>>, all: seq<Boolean>, looks: seq<seq<nat>>, segs: seq<SegmentPlaces>)
    requires AllPlaced(tables, all, looks, segs) && all != [] && AllBits(asg, all)
    requires TablesReady(c, g, at, gens, tables) && InField(c.p, asg)
    requires SatAll(c.p, asg, AllLookCons(tables, all, looks, |segs|)) && SatAll(c.p, asg, HashCons(c, segs, |segs|))
    ensures segs != []
    ensures PointAt(asg, Accumulated(segs, |segs|)) == at(PedersenHash.SpecifiedPoint(g, gens, Vals(asg, all), 0))
  {
    hide *;
    var m := Vals(asg, all);
    PlacedParts(tables, all, looks, segs);
    TablesParts(c, g, at, gens, tables);
    LookupsSelect(c, g, at, asg, gens, tables, all, looks, segs);
    CoordinateParts(c, g, at);
    PedersenHash.SegmentsSuffice(g, gens, PedersenHash.Digits(m));
    EnoughSegments(|all|, |gens|);
    PedersenHash.HashIsSpecified(g, gens, m);
    SumsSound(c, g, at, asg, gens, segs, PedersenHash.Digits(m));
  }

  lemma EnoughSegments(n: nat, k: nat)
    requires (n + 188) / 189 <= k
    ensures (n + 2) / 3 <= PEDERSEN_HASH_CHUNKS_PER_GENERATOR * k
  {
  }

  lemma PlacedParts(tables: seq<seq<seq<Coords>>>, all: seq<Boolean>, looks: seq<seq<nat>>, segs: seq<SegmentPlaces>)
    requires AllPlaced(tables, all, looks, segs)
    ensures |segs| <= |tables| && AllValid(segs) && |segs| == (|all| + 188) / 189
  {
  }

  lemma TablesParts<P(!new)>(c: Curve, g: Group<P>, at: P -> Coords, gens: seq<P>, tables: seq<seq<seq<Coords>>>)
    requires TablesReady(c, g, at, gens, tables)
    ensures |gens| == |tables| && Coordinates(c, g, at) && Matching(c) && c.p > 0
  {
  }

  // ------------------------------------------- the hash of the library

  /** The personalisation as constant bits, then the input. */
  function Personalised(t: Personalization, ins: seq<Boolean>): (r: seq<Boolean>)
    ensures |r| == 6 + |ins|
  {
    seq(6, i requires 0 <= i < 6 => Constant(PedersenHash.PersonBits(t)[i])) + ins
  }

  lemma PersonalisedBits(asg: Assignment, t: Personalization, ins: seq<Boolean>)
    requires AllBits(asg, ins)
    ensures AllBits(asg, Personalised(t, ins))
    ensures Vals(asg, Personalised(t, ins)) == PedersenHash.PersonBits(t) + Vals(asg, ins)
  {
    hide PedersenHash.PersonBits;
    var person := seq(6, i requires 0 <= i < 6 => Constant(PedersenHash.PersonBits(t)[i]));
    ValsConcat(asg, person, ins);
    assert Vals(asg, person) == PedersenHash.PersonBits(t);
  }

  /**
   With the encoding of the point behind it, the gadget's output bits are those
   of the library's hash of the input: what soundness of a hash gadget asks.
   */
  lemma OutputSound<P(!new)>(e: EcKit<P>, h: Hashes, gens: seq<P>, t: Personalization, ins: seq<Boolean>,
      asg: Assignment, tables: seq<seq<seq<Coords>>>, looks: seq<seq<nat>>, segs: seq<SegmentPlaces>, n: nat)
    requires AllPlaced(tables, Personalised(t, ins), looks, segs) && segs != [] && AllBits(asg, ins)
    requires e.curve.p > 0 && SatAll(e.curve.p, asg, AllLookCons(tables, Personalised(t, ins), looks, |segs|))
    requires SatAll(e.curve.p, asg, HashCons(e.curve, segs, |segs|)) && InField(e.curve.p, asg) && |ins| <= 1128
    requires SatAll(e.curve.p, asg, e.repr.cons(n, Accumulated(segs, |segs|)))
    requires PedersenHash.SaplingHash(h, e.scheme.group, gens, e.scheme.encode) && ReprCorrect(e)
    requires TablesReady(e.curve, e.scheme.group, e.at, gens, tables)
    ensures var out := e.repr.out(n, Accumulated(segs, |segs|));
      AllBits(asg, out) && Vals(asg, out) == Bits.BytesToBits(h.pedersen(t, Vals(asg, ins)))
  {
    hide *;
    var all, m := Personalised(t, ins), PedersenHash.PersonBits(t) + Vals(asg, ins);
    PersonalisedBits(asg, t, ins);
    HashSound(e.curve, e.scheme.group, e.at, asg, gens, tables, all, looks, segs);
    PedersenHash.HashedPoint(h, e.scheme.group, gens, e.scheme.encode, t, Vals(asg, ins));
    UseRepr(e, n, Accumulated(segs, |segs|), asg, PedersenHash.SpecifiedPoint(e.scheme.group, gens, m, 0));
  }
}
