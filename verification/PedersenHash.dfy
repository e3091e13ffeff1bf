/**
 The Pedersen hash as a function of points: the chunks and segments of
 `pedersen_hash` (crypto-circuit-age/src/gadgets/sapling_pedersen.rs), and what
 they imply for the commitment. Bits are read in threes, the last three
 completed with zeros.
 */
module PedersenHash {
  import opened Wrappers
  import opened Bits
  import opened PrimeField
  import opened Groups
  import opened FixedBase
  import opened PublicInputs
  import opened Transcript
  import opened Commit
  import opened Gadgets
  import opened AgeCircuit
  import opened AgeStatement

  const PERSONALIZATION_BITS: nat := 6

  function BitOrZero(bits: seq<bool>, i: nat): bool { i < |bits| && bits[i] }

  /** The table entry the first two bits select, negated by the third. */
  function DigitOf(a: bool, b: bool, c: bool): ChunkDigit {
    var m := 1 + Bit(a) + 2 * Bit(b);
    if c then 0 - m else m
  }

  function Digits(bits: seq<bool>): (ds: seq<ChunkDigit>)
    ensures |ds| == (|bits| + 2) / 3
    decreases |bits|
  {
    if bits == [] then [] else
      [DigitOf(bits[0], BitOrZero(bits, 1), BitOrZero(bits, 2))] + Digits(bits[if |bits| < 3 then |bits| else 3..])
  }

  function SegmentLen(ds: seq<ChunkDigit>): (n: nat)
    ensures n <= |ds| && (ds != [] ==> n > 0)
  {
    if |ds| < PEDERSEN_HASH_CHUNKS_PER_GENERATOR then |ds| else PEDERSEN_HASH_CHUNKS_PER_GENERATOR
  }

  /** The sum over segments of up to 63 chunks, each over its own generator; none if the generators run out. */
  function SegmentSum<P>(g: Group<P>, gens: seq<P>, ds: seq<ChunkDigit>): Option<P>
    decreases |gens|
  {
    if ds == [] then Some(g.zero)
    else if gens == [] then None
    else
      var rest :- SegmentSum(g, gens[1..], ds[SegmentLen(ds)..]);
      Some(g.add(ChunkSum(g, gens[0], 0, ds[..SegmentLen(ds)]), rest))
  }

  function OrZero<P>(g: Group<P>, x: Option<P>): P { if x.Some? then x.value else g.zero }

  /** The first operand, or its sum with what is there already. */
  function AddTo<P>(g: Group<P>, x: P, y: Option<P>): P { if y.Some? then g.add(x, y.value) else x }

  function Plus<P>(g: Group<P>, x: P, y: Option<P>): Option<P> {
    if y.Some? then Some(g.add(x, y.value)) else None
  }

  function NextBit(bits: seq<bool>, i: nat): nat
    requires i < |bits|
  {
    if i + 3 < |bits| then i + 3 else |bits|
  }

  lemma NextDigit(bits: seq<bool>, i: nat, ds: seq<ChunkDigit>, w: nat)
    requires i < |bits| && w <= |ds| && Digits(bits[i..]) == ds[w..]
    ensures w < |ds| && ds[w] == DigitOf(bits[i], BitOrZero(bits, i + 1), BitOrZero(bits, i + 2))
    ensures Digits(bits[NextBit(bits, i)..]) == ds[w + 1..]
  {
    var rest := bits[i..];
    assert ds[w..][0] == ds[w] && ds[w..][1..] == ds[w + 1..];
    assert rest[if |rest| < 3 then |rest| else 3..] == bits[NextBit(bits, i)..];
  }

  lemma NoChunks<P>(g: Group<P>, gen: P, w: nat)
    ensures ChunkSum(g, gen, w, []) == g.zero
  {
  }

  lemma NextSum<P(!new)>(g: Group<P>, gen: P, ds: seq<ChunkDigit>, w: nat, n: nat, acc: Option<P>)
    requires Abelian(g) && w < n <= |ds|
    ensures g.add(OrZero(g, acc), ChunkSum(g, gen, w, ds[w..n])) ==
            g.add(AddTo(g, SelectedPoint(g, gen, w, ds[w]), acc), ChunkSum(g, gen, w + 1, ds[w + 1..n]))
  {
    hide Abelian, SelectedPoint;
    var x, later := SelectedPoint(g, gen, w, ds[w]), ChunkSum(g, gen, w + 1, ds[w + 1..n]);
    assert ds[w..n][0] == ds[w] && ds[w..n][1..] == ds[w + 1..n];
    Assoc(g, OrZero(g, acc), x, later);
    Comm(g, x, OrZero(g, acc));
    Unit(g, x);
  }

  /** One segment: up to 63 chunks from bit i on. */
  method Segment<P(!new)>(g: Group<P>, gen: P, bits: seq<bool>, i0: nat) returns (r: P, i: nat)
    requires Abelian(g) && i0 < |bits|
    ensures i0 < i <= |bits|
    ensures var ds := Digits(bits[i0..]);
      r == ChunkSum(g, gen, 0, ds[..SegmentLen(ds)]) && Digits(bits[i..]) == ds[SegmentLen(ds)..]
  {
    hide Abelian, SelectedPoint, Digits, DigitOf, ChunkSum;
    ghost var ds := Digits(bits[i0..]);
    ghost var n := SegmentLen(ds);
    var acc: Option<P> := None;
    var w := 0;
    i := i0;
    Unit(g, ChunkSum(g, gen, 0, ds[..n]));
    while i < |bits| && w < PEDERSEN_HASH_CHUNKS_PER_GENERATOR
      invariant i0 <= i <= |bits| && w <= n && (w > 0 ==> acc.Some? && i > i0)
      invariant Digits(bits[i..]) == ds[w..]
      invariant ChunkSum(g, gen, 0, ds[..n]) == g.add(OrZero(g, acc), ChunkSum(g, gen, w, ds[w..n]))
    {
      NextDigit(bits, i, ds, w);
      NextSum(g, gen, ds, w, n, acc);
      var d := DigitOf(bits[i], BitOrZero(bits, i + 1), BitOrZero(bits, i + 2));
      acc := Some(AddTo(g, SelectedPoint(g, gen, w, d), acc));
      i, w := NextBit(bits, i), w + 1;
    }
    assert w == n;
    assert ds[n..n] == [] && ChunkSum(g, gen, n, []) == g.zero by { NoChunks(g, gen, n); }
    r := acc.value;
    Unit(g, r);
  }

  /** The whole hash point, none where the gadget is unsatisfiable. */
  method PedersenPoint<P(!new)>(g: Group<P>, gens: seq<P>, person: seq<bool>, bits: seq<bool>) returns (r: Option<P>)
    requires Abelian(g)
    ensures r == if |person| == PERSONALIZATION_BITS then SegmentSum(g, gens, Digits(person + bits)) else None
    ensures r.Some? <==> |person| == 6 && |person + bits| <= 189 * |gens|
    ensures r.Some? ==> r.value == SpecifiedPoint(g, gens, person + bits, 0)
  {
    hide Abelian, SpecifiedPoint;
    SegmentsSuffice(g, gens, Digits(person + bits));
    HashIsSpecified(g, gens, person + bits);
    if |person| != PERSONALIZATION_BITS {
      return None;
    }
    var all := person + bits;
    var acc: Option<P> := None;
    var i, seg := 0, 0;
    assert all[0..] == all && gens[0..] == gens;
    LeftUnit(g, SegmentSum(g, gens, Digits(all)));
    while i < |all|
      invariant i <= |all| && seg <= |gens| && (i > 0 ==> acc.Some?)
      invariant SegmentSum(g, gens, Digits(all)) ==
                Plus(g, OrZero(g, acc), SegmentSum(g, gens[seg..], Digits(all[i..])))
    {
      ghost var ds := Digits(all[i..]);
      ghost var n := SegmentLen(ds);
      if seg == |gens| {
        assert gens[seg..] == [];
        return None;
      }
      var x, next := Segment(g, gens[seg], all, i);
      assert gens[seg..][0] == gens[seg] && gens[seg..][1..] == gens[seg + 1..];
      ghost var later := SegmentSum(g, gens[seg + 1..], ds[n..]);
      assert SegmentSum(g, gens[seg..], ds) == Plus(g, x, later);
      if later.Some? { Assoc(g, OrZero(g, acc), x, later.value); }
      Comm(g, x, OrZero(g, acc));
      Unit(g, x);
      acc := Some(AddTo(g, x, acc));
      i, seg := next, seg + 1;
    }
    assert all[i..] == [];
    Unit(g, acc.value);
    r := acc;
  }

  lemma LeftUnit<P(!new)>(g: Group<P>, x: Option<P>)
    requires Abelian(g)
    ensures Plus(g, g.zero, x) == x
  {
    if x.Some? { Unit(g, x.value); }
  }

  // ------------------------------------------- the point, by the bits alone

  /** The two selector bits are the table's index, the first of lower value; the third is the sign. */
  lemma DigitMeaning(a: bool, b: bool, c: bool)
    ensures DigitOf(a, b, c) == (if c then -1 else 1) * (1 + ValueOf([a, b]))
    ensures DigitOf(a, b, c) == (1 - 2 * Bit(c)) * (1 + Bit(a) + 2 * Bit(b))
  {
    assert [a, b][1..] == [b] && [b][1..] == [];
    assert ValueOf([b]) == Bit(b) + 2 * ValueOf([]) && ValueOf([a, b]) == Bit(a) + 2 * ValueOf([b]);
  }

  function BitNumber(m: seq<bool>, i: nat): int { if i < |m| && m[i] then 1 else 0 }

  /** enc(m_j) of section 5.4.1.7 of the Zcash Protocol Specification, for the chunk from bit i on. */
  function ChunkInteger(m: seq<bool>, i: nat): int {
    (1 - 2 * BitNumber(m, i + 2)) * (1 + BitNumber(m, i) + 2 * BitNumber(m, i + 1))
  }

  /** The sum of enc(m_j) * 2^(4 j) over the n chunks from bit i on. */
  function SegmentInteger(m: seq<bool>, i: nat, n: nat): int {
    if n == 0 then 0 else SegmentInteger(m, i, n - 1) + ChunkInteger(m, i + 3 * (n - 1)) * Pow2(4 * (n - 1))
  }

  /** The chunks of the segment from bit i on, of which there are at most 63. */
  function ChunksFrom(m: seq<bool>, i: nat): nat
    requires i <= |m|
  {
    if |m| - i >= 189 then 63 else (|m| - i + 2) / 3
  }

  /** The hash point from segment k on: every 189 bits over their own generator. */
  function SpecifiedPoint<P>(g: Group<P>, gens: seq<P>, m: seq<bool>, k: nat): P
    decreases |gens| - k
  {
    if 189 * k >= |m| || k >= |gens| then g.zero
    else g.add(TimesInt(g, SegmentInteger(m, 189 * k, ChunksFrom(m, 189 * k)), gens[k]),
               SpecifiedPoint(g, gens, m, k + 1))
  }

  lemma {:induction false} DigitAt(bits: seq<bool>, k: nat)
    requires k < |Digits(bits)|
    ensures Digits(bits)[k] == DigitOf(BitOrZero(bits, 3 * k), BitOrZero(bits, 3 * k + 1), BitOrZero(bits, 3 * k + 2))
    decreases k
  {
    hide DigitOf;
    if k > 0 {
      var rest := bits[if |bits| < 3 then |bits| else 3..];
      DigitAt(rest, k - 1);
      assert Digits(bits)[k] == Digits(rest)[k - 1];
    }
  }

  /** The bits after n chunks. */
  function AfterChunks(bits: seq<bool>, n: nat): seq<bool> { if 3 * n <= |bits| then bits[3 * n..] else [] }

  lemma FirstChunk(bits: seq<bool>)
    requires bits != []
    ensures Digits(bits)[1..] == Digits(AfterChunks(bits, 1)) && |AfterChunks(bits, 1)| < |bits|
  {
    assert |bits| < 3 ==> bits[|bits|..] == [];
  }

  lemma MoreChunks(bits: seq<bool>, n: nat)
    ensures AfterChunks(AfterChunks(bits, 1), n) == AfterChunks(bits, n + 1)
  {
  }

  lemma {:induction false} DigitsAfter(bits: seq<bool>, n: nat)
    requires n <= |Digits(bits)|
    ensures Digits(bits)[n..] == Digits(AfterChunks(bits, n))
    decreases n
  {
    hide Digits;
    if n > 0 {
      FirstChunk(bits);
      DigitsAfter(AfterChunks(bits, 1), n - 1);
      MoreChunks(bits, n - 1);
      assert Digits(bits)[n..] == Digits(bits)[1..][n - 1..];
    }
  }

  lemma {:induction false} PowersOfSixteen(k: nat)
    ensures Power(16, k) == Pow2(4 * k)
  {
    hide Pow2;
    if k == 0 {
      Pow2Zero();
    } else {
      PowersOfSixteen(k - 1);
      PowerStep(16, k - 1);
      Pow2Add(4, 4 * (k - 1));
      FourBits();
    }
  }

  lemma FourBits()
    ensures Pow2(4) == 16
  {
    assert Pow2(2) == 4;
  }

  /** The digits of a segment encode the integer that its bits specify. */
  lemma {:induction false} EncodedSegment(m: seq<bool>, i: nat, n: nat)
    requires i <= |m| && n <= |Digits(m[i..])|
    ensures Encoded(Digits(m[i..])[..n]) == SegmentInteger(m, i, n)
  {
    hide Digits, DigitOf, Power, Pow2, ChunkInteger, Encoded;
    var ds := Digits(m[i..]);
    if n == 0 {
      NothingEncoded();
      assert ds[..0] == [];
    } else {
      EncodedSegment(m, i, n - 1);
      assert ds[..n] == ds[..n - 1] + [ds[n - 1]];
      EncodedSnoc(ds[..n - 1], ds[n - 1]);
      DigitAt(m[i..], n - 1);
      ChunkOfBits(m, i, 3 * (n - 1));
      PowersOfSixteen(n - 1);
    }
  }

  lemma NothingEncoded()
    ensures Encoded([]) == 0
  {
  }

  lemma ChunkOfBits(m: seq<bool>, i: nat, j: nat)
    requires i <= |m|
    ensures DigitOf(BitOrZero(m[i..], j), BitOrZero(m[i..], j + 1), BitOrZero(m[i..], j + 2)) == ChunkInteger(m, i + j)
  {
    DigitMeaning(BitOrZero(m[i..], j), BitOrZero(m[i..], j + 1), BitOrZero(m[i..], j + 2));
  }

  /** The sum over segments and chunks is the point that the specification defines by the bits. */
  lemma {:induction false} SumIsSpecified<P(!new)>(g: Group<P>, gens: seq<P>, m: seq<bool>, k: nat)
    requires Abelian(g) && k <= |gens| && 189 * k <= |m| && SegmentSum(g, gens[k..], Digits(m[189 * k..])).Some?
    ensures SegmentSum(g, gens[k..], Digits(m[189 * k..])) == Some(SpecifiedPoint(g, gens, m, k))
    decreases |gens| - k
  {
    hide Abelian, ChunkSum, SegmentInteger, TimesInt, Digits, ChunksFrom;
    var i, ds := 189 * k, Digits(m[189 * k..]);
    if i < |m| {
      var n := SegmentLen(ds);
      SegmentPoint(g, gens[k], m, i);
      DigitsAfter(m[i..], n);
      assert gens[k..][0] == gens[k] && gens[k..][1..] == gens[k + 1..];
      if i + 189 <= |m| {
        assert AfterChunks(m[i..], n) == m[189 * (k + 1)..];
        SumIsSpecified(g, gens, m, k + 1);
      } else {
        assert ds[n..] == [];
      }
    }
  }

  lemma HashIsSpecified<P(!new)>(g: Group<P>, gens: seq<P>, m: seq<bool>)
    requires Abelian(g)
    ensures SegmentSum(g, gens, Digits(m)).Some? ==>
            SegmentSum(g, gens, Digits(m)).value == SpecifiedPoint(g, gens, m, 0)
  {
    hide Abelian, Digits, SegmentSum, SpecifiedPoint;
    assert gens[0..] == gens && m[189 * 0..] == m;
    if SegmentSum(g, gens, Digits(m)).Some? { SumIsSpecified(g, gens, m, 0); }
  }

  lemma SegmentPoint<P(!new)>(g: Group<P>, gen: P, m: seq<bool>, i: nat)
    requires Abelian(g) && i <= |m|
    ensures SegmentLen(Digits(m[i..])) == ChunksFrom(m, i)
    ensures ChunkSum(g, gen, 0, Digits(m[i..])[..ChunksFrom(m, i)]) ==
            TimesInt(g, SegmentInteger(m, i, ChunksFrom(m, i)), gen)
  {
    hide Abelian, Digits, Encoded, Power, SegmentInteger, TimesInt;
    var n := ChunksFrom(m, i);
    EncodedSegment(m, i, n);
    ChunkSumIs(g, gen, 0, Digits(m[i..])[..n]);
    PowerZero(16);
    assert Power(16, 0) * Encoded(Digits(m[i..])[..n]) == Encoded(Digits(m[i..])[..n]);
  }

  // ----------------------------------------------------------- capacity

  lemma {:induction false} SegmentsSuffice<P>(g: Group<P>, gens: seq<P>, ds: seq<ChunkDigit>)
    ensures SegmentSum(g, gens, ds).Some? <==> |ds| <= PEDERSEN_HASH_CHUNKS_PER_GENERATOR * |gens|
    decreases |gens|
  {
    if ds != [] && gens != [] {
      SegmentsSuffice(g, gens[1..], ds[SegmentLen(ds)..]);
    }
  }

  /** With six generators exactly the inputs of up to 1128 bits have a hash, which leaves 1096 for randomness. */
  lemma Capacity<P>(g: Group<P>, gens: seq<P>, person: seq<bool>, bits: seq<bool>)
    requires |gens| == 6 && |person| == PERSONALIZATION_BITS
    ensures SegmentSum(g, gens, Digits(person + bits)).Some? <==> |bits| <= MAX_PEDERSEN_BITS
    ensures MAX_PEDERSEN_BITS == 32 + MAX_PEDERSEN_RANDOMNESS_BITS
  {
    SegmentsSuffice(g, gens, Digits(person + bits));
  }

  // --------------------------------------------- no exceptional additions

  /** The integer of the first w digits. */
  lemma {:induction false} EncodedSnoc(ds: seq<ChunkDigit>, d: ChunkDigit)
    ensures Encoded(ds + [d]) == Encoded(ds) + d * Power(16, |ds|)
  {
    if ds == [] {
      assert ds + [d] == [d] && [d][1..] == [];
      assert Encoded([d]) == d + 16 * Encoded([]);
      assert Power(16, 0) == 1;
    } else {
      EncodedSnoc(ds[1..], d);
      assert (ds + [d])[1..] == ds[1..] + [d];
      PowerStep(16, |ds| - 1);
      ScaledTerm(d, Power(16, |ds| - 1));
    }
  }

  lemma ScaledTerm(d: int, b: int)
    ensures 16 * (d * b) == d * (16 * b)
  {
  }

  /**
   Within a segment the running sum and the next entry are never equal, never
   opposite and never neutral: the incomplete addition of Montgomery points
   that the gadget uses meets none of the cases it does not cover.
   */
  lemma AdditionsRegular<P(!new)>(g: Group<P>, gen: P, ds: seq<ChunkDigit>, d: ChunkDigit)
    requires Abelian(g) && HasOrder(g, gen, JUBJUB_ORDER) && 0 < |ds| < PEDERSEN_HASH_CHUNKS_PER_GENERATOR
    ensures var sum, entry := ChunkSum(g, gen, 0, ds), SelectedPoint(g, gen, |ds|, d);
      sum != g.zero && entry != g.zero && sum != entry && sum != g.neg(entry)
  {
    hide Abelian, HasOrder, Power, Encoded;
    var e, t := Encoded(ds), d * Power(16, |ds|);
    ChunkSumIs(g, gen, 0, ds);
    PowerZero(16);
    assert Power(16, 0) * e == e;
    SelectedIs(g, gen, |ds|, d);
    EncodedBound(ds);
    EncodedBelowHalf(ds);
    EntrySize(ds, d);
    NotZeroBySum(g, gen, ds);
    Different(g, gen, t, 0);
    Different(g, gen, e, t);
    Different(g, gen, e, -t);
    TimesIntNeg(g, t, gen);
    assert TimesInt(g, 0, gen) == g.zero by { assert Times(g, 0, gen) == g.zero; }
  }

  /** Only the empty digit vector has the neutral sum. */
  lemma NotZeroBySum<P(!new)>(g: Group<P>, gen: P, ds: seq<ChunkDigit>)
    requires Abelian(g) && HasOrder(g, gen, JUBJUB_ORDER) && 0 < |ds| <= PEDERSEN_HASH_CHUNKS_PER_GENERATOR
    ensures ChunkSum(g, gen, 0, ds) != g.zero
  {
    PedersenPointsDistinct(g, gen, ds, []);
  }

  lemma EntrySize(ds: seq<ChunkDigit>, d: ChunkDigit)
    requires |ds| < PEDERSEN_HASH_CHUNKS_PER_GENERATOR
    ensures var e, t := Encoded(ds), d * Power(16, |ds|);
      e != t && e != -t && t != 0 && 0 - JUBJUB_ORDER < 2 * t < JUBJUB_ORDER
  {
    hide Power, Encoded;
    var b := Power(16, |ds|);
    EncodedBound(ds);
    PowerStep(16, |ds|);
    PowerMono(16, |ds| + 1, 63);
    PowerSixteen();
    DigitTimes(d, b);
  }

  lemma DigitTimes(d: int, b: int)
    requires b > 0 && -4 <= d <= 4 && d != 0
    ensures -4 * b <= d * b <= 4 * b && (d * b >= b || d * b <= -b)
  {
    if d > 0 { MulMono(b, 1, d); MulMono(b, d, 4); } else { MulMono(b, 1, -d); MulMono(b, -d, 4); }
  }

  lemma Different<P(!new)>(g: Group<P>, gen: P, j: int, k: int)
    requires Abelian(g) && HasOrder(g, gen, JUBJUB_ORDER) && j != k
    requires 0 - JUBJUB_ORDER < 2 * j < JUBJUB_ORDER && 0 - JUBJUB_ORDER < 2 * k < JUBJUB_ORDER
    ensures TimesInt(g, j, gen) != TimesInt(g, k, gen)
  {
    hide Abelian, HasOrder, TimesInt;
    if TimesInt(g, j, gen) == TimesInt(g, k, gen) {
      TimesIntEqual(g, gen, JUBJUB_ORDER, j, k);
      SmallZero(JUBJUB_ORDER, j - k);
    }
  }

  lemma TimesIntNeg<P(!new)>(g: Group<P>, k: int, x: P)
    requires Abelian(g)
    ensures TimesInt(g, -k, x) == g.neg(TimesInt(g, k, x))
  {
    hide Abelian;
    TimesIntAdd(g, -k, k, x);
    assert TimesInt(g, 0, x) == g.zero by { assert Times(g, 0, x) == g.zero; }
    DifferenceUnique(g, g.zero, TimesInt(g, k, x), TimesInt(g, -k, x));
    Unit(g, g.neg(TimesInt(g, k, x)));
  }

  // --------------------------------------------------- padding and digits

  function Padded(bits: seq<bool>): seq<bool> {
    bits + seq((3 - |bits| % 3) % 3, _ => false)
  }

  lemma DigitsDistinct(a: bool, b: bool, c: bool, x: bool, y: bool, z: bool)
    ensures DigitOf(a, b, c) == DigitOf(x, y, z) <==> a == x && b == y && c == z
  {
  }

  lemma PaddedSplit(bits: seq<bool>)
    requires bits != []
    ensures Padded(bits) == [bits[0], BitOrZero(bits, 1), BitOrZero(bits, 2)] +
                            Padded(bits[if |bits| < 3 then |bits| else 3..])
  {
  }

  /** Two inputs have the same digits exactly when they are equal once padded to a multiple of three. */
  lemma {:induction false} DigitsDetermine(s: seq<bool>, t: seq<bool>)
    ensures Digits(s) == Digits(t) <==> Padded(s) == Padded(t)
    decreases |s|
  {
    if s != [] && t != [] {
      var m, n := if |s| < 3 then |s| else 3, if |t| < 3 then |t| else 3;
      DigitsDetermine(s[m..], t[n..]);
      PaddedSplit(s);
      PaddedSplit(t);
      DigitsDistinct(s[0], BitOrZero(s, 1), BitOrZero(s, 2), t[0], BitOrZero(t, 1), BitOrZero(t, 2));
      assert Padded(s)[3..] == Padded(s[m..]) && Padded(t)[3..] == Padded(t[n..]);
      assert Digits(s)[1..] == Digits(s[m..]) && Digits(t)[1..] == Digits(t[n..]);
      if Digits(s) == Digits(t) {
        assert Digits(s)[0] == Digits(t)[0];
      }
      if Padded(s) == Padded(t) {
        assert Padded(s)[0] == Padded(t)[0] && Padded(s)[1] == Padded(t)[1] && Padded(s)[2] == Padded(t)[2];
      }
    }
  }

  lemma PaddedAfter(person: seq<bool>, s: seq<bool>)
    requires |person| % 3 == 0
    ensures Padded(person + s) == person + Padded(s)
  {
    assert (|person| + |s|) % 3 == |s| % 3;
  }

  /** Of inputs of one length the padding forgets nothing. */
  lemma PaddedSameLength(s: seq<bool>, t: seq<bool>)
    requires |s| == |t|
    ensures Padded(s) == Padded(t) <==> s == t
  {
    assert Padded(s)[..|s|] == s && Padded(t)[..|t|] == t;
  }

  // ------------------------------------------------------ the commitment

  /** The personalisation bits of section 5.4.1.7 of the Zcash Protocol Specification and its uses. */
  function PersonBits(t: Personalization): (r: seq<bool>)
    ensures |r| == PERSONALIZATION_BITS
  {
    match t
    case NoteCommitment => seq(6, _ => true)
    case MerkleTree(depth) => BitsLe(depth, 6)
  }

  /** The 6-bit number of a personalisation: a level of the tree, or 63 for note commitments. */
  lemma PersonBitsMeaning(t: Personalization)
    requires t.MerkleTree? ==> t.depth < 64
    ensures ValueOf(PersonBits(t)) == match t case NoteCommitment => 63 case MerkleTree(depth) => depth
  {
    assert Pow2(6) == 64 by { assert Pow2(3) == 8; }
    ValueOfBits(63, 6);
    assert BitsLe(63, 6) == seq(6, _ => true) by { assert BitsLe(7, 3) == [true, true, true]; }
    if t.MerkleTree? { ValueOfBits(t.depth, 6); }
  }

  /** No commitment's input selects the digits of a nullifier's, whatever follows the personalisation. */
  lemma PersonalisationsApart(x: seq<bool>, y: seq<bool>)
    ensures PersonBits(NoteCommitment) != PersonBits(MerkleTree(0))
    ensures Digits(PersonBits(NoteCommitment) + x) != Digits(PersonBits(MerkleTree(0)) + y)
  {
    hide BitsLe, ValueOf;
    PersonBitsMeaning(NoteCommitment);
    PersonBitsMeaning(MerkleTree(0));
    var s, t := PersonBits(NoteCommitment), PersonBits(MerkleTree(0));
    DigitsDetermine(s + x, t + y);
    PaddedAfter(s, x);
    PaddedAfter(t, y);
    assert (s + Padded(x))[..6] == s && (t + Padded(y))[..6] == t;
  }

  /** h.pedersen is the encoding of the hash point over six generators of the subgroup's order. */
  ghost predicate SaplingHash<P(!new)>(h: Hashes, g: Group<P>, gens: seq<P>, encode: P -> Bytes32) {
    && Abelian(g) && |gens| == 6 && HasOrder(g, gens[0], JUBJUB_ORDER)
    && (forall x, y :: encode(x) == encode(y) ==> x == y)
    && (forall t, s :: |s| <= MAX_PEDERSEN_BITS ==> PointEncoded(h, g, gens, encode, t, s))
  }

  ghost predicate PointEncoded<P>(h: Hashes, g: Group<P>, gens: seq<P>, encode: P -> Bytes32, t: Personalization,
                                  s: seq<bool>)
  {
    var x := SegmentSum(g, gens, Digits(PersonBits(t) + s));
    x.Some? && h.pedersen(t, s) == encode(x.value)
  }

  /** The hash of the library is the encoding of the point that the bits specify. */
  lemma HashedPoint<P(!new)>(h: Hashes, g: Group<P>, gens: seq<P>, encode: P -> Bytes32, t: Personalization,
                             s: seq<bool>)
    requires SaplingHash(h, g, gens, encode) && |s| <= 1128
    ensures h.pedersen(t, s) == encode(SpecifiedPoint(g, gens, PersonBits(t) + s, 0))
  {
    hide Abelian, HasOrder, Digits, SegmentSum, SpecifiedPoint, PersonBits;
    assert PointEncoded(h, g, gens, encode, t, s);
    HashIsSpecified(g, gens, PersonBits(t) + s);
  }

  /** Inputs that fit one segment hash alike exactly when they agree after padding. */
  lemma OneSegment<P(!new)>(g: Group<P>, gens: seq<P>, s: seq<bool>, t: seq<bool>)
    requires Abelian(g) && gens != [] && HasOrder(g, gens[0], JUBJUB_ORDER)
    requires |s| <= 3 * PEDERSEN_HASH_CHUNKS_PER_GENERATOR && |t| <= 3 * PEDERSEN_HASH_CHUNKS_PER_GENERATOR
    ensures SegmentSum(g, gens, Digits(s)) == SegmentSum(g, gens, Digits(t)) <==> Padded(s) == Padded(t)
  {
    hide Abelian, HasOrder, Digits, Padded, ChunkSum;
    OnlySegment(g, gens, Digits(s));
    OnlySegment(g, gens, Digits(t));
    PedersenPointsDistinct(g, gens[0], Digits(s), Digits(t));
    DigitsDetermine(s, t);
  }

  lemma OnlySegment<P(!new)>(g: Group<P>, gens: seq<P>, ds: seq<ChunkDigit>)
    requires Abelian(g) && gens != [] && |ds| <= PEDERSEN_HASH_CHUNKS_PER_GENERATOR
    ensures SegmentSum(g, gens, ds) == Some(ChunkSum(g, gens[0], 0, ds))
  {
    hide Abelian;
    if ds != [] {
      assert ds[..|ds|] == ds && ds[|ds|..] == [];
      assert SegmentSum(g, gens[1..], []) == Some(g.zero);
      Unit(g, ChunkSum(g, gens[0], 0, ds));
    }
  }

  /** For all randomness the host accepts: inputs that agree after padding give one commitment. */
  lemma PaddedAlike<P(!new)>(h: Hashes, g: Group<P>, gens: seq<P>, encode: P -> Bytes32,
                             d: i32, r: seq<bool>, e: i32, s: seq<bool>)
    requires SaplingHash(h, g, gens, encode)
    requires |r| <= MAX_PEDERSEN_RANDOMNESS_BITS && |s| <= MAX_PEDERSEN_RANDOMNESS_BITS
    ensures Padded(CommitBits(d, r)) == Padded(CommitBits(e, s)) ==> Commitment(h, d, r) == Commitment(h, e, s)
  {
    hide Abelian, HasOrder, Digits, SegmentSum, BitsLe, Padded;
    var x, y, person := CommitBits(d, r), CommitBits(e, s), PersonBits(NoteCommitment);
    assert PointEncoded(h, g, gens, encode, NoteCommitment, x);
    assert PointEncoded(h, g, gens, encode, NoteCommitment, y);
    PaddedAfter(person, x);
    PaddedAfter(person, y);
    DigitsDetermine(person + x, person + y);
  }

  /**
   The commitment as a function of what it commits to, for randomness that
   leaves one segment: two openings give the same 32 bytes exactly when their
   inputs agree after padding. No collision resistance is involved.
   */
  lemma CommitmentsEqual<P(!new)>(h: Hashes, g: Group<P>, gens: seq<P>, encode: P -> Bytes32,
                                  d: i32, r: seq<bool>, e: i32, s: seq<bool>)
    requires SaplingHash(h, g, gens, encode) && |r| <= 151 && |s| <= 151
    ensures Commitment(h, d, r) == Commitment(h, e, s) <==> Padded(CommitBits(d, r)) == Padded(CommitBits(e, s))
  {
    hide Abelian, HasOrder, Digits, SegmentSum, BitsLe, Padded;
    var x, y, person := CommitBits(d, r), CommitBits(e, s), PersonBits(NoteCommitment);
    assert PointEncoded(h, g, gens, encode, NoteCommitment, x);
    assert PointEncoded(h, g, gens, encode, NoteCommitment, y);
    OneSegment(g, gens, person + x, person + y);
    PaddedAfter(person, x);
    PaddedAfter(person, y);
    assert (person + Padded(x))[6..] == Padded(x) && (person + Padded(y))[6..] == Padded(y);
  }

  /** Of randomness of one length, as the circuit demands, a commitment has one opening. */
  lemma OneOpening<P(!new)>(h: Hashes, g: Group<P>, gens: seq<P>, encode: P -> Bytes32,
                            d: i32, r: seq<bool>, e: i32, s: seq<bool>)
    requires SaplingHash(h, g, gens, encode) && |r| == |s| <= 151
    ensures Commitment(h, d, r) == Commitment(h, e, s) <==> d == e && r == s
  {
    hide SaplingHash, Padded, BitsLe;
    CommitmentsEqual(h, g, gens, encode, d, r, e, s);
    PaddedSameLength(CommitBits(d, r), CommitBits(e, s));
    if CommitBits(d, r) == CommitBits(e, s) { CommitBitsInjective(d, r, e, s); }
  }

  function Zeros(k: nat): (r: seq<bool>)
    ensures |r| == k
  {
    seq(k, _ => false)
  }

  /** Appended zeros are forgotten as long as they fit in the last chunk. */
  lemma PaddedZeros(s: seq<bool>, k: nat)
    ensures Padded(s + Zeros(k)) == Padded(s) <==> k <= (3 - |s| % 3) % 3
  {
    var gap := (3 - |s| % 3) % 3;
    if k <= gap {
      assert |s + Zeros(k)| % 3 == (|s| % 3 + k) % 3;
      assert Padded(s + Zeros(k)) == Padded(s);
    } else {
      assert |Padded(s + Zeros(k))| >= |s| + k > |Padded(s)|;
    }
  }

  /**
   Across lengths it need not have: zeros appended to the randomness change
   nothing as long as they fit in the last chunk, at every length the host
   accepts; within one segment no more zeros do.
   */
  lemma ZerosVanish<P(!new)>(h: Hashes, g: Group<P>, gens: seq<P>, encode: P -> Bytes32, d: i32, r: seq<bool>, k: nat)
    requires SaplingHash(h, g, gens, encode) && |r| + k <= MAX_PEDERSEN_RANDOMNESS_BITS
    ensures var gap := (3 - (32 + |r|) % 3) % 3;
      && (k <= gap ==> Commitment(h, d, r + Zeros(k)) == Commitment(h, d, r))
      && (|r| + k <= 151 ==> (Commitment(h, d, r + Zeros(k)) == Commitment(h, d, r) <==> k <= gap))
  {
    hide SaplingHash, BitsLe, Padded, Zeros;
    var x := CommitBits(d, r);
    assert CommitBits(d, r + Zeros(k)) == x + Zeros(k);
    PaddedZeros(x, k);
    PaddedAlike(h, g, gens, encode, d, r + Zeros(k), d, r);
    if |r| + k <= 151 { CommitmentsEqual(h, g, gens, encode, d, r + Zeros(k), d, r); }
  }

  /** All witnesses of the circuit's statement over one commitment have the same date of birth and randomness. */
  lemma DateDetermined<P(!new)>(h: Hashes, g: Group<P>, gens: seq<P>, encode: P -> Bytes32, spec: SigSpec,
                                pub: AgePublic, v: AgeWitness, w: AgeWitness)
    requires SaplingHash(h, g, gens, encode)
    requires Statement(h, spec, pub, v) && Statement(h, spec, pub, w) && v.c == w.c
    ensures v.dobDays == w.dobDays && v.rBits == w.rBits
  {
    hide SaplingHash, Encode, Nullifier;
    OneOpening(h, g, gens, encode, v.dobDays, v.rBits, w.dobDays, w.rBits);
  }
}
