/**
 Packing of bits into field elements, 254 bits each, as bellman's `multipack`
 does on the host (`compute_multipacking`) and in a circuit (`pack_into_inputs`).
 */
module Multipack {
  import opened Wrappers
  import opened Bits
  import opened PrimeField
  import opened R1cs

  /** Bits that always fit one element of the BLS12-381 scalar field. */
  const CAPACITY: nat := 254

  function ChunkLen<T>(s: seq<T>): (n: nat)
    ensures n <= |s| && (s != [] ==> 0 < n <= CAPACITY)
  {
    if |s| < CAPACITY then |s| else CAPACITY
  }

  /** The packed elements of a bit string. */
  function Pack(bits: seq<bool>): seq<int>
  {
    if bits == [] then [] else
      var m := ChunkLen(bits);
      [ValueOf(bits[..m])] + Pack(bits[m..])
  }

  lemma {:induction false} PackRange(bits: seq<bool>)
    ensures forall i :: 0 <= i < |Pack(bits)| ==> 0 <= Pack(bits)[i] < Pow2(CAPACITY)
  {
    hide Pow2, ValueOf;
    if bits != [] {
      var m := ChunkLen(bits);
      PackRange(bits[m..]);
      ValueBound(bits[..m]);
      Pow2Mono(m, CAPACITY);
    }
  }

  lemma {:induction false} PackInjective(s: seq<bool>, t: seq<bool>)
    requires |s| == |t| && Pack(s) == Pack(t)
    ensures s == t
  {
    if s != [] {
      var m := ChunkLen(s);
      assert Pack(s)[1..] == Pack(s[m..]) && Pack(t)[1..] == Pack(t[m..]);
      assert Pack(s)[0] == ValueOf(s[..m]) && Pack(t)[0] == ValueOf(t[..m]);
      ValueInjective(s[..m], t[..m]);
      PackInjective(s[m..], t[m..]);
      assert s == s[..m] + s[m..] && t == t[..m] + t[m..];
    }
  }

  lemma PackShort(bits: seq<bool>)
    requires 0 < |bits| <= CAPACITY
    ensures Pack(bits) == [ValueOf(bits)]
  {
    var m := ChunkLen(bits);
    assert bits[..m] == bits && bits[m..] == [];
  }

  lemma PackTwo(bits: seq<bool>)
    requires CAPACITY < |bits| <= 2 * CAPACITY
    ensures |Pack(bits)| == 2
  {
    PackShort(bits[CAPACITY..]);
  }

  /** One chunk on the host: double the coefficient, add it where the bit is set. */
  method PackChunk(p: int, bits: seq<bool>) returns (cur: int)
    requires p > Pow2(CAPACITY) && |bits| <= CAPACITY
    ensures cur == ValueOf(bits)
  {
    hide Pow2;
    assert Pow2(0) == 1 by { Pow2Zero(); }
    cur := 0;
    var coeff := 1;
    for i := 0 to |bits|
      invariant cur == ValueOf(bits[..i]) && coeff == Pow2(i)
    {
      assert bits[..i + 1] == bits[..i] + [bits[i]];
      ValueSnoc(bits[..i], bits[i]);
      ValueBound(bits[..i]);
      NoWrap(p, i, cur);
      if bits[i] {
        cur := (cur + coeff) % p;
      }
      coeff := (2 * coeff) % p;
    }
    assert bits[..|bits|] == bits;
  }

  /** Within a chunk neither the coefficient nor the sum reaches the modulus. */
  lemma NoWrap(p: int, i: nat, sum: int)
    requires p > Pow2(CAPACITY) && i < CAPACITY && 0 <= sum < Pow2(i)
    ensures (2 * Pow2(i)) % p == Pow2(i + 1) && (sum + Pow2(i)) % p == sum + Pow2(i)
  {
    hide Pow2;
    assert Pow2(i + 1) == 2 * Pow2(i) by { Pow2Double(i + 1); }
    Pow2Mono(i + 1, CAPACITY);
    QuotientUnique(2 * Pow2(i), p, 0, 2 * Pow2(i));
    QuotientUnique(sum + Pow2(i), p, 0, sum + Pow2(i));
  }

  method ComputeMultipacking(p: int, bits: seq<bool>) returns (result: seq<int>)
    requires p > Pow2(CAPACITY)
    ensures result == Pack(bits)
  {
    hide Pow2, ValueOf;
    result := [];
    var rest := bits;
    while rest != []
      invariant result + Pack(rest) == Pack(bits)
      decreases |rest|
    {
      var m := ChunkLen(rest);
      var cur := PackChunk(p, rest[..m]);
      AppendAssoc(result, [cur], Pack(rest[m..]));
      result := result + [cur];
      rest := rest[m..];
    }
  }

  // ------------------------------------------------------ in the circuit

  /** The sum of 2^i times bit i, over the first k bits. */
  function PackLc(bs: seq<Boolean>, k: nat): LinComb
    requires k <= |bs|
  {
    if k == 0 then [] else Plus(PackLc(bs, k - 1), bs[k - 1].Lc(Pow2(k - 1)))
  }

  function PackCon(chunk: seq<Boolean>, input: nat): Constraint {
    Constraint(PackLc(chunk, |chunk|), Plus([], ONES), Plus([], Single(1, Input(input))))
  }

  function PackCons(bs: seq<Boolean>, i0: nat): seq<Constraint> {
    if bs == [] then [] else
      var m := ChunkLen(bs);
      [PackCon(bs[..m], i0)] + PackCons(bs[m..], i0 + 1)
  }

  /** The value of a chunk, known when all its bits are. */
  function PackOpt(bits: seq<Option<bool>>, k: nat): Option<int>
    requires k <= |bits|
  {
    if k == 0 then Some(0) else
      match (PackOpt(bits, k - 1), bits[k - 1])
      case (Some(v), Some(b)) => Some(v + Pow2(k - 1) * Bit(b))
      case _ => None
  }

  function PackOpts(bits: seq<Option<bool>>): seq<Option<int>> {
    if bits == [] then [] else
      var m := ChunkLen(bits);
      [PackOpt(bits[..m], m)] + PackOpts(bits[m..])
  }

  /** The values an honest run allocates are those of the host. */
  lemma {:induction false} PackOptKnown(s: seq<bool>, k: nat)
    requires k <= |s|
    ensures PackOpt(Known(s), k) == Some(ValueOf(s[..k]))
  {
    if k > 0 {
      PackOptKnown(s, k - 1);
      assert s[..k] == s[..k - 1] + [s[k - 1]];
      ValueSnoc(s[..k - 1], s[k - 1]);
    }
  }

  lemma {:induction false} PackOptsKnown(s: seq<bool>)
    ensures PackOpts(Known(s)) == Known(Pack(s))
  {
    if s != [] {
      var m := ChunkLen(s);
      assert Known(s)[..m] == Known(s[..m]) && Known(s)[m..] == Known(s[m..]);
      PackOptKnown(s[..m], m);
      assert s[..m][..m] == s[..m];
      PackOptsKnown(s[m..]);
    }
  }

  method PackIntoInputs(p: int, cs: ConstraintSystem, bs: seq<Boolean>)
    requires p > Pow2(CAPACITY)
    modifies cs
    ensures cs.constraints == old(cs.constraints) + PackCons(bs, |old(cs.inputs)|)
    ensures cs.inputs == old(cs.inputs) + PackOpts(ReadBits(cs.aux, bs))
    ensures cs.aux == old(cs.aux)
  {
    hide Pow2, PackCon, PackOpt, ReadBit;
    ghost var cons0, inputs0, i0 := cs.constraints, cs.inputs, |cs.inputs|;
    var rest := bs;
    while rest != []
      invariant cs.constraints + PackCons(rest, |cs.inputs|) == cons0 + PackCons(bs, i0)
      invariant cs.inputs + PackOpts(ReadBits(cs.aux, rest)) == inputs0 + PackOpts(ReadBits(cs.aux, bs))
      invariant cs.aux == old(cs.aux)
      decreases |rest|
    {
      var m := ChunkLen(rest);
      ghost var known := ReadBits(cs.aux, rest);
      assert known[..m] == ReadBits(cs.aux, rest[..m]) && known[m..] == ReadBits(cs.aux, rest[m..]);
      AppendAssoc(cs.constraints, [PackCon(rest[..m], |cs.inputs|)], PackCons(rest[m..], |cs.inputs| + 1));
      AppendAssoc(cs.inputs, [PackOpt(known[..m], m)], PackOpts(known[m..]));
      PackChunkIntoInput(p, cs, rest[..m]);
      rest := rest[m..];
    }
  }

  /** One chunk: accumulate the combination and its value, then bind them to a new input. */
  method PackChunkIntoInput(p: int, cs: ConstraintSystem, chunk: seq<Boolean>)
    requires p > Pow2(CAPACITY) && |chunk| <= CAPACITY
    modifies cs
    ensures cs.constraints == old(cs.constraints) + [PackCon(chunk, |old(cs.inputs)|)]
    ensures cs.inputs == old(cs.inputs) + [PackOpt(ReadBits(cs.aux, chunk), |chunk|)]
    ensures cs.aux == old(cs.aux)
  {
    hide Pow2, ReadBit, Boolean.Lc, Plus;
    assert Pow2(0) == 1 by { Pow2Zero(); }
    var num := [];
    var value: Option<int> := Some(0);
    var coeff := 1;
    for i := 0 to |chunk|
      invariant num == PackLc(chunk, i) && coeff == Pow2(i)
      invariant value == PackOpt(ReadBits(cs.aux, chunk), i)
      invariant cs.constraints == old(cs.constraints) && cs.inputs == old(cs.inputs) && cs.aux == old(cs.aux)
    {
      PackOptRange(ReadBits(cs.aux, chunk), i);
      NoWrap(p, i, if value.Some? then value.value else 0);
      num := Plus(num, chunk[i].Lc(coeff));
      match (value, cs.GetValue(chunk[i])) {
        case (Some(v), Some(b)) => value := Some(if b then (v + coeff) % p else v);
        case _ => value := None;
      }
      coeff := (2 * coeff) % p;
    }
    var input := cs.AllocInput(value);
    cs.Enforce(num, Plus([], ONES), Plus([], Single(1, input)));
  }

  lemma {:induction false} PackOptRange(bits: seq<Option<bool>>, k: nat)
    requires k <= |bits|
    ensures PackOpt(bits, k).Some? ==> 0 <= PackOpt(bits, k).value < Pow2(k)
  {
    if k > 0 { PackOptRange(bits, k - 1); }
  }

  lemma BitTerm(asg: Assignment, bs: seq<Boolean>, i: nat, coeff: int)
    requires i < |bs| && AllBits(asg, bs)
    ensures Eval(bs[i].Lc(coeff), asg) == if Vals(asg, bs)[i] then coeff else 0
  {
    assert bs[i].IsBit(asg);
    LcVal(bs[i], coeff, asg);
  }

  lemma SnocAt(s: seq<bool>, i: nat)
    requires i < |s|
    ensures ValueOf(s[..i + 1]) == ValueOf(s[..i]) + if s[i] then Pow2(i) else 0
  {
    assert s[..i + 1] == s[..i] + [s[i]];
    ValueSnoc(s[..i], s[i]);
  }

  lemma PackLcNone(asg: Assignment, bs: seq<Boolean>)
    ensures Eval(PackLc(bs, 0), asg) == 0 == ValueOf(Vals(asg, bs)[..0])
  {
    assert Vals(asg, bs)[..0] == [];
  }

  lemma PackLcStep(asg: Assignment, bs: seq<Boolean>, k: nat)
    requires 0 < k <= |bs|
    ensures Eval(PackLc(bs, k), asg) == Eval(PackLc(bs, k - 1), asg) + Eval(bs[k - 1].Lc(Pow2(k - 1)), asg)
  {
    hide Boolean.Lc, Pow2, Eval;
  }

  lemma {:induction false} PackLcValue(asg: Assignment, bs: seq<Boolean>, k: nat)
    requires k <= |bs| && AllBits(asg, bs)
    ensures Eval(PackLc(bs, k), asg) == ValueOf(Vals(asg, bs)[..k])
  {
    hide *;
    if k == 0 {
      PackLcNone(asg, bs);
    } else {
      PackLcValue(asg, bs, k - 1);
      PackLcStep(asg, bs, k);
      BitTerm(asg, bs, k - 1, Pow2(k - 1));
      SnocAt(Vals(asg, bs), k - 1);
    }
  }

  lemma PackConIs(p: int, asg: Assignment, chunk: seq<Boolean>, input: nat)
    requires p > 0
    ensures Sat(p, asg, PackCon(chunk, input)) <==>
            Congruent(p, Eval(PackLc(chunk, |chunk|), asg), asg.At(Input(input)))
  {
    hide PackLc, Congruent;
    assert Eval(Plus([], ONES), asg) == 1;
  }

  lemma InputScalar(p: int, asg: Assignment, input: nat)
    requires InField(p, asg)
    ensures 0 <= asg.At(Input(input)) < p
  {
  }

  lemma PackConMeaning(p: int, asg: Assignment, chunk: seq<Boolean>, input: nat)
    requires p > Pow2(CAPACITY) && InField(p, asg) && |chunk| <= CAPACITY && AllBits(asg, chunk)
    ensures Sat(p, asg, PackCon(chunk, input)) <==> asg.At(Input(input)) == ValueOf(Vals(asg, chunk))
  {
    hide *;
    var v, x := ValueOf(Vals(asg, chunk)), asg.At(Input(input));
    PackLcValue(asg, chunk, |chunk|);
    assert Vals(asg, chunk)[..|chunk|] == Vals(asg, chunk);
    PackConIs(p, asg, chunk, input);
    ValueBound(Vals(asg, chunk));
    Pow2Mono(|chunk|, CAPACITY);
    InputScalar(p, asg, input);
    if Congruent(p, v, x) { CongruentUnique(p, v, x); }
    CongruentSelf(p, x);
  }

  /** Inputs from i0 on hold the given elements. */
  ghost predicate InputsAre(asg: Assignment, i0: nat, elements: seq<int>) {
    forall i :: 0 <= i < |elements| ==> asg.At(Input(i0 + i)) == elements[i]
  }

  /** For bit vectors the packing constraints hold exactly when the inputs are the host's packing. */
  lemma {:induction false} PackMeaning(p: int, asg: Assignment, bs: seq<Boolean>, i0: nat)
    requires p > Pow2(CAPACITY) && InField(p, asg) && AllBits(asg, bs)
    ensures SatAll(p, asg, PackCons(bs, i0)) <==> InputsAre(asg, i0, Pack(Vals(asg, bs)))
  {
    if bs == [] {
    } else {
      hide Sat, PackCon, Pow2, InputsAre, SatAll, AllBits, Pack;
      var m := ChunkLen(bs);
      var s := Vals(asg, bs);
      ValsSplit(asg, bs, m);
      PackSplit(s);
      PackConMeaning(p, asg, bs[..m], i0);
      PackMeaning(p, asg, bs[m..], i0 + 1);
      SatConcat(p, asg, [PackCon(bs[..m], i0)], PackCons(bs[m..], i0 + 1));
      InputsAreConcat(asg, i0, [ValueOf(s[..m])], Pack(s[m..]));
      SatOne(p, asg, PackCon(bs[..m], i0));
      InputsAreOne(asg, i0, ValueOf(s[..m]));
    }
  }

  lemma ValsSplit(asg: Assignment, bs: seq<Boolean>, m: nat)
    requires m <= |bs| && AllBits(asg, bs)
    ensures AllBits(asg, bs[..m]) && AllBits(asg, bs[m..])
    ensures Vals(asg, bs)[..m] == Vals(asg, bs[..m]) && Vals(asg, bs)[m..] == Vals(asg, bs[m..])
  {
    assert bs == bs[..m] + bs[m..];
    ValsConcat(asg, bs[..m], bs[m..]);
  }

  lemma PackSplit(s: seq<bool>)
    requires s != []
    ensures Pack(s) == [ValueOf(s[..ChunkLen(s)])] + Pack(s[ChunkLen(s)..])
  {
  }

  lemma InputsAreOne(asg: Assignment, i0: nat, x: int)
    ensures InputsAre(asg, i0, [x]) <==> asg.At(Input(i0)) == x
  {
    if InputsAre(asg, i0, [x]) { assert asg.At(Input(i0 + 0)) == [x][0]; }
  }

  lemma SatOne(p: int, asg: Assignment, k: Constraint)
    requires p > 0
    ensures SatAll(p, asg, [k]) <==> Sat(p, asg, k)
  {
    if SatAll(p, asg, [k]) { assert Sat(p, asg, [k][0]); }
  }

  lemma InputsAreConcat(asg: Assignment, i0: nat, u: seq<int>, v: seq<int>)
    ensures InputsAre(asg, i0, u + v) <==> InputsAre(asg, i0, u) && InputsAre(asg, i0 + |u|, v)
  {
    if InputsAre(asg, i0, u + v) {
      forall i | 0 <= i < |u| ensures asg.At(Input(i0 + i)) == u[i] {
        assert (u + v)[i] == u[i];
      }
      forall i | 0 <= i < |v| ensures asg.At(Input(i0 + |u| + i)) == v[i] {
        assert (u + v)[|u| + i] == v[i];
      }
    }
    if InputsAre(asg, i0, u) && InputsAre(asg, i0 + |u|, v) {
      forall i | 0 <= i < |u + v| ensures asg.At(Input(i0 + i)) == (u + v)[i] {
        if i >= |u| { assert asg.At(Input(i0 + |u| + (i - |u|))) == v[i - |u|]; }
      }
    }
  }

  /** A block that packs to the elements of s holds s: the block is uniquely determined. */
  lemma PackUnique(p: int, asg: Assignment, bs: seq<Boolean>, i0: nat, s: seq<bool>)
    requires p > Pow2(CAPACITY) && InField(p, asg) && AllBits(asg, bs) && |bs| == |s|
    requires SatAll(p, asg, PackCons(bs, i0)) && InputsAre(asg, i0, Pack(s))
    ensures Vals(asg, bs) == s
  {
    PackMeaning(p, asg, bs, i0);
    PackLength(Vals(asg, bs), s);
    var x, y := Pack(Vals(asg, bs)), Pack(s);
    assert forall i :: 0 <= i < |x| ==> x[i] == asg.At(Input(i0 + i)) == y[i];
    PackInjective(Vals(asg, bs), s);
  }

  lemma {:induction false} PackLength(s: seq<bool>, t: seq<bool>)
    requires |s| == |t|
    ensures |Pack(s)| == |Pack(t)|
  {
    if s != [] {
      PackLength(s[ChunkLen(s)..], t[ChunkLen(t)..]);
    }
  }
}
