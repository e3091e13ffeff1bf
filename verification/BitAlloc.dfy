/** Allocation of integers, bytes and bit vectors as circuit bits (bits.rs). */
module BitAlloc {
  import opened Wrappers
  import opened Bits
  import opened R1cs

  /**
   What every allocator does: out is the next n variables, each carries its
   bit constraint, and they hold the given bits (none in a set-up run).
   */
  ghost predicate Allocates(aux0: seq<Option<int>>, cons0: seq<Constraint>, aux: seq<Option<int>>,
                            cons: seq<Constraint>, out: seq<Boolean>, n: nat, bits: Option<seq<bool>>)
    requires bits.Some? ==> |bits.value| == n
  {
    && out == BitVars(|aux0|, n)
    && aux == aux0 + BitValues(n, bits)
    && cons == cons0 + BoolCons(|aux0|, n)
  }

  function MapOption<T, U>(x: Option<T>, f: T -> U): Option<U> {
    match x
    case None => None
    case Some(v) => Some(f(v))
  }

  /** Allocating a further bit extends what was allocated before it. */
  lemma AllocatesSnoc(aux0: seq<Option<int>>, cons0: seq<Constraint>, aux: seq<Option<int>>,
                      cons: seq<Constraint>, out: seq<Boolean>, n: nat, bits: Option<seq<bool>>,
                      value: Option<bool>)
    requires bits.Some? ==> |bits.value| == n
    requires bits.Some? <==> value.Some?
    requires Allocates(aux0, cons0, aux, cons, out, n, bits)
    ensures Allocates(aux0, cons0, aux + [BitValue(value)], cons + [BoolCon(|aux|)], out + [Is(|aux|)],
                      n + 1, if bits.None? then None else Some(bits.value + [value.value]))
  {
    var all := if bits.None? then None else Some(bits.value + [value.value]);
    assert BitValues(n, bits) + [BitValue(value)] == BitValues(n + 1, all);
    assert BoolCons(|aux0|, n) + [BoolCon(|aux|)] == BoolCons(|aux0|, n + 1);
    assert BitVars(|aux0|, n) + [Is(|aux|)] == BitVars(|aux0|, n + 1);
    assert aux + [BitValue(value)] == aux0 + (BitValues(n, bits) + [BitValue(value)]);
    assert cons + [BoolCon(|aux|)] == cons0 + (BoolCons(|aux0|, n) + [BoolCon(|aux|)]);
  }

  /** Two allocations in a row are one. */
  lemma AllocatesConcat(aux0: seq<Option<int>>, cons0: seq<Constraint>, aux1: seq<Option<int>>,
                        cons1: seq<Constraint>, out1: seq<Boolean>, n: nat, bits1: Option<seq<bool>>,
                        aux2: seq<Option<int>>, cons2: seq<Constraint>, out2: seq<Boolean>, m: nat,
                        bits2: Option<seq<bool>>)
    requires bits1.Some? ==> |bits1.value| == n
    requires bits2.Some? ==> |bits2.value| == m
    requires bits1.Some? <==> bits2.Some?
    requires Allocates(aux0, cons0, aux1, cons1, out1, n, bits1)
    requires Allocates(aux1, cons1, aux2, cons2, out2, m, bits2)
    ensures Allocates(aux0, cons0, aux2, cons2, out1 + out2, n + m,
                      if bits1.None? then None else Some(bits1.value + bits2.value))
  {
    var all := if bits1.None? then None else Some(bits1.value + bits2.value);
    assert BitValues(n, bits1) + BitValues(m, bits2) == BitValues(n + m, all);
    assert BoolCons(|aux0|, n) + BoolCons(|aux1|, m) == BoolCons(|aux0|, n + m);
    assert BitVars(|aux0|, n) + BitVars(|aux1|, m) == BitVars(|aux0|, n + m);
    assert aux2 == aux0 + (BitValues(n, bits1) + BitValues(m, bits2));
    assert cons2 == cons0 + (BoolCons(|aux0|, n) + BoolCons(|aux1|, m));
  }

  /** The low n bits of a value, as every integer allocator takes them. */
  method AllocUintBits(cs: ConstraintSystem, value: Option<nat>, n: nat) returns (out: seq<Boolean>)
    modifies cs
    ensures Allocates(old(cs.aux), old(cs.constraints), cs.aux, cs.constraints, out, n,
                      MapOption(value, v => BitsLe(v, n)))
    ensures cs.inputs == old(cs.inputs)
  {
    out := [];
    for i := 0 to n
      invariant Allocates(old(cs.aux), old(cs.constraints), cs.aux, cs.constraints, out, i,
                          MapOption(value, v => BitsLe(v, i)))
      invariant cs.inputs == old(cs.inputs)
    {
      ghost var aux, cons, before := cs.aux, cs.constraints, out;
      var b := MapOption(value, v => BitAt(v, i));
      var bit := cs.AllocBit(b);
      out := out + [bit];
      AllocatesSnoc(old(cs.aux), old(cs.constraints), aux, cons, before, i,
                    MapOption(value, v => BitsLe(v, i)), b);
      if value.Some? { BitsLeSnoc(value.value, i); }
    }
  }

  method AllocU32Input(cs: ConstraintSystem, value: u32) returns (out: seq<Boolean>)
    modifies cs
    ensures Allocates(old(cs.aux), old(cs.constraints), cs.aux, cs.constraints, out, 32, Some(BitsLe(value, 32)))
    ensures cs.inputs == old(cs.inputs)
  {
    out := AllocUintBits(cs, Some(value), 32);
  }

  method AllocU32Witness(cs: ConstraintSystem, value: Option<u32>) returns (out: seq<Boolean>)
    modifies cs
    ensures Allocates(old(cs.aux), old(cs.constraints), cs.aux, cs.constraints, out, 32,
                      MapOption(value, v => BitsLe(v, 32)))
    ensures cs.inputs == old(cs.inputs)
  {
    out := AllocUintBits(cs, value, 32);
  }

  method AllocU8Witness(cs: ConstraintSystem, value: Option<byte>) returns (out: seq<Boolean>)
    modifies cs
    ensures Allocates(old(cs.aux), old(cs.constraints), cs.aux, cs.constraints, out, 8,
                      MapOption(value, v => BitsLe(v, 8)))
    ensures cs.inputs == old(cs.inputs)
  {
    out := AllocUintBits(cs, value, 8);
  }

  lemma NothingAllocated(aux: seq<Option<int>>, cons: seq<Constraint>, value: Option<u64>)
    ensures Allocates(aux, cons, aux, cons, [], 0, MapOption(value, v => BytesToBits(BeBytes(v, 8)[..0])))
  {
  }

  /** Eight bytes, most significant first; each byte's bits least significant first. */
  method AllocU64Witness(cs: ConstraintSystem, value: Option<u64>) returns (out: seq<Boolean>)
    modifies cs
    ensures Allocates(old(cs.aux), old(cs.constraints), cs.aux, cs.constraints, out, 64,
                      MapOption(value, v => BytesToBits(BeBytes(v, 8))))
    ensures cs.inputs == old(cs.inputs)
  {
    hide BytesToBits, BeBytes, BitsLe, Shr, BitValues, BoolCons, BitVars;
    NothingAllocated(cs.aux, cs.constraints, value);
    out := [];
    for i := 0 to 8
      invariant Allocates(old(cs.aux), old(cs.constraints), cs.aux, cs.constraints, out, 8 * i,
                          MapOption(value, v => BytesToBits(BeBytes(v, 8)[..i])))
      invariant cs.inputs == old(cs.inputs)
    {
      ghost var aux, cons, before := cs.aux, cs.constraints, out;
      var b: Option<nat> := MapOption(value, v => Shr(v, 8 * (7 - i)) % 256);
      var bits := AllocUintBits(cs, b, 8);
      out := out + bits;
      if value.Some? {
        var bs := BeBytes(value.value, 8);
        BeBytesAt(value.value, 8, i);
        assert bs[..i + 1] == bs[..i] + [bs[i]];
        BytesToBitsSnoc(bs[..i], bs[i]);
      }
      AllocatesConcat(old(cs.aux), old(cs.constraints), aux, cons, before, 8 * i,
                      MapOption(value, v => BytesToBits(BeBytes(v, 8)[..i])),
                      cs.aux, cs.constraints, bits, 8, MapOption(b, x => BitsLe(x, 8)));
    }
    if value.Some? {
      assert BeBytes(value.value, 8)[..8] == BeBytes(value.value, 8);
    }
  }

  /** Byte strings whose value is always known. */
  method AllocBytesInput(cs: ConstraintSystem, bytes: seq<byte>) returns (out: seq<Boolean>)
    modifies cs
    ensures Allocates(old(cs.aux), old(cs.constraints), cs.aux, cs.constraints, out, 8 * |bytes|,
                      Some(BytesToBits(bytes)))
    ensures cs.inputs == old(cs.inputs)
  {
    out := [];
    for i := 0 to |bytes|
      invariant Allocates(old(cs.aux), old(cs.constraints), cs.aux, cs.constraints, out, 8 * i,
                          Some(BytesToBits(bytes[..i])))
      invariant cs.inputs == old(cs.inputs)
    {
      ghost var aux, cons, before := cs.aux, cs.constraints, out;
      for j := 0 to 8
        invariant |out| == 8 * i + j && out[..8 * i] == before
        invariant Allocates(aux, cons, cs.aux, cs.constraints, out[8 * i..], j, Some(BitsLe(bytes[i], j)))
        invariant cs.inputs == old(cs.inputs)
      {
        ghost var auxJ, consJ, outJ := cs.aux, cs.constraints, out;
        var bit := cs.AllocBit(Some(BitAt(bytes[i], j)));
        out := out + [bit];
        AllocatesSnoc(aux, cons, auxJ, consJ, outJ[8 * i..], j, Some(BitsLe(bytes[i], j)),
                      Some(BitAt(bytes[i], j)));
        BitsLeSnoc(bytes[i], j);
        assert out[8 * i..] == outJ[8 * i..] + [bit];
      }
      assert bytes[..i + 1] == bytes[..i] + [bytes[i]];
      BytesToBitsSnoc(bytes[..i], bytes[i]);
      AllocatesConcat(old(cs.aux), old(cs.constraints), aux, cons, before, 8 * i,
                      Some(BytesToBits(bytes[..i])), cs.aux, cs.constraints, out[8 * i..], 8,
                      Some(BitsLe(bytes[i], 8)));
      assert out == before + out[8 * i..];
    }
    assert bytes[..|bytes|] == bytes;
  }

  /** n bits whose values are unknown. */
  method AllocUnknownBits(cs: ConstraintSystem, n: nat) returns (out: seq<Boolean>)
    modifies cs
    ensures Allocates(old(cs.aux), old(cs.constraints), cs.aux, cs.constraints, out, n, None)
    ensures cs.inputs == old(cs.inputs)
  {
    out := AllocUintBits(cs, None, n);
  }

  /** A witness byte string of a fixed length; a wrong length is refused. */
  method AllocBytesWitnessFixed(cs: ConstraintSystem, value: Option<seq<byte>>, expectedBytes: nat)
    returns (r: Result<seq<Boolean>, SynthesisError>)
    modifies cs
    ensures r.Ok? <==> (value.Some? ==> |value.value| == expectedBytes)
    ensures r.Ok? ==>
      Allocates(old(cs.aux), old(cs.constraints), cs.aux, cs.constraints, r.value, 8 * expectedBytes,
                MapOption(value, bs => BytesToBits(bs)))
    ensures r.Err? ==> cs.aux == old(cs.aux) && cs.constraints == old(cs.constraints)
    ensures cs.inputs == old(cs.inputs)
  {
    match value
    case Some(bytes) =>
      if |bytes| != expectedBytes {
        return Err(Unsatisfiable);
      }
      var out := AllocBytesInput(cs, bytes);
      r := Ok(out);
    case None =>
      var out := AllocUnknownBits(cs, 8 * expectedBytes);
      r := Ok(out);
  }

  /** A witness bit vector of a fixed length; a wrong length is refused. */
  method AllocBoolVecWitnessFixed(cs: ConstraintSystem, bits: Option<seq<bool>>, expectedLen: nat)
    returns (r: Result<seq<Boolean>, SynthesisError>)
    modifies cs
    ensures r.Ok? <==> (bits.Some? ==> |bits.value| == expectedLen)
    ensures r.Ok? ==>
      Allocates(old(cs.aux), old(cs.constraints), cs.aux, cs.constraints, r.value, expectedLen, bits)
    ensures r.Err? ==> cs.aux == old(cs.aux) && cs.constraints == old(cs.constraints)
    ensures cs.inputs == old(cs.inputs)
  {
    if bits.Some? && |bits.value| != expectedLen {
      return Err(Unsatisfiable);
    }
    var out := [];
    for i := 0 to expectedLen
      invariant Allocates(old(cs.aux), old(cs.constraints), cs.aux, cs.constraints, out, i,
                          if bits.None? then None else Some(bits.value[..i]))
      invariant cs.inputs == old(cs.inputs)
    {
      ghost var aux, cons, before := cs.aux, cs.constraints, out;
      var b := if bits.None? then None else Some(bits.value[i]);
      var bit := cs.AllocBit(b);
      out := out + [bit];
      AllocatesSnoc(old(cs.aux), old(cs.constraints), aux, cons, before, i,
                    if bits.None? then None else Some(bits.value[..i]), b);
      if bits.Some? { assert bits.value[..i + 1] == bits.value[..i] + [bits.value[i]]; }
    }
    if bits.Some? { assert bits.value[..expectedLen] == bits.value; }
    r := Ok(out);
  }
}
