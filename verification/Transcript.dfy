/**
 The credential transcript, written twice: as bytes on the host
 (`cred_v2_prehash_bytes`) and as bits in the circuit (`build_prehash_bits`).
 */
module Transcript {
  import opened Wrappers
  import opened Bits
  import opened R1cs
  import opened Constants
  import opened PublicInputs
  import opened Parsing

  /** A credential message; kid and schema are the UTF-8 bytes of the strings. */
  datatype CredMsg = CredMsg(v: byte, kid: seq<byte>, c: Bytes32, iat: u64, exp: u64, schema: seq<byte>)

  predicate Fits(m: CredMsg) { |m.kid| <= 255 && |m.schema| <= 255 }

  /** The canonical bytes. */
  function Encode(m: CredMsg): seq<byte>
    requires Fits(m)
  {
    CRED_DST + ([m.v] + (Short(m.kid) + (m.c + (BeBytes(m.iat, 8) + (BeBytes(m.exp, 8) + Short(m.schema))))))
  }

  lemma EncodeShort(m: CredMsg)
    requires Fits(m)
    ensures |Encode(m)| <= 1024
  {
    hide BeBytes;
  }

  method CredV2PrehashBytes(m: CredMsg) returns (r: Result<seq<byte>, Error>)
    ensures r == if Fits(m) then Ok(Encode(m)) else Err(FieldTooLong)
  {
    if |m.kid| > 255 || |m.schema| > 255 {
      return Err(FieldTooLong);
    }
    var out := CRED_DST;
    out := out + [m.v];
    out := out + [|m.kid|];
    out := out + m.kid;
    out := out + m.c;
    out := out + BeBytes(m.iat, 8);
    out := out + BeBytes(m.exp, 8);
    out := out + [|m.schema|];
    out := out + m.schema;
    assert out == Encode(m);
    r := Ok(out);
  }

  /** Reads a transcript off the front of a byte string. */
  function Decode(bs: seq<byte>): Option<(CredMsg, seq<byte>)> {
    var bs1 :- TakeTag(bs, CRED_DST);
    var (v, bs2) :- Take(bs1, 1);
    var (kid, bs3) :- TakeShort(bs2);
    var (c, bs4) :- Take(bs3, 32);
    var (iat, bs5) :- Take(bs4, 8);
    var (exp, bs6) :- Take(bs5, 8);
    var (schema, rest) :- TakeShort(bs6);
    BeOfFrom(iat);
    BeOfFrom(exp);
    Pow2Words();
    Some((CredMsg(v[0], kid, c, FromBe(iat), FromBe(exp), schema), rest))
  }

  /** All six fields come back, together with whatever followed the transcript. */
  lemma DecodeEncode(m: CredMsg, rest: seq<byte>)
    requires Fits(m)
    ensures Decode(Encode(m) + rest) == Some((m, rest))
  {
    hide BeBytes, FromBe, Take, TakeTag, TakeShort, Short;
    var t6 := Short(m.schema);
    var t5 := BeBytes(m.exp, 8) + t6;
    var t4 := BeBytes(m.iat, 8) + t5;
    var t3 := m.c + t4;
    var t2 := Short(m.kid) + t3;
    var t1 := [m.v] + t2;
    AppendAssoc(CRED_DST, t1, rest);
    TakeTagOf(CRED_DST, t1 + rest);
    AppendAssoc([m.v], t2, rest);
    TakeOf([m.v], t2 + rest);
    AppendAssoc(Short(m.kid), t3, rest);
    TakeShortOf(m.kid, t3 + rest);
    AppendAssoc(m.c, t4, rest);
    TakeOf(m.c, t4 + rest);
    AppendAssoc(BeBytes(m.iat, 8), t5, rest);
    TakeOf(BeBytes(m.iat, 8), t5 + rest);
    AppendAssoc(BeBytes(m.exp, 8), t6, rest);
    TakeOf(BeBytes(m.exp, 8), t6 + rest);
    TakeShortOf(m.schema, rest);
    Pow2Words();
    FromBeOf(m.iat, 8);
    FromBeOf(m.exp, 8);
  }

  /** The pieces the parser cuts, one after the other. */
  lemma DecodeParts(bs: seq<byte>)
    returns (bs1: seq<byte>, v: seq<byte>, bs2: seq<byte>, kid: seq<byte>, bs3: seq<byte>, c: seq<byte>, bs4: seq<byte>,
             iat: seq<byte>, bs5: seq<byte>, exp: seq<byte>, bs6: seq<byte>, schema: seq<byte>, rest: seq<byte>)
    requires Decode(bs).Some?
    ensures TakeTag(bs, CRED_DST) == Some(bs1) && Take(bs1, 1) == Some((v, bs2)) && TakeShort(bs2) == Some((kid, bs3))
    ensures Take(bs3, 32) == Some((c, bs4)) && Take(bs4, 8) == Some((iat, bs5)) && Take(bs5, 8) == Some((exp, bs6))
    ensures TakeShort(bs6) == Some((schema, rest)) && |v| == 1 && |c| == 32 && |iat| == 8 && |exp| == 8
    ensures 0 <= FromBe(iat) < 0x1_0000_0000_0000_0000 && 0 <= FromBe(exp) < 0x1_0000_0000_0000_0000
    ensures Decode(bs) == Some((CredMsg(v[0], kid, c, FromBe(iat), FromBe(exp), schema), rest))
  {
    hide Take, TakeTag, TakeShort, FromBe;
    bs1 := TakeTag(bs, CRED_DST).value;
    var (v', bs2') := Take(bs1, 1).value;
    var (kid', bs3') := TakeShort(bs2').value;
    var (c', bs4') := Take(bs3', 32).value;
    var (iat', bs5') := Take(bs4', 8).value;
    var (exp', bs6') := Take(bs5', 8).value;
    var (schema', rest') := TakeShort(bs6').value;
    v, bs2, kid, bs3, c, bs4 := v', bs2', kid', bs3', c', bs4';
    iat, bs5, exp, bs6, schema, rest := iat', bs5', exp', bs6', schema', rest';
    Untake(bs1, 1, []);
    Untake(bs3, 32, []);
    Untake(bs4, 8, []);
    Untake(bs5, 8, []);
    BeOfFrom(iat);
    BeOfFrom(exp);
    Pow2Words();
  }

  /** The encoding, with the version and the big-endian times as the bytes they were read from. */
  lemma EncodeIs(m: CredMsg, v: seq<byte>, iat: seq<byte>, exp: seq<byte>)
    requires Fits(m) && v == [m.v] && |iat| == |exp| == 8 && m.iat == FromBe(iat) && m.exp == FromBe(exp)
    ensures Encode(m) == CRED_DST + (v + (Short(m.kid) + (m.c + (iat + (exp + Short(m.schema))))))
  {
    hide BeBytes, FromBe, Short;
    BeOfFrom(iat);
    BeOfFrom(exp);
  }

  /** What the decoder accepts is an encoding and its remainder: nothing else decodes. */
  lemma EncodeDecode(bs: seq<byte>)
    requires Decode(bs).Some?
    ensures Fits(Decode(bs).value.0)
    ensures bs == Encode(Decode(bs).value.0) + Decode(bs).value.1
  {
    hide Take, TakeTag, TakeShort, TakeLong, Short, Long, FromBe, BeBytes, Encode, Decode;
    var bs1, v, bs2, kid, bs3, c, bs4, iat, bs5, exp, bs6, schema, rest := DecodeParts(bs);
    Untake(bs, 0, CRED_DST);
    Untake(bs1, 1, []);
    Untake(bs2, 0, []);
    Untake(bs3, 32, []);
    Untake(bs4, 8, []);
    Untake(bs5, 8, []);
    Untake(bs6, 0, []);
    var m := Decode(bs).value.0;
    EncodeIs(m, v, iat, exp);
    var t5 := exp + Short(schema);
    var t4 := iat + t5;
    var t3 := c + t4;
    var t2 := Short(kid) + t3;
    AppendAssoc(exp, Short(schema), rest);
    AppendAssoc(iat, t5, rest);
    AppendAssoc(c, t4, rest);
    AppendAssoc(Short(kid), t3, rest);
    AppendAssoc(v, t2, rest);
    AppendAssoc(CRED_DST, v + t2, rest);
  }

  /** No transcript is a prefix of a different one; in particular encoding is injective. */
  lemma PrefixFree(m: CredMsg, n: CredMsg, rest: seq<byte>)
    requires Fits(m) && Fits(n) && Encode(m) + rest == Encode(n)
    ensures m == n && rest == []
  {
    DecodeEncode(m, rest);
    DecodeEncode(n, []);
    assert Encode(n) + [] == Encode(n);
  }

  // ------------------------------------------------------ in the circuit

  /** Constant booleans for known bytes. */
  function ConstBits(bytes: seq<byte>): (r: seq<Boolean>)
    ensures |r| == 8 * |bytes|
    ensures forall i :: 0 <= i < |r| ==> r[i] == Constant(BytesToBits(bytes)[i])
  {
    seq(8 * |bytes|, i requires 0 <= i < 8 * |bytes| => Constant(BytesToBits(bytes)[i]))
  }

  lemma ConstBitsVals(asg: Assignment, bytes: seq<byte>)
    ensures AllBits(asg, ConstBits(bytes)) && Vals(asg, ConstBits(bytes)) == BytesToBits(bytes)
  {
    var cb := ConstBits(bytes);
    forall i | 0 <= i < |cb|
      ensures cb[i].IsBit(asg) && cb[i].Holds(asg) == BytesToBits(bytes)[i]
    {
      assert cb[i] == Constant(BytesToBits(bytes)[i]);
    }
  }

  function ByteLen(bits: seq<Boolean>): nat { |bits| / 8 }

  /** The lengths the circuit accepts. */
  predicate PrehashSizes(v: seq<Boolean>, kid: seq<Boolean>, c: seq<Boolean>, iat: seq<Boolean>,
                         exp: seq<Boolean>, schema: seq<Boolean>)
  {
    && |v| == 8 && |c| == 256 && |iat| == 64 && |exp| == 64
    && |kid| % 8 == 0 && |schema| % 8 == 0 && ByteLen(kid) < 256 && ByteLen(schema) < 256
  }

  function PrehashBits(v: seq<Boolean>, kid: seq<Boolean>, c: seq<Boolean>, iat: seq<Boolean>,
                       exp: seq<Boolean>, schema: seq<Boolean>): seq<Boolean>
    requires PrehashSizes(v, kid, c, iat, exp, schema)
  {
    ConstBits(CRED_DST) + (v + (ConstBits([ByteLen(kid)]) + (kid + (c + (iat + (exp +
      (ConstBits([ByteLen(schema)]) + schema)))))))
  }

  /** The constant bits of a byte, one push at a time. */
  method PushByte(out: seq<Boolean>, b: byte) returns (r: seq<Boolean>)
    ensures r == out + ConstBits([b])
  {
    r := out;
    for i := 0 to 8
      invariant |r| == |out| + i && r[..|out|] == out
      invariant forall j :: 0 <= j < i ==> r[|out| + j] == Constant(BitAt(b, j))
    {
      r := r + [Constant(BitAt(b, i))];
    }
    assert BytesToBits([b]) == BitsLe(b, 8) by { assert BytesToBits([b]) == BitsLe(b, 8) + BytesToBits([]); }
    forall j | 0 <= j < 8
      ensures r[|out| + j] == ConstBits([b])[j]
    {
      BitsLeAt(b, 8, j);
    }
    assert r == out + r[|out|..];
  }

  /** The constant bits of a byte string, byte by byte. */
  method ConstBytes(bytes: seq<byte>) returns (out: seq<Boolean>)
    ensures out == ConstBits(bytes)
  {
    out := [];
    for k := 0 to |bytes|
      invariant out == ConstBits(bytes[..k])
    {
      out := PushByte(out, bytes[k]);
      ConstBitsConcat(bytes[..k], [bytes[k]]);
      assert bytes[..k + 1] == bytes[..k] + [bytes[k]];
    }
    assert bytes[..|bytes|] == bytes;
  }

  method BuildPrehashBits(v: seq<Boolean>, kid: seq<Boolean>, c: seq<Boolean>, iat: seq<Boolean>,
                          exp: seq<Boolean>, schema: seq<Boolean>)
    returns (r: Result<seq<Boolean>, SynthesisError>)
    ensures r == if PrehashSizes(v, kid, c, iat, exp, schema)
                 then Ok(PrehashBits(v, kid, c, iat, exp, schema)) else Err(Unsatisfiable)
  {
    hide ConstBits;
    if |v| != 8 || |c| != 32 * 8 || |iat| != 64 || |exp| != 64 || |kid| % 8 != 0 || |schema| % 8 != 0 {
      return Err(Unsatisfiable);
    }
    var out := ConstBytes(CRED_DST);
    out := out + v;
    if |kid| / 8 >= 256 {
      return Err(Unsatisfiable);
    }
    out := PushByte(out, |kid| / 8);
    out := out + kid;
    out := out + c;
    out := out + iat;
    out := out + exp;
    if |schema| / 8 >= 256 {
      return Err(Unsatisfiable);
    }
    out := PushByte(out, |schema| / 8);
    out := out + schema;
    RightNested(ConstBits(CRED_DST), v, ConstBits([ByteLen(kid)]), kid, c, iat, exp,
                ConstBits([ByteLen(schema)]), schema);
    r := Ok(out);
  }

  lemma RightNested<T>(a: seq<T>, b: seq<T>, c: seq<T>, d: seq<T>, e: seq<T>, f: seq<T>, g: seq<T>,
                       h: seq<T>, i: seq<T>)
    ensures a + b + c + d + e + f + g + h + i == a + (b + (c + (d + (e + (f + (g + (h + i)))))))
  {
    AppendAssoc(a + b + c + d + e + f + g, h, i);
    AppendAssoc(a + b + c + d + e + f, g, h + i);
    AppendAssoc(a + b + c + d + e, f, g + (h + i));
    AppendAssoc(a + b + c + d, e, f + (g + (h + i)));
    AppendAssoc(a + b + c, d, e + (f + (g + (h + i))));
    AppendAssoc(a + b, c, d + (e + (f + (g + (h + i)))));
    AppendAssoc(a, b, c + (d + (e + (f + (g + (h + i))))));
  }

  lemma ConstBitsConcat(a: seq<byte>, b: seq<byte>)
    ensures ConstBits(a + b) == ConstBits(a) + ConstBits(b)
  {
    BytesToBitsConcat(a, b);
  }

  /** The message whose fields have the given bits. */
  function MessageOf(v: seq<bool>, kid: seq<bool>, c: seq<bool>, iat: seq<bool>, exp: seq<bool>, schema: seq<bool>)
    : CredMsg
    requires |v| == 8 && |c| == 256 && |iat| == 64 && |exp| == 64 && |kid| % 8 == 0 && |schema| % 8 == 0
  {
    BeOfFrom(BitsToBytes(iat));
    BeOfFrom(BitsToBytes(exp));
    Pow2Words();
    CredMsg(BitsToBytes(v)[0], BitsToBytes(kid), BitsToBytes(c), FromBe(BitsToBytes(iat)),
            FromBe(BitsToBytes(exp)), BitsToBytes(schema))
  }

  lemma EncodeBits(m: CredMsg)
    requires Fits(m)
    ensures BytesToBits(Encode(m)) ==
      BytesToBits(CRED_DST) + (BytesToBits([m.v]) + (BytesToBits([|m.kid|]) + (BytesToBits(m.kid) +
      (BytesToBits(m.c) + (BytesToBits(BeBytes(m.iat, 8)) + (BytesToBits(BeBytes(m.exp, 8)) +
      (BytesToBits([|m.schema|]) + BytesToBits(m.schema))))))))
  {
    hide BytesToBits, BeBytes;
    var t7 := [|m.schema|] + m.schema;
    var t6 := BeBytes(m.exp, 8) + t7;
    var t5 := BeBytes(m.iat, 8) + t6;
    var t4 := m.c + t5;
    var t3 := m.kid + t4;
    var t2 := [|m.kid|] + t3;
    var t1 := [m.v] + t2;
    AppendAssoc([|m.kid| as byte], m.kid, t4);
    BytesToBitsConcat(CRED_DST, t1);
    BytesToBitsConcat([m.v], t2);
    BytesToBitsConcat([|m.kid|], t3);
    BytesToBitsConcat(m.kid, t4);
    BytesToBitsConcat(m.c, t5);
    BytesToBitsConcat(BeBytes(m.iat, 8), t6);
    BytesToBitsConcat(BeBytes(m.exp, 8), t7);
    BytesToBitsConcat([|m.schema|], m.schema);
  }

  lemma PrehashVals(asg: Assignment, v: seq<Boolean>, kid: seq<Boolean>, c: seq<Boolean>, iat: seq<Boolean>,
                    exp: seq<Boolean>, schema: seq<Boolean>)
    requires PrehashSizes(v, kid, c, iat, exp, schema)
    requires AllBits(asg, v) && AllBits(asg, kid) && AllBits(asg, c)
    requires AllBits(asg, iat) && AllBits(asg, exp) && AllBits(asg, schema)
    ensures AllBits(asg, PrehashBits(v, kid, c, iat, exp, schema))
    ensures Vals(asg, PrehashBits(v, kid, c, iat, exp, schema)) ==
      BytesToBits(CRED_DST) + (Vals(asg, v) + (BytesToBits([ByteLen(kid)]) + (Vals(asg, kid) +
      (Vals(asg, c) + (Vals(asg, iat) + (Vals(asg, exp) +
      (BytesToBits([ByteLen(schema)]) + Vals(asg, schema))))))))
  {
    hide ConstBits, Vals, AllBits, BytesToBits;
    var t8 := schema;
    var t7 := ConstBits([ByteLen(schema)]) + t8;
    var t6 := exp + t7;
    var t5 := iat + t6;
    var t4 := c + t5;
    var t3 := kid + t4;
    var t2 := ConstBits([ByteLen(kid)]) + t3;
    var t1 := v + t2;
    ConstBitsVals(asg, CRED_DST);
    ConstBitsVals(asg, [ByteLen(kid)]);
    ConstBitsVals(asg, [ByteLen(schema)]);
    ValsConcat(asg, ConstBits([ByteLen(schema)]), t8);
    ValsConcat(asg, exp, t7);
    ValsConcat(asg, iat, t6);
    ValsConcat(asg, c, t5);
    ValsConcat(asg, kid, t4);
    ValsConcat(asg, ConstBits([ByteLen(kid)]), t3);
    ValsConcat(asg, v, t2);
    ValsConcat(asg, ConstBits(CRED_DST), t1);
  }

  /**
   The two transcripts agree: in any assignment of bits, the circuit's bits are
   the bits of the host's bytes for the message those bits spell, and the
   lengths the circuit accepts are the lengths the host accepts.
   */
  lemma TranscriptsAgree(asg: Assignment, v: seq<Boolean>, kid: seq<Boolean>, c: seq<Boolean>,
                         iat: seq<Boolean>, exp: seq<Boolean>, schema: seq<Boolean>)
    requires |v| == 8 && |c| == 256 && |iat| == 64 && |exp| == 64 && |kid| % 8 == 0 && |schema| % 8 == 0
    requires AllBits(asg, v) && AllBits(asg, kid) && AllBits(asg, c)
    requires AllBits(asg, iat) && AllBits(asg, exp) && AllBits(asg, schema)
    ensures var m := MessageOf(Vals(asg, v), Vals(asg, kid), Vals(asg, c), Vals(asg, iat), Vals(asg, exp),
                               Vals(asg, schema));
      && (PrehashSizes(v, kid, c, iat, exp, schema) <==> Fits(m))
      && (Fits(m) ==>
        && AllBits(asg, PrehashBits(v, kid, c, iat, exp, schema))
        && Vals(asg, PrehashBits(v, kid, c, iat, exp, schema)) == BytesToBits(Encode(m)))
  {
    var m := MessageOf(Vals(asg, v), Vals(asg, kid), Vals(asg, c), Vals(asg, iat), Vals(asg, exp),
                       Vals(asg, schema));
    assert PrehashSizes(v, kid, c, iat, exp, schema) <==> Fits(m);
    if Fits(m) {
      hide PrehashBits, Encode, BytesToBits, BitsToBytes, FromBe, BeBytes;
      PrehashVals(asg, v, kid, c, iat, exp, schema);
      EncodeBits(m);
      MessageBits(Vals(asg, v), Vals(asg, kid), Vals(asg, c), Vals(asg, iat), Vals(asg, exp), Vals(asg, schema));
    }
  }

  /** The fields of the spelled message have the bits they were spelled with. */
  lemma MessageBits(v: seq<bool>, kid: seq<bool>, c: seq<bool>, iat: seq<bool>, exp: seq<bool>, schema: seq<bool>)
    requires |v| == 8 && |c| == 256 && |iat| == 64 && |exp| == 64 && |kid| % 8 == 0 && |schema| % 8 == 0
    ensures var m := MessageOf(v, kid, c, iat, exp, schema);
      && BytesToBits([m.v]) == v && BytesToBits(m.kid) == kid && BytesToBits(m.c) == c
      && BytesToBits(BeBytes(m.iat, 8)) == iat && BytesToBits(BeBytes(m.exp, 8)) == exp
      && BytesToBits(m.schema) == schema
  {
    BitsBytesBits(v);
    BitsBytesBits(kid);
    BitsBytesBits(c);
    BitsBytesBits(iat);
    BitsBytesBits(exp);
    BitsBytesBits(schema);
    BeOfFrom(BitsToBytes(iat));
    BeOfFrom(BitsToBytes(exp));
    assert BitsToBytes(v) == [BitsToBytes(v)[0]];
  }
}
