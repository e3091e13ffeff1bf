/** Little-endian bit strings, bytes, and the fixed-width integers of the source. */
module Bits {
  type byte = x: int | 0 <= x < 256

  const U32_SIZE: int := 0x1_0000_0000

  type u32 = x: int | 0 <= x < 0x1_0000_0000
  type i32 = x: int | -0x8000_0000 <= x < 0x8000_0000
  type u64 = x: int | 0 <= x < 0x1_0000_0000_0000_0000
  type i64 = x: int | -0x8000_0000_0000_0000 <= x < 0x8000_0000_0000_0000

  function Pow2(n: nat): (r: nat)
    ensures r >= 1
  {
    if n == 0 then 1 else 2 * Pow2(n - 1)
  }

  function Bit(b: bool): int { if b then 1 else 0 }

  /** The logical right shift `v >> n`. */
  function Shr(v: nat, n: nat): nat
  {
    if n == 0 then v else Shr(v / 2, n - 1)
  }

  /** The test `(v >> i) & 1 == 1` for an unsigned v. */
  predicate BitAt(v: nat, i: nat) { Shr(v, i) % 2 == 1 }

  /** The n low bits of v, least significant first. */
  function BitsLe(v: nat, n: nat): (s: seq<bool>)
    ensures |s| == n
  {
    if n == 0 then [] else [v % 2 == 1] + BitsLe(v / 2, n - 1)
  }

  /** The number whose bits, least significant first, are s. */
  function ValueOf(s: seq<bool>): nat
  {
    if s == [] then 0 else Bit(s[0]) + 2 * ValueOf(s[1..])
  }

  lemma Pow2Add(a: nat, b: nat)
    ensures Pow2(a + b) == Pow2(a) * Pow2(b)
  {
    hide Pow2;
    if a == 0 {
      Pow2Zero();
    } else {
      Pow2Add(a - 1, b);
      Pow2Double(a);
      Pow2Double(a + b);
      MulAssoc(2, Pow2(a - 1), Pow2(b));
    }
  }

  lemma Pow2Mono(a: nat, b: nat)
    requires a <= b
    ensures Pow2(a) <= Pow2(b)
  {
    Pow2Add(a, b - a);
    assert Pow2(a) * Pow2(b - a) >= Pow2(a) * 1;
  }

  lemma Pow2Byte()
    ensures Pow2(8) == 256
  {
    assert Pow2(4) == 16 by { assert Pow2(2) == 4; }
    Pow2Add(4, 4);
  }

  lemma Pow2Words()
    ensures Pow2(31) == 0x8000_0000 && Pow2(32) == 0x1_0000_0000
    ensures Pow2(64) == 0x1_0000_0000_0000_0000
  {
    hide *;
    Pow2Byte();
    Pow2Add(8, 8);
    assert Pow2(16) == 0x1_0000;
    Pow2Add(16, 16);
    assert Pow2(32) == 0x1_0000_0000;
    Pow2Add(32, 32);
    Pow2Double(32);
  }

  lemma {:induction false} ValueBound(s: seq<bool>)
    ensures ValueOf(s) < Pow2(|s|)
  {
    if s != [] {
      ValueBound(s[1..]);
    }
  }

  lemma {:induction false} BitsOfValue(s: seq<bool>)
    ensures BitsLe(ValueOf(s), |s|) == s
  {
    if s != [] {
      BitsOfValue(s[1..]);
      assert ValueOf(s) / 2 == ValueOf(s[1..]);
    }
  }

  lemma {:induction false} ValueOfBits(v: nat, n: nat)
    requires v < Pow2(n)
    ensures ValueOf(BitsLe(v, n)) == v
  {
    if n != 0 {
      ValueOfBits(v / 2, n - 1);
      assert BitsLe(v, n)[1..] == BitsLe(v / 2, n - 1);
    }
  }

  /** Two bit strings of one length with the same value are the same string. */
  lemma ValueInjective(s: seq<bool>, t: seq<bool>)
    requires |s| == |t| && ValueOf(s) == ValueOf(t)
    ensures s == t
  {
    BitsOfValue(s);
    BitsOfValue(t);
  }

  lemma Pow2Zero()
    ensures Pow2(0) == 1
  {
  }

  lemma {:induction false} ValueConcat(s: seq<bool>, t: seq<bool>)
    ensures ValueOf(s + t) == ValueOf(s) + Pow2(|s|) * ValueOf(t)
  {
    hide Pow2;
    if s == [] {
      assert s + t == t;
      assert Pow2(0) == 1 by { Pow2Zero(); }
    } else {
      ValueConcat(s[1..], t);
      assert (s + t)[1..] == s[1..] + t;
      Pow2Double(|s|);
      MulAssoc(2, Pow2(|s| - 1), ValueOf(t));
    }
  }

  /** Appending the most significant bit. */
  lemma ValueSnoc(s: seq<bool>, b: bool)
    ensures ValueOf(s + [b]) == ValueOf(s) + Pow2(|s|) * Bit(b)
  {
    ValueConcat(s, [b]);
    assert [b][1..] == [] && ValueOf([b]) == Bit(b);
  }

  lemma {:induction false} ShrShr(v: nat, a: nat, b: nat)
    ensures Shr(Shr(v, a), b) == Shr(v, a + b)
  {
    if a != 0 {
      ShrShr(v / 2, a - 1, b);
    }
  }

  lemma ShrTwo(v: nat)
    ensures Shr(v, 2) == v / 4
  {
    assert Shr(v, 2) == Shr(v / 2, 1) == Shr(v / 2 / 2, 0);
  }

  lemma ShrByte(v: nat)
    ensures Shr(v, 8) == v / 256
  {
    ShrTwo(v);
    ShrTwo(v / 4);
    ShrTwo(v / 16);
    ShrTwo(v / 64);
    ShrShr(v, 2, 6);
    ShrShr(v / 4, 2, 4);
    ShrShr(v / 16, 2, 2);
  }

  lemma QuotientUnique(v: int, d: int, k: int, m: int)
    requires d > 0 && v == d * k + m && 0 <= m < d
    ensures v / d == k && v % d == m
  {
    var k', m' := v / d, v % d;
    assert v == d * k' + m' && 0 <= m' < d;
    SmallMultiple(d, k - k', m' - m) by {
      assert d * (k - k') == d * k - d * k';
    }
  }

  /** A multiple of d strictly between -d and d is zero. */
  lemma SmallMultiple(d: int, k: int, r: int)
    requires d > 0 && d * k == r && -d < r < d
    ensures k == 0 && r == 0
  {
    if k >= 1 {
      MulMono(d, 1, k);
    } else if k <= -1 {
      MulMono(d, k, -1);
    }
  }

  lemma AppendAssoc<T>(a: seq<T>, b: seq<T>, c: seq<T>)
    ensures (a + b) + c == a + (b + c)
  {
  }

  lemma AppendFive<T>(s: seq<T>, a: seq<T>, b: seq<T>, c: seq<T>, d: seq<T>, e: seq<T>)
    ensures s + a + b + c + d + e == s + (a + b + c + d + e)
  {
    AppendAssoc(s, a, b);
    AppendAssoc(s, a + b, c);
    AppendAssoc(s, a + b + c, d);
    AppendAssoc(s, a + b + c + d, e);
  }

  lemma AppendSix<T>(s: seq<T>, a: seq<T>, b: seq<T>, c: seq<T>, d: seq<T>, e: seq<T>, f: seq<T>)
    ensures s + (a + b) + c + d + e + f == s + (a + b + c + d + e + f)
  {
    AppendAssoc(s, a + b, c);
    AppendAssoc(s, a + b + c, d);
    AppendAssoc(s, a + b + c + d, e);
    AppendAssoc(s, a + b + c + d + e, f);
  }

  lemma AppendFour<T>(s: seq<T>, a: seq<T>, b: seq<T>, c: seq<T>, d: seq<T>)
    ensures s + a + b + c + d == s + (a + b + c + d)
  {
  }

  lemma AppendGrouped<T>(s: seq<T>, a: seq<T>, b: seq<T>, c: seq<T>, d: seq<T>, x: seq<T>, y: seq<T>)
    ensures s + a + b + c + d + x + y == s + (a + b + c + d + (x + y))
  {
    AppendFour(s, a, b, c, d);
    AppendAssoc(s, a + b + c + d, x + y);
    AppendAssoc(s + (a + b + c + d), x, y);
  }

  lemma MulAssoc(a: int, b: int, c: int)
    ensures (a * b) * c == a * (b * c)
  {
  }

  lemma MulMono(a: int, x: int, y: int)
    requires a >= 0 && x <= y
    ensures a * x <= a * y
  {
  }

  lemma {:induction false} BitsLeAt(v: nat, n: nat, i: nat)
    requires i < n
    ensures BitsLe(v, n)[i] == BitAt(v, i)
  {
    if i != 0 {
      BitsLeAt(v / 2, n - 1, i - 1);
    }
  }

  lemma BitsLeSnoc(v: nat, n: nat)
    ensures BitsLe(v, n + 1) == BitsLe(v, n) + [BitAt(v, n)]
  {
    forall i | 0 <= i < n + 1
      ensures BitsLe(v, n + 1)[i] == (BitsLe(v, n) + [BitAt(v, n)])[i]
    {
      BitsLeAt(v, n + 1, i);
      if i < n { BitsLeAt(v, n, i); }
    }
  }

  lemma BitAtShifted(v: nat, n: nat, i: nat)
    ensures BitAt(Shr(v, n), i) == BitAt(v, n + i)
  {
    ShrShr(v, n, i);
  }

  lemma BitsLeSplit(v: nat, n: nat, m: nat)
    ensures BitsLe(v, n + m) == BitsLe(v, n) + BitsLe(Shr(v, n), m)
  {
    hide *;
    var low, high := BitsLe(v, n), BitsLe(Shr(v, n), m);
    forall i | 0 <= i < n + m
      ensures BitsLe(v, n + m)[i] == (low + high)[i]
    {
      BitsLeAt(v, n + m, i);
      if i < n {
        BitsLeAt(v, n, i);
      } else {
        BitsLeAt(Shr(v, n), m, i - n);
        BitAtShifted(v, n, i - n);
      }
    }
  }

  lemma NoBits(v: nat, w: nat)
    ensures BitsLe(v, 0) == BitsLe(w, 0)
  {
  }

  lemma LowBit(v: nat, n: nat)
    requires n > 0
    ensures BitsLe(v, n) == [v % 2 == 1] + BitsLe(v / 2, n - 1)
  {
  }

  lemma Pow2Double(n: nat)
    requires n > 0
    ensures Pow2(n) == 2 * Pow2(n - 1)
  {
  }

  /** Halving commutes with reducing modulo a power of two. */
  lemma HalfOfRemainder(v: nat, n: nat)
    requires n > 0
    ensures (v % Pow2(n)) / 2 == (v / 2) % Pow2(n - 1) && (v % Pow2(n)) % 2 == v % 2
  {
    hide Pow2;
    Pow2Double(n);
    HalfModulo(v, Pow2(n - 1));
  }

  lemma HalfModulo(v: nat, q: nat)
    requires q > 0
    ensures (v % (2 * q)) / 2 == (v / 2) % q && (v % (2 * q)) % 2 == v % 2
  {
    var h, b := v / 2, v % 2;
    var k, r := h / q, h % q;
    Regroup(q, k, r, b);
    QuotientUnique(v, 2 * q, k, 2 * r + b);
  }

  lemma Regroup(q: int, k: int, r: int, b: int)
    ensures 2 * (q * k + r) + b == (2 * q) * k + (2 * r + b)
  {
  }

  lemma {:induction false} BitsLeMod(v: nat, n: nat)
    ensures BitsLe(v % Pow2(n), n) == BitsLe(v, n)
  {
    hide BitsLe, Pow2;
    if n == 0 {
      NoBits(v % Pow2(n), v);
    } else {
      var h, m := v / 2, v % Pow2(n);
      HalfOfRemainder(v, n);
      BitsLeMod(h, n - 1);
      LowBit(m, n);
      LowBit(v, n);
    }
  }

  // ---------------------------------------------------------------- bytes

  /** Bytes to bits: byte order kept, least significant bit of a byte first. */
  function BytesToBits(bs: seq<byte>): (s: seq<bool>)
    ensures |s| == 8 * |bs|
  {
    if bs == [] then [] else BitsLe(bs[0], 8) + BytesToBits(bs[1..])
  }

  /** Whole groups of eight bits back to bytes. */
  function BitsToBytes(s: seq<bool>): (bs: seq<byte>)
    requires |s| % 8 == 0
    ensures |bs| == |s| / 8
  {
    if s == [] then [] else
      ValueBound(s[..8]);
      Pow2Byte();
      [ValueOf(s[..8])] + BitsToBytes(s[8..])
  }

  lemma {:induction false} BytesBitsBytes(bs: seq<byte>)
    ensures BitsToBytes(BytesToBits(bs)) == bs
  {
    if bs != [] {
      BytesBitsBytes(bs[1..]);
      var s := BytesToBits(bs);
      assert s[..8] == BitsLe(bs[0], 8) && s[8..] == BytesToBits(bs[1..]);
      Pow2Byte();
      ValueOfBits(bs[0], 8);
    }
  }

  lemma {:induction false} BitsBytesBits(s: seq<bool>)
    requires |s| % 8 == 0
    ensures BytesToBits(BitsToBytes(s)) == s
  {
    if s != [] {
      BitsBytesBits(s[8..]);
      BitsOfValue(s[..8]);
      assert BitsToBytes(s)[1..] == BitsToBytes(s[8..]);
    }
  }

  lemma BytesToBitsInjective(a: seq<byte>, b: seq<byte>)
    requires BytesToBits(a) == BytesToBits(b)
    ensures a == b
  {
    BytesBitsBytes(a);
    BytesBitsBytes(b);
  }

  lemma {:induction false} BytesToBitsConcat(a: seq<byte>, b: seq<byte>)
    ensures BytesToBits(a + b) == BytesToBits(a) + BytesToBits(b)
  {
    if a == [] {
      assert a + b == b;
    } else {
      BytesToBitsConcat(a[1..], b);
      assert (a + b)[1..] == a[1..] + b;
      AppendAssoc(BitsLe(a[0], 8), BytesToBits(a[1..]), BytesToBits(b));
    }
  }

  lemma BytesToBitsSnoc(a: seq<byte>, b: byte)
    ensures BytesToBits(a + [b]) == BytesToBits(a) + BitsLe(b, 8)
  {
    BytesToBitsConcat(a, [b]);
    assert BytesToBits([b]) == BitsLe(b, 8) + BytesToBits([]);
  }

  /** `to_le_bytes` of a k-byte unsigned integer. */
  function LeBytes(v: nat, k: nat): (bs: seq<byte>)
    ensures |bs| == k
  {
    if k == 0 then [] else [v % 256] + LeBytes(v / 256, k - 1)
  }

  /** `to_be_bytes` of a k-byte unsigned integer. */
  function BeBytes(v: nat, k: nat): (bs: seq<byte>)
    ensures |bs| == k
  {
    if k == 0 then [] else BeBytes(v / 256, k - 1) + [v % 256]
  }

  function FromLe(bs: seq<byte>): nat
  {
    if bs == [] then 0 else bs[0] + 256 * FromLe(bs[1..])
  }

  function FromBe(bs: seq<byte>): nat
  {
    if bs == [] then 0 else 256 * FromBe(bs[..|bs| - 1]) + bs[|bs| - 1]
  }

  lemma {:induction false} FromLeOf(v: nat, k: nat)
    requires v < Pow2(8 * k)
    ensures FromLe(LeBytes(v, k)) == v
  {
    if k != 0 {
      Pow2Add(8, 8 * k - 8);
      Pow2Byte();
      FromLeOf(v / 256, k - 1);
      assert LeBytes(v, k)[1..] == LeBytes(v / 256, k - 1);
    }
  }

  lemma {:induction false} FromBeOf(v: nat, k: nat)
    requires v < Pow2(8 * k)
    ensures FromBe(BeBytes(v, k)) == v
  {
    if k != 0 {
      Pow2Add(8, 8 * k - 8);
      Pow2Byte();
      FromBeOf(v / 256, k - 1);
      assert BeBytes(v, k)[..k - 1] == BeBytes(v / 256, k - 1);
    }
  }

  /** Zero padding does not change a little-endian number. */
  lemma {:induction false} FromLeZeros(n: nat)
    ensures FromLe(seq(n, _ => 0)) == 0
  {
    if n > 0 {
      var z: seq<byte> := seq(n, _ => 0);
      assert z[1..] == seq(n - 1, _ => 0);
      FromLeZeros(n - 1);
    }
  }

  lemma {:induction false} FromLePadded(b: seq<byte>, n: nat)
    ensures FromLe(b + seq(n, _ => 0)) == FromLe(b)
  {
    if b == [] {
      FromLeZeros(n);
      assert b + seq(n, _ => 0) == seq(n, _ => 0);
    } else {
      FromLePadded(b[1..], n);
      assert (b + seq(n, _ => 0))[1..] == b[1..] + seq(n, _ => 0);
    }
  }

  lemma {:induction false} LeOfFrom(bs: seq<byte>)
    ensures FromLe(bs) < Pow2(8 * |bs|)
    ensures LeBytes(FromLe(bs), |bs|) == bs
  {
    if bs != [] {
      LeOfFrom(bs[1..]);
      Pow2Add(8, 8 * |bs| - 8);
      Pow2Byte();
      assert FromLe(bs) / 256 == FromLe(bs[1..]);
    }
  }

  lemma {:induction false} BeOfFrom(bs: seq<byte>)
    ensures FromBe(bs) < Pow2(8 * |bs|)
    ensures BeBytes(FromBe(bs), |bs|) == bs
  {
    if bs != [] {
      var k := |bs|;
      BeOfFrom(bs[..k - 1]);
      Pow2Add(8, 8 * k - 8);
      Pow2Byte();
      assert FromBe(bs) / 256 == FromBe(bs[..k - 1]);
      assert bs == bs[..k - 1] + [bs[k - 1]];
    }
  }

  lemma NoneOfNone(v: nat)
    ensures BytesToBits(LeBytes(v, 0)) == BitsLe(v, 0)
  {
  }

  lemma BytesStep(v: nat, k: nat)
    requires k > 0
    ensures BytesToBits(LeBytes(v, k)) == BitsLe(v % 256, 8) + BytesToBits(LeBytes(v / 256, k - 1))
  {
    hide BitsLe;
    assert LeBytes(v, k)[1..] == LeBytes(v / 256, k - 1);
  }

  /** The bits of the little-endian bytes are the bits of the integer. */
  lemma {:induction false} LeBytesBits(v: nat, k: nat)
    ensures BytesToBits(LeBytes(v, k)) == BitsLe(v, 8 * k)
  {
    hide *;
    if k == 0 {
      NoneOfNone(v);
    } else {
      LeBytesBits(v / 256, k - 1);
      BytesStep(v, k);
      Pow2Byte();
      BitsLeMod(v, 8);
      BitsLeSplit(v, 8, 8 * k - 8);
      ShrByte(v);
    }
  }

  /** Byte i of the big-endian form is `(v >> (8 * (k - 1 - i))) & 0xff`. */
  lemma {:induction false} BeBytesAt(v: nat, k: nat, i: nat)
    requires i < k
    ensures BeBytes(v, k)[i] == Shr(v, 8 * (k - 1 - i)) % 256
  {
    if i < k - 1 {
      BeBytesAt(v / 256, k - 1, i);
      ShrByte(v);
      ShrShr(v, 8, 8 * (k - 2 - i));
    }
  }
}
