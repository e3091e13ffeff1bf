/**
 The hypotheses on the gadgets that are parameters do not contradict each
 other: for all hash functions and every signature relation there is a kit that
 meets them. It is a truth table: for each value of the input bits one
 constraint that binds only there.
 */
module Consistency {
  import opened Wrappers
  import opened Bits
  import opened PrimeField
  import opened R1cs
  import opened Multipack
  import opened PublicInputs
  import opened Commit
  import opened Gadgets
  import opened AgeCircuit
  import opened AgeStatement

  // ------------------------------------------------------------ distances

  /** In how many places two vectors differ. */
  function Distance(s: seq<bool>, t: seq<bool>): (d: nat)
    requires |s| == |t|
    ensures d <= |s| && (d == 0 <==> s == t)
  {
    if s == [] then 0 else
      var n := |s| - 1;
      assert s == s[..n] + [s[n]] && t == t[..n] + [t[n]];
      Distance(s[..n], t[..n]) + (if s[n] == t[n] then 0 else 1)
  }

  /** The distance of the bits from t, as a linear combination. */
  function DistanceLc(ins: seq<Boolean>, t: seq<bool>): LinComb
    requires |ins| == |t|
  {
    if ins == [] then [] else
      var n := |ins| - 1;
      Plus(DistanceLc(ins[..n], t[..n]), if t[n] then Minus(ONES, ins[n].Lc(1)) else ins[n].Lc(1))
  }

  lemma {:induction false} DistanceVal(asg: Assignment, ins: seq<Boolean>, t: seq<bool>)
    requires |ins| == |t| && AllBits(asg, ins)
    ensures Eval(DistanceLc(ins, t), asg) == Distance(Vals(asg, ins), t)
  {
    if ins != [] {
      var n := |ins| - 1;
      assert Vals(asg, ins[..n]) == Vals(asg, ins)[..n];
      assert AllBits(asg, ins[..n]) by {
        forall i | 0 <= i < n ensures ins[..n][i].IsBit(asg) { assert ins[i].IsBit(asg); }
      }
      DistanceVal(asg, ins[..n], t[..n]);
      LcVal(ins[n], 1, asg);
      assert ins[n].IsBit(asg);
    }
  }

  // --------------------------------------------------------------- tables

  /** Row k: nothing is asked unless the input is the k-th tuple, where the target must vanish. */
  datatype Table = Table(rows: nat, tuple: nat -> seq<bool>, target: nat -> LinComb)

  ghost predicate FitsTable(t: Table, n: nat) { forall k :: |t.tuple(k)| == n }

  function TableCons(t: Table, n: nat, ins: seq<Boolean>): (r: seq<Constraint>)
    requires FitsTable(t, |ins|)
    ensures |r| == t.rows
    ensures forall k :: 0 <= k < t.rows ==>
      r[k] == Constraint(DistanceLc(ins, t.tuple(k)), Single(1, Aux(n + k)), t.target(k))
  {
    seq(t.rows, k requires 0 <= k < t.rows =>
      Constraint(DistanceLc(ins, t.tuple(k)), Single(1, Aux(n + k)), t.target(k)))
  }

  lemma TableSound(p: int, asg: Assignment, t: Table, n: nat, ins: seq<Boolean>, k: nat)
    requires p > 0 && FitsTable(t, |ins|) && AllBits(asg, ins) && SatAll(p, asg, TableCons(t, n, ins))
    requires k < t.rows && t.tuple(k) == Vals(asg, ins)
    ensures Congruent(p, 0, Eval(t.target(k), asg))
  {
    assert Sat(p, asg, TableCons(t, n, ins)[k]);
    DistanceVal(asg, ins, t.tuple(k));
    assert 0 * asg.At(Aux(n + k)) == 0;
  }

  /** The value that satisfies row k where it is satisfiable. */
  ghost function Slack(p: int, d: nat, target: int): int {
    if IsPrime(p) && 0 < d < p then (target * Inverse(p, d)) % p else 0
  }

  lemma SlackIs(p: int, d: nat, target: int)
    requires IsPrime(p) && 0 < d < p
    ensures Slack(p, d, target) == (target * Inverse(p, d)) % p
  {
  }

  lemma SlackSolves(p: int, d: nat, target: int)
    requires IsPrime(p) && d < p && (d == 0 ==> target == 0)
    ensures Congruent(p, d * Slack(p, d, target), target)
  {
    hide *;
    if d == 0 {
      CongruentSelf(p, 0);
    } else {
      PrimeAboveOne(p);
      var z := Inverse(p, d);
      SlackIs(p, d, target);
      ModCongruent(p, target * z);
      CongruentSelf(p, d);
      CongruentSelf(p, target);
      CongruentMul(p, d, d, (target * z) % p, target * z);
      CongruentMul(p, target, target, d * z, 1);
      MulAssoc(d, target, z);
      MulAssoc(target, d, z);
      CongruentTransitive(p, d * ((target * z) % p), d * (target * z), target * 1);
    }
  }

  lemma TableComplete(p: int, asg: Assignment, t: Table, n: nat, ins: seq<Boolean>, s: seq<bool>)
    requires IsPrime(p) && FitsTable(t, |ins|) && AllBits(asg, ins) && Vals(asg, ins) == s && |s| < p
    requires forall k :: 0 <= k < t.rows ==> (t.tuple(k) == s ==> Eval(t.target(k), asg) == 0)
    requires forall k :: 0 <= k < t.rows ==>
      asg.At(Aux(n + k)) == Slack(p, Distance(s, t.tuple(k)), Eval(t.target(k), asg))
    ensures SatAll(p, asg, TableCons(t, n, ins))
  {
    hide Congruent, Slack, IsPrime, DistanceLc, Eval;
    assert p > 0 by { PrimeAboveOne(p); }
    var ks := TableCons(t, n, ins);
    forall k | 0 <= k < t.rows ensures Sat(p, asg, ks[k]) {
      DistanceVal(asg, ins, t.tuple(k));
      SlackSolves(p, Distance(s, t.tuple(k)), Eval(t.target(k), asg));
    }
  }

  // --------------------------------------------------------- a hash gadget

  /** The value of the specification, where it has one of 256 bits. */
  function Output(spec: HashSpec, s: seq<bool>): (r: seq<bool>)
    ensures |r| == 256
  {
    if spec(s).Some? && |spec(s).value| == 256 then spec(s).value else seq(256, _ => false)
  }

  /** One row for each input and output bit: the bit, allocated from n on, must be the one the input hashes to. */
  function HashTable(spec: HashSpec, n: nat, len: nat): (t: Table)
    ensures FitsTable(t, len)
  {
    Table(256 * Pow2(len), (k: nat) => BitsLe(k / 256, len),
          (k: nat) => Minus(Single(1, Aux(n + k % 256)),
                            if Output(spec, BitsLe(k / 256, len))[k % 256] then ONES else []))
  }

  /** The input, if all of its bits are known. */
  function KnownInput(aux: seq<Option<int>>, ins: seq<Boolean>): (r: Option<seq<bool>>)
    ensures r.Some? ==> |r.value| == |ins|
  {
    if forall i :: 0 <= i < |ins| ==> ReadBit(aux, ins[i]).Some?
    then Some(seq(|ins|, i requires 0 <= i < |ins| => ReadBit(aux, ins[i]).value)) else None
  }

  lemma KnownInputIs(aux: seq<Option<int>>, ins: seq<Boolean>, s: seq<bool>)
    requires ReadBits(aux, ins) == Known(s)
    ensures KnownInput(aux, ins) == Some(s)
  {
    assert |ins| == |Known(s)|;
    forall i | 0 <= i < |ins| ensures ReadBit(aux, ins[i]) == Some(s[i]) {
      assert ReadBits(aux, ins)[i] == Known(s)[i];
    }
    assert KnownInput(aux, ins).value == s;
  }

  ghost function HashFill(p: int, spec: HashSpec, aux: seq<Option<int>>, ins: seq<Boolean>, k: nat): Option<int> {
    match KnownInput(aux, ins)
    case None => None
    case Some(s) =>
      if k < 256 then Some(Bit(Output(spec, s)[k])) else
        var j := k - 256;
        var t := BitsLe(j / 256, |ins|);
        Some(Slack(p, Distance(s, t), Bit(Output(spec, s)[j % 256]) - Bit(Output(spec, t)[j % 256])))
  }

  function HashConsAt(spec: HashSpec, n: nat, ins: seq<Boolean>): seq<Constraint> {
    BoolCons(n, 256) + TableCons(HashTable(spec, n, |ins|), n + 256, ins)
  }

  ghost function TableHash(p: int, spec: HashSpec): HashGadget {
    HashGadget(ins => 256 + 256 * Pow2(|ins|), (n: nat, ins) => HashConsAt(spec, n, ins),
               (n: nat, ins) => BitVars(n, 256),
               (aux, ins, k: nat) => HashFill(p, spec, aux, ins, k))
  }

  /** The row of an input and an output bit. */
  lemma RowOf(s: seq<bool>, j: nat)
    requires j < 256
    ensures var k := 256 * ValueOf(s) + j;
      k < 256 * Pow2(|s|) && k / 256 == ValueOf(s) && k % 256 == j && BitsLe(k / 256, |s|) == s
  {
    ValueBound(s);
    BitsOfValue(s);
  }

  lemma HashConsSplit(p: int, asg: Assignment, spec: HashSpec, n: nat, ins: seq<Boolean>)
    requires IsPrime(p)
    ensures p > 1
    ensures SatAll(p, asg, HashConsAt(spec, n, ins)) <==>
            SatAll(p, asg, BoolCons(n, 256)) && SatAll(p, asg, TableCons(HashTable(spec, n, |ins|), n + 256, ins))
  {
    hide IsPrime, SatAll, BoolCons, TableCons, HashTable;
    PrimeAboveOne(p);
    SatConcat(p, asg, BoolCons(n, 256), TableCons(HashTable(spec, n, |ins|), n + 256, ins));
  }

  /** The output bits of satisfying values. */
  lemma HashOutput(p: int, spec: HashSpec, n: nat, ins: seq<Boolean>, asg: Assignment)
    requires IsPrime(p) && InField(p, asg) && AllBits(asg, ins) && SatAll(p, asg, HashConsAt(spec, n, ins))
    requires spec(Vals(asg, ins)).Some? && |spec(Vals(asg, ins)).value| == 256
    ensures AllBits(asg, BitVars(n, 256)) && Vals(asg, BitVars(n, 256)) == spec(Vals(asg, ins)).value
  {
    hide *;
    HashConsSplit(p, asg, spec, n, ins);
    BitsMeaning(p, asg, n, 256);
    var out, f := BitVars(n, 256), spec(Vals(asg, ins)).value;
    forall j | 0 <= j < 256 ensures Vals(asg, out)[j] == f[j] {
      HashBit(p, spec, n, ins, asg, j);
    }
    assert Vals(asg, out) == f;
  }

  lemma HashBit(p: int, spec: HashSpec, n: nat, ins: seq<Boolean>, asg: Assignment, j: nat)
    requires p > 1 && AllBits(asg, ins) && SatAll(p, asg, TableCons(HashTable(spec, n, |ins|), n + 256, ins))
    requires spec(Vals(asg, ins)).Some? && |spec(Vals(asg, ins)).value| == 256
    requires j < 256 && AllBits(asg, BitVars(n, 256))
    ensures Vals(asg, BitVars(n, 256))[j] == spec(Vals(asg, ins)).value[j]
  {
    hide Congruent, TableCons, HashTable, BitsLe, ValueOf, Pow2, Eval, SatAll, Vals;
    var t, s := HashTable(spec, n, |ins|), Vals(asg, ins);
    var k := 256 * ValueOf(s) + j;
    RowOf(s, j);
    HashRow(spec, n, |ins|, k, asg);
    TableSound(p, asg, t, n + 256, ins, k);
    var out := BitVars(n, 256);
    assert out[j] == Is(n + j) && out[j].IsBit(asg);
    BitsEqual(p, asg.At(Aux(n + j)), Output(spec, s)[j]);
  }

  lemma SoundAtIs(p: int, spec: HashSpec, n: nat, ins: seq<Boolean>, asg: Assignment)
    requires p > 1
    requires InField(p, asg) && AllBits(asg, ins) && SatAll(p, asg, HashConsAt(spec, n, ins))
             && spec(Vals(asg, ins)).Some? ==>
             AllBits(asg, BitVars(n, 256)) && Some(Vals(asg, BitVars(n, 256))) == spec(Vals(asg, ins))
    ensures HashSoundAt(TableHash(p, spec), spec, p, n, ins, asg)
  {
    hide InField, AllBits, SatAll, HashConsAt, Vals, BitVars, HashFill;
  }

  lemma TableHashSound(p: int, spec: HashSpec, n: nat, ins: seq<Boolean>, asg: Assignment)
    requires IsPrime(p) && forall s :: spec(s).Some? ==> |spec(s).value| == 256
    ensures HashSoundAt(TableHash(p, spec), spec, p, n, ins, asg)
  {
    hide *;
    HashConsSplit(p, asg, spec, n, ins);
    if InField(p, asg) && AllBits(asg, ins) && SatAll(p, asg, HashConsAt(spec, n, ins)) && spec(Vals(asg, ins)).Some? {
      HashOutput(p, spec, n, ins, asg);
    }
    SoundAtIs(p, spec, n, ins, asg);
  }

  lemma HashRow(spec: HashSpec, n: nat, len: nat, k: nat, asg: Assignment)
    ensures var t := HashTable(spec, n, len);
      && t.rows == 256 * Pow2(len) && t.tuple(k) == BitsLe(k / 256, len)
      && Eval(t.target(k), asg) == asg.At(Aux(n + k % 256)) - Bit(Output(spec, t.tuple(k))[k % 256])
  {
  }

  lemma BitsEqual(p: int, x: int, b: bool)
    requires p > 1 && (x == 0 || x == 1) && Congruent(p, 0, x - Bit(b))
    ensures x == Bit(b)
  {
    SmallZero(p, 0 - (x - Bit(b)));
  }

  /** The output bits come first. */
  lemma OutputFirst(p: int, spec: HashSpec, aux: seq<Option<int>>, ins: seq<Boolean>, s: seq<bool>)
    requires KnownInput(aux, ins) == Some(s)
    ensures aux + BitValues(256, Some(Output(spec, s))) <= HashAux(TableHash(p, spec), aux, ins)
  {
    hide BitsLe, Pow2, Slack, KnownInput, Distance, HashConsAt, Output;
    var g, n, f := TableHash(p, spec), |aux|, Output(spec, s);
    var more := HashAux(g, aux, ins);
    forall i | 0 <= i < 256 ensures more[n + i] == BitValues(256, Some(f))[i] {
      assert more[n + i] == g.fill(aux, ins, i) == HashFill(p, spec, aux, ins, i);
    }
    assert more[n..n + 256] == BitValues(256, Some(f));
    assert more[..n + 256] == aux + BitValues(256, Some(f));
  }

  lemma TableHashComplete(p: int, spec: HashSpec, aux: seq<Option<int>>, ins: seq<Boolean>, s: seq<bool>,
                          asg: Assignment)
    requires IsPrime(p) && forall t :: spec(t).Some? ==> |spec(t).value| == 256 && |t| < p
    ensures HashCompleteAt(TableHash(p, spec), spec, p, aux, ins, s, asg)
  {
    hide IsPrime, Congruent, BoolCons, TableCons, BitVars, HashTable, BitsLe, Pow2, Eval, Slack, ReadBits, Known;
    hide BitValues;
    hide KnownInput, Distance, HashAux, InField, Agrees, SatAll;
    PrimeAboveOne(p);
    var more := HashAux(TableHash(p, spec), aux, ins);
    if InField(p, asg) && ReadBits(aux, ins) == Known(s) && spec(s).Some? && Agrees(asg, more) {
      KnownInputIs(aux, ins, s);
      ReadBitsHold(asg, aux, more, ins, s);
      var f := Output(spec, s);
      OutputFirst(p, spec, aux, ins, s);
      AgreesPrefix(asg, aux + BitValues(256, Some(f)), more);
      BitsComplete(p, asg, aux, f);
      ReadLater(aux, f, more);
      RowsComplete(p, spec, aux, ins, s, asg);
      SatConcat(p, asg, BoolCons(|aux|, 256), TableCons(HashTable(spec, |aux|, |ins|), |aux| + 256, ins));
    }
  }

  lemma RowsComplete(p: int, spec: HashSpec, aux: seq<Option<int>>, ins: seq<Boolean>, s: seq<bool>, asg: Assignment)
    requires IsPrime(p) && KnownInput(aux, ins) == Some(s) && Agrees(asg, HashAux(TableHash(p, spec), aux, ins))
    requires AllBits(asg, ins) && Vals(asg, ins) == s && |s| < p
    ensures p > 0 && SatAll(p, asg, TableCons(HashTable(spec, |aux|, |ins|), |aux| + 256, ins))
  {
    hide IsPrime, TableCons, HashTable, Slack, KnownInput, Distance, HashAux, Agrees, SatAll, AllBits, Vals, Eval;
    PrimeAboveOne(p);
    TableValues(p, spec, aux, ins, s, asg);
    TableComplete(p, asg, HashTable(spec, |aux|, |ins|), |aux| + 256, ins, s);
  }

  /** The values of the run, row by row. */
  lemma TableValues(p: int, spec: HashSpec, aux: seq<Option<int>>, ins: seq<Boolean>, s: seq<bool>, asg: Assignment)
    requires IsPrime(p) && |s| == |ins| && KnownInput(aux, ins) == Some(s)
             && Agrees(asg, HashAux(TableHash(p, spec), aux, ins))
    ensures var n := |aux|;
      var t := HashTable(spec, n, |ins|);
      forall k :: 0 <= k < t.rows ==>
        && (t.tuple(k) == s ==> Eval(t.target(k), asg) == 0)
        && asg.At(Aux(n + 256 + k)) == Slack(p, Distance(s, t.tuple(k)), Eval(t.target(k), asg))
  {
    hide IsPrime, HashTable, BitsLe, Pow2, Eval, Slack, KnownInput, Distance;
    var g, n := TableHash(p, spec), |aux|;
    var t, more := HashTable(spec, n, |ins|), HashAux(g, aux, ins);
    forall k | 0 <= k < t.rows
      ensures t.tuple(k) == s ==> Eval(t.target(k), asg) == 0
      ensures asg.At(Aux(n + 256 + k)) == Slack(p, Distance(s, t.tuple(k)), Eval(t.target(k), asg))
    {
      HashRow(spec, n, |ins|, k, asg);
      assert more[n + k % 256] == g.fill(aux, ins, k % 256) == HashFill(p, spec, aux, ins, k % 256);
      assert more[n + (256 + k)] == g.fill(aux, ins, 256 + k) == HashFill(p, spec, aux, ins, 256 + k);
    }
  }

  lemma TableHashCorrect(p: int, spec: HashSpec)
    requires IsPrime(p) && forall t :: spec(t).Some? ==> |spec(t).value| == 256 && |t| < p
    ensures HashCorrect(TableHash(p, spec), spec, p)
  {
    hide IsPrime, HashSoundAt, HashCompleteAt, HashConsAt, Slack, Distance;
    PrimeAboveOne(p);
    var g := TableHash(p, spec);
    forall n: nat, ins, asg ensures HashSoundAt(g, spec, p, n, ins, asg) {
      TableHashSound(p, spec, n, ins, asg);
    }
    forall aux, ins, s, asg ensures HashCompleteAt(g, spec, p, aux, ins, s, asg) {
      TableHashComplete(p, spec, aux, ins, s, asg);
    }
    forall aux, ins, k: nat ensures HashInRangeAt(g, p, aux, ins, k) {
      HashFillInRange(p, spec, aux, ins, k);
    }
  }

  lemma HashFillInRange(p: int, spec: HashSpec, aux: seq<Option<int>>, ins: seq<Boolean>, k: nat)
    requires p > 1
    ensures Within(p, HashFill(p, spec, aux, ins, k))
  {
  }

  // ---------------------------------------------------- a signature gadget

  function BitOfOption(bytes: Option<seq<byte>>, k: nat): Option<int> {
    if bytes.Some? && k < 8 * |bytes.value| then Some(Bit(BytesToBits(bytes.value)[k])) else None
  }

  /** Whether the relation accepts a key, a signature and a hash given as bits. */
  predicate AcceptsBits(spec: SigSpec, s: seq<bool>)
    requires |s| == 1024
  {
    spec.accepts(BitsToBytes(s[..256]), BitsToBytes(s[256..768]), BitsToBytes(s[768..]))
  }

  /** Row k can be satisfied at its tuple only if the relation accepts it. */
  function SigTable(spec: SigSpec, len: nat): (t: Table)
    requires len == 1024
    ensures FitsTable(t, len)
  {
    Table(Pow2(len), (k: nat) => BitsLe(k, len), (k: nat) => if AcceptsBits(spec, BitsLe(k, len)) then [] else ONES)
  }

  function SigIns(vk: nat, sig: nat, hash: seq<Boolean>): seq<Boolean> { BitVars(vk, 256) + BitVars(sig, 512) + hash }

  function SigConsAt(spec: SigSpec, vk: nat, sig: nat, n: nat, hash: seq<Boolean>): seq<Constraint> {
    var ins := SigIns(vk, sig, hash);
    if |hash| == 256 then TableCons(SigTable(spec, |ins|), n, ins) else []
  }

  ghost function SigTableFill(p: int, spec: SigSpec, aux: seq<Option<int>>, vk: nat, sig: nat, hash: seq<Boolean>,
                              k: nat)
    : Option<int>
  {
    match KnownInput(aux, SigIns(vk, sig, hash))
    case None => None
    case Some(s) =>
      if |hash| != 256 then None else
        var t := BitsLe(k, |s|);
        Some(Slack(p, Distance(s, t), if AcceptsBits(spec, t) then 0 else 1))
  }

  /** Key and signature as plain bits, and the table. */
  ghost function TableSig(p: int, spec: SigSpec): SigGadget {
    SigGadget(256, (n: nat) => BoolCons(n, 256), (n: nat) => BitVars(n, 256),
              (aux, vk: Option<Bytes32>, k: nat) => BitOfOption(vk, k),
              512, (n: nat) => BoolCons(n, 512), (n: nat) => BitVars(n, 512),
              (aux, sig: Option<Bytes64>, k: nat) => BitOfOption(sig, k),
              (vk: nat, sig: nat, hash) => if |hash| == 256 then Pow2(768 + |hash|) else 0,
              (vk: nat, sig: nat, n: nat, hash) => SigConsAt(spec, vk, sig, n, hash),
              (aux, vk: nat, sig: nat, hash, k: nat) => SigTableFill(p, spec, aux, vk, sig, hash, k))
  }

  lemma AllocatedBits(aux: seq<Option<int>>, bytes: seq<byte>, more: seq<Option<int>>)
    requires |more| == |aux| + 8 * |bytes| && aux <= more
    requires forall k :: 0 <= k < 8 * |bytes| ==> more[|aux| + k] == BitOfOption(Some(bytes), k)
    ensures more == aux + BitValues(8 * |bytes|, Some(BytesToBits(bytes)))
    ensures ReadBits(more, BitVars(|aux|, 8 * |bytes|)) == Known(BytesToBits(bytes))
  {
    var s := BytesToBits(bytes);
    forall i | 0 <= i < |s| ensures more[|aux| + i] == BitValues(|s|, Some(s))[i] {
      assert more[|aux| + i] == BitOfOption(Some(bytes), i) == Some(Bit(s[i]));
    }
    assert more == aux + BitValues(|s|, Some(s));
    ReadLater(aux, s, more);
  }

  lemma HonestBits(p: int, asg: Assignment, aux: seq<Option<int>>, at: nat, bytes: seq<byte>, more: seq<Option<int>>)
    requires IsPrime(p) && InField(p, asg) && Agrees(asg, aux) && at <= |aux| && more <= aux
    requires |more| == at + 8 * |bytes| && aux[..at] <= more
    requires forall k :: 0 <= k < 8 * |bytes| ==> more[at + k] == BitOfOption(Some(bytes), k)
    ensures SatAll(p, asg, BoolCons(at, 8 * |bytes|))
    ensures ReadBits(aux, BitVars(at, 8 * |bytes|)) == Known(BytesToBits(bytes))
  {
    hide ReadBits, BytesToBits, BitValues, BitVars, BoolCons, SatAll, InField, IsPrime;
    AllocatedBits(aux[..at], bytes, more);
    AgreesPrefix(asg, more, aux);
    BitsComplete(p, asg, aux[..at], BytesToBits(bytes));
    ReadBitsHold(asg, more, aux, BitVars(at, 8 * |bytes|), BytesToBits(bytes));
  }

  lemma SigRow(spec: SigSpec, len: nat, k: nat, asg: Assignment)
    requires len == 1024
    ensures var t := SigTable(spec, len);
      && t.rows == Pow2(len) && t.tuple(k) == BitsLe(k, len)
      && Eval(t.target(k), asg) == if AcceptsBits(spec, t.tuple(k)) then 0 else 1
  {
  }

  /** The rows hold exactly when the relation accepts the bits carried. */
  lemma SigRowsMeaning(p: int, asg: Assignment, spec: SigSpec, n: nat, ins: seq<Boolean>, s: seq<bool>)
    requires IsPrime(p) && p > 1024 && |ins| == 1024 && AllBits(asg, ins) && Vals(asg, ins) == s
    requires forall k :: 0 <= k < Pow2(|ins|) ==> var t := BitsLe(k, |ins|);
      AcceptsBits(spec, s) ==> asg.At(Aux(n + k)) == Slack(p, Distance(s, t), if AcceptsBits(spec, t) then 0 else 1)
    ensures SatAll(p, asg, TableCons(SigTable(spec, |ins|), n, ins)) <==> AcceptsBits(spec, s)
  {
    hide IsPrime, TableCons, SigTable, BitsLe, Pow2, Slack, Distance, SatAll, Eval, AcceptsBits, ValueOf;
    var t := SigTable(spec, |ins|);
    if SatAll(p, asg, TableCons(t, n, ins)) {
      SigRowSound(p, asg, spec, n, ins);
    }
    if AcceptsBits(spec, s) {
      forall k | 0 <= k < t.rows
        ensures t.tuple(k) == s ==> Eval(t.target(k), asg) == 0
        ensures asg.At(Aux(n + k)) == Slack(p, Distance(s, t.tuple(k)), Eval(t.target(k), asg))
      {
        SigRow(spec, |ins|, k, asg);
      }
      TableComplete(p, asg, t, n, ins, s);
    }
  }

  lemma SigRowSound(p: int, asg: Assignment, spec: SigSpec, n: nat, ins: seq<Boolean>)
    requires p > 1 && |ins| == 1024 && AllBits(asg, ins)
    requires SatAll(p, asg, TableCons(SigTable(spec, |ins|), n, ins))
    ensures AcceptsBits(spec, Vals(asg, ins))
  {
    hide TableCons, SigTable, BitsLe, Pow2, SatAll, Eval, AcceptsBits, ValueOf;
    var t, s := SigTable(spec, |ins|), Vals(asg, ins);
    ValueBound(s);
    BitsOfValue(s);
    SigRow(spec, |ins|, ValueOf(s), asg);
    TableSound(p, asg, t, n, ins, ValueOf(s));
    if !AcceptsBits(spec, s) { SmallZero(p, 0 - 1); }
  }

  lemma Parts(a: seq<bool>, b: seq<bool>, c: seq<bool>)
    requires |a| == 256 && |b| == 512
    ensures (a + b + c)[..256] == a && (a + b + c)[256..768] == b && (a + b + c)[768..] == c
  {
  }

  lemma InsHeld(asg: Assignment, vk: nat, sig: nat, hash: seq<Boolean>)
    requires AllBits(asg, hash) && AllBits(asg, BitVars(vk, 256)) && AllBits(asg, BitVars(sig, 512)) && |hash| == 256
    ensures AllBits(asg, SigIns(vk, sig, hash)) && |SigIns(vk, sig, hash)| == 1024
    ensures Vals(asg, SigIns(vk, sig, hash)) == Vals(asg, BitVars(vk, 256)) + Vals(asg, BitVars(sig, 512))
            + Vals(asg, hash)
  {
    hide AllBits, Vals;
    ValsConcat(asg, BitVars(vk, 256), BitVars(sig, 512));
    ValsConcat(asg, BitVars(vk, 256) + BitVars(sig, 512), hash);
  }

  lemma TableSigSound(p: int, spec: SigSpec, vk: nat, sig: nat, n: nat, hash: seq<Boolean>, asg: Assignment)
    requires IsPrime(p)
    ensures SigSoundAt(TableSig(p, spec), spec, p, vk, sig, n, hash, asg)
  {
    hide SatAll, BoolCons, BitVars, TableCons, SigTable, AllBits, Vals, BitsToBytes;
    PrimeAboveOne(p);
    if InField(p, asg) && |hash| == 256 && AllBits(asg, hash) && SigSat(TableSig(p, spec), p, vk, sig, n, hash, asg) {
      BitsMeaning(p, asg, vk, 256);
      BitsMeaning(p, asg, sig, 512);
      InsHeld(asg, vk, sig, hash);
      SigRowSound(p, asg, spec, n, SigIns(vk, sig, hash));
      Parts(Vals(asg, BitVars(vk, 256)), Vals(asg, BitVars(sig, 512)), Vals(asg, hash));
    }
  }

  lemma TableSigComplete(p: int, spec: SigSpec, aux: seq<Option<int>>, vk: nat, sig: nat, hash: seq<Boolean>,
                         vkBytes: Bytes32, sigBytes: Bytes64, hashBytes: Bytes32, asg: Assignment)
    requires IsPrime(p) && p > 1024
    ensures SigCompleteAt(TableSig(p, spec), spec, p, aux, vk, sig, hash, vkBytes, sigBytes, hashBytes, asg)
  {
    hide IsPrime, SatAll, BoolCons, BitVars, SigConsAt, BytesToBits, ReadBits, Known, InField, Agrees, VerifyAux;
    hide Pow2, SigTableFill, BitOfOption;
    var g := TableSig(p, spec);
    if InField(p, asg) && Allotted(g, aux, vk, sig, vkBytes, sigBytes)
       && ReadBits(aux, hash) == Known(BytesToBits(hashBytes)) && Agrees(asg, VerifyAux(g, aux, vk, sig, hash)) {
      AgreesPrefix(asg, aux, VerifyAux(g, aux, vk, sig, hash));
      HonestBits(p, asg, aux, vk, vkBytes, VkAux(g, aux[..vk], Some(vkBytes)));
      HonestBits(p, asg, aux, sig, sigBytes, SigAux(g, aux[..sig], Some(sigBytes)));
      RowsDecide(p, asg, spec, aux, vk, sig, hash, vkBytes, sigBytes, hashBytes);
    }
  }

  lemma RowsDecide(p: int, asg: Assignment, spec: SigSpec, aux: seq<Option<int>>, vk: nat, sig: nat, hash: seq<Boolean>,
                   vkBytes: Bytes32, sigBytes: Bytes64, hashBytes: Bytes32)
    requires IsPrime(p) && p > 1024 && Agrees(asg, aux)
    requires Agrees(asg, VerifyAux(TableSig(p, spec), aux, vk, sig, hash))
    requires ReadBits(aux, BitVars(vk, 256)) == Known(BytesToBits(vkBytes))
    requires ReadBits(aux, BitVars(sig, 512)) == Known(BytesToBits(sigBytes))
    requires ReadBits(aux, hash) == Known(BytesToBits(hashBytes))
    ensures SatAll(p, asg, SigConsAt(spec, vk, sig, |aux|, hash)) <==> spec.accepts(vkBytes, sigBytes, hashBytes)
  {
    hide IsPrime, SatAll, BitVars, TableCons, SigTable, AllBits, Vals, BytesToBits, BitsToBytes, ReadBits, Known;
    hide Agrees, VerifyAux, Pow2, KnownInput, SigTableFill, TableSig, SigIns, Slack, Distance, BitsLe;
    var a, b, c := BytesToBits(vkBytes), BytesToBits(sigBytes), BytesToBits(hashBytes);
    HeldBits(asg, aux, vk, sig, hash, a, b, c);
    SigValues(p, spec, aux, vk, sig, hash, a + b + c, asg);
    SigRowsMeaning(p, asg, spec, |aux|, SigIns(vk, sig, hash), a + b + c);
    Parts(a, b, c);
    BytesBitsBytes(vkBytes);
    BytesBitsBytes(sigBytes);
    BytesBitsBytes(hashBytes);
  }

  lemma HeldBits(asg: Assignment, aux: seq<Option<int>>, vk: nat, sig: nat, hash: seq<Boolean>,
                 a: seq<bool>, b: seq<bool>, c: seq<bool>)
    requires Agrees(asg, aux) && |c| == 256 && ReadBits(aux, BitVars(vk, 256)) == Known(a)
    requires ReadBits(aux, BitVars(sig, 512)) == Known(b) && ReadBits(aux, hash) == Known(c)
    ensures |hash| == 256 && |SigIns(vk, sig, hash)| == |a + b + c| == 1024 && |a| == 256 && |b| == 512
    ensures AllBits(asg, SigIns(vk, sig, hash)) && Vals(asg, SigIns(vk, sig, hash)) == a + b + c
    ensures KnownInput(aux, SigIns(vk, sig, hash)) == Some(a + b + c)
  {
    hide BitVars, AllBits, Vals, ReadBits, Known, Agrees, KnownInput;
    ReadBitsHold(asg, aux, aux, BitVars(vk, 256), a);
    ReadBitsHold(asg, aux, aux, BitVars(sig, 512), b);
    ReadBitsHold(asg, aux, aux, hash, c);
    ReadConcat(aux, BitVars(vk, 256), BitVars(sig, 512), a, b);
    ReadConcat(aux, BitVars(vk, 256) + BitVars(sig, 512), hash, a + b, c);
    KnownInputIs(aux, SigIns(vk, sig, hash), a + b + c);
    InsHeld(asg, vk, sig, hash);
  }

  /** The values of the rows. */
  lemma SigValues(p: int, spec: SigSpec, aux: seq<Option<int>>, vk: nat, sig: nat, hash: seq<Boolean>, s: seq<bool>,
                  asg: Assignment)
    requires |hash| == 256 && |s| == |SigIns(vk, sig, hash)| == 1024
             && KnownInput(aux, SigIns(vk, sig, hash)) == Some(s)
    requires Agrees(asg, VerifyAux(TableSig(p, spec), aux, vk, sig, hash))
    ensures forall k :: 0 <= k < Pow2(|s|) ==> var t := BitsLe(k, |s|);
      asg.At(Aux(|aux| + k)) == Slack(p, Distance(s, t), if AcceptsBits(spec, t) then 0 else 1)
  {
    hide BitsLe, Pow2, Slack, KnownInput, Distance, AcceptsBits, VerifyAux, SigIns, TableSig, SigTableFill, Agrees;
    forall k | 0 <= k < Pow2(|s|)
      ensures var t := BitsLe(k, |s|);
        asg.At(Aux(|aux| + k)) == Slack(p, Distance(s, t), if AcceptsBits(spec, t) then 0 else 1)
    {
      SigValueAt(p, spec, aux, vk, sig, hash, s, asg, k);
    }
  }

  lemma SigValueAt(p: int, spec: SigSpec, aux: seq<Option<int>>, vk: nat, sig: nat, hash: seq<Boolean>, s: seq<bool>,
                   asg: Assignment, k: nat)
    requires |hash| == 256 && |s| == |SigIns(vk, sig, hash)| == 1024
             && KnownInput(aux, SigIns(vk, sig, hash)) == Some(s)
    requires Agrees(asg, VerifyAux(TableSig(p, spec), aux, vk, sig, hash)) && k < Pow2(|s|)
    ensures var t := BitsLe(k, |s|);
      asg.At(Aux(|aux| + k)) == Slack(p, Distance(s, t), if AcceptsBits(spec, t) then 0 else 1)
  {
    hide BitsLe, Pow2, Slack, KnownInput, Distance, AcceptsBits, SigConsAt, BoolCons, BitVars;
    var g, more := TableSig(p, spec), VerifyAux(TableSig(p, spec), aux, vk, sig, hash);
    assert g.verifySize(vk, sig, hash) == Pow2(|s|);
    assert more[|aux| + k] == g.verifyFill(aux, vk, sig, hash, k) == SigTableFill(p, spec, aux, vk, sig, hash, k);
  }

  lemma TableSigCorrect(p: int, spec: SigSpec)
    requires IsPrime(p) && p > 1024
    ensures SigCorrect(TableSig(p, spec), spec, p)
  {
    hide IsPrime, SigSoundAt, SigCompleteAt, SigConsAt, SigTableFill, Pow2;
    PrimeAboveOne(p);
    var g := TableSig(p, spec);
    forall vk: nat, sig: nat, n: nat, hash, asg ensures SigSoundAt(g, spec, p, vk, sig, n, hash, asg) {
      TableSigSound(p, spec, vk, sig, n, hash, asg);
    }
    forall aux, vk: nat, sig: nat, hash, vkBytes: Bytes32, sigBytes: Bytes64, hashBytes: Bytes32, asg
      ensures SigCompleteAt(g, spec, p, aux, vk, sig, hash, vkBytes, sigBytes, hashBytes, asg)
    {
      TableSigComplete(p, spec, aux, vk, sig, hash, vkBytes, sigBytes, hashBytes, asg);
    }
    forall aux, vk: Bytes32 ensures VkBitsAt(g, aux, vk) {
      AllocatedBits(aux, vk, VkAux(g, aux, Some(vk)));
    }
    forall k: nat, vk, sig, aux, m: nat, n: nat, hash ensures SigInRangeAt(g, p, k, vk, sig, aux, m, n, hash) {
      SigFillInRange(p, spec, aux, m, n, hash, k);
    }
  }

  lemma SigFillInRange(p: int, spec: SigSpec, aux: seq<Option<int>>, m: nat, n: nat, hash: seq<Boolean>, k: nat)
    requires p > 1
    ensures Within(p, SigTableFill(p, spec, aux, m, n, hash, k))
  {
    hide Pow2, BitsLe, Distance, AcceptsBits;
  }

  // ------------------------------------------------------------ every kit

  ghost function TableKit(p: int, h: Hashes, spec: SigSpec): Kit {
    Kit(TableHash(p, PedersenSpec(h, NoteCommitment)), TableHash(p, PedersenSpec(h, MerkleTree(0))),
        TableHash(p, BlakeSpec(h)), TableSig(p, spec))
  }

  lemma LargeField(p: int)
    requires p > Pow2(CAPACITY)
    ensures p > 1128 && p > MAX_BLAKE2S_BITS
  {
    Pow2Words();
    Pow2Add(64, 8);
    Pow2Byte();
    Pow2Mono(72, CAPACITY);
  }

  /** Whatever the hash functions and the signature relation, the setting of the circuit's theorems is not empty. */
  lemma SettingHolds(p: int, h: Hashes, spec: SigSpec)
    requires IsPrime(p) && p > Pow2(CAPACITY)
    ensures Setting(p, TableKit(p, h, spec), h, spec)
  {
    hide Pow2, IsPrime, HashCorrect, SigCorrect, TableHash, TableSig, PedersenSpec, BlakeSpec;
    LargeField(p);
    SpecsFit(p, h);
    TableHashCorrect(p, PedersenSpec(h, NoteCommitment));
    TableHashCorrect(p, PedersenSpec(h, MerkleTree(0)));
    TableHashCorrect(p, BlakeSpec(h));
    TableSigCorrect(p, spec);
    TableKitReady(p, h, spec);
  }

  lemma SpecsFit(p: int, h: Hashes)
    requires p > 1128 && p > MAX_BLAKE2S_BITS
    ensures forall t, s :: PedersenSpec(h, t)(s).Some? ==> |PedersenSpec(h, t)(s).value| == 256 && |s| < p
    ensures forall s :: BlakeSpec(h)(s).Some? ==> |BlakeSpec(h)(s).value| == 256 && |s| < p
  {
    hide BytesToBits, BitsToBytes;
    forall t, s | PedersenSpec(h, t)(s).Some? ensures |PedersenSpec(h, t)(s).value| == 256 && |s| < p {
      assert PedersenSpec(h, t)(s).value == BytesToBits(h.pedersen(t, s));
    }
    forall s | BlakeSpec(h)(s).Some? ensures |BlakeSpec(h)(s).value| == 256 && |s| < p {
      assert BlakeSpec(h)(s).value == BytesToBits(h.blake2s(BitsToBytes(s)));
    }
  }

  lemma TableKitReady(p: int, h: Hashes, spec: SigSpec)
    ensures KitReady(TableKit(p, h, spec))
  {
    hide HashConsAt, SigConsAt, HashFill, SigTableFill, Pow2;
  }
}
