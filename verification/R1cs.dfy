/**
 Rank-1 constraint systems over the integers modulo p, in the form the circuit
 code uses: variables, lists of A * B = C constraints, and the prover's
 assignment. `None` in an assignment is the value of a set-up run.
 */
module R1cs {
  import opened Wrappers
  import opened Bits
  import opened PrimeField

  datatype Variable = One | Input(i: nat) | Aux(i: nat)

  /** A coefficient is an integer that stands for its residue modulo p. */
  datatype Term = Term(coeff: int, v: Variable)
  type LinComb = seq<Term>

  datatype Constraint = Constraint(a: LinComb, b: LinComb, c: LinComb)

  datatype SynthesisError = Unsatisfiable | DivisionByZero | AssignmentMissing

  /** Values for every variable; the constant One is not listed. */
  datatype Assignment = Assignment(inputs: seq<int>, aux: seq<int>) {
    function At(v: Variable): int {
      match v
      case One => 1
      case Input(i) => if i < |inputs| then inputs[i] else 0
      case Aux(i) => if i < |aux| then aux[i] else 0
    }
  }

  ghost predicate InField(p: int, asg: Assignment) {
    && p > 1
    && (forall i :: 0 <= i < |asg.inputs| ==> 0 <= asg.inputs[i] < p)
    && (forall i :: 0 <= i < |asg.aux| ==> 0 <= asg.aux[i] < p)
  }

  function Eval(lc: LinComb, asg: Assignment): int {
    if lc == [] then 0 else lc[0].coeff * asg.At(lc[0].v) + Eval(lc[1..], asg)
  }

  predicate Sat(p: int, asg: Assignment, k: Constraint)
    requires p > 0
  {
    Congruent(p, Eval(k.a, asg) * Eval(k.b, asg), Eval(k.c, asg))
  }

  ghost predicate SatAll(p: int, asg: Assignment, ks: seq<Constraint>)
    requires p > 0
  {
    forall i :: 0 <= i < |ks| ==> Sat(p, asg, ks[i])
  }

  lemma SatConcat(p: int, asg: Assignment, ks: seq<Constraint>, ls: seq<Constraint>)
    requires p > 0
    ensures SatAll(p, asg, ks + ls) <==> SatAll(p, asg, ks) && SatAll(p, asg, ls)
  {
    if SatAll(p, asg, ks + ls) {
      forall i | 0 <= i < |ks| ensures Sat(p, asg, ks[i]) {
        assert (ks + ls)[i] == ks[i];
      }
      forall i | 0 <= i < |ls| ensures Sat(p, asg, ls[i]) {
        assert (ks + ls)[|ks| + i] == ls[i];
      }
    }
  }

  lemma SatFour(p: int, asg: Assignment, k: Constraint, l: Constraint, m: Constraint, n: Constraint)
    requires p > 0
    ensures SatAll(p, asg, [k, l, m, n]) <==>
            Sat(p, asg, k) && Sat(p, asg, l) && Sat(p, asg, m) && Sat(p, asg, n)
  {
    var ks := [k, l, m, n];
    if SatAll(p, asg, ks) {
      assert Sat(p, asg, ks[0]) && Sat(p, asg, ks[1]) && Sat(p, asg, ks[2]) && Sat(p, asg, ks[3]);
    }
  }

  lemma SatFive(p: int, asg: Assignment, u: seq<Constraint>, v: seq<Constraint>, w: seq<Constraint>,
                x: seq<Constraint>, y: seq<Constraint>)
    requires p > 0
    ensures SatAll(p, asg, u + v + w + x + y) <==>
            SatAll(p, asg, u) && SatAll(p, asg, v) && SatAll(p, asg, w) && SatAll(p, asg, x) && SatAll(p, asg, y)
  {
    SatConcat(p, asg, u, v);
    SatConcat(p, asg, u + v, w);
    SatConcat(p, asg, u + v + w, x);
    SatConcat(p, asg, u + v + w + x, y);
  }

  // ------------------------------------------------- linear combinations

  lemma {:induction false} EvalConcat(l: LinComb, m: LinComb, asg: Assignment)
    ensures Eval(l + m, asg) == Eval(l, asg) + Eval(m, asg)
  {
    if l == [] {
      assert l + m == m;
    } else {
      EvalConcat(l[1..], m, asg);
      assert (l + m)[1..] == l[1..] + m;
    }
  }

  lemma NoTerms(asg: Assignment)
    ensures Eval([], asg) == 0
  {
  }

  function Negate(l: LinComb): (r: LinComb)
    ensures forall asg :: Eval(r, asg) == -Eval(l, asg)
  {
    if l == [] then [] else
      var head := [Term(-l[0].coeff, l[0].v)];
      assert (head + Negate(l[1..]))[1..] == Negate(l[1..]);
      head + Negate(l[1..])
  }

  /** `lc + &other` */
  function Plus(l: LinComb, m: LinComb): (r: LinComb)
    ensures forall asg :: Eval(r, asg) == Eval(l, asg) + Eval(m, asg)
  {
    assert forall asg :: Eval(l + m, asg) == Eval(l, asg) + Eval(m, asg) by {
      forall asg ensures Eval(l + m, asg) == Eval(l, asg) + Eval(m, asg) {
        EvalConcat(l, m, asg);
      }
    }
    l + m
  }

  /** `lc - &other` */
  function Minus(l: LinComb, m: LinComb): (r: LinComb)
    ensures forall asg :: Eval(r, asg) == Eval(l, asg) - Eval(m, asg)
  {
    Plus(l, Negate(m))
  }

  /** `lc + (coeff, v)` on the empty combination. */
  function Single(coeff: int, v: Variable): (r: LinComb)
    ensures forall asg :: Eval(r, asg) == coeff * asg.At(v)
  {
    var r := [Term(coeff, v)];
    assert forall asg :: Eval(r, asg) == coeff * asg.At(v) by {
      forall asg ensures Eval(r, asg) == coeff * asg.At(v) {
        assert r[1..] == [];
        assert Eval(r[1..], asg) == 0;
      }
    }
    r
  }

  const ONES: LinComb := Single(1, One)

  // ------------------------------------------------------------ booleans

  /** A constant, an allocated bit (by auxiliary index), or its negation. */
  datatype Boolean = Constant(b: bool) | Is(i: nat) | Not(i: nat) {
    function Negated(): Boolean {
      match this
      case Constant(b) => Constant(!b)
      case Is(i) => Not(i)
      case Not(i) => Is(i)
    }

    /** The combination that evaluates to coeff times this bit. */
    function Lc(coeff: int): LinComb {
      match this
      case Constant(b) => if b then Single(coeff, One) else []
      case Is(i) => Single(coeff, Aux(i))
      case Not(i) => Minus(Single(coeff, One), Single(coeff, Aux(i)))
    }

    function Val(asg: Assignment): int {
      match this
      case Constant(b) => Bit(b)
      case Is(i) => asg.At(Aux(i))
      case Not(i) => 1 - asg.At(Aux(i))
    }

    /** The value is 0 or 1. */
    predicate IsBit(asg: Assignment) { Val(asg) == 0 || Val(asg) == 1 }

    predicate Holds(asg: Assignment) { Val(asg) == 1 }
  }

  lemma LcVal(b: Boolean, coeff: int, asg: Assignment)
    ensures Eval(b.Lc(coeff), asg) == coeff * b.Val(asg)
  {
    match b
    case Constant(_) =>
    case Is(_) =>
    case Not(i) => assert coeff * (1 - asg.At(Aux(i))) == coeff - coeff * asg.At(Aux(i));
  }

  lemma BitCases(asg: Assignment, b: Boolean)
    ensures b.IsBit(asg) <==> b.Val(asg) == 0 || b.Val(asg) == 1
    ensures b.Holds(asg) <==> b.Val(asg) == 1
  {
  }

  ghost predicate AllBits(asg: Assignment, bs: seq<Boolean>) {
    forall i :: 0 <= i < |bs| ==> bs[i].IsBit(asg)
  }

  function Vals(asg: Assignment, bs: seq<Boolean>): (r: seq<bool>)
    ensures |r| == |bs|
    ensures forall i :: 0 <= i < |bs| ==> r[i] == bs[i].Holds(asg)
  {
    seq(|bs|, i requires 0 <= i < |bs| => bs[i].Holds(asg))
  }

  lemma ValsConcat(asg: Assignment, a: seq<Boolean>, b: seq<Boolean>)
    ensures Vals(asg, a + b) == Vals(asg, a) + Vals(asg, b)
    ensures AllBits(asg, a + b) <==> AllBits(asg, a) && AllBits(asg, b)
  {
    if AllBits(asg, a + b) {
      forall i | 0 <= i < |a| ensures a[i].IsBit(asg) {
        assert (a + b)[i] == a[i];
      }
      forall i | 0 <= i < |b| ensures b[i].IsBit(asg) {
        assert (a + b)[|a| + i] == b[i];
      }
    }
  }

  /** (1 - v) * v = 0 */
  function BoolCon(i: nat): Constraint {
    Constraint(Minus(Single(1, One), Single(1, Aux(i))), Single(1, Aux(i)), [])
  }

  /** The constraint allows exactly the values 0 and 1. */
  lemma BoolConMeaning(p: int, asg: Assignment, i: nat)
    requires IsPrime(p) && InField(p, asg)
    ensures Sat(p, asg, BoolCon(i)) <==> Is(i).IsBit(asg)
  {
    var x := asg.At(Aux(i));
    var k := BoolCon(i);
    assert Eval(k.a, asg) == 1 - x && Eval(k.b, asg) == x && Eval(k.c, asg) == 0;
    if Sat(p, asg, k) {
      Euclid(p, 1 - x, x);
      if Divides(p, x) {
        SmallZero(p, x);
      } else {
        SmallZero(p, 1 - x);
      }
    }
    if x == 0 || x == 1 {
      DividesSum(p, 0, 0);
      assert (1 - x) * x == 0;
    }
  }

  // --------------------------------------------- bit vectors in sequence

  /** n allocated bits from auxiliary index n0 on. */
  function BitVars(n0: nat, n: nat): (r: seq<Boolean>)
    ensures |r| == n && forall i :: 0 <= i < n ==> r[i] == Is(n0 + i)
  {
    seq(n, i requires 0 <= i < n => Is(n0 + i))
  }

  function BoolCons(n0: nat, n: nat): (r: seq<Constraint>)
    ensures |r| == n && forall i :: 0 <= i < n ==> r[i] == BoolCon(n0 + i)
  {
    seq(n, i requires 0 <= i < n => BoolCon(n0 + i))
  }

  /** Their values: those of the given bits, or unknown. */
  function BitValues(n: nat, bits: Option<seq<bool>>): (r: seq<Option<int>>)
    requires bits.Some? ==> |bits.value| == n
    ensures |r| == n
    ensures forall i :: 0 <= i < n ==>
      r[i] == match bits case None => None case Some(s) => Some(Bit(s[i]))
  {
    seq(n, i requires 0 <= i < n => match bits case None => None case Some(s) => Some(Bit(s[i])))
  }

  lemma BitsMeaning(p: int, asg: Assignment, n0: nat, n: nat)
    requires IsPrime(p) && InField(p, asg)
    ensures SatAll(p, asg, BoolCons(n0, n)) <==> AllBits(asg, BitVars(n0, n))
  {
    forall i | 0 <= i < n
      ensures Sat(p, asg, BoolCons(n0, n)[i]) <==> BitVars(n0, n)[i].IsBit(asg)
    {
      BoolConMeaning(p, asg, n0 + i);
    }
    if AllBits(asg, BitVars(n0, n)) {
      forall i | 0 <= i < n ensures Sat(p, asg, BoolCons(n0, n)[i]) {
        assert BitVars(n0, n)[i].IsBit(asg);
      }
    }
    if SatAll(p, asg, BoolCons(n0, n)) {
      forall i | 0 <= i < n ensures BitVars(n0, n)[i].IsBit(asg) {
        assert Sat(p, asg, BoolCons(n0, n)[i]);
      }
    }
  }

  /** A value, if known, is a field element. */
  predicate Within(p: int, x: Option<int>) { x.Some? ==> 0 <= x.value < p }

  ghost predicate InRange(p: int, aux: seq<Option<int>>) {
    forall i :: 0 <= i < |aux| ==> Within(p, aux[i])
  }

  /** asg has the known values of aux. */
  ghost predicate Agrees(asg: Assignment, aux: seq<Option<int>>) {
    && |aux| <= |asg.aux|
    && forall i :: 0 <= i < |aux| && aux[i].Some? ==> asg.aux[i] == aux[i].value
  }

  /** The assignment of a run, unknowns set to zero. */
  function RunAssignment(inputs: seq<int>, aux: seq<Option<int>>): (asg: Assignment)
    ensures asg.inputs == inputs && |asg.aux| == |aux|
    ensures forall i :: 0 <= i < |aux| ==> asg.aux[i] == if aux[i].Some? then aux[i].value else 0
  {
    Assignment(inputs, seq(|aux|, i requires 0 <= i < |aux| => if aux[i].Some? then aux[i].value else 0))
  }

  /** An assignment that agrees with a longer list agrees with its prefix. */
  lemma AgreesPrefix(asg: Assignment, aux: seq<Option<int>>, more: seq<Option<int>>)
    requires Agrees(asg, more) && aux <= more
    ensures Agrees(asg, aux)
  {
  }

  lemma BitsComplete(p: int, asg: Assignment, aux: seq<Option<int>>, s: seq<bool>)
    requires IsPrime(p) && InField(p, asg)
    requires Agrees(asg, aux + BitValues(|s|, Some(s)))
    ensures SatAll(p, asg, BoolCons(|aux|, |s|))
    ensures AllBits(asg, BitVars(|aux|, |s|)) && Vals(asg, BitVars(|aux|, |s|)) == s
  {
    var vals := BitValues(|s|, Some(s));
    var vars := BitVars(|aux|, |s|);
    forall i | 0 <= i < |s|
      ensures vars[i].IsBit(asg) && vars[i].Holds(asg) == s[i]
      ensures Sat(p, asg, BoolCons(|aux|, |s|)[i])
    {
      assert (aux + vals)[|aux| + i] == vals[i] == Some(Bit(s[i]));
      BoolConMeaning(p, asg, |aux| + i);
    }
  }

  // ------------------------------------------------------- the system

  /**
   The value a boolean has under a partial assignment; unknown when its
   variable has no value yet, or one that is not a bit.
   */
  function ReadBit(aux: seq<Option<int>>, b: Boolean): Option<bool> {
    match b
    case Constant(c) => Some(c)
    case Is(i) => ReadVar(aux, i)
    case Not(i) => (match ReadVar(aux, i) case None => None case Some(x) => Some(!x))
  }

  function ReadVar(aux: seq<Option<int>>, i: nat): Option<bool> {
    if i < |aux| && aux[i].Some? && 0 <= aux[i].value <= 1 then Some(aux[i].value == 1) else None
  }

  function ReadBits(aux: seq<Option<int>>, bs: seq<Boolean>): (r: seq<Option<bool>>)
    ensures |r| == |bs|
    ensures forall i :: 0 <= i < |bs| ==> r[i] == ReadBit(aux, bs[i])
  {
    seq(|bs|, i requires 0 <= i < |bs| => ReadBit(aux, bs[i]))
  }

  function Known<T>(s: seq<T>): (r: seq<Option<T>>)
    ensures |r| == |s| && forall i :: 0 <= i < |s| ==> r[i] == Some(s[i])
  {
    seq(|s|, i requires 0 <= i < |s| => Some(s[i]))
  }

  /** A known value is kept when variables are added, and holds in any agreeing assignment. */
  lemma ReadBitHolds(asg: Assignment, aux: seq<Option<int>>, more: seq<Option<int>>, b: Boolean)
    requires aux <= more && ReadBit(aux, b).Some?
    ensures ReadBit(more, b) == ReadBit(aux, b)
    ensures Agrees(asg, more) ==> b.IsBit(asg) && b.Holds(asg) == ReadBit(aux, b).value
  {
  }

  lemma ReadBitsHold(asg: Assignment, aux: seq<Option<int>>, more: seq<Option<int>>,
                     bs: seq<Boolean>, s: seq<bool>)
    requires aux <= more && ReadBits(aux, bs) == Known(s)
    ensures ReadBits(more, bs) == Known(s)
    ensures Agrees(asg, more) ==> AllBits(asg, bs) && Vals(asg, bs) == s
  {
    forall i | 0 <= i < |bs|
      ensures ReadBits(more, bs)[i] == Some(s[i])
      ensures Agrees(asg, more) ==> bs[i].IsBit(asg) && bs[i].Holds(asg) == s[i]
    {
      assert ReadBits(aux, bs)[i] == Known(s)[i];
      ReadBitHolds(asg, aux, more, bs[i]);
    }
  }

  lemma ReadAll(aux: seq<Option<int>>, bs: seq<Boolean>, s: seq<bool>)
    requires |bs| == |s| && forall i :: 0 <= i < |bs| ==> ReadBit(aux, bs[i]) == Some(s[i])
    ensures ReadBits(aux, bs) == Known(s)
  {
  }

  /** Freshly allocated bits read back as the values given to them. */
  lemma ReadBitVars(aux: seq<Option<int>>, s: seq<bool>)
    ensures ReadBits(aux + BitValues(|s|, Some(s)), BitVars(|aux|, |s|)) == Known(s)
  {
    var vals := BitValues(|s|, Some(s));
    forall i | 0 <= i < |s|
      ensures ReadBits(aux + vals, BitVars(|aux|, |s|))[i] == Some(s[i])
    {
      assert (aux + vals)[|aux| + i] == vals[i];
    }
  }

  /** Bits allocated after u still read back when more variables follow. */
  lemma ReadLater(u: seq<Option<int>>, s: seq<bool>, all: seq<Option<int>>)
    requires u + BitValues(|s|, Some(s)) <= all
    ensures ReadBits(all, BitVars(|u|, |s|)) == Known(s)
  {
    ReadBitVars(u, s);
    ReadBitsHold(Assignment([], []), u + BitValues(|s|, Some(s)), all, BitVars(|u|, |s|), s);
  }

  lemma ReadConcat(aux: seq<Option<int>>, a: seq<Boolean>, b: seq<Boolean>, s: seq<bool>, t: seq<bool>)
    requires ReadBits(aux, a) == Known(s) && ReadBits(aux, b) == Known(t)
    ensures ReadBits(aux, a + b) == Known(s + t)
  {
    assert |a| == |Known(s)| && |b| == |Known(t)|;
    assert ReadBits(aux, a + b) == ReadBits(aux, a) + ReadBits(aux, b);
    assert Known(s + t) == Known(s) + Known(t);
  }

  class ConstraintSystem {
    var inputs: seq<Option<int>>
    var aux: seq<Option<int>>
    var constraints: seq<Constraint>

    constructor ()
      ensures inputs == [] && aux == [] && constraints == []
    {
      inputs, aux, constraints := [], [], [];
    }

    function GetValue(b: Boolean): Option<bool>
      reads this
    {
      ReadBit(aux, b)
    }

    method Alloc(value: Option<int>) returns (v: nat)
      modifies this
      ensures v == |old(aux)| && aux == old(aux) + [value]
      ensures inputs == old(inputs) && constraints == old(constraints)
    {
      v := |aux|;
      aux := aux + [value];
    }

    method AllocInput(value: Option<int>) returns (v: Variable)
      modifies this
      ensures v == Input(|old(inputs)|) && inputs == old(inputs) + [value]
      ensures aux == old(aux) && constraints == old(constraints)
    {
      v := Input(|inputs|);
      inputs := inputs + [value];
    }

    method Enforce(a: LinComb, b: LinComb, c: LinComb)
      modifies this
      ensures constraints == old(constraints) + [Constraint(a, b, c)]
      ensures inputs == old(inputs) && aux == old(aux)
    {
      constraints := constraints + [Constraint(a, b, c)];
    }

    /** `AllocatedBit::alloc`: a variable and the constraint that makes it a bit. */
    method AllocBit(value: Option<bool>) returns (bit: Boolean)
      modifies this
      ensures bit == Is(|old(aux)|)
      ensures aux == old(aux) + [BitValue(value)]
      ensures constraints == old(constraints) + [BoolCon(|old(aux)|)]
      ensures inputs == old(inputs)
    {
      var v := Alloc(BitValue(value));
      Enforce(Minus(Single(1, One), Single(1, Aux(v))), Single(1, Aux(v)), []);
      bit := Is(v);
    }
  }

  function BitValue(value: Option<bool>): Option<int> {
    match value
    case None => None
    case Some(b) => Some(Bit(b))
  }
}
