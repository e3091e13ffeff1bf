/**
 The comparison gadgets of bits.rs. Each gadget has three specifications: the
 constraints it emits (a function of variable numbers only, never of values),
 the witness it computes, and what a satisfying assignment means.
 */
module BitGadgets {
  import opened Wrappers
  import opened Bits
  import opened PrimeField
  import opened R1cs

  // ------------------------------------------------------- Boolean::and

  /** Two allocated operands cost a variable and a constraint; a constant folds. */
  function AndLen(a: Boolean, b: Boolean): nat {
    if a.Constant? || b.Constant? then 0 else 1
  }

  function AndOut(n: nat, a: Boolean, b: Boolean): Boolean {
    if a == Constant(false) || b == Constant(false) then Constant(false)
    else if a == Constant(true) then b
    else if b == Constant(true) then a
    else Is(n)
  }

  function AndCons(n: nat, a: Boolean, b: Boolean): (r: seq<Constraint>)
    ensures |r| == AndLen(a, b)
  {
    match (a, b)
    case (Constant(_), _) => []
    case (_, Constant(_)) => []
    case (Is(i), Is(j)) => [Constraint(Single(1, Aux(i)), Single(1, Aux(j)), Single(1, Aux(n)))]
    case (Is(i), Not(j)) => [AndNotCon(n, i, j)]
    case (Not(j), Is(i)) => [AndNotCon(n, i, j)]
    case (Not(i), Not(j)) => [Constraint(Minus(Single(1, One), Single(1, Aux(i))),
                                         Minus(Single(1, One), Single(1, Aux(j))), Single(1, Aux(n)))]
  }

  /** i AND (NOT j) */
  function AndNotCon(n: nat, i: nat, j: nat): Constraint {
    Constraint(Single(1, Aux(i)), Minus(Single(1, One), Single(1, Aux(j))), Single(1, Aux(n)))
  }

  function BothOpt(a: Option<bool>, b: Option<bool>): Option<bool> {
    if a.Some? && b.Some? then Some(a.value && b.value) else None
  }

  function AndAux(aux: seq<Option<int>>, a: Boolean, b: Boolean): (r: seq<Option<int>>)
    ensures aux <= r && |r| == |aux| + AndLen(a, b)
  {
    if AndLen(a, b) == 0 then aux else aux + [BitValue(BothOpt(ReadBit(aux, a), ReadBit(aux, b)))]
  }

  method And(cs: ConstraintSystem, a: Boolean, b: Boolean) returns (r: Boolean)
    modifies cs
    ensures r == AndOut(|old(cs.aux)|, a, b)
    ensures cs.constraints == old(cs.constraints) + AndCons(|old(cs.aux)|, a, b)
    ensures cs.aux == AndAux(old(cs.aux), a, b) && cs.inputs == old(cs.inputs)
  {
    if a == Constant(false) || b == Constant(false) {
      return Constant(false);
    } else if a == Constant(true) {
      return b;
    } else if b == Constant(true) {
      return a;
    }
    var value := BothOpt(cs.GetValue(a), cs.GetValue(b));
    var v := cs.Alloc(BitValue(value));
    match (a, b) {
      case (Is(i), Is(j)) => cs.Enforce(Single(1, Aux(i)), Single(1, Aux(j)), Single(1, Aux(v)));
      case (Is(i), Not(j)) =>
        cs.Enforce(Single(1, Aux(i)), Minus(Single(1, One), Single(1, Aux(j))), Single(1, Aux(v)));
      case (Not(j), Is(i)) =>
        cs.Enforce(Single(1, Aux(i)), Minus(Single(1, One), Single(1, Aux(j))), Single(1, Aux(v)));
      case (Not(i), Not(j)) =>
        cs.Enforce(Minus(Single(1, One), Single(1, Aux(i))),
                   Minus(Single(1, One), Single(1, Aux(j))), Single(1, Aux(v)));
    }
    r := Is(v);
  }

  lemma AndEval(p: int, asg: Assignment, n: nat, a: Boolean, b: Boolean)
    requires p > 0 && AndLen(a, b) == 1
    ensures SatAll(p, asg, AndCons(n, a, b)) <==> Congruent(p, a.Val(asg) * b.Val(asg), asg.At(Aux(n)))
  {
    hide Congruent, Eval;
    var k := AndCons(n, a, b)[0];
    assert Eval(k.a, asg) * Eval(k.b, asg) == a.Val(asg) * b.Val(asg) && Eval(k.c, asg) == asg.At(Aux(n));
    assert SatAll(p, asg, AndCons(n, a, b)) <==> Sat(p, asg, k);
  }

  /** For bit operands, the constraints hold exactly when the result is their conjunction. */
  lemma AndMeaning(p: int, asg: Assignment, n: nat, a: Boolean, b: Boolean)
    requires InField(p, asg) && a.IsBit(asg) && b.IsBit(asg)
    ensures SatAll(p, asg, AndCons(n, a, b)) <==>
            AndOut(n, a, b).IsBit(asg) && AndOut(n, a, b).Holds(asg) == (a.Holds(asg) && b.Holds(asg))
  {
    if AndLen(a, b) == 1 {
      AndEval(p, asg, n, a, b);
      hide AndCons, Sat, Congruent, SatAll, Eval;
      var x, y, z := a.Val(asg), b.Val(asg), asg.At(Aux(n));
      assert 0 <= x * y <= 1;
      if Congruent(p, x * y, z) { CongruentUnique(p, x * y, z); }
      CongruentSelf(p, z);
    }
  }

  lemma AndRead(aux: seq<Option<int>>, a: Boolean, b: Boolean)
    requires ReadBit(aux, a).Some? && ReadBit(aux, b).Some?
    ensures ReadBit(AndAux(aux, a, b), AndOut(|aux|, a, b)) ==
            Some(ReadBit(aux, a).value && ReadBit(aux, b).value)
  {
    var more := AndAux(aux, a, b);
    if AndLen(a, b) == 1 {
      assert more[|aux|] == BitValue(BothOpt(ReadBit(aux, a), ReadBit(aux, b)));
    }
  }

  lemma AndComplete(p: int, asg: Assignment, aux: seq<Option<int>>, a: Boolean, b: Boolean)
    requires InField(p, asg) && Agrees(asg, AndAux(aux, a, b))
    requires ReadBit(aux, a).Some? && ReadBit(aux, b).Some?
    ensures SatAll(p, asg, AndCons(|aux|, a, b))
    ensures ReadBit(AndAux(aux, a, b), AndOut(|aux|, a, b)) ==
            Some(ReadBit(aux, a).value && ReadBit(aux, b).value)
  {
    hide AndCons, SatAll, Agrees, InField, ReadVar;
    var more, r := AndAux(aux, a, b), AndOut(|aux|, a, b);
    ReadBitHolds(asg, aux, more, a);
    ReadBitHolds(asg, aux, more, b);
    AndRead(aux, a, b);
    ReadBitHolds(asg, more, more, r);
    AndMeaning(p, asg, |aux|, a, b);
  }

  // ------------------------------------------- boolean_or, by De Morgan

  function OrLen(a: Boolean, b: Boolean): nat { AndLen(a.Negated(), b.Negated()) }
  function OrOut(n: nat, a: Boolean, b: Boolean): Boolean { AndOut(n, a.Negated(), b.Negated()).Negated() }
  function OrCons(n: nat, a: Boolean, b: Boolean): seq<Constraint> { AndCons(n, a.Negated(), b.Negated()) }
  function OrAux(aux: seq<Option<int>>, a: Boolean, b: Boolean): (r: seq<Option<int>>)
    ensures aux <= r && |r| == |aux| + OrLen(a, b)
  {
    AndAux(aux, a.Negated(), b.Negated())
  }

  method BooleanOr(cs: ConstraintSystem, a: Boolean, b: Boolean) returns (r: Boolean)
    modifies cs
    ensures r == OrOut(|old(cs.aux)|, a, b)
    ensures cs.constraints == old(cs.constraints) + OrCons(|old(cs.aux)|, a, b)
    ensures cs.aux == OrAux(old(cs.aux), a, b) && cs.inputs == old(cs.inputs)
  {
    var notA := a.Negated();
    var notB := b.Negated();
    var notAAndNotB := And(cs, notA, notB);
    r := notAAndNotB.Negated();
  }

  lemma OrMeaning(p: int, asg: Assignment, n: nat, a: Boolean, b: Boolean)
    requires InField(p, asg) && a.IsBit(asg) && b.IsBit(asg)
    ensures SatAll(p, asg, OrCons(n, a, b)) <==>
            OrOut(n, a, b).IsBit(asg) && OrOut(n, a, b).Holds(asg) == (a.Holds(asg) || b.Holds(asg))
  {
    NegatedMeaning(asg, a);
    NegatedMeaning(asg, b);
    NegatedMeaning(asg, AndOut(n, a.Negated(), b.Negated()));
    AndMeaning(p, asg, n, a.Negated(), b.Negated());
  }

  lemma NegatedMeaning(asg: Assignment, a: Boolean)
    ensures a.Negated().Val(asg) == 1 - a.Val(asg)
    ensures a.Negated().IsBit(asg) == a.IsBit(asg)
    ensures a.IsBit(asg) ==> a.Negated().Holds(asg) == !a.Holds(asg)
  {
  }

  lemma OrComplete(p: int, asg: Assignment, aux: seq<Option<int>>, a: Boolean, b: Boolean)
    requires InField(p, asg) && Agrees(asg, OrAux(aux, a, b))
    requires ReadBit(aux, a).Some? && ReadBit(aux, b).Some?
    ensures SatAll(p, asg, OrCons(|aux|, a, b))
    ensures ReadBit(OrAux(aux, a, b), OrOut(|aux|, a, b)) ==
            Some(ReadBit(aux, a).value || ReadBit(aux, b).value)
  {
    AndComplete(p, asg, aux, a.Negated(), b.Negated());
  }

  // --------------------------------------------------- conditional_swap

  /** select * (x - y) = out - y, that is, out is x when select is 1 and y when 0. */
  function MuxCon(out: nat, select: Boolean, x: Boolean, y: Boolean): Constraint {
    Constraint(Plus([], select.Lc(1)), Minus(Plus([], x.Lc(1)), y.Lc(1)),
               Minus(Single(1, Aux(out)), y.Lc(1)))
  }

  function MuxOpt(select: Option<bool>, x: Option<bool>, y: Option<bool>): Option<bool> {
    if select.Some? && x.Some? && y.Some? then Some(if select.value then x.value else y.value) else None
  }

  function SwapLeft(n0: nat, n: nat): (r: seq<Boolean>)
    ensures |r| == n && forall i :: 0 <= i < n ==> r[i] == Is(n0 + 2 * i)
  {
    seq(n, i requires 0 <= i < n => Is(n0 + 2 * i))
  }

  function SwapRight(n0: nat, n: nat): (r: seq<Boolean>)
    ensures |r| == n && forall i :: 0 <= i < n ==> r[i] == Is(n0 + 2 * i + 1)
  {
    seq(n, i requires 0 <= i < n => Is(n0 + 2 * i + 1))
  }

  function SwapStepCons(n: nat, dir: Boolean, a: Boolean, b: Boolean): seq<Constraint> {
    [BoolCon(n), MuxCon(n, dir, a, b), BoolCon(n + 1), MuxCon(n + 1, dir, b, a)]
  }

  /** The constraints of the first k positions. */
  function SwapCons(n0: nat, dir: Boolean, a: seq<Boolean>, b: seq<Boolean>, k: nat): (r: seq<Constraint>)
    requires k <= |a| == |b|
    ensures |r| == 4 * k
  {
    if k == 0 then [] else
      SwapCons(n0, dir, a, b, k - 1) + SwapStepCons(n0 + 2 * (k - 1), dir, a[k - 1], b[k - 1])
  }

  function SwapAux(aux: seq<Option<int>>, dir: Boolean, a: seq<Boolean>, b: seq<Boolean>, k: nat)
    : (r: seq<Option<int>>)
    requires k <= |a| == |b|
    ensures aux <= r && |r| == |aux| + 2 * k
  {
    if k == 0 then aux else
      var u := SwapAux(aux, dir, a, b, k - 1);
      var d, x, y := ReadBit(u, dir), ReadBit(u, a[k - 1]), ReadBit(u, b[k - 1]);
      u + [BitValue(MuxOpt(d, x, y)), BitValue(MuxOpt(d, y, x))]
  }

  method ConditionalSwap(cs: ConstraintSystem, dir: Boolean, a: seq<Boolean>, b: seq<Boolean>)
    returns (r: Result<(seq<Boolean>, seq<Boolean>), SynthesisError>)
    modifies cs
    ensures r.Ok? <==> |a| == |b|
    ensures r.Ok? ==>
      && r.value == (SwapLeft(|old(cs.aux)|, |a|), SwapRight(|old(cs.aux)|, |a|))
      && cs.constraints == old(cs.constraints) + SwapCons(|old(cs.aux)|, dir, a, b, |a|)
      && cs.aux == SwapAux(old(cs.aux), dir, a, b, |a|)
    ensures r.Err? ==> cs.aux == old(cs.aux) && cs.constraints == old(cs.constraints)
    ensures cs.inputs == old(cs.inputs)
  {
    if |a| != |b| {
      return Err(Unsatisfiable);
    }
    var left, right := SwapLoop(cs, dir, a, b);
    r := Ok((left, right));
  }

  /** The loop over positions. */
  method SwapLoop(cs: ConstraintSystem, dir: Boolean, a: seq<Boolean>, b: seq<Boolean>)
    returns (left: seq<Boolean>, right: seq<Boolean>)
    requires |a| == |b|
    modifies cs
    ensures left == SwapLeft(|old(cs.aux)|, |a|) && right == SwapRight(|old(cs.aux)|, |a|)
    ensures cs.constraints == old(cs.constraints) + SwapCons(|old(cs.aux)|, dir, a, b, |a|)
    ensures cs.aux == SwapAux(old(cs.aux), dir, a, b, |a|)
    ensures cs.inputs == old(cs.inputs)
  {
    hide SwapStepCons, MuxOpt, BitValue, ReadBit;
    left, right := [], [];
    ghost var n0, aux0, cons0 := |cs.aux|, cs.aux, cs.constraints;
    for i := 0 to |a|
      invariant |left| == i && forall j :: 0 <= j < i ==> left[j] == Is(n0 + 2 * j)
      invariant |right| == i && forall j :: 0 <= j < i ==> right[j] == Is(n0 + 2 * j + 1)
      invariant cs.constraints == cons0 + SwapCons(n0, dir, a, b, i)
      invariant cs.aux == SwapAux(aux0, dir, a, b, i)
      invariant cs.inputs == old(cs.inputs)
    {
      var leftBit, rightBit := SwapStep(cs, dir, a[i], b[i]);
      left := left + [leftBit];
      right := right + [rightBit];
      AppendAssoc(cons0, SwapCons(n0, dir, a, b, i), SwapStepCons(n0 + 2 * i, dir, a[i], b[i]));
    }
  }

  /** One position of the swap. */
  method SwapStep(cs: ConstraintSystem, dir: Boolean, a: Boolean, b: Boolean)
    returns (leftBit: Boolean, rightBit: Boolean)
    modifies cs
    ensures leftBit == Is(|old(cs.aux)|) && rightBit == Is(|old(cs.aux)| + 1)
    ensures cs.constraints == old(cs.constraints) + SwapStepCons(|old(cs.aux)|, dir, a, b)
    ensures cs.aux == old(cs.aux) +
      [BitValue(MuxOpt(ReadBit(old(cs.aux), dir), ReadBit(old(cs.aux), a), ReadBit(old(cs.aux), b))),
       BitValue(MuxOpt(ReadBit(old(cs.aux), dir), ReadBit(old(cs.aux), b), ReadBit(old(cs.aux), a)))]
    ensures cs.inputs == old(cs.inputs)
  {
    hide Boolean.Lc, Plus, Minus, Single, MuxOpt, ReadBit, BitValue, BoolCon, Eval;
    var dirVal, aVal, bVal := cs.GetValue(dir), cs.GetValue(a), cs.GetValue(b);
    var leftVal := MuxOpt(dirVal, aVal, bVal);
    leftBit := cs.AllocBit(leftVal);
    cs.Enforce(Plus([], dir.Lc(1)), Minus(Plus([], a.Lc(1)), b.Lc(1)),
               Minus(Single(1, Aux(leftBit.i)), b.Lc(1)));
    var rightVal := MuxOpt(dirVal, bVal, aVal);
    rightBit := cs.AllocBit(rightVal);
    cs.Enforce(Plus([], dir.Lc(1)), Minus(Plus([], b.Lc(1)), a.Lc(1)),
               Minus(Single(1, Aux(rightBit.i)), a.Lc(1)));
  }

  lemma MuxEval(p: int, asg: Assignment, out: nat, select: Boolean, x: Boolean, y: Boolean)
    requires p > 0
    ensures Sat(p, asg, MuxCon(out, select, x, y)) <==>
            Congruent(p, select.Val(asg) * (x.Val(asg) - y.Val(asg)), asg.At(Aux(out)) - y.Val(asg))
  {
    hide Boolean.Lc, Boolean.Val, Eval, Congruent;
    LcVal(select, 1, asg);
    LcVal(x, 1, asg);
    LcVal(y, 1, asg);
    assert Eval([], asg) == 0 by { NoTerms(asg); }
  }

  lemma FieldValue(p: int, asg: Assignment, i: nat)
    requires InField(p, asg)
    ensures p > 1 && 0 <= asg.At(Aux(i)) < p
  {
  }

  /** s * (u - v) is z - v, for bits s, u, v and z in range, exactly when z is the chosen bit. */
  lemma Chosen(p: int, s: int, u: int, v: int, z: int)
    requires p > 1 && (s == 0 || s == 1) && (u == 0 || u == 1) && (v == 0 || v == 1) && 0 <= z < p
    ensures Congruent(p, s * (u - v), z - v) <==> z == if s == 1 then u else v
  {
    hide *;
    var c := if s == 1 then u else v;
    assert s * (u - v) - (z - v) == c - z;
    SameDifference(p, s * (u - v), z - v, c, z);
    if Congruent(p, c, z) { CongruentUnique(p, c, z); }
    CongruentSelf(p, z);
  }

  lemma SameDifference(p: int, x: int, y: int, u: int, v: int)
    requires p > 0 && x - y == u - v
    ensures Congruent(p, x, y) <==> Congruent(p, u, v)
  {
  }

  lemma MuxMeaning(p: int, asg: Assignment, out: nat, select: Boolean, x: Boolean, y: Boolean)
    requires IsPrime(p) && InField(p, asg)
    requires select.IsBit(asg) && x.IsBit(asg) && y.IsBit(asg)
    ensures Sat(p, asg, MuxCon(out, select, x, y)) <==>
            asg.At(Aux(out)) == if select.Holds(asg) then x.Val(asg) else y.Val(asg)
  {
    hide *;
    BitCases(asg, select);
    BitCases(asg, x);
    BitCases(asg, y);
    FieldValue(p, asg, out);
    MuxEval(p, asg, out, select, x, y);
    Chosen(p, select.Val(asg), x.Val(asg), y.Val(asg), asg.At(Aux(out)));
  }

  /** What the two outputs at position i hold. */
  ghost predicate SwappedAt(asg: Assignment, n: nat, dir: Boolean, a: Boolean, b: Boolean) {
    && Is(n).IsBit(asg) && Is(n + 1).IsBit(asg)
    && Is(n).Holds(asg) == (if dir.Holds(asg) then a.Holds(asg) else b.Holds(asg))
    && Is(n + 1).Holds(asg) == (if dir.Holds(asg) then b.Holds(asg) else a.Holds(asg))
  }

  lemma SwapStepMeaning(p: int, asg: Assignment, n: nat, dir: Boolean, a: Boolean, b: Boolean)
    requires IsPrime(p) && InField(p, asg)
    requires dir.IsBit(asg) && a.IsBit(asg) && b.IsBit(asg)
    ensures SatAll(p, asg, SwapStepCons(n, dir, a, b)) <==> SwappedAt(asg, n, dir, a, b)
  {
    hide Sat, BoolCon, MuxCon, SatAll;
    SatFour(p, asg, BoolCon(n), MuxCon(n, dir, a, b), BoolCon(n + 1), MuxCon(n + 1, dir, b, a));
    BoolConMeaning(p, asg, n);
    BoolConMeaning(p, asg, n + 1);
    MuxMeaning(p, asg, n, dir, a, b);
    MuxMeaning(p, asg, n + 1, dir, b, a);
  }

  lemma {:induction false} SwapPrefix(p: int, asg: Assignment, n0: nat, dir: Boolean,
                                      a: seq<Boolean>, b: seq<Boolean>, k: nat)
    requires IsPrime(p) && InField(p, asg)
    requires k <= |a| == |b| && dir.IsBit(asg) && AllBits(asg, a) && AllBits(asg, b)
    ensures SatAll(p, asg, SwapCons(n0, dir, a, b, k)) <==>
            forall i :: 0 <= i < k ==> SwappedAt(asg, n0 + 2 * i, dir, a[i], b[i])
  {
    hide SwapStepCons, SwappedAt, Sat;
    if k > 0 {
      var n := n0 + 2 * (k - 1);
      SwapPrefix(p, asg, n0, dir, a, b, k - 1);
      SatConcat(p, asg, SwapCons(n0, dir, a, b, k - 1), SwapStepCons(n, dir, a[k - 1], b[k - 1]));
      SwapStepMeaning(p, asg, n, dir, a[k - 1], b[k - 1]);
    }
  }

  function Select<T>(d: bool, x: T, y: T): T { if d then x else y }

  /** Every satisfying assignment gives (a, b) when dir is 1 and (b, a) when it is 0; no other satisfies. */
  lemma SwapMeaning(p: int, asg: Assignment, n0: nat, dir: Boolean, a: seq<Boolean>, b: seq<Boolean>)
    requires IsPrime(p) && InField(p, asg)
    requires |a| == |b| && dir.IsBit(asg) && AllBits(asg, a) && AllBits(asg, b)
    ensures SatAll(p, asg, SwapCons(n0, dir, a, b, |a|)) <==>
            && AllBits(asg, SwapLeft(n0, |a|)) && AllBits(asg, SwapRight(n0, |a|))
            && Vals(asg, SwapLeft(n0, |a|)) == Select(dir.Holds(asg), Vals(asg, a), Vals(asg, b))
            && Vals(asg, SwapRight(n0, |a|)) == Select(dir.Holds(asg), Vals(asg, b), Vals(asg, a))
  {
    SwapPrefix(p, asg, n0, dir, a, b, |a|);
    SwappedVals(asg, n0, dir, a, b);
  }

  lemma SwappedVals(asg: Assignment, n0: nat, dir: Boolean, a: seq<Boolean>, b: seq<Boolean>)
    requires |a| == |b|
    ensures (forall i :: 0 <= i < |a| ==> SwappedAt(asg, n0 + 2 * i, dir, a[i], b[i])) <==>
            && AllBits(asg, SwapLeft(n0, |a|)) && AllBits(asg, SwapRight(n0, |a|))
            && Vals(asg, SwapLeft(n0, |a|)) == Select(dir.Holds(asg), Vals(asg, a), Vals(asg, b))
            && Vals(asg, SwapRight(n0, |a|)) == Select(dir.Holds(asg), Vals(asg, b), Vals(asg, a))
  {
    var left, right := SwapLeft(n0, |a|), SwapRight(n0, |a|);
    var l, r := Vals(asg, left), Vals(asg, right);
    var x, y := Vals(asg, a), Vals(asg, b);
    var u, v := Select(dir.Holds(asg), x, y), Select(dir.Holds(asg), y, x);
    forall i | 0 <= i < |a|
      ensures SwappedAt(asg, n0 + 2 * i, dir, a[i], b[i]) <==>
              left[i].IsBit(asg) && right[i].IsBit(asg) && l[i] == u[i] && r[i] == v[i]
    {
      assert left[i] == Is(n0 + 2 * i) && right[i] == Is(n0 + 2 * i + 1);
    }
    if AllBits(asg, left) && AllBits(asg, right) && l == u && r == v {
      forall i | 0 <= i < |a| ensures SwappedAt(asg, n0 + 2 * i, dir, a[i], b[i]) {
        assert left[i].IsBit(asg) && right[i].IsBit(asg) && l[i] == u[i] && r[i] == v[i];
      }
    }
  }

  /** One computed position reads back as the selected operands. */
  lemma SwapStepRead(aux: seq<Option<int>>, u: seq<Option<int>>, dir: Boolean, a: Boolean, b: Boolean,
                     d: bool, x: bool, y: bool)
    requires ReadBit(u, dir) == Some(d) && ReadBit(u, a) == Some(x) && ReadBit(u, b) == Some(y)
    requires aux == u + [BitValue(MuxOpt(ReadBit(u, dir), ReadBit(u, a), ReadBit(u, b))),
                         BitValue(MuxOpt(ReadBit(u, dir), ReadBit(u, b), ReadBit(u, a)))]
    ensures ReadBit(aux, Is(|u|)) == Some(Select(d, x, y))
    ensures ReadBit(aux, Is(|u| + 1)) == Some(Select(d, y, x))
  {
    assert aux[|u|] == Some(Bit(Select(d, x, y))) && aux[|u| + 1] == Some(Bit(Select(d, y, x)));
  }

  lemma SwapAuxStep(aux: seq<Option<int>>, dir: Boolean, a: seq<Boolean>, b: seq<Boolean>, k: nat)
    requires 0 < k <= |a| == |b|
    ensures var u := SwapAux(aux, dir, a, b, k - 1);
      SwapAux(aux, dir, a, b, k) ==
      u + [BitValue(MuxOpt(ReadBit(u, dir), ReadBit(u, a[k - 1]), ReadBit(u, b[k - 1]))),
           BitValue(MuxOpt(ReadBit(u, dir), ReadBit(u, b[k - 1]), ReadBit(u, a[k - 1])))]
  {
    hide ReadBit, MuxOpt, BitValue;
  }

  lemma SelectAt(d: bool, x: seq<bool>, y: seq<bool>, i: nat)
    requires i < |x| == |y|
    ensures |Select(d, x, y)| == |x| && Select(d, x, y)[i] == Select(d, x[i], y[i])
  {
  }

  /** The computed outputs read back as the selected operands. */
  /** After k positions, output i < k reads as the selected operand bit. */
  lemma {:induction false} SwapReadAt(aux: seq<Option<int>>, dir: Boolean, a: seq<Boolean>, b: seq<Boolean>,
                                      d: bool, x: seq<bool>, y: seq<bool>, k: nat, i: nat)
    requires i < k <= |a| == |b| == |x| == |y| && ReadBit(aux, dir) == Some(d)
    requires ReadBits(aux, a) == Known(x) && ReadBits(aux, b) == Known(y)
    ensures ReadBit(SwapAux(aux, dir, a, b, k), Is(|aux| + 2 * i)) == Some(Select(d, x[i], y[i]))
    ensures ReadBit(SwapAux(aux, dir, a, b, k), Is(|aux| + 2 * i + 1)) == Some(Select(d, y[i], x[i]))
  {
    hide *;
    var u, v := SwapAux(aux, dir, a, b, k - 1), SwapAux(aux, dir, a, b, k);
    SwapAuxStep(aux, dir, a, b, k);
    if i == k - 1 {
      ReadBitHolds(Assignment([], []), aux, u, dir);
      ReadAt(aux, u, a, x, i);
      ReadAt(aux, u, b, y, i);
      SwapStepRead(v, u, dir, a[i], b[i], d, x[i], y[i]);
    } else {
      SwapReadAt(aux, dir, a, b, d, x, y, k - 1, i);
      ReadBitHolds(Assignment([], []), u, v, Is(|aux| + 2 * i));
      ReadBitHolds(Assignment([], []), u, v, Is(|aux| + 2 * i + 1));
    }
  }

  lemma SwapRead(aux: seq<Option<int>>, dir: Boolean, a: seq<Boolean>, b: seq<Boolean>, d: bool, x: seq<bool>,
                 y: seq<bool>, k: nat)
    requires k <= |a| == |b| == |x| == |y| && ReadBit(aux, dir) == Some(d)
    requires ReadBits(aux, a) == Known(x) && ReadBits(aux, b) == Known(y)
    ensures forall i :: 0 <= i < k ==>
      && ReadBit(SwapAux(aux, dir, a, b, k), SwapLeft(|aux|, k)[i]) == Some(Select(d, x, y)[i])
      && ReadBit(SwapAux(aux, dir, a, b, k), SwapRight(|aux|, k)[i]) == Some(Select(d, y, x)[i])
  {
    hide *;
    var v := SwapAux(aux, dir, a, b, k);
    SelectLength(d, x, y);
    forall i | 0 <= i < k
      ensures ReadBit(v, SwapLeft(|aux|, k)[i]) == Some(Select(d, x, y)[i])
      ensures ReadBit(v, SwapRight(|aux|, k)[i]) == Some(Select(d, y, x)[i])
    {
      SwapReadAt(aux, dir, a, b, d, x, y, k, i);
      SelectAt(d, x, y, i);
      SelectAt(d, y, x, i);
    }
  }

  lemma ReadAt(aux: seq<Option<int>>, more: seq<Option<int>>, a: seq<Boolean>, x: seq<bool>, i: nat)
    requires aux <= more && ReadBits(aux, a) == Known(x) && i < |a| == |x|
    ensures ReadBit(more, a[i]) == Some(x[i])
  {
    assert ReadBits(aux, a)[i] == Known(x)[i];
    ReadBitHolds(Assignment([], []), aux, more, a[i]);
  }

  /** Both outputs of the whole swap, read back. */
  lemma SwapComplete(aux: seq<Option<int>>, dir: Boolean, a: seq<Boolean>, b: seq<Boolean>,
                     d: bool, x: seq<bool>, y: seq<bool>)
    requires |a| == |b| == |x| == |y| && ReadBit(aux, dir) == Some(d)
    requires ReadBits(aux, a) == Known(x) && ReadBits(aux, b) == Known(y)
    ensures ReadBits(SwapAux(aux, dir, a, b, |a|), SwapLeft(|aux|, |a|)) == Known(Select(d, x, y))
    ensures ReadBits(SwapAux(aux, dir, a, b, |a|), SwapRight(|aux|, |a|)) == Known(Select(d, y, x))
  {
    hide ReadBit, SwapAux, Select;
    SwapRead(aux, dir, a, b, d, x, y, |a|);
    var v := SwapAux(aux, dir, a, b, |a|);
    SelectLength(d, x, y);
    ReadAll(v, SwapLeft(|aux|, |a|), Select(d, x, y));
    ReadAll(v, SwapRight(|aux|, |a|), Select(d, y, x));
  }

  lemma SelectLength<T>(d: bool, x: seq<T>, y: seq<T>)
    requires |x| == |y|
    ensures |Select(d, x, y)| == |x| && |Select(d, y, x)| == |x|
  {
  }

  // ------------------------------------------------- enforce_bits_equal

  function EqualCons(a: seq<Boolean>, b: seq<Boolean>): (r: seq<Constraint>)
    requires |a| == |b|
    ensures |r| == |a|
    ensures forall i :: 0 <= i < |a| ==>
      r[i] == Constraint(Plus([], a[i].Lc(1)), Plus([], ONES), Plus([], b[i].Lc(1)))
  {
    seq(|a|, i requires 0 <= i < |a| =>
      Constraint(Plus([], a[i].Lc(1)), Plus([], ONES), Plus([], b[i].Lc(1))))
  }

  method EnforceBitsEqual(cs: ConstraintSystem, a: seq<Boolean>, b: seq<Boolean>)
    returns (r: Result<(), SynthesisError>)
    modifies cs
    ensures r.Ok? <==> |a| == |b|
    ensures r.Ok? ==> cs.constraints == old(cs.constraints) + EqualCons(a, b)
    ensures r.Err? ==> cs.constraints == old(cs.constraints)
    ensures cs.aux == old(cs.aux) && cs.inputs == old(cs.inputs)
  {
    if |a| != |b| {
      return Err(Unsatisfiable);
    }
    for i := 0 to |a|
      invariant cs.constraints == old(cs.constraints) + EqualCons(a, b)[..i]
      invariant cs.aux == old(cs.aux) && cs.inputs == old(cs.inputs)
    {
      cs.Enforce(Plus([], a[i].Lc(1)), Plus([], ONES), Plus([], b[i].Lc(1)));
      assert EqualCons(a, b)[..i + 1] == EqualCons(a, b)[..i] + [EqualCons(a, b)[i]];
    }
    assert EqualCons(a, b)[..|a|] == EqualCons(a, b);
    r := Ok(());
  }

  /** For bit vectors, the constraints hold exactly when the values are the same. */
  lemma EqualMeaning(p: int, asg: Assignment, a: seq<Boolean>, b: seq<Boolean>)
    requires InField(p, asg) && |a| == |b| && AllBits(asg, a) && AllBits(asg, b)
    ensures SatAll(p, asg, EqualCons(a, b)) <==> Vals(asg, a) == Vals(asg, b)
  {
    var ks := EqualCons(a, b);
    forall i | 0 <= i < |a|
      ensures Sat(p, asg, ks[i]) <==> a[i].Holds(asg) == b[i].Holds(asg)
    {
      LcVal(a[i], 1, asg);
      LcVal(b[i], 1, asg);
      var x, y := a[i].Val(asg), b[i].Val(asg);
      assert Eval(ks[i].a, asg) * Eval(ks[i].b, asg) == x && Eval(ks[i].c, asg) == y;
      if Sat(p, asg, ks[i]) { CongruentUnique(p, x, y); }
      DividesSum(p, 0, 0);
    }
    if Vals(asg, a) == Vals(asg, b) {
      forall i | 0 <= i < |ks| ensures Sat(p, asg, ks[i]) {
        assert Vals(asg, a)[i] == Vals(asg, b)[i];
      }
    }
  }
}
