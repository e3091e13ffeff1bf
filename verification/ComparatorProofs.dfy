/** What the constraints of `enforce_ge` mean, and that the computed witness meets them. */
module ComparatorProofs {
  import opened Wrappers
  import opened Bits
  import opened PrimeField
  import opened R1cs
  import opened BitGadgets
  import opened Comparator

  // ------------------------------------------------------- soundness

  /** The k low bits of x are below those of y. */
  predicate Below(x: seq<bool>, y: seq<bool>, k: nat)
    requires k <= |x| == |y|
  {
    ValueOf(x[..k]) < ValueOf(y[..k])
  }

  /** Borrowing through one more position compares one more bit. */
  lemma BorrowCompares(x: seq<bool>, y: seq<bool>, k: nat)
    requires k < |x| == |y|
    ensures Below(x, y, k + 1) == NextBorrow(x[k], y[k], Below(x, y, k))
  {
    assert x[..k + 1] == x[..k] + [x[k]] && y[..k + 1] == y[..k] + [y[k]];
    ValueSnoc(x[..k], x[k]);
    ValueSnoc(y[..k], y[k]);
    ValueBound(x[..k]);
    ValueBound(y[..k]);
  }

  lemma BelowNone(x: seq<bool>, y: seq<bool>)
    requires |x| == |y|
    ensures !Below(x, y, 0)
  {
    assert x[..0] == [] && y[..0] == [];
  }

  lemma BelowAll(x: seq<bool>, y: seq<bool>)
    requires |x| == |y|
    ensures Below(x, y, |x|) == (ValueOf(x) < ValueOf(y))
  {
    assert x[..|x|] == x && y[..|y|] == y;
  }

  /** The step's equation modulo p is the equation over the integers. */
  lemma StepMeaning(p: int, asg: Assignment, n: nat, a: Boolean, b: Boolean, borrow: Boolean)
    requires IsPrime(p) && p > 3 && InField(p, asg)
    requires a.IsBit(asg) && b.IsBit(asg) && borrow.IsBit(asg)
    ensures SatAll(p, asg, StepCons(n, a, b, borrow)) <==>
            && Is(n).IsBit(asg) && Is(n + 1).IsBit(asg)
            && a.Val(asg) - b.Val(asg) - borrow.Val(asg) == Is(n + 1).Val(asg) - 2 * Is(n).Val(asg)
  {
    var k := BorrowCon(a, b, borrow, Is(n + 1), Is(n));
    SatThree(p, asg, BoolCon(n), BoolCon(n + 1), k);
    BoolConMeaning(p, asg, n);
    BoolConMeaning(p, asg, n + 1);
    if Is(n).IsBit(asg) && Is(n + 1).IsBit(asg) {
      BorrowConMeaning(p, asg, a, b, borrow, Is(n + 1), Is(n));
    }
  }

  lemma StepSound(p: int, asg: Assignment, n: nat, a: Boolean, b: Boolean, borrow: Boolean)
    requires IsPrime(p) && p > 3 && InField(p, asg)
    requires a.IsBit(asg) && b.IsBit(asg) && borrow.IsBit(asg)
    requires SatAll(p, asg, StepCons(n, a, b, borrow))
    ensures Is(n).IsBit(asg)
    ensures Is(n).Holds(asg) == NextBorrow(a.Holds(asg), b.Holds(asg), borrow.Holds(asg))
  {
    StepMeaning(p, asg, n, a, b, borrow);
  }

  lemma SatThree(p: int, asg: Assignment, k: Constraint, l: Constraint, m: Constraint)
    requires p > 0
    ensures SatAll(p, asg, [k, l, m]) <==> Sat(p, asg, k) && Sat(p, asg, l) && Sat(p, asg, m)
  {
    var ks := [k, l, m];
    if SatAll(p, asg, ks) {
      assert Sat(p, asg, ks[0]) && Sat(p, asg, ks[1]) && Sat(p, asg, ks[2]);
    }
  }

  lemma BorrowConIs(p: int, asg: Assignment, a: Boolean, b: Boolean, borrow: Boolean, diff: Boolean, next: Boolean)
    requires p > 0
    ensures Sat(p, asg, BorrowCon(a, b, borrow, diff, next)) <==>
            Congruent(p, a.Val(asg) - b.Val(asg) - borrow.Val(asg) - diff.Val(asg), -2 * next.Val(asg))
  {
    hide Boolean.Lc, Boolean.Val, Eval, Congruent;
    LcVal(a, 1, asg);
    LcVal(b, 1, asg);
    LcVal(borrow, 1, asg);
    LcVal(diff, 1, asg);
    LcVal(next, 2, asg);
    NoTerms(asg);
  }

  /** From -3 to 1 a residue modulo p > 3 determines the integer. */
  lemma SmallCongruence(p: int, x: int, y: int)
    requires p > 3 && -3 <= x <= 1 && -2 <= y <= 0
    ensures Congruent(p, x, y) <==> x == y
  {
    if Congruent(p, x, y) { SmallZero(p, x - y); }
    CongruentSelf(p, x);
  }

  lemma BorrowConMeaning(p: int, asg: Assignment, a: Boolean, b: Boolean, borrow: Boolean,
                         diff: Boolean, next: Boolean)
    requires p > 3 && a.IsBit(asg) && b.IsBit(asg) && borrow.IsBit(asg)
    requires diff.IsBit(asg) && next.IsBit(asg)
    ensures Sat(p, asg, BorrowCon(a, b, borrow, diff, next)) <==>
            a.Val(asg) - b.Val(asg) - borrow.Val(asg) == diff.Val(asg) - 2 * next.Val(asg)
  {
    hide *;
    var lhs := a.Val(asg) - b.Val(asg) - borrow.Val(asg) - diff.Val(asg);
    var rhs := -2 * next.Val(asg);
    BorrowConIs(p, asg, a, b, borrow, diff, next);
    BitCases(asg, a);
    BitCases(asg, b);
    BitCases(asg, borrow);
    BitCases(asg, diff);
    BitCases(asg, next);
    SmallCongruence(p, lhs, rhs);
  }

  /** After k positions the borrow bit says whether the k low bits of a are below those of b. */
  lemma {:induction false} ChainSound(p: int, asg: Assignment, n0: nat, a: seq<Boolean>, b: seq<Boolean>, k: nat)
    requires IsPrime(p) && p > 3 && InField(p, asg)
    requires k <= |a| == |b| && AllBits(asg, a) && AllBits(asg, b)
    requires SatAll(p, asg, ChainCons(n0, a, b, k))
    ensures Borrow(n0, k).IsBit(asg)
    ensures Borrow(n0, k).Holds(asg) == Below(Vals(asg, a), Vals(asg, b), k)
  {
    hide StepCons, NextBorrow, Below;
    if k == 0 {
      BelowNone(Vals(asg, a), Vals(asg, b));
    } else {
      hide SatAll, Boolean.Val;
      var n, borrow := n0 + 2 * (k - 1), Borrow(n0, k - 1);
      SatConcat(p, asg, ChainCons(n0, a, b, k - 1), StepCons(n, a[k - 1], b[k - 1], borrow));
      ChainSound(p, asg, n0, a, b, k - 1);
      StepSound(p, asg, n, a[k - 1], b[k - 1], borrow);
      BorrowCompares(Vals(asg, a), Vals(asg, b), k - 1);
    }
  }

  /** The five gates compute the majority of (not a), b and the borrow. */
  lemma GateSound(p: int, asg: Assignment, n: nat, a: Boolean, b: Boolean, borrow: Boolean)
    requires InField(p, asg) && a.IsBit(asg) && b.IsBit(asg) && borrow.IsBit(asg)
    requires SatAll(p, asg, GateCons(n, a, b, borrow))
    ensures LastGates(n, a, b, borrow).finalBorrow.IsBit(asg)
    ensures LastGates(n, a, b, borrow).finalBorrow.Holds(asg) ==
            NextBorrow(a.Holds(asg), b.Holds(asg), borrow.Holds(asg))
  {
    hide AndCons, OrCons, AndOut, OrOut, SatAll;
    var l, na := LastGates(n, a, b, borrow), a.Negated();
    NegatedMeaning(asg, a);
    SatFive(p, asg, AndCons(n, na, b), AndCons(l.n1, na, borrow), AndCons(l.n2, b, borrow),
            OrCons(l.n3, l.notAAndB, l.notAAndBorrow), OrCons(l.n4, l.term1, l.bAndBorrow));
    AndMeaning(p, asg, n, na, b);
    AndMeaning(p, asg, l.n1, na, borrow);
    AndMeaning(p, asg, l.n2, b, borrow);
    OrMeaning(p, asg, l.n3, l.notAAndB, l.notAAndBorrow);
    OrMeaning(p, asg, l.n4, l.term1, l.bAndBorrow);
  }

  lemma NoFinalBorrowMeaning(p: int, asg: Assignment, final: Boolean)
    requires p > 1 && final.IsBit(asg)
    ensures SatAll(p, asg, [NoFinalBorrow(final)]) <==> !final.Holds(asg)
  {
    var k := NoFinalBorrow(final);
    LcVal(final, 1, asg);
    assert Eval(k.a, asg) == final.Val(asg) && Eval(k.b, asg) == 1 && Eval(k.c, asg) == 0;
    if Sat(p, asg, k) { SmallZero(p, final.Val(asg)); }
    DividesSum(p, 0, 0);
    assert SatAll(p, asg, [k]) <==> Sat(p, asg, k) by {
      if SatAll(p, asg, [k]) { assert Sat(p, asg, [k][0]); }
    }
  }

  /** With everything but the last constraint satisfied, the final borrow says that a is below b. */
  lemma GeBodySound(p: int, asg: Assignment, n0: nat, a: seq<Boolean>, b: seq<Boolean>)
    requires IsPrime(p) && p > 3 && InField(p, asg)
    requires |a| == |b| > 0 && AllBits(asg, a) && AllBits(asg, b)
    requires SatAll(p, asg, GeBodyCons(n0, a, b))
    ensures FinalBorrow(n0, a, b).IsBit(asg)
    ensures FinalBorrow(n0, a, b).Holds(asg) == (ValueOf(Vals(asg, a)) < ValueOf(Vals(asg, b)))
  {
    hide SatAll, Boolean.Val, Below, NextBorrow, ChainCons, GateCons, LastGates;
    var m := |a| - 1;
    SatConcat(p, asg, ChainCons(n0, a, b, m), GateCons(n0 + 2 * m, a[m], b[m], Borrow(n0, m)));
    ChainSound(p, asg, n0, a, b, m);
    GateSound(p, asg, n0 + 2 * m, a[m], b[m], Borrow(n0, m));
    BorrowCompares(Vals(asg, a), Vals(asg, b), m);
    BelowAll(Vals(asg, a), Vals(asg, b));
  }

  /**
   Soundness for every length: whatever values the borrow, difference and AND
   variables take, the constraints force a >= b as integers.
   */
  lemma GeSound(p: int, asg: Assignment, n0: nat, a: seq<Boolean>, b: seq<Boolean>)
    requires IsPrime(p) && p > 3 && InField(p, asg)
    requires |a| == |b| && AllBits(asg, a) && AllBits(asg, b)
    requires SatAll(p, asg, GeCons(n0, a, b))
    ensures ValueOf(Vals(asg, a)) >= ValueOf(Vals(asg, b))
  {
    if a != [] {
      var final := FinalBorrow(n0, a, b);
      SatConcat(p, asg, GeBodyCons(n0, a, b), [NoFinalBorrow(final)]);
      GeBodySound(p, asg, n0, a, b);
      NoFinalBorrowMeaning(p, asg, final);
    }
  }

  // ----------------------------------------------------- completeness

  lemma StepComplete(p: int, asg: Assignment, aux: seq<Option<int>>, a: Boolean, b: Boolean, borrow: Boolean)
    requires IsPrime(p) && p > 3 && InField(p, asg) && Agrees(asg, StepAux(aux, a, b, borrow))
    requires ReadBit(aux, a).Some? && ReadBit(aux, b).Some? && ReadBit(aux, borrow).Some?
    ensures SatAll(p, asg, StepCons(|aux|, a, b, borrow))
    ensures ReadBit(StepAux(aux, a, b, borrow), Is(|aux|)) ==
            Some(NextBorrow(ReadBit(aux, a).value, ReadBit(aux, b).value, ReadBit(aux, borrow).value))
  {
    hide SatAll, StepCons, ReadBit;
    var n, more := |aux|, StepAux(aux, a, b, borrow);
    ReadBitHolds(asg, aux, more, a);
    ReadBitHolds(asg, aux, more, b);
    ReadBitHolds(asg, aux, more, borrow);
    StepValues(asg, aux, a, b, borrow);
    StepMeaning(p, asg, n, a, b, borrow);
  }

  /** The two bits a step computes solve the step's equation. */
  lemma StepValues(asg: Assignment, aux: seq<Option<int>>, a: Boolean, b: Boolean, borrow: Boolean)
    requires Agrees(asg, StepAux(aux, a, b, borrow))
    requires ReadBit(aux, a).Some? && ReadBit(aux, b).Some? && ReadBit(aux, borrow).Some?
    ensures var x, y, c := ReadBit(aux, a).value, ReadBit(aux, b).value, ReadBit(aux, borrow).value;
      var n := |aux|;
      && Is(n).IsBit(asg) && Is(n + 1).IsBit(asg)
      && Bit(x) - Bit(y) - Bit(c) == Is(n + 1).Val(asg) - 2 * Is(n).Val(asg)
      && ReadBit(StepAux(aux, a, b, borrow), Is(n)) == Some(NextBorrow(x, y, c))
  {
    var n, more := |aux|, StepAux(aux, a, b, borrow);
    var x, y, c := ReadBit(aux, a), ReadBit(aux, b), ReadBit(aux, borrow);
    hide ReadBit;
    var next := NextBorrowOpt(x, y, c);
    var diff := DiffOpt(x, y, c, next);
    assert more[n] == Some(Bit(next.value)) && more[n + 1] == Some(Bit(diff.value));
    ReadIs(more, n, next.value);
  }

  lemma ReadIs(aux: seq<Option<int>>, n: nat, v: bool)
    requires n < |aux| && aux[n] == Some(Bit(v))
    ensures ReadBit(aux, Is(n)) == Some(v)
  {
  }

  /** One position of the chain, from the borrow into it to the borrow out of it. */
  lemma ChainStepComplete(p: int, asg: Assignment, aux: seq<Option<int>>, u: seq<Option<int>>,
                          a: seq<Boolean>, b: seq<Boolean>, x: seq<bool>, y: seq<bool>, k: nat)
    requires IsPrime(p) && p > 3 && InField(p, asg) && k < |a| == |b| == |x| == |y|
    requires aux <= u && Agrees(asg, StepAux(u, a[k], b[k], Borrow(|aux|, k)))
    requires ReadBits(aux, a) == Known(x) && ReadBits(aux, b) == Known(y)
    requires ReadBit(u, Borrow(|aux|, k)) == Some(Below(x, y, k))
    ensures SatAll(p, asg, StepCons(|u|, a[k], b[k], Borrow(|aux|, k)))
    ensures ReadBit(StepAux(u, a[k], b[k], Borrow(|aux|, k)), Is(|u|)) == Some(Below(x, y, k + 1))
  {
    hide StepAux, StepCons, NextBorrow, Below, SatAll, ReadBit;
    ReadAt(aux, u, a, x, k);
    ReadAt(aux, u, b, y, k);
    StepComplete(p, asg, u, a[k], b[k], Borrow(|aux|, k));
    BorrowCompares(x, y, k);
  }

  lemma ChainNone(p: int, asg: Assignment, aux: seq<Option<int>>, a: seq<Boolean>, b: seq<Boolean>)
    requires p > 0 && |a| == |b|
    ensures SatAll(p, asg, ChainCons(|aux|, a, b, 0))
    ensures ReadBit(ChainAux(aux, a, b, 0), Borrow(|aux|, 0)) == Some(false)
  {
  }

  /** One position more. */
  lemma ChainUnfold(aux: seq<Option<int>>, a: seq<Boolean>, b: seq<Boolean>, k: nat)
    requires 0 < k <= |a| == |b|
    ensures var u, borrow := ChainAux(aux, a, b, k - 1), Borrow(|aux|, k - 1);
      && |u| == |aux| + 2 * (k - 1) && Borrow(|aux|, k) == Is(|u|)
      && ChainAux(aux, a, b, k) == StepAux(u, a[k - 1], b[k - 1], borrow)
      && ChainCons(|aux|, a, b, k) == ChainCons(|aux|, a, b, k - 1) + StepCons(|u|, a[k - 1], b[k - 1], borrow)
  {
    hide StepAux, StepCons;
  }

  lemma {:induction false} ChainComplete(p: int, asg: Assignment, aux: seq<Option<int>>,
                                         a: seq<Boolean>, b: seq<Boolean>, x: seq<bool>, y: seq<bool>, k: nat)
    requires IsPrime(p) && p > 3 && InField(p, asg)
    requires k <= |a| == |b| && Agrees(asg, ChainAux(aux, a, b, k))
    requires |x| == |y| == |a| && ReadBits(aux, a) == Known(x) && ReadBits(aux, b) == Known(y)
    ensures SatAll(p, asg, ChainCons(|aux|, a, b, k))
    ensures ReadBit(ChainAux(aux, a, b, k), Borrow(|aux|, k)) == Some(Below(x, y, k))
  {
    hide *;
    if k == 0 {
      ChainNone(p, asg, aux, a, b);
      BelowNone(x, y);
    } else {
      var u, borrow := ChainAux(aux, a, b, k - 1), Borrow(|aux|, k - 1);
      ChainUnfold(aux, a, b, k);
      AgreesPrefix(asg, u, ChainAux(aux, a, b, k));
      ChainComplete(p, asg, aux, a, b, x, y, k - 1);
      ChainStepComplete(p, asg, aux, u, a, b, x, y, k - 1);
      SatConcat(p, asg, ChainCons(|aux|, a, b, k - 1), StepCons(|u|, a[k - 1], b[k - 1], borrow));
    }
  }

  lemma GateComplete(p: int, asg: Assignment, aux: seq<Option<int>>, a: Boolean, b: Boolean, borrow: Boolean)
    requires InField(p, asg) && Agrees(asg, LastAux(aux, a, b, borrow))
    requires ReadBit(aux, a).Some? && ReadBit(aux, b).Some? && ReadBit(aux, borrow).Some?
    ensures SatAll(p, asg, GateCons(|aux|, a, b, borrow))
  {
    hide AndCons, OrCons, AndOut, OrOut, SatAll, AndAux, OrAux, AndLen, OrLen, Agrees, ReadBit;
    var l, na := LastGates(|aux|, a, b, borrow), a.Negated();
    ReadNegated(aux, a);
    var u1 := AndAux(aux, na, b);
    var u2 := AndAux(u1, na, borrow);
    var u3 := AndAux(u2, b, borrow);
    var u4 := OrAux(u3, l.notAAndB, l.notAAndBorrow);
    var u5 := OrAux(u4, l.term1, l.bAndBorrow);
    AgreesPrefix(asg, u4, u5);
    AgreesPrefix(asg, u3, u4);
    AgreesPrefix(asg, u2, u3);
    AgreesPrefix(asg, u1, u2);
    AndComplete(p, asg, aux, na, b);
    KeepRead(aux, u1, na, borrow);
    AndComplete(p, asg, u1, na, borrow);
    KeepRead(aux, u2, b, borrow);
    AndComplete(p, asg, u2, b, borrow);
    KeepRead(u1, u3, l.notAAndB, l.notAAndB);
    KeepRead(u2, u3, l.notAAndBorrow, l.notAAndBorrow);
    OrComplete(p, asg, u3, l.notAAndB, l.notAAndBorrow);
    KeepRead(u3, u4, l.bAndBorrow, l.bAndBorrow);
    OrComplete(p, asg, u4, l.term1, l.bAndBorrow);
    SatFive(p, asg, AndCons(|aux|, na, b), AndCons(l.n1, na, borrow), AndCons(l.n2, b, borrow),
            OrCons(l.n3, l.notAAndB, l.notAAndBorrow), OrCons(l.n4, l.term1, l.bAndBorrow));
  }

  lemma KeepRead(aux: seq<Option<int>>, more: seq<Option<int>>, a: Boolean, b: Boolean)
    requires aux <= more && ReadBit(aux, a).Some? && ReadBit(aux, b).Some?
    ensures ReadBit(more, a) == ReadBit(aux, a) && ReadBit(more, b) == ReadBit(aux, b)
  {
    ReadBitHolds(Assignment([], []), aux, more, a);
    ReadBitHolds(Assignment([], []), aux, more, b);
  }

  lemma ReadNegated(aux: seq<Option<int>>, a: Boolean)
    ensures ReadBit(aux, a.Negated()).Some? == ReadBit(aux, a).Some?
  {
  }

  lemma GeBodyComplete(p: int, asg: Assignment, aux: seq<Option<int>>, a: seq<Boolean>, b: seq<Boolean>,
                       x: seq<bool>, y: seq<bool>)
    requires IsPrime(p) && p > 3 && InField(p, asg)
    requires |a| == |b| > 0 && Agrees(asg, GeAux(aux, a, b))
    requires |x| == |y| == |a| && ReadBits(aux, a) == Known(x) && ReadBits(aux, b) == Known(y)
    ensures SatAll(p, asg, GeBodyCons(|aux|, a, b))
  {
    hide ChainAux, ChainCons, LastAux, GateCons, SatAll, Agrees, ReadBit, LastGates;
    var m := |a| - 1;
    var u, borrow := ChainAux(aux, a, b, m), Borrow(|aux|, m);
    AgreesPrefix(asg, u, LastAux(u, a[m], b[m], borrow));
    ChainComplete(p, asg, aux, a, b, x, y, m);
    ReadAt(aux, u, a, x, m);
    ReadAt(aux, u, b, y, m);
    GateComplete(p, asg, u, a[m], b[m], borrow);
    SatConcat(p, asg, ChainCons(|aux|, a, b, m), GateCons(|u|, a[m], b[m], borrow));
  }

  /**
   Completeness: with known operands the computed witness satisfies every
   constraint but the last, and the last one too exactly when a >= b.
   */
  lemma GeComplete(p: int, asg: Assignment, aux: seq<Option<int>>, a: seq<Boolean>, b: seq<Boolean>,
                   x: seq<bool>, y: seq<bool>)
    requires IsPrime(p) && p > 3 && InField(p, asg)
    requires |a| == |b| && Agrees(asg, GeAux(aux, a, b))
    requires |x| == |y| == |a| && ReadBits(aux, a) == Known(x) && ReadBits(aux, b) == Known(y)
    ensures SatAll(p, asg, GeBodyCons(|aux|, a, b))
    ensures SatAll(p, asg, GeCons(|aux|, a, b)) <==> ValueOf(x) >= ValueOf(y)
  {
    if a != [] {
      hide GeAux, GeBodyCons, SatAll, Agrees, FinalBorrow, NoFinalBorrow;
      var final := FinalBorrow(|aux|, a, b);
      GeBodyComplete(p, asg, aux, a, b, x, y);
      ReadBitsHold(asg, aux, GeAux(aux, a, b), a, x);
      ReadBitsHold(asg, aux, GeAux(aux, a, b), b, y);
      GeBodySound(p, asg, |aux|, a, b);
      NoFinalBorrowMeaning(p, asg, final);
      SatConcat(p, asg, GeBodyCons(|aux|, a, b), [NoFinalBorrow(final)]);
    }
  }

  // ------------------------------------------------------------ shape

  /** For n >= 2 allocated bits: 3(n - 1) + 6 constraints and 2(n - 1) + 5 variables. */
  lemma GeCount(n0: nat, a: seq<Boolean>, b: seq<Boolean>)
    requires |a| == |b| >= 2
    requires !a[|a| - 1].Constant? && !b[|a| - 1].Constant?
    ensures |GeCons(n0, a, b)| == 3 * (|a| - 1) + 6
    ensures GeLen(n0, a, b) == 2 * (|a| - 1) + 5
  {
    hide StepCons, GateCons, LastGates, AndLen, OrLen;
    var m := |a| - 1;
    GateCount(n0 + 2 * m, a[m], b[m], Borrow(n0, m));
  }

  lemma GateCount(n: nat, a: Boolean, b: Boolean, borrow: Boolean)
    requires !a.Constant? && !b.Constant? && !borrow.Constant?
    ensures |GateCons(n, a, b, borrow)| == 5 && LastGates(n, a, b, borrow).n5 == n + 5
  {
  }
}
