/** `enforce_ge`: a >= b for two equal-length bit vectors, by a chain of borrows (bits.rs). */
module Comparator {
  import opened Wrappers
  import opened Bits
  import opened R1cs
  import opened BitGadgets

  // ------------------------------------------------ constraints emitted

  /** The borrow into position k. */
  function Borrow(n0: nat, k: nat): Boolean {
    if k == 0 then Constant(false) else Is(n0 + 2 * (k - 1))
  }

  /** a - b - borrow - diff = -2 * next */
  function BorrowCon(a: Boolean, b: Boolean, borrow: Boolean, diff: Boolean, next: Boolean): Constraint {
    Constraint(Minus(Minus(Minus(Plus([], a.Lc(1)), b.Lc(1)), borrow.Lc(1)), diff.Lc(1)),
               Plus([], ONES), Minus([], next.Lc(2)))
  }

  function StepCons(n: nat, a: Boolean, b: Boolean, borrow: Boolean): seq<Constraint> {
    [BoolCon(n), BoolCon(n + 1), BorrowCon(a, b, borrow, Is(n + 1), Is(n))]
  }

  /** The constraints of the first k positions, none of them the last. */
  function ChainCons(n0: nat, a: seq<Boolean>, b: seq<Boolean>, k: nat): (r: seq<Constraint>)
    requires k <= |a| == |b|
    ensures |r| == 3 * k
  {
    if k == 0 then [] else
      ChainCons(n0, a, b, k - 1) + StepCons(n0 + 2 * (k - 1), a[k - 1], b[k - 1], Borrow(n0, k - 1))
  }

  /** The five gates of the last position: where each starts and what it returns. */
  datatype Last = Last(n1: nat, n2: nat, n3: nat, n4: nat, n5: nat,
                       notAAndB: Boolean, notAAndBorrow: Boolean, bAndBorrow: Boolean,
                       term1: Boolean, finalBorrow: Boolean)

  function LastGates(n: nat, a: Boolean, b: Boolean, borrow: Boolean): Last {
    var na := a.Negated();
    var n1 := n + AndLen(na, b);
    var n2 := n1 + AndLen(na, borrow);
    var n3 := n2 + AndLen(b, borrow);
    var x, y, z := AndOut(n, na, b), AndOut(n1, na, borrow), AndOut(n2, b, borrow);
    var n4 := n3 + OrLen(x, y);
    var t := OrOut(n3, x, y);
    Last(n1, n2, n3, n4, n4 + OrLen(t, z), x, y, z, t, OrOut(n4, t, z))
  }

  /** The gates that compute the final borrow. */
  function GateCons(n: nat, a: Boolean, b: Boolean, borrow: Boolean): seq<Constraint> {
    var l := LastGates(n, a, b, borrow);
    AndCons(n, a.Negated(), b) + AndCons(l.n1, a.Negated(), borrow) + AndCons(l.n2, b, borrow)
    + OrCons(l.n3, l.notAAndB, l.notAAndBorrow) + OrCons(l.n4, l.term1, l.bAndBorrow)
  }

  function NoFinalBorrow(final: Boolean): Constraint {
    Constraint(Plus([], final.Lc(1)), Plus([], ONES), [])
  }

  /** Everything but the last constraint. */
  function GeBodyCons(n0: nat, a: seq<Boolean>, b: seq<Boolean>): seq<Constraint>
    requires |a| == |b|
  {
    if a == [] then [] else
      var m := |a| - 1;
      ChainCons(n0, a, b, m) + GateCons(n0 + 2 * m, a[m], b[m], Borrow(n0, m))
  }

  function FinalBorrow(n0: nat, a: seq<Boolean>, b: seq<Boolean>): Boolean
    requires |a| == |b| > 0
  {
    var m := |a| - 1;
    LastGates(n0 + 2 * m, a[m], b[m], Borrow(n0, m)).finalBorrow
  }

  function GeCons(n0: nat, a: seq<Boolean>, b: seq<Boolean>): seq<Constraint>
    requires |a| == |b|
  {
    if a == [] then [] else GeBodyCons(n0, a, b) + [NoFinalBorrow(FinalBorrow(n0, a, b))]
  }

  // ------------------------------------------------- witness computed

  function NextBorrow(a: bool, b: bool, borrow: bool): bool {
    (b && !a) || (borrow && !a) || (b && borrow)
  }

  function NextBorrowOpt(a: Option<bool>, b: Option<bool>, borrow: Option<bool>): Option<bool> {
    if a.Some? && b.Some? && borrow.Some? then Some(NextBorrow(a.value, b.value, borrow.value)) else None
  }

  function DiffOpt(a: Option<bool>, b: Option<bool>, borrow: Option<bool>, next: Option<bool>): Option<bool> {
    if a.Some? && b.Some? && borrow.Some? && next.Some? then
      var raw := Bit(a.value) - Bit(b.value) - Bit(borrow.value);
      Some((raw + 2 * Bit(next.value)) % 2 == 1)
    else None
  }

  function StepAux(aux: seq<Option<int>>, a: Boolean, b: Boolean, borrow: Boolean): (r: seq<Option<int>>)
    ensures aux <= r && |r| == |aux| + 2
  {
    var x, y, c := ReadBit(aux, a), ReadBit(aux, b), ReadBit(aux, borrow);
    var next := NextBorrowOpt(x, y, c);
    aux + [BitValue(next), BitValue(DiffOpt(x, y, c, next))]
  }

  function ChainAux(aux: seq<Option<int>>, a: seq<Boolean>, b: seq<Boolean>, k: nat): (r: seq<Option<int>>)
    requires k <= |a| == |b|
    ensures aux <= r && |r| == |aux| + 2 * k
  {
    if k == 0 then aux else
      StepAux(ChainAux(aux, a, b, k - 1), a[k - 1], b[k - 1], Borrow(|aux|, k - 1))
  }

  function LastAux(aux: seq<Option<int>>, a: Boolean, b: Boolean, borrow: Boolean): (r: seq<Option<int>>)
    ensures aux <= r && |r| == LastGates(|aux|, a, b, borrow).n5
  {
    var l := LastGates(|aux|, a, b, borrow);
    OrAux(OrAux(AndAux(AndAux(AndAux(aux, a.Negated(), b), a.Negated(), borrow), b, borrow),
                l.notAAndB, l.notAAndBorrow), l.term1, l.bAndBorrow)
  }

  function GeAux(aux: seq<Option<int>>, a: seq<Boolean>, b: seq<Boolean>): (r: seq<Option<int>>)
    requires |a| == |b|
    ensures aux <= r && |r| == |aux| + GeLen(|aux|, a, b)
  {
    if a == [] then aux else
      var m := |a| - 1;
      LastAux(ChainAux(aux, a, b, m), a[m], b[m], Borrow(|aux|, m))
  }

  /** The number of variables, which depends on no value. */
  function GeLen(n0: nat, a: seq<Boolean>, b: seq<Boolean>): nat
    requires |a| == |b|
  {
    if a == [] then 0 else
      var m := |a| - 1;
      LastGates(n0 + 2 * m, a[m], b[m], Borrow(n0, m)).n5 - n0
  }

  // ------------------------------------------------------- the gadget

  method ChainStep(cs: ConstraintSystem, a: Boolean, b: Boolean, borrow: Boolean) returns (next: Boolean)
    modifies cs
    ensures next == Is(|old(cs.aux)|)
    ensures cs.constraints == old(cs.constraints) + StepCons(|old(cs.aux)|, a, b, borrow)
    ensures cs.aux == StepAux(old(cs.aux), a, b, borrow) && cs.inputs == old(cs.inputs)
  {
    var aVal, bVal, borrowVal := cs.GetValue(a), cs.GetValue(b), cs.GetValue(borrow);
    var nextVal := NextBorrowOpt(aVal, bVal, borrowVal);
    next := cs.AllocBit(nextVal);
    var diff := cs.AllocBit(DiffOpt(aVal, bVal, borrowVal, nextVal));
    cs.Enforce(Minus(Minus(Minus(Plus([], a.Lc(1)), b.Lc(1)), borrow.Lc(1)), diff.Lc(1)),
               Plus([], ONES), Minus([], next.Lc(2)));
  }

  method LastStep(cs: ConstraintSystem, a: Boolean, b: Boolean, borrow: Boolean)
    modifies cs
    ensures cs.constraints == old(cs.constraints) + (GateCons(|old(cs.aux)|, a, b, borrow) +
            [NoFinalBorrow(LastGates(|old(cs.aux)|, a, b, borrow).finalBorrow)])
    ensures cs.aux == LastAux(old(cs.aux), a, b, borrow) && cs.inputs == old(cs.inputs)
  {
    hide AndCons, AndAux, AndOut, AndLen, OrCons, OrAux, OrOut, OrLen, Boolean.Lc, Plus, Eval, Boolean.Negated;
    ghost var n, cons0, l := |cs.aux|, cs.constraints, LastGates(|cs.aux|, a, b, borrow);
    var notA := a.Negated();
    var notAAndB := And(cs, notA, b);
    var notAAndBorrow := And(cs, notA, borrow);
    var bAndBorrow := And(cs, b, borrow);
    var term1 := BooleanOr(cs, notAAndB, notAAndBorrow);
    var finalBorrow := BooleanOr(cs, term1, bAndBorrow);
    cs.Enforce(Plus([], finalBorrow.Lc(1)), Plus([], ONES), []);
    AppendFive(cons0, AndCons(n, notA, b), AndCons(l.n1, notA, borrow), AndCons(l.n2, b, borrow),
              OrCons(l.n3, notAAndB, notAAndBorrow), OrCons(l.n4, term1, bAndBorrow));
    AppendAssoc(cons0, GateCons(n, a, b, borrow), [NoFinalBorrow(finalBorrow)]);
  }

  method EnforceGe(cs: ConstraintSystem, a: seq<Boolean>, b: seq<Boolean>)
    returns (r: Result<(), SynthesisError>)
    modifies cs
    ensures r.Ok? <==> |a| == |b|
    ensures r.Ok? ==>
      && cs.constraints == old(cs.constraints) + GeCons(|old(cs.aux)|, a, b)
      && cs.aux == GeAux(old(cs.aux), a, b)
    ensures r.Err? ==> cs.constraints == old(cs.constraints) && cs.aux == old(cs.aux)
    ensures cs.inputs == old(cs.inputs)
  {
    if |a| != |b| {
      return Err(Unsatisfiable);
    }
    GeLoop(cs, a, b);
    r := Ok(());
  }

  /** What position i adds to the system. */
  function PositionCons(n0: nat, a: seq<Boolean>, b: seq<Boolean>, i: nat): seq<Constraint>
    requires i < |a| == |b|
  {
    var n := n0 + 2 * i;
    if i == |a| - 1 then
      GateCons(n, a[i], b[i], Borrow(n0, i)) +
      [NoFinalBorrow(LastGates(n, a[i], b[i], Borrow(n0, i)).finalBorrow)]
    else StepCons(n, a[i], b[i], Borrow(n0, i))
  }

  function ConsAfter(n0: nat, a: seq<Boolean>, b: seq<Boolean>, i: nat): seq<Constraint>
    requires i <= |a| == |b|
  {
    if 0 < i == |a| then GeCons(n0, a, b) else ChainCons(n0, a, b, i)
  }

  function AuxAfter(aux: seq<Option<int>>, a: seq<Boolean>, b: seq<Boolean>, i: nat): seq<Option<int>>
    requires i <= |a| == |b|
  {
    if 0 < i == |a| then GeAux(aux, a, b) else ChainAux(aux, a, b, i)
  }

  lemma PositionAdds(n0: nat, a: seq<Boolean>, b: seq<Boolean>, i: nat)
    requires i < |a| == |b|
    ensures ConsAfter(n0, a, b, i + 1) == ConsAfter(n0, a, b, i) + PositionCons(n0, a, b, i)
  {
    hide GateCons, StepCons, LastGates, NoFinalBorrow;
    if i == |a| - 1 {
      AppendAssoc(ChainCons(n0, a, b, i), GateCons(n0 + 2 * i, a[i], b[i], Borrow(n0, i)),
                  [NoFinalBorrow(FinalBorrow(n0, a, b))]);
    }
  }

  method GeLoop(cs: ConstraintSystem, a: seq<Boolean>, b: seq<Boolean>)
    requires |a| == |b|
    modifies cs
    ensures cs.constraints == old(cs.constraints) + GeCons(|old(cs.aux)|, a, b)
    ensures cs.aux == GeAux(old(cs.aux), a, b)
    ensures cs.inputs == old(cs.inputs)
  {
    hide GeBodyCons, ChainCons, StepCons, StepAux, GateCons, LastAux, NoFinalBorrow, LastGates;
    var borrow := Constant(false);
    ghost var n0, aux0, cons0 := |cs.aux|, cs.aux, cs.constraints;
    for i := 0 to |a|
      invariant i < |a| ==> borrow == Borrow(n0, i)
      invariant cs.constraints == cons0 + ConsAfter(n0, a, b, i)
      invariant cs.aux == AuxAfter(aux0, a, b, i)
      invariant cs.inputs == old(cs.inputs)
    {
      PositionAdds(n0, a, b, i);
      AppendAssoc(cons0, ConsAfter(n0, a, b, i), PositionCons(n0, a, b, i));
      if i == |a| - 1 {
        LastStep(cs, a[i], b[i], borrow);
      } else {
        borrow := ChainStep(cs, a[i], b[i], borrow);
      }
    }
  }
}
