/**
 * Groups that satisfy every law of `Curve`: the integers modulo 7, with k and -k sharing an x. The x
 * coordinates can be shifted, to stay below the order as almost always on a real curve, or to pass it.
 */
module CurveInstance {
  import opened Wrappers
  import opened Bytes
  import opened Curve

  newtype Z7 = k: int | 0 <= k < 7

  function Add(a: Z7, b: Z7): Z7 { if a as int + b as int < 7 then a + b else (a as int + b as int - 7) as Z7 }

  function Neg(a: Z7): Z7 { if a == 0 then 0 else (7 - a as int) as Z7 }

  function X(a: Z7): nat { if a <= 3 then a as nat else 7 - a as nat }

  function Odd(a: Z7): bool { a == 1 || a == 3 || a == 5 }

  function Lift(x: nat, odd: bool): Option<Z7> {
    match x
    case 1 => Some(if odd then 1 else 6)
    case 2 => Some(if odd then 5 else 2)
    case 3 => Some(if odd then 3 else 4)
    case _ => None
  }

  function Inv(s: nat): nat {
    match s case 1 => 1 case 2 => 4 case 3 => 5 case 4 => 2 case 5 => 3 case 6 => 6 case _ => 0
  }

  function Cycle(shift: nat): Group<Z7> {
    Group(7, shift + 4, 0, 1, Add, Neg, Inv, a => X(a) + shift, Odd,
          (x: nat, odd: bool) => if x < shift then None else Lift(x - shift, odd), true)
  }

  lemma CycleFold(shift: nat, a: Z7)
    ensures Cyclic(Cycle(shift), a)
  {
    var g := Cycle(shift);
    assert Mul(g, 1, a) == Add(a, Mul(g, 0, a)) == a;
    assert Mul(g, 3, a) == Add(a, Add(a, Mul(g, 1, a)));
    assert Mul(g, 5, a) == Add(a, Add(a, Mul(g, 3, a)));
    assert Mul(g, 7, a) == Add(a, Add(a, Mul(g, 5, a)));
  }

  lemma CycleGroup(shift: nat)
    ensures GroupLaws(Cycle(shift))
  {
    var g := Cycle(shift);
    forall a: Z7 ensures Cyclic(g, a) { CycleFold(shift, a); }
    forall a: Z7, b: Z7 ensures Comm(g, a, b) {}
    forall a: Z7, b: Z7, c: Z7 ensures Assoc(g, a, b, c) {}
    forall a: Z7 ensures Unit(g, a) {}
    forall a: Z7 ensures Opposite(g, a) {}
  }

  lemma CycleInvertible(shift: nat, s: nat)
    requires 0 < s < 7
    ensures Invertible(Cycle(shift), s)
  {
  }

  lemma CycleScalars(shift: nat)
    ensures ScalarLaws(Cycle(shift))
  {
    Pow256Grows(32);
    forall s | 0 < s < 7 ensures Invertible(Cycle(shift), s) {
      CycleInvertible(shift, s);
    }
  }

  lemma Coordinates(a: Z7)
    ensures a != 0 ==> X(a) < 4 && Lift(X(a), Odd(a)) == Some(a) && X(Neg(a)) == X(a) && Odd(Neg(a)) == !Odd(a)
  {
  }

  lemma Lifted(x: nat, o: bool)
    ensures Lift(x, o).Some? ==> Lift(x, o).value != 0 && X(Lift(x, o).value) == x && Odd(Lift(x, o).value) == o
  {
  }

  lemma CyclePoint(shift: nat, a: Z7)
    requires a != 0
    ensures var g := Cycle(shift);
            && g.x(a) < g.field && g.lift(g.x(a), g.odd(a)) == Some(a)
            && g.x(g.neg(a)) == g.x(a) && g.odd(g.neg(a)) == !g.odd(a)
  {
    Coordinates(a);
  }

  lemma CycleLift(shift: nat, x: nat, o: bool)
    ensures var g := Cycle(shift);
            g.lift(x, o).Some? ==> var a := g.lift(x, o).value; a != g.zero && g.x(a) == x && g.odd(a) == o
  {
    if x >= shift {
      Lifted(x - shift, o);
    }
  }

  lemma CyclePoints(shift: nat)
    requires shift <= 7
    ensures PointLaws(Cycle(shift))
  {
    Pow256Grows(32);
    forall a: Z7 | a != 0
      ensures var g := Cycle(shift);
              && g.x(a) < g.field && g.lift(g.x(a), g.odd(a)) == Some(a)
              && g.x(g.neg(a)) == g.x(a) && g.odd(g.neg(a)) == !g.odd(a)
    {
      CyclePoint(shift, a);
    }
    forall x: nat, o: bool
      ensures var g := Cycle(shift);
              g.lift(x, o).Some? ==> var a := g.lift(x, o).value; a != g.zero && g.x(a) == x && g.odd(a) == o
    {
      CycleLift(shift, x, o);
    }
  }

  /** The laws are consistent. */
  lemma CycleIsLawful(shift: nat)
    requires shift <= 7
    ensures Lawful(Cycle(shift))
  {
    CycleGroup(shift);
    CycleScalars(shift);
    CyclePoints(shift);
  }
}
