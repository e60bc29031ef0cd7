/**
 * The algebra that ECDSA rests on, for any curve group.
 *
 * The curve library is not part of the source, so a group is a record of its
 * operations and every theorem holds for all records that satisfy `Lawful`.
 * `CurveInstance` exhibits one, so the laws are consistent.
 */
module Curve {
  import opened Wrappers
  import opened Bytes

  datatype Group<!P(==)> = Group(
    order: nat,                      // number of scalars, n
    field: nat,                      // bound on coordinates, p
    zero: P,
    base: P,
    add: (P, P) -> P,
    neg: P -> P,
    inv: nat -> nat,                 // inverse modulo n, inv(0) = 0
    x: P -> nat,                     // affine x coordinate
    odd: P -> bool,                  // parity of the affine y coordinate
    lift: (nat, bool) -> Option<P>,  // point with the given x and y parity
    strict: bool)                    // whether decoding refuses prefixes other than 2 and 3

  // One instance of each group law. A proof names the instances it uses.
  ghost predicate Comm<P>(g: Group<P>, a: P, b: P) { g.add(a, b) == g.add(b, a) }
  ghost predicate Assoc<P>(g: Group<P>, a: P, b: P, c: P) { g.add(g.add(a, b), c) == g.add(a, g.add(b, c)) }
  ghost predicate Unit<P>(g: Group<P>, a: P) { g.add(a, g.zero) == a && g.add(g.zero, a) == a }
  ghost predicate Opposite<P>(g: Group<P>, a: P) { g.add(a, g.neg(a)) == g.zero && g.add(g.neg(a), a) == g.zero }
  ghost predicate Cyclic<P>(g: Group<P>, a: P) { Mul(g, g.order, a) == g.zero }

  ghost predicate GroupLaws<P(!new)>(g: Group<P>) {
    && (forall a, b :: Comm(g, a, b))
    && (forall a, b, c :: Assoc(g, a, b, c))
    && (forall a :: Unit(g, a))
    && (forall a :: Opposite(g, a))
    && (forall a :: Cyclic(g, a))
  }

  ghost predicate Invertible<P>(g: Group<P>, s: nat)
    requires g.order > 0
  {
    (s * g.inv(s)) % g.order == 1
  }

  ghost predicate ScalarLaws<P>(g: Group<P>) {
    && 3 <= g.order <= Pow256(32)
    && g.order % 2 == 1
    && g.inv(0) == 0
    && (forall s :: 0 < s < g.order ==> Invertible(g, s))
  }

  /** Sections 2.3.3 and 2.3.4 of SEC 1 v2.0: a finite point is its x and the parity of its y. */
  ghost predicate PointLaws<P(!new)>(g: Group<P>) {
    && g.field <= Pow256(32)
    && (forall a :: a != g.zero ==> g.x(a) < g.field && g.lift(g.x(a), g.odd(a)) == Some(a))
    && (forall a :: a != g.zero ==> g.x(g.neg(a)) == g.x(a) && g.odd(g.neg(a)) == !g.odd(a))
    && (forall x, o :: g.lift(x, o).Some? ==>
          var a := g.lift(x, o).value; a != g.zero && g.x(a) == x && g.odd(a) == o)
  }

  ghost predicate Lawful<P(!new)>(g: Group<P>) {
    GroupLaws(g) && ScalarLaws(g) && PointLaws(g)
  }

  /** Scalar multiplication. */
  function Mul<P>(g: Group<P>, k: nat, a: P): P {
    if k == 0 then g.zero else g.add(a, Mul(g, k - 1, a))
  }

  lemma Cancel<P(!new)>(g: Group<P>, a: P, b: P)
    requires GroupLaws(g)
    requires g.add(a, b) == g.zero
    ensures a == g.neg(b)
  {
    assert Assoc(g, a, b, g.neg(b)) && Opposite(g, b) && Unit(g, a) && Unit(g, g.neg(b));
  }

  lemma NegNeg<P(!new)>(g: Group<P>, a: P)
    requires GroupLaws(g)
    ensures g.neg(g.neg(a)) == a
  {
    assert Opposite(g, a);
    Cancel(g, a, g.neg(a));
  }

  lemma NegZero<P(!new)>(g: Group<P>, a: P)
    requires GroupLaws(g)
    ensures g.neg(a) == g.zero <==> a == g.zero
  {
    assert Unit(g, g.zero);
    Cancel(g, g.zero, g.zero);
    NegNeg(g, a);
  }

  lemma {:induction false} MulAdd<P(!new)>(g: Group<P>, j: nat, k: nat, a: P)
    requires GroupLaws(g)
    ensures Mul(g, j + k, a) == g.add(Mul(g, j, a), Mul(g, k, a))
  {
    if j == 0 {
      assert Unit(g, Mul(g, k, a));
    } else {
      MulAdd(g, j - 1, k, a);
      assert Assoc(g, a, Mul(g, j - 1, a), Mul(g, k, a));
      assert j + k - 1 == (j - 1) + k;
    }
  }

  lemma {:induction false} MulMul<P(!new)>(g: Group<P>, j: nat, k: nat, a: P)
    requires GroupLaws(g)
    ensures Mul(g, j * k, a) == Mul(g, j, Mul(g, k, a))
  {
    if j > 0 {
      MulMul(g, j - 1, k, a);
      assert j * k == k + (j - 1) * k;
      MulAdd(g, k, (j - 1) * k, a);
    }
  }

  lemma {:induction false} MulZero<P(!new)>(g: Group<P>, k: nat)
    requires GroupLaws(g)
    ensures Mul(g, k, g.zero) == g.zero
  {
    if k > 0 {
      MulZero(g, k - 1);
      assert Unit(g, g.zero);
    }
  }

  /** Scalars act through their residue modulo the order. */
  lemma MulMod<P(!new)>(g: Group<P>, k: nat, a: P)
    requires GroupLaws(g) && g.order > 0
    ensures Mul(g, k % g.order, a) == Mul(g, k, a)
  {
    var q, r := k / g.order, k % g.order;
    assert k == q * g.order + r;
    MulAdd(g, q * g.order, r, a);
    MulMul(g, q, g.order, a);
    assert Cyclic(g, a) && Unit(g, Mul(g, r, a));
    MulZero(g, q);
  }

  lemma NegAdd<P(!new)>(g: Group<P>, a: P, b: P)
    requires GroupLaws(g)
    ensures g.neg(g.add(a, b)) == g.add(g.neg(a), g.neg(b))
  {
    var c := g.neg(a);
    assert Comm(g, a, b) && Comm(g, c, g.neg(b)) && Assoc(g, g.neg(b), c, g.add(a, b)) && Assoc(g, c, a, b);
    assert Opposite(g, a) && Opposite(g, b) && Unit(g, b);
    Cancel(g, g.add(c, g.neg(b)), g.add(a, b));
  }

  lemma {:induction false} MulNeg<P(!new)>(g: Group<P>, k: nat, a: P)
    requires GroupLaws(g)
    ensures Mul(g, k, g.neg(a)) == g.neg(Mul(g, k, a))
  {
    if k == 0 {
      NegZero(g, g.zero);
    } else {
      MulNeg(g, k - 1, a);
      NegAdd(g, a, Mul(g, k - 1, a));
    }
  }

  /** Negating the scalar and the point together changes nothing. */
  lemma MulBothNegated<P(!new)>(g: Group<P>, k: nat, a: P)
    requires GroupLaws(g)
    requires k <= g.order
    ensures Mul(g, g.order - k, g.neg(a)) == Mul(g, k, a)
  {
    MulNeg(g, g.order - k, a);
    MulAdd(g, k, g.order - k, a);
    assert Cyclic(g, a);
    Cancel(g, Mul(g, k, a), Mul(g, g.order - k, a));
  }

  lemma MulOne<P(!new)>(g: Group<P>, k: nat, a: P)
    requires GroupLaws(g) && g.order > 0 && k % g.order == 1
    ensures Mul(g, k, a) == a
  {
    MulMod(g, k, a);
    assert Unit(g, a) && Mul(g, 1, a) == g.add(a, Mul(g, 0, a));
  }

  /** Multiplying by the inverse scalar undoes multiplication, in either order. */
  lemma MulInverse<P(!new)>(g: Group<P>, s: nat, a: P)
    requires GroupLaws(g) && ScalarLaws(g)
    requires 0 < s < g.order
    ensures Mul(g, g.inv(s), Mul(g, s, a)) == a
    ensures Mul(g, s, Mul(g, g.inv(s), a)) == a
  {
    assert Invertible(g, s);
    var i := g.inv(s);
    var k := s * i;
    MulOne(g, k, a);
    MulMul(g, s, i, a);
    assert i * s == k;
    MulMul(g, i, s, a);
  }
}
