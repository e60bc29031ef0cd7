/** ECDSA verification as the curve library computes it, and public-key recovery. */
module Ecdsa {
  import opened Wrappers
  import opened Curve

  /** A signature keeps the whole point R, not only its x coordinate. */
  datatype Sig<P> = Sig(R: P, S: nat)

  ghost predicate WellFormed<P>(g: Group<P>, sig: Sig<P>) {
    sig.R != g.zero && sig.S < g.order
  }

  /** The point e*G + r*X, with r the x coordinate of R as a scalar. */
  function Target<P>(g: Group<P>, R: P, X: P, e: nat): P
    requires g.order > 0
  {
    g.add(Mul(g, e, g.base), Mul(g, g.x(R) % g.order, X))
  }

  predicate Verify<P(==)>(g: Group<P>, sig: Sig<P>, X: P, e: nat)
    requires g.order > 0
  {
    sig.R == Mul(g, g.inv(sig.S), Target(g, sig.R, X, e))
  }

  /** Recovery from r, s and a parity bit: section 4.1.6 of SEC 1 v2.0 for the candidate x = r. */
  function Recover<P>(g: Group<P>, r: nat, s: nat, odd: bool, e: nat): Option<P> {
    if !(0 < r < g.order && 0 < s < g.order) then None
    else match g.lift(r, odd)
      case None => None
      case Some(R) => Some(Mul(g, g.inv(r), g.add(Mul(g, s, R), g.neg(Mul(g, e, g.base)))))
  }

  function Mirror<P>(g: Group<P>, sig: Sig<P>): Sig<P>
    requires sig.S <= g.order
  {
    Sig(g.neg(sig.R), g.order - sig.S)
  }

  /** Verification without the inverse: S*R = e*G + r*X. */
  lemma VerifyEquation<P(!new)>(g: Group<P>, sig: Sig<P>, X: P, e: nat)
    requires Lawful(g) && 0 < sig.S < g.order
    ensures Verify(g, sig, X, e) <==> Mul(g, sig.S, sig.R) == Target(g, sig.R, X, e)
  {
    MulInverse(g, sig.S, sig.R);
    MulInverse(g, sig.S, Target(g, sig.R, X, e));
  }

  /** A verifying signature has a non-zero S: inverting zero gives zero, and R would be the point at infinity. */
  lemma VerifiedIsNonZero<P(!new)>(g: Group<P>, sig: Sig<P>, X: P, e: nat)
    requires Lawful(g) && WellFormed(g, sig) && Verify(g, sig, X, e)
    ensures 0 < sig.S
  {
    assert Mul(g, g.inv(0), Target(g, sig.R, X, e)) == g.zero;
  }

  /** (R, S) and (-R, -S) verify under the same keys and messages. */
  lemma VerifyMirror<P(!new)>(g: Group<P>, sig: Sig<P>, X: P, e: nat)
    requires Lawful(g) && WellFormed(g, sig) && 0 < sig.S
    ensures WellFormed(g, Mirror(g, sig))
    ensures Verify(g, Mirror(g, sig), X, e) == Verify(g, sig, X, e)
  {
    NegZero(g, sig.R);
    VerifyEquation(g, sig, X, e);
    VerifyEquation(g, Mirror(g, sig), X, e);
    MulBothNegated(g, sig.S, sig.R);
    assert g.x(g.neg(sig.R)) == g.x(sig.R);
  }

  lemma SmallMod(r: nat, n: nat)
    requires r < n
    ensures r % n == r
  {
  }

  lemma Subtract<P(!new)>(g: Group<P>, u: P, w: P)
    requires GroupLaws(g)
    ensures g.add(g.add(u, w), g.neg(u)) == w
  {
    assert Comm(g, u, w) && Assoc(g, w, u, g.neg(u)) && Opposite(g, u) && Unit(g, w);
  }

  /** Two multiples of the base point below the order are different. */
  lemma BaseMultiplesDiffer<P(!new)>(g: Group<P>, e: nat, f: nat)
    requires Lawful(g) && g.base != g.zero && e < f < g.order
    ensures Mul(g, e, g.base) != Mul(g, f, g.base)
  {
    var d := f - e;
    MulAdd(g, e, d, g.base);
    Subtract(g, Mul(g, e, g.base), Mul(g, d, g.base));
    assert Opposite(g, Mul(g, e, g.base));
    MulInverse(g, d, g.base);
    MulZero(g, g.inv(d));
  }

  /** A signature that verifies, verifies for one message scalar only. */
  lemma OneMessage<P(!new)>(g: Group<P>, sig: Sig<P>, X: P, e: nat, f: nat)
    requires Lawful(g) && g.base != g.zero && WellFormed(g, sig) && e < g.order && f < g.order
    requires Verify(g, sig, X, e)
    ensures Verify(g, sig, X, f) <==> e == f
  {
    VerifiedIsNonZero(g, sig, X, e);
    VerifyEquation(g, sig, X, e);
    VerifyEquation(g, sig, X, f);
    var u := Mul(g, g.x(sig.R) % g.order, X);
    assert Comm(g, Mul(g, e, g.base), u) && Comm(g, Mul(g, f, g.base), u);
    Subtract(g, u, Mul(g, e, g.base));
    Subtract(g, u, Mul(g, f, g.base));
    if e < f {
      BaseMultiplesDiffer(g, e, f);
    } else if f < e {
      BaseMultiplesDiffer(g, f, e);
    }
  }

  /**
   * A verifying signature gives its key back, exactly when the x coordinate of R
   * is a non-zero scalar without reduction; otherwise recovery gives nothing.
   */
  lemma RecoverVerified<P(!new)>(g: Group<P>, sig: Sig<P>, X: P, e: nat)
    requires Lawful(g) && WellFormed(g, sig) && Verify(g, sig, X, e)
    ensures Recover(g, g.x(sig.R), sig.S, g.odd(sig.R), e) ==
            if 0 < g.x(sig.R) < g.order then Some(X) else None
  {
    VerifiedIsNonZero(g, sig, X, e);
    var r := g.x(sig.R);
    if 0 < r < g.order {
      VerifyEquation(g, sig, X, e);
      SmallMod(r, g.order);
      Subtract(g, Mul(g, e, g.base), Mul(g, r, X));
      MulInverse(g, r, X);
      assert g.lift(r, g.odd(sig.R)) == Some(sig.R);
    }
  }

  /** Recovery cannot tell (R, S) from (-R, -S), whether or not they verify. */
  lemma RecoverMirror<P(!new)>(g: Group<P>, sig: Sig<P>, e: nat)
    requires Lawful(g) && WellFormed(g, sig) && 0 < sig.S
    ensures var m := Mirror(g, sig);
            Recover(g, g.x(m.R), m.S, g.odd(m.R), e) == Recover(g, g.x(sig.R), sig.S, g.odd(sig.R), e)
  {
    var m := Mirror(g, sig);
    NegZero(g, sig.R);
    MulBothNegated(g, sig.S, sig.R);
    assert g.lift(g.x(m.R), g.odd(m.R)) == Some(m.R);
    assert g.lift(g.x(sig.R), g.odd(sig.R)) == Some(sig.R);
  }
}
