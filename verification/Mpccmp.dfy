/** mpc/mpccmp: the two byte forms of an ECDSA signature and the low-s normalisation. */
module Mpccmp {
  import opened Wrappers
  import opened Bytes
  import opened Curve
  import opened Ecdsa

  // ---- points and scalars as bytes (sections 2.3.3, 2.3.4 and 2.3.7 of SEC 1 v2.0) ----

  function EncodePoint<P(==)>(g: Group<P>, a: P): Result<seq<byte>> {
    if a == g.zero then Err else Ok([if g.odd(a) then 3 else 2] + Fixed(g.x(a), 32))
  }

  function DecodePoint<P>(g: Group<P>, b: seq<byte>): Result<P> {
    if |b| != 33 || (g.strict && b[0] != 2 && b[0] != 3) then Err
    else match g.lift(ToNat(b[1..]), b[0] == 3)
      case Some(a) => Ok(a)
      case None => Err
  }

  function DecodeScalar<P>(g: Group<P>, b: seq<byte>): Result<nat> {
    if |b| == 32 && ToNat(b) < g.order then Ok(ToNat(b)) else Err
  }

  /** What stands before and after the prefix byte. */
  lemma PointLayout<P>(g: Group<P>, a: P)
    requires a != g.zero
    ensures EncodePoint(g, a).Ok? && |EncodePoint(g, a).value| == 33
    ensures EncodePoint(g, a).value[0] == if g.odd(a) then 3 else 2
    ensures EncodePoint(g, a).value[1..] == Fixed(g.x(a), 32)
  {
  }

  lemma PointRoundTrip<P(!new)>(g: Group<P>, a: P)
    requires Lawful(g) && a != g.zero
    ensures EncodePoint(g, a).Ok? && |EncodePoint(g, a).value| == 33
    ensures DecodePoint(g, EncodePoint(g, a).value) == Ok(a)
  {
    PointLayout(g, a);
    ToNatFixed(g.x(a), 32);
    assert g.lift(g.x(a), g.odd(a)) == Some(a);
  }

  lemma PointCanonical<P(!new)>(g: Group<P>, b: seq<byte>)
    requires Lawful(g) && DecodePoint(g, b).Ok?
    ensures |b| == 33 && DecodePoint(g, b).value != g.zero
    ensures EncodePoint(g, DecodePoint(g, b).value) == Ok(b) <==> 2 <= b[0] <= 3
  {
    assert g.lift(ToNat(b[1..]), b[0] == 3).Some?;
    FixedToNat(b[1..]);
    PointLayout(g, DecodePoint(g, b).value);
    assert b == [b[0]] + b[1..];
  }

  // ---- GetSigByte and FromSigByte ----

  /** [33-byte R][32-byte S]; fails only on the point at infinity. */
  function GetSigByte<P(==)>(g: Group<P>, sig: Sig<P>): Result<seq<byte>> {
    match EncodePoint(g, sig.R)
    case Ok(r) => Ok(r + Fixed(sig.S, 32))
    case Err => Err
  }

  /** Slices at byte 33 without a length check, so the caller owes 33 bytes. */
  function FromSigByte<P>(g: Group<P>, s: seq<byte>): Result<Sig<P>>
    requires |s| >= 33
  {
    match (DecodePoint(g, s[..33]), DecodeScalar(g, s[33..]))
    case (Ok(R), Ok(S)) => Ok(Sig(R, S))
    case _ => Err
  }

  /** Parsing undoes encoding on every well-formed signature. */
  lemma SigBytesRoundTrip<P(!new)>(g: Group<P>, sig: Sig<P>)
    requires Lawful(g) && WellFormed(g, sig)
    ensures GetSigByte(g, sig).Ok? && |GetSigByte(g, sig).value| == 65
    ensures FromSigByte(g, GetSigByte(g, sig).value) == Ok(sig)
  {
    PointRoundTrip(g, sig.R);
    var r := EncodePoint(g, sig.R).value;
    var b := GetSigByte(g, sig).value;
    assert b[..33] == r && b[33..] == Fixed(sig.S, 32);
    ToNatFixed(sig.S, 32);
  }

  /** Only 65-byte strings parse, and encoding gives such a string back exactly when its prefix is 2 or 3. */
  lemma SigBytesCanonical<P(!new)>(g: Group<P>, s: seq<byte>)
    requires Lawful(g) && |s| >= 33 && FromSigByte(g, s).Ok?
    ensures |s| == 65 && WellFormed(g, FromSigByte(g, s).value)
    ensures GetSigByte(g, FromSigByte(g, s).value) == Ok(s) <==> 2 <= s[0] <= 3
  {
    PointCanonical(g, s[..33]);
    PointLayout(g, DecodePoint(g, s[..33]).value);
    FixedToNat(s[33..]);
    assert s == s[..33] + s[33..];
    var b := EncodePoint(g, DecodePoint(g, s[..33]).value).value + s[33..];
    assert b[..33] == EncodePoint(g, DecodePoint(g, s[..33]).value).value;
  }

  // ---- SigEthereum ----

  predicate IsOverHalfOrder<P>(g: Group<P>, s: nat) { 2 * s > g.order }

  /** The signature left in place by SigEthereum: the one of (R, S), (-R, -S) with the low S. */
  function Normalize<P>(g: Group<P>, sig: Sig<P>): Sig<P>
    requires sig.S < g.order
  {
    if IsOverHalfOrder(g, sig.S) then Mirror(g, sig) else sig
  }

  /** r, s, v: 32 bytes of x(R), 32 bytes of S, and the parity of R's y. */
  function EthBytes<P>(g: Group<P>, sig: Sig<P>): (b: seq<byte>)
    ensures |b| == 65
  {
    Fixed(g.x(sig.R), 32) + Fixed(sig.S, 32) + [if g.odd(sig.R) then 1 else 0]
  }

  /** `v ^ 1` on a byte. */
  function FlipLowBit(v: byte): byte { if v % 2 == 0 then v + 1 else v - 1 }

  class Signature<P(==)> {
    var R: P
    var S: nat

    constructor (R: P, S: nat)
      ensures this.R == R && this.S == S
    {
      this.R, this.S := R, S;
    }

    function Value(): Sig<P>
      reads this
    {
      Sig(R, S)
    }
  }

  /** `copy(rs, rs[1:])`: an overlapping copy that leaves the last byte. */
  method ShiftLeft(rs: array<byte>)
    requires rs.Length > 0
    modifies rs
    ensures rs[..rs.Length - 1] == old(rs[1..]) && rs[rs.Length - 1] == old(rs[rs.Length - 1])
  {
    forall i | 0 <= i < rs.Length - 1 {
      rs[i] := rs[i + 1];
    }
  }

  /** The buffer work: both encodings in a row, shifted left over the prefix, the recovery bit last. */
  method LayOut(rBytes: seq<byte>, s: seq<byte>, flip: bool) returns (r: array<byte>, rs: array<byte>)
    requires |rBytes| == 33 && |s| == 32 && 2 <= rBytes[0] <= 3
    ensures fresh(r) && fresh(rs) && rs.Length == 65
    ensures rs[64] == if flip then FlipLowBit(rBytes[0] - 2) else rBytes[0] - 2
    ensures rs[..] == (rBytes + s)[1..] + [rs[64]]
    ensures r[..] == [rs[64] + 2] + rBytes[1..]
  {
    var both := rBytes + s;
    r := new byte[33](i requires 0 <= i < 33 => rBytes[i]);
    rs := new byte[65](i requires 0 <= i < 65 => both[i]);
    var v := rs[0] - 2;
    assert rs[1..] == both[1..];
    ShiftLeft(rs);
    rs[64] := if flip then FlipLowBit(v) else v;
    r[0] := rs[64] + 2;
    assert rs[..] == rs[..64] + [rs[64]];
    assert r[..] == [r[0]] + r[1..];
  }

  /**
   * Negates a high S in place, lays R and S out in a buffer, shifts the buffer left by one
   * byte, puts the recovery bit at its end and rewrites R with the matching parity.
   */
  method SigEthereum<P(==, !new)>(g: Group<P>, sig: Signature<P>) returns (res: Result<seq<byte>>)
    requires Lawful(g)
    requires sig.S < g.order
    modifies sig
    ensures sig.S == old(Normalize(g, sig.Value())).S
    ensures res.Err? <==> old(sig.R) == g.zero
    ensures res.Err? ==> sig.R == old(sig.R)
    ensures res.Ok? ==> sig.Value() == old(Normalize(g, sig.Value())) && res.value == EthBytes(g, sig.Value())
  {
    var overHalf := IsOverHalfOrder(g, sig.S);
    if overHalf {
      sig.S := g.order - sig.S;
    }
    var rBytes := EncodePoint(g, sig.R);
    if rBytes.Err? {
      return Err;
    }
    PointLayout(g, sig.R);
    var r, rs := LayOut(rBytes.value, Fixed(sig.S, 32), overHalf);
    Rewritten(g, sig.R, sig.S, overHalf, rs[64]);
    match DecodePoint(g, r[..]) {
      case Ok(R) =>
        sig.R := R;
        res := Ok(rs[..]);
      case Err =>
        res := Err;
    }
  }

  /** The shifted buffer and the rewritten prefix describe R itself, or -R if the bit was flipped. */
  lemma Rewritten<P(!new)>(g: Group<P>, R: P, S: nat, flip: bool, v: byte)
    requires Lawful(g) && R != g.zero
    requires v == if g.odd(R) != flip then 1 else 0
    ensures var want := if flip then g.neg(R) else R;
            var b := EncodePoint(g, R).value;
            && DecodePoint(g, [v + 2] + b[1..]) == Ok(want)
            && (b + Fixed(S, 32))[1..] + [v] == EthBytes(g, Sig(want, S))
  {
    var want := if flip then g.neg(R) else R;
    NegZero(g, R);
    PointLayout(g, R);
    PointRoundTrip(g, want);
    PointLayout(g, want);
    var b := EncodePoint(g, R).value;
    assert [v + 2] + b[1..] == EncodePoint(g, want).value;
    assert (b + Fixed(S, 32))[1..] == b[1..] + Fixed(S, 32);
  }

  /** Validity under every key and message is exactly preserved. */
  lemma NormalizeKeepsValidity<P(!new)>(g: Group<P>, sig: Sig<P>, X: P, e: nat)
    requires Lawful(g) && WellFormed(g, sig)
    ensures WellFormed(g, Normalize(g, sig))
    ensures Verify(g, Normalize(g, sig), X, e) == Verify(g, sig, X, e)
  {
    if IsOverHalfOrder(g, sig.S) {
      VerifyMirror(g, sig, X, e);
    }
  }

  /**
   * The low-s rule of EIP-2, and uniqueness: among (R, S) and its mirror image exactly the
   * normal form has a low S, and two signatures share a normal form only if equal or mirrored.
   */
  lemma NormalFormIsUnique<P(!new)>(g: Group<P>, a: Sig<P>, b: Sig<P>)
    requires Lawful(g) && WellFormed(g, a) && WellFormed(g, b)
    ensures 2 * Normalize(g, a).S < g.order
    ensures Normalize(g, Normalize(g, a)) == Normalize(g, a)
    ensures Normalize(g, a) == Normalize(g, b) <==> b == a || b == Mirror(g, a)
  {
    NegNeg(g, a.R);
    NegNeg(g, b.R);
  }

  /** The 65 bytes are the GetSigByte form of the final signature rotated by one, prefix minus 2. */
  lemma EthBytesIsRotation<P(!new)>(g: Group<P>, sig: Sig<P>)
    requires Lawful(g) && WellFormed(g, sig)
    ensures GetSigByte(g, sig).Ok?
    ensures var b := GetSigByte(g, sig).value; |b| == 65 && b[0] >= 2 && EthBytes(g, sig) == b[1..] + [b[0] - 2]
  {
    PointLayout(g, sig.R);
    var r := EncodePoint(g, sig.R).value;
    assert (r + Fixed(sig.S, 32))[1..] == r[1..] + Fixed(sig.S, 32);
  }

  /** What a node does with r, s, v: recover the signer. */
  function EcRecover<P>(g: Group<P>, b: seq<byte>, e: nat): Option<P>
    requires |b| == 65
  {
    if b[64] > 1 then None else Recover(g, ToNat(b[..32]), ToNat(b[32..64]), b[64] == 1, e)
  }

  lemma EcRecoverReads<P(!new)>(g: Group<P>, sig: Sig<P>, e: nat)
    requires Lawful(g) && WellFormed(g, sig)
    ensures EcRecover(g, EthBytes(g, sig), e) == Recover(g, g.x(sig.R), sig.S, g.odd(sig.R), e)
  {
    var b := EthBytes(g, sig);
    assert b[..32] == Fixed(g.x(sig.R), 32) && b[32..64] == Fixed(sig.S, 32);
    ToNatFixed(g.x(sig.R), 32);
    ToNatFixed(sig.S, 32);
  }

  /**
   * For every signature that verifies under X, the bytes SigEthereum returns recover exactly X,
   * if and only if the x coordinate of R is a non-zero scalar without reduction.
   */
  lemma EthBytesRecoverSigner<P(!new)>(g: Group<P>, sig: Sig<P>, X: P, e: nat)
    requires Lawful(g) && WellFormed(g, sig) && Verify(g, sig, X, e)
    ensures EcRecover(g, EthBytes(g, Normalize(g, sig)), e) == if 0 < g.x(sig.R) < g.order then Some(X) else None
  {
    NormalizeKeepsValidity(g, sig, X, e);
    EcRecoverReads(g, Normalize(g, sig), e);
    RecoverVerified(g, Normalize(g, sig), X, e);
  }

  /** Recovery agrees before and after, for every signature. */
  lemma NormalizeKeepsRecovery<P(!new)>(g: Group<P>, sig: Sig<P>, e: nat)
    requires Lawful(g) && WellFormed(g, sig)
    ensures EcRecover(g, EthBytes(g, Normalize(g, sig)), e) == EcRecover(g, EthBytes(g, sig), e)
  {
    if IsOverHalfOrder(g, sig.S) {
      RecoverMirror(g, sig, e);
      NegZero(g, sig.R);
      EcRecoverReads(g, sig, e);
      EcRecoverReads(g, Mirror(g, sig), e);
    }
  }
}
