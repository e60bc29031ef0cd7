/** validation: the server's signature check, a case split over the algorithm. */
module Validation {
  import opened Wrappers
  import opened Bytes
  import opened Curve
  import opened Ecdsa
  import opened Mpccmp

  datatype Alg = Ecdsa | Frost | Unknown

  const HASH_LEN := 32
  const PUB_LEN_ECDSA := 33
  const PUB_LEN_FROST := 32
  const MAX_SIG_LEN := 128

  /** validatePub: the form of a key, by algorithm. */
  predicate ValidPub(alg: Alg, pub: seq<byte>) {
    match alg
    case Ecdsa => |pub| == PUB_LEN_ECDSA && (pub[0] == 2 || pub[0] == 3)
    case Frost => |pub| == PUB_LEN_FROST
    case Unknown => false
  }

  /** The key's bytes determine the algorithm. */
  lemma KeyHasOneAlgorithm(a: Alg, b: Alg, pub: seq<byte>)
    requires ValidPub(a, pub) && ValidPub(b, pub)
    ensures a == b
  {
  }

  /** A check of a signature `s` against a key `p` and a hash `h`: accepted, refused, or an error. */
  type Validator = (Alg, seq<byte>, seq<byte>, seq<byte>) -> Result<bool>

  predicate Accepts(v: Validator, alg: Alg, p: seq<byte>, h: seq<byte>, s: seq<byte>) {
    v(alg, p, h, s) == Ok(true)
  }

  ghost predicate RejectsEmpty(v: Validator) {
    forall alg, p, h :: !Accepts(v, alg, p, h, [])
  }

  /** The message scalar: the first 32 bytes of the hash, reduced. */
  function HashScalar<P>(g: Group<P>, h: seq<byte>): nat
    requires g.order > 0
  {
    ToNat(if |h| > 32 then h[..32] else h) % g.order
  }

  function Validate<P(==)>(g: Group<P>, schnorr: (seq<byte>, seq<byte>, seq<byte>) -> bool,
                           alg: Alg, p: seq<byte>, h: seq<byte>, s: seq<byte>): Result<bool>
    requires g.order > 0
  {
    match alg
    case Ecdsa =>
      if |s| < 64 then Err
      else (
        match (FromSigByte(g, s), DecodePoint(g, p))
        case (Ok(sig), Ok(X)) => Ok(Verify(g, sig, X, HashScalar(g, h)))
        case _ => Err)
    case Frost => Ok(schnorr(p, s, h))
    case Unknown => Err
  }

  /** An accepted ECDSA signature is 65 bytes long and satisfies the curve equation. */
  lemma AcceptedSignatureVerifies<P(!new)>(g: Group<P>, schnorr: (seq<byte>, seq<byte>, seq<byte>) -> bool,
                                           p: seq<byte>, h: seq<byte>, s: seq<byte>)
    requires Lawful(g) && Validate(g, schnorr, Ecdsa, p, h, s) == Ok(true)
    ensures |s| == 65 && FromSigByte(g, s).Ok? && DecodePoint(g, p).Ok?
    ensures var sig := FromSigByte(g, s).value;
            Mul(g, sig.S, sig.R) == Target(g, sig.R, DecodePoint(g, p).value, HashScalar(g, h))
  {
    SigBytesCanonical(g, s);
    var sig := FromSigByte(g, s).value;
    VerifiedIsNonZero(g, sig, DecodePoint(g, p).value, HashScalar(g, h));
    VerifyEquation(g, sig, DecodePoint(g, p).value, HashScalar(g, h));
  }

  /** The scalar a hash stands for: its first 32 bytes as a number, modulo the order. */
  lemma ScalarOf<P>(g: Group<P>, h: seq<byte>)
    requires g.order > 0
    ensures |h| <= 32 ==> HashScalar(g, h) == ToNat(h) % g.order
    ensures |h| > 32 ==> HashScalar(g, h) == ToNat(h[..32]) % g.order
  {
  }

  /**
   * Exactly what is accepted. ECDSA: 65 bytes that parse, a key that decodes, a non-zero s, and
   * S*R = e*G + r*X for the number e of the hash's first 32 bytes. FROST: what the library accepts for
   * key, signature and hash. Nothing for any other algorithm.
   */
  lemma AcceptedExactly<P(!new)>(g: Group<P>, schnorr: (seq<byte>, seq<byte>, seq<byte>) -> bool,
                                 alg: Alg, p: seq<byte>, h: seq<byte>, s: seq<byte>)
    requires Lawful(g)
    ensures Validate(g, schnorr, alg, p, h, s) == Ok(true) <==>
            (alg == Ecdsa && EcdsaHolds(g, p, h, s)) || (alg == Frost && schnorr(p, s, h))
  {
    if alg == Ecdsa && |s| >= 64 && FromSigByte(g, s).Ok? && DecodePoint(g, p).Ok? {
      SigBytesCanonical(g, s);
      var sig, X := FromSigByte(g, s).value, DecodePoint(g, p).value;
      if sig.S == 0 {
        assert Mul(g, g.inv(0), Target(g, sig.R, X, HashScalar(g, h))) == g.zero;
      } else {
        VerifyEquation(g, sig, X, HashScalar(g, h));
      }
    }
  }

  ghost predicate EcdsaHolds<P>(g: Group<P>, p: seq<byte>, h: seq<byte>, s: seq<byte>)
    requires g.order > 0
  {
    && |s| == 65 && FromSigByte(g, s).Ok? && DecodePoint(g, p).Ok?
    && var sig, X := FromSigByte(g, s).value, DecodePoint(g, p).value;
       var e := ToNat(if |h| > 32 then h[..32] else h) % g.order;
       0 < sig.S && Mul(g, sig.S, sig.R) == g.add(Mul(g, e, g.base), Mul(g, g.x(sig.R) % g.order, X))
  }

  /** ECDSA refuses the empty signature by its length test, so only the Schnorr branch has to be trusted. */
  lemma EmptyNeverAccepted<P(!new)>(g: Group<P>, schnorr: (seq<byte>, seq<byte>, seq<byte>) -> bool)
    requires g.order > 0
    ensures RejectsEmpty((alg, p, h, s) => Validate(g, schnorr, alg, p, h, s)) <==>
            forall p, h :: !schnorr(p, [], h)
  {
    var v: Validator := (alg, p, h, s) => Validate(g, schnorr, alg, p, h, s);
    forall p, h ensures Accepts(v, Frost, p, h, []) == schnorr(p, [], h) {}
  }

  /**
   * SigEthereum may run before or after the escrow bytes are captured: the server's verdict
   * on the two captures is the same for every key and hash.
   */
  lemma VerdictAroundSigEthereum<P(!new)>(g: Group<P>, schnorr: (seq<byte>, seq<byte>, seq<byte>) -> bool,
                                          sig: Sig<P>, p: seq<byte>, h: seq<byte>)
    requires Lawful(g) && WellFormed(g, sig)
    ensures GetSigByte(g, sig).Ok? && GetSigByte(g, Normalize(g, sig)).Ok?
    ensures Validate(g, schnorr, Ecdsa, p, h, GetSigByte(g, Normalize(g, sig)).value) ==
            Validate(g, schnorr, Ecdsa, p, h, GetSigByte(g, sig).value)
  {
    SigBytesRoundTrip(g, sig);
    NormalizeKeepsValidity(g, sig, g.zero, 0);
    SigBytesRoundTrip(g, Normalize(g, sig));
    if DecodePoint(g, p).Ok? {
      NormalizeKeepsValidity(g, sig, DecodePoint(g, p).value, HashScalar(g, h));
    }
  }
}
