/** The findings about recovery and re-posts, met by signatures that verify in lawful groups. */
module SwapInstance {
  import opened Wrappers
  import opened Bytes
  import opened Curve
  import opened CurveInstance
  import opened Ecdsa
  import opened Mpccmp
  import opened Validation
  import opened Escrow
  import opened EscrowLaws
  import opened Swap

  const ALICE: Side<Z7> := Side("alice", 1, Fixed(0, 32), Sig(3, 1))
  const BOB: Side<Z7> := Side("bob", 2, Fixed(0, 32), Sig(1, 2))

  function NoSchnorr(p: seq<byte>, s: seq<byte>, h: seq<byte>): bool { false }

  lemma SmallMultiples(shift: nat, a: Z7)
    ensures var g := Cycle(shift);
            && Mul(g, 0, a) == 0 && Mul(g, 1, a) == a && Mul(g, 2, a) == Add(a, a)
            && Mul(g, 3, a) == Add(a, Add(a, a)) && Mul(g, 4, a) == Add(a, Add(a, Add(a, a)))
  {
    var g := Cycle(shift);
    assert Mul(g, 1, a) == Add(a, Mul(g, 0, a));
    assert Mul(g, 2, a) == Add(a, Mul(g, 1, a));
    assert Mul(g, 3, a) == Add(a, Mul(g, 2, a));
    assert Mul(g, 4, a) == Add(a, Mul(g, 3, a));
  }

  lemma ZeroHash(shift: nat)
    ensures HashScalar(Cycle(shift), Fixed(0, 32)) == 0
  {
    ToNatFixed(0, 32);
  }

  lemma AliceVerifies(shift: nat, e: nat)
    requires (shift == 0 || shift == 7) && e == 0
    ensures Verify(Cycle(shift), Sig(3, 1), 1, e)
  {
    SmallMultiples(shift, 1);
    SmallMultiples(shift, 3);
  }

  lemma BobVerifies(shift: nat, e: nat)
    requires (shift == 0 || shift == 7) && e == 0
    ensures Verify(Cycle(shift), Sig(1, 2), 2, e)
  {
    SmallMultiples(shift, 1);
    SmallMultiples(shift, 2);
  }

  /** Both signatures verify for the zero hash, whether the x coordinates are below the order or above. */
  lemma BothSigned(shift: nat)
    requires shift == 0 || shift == 7
    ensures SideOk(Cycle(shift), ALICE) && SideOk(Cycle(shift), BOB)
    ensures Signed(Cycle(shift), ALICE) && Signed(Cycle(shift), BOB)
  {
    ZeroHash(shift);
    AliceVerifies(shift, HashScalar(Cycle(shift), Fixed(0, 32)));
    BobVerifies(shift, HashScalar(Cycle(shift), Fixed(0, 32)));
  }

  /** The server accepts the signature's bytes. */
  lemma SignatureAccepted(shift: nat)
    requires shift == 0 || shift == 7
    ensures var g := Cycle(shift);
            Validate(g, NoSchnorr, Alg.Ecdsa, OrNone(EncodePoint(g, ALICE.key)), ALICE.hash, OrNone(GetSigByte(g, ALICE.sig))) == Ok(true)
  {
    CycleIsLawful(shift);
    BothSigned(shift);
    EncodedSignatureVerdict(Cycle(shift), NoSchnorr, ALICE);
  }

  /** Recovery from the Ethereum bytes of a verifying signature works below the order, and fails above it. */
  lemma RecoveryNeedsSmallX(shift: nat)
    requires shift == 0 || shift == 7
    ensures var g := Cycle(shift);
            && Lawful(g) && Signed(g, ALICE)
            && EcRecover(g, EthBytes(g, Normalize(g, ALICE.sig)), HashScalar(g, ALICE.hash)) ==
               if shift == 0 then Some(ALICE.key) else None
  {
    var g := Cycle(shift);
    CycleIsLawful(shift);
    BothSigned(shift);
    EthBytesRecoverSigner(g, ALICE.sig, ALICE.key, HashScalar(g, ALICE.hash));
  }

  lemma NothingEmpty(g: Group<Z7>)
    requires g.order > 0
    ensures RejectsEmpty(ServerValidator(g, NoSchnorr))
  {
    var v := ServerValidator(g, NoSchnorr);
    forall alg, p, h ensures !Accepts(v, alg, p, h, []) {
      match alg case Ecdsa => case Frost => case Unknown =>
    }
  }

  /** A completed exchange is taken back by a re-post, in a run with 33-byte keys and 32-byte hashes. */
  lemma RepostCanUncomplete(shift: nat) returns (ops: seq<Op>)
    requires shift == 0 || shift == 7
    ensures TakenBack(ServerValidator(Cycle(shift), NoSchnorr), ops, "swap")
  {
    var g := Cycle(shift);
    CycleIsLawful(shift);
    BothSigned(shift);
    NothingEmpty(g);
    ops := TakeBackRun(g, NoSchnorr, "swap", ALICE, BOB);
  }
}
