/** The whole atomic swap: escrow, validation, signature encoding and normalisation together. */
module Swap {
  import opened Wrappers
  import opened Bytes
  import opened Curve
  import opened Ecdsa
  import opened Mpccmp
  import opened Validation
  import opened Escrow
  import opened EscrowLaws
  import T = EscrowThreads

  /** validation.Validate over a curve, as the escrow uses it. */
  function ServerValidator<P(==)>(g: Group<P>, schnorr: (seq<byte>, seq<byte>, seq<byte>) -> bool): Validator
    requires g.order > 0
  {
    (alg: Alg, p: seq<byte>, h: seq<byte>, s: seq<byte>) => Validate(g, schnorr, alg, p, h, s)
  }

  /** One side of a swap: who withdraws, with which key, what is signed, and the signature that does it. */
  datatype Side<P> = Side(party: string, key: P, hash: seq<byte>, sig: Sig<P>)

  ghost predicate SideOk<P>(g: Group<P>, a: Side<P>)
    requires g.order > 0
  {
    a.party != "" && a.key != g.zero && WellFormed(g, a.sig)
  }

  ghost predicate Signed<P>(g: Group<P>, a: Side<P>)
    requires g.order > 0
  {
    Verify(g, a.sig, a.key, HashScalar(g, a.hash))
  }

  function OrNone(r: Result<seq<byte>>): seq<byte> { if r.Ok? then r.value else [] }

  /** A party deposits its own key and hash, and the signature the other party needs. */
  function FlowerOf<P(==)>(g: Group<P>, id: string, own: Side<P>, other: Side<P>): Flower {
    Flower(id, Alg.Ecdsa, OrNone(EncodePoint(g, own.key)), own.hash, OrNone(GetSigByte(g, other.sig)), own.party)
  }

  /** The server accepts a side's encoded signature exactly when it satisfies the curve equation. */
  lemma EncodedSignatureVerdict<P(!new)>(g: Group<P>, schnorr: (seq<byte>, seq<byte>, seq<byte>) -> bool, a: Side<P>)
    requires Lawful(g) && SideOk(g, a)
    ensures Validate(g, schnorr, Alg.Ecdsa, OrNone(EncodePoint(g, a.key)), a.hash, OrNone(GetSigByte(g, a.sig))) == Ok(Signed(g, a))
  {
    PointRoundTrip(g, a.key);
    SigBytesRoundTrip(g, a.sig);
  }

  lemma KeysStayApart<P(!new)>(g: Group<P>, a: P, b: P)
    requires Lawful(g) && a != g.zero && b != g.zero && a != b
    ensures OrNone(EncodePoint(g, a)) != OrNone(EncodePoint(g, b))
  {
    PointRoundTrip(g, a);
    PointRoundTrip(g, b);
  }

  /** Each flower is served by the other exactly when the signature for its own side verifies. */
  lemma CrossCheck<P(!new)>(g: Group<P>, schnorr: (seq<byte>, seq<byte>, seq<byte>) -> bool, id: string, a: Side<P>, b: Side<P>)
    requires Lawful(g) && SideOk(g, a)
    ensures Serves(ServerValidator(g, schnorr), FlowerOf(g, id, a, b), FlowerOf(g, id, b, a)) == Ok(Signed(g, a))
    ensures GetSigByte(g, a.sig) == Ok(FlowerOf(g, id, b, a).sig)
  {
    EncodedSignatureVerdict(g, schnorr, a);
    SigBytesRoundTrip(g, a.sig);
  }

  /** Two complete or incomplete slots, polled by their depositors. */
  lemma OwnPolls(v: Validator, a: Flower, b: Flower, s: Slots)
    requires a.pub != b.pub && (s == Slots(Some(a), Some(b)) || s == Slots(Some(b), Some(a)))
    ensures CheckReply(v, Some(s), a.pub, a.depositor) == if Complete(v, s) then Released(b.sig) else Pending
    ensures CheckReply(v, Some(s), b.pub, b.depositor) == if Complete(v, s) then Released(a.sig) else Pending
  {
  }

  /** A settled exchange: the two flowers in either order. */
  predicate Settled(s: Slots, a: Flower, b: Flower) { s == Slots(Some(a), Some(b)) || s == Slots(Some(b), Some(a)) }

  lemma SettledPolls<P(!new)>(g: Group<P>, schnorr: (seq<byte>, seq<byte>, seq<byte>) -> bool,
                              id: string, a: Side<P>, b: Side<P>, s: Slots)
    requires Lawful(g) && SideOk(g, a) && SideOk(g, b) && a.key != b.key
    requires Settled(s, FlowerOf(g, id, a, b), FlowerOf(g, id, b, a))
    ensures var v := ServerValidator(g, schnorr);
            var ra := CheckReply(v, Some(s), FlowerOf(g, id, a, b).pub, a.party);
            && (ra.Released? <==> Signed(g, a) && Signed(g, b))
            && (ra.Released? ==> Ok(ra.sig) == GetSigByte(g, a.sig))
  {
    KeysStayApart(g, a.key, b.key);
    CrossCheck(g, schnorr, id, a, b);
    CrossCheck(g, schnorr, id, b, a);
    OwnPolls(ServerValidator(g, schnorr), FlowerOf(g, id, a, b), FlowerOf(g, id, b, a), s);
  }

  /** A handler that replied, and whose deposit of the flower was accepted. */
  predicate Took(st: T.State, tid: nat, f: Flower) {
    T.Replied(st, tid) && st.threads[tid].op.Deposit? && st.threads[tid].op.f == f && AcceptedReply(st.threads[tid].r)
  }

  lemma TookIsAccepted(v: Validator, sched: seq<T.Action>, tid: nat, f: Flower)
    requires Took(T.Reach(v, sched), tid, f)
    ensures var ops := T.Ops(T.Reach(v, sched).log);
            exists k: nat :: AcceptedDeposit(v, ops, k) && ops[k].f == f
  {
    T.Linearizable(v, sched);
    var st := T.Reach(v, sched);
    assert AcceptedDeposit(v, T.Ops(st.log), st.threads[tid].at);
  }

  lemma SettledStore(v: Validator, sched: seq<T.Action>, ta: nat, tb: nat, fa: Flower, fb: Flower)
    requires T.AllReceived(sched) && Took(T.Reach(v, sched), ta, fa) && Took(T.Reach(v, sched), tb, fb)
    requires fa.id == fb.id && fa.pub != fb.pub && fa.sig != [] && fb.sig != []
    requires var ops := T.Ops(T.Reach(v, sched).log); HashFixed(v, ops, fa) && HashFixed(v, ops, fb)
    ensures var store := T.Reach(v, sched).store; fa.id in store && Settled(store[fa.id], fa, fb)
  {
    var ops := T.Ops(T.Reach(v, sched).log);
    T.StoreIsSequential(v, sched);
    T.LogReceived(v, sched);
    TookIsAccepted(v, sched, ta, fa);
    TookIsAccepted(v, sched, tb, fb);
    var i: nat :| AcceptedDeposit(v, ops, i) && ops[i].f == fa;
    var j: nat :| AcceptedDeposit(v, ops, j) && ops[j].f == fb;
    SettledSlots(v, ops, i, j);
  }

  /**
   * Fair exchange, end to end, whoever else deposits and polls in whatever interleaving: once both
   * deposits have been accepted, and while no accepted deposit has changed their hashes, the two
   * parties' polls release if and only if both signatures verify, and then give each party exactly
   * the signature for its own withdrawal.
   */
  lemma SwapIsFair<P(!new)>(g: Group<P>, schnorr: (seq<byte>, seq<byte>, seq<byte>) -> bool,
                            id: string, a: Side<P>, b: Side<P>, sched: seq<T.Action>, ta: nat, tb: nat)
    requires Lawful(g) && SideOk(g, a) && SideOk(g, b) && a.key != b.key && T.AllReceived(sched)
    requires var st := T.Reach(ServerValidator(g, schnorr), sched);
             Took(st, ta, FlowerOf(g, id, a, b)) && Took(st, tb, FlowerOf(g, id, b, a))
    requires var v := ServerValidator(g, schnorr);
             var ops := T.Ops(T.Reach(v, sched).log);
             HashFixed(v, ops, FlowerOf(g, id, a, b)) && HashFixed(v, ops, FlowerOf(g, id, b, a))
    ensures var v := ServerValidator(g, schnorr);
            var store := T.Reach(v, sched).store;
            var ra := CheckReply(v, Get(store, id), FlowerOf(g, id, a, b).pub, a.party);
            var rb := CheckReply(v, Get(store, id), FlowerOf(g, id, b, a).pub, b.party);
            && (ra.Released? <==> Signed(g, a) && Signed(g, b))
            && (rb.Released? <==> Signed(g, a) && Signed(g, b))
            && (ra.Released? ==> Ok(ra.sig) == GetSigByte(g, a.sig) && Ok(rb.sig) == GetSigByte(g, b.sig))
  {
    var v := ServerValidator(g, schnorr);
    var fa, fb := FlowerOf(g, id, a, b), FlowerOf(g, id, b, a);
    KeysStayApart(g, a.key, b.key);
    SigBytesRoundTrip(g, a.sig);
    SigBytesRoundTrip(g, b.sig);
    SettledStore(v, sched, ta, tb, fa, fb);
    var s := T.Reach(v, sched).store[id];
    SettledPolls(g, schnorr, id, a, b, s);
    SettledPolls(g, schnorr, id, b, a, s);
  }

  /** The bytes parse and satisfy the curve equation for the flower's key and hash. */
  ghost predicate CurveChecks<P>(g: Group<P>, f: Flower, sig: seq<byte>)
    requires g.order > 0
  {
    && |sig| == 65 && FromSigByte(g, sig).Ok? && DecodePoint(g, f.pub).Ok?
    && var s := FromSigByte(g, sig).value;
       Mul(g, s.S, s.R) == Target(g, s.R, DecodePoint(g, f.pub).value, HashScalar(g, f.hash))
  }

  /**
   * In any interleaving, a released signature satisfies the curve equation for a key and hash the
   * receiver itself deposited, and so did the receiver's own signature for the party that gave it.
   */
  lemma ReleaseIsSigned<P(!new)>(g: Group<P>, schnorr: (seq<byte>, seq<byte>, seq<byte>) -> bool, sched: seq<T.Action>, tid: nat)
    requires Lawful(g) && T.AllReceived(sched)
    requires var st := T.Reach(ServerValidator(g, schnorr), sched); T.Replied(st, tid) && Releases(st.threads[tid].r)
    ensures var v := ServerValidator(g, schnorr);
            var st := T.Reach(v, sched);
            && st.threads[tid].at < |st.log| && ReplyAt(v, T.Ops(st.log), st.threads[tid].at) == st.threads[tid].r
            && exists own: Flower, other: Flower ::
                 && ReleasePair(v, T.Ops(st.log), st.threads[tid].at, own, other)
                 && (own.alg.Ecdsa? ==> CurveChecks(g, own, st.threads[tid].r.sig))
                 && (other.alg.Ecdsa? ==> CurveChecks(g, other, own.sig))
  {
    var v := ServerValidator(g, schnorr);
    var st := T.Reach(v, sched);
    T.Linearizable(v, sched);
    T.LogReceived(v, sched);
    var at := st.threads[tid].at;
    ReleaseHasItsDeposits(v, T.Ops(st.log), at);
    var own, other :| ReleasePair(v, T.Ops(st.log), at, own, other);
    if own.alg.Ecdsa? {
      AcceptedSignatureVerifies(g, schnorr, own.pub, own.hash, other.sig);
    }
    if other.alg.Ecdsa? {
      AcceptedSignatureVerifies(g, schnorr, other.pub, other.hash, own.sig);
    }
  }

  // ---- what a re-post does to a completed exchange ----

  function Own(s: Slots, pub: seq<byte>): Flower
    requires s.f1.Some? && s.f2.Some?
  {
    if s.f1.value.pub == pub then s.f1.value else s.f2.value
  }

  lemma ScalarBound<P>(g: Group<P>, h: seq<byte>)
    requires g.order > 0
    ensures HashScalar(g, h) < g.order
  {
  }

  /** An accepted signature is accepted for another hash exactly when the two hashes are one scalar. */
  lemma AcceptedForOneScalar<P(!new)>(g: Group<P>, schnorr: (seq<byte>, seq<byte>, seq<byte>) -> bool,
                                      p: seq<byte>, h: seq<byte>, h': seq<byte>, s: seq<byte>)
    requires Lawful(g) && g.base != g.zero && Validate(g, schnorr, Alg.Ecdsa, p, h, s) == Ok(true)
    ensures Validate(g, schnorr, Alg.Ecdsa, p, h', s) == Ok(true) <==> HashScalar(g, h') == HashScalar(g, h)
  {
    SigBytesCanonical(g, s);
    ScalarBound(g, h);
    ScalarBound(g, h');
    OneMessage(g, FromSigByte(g, s).value, DecodePoint(g, p).value, HashScalar(g, h), HashScalar(g, h'));
  }

  /** A complete ECDSA exchange stays complete after a re-post exactly when the hash is the same scalar. */
  lemma EcdsaRepost<P(!new)>(g: Group<P>, schnorr: (seq<byte>, seq<byte>, seq<byte>) -> bool, s: Slots, f: Flower)
    requires Lawful(g) && g.base != g.zero && RejectsEmpty(ServerValidator(g, schnorr))
    requires Owned(s) && Complete(ServerValidator(g, schnorr), s)
    requires Parses(f) && f.depositor != "" && AddFlower(s, f).Added? && Own(s, f.pub).alg.Ecdsa?
    ensures Own(s, f.pub).pub == f.pub && f.alg.Ecdsa?
    ensures Complete(ServerValidator(g, schnorr), AddFlower(s, f).slots) <==> HashScalar(g, f.hash) == HashScalar(g, Own(s, f.pub).hash)
  {
    var v := ServerValidator(g, schnorr);
    CompleteAfterRepost(v, s, f);
    var own, other := Own(s, f.pub), Partner(s, f.pub);
    KeyHasOneAlgorithm(own.alg, f.alg, f.pub);
    assert Serves(v, own, other) == Ok(true);
    AcceptedForOneScalar(g, schnorr, own.pub, own.hash, f.hash, other.sig);
  }

  lemma OtherHash<P>(g: Group<P>, h: seq<byte>) returns (h': seq<byte>)
    requires 3 <= g.order
    ensures |h'| == 32 && HashScalar(g, h') != HashScalar(g, h)
  {
    var e := if HashScalar(g, h) == 0 then 1 else 0;
    Pow256Grows(32);
    h' := Fixed(e, 32);
    ToNatFixed(e, 32);
    SmallMod(e, g.order);
  }

  /** So every complete ECDSA exchange can be taken back by either party, with a re-post of 32 hash bytes. */
  lemma RepostUncompletes<P(!new)>(g: Group<P>, schnorr: (seq<byte>, seq<byte>, seq<byte>) -> bool, s: Slots, own: Flower)
      returns (h: seq<byte>)
    requires Lawful(g) && g.base != g.zero && RejectsEmpty(ServerValidator(g, schnorr))
    requires Owned(s) && Complete(ServerValidator(g, schnorr), s)
    requires own.alg.Ecdsa? && (s.f1 == Some(own) || s.f2 == Some(own))
    ensures |h| == 32 && AddFlower(s, own.(hash := h)).Added?
    ensures !Complete(ServerValidator(g, schnorr), AddFlower(s, own.(hash := h)).slots)
  {
    h := OtherHash(g, own.hash);
    EcdsaRepost(g, schnorr, s, own.(hash := h));
  }

  /** The third deposit takes a complete exchange back; keys and hashes have the lengths the server asks for. */
  ghost predicate TakenBack(v: Validator, ops: seq<Op>, id: string) {
    && Run(ops) && |ops| == 3
    && (forall i :: 0 <= i < 3 ==> ops[i].Deposit? && |ops[i].f.pub| == 33 && |ops[i].f.hash| == 32)
    && id in StateAt(v, ops[..2]) && Complete(v, StateAt(v, ops[..2])[id])
    && AcceptedReply(ReplyAt(v, ops, 2)) && id in StateAt(v, ops) && !Complete(v, StateAt(v, ops)[id])
  }

  /** Whenever two sides have verifying signatures, there is a run that completes and is taken back. */
  lemma TakeBackRun<P(!new)>(g: Group<P>, schnorr: (seq<byte>, seq<byte>, seq<byte>) -> bool, id: string, a: Side<P>, b: Side<P>)
      returns (ops: seq<Op>)
    requires Lawful(g) && g.base != g.zero && RejectsEmpty(ServerValidator(g, schnorr))
    requires SideOk(g, a) && SideOk(g, b) && a.party != b.party && a.key != b.key && Signed(g, a) && Signed(g, b)
    requires |a.hash| == 32 && |b.hash| == 32 && 0 < |id| <= MAX_ID_LEN
    ensures TakenBack(ServerValidator(g, schnorr), ops, id)
  {
    var v := ServerValidator(g, schnorr);
    var fa, fb := FlowerOf(g, id, a, b), FlowerOf(g, id, b, a);
    SidesMeet(g, schnorr, id, a, b);
    var two := TwoDeposits(v, fa, fb);
    var h := RepostUncompletes(g, schnorr, StateAt(v, two)[id], fa);
    ops := TakeBack(v, fa, fb, two, h);
  }

  lemma TakeBack(v: Validator, a: Flower, b: Flower, two: seq<Op>, h: seq<byte>) returns (ops: seq<Op>)
    requires Run(two) && two == [Deposit(a, NoFault), Deposit(b, NoFault)] && a.id in StateAt(v, two)
    requires |a.pub| == 33 && |b.pub| == 33 && Parses(a) && Parses(b) && |h| == 32 && a.depositor != ""
    requires var s := StateAt(v, two)[a.id];
             Complete(v, s) && AddFlower(s, a.(hash := h)).Added? && !Complete(v, AddFlower(s, a.(hash := h)).slots)
    ensures TakenBack(v, ops, a.id)
  {
    ops := ThirdDeposit(v, two, a.(hash := h));
    forall i | 0 <= i < 3 ensures ops[i].Deposit? && |ops[i].f.pub| == 33 && |ops[i].f.hash| == 32 {}
  }

  lemma SidesMeet<P(!new)>(g: Group<P>, schnorr: (seq<byte>, seq<byte>, seq<byte>) -> bool, id: string, a: Side<P>, b: Side<P>)
    requires Lawful(g) && SideOk(g, a) && SideOk(g, b) && a.key != b.key && Signed(g, a) && Signed(g, b)
    ensures var v := ServerValidator(g, schnorr);
            var fa, fb := FlowerOf(g, id, a, b), FlowerOf(g, id, b, a);
            && ValidPub(Alg.Ecdsa, fa.pub) && ValidPub(Alg.Ecdsa, fb.pub) && fa.pub != fb.pub
            && |fa.sig| == 65 && |fb.sig| == 65
            && Serves(v, fa, fb) == Ok(true) && Serves(v, fb, fa) == Ok(true)
  {
    PointRoundTrip(g, a.key);
    PointRoundTrip(g, b.key);
    PointLayout(g, a.key);
    PointLayout(g, b.key);
    SigBytesRoundTrip(g, a.sig);
    SigBytesRoundTrip(g, b.sig);
    KeysStayApart(g, a.key, b.key);
    CrossCheck(g, schnorr, id, a, b);
    CrossCheck(g, schnorr, id, b, a);
  }

  lemma TwoDeposits(v: Validator, a: Flower, b: Flower) returns (two: seq<Op>)
    requires a.id == b.id && a.pub != b.pub && a.depositor != b.depositor && a.depositor != "" && b.depositor != ""
    requires Parses(a) && Parses(b)
    requires Serves(v, a, b) == Ok(true) && Serves(v, b, a) == Ok(true)
    ensures Run(two) && two == [Deposit(a, NoFault), Deposit(b, NoFault)] && a.id in StateAt(v, two)
    ensures var s := StateAt(v, two)[a.id]; Owned(s) && Complete(v, s) && Settled(s, a, b)
  {
    two := Deposits(a, b, [true, false]);
    ConfluentOutcome(v, a, b, [true, false]);
    RunKeeps(v, two, 0);
  }

  lemma ThirdDeposit(v: Validator, two: seq<Op>, f: Flower) returns (ops: seq<Op>)
    requires Run(two) && |two| == 2 && Parses(f) && f.depositor != "" && f.id in StateAt(v, two)
    requires AddFlower(StateAt(v, two)[f.id], f).Added?
    ensures ops == two + [Deposit(f, NoFault)] && Run(ops) && ops[..2] == two
    ensures AcceptedReply(ReplyAt(v, ops, 2)) && f.id in StateAt(v, ops)
    ensures StateAt(v, ops)[f.id] == AddFlower(StateAt(v, two)[f.id], f).slots
  {
    ops := two + [Deposit(f, NoFault)];
    T.RunExtends(v, two, Deposit(f, NoFault));
  }

  /** The released bytes, parsed and brought to Ethereum form, recover the withdrawing key itself. */
  lemma ReleasedSignatureBroadcasts<P(!new)>(g: Group<P>, a: Side<P>, released: seq<byte>)
    requires Lawful(g) && SideOk(g, a) && Signed(g, a) && GetSigByte(g, a.sig) == Ok(released)
    ensures |released| == 65 && FromSigByte(g, released) == Ok(a.sig)
    ensures 2 * Normalize(g, a.sig).S < g.order
    ensures EcRecover(g, EthBytes(g, Normalize(g, a.sig)), HashScalar(g, a.hash)) ==
            if 0 < g.x(a.sig.R) < g.order then Some(a.key) else None
  {
    SigBytesRoundTrip(g, a.sig);
    NormalFormIsUnique(g, a.sig, a.sig);
    EthBytesRecoverSigner(g, a.sig, a.key, HashScalar(g, a.hash));
  }
}
