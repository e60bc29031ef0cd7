/** What every reply of the escrow says, from the stored flowers and the validator alone. */
module EscrowReplies {
  import opened Wrappers
  import opened Bytes
  import opened Validation
  import opened Escrow
  import opened EscrowLaws

  /** Both flowers serve each other. */
  predicate BothServe(v: Validator, f: Flower, g: Flower) {
    v(f.alg, f.pub, f.hash, g.sig) == Ok(true) && v(g.alg, g.pub, g.hash, f.sig) == Ok(true)
  }

  predicate EitherFails(v: Validator, f: Flower, g: Flower) {
    v(f.alg, f.pub, f.hash, g.sig) == Err || v(g.alg, g.pub, g.hash, f.sig) == Err
  }

  /** The slots hold exactly the two flowers. */
  predicate Between(s: Slots, f: Flower, g: Flower) { s == Slots(Some(f), Some(g)) || s == Slots(Some(g), Some(f)) }

  /**
   * The reply to an accepted deposit: pending for the first flower of an id; with the other party's
   * flower there, its signature exactly when the two serve each other, a failure exactly when the
   * validator failed on one of them, and pending otherwise.
   */
  lemma DepositAnswers(v: Validator, ops: seq<Op>, i: nat)
    requires Run(ops) && AcceptedDeposit(v, ops, i)
    ensures var f, reply := ops[i].f, ReplyAt(v, ops, i);
            var store := StateAt(v, ops[..i + 1]);
            && f.id in store
            && (store[f.id].f2.None? ==> store[f.id].f1 == Some(f) && reply == Pending)
            && (store[f.id].f2.Some? ==> exists g :: Between(store[f.id], f, g) && DepositOf(v, f, g, reply))
  {
    var f, before := ops[i].f, StateAt(v, ops[..i]);
    assert ops[..i + 1][..i] == ops[..i];
    RunKeeps(v, ops, i);
    SlotsAnswer(v, SlotsOf(before, f.id), f.id !in before, f);
  }

  /** The reply computed from the slots after the flower went in. */
  lemma SlotsAnswer(v: Validator, s: Slots, wasEmpty: bool, f: Flower)
    requires (if wasEmpty then s == Slots(None, None) else Owned(s)) && Parses(f) && f.depositor != "" && AddFlower(s, f).Added?
    ensures var t := AddFlower(s, f).slots;
            var reply := DepositReply(v, wasEmpty, t, f.pub);
            && (t.f2.None? ==> t.f1 == Some(f) && reply == Pending)
            && (t.f2.Some? ==> exists g :: Between(t, f, g) && DepositOf(v, f, g, reply))
  {
    AddKeeps(s, f);
    var t := AddFlower(s, f).slots;
    if t.f2.Some? {
      var g := if t.f1 == Some(f) then t.f2.value else t.f1.value;
      assert Between(t, f, g) && DepositOf(v, f, g, DepositReply(v, wasEmpty, t, f.pub));
    }
  }

  predicate DepositOf(v: Validator, f: Flower, g: Flower, reply: Reply) {
    && (reply.Released? <==> BothServe(v, f, g))
    && (reply.Released? ==> reply.sig == g.sig)
    && (reply == ValidationFailed <==> EitherFails(v, f, g))
    && (reply == Pending <==> !BothServe(v, f, g) && !EitherFails(v, f, g))
  }

  predicate InSlots(s: Slots, f: Flower) { s.f1 == Some(f) || s.f2 == Some(f) }

  predicate KeyTaken(s: Slots, pub: seq<byte>) { HoldsKey(s.f1, pub) || HoldsKey(s.f2, pub) }

  predicate HoldsKey(slot: Option<Flower>, pub: seq<byte>) { slot.Some? && slot.value.pub == pub }

  /** Why a deposit into slots is refused, if it is. */
  ghost predicate RefusedFor(s: Slots, f: Flower, why: Option<Refusal>) {
    && (why == Some(OtherParticipant) <==> exists ex :: InSlots(s, ex) && ex.pub == f.pub && ex.depositor != f.depositor)
    && (why == Some(OtherSignature) <==>
        exists ex :: InSlots(s, ex) && ex.pub == f.pub && ex.depositor == f.depositor && ex.sig != [] && ex.sig != f.sig)
    && (why == Some(BothSlots) <==> !KeyTaken(s, f.pub) && s.f1.Some? && s.f1.value.depositor == f.depositor)
    && (why == Some(Full) <==> !KeyTaken(s, f.pub) && s.f1.Some? && s.f1.value.depositor != f.depositor && s.f2.Some?)
  }

  function Why(r: Added): Option<Refusal> { if r.Refused? then Some(r.why) else None }

  lemma AddDecision(s: Slots, f: Flower)
    requires s == Slots(None, None) || Owned(s)
    ensures RefusedFor(s, f, Why(AddFlower(s, f)))
  {
    if s.f1.Some? {
      assert InSlots(s, s.f1.value);
    }
    if s.f2.Some? {
      assert InSlots(s, s.f2.value);
    }
  }

  lemma AddTakes(s: Slots, f: Flower)
    requires (s == Slots(None, None) || Owned(s)) && AddFlower(s, f).Added?
    ensures var t := AddFlower(s, f).slots; InSlots(t, f) && forall g: Flower :: g.pub != f.pub ==> (InSlots(t, g) <==> InSlots(s, g))
  {
  }

  function SlotsOf(store: Store, id: string): Slots { if id in store then store[id] else Slots(None, None) }

  /**
   * Which deposits are refused, and why: the key belongs to another depositor, or has another
   * signature already; or the key is new and the depositor holds the first slot, or both slots are
   * taken. Everything else is accepted, and then the flower is in a slot and nothing else has changed.
   */
  lemma DepositDecision(v: Validator, ops: seq<Op>, i: nat)
    requires Run(ops) && i < |ops| && ops[i].Deposit? && ops[i].fault == NoFault
    ensures var f, reply := ops[i].f, ReplyAt(v, ops, i);
            var before, after := StateAt(v, ops[..i]), StateAt(v, ops[..i + 1]);
            && RefusedFor(SlotsOf(before, f.id), f, if reply.Conflict? then Some(reply.why) else None)
            && (reply.Conflict? ==> after == before)
            && (!reply.Conflict? ==> AcceptedReply(reply) && f.id in after && InSlots(after[f.id], f) && OthersAsBefore(before, after, SlotsOf(before, f.id), f))
  {
    assert ops[..i + 1][..i] == ops[..i];
    RunKeeps(v, ops, i);
    var f := ops[i].f;
    var s := SlotsOf(StateAt(v, ops[..i]), f.id);
    AddDecision(s, f);
    if AddFlower(s, f).Added? {
      AddTakes(s, f);
    }
  }

  /** Every other id is as before, and so is every flower of the id with another key. */
  ghost predicate OthersAsBefore(before: Store, after: Store, s: Slots, f: Flower)
    requires f.id in after
  {
    && after.Keys == before.Keys + {f.id}
    && (forall id :: id in before && id != f.id ==> after[id] == before[id])
    && (forall g: Flower :: g.pub != f.pub ==> (InSlots(after[f.id], g) <==> InSlots(s, g)))
  }

  /** A storage failure is reported and changes nothing; a failing read is always reported. */
  lemma FaultsChangeNothing(v: Validator, ops: seq<Op>, i: nat)
    requires i < |ops|
    ensures ReplyAt(v, ops, i) == StorageError ==> ops[i].fault != NoFault && StateAt(v, ops[..i + 1]) == StateAt(v, ops[..i])
    ensures ops[i].fault == GetFails ==> ReplyAt(v, ops, i) == StorageError
    ensures ops[i].Check? ==> StateAt(v, ops[..i + 1]) == StateAt(v, ops[..i])
  {
    assert ops[..i + 1][..i] == ops[..i];
  }

  /**
   * The reply to a poll: pending until both flowers are there; then forbidden exactly for a key in a
   * slot of someone else; then the opposite signature exactly when the two flowers serve each other.
   */
  lemma PollAnswers(v: Validator, ops: seq<Op>, i: nat)
    requires Run(ops) && i < |ops| && ops[i].Check? && ops[i].fault != GetFails
    ensures var Check(id, pub, caller, _) := ops[i];
            var store, reply := StateAt(v, ops[..i]), ReplyAt(v, ops, i);
            && (id !in store || store[id].f2.None? ==> reply == Pending)
            && (id in store && store[id].f2.Some? ==> exists f, g :: store[id] == Slots(Some(f), Some(g)) && PollOf(v, f, g, pub, caller, reply))
  {
    RunKeeps(v, ops, i);
    var store := StateAt(v, ops[..i]);
    var id := ops[i].id;
    if id in store && store[id].f2.Some? {
      var s := store[id];
      assert s == Slots(Some(s.f1.value), Some(s.f2.value));
      assert PollOf(v, s.f1.value, s.f2.value, ops[i].pub, ops[i].caller, ReplyAt(v, ops, i));
    }
  }

  predicate PollOf(v: Validator, f: Flower, g: Flower, pub: seq<byte>, caller: string, reply: Reply) {
    && f.pub != g.pub
    && (reply == Forbidden <==> (f.pub == pub && f.depositor != caller) || (g.pub == pub && g.depositor != caller))
    && (reply != Forbidden ==>
          && (reply.Released? <==> BothServe(v, f, g))
          && (reply.Released? ==> reply.sig == if pub == f.pub then g.sig else if pub == g.pub then f.sig else [])
          && (!reply.Released? ==> reply == Pending))
  }

  // ---- flowers from before depositors were recorded ----

  /** A slot without a depositor: anyone may re-post its key, unless that changes a signature, and then owns it. */
  lemma LegacySlotIsClaimed(s: Slots, ex: Flower, f: Flower)
    requires s.f1 == Some(ex) || (s.f2 == Some(ex) && !HoldsKey(s.f1, f.pub))
    requires ex.depositor == "" && ex.pub == f.pub
    ensures AddFlower(s, f) ==
            if ex.sig != [] && ex.sig != f.sig then Refused(OtherSignature)
            else Added(if s.f1 == Some(ex) then Slots(Some(f), s.f2) else Slots(s.f1, Some(f)))
  {
  }

  /** A new key is never refused because of a slot without a depositor, only when both slots are taken. */
  lemma LegacySlotDoesNotBlock(s: Slots, f: Flower)
    requires !KeyTaken(s, f.pub) && (s.f1.Some? ==> s.f1.value.depositor == "") && (s.f1.None? && s.f2.Some? ==> s.f2.value.depositor == "")
    ensures AddFlower(s, f) ==
            if s.f1.None? then Added(Slots(Some(f), s.f2)) else if s.f2.None? then Added(Slots(s.f1, Some(f))) else Refused(Full)
  {
  }

  /** A key whose slot has no depositor may be polled by anyone. */
  lemma LegacyPollIsOpen(v: Validator, s: Slots, pub: seq<byte>, caller: string)
    requires s.f1.Some? && s.f2.Some?
    requires s.f1.value.pub == pub ==> s.f1.value.depositor == ""
    requires s.f2.value.pub == pub ==> s.f2.value.depositor == ""
    ensures var reply := CheckReply(v, Some(s), pub, caller);
            reply != Forbidden && (reply.Released? <==> BothServe(v, s.f1.value, s.f2.value)) && (!reply.Released? ==> reply == Pending)
  {
  }
}
