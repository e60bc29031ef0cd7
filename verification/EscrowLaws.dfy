/** What every sequence of escrow operations guarantees, from an empty store. */
module EscrowLaws {
  import opened Wrappers
  import opened Bytes
  import opened Validation
  import opened Escrow

  // ---- runs ----

  /** The store after a sequence of operations. */
  function StateAt(v: Validator, ops: seq<Op>): Store {
    if ops == [] then map[] else Exec(v, StateAt(v, ops[..|ops| - 1]), ops[|ops| - 1]).0
  }

  /** The reply to the i-th operation. */
  function ReplyAt(v: Validator, ops: seq<Op>, i: nat): Reply
    requires i < |ops|
  {
    Exec(v, StateAt(v, ops[..i]), ops[i]).1
  }

  /** A deposit has been parsed, and the authentication layer has supplied a non-empty address. */
  predicate Received(op: Op) { op.Deposit? ==> Parses(op.f) && op.f.depositor != "" }

  ghost predicate Run(ops: seq<Op>) { forall i :: 0 <= i < |ops| ==> Received(ops[i]) }

  lemma ReplyOfPrefix(v: Validator, ops: seq<Op>, more: seq<Op>, i: nat)
    requires i < |ops|
    ensures ReplyAt(v, ops + more, i) == ReplyAt(v, ops, i)
  {
    assert (ops + more)[..i] == ops[..i];
  }

  // ---- slot ownership and growth ----

  ghost predicate Owned(s: Slots) {
    && s.f1.Some? && Parses(s.f1.value) && s.f1.value.depositor != ""
    && (s.f2.Some? ==>
          && Parses(s.f2.value) && s.f2.value.depositor != ""
          && s.f1.value.pub != s.f2.value.pub
          && s.f1.value.depositor != s.f2.value.depositor)
  }

  ghost predicate WellOwned(store: Store) { forall id :: id in store ==> Owned(store[id]) }

  /** A slot keeps its key, its algorithm, its depositor, and its signature once it has one. */
  ghost predicate SlotGrows(a: Option<Flower>, b: Option<Flower>) {
    a.Some? ==>
      && b.Some?
      && b.value.pub == a.value.pub && b.value.alg == a.value.alg
      && b.value.depositor == a.value.depositor
      && (|a.value.sig| > 0 ==> b.value.sig == a.value.sig)
  }

  ghost predicate Grows(s: Slots, t: Slots) { SlotGrows(s.f1, t.f1) && SlotGrows(s.f2, t.f2) }

  ghost predicate StoreGrows(a: Store, b: Store) {
    forall id :: id in a ==> id in b && Grows(a[id], b[id])
  }

  /** The slot that carries the deposit's key belongs to its depositor and has its signature. */
  ghost predicate Kept(s: Slots, f: Flower) {
    exists slot :: slot in {s.f1, s.f2} && HoldsPub(slot, f.pub) &&
      slot.value.depositor == f.depositor && (|f.sig| > 0 ==> slot.value.sig == f.sig)
  }

  lemma AddKeeps(s: Slots, f: Flower)
    requires s == EMPTY || Owned(s)
    requires Parses(f) && f.depositor != "" && AddFlower(s, f).Added?
    ensures var t := AddFlower(s, f).slots; Owned(t) && Grows(s, t) && Kept(t, f) && (t.f1 == Some(f) || t.f2 == Some(f))
  {
  }

  lemma ExecKeeps(v: Validator, store: Store, op: Op)
    requires WellOwned(store) && Received(op)
    ensures WellOwned(Exec(v, store, op).0) && StoreGrows(store, Exec(v, store, op).0)
  {
    if op.Deposit? && AddFlower(OrEmpty(Get(store, op.f.id)), op.f).Added? {
      AddKeeps(OrEmpty(Get(store, op.f.id)), op.f);
    }
  }

  lemma {:induction false} RunKeeps(v: Validator, ops: seq<Op>, i: nat)
    requires Run(ops) && i <= |ops|
    ensures WellOwned(StateAt(v, ops)) && WellOwned(StateAt(v, ops[..i]))
    ensures StoreGrows(StateAt(v, ops[..i]), StateAt(v, ops))
    decreases |ops|
  {
    if ops == [] || i == |ops| {
      assert ops[..i] == ops;
      if ops != [] {
        RunKeeps(v, ops[..|ops| - 1], |ops| - 1);
        ExecKeeps(v, StateAt(v, ops[..|ops| - 1]), ops[|ops| - 1]);
      }
    } else {
      var front := ops[..|ops| - 1];
      RunKeeps(v, front, i);
      assert front[..i] == ops[..i];
      ExecKeeps(v, StateAt(v, front), ops[|ops| - 1]);
    }
  }

  // ---- no accepted flower is lost ----

  predicate AcceptedReply(r: Reply) { r.Pending? || r.Released? || r.ValidationFailed? }

  lemma NoFlowerLost(v: Validator, ops: seq<Op>, i: nat)
    requires Run(ops) && i < |ops| && ops[i].Deposit? && AcceptedReply(ReplyAt(v, ops, i))
    ensures var f := ops[i].f; f.id in StateAt(v, ops) && Kept(StateAt(v, ops)[f.id], f)
  {
    var f := ops[i].f;
    var before, after := StateAt(v, ops[..i]), StateAt(v, ops[..i + 1]);
    assert ops[..i + 1][..i] == ops[..i];
    RunKeeps(v, ops, i);
    AddKeeps(OrEmpty(Get(before, f.id)), f);
    RunKeeps(v, ops, i + 1);
    var s, t := after[f.id], StateAt(v, ops)[f.id];
    assert Grows(s, t);
    var slot := if s.f1 == Some(f) then t.f1 else t.f2;
    assert slot in {t.f1, t.f2} && HoldsPub(slot, f.pub);
  }

  // ---- one signature per key, one receiver per key ----

  function OpId(op: Op): string { if op.Deposit? then op.f.id else op.id }
  function OpPub(op: Op): seq<byte> { if op.Deposit? then op.f.pub else op.pub }
  function OpCaller(op: Op): string { if op.Deposit? then op.f.depositor else op.caller }

  predicate Releases(r: Reply) { r.Released? && r.sig != [] }

  /** The slot of `pub` belongs to `caller` and the opposite slot holds `sig`. */
  ghost predicate Opposite(s: Slots, pub: seq<byte>, caller: string, sig: seq<byte>) {
    && s.f1.Some? && s.f2.Some?
    && ((s.f1.value.pub == pub && s.f1.value.depositor == caller && s.f2.value.sig == sig) ||
        (s.f2.value.pub == pub && s.f2.value.depositor == caller && s.f1.value.sig == sig))
  }

  lemma ReleaseIsOpposite(v: Validator, store: Store, op: Op)
    requires WellOwned(store) && Received(op)
    requires Releases(Exec(v, store, op).1)
    ensures var (t, r) := Exec(v, store, op);
            OpId(op) in t && Complete(v, t[OpId(op)]) && Opposite(t[OpId(op)], OpPub(op), OpCaller(op), r.sig)
  {
    if op.Deposit? {
      AddKeeps(OrEmpty(Get(store, op.f.id)), op.f);
    }
  }

  lemma OppositeGrows(s: Slots, t: Slots, pub: seq<byte>, caller: string, sig: seq<byte>)
    requires Grows(s, t) && Opposite(s, pub, caller, sig) && sig != []
    ensures Opposite(t, pub, caller, sig)
  {
  }

  lemma ReleaseAtStep(v: Validator, ops: seq<Op>, i: nat)
    requires Run(ops) && i < |ops| && Releases(ReplyAt(v, ops, i))
    ensures var t := StateAt(v, ops[..i + 1]);
            OpId(ops[i]) in t && Complete(v, t[OpId(ops[i])]) &&
            Opposite(t[OpId(ops[i])], OpPub(ops[i]), OpCaller(ops[i]), ReplyAt(v, ops, i).sig)
  {
    RunKeeps(v, ops, i);
    ReleaseIsOpposite(v, StateAt(v, ops[..i]), ops[i]);
    assert ops[..i + 1][..i] == ops[..i];
    assert StateAt(v, ops[..i + 1]) == Exec(v, StateAt(v, ops[..i]), ops[i]).0;
  }

  /** Every release of a run can be read off its final store. */
  lemma ReleaseInFinalStore(v: Validator, ops: seq<Op>, i: nat)
    requires Run(ops) && i < |ops| && Releases(ReplyAt(v, ops, i))
    ensures OpId(ops[i]) in StateAt(v, ops)
    ensures Owned(StateAt(v, ops)[OpId(ops[i])])
    ensures Opposite(StateAt(v, ops)[OpId(ops[i])], OpPub(ops[i]), OpCaller(ops[i]), ReplyAt(v, ops, i).sig)
  {
    var id := OpId(ops[i]);
    ReleaseAtStep(v, ops, i);
    RunKeeps(v, ops, i + 1);
    OppositeGrows(StateAt(v, ops[..i + 1])[id], StateAt(v, ops)[id], OpPub(ops[i]), OpCaller(ops[i]), ReplyAt(v, ops, i).sig);
  }

  /** Over a whole run, one (id, pub) yields one signature, and yields it to one caller. */
  lemma OneSignatureOneReceiver(v: Validator, ops: seq<Op>, i: nat, j: nat)
    requires Run(ops) && i < |ops| && j < |ops|
    requires Releases(ReplyAt(v, ops, i)) && Releases(ReplyAt(v, ops, j))
    requires OpId(ops[i]) == OpId(ops[j]) && OpPub(ops[i]) == OpPub(ops[j])
    ensures ReplyAt(v, ops, i).sig == ReplyAt(v, ops, j).sig
    ensures OpCaller(ops[i]) == OpCaller(ops[j])
  {
    ReleaseInFinalStore(v, ops, i);
    ReleaseInFinalStore(v, ops, j);
  }

  // ---- where stored flowers come from ----

  ghost predicate AcceptedDeposit(v: Validator, ops: seq<Op>, j: nat) {
    j < |ops| && ops[j].Deposit? && AcceptedReply(ReplyAt(v, ops, j))
  }

  /** The flower was deposited, and accepted, in the run. */
  ghost predicate Deposited(v: Validator, ops: seq<Op>, f: Flower) {
    exists j: nat :: AcceptedDeposit(v, ops, j) && ops[j].f == f
  }

  lemma AcceptedEarlier(v: Validator, past: seq<Op>, more: seq<Op>, j: nat)
    requires AcceptedDeposit(v, past, j)
    ensures AcceptedDeposit(v, past + more, j) && (past + more)[j] == past[j]
  {
    ReplyOfPrefix(v, past, more, j);
  }

  lemma FindDeposit(v: Validator, ops: seq<Op>, n: nat, f: Flower) returns (j: nat)
    requires n <= |ops| && Deposited(v, ops[..n], f)
    ensures j < n && AcceptedDeposit(v, ops, j) && ops[j].f == f
  {
    var past, more := ops[..n], ops[n..];
    j :| AcceptedDeposit(v, past, j) && past[j].f == f;
    AcceptedEarlier(v, past, more, j);
    assert past + more == ops;
  }

  lemma IsDeposited(v: Validator, ops: seq<Op>, j: nat)
    requires AcceptedDeposit(v, ops, j)
    ensures Deposited(v, ops, ops[j].f)
  {
  }

  predicate HoldsUnder(store: Store, id: string, f: Flower) {
    id in store && (store[id].f1 == Some(f) || store[id].f2 == Some(f))
  }

  lemma NewlyHeld(v: Validator, store: Store, op: Op, id: string, f: Flower)
    requires HoldsUnder(Exec(v, store, op).0, id, f) && !HoldsUnder(store, id, f)
    ensures op.Deposit? && op.f == f && f.id == id && AcceptedReply(Exec(v, store, op).1)
  {
  }

  /** Every flower in the store was deposited under that id and accepted. */
  lemma {:induction false} StoredWasDeposited(v: Validator, ops: seq<Op>, id: string, f: Flower)
    requires HoldsUnder(StateAt(v, ops), id, f)
    ensures f.id == id && Deposited(v, ops, f)
    decreases |ops|
  {
    var n := |ops| - 1;
    var front, op := ops[..n], ops[n];
    if HoldsUnder(StateAt(v, front), id, f) {
      StoredWasDeposited(v, front, id, f);
      var j := FindDeposit(v, ops, n, f);
      IsDeposited(v, ops, j);
    } else {
      NewlyHeld(v, StateAt(v, front), op, id, f);
      IsDeposited(v, ops, n);
    }
  }

  /**
   * Every release has its two deposits: the receiver itself deposited, under that id and key, a flower
   * the released signature validates for, and the other party deposited the signature.
   */
  lemma ReleaseHasItsDeposits(v: Validator, ops: seq<Op>, i: nat)
    requires Run(ops) && i < |ops| && Releases(ReplyAt(v, ops, i))
    ensures exists own: Flower, other: Flower :: ReleasePair(v, ops, i, own, other)
  {
    ReleaseAtStep(v, ops, i);
    var id := OpId(ops[i]);
    var s := StateAt(v, ops[..i + 1])[id];
    assert WellOwned(StateAt(v, ops[..i + 1])) by { RunKeeps(v, ops, i + 1); }
    var (own, other) := if s.f1.value.pub == OpPub(ops[i]) then (s.f1.value, s.f2.value) else (s.f2.value, s.f1.value);
    StoredWasDeposited(v, ops[..i + 1], id, own);
    StoredWasDeposited(v, ops[..i + 1], id, other);
    assert ReleasePair(v, ops, i, own, other);
  }

  ghost predicate ReleasePair(v: Validator, ops: seq<Op>, i: nat, own: Flower, other: Flower)
    requires i < |ops| && ReplyAt(v, ops, i).Released?
  {
    && Deposited(v, ops[..i + 1], own) && Deposited(v, ops[..i + 1], other)
    && own.id == other.id == OpId(ops[i])
    && own.pub == OpPub(ops[i]) && own.depositor == OpCaller(ops[i])
    && other.pub != own.pub && other.depositor != own.depositor
    && other.sig == ReplyAt(v, ops, i).sig
    && Accepts(v, own.alg, own.pub, own.hash, other.sig)
    && Accepts(v, other.alg, other.pub, other.hash, own.sig)
  }

  /** The receiver is whoever first deposited that key under that id, and there is such a deposit. */
  lemma ReceiverIsFirstDepositor(v: Validator, ops: seq<Op>, i: nat)
    requires Run(ops) && i < |ops| && Releases(ReplyAt(v, ops, i))
    ensures exists j: nat :: j <= i && AcceptedDeposit(v, ops, j) && SameSlot(ops[i], ops[j])
    ensures forall j: nat :: AcceptedDeposit(v, ops, j) && SameSlot(ops[i], ops[j]) ==> ops[j].f.depositor == OpCaller(ops[i])
  {
    var j := ReceiverDeposited(v, ops, i);
    forall j: nat | AcceptedDeposit(v, ops, j) && SameSlot(ops[i], ops[j]) ensures ops[j].f.depositor == OpCaller(ops[i]) {
      SlotHasOneDepositor(v, ops, i, j);
    }
  }

  lemma ReceiverDeposited(v: Validator, ops: seq<Op>, i: nat) returns (j: nat)
    requires Run(ops) && i < |ops| && Releases(ReplyAt(v, ops, i))
    ensures j <= i && AcceptedDeposit(v, ops, j) && SameSlot(ops[i], ops[j])
  {
    ReleaseHasItsDeposits(v, ops, i);
    var own, other :| ReleasePair(v, ops, i, own, other);
    j := FindDeposit(v, ops, i + 1, own);
  }

  lemma SlotHasOneDepositor(v: Validator, ops: seq<Op>, i: nat, j: nat)
    requires Run(ops) && i < |ops| && Releases(ReplyAt(v, ops, i)) && AcceptedDeposit(v, ops, j) && SameSlot(ops[i], ops[j])
    ensures ops[j].f.depositor == OpCaller(ops[i])
  {
    ReleaseInFinalStore(v, ops, i);
    NoFlowerLost(v, ops, j);
  }

  predicate SameSlot(a: Op, b: Op) { OpId(a) == OpId(b) && OpPub(a) == OpPub(b) }

  /** Every accepted deposit of the flower's key under its id has the flower's hash. */
  ghost predicate HashFixed(v: Validator, ops: seq<Op>, f: Flower) {
    forall k: nat :: AcceptedDeposit(v, ops, k) && ops[k].f.id == f.id && ops[k].f.pub == f.pub ==>
      ops[k].f.hash == f.hash
  }

  lemma SettledSlot(v: Validator, ops: seq<Op>, i: nat)
    requires Run(ops) && AcceptedDeposit(v, ops, i) && ops[i].f.sig != [] && HashFixed(v, ops, ops[i].f)
    ensures HoldsUnder(StateAt(v, ops), ops[i].f.id, ops[i].f)
  {
    var f := ops[i].f;
    NoFlowerLost(v, ops, i);
    var s := StateAt(v, ops)[f.id];
    var slot :| slot in {s.f1, s.f2} && HoldsPub(slot, f.pub) && slot.value.depositor == f.depositor && slot.value.sig == f.sig;
    StoredWasDeposited(v, ops, f.id, slot.value);
    assert slot.value == f;
  }

  /** Two accepted deposits of one id, each with its hash never changed, are exactly what is stored, whoever else tried. */
  lemma SettledSlots(v: Validator, ops: seq<Op>, i: nat, j: nat)
    requires Run(ops) && AcceptedDeposit(v, ops, i) && AcceptedDeposit(v, ops, j)
    requires ops[i].f.id == ops[j].f.id && ops[i].f.pub != ops[j].f.pub
    requires ops[i].f.sig != [] && ops[j].f.sig != [] && HashFixed(v, ops, ops[i].f) && HashFixed(v, ops, ops[j].f)
    ensures var a, b := ops[i].f, ops[j].f;
            && a.id in StateAt(v, ops)
            && StateAt(v, ops)[a.id] in {Slots(Some(a), Some(b)), Slots(Some(b), Some(a))}
  {
    SettledSlot(v, ops, i);
    SettledSlot(v, ops, j);
  }

  // ---- all or nothing ----

  /** With both slots filled, the two depositors' own polls release together, each a signature valid for itself. */
  lemma AllOrNothing(v: Validator, ops: seq<Op>, id: string)
    requires Run(ops) && id in StateAt(v, ops)
    requires StateAt(v, ops)[id].f1.Some? && StateAt(v, ops)[id].f2.Some?
    ensures var s := StateAt(v, ops)[id];
            var a, b := s.f1.value, s.f2.value;
            var ra := CheckReply(v, Some(s), a.pub, a.depositor);
            var rb := CheckReply(v, Some(s), b.pub, b.depositor);
            && (ra.Released? <==> rb.Released?)
            && (ra.Released? <==> Serves(v, a, b) == Ok(true) && Serves(v, b, a) == Ok(true))
            && (ra.Released? ==> ra.sig == b.sig && rb.sig == a.sig)
            && !ra.Forbidden? && !rb.Forbidden?
  {
    RunKeeps(v, ops, 0);
  }

  /** What each released signature validates. */
  lemma ReleaseValidates(v: Validator, ops: seq<Op>, i: nat)
    requires Run(ops) && i < |ops| && Releases(ReplyAt(v, ops, i))
    ensures var t := StateAt(v, ops[..i + 1]);
            OpId(ops[i]) in t &&
            exists own :: own in {t[OpId(ops[i])].f1, t[OpId(ops[i])].f2} && HoldsPub(own, OpPub(ops[i])) &&
                          own.value.depositor == OpCaller(ops[i]) &&
                          Accepts(v, own.value.alg, own.value.pub, own.value.hash, ReplyAt(v, ops, i).sig)
  {
    ReleaseAtStep(v, ops, i);
    var s := StateAt(v, ops[..i + 1])[OpId(ops[i])];
    var own := if s.f1.value.pub == OpPub(ops[i]) then s.f1 else s.f2;
    assert own in {s.f1, s.f2} && HoldsPub(own, OpPub(ops[i]));
  }

  /** A poll with a key that is in neither slot learns that the exchange is complete, but gets no signature. */
  lemma StrangerPollIsEmpty(v: Validator, s: Slots, pub: seq<byte>, caller: string)
    requires Owned(s) && s.f2.Some? && RejectsEmpty(v) && Complete(v, s)
    ensures CheckReply(v, Some(s), pub, caller) == Released([]) <==>
            s.f1.value.pub != pub && s.f2.value.pub != pub
  {
    var a, b := s.f1.value, s.f2.value;
    assert Accepts(v, a.alg, a.pub, a.hash, b.sig) && Accepts(v, b.alg, b.pub, b.hash, a.sig);
  }

  // ---- completion over time ----

  /** The deposit agrees with the slot of its key on the hash. */
  predicate SameHash(s: Slots, f: Flower) {
    && (HoldsPub(s.f1, f.pub) ==> s.f1.value.hash == f.hash)
    && (HoldsPub(s.f2, f.pub) ==> s.f2.value.hash == f.hash)
  }

  /** The flower opposite to the slot of `pub`. */
  function Partner(s: Slots, pub: seq<byte>): Flower
    requires s.f1.Some? && s.f2.Some?
  {
    if s.f1.value.pub == pub then s.f2.value else s.f1.value
  }

  /**
   * A completed exchange only takes re-posts, and a re-post keeps it complete exactly when the
   * partner's stored signature still serves the re-posted flower: the hash is not frozen.
   */
  lemma CompleteAfterRepost(v: Validator, s: Slots, f: Flower)
    requires Owned(s) && Complete(v, s) && RejectsEmpty(v)
    requires Parses(f) && f.depositor != "" && AddFlower(s, f).Added?
    ensures HoldsPub(s.f1, f.pub) || HoldsPub(s.f2, f.pub)
    ensures Complete(v, AddFlower(s, f).slots) <==> Serves(v, f, Partner(s, f.pub)) == Ok(true)
    ensures SameHash(s, f) ==> Complete(v, AddFlower(s, f).slots)
  {
    var a, b := s.f1.value, s.f2.value;
    assert Accepts(v, a.alg, a.pub, a.hash, b.sig) && Accepts(v, b.alg, b.pub, b.hash, a.sig);
  }

  /** No accepted deposit of `ops` changes the hash of a filled slot of `id`. */
  ghost predicate KeepsHashes(v: Validator, before: seq<Op>, ops: seq<Op>, id: string) {
    forall k :: 0 <= k < |ops| && ops[k].Deposit? && ops[k].f.id == id ==>
      var store := StateAt(v, before + ops[..k]);
      AcceptedReply(Exec(v, store, ops[k]).1) ==> SameHash(OrEmpty(Get(store, id)), ops[k].f)
  }

  lemma CompleteStep(v: Validator, store: Store, op: Op, id: string)
    requires RejectsEmpty(v) && WellOwned(store) && Received(op) && id in store && Complete(v, store[id])
    requires op.Deposit? && op.f.id == id && AcceptedReply(Exec(v, store, op).1) ==> SameHash(store[id], op.f)
    ensures id in Exec(v, store, op).0 && Complete(v, Exec(v, store, op).0[id])
  {
    if op.Deposit? && op.f.id == id && AcceptedReply(Exec(v, store, op).1) {
      CompleteAfterRepost(v, store[id], op.f);
    }
  }

  lemma RunSplits(v: Validator, before: seq<Op>, ops: seq<Op>)
    requires ops != [] && Run(before + ops)
    ensures var front, op := ops[..|ops| - 1], ops[|ops| - 1];
            && before + ops == (before + front) + [op] && Run(before + front) && Received(op)
            && StateAt(v, before + ops) == Exec(v, StateAt(v, before + front), op).0
  {
    var front, op := ops[..|ops| - 1], ops[|ops| - 1];
    var all := before + ops;
    assert all == (before + front) + [op];
    assert all[..|all| - 1] == before + front && all[|all| - 1] == op;
    forall k | 0 <= k < |before + front| ensures Received((before + front)[k]) {
      assert all[k] == (before + front)[k];
    }
  }

  /** Once complete, an exchange stays complete along every run whose accepted deposits keep the hashes. */
  lemma {:induction false} CompleteStays(v: Validator, before: seq<Op>, ops: seq<Op>, id: string)
    requires RejectsEmpty(v) && Run(before + ops)
    requires id in StateAt(v, before) && Complete(v, StateAt(v, before)[id])
    requires KeepsHashes(v, before, ops, id)
    ensures id in StateAt(v, before + ops) && Complete(v, StateAt(v, before + ops)[id])
    decreases |ops|
  {
    if ops == [] {
      assert before + ops == before;
    } else {
      var n := |ops| - 1;
      var front := ops[..n];
      RunSplits(v, before, ops);
      forall k | 0 <= k < n ensures front[..k] == ops[..k] && front[k] == ops[k] {}
      CompleteStays(v, before, front, id);
      RunKeeps(v, before + front, 0);
      CompleteStep(v, StateAt(v, before + front), ops[n], id);
    }
  }

  // ---- confluence ----

  /** A sequence of the two parties' fixed deposits. */
  function Deposits(a: Flower, b: Flower, turns: seq<bool>): seq<Op> {
    seq(|turns|, i requires 0 <= i < |turns| => Deposit(if turns[i] then a else b, NoFault))
  }

  /** The slots after some turns: first come, first slot. */
  function SlotsAfter(a: Flower, b: Flower, turns: seq<bool>): Slots {
    if turns == [] then EMPTY
    else
      var (first, second) := if turns[0] then (a, b) else (b, a);
      Slots(Some(first), if !turns[0] in turns then Some(second) else None)
  }

  lemma TurnIsAdded(a: Flower, b: Flower, front: seq<bool>, last: bool)
    requires a.pub != b.pub && a.depositor != b.depositor && a.depositor != "" && b.depositor != ""
    ensures AddFlower(SlotsAfter(a, b, front), if last then a else b) == Added(SlotsAfter(a, b, front + [last]))
  {
  }

  lemma TurnIsTaken(v: Validator, a: Flower, b: Flower, front: seq<bool>, last: bool)
    requires a.id == b.id && a.pub != b.pub && a.depositor != b.depositor && a.depositor != "" && b.depositor != ""
    ensures var store := if front == [] then map[] else map[a.id := SlotsAfter(a, b, front)];
            var (t, r) := Exec(v, store, Deposit(if last then a else b, NoFault));
            t == map[a.id := SlotsAfter(a, b, front + [last])] && AcceptedReply(r)
  {
    TurnIsAdded(a, b, front, last);
  }

  /**
   * Whatever the order and the repetitions of A's and B's deposits, every one is accepted and the
   * store depends only on who came first and on whether both came.
   */
  lemma {:induction false} DepositsConfluent(v: Validator, a: Flower, b: Flower, turns: seq<bool>)
    requires a.id == b.id && a.pub != b.pub && a.depositor != b.depositor && a.depositor != "" && b.depositor != ""
    ensures StateAt(v, Deposits(a, b, turns)) == if turns == [] then map[] else map[a.id := SlotsAfter(a, b, turns)]
    ensures forall i :: 0 <= i < |turns| ==> AcceptedReply(ReplyAt(v, Deposits(a, b, turns), i))
  {
    if turns != [] {
      var ops := Deposits(a, b, turns);
      var front := turns[..|turns| - 1];
      var last := turns[|turns| - 1];
      DepositsConfluent(v, a, b, front);
      assert ops[..|ops| - 1] == Deposits(a, b, front);
      assert turns == front + [last];
      TurnIsTaken(v, a, b, front, last);
      assert ops == Deposits(a, b, front) + [ops[|ops| - 1]];
      forall i | 0 <= i < |front| ensures AcceptedReply(ReplyAt(v, ops, i)) {
        ReplyOfPrefix(v, Deposits(a, b, front), [ops[|ops| - 1]], i);
      }
    }
  }

  /** Two such sequences that contain both parties end alike up to the slot order, and complete alike. */
  lemma ConfluentOutcome(v: Validator, a: Flower, b: Flower, turns: seq<bool>)
    requires a.id == b.id && a.pub != b.pub && a.depositor != b.depositor && a.depositor != "" && b.depositor != ""
    requires true in turns && false in turns
    ensures var s := StateAt(v, Deposits(a, b, turns));
            a.id in s && (s[a.id] == Slots(Some(a), Some(b)) || s[a.id] == Slots(Some(b), Some(a))) &&
            (Complete(v, s[a.id]) <==> Serves(v, a, b) == Ok(true) && Serves(v, b, a) == Ok(true))
  {
    DepositsConfluent(v, a, b, turns);
  }
}
