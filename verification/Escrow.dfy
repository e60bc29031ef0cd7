/** server/escrow.go: two-party signature exchange ("pollination"). */
module Escrow {
  import opened Wrappers
  import opened Bytes
  import opened Validation

  datatype Flower = Flower(id: string, alg: Alg, pub: seq<byte>, hash: seq<byte>, sig: seq<byte>, depositor: string)

  const MAX_ID_LEN := 128

  /** parseEscrowRequest: what a request has to satisfy before it becomes a flower. */
  predicate Parses(f: Flower) {
    0 < |f.id| <= MAX_ID_LEN && ValidPub(f.alg, f.pub) && |f.hash| == HASH_LEN && |f.sig| <= MAX_SIG_LEN
  }

  datatype Slots = Slots(f1: Option<Flower>, f2: Option<Flower>)

  const EMPTY := Slots(None, None)

  datatype Refusal = OtherParticipant | OtherSignature | BothSlots | Full

  datatype Added = Added(slots: Slots) | Refused(why: Refusal)

  /** What one occupied slot with the deposit's key says: refuse, or take the deposit. */
  function Overwrite(ex: Flower, f: Flower): Option<Refusal> {
    if ex.depositor != "" && ex.depositor != f.depositor then Some(OtherParticipant)
    else if |ex.sig| > 0 && ex.sig != f.sig then Some(OtherSignature)
    else None
  }

  predicate HoldsPub(slot: Option<Flower>, pub: seq<byte>) {
    slot.Some? && slot.value.pub == pub
  }

  /** addFlower on values. */
  function AddFlower(s: Slots, f: Flower): Added {
    if HoldsPub(s.f1, f.pub) then
      match Overwrite(s.f1.value, f) case Some(why) => Refused(why) case None => Added(s.(f1 := Some(f)))
    else if HoldsPub(s.f2, f.pub) then
      match Overwrite(s.f2.value, f) case Some(why) => Refused(why) case None => Added(s.(f2 := Some(f)))
    else
      var other := if s.f1.None? then s.f2 else s.f1;
      if other.Some? && other.value.depositor != "" && other.value.depositor == f.depositor then Refused(BothSlots)
      else if s.f1.None? then Added(s.(f1 := Some(f)))
      else if s.f2.None? then Added(s.(f2 := Some(f)))
      else Refused(Full)
  }

  /** One flower is served by the other's signature. */
  function Serves(v: Validator, f: Flower, other: Flower): Result<bool> {
    v(f.alg, f.pub, f.hash, other.sig)
  }

  /** pollinate on values. */
  function Pollinate(v: Validator, s: Slots): Result<bool> {
    if s.f1.None? || s.f2.None? then Ok(false)
    else match Serves(v, s.f1.value, s.f2.value)
      case Err => Err
      case Ok(a) => match Serves(v, s.f2.value, s.f1.value)
        case Err => Err
        case Ok(b) => Ok(a && b)
  }

  predicate Complete(v: Validator, s: Slots) { Pollinate(v, s) == Ok(true) }

  /** The signature of the slot opposite to `pub`; empty if no slot holds `pub`. */
  function TheirSig(s: Slots, pub: seq<byte>): seq<byte>
    requires s.f1.Some? && s.f2.Some?
  {
    if s.f1.value.pub == pub then s.f2.value.sig
    else if s.f2.value.pub == pub then s.f1.value.sig
    else []
  }

  // ---- the object the handlers work on ----

  class Pollination {
    var flower1: Option<Flower>
    var flower2: Option<Flower>

    constructor (s: Slots)
      ensures Value() == s
    {
      flower1, flower2 := s.f1, s.f2;
    }

    function Value(): Slots
      reads this
    {
      Slots(flower1, flower2)
    }

    /** The scan over the two slots, then the free-slot rule. */
    method Add(f: Flower) returns (r: Option<Refusal>)
      modifies this
      ensures match old(AddFlower(Value(), f))
              case Added(s) => r == None && Value() == s
              case Refused(why) => r == Some(why) && Value() == old(Value())
    {
      var k := 0;
      while k < 2
        invariant 0 <= k <= 2
        invariant Value() == old(Value())
        invariant k > 0 ==> !HoldsPub(flower1, f.pub)
        invariant k > 1 ==> !HoldsPub(flower2, f.pub)
      {
        var ex := if k == 0 then flower1 else flower2;
        if ex.Some? && ex.value.pub == f.pub {
          r := Overwrite(ex.value, f);
          if r.None? {
            if k == 0 { flower1 := Some(f); } else { flower2 := Some(f); }
          }
          return;
        }
        k := k + 1;
      }
      var other := flower1;
      if other.None? {
        other := flower2;
      }
      if other.Some? && other.value.depositor != "" && other.value.depositor == f.depositor {
        return Some(BothSlots);
      }
      if flower1.None? {
        flower1 := Some(f);
      } else if flower2.None? {
        flower2 := Some(f);
      } else {
        return Some(Full);
      }
      r := None;
    }
  }

  // ---- the two handlers ----

  type Store = map<string, Slots>

  /** Where a storage failure strikes a handler, if anywhere. A failed write changes nothing. */
  datatype Fault = NoFault | GetFails | PutFails

  datatype Op = Deposit(f: Flower, fault: Fault) | Check(id: string, pub: seq<byte>, caller: string, fault: Fault)

  datatype Reply = Pending | Released(sig: seq<byte>) | Conflict(why: Refusal) | Forbidden | ValidationFailed | StorageError

  function Get(store: Store, id: string): Option<Slots> {
    if id in store then Some(store[id]) else None
  }

  function OrEmpty(p: Option<Slots>): Slots {
    if p.Some? then p.value else EMPTY
  }

  /** The reply to a deposit whose slots have been written. */
  function DepositReply(v: Validator, wasEmpty: bool, s: Slots, pub: seq<byte>): Reply {
    if wasEmpty then Pending
    else match Pollinate(v, s)
      case Err => ValidationFailed
      case Ok(done) => if done then Released(TheirSig(s, pub)) else Pending
  }

  function DepositExec(v: Validator, store: Store, f: Flower, fault: Fault): (Store, Reply) {
    if fault == GetFails then (store, StorageError)
    else match AddFlower(OrEmpty(Get(store, f.id)), f)
      case Refused(why) => (store, Conflict(why))
      case Added(s) =>
        if fault == PutFails then (store, StorageError)
        else (store[f.id := s], DepositReply(v, f.id !in store, s, f.pub))
  }

  predicate SomeoneElses(slot: Flower, pub: seq<byte>, caller: string) {
    slot.pub == pub && slot.depositor != "" && slot.depositor != caller
  }

  function CheckReply(v: Validator, p: Option<Slots>, pub: seq<byte>, caller: string): Reply {
    if p.None? || p.value.f1.None? || p.value.f2.None? then Pending
    else if SomeoneElses(p.value.f1.value, pub, caller) || SomeoneElses(p.value.f2.value, pub, caller) then Forbidden
    else if Complete(v, p.value) then Released(TheirSig(p.value, pub))
    else Pending
  }

  function Exec(v: Validator, store: Store, op: Op): (Store, Reply) {
    match op
    case Deposit(f, fault) => DepositExec(v, store, f, fault)
    case Check(id, pub, caller, fault) =>
      (store, if fault == GetFails then StorageError else CheckReply(v, Get(store, id), pub, caller))
  }

  class Server {
    var stor: Store
    const validate: Validator

    constructor (v: Validator)
      ensures stor == map[] && validate == v
    {
      stor, validate := map[], v;
    }

    method Escrow(f: Flower, fault: Fault) returns (reply: Reply)
      modifies this
      ensures (stor, reply) == old(Exec(validate, stor, Deposit(f, fault)))
    {
      if fault == GetFails {
        return StorageError;
      }
      var loaded := Get(stor, f.id);
      var p := new Pollination(OrEmpty(loaded));
      var refusal := p.Add(f);
      if refusal.Some? {
        return Conflict(refusal.value);
      }
      if fault == PutFails {
        return StorageError;
      }
      stor := stor[f.id := p.Value()];
      if loaded.None? {
        return Pending;
      }
      match Pollinate(validate, p.Value()) {
        case Err => return ValidationFailed;
        case Ok(pollinated) =>
          if !pollinated {
            return Pending;
          }
          var theirSig: seq<byte> := [];
          if p.flower1.value.pub == f.pub {
            theirSig := p.flower2.value.sig;
          } else if p.flower2.value.pub == f.pub {
            theirSig := p.flower1.value.sig;
          }
          return Released(theirSig);
      }
    }

    /** Reads the store once and never writes it. */
    method EscrowCheck(id: string, pub: seq<byte>, caller: string, fault: Fault) returns (reply: Reply)
      ensures reply == Exec(validate, stor, Check(id, pub, caller, fault)).1
    {
      if fault == GetFails {
        return StorageError;
      }
      var p := Get(stor, id);
      if p.None? || p.value.f1.None? || p.value.f2.None? {
        return Pending;
      }
      var flowers := [p.value.f1.value, p.value.f2.value];
      for k := 0 to 2
        invariant forall j :: 0 <= j < k ==> !SomeoneElses(flowers[j], pub, caller)
      {
        if SomeoneElses(flowers[k], pub, caller) {
          return Forbidden;
        }
      }
      assert !SomeoneElses(flowers[0], pub, caller) && !SomeoneElses(flowers[1], pub, caller);
      if Pollinate(validate, p.value) != Ok(true) {
        return Pending;
      }
      var theirSig: seq<byte> := [];
      if flowers[0].pub == pub {
        theirSig := flowers[1].sig;
      } else if flowers[1].pub == pub {
        theirSig := flowers[0].sig;
      }
      return Released(theirSig);
    }
  }
}
