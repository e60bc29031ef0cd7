/** server/pairing.go: pairs of addresses, with an index by address. */
module Pairing {
  import opened Wrappers
  import opened Strings
  import opened Index

  datatype Status = Pending | Accepted

  datatype Pair = Pair(id: string, initiator: string, partner: string, status: Status, createdAt: int)

  datatype Store = Store(pairs: map<string, Pair>, byAddr: Indexes)

  const EMPTY := Store(map[], map[])

  function Normal(a: string): string { Lower(Trim0x(a)) }

  function PairID(a: string, b: string): string {
    var x, y := Normal(a), Normal(b);
    if Less(x, y) then x + "_" + y else y + "_" + x
  }

  predicate Contains(p: Pair, addr: string) { EqualFold(p.initiator, addr) || EqualFold(p.partner, addr) }

  // ---- handlers as sequences of storage writes ----

  datatype Write = PutPair(p: Pair) | AddId(addr: string, id: string) | RemoveId(addr: string, id: string) | DropPair(id: string)

  function Apply(s: Store, w: Write): Store {
    match w
    case PutPair(p) => s.(pairs := s.pairs[p.id := p])
    case AddId(addr, id) => s.(byAddr := Add(s.byAddr, addr, id))
    case RemoveId(addr, id) => s.(byAddr := Remove(s.byAddr, addr, id))
    case DropPair(id) => s.(pairs := s.pairs - {id})
  }

  function ApplyAll(s: Store, ws: seq<Write>): Store
    decreases |ws|
  {
    if ws == [] then s else Apply(ApplyAll(s, ws[..|ws| - 1]), ws[|ws| - 1])
  }

  datatype Call =
    | Create(caller: string, partner: string, now: int)
    | Accept(id: string, caller: string)
    | Delete(id: string, caller: string)

  function StoreWrites(p: Pair): seq<Write> {
    [PutPair(p), AddId(Lower(p.initiator), p.id), AddId(Lower(p.partner), p.id)]
  }

  function DeleteWrites(p: Pair): seq<Write> {
    [RemoveId(Lower(p.initiator), p.id), RemoveId(Lower(p.partner), p.id), DropPair(p.id)]
  }

  function NewPair(c: Call): Pair
    requires c.Create?
  {
    Pair(PairID(c.caller, Lower(c.partner)), c.caller, Lower(c.partner), Pending, c.now)
  }

  /** The writes a handler issues on a store, in order; a refused or idempotent call issues none. */
  function Writes(s: Store, c: Call): seq<Write> {
    match c
    case Create(caller, partner, _) =>
      if partner == "" || EqualFold(caller, Lower(partner)) || NewPair(c).id in s.pairs then []
      else StoreWrites(NewPair(c))
    case Accept(id, caller) =>
      if id == "" || id !in s.pairs || !EqualFold(s.pairs[id].partner, caller) || s.pairs[id].status == Accepted then []
      else [PutPair(s.pairs[id].(status := Accepted))]
    case Delete(id, caller) =>
      if id == "" || id !in s.pairs || !Contains(s.pairs[id], caller) then [] else DeleteWrites(s.pairs[id])
  }

  /** A call that stops after `stop` of its writes. */
  function Exec(s: Store, c: Call, stop: nat): Store {
    var ws := Writes(s, c);
    ApplyAll(s, if stop < |ws| then ws[..stop] else ws)
  }

  function Whole(s: Store, c: Call): Store { ApplyAll(s, Writes(s, c)) }

  /** pairPending: the indexed pairs that have a record, split by the caller's role. */
  function Listed(s: Store, ids: Ids, addr: string, incoming: bool): (r: seq<Pair>)
    ensures forall p :: p in r <==> exists i :: 0 <= i < |ids| && ids[i] in s.pairs && p == s.pairs[ids[i]] && EqualFold(p.partner, addr) == incoming
  {
    if ids == [] then []
    else
      Listed(s, ids[..|ids| - 1], addr, incoming) + ListedOne(s, ids[|ids| - 1], addr, incoming)
  }

  function ListedOne(s: Store, id: string, addr: string, incoming: bool): seq<Pair> {
    if id in s.pairs && EqualFold(s.pairs[id].partner, addr) == incoming then [s.pairs[id]] else []
  }

  // ---- the server's side ----

  class PairServer {
    var stor: Store

    constructor ()
      ensures stor == EMPTY
    {
      stor := EMPTY;
    }

    method StorePair(p: Pair)
      modifies this
      ensures stor == ApplyAll(old(stor), StoreWrites(p))
    {
      var s := stor;
      stor := stor.(pairs := stor.pairs[p.id := p]);
      var ix := AddToIndex(stor.byAddr, Lower(p.initiator), p.id);
      stor := stor.(byAddr := ix);
      ix := AddToIndex(stor.byAddr, Lower(p.partner), p.id);
      stor := stor.(byAddr := ix);
      assert ApplyAll(s, StoreWrites(p)) == Apply(Apply(Apply(s, StoreWrites(p)[0]), StoreWrites(p)[1]), StoreWrites(p)[2]) by {
        Three(s, StoreWrites(p));
      }
    }

    method DeletePair(p: Pair)
      modifies this
      ensures stor == ApplyAll(old(stor), DeleteWrites(p))
    {
      var s := stor;
      var ix := RemoveFromIndex(stor.byAddr, Lower(p.initiator), p.id);
      stor := stor.(byAddr := ix);
      ix := RemoveFromIndex(stor.byAddr, Lower(p.partner), p.id);
      stor := stor.(byAddr := ix);
      stor := stor.(pairs := stor.pairs - {p.id});
      Three(s, DeleteWrites(p));
    }

    method PairCreate(caller: string, partner: string, now: int) returns (r: Result<Pair>)
      modifies this
      ensures stor == Whole(old(stor), Create(caller, partner, now))
      ensures r.Ok? <==> partner != "" && !EqualFold(caller, Lower(partner))
      ensures r.Ok? ==> var id := PairID(caller, Lower(partner)); id in stor.pairs && r.value == stor.pairs[id]
    {
      if partner == "" || EqualFold(caller, Lower(partner)) {
        return Err;
      }
      var p := Pair(PairID(caller, Lower(partner)), caller, Lower(partner), Pending, now);
      if p.id in stor.pairs {
        return Ok(stor.pairs[p.id]);
      }
      Three(stor, StoreWrites(p));
      StorePair(p);
      return Ok(p);
    }

    method PairAccept(id: string, caller: string) returns (r: Result<Pair>)
      modifies this
      ensures stor == Whole(old(stor), Accept(id, caller))
      ensures r.Ok? <==> id != "" && id in old(stor.pairs) && EqualFold(old(stor.pairs[id]).partner, caller)
      ensures r.Ok? ==> r.value == old(stor.pairs[id]).(status := Accepted)
    {
      if id == "" || id !in stor.pairs {
        return Err;
      }
      var p := stor.pairs[id];
      if !EqualFold(p.partner, caller) {
        return Err;
      }
      if p.status == Accepted {
        return Ok(p);
      }
      p := p.(status := Accepted);
      stor := stor.(pairs := stor.pairs[p.id := p]);
      One(old(stor), PutPair(p));
      return Ok(p);
    }

    method PairDelete(id: string, caller: string) returns (ok: bool)
      modifies this
      ensures stor == Whole(old(stor), Delete(id, caller))
      ensures ok <==> id != "" && (id in old(stor.pairs) ==> Contains(old(stor.pairs[id]), caller))
    {
      if id == "" {
        return false;
      }
      if id !in stor.pairs {
        return true;
      }
      var p := stor.pairs[id];
      if !EqualFold(p.initiator, caller) && !EqualFold(p.partner, caller) {
        return false;
      }
      DeletePair(p);
      return true;
    }

    method PairPending(caller: string) returns (incoming: seq<Pair>, outgoing: seq<Pair>)
      ensures incoming == Listed(stor, Lookup(stor.byAddr, Lower(caller)), caller, true)
      ensures outgoing == Listed(stor, Lookup(stor.byAddr, Lower(caller)), caller, false)
    {
      var ids := Lookup(stor.byAddr, Lower(caller));
      incoming, outgoing := [], [];
      for i := 0 to |ids|
        invariant incoming == Listed(stor, ids[..i], caller, true)
        invariant outgoing == Listed(stor, ids[..i], caller, false)
      {
        ListedNext(stor, ids, i, caller, true);
        ListedNext(stor, ids, i, caller, false);
        if ids[i] in stor.pairs {
          var p := stor.pairs[ids[i]];
          if EqualFold(p.partner, caller) {
            incoming := incoming + [p];
          } else {
            outgoing := outgoing + [p];
          }
        }
      }
      assert ids == ids[..|ids|];
    }
  }

  lemma ListedNext(s: Store, ids: Ids, i: nat, caller: string, incoming: bool)
    requires i < |ids|
    ensures Listed(s, ids[..i + 1], caller, incoming) == Listed(s, ids[..i], caller, incoming) + ListedOne(s, ids[i], caller, incoming)
  {
    assert ids[..i + 1][..i] == ids[..i];
  }

  lemma One(s: Store, w: Write)
    ensures ApplyAll(s, [w]) == Apply(s, w)
  {
    assert [w][..0] == [];
    assert ApplyAll(s, []) == s;
  }

  lemma Three(s: Store, ws: seq<Write>)
    requires |ws| == 3
    ensures ApplyAll(s, ws) == Apply(Apply(Apply(s, ws[0]), ws[1]), ws[2])
    ensures ApplyAll(s, ws[..0]) == s
    ensures ApplyAll(s, ws[..1]) == Apply(s, ws[0])
    ensures ApplyAll(s, ws[..2]) == Apply(Apply(s, ws[0]), ws[1])
  {
    assert ws[..1][..0] == [] && ws[..2][..1] == ws[..1] && ws[..3] == ws;
    assert ApplyAll(s, ws[..1]) == Apply(ApplyAll(s, []), ws[0]);
    assert ApplyAll(s, ws[..2]) == Apply(ApplyAll(s, ws[..1]), ws[1]);
  }
}
