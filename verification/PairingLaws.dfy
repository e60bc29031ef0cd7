/** Crash consistency of the pair store, and what it lists when no handler was cut short. */
module PairingLaws {
  import opened Wrappers
  import opened Strings
  import opened Index
  import opened Pairing

  // ---- ids ----

  /** A lowercase address: "0x" and a body without an underscore. */
  predicate Address(a: string) { "0x" <= a && '_' !in a && Lower(a) == a }

  lemma NormalAddress(a: string)
    requires Address(a)
    ensures a == "0x" + Normal(a) && '_' !in Normal(a)
  {
    forall i | 0 <= i < |Trim0x(a)| ensures Normal(a)[i] == a[i + 2] {
      assert Lower(a)[i + 2] == a[i + 2];
    }
  }

  /** Without underscores, two strings name the id of another two exactly when they are the same two, up to case and "0x". */
  lemma PairIDUnordered(a: string, b: string, c: string, d: string)
    requires '_' !in Normal(a) && '_' !in Normal(b)
    ensures PairID(a, b) == PairID(c, d) <==>
            (Normal(a) == Normal(c) && Normal(b) == Normal(d)) || (Normal(a) == Normal(d) && Normal(b) == Normal(c))
  {
    var x, y, z, w := Normal(a), Normal(b), Normal(c), Normal(d);
    LessTotal(x, y);
    var (p, q) := if Less(x, y) then (x, y) else (y, x);
    var (r, s) := if Less(z, w) then (z, w) else (w, z);
    if p + "_" + q == r + "_" + s {
      OneUnderscore(p, q, r, s);
    }
  }

  /** A string with one underscore splits there only. */
  lemma OneUnderscore(p: string, q: string, r: string, s: string)
    requires '_' !in p && '_' !in q && p + "_" + q == r + "_" + s
    ensures p == r && q == s
  {
    var all := p + "_" + q;
    assert (r + "_" + s)[|r|] == '_';
    forall i | 0 <= i < |all| && i != |p| ensures all[i] != '_' {
      assert all[i] == if i < |p| then p[i] else q[i - |p| - 1];
    }
    assert p == all[..|p|] && r == (r + "_" + s)[..|r|];
    assert q == all[|p| + 1..] && s == (r + "_" + s)[|r| + 1..];
  }

  /** For addresses, the id means the two addresses themselves. */
  lemma AddressPairs(a: string, b: string, c: string, d: string)
    requires Address(a) && Address(b) && Address(c) && Address(d)
    ensures PairID(a, b) == PairID(c, d) <==> {a, b} == {c, d}
  {
    NormalAddress(a);
    NormalAddress(b);
    NormalAddress(c);
    NormalAddress(d);
    PairIDUnordered(a, b, c, d);
  }

  lemma {:induction false} LessExtends(x: string, z: string, s: string, t: string)
    requires |x| == |z| && Less(x, z)
    ensures Less(x + s, z + t)
  {
    if x[0] == z[0] {
      LessExtends(x[1..], z[1..], s, t);
      assert (x + s)[1..] == x[1..] + s && (z + t)[1..] == z[1..] + t;
    }
  }

  lemma NormalPlain(w: string)
    requires Lower(w) == w
    ensures Normal("0x" + w) == w
  {
    assert ("0x" + w)[2..] == w;
  }

  lemma LowerOfJoin(x: string, z: string)
    requires Lower(x) == x && Lower(z) == z
    ensures Lower(x + "_" + z) == x + "_" + z
  {
    var w := x + "_" + z;
    forall i | 0 <= i < |w| ensures LowerChar(w[i]) == w[i] {
      if i < |x| {
        assert LowerChar(x[i]) == Lower(x)[i];
      } else if i > |x| {
        assert LowerChar(z[i - |x| - 1]) == Lower(z)[i - |x| - 1];
      }
    }
  }

  /** The id, from the two normal forms. */
  lemma PairIDOf(a: string, b: string, x: string, y: string)
    requires Normal(a) == x && Normal(b) == y && Less(x, y)
    ensures PairID(a, b) == PairID(b, a) == x + "_" + y
  {
    LessTotal(x, y);
  }

  lemma JoinedPartner(x: string, z: string)
    requires Lower(x) == x && Lower(z) == z
    ensures Normal("0x" + x + "_" + z) == x + "_" + z
  {
    LowerOfJoin(x, z);
    NormalPlain(x + "_" + z);
    assert "0x" + (x + "_" + z) == "0x" + x + "_" + z;
  }

  lemma JoinedOrder(x: string, z: string)
    requires |x| == |z| && Less(x, z)
    ensures Less(x, z + "_" + z) && Less(x + "_" + z, z)
  {
    LessExtends(x, z, "", "_" + z);
    assert x + "" == x && z + ("_" + z) == z + "_" + z;
    LessExtends(x, z, "_" + z, "");
    assert z + "" == z && x + ("_" + z) == x + "_" + z;
  }

  /** The partner is not checked. With an underscore in it, any two callers can create pairs that share an id and nothing else. */
  lemma UnderscorePairs(a: string, c: string)
    requires Address(a) && Address(c) && |a| == |c| && Less(Normal(a), Normal(c))
    ensures var x, z := Normal(a), Normal(c);
            PairID(a, "0x" + z + "_" + z) == PairID(c, "0x" + x + "_" + z)
  {
    var x, z := Normal(a), Normal(c);
    assert |x| == |z| by {
      NormalAddress(a);
      NormalAddress(c);
    }
    LowerIdempotent(Trim0x(a));
    LowerIdempotent(Trim0x(c));
    JoinedPartner(z, z);
    JoinedPartner(x, z);
    JoinedOrder(x, z);
    PairIDOf(a, "0x" + z + "_" + z, x, z + "_" + z);
    PairIDOf("0x" + x + "_" + z, c, x + "_" + z, z);
    assert x + "_" + (z + "_" + z) == (x + "_" + z) + "_" + z;
  }

  // ---- runs of calls that may stop anywhere ----

  datatype Step = Step(call: Call, stop: nat)

  function After(steps: seq<Step>): Store {
    if steps == [] then EMPTY
    else Exec(After(steps[..|steps| - 1]), steps[|steps| - 1].call, steps[|steps| - 1].stop)
  }

  /** Every indexed id has a record with that address as a member; records carry their key; lists are tidy. */
  ghost predicate Consistent(s: Store) {
    && (forall id :: id in s.pairs ==> s.pairs[id].id == id && Lower(s.pairs[id].initiator) != Lower(s.pairs[id].partner))
    && (forall a, id :: id in Lookup(s.byAddr, a) ==> id in s.pairs && Member(s.pairs[id], a))
    && Tidy(s.byAddr)
  }

  predicate Member(p: Pair, a: string) { Lower(p.initiator) == a || Lower(p.partner) == a }

  lemma PutKeepsConsistent(s: Store, p: Pair)
    requires Consistent(s) && Lower(p.initiator) != Lower(p.partner)
    requires p.id in s.pairs ==> s.pairs[p.id].initiator == p.initiator && s.pairs[p.id].partner == p.partner
    ensures Consistent(Apply(s, PutPair(p)))
  {
  }

  lemma AddKeepsConsistent(s: Store, a: string, id: string)
    requires Consistent(s) && id in s.pairs && Member(s.pairs[id], a)
    ensures Consistent(Apply(s, AddId(a, id)))
  {
    var s' := Apply(s, AddId(a, id));
    StaysTidy(s.byAddr, a, id);
    forall b, x | x in Lookup(s'.byAddr, b) ensures x in s.pairs && Member(s.pairs[x], b) {
      AddAt(s.byAddr, a, id, b, x);
    }
  }

  lemma RemoveKeepsConsistent(s: Store, a: string, id: string)
    requires Consistent(s)
    ensures Consistent(Apply(s, RemoveId(a, id)))
  {
    RemoveLooksUp(s.byAddr, a, id);
    StaysTidy(s.byAddr, a, id);
  }

  lemma DropKeepsConsistent(s: Store, id: string)
    requires Consistent(s) && forall a :: id !in Lookup(s.byAddr, a)
    ensures Consistent(Apply(s, DropPair(id)))
  {
  }

  lemma CreateKeepsConsistent(s: Store, p: Pair)
    requires Consistent(s) && p.id !in s.pairs && Lower(p.initiator) != Lower(p.partner)
    ensures forall k :: 0 <= k <= 3 ==> Consistent(ApplyAll(s, StoreWrites(p)[..k]))
  {
    var ws := StoreWrites(p);
    Three(s, ws);
    assert ws[..3] == ws;
    var s1 := Apply(s, ws[0]);
    PutKeepsConsistent(s, p);
    AddKeepsConsistent(s1, Lower(p.initiator), p.id);
    AddKeepsConsistent(Apply(s1, ws[1]), Lower(p.partner), p.id);
    forall k | 0 <= k <= 3 ensures Consistent(ApplyAll(s, ws[..k])) {
      assert k == 0 || k == 1 || k == 2 || k == 3;
    }
  }

  lemma DeleteKeepsConsistent(s: Store, p: Pair)
    requires Consistent(s) && p.id in s.pairs && s.pairs[p.id] == p
    ensures forall k :: 0 <= k <= 3 ==> Consistent(ApplyAll(s, DeleteWrites(p)[..k]))
  {
    var ws := DeleteWrites(p);
    Three(s, ws);
    assert ws[..3] == ws;
    var s1 := Apply(s, ws[0]);
    var s2 := Apply(s1, ws[1]);
    RemoveKeepsConsistent(s, Lower(p.initiator), p.id);
    RemoveKeepsConsistent(s1, Lower(p.partner), p.id);
    assert forall a :: p.id !in Lookup(s2.byAddr, a) by {
      RemoveLooksUp(s.byAddr, Lower(p.initiator), p.id);
      RemoveLooksUp(s1.byAddr, Lower(p.partner), p.id);
    }
    DropKeepsConsistent(s2, p.id);
    forall k | 0 <= k <= 3 ensures Consistent(ApplyAll(s, ws[..k])) {
      assert k == 0 || k == 1 || k == 2 || k == 3;
    }
  }

  lemma ExecKeepsConsistent(s: Store, c: Call, stop: nat)
    requires Consistent(s)
    ensures Consistent(Exec(s, c, stop))
  {
    var ws := Writes(s, c);
    if ws != [] {
      match c
      case Create(caller, partner, now) =>
        LowerIdempotent(partner);
        CreateKeepsConsistent(s, NewPair(c));
        assert Consistent(ApplyAll(s, ws[..if stop < 3 then stop else 3])) && ws[..3] == ws;
      case Accept(id, caller) =>
        assert ws[..1] == ws && ws[..0] == [];
        PutKeepsConsistent(s, ws[0].p);
        assert ApplyAll(s, ws) == Apply(ApplyAll(s, ws[..0]), ws[0]);
      case Delete(id, caller) =>
        DeleteKeepsConsistent(s, s.pairs[id]);
        assert Consistent(ApplyAll(s, ws[..if stop < 3 then stop else 3])) && ws[..3] == ws;
    }
  }

  /** Crash consistency: whatever calls ran and wherever each stopped, no index points astray. */
  lemma {:induction false} AlwaysConsistent(steps: seq<Step>)
    ensures Consistent(After(steps))
  {
    if steps != [] {
      AlwaysConsistent(steps[..|steps| - 1]);
      ExecKeepsConsistent(After(steps[..|steps| - 1]), steps[|steps| - 1].call, steps[|steps| - 1].stop);
    }
  }

  /** A delete that stopped anywhere, repeated by either member, leaves the store of an uninterrupted one. */
  lemma InterruptedDelete(steps: seq<Step>, id: string, caller: string, again: string, stop: nat)
    requires id in After(steps).pairs && Contains(After(steps).pairs[id], caller) && Contains(After(steps).pairs[id], again)
    ensures Whole(Exec(After(steps), Delete(id, caller), stop), Delete(id, again)) == Whole(After(steps), Delete(id, caller))
  {
    AlwaysConsistent(steps);
    var s := After(steps);
    if id != "" {
      var p := s.pairs[id];
      var ws := DeleteWrites(p);
      var i, q := Lower(p.initiator), Lower(p.partner);
      Three(s, ws);
      assert ws[..3] == ws;
      var s1 := Apply(s, ws[0]);
      var s2 := Apply(s1, ws[1]);
      Three(s1, ws);
      Three(s2, ws);
      RemoveTwice(s.byAddr, i, id);
      StaysTidy(s.byAddr, i, id);
      RemoveTwice(s1.byAddr, q, id);
      RemoveCommutes(s1.byAddr, i, q, id);
      RemoveCommutes(s.byAddr, i, q, id);
    }
  }

  // ---- crash-free runs ----

  ghost predicate Full(s: Store) {
    Consistent(s) && forall id :: id in s.pairs ==>
      id in Lookup(s.byAddr, Lower(s.pairs[id].initiator)) && id in Lookup(s.byAddr, Lower(s.pairs[id].partner))
  }

  function Runs(calls: seq<Call>): Store {
    if calls == [] then EMPTY else Whole(Runs(calls[..|calls| - 1]), calls[|calls| - 1])
  }

  lemma CreateKeepsFull(s: Store, p: Pair)
    requires Full(s) && p.id !in s.pairs && Lower(p.initiator) != Lower(p.partner)
    ensures Full(ApplyAll(s, StoreWrites(p)))
  {
    Three(s, StoreWrites(p));
    CreateKeepsConsistent(s, p);
    assert StoreWrites(p)[..3] == StoreWrites(p);
    AddLooksUp(s.byAddr, Lower(p.initiator), p.id);
    AddLooksUp(Add(s.byAddr, Lower(p.initiator), p.id), Lower(p.partner), p.id);
  }

  lemma DeleteKeepsFull(s: Store, p: Pair)
    requires Full(s) && p.id in s.pairs && s.pairs[p.id] == p
    ensures Full(ApplyAll(s, DeleteWrites(p)))
  {
    Three(s, DeleteWrites(p));
    DeleteKeepsConsistent(s, p);
    assert DeleteWrites(p)[..3] == DeleteWrites(p);
    RemoveLooksUp(s.byAddr, Lower(p.initiator), p.id);
    RemoveLooksUp(Remove(s.byAddr, Lower(p.initiator), p.id), Lower(p.partner), p.id);
  }

  lemma WholeKeepsFull(s: Store, c: Call)
    requires Full(s)
    ensures Full(Whole(s, c))
  {
    var ws := Writes(s, c);
    if ws != [] {
      match c
      case Create(caller, partner, now) =>
        LowerIdempotent(partner);
        CreateKeepsFull(s, NewPair(c));
      case Accept(id, caller) =>
        PutKeepsConsistent(s, ws[0].p);
        assert ws[..0] == [] && ApplyAll(s, ws) == Apply(ApplyAll(s, ws[..0]), ws[0]);
      case Delete(id, caller) =>
        DeleteKeepsFull(s, s.pairs[id]);
    }
  }

  lemma {:induction false} RunsAreFull(calls: seq<Call>)
    ensures Full(Runs(calls))
  {
    if calls != [] {
      RunsAreFull(calls[..|calls| - 1]);
      WholeKeepsFull(Runs(calls[..|calls| - 1]), calls[|calls| - 1]);
    }
  }

  ghost predicate OnceEach(r: seq<Pair>) { forall i, j :: 0 <= i < j < |r| ==> r[i].id != r[j].id }

  lemma {:induction false} ListedOnce(s: Store, ids: Ids, addr: string, incoming: bool)
    requires NoDuplicates(ids) && forall id :: id in s.pairs ==> s.pairs[id].id == id
    ensures OnceEach(Listed(s, ids, addr, incoming))
  {
    if ids != [] {
      var front, last := ids[..|ids| - 1], ids[|ids| - 1];
      ListedOnce(s, front, addr, incoming);
      var r := Listed(s, front, addr, incoming);
      forall i | 0 <= i < |r| ensures r[i].id != last {
        assert r[i] in r;
        var j :| 0 <= j < |front| && front[j] in s.pairs && r[i] == s.pairs[front[j]];
        assert r[i].id == ids[j] != last;
      }
      if last in s.pairs {
        assert s.pairs[last].id == last;
        assert OnceEach(r + [s.pairs[last]]);
      }
      assert Listed(s, ids, addr, incoming) ==
             r + if last in s.pairs && EqualFold(s.pairs[last].partner, addr) == incoming then [s.pairs[last]] else [];
    }
  }

  /** The pairs of one role, in a store where no handler was cut short. */
  lemma ListedExactly(s: Store, caller: string, incoming: bool, p: Pair)
    requires Full(s)
    ensures p in Listed(s, Lookup(s.byAddr, Lower(caller)), caller, incoming) <==>
            p.id in s.pairs && p == s.pairs[p.id] && EqualFold(if incoming then p.partner else p.initiator, caller)
  {
  }

  /** Exactly the caller's pairs of one role, each once. */
  ghost predicate ExactRole(s: Store, r: seq<Pair>, caller: string, incoming: bool) {
    && OnceEach(r)
    && forall p: Pair :: p in r <==> p.id in s.pairs && p == s.pairs[p.id] && EqualFold(if incoming then p.partner else p.initiator, caller)
  }

  /** In crash-free runs pairPending lists exactly the caller's pairs, each once, split exactly by role. */
  lemma PendingIsExact(calls: seq<Call>, caller: string, incoming: bool)
    ensures var s := Runs(calls);
            ExactRole(s, Listed(s, Lookup(s.byAddr, Lower(caller)), caller, incoming), caller, incoming)
  {
    RunsAreFull(calls);
    var s := Runs(calls);
    var ids := Lookup(s.byAddr, Lower(caller));
    ListedOnce(s, ids, caller, incoming);
    forall p: Pair
      ensures p in Listed(s, ids, caller, incoming) <==>
              p.id in s.pairs && p == s.pairs[p.id] && EqualFold(if incoming then p.partner else p.initiator, caller)
    {
      ListedExactly(s, caller, incoming, p);
    }
  }

  // ---- an id means its two addresses ----

  ghost predicate Named(s: Store) {
    forall id :: id in s.pairs ==>
      var p := s.pairs[id]; id == p.id == PairID(p.initiator, p.partner)
  }

  lemma WholePairs(s: Store, c: Call)
    requires Consistent(s)
    ensures Whole(s, c).pairs ==
            if Writes(s, c) == [] then s.pairs
            else match c
              case Create(_, _, _) => s.pairs[NewPair(c).id := NewPair(c)]
              case Accept(id, _) => s.pairs[id := s.pairs[id].(status := Accepted)]
              case Delete(id, _) => s.pairs - {id}
  {
    var ws := Writes(s, c);
    if |ws| == 3 {
      Three(s, ws);
    } else if ws != [] {
      assert ws[..0] == [] && ApplyAll(s, ws) == Apply(ApplyAll(s, ws[..0]), ws[0]);
    }
  }

  lemma {:induction false} RunsAreNamed(calls: seq<Call>)
    ensures Named(Runs(calls))
  {
    if calls != [] {
      var front := calls[..|calls| - 1];
      RunsAreNamed(front);
      RunsAreFull(front);
      WholePairs(Runs(front), calls[|calls| - 1]);
    }
  }

  /** After a create, the record under the pair's id is a pair of exactly those two, up to case and "0x". */
  lemma CreateFindsOwnPair(calls: seq<Call>, a: string, b: string, now: int)
    requires '_' !in Normal(a) && '_' !in Normal(Lower(b)) && b != "" && Lower(a) != Lower(b)
    ensures var s := Whole(Runs(calls), Create(a, b, now));
            var id := PairID(a, Lower(b));
            id in s.pairs && {Normal(s.pairs[id].initiator), Normal(s.pairs[id].partner)} == {Normal(a), Normal(Lower(b))}
  {
    RunsAreNamed(calls);
    RunsAreFull(calls);
    var s, id := Runs(calls), PairID(a, Lower(b));
    WholePairs(s, Create(a, b, now));
    if id in s.pairs {
      PairIDUnordered(a, Lower(b), s.pairs[id].initiator, s.pairs[id].partner);
    }
  }

  /** A create that stopped is not repaired by repeating it, unless it had written nothing or everything. */
  lemma InterruptedCreate(calls: seq<Call>, c: Call, stop: nat)
    requires c.Create? && Writes(Runs(calls), c) != []
    ensures Full(Whole(Exec(Runs(calls), c, stop), c)) <==> stop == 0 || stop >= 3
  {
    RunsAreFull(calls);
    var s, p := Runs(calls), NewPair(c);
    WholeKeepsFull(s, c);
    LowerIdempotent(c.partner);
    Three(s, Writes(s, c));
    if 1 <= stop <= 2 {
      PartnerUnlisted(s, p, stop);
    }
  }

  /** After one or two writes of a create, the record is there and the partner's index lacks it. */
  lemma PartnerUnlisted(s: Store, p: Pair, stop: nat)
    requires Consistent(s) && p.id !in s.pairs && Lower(p.initiator) != Lower(p.partner) && 1 <= stop <= 2
    ensures var t := ApplyAll(s, StoreWrites(p)[..stop]);
            p.id in t.pairs && t.pairs[p.id] == p && p.id !in Lookup(t.byAddr, Lower(p.partner))
  {
    Three(s, StoreWrites(p));
    AddLooksUp(s.byAddr, Lower(p.initiator), p.id);
    assert p.id !in Lookup(s.byAddr, Lower(p.partner));
    assert stop == 1 || stop == 2;
  }

  // ---- what each call stores, in any reachable store ----

  /** A member's address is one of the pair's two, whatever its case. */
  predicate IsMember(p: Pair, addr: string) { Lower(p.initiator) == Lower(addr) || Lower(p.partner) == Lower(addr) }

  /**
   * A whole create: refused without a partner or with oneself; an existing pair is left as it is; else
   * a pending pair is stored, with the caller as initiator, and listed last under both addresses alone.
   */
  lemma CreateStores(steps: seq<Step>, caller: string, partner: string, now: int)
    ensures var s, s' := After(steps), Whole(After(steps), Create(caller, partner, now));
            var id, other := PairID(caller, Lower(partner)), Lower(partner);
            if partner == "" || Lower(caller) == Lower(partner) || id in s.pairs then s' == s
            else
              && s'.pairs == s.pairs[id := Pair(id, caller, other, Pending, now)]
              && forall a :: Lookup(s'.byAddr, a) == Lookup(s.byAddr, a) + if a == Lower(caller) || a == Lower(other) then [id] else []
  {
    AlwaysConsistent(steps);
    LowerIdempotent(partner);
    var s, c := After(steps), Create(caller, partner, now);
    if Writes(s, c) == [] {
      assert ApplyAll(s, []) == s;
    } else {
      Three(s, Writes(s, c));
    }
  }

  /** A whole accept: only the partner's, and only on a stored pair, marks it accepted; nothing else changes. */
  lemma AcceptStores(steps: seq<Step>, id: string, caller: string)
    ensures var s, s' := After(steps), Whole(After(steps), Accept(id, caller));
            && s'.byAddr == s.byAddr
            && (id == "" || id !in s.pairs || Lower(s.pairs[id].partner) != Lower(caller) ==> s' == s)
            && (id != "" && id in s.pairs && Lower(s.pairs[id].partner) == Lower(caller) ==>
                  var p := s.pairs[id];
                  s'.pairs == s.pairs[id := Pair(id, p.initiator, p.partner, Accepted, p.createdAt)])
  {
    AlwaysConsistent(steps);
    var s, c := After(steps), Accept(id, caller);
    assert ApplyAll(s, []) == s;
    if Writes(s, c) != [] {
      One(s, Writes(s, c)[0]);
    } else if id in s.pairs {
      assert s.pairs[id := s.pairs[id]] == s.pairs;
    }
  }

  /** A whole delete: a member's removes the record and every listing of the pair, and nothing else; anyone else's changes nothing. */
  lemma DeleteRemoves(steps: seq<Step>, id: string, caller: string)
    ensures var s, s' := After(steps), Whole(After(steps), Delete(id, caller));
            if id != "" && id in s.pairs && IsMember(s.pairs[id], caller) then
              && s'.pairs == s.pairs - {id}
              && (forall a :: id !in Lookup(s'.byAddr, a))
              && (forall a, x :: x != id ==> (x in Lookup(s'.byAddr, a) <==> x in Lookup(s.byAddr, a)))
            else s' == s
  {
    AlwaysConsistent(steps);
    var s, c := After(steps), Delete(id, caller);
    assert ApplyAll(s, []) == s;
    if Writes(s, c) != [] {
      var p := s.pairs[id];
      Three(s, DeleteWrites(p));
      RemoveLooksUp(s.byAddr, Lower(p.initiator), id);
      RemoveLooksUp(Remove(s.byAddr, Lower(p.initiator), id), Lower(p.partner), id);
    }
  }
}
