/** server/session.go: a registry of claimed and cancelled sessions that forgets after 15 minutes. */
module Session {
  import opened Wrappers

  /** Times are nanoseconds. */
  const WINDOW := 15 * 60 * 1_000_000_000

  datatype Status = Claimed | Cancelled

  datatype Entry = Entry(status: Status, at: int)

  type Registry = map<string, Entry>

  function Pruned(m: Registry, now: int): Registry {
    map k | k in m && m[k].at >= now - WINDOW :: m[k]
  }

  /** A claim or a cancel: the clock is read once for pruning and once more for the stamp. */
  datatype Op = Op(kind: Status, id: string, pruneAt: int, stampAt: int)

  function Attempt(m: Registry, op: Op): (Registry, bool) {
    var p := Pruned(m, op.pruneAt);
    if op.id in p && p[op.id].status != op.kind then (p, false)
    else (p[op.id := Entry(op.kind, op.stampAt)], true)
  }

  class SessionRegistry {
    var m: Registry

    constructor ()
      ensures m == map[]
    {
      m := map[];
    }

    /** Deletes while going through the keys, in no particular order. */
    method Prune(now: int)
      modifies this
      ensures m == Pruned(old(m), now)
    {
      var cutoff := now - WINDOW;
      var keys := m.Keys;
      while keys != {}
        invariant keys <= old(m).Keys
        invariant forall k :: k in m <==> k in old(m) && (k in keys || old(m)[k].at >= cutoff)
        invariant forall k :: k in m ==> m[k] == old(m)[k]
        decreases keys
      {
        var k :| k in keys;
        if m[k].at < cutoff {
          m := m - {k};
        }
        keys := keys - {k};
      }
    }

    method Claim(id: string, pruneAt: int, stampAt: int) returns (ok: bool)
      modifies this
      ensures (m, ok) == Attempt(old(m), Op(Claimed, id, pruneAt, stampAt))
    {
      Prune(pruneAt);
      if id in m && m[id].status == Cancelled {
        return false;
      }
      m := m[id := Entry(Claimed, stampAt)];
      return true;
    }

    method Cancel(id: string, pruneAt: int, stampAt: int) returns (ok: bool)
      modifies this
      ensures (m, ok) == Attempt(old(m), Op(Cancelled, id, pruneAt, stampAt))
    {
      Prune(pruneAt);
      if id in m && m[id].status == Claimed {
        return false;
      }
      m := m[id := Entry(Cancelled, stampAt)];
      return true;
    }
  }

  // ---- the decision on the full history ----

  /** The last successful operation on an id. */
  function Last(ops: seq<Op>, id: string): Option<Op>
    decreases |ops|, 0
  {
    if ops == [] then None
    else
      var front, op := ops[..|ops| - 1], ops[|ops| - 1];
      if op.id == id && Allowed(front, op) then Some(op) else Last(front, id)
  }

  /** It fails exactly when the last success on the id was of the other kind and stamped within the window. */
  predicate Allowed(ops: seq<Op>, op: Op)
    decreases |ops|, 1
  {
    match Last(ops, op.id)
    case None => true
    case Some(o) => o.kind == op.kind || o.stampAt < op.pruneAt - 900 * 1_000_000_000
  }

  /** Clock readings never go back. */
  ghost predicate Monotone(ops: seq<Op>) {
    && (forall i :: 0 <= i < |ops| ==> ops[i].pruneAt <= ops[i].stampAt)
    && (forall i, j :: 0 <= i < j < |ops| ==> ops[i].stampAt <= ops[j].pruneAt)
  }

  function After(ops: seq<Op>): Registry {
    if ops == [] then map[] else Attempt(After(ops[..|ops| - 1]), ops[|ops| - 1]).0
  }

  /** What is in the registry is the last success; what is not was never there or is past the window. */
  ghost predicate Agrees(m: Registry, ops: seq<Op>, id: string) {
    match Last(ops, id)
    case None => id !in m
    case Some(o) => o.id == id && (if id in m then m[id] == Entry(o.kind, o.stampAt) else ops != [] && o.stampAt < ops[|ops| - 1].pruneAt - WINDOW)
  }

  lemma {:induction false} LastIsPast(ops: seq<Op>, id: string)
    requires Last(ops, id).Some?
    ensures exists k :: 0 <= k < |ops| && ops[k] == Last(ops, id).value
  {
    var front, op := ops[..|ops| - 1], ops[|ops| - 1];
    if !(op.id == id && Allowed(front, op)) {
      LastIsPast(front, id);
      var k :| 0 <= k < |front| && front[k] == Last(front, id).value;
      assert ops[k] == front[k];
    }
  }

  lemma AllowedMeans(ops: seq<Op>, op: Op)
    ensures var o := Last(ops, op.id);
            Allowed(ops, op) <==> o.None? || o.value.kind == op.kind || o.value.stampAt < op.pruneAt - WINDOW
  {
  }

  lemma {:induction false} RegistryAgrees(ops: seq<Op>, id: string)
    requires Monotone(ops)
    ensures Agrees(After(ops), ops, id)
    decreases |ops|
  {
    if ops != [] {
      var front, op := ops[..|ops| - 1], ops[|ops| - 1];
      RegistryAgrees(front, id);
      RegistryAgrees(front, op.id);
      AllowedMeans(front, op);
      if front != [] {
        assert ops[|front| - 1] == front[|front| - 1];
      }
    }
  }

  /** The pruned registry answers every claim and cancel as the full history would. */
  lemma RegistryIsHistory(ops: seq<Op>, i: nat)
    requires Monotone(ops) && i < |ops|
    ensures Attempt(After(ops[..i]), ops[i]).1 <==> Allowed(ops[..i], ops[i])
  {
    RegistryAgrees(ops[..i], ops[i].id);
    if i > 0 {
      assert ops[..i][i - 1] == ops[i - 1];
    }
  }

  /** From a success on, the last success is of its kind or more than the window later. */
  lemma {:induction false} KindsApart(ops: seq<Op>, i: nat)
    requires Monotone(ops) && i < |ops| && Allowed(ops[..i], ops[i])
    ensures Last(ops, ops[i].id).Some?
    ensures var o := Last(ops, ops[i].id).value;
            o.stampAt >= ops[i].stampAt && (o.kind == ops[i].kind || o.stampAt > ops[i].stampAt + WINDOW)
    decreases |ops|
  {
    var front, op := ops[..|ops| - 1], ops[|ops| - 1];
    if i < |front| {
      assert front[..i] == ops[..i];
      KindsApart(front, i);
      AllowedMeans(front, op);
      LastIsPast(front, ops[i].id);
    }
  }

  /** A successful claim and a successful cancel of one session are always more than 15 minutes apart. */
  lemma ClaimAndCancelApart(ops: seq<Op>, i: nat, j: nat)
    requires Monotone(ops) && i < j < |ops| && ops[i].id == ops[j].id && ops[i].kind != ops[j].kind
    requires Attempt(After(ops[..i]), ops[i]).1 && Attempt(After(ops[..j]), ops[j]).1
    ensures ops[j].stampAt - ops[i].stampAt > 900 * 1_000_000_000
  {
    RegistryIsHistory(ops, i);
    RegistryIsHistory(ops, j);
    var past := ops[..j + 1];
    assert past[..i] == ops[..i] && past[..j] == ops[..j];
    assert Monotone(past) by {
      forall k | 0 <= k < |past| ensures past[k] == ops[k] {}
    }
    LastApart(past, i);
  }

  lemma LastApart(ops: seq<Op>, i: nat)
    requires Monotone(ops) && i < |ops| - 1
    requires var last := ops[|ops| - 1];
             ops[i].id == last.id && ops[i].kind != last.kind && Allowed(ops[..i], ops[i]) && Allowed(ops[..|ops| - 1], last)
    ensures ops[|ops| - 1].stampAt - ops[i].stampAt > WINDOW
  {
    SuccessIsLast(ops);
    KindsApart(ops, i);
  }

  lemma SuccessIsLast(ops: seq<Op>)
    requires ops != [] && Allowed(ops[..|ops| - 1], ops[|ops| - 1])
    ensures Last(ops, ops[|ops| - 1].id) == Some(ops[|ops| - 1])
  {
  }
}
