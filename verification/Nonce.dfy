/** auth/nonce.go: one-time login nonces per address. */
module Nonce {
  import opened Wrappers
  import opened Strings

  /** Times are nanoseconds. */
  const TTL := 5 * 60 * 1_000_000_000

  datatype Entry = Entry(nonce: string, expiresAt: int)

  type Nonces = map<string, Entry>

  function Unexpired(m: Nonces, now: int): Nonces {
    map k | k in m && now <= m[k].expiresAt :: m[k]
  }

  datatype Op =
    | Generate(address: string, nonce: string, now: int)
    | Verify(address: string, nonce: string, now: int)
    | Cleanup(now: int)

  /** The new store and, for a verify, its answer. */
  function Exec(m: Nonces, op: Op): (Nonces, bool) {
    match op
    case Generate(address, nonce, now) => (m[Lower(address) := Entry(nonce, now + TTL)], true)
    case Verify(address, nonce, now) =>
      var key := Lower(address);
      if key !in m then (m, false) else (m - {key}, now <= m[key].expiresAt && m[key].nonce == nonce)
    case Cleanup(now) => (Unexpired(m, now), true)
  }

  class NonceStore {
    var nonces: Nonces

    constructor ()
      ensures nonces == map[]
    {
      nonces := map[];
    }

    /** The nonce comes from the random source. */
    method Generate(address: string, nonce: string, now: int)
      modifies this
      ensures nonces == Exec(old(nonces), Op.Generate(address, nonce, now)).0
    {
      nonces := nonces[Lower(address) := Entry(nonce, now + TTL)];
    }

    method Verify(address: string, nonce: string, now: int) returns (ok: bool)
      modifies this
      ensures (nonces, ok) == Exec(old(nonces), Op.Verify(address, nonce, now))
    {
      var key := Lower(address);
      if key !in nonces {
        return false;
      }
      var entry := nonces[key];
      nonces := nonces - {key};
      if now > entry.expiresAt {
        return false;
      }
      return entry.nonce == nonce;
    }

    method Cleanup(now: int)
      modifies this
      ensures nonces == Exec(old(nonces), Op.Cleanup(now)).0
    {
      var keys := nonces.Keys;
      while keys != {}
        invariant keys <= old(nonces).Keys
        invariant forall k :: k in nonces <==> k in old(nonces) && (k in keys || now <= old(nonces)[k].expiresAt)
        invariant forall k :: k in nonces ==> nonces[k] == old(nonces)[k]
        decreases keys
      {
        var k :| k in keys;
        if now > nonces[k].expiresAt {
          nonces := nonces - {k};
        }
        keys := keys - {k};
      }
    }
  }

  // ---- the decision on the full history ----

  predicate On(op: Op, key: string) { !op.Cleanup? && Lower(op.address) == key }

  /** The latest generate or verify on an address, successful or not. */
  function Latest(ops: seq<Op>, key: string): Option<Op> {
    if ops == [] then None
    else if On(ops[|ops| - 1], key) then Some(ops[|ops| - 1])
    else Latest(ops[..|ops| - 1], key)
  }

  predicate Valid(ops: seq<Op>, v: Op)
    requires v.Verify?
  {
    match Latest(ops, Lower(v.address))
    case Some(Generate(_, nonce, at)) => nonce == v.nonce && v.now <= at + 300 * 1_000_000_000
    case _ => false
  }

  ghost predicate Monotone(ops: seq<Op>) { forall i, j :: 0 <= i < j < |ops| ==> ops[i].now <= ops[j].now }

  function After(ops: seq<Op>): Nonces {
    if ops == [] then map[] else Exec(After(ops[..|ops| - 1]), ops[|ops| - 1]).0
  }

  /** The store holds the latest generate of an address, unless that has expired by now. */
  ghost predicate Agrees(m: Nonces, ops: seq<Op>, key: string) {
    var latest := Latest(ops, key);
    if key in m then latest.Some? && latest.value.Generate? && m[key] == Entry(latest.value.nonce, latest.value.now + TTL)
    else latest.Some? && latest.value.Generate? ==> latest.value.now + TTL < ops[|ops| - 1].now
  }

  lemma {:induction false} StoreAgrees(ops: seq<Op>, key: string)
    requires Monotone(ops)
    ensures Latest(ops, key).Some? ==> ops != []
    ensures Agrees(After(ops), ops, key)
  {
    if ops != [] {
      var front := ops[..|ops| - 1];
      StoreAgrees(front, key);
      if front != [] {
        assert front[|front| - 1] == ops[|front| - 1];
      }
    }
  }

  /** Every verify answers as the full history would. */
  lemma StoreIsHistory(ops: seq<Op>, i: nat)
    requires Monotone(ops) && i < |ops| && ops[i].Verify?
    ensures Exec(After(ops[..i]), ops[i]).1 <==> Valid(ops[..i], ops[i])
  {
    StoreAgrees(ops[..i], Lower(ops[i].address));
    if i > 0 {
      assert ops[..i][i - 1] == ops[i - 1];
    }
  }

  /** The run without its cleanups. */
  function WithoutCleanups(ops: seq<Op>): seq<Op> {
    if ops == [] then []
    else WithoutCleanups(ops[..|ops| - 1]) + if ops[|ops| - 1].Cleanup? then [] else [ops[|ops| - 1]]
  }

  lemma {:induction false} CleanupsPast(ops: seq<Op>, key: string)
    ensures Latest(WithoutCleanups(ops), key) == Latest(ops, key)
    ensures forall op :: op in WithoutCleanups(ops) ==> op in ops
    ensures Monotone(ops) ==> Monotone(WithoutCleanups(ops))
  {
    if ops != [] {
      var front, op := ops[..|ops| - 1], ops[|ops| - 1];
      CleanupsPast(front, key);
      assert ops == front + [op];
      var w := WithoutCleanups(front);
      assert (w + [op])[..|w|] == w && w + [] == w;
      if Monotone(ops) {
        forall i | 0 <= i < |w| ensures w[i].now <= op.now {
          assert w[i] in front;
        }
      }
    }
  }

  /** Cleanup is unobservable: a verify after any run answers as after the run without its cleanups. */
  lemma CleanupUnobservable(ops: seq<Op>, v: Op)
    requires Monotone(ops + [v]) && v.Verify?
    ensures Exec(After(ops), v).1 == Exec(After(WithoutCleanups(ops)), v).1
  {
    var w := WithoutCleanups(ops);
    CleanupsPast(ops, Lower(v.address));
    assert Monotone(ops) by {
      forall i, j | 0 <= i < j < |ops| ensures ops[i].now <= ops[j].now {
        assert (ops + [v])[i] == ops[i] && (ops + [v])[j] == ops[j];
      }
    }
    assert Monotone(w + [v]) by {
      forall i | 0 <= i < |w| ensures w[i].now <= v.now {
        assert w[i] in ops;
        var j :| 0 <= j < |ops| && ops[j] == w[i];
        assert (ops + [v])[j] == ops[j] && (ops + [v])[|ops|] == v;
      }
    }
    StoreIsHistory(ops + [v], |ops|);
    StoreIsHistory(w + [v], |w|);
    assert (ops + [v])[..|ops|] == ops && (w + [v])[..|w|] == w;
  }

  function Generates(ops: seq<Op>, key: string): nat {
    if ops == [] then 0
    else Generates(ops[..|ops| - 1], key) + if ops[|ops| - 1].Generate? && On(ops[|ops| - 1], key) then 1 else 0
  }

  function Successes(ops: seq<Op>, key: string): nat {
    if ops == [] then 0
    else
      var front, op := ops[..|ops| - 1], ops[|ops| - 1];
      Successes(front, key) + if op.Verify? && On(op, key) && Exec(After(front), op).1 then 1 else 0
  }

  /** A nonce buys one login: with a nonce outstanding, one more has been generated than used. No clock assumption. */
  lemma {:induction false} SuccessesBounded(ops: seq<Op>, key: string)
    ensures Successes(ops, key) + (if key in After(ops) then 1 else 0) <= Generates(ops, key)
  {
    if ops != [] {
      SuccessesBounded(ops[..|ops| - 1], key);
    }
  }
}
