/** server/timebox.go: signatures that a pair's members may read one hour after they were posted. */
module Timebox {
  import opened Wrappers
  import opened Bytes
  import opened Strings
  import opened Validation
  import Pairing

  /** Times are nanoseconds. */
  const DELAY := 60 * 60 * 1_000_000_000
  const SECOND := 1_000_000_000

  datatype Entry = Entry(alg: Alg, pub: seq<byte>, hash: seq<byte>, sig: seq<byte>, pairId: string, createdAt: int)

  type Pairs = map<string, Pairing.Pair>
  type Entries = map<seq<byte>, Entry>

  /** What a posted request has to satisfy before it is looked at any further. */
  predicate Parses(e: Entry) {
    ValidPub(e.alg, e.pub) && |e.hash| == HASH_LEN && 0 < |e.sig| <= MAX_SIG_LEN && e.pairId != ""
  }

  predicate Authorized(pairs: Pairs, pairId: string, caller: string) {
    pairId != "" && pairId in pairs && Pairing.Contains(pairs[pairId], caller)
  }

  datatype PostReply = BadRequest | NotMember | Unverified | Stored(availableAt: int)

  datatype GetReply = Malformed | NoSignature | Refused | Invalid | NotReady(seconds: int) | Ready(sig: seq<byte>)

  function PostReplyOf(v: Validator, pairs: Pairs, e: Entry, caller: string): PostReply {
    if !Parses(e) then BadRequest
    else if !Authorized(pairs, e.pairId, caller) then NotMember
    else if !Accepts(v, e.alg, e.pub, e.hash, e.sig) then Unverified
    else Stored(e.createdAt + DELAY)
  }

  function GetReplyOf(v: Validator, pairs: Pairs, entries: Entries, pub: seq<byte>, hash: seq<byte>, caller: string, now: int): GetReply {
    if pub == [] || |hash| != HASH_LEN then Malformed
    else if pub !in entries then NoSignature
    else
      var e := entries[pub];
      if !Authorized(pairs, e.pairId, caller) then Refused
      else if !Accepts(v, e.alg, e.pub, hash, e.sig) then Invalid
      else if now < e.createdAt + DELAY then NotReady((e.createdAt + DELAY - now) / SECOND)
      else Ready(e.sig)
  }

  class TimeboxServer {
    var entries: Entries
    var pairs: Pairs
    const validate: Validator

    constructor (v: Validator)
      ensures entries == map[] && pairs == map[] && validate == v
    {
      entries, pairs, validate := map[], map[], v;
    }

    method TimeboxPost(e: Entry, caller: string) returns (reply: PostReply)
      modifies this`entries
      ensures reply == PostReplyOf(validate, pairs, e, caller)
      ensures entries == if reply.Stored? then old(entries)[e.pub := e] else old(entries)
    {
      if !Parses(e) {
        return BadRequest;
      }
      if e.pairId !in pairs || !Pairing.Contains(pairs[e.pairId], caller) {
        return NotMember;
      }
      match validate(e.alg, e.pub, e.hash, e.sig) {
        case Err => return Unverified;
        case Ok(ok) =>
          if !ok {
            return Unverified;
          }
      }
      entries := entries[e.pub := e];
      return Stored(e.createdAt + DELAY);
    }

    method TimeboxGet(pub: seq<byte>, hash: seq<byte>, caller: string, now: int) returns (reply: GetReply)
      ensures reply == GetReplyOf(validate, pairs, entries, pub, hash, caller, now)
    {
      if pub == [] || |hash| != HASH_LEN {
        return Malformed;
      }
      if pub !in entries {
        return NoSignature;
      }
      var e := entries[pub];
      if !Authorized(pairs, e.pairId, caller) {
        return Refused;
      }
      if validate(e.alg, e.pub, hash, e.sig) != Ok(true) {
        return Invalid;
      }
      var availableAt := e.createdAt + DELAY;
      if now < availableAt {
        return NotReady((availableAt - now) / SECOND);
      }
      return Ready(e.sig);
    }
  }

  // ---- runs: posts, with the pair store changing in between ----

  datatype Op = Post(e: Entry, caller: string) | PairsBecome(pairs: Pairs)

  function PairsAfter(ops: seq<Op>): Pairs {
    if ops == [] then map[]
    else if ops[|ops| - 1].PairsBecome? then ops[|ops| - 1].pairs
    else PairsAfter(ops[..|ops| - 1])
  }

  /** The i-th operation is a post that was stored. */
  predicate AcceptedPost(v: Validator, ops: seq<Op>, i: nat)
    requires i < |ops|
  {
    ops[i].Post? && PostReplyOf(v, PairsAfter(ops[..i]), ops[i].e, ops[i].caller).Stored?
  }

  function EntriesAfter(v: Validator, ops: seq<Op>): Entries {
    if ops == [] then map[]
    else
      var front, op := ops[..|ops| - 1], ops[|ops| - 1];
      if AcceptedPost(v, ops, |ops| - 1) then EntriesAfter(v, front)[op.e.pub := op.e] else EntriesAfter(v, front)
  }

  /** The i-th operation is the latest stored post for a key. */
  ghost predicate LatestPost(v: Validator, ops: seq<Op>, pub: seq<byte>, i: nat) {
    && i < |ops| && AcceptedPost(v, ops, i) && ops[i].e.pub == pub
    && forall j :: i < j < |ops| && AcceptedPost(v, ops, j) ==> ops[j].e.pub != pub
  }

  lemma AcceptedInPrefix(v: Validator, ops: seq<Op>, n: nat, i: nat)
    requires i < n <= |ops|
    ensures AcceptedPost(v, ops[..n], i) == AcceptedPost(v, ops, i)
  {
    assert ops[..n][..i] == ops[..i];
  }

  lemma LatestUnchanged(v: Validator, ops: seq<Op>, pub: seq<byte>)
    requires ops != []
    requires !(AcceptedPost(v, ops, |ops| - 1) && ops[|ops| - 1].e.pub == pub)
    ensures forall i: nat :: LatestPost(v, ops, pub, i) <==> LatestPost(v, ops[..|ops| - 1], pub, i)
  {
    var n := |ops| - 1;
    forall i | 0 <= i < n ensures AcceptedPost(v, ops[..n], i) == AcceptedPost(v, ops, i) {
      AcceptedInPrefix(v, ops, n, i);
    }
  }

  /** The store is the history: a key holds an entry exactly when that entry is its latest stored post. */
  lemma {:induction false} EntryIsLatestPost(v: Validator, ops: seq<Op>, pub: seq<byte>, e: Entry)
    ensures pub in EntriesAfter(v, ops) && EntriesAfter(v, ops)[pub] == e <==>
            exists i: nat :: LatestPost(v, ops, pub, i) && ops[i].e == e
  {
    if ops != [] {
      var n := |ops| - 1;
      var front := ops[..n];
      EntryIsLatestPost(v, front, pub, e);
      forall i | 0 <= i < n ensures AcceptedPost(v, front, i) == AcceptedPost(v, ops, i) && front[i] == ops[i] {
        AcceptedInPrefix(v, ops, n, i);
      }
      if AcceptedPost(v, ops, n) && ops[n].e.pub == pub {
        assert LatestPost(v, ops, pub, n);
      } else {
        LatestUnchanged(v, ops, pub);
      }
    }
  }

  /** The pair exists and the caller's address is one of its two, whatever its case. */
  predicate PairMember(pairs: Pairs, pairId: string, caller: string) {
    pairId in pairs && (Lower(pairs[pairId].initiator) == Lower(caller) || Lower(pairs[pairId].partner) == Lower(caller))
  }

  /**
   * Exactly which posts are stored: a key and hash of the right form, a signature of 1 to 128 bytes that
   * validates, posted by a member of a pair that exists at that moment.
   */
  lemma PostIsStored(v: Validator, ops: seq<Op>, i: nat)
    requires i < |ops| && ops[i].Post?
    ensures var e := ops[i].e;
            AcceptedPost(v, ops, i) <==>
            && ((e.alg == Ecdsa && |e.pub| == 33 && e.pub[0] in {2, 3}) || (e.alg == Frost && |e.pub| == 32))
            && |e.hash| == 32 && 1 <= |e.sig| <= 128
            && e.pairId != "" && PairMember(PairsAfter(ops[..i]), e.pairId, ops[i].caller)
            && v(e.alg, e.pub, e.hash, e.sig) == Ok(true)
  {
  }

  /** A post that is stored becomes available one hour after its creation. */
  lemma PostBecomesEntry(v: Validator, ops: seq<Op>, i: nat)
    requires i < |ops| && AcceptedPost(v, ops, i)
    ensures PostReplyOf(v, PairsAfter(ops[..i]), ops[i].e, ops[i].caller) == Stored(ops[i].e.createdAt + 3600 * SECOND)
    ensures EntriesAfter(v, ops[..i + 1]) == EntriesAfter(v, ops[..i])[ops[i].e.pub := ops[i].e]
  {
    assert ops[..i + 1][..i] == ops[..i] && ops[..i + 1][i] == ops[i];
  }

  /**
   * Every answer to a well-formed request, from the latest stored post for the key: none, refused to
   * anyone but a current member of its pair, invalid for another hash, not ready within the hour with
   * the seconds left, or its signature.
   */
  lemma GetAnswers(v: Validator, ops: seq<Op>, pub: seq<byte>, hash: seq<byte>, caller: string, now: int)
    requires pub != [] && |hash| == 32
    ensures var reply := GetReplyOf(v, PairsAfter(ops), EntriesAfter(v, ops), pub, hash, caller, now);
            && (reply == NoSignature <==> forall i: nat :: !LatestPost(v, ops, pub, i))
            && (forall i: nat :: LatestPost(v, ops, pub, i) ==> AnswerOf(v, PairsAfter(ops), ops[i].e, hash, caller, now, reply))
  {
    var entries := EntriesAfter(v, ops);
    if pub in entries {
      EntryIsLatestPost(v, ops, pub, entries[pub]);
    }
    forall i: nat | LatestPost(v, ops, pub, i)
      ensures AnswerOf(v, PairsAfter(ops), ops[i].e, hash, caller, now, GetReplyOf(v, PairsAfter(ops), entries, pub, hash, caller, now))
    {
      EntryIsLatestPost(v, ops, pub, ops[i].e);
    }
  }

  predicate AnswerOf(v: Validator, pairs: Pairs, e: Entry, hash: seq<byte>, caller: string, now: int, reply: GetReply) {
    var left := e.createdAt + 3600 * 1_000_000_000 - now;
    if !PairMember(pairs, e.pairId, caller) then reply == Refused
    else if v(e.alg, e.pub, hash, e.sig) != Ok(true) then reply == Invalid
    else if left > 0 then reply == NotReady(left / 1_000_000_000)
    else reply == Ready(e.sig)
  }

  /**
   * A reply carries a signature exactly when it is the latest stored post for the key, posted at least
   * an hour ago, valid for the requested hash, and asked for by a current member of that post's pair.
   */
  lemma SignatureReleased(v: Validator, ops: seq<Op>, pub: seq<byte>, hash: seq<byte>, caller: string, now: int, sig: seq<byte>)
    ensures GetReplyOf(v, PairsAfter(ops), EntriesAfter(v, ops), pub, hash, caller, now) == Ready(sig) <==>
            |hash| == HASH_LEN && exists i: nat :: LatestPost(v, ops, pub, i) && var e := ops[i].e;
              && e.sig == sig
              && e.createdAt + 3600 * 1_000_000_000 <= now
              && v(e.alg, pub, hash, sig) == Ok(true)
              && PairMember(PairsAfter(ops), e.pairId, caller)
  {
    var entries := EntriesAfter(v, ops);
    if pub in entries {
      EntryIsLatestPost(v, ops, pub, entries[pub]);
    }
    if i: nat :| LatestPost(v, ops, pub, i) {
      EntryIsLatestPost(v, ops, pub, ops[i].e);
    }
  }

  /** Every stored entry is keyed by its own key, well-formed, and valid for its own hash. */
  lemma StoredEntriesValidate(v: Validator, ops: seq<Op>, pub: seq<byte>)
    requires pub in EntriesAfter(v, ops)
    ensures var e := EntriesAfter(v, ops)[pub]; e.pub == pub && Parses(e) && Accepts(v, e.alg, e.pub, e.hash, e.sig)
  {
    EntryIsLatestPost(v, ops, pub, EntriesAfter(v, ops)[pub]);
  }
}
