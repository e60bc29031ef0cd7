/** client/cosign_history.go and the guard of client/withdrawal.go: one co-sign per swap. */
module Cosign {
  import opened Wrappers

  const HISTORY_MAX := 200

  /** A history event; `rest` stands for the display fields no code reads back. */
  datatype Event = Event(role: string, status: string, hash: string, signature: string, escrowId: string, rest: string)

  /** Newest first, cut at the cap. */
  function Prepend(list: seq<Event>, ev: Event): (r: seq<Event>)
    ensures |r| <= HISTORY_MAX
  {
    var all := [ev] + list;
    if |all| > HISTORY_MAX then all[..HISTORY_MAX] else all
  }

  predicate Awaits(e: Event, hash: string) { e.hash == hash && e.role == "initiator" && e.status != "broadcast" }

  function Finished(e: Event, hash: string, sig: string): Event {
    if Awaits(e, hash) then e.(status := "completed", signature := sig) else e
  }

  function FinishAll(list: seq<Event>, hash: string, sig: string): (r: seq<Event>)
    ensures |r| == |list| && forall i :: 0 <= i < |list| ==> r[i] == Finished(list[i], hash, sig)
  {
    seq(|list|, i requires 0 <= i < |list| => Finished(list[i], hash, sig))
  }

  predicate CompletedAccept(e: Event, id: string) {
    e.role == "acceptor" && e.escrowId == id && e.status == "completed"
  }

  predicate AlreadyCosigned(list: seq<Event>, id: string) {
    exists i :: 0 <= i < |list| && CompletedAccept(list[i], id)
  }

  datatype Admission = Admitted | InProgress | Already

  /** What the guard decides, from the busy marks and the history it reads. */
  function Decide(busy: set<string>, list: seq<Event>, id: string): Admission {
    if id == "" then Admitted
    else if id in busy then InProgress
    else if AlreadyCosigned(list, id) then Already
    else Admitted
  }

  class Client {
    var history: Option<seq<Event>>    // the stored list; None when the key is absent
    var cosignBusy: set<string>

    constructor ()
      ensures history == None && cosignBusy == {}
    {
      history, cosignBusy := None, {};
    }

    function Load(): seq<Event>
      reads this
    {
      if history.Some? then history.value else []
    }

    method RecordCosign(ev: Event)
      modifies this`history
      ensures history == Some(Prepend(old(Load()), ev))
    {
      var list := [ev] + Load();
      if |list| > HISTORY_MAX {
        list := list[..HISTORY_MAX];
      }
      history := Some(list);
    }

    /** Completes the matching initiator events in place; acceptor events come through untouched. */
    method CompleteCosign(hash: string, sig: string) returns (updated: bool)
      modifies this`history
      ensures Load() == FinishAll(old(Load()), hash, sig)
      ensures updated <==> exists i :: 0 <= i < |old(Load())| && Awaits(old(Load())[i], hash)
      ensures !updated ==> history == old(history)
    {
      var before := Load();
      var list := before;
      updated := false;
      for i := 0 to |before|
        invariant |list| == |before|
        invariant forall j :: 0 <= j < |before| ==> list[j] == if j < i then Finished(before[j], hash, sig) else before[j]
        invariant updated <==> exists j :: 0 <= j < i && Awaits(before[j], hash)
      {
        if Awaits(list[i], hash) {
          list := list[i := list[i].(status := "completed", signature := sig)];
          updated := true;
        }
      }
      assert list == FinishAll(before, hash, sig);
      if updated {
        history := Some(list);
      }
    }

    /** The guard of an accept: busy test, history scan, busy mark. */
    method Admit(id: string) returns (a: Admission)
      modifies this`cosignBusy
      ensures a == Decide(old(cosignBusy), Load(), id)
      ensures cosignBusy == old(cosignBusy) + if a.Admitted? && id != "" then {id} else {}
    {
      if id == "" {
        return Admitted;
      }
      if id in cosignBusy {
        return InProgress;
      }
      var list := Load();
      var already := false;
      var i := 0;
      while i < |list|
        invariant 0 <= i <= |list|
        invariant already ==> AlreadyCosigned(list, id)
        invariant !already ==> forall j :: 0 <= j < i ==> !CompletedAccept(list[j], id)
      {
        if CompletedAccept(list[i], id) {
          already := true;
          break;
        }
        i := i + 1;
      }
      if already {
        return Already;
      }
      cosignBusy := cosignBusy + {id};
      return Admitted;
    }
  }

  /** completeCosign never disturbs the guard: acceptor events keep their place and content. */
  lemma FinishKeepsAcceptors(list: seq<Event>, hash: string, sig: string, id: string)
    ensures forall i :: 0 <= i < |list| && list[i].role == "acceptor" ==> FinishAll(list, hash, sig)[i] == list[i]
    ensures AlreadyCosigned(FinishAll(list, hash, sig), id) <==> AlreadyCosigned(list, id)
  {
  }

  /** What completeCosign makes of each event: an initiator's with that hash, not broadcast yet, is completed with the signature; any other stays. */
  lemma FinishContent(list: seq<Event>, hash: string, sig: string, i: nat)
    requires i < |list|
    ensures var e, r := list[i], FinishAll(list, hash, sig)[i];
            if e.role == "initiator" && e.hash == hash && e.status != "broadcast"
            then r == Event("initiator", "completed", hash, sig, e.escrowId, e.rest)
            else r == e
  {
  }

  /** Exactly what the guard decides: without an id everything passes; with one, a busy swap or a completed accept of it in the list is refused. */
  lemma DecisionMeans(busy: set<string>, list: seq<Event>, id: string)
    ensures var d := Decide(busy, list, id);
            && (d == Admitted <==>
                id == "" || (id !in busy && forall e :: e in list ==> !(e.role == "acceptor" && e.status == "completed" && e.escrowId == id)))
            && (d == InProgress <==> id != "" && id in busy)
  {
    forall e | e in list ensures CompletedAccept(e, id) ==> AlreadyCosigned(list, id) {
      var i :| 0 <= i < |list| && list[i] == e;
    }
  }
}
