/** server/mailbox.go: message records with an inbox index per recipient. */
module Mailbox {
  import opened Wrappers
  import opened Strings
  import opened Index
  import Pairing

  datatype Message = Message(id: string, from: string, to: string, pairId: string, kind: string, body: string, createdAt: nat)

  datatype Store = Store(msgs: map<string, Message>, inbox: Indexes)

  const EMPTY := Store(map[], map[])

  /** The decimal form of a timestamp. */
  function Decimal(n: nat): string {
    if n < 10 then [DIGITS[n]] else Decimal(n / 10) + [DIGITS[n % 10]]
  }

  const DIGITS := "0123456789"

  function MessageID(from: string, to: string, ts: nat): string {
    Pairing.Normal(from) + "_" + Pairing.Normal(to) + "_" + Decimal(ts)
  }

  // ---- handlers as sequences of storage writes ----

  datatype Write = PutMsg(m: Message) | AddId(addr: string, id: string) | DropMsg(id: string) | RemoveId(addr: string, id: string)

  function Apply(s: Store, w: Write): Store {
    match w
    case PutMsg(m) => s.(msgs := s.msgs[m.id := m])
    case AddId(addr, id) => s.(inbox := Add(s.inbox, addr, id))
    case DropMsg(id) => s.(msgs := s.msgs - {id})
    case RemoveId(addr, id) => s.(inbox := Remove(s.inbox, addr, id))
  }

  datatype Call =
    | Send(pair: Option<Pairing.Pair>, from: string, to: string, pairId: string, kind: string, body: string, now: nat)
    | Ack(id: string, caller: string)

  /** The sender and the recipient are both members of the stored pair. */
  predicate Allowed(c: Call)
    requires c.Send?
  {
    c.to != "" && c.pairId != "" && c.kind != "" && c.pair.Some? &&
    Pairing.Contains(c.pair.value, c.from) && Pairing.Contains(c.pair.value, Lower(c.to))
  }

  function NewMessage(c: Call): Message
    requires c.Send?
  {
    Message(MessageID(c.from, Lower(c.to), c.now), c.from, Lower(c.to), c.pairId, c.kind, c.body, c.now)
  }

  predicate Mine(s: Store, id: string, caller: string) {
    id != "" && id in s.msgs && EqualFold(s.msgs[id].to, caller)
  }

  /** A send writes the record, then the index; an ack drops the record, then the index entry. */
  function Writes(s: Store, c: Call): (ws: seq<Write>)
    ensures |ws| == 0 || |ws| == 2
  {
    match c
    case Send(_, _, _, _, _, _, _) =>
      if !Allowed(c) then [] else var m := NewMessage(c); [PutMsg(m), AddId(Lower(m.to), m.id)]
    case Ack(id, caller) =>
      if !Mine(s, id, caller) then [] else [DropMsg(id), RemoveId(Lower(caller), id)]
  }

  /** A call that stops after `stop` of its writes. */
  function Exec(s: Store, c: Call, stop: nat): Store {
    var ws := Writes(s, c);
    if ws == [] || stop == 0 then s
    else if stop == 1 then Apply(s, ws[0])
    else Apply(Apply(s, ws[0]), ws[1])
  }

  /** mailboxPending: the indexed messages that have a record, in index order. */
  function Visible(msgs: map<string, Message>, ids: Ids): seq<Message> {
    if ids == [] then []
    else
      var id := ids[|ids| - 1];
      Visible(msgs, ids[..|ids| - 1]) + if id in msgs then [msgs[id]] else []
  }

  function View(s: Store, addr: string): seq<Message> { Visible(s.msgs, Lookup(s.inbox, Lower(addr))) }

  class MailServer {
    var stor: Store

    constructor ()
      ensures stor == EMPTY
    {
      stor := EMPTY;
    }

    method MailboxSend(c: Call) returns (id: Option<string>)
      requires c.Send?
      modifies this
      ensures stor == Exec(old(stor), c, 2)
      ensures id == if Allowed(c) then Some(NewMessage(c).id) else None
    {
      if !Allowed(c) {
        return None;
      }
      var m := NewMessage(c);
      stor := stor.(msgs := stor.msgs[m.id := m]);
      var ix := AddToIndex(stor.inbox, Lower(m.to), m.id);
      stor := stor.(inbox := ix);
      return Some(m.id);
    }

    method MailboxAck(id: string, caller: string) returns (ok: bool)
      modifies this
      ensures stor == Exec(old(stor), Ack(id, caller), 2)
      ensures ok <==> Mine(old(stor), id, caller)
    {
      if id == "" || id !in stor.msgs || !EqualFold(stor.msgs[id].to, caller) {
        return false;
      }
      stor := stor.(msgs := stor.msgs - {id});
      var ix := RemoveFromIndex(stor.inbox, Lower(caller), id);
      stor := stor.(inbox := ix);
      return true;
    }

    method MailboxPending(caller: string) returns (messages: seq<Message>)
      ensures messages == View(stor, caller)
    {
      var ids := Lookup(stor.inbox, Lower(caller));
      messages := [];
      for i := 0 to |ids|
        invariant messages == Visible(stor.msgs, ids[..i])
      {
        assert ids[..i + 1][..i] == ids[..i];
        if ids[i] in stor.msgs {
          messages := messages + [stor.msgs[ids[i]]];
        }
      }
      assert ids == ids[..|ids|];
    }
  }
}
