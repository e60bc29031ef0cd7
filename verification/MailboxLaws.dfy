/** The two-key mailbox is an ordered inbox per recipient, wherever handlers stop. */
module MailboxLaws {
  import opened Wrappers
  import opened Strings
  import opened Index
  import opened Mailbox
  import Pairing

  // ---- ids ----

  lemma {:induction false} DecimalInjective(m: nat, n: nat)
    requires Decimal(m) == Decimal(n)
    ensures m == n
  {
    assert Decimal(m)[|Decimal(m)| - 1] == DIGITS[m % 10] && Decimal(n)[|Decimal(n)| - 1] == DIGITS[n % 10];
    DigitInjective(m % 10, n % 10);
    DecimalLength(m);
    DecimalLength(n);
    if m >= 10 {
      assert Decimal(m)[..|Decimal(m)| - 1] == Decimal(m / 10) && Decimal(n)[..|Decimal(n)| - 1] == Decimal(n / 10);
      DecimalInjective(m / 10, n / 10);
    }
  }

  lemma DigitInjective(i: nat, j: nat)
    requires i < 10 && j < 10 && DIGITS[i] == DIGITS[j]
    ensures i == j
  {
  }

  lemma DecimalLength(n: nat)
    ensures |Decimal(n)| >= 1 && (|Decimal(n)| == 1 <==> n < 10)
  {
  }

  lemma ThreeParts(a: string, b: string, x: string, c: string, d: string, y: string)
    requires '_' !in a && '_' !in b && '_' !in c && '_' !in d
    requires a + "_" + b + "_" + x == c + "_" + d + "_" + y
    ensures a == c && b == d && x == y
  {
    assert a + "_" + b + "_" + x == a + "_" + (b + "_" + x);
    assert c + "_" + d + "_" + y == c + "_" + (d + "_" + y);
    SplitAt(a, b + "_" + x, c, d + "_" + y, '_');
    SplitAt(b, x, d, y, '_');
  }

  predicate Plain(a: string) { '_' !in Pairing.Normal(a) }

  /** Without underscores, the id means the sender, the recipient, up to case and "0x", and the timestamp. */
  lemma MessageIDInjective(f: string, t: string, n: nat, g: string, u: string, m: nat)
    requires Plain(f) && Plain(t) && Plain(g) && Plain(u)
    ensures MessageID(f, t, n) == MessageID(g, u, m) <==>
            Pairing.Normal(f) == Pairing.Normal(g) && Pairing.Normal(t) == Pairing.Normal(u) && n == m
  {
    if MessageID(f, t, n) == MessageID(g, u, m) {
      ThreeParts(Pairing.Normal(f), Pairing.Normal(t), Decimal(n), Pairing.Normal(g), Pairing.Normal(u), Decimal(m));
      DecimalInjective(n, m);
    }
  }

  // ---- the abstract inbox ----

  /** A delivery puts a message at the end of its recipient's inbox; a removal takes an id out of every inbox. */
  datatype Event = Delivered(m: Message) | Taken(id: string)

  function Drop(box: seq<Message>, id: string): seq<Message> {
    if box == [] then []
    else Drop(box[..|box| - 1], id) + if box[|box| - 1].id == id then [] else [box[|box| - 1]]
  }

  function Happen(box: seq<Message>, e: Event, addr: string): seq<Message> {
    match e
    case Delivered(m) => if Lower(m.to) == Lower(addr) then box + [m] else box
    case Taken(id) => Drop(box, id)
  }

  function Box(events: seq<Event>, addr: string): seq<Message> {
    if events == [] then [] else Happen(Box(events[..|events| - 1], addr), events[|events| - 1], addr)
  }

  // ---- runs of calls that may stop anywhere ----

  datatype Step = Step(call: Call, stop: nat)

  function After(steps: seq<Step>): Store {
    if steps == [] then EMPTY
    else Exec(After(steps[..|steps| - 1]), steps[|steps| - 1].call, steps[|steps| - 1].stop)
  }

  /** The index write of a send delivers; the record delete of an ack removes; no other write shows. */
  function EventsOf(s: Store, st: Step): seq<Event> {
    match st.call
    case Send(_, _, _, _, _, _, _) => if Allowed(st.call) && st.stop >= 2 then [Delivered(NewMessage(st.call))] else []
    case Ack(id, caller) => if Mine(s, id, caller) && st.stop >= 1 then [Taken(id)] else []
  }

  function Events(steps: seq<Step>): seq<Event> {
    if steps == [] then []
    else
      var front := steps[..|steps| - 1];
      Events(front) + EventsOf(After(front), steps[|steps| - 1])
  }

  /** A send that got as far as its record. */
  predicate Sent(st: Step) { st.call.Send? && Allowed(st.call) && st.stop > 0 }

  function SentIds(steps: seq<Step>): set<string> {
    set i | 0 <= i < |steps| && Sent(steps[i]) :: NewMessage(steps[i].call).id
  }

  /** No two such sends of the run share a message id. */
  ghost predicate FreshIds(steps: seq<Step>) {
    forall i, j :: 0 <= i < j < |steps| && Sent(steps[i]) && Sent(steps[j]) ==>
      NewMessage(steps[i].call).id != NewMessage(steps[j].call).id
  }

  /** Ids are fresh exactly when no sender wrote to one recipient twice in the same nanosecond. */
  lemma FreshMeansApart(steps: seq<Step>)
    requires forall i :: 0 <= i < |steps| && Sent(steps[i]) ==> Plain(steps[i].call.from) && Plain(Lower(steps[i].call.to))
    ensures FreshIds(steps) <==> forall i, j :: 0 <= i < j < |steps| && Sent(steps[i]) && Sent(steps[j]) ==> Apart(steps[i].call, steps[j].call)
  {
    forall i, j | 0 <= i < j < |steps| && Sent(steps[i]) && Sent(steps[j])
      ensures NewMessage(steps[i].call).id != NewMessage(steps[j].call).id <==> Apart(steps[i].call, steps[j].call)
    {
      var c, d := steps[i].call, steps[j].call;
      MessageIDInjective(c.from, Lower(c.to), c.now, d.from, Lower(d.to), d.now);
    }
  }

  /** The sends differ in sender, recipient or time. */
  predicate Apart(c: Call, d: Call)
    requires c.Send? && d.Send?
  {
    Pairing.Normal(c.from) != Pairing.Normal(d.from) || Pairing.Normal(Lower(c.to)) != Pairing.Normal(Lower(d.to)) || c.now != d.now
  }

  /** Records and index entries come from past sends, and an id is indexed only under its recipient. */
  ghost predicate Inv(s: Store, used: set<string>) {
    && (forall id :: id in s.msgs ==> id in used && s.msgs[id].id == id)
    && (forall a, id :: id in Lookup(s.inbox, a) ==> id in used && (id in s.msgs ==> Lower(s.msgs[id].to) == a))
    && Tidy(s.inbox)
  }

  // ---- what each write does to what is visible ----

  lemma {:induction false} VisiblePut(msgs: map<string, Message>, ids: Ids, m: Message)
    requires m.id !in ids
    ensures Visible(msgs[m.id := m], ids) == Visible(msgs, ids)
  {
    if ids != [] {
      VisiblePut(msgs, ids[..|ids| - 1], m);
    }
  }

  lemma VisibleAdd(msgs: map<string, Message>, ids: Ids, id: string)
    ensures Visible(msgs, ids + [id]) == Visible(msgs, ids) + if id in msgs then [msgs[id]] else []
  {
    assert (ids + [id])[..|ids|] == ids;
  }

  lemma {:induction false} VisibleDrop(msgs: map<string, Message>, ids: Ids, id: string)
    requires forall x :: x in msgs ==> msgs[x].id == x
    ensures Visible(msgs - {id}, ids) == Drop(Visible(msgs, ids), id)
  {
    if ids != [] {
      var front, last := ids[..|ids| - 1], ids[|ids| - 1];
      VisibleDrop(msgs, front, id);
      var v := Visible(msgs, front);
      assert v + [] == v;
      if last in msgs {
        assert (v + [msgs[last]])[..|v|] == v;
      }
    }
  }

  lemma {:induction false} VisibleWithout(msgs: map<string, Message>, ids: Ids, id: string)
    requires id !in msgs
    ensures Visible(msgs, Without(ids, id)) == Visible(msgs, ids)
  {
    if ids != [] {
      var front, last := ids[..|ids| - 1], ids[|ids| - 1];
      VisibleWithout(msgs, front, id);
      if last != id {
        VisibleAdd(msgs, Without(front, id), last);
      }
    }
  }

  /** Writing the record of a send shows nothing to anyone. */
  lemma RecordIsSilent(s: Store, used: set<string>, m: Message, addr: string)
    requires Inv(s, used) && m.id !in used
    ensures View(Apply(s, PutMsg(m)), addr) == View(s, addr)
  {
    VisiblePut(s.msgs, Lookup(s.inbox, Lower(addr)), m);
  }

  /** Writing its index entry shows it, last, to its recipient and to nobody else. */
  lemma IndexDelivers(s: Store, m: Message, addr: string)
    requires m.id in s.msgs && s.msgs[m.id] == m && m.id !in Lookup(s.inbox, Lower(m.to))
    ensures View(Apply(s, AddId(Lower(m.to), m.id)), addr) == View(s, addr) + if Lower(addr) == Lower(m.to) then [m] else []
  {
    VisibleAdd(s.msgs, Lookup(s.inbox, Lower(m.to)), m.id);
  }

  /** Deleting a record takes the message out of every view. */
  lemma RecordDeleteTakes(s: Store, used: set<string>, id: string, addr: string)
    requires Inv(s, used)
    ensures View(Apply(s, DropMsg(id)), addr) == Drop(View(s, addr), id)
  {
    VisibleDrop(s.msgs, Lookup(s.inbox, Lower(addr)), id);
  }

  /** Cleaning up the index entry of a deleted record shows nothing to anyone. */
  lemma IndexCleanupIsSilent(s: Store, key: string, id: string, addr: string)
    requires id !in s.msgs
    ensures View(Apply(s, RemoveId(key, id)), addr) == View(s, addr)
  {
    RemoveLooksUp(s.inbox, key, id);
    VisibleWithout(s.msgs, Lookup(s.inbox, key), id);
  }

  lemma SendExecKeepsInv(s: Store, used: set<string>, st: Step)
    requires Inv(s, used) && st.call.Send? && (Sent(st) ==> NewMessage(st.call).id !in used)
    ensures Inv(Exec(s, st.call, st.stop), used + if Sent(st) then {NewMessage(st.call).id} else {})
  {
    if Sent(st) {
      SendKeepsInv(s, used, NewMessage(st.call));
    } else {
      assert Exec(s, st.call, st.stop) == s && used + {} == used;
    }
  }

  lemma AckExecKeepsInv(s: Store, used: set<string>, st: Step)
    requires Inv(s, used) && st.call.Ack?
    ensures Inv(Exec(s, st.call, st.stop), used)
  {
    AckKeepsInv(s, used, st.call.id, Lower(st.call.caller));
  }

  lemma SendKeepsInv(s: Store, used: set<string>, m: Message)
    requires Inv(s, used) && m.id !in used
    ensures Inv(s, used + {m.id}) && Inv(Apply(s, PutMsg(m)), used + {m.id})
    ensures Inv(Apply(Apply(s, PutMsg(m)), AddId(Lower(m.to), m.id)), used + {m.id})
  {
    IndexKeepsInv(Apply(s, PutMsg(m)), used + {m.id}, m);
  }

  lemma IndexKeepsInv(s: Store, used: set<string>, m: Message)
    requires Inv(s, used) && m.id in s.msgs && s.msgs[m.id] == m
    ensures Inv(Apply(s, AddId(Lower(m.to), m.id)), used)
  {
    var s' := Apply(s, AddId(Lower(m.to), m.id));
    StaysTidy(s.inbox, Lower(m.to), m.id);
    forall a, id | id in Lookup(s'.inbox, a) ensures id in used && (id in s.msgs ==> Lower(s.msgs[id].to) == a) {
      AddAt(s.inbox, Lower(m.to), m.id, a, id);
    }
  }

  lemma AckKeepsInv(s: Store, used: set<string>, id: string, key: string)
    requires Inv(s, used)
    ensures Inv(Apply(s, DropMsg(id)), used) && Inv(Apply(Apply(s, DropMsg(id)), RemoveId(key, id)), used)
  {
    RemoveLooksUp(s.inbox, key, id);
    StaysTidy(s.inbox, key, id);
  }

  /** A message with a fresh id: silent after its record, delivered after its index entry. */
  lemma MessageShows(s: Store, used: set<string>, m: Message, addr: string)
    requires Inv(s, used) && m.id !in used
    ensures View(Apply(s, PutMsg(m)), addr) == View(s, addr)
    ensures View(Apply(Apply(s, PutMsg(m)), AddId(Lower(m.to), m.id)), addr) == Happen(View(s, addr), Delivered(m), addr)
  {
    RecordIsSilent(s, used, m, addr);
    assert m.id !in Lookup(s.inbox, Lower(m.to));
    IndexDelivers(Apply(s, PutMsg(m)), m, addr);
  }

  lemma SendShows(s: Store, used: set<string>, st: Step, addr: string)
    requires Inv(s, used) && st.call.Send? && (Sent(st) ==> NewMessage(st.call).id !in used)
    ensures View(Exec(s, st.call, st.stop), addr) ==
            if EventsOf(s, st) == [] then View(s, addr) else Happen(View(s, addr), EventsOf(s, st)[0], addr)
  {
    if Sent(st) {
      var m := NewMessage(st.call);
      MessageShows(s, used, m, addr);
      SentExec(s, st, m);
    } else {
      assert Exec(s, st.call, st.stop) == s;
    }
  }

  lemma SentExec(s: Store, st: Step, m: Message)
    requires Sent(st) && m == NewMessage(st.call)
    ensures EventsOf(s, st) == if st.stop >= 2 then [Delivered(m)] else []
    ensures Exec(s, st.call, st.stop) ==
            if st.stop >= 2 then Apply(Apply(s, PutMsg(m)), AddId(Lower(m.to), m.id)) else Apply(s, PutMsg(m))
  {
  }

  lemma AckShows(s: Store, used: set<string>, st: Step, addr: string)
    requires Inv(s, used) && st.call.Ack?
    ensures View(Exec(s, st.call, st.stop), addr) ==
            if EventsOf(s, st) == [] then View(s, addr) else Happen(View(s, addr), EventsOf(s, st)[0], addr)
  {
    var id := st.call.id;
    if Mine(s, id, st.call.caller) && st.stop > 0 {
      RecordDeleteTakes(s, used, id, addr);
      IndexCleanupIsSilent(Apply(s, DropMsg(id)), Lower(st.call.caller), id, addr);
    }
  }

  lemma FreshLast(steps: seq<Step>)
    requires FreshIds(steps) && steps != []
    ensures var front, st := steps[..|steps| - 1], steps[|steps| - 1];
            && FreshIds(front)
            && (Sent(st) ==> NewMessage(st.call).id !in SentIds(front))
            && SentIds(steps) == SentIds(front) + if Sent(st) then {NewMessage(st.call).id} else {}
  {
    var front := steps[..|steps| - 1];
    SentGrows(front, steps[|steps| - 1]);
    assert steps == front + [steps[|steps| - 1]];
  }

  lemma SentGrows(front: seq<Step>, st: Step)
    ensures SentIds(front + [st]) == SentIds(front) + if Sent(st) then {NewMessage(st.call).id} else {}
  {
    var steps := front + [st];
    forall i | 0 <= i < |front| ensures steps[i] == front[i] {}
    assert steps[|front|] == st;
  }

  lemma {:induction false} RunInv(steps: seq<Step>)
    requires FreshIds(steps)
    ensures Inv(After(steps), SentIds(steps))
  {
    if steps != [] {
      var front, st := steps[..|steps| - 1], steps[|steps| - 1];
      FreshLast(steps);
      RunInv(front);
      if st.call.Send? {
        SendExecKeepsInv(After(front), SentIds(front), st);
      } else {
        AckExecKeepsInv(After(front), SentIds(front), st);
        assert SentIds(steps) == SentIds(front);
      }
    }
  }

  lemma BoxStep(events: seq<Event>, more: seq<Event>, addr: string)
    requires |more| <= 1
    ensures Box(events + more, addr) == if more == [] then Box(events, addr) else Happen(Box(events, addr), more[0], addr)
  {
    if more == [] {
      assert events + more == events;
    } else {
      assert (events + more)[..|events|] == events;
    }
  }

  /** After any run of sends and acks, each cut short anywhere, every recipient sees exactly the abstract inbox. */
  lemma {:induction false} ViewIsInbox(steps: seq<Step>, addr: string)
    requires FreshIds(steps)
    ensures View(After(steps), addr) == Box(Events(steps), addr)
  {
    if steps != [] {
      var front, st := steps[..|steps| - 1], steps[|steps| - 1];
      FreshLast(steps);
      ViewIsInbox(front, addr);
      RunInv(front);
      if st.call.Send? {
        SendShows(After(front), SentIds(front), st, addr);
      } else {
        AckShows(After(front), SentIds(front), st, addr);
      }
      BoxStep(Events(front), EventsOf(After(front), st), addr);
    }
  }

  lemma SecondWins(m: Message, m': Message)
    requires m.id == m'.id && m.to == m'.to
    ensures var key := Lower(m.to);
            var s := Apply(Apply(EMPTY, PutMsg(m)), AddId(key, m.id));
            var s' := Apply(Apply(s, PutMsg(m')), AddId(key, m.id));
            View(s', m.to) == [m']
  {
    var key := Lower(m.to);
    var s := Apply(Apply(EMPTY, PutMsg(m)), AddId(key, m.id));
    var s' := Apply(Apply(s, PutMsg(m')), AddId(key, m.id));
    assert Lookup(s.inbox, key) == [m.id];
    assert Lookup(s'.inbox, key) == [m.id];
    assert s'.msgs[m.id] == m';
    assert [m.id][..0] == [] && Visible(s'.msgs, []) == [];
    assert Visible(s'.msgs, [m.id]) == Visible(s'.msgs, []) + [m'];
  }

  lemma BothDelivered(m: Message, m': Message, addr: string)
    requires Lower(m.to) == Lower(m'.to) == Lower(addr)
    ensures Box([Delivered(m), Delivered(m')], addr) == [m, m']
  {
    BoxStep([], [Delivered(m)], addr);
    BoxStep([Delivered(m)], [Delivered(m')], addr);
    assert [] + [Delivered(m)] == [Delivered(m)] && [Delivered(m)] + [Delivered(m')] == [Delivered(m), Delivered(m')];
  }

  lemma TwoSends(c: Call, d: Call)
    requires c.Send? && d.Send? && Allowed(c) && Allowed(d)
    ensures var m, m' := NewMessage(c), NewMessage(d);
            var s := Apply(Apply(EMPTY, PutMsg(m)), AddId(Lower(m.to), m.id));
            && After([Step(c, 2), Step(d, 2)]) == Apply(Apply(s, PutMsg(m')), AddId(Lower(m'.to), m'.id))
            && Events([Step(c, 2), Step(d, 2)]) == [Delivered(m), Delivered(m')]
  {
    var one, two := [Step(c, 2)], [Step(c, 2), Step(d, 2)];
    assert two[..1] == one && one[..0] == [];
    assert After([]) == EMPTY && Events([]) == [];
    SentExec(EMPTY, one[0], NewMessage(c));
    SentExec(After(one), two[1], NewMessage(d));
    assert Events(one) == [Delivered(NewMessage(c))];
  }

  /** Two sends of one sender to one recipient in the same nanosecond: both are confirmed and the first is lost. */
  lemma SameInstantOverwrites(c: Call, d: Call)
    requires c.Send? && d.Send? && Allowed(c) && Allowed(d) && c.from == d.from && c.to == d.to && c.now == d.now
    ensures var steps := [Step(c, 2), Step(d, 2)];
            View(After(steps), c.to) == [NewMessage(d)] && Box(Events(steps), c.to) == [NewMessage(c), NewMessage(d)]
  {
    LowerIdempotent(c.to);
    TwoSends(c, d);
    SecondWins(NewMessage(c), NewMessage(d));
    BothDelivered(NewMessage(c), NewMessage(d), c.to);
  }

  // ---- what a send does when its id is not fresh ----

  /** What holds in every run, whatever the ids: records carry their key and lists are tidy. */
  ghost predicate Sound(s: Store) { (forall id :: id in s.msgs ==> s.msgs[id].id == id) && Tidy(s.inbox) }

  lemma ApplyKeepsSound(s: Store, w: Write)
    requires Sound(s)
    ensures Sound(Apply(s, w))
  {
    if w.AddId? || w.RemoveId? {
      StaysTidy(s.inbox, w.addr, w.id);
    }
  }

  lemma ExecKeepsSound(s: Store, c: Call, stop: nat)
    requires Sound(s)
    ensures Sound(Exec(s, c, stop))
  {
    var ws := Writes(s, c);
    if ws != [] {
      ApplyKeepsSound(s, ws[0]);
      ApplyKeepsSound(Apply(s, ws[0]), ws[1]);
    }
  }

  lemma {:induction false} AlwaysSound(steps: seq<Step>)
    ensures Sound(After(steps))
  {
    if steps != [] {
      var front, st := steps[..|steps| - 1], steps[|steps| - 1];
      AlwaysSound(front);
      ExecKeepsSound(After(front), st.call, st.stop);
    }
  }

  lemma {:induction false} VisibleSplit(msgs: map<string, Message>, a: Ids, b: Ids)
    ensures Visible(msgs, a + b) == Visible(msgs, a) + Visible(msgs, b)
    decreases |b|
  {
    if b == [] {
      assert a + b == a;
    } else {
      var f, id := b[..|b| - 1], b[|b| - 1];
      assert a + b == (a + f) + [id] && b == f + [id];
      VisibleSplit(msgs, a, f);
      VisibleAdd(msgs, a + f, id);
      VisibleAdd(msgs, f, id);
    }
  }

  lemma {:induction false} VisibleIds(msgs: map<string, Message>, ids: Ids, m: Message)
    requires (forall id :: id in msgs ==> msgs[id].id == id) && m in Visible(msgs, ids)
    ensures m.id in ids
  {
    if m !in Visible(msgs, ids[..|ids| - 1]) {
      assert m == msgs[ids[|ids| - 1]];
    } else {
      VisibleIds(msgs, ids[..|ids| - 1], m);
    }
  }

  /** The ids listed behind `id`. */
  function Behind(ids: Ids, id: string): Ids {
    if ids == [] then [] else if ids[0] == id then ids[1..] else Behind(ids[1..], id)
  }

  lemma {:induction false} BehindSplits(ids: Ids, id: string) returns (front: Ids)
    requires id in ids && NoDuplicates(ids)
    ensures ids == front + [id] + Behind(ids, id) && id !in front && id !in Behind(ids, id)
  {
    if ids[0] == id {
      front := [];
    } else {
      var rest := BehindSplits(ids[1..], id);
      front := [ids[0]] + rest;
    }
  }

  /** A message put in the place its id already has. */
  lemma InPlace(msgs: map<string, Message>, front: Ids, back: Ids, m: Message)
    requires m.id !in front && m.id !in back
    ensures var ids := front + [m.id] + back;
            && Visible(msgs[m.id := m], ids) == Visible(msgs, front) + [m] + Visible(msgs, back)
            && Visible(msgs, ids) == Visible(msgs, front) + (if m.id in msgs then [msgs[m.id]] else []) + Visible(msgs, back)
  {
    var msgs' := msgs[m.id := m];
    VisiblePut(msgs, front, m);
    VisiblePut(msgs, back, m);
    VisibleSplit(msgs', front + [m.id], back);
    VisibleSplit(msgs, front + [m.id], back);
    VisibleAdd(msgs', front, m.id);
    VisibleAdd(msgs, front, m.id);
  }

  /** Putting a message between the visible ones puts it last exactly when nothing stood in its place or behind it. */
  lemma LastInPlace(f: seq<Message>, was: seq<Message>, b: seq<Message>, m: Message)
    requires |was| <= 1 && m !in b
    ensures f + [m] + b == f + was + b + [m] <==> was == [] && b == []
  {
    var l, r := f + [m] + b, f + was + b + [m];
    assert r[|r| - 1] == m && |l| == |f| + 1 + |b| && |r| == |f| + |was| + |b| + 1;
    if b != [] {
      assert l[|l| - 1] == b[|b| - 1];
    }
  }

  /**
   * A whole send appends its message to what the recipient sees exactly when its id is not in the
   * recipient's index, or is left there by an ack that stopped, with nothing visible behind it.
   */
  lemma SendAppends(steps: seq<Step>, c: Call)
    requires c.Send? && Allowed(c)
    ensures var s, m := After(steps), NewMessage(c);
            var ids := Lookup(s.inbox, Lower(m.to));
            View(Exec(s, c, 2), m.to) == View(s, m.to) + [m] <==>
            m.id !in ids || (m.id !in s.msgs && Visible(s.msgs, Behind(ids, m.id)) == [])
  {
    AlwaysSound(steps);
    SendAppendsTo(After(steps), NewMessage(c));
    SentExec(After(steps), Step(c, 2), NewMessage(c));
  }

  lemma SendAppendsTo(s: Store, m: Message)
    requires Sound(s)
    ensures var ids := Lookup(s.inbox, Lower(m.to));
            View(Apply(Apply(s, PutMsg(m)), AddId(Lower(m.to), m.id)), m.to) == View(s, m.to) + [m] <==>
            m.id !in ids || (m.id !in s.msgs && Visible(s.msgs, Behind(ids, m.id)) == [])
  {
    var ids := Lookup(s.inbox, Lower(m.to));
    if m.id !in ids {
      VisiblePut(s.msgs, ids, m);
      IndexDelivers(Apply(s, PutMsg(m)), m, m.to);
    } else {
      SendInPlace(s, m, ids);
    }
  }

  lemma SendInPlace(s: Store, m: Message, ids: Ids)
    requires Sound(s) && ids == Lookup(s.inbox, Lower(m.to)) && m.id in ids
    ensures View(Apply(Apply(s, PutMsg(m)), AddId(Lower(m.to), m.id)), m.to) == View(s, m.to) + [m] <==>
            m.id !in s.msgs && Visible(s.msgs, Behind(ids, m.id)) == []
  {
    var front := BehindSplits(ids, m.id);
    var back := Behind(ids, m.id);
    InPlace(s.msgs, front, back, m);
    assert Add(s.inbox, Lower(m.to), m.id) == s.inbox;
    assert m !in Visible(s.msgs, back) by {
      forall x | x in Visible(s.msgs, back) ensures x != m {
        VisibleIds(s.msgs, back, x);
      }
    }
    LastInPlace(Visible(s.msgs, front), if m.id in s.msgs then [s.msgs[m.id]] else [], Visible(s.msgs, back), m);
  }

  // ---- what each call stores, in any reachable store ----

  /**
   * A whole send: stored exactly when recipient, pair id and kind are given and sender and recipient
   * are both members of the pair. The record carries the request's fields; no other record changes,
   * and only the recipient's list can.
   */
  lemma SendStores(steps: seq<Step>, c: Call)
    requires c.Send?
    ensures var s, s' := After(steps), Exec(After(steps), c, 2);
            var to := Lower(c.to);
            var id := Pairing.Normal(c.from) + "_" + Pairing.Normal(to) + "_" + Decimal(c.now);
            if c.to != "" && c.pairId != "" && c.kind != "" && c.pair.Some? && BothMembers(c.pair.value, c.from, c.to) then
              && s'.msgs == s.msgs[id := Message(id, c.from, to, c.pairId, c.kind, c.body, c.now)]
              && id in Lookup(s'.inbox, to)
              && (forall a :: a != to ==> Lookup(s'.inbox, a) == Lookup(s.inbox, a))
            else s' == s
  {
    LowerIdempotent(c.to);
    var s, m := After(steps), NewMessage(c);
    if Allowed(c) {
      SentExec(s, Step(c, 2), m);
      AddLooksUp(Apply(s, PutMsg(m)).inbox, Lower(m.to), m.id);
    }
  }

  /** Two addresses are among the pair's two, whatever their case. */
  predicate BothMembers(p: Pairing.Pair, from: string, to: string) {
    {Lower(from), Lower(to)} <= {Lower(p.initiator), Lower(p.partner)}
  }

  /** A whole ack removes the record exactly when it is the recipient's, and changes nothing otherwise. */
  lemma AckTakes(steps: seq<Step>, id: string, caller: string)
    requires id != "" && id in After(steps).msgs
    ensures var s, s' := After(steps), Exec(After(steps), Ack(id, caller), 2);
            && (id !in s'.msgs <==> Lower(s.msgs[id].to) == Lower(caller))
            && (id !in s'.msgs ==> s'.msgs == s.msgs - {id} && id !in Lookup(s'.inbox, Lower(caller)))
            && (id in s'.msgs ==> s' == s)
  {
    var s := After(steps);
    RemoveLooksUp(Apply(s, DropMsg(id)).inbox, Lower(caller), id);
  }

  /** In what anyone sees: the recipient's ack takes the message out, nobody else's changes anything, and no other message goes. */
  lemma AckSeen(steps: seq<Step>, id: string, caller: string, addr: string, m: Message)
    requires id != "" && id in After(steps).msgs
    ensures var s := After(steps);
            m in View(Exec(s, Ack(id, caller), 2), addr) <==>
            m in View(s, addr) && !(m.id == id && Lower(s.msgs[id].to) == Lower(caller))
  {
    AlwaysSound(steps);
    var s := After(steps);
    if Lower(s.msgs[id].to) == Lower(caller) {
      VisibleDrop(s.msgs, Lookup(s.inbox, Lower(addr)), id);
      IndexCleanupIsSilent(Apply(s, DropMsg(id)), Lower(caller), id, addr);
      DropMembers(View(s, addr), id, m);
    }
  }

  lemma {:induction false} DropMembers(box: seq<Message>, id: string, m: Message)
    ensures m in Drop(box, id) <==> m in box && m.id != id
  {
    if box != [] {
      DropMembers(box[..|box| - 1], id, m);
      assert box == box[..|box| - 1] + [box[|box| - 1]];
    }
  }
}
