/**
 * Any number of accept handlers over one history: cosignMu guards the busy set, histMu guards the
 * history writers, and clearing the history takes neither.
 */
module CosignThreads {
  import opened Wrappers
  import opened Cosign

  type Tid = nat

  datatype Job =
    | Accept(id: string, ecdsa: bool, hash: string, sig: string, rest: string)
    | Note(ev: Event)                     // an initiator or broadcast event
    | Finish(hash: string, sig: string)   // completeCosign
    | Clear

  function EventOf(job: Job): Event
    requires job.Accept? || job.Note?
  {
    if job.Note? then job.ev else Event("acceptor", "completed", job.hash, job.sig, job.id, job.rest)
  }

  /**
   * Where a handler stands; `adm` is the trace position of an accept's busy mark, `from` the length of
   * the trace when the history was loaded.
   */
  datatype Pc =
    | Ready(job: Job)
    | Guarding(job: Job)                                       // accept holds cosignMu
    | Tested(job: Job)                                         // found its swap not busy
    | Scanned(job: Job, list: seq<Event>, from: nat)           // has loaded the history for the guard
    | Refusing(job: Job)                                       // refused, still holds cosignMu
    | Marked(job: Job, adm: nat)                               // has marked its swap busy, still holds cosignMu
    | Working(job: Job, adm: nat)                              // admitted accept, signing
    | Signed(job: Job, adm: nat)                               // ECDSA signature made, not recorded
    | Holding(job: Job, adm: nat)                              // holds histMu
    | Read(job: Job, adm: nat, list: seq<Event>, from: nat)    // has loaded the history to write it
    | Wrote(job: Job, adm: nat)                                // has stored the history
    | Leaving(job: Job, adm: nat)                              // about to take cosignMu again
    | Clearing(job: Job, adm: nat)                             // holds cosignMu, its mark still set
    | Cleared(job: Job)                                        // has deleted its mark, still holds cosignMu
    | Over(job: Job)

  /** What happened, in order: busy marks and writes of the history, each with the point it loaded it at, and clears. */
  datatype Mark =
    | Adm(tid: Tid, id: string, from: nat)
    | Rec(tid: Tid, ev: Event, from: nat)
    | Fin(tid: Tid, hash: string, sig: string, from: nat)
    | Clr

  datatype State = State(
    busy: map<string, Tid>,    // the busy marks; who set a mark is never consulted by a step
    history: Option<seq<Event>>,
    cosignMu: Option<Tid>,
    histMu: Option<Tid>,
    threads: map<Tid, Pc>,
    trace: seq<Mark>)

  const INIT := State(map[], None, None, None, map[], [])

  function Load(st: State): seq<Event> { if st.history.Some? then st.history.value else [] }

  datatype Action = Spawn(tid: Tid, job: Job) | Step(tid: Tid, ok: bool)

  function Goto(st: State, tid: Tid, pc: Pc): State { st.(threads := st.threads[tid := pc]) }

  function Mark1(st: State, m: Mark): State { st.(trace := st.trace + [m]) }

  /** The guard of an accept, under cosignMu; without an escrow id there is none. */
  function GuardStep(st: State, tid: Tid, pc: Pc): State
    requires pc.job.Accept?
  {
    match pc
    case Ready(job) =>
      if job.id == "" then Goto(Mark1(st, Adm(tid, "", |st.trace|)), tid, Working(job, |st.trace|))
      else if st.cosignMu.Some? then st    // blocked
      else Goto(st.(cosignMu := Some(tid)), tid, Guarding(job))
    case Guarding(job) => Goto(st, tid, if job.id in st.busy then Refusing(job) else Tested(job))
    case Tested(job) => Goto(st, tid, Scanned(job, Load(st), |st.trace|))
    case Scanned(job, list, from) =>
      if AlreadyCosigned(list, job.id) then Goto(st, tid, Refusing(job))
      else Goto(Mark1(st.(busy := st.busy[job.id := tid]), Adm(tid, job.id, from)), tid, Marked(job, |st.trace|))
    case Refusing(job) => Goto(st.(cosignMu := None), tid, Over(job))
    case Marked(job, adm) => Goto(st.(cosignMu := None), tid, Working(job, adm))
    case _ => st
  }

  /** The deferred release of the busy mark, under cosignMu. */
  function ReleaseStep(st: State, tid: Tid, pc: Pc): State {
    match pc
    case Leaving(job, adm) =>
      if !job.Accept? || job.id == "" then Goto(st, tid, Over(job))
      else if st.cosignMu.Some? then st    // blocked
      else Goto(st.(cosignMu := Some(tid)), tid, Clearing(job, adm))
    case Clearing(job, adm) => Goto(st.(busy := if job.Accept? then st.busy - {job.id} else st.busy), tid, Cleared(job))
    case Cleared(job) => Goto(st.(cosignMu := None), tid, Over(job))
    case _ => st
  }

  predicate Updates(list: seq<Event>, hash: string) { exists i :: 0 <= i < |list| && Awaits(list[i], hash) }

  function WriteStep(st: State, tid: Tid, pc: Pc): State
    requires pc.Read?
  {
    match pc.job
    case Finish(hash, sig) =>
      Goto(if Updates(pc.list, hash)
           then Mark1(st.(history := Some(FinishAll(pc.list, hash, sig))), Fin(tid, hash, sig, pc.from)) else st,
           tid, Wrote(pc.job, pc.adm))
    case Clear => st
    case _ =>
      Goto(Mark1(st.(history := Some(Prepend(pc.list, EventOf(pc.job)))), Rec(tid, EventOf(pc.job), pc.from)),
           tid, Wrote(pc.job, pc.adm))
  }

  function Step1(st: State, tid: Tid, pc: Pc, ok: bool): State {
    if pc.job.Accept? && (pc.Ready? || pc.Guarding? || pc.Tested? || pc.Scanned? || pc.Refusing? || pc.Marked?) then GuardStep(st, tid, pc)
    else if pc.Leaving? || pc.Clearing? || pc.Cleared? then ReleaseStep(st, tid, pc)
    else match pc
      case Ready(job) =>
        if job.Clear? then Goto(Mark1(st.(history := None), Clr), tid, Over(job))
        else if st.histMu.Some? then st    // blocked
        else Goto(st.(histMu := Some(tid)), tid, Holding(job, 0))
      case Working(job, adm) => Goto(st, tid, if ok && job.Accept? && job.ecdsa then Signed(job, adm) else Leaving(job, adm))
      case Signed(job, adm) =>
        if st.histMu.Some? then st else Goto(st.(histMu := Some(tid)), tid, Holding(job, adm))
      case Holding(job, adm) => Goto(st, tid, Read(job, adm, Load(st), |st.trace|))
      case Read(_, _, _, _) => WriteStep(st, tid, pc)
      case Wrote(job, adm) => Goto(st.(histMu := None), tid, if job.Accept? then Leaving(job, adm) else Over(job))
      case _ => st
  }

  function Act(st: State, a: Action): State {
    match a
    case Spawn(tid, job) =>
      if tid in st.threads || (job.Note? && job.ev.role == "acceptor") then st else Goto(st, tid, Ready(job))
    case Step(tid, ok) => if tid in st.threads then Step1(st, tid, st.threads[tid], ok) else st
  }

  function Reach(sched: seq<Action>): State {
    if sched == [] then INIT else Act(Reach(sched[..|sched| - 1]), sched[|sched| - 1])
  }

  // ---- the history read off the trace ----

  predicate Writes(m: Mark) { m.Rec? || m.Fin? }

  function Upto(trace: seq<Mark>, n: nat): seq<Mark> { if n <= |trace| then trace[..n] else trace }

  function Written(loaded: seq<Event>, m: Mark): seq<Event>
    requires Writes(m)
  {
    if m.Rec? then Prepend(loaded, m.ev) else FinishAll(loaded, m.hash, m.sig)
  }

  /** The stored list: a write puts back what was stored when it loaded, whatever was cleared since. */
  function Stored(trace: seq<Mark>): seq<Event>
    decreases |trace|
  {
    if trace == [] then []
    else
      var front, m := trace[..|trace| - 1], trace[|trace| - 1];
      if m.Clr? then [] else if m.Adm? then Stored(front) else Written(Stored(Upto(front, m.from)), m)
  }

  lemma StoredStep(trace: seq<Mark>, m: Mark)
    ensures Stored(trace + [m]) ==
            if m.Clr? then [] else if m.Adm? then Stored(trace) else Written(Stored(Upto(trace, m.from)), m)
  {
    assert (trace + [m])[..|trace|] == trace;
  }

  /** No write from position n on. */
  predicate Quiet(trace: seq<Mark>, n: nat) { forall w :: n <= w < |trace| ==> !Writes(trace[w]) }

  predicate WriteOk(trace: seq<Mark>, w: nat)
    requires w < |trace|
  {
    Writes(trace[w]) ==> trace[w].from <= w && Quiet(trace[..w], trace[w].from)
  }

  /** No write falls between another write and its load. */
  predicate Serial(trace: seq<Mark>) { forall w: nat :: w < |trace| ==> WriteOk(trace, w) }

  lemma SerialStep(trace: seq<Mark>, m: Mark)
    requires Serial(trace) && (Writes(m) ==> m.from <= |trace| && Quiet(trace, m.from))
    ensures Serial(trace + [m])
  {
    var t := trace + [m];
    forall w: nat | w < |t| ensures WriteOk(t, w) {
      if w < |trace| {
        assert WriteOk(trace, w) && t[..w] == trace[..w];
      } else {
        assert t[..w] == trace;
      }
    }
  }

  // ---- the invariant ----

  predicate AcceptRec(m: Mark, id: string) { m.Rec? && CompletedAccept(m.ev, id) }

  /** An accept that is past its guard and has not released its mark. */
  predicate InProgress(pc: Pc) {
    pc.job.Accept? && (pc.Marked? || pc.Working? || pc.Signed? || pc.Holding? || pc.Read? || pc.Wrote? || pc.Leaving? || pc.Clearing?)
  }

  predicate HoldsHist(pc: Pc) { pc.Holding? || pc.Read? || pc.Wrote? }

  predicate HoldsGuard(pc: Pc) {
    pc.Guarding? || pc.Tested? || pc.Scanned? || pc.Refusing? || pc.Marked? || pc.Clearing? || pc.Cleared?
  }

  predicate Unrecorded(pc: Pc) { InProgress(pc) && !pc.Wrote? && !pc.Leaving? && !pc.Clearing? }

  /** No completed accept of the swap was recorded from position n on. */
  predicate NoneSince(trace: seq<Mark>, n: nat, id: string) {
    forall i :: n <= i < |trace| ==> !AcceptRec(trace[i], id)
  }

  /** An admitted accept that has not recorded: its guard loaded the history after every recorded accept of its swap, and saw none. */
  ghost predicate AdmittedOk(st: State, tid: Tid, pc: Pc)
    requires Unrecorded(pc)
  {
    pc.job.id != "" ==>
      && pc.adm < |st.trace|
      && st.trace[pc.adm].Adm? && st.trace[pc.adm].tid == tid && st.trace[pc.adm].id == pc.job.id
      && var from := st.trace[pc.adm].from;
      && from <= pc.adm
      && !AlreadyCosigned(Stored(st.trace[..from]), pc.job.id)
      && NoneSince(st.trace, from, pc.job.id)
  }

  /** A handler between its load of the history and what it does with it. */
  ghost predicate LoadedOk(st: State, pc: Pc) {
    && (pc.Scanned? ==>
          pc.job.Accept? && pc.from <= |st.trace| && pc.list == Stored(st.trace[..pc.from]) && NoneSince(st.trace, pc.from, pc.job.id))
    && (pc.Read? ==> pc.from <= |st.trace| && Quiet(st.trace, pc.from) && pc.list == Stored(st.trace[..pc.from]))
  }

  ghost predicate ThreadOk(st: State, tid: Tid, pc: Pc) {
    && (pc.job.Note? ==> pc.job.ev.role != "acceptor")
    && (pc.Working? || pc.Signed? || pc.Leaving? || HoldsGuard(pc) ==> pc.job.Accept?)
    && (HoldsGuard(pc) ==> pc.job.id != "")
    && (pc.job.Clear? ==> pc.Ready? || pc.Over?)
    && (HoldsHist(pc) <==> st.histMu == Some(tid))
    && (HoldsGuard(pc) <==> st.cosignMu == Some(tid))
    && (pc.Tested? || pc.Scanned? ==> pc.job.id !in st.busy)
    && LoadedOk(st, pc)
    && (InProgress(pc) && pc.job.id != "" ==> pc.job.id in st.busy && st.busy[pc.job.id] == tid)
    && (Unrecorded(pc) ==> AdmittedOk(st, tid, pc))
  }

  /** Two recorded accepts of one swap: the later one's guard loaded the history in between, when the earlier was no longer stored. */
  ghost predicate PairOk(trace: seq<Mark>, i: nat, j: nat, id: string)
    requires i < j < |trace| && trace[j].Rec?
  {
    exists k :: i < k < j && Admits(trace, k, trace[j].tid, id) && i < trace[k].from && !AlreadyCosigned(Stored(trace[..trace[k].from]), id)
  }

  /** Entry k is the admission of an accept of the swap, with its load before it. */
  predicate Admits(trace: seq<Mark>, k: int, tid: Tid, id: string) {
    0 <= k < |trace| && trace[k].Adm? && trace[k].tid == tid && trace[k].id == id && trace[k].from <= k
  }

  ghost predicate Safe(trace: seq<Mark>) {
    forall i, j, id :: 0 <= i < j < |trace| && id != "" && AcceptRec(trace[i], id) && AcceptRec(trace[j], id) ==> PairOk(trace, i, j, id)
  }

  /** A busy mark belongs to an accept of that swap that is in progress. */
  ghost predicate MarkOk(st: State, id: string)
    requires id in st.busy
  {
    id != "" && var t := st.busy[id]; t in st.threads && InProgress(st.threads[t]) && st.threads[t].job.id == id
  }

  ghost predicate Inv(st: State) {
    && Load(st) == Stored(st.trace) && Serial(st.trace)
    && (forall tid :: tid in st.threads ==> ThreadOk(st, tid, st.threads[tid]))
    && (forall id :: id in st.busy ==> MarkOk(st, id))
    && (st.histMu.Some? ==> st.histMu.value in st.threads)
    && (st.cosignMu.Some? ==> st.cosignMu.value in st.threads)
    && Safe(st.trace)
  }

  /** A lock stays, or moves between a thread and nobody. */
  predicate LockMoves(before: Option<Tid>, after: Option<Tid>, tid: Tid) {
    before == after || {before, after} <= {None, Some(tid)}
  }

  lemma QuietOther(st: State, st': State, tid: Tid, t: Tid, pc: Pc)
    requires t != tid && ThreadOk(st, t, pc) && st'.trace == st.trace
    requires LockMoves(st.histMu, st'.histMu, tid) && LockMoves(st.cosignMu, st'.cosignMu, tid)
    requires st'.busy.Keys <= st.busy.Keys
    requires forall id :: id in st.busy && st.busy[id] != tid ==> id in st'.busy && st'.busy[id] == st.busy[id]
    ensures ThreadOk(st', t, pc)
  {
  }

  /** A step that leaves the trace alone: one thread moves, the locks move only between it and nobody. */
  lemma QuietStep(st: State, st': State, tid: Tid)
    requires Inv(st) && tid in st'.threads
    requires st' == State(st'.busy, st'.history, st'.cosignMu, st'.histMu, st.threads[tid := st'.threads[tid]], st.trace)
    requires LockMoves(st.histMu, st'.histMu, tid) && LockMoves(st.cosignMu, st'.cosignMu, tid)
    requires Load(st') == Load(st)
    requires ThreadOk(st', tid, st'.threads[tid])
    requires InProgress(st'.threads[tid]) ==> tid in st.threads && InProgress(st.threads[tid]) && st'.threads[tid].job == st.threads[tid].job
    requires st'.busy == st.busy - if tid in st.threads && InProgress(st.threads[tid]) && !InProgress(st'.threads[tid])
                                   then {st.threads[tid].job.id} else {}
    ensures Inv(st')
  {
    if tid in st.threads {
      assert ThreadOk(st, tid, st.threads[tid]);
    }
    forall t | t in st'.threads && t != tid ensures ThreadOk(st', t, st'.threads[t]) {
      assert ThreadOk(st, t, st.threads[t]);
      QuietOther(st, st', tid, t, st.threads[t]);
    }
    forall id | id in st'.busy ensures MarkOk(st', id) {
      assert MarkOk(st, id);
    }
  }

  /** An entry that is no accept record of a swap in question can be appended without harm to the other threads. */
  lemma SafeExtends(trace: seq<Mark>, m: Mark)
    requires Safe(trace)
    requires forall i, id :: 0 <= i < |trace| && id != "" && AcceptRec(trace[i], id) && AcceptRec(m, id) ==>
               PairOk(trace + [m], i, |trace|, id)
    ensures Safe(trace + [m])
  {
    var t := trace + [m];
    forall i, j, id | 0 <= i < j < |t| && id != "" && AcceptRec(t[i], id) && AcceptRec(t[j], id)
      ensures PairOk(t, i, j, id)
    {
      if j < |trace| {
        PairExtends(trace, m, i, j, id);
      }
    }
  }

  lemma PairExtends(trace: seq<Mark>, m: Mark, i: nat, j: nat, id: string)
    requires i < j < |trace| && trace[j].Rec? && PairOk(trace, i, j, id)
    ensures PairOk(trace + [m], i, j, id)
  {
    var t := trace + [m];
    var k :| i < k < j && Admits(trace, k, trace[j].tid, id) && i < trace[k].from && !AlreadyCosigned(Stored(trace[..trace[k].from]), id);
    assert t[..t[k].from] == trace[..trace[k].from];
    assert Admits(t, k, t[j].tid, id);
  }

  lemma AdmittedOkExtends(st: State, st': State, tid: Tid, pc: Pc, m: Mark)
    requires Unrecorded(pc) && AdmittedOk(st, tid, pc) && st'.trace == st.trace + [m]
    requires pc.job.id == "" || !AcceptRec(m, pc.job.id)
    ensures AdmittedOk(st', tid, pc)
  {
    if pc.job.id != "" {
      var from := st.trace[pc.adm].from;
      assert st'.trace[..from] == st.trace[..from];
    }
  }

  lemma LoadedOkExtends(st: State, st': State, pc: Pc, m: Mark)
    requires LoadedOk(st, pc) && st'.trace == st.trace + [m]
    requires pc.Read? ==> !Writes(m)
    requires pc.Scanned? && pc.job.Accept? ==> !AcceptRec(m, pc.job.id)
    ensures LoadedOk(st', pc)
  {
    if pc.Read? || pc.Scanned? {
      assert st'.trace[..pc.from] == st.trace[..pc.from];
    }
  }

  /** A step that appends to the trace leaves another thread's state of affairs alone. */
  lemma OtherThreadOk(st: State, st': State, tid: Tid, t: Tid, pc: Pc, m: Mark)
    requires t != tid && ThreadOk(st, t, pc) && st'.trace == st.trace + [m]
    requires st'.histMu == st.histMu && st'.cosignMu == st.cosignMu
    requires st'.busy == st.busy || (st.cosignMu == Some(tid) && forall id :: id in st.busy ==> id in st'.busy && st'.busy[id] == st.busy[id])
    requires Writes(m) ==> st.histMu == Some(tid)
    requires (Unrecorded(pc) || pc.Scanned?) && pc.job.id != "" ==> !AcceptRec(m, pc.job.id)
    ensures ThreadOk(st', t, pc)
  {
    LoadedOkExtends(st, st', pc, m);
    if Unrecorded(pc) {
      AdmittedOkExtends(st, st', t, pc, m);
    }
  }

  /** A step that appends to the trace: one thread moves, and marks itself busy at most. */
  lemma MarkedStep(st: State, st': State, tid: Tid, m: Mark)
    requires Inv(st) && tid in st.threads && tid in st'.threads
    requires st' == State(st'.busy, st'.history, st.cosignMu, st.histMu, st.threads[tid := st'.threads[tid]], st.trace + [m])
    requires Writes(m) ==> st.histMu == Some(tid)
    requires forall t :: t in st.threads && t != tid && (Unrecorded(st.threads[t]) || st.threads[t].Scanned?) && st.threads[t].job.id != "" ==>
               !AcceptRec(m, st.threads[t].job.id)
    requires st'.busy == st.busy || (st.cosignMu == Some(tid) && forall id :: id in st.busy ==> id in st'.busy && st'.busy[id] == st.busy[id])
    requires forall id :: id in st'.busy && id !in st.busy ==> MarkOk(st', id)
    requires InProgress(st.threads[tid]) ==> InProgress(st'.threads[tid]) && st'.threads[tid].job == st.threads[tid].job
    requires Load(st') == Stored(st'.trace) && Serial(st'.trace) && Safe(st'.trace) && ThreadOk(st', tid, st'.threads[tid])
    ensures Inv(st')
  {
    forall t | t in st'.threads && t != tid ensures ThreadOk(st', t, st'.threads[t]) {
      OtherThreadOk(st, st', tid, t, st.threads[t], m);
    }
    forall id | id in st'.busy ensures MarkOk(st', id) {
      assert id in st.busy ==> MarkOk(st, id);
    }
  }

  lemma ClearStep(st: State, tid: Tid)
    requires Inv(st) && tid in st.threads && st.threads[tid] == Ready(Clear)
    ensures Inv(Step1(st, tid, Ready(Clear), true))
  {
    var st' := Step1(st, tid, Ready(Clear), true);
    assert ThreadOk(st, tid, st.threads[tid]);
    StoredStep(st.trace, Clr);
    SerialStep(st.trace, Clr);
    SafeExtends(st.trace, Clr);
    MarkedStep(st, st', tid, Clr);
  }

  /** The record of an accept completes a pair only with records from before its guard's load. */
  lemma RecordIsSafe(st: State, tid: Tid, pc: Pc, m: Mark)
    requires ThreadOk(st, tid, pc) && Safe(st.trace)
    requires pc.Read? && (pc.job.Accept? || pc.job.Note?) && m == Rec(tid, EventOf(pc.job), pc.from)
    ensures Safe(st.trace + [m])
  {
    var trace := st.trace + [m];
    forall i, id | 0 <= i < |st.trace| && id != "" && AcceptRec(st.trace[i], id) && AcceptRec(m, id)
      ensures PairOk(trace, i, |st.trace|, id)
    {
      assert AdmittedOk(st, tid, pc) && id == pc.job.id;
      var from := st.trace[pc.adm].from;
      assert trace[..from] == st.trace[..from];
      assert Admits(trace, pc.adm, tid, id);
    }
    SafeExtends(st.trace, m);
  }

  /** No other accept of the swap is between its guard's load and its record while this one is in progress. */
  lemma RecordHitsNobody(st: State, tid: Tid, t: Tid, m: Mark)
    requires Inv(st) && tid in st.threads && t in st.threads && t != tid
    requires st.threads[tid].Read? && (st.threads[tid].job.Accept? || st.threads[tid].job.Note?)
    requires m == Rec(tid, EventOf(st.threads[tid].job), st.threads[tid].from)
    requires (Unrecorded(st.threads[t]) || st.threads[t].Scanned?) && st.threads[t].job.id != ""
    ensures !AcceptRec(m, st.threads[t].job.id)
  {
    assert ThreadOk(st, t, st.threads[t]) && ThreadOk(st, tid, st.threads[tid]);
  }

  /** An admission or a clear changes nothing about the writes so far. */
  lemma AdmExtends(trace: seq<Mark>, m: Mark)
    requires Serial(trace) && Safe(trace) && m.Adm?
    ensures Serial(trace + [m]) && Safe(trace + [m]) && Stored(trace + [m]) == Stored(trace)
  {
    StoredStep(trace, m);
    SerialStep(trace, m);
    SafeExtends(trace, m);
  }

  lemma RecordExtends(st: State, tid: Tid, pc: Pc)
    requires ThreadOk(st, tid, pc) && Safe(st.trace) && Serial(st.trace) && pc.Read? && (pc.job.Accept? || pc.job.Note?)
    ensures var m := Rec(tid, EventOf(pc.job), pc.from);
            Serial(st.trace + [m]) && Safe(st.trace + [m]) && Stored(st.trace + [m]) == Prepend(pc.list, EventOf(pc.job))
  {
    var m := Rec(tid, EventOf(pc.job), pc.from);
    StoredStep(st.trace, m);
    SerialStep(st.trace, m);
    RecordIsSafe(st, tid, pc, m);
  }

  lemma RecordStep(st: State, tid: Tid)
    requires Inv(st) && tid in st.threads && st.threads[tid].Read?
    requires st.threads[tid].job.Accept? || st.threads[tid].job.Note?
    ensures Inv(WriteStep(st, tid, st.threads[tid]))
  {
    var pc := st.threads[tid];
    var st' := WriteStep(st, tid, pc);
    var m := Rec(tid, EventOf(pc.job), pc.from);
    assert ThreadOk(st, tid, pc);
    RecordExtends(st, tid, pc);
    forall t | t in st.threads && t != tid && (Unrecorded(st.threads[t]) || st.threads[t].Scanned?) && st.threads[t].job.id != ""
      ensures !AcceptRec(m, st.threads[t].job.id)
    {
      RecordHitsNobody(st, tid, t, m);
    }
    MarkedStep(st, st', tid, m);
  }

  lemma FinishStep(st: State, tid: Tid)
    requires Inv(st) && tid in st.threads && st.threads[tid].Read? && st.threads[tid].job.Finish?
    ensures Inv(WriteStep(st, tid, st.threads[tid]))
  {
    var pc := st.threads[tid];
    var st' := WriteStep(st, tid, pc);
    assert ThreadOk(st, tid, pc);
    if st'.trace == st.trace {
      QuietStep(st, st', tid);
    } else {
      var m := Fin(tid, pc.job.hash, pc.job.sig, pc.from);
      StoredStep(st.trace, m);
      SerialStep(st.trace, m);
      SafeExtends(st.trace, m);
      MarkedStep(st, st', tid, m);
    }
  }

  lemma NoEmptyMark(st: State)
    requires Inv(st)
    ensures st.busy - {""} == st.busy
  {
    assert "" in st.busy ==> MarkOk(st, "");
  }

  /** A step of one thread that touches nothing shared but the locks. */
  lemma MoveStep(st: State, tid: Tid, pc: Pc, cosignMu: Option<Tid>, histMu: Option<Tid>)
    requires Inv(st) && tid in st.threads
    requires LockMoves(st.cosignMu, cosignMu, tid) && LockMoves(st.histMu, histMu, tid)
    requires InProgress(pc) == InProgress(st.threads[tid]) && pc.job == st.threads[tid].job
    requires ThreadOk(State(st.busy, st.history, cosignMu, histMu, st.threads[tid := pc], st.trace), tid, pc)
    ensures Inv(State(st.busy, st.history, cosignMu, histMu, st.threads[tid := pc], st.trace))
  {
    QuietStep(st, State(st.busy, st.history, cosignMu, histMu, st.threads[tid := pc], st.trace), tid);
  }

  lemma UnmarkStep(st: State, tid: Tid, job: Job, adm: nat)
    requires Inv(st) && tid in st.threads && st.threads[tid] == Clearing(job, adm)
    ensures Inv(ReleaseStep(st, tid, Clearing(job, adm)))
  {
    assert ThreadOk(st, tid, st.threads[tid]);
    QuietStep(st, ReleaseStep(st, tid, Clearing(job, adm)), tid);
  }

  lemma UnguardedLeave(st: State, tid: Tid, job: Job, adm: nat)
    requires Inv(st) && tid in st.threads && st.threads[tid] == Leaving(job, adm) && job.Accept? && job.id == ""
    ensures Inv(ReleaseStep(st, tid, Leaving(job, adm)))
  {
    assert ThreadOk(st, tid, st.threads[tid]);
    NoEmptyMark(st);
    QuietStep(st, ReleaseStep(st, tid, Leaving(job, adm)), tid);
  }

  lemma ReleaseStepKeepsInv(st: State, tid: Tid)
    requires Inv(st) && tid in st.threads
    requires st.threads[tid].Leaving? || st.threads[tid].Clearing? || st.threads[tid].Cleared?
    ensures Inv(ReleaseStep(st, tid, st.threads[tid]))
  {
    assert ThreadOk(st, tid, st.threads[tid]);
    match st.threads[tid]
    case Leaving(job, adm) =>
      if job.id == "" {
        UnguardedLeave(st, tid, job, adm);
      } else if st.cosignMu.None? {
        MoveStep(st, tid, Clearing(job, adm), Some(tid), st.histMu);
      }
    case Clearing(job, adm) => UnmarkStep(st, tid, job, adm);
    case Cleared(job) => MoveStep(st, tid, Over(job), None, st.histMu);
  }

  /** The guard's mark: the swap was not busy, and the loaded history had no completed accept of it. */
  lemma MarkStep(st: State, tid: Tid)
    requires Inv(st) && tid in st.threads && st.threads[tid].Scanned?
    requires !AlreadyCosigned(st.threads[tid].list, st.threads[tid].job.id)
    ensures st.threads[tid].job.Accept? && Inv(GuardStep(st, tid, st.threads[tid]))
  {
    var pc := st.threads[tid];
    assert ThreadOk(st, tid, pc);
    var m := Adm(tid, pc.job.id, pc.from);
    var st' := GuardStep(st, tid, pc);
    AdmExtends(st.trace, m);
    MarkedOk(st, st', tid, pc);
    MarkedStep(st, st', tid, m);
  }

  lemma MarkedOk(st: State, st': State, tid: Tid, pc: Pc)
    requires ThreadOk(st, tid, pc) && pc.Scanned? && !AlreadyCosigned(pc.list, pc.job.id)
    requires st'.trace == st.trace + [Adm(tid, pc.job.id, pc.from)] && st'.busy == st.busy[pc.job.id := tid]
    requires st'.histMu == st.histMu && st'.cosignMu == st.cosignMu
    ensures ThreadOk(st', tid, Marked(pc.job, |st.trace|))
  {
    assert st'.trace[..pc.from] == st.trace[..pc.from];
  }

  /** An accept without an escrow id passes. */
  lemma UnguardedStep(st: State, tid: Tid)
    requires Inv(st) && tid in st.threads && st.threads[tid].Ready? && st.threads[tid].job.Accept? && st.threads[tid].job.id == ""
    ensures Inv(GuardStep(st, tid, st.threads[tid]))
  {
    var m := Adm(tid, "", |st.trace|);
    assert ThreadOk(st, tid, st.threads[tid]);
    AdmExtends(st.trace, m);
    MarkedStep(st, GuardStep(st, tid, st.threads[tid]), tid, m);
  }

  lemma GuardEnters(st: State, tid: Tid)
    requires Inv(st) && tid in st.threads && st.threads[tid].job.Accept?
    requires var pc := st.threads[tid]; (pc.Ready? && pc.job.id != "") || pc.Guarding? || pc.Tested?
    ensures Inv(GuardStep(st, tid, st.threads[tid]))
  {
    var pc := st.threads[tid];
    assert ThreadOk(st, tid, pc);
    match pc
    case Ready(job) => if st.cosignMu.None? { MoveStep(st, tid, Guarding(job), Some(tid), st.histMu); }
    case Guarding(job) => GuardTests(st, tid, job);
    case Tested(job) => GuardLoads(st, tid, job);
  }

  lemma GuardTests(st: State, tid: Tid, job: Job)
    requires Inv(st) && tid in st.threads && st.threads[tid] == Guarding(job) && job.Accept?
    ensures Inv(GuardStep(st, tid, Guarding(job)))
  {
    assert ThreadOk(st, tid, st.threads[tid]);
    MoveStep(st, tid, if job.id in st.busy then Refusing(job) else Tested(job), st.cosignMu, st.histMu);
  }

  lemma GuardLoads(st: State, tid: Tid, job: Job)
    requires Inv(st) && tid in st.threads && st.threads[tid] == Tested(job) && job.Accept?
    ensures Inv(GuardStep(st, tid, Tested(job)))
  {
    assert ThreadOk(st, tid, st.threads[tid]);
    assert st.trace[..|st.trace|] == st.trace;
    MoveStep(st, tid, Scanned(job, Load(st), |st.trace|), st.cosignMu, st.histMu);
  }

  lemma GuardLeaves(st: State, tid: Tid)
    requires Inv(st) && tid in st.threads && st.threads[tid].job.Accept?
    requires var pc := st.threads[tid]; pc.Refusing? || pc.Marked? || (pc.Scanned? && AlreadyCosigned(pc.list, pc.job.id))
    ensures Inv(GuardStep(st, tid, st.threads[tid]))
  {
    var pc := st.threads[tid];
    assert ThreadOk(st, tid, pc);
    match pc
    case Scanned(job, list, from) => MoveStep(st, tid, Refusing(job), st.cosignMu, st.histMu);
    case Refusing(job) => MoveStep(st, tid, Over(job), None, st.histMu);
    case Marked(job, adm) => GuardAdmits(st, tid, job, adm);
  }

  lemma GuardAdmits(st: State, tid: Tid, job: Job, adm: nat)
    requires Inv(st) && tid in st.threads && st.threads[tid] == Marked(job, adm) && job.Accept?
    ensures Inv(GuardStep(st, tid, Marked(job, adm)))
  {
    assert ThreadOk(st, tid, st.threads[tid]);
    MoveStep(st, tid, Working(job, adm), None, st.histMu);
  }

  lemma LocalStep(st: State, tid: Tid, ok: bool)
    requires Inv(st) && tid in st.threads && (st.threads[tid].Working? || st.threads[tid].Wrote?)
    ensures Inv(Step1(st, tid, st.threads[tid], ok))
  {
    var pc := st.threads[tid];
    assert ThreadOk(st, tid, pc);
    match pc
    case Working(job, adm) => MoveStep(st, tid, if ok && job.ecdsa then Signed(job, adm) else Leaving(job, adm), st.cosignMu, st.histMu);
    case Wrote(job, adm) => MoveStep(st, tid, if job.Accept? then Leaving(job, adm) else Over(job), st.cosignMu, None);
  }

  lemma HistStep(st: State, tid: Tid, ok: bool)
    requires Inv(st) && tid in st.threads
    requires var pc := st.threads[tid]; (pc.Ready? && (pc.job.Note? || pc.job.Finish?)) || pc.Signed? || pc.Holding?
    ensures Inv(Step1(st, tid, st.threads[tid], ok))
  {
    var pc := st.threads[tid];
    assert ThreadOk(st, tid, pc);
    match pc
    case Ready(job) => if st.histMu.None? { MoveStep(st, tid, Holding(job, 0), st.cosignMu, Some(tid)); }
    case Signed(job, adm) => if st.histMu.None? { MoveStep(st, tid, Holding(job, adm), st.cosignMu, Some(tid)); }
    case Holding(job, adm) =>
      assert st.trace[..|st.trace|] == st.trace;
      MoveStep(st, tid, Read(job, adm, Load(st), |st.trace|), st.cosignMu, st.histMu);
  }

  lemma GuardStepKeepsInv(st: State, tid: Tid)
    requires Inv(st) && tid in st.threads && st.threads[tid].job.Accept?
    requires var pc := st.threads[tid]; pc.Ready? || pc.Guarding? || pc.Tested? || pc.Scanned? || pc.Refusing? || pc.Marked?
    ensures Inv(GuardStep(st, tid, st.threads[tid]))
  {
    var pc := st.threads[tid];
    if pc.Ready? && pc.job.id == "" {
      UnguardedStep(st, tid);
    } else if pc.Scanned? && !AlreadyCosigned(pc.list, pc.job.id) {
      MarkStep(st, tid);
    } else if pc.Ready? || pc.Guarding? || pc.Tested? {
      GuardEnters(st, tid);
    } else {
      GuardLeaves(st, tid);
    }
  }

  lemma StepKeepsInv(st: State, tid: Tid, ok: bool)
    requires Inv(st) && tid in st.threads
    ensures Inv(Step1(st, tid, st.threads[tid], ok))
  {
    var pc := st.threads[tid];
    assert ThreadOk(st, tid, pc);
    if pc.job.Accept? && (pc.Ready? || pc.Guarding? || pc.Tested? || pc.Scanned? || pc.Refusing? || pc.Marked?) {
      GuardStepKeepsInv(st, tid);
    } else if pc.Leaving? || pc.Clearing? || pc.Cleared? {
      ReleaseStepKeepsInv(st, tid);
    } else if pc.Ready? && pc.job.Clear? {
      ClearStep(st, tid);
    } else if pc.Read? && (pc.job.Accept? || pc.job.Note?) {
      RecordStep(st, tid);
    } else if pc.Read? {
      FinishStep(st, tid);
    } else if pc.Working? || pc.Wrote? {
      LocalStep(st, tid, ok);
    } else if !pc.Over? {
      HistStep(st, tid, ok);
    }
  }

  lemma ActKeepsInv(st: State, a: Action)
    requires Inv(st)
    ensures Inv(Act(st, a))
  {
    match a
    case Spawn(tid, job) =>
      if Act(st, a) != st {
        QuietStep(st, Act(st, a), tid);
      }
    case Step(tid, ok) =>
      if tid in st.threads {
        StepKeepsInv(st, tid, ok);
      }
  }

  lemma {:induction false} ReachInv(sched: seq<Action>)
    ensures Inv(Reach(sched))
  {
    if sched != [] {
      ReachInv(sched[..|sched| - 1]);
      ActKeepsInv(Reach(sched[..|sched| - 1]), sched[|sched| - 1]);
    }
  }

  // ---- what is still stored ----

  /** How many events a stretch of the trace records. */
  function Records(t: seq<Mark>): nat {
    if t == [] then 0 else Records(t[..|t| - 1]) + if t[|t| - 1].Rec? then 1 else 0
  }

  /** The clear at j sticks: no later write had loaded the history before it. */
  predicate Sticks(trace: seq<Mark>, j: nat)
    requires j < |trace|
  {
    trace[j].Clr? && forall w :: j < w < |trace| && Writes(trace[w]) ==> trace[w].from > j
  }

  /** The event of entry i is still stored: no clear after it sticks and fewer than 200 records came after it. */
  predicate StillStored(trace: seq<Mark>, i: nat)
    requires i < |trace|
  {
    && trace[i].Rec?
    && (forall j: nat :: i < j < |trace| ==> !Sticks(trace, j))
    && Records(trace[i + 1..]) < HISTORY_MAX
  }

  lemma {:induction false} RecordsSplit(a: seq<Mark>, b: seq<Mark>)
    ensures Records(a + b) == Records(a) + Records(b)
    decreases |b|
  {
    if b == [] {
      assert a + b == a;
    } else {
      var f := b[..|b| - 1];
      assert (a + b)[..|a + b| - 1] == a + f;
      RecordsSplit(a, f);
    }
  }

  lemma {:induction false} QuietRecords(t: seq<Mark>)
    requires Quiet(t, 0)
    ensures Records(t) == 0
    decreases |t|
  {
    if t != [] {
      QuietRecords(t[..|t| - 1]);
    }
  }

  /** The part of a trace its last mark leaves standing: all before it, or all before its load. */
  function Base(trace: seq<Mark>): (n: nat)
    requires trace != [] && Serial(trace) && !trace[|trace| - 1].Clr?
    ensures n < |trace|
  {
    var m := trace[|trace| - 1];
    if m.Adm? then |trace| - 1 else assert WriteOk(trace, |trace| - 1); m.from
  }

  lemma SerialBase(trace: seq<Mark>, n: nat)
    requires Serial(trace) && n <= |trace|
    ensures Serial(trace[..n])
  {
    forall w: nat | w < n ensures WriteOk(trace[..n], w) {
      assert WriteOk(trace, w) && trace[..n][..w] == trace[..w];
    }
  }

  lemma SticksInBase(trace: seq<Mark>, j: nat)
    requires trace != [] && Serial(trace) && !trace[|trace| - 1].Clr? && j < |trace|
    ensures Sticks(trace, j) <==> j < Base(trace) && Sticks(trace[..Base(trace)], j)
  {
    var n, b := |trace| - 1, Base(trace);
    assert WriteOk(trace, n);
    assert trace[..n][b..] == trace[b..n];
    forall w | b <= w < n ensures !Writes(trace[w]) {
      assert trace[..n][w] == trace[w];
    }
    if j < b && Sticks(trace[..b], j) {
      forall w | j < w < |trace| && Writes(trace[w]) ensures trace[w].from > j {
        if w < b {
          assert trace[..b][w] == trace[w];
        }
      }
    }
    if j < b && Sticks(trace, j) {
      forall w | j < w < b && Writes(trace[..b][w]) ensures trace[..b][w].from > j {
        assert trace[..b][w] == trace[w];
      }
    }
  }

  lemma RecordsInBase(trace: seq<Mark>, i: nat)
    requires trace != [] && Serial(trace) && !trace[|trace| - 1].Clr? && i < Base(trace)
    ensures Records(trace[i + 1..]) == Records(trace[..Base(trace)][i + 1..]) + if trace[|trace| - 1].Rec? then 1 else 0
  {
    var n, b := |trace| - 1, Base(trace);
    assert WriteOk(trace, n);
    var kept, gap := trace[..b][i + 1..], trace[b..n];
    forall w | 0 <= w < |gap| ensures !Writes(gap[w]) {
      assert gap[w] == trace[..n][b + w];
    }
    QuietRecords(gap);
    RecordsSplit(kept, gap);
    assert kept == trace[i + 1..b];
    assert trace[i + 1..n] == trace[i + 1..b] + trace[b..n];
    assert trace[i + 1..][..n - i - 1] == trace[i + 1..n];
  }

  /** Still stored after the last mark, for an earlier entry: it was still stored in the part left standing, and there is room. */
  lemma StillInBase(trace: seq<Mark>, i: nat)
    requires trace != [] && Serial(trace) && !trace[|trace| - 1].Clr? && i < |trace| - 1
    ensures StillStored(trace, i) <==>
            && i < Base(trace) && StillStored(trace[..Base(trace)], i)
            && Records(trace[i + 1..]) < HISTORY_MAX
  {
    var n, b := |trace| - 1, Base(trace);
    assert WriteOk(trace, n);
    if i >= b {
      assert trace[..n][i] == trace[i];
    } else {
      RecordsInBase(trace, i);
      assert trace[..b][i] == trace[i];
      forall j: nat | i < j < |trace| ensures Sticks(trace, j) <==> j < b && Sticks(trace[..b], j) {
        SticksInBase(trace, j);
      }
    }
  }

  /** A stored event is as recorded, unless it is an initiator's, which completeCosign may have completed. */
  predicate Alike(stored: Event, recorded: Event) {
    stored.role == recorded.role && (stored.role != "initiator" ==> stored == recorded)
  }

  lemma StoredBase(trace: seq<Mark>)
    requires trace != [] && Serial(trace) && !trace[|trace| - 1].Clr?
    ensures Stored(trace) == if trace[|trace| - 1].Adm? then Stored(trace[..Base(trace)])
                             else Written(Stored(trace[..Base(trace)]), trace[|trace| - 1])
  {
    assert WriteOk(trace, |trace| - 1);
    assert trace[..|trace| - 1][..Base(trace)] == trace[..Base(trace)];
  }

  /** A still-stored entry sits in the list at the index that counts the records after it. */
  lemma {:induction false} StoredAt(trace: seq<Mark>, i: nat)
    requires Serial(trace) && i < |trace| && StillStored(trace, i)
    ensures var c := Records(trace[i + 1..]); c < |Stored(trace)| && Alike(Stored(trace)[c], trace[i].ev)
    decreases |trace|
  {
    var n := |trace| - 1;
    if trace[n].Clr? {
      assert Sticks(trace, n);
    } else {
      StoredBase(trace);
      if i < n {
        StillInBase(trace, i);
        RecordsInBase(trace, i);
        SerialBase(trace, Base(trace));
        StoredAt(trace[..Base(trace)], i);
      }
    }
  }

  /** Everything in the list is a still-stored entry. */
  lemma {:induction false} StoredFrom(trace: seq<Mark>, k: nat) returns (i: nat)
    requires Serial(trace) && k < |Stored(trace)|
    ensures i < |trace| && StillStored(trace, i) && Records(trace[i + 1..]) == k && Alike(Stored(trace)[k], trace[i].ev)
    decreases |trace|
  {
    var n := |trace| - 1;
    if trace[n].Rec? && k == 0 {
      StoredBase(trace);
      i := n;
    } else {
      var base := trace[..Base(trace)];
      SerialBase(trace, Base(trace));
      var k' := if trace[n].Rec? then k - 1 else k;
      StoredShift(trace, base, k);
      i := StoredFrom(base, k');
      StoredLater(trace, base, i);
    }
  }

  /** What the last mark leaves in place. */
  lemma StoredShift(trace: seq<Mark>, base: seq<Mark>, k: nat)
    requires trace != [] && Serial(trace) && !trace[|trace| - 1].Clr? && base == trace[..Base(trace)]
    requires k < |Stored(trace)| && (trace[|trace| - 1].Rec? ==> k > 0)
    ensures var k' := if trace[|trace| - 1].Rec? then k - 1 else k;
            k' < |Stored(base)| && Alike(Stored(trace)[k], Stored(base)[k'])
  {
    var m := trace[|trace| - 1];
    StoredBase(trace);
    if Writes(m) {
      WrittenAt(Stored(base), m, k);
    }
  }

  lemma WrittenAt(loaded: seq<Event>, m: Mark, k: nat)
    requires Writes(m) && k < |Written(loaded, m)| && (m.Rec? ==> k > 0)
    ensures var k' := if m.Rec? then k - 1 else k;
            k' < |loaded| && Alike(Written(loaded, m)[k], loaded[k'])
  {
    if m.Fin? {
      assert Written(loaded, m)[k] == Cosign.Finished(loaded[k], m.hash, m.sig);
    }
  }

  lemma StoredLater(trace: seq<Mark>, base: seq<Mark>, i: nat)
    requires trace != [] && Serial(trace) && !trace[|trace| - 1].Clr? && base == trace[..Base(trace)]
    requires i < |base| && StillStored(base, i) && Records(base[i + 1..]) + (if trace[|trace| - 1].Rec? then 1 else 0) < HISTORY_MAX
    ensures StillStored(trace, i) && Records(trace[i + 1..]) == Records(base[i + 1..]) + if trace[|trace| - 1].Rec? then 1 else 0
  {
    RecordsInBase(trace, i);
    StillInBase(trace, i);
  }

  lemma StoredScan(trace: seq<Mark>, id: string)
    requires Serial(trace)
    ensures AlreadyCosigned(Stored(trace), id) <==>
            exists i :: 0 <= i < |trace| && AcceptRec(trace[i], id) && StillStored(trace, i)
  {
    if AlreadyCosigned(Stored(trace), id) {
      var k :| 0 <= k < |Stored(trace)| && CompletedAccept(Stored(trace)[k], id);
      var i := StoredFrom(trace, k);
      assert AcceptRec(trace[i], id);
    }
    if i :| 0 <= i < |trace| && AcceptRec(trace[i], id) && StillStored(trace, i) {
      StoredAt(trace, i);
    }
  }

  // ---- the theorems ----

  /** At most one accept of a swap is in progress. */
  lemma OneAcceptInProgress(sched: seq<Action>, t: Tid, u: Tid)
    requires var st := Reach(sched);
             && t in st.threads && u in st.threads && InProgress(st.threads[t]) && InProgress(st.threads[u])
             && st.threads[t].job.id == st.threads[u].job.id != ""
    ensures t == u
  {
    ReachInv(sched);
    var st := Reach(sched);
    assert ThreadOk(st, t, st.threads[t]) && ThreadOk(st, u, st.threads[u]);
  }

  /** The busy marks are exactly the swaps with an accept in progress. */
  lemma BusyMeansInProgress(sched: seq<Action>, id: string)
    requires id != ""
    ensures id in Reach(sched).busy <==>
            exists t :: t in Reach(sched).threads && InProgress(Reach(sched).threads[t]) && Reach(sched).threads[t].job.id == id
  {
    ReachInv(sched);
    var st := Reach(sched);
    if t :| t in st.threads && InProgress(st.threads[t]) && st.threads[t].job.id == id {
      assert ThreadOk(st, t, st.threads[t]);
    }
    if id in st.busy {
      assert MarkOk(st, id);
    }
  }

  /** The two locks exclude, and while a handler is not over some handler can move. */
  lemma LocksExclude(sched: seq<Action>, t: Tid, u: Tid)
    requires var st := Reach(sched); t in st.threads && u in st.threads
    requires var st := Reach(sched);
             (HoldsGuard(st.threads[t]) && HoldsGuard(st.threads[u])) || (HoldsHist(st.threads[t]) && HoldsHist(st.threads[u]))
    ensures t == u
  {
    ReachInv(sched);
    var st := Reach(sched);
    assert ThreadOk(st, t, st.threads[t]) && ThreadOk(st, u, st.threads[u]);
  }

  lemma NoDeadlock(sched: seq<Action>, tid: Tid)
    requires var st := Reach(sched); tid in st.threads && !st.threads[tid].Over?
    ensures exists t: Tid :: Act(Reach(sched), Step(t, true)) != Reach(sched)
  {
    ReachInv(sched);
    var st := Reach(sched);
    var t := if st.cosignMu.Some? then st.cosignMu.value else if st.histMu.Some? then st.histMu.value else tid;
    assert ThreadOk(st, t, st.threads[t]);
    MovesOn(st, t);
  }

  lemma MovesOn(st: State, t: Tid)
    requires t in st.threads && ThreadOk(st, t, st.threads[t]) && !st.threads[t].Over?
    requires st.cosignMu == Some(t) || (st.cosignMu == None && (st.histMu == None || st.histMu == Some(t)))
    ensures Act(st, Step(t, true)) != st
  {
    assert st.threads[t] != Act(st, Step(t, true)).threads[t];
  }

  /**
   * A second completed ECDSA accept of a swap takes 200 records, or a clear that has stuck, between the
   * first one's record and the load of the history in the second one's guard.
   */
  lemma SecondAcceptNeedsForgetting(sched: seq<Action>, i: nat, j: nat, id: string)
    requires var t := Reach(sched).trace; i < j < |t| && id != "" && AcceptRec(t[i], id) && AcceptRec(t[j], id)
    ensures var t := Reach(sched).trace;
            exists k :: i < k < j && Admits(t, k, t[j].tid, id) && i < t[k].from &&
                        ((exists c: nat :: i < c < t[k].from && Sticks(t[..t[k].from], c)) || Records(t[i + 1..t[k].from]) >= HISTORY_MAX)
  {
    ReachInv(sched);
    var t := Reach(sched).trace;
    assert PairOk(t, i, j, id);
    var k :| i < k < j && Admits(t, k, t[j].tid, id) && i < t[k].from && !AlreadyCosigned(Stored(t[..t[k].from]), id);
    ForgottenAt(t, t[k].from, i, id);
  }

  lemma ForgottenAt(t: seq<Mark>, from: nat, i: nat, id: string)
    requires Serial(t) && i < from <= |t| && AcceptRec(t[i], id) && !AlreadyCosigned(Stored(t[..from]), id)
    ensures (exists c: nat :: i < c < from && Sticks(t[..from], c)) || Records(t[i + 1..from]) >= HISTORY_MAX
  {
    SerialBase(t, from);
    StoredScan(t[..from], id);
    assert AcceptRec(t[..from][i], id);
    assert t[..from][i + 1..] == t[i + 1..from];
  }

  /**
   * The guard against the whole past, in every run: an accept that found its swap not busy is refused
   * exactly when, at the moment it loaded the history, a completed accept of the swap was still
   * stored, that is, no clear after it had stuck and fewer than 200 records had come after it.
   */
  lemma GuardDecision(sched: seq<Action>, tid: Tid)
    requires var st := Reach(sched); tid in st.threads && st.threads[tid].Scanned?
    ensures var st := Reach(sched);
            var pc := st.threads[tid];
            && pc.from <= |st.trace| && pc.job.Accept? && pc.job.id !in st.busy
            && (Act(st, Step(tid, true)).threads[tid].Refusing? <==>
                exists i :: 0 <= i < pc.from && AcceptRec(st.trace[i], pc.job.id) && StillStored(st.trace[..pc.from], i))
  {
    ReachInv(sched);
    var st := Reach(sched);
    var pc := st.threads[tid];
    assert ThreadOk(st, tid, pc);
    SerialBase(st.trace, pc.from);
    StoredScan(st.trace[..pc.from], pc.job.id);
    assert forall i :: 0 <= i < pc.from ==> st.trace[..pc.from][i] == st.trace[i];
  }

  lemma {:induction false} QuietAfterClear(trace: seq<Mark>, c: nat)
    requires c < |trace| && trace[c].Clr? && Quiet(trace, c)
    ensures Stored(trace) == []
    decreases |trace|
  {
    if c < |trace| - 1 {
      QuietAfterClear(trace[..|trace| - 1], c);
    }
  }

  lemma FirstWriteSticks(t: seq<Mark>, c: nat, w: nat)
    requires c < w == |t| - 1 && t[c].Clr? && Writes(t[w]) && Quiet(t[..w], c)
    ensures Sticks(t, c) <==> t[w].from > c
  {
    forall x | c < x < w ensures !Writes(t[x]) {
      assert t[..w][x] == t[x];
    }
  }

  lemma QuietPrefix(t: seq<Mark>, c: nat, n: nat)
    requires Quiet(t, c) && n <= |t|
    ensures Quiet(t[..n], c)
  {
  }

  lemma FirstWriteStores(t: seq<Mark>, m: Mark, c: nat)
    requires c < |t| && t[c].Clr? && Quiet(t, c) && Writes(m) && m.from <= |t|
    ensures Stored(t + [m]) == Written(if m.from > c then [] else Stored(t[..m.from]), m)
  {
    StoredStep(t, m);
    if m.from > c {
      QuietPrefix(t, c, m.from);
      QuietAfterClear(t[..m.from], c);
    }
  }

  /**
   * What a clear amounts to, at the first write after it: nothing from before it is left, if the
   * history was loaded after the clear; everything stored at the load is back, if it was loaded before.
   */
  lemma ClearOutcome(sched: seq<Action>, c: nat, w: nat)
    requires var t := Reach(sched).trace; c < w < |t| && t[c].Clr? && Writes(t[w]) && Quiet(t[..w], c)
    ensures var t := Reach(sched).trace;
            && t[w].from <= w && (Sticks(t[..w + 1], c) <==> t[w].from > c)
            && Stored(t[..w + 1]) == Written(if t[w].from > c then [] else Stored(t[..t[w].from]), t[w])
  {
    ReachInv(sched);
    var t := Reach(sched).trace;
    ClearOutcomeIn(t, c, w);
  }

  lemma ClearOutcomeIn(t: seq<Mark>, c: nat, w: nat)
    requires Serial(t) && c < w < |t| && t[c].Clr? && Writes(t[w]) && Quiet(t[..w], c)
    ensures t[w].from <= w && (Sticks(t[..w + 1], c) <==> t[w].from > c)
    ensures Stored(t[..w + 1]) == Written(if t[w].from > c then [] else Stored(t[..t[w].from]), t[w])
  {
    assert WriteOk(t, w);
    var past := t[..w];
    assert t[..w + 1] == past + [t[w]];
    assert past[..t[w].from] == t[..t[w].from];
    FirstWriteStores(past, t[w], c);
    assert (past + [t[w]])[..w] == past;
    FirstWriteSticks(past + [t[w]], c, w);
  }

  // ---- what a record holds ----

  /** An accept that writes the history puts its own completed event first, before what it loaded, cut at 200. */
  lemma AcceptRecords(st: State, tid: Tid)
    requires tid in st.threads && st.threads[tid].Read? && st.threads[tid].job.Accept?
    ensures var Read(job, _, list, _) := st.threads[tid];
            var ev := Event("acceptor", "completed", job.hash, job.sig, job.id, job.rest);
            var after := Load(Act(st, Step(tid, true)));
            && after == ([ev] + list)[..if |list| < 200 then |list| + 1 else 200]
            && AcceptRec(Act(st, Step(tid, true)).trace[|st.trace|], job.id)
  {
  }

  /** An accept without an escrow id is never held up or refused, and marks nothing. */
  lemma WithoutIdPasses(st: State, tid: Tid)
    requires tid in st.threads && st.threads[tid].Ready? && st.threads[tid].job.Accept? && st.threads[tid].job.id == ""
    ensures var st' := Act(st, Step(tid, true));
            st'.threads[tid].Working? && st'.busy == st.busy && st'.cosignMu == st.cosignMu && st'.history == st.history
  {
  }

  /** An accept that finds its swap busy is refused; one that does not loads the history as it is then. */
  lemma BusyIsRefused(st: State, tid: Tid)
    requires tid in st.threads && st.threads[tid].Guarding? && st.threads[tid].job.Accept?
    ensures var job := st.threads[tid].job;
            var st' := Act(st, Step(tid, true));
            && (st'.threads[tid] == Refusing(job) <==> job.id in st.busy)
            && (job.id !in st.busy ==> Act(st', Step(tid, true)).threads[tid] == Scanned(job, Load(st), |st.trace|))
  {
  }

  /** Only a successful ECDSA signing goes on to the history; a failed one and FROST leave without a record. */
  lemma OnlyEcdsaRecords(st: State, tid: Tid, ok: bool)
    requires tid in st.threads && st.threads[tid].Working? && st.threads[tid].job.Accept?
    ensures var Working(job, adm) := st.threads[tid];
            Act(st, Step(tid, ok)).threads[tid] == if ok && job.ecdsa then Signed(job, adm) else Leaving(job, adm)
  {
  }
}
