/** Runs that forget, and runs that fail to: the bounds of the co-sign guard are reached. */
module CosignRuns {
  import opened Wrappers
  import opened Cosign
  import opened CosignThreads

  function Play(st: State, acts: seq<Action>): State {
    if acts == [] then st else Act(Play(st, acts[..|acts| - 1]), acts[|acts| - 1])
  }

  lemma {:induction false} ReachPlay(a: seq<Action>, b: seq<Action>)
    ensures Reach(a + b) == Play(Reach(a), b)
    decreases |b|
  {
    if b == [] {
      assert a + b == a;
    } else {
      assert (a + b)[..|a + b| - 1] == a + b[..|b| - 1];
      ReachPlay(a, b[..|b| - 1]);
    }
  }

  /** A state between handlers: nothing is held, and every thread so far, numbered below n, is over. */
  predicate Idle(st: State, n: nat) {
    st.busy == map[] && st.cosignMu == None && st.histMu == None && forall t :: t in st.threads ==> t < n && st.threads[t].Over?
  }

  /** The thread takes n successful steps. */
  function Run(st: State, tid: Tid, n: nat): State { if n == 0 then st else Act(Run(st, tid, n - 1), Step(tid, true)) }

  function Handler(tid: Tid, job: Job, n: nat): seq<Action> {
    if n == 0 then [Spawn(tid, job)] else Handler(tid, job, n - 1) + [Step(tid, true)]
  }

  /** How many steps a handler takes when it meets no refusal. */
  function Length(job: Job): nat { if job.Accept? then 13 else if job.Clear? then 1 else 4 }

  function Whole(tid: Tid, job: Job): seq<Action> { Handler(tid, job, Length(job)) }

  lemma {:induction false} PlayHandler(st: State, tid: Tid, job: Job, n: nat)
    ensures Play(st, Handler(tid, job, n)) == Run(Act(st, Spawn(tid, job)), tid, n)
  {
    var h := Handler(tid, job, n);
    if n == 0 {
      assert h[..0] == [];
    } else {
      PlayHandler(st, tid, job, n - 1);
      assert h[..|h| - 1] == Handler(tid, job, n - 1);
    }
  }

  function At(st: State, tid: Tid, pc: Pc, cosignMu: Option<Tid>, histMu: Option<Tid>): State {
    State(st.busy, st.history, cosignMu, histMu, st.threads[tid := pc], st.trace)
  }

  /** The state with the event recorded by the thread. */
  function Recorded(st: State, tid: Tid, ev: Event, pc: Pc): State {
    State(st.busy, Some(Prepend(Load(st), ev)), st.cosignMu, None, st.threads[tid := pc], st.trace + [Rec(tid, ev, |st.trace|)])
  }

  lemma AtTwice(st: State, n: nat, pc: Pc, pc': Pc, cosignMu: Option<Tid>, histMu: Option<Tid>)
    ensures forall c, h :: At(At(st, n, pc, c, h), n, pc', cosignMu, histMu) == At(st, n, pc', cosignMu, histMu)
    ensures forall ev, h :: Recorded(At(st, n, pc, st.cosignMu, h), n, ev, pc') == Recorded(st, n, ev, pc')
  {
    assert st.threads[n := pc][n := pc'] == st.threads[n := pc'];
  }

  lemma OneStep(st: State, tid: Tid, k: nat)
    ensures Run(st, tid, k + 1) == Act(Run(st, tid, k), Step(tid, true))
  {
  }

  lemma TwoSteps(st: State, tid: Tid, k: nat)
    ensures Run(st, tid, k + 2) == Act(Act(Run(st, tid, k), Step(tid, true)), Step(tid, true))
  {
    assert Run(st, tid, k + 1) == Act(Run(st, tid, k), Step(tid, true));
  }

  // ---- the guard, with nobody in between ----

  /** The state after the guard let an accept through. */
  function Admitted(st: State, tid: Tid, job: Job): State
    requires job.Accept?
  {
    State(st.busy[job.id := tid], st.history, st.cosignMu, st.histMu, st.threads[tid := Working(job, |st.trace|)],
          st.trace + [Adm(tid, job.id, |st.trace|)])
  }

  predicate AtGuard(st: State, tid: Tid, job: Job) {
    job.Accept? && job.id != "" && tid in st.threads && st.threads[tid] == Ready(job) && st.cosignMu == None
  }

  lemma GuardTestsAlone(st: State, tid: Tid, job: Job)
    requires AtGuard(st, tid, job)
    ensures Act(Act(st, Step(tid, true)), Step(tid, true)) ==
            At(st, tid, if job.id in st.busy then Refusing(job) else Tested(job), Some(tid), st.histMu)
  {
    var st1 := At(st, tid, Guarding(job), Some(tid), st.histMu);
    assert Act(st, Step(tid, true)) == st1;
    AtTwice(st, tid, Guarding(job), if job.id in st.busy then Refusing(job) else Tested(job), Some(tid), st.histMu);
  }

  lemma GuardRefuses(st: State, tid: Tid, job: Job)
    requires AtGuard(st, tid, job)
    ensures Act(At(st, tid, Refusing(job), Some(tid), st.histMu), Step(tid, true)) == At(st, tid, Over(job), None, st.histMu)
  {
    AtTwice(st, tid, Refusing(job), Over(job), None, st.histMu);
  }

  lemma GuardScans(st: State, tid: Tid, job: Job)
    requires AtGuard(st, tid, job)
    ensures Act(At(st, tid, Tested(job), Some(tid), st.histMu), Step(tid, true)) ==
            At(st, tid, Scanned(job, Load(st), |st.trace|), Some(tid), st.histMu)
  {
    AtTwice(st, tid, Tested(job), Scanned(job, Load(st), |st.trace|), Some(tid), st.histMu);
  }

  lemma GuardFinds(st: State, tid: Tid, job: Job)
    requires AtGuard(st, tid, job) && AlreadyCosigned(Load(st), job.id)
    ensures Act(At(st, tid, Scanned(job, Load(st), |st.trace|), Some(tid), st.histMu), Step(tid, true)) ==
            At(st, tid, Refusing(job), Some(tid), st.histMu)
  {
    AtTwice(st, tid, Scanned(job, Load(st), |st.trace|), Refusing(job), Some(tid), st.histMu);
  }

  lemma GuardMarks(st: State, tid: Tid, job: Job)
    requires AtGuard(st, tid, job) && !AlreadyCosigned(Load(st), job.id)
    ensures Act(Act(At(st, tid, Scanned(job, Load(st), |st.trace|), Some(tid), st.histMu), Step(tid, true)), Step(tid, true)) ==
            Admitted(st, tid, job)
  {
    var st3 := At(st, tid, Scanned(job, Load(st), |st.trace|), Some(tid), st.histMu);
    var st4 := Admitted(st, tid, job).(cosignMu := Some(tid), threads := st.threads[tid := Marked(job, |st.trace|)]);
    assert Act(st3, Step(tid, true)).threads == st4.threads;
    assert Act(st3, Step(tid, true)) == st4;
    assert Act(st4, Step(tid, true)).threads == st.threads[tid := Working(job, |st.trace|)];
  }

  /**
   * The guard's steps taken without interruption, with k == 0, are the guard as one call: from the
   * busy marks and the history it decides what `Client.Admit` decides, and marks what that marks.
   */
  lemma GuardIsAdmit(st: State, tid: Tid, job: Job, k: nat)
    requires AtGuard(st, tid, job) && k == 0
    ensures Run(st, tid, k + 5) ==
            if Decide(st.busy.Keys, Load(st), job.id).Admitted? then Admitted(st, tid, job) else At(st, tid, Over(job), None, st.histMu)
  {
    TwoSteps(st, tid, k);
    GuardTestsAlone(st, tid, job);
    OneStep(st, tid, k + 2);
    if job.id in st.busy {
      GuardRefuses(st, tid, job);
      StaysOver(st, tid, job, k + 3);
    } else {
      GuardScans(st, tid, job);
      if AlreadyCosigned(Load(st), job.id) {
        GuardFinds(st, tid, job);
        OneStep(st, tid, k + 3);
        GuardRefuses(st, tid, job);
        OneStep(st, tid, k + 4);
      } else {
        GuardMarks(st, tid, job);
        TwoSteps(st, tid, k + 3);
      }
    }
  }

  lemma StaysOver(st: State, tid: Tid, job: Job, k: nat)
    requires Run(st, tid, k) == At(st, tid, Over(job), None, st.histMu)
    ensures Run(st, tid, k + 2) == Run(st, tid, k)
  {
    TwoSteps(st, tid, k);
  }

  // ---- the history, with nobody in between ----

  predicate AtDoor(st: State, tid: Tid, job: Job, adm: nat) {
    st.histMu == None && tid in st.threads &&
    ((job.Note? && adm == 0 && st.threads[tid] == Ready(job)) || (job.Accept? && st.threads[tid] == Signed(job, adm)))
  }

  lemma LoadSteps(st: State, tid: Tid, job: Job, adm: nat)
    requires AtDoor(st, tid, job, adm)
    ensures Act(Act(st, Step(tid, true)), Step(tid, true)) == At(st, tid, Read(job, adm, Load(st), |st.trace|), st.cosignMu, Some(tid))
  {
    var st1 := At(st, tid, Holding(job, adm), st.cosignMu, Some(tid));
    assert Act(st, Step(tid, true)) == st1;
    AtTwice(st, tid, Holding(job, adm), Read(job, adm, Load(st), |st.trace|), st.cosignMu, Some(tid));
  }

  lemma WriteSteps(st: State, st2: State, tid: Tid, job: Job, adm: nat)
    requires AtDoor(st, tid, job, adm) && st2 == At(st, tid, Read(job, adm, Load(st), |st.trace|), st.cosignMu, Some(tid))
    ensures Act(Act(st2, Step(tid, true)), Step(tid, true)) ==
            Recorded(st, tid, EventOf(job), if job.Accept? then Leaving(job, adm) else Over(job))
  {
    var st3 := Recorded(st, tid, EventOf(job), Wrote(job, adm)).(histMu := Some(tid));
    assert WriteStep(st2, tid, st2.threads[tid]).threads == st3.threads;
    assert Act(st2, Step(tid, true)) == st3;
    assert Act(st3, Step(tid, true)).threads == st.threads[tid := if job.Accept? then Leaving(job, adm) else Over(job)];
  }

  /** A handler at the door of the history lock loads the history, records and lets go. */
  lemma RecordRun(origin: State, k: nat, tid: Tid, job: Job, adm: nat)
    requires AtDoor(Run(origin, tid, k), tid, job, adm)
    ensures Run(origin, tid, k + 2) ==
            (var st := Run(origin, tid, k); At(st, tid, Read(job, adm, Load(st), |st.trace|), st.cosignMu, Some(tid)))
    ensures Run(origin, tid, k + 4) ==
            Recorded(Run(origin, tid, k), tid, EventOf(job), if job.Accept? then Leaving(job, adm) else Over(job))
  {
    var st := Run(origin, tid, k);
    LoadSteps(st, tid, job, adm);
    TwoSteps(origin, tid, k);
    WriteSteps(st, Run(origin, tid, k + 2), tid, job, adm);
    TwoSteps(origin, tid, k + 2);
  }

  // ---- whole handlers, with nobody else about ----

  /** A note recorded with nobody else about. */
  lemma NoteAlone(st: State, n: nat, ev: Event)
    requires Idle(st, n) && ev.role != "acceptor"
    ensures var st' := Play(st, Whole(n, Note(ev)));
            && Idle(st', n + 1) && Load(st') == Prepend(Load(st), ev)
            && st'.trace == st.trace + [Rec(n, ev, |st.trace|)]
  {
    NoteRun(st, n, ev, Length(Note(ev)) - 4);
    assert Load(Recorded(st, n, ev, Over(Note(ev)))) == Prepend(Load(st), ev);
  }

  lemma SpawnAlone(st: State, n: nat, job: Job)
    requires Idle(st, n) && !(job.Note? && job.ev.role == "acceptor")
    ensures Act(st, Spawn(n, job)) == At(st, n, Ready(job), None, None)
  {
    assert n !in st.threads;
  }

  /** The steps of a note handler from its spawning, with k == 0. */
  lemma NoteSteps(st: State, n: nat, ev: Event, k: nat)
    requires Idle(st, n) && k == 0
    ensures Run(At(st, n, Ready(Note(ev)), None, None), n, k + 2) == At(st, n, Read(Note(ev), 0, Load(st), |st.trace|), None, Some(n))
    ensures Run(At(st, n, Ready(Note(ev)), None, None), n, k + 4) == Recorded(st, n, ev, Over(Note(ev)))
  {
    var st0 := At(st, n, Ready(Note(ev)), None, None);
    RecordRun(st0, k, n, Note(ev), 0);
    AtTwice(st, n, Ready(Note(ev)), Read(Note(ev), 0, Load(st), |st.trace|), None, Some(n));
    AtTwice(st, n, Ready(Note(ev)), Over(Note(ev)), None, None);
  }

  lemma NoteRun(st: State, n: nat, ev: Event, k: nat)
    requires Idle(st, n) && ev.role != "acceptor" && k == 0
    ensures Play(st, Handler(n, Note(ev), k + 4)) == Recorded(st, n, ev, Over(Note(ev)))
  {
    SpawnAlone(st, n, Note(ev));
    PlayFrom(st, At(st, n, Ready(Note(ev)), None, None), n, Note(ev), k + 4);
    NoteSteps(st, n, ev, k);
  }

  lemma PlayFrom(st: State, st0: State, tid: Tid, job: Job, n: nat)
    requires st0 == Act(st, Spawn(tid, job))
    ensures Play(st, Handler(tid, job, n)) == Run(st0, tid, n)
  {
    PlayHandler(st, tid, job, n);
  }

  lemma NoteLoadRun(st: State, n: nat, ev: Event, k: nat)
    requires Idle(st, n) && ev.role != "acceptor" && k == 0
    ensures Play(st, Handler(n, Note(ev), k + 2)) == At(st, n, Read(Note(ev), 0, Load(st), |st.trace|), None, Some(n))
  {
    SpawnAlone(st, n, Note(ev));
    PlayFrom(st, At(st, n, Ready(Note(ev)), None, None), n, Note(ev), k + 2);
    NoteSteps(st, n, ev, k);
  }

  lemma ClearRun(st: State, c: Tid)
    requires c !in st.threads
    ensures Play(st, Whole(c, Clear)) == State(st.busy, None, st.cosignMu, st.histMu, st.threads[c := Over(Clear)], st.trace + [Clr])
  {
    PlayHandler(st, c, Clear, Length(Clear));
    var st0 := Act(st, Spawn(c, Clear));
    assert Run(st0, c, 0) == st0;
    assert Act(st0, Step(c, true)).threads == st.threads[c := Over(Clear)];
  }

  lemma ClearAlone(st: State, n: nat)
    requires Idle(st, n)
    ensures var st' := Play(st, Whole(n, Clear));
            Idle(st', n + 1) && Load(st') == [] && st'.trace == st.trace + [Clr]
  {
    ClearRun(st, n);
  }

  /** An admitted accept signs. */
  lemma SignRun(st: State, n: nat, job: Job, k: nat)
    requires k == 0 && Idle(st, n) && job.Accept? && job.ecdsa && job.id != "" && !AlreadyCosigned(Load(st), job.id)
    ensures Run(At(st, n, Ready(job), None, None), n, k + 6) ==
            State(map[job.id := n], st.history, None, None, st.threads[n := Signed(job, |st.trace|)], st.trace + [Adm(n, job.id, |st.trace|)])
  {
    var st0 := At(st, n, Ready(job), None, None);
    GuardIsAdmit(st0, n, job, k);
    OneStep(st0, n, k + 5);
    var st5 := Admitted(st0, n, job);
    assert st5.busy == map[job.id := n];
    assert Act(st5, Step(n, true)).threads == st.threads[n := Signed(job, |st.trace|)];
  }

  /** The mark's release, from a state with the record written. */
  lemma ReleaseSteps(st: State, n: nat, job: Job, adm: nat)
    requires job.Accept? && job.id != "" && n in st.threads && st.threads[n] == Leaving(job, adm)
    requires st.cosignMu == None && st.busy == map[job.id := n]
    ensures Act(Act(Act(st, Step(n, true)), Step(n, true)), Step(n, true)) ==
            State(map[], st.history, None, st.histMu, st.threads[n := Over(job)], st.trace)
  {
    var st1 := At(st, n, Clearing(job, adm), Some(n), st.histMu);
    assert Act(st, Step(n, true)) == st1;
    var st2 := State(map[], st.history, Some(n), st.histMu, st.threads[n := Cleared(job)], st.trace);
    assert st1.busy - {job.id} == map[];
    assert Act(st1, Step(n, true)).threads == st2.threads;
    assert Act(st1, Step(n, true)) == st2;
    assert Act(st2, Step(n, true)).threads == st.threads[n := Over(job)];
  }

  function Finished(st: State, n: nat, job: Job): State
    requires job.Accept?
  {
    State(map[], Some(Prepend(Load(st), EventOf(job))), None, None, st.threads[n := Over(job)],
          st.trace + [Adm(n, job.id, |st.trace|), Rec(n, EventOf(job), |st.trace| + 1)])
  }

  lemma FinishedAfterRecord(st: State, n: nat, job: Job, st6: State)
    requires Idle(st, n) && job.Accept?
    requires st6 == State(map[job.id := n], st.history, None, None, st.threads[n := Signed(job, |st.trace|)], st.trace + [Adm(n, job.id, |st.trace|)])
    ensures var st10 := Recorded(st6, n, EventOf(job), Leaving(job, |st.trace|));
            State(map[], st10.history, None, st10.histMu, st10.threads[n := Over(job)], st10.trace) == Finished(st, n, job)
  {
    var st10 := Recorded(st6, n, EventOf(job), Leaving(job, |st.trace|));
    assert st10.threads[n := Over(job)] == st.threads[n := Over(job)];
    assert st10.trace == st.trace + [Adm(n, job.id, |st.trace|), Rec(n, EventOf(job), |st.trace| + 1)];
  }

  lemma ThreeSteps(st: State, tid: Tid, k: nat)
    ensures Run(st, tid, k + 3) == Act(Act(Act(Run(st, tid, k), Step(tid, true)), Step(tid, true)), Step(tid, true))
  {
    TwoSteps(st, tid, k);
    OneStep(st, tid, k + 2);
  }

  lemma AcceptSteps(st: State, n: nat, job: Job, k: nat)
    requires k == 0 && Idle(st, n) && job.Accept? && job.ecdsa && job.id != "" && !AlreadyCosigned(Load(st), job.id)
    ensures Run(At(st, n, Ready(job), None, None), n, k + 13) == Finished(st, n, job)
  {
    var st0 := At(st, n, Ready(job), None, None);
    SignRun(st, n, job, k);
    RecordRun(st0, k + 6, n, job, |st.trace|);
    FinishedAfterRecord(st, n, job, Run(st0, n, k + 6));
    ReleaseSteps(Run(st0, n, k + 10), n, job, |st.trace|);
    ThreeSteps(st0, n, k + 10);
  }

  lemma FinishedIsIdle(st: State, n: nat, job: Job)
    requires Idle(st, n) && job.Accept?
    ensures var st' := Finished(st, n, job); Idle(st', n + 1) && Load(st') == Prepend(Load(st), EventOf(job))
  {
  }

  lemma AcceptRun(st: State, n: nat, job: Job, k: nat)
    requires k == 0 && Idle(st, n) && job.Accept? && job.ecdsa && job.id != "" && !AlreadyCosigned(Load(st), job.id)
    ensures Play(st, Handler(n, job, k + 13)) == Finished(st, n, job)
  {
    SpawnAlone(st, n, job);
    PlayFrom(st, At(st, n, Ready(job), None, None), n, job, k + 13);
    AcceptSteps(st, n, job, k);
  }

  /** An ECDSA accept the guard lets through, with nobody else about, is recorded. */
  lemma AcceptAlone(st: State, n: nat, job: Job)
    requires Idle(st, n) && job.Accept? && job.ecdsa && job.id != "" && !AlreadyCosigned(Load(st), job.id)
    ensures var st' := Play(st, Whole(n, job));
            && Idle(st', n + 1) && Load(st') == Prepend(Load(st), EventOf(job))
            && st'.trace == st.trace + [Adm(n, job.id, |st.trace|), Rec(n, EventOf(job), |st.trace| + 1)]
  {
    AcceptRun(st, n, job, Length(job) - 13);
    FinishedIsIdle(st, n, job);
  }

  lemma FirstAccept(job: Job)
    requires job.Accept? && job.ecdsa && job.id != ""
    ensures var st := Reach(Whole(0, job));
            Idle(st, 1) && Load(st) == [EventOf(job)] && st.trace == [Adm(0, job.id, 0), Rec(0, EventOf(job), 1)]
  {
    var first := Whole(0, job);
    assert [] + first == first;
    ReachPlay([], first);
    AcceptAlone(INIT, 0, job);
  }

  // ---- a clear that does not stick ----

  /** The handler has loaded the history and will write it. */
  predicate WillWrite(pc: Pc) {
    pc.Read? && (pc.job.Accept? || pc.job.Note? || (pc.job.Finish? && Updates(pc.list, pc.job.hash)))
  }

  /**
   * A clear between a handler's load and its write is undone by the write: the stored list is the same
   * as without the clear. It stands exactly when the handler has nothing to write.
   */
  lemma ClearUndone(sched: seq<Action>, tid: Tid, c: Tid)
    requires var st := Reach(sched); tid in st.threads && st.threads[tid].Read? && c !in st.threads
    ensures var cleared := sched + Whole(c, Clear);
            && Load(Reach(cleared)) == []
            && Load(Reach(cleared + [Step(tid, true)])) ==
               if WillWrite(Reach(sched).threads[tid]) then Load(Reach(sched + [Step(tid, true)])) else []
  {
    var cleared := sched + Whole(c, Clear);
    ReachPlay(sched, Whole(c, Clear));
    ClearRun(Reach(sched), c);
    assert (cleared + [Step(tid, true)])[..|cleared|] == cleared;
    assert (sched + [Step(tid, true)])[..|sched|] == sched;
    ReachInv(sched);
    ClearThenWrite(Reach(sched), tid, c);
  }

  lemma ClearThenWrite(st: State, tid: Tid, c: Tid)
    requires tid in st.threads && st.threads[tid].Read? && c !in st.threads && ThreadOk(st, tid, st.threads[tid])
    ensures var st' := State(st.busy, None, st.cosignMu, st.histMu, st.threads[c := Over(Clear)], st.trace + [Clr]);
            Load(Act(st', Step(tid, true))) == if WillWrite(st.threads[tid]) then Load(Act(st, Step(tid, true))) else []
  {
  }

  /** Such a run: an accept completes, a note is loading, the history is cleared, and in the end both events are stored. */
  lemma LostClear(job: Job, ev: Event) returns (sched: seq<Action>)
    requires job.Accept? && job.ecdsa && job.id != "" && ev.role != "acceptor"
    ensures var st := Reach(sched);
            && Idle(st, 3) && st.trace == [Adm(0, job.id, 0), Rec(0, EventOf(job), 1), Clr, Rec(1, ev, 2)]
            && Load(st) == [ev, EventOf(job)]
  {
    FirstAccept(job);
    var loading := StartNote(Whole(0, job), job, ev);
    sched := FinishLost(loading, job, ev);
  }

  predicate Loading(st: State, job: Job, ev: Event)
    requires job.Accept?
  {
    && st.busy == map[] && st.cosignMu == None && st.histMu == Some(1) && st.trace == [Adm(0, job.id, 0), Rec(0, EventOf(job), 1)]
    && st.threads.Keys <= {0, 1} && 1 in st.threads && st.threads[1] == Read(Note(ev), 0, [EventOf(job)], 2)
    && (0 in st.threads ==> st.threads[0].Over?)
  }

  lemma StartNote(first: seq<Action>, job: Job, ev: Event) returns (loading: seq<Action>)
    requires job.Accept? && ev.role != "acceptor"
    requires var st := Reach(first);
             Idle(st, 1) && Load(st) == [EventOf(job)] && st.trace == [Adm(0, job.id, 0), Rec(0, EventOf(job), 1)]
    ensures Loading(Reach(loading), job, ev)
  {
    var k := Length(Note(ev)) - 2;
    loading := first + Handler(1, Note(ev), k);
    ReachPlay(first, Handler(1, Note(ev), k));
    NoteLoads(Reach(first), job, ev, k);
  }

  lemma NoteLoads(st: State, job: Job, ev: Event, k: nat)
    requires job.Accept? && ev.role != "acceptor" && k == 2
    requires Idle(st, 1) && Load(st) == [EventOf(job)] && st.trace == [Adm(0, job.id, 0), Rec(0, EventOf(job), 1)]
    ensures Loading(Play(st, Handler(1, Note(ev), k)), job, ev)
  {
    NoteLoadRun(st, 1, ev, k - 2);
    NoteLoading(st, job, ev);
  }

  lemma NoteLoading(st: State, job: Job, ev: Event)
    requires job.Accept? && Idle(st, 1) && Load(st) == [EventOf(job)] && st.trace == [Adm(0, job.id, 0), Rec(0, EventOf(job), 1)]
    ensures Loading(At(st, 1, Read(Note(ev), 0, Load(st), |st.trace|), None, Some(1)), job, ev)
  {
  }

  /** The note's last two steps, after a clear. */
  lemma LostSteps(st: State, job: Job, ev: Event)
    requires job.Accept? && Loading(st, job, ev)
    ensures var cleared := State(st.busy, None, st.cosignMu, st.histMu, st.threads[2 := Over(Clear)], st.trace + [Clr]);
            var st' := Act(Act(cleared, Step(1, true)), Step(1, true));
            && Idle(st', 3) && st'.trace == [Adm(0, job.id, 0), Rec(0, EventOf(job), 1), Clr, Rec(1, ev, 2)]
            && Load(st') == [ev, EventOf(job)]
  {
    var cleared := State(st.busy, None, st.cosignMu, st.histMu, st.threads[2 := Over(Clear)], st.trace + [Clr]);
    var st1 := State(st.busy, Some([ev, EventOf(job)]), None, Some(1), cleared.threads[1 := Wrote(Note(ev), 0)], st.trace + [Clr, Rec(1, ev, 2)]);
    assert Prepend([EventOf(job)], ev) == [ev, EventOf(job)];
    assert Act(cleared, Step(1, true)).trace == st1.trace;
    assert Act(cleared, Step(1, true)) == st1;
  }

  lemma FinishLost(loading: seq<Action>, job: Job, ev: Event) returns (sched: seq<Action>)
    requires job.Accept? && Loading(Reach(loading), job, ev)
    ensures var st := Reach(sched);
            && Idle(st, 3) && st.trace == [Adm(0, job.id, 0), Rec(0, EventOf(job), 1), Clr, Rec(1, ev, 2)]
            && Load(st) == [ev, EventOf(job)]
  {
    var cleared := loading + Whole(2, Clear);
    ReachPlay(loading, Whole(2, Clear));
    ClearRun(Reach(loading), 2);
    LostSteps(Reach(loading), job, ev);
    sched := ReachTwo(cleared, 1);
  }

  lemma ReachTwo(a: seq<Action>, tid: Tid) returns (b: seq<Action>)
    ensures Reach(b) == Act(Act(Reach(a), Step(tid, true)), Step(tid, true))
  {
    var one := a + [Step(tid, true)];
    b := one + [Step(tid, true)];
    assert b[..|one|] == one && one[..|a|] == a;
  }

  // ---- two completed accepts of one swap ----

  predicate CompletedTwice(trace: seq<Mark>, id: string) {
    exists i, j :: 0 <= i < j < |trace| && AcceptRec(trace[i], id) && AcceptRec(trace[j], id)
  }

  /** Across a clear, a swap is completed twice. */
  lemma TwiceAcrossClear(job: Job) returns (sched: seq<Action>)
    requires job.Accept? && job.ecdsa && job.id != ""
    ensures CompletedTwice(Reach(sched).trace, job.id) && Idle(Reach(sched), 3)
  {
    var first := Whole(0, job);
    FirstAccept(job);
    var cleared := first + Whole(1, Clear);
    ReachPlay(first, Whole(1, Clear));
    ClearAlone(Reach(first), 1);
    sched := cleared + Whole(2, job);
    ReachPlay(cleared, Whole(2, job));
    AcceptAlone(Reach(cleared), 2, job);
    var trace := Reach(sched).trace;
    assert AcceptRec(trace[1], job.id) && AcceptRec(trace[4], job.id);
  }

  /** The state k notes later. */
  predicate Noted(st: State, st': State, n: nat, ev: Event, k: nat) {
    && Idle(st', n + k) && |Load(st')| >= k && (forall i :: 0 <= i < k ==> Load(st')[i] == ev)
    && (k > 0 ==> |Load(st')| <= HISTORY_MAX)
    && |st'.trace| == |st.trace| + k && st.trace <= st'.trace && Clr !in st'.trace[|st.trace|..]
  }

  lemma NotedMore(st: State, st1: State, st2: State, n: nat, ev: Event, k: nat)
    requires Noted(st, st1, n, ev, k) && k < HISTORY_MAX
    requires Idle(st2, n + k + 1) && Load(st2) == Prepend(Load(st1), ev) && st2.trace == st1.trace + [Rec(n + k, ev, |st1.trace|)]
    ensures Noted(st, st2, n, ev, k + 1)
  {
  }

  /** After k notes the list starts with k notes. */
  lemma {:induction false} Notes(sched: seq<Action>, n: nat, ev: Event, k: nat) returns (after: seq<Action>)
    requires Idle(Reach(sched), n) && ev.role != "acceptor" && k <= HISTORY_MAX
    ensures Noted(Reach(sched), Reach(after), n, ev, k)
    decreases k
  {
    if k == 0 {
      after := sched;
    } else {
      var before := Notes(sched, n, ev, k - 1);
      after := OneMoreNote(Reach(sched), before, n, ev, k - 1);
    }
  }

  lemma OneMoreNote(st: State, before: seq<Action>, n: nat, ev: Event, k: nat) returns (after: seq<Action>)
    requires Noted(st, Reach(before), n, ev, k) && ev.role != "acceptor" && k < HISTORY_MAX
    ensures Noted(st, Reach(after), n, ev, k + 1)
  {
    after := before + Whole(n + k, Note(ev));
    ReachPlay(before, Whole(n + k, Note(ev)));
    NoteAlone(Reach(before), n + k, ev);
    NotedMore(st, Reach(before), Reach(after), n, ev, k);
  }

  /** Without any clear, a swap is completed twice once 200 records have come after the first. */
  lemma TwiceAfterTwoHundred(job: Job, ev: Event) returns (sched: seq<Action>)
    requires job.Accept? && job.ecdsa && job.id != "" && ev.role != "acceptor"
    ensures CompletedTwice(Reach(sched).trace, job.id) && Clr !in Reach(sched).trace
    ensures |Reach(sched).trace| == HISTORY_MAX + 4 && Idle(Reach(sched), HISTORY_MAX + 2)
  {
    var first := Whole(0, job);
    FirstAccept(job);
    var noted := Notes(first, 1, ev, HISTORY_MAX);
    var n := HISTORY_MAX + 1;
    sched := noted + Whole(n, job);
    ReachPlay(noted, Whole(n, job));
    AcceptAlone(Reach(noted), n, job);
    var trace, t := Reach(sched).trace, Reach(noted).trace;
    assert t == t[..2] + t[2..];
    assert AcceptRec(trace[1], job.id) && AcceptRec(trace[|trace| - 1], job.id);
  }
}
