/**
 * server/escrow.go under concurrency: any number of deposit handlers, serialised by one mutex,
 * interleaved with polls that read the store without it.
 */
module EscrowThreads {
  import opened Wrappers
  import opened Bytes
  import opened Validation
  import opened Escrow
  import opened EscrowLaws

  type Tid = nat

  /**
   * Where a handler stands. `at` is the position the handler has taken in the sequential order;
   * it is written down at the step that fixes the outcome and never consulted by a step.
   */
  datatype Pc =
    | Ready(op: Op)                                               // request parsed, nothing done
    | Locked(op: Op)                                              // deposit holds escrowMu
    | Loaded(op: Op, p: Option<Slots>)                            // deposit has read the store
    | Grown(op: Op, wasEmpty: bool, s: Slots)                     // addFlower succeeded
    | Stored(op: Op, wasEmpty: bool, s: Slots, at: nat)           // deposit has written the store
    | Answering(op: Op, r: Reply, at: nat)                        // deposit knows its reply, still locked
    | Fetched(op: Op, p: Option<Slots>, at: nat)                  // poll has read the store
    | Done(op: Op, r: Reply, at: nat)                             // replied, lock released

  datatype Entry = Entry(tid: Tid, op: Op)

  datatype State = State(
    store: Store,
    lock: Option<Tid>,
    threads: map<Tid, Pc>,
    log: seq<Entry>,        // the operations in the order their outcomes were fixed
    acquired: seq<Tid>)     // the deposits in the order they took the lock

  const INIT := State(map[], None, map[], [], [])

  datatype Action = Spawn(tid: Tid, op: Op) | Step(tid: Tid)

  function Goto(st: State, tid: Tid, pc: Pc): State { st.(threads := st.threads[tid := pc]) }

  function Fix(st: State, tid: Tid, op: Op): State { st.(log := st.log + [Entry(tid, op)]) }

  /** One step of one deposit handler. */
  function DepositStep(v: Validator, st: State, tid: Tid, pc: Pc): State
    requires pc.op.Deposit?
  {
    var f, now := pc.op.f, |st.log|;
    match pc
    case Ready(op) =>
      if st.lock.Some? then st    // blocked
      else Goto(st.(lock := Some(tid), acquired := st.acquired + [tid]), tid, Locked(op))
    case Locked(op) =>
      if op.fault == GetFails then Goto(Fix(st, tid, op), tid, Answering(op, StorageError, now))
      else Goto(st, tid, Loaded(op, Get(st.store, f.id)))
    case Loaded(op, p) => (
      match AddFlower(OrEmpty(p), f)
      case Refused(why) => Goto(Fix(st, tid, op), tid, Answering(op, Conflict(why), now))
      case Added(s) => Goto(st, tid, Grown(op, p.None?, s)))
    case Grown(op, wasEmpty, s) =>
      if op.fault == PutFails then Goto(Fix(st, tid, op), tid, Answering(op, StorageError, now))
      else Goto(Fix(st.(store := st.store[f.id := s]), tid, op), tid, Stored(op, wasEmpty, s, now))
    case Stored(op, wasEmpty, s, at) => Goto(st, tid, Answering(op, DepositReply(v, wasEmpty, s, f.pub), at))
    case Answering(op, r, at) => Goto(st.(lock := None), tid, Done(op, r, at))
    case _ => st
  }

  /** One step of one poll: a single read, then a reply computed from what was read. */
  function CheckStep(v: Validator, st: State, tid: Tid, pc: Pc): State
    requires pc.op.Check?
  {
    match pc
    case Ready(op) =>
      if op.fault == GetFails then Goto(Fix(st, tid, op), tid, Done(op, StorageError, |st.log|))
      else Goto(Fix(st, tid, op), tid, Fetched(op, Get(st.store, op.id), |st.log|))
    case Fetched(op, p, at) => Goto(st, tid, Done(op, CheckReply(v, p, op.pub, op.caller), at))
    case _ => st
  }

  /** A scheduled action; one that is not possible in the state leaves it alone. */
  function Act(v: Validator, st: State, a: Action): State {
    match a
    case Spawn(tid, op) => if tid in st.threads then st else Goto(st, tid, Ready(op))
    case Step(tid) =>
      if tid !in st.threads then st
      else if st.threads[tid].op.Deposit? then DepositStep(v, st, tid, st.threads[tid])
      else CheckStep(v, st, tid, st.threads[tid])
  }

  /** The state after any schedule. */
  function Reach(v: Validator, sched: seq<Action>): State {
    if sched == [] then INIT else Act(v, Reach(v, sched[..|sched| - 1]), sched[|sched| - 1])
  }

  function Ops(log: seq<Entry>): (ops: seq<Op>)
    ensures |ops| == |log| && forall i :: 0 <= i < |log| ==> ops[i] == log[i].op
  {
    seq(|log|, i requires 0 <= i < |log| => log[i].op)
  }

  // ---- the invariant ----

  predicate Critical(pc: Pc) {
    pc.op.Deposit? && (pc.Locked? || pc.Loaded? || pc.Grown? || pc.Stored? || pc.Answering?)
  }

  predicate Decided(pc: Pc) { pc.Stored? || pc.Answering? || pc.Fetched? || pc.Done? }

  /** The reply a thread has, or is bound to give, once its outcome is fixed. */
  function Outcome(v: Validator, pc: Pc): Reply
    requires Decided(pc) && (pc.Stored? ==> pc.op.Deposit?) && (pc.Fetched? ==> pc.op.Check?)
  {
    match pc
    case Stored(op, wasEmpty, s, at) => DepositReply(v, wasEmpty, s, op.f.pub)
    case Fetched(op, p, at) => CheckReply(v, p, op.pub, op.caller)
    case Answering(op, r, at) => r
    case Done(op, r, at) => r
  }

  /** What a thread's local variables have to do with the store and the sequential order. */
  ghost predicate ThreadOk(v: Validator, st: State, tid: Tid, pc: Pc) {
    && (Critical(pc) <==> st.lock == Some(tid))
    && (pc.Locked? || pc.Loaded? || pc.Grown? || pc.Stored? || pc.Answering? ==> pc.op.Deposit?)
    && (pc.Fetched? ==> pc.op.Check?)
    && (pc.Loaded? ==> pc.op.fault != GetFails && pc.p == Get(st.store, pc.op.f.id))
    && (pc.Grown? ==>
          && pc.op.fault != GetFails
          && pc.wasEmpty == (pc.op.f.id !in st.store)
          && AddFlower(OrEmpty(Get(st.store, pc.op.f.id)), pc.op.f) == Added(pc.s))
    && (Decided(pc) ==>
          && pc.at < |st.log|
          && st.log[pc.at] == Entry(tid, pc.op)
          && Outcome(v, pc) == ReplyAt(v, Ops(st.log), pc.at))
  }

  /** The deposits of the log, in order. */
  function DepositTids(log: seq<Entry>): seq<Tid> {
    if log == [] then []
    else DepositTids(log[..|log| - 1]) + if log[|log| - 1].op.Deposit? then [log[|log| - 1].tid] else []
  }

  /** The lock holder that has not fixed its outcome yet. */
  function Undecided(st: State): seq<Tid> {
    if st.lock.Some? && st.lock.value in st.threads && !Decided(st.threads[st.lock.value]) then [st.lock.value] else []
  }

  ghost predicate Inv(v: Validator, st: State) {
    && st.store == StateAt(v, Ops(st.log))
    && (st.lock.Some? ==> st.lock.value in st.threads)
    && (forall tid :: tid in st.threads ==> ThreadOk(v, st, tid, st.threads[tid]))
    && LogOk(st)
    && st.acquired == DepositTids(st.log) + Undecided(st)
  }

  /** Appending to the log extends the sequential run and keeps its replies. */
  lemma LogExtends(v: Validator, log: seq<Entry>, e: Entry)
    ensures StateAt(v, Ops(log + [e])) == Exec(v, StateAt(v, Ops(log)), e.op).0
    ensures ReplyAt(v, Ops(log + [e]), |log|) == Exec(v, StateAt(v, Ops(log)), e.op).1
    ensures forall i :: 0 <= i < |log| ==> ReplyAt(v, Ops(log + [e]), i) == ReplyAt(v, Ops(log), i)
    ensures DepositTids(log + [e]) == DepositTids(log) + if e.op.Deposit? then [e.tid] else []
  {
    OpsExtend(log, e);
    RunExtends(v, Ops(log), e.op);
  }

  lemma OpsExtend(log: seq<Entry>, e: Entry)
    ensures Ops(log + [e]) == Ops(log) + [e.op]
    ensures DepositTids(log + [e]) == DepositTids(log) + if e.op.Deposit? then [e.tid] else []
  {
    assert (log + [e])[..|log|] == log;
  }

  lemma RunExtends(v: Validator, ops: seq<Op>, op: Op)
    ensures StateAt(v, ops + [op]) == Exec(v, StateAt(v, ops), op).0
    ensures ReplyAt(v, ops + [op], |ops|) == Exec(v, StateAt(v, ops), op).1
    ensures forall i :: 0 <= i < |ops| ==> ReplyAt(v, ops + [op], i) == ReplyAt(v, ops, i)
  {
    assert (ops + [op])[..|ops|] == ops;
    forall i | 0 <= i < |ops| ensures ReplyAt(v, ops + [op], i) == ReplyAt(v, ops, i) {
      ReplyOfPrefix(v, ops, [op], i);
    }
  }

  /** A step that fixes no outcome: one thread moves, and the lock moves only between it and nobody. */
  lemma QuietStep(v: Validator, st: State, st': State, tid: Tid)
    requires Inv(v, st) && tid in st'.threads
    requires st' == State(st.store, st'.lock, st.threads[tid := st'.threads[tid]], st.log, st'.acquired)
    requires st'.lock == st.lock || {st.lock, st'.lock} <= {None, Some(tid)}
    requires tid in st.threads && Decided(st.threads[tid]) ==>
               Decided(st'.threads[tid]) && st'.threads[tid].at == st.threads[tid].at
    requires ThreadOk(v, st', tid, st'.threads[tid])
    requires st'.acquired == DepositTids(st.log) + Undecided(st')
    ensures Inv(v, st')
  {
    forall t | t in st'.threads && t != tid ensures ThreadOk(v, st', t, st'.threads[t]) {
      assert ThreadOk(v, st, t, st.threads[t]);
    }
  }

  /** What a deciding step leaves of another thread's state of affairs. */
  lemma OtherThreadOk(v: Validator, st: State, st': State, tid: Tid, t: Tid, pc: Pc)
    requires t != tid && ThreadOk(v, st, t, pc)
    requires st'.lock == st.lock && (st'.store == st.store || st.lock == Some(tid))
    requires |st.log| < |st'.log| && st.log == st'.log[..|st.log|]
    requires forall i :: 0 <= i < |st.log| ==> ReplyAt(v, Ops(st'.log), i) == ReplyAt(v, Ops(st.log), i)
    ensures ThreadOk(v, st', t, pc)
  {
  }

  /** A step that fixes an outcome: the log grows by the thread's operation, and the store with it. */
  lemma DecidingStep(v: Validator, st: State, st': State, tid: Tid, pc: Pc)
    requires Inv(v, st) && tid in st.threads && !Decided(st.threads[tid])
    requires pc.op == st.threads[tid].op && Decided(pc) && pc.at == |st.log|
    requires (pc.Stored? || pc.Answering? ==> pc.op.Deposit?) && (pc.Fetched? ==> pc.op.Check?)
    requires Critical(pc) == pc.op.Deposit? == (st.lock == Some(tid))
    requires (st'.store, Outcome(v, pc)) == Exec(v, st.store, pc.op)
    requires st' == State(st'.store, st.lock, st.threads[tid := pc], st.log + [Entry(tid, pc.op)], st.acquired)
    ensures Inv(v, st')
  {
    LogExtends(v, st.log, Entry(tid, pc.op));
    DecidedInv(v, st, st', tid, pc);
  }

  lemma DecidedInv(v: Validator, st: State, st': State, tid: Tid, pc: Pc)
    requires Inv(v, st) && tid in st.threads && !Decided(st.threads[tid])
    requires pc.op == st.threads[tid].op && Decided(pc) && pc.at == |st.log|
    requires st' == State(st'.store, st.lock, st.threads[tid := pc], st.log + [Entry(tid, pc.op)], st.acquired)
    requires pc.op.Deposit? <==> st.lock == Some(tid)
    requires st'.store == st.store || st.lock == Some(tid)
    requires st'.store == StateAt(v, Ops(st'.log)) && ThreadOk(v, st', tid, pc)
    requires forall i :: 0 <= i < |st.log| ==> ReplyAt(v, Ops(st'.log), i) == ReplyAt(v, Ops(st.log), i)
    requires DepositTids(st'.log) == DepositTids(st.log) + if pc.op.Deposit? then [tid] else []
    ensures Inv(v, st')
  {
    OthersStayOk(v, st, st', tid, pc);
    LogPositions(st, st', tid, pc);
    AcquiredAfter(v, st, st', tid, pc);
  }

  lemma OthersStayOk(v: Validator, st: State, st': State, tid: Tid, pc: Pc)
    requires forall t :: t in st.threads ==> ThreadOk(v, st, t, st.threads[t])
    requires st' == State(st'.store, st.lock, st.threads[tid := pc], st.log + [Entry(tid, pc.op)], st.acquired)
    requires st'.store == st.store || st.lock == Some(tid)
    requires forall i :: 0 <= i < |st.log| ==> ReplyAt(v, Ops(st'.log), i) == ReplyAt(v, Ops(st.log), i)
    ensures forall t :: t in st'.threads && t != tid ==> ThreadOk(v, st', t, st'.threads[t])
  {
    forall t | t in st'.threads && t != tid ensures ThreadOk(v, st', t, st'.threads[t]) {
      OtherThreadOk(v, st, st', tid, t, st.threads[t]);
    }
  }

  ghost predicate LogOk(st: State) {
    forall i :: 0 <= i < |st.log| ==>
      st.log[i].tid in st.threads && var pc := st.threads[st.log[i].tid]; Decided(pc) && pc.at == i
  }

  lemma LogPositions(st: State, st': State, tid: Tid, pc: Pc)
    requires LogOk(st) && tid in st.threads && !Decided(st.threads[tid]) && Decided(pc) && pc.at == |st.log|
    requires st'.threads == st.threads[tid := pc] && st'.log == st.log + [Entry(tid, pc.op)]
    ensures LogOk(st')
  {
  }

  lemma AcquiredAfter(v: Validator, st: State, st': State, tid: Tid, pc: Pc)
    requires tid in st.threads && !Decided(st.threads[tid]) && Decided(pc)
    requires st'.lock == st.lock && st'.threads == st.threads[tid := pc] && st'.acquired == st.acquired
    requires st.acquired == DepositTids(st.log) + Undecided(st)
    requires pc.op.Deposit? <==> st.lock == Some(tid)
    requires DepositTids(st'.log) == DepositTids(st.log) + if pc.op.Deposit? then [tid] else []
    ensures st'.acquired == DepositTids(st'.log) + Undecided(st')
  {
  }

  /** The deposit steps at which the outcome becomes known. */
  predicate Decides(pc: Pc)
    requires pc.op.Deposit?
  {
    || (pc.Locked? && pc.op.fault == GetFails)
    || (pc.Loaded? && AddFlower(OrEmpty(pc.p), pc.op.f).Refused?)
    || pc.Grown?
  }

  lemma DepositDecides(v: Validator, st: State, tid: Tid)
    requires Inv(v, st) && tid in st.threads && st.threads[tid].op.Deposit?
    requires Decides(st.threads[tid])
    ensures Inv(v, DepositStep(v, st, tid, st.threads[tid]))
  {
    var pc := st.threads[tid];
    var st' := DepositStep(v, st, tid, pc);
    assert ThreadOk(v, st, tid, pc);
    DecidingStep(v, st, st', tid, st'.threads[tid]);
  }

  /** A step of one deposit that touches nothing shared but the lock. */
  lemma MoveStep(v: Validator, st: State, tid: Tid, pc: Pc, lock: Option<Tid>, acquired: seq<Tid>)
    requires Inv(v, st) && tid in st.threads
    requires lock == st.lock || {st.lock, lock} <= {None, Some(tid)}
    requires Decided(st.threads[tid]) ==> Decided(pc) && pc.at == st.threads[tid].at
    requires var st' := State(st.store, lock, st.threads[tid := pc], st.log, acquired);
             ThreadOk(v, st', tid, pc) && acquired == DepositTids(st.log) + Undecided(st')
    ensures Inv(v, State(st.store, lock, st.threads[tid := pc], st.log, acquired))
  {
    QuietStep(v, st, State(st.store, lock, st.threads[tid := pc], st.log, acquired), tid);
  }

  lemma DepositMoves(v: Validator, st: State, tid: Tid)
    requires Inv(v, st) && tid in st.threads && st.threads[tid].op.Deposit?
    requires !Decides(st.threads[tid])
    ensures Inv(v, DepositStep(v, st, tid, st.threads[tid]))
  {
    var pc := st.threads[tid];
    assert ThreadOk(v, st, tid, pc);
    match pc
    case Ready(op) =>
      if st.lock.None? {
        assert Undecided(st) == [] && st.acquired == DepositTids(st.log);
        MoveStep(v, st, tid, Locked(op), Some(tid), st.acquired + [tid]);
      }
    case Locked(op) => MoveStep(v, st, tid, Loaded(op, Get(st.store, op.f.id)), st.lock, st.acquired);
    case Loaded(op, p) => MoveStep(v, st, tid, Grown(op, p.None?, AddFlower(OrEmpty(p), op.f).slots), st.lock, st.acquired);
    case Stored(op, wasEmpty, s, at) =>
      MoveStep(v, st, tid, Answering(op, DepositReply(v, wasEmpty, s, op.f.pub), at), st.lock, st.acquired);
    case Answering(op, r, at) => MoveStep(v, st, tid, Done(op, r, at), None, st.acquired);
    case _ =>
  }

  lemma CheckFetches(v: Validator, st: State, tid: Tid)
    requires Inv(v, st) && tid in st.threads && st.threads[tid].op.Check? && st.threads[tid].Ready?
    ensures Inv(v, CheckStep(v, st, tid, st.threads[tid]))
  {
    var pc := st.threads[tid];
    var st' := CheckStep(v, st, tid, pc);
    assert ThreadOk(v, st, tid, pc);
    DecidingStep(v, st, st', tid, st'.threads[tid]);
  }

  lemma CheckStepKeepsInv(v: Validator, st: State, tid: Tid)
    requires Inv(v, st) && tid in st.threads && st.threads[tid].op.Check?
    ensures Inv(v, CheckStep(v, st, tid, st.threads[tid]))
  {
    var pc := st.threads[tid];
    if pc.Ready? {
      CheckFetches(v, st, tid);
    } else if pc.Fetched? {
      assert ThreadOk(v, st, tid, pc);
      MoveStep(v, st, tid, Done(pc.op, CheckReply(v, pc.p, pc.op.pub, pc.op.caller), pc.at), st.lock, st.acquired);
    }
  }

  lemma ActKeepsInv(v: Validator, st: State, a: Action)
    requires Inv(v, st)
    ensures Inv(v, Act(v, st, a))
  {
    match a
    case Spawn(tid, op) =>
      if tid !in st.threads {
        QuietStep(v, st, Act(v, st, a), tid);
      }
    case Step(tid) =>
      if tid in st.threads {
        if st.threads[tid].op.Deposit? {
          if Decides(st.threads[tid]) {
            DepositDecides(v, st, tid);
          } else {
            DepositMoves(v, st, tid);
          }
        } else {
          CheckStepKeepsInv(v, st, tid);
        }
      }
  }

  lemma {:induction false} ReachInv(v: Validator, sched: seq<Action>)
    ensures Inv(v, Reach(v, sched))
  {
    if sched != [] {
      ReachInv(v, sched[..|sched| - 1]);
      ActKeepsInv(v, Reach(v, sched[..|sched| - 1]), sched[|sched| - 1]);
    }
  }

  // ---- the theorems ----

  /**
   * Linearizability: after any schedule there is one sequential order of the operations, deposits
   * in lock order, that explains the store and every reply given.
   */
  lemma Linearizable(v: Validator, sched: seq<Action>)
    ensures var st := Reach(v, sched);
            && st.store == StateAt(v, Ops(st.log))
            && (forall tid :: tid in st.threads && st.threads[tid].Done? ==>
                  var Done(op, r, at) := st.threads[tid];
                  at < |st.log| && st.log[at] == Entry(tid, op) && r == ReplyAt(v, Ops(st.log), at))
            && (forall i, j :: 0 <= i < j < |st.log| ==> st.log[i].tid != st.log[j].tid)
            && DepositTids(st.log) <= st.acquired && |st.acquired| <= |DepositTids(st.log)| + 1
  {
    ReachInv(v, sched);
    var st := Reach(v, sched);
    forall tid | tid in st.threads && st.threads[tid].Done?
      ensures var Done(op, r, at) := st.threads[tid];
              at < |st.log| && st.log[at] == Entry(tid, op) && r == ReplyAt(v, Ops(st.log), at)
    {
      assert ThreadOk(v, st, tid, st.threads[tid]);
    }
  }

  ghost predicate Continues(st: State, st': State) {
    && st.log <= st'.log
    && (forall tid :: tid in st.threads && st.threads[tid].Done? ==> tid in st'.threads && st'.threads[tid] == st.threads[tid])
  }

  lemma ActContinues(v: Validator, st: State, a: Action)
    ensures Continues(st, Act(v, st, a))
  {
  }

  lemma {:induction false} HistoryGrows(v: Validator, sched: seq<Action>, more: seq<Action>)
    ensures Continues(Reach(v, sched), Reach(v, sched + more))
    decreases |more|
  {
    if more == [] {
      assert sched + more == sched;
    } else {
      var all, front := sched + more, more[..|more| - 1];
      assert all[..|all| - 1] == sched + front;
      HistoryGrows(v, sched, front);
      ActContinues(v, Reach(v, sched + front), more[|more| - 1]);
    }
  }

  /** The sequential order respects real time: a handler that replied before another began stands before it. */
  lemma RealTimeOrder(v: Validator, sched: seq<Action>, more: seq<Action>, a: Tid, b: Tid)
    requires var st := Reach(v, sched); a in st.threads && st.threads[a].Done? && b !in st.threads
    requires var st' := Reach(v, sched + more); b in st'.threads && st'.threads[b].Done?
    ensures var st' := Reach(v, sched + more); a in st'.threads && st'.threads[a].Done? && st'.threads[a].at < st'.threads[b].at
  {
    var st, st' := Reach(v, sched), Reach(v, sched + more);
    ReachInv(v, sched);
    ReachInv(v, sched + more);
    HistoryGrows(v, sched, more);
    assert ThreadOk(v, st, a, st.threads[a]) && ThreadOk(v, st', b, st'.threads[b]);
  }

  /** At most one deposit is between taking and releasing the lock. */
  lemma MutualExclusion(v: Validator, sched: seq<Action>, a: Tid, b: Tid)
    requires var st := Reach(v, sched); a in st.threads && b in st.threads && Critical(st.threads[a]) && Critical(st.threads[b])
    ensures a == b
  {
    ReachInv(v, sched);
    var st := Reach(v, sched);
    assert ThreadOk(v, st, a, st.threads[a]) && ThreadOk(v, st, b, st.threads[b]);
  }

  /** While a handler is unfinished, some handler can move. */
  lemma NoDeadlock(v: Validator, sched: seq<Action>, tid: Tid)
    requires var st := Reach(v, sched); tid in st.threads && !st.threads[tid].Done?
    ensures exists t: Tid :: Act(v, Reach(v, sched), Step(t)) != Reach(v, sched)
  {
    ReachInv(v, sched);
    var st := Reach(v, sched);
    var t := if st.lock.Some? then st.lock.value else tid;
    var pc := st.threads[t];
    assert ThreadOk(v, st, t, pc);
    MovesOn(v, st, t);
  }

  lemma MovesOn(v: Validator, st: State, t: Tid)
    requires t in st.threads && ThreadOk(v, st, t, st.threads[t]) && !st.threads[t].Done?
    requires st.lock.None? || st.lock == Some(t)
    ensures Act(v, st, Step(t)) != st
  {
    assert st.threads[t] != Act(v, st, Step(t)).threads[t];
  }

  // ---- the sequential guarantees, for concurrent handlers ----

  ghost predicate AllReceived(sched: seq<Action>) {
    forall i :: 0 <= i < |sched| && sched[i].Spawn? ==> Received(sched[i].op)
  }

  lemma {:induction false} LogReceived(v: Validator, sched: seq<Action>)
    requires AllReceived(sched)
    ensures Run(Ops(Reach(v, sched).log))
    ensures forall tid :: tid in Reach(v, sched).threads ==> Received(Reach(v, sched).threads[tid].op)
  {
    if sched != [] {
      LogReceived(v, sched[..|sched| - 1]);
      ActReceived(v, Reach(v, sched[..|sched| - 1]), sched[|sched| - 1]);
    }
  }

  lemma ActReceived(v: Validator, st: State, a: Action)
    requires Run(Ops(st.log)) && forall tid :: tid in st.threads ==> Received(st.threads[tid].op)
    requires a.Spawn? ==> Received(a.op)
    ensures Run(Ops(Act(v, st, a).log)) && forall tid :: tid in Act(v, st, a).threads ==> Received(Act(v, st, a).threads[tid].op)
  {
    ActShape(v, st, a);
    var st' := Act(v, st, a);
    if st'.log != st.log {
      OpsExtend(st.log, Entry(a.tid, st.threads[a.tid].op));
    }
  }

  /** An action adds at most the acting thread's operation to the log, and no thread changes its operation. */
  lemma ActShape(v: Validator, st: State, a: Action)
    ensures var st' := Act(v, st, a);
            && (st'.log == st.log || (a.Step? && a.tid in st.threads && st'.log == st.log + [Entry(a.tid, st.threads[a.tid].op)]))
            && (forall t :: t in st'.threads ==> if t in st.threads then st'.threads[t].op == st.threads[t].op else a == Spawn(t, st'.threads[t].op))
  {
  }

  predicate Replied(st: State, tid: Tid) { tid in st.threads && st.threads[tid].Done? }

  /** No concurrent deposit clobbers another: every accepted flower is still in the store. */
  lemma NoFlowerLostConcurrently(v: Validator, sched: seq<Action>, tid: Tid)
    requires AllReceived(sched)
    requires var st := Reach(v, sched);
             Replied(st, tid) && st.threads[tid].op.Deposit? && AcceptedReply(st.threads[tid].r)
    ensures var st := Reach(v, sched);
            var f := st.threads[tid].op.f; f.id in st.store && Kept(st.store[f.id], f)
  {
    Linearizable(v, sched);
    LogReceived(v, sched);
    var st := Reach(v, sched);
    NoFlowerLost(v, Ops(st.log), st.threads[tid].at);
  }

  /** Across all interleavings, one (id, pub) yields one signature, and yields it to one caller. */
  lemma OneSignatureConcurrently(v: Validator, sched: seq<Action>, a: Tid, b: Tid)
    requires AllReceived(sched)
    requires var st := Reach(v, sched);
             && Replied(st, a) && Replied(st, b)
             && Releases(st.threads[a].r) && Releases(st.threads[b].r)
             && OpId(st.threads[a].op) == OpId(st.threads[b].op) && OpPub(st.threads[a].op) == OpPub(st.threads[b].op)
    ensures var st := Reach(v, sched);
            st.threads[a].r == st.threads[b].r && OpCaller(st.threads[a].op) == OpCaller(st.threads[b].op)
  {
    Linearizable(v, sched);
    LogReceived(v, sched);
    var st := Reach(v, sched);
    OneSignatureOneReceiver(v, Ops(st.log), st.threads[a].at, st.threads[b].at);
  }

  /** In every reachable state with both slots filled, the two depositors' polls would release together or not at all. */
  lemma AllOrNothingConcurrently(v: Validator, sched: seq<Action>, id: string)
    requires AllReceived(sched)
    requires var store := Reach(v, sched).store; id in store && store[id].f1.Some? && store[id].f2.Some?
    ensures var s := Reach(v, sched).store[id];
            var a, b := s.f1.value, s.f2.value;
            var ra := CheckReply(v, Some(s), a.pub, a.depositor);
            var rb := CheckReply(v, Some(s), b.pub, b.depositor);
            && (ra.Released? <==> rb.Released?)
            && (ra.Released? ==> ra.sig == b.sig && Accepts(v, a.alg, a.pub, a.hash, ra.sig))
            && (rb.Released? ==> rb.sig == a.sig && Accepts(v, b.alg, b.pub, b.hash, rb.sig))
  {
    Linearizable(v, sched);
    LogReceived(v, sched);
    AllOrNothing(v, Ops(Reach(v, sched).log), id);
  }

  /** The operations whose outcomes were fixed after a schedule, in a longer one. */
  function LaterOps(v: Validator, sched: seq<Action>, more: seq<Action>): seq<Op> {
    var n, later := |Reach(v, sched).log|, Ops(Reach(v, sched + more).log);
    if n <= |later| then later[n..] else []
  }

  lemma LaterOpsFollow(v: Validator, sched: seq<Action>, more: seq<Action>)
    ensures Ops(Reach(v, sched + more).log) == Ops(Reach(v, sched).log) + LaterOps(v, sched, more)
  {
    HistoryGrows(v, sched, more);
  }

  lemma StoreIsSequential(v: Validator, sched: seq<Action>)
    ensures Reach(v, sched).store == StateAt(v, Ops(Reach(v, sched).log))
  {
    ReachInv(v, sched);
  }

  /** Once complete, an exchange stays complete under any further interleaving whose deposits keep its terms. */
  lemma CompleteStaysConcurrently(v: Validator, sched: seq<Action>, more: seq<Action>, id: string)
    requires RejectsEmpty(v) && AllReceived(sched + more)
    requires id in Reach(v, sched).store && Complete(v, Reach(v, sched).store[id])
    requires KeepsHashes(v, Ops(Reach(v, sched).log), LaterOps(v, sched, more), id)
    ensures id in Reach(v, sched + more).store && Complete(v, Reach(v, sched + more).store[id])
  {
    StoreIsSequential(v, sched);
    StoreIsSequential(v, sched + more);
    LaterOpsFollow(v, sched, more);
    LogReceived(v, sched + more);
    CompleteStays(v, Ops(Reach(v, sched).log), LaterOps(v, sched, more), id);
  }
}
