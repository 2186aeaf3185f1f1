/**
 Threads, the scheduler and semaphores (threads/thread.cc, threads/scheduler.cc, threads/synch.cc)
 as one machine.  Its steps are the stretches of kernel code that run with interrupts off:
 a context switch happens only where a thread sleeps, yields or finishes, and an interrupt
 handler runs only between steps.
 */
module Threads {
  import opened Semaphores

  type SemId = nat

  datatype Status = Running | Ready | Blocked

  /**
   Where the processor is: running kernel or user code of the current thread; just switched to
   it, with CheckToBeDestroyed still to be called; or idling in Sleep for want of a ready thread.
   */
  datatype Mode = Executing | Switched | Idling(finishing: bool)

  datatype Kernel = Kernel(
    current: Tid,
    ready: seq<Tid>,
    status: map<Tid, Status>,       // of every live forked thread
    toBeDestroyed: Option<Tid>,
    mode: Mode,
    sems: map<SemId, Sem>)

  datatype Event =
    | Fork(t: Tid)
    | NewSemaphore(s: SemId, initialValue: nat)
    | P(s: SemId)                   // by the current thread, afresh or as the re-test after a wake-up
    | V(s: SemId)                   // by the current thread or by an interrupt handler
    | Yield
    | Finish
    | Resume                        // what the thread switched to does first
    | WakeFromIdle                  // the idle loop finds a ready thread

  // ---- scheduler operations ----

  function ReadyToRun(k: Kernel, t: Tid): Kernel {
    k.(status := k.status[t := Ready], ready := k.ready + [t])
  }

  /** FindNextToRun followed by Run: the head of the ready list gets the processor. */
  function Dispatch(k: Kernel, finishing: bool): Kernel
    requires k.ready != []
  {
    var next := k.ready[0];
    k.(current := next, ready := k.ready[1..], status := k.status[next := Running],
       toBeDestroyed := if finishing then Some(k.current) else k.toBeDestroyed, mode := Switched)
  }

  function Sleep(k: Kernel, finishing: bool): Kernel {
    var asleep := k.(status := k.status[k.current := Blocked]);
    if k.ready == [] then asleep.(mode := Idling(finishing)) else Dispatch(asleep, finishing)
  }

  function DoYield(k: Kernel): Kernel {
    if k.ready == [] then k
    else Dispatch(k.(ready := k.ready + [k.current], status := k.status[k.current := Ready]), false)
  }

  function DoResume(k: Kernel): Kernel {
    k.(mode := Executing, toBeDestroyed := None,
       status := if k.toBeDestroyed.Some? then k.status - {k.toBeDestroyed.value} else k.status)
  }

  // ---- semaphore operations ----

  /** One pass of the loop in P, which sleeps if it found no unit. */
  function DoP(k: Kernel, s: SemId): Kernel
    requires s in k.sems
  {
    var k' := k.(sems := k.sems[s := SemP(k.sems[s], k.current)]);
    if k.sems[s].value == 0 then Sleep(k', false) else k'
  }

  function DoV(k: Kernel, s: SemId): Kernel
    requires s in k.sems
  {
    var k' := k.(sems := k.sems[s := SemV(k.sems[s])]);
    if k.sems[s].queue == [] then k' else ReadyToRun(k', k.sems[s].queue[0])
  }

  // ---- the machine ----

  /** The current thread was readied by V on s and has yet to test the value again. */
  predicate MustRetest(k: Kernel, s: SemId) { s in k.sems && k.current in k.sems[s].woken }

  ghost predicate Free(k: Kernel) { k.mode == Executing && forall s :: !MustRetest(k, s) }

  ghost predicate Enabled(k: Kernel, e: Event) {
    match e
    case Fork(t) => Free(k) && t !in k.status
    case NewSemaphore(s, _) => Free(k) && s !in k.sems
    case P(s) => s in k.sems && k.mode == Executing && (MustRetest(k, s) || Free(k))
    case V(s) => s in k.sems && (Free(k) || k.mode.Idling?)
    case Yield => Free(k)
    case Finish => Free(k)
    case Resume => k.mode == Switched
    case WakeFromIdle => k.mode.Idling? && k.ready != []
  }

  function Next(k: Kernel, e: Event): Kernel
    requires Enabled(k, e)
  {
    match e
    case Fork(t) => ReadyToRun(k, t)
    case NewSemaphore(s, v) => k.(sems := k.sems[s := NewSem(v)])
    case P(s) => DoP(k, s)
    case V(s) => DoV(k, s)
    case Yield => DoYield(k)
    case Finish => Sleep(k, true)
    case Resume => DoResume(k)
    case WakeFromIdle => Dispatch(k, k.mode.finishing)
  }

  ghost predicate Init(k: Kernel) {
    k.ready == [] && k.status == map[k.current := Running] && k.toBeDestroyed == None && k.mode == Executing && k.sems == map[]
  }

  // ---- the invariant: every thread is in exactly one place, and its status says which ----

  predicate NoDuplicates(s: seq<Tid>) { forall i, j :: 0 <= i < j < |s| ==> s[i] != s[j] }

  predicate Queued(sems: map<SemId, Sem>, t: Tid, s: SemId) { s in sems && t in sems[s].queue }

  ghost predicate Waiting(sems: map<SemId, Sem>, t: Tid) { exists s :: Queued(sems, t, s) }

  ghost predicate Queues(sems: map<SemId, Sem>) {
    && (forall s :: s in sems ==> NoDuplicates(sems[s].queue))
    && (forall t, s, s' :: Queued(sems, t, s) && Queued(sems, t, s') ==> s == s')
  }

  /** `running` holds the thread on the processor, `dying` those that have finished and await deletion. */
  ghost predicate Placed(ready: seq<Tid>, status: map<Tid, Status>, sems: map<SemId, Sem>, running: set<Tid>, dying: set<Tid>) {
    && NoDuplicates(ready)
    && Queues(sems)
    && (forall t :: t in ready <==> t in status && status[t] == Ready)
    && (forall t :: t in running <==> t in status && status[t] == Running)
    && (forall t :: t in dying || Waiting(sems, t) <==> t in status && status[t] == Blocked)
    && (forall t :: t in dying ==> !Waiting(sems, t))
  }

  function RunningThreads(k: Kernel): set<Tid> { if k.mode.Idling? then {} else {k.current} }

  function DyingThreads(k: Kernel): set<Tid> {
    (if k.toBeDestroyed.Some? then {k.toBeDestroyed.value} else {}) + (if k.mode == Idling(true) then {k.current} else {})
  }

  predicate DestroyedInTime(k: Kernel) { k.toBeDestroyed.Some? ==> k.mode == Switched }

  /** A woken thread is ready or running, and was woken by one semaphore. */
  ghost predicate WokenPlaced(status: map<Tid, Status>, sems: map<SemId, Sem>) {
    && (forall s, t :: s in sems && t in sems[s].woken ==> t in status && status[t] != Blocked)
    && (forall s, s', t :: s in sems && s' in sems && t in sems[s].woken && t in sems[s'].woken ==> s == s')
  }

  /** No unit is free while a sleeper is forgotten: each one has a woken thread on its way to it. */
  predicate SemOk(sem: Sem) { sem.queue != [] ==> sem.value <= |sem.woken| }

  ghost predicate SemsOk(sems: map<SemId, Sem>) { forall s :: s in sems ==> SemOk(sems[s]) }

  ghost predicate Inv(k: Kernel) {
    && Placed(k.ready, k.status, k.sems, RunningThreads(k), DyingThreads(k))
    && DestroyedInTime(k)
    && WokenPlaced(k.status, k.sems)
    && SemsOk(k.sems)
  }

  // ---- moves between places ----

  lemma MoveToProcessor(ready: seq<Tid>, status: map<Tid, Status>, sems: map<SemId, Sem>, dying: set<Tid>)
    requires Placed(ready, status, sems, {}, dying) && ready != []
    ensures Placed(ready[1..], status[ready[0] := Running], sems, {ready[0]}, dying)
    ensures WokenPlaced(status, sems) ==> WokenPlaced(status[ready[0] := Running], sems)
  {
    hide Queues, Waiting;
    assert ready == [ready[0]] + ready[1..];
  }

  lemma MoveToReady(ready: seq<Tid>, status: map<Tid, Status>, sems: map<SemId, Sem>, running: set<Tid>, dying: set<Tid>, t: Tid)
    requires Placed(ready, status, sems, running, dying) && (t in running || t !in status)
    ensures Placed(ready + [t], status[t := Ready], sems, running - {t}, dying)
    ensures WokenPlaced(status, sems) ==> WokenPlaced(status[t := Ready], sems)
  {
    hide Queues, Waiting;
    assert t !in ready && !Waiting(sems, t) && t !in dying;
    assert forall u :: u in ready + [t] <==> u in ready || u == t;
  }

  lemma MoveToDying(ready: seq<Tid>, status: map<Tid, Status>, sems: map<SemId, Sem>, dying: set<Tid>, t: Tid)
    requires Placed(ready, status, sems, {t}, dying) && WokenPlaced(status, sems)
    requires forall s :: s in sems ==> t !in sems[s].woken
    ensures Placed(ready, status[t := Blocked], sems, {}, dying + {t}) && WokenPlaced(status[t := Blocked], sems)
  {
    hide Queues, Waiting;
  }

  lemma MoveOut(ready: seq<Tid>, status: map<Tid, Status>, sems: map<SemId, Sem>, running: set<Tid>, t: Tid)
    requires Placed(ready, status, sems, running, {t}) && WokenPlaced(status, sems)
    ensures Placed(ready, status - {t}, sems, running, {}) && WokenPlaced(status - {t}, sems)
  {
    hide Queues, Waiting;
  }

  /** Changing anything but the queues of the semaphores moves no thread. */
  lemma SameQueues(ready: seq<Tid>, status: map<Tid, Status>, sems: map<SemId, Sem>, running: set<Tid>, dying: set<Tid>, s: SemId, sem: Sem)
    requires Placed(ready, status, sems, running, dying)
    requires if s in sems then sem.queue == sems[s].queue else sem.queue == []
    ensures Placed(ready, status, sems[s := sem], running, dying)
  {
    var sems' := sems[s := sem];
    assert forall t, s' :: Queued(sems', t, s') <==> Queued(sems, t, s');
    assert forall t :: Waiting(sems', t) <==> Waiting(sems, t);
  }

  /** The running thread joins the queue of s. */
  lemma MoveToQueue(ready: seq<Tid>, status: map<Tid, Status>, sems: map<SemId, Sem>, dying: set<Tid>, s: SemId, sem: Sem, t: Tid)
    requires Placed(ready, status, sems, {t}, dying) && s in sems && sem.queue == sems[s].queue + [t]
    ensures Placed(ready, status[t := Blocked], sems[s := sem], {}, dying)
  {
    var sems' := sems[s := sem];
    assert !Waiting(sems, t);
    assert forall s' :: !Queued(sems, t, s');
    assert forall u, s' :: Queued(sems', u, s') <==> Queued(sems, u, s') || (u == t && s' == s);
    assert Queued(sems', t, s) && !Queued(sems, t, s);
    assert NoDuplicates(sem.queue);
    forall u ensures Waiting(sems', u) <==> Waiting(sems, u) || u == t {
      if Waiting(sems, u) {
        var s' :| Queued(sems, u, s');
        assert Queued(sems', u, s');
      }
    }
  }

  /** The head of the queue of s becomes ready. */
  lemma MoveFromQueue(ready: seq<Tid>, status: map<Tid, Status>, sems: map<SemId, Sem>, running: set<Tid>, dying: set<Tid>, s: SemId, sem: Sem)
    requires Placed(ready, status, sems, running, dying) && s in sems && sems[s].queue != [] && sem.queue == sems[s].queue[1..]
    ensures Placed(ready + [sems[s].queue[0]], status[sems[s].queue[0] := Ready], sems[s := sem], running, dying)
  {
    var sems', t := sems[s := sem], sems[s].queue[0];
    assert sems[s].queue == [t] + sem.queue;
    assert Queued(sems, t, s) && Waiting(sems, t);
    assert forall u, s' :: Queued(sems', u, s') <==> Queued(sems, u, s') && !(u == t && s' == s);
    forall u ensures Waiting(sems', u) <==> Waiting(sems, u) && u != t {
      if Waiting(sems, u) && u != t {
        var s' :| Queued(sems, u, s');
        assert Queued(sems', u, s');
      }
    }
  }

  // ---- every step keeps the invariant ----

  lemma DispatchPlaced(k: Kernel, finishing: bool)
    requires k.ready != [] && k.toBeDestroyed == None
    requires Placed(k.ready, k.status, k.sems, {}, if finishing then {k.current} else {}) && WokenPlaced(k.status, k.sems)
    ensures var k' := Dispatch(k, finishing);
            && Placed(k'.ready, k'.status, k'.sems, RunningThreads(k'), DyingThreads(k'))
            && DestroyedInTime(k') && WokenPlaced(k'.status, k'.sems)
  {
    hide Placed, WokenPlaced;
    MoveToProcessor(k.ready, k.status, k.sems, if finishing then {k.current} else {});
    var k' := Dispatch(k, finishing);
    assert DyingThreads(k') == if finishing then {k.current} else {};
  }

  lemma SleepPlaced(k: Kernel, finishing: bool)
    requires k.toBeDestroyed == None
    requires Placed(k.ready, k.status[k.current := Blocked], k.sems, {}, if finishing then {k.current} else {})
    requires WokenPlaced(k.status[k.current := Blocked], k.sems)
    ensures var k' := Sleep(k, finishing);
            && Placed(k'.ready, k'.status, k'.sems, RunningThreads(k'), DyingThreads(k'))
            && DestroyedInTime(k') && WokenPlaced(k'.status, k'.sems)
  {
    hide Placed, WokenPlaced;
    var asleep := k.(status := k.status[k.current := Blocked]);
    if k.ready == [] {
      assert DyingThreads(asleep.(mode := Idling(finishing))) == if finishing then {k.current} else {};
    } else {
      DispatchPlaced(asleep, finishing);
    }
  }

  lemma SchedulerStepKeeps(k: Kernel, e: Event)
    requires Inv(k) && Enabled(k, e) && !e.P? && !e.V?
    ensures Inv(Next(k, e))
  {
    hide Placed, WokenPlaced, SemsOk, Waiting;
    assert DyingThreads(k) == if k.mode == Switched && k.toBeDestroyed.Some? then {k.toBeDestroyed.value}
                              else if k.mode == Idling(true) then {k.current} else {};
    assert DyingThreads(Next(k, e)) == DyingThreads(Next(k, e)) + {};
    match e
    case Fork(t) =>
      MoveToReady(k.ready, k.status, k.sems, RunningThreads(k), DyingThreads(k), t);
      FreshNotRunning(k, t);
    case NewSemaphore(s, v) =>
      SameQueues(k.ready, k.status, k.sems, RunningThreads(k), DyingThreads(k), s, NewSem(v));
      NewSemOk(k, s, v);
    case Yield =>
      if k.ready != [] {
        MoveToReady(k.ready, k.status, k.sems, {k.current}, {}, k.current);
        assert {k.current} - {k.current} == {};
        DispatchPlaced(k.(ready := k.ready + [k.current], status := k.status[k.current := Ready]), false);
      }
    case Finish =>
      forall s | s in k.sems ensures k.current !in k.sems[s].woken {
        assert !MustRetest(k, s);
      }
      MoveToDying(k.ready, k.status, k.sems, {}, k.current);
      assert {} + {k.current} == {k.current};
      SleepPlaced(k, true);
    case Resume =>
      if k.toBeDestroyed.Some? {
        MoveOut(k.ready, k.status, k.sems, {k.current}, k.toBeDestroyed.value);
      }
      assert DyingThreads(Next(k, e)) == {};
    case WakeFromIdle =>
      DispatchPlaced(k, k.mode.finishing);
  }

  lemma FreshNotRunning(k: Kernel, t: Tid)
    requires Inv(k) && t !in k.status
    ensures RunningThreads(k) - {t} == RunningThreads(k)
  {
    assert t !in RunningThreads(k);
  }

  lemma NewSemOk(k: Kernel, s: SemId, v: nat)
    requires Inv(k) && s !in k.sems
    ensures var sems := k.sems[s := NewSem(v)]; WokenPlaced(k.status, sems) && SemsOk(sems)
  {
  }

  lemma PKeeps(k: Kernel, s: SemId)
    requires Inv(k) && Enabled(k, P(s))
    ensures Inv(Next(k, P(s)))
  {
    hide Placed, Waiting;
    assert DyingThreads(k) == {} && RunningThreads(k) == {k.current};
    if k.sems[s].value == 0 {
      var sem' := SemP(k.sems[s], k.current);
      var k1 := k.(sems := k.sems[s := sem']);
      MoveToQueue(k.ready, k.status, k.sems, {}, s, sem', k.current);
      NotWokenElsewhere(k, s);
      SleepPlaced(k1, false);
    } else {
      SameQueues(k.ready, k.status, k.sems, {k.current}, {}, s, Next(k, P(s)).sems[s]);
      assert DyingThreads(Next(k, P(s))) == {};
    }
  }

  /** A thread trying P on s was woken by s or by nobody. */
  lemma NotWokenElsewhere(k: Kernel, s: SemId)
    requires Inv(k) && Enabled(k, P(s))
    ensures forall s' :: s' in k.sems && s' != s ==> k.current !in k.sems[s'].woken
  {
    hide Placed;
    forall s' | s' in k.sems && s' != s ensures k.current !in k.sems[s'].woken {
      if !MustRetest(k, s) {
        assert !MustRetest(k, s');
      }
    }
  }

  lemma VKeeps(k: Kernel, s: SemId)
    requires Inv(k) && Enabled(k, V(s))
    ensures Inv(Next(k, V(s)))
  {
    hide Placed, WokenPlaced, SemsOk, Waiting;
    var sem', sem := Next(k, V(s)).sems[s], k.sems[s];
    assert DyingThreads(Next(k, V(s))) == DyingThreads(k);
    VSemsOk(k, s);
    if sem.queue == [] {
      SameQueues(k.ready, k.status, k.sems, RunningThreads(k), DyingThreads(k), s, sem');
    } else {
      MoveFromQueue(k.ready, k.status, k.sems, RunningThreads(k), DyingThreads(k), s, sem');
    }
  }

  lemma VSemsOk(k: Kernel, s: SemId)
    requires Inv(k) && Enabled(k, V(s))
    ensures WokenPlaced(Next(k, V(s)).status, Next(k, V(s)).sems) && SemsOk(Next(k, V(s)).sems)
  {
    hide Placed, WokenPlaced;
    if k.sems[s].queue == [] {
      SameWoken(k.status, k.sems, s, Next(k, V(s)).sems[s]);
    } else {
      QueueHeadBlocked(k, s);
      Woken(k.status, k.sems, s, Next(k, V(s)).sems[s], k.sems[s].queue[0]);
    }
  }

  lemma SameWoken(status: map<Tid, Status>, sems: map<SemId, Sem>, s: SemId, sem: Sem)
    requires WokenPlaced(status, sems) && s in sems && sem.woken == sems[s].woken
    ensures WokenPlaced(status, sems[s := sem])
  {
  }

  lemma Woken(status: map<Tid, Status>, sems: map<SemId, Sem>, s: SemId, sem: Sem, t: Tid)
    requires WokenPlaced(status, sems) && s in sems && t in status && status[t] == Blocked
    requires sem.woken == sems[s].woken + {t}
    ensures WokenPlaced(status[t := Ready], sems[s := sem])
    ensures t !in sems[s].woken
  {
    assert forall s' :: s' in sems ==> t !in sems[s'].woken;
  }

  lemma QueueHeadBlocked(k: Kernel, s: SemId)
    requires Inv(k) && s in k.sems && k.sems[s].queue != []
    ensures k.sems[s].queue[0] in k.status && k.status[k.sems[s].queue[0]] == Blocked
  {
    assert Queued(k.sems, k.sems[s].queue[0], s);
    assert Waiting(k.sems, k.sems[s].queue[0]);
  }

  /** The invariant holds at the start and is kept by every step. */
  lemma StepKeepsInv(k: Kernel, e: Event)
    requires Inv(k) && Enabled(k, e)
    ensures Inv(Next(k, e))
  {
    hide Inv, Next, Enabled;
    match e
    case P(s) => PKeeps(k, s);
    case V(s) => VKeeps(k, s);
    case _ => SchedulerStepKeeps(k, e);
  }

  lemma InitInv(k: Kernel)
    requires Init(k)
    ensures Inv(k)
  {
  }

  // ---- every run ----

  ghost predicate Run(states: seq<Kernel>, events: seq<Event>) {
    && |states| == |events| + 1
    && Init(states[0])
    && forall i :: 0 <= i < |events| ==> Enabled(states[i], events[i]) && states[i + 1] == Next(states[i], events[i])
  }

  lemma {:induction false} RunInv(states: seq<Kernel>, events: seq<Event>, n: nat)
    requires Run(states, events) && n < |states|
    ensures Inv(states[n])
  {
    hide Inv, Next, Enabled, Init;
    if n == 0 {
      InitInv(states[0]);
    } else {
      RunInv(states, events, n - 1);
      StepKeepsInv(states[n - 1], events[n - 1]);
    }
  }

  // ---- what the invariant says ----

  /** A live thread that is not on the processor is in exactly one of: the ready list, one semaphore queue, the way out. */
  lemma ExactlyOnePlace(k: Kernel, t: Tid)
    requires Inv(k) && t in k.status && t !in RunningThreads(k)
    ensures (t in k.ready && !Waiting(k.sems, t) && t !in DyingThreads(k) && k.status[t] == Ready)
         || (t !in k.ready && Waiting(k.sems, t) && t !in DyingThreads(k) && k.status[t] == Blocked)
         || (t !in k.ready && !Waiting(k.sems, t) && t in DyingThreads(k) && k.status[t] == Blocked)
    ensures forall s, s' :: Queued(k.sems, t, s) && Queued(k.sems, t, s') ==> s == s'
    ensures forall i, j :: 0 <= i < j < |k.ready| ==> k.ready[i] != k.ready[j]
  {
    assert k.status[t] != Running;
  }

  /** The assertions on the way of a step: nothing is put on a list it is on, and nothing is destroyed too early or too late. */
  ghost predicate Asserted(k: Kernel, e: Event)
    requires Enabled(k, e)
  {
    match e
    case Fork(t) => t !in k.ready
    case NewSemaphore(_, _) => true
    case P(s) => k.sems[s].value == 0 ==> k.current !in k.sems[s].queue
    case V(s) => k.sems[s].queue != [] ==> k.sems[s].queue[0] !in k.ready
    case Yield => k.current !in k.ready
    case Finish => k.toBeDestroyed == None
    case Resume => k.toBeDestroyed.Some? ==> k.toBeDestroyed.value != k.current
    case WakeFromIdle => k.mode.finishing ==> k.toBeDestroyed == None && k.ready[0] != k.current
  }

  lemma AssertionsHold(k: Kernel, e: Event)
    requires Inv(k) && Enabled(k, e)
    ensures Asserted(k, e)
  {
    hide SemsOk, WokenPlaced;
    assert !k.mode.Idling? ==> k.current in RunningThreads(k);
    assert k.mode == Idling(true) ==> k.current in DyingThreads(k);
    match e
    case P(s) =>
      assert !Waiting(k.sems, k.current);
      assert !Queued(k.sems, k.current, s);
    case V(s) =>
      if k.sems[s].queue != [] { QueueHeadBlocked(k, s); }
    case Resume =>
      assert k.toBeDestroyed.Some? ==> k.toBeDestroyed.value in DyingThreads(k);
    case _ =>
  }

  /** If a thread sleeps on a semaphore with units left, at least as many threads are on their way to take them. */
  lemma NoSleeperForgotten(k: Kernel, s: SemId)
    requires Inv(k) && s in k.sems && k.sems[s].queue != []
    ensures k.sems[s].value <= |k.sems[s].woken|
    ensures forall t :: t in k.sems[s].woken ==> t in k.ready || t == k.current
  {
    forall t | t in k.sems[s].woken ensures t in k.ready || t == k.current {
      assert t in k.status && k.status[t] != Blocked;
      assert k.status[t] == Running ==> t in RunningThreads(k);
    }
  }

  // ---- units, counted over the whole run ----

  /** Completed V operations on s among the first n steps. */
  function CountV(events: seq<Event>, s: SemId, n: nat): nat
    requires n <= |events|
  {
    if n == 0 then 0 else CountV(events, s, n - 1) + if events[n - 1] == V(s) then 1 else 0
  }

  /** Completed P operations on s among the first n steps: passes of the loop that found a unit. */
  function CountP(states: seq<Kernel>, events: seq<Event>, s: SemId, n: nat): nat
    requires n <= |events| < |states|
  {
    if n == 0 then 0
    else CountP(states, events, s, n - 1) +
         if events[n - 1] == P(s) && s in states[n - 1].sems && states[n - 1].sems[s].value > 0 then 1 else 0
  }

  /** The value s was made with, in the first n steps. */
  function GivenValue(events: seq<Event>, s: SemId, n: nat): Option<nat>
    requires n <= |events|
  {
    if n == 0 then None
    else if events[n - 1].NewSemaphore? && events[n - 1].s == s then Some(events[n - 1].initialValue)
    else GivenValue(events, s, n - 1)
  }

  /** In every state of every run: value + completed P == the value given + completed V. */
  lemma {:induction false} UnitsConserved(states: seq<Kernel>, events: seq<Event>, n: nat, s: SemId)
    requires Run(states, events) && n < |states|
    ensures s !in states[n].sems ==> CountP(states, events, s, n) == 0 && CountV(events, s, n) == 0
    ensures s in states[n].sems ==>
              && states[n].sems[s].value + CountP(states, events, s, n) == states[n].sems[s].initial + CountV(events, s, n)
              && GivenValue(events, s, n) == Some(states[n].sems[s].initial)
  {
    hide Next, Enabled;
    if n > 0 {
      UnitsConserved(states, events, n - 1, s);
      UnitsStep(states[n - 1], events[n - 1], s);
    }
  }

  /** One step moves the value of a semaphore by its completed V or P. */
  lemma UnitsStep(k: Kernel, e: Event, s: SemId)
    requires Enabled(k, e)
    ensures s in k.sems ==>
              && s in Next(k, e).sems && Next(k, e).sems[s].initial == k.sems[s].initial
              && Next(k, e).sems[s].value + (if e == P(s) && k.sems[s].value > 0 then 1 else 0) == k.sems[s].value + (if e == V(s) then 1 else 0)
              && !(e.NewSemaphore? && e.s == s)
    ensures s !in k.sems ==>
              && e != P(s) && e != V(s)
              && (s in Next(k, e).sems ==>
                    e.NewSemaphore? && e.s == s && Next(k, e).sems[s].value == Next(k, e).sems[s].initial == e.initialValue)
  {
  }

  // ---- first in, first out ----

  /** The step hands the processor to the head of the ready list. */
  predicate Dispatches(k: Kernel, e: Event) {
    match e
    case P(s) => s in k.sems && k.sems[s].value == 0 && k.ready != []
    case Yield => k.ready != []
    case Finish => k.ready != []
    case WakeFromIdle => true
    case _ => false
  }

  /** A step takes at most the head off the ready list, and adds at most at its end. */
  lemma ReadyListStep(k: Kernel, e: Event)
    requires Enabled(k, e)
    ensures Dispatches(k, e) ==> k.ready != [] && Next(k, e).current == k.ready[0] && k.ready[1..] <= Next(k, e).ready
    ensures !Dispatches(k, e) ==> k.ready <= Next(k, e).ready
  {
  }

  function CountDispatches(states: seq<Kernel>, events: seq<Event>, from: nat, n: nat): nat
    requires from <= n <= |events| < |states|
  {
    if n == from then 0
    else CountDispatches(states, events, from, n - 1) + if Dispatches(states[n - 1], events[n - 1]) then 1 else 0
  }

  /**
   A thread at position p of the ready list moves one place forward with each dispatch, and the
   (p+1)-th dispatch is its own.
   */
  lemma {:induction false} FirstInFirstOut(states: seq<Kernel>, events: seq<Event>, from: nat, n: nat, p: nat)
    requires Run(states, events) && from <= n < |events| && p < |states[from].ready|
    requires CountDispatches(states, events, from, n) <= p
    ensures var d := CountDispatches(states, events, from, n);
            && p - d < |states[n].ready| && states[n].ready[p - d] == states[from].ready[p]
            && (d == p && Dispatches(states[n], events[n]) ==> states[n + 1].current == states[from].ready[p])
  {
    hide Next, Enabled;
    if n > from {
      FirstInFirstOut(states, events, from, n - 1, p);
      ReadyListStep(states[n - 1], events[n - 1]);
    }
    ReadyListStep(states[n], events[n]);
  }

  /** A V readies the head of the queue, behind the threads already ready; other steps add at most at its end. */
  lemma QueueStep(k: Kernel, e: Event, s: SemId)
    requires Enabled(k, e) && s in k.sems
    ensures s in Next(k, e).sems
    ensures var queue, queue' := k.sems[s].queue, Next(k, e).sems[s].queue;
            if e == V(s) && queue != [] then queue' == queue[1..] && Next(k, e).ready == k.ready + [queue[0]] else queue <= queue'
  {
  }

  /**
   A thread at position p of a semaphore's queue moves one place forward with each V, and the
   (p+1)-th V makes it ready.
   */
  lemma {:induction false} WaitersInOrder(states: seq<Kernel>, events: seq<Event>, from: nat, n: nat, s: SemId, p: nat)
    requires Run(states, events) && from <= n < |events| && s in states[from].sems && p < |states[from].sems[s].queue|
    requires CountV(events, s, n) - CountV(events, s, from) <= p
    ensures s in states[n].sems && 0 <= CountV(events, s, n) - CountV(events, s, from)
    ensures var d, t := CountV(events, s, n) - CountV(events, s, from), states[from].sems[s].queue[p];
            && p - d < |states[n].sems[s].queue| && states[n].sems[s].queue[p - d] == t
            && (d == p && events[n] == V(s) ==> states[n + 1].ready == states[n].ready + [t])
  {
    hide Next, Enabled;
    if n > from {
      WaitersInOrder(states, events, from, n - 1, s, p);
      QueueStep(states[n - 1], events[n - 1], s);
    }
    QueueStep(states[n], events[n], s);
  }

  // ---- the code ----

  /** The scheduler's, threads' and semaphores' code, updating its fields as the source does. */
  class System {
    var currentThread: Tid
    var readyList: seq<Tid>
    var status: map<Tid, Status>
    var toBeDestroyed: Option<Tid>
    var mode: Mode
    var semaphores: map<SemId, Sem>

    ghost function View(): Kernel
      reads this
    {
      Kernel(currentThread, readyList, status, toBeDestroyed, mode, semaphores)
    }

    constructor (main: Tid)
      ensures Init(View()) && currentThread == main
    {
      currentThread, readyList, status := main, [], map[main := Running];
      toBeDestroyed, mode, semaphores := None, Executing, map[];
    }

    method MakeReady(t: Tid)
      requires t !in readyList
      modifies this
      ensures View() == ReadyToRun(old(View()), t)
    {
      status := status[t := Ready];
      readyList := readyList + [t];
    }

    method FindNextToRun() returns (next: Option<Tid>)
      modifies this
      ensures next == if old(readyList) == [] then None else Some(old(readyList)[0])
      ensures View() == if old(readyList) == [] then old(View()) else old(View()).(ready := old(readyList)[1..])
    {
      if readyList == [] {
        return None;
      }
      next := Some(readyList[0]);
      readyList := readyList[1..];
    }

    /** Scheduler::Run up to the switch. */
    method SwitchTo(next: Tid, finishing: bool)
      requires finishing ==> toBeDestroyed == None
      modifies this
      ensures View() == old(View()).(current := next, status := old(status)[next := Running], mode := Switched,
                toBeDestroyed := if finishing then Some(old(currentThread)) else old(toBeDestroyed))
    {
      if finishing {
        toBeDestroyed := Some(currentThread);
      }
      currentThread := next;
      status := status[next := Running];
      mode := Switched;
    }

    /** Thread::Sleep, up to the switch or to the first call of Idle. */
    method GoToSleep(finishing: bool)
      requires finishing ==> toBeDestroyed == None
      modifies this
      ensures View() == Sleep(old(View()), finishing)
    {
      status := status[currentThread := Blocked];
      var next := FindNextToRun();
      if next == None {
        mode := Idling(finishing);
      } else {
        SwitchTo(next.value, finishing);
      }
    }

    /** The idle loop of Sleep, once a handler has made a thread ready. */
    method LeaveIdle()
      requires Inv(View()) && Enabled(View(), WakeFromIdle)
      modifies this
      ensures View() == Next(old(View()), WakeFromIdle) && Inv(View())
    {
      hide Inv;
      StepKeepsInv(View(), WakeFromIdle);
      AssertionsHold(View(), WakeFromIdle);
      var finishing := mode.finishing;
      var next := FindNextToRun();
      SwitchTo(next.value, finishing);
    }

    /** CheckToBeDestroyed, after the switch. */
    method ResumeThread()
      requires Inv(View()) && Enabled(View(), Resume)
      modifies this
      ensures View() == Next(old(View()), Resume) && Inv(View())
    {
      hide Inv;
      StepKeepsInv(View(), Resume);
      AssertionsHold(View(), Resume);
      mode := Executing;
      if toBeDestroyed != None {
        assert toBeDestroyed.value != currentThread;
        status := status - {toBeDestroyed.value};
        toBeDestroyed := None;
      }
    }

    method YieldThread()
      requires Inv(View()) && Enabled(View(), Yield)
      modifies this
      ensures View() == Next(old(View()), Yield) && Inv(View())
    {
      hide Inv;
      StepKeepsInv(View(), Yield);
      AssertionsHold(View(), Yield);
      var next := FindNextToRun();
      if next != None {
        MakeReady(currentThread);
        SwitchTo(next.value, false);
      }
    }

    method FinishThread()
      requires Inv(View()) && Enabled(View(), Finish)
      modifies this
      ensures View() == Next(old(View()), Finish) && Inv(View())
    {
      hide Inv;
      StepKeepsInv(View(), Finish);
      AssertionsHold(View(), Finish);
      GoToSleep(true);
    }

    /** One pass of the loop in Semaphore::P. */
    method Wait(s: SemId)
      requires Inv(View()) && Enabled(View(), P(s))
      modifies this
      ensures View() == Next(old(View()), P(s)) && Inv(View())
    {
      hide Inv;
      StepKeepsInv(View(), P(s));
      AssertionsHold(View(), P(s));
      var sem := semaphores[s].(woken := semaphores[s].woken - {currentThread});
      if sem.value == 0 {
        assert currentThread !in sem.queue;
        semaphores := semaphores[s := sem.(queue := sem.queue + [currentThread])];
        GoToSleep(false);
      } else {
        semaphores := semaphores[s := sem.(value := sem.value - 1)];
      }
    }

    /** Semaphore::V. */
    method Signal(s: SemId)
      requires Inv(View()) && Enabled(View(), V(s))
      modifies this
      ensures View() == Next(old(View()), V(s)) && Inv(View())
    {
      hide Inv;
      StepKeepsInv(View(), V(s));
      AssertionsHold(View(), V(s));
      var sem := semaphores[s];
      if sem.queue != [] {
        MakeReady(sem.queue[0]);
        sem := sem.(queue := sem.queue[1..], woken := sem.woken + {sem.queue[0]});
      }
      semaphores := semaphores[s := sem.(value := sem.value + 1)];
    }
  }
}
