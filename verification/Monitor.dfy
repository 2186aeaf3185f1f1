/**
 Locks and condition variables of threads/synch.cc, built on semaphores, as one machine: a
 lock, a condition, and any number of threads that may be interrupted between any two
 statements.  A thread inside the monitor may signal, wait and leave as it likes, so
 Broadcast is a run of signals.
 */
module Monitors {
  import opened Semaphores

  type WaiterId = nat

  /** Where a thread is in Acquire, Release, Wait or Signal. */
  datatype Pc =
    | Outside
    | Acquiring                        // in P on the lock's semaphore
    | Acquired                         // P done, lockHolder not yet set
    | Inside                           // lockHolder set
    | Signalling(w: WaiterId)          // took w off waitQueue, V not yet done
    | Releasing                        // lockHolder cleared, V not yet done
    | Enqueued(w: WaiterId)            // in Wait: w is on waitQueue, Release not yet called
    | WaitReleasing(w: WaiterId)       // in Wait: lockHolder cleared, V not yet done
    | Waiting(w: WaiterId)             // in Wait: in P on w
    | Reacquiring(w: WaiterId)         // in Wait: in P on the lock's semaphore
    | Reacquired(w: WaiterId)          // in Wait: P done, lockHolder not yet set, w not yet deleted

  /** A semaphore allocated by Wait; thread only records who allocated it. */
  datatype Waiter = Waiter(sem: Sem, thread: Tid)

  /** owner only records the thread that has taken the lock's unit. */
  datatype Monitor = Monitor(
    lock: Sem,
    lockHolder: Option<Tid>,
    waitQueue: seq<WaiterId>,
    waiters: map<WaiterId, Waiter>,
    pc: map<Tid, Pc>,
    owner: Option<Tid>)

  datatype Action =
    | Enter            // call Acquire
    | LockP            // one pass of P on the lock
    | SetHolder
    | PopWaiter        // Signal, with the queue not empty
    | WaiterV
    | StartWait(w: WaiterId)
    | ClearHolder      // Release begins
    | LockV
    | WaiterP          // one pass of P on the thread's own waiter
    | EndWait          // set lockHolder, delete the waiter

  function At(m: Monitor, t: Tid): Pc { if t in m.pc then m.pc[t] else Outside }

  function Own(p: Pc): Option<WaiterId> {
    match p
    case Enqueued(w) => Some(w)
    case WaitReleasing(w) => Some(w)
    case Waiting(w) => Some(w)
    case Reacquiring(w) => Some(w)
    case Reacquired(w) => Some(w)
    case _ => None
  }

  /** Past the P of Acquire and before the V of Release. */
  predicate Critical(p: Pc) {
    p.Acquired? || p.Inside? || p.Signalling? || p.Releasing? || p.Enqueued? || p.WaitReleasing? || p.Reacquired?
  }

  predicate Holds(p: Pc) { p.Inside? || p.Signalling? || p.Enqueued? }

  predicate Asleep(m: Monitor, t: Tid) {
    match At(m, t)
    case Waiting(w) => w in m.waiters && t in m.waiters[w].sem.queue
    case _ => t in m.lock.queue
  }

  predicate Enabled(m: Monitor, t: Tid, a: Action) {
    && !Asleep(m, t)
    && var p := At(m, t);
       match a
       case Enter => p == Outside
       case LockP => p == Acquiring || p.Reacquiring?
       case SetHolder => p == Acquired
       case PopWaiter => p == Inside && m.waitQueue != []
       case WaiterV => p.Signalling? && p.w in m.waiters
       case StartWait(w) => p == Inside && w !in m.waiters
       case ClearHolder => p == Inside || p.Enqueued?
       case LockV => p == Releasing || p.WaitReleasing?
       case WaiterP => p.Waiting? && p.w in m.waiters
       case EndWait => p.Reacquired?
  }

  function Goto(m: Monitor, t: Tid, p: Pc): Monitor { m.(pc := m.pc[t := p]) }

  function Next(m: Monitor, t: Tid, a: Action): Monitor
    requires Enabled(m, t, a)
  {
    var p := At(m, t);
    match a
    case Enter => Goto(m, t, Acquiring)
    case LockP =>
      var m' := m.(lock := SemP(m.lock, t));
      if m.lock.value == 0 then m'
      else Goto(m', t, if p == Acquiring then Acquired else Reacquired(p.w)).(owner := Some(t))
    case SetHolder => Goto(m, t, Inside).(lockHolder := Some(t))
    case PopWaiter => Goto(m, t, Signalling(m.waitQueue[0])).(waitQueue := m.waitQueue[1..])
    case WaiterV => Goto(m, t, Inside).(waiters := m.waiters[p.w := m.waiters[p.w].(sem := SemV(m.waiters[p.w].sem))])
    case StartWait(w) =>
      Goto(m, t, Enqueued(w)).(waiters := m.waiters[w := Waiter(NewSem(0), t)], waitQueue := m.waitQueue + [w])
    case ClearHolder => Goto(m, t, if p == Inside then Releasing else WaitReleasing(p.w)).(lockHolder := None)
    case LockV => Goto(m, t, if p == Releasing then Outside else Waiting(p.w)).(lock := SemV(m.lock), owner := None)
    case WaiterP =>
      var m' := m.(waiters := m.waiters[p.w := m.waiters[p.w].(sem := SemP(m.waiters[p.w].sem, t))]);
      if m.waiters[p.w].sem.value == 0 then m' else Goto(m', t, Reacquiring(p.w))
    case EndWait => Goto(m, t, Inside).(lockHolder := Some(t), waiters := m.waiters - {p.w})
  }

  predicate Init(m: Monitor) {
    m.lock == NewSem(1) && m.lockHolder == None && m.waitQueue == [] && m.waiters == map[] && m.pc == map[] && m.owner == None
  }

  // ---- the invariant ----

  /** Mutual exclusion: the lock's unit is free, or exactly one thread is past P and before V. */
  ghost predicate Exclusive(m: Monitor) {
    && m.lock.value == (if m.owner == None then 1 else 0)
    && (forall t: Tid :: ThreadOk(m, t))
  }

  predicate ThreadOk(m: Monitor, t: Tid) {
    && (Critical(At(m, t)) <==> m.owner == Some(t))
    && (Holds(At(m, t)) <==> m.lockHolder == Some(t))
    && (t in m.lock.queue ==> At(m, t).Acquiring? || At(m, t).Reacquiring?)
  }

  /** Some Signal has taken w off the queue and not yet done its V. */
  predicate BeingSignalled(m: Monitor, w: WaiterId) { m.owner.Some? && At(m, m.owner.value) == Signalling(w) }

  /** What the waiter's semaphore must be, from where its thread is and whether it was signalled. */
  predicate WaiterOk(w: WaiterId, sem: Sem, t: Tid, p: Pc, queued: bool, signalling: bool) {
    && Own(p) == Some(w)
    && (sem.queue == [] || sem.queue == [t])
    && (queued ==> !signalling)
    && (p.Enqueued? || p.WaitReleasing? ==> queued && sem.value == 0 && sem.queue == [])
    && (p.Waiting? ==> if queued || signalling then sem.value == 0 else sem.value == 1 && sem.queue == [])
    && (p.Reacquiring? || p.Reacquired? ==> !queued && !signalling && sem.value == 0 && sem.queue == [])
  }

  predicate WaiterFine(m: Monitor, w: WaiterId)
    requires w in m.waiters
  {
    var Waiter(sem, t) := m.waiters[w];
    WaiterOk(w, sem, t, At(m, t), w in m.waitQueue, BeingSignalled(m, w))
  }

  ghost predicate WaitersOk(m: Monitor) {
    && (forall w: WaiterId :: w in m.waiters ==> WaiterFine(m, w))
    && (forall t: Tid :: OwnOk(m, t))
    && (forall i, j :: 0 <= i < j < |m.waitQueue| ==> m.waitQueue[i] != m.waitQueue[j])
    && (forall w: WaiterId :: w in m.waitQueue ==> w in m.waiters)
    && (forall w: WaiterId :: BeingSignalled(m, w) ==> w in m.waiters)
  }

  predicate OwnOk(m: Monitor, t: Tid) {
    Own(At(m, t)).Some? ==> Own(At(m, t)).value in m.waiters && m.waiters[Own(At(m, t)).value].thread == t
  }

  ghost predicate Inv(m: Monitor) { Exclusive(m) && WaitersOk(m) }

  lemma InitInv(m: Monitor)
    requires Init(m)
    ensures Inv(m)
  {
  }

  lemma OthersUnmoved(m: Monitor, t: Tid, a: Action, u: Tid)
    requires Enabled(m, t, a) && u != t
    ensures At(Next(m, t, a), u) == At(m, u)
  {
    hide SemP, SemV;
  }

  lemma ExclusiveKept(m: Monitor, t: Tid, a: Action)
    requires Inv(m) && Enabled(m, t, a)
    ensures Exclusive(Next(m, t, a))
  {
    hide WaitersOk;
    var m' := Next(m, t, a);
    assert ThreadOk(m, t);
    forall u: Tid
      ensures ThreadOk(m', u)
    {
      assert ThreadOk(m, u);
      if u != t {
        OthersUnmoved(m, t, a, u);
      }
    }
  }

  /** The waiter a step is about: the one it takes off the queue, raises or allocates, or the thread's own. */
  function Subject(m: Monitor, t: Tid, a: Action): Option<WaiterId>
    requires Enabled(m, t, a)
  {
    match a
    case PopWaiter => Some(m.waitQueue[0])
    case WaiterV => Some(At(m, t).w)
    case StartWait(w) => Some(w)
    case _ => Own(At(m, t))
  }

  lemma SignalledNext(m: Monitor, t: Tid, a: Action, w: WaiterId)
    requires Exclusive(m) && Enabled(m, t, a)
    ensures BeingSignalled(Next(m, t, a), w) ==
            if a.PopWaiter? then w == m.waitQueue[0] else !a.WaiterV? && BeingSignalled(m, w)
  {
    hide SemP, SemV;
    assert ThreadOk(m, t);
    if m.owner.Some? && m.owner.value != t {
      OthersUnmoved(m, t, a, m.owner.value);
    }
  }

  /** A waiter the step is not about is left as it was. */
  lemma WaiterFramed(m: Monitor, t: Tid, a: Action, w: WaiterId)
    requires Inv(m) && Enabled(m, t, a) && w in Next(m, t, a).waiters && Subject(m, t, a) != Some(w)
    ensures WaiterFine(Next(m, t, a), w)
  {
    hide Exclusive, SemP, SemV;
    SignalledNext(m, t, a, w);
    ThreadFact(m, t);
    assert WaiterFine(m, w) && OwnOk(m, t);
    if m.waiters[w].thread != t {
      OthersUnmoved(m, t, a, m.waiters[w].thread);
    }
    if a.WaiterV? {
      OneSignalled(m, t, w);
    }
  }

  lemma ThreadFact(m: Monitor, t: Tid)
    requires Exclusive(m)
    ensures ThreadOk(m, t)
  {
  }

  lemma OneSignalled(m: Monitor, t: Tid, w: WaiterId)
    requires Exclusive(m) && At(m, t).Signalling?
    ensures BeingSignalled(m, w) <==> At(m, t).w == w
  {
    assert ThreadOk(m, t);
  }

  /** The waiter it is about ends as its thread's place says; first for the two semaphore operations. */
  lemma RaisedKept(m: Monitor, t: Tid)
    requires Inv(m) && Enabled(m, t, WaiterV)
    ensures WaiterFine(Next(m, t, WaiterV), At(m, t).w)
  {
    hide Exclusive;
    var w := At(m, t).w;
    SignalledNext(m, t, WaiterV, w);
    OneSignalled(m, t, w);
    assert WaiterFine(m, w);
    if m.waiters[w].thread != t {
      OthersUnmoved(m, t, WaiterV, m.waiters[w].thread);
    }
  }

  lemma LoweredKept(m: Monitor, t: Tid)
    requires Inv(m) && Enabled(m, t, WaiterP)
    ensures WaiterFine(Next(m, t, WaiterP), At(m, t).w)
  {
    hide Exclusive;
    var w := At(m, t).w;
    SignalledNext(m, t, WaiterP, w);
    assert OwnOk(m, t) && WaiterFine(m, w);
    assert m.waiters[w].sem.queue == [] && m.waiters[w].sem.queue + [t] == [t];
  }

  lemma SubjectKept(m: Monitor, t: Tid, a: Action, w: WaiterId)
    requires Inv(m) && Enabled(m, t, a) && Subject(m, t, a) == Some(w) && w in Next(m, t, a).waiters
    ensures WaiterFine(Next(m, t, a), w)
  {
    hide Exclusive, SemP, SemV;
    if a.WaiterV? {
      RaisedKept(m, t);
    } else if a.WaiterP? {
      LoweredKept(m, t);
    } else {
      SignalledNext(m, t, a, w);
      assert OwnOk(m, t);
      if w !in m.waiters {
        assert !BeingSignalled(m, w) && w !in m.waitQueue;
      } else {
        assert WaiterFine(m, w);
        if m.waiters[w].thread != t {
          ThreadFact(m, t);
          ThreadFact(m, m.waiters[w].thread);
          OthersUnmoved(m, t, a, m.waiters[w].thread);
        }
        if a.PopWaiter? {
          assert w !in m.waitQueue[1..];
        }
      }
    }
  }

  lemma OwnKept(m: Monitor, t: Tid, a: Action, u: Tid)
    requires Inv(m) && Enabled(m, t, a)
    ensures OwnOk(Next(m, t, a), u)
  {
    hide Exclusive, SemP, SemV;
    assert OwnOk(m, t) && OwnOk(m, u);
    if u != t {
      OthersUnmoved(m, t, a, u);
    }
  }

  lemma QueueKept(m: Monitor, t: Tid, a: Action)
    requires Inv(m) && Enabled(m, t, a)
    ensures var m' := Next(m, t, a);
            && (forall i, j :: 0 <= i < j < |m'.waitQueue| ==> m'.waitQueue[i] != m'.waitQueue[j])
            && (forall w: WaiterId :: w in m'.waitQueue ==> w in m'.waiters)
  {
    hide SemP, SemV, Exclusive;
    if a.EndWait? {
      assert OwnOk(m, t);
      assert WaiterFine(m, At(m, t).w);
    }
  }

  lemma WaitersKept(m: Monitor, t: Tid, a: Action)
    requires Inv(m) && Enabled(m, t, a)
    ensures WaitersOk(Next(m, t, a))
  {
    hide Next, WaiterFine, OwnOk, Exclusive;
    var m' := Next(m, t, a);
    forall w: WaiterId | w in m'.waiters
      ensures WaiterFine(m', w)
    {
      if Subject(m, t, a) == Some(w) {
        SubjectKept(m, t, a, w);
      } else {
        WaiterFramed(m, t, a, w);
      }
    }
    forall u: Tid
      ensures OwnOk(m', u)
    {
      OwnKept(m, t, a, u);
    }
    QueueKept(m, t, a);
    forall w: WaiterId | BeingSignalled(m', w)
      ensures w in m'.waiters
    {
      SignalledNext(m, t, a, w);
      SignalledStays(m, t, a, w);
    }
  }

  lemma SignalledStays(m: Monitor, t: Tid, a: Action, w: WaiterId)
    requires Inv(m) && Enabled(m, t, a)
    requires if a.PopWaiter? then w == m.waitQueue[0] else !a.WaiterV? && BeingSignalled(m, w)
    ensures w in Next(m, t, a).waiters
  {
    hide Exclusive, SemP, SemV;
    assert w in m.waiters;
    if a.EndWait? {
      assert OwnOk(m, t) && WaiterFine(m, At(m, t).w);
    }
  }

  lemma StepKeepsInv(m: Monitor, t: Tid, a: Action)
    requires Inv(m) && Enabled(m, t, a)
    ensures Inv(Next(m, t, a))
  {
    hide Exclusive, WaitersOk, Next, Enabled;
    ExclusiveKept(m, t, a);
    WaitersKept(m, t, a);
  }

  // ---- what the invariant says of any state ----

  ghost function CriticalThreads(m: Monitor): set<Tid> { set t | t in m.pc && Critical(m.pc[t]) }

  /** One unit, held by the lock or by the one thread between Acquire's P and Release's V. */
  lemma MutualExclusion(m: Monitor)
    requires Inv(m)
    ensures m.lock.value + |CriticalThreads(m)| == 1
    ensures m.lockHolder.Some? ==> CriticalThreads(m) == {m.lockHolder.value}
  {
    hide WaitersOk;
    forall t
      ensures t in CriticalThreads(m) <==> m.owner == Some(t)
      ensures m.lockHolder == Some(t) ==> m.owner == Some(t)
    {
      assert ThreadOk(m, t);
    }
    match m.owner
    case None => assert CriticalThreads(m) == {};
    case Some(t) => assert CriticalThreads(m) == {t};
  }

  /** Every held-by-current-thread check in Release, Wait and Signal passes. */
  lemma AssertionsHold(m: Monitor, t: Tid, a: Action)
    requires Inv(m) && Enabled(m, t, a)
    requires a.ClearHolder? || a.StartWait? || a.PopWaiter?
    ensures m.lockHolder == Some(t)
  {
    hide WaitersOk;
    assert ThreadOk(m, t);
  }

  /**
   A signalled waiter has its wakeup: once the V is done its thread is not asleep, and its next
   pass of P on its own semaphore succeeds, wherever between Release and P the signal landed.
   */
  lemma SignalNotLost(m: Monitor, t: Tid, w: WaiterId)
    requires Inv(m) && At(m, t) == Waiting(w)
    requires w !in m.waitQueue && !BeingSignalled(m, w)
    ensures Enabled(m, t, WaiterP) && At(Next(m, t, WaiterP), t) == Reacquiring(w)
  {
    hide Exclusive;
    assert OwnOk(m, t);
    assert WaiterFine(m, w);
  }

  /** A waiter not signalled cannot get past its P. */
  lemma UnsignalledWaits(m: Monitor, t: Tid, w: WaiterId)
    requires Inv(m) && At(m, t) == Waiting(w)
    requires w in m.waitQueue || BeingSignalled(m, w)
    requires Enabled(m, t, WaiterP)
    ensures At(Next(m, t, WaiterP), t) == Waiting(w) && Asleep(Next(m, t, WaiterP), t)
  {
    hide Exclusive;
    assert OwnOk(m, t);
    assert WaiterFine(m, w);
  }

  /** The semaphore Wait deletes is off the queue, unused by any Signal, and asleep on by nobody. */
  lemma FreedWaiterIsUnused(m: Monitor, t: Tid)
    requires Inv(m) && Enabled(m, t, EndWait)
    ensures var w := At(m, t).w;
            w !in m.waitQueue && !BeingSignalled(m, w) && w in m.waiters && m.waiters[w].sem.queue == []
  {
    hide Exclusive;
    assert OwnOk(m, t);
    assert WaiterFine(m, At(m, t).w);
  }

  /** The semaphore a Signal raises still exists, and its thread is waiting for it. */
  lemma SignalledWaiterIsAlive(m: Monitor, t: Tid)
    requires Inv(m) && At(m, t).Signalling?
    ensures var w := At(m, t).w;
            w in m.waiters && At(m, m.waiters[w].thread) == Waiting(w) && m.waiters[w].sem.value == 0
  {
    assert ThreadOk(m, t);
    assert BeingSignalled(m, At(m, t).w);
    assert WaiterFine(m, At(m, t).w);
  }

  // ---- the lock forgets no sleeper ----

  /** Each unit of the lock that is free while threads sleep has a woken thread on its way to it. */
  ghost predicate Sleepers(m: Monitor) {
    && (forall i, j :: 0 <= i < j < |m.lock.queue| ==> m.lock.queue[i] != m.lock.queue[j])
    && (forall t: Tid :: t in m.lock.woken ==> t !in m.lock.queue && (At(m, t).Acquiring? || At(m, t).Reacquiring?))
    && (m.lock.queue != [] ==> m.lock.value <= |m.lock.woken|)
  }

  lemma SleepersKept(m: Monitor, t: Tid, a: Action)
    requires Exclusive(m) && Sleepers(m) && Enabled(m, t, a)
    ensures Sleepers(Next(m, t, a))
  {
    var m' := Next(m, t, a);
    ThreadFact(m, t);
    if a.LockV? && m.lock.queue != [] {
      ThreadFact(m, m.lock.queue[0]);
      assert m.lock.queue[0] in m'.lock.woken;
    }
    forall u: Tid | u in m'.lock.woken
      ensures u !in m'.lock.queue && (At(m', u).Acquiring? || At(m', u).Reacquiring?)
    {
      WokenKept(m, t, a, u);
    }
  }

  lemma WokenKept(m: Monitor, t: Tid, a: Action, u: Tid)
    requires Exclusive(m) && Sleepers(m) && Enabled(m, t, a) && u in Next(m, t, a).lock.woken
    ensures u !in Next(m, t, a).lock.queue && (At(Next(m, t, a), u).Acquiring? || At(Next(m, t, a), u).Reacquiring?)
  {
    ThreadFact(m, u);
    if u != t {
      OthersUnmoved(m, t, a, u);
    }
  }

  // ---- Broadcast ----

  lemma InsideCanSignal(m: Monitor, t: Tid)
    requires Inv(m) && At(m, t) == Inside && m.waitQueue != []
    ensures Enabled(m, t, PopWaiter)
    ensures var m1 := Next(m, t, PopWaiter);
            && Enabled(m1, t, WaiterV) && Inv(Next(m1, t, WaiterV)) && At(Next(m1, t, WaiterV), t) == Inside
            && Next(m1, t, WaiterV).waitQueue == m.waitQueue[1..]
  {
    ThreadFact(m, t);
    StepKeepsInv(m, t, PopWaiter);
    var m1 := Next(m, t, PopWaiter);
    SignalledWaiterIsAlive(m1, t);
    StepKeepsInv(m1, t, WaiterV);
  }

  /** Signal until the queue is empty; the caller holds the lock throughout. */
  ghost function Broadcast(m: Monitor, t: Tid): Monitor
    requires Inv(m) && At(m, t) == Inside
    decreases |m.waitQueue|
  {
    if m.waitQueue == [] then m
    else
      InsideCanSignal(m, t);
      Broadcast(Next(Next(m, t, PopWaiter), t, WaiterV), t)
  }

  /** After Broadcast nobody is queued, and every thread in Wait's P gets past it at its next pass. */
  lemma {:induction false} BroadcastWakesAll(m: Monitor, t: Tid)
    requires Inv(m) && At(m, t) == Inside
    ensures var m' := Broadcast(m, t);
            && Inv(m') && At(m', t) == Inside && m'.waitQueue == []
            && forall u :: At(m', u).Waiting? ==> Enabled(m', u, WaiterP) && At(Next(m', u, WaiterP), u) == Reacquiring(At(m', u).w)
    decreases |m.waitQueue|
  {
    hide Exclusive, WaitersOk, Next, Enabled;
    if m.waitQueue == [] {
      forall u | At(m, u).Waiting?
        ensures Enabled(m, u, WaiterP) && At(Next(m, u, WaiterP), u) == Reacquiring(At(m, u).w)
      {
        NobodySignalled(m, t, At(m, u).w);
        SignalNotLost(m, u, At(m, u).w);
      }
    } else {
      InsideCanSignal(m, t);
      BroadcastWakesAll(Next(Next(m, t, PopWaiter), t, WaiterV), t);
    }
  }

  lemma NobodySignalled(m: Monitor, t: Tid, w: WaiterId)
    requires Inv(m) && At(m, t) == Inside
    ensures !BeingSignalled(m, w)
  {
    hide WaitersOk;
    assert ThreadOk(m, t);
  }

  /** What other threads do while t holds the lock leaves the queue, and t, alone. */
  lemma OthersLeaveQueue(m: Monitor, t: Tid, u: Tid, a: Action)
    requires Inv(m) && Critical(At(m, t)) && u != t && Enabled(m, u, a)
    ensures Next(m, u, a).waitQueue == m.waitQueue && At(Next(m, u, a), t) == At(m, t)
  {
    hide WaitersOk;
    assert ThreadOk(m, t) && ThreadOk(m, u);
  }

  // ---- runs ----

  datatype Step = Step(thread: Tid, action: Action)

  ghost predicate Run(states: seq<Monitor>, steps: seq<Step>) {
    && |states| == |steps| + 1
    && Init(states[0])
    && forall i :: 0 <= i < |steps| ==> StepOk(states[i], steps[i], states[i + 1])
  }

  ghost predicate StepOk(m: Monitor, step: Step, m': Monitor) {
    Enabled(m, step.thread, step.action) && m' == Next(m, step.thread, step.action)
  }

  lemma {:induction false} RunInv(states: seq<Monitor>, steps: seq<Step>, n: nat)
    requires Run(states, steps) && n < |states|
    ensures Inv(states[n])
  {
    hide Inv, Next, Enabled;
    if n == 0 {
      InitInv(states[0]);
    } else {
      RunInv(states, steps, n - 1);
      assert StepOk(states[n - 1], steps[n - 1], states[n - 1 + 1]);
      StepKeepsInv(states[n - 1], steps[n - 1].thread, steps[n - 1].action);
    }
  }

  lemma QueueStep(m: Monitor, step: Step, m': Monitor)
    requires StepOk(m, step, m')
    ensures match step.action
            case PopWaiter => m.waitQueue != [] && m'.waitQueue == m.waitQueue[1..]
            case StartWait(w) => m'.waitQueue == m.waitQueue + [w]
            case _ => m'.waitQueue == m.waitQueue
  {
  }

  lemma {:induction false} RunSleepers(states: seq<Monitor>, steps: seq<Step>, n: nat)
    requires Run(states, steps) && n < |states|
    ensures Sleepers(states[n])
  {
    hide Exclusive, WaitersOk, Next, Enabled;
    if n > 0 {
      RunSleepers(states, steps, n - 1);
      RunInv(states, steps, n - 1);
      assert StepOk(states[n - 1], steps[n - 1], states[n - 1 + 1]);
      SleepersKept(states[n - 1], steps[n - 1].thread, steps[n - 1].action);
    }
  }

  /** In every run, if the lock is free while threads sleep on it, a woken thread is awake and about to take it. */
  lemma LockForgetsNoSleeper(states: seq<Monitor>, steps: seq<Step>, n: nat)
    requires Run(states, steps) && n < |states| && states[n].lock.value > 0 && states[n].lock.queue != []
    ensures exists t :: t in states[n].lock.woken
    ensures forall t :: t in states[n].lock.woken ==>
              Enabled(states[n], t, LockP) && Critical(At(Next(states[n], t, LockP), t))
  {
    hide StepOk, Exclusive, WaitersOk;
    RunSleepers(states, steps, n);
    var t :| t in states[n].lock.woken;
  }

  predicate Pops(m: Monitor, step: Step, w: WaiterId) { step.action.PopWaiter? && m.waitQueue != [] && m.waitQueue[0] == w }

  lemma {:induction false} StaysQueued(states: seq<Monitor>, steps: seq<Step>, i: nat, j: nat, w: WaiterId)
    requires Run(states, steps) && i <= j < |states|
    requires w in states[i].waitQueue
    requires forall k :: i <= k < j ==> !Pops(states[k], steps[k], w)
    ensures w in states[j].waitQueue
    decreases j - i
  {
    hide StepOk;
    if i < j {
      var m := states[i];
      QueueStep(m, steps[i], states[i + 1]);
      assert !Pops(m, steps[i], w);
      assert w in states[i + 1].waitQueue;
      StaysQueued(states, steps, i + 1, j, w);
    }
  }

  /** Between the start of a Wait and the end of it, some Signal popped that Wait's own semaphore. */
  lemma WaitEndsAfterOwnSignal(states: seq<Monitor>, steps: seq<Step>, i: nat, j: nat, w: WaiterId)
    requires Run(states, steps) && i < j < |steps|
    requires steps[i].action == StartWait(w)
    requires steps[j].action == EndWait && At(states[j], steps[j].thread) == Reacquired(w)
    ensures exists k :: i < k < j && Pops(states[k], steps[k], w)
  {
    assert StepOk(states[i], steps[i], states[i + 1]);
    assert w in states[i + 1].waitQueue;
    RunInv(states, steps, j);
    assert StepOk(states[j], steps[j], states[j + 1]);
    FreedWaiterIsUnused(states[j], steps[j].thread);
    if forall k :: i + 1 <= k < j ==> !Pops(states[k], steps[k], w) {
      StaysQueued(states, steps, i + 1, j, w);
      assert false;
    }
  }

  /** Waiters in the order their Waits began, and in the order Signals took them, up to step n. */
  ghost function Arrivals(steps: seq<Step>, n: nat): seq<WaiterId>
    requires n <= |steps|
  {
    if n == 0 then []
    else if steps[n - 1].action.StartWait? then Arrivals(steps, n - 1) + [steps[n - 1].action.w]
    else Arrivals(steps, n - 1)
  }

  ghost function Departures(states: seq<Monitor>, steps: seq<Step>, n: nat): seq<WaiterId>
    requires n <= |steps| < |states|
  {
    if n == 0 then []
    else if steps[n - 1].action.PopWaiter? && states[n - 1].waitQueue != []
    then Departures(states, steps, n - 1) + [states[n - 1].waitQueue[0]]
    else Departures(states, steps, n - 1)
  }

  /** Waiters are signalled first come, first served. */
  lemma {:induction false} SignalledInOrder(states: seq<Monitor>, steps: seq<Step>, n: nat)
    requires Run(states, steps) && n < |states|
    ensures Arrivals(steps, n) == Departures(states, steps, n) + states[n].waitQueue
  {
    hide StepOk;
    if n > 0 {
      SignalledInOrder(states, steps, n - 1);
      var m := states[n - 1];
      QueueStep(m, steps[n - 1], states[n - 1 + 1]);
      if steps[n - 1].action.PopWaiter? {
        assert m.waitQueue == [m.waitQueue[0]] + m.waitQueue[1..];
      }
    }
  }
}
