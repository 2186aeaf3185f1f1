/**
 The protocol by which threads share a device that finishes each request with an interrupt:
 take a lock, issue the request, wait on a semaphore the interrupt handler raises, release the
 lock.  filesys/synchdisk.cc uses it for the disk and network/post.cc for sending packets.
 The device is any function from its state and a request to a new state and a reply.
 */
module DeviceDrivers {
  import opened Semaphores
  import M = Monitors
  import S = Storage

  type Device<!D, !Q, !A> = (D, Q) -> (D, A)

  /** How far a thread is in its call; index numbers the requests in the order they were issued. */
  datatype Call<Q, A> =
    | Idle
    | Asking(request: Q)
    | Pending(index: nat, reply: A)     // issued, in P on the completion semaphore
    | Finished(index: nat, reply: A)    // past that P

  datatype Issued<Q> = Issued(thread: Tid, request: Q)

  /** issued, completed and returned record history. */
  datatype Driver<D, Q, A> = Driver(
    monitor: M.Monitor,
    completion: Sem,
    active: bool,
    device: D,
    call: map<Tid, Call<Q, A>>,
    issued: seq<Issued<Q>>,
    completed: nat,
    returned: map<nat, A>)

  datatype Action<Q> =
    | Start(request: Q)       // call ReadSector, WriteSector or Send
    | Request                 // hand the request to the device
    | Await                   // one pass of P on the completion semaphore
    | Lock(a: M.Action)       // a step of Acquire or Release
    | Interrupt               // the device finishes; no thread acts

  function Doing<D, Q, A>(d: Driver<D, Q, A>, t: Tid): Call<Q, A> { if t in d.call then d.call[t] else Idle }

  predicate IsInside<D, Q, A>(d: Driver<D, Q, A>, t: Tid) {
    M.At(d.monitor, t) == M.Inside && !M.Asleep(d.monitor, t) && t !in d.completion.queue
  }

  predicate Enabled<D, Q, A>(d: Driver<D, Q, A>, t: Tid, a: Action<Q>) {
    match a
    case Start(_) => M.Enabled(d.monitor, t, M.Enter)
    case Request => IsInside(d, t) && Doing(d, t).Asking?
    case Await => IsInside(d, t) && Doing(d, t).Pending?
    case Lock(b) =>
      && (b.LockP? || b.SetHolder? || b.ClearHolder? || b.LockV?)
      && M.Enabled(d.monitor, t, b)
      && (b.ClearHolder? ==> Doing(d, t).Finished?)
    case Interrupt => d.active
  }

  function Next<D, Q, A>(dev: Device<D, Q, A>, d: Driver<D, Q, A>, t: Tid, a: Action<Q>): Driver<D, Q, A>
    requires Enabled(d, t, a)
  {
    match a
    case Start(q) => d.(monitor := M.Next(d.monitor, t, M.Enter), call := d.call[t := Asking(q)])
    case Request =>
      var q := Doing(d, t).request;
      var (device, reply) := dev(d.device, q);
      d.(device := device, active := true, issued := d.issued + [Issued(t, q)],
         call := d.call[t := Pending(|d.issued|, reply)])
    case Await =>
      var d' := d.(completion := SemP(d.completion, t));
      if d.completion.value == 0 then d'
      else d'.(call := d.call[t := Finished(Doing(d, t).index, Doing(d, t).reply)])
    case Lock(b) =>
      var d' := d.(monitor := M.Next(d.monitor, t, b));
      if b.LockV? && Doing(d, t).Finished?
      then d'.(call := d.call[t := Idle], returned := d.returned[Doing(d, t).index := Doing(d, t).reply])
      else d'
    case Interrupt => d.(active := false, completed := d.completed + 1, completion := SemV(d.completion))
  }

  predicate Init<D(==), Q(==), A(==)>(d: Driver<D, Q, A>, start: D) {
    && M.Init(d.monitor) && d.completion == NewSem(0) && !d.active && d.device == start
    && d.call == map[] && d.issued == [] && d.completed == 0 && d.returned == map[]
  }

  // ---- what the device does with the requests, in the order they were issued ----

  function Replay<D, Q, A>(dev: Device<D, Q, A>, start: D, issued: seq<Issued<Q>>, n: nat): D
    requires n <= |issued|
  {
    if n == 0 then start else dev(Replay(dev, start, issued, n - 1), issued[n - 1].request).0
  }

  function ReplyTo<D, Q, A>(dev: Device<D, Q, A>, start: D, issued: seq<Issued<Q>>, i: nat): A
    requires i < |issued|
  {
    dev(Replay(dev, start, issued, i), issued[i].request).1
  }

  lemma {:induction false} ReplayPrefix<D, Q, A>(dev: Device<D, Q, A>, start: D, issued: seq<Issued<Q>>, more: seq<Issued<Q>>, n: nat)
    requires n <= |issued|
    ensures Replay(dev, start, issued + more, n) == Replay(dev, start, issued, n)
  {
    if n > 0 {
      ReplayPrefix(dev, start, issued, more, n - 1);
    }
  }

  // ---- the invariant ----

  predicate Consistent<Q, A>(p: M.Pc, call: Call<Q, A>) {
    match p
    case Outside => call.Idle?
    case Acquiring => call.Asking?
    case Acquired => call.Asking?
    case Inside => !call.Idle?
    case Releasing => call.Finished?
    case _ => false
  }

  ghost predicate Calls<D, Q, A>(d: Driver<D, Q, A>) { forall t: Tid :: Consistent(M.At(d.monitor, t), Doing(d, t)) }

  predicate OwnerPending<D, Q, A>(d: Driver<D, Q, A>) { d.monitor.owner.Some? && Doing(d, d.monitor.owner.value).Pending? }

  /** The device is busy, or its completion is waiting to be seen, exactly while the owner waits for it. */
  predicate Completion<D, Q, A>(d: Driver<D, Q, A>) {
    && (if d.active then 1 else 0) + d.completion.value == (if OwnerPending(d) then 1 else 0)
    && |d.issued| == d.completed + (if d.active then 1 else 0)
    && (d.completion.queue == [] || (d.active && d.completion.queue == [d.monitor.owner.value]))
  }

  /** A call past Request holds the reply to the request it issued; past its P, that request is complete. */
  predicate CallOk<D, Q, A(==)>(dev: Device<D, Q, A>, start: D, d: Driver<D, Q, A>, t: Tid, call: Call<Q, A>) {
    call.Pending? || call.Finished? ==>
      && call.index < |d.issued|
      && d.issued[call.index].thread == t
      && call.reply == ReplyTo(dev, start, d.issued, call.index)
      && (call.Pending? ==> call.index == |d.issued| - 1)
      && (call.Finished? ==> call.index < d.completed)
  }

  ghost predicate Replies<D, Q, A>(dev: Device<D, Q, A>, start: D, d: Driver<D, Q, A>) {
    && d.device == Replay(dev, start, d.issued, |d.issued|)
    && (forall t: Tid :: CallOk(dev, start, d, t, Doing(d, t)))
    && (forall i :: i in d.returned ==> i < |d.issued| && i < d.completed && d.returned[i] == ReplyTo(dev, start, d.issued, i))
  }

  ghost predicate Inv<D, Q, A>(dev: Device<D, Q, A>, start: D, d: Driver<D, Q, A>) {
    M.Inv(d.monitor) && Calls(d) && Completion(d) && Replies(dev, start, d)
  }

  lemma InitInv<D, Q, A>(dev: Device<D, Q, A>, start: D, d: Driver<D, Q, A>)
    requires Init(d, start)
    ensures Inv(dev, start, d)
  {
    M.InitInv(d.monitor);
  }

  lemma MonitorKept<D, Q, A>(dev: Device<D, Q, A>, d: Driver<D, Q, A>, t: Tid, a: Action<Q>)
    requires M.Inv(d.monitor) && Enabled(d, t, a)
    ensures M.Inv(Next(dev, d, t, a).monitor)
  {
    hide M.Inv, M.Next, M.Enabled;
    match a
    case Start(_) => M.StepKeepsInv(d.monitor, t, M.Enter);
    case Lock(b) => M.StepKeepsInv(d.monitor, t, b);
    case _ =>
  }

  lemma OthersUnmoved<D, Q, A>(dev: Device<D, Q, A>, d: Driver<D, Q, A>, t: Tid, a: Action<Q>, u: Tid)
    requires Enabled(d, t, a) && (u != t || a.Interrupt?)
    ensures M.At(Next(dev, d, t, a).monitor, u) == M.At(d.monitor, u) && Doing(Next(dev, d, t, a), u) == Doing(d, u)
  {
    hide M.Next, M.Enabled, M.At;
    match a
    case Start(_) => M.OthersUnmoved(d.monitor, t, M.Enter, u);
    case Lock(b) => M.OthersUnmoved(d.monitor, t, b, u);
    case _ =>
  }

  lemma CallsKept<D, Q, A>(dev: Device<D, Q, A>, d: Driver<D, Q, A>, t: Tid, a: Action<Q>)
    requires Calls(d) && Enabled(d, t, a)
    ensures Calls(Next(dev, d, t, a))
  {
    var d' := Next(dev, d, t, a);
    forall u: Tid
      ensures Consistent(M.At(d'.monitor, u), Doing(d', u))
    {
      assert Consistent(M.At(d.monitor, u), Doing(d, u));
      if u != t || a.Interrupt? {
        OthersUnmoved(dev, d, t, a, u);
      }
    }
  }

  lemma InsideIsOwner<D, Q, A>(d: Driver<D, Q, A>, t: Tid)
    requires M.Inv(d.monitor) && Calls(d)
    ensures M.At(d.monitor, t) == M.Inside ==> d.monitor.owner == Some(t)
    ensures Doing(d, t).Pending? ==> d.monitor.owner == Some(t)
    ensures d.monitor.owner == Some(t) ==> M.Critical(M.At(d.monitor, t))
  {
    hide M.WaitersOk;
    assert Consistent(M.At(d.monitor, t), Doing(d, t));
    assert M.ThreadOk(d.monitor, t);
  }

  lemma CompletionKept<D, Q, A>(dev: Device<D, Q, A>, d: Driver<D, Q, A>, t: Tid, a: Action<Q>)
    requires M.Inv(d.monitor) && Calls(d) && Completion(d) && Enabled(d, t, a)
    ensures Completion(Next(dev, d, t, a))
  {
    hide M.WaitersOk;
    var d' := Next(dev, d, t, a);
    assert Consistent(M.At(d.monitor, t), Doing(d, t)) && M.ThreadOk(d.monitor, t);
    InsideIsOwner(d, t);
    match a
    case Await => assert d.completion.queue == [];
    case Interrupt =>
    case Start(_) => assert OwnerPending(d') == OwnerPending(d);
    case Request =>
    case Lock(b) => assert OwnerPending(d') == OwnerPending(d);
  }

  lemma ReplyPrefix<D, Q, A>(dev: Device<D, Q, A>, start: D, issued: seq<Issued<Q>>, more: seq<Issued<Q>>, i: nat)
    requires i < |issued|
    ensures ReplyTo(dev, start, issued + more, i) == ReplyTo(dev, start, issued, i)
  {
    ReplayPrefix(dev, start, issued, more, i);
  }

  lemma RequestKeepsReplies<D, Q, A>(dev: Device<D, Q, A>, start: D, d: Driver<D, Q, A>, t: Tid)
    requires Inv(dev, start, d) && Enabled(d, t, Request)
    ensures Replies(dev, start, Next(dev, d, t, Request))
  {
    hide M.Inv, ReplyTo, Replay;
    var d' := Next(dev, d, t, Request);
    var more := [Issued(t, Doing(d, t).request)];
    RequestReply(dev, start, d, t);
    forall u: Tid
      ensures CallOk(dev, start, d', u, Doing(d', u))
    {
      assert CallOk(dev, start, d, u, Doing(d, u));
      if u != t && (Doing(d, u).Pending? || Doing(d, u).Finished?) {
        InsideIsOwner(d, u);
        InsideIsOwner(d, t);
        ReplyPrefix(dev, start, d.issued, more, Doing(d, u).index);
      }
    }
    forall i | i in d'.returned
      ensures i < |d'.issued| && i < d'.completed && d'.returned[i] == ReplyTo(dev, start, d'.issued, i)
    {
      ReplyPrefix(dev, start, d.issued, more, i);
    }
  }

  lemma RequestReply<D, Q, A>(dev: Device<D, Q, A>, start: D, d: Driver<D, Q, A>, t: Tid)
    requires Replies(dev, start, d) && Enabled(d, t, Request)
    ensures var d' := Next(dev, d, t, Request);
            && d'.device == Replay(dev, start, d'.issued, |d'.issued|)
            && Doing(d', t).reply == ReplyTo(dev, start, d'.issued, |d.issued|)
  {
    ReplayPrefix(dev, start, d.issued, [Issued(t, Doing(d, t).request)], |d.issued|);
  }

  lemma RepliesKept<D, Q, A>(dev: Device<D, Q, A>, start: D, d: Driver<D, Q, A>, t: Tid, a: Action<Q>)
    requires Inv(dev, start, d) && Enabled(d, t, a)
    ensures Replies(dev, start, Next(dev, d, t, a))
  {
    hide M.Inv, M.Next, M.Enabled, ReplyTo, Replay;
    if a.Request? {
      RequestKeepsReplies(dev, start, d, t);
    } else {
      var d' := Next(dev, d, t, a);
      InsideIsOwner(d, t);
      forall u: Tid
        ensures CallOk(dev, start, d', u, Doing(d', u))
      {
        assert CallOk(dev, start, d, u, Doing(d, u));
      }
      assert CallOk(dev, start, d, t, Doing(d, t));
    }
  }

  /** The device is never given a request while it is active. */
  lemma NeverRequestsWhileActive<D, Q, A>(d: Driver<D, Q, A>, t: Tid)
    requires M.Inv(d.monitor) && Calls(d) && Completion(d) && Enabled(d, t, Request)
    ensures !d.active
  {
    hide M.Inv;
    InsideIsOwner(d, t);
  }

  lemma StepKeepsInv<D, Q, A>(dev: Device<D, Q, A>, start: D, d: Driver<D, Q, A>, t: Tid, a: Action<Q>)
    requires Inv(dev, start, d) && Enabled(d, t, a)
    ensures Inv(dev, start, Next(dev, d, t, a))
  {
    hide M.Inv, Calls, Completion, Replies, Next, Enabled;
    MonitorKept(dev, d, t, a);
    CallsKept(dev, d, t, a);
    CompletionKept(dev, d, t, a);
    RepliesKept(dev, start, d, t, a);
  }

  // ---- runs ----

  datatype Step<Q> = Step(thread: Tid, action: Action<Q>)

  ghost predicate StepOk<D, Q, A>(dev: Device<D, Q, A>, d: Driver<D, Q, A>, step: Step<Q>, d': Driver<D, Q, A>) {
    Enabled(d, step.thread, step.action) && d' == Next(dev, d, step.thread, step.action)
  }

  ghost predicate Run<D, Q, A>(dev: Device<D, Q, A>, start: D, states: seq<Driver<D, Q, A>>, steps: seq<Step<Q>>) {
    && |states| == |steps| + 1
    && Init(states[0], start)
    && forall i :: 0 <= i < |steps| ==> StepOk(dev, states[i], steps[i], states[i + 1])
  }

  lemma {:induction false} RunInv<D, Q, A>(dev: Device<D, Q, A>, start: D, states: seq<Driver<D, Q, A>>, steps: seq<Step<Q>>, n: nat)
    requires Run(dev, start, states, steps) && n < |states|
    ensures Inv(dev, start, states[n])
  {
    hide Inv, Next, Enabled;
    if n == 0 {
      InitInv(dev, start, states[0]);
    } else {
      RunInv(dev, start, states, steps, n - 1);
      assert StepOk(dev, states[n - 1], steps[n - 1], states[n - 1 + 1]);
      StepKeepsInv(dev, start, states[n - 1], steps[n - 1].thread, steps[n - 1].action);
    }
  }

  /** The request of the latest call that t made in the first n steps. */
  function LatestStart<Q>(steps: seq<Step<Q>>, n: nat, t: Tid): Option<Q>
    requires n <= |steps|
  {
    if n == 0 then None
    else if steps[n - 1].thread == t && steps[n - 1].action.Start? then Some(steps[n - 1].action.request)
    else LatestStart(steps, n - 1, t)
  }

  /** A call is about the request it was made with, from its start to its return. */
  predicate OwnRequest<D, Q(==), A>(d: Driver<D, Q, A>, call: Call<Q, A>, request: Option<Q>) {
    && (call.Asking? ==> request == Some(call.request))
    && (call.Pending? || call.Finished? ==> call.index < |d.issued| && request == Some(d.issued[call.index].request))
  }

  lemma StepKeepsOwn<D, Q, A>(dev: Device<D, Q, A>, d: Driver<D, Q, A>, t: Tid, a: Action<Q>, u: Tid, request: Option<Q>)
    requires Enabled(d, t, a) && OwnRequest(d, Doing(d, u), request)
    ensures var d' := Next(dev, d, t, a); OwnRequest(d', Doing(d', u), if u == t && a.Start? then Some(a.request) else request)
  {
    hide M.Next, M.Enabled, M.At, M.Asleep;
  }

  lemma StepIssues<D, Q, A>(dev: Device<D, Q, A>, d: Driver<D, Q, A>, t: Tid, a: Action<Q>)
    requires Enabled(d, t, a)
    ensures Next(dev, d, t, a).issued == d.issued + if a.Request? then [Issued(t, Doing(d, t).request)] else []
  {
    hide M.Next, M.Enabled, M.At, M.Asleep;
  }

  lemma NoRequestYet<D, Q, A>(d: Driver<D, Q, A>, t: Tid)
    requires Doing(d, t).Idle?
    ensures OwnRequest(d, Doing(d, t), None)
  {
  }

  lemma {:induction false} RequestIsOwn<D, Q, A>(
      dev: Device<D, Q, A>, start: D, states: seq<Driver<D, Q, A>>, steps: seq<Step<Q>>, n: nat, t: Tid)
    requires Run(dev, start, states, steps) && n < |states|
    ensures OwnRequest(states[n], Doing(states[n], t), LatestStart(steps, n, t))
  {
    hide Next, Enabled, OwnRequest;
    if n == 0 {
      assert Doing(states[0], t).Idle?;
      NoRequestYet(states[0], t);
    } else {
      assert StepOk(dev, states[n - 1], steps[n - 1], states[n - 1 + 1]);
      RequestIsOwn(dev, start, states, steps, n - 1, t);
      StepKeepsOwn(dev, states[n - 1], steps[n - 1].thread, steps[n - 1].action, t, LatestStart(steps, n - 1, t));
    }
  }

  /** The requests that the first n steps should issue: at each Request, what its thread called with. */
  function Requests<Q>(steps: seq<Step<Q>>, n: nat): seq<Issued<Q>>
    requires n <= |steps|
  {
    if n == 0 then []
    else
      var t := steps[n - 1].thread;
      var q := LatestStart(steps, n - 1, t);
      Requests(steps, n - 1) + if steps[n - 1].action.Request? && q.Some? then [Issued(t, q.value)] else []
  }

  lemma {:induction false} IssuedAreRequests<D, Q, A>(
      dev: Device<D, Q, A>, start: D, states: seq<Driver<D, Q, A>>, steps: seq<Step<Q>>, n: nat)
    requires Run(dev, start, states, steps) && n < |states|
    ensures states[n].issued == Requests(steps, n)
  {
    hide Next, LatestStart, M.Next, M.Enabled, M.At, M.Asleep;
    if n > 0 {
      assert StepOk(dev, states[n - 1], steps[n - 1], states[n - 1 + 1]);
      StepIssues(dev, states[n - 1], steps[n - 1].thread, steps[n - 1].action);
      IssuedAreRequests(dev, start, states, steps, n - 1);
      RequestIsOwn(dev, start, states, steps, n - 1, steps[n - 1].thread);
    }
  }

  /**
   In every run, a thread about to leave has the reply to the request it called with, executed in
   issue order, and that request's interrupt has happened; the device is not busy when it leaves.
   */
  lemma ReturnsOwnCompletedReply<D, Q, A>(
      dev: Device<D, Q, A>, start: D, states: seq<Driver<D, Q, A>>, steps: seq<Step<Q>>, n: nat, t: Tid)
    requires Run(dev, start, states, steps) && n < |states| && Doing(states[n], t).Finished?
    ensures var d, call := states[n], Doing(states[n], t);
            && call.index < d.completed <= |d.issued|
            && d.issued[call.index].thread == t
            && LatestStart(steps, n, t) == Some(d.issued[call.index].request)
            && d.issued == Requests(steps, n)
            && call.reply == ReplyTo(dev, start, d.issued, call.index)
            && !d.active
  {
    hide M.Inv, ReplyTo, LatestStart, Requests, Next, Enabled;
    RunInv(dev, start, states, steps, n);
    RequestIsOwn(dev, start, states, steps, n, t);
    IssuedAreRequests(dev, start, states, steps, n);
    FinishedIsIdle(dev, start, states[n], t);
  }

  lemma FinishedIsIdle<D, Q, A>(dev: Device<D, Q, A>, start: D, d: Driver<D, Q, A>, t: Tid)
    requires Inv(dev, start, d) && Doing(d, t).Finished?
    ensures !d.active && d.completion.value == 0
    ensures CallOk(dev, start, d, t, Doing(d, t))
  {
    hide M.WaitersOk, ReplyTo;
    assert Consistent(M.At(d.monitor, t), Doing(d, t));
    assert M.ThreadOk(d.monitor, t);
  }

  // ---- the disk as the device ----

  datatype DiskRequest = Read(sector: nat) | Write(sector: nat, data: S.Sector)

  /** Requests for a sector that does not exist are refused by an assertion; here they change nothing. */
  function Disk(image: S.Image, q: DiskRequest): (S.Image, S.Sector) {
    if q.sector >= S.NUM_SECTORS then (image, S.Zeroes())
    else if q.Read? then (image, image[q.sector])
    else (image[q.sector := q.data], q.data)
  }

  /** The data last written to a sector by the first n requests, or what the disk held at the start. */
  function LastWritten(start: S.Image, issued: seq<Issued<DiskRequest>>, n: nat, sector: nat): S.Sector
    requires n <= |issued| && sector < S.NUM_SECTORS
  {
    if n == 0 then start[sector]
    else
      var q := issued[n - 1].request;
      if q.Write? && q.sector == sector then q.data else LastWritten(start, issued, n - 1, sector)
  }

  lemma {:induction false} ReplayIsLastWritten(start: S.Image, issued: seq<Issued<DiskRequest>>, n: nat, sector: nat)
    requires n <= |issued| && sector < S.NUM_SECTORS
    ensures Replay(Disk, start, issued, n)[sector] == LastWritten(start, issued, n, sector)
  {
    if n > 0 {
      ReplayIsLastWritten(start, issued, n - 1, sector);
    }
  }

  /** ReadSector, in every run: the caller gets what the latest earlier WriteSector of that sector wrote. */
  lemma ReadSectorGetsLastWrite(
      start: S.Image, states: seq<Driver<S.Image, DiskRequest, S.Sector>>, steps: seq<Step<DiskRequest>>, n: nat, t: Tid)
    requires Run(Disk, start, states, steps) && n < |states| && Doing(states[n], t).Finished?
    requires Doing(states[n], t).index < |states[n].issued|
    requires states[n].issued[Doing(states[n], t).index].request.Read?
    ensures var d, call := states[n], Doing(states[n], t);
            d.issued[call.index].request.sector < S.NUM_SECTORS ==>
              call.reply == LastWritten(start, d.issued, call.index, d.issued[call.index].request.sector)
  {
    var d, call := states[n], Doing(states[n], t);
    ReturnsOwnCompletedReply(Disk, start, states, steps, n, t);
    var sector := d.issued[call.index].request.sector;
    if sector < S.NUM_SECTORS {
      ReplayIsLastWritten(start, d.issued, call.index, sector);
    }
  }
}
