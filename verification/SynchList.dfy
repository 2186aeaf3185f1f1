/**
 The synchronized list of threads/synchlist.cc: a list used only inside the monitor made of
 its lock and its listEmpty condition.  Any number of threads call Append and RemoveFront.
 */
module SynchLists {
  import opened Semaphores
  import M = Monitors

  /** How far a thread is in its call. */
  datatype Call<T> =
    | Idle
    | Appending(item: T)     // not yet on the list
    | Appended               // on the list, not yet signalled
    | Removing               // must test the list (again)
    | Taking                 // found the list not empty
    | Leaving

  /**
   appended and removed record history; retest records the threads whose wait was signalled
   and that have not yet tested the list again.
   */
  datatype SynchList<T> = SynchList(
    monitor: M.Monitor,
    list: seq<T>,
    call: map<Tid, Call<T>>,
    retest: set<Tid>,
    appended: seq<T>,
    removed: seq<T>)

  datatype Action<T> =
    | CallAppend(item: T)
    | CallRemoveFront
    | Put                     // list->Append
    | SignalNobody            // Signal, with nobody waiting
    | SignalOne               // Signal takes the first waiter off the queue
    | FoundItem               // the loop test fails
    | WaitForItem(w: M.WaiterId)   // the loop test succeeds and Wait begins
    | Take                    // list->RemoveFront
    | Inner(a: M.Action)      // a step inside Acquire, Release, Wait or Signal

  function Doing<T>(s: SynchList<T>, t: Tid): Call<T> { if t in s.call then s.call[t] else Idle }

  predicate IsInside<T>(s: SynchList<T>, t: Tid) { M.At(s.monitor, t) == M.Inside && !M.Asleep(s.monitor, t) }

  /** The monitor step an action performs, if any. */
  function MonitorAction<T>(a: Action<T>): Option<M.Action> {
    match a
    case CallAppend(_) => Some(M.Enter)
    case CallRemoveFront => Some(M.Enter)
    case SignalOne => Some(M.PopWaiter)
    case WaitForItem(w) => Some(M.StartWait(w))
    case Inner(b) => Some(b)
    case _ => None
  }

  predicate Enabled<T(==)>(s: SynchList<T>, t: Tid, a: Action<T>) {
    && (MonitorAction(a).Some? ==> M.Enabled(s.monitor, t, MonitorAction(a).value))
    && match a
       case CallAppend(_) => true
       case CallRemoveFront => true
       case Put => IsInside(s, t) && Doing(s, t).Appending?
       case SignalNobody => IsInside(s, t) && Doing(s, t) == Appended && s.monitor.waitQueue == []
       case SignalOne => Doing(s, t) == Appended && s.monitor.waitQueue[0] in s.monitor.waiters
       case FoundItem => IsInside(s, t) && Doing(s, t) == Removing && s.list != []
       case WaitForItem(_) => Doing(s, t) == Removing && s.list == []
       case Take => IsInside(s, t) && Doing(s, t) == Taking && s.list != []
       case Inner(b) =>
         && !b.Enter? && !b.PopWaiter? && !b.StartWait?
         && (b.ClearHolder? && IsInside(s, t) ==> Doing(s, t) == Leaving)
  }

  function Next<T>(s: SynchList<T>, t: Tid, a: Action<T>): SynchList<T>
    requires Enabled(s, t, a)
  {
    var s' := if MonitorAction(a).None? then s else s.(monitor := M.Next(s.monitor, t, MonitorAction(a).value));
    match a
    case CallAppend(item) => s'.(call := s.call[t := Appending(item)])
    case CallRemoveFront => s'.(call := s.call[t := Removing])
    case Put =>
      s'.(list := s.list + [Doing(s, t).item], appended := s.appended + [Doing(s, t).item], call := s.call[t := Appended])
    case SignalNobody => s'.(call := s.call[t := Leaving])
    case SignalOne =>
      s'.(call := s.call[t := Leaving], retest := s.retest + {s.monitor.waiters[s.monitor.waitQueue[0]].thread})
    case FoundItem => s'.(call := s.call[t := Taking], retest := s.retest - {t})
    case WaitForItem(_) => s'.(retest := s.retest - {t})
    case Take => s'.(list := s.list[1..], removed := s.removed + [s.list[0]], call := s.call[t := Leaving])
    case Inner(b) => if b.LockV? && M.At(s.monitor, t) == M.Releasing then s'.(call := s.call[t := Idle]) else s'
  }

  predicate Init<T(==)>(s: SynchList<T>) {
    M.Init(s.monitor) && s.list == [] && s.call == map[] && s.retest == {} && s.appended == [] && s.removed == []
  }

  // ---- the invariant ----

  /** Which calls a thread can be in, given where it is in the monitor. */
  predicate Consistent<T(==)>(p: M.Pc, call: Call<T>) {
    match p
    case Outside => call == Idle
    case Acquiring => call.Appending? || call == Removing
    case Acquired => call.Appending? || call == Removing
    case Inside => call != Idle
    case Signalling(_) => call == Leaving
    case Releasing => call == Leaving
    case _ => call == Removing
  }

  /** A thread to re-test was signalled and is on its way back to the test. */
  predicate Returning<T(==)>(s: SynchList<T>, t: Tid) {
    && Doing(s, t) == Removing
    && var p := M.At(s.monitor, t);
       p == M.Inside || (M.Own(p).Some? && M.Own(p).value !in s.monitor.waitQueue)
  }

  /** The lock's holder has an item in hand: put but not announced, or found but not taken. */
  predicate InHand<T(==)>(s: SynchList<T>) {
    s.monitor.owner.Some? && (Doing(s, s.monitor.owner.value) == Appended || Doing(s, s.monitor.owner.value) == Taking)
  }

  ghost predicate Calls<T>(s: SynchList<T>) { forall t: Tid :: Consistent(M.At(s.monitor, t), Doing(s, t)) }

  ghost predicate Retests<T>(s: SynchList<T>) { forall t: Tid :: t in s.retest ==> Returning(s, t) }

  ghost predicate Items<T>(s: SynchList<T>) {
    && s.removed + s.list == s.appended
    && (forall t: Tid :: Doing(s, t) == Taking ==> s.list != [])
  }

  /** While anyone waits unsignalled, there is a thread on its way for every item on the list. */
  predicate Announced<T(==)>(s: SynchList<T>) {
    s.monitor.waitQueue != [] ==> |s.list| <= |s.retest| + (if InHand(s) then 1 else 0)
  }

  ghost predicate Inv<T>(s: SynchList<T>) {
    M.Inv(s.monitor) && Calls(s) && Retests(s) && Items(s) && Announced(s)
  }

  lemma InitInv<T>(s: SynchList<T>)
    requires Init(s)
    ensures Inv(s)
  {
    M.InitInv(s.monitor);
  }

  lemma OthersUnmoved<T>(s: SynchList<T>, t: Tid, a: Action<T>, u: Tid)
    requires Enabled(s, t, a) && u != t
    ensures M.At(Next(s, t, a).monitor, u) == M.At(s.monitor, u) && Doing(Next(s, t, a), u) == Doing(s, u)
  {
    hide M.Next, M.Enabled, M.At;
    if MonitorAction(a).Some? {
      M.OthersUnmoved(s.monitor, t, MonitorAction(a).value, u);
    }
  }

  lemma MonitorKept<T>(s: SynchList<T>, t: Tid, a: Action<T>)
    requires Inv(s) && Enabled(s, t, a)
    ensures M.Inv(Next(s, t, a).monitor)
  {
    hide M.Inv, M.Next, M.Enabled, Calls, Retests, Items, Announced;
    if MonitorAction(a).Some? {
      M.StepKeepsInv(s.monitor, t, MonitorAction(a).value);
    }
  }

  lemma OwnCallKept<T>(s: SynchList<T>, t: Tid, a: Action<T>)
    requires Consistent(M.At(s.monitor, t), Doing(s, t)) && Enabled(s, t, a)
    ensures Consistent(M.At(Next(s, t, a).monitor, t), Doing(Next(s, t, a), t))
  {
    hide SemP, SemV;
  }

  lemma CallsKept<T>(s: SynchList<T>, t: Tid, a: Action<T>)
    requires Inv(s) && Enabled(s, t, a)
    ensures Calls(Next(s, t, a))
  {
    hide M.Inv, Retests, Items, Announced, Next, Enabled, Consistent, M.At;
    var s' := Next(s, t, a);
    forall u: Tid
      ensures Consistent(M.At(s'.monitor, u), Doing(s', u))
    {
      assert Consistent(M.At(s.monitor, u), Doing(s, u));
      if u != t {
        OthersUnmoved(s, t, a, u);
      } else {
        OwnCallKept(s, t, a);
      }
    }
  }

  /** An item can only be in the hands of the lock's owner. */
  lemma HandIsOwner<T>(s: SynchList<T>, t: Tid)
    requires M.Inv(s.monitor) && Calls(s)
    requires Doing(s, t) == Appended || Doing(s, t) == Taking
    ensures s.monitor.owner == Some(t) && InHand(s) && M.At(s.monitor, t) == M.Inside
  {
    hide M.WaitersOk;
    assert Consistent(M.At(s.monitor, t), Doing(s, t));
    assert M.ThreadOk(s.monitor, t);
  }

  lemma InsideIsOwner<T>(s: SynchList<T>, t: Tid)
    requires M.Inv(s.monitor) && M.At(s.monitor, t) == M.Inside
    ensures s.monitor.owner == Some(t)
  {
    hide M.WaitersOk;
    assert M.ThreadOk(s.monitor, t);
  }

  lemma ItemsKept<T>(s: SynchList<T>, t: Tid, a: Action<T>)
    requires Inv(s) && Enabled(s, t, a)
    ensures Items(Next(s, t, a))
  {
    hide Inv, Next, Enabled;
    ContentsKept(s, t, a);
    var s' := Next(s, t, a);
    forall u: Tid | Doing(s', u) == Taking
      ensures s'.list != []
    {
      TakingKept(s, t, a, u);
    }
  }

  lemma ContentsKept<T>(s: SynchList<T>, t: Tid, a: Action<T>)
    requires Inv(s) && Enabled(s, t, a)
    ensures Next(s, t, a).removed + Next(s, t, a).list == Next(s, t, a).appended
  {
    hide M.Inv, M.Next, M.Enabled, M.At, Retests, Announced, Calls;
    if a.Take? {
      assert s.list == [s.list[0]] + s.list[1..];
    }
  }

  lemma TakingKept<T>(s: SynchList<T>, t: Tid, a: Action<T>, u: Tid)
    requires Inv(s) && Enabled(s, t, a) && Doing(Next(s, t, a), u) == Taking
    ensures Next(s, t, a).list != []
  {
    hide M.Inv, M.Next, M.Enabled, M.At, Retests, Announced, Calls;
    var s' := Next(s, t, a);
    if u != t {
      OthersUnmoved(s, t, a, u);
      assert Doing(s, u) == Taking;
      HandIsOwner(s, u);
      if a.Take? {
        HandIsOwner(s, t);
        assert false;
      }
      assert s.list <= s'.list;
    } else if !a.FoundItem? {
      assert Doing(s, t) == Taking && s'.list == s.list;
    }
  }

  lemma WaiterThread<T>(s: SynchList<T>, w: M.WaiterId)
    requires M.Inv(s.monitor) && w in s.monitor.waitQueue
    ensures w in s.monitor.waiters && M.Own(M.At(s.monitor, s.monitor.waiters[w].thread)) == Some(w)
  {
    hide M.Exclusive;
    assert M.WaiterFine(s.monitor, w);
  }

  lemma OwnExists<T>(s: SynchList<T>, t: Tid)
    requires M.Inv(s.monitor) && M.Own(M.At(s.monitor, t)).Some?
    ensures M.Own(M.At(s.monitor, t)).value in s.monitor.waiters
  {
    hide M.Exclusive;
    assert M.OwnOk(s.monitor, t);
  }

  lemma RetestsKept<T>(s: SynchList<T>, t: Tid, a: Action<T>)
    requires Inv(s) && Enabled(s, t, a)
    ensures Retests(Next(s, t, a))
  {
    hide M.Inv, Items, Announced;
    var s' := Next(s, t, a);
    forall u: Tid | u in s'.retest
      ensures Returning(s', u)
    {
      if u in s.retest {
        assert Returning(s, u);
        if u == t {
          SelfStillReturning(s, t, a);
        } else {
          OthersUnmoved(s, t, a, u);
          OtherStillReturning(s, t, a, u);
        }
      } else {
        SignalledIsReturning(s, t, u);
      }
    }
  }

  lemma SelfStillReturning<T>(s: SynchList<T>, t: Tid, a: Action<T>)
    requires Enabled(s, t, a) && Returning(s, t) && t in Next(s, t, a).retest
    ensures Returning(Next(s, t, a), t)
  {
    hide M.Inv, Items, Announced, Retests, Calls;
  }

  lemma OtherStillReturning<T>(s: SynchList<T>, t: Tid, a: Action<T>, u: Tid)
    requires M.Inv(s.monitor) && Enabled(s, t, a) && u != t && Returning(s, u)
    ensures Returning(Next(s, t, a), u)
  {
    hide M.Inv, Items, Announced, Retests, Calls;
    OthersUnmoved(s, t, a, u);
    if M.Own(M.At(s.monitor, u)).Some? {
      OwnExists(s, u);
    }
  }

  lemma SignalledIsReturning<T>(s: SynchList<T>, t: Tid, u: Tid)
    requires M.Inv(s.monitor) && Calls(s) && Enabled(s, t, SignalOne)
    requires u == s.monitor.waiters[s.monitor.waitQueue[0]].thread
    ensures !Returning(s, u)
    ensures Returning(Next(s, t, SignalOne), u)
  {
    hide M.Exclusive, Items, Announced, Retests;
    WaiterThread(s, s.monitor.waitQueue[0]);
    OthersUnmoved(s, t, SignalOne, u);
    assert Consistent(M.At(s.monitor, u), Doing(s, u));
  }

  lemma SignalledIsNew<T>(s: SynchList<T>, t: Tid, u: Tid)
    requires Inv(s) && Enabled(s, t, SignalOne)
    requires u == s.monitor.waiters[s.monitor.waitQueue[0]].thread
    ensures u !in s.retest
  {
    hide M.Inv, Items, Announced, Calls;
    SignalledIsReturning(s, t, u);
  }

  lemma SignalKeepsAnnounced<T>(s: SynchList<T>, t: Tid)
    requires Inv(s) && Enabled(s, t, SignalOne)
    ensures Announced(Next(s, t, SignalOne))
  {
    hide M.Inv, Items, Retests, Calls;
    var s' := Next(s, t, SignalOne);
    HandIsOwner(s, t);
    var u := s.monitor.waiters[s.monitor.waitQueue[0]].thread;
    SignalledIsNew(s, t, u);
    assert |s'.retest| == |s.retest| + 1;
  }

  lemma FoundKeepsAnnounced<T>(s: SynchList<T>, t: Tid)
    requires Inv(s) && Enabled(s, t, FoundItem)
    ensures Announced(Next(s, t, FoundItem))
  {
    hide M.Inv, Items, Retests, Calls;
    var s' := Next(s, t, FoundItem);
    InsideIsOwner(s, t);
    if t in s.retest {
      assert s.retest == s'.retest + {t};
    } else {
      assert s'.retest == s.retest;
    }
  }

  /** Steps inside Acquire, Release, Wait and Signal, and the start of a call. */
  lemma QuietKeepsAnnounced<T>(s: SynchList<T>, t: Tid, a: Action<T>)
    requires Inv(s) && Enabled(s, t, a) && (a.CallAppend? || a.CallRemoveFront? || a.Inner?)
    ensures Announced(Next(s, t, a))
  {
    hide M.Inv, Items, Retests, Calls, InHand;
    QuietKeepsHand(s, t, a);
  }

  lemma AnnouncedKept<T>(s: SynchList<T>, t: Tid, a: Action<T>)
    requires Inv(s) && Enabled(s, t, a)
    ensures Announced(Next(s, t, a))
  {
    hide M.Inv, Items, Retests, Calls, M.Next, M.Enabled;
    match a
    case CallAppend(_) => QuietKeepsAnnounced(s, t, a);
    case CallRemoveFront => QuietKeepsAnnounced(s, t, a);
    case Put => InsideIsOwner(s, t);
    case SignalNobody =>
    case SignalOne => SignalKeepsAnnounced(s, t);
    case FoundItem => FoundKeepsAnnounced(s, t);
    case WaitForItem(_) =>
    case Take => HandIsOwner(s, t);
    case Inner(_) => QuietKeepsAnnounced(s, t, a);
  }

  lemma QuietKeepsHand<T>(s: SynchList<T>, t: Tid, a: Action<T>)
    requires M.Inv(s.monitor) && Calls(s) && Enabled(s, t, a)
    requires a.CallAppend? || a.CallRemoveFront? || a.Inner?
    ensures InHand(Next(s, t, a)) == InHand(s)
  {
    hide M.WaitersOk, Items, Announced, Retests, SemP, SemV;
    var s' := Next(s, t, a);
    assert Consistent(M.At(s.monitor, t), Doing(s, t));
    M.ThreadFact(s.monitor, t);
    match s.monitor.owner
    case Some(u) =>
      if u != t {
        OthersUnmoved(s, t, a, u);
      }
    case None =>
  }

  lemma StepKeepsInv<T>(s: SynchList<T>, t: Tid, a: Action<T>)
    requires Inv(s) && Enabled(s, t, a)
    ensures Inv(Next(s, t, a))
  {
    hide M.Inv, Calls, Retests, Items, Announced, Next, Enabled;
    MonitorKept(s, t, a);
    CallsKept(s, t, a);
    RetestsKept(s, t, a);
    ItemsKept(s, t, a);
    AnnouncedKept(s, t, a);
  }

  /** The holder of the lock always has a next statement to execute: no take from an empty list. */
  lemma HolderCanProceed<T>(s: SynchList<T>, t: Tid, w: M.WaiterId)
    requires Inv(s) && IsInside(s, t) && w !in s.monitor.waiters
    ensures Doing(s, t).Appending? ==> Enabled(s, t, Put)
    ensures Doing(s, t) == Appended ==> Enabled(s, t, SignalNobody) || Enabled(s, t, SignalOne)
    ensures Doing(s, t) == Removing ==> Enabled(s, t, FoundItem) || Enabled(s, t, WaitForItem(w))
    ensures Doing(s, t) == Taking ==> Enabled(s, t, Take)
    ensures Doing(s, t) == Leaving ==> Enabled(s, t, Inner(M.ClearHolder))
    ensures Doing(s, t) != Idle
  {
    hide M.Inv, Retests, Announced;
    assert Consistent(M.At(s.monitor, t), Doing(s, t));
    if s.monitor.waitQueue != [] {
      WaiterThread(s, s.monitor.waitQueue[0]);
    }
  }

  /** No item lies unclaimed while a waiter is forgotten. */
  lemma NobodyForgotten<T>(s: SynchList<T>)
    requires Inv(s) && s.monitor.waitQueue != [] && !InHand(s)
    ensures |s.list| <= |s.retest|
    ensures forall t :: t in s.retest ==> Returning(s, t)
    ensures s.list != [] ==> exists t :: t in s.retest
  {
    hide M.Inv, Items, Calls;
    assert Announced(s);
    if s.list != [] {
      var t :| t in s.retest;
    }
  }

  // ---- runs ----

  datatype Step<T> = Step(thread: Tid, action: Action<T>)

  ghost predicate StepOk<T>(s: SynchList<T>, step: Step<T>, s': SynchList<T>) {
    Enabled(s, step.thread, step.action) && s' == Next(s, step.thread, step.action)
  }

  ghost predicate Run<T>(states: seq<SynchList<T>>, steps: seq<Step<T>>) {
    && |states| == |steps| + 1
    && Init(states[0])
    && forall i :: 0 <= i < |steps| ==> StepOk(states[i], steps[i], states[i + 1])
  }

  lemma {:induction false} RunInv<T>(states: seq<SynchList<T>>, steps: seq<Step<T>>, n: nat)
    requires Run(states, steps) && n < |states|
    ensures Inv(states[n])
  {
    hide Inv, Next, Enabled;
    if n == 0 {
      InitInv(states[0]);
    } else {
      RunInv(states, steps, n - 1);
      assert StepOk(states[n - 1], steps[n - 1], states[n - 1 + 1]);
      StepKeepsInv(states[n - 1], steps[n - 1].thread, steps[n - 1].action);
    }
  }

  /** The argument of the latest call of Append that t made in the first n steps. */
  function LatestAppend<T>(steps: seq<Step<T>>, n: nat, t: Tid): Option<T>
    requires n <= |steps|
  {
    if n == 0 then None
    else if steps[n - 1].thread == t && steps[n - 1].action.CallAppend? then Some(steps[n - 1].action.item)
    else LatestAppend(steps, n - 1, t)
  }

  /** What one step records, and what it does to the calls. */
  lemma StepRecords<T>(s: SynchList<T>, t: Tid, a: Action<T>)
    requires Enabled(s, t, a)
    ensures Next(s, t, a).appended == s.appended + if a.Put? then [Doing(s, t).item] else []
    ensures Next(s, t, a).removed == s.removed + if a.Take? then [s.list[0]] else []
  {
    hide M.Next, M.Enabled, M.At;
  }

  lemma StepAppending<T>(s: SynchList<T>, t: Tid, a: Action<T>, u: Tid)
    requires Enabled(s, t, a) && Doing(Next(s, t, a), u).Appending?
    ensures Doing(Next(s, t, a), u) == if u == t && a.CallAppend? then Appending(a.item) else Doing(s, u)
  {
    hide M.Next, M.Enabled, M.At;
  }

  lemma {:induction false} AppendingIsLatest<T>(states: seq<SynchList<T>>, steps: seq<Step<T>>, n: nat, t: Tid)
    requires Run(states, steps) && n < |states| && Doing(states[n], t).Appending?
    ensures LatestAppend(steps, n, t) == Some(Doing(states[n], t).item)
  {
    hide Next, Enabled;
    if n > 0 {
      assert StepOk(states[n - 1], steps[n - 1], states[n - 1 + 1]);
      StepAppending(states[n - 1], steps[n - 1].thread, steps[n - 1].action, t);
      if !(steps[n - 1].thread == t && steps[n - 1].action.CallAppend?) {
        AppendingIsLatest(states, steps, n - 1, t);
      }
    }
  }

  /** What the puts of the first n steps should put, in that order: what each thread called Append with. */
  function PutItems<T>(steps: seq<Step<T>>, n: nat): seq<T>
    requires n <= |steps|
  {
    if n == 0 then []
    else
      var item := LatestAppend(steps, n - 1, steps[n - 1].thread);
      PutItems(steps, n - 1) + if steps[n - 1].action.Put? && item.Some? then [item.value] else []
  }

  /** The items taken off the list in the first n steps, in that order. */

  ghost function TakenItems<T>(states: seq<SynchList<T>>, steps: seq<Step<T>>, n: nat): seq<T>
    requires n <= |steps| < |states|
  {
    if n == 0 then []
    else
      var earlier := TakenItems(states, steps, n - 1);
      if steps[n - 1].action.Take? && states[n - 1].list != [] then earlier + [states[n - 1].list[0]] else earlier
  }

  lemma {:induction false} History<T>(states: seq<SynchList<T>>, steps: seq<Step<T>>, n: nat)
    requires Run(states, steps) && n < |states|
    ensures states[n].appended == PutItems(steps, n)
    ensures states[n].removed == TakenItems(states, steps, n)
  {
    hide Next, LatestAppend, M.At, M.Asleep, M.Enabled;
    if n > 0 {
      History(states, steps, n - 1);
      assert StepOk(states[n - 1], steps[n - 1], states[n - 1 + 1]);
      StepRecords(states[n - 1], steps[n - 1].thread, steps[n - 1].action);
      if steps[n - 1].action.Put? {
        AppendingIsLatest(states, steps, n - 1, steps[n - 1].thread);
      }
    }
  }

  /** Over every interleaving: what was taken is a prefix of what Append was called with, in the order put, and the list is the rest. */
  lemma TakenIsPrefixOfPut<T>(states: seq<SynchList<T>>, steps: seq<Step<T>>, n: nat)
    requires Run(states, steps) && n < |states|
    ensures TakenItems(states, steps, n) + states[n].list == PutItems(steps, n)
    ensures TakenItems(states, steps, n) <= PutItems(steps, n)
  {
    hide Next, Enabled, M.Inv;
    RunInv(states, steps, n);
    History(states, steps, n);
  }
}
