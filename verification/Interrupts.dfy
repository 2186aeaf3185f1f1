/**
 Simulated time of machine/interrupt.cc: the clock, the sorted list of pending interrupts, and
 the loop that fires those that are due.  A handler may schedule further interrupts and ask for
 a yield; it cannot enable interrupts, so it cannot advance the clock.
 */
module Interrupts {
  import LinkedLists

  const SYSTEM_TICK := 10
  const USER_TICK := 1

  type Delay = d: nat | d > 0 witness 1

  /** id numbers the interrupts in the order they were scheduled. */
  datatype Pending = Pending(when: nat, id: nat)

  datatype Fired = Fired(interrupt: Pending, time: nat)

  /** What the k-th handler to run does: the delays it schedules, and whether it asks to yield. */
  datatype Effect = Effect(delays: seq<Delay>, asksYield: bool)

  type Handlers = nat -> Effect

  /** fired and nextId record history. */
  datatype Timeline = Timeline(
    pending: seq<Pending>,
    totalTicks: nat,
    idleTicks: nat,
    systemTicks: nat,
    userTicks: nat,
    yieldOnReturn: bool,
    fired: seq<Fired>,
    nextId: nat)

  // ---- the operations ----

  /** SortedList::Insert with PendingCompare: in front of the first that is later. */
  function Inserted(list: seq<Pending>, p: Pending): seq<Pending> {
    if list == [] then [p]
    else if p.when < list[0].when then [p] + list
    else [list[0]] + Inserted(list[1..], p)
  }

  function Scheduled(tl: Timeline, fromNow: Delay): Timeline {
    tl.(pending := Inserted(tl.pending, Pending(tl.totalTicks + fromNow, tl.nextId)), nextId := tl.nextId + 1)
  }

  function ScheduledAll(tl: Timeline, delays: seq<Delay>): Timeline {
    if delays == [] then tl else Scheduled(ScheduledAll(tl, delays[..|delays| - 1]), delays[|delays| - 1])
  }

  predicate IsDue(tl: Timeline) { tl.pending != [] && tl.pending[0].when <= tl.totalTicks }

  /** Pull the first interrupt off the list and run its handler. */
  function FireOne(tl: Timeline, handlers: Handlers): Timeline
    requires tl.pending != []
  {
    var effect := handlers(|tl.fired|);
    var taken := tl.(pending := tl.pending[1..], fired := tl.fired + [Fired(tl.pending[0], tl.totalTicks)]);
    var done := ScheduledAll(taken, effect.delays);
    done.(yieldOnReturn := done.yieldOnReturn || effect.asksYield)
  }

  function CountDue(list: seq<Pending>, now: nat): nat {
    if list == [] then 0 else (if list[0].when <= now then 1 else 0) + CountDue(list[1..], now)
  }

  lemma {:induction false} InsertedCountDue(list: seq<Pending>, p: Pending, now: nat)
    requires p.when > now
    ensures CountDue(Inserted(list, p), now) == CountDue(list, now)
  {
    if list == [] {
      assert [p][1..] == [];
    } else if p.when < list[0].when {
      assert ([p] + list)[1..] == list;
    } else {
      InsertedCountDue(list[1..], p, now);
      assert ([list[0]] + Inserted(list[1..], p))[1..] == Inserted(list[1..], p);
    }
  }

  lemma {:induction false} ScheduledAllCountDue(tl: Timeline, delays: seq<Delay>)
    ensures var tl' := ScheduledAll(tl, delays);
            && tl'.totalTicks == tl.totalTicks && CountDue(tl'.pending, tl.totalTicks) == CountDue(tl.pending, tl.totalTicks)
            && tl' == tl.(pending := tl'.pending, nextId := tl'.nextId)
  {
    if delays != [] {
      var before := ScheduledAll(tl, delays[..|delays| - 1]);
      ScheduledAllCountDue(tl, delays[..|delays| - 1]);
      InsertedCountDue(before.pending, Pending(before.totalTicks + delays[|delays| - 1], before.nextId), tl.totalTicks);
    }
  }

  /** Handlers cannot advance the clock, so each firing leaves one due interrupt fewer. */
  lemma FireOneProgress(tl: Timeline, handlers: Handlers)
    requires IsDue(tl)
    ensures var tl' := FireOne(tl, handlers);
            tl'.totalTicks == tl.totalTicks && CountDue(tl'.pending, tl.totalTicks) == CountDue(tl.pending, tl.totalTicks) - 1
  {
    var taken := tl.(pending := tl.pending[1..], fired := tl.fired + [Fired(tl.pending[0], tl.totalTicks)]);
    ScheduledAllCountDue(taken, handlers(|tl.fired|).delays);
  }

  /** The firing loop of CheckIfDue. */
  function FireDue(tl: Timeline, handlers: Handlers): Timeline
    decreases CountDue(tl.pending, tl.totalTicks)
  {
    if !IsDue(tl) then tl
    else
      FireOneProgress(tl, handlers);
      FireDue(FireOne(tl, handlers), handlers)
  }

  lemma FireDueStep(tl: Timeline, handlers: Handlers)
    ensures FireDue(tl, handlers) == if IsDue(tl) then FireDue(FireOne(tl, handlers), handlers) else tl
  {
    hide FireOne;
  }

  /** CheckIfDue: with advanceClock, time first jumps to the next interrupt. */
  function Checked(tl: Timeline, handlers: Handlers, advanceClock: bool): Timeline {
    if tl.pending == [] then tl
    else if tl.pending[0].when <= tl.totalTicks then FireDue(tl, handlers)
    else if !advanceClock then tl
    else
      var jump := tl.pending[0].when - tl.totalTicks;
      FireDue(tl.(idleTicks := tl.idleTicks + jump, totalTicks := tl.pending[0].when), handlers)
  }

  /** OneTick up to the point where it may yield. */
  function Later(tl: Timeline, systemMode: bool): Timeline {
    if systemMode then tl.(totalTicks := tl.totalTicks + SYSTEM_TICK, systemTicks := tl.systemTicks + SYSTEM_TICK)
    else tl.(totalTicks := tl.totalTicks + USER_TICK, userTicks := tl.userTicks + USER_TICK)
  }

  function Ticked(tl: Timeline, handlers: Handlers, systemMode: bool): Timeline {
    Checked(Later(tl, systemMode), handlers, false).(yieldOnReturn := false)
  }

  /** A handler asked for the interrupted thread to yield. */
  predicate MustYield(tl: Timeline, handlers: Handlers, systemMode: bool) {
    Checked(Later(tl, systemMode), handlers, false).yieldOnReturn
  }

  // ---- the invariant ----

  /** Due earlier, or due at the same time and scheduled earlier. */
  predicate Before(a: Pending, b: Pending) { a.when < b.when || (a.when == b.when && a.id < b.id) }

  ghost predicate Sorted(list: seq<Pending>) { forall i, j :: 0 <= i < j < |list| ==> Before(list[i], list[j]) }

  ghost predicate FiredInOrder(fired: seq<Fired>) {
    forall i, j :: 0 <= i < j < |fired| ==> Before(fired[i].interrupt, fired[j].interrupt) && fired[i].time <= fired[j].time
  }

  /** Nothing fired early, and nothing as much as a system tick late. */
  ghost predicate OnTime(fired: seq<Fired>, now: nat) {
    forall i :: 0 <= i < |fired| ==> fired[i].interrupt.when <= fired[i].time < fired[i].interrupt.when + SYSTEM_TICK && fired[i].time <= now
  }

  ghost predicate FiredBefore(fired: seq<Fired>, list: seq<Pending>) {
    forall i, j :: 0 <= i < |fired| && 0 <= j < |list| ==> Before(fired[i].interrupt, list[j])
  }

  ghost predicate IdsBelow(list: seq<Pending>, n: nat) { forall i :: 0 <= i < |list| ==> list[i].id < n }

  ghost predicate AllAfter(list: seq<Pending>, time: int) { forall i :: 0 <= i < |list| ==> list[i].when > time }

  /** What also holds inside the firing loop. */
  ghost predicate Order(tl: Timeline) {
    && Sorted(tl.pending) && IdsBelow(tl.pending, tl.nextId) && AllAfter(tl.pending, tl.totalTicks - SYSTEM_TICK)
    && FiredInOrder(tl.fired) && OnTime(tl.fired, tl.totalTicks) && FiredBefore(tl.fired, tl.pending)
    && tl.totalTicks == tl.idleTicks + tl.systemTicks + tl.userTicks
  }

  /** Outside CheckIfDue, every pending interrupt is strictly in the future. */
  ghost predicate Inv(tl: Timeline) { Order(tl) && AllAfter(tl.pending, tl.totalTicks) }

  // ---- the sorted list ----

  function Place(list: seq<Pending>, p: Pending): nat {
    if list == [] || p.when < list[0].when then 0 else 1 + Place(list[1..], p)
  }

  /** Insertion is stable: behind everything due no later, in front of the first that is later. */
  lemma {:induction false} InsertedAtPlace(list: seq<Pending>, p: Pending)
    ensures var k := Place(list, p);
            && k <= |list| && Inserted(list, p) == list[..k] + [p] + list[k..]
            && (forall i :: 0 <= i < k ==> list[i].when <= p.when)
            && (k < |list| ==> p.when < list[k].when)
  {
    if list != [] && p.when >= list[0].when {
      var rest, k := list[1..], Place(list, p);
      InsertedAtPlace(rest, p);
      assert list[..k] == [list[0]] + rest[..k - 1] && list[k..] == rest[k - 1..];
      forall i | 0 <= i < k ensures list[i].when <= p.when {
        assert i > 0 ==> list[i] == rest[i - 1];
      }
    }
  }

  function PendingCompare(x: Pending, y: Pending): int { if x.when < y.when then -1 else if x.when == y.when then 0 else 1 }

  /** The pending list is the linked SortedList, with the source's comparison. */
  lemma {:induction false} InsertedIsListInsert(list: seq<Pending>, p: Pending)
    ensures Inserted(list, p) == LinkedLists.InsertedBy(PendingCompare, list, p)
  {
    InsertedAtPlace(list, p);
    PlaceIsInsertPoint(list, p);
  }

  lemma {:induction false} PlaceIsInsertPoint(list: seq<Pending>, p: Pending)
    ensures Place(list, p) == LinkedLists.InsertPoint(PendingCompare, list, p)
  {
    if list != [] && p.when >= list[0].when {
      PlaceIsInsertPoint(list[1..], p);
    }
  }

  lemma InsertedSorted(list: seq<Pending>, p: Pending)
    requires Sorted(list) && IdsBelow(list, p.id)
    ensures Sorted(Inserted(list, p)) && IdsBelow(Inserted(list, p), p.id + 1)
  {
    InsertedAtPlace(list, p);
    var k := Place(list, p);
    var list' := Inserted(list, p);
    forall i, j | 0 <= i < j < |list'|
      ensures Before(list'[i], list'[j])
    {
      if j < k {
        assert Before(list[i], list[j]);
      } else if i == k {
        assert k == j - 1 || Before(list[k], list[j - 1]);
      } else if i > k {
        assert Before(list[i - 1], list[j - 1]);
      } else if j > k {
        assert Before(list[i], list[j - 1]);
      }
    }
  }

  lemma InsertedAll(list: seq<Pending>, p: Pending, q: Pending)
    ensures q in Inserted(list, p) <==> q == p || q in list
  {
    InsertedAtPlace(list, p);
    var k := Place(list, p);
    assert list == list[..k] + list[k..];
  }

  lemma AllAfterInserted(list: seq<Pending>, p: Pending, time: int)
    requires AllAfter(list, time) && p.when > time
    ensures AllAfter(Inserted(list, p), time)
  {
    forall i | 0 <= i < |Inserted(list, p)|
      ensures Inserted(list, p)[i].when > time
    {
      InsertedAll(list, p, Inserted(list, p)[i]);
    }
  }

  lemma FiredBeforeInserted(fired: seq<Fired>, list: seq<Pending>, p: Pending, now: nat)
    requires FiredBefore(fired, list) && OnTime(fired, now) && p.when > now
    ensures FiredBefore(fired, Inserted(list, p))
  {
    forall i, j | 0 <= i < |fired| && 0 <= j < |Inserted(list, p)|
      ensures Before(fired[i].interrupt, Inserted(list, p)[j])
    {
      InsertedAll(list, p, Inserted(list, p)[j]);
    }
  }

  // ---- every operation keeps the invariant ----

  lemma ScheduleKeepsOrder(tl: Timeline, d: Delay)
    requires Order(tl)
    ensures Order(Scheduled(tl, d))
    ensures AllAfter(tl.pending, tl.totalTicks) ==> AllAfter(Scheduled(tl, d).pending, tl.totalTicks)
  {
    hide Inserted, Sorted, IdsBelow, AllAfter, FiredBefore, FiredInOrder, OnTime;
    var p := Pending(tl.totalTicks + d, tl.nextId);
    InsertedSorted(tl.pending, p);
    AllAfterInserted(tl.pending, p, tl.totalTicks - SYSTEM_TICK);
    if AllAfter(tl.pending, tl.totalTicks) {
      AllAfterInserted(tl.pending, p, tl.totalTicks);
    }
    FiredBeforeInserted(tl.fired, tl.pending, p, tl.totalTicks);
  }

  lemma {:induction false} ScheduleAllKeepsOrder(tl: Timeline, delays: seq<Delay>)
    requires Order(tl)
    ensures Order(ScheduledAll(tl, delays))
  {
    hide Order, Scheduled;
    if delays != [] {
      ScheduleAllKeepsOrder(tl, delays[..|delays| - 1]);
      ScheduleKeepsOrder(ScheduledAll(tl, delays[..|delays| - 1]), delays[|delays| - 1]);
    }
  }

  lemma FireOneKeepsOrder(tl: Timeline, handlers: Handlers)
    requires Order(tl) && IsDue(tl)
    ensures Order(FireOne(tl, handlers))
  {
    hide Scheduled, ScheduledAll;
    var taken := tl.(pending := tl.pending[1..], fired := tl.fired + [Fired(tl.pending[0], tl.totalTicks)]);
    TakenKeepsOrder(tl, taken);
    ScheduleAllKeepsOrder(taken, handlers(|tl.fired|).delays);
  }

  lemma TakenKeepsOrder(tl: Timeline, taken: Timeline)
    requires Order(tl) && IsDue(tl)
    requires taken == tl.(pending := tl.pending[1..], fired := tl.fired + [Fired(tl.pending[0], tl.totalTicks)])
    ensures Order(taken)
  {
    assert tl.pending[0].when > tl.totalTicks - SYSTEM_TICK;
    forall i, j | 0 <= i < j < |taken.fired|
      ensures Before(taken.fired[i].interrupt, taken.fired[j].interrupt) && taken.fired[i].time <= taken.fired[j].time
    {
      if j == |tl.fired| {
        assert Before(tl.fired[i].interrupt, tl.pending[0]);
      }
    }
    forall i, j | 0 <= i < |taken.fired| && 0 <= j < |taken.pending|
      ensures Before(taken.fired[i].interrupt, taken.pending[j])
    {
      assert taken.pending[j] == tl.pending[j + 1];
      if i < |tl.fired| {
        assert Before(tl.fired[i].interrupt, tl.pending[j + 1]);
      } else {
        assert Before(tl.pending[0], tl.pending[j + 1]);
      }
    }
  }

  lemma {:induction false} FireDueRestoresInv(tl: Timeline, handlers: Handlers)
    requires Order(tl)
    ensures Inv(FireDue(tl, handlers)) && FireDue(tl, handlers).totalTicks == tl.totalTicks
    decreases CountDue(tl.pending, tl.totalTicks)
  {
    if IsDue(tl) {
      hide Order, FireOne;
      FireOneProgress(tl, handlers);
      FireOneKeepsOrder(tl, handlers);
      FireDueRestoresInv(FireOne(tl, handlers), handlers);
    }
  }

  lemma TickKeepsInv(tl: Timeline, handlers: Handlers, systemMode: bool)
    requires Inv(tl)
    ensures Inv(Ticked(tl, handlers, systemMode))
    ensures Ticked(tl, handlers, systemMode).totalTicks == tl.totalTicks + if systemMode then SYSTEM_TICK else USER_TICK
  {
    hide FireDue;
    var later := Later(tl, systemMode);
    assert Order(later);
    FireDueRestoresInv(later, handlers);
  }

  /** Idle time jumps exactly to the next interrupt, and that interrupt fires on time. */
  lemma IdleKeepsInv(tl: Timeline, handlers: Handlers)
    requires Inv(tl)
    ensures Inv(Checked(tl, handlers, true))
    ensures tl.pending != [] ==> Checked(tl, handlers, true).totalTicks == tl.pending[0].when
  {
    hide FireDue;
    if tl.pending != [] {
      var next := tl.pending[0].when;
      var later := tl.(idleTicks := tl.idleTicks + (next - tl.totalTicks), totalTicks := next);
      forall i | 0 <= i < |tl.pending|
        ensures tl.pending[i].when > next - SYSTEM_TICK
      {
        assert i == 0 || Before(tl.pending[0], tl.pending[i]);
      }
      assert Order(later);
      FireDueRestoresInv(later, handlers);
    }
  }

  // ---- nothing is lost and nothing fires twice ----

  ghost function Ids(list: seq<Pending>): multiset<nat> {
    if list == [] then multiset{} else multiset{list[0].id} + Ids(list[1..])
  }

  ghost function FiredIds(fired: seq<Fired>): multiset<nat> {
    if fired == [] then multiset{} else FiredIds(fired[..|fired| - 1]) + multiset{fired[|fired| - 1].interrupt.id}
  }

  ghost function Below(n: nat): multiset<nat> { if n == 0 then multiset{} else Below(n - 1) + multiset{n - 1} }

  /** Each interrupt ever scheduled is pending, or has fired, once. */
  ghost predicate Accounted(tl: Timeline) { Ids(tl.pending) + FiredIds(tl.fired) == Below(tl.nextId) }

  lemma {:induction false} IdsInserted(list: seq<Pending>, p: Pending)
    ensures Ids(Inserted(list, p)) == Ids(list) + multiset{p.id}
  {
    if list == [] || p.when < list[0].when {
      assert Inserted(list, p) == [p] + list;
      IdsCons(p, list);
    } else {
      IdsInserted(list[1..], p);
      IdsCons(list[0], Inserted(list[1..], p));
    }
  }

  lemma IdsCons(p: Pending, list: seq<Pending>)
    ensures Ids([p] + list) == multiset{p.id} + Ids(list)
  {
    assert ([p] + list)[1..] == list;
  }

  lemma ScheduleAccounted(tl: Timeline, d: Delay)
    requires Accounted(tl)
    ensures Accounted(Scheduled(tl, d))
  {
    hide Inserted, Ids;
    IdsInserted(tl.pending, Pending(tl.totalTicks + d, tl.nextId));
  }

  lemma {:induction false} ScheduleAllAccounted(tl: Timeline, delays: seq<Delay>)
    requires Accounted(tl)
    ensures Accounted(ScheduledAll(tl, delays))
  {
    hide Accounted, Scheduled;
    if delays != [] {
      ScheduleAllAccounted(tl, delays[..|delays| - 1]);
      ScheduleAccounted(ScheduledAll(tl, delays[..|delays| - 1]), delays[|delays| - 1]);
    }
  }

  lemma {:induction false} FireDueAccounted(tl: Timeline, handlers: Handlers)
    requires Accounted(tl)
    ensures Accounted(FireDue(tl, handlers))
    decreases CountDue(tl.pending, tl.totalTicks)
  {
    if IsDue(tl) {
      hide ScheduledAll;
      var taken := tl.(pending := tl.pending[1..], fired := tl.fired + [Fired(tl.pending[0], tl.totalTicks)]);
      assert taken.fired[..|taken.fired| - 1] == tl.fired;
      ScheduleAllAccounted(taken, handlers(|tl.fired|).delays);
      FireOneProgress(tl, handlers);
      FireDueAccounted(FireOne(tl, handlers), handlers);
    }
  }

  // ---- every run ----

  datatype Operation = Schedule(fromNow: Delay) | Tick(systemMode: bool) | Idle

  function Apply(tl: Timeline, handlers: Handlers, op: Operation): Timeline {
    match op
    case Schedule(d) => Scheduled(tl, d)
    case Tick(systemMode) => Ticked(tl, handlers, systemMode)
    case Idle => Checked(tl, handlers, true)
  }

  function Run(tl: Timeline, handlers: Handlers, ops: seq<Operation>): Timeline {
    if ops == [] then tl else Apply(Run(tl, handlers, ops[..|ops| - 1]), handlers, ops[|ops| - 1])
  }

  function Start(): Timeline { Timeline([], 0, 0, 0, 0, false, [], 0) }

  lemma StartInv()
    ensures Inv(Start()) && Accounted(Start())
  {
  }

  lemma ApplyKeepsInv(tl: Timeline, handlers: Handlers, op: Operation)
    requires Inv(tl) && Accounted(tl)
    ensures Inv(Apply(tl, handlers, op)) && Accounted(Apply(tl, handlers, op))
  {
    hide Order, Accounted, FireDue, AllAfter;
    match op
    case Schedule(d) =>
      ScheduleKeepsOrder(tl, d);
      ScheduleAccounted(tl, d);
    case Tick(systemMode) =>
      TickKeepsInv(tl, handlers, systemMode);
      TickAccounted(tl, handlers, systemMode);
    case Idle =>
      IdleKeepsInv(tl, handlers);
      if tl.pending != [] {
        IdleAccounted(tl, handlers);
      }
  }

  lemma TickAccounted(tl: Timeline, handlers: Handlers, systemMode: bool)
    requires Accounted(tl)
    ensures Accounted(Ticked(tl, handlers, systemMode))
  {
    hide FireDue;
    var later := Later(tl, systemMode);
    FireDueAccounted(later, handlers);
  }

  lemma IdleAccounted(tl: Timeline, handlers: Handlers)
    requires Accounted(tl) && tl.pending != []
    ensures Accounted(Checked(tl, handlers, true))
  {
    hide FireDue;
    FireDueAccounted(tl, handlers);
    if tl.pending[0].when > tl.totalTicks {
      var jump := tl.pending[0].when - tl.totalTicks;
      FireDueAccounted(tl.(idleTicks := tl.idleTicks + jump, totalTicks := tl.pending[0].when), handlers);
    }
  }

  /**
   After any run: what is pending lies strictly in the future, what fired fired in order of due
   time with ties in scheduling order, never early and less than a system tick late, every
   interrupt scheduled is in exactly one of the two, and the three tick counts add up.
   */
  lemma {:induction false} RunKeepsInv(handlers: Handlers, ops: seq<Operation>)
    ensures Inv(Run(Start(), handlers, ops)) && Accounted(Run(Start(), handlers, ops))
  {
    hide Apply, Inv, Accounted;
    if ops == [] {
      StartInv();
    } else {
      RunKeepsInv(handlers, ops[..|ops| - 1]);
      ApplyKeepsInv(Run(Start(), handlers, ops[..|ops| - 1]), handlers, ops[|ops| - 1]);
    }
  }

  // ---- what was asked for: each delay, from the clock at the time of asking ----

  /** Every interrupt there has been: pending, or fired. */
  function Seen(tl: Timeline): set<Pending> { (set p | p in tl.pending) + (set f | f in tl.fired :: f.interrupt) }

  /** tl' came after tl: what it knows of ids given out before, tl knew. */
  ghost predicate Came(tl: Timeline, tl': Timeline) {
    && tl.nextId <= tl'.nextId && tl.fired <= tl'.fired
    && (forall p :: p in Seen(tl') && p.id < tl.nextId ==> p in Seen(tl))
    && ((forall p :: p in Seen(tl) ==> p.id < tl.nextId) ==> forall p :: p in Seen(tl') ==> p.id < tl'.nextId)
  }

  lemma CameTwice(a: Timeline, b: Timeline, c: Timeline)
    requires Came(a, b) && Came(b, c)
    ensures Came(a, c)
  {
  }

  lemma CameBySchedule(tl: Timeline, d: Delay)
    ensures Came(tl, Scheduled(tl, d))
    ensures Seen(Scheduled(tl, d)) == Seen(tl) + {Pending(tl.totalTicks + d, tl.nextId)}
  {
    hide Inserted;
    var p := Pending(tl.totalTicks + d, tl.nextId);
    forall q
      ensures q in Inserted(tl.pending, p) <==> q == p || q in tl.pending
    {
      InsertedAll(tl.pending, p, q);
    }
  }

  lemma {:induction false} CameByScheduleAll(tl: Timeline, delays: seq<Delay>)
    ensures Came(tl, ScheduledAll(tl, delays))
  {
    hide Scheduled, Seen;
    if delays != [] {
      var before := ScheduledAll(tl, delays[..|delays| - 1]);
      CameByScheduleAll(tl, delays[..|delays| - 1]);
      CameBySchedule(before, delays[|delays| - 1]);
      CameTwice(tl, before, ScheduledAll(tl, delays));
    }
  }

  function Taken(tl: Timeline): Timeline
    requires tl.pending != []
  {
    tl.(pending := tl.pending[1..], fired := tl.fired + [Fired(tl.pending[0], tl.totalTicks)])
  }

  lemma CameByTaking(tl: Timeline)
    requires tl.pending != []
    ensures Came(tl, Taken(tl)) && Seen(Taken(tl)) == Seen(tl)
  {
    var taken := Taken(tl);
    forall p
      ensures p in Seen(taken) <==> p in Seen(tl)
    {
      assert tl.pending == [tl.pending[0]] + tl.pending[1..];
      assert taken.fired[|tl.fired|] in taken.fired;
      if p in Seen(tl) && p !in tl.pending {
        var f :| f in tl.fired && f.interrupt == p;
        assert f in taken.fired;
      }
    }
  }

  lemma CameByFiring(tl: Timeline, handlers: Handlers)
    requires tl.pending != []
    ensures Came(tl, FireOne(tl, handlers))
  {
    hide Seen, Scheduled;
    var delays := handlers(|tl.fired|).delays;
    var done := ScheduledAll(Taken(tl), delays);
    CameByTaking(tl);
    CameByScheduleAll(Taken(tl), delays);
    CameTwice(tl, Taken(tl), done);
    YieldIsNoInterrupt(done, FireOne(tl, handlers));
    CameTwice(tl, done, FireOne(tl, handlers));
  }

  lemma YieldIsNoInterrupt(tl: Timeline, tl': Timeline)
    requires tl'.pending == tl.pending && tl'.fired == tl.fired && tl'.nextId == tl.nextId
    ensures Came(tl, tl') && Seen(tl') == Seen(tl)
  {
  }

  lemma {:induction false} CameByFiringDue(tl: Timeline, handlers: Handlers)
    ensures Came(tl, FireDue(tl, handlers))
    decreases CountDue(tl.pending, tl.totalTicks)
  {
    hide Came, FireOne;
    if IsDue(tl) {
      FireOneProgress(tl, handlers);
      CameByFiring(tl, handlers);
      CameByFiringDue(FireOne(tl, handlers), handlers);
      CameTwice(tl, FireOne(tl, handlers), FireDue(tl, handlers));
    } else {
      YieldIsNoInterrupt(tl, tl);
    }
  }

  lemma CameByOperation(tl: Timeline, handlers: Handlers, op: Operation)
    ensures Came(tl, Apply(tl, handlers, op))
  {
    hide Came, FireDue, Scheduled;
    match op
    case Schedule(d) => CameBySchedule(tl, d);
    case Tick(systemMode) =>
      var later := Later(tl, systemMode);
      var done := Checked(later, handlers, false);
      YieldIsNoInterrupt(tl, later);
      CameByChecking(later, handlers, false);
      YieldIsNoInterrupt(done, done.(yieldOnReturn := false));
      CameTwice(tl, later, done);
      CameTwice(tl, done, done.(yieldOnReturn := false));
    case Idle => CameByChecking(tl, handlers, true);
  }

  lemma CameByChecking(tl: Timeline, handlers: Handlers, advanceClock: bool)
    ensures Came(tl, Checked(tl, handlers, advanceClock))
  {
    hide Came, FireDue;
    YieldIsNoInterrupt(tl, tl);
    CameByFiringDue(tl, handlers);
    if tl.pending != [] && tl.pending[0].when > tl.totalTicks {
      var jump := tl.pending[0].when - tl.totalTicks;
      var later := tl.(idleTicks := tl.idleTicks + jump, totalTicks := tl.pending[0].when);
      YieldIsNoInterrupt(tl, later);
      CameByFiringDue(later, handlers);
      CameTwice(tl, later, FireDue(later, handlers));
    }
  }

  /** Interrupt i, if it is anywhere, is due at w. */
  ghost predicate DueAt(tl: Timeline, i: nat, w: nat) {
    i < tl.nextId && forall p :: p in Seen(tl) && p.id == i ==> p.when == w
  }

  lemma DueStays(tl: Timeline, tl': Timeline, i: nat, w: nat)
    requires DueAt(tl, i, w) && Came(tl, tl')
    ensures DueAt(tl', i, w)
  {
  }

  ghost predicate IdsGiven(tl: Timeline) { forall p :: p in Seen(tl) ==> p.id < tl.nextId }

  lemma ScheduledIsDue(tl: Timeline, d: Delay)
    requires IdsGiven(tl)
    ensures DueAt(Scheduled(tl, d), tl.nextId, tl.totalTicks + d)
  {
    hide Inserted;
    CameBySchedule(tl, d);
  }

  /** Interrupt i, asked for w: never fired before w nor a system tick after; pending only before w; fired once w has come. */
  ghost predicate OnTimeFor(tl: Timeline, i: nat, w: nat) {
    && i < tl.nextId
    && (forall f :: f in tl.fired && f.interrupt.id == i ==> w <= f.time < w + SYSTEM_TICK)
    && (forall p :: p in tl.pending && p.id == i ==> tl.totalTicks < w)
    && (tl.totalTicks >= w ==> exists f :: f in tl.fired && f.interrupt.id == i)
  }

  lemma {:induction false} InIds(list: seq<Pending>, i: nat)
    requires i in Ids(list)
    ensures exists p :: p in list && p.id == i
  {
    if list[0].id == i {
      assert list[0] in list;
    } else {
      InIds(list[1..], i);
      var p :| p in list[1..] && p.id == i;
      assert p in list;
    }
  }

  lemma {:induction false} InFiredIds(fired: seq<Fired>, i: nat)
    requires i in FiredIds(fired)
    ensures exists f :: f in fired && f.interrupt.id == i
  {
    var n := |fired| - 1;
    if fired[n].interrupt.id == i {
      assert fired[n] in fired;
    } else {
      InFiredIds(fired[..n], i);
      var f :| f in fired[..n] && f.interrupt.id == i;
      assert f in fired;
    }
  }

  lemma {:induction false} IsBelow(i: nat, n: nat)
    requires i < n
    ensures i in Below(n)
  {
    if i < n - 1 {
      IsBelow(i, n - 1);
    }
  }

  lemma DueMeansOnTime(tl: Timeline, i: nat, w: nat)
    requires Inv(tl) && Accounted(tl) && DueAt(tl, i, w)
    ensures OnTimeFor(tl, i, w)
  {
    hide Ids, FiredIds, Below, Sorted, FiredInOrder, FiredBefore;
    forall f | f in tl.fired && f.interrupt.id == i
      ensures w <= f.time < w + SYSTEM_TICK
    {
      assert f.interrupt in Seen(tl);
    }
    forall p | p in tl.pending && p.id == i
      ensures tl.totalTicks < w
    {
      assert p in Seen(tl);
    }
    IsBelow(i, tl.nextId);
    assert i in Ids(tl.pending) || i in FiredIds(tl.fired);
    if i in FiredIds(tl.fired) {
      InFiredIds(tl.fired, i);
    } else {
      InIds(tl.pending, i);
    }
  }

  lemma {:induction false} RunIdsGiven(handlers: Handlers, ops: seq<Operation>)
    ensures IdsGiven(Run(Start(), handlers, ops))
  {
    hide Apply, Seen;
    if ops == [] {
      NothingSeen();
    } else {
      RunIdsGiven(handlers, ops[..|ops| - 1]);
      CameByOperation(Run(Start(), handlers, ops[..|ops| - 1]), handlers, ops[|ops| - 1]);
    }
  }

  lemma NothingSeen()
    ensures Seen(Start()) == {}
  {
  }

  lemma {:induction false} CameByRun(handlers: Handlers, ops: seq<Operation>, k: nat)
    requires k <= |ops|
    ensures Came(Run(Start(), handlers, ops[..k]), Run(Start(), handlers, ops))
  {
    hide Apply, Came;
    if k == |ops| {
      assert ops[..k] == ops;
      YieldIsNoInterrupt(Run(Start(), handlers, ops), Run(Start(), handlers, ops));
    } else {
      var front := ops[..|ops| - 1];
      CameByRun(handlers, front, k);
      assert front[..k] == ops[..k];
      CameByOperation(Run(Start(), handlers, front), handlers, ops[|ops| - 1]);
      CameTwice(Run(Start(), handlers, ops[..k]), Run(Start(), handlers, front), Run(Start(), handlers, ops));
    }
  }

  /**
   In every run with any handlers: an interrupt asked for d ticks from now fires at a time in
   [now + d, now + d + SystemTick), and is no longer pending once the clock is at now + d.
   */
  lemma ScheduledFiresOnTime(handlers: Handlers, ops: seq<Operation>, k: nat)
    requires k < |ops| && ops[k].Schedule?
    ensures var then_ := Run(Start(), handlers, ops[..k]);
            OnTimeFor(Run(Start(), handlers, ops), then_.nextId, then_.totalTicks + ops[k].fromNow)
  {
    hide Inv, Accounted, OnTimeFor, DueAt, Came, IdsGiven, Scheduled;
    var then_ := Run(Start(), handlers, ops[..k]);
    assert ops[..k + 1][..k] == ops[..k];
    assert Run(Start(), handlers, ops[..k + 1]) == Scheduled(then_, ops[k].fromNow);
    RunIdsGiven(handlers, ops[..k]);
    ScheduledIsDue(then_, ops[k].fromNow);
    CameByRun(handlers, ops, k + 1);
    var now := Run(Start(), handlers, ops);
    DueStays(Scheduled(then_, ops[k].fromNow), now, then_.nextId, then_.totalTicks + ops[k].fromNow);
    RunKeepsInv(handlers, ops);
    DueMeansOnTime(now, then_.nextId, then_.totalTicks + ops[k].fromNow);
  }

  // ---- the delays handlers ask for ----

  /** The delays that the m-th handler asked for, when it ran, are due under the ids from i on. */
  ghost predicate Served(tl: Timeline, handlers: Handlers, m: nat, i: nat)
    requires m < |tl.fired|
  {
    forall j :: 0 <= j < |handlers(m).delays| ==> DueAt(tl, i + j, tl.fired[m].time + handlers(m).delays[j])
  }

  ghost predicate AllServed(tl: Timeline, handlers: Handlers) {
    forall m :: 0 <= m < |tl.fired| ==> IsServed(tl, handlers, m)
  }

  ghost predicate IsServed(tl: Timeline, handlers: Handlers, m: nat)
    requires m < |tl.fired|
  {
    exists i: nat :: Served(tl, handlers, m, i)
  }

  lemma ServedStays(tl: Timeline, tl': Timeline, handlers: Handlers)
    requires AllServed(tl, handlers) && Came(tl, tl') && tl'.fired == tl.fired
    ensures AllServed(tl', handlers)
  {
    hide Seen;
    forall m | 0 <= m < |tl'.fired|
      ensures IsServed(tl', handlers, m)
    {
      assert IsServed(tl, handlers, m);
      var i: nat :| Served(tl, handlers, m, i);
      ServedLater(tl, tl', handlers, m, i);
    }
  }

  lemma ServedLater(tl: Timeline, tl': Timeline, handlers: Handlers, m: nat, i: nat)
    requires m < |tl.fired| && Served(tl, handlers, m, i) && Came(tl, tl')
    ensures m < |tl'.fired| && Served(tl', handlers, m, i)
  {
    hide Seen;
    assert tl'.fired[m] == tl.fired[m];
    forall j | 0 <= j < |handlers(m).delays|
      ensures DueAt(tl', i + j, tl'.fired[m].time + handlers(m).delays[j])
    {
      DueStays(tl, tl', i + j, tl.fired[m].time + handlers(m).delays[j]);
    }
  }

  lemma {:induction false} ScheduledAllAreDue(tl: Timeline, delays: seq<Delay>, j: nat)
    requires IdsGiven(tl) && j < |delays|
    ensures ScheduledAll(tl, delays).nextId == tl.nextId + |delays|
    ensures DueAt(ScheduledAll(tl, delays), tl.nextId + j, tl.totalTicks + delays[j])
  {
    hide Seen, Inserted;
    var n := |delays| - 1;
    var before := ScheduledAll(tl, delays[..n]);
    ScheduledAllCountDue(tl, delays[..n]);
    CameByScheduleAll(tl, delays[..n]);
    NextIdAfter(tl, delays[..n]);
    if j == n {
      ScheduledIsDue(before, delays[n]);
    } else {
      ScheduledAllAreDue(tl, delays[..n], j);
      CameBySchedule(before, delays[n]);
      DueStays(before, ScheduledAll(tl, delays), tl.nextId + j, tl.totalTicks + delays[j]);
    }
  }

  lemma {:induction false} NextIdAfter(tl: Timeline, delays: seq<Delay>)
    ensures ScheduledAll(tl, delays).nextId == tl.nextId + |delays|
  {
    hide Inserted;
    if delays != [] {
      NextIdAfter(tl, delays[..|delays| - 1]);
    }
  }

  lemma FiringServes(tl: Timeline, handlers: Handlers)
    requires tl.pending != [] && IdsGiven(tl) && AllServed(tl, handlers)
    ensures AllServed(FireOne(tl, handlers), handlers)
  {
    hide Seen, Came, DueAt, Scheduled;
    var tl', m := FireOne(tl, handlers), |tl.fired|;
    var delays := handlers(m).delays;
    var taken, done := Taken(tl), ScheduledAll(Taken(tl), delays);
    CameByTaking(tl);
    ScheduledAllCountDue(taken, delays);
    YieldIsNoInterrupt(done, tl');
    forall j | 0 <= j < |delays|
      ensures DueAt(tl', tl.nextId + j, tl'.fired[m].time + delays[j])
    {
      ScheduledAllAreDue(taken, delays, j);
      DueStays(done, tl', tl.nextId + j, tl.totalTicks + delays[j]);
    }
    assert Served(tl', handlers, m, tl.nextId);
    CameByFiring(tl, handlers);
    forall k | 0 <= k < |tl'.fired|
      ensures IsServed(tl', handlers, k)
    {
      if k < m {
        assert IsServed(tl, handlers, k);
        var i: nat :| Served(tl, handlers, k, i);
        ServedLater(tl, tl', handlers, k, i);
      }
    }
  }

  lemma IdsStayGiven(tl: Timeline, tl': Timeline)
    requires IdsGiven(tl) && Came(tl, tl')
    ensures IdsGiven(tl')
  {
  }

  lemma {:induction false} FiringDueServes(tl: Timeline, handlers: Handlers)
    requires IdsGiven(tl) && AllServed(tl, handlers)
    ensures AllServed(FireDue(tl, handlers), handlers)
    decreases CountDue(tl.pending, tl.totalTicks)
  {
    hide FireOne, Came, IdsGiven, AllServed;
    if IsDue(tl) {
      FireOneProgress(tl, handlers);
      FiringServes(tl, handlers);
      CameByFiring(tl, handlers);
      IdsStayGiven(tl, FireOne(tl, handlers));
      FiringDueServes(FireOne(tl, handlers), handlers);
    }
  }

  lemma CheckingServes(tl: Timeline, handlers: Handlers, advanceClock: bool)
    requires IdsGiven(tl) && AllServed(tl, handlers)
    ensures AllServed(Checked(tl, handlers, advanceClock), handlers)
  {
    hide FireDue, Came, IdsGiven, AllServed;
    FiringDueServes(tl, handlers);
    if tl.pending != [] && tl.pending[0].when > tl.totalTicks {
      var jump := tl.pending[0].when - tl.totalTicks;
      var later := tl.(idleTicks := tl.idleTicks + jump, totalTicks := tl.pending[0].when);
      YieldIsNoInterrupt(tl, later);
      IdsStayGiven(tl, later);
      ServedStays(tl, later, handlers);
      FiringDueServes(later, handlers);
    }
  }

  lemma OperationServes(tl: Timeline, handlers: Handlers, op: Operation)
    requires IdsGiven(tl) && AllServed(tl, handlers)
    ensures AllServed(Apply(tl, handlers, op), handlers)
  {
    hide Came, IdsGiven, AllServed, Checked, Inserted;
    match op
    case Schedule(d) =>
      CameBySchedule(tl, d);
      ServedStays(tl, Scheduled(tl, d), handlers);
    case Tick(systemMode) =>
      var later := Later(tl, systemMode);
      var done := Checked(later, handlers, false);
      YieldIsNoInterrupt(tl, later);
      IdsStayGiven(tl, later);
      ServedStays(tl, later, handlers);
      CheckingServes(later, handlers, false);
      YieldIsNoInterrupt(done, done.(yieldOnReturn := false));
      ServedStays(done, done.(yieldOnReturn := false), handlers);
    case Idle => CheckingServes(tl, handlers, true);
  }

  lemma {:induction false} RunServes(handlers: Handlers, ops: seq<Operation>)
    ensures AllServed(Run(Start(), handlers, ops), handlers)
  {
    hide Apply, IdsGiven, DueAt;
    if ops != [] {
      RunServes(handlers, ops[..|ops| - 1]);
      RunIdsGiven(handlers, ops[..|ops| - 1]);
      OperationServes(Run(Start(), handlers, ops[..|ops| - 1]), handlers, ops[|ops| - 1]);
    }
  }

  /** The delays that the m-th handler asked for are on time, under the ids from i on, from the time it ran. */
  ghost predicate AskedFrom(tl: Timeline, handlers: Handlers, m: nat, i: nat)
    requires m < |tl.fired|
  {
    forall j :: 0 <= j < |handlers(m).delays| ==> OnTimeFor(tl, i + j, tl.fired[m].time + handlers(m).delays[j])
  }

  /** The same for the delays handlers ask for: from the time the handler ran. */
  lemma HandlerDelaysOnTime(handlers: Handlers, ops: seq<Operation>, m: nat)
    requires m < |Run(Start(), handlers, ops).fired|
    ensures var now := Run(Start(), handlers, ops);
            exists i: nat :: AskedFrom(now, handlers, m, i)
  {
    hide Inv, Accounted, OnTimeFor, DueAt, Run;
    var now := Run(Start(), handlers, ops);
    RunServes(handlers, ops);
    RunKeepsInv(handlers, ops);
    assert IsServed(now, handlers, m);
    var i: nat :| Served(now, handlers, m, i);
    forall j | 0 <= j < |handlers(m).delays|
      ensures OnTimeFor(now, i + j, now.fired[m].time + handlers(m).delays[j])
    {
      DueMeansOnTime(now, i + j, now.fired[m].time + handlers(m).delays[j]);
    }
    assert AskedFrom(now, handlers, m, i);
  }

  // ---- ticks ----

  function CountTicks(ops: seq<Operation>, systemMode: bool): nat {
    if ops == [] then 0 else CountTicks(ops[..|ops| - 1], systemMode) + if ops[|ops| - 1] == Tick(systemMode) then 1 else 0
  }

  lemma {:induction false} FiringTakesNoTime(tl: Timeline, handlers: Handlers)
    ensures var tl' := FireDue(tl, handlers);
            tl'.systemTicks == tl.systemTicks && tl'.userTicks == tl.userTicks && tl'.idleTicks == tl.idleTicks && tl'.totalTicks == tl.totalTicks
    decreases CountDue(tl.pending, tl.totalTicks)
  {
    hide ScheduledAll;
    if IsDue(tl) {
      FireOneProgress(tl, handlers);
      ScheduledAllCountDue(Taken(tl), handlers(|tl.fired|).delays);
      FiringTakesNoTime(FireOne(tl, handlers), handlers);
    }
  }

  /** Over every run, system and user ticks count their own ticks, and the rest of the time is idle. */
  lemma {:induction false} TicksCounted(handlers: Handlers, ops: seq<Operation>)
    ensures var tl := Run(Start(), handlers, ops);
            && tl.systemTicks == SYSTEM_TICK * CountTicks(ops, true)
            && tl.userTicks == USER_TICK * CountTicks(ops, false)
            && tl.idleTicks == tl.totalTicks - tl.systemTicks - tl.userTicks
  {
    hide FireDue, Inserted, Order, AllAfter;
    if ops != [] {
      TicksCounted(handlers, ops[..|ops| - 1]);
      OperationTicks(Run(Start(), handlers, ops[..|ops| - 1]), handlers, ops[|ops| - 1]);
    }
  }

  lemma OperationTicks(tl: Timeline, handlers: Handlers, op: Operation)
    ensures var tl' := Apply(tl, handlers, op);
            && tl'.systemTicks == tl.systemTicks + (if op == Tick(true) then SYSTEM_TICK else 0)
            && tl'.userTicks == tl.userTicks + (if op == Tick(false) then USER_TICK else 0)
            && tl'.totalTicks - tl'.idleTicks - tl'.systemTicks - tl'.userTicks == tl.totalTicks - tl.idleTicks - tl.systemTicks - tl.userTicks
  {
    hide FireDue, Inserted;
    match op
    case Schedule(_) =>
    case Tick(systemMode) => FiringTakesNoTime(Later(tl, systemMode), handlers);
    case Idle =>
      FiringTakesNoTime(tl, handlers);
      if tl.pending != [] && tl.pending[0].when > tl.totalTicks {
        var jump := tl.pending[0].when - tl.totalTicks;
        FiringTakesNoTime(tl.(idleTicks := tl.idleTicks + jump, totalTicks := tl.pending[0].when), handlers);
      }
  }

  // ---- yielding ----

  /** One of the handlers numbered from up to until, in the order they ran, asked for a yield. */
  ghost predicate Asked(handlers: Handlers, from: nat, until: nat) { exists m: nat :: from <= m < until && handlers(m).asksYield }

  lemma FireOneYields(tl: Timeline, handlers: Handlers)
    requires tl.pending != []
    ensures var tl' := FireOne(tl, handlers);
            |tl'.fired| == |tl.fired| + 1 && (tl'.yieldOnReturn <==> tl.yieldOnReturn || handlers(|tl.fired|).asksYield)
  {
    hide ScheduledAll;
    ScheduledAllCountDue(Taken(tl), handlers(|tl.fired|).delays);
  }

  lemma {:induction false} FireDueYields(tl: Timeline, handlers: Handlers)
    ensures var tl' := FireDue(tl, handlers);
            |tl.fired| <= |tl'.fired| && (tl'.yieldOnReturn <==> tl.yieldOnReturn || Asked(handlers, |tl.fired|, |tl'.fired|))
    decreases CountDue(tl.pending, tl.totalTicks)
  {
    hide FireOne;
    if IsDue(tl) {
      FireOneProgress(tl, handlers);
      FireOneYields(tl, handlers);
      FireDueYields(FireOne(tl, handlers), handlers);
    }
  }

  lemma CheckingYields(tl: Timeline, handlers: Handlers, advanceClock: bool)
    ensures var tl' := Checked(tl, handlers, advanceClock);
            |tl.fired| <= |tl'.fired| && (tl'.yieldOnReturn <==> tl.yieldOnReturn || Asked(handlers, |tl.fired|, |tl'.fired|))
  {
    hide FireDue;
    FireDueYields(tl, handlers);
    if tl.pending != [] && tl.pending[0].when > tl.totalTicks {
      var jump := tl.pending[0].when - tl.totalTicks;
      FireDueYields(tl.(idleTicks := tl.idleTicks + jump, totalTicks := tl.pending[0].when), handlers);
    }
  }

  /** How many interrupts had fired by the end of the latest tick. */
  ghost function FiredByTick(handlers: Handlers, ops: seq<Operation>): nat {
    if ops == [] then 0
    else if ops[|ops| - 1].Tick? then |Run(Start(), handlers, ops).fired|
    else FiredByTick(handlers, ops[..|ops| - 1])
  }

  lemma {:induction false} YieldIsPending(handlers: Handlers, ops: seq<Operation>)
    ensures var tl, from := Run(Start(), handlers, ops), FiredByTick(handlers, ops);
            from <= |tl.fired| && (tl.yieldOnReturn <==> Asked(handlers, from, |tl.fired|))
  {
    hide Checked, Inserted;
    if ops != [] {
      var before := Run(Start(), handlers, ops[..|ops| - 1]);
      YieldIsPending(handlers, ops[..|ops| - 1]);
      CheckingYields(before, handlers, true);
    }
  }

  /** In every run, a tick makes the thread yield exactly if a handler that ran since the tick before asked for it. */
  lemma YieldIffAsked(handlers: Handlers, ops: seq<Operation>, systemMode: bool)
    ensures var tl, tl' := Run(Start(), handlers, ops), Run(Start(), handlers, ops + [Tick(systemMode)]);
            MustYield(tl, handlers, systemMode) <==> Asked(handlers, FiredByTick(handlers, ops), |tl'.fired|)
  {
    hide Checked, Inserted;
    var tl := Run(Start(), handlers, ops);
    assert (ops + [Tick(systemMode)])[..|ops|] == ops;
    YieldIsPending(handlers, ops);
    CheckingYields(Later(tl, systemMode), handlers, false);
  }

  // ---- the class ----

  datatype Level = IntOff | IntOn
  datatype Status = IdleMode | SystemMode | UserMode

  class Interrupt {
    var level: Level
    var status: Status
    var inHandler: bool
    var yieldOnReturn: bool
    var pending: seq<Pending>
    var totalTicks: nat
    var idleTicks: nat
    var systemTicks: nat
    var userTicks: nat
    const handlers: Handlers
    ghost var fired: seq<Fired>
    var nextId: nat
    var numFired: nat

    ghost function View(): Timeline
      reads this
    {
      Timeline(pending, totalTicks, idleTicks, systemTicks, userTicks, yieldOnReturn, fired, nextId)
    }

    ghost predicate Valid()
      reads this
    {
      numFired == |fired|
    }

    constructor (hs: Handlers)
      ensures Valid() && View() == Start() && handlers == hs && level == IntOff && status == SystemMode && !inHandler
    {
      level, status, inHandler, yieldOnReturn := IntOff, SystemMode, false, false;
      pending, totalTicks, idleTicks, systemTicks, userTicks := [], 0, 0, 0, 0;
      handlers, fired, nextId, numFired := hs, [], 0, 0;
    }

    method ScheduleInterrupt(fromNow: Delay)
      requires Valid()
      modifies this`pending, this`nextId
      ensures Valid() && View() == Scheduled(old(View()), fromNow)
      ensures var p := Pending(totalTicks + fromNow, old(nextId));
              var k := Place(old(pending), p);
              && k <= |old(pending)| && pending == old(pending)[..k] + [p] + old(pending)[k..]
              && (forall i :: 0 <= i < k ==> old(pending)[i].when <= totalTicks + fromNow)
              && (k < |old(pending)| ==> totalTicks + fromNow < old(pending)[k].when)
    {
      InsertedAtPlace(pending, Pending(totalTicks + fromNow, nextId));
      pending := Inserted(pending, Pending(totalTicks + fromNow, nextId));
      nextId := nextId + 1;
    }

    /** The handler of the interrupt just taken off the list. */
    method CallBack()
      requires Valid() && inHandler && numFired > 0
      modifies this`pending, this`nextId, this`yieldOnReturn
      ensures Valid()
      ensures var effect := handlers(numFired - 1);
              var done := ScheduledAll(old(View()), effect.delays);
              View() == done.(yieldOnReturn := done.yieldOnReturn || effect.asksYield)
    {
      var effect := handlers(numFired - 1);
      for i := 0 to |effect.delays|
        invariant Valid() && View() == ScheduledAll(old(View()), effect.delays[..i])
      {
        ScheduleInterrupt(effect.delays[i]);
        assert effect.delays[..i + 1][..i] == effect.delays[..i];
      }
      assert effect.delays[..|effect.delays|] == effect.delays;
      if effect.asksYield {
        yieldOnReturn := true;
      }
    }

    /** The loop that runs the handlers that are due. */
    method FireInterrupts()
      requires Valid() && inHandler
      modifies this`yieldOnReturn, this`pending, this`fired, this`nextId, this`numFired
      ensures Valid() && View() == FireDue(old(View()), handlers)
    {
      hide FireDue, ScheduledAll, Inserted, CountDue;
      while pending != [] && pending[0].when <= totalTicks
        invariant Valid() && FireDue(View(), handlers) == FireDue(old(View()), handlers)
        decreases CountDue(pending, totalTicks)
      {
        FireOneProgress(View(), handlers);
        FireDueStep(View(), handlers);
        ghost var before := View();
        var next := pending[0];
        pending, numFired := pending[1..], numFired + 1;
        fired := fired + [Fired(next, totalTicks)];
        CallBack();
        assert View() == FireOne(before, handlers);
      }
      FireDueStep(View(), handlers);
    }

    method CheckIfDue(advanceClock: bool) returns (any: bool)
      requires Valid() && level == IntOff && !inHandler
      modifies this`inHandler, this`yieldOnReturn, this`pending, this`totalTicks, this`idleTicks, this`fired, this`nextId, this`numFired
      ensures Valid() && !inHandler
      ensures View() == Checked(old(View()), handlers, advanceClock)
      ensures any <==> old(pending) != [] && (advanceClock || old(pending[0].when <= totalTicks))
    {
      hide FireDue;
      if pending == [] {
        return false;
      }
      if pending[0].when > totalTicks {
        if !advanceClock {
          return false;
        }
        idleTicks := idleTicks + (pending[0].when - totalTicks);
        totalTicks := pending[0].when;
      }
      inHandler := true;
      FireInterrupts();
      inHandler := false;
      return true;
    }

    /** One tick; says whether the interrupted thread must now yield. */
    method OneTick() returns (yield_: bool)
      requires Valid() && !inHandler
      modifies this
      ensures Valid() && !inHandler && status == old(status) && level == IntOn
      ensures View() == Ticked(old(View()), handlers, old(status) == SystemMode)
      ensures yield_ == MustYield(old(View()), handlers, old(status) == SystemMode)
    {
      hide Checked;
      if status == SystemMode {
        totalTicks, systemTicks := totalTicks + SYSTEM_TICK, systemTicks + SYSTEM_TICK;
      } else {
        totalTicks, userTicks := totalTicks + USER_TICK, userTicks + USER_TICK;
      }
      level := IntOff;
      var _ := CheckIfDue(false);
      level := IntOn;
      yield_ := yieldOnReturn;
      yieldOnReturn := false;
    }

    method SetLevel(now: Level) returns (old_: Level, yield_: bool)
      requires Valid() && !inHandler
      modifies this
      ensures Valid() && !inHandler && old_ == old(level) && level == now
      ensures View() == if now == IntOn && old(level) == IntOff then Ticked(old(View()), handlers, old(status) == SystemMode) else old(View())
      ensures yield_ <==> now == IntOn && old(level) == IntOff && MustYield(old(View()), handlers, old(status) == SystemMode)
    {
      old_, yield_ := level, false;
      level := now;
      if now == IntOn && old_ == IntOff {
        yield_ := OneTick();
      }
    }

    /** False: nothing is pending and the machine halts. */
    method Idle() returns (any: bool)
      requires Valid() && !inHandler && level == IntOff
      modifies this
      ensures Valid() && !inHandler && View() == Checked(old(View()), handlers, true)
      ensures any <==> old(pending) != []
      ensures any ==> status == SystemMode
    {
      status := IdleMode;
      any := CheckIfDue(true);
      if any {
        status := SystemMode;
      }
    }
  }
}
