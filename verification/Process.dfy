/**
 The process table of threads/ptable.cc and threads/pcb.cc: Exec takes a slot, Join waits for
 a child and reads its exit code, Exit hands the code over and clears the slot.  Every process
 may be interrupted between any two of its statements.
 */
module Processes {
  import opened Semaphores

  const MAX_PROCESS := 10

  /** Where a process is in ExecUpdate, JoinUpdate or ExitUpdate. */
  datatype Pc =
    | Running
    | Creating(slot: nat)                        // Exec: slot reserved, PCB not yet made
    | Joining(child: nat, born: nat)             // Join: in P on the child's joinsem
    | Joined(child: nat, born: nat)              // Join: past that P
    | Read(child: nat, born: nat, code: int)     // Join: has the exit code, has not released the child
    | Exiting                                    // Exit: exit code stored
    | Counted                                    // Exit: the parent's numwait lowered
    | Leaving                                    // Exit: parent released, in P on the own exitsem
    | Removing                                   // Exit: past that P

  /**
   parent is a slot number.  born numbers the processes in order of creation, parentBorn is the
   creator's number, and joined records that a Join of it was begun.
   */
  datatype Pcb = Pcb(
    parent: int,
    exitCode: int,
    numWait: nat,
    joinsem: Sem,
    exitsem: Sem,
    pc: Pc,
    born: nat,
    parentBorn: int,
    joined: bool)

  /** bm and pcb[]: a slot is marked from the moment Exec reserves it. */
  datatype Slot = Free | Reserved | Used(pcb: Pcb)

  /**
   faulted: a PCB that has been deleted was used.  count, exits and seen are history: how many were
   born, the code each exited with, the code a Join read of it.
   */
  datatype Table = Table(slots: seq<Slot>, halted: bool, faulted: bool, count: nat, exits: map<nat, int>, seen: map<nat, int>)

  datatype Action =
    | Reserve(slot: nat)
    | Create
    | Join(child: nat)
    | JoinP               // one pass of P on the child's joinsem
    | ReadCode
    | ReleaseChild        // V on the child's exitsem, and Join returns
    | Exit(code: int)
    | CountDown
    | ReleaseParent       // V on the own joinsem
    | ExitP               // one pass of P on the own exitsem
    | Clear

  predicate IsUsed(t: Table, p: int) { 0 <= p < |t.slots| && t.slots[p].Used? }

  function PcbOf(t: Table, p: int): Pcb
    requires IsUsed(t, p)
  {
    t.slots[p].pcb
  }

  function PcOf(t: Table, p: int): Pc
    requires IsUsed(t, p)
  {
    t.slots[p].pcb.pc
  }

  function Put(t: Table, p: int, k: Pcb): Table
    requires IsUsed(t, p)
  {
    t.(slots := t.slots[p := Used(k)])
  }

  function Goto(t: Table, p: int, pc: Pc): Table
    requires IsUsed(t, p)
  {
    Put(t, p, t.slots[p].pcb.(pc := pc))
  }

  predicate InJoin(pc: Pc) { pc.Joining? || pc.Joined? || pc.Read? }

  predicate IsFirstFree(t: Table, s: nat) {
    s < |t.slots| && t.slots[s].Free? && forall i :: 0 <= i < s ==> !t.slots[i].Free?
  }

  /** The callers' side: a process that exists is joined, and at most once. */
  predicate Enabled(t: Table, p: nat, a: Action) {
    && !t.halted && !t.faulted
    && IsUsed(t, p)
    && var pc := PcOf(t, p);
       match a
       case Reserve(s) => pc == Running && IsFirstFree(t, s)
       case Create => pc.Creating? && pc.slot < |t.slots| && pc.slot != p
       case Join(c) => pc == Running && IsUsed(t, c) && (PcbOf(t, c).parent == p ==> !PcbOf(t, c).joined && c != p)
       case JoinP => pc.Joining? && IsUsed(t, pc.child) && pc.child != p && p !in PcbOf(t, pc.child).joinsem.queue
       case ReadCode => pc.Joined? && IsUsed(t, pc.child)
       case ReleaseChild => pc.Read? && IsUsed(t, pc.child) && pc.child != p
       case Exit(_) => pc == Running
       case CountDown => pc == Exiting
       case ReleaseParent => pc == Counted
       case ExitP => pc == Leaving && p !in PcbOf(t, p).exitsem.queue
       case Clear => pc == Removing
  }

  function Next(t: Table, p: nat, a: Action): Table
    requires Enabled(t, p, a)
  {
    var k := PcbOf(t, p);
    match a
    case Reserve(s) => Goto(t, p, Creating(s)).(slots := Goto(t, p, Creating(s)).slots[s := Reserved])
    case Create =>
      var child := Pcb(p, 0, 0, NewSem(0), NewSem(0), Running, t.count, k.born, false);
      Goto(t, p, Running).(slots := Goto(t, p, Running).slots[k.pc.slot := Used(child)], count := t.count + 1)
    case Join(c) =>
      if PcbOf(t, c).parent != p then t
      else Put(Put(t, p, k.(pc := Joining(c, PcbOf(t, c).born), numWait := k.numWait + 1)), c, PcbOf(t, c).(joined := true))
    case JoinP =>
      var child := PcbOf(t, k.pc.child);
      var t' := Put(t, k.pc.child, child.(joinsem := SemP(child.joinsem, p)));
      if child.joinsem.value == 0 then t' else Goto(t', p, Joined(k.pc.child, k.pc.born))
    case ReadCode =>
      var code := PcbOf(t, k.pc.child).exitCode;
      Goto(t, p, Read(k.pc.child, k.pc.born, code)).(seen := t.seen[k.pc.born := code])
    case ReleaseChild =>
      var child := PcbOf(t, k.pc.child);
      Goto(Put(t, k.pc.child, child.(exitsem := SemV(child.exitsem))), p, Running)
    case Exit(code) =>
      if p == 0 then t.(halted := true)
      else Put(t, p, k.(exitCode := code, pc := Exiting)).(exits := t.exits[k.born := code])
    case CountDown =>
      if !IsUsed(t, k.parent) then t.(faulted := true)
      else
        var q := PcbOf(t, k.parent);
        Goto(Put(t, k.parent, q.(numWait := if q.numWait > 0 then q.numWait - 1 else 0)), p, Counted)
    case ReleaseParent => Put(t, p, k.(joinsem := SemV(k.joinsem), pc := Leaving))
    case ExitP =>
      var t' := Put(t, p, k.(exitsem := SemP(k.exitsem, p)));
      if k.exitsem.value == 0 then t' else Goto(t', p, Removing)
    case Clear => t.(slots := t.slots[p := Free])
  }

  predicate Init(t: Table) {
    && 0 < |t.slots| <= MAX_PROCESS && !t.halted && !t.faulted && t.count == 1 && t.exits == map[] && t.seen == map[]
    && t.slots[0] == Used(Pcb(-1, 0, 0, NewSem(0), NewSem(0), Running, 0, -1, false))
    && forall i :: 0 < i < |t.slots| ==> t.slots[i] == Free
  }

  // ---- the invariant ----

  predicate Alive(pc: Pc) { pc.Running? || pc.Creating? || InJoin(pc) }

  function PcIn(t: Table, p: int): Option<Pc> { if IsUsed(t, p) then Some(PcOf(t, p)) else None }

  /** A process at pc is in a Join of the child in slot c, born b. */
  predicate Targets(pc: Option<Pc>, c: nat, b: nat) {
    pc.Some? && InJoin(pc.value) && pc.value.child == c && pc.value.born == b
  }

  /** How far the process in slot q is in a Join of the process in slot c born b, if it is in one. */
  function JoinerOf(t: Table, q: int, c: nat, b: nat): Option<Pc> { if Targets(PcIn(t, q), c, b) then PcIn(t, q) else None }

  function Joiner(t: Table, c: nat): Option<Pc>
    requires IsUsed(t, c)
  {
    JoinerOf(t, PcbOf(t, c).parent, c, PcbOf(t, c).born)
  }

  /** The handshake, from both sides: child k in slot c, and whoever is joining it. */
  predicate Handshake(c: nat, k: Pcb, joiner: Option<Pc>) {
    && (joiner.Some? ==> k.joined)
    && (k.joinsem.queue == [] || (k.joinsem.queue == [k.parent] && joiner.Some? && joiner.value.Joining? && !k.pc.Leaving?))
    && if k.joined && joiner.None? then
         && k.joinsem.value == 0 && k.exitsem.queue == []
         && ((k.pc.Leaving? && k.exitsem.value == 1) || (k.pc.Removing? && k.exitsem.value == 0))
       else
         && k.exitsem.value == 0 && !k.pc.Removing?
         && (k.exitsem.queue == [] || (k.exitsem.queue == [c] && k.pc.Leaving?))
         && if joiner.Some? && !joiner.value.Joining?
            then k.pc.Leaving? && k.joinsem.value == 0 && (joiner.value.Read? ==> joiner.value.code == k.exitCode)
            else k.joinsem.value == (if k.pc.Leaving? then 1 else 0)
  }

  predicate ChildOk(t: Table, c: nat) {
    IsUsed(t, c) && c != 0 ==> PcbOf(t, c).parent != c && Handshake(c, PcbOf(t, c), Joiner(t, c))
  }

  /** What a process is waiting for or creating is there. */
  predicate TargetOk(t: Table, p: nat) {
    IsUsed(t, p) ==>
      var pc := PcOf(t, p);
      && (InJoin(pc) ==> IsUsed(t, pc.child) && pc.child != 0 && PcbOf(t, pc.child).born == pc.born && PcbOf(t, pc.child).parent == p)
      && (pc.Creating? ==> pc.slot < |t.slots| && t.slots[pc.slot].Reserved?)
  }

  /** exits holds the code of a process that has begun to exit; seen holds it once a Join has read it. */
  predicate CodeOk(t: Table, c: nat) {
    IsUsed(t, c) ==>
      var k := PcbOf(t, c);
      && k.born < t.count && k.parentBorn < t.count
      && (!Alive(k.pc) ==> k.born in t.exits && t.exits[k.born] == k.exitCode)
      && (c != 0 && k.joined && (Joiner(t, c).None? || Joiner(t, c).value.Read?) ==>
            k.born in t.seen && t.seen[k.born] == k.exitCode)
  }

  /** No two processes are creating in one slot, or are the same birth. */
  predicate Apart(t: Table, p: nat, q: nat) {
    IsUsed(t, p) && IsUsed(t, q) && p != q ==>
      && (PcOf(t, p).Creating? && PcOf(t, q).Creating? ==> PcOf(t, p).slot != PcOf(t, q).slot)
      && PcbOf(t, p).born != PcbOf(t, q).born
  }

  ghost predicate Handshakes(t: Table) { forall c: nat :: ChildOk(t, c) }

  ghost predicate Present(t: Table) {
    && 0 < |t.slots| && IsUsed(t, 0) && Alive(PcOf(t, 0)) && PcbOf(t, 0).parent == -1
    && (forall p: nat :: TargetOk(t, p))
  }

  ghost predicate AllApart(t: Table) { forall p: nat, q: nat :: Apart(t, p, q) }

  ghost predicate Codes(t: Table) { forall c: nat :: CodeOk(t, c) }

  ghost predicate Inv(t: Table) { Present(t) && AllApart(t) && Handshakes(t) && Codes(t) }

  lemma InitInv(t: Table)
    requires Init(t)
    ensures Inv(t)
  {
  }

  // ---- what a step does not touch ----

  /** The slot, besides the acting process's own, that a step may change or that its Join is about. */
  function Other(t: Table, p: nat, a: Action): int
    requires Enabled(t, p, a)
  {
    match a
    case Reserve(s) => s
    case Create => PcOf(t, p).slot
    case Join(c) => if PcbOf(t, c).parent == p then c else -1
    case JoinP => PcOf(t, p).child
    case ReadCode => PcOf(t, p).child
    case ReleaseChild => PcOf(t, p).child
    case CountDown => PcbOf(t, p).parent
    case _ => -1
  }

  function SlotAt(t: Table, x: int): Slot { if 0 <= x < |t.slots| then t.slots[x] else Free }

  lemma SlotFramed(t: Table, p: nat, a: Action, x: int)
    requires Enabled(t, p, a) && x != p && x != Other(t, p, a)
    ensures |Next(t, p, a).slots| == |t.slots| && SlotAt(Next(t, p, a), x) == SlotAt(t, x)
  {
    hide SemP, SemV;
  }

  /** Of its own slot a step changes neither the birth nor the parents. */
  lemma OwnFramed(t: Table, p: nat, a: Action)
    requires Enabled(t, p, a) && !a.Clear? && Other(t, p, a) != p
    ensures |Next(t, p, a).slots| == |t.slots| && IsUsed(Next(t, p, a), p)
    ensures var k, k' := PcbOf(t, p), PcbOf(Next(t, p, a), p);
            k'.born == k.born && k'.parent == k.parent && k'.parentBorn == k.parentBorn && k'.joined == k.joined
  {
    hide SemP, SemV;
  }

  /** Of another process's slot a step changes the semaphores, numWait and joined at most. */
  lemma OtherFramed(t: Table, p: nat, a: Action)
    requires Enabled(t, p, a) && Other(t, p, a) != p && IsUsed(t, Other(t, p, a)) && !a.Reserve? && !a.Create?
    ensures IsUsed(Next(t, p, a), Other(t, p, a))
    ensures var k, k' := PcbOf(t, Other(t, p, a)), PcbOf(Next(t, p, a), Other(t, p, a));
            k'.born == k.born && k'.parent == k.parent && k'.parentBorn == k.parentBorn && k'.pc == k.pc && k'.exitCode == k.exitCode
  {
    hide SemP, SemV;
  }

  lemma OtherIsAnother(t: Table, p: nat, a: Action)
    requires Inv(t) && Enabled(t, p, a)
    ensures Other(t, p, a) != p
  {
    hide Codes, AllApart;
    assert ChildOk(t, p) && TargetOk(t, p);
    if a.ReadCode? {
      assert ChildOk(t, PcOf(t, p).child);
    }
  }

  /** A step of p moves no other process, but may start one. */
  lemma PcFramed(t: Table, p: nat, a: Action, x: int)
    requires Inv(t) && Enabled(t, p, a) && x != p
    ensures PcIn(Next(t, p, a), x) == PcIn(t, x) || (a.Create? && PcIn(t, x).None? && PcIn(Next(t, p, a), x) == Some(Running))
  {
    hide Codes, AllApart, Handshakes;
    OtherIsAnother(t, p, a);
    assert TargetOk(t, p);
    if x != Other(t, p, a) {
      SlotFramed(t, p, a, x);
    } else if IsUsed(t, x) {
      OtherFramed(t, p, a);
    }
  }

  /** Only Join's own steps change who is joining whom, and only for the child they are about. */
  lemma JoinerFramed(t: Table, p: nat, a: Action, q: int, c: nat, b: nat)
    requires Inv(t) && Enabled(t, p, a) && c != Other(t, p, a)
    ensures JoinerOf(Next(t, p, a), q, c, b) == JoinerOf(t, q, c, b)
  {
    hide Inv, Next;
    if q != p {
      PcFramed(t, p, a, q);
    } else {
      OwnJoin(t, p, a, c, b);
    }
  }

  lemma OwnJoin(t: Table, p: nat, a: Action, c: nat, b: nat)
    requires Enabled(t, p, a) && c != Other(t, p, a)
    ensures !Targets(PcIn(t, p), c, b) && !Targets(PcIn(Next(t, p, a), p), c, b)
  {
    hide SemP, SemV;
  }

  /** A slot in use stays with its process until that process clears it, so it cannot be reused before. */
  lemma OnlyClearFreesSlot(t: Table, p: nat, a: Action, c: nat)
    requires Inv(t) && Enabled(t, p, a) && IsUsed(t, c)
    requires !(a.Clear? && p == c)
    ensures IsUsed(Next(t, p, a), c)
    ensures var k, k' := PcbOf(t, c), PcbOf(Next(t, p, a), c);
            k'.born == k.born && k'.parent == k.parent && k'.parentBorn == k.parentBorn
  {
    hide Codes, AllApart, Handshakes, Next;
    OtherIsAnother(t, p, a);
    assert TargetOk(t, p);
    if c == p {
      OwnFramed(t, p, a);
    } else if c == Other(t, p, a) {
      OtherFramed(t, p, a);
    } else {
      SlotFramed(t, p, a, c);
    }
  }

  // ---- every step keeps the invariant ----

  lemma StaysReserved(t: Table, p: nat, a: Action, s: nat)
    requires Inv(t) && Enabled(t, p, a) && s < |t.slots| && t.slots[s].Reserved?
    requires !(a.Create? && PcOf(t, p).slot == s)
    ensures s < |Next(t, p, a).slots| && Next(t, p, a).slots[s].Reserved?
  {
    hide Codes, AllApart, Handshakes, SemP, SemV;
    assert TargetOk(t, p);
  }

  lemma OwnTargetKept(t: Table, p: nat, a: Action)
    requires Inv(t) && Enabled(t, p, a)
    ensures TargetOk(Next(t, p, a), p)
  {
    hide Codes, AllApart, Handshakes, SemP, SemV;
    assert TargetOk(t, p);
    if a.Join? {
      OnlyClearFreesSlot(t, p, a, a.child);
    } else if InJoin(PcOf(t, p)) {
      OnlyClearFreesSlot(t, p, a, PcOf(t, p).child);
    }
  }

  lemma TargetKept(t: Table, p: nat, a: Action, q: nat)
    requires Inv(t) && Enabled(t, p, a) && q != p
    ensures TargetOk(Next(t, p, a), q)
  {
    hide Codes, Next, SemP, SemV;
    PcFramed(t, p, a, q);
    assert TargetOk(t, q) && Apart(t, p, q);
    if IsUsed(t, q) {
      var pc := PcOf(t, q);
      if InJoin(pc) {
        assert ChildOk(t, pc.child);
        OnlyClearFreesSlot(t, p, a, pc.child);
      } else if pc.Creating? {
        StaysReserved(t, p, a, pc.slot);
      }
    }
  }

  lemma PresentKept(t: Table, p: nat, a: Action)
    requires Inv(t) && Enabled(t, p, a)
    ensures Present(Next(t, p, a))
  {
    hide Codes, AllApart, Handshakes, SemP, SemV, TargetOk, Next;
    var t' := Next(t, p, a);
    forall q: nat
      ensures TargetOk(t', q)
    {
      if q == p {
        OwnTargetKept(t, p, a);
      } else {
        TargetKept(t, p, a, q);
      }
    }
    OnlyClearFreesSlot(t, p, a, 0);
    if p != 0 {
      PcFramed(t, p, a, 0);
    } else {
      OtherIsAnother(t, p, a);
      FirstStaysAlive(t, a);
    }
  }

  lemma FirstStaysAlive(t: Table, a: Action)
    requires Enabled(t, 0, a) && Alive(PcOf(t, 0)) && Other(t, 0, a) != 0
    ensures Alive(PcOf(Next(t, 0, a), 0)) && 0 < |Next(t, 0, a).slots|
  {
    hide SemP, SemV;
  }

  /** A process in the table after a step was there before, or has just been created. */
  lemma Origin(t: Table, p: nat, a: Action, x: nat)
    requires Inv(t) && Enabled(t, p, a) && IsUsed(Next(t, p, a), x)
    ensures var k' := PcbOf(Next(t, p, a), x);
            if a.Create? && x == PcOf(t, p).slot
            then k' == Pcb(p, 0, 0, NewSem(0), NewSem(0), Running, t.count, PcbOf(t, p).born, false) && !IsUsed(t, x)
            else
              && IsUsed(t, x) && k'.born == PcbOf(t, x).born
              && (k'.pc.Creating? ==> k'.pc == PcOf(t, x) || (a.Reserve? && x == p && k'.pc.slot == a.slot))
  {
    hide Codes, AllApart, Handshakes, SemP, SemV;
    assert TargetOk(t, p);
  }

  lemma ApartKept(t: Table, p: nat, a: Action)
    requires Inv(t) && Enabled(t, p, a)
    ensures AllApart(Next(t, p, a))
  {
    hide Handshakes, Next;
    var t' := Next(t, p, a);
    forall x: nat, y: nat
      ensures Apart(t', x, y)
    {
      if IsUsed(t', x) && IsUsed(t', y) {
        Origin(t, p, a, x);
        Origin(t, p, a, y);
        assert Apart(t, x, y) && TargetOk(t, x) && TargetOk(t, y) && CodeOk(t, x) && CodeOk(t, y);
      }
    }
  }

  lemma OwnHandshakeKept(t: Table, p: nat, a: Action)
    requires Inv(t) && Enabled(t, p, a)
    ensures ChildOk(Next(t, p, a), p)
  {
    hide Codes, AllApart, JoinerOf;
    OtherIsAnother(t, p, a);
    assert ChildOk(t, p);
    if !a.Clear? {
      OwnFramed(t, p, a);
      JoinerFramed(t, p, a, PcbOf(t, p).parent, p, PcbOf(t, p).born);
    }
  }

  /** The steps of Join and Exit that only look at the child, or only at numWait; and the new process. */
  lemma QuietHandshakeKept(t: Table, p: nat, a: Action)
    requires Inv(t) && Enabled(t, p, a) && Other(t, p, a) >= 0 && !a.JoinP? && !a.ReleaseChild?
    ensures ChildOk(Next(t, p, a), Other(t, p, a))
  {
    hide Codes, AllApart, SemP, SemV;
    var c := Other(t, p, a);
    assert TargetOk(t, p) && ChildOk(t, p) && ChildOk(t, c);
  }

  lemma JoinPHandshakeKept(t: Table, p: nat)
    requires Inv(t) && Enabled(t, p, JoinP)
    ensures ChildOk(Next(t, p, JoinP), PcOf(t, p).child)
  {
    hide Codes, AllApart;
    var k := PcbOf(t, PcOf(t, p).child);
    assert TargetOk(t, p) && ChildOk(t, PcOf(t, p).child);
    assert k.joinsem.queue == [];
  }

  lemma ReleaseHandshakeKept(t: Table, p: nat)
    requires Inv(t) && Enabled(t, p, ReleaseChild)
    ensures ChildOk(Next(t, p, ReleaseChild), PcOf(t, p).child)
  {
    hide Codes, AllApart;
    assert TargetOk(t, p) && ChildOk(t, PcOf(t, p).child);
  }

  lemma OtherHandshakeKept(t: Table, p: nat, a: Action)
    requires Inv(t) && Enabled(t, p, a) && Other(t, p, a) >= 0
    ensures ChildOk(Next(t, p, a), Other(t, p, a))
  {
    hide Inv, Next, ChildOk;
    match a
    case JoinP => JoinPHandshakeKept(t, p);
    case ReleaseChild => ReleaseHandshakeKept(t, p);
    case _ => QuietHandshakeKept(t, p, a);
  }

  lemma HandshakesKept(t: Table, p: nat, a: Action)
    requires Inv(t) && Enabled(t, p, a)
    ensures Handshakes(Next(t, p, a))
  {
    hide Codes, AllApart, Next, Other, JoinerOf, Present;
    var t' := Next(t, p, a);
    forall x: nat
      ensures ChildOk(t', x)
    {
      if x == p {
        OwnHandshakeKept(t, p, a);
      } else if x == Other(t, p, a) {
        OtherHandshakeKept(t, p, a);
      } else {
        SlotFramed(t, p, a, x);
        assert ChildOk(t, x);
        if IsUsed(t, x) {
          JoinerFramed(t, p, a, PcbOf(t, x).parent, x, PcbOf(t, x).born);
        }
      }
    }
  }

  lemma OwnCodeKept(t: Table, p: nat, a: Action)
    requires Inv(t) && Enabled(t, p, a)
    ensures CodeOk(Next(t, p, a), p)
  {
    hide AllApart, JoinerOf, SemP, SemV;
    OtherIsAnother(t, p, a);
    assert CodeOk(t, p) && ChildOk(t, p) && TargetOk(t, p);
    if !a.Clear? {
      OwnFramed(t, p, a);
      JoinerFramed(t, p, a, PcbOf(t, p).parent, p, PcbOf(t, p).born);
    }
  }

  lemma OtherCodeKept(t: Table, p: nat, a: Action)
    requires Inv(t) && Enabled(t, p, a) && Other(t, p, a) >= 0
    ensures CodeOk(Next(t, p, a), Other(t, p, a))
  {
    hide AllApart, SemP, SemV;
    assert TargetOk(t, p) && ChildOk(t, p) && CodeOk(t, p) && ChildOk(t, Other(t, p, a)) && CodeOk(t, Other(t, p, a));
  }

  lemma RecordsFramed(t: Table, p: nat, a: Action, x: nat)
    requires Inv(t) && Enabled(t, p, a) && IsUsed(t, x) && x != p && x != Other(t, p, a)
    ensures var t', b := Next(t, p, a), PcbOf(t, x).born;
            && t'.count >= t.count
            && (b in t.exits ==> b in t'.exits && t'.exits[b] == t.exits[b])
            && (b in t.seen ==> b in t'.seen && t'.seen[b] == t.seen[b])
  {
    hide Codes, Handshakes, SemP, SemV;
    assert Apart(t, p, x) && TargetOk(t, p);
    if Other(t, p, a) >= 0 {
      assert Apart(t, Other(t, p, a), x);
    }
  }

  lemma CodesKept(t: Table, p: nat, a: Action)
    requires Inv(t) && Enabled(t, p, a)
    ensures Codes(Next(t, p, a))
  {
    hide Handshakes, AllApart, Next, Other, JoinerOf, Present;
    var t' := Next(t, p, a);
    forall x: nat
      ensures CodeOk(t', x)
    {
      if x == p {
        OwnCodeKept(t, p, a);
      } else if x == Other(t, p, a) {
        OtherCodeKept(t, p, a);
      } else {
        SlotFramed(t, p, a, x);
        assert CodeOk(t, x);
        if IsUsed(t, x) {
          RecordsFramed(t, p, a, x);
          JoinerFramed(t, p, a, PcbOf(t, x).parent, x, PcbOf(t, x).born);
        }
      }
    }
  }

  lemma StepKeepsInv(t: Table, p: nat, a: Action)
    requires Inv(t) && Enabled(t, p, a)
    ensures Inv(Next(t, p, a))
  {
    hide Present, AllApart, Handshakes, Codes, Next, Enabled;
    PresentKept(t, p, a);
    ApartKept(t, p, a);
    HandshakesKept(t, p, a);
    CodesKept(t, p, a);
  }

  // ---- what the invariant says of any state ----

  /** The PCB that Join reaches into exists, and is the child's. */
  lemma JoinedChildExists(t: Table, p: nat)
    requires Inv(t) && IsUsed(t, p) && InJoin(PcOf(t, p))
    ensures IsUsed(t, PcOf(t, p).child) && PcbOf(t, PcOf(t, p).child).born == PcOf(t, p).born && PcOf(t, p).child != p
  {
    hide Codes, AllApart;
    assert TargetOk(t, p) && ChildOk(t, PcOf(t, p).child);
  }

  /** The code a Join is about to return is the code its child exited with. */
  lemma JoinHasExitCode(t: Table, p: nat)
    requires Inv(t) && IsUsed(t, p) && PcOf(t, p).Read?
    ensures var pc := PcOf(t, p); pc.born in t.exits && pc.code == t.exits[pc.born]
  {
    hide AllApart;
    var pc := PcOf(t, p);
    assert TargetOk(t, p);
    assert ChildOk(t, pc.child) && CodeOk(t, pc.child);
  }

  /** A slot is cleared only after the parent has read the exit code of the process in it. */
  lemma ClearedOnlyAfterRead(t: Table, p: nat)
    requires Inv(t) && Enabled(t, p, Clear)
    ensures p != 0
    ensures var b := PcbOf(t, p).born; b in t.seen && b in t.exits && t.seen[b] == t.exits[b]
  {
    hide AllApart;
    assert ChildOk(t, p) && CodeOk(t, p);
  }

  /** A child whose parent has released it gets past its wait, and a released parent past its own. */
  lemma NoLostRelease(t: Table, c: nat)
    requires Inv(t) && IsUsed(t, c) && c != 0 && PcOf(t, c).Leaving?
    ensures var k, joiner := PcbOf(t, c), Joiner(t, c);
            && (k.joined && joiner.None? ==> k.exitsem.value == 1 && c !in k.exitsem.queue)
            && (joiner.Some? && joiner.value.Joining? ==> k.joinsem.value == 1 && k.joinsem.queue == [])
  {
    hide Codes, AllApart;
    assert ChildOk(t, c);
  }

  // ---- children that outlive their parent ----

  /** The slot that c's parent number names does not hold the process that created c. */
  predicate Orphan(t: Table, c: nat)
    requires IsUsed(t, c)
  {
    !IsUsed(t, PcbOf(t, c).parent) || PcbOf(t, PcbOf(t, c).parent).born != PcbOf(t, c).parentBorn
  }

  /** A process becomes an orphan when its parent's slot is cleared, and then stays one. */
  lemma OrphanedByClear(t: Table, p: nat, a: Action, c: nat)
    requires Inv(t) && Enabled(t, p, a) && IsUsed(t, c) && c != 0 && !(a.Clear? && p == c)
    ensures IsUsed(Next(t, p, a), c)
    ensures Orphan(Next(t, p, a), c) <==> Orphan(t, c) || (a.Clear? && p == PcbOf(t, c).parent)
  {
    hide Handshakes, AllApart, Next;
    OnlyClearFreesSlot(t, p, a, c);
    var q, t' := PcbOf(t, c).parent, Next(t, p, a);
    assert CodeOk(t, c);
    if IsUsed(t, q) && !(a.Clear? && p == q) {
      OnlyClearFreesSlot(t, p, a, q);
    } else if IsUsed(t, q) {
      ClearFrees(t, p);
    } else if IsUsed(t', q) {
      Origin(t, p, a, q);
    }
  }

  lemma ClearFrees(t: Table, p: nat)
    requires Enabled(t, p, Clear)
    ensures !IsUsed(Next(t, p, Clear), p)
  {
  }

  /** A process is created by a process that is there. */
  lemma NotBornOrphan(t: Table, p: nat)
    requires Inv(t) && Enabled(t, p, Create)
    ensures var c := PcOf(t, p).slot; IsUsed(Next(t, p, Create), c) && !Orphan(Next(t, p, Create), c)
  {
    hide Codes, AllApart, Handshakes;
  }

  /**
   What ExitUpdate's DecNumWait on the parent's PCB does: it uses a deleted PCB exactly if the slot is
   not in use; otherwise it lowers the count of whatever process is there, the parent or, when the slot
   has been reused, another one.
   */
  lemma CountDownEffect(t: Table, c: nat)
    requires Inv(t) && Enabled(t, c, CountDown)
    ensures var t', q := Next(t, c, CountDown), PcbOf(t, c).parent;
            if IsUsed(t, q) then
              && q != c && !t'.faulted
              && t' == Goto(Put(t, q, PcbOf(t, q).(numWait := if PcbOf(t, q).numWait == 0 then 0 else PcbOf(t, q).numWait - 1)), c, Counted)
            else t' == t.(faulted := true) && Orphan(t, c)
  {
    hide Codes, AllApart;
    assert ChildOk(t, c);
  }

  ghost predicate SameButNumWait(t: Table, u: Table) {
    && |t.slots| == |u.slots| && u == t.(slots := u.slots)
    && forall x: nat :: SlotButNumWait(SlotAt(t, x), SlotAt(u, x))
  }

  predicate SlotButNumWait(s: Slot, r: Slot) { if s.Used? then r.Used? && r.pcb == s.pcb.(numWait := r.pcb.numWait) else r == s }

  lemma NumWaitEnables(t: Table, u: Table, p: nat, a: Action)
    requires SameButNumWait(t, u) && Enabled(t, p, a)
    ensures Enabled(u, p, a) && Other(u, p, a) == Other(t, p, a)
  {
    assert SlotButNumWait(SlotAt(t, p), SlotAt(u, p));
    var o := Other(t, p, a);
    if o >= 0 {
      assert SlotButNumWait(SlotAt(t, o), SlotAt(u, o));
    }
    match a
    case Reserve(s) =>
      forall i | 0 <= i < s
        ensures !u.slots[i].Free?
      {
        assert SlotButNumWait(SlotAt(t, i), SlotAt(u, i));
      }
    case Join(c) => assert SlotButNumWait(SlotAt(t, c), SlotAt(u, c));
    case _ =>
  }

  lemma OwnNumWaitMoves(t: Table, u: Table, p: nat, a: Action)
    requires SameButNumWait(t, u) && Enabled(t, p, a) && Enabled(u, p, a) && Other(u, p, a) == Other(t, p, a)
    ensures SlotButNumWait(SlotAt(Next(t, p, a), p), SlotAt(Next(u, p, a), p))
  {
    hide SemP, SemV;
    assert SlotButNumWait(SlotAt(t, p), SlotAt(u, p));
    if Other(t, p, a) >= 0 {
      OwnNumWaitBeside(t, u, p, a);
    }
  }

  lemma OwnNumWaitBeside(t: Table, u: Table, p: nat, a: Action)
    requires SameButNumWait(t, u) && Enabled(t, p, a) && Enabled(u, p, a) && Other(u, p, a) == Other(t, p, a) >= 0
    ensures SlotButNumWait(SlotAt(Next(t, p, a), p), SlotAt(Next(u, p, a), p))
  {
    hide SemP, SemV;
    assert SlotButNumWait(SlotAt(t, p), SlotAt(u, p)) && SlotButNumWait(SlotAt(t, Other(t, p, a)), SlotAt(u, Other(t, p, a)));
  }

  lemma OtherNumWaitMoves(t: Table, u: Table, p: nat, a: Action)
    requires SameButNumWait(t, u) && Enabled(t, p, a) && Enabled(u, p, a) && p != Other(u, p, a) == Other(t, p, a) >= 0
    ensures SlotButNumWait(SlotAt(Next(t, p, a), Other(t, p, a)), SlotAt(Next(u, p, a), Other(t, p, a)))
  {
    hide SemP, SemV;
    var o := Other(t, p, a);
    assert SlotButNumWait(SlotAt(t, p), SlotAt(u, p)) && SlotButNumWait(SlotAt(t, o), SlotAt(u, o));
  }

  lemma NumWaitMoves(t: Table, u: Table, p: nat, a: Action, x: nat)
    requires SameButNumWait(t, u) && Enabled(t, p, a) && Enabled(u, p, a) && Other(u, p, a) == Other(t, p, a)
    ensures SlotButNumWait(SlotAt(Next(t, p, a), x), SlotAt(Next(u, p, a), x))
  {
    hide Next;
    if x == p {
      OwnNumWaitMoves(t, u, p, a);
    } else if x == Other(t, p, a) {
      OtherNumWaitMoves(t, u, p, a);
    } else {
      assert SlotButNumWait(SlotAt(t, x), SlotAt(u, x));
      SlotFramed(t, p, a, x);
      SlotFramed(u, p, a, x);
    }
  }

  /** A wrong count goes no further: no step depends on numWait. */
  lemma NumWaitDecidesNothing(t: Table, u: Table, p: nat, a: Action)
    requires SameButNumWait(t, u) && Enabled(t, p, a)
    ensures Enabled(u, p, a) && SameButNumWait(Next(t, p, a), Next(u, p, a))
  {
    NumWaitEnables(t, u, p, a);
    NumWaitRecords(t, u, p, a);
    hide Next, Enabled;
    forall x: nat
      ensures SlotButNumWait(SlotAt(Next(t, p, a), x), SlotAt(Next(u, p, a), x))
    {
      NumWaitMoves(t, u, p, a, x);
    }
  }

  lemma NumWaitRecords(t: Table, u: Table, p: nat, a: Action)
    requires SameButNumWait(t, u) && Enabled(t, p, a) && Enabled(u, p, a) && Other(u, p, a) == Other(t, p, a)
    ensures var t', u' := Next(t, p, a), Next(u, p, a); |t'.slots| == |u'.slots| && u' == t'.(slots := u'.slots)
  {
    hide SemP, SemV;
    assert SlotButNumWait(SlotAt(t, p), SlotAt(u, p));
    var o := Other(t, p, a);
    if o >= 0 {
      assert SlotButNumWait(SlotAt(t, o), SlotAt(u, o));
    }
  }

  // ---- runs ----

  datatype Step = Step(process: nat, action: Action)

  ghost predicate StepOk(t: Table, step: Step, t': Table) {
    Enabled(t, step.process, step.action) && t' == Next(t, step.process, step.action)
  }

  ghost predicate Run(states: seq<Table>, steps: seq<Step>) {
    && |states| == |steps| + 1
    && Init(states[0])
    && forall i :: 0 <= i < |steps| ==> StepOk(states[i], steps[i], states[i + 1])
  }

  lemma {:induction false} RunInv(states: seq<Table>, steps: seq<Step>, n: nat)
    requires Run(states, steps) && n < |states|
    ensures Inv(states[n])
  {
    hide Inv, Next, Enabled;
    if n == 0 {
      InitInv(states[0]);
    } else {
      RunInv(states, steps, n - 1);
      assert StepOk(states[n - 1], steps[n - 1], states[n - 1 + 1]);
      StepKeepsInv(states[n - 1], steps[n - 1].process, steps[n - 1].action);
    }
  }

  lemma JoinStays(t: Table, step: Step, t': Table, p: nat, c: nat, b: nat)
    requires Inv(t) && StepOk(t, step, t') && Targets(PcIn(t, p), c, b)
    requires !(step.process == p && step.action.ReleaseChild?)
    ensures Targets(PcIn(t', p), c, b)
  {
    hide Inv, Next;
    if step.process == p {
      OwnJoinStep(t, step, t', c, b);
    } else {
      PcFramed(t, step.process, step.action, p);
    }
  }

  lemma OwnJoinStep(t: Table, step: Step, t': Table, c: nat, b: nat)
    requires StepOk(t, step, t') && Targets(PcIn(t, step.process), c, b) && !step.action.ReleaseChild?
    ensures Targets(PcIn(t', step.process), c, b)
  {
    hide SemP, SemV;
  }

  lemma {:induction false} StaysInJoin(states: seq<Table>, steps: seq<Step>, i: nat, j: nat, p: nat, c: nat, b: nat)
    requires Run(states, steps) && i <= j < |states| && Targets(PcIn(states[i], p), c, b)
    requires forall k :: i <= k < j ==> !(steps[k].process == p && steps[k].action.ReleaseChild?)
    ensures Targets(PcIn(states[j], p), c, b)
    decreases j - i
  {
    hide Inv, StepOk, Targets, PcIn;
    if i < j {
      RunInv(states, steps, i);
      JoinStays(states[i], steps[i], states[i + 1], p, c, b);
      StaysInJoin(states, steps, i + 1, j, p, c, b);
    }
  }

  // ---- exit codes over a run ----

  /** The step is the exit, with the given code, of the process born b in slot c. */
  predicate ExitsWith(t: Table, step: Step, c: nat, b: nat, code: int) {
    step == Step(c, Exit(code)) && IsUsed(t, c) && PcbOf(t, c).born == b
  }

  lemma OwnExit(t: Table, p: nat, a: Action)
    requires Inv(t) && Enabled(t, p, a) && IsUsed(Next(t, p, a), p) && !Alive(PcOf(Next(t, p, a), p))
    ensures var k, k' := PcbOf(t, p), PcbOf(Next(t, p, a), p); if Alive(k.pc) then a == Exit(k'.exitCode) else k'.exitCode == k.exitCode
  {
    hide Codes, AllApart, Handshakes, SemP, SemV;
    assert TargetOk(t, p);
  }

  lemma OtherExit(t: Table, p: nat, a: Action)
    requires Inv(t) && Enabled(t, p, a)
    requires var x := Other(t, p, a); IsUsed(t, x) && IsUsed(Next(t, p, a), x) && !Alive(PcOf(Next(t, p, a), x))
    ensures var x := Other(t, p, a);
            !Alive(PcOf(t, x)) && PcbOf(Next(t, p, a), x).exitCode == PcbOf(t, x).exitCode
  {
    hide Codes, AllApart, Handshakes, SemP, SemV;
    assert TargetOk(t, p);
    OtherIsAnother(t, p, a);
  }

  /** In every run, a process that is exiting made an Exit call, and keeps the code of that call. */
  lemma {:induction false} ExitCodeIsFromCall(states: seq<Table>, steps: seq<Step>, n: nat, c: nat)
    requires Run(states, steps) && n < |states| && IsUsed(states[n], c) && !Alive(PcOf(states[n], c))
    ensures exists k :: 0 <= k < n && ExitsWith(states[k], steps[k], c, PcbOf(states[n], c).born, PcbOf(states[n], c).exitCode)
  {
    hide Inv, Next, Enabled, Init;
    if n == 0 {
      FirstIsAlive(states[0], c);
    } else {
      var t, step, t' := states[n - 1], steps[n - 1], states[n];
      var p, a := step.process, step.action;
      assert StepOk(t, step, states[n - 1 + 1]);
      RunInv(states, steps, n - 1);
      Origin(t, p, a, c);
      if c == p {
        OwnExit(t, p, a);
      } else if c == Other(t, p, a) {
        OtherExit(t, p, a);
      } else {
        SlotFramed(t, p, a, c);
      }
      if Alive(PcOf(t, c)) {
        assert ExitsWith(states[n - 1], steps[n - 1], c, PcbOf(states[n], c).born, PcbOf(states[n], c).exitCode);
      } else {
        ExitCodeIsFromCall(states, steps, n - 1, c);
      }
    }
  }

  lemma FirstIsAlive(t: Table, c: nat)
    requires Init(t) && IsUsed(t, c)
    ensures Alive(PcOf(t, c))
  {
  }

  lemma JoinedHasExited(t: Table, p: nat)
    requires Inv(t) && IsUsed(t, p) && PcOf(t, p).Read?
    ensures var pc := PcOf(t, p);
            IsUsed(t, pc.child) && PcbOf(t, pc.child).born == pc.born && !Alive(PcOf(t, pc.child)) && PcbOf(t, pc.child).exitCode == pc.code
  {
    hide AllApart;
    var pc := PcOf(t, p);
    assert TargetOk(t, p);
    assert ChildOk(t, pc.child) && CodeOk(t, pc.child);
  }

  /**
   In every interleaving, a Join begun at step i on the process then in slot c, and returning
   at step j, returns the code that process itself passed to Exit, in an earlier step.
   */
  lemma JoinReturnsChildsExitCode(states: seq<Table>, steps: seq<Step>, i: nat, j: nat, p: nat, c: nat)
    requires Run(states, steps) && i < j < |steps|
    requires steps[i] == Step(p, Join(c)) && IsUsed(states[i], c) && PcbOf(states[i], c).parent == p
    requires steps[j] == Step(p, ReleaseChild)
    requires forall k :: i < k < j ==> !(steps[k].process == p && steps[k].action.ReleaseChild?)
    ensures IsUsed(states[j], p) && PcOf(states[j], p).Read?
    ensures var b := PcbOf(states[i], c).born; b in states[j].exits && PcOf(states[j], p).code == states[j].exits[b]
    ensures exists k :: 0 <= k < j && ExitsWith(states[k], steps[k], c, PcbOf(states[i], c).born, PcOf(states[j], p).code)
  {
    hide Inv;
    var b := PcbOf(states[i], c).born;
    assert StepOk(states[i], steps[i], states[i + 1]);
    assert Targets(PcIn(states[i + 1], p), c, b);
    StaysInJoin(states, steps, i + 1, j, p, c, b);
    RunInv(states, steps, j);
    assert StepOk(states[j], steps[j], states[j + 1]);
    JoinHasExitCode(states[j], p);
    JoinedHasExited(states[j], p);
    ExitCodeIsFromCall(states, steps, j, c);
  }

  // ---- when a parent is gone before its child counts down ----

  /** The step clears the slot of c's own parent; c is the process born b. */
  predicate ClearsParentOf(t: Table, step: Step, c: nat, b: nat) {
    && IsUsed(t, c) && PcbOf(t, c).born == b && !Orphan(t, c)
    && step.action.Clear? && step.process == PcbOf(t, c).parent
  }

  /** In every run, a process is an orphan exactly if its parent was cleared while it was in the table. */
  lemma {:induction false} OrphanIffParentCleared(states: seq<Table>, steps: seq<Step>, n: nat, c: nat)
    requires Run(states, steps) && n < |states| && IsUsed(states[n], c) && c != 0
    ensures Orphan(states[n], c) <==> exists k :: 0 <= k < n && ClearsParentOf(states[k], steps[k], c, PcbOf(states[n], c).born)
  {
    hide Inv, Next, Orphan;
    if n > 0 {
      var t, step, t' := states[n - 1], steps[n - 1], states[n];
      assert StepOk(t, step, states[n - 1 + 1]);
      RunInv(states, steps, n - 1);
      Origin(t, step.process, step.action, c);
      var b := PcbOf(t', c).born;
      if step.action.Create? && c == PcOf(t, step.process).slot {
        NotBornOrphan(t, step.process);
        forall k | 0 <= k < n
          ensures !ClearsParentOf(states[k], steps[k], c, b)
        {
          BornBelowCount(states, steps, k, n - 1, c);
        }
      } else {
        OrphanIffParentCleared(states, steps, n - 1, c);
        StillThere(t, step, c);
        OrphanedByClear(t, step.process, step.action, c);
        assert ClearsParentOf(t, step, c, b) <==> !Orphan(t, c) && step.action.Clear? && step.process == PcbOf(t, c).parent;
      }
    }
  }

  lemma StillThere(t: Table, step: Step, c: nat)
    requires Enabled(t, step.process, step.action) && IsUsed(Next(t, step.process, step.action), c)
    ensures !(step.action.Clear? && step.process == c)
  {
  }

  /** Births before step n are below the count at step n. */
  lemma {:induction false} BornBelowCount(states: seq<Table>, steps: seq<Step>, k: nat, n: nat, c: nat)
    requires Run(states, steps) && k <= n < |states|
    ensures IsUsed(states[k], c) ==> PcbOf(states[k], c).born < states[n].count
    decreases n
  {
    hide Present, AllApart, Handshakes, Next, Enabled;
    if k == n {
      RunInv(states, steps, n);
      assert CodeOk(states[n], c);
    } else {
      BornBelowCount(states, steps, k, n - 1, c);
      assert StepOk(states[n - 1], steps[n - 1], states[n - 1 + 1]);
      CountGrows(states[n - 1], steps[n - 1].process, steps[n - 1].action);
    }
  }

  lemma CountGrows(t: Table, p: nat, a: Action)
    requires Enabled(t, p, a)
    ensures Next(t, p, a).count >= t.count
  {
    hide SemP, SemV;
  }

  /**
   The exact condition: in every run, DecNumWait in Exit finds the PCB of the exiting process's own
   parent if and only if no step has cleared that parent since the process was created.
   */
  lemma CountDownFindsParent(states: seq<Table>, steps: seq<Step>, n: nat, c: nat)
    requires Run(states, steps) && n < |states| && Enabled(states[n], c, CountDown)
    ensures c != 0
    ensures (IsUsed(states[n], PcbOf(states[n], c).parent)
             && PcbOf(states[n], PcbOf(states[n], c).parent).born == PcbOf(states[n], c).parentBorn)
       <==> !exists k :: 0 <= k < n && ClearsParentOf(states[k], steps[k], c, PcbOf(states[n], c).born)
  {
    hide Handshakes, Codes, AllApart, Next;
    RunInv(states, steps, n);
    OrphanIffParentCleared(states, steps, n, c);
  }

  // ---- a rule for callers under which it never happens: join all children, then exit ----

  ghost predicate AllJoined(t: Table, p: nat) { forall c: nat :: IsUsed(t, c) && PcbOf(t, c).parent == p ==> PcbOf(t, c).joined }

  /** A process not yet joined to the end has its own parent, alive. */
  predicate Cared(t: Table, c: nat) {
    IsUsed(t, c) && c != 0 && !(PcbOf(t, c).joined && Joiner(t, c).None?) ==>
      !Orphan(t, c) && Alive(PcOf(t, PcbOf(t, c).parent))
  }

  lemma StepKeepsCared(t: Table, p: nat, a: Action, c: nat)
    requires Inv(t) && Cared(t, c) && Enabled(t, p, a) && (a.Exit? ==> AllJoined(t, p))
    ensures Cared(Next(t, p, a), c)
  {
    hide Codes, AllApart, Next, JoinerOf;
    var t' := Next(t, p, a);
    if IsUsed(t', c) && c != 0 {
      Origin(t, p, a, c);
      if a.Create? && c == PcOf(t, p).slot {
        NotBornOrphan(t, p);
        OwnStaysAlive(t, p, a);
      } else {
        StillThere(t, Step(p, a), c);
        OnlyClearFreesSlot(t, p, a, c);
        if PcbOf(t, c).joined && Joiner(t, c).None? {
          StaysDone(t, p, a, c);
        }
        OrphanedByClear(t, p, a, c);
        var q := PcbOf(t, c).parent;
        if q == p {
          if !a.Exit? && Alive(PcOf(t, p)) {
            OwnStaysAlive(t, p, a);
          }
          if PcOf(t, p).Running? {
            RunningJoinsNobody(t, p, c);
          }
        } else {
          PcFramed(t, p, a, q);
        }
      }
    }
  }

  lemma RunningJoinsNobody(t: Table, p: nat, c: nat)
    requires IsUsed(t, c) && IsUsed(t, p) && PcbOf(t, c).parent == p && PcOf(t, p).Running?
    ensures Joiner(t, c).None?
  {
  }

  lemma OwnStaysAlive(t: Table, p: nat, a: Action)
    requires Inv(t) && Enabled(t, p, a) && !a.Exit? && Alive(PcOf(t, p))
    ensures IsUsed(Next(t, p, a), p) && Alive(PcOf(Next(t, p, a), p))
  {
    hide Codes, AllApart, Handshakes, SemP, SemV;
    OtherIsAnother(t, p, a);
  }

  lemma StaysDone(t: Table, p: nat, a: Action, c: nat)
    requires Inv(t) && Enabled(t, p, a) && IsUsed(t, c) && c != 0 && IsUsed(Next(t, p, a), c)
    requires PcbOf(t, c).joined && Joiner(t, c).None?
    ensures PcbOf(Next(t, p, a), c).joined && Joiner(Next(t, p, a), c).None?
  {
    hide Codes, AllApart, SemP, SemV, JoinerOf;
    OtherIsAnother(t, p, a);
    StillThere(t, Step(p, a), c);
    OnlyClearFreesSlot(t, p, a, c);
    if c == Other(t, p, a) {
      DoneOther(t, p, a);
    } else {
      JoinerFramed(t, p, a, PcbOf(t, c).parent, c, PcbOf(t, c).born);
      if c == p {
        OwnFramed(t, p, a);
      } else {
        SlotFramed(t, p, a, c);
      }
    }
  }

  lemma DoneOther(t: Table, p: nat, a: Action)
    requires Inv(t) && Enabled(t, p, a) && Other(t, p, a) >= 0 && IsUsed(t, Other(t, p, a)) && Other(t, p, a) != p
    requires PcbOf(t, Other(t, p, a)).joined && Joiner(t, Other(t, p, a)).None?
    ensures var t', c := Next(t, p, a), Other(t, p, a); IsUsed(t', c) && PcbOf(t', c).joined && Joiner(t', c).None?
  {
    hide Codes, AllApart, SemP, SemV, Handshakes;
    assert TargetOk(t, p);
    assert a.CountDown?;
  }

  /** If every process exits only when all its children have been joined, no deleted PCB is ever used. */
  lemma {:induction false} JoinAllThenExitIsSafe(states: seq<Table>, steps: seq<Step>, n: nat)
    requires Run(states, steps) && n < |states|
    requires forall i :: 0 <= i < |steps| && steps[i].action.Exit? ==> AllJoined(states[i], steps[i].process)
    ensures !states[n].faulted && forall c: nat :: Cared(states[n], c)
  {
    hide Inv, Next, Cared;
    if n == 0 {
      NobodyToCareFor(states[0]);
    } else {
      var t, step, t' := states[n - 1], steps[n - 1], states[n];
      JoinAllThenExitIsSafe(states, steps, n - 1);
      RunInv(states, steps, n - 1);
      assert StepOk(t, step, states[n - 1 + 1]);
      forall c: nat
        ensures Cared(t', c)
      {
        StepKeepsCared(t, step.process, step.action, c);
      }
      CaredNeverFaults(t, step);
    }
  }

  lemma NobodyToCareFor(t: Table)
    requires Init(t)
    ensures forall c: nat :: Cared(t, c)
  {
  }

  lemma CaredNeverFaults(t: Table, step: Step)
    requires Inv(t) && Enabled(t, step.process, step.action) && Cared(t, step.process)
    ensures !Next(t, step.process, step.action).faulted
  {
    hide Codes, AllApart, SemP, SemV;
    assert ChildOk(t, step.process);
  }

  // ---- runs in which it does happen ----

  lemma Extend(states: seq<Table>, steps: seq<Step>, p: nat, a: Action) returns (states': seq<Table>, steps': seq<Step>)
    requires Run(states, steps) && Enabled(states[|steps|], p, a)
    ensures Run(states', steps') && |states'| == |steps'| + 1 && |steps'| == |steps| + 1
    ensures steps'[|steps|] == Step(p, a) && states'[..|states|] == states
    ensures states'[|steps'|] == Next(states[|steps|], p, a)
  {
    hide Enabled, Next, Init;
    steps' := steps + [Step(p, a)];
    states' := states + [Next(states[|steps|], p, a)];
    forall i | 0 <= i < |steps'|
      ensures StepOk(states'[i], steps'[i], states'[i + 1])
    {
      if i < |steps| {
        assert StepOk(states[i], steps[i], states[i + 1]);
      }
    }
  }

  function Proc(parent: int, parentBorn: int, born: nat, pc: Pc): Slot {
    Used(Pcb(parent, 0, 0, NewSem(0), NewSem(0), pc, born, parentBorn, false))
  }

  /** The first process, with the number of Joins it has made. */
  function First(numWait: nat): Slot { Used(Pcb(-1, 0, numWait, NewSem(0), NewSem(0), Running, 0, -1, false)) }

  /** Process 0 creates a process in slot 1, which creates one in slot 2. */
  function Family(): Table { Table([First(0), Proc(0, 0, 1, Running), Proc(1, 1, 2, Running), Free], false, false, 3, map[], map[]) }

  /** The process of slot 1 has exited, been joined, and is gone; the one it created is still there. */
  function Bereaved(): Table { Table([First(1), Free, Proc(1, 1, 2, Running), Free], false, false, 3, map[1 := 7], map[1 := 7]) }

  lemma MakeFamily() returns (states: seq<Table>, steps: seq<Step>)
    ensures Run(states, steps) && |states| == |steps| + 1 && states[|steps|] == Family()
  {
    states, steps := [Table([First(0), Free, Free, Free], false, false, 1, map[], map[])], [];
    states, steps := Extend(states, steps, 0, Reserve(1));
    states, steps := Extend(states, steps, 0, Create);
    states, steps := Extend(states, steps, 1, Reserve(2));
    states, steps := Extend(states, steps, 1, Create);
    assert states[|steps|].slots == Family().slots;
  }

  /** Slot 1's process has exited as far as its wait for a Join. */
  function Waiting(joined: bool, joinsem: Sem, exitsem: Sem, pc: Pc): Slot { Used(Pcb(0, 7, 0, joinsem, exitsem, pc, 1, 0, joined)) }

  function ParentLeaving(): Table {
    Table([First(0), Waiting(false, SemV(NewSem(0)), NewSem(0), Leaving), Proc(1, 1, 2, Running), Free], false, false, 3, map[1 := 7], map[])
  }

  lemma ParentExits(states0: seq<Table>, steps0: seq<Step>) returns (states: seq<Table>, steps: seq<Step>)
    requires Run(states0, steps0) && states0[|steps0|] == Family()
    ensures Run(states, steps) && |states| == |steps| + 1 && states[|steps|] == ParentLeaving()
  {
    hide Run;
    states, steps := Extend(states0, steps0, 1, Exit(7));
    states, steps := Extend(states, steps, 1, CountDown);
    states, steps := Extend(states, steps, 1, ReleaseParent);
    assert states[|steps|].slots == ParentLeaving().slots;
  }

  function ParentReleased(): Table {
    Table([First(1), Waiting(true, NewSem(0), SemV(NewSem(0)), Leaving), Proc(1, 1, 2, Running), Free], false, false, 3, map[1 := 7], map[1 := 7])
  }

  lemma ParentIsJoined(states0: seq<Table>, steps0: seq<Step>) returns (states: seq<Table>, steps: seq<Step>)
    requires Run(states0, steps0) && states0[|steps0|] == ParentLeaving()
    ensures Run(states, steps) && |states| == |steps| + 1 && states[|steps|] == ParentReleased()
  {
    hide Run;
    assert SemP(SemV(NewSem(0)), 0) == NewSem(0);
    states, steps := Extend(states0, steps0, 0, Join(1));
    states, steps := Extend(states, steps, 0, JoinP);
    states, steps := Extend(states, steps, 0, ReadCode);
    states, steps := Extend(states, steps, 0, ReleaseChild);
    assert states[|steps|].slots == ParentReleased().slots;
  }

  lemma ParentIsCleared(states0: seq<Table>, steps0: seq<Step>) returns (states: seq<Table>, steps: seq<Step>)
    requires Run(states0, steps0) && states0[|steps0|] == ParentReleased()
    ensures Run(states, steps) && |states| == |steps| + 1 && states[|steps|] == Bereaved()
  {
    hide Run;
    states, steps := Extend(states0, steps0, 1, ExitP);
    states, steps := Extend(states, steps, 1, Clear);
    assert states[|steps|].slots == Bereaved().slots;
  }

  lemma Bereave() returns (states: seq<Table>, steps: seq<Step>)
    ensures Run(states, steps) && |states| == |steps| + 1 && states[|steps|] == Bereaved()
  {
    hide Run;
    states, steps := MakeFamily();
    states, steps := ParentExits(states, steps);
    states, steps := ParentIsJoined(states, steps);
    states, steps := ParentIsCleared(states, steps);
  }

  /** A run in which Exit uses a PCB that has been deleted. */
  lemma DeletedParentIsUsed() returns (states: seq<Table>, steps: seq<Step>)
    ensures Run(states, steps) && |states| == |steps| + 1 && |steps| > 0 && steps[|steps| - 1] == Step(2, CountDown)
    ensures var t := states[|steps| - 1]; IsUsed(t, 2) && PcOf(t, 2) == Exiting && !IsUsed(t, PcbOf(t, 2).parent)
    ensures states[|steps|].faulted
  {
    hide Run;
    states, steps := Bereave();
    states, steps := Extend(states, steps, 2, Exit(9));
    states, steps := Extend(states, steps, 2, CountDown);
  }

  /** Slot 1 has been given to a new process, which is joining its own child in slot 3. */
  function Reused(): Table {
    Table([First(1), Used(Pcb(0, 0, 1, NewSem(0), NewSem(0), Joining(3, 4), 3, 0, false)), Proc(1, 1, 2, Running),
           Used(Pcb(1, 0, 0, NewSem(0), NewSem(0), Running, 4, 3, true))], false, false, 5, map[1 := 7], map[1 := 7])
  }

  lemma Reuse() returns (states: seq<Table>, steps: seq<Step>)
    ensures Run(states, steps) && |states| == |steps| + 1 && states[|steps|] == Reused()
  {
    hide Run;
    states, steps := Bereave();
    states, steps := Extend(states, steps, 0, Reserve(1));
    states, steps := Extend(states, steps, 0, Create);
    states, steps := Extend(states, steps, 1, Reserve(3));
    states, steps := Extend(states, steps, 1, Create);
    states, steps := Extend(states, steps, 1, Join(3));
    assert states[|steps|].slots == Reused().slots;
  }

  /**
   A run in which the slot has been reused: another process, in the middle of a Join of its own child,
   has its count of Joins lowered by a process it did not create.
   */
  lemma AnotherProcessIsMiscounted() returns (states: seq<Table>, steps: seq<Step>)
    ensures Run(states, steps) && |states| == |steps| + 1 && |steps| > 0 && steps[|steps| - 1] == Step(2, CountDown)
    ensures var t, t' := states[|steps| - 1], states[|steps|];
            && IsUsed(t, 1) && IsUsed(t', 1) && IsUsed(t, 2) && Orphan(t, 2)
            && PcOf(t, 1) == PcOf(t', 1) == Joining(3, 4) && PcbOf(t, 1).numWait == 1 && PcbOf(t', 1).numWait == 0
  {
    hide Run;
    states, steps := Reuse();
    states, steps := Extend(states, steps, 2, Exit(9));
    states, steps := Extend(states, steps, 2, CountDown);
  }
}
