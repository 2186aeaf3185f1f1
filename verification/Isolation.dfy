/**
 Processes sharing physical memory: every run of loading, destroying and writing through page
 tables keeps each process's image private.  A step is what AddrSpace.Load and
 Machine.WriteMem promise.
 */
module Isolation {
  import opened Bytes
  import opened Bitmaps
  import opened Storage
  import opened OpenFiles
  import opened Translation
  import opened AddrSpaces

  type Pid = nat

  /** Free-frame bitmap, main memory, and the frames of each live page table. */
  datatype Memory = Memory(bits: seq<bool>, mem: seq<byte>, spaces: map<Pid, seq<nat>>)

  datatype Action =
    | Load(file: seq<byte>, header: NoffHeader)
    | Destroy
    | Write(addr: nat, bytes: seq<byte>)

  /** Where a page table that maps the frames hits. */
  predicate InImage(frames: seq<nat>, addr: nat, size: nat) { Aligned(addr, size) && addr / PAGE_SIZE < |frames| }

  ghost predicate StepOk(m: Memory, p: Pid, a: Action, m': Memory) {
    && |m.mem| == |m'.mem| == MEMORY_SIZE && |m.bits| == NUM_PHYS_PAGES
    && match a
       case Load(file, h) =>
         && p !in m.spaces && Loadable(h)
         && if Pages(h) > CountClear(m.bits) then m' == m
            else
              var (bits, frames) := Take(m.bits, Pages(h));
              && m'.bits == bits && m'.spaces == m.spaces[p := frames]
              && ValidFrames(frames) && OutsideSame(m.mem, m'.mem, frames) && View(m'.mem, frames) == Flat(file, h, Pages(h))
       case Destroy =>
         && p in m.spaces && ValidFrames(m.spaces[p])
         && m' == Memory(Free(m.bits, m.spaces[p]), m.mem, m.spaces - {p})
       case Write(addr, bytes) =>
         && p in m.spaces && ValidSize(|bytes|)
         && if InImage(m.spaces[p], addr, |bytes|)
            then
              var pa := PhysAddr(m.spaces[p], addr);
              pa + |bytes| <= MEMORY_SIZE && m' == m.(mem := Splice(m.mem, pa, bytes))
            else m' == m
  }

  // ---- the invariant ----

  ghost predicate Disjoint(spaces: map<Pid, seq<nat>>) {
    forall p, q, x :: p in spaces && q in spaces && x in spaces[p] && x in spaces[q] ==> p == q
  }

  ghost predicate Held(spaces: map<Pid, seq<nat>>, x: nat) { exists p :: p in spaces && x in spaces[p] }

  /** The marked frames are the disjoint union of the live page tables. */
  ghost predicate Inv(m: Memory) {
    && |m.bits| == NUM_PHYS_PAGES && |m.mem| == MEMORY_SIZE
    && (forall p :: p in m.spaces ==> ValidFrames(m.spaces[p]))
    && Disjoint(m.spaces)
    && (forall x :: 0 <= x < NUM_PHYS_PAGES ==> (m.bits[x] <==> Held(m.spaces, x)))
  }

  lemma LoadKeepsInv(m: Memory, p: Pid, file: seq<byte>, h: NoffHeader, m': Memory)
    requires Inv(m) && StepOk(m, p, Load(file, h), m')
    ensures Inv(m')
  {
    if Pages(h) <= CountClear(m.bits) {
      hide Take, CountClear, Flat, View, Pages, ValidFrames, OutsideSame;
      var frames := Take(m.bits, Pages(h)).1;
      TakeIsAllocation(m.bits, Pages(h));
      forall q, x | q in m.spaces && x in m.spaces[q]
        ensures x !in frames
      {
        FramesInRange(m.spaces[q]);
        assert Held(m.spaces, x) && m.bits[x];
      }
      forall x | 0 <= x < NUM_PHYS_PAGES
        ensures m'.bits[x] <==> Held(m'.spaces, x)
      {
        if x in frames {
          assert x in m'.spaces[p];
        }
        if m.bits[x] {
          var q :| q in m.spaces && x in m.spaces[q];
          assert x in m'.spaces[q];
        }
      }
    }
  }

  lemma DestroyKeepsInv(m: Memory, p: Pid, m': Memory)
    requires Inv(m) && StepOk(m, p, Destroy, m')
    ensures Inv(m')
  {
    hide Free, ValidFrames;
    FramesInRange(m.spaces[p]);
    FreeClears(m.bits, m.spaces[p]);
    forall x | 0 <= x < NUM_PHYS_PAGES
      ensures m'.bits[x] <==> Held(m'.spaces, x)
    {
      if m'.bits[x] {
        var q :| q in m.spaces && x in m.spaces[q];
        assert q in m'.spaces;
      }
    }
  }

  lemma FramesInRange(frames: seq<nat>)
    requires ValidFrames(frames)
    ensures forall i :: 0 <= i < |frames| ==> frames[i] < NUM_PHYS_PAGES
  {
  }

  lemma StepKeepsInv(m: Memory, p: Pid, a: Action, m': Memory)
    requires Inv(m) && StepOk(m, p, a, m')
    ensures Inv(m')
  {
    match a
    case Load(file, h) => LoadKeepsInv(m, p, file, h, m');
    case Destroy => DestroyKeepsInv(m, p, m');
    case Write(_, _) =>
  }

  // ---- what every step leaves alone ----

  /** No step of one process changes the frames or the image of another. */
  lemma OthersUntouched(m: Memory, p: Pid, a: Action, m': Memory, q: Pid)
    requires Inv(m) && StepOk(m, p, a, m') && q in m.spaces && q != p
    ensures q in m'.spaces && m'.spaces[q] == m.spaces[q]
    ensures View(m'.mem, m.spaces[q]) == View(m.mem, m.spaces[q])
  {
    hide View, Splice;
    match a
    case Load(file, h) => LoadLeavesOthers(m, p, file, h, m', q);
    case Destroy =>
    case Write(addr, bytes) =>
      var frames := m.spaces[p];
      if InImage(frames, addr, |bytes|) {
        AlignedFits(addr, |bytes|);
        assert frames[addr / PAGE_SIZE] in frames;
        WriteLeavesOtherView(m.mem, frames, addr, bytes, m.spaces[q]);
      }
  }

  lemma LoadLeavesOthers(m: Memory, p: Pid, file: seq<byte>, h: NoffHeader, m': Memory, q: Pid)
    requires Inv(m) && StepOk(m, p, Load(file, h), m') && q in m.spaces && q != p
    ensures View(m'.mem, m.spaces[q]) == View(m.mem, m.spaces[q])
  {
    hide View, Flat, Take, CountClear, Pages;
    if Pages(h) <= CountClear(m.bits) {
      TakeIsAllocation(m.bits, Pages(h));
      var frames := Take(m.bits, Pages(h)).1;
      forall a | 0 <= a < MEMORY_SIZE && a / PAGE_SIZE in m.spaces[q]
        ensures m'.mem[a] == m.mem[a]
      {
        assert Held(m.spaces, a / PAGE_SIZE);
        assert m.bits[a / PAGE_SIZE];
      }
      ViewFrame(m.mem, m'.mem, m.spaces[q]);
    }
  }

  /** A process's own write changes exactly the addressed bytes of its image, if aligned and in range. */
  lemma WriteIsSplice(m: Memory, p: Pid, addr: nat, bytes: seq<byte>, m': Memory)
    requires Inv(m) && StepOk(m, p, Write(addr, bytes), m')
    ensures m'.spaces == m.spaces
    ensures var image := View(m.mem, m.spaces[p]);
            if InImage(m.spaces[p], addr, |bytes|)
            then addr + |bytes| <= |image| && View(m'.mem, m.spaces[p]) == Splice(image, addr, bytes)
            else m' == m
  {
    hide View;
    var frames := m.spaces[p];
    if InImage(frames, addr, |bytes|) {
      AlignedFits(addr, |bytes|);
      WriteChangesView(m.mem, frames, addr, bytes);
    }
  }

  /** A read through any page table that maps a process's frames returns the bytes of its image. */
  lemma ReadIsImage(m: Memory, p: Pid, entries: seq<Entry>, addr: nat, size: nat)
    requires Inv(m) && p in m.spaces && Maps(entries, m.spaces[p]) && ValidSize(size) && InImage(m.spaces[p], addr, size)
    ensures var image := View(m.mem, m.spaces[p]);
            var hit := ByTable(entries, addr, size, false);
            && hit.Hit? && hit.physAddr + size <= MEMORY_SIZE && addr + size <= |image|
            && m.mem[hit.physAddr..hit.physAddr + size] == image[addr..addr + size]
  {
    hide View, ByTable;
    MapsTranslates(entries, m.spaces[p], addr, size, false);
    AlignedFits(addr, size);
    ReadIsView(m.mem, m.spaces[p], addr, size);
  }

  // ---- the code performs these steps ----

  lemma LoadedTableMaps(frames: seq<nat>)
    requires ValidFrames(frames)
    ensures Maps(PageEntries(frames), frames)
  {
  }

  /** Load, as a step of the process that loads; its page table then maps its frames. */
  method LoadStep(space: AddrSpace, machine: Machine, executable: OpenFile, freeFrames: Bitmap, ghost m: Memory, ghost p: Pid)
    returns (ok: bool, ghost m': Memory)
    requires executable.Valid() && |executable.Contents()| >= NOFF_HEADER_SIZE && Loadable(NoffOf(executable.Contents()))
    requires freeFrames.Valid() && freeFrames.numBits == NUM_PHYS_PAGES && machine.mainMemory.Length == MEMORY_SIZE
    requires var words: object := freeFrames.words; words != machine.mainMemory
    requires m.bits == freeFrames.Bits() && m.mem == machine.mainMemory[..] && p !in m.spaces
    modifies space, machine.mainMemory, freeFrames.words
    ensures StepOk(m, p, Load(executable.Contents(), NoffOf(executable.Contents())), m')
    ensures m'.bits == freeFrames.Bits() && m'.mem == machine.mainMemory[..]
    ensures ok <==> p in m'.spaces
    ensures ok ==> Maps(space.pageTable[..], m'.spaces[p])
  {
    hide CountClear, Take, Flat, View, Pages, OutsideSame, NoffOf, PageEntries, Maps;
    ok := space.Load(machine, executable, freeFrames);
    if ok {
      ghost var frames := Take(m.bits, space.numPages).1;
      LoadedTableMaps(frames);
      m' := Memory(freeFrames.Bits(), machine.mainMemory[..], m.spaces[p := frames]);
    } else {
      m' := m;
    }
  }

  /** The destructor, as a step. */
  method DestroyStep(space: AddrSpace, freeFrames: Bitmap, ghost m: Memory, ghost p: Pid) returns (ghost m': Memory)
    requires Inv(m) && p in m.spaces && freeFrames.Valid() && freeFrames.numBits == NUM_PHYS_PAGES
    requires m.bits == freeFrames.Bits() && space.pageTable.Length == space.numPages && Maps(space.pageTable[..], m.spaces[p])
    modifies freeFrames.words
    ensures StepOk(m, p, Destroy, m') && m'.bits == freeFrames.Bits() && m'.mem == m.mem
  {
    hide Free, Disjoint, Held;
    ghost var frames := m.spaces[p];
    assert forall i :: 0 <= i < |frames| ==> space.pageTable[..][i].physicalPage == frames[i];
    space.Destroy(freeFrames, frames);
    m' := Memory(Free(m.bits, frames), m.mem, m.spaces - {p});
  }

  /** WriteMem, as a step of the process whose page table the machine uses. */
  method WriteStep(machine: Machine, addr: nat, bytes: seq<byte>, ghost m: Memory, ghost p: Pid) returns (e: Exception, ghost m': Memory)
    requires machine.Valid() && machine.tlb == null && ValidSize(|bytes|)
    requires m.mem == machine.mainMemory[..] && |m.bits| == NUM_PHYS_PAGES
    requires p in m.spaces && Maps(machine.Entries()[..], m.spaces[p])
    modifies machine.Entries(), machine.mainMemory
    ensures StepOk(m, p, Write(addr, bytes), m') && m'.mem == machine.mainMemory[..]
    ensures machine.Valid() && Maps(machine.Entries()[..], m.spaces[p])
    ensures e == if InImage(m.spaces[p], addr, |bytes|) then NoException else AddressError
  {
    hide Maps, ByTable, AfterAccess, Splice, PhysAddr, ValidFrames;
    ghost var entries, frames := machine.Entries()[..], m.spaces[p];
    MapsTranslates(entries, frames, addr, |bytes|, true);
    AccessKeepsMaps(entries, frames, machine.Spec(addr, |bytes|, true), true);
    e := machine.WriteMem(addr, bytes);
    m' := m.(mem := machine.mainMemory[..]);
  }

  /** ReadMem by that process returns the bytes of its own image. */
  method ReadStep(machine: Machine, addr: nat, size: nat, ghost m: Memory, ghost p: Pid) returns (e: Exception, bytes: seq<byte>)
    requires machine.Valid() && machine.tlb == null && ValidSize(size)
    requires Inv(m) && m.mem == machine.mainMemory[..] && p in m.spaces && Maps(machine.Entries()[..], m.spaces[p])
    modifies machine.Entries()
    ensures machine.Valid() && Maps(machine.Entries()[..], m.spaces[p])
    ensures InImage(m.spaces[p], addr, size) ==>
              e == NoException && addr + size <= |View(m.mem, m.spaces[p])| && bytes == View(m.mem, m.spaces[p])[addr..addr + size]
    ensures !InImage(m.spaces[p], addr, size) ==> e == AddressError
  {
    hide Maps, ByTable, AfterAccess, View, PhysAddr, Inv;
    ghost var entries, frames := machine.Entries()[..], m.spaces[p];
    MapsTranslates(entries, frames, addr, size, false);
    AccessKeepsMaps(entries, frames, machine.Spec(addr, size, false), false);
    if InImage(frames, addr, size) {
      ReadIsImage(m, p, entries, addr, size);
    }
    e, bytes := machine.ReadMem(addr, size);
    assert machine.mainMemory[..] == m.mem;
  }

  // ---- runs ----

  datatype Step = Step(pid: Pid, action: Action)

  ghost predicate Run(states: seq<Memory>, steps: seq<Step>) {
    && |states| == |steps| + 1
    && Inv(states[0]) && states[0].spaces == map[]
    && forall i :: 0 <= i < |steps| ==> StepOk(states[i], steps[i].pid, steps[i].action, states[i + 1])
  }

  lemma {:induction false} RunInv(states: seq<Memory>, steps: seq<Step>, n: nat)
    requires Run(states, steps) && n < |states|
    ensures Inv(states[n])
  {
    hide StepOk, Inv;
    if n > 0 {
      RunInv(states, steps, n - 1);
      assert StepOk(states[n - 1], steps[n - 1].pid, steps[n - 1].action, states[n - 1 + 1]);
      StepKeepsInv(states[n - 1], steps[n - 1].pid, steps[n - 1].action, states[n]);
    }
  }

  /** Whatever other processes do meanwhile, a process that does nothing keeps its image byte for byte. */
  lemma {:induction false} ImageIsPrivate(states: seq<Memory>, steps: seq<Step>, i: nat, j: nat, q: Pid)
    requires Run(states, steps) && i <= j < |states| && q in states[i].spaces
    requires forall k :: i <= k < j ==> steps[k].pid != q
    requires Inv(states[i])
    ensures Inv(states[j]) && q in states[j].spaces && states[j].spaces[q] == states[i].spaces[q]
    ensures View(states[j].mem, states[i].spaces[q]) == View(states[i].mem, states[i].spaces[q])
    decreases j - i
  {
    hide StepOk, View, Disjoint, Held, ValidFrames;
    if i < j {
      assert StepOk(states[i], steps[i].pid, steps[i].action, states[i + 1]);
      OthersUntouched(states[i], steps[i].pid, steps[i].action, states[i + 1], q);
      StepKeepsInv(states[i], steps[i].pid, steps[i].action, states[i + 1]);
      ImageIsPrivate(states, steps, i + 1, j, q);
    }
  }
}
