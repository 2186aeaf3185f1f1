/**
 The unaligned loads and stores of machine/mipssim.cc: LWL, LWR, SWL and SWR, each made of one
 aligned access, and the delayed load that puts a loaded value into its register one
 instruction late, or earlier when a trap finishes it.
 */
module Unaligned {
  import opened Bytes
  import opened Translation

  const NUM_GP_REGS := 32
  const WORD_VALUES := 0x1_0000_0000

  // ---- merging an aligned word with a register ----

  /** What LWR leaves in the register: the word's bytes from byte up, in its low bytes. */
  function LoadRight(old_: bv32, word: bv32, byte: nat): bv32 {
    match 3 - byte
    case 0 => (old_ & 0xffffff00) | ((word >> 24) & 0xff)
    case 1 => (old_ & 0xffff0000) | ((word >> 16) & 0xffff)
    case 2 => (old_ & 0xff000000) | ((word >> 8) & 0xffffff)
    case _ => word
  }

  /** What LWL leaves in the register: the word's bytes up to byte, in its high bytes. */
  function LoadLeft(old_: bv32, word: bv32, byte: nat): bv32 {
    match 3 - byte
    case 0 => word
    case 1 => (old_ & 0xff) | (word << 8)
    case 2 => (old_ & 0xffff) | (word << 16)
    case _ => (old_ & 0xffffff) | (word << 24)
  }

  function StoreRight(word: bv32, register: bv32, byte: nat): bv32 {
    match 3 - byte
    case 0 => (word & 0xffffff) | (register << 24)
    case 1 => (word & 0xffff) | (register << 16)
    case 2 => (word & 0xff) | (register << 8)
    case _ => register
  }

  function StoreLeft(word: bv32, register: bv32, byte: nat): bv32 {
    match 3 - byte
    case 0 => register
    case 1 => (word & 0xff000000) | ((register >> 8) & 0xffffff)
    case 2 => (word & 0xffff0000) | ((register >> 16) & 0xffff)
    case _ => (word & 0xffffff00) | ((register >> 24) & 0xff)
  }

  lemma Right3(o: bv32, w: bv32, r: bv32)
    requires r == (o & 0xffffff00) | ((w >> 24) & 0xff)
    ensures ByteOf(r, 0) == ByteOf(w, 3)
    ensures ByteOf(r, 1) == ByteOf(o, 1)
    ensures ByteOf(r, 2) == ByteOf(o, 2)
    ensures ByteOf(r, 3) == ByteOf(o, 3)
  {
  }

  lemma Right2(o: bv32, w: bv32, r: bv32)
    requires r == (o & 0xffff0000) | ((w >> 16) & 0xffff)
    ensures ByteOf(r, 0) == ByteOf(w, 2)
    ensures ByteOf(r, 1) == ByteOf(w, 3)
    ensures ByteOf(r, 2) == ByteOf(o, 2)
    ensures ByteOf(r, 3) == ByteOf(o, 3)
  {
  }

  lemma Right1(o: bv32, w: bv32, r: bv32)
    requires r == (o & 0xff000000) | ((w >> 8) & 0xffffff)
    ensures ByteOf(r, 0) == ByteOf(w, 1)
    ensures ByteOf(r, 1) == ByteOf(w, 2)
    ensures ByteOf(r, 2) == ByteOf(w, 3)
    ensures ByteOf(r, 3) == ByteOf(o, 3)
  {
  }

  lemma Left2(o: bv32, w: bv32, r: bv32)
    requires r == (o & 0xff) | (w << 8)
    ensures ByteOf(r, 0) == ByteOf(o, 0)
    ensures ByteOf(r, 1) == ByteOf(w, 0)
    ensures ByteOf(r, 2) == ByteOf(w, 1)
    ensures ByteOf(r, 3) == ByteOf(w, 2)
  {
  }

  lemma Left1(o: bv32, w: bv32, r: bv32)
    requires r == (o & 0xffff) | (w << 16)
    ensures ByteOf(r, 0) == ByteOf(o, 0)
    ensures ByteOf(r, 1) == ByteOf(o, 1)
    ensures ByteOf(r, 2) == ByteOf(w, 0)
    ensures ByteOf(r, 3) == ByteOf(w, 1)
  {
  }

  lemma Left0(o: bv32, w: bv32, r: bv32)
    requires r == (o & 0xffffff) | (w << 24)
    ensures ByteOf(r, 0) == ByteOf(o, 0)
    ensures ByteOf(r, 1) == ByteOf(o, 1)
    ensures ByteOf(r, 2) == ByteOf(o, 2)
    ensures ByteOf(r, 3) == ByteOf(w, 0)
  {
  }

  lemma LoadRightBytes(old_: bv32, word: bv32, byte: nat, k: nat)
    requires byte < 4 && k < 4
    ensures ByteOf(LoadRight(old_, word, byte), k) == if k + byte < 4 then ByteOf(word, k + byte) else ByteOf(old_, k)
  {
    hide ByteOf;
    match byte
    case 3 => Right3(old_, word, LoadRight(old_, word, byte));
    case 2 => Right2(old_, word, LoadRight(old_, word, byte));
    case 1 => Right1(old_, word, LoadRight(old_, word, byte));
    case _ =>
  }

  lemma LoadLeftBytes(old_: bv32, word: bv32, byte: nat, k: nat)
    requires byte < 4 && k < 4
    ensures ByteOf(LoadLeft(old_, word, byte), k) == if k + byte >= 3 then ByteOf(word, k + byte - 3) else ByteOf(old_, k)
  {
    hide ByteOf;
    match byte
    case 2 => Left2(old_, word, LoadLeft(old_, word, byte));
    case 1 => Left1(old_, word, LoadLeft(old_, word, byte));
    case 0 => Left0(old_, word, LoadLeft(old_, word, byte));
    case _ =>
  }

  /** A store merges as the opposite load does, with the roles of word and register exchanged. */
  lemma StoresMirrorLoads(word: bv32, register: bv32, byte: nat)
    requires byte < 4
    ensures StoreRight(word, register, byte) == LoadLeft(word, register, 3 - byte)
    ensures StoreLeft(word, register, byte) == LoadRight(word, register, 3 - byte)
  {
  }

  // ---- on the bytes of a virtual image ----

  function Base(a: nat): nat { a - a % 4 }

  /** ReadMem of 4 bytes: a little-endian word. */
  function WordIn(image: seq<byte>, w: nat): bv32
    requires w + 4 <= |image|
  {
    WordOf(image[w], image[w + 1], image[w + 2], image[w + 3])
  }

  function BytesOf(w: bv32): (bs: seq<byte>)
    ensures |bs| == 4
  {
    [ByteOf(w, 0), ByteOf(w, 1), ByteOf(w, 2), ByteOf(w, 3)]
  }

  /** The image after SWR or SWL of a register at address a. */
  function StoredRight(image: seq<byte>, a: nat, register: bv32): seq<byte>
    requires Base(a) + 4 <= |image|
  {
    Splice(image, Base(a), BytesOf(StoreRight(WordIn(image, Base(a)), register, a % 4)))
  }

  function StoredLeft(image: seq<byte>, a: nat, register: bv32): seq<byte>
    requires Base(a) + 4 <= |image|
  {
    Splice(image, Base(a), BytesOf(StoreLeft(WordIn(image, Base(a)), register, a % 4)))
  }

  lemma WordInBytes(image: seq<byte>, w: nat, k: nat)
    requires w + 4 <= |image| && k < 4
    ensures ByteOf(WordIn(image, w), k) == image[w + k]
  {
    hide ByteOf;
  }

  lemma BytesOfAt(w: bv32, k: nat)
    requires k < 4
    ensures BytesOf(w)[k] == ByteOf(w, k)
  {
    hide ByteOf;
  }

  /** SWR stores the register's low bytes from a to the end of a's word. */
  lemma StoredRightBytes(image: seq<byte>, a: nat, register: bv32, j: nat)
    requires Base(a) + 4 <= |image| && j < |image|
    ensures StoredRight(image, a, register)[j] == if a <= j < Base(a) + 4 then ByteOf(register, j - a) else image[j]
  {
    hide ByteOf, StoreRight, StoreLeft, LoadRight, LoadLeft, WordIn, BytesOf;
    var w := Base(a);
    if w <= j < w + 4 {
      var k := j - w;
      StoresMirrorLoads(WordIn(image, w), register, a % 4);
      BytesOfAt(StoreRight(WordIn(image, w), register, a % 4), k);
      LoadLeftBytes(WordIn(image, w), register, 3 - a % 4, k);
      WordInBytes(image, w, k);
    }
  }

  /** SWL stores the register's high bytes from the start of a's word to a. */
  lemma StoredLeftBytes(image: seq<byte>, a: nat, register: bv32, j: nat)
    requires Base(a) + 4 <= |image| && j < |image|
    ensures StoredLeft(image, a, register)[j] == if Base(a) <= j <= a then ByteOf(register, j + 3 - a) else image[j]
  {
    hide ByteOf, StoreRight, StoreLeft, LoadRight, LoadLeft, WordIn, BytesOf;
    var w := Base(a);
    if w <= j < w + 4 {
      var k := j - w;
      StoresMirrorLoads(WordIn(image, w), register, a % 4);
      BytesOfAt(StoreLeft(WordIn(image, w), register, a % 4), k);
      LoadRightBytes(WordIn(image, w), register, 3 - a % 4, k);
      WordInBytes(image, w, k);
    }
  }

  /** SWR a then SWL a+3 stores the register's four bytes at a..a+3 and changes nothing else, for every a. */
  lemma UnalignedStore(image: seq<byte>, a: nat, register: bv32)
    requires Base(a) + 4 <= |image| && Base(a + 3) + 4 <= |image|
    ensures StoredLeft(StoredRight(image, a, register), a + 3, register) == Splice(image, a, BytesOf(register))
  {
    hide ByteOf, StoredRight, StoredLeft;
    var half := StoredRight(image, a, register);
    assert |half| == |image| by { StoredSize(image, a, register); }
    var whole := StoredLeft(half, a + 3, register);
    assert |whole| == |image| by { StoredSize(half, a + 3, register); }
    forall j | 0 <= j < |image|
      ensures whole[j] == Splice(image, a, BytesOf(register))[j]
    {
      StoredRightBytes(image, a, register, j);
      StoredLeftBytes(half, a + 3, register, j);
    }
  }

  lemma StoredSize(image: seq<byte>, a: nat, register: bv32)
    requires Base(a) + 4 <= |image|
    ensures |StoredRight(image, a, register)| == |StoredLeft(image, a, register)| == |image|
  {
  }

  /** LWR a into a register, then LWL a+3 into the result, gives the little-endian word at a, for every a. */
  lemma UnalignedLoad(image: seq<byte>, a: nat, old_: bv32)
    requires Base(a) + 4 <= |image| && Base(a + 3) + 4 <= |image|
    ensures var half := LoadRight(old_, WordIn(image, Base(a)), a % 4);
            LoadLeft(half, WordIn(image, Base(a + 3)), (a + 3) % 4) == WordIn(image, a)
  {
    hide ByteOf, LoadRight, LoadLeft, WordIn, WordOf;
    var right, left := WordIn(image, Base(a)), WordIn(image, Base(a + 3));
    var half := LoadRight(old_, right, a % 4);
    var whole := LoadLeft(half, left, (a + 3) % 4);
    forall k | 0 <= k < 4
      ensures ByteOf(whole, k) == ByteOf(WordIn(image, a), k)
    {
      LoadRightBytes(old_, right, a % 4, k);
      LoadLeftBytes(half, left, (a + 3) % 4, k);
      WordInBytes(image, a, k);
      if k + a % 4 < 4 {
        WordInBytes(image, Base(a), k + a % 4);
      }
      if k + (a + 3) % 4 >= 3 {
        WordInBytes(image, Base(a + 3), k + (a + 3) % 4 - 3);
      }
    }
    WordBytes(whole);
    WordBytes(WordIn(image, a));
  }

  // ---- with the registers and the delayed load ----

  /** The general registers, and the load that the next instruction will finish. */
  datatype Cpu = Cpu(gpr: seq<bv32>, loadReg: nat, loadValue: bv32)

  predicate ValidCpu(c: Cpu) { |c.gpr| == NUM_GP_REGS && c.loadReg < NUM_GP_REGS }

  /** Machine::DelayedLoad. */
  function Delayed(c: Cpu, nextReg: nat, nextValue: bv32): Cpu
    requires ValidCpu(c)
  {
    Cpu(c.gpr[c.loadReg := c.loadValue][0 := 0], nextReg, nextValue)
  }

  /** The value LWL and LWR merge into: the pending one if it is for the same register. */
  function Latest(c: Cpu, r: nat): bv32
    requires ValidCpu(c) && r < NUM_GP_REGS
  {
    if c.loadReg == r then c.loadValue else c.gpr[r]
  }

  /** No other value is about to arrive in register r. */
  predicate Settled(c: Cpu, r: nat)
    requires ValidCpu(c) && r < NUM_GP_REGS
  {
    c.gpr[0] == 0 && (c.loadReg == r && r != 0 ==> c.loadValue == c.gpr[r])
  }

  /** LWR and LWL into register rt, from address a. */
  function Lwr(c: Cpu, image: seq<byte>, rt: nat, a: nat): Cpu
    requires ValidCpu(c) && rt < NUM_GP_REGS && Base(a) + 4 <= |image|
  {
    Delayed(c, rt, LoadRight(Latest(c, rt), WordIn(image, Base(a)), a % 4))
  }

  function Lwl(c: Cpu, image: seq<byte>, rt: nat, a: nat): Cpu
    requires ValidCpu(c) && rt < NUM_GP_REGS && Base(a) + 4 <= |image|
  {
    Delayed(c, rt, LoadLeft(Latest(c, rt), WordIn(image, Base(a)), a % 4))
  }

  /** A trap between two instructions finishes the pending load. */
  function Between(c: Cpu, trap: bool): Cpu
    requires ValidCpu(c)
  {
    if trap then Delayed(c, 0, 0) else c
  }

  /**
   LWR at a then LWL at a+3, with or without a trap in between: once the second load is finished,
   rt holds the word at a, and every other register is what the load pending before leaves.
   */
  lemma LoadPair(c: Cpu, image: seq<byte>, rt: nat, a: nat, trap: bool, nextReg: nat, nextValue: bv32)
    requires ValidCpu(c) && 0 < rt < NUM_GP_REGS && nextReg < NUM_GP_REGS
    requires Base(a) + 4 <= |image| && Base(a + 3) + 4 <= |image|
    ensures var c1 := Between(Lwr(c, image, rt, a), trap);
            var c2 := Delayed(Lwl(c1, image, rt, a + 3), nextReg, nextValue);
            && c2.gpr[rt] == WordIn(image, a)
            && (forall r :: 0 <= r < NUM_GP_REGS && r != rt ==> c2.gpr[r] == Delayed(c, 0, 0).gpr[r])
  {
    hide WordIn, LoadRight, LoadLeft;
    UnalignedLoad(image, a, Latest(c, rt));
  }

  /**
   The two instructions name one base register.  It still holds the same value at the second one
   if no load into it was pending and, when a trap comes between, it is not the target.
   */
  lemma BaseRegisterKept(c: Cpu, image: seq<byte>, rs: nat, rt: nat, a: nat, trap: bool)
    requires ValidCpu(c) && rs < NUM_GP_REGS && rt < NUM_GP_REGS && Base(a) + 4 <= |image|
    requires Settled(c, rs)
    requires trap ==> rs != rt || rs == 0
    ensures Between(Lwr(c, image, rt, a), trap).gpr[rs] == c.gpr[rs]
  {
    hide WordIn, LoadRight;
  }

  // ---- through a page table, whose frames may lie anywhere ----

  function MemoryRight(mem: seq<byte>, pa: nat, a: nat, register: bv32): (r: seq<byte>)
    requires pa + 4 <= |mem|
    ensures |r| == |mem|
  {
    Splice(mem, pa, BytesOf(StoreRight(WordIn(mem, pa), register, a % 4)))
  }

  function MemoryLeft(mem: seq<byte>, pa: nat, a: nat, register: bv32): (r: seq<byte>)
    requires pa + 4 <= |mem|
    ensures |r| == |mem|
  {
    Splice(mem, pa, BytesOf(StoreLeft(WordIn(mem, pa), register, a % 4)))
  }

  /** An aligned word lies in one page, so memory and image agree on it. */
  lemma WordThroughTable(mem: seq<byte>, frames: seq<nat>, a: nat)
    requires |mem| == MEMORY_SIZE && ValidFrames(frames) && a / PAGE_SIZE < |frames|
    ensures Base(a) / PAGE_SIZE == a / PAGE_SIZE && Base(a) % PAGE_SIZE + 4 <= PAGE_SIZE
    ensures PhysAddr(frames, Base(a)) + 4 <= MEMORY_SIZE && Base(a) + 4 <= |frames| * PAGE_SIZE
    ensures WordIn(mem, PhysAddr(frames, Base(a))) == WordIn(View(mem, frames), Base(a))
  {
    hide View, WordOf;
    WordInPage(a);
    var w := Base(a);
    var pa := PhysAddr(frames, w);
    ReadIsView(mem, frames, w, 4);
    var image := View(mem, frames);
    var there, here := mem[pa..pa + 4], image[w..w + 4];
    assert there == here;
    assert there[0] == here[0] && there[1] == here[1] && there[2] == here[2] && there[3] == here[3];
  }

  lemma WordInPage(a: nat)
    ensures Base(a) / PAGE_SIZE == a / PAGE_SIZE && Base(a) % PAGE_SIZE + 4 <= PAGE_SIZE
  {
    assert a == 4 * (a / 4) + a % 4;
    assert a / PAGE_SIZE == a / 4 / 32;
    assert Base(a) == 4 * (a / 4);
  }

  lemma StoreThroughTable(mem: seq<byte>, frames: seq<nat>, a: nat, register: bv32)
    requires |mem| == MEMORY_SIZE && ValidFrames(frames) && a / PAGE_SIZE < |frames|
    ensures PhysAddr(frames, Base(a)) + 4 <= MEMORY_SIZE && Base(a) + 4 <= |frames| * PAGE_SIZE
    ensures View(MemoryRight(mem, PhysAddr(frames, Base(a)), a, register), frames) == StoredRight(View(mem, frames), a, register)
    ensures View(MemoryLeft(mem, PhysAddr(frames, Base(a)), a, register), frames) == StoredLeft(View(mem, frames), a, register)
  {
    hide View, WordIn, StoreRight, StoreLeft, BytesOf, Splice, PhysAddr;
    WordThroughTable(mem, frames, a);
    var word := WordIn(View(mem, frames), Base(a));
    WriteChangesView(mem, frames, Base(a), BytesOf(StoreRight(word, register, a % 4)));
    WriteChangesView(mem, frames, Base(a), BytesOf(StoreLeft(word, register, a % 4)));
  }

  /** SWR a, SWL a+3 through a page table: exactly the four virtual bytes change, also across pages. */
  lemma StorePairThroughTable(mem: seq<byte>, frames: seq<nat>, a: nat, register: bv32)
    requires |mem| == MEMORY_SIZE && ValidFrames(frames) && (a + 3) / PAGE_SIZE < |frames|
    ensures a / PAGE_SIZE < |frames| && a + 4 <= |frames| * PAGE_SIZE
    ensures PhysAddr(frames, Base(a)) + 4 <= MEMORY_SIZE && PhysAddr(frames, Base(a + 3)) + 4 <= MEMORY_SIZE
    ensures var mem1 := MemoryRight(mem, PhysAddr(frames, Base(a)), a, register);
            var mem2 := MemoryLeft(mem1, PhysAddr(frames, Base(a + 3)), a + 3, register);
            View(mem2, frames) == Splice(View(mem, frames), a, BytesOf(register))
  {
    hide View, StoredRight, StoredLeft, MemoryRight, MemoryLeft, BytesOf, Splice, PhysAddr, WordIn;
    assert a / PAGE_SIZE <= (a + 3) / PAGE_SIZE;
    StoreThroughTable(mem, frames, a, register);
    var mem1 := MemoryRight(mem, PhysAddr(frames, Base(a)), a, register);
    StoreThroughTable(mem1, frames, a + 3, register);
    UnalignedStore(View(mem, frames), a, register);
  }

  lemma WriteHitsWhereReadDoes(entries: seq<Entry>, w: nat)
    ensures ByTable(entries, w, 4, true).Hit? ==> ByTable(entries, w, 4, true) == ByTable(entries, w, 4, false)
    ensures ByTlb(entries, w, 4, true).Hit? ==> ByTlb(entries, w, 4, true) == ByTlb(entries, w, 4, false)
  {
  }

  lemma AccessKeepsTranslation(entries: seq<Entry>, o: Outcome, w: bool, addr: nat, size: nat, writing: bool)
    ensures ByTable(AfterAccess(entries, o, w), addr, size, writing) == ByTable(entries, addr, size, writing)
    ensures ByTlb(AfterAccess(entries, o, w), addr, size, writing) == ByTlb(entries, addr, size, writing)
  {
    hide ByTable, ByTlb;
    if o.Hit? && o.index < |entries| {
      TouchingKeepsTranslation(entries, o.index, w, addr, size, writing);
    }
  }

  lemma FaultTouchesNothing(entries: seq<Entry>, o: Outcome, w: bool)
    requires o.Fault?
    ensures AfterAccess(entries, o, w) == entries
  {
  }

  /** A store reads its word before it writes it, so the read's exception comes first. */
  function StoreOutcome(read: Outcome, write: Outcome): Outcome { if read.Fault? then read else write }

  /** The entries after both accesses of a store. */
  function AfterStore(entries: seq<Entry>, read: Outcome, write: Outcome): seq<Entry> {
    if read.Fault? then entries else AfterAccess(AfterAccess(entries, read, false), write, true)
  }

  lemma BytesAreWord(mem: seq<byte>, pa: nat, bytes: seq<byte>)
    requires pa + 4 <= |mem| && bytes == mem[pa..pa + 4]
    ensures WordOf(bytes[0], bytes[1], bytes[2], bytes[3]) == WordIn(mem, pa)
  {
    hide WordOf;
  }

  /** The first of the two stores alone: the bytes up to the end of a's word. */
  lemma HalfStore(image: seq<byte>, a: nat, register: bv32)
    requires Base(a) + 4 <= |image|
    ensures StoredRight(image, a, register) == Splice(image, a, BytesOf(register)[..4 - a % 4])
  {
    hide ByteOf, StoredRight;
    var half := StoredRight(image, a, register);
    assert |half| == |image| by { StoredSize(image, a, register); }
    forall j | 0 <= j < |image|
      ensures half[j] == Splice(image, a, BytesOf(register)[..4 - a % 4])[j]
    {
      StoredRightBytes(image, a, register, j);
    }
  }

  /** What a store does through a page table that maps frames. */
  lemma StoreOnMapped(entries: seq<Entry>, frames: seq<nat>, a: nat)
    requires Maps(entries, frames)
    ensures var read, write := ByTable(entries, Base(a), 4, false), ByTable(entries, Base(a), 4, true);
            && ValidFrames(frames) && Maps(AfterStore(entries, read, write), frames)
            && StoreOutcome(read, write) ==
               if a / PAGE_SIZE < |frames| then Hit(a / PAGE_SIZE, PhysAddr(frames, Base(a))) else Fault(AddressError)
  {
    hide AfterAccess, ByTable;
    var read, write := ByTable(entries, Base(a), 4, false), ByTable(entries, Base(a), 4, true);
    WordInPage(a);
    MapsTranslates(entries, frames, Base(a), 4, false);
    MapsTranslates(entries, frames, Base(a), 4, true);
    AccessKeepsMaps(entries, frames, read, false);
    AccessKeepsMaps(AfterAccess(entries, read, false), frames, write, true);
  }

  lemma LoadOnMapped(entries: seq<Entry>, frames: seq<nat>, a: nat)
    requires Maps(entries, frames)
    ensures var read := ByTable(entries, Base(a), 4, false);
            && ValidFrames(frames) && Maps(AfterAccess(entries, read, false), frames)
            && read == if a / PAGE_SIZE < |frames| then Hit(a / PAGE_SIZE, PhysAddr(frames, Base(a))) else Fault(AddressError)
  {
    hide AfterAccess, ByTable;
    WordInPage(a);
    MapsTranslates(entries, frames, Base(a), 4, false);
    AccessKeepsMaps(entries, frames, ByTable(entries, Base(a), 4, false), false);
  }

  /** Finishing a load when none is pending changes nothing, and a settled register keeps its value. */
  lemma DelayedTwice(c: Cpu, r: nat)
    requires ValidCpu(c) && r < NUM_GP_REGS && Settled(c, r)
    ensures Delayed(Delayed(c, 0, 0), 0, 0) == Delayed(c, 0, 0) && Delayed(c, 0, 0).gpr[r] == c.gpr[r]
  {
  }

  /** What is left of LWR a, LWL a+3 when the second instruction faults: rt holds the merged half. */
  lemma HalfLoad(c: Cpu, image: seq<byte>, rt: nat, a: nat, trap: bool)
    requires ValidCpu(c) && 0 < rt < NUM_GP_REGS && Base(a) + 4 <= |image|
    ensures var c1 := Delayed(Between(Lwr(c, image, rt, a), trap), 0, 0);
            && c1.loadReg == 0 && c1.gpr[rt] == LoadRight(Latest(c, rt), WordIn(image, Base(a)), a % 4)
            && (forall r :: 0 <= r < NUM_GP_REGS && r != rt ==> c1.gpr[r] == Delayed(c, 0, 0).gpr[r])
  {
    hide WordIn, LoadRight;
  }

  // ---- the instructions ----

  class Simulator {
    const machine: Machine
    var registers: seq<bv32>
    var loadReg: nat
    var loadValue: bv32

    ghost predicate Valid()
      reads this, machine
    {
      machine.Valid() && ValidCpu(View())
    }

    ghost function View(): Cpu
      reads this
    {
      Cpu(registers, loadReg, loadValue)
    }

    constructor (m: Machine)
      requires m.Valid()
      ensures Valid() && machine == m && View() == Cpu(seq(NUM_GP_REGS, _ => 0), 0, 0)
    {
      machine := m;
      registers, loadReg, loadValue := seq(NUM_GP_REGS, _ => 0), 0, 0;
    }

    method DelayedLoad(nextReg: nat, nextValue: bv32)
      requires Valid() && nextReg < NUM_GP_REGS
      modifies this
      ensures Valid() && View() == Delayed(old(View()), nextReg, nextValue)
    {
      registers := registers[loadReg := loadValue];
      loadReg, loadValue := nextReg, nextValue;
      registers := registers[0 := 0];
    }

    /** LWR (right) and LWL: one aligned read, merged into the latest value of rt. */
    method LoadWord(right: bool, rs: nat, rt: nat, extra: int) returns (e: Exception)
      requires Valid() && rs < NUM_GP_REGS && rt < NUM_GP_REGS
      modifies this, machine.Entries()
      ensures Valid()
      ensures var a, c := (Number(old(registers)[rs]) + extra) % WORD_VALUES, old(View());
              var read := old(machine.Spec(Base((Number(registers[rs]) + extra) % WORD_VALUES), 4, false));
              && machine.Entries()[..] == AfterAccess(old(machine.Entries()[..]), read, false)
              && match read {
                   case Fault(x) => e == x != NoException && View() == Delayed(c, 0, 0)
                   case Hit(_, pa) =>
                     && e == NoException && pa + 4 <= MEMORY_SIZE == machine.mainMemory.Length
                     && var word, latest := WordIn(machine.mainMemory[..], pa), Latest(c, rt);
                        View() == Delayed(c, rt, if right then LoadRight(latest, word, a % 4) else LoadLeft(latest, word, a % 4))
                 }
    {
      hide WordOf, WordIn, LoadRight, LoadLeft, ByTable, ByTlb, Number, AfterAccess;
      var tmp := (Number(registers[rs]) + extra) % WORD_VALUES;
      var byte := tmp % 4;
      var bytes;
      ghost var read := machine.Spec(tmp - byte, 4, false);
      e, bytes := machine.ReadMem(tmp - byte, 4);
      if e != NoException {
        DelayedLoad(0, 0);
        return;
      }
      var word := WordOf(bytes[0], bytes[1], bytes[2], bytes[3]);
      BytesAreWord(machine.mainMemory[..], read.physAddr, bytes);
      var next := if loadReg == rt then loadValue else registers[rt];
      DelayedLoad(rt, if right then LoadRight(next, word, byte) else LoadLeft(next, word, byte));
    }

    /** SWR (right) and SWL: one aligned read, merged with rt, and one aligned write. */
    method StoreWord(right: bool, rs: nat, rt: nat, extra: int) returns (e: Exception)
      requires Valid() && rs < NUM_GP_REGS && rt < NUM_GP_REGS
      modifies this, machine.Entries(), machine.mainMemory
      ensures Valid() && View() == Delayed(old(View()), 0, 0)
      ensures var a, register := (Number(old(registers)[rs]) + extra) % WORD_VALUES, old(registers)[rt];
              var read := old(machine.Spec(Base((Number(registers[rs]) + extra) % WORD_VALUES), 4, false));
              var write := old(machine.Spec(Base((Number(registers[rs]) + extra) % WORD_VALUES), 4, true));
              && machine.Entries()[..] == AfterStore(old(machine.Entries()[..]), read, write)
              && match StoreOutcome(read, write) {
                   case Fault(x) => e == x != NoException && machine.mainMemory[..] == old(machine.mainMemory[..])
                   case Hit(_, pa) =>
                     && e == NoException && pa + 4 <= MEMORY_SIZE == machine.mainMemory.Length
                     && var mem := old(machine.mainMemory[..]);
                        machine.mainMemory[..] == if right then MemoryRight(mem, pa, a, register) else MemoryLeft(mem, pa, a, register)
                 }
    {
      hide WordOf, WordIn, StoreRight, StoreLeft, ByTable, ByTlb, Number, BytesOf, Splice, Touched, Delayed, AfterAccess;
      var tmp := (Number(registers[rs]) + extra) % WORD_VALUES;
      var byte := tmp % 4;
      var bytes;
      ghost var entries, read, write := machine.Entries()[..], machine.Spec(tmp - byte, 4, false), machine.Spec(tmp - byte, 4, true);
      e, bytes := machine.ReadMem(tmp - byte, 4);
      if e != NoException {
        FaultTouchesNothing(entries, read, false);
        DelayedLoad(0, 0);
        return;
      }
      AccessKeepsTranslation(entries, read, false, tmp - byte, 4, true);
      assert machine.Spec(tmp - byte, 4, true) == write;
      assert write.Hit? ==> write.physAddr == read.physAddr by { WriteHitsWhereReadDoes(entries, tmp - byte); }
      var word := WordOf(bytes[0], bytes[1], bytes[2], bytes[3]);
      BytesAreWord(machine.mainMemory[..], read.physAddr, bytes);
      var value := if right then StoreRight(word, registers[rt], byte) else StoreLeft(word, registers[rt], byte);
      e := machine.WriteMem(tmp - byte, BytesOf(value));
      DelayedLoad(0, 0);
    }

    /** A store through a page table that maps frames, as a store into the image. */
    method StoreMapped(right: bool, rs: nat, rt: nat, extra: int, ghost frames: seq<nat>) returns (e: Exception)
      requires Valid() && rs < NUM_GP_REGS && rt < NUM_GP_REGS
      requires machine.tlb == null && Maps(machine.Entries()[..], frames)
      modifies this, machine.Entries(), machine.mainMemory
      ensures Valid() && View() == Delayed(old(View()), 0, 0) && Maps(machine.Entries()[..], frames)
      ensures StoredInto(old(machine.mainMemory[..]), machine.mainMemory[..], frames, right, (Number(old(registers)[rs]) + extra) % WORD_VALUES, old(registers)[rt], e)
    {
      hide Number, Delayed, Maps, ByTable, Translation.View, MemoryRight, MemoryLeft, StoredRight, StoredLeft,
        AfterAccess, AfterStore, StoreOutcome, PhysAddr, ValidFrames;
      ghost var a, register, mem := (Number(registers[rs]) + extra) % WORD_VALUES, registers[rt], machine.mainMemory[..];
      StoreOnMapped(machine.Entries()[..], frames, a);
      if a / PAGE_SIZE < |frames| {
        StoreThroughTable(mem, frames, a, register);
      }
      e := StoreWord(right, rs, rt, extra);
    }

    /** A load through a page table that maps frames, as a load from the image. */
    method LoadMapped(right: bool, rs: nat, rt: nat, extra: int, ghost frames: seq<nat>) returns (e: Exception)
      requires Valid() && rs < NUM_GP_REGS && rt < NUM_GP_REGS
      requires machine.tlb == null && Maps(machine.Entries()[..], frames)
      modifies this, machine.Entries()
      ensures Valid() && Maps(machine.Entries()[..], frames)
      ensures LoadedFrom(machine.mainMemory[..], frames, right, (Number(old(registers)[rs]) + extra) % WORD_VALUES, rt, old(View()), View(), e)
    {
      hide Number, Delayed, Maps, ByTable, Translation.View, WordIn, LoadRight, LoadLeft, AfterAccess, PhysAddr, ValidFrames;
      ghost var a, mem := (Number(registers[rs]) + extra) % WORD_VALUES, machine.mainMemory[..];
      LoadOnMapped(machine.Entries()[..], frames, a);
      if a / PAGE_SIZE < |frames| {
        WordThroughTable(mem, frames, a);
      }
      e := LoadWord(right, rs, rt, extra);
    }

    /**
     SWR rt,x(rs) then SWL rt,x+3(rs) through a page table, with or without
     a trap in between.
     */
    method ExecuteStorePair(rs: nat, rt: nat, x: int, y: int, trap: bool, ghost frames: seq<nat>) returns (e: Exception)
      requires Valid() && rs < NUM_GP_REGS && rt < NUM_GP_REGS && Settled(View(), rs) && Settled(View(), rt)
      requires machine.tlb == null && Maps(machine.Entries()[..], frames)
      requires y == x + 3
      modifies this, machine.Entries(), machine.mainMemory
      ensures Valid() && View() == Delayed(old(View()), 0, 0) && Maps(machine.Entries()[..], frames)
      ensures PairStored(old(machine.mainMemory[..]), machine.mainMemory[..], frames, (Number(old(registers)[rs]) + x) % WORD_VALUES, old(registers)[rt], e)
    {
      hide Number, Delayed, Settled, Maps, StoredInto, PairStored;
      ghost var c, a, register, mem := View(), (Number(registers[rs]) + x) % WORD_VALUES, registers[rt], machine.mainMemory[..];
      DelayedTwice(c, rs);
      DelayedTwice(c, rt);
      e := StoreMapped(true, rs, rt, x, frames);
      if e != NoException {
        FirstStoreFaults(mem, machine.mainMemory[..], frames, a, register, e);
        return;
      }
      if trap {
        DelayedLoad(0, 0);
      }
      ghost var mem1 := machine.mainMemory[..];
      SecondStoreAddress(mem, mem1, frames, Number(registers[rs]), x, register);
      e := StoreMapped(false, rs, rt, y, frames);
      StoresMakePair(mem, mem1, machine.mainMemory[..], frames, a, register, e);
    }

    /**
     LWR rt,x(rs) then LWL rt,x+3(rs) through a page table, with or without
     a trap in between; a trap needs a base register other than rt.
     */
    method ExecuteLoadPair(rs: nat, rt: nat, x: int, y: int, trap: bool, ghost frames: seq<nat>) returns (e: Exception)
      requires Valid() && rs < NUM_GP_REGS && 0 < rt < NUM_GP_REGS && Settled(View(), rs)
      requires trap ==> rs != rt
      requires machine.tlb == null && Maps(machine.Entries()[..], frames)
      requires y == x + 3
      modifies this, machine.Entries()
      ensures Valid() && Maps(machine.Entries()[..], frames)
      ensures PairLoaded(machine.mainMemory[..], frames, (Number(old(registers)[rs]) + x) % WORD_VALUES, rt, old(View()), View(), e)
    {
      hide Number, Delayed, Settled, Maps, LoadedFrom, PairLoaded;
      ghost var c, a, mem := View(), (Number(registers[rs]) + x) % WORD_VALUES, machine.mainMemory[..];
      e := LoadMapped(true, rs, rt, x, frames);
      if e != NoException {
        FirstLoadFaults(mem, frames, a, rt, c, View(), e);
        return;
      }
      FirstLoadDone(mem, frames, a, rs, rt, c, View(), trap);
      ghost var c1 := View();
      if trap {
        DelayedLoad(0, 0);
      }
      SecondLoadAddress(mem, frames, Number(c.gpr[rs]), x, rt, c, c1);
      e := LoadMapped(false, rs, rt, y, frames);
      LoadsMakePair(mem, frames, a, rt, c, c1, View(), trap, e);
    }
  }

  // ---- what one access, and the pair, does to an image ----

  /** mem' is mem after SWR (right) or SWL at a, through the frames; e says whether it faulted. */
  ghost predicate StoredInto(mem: seq<byte>, mem': seq<byte>, frames: seq<nat>, right: bool, a: nat, register: bv32, e: Exception) {
    && |mem| == |mem'| == MEMORY_SIZE && ValidFrames(frames)
    && var image, image' := View(mem, frames), View(mem', frames);
       if a / PAGE_SIZE < |frames| then
         && e == NoException && Base(a) + 4 <= |image|
         && image' == if right then StoredRight(image, a, register) else StoredLeft(image, a, register)
       else e == AddressError && mem' == mem
  }

  /**
   The pair of stores: both parts in place; or, when a + 3 is off the end of the image, only the
   bytes up to the end of a's word; or nothing, when a is off the end too.
   */
  ghost predicate PairStored(mem: seq<byte>, mem': seq<byte>, frames: seq<nat>, a: nat, register: bv32, e: Exception) {
    && |mem| == |mem'| == MEMORY_SIZE && ValidFrames(frames)
    && var image, image' := View(mem, frames), View(mem', frames);
       if (a + 3) / PAGE_SIZE < |frames| then
         e == NoException && a + 4 <= |image| && image' == Splice(image, a, BytesOf(register))
       else if a / PAGE_SIZE < |frames| then
         e == AddressError && Base(a) + 4 <= |image| && image' == Splice(image, a, BytesOf(register)[..4 - a % 4])
       else e == AddressError && mem' == mem
  }

  /** An address in the image is far from wrapping around, so three more is three more. */
  lemma ThreeMore(frames: seq<nat>, base: nat, x: int)
    requires ValidFrames(frames) && (base + x) % WORD_VALUES / PAGE_SIZE < |frames|
    ensures (base + (x + 3)) % WORD_VALUES == (base + x) % WORD_VALUES + 3
  {
    FramesFit(frames);
    var q, a := (base + x) / WORD_VALUES, (base + x) % WORD_VALUES;
    assert base + (x + 3) == q * WORD_VALUES + (a + 3);
  }

  lemma SecondStoreAddress(mem: seq<byte>, mem1: seq<byte>, frames: seq<nat>, base: nat, x: int, register: bv32)
    requires StoredInto(mem, mem1, frames, true, (base + x) % WORD_VALUES, register, NoException)
    ensures (base + (x + 3)) % WORD_VALUES == (base + x) % WORD_VALUES + 3
  {
    hide View, StoredRight;
    ThreeMore(frames, base, x);
  }

  lemma SecondLoadAddress(mem: seq<byte>, frames: seq<nat>, base: nat, x: int, rt: nat, c: Cpu, c1: Cpu)
    requires ValidCpu(c) && rt < NUM_GP_REGS
    requires LoadedFrom(mem, frames, true, (base + x) % WORD_VALUES, rt, c, c1, NoException)
    ensures (base + (x + 3)) % WORD_VALUES == (base + x) % WORD_VALUES + 3
  {
    hide View, Lwr;
    ThreeMore(frames, base, x);
  }

  lemma FirstStoreFaults(mem: seq<byte>, mem': seq<byte>, frames: seq<nat>, a: nat, register: bv32, e: Exception)
    requires StoredInto(mem, mem', frames, true, a, register, e) && e != NoException
    ensures PairStored(mem, mem', frames, a, register, e)
  {
    assert a / PAGE_SIZE <= (a + 3) / PAGE_SIZE;
  }

  lemma StoresMakePair(mem: seq<byte>, mem1: seq<byte>, mem2: seq<byte>, frames: seq<nat>, a: nat, register: bv32, e: Exception)
    requires StoredInto(mem, mem1, frames, true, a, register, NoException)
    requires StoredInto(mem1, mem2, frames, false, a + 3, register, e)
    ensures PairStored(mem, mem2, frames, a, register, e)
  {
    hide View, StoredRight, StoredLeft, BytesOf;
    var image := View(mem, frames);
    if (a + 3) / PAGE_SIZE < |frames| {
      UnalignedStore(image, a, register);
    } else {
      HalfStore(image, a, register);
    }
  }

  /** c' is the registers after LWR (right) or LWL at a into rt, through the frames. */
  ghost predicate LoadedFrom(mem: seq<byte>, frames: seq<nat>, right: bool, a: nat, rt: nat, c: Cpu, c': Cpu, e: Exception)
    requires ValidCpu(c) && rt < NUM_GP_REGS
  {
    && |mem| == MEMORY_SIZE && ValidFrames(frames)
    && var image := View(mem, frames);
       if a / PAGE_SIZE < |frames| then
         && e == NoException && Base(a) + 4 <= |image|
         && c' == if right then Lwr(c, image, rt, a) else Lwl(c, image, rt, a)
       else e == AddressError && c' == Delayed(c, 0, 0)
  }

  /**
   The pair of loads: the word at a is on its way to rt, and every other register is what the load
   pending before leaves; or, when a + 3 is off the end of the image, rt holds the merged half; or,
   when a is off the end too, only the load pending before has been finished.
   */
  ghost predicate PairLoaded(mem: seq<byte>, frames: seq<nat>, a: nat, rt: nat, c: Cpu, c': Cpu, e: Exception)
    requires ValidCpu(c) && rt < NUM_GP_REGS
  {
    && |mem| == MEMORY_SIZE && ValidFrames(frames) && ValidCpu(c')
    && var image := View(mem, frames);
       if a / PAGE_SIZE < |frames| then
         && Base(a) + 4 <= |image|
         && (forall r :: 0 <= r < NUM_GP_REGS && r != rt ==> c'.gpr[r] == Delayed(c, 0, 0).gpr[r])
         && if (a + 3) / PAGE_SIZE < |frames| then
              e == NoException && a + 4 <= |image| && c'.loadReg == rt && c'.loadValue == WordIn(image, a)
            else
              e == AddressError && c'.loadReg == 0 && c'.gpr[rt] == LoadRight(Latest(c, rt), WordIn(image, Base(a)), a % 4)
       else e == AddressError && c' == Delayed(c, 0, 0)
  }

  lemma FirstLoadFaults(mem: seq<byte>, frames: seq<nat>, a: nat, rt: nat, c: Cpu, c': Cpu, e: Exception)
    requires ValidCpu(c) && rt < NUM_GP_REGS
    requires LoadedFrom(mem, frames, true, a, rt, c, c', e) && e != NoException
    ensures PairLoaded(mem, frames, a, rt, c, c', e)
  {
  }

  lemma FirstLoadDone(mem: seq<byte>, frames: seq<nat>, a: nat, rs: nat, rt: nat, c: Cpu, c': Cpu, trap: bool)
    requires ValidCpu(c) && rs < NUM_GP_REGS && rt < NUM_GP_REGS && Settled(c, rs) && (trap ==> rs != rt)
    requires LoadedFrom(mem, frames, true, a, rt, c, c', NoException)
    ensures ValidCpu(c') && Between(c', trap).gpr[rs] == c.gpr[rs]
  {
    hide View, WordIn, LoadRight, Settled;
    BaseRegisterKept(c, View(mem, frames), rs, rt, a, trap);
  }

  lemma LoadsMakePair(mem: seq<byte>, frames: seq<nat>, a: nat, rt: nat, c: Cpu, c1: Cpu, c2: Cpu, trap: bool, e: Exception)
    requires ValidCpu(c) && ValidCpu(c1) && 0 < rt < NUM_GP_REGS
    requires LoadedFrom(mem, frames, true, a, rt, c, c1, NoException)
    requires LoadedFrom(mem, frames, false, a + 3, rt, Between(c1, trap), c2, e)
    ensures PairLoaded(mem, frames, a, rt, c, c2, e)
  {
    hide View, WordIn, LoadRight, LoadLeft;
    var image := View(mem, frames);
    if (a + 3) / PAGE_SIZE < |frames| {
      LoadPair(c, image, rt, a, trap, 0, 0);
      UnalignedLoad(image, a, Latest(c, rt));
    } else {
      HalfLoad(c, image, rt, a, trap);
    }
  }
}
