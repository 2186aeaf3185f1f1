/**
 Address translation and user memory of machine/translate.cc: one page table or one TLB, their
 use and dirty bits, the exceptions, and reads and writes of 1, 2 or 4 bytes.
 */
module Translation {
  import opened Bytes

  const PAGE_SIZE := 128
  const NUM_PHYS_PAGES := 128
  const MEMORY_SIZE := NUM_PHYS_PAGES * PAGE_SIZE
  const TLB_SIZE := 4

  datatype Entry = Entry(virtualPage: int, physicalPage: int, valid: bool, readOnly: bool, use: bool, dirty: bool)

  datatype Exception = NoException | PageFault | ReadOnly | BusError | AddressError

  datatype Outcome = Fault(e: Exception) | Hit(index: nat, physAddr: nat)

  predicate ValidSize(size: nat) { size == 1 || size == 2 || size == 4 }

  predicate Aligned(addr: nat, size: nat) { !(size == 4 && addr % 4 != 0) && !(size == 2 && addr % 2 != 0) }

  /** The first valid TLB entry for a page, or the TLB's length. */
  function TlbIndex(tlb: seq<Entry>, vpn: nat): (i: nat)
    ensures i <= |tlb|
    ensures i < |tlb| ==> tlb[i].valid && tlb[i].virtualPage == vpn
    ensures forall j :: 0 <= j < i ==> !(tlb[j].valid && tlb[j].virtualPage == vpn)
  {
    if tlb == [] then 0
    else if tlb[0].valid && tlb[0].virtualPage == vpn then 0
    else 1 + TlbIndex(tlb[1..], vpn)
  }

  /** What an entry that was found answers. */
  function Through(entry: Entry, index: nat, addr: nat, writing: bool): Outcome {
    if entry.readOnly && writing then Fault(ReadOnly)
    else if !(0 <= entry.physicalPage < NUM_PHYS_PAGES) then Fault(BusError)
    else Hit(index, entry.physicalPage * PAGE_SIZE + addr % PAGE_SIZE)
  }

  function ByTable(table: seq<Entry>, addr: nat, size: nat, writing: bool): Outcome {
    var vpn := addr / PAGE_SIZE;
    if !Aligned(addr, size) then Fault(AddressError)
    else if vpn >= |table| then Fault(AddressError)
    else if !table[vpn].valid then Fault(PageFault)
    else Through(table[vpn], vpn, addr, writing)
  }

  function ByTlb(tlb: seq<Entry>, addr: nat, size: nat, writing: bool): Outcome {
    var i := TlbIndex(tlb, addr / PAGE_SIZE);
    if !Aligned(addr, size) then Fault(AddressError)
    else if i == |tlb| then Fault(PageFault)
    else Through(tlb[i], i, addr, writing)
  }

  function Touched(entry: Entry, writing: bool): Entry { entry.(use := true, dirty := entry.dirty || writing) }

  /** The entries after an access: the one that was hit is touched. */
  function AfterAccess(entries: seq<Entry>, o: Outcome, writing: bool): seq<Entry> {
    if o.Hit? && o.index < |entries| then entries[o.index := Touched(entries[o.index], writing)] else entries
  }

  // ---- properties of translation ----

  lemma RemainderBy2(n: nat, q: nat, r: nat)
    requires r < 2 && n == 2 * q + r
    ensures n % 2 == r
  {
    assert n == 2 * (n / 2) + n % 2;
  }

  lemma RemainderBy4(n: nat, q: nat, r: nat)
    requires r < 4 && n == 4 * q + r
    ensures n % 4 == r
  {
    assert n == 4 * (n / 4) + n % 4;
  }

  /** A remainder by 2 or 4 survives taking the remainder by the page size. */
  lemma OffsetRemainder(addr: nat, k: nat)
    requires k == 2 || k == 4
    ensures addr % k == addr % PAGE_SIZE % k
  {
    var q, r := addr / PAGE_SIZE, addr % PAGE_SIZE;
    var h, s := r / k, r % k;
    assert addr == PAGE_SIZE * q + r;
    if k == 2 {
      assert r == 2 * h + s;
      RemainderBy2(addr, 64 * q + h, s);
    } else {
      assert r == 4 * h + s;
      RemainderBy4(addr, 32 * q + h, s);
    }
  }

  /** An aligned access lies in one page. */
  lemma AlignedFits(addr: nat, size: nat)
    requires ValidSize(size) && Aligned(addr, size)
    ensures addr % PAGE_SIZE + size <= PAGE_SIZE
  {
    if size > 1 {
      OffsetRemainder(addr, size);
      OffsetBelow(addr % PAGE_SIZE, size);
    }
  }

  lemma OffsetBelow(offset: nat, k: nat)
    requires (k == 2 || k == 4) && offset < PAGE_SIZE && offset % k == 0
    ensures offset + k <= PAGE_SIZE
  {
    assert k == 2 ==> offset == 2 * (offset / 2);
    assert k == 4 ==> offset == 4 * (offset / 4);
  }

  /** An access that translates stays inside one physical page, and inside memory. */
  lemma HitStaysInPage(addr: nat, size: nat, entry: Entry, index: nat, writing: bool)
    requires ValidSize(size) && Aligned(addr, size) && Through(entry, index, addr, writing).Hit?
    ensures var pa := Through(entry, index, addr, writing).physAddr;
            && pa / PAGE_SIZE == (pa + size - 1) / PAGE_SIZE == entry.physicalPage
            && addr / PAGE_SIZE == (addr + size - 1) / PAGE_SIZE
            && pa + size <= MEMORY_SIZE
  {
    hide Aligned;
    AlignedFits(addr, size);
    assert addr == addr / PAGE_SIZE * PAGE_SIZE + addr % PAGE_SIZE;
  }

  /** The TLB holds copies of page table entries; use and dirty bits may differ. */
  ghost predicate CopiesTable(tlb: seq<Entry>, table: seq<Entry>) {
    forall i :: 0 <= i < |tlb| && tlb[i].valid ==>
      var vpn := tlb[i].virtualPage;
      && 0 <= vpn < |table| && table[vpn].valid
      && tlb[i].physicalPage == table[vpn].physicalPage && tlb[i].readOnly == table[vpn].readOnly
  }

  predicate SameOutcome(a: Outcome, b: Outcome) {
    match a
    case Fault(e) => b == Fault(e)
    case Hit(_, pa) => b.Hit? && b.physAddr == pa
  }

  /** Such a TLB answers as the page table does, except for a fault on a page it does not hold. */
  lemma TlbAgreesWithTable(tlb: seq<Entry>, table: seq<Entry>, addr: nat, size: nat, writing: bool)
    requires CopiesTable(tlb, table)
    ensures Aligned(addr, size) && TlbIndex(tlb, addr / PAGE_SIZE) == |tlb| ==> ByTlb(tlb, addr, size, writing) == Fault(PageFault)
    ensures !(Aligned(addr, size) && TlbIndex(tlb, addr / PAGE_SIZE) == |tlb|) ==>
              SameOutcome(ByTlb(tlb, addr, size, writing), ByTable(table, addr, size, writing))
  {
    var i := TlbIndex(tlb, addr / PAGE_SIZE);
    if i < |tlb| {
      assert tlb[i].valid;
    }
  }

  /** The bits a translation sets never change a later translation. */
  lemma TouchingKeepsTranslation(table: seq<Entry>, i: nat, w: bool, addr: nat, size: nat, writing: bool)
    requires i < |table|
    ensures ByTable(table[i := Touched(table[i], w)], addr, size, writing) == ByTable(table, addr, size, writing)
    ensures ByTlb(table[i := Touched(table[i], w)], addr, size, writing) == ByTlb(table, addr, size, writing)
  {
    TouchingKeepsIndex(table, i, w, addr / PAGE_SIZE);
  }

  lemma TouchingKeepsIndex(tlb: seq<Entry>, i: nat, w: bool, vpn: nat)
    requires i < |tlb|
    ensures TlbIndex(tlb[i := Touched(tlb[i], w)], vpn) == TlbIndex(tlb, vpn)
  {
    var tlb' := tlb[i := Touched(tlb[i], w)];
    assert forall j :: 0 <= j < |tlb| ==> (tlb'[j].valid && tlb'[j].virtualPage == vpn) == (tlb[j].valid && tlb[j].virtualPage == vpn);
  }

  datatype Access = Access(addr: nat, size: nat, writing: bool)

  function Answer(entries: seq<Entry>, isTlb: bool, a: Access): Outcome {
    if isTlb then ByTlb(entries, a.addr, a.size, a.writing) else ByTable(entries, a.addr, a.size, a.writing)
  }

  function AfterAll(entries: seq<Entry>, isTlb: bool, accesses: seq<Access>): seq<Entry> {
    if accesses == [] then entries
    else
      var before, a := AfterAll(entries, isTlb, accesses[..|accesses| - 1]), accesses[|accesses| - 1];
      AfterAccess(before, Answer(before, isTlb, a), a.writing)
  }

  /** Some access went through entry i; with writing, some write did. */
  ghost predicate Reached(entries: seq<Entry>, isTlb: bool, accesses: seq<Access>, i: nat, writing: bool) {
    exists a :: a in accesses && (writing ==> a.writing) && ThroughEntry(entries, isTlb, a, i)
  }

  predicate ThroughEntry(entries: seq<Entry>, isTlb: bool, a: Access, i: nat) {
    Answer(entries, isTlb, a).Hit? && Answer(entries, isTlb, a).index == i
  }

  lemma AnswersKept(entries: seq<Entry>, isTlb: bool, o: Outcome, w: bool, a: Access)
    ensures Answer(AfterAccess(entries, o, w), isTlb, a) == Answer(entries, isTlb, a)
  {
    hide ByTable, ByTlb;
    if o.Hit? && o.index < |entries| {
      TouchingKeepsTranslation(entries, o.index, w, a.addr, a.size, a.writing);
    }
  }

  lemma {:induction false} AllAnswersKept(entries: seq<Entry>, isTlb: bool, accesses: seq<Access>, a: Access)
    ensures Answer(AfterAll(entries, isTlb, accesses), isTlb, a) == Answer(entries, isTlb, a)
  {
    hide Answer, AfterAccess;
    if accesses != [] {
      var n := |accesses| - 1;
      var before := AfterAll(entries, isTlb, accesses[..n]);
      AllAnswersKept(entries, isTlb, accesses[..n], a);
      AnswersKept(before, isTlb, Answer(before, isTlb, accesses[n]), accesses[n].writing, a);
    }
  }

  /**
   Over any run of accesses: an entry is in use exactly if it was or one went through it, dirty
   exactly if it was or a write went through it, and nothing else of it changes.
   */
  lemma {:induction false} UseAndDirtyAreExact(entries: seq<Entry>, isTlb: bool, accesses: seq<Access>, i: nat)
    requires i < |entries|
    ensures |AfterAll(entries, isTlb, accesses)| == |entries|
    ensures var e, e' := entries[i], AfterAll(entries, isTlb, accesses)[i];
            && (e'.use <==> e.use || Reached(entries, isTlb, accesses, i, false))
            && (e'.dirty <==> e.dirty || Reached(entries, isTlb, accesses, i, true))
            && e' == e.(use := e'.use, dirty := e'.dirty)
  {
    hide Answer;
    if accesses != [] {
      var n := |accesses| - 1;
      UseAndDirtyAreExact(entries, isTlb, accesses[..n], i);
      AllAnswersKept(entries, isTlb, accesses[..n], accesses[n]);
      OneMore(entries, isTlb, accesses, i, false);
      OneMore(entries, isTlb, accesses, i, true);
    }
  }

  /** No run of accesses makes a read-only page dirty. */
  lemma ReadOnlyStaysClean(entries: seq<Entry>, isTlb: bool, accesses: seq<Access>, i: nat)
    requires i < |entries| && entries[i].readOnly
    ensures |AfterAll(entries, isTlb, accesses)| == |entries| && AfterAll(entries, isTlb, accesses)[i].dirty == entries[i].dirty
  {
    hide AfterAll;
    UseAndDirtyAreExact(entries, isTlb, accesses, i);
  }

  lemma OneMore(entries: seq<Entry>, isTlb: bool, accesses: seq<Access>, i: nat, writing: bool)
    requires accesses != []
    ensures var n := |accesses| - 1;
            Reached(entries, isTlb, accesses, i, writing) <==>
              || Reached(entries, isTlb, accesses[..n], i, writing)
              || ((writing ==> accesses[n].writing) && ThroughEntry(entries, isTlb, accesses[n], i))
  {
    hide ThroughEntry;
    var n := |accesses| - 1;
    assert accesses == accesses[..n] + [accesses[n]];
  }

  // ---- the virtual image a set of frames presents ----

  ghost predicate ValidFrames(frames: seq<nat>) {
    && (forall i :: 0 <= i < |frames| ==> frames[i] < NUM_PHYS_PAGES)
    && (forall i, j :: 0 <= i < j < |frames| ==> frames[i] != frames[j])
  }

  function Elements(s: seq<nat>): set<nat> { set x | x in s }

  lemma {:induction false} DistinctCount(s: seq<nat>)
    requires forall i, j :: 0 <= i < j < |s| ==> s[i] != s[j]
    ensures |Elements(s)| == |s|
  {
    if s != [] {
      var n := |s| - 1;
      DistinctCount(s[..n]);
      assert Elements(s) == Elements(s[..n]) + {s[n]};
    }
  }

  lemma {:induction false} BelowCount(e: set<nat>, n: nat)
    requires forall x :: x in e ==> x < n
    ensures |e| <= n
  {
    if n > 0 {
      BelowCount(e - {n - 1}, n - 1);
    } else {
      assert e == {};
    }
  }

  /** No table maps more pages than there are frames. */
  lemma FramesFit(frames: seq<nat>)
    requires ValidFrames(frames)
    ensures |frames| <= NUM_PHYS_PAGES
  {
    DistinctCount(frames);
    BelowCount(Elements(frames), NUM_PHYS_PAGES);
  }

  function PhysAddr(frames: seq<nat>, v: nat): nat
    requires v / PAGE_SIZE < |frames|
  {
    frames[v / PAGE_SIZE] * PAGE_SIZE + v % PAGE_SIZE
  }

  ghost function View(mem: seq<byte>, frames: seq<nat>): (image: seq<byte>)
    requires |mem| == MEMORY_SIZE && ValidFrames(frames)
    ensures |image| == |frames| * PAGE_SIZE
  {
    seq(|frames| * PAGE_SIZE, v requires 0 <= v < |frames| * PAGE_SIZE => mem[PhysAddr(frames, v)])
  }

  function Splice(s: seq<byte>, at: nat, bytes: seq<byte>): (r: seq<byte>)
    requires at + |bytes| <= |s|
    ensures |r| == |s|
    ensures forall k :: 0 <= k < |s| ==> r[k] == if at <= k < at + |bytes| then bytes[k - at] else s[k]
  {
    s[..at] + bytes + s[at + |bytes|..]
  }

  /** The entries map virtual page i to frame i of frames, for reading and writing. */
  ghost predicate Maps(entries: seq<Entry>, frames: seq<nat>) {
    && |entries| == |frames| && ValidFrames(frames)
    && forall i :: 0 <= i < |entries| ==> entries[i].valid && !entries[i].readOnly && entries[i].physicalPage == frames[i]
  }

  /** Such a page table hits every aligned address of the image, and nothing else. */
  lemma MapsTranslates(entries: seq<Entry>, frames: seq<nat>, addr: nat, size: nat, writing: bool)
    requires Maps(entries, frames)
    ensures ByTable(entries, addr, size, writing) ==
            if Aligned(addr, size) && addr / PAGE_SIZE < |frames| then Hit(addr / PAGE_SIZE, PhysAddr(frames, addr)) else Fault(AddressError)
  {
  }

  lemma AccessKeepsMaps(entries: seq<Entry>, frames: seq<nat>, o: Outcome, writing: bool)
    requires Maps(entries, frames)
    ensures Maps(AfterAccess(entries, o, writing), frames)
  {
  }

  lemma OnePhysPage(frames: seq<nat>, v: nat, k: nat)
    requires v % PAGE_SIZE + k < PAGE_SIZE && v / PAGE_SIZE < |frames|
    ensures (v + k) / PAGE_SIZE == v / PAGE_SIZE
    ensures PhysAddr(frames, v + k) == PhysAddr(frames, v) + k
  {
  }

  /** Bytes read from one page of memory are the bytes of the image. */
  lemma ReadIsView(mem: seq<byte>, frames: seq<nat>, v: nat, size: nat)
    requires |mem| == MEMORY_SIZE && ValidFrames(frames)
    requires v / PAGE_SIZE < |frames| && v % PAGE_SIZE + size <= PAGE_SIZE
    ensures PhysAddr(frames, v) + size <= MEMORY_SIZE && v + size <= |frames| * PAGE_SIZE
    ensures mem[PhysAddr(frames, v)..PhysAddr(frames, v) + size] == View(mem, frames)[v..v + size]
  {
    var pa := PhysAddr(frames, v);
    forall u | v <= u < v + size
      ensures View(mem, frames)[u] == mem[pa + u - v]
    {
      OnePhysPage(frames, v, u - v);
    }
    assert View(mem, frames)[v..v + size] == mem[pa..pa + size];
  }

  lemma SameFrame(frames: seq<nat>, v: nat, u: nat, size: nat)
    requires ValidFrames(frames)
    requires v / PAGE_SIZE < |frames| && v % PAGE_SIZE + size <= PAGE_SIZE && u / PAGE_SIZE < |frames|
    ensures PhysAddr(frames, v) <= PhysAddr(frames, u) < PhysAddr(frames, v) + size <==> v <= u < v + size
    ensures PhysAddr(frames, u) < MEMORY_SIZE
  {
    var i, j := v / PAGE_SIZE, u / PAGE_SIZE;
    assert v == i * PAGE_SIZE + v % PAGE_SIZE && u == j * PAGE_SIZE + u % PAGE_SIZE;
    if i != j {
      assert frames[i] != frames[j];
    }
  }

  /** Writing bytes into one page of memory writes exactly those bytes of the image. */
  lemma WriteChangesView(mem: seq<byte>, frames: seq<nat>, v: nat, bytes: seq<byte>)
    requires |mem| == MEMORY_SIZE && ValidFrames(frames)
    requires v / PAGE_SIZE < |frames| && v % PAGE_SIZE + |bytes| <= PAGE_SIZE
    ensures PhysAddr(frames, v) + |bytes| <= MEMORY_SIZE && v + |bytes| <= |frames| * PAGE_SIZE
    ensures View(Splice(mem, PhysAddr(frames, v), bytes), frames) == Splice(View(mem, frames), v, bytes)
  {
    var pa := PhysAddr(frames, v);
    assert v == v / PAGE_SIZE * PAGE_SIZE + v % PAGE_SIZE;
    var mem' := Splice(mem, pa, bytes);
    forall u | 0 <= u < |frames| * PAGE_SIZE
      ensures View(mem', frames)[u] == Splice(View(mem, frames), v, bytes)[u]
    {
      SameFrame(frames, v, u, |bytes|);
      if v <= u < v + |bytes| {
        OnePhysPage(frames, v, u - v);
      }
    }
  }

  /** An image depends on the bytes of its own frames only. */
  lemma ViewFrame(mem: seq<byte>, mem': seq<byte>, frames: seq<nat>)
    requires |mem| == |mem'| == MEMORY_SIZE && ValidFrames(frames)
    requires forall a :: 0 <= a < MEMORY_SIZE && a / PAGE_SIZE in frames ==> mem'[a] == mem[a]
    ensures View(mem', frames) == View(mem, frames)
  {
    forall u | 0 <= u < |frames| * PAGE_SIZE
      ensures View(mem', frames)[u] == View(mem, frames)[u]
    {
      var a := PhysAddr(frames, u);
      assert a / PAGE_SIZE == frames[u / PAGE_SIZE];
    }
  }

  /** Writing through one set of frames leaves the image of a disjoint set alone. */
  lemma WriteLeavesOtherView(mem: seq<byte>, frames: seq<nat>, v: nat, bytes: seq<byte>, others: seq<nat>)
    requires |mem| == MEMORY_SIZE && ValidFrames(frames) && ValidFrames(others)
    requires v / PAGE_SIZE < |frames| && v % PAGE_SIZE + |bytes| <= PAGE_SIZE
    requires frames[v / PAGE_SIZE] !in others
    ensures PhysAddr(frames, v) + |bytes| <= MEMORY_SIZE
    ensures View(Splice(mem, PhysAddr(frames, v), bytes), others) == View(mem, others)
  {
    ViewFrame(mem, Splice(mem, PhysAddr(frames, v), bytes), others);
  }

  // ---- the machine ----

  class Machine {
    const mainMemory: array<byte>
    var tlb: array?<Entry>
    var pageTable: array?<Entry>

    ghost predicate Valid()
      reads this
    {
      && mainMemory.Length == MEMORY_SIZE
      && (tlb == null <==> pageTable != null)
      && (tlb != null ==> tlb.Length == TLB_SIZE)
      && var memory: object := mainMemory; memory != tlb && memory != pageTable
    }

    constructor (useTlb: bool, table: array<Entry>)
      requires useTlb ==> table.Length == TLB_SIZE
      ensures Valid() && fresh(mainMemory)
      ensures forall i :: 0 <= i < MEMORY_SIZE ==> mainMemory[i] == 0
      ensures Entries() == table && (tlb != null <==> useTlb)
    {
      mainMemory := new byte[MEMORY_SIZE](_ => 0);
      tlb := if useTlb then table else null;
      pageTable := if useTlb then null else table;
    }

    function Entries(): array<Entry>
      requires Valid()
      reads this
    {
      if tlb == null then pageTable else tlb
    }

    ghost function Spec(addr: nat, size: nat, writing: bool): Outcome
      requires Valid()
      reads this, Entries()
    {
      if tlb == null then ByTable(Entries()[..], addr, size, writing) else ByTlb(Entries()[..], addr, size, writing)
    }

    method Translate(virtAddr: nat, size: nat, writing: bool) returns (e: Exception, physAddr: nat)
      requires Valid() && ValidSize(size)
      modifies Entries()
      ensures Entries()[..] == AfterAccess(old(Entries()[..]), old(Spec(virtAddr, size, writing)), writing)
      ensures match old(Spec(virtAddr, size, writing)) {
                case Fault(x) => e == x && e != NoException
                case Hit(_, pa) => e == NoException && physAddr == pa && pa + size <= MEMORY_SIZE
              }
    {
      physAddr := 0;
      if (size == 4 && virtAddr % 4 != 0) || (size == 2 && virtAddr % 2 != 0) {
        return AddressError, 0;
      }
      var vpn, offset := virtAddr / PAGE_SIZE, virtAddr % PAGE_SIZE;
      var index := 0;
      if tlb == null {
        if vpn >= pageTable.Length {
          return AddressError, 0;
        } else if !pageTable[vpn].valid {
          return PageFault, 0;
        }
        index := vpn;
      } else {
        while index < TLB_SIZE && !(tlb[index].valid && tlb[index].virtualPage == vpn)
          invariant index <= TLB_SIZE
          invariant forall j :: 0 <= j < index ==> !(tlb[j].valid && tlb[j].virtualPage == vpn)
        {
          index := index + 1;
        }
        assert index == TlbIndex(tlb[..], vpn);
        if index == TLB_SIZE {
          return PageFault, 0;
        }
      }
      var entry := Entries()[index];
      if entry.readOnly && writing {
        return ReadOnly, 0;
      }
      if !(0 <= entry.physicalPage < NUM_PHYS_PAGES) {
        return BusError, 0;
      }
      HitStaysInPage(virtAddr, size, entry, index, writing);
      Entries()[index] := Touched(entry, writing);
      return NoException, entry.physicalPage * PAGE_SIZE + offset;
    }

    /** The bytes at a virtual address, or the exception raised. */
    method ReadMem(addr: nat, size: nat) returns (e: Exception, bytes: seq<byte>)
      requires Valid() && ValidSize(size)
      modifies Entries()
      ensures Entries()[..] == AfterAccess(old(Entries()[..]), old(Spec(addr, size, false)), false)
      ensures match old(Spec(addr, size, false)) {
                case Fault(x) => e == x && e != NoException
                case Hit(_, pa) => e == NoException && pa + size <= MEMORY_SIZE && bytes == mainMemory[pa..pa + size]
              }
    {
      var pa;
      e, pa := Translate(addr, size, false);
      bytes := if e == NoException then mainMemory[pa..pa + size] else [];
    }

    /** Store bytes at a virtual address, or raise an exception and store nothing. */
    method WriteMem(addr: nat, bytes: seq<byte>) returns (e: Exception)
      requires Valid() && ValidSize(|bytes|)
      modifies Entries(), mainMemory
      ensures Entries()[..] == AfterAccess(old(Entries()[..]), old(Spec(addr, |bytes|, true)), true)
      ensures match old(Spec(addr, |bytes|, true)) {
                case Fault(x) => e == x && e != NoException && mainMemory[..] == old(mainMemory[..])
                case Hit(_, pa) =>
                  && e == NoException && pa + |bytes| <= MEMORY_SIZE
                  && mainMemory[..] == Splice(old(mainMemory[..]), pa, bytes)
              }
    {
      var pa;
      e, pa := Translate(addr, |bytes|, true);
      if e == NoException {
        assert mainMemory[..] == old(mainMemory[..]);
        ghost var entries := Entries()[..];
        forall a | pa <= a < pa + |bytes| {
          mainMemory[a] := bytes[a - pa];
        }
        assert mainMemory[..] == Splice(old(mainMemory[..]), pa, bytes);
        assert Entries()[..] == entries;
      }
    }
  }
}
