/**
 The program loader of userprog/addrspace.cc: frames taken from the free-frame bitmap, zeroed,
 and filled page by page from an object file, so that the page table presents a flat image.
 */
module AddrSpaces {
  import opened Bytes
  import opened Bitmaps
  import opened Storage
  import opened OpenFiles
  import opened Translation

  const USER_STACK_SIZE := 1024
  const NOFF_MAGIC := 0xbadfad
  const NOFF_HEADER_SIZE := 52

  datatype Segment = Segment(virtualAddr: uint32, inFileAddr: uint32, size: uint32)

  datatype NoffHeader = NoffHeader(magic: uint32, code: Segment, initData: Segment, readonlyData: Segment, uninitData: Segment)

  /** The header as it lies in the first bytes of the file. */
  function NoffOf(c: seq<byte>): NoffHeader
    requires |c| >= NOFF_HEADER_SIZE
  {
    var ns := DecodeInts(c[..NOFF_HEADER_SIZE]);
    NoffHeader(ns[0], Segment(ns[1], ns[2], ns[3]), Segment(ns[4], ns[5], ns[6]),
               Segment(ns[7], ns[8], ns[9]), Segment(ns[10], ns[11], ns[12]))
  }

  function Pages(h: NoffHeader): nat {
    DivRoundUp(h.code.size + h.readonlyData.size + h.initData.size + h.uninitData.size + USER_STACK_SIZE, PAGE_SIZE)
  }

  /**
   What the loader computes with: code at address 0 and not empty, then initialized data, then
   read-only data, without gaps; and a program no larger than memory.
   */
  predicate Loadable(h: NoffHeader) {
    && h.magic == NOFF_MAGIC
    && h.code.virtualAddr == 0 && h.code.size > 0
    && h.initData.virtualAddr == h.code.size
    && h.readonlyData.virtualAddr == h.code.size + h.initData.size
    && Pages(h) <= NUM_PHYS_PAGES
  }

  /** Writing the header's thirteen words and reading them back gives each segment's fields. */
  lemma NoffRoundTrip(h: NoffHeader, rest: seq<byte>)
    ensures NoffOf(EncodeInts([h.magic,
                               h.code.virtualAddr, h.code.inFileAddr, h.code.size,
                               h.initData.virtualAddr, h.initData.inFileAddr, h.initData.size,
                               h.readonlyData.virtualAddr, h.readonlyData.inFileAddr, h.readonlyData.size,
                               h.uninitData.virtualAddr, h.uninitData.inFileAddr, h.uninitData.size]) + rest) == h
  {
    hide EncodeInts, DecodeInts;
    var ns := [h.magic,
               h.code.virtualAddr, h.code.inFileAddr, h.code.size,
               h.initData.virtualAddr, h.initData.inFileAddr, h.initData.size,
               h.readonlyData.virtualAddr, h.readonlyData.inFileAddr, h.readonlyData.size,
               h.uninitData.virtualAddr, h.uninitData.inFileAddr, h.uninitData.size];
    DecodeEncodeInts(ns);
    assert (EncodeInts(ns) + rest)[..NOFF_HEADER_SIZE] == EncodeInts(ns);
  }

  // ---- the flat image ----

  /** A byte of the file; reading past its end leaves memory at zero. */
  function FileByteOrZero(c: seq<byte>, position: nat): byte { if position < |c| then c[position] else 0 }

  predicate Within(s: Segment, v: nat) { s.virtualAddr <= v < s.virtualAddr + s.size }

  /** What the program must find at virtual address v. */
  function FlatByte(c: seq<byte>, h: NoffHeader, v: nat): byte {
    if Within(h.code, v) then FileByteOrZero(c, h.code.inFileAddr + (v - h.code.virtualAddr))
    else if Within(h.initData, v) then FileByteOrZero(c, h.initData.inFileAddr + (v - h.initData.virtualAddr))
    else if Within(h.readonlyData, v) then FileByteOrZero(c, h.readonlyData.inFileAddr + (v - h.readonlyData.virtualAddr))
    else 0
  }

  function Flat(c: seq<byte>, h: NoffHeader, n: nat): (image: seq<byte>)
    ensures |image| == n * PAGE_SIZE
  {
    seq(n * PAGE_SIZE, v requires 0 <= v < n * PAGE_SIZE => FlatByte(c, h, v))
  }

  /**
   The image holds the segments, the uninitialized data and a stack, both zero, and less than a
   page more.
   */
  ghost predicate RoomForStack(image: seq<byte>, h: NoffHeader) {
    var loaded := h.code.size + h.initData.size + h.readonlyData.size;
    && loaded + h.uninitData.size + USER_STACK_SIZE <= |image| < loaded + h.uninitData.size + USER_STACK_SIZE + PAGE_SIZE
    && forall v :: loaded <= v < |image| ==> image[v] == 0
  }

  lemma FlatHasStack(c: seq<byte>, h: NoffHeader)
    requires Loadable(h)
    ensures RoomForStack(Flat(c, h, Pages(h)), h)
  {
    hide Flat;
    SegmentsMatch(c, h);
    PageSplit(h.code.size + h.readonlyData.size + h.initData.size + h.uninitData.size + USER_STACK_SIZE);
  }

  /** Memory outside the frames is as it was. */
  ghost predicate OutsideSame(mem0: seq<byte>, mem: seq<byte>, frames: seq<nat>) {
    |mem| == |mem0| == MEMORY_SIZE && forall a :: 0 <= a < MEMORY_SIZE && a / PAGE_SIZE !in frames ==> mem[a] == mem0[a]
  }

  ghost predicate ZeroInside(mem: seq<byte>, frames: seq<nat>) {
    |mem| == MEMORY_SIZE && forall a :: 0 <= a < MEMORY_SIZE && a / PAGE_SIZE in frames ==> mem[a] == 0
  }

  /** The first done bytes of the image are in place and the rest is zero. */
  ghost predicate Partial(mem0: seq<byte>, mem: seq<byte>, frames: seq<nat>, flat: seq<byte>, done: nat) {
    && OutsideSame(mem0, mem, frames) && ValidFrames(frames) && done <= |flat| == |frames| * PAGE_SIZE
    && var image := View(mem, frames);
       forall v :: 0 <= v < |flat| ==> image[v] == if v < done then flat[v] else 0
  }

  lemma NothingTaken(bits: seq<bool>, mem: seq<byte>)
    requires |mem| == MEMORY_SIZE
    ensures Take(bits, 0) == (bits, []) && PageEntries([]) == [] && OutsideSame(mem, mem, []) && ZeroInside(mem, [])
  {
  }

  /** The frame FindAndSet gives next. */
  lemma TakeNext(bits: seq<bool>, i: nat)
    requires i < CountClear(bits) && |bits| == NUM_PHYS_PAGES
    ensures var (bits1, frames) := Take(bits, i);
            var frame := FirstClear(bits1);
            && 0 <= frame < NUM_PHYS_PAGES && Take(bits, i + 1) == (bits1[frame := true], frames + [frame])
            && PageEntries(frames + [frame]) == PageEntries(frames) + [Entry(i, frame, true, false, false, false)]
  {
    hide CountClear;
    TakeIsAllocation(bits, i + 1);
  }

  lemma FrameZeroed(mem0: seq<byte>, mem: seq<byte>, mem': seq<byte>, frames: seq<nat>, frame: nat)
    requires OutsideSame(mem0, mem, frames) && ZeroInside(mem, frames) && |mem'| == MEMORY_SIZE
    requires forall a :: 0 <= a < MEMORY_SIZE ==> mem'[a] == if frame * PAGE_SIZE <= a < (frame + 1) * PAGE_SIZE then 0 else mem[a]
    ensures OutsideSame(mem0, mem', frames + [frame]) && ZeroInside(mem', frames + [frame])
  {
  }

  lemma ZeroIsPartial(mem0: seq<byte>, mem: seq<byte>, frames: seq<nat>, flat: seq<byte>)
    requires OutsideSame(mem0, mem, frames) && ZeroInside(mem, frames) && ValidFrames(frames) && |flat| == |frames| * PAGE_SIZE
    ensures Partial(mem0, mem, frames, flat, 0)
  {
    forall v | 0 <= v < |flat|
      ensures View(mem, frames)[v] == 0
    {
      var a := PhysAddr(frames, v);
      assert a / PAGE_SIZE == frames[v / PAGE_SIZE];
    }
  }

  /** The stretch of the image from done on is the stretch of the file from position on. */
  ghost predicate Matches(c: seq<byte>, flat: seq<byte>, done: nat, n: nat, position: nat) {
    done + n <= |flat| && forall v :: done <= v < done + n ==> flat[v] == FileByteOrZero(c, position + v - done)
  }

  lemma MatchesPart(c: seq<byte>, flat: seq<byte>, done: nat, n: nat, position: nat, skip: nat, m: nat)
    requires Matches(c, flat, done, n, position) && skip + m <= n
    ensures Matches(c, flat, done + skip, m, position + skip)
  {
    forall v | done + skip <= v < done + skip + m
      ensures flat[v] == FileByteOrZero(c, position + skip + v - (done + skip))
    {
      assert position + skip + v - (done + skip) == position + v - done;
    }
  }

  /** One ReadAt into one page extends the part of the image that is in place. */
  lemma ChunkExtends(mem0: seq<byte>, mem: seq<byte>, mem': seq<byte>, frames: seq<nat>, flat: seq<byte>,
                     c: seq<byte>, page: nat, offset: nat, n: nat, position: nat, m: nat)
    requires Partial(mem0, mem, frames, flat, page * PAGE_SIZE + offset)
    requires page < |frames| && offset < PAGE_SIZE && offset + n <= PAGE_SIZE
    requires Matches(c, flat, page * PAGE_SIZE + offset, n, position)
    requires m == Moved(n, position, |c|)
    requires |mem'| == MEMORY_SIZE && frames[page] * PAGE_SIZE + offset + m <= MEMORY_SIZE
    requires mem' == Splice(mem, frames[page] * PAGE_SIZE + offset, Slice(c, position, m))
    ensures Partial(mem0, mem', frames, flat, page * PAGE_SIZE + offset + n)
  {
    var done := page * PAGE_SIZE + offset;
    var bytes := Slice(c, position, m);
    assert done / PAGE_SIZE == page && done % PAGE_SIZE == offset;
    assert PhysAddr(frames, done) == frames[page] * PAGE_SIZE + offset;
    WriteChangesView(mem, frames, done, bytes);
    var image, image' := View(mem, frames), View(mem', frames);
    forall v | 0 <= v < |flat|
      ensures image'[v] == if v < done + n then flat[v] else 0
    {
      assert image[v] == if v < done then flat[v] else 0;
      if done <= v < done + n {
        assert flat[v] == FileByteOrZero(c, position + v - done);
      }
    }
    assert OutsideSame(mem0, mem', frames);
  }

  // ---- page arithmetic ----

  /** The size of the last of the pages that n bytes fill; C's remainder makes it 0 for n = 0. */
  function LastSize(n: nat): nat { if n == 0 then 0 else (n - 1) % PAGE_SIZE + 1 }

  lemma PageSplit(n: nat)
    ensures LastSize(n) <= PAGE_SIZE
    ensures n > 0 ==> DivRoundUp(n, PAGE_SIZE) > 0 && LastSize(n) > 0 && (DivRoundUp(n, PAGE_SIZE) - 1) * PAGE_SIZE + LastSize(n) == n
    ensures n == 0 ==> DivRoundUp(n, PAGE_SIZE) == 0
  {
  }

  /** Bytes appended to a bytes: some fill up the last page, the others take whole pages from there. */
  function FillSize(a: nat, n: nat): nat { Min(PAGE_SIZE - LastSize(a), n) }

  lemma FillSplit(a: nat, n: nat)
    requires a > 0
    ensures var first := FillSize(a, n);
            && first <= n && LastSize(a) + first <= PAGE_SIZE
            && DivRoundUp(a + n, PAGE_SIZE) == DivRoundUp(a, PAGE_SIZE) + DivRoundUp(n - first, PAGE_SIZE)
            && (n > first ==> a + first == DivRoundUp(a, PAGE_SIZE) * PAGE_SIZE)
            && (LastSize(a) == PAGE_SIZE ==> first == 0)
  {
    PageSplit(a);
    var first := FillSize(a, n);
    var full := DivRoundUp(a, PAGE_SIZE);
    if n > first {
      assert a + n == full * PAGE_SIZE + (n - first);
    }
  }

  lemma SegmentsMatch(c: seq<byte>, h: NoffHeader)
    requires Loadable(h)
    ensures var flat := Flat(c, h, Pages(h));
            && Matches(c, flat, 0, h.code.size, h.code.inFileAddr)
            && Matches(c, flat, h.code.size, h.initData.size, h.initData.inFileAddr)
            && Matches(c, flat, h.code.size + h.initData.size, h.readonlyData.size, h.readonlyData.inFileAddr)
            && (forall v :: h.code.size + h.initData.size + h.readonlyData.size <= v < |flat| ==> flat[v] == 0)
  {
    var flat := Flat(c, h, Pages(h));
    PageSplit(h.code.size + h.readonlyData.size + h.initData.size + h.uninitData.size + USER_STACK_SIZE);
    assert h.code.size + h.initData.size + h.readonlyData.size <= |flat|;
  }

  function PageEntries(frames: seq<nat>): seq<Entry> {
    seq(|frames|, i requires 0 <= i < |frames| => Entry(i, frames[i], true, false, false, false))
  }

  /** A TLB filled from a loaded page table answers as that table does, on the pages it holds. */
  lemma TlbServesPages(frames: seq<nat>, tlb: seq<Entry>, addr: nat, size: nat, writing: bool)
    requires forall i :: 0 <= i < |tlb| && tlb[i].valid ==> tlb[i] in PageEntries(frames)
    ensures CopiesTable(tlb, PageEntries(frames))
    ensures Aligned(addr, size) && TlbIndex(tlb, addr / PAGE_SIZE) < |tlb| ==>
              SameOutcome(ByTlb(tlb, addr, size, writing), ByTable(PageEntries(frames), addr, size, writing))
  {
    hide ByTlb, ByTable, SameOutcome, Aligned;
    forall i | 0 <= i < |tlb| && tlb[i].valid
      ensures 0 <= tlb[i].virtualPage < |frames| && PageEntries(frames)[tlb[i].virtualPage] == tlb[i]
    {
      assert tlb[i] in PageEntries(frames);
    }
    TlbAgreesWithTable(tlb, PageEntries(frames), addr, size, writing);
  }

  class AddrSpace {
    var numPages: nat
    var pageTable: array<Entry>

    constructor ()
      ensures numPages == 0 && fresh(pageTable)
    {
      numPages := 0;
      pageTable := new Entry[0];
    }

    ghost predicate Apart(machine: Machine)
      reads this
    {
      var table: object := pageTable; table != machine.mainMemory
    }

    /** Read n bytes of the file into one page, at an offset. */
    method CopyChunk(machine: Machine, executable: OpenFile, page: nat, offset: nat, n: nat, position: nat,
                     ghost mem0: seq<byte>, ghost frames: seq<nat>, ghost flat: seq<byte>)
      requires executable.Valid() && machine.mainMemory.Length == MEMORY_SIZE
      requires pageTable.Length == |frames| && pageTable[..] == PageEntries(frames)
      requires page < |frames| && offset < PAGE_SIZE && offset + n <= PAGE_SIZE
      requires Partial(mem0, machine.mainMemory[..], frames, flat, page * PAGE_SIZE + offset)
      requires Matches(executable.Contents(), flat, page * PAGE_SIZE + offset, n, position)
      modifies machine.mainMemory
      ensures Partial(mem0, machine.mainMemory[..], frames, flat, page * PAGE_SIZE + offset + n)
    {
      hide Partial, Matches, FileByte, Content, Slice, Splice, Moved;
      ghost var mem := machine.mainMemory[..];
      PartialFrames(mem0, mem, frames, flat, page * PAGE_SIZE + offset, page);
      assert pageTable[..][page].physicalPage == frames[page];
      var at := pageTable[page].physicalPage * PAGE_SIZE + offset;
      ghost var c := executable.Contents();
      MovedAtMost(n, position, |c|);
      var m := executable.ReadAt(machine.mainMemory, at, n, position);
      ReadIsSplice(mem, machine.mainMemory[..], at, Slice(c, position, m));
      ChunkExtends(mem0, mem, machine.mainMemory[..], frames, flat, c, page, offset, n, position, m);
    }

    /** Read n bytes of the file into whole pages, the last one perhaps in part. */
    method CopyPages(machine: Machine, executable: OpenFile, page: nat, n: nat, position: nat,
                     ghost mem0: seq<byte>, ghost frames: seq<nat>, ghost flat: seq<byte>)
      requires Apart(machine)
      requires executable.Valid() && machine.mainMemory.Length == MEMORY_SIZE
      requires pageTable.Length == |frames| && pageTable[..] == PageEntries(frames)
      requires page + DivRoundUp(n, PAGE_SIZE) <= |frames|
      requires Partial(mem0, machine.mainMemory[..], frames, flat, page * PAGE_SIZE)
      requires Matches(executable.Contents(), flat, page * PAGE_SIZE, n, position)
      modifies machine.mainMemory
      ensures Partial(mem0, machine.mainMemory[..], frames, flat, page * PAGE_SIZE + n)
    {
      hide Partial, Matches, FileByte, Content, PageEntries, DivRoundUp;
      PageSplit(n);
      var numPages, lastSize := DivRoundUp(n, PAGE_SIZE), LastSize(n);
      for j := 0 to numPages
        invariant Partial(mem0, machine.mainMemory[..], frames, flat, page * PAGE_SIZE + if j < numPages then j * PAGE_SIZE else n)
      {
        var size := if j < numPages - 1 then PAGE_SIZE else lastSize;
        MatchesPart(executable.Contents(), flat, page * PAGE_SIZE, n, position, j * PAGE_SIZE, size);
        assert page * PAGE_SIZE + j * PAGE_SIZE == (page + j) * PAGE_SIZE;
        CopyChunk(machine, executable, page + j, 0, size, position + j * PAGE_SIZE, mem0, frames, flat);
      }
    }

    /** Read a segment in behind the first before bytes: first into the rest of their last page. */
    method AppendSegment(machine: Machine, executable: OpenFile, page: nat, before: nat, n: nat, position: nat,
                         ghost mem0: seq<byte>, ghost frames: seq<nat>, ghost flat: seq<byte>)
      returns (page': nat)
      requires Apart(machine)
      requires executable.Valid() && machine.mainMemory.Length == MEMORY_SIZE
      requires pageTable.Length == |frames| && pageTable[..] == PageEntries(frames)
      requires before > 0 && page == DivRoundUp(before, PAGE_SIZE) && DivRoundUp(before + n, PAGE_SIZE) <= |frames|
      requires Partial(mem0, machine.mainMemory[..], frames, flat, before)
      requires Matches(executable.Contents(), flat, before, n, position)
      modifies machine.mainMemory
      ensures page' == DivRoundUp(before + n, PAGE_SIZE)
      ensures Partial(mem0, machine.mainMemory[..], frames, flat, before + n)
    {
      hide Partial, Matches, FileByte, Content, PageEntries, DivRoundUp;
      PageSplit(before);
      FillSplit(before, n);
      var offset := LastSize(before);
      var first := FillSize(before, n);
      if offset != PAGE_SIZE {
        MatchesPart(executable.Contents(), flat, before, n, position, 0, first);
        CopyChunk(machine, executable, page - 1, offset, first, position, mem0, frames, flat);
      }
      page' := page + DivRoundUp(n - first, PAGE_SIZE);
      if n > first {
        MatchesPart(executable.Contents(), flat, before, n, position, first, n - first);
        CopyPages(machine, executable, page, n - first, position + first, mem0, frames, flat);
      }
    }

    /** Take n frames, enter them in the page table and zero them. */
    method AllocateFrames(machine: Machine, freeFrames: Bitmap, n: nat)
      requires freeFrames.Valid() && freeFrames.numBits == NUM_PHYS_PAGES && machine.mainMemory.Length == MEMORY_SIZE
      requires var words: object := freeFrames.words; words != machine.mainMemory
      requires n <= CountClear(freeFrames.Bits())
      modifies this, machine.mainMemory, freeFrames.words
      ensures fresh(pageTable) && pageTable.Length == n == numPages
      ensures var (bits, frames) := Take(old(freeFrames.Bits()), n);
              && freeFrames.Bits() == bits
              && pageTable[..] == PageEntries(frames)
              && OutsideSame(old(machine.mainMemory[..]), machine.mainMemory[..], frames)
              && ZeroInside(machine.mainMemory[..], frames)
    {
      hide CountClear, FirstClear, Unpack, OutsideSame, ZeroInside, Take, PageEntries;
      numPages := n;
      pageTable := new Entry[n];
      ghost var bits0, mem0 := freeFrames.Bits(), machine.mainMemory[..];
      NothingTaken(bits0, mem0);
      for i := 0 to n
        invariant numPages == n && fresh(pageTable) && pageTable.Length == n
        invariant freeFrames.Bits() == Take(bits0, i).0
        invariant pageTable[..i] == PageEntries(Take(bits0, i).1)
        invariant OutsideSame(mem0, machine.mainMemory[..], Take(bits0, i).1)
        invariant ZeroInside(machine.mainMemory[..], Take(bits0, i).1)
      {
        TakeNext(bits0, i);
        var frame := freeFrames.FindAndSet();
        pageTable[i] := Entry(i, frame, true, false, false, false);
        assert pageTable[..i + 1] == pageTable[..i] + [pageTable[i]];
        ghost var mem := machine.mainMemory[..];
        ZeroFrame(machine, frame);
        FrameZeroed(mem0, mem, machine.mainMemory[..], Take(bits0, i).1, frame);
      }
      assert pageTable[..n] == pageTable[..];
    }

    /** bzero of one frame. */
    method ZeroFrame(machine: Machine, frame: nat)
      requires machine.mainMemory.Length == MEMORY_SIZE && frame < NUM_PHYS_PAGES
      modifies machine.mainMemory
      ensures forall a :: 0 <= a < MEMORY_SIZE ==>
                machine.mainMemory[..][a] == if frame * PAGE_SIZE <= a < (frame + 1) * PAGE_SIZE then 0 else old(machine.mainMemory[..])[a]
    {
      forall a | frame * PAGE_SIZE <= a < (frame + 1) * PAGE_SIZE {
        machine.mainMemory[a] := 0;
      }
    }

    /** Copy code, initialized data and read-only data behind one another. */
    method CopySegments(machine: Machine, executable: OpenFile, h: NoffHeader, ghost mem0: seq<byte>, ghost frames: seq<nat>)
      requires Apart(machine)
      requires executable.Valid() && machine.mainMemory.Length == MEMORY_SIZE && Loadable(h)
      requires pageTable.Length == |frames| == Pages(h) && pageTable[..] == PageEntries(frames)
      requires Partial(mem0, machine.mainMemory[..], frames, Flat(executable.Contents(), h, Pages(h)), 0)
      modifies machine.mainMemory
      ensures Partial(mem0, machine.mainMemory[..], frames, Flat(executable.Contents(), h, Pages(h)),
                      h.code.size + h.initData.size + h.readonlyData.size)
    {
      hide Partial, Matches, FileByte, Content, PageEntries, DivRoundUp, Flat, View;
      ghost var flat := Flat(executable.Contents(), h, Pages(h));
      SegmentsMatch(executable.Contents(), h);
      SegmentsFit(h);
      CopyPages(machine, executable, 0, h.code.size, h.code.inFileAddr, mem0, frames, flat);
      var page := DivRoundUp(h.code.size, PAGE_SIZE);
      if h.initData.size > 0 {
        page := AppendSegment(machine, executable, page, h.code.size, h.initData.size, h.initData.inFileAddr, mem0, frames, flat);
      }
      if h.readonlyData.size > 0 {
        page := AppendSegment(machine, executable, page, h.code.size + h.initData.size, h.readonlyData.size,
                              h.readonlyData.inFileAddr, mem0, frames, flat);
      }
    }

    /** AddrSpace::Load; false if there is no such file or not enough free memory, and then nothing has changed. */
    method Load(machine: Machine, executable: OpenFile?, freeFrames: Bitmap) returns (ok: bool)
      requires executable != null ==>
                 executable.Valid() && |executable.Contents()| >= NOFF_HEADER_SIZE && Loadable(NoffOf(executable.Contents()))
      requires freeFrames.Valid() && freeFrames.numBits == NUM_PHYS_PAGES && machine.mainMemory.Length == MEMORY_SIZE
      requires var words: object := freeFrames.words; words != machine.mainMemory
      modifies this, machine.mainMemory, freeFrames.words
      ensures ok <==> executable != null && Pages(NoffOf(executable.Contents())) <= CountClear(old(freeFrames.Bits()))
      ensures !ok ==> machine.mainMemory[..] == old(machine.mainMemory[..]) && freeFrames.Bits() == old(freeFrames.Bits())
      ensures ok ==>
                && numPages == Pages(NoffOf(executable.Contents()))
                && var (bits, frames) := Take(old(freeFrames.Bits()), numPages);
                   && freeFrames.Bits() == bits
                   && pageTable[..] == PageEntries(frames)
                   && ValidFrames(frames)
                   && OutsideSame(old(machine.mainMemory[..]), machine.mainMemory[..], frames)
                   && View(machine.mainMemory[..], frames) == Flat(executable.Contents(), NoffOf(executable.Contents()), numPages)
                   && RoomForStack(View(machine.mainMemory[..], frames), NoffOf(executable.Contents()))
    {
      hide CountClear, FirstClear, Unpack, Partial, Matches, FileByte, Content, PageEntries, DivRoundUp, NoffOf, Flat, View, RoomForStack;
      if executable == null {
        return false;
      }
      ghost var c := executable.Contents();
      var header := new byte[NOFF_HEADER_SIZE];
      var _ := executable.ReadAt(header, 0, NOFF_HEADER_SIZE, 0);
      var h := NoffOf(header[..]);
      assert h == NoffOf(c) by { HeaderInFile(c, header[..]); }
      numPages := Pages(h);
      var free := freeFrames.NumClear();
      if numPages > free {
        numPages := 0;
        return false;
      }
      ghost var mem0, bits0 := machine.mainMemory[..], freeFrames.Bits();
      AllocateFrames(machine, freeFrames, numPages);
      ghost var frames, flat := Take(bits0, numPages).1, Flat(c, h, numPages);
      FramesAreValid(bits0, numPages);
      ZeroIsPartial(mem0, machine.mainMemory[..], frames, flat);
      CopySegments(machine, executable, h, mem0, frames);
      LoadedIsFlat(c, h, mem0, machine.mainMemory[..], frames);
      FlatHasStack(c, h);
      return true;
    }

    /** The destructor gives the frames back. */
    method Destroy(freeFrames: Bitmap, ghost frames: seq<nat>)
      requires freeFrames.Valid() && (forall i :: 0 <= i < |frames| ==> frames[i] < freeFrames.numBits)
      requires pageTable.Length == numPages == |frames|
      requires forall i :: 0 <= i < numPages ==> pageTable[i].physicalPage == frames[i]
      modifies freeFrames.words
      ensures freeFrames.Bits() == Free(old(freeFrames.Bits()), frames)
    {
      hide Unpack;
      var table := pageTable[..];
      for i := 0 to numPages
        invariant freeFrames.Bits() == Free(old(freeFrames.Bits()), frames[..i])
      {
        freeFrames.Clear(table[i].physicalPage);
        assert frames[..i + 1][..i] == frames[..i];
      }
      assert frames[..numPages] == frames;
    }
  }

  lemma HeaderInFile(c: seq<byte>, header: seq<byte>)
    requires |c| >= NOFF_HEADER_SIZE == |header| && header == Slice(c, 0, NOFF_HEADER_SIZE)
    ensures NoffOf(header) == NoffOf(c)
  {
    hide DecodeInts;
    assert header[..NOFF_HEADER_SIZE] == c[..NOFF_HEADER_SIZE];
  }

  lemma FramesAreValid(bits: seq<bool>, n: nat)
    requires n <= CountClear(bits) && |bits| == NUM_PHYS_PAGES
    ensures ValidFrames(Take(bits, n).1)
  {
    TakeIsAllocation(bits, n);
  }

  lemma SegmentsFit(h: NoffHeader)
    ensures DivRoundUp(h.code.size, PAGE_SIZE) <= DivRoundUp(h.code.size + h.initData.size, PAGE_SIZE)
    ensures DivRoundUp(h.code.size + h.initData.size, PAGE_SIZE) <= DivRoundUp(h.code.size + h.initData.size + h.readonlyData.size, PAGE_SIZE)
    ensures DivRoundUp(h.code.size + h.initData.size + h.readonlyData.size, PAGE_SIZE) <= Pages(h)
  {
  }

  lemma LoadedIsFlat(c: seq<byte>, h: NoffHeader, mem0: seq<byte>, mem: seq<byte>, frames: seq<nat>)
    requires Loadable(h) && |frames| == Pages(h)
    requires Partial(mem0, mem, frames, Flat(c, h, Pages(h)), h.code.size + h.initData.size + h.readonlyData.size)
    ensures OutsideSame(mem0, mem, frames) && ValidFrames(frames) && View(mem, frames) == Flat(c, h, Pages(h))
  {
    SegmentsMatch(c, h);
  }

  lemma MovedAtMost(n: nat, position: nat, length: nat)
    ensures Moved(n, position, length) <= n
  {
  }

  lemma ReadIsSplice(mem: seq<byte>, mem': seq<byte>, at: nat, bytes: seq<byte>)
    requires |mem'| == |mem| && at + |bytes| <= |mem| && (bytes != [] ==> mem'[at..at + |bytes|] == bytes)
    requires forall k :: 0 <= k < |mem| && !(at <= k < at + |bytes|) ==> mem'[k] == mem[k]
    ensures mem' == Splice(mem, at, bytes)
  {
    forall k | at <= k < at + |bytes|
      ensures mem'[k] == bytes[k - at]
    {
      assert mem'[at..at + |bytes|][k - at] == mem'[k];
    }
  }

  lemma PartialFrames(mem0: seq<byte>, mem: seq<byte>, frames: seq<nat>, flat: seq<byte>, done: nat, page: nat)
    requires Partial(mem0, mem, frames, flat, done) && page < |frames|
    ensures frames[page] < NUM_PHYS_PAGES
  {
  }
}
