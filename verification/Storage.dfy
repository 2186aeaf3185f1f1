/**
 Sectors, file headers and open files: filesys/filehdr.cc, filesys/openfile.cc, and the
 synchronous sector interface they stand on.
 */
module Storage {
  import opened Bytes
  import opened Bitmaps

  const SECTOR_SIZE := 128
  const NUM_SECTORS := 1024
  const NUM_DIRECT := 30
  const MAX_FILE_SIZE := NUM_DIRECT * SECTOR_SIZE

  function Zeroes(): seq<byte> { seq(SECTOR_SIZE, _ => 0 as byte) }

  type Sector = s: seq<byte> | |s| == SECTOR_SIZE witness Zeroes()
  type Image = d: seq<Sector> | |d| == NUM_SECTORS witness seq(NUM_SECTORS, _ => Zeroes())

  /** The disk behind SynchDisk: whole sectors, read and written one at a time. */
  class SynchDisk {
    var sectors: Image

    constructor (contents: Image)
      ensures sectors == contents
    {
      sectors := contents;
    }

    method ReadSector(sector: nat, data: array<byte>, at: nat)
      requires sector < NUM_SECTORS && at + SECTOR_SIZE <= data.Length
      modifies data
      ensures data[..] == old(data[..at]) + sectors[sector] + old(data[at + SECTOR_SIZE..])
    {
      forall i | 0 <= i < SECTOR_SIZE {
        data[at + i] := sectors[sector][i];
      }
    }

    method WriteSector(sector: nat, data: array<byte>, at: nat)
      requires sector < NUM_SECTORS && at + SECTOR_SIZE <= data.Length
      modifies this
      ensures sectors == old(sectors)[sector := data[at..at + SECTOR_SIZE]]
    {
      sectors := sectors[sector := data[at..at + SECTOR_SIZE]];
    }
  }

  /** What a header says: the file's length and where its data lies. */
  datatype Layout = Layout(length: nat, data: seq<nat>)

  predicate Distinct(s: seq<nat>) {
    forall i, j :: 0 <= i < j < |s| ==> s[i] != s[j]
  }

  predicate ValidLayout(l: Layout) {
    && |l.data| == DivRoundUp(l.length, SECTOR_SIZE) <= NUM_DIRECT
    && (forall i :: 0 <= i < |l.data| ==> l.data[i] < NUM_SECTORS)
    && Distinct(l.data)
  }

  function FileByte(d: Image, l: Layout, k: nat): byte
    requires ValidLayout(l) && k < |l.data| * SECTOR_SIZE
  {
    d[l.data[k / SECTOR_SIZE]][k % SECTOR_SIZE]
  }

  /** The bytes of a file. */
  function Content(d: Image, l: Layout): (c: seq<byte>)
    requires ValidLayout(l)
    ensures |c| == l.length
  {
    seq(l.length, k requires 0 <= k < l.length => FileByte(d, l, k))
  }

  /** A file's bytes depend on its own data sectors only. */
  lemma ContentFrame(d: Image, d': Image, l: Layout)
    requires ValidLayout(l)
    requires forall i :: 0 <= i < |l.data| ==> d[l.data[i]] == d'[l.data[i]]
    ensures Content(d, l) == Content(d', l)
  {
    assert forall k :: 0 <= k < l.length ==> FileByte(d, l, k) == FileByte(d', l, k);
  }

  /** Two images agree outside some sectors. */
  ghost predicate Outside(d: Image, d': Image, touched: set<nat>) {
    forall s :: 0 <= s < NUM_SECTORS && s !in touched ==> d'[s] == d[s]
  }

  /** The sectors that hold a file's data. */
  function DataSet(l: Layout): set<nat> { set x | x in l.data }

  // ---- headers on disk: numBytes, numSectors and 30 sector numbers, one word each ----

  /** The fields of a header as a layout; a sector count past the table gives a layout too long to be valid. */
  function HeaderView(numBytes: nat, numSectors: nat, dataSectors: seq<uint32>): Layout {
    Layout(numBytes, if numSectors <= |dataSectors| then dataSectors[..numSectors] else dataSectors + [0])
  }

  /** The header held by a sector, whatever its bytes are. */
  function LayoutOf(s: Sector): Layout {
    var ns := DecodeInts(s);
    HeaderView(ns[0], ns[1], ns[2..])
  }

  /** Writing a header and fetching it gives it back, whatever its unused entries hold. */
  lemma HeaderRoundTrip(numBytes: uint32, numSectors: uint32, dataSectors: seq<uint32>)
    requires |dataSectors| == NUM_DIRECT
    ensures var s := EncodeInts([numBytes, numSectors] + dataSectors);
            LayoutOf(s) == HeaderView(numBytes, numSectors, dataSectors)
  {
    hide EncodeInts, DecodeInts;
    var ns := [numBytes, numSectors] + dataSectors;
    DecodeEncodeInts(ns);
    assert ns[2..] == dataSectors;
  }

  // ---- allocation on a free map ----

  /** The free map after taking n sectors first-fit, and the sectors taken. */
  function Take(bits: seq<bool>, n: nat): (r: (seq<bool>, seq<nat>))
    requires n <= CountClear(bits)
    ensures |r.0| == |bits| && |r.1| == n
    ensures CountClear(r.0) == CountClear(bits) - n
  {
    if n == 0 then (bits, [])
    else
      var (bits', taken) := Take(bits, n - 1);
      var s := FirstClear(bits');
      CountClearMark(bits', s);
      (bits'[s := true], taken + [s])
  }

  /** The layout given to a new file, and the free map left. */
  function AllocatedLayout(bits: seq<bool>, fileSize: nat): (Layout, seq<bool>)
    requires DivRoundUp(fileSize, SECTOR_SIZE) <= CountClear(bits)
  {
    var (bits', taken) := Take(bits, DivRoundUp(fileSize, SECTOR_SIZE));
    (Layout(fileSize, taken), bits')
  }

  /** What is taken was free, is taken once, and is all that changes. */
  lemma {:induction false} TakeIsAllocation(bits: seq<bool>, n: nat)
    requires n <= CountClear(bits)
    ensures var (bits', taken) := Take(bits, n);
            && Distinct(taken)
            && (forall i :: 0 <= i < n ==> taken[i] < |bits| && !bits[taken[i]])
            && (forall i :: 0 <= i < |bits| ==> bits'[i] == (bits[i] || i in taken))
  {
    if n > 0 {
      TakeIsAllocation(bits, n - 1);
    }
  }

  function Free(bits: seq<bool>, sectors: seq<nat>): (r: seq<bool>)
    requires forall i :: 0 <= i < |sectors| ==> sectors[i] < |bits|
    ensures |r| == |bits|
  {
    if sectors == [] then bits else Free(bits, sectors[..|sectors| - 1])[sectors[|sectors| - 1] := false]
  }

  lemma {:induction false} FreeClears(bits: seq<bool>, sectors: seq<nat>)
    requires forall i :: 0 <= i < |sectors| ==> sectors[i] < |bits|
    ensures forall i :: 0 <= i < |bits| ==> Free(bits, sectors)[i] == (bits[i] && i !in sectors)
  {
    if sectors != [] {
      FreeClears(bits, sectors[..|sectors| - 1]);
    }
  }

  /** Freeing one more: the sector was still as in the map to begin with, if no earlier one is the same. */
  lemma FreeStep(bits: seq<bool>, sectors: seq<nat>, i: nat)
    requires Distinct(sectors) && (forall k :: 0 <= k < |sectors| ==> sectors[k] < |bits|) && i <= |sectors|
    ensures Free(bits, sectors[..0]) == bits
    ensures i < |sectors| ==> Free(bits, sectors[..i])[sectors[i]] == bits[sectors[i]]
    ensures i < |sectors| ==> Free(bits, sectors[..i + 1]) == Free(bits, sectors[..i])[sectors[i] := false]
  {
    if i < |sectors| {
      assert sectors[..i + 1][..i] == sectors[..i];
      FreeClears(bits, sectors[..i]);
    }
  }

  class FileHeader {
    var numBytes: uint32
    var numSectors: uint32
    var dataSectors: seq<uint32>    // NUM_DIRECT entries

    /** The header's meaning. */
    ghost function View(): Layout
      reads this
    {
      HeaderView(numBytes, numSectors, dataSectors)
    }

    ghost predicate Allocated()
      reads this
    {
      |dataSectors| == NUM_DIRECT && ValidLayout(View())
    }

    constructor ()
      ensures |dataSectors| == NUM_DIRECT
    {
      numBytes, numSectors := 0, 0;
      dataSectors := seq(NUM_DIRECT, _ => 0);
    }

    /** Take the file's data sectors off the free map, or refuse and leave it alone. */
    method Allocate(freeMap: Bitmap, fileSize: nat) returns (ok: bool)
      requires freeMap.Valid() && freeMap.numBits == NUM_SECTORS
      requires |dataSectors| == NUM_DIRECT
      requires fileSize <= MAX_FILE_SIZE
      modifies this, freeMap.words
      ensures ok <==> DivRoundUp(fileSize, SECTOR_SIZE) <= CountClear(old(freeMap.Bits()))
      ensures !ok ==> freeMap.Bits() == old(freeMap.Bits())
      ensures ok ==> Allocated() && (View(), freeMap.Bits()) == AllocatedLayout(old(freeMap.Bits()), fileSize)
    {
      hide CountClear, FirstClear, Unpack;
      numBytes := fileSize;
      numSectors := DivRoundUp(fileSize, SECTOR_SIZE);
      var free := freeMap.NumClear();
      if free < numSectors {
        return false;
      }
      ghost var bits := freeMap.Bits();
      for i := 0 to numSectors
        invariant numBytes == fileSize && numSectors == DivRoundUp(fileSize, SECTOR_SIZE) && |dataSectors| == NUM_DIRECT
        invariant freeMap.Bits() == Take(bits, i).0
        invariant dataSectors[..i] == Take(bits, i).1
      {
        var s := freeMap.FindAndSet();
        assert s >= 0;
        dataSectors := dataSectors[i := s];
      }
      TakeIsAllocation(bits, numSectors);
      return true;
    }

    method Deallocate(freeMap: Bitmap)
      requires Allocated() && freeMap.Valid() && freeMap.numBits == NUM_SECTORS
      requires forall i :: 0 <= i < numSectors ==> freeMap.Bits()[View().data[i]]
      modifies freeMap.words
      ensures freeMap.Bits() == Free(old(freeMap.Bits()), View().data)
    {
      hide Unpack, Free;
      ghost var bits, data := freeMap.Bits(), View().data;
      FreeStep(bits, data, 0);
      for i := 0 to numSectors
        invariant freeMap.Bits() == Free(bits, data[..i])
      {
        FreeStep(bits, data, i);
        var marked := freeMap.Test(dataSectors[i]);
        assert marked;
        freeMap.Clear(dataSectors[i]);
      }
      assert data[..numSectors] == data;
    }

    method FetchFrom(disk: SynchDisk, sector: nat)
      requires sector < NUM_SECTORS
      modifies this
      ensures |dataSectors| == NUM_DIRECT && View() == LayoutOf(disk.sectors[sector])
    {
      hide DecodeInts;
      var buf := new byte[SECTOR_SIZE];
      disk.ReadSector(sector, buf, 0);
      assert buf[..] == disk.sectors[sector];
      var ns := DecodeInts(buf[..]);
      numBytes, numSectors, dataSectors := ns[0], ns[1], ns[2..];
    }

    method WriteBack(disk: SynchDisk, sector: nat)
      requires |dataSectors| == NUM_DIRECT && sector < NUM_SECTORS
      modifies disk
      ensures LayoutOf(disk.sectors[sector]) == View()
      ensures disk.sectors == old(disk.sectors)[sector := disk.sectors[sector]]
    {
      hide EncodeInts, DecodeInts;
      var bytes := EncodeInts([numBytes, numSectors] + dataSectors);
      var buf := new byte[SECTOR_SIZE](i requires 0 <= i < SECTOR_SIZE => bytes[i]);
      assert buf[0..SECTOR_SIZE] == bytes;
      HeaderRoundTrip(numBytes, numSectors, dataSectors);
      disk.WriteSector(sector, buf, 0);
    }

    method ByteToSector(offset: nat) returns (sector: nat)
      requires Allocated() && offset < |View().data| * SECTOR_SIZE
      ensures sector == View().data[offset / SECTOR_SIZE] && sector < NUM_SECTORS
    {
      sector := dataSectors[offset / SECTOR_SIZE];
    }

    method FileLength() returns (n: nat)
      ensures n == View().length
    {
      n := numBytes;
    }
  }
}
