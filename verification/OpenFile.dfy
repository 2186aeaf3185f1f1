/** Byte-granular reads and writes over whole sectors: filesys/openfile.cc. */
module OpenFiles {
  import opened Bytes
  import opened Storage

  /** How many bytes a request of numBytes at a position moves in a file of a given length. */
  function Moved(numBytes: int, position: nat, length: nat): (n: nat)
    ensures n > 0 ==> n <= numBytes && position + n <= length
    ensures numBytes > 0 && position < length ==> n == numBytes || position + n == length
  {
    if numBytes <= 0 || position >= length then 0 else Min(numBytes, length - position)
  }

  /** A file's bytes with some of them replaced. */
  function Overwrite(c: seq<byte>, position: nat, bs: seq<byte>): (r: seq<byte>)
    requires bs != [] ==> position + |bs| <= |c|
    ensures |r| == |c|
    ensures forall k :: 0 <= k < |c| ==> r[k] == if position <= k < position + |bs| then bs[k - position] else c[k]
  {
    if bs == [] then c else c[..position] + bs + c[position + |bs|..]
  }

  /** A slice of a file, empty when nothing was moved. */
  function Slice(c: seq<byte>, position: nat, n: nat): (r: seq<byte>)
    requires n > 0 ==> position + n <= |c|
    ensures |r| == n
  {
    if n == 0 then [] else c[position..position + n]
  }

  lemma SliceBytes(c: seq<byte>, into: seq<byte>, at: nat, position: nat, n: nat)
    requires n > 0 && position + n <= |c| && at + n <= |into| && into[at..at + n] == Slice(c, position, n)
    ensures forall j :: at <= j < at + n ==> into[j] == c[position + (j - at)]
  {
    forall j | at <= j < at + n
      ensures into[j] == c[position + (j - at)]
    {
      assert into[at..at + n][j - at] == into[j];
      assert c[position..position + n][j - at] == c[position + (j - at)];
    }
  }

  /** A file's bytes after writing numBytes bytes at a position, cut to the file's length. */
  function Written(c: seq<byte>, from: seq<byte>, numBytes: int, position: nat): (r: seq<byte>)
    requires numBytes <= |from|
    ensures |r| == |c|
    ensures forall k :: 0 <= k < |c| ==> r[k] == if position <= k < position + numBytes then from[k - position] else c[k]
  {
    Overwrite(c, position, from[..Moved(numBytes, position, |c|)])
  }

  /** Reading any part of what was just written gives back that part. */
  lemma ReadOwnWrite(c: seq<byte>, position: nat, bs: seq<byte>, from: nat, n: nat)
    requires bs != [] ==> position + |bs| <= |c|
    requires from + n <= |bs|
    ensures Slice(Overwrite(c, position, bs), position + from, n) == bs[from..from + n]
  {
    var c' := Overwrite(c, position, bs);
    if n > 0 {
      forall k | position + from <= k < position + from + n
        ensures c'[k] == bs[k - position]
      {
      }
    }
  }

  /** Reading elsewhere is not affected by a write. */
  lemma ReadOtherWrite(c: seq<byte>, position: nat, bs: seq<byte>, position': nat, n: nat)
    requires bs != [] ==> position + |bs| <= |c|
    requires n > 0 ==> position' + n <= |c|
    requires position' + n <= position || position + |bs| <= position'
    ensures Slice(Overwrite(c, position, bs), position', n) == Slice(c, position', n)
  {
  }

  /** A run of n sectors of a file, as bytes. */
  function Span(d: Image, l: Layout, first: nat, n: nat): (r: seq<byte>)
    requires ValidLayout(l) && first + n <= |l.data|
    ensures |r| == n * SECTOR_SIZE
  {
    if n == 0 then [] else Span(d, l, first, n - 1) + d[l.data[first + n - 1]]
  }

  lemma {:induction false} SpanByte(d: Image, l: Layout, first: nat, n: nat, k: nat)
    requires ValidLayout(l) && first + n <= |l.data| && k < n * SECTOR_SIZE
    ensures Span(d, l, first, n)[k] == FileByte(d, l, first * SECTOR_SIZE + k)
  {
    if k < (n - 1) * SECTOR_SIZE {
      SpanByte(d, l, first, n - 1, k);
    } else {
      assert (first * SECTOR_SIZE + k) / SECTOR_SIZE == first + n - 1;
    }
  }

  /** The sectors a request touches are the file's. */
  lemma RequestInLayout(l: Layout, position: nat, n: nat)
    requires ValidLayout(l) && n > 0 && position + n <= l.length
    ensures position / SECTOR_SIZE <= (position + n - 1) / SECTOR_SIZE < |l.data| <= NUM_DIRECT
    ensures position % SECTOR_SIZE + n <= ((position + n - 1) / SECTOR_SIZE - position / SECTOR_SIZE + 1) * SECTOR_SIZE
  {
  }

  lemma SpanIsContent(d: Image, l: Layout, position: nat, n: nat)
    requires ValidLayout(l) && n > 0 && position + n <= l.length
    ensures var first, last := position / SECTOR_SIZE, (position + n - 1) / SECTOR_SIZE;
            var skip := position - first * SECTOR_SIZE;
            && last < |l.data| && skip + n <= (last - first + 1) * SECTOR_SIZE
            && Span(d, l, first, last - first + 1)[skip..skip + n] == Content(d, l)[position..position + n]
  {
    hide FileByte, Span;
    RequestInLayout(l, position, n);
    var first, last := position / SECTOR_SIZE, (position + n - 1) / SECTOR_SIZE;
    var skip := position - first * SECTOR_SIZE;
    var read := Span(d, l, first, last - first + 1)[skip..skip + n];
    var asked := Content(d, l)[position..position + n];
    forall k | 0 <= k < n ensures read[k] == asked[k] {
      SpanByte(d, l, first, last - first + 1, skip + k);
    }
  }

  /** Where a buffer starting at file offset base must already hold the file's bytes before a write. */
  ghost predicate Edges(c: seq<byte>, buf: seq<byte>, base: nat, position: nat, n: nat) {
    forall k :: 0 <= k < |buf| && base + k < |c| && !(position <= base + k < position + n) ==> buf[k] == c[base + k]
  }

  /** buf holds the file's bytes from offset base + at on, as far as a sector or the file reaches. */
  ghost predicate HoldsSector(c: seq<byte>, buf: seq<byte>, base: nat, at: nat) {
    forall k :: at <= k < at + SECTOR_SIZE && k < |buf| && base + k < |c| ==> buf[k] == c[base + k]
  }

  lemma SectorHeld(c: seq<byte>, buf: seq<byte>, first: nat, i: nat, m: nat)
    requires m == Moved(SECTOR_SIZE, (first + i) * SECTOR_SIZE, |c|) && (i + 1) * SECTOR_SIZE <= |buf|
    requires m > 0 ==> buf[i * SECTOR_SIZE..i * SECTOR_SIZE + m] == Slice(c, (first + i) * SECTOR_SIZE, m)
    ensures HoldsSector(c, buf, first * SECTOR_SIZE, i * SECTOR_SIZE)
  {
    var at, pos := i * SECTOR_SIZE, (first + i) * SECTOR_SIZE;
    forall k | at <= k < at + SECTOR_SIZE && k < |buf| && first * SECTOR_SIZE + k < |c|
      ensures buf[k] == c[first * SECTOR_SIZE + k]
    {
      assert buf[k] == buf[at..at + m][k - at];
      assert c[first * SECTOR_SIZE + k] == c[pos..pos + m][k - at];
    }
  }

  /** The two partial reads leave every byte outside the request in place. */
  lemma EdgesFilled(c: seq<byte>, buf: seq<byte>, position: nat, n: nat)
    requires n > 0 && position + n <= |c|
    requires var first, last := position / SECTOR_SIZE, (position + n - 1) / SECTOR_SIZE;
             && |buf| == (1 + last - first) * SECTOR_SIZE
             && (position != first * SECTOR_SIZE ==> HoldsSector(c, buf, first * SECTOR_SIZE, 0))
             && (position + n != (last + 1) * SECTOR_SIZE ==>
                   HoldsSector(c, buf, first * SECTOR_SIZE, (last - first) * SECTOR_SIZE))
    ensures Edges(c, buf, position / SECTOR_SIZE * SECTOR_SIZE, position, n)
  {
  }

  /** Edges filled and the new bytes copied in: the buffer holds the new file. */
  lemma BufferReady(c: seq<byte>, edges: seq<byte>, buf: seq<byte>, position: nat, bs: seq<byte>)
    requires bs != [] && position + |bs| <= |c| && |buf| == |edges|
    requires Edges(c, edges, position / SECTOR_SIZE * SECTOR_SIZE, position, |bs|)
    requires position % SECTOR_SIZE + |bs| <= |buf|
    requires buf[position % SECTOR_SIZE..position % SECTOR_SIZE + |bs|] == bs
    requires forall k :: 0 <= k < |buf| && !(position % SECTOR_SIZE <= k < position % SECTOR_SIZE + |bs|) ==> buf[k] == edges[k]
    ensures forall k :: 0 <= k < |buf| && position / SECTOR_SIZE * SECTOR_SIZE + k < |c| ==>
              buf[k] == Overwrite(c, position, bs)[position / SECTOR_SIZE * SECTOR_SIZE + k]
  {
    hide Overwrite;
    var skip, base := position % SECTOR_SIZE, position / SECTOR_SIZE * SECTOR_SIZE;
    assert position == base + skip;
    forall k | 0 <= k < |buf| && base + k < |c|
      ensures buf[k] == Overwrite(c, position, bs)[base + k]
    {
      if skip <= k < skip + |bs| {
        assert buf[k] == buf[skip..skip + |bs|][k - skip];
      } else {
        assert buf[k] == edges[k];
      }
    }
  }

  /** d' is d with sectors first..last of the file replaced by buf. */
  ghost predicate Wrote(d: Image, d': Image, l: Layout, first: nat, last: int, buf: seq<byte>) {
    && (forall s :: 0 <= s < NUM_SECTORS && s !in l.data ==> d'[s] == d[s])
    && (forall j :: 0 <= j < |l.data| && l.data[j] < NUM_SECTORS && !(first <= j <= last) ==> d'[l.data[j]] == d[l.data[j]])
    && (forall j :: first <= j <= last && j < |l.data| && l.data[j] < NUM_SECTORS && (j - first + 1) * SECTOR_SIZE <= |buf| ==>
          d'[l.data[j]] == buf[(j - first) * SECTOR_SIZE..(j - first + 1) * SECTOR_SIZE])
  }

  lemma WroteNothing(d: Image, l: Layout, first: nat, buf: seq<byte>)
    ensures Wrote(d, d, l, first, first - 1, buf)
  {
  }

  lemma WroteOne(d: Image, d': Image, l: Layout, first: nat, i: nat, buf: seq<byte>)
    requires ValidLayout(l) && first <= i < |l.data| && (i - first + 1) * SECTOR_SIZE <= |buf|
    requires Wrote(d, d', l, first, i - 1, buf)
    ensures Wrote(d, d'[l.data[i] := buf[(i - first) * SECTOR_SIZE..(i - first + 1) * SECTOR_SIZE]], l, first, i, buf)
  {
  }

  lemma WroteOutside(d: Image, d': Image, l: Layout, first: nat, last: int, buf: seq<byte>)
    requires Wrote(d, d', l, first, last, buf)
    ensures Outside(d, d', DataSet(l))
  {
  }

  lemma WroteByte(d: Image, d': Image, l: Layout, first: nat, last: nat, buf: seq<byte>, k: nat)
    requires ValidLayout(l) && first <= last < |l.data| && k < l.length
    requires |buf| == (last - first + 1) * SECTOR_SIZE
    requires Wrote(d, d', l, first, last, buf)
    ensures FileByte(d', l, k) ==
            if first * SECTOR_SIZE <= k < (last + 1) * SECTOR_SIZE then buf[k - first * SECTOR_SIZE] else FileByte(d, l, k)
  {
    var j := k / SECTOR_SIZE;
    if first <= j <= last {
      assert d'[l.data[j]] == buf[(j - first) * SECTOR_SIZE..(j - first + 1) * SECTOR_SIZE];
    }
  }

  /** Replacing whole sectors by a buffer that holds the new bytes overwrites the file. */
  lemma WroteContent(d: Image, d': Image, l: Layout, first: nat, last: nat, buf: seq<byte>, position: nat, bs: seq<byte>)
    requires ValidLayout(l) && first <= last < |l.data| && bs != [] && position + |bs| <= l.length
    requires first == position / SECTOR_SIZE && last == (position + |bs| - 1) / SECTOR_SIZE
    requires |buf| == (last - first + 1) * SECTOR_SIZE
    requires Wrote(d, d', l, first, last, buf)
    requires forall k :: 0 <= k < |buf| && first * SECTOR_SIZE + k < l.length ==>
               buf[k] == Overwrite(Content(d, l), position, bs)[first * SECTOR_SIZE + k]
    ensures Content(d', l) == Overwrite(Content(d, l), position, bs)
  {
    hide Wrote, Overwrite;
    var new_ := Overwrite(Content(d, l), position, bs);
    forall k | 0 <= k < l.length ensures Content(d', l)[k] == new_[k] {
      WroteByte(d, d', l, first, last, buf, k);
      if first * SECTOR_SIZE <= k < (last + 1) * SECTOR_SIZE {
        assert buf[k - first * SECTOR_SIZE] == new_[first * SECTOR_SIZE + (k - first * SECTOR_SIZE)];
      }
    }
  }

  /** bcopy between two buffers. */
  method Copy(src: seq<byte>, skip: nat, dst: array<byte>, at: nat, n: nat)
    requires skip + n <= |src| && at + n <= dst.Length
    modifies dst
    ensures dst[at..at + n] == src[skip..skip + n]
    ensures forall k :: 0 <= k < dst.Length && !(at <= k < at + n) ==> dst[k] == old(dst[k])
  {
    forall k | 0 <= k < n {
      dst[at + k] := src[skip + k];
    }
  }

  class OpenFile {
    const disk: SynchDisk
    const hdr: FileHeader
    var seekPosition: nat

    ghost predicate Valid()
      reads this, hdr
    {
      hdr.Allocated()
    }

    ghost function Contents(): seq<byte>
      requires Valid()
      reads this, hdr, disk
    {
      Content(disk.sectors, hdr.View())
    }

    constructor (disk: SynchDisk, sector: nat)
      requires sector < NUM_SECTORS && ValidLayout(LayoutOf(disk.sectors[sector]))
      ensures Valid() && fresh(hdr)
      ensures this.disk == disk && hdr.View() == LayoutOf(disk.sectors[sector]) && seekPosition == 0
    {
      hide LayoutOf, ValidLayout, HeaderView;
      this.disk := disk;
      this.hdr := new FileHeader();
      seekPosition := 0;
      new;
      hdr.FetchFrom(disk, sector);
    }

    /** Read sectors first..last of the file into a buffer of exactly that size. */
    method ReadSectors(first: nat, last: nat, buf: array<byte>)
      requires Valid() && first <= last < |hdr.View().data|
      requires buf.Length == (last - first + 1) * SECTOR_SIZE
      modifies buf
      ensures buf[..] == Span(disk.sectors, hdr.View(), first, last - first + 1)
    {
      for i := first to last + 1
        invariant buf[..(i - first) * SECTOR_SIZE] == Span(disk.sectors, hdr.View(), first, i - first)
      {
        var s := hdr.ByteToSector(i * SECTOR_SIZE);
        ghost var before := buf[..(i - first) * SECTOR_SIZE];
        disk.ReadSector(s, buf, (i - first) * SECTOR_SIZE);
        assert buf[..(i + 1 - first) * SECTOR_SIZE] == before + disk.sectors[s];
      }
      assert buf[..] == buf[..(last + 1 - first) * SECTOR_SIZE];
    }

    method ReadAt(into: array<byte>, at: nat, numBytes: int, position: nat) returns (n: nat)
      requires Valid()
      requires numBytes > 0 ==> at + numBytes <= into.Length
      modifies into
      ensures forall j :: at <= j < at + numBytes && position + (j - at) < |Contents()| ==> into[j] == Contents()[position + (j - at)]
      ensures n == Moved(numBytes, position, |Contents()|)
      ensures n > 0 ==> at + n <= into.Length && into[at..at + n] == Slice(Contents(), position, n)
      ensures forall k :: 0 <= k < into.Length && !(at <= k < at + n) ==> into[k] == old(into[k])
    {
      hide FileByte, Content, Span, ValidLayout, Overwrite, HeaderView;
      var fileLength := Length();
      if numBytes <= 0 || position >= fileLength {
        return 0;
      }
      n := numBytes;
      if position + n > fileLength {
        n := fileLength - position;
      }
      RequestInLayout(hdr.View(), position, n);
      var firstSector := position / SECTOR_SIZE;
      var lastSector := (position + n - 1) / SECTOR_SIZE;
      var buf := new byte[(1 + lastSector - firstSector) * SECTOR_SIZE];
      ReadSectors(firstSector, lastSector, buf);
      var skip := position - firstSector * SECTOR_SIZE;
      SpanIsContent(disk.sectors, hdr.View(), position, n);
      Copy(buf[..], skip, into, at, n);
      SliceBytes(Contents(), into[..], at, position, n);
    }

    /** Write a buffer of whole sectors over sectors first..last of the file. */
    method WriteSectors(first: nat, last: nat, buf: array<byte>)
      requires Valid() && first <= last < |hdr.View().data|
      requires buf.Length == (last - first + 1) * SECTOR_SIZE
      modifies disk
      ensures Wrote(old(disk.sectors), disk.sectors, hdr.View(), first, last, buf[..])
    {
      hide Wrote, ValidLayout, HeaderView;
      WroteNothing(disk.sectors, hdr.View(), first, buf[..]);
      for i := first to last + 1
        invariant Wrote(old(disk.sectors), disk.sectors, hdr.View(), first, i - 1, buf[..])
      {
        var s := hdr.ByteToSector(i * SECTOR_SIZE);
        WroteOne(old(disk.sectors), disk.sectors, hdr.View(), first, i, buf[..]);
        disk.WriteSector(s, buf, (i - first) * SECTOR_SIZE);
        assert buf[(i - first) * SECTOR_SIZE..(i - first) * SECTOR_SIZE + SECTOR_SIZE] ==
               buf[..][(i - first) * SECTOR_SIZE..(i - first + 1) * SECTOR_SIZE];
      }
    }

    /** Fill the parts of the first and last sector that the request leaves alone. */
    method ReadEdges(buf: array<byte>, position: nat, n: nat)
      requires Valid() && n > 0 && position + n <= |Contents()|
      requires buf.Length == (1 + (position + n - 1) / SECTOR_SIZE - position / SECTOR_SIZE) * SECTOR_SIZE
      modifies buf
      ensures Edges(Contents(), buf[..], position / SECTOR_SIZE * SECTOR_SIZE, position, n)
    {
      hide Content;
      var firstSector := position / SECTOR_SIZE;
      var lastSector := (position + n - 1) / SECTOR_SIZE;
      var firstAligned := position == firstSector * SECTOR_SIZE;
      var lastAligned := position + n == (lastSector + 1) * SECTOR_SIZE;
      ghost var c, base := Contents(), firstSector * SECTOR_SIZE;
      if !firstAligned {
        ReadOne(buf, firstSector, 0);
      }
      if !lastAligned && (firstSector != lastSector || firstAligned) {
        ReadOne(buf, firstSector, lastSector - firstSector);
      }
      EdgesFilled(c, buf[..], position, n);
    }

    /** Read the file's sector first + i, as far as the file reaches, into place i of a buffer. */
    method ReadOne(buf: array<byte>, first: nat, i: nat)
      requires Valid() && (i + 1) * SECTOR_SIZE <= buf.Length && (first + i) * SECTOR_SIZE < |Contents()|
      modifies buf
      ensures HoldsSector(Contents(), buf[..], first * SECTOR_SIZE, i * SECTOR_SIZE)
      ensures forall k :: 0 <= k < buf.Length && !(i * SECTOR_SIZE <= k < (i + 1) * SECTOR_SIZE) ==> buf[k] == old(buf[k])
    {
      hide Content;
      var at := i * SECTOR_SIZE;
      var m := ReadAt(buf, at, SECTOR_SIZE, (first + i) * SECTOR_SIZE);
      SectorHeld(Contents(), buf[..], first, i, m);
    }

    /**
     Write at a position: exactly the addressed bytes of the file change, and no sector
     outside the file does.
     */
    method WriteAt(from: seq<byte>, numBytes: int, position: nat) returns (n: nat)
      requires Valid()
      requires numBytes <= |from|
      modifies disk
      ensures |Contents()| == |old(Contents())|
      ensures forall k :: 0 <= k < |Contents()| ==>
                Contents()[k] == if position <= k < position + numBytes then from[k - position] else old(Contents())[k]
      ensures n == Moved(numBytes, position, |Contents()|)
      ensures Contents() == Written(old(Contents()), from, numBytes, position)
      ensures Outside(old(disk.sectors), disk.sectors, DataSet(hdr.View()))
    {
      hide Content, ValidLayout, Overwrite;
      var fileLength := Length();
      if numBytes <= 0 || position >= fileLength {
        return 0;
      }
      n := numBytes;
      if position + n > fileLength {
        n := fileLength - position;
      }
      WriteWithin(from[..n], position);
    }

    /** The sector work of WriteAt, for a request already cut to the file. */
    method WriteWithin(bs: seq<byte>, position: nat)
      requires Valid() && bs != [] && position + |bs| <= |Contents()|
      modifies disk
      ensures Contents() == Overwrite(old(Contents()), position, bs)
      ensures Outside(old(disk.sectors), disk.sectors, DataSet(hdr.View()))
    {
      hide FileByte, Content, Wrote, ValidLayout, Overwrite, Edges, HeaderView;
      var n := |bs|;
      RequestInLayout(hdr.View(), position, n);
      var firstSector := position / SECTOR_SIZE;
      var lastSector := (position + n - 1) / SECTOR_SIZE;
      var buf := new byte[(1 + lastSector - firstSector) * SECTOR_SIZE];
      ReadEdges(buf, position, n);
      ghost var d, c, edges := disk.sectors, Contents(), buf[..];
      Copy(bs, 0, buf, position - firstSector * SECTOR_SIZE, n);
      BufferReady(c, edges, buf[..], position, bs);
      WriteSectors(firstSector, lastSector, buf);
      WroteOutside(d, disk.sectors, hdr.View(), firstSector, lastSector, buf[..]);
      WroteContent(d, disk.sectors, hdr.View(), firstSector, lastSector, buf[..], position, bs);
    }

    method Length() returns (n: nat)
      requires Valid()
      ensures n == |Contents()| == hdr.View().length
    {
      n := hdr.FileLength();
    }

    method Seek(position: nat)
      modifies this
      ensures seekPosition == position
    {
      seekPosition := position;
    }

    method Read(into: array<byte>, numBytes: int) returns (n: nat)
      requires Valid()
      requires numBytes > 0 ==> numBytes <= into.Length
      modifies into, this
      ensures n == Moved(numBytes, old(seekPosition), |Contents()|) && seekPosition == old(seekPosition) + n
      ensures n <= into.Length && into[..n] == Slice(Contents(), old(seekPosition), n)
      ensures into[n..] == old(into[n..])
    {
      n := ReadAt(into, 0, numBytes, seekPosition);
      seekPosition := seekPosition + n;
    }

    method Write(from: seq<byte>, numBytes: int) returns (n: nat)
      requires Valid()
      requires numBytes <= |from|
      modifies disk, this
      ensures n == Moved(numBytes, old(seekPosition), |Contents()|) && seekPosition == old(seekPosition) + n
      ensures Contents() == Written(old(Contents()), from, numBytes, old(seekPosition))
      ensures Outside(old(disk.sectors), disk.sectors, DataSet(hdr.View()))
    {
      n := WriteAt(from, numBytes, seekPosition);
      seekPosition := seekPosition + n;
    }
  }
}
