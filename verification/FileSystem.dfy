/**
 The file system on disk: formatting, Create, Open and Remove of filesys/filesys.cc over the
 bytes of the free map file and the directory file (filesys/pbitmap.cc, filesys/directory.cc).
 */
module FileSystems {
  import opened Bytes
  import opened Bitmaps
  import opened Storage
  import opened OpenFiles
  import opened Directories
  import F = FileSystemState

  type Fs = F.Fs

  /** The free map that the bytes of the free map file stand for. */
  function BitsOf(bs: seq<byte>): seq<bool>
    requires |bs| == F.FREE_MAP_FILE_SIZE
  {
    Unpack(Decode(bs), NUM_SECTORS)
  }

  /** The disk image holds the headers, the free map and the directory of a file system state. */
  ghost predicate Holds(d: Image, fs: Fs)
    requires F.Inv(fs)
  {
    && (forall h :: h in fs.headers ==> LayoutOf(d[h]) == fs.headers[h])
    && BitsOf(Content(d, fs.headers[F.FREE_MAP_SECTOR])) == fs.bits
    && TableOf(Content(d, fs.headers[F.DIRECTORY_SECTOR])) == fs.table
  }

  /** Headers of a partition do not lie in each other's data, nor do data overlap. */
  lemma Apart(bits: seq<bool>, hs: F.Headers, h: nat, g: nat)
    requires F.Partition(bits, hs) && h in hs && g in hs
    ensures h !in hs[g].data
    ensures h != g ==> DataSet(hs[h]) !! DataSet(hs[g])
  {
    F.InOwnClaim(h, hs[h]);
    assert h != g ==> F.Claim(h, hs[h]) !! F.Claim(g, hs[g]);
    assert F.ValidHeader(h, hs[h]);
  }

  /** A file keeps its bytes when the touched sectors are none of its own. */
  lemma ContentApart(d: Image, d': Image, l: Layout, touched: set<nat>)
    requires ValidLayout(l) && Outside(d, d', touched) && DataSet(l) !! touched
    ensures Content(d', l) == Content(d, l)
  {
    assert forall i :: 0 <= i < |l.data| ==> l.data[i] in DataSet(l);
    ContentFrame(d, d', l);
  }

  // ---- the files, by name ----

  function Keys(table: seq<Entry>): set<seq<byte>> {
    set i | 0 <= i < |table| && table[i].inUse :: Key(table[i].name)
  }

  lemma KeyIsPresent(table: seq<Entry>, key: seq<byte>)
    ensures key in Keys(table) <==> IndexOf(table, key) >= 0
  {
    hide KeyFrom;
    if IndexOf(table, key) >= 0 {
      assert Key(table[IndexOf(table, key)].name) == key;
    }
  }

  /** Where the header of the file with a given key is. */
  ghost function HeaderOf(fs: Fs, key: seq<byte>): nat
    requires F.Inv(fs) && key in Keys(fs.table)
    ensures HeaderOf(fs, key) in fs.headers && ValidLayout(fs.headers[HeaderOf(fs, key)])
    ensures HeaderOf(fs, key) > F.DIRECTORY_SECTOR
  {
    KeyIsPresent(fs.table, key);
    var h := fs.table[IndexOf(fs.table, key)].sector;
    assert F.Used(fs.table, h);
    assert F.ValidHeader(h, fs.headers[h]);
    h
  }

  /** l is the layout of the file with a given key. */
  ghost predicate HasLayout(fs: Fs, key: seq<byte>, l: Layout) {
    F.Inv(fs) && key in Keys(fs.table) && l == fs.headers[HeaderOf(fs, key)]
  }

  /** What the file system is for: a map from names to byte sequences. */
  ghost function FilesOn(d: Image, fs: Fs): map<seq<byte>, seq<byte>>
    requires F.Inv(fs)
  {
    map key | key in Keys(fs.table) :: Content(d, fs.headers[HeaderOf(fs, key)])
  }

  lemma NoKeys()
    ensures Keys([]) == {}
  {
  }

  lemma LastKey(table: seq<Entry>)
    requires F.DistinctFiles(table) && table != []
    ensures var n := |table| - 1; |Keys(table)| == |Keys(table[..n])| + if table[n].inUse then 1 else 0
  {
    hide Key;
    var n := |table| - 1;
    var front, last := Keys(table[..n]), Key(table[n].name);
    if table[n].inUse {
      assert last !in front;
      assert Keys(table) == front + {last};
    } else {
      assert Keys(table) == front;
    }
  }

  /** A directory has as many names as entries exactly if every entry is in use. */
  lemma {:induction false} KeyCount(table: seq<Entry>)
    requires F.DistinctFiles(table)
    ensures |Keys(table)| <= |table|
    ensures |Keys(table)| == |table| <==> forall i :: 0 <= i < |table| ==> table[i].inUse
  {
    hide Key, Keys;
    if table == [] {
      NoKeys();
    } else {
      var n := |table| - 1;
      KeyCount(table[..n]);
      LastKey(table);
      assert (forall i :: 0 <= i < |table| ==> table[i].inUse) <==> table[n].inUse && forall i :: 0 <= i < n ==> table[..n][i].inUse;
    }
  }

  /**
   Create succeeds exactly if the name is new, there are fewer files than directory entries, and
   there are clear bits for the header and every data sector.
   */
  lemma CanCreateIff(d: Image, fs: Fs, name: seq<byte>, size: nat)
    requires F.Inv(fs)
    ensures F.CanCreate(fs, name, size) <==>
              && Key(name) !in FilesOn(d, fs) && |FilesOn(d, fs)| < NUM_DIR_ENTRIES
              && 1 + DivRoundUp(size, SECTOR_SIZE) <= CountClear(fs.bits)
  {
    hide F.Partition, F.Named, F.SystemFiles, Content, Keys, Key, CountClear, DivRoundUp;
    KeyIsPresent(fs.table, Key(name));
    KeyCount(fs.table);
    assert FilesOn(d, fs).Keys == Keys(fs.table);
    assert |FilesOn(d, fs)| == |FilesOn(d, fs).Keys|;
    assert FreeSlot(fs.table) >= 0 <==> |Keys(fs.table)| < |fs.table|;
    if FirstClear(fs.bits) >= 0 {
      CountClearMark(fs.bits, FirstClear(fs.bits));
    }
  }

  lemma CanRemoveIff(d: Image, fs: Fs, name: seq<byte>)
    requires F.Inv(fs)
    ensures F.CanRemove(fs, name) <==> Key(name) in FilesOn(d, fs)
  {
    hide F.Inv, Content, Keys, Key;
    KeyIsPresent(fs.table, Key(name));
  }

  /** Two files with different names have different headers. */
  lemma HeadersDiffer(fs: Fs, key: seq<byte>, key': seq<byte>)
    requires F.Inv(fs) && key in Keys(fs.table) && key' in Keys(fs.table) && key != key'
    ensures HeaderOf(fs, key) != HeaderOf(fs, key')
  {
    hide F.Partition, F.Named, F.SystemFiles, KeyFrom;
    KeyIsPresent(fs.table, key);
    KeyIsPresent(fs.table, key');
  }

  /** Writing inside one file's data leaves the file system state as it was. */
  lemma WriteKeepsState(d: Image, d': Image, fs: Fs, g: nat)
    requires F.Inv(fs) && Holds(d, fs) && g in fs.headers && g > F.DIRECTORY_SECTOR
    requires Outside(d, d', DataSet(fs.headers[g]))
    ensures Holds(d', fs)
  {
    hide F.Partition, F.Named, F.DistinctFiles, Content, LayoutOf, BitsOf, TableOf, DataSet;
    forall h | h in fs.headers ensures h < NUM_SECTORS && d'[h] == d[h] {
      HeaderInRange(fs, h);
      NotInData(fs, h, g);
    }
    UnchangedElsewhere(d, d', fs, g, F.FREE_MAP_SECTOR);
    UnchangedElsewhere(d, d', fs, g, F.DIRECTORY_SECTOR);
  }

  /** Writing inside one file's data changes that file and no other. */
  lemma WriteChangesOneFile(d: Image, d': Image, fs: Fs, key: seq<byte>)
    requires F.Inv(fs) && key in Keys(fs.table)
    requires Outside(d, d', DataSet(fs.headers[HeaderOf(fs, key)]))
    ensures FilesOn(d', fs) == FilesOn(d, fs)[key := Content(d', fs.headers[HeaderOf(fs, key)])]
  {
    hide F.Inv, Keys, HeaderOf, Content, DataSet, Outside;
    var g := HeaderOf(fs, key);
    forall k | k in Keys(fs.table) && k != key
      ensures Content(d', fs.headers[HeaderOf(fs, k)]) == Content(d, fs.headers[HeaderOf(fs, k)])
    {
      HeadersDiffer(fs, key, k);
      UnchangedElsewhere(d, d', fs, g, HeaderOf(fs, k));
    }
  }

  lemma NotInData(fs: Fs, h: nat, g: nat)
    requires F.Inv(fs) && h in fs.headers && g in fs.headers
    ensures h !in DataSet(fs.headers[g])
  {
    Apart(fs.bits, fs.headers, h, g);
  }

  lemma HeaderInRange(fs: Fs, h: nat)
    requires F.Inv(fs) && h in fs.headers
    ensures h < NUM_SECTORS && ValidLayout(fs.headers[h])
  {
    assert F.ValidHeader(h, fs.headers[h]);
  }

  lemma UnchangedElsewhere(d: Image, d': Image, fs: Fs, g: nat, h: nat)
    requires F.Inv(fs) && g in fs.headers && h in fs.headers && g != h
    requires Outside(d, d', DataSet(fs.headers[g]))
    ensures ValidLayout(fs.headers[h]) && Content(d', fs.headers[h]) == Content(d, fs.headers[h])
  {
    HeaderInRange(fs, h);
    Apart(fs.bits, fs.headers, h, g);
    ContentApart(d, d', fs.headers[h], DataSet(fs.headers[g]));
  }

  // ---- what Create and Remove leave on disk ----

  /** The sectors of the two system files' data. */
  function SystemData(hs: F.Headers): set<nat>
    requires F.FREE_MAP_SECTOR in hs && F.DIRECTORY_SECTOR in hs
  {
    DataSet(hs[F.FREE_MAP_SECTOR]) + DataSet(hs[F.DIRECTORY_SECTOR])
  }

  /** Writing the system files, and a header nobody else claims, leaves headers and ordinary files alone. */
  lemma OthersSurvive(d: Image, d': Image, fs: Fs, extra: set<nat>, g: nat)
    requires F.Inv(fs) && g in fs.headers && g > F.DIRECTORY_SECTOR
    requires Outside(d, d', SystemData(fs.headers) + extra)
    requires g !in extra && DataSet(fs.headers[g]) !! extra
    ensures g < NUM_SECTORS && d'[g] == d[g]
    ensures ValidLayout(fs.headers[g]) && Content(d', fs.headers[g]) == Content(d, fs.headers[g])
  {
    hide F.Partition, F.Named, F.DistinctFiles, Content, DataSet;
    HeaderInRange(fs, g);
    NotInData(fs, g, F.FREE_MAP_SECTOR);
    NotInData(fs, g, F.DIRECTORY_SECTOR);
    Apart(fs.bits, fs.headers, g, F.FREE_MAP_SECTOR);
    Apart(fs.bits, fs.headers, g, F.DIRECTORY_SECTOR);
    ContentApart(d, d', fs.headers[g], SystemData(fs.headers) + extra);
  }

  lemma SystemHeadersSurvive(d: Image, d': Image, fs: Fs, extra: set<nat>, g: nat)
    requires F.Inv(fs) && (g == F.FREE_MAP_SECTOR || g == F.DIRECTORY_SECTOR)
    requires Outside(d, d', SystemData(fs.headers) + extra) && g !in extra
    ensures d'[g] == d[g]
  {
    hide F.Partition, F.Named, F.DistinctFiles, DataSet;
    NotInData(fs, g, F.FREE_MAP_SECTOR);
    NotInData(fs, g, F.DIRECTORY_SECTOR);
  }

  /** The new state is on disk once header, directory and free map are written, in whatever order. */
  lemma WrittenState(d: Image, d': Image, fs: Fs, fs': Fs, extra: set<nat>)
    requires F.Inv(fs) && F.Inv(fs') && Holds(d, fs)
    requires fs'.headers[F.FREE_MAP_SECTOR] == fs.headers[F.FREE_MAP_SECTOR]
    requires fs'.headers[F.DIRECTORY_SECTOR] == fs.headers[F.DIRECTORY_SECTOR]
    requires Outside(d, d', SystemData(fs.headers) + extra)
    requires F.FREE_MAP_SECTOR !in extra && F.DIRECTORY_SECTOR !in extra
    requires forall h :: h in fs'.headers && h !in extra ==>
               h in fs.headers && fs'.headers[h] == fs.headers[h] && DataSet(fs.headers[h]) !! extra
    requires forall h :: h in extra && h in fs'.headers ==> h < NUM_SECTORS && LayoutOf(d'[h]) == fs'.headers[h]
    requires BitsOf(Content(d', fs.headers[F.FREE_MAP_SECTOR])) == fs'.bits
    requires TableOf(Content(d', fs.headers[F.DIRECTORY_SECTOR])) == fs'.table
    ensures Holds(d', fs')
  {
    hide F.Partition, F.Named, F.DistinctFiles, Content, DataSet, LayoutOf, BitsOf, TableOf, SystemData;
    forall h | h in fs'.headers ensures h < NUM_SECTORS && LayoutOf(d'[h]) == fs'.headers[h] {
      if h !in extra {
        if h > F.DIRECTORY_SECTOR {
          OthersSurvive(d, d', fs, extra, h);
        } else {
          SystemHeadersSurvive(d, d', fs, extra, h);
        }
      }
    }
  }

  /** The first match is what the search finds. */
  lemma FirstMatch(table: seq<Entry>, key: seq<byte>, i: nat)
    requires i < |table| && Matches(table[i], key)
    requires forall j :: 0 <= j < i ==> !Matches(table[j], key)
    ensures IndexOf(table, key) == i
  {
  }

  lemma AddedLookup(table: seq<Entry>, name: seq<byte>, sector: uint32, key: seq<byte>)
    requires FreeSlot(table) >= 0 && IndexOf(table, Key(name)) == -1
    ensures var table' := Added(table, name, sector);
            && (key in Keys(table') <==> key in Keys(table) || key == Key(name))
            && (key in Keys(table) ==> IndexOf(table', key) == IndexOf(table, key) != FreeSlot(table))
  {
    hide KeyFrom, Strncpy, Keys;
    var table', slot := Added(table, name, sector), FreeSlot(table);
    StoredKey(table[slot].name, name, 0);
    assert forall j :: 0 <= j < |table| && j != slot ==> table'[j] == table[j];
    assert Matches(table'[slot], Key(name));
    KeyIsPresent(table, key);
    KeyIsPresent(table', key);
    var i := IndexOf(table, key);
    if i >= 0 {
      FirstMatch(table', key, i);
    }
  }

  lemma RemovedLookup(table: seq<Entry>, gone: seq<byte>, key: seq<byte>)
    requires F.DistinctFiles(table) && IndexOf(table, gone) >= 0
    ensures var table' := Removed(table, gone);
            && (key in Keys(table') <==> key in Keys(table) && key != gone)
            && (key in Keys(table') ==> IndexOf(table', key) == IndexOf(table, key) != IndexOf(table, gone))
  {
    hide KeyFrom, Keys;
    var table', slot := Removed(table, gone), IndexOf(table, gone);
    assert forall j :: 0 <= j < |table| && j != slot ==> table'[j] == table[j];
    KeyIsPresent(table, key);
    KeyIsPresent(table', key);
    var i := IndexOf(table, key);
    if i >= 0 && key != gone {
      FirstMatch(table', key, i);
    }
  }

  /** Create leaves every file there was under its header, apart from the new one. */
  lemma CreatedLookup(fs: Fs, name: seq<byte>, size: nat, key: seq<byte>)
    requires F.Inv(fs) && size <= MAX_FILE_SIZE && F.CanCreate(fs, name, size) && F.Inv(F.Create(fs, name, size))
    ensures key in Keys(F.Create(fs, name, size).table) <==> key in Keys(fs.table) || key == Key(name)
    ensures key in Keys(fs.table) ==>
              var fs', g := F.Create(fs, name, size), HeaderOf(fs, key);
              && HeaderOf(fs', key) == g && g in fs'.headers && fs'.headers[g] == fs.headers[g]
              && g != FirstClear(fs.bits) && FirstClear(fs.bits) !in fs.headers[g].data
  {
    hide F.Partition, F.Named, F.DistinctFiles, F.SystemFiles, AllocatedLayout;
    F.CreatedIsPresent(fs, name, size);
    var fs', h := F.Create(fs, name, size), FirstClear(fs.bits);
    AddedLookup(fs.table, name, h, key);
    if key in Keys(fs.table) {
      Apart(fs'.bits, fs'.headers, h, HeaderOf(fs, key));
    }
  }

  lemma CreatedFile(fs: Fs, name: seq<byte>, size: nat)
    requires F.Inv(fs) && size <= MAX_FILE_SIZE && F.CanCreate(fs, name, size)
    ensures var fs' := F.Create(fs, name, size);
            && F.Inv(fs') && Key(name) !in Keys(fs.table) && Key(name) in Keys(fs'.table)
            && fs'.headers[HeaderOf(fs', Key(name))].length == size
  {
    hide F.Partition, F.Named, F.DistinctFiles, F.SystemFiles, AllocatedLayout, Keys;
    F.CreatedIsPresent(fs, name, size);
    KeyIsPresent(F.Create(fs, name, size).table, Key(name));
    KeyIsPresent(fs.table, Key(name));
  }

  /** A Create adds one file, of the size asked for, and changes no other. */
  lemma CreatedFiles(d: Image, d': Image, fs: Fs, name: seq<byte>, size: nat)
    requires F.Inv(fs) && size <= MAX_FILE_SIZE && F.CanCreate(fs, name, size)
    requires Outside(d, d', SystemData(fs.headers) + {FirstClear(fs.bits) as nat})
    ensures var fs' := F.Create(fs, name, size);
            && F.Inv(fs') && Key(name) !in FilesOn(d, fs)
            && Key(name) in FilesOn(d', fs') && |FilesOn(d', fs')[Key(name)]| == size
            && FilesOn(d', fs') == FilesOn(d, fs)[Key(name) := FilesOn(d', fs')[Key(name)]]
  {
    hide F.Partition, F.Named, F.DistinctFiles, F.Create, Keys, HeaderOf, Content, SystemData, Outside;
    CreatedFile(fs, name, size);
    var fs', extra := F.Create(fs, name, size), {FirstClear(fs.bits) as nat};
    var old_, new_ := FilesOn(d, fs), FilesOn(d', fs');
    forall key ensures key in new_ <==> key in old_ || key == Key(name) {
      CreatedLookup(fs, name, size, key);
    }
    forall key | key in old_ ensures key in new_ && new_[key] == old_[key] {
      CreatedLookup(fs, name, size, key);
      OthersSurvive(d, d', fs, extra, HeaderOf(fs, key));
    }
  }

  /** A Remove takes one file away and changes no other. */
  lemma RemovedFiles(d: Image, d': Image, fs: Fs, name: seq<byte>)
    requires F.Inv(fs) && F.CanRemove(fs, name)
    requires Outside(d, d', SystemData(fs.headers))
    ensures var fs' := F.Remove(fs, name);
            && F.Inv(fs') && Key(name) in FilesOn(d, fs)
            && FilesOn(d', fs') == FilesOn(d, fs) - {Key(name)}
  {
    hide F.Partition, F.Named, F.DistinctFiles, Keys, HeaderOf, Content, SystemData, Outside, Removed, Free;
    F.RemoveKeepsInv(fs, name);
    var fs' := F.Remove(fs, name);
    KeyIsPresent(fs.table, Key(name));
    var old_, new_ := FilesOn(d, fs), FilesOn(d', fs');
    forall key ensures key in new_ <==> key in old_ && key != Key(name) {
      RemovedLookup(fs.table, Key(name), key);
    }
    assert Outside(d, d', SystemData(fs.headers) + {}) by { assert SystemData(fs.headers) + {} == SystemData(fs.headers); }
    forall key | key in new_ ensures key in old_ && new_[key] == old_[key] {
      RemovedSameHeader(fs, name, key);
      OthersSurvive(d, d', fs, {}, HeaderOf(fs, key));
    }
  }

  lemma RemovedSameHeader(fs: Fs, name: seq<byte>, key: seq<byte>)
    requires F.Inv(fs) && F.CanRemove(fs, name) && F.Inv(F.Remove(fs, name)) && key in Keys(F.Remove(fs, name).table)
    ensures key in Keys(fs.table) && HeaderOf(F.Remove(fs, name), key) == HeaderOf(fs, key)
    ensures F.Remove(fs, name).headers[HeaderOf(fs, key)] == fs.headers[HeaderOf(fs, key)]
  {
    hide F.Partition, F.SystemFiles;
    RemovedLookup(fs.table, Key(name), key);
  }

  /** Every data sector of a header is marked. */
  lemma DataMarked(fs: Fs, h: nat)
    requires F.Inv(fs) && h in fs.headers
    ensures forall i :: 0 <= i < |fs.headers[h].data| ==> fs.headers[h].data[i] < NUM_SECTORS && fs.bits[fs.headers[h].data[i]]
  {
    HeaderInRange(fs, h);
    forall i | 0 <= i < |fs.headers[h].data| ensures F.Claimed(fs.headers, fs.headers[h].data[i]) {
      assert fs.headers[h].data[i] in F.Claim(h, fs.headers[h]);
    }
  }

  // ---- the free map through its file ----

  /** PersistentBitmap's constructor from a file. */
  method FetchFreeMap(file: OpenFile) returns (freeMap: Bitmap)
    requires file.Valid() && |file.Contents()| == F.FREE_MAP_FILE_SIZE
    ensures fresh(freeMap) && fresh(freeMap.words) && freeMap.Valid() && freeMap.numBits == NUM_SECTORS
    ensures freeMap.Bits() == BitsOf(file.Contents())
  {
    hide Content, TestBit, WordAt;
    freeMap := new Bitmap(NUM_SECTORS);
    var buf := new byte[F.FREE_MAP_FILE_SIZE];
    var n := file.ReadAt(buf, 0, F.FREE_MAP_FILE_SIZE, 0);
    assert buf[..] == file.Contents();
    var words := Decode(buf[..]);
    forall i | 0 <= i < freeMap.words.Length {
      freeMap.words[i] := words[i];
    }
    assert freeMap.words[..] == words;
  }

  method WriteBackFreeMap(freeMap: Bitmap, file: OpenFile)
    requires file.Valid() && |file.Contents()| == F.FREE_MAP_FILE_SIZE
    requires freeMap.Valid() && freeMap.numBits == NUM_SECTORS
    modifies file.disk
    ensures BitsOf(file.Contents()) == freeMap.Bits()
    ensures Outside(old(file.disk.sectors), file.disk.sectors, DataSet(file.hdr.View()))
  {
    hide Content, Decode, Encode, Unpack;
    var bs := Encode(freeMap.words[..]);
    var n := file.WriteAt(bs, |bs|, 0);
    assert file.Contents() == bs;
    DecodeEncode(freeMap.words[..]);
  }

  lemma OutsideTrans(d: Image, d1: Image, d2: Image, s: set<nat>, t: set<nat>)
    requires Outside(d, d1, s) && Outside(d1, d2, t)
    ensures Outside(d, d2, s + t)
  {
  }

  lemma OneSector(d: Image, h: nat, s: Sector)
    requires h < NUM_SECTORS
    ensures Outside(d, d[h := s], {h})
  {
  }

  /** Create moves neither the free map nor the directory. */
  lemma SystemHeadersKept(fs: Fs, name: seq<byte>, size: nat)
    requires F.Inv(fs) && size <= MAX_FILE_SIZE && F.CanCreate(fs, name, size)
    ensures var fs' := F.Create(fs, name, size);
            && F.FREE_MAP_SECTOR in fs'.headers && fs'.headers[F.FREE_MAP_SECTOR] == fs.headers[F.FREE_MAP_SECTOR]
            && F.DIRECTORY_SECTOR in fs'.headers && fs'.headers[F.DIRECTORY_SECTOR] == fs.headers[F.DIRECTORY_SECTOR]
  {
    hide F.Partition, F.Named, F.DistinctFiles, F.Create;
    F.CreatedIsPresent(fs, name, size);
  }

  /** The three writes of Create, in the source's order, leave the new state on disk. */
  lemma CreateWritten(d: Image, d1: Image, d2: Image, d3: Image, fs: Fs, name: seq<byte>, size: nat)
    requires F.Inv(fs) && Holds(d, fs) && size <= MAX_FILE_SIZE && F.CanCreate(fs, name, size)
    requires var h := FirstClear(fs.bits); Outside(d, d1, {h as nat}) && LayoutOf(d1[h]) == F.Create(fs, name, size).headers[h]
    requires Outside(d1, d2, DataSet(fs.headers[F.DIRECTORY_SECTOR]))
    requires TableOf(Content(d2, fs.headers[F.DIRECTORY_SECTOR])) == F.Create(fs, name, size).table
    requires Outside(d2, d3, DataSet(fs.headers[F.FREE_MAP_SECTOR]))
    requires BitsOf(Content(d3, fs.headers[F.FREE_MAP_SECTOR])) == F.Create(fs, name, size).bits
    ensures F.Inv(F.Create(fs, name, size)) && Holds(d3, F.Create(fs, name, size))
    ensures Outside(d, d3, SystemData(fs.headers) + {FirstClear(fs.bits) as nat})
  {
    hide F.Partition, F.Named, F.DistinctFiles, Content, LayoutOf, BitsOf, TableOf, AllocatedLayout, Added;
    F.CreatedIsPresent(fs, name, size);
    var fs', h := F.Create(fs, name, size), FirstClear(fs.bits);
    NotInData(fs', h, F.DIRECTORY_SECTOR);
    NotInData(fs', h, F.FREE_MAP_SECTOR);
    Apart(fs.bits, fs.headers, F.DIRECTORY_SECTOR, F.FREE_MAP_SECTOR);
    ContentApart(d2, d3, fs.headers[F.DIRECTORY_SECTOR], DataSet(fs.headers[F.FREE_MAP_SECTOR]));
    forall g | g in fs'.headers && g != h ensures DataSet(fs.headers[g]) !! {h as nat} {
      NotInData(fs', h, g);
    }
    WrittenState(d, d3, fs, fs', {h as nat});
  }

  /** The two writes of Remove leave the new state on disk. */
  lemma RemoveWritten(d: Image, d1: Image, d2: Image, fs: Fs, name: seq<byte>)
    requires F.Inv(fs) && Holds(d, fs) && F.CanRemove(fs, name)
    requires Outside(d, d1, DataSet(fs.headers[F.FREE_MAP_SECTOR]))
    requires BitsOf(Content(d1, fs.headers[F.FREE_MAP_SECTOR])) == F.Remove(fs, name).bits
    requires Outside(d1, d2, DataSet(fs.headers[F.DIRECTORY_SECTOR]))
    requires TableOf(Content(d2, fs.headers[F.DIRECTORY_SECTOR])) == F.Remove(fs, name).table
    ensures F.Inv(F.Remove(fs, name)) && Holds(d2, F.Remove(fs, name))
    ensures Outside(d, d2, SystemData(fs.headers))
  {
    hide F.Partition, F.Named, F.DistinctFiles, Content, LayoutOf, BitsOf, TableOf, Free, Removed;
    F.RemoveKeepsInv(fs, name);
    F.SectorHasHeader(fs, name);
    var fs' := F.Remove(fs, name);
    Apart(fs.bits, fs.headers, F.DIRECTORY_SECTOR, F.FREE_MAP_SECTOR);
    ContentApart(d1, d2, fs.headers[F.FREE_MAP_SECTOR], DataSet(fs.headers[F.DIRECTORY_SECTOR]));
    OutsideTrans(d, d1, d2, DataSet(fs.headers[F.FREE_MAP_SECTOR]), DataSet(fs.headers[F.DIRECTORY_SECTOR]));
    assert SystemData(fs.headers) + {} == SystemData(fs.headers);
    WrittenState(d, d2, fs, fs', {});
  }

  /** The two writes that end formatting leave the formatted state on disk. */
  lemma FormatWritten(d: Image, d1: Image, d2: Image, fs: Fs)
    requires F.Inv(fs) && fs.headers.Keys == {F.FREE_MAP_SECTOR, F.DIRECTORY_SECTOR}
    requires forall h :: h in fs.headers ==> LayoutOf(d[h]) == fs.headers[h]
    requires Outside(d, d1, DataSet(fs.headers[F.FREE_MAP_SECTOR]))
    requires BitsOf(Content(d1, fs.headers[F.FREE_MAP_SECTOR])) == fs.bits
    requires Outside(d1, d2, DataSet(fs.headers[F.DIRECTORY_SECTOR]))
    requires TableOf(Content(d2, fs.headers[F.DIRECTORY_SECTOR])) == fs.table
    ensures Holds(d2, fs)
  {
    hide F.Partition, F.Named, F.DistinctFiles, Content, LayoutOf, BitsOf, TableOf, DataSet;
    forall h | h in fs.headers ensures d2[h] == d[h] {
      NotInData(fs, h, F.FREE_MAP_SECTOR);
      NotInData(fs, h, F.DIRECTORY_SECTOR);
    }
    Apart(fs.bits, fs.headers, F.DIRECTORY_SECTOR, F.FREE_MAP_SECTOR);
    ContentApart(d1, d2, fs.headers[F.FREE_MAP_SECTOR], DataSet(fs.headers[F.DIRECTORY_SECTOR]));
  }

  lemma FormatIgnoresTable(table: seq<Entry>)
    ensures var fs, fs0 := F.Format(table), F.Format([]);
            && fs.table == table && fs.bits == fs0.bits && fs.headers == fs0.headers
            && fs.headers.Keys == {F.FREE_MAP_SECTOR, F.DIRECTORY_SECTOR}
  {
    hide AllocatedLayout;
  }

  lemma NoFiles(d: Image, fs: Fs)
    requires F.Inv(fs) && forall i :: 0 <= i < |fs.table| ==> !fs.table[i].inUse
    ensures FilesOn(d, fs) == map[]
  {
    assert Keys(fs.table) == {};
  }

  /** Mark the two header sectors, allocate the system files and write their headers. */
  method FormatHeaders(disk: SynchDisk) returns (freeMap: Bitmap, mapHdr: FileHeader, dirHdr: FileHeader)
    modifies disk
    ensures fresh(freeMap) && fresh(freeMap.words) && freeMap.Valid() && freeMap.numBits == NUM_SECTORS
    ensures var fs := F.Format([]);
            && freeMap.Bits() == fs.bits
            && LayoutOf(disk.sectors[F.FREE_MAP_SECTOR]) == fs.headers[F.FREE_MAP_SECTOR]
            && LayoutOf(disk.sectors[F.DIRECTORY_SECTOR]) == fs.headers[F.DIRECTORY_SECTOR]
  {
    hide LayoutOf, AllocatedLayout, Unpack, CountClear;
    freeMap := new Bitmap(NUM_SECTORS);
    mapHdr := new FileHeader();
    dirHdr := new FileHeader();
    freeMap.Mark(F.FREE_MAP_SECTOR);
    freeMap.Mark(F.DIRECTORY_SECTOR);
    assert freeMap.Bits() == F.FreshBits();
    F.FreshDiskHasSpace();
    F.AllocationTakes(F.FreshBits(), F.FREE_MAP_FILE_SIZE);
    var ok := mapHdr.Allocate(freeMap, F.FREE_MAP_FILE_SIZE);
    assert ok;
    ok := dirHdr.Allocate(freeMap, DIRECTORY_FILE_SIZE);
    assert ok;
    mapHdr.WriteBack(disk, F.FREE_MAP_SECTOR);
    dirHdr.WriteBack(disk, F.DIRECTORY_SECTOR);
  }

  /** Formatting proper: headers first, then the files can be opened and their contents written. */
  method FormatDisk(disk: SynchDisk) returns (mapFile: OpenFile, dirFile: OpenFile, directory: Directory)
    modifies disk
    ensures mapFile.Valid() && mapFile.disk == disk && dirFile.Valid() && dirFile.disk == disk
    ensures var fs := F.Format(directory.table[..]);
            && F.Inv(fs) && Holds(disk.sectors, fs) && FilesOn(disk.sectors, fs) == map[]
            && mapFile.hdr.View() == fs.headers[F.FREE_MAP_SECTOR] && dirFile.hdr.View() == fs.headers[F.DIRECTORY_SECTOR]
  {
    hide F.Partition, F.Named, F.DistinctFiles, Content, LayoutOf, BitsOf, TableOf, Outside, F.Format, HeaderView;
    var freeMap, mapHdr, dirHdr := FormatHeaders(disk);
    directory := new Directory(NUM_DIR_ENTRIES);
    ghost var fs := F.Format(directory.table[..]);
    F.FormatEstablishesInv(directory.table[..]);
    FormatIgnoresTable(directory.table[..]);
    ghost var d := disk.sectors;
    mapFile := new OpenFile(disk, F.FREE_MAP_SECTOR);
    dirFile := new OpenFile(disk, F.DIRECTORY_SECTOR);
    WriteBackFreeMap(freeMap, mapFile);
    ghost var d1 := disk.sectors;
    directory.WriteBack(dirFile);
    FormatWritten(d, d1, disk.sectors, fs);
    NoFiles(disk.sectors, fs);
  }

  class FileSystem {
    const disk: SynchDisk
    const freeMapFile: OpenFile
    const directoryFile: OpenFile
    ghost var fs: Fs

    /** The two system files are open on their headers, and the disk holds a consistent state. */
    ghost predicate Valid()
      reads this, disk, freeMapFile, freeMapFile.hdr, directoryFile, directoryFile.hdr
    {
      && F.Inv(fs) && Holds(disk.sectors, fs)
      && freeMapFile.disk == disk && freeMapFile.Valid() && freeMapFile.hdr.View() == fs.headers[F.FREE_MAP_SECTOR]
      && directoryFile.disk == disk && directoryFile.Valid() && directoryFile.hdr.View() == fs.headers[F.DIRECTORY_SECTOR]
    }

    ghost function Files(): map<seq<byte>, seq<byte>>
      requires Valid()
      reads this, disk, freeMapFile, freeMapFile.hdr, directoryFile, directoryFile.hdr
    {
      FilesOn(disk.sectors, fs)
    }

    /** Open the system files of a disk that already holds a file system. */
    constructor (disk: SynchDisk, ghost fs: Fs)
      requires F.Inv(fs) && Holds(disk.sectors, fs)
      ensures Valid() && this.disk == disk && this.fs == fs
    {
      hide F.Partition, F.Named, F.DistinctFiles, Content, LayoutOf, BitsOf, TableOf;
      HeaderInRange(fs, F.FREE_MAP_SECTOR);
      HeaderInRange(fs, F.DIRECTORY_SECTOR);
      this.disk := disk;
      this.freeMapFile := new OpenFile(disk, F.FREE_MAP_SECTOR);
      this.directoryFile := new OpenFile(disk, F.DIRECTORY_SECTOR);
      this.fs := fs;
    }

    /** Format a disk, whatever is on it: an empty directory and a free map with only the system sectors marked. */
    constructor Format(disk: SynchDisk)
      modifies disk
      ensures Valid() && this.disk == disk && Files() == map[]
      ensures exists table: seq<Entry> :: fs == F.Format(table)
    {
      hide F.Inv, Holds, FilesOn, F.Format, HeaderView, ValidLayout;
      var mapFile, dirFile, directory := FormatDisk(disk);
      this.disk := disk;
      this.freeMapFile := mapFile;
      this.directoryFile := dirFile;
      this.fs := F.Format(directory.table[..]);
    }

    /** The in-memory half of Create: nothing is written, whatever the outcome. */
    method PlanCreate(name: seq<byte>, initialSize: nat)
      returns (ok: bool, sector: int, hdr: FileHeader, directory: Directory, freeMap: Bitmap)
      requires Valid() && initialSize <= MAX_FILE_SIZE
      ensures fresh(hdr) && fresh(directory) && fresh(directory.table) && fresh(freeMap) && fresh(freeMap.words)
      ensures ok <==> F.CanCreate(fs, name, initialSize)
      ensures ok ==> 0 <= sector == FirstClear(fs.bits) && Planned(F.Create(fs, name, initialSize), sector, hdr, directory, freeMap)
    {
      hide F.Partition, F.Named, F.DistinctFiles, Content, LayoutOf, BitsOf, TableOf, CountClear, FirstClear, Unpack;
      hide IndexOf, FreeSlot, Added, ValidLayout, HeaderView, Key;
      directory := new Directory(NUM_DIR_ENTRIES);
      directory.FetchFrom(directoryFile);
      freeMap := new Bitmap(NUM_SECTORS);
      hdr := new FileHeader();
      sector := directory.Find(name);
      if sector != -1 {
        return false, sector, hdr, directory, freeMap;
      }
      freeMap := FetchFreeMap(freeMapFile);
      sector := freeMap.FindAndSet();
      if sector == -1 {
        return false, sector, hdr, directory, freeMap;
      }
      ok := directory.Add(name, sector);
      if !ok {
        return;
      }
      ok := hdr.Allocate(freeMap, initialSize);
    }

    /** The header, directory and free map in memory are those of a state with a new header at a sector. */
    static ghost predicate Planned(fs': Fs, sector: nat, hdr: FileHeader, directory: Directory, freeMap: Bitmap)
      reads hdr, directory.table, freeMap.words
    {
      && sector < NUM_SECTORS && sector in fs'.headers
      && hdr.Allocated() && hdr.View() == fs'.headers[sector]
      && directory.table.Length == NUM_DIR_ENTRIES && directory.table[..] == fs'.table
      && freeMap.Valid() && freeMap.numBits == NUM_SECTORS && freeMap.Bits() == fs'.bits
    }

    /** The three writes of a successful Create. */
    method FlushCreate(name: seq<byte>, initialSize: nat, sector: nat, hdr: FileHeader, directory: Directory, freeMap: Bitmap)
      requires Valid() && initialSize <= MAX_FILE_SIZE && F.CanCreate(fs, name, initialSize)
      requires sector == FirstClear(fs.bits) && Planned(F.Create(fs, name, initialSize), sector, hdr, directory, freeMap)
      modifies disk
      ensures F.Inv(F.Create(fs, name, initialSize)) && Holds(disk.sectors, F.Create(fs, name, initialSize))
      ensures Outside(old(disk.sectors), disk.sectors, SystemData(fs.headers) + {FirstClear(fs.bits) as nat})
    {
      hide F.Partition, F.Named, F.DistinctFiles, Content, LayoutOf, BitsOf, TableOf, F.Create, F.CanCreate, Outside, SystemData;
      ghost var d := disk.sectors;
      hdr.WriteBack(disk, sector);
      ghost var d1 := disk.sectors;
      OneSector(d, sector, d1[sector]);
      directory.WriteBack(directoryFile);
      ghost var d2 := disk.sectors;
      WriteBackFreeMap(freeMap, freeMapFile);
      CreateWritten(d, d1, d2, disk.sectors, fs, name, initialSize);
    }

    method Create(name: seq<byte>, initialSize: nat) returns (success: bool)
      requires Valid() && initialSize <= MAX_FILE_SIZE
      modifies this, disk
      ensures Valid() && fs == F.Create(old(fs), name, initialSize)
      ensures success <==>
                && Key(name) !in old(Files()) && |old(Files())| < NUM_DIR_ENTRIES
                && 1 + DivRoundUp(initialSize, SECTOR_SIZE) <= CountClear(old(fs).bits)
      ensures !success ==> disk.sectors == old(disk.sectors)
      ensures success ==> Key(name) !in old(Files()) && Key(name) in Files() && |Files()[Key(name)]| == initialSize
      ensures success ==> Files() == old(Files())[Key(name) := Files()[Key(name)]]
    {
      hide F.Partition, F.Named, F.DistinctFiles, Holds, FilesOn, AllocatedLayout, Added, F.CanCreate, Outside, SystemData, Planned;
      CanCreateIff(disk.sectors, fs, name, initialSize);
      var ok, sector, hdr, directory, freeMap := PlanCreate(name, initialSize);
      success := ok;
      if success {
        SystemHeadersKept(fs, name, initialSize);
        FlushCreate(name, initialSize, sector, hdr, directory, freeMap);
        CreatedFiles(old(disk.sectors), disk.sectors, fs, name, initialSize);
        fs := F.Create(fs, name, initialSize);
      }
    }

    /** Open a file by name: an open file on the header the directory names, or none. */
    method Open(name: seq<byte>) returns (file: OpenFile?)
      requires Valid()
      ensures file == null <==> Key(name) !in Files()
      ensures file != null ==> fresh(file) && fresh(file.hdr) && file.Valid() && file.disk == disk && file.seekPosition == 0
      ensures file != null ==> HasLayout(fs, Key(name), file.hdr.View())
      ensures file != null ==> file.Contents() == Files()[Key(name)]
    {
      hide F.Partition, F.Named, F.DistinctFiles, Content, LayoutOf, BitsOf, TableOf, Keys;
      var directory := new Directory(NUM_DIR_ENTRIES);
      directory.FetchFrom(directoryFile);
      var sector := directory.Find(name);
      KeyIsPresent(fs.table, Key(name));
      if sector >= 0 {
        HeaderInRange(fs, HeaderOf(fs, Key(name)));
        file := new OpenFile(disk, sector);
      } else {
        file := null;
      }
    }

    /** The in-memory half of Remove. */
    method PlanRemove(name: seq<byte>) returns (ok: bool, directory: Directory, freeMap: Bitmap)
      requires Valid()
      ensures fresh(directory) && fresh(directory.table) && fresh(freeMap) && fresh(freeMap.words)
      ensures ok <==> F.CanRemove(fs, name)
      ensures ok ==> directory.table.Length == NUM_DIR_ENTRIES && directory.table[..] == F.Remove(fs, name).table
      ensures ok ==> freeMap.Valid() && freeMap.numBits == NUM_SECTORS && freeMap.Bits() == F.Remove(fs, name).bits
    {
      hide F.Partition, F.Named, F.DistinctFiles, Content, LayoutOf, BitsOf, TableOf, Unpack, Removed, Free;
      directory := new Directory(NUM_DIR_ENTRIES);
      directory.FetchFrom(directoryFile);
      var sector := directory.Find(name);
      if sector == -1 {
        freeMap := new Bitmap(NUM_SECTORS);
        return false, directory, freeMap;
      }
      F.SectorHasHeader(fs, name);
      freeMap := Release(sector);
      ok := directory.Remove(name);
    }

    /** The free map with a file's data and header sectors returned to it. */
    method Release(sector: nat) returns (freeMap: Bitmap)
      requires Valid() && sector in fs.headers && ValidLayout(fs.headers[sector])
      ensures fresh(freeMap) && fresh(freeMap.words) && freeMap.Valid() && freeMap.numBits == NUM_SECTORS
      ensures sector < NUM_SECTORS && freeMap.Bits() == Free(fs.bits, fs.headers[sector].data)[sector := false]
    {
      hide F.Partition, F.Named, F.DistinctFiles, Content, LayoutOf, BitsOf, TableOf, Unpack, Free;
      HeaderInRange(fs, sector);
      DataMarked(fs, sector);
      var fileHdr := new FileHeader();
      fileHdr.FetchFrom(disk, sector);
      freeMap := FetchFreeMap(freeMapFile);
      fileHdr.Deallocate(freeMap);
      freeMap.Clear(sector);
    }

    method Remove(name: seq<byte>) returns (ok: bool)
      requires Valid()
      modifies this, disk
      ensures Valid() && fs == F.Remove(old(fs), name)
      ensures ok <==> Key(name) in old(Files())
      ensures !ok ==> disk.sectors == old(disk.sectors)
      ensures ok ==> Files() == old(Files()) - {Key(name)}
    {
      hide F.Partition, F.Named, F.DistinctFiles, Content, LayoutOf, BitsOf, TableOf, FilesOn, Outside, SystemData, Free, Removed, F.CanRemove;
      CanRemoveIff(disk.sectors, fs, name);
      var ok', directory, freeMap := PlanRemove(name);
      ok := ok';
      if ok {
        ghost var d := disk.sectors;
        F.SectorHasHeader(fs, name);
        WriteBackFreeMap(freeMap, freeMapFile);
        ghost var d1 := disk.sectors;
        directory.WriteBack(directoryFile);
        RemoveWritten(d, d1, disk.sectors, fs, name);
        RemovedFiles(d, disk.sectors, fs, name);
        fs := F.Remove(fs, name);
      }
    }

    /**
     Write to an open file of the file system: its bytes are overwritten as asked, and the free
     map, the directory and every other file stay as they are.
     */
    method WriteFile(file: OpenFile, ghost key: seq<byte>, from: seq<byte>, numBytes: int, position: nat) returns (n: nat)
      requires Valid() && key in Files()
      requires file.Valid() && file.disk == disk && HasLayout(fs, key, file.hdr.View())
      requires numBytes <= |from|
      modifies disk
      ensures Valid() && n == Moved(numBytes, position, |Files()[key]|)
      ensures Files() == old(Files())[key := Written(old(Files())[key], from, numBytes, position)]
    {
      hide F.Partition, F.Named, F.DistinctFiles, Content, LayoutOf, BitsOf, TableOf, Keys, Outside, Written, HeaderOf;
      ghost var d := disk.sectors;
      n := file.WriteAt(from, numBytes, position);
      WriteKeepsState(d, disk.sectors, fs, HeaderOf(fs, key));
      WriteChangesOneFile(d, disk.sectors, fs, key);
    }
  }
}
