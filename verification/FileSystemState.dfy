/**
 The file system as pure state: a free map, a directory and the headers it names.
 Create and Remove of filesys/filesys.cc as functions, and what every run of them keeps.
 */
module FileSystemState {
  import opened Bytes
  import opened Bitmaps
  import opened Storage
  import opened Directories

  const FREE_MAP_SECTOR := 0
  const DIRECTORY_SECTOR := 1
  const FREE_MAP_FILE_SIZE := NUM_SECTORS / 8

  /** File headers, indexed by the sector that holds them. */
  type Headers = map<nat, Layout>

  datatype Fs = Fs(bits: seq<bool>, table: seq<Entry>, headers: Headers)

  /** The sectors a header accounts for: its own and its file's data. */
  function Claim(h: nat, l: Layout): set<nat> { {h} + set x | x in l.data }

  ghost predicate ValidHeader(h: nat, l: Layout) {
    h < NUM_SECTORS && ValidLayout(l) && h !in l.data
  }

  ghost predicate ValidHeaders(hs: Headers) {
    forall h :: h in hs ==> ValidHeader(h, hs[h])
  }

  ghost predicate Disjoint(hs: Headers) {
    forall h, h' :: h in hs && h' in hs && h != h' ==> Claim(h, hs[h]) !! Claim(h', hs[h'])
  }

  ghost predicate Claimed(hs: Headers, x: nat) {
    exists h :: h in hs && x in Claim(h, hs[h])
  }

  /** A sector is marked exactly if some header claims it. */
  ghost predicate Accounted(bits: seq<bool>, hs: Headers) {
    && |bits| == NUM_SECTORS
    && forall x :: 0 <= x < NUM_SECTORS ==> (bits[x] <==> Claimed(hs, x))
  }

  /** The marked sectors are the disjoint union of the claims of valid headers. */
  ghost predicate Partition(bits: seq<bool>, hs: Headers) {
    ValidHeaders(hs) && Disjoint(hs) && Accounted(bits, hs)
  }

  ghost predicate Used(table: seq<Entry>, h: nat) {
    exists i :: 0 <= i < |table| && table[i].inUse && table[i].sector == h
  }

  /** The headers are those of the free map, the directory and the files in the directory. */
  ghost predicate Named(table: seq<Entry>, hs: Headers) {
    && |table| == NUM_DIR_ENTRIES
    && (forall h :: h in hs <==> h == FREE_MAP_SECTOR || h == DIRECTORY_SECTOR || Used(table, h))
    && (forall i :: 0 <= i < |table| && table[i].inUse ==> table[i].sector > DIRECTORY_SECTOR)
  }

  /** No two files share a header or the first nine characters of their names. */
  ghost predicate DistinctFiles(table: seq<Entry>) {
    forall i, j :: 0 <= i < j < |table| && table[i].inUse && table[j].inUse ==>
      table[i].sector != table[j].sector && Key(table[i].name) != Key(table[j].name)
  }

  ghost predicate SystemFiles(hs: Headers) {
    && FREE_MAP_SECTOR in hs && ValidLayout(hs[FREE_MAP_SECTOR]) && hs[FREE_MAP_SECTOR].length == FREE_MAP_FILE_SIZE
    && DIRECTORY_SECTOR in hs && ValidLayout(hs[DIRECTORY_SECTOR]) && hs[DIRECTORY_SECTOR].length == DIRECTORY_FILE_SIZE
  }

  ghost predicate Inv(fs: Fs) {
    && |fs.bits| == NUM_SECTORS && |fs.table| == NUM_DIR_ENTRIES
    && Partition(fs.bits, fs.headers)
    && Named(fs.table, fs.headers)
    && DistinctFiles(fs.table)
    && SystemFiles(fs.headers)
  }

  // ---- Create and Remove ----

  predicate CanCreate(fs: Fs, name: seq<byte>, size: nat) {
    && IndexOf(fs.table, Key(name)) == -1
    && FirstClear(fs.bits) >= 0
    && FreeSlot(fs.table) >= 0
    && DivRoundUp(size, SECTOR_SIZE) <= CountClear(fs.bits[FirstClear(fs.bits) := true])
  }

  function Create(fs: Fs, name: seq<byte>, size: nat): Fs
    requires |fs.bits| == NUM_SECTORS
  {
    if !CanCreate(fs, name, size) then fs
    else
      var sector := FirstClear(fs.bits);
      var (layout, bits) := AllocatedLayout(fs.bits[sector := true], size);
      Fs(bits, Added(fs.table, name, sector), fs.headers[sector := layout])
  }

  predicate CanRemove(fs: Fs, name: seq<byte>) { IndexOf(fs.table, Key(name)) >= 0 }

  /** The header sector of a file in the directory. */
  function SectorOf(fs: Fs, name: seq<byte>): nat
    requires CanRemove(fs, name)
  {
    fs.table[IndexOf(fs.table, Key(name))].sector
  }

  function Remove(fs: Fs, name: seq<byte>): Fs
    requires Inv(fs)
  {
    if !CanRemove(fs, name) then fs
    else
      var sector := SectorOf(fs, name);
      SectorHasHeader(fs, name);
      Fs(Free(fs.bits, fs.headers[sector].data)[sector := false],
         Removed(fs.table, Key(name)),
         fs.headers - {sector})
  }

  lemma SectorHasHeader(fs: Fs, name: seq<byte>)
    requires Inv(fs) && CanRemove(fs, name)
    ensures SectorOf(fs, name) in fs.headers && SectorOf(fs, name) > DIRECTORY_SECTOR
    ensures ValidHeader(SectorOf(fs, name), fs.headers[SectorOf(fs, name)])
  {
    assert Used(fs.table, SectorOf(fs, name));
  }

  // ---- headers: adding and dropping one ----

  /** Adding a header whose sectors nobody claimed, and marking them, keeps the partition. */
  lemma AddHeader(bits: seq<bool>, hs: Headers, h: nat, l: Layout, bits': seq<bool>)
    requires Partition(bits, hs) && ValidHeader(h, l)
    requires forall x :: x in Claim(h, l) ==> x < NUM_SECTORS && !bits[x]
    requires |bits'| == NUM_SECTORS && forall x :: 0 <= x < NUM_SECTORS ==> bits'[x] == (bits[x] || x in Claim(h, l))
    ensures h !in hs && Partition(bits', hs[h := l])
  {
    hide Claim, ValidHeader;
    var hs' := hs[h := l];
    InOwnClaim(h, l);
    assert !Claimed(hs, h);
    forall g | g in hs ensures g in Claim(g, hs[g]) {
      InOwnClaim(g, hs[g]);
    }
    forall g, x | g in hs && x in Claim(g, hs[g]) ensures x !in Claim(h, l) {
      assert Claimed(hs, x);
    }
    forall x | 0 <= x < NUM_SECTORS ensures bits'[x] <==> Claimed(hs', x) {
      if bits[x] {
        var g :| g in hs && x in Claim(g, hs[g]);
        assert g in hs' && x in Claim(g, hs'[g]);
      } else if x in Claim(h, l) {
        assert h in hs' && x in Claim(h, hs'[h]);
      } else {
        assert !Claimed(hs, x);
        assert forall g :: g in hs' && g != h ==> g in hs && hs'[g] == hs[g];
      }
    }
  }

  lemma InOwnClaim(h: nat, l: Layout)
    ensures h in Claim(h, l)
  {
  }

  /** Dropping a header and clearing its sectors keeps the partition. */
  lemma DropHeader(bits: seq<bool>, hs: Headers, h: nat, bits': seq<bool>)
    requires Partition(bits, hs) && h in hs
    requires |bits'| == NUM_SECTORS && forall x :: 0 <= x < NUM_SECTORS ==> bits'[x] == (bits[x] && x !in Claim(h, hs[h]))
    ensures Partition(bits', hs - {h})
  {
    hide Claim, ValidHeader;
    var hs' := hs - {h};
    forall x | 0 <= x < NUM_SECTORS ensures bits'[x] <==> Claimed(hs', x) {
      if bits'[x] {
        assert Claimed(hs, x);
        var g :| g in hs && x in Claim(g, hs[g]);
        assert g in hs' && x in Claim(g, hs'[g]);
      } else {
        assert forall g :: g in hs' ==> g in hs && g != h && hs'[g] == hs[g];
        assert bits[x] ==> x in Claim(h, hs[h]);
      }
    }
  }

  /** What allocation gives a new header h: a valid layout, off the free map, with h not in it. */
  lemma AllocationIsHeader(bits: seq<bool>, h: nat, size: nat)
    requires |bits| == NUM_SECTORS && h < NUM_SECTORS && !bits[h] && size <= MAX_FILE_SIZE
    requires DivRoundUp(size, SECTOR_SIZE) <= CountClear(bits[h := true])
    ensures var (l, bits') := AllocatedLayout(bits[h := true], size);
            && l.length == size && ValidHeader(h, l)
            && (forall x :: x in Claim(h, l) ==> x < NUM_SECTORS && !bits[x])
            && |bits'| == NUM_SECTORS && forall x :: 0 <= x < NUM_SECTORS ==> bits'[x] == (bits[x] || x in Claim(h, l))
  {
    hide Take, CountClear;
    TakeIsAllocation(bits[h := true], DivRoundUp(size, SECTOR_SIZE));
    var l := AllocatedLayout(bits[h := true], size).0;
    forall x | x in l.data ensures x < NUM_SECTORS && !bits[x] && x != h {
      var i :| 0 <= i < |l.data| && l.data[i] == x;
    }
  }

  // ---- the invariant is kept ----

  lemma CreateKeepsPartition(fs: Fs, name: seq<byte>, size: nat)
    requires Inv(fs) && size <= MAX_FILE_SIZE && CanCreate(fs, name, size)
    ensures var fs', h := Create(fs, name, size), FirstClear(fs.bits);
            && h !in fs.headers && h > DIRECTORY_SECTOR
            && h in fs'.headers && fs'.headers == fs.headers[h := fs'.headers[h]] && fs'.headers[h].length == size
            && (forall x :: x in Claim(h, fs'.headers[h]) ==> x < NUM_SECTORS && !fs.bits[x])
            && |fs'.bits| == NUM_SECTORS
            && (forall x :: 0 <= x < NUM_SECTORS ==> fs'.bits[x] == (fs.bits[x] || x in Claim(h, fs'.headers[h])))
            && Partition(fs'.bits, fs'.headers) && SystemFiles(fs'.headers)
  {
    hide Claim, ValidHeader, CountClear, AllocatedLayout;
    var h := FirstClear(fs.bits);
    forall g | g in fs.headers && g < NUM_SECTORS ensures fs.bits[g] {
      InOwnClaim(g, fs.headers[g]);
      assert Claimed(fs.headers, g);
    }
    AllocationIsHeader(fs.bits, h, size);
    var (l, bits') := AllocatedLayout(fs.bits[h := true], size);
    AddHeader(fs.bits, fs.headers, h, l, bits');
  }

  lemma AddedKeepsNamed(table: seq<Entry>, hs: Headers, name: seq<byte>, h: uint32, l: Layout)
    requires Named(table, hs) && DistinctFiles(table) && h !in hs && h > DIRECTORY_SECTOR
    requires IndexOf(table, Key(name)) == -1 && FreeSlot(table) >= 0
    ensures var table' := Added(table, name, h);
            && Named(table', hs[h := l]) && DistinctFiles(table')
            && IndexOf(table', Key(name)) == FreeSlot(table)
  {
    hide KeyFrom, Strncpy;
    var slot := FreeSlot(table);
    StoredKey(table[slot].name, name, 0);
    var table' := Added(table, name, h);
    forall g ensures Used(table', g) <==> Used(table, g) || g == h {
      if Used(table, g) {
        var i :| 0 <= i < |table| && table[i].inUse && table[i].sector == g;
        assert table'[i] == table[i];
      }
      assert table'[slot].inUse && table'[slot].sector == h;
    }
    forall i | 0 <= i < |table| && table[i].inUse ensures table[i].sector != h {
      assert Used(table, table[i].sector);
    }
  }

  lemma CreateKeepsInv(fs: Fs, name: seq<byte>, size: nat)
    requires Inv(fs) && size <= MAX_FILE_SIZE
    ensures Inv(Create(fs, name, size))
  {
    hide Partition, Named, DistinctFiles, SystemFiles;
    if CanCreate(fs, name, size) {
      CreateKeepsPartition(fs, name, size);
      var fs', h := Create(fs, name, size), FirstClear(fs.bits);
      AddedKeepsNamed(fs.table, fs.headers, name, h, fs'.headers[h]);
    }
  }

  lemma RemoveKeepsPartition(fs: Fs, name: seq<byte>)
    requires Inv(fs) && CanRemove(fs, name)
    ensures var fs', h := Remove(fs, name), SectorOf(fs, name);
            && h in fs.headers && |fs'.bits| == NUM_SECTORS
            && (forall x :: 0 <= x < NUM_SECTORS ==> fs'.bits[x] == (fs.bits[x] && x !in Claim(h, fs.headers[h])))
            && Partition(fs'.bits, fs'.headers) && SystemFiles(fs'.headers)
  {
    SectorHasHeader(fs, name);
    var fs', h := Remove(fs, name), SectorOf(fs, name);
    FreeClears(fs.bits, fs.headers[h].data);
    DropHeader(fs.bits, fs.headers, h, fs'.bits);
  }

  lemma RemovedKeepsNamed(table: seq<Entry>, hs: Headers, key: seq<byte>)
    requires Named(table, hs) && DistinctFiles(table) && IndexOf(table, key) >= 0
    ensures var table' := Removed(table, key);
            && Named(table', hs - {table[IndexOf(table, key)].sector}) && DistinctFiles(table')
            && IndexOf(table', key) == -1
  {
    hide KeyFrom;
    var slot := IndexOf(table, key);
    var h, table' := table[slot].sector, Removed(table, key);
    forall g ensures Used(table', g) <==> Used(table, g) && g != h {
      if Used(table, g) && g != h {
        var i :| 0 <= i < |table| && table[i].inUse && table[i].sector == g;
        assert table'[i] == table[i];
      }
    }
  }

  lemma RemoveKeepsInv(fs: Fs, name: seq<byte>)
    requires Inv(fs)
    ensures Inv(Remove(fs, name))
  {
    hide Partition, Named, DistinctFiles, SystemFiles;
    if CanRemove(fs, name) {
      SectorHasHeader(fs, name);
      RemoveKeepsPartition(fs, name);
      RemovedKeepsNamed(fs.table, fs.headers, Key(name));
    }
  }

  /** A file just created is in the directory, under a header of the size asked for. */
  lemma CreatedIsPresent(fs: Fs, name: seq<byte>, size: nat)
    requires Inv(fs) && size <= MAX_FILE_SIZE && CanCreate(fs, name, size)
    ensures var fs', h := Create(fs, name, size), FirstClear(fs.bits);
            && Inv(fs') && CanRemove(fs', name) && SectorOf(fs', name) == h
            && h in fs'.headers && fs'.headers[h].length == size && h !in fs.headers
            && IndexOf(fs'.table, Key(name)) == FreeSlot(fs.table)
            && fs'.headers == fs.headers[h := fs'.headers[h]]
  {
    CreateKeepsInv(fs, name, size);
    hide Partition, Named, DistinctFiles, SystemFiles, Claim;
    CreateKeepsPartition(fs, name, size);
    var fs', h := Create(fs, name, size), FirstClear(fs.bits);
    AddedKeepsNamed(fs.table, fs.headers, name, h, fs'.headers[h]);
  }

  /** Create then Remove gives back the free map bit for bit, the headers, and the directory up to a dead entry. */
  lemma CreateThenRemove(fs: Fs, name: seq<byte>, size: nat)
    requires Inv(fs) && size <= MAX_FILE_SIZE && CanCreate(fs, name, size)
    ensures var created := Create(fs, name, size);
            && Inv(created) && CanRemove(created, name)
            && var back := Remove(created, name);
               && back.bits == fs.bits
               && back.headers == fs.headers
               && back.table == fs.table[FreeSlot(fs.table) := back.table[FreeSlot(fs.table)]]
               && !back.table[FreeSlot(fs.table)].inUse
  {
    hide Partition, Named, DistinctFiles, SystemFiles, Claim, AllocatedLayout;
    CreatedIsPresent(fs, name, size);
    RestoredBits(fs, name, size);
  }

  lemma RestoredBits(fs: Fs, name: seq<byte>, size: nat)
    requires Inv(fs) && size <= MAX_FILE_SIZE && CanCreate(fs, name, size)
    ensures Inv(Create(fs, name, size)) && Remove(Create(fs, name, size), name).bits == fs.bits
  {
    hide Claim, Remove, Create;
    CreatedIsPresent(fs, name, size);
    CreateKeepsPartition(fs, name, size);
    RemoveKeepsPartition(Create(fs, name, size), name);
  }

  // ---- every run ----

  datatype Operation = CreateFile(name: seq<byte>, size: nat) | RemoveFile(name: seq<byte>)

  function Apply(fs: Fs, op: Operation): Fs
    requires Inv(fs)
  {
    match op
    case CreateFile(name, size) => Create(fs, name, size)
    case RemoveFile(name) => Remove(fs, name)
  }

  ghost predicate Fits(op: Operation) { op.CreateFile? ==> op.size <= MAX_FILE_SIZE }

  /** A run of the file system: consecutive states are related by Create or Remove, of whatever outcome. */
  ghost predicate Run(states: seq<Fs>, ops: seq<Operation>) {
    && |states| == |ops| + 1
    && forall i :: 0 <= i < |ops| ==> Fits(ops[i]) && (Inv(states[i]) ==> states[i + 1] == Apply(states[i], ops[i]))
  }

  /** Whatever files are created and removed, in every state the marked sectors are exactly those accounted for. */
  lemma {:induction false} RunKeepsInv(states: seq<Fs>, ops: seq<Operation>, n: nat)
    requires Run(states, ops) && Inv(states[0]) && n < |states|
    ensures Inv(states[n])
  {
    hide Inv, Create, Remove;
    if n > 0 {
      RunKeepsInv(states, ops, n - 1);
      match ops[n - 1]
      case CreateFile(name, size) => CreateKeepsInv(states[n - 1], name, size);
      case RemoveFile(name) => RemoveKeepsInv(states[n - 1], name);
    }
  }

  // ---- formatting ----

  function FreshBits(): seq<bool> { seq(NUM_SECTORS, i => i == FREE_MAP_SECTOR || i == DIRECTORY_SECTOR) }

  lemma FreshDiskHasSpace()
    ensures CountClear(FreshBits()) >= 3
  {
    CountClearIsCardinality(FreshBits());
    var three: set<nat> := {2, 3, 4};
    assert three <= Clear(FreshBits());
    assert Clear(FreshBits()) == three + (Clear(FreshBits()) - three);
  }

  /** The state formatting leaves: two headers, their data, and a directory with nothing in use. */
  function Format(table: seq<Entry>): Fs {
    FreshDiskHasSpace();
    var (mapHdr, bits1) := AllocatedLayout(FreshBits(), FREE_MAP_FILE_SIZE);
    var (dirHdr, bits2) := AllocatedLayout(bits1, DIRECTORY_FILE_SIZE);
    Fs(bits2, table, map[FREE_MAP_SECTOR := mapHdr, DIRECTORY_SECTOR := dirHdr])
  }

  lemma FormatEstablishesInv(table: seq<Entry>)
    requires |table| == NUM_DIR_ENTRIES && forall i :: 0 <= i < |table| ==> !table[i].inUse
    ensures Inv(Format(table))
  {
    hide Claim, AllocatedLayout, CountClear, Partition;
    FreshDiskHasSpace();
    var fs := Format(table);
    var mapHdr, dirHdr := fs.headers[FREE_MAP_SECTOR], fs.headers[DIRECTORY_SECTOR];
    var none := seq(NUM_SECTORS, _ => false);
    assert FreshBits() == none[DIRECTORY_SECTOR := true][FREE_MAP_SECTOR := true];
    AllocationIsHeader(none[DIRECTORY_SECTOR := true], FREE_MAP_SECTOR, FREE_MAP_FILE_SIZE);
    var bits := AllocatedLayout(FreshBits(), FREE_MAP_FILE_SIZE).1;
    AllocationTakes(FreshBits(), FREE_MAP_FILE_SIZE);
    var mapBits := bits[DIRECTORY_SECTOR := false];
    assert bits == mapBits[DIRECTORY_SECTOR := true];
    AllocationIsHeader(mapBits, DIRECTORY_SECTOR, DIRECTORY_FILE_SIZE);
    NothingAllocated(none);
    AddHeader(none, map[], FREE_MAP_SECTOR, mapHdr, mapBits);
    AddHeader(mapBits, map[][FREE_MAP_SECTOR := mapHdr], DIRECTORY_SECTOR, dirHdr, fs.bits);
    assert fs.headers == map[][FREE_MAP_SECTOR := mapHdr][DIRECTORY_SECTOR := dirHdr];
  }

  lemma AllocationTakes(bits: seq<bool>, size: nat)
    requires DivRoundUp(size, SECTOR_SIZE) <= CountClear(bits)
    ensures CountClear(AllocatedLayout(bits, size).1) == CountClear(bits) - DivRoundUp(size, SECTOR_SIZE)
  {
  }

  lemma NothingAllocated(bits: seq<bool>)
    requires |bits| == NUM_SECTORS && forall x :: 0 <= x < NUM_SECTORS ==> !bits[x]
    ensures Partition(bits, map[])
  {
  }
}
