/** The directory table of filesys/directory.cc and its 20-byte entries on disk. */
module Directories {
  import opened Bytes
  import opened Storage
  import opened OpenFiles

  const FILE_NAME_MAX_LEN := 9
  const ENTRY_SIZE := 20
  const NUM_DIR_ENTRIES := 10
  const DIRECTORY_FILE_SIZE := ENTRY_SIZE * NUM_DIR_ENTRIES

  datatype DirectoryEntry = DirectoryEntry(inUse: bool, sector: uint32, name: seq<byte>)

  const NO_NAME: seq<byte> := [0, 0, 0, 0, 0, 0, 0, 0, 0, 0]

  type Entry = e: DirectoryEntry | |e.name| == FILE_NAME_MAX_LEN + 1 witness DirectoryEntry(false, 0, NO_NAME)

  // ---- C strings: a sequence of bytes, ended by its first zero or by its end ----

  function CharAt(s: seq<byte>, i: nat): byte { if i < |s| then s[i] else 0 }

  /** `strncmp(a, b, n) == 0`, from position i on. */
  predicate StrnEq(a: seq<byte>, b: seq<byte>, n: nat, i: nat)
    decreases n - i
  {
    i >= n || (CharAt(a, i) == CharAt(b, i) && (CharAt(a, i) == 0 || StrnEq(a, b, n, i + 1)))
  }

  function KeyFrom(s: seq<byte>, i: nat): seq<byte>
    decreases FILE_NAME_MAX_LEN - i
  {
    if i >= FILE_NAME_MAX_LEN || CharAt(s, i) == 0 then [] else [CharAt(s, i)] + KeyFrom(s, i + 1)
  }

  /** What the directory knows of a name: its first nine characters. */
  function Key(s: seq<byte>): seq<byte> { KeyFrom(s, 0) }

  lemma {:induction false} StrnEqComparesKeys(a: seq<byte>, b: seq<byte>, i: nat)
    ensures StrnEq(a, b, FILE_NAME_MAX_LEN, i) <==> KeyFrom(a, i) == KeyFrom(b, i)
    decreases FILE_NAME_MAX_LEN - i
  {
    if i < FILE_NAME_MAX_LEN {
      StrnEqComparesKeys(a, b, i + 1);
      if KeyFrom(a, i) == KeyFrom(b, i) && CharAt(a, i) != 0 && CharAt(b, i) != 0 {
        assert KeyFrom(a, i)[0] == CharAt(a, i) && KeyFrom(a, i)[1..] == KeyFrom(a, i + 1);
        assert KeyFrom(b, i)[0] == CharAt(b, i) && KeyFrom(b, i)[1..] == KeyFrom(b, i + 1);
      }
    }
  }

  /** `strncpy(dst, src, FileNameMaxLen)`: nine characters or zero padding; the tenth byte stays. */
  function Strncpy(dst: seq<byte>, src: seq<byte>): (r: seq<byte>)
    requires |dst| == FILE_NAME_MAX_LEN + 1
    ensures |r| == |dst|
  {
    seq(|dst|, i requires 0 <= i < |dst| =>
      if i == FILE_NAME_MAX_LEN then dst[i] else if exists j :: 0 <= j < i && CharAt(src, j) == 0 then 0 else CharAt(src, i))
  }

  lemma {:induction false} StoredKey(dst: seq<byte>, src: seq<byte>, i: nat)
    requires |dst| == FILE_NAME_MAX_LEN + 1
    requires forall j :: 0 <= j < i ==> CharAt(src, j) != 0
    ensures KeyFrom(Strncpy(dst, src), i) == KeyFrom(src, i)
    decreases FILE_NAME_MAX_LEN - i
  {
    if i < FILE_NAME_MAX_LEN {
      assert CharAt(Strncpy(dst, src), i) == CharAt(src, i);
      if CharAt(src, i) != 0 {
        StoredKey(dst, src, i + 1);
      }
    }
  }

  // ---- the table ----

  predicate Matches(e: Entry, key: seq<byte>) { e.inUse && Key(e.name) == key }

  /** Index of the first entry in use under a key, at or after i; -1 if there is none. */
  function IndexFrom(table: seq<Entry>, key: seq<byte>, i: nat): (r: int)
    requires i <= |table|
    ensures r == -1 || i <= r < |table|
    ensures r == -1 ==> forall j :: i <= j < |table| ==> !Matches(table[j], key)
    ensures r >= 0 ==> Matches(table[r], key) && forall j :: i <= j < r ==> !Matches(table[j], key)
    decreases |table| - i
  {
    if i == |table| then -1 else if Matches(table[i], key) then i else IndexFrom(table, key, i + 1)
  }

  function IndexOf(table: seq<Entry>, key: seq<byte>): int { IndexFrom(table, key, 0) }

  /** The first entry not in use, at or after i; -1 if the directory is full. */
  function FreeSlotFrom(table: seq<Entry>, i: nat): (r: int)
    requires i <= |table|
    ensures r == -1 || i <= r < |table|
    ensures r == -1 ==> forall j :: i <= j < |table| ==> table[j].inUse
    ensures r >= 0 ==> !table[r].inUse && forall j :: i <= j < r ==> table[j].inUse
    decreases |table| - i
  {
    if i == |table| then -1 else if !table[i].inUse then i else FreeSlotFrom(table, i + 1)
  }

  function FreeSlot(table: seq<Entry>): int { FreeSlotFrom(table, 0) }

  function Added(table: seq<Entry>, name: seq<byte>, sector: uint32): seq<Entry>
    requires FreeSlot(table) >= 0
  {
    var i := FreeSlot(table);
    table[i := DirectoryEntry(true, sector, Strncpy(table[i].name, name))]
  }

  function Removed(table: seq<Entry>, key: seq<byte>): seq<Entry>
    requires IndexOf(table, key) >= 0
  {
    var i := IndexOf(table, key);
    table[i := table[i].(inUse := false)]
  }

  // ---- entries on disk: inUse, three bytes of padding, sector, name, two bytes of padding ----

  function EntryBytes(e: Entry): (bs: seq<byte>)
    ensures |bs| == ENTRY_SIZE
  {
    [if e.inUse then 1 else 0, 0, 0, 0] + IntBytes(e.sector) + e.name + [0, 0]
  }

  function EntryOf(bs: seq<byte>): Entry
    requires |bs| == ENTRY_SIZE
  {
    DirectoryEntry(bs[0] != 0, IntOf(bs[4], bs[5], bs[6], bs[7]), bs[8..18])
  }

  lemma EntryRoundTrip(e: Entry)
    ensures EntryOf(EntryBytes(e)) == e
    ensures EntryBytes(e)[4..8] == IntBytes(e.sector) && EntryBytes(e)[8..18] == e.name
  {
    hide IntBytes, IntOf;
    IntRoundTrip(e.sector);
    var bs := EntryBytes(e);
    assert bs[4..8] == IntBytes(e.sector);
    assert bs[4] == bs[4..8][0] && bs[5] == bs[4..8][1] && bs[6] == bs[4..8][2] && bs[7] == bs[4..8][3];
    assert bs[8..18] == e.name;
  }

  function TableBytes(table: seq<Entry>): (bs: seq<byte>)
    ensures |bs| == ENTRY_SIZE * |table|
  {
    if table == [] then [] else TableBytes(table[..|table| - 1]) + EntryBytes(table[|table| - 1])
  }

  function TableOf(bs: seq<byte>): (table: seq<Entry>)
    ensures |table| == |bs| / ENTRY_SIZE
  {
    seq(|bs| / ENTRY_SIZE, i requires 0 <= i < |bs| / ENTRY_SIZE => EntryOf(bs[ENTRY_SIZE * i..ENTRY_SIZE * (i + 1)]))
  }

  lemma {:induction false} TableBytesAt(table: seq<Entry>, i: nat)
    requires i < |table|
    ensures TableBytes(table)[ENTRY_SIZE * i..ENTRY_SIZE * (i + 1)] == EntryBytes(table[i])
  {
    hide EntryBytes;
    var last := |table| - 1;
    var front := TableBytes(table[..last]);
    if i < last {
      TableBytesAt(table[..last], i);
      assert TableBytes(table)[ENTRY_SIZE * i..ENTRY_SIZE * (i + 1)] == front[ENTRY_SIZE * i..ENTRY_SIZE * (i + 1)];
    }
  }

  /** Writing the directory and fetching it gives it back. */
  lemma TableRoundTrip(table: seq<Entry>)
    ensures TableOf(TableBytes(table)) == table
  {
    hide EntryBytes, EntryOf, TableBytes;
    var bs := TableBytes(table);
    forall i | 0 <= i < |table| ensures TableOf(bs)[i] == table[i] {
      TableBytesAt(table, i);
      EntryRoundTrip(table[i]);
    }
  }

  class Directory {
    const table: array<Entry>

    constructor (size: nat)
      ensures table.Length == size && fresh(table)
      ensures forall i :: 0 <= i < size ==> !table[i].inUse
    {
      table := new Entry[size];
      new;
      for i := 0 to size
        invariant forall j :: 0 <= j < i ==> !table[j].inUse
      {
        table[i] := table[i].(inUse := false);
      }
    }

    method FetchFrom(file: OpenFile)
      requires file.Valid() && |file.Contents()| == ENTRY_SIZE * table.Length
      modifies table
      ensures table[..] == TableOf(file.Contents())
    {
      hide EntryOf, Content;
      var buf := new byte[ENTRY_SIZE * table.Length];
      var n := file.ReadAt(buf, 0, ENTRY_SIZE * table.Length, 0);
      assert buf[..] == file.Contents();
      var entries := TableOf(buf[..]);
      forall i | 0 <= i < table.Length {
        table[i] := entries[i];
      }
    }

    method WriteBack(file: OpenFile)
      requires file.Valid() && |file.Contents()| == ENTRY_SIZE * table.Length
      modifies file.disk
      ensures TableOf(file.Contents()) == table[..]
      ensures Outside(old(file.disk.sectors), file.disk.sectors, DataSet(file.hdr.View()))
    {
      hide TableOf, Content;
      var bs := TableBytes(table[..]);
      var n := file.WriteAt(bs, |bs|, 0);
      assert file.Contents() == bs;
      TableRoundTrip(table[..]);
    }

    method FindIndex(name: seq<byte>) returns (r: int)
      ensures r == IndexOf(table[..], Key(name))
    {
      for i := 0 to table.Length
        invariant IndexOf(table[..], Key(name)) == IndexFrom(table[..], Key(name), i)
      {
        StrnEqComparesKeys(table[i].name, name, 0);
        if table[i].inUse && StrnEq(table[i].name, name, FILE_NAME_MAX_LEN, 0) {
          return i;
        }
      }
      return -1;
    }

    method Find(name: seq<byte>) returns (sector: int)
      ensures var i := IndexOf(table[..], Key(name)); sector == if i == -1 then -1 else table[i].sector
    {
      var i := FindIndex(name);
      if i != -1 {
        return table[i].sector;
      }
      return -1;
    }

    method Add(name: seq<byte>, newSector: uint32) returns (ok: bool)
      modifies table
      ensures ok <==> IndexOf(old(table[..]), Key(name)) == -1 && FreeSlot(old(table[..])) >= 0
      ensures table[..] == if ok then Added(old(table[..]), name, newSector) else old(table[..])
    {
      var found := FindIndex(name);
      if found != -1 {
        return false;
      }
      for i := 0 to table.Length
        invariant table[..] == old(table[..])
        invariant FreeSlot(table[..]) == FreeSlotFrom(table[..], i)
      {
        if !table[i].inUse {
          table[i] := DirectoryEntry(true, newSector, Strncpy(table[i].name, name));
          return true;
        }
      }
      return false;
    }

    method Remove(name: seq<byte>) returns (ok: bool)
      modifies table
      ensures ok <==> IndexOf(old(table[..]), Key(name)) >= 0
      ensures table[..] == if ok then Removed(old(table[..]), Key(name)) else old(table[..])
    {
      var i := FindIndex(name);
      if i == -1 {
        return false;
      }
      table[i] := table[i].(inUse := false);
      return true;
    }
  }
}
