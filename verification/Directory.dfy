/**
 Directories as files of fixed-size records (filesys/directory.c) over byte-granular inode
 reads and writes, with no allocation failing: a partial map from names to header sectors.
 */
module Directory {
  import opened CStrings
  import opened Options
  import opened InodeIO
  import opened Order

  const NAME_MAX: nat := 14

  /** sizeof (struct dir_entry): a 32-bit sector, NAME_MAX + 1 name bytes, and the in_use flag. */
  const ENTRY_SIZE: nat := 20

  type Name = seq<Byte>

  // ----- Records

  function Slots(c: seq<Byte>): nat { |c| / ENTRY_SIZE }

  /** The bytes of record k. */
  function Record(c: seq<Byte>, k: nat): (e: seq<Byte>)
    requires k < Slots(c)
    ensures |e| == ENTRY_SIZE
  {
    c[ENTRY_SIZE * k..ENTRY_SIZE * k + ENTRY_SIZE]
  }

  predicate InUse(e: seq<Byte>)
    requires |e| == ENTRY_SIZE
  {
    e[19] != 0
  }

  function NameOf(e: seq<Byte>): Name
    requires |e| == ENTRY_SIZE
  {
    CString<Byte>(e[4..19], 0)
  }

  function SectorOf(e: seq<Byte>): nat
    requires |e| == ENTRY_SIZE
  {
    FromLe(e[..4])
  }

  // ----- What a directory's bytes mean

  ghost predicate Binds(c: seq<Byte>, k: nat, name: Name) {
    k < Slots(c) && InUse(Record(c, k)) && NameOf(Record(c, k)) == name
  }

  ghost predicate Free(c: seq<Byte>, k: nat) {
    k < Slots(c) && !InUse(Record(c, k))
  }

  ghost predicate HasFree(c: seq<Byte>) { exists k :: Free(c, k) }

  predicate NameOk(name: Name) { 1 <= |name| <= NAME_MAX }

  /** No record from i up to j is in use. */
  ghost predicate NoneBetween(c: seq<Byte>, i: nat, j: int) {
    forall k, n :: i <= k < j ==> !Binds(c, k, n)
  }

  /** Some record before the i'th binds the name. */
  ghost predicate BoundBefore(c: seq<Byte>, i: nat, name: Name) {
    exists k: nat :: k < i && Binds(c, k, name)
  }

  /** No two records in use share a name. */
  ghost predicate Unique(c: seq<Byte>) {
    forall i, j, name :: Binds(c, i, name) && Binds(c, j, name) ==> i == j
  }

  ghost function Names(c: seq<Byte>): (s: set<Name>)
    ensures forall name :: name in s <==> exists k :: Binds(c, k, name)
  {
    var s := set k: nat | k < Slots(c) && InUse(Record(c, k)) :: NameOf(Record(c, k));
    NamesExactly(c, s);
    s
  }

  lemma NamesExactly(c: seq<Byte>, s: set<Name>)
    requires s == set k: nat | k < Slots(c) && InUse(Record(c, k)) :: NameOf(Record(c, k))
    ensures forall name :: name in s <==> exists k :: Binds(c, k, name)
  {
    forall name | name in s ensures exists k :: Binds(c, k, name) {
      var k: nat :| k < Slots(c) && InUse(Record(c, k)) && NameOf(Record(c, k)) == name;
      assert Binds(c, k, name);
    }
  }

  ghost function SlotOf(c: seq<Byte>, name: Name): (k: nat)
    requires name in Names(c)
    ensures Binds(c, k, name)
  {
    var k :| Binds(c, k, name);
    k
  }

  /** The directory as a map from names to header sectors. */
  ghost function View(c: seq<Byte>): map<Name, nat> {
    map name | name in Names(c) :: SectorOf(Record(c, SlotOf(c, name)))
  }

  lemma ViewAt(c: seq<Byte>, k: nat, name: Name)
    requires Unique(c) && Binds(c, k, name)
    ensures name in View(c) && View(c)[name] == SectorOf(Record(c, k))
  {
    assert name in Names(c);
    assert Binds(c, SlotOf(c, name), name);
  }

  lemma InSlots(c: seq<Byte>, k: nat, name: Name)
    requires Binds(c, k, name)
    ensures k < Slots(c)
  {
  }

  /** `r` is `c` but for record k. */
  ghost predicate Differ(c: seq<Byte>, r: seq<Byte>, k: nat) {
    |r| == |c| && k < Slots(c) && forall j :: 0 <= j < Slots(c) && j != k ==> Record(r, j) == Record(c, j)
  }

  /** Filling a free record with a new name adds that binding. */
  lemma Added(c: seq<Byte>, r: seq<Byte>, k: nat, name: Name)
    requires Unique(c) && Differ(c, r, k) && Free(c, k) && name !in Names(c) && Binds(r, k, name)
    ensures Unique(r) && View(r) == View(c)[name := SectorOf(Record(r, k))]
  {
    forall j, n ensures Binds(r, j, n) <==> (if j == k then n == name else Binds(c, j, n)) {
    }
    SameElsewhere(c, r, k);
    assert Unique(r);
    forall n ensures n in Names(r) <==> n in Names(c) || n == name {
      if j :| Binds(c, j, n) {
        assert Binds(r, j, n);
      }
    }
    forall n | n in Names(r) ensures View(r)[n] == View(c)[name := SectorOf(Record(r, k))][n] {
      var j := SlotOf(r, n);
      ViewAt(r, j, n);
      if j != k {
        ViewAt(c, j, n);
      }
    }
  }

  lemma SameElsewhere(c: seq<Byte>, r: seq<Byte>, k: nat)
    requires Differ(c, r, k)
    ensures forall j, n :: j != k ==> (Binds(r, j, n) <==> Binds(c, j, n))
  {
  }

  lemma SameBinding(c: seq<Byte>, r: seq<Byte>, j: nat, n: Name)
    requires Unique(c) && Unique(r) && Binds(c, j, n) && Binds(r, j, n) && Record(r, j) == Record(c, j)
    ensures n in View(c) && n in View(r) && View(r)[n] == View(c)[n]
  {
    ViewAt(r, j, n);
    ViewAt(c, j, n);
  }

  lemma RemovedNames(c: seq<Byte>, r: seq<Byte>, k: nat, name: Name)
    requires Unique(c) && Differ(c, r, k) && Binds(c, k, name) && Free(r, k)
    ensures Unique(r) && Names(r) == Names(c) - {name}
    ensures forall j: nat, n :: Binds(r, j, n) ==> Binds(c, j, n) && Record(r, j) == Record(c, j)
  {
    SameElsewhere(c, r, k);
    assert forall n :: !Binds(r, k, n);
    assert forall j: nat, n :: Binds(r, j, n) ==> Binds(c, j, n) && j < Slots(c);
    hide Binds, Record, SectorOf, Slots;
    forall n ensures n in Names(r) <==> n in Names(c) && n != name {
      if n in Names(c) && n != name {
        assert Binds(r, SlotOf(c, n), n);
      }
      if n in Names(r) {
        assert Binds(c, SlotOf(r, n), n);
      }
    }
  }

  /** Freeing a record removes just its binding. */
  lemma Removed(c: seq<Byte>, r: seq<Byte>, k: nat, name: Name)
    requires Unique(c) && Differ(c, r, k) && Binds(c, k, name) && Free(r, k)
    ensures Unique(r) && View(r) == View(c) - {name}
  {
    RemovedNames(c, r, k, name);
    hide Binds, Free, Differ, SectorOf, Names, Unique;
    forall n | n in Names(r) ensures View(r)[n] == View(c)[n] {
      var j := SlotOf(r, n);
      InSlots(r, j, n);
      SameBinding(c, r, j, n);
    }
  }

  ghost predicate SameRecords(c: seq<Byte>, r: seq<Byte>) {
    |r| == |c| && forall j :: 0 <= j < Slots(c) ==> Record(r, j) == Record(c, j)
  }

  lemma SameBinds(c: seq<Byte>, r: seq<Byte>)
    requires SameRecords(c, r)
    ensures forall j, n :: Binds(r, j, n) <==> Binds(c, j, n)
  {
  }

  lemma Unchanged(c: seq<Byte>, r: seq<Byte>)
    requires SameRecords(c, r)
    ensures Unique(c) ==> View(r) == View(c) && Unique(r)
  {
    SameBinds(c, r);
    hide Binds;
    if Unique(c) {
      assert Unique(r);
      forall n ensures n in Names(r) <==> n in Names(c) {
      }
      forall n | n in Names(r) ensures View(r)[n] == View(c)[n] {
        var j := SlotOf(r, n);
        InSlots(r, j, n);
        ViewAt(r, j, n);
        ViewAt(c, j, n);
      }
    }
  }

  /** A new file of zeros is an empty directory. */
  lemma ZerosAreEmpty(n: nat)
    ensures var c := seq(n, _ => 0 as Byte); Unique(c) && View(c) == map[] && (HasFree(c) <==> n >= ENTRY_SIZE)
  {
    var c := seq(n, _ => 0 as Byte);
    assert forall k: nat :: k < Slots(c) ==> Record(c, k)[19] == 0;
    assert forall k: nat, name :: !Binds(c, k, name);
    assert n >= ENTRY_SIZE ==> Free(c, 0);
  }

  // ----- Reading and writing records

  lemma RecordFits(len: nat, k: nat)
    ensures Transferred(ENTRY_SIZE, ENTRY_SIZE * k, len, true) == ENTRY_SIZE <==> k < len / ENTRY_SIZE
  {
  }

  /** The device bytes of an inode's data. */
  ghost function Bytes(disk: Disk, inode: Inode): seq<Byte>
    requires OnDisk(inode.start, inode.length, disk.sectors)
    reads disk
  {
    Content(disk.sectors, inode.start, inode.length)
  }

  /** inode_read_at of one record into E; short at the end of the file. */
  method ReadRecord(disk: Disk, inode: Inode, e: array<Byte>, ofs: nat, ghost k: nat) returns (full: bool)
    requires OnDisk(inode.start, inode.length, disk.sectors) && e.Length == ENTRY_SIZE && ofs == ENTRY_SIZE * k
    modifies e
    ensures full <==> k < Slots(Bytes(disk, inode))
    ensures full ==> e[..] == Record(Bytes(disk, inode), k)
  {
    RecordFits(inode.length, k);
    var n := ReadAt(disk, inode, e, ENTRY_SIZE, ofs, true);
    full := n == ENTRY_SIZE;
    OverwrittenEnds(e[..], e[..]);
  }

  /** Record k of a file overwritten with `e`. */
  lemma RecordOverwritten(c: seq<Byte>, k: nat, e: seq<Byte>)
    requires k < Slots(c) && |e| == ENTRY_SIZE
    ensures var r := Overwritten(c, ENTRY_SIZE * k, e); Differ(c, r, k) && Record(r, k) == e
  {
    var r := Overwritten(c, ENTRY_SIZE * k, e);
    forall j | 0 <= j < Slots(c) && j != k ensures Record(r, j) == Record(c, j) {
    }
  }

  /** Bytes past the last record may change without changing any record. */
  lemma TailOverwritten(c: seq<Byte>, e: seq<Byte>)
    requires ENTRY_SIZE * Slots(c) + |e| <= |c|
    ensures SameRecords(c, Overwritten(c, ENTRY_SIZE * Slots(c), e))
  {
  }

  /** inode_write_at of one record from E, or of what fits at the end of the file. */
  method WriteRecord(disk: Disk, inode: Inode, e: array<Byte>, ofs: nat, ghost k: nat) returns (full: bool)
    requires OnDisk(inode.start, inode.length, disk.sectors) && e.Length == ENTRY_SIZE && ofs == ENTRY_SIZE * k
    requires k <= Slots(Bytes(disk, inode))
    modifies disk
    ensures OnDisk(inode.start, inode.length, disk.sectors)
    ensures full <==> inode.denyWriteCnt == 0 && k < Slots(old(Bytes(disk, inode)))
    ensures full ==> Differ(old(Bytes(disk, inode)), Bytes(disk, inode), k) && Record(Bytes(disk, inode), k) == e[..]
    ensures !full ==> SameRecords(old(Bytes(disk, inode)), Bytes(disk, inode))
    ensures SameBeyond(inode, old(disk.sectors), disk.sectors)
  {
    ghost var was, c := disk.sectors, Bytes(disk, inode);
    RecordFits(inode.length, k);
    TransferInFile(ENTRY_SIZE, ofs, inode.length, true);
    var n := WriteAt(disk, inode, e, ENTRY_SIZE, ofs, true);
    full := n == ENTRY_SIZE;
    ghost var data := e[..n];
    forall i | 0 <= i < |was| && !(inode.start <= i < inode.start + BytesToSectors(inode.length))
      ensures disk.sectors[i] == was[i]
    {
      PatchedElsewhere(was, inode.start, inode.length, ofs, data, i);
    }
    if n > 0 {
      PatchedContent(was, inode.start, inode.length, ofs, data);
      assert full ==> data == e[..];
    } else {
      PatchNone(was, inode.start, ofs);
      assert data == [];
    }
    if full {
      RecordOverwritten(c, k, e[..]);
    } else if n > 0 {
      TailOverwritten(c, data);
    }
  }

  /** The bytes of a record on disk. */
  ghost predicate IsRecord(e: seq<Byte>, name: Name, sector: nat) {
    && |e| == 20 && |name| <= 14
    && e[0] == sector % 256 && e[1] == sector / 0x100 % 256
    && e[2] == sector / 0x1_0000 % 256 && e[3] == sector / 0x100_0000
    && e[4..4 + |name|] == name && e[4 + |name|] == 0 && e[19] == 1
  }

  /** strlcpy (name, src, NAME_MAX + 1) into the record at E, and the sector and in_use fields. */
  method FillRecord(e: array<Byte>, name: Name, sector: nat)
    requires e.Length == ENTRY_SIZE && |name| <= NAME_MAX && 0 !in name && sector < 0x1_0000_0000
    modifies e
    ensures InUse(e[..]) && NameOf(e[..]) == name && SectorOf(e[..]) == sector
    ensures IsRecord(e[..], name, sector)
  {
    e[19] := 1;
    ghost var was := e[..];
    forall i | 0 <= i < |name| {
      e[4 + i] := name[i];
    }
    e[4 + |name|] := 0;
    ghost var rest := e[4 + |name|..19];
    assert e[4..19] == name + rest;
    CStringOf<Byte>(name, rest, 0);
    var le := ToLe(sector);
    forall i | 0 <= i < 4 {
      e[i] := le[i];
    }
    assert e[..4] == le && e[..][..4] == le;
    assert e[..][4..19] == name + rest;
    LeRoundTrip(sector);
  }

  /** e.inode_sector. */
  method ReadSector(e: array<Byte>) returns (sector: nat)
    requires e.Length == ENTRY_SIZE
    ensures sector == SectorOf(e[..])
  {
    assert e[..][..4] == e[..4];
    sector := FromLe(e[..4]);
  }

  lemma NoneYet(c: seq<Byte>, i: nat)
    ensures NoneBetween(c, i, i)
  {
  }

  lemma NonePast(c: seq<Byte>, i: nat, j: nat)
    requires NoneBetween(c, i, j)
    ensures j >= Slots(c) ==> NoneBetween(c, i, Slots(c))
  {
  }

  lemma UseRecord(c: seq<Byte>, i: nat, k: nat)
    requires NoneBetween(c, i, k) && k < Slots(c)
    ensures if InUse(Record(c, k)) then Binds(c, k, NameOf(Record(c, k))) else NoneBetween(c, i, k + 1)
  {
  }

  // ----- The directory

  class Dir {
    const disk: Disk
    const inode: Inode
    var pos: nat

    ghost predicate Valid()
      reads this, disk
    {
      && OnDisk(inode.start, inode.length, disk.sectors)
      && pos % ENTRY_SIZE == 0 && Unique(Bytes(disk, inode))
    }

    ghost function Files(): map<Name, nat>
      requires Valid()
      reads this, disk
    {
      View(Bytes(disk, inode))
    }

    /** dir_open. */
    constructor (disk: Disk, inode: Inode)
      requires OnDisk(inode.start, inode.length, disk.sectors) && Unique(Bytes(disk, inode))
      ensures Valid() && this.disk == disk && this.inode == inode && pos == 0
    {
      this.disk, this.inode, pos := disk, inode, 0;
    }

    /** lookup: the record bound to NAME, left in E, and its offset. */
    method Lookup(name: Name, e: array<Byte>) returns (ofs: Option<nat>, ghost k: nat)
      requires Valid() && e.Length == ENTRY_SIZE
      modifies e
      ensures ofs.None? <==> name !in Files()
      ensures ofs.Some? ==> Binds(Bytes(disk, inode), k, name) && ofs.value == ENTRY_SIZE * k
      ensures ofs.Some? ==> e[..] == Record(Bytes(disk, inode), k)
    {
      ghost var c := Bytes(disk, inode);
      var at := 0;
      k := 0;
      var full := ReadRecord(disk, inode, e, at, k);
      while full
        modifies e
        invariant full <==> k < Slots(c)
        invariant at == ENTRY_SIZE * k && (full ==> e[..] == Record(c, k))
        invariant forall j :: 0 <= j < k ==> !Binds(c, j, name)
        decreases Slots(c) - k
      {
        if e[19] != 0 && name == CString<Byte>(e[4..19], 0) {
          assert e[..][4..19] == e[4..19];
          return Some(at), k;
        }
        assert e[..][4..19] == e[4..19];
        at, k := at + ENTRY_SIZE, k + 1;
        full := ReadRecord(disk, inode, e, at, k);
      }
      assert forall j :: !Binds(c, j, name);
      ofs := None;
    }

    /** dir_lookup, up to opening the inode: the header sector bound to NAME. */
    method DirLookup(name: Name) returns (sector: Option<nat>)
      requires Valid()
      ensures sector == if name in Files() then Some(Files()[name]) else None
    {
      var e := new Byte[ENTRY_SIZE](_ => 0);
      var ofs, k := Lookup(name, e);
      if ofs.None? {
        return None;
      }
      ViewAt(Bytes(disk, inode), k, name);
      var sectorOfE := ReadSector(e);
      return Some(sectorOfE);
    }

    /** The search of dir_add for a free record; without one, the end of the records. */
    method FindFree(e: array<Byte>) returns (ofs: nat, ghost k: nat)
      requires Valid() && e.Length == ENTRY_SIZE
      modifies e
      ensures k <= Slots(Bytes(disk, inode)) && ofs == ENTRY_SIZE * k
      ensures k < Slots(Bytes(disk, inode)) ==> Free(Bytes(disk, inode), k)
      ensures k == Slots(Bytes(disk, inode)) ==> forall j :: !Free(Bytes(disk, inode), j)
    {
      ghost var c := Bytes(disk, inode);
      ofs, k := 0, 0;
      var full := ReadRecord(disk, inode, e, ofs, k);
      while full
        modifies e
        invariant k <= Slots(c) && (full <==> k < Slots(c))
        invariant ofs == ENTRY_SIZE * k && (full ==> e[..] == Record(c, k))
        invariant forall j :: 0 <= j < k ==> !Free(c, j)
        decreases Slots(c) - k
      {
        if e[19] == 0 {
          return;
        }
        ofs, k := ofs + ENTRY_SIZE, k + 1;
        full := ReadRecord(disk, inode, e, ofs, k);
      }
    }

    /** Adds a binding: fails exactly for a bad name, a bound name, a full directory or denied writes. */
    method Add(name: Name, sector: nat) returns (success: bool)
      requires Valid() && 0 !in name && sector < 0x1_0000_0000
      modifies disk
      ensures Valid()
      ensures success <==>
        1 <= |name| <= 14 && name !in old(Files()) && inode.denyWriteCnt == 0 && old(HasFree(Bytes(disk, inode)))
      ensures Files() == if success then old(Files())[name := sector] else old(Files())
      ensures SameBeyond(inode, old(disk.sectors), disk.sectors)
    {
      if name == [] || |name| > NAME_MAX {
        return false;
      }
      hide IsRecord, NameOf, SectorOf;
      var e := new Byte[ENTRY_SIZE](_ => 0);
      var bound, b := Lookup(name, e);
      if bound.Some? {
        return false;
      }
      ghost var c := Bytes(disk, inode);
      var ofs, k := FindFree(e);
      FillRecord(e, name, sector);
      success := WriteRecord(disk, inode, e, ofs, k);
      ghost var r := Bytes(disk, inode);
      if success {
        assert Binds(r, k, name);
        Added(c, r, k, name);
      } else {
        Unchanged(c, r);
      }
    }

    /** The writing of dir_remove: the record found for NAME, left in E, is marked free. */
    method Erase(name: Name, e: array<Byte>, ofs: nat, ghost k: nat) returns (success: bool)
      requires Valid() && e.Length == ENTRY_SIZE && ofs == ENTRY_SIZE * k
      requires Binds(Bytes(disk, inode), k, name) && e[..] == Record(Bytes(disk, inode), k)
      modifies disk, e
      ensures Valid()
      ensures success <==> inode.denyWriteCnt == 0
      ensures Files() == if success then old(Files()) - {name} else old(Files())
      ensures SameBeyond(inode, old(disk.sectors), disk.sectors)
    {
      hide Binds, Unique, View, Differ, SameRecords, SectorOf, Transferred, Overwritten;
      ghost var c := Bytes(disk, inode);
      InSlots(c, k, name);
      e[19] := 0;
      success := WriteRecord(disk, inode, e, ofs, k);
      ghost var r := Bytes(disk, inode);
      if success {
        Removed(c, r, k, name);
      } else {
        Unchanged(c, r);
      }
    }

    /** The next record in use from the current position on. */
    method Readdir() returns (name: Option<Name>)
      requires Valid()
      modifies this`pos
      ensures Valid() && pos >= old(pos)
      ensures name.Some? ==> pos > old(pos) && Binds(Bytes(disk, inode), pos / ENTRY_SIZE - 1, name.value)
      ensures NoneBetween(Bytes(disk, inode), old(pos) / ENTRY_SIZE,
                          if name.Some? then pos / ENTRY_SIZE - 1 else Slots(Bytes(disk, inode)))
    {
      ghost var c := Bytes(disk, inode);
      ghost var k := pos / ENTRY_SIZE;
      ghost var from := k;
      NoneYet(c, k);
      hide NoneBetween, Binds, Unique;
      var e := new Byte[ENTRY_SIZE](_ => 0);
      var full := ReadRecord(disk, inode, e, pos, k);
      while full
        modifies this`pos, e
        invariant pos == ENTRY_SIZE * k && k >= from && (full <==> k < Slots(c))
        invariant full ==> e[..] == Record(c, k)
        invariant NoneBetween(c, from, k)
        decreases Slots(c) - k
      {
        UseRecord(c, from, k);
        pos := pos + ENTRY_SIZE;
        k := k + 1;
        if e[19] != 0 {
          assert e[..][4..19] == e[4..19];
          return Some(CString<Byte>(e[4..19], 0));
        }
        full := ReadRecord(disk, inode, e, pos, k);
      }
      NonePast(c, from, k);
      name := None;
    }

    /** Reading from the start until nothing is left lists each binding once. */
    method List() returns (names: seq<Name>)
      requires Valid() && pos == 0
      modifies this`pos
      ensures Valid() && Distinct(names) && forall n :: n in names <==> n in Files()
    {
      ghost var c := Bytes(disk, inode);
      ghost var seen := 0;
      names := [];
      var name := Readdir();
      hide Binds;
      AllListed(c);
      NextListed(c, names, 0, if name.Some? then pos / ENTRY_SIZE - 1 else Slots(c));
      seen := if name.Some? then pos / ENTRY_SIZE - 1 else Slots(c);
      while name.Some?
        modifies this`pos
        invariant Valid() && Distinct(names) && seen <= Slots(c)
        invariant name.Some? ==> seen == pos / ENTRY_SIZE - 1 && Binds(c, seen, name.value)
        invariant name.None? ==> seen == Slots(c)
        invariant forall n :: n in names <==> BoundBefore(c, seen, n)
        decreases Slots(c) - seen, name.Some?
      {
        OneListed(c, names, seen, name.value);
        names := names + [name.value];
        ghost var from := pos / ENTRY_SIZE;
        name := Readdir();
        seen := if name.Some? then pos / ENTRY_SIZE - 1 else Slots(c);
        NextListed(c, names, from, seen);
      }
      AllListed(c);
    }
  }

  lemma NextListed(c: seq<Byte>, names: seq<Name>, i: nat, j: nat)
    requires NoneBetween(c, i, j)
    ensures i <= j ==> forall n :: BoundBefore(c, j, n) <==> BoundBefore(c, i, n)
  {
  }

  lemma OneListed(c: seq<Byte>, names: seq<Name>, k: nat, name: Name)
    requires Unique(c) && Binds(c, k, name) && forall n :: n in names <==> BoundBefore(c, k, n)
    ensures name !in names && forall n :: n in names + [name] <==> BoundBefore(c, k + 1, n)
  {
    forall n ensures BoundBefore(c, k + 1, n) <==> BoundBefore(c, k, n) || n == name {
      if n == name {
        assert Binds(c, k, n);
      }
    }
  }

  lemma AllListed(c: seq<Byte>)
    ensures forall n :: BoundBefore(c, Slots(c), n) <==> n in Names(c)
    ensures forall n :: !BoundBefore(c, 0, n)
  {
  }
}
