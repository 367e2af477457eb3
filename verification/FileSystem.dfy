/**
 The file system's shared state: free map, on-disk inode headers, open inodes and open
 files (filesys/inode.c, free-map.c, file.c).  A handle is an opener's claim on an
 inode: one held by an open file, or a bare one that a caller got from inode_open.
 */
module FileSystem {
  import opened Options
  import opened Bitmap
  import opened BitmapFile
  import opened InodeIO
  import opened InodeLives

  const FREE_MAP_SECTOR: nat := 0
  const ROOT_DIR_SECTOR: nat := 1

  /** What inode_create writes to an inode's own sector. */
  datatype Header = Header(start: nat, length: nat)

  class File {
    const inode: Inode
    var pos: nat
    var denyWrite: bool

    constructor (inode: Inode)
      ensures this.inode == inode && pos == 0 && !denyWrite
    {
      this.inode := inode;
      pos, denyWrite := 0, false;
    }
  }

  function HeaderOf(i: Inode): Header { Header(i.start, i.length) }

  // ----- Sectors

  ghost function Sectors(h: Header): nat { BytesToSectors(h.length) }

  /** The sectors of the inode whose header is in sector `s`: the header's and the data's. */
  ghost predicate Owns(headers: map<nat, Header>, s: nat, sector: nat)
    requires s in headers
  {
    sector == s || headers[s].start <= sector < headers[s].start + Sectors(headers[s])
  }

  /** The data sectors are those that hold a byte of the file, and no more. */
  lemma OwnsExactly(headers: map<nat, Header>, s: nat, sector: nat)
    requires s in headers
    ensures var h := headers[s];
      Owns(headers, s, sector) <==> sector == s || (h.start <= sector && 512 * (sector - h.start) < h.length)
  {
    SectorsFewest(headers[s].length);
  }

  /** `live` inodes have been created and not released; `reserved` sectors are allocated but are
      no inode's.  All their sectors are marked used, and none belongs to two of them. */
  ghost predicate StoreOk(bits: seq<bool>, headers: map<nat, Header>, live: set<nat>, reserved: set<nat>) {
    && (forall s :: s in live ==> s in headers && s !in reserved && s < |bits|)
    && (forall s :: s in live ==> headers[s].start + Sectors(headers[s]) <= |bits|)
    && (forall s, sector: nat :: s in live && Owns(headers, s, sector) ==> sector < |bits| && bits[sector])
    && (forall s :: s in reserved ==> s < |bits| && bits[s])
    && (forall s, r :: s in live && r in reserved ==> !Owns(headers, s, r))
    && (forall s, t, sector: nat :: s in live && t in live && Owns(headers, s, sector) && Owns(headers, t, sector) ==>
          s == t)
    && (forall s :: s in live ==> !(headers[s].start <= s < headers[s].start + Sectors(headers[s])))
  }

  lemma NothingStored(bits: seq<bool>)
    requires |bits| > ROOT_DIR_SECTOR && bits[FREE_MAP_SECTOR] && bits[ROOT_DIR_SECTOR]
    ensures StoreOk(bits, map[], {}, {FREE_MAP_SECTOR, ROOT_DIR_SECTOR})
  {
  }

  lemma NothingOpen()
    ensures Shows([], Life(map[], {}, {}))
  {
  }

  /** Sectors that were free may be reserved, or become an inode's data. */
  lemma ReserveKeeps(bits: seq<bool>, headers: map<nat, Header>, live: set<nat>, reserved: set<nat>, s: nat)
    requires StoreOk(bits, headers, live, reserved) && FirstGroup(bits, 0, 1, false, Some(s))
    ensures s < |bits| && !bits[s] && s !in live && s !in reserved
    ensures StoreOk(Filled(bits, s, 1, true), headers, live, reserved + {s})
  {
    assert !bits[s];
    assert forall t :: t in live ==> Owns(headers, t, t);
  }

  lemma CreateKeeps(bits: seq<bool>, headers: map<nat, Header>, live: set<nat>, reserved: set<nat>, s: nat, h: Header)
    requires StoreOk(bits, headers, live, reserved) && s in reserved
    requires h.start + Sectors(h) <= |bits| && AllAre(bits, h.start, Sectors(h), false)
    ensures StoreOk(Filled(bits, h.start, Sectors(h), true), headers[s := h], live + {s}, reserved - {s})
  {
    var headers' := headers[s := h];
    assert forall t, sector: nat :: t in live ==> (Owns(headers', t, sector) <==> Owns(headers, t, sector));
    assert forall sector: nat :: Owns(headers', s, sector) && sector != s ==> !bits[sector];
    forall t, sector: nat | t in live && Owns(headers, t, sector) ensures !Owns(headers', s, sector) {
      assert bits[sector] && !Owns(headers, t, s);
    }
  }

  lemma ReleaseKeeps(bits: seq<bool>, headers: map<nat, Header>, live: set<nat>, reserved: set<nat>, s: nat)
    requires StoreOk(bits, headers, live, reserved) && s in live
    ensures var h := headers[s];
      && s < |bits| && AllAre(bits, s, 1, true)
      && AllAre(Filled(bits, s, 1, false), h.start, Sectors(h), true)
      && StoreOk(Filled(Filled(bits, s, 1, false), h.start, Sectors(h), false), headers, live - {s}, reserved - {s})
  {
    var h := headers[s];
    assert forall sector: nat :: h.start <= sector < h.start + Sectors(h) ==> Owns(headers, s, sector);
    assert Owns(headers, s, s);
    assert forall t, sector: nat :: t in live && t != s && Owns(headers, t, sector) ==> !Owns(headers, s, sector);
  }

  /** An allocated sector that is no inode's header any more, or never was, may be freed. */
  lemma UnreserveKeeps(bits: seq<bool>, headers: map<nat, Header>, live: set<nat>, reserved: set<nat>, s: nat)
    requires StoreOk(bits, headers, live, reserved) && (s in live || s in reserved)
    ensures s < |bits| && AllAre(bits, s, 1, true)
    ensures StoreOk(Filled(bits, s, 1, false), headers, live - {s}, reserved - {s})
  {
    assert s in live ==> Owns(headers, s, s);
    assert forall t :: t in live && t != s ==> !Owns(headers, t, s);
  }

  /** The free map without an inode's sectors. */
  ghost function Released(bits: seq<bool>, sector: nat, h: Header): seq<bool> {
    seq(|bits|, i requires 0 <= i < |bits| => bits[i] && i != sector && !(h.start <= i < h.start + Sectors(h)))
  }

  /** The header's sector and those with a byte of the file are free then, and all others as before. */
  lemma ReleasedExactly(bits: seq<bool>, sector: nat, h: Header, i: nat)
    requires i < |bits|
    ensures Released(bits, sector, h)[i] <==>
      bits[i] && i != sector && !(h.start <= i && 512 * (i - h.start) < h.length)
  {
    SectorsFewest(h.length);
  }

  // ----- Handles

  ghost function FilesOf(files: set<File>, i: Inode): set<File> {
    set f | f in files && f.inode == i
  }

  ghost function Denying(files: set<File>, i: Inode): set<File>
    reads files
  {
    set f | f in files && f.inode == i && f.denyWrite
  }

  /** open_cnt counts the inode's handles, deny_write_cnt its files that deny writes. */
  ghost predicate CountsOk(i: Inode, bare: multiset<Inode>, files: set<File>)
    reads i`openCnt, i`denyWriteCnt, files
  {
    && i.openCnt == bare[i] + |FilesOf(files, i)|
    && i.denyWriteCnt == |Denying(files, i)|
  }

  /** An inode whose count is 0 has no handle left. */
  lemma NoHandlesLeft(i: Inode, bare: multiset<Inode>, files: set<File>)
    requires CountsOk(i, bare, files) && i.openCnt == 0
    ensures bare[i] == 0 && forall f :: f in files ==> f.inode != i
  {
    assert forall f :: f in files && f.inode == i ==> f in FilesOf(files, i);
  }

  lemma DenyingWithin(files: set<File>, i: Inode)
    ensures |Denying(files, i)| <= |FilesOf(files, i)|
  {
    SubsetSize(Denying(files, i), FilesOf(files, i));
  }

  lemma {:induction false} SubsetSize(a: set<File>, b: set<File>)
    requires a <= b
    ensures |a| <= |b|
  {
    assert b == a + (b - a);
  }

  lemma FilesOfAdd(files: set<File>, f: File, i: Inode)
    requires f !in files
    ensures FilesOf(files + {f}, i) == if f.inode == i then FilesOf(files, i) + {f} else FilesOf(files, i)
    ensures Denying(files + {f}, i)
      == if f.inode == i && f.denyWrite then Denying(files, i) + {f} else Denying(files, i)
  {
  }

  lemma NoFiles(files: set<File>, i: Inode)
    requires forall f :: f in files ==> f.inode != i
    ensures FilesOf(files, i) == {} && Denying(files, i) == {}
  {
  }

  lemma CountsOther(i: Inode, bare: multiset<Inode>, files: set<File>, inode: Inode)
    requires CountsOk(i, bare, files) && i != inode
    ensures CountsOk(i, bare + multiset{inode}, files)
  {
  }

  lemma CountsNew(inode: Inode, bare: multiset<Inode>, files: set<File>)
    requires inode.openCnt == 1 && inode.denyWriteCnt == 0 && bare[inode] == 0
    requires forall f :: f in files ==> f.inode != inode
    ensures CountsOk(inode, bare + multiset{inode}, files)
  {
    NoFiles(files, inode);
  }

  ghost function Without(q: seq<Inode>, k: nat): seq<Inode>
    requires k < |q|
  {
    q[..k] + q[k + 1..]
  }

  /** What becomes of the entries when inode k of the list has one handle less. */
  lemma EntriesDropped(q: seq<Inode>, k: nat, es: seq<Entry>)
    requires k < |q| == |es| && es[k] == EntryOf(q[k]).(opens := EntryOf(q[k]).opens + 1)
    requires forall j :: 0 <= j < |es| && j != k ==> es[j] == EntryOf(q[j])
    ensures Entries(q) == es[k := es[k].(opens := es[k].opens - 1)]
    ensures Entries(Without(q, k)) == es[..k] + es[k + 1..]
  {
  }

  ghost function EntryOf(i: Inode): Entry
    reads i`openCnt, i`removed
  {
    Entry(i.sector, i.openCnt, i.removed)
  }

  ghost function Entries(q: seq<Inode>): (es: seq<Entry>)
    reads q`openCnt, q`removed
    ensures |es| == |q| && forall k :: 0 <= k < |q| ==> es[k] == EntryOf(q[k])
  {
    if q == [] then [] else Entries(q[..|q| - 1]) + [EntryOf(q[|q| - 1])]
  }

  lemma EntriesPush(i: Inode, q: seq<Inode>)
    ensures Entries([i] + q) == [EntryOf(i)] + Entries(q)
  {
  }

  /** Whether memory can be had in the two writes of the free map when an inode is released. */
  datatype Memory = Memory(first: bool, second: bool)

  /** Whether the whole map of a device of `n` sectors can be written, when writes are not denied. */
  predicate WritesMap(n: nat, memory: bool) { memory || FileSize(n) % 512 == 0 }

  /** Memory for the free map's inode on the device and in memory, for its file, and in the write. */
  datatype MapCreateMemory = MapCreateMemory(create: bool, inode: bool, file: bool, write: bool)

  class FileSystem {
    const freeMap: Bitmap
    const disk: Disk
    var headers: map<nat, Header>
    var openInodes: seq<Inode>
    var freeMapFile: File?
    ghost var live: set<nat>
    ghost var reserved: set<nat>
    ghost var bare: multiset<Inode>
    ghost var files: set<File>
    ghost var life: Life

    ghost predicate OpensOk()
      reads this`headers, this`openInodes, this`live, this`bare, this`files, files
      reads openInodes`openCnt, openInodes`denyWriteCnt
    {
      && (forall a, b :: 0 <= a < b < |openInodes| ==> openInodes[a].sector != openInodes[b].sector)
      && (forall i :: i in openInodes ==>
            i.sector in live && i.sector in headers && headers[i.sector] == HeaderOf(i))
      && (forall i :: i in openInodes ==> i.openCnt > 0 && CountsOk(i, bare, files))
      && (forall i :: i in bare ==> i in openInodes)
      && (forall f :: f in files ==> f.inode in openInodes)
    }

    /** free_map_file is an open file on the free map's inode, which has room for the map. */
    ghost predicate MapOk()
      reads this`freeMapFile, this`files
    {
      freeMapFile != null ==>
        && freeMapFile in files && freeMapFile.inode.sector == FREE_MAP_SECTOR
        && freeMapFile.inode.length == FileSize(freeMap.bitCnt)
    }

    /** The life that `life` records is that of the open inodes. */
    ghost predicate Tracks()
      reads this`life, this`live, this`openInodes, openInodes`openCnt, openInodes`removed
    {
      LifeOk(life) && life.live == live && Shows(Entries(openInodes), life)
    }

    ghost predicate Valid()
      reads this, freeMap, freeMap.bits, openInodes, files, disk
    {
      && freeMap.Valid() && |disk.sectors| == freeMap.bitCnt
      && StoreOk(freeMap.Bits(), headers, live, reserved)
      && OpensOk() && MapOk() && Tracks()
    }

    /** inode_init and free_map_init: nothing open, only the free map's and the root directory's
        header sectors taken. */
    constructor (disk: Disk)
      requires |disk.sectors| > ROOT_DIR_SECTOR
      ensures Valid() && this.disk == disk && fresh(freeMap) && fresh(freeMap.bits) && freeMap.bitCnt == |disk.sectors|
      ensures live == {} && reserved == {FREE_MAP_SECTOR, ROOT_DIR_SECTOR} && openInodes == [] && files == {}
      ensures freeMapFile == null && bare == multiset{}
      ensures forall i :: 0 <= i < freeMap.bitCnt ==>
        freeMap.Bits()[i] == (i == FREE_MAP_SECTOR || i == ROOT_DIR_SECTOR)
    {
      hide StoreOk, CountsOk, Entries, Shows;
      this.disk := disk;
      freeMap := new Bitmap(|disk.sectors|);
      headers, openInodes, freeMapFile := map[], [], null;
      live, reserved, bare, files := {}, {FREE_MAP_SECTOR, ROOT_DIR_SECTOR}, multiset{}, {};
      life := Life(map[], {}, {});
      new;
      freeMap.Mark(FREE_MAP_SECTOR);
      freeMap.Mark(ROOT_DIR_SECTOR);
      NothingStored(freeMap.Bits());
      assert Entries(openInodes) == [];
      NothingOpen();
    }

    // ----- The free map and its file

    ghost predicate MapReady()
      reads this`freeMapFile, disk
    {
      freeMapFile != null ==>
        && freeMapFile.inode.length == FileSize(freeMap.bitCnt)
        && OnDisk(freeMapFile.inode.start, freeMapFile.inode.length, disk.sectors)
    }

    /** The free map's file holds the map as it is in memory. */
    ghost predicate MapStored()
      reads this`freeMapFile, freeMap, freeMap.bits, disk
    {
      && freeMapFile != null && OnDisk(freeMapFile.inode.start, freeMapFile.inode.length, disk.sectors)
      && Content(disk.sectors, freeMapFile.inode.start, freeMapFile.inode.length) == Image(freeMap.bits[..])
    }

    /** No sector outside the free map's file changes. */
    ghost predicate OnlyMap(was: seq<Sector>, now: seq<Sector>)
      reads this`freeMapFile
    {
      if freeMapFile == null then now == was else SameBeyond(freeMapFile.inode, was, now)
    }

    /** Whether the map can be written, if there is a file to write it to. */
    ghost predicate MapWritable(memory: bool)
      reads this`freeMapFile, if freeMapFile == null then {} else {freeMapFile.inode}
    {
      freeMapFile == null || Writable(freeMapFile.inode, memory)
    }

    lemma MapOnDisk()
      requires |disk.sectors| == freeMap.bitCnt && freeMap.Valid()
      requires StoreOk(freeMap.Bits(), headers, live, reserved) && OpensOk() && MapOk()
      ensures MapReady()
      ensures freeMapFile != null ==> freeMapFile.inode in openInodes && FREE_MAP_SECTOR in live
      ensures freeMapFile != null ==>
        && FREE_MAP_SECTOR in headers
        && headers[FREE_MAP_SECTOR] == HeaderOf(freeMapFile.inode)
    {
    }

    /** free_map_allocate; `memory` is whether its write of the free map can have a bounce buffer. */
    method FreeMapAllocate(cnt: nat, memory: bool) returns (sector: Option<nat>)
      requires freeMap.Valid() && MapReady()
      modifies freeMap.bits, disk
      ensures sector.Some? <==> MapWritable(memory) && !FirstGroup(old(freeMap.Bits()), 0, cnt, false, None)
      ensures sector.Some? ==> FirstGroup(old(freeMap.Bits()), 0, cnt, false, sector)
      ensures freeMap.Bits() == if sector.None? then old(freeMap.Bits())
        else Filled(old(freeMap.Bits()), sector.value, cnt, true)
      ensures OnlyMap(old(disk.sectors), disk.sectors) && |disk.sectors| == |old(disk.sectors)|
      ensures sector.Some? && freeMapFile != null ==> MapStored()
    {
      hide Filled, Writable, Image, Content;
      ghost var bits := freeMap.Bits();
      sector := freeMap.ScanAndFlip(0, cnt, false);
      if sector.Some? && freeMapFile != null {
        var ok := BitmapWrite(freeMap, disk, freeMapFile.inode, memory);
        if !ok {
          FilledBack(bits, sector.value, cnt);
          freeMap.SetMultiple(sector.value, cnt, false);
          sector := None;
        }
      }
    }

    /** free_map_release; its argument sectors are all in use. */
    method FreeMapRelease(sector: nat, cnt: nat, memory: bool)
      requires freeMap.Valid() && MapReady() && freeMapFile != null && sector + cnt <= freeMap.bitCnt
      requires AllAre(freeMap.Bits(), sector, cnt, true)
      modifies freeMap.bits, disk
      ensures freeMap.Bits() == Filled(old(freeMap.Bits()), sector, cnt, false)
      ensures OnlyMap(old(disk.sectors), disk.sectors) && |disk.sectors| == |old(disk.sectors)|
      ensures MapWritable(memory) ==> MapStored()
    {
      hide Filled, Writable, Image, Content;
      freeMap.SetMultiple(sector, cnt, false);
      var ok := BitmapWrite(freeMap, disk, freeMapFile.inode, memory);
    }

    // ----- Opening and closing inodes

    /** inode_open: the open inode of that sector, or a new one read from its header. */
    method InodeOpen(sector: nat, memory: bool) returns (inode: Inode?)
      requires Valid() && sector in live
      modifies this`openInodes, this`bare, this`life, openInodes`openCnt
      ensures Valid()
      ensures inode != null <==> memory || sector in old(life.opens)
      ensures inode == null ==> bare == old(bare) && openInodes == old(openInodes) && life == old(life)
      ensures forall i :: i in old(openInodes) ==> i.openCnt == old(i.openCnt) + if i == inode then 1 else 0
      ensures inode != null ==>
        inode.sector == sector && bare == old(bare) + multiset{inode} && Moves(old(life), Open(sector), life)
      ensures inode != null && inode in old(openInodes) ==> openInodes == old(openInodes)
      ensures inode != null && inode !in old(openInodes) ==>
        && fresh(inode) && !inode.removed && inode.openCnt == 1 && inode.denyWriteCnt == 0
        && openInodes == [inode] + old(openInodes) && forall i :: i in old(openInodes) ==> i.sector != sector
    {
      hide StoreOk, Moves, OpensOk, Tracks;
      LiveHeaders(freeMap.Bits(), headers, live, reserved);
      var k := FindOpen(sector);
      if k < |openInodes| {
        inode := openInodes[k];
        InodeReopen(inode, k);
        return;
      }
      if !memory {
        return null;
      }
      inode := OpenNew(sector);
    }

    /** inode_open's search: the position of the sector's inode, or the end of the list. */
    method FindOpen(sector: nat) returns (k: nat)
      requires Tracks()
      ensures k <= |openInodes| && (k < |openInodes| ==> openInodes[k].sector == sector)
      ensures k == |openInodes| ==> forall i :: i in openInodes ==> i.sector != sector
      ensures k < |openInodes| <==> sector in life.opens
    {
      ListedIff(sector);
      hide Tracks;
      k := 0;
      while k < |openInodes| && openInodes[k].sector != sector
        invariant k <= |openInodes|
        invariant forall j :: 0 <= j < k ==> openInodes[j].sector != sector
      {
        k := k + 1;
      }
    }

    /** The second half of inode_open. */
    method OpenNew(sector: nat) returns (inode: Inode)
      requires OpensOk() && Tracks() && sector in live && sector in headers
      requires forall i :: i in openInodes ==> i.sector != sector
      modifies this`openInodes, this`bare, this`life
      ensures fresh(inode) && inode.sector == sector && !inode.removed && inode.openCnt == 1 && inode.denyWriteCnt == 0
      ensures OpensOk() && openInodes == [inode] + old(openInodes) && bare == old(bare) + multiset{inode}
      ensures Tracks() && Moves(old(life), Open(sector), life)
    {
      hide OpensOk, LifeOk, Next, Shows, Enabled, Entries, Listed;
      NotListed(sector);
      Pushed(Entries(openInodes), life, sector);
      inode := new Inode(sector, headers[sector].start, headers[sector].length);
      EntriesPush(inode, openInodes);
      PushOpen(inode);
      life := Next(life, Open(sector));
    }

    /** The sectors of open inodes are those with a count. */
    lemma ListedIff(sector: nat)
      requires Tracks()
      ensures Listed(Entries(openInodes), sector) <==>
        exists k :: 0 <= k < |openInodes| && openInodes[k].sector == sector
      ensures Listed(Entries(openInodes), sector) <==> sector in life.opens
    {
    }

    lemma NotListed(sector: nat)
      requires forall i :: i in openInodes ==> i.sector != sector
      ensures !Listed(Entries(openInodes), sector)
    {
    }

    /** list_push_front of a new inode, with its one bare handle. */
    method PushOpen(inode: Inode)
      requires OpensOk() && inode.sector in live && inode.sector in headers
      requires headers[inode.sector] == HeaderOf(inode)
      requires inode.openCnt == 1 && inode.denyWriteCnt == 0
      requires forall i :: i in openInodes ==> i.sector != inode.sector
      modifies this`openInodes, this`bare
      ensures OpensOk() && openInodes == [inode] + old(openInodes) && bare == old(bare) + multiset{inode}
    {
      hide CountsOk;
      forall i | i in openInodes ensures CountsOk(i, bare + multiset{inode}, files) {
        CountsOther(i, bare, files, inode);
      }
      CountsNew(inode, bare, files);
      openInodes := [inode] + openInodes;
      bare := bare + multiset{inode};
    }

    method InodeReopen(inode: Inode, ghost k: nat)
      requires OpensOk() && Tracks() && k < |openInodes| && inode == openInodes[k]
      modifies this`bare, this`life, inode`openCnt
      ensures OpensOk() && bare == old(bare) + multiset{inode} && inode.openCnt == old(inode.openCnt) + 1
      ensures Tracks() && Moves(old(life), Open(inode.sector), life)
    {
      hide LifeOk, Next, Shows, Enabled, Entries;
      ghost var es := Entries(openInodes);
      Reopened(es, life, k);
      AddHandle(inode);
      assert Entries(openInodes) == es[k := es[k].(opens := es[k].opens + 1)];
      life := Next(life, Open(inode.sector));
    }

    method AddHandle(inode: Inode)
      requires OpensOk() && inode in openInodes
      modifies this`bare, inode`openCnt
      ensures OpensOk() && bare == old(bare) + multiset{inode} && inode.openCnt == old(inode.openCnt) + 1
    {
      hide FilesOf, Denying;
      inode.openCnt := inode.openCnt + 1;
      bare := bare + multiset{inode};
    }

    /** Whether a close of the inode now would release it. */
    ghost predicate Releases(inode: Inode)
      reads inode
    {
      inode.openCnt == 1 && inode.removed
    }

    /** inode_close: the last close unlinks the inode and, if it was removed, frees its sectors. */
    method InodeClose(inode: Inode?, memory: Memory)
      requires Valid() && (inode != null ==> bare[inode] > 0 && (Releases(inode) ==> freeMapFile != null))
      modifies this`openInodes, this`bare, this`live, this`reserved, this`life, freeMap.bits, disk
      modifies (if inode == null then {} else {inode})`openCnt
      ensures Valid() && reserved == old(reserved)
      ensures inode == null ==> bare == old(bare) && openInodes == old(openInodes) && life == old(life)
      ensures inode != null ==>
        && bare == old(bare) - multiset{inode} && inode.openCnt == old(inode.openCnt) - 1
        && Moves(old(life), Close(inode.sector), life)
        && (forall i :: i in openInodes <==> i in old(openInodes) && (i == inode ==> old(inode.openCnt) != 1))
      ensures freeMap.Bits() ==
        if inode != null && old(Releases(inode)) then Released(old(freeMap.Bits()), inode.sector, HeaderOf(inode))
        else old(freeMap.Bits())
      ensures OnlyMap(old(disk.sectors), disk.sectors)
      ensures (inode != null && old(Releases(inode))) || disk.sectors == old(disk.sectors)
      ensures old(MapStored()) && !(inode != null && old(Releases(inode))) ==> MapStored()
      ensures old(MapStored()) && MapWritable(memory.second) ==> MapStored()
    {
      hide StoreOk, Released, OpensOk, MapStored, MapReady, Writable, Moves, LifeOk, Shows, Entries;
      if inode == null {
        return;
      }
      OpenHeader(inode);
      var last := CloseHandle(inode);
      if last && inode.removed {
        MapOnDisk();
        LiveHeaders(freeMap.Bits(), headers, live, reserved);
        ReleaseInode(inode, memory);
        Forget(inode.sector);
      }
    }

    lemma OpenHeader(inode: Inode)
      requires OpensOk() && bare[inode] > 0
      ensures inode in openInodes && inode.sector in live
      ensures inode.sector in headers && headers[inode.sector] == HeaderOf(inode)
    {
    }

    /** Gives up a bare handle; the last one unlinks the inode from the open list. */
    method CloseHandle(inode: Inode) returns (last: bool)
      requires OpensOk() && Tracks() && bare[inode] > 0
      modifies this`openInodes, this`bare, this`life, inode`openCnt
      ensures OpensOk() && bare == old(bare) - multiset{inode} && inode.openCnt == old(inode.openCnt) - 1
      ensures last == (old(inode.openCnt) == 1)
      ensures forall i :: i in openInodes <==> i in old(openInodes) && (i == inode ==> !last)
      ensures last ==> forall i :: i in openInodes ==> i.sector != inode.sector
      ensures Moves(old(life), Close(inode.sector), life) && LifeOk(life) && Shows(Entries(openInodes), life)
      ensures life.live == if last && inode.removed then live - {inode.sector} else live
    {
      hide OpensOk, LifeOk, Next, Shows, Enabled, Entries;
      ghost var k, es := IndexOf(inode), Entries(openInodes);
      assert es[k] == EntryOf(inode);
      last := DropEntry(inode, k, es);
      if last {
        LastClosed(es, life, k);
      } else {
        OneClosed(es, life, k);
      }
      life := Next(life, Close(inode.sector));
    }

    /** The same for the entries. */
    method DropEntry(inode: Inode, ghost k: nat, ghost es: seq<Entry>) returns (last: bool)
      requires OpensOk() && bare[inode] > 0 && k < |openInodes| && openInodes[k] == inode && es == Entries(openInodes)
      requires forall j :: 0 <= j < |openInodes| && j != k ==> openInodes[j] != inode
      modifies this`openInodes, this`bare, inode`openCnt
      ensures OpensOk() && bare == old(bare) - multiset{inode} && inode.openCnt == old(inode.openCnt) - 1
      ensures last == (old(inode.openCnt) == 1)
      ensures forall i :: i in openInodes <==> i in old(openInodes) && (i == inode ==> !last)
      ensures last ==> forall i :: i in openInodes ==> i.sector != inode.sector
      ensures k < |es| && Entries(openInodes)
        == if last then es[..k] + es[k + 1..] else es[k := es[k].(opens := es[k].opens - 1)]
    {
      hide OpensOk, Without, Entries;
      ghost var was := openInodes;
      last := GiveUp(inode, k);
      EntriesDropped(was, k, es);
    }

    ghost function IndexOf(inode: Inode): (k: nat)
      requires OpensOk() && bare[inode] > 0
      reads this`headers, this`openInodes, this`live, this`bare, this`files, files
      reads openInodes`openCnt, openInodes`denyWriteCnt
      ensures k < |openInodes| && openInodes[k] == inode
      ensures forall j :: 0 <= j < |openInodes| && j != k ==> openInodes[j] != inode
    {
      assert inode in openInodes;
      var k :| 0 <= k < |openInodes| && openInodes[k] == inode;
      k
    }

    method GiveUp(inode: Inode, ghost k: nat) returns (last: bool)
      requires OpensOk() && bare[inode] > 0 && k < |openInodes| && openInodes[k] == inode
      modifies this`openInodes, this`bare, inode`openCnt
      ensures OpensOk() && bare == old(bare) - multiset{inode} && inode.openCnt == old(inode.openCnt) - 1
      ensures last == (old(inode.openCnt) == 1)
      ensures openInodes == if last then Without(old(openInodes), k) else old(openInodes)
      ensures forall i :: i in openInodes <==> i in old(openInodes) && (i == inode ==> !last)
      ensures last ==> forall i :: i in openInodes ==> i.sector != inode.sector
    {
      hide CountsOk, Without;
      TakeHandle(inode);
      last := inode.openCnt == 0;
      if last {
        NoHandlesLeft(inode, bare, files);
        RemoveOpen(inode, k);
      }
    }

    method TakeHandle(inode: Inode)
      requires OpensOk() && bare[inode] > 0
      modifies this`bare, inode`openCnt
      ensures bare == old(bare) - multiset{inode} && inode.openCnt == old(inode.openCnt) - 1
      ensures forall i :: i in openInodes ==> CountsOk(i, bare, files)
    {
      hide FilesOf, Denying;
      inode.openCnt := inode.openCnt - 1;
      bare := bare - multiset{inode};
    }

    /** list_remove from open_inodes. */
    method RemoveOpen(inode: Inode, ghost k: nat)
      requires k < |openInodes| && openInodes[k] == inode
      requires forall a, b :: 0 <= a < b < |openInodes| ==> openInodes[a].sector != openInodes[b].sector
      modifies this`openInodes
      ensures openInodes == Without(old(openInodes), k)
      ensures forall a, b :: 0 <= a < b < |openInodes| ==> openInodes[a].sector != openInodes[b].sector
      ensures forall i :: i in openInodes <==> i in old(openInodes) && i != inode
      ensures forall i :: i in openInodes ==> i.sector != inode.sector
    {
      var i := 0;
      while openInodes[i] != inode
        invariant i <= k
        decreases k - i
      {
        i := i + 1;
      }
      openInodes := openInodes[..i] + openInodes[i + 1..];
    }

    /** A closed, removed inode's header and data sectors go back to the free map. */
    method ReleaseInode(inode: Inode, memory: Memory)
      requires freeMap.Valid() && MapReady() && freeMapFile != null
      requires StoreOk(freeMap.Bits(), headers, live, reserved)
      requires inode.sector in live && inode.sector in headers && headers[inode.sector] == HeaderOf(inode)
      modifies freeMap.bits, disk
      ensures StoreOk(freeMap.Bits(), headers, live - {inode.sector}, reserved - {inode.sector})
      ensures freeMap.Bits() == Released(old(freeMap.Bits()), inode.sector, HeaderOf(inode))
      ensures OnlyMap(old(disk.sectors), disk.sectors) && |disk.sectors| == |old(disk.sectors)|
      ensures MapWritable(memory.second) ==> MapStored()
    {
      ReleaseKeeps(freeMap.Bits(), headers, live, reserved, inode.sector);
      hide StoreOk, MapStored, Writable;
      ghost var bits := freeMap.Bits();
      FreeMapRelease(inode.sector, 1, memory.first);
      FreeMapRelease(inode.start, BytesToSectors(inode.length), memory.second);
      assert freeMap.Bits() == Released(bits, inode.sector, HeaderOf(inode));
    }

    /** The sector is no inode's, nor allocated, any more. */
    ghost method Forget(sector: nat)
      requires OpensOk() && forall i :: i in openInodes ==> i.sector != sector
      modifies this`live, this`reserved
      ensures OpensOk() && live == old(live) - {sector} && reserved == old(reserved) - {sector}
    {
      hide CountsOk;
      live, reserved := live - {sector}, reserved - {sector};
    }

    /** inode_remove: nothing is freed while handles remain. */
    method InodeRemove(inode: Inode)
      requires Valid() && bare[inode] > 0
      modifies inode`removed, this`life
      ensures Valid() && inode.removed && Moves(old(life), Remove(inode.sector), life)
    {
      hide StoreOk, CountsOk, LifeOk, Next, Shows, Enabled, Entries;
      ghost var k, es := IndexOf(inode), Entries(openInodes);
      assert es[k] == EntryOf(inode);
      Flagged(es, life, k);
      life := Next(life, Remove(inode.sector));
      inode.removed := true;
      assert Entries(openInodes) == es[k := es[k].(removed := true)];
      assert Shows(Entries(openInodes), life);
    }

    // ----- Creating inodes

    /** The sector that filesys_create allocates for a new inode's header. */
    method Reserve(memory: bool) returns (sector: Option<nat>)
      requires Valid()
      modifies this`reserved, freeMap.bits, disk
      ensures Valid()
      ensures sector.Some? <==> MapWritable(memory) && !FirstGroup(old(freeMap.Bits()), 0, 1, false, None)
      ensures sector.None? ==> reserved == old(reserved) && freeMap.Bits() == old(freeMap.Bits())
      ensures sector.Some? ==>
        && FirstGroup(old(freeMap.Bits()), 0, 1, false, sector)
        && sector.value !in old(reserved) && sector.value !in live && reserved == old(reserved) + {sector.value}
        && sector.value < freeMap.bitCnt && !old(freeMap.Bits())[sector.value]
        && freeMap.Bits() == Filled(old(freeMap.Bits()), sector.value, 1, true)
      ensures OnlyMap(old(disk.sectors), disk.sectors)
      ensures sector.Some? && freeMapFile != null ==> MapStored()
    {
      hide StoreOk, FirstGroup, Filled, OpensOk, Tracks, MapStored, MapReady, Writable;
      MapOnDisk();
      ghost var bits := freeMap.Bits();
      sector := FreeMapAllocate(1, memory);
      if sector.Some? {
        ReserveKeeps(bits, headers, live, reserved, sector.value);
        reserved := reserved + {sector.value};
      }
    }

    /** inode_create: writes the header, and zeros to newly allocated data sectors. */
    method InodeCreate(sector: nat, length: nat, memory: bool, mapMemory: bool) returns (success: bool)
      requires Valid() && sector in reserved
      modifies this`headers, this`live, this`reserved, this`life, freeMap.bits, disk
      ensures Valid()
      ensures success <==>
        memory && MapWritable(mapMemory) && !FirstGroup(old(freeMap.Bits()), 0, BytesToSectors(length), false, None)
      ensures success ==>
        && live == old(live) + {sector} && reserved == old(reserved) - {sector}
        && Moves(old(life), Create(sector), life)
        && sector in headers && headers[sector].length == length && headers == old(headers)[sector := headers[sector]]
      ensures success ==>
        && OnDisk(headers[sector].start, length, disk.sectors)
        && Content(disk.sectors, headers[sector].start, length) == seq(length, _ => 0)
      ensures success ==> SameFiles(old(disk.sectors), disk.sectors, old(headers), old(live) - {FREE_MAP_SECTOR})
      ensures success ==>
        && FirstGroup(old(freeMap.Bits()), 0, BytesToSectors(length), false, Some(headers[sector].start))
        && freeMap.Bits() == Filled(old(freeMap.Bits()), headers[sector].start, BytesToSectors(length), true)
      ensures success ==> forall i :: 0 <= i < |freeMap.Bits()| ==>
        freeMap.Bits()[i] == (old(freeMap.Bits())[i]
                              || (headers[sector].start <= i && 512 * (i - headers[sector].start) < length))
      ensures !success ==>
        live == old(live) && reserved == old(reserved) && headers == old(headers) && life == old(life)
      ensures !success ==> freeMap.Bits() == old(freeMap.Bits()) && OnlyMap(old(disk.sectors), disk.sectors)
      ensures success && freeMapFile != null ==> MapStored()
    {
      hide StoreOk, Filled, OpensOk, Tracks, MapStored, MapReady, Writable, SameFiles, Content, Moves, FirstGroup;
      hide OnlyMap;
      if !memory {
        OnlyMapRefl(disk.sectors);
        return false;
      }
      MapOnDisk();
      ghost var bits, was := freeMap.Bits(), disk.sectors;
      var start := FreeMapAllocate(BytesToSectors(length), mapMemory);
      if start.None? {
        return false;
      }
      OnlyMapKeeps(bits, was);
      GroupFound(bits, BytesToSectors(length), start.value);
      WriteInode(sector, Header(start.value, length), bits, was);
      FilledExactly(bits, start.value, length);
      return true;
    }

    /** The second half of inode_create, once the data sectors are allocated. */
    method WriteInode(sector: nat, h: Header, ghost bits: seq<bool>, ghost was: seq<Sector>)
      requires freeMap.Valid() && |disk.sectors| == freeMap.bitCnt && OpensOk() && MapOk() && Tracks()
      requires StoreOk(bits, headers, live, reserved) && |bits| == |was| == freeMap.bitCnt && sector in reserved
      requires h.start + Sectors(h) <= |bits| && AllAre(bits, h.start, Sectors(h), false)
      requires freeMap.Bits() == Filled(bits, h.start, Sectors(h), true)
      requires SameFiles(was, disk.sectors, headers, live - {FREE_MAP_SECTOR}) && (freeMapFile != null ==> MapStored())
      modifies this`headers, this`live, this`reserved, this`life, disk
      ensures |disk.sectors| == freeMap.bitCnt && OpensOk() && MapOk() && Tracks()
      ensures StoreOk(freeMap.Bits(), headers, live, reserved)
      ensures live == old(live) + {sector} && reserved == old(reserved) - {sector}
      ensures headers == old(headers)[sector := h]
      ensures Moves(old(life), Create(sector), life)
      ensures Content(disk.sectors, h.start, h.length) == seq(h.length, _ => 0)
      ensures SameFiles(was, disk.sectors, old(headers), old(live) - {FREE_MAP_SECTOR})
      ensures freeMapFile != null ==> MapStored()
    {
      hide StoreOk, OpensOk, Zeroed, SameFiles, Content, Filled, AllAre, Image, LifeOk, Next, Shows, Entries, Enabled;
      ghost var mid := disk.sectors;
      LiveHeaders(bits, headers, live, reserved);
      CreateKeeps(bits, headers, live, reserved, sector, h);
      CreateApart(bits, headers, live, reserved, h, mid);
      ZeroedContent(mid, h.start, h.length);
      ghost var now := Zeroed(mid, h.start, Sectors(h));
      SameFilesTrans(bits, was, mid, now, headers, live, reserved);
      StoredStays(bits, now);
      Created(Entries(openInodes), life, sector);
      PutHeader(sector, h);
      life := Next(life, Create(sector));
      WriteZeros(h.start, BytesToSectors(h.length));
    }

    /** Zeroing free sectors leaves the free map's file as it is. */
    lemma StoredStays(bits: seq<bool>, now: seq<Sector>)
      requires |disk.sectors| == |bits| == |now| && OpensOk() && MapOk() && StoreOk(bits, headers, live, reserved)
      requires SameFiles(disk.sectors, now, headers, live)
      ensures freeMapFile != null ==>
        && OnDisk(freeMapFile.inode.start, freeMapFile.inode.length, disk.sectors)
        && Content(now, freeMapFile.inode.start, freeMapFile.inode.length)
          == Content(disk.sectors, freeMapFile.inode.start, freeMapFile.inode.length)
    {
      if freeMapFile != null {
        assert freeMapFile.inode in openInodes;
        assert headers[FREE_MAP_SECTOR] == HeaderOf(freeMapFile.inode);
      }
    }

    /** block_write of a new inode's header. */
    method PutHeader(sector: nat, h: Header)
      requires OpensOk() && sector !in live
      modifies this`headers, this`live, this`reserved
      ensures headers == old(headers)[sector := h]
      ensures live == old(live) + {sector} && reserved == old(reserved) - {sector}
      ensures OpensOk()
    {
      hide CountsOk;
      headers := headers[sector := h];
      live, reserved := live + {sector}, reserved - {sector};
    }

    /** The loop that zeros a new file's sectors. */
    method WriteZeros(start: nat, sectors: nat)
      requires start + sectors <= |disk.sectors|
      modifies disk
      ensures disk.sectors == Zeroed(old(disk.sectors), start, sectors)
    {
      for i := 0 to sectors
        invariant disk.sectors == Zeroed(old(disk.sectors), start, i)
      {
        disk.sectors := disk.sectors[start + i := ZEROS];
      }
    }

    /** free_map_release of a header sector that is in no open inode's extent. */
    method Unreserve(sector: nat, memory: bool)
      requires Valid() && freeMapFile != null
      requires (sector in live || sector in reserved) && sector !in life.opens
      modifies this`live, this`reserved, this`life, freeMap.bits, disk
      ensures Valid() && live == old(live) - {sector} && reserved == old(reserved) - {sector}
      ensures if sector in old(live) then Moves(old(life), Discard(sector), life) else life == old(life)
      ensures freeMap.Bits() == Filled(old(freeMap.Bits()), sector, 1, false)
      ensures OnlyMap(old(disk.sectors), disk.sectors)
      ensures MapWritable(memory) ==> MapStored()
    {
      hide StoreOk, OpensOk, Filled, MapStored, MapReady, Writable, OnlyMap, LifeOk, Next, Shows, Entries, Enabled;
      NotOpen(sector);
      MapOnDisk();
      ReleaseHeader(sector, memory);
      if sector in live {
        Discarded(Entries(openInodes), life, sector);
        life := Next(life, Discard(sector));
      }
      Forget(sector);
    }

    method ReleaseHeader(sector: nat, memory: bool)
      requires freeMap.Valid() && MapReady() && freeMapFile != null && (sector in live || sector in reserved)
      requires StoreOk(freeMap.Bits(), headers, live, reserved)
      modifies freeMap.bits, disk
      ensures StoreOk(freeMap.Bits(), headers, live - {sector}, reserved - {sector})
      ensures freeMap.Bits() == Filled(old(freeMap.Bits()), sector, 1, false)
      ensures OnlyMap(old(disk.sectors), disk.sectors) && |disk.sectors| == |old(disk.sectors)|
      ensures MapWritable(memory) ==> MapStored()
    {
      hide StoreOk, Filled, MapStored, Writable, OnlyMap;
      UnreserveKeeps(freeMap.Bits(), headers, live, reserved, sector);
      FreeMapRelease(sector, 1, memory);
    }

    /** An open inode's flag is what `life` says. */
    lemma NotRemoved(inode: Inode)
      requires Tracks() && inode in openInodes
      ensures inode.removed <==> inode.sector in life.removed
      ensures inode.sector in life.opens && life.opens[inode.sector] == inode.openCnt
    {
      var k :| 0 <= k < |openInodes| && openInodes[k] == inode;
      assert Entries(openInodes)[k] == EntryOf(inode);
    }

    lemma NotOpen(sector: nat)
      requires Tracks() && sector !in life.opens
      ensures forall i :: i in openInodes ==> i.sector != sector
    {
      forall i | i in openInodes ensures i.sector != sector {
        var k :| 0 <= k < |openInodes| && openInodes[k] == i;
        assert Entries(openInodes)[k] == EntryOf(i);
      }
    }

    /** free_map_create: the free map's inode and its file, with the map in it. */
    method FreeMapCreate(memory: MapCreateMemory) returns (ok: bool)
      requires Valid() && freeMapFile == null && FREE_MAP_SECTOR in reserved
      modifies this, freeMap.bits, disk, openInodes`openCnt
      ensures ok ==> Valid() && freeMapFile != null && MapStored()
      ensures |disk.sectors| == |old(disk.sectors)|
      ensures ok ==>
        && live == old(live) + {FREE_MAP_SECTOR} && reserved == old(reserved) - {FREE_MAP_SECTOR}
        && life.removed == old(life.removed) && life.opens.Keys == old(life.opens.Keys) + {FREE_MAP_SECTOR}
      ensures ok ==> forall i :: i in openInodes ==> i in old(openInodes) || fresh(i)
      ensures ok <==>
        && memory.create && memory.inode && memory.file && WritesMap(freeMap.bitCnt, memory.write)
        && !FirstGroup(old(freeMap.Bits()), 0, BytesToSectors(FileSize(freeMap.bitCnt)), false, None)
      ensures ok ==>
        && freeMapFile.inode.denyWriteCnt == 0
        && var n := BytesToSectors(FileSize(freeMap.bitCnt));
          && FirstGroup(old(freeMap.Bits()), 0, n, false, Some(freeMapFile.inode.start))
          && freeMap.Bits() == Filled(old(freeMap.Bits()), freeMapFile.inode.start, n, true)
    {
      hide StoreOk, OpensOk, Tracks, SameFiles, Content, FirstGroup, Filled, Image, Writable, WritesMap;
      ReservedNotOpen(FREE_MAP_SECTOR);
      ok := InodeCreate(FREE_MAP_SECTOR, FileSize(freeMap.bitCnt), memory.create, true);
      if !ok {
        return;
      }
      var file := MapFileOpen(memory.inode, memory.file);
      if file == null {
        return false;
      }
      freeMapFile := file;
      MapOnDisk();
      WholeMap(file.inode, freeMap.bitCnt, memory.write);
      ok := BitmapWrite(freeMap, disk, freeMapFile.inode, memory.write);
    }

    lemma WholeMap(inode: Inode, n: nat, memory: bool)
      requires inode.denyWriteCnt == 0 && inode.length == FileSize(n)
      ensures Writable(inode, memory) <==> WritesMap(n, memory)
    {
    }

    lemma ReservedNotOpen(sector: nat)
      requires Valid() && sector in reserved
      ensures sector !in live && sector !in life.opens
    {
    }

    /** file_open (inode_open (FREE_MAP_SECTOR)) when that inode is not open yet. */
    method MapFileOpen(memory: bool, fileMemory: bool) returns (file: File?)
      requires Valid() && FREE_MAP_SECTOR in live && FREE_MAP_SECTOR !in life.opens && freeMapFile == null
      modifies this`openInodes, this`bare, this`live, this`reserved, this`life, this`files, freeMap.bits, disk
      modifies openInodes`openCnt
      ensures Valid() && live == old(live) && reserved == old(reserved)
      ensures file != null ==>
        && file in files && file.inode.sector == FREE_MAP_SECTOR
        && life.removed == old(life.removed) && life.opens.Keys == old(life.opens.Keys) + {FREE_MAP_SECTOR}
        && FREE_MAP_SECTOR in headers && HeaderOf(file.inode) == headers[FREE_MAP_SECTOR]
        && file.inode.denyWriteCnt == 0 && forall i :: i in openInodes ==> i in old(openInodes) || fresh(i)
      ensures file != null <==> memory && fileMemory
      ensures freeMap.Bits() == old(freeMap.Bits())
    {
      hide StoreOk, OpensOk, Tracks, Content, Image, Writable, Moves, Released;
      ghost var l0 := life;
      NotOpen(FREE_MAP_SECTOR);
      var inode := InodeOpen(FREE_MAP_SECTOR, memory);
      if inode != null {
        OpenHeader(inode);
        OpenKeeps(l0, life, FREE_MAP_SECTOR);
        OpenOnly(l0, life, FREE_MAP_SECTOR);
      }
      ghost var l1 := life;
      TrackedLive();
      file := FileOpen(inode, fileMemory, Memory(true, true));
      TrackedLive();
      if inode != null && file == null {
        OpenThenClose(l0, l1, life, FREE_MAP_SECTOR);
      }
    }

    lemma TrackedLive()
      requires Tracks()
      ensures life.live == live
    {
    }

    // ----- Files

    /** file_open: the file takes over the caller's bare handle; on failure the handle is closed. */
    method FileOpen(inode: Inode?, memory: bool, mapMemory: Memory) returns (file: File?)
      requires Valid() && (inode != null ==> bare[inode] > 0 && (Releases(inode) ==> freeMapFile != null))
      modifies this`openInodes, this`bare, this`live, this`reserved, this`life, this`files, freeMap.bits, disk
      modifies (if inode == null then {} else {inode})`openCnt
      ensures Valid() && reserved == old(reserved)
      ensures file != null <==> inode != null && memory
      ensures file != null ==>
        && fresh(file) && file.inode == inode && file.pos == 0 && !file.denyWrite
        && files == old(files) + {file} && life == old(life) && inode.openCnt == old(inode.openCnt)
        && openInodes == old(openInodes)
      ensures file == null ==> files == old(files)
      ensures file == null && inode != null ==>
        && Moves(old(life), Close(inode.sector), life) && inode.openCnt == old(inode.openCnt) - 1
        && (forall i :: i in openInodes <==> i in old(openInodes) && (i == inode ==> old(inode.openCnt) != 1))
      ensures inode == null ==> life == old(life) && openInodes == old(openInodes)
      ensures bare == if inode == null then old(bare) else old(bare) - multiset{inode}
      ensures freeMap.Bits() ==
        if file == null && inode != null && old(Releases(inode))
        then Released(old(freeMap.Bits()), inode.sector, HeaderOf(inode))
        else old(freeMap.Bits())
      ensures OnlyMap(old(disk.sectors), disk.sectors)
      ensures (file == null && inode != null && old(Releases(inode))) || disk.sectors == old(disk.sectors)
      ensures old(MapStored()) && !(file == null && inode != null && old(Releases(inode))) ==> MapStored()
      ensures old(MapStored()) && MapWritable(mapMemory.second) ==> MapStored()
    {
      hide StoreOk, OpensOk, Tracks, MapStored, Writable, Released, Moves;
      if inode != null && memory {
        file := new File(inode);
        AddFile(file);
      } else {
        InodeClose(inode, mapMemory);
        file := null;
      }
    }

    ghost method AddFile(file: File)
      requires OpensOk() && file !in files && !file.denyWrite && bare[file.inode] > 0
      modifies this`bare, this`files
      ensures OpensOk() && files == old(files) + {file} && bare == old(bare) - multiset{file.inode}
    {
      hide CountsOk;
      forall i | i in openInodes ensures CountsOk(i, bare - multiset{file.inode}, files + {file}) {
        CountsAddFile(i, bare, files, file);
      }
      files := files + {file};
      bare := bare - multiset{file.inode};
    }

    /** file_reopen: another file on the same inode. */
    method FileReopen(file: File, memory: bool) returns (other: File?)
      requires Valid() && file in files
      modifies this`openInodes, this`bare, this`live, this`reserved, this`life, this`files, freeMap.bits, disk
      modifies {file.inode}`openCnt
      ensures Valid() && live == old(live) && reserved == old(reserved)
      ensures other != null <==> memory
      ensures other != null ==>
        && fresh(other) && other.inode == file.inode && other.pos == 0 && !other.denyWrite
        && files == old(files) + {other}
        && Moves(old(life), Open(file.inode.sector), life) && file.inode.openCnt == old(file.inode.openCnt) + 1
      ensures other == null ==>
        files == old(files) && life == old(life) && file.inode.openCnt == old(file.inode.openCnt)
      ensures bare == old(bare) && forall i :: i in openInodes <==> i in old(openInodes)
      ensures freeMap.Bits() == old(freeMap.Bits()) && disk.sectors == old(disk.sectors)
    {
      hide StoreOk, OpensOk, Released, LifeOk, Moves, Shows, Entries;
      ghost var k, was := FileIndex(file), life;
      InodeReopen(file.inode, k);
      ghost var mid := life;
      other := FileOpen(file.inode, memory, Memory(true, true));
      if other == null {
        OpenThenClose(was, mid, life, file.inode.sector);
      } else {
        OpenKeeps(was, life, file.inode.sector);
      }
    }

    ghost function FileIndex(file: File): (k: nat)
      requires OpensOk() && file in files
      reads this`headers, this`openInodes, this`live, this`bare, this`files, files
      reads openInodes`openCnt, openInodes`denyWriteCnt
      ensures k < |openInodes| && openInodes[k] == file.inode && file.inode.openCnt > 0
    {
      assert file.inode in openInodes;
      var k :| 0 <= k < |openInodes| && openInodes[k] == file.inode;
      k
    }

    /** file_deny_write: each file counts once, so the count never exceeds the openers. */
    method FileDenyWrite(file: File)
      requires Valid() && file in files
      modifies file`denyWrite, file.inode`denyWriteCnt
      ensures Valid() && file.denyWrite
      ensures file.inode.denyWriteCnt == old(file.inode.denyWriteCnt) + if old(file.denyWrite) then 0 else 1
    {
      hide StoreOk, Shows, Entries;
      if !file.denyWrite {
        file.denyWrite := true;
        file.inode.denyWriteCnt := file.inode.denyWriteCnt + 1;
        DenyFlipped(file);
        DenyingWithin(files, file.inode);
        assert file.inode.denyWriteCnt <= file.inode.openCnt;
      }
    }

    method FileAllowWrite(file: File)
      requires Valid() && file in files
      modifies file`denyWrite, file.inode`denyWriteCnt
      ensures Valid() && !file.denyWrite
      ensures file.inode.denyWriteCnt == old(file.inode.denyWriteCnt) - if old(file.denyWrite) then 1 else 0
    {
      hide StoreOk, Shows, Entries;
      if file.denyWrite {
        file.denyWrite := false;
        file.inode.denyWriteCnt := file.inode.denyWriteCnt - 1;
        DenyFlipped(file);
      }
    }

    /** Setting or clearing one file's flag adds it to, or takes it from, its inode's deniers only. */
    twostate lemma DenyFlipped(file: File)
      requires file in files && files == old(files) && openInodes == old(openInodes)
      requires old(file.denyWrite) != file.denyWrite
      requires forall f :: f in files && f != file ==> f.denyWrite == old(f.denyWrite)
      ensures forall i :: i in openInodes && i != file.inode ==> Denying(files, i) == old(Denying(files, i))
      ensures var now, was := Denying(files, file.inode), old(Denying(files, file.inode));
        if file.denyWrite then now == was + {file} && file !in was else was == now + {file} && file !in now
    {
    }

    /** file_close: gives back the file's denial and its handle. */
    method FileClose(file: File?, memory: Memory)
      requires Valid() && (file != null ==> file in files && file != freeMapFile)
      requires file != null && Releases(file.inode) ==> freeMapFile != null
      modifies this`openInodes, this`bare, this`live, this`reserved, this`life, this`files, freeMap.bits, disk
      modifies (if file == null then {} else {file})`denyWrite
      modifies (if file == null then {} else {file.inode})`openCnt
      modifies (if file == null then {} else {file.inode})`denyWriteCnt
      ensures Valid() && reserved == old(reserved) && bare == old(bare)
      ensures file == null ==> files == old(files) && life == old(life) && openInodes == old(openInodes)
      ensures file != null ==>
        && files == old(files) - {file} && !file.denyWrite
        && file.inode.denyWriteCnt == old(file.inode.denyWriteCnt) - (if old(file.denyWrite) then 1 else 0)
        && file.inode.openCnt == old(file.inode.openCnt) - 1 && Moves(old(life), Close(file.inode.sector), life)
        && forall i :: i in openInodes <==> i in old(openInodes) && (i == file.inode ==> old(file.inode.openCnt) != 1)
      ensures freeMap.Bits() ==
        if file != null && old(Releases(file.inode))
        then Released(old(freeMap.Bits()), file.inode.sector, HeaderOf(file.inode))
        else old(freeMap.Bits())
      ensures OnlyMap(old(disk.sectors), disk.sectors)
      ensures (file != null && old(Releases(file.inode))) || disk.sectors == old(disk.sectors)
      ensures old(MapStored()) && !(file != null && old(Releases(file.inode))) ==> MapStored()
      ensures old(MapStored()) && MapWritable(memory.second) ==> MapStored()
    {
      hide StoreOk, OpensOk, Tracks, MapStored, Writable, Released, Moves;
      if file == null {
        return;
      }
      FileAllowWrite(file);
      DropFile(file);
      InodeClose(file.inode, memory);
    }

    /** The file's handle becomes the caller's. */
    ghost method DropFile(file: File)
      requires OpensOk() && file in files && !file.denyWrite
      modifies this`bare, this`files
      ensures OpensOk() && files == old(files) - {file} && bare == old(bare) + multiset{file.inode}
    {
      hide CountsOk;
      forall i | i in openInodes ensures CountsOk(i, bare + multiset{file.inode}, files - {file}) {
        CountsDropFile(i, bare, files, file);
      }
      files := files - {file};
      bare := bare + multiset{file.inode};
    }

    lemma OnlyMapRefl(sectors: seq<Sector>)
      ensures OnlyMap(sectors, sectors)
    {
    }

    /** Writing the map leaves all other files' bytes. */
    lemma OnlyMapKeeps(bits: seq<bool>, was: seq<Sector>)
      requires StoreOk(bits, headers, live, reserved) && |was| == |bits| && OnlyMap(was, disk.sectors)
      requires freeMapFile != null ==>
        && FREE_MAP_SECTOR in live && FREE_MAP_SECTOR in headers
        && headers[FREE_MAP_SECTOR] == HeaderOf(freeMapFile.inode)
      ensures SameFiles(was, disk.sectors, headers, live - {FREE_MAP_SECTOR})
    {
      if freeMapFile == null {
        SameFilesRefl(was, headers, live - {FREE_MAP_SECTOR});
      } else {
        forall s | s in live - {FREE_MAP_SECTOR} && s in headers && OnDisk(headers[s].start, headers[s].length, was)
          ensures Content(disk.sectors, headers[s].start, headers[s].length)
               == Content(was, headers[s].start, headers[s].length)
        {
          ExtentsApart(bits, headers, live, reserved, s, FREE_MAP_SECTOR);
          if headers[s].length > 0 && freeMapFile.inode.length > 0 {
            BeyondOtherFile(freeMapFile.inode, was, disk.sectors, headers[s].start, headers[s].length);
          }
        }
      }
    }
  }

  /** Marking a file's data sectors marks those that hold one of its bytes. */
  lemma FilledExactly(bits: seq<bool>, start: nat, length: nat)
    requires start + BytesToSectors(length) <= |bits|
    ensures var now := Filled(bits, start, BytesToSectors(length), true);
      forall i :: 0 <= i < |bits| ==> now[i] == (bits[i] || (start <= i && 512 * (i - start) < length))
  {
    SectorsFewest(length);
  }

  /** Setting a free group and clearing it again changes nothing. */
  lemma FilledBack(bits: seq<bool>, s: nat, cnt: nat)
    requires s + cnt <= |bits| && AllAre(bits, s, cnt, false)
    ensures Filled(Filled(bits, s, cnt, true), s, cnt, false) == bits
  {
  }

  lemma CountsAddFile(i: Inode, bare: multiset<Inode>, files: set<File>, file: File)
    requires CountsOk(i, bare, files) && file !in files && !file.denyWrite && bare[file.inode] > 0
    ensures CountsOk(i, bare - multiset{file.inode}, files + {file})
  {
    FilesOfAdd(files, file, i);
    assert file !in FilesOf(files, i);
  }

  lemma CountsDropFile(i: Inode, bare: multiset<Inode>, files: set<File>, file: File)
    requires CountsOk(i, bare, files) && file in files && !file.denyWrite
    ensures CountsOk(i, bare + multiset{file.inode}, files - {file})
  {
    FilesOfAdd(files - {file}, file, i);
    assert files == files - {file} + {file};
    assert file !in FilesOf(files - {file}, i);
  }

  const ZEROS: Sector := seq(512, _ => 0)

  ghost function Zeroed(sectors: seq<Sector>, start: nat, n: nat): (r: seq<Sector>)
    ensures |r| == |sectors|
  {
    seq(|sectors|, i requires 0 <= i < |sectors| => if start <= i < start + n then ZEROS else sectors[i])
  }

  lemma ZeroedContent(sectors: seq<Sector>, start: nat, length: nat)
    requires OnDisk(start, length, sectors)
    ensures var n := BytesToSectors(length);
      Content(Zeroed(sectors, start, n), start, length) == seq(length, _ => 0)
  {
  }

  /** Every live inode's file holds the same bytes on both devices. */
  ghost predicate SameFiles(sectors: seq<Sector>, sectors': seq<Sector>, headers: map<nat, Header>, live: set<nat>) {
    forall s ::
      s in live && s in headers && |sectors| == |sectors'| && OnDisk(headers[s].start, headers[s].length, sectors) ==>
      Content(sectors', headers[s].start, headers[s].length) == Content(sectors, headers[s].start, headers[s].length)
  }

  lemma SameFilesTrans(bits: seq<bool>, was: seq<Sector>, mid: seq<Sector>, now: seq<Sector>, headers: map<nat, Header>,
                       live: set<nat>, reserved: set<nat>)
    requires StoreOk(bits, headers, live, reserved) && |was| == |mid| == |now| == |bits|
    requires SameFiles(was, mid, headers, live - {FREE_MAP_SECTOR}) && SameFiles(mid, now, headers, live)
    ensures SameFiles(was, now, headers, live - {FREE_MAP_SECTOR})
  {
    hide Content;
  }

  lemma SameFilesRefl(sectors: seq<Sector>, headers: map<nat, Header>, live: set<nat>)
    ensures SameFiles(sectors, sectors, headers, live)
  {
  }

  lemma GroupFound(bits: seq<bool>, cnt: nat, s: nat)
    requires FirstGroup(bits, 0, cnt, false, Some(s))
    ensures s + cnt <= |bits| && AllAre(bits, s, cnt, false)
  {
  }

  /** Two live inodes' data do not overlap. */
  lemma ExtentsApart(bits: seq<bool>, headers: map<nat, Header>, live: set<nat>, reserved: set<nat>, s: nat, t: nat)
    requires StoreOk(bits, headers, live, reserved) && s in live && t in live && s != t
    ensures var h, g := headers[s], headers[t];
      Sectors(h) > 0 && Sectors(g) > 0 ==> h.start + Sectors(h) <= g.start || g.start + Sectors(g) <= h.start
  {
    var h, g := headers[s], headers[t];
    if Sectors(h) > 0 && Sectors(g) > 0 {
      assert Owns(headers, s, h.start) && Owns(headers, t, g.start);
      assert Owns(headers, s, g.start) ==> s == t;
      assert Owns(headers, t, h.start) ==> s == t;
    }
  }

  lemma LiveHeaders(bits: seq<bool>, headers: map<nat, Header>, live: set<nat>, reserved: set<nat>)
    requires StoreOk(bits, headers, live, reserved)
    ensures forall s :: s in live ==> s in headers && s !in reserved
  {
  }

  /** Zeroing sectors that were free touches no live file. */
  lemma CreateApart(bits: seq<bool>, headers: map<nat, Header>, live: set<nat>, reserved: set<nat>, h: Header,
                    sectors: seq<Sector>)
    requires StoreOk(bits, headers, live, reserved) && |sectors| == |bits|
    requires h.start + Sectors(h) <= |bits| && AllAre(bits, h.start, Sectors(h), false)
    ensures SameFiles(sectors, Zeroed(sectors, h.start, Sectors(h)), headers, live)
  {
    hide StoreOk, Content, Zeroed, AllAre;
    forall s | s in live && s in headers && OnDisk(headers[s].start, headers[s].length, sectors)
      ensures Content(Zeroed(sectors, h.start, Sectors(h)), headers[s].start, headers[s].length)
           == Content(sectors, headers[s].start, headers[s].length)
    {
      ZeroedElsewhere(bits, headers, live, reserved, h, sectors, s);
    }
  }

  lemma ZeroedElsewhere(bits: seq<bool>, headers: map<nat, Header>, live: set<nat>, reserved: set<nat>, h: Header,
                        sectors: seq<Sector>, s: nat)
    requires StoreOk(bits, headers, live, reserved) && |sectors| == |bits| && s in live
    requires h.start + Sectors(h) <= |bits| && AllAre(bits, h.start, Sectors(h), false)
    ensures OnDisk(headers[s].start, headers[s].length, sectors)
    ensures Content(Zeroed(sectors, h.start, Sectors(h)), headers[s].start, headers[s].length)
         == Content(sectors, headers[s].start, headers[s].length)
  {
    var z, start := Zeroed(sectors, h.start, Sectors(h)), headers[s].start;
    forall p | 0 <= p < headers[s].length ensures ByteAt(z, start, p) == ByteAt(sectors, start, p) {
      assert Owns(headers, s, start + p / 512);
    }
  }
}
