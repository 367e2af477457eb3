/**
 The file system's calls by name (filesys/filesys.c, with dir_open and dir_remove of
 filesys/directory.c): one flat directory of names over the inodes.
 */
module Filesys {
  import opened Options
  import opened Bitmap
  import opened BitmapFile
  import opened InodeIO
  import opened InodeLives
  import opened Directory
  import opened FileSystem

  /** Whether there is memory for the root directory's inode and for the directory. */
  datatype DirMemory = DirMemory(inode: bool, dir: bool)

  // ----- The invariant

  ghost predicate RootOnDisk(fs: FileSystem)
    reads fs`headers, fs.disk
  {
    && ROOT_DIR_SECTOR in fs.headers
    && OnDisk(fs.headers[ROOT_DIR_SECTOR].start, fs.headers[ROOT_DIR_SECTOR].length, fs.disk.sectors)
  }

  ghost function RootBytes(fs: FileSystem): seq<Byte>
    requires RootOnDisk(fs)
    reads fs`headers, fs.disk
  {
    Content(fs.disk.sectors, fs.headers[ROOT_DIR_SECTOR].start, fs.headers[ROOT_DIR_SECTOR].length)
  }

  /** The header sectors of the named files. */
  ghost function FilesIn(fs: FileSystem): map<Name, nat>
    requires RootOnDisk(fs)
    reads fs`headers, fs.disk
  {
    View(RootBytes(fs))
  }

  /** Names bind live inodes that are not removed, each one name at most, and never the free map's
      or the directory's own. */
  ghost predicate NamesSound(names: map<Name, nat>, l: Life) {
    && LifeOk(l)
    && FREE_MAP_SECTOR in l.live && FREE_MAP_SECTOR !in l.removed
    && ROOT_DIR_SECTOR in l.live && ROOT_DIR_SECTOR !in l.removed
    && (forall n :: n in names ==> names[n] > ROOT_DIR_SECTOR && names[n] in l.live && names[n] !in l.removed)
    && (forall m, n :: m in names && n in names && names[m] == names[n] ==> m == n)
  }

  ghost predicate Ready(fs: FileSystem)
    reads fs, fs.freeMap, fs.freeMap.bits, fs.openInodes, fs.files, fs.disk
  {
    && fs.Valid() && fs.freeMapFile != null && RootOnDisk(fs) && |fs.disk.sectors| <= 0x1_0000_0000
    && Unique(RootBytes(fs)) && NamesSound(FilesIn(fs), fs.life)
  }

  /** Whether a file denies writes to the root directory. */
  ghost predicate RootDenied(fs: FileSystem)
    reads fs`openInodes, fs.openInodes`denyWriteCnt
  {
    exists i :: i in fs.openInodes && i.sector == ROOT_DIR_SECTOR && i.denyWriteCnt != 0
  }

  // ----- Steps that keep it

  lemma OpenKeepsNames(names: map<Name, nat>, l: Life, s: nat, l': Life)
    requires NamesSound(names, l) && Moves(l, Open(s), l')
    ensures NamesSound(names, l') && l'.live == l.live
  {
  }

  lemma CloseKeepsNames(names: map<Name, nat>, l: Life, s: nat, l': Life)
    requires NamesSound(names, l) && Moves(l, Close(s), l') && s !in l.removed
    ensures NamesSound(names, l') && l'.live == l.live
  {
  }

  lemma CreateKeepsNames(names: map<Name, nat>, l: Life, s: nat, l': Life, name: Name)
    requires NamesSound(names, l) && Moves(l, Create(s), l')
    ensures NamesSound(names, l') && NamesSound(names[name := s], l')
  {
  }

  /** Steps on an inode that has no name. */
  lemma UnnamedKeepsNames(names: map<Name, nat>, l: Life, step: Step, l': Life)
    requires NamesSound(names, l) && Moves(l, step, l') && (step.Remove? || step.Close?) && step.s > ROOT_DIR_SECTOR
    requires forall n :: n in names ==> names[n] != step.s
    ensures NamesSound(names, l')
  {
  }

  lemma FewerNames(names: map<Name, nat>, l: Life, name: Name)
    requires NamesSound(names, l) && name in names
    ensures NamesSound(names - {name}, l) && forall n :: n in names - {name} ==> (names - {name})[n] != names[name]
  {
  }

  // ----- The root directory

  lemma RootLive(fs: FileSystem)
    requires Ready(fs)
    ensures ROOT_DIR_SECTOR in fs.live && FREE_MAP_SECTOR in fs.live && ROOT_DIR_SECTOR !in fs.life.removed
    ensures fs.life.live == fs.live && LifeOk(fs.life)
  {
  }

  /** What an open inode of the root directory says of it. */
  lemma RootInode(fs: FileSystem, inode: Inode)
    requires Ready(fs) && fs.bare[inode] > 0 && inode.sector == ROOT_DIR_SECTOR
    ensures inode in fs.openInodes && !inode.removed
    ensures OnDisk(inode.start, inode.length, fs.disk.sectors) && Bytes(fs.disk, inode) == RootBytes(fs)
  {
    hide Content;
    assert inode in fs.openInodes;
    fs.NotRemoved(inode);
  }

  /** dir_open for the root directory's inode; on failure the inode is closed. */
  method DirOpen(fs: FileSystem, inode: Inode?, memory: bool) returns (dir: Dir?)
    requires Ready(fs) && (inode != null ==> fs.bare[inode] > 0 && inode.sector == ROOT_DIR_SECTOR)
    modifies fs`openInodes, fs`bare, fs`live, fs`reserved, fs`life, fs.freeMap.bits, fs.disk
    modifies (if inode == null then {} else {inode})`openCnt
    ensures Ready(fs) && FilesIn(fs) == old(FilesIn(fs))
    ensures RootBytes(fs) == old(RootBytes(fs))
    ensures fs.disk.sectors == old(fs.disk.sectors) && fs.freeMap.Bits() == old(fs.freeMap.Bits())
    ensures fs.live == old(fs.live) && fs.reserved == old(fs.reserved)
    ensures dir != null <==> inode != null && memory
    ensures dir != null ==>
      && fresh(dir) && dir.Valid() && dir.disk == fs.disk && dir.inode == inode
      && fs.bare == old(fs.bare) && fs.life == old(fs.life) && fs.openInodes == old(fs.openInodes)
    ensures forall i :: i in fs.openInodes ==> i in old(fs.openInodes)
    ensures dir == null && inode != null ==>
      && Moves(old(fs.life), Close(ROOT_DIR_SECTOR), fs.life) && fs.bare == old(fs.bare) - multiset{inode}
    ensures inode == null ==> fs.bare == old(fs.bare) && fs.life == old(fs.life) && fs.openInodes == old(fs.openInodes)
  {
    hide StoreOk, NamesSound, View, Unique, Content, Moves, LifeOk, Released;
    hide FileSystem.Valid, FileSystem.OnlyMap, FileSystem.MapStored, FileSystem.MapWritable;
    RootLive(fs);
    if inode != null {
      RootInode(fs, inode);
    }
    if inode != null && memory {
      dir := new Dir(fs.disk, inode);
    } else {
      ghost var names, l := FilesIn(fs), fs.life;
      fs.InodeClose(inode, Memory(true, true));
      if inode != null {
        CloseKeepsNames(names, l, ROOT_DIR_SECTOR, fs.life);
      }
      RootLive(fs);
      dir := null;
    }
  }

  /** Whether the root directory is open with writes to it denied. */
  lemma RootDeniedBy(fs: FileSystem, inode: Inode)
    requires fs.Valid() && inode in fs.openInodes && inode.sector == ROOT_DIR_SECTOR
    ensures RootDenied(fs) <==> inode.denyWriteCnt != 0
  {
    hide StoreOk, Shows, Entries;
  }

  /** `dir` is the root directory, open. */
  ghost predicate IsRoot(fs: FileSystem, dir: Dir)
    requires RootOnDisk(fs)
    reads fs`headers, fs`bare, fs.disk, dir, dir.disk
  {
    && dir.Valid() && dir.disk == fs.disk && dir.inode.sector == ROOT_DIR_SECTOR && fs.bare[dir.inode] > 0
    && dir.Files() == FilesIn(fs)
  }

  /** Whether inode_open gives an inode for the sector. */
  predicate Opens(l: Life, s: nat, memory: bool) { memory || s in l.opens }

  /** Whether dir_open_root gives a directory. */
  predicate RootOpens(l: Life, memory: DirMemory) { memory.dir && Opens(l, ROOT_DIR_SECTOR, memory.inode) }

  /** dir_open_root. */
  method DirOpenRoot(fs: FileSystem, memory: DirMemory) returns (dir: Dir?)
    requires Ready(fs)
    modifies fs`openInodes, fs`bare, fs`live, fs`reserved, fs`life, fs.freeMap.bits, fs.disk, fs.openInodes`openCnt
    ensures Ready(fs) && FilesIn(fs) == old(FilesIn(fs))
    ensures RootBytes(fs) == old(RootBytes(fs))
    ensures fs.disk.sectors == old(fs.disk.sectors) && fs.freeMap.Bits() == old(fs.freeMap.Bits())
    ensures fs.live == old(fs.live) && fs.reserved == old(fs.reserved)
    ensures dir != null <==> RootOpens(old(fs.life), memory)
    ensures forall i :: i in fs.openInodes ==> i in old(fs.openInodes) || fresh(i)
    ensures dir == null ==> fs.life == old(fs.life) && fs.bare == old(fs.bare)
    ensures dir != null ==>
      && (dir.inode.denyWriteCnt != 0 <==> old(RootDenied(fs)))
      && fresh(dir) && IsRoot(fs, dir) && dir.inode in fs.openInodes && fs.bare == old(fs.bare) + multiset{dir.inode}
      && Moves(old(fs.life), Open(ROOT_DIR_SECTOR), fs.life)
  {
    hide Bitmap.Bits, Bitmap.Valid;
    hide StoreOk, NamesSound, View, Unique, Content, Moves, LifeOk, Released;
    hide FileSystem.Valid, FileSystem.OnlyMap, FileSystem.MapStored, FileSystem.MapWritable;
    ghost var names, l := FilesIn(fs), fs.life;
    RootLive(fs);
    var inode := fs.InodeOpen(ROOT_DIR_SECTOR, memory.inode);
    if inode != null {
      OpenKeepsNames(names, l, ROOT_DIR_SECTOR, fs.life);
      RootLive(fs);
      RootInode(fs, inode);
      RootDeniedBy(fs, inode);
      assert inode in old(fs.openInodes) ==> RootDenied(fs) == old(RootDenied(fs));
    }
    ghost var m := fs.life;
    dir := DirOpen(fs, inode, memory.dir);
    if inode != null && dir == null {
      OpenThenClose(l, m, fs.life, ROOT_DIR_SECTOR);
    }
  }

  /** dir_close; the directory's inode is not removed, so nothing is freed. */
  method DirClose(fs: FileSystem, dir: Dir?)
    requires Ready(fs) && (dir != null ==> IsRoot(fs, dir))
    modifies fs`openInodes, fs`bare, fs`live, fs`reserved, fs`life, fs.freeMap.bits, fs.disk
    modifies (if dir == null then {} else {dir.inode})`openCnt
    ensures Ready(fs) && FilesIn(fs) == old(FilesIn(fs))
    ensures fs.disk.sectors == old(fs.disk.sectors) && fs.freeMap.Bits() == old(fs.freeMap.Bits())
    ensures fs.live == old(fs.live) && fs.reserved == old(fs.reserved)
    ensures old(fs.MapStored()) ==> fs.MapStored()
    ensures forall i :: i in fs.openInodes ==> i in old(fs.openInodes)
    ensures dir == null ==> fs.life == old(fs.life) && fs.bare == old(fs.bare)
    ensures dir != null ==>
      Moves(old(fs.life), Close(ROOT_DIR_SECTOR), fs.life) && fs.bare == old(fs.bare) - multiset{dir.inode}
  {
    hide StoreOk, NamesSound, View, Unique, Content, Moves, LifeOk, Released;
    hide FileSystem.Valid, FileSystem.OnlyMap, FileSystem.MapStored, FileSystem.MapWritable;
    if dir != null {
      ghost var names, l := FilesIn(fs), fs.life;
      RootLive(fs);
      RootInode(fs, dir.inode);
      fs.InodeClose(dir.inode, Memory(true, true));
      CloseKeepsNames(names, l, ROOT_DIR_SECTOR, fs.life);
      RootLive(fs);
    }
  }

  // ----- filesys_open

  /** dir_lookup in the root directory: an inode with a handle for the caller. */
  method DirLookup(fs: FileSystem, dir: Dir, name: Name, memory: bool) returns (inode: Inode?)
    requires Ready(fs) && IsRoot(fs, dir)
    modifies fs`openInodes, fs`bare, fs`life, fs.openInodes`openCnt
    ensures Ready(fs) && IsRoot(fs, dir) && FilesIn(fs) == old(FilesIn(fs)) && fs.live == old(fs.live)
    ensures inode != null <==> name in FilesIn(fs) && Opens(old(fs.life), FilesIn(fs)[name], memory)
    ensures inode != null ==>
      && (inode in old(fs.openInodes) || fresh(inode)) && inode.sector == FilesIn(fs)[name]
      && fs.bare == old(fs.bare) + multiset{inode}
      && Moves(old(fs.life), Open(inode.sector), fs.life)
    ensures inode == null ==> fs.life == old(fs.life) && fs.bare == old(fs.bare)
  {
    hide StoreOk, NamesSound, View, Unique, Content, Moves, LifeOk, Released;
    hide FileSystem.Valid;
    ghost var names, l := FilesIn(fs), fs.life;
    inode := null;
    var sector := dir.DirLookup(name);
    if sector.Some? {
      NamedLive(fs, name);
      RootLive(fs);
      inode := fs.InodeOpen(sector.value, memory);
      if inode != null {
        OpenKeepsNames(names, l, sector.value, fs.life);
        RootLive(fs);
      }
    }
  }

  /** dir_lookup and dir_close of filesys_open: `mid` is the life between them. */
  method LookupAndClose(fs: FileSystem, dir: Dir, name: Name, memory: bool) returns (inode: Inode?, ghost mid: Life)
    requires Ready(fs) && IsRoot(fs, dir)
    modifies fs`openInodes, fs`bare, fs`live, fs`reserved, fs`life, fs.freeMap.bits, fs.disk, fs.openInodes`openCnt
    modifies dir.inode`openCnt
    ensures Ready(fs) && FilesIn(fs) == old(FilesIn(fs))
    ensures fs.disk.sectors == old(fs.disk.sectors) && fs.freeMap.Bits() == old(fs.freeMap.Bits())
    ensures fs.live == old(fs.live) && fs.reserved == old(fs.reserved)
    ensures inode != null <==> name in FilesIn(fs) && Opens(old(fs.life), FilesIn(fs)[name], memory)
    ensures inode != null ==>
      && (inode in old(fs.openInodes) || fresh(inode)) && inode.sector == FilesIn(fs)[name]
      && Moves(old(fs.life), Open(inode.sector), mid)
    ensures inode == null ==> mid == old(fs.life)
    ensures Moves(mid, Close(ROOT_DIR_SECTOR), fs.life)
    ensures fs.bare == old(fs.bare) + (if inode == null then multiset{} else multiset{inode}) - multiset{dir.inode}
  {
    hide Bitmap.Bits, Bitmap.Valid;
    hide Ready, RootOnDisk, IsRoot, FilesIn, Moves, Opens, RootBytes, FileSystem.MapStored;
    inode := DirLookup(fs, dir, name, memory);
    mid := fs.life;
    DirClose(fs, dir);
  }

  /** dir_open_root and dir_lookup of filesys_open. */
  method OpenNamed(fs: FileSystem, name: Name, dirMemory: DirMemory, memory: bool) returns (inode: Inode?)
    requires Ready(fs)
    modifies fs`openInodes, fs`bare, fs`live, fs`reserved, fs`life, fs.freeMap.bits, fs.disk, fs.openInodes`openCnt
    ensures Ready(fs) && FilesIn(fs) == old(FilesIn(fs))
    ensures fs.disk.sectors == old(fs.disk.sectors) && fs.freeMap.Bits() == old(fs.freeMap.Bits())
    ensures fs.live == old(fs.live) && fs.reserved == old(fs.reserved)
    ensures inode != null <==>
      && RootOpens(old(fs.life), dirMemory)
      && name in FilesIn(fs) && Opens(old(fs.life), FilesIn(fs)[name], memory)
    ensures inode != null ==>
      && (inode in old(fs.openInodes) || fresh(inode)) && inode.sector == FilesIn(fs)[name]
      && fs.bare == old(fs.bare) + multiset{inode}
      && Moves(old(fs.life), Open(inode.sector), fs.life)
    ensures inode == null ==> fs.life == old(fs.life) && fs.bare == old(fs.bare)
  {
    hide Bitmap.Bits, Bitmap.Valid, RootOpens, Opens, FileSystem.MapStored, NamesSound, View, Content;
    hide Ready, RootOnDisk, IsRoot, FilesIn, Moves, RootBytes, RootDenied;
    ghost var l0 := fs.life;
    inode := null;
    OpenedFacts(fs, name);
    var root := DirOpenRoot(fs, dirMemory);
    if root != null {
      ghost var l1, l2 := fs.life, fs.life;
      OpensSame(l0, l1, ROOT_DIR_SECTOR);
      forall k | 0 <= k < |fs.openInodes| ensures fs.openInodes[k] in old(fs.openInodes) || fresh(fs.openInodes[k]) {
      }
      inode, l2 := LookupAndClose(fs, root, name, memory);
      AroundOpen(l0, l1, l2, fs.life, if inode == null then None else Some(inode.sector));
    }
  }

  /** The root directory's open and close make no difference to the step between them, if there is one. */
  lemma AroundOpen(l0: Life, l1: Life, l2: Life, l3: Life, s: Option<nat>)
    requires Moves(l0, Open(ROOT_DIR_SECTOR), l1) && Moves(l2, Close(ROOT_DIR_SECTOR), l3)
    requires if s.None? then l2 == l1 else Moves(l1, Open(s.value), l2) && s.value != ROOT_DIR_SECTOR
    requires ROOT_DIR_SECTOR !in l0.removed
    ensures if s.None? then l3 == l0 else Moves(l0, Open(s.value), l3)
  {
    hide Moves;
    if s.None? {
      OpenThenClose(l0, l1, l3, ROOT_DIR_SECTOR);
    } else {
      OpenAround(l0, l1, Open(s.value), l2, l3, ROOT_DIR_SECTOR);
    }
  }

  lemma OpensSame(l: Life, l': Life, s: nat)
    requires Moves(l, Open(s), l')
    ensures forall t :: t != s ==> (t in l'.opens <==> t in l.opens)
    ensures forall t, memory :: t != s ==> (Opens(l', t, memory) <==> Opens(l, t, memory))
  {
  }

  lemma OpenedFacts(fs: FileSystem, name: Name)
    requires Ready(fs)
    ensures RootOnDisk(fs) && ROOT_DIR_SECTOR !in fs.life.removed && fs.life.live == fs.live
    ensures name in FilesIn(fs) ==> FilesIn(fs)[name] != ROOT_DIR_SECTOR && FilesIn(fs)[name] !in fs.life.removed
  {
  }

  lemma NamedLive(fs: FileSystem, name: Name)
    requires Ready(fs) && name in FilesIn(fs)
    ensures FilesIn(fs)[name] in fs.live && FilesIn(fs)[name] > ROOT_DIR_SECTOR && FilesIn(fs)[name] !in fs.life.removed
  {
  }

  /** file_open of an inode that is not removed. */
  method OpenFile(fs: FileSystem, inode: Inode?, memory: bool) returns (file: File?)
    requires Ready(fs) && (inode != null ==> fs.bare[inode] > 0 && inode.sector !in fs.life.removed)
    modifies fs`openInodes, fs`bare, fs`live, fs`reserved, fs`life, fs`files, fs.freeMap.bits, fs.disk
    modifies (if inode == null then {} else {inode})`openCnt
    ensures Ready(fs) && RootBytes(fs) == old(RootBytes(fs))
    ensures fs.disk.sectors == old(fs.disk.sectors) && fs.freeMap.Bits() == old(fs.freeMap.Bits())
    ensures fs.live == old(fs.live) && fs.reserved == old(fs.reserved)
    ensures fs.bare == if inode == null then old(fs.bare) else old(fs.bare) - multiset{inode}
    ensures file != null <==> inode != null && memory
    ensures file != null ==>
      && fresh(file) && file.inode == inode && file.pos == 0 && !file.denyWrite
      && fs.files == old(fs.files) + {file} && fs.life == old(fs.life)
    ensures file == null ==> fs.files == old(fs.files)
    ensures file == null && inode != null ==> Moves(old(fs.life), Close(inode.sector), fs.life)
    ensures inode == null ==> fs.life == old(fs.life)
  {
    hide StoreOk, NamesSound, View, Unique, Content, Moves, LifeOk, Released, Bitmap.Bits;
    hide FileSystem.Valid, FileSystem.OnlyMap, FileSystem.MapStored, FileSystem.MapWritable;
    ghost var names, l := FilesIn(fs), fs.life;
    RootLive(fs);
    if inode != null {
      OpenInode(fs, inode);
    }
    file := fs.FileOpen(inode, memory, Memory(true, true));
    if inode != null && file == null {
      CloseKeepsNames(names, l, inode.sector, fs.life);
    }
    LiveTracked(fs);
  }

  method FilesysOpen(fs: FileSystem, name: Name, dirMemory: DirMemory, memory: bool, fileMemory: bool)
    returns (file: File?)
    requires Ready(fs)
    modifies fs`openInodes, fs`bare, fs`live, fs`reserved, fs`life, fs`files, fs.freeMap.bits, fs.disk
    modifies fs.openInodes`openCnt
    ensures Ready(fs) && FilesIn(fs) == old(FilesIn(fs))
    ensures fs.disk.sectors == old(fs.disk.sectors) && fs.freeMap.Bits() == old(fs.freeMap.Bits())
    ensures fs.live == old(fs.live) && fs.reserved == old(fs.reserved) && fs.bare == old(fs.bare)
    ensures file != null <==>
      && RootOpens(old(fs.life), dirMemory)
      && name in FilesIn(fs) && Opens(old(fs.life), FilesIn(fs)[name], memory) && fileMemory
    ensures file != null ==>
      && fresh(file) && file.inode.sector == FilesIn(fs)[name] && file.pos == 0 && !file.denyWrite
      && fs.files == old(fs.files) + {file} && Moves(old(fs.life), Open(file.inode.sector), fs.life)
    ensures file == null ==> fs.life == old(fs.life) && fs.files == old(fs.files)
  {
    hide Bitmap.Bits, Bitmap.Valid, RootOpens, Ready, Moves, Opens, RootBytes;
    ghost var l := fs.life;
    OpenedFacts(fs, name);
    var inode := OpenNamed(fs, name, dirMemory, memory);
    OpenedFacts(fs, name);
    ghost var l1 := fs.life;
    file := OpenFile(fs, inode, fileMemory);
    if inode != null && file == null {
      OpenThenClose(l, l1, fs.life, inode.sector);
    }
  }

  lemma OpenInode(fs: FileSystem, inode: Inode)
    requires fs.Valid() && fs.bare[inode] > 0
    ensures inode in fs.openInodes && (inode.removed <==> inode.sector in fs.life.removed)
    ensures inode.sector in fs.live && inode.sector in fs.headers && fs.headers[inode.sector] == HeaderOf(inode)
    ensures fs.life.live == fs.live
  {
    assert inode in fs.openInodes;
    fs.NotRemoved(inode);
  }

  lemma LiveTracked(fs: FileSystem)
    requires fs.Valid()
    ensures fs.life.live == fs.live
  {
  }

  // ----- filesys_remove

  /** The first half of dir_remove: the entry bound to NAME, in E, and its inode, opened. */
  method OpenEntry(fs: FileSystem, dir: Dir, name: Name, memory: bool)
    returns (inode: Inode?, e: array<Byte>, ofs: nat, ghost k: nat)
    requires Ready(fs) && IsRoot(fs, dir)
    modifies fs`openInodes, fs`bare, fs`life, fs.openInodes`openCnt
    ensures fresh(e) && e.Length == ENTRY_SIZE
    ensures Ready(fs) && IsRoot(fs, dir) && FilesIn(fs) == old(FilesIn(fs)) && fs.live == old(fs.live)
    ensures inode != null <==> name in FilesIn(fs) && Opens(old(fs.life), FilesIn(fs)[name], memory)
    ensures inode != null ==>
      && Binds(Bytes(dir.disk, dir.inode), k, name) && ofs == ENTRY_SIZE * k
      && e[..] == Record(Bytes(dir.disk, dir.inode), k)
    ensures inode != null ==>
      && (inode in old(fs.openInodes) || fresh(inode)) && inode.sector == FilesIn(fs)[name]
      && fs.bare == old(fs.bare) + multiset{inode} && Moves(old(fs.life), Open(inode.sector), fs.life)
    ensures inode == null ==> fs.life == old(fs.life) && fs.bare == old(fs.bare)
  {
    hide Bitmap.Bits, Bitmap.Valid;
    hide StoreOk, NamesSound, Unique, Content, Moves, LifeOk, Released, View, Binds, Record, SectorOf;
    hide FileSystem.Valid;
    ghost var names, l := FilesIn(fs), fs.life;
    inode, ofs := null, 0;
    e := new Byte[ENTRY_SIZE](_ => 0);
    var found: Option<nat>;
    found, k := dir.Lookup(name, e);
    if found.Some? {
      ofs := found.value;
      ViewAt(Bytes(dir.disk, dir.inode), k, name);
      var sector := ReadSector(e);
      NamedLive(fs, name);
      RootLive(fs);
      inode := fs.InodeOpen(sector, memory);
      if inode != null {
        OpenKeepsNames(names, l, sector, fs.life);
        RootLive(fs);
      }
    }
  }

  /** What a write to the root directory's file alone keeps. */
  lemma RootWritten(fs: FileSystem, dir: Dir, was: seq<Sector>)
    requires fs.Valid() && ROOT_DIR_SECTOR in fs.live && RootOnDisk(fs)
    requires dir.disk == fs.disk && dir.inode.sector == ROOT_DIR_SECTOR && fs.bare[dir.inode] > 0
    requires SameBeyond(dir.inode, was, fs.disk.sectors)
    ensures SameFiles(was, fs.disk.sectors, fs.headers, fs.live - {ROOT_DIR_SECTOR})
    ensures OnDisk(dir.inode.start, dir.inode.length, fs.disk.sectors) && Bytes(fs.disk, dir.inode) == RootBytes(fs)
  {
    hide Content, Released;
    OpenInode(fs, dir.inode);
    forall s |
      s in fs.live - {ROOT_DIR_SECTOR} && s in fs.headers && OnDisk(fs.headers[s].start, fs.headers[s].length, was)
      ensures Content(fs.disk.sectors, fs.headers[s].start, fs.headers[s].length)
           == Content(was, fs.headers[s].start, fs.headers[s].length)
    {
      ExtentsApart(fs.freeMap.Bits(), fs.headers, fs.live, fs.reserved, s, ROOT_DIR_SECTOR);
      if fs.headers[s].length > 0 && dir.inode.length > 0 {
        BeyondOtherFile(dir.inode, was, fs.disk.sectors, fs.headers[s].start, fs.headers[s].length);
      } else if fs.headers[s].length > 0 {
        assert SameBeyond(dir.inode, was, fs.disk.sectors);
        assert was == fs.disk.sectors;
      }
    }
  }

  /** The second half of dir_remove, but for the close: the entry is erased and its inode removed. */
  method EraseEntry(fs: FileSystem, dir: Dir, name: Name, e: array<Byte>, ofs: nat, ghost k: nat, inode: Inode)
    returns (success: bool)
    requires Ready(fs) && IsRoot(fs, dir) && e.Length == ENTRY_SIZE && ofs == ENTRY_SIZE * k
    requires Binds(Bytes(dir.disk, dir.inode), k, name) && e[..] == Record(Bytes(dir.disk, dir.inode), k)
    requires name in FilesIn(fs) && inode.sector == FilesIn(fs)[name] && fs.bare[inode] > 0
    requires e as object != fs.freeMap.bits as object
    modifies fs.disk, e, fs`life, inode`removed
    ensures Ready(fs) && IsRoot(fs, dir)
    ensures success <==> dir.inode.denyWriteCnt == 0
    ensures FilesIn(fs) == if success then old(FilesIn(fs)) - {name} else old(FilesIn(fs))
    ensures if success then inode.removed && Moves(old(fs.life), Remove(inode.sector), fs.life)
      else inode.removed == old(inode.removed) && fs.life == old(fs.life)
    ensures SameFiles(old(fs.disk.sectors), fs.disk.sectors, fs.headers, fs.live - {ROOT_DIR_SECTOR})
  {
    hide StoreOk, NamesSound, Unique, Content, Moves, LifeOk, Released, View, Binds, Record, SameFiles;
    hide FileSystem.OpensOk, FileSystem.Tracks, FileSystem.MapOk, FileSystem.OnlyMap, FileSystem.MapStored;
    ghost var names, l, was := FilesIn(fs), fs.life, fs.disk.sectors;
    RootLive(fs);
    NamedLive(fs, name);
    FewerNames(names, l, name);
    success := dir.Erase(name, e, ofs, k);
    RootWritten(fs, dir, was);
    if success {
      fs.InodeRemove(inode);
      UnnamedKeepsNames(names - {name}, l, Remove(inode.sector), fs.life);
    }
  }

  /** What a write to the free map's file alone keeps. */
  lemma MapWritten(fs: FileSystem, was: seq<Sector>)
    requires fs.Valid() && fs.freeMapFile != null && ROOT_DIR_SECTOR in fs.live && RootOnDisk(fs)
    requires |was| == |fs.disk.sectors| && fs.OnlyMap(was, fs.disk.sectors)
    ensures SameFiles(was, fs.disk.sectors, fs.headers, fs.live - {FREE_MAP_SECTOR})
    ensures var h := fs.headers[ROOT_DIR_SECTOR];
      OnDisk(h.start, h.length, was) && Content(was, h.start, h.length) == RootBytes(fs)
  {
    hide Content, StoreOk, FileSystem.OpensOk, FileSystem.Tracks;
    fs.MapOnDisk();
    fs.OnlyMapKeeps(fs.freeMap.Bits(), was);
  }

  lemma SameFilesJoin(was: seq<Sector>, mid: seq<Sector>, now: seq<Sector>, headers: map<nat, Header>,
                      a: set<nat>, b: set<nat>, c: set<nat>)
    requires |was| == |mid| == |now| && SameFiles(was, mid, headers, a) && SameFiles(mid, now, headers, b)
    requires c <= a && c <= b
    ensures SameFiles(was, now, headers, c)
  {
    hide Content;
  }

  /** The inode_close of dir_remove. */
  method CloseEntry(fs: FileSystem, dir: Dir, inode: Inode, memory: Memory)
    requires Ready(fs) && IsRoot(fs, dir) && fs.bare[inode] > 0 && inode.sector > ROOT_DIR_SECTOR
    requires inode.removed ==> forall n :: n in FilesIn(fs) ==> FilesIn(fs)[n] != inode.sector
    modifies fs`openInodes, fs`bare, fs`live, fs`reserved, fs`life, fs.freeMap.bits, fs.disk, inode`openCnt
    ensures Ready(fs) && IsRoot(fs, dir) && FilesIn(fs) == old(FilesIn(fs))
    ensures fs.bare == old(fs.bare) - multiset{inode} && fs.reserved == old(fs.reserved)
    ensures Moves(old(fs.life), Close(inode.sector), fs.life)
    ensures fs.freeMap.Bits() ==
      if old(fs.Releases(inode)) then Released(old(fs.freeMap.Bits()), inode.sector, HeaderOf(inode))
      else old(fs.freeMap.Bits())
    ensures SameFiles(old(fs.disk.sectors), fs.disk.sectors, fs.headers, fs.live - {FREE_MAP_SECTOR})
  {
    hide StoreOk, NamesSound, Unique, Content, Moves, LifeOk, Released, View, SameFiles;
    hide FileSystem.Valid, FileSystem.OnlyMap, FileSystem.MapStored, FileSystem.MapWritable, FileSystem.Releases;
    ghost var names, l, was := FilesIn(fs), fs.life, fs.disk.sectors;
    RootLive(fs);
    OpenInode(fs, inode);
    OpenCount(fs, inode);
    fs.InodeClose(inode, memory);
    if inode.removed {
      UnnamedKeepsNames(names, l, Close(inode.sector), fs.life);
    } else {
      CloseKeepsNames(names, l, inode.sector, fs.life);
    }
    LiveTracked(fs);
    RootStays(names, fs.life);
    DiskSize(fs);
    MapWritten(fs, was);
    assert Ready(fs);
    StillRoot(fs, dir);
  }

  lemma StillRoot(fs: FileSystem, dir: Dir)
    requires Ready(fs) && dir.disk == fs.disk && dir.inode.sector == ROOT_DIR_SECTOR && fs.bare[dir.inode] > 0
    requires dir.pos % ENTRY_SIZE == 0
    ensures IsRoot(fs, dir)
  {
    RootInode(fs, dir.inode);
  }

  lemma OpenCount(fs: FileSystem, inode: Inode)
    requires fs.Valid() && fs.bare[inode] > 0
    ensures inode.openCnt > 0 && inode.sector in fs.life.opens && fs.life.opens[inode.sector] == inode.openCnt
    ensures |fs.disk.sectors| == fs.freeMap.bitCnt
  {
    assert inode in fs.openInodes;
    fs.NotRemoved(inode);
  }

  lemma DiskSize(fs: FileSystem)
    requires fs.Valid()
    ensures |fs.disk.sectors| == fs.freeMap.bitCnt
  {
  }

  lemma RootStays(names: map<Name, nat>, l: Life)
    requires NamesSound(names, l)
    ensures ROOT_DIR_SECTOR in l.live
  {
  }

  /** After the entry's inode has been opened: dir_remove erases the entry, removes the inode and closes it. */
  method DropEntry(fs: FileSystem, dir: Dir, name: Name, e: array<Byte>, ofs: nat, ghost k: nat, inode: Inode,
                   memory: Memory)
    returns (success: bool)
    requires Ready(fs) && IsRoot(fs, dir) && e.Length == ENTRY_SIZE && ofs == ENTRY_SIZE * k
    requires Binds(Bytes(dir.disk, dir.inode), k, name) && e[..] == Record(Bytes(dir.disk, dir.inode), k)
    requires name in FilesIn(fs) && inode.sector == FilesIn(fs)[name] && fs.bare[inode] > 0
    requires e as object != fs.freeMap.bits as object
    modifies fs`openInodes, fs`bare, fs`live, fs`reserved, fs`life, fs.freeMap.bits, fs.disk, e
    modifies inode`openCnt, inode`removed
    ensures Ready(fs) && IsRoot(fs, dir) && fs.bare == old(fs.bare) - multiset{inode} && fs.reserved == old(fs.reserved)
    ensures success <==> dir.inode.denyWriteCnt == 0
    ensures FilesIn(fs) == if success then old(FilesIn(fs)) - {name} else old(FilesIn(fs))
    ensures if success then RemovesAndCloses(old(fs.life), inode.sector, fs.life)
      else Moves(old(fs.life), Close(inode.sector), fs.life)
    ensures fs.freeMap.Bits() ==
      if success && old(inode.openCnt) == 1 then Released(old(fs.freeMap.Bits()), inode.sector, HeaderOf(inode))
      else old(fs.freeMap.Bits())
    ensures SameFiles(old(fs.disk.sectors), fs.disk.sectors, fs.headers, fs.live - {FREE_MAP_SECTOR, ROOT_DIR_SECTOR})
  {
    hide Bitmap.Bits, Bitmap.Valid;
    hide Ready, IsRoot, Moves, SameFiles, Released, Record, Binds;
    ReadyFacts(fs);
    ghost var l, was, names, live := fs.life, fs.disk.sectors, FilesIn(fs), fs.live;
    NamedAlone(fs, name);
    HandleFacts(fs, inode);
    success := EraseEntry(fs, dir, name, e, ofs, k, inode);
    ghost var l2, mid := fs.life, fs.disk.sectors;
    HandleFacts(fs, inode);
    CloseEntry(fs, dir, inode, memory);
    CloseShrinks(l2, inode.sector, fs.life);
    ReadyFacts(fs);
    SameFilesJoin(was, mid, fs.disk.sectors, fs.headers, live - {ROOT_DIR_SECTOR}, fs.live - {FREE_MAP_SECTOR},
                  fs.live - {FREE_MAP_SECTOR, ROOT_DIR_SECTOR});
    if success {
      MovesTwice(l, l2, fs.life, inode.sector);
    }
  }

  lemma ReadyFacts(fs: FileSystem)
    requires Ready(fs)
    ensures RootOnDisk(fs) && fs.life.live == fs.live && |fs.disk.sectors| == fs.freeMap.bitCnt && LifeOk(fs.life)
    ensures fs.freeMap.Valid()
  {
  }

  lemma NamedAlone(fs: FileSystem, name: Name)
    requires Ready(fs) && RootOnDisk(fs) && name in FilesIn(fs)
    ensures FilesIn(fs)[name] > ROOT_DIR_SECTOR && FilesIn(fs)[name] !in fs.life.removed
    ensures forall n :: n in FilesIn(fs) && n != name ==> FilesIn(fs)[n] != FilesIn(fs)[name]
  {
  }

  lemma CloseShrinks(l: Life, s: nat, l': Life)
    requires Moves(l, Close(s), l')
    ensures l'.live <= l.live
  {
  }

  lemma MovesTwice(l: Life, l1: Life, l2: Life, s: nat)
    requires Moves(l, Remove(s), l1) && Moves(l1, Close(s), l2)
    ensures RemovesAndCloses(l, s, l2)
  {
  }

  lemma HandleFacts(fs: FileSystem, inode: Inode)
    requires Ready(fs) && fs.bare[inode] > 0
    ensures inode.sector in fs.live && inode.sector in fs.headers && fs.headers[inode.sector] == HeaderOf(inode)
    ensures inode.openCnt == Count(fs.life, inode.sector) && (inode.removed <==> inode.sector in fs.life.removed)
    ensures fs.life.live == fs.live && |fs.disk.sectors| == fs.freeMap.bitCnt
  {
    OpenInode(fs, inode);
    OpenCount(fs, inode);
  }

  ghost function ReleasedAt(bits: seq<bool>, headers: map<nat, Header>, s: nat): seq<bool> {
    if s in headers then Released(bits, s, headers[s]) else bits
  }

  lemma ReleasedIs(bits: seq<bool>, headers: map<nat, Header>, inode: Inode)
    requires inode.sector in headers && headers[inode.sector] == HeaderOf(inode)
    ensures ReleasedAt(bits, headers, inode.sector) == Released(bits, inode.sector, HeaderOf(inode))
  {
  }

  /** dir_remove in the root directory. */
  method DirRemove(fs: FileSystem, dir: Dir, name: Name, memory: bool, mapMemory: Memory) returns (success: bool)
    requires Ready(fs) && IsRoot(fs, dir)
    modifies fs`openInodes, fs`bare, fs`live, fs`reserved, fs`life, fs.freeMap.bits, fs.disk
    modifies fs.openInodes`openCnt, fs.openInodes`removed
    ensures Ready(fs) && IsRoot(fs, dir) && fs.bare == old(fs.bare) && fs.reserved == old(fs.reserved)
    ensures success <==>
      name in old(FilesIn(fs)) && Opens(old(fs.life), old(FilesIn(fs))[name], memory) && dir.inode.denyWriteCnt == 0
    ensures FilesIn(fs) == if success then old(FilesIn(fs)) - {name} else old(FilesIn(fs))
    ensures if success then Drops(old(fs.life), old(FilesIn(fs))[name], fs.life) else fs.life == old(fs.life)
    ensures fs.freeMap.Bits() ==
      if success && old(FilesIn(fs))[name] !in old(fs.life.opens)
      then ReleasedAt(old(fs.freeMap.Bits()), fs.headers, old(FilesIn(fs))[name]) else old(fs.freeMap.Bits())
    ensures SameFiles(old(fs.disk.sectors), fs.disk.sectors, fs.headers, fs.live - {FREE_MAP_SECTOR, ROOT_DIR_SECTOR})
  {
    hide Bitmap.Bits, Bitmap.Valid;
    hide Ready, IsRoot, Moves, Drops, SameFiles, Released, ReleasedAt, Opens, Record, Binds, FilesIn, RemovesAndCloses;
    hide Count;
    ReadyFacts(fs);
    ghost var l, bits := fs.life, fs.freeMap.Bits();
    SameFilesRefl(fs.disk.sectors, fs.headers, fs.live - {FREE_MAP_SECTOR, ROOT_DIR_SECTOR});
    success := false;
    var inode, e, ofs, k := OpenEntry(fs, dir, name, memory);
    if inode != null {
      ghost var l1 := fs.life;
      FirstHandle(l, l1, inode.sector);
      HandleFacts(fs, inode);
      ReleasedIs(bits, fs.headers, inode);
      assert fs.freeMap.Bits() == bits;
      success := DropEntry(fs, dir, name, e, ofs, k, inode, mapMemory);
      if success {
        DropSteps(l, l1, fs.life, inode.sector);
      } else {
        OpenThenClose(l, l1, fs.life, inode.sector);
      }
    }
  }

  /** filesys_remove once the root directory is open: `mid` is the life before it is closed. */
  method RemoveAndClose(fs: FileSystem, dir: Dir, name: Name, memory: bool, mapMemory: Memory)
    returns (success: bool, ghost mid: Life)
    requires Ready(fs) && IsRoot(fs, dir)
    modifies fs`openInodes, fs`bare, fs`live, fs`reserved, fs`life, fs.freeMap.bits, fs.disk
    modifies fs.openInodes`openCnt, fs.openInodes`removed, dir.inode`openCnt
    ensures Ready(fs) && fs.bare == old(fs.bare) - multiset{dir.inode} && fs.reserved == old(fs.reserved)
    ensures success <==>
      name in old(FilesIn(fs)) && Opens(old(fs.life), old(FilesIn(fs))[name], memory) && dir.inode.denyWriteCnt == 0
    ensures FilesIn(fs) == if success then old(FilesIn(fs)) - {name} else old(FilesIn(fs))
    ensures if success then Drops(old(fs.life), old(FilesIn(fs))[name], mid) else mid == old(fs.life)
    ensures Moves(mid, Close(ROOT_DIR_SECTOR), fs.life)
    ensures fs.freeMap.Bits() ==
      if success && old(FilesIn(fs))[name] !in old(fs.life.opens)
      then ReleasedAt(old(fs.freeMap.Bits()), fs.headers, old(FilesIn(fs))[name]) else old(fs.freeMap.Bits())
    ensures SameFiles(old(fs.disk.sectors), fs.disk.sectors, fs.headers, fs.live - {FREE_MAP_SECTOR, ROOT_DIR_SECTOR})
  {
    hide Bitmap.Bits, Bitmap.Valid;
    hide Ready, IsRoot, Moves, Drops, SameFiles, ReleasedAt, FilesIn, Opens, RootBytes, RootOnDisk;
    hide FileSystem.MapStored;
    success := DirRemove(fs, dir, name, memory, mapMemory);
    mid := fs.life;
    DirClose(fs, dir);
  }

  /** filesys_remove: the name goes at once; the file's sectors go at once too if it is not open,
      and otherwise when its last handle is closed. */
  method FilesysRemove(fs: FileSystem, name: Name, dirMemory: DirMemory, memory: bool, mapMemory: Memory)
    returns (success: bool)
    requires Ready(fs)
    modifies fs`openInodes, fs`bare, fs`live, fs`reserved, fs`life, fs.freeMap.bits, fs.disk
    modifies fs.openInodes`openCnt, fs.openInodes`removed
    ensures Ready(fs) && fs.bare == old(fs.bare) && fs.reserved == old(fs.reserved)
    ensures success <==>
      && RootOpens(old(fs.life), dirMemory) && !old(RootDenied(fs))
      && name in old(FilesIn(fs)) && Opens(old(fs.life), old(FilesIn(fs))[name], memory)
    ensures FilesIn(fs) == if success then old(FilesIn(fs)) - {name} else old(FilesIn(fs))
    ensures if success then Drops(old(fs.life), old(FilesIn(fs))[name], fs.life) else fs.life == old(fs.life)
    ensures fs.freeMap.Bits() ==
      if success && old(FilesIn(fs))[name] !in old(fs.life.opens)
      then ReleasedAt(old(fs.freeMap.Bits()), fs.headers, old(FilesIn(fs))[name]) else old(fs.freeMap.Bits())
    ensures SameFiles(old(fs.disk.sectors), fs.disk.sectors, fs.headers, fs.live - {FREE_MAP_SECTOR, ROOT_DIR_SECTOR})
  {
    hide Bitmap.Bits, Bitmap.Valid, RootOpens;
    hide Ready, IsRoot, Moves, Drops, SameFiles, ReleasedAt, FilesIn, RootDenied, RootBytes, RootOnDisk;
    ghost var l0 := fs.life;
    SameFilesRefl(fs.disk.sectors, fs.headers, fs.live - {FREE_MAP_SECTOR, ROOT_DIR_SECTOR});
    OpenedFacts(fs, name);
    success := false;
    var root := DirOpenRoot(fs, dirMemory);
    if root != null {
      ghost var l1, l2 := fs.life, fs.life;
      OpensSame(l0, l1, ROOT_DIR_SECTOR);
      assert forall k :: 0 <= k < |fs.openInodes| ==> fs.openInodes[k] in old(fs.openInodes) || fresh(fs.openInodes[k]);
      success, l2 := RemoveAndClose(fs, root, name, memory, mapMemory);
      if success {
        DropAround(l0, l1, l2, fs.life, ROOT_DIR_SECTOR, old(FilesIn(fs))[name]);
      } else {
        OpenThenClose(l0, l1, fs.life, ROOT_DIR_SECTOR);
      }
    }
  }

  // ----- filesys_create

  /** The free map's allocation for the new inode's header. */
  method ReserveHeader(fs: FileSystem, dir: Dir, memory: bool) returns (sector: Option<nat>)
    requires Ready(fs) && IsRoot(fs, dir)
    modifies fs`reserved, fs.freeMap.bits, fs.disk
    ensures Ready(fs) && IsRoot(fs, dir) && RootBytes(fs) == old(RootBytes(fs))
    ensures sector.Some? <==> fs.MapWritable(memory) && !FirstGroup(old(fs.freeMap.Bits()), 0, 1, false, None)
    ensures sector.None? ==> fs.reserved == old(fs.reserved) && fs.freeMap.Bits() == old(fs.freeMap.Bits())
    ensures sector.Some? ==>
      && FirstGroup(old(fs.freeMap.Bits()), 0, 1, false, sector)
      && sector.value !in old(fs.reserved) && sector.value !in fs.live
      && fs.reserved == old(fs.reserved) + {sector.value}
      && sector.value < fs.freeMap.bitCnt && fs.freeMap.Bits() == Filled(old(fs.freeMap.Bits()), sector.value, 1, true)
    ensures SameFiles(old(fs.disk.sectors), fs.disk.sectors, fs.headers, fs.live - {FREE_MAP_SECTOR})
  {
    hide StoreOk, NamesSound, Unique, Content, View, SameFiles, FirstGroup, Filled;
    hide FileSystem.Valid, FileSystem.OnlyMap, FileSystem.MapStored, FileSystem.MapWritable;
    ghost var was := fs.disk.sectors;
    RootLive(fs);
    DiskSize(fs);
    sector := fs.Reserve(memory);
    DiskSize(fs);
    MapWritten(fs, was);
    assert Ready(fs);
    StillRoot(fs, dir);
  }

  /** inode_create, next to the root directory. */
  method CreateInode(fs: FileSystem, dir: Dir, sector: nat, length: nat, memory: bool, mapMemory: bool,
                     ghost name: Name)
    returns (success: bool)
    requires Ready(fs) && IsRoot(fs, dir) && sector in fs.reserved
    modifies fs`headers, fs`live, fs`reserved, fs`life, fs.freeMap.bits, fs.disk
    ensures Ready(fs) && IsRoot(fs, dir) && RootBytes(fs) == old(RootBytes(fs))
    ensures success <==>
      memory && fs.MapWritable(mapMemory) && !FirstGroup(old(fs.freeMap.Bits()), 0, BytesToSectors(length), false, None)
    ensures success ==>
      && fs.live == old(fs.live) + {sector} && fs.reserved == old(fs.reserved) - {sector}
      && Moves(old(fs.life), Create(sector), fs.life) && NamesSound(FilesIn(fs)[name := sector], fs.life)
      && sector in fs.headers && fs.headers == old(fs.headers)[sector := fs.headers[sector]]
      && EmptyFile(fs, sector, length) && fs.MapStored()
    ensures success ==>
      && FirstGroup(old(fs.freeMap.Bits()), 0, BytesToSectors(length), false, Some(fs.headers[sector].start))
      && fs.freeMap.Bits() == Filled(old(fs.freeMap.Bits()), fs.headers[sector].start, BytesToSectors(length), true)
    ensures !success ==>
      && fs.live == old(fs.live) && fs.reserved == old(fs.reserved) && fs.headers == old(fs.headers)
      && fs.life == old(fs.life) && fs.freeMap.Bits() == old(fs.freeMap.Bits())
    ensures SameFiles(old(fs.disk.sectors), fs.disk.sectors, old(fs.headers), old(fs.live) - {FREE_MAP_SECTOR})
  {
    hide StoreOk, NamesSound, Unique, Content, View, SameFiles, FirstGroup, Filled, Moves;
    hide FileSystem.Valid, FileSystem.OnlyMap, FileSystem.MapStored, FileSystem.MapWritable;
    ghost var was, names, l := fs.disk.sectors, FilesIn(fs), fs.life;
    RootLive(fs);
    ReservedFacts(fs, sector);
    success := fs.InodeCreate(sector, length, memory, mapMemory);
    DiskSize(fs);
    if success {
      CreateKeepsNames(names, l, sector, fs.life, name);
    } else {
      MapWritten(fs, was);
    }
    RootSame(fs, was, old(fs.headers), old(fs.live));
    assert Ready(fs);
    StillRoot(fs, dir);
  }

  /** The file with its header in that sector has `length` zeros. */
  ghost predicate EmptyFile(fs: FileSystem, sector: nat, length: nat)
    reads fs`headers, fs.disk
  {
    && sector in fs.headers && fs.headers[sector].length == length
    && OnDisk(fs.headers[sector].start, length, fs.disk.sectors)
    && Content(fs.disk.sectors, fs.headers[sector].start, length) == seq(length, _ => 0)
  }

  lemma ReservedFacts(fs: FileSystem, sector: nat)
    requires fs.Valid() && sector in fs.reserved
    ensures sector !in fs.live && sector < fs.freeMap.bitCnt && |fs.disk.sectors| == fs.freeMap.bitCnt
  {
  }

  lemma RootSame(fs: FileSystem, was: seq<Sector>, headers: map<nat, Header>, live: set<nat>)
    requires ROOT_DIR_SECTOR in live && ROOT_DIR_SECTOR in headers && ROOT_DIR_SECTOR in fs.headers
    requires fs.headers[ROOT_DIR_SECTOR] == headers[ROOT_DIR_SECTOR] && |was| == |fs.disk.sectors|
    requires OnDisk(headers[ROOT_DIR_SECTOR].start, headers[ROOT_DIR_SECTOR].length, was)
    requires SameFiles(was, fs.disk.sectors, headers, live - {FREE_MAP_SECTOR})
    ensures RootOnDisk(fs)
    ensures RootBytes(fs) == Content(was, headers[ROOT_DIR_SECTOR].start, headers[ROOT_DIR_SECTOR].length)
  {
  }

  /** dir_add in the root directory, for an inode without a name. */
  method AddName(fs: FileSystem, dir: Dir, name: Name, sector: nat, ghost length: nat) returns (success: bool)
    requires Ready(fs) && IsRoot(fs, dir) && 0 !in name && sector in fs.live && sector > ROOT_DIR_SECTOR
    requires NamesSound(FilesIn(fs)[name := sector], fs.life) && EmptyFile(fs, sector, length) && fs.MapStored()
    modifies fs.disk
    ensures Ready(fs) && IsRoot(fs, dir)
    ensures success <==>
      && NameOk(name) && name !in old(FilesIn(fs)) && dir.inode.denyWriteCnt == 0 && HasFree(old(RootBytes(fs)))
    ensures FilesIn(fs) == if success then old(FilesIn(fs))[name := sector] else old(FilesIn(fs))
    ensures EmptyFile(fs, sector, length) && fs.MapStored()
    ensures SameFiles(old(fs.disk.sectors), fs.disk.sectors, fs.headers, fs.live - {ROOT_DIR_SECTOR})
  {
    hide StoreOk, NamesSound, Unique, Content, View, SameFiles, HasFree;
    hide FileSystem.OpensOk, FileSystem.Tracks, FileSystem.OnlyMap;
    ghost var was := fs.disk.sectors;
    RootLive(fs);
    RootInode(fs, dir.inode);
    LiveOnDisk(fs, sector);
    MapHeader(fs);
    success := dir.Add(name, sector);
    RootWritten(fs, dir, was);
    FileSame(fs, was, sector);
    FileSame(fs, was, FREE_MAP_SECTOR);
  }

  lemma LiveOnDisk(fs: FileSystem, sector: nat)
    requires fs.Valid() && sector in fs.live
    ensures sector in fs.headers && sector < |fs.disk.sectors|
    ensures OnDisk(fs.headers[sector].start, fs.headers[sector].length, fs.disk.sectors)
  {
  }

  lemma MapHeader(fs: FileSystem)
    requires Ready(fs)
    ensures FREE_MAP_SECTOR in fs.live && FREE_MAP_SECTOR in fs.headers
    ensures fs.headers[FREE_MAP_SECTOR] == HeaderOf(fs.freeMapFile.inode)
    ensures OnDisk(fs.freeMapFile.inode.start, fs.freeMapFile.inode.length, fs.disk.sectors)
  {
    fs.MapOnDisk();
  }

  lemma FileSame(fs: FileSystem, was: seq<Sector>, s: nat)
    requires s in fs.live && s != ROOT_DIR_SECTOR && s in fs.headers && |was| == |fs.disk.sectors|
    requires OnDisk(fs.headers[s].start, fs.headers[s].length, was)
    requires SameFiles(was, fs.disk.sectors, fs.headers, fs.live - {ROOT_DIR_SECTOR})
    ensures Content(fs.disk.sectors, fs.headers[s].start, fs.headers[s].length)
         == Content(was, fs.headers[s].start, fs.headers[s].length)
  {
  }

  /** free_map_release of the header sector when filesys_create fails. */
  method Abandon(fs: FileSystem, dir: Dir, sector: nat, memory: bool)
    requires Ready(fs) && IsRoot(fs, dir) && (sector in fs.live || sector in fs.reserved)
    requires sector > ROOT_DIR_SECTOR && sector !in fs.life.opens
    requires NamesSound(FilesIn(fs), Without(fs.life, sector))
    modifies fs`live, fs`reserved, fs`life, fs.freeMap.bits, fs.disk
    ensures Ready(fs) && IsRoot(fs, dir) && FilesIn(fs) == old(FilesIn(fs))
    ensures fs.live == old(fs.live) - {sector} && fs.reserved == old(fs.reserved) - {sector}
    ensures fs.life == Without(old(fs.life), sector)
    ensures sector < fs.freeMap.bitCnt && fs.freeMap.Bits() == Filled(old(fs.freeMap.Bits()), sector, 1, false)
    ensures SameFiles(old(fs.disk.sectors), fs.disk.sectors, fs.headers, fs.live - {FREE_MAP_SECTOR})
    ensures fs.MapWritable(memory) ==> fs.MapStored()
  {
    hide StoreOk, NamesSound, Unique, Content, View, SameFiles, Filled, LifeOk;
    hide FileSystem.Valid, FileSystem.OnlyMap, FileSystem.MapStored, FileSystem.MapWritable;
    ghost var was := fs.disk.sectors;
    RootLive(fs);
    UsedFacts(fs, sector);
    fs.Unreserve(sector, memory);
    DiskSize(fs);
    assert fs.life == Without(old(fs.life), sector);
    MapWritten(fs, was);
    assert Ready(fs);
    StillRoot(fs, dir);
  }

  lemma UsedFacts(fs: FileSystem, sector: nat)
    requires fs.Valid() && (sector in fs.live || sector in fs.reserved)
    ensures sector < fs.freeMap.bitCnt && |fs.disk.sectors| == fs.freeMap.bitCnt
  {
  }

  ghost function Without(l: Life, s: nat): Life { l.(live := l.live - {s}) }

  /** The first free sector `h`, and the first `n` free sectors in a row, from `d` on, without it. */
  ghost predicate RoomAt(bits: seq<bool>, n: nat, h: nat, d: nat) {
    FirstGroup(bits, 0, 1, false, Some(h)) && FirstGroup(Filled(bits, h, 1, true), 0, n, false, Some(d))
  }

  ghost predicate HasRoom(bits: seq<bool>, n: nat) { exists h, d :: RoomAt(bits, n, h, d) }

  lemma FirstUnique(bits: seq<bool>, cnt: nat, a: Option<nat>, b: Option<nat>)
    requires FirstGroup(bits, 0, cnt, false, a) && FirstGroup(bits, 0, cnt, false, b)
    ensures a == b
  {
    if a.Some? && b.Some? {
      var x: int, y: int := a.value, b.value;
      assert !(x < y) && !(y < x);
    }
  }

  lemma NoRoom(bits: seq<bool>, n: nat, h: Option<nat>)
    requires FirstGroup(bits, 0, 1, false, h)
    requires h.Some? ==> FirstGroup(Filled(bits, h.value, 1, true), 0, n, false, None)
    ensures !HasRoom(bits, n)
  {
    forall x, d ensures !RoomAt(bits, n, x, d) {
      if RoomAt(bits, n, x, d) {
        FirstUnique(bits, 1, h, Some(x));
        FirstUnique(Filled(bits, x, 1, true), n, None, Some(d));
      }
    }
  }

  /** What is left marked when only the header sector is freed. */
  lemma LeftMarked(bits: seq<bool>, n: nat, h: nat, d: nat)
    requires RoomAt(bits, n, h, d)
    ensures h < |bits| && d + n <= |bits| && !bits[h]
    ensures Filled(Filled(bits, h, 1, true), h, 1, false) == bits
    ensures Filled(Filled(Filled(bits, h, 1, true), d, n, true), h, 1, false) == Filled(bits, d, n, true)
    ensures Filled(bits, d, n, true) == bits <==> n == 0
  {
    var m := Filled(bits, h, 1, true);
    assert !bits[h] && m[h] && AllAre(m, d, n, false);
    assert !(d <= h < d + n);
    if n > 0 {
      assert !m[d] && Filled(bits, d, n, true)[d] && !bits[d];
    }
  }

  /** Memory for a new inode, and in the writes of the free map for its header, its data and on failure. */
  datatype CreateMemory = CreateMemory(header: bool, inode: bool, data: bool, release: bool)

  /** Whether filesys_create comes to dir_add for a file of `n` sectors. */
  ghost predicate Reaches(fs: FileSystem, n: nat, memory: CreateMemory)
    requires fs.freeMap.Valid()
    reads fs`freeMapFile, fs.freeMap, fs.freeMap.bits, if fs.freeMapFile == null then {} else {fs.freeMapFile.inode}
  {
    && memory.inode && fs.MapWritable(memory.header) && fs.MapWritable(memory.data)
    && HasRoom(fs.freeMap.Bits(), n)
  }

  lemma CreateFacts(fs: FileSystem)
    requires Ready(fs)
    ensures RootOnDisk(fs) && fs.freeMap.Valid() && NamesSound(FilesIn(fs), fs.life)
    ensures |fs.disk.sectors| == fs.freeMap.bitCnt && fs.life.live == fs.live
    ensures forall s :: s in fs.live ==> s in fs.headers
    ensures FREE_MAP_SECTOR in fs.live && ROOT_DIR_SECTOR in fs.live && fs.life.opens.Keys <= fs.live
    ensures forall s :: s in fs.reserved ==> s !in fs.live
  {
  }

  lemma CreatedLife(l: Life, s: nat, l': Life)
    requires Moves(l, Create(s), l')
    ensures Without(l', s) == l && l'.opens == l.opens
  {
  }

  /** filesys_create up to dir_add: a header sector, if there is one, and in it an inode without a
      name, if that can be created. */
  method NewInode(fs: FileSystem, dir: Dir, ghost name: Name, length: nat, memory: CreateMemory)
    returns (sector: Option<nat>, created: bool, ghost start: nat)
    requires Ready(fs) && IsRoot(fs, dir)
    modifies fs`headers, fs`live, fs`reserved, fs`life, fs.freeMap.bits, fs.disk
    ensures Ready(fs) && IsRoot(fs, dir) && RootBytes(fs) == old(RootBytes(fs))
    ensures FilesIn(fs) == old(FilesIn(fs))
    ensures created <==> old(Reaches(fs, BytesToSectors(length), memory))
    ensures sector.Some? ==>
      sector.value > ROOT_DIR_SECTOR && sector.value !in old(fs.live) && sector.value !in old(fs.reserved)
    ensures sector.Some? ==> sector.value < fs.freeMap.bitCnt && !old(fs.freeMap.Bits())[sector.value]
    ensures created ==>
      && sector.Some? && RoomAt(old(fs.freeMap.Bits()), BytesToSectors(length), sector.value, start)
      && fs.live == old(fs.live) + {sector.value} && fs.reserved == old(fs.reserved)
      && Moves(old(fs.life), Create(sector.value), fs.life)
      && NamesSound(FilesIn(fs)[name := sector.value], fs.life)
      && fs.headers == old(fs.headers)[sector.value := Header(start, length)]
      && EmptyFile(fs, sector.value, length) && fs.MapStored()
      && fs.freeMap.Bits()
        == Filled(Filled(old(fs.freeMap.Bits()), sector.value, 1, true), start, BytesToSectors(length), true)
    ensures !created ==> fs.life == old(fs.life) && fs.live == old(fs.live) && fs.headers == old(fs.headers)
    ensures !created ==> fs.reserved == old(fs.reserved) + if sector.Some? then {sector.value} else {}
    ensures sector.None? ==> fs.freeMap.Bits() == old(fs.freeMap.Bits())
    ensures sector.Some? && !created ==> fs.freeMap.Bits() == Filled(old(fs.freeMap.Bits()), sector.value, 1, true)
    ensures SameFiles(old(fs.disk.sectors), fs.disk.sectors, old(fs.headers), old(fs.live) - {FREE_MAP_SECTOR})
  {
    hide Ready, IsRoot, Moves, SameFiles, FirstGroup, Filled, NamesSound, HasRoom, RootOnDisk, RootBytes;
    hide FileSystem.MapWritable, FileSystem.MapStored;
    CreateFacts(fs);
    ghost var bits, was, headers, live := fs.freeMap.Bits(), fs.disk.sectors, fs.headers, fs.live;
    ghost var n, l := BytesToSectors(length), fs.life;
    created, start := false, 0;
    sector := ReserveHeader(fs, dir, memory.header);
    CreateFacts(fs);
    if sector.None? {
      if fs.MapWritable(memory.header) {
        NoRoom(bits, n, None);
      }
      return;
    }
    FirstIsFree(bits, sector.value);
    ghost var mid := fs.disk.sectors;
    created := CreateInode(fs, dir, sector.value, length, memory.inode, memory.data, name);
    CreateFacts(fs);
    SameFilesJoin(was, mid, fs.disk.sectors, headers, live - {FREE_MAP_SECTOR}, live - {FREE_MAP_SECTOR},
                  live - {FREE_MAP_SECTOR});
    if created {
      start := fs.headers[sector.value].start;
      assert RoomAt(bits, n, sector.value, start);
      RoomThere(bits, n, sector.value, start);
    } else if memory.inode && fs.MapWritable(memory.data) {
      NoRoom(bits, n, sector);
    }
  }

  lemma FirstIsFree(bits: seq<bool>, h: nat)
    requires FirstGroup(bits, 0, 1, false, Some(h))
    ensures h < |bits| && !bits[h]
  {
  }

  lemma RoomThere(bits: seq<bool>, n: nat, h: nat, d: nat)
    requires RoomAt(bits, n, h, d)
    ensures HasRoom(bits, n)
  {
  }

  /** The free map when filesys_create returns: on success with the header's and the data's sectors;
      when only dir_add fails, with the data's; else as it was. */
  ghost function MapAfter(bits: seq<bool>, n: nat, reached: bool, success: bool, h: nat, d: nat): seq<bool>
    requires reached ==> RoomAt(bits, n, h, d)
  {
    if !reached then bits
    else if success then Filled(Filled(bits, h, 1, true), d, n, true)
    else Filled(bits, d, n, true)
  }

  /** So a failing filesys_create leaves the free map as it was, unless it comes to dir_add for a
      file with data: then the data's sectors stay marked and are no inode's. */
  lemma FailureLeaksIff(bits: seq<bool>, length: nat, reached: bool, h: nat, d: nat)
    requires reached ==> RoomAt(bits, BytesToSectors(length), h, d)
    ensures MapAfter(bits, BytesToSectors(length), reached, false, h, d) == bits <==> !reached || length == 0
  {
    if reached {
      LeftMarked(bits, BytesToSectors(length), h, d);
    }
  }

  /** filesys_create with the root directory open. */
  method CreateIn(fs: FileSystem, dir: Dir, name: Name, length: nat, memory: CreateMemory)
    returns (success: bool, ghost sector: nat, ghost start: nat)
    requires Ready(fs) && IsRoot(fs, dir) && 0 !in name
    modifies fs`headers, fs`live, fs`reserved, fs`life, fs.freeMap.bits, fs.disk
    ensures Ready(fs) && IsRoot(fs, dir) && fs.reserved == old(fs.reserved)
    ensures success <==>
      && old(Reaches(fs, BytesToSectors(length), memory))
      && NameOk(name) && name !in old(FilesIn(fs)) && dir.inode.denyWriteCnt == 0 && HasFree(old(RootBytes(fs)))
    ensures old(Reaches(fs, BytesToSectors(length), memory)) ==>
      RoomAt(old(fs.freeMap.Bits()), BytesToSectors(length), sector, start)
    ensures fs.freeMap.Bits() == MapAfter(old(fs.freeMap.Bits()), BytesToSectors(length),
                                          old(Reaches(fs, BytesToSectors(length), memory)), success, sector, start)
    ensures FilesIn(fs) == if success then old(FilesIn(fs))[name := sector] else old(FilesIn(fs))
    ensures if success then Moves(old(fs.life), Create(sector), fs.life) else fs.life == old(fs.life)
    ensures success ==>
      && sector > ROOT_DIR_SECTOR && EmptyFile(fs, sector, length) && fs.headers[sector].start == start
      && fs.MapStored()
    ensures forall s :: s in old(fs.live) ==>
      s in old(fs.headers) && s in fs.headers && fs.headers[s] == old(fs.headers)[s]
    ensures SameFiles(old(fs.disk.sectors), fs.disk.sectors, old(fs.headers),
                      old(fs.live) - {FREE_MAP_SECTOR, ROOT_DIR_SECTOR})
  {
    hide Ready, IsRoot, Moves, SameFiles, FirstGroup, Filled, NamesSound, HasRoom, RootOnDisk, FilesIn, Reaches, RoomAt;
    hide FileSystem.MapWritable, FileSystem.MapStored, NameOk, HasFree, RootBytes, Content;
    CreateFacts(fs);
    ghost var bits, was, headers, live := fs.freeMap.Bits(), fs.disk.sectors, fs.headers, fs.live;
    ghost var n, l, others := BytesToSectors(length), fs.life, fs.live - {FREE_MAP_SECTOR, ROOT_DIR_SECTOR};
    success := false;
    var inodeSector, created;
    inodeSector, created, start := NewInode(fs, dir, name, length, memory);
    sector := if inodeSector.Some? then inodeSector.value else 0;
    ghost var mid, headers1 := fs.disk.sectors, fs.headers;
    CreateFacts(fs);
    SameFilesPart(was, mid, headers, live - {FREE_MAP_SECTOR}, others);
    if created {
      LeftMarked(bits, n, sector, start);
      CreatedLife(l, sector, fs.life);
      success := AddName(fs, dir, name, inodeSector.value, length);
      CreateFacts(fs);
      SameFilesOther(mid, fs.disk.sectors, headers1, headers, fs.live - {ROOT_DIR_SECTOR}, others);
      SameFilesJoin(was, mid, fs.disk.sectors, headers, others, others, others);
    }
    ghost var late := fs.disk.sectors;
    if !success && inodeSector.Some? && inodeSector.value != 0 {
      if !created {
        SetAndCleared(bits, sector);
        assert fs.life.live - {sector} == fs.life.live;
      }
      Abandon(fs, dir, inodeSector.value, memory.release);
      CreateFacts(fs);
      SameFilesOther(late, fs.disk.sectors, headers1, headers, fs.live - {FREE_MAP_SECTOR}, others);
      SameFilesJoin(was, late, fs.disk.sectors, headers, others, others, others);
    }
  }

  lemma SetAndCleared(bits: seq<bool>, s: nat)
    requires s < |bits| && !bits[s]
    ensures Filled(Filled(bits, s, 1, true), s, 1, false) == bits
  {
  }

  lemma SameFilesPart(was: seq<Sector>, now: seq<Sector>, headers: map<nat, Header>, a: set<nat>, b: set<nat>)
    requires SameFiles(was, now, headers, a) && b <= a
    ensures SameFiles(was, now, headers, b)
  {
    hide Content;
  }

  lemma SameFilesOther(was: seq<Sector>, now: seq<Sector>, headers: map<nat, Header>, headers': map<nat, Header>,
                       a: set<nat>, b: set<nat>)
    requires SameFiles(was, now, headers, a) && b <= a
    requires forall s :: s in b ==> s in headers && s in headers' && headers[s] == headers'[s]
    ensures SameFiles(was, now, headers', b)
  {
    hide Content;
  }

  /** filesys_create once the root directory is open: `mid` is the life before it is closed. */
  method CreateAndClose(fs: FileSystem, dir: Dir, name: Name, length: nat, memory: CreateMemory)
    returns (success: bool, ghost sector: nat, ghost start: nat, ghost mid: Life)
    requires Ready(fs) && IsRoot(fs, dir) && 0 !in name
    modifies fs`headers, fs`openInodes, fs`bare, fs`live, fs`reserved, fs`life, fs.freeMap.bits, fs.disk
    modifies dir.inode`openCnt
    ensures Ready(fs) && fs.reserved == old(fs.reserved) && fs.bare == old(fs.bare) - multiset{dir.inode}
    ensures forall i :: i in fs.openInodes ==> i in old(fs.openInodes)
    ensures success <==>
      && old(Reaches(fs, BytesToSectors(length), memory))
      && NameOk(name) && name !in old(FilesIn(fs)) && dir.inode.denyWriteCnt == 0 && HasFree(old(RootBytes(fs)))
    ensures old(Reaches(fs, BytesToSectors(length), memory)) ==>
      RoomAt(old(fs.freeMap.Bits()), BytesToSectors(length), sector, start)
    ensures fs.freeMap.Bits() == MapAfter(old(fs.freeMap.Bits()), BytesToSectors(length),
                                          old(Reaches(fs, BytesToSectors(length), memory)), success, sector, start)
    ensures FilesIn(fs) == if success then old(FilesIn(fs))[name := sector] else old(FilesIn(fs))
    ensures if success then Moves(old(fs.life), Create(sector), mid) else mid == old(fs.life)
    ensures Moves(mid, Close(ROOT_DIR_SECTOR), fs.life)
    ensures success ==>
      && sector > ROOT_DIR_SECTOR && EmptyFile(fs, sector, length) && fs.headers[sector].start == start
      && fs.MapStored()
    ensures forall s :: s in old(fs.live) ==>
      s in old(fs.headers) && s in fs.headers && fs.headers[s] == old(fs.headers)[s]
    ensures SameFiles(old(fs.disk.sectors), fs.disk.sectors, old(fs.headers),
                      old(fs.live) - {FREE_MAP_SECTOR, ROOT_DIR_SECTOR})
  {
    hide Bitmap.Bits, Bitmap.Valid;
    hide Ready, IsRoot, Moves, SameFiles, Filled, HasRoom, RootOnDisk, FilesIn, RootBytes, RoomAt, HasFree, MapAfter;
    hide FileSystem.MapStored, Content, NameOk, Reaches;
    success, sector, start := CreateIn(fs, dir, name, length, memory);
    mid := fs.life;
    DirClose(fs, dir);
  }

  /** filesys_create: succeeds exactly when the root directory can be opened and written and has a
      free record, the name is valid and new, and there are room and memory for the file. */
  method FilesysCreate(fs: FileSystem, name: Name, length: nat, dirMemory: DirMemory, memory: CreateMemory)
    returns (success: bool, ghost reached: bool, ghost sector: nat, ghost start: nat, ghost n: nat)
    requires Ready(fs) && 0 !in name
    modifies fs`headers, fs`openInodes, fs`bare, fs`live, fs`reserved, fs`life, fs.freeMap.bits, fs.disk
    modifies fs.openInodes`openCnt
    ensures Ready(fs) && fs.reserved == old(fs.reserved) && fs.bare == old(fs.bare)
    ensures forall i :: i in fs.openInodes ==> i in old(fs.openInodes) || fresh(i)
    ensures FewestSectors(n, length)
    ensures reached <==>
      RootOpens(old(fs.life), dirMemory) && old(Reaches(fs, n, memory))
    ensures success <==>
      && reached && 1 <= |name| <= 14 && name !in old(FilesIn(fs))
      && !old(RootDenied(fs)) && HasFree(old(RootBytes(fs)))
    ensures reached ==> RoomAt(old(fs.freeMap.Bits()), n, sector, start)
    ensures fs.freeMap.Bits()
      == MapAfter(old(fs.freeMap.Bits()), n, reached, success, sector, start)
    ensures FilesIn(fs) == if success then old(FilesIn(fs))[name := sector] else old(FilesIn(fs))
    ensures if success then Moves(old(fs.life), Create(sector), fs.life) else fs.life == old(fs.life)
    ensures success ==>
      && sector > ROOT_DIR_SECTOR && EmptyFile(fs, sector, length) && fs.headers[sector].start == start
      && fs.MapStored()
    ensures forall s :: s in old(fs.live) ==>
      s in old(fs.headers) && s in fs.headers && fs.headers[s] == old(fs.headers)[s]
    ensures SameFiles(old(fs.disk.sectors), fs.disk.sectors, old(fs.headers),
                      old(fs.live) - {FREE_MAP_SECTOR, ROOT_DIR_SECTOR})
  {
    hide Bitmap.Bits, Bitmap.Valid, RootOpens;
    hide Ready, IsRoot, Moves, SameFiles, Filled, HasRoom, RootOnDisk, FilesIn, RootBytes, RoomAt, HasFree, RootDenied;
    hide FileSystem.MapStored, Content, EmptyFile;
    ghost var l0 := fs.life;
    CreateFacts(fs);
    OpenedFacts(fs, name);
    SameFilesRefl(fs.disk.sectors, fs.headers, fs.live - {FREE_MAP_SECTOR, ROOT_DIR_SECTOR});
    success, reached, sector, start, n := false, false, 0, 0, BytesToSectors(length);
    SectorsFewest(length);
    hide BytesToSectors, FewestSectors;
    var root := DirOpenRoot(fs, dirMemory);
    ghost var l1 := fs.life;
    if root != null {
      reached := Reaches(fs, BytesToSectors(length), memory);
      ghost var l2;
      success, sector, start, l2 := CreateAndClose(fs, root, name, length, memory);
      if success {
        OpenAround(l0, l1, Create(sector), l2, fs.life, ROOT_DIR_SECTOR);
      } else {
        OpenThenClose(l0, l1, fs.life, ROOT_DIR_SECTOR);
      }
    }
  }

  // ----- do_format

  const ROOT_ENTRIES: nat := 16

  /** The first `t` of `n` sectors in use. */
  ghost function Prefix(n: nat, t: nat): (bits: seq<bool>)
    ensures |bits| == n
  {
    seq(n, i => i < t)
  }

  lemma FirstInPrefix(n: nat, t: nat, cnt: nat, found: Option<nat>)
    requires cnt > 0 && FirstGroup(Prefix(n, t), 0, cnt, false, found)
    ensures found == if t + cnt <= n then Some(t) else None
    ensures found.Some? ==> Filled(Prefix(n, t), t, cnt, true) == Prefix(n, t + cnt)
  {
    var bits := Prefix(n, t);
    if found.Some? {
      assert !bits[found.value];
      assert found.value > t ==> !AllAre(bits, t, cnt, false);
    } else {
      assert t + cnt <= n ==> AllAre(bits, t, cnt, false);
    }
  }

  lemma PrefixFits(n: nat, t: nat, cnt: nat)
    requires cnt > 0
    ensures FirstGroup(Prefix(n, t), 0, cnt, false, None) <==> t + cnt > n
  {
    if FirstGroup(Prefix(n, t), 0, cnt, false, None) {
      FirstInPrefix(n, t, cnt, None);
    } else {
      var i: int :| 0 <= i && i + cnt <= n && AllAre(Prefix(n, t), i, cnt, false);
      assert !Prefix(n, t)[i];
    }
  }

  /** `m` sectors are the fewest with a bit for each of `n` sectors. */
  predicate MapSectors(m: nat, n: nat) { 4096 * (m - 1) < n <= 4096 * m }

  /** Two headers, a bit for each sector, and one sector for the root directory. */
  lemma FormattedIs(n: nat, m: nat)
    requires MapSectors(m, n)
    ensures Formatted(n) == 3 + m
  {
    var w := ElemCnt(n);
    assert 32 * (w - 1) < n <= 32 * w;
    WordsOf(n, m, w);
    assert FewestSectors(1, ROOT_ENTRIES * ENTRY_SIZE);
    assert Formatted(n) == 2 + BytesToSectors(4 * w) + BytesToSectors(ROOT_ENTRIES * ENTRY_SIZE);
    hide *;
    SectorsFewest(4 * w);
    SectorsFewest(ROOT_ENTRIES * ENTRY_SIZE);
  }

  lemma WordsOf(n: nat, m: nat, w: nat)
    requires MapSectors(m, n) && 32 * (w - 1) < n <= 32 * w
    ensures FewestSectors(m, 4 * w)
  {
    assert 32 * (w - 1) < 32 * (128 * m) && 32 * (128 * (m - 1)) < 32 * w;
  }

  lemma FormattedAlways(n: nat)
    ensures BytesToSectors(ROOT_ENTRIES * ENTRY_SIZE) == 1
    ensures forall m: nat :: MapSectors(m, n) ==> 2 + BytesToSectors(FileSize(n)) + 1 == 3 + m
  {
    forall m: nat | MapSectors(m, n) ensures 2 + BytesToSectors(FileSize(n)) + 1 == 3 + m {
      FormattedIs(n, m);
    }
  }

  /** The sectors of a formatted device that are in use: the two headers, the map, the directory. */
  function Formatted(n: nat): nat { 2 + BytesToSectors(FileSize(n)) + BytesToSectors(ROOT_ENTRIES * ENTRY_SIZE) }

  /** filesys_init and free_map_create, null for a panic. */
  method FormatMap(disk: Disk, memory: MapCreateMemory) returns (fs: FileSystem?)
    requires ROOT_DIR_SECTOR < |disk.sectors|
    modifies disk
    ensures |disk.sectors| == |old(disk.sectors)|
    ensures fs != null ==>
      && fresh(fs) && fresh(fs.freeMap) && fresh(fs.freeMap.bits) && fs.disk == disk && fs.Valid()
      && fs.freeMapFile != null && fs.freeMapFile.inode.denyWriteCnt == 0 && fs.MapStored()
      && fs.live == {FREE_MAP_SECTOR} && fs.reserved == {ROOT_DIR_SECTOR} && fs.life.removed == {}
      && fs.life.opens.Keys == {FREE_MAP_SECTOR} && forall i :: i in fs.openInodes ==> fresh(i)
    ensures var n := |disk.sectors|;
      && (fs != null <==>
            && memory.create && memory.inode && memory.file && WritesMap(n, memory.write)
            && 2 + BytesToSectors(FileSize(n)) <= n)
      && (fs != null ==> fs.freeMap.Bits() == Prefix(n, 2 + BytesToSectors(FileSize(n))))
  {
    hide StoreOk, FirstGroup, Filled, FileSystem.OpensOk, FileSystem.MapStored, Shows, Entries, Content;
    ghost var n, m := |disk.sectors|, BytesToSectors(FileSize(|disk.sectors|));
    fs := new FileSystem(disk);
    assert fs.freeMap.Bits() == Prefix(n, 2);
    PrefixFits(n, 2, m);
    var ok := fs.FreeMapCreate(memory);
    if !ok {
      return null;
    }
    FirstInPrefix(n, 2, m, Some(fs.freeMapFile.inode.start));
  }

  /** filesys_init and do_format on a device, null for a panic: an empty root directory with room,
      and the rest of the device free. */
  method Format(disk: Disk, mapMemory: MapCreateMemory, dirMemory: bool, writeMemory: bool) returns (fs: FileSystem?)
    requires ROOT_DIR_SECTOR < |disk.sectors| <= 0x1_0000_0000
    modifies disk
    ensures fs != null ==>
      && fresh(fs) && fresh(fs.freeMap.bits) && (forall i :: i in fs.openInodes ==> fresh(i))
      && fs.disk == disk && Ready(fs) && FilesIn(fs) == map[] && HasFree(RootBytes(fs)) && fs.MapStored()
      && fs.reserved == {} && fs.live == {0, 1} && !RootDenied(fs)
      && Slots(RootBytes(fs)) == 16 && fs.freeMapFile.inode.sector == 0
      && 1 in fs.headers && fs.headers[1].length == 320
    ensures var n := |old(disk.sectors)|; forall m: nat :: MapSectors(m, n) ==>
      && (fs != null <==>
            && mapMemory.create && mapMemory.inode && mapMemory.file && dirMemory
            && WritesMap(n, mapMemory.write) && WritesMap(n, writeMemory) && 3 + m <= n)
      && (fs != null ==> fs.freeMap.Bits() == Prefix(n, 3 + m))
    ensures fs != null ==> fs.freeMapFile.inode.denyWriteCnt == 0
  {
    hide StoreOk, FirstGroup, Filled, SameFiles, Unique, View, HasFree, Prefix, Shows, Entries, FilesIn, Slots;
    hide FileSystem.OpensOk, FileSystem.MapStored, FileSystem.OnlyMap;
    ghost var n, m := |disk.sectors|, BytesToSectors(FileSize(|disk.sectors|));
    FormattedAlways(n);
    hide MapSectors, BytesToSectors, FileSize;
    fs := FormatMap(disk, mapMemory);
    if fs == null {
      return;
    }
    PrefixFits(n, 2 + m, 1);
    var ok := fs.InodeCreate(ROOT_DIR_SECTOR, ROOT_ENTRIES * ENTRY_SIZE, dirMemory, writeMemory);
    if !ok {
      return null;
    }
    FirstInPrefix(n, 2 + m, 1, Some(fs.headers[ROOT_DIR_SECTOR].start));
    assert RootBytes(fs) == seq(ROOT_ENTRIES * ENTRY_SIZE, _ => 0);
    EmptyRoot(fs);
    RootNotOpen(fs);
  }

  lemma EmptyRoot(fs: FileSystem)
    requires RootOnDisk(fs) && RootBytes(fs) == seq(ROOT_ENTRIES * ENTRY_SIZE, _ => 0)
    ensures Unique(RootBytes(fs)) && FilesIn(fs) == map[]
    ensures HasFree(RootBytes(fs)) && Slots(RootBytes(fs)) == 16
  {
    ZerosAreEmpty(ROOT_ENTRIES * ENTRY_SIZE);
    hide Unique, View, HasFree, RootBytes;
  }

  lemma RootNotOpen(fs: FileSystem)
    requires fs.Valid() && ROOT_DIR_SECTOR !in fs.life.opens
    ensures !RootDenied(fs)
  {
    hide StoreOk, Shows, Entries;
    forall i | i in fs.openInodes ensures i.sector != ROOT_DIR_SECTOR {
      fs.NotRemoved(i);
    }
  }

  // ----- A leak

  lemma PrefixFirst(n: nat, t: nat, cnt: nat)
    requires cnt > 0 && t + cnt <= n
    ensures FirstGroup(Prefix(n, t), 0, cnt, false, Some(t))
  {
    var bits := Prefix(n, t);
    forall j | 0 <= j < t ensures !AllAre(bits, j, cnt, false) {
      assert bits[j];
    }
  }

  lemma PrefixRoom(n: nat, t: nat, cnt: nat)
    requires cnt > 0 && t + 1 + cnt <= n
    ensures HasRoom(Prefix(n, t), cnt)
    ensures forall h, d :: RoomAt(Prefix(n, t), cnt, h, d) ==> h == t && d == t + 1
    ensures Filled(Filled(Prefix(n, t), t, 1, true), t + 1, cnt, true) == Prefix(n, t + 1 + cnt)
  {
    var bits := Prefix(n, t);
    assert Filled(bits, t, 1, true) == Prefix(n, t + 1);
    PrefixFirst(n, t, 1);
    PrefixFirst(n, t + 1, cnt);
    assert RoomAt(bits, cnt, t, t + 1);
    forall h, d | RoomAt(bits, cnt, h, d) ensures h == t && d == t + 1 {
      FirstInPrefix(n, t, 1, Some(h));
      FirstInPrefix(n, t + 1, cnt, Some(d));
    }
  }

  lemma OwnedInUse(fs: FileSystem, t: nat)
    requires Ready(fs) && t <= fs.freeMap.bitCnt && fs.freeMap.Valid()
    requires fs.freeMap.Bits() == Prefix(fs.freeMap.bitCnt, t)
    ensures forall s, sector: nat :: s in fs.live && Owns(fs.headers, s, sector) ==> sector < t
  {
  }

  lemma OwnedSame(headers: map<nat, Header>, headers': map<nat, Header>, live: set<nat>, t: nat)
    requires forall s :: s in live ==> s in headers && s in headers' && headers'[s] == headers[s]
    requires forall s, sector: nat :: s in live && Owns(headers, s, sector) ==> sector < t
    ensures forall s, sector: nat :: s in live && Owns(headers', s, sector) ==> sector < t
  {
    forall s, sector: nat | s in live && Owns(headers', s, sector) ensures sector < t {
      assert Owns(headers, s, sector);
    }
  }

  /** Creating a file twice on a fresh device: the second call fails, frees the header sector that it
      took, and leaves as many sectors marked as the file has data, which no inode owns. */
  method CreateTwice(disk: Disk, name: Name, length: nat, ghost k: nat, ghost m: nat)
    returns (fs: FileSystem, first: bool, second: bool)
    requires ROOT_DIR_SECTOR < |disk.sectors| <= 0x1_0000_0000 && 1 <= |name| <= 14 && 0 !in name && length > 0
    requires MapSectors(k, |disk.sectors|) && FewestSectors(m, length)
    requires 3 + k + 2 * (1 + m) <= |disk.sectors|
    modifies disk
    ensures Ready(fs) && name in FilesIn(fs) && first && !second
    ensures var n, t := |old(disk.sectors)|, 3 + k + 1 + m;
      && fs.freeMap.Bits() == Filled(Prefix(n, t), t + 1, m, true)
      && forall s, sector: nat :: s in fs.live && Owns(fs.headers, s, sector) ==> sector < t
  {
    hide Ready, Moves, SameFiles, Filled, HasRoom, RoomAt, RootOnDisk, FilesIn, RootBytes, HasFree, RootDenied, Prefix;
    hide FileSystem.MapStored, Content, EmptyFile, Owns;
    ghost var n, t := |disk.sectors|, 3 + k;
    SectorsFewest(length);
    var made := Format(disk, MapCreateMemory(true, true, true, true), true, true);
    fs := made;
    var memory := CreateMemory(true, true, true, true);
    PrefixRoom(n, t, m);
    ReadyFacts(fs);
    forall k | 0 <= k < |fs.openInodes| ensures fresh(fs.openInodes[k]) {
      assert fs.openInodes[k] in fs.openInodes;
    }
    ghost var reached, h, d, l;
    first, reached, h, d, l := FilesysCreate(fs, name, length, DirMemory(true, true), memory);
    ReadyFacts(fs);
    PrefixRoom(n, t + 1 + m, m);
    OwnedInUse(fs, t + 1 + m);
    CreateFacts(fs);
    ghost var headers := fs.headers;
    forall k | 0 <= k < |fs.openInodes| ensures fresh(fs.openInodes[k]) {
      assert fs.openInodes[k] in fs.openInodes;
    }
    second, reached, h, d, l := FilesysCreate(fs, name, length, DirMemory(true, true), memory);
    ReadyFacts(fs);
    OwnedSame(headers, fs.headers, fs.live, t + 1 + m);
  }
}
