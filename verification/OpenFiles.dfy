/**
 The calls on opened files (filesys/file.c) between the calls by name: each keeps the file
 system ready for both.
 */
module OpenFiles {
  import opened Bitmap
  import opened InodeIO
  import opened InodeLives
  import opened Directory
  import opened FileSystem
  import opened Filesys

  /** What filesys_open and file_reopen give: a file that is neither the free map's nor the root
      directory's. */
  ghost predicate Opened(fs: FileSystem, file: File)
    reads fs`files, fs`freeMapFile
  {
    file in fs.files && file != fs.freeMapFile && file.inode.sector > ROOT_DIR_SECTOR
  }

  lemma FileFacts(fs: FileSystem, file: File)
    requires Ready(fs) && Opened(fs, file)
    ensures RootOnDisk(fs) && fs.life.live == fs.live && LifeOk(fs.life) && NamesSound(FilesIn(fs), fs.life)
    ensures file.inode in fs.openInodes && file.inode.sector in fs.live && ROOT_DIR_SECTOR in fs.live
    ensures file.inode.sector in fs.headers && fs.headers[file.inode.sector] == HeaderOf(file.inode)
    ensures OnDisk(file.inode.start, file.inode.length, fs.disk.sectors)
    ensures file.inode.removed <==> file.inode.sector in fs.life.removed
  {
    hide StoreOk, Shows, Entries, Content;
    fs.NotRemoved(file.inode);
    LiveOnDisk(fs, file.inode.sector);
  }

  /** What a write to one file's extent alone keeps. */
  lemma OthersSame(fs: FileSystem, inode: Inode, was: seq<Sector>)
    requires fs.Valid() && inode in fs.openInodes && SameBeyond(inode, was, fs.disk.sectors)
    ensures SameFiles(was, fs.disk.sectors, fs.headers, fs.live - {inode.sector})
  {
    hide Content, Shows, Entries;
    forall s |
      s in fs.live - {inode.sector} && s in fs.headers && OnDisk(fs.headers[s].start, fs.headers[s].length, was)
      ensures Content(fs.disk.sectors, fs.headers[s].start, fs.headers[s].length)
           == Content(was, fs.headers[s].start, fs.headers[s].length)
    {
      ExtentsApart(fs.freeMap.Bits(), fs.headers, fs.live, fs.reserved, s, inode.sector);
      if fs.headers[s].length > 0 && inode.length > 0 {
        BeyondOtherFile(inode, was, fs.disk.sectors, fs.headers[s].start, fs.headers[s].length);
      } else if fs.headers[s].length > 0 {
        assert was == fs.disk.sectors;
      }
    }
  }

  /** The file's bytes. */
  ghost function FileBytes(fs: FileSystem, file: File): (bytes: seq<Byte>)
    requires Ready(fs) && Opened(fs, file)
    reads fs, fs.freeMap, fs.freeMap.bits, fs.openInodes, fs.files, fs.disk
    ensures |bytes| == file.inode.length
  {
    FileFacts(fs, file);
    Bytes(fs.disk, file.inode)
  }

  method Seek(fs: FileSystem, file: File, pos: nat)
    requires fs.Valid() && file in fs.files
    modifies file`pos
    ensures fs.Valid() && file.pos == pos
  {
    hide StoreOk, Shows, Entries;
    file.pos := pos;
    assert forall i :: i in fs.openInodes ==> Denying(fs.files, i) == old(Denying(fs.files, i));
  }

  /** The file's position moves on. */
  method Advance(fs: FileSystem, file: File, n: nat)
    requires Ready(fs) && Opened(fs, file)
    modifies file`pos
    ensures Ready(fs) && FilesIn(fs) == old(FilesIn(fs)) && file.pos == old(file.pos) + n
    ensures FileBytes(fs, file) == old(FileBytes(fs, file))
  {
    hide Content, FileSystem.Valid, Unique, View, NamesSound;
    FileFacts(fs, file);
    Seek(fs, file, file.pos + n);
  }

  lemma BytesAre(fs: FileSystem, file: File)
    requires Ready(fs) && Opened(fs, file)
    ensures OnDisk(file.inode.start, file.inode.length, fs.disk.sectors)
    ensures FileBytes(fs, file) == Content(fs.disk.sectors, file.inode.start, file.inode.length)
  {
    hide Ready;
    FileFacts(fs, file);
  }

  /** file_read: from the file's position, as far as the file goes. */
  method FileRead(fs: FileSystem, file: File, buffer: array<Byte>, size: int, memory: bool) returns (done: nat)
    requires Ready(fs) && Opened(fs, file) && size <= buffer.Length
    requires buffer as object != fs.freeMap.bits as object
    modifies file`pos, buffer
    ensures Ready(fs) && FilesIn(fs) == old(FilesIn(fs)) && FileBytes(fs, file) == old(FileBytes(fs, file))
    ensures done == Transferred(size, old(file.pos), file.inode.length, memory) <= buffer.Length
    ensures file.pos == old(file.pos) + done && (done > 0 ==> file.pos <= file.inode.length)
    ensures buffer[..done] == Slice(FileBytes(fs, file), old(file.pos), done)
    ensures buffer[done..] == old(buffer[..])[done..]
  {
    hide Transferred, Content, Ready, FilesIn, RootOnDisk, Slice, Overwritten, FileBytes, Opened;
    BytesAre(fs, file);
    SizeFits(size, file.pos, file.inode.length, memory);
    TransferInFile(size, file.pos, file.inode.length, memory);
    ghost var was := buffer[..];
    done := ReadAt(fs.disk, file.inode, buffer, size, file.pos, memory);
    ReadOver(was, Slice(FileBytes(fs, file), file.pos, done));
    Advance(fs, file, done);
  }

  lemma SizeFits(size: int, offset: nat, length: nat, memory: bool)
    ensures Transferred(size, offset, length, memory) <= if size <= 0 then 0 else size
  {
    TransferInFile(size, offset, length, memory);
  }

  lemma ReadOver(was: seq<Byte>, data: seq<Byte>)
    requires |data| <= |was|
    ensures var r := Overwritten(was, 0, data); r[..|data|] == data && r[|data|..] == was[|data|..]
  {
  }

  /** inode_write_at on an open inode. */
  method PutSectors(fs: FileSystem, inode: Inode, buffer: array<Byte>, size: int, pos: nat, memory: bool)
    returns (done: nat)
    requires fs.Valid() && size <= buffer.Length && OnDisk(inode.start, inode.length, fs.disk.sectors)
    modifies fs.disk
    ensures fs.Valid() && |fs.disk.sectors| == |old(fs.disk.sectors)| && done <= buffer.Length
    ensures done == if inode.denyWriteCnt != 0 then 0 else Transferred(size, pos, inode.length, memory)
    ensures fs.disk.sectors == Patched(old(fs.disk.sectors), inode.start, pos, buffer[..done])
  {
    hide StoreOk, FileSystem.OpensOk, FileSystem.Tracks, FileSystem.MapOk, Patched, Transferred;
    done := WriteAt(fs.disk, inode, buffer, size, pos, memory);
  }

  /** Such a write to another inode's extent than the root directory's keeps the names. */
  lemma StillReady(fs: FileSystem, inode: Inode, was: seq<Sector>, names: map<Name, nat>)
    requires fs.Valid() && fs.freeMapFile != null && inode in fs.openInodes && |fs.disk.sectors| <= 0x1_0000_0000
    requires inode.sector > ROOT_DIR_SECTOR && SameBeyond(inode, was, fs.disk.sectors)
    requires ROOT_DIR_SECTOR in fs.live && RootOnDisk(fs) && NamesSound(names, fs.life) && |was| == |fs.disk.sectors|
    requires var h := fs.headers[ROOT_DIR_SECTOR];
      Unique(Content(was, h.start, h.length)) && View(Content(was, h.start, h.length)) == names
    ensures Ready(fs) && FilesIn(fs) == names && SameFiles(was, fs.disk.sectors, fs.headers, fs.live - {inode.sector})
  {
    OthersSame(fs, inode, was);
    hide Content, FileSystem.Valid, Unique, View, NamesSound;
  }

  /** `data` over the bytes from `at` on. */
  ghost predicate Over(now: seq<Byte>, was: seq<Byte>, at: nat, data: seq<Byte>) {
    if data == [] then now == was else at + |data| <= |was| && now == Overwritten(was, at, data)
  }

  /** inode_write_at for the file. */
  method PutBytes(fs: FileSystem, file: File, buffer: array<Byte>, size: int, memory: bool) returns (done: nat)
    requires Ready(fs) && Opened(fs, file) && size <= buffer.Length
    modifies fs.disk
    ensures Ready(fs) && FilesIn(fs) == old(FilesIn(fs)) && |fs.disk.sectors| == |old(fs.disk.sectors)|
    ensures done == if file.inode.denyWriteCnt != 0 then 0
      else Transferred(size, file.pos, file.inode.length, memory)
    ensures done <= buffer.Length
    ensures Over(FileBytes(fs, file), old(FileBytes(fs, file)), file.pos, buffer[..done])
    ensures SameFiles(old(fs.disk.sectors), fs.disk.sectors, fs.headers, fs.live - {file.inode.sector})
  {
    hide Transferred, Content, FileBytes, Patched, Overwritten, SameFiles, SameBeyond, FileSystem.Valid, Unique, View;
    hide NamesSound;
    FileFacts(fs, file);
    BytesAre(fs, file);
    ghost var was, names := fs.disk.sectors, FilesIn(fs);
    TransferInFile(size, file.pos, file.inode.length, memory);
    SizeFits(size, file.pos, file.inode.length, memory);
    done := PutSectors(fs, file.inode, buffer, size, file.pos, memory);
    PatchedBeyond(was, file.inode, file.pos, buffer[..done]);
    if done > 0 {
      PatchedContent(was, file.inode.start, file.inode.length, file.pos, buffer[..done]);
    } else {
      PatchNone(was, file.inode.start, file.pos);
    }
    StillReady(fs, file.inode, was, names);
    BytesAre(fs, file);
  }

  /** file_write: over the file's bytes from its position on, unless writes to it are denied; all
      other files keep theirs. */
  method FileWrite(fs: FileSystem, file: File, buffer: array<Byte>, size: int, memory: bool) returns (done: nat)
    requires Ready(fs) && Opened(fs, file) && size <= buffer.Length
    modifies file`pos, fs.disk
    ensures Ready(fs) && FilesIn(fs) == old(FilesIn(fs)) && |fs.disk.sectors| == |old(fs.disk.sectors)|
    ensures done == if file.inode.denyWriteCnt != 0 then 0
      else Transferred(size, old(file.pos), file.inode.length, memory)
    ensures file.pos == old(file.pos) + done && done <= buffer.Length
    ensures Over(FileBytes(fs, file), old(FileBytes(fs, file)), old(file.pos), buffer[..done])
    ensures SameFiles(old(fs.disk.sectors), fs.disk.sectors, fs.headers, fs.live - {file.inode.sector})
  {
    hide Transferred, Ready, FilesIn, RootOnDisk, FileBytes, Opened, Over, SameFiles;
    done := PutBytes(fs, file, buffer, size, memory);
    Advance(fs, file, done);
  }

  /** Removed inodes have no name. */
  lemma CloseStaysSound(names: map<Name, nat>, l: Life, s: nat, l': Life)
    requires NamesSound(names, l) && Moves(l, Close(s), l') && s > ROOT_DIR_SECTOR
    ensures NamesSound(names, l')
  {
    if s in l.removed {
      UnnamedKeepsNames(names, l, Close(s), l');
    } else {
      CloseKeepsNames(names, l, s, l');
    }
  }

  /** file_close: the last close of a removed file frees its sectors. */
  method FileClose(fs: FileSystem, file: File, memory: Memory)
    requires Ready(fs) && Opened(fs, file)
    modifies fs`openInodes, fs`bare, fs`live, fs`reserved, fs`life, fs`files, fs.freeMap.bits, fs.disk
    modifies file`denyWrite, file.inode`openCnt, file.inode`denyWriteCnt
    ensures Ready(fs) && FilesIn(fs) == old(FilesIn(fs)) && fs.files == old(fs.files) - {file}
    ensures fs.bare == old(fs.bare) && fs.reserved == old(fs.reserved)
    ensures Moves(old(fs.life), Close(file.inode.sector), fs.life)
    ensures fs.freeMap.Bits() ==
      if old(fs.Releases(file.inode))
      then Released(old(fs.freeMap.Bits()), file.inode.sector, HeaderOf(file.inode)) else old(fs.freeMap.Bits())
    ensures SameFiles(old(fs.disk.sectors), fs.disk.sectors, fs.headers, fs.live - {FREE_MAP_SECTOR})
  {
    hide StoreOk, NamesSound, Unique, Content, Moves, LifeOk, Released, View, SameFiles;
    hide FileSystem.Valid, FileSystem.OnlyMap, FileSystem.MapStored, FileSystem.MapWritable, FileSystem.Releases;
    ghost var names, l, was := FilesIn(fs), fs.life, fs.disk.sectors;
    FileFacts(fs, file);
    DiskSize(fs);
    fs.FileClose(file, memory);
    CloseStaysSound(names, l, file.inode.sector, fs.life);
    LiveTracked(fs);
    RootStays(names, fs.life);
    DiskSize(fs);
    MapWritten(fs, was);
  }

  /** file_reopen. */
  method FileReopen(fs: FileSystem, file: File, memory: bool) returns (other: File?)
    requires Ready(fs) && Opened(fs, file)
    modifies fs`openInodes, fs`bare, fs`live, fs`reserved, fs`life, fs`files, fs.freeMap.bits, fs.disk
    modifies file.inode`openCnt
    ensures Ready(fs) && FilesIn(fs) == old(FilesIn(fs)) && fs.disk.sectors == old(fs.disk.sectors)
    ensures fs.freeMap.Bits() == old(fs.freeMap.Bits()) && fs.bare == old(fs.bare)
    ensures other != null <==> memory
    ensures other != null ==>
      && fresh(other) && other.inode == file.inode && other.pos == 0 && Opened(fs, other)
      && fs.files == old(fs.files) + {other} && Moves(old(fs.life), Open(file.inode.sector), fs.life)
    ensures other == null ==> fs.files == old(fs.files) && fs.life == old(fs.life)
  {
    hide StoreOk, NamesSound, Unique, Content, Moves, LifeOk, Released, View;
    hide FileSystem.Valid, FileSystem.OnlyMap, FileSystem.MapStored, FileSystem.MapWritable;
    ghost var names, l := FilesIn(fs), fs.life;
    FileFacts(fs, file);
    DiskSize(fs);
    other := fs.FileReopen(file, memory);
    if other != null {
      OpenKeepsNames(names, l, file.inode.sector, fs.life);
    }
    DiskSize(fs);
  }

  /** file_deny_write. */
  method FileDenyWrite(fs: FileSystem, file: File)
    requires Ready(fs) && Opened(fs, file)
    modifies file`denyWrite, file.inode`denyWriteCnt
    ensures Ready(fs) && FilesIn(fs) == old(FilesIn(fs)) && file.denyWrite && file.inode.denyWriteCnt > 0
    ensures RootDenied(fs) <==> old(RootDenied(fs))
  {
    hide StoreOk, NamesSound, Unique, Content, LifeOk, View, CountsOk;
    hide FileSystem.OpensOk, FileSystem.Tracks;
    FileFacts(fs, file);
    fs.FileDenyWrite(file);
    DeniesOne(fs, file);
    assert forall i :: i in fs.openInodes && i.sector == ROOT_DIR_SECTOR ==> i.denyWriteCnt == old(i.denyWriteCnt);
  }

  /** file_allow_write. */
  method FileAllowWrite(fs: FileSystem, file: File)
    requires Ready(fs) && Opened(fs, file)
    modifies file`denyWrite, file.inode`denyWriteCnt
    ensures Ready(fs) && FilesIn(fs) == old(FilesIn(fs)) && !file.denyWrite
    ensures RootDenied(fs) <==> old(RootDenied(fs))
  {
    hide StoreOk, NamesSound, Unique, Content, LifeOk, View, CountsOk;
    hide FileSystem.OpensOk, FileSystem.Tracks;
    FileFacts(fs, file);
    fs.FileAllowWrite(file);
    assert forall i :: i in fs.openInodes && i.sector == ROOT_DIR_SECTOR ==> i.denyWriteCnt == old(i.denyWriteCnt);
  }

  lemma DeniesOne(fs: FileSystem, file: File)
    requires fs.Valid() && file in fs.files && file.denyWrite
    ensures file.inode.denyWriteCnt > 0
  {
    hide StoreOk, Shows, Entries;
    assert file in Denying(fs.files, file.inode);
    assert file.inode in fs.openInodes;
  }
}
