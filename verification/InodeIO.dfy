/**
 Byte-granular reads and writes of an inode's data through 512-byte sectors
 (filesys/inode.c).  The caller's buffer is an array; the bounce buffer is allocated
 on first need, which `memory` says may fail.
 */
module InodeIO {
  const SECTOR_SIZE: int := 512

  type Byte = x: int | 0 <= x < 256

  type Sector = s: seq<Byte> | |s| == 512 witness seq(512, i => 0)

  class Disk {
    var sectors: seq<Sector>

    constructor (sectors: seq<Sector>)
      ensures this.sectors == sectors
    {
      this.sectors := sectors;
    }
  }

  /** The in-memory inode; its data extent never moves or grows. */
  class Inode {
    const sector: nat
    const start: nat
    const length: nat
    var openCnt: int
    var removed: bool
    var denyWriteCnt: int

    constructor (sector: nat, start: nat, length: nat)
      ensures this.sector == sector && this.start == start && this.length == length
      ensures openCnt == 1 && !removed && denyWriteCnt == 0
    {
      this.sector, this.start, this.length := sector, start, length;
      openCnt, removed, denyWriteCnt := 1, false, 0;
    }
  }

  /** Sectors to allocate for `size` bytes. */
  function BytesToSectors(size: nat): nat {
    (size + SECTOR_SIZE - 1) / SECTOR_SIZE
  }

  /** `n` sectors of 512 bytes are the fewest that hold `length` bytes. */
  predicate FewestSectors(n: nat, length: nat) { 512 * (n - 1) < length <= 512 * n }

  /** No data sector is missing, and none is without a byte of the file. */
  lemma SectorsFewest(length: nat)
    ensures FewestSectors(BytesToSectors(length), length)
    ensures forall n: nat :: FewestSectors(n, length) ==> n == BytesToSectors(length)
  {
  }

  /** The inode's extent lies on the device. */
  predicate OnDisk(start: nat, length: nat, sectors: seq<Sector>) {
    start + BytesToSectors(length) <= |sectors|
  }

  function ByteAt(sectors: seq<Sector>, start: nat, pos: nat): Byte
    requires start + pos / SECTOR_SIZE < |sectors|
  {
    sectors[start + pos / SECTOR_SIZE][pos % SECTOR_SIZE]
  }

  /** The file's bytes. */
  function Content(sectors: seq<Sector>, start: nat, length: nat): (c: seq<Byte>)
    requires OnDisk(start, length, sectors)
    ensures |c| == length
  {
    seq(length, pos requires 0 <= pos < length => ByteAt(sectors, start, pos))
  }

  function Min(a: int, b: int): int { if a < b then a else b }

  /** Bytes a transfer of `size` at `offset` moves: all that the file has there, or, without
      memory for the bounce buffer, its whole sectors if it starts on a sector boundary. */
  function Transferred(size: int, offset: nat, length: nat, memory: bool): nat {
    var k := if size <= 0 || length <= offset then 0 else Min(size, length - offset);
    if memory then k
    else if offset % SECTOR_SIZE == 0 then k / SECTOR_SIZE * SECTOR_SIZE
    else 0
  }

  // ----- Block and memory primitives

  /** `s` with `t` written over it from position `at`. */
  function Overwritten<T>(s: seq<T>, at: nat, t: seq<T>): (r: seq<T>)
    requires at + |t| <= |s|
    ensures |r| == |s|
  {
    s[..at] + t + s[at + |t|..]
  }

  /** memcpy (dst + at, src + from, n) between distinct buffers. */
  method Copy(dst: array<Byte>, at: nat, src: array<Byte>, from: nat, n: nat)
    requires dst != src && at + n <= dst.Length && from + n <= src.Length
    modifies dst
    ensures dst[..] == Overwritten(old(dst[..]), at, src[from..from + n])
  {
    forall i | 0 <= i < n {
      dst[at + i] := src[from + i];
    }
  }

  /** block_read of `sector` to buffer + at. */
  method BlockRead(disk: Disk, sector: nat, buffer: array<Byte>, at: nat)
    requires sector < |disk.sectors| && at + 512 <= buffer.Length
    modifies buffer
    ensures buffer[..] == Overwritten(old(buffer[..]), at, disk.sectors[sector])
  {
    var data := disk.sectors[sector];
    forall i | 0 <= i < 512 {
      buffer[at + i] := data[i];
    }
  }

  /** block_write of the 512 bytes at buffer + at to `sector`. */
  method BlockWrite(disk: Disk, sector: nat, buffer: array<Byte>, at: nat)
    requires sector < |disk.sectors| && at + 512 <= buffer.Length
    modifies disk
    ensures disk.sectors == old(disk.sectors)[sector := buffer[at..at + 512]]
  {
    disk.sectors := disk.sectors[sector := buffer[at..at + 512]];
  }

  /** 32-bit words in memory. */
  function ToLe(v: nat): (s: seq<Byte>)
    requires v < 0x1_0000_0000
    ensures |s| == 4
  {
    [v % 256, v / 0x100 % 256, v / 0x1_0000 % 256, v / 0x100_0000]
  }

  function FromLe(s: seq<Byte>): nat
    requires |s| == 4
  {
    var a: int, b: int, c: int, d: int := s[0], s[1], s[2], s[3];
    a + 0x100 * b + 0x1_0000 * c + 0x100_0000 * d
  }

  lemma LeRoundTrip(v: nat)
    requires v < 0x1_0000_0000
    ensures FromLe(ToLe(v)) == v
  {
    var b, c, d := v / 0x100, v / 0x1_0000, v / 0x100_0000;
    assert v == 0x100 * b + v % 0x100;
    assert c == b / 0x100 && b == 0x100 * c + b % 0x100;
    assert d == c / 0x100 && c == 0x100 * d + c % 0x100;
    assert d % 0x100 == d;
  }

  // ----- Chunks

  /** The part of a transfer that one sector serves. */
  function Chunk(size: int, offset: nat, length: nat): int {
    Min(size, Min(length - offset, SECTOR_SIZE - offset % SECTOR_SIZE))
  }

  /** The bytes left in the sector, and how many of them to transfer. */
  method NextChunk(size: int, offset: nat, length: nat) returns (sectorLeft: nat, chunk: int)
    ensures sectorLeft == 512 - offset % 512 && chunk == Chunk(size, offset, length)
    ensures chunk > 0 ==> chunk <= size && offset + chunk <= length && chunk <= sectorLeft
  {
    var sectorOfs := offset % SECTOR_SIZE;
    var inodeLeft := length - offset;
    sectorLeft := SECTOR_SIZE - sectorOfs;
    var minLeft := if inodeLeft < sectorLeft then inodeLeft else sectorLeft;
    chunk := if size < minLeft then size else minLeft;
  }

  /** A chunk of the content is a slice of the sector that holds it. */
  lemma ChunkOfSector(sectors: seq<Sector>, start: nat, length: nat, offset: nat, n: nat)
    requires OnDisk(start, length, sectors)
    requires 0 < n && offset + n <= length && offset % 512 + n <= 512
    ensures start + offset / 512 < |sectors|
    ensures Content(sectors, start, length)[offset..offset + n]
         == sectors[start + offset / 512][offset % 512..offset % 512 + n]
  {
    SameSector(offset, n - 1);
    SameSector(offset, 0);
    var part, sector := Content(sectors, start, length)[offset..offset + n], sectors[start + offset / 512];
    forall k | 0 <= k < n ensures part[k] == sector[offset % 512..offset % 512 + n][k] {
      SameSector(offset, k);
    }
  }

  lemma SameSector(offset: nat, k: nat)
    requires offset % 512 + k < 512
    ensures (offset + k) / 512 == offset / 512 && (offset + k) % 512 == offset % 512 + k
  {
  }

  /** Without memory only whole sectors have been moved so far. */
  predicate Whole(memory: bool, done: nat, offset: nat) {
    !memory ==> done % 512 == 0 && (done > 0 ==> offset % 512 == 0)
  }

  /** What the loop has moved once `done` bytes are behind it and the next chunk is empty. */
  lemma TransferEnds(size: int, offset: nat, length: nat, memory: bool, done: nat)
    requires size - done <= 0 || Chunk(size - done, offset + done, length) <= 0
    requires done > 0 ==> done <= size && offset + done <= length
    requires Whole(memory, done, offset)
    ensures done == Transferred(size, offset, length, memory)
  {
  }

  /** Without memory the loop stops at the first chunk that is not a whole sector. */
  lemma TransferStarves(size: int, offset: nat, length: nat, done: nat)
    requires size - done > 0 && Chunk(size - done, offset + done, length) > 0
    requires (offset + done) % 512 != 0 || Chunk(size - done, offset + done, length) != 512
    requires Whole(false, done, offset)
    ensures done == Transferred(size, offset, length, false)
  {
  }

  lemma OverwrittenMore<T>(s: seq<T>, at: nat, t: seq<T>, u: seq<T>)
    requires at + |t| + |u| <= |s|
    ensures Overwritten(Overwritten(s, at, t), at + |t|, u) == Overwritten(s, at, t + u)
  {
  }

  lemma OverwrittenEnds<T>(s: seq<T>, t: seq<T>)
    ensures Overwritten(s, 0, []) == s
    ensures |s| == |t| ==> Overwritten(s, 0, t) == t
  {
  }

  /** The `n` bytes of the file at `offset`; none if `n` is 0, wherever `offset` is. */
  function Slice(content: seq<Byte>, offset: nat, n: nat): (r: seq<Byte>)
    requires n > 0 ==> offset + n <= |content|
    ensures |r| == n
  {
    if n == 0 then [] else content[offset..offset + n]
  }

  lemma SliceMore(content: seq<Byte>, offset: nat, n: nat, m: nat)
    requires m > 0 && offset + n + m <= |content|
    ensures Slice(content, offset, n + m) == Slice(content, offset, n) + content[offset + n..offset + n + m]
  {
  }

  /** Reads a sector into the bounce buffer and copies part of it to buffer + at. */
  method ReadPart(disk: Disk, sector: nat, bounce: array<Byte>, ofs: nat, n: nat, buffer: array<Byte>, at: nat)
    requires sector < |disk.sectors| && bounce.Length == 512 && bounce != buffer
    requires ofs + n <= 512 && at + n <= buffer.Length
    modifies bounce, buffer
    ensures buffer[..] == Overwritten(old(buffer[..]), at, disk.sectors[sector][ofs..ofs + n])
  {
    hide Overwritten;
    OverwrittenEnds(bounce[..], disk.sectors[sector]);
    BlockRead(disk, sector, bounce, 0);
    assert bounce[..][ofs..ofs + n] == bounce[ofs..ofs + n];
    Copy(buffer, at, bounce, ofs, n);
  }

  /** Copies part of BUFFER into the bounce buffer, which holds the sector, and writes it out. */
  method WritePart(disk: Disk, sector: nat, bounce: array<Byte>, ofs: nat, n: nat, buffer: array<Byte>, at: nat)
    requires sector < |disk.sectors| && bounce.Length == 512 && bounce != buffer && bounce[..] == disk.sectors[sector]
    requires ofs + n <= 512 && at + n <= buffer.Length
    modifies bounce, disk
    ensures disk.sectors ==
      old(disk.sectors)[sector := Overwritten(old(disk.sectors)[sector], ofs, buffer[at..at + n])]
  {
    hide Overwritten;
    Copy(bounce, ofs, buffer, at, n);
    assert bounce[0..512] == bounce[..];
    BlockWrite(disk, sector, bounce, 0);
  }

  /** One turn of the read loop: a whole sector directly, part of one through the bounce buffer, which
      is allocated on first need. */
  method ReadChunk(disk: Disk, inode: Inode, buffer: array<Byte>, at: nat, offset: nat, chunk: nat,
                   bounce0: array?<Byte>, memory: bool)
    returns (bounce: array?<Byte>, ok: bool)
    requires OnDisk(inode.start, inode.length, disk.sectors) && at + chunk <= buffer.Length
    requires chunk > 0 && offset + chunk <= inode.length && offset % 512 + chunk <= 512
    requires bounce0 != null ==> bounce0.Length == 512 && bounce0 != buffer && memory
    modifies buffer, if bounce0 == null then {} else {bounce0}
    ensures ok <==> memory || (offset % 512 == 0 && chunk == 512)
    ensures bounce != null ==> bounce.Length == 512 && memory && (bounce == bounce0 || fresh(bounce))
    ensures buffer[..] ==
      if ok
      then Overwritten(old(buffer[..]), at, Content(disk.sectors, inode.start, inode.length)[offset..offset + chunk])
      else old(buffer[..])
  {
    hide Content, Overwritten;
    bounce, ok := bounce0, true;
    var sectorIdx, sectorOfs := inode.start + offset / SECTOR_SIZE, offset % SECTOR_SIZE;
    ChunkOfSector(disk.sectors, inode.start, inode.length, offset, chunk);
    if sectorOfs == 0 && chunk == SECTOR_SIZE {
      assert disk.sectors[sectorIdx][0..512] == disk.sectors[sectorIdx];
      BlockRead(disk, sectorIdx, buffer, at);
    } else {
      if bounce == null {
        if !memory {
          return null, false;
        }
        bounce := new Byte[512];
      }
      ReadPart(disk, sectorIdx, bounce, sectorOfs, chunk, buffer, at);
    }
  }

  /** Reads SIZE bytes of the inode at OFFSET into BUFFER. */
  method ReadAt(disk: Disk, inode: Inode, buffer: array<Byte>, size0: int, offset0: nat, memory: bool)
    returns (bytesRead: nat)
    requires OnDisk(inode.start, inode.length, disk.sectors)
    requires size0 <= buffer.Length
    modifies buffer
    ensures bytesRead == Transferred(size0, offset0, inode.length, memory)
    ensures buffer[..] == Overwritten(old(buffer[..]), 0,
                                      Slice(Content(disk.sectors, inode.start, inode.length), offset0, bytesRead))
  {
    hide Content, Overwritten, Slice, Transferred, Chunk;
    ghost var content, was := Content(disk.sectors, inode.start, inode.length), buffer[..];
    var size, offset := size0, offset0;
    bytesRead := 0;
    OverwrittenEnds(was, []);
    SliceNone(content, offset0);
    var bounce: array?<Byte> := null;
    while size > 0
      invariant size == size0 - bytesRead && offset == offset0 + bytesRead
      invariant bytesRead > 0 ==> offset <= inode.length && size >= 0
      invariant bounce != null ==> fresh(bounce) && bounce.Length == 512 && memory
      invariant Whole(memory, bytesRead, offset0)
      invariant buffer[..] == Overwritten(was, 0, Slice(content, offset0, bytesRead))
      decreases size
    {
      var sectorLeft, chunk := NextChunk(size, offset, inode.length);
      if chunk <= 0 {
        break;
      }
      SliceMore(content, offset0, bytesRead, chunk);
      OverwrittenMore(was, 0, Slice(content, offset0, bytesRead), content[offset..offset + chunk]);
      var ok;
      bounce, ok := ReadChunk(disk, inode, buffer, bytesRead, offset, chunk, bounce, memory);
      if !ok {
        TransferStarves(size0, offset0, inode.length, bytesRead);
        return;
      }
      WholeSectors(bytesRead, offset0, chunk, memory);
      size, offset, bytesRead := size - chunk, offset + chunk, bytesRead + chunk;
    }
    TransferEnds(size0, offset0, inode.length, memory, bytesRead);
  }

  /** Without memory only whole sectors are moved. */
  lemma WholeSectors(done: nat, offset: nat, chunk: nat, memory: bool)
    requires Whole(memory, done, offset)
    requires memory || ((offset + done) % 512 == 0 && chunk == 512)
    ensures Whole(memory, done + chunk, offset)
  {
  }

  lemma SliceNone(content: seq<Byte>, offset: nat)
    ensures Slice(content, offset, 0) == []
  {
  }

  // ----- Writing

  /** The device with the file's bytes from `offset` on replaced by `data`. */
  function Patched(sectors: seq<Sector>, start: nat, offset: nat, data: seq<Byte>): (r: seq<Sector>)
    ensures |r| == |sectors|
  {
    seq(|sectors|, i requires 0 <= i < |sectors| => PatchedSector(sectors[i], (i - start) * 512, offset, data))
  }

  /** A sector whose first byte is the file's byte `base`; negative for sectors ahead of the file. */
  function PatchedSector(sector: Sector, base: int, offset: nat, data: seq<Byte>): (r: Sector) {
    seq(512, b requires 0 <= b < 512 =>
      if base >= 0 && offset <= base + b < offset + |data| then data[base + b - offset] else sector[b])
  }

  /** Writing the next bytes into the sector they fall in extends the patch. */
  lemma PatchMore(sectors: seq<Sector>, start: nat, offset: nat, data: seq<Byte>, more: seq<Byte>)
    requires var next := offset + |data|; next % 512 + |more| <= 512 && start + next / 512 < |sectors|
    ensures var next := offset + |data|;
      var idx := start + next / 512;
      var r := Patched(sectors, start, offset, data);
      r[idx := Overwritten(r[idx], next % 512, more)] == Patched(sectors, start, offset, data + more)
  {
    hide PatchedSector, Overwritten;
    var next := offset + |data|;
    var idx := start + next / 512;
    var r, t := Patched(sectors, start, offset, data), Patched(sectors, start, offset, data + more);
    forall i | 0 <= i < |sectors| ensures (if i == idx then Overwritten(r[i], next % 512, more) else r[i]) == t[i] {
      PatchSectorMore(sectors[i], (i - start) * 512, offset, data, more, i == idx);
    }
  }

  lemma PatchSectorMore(sector: Sector, base: int, offset: nat, data: seq<Byte>, more: seq<Byte>, here: bool)
    requires var next := offset + |data|;
      base % 512 == 0 && next % 512 + |more| <= 512 && (here <==> base == next / 512 * 512)
    ensures var r, t := PatchedSector(sector, base, offset, data), PatchedSector(sector, base, offset, data + more);
      (if here then Overwritten(r, (offset + |data|) % 512, more) else r) == t
  {
    var next := offset + |data|;
    var k, o := next / 512, next % 512;
    var r, t := PatchedSector(sector, base, offset, data), PatchedSector(sector, base, offset, data + more);
    var m := base / 512;
    assert base == m * 512 && next == k * 512 + o && (here <==> m == k);
    forall b | 0 <= b < 512
      ensures (if here && o <= b < o + |more| then more[b - o] else r[b]) == t[b]
    {
    }
    if here {
      OverwrittenBytes(r, o, more);
    }
  }

  lemma OverwrittenBytes<T>(s: seq<T>, at: nat, t: seq<T>)
    requires at + |t| <= |s|
    ensures forall b :: 0 <= b < |s| ==> Overwritten(s, at, t)[b] == if at <= b < at + |t| then t[b - at] else s[b]
  {
  }

  lemma PatchNone(sectors: seq<Sector>, start: nat, offset: nat)
    ensures Patched(sectors, start, offset, []) == sectors
  {
    forall i | 0 <= i < |sectors| ensures Patched(sectors, start, offset, [])[i] == sectors[i] {
      assert PatchedSector(sectors[i], (i - start) * 512, offset, []) == sectors[i];
    }
  }

  /** One turn of the write loop. */
  method WriteChunk(disk: Disk, inode: Inode, buffer: array<Byte>, at: nat, offset: nat, chunk: nat, sectorLeft: nat,
                    bounce0: array?<Byte>, memory: bool)
    returns (bounce: array?<Byte>, ok: bool)
    requires OnDisk(inode.start, inode.length, disk.sectors) && at + chunk <= buffer.Length
    requires chunk > 0 && offset + chunk <= inode.length && chunk <= sectorLeft == 512 - offset % 512
    requires bounce0 != null ==> bounce0.Length == 512 && bounce0 != buffer && memory
    modifies disk, if bounce0 == null then {} else {bounce0}
    ensures ok <==> memory || (offset % 512 == 0 && chunk == 512)
    ensures bounce != null ==> bounce.Length == 512 && memory && (bounce == bounce0 || fresh(bounce))
    ensures inode.start + offset / 512 < |old(disk.sectors)|
    ensures var idx := inode.start + offset / 512;
      disk.sectors == if ok
        then old(disk.sectors)[idx := Overwritten(old(disk.sectors)[idx], offset % 512, buffer[at..at + chunk])]
        else old(disk.sectors)
  {
    hide Overwritten;
    bounce, ok := bounce0, true;
    var sectorIdx, sectorOfs := inode.start + offset / SECTOR_SIZE, offset % SECTOR_SIZE;
    ChunkOfSector(disk.sectors, inode.start, inode.length, offset, chunk);
    if sectorOfs == 0 && chunk == SECTOR_SIZE {
      OverwrittenEnds(disk.sectors[sectorIdx], buffer[at..at + chunk]);
      BlockWrite(disk, sectorIdx, buffer, at);
    } else {
      if bounce == null {
        if !memory {
          return null, false;
        }
        bounce := new Byte[512];
      }
      if sectorOfs > 0 || chunk < sectorLeft {
        OverwrittenEnds(bounce[..], disk.sectors[sectorIdx]);
        BlockRead(disk, sectorIdx, bounce, 0);
      } else {
        assert false;  // the zero-fill branch: a chunk that fills its sector took the direct path
      }
      WritePart(disk, sectorIdx, bounce, sectorOfs, chunk, buffer, at);
    }
  }

  lemma SliceJoin(s: seq<Byte>, n: nat, k: nat)
    requires n + k <= |s|
    ensures s[..n] + s[n..n + k] == s[..n + k]
  {
  }

  /** Writes SIZE bytes of BUFFER into the inode at OFFSET, unless writes are denied. */
  method WriteAt(disk: Disk, inode: Inode, buffer: array<Byte>, size0: int, offset0: nat, memory: bool)
    returns (bytesWritten: nat)
    requires OnDisk(inode.start, inode.length, disk.sectors)
    requires size0 <= buffer.Length
    modifies disk
    ensures bytesWritten == if inode.denyWriteCnt != 0 then 0
      else Transferred(size0, offset0, inode.length, memory)
    ensures bytesWritten <= buffer.Length
    ensures disk.sectors == Patched(old(disk.sectors), inode.start, offset0, buffer[..bytesWritten])
  {
    hide Overwritten, Transferred, Patched, Chunk;
    ghost var was, start := disk.sectors, inode.start;
    var size, offset := size0, offset0;
    bytesWritten := 0;
    PatchNone(was, start, offset0);
    if inode.denyWriteCnt != 0 {
      return;
    }
    var bounce: array?<Byte> := null;
    while size > 0
      invariant size == size0 - bytesWritten && offset == offset0 + bytesWritten
      invariant bytesWritten > 0 ==> offset <= inode.length && size >= 0
      invariant bytesWritten <= buffer.Length
      invariant bounce != null ==> fresh(bounce) && bounce.Length == 512 && memory
      invariant Whole(memory, bytesWritten, offset0)
      invariant disk.sectors == Patched(was, start, offset0, buffer[..bytesWritten])
      decreases size
    {
      var sectorLeft, chunk := NextChunk(size, offset, inode.length);
      if chunk <= 0 {
        break;
      }
      var ok;
      bounce, ok := WriteChunk(disk, inode, buffer, bytesWritten, offset, chunk, sectorLeft, bounce, memory);
      if !ok {
        TransferStarves(size0, offset0, inode.length, bytesWritten);
        return;
      }
      PatchMore(was, start, offset0, buffer[..bytesWritten], buffer[bytesWritten..bytesWritten + chunk]);
      SliceJoin(buffer[..], bytesWritten, chunk);
      WholeSectors(bytesWritten, offset0, chunk, memory);
      size, offset, bytesWritten := size - chunk, offset + chunk, bytesWritten + chunk;
    }
    TransferEnds(size0, offset0, inode.length, memory, bytesWritten);
  }

  // ----- What a write means for files

  lemma PatchedByte(sectors: seq<Sector>, start: nat, offset: nat, data: seq<Byte>, i: nat, b: nat)
    requires i < |sectors| && b < 512
    ensures var p := (i - start) * 512 + b;
      Patched(sectors, start, offset, data)[i][b]
        == if start <= i && offset <= p < offset + |data| then data[p - offset] else sectors[i][b]
  {
  }

  /** The written file's content changes at exactly the written positions. */
  lemma PatchedContent(sectors: seq<Sector>, start: nat, length: nat, offset: nat, data: seq<Byte>)
    requires OnDisk(start, length, sectors) && offset + |data| <= length
    ensures Content(Patched(sectors, start, offset, data), start, length)
         == Overwritten(Content(sectors, start, length), offset, data)
  {
    var r := Patched(sectors, start, offset, data);
    var c, t := Content(sectors, start, length), Content(r, start, length);
    OverwrittenBytes(c, offset, data);
    forall p | 0 <= p < length ensures t[p] == Overwritten(c, offset, data)[p] {
      PatchedByte(sectors, start, offset, data, start + p / 512, p % 512);
    }
  }

  /** No sector outside the written file's extent changes, so neither does any other file. */
  lemma PatchedElsewhere(sectors: seq<Sector>, start: nat, length: nat, offset: nat, data: seq<Byte>, i: nat)
    requires OnDisk(start, length, sectors) && (data == [] || offset + |data| <= length)
    requires i < |sectors| && !(start <= i < start + BytesToSectors(length))
    ensures Patched(sectors, start, offset, data)[i] == sectors[i]
  {
    var r := Patched(sectors, start, offset, data);
    forall b | 0 <= b < 512 ensures r[i][b] == sectors[i][b] {
      PatchedByte(sectors, start, offset, data, i, b);
    }
  }

  /** No sector outside the inode's extent changes. */
  ghost predicate SameBeyond(inode: Inode, was: seq<Sector>, now: seq<Sector>) {
    && |now| == |was|
    && forall i :: 0 <= i < |was| && !(inode.start <= i < inode.start + BytesToSectors(inode.length)) ==>
         now[i] == was[i]
  }

  lemma PatchedBeyond(sectors: seq<Sector>, inode: Inode, offset: nat, data: seq<Byte>)
    requires OnDisk(inode.start, inode.length, sectors) && (data == [] || offset + |data| <= inode.length)
    ensures SameBeyond(inode, sectors, Patched(sectors, inode.start, offset, data))
  {
    forall i | 0 <= i < |sectors| && !(inode.start <= i < inode.start + BytesToSectors(inode.length))
      ensures Patched(sectors, inode.start, offset, data)[i] == sectors[i]
    {
      PatchedElsewhere(sectors, inode.start, inode.length, offset, data, i);
    }
  }

  /** A file on another extent keeps its bytes. */
  lemma BeyondOtherFile(inode: Inode, was: seq<Sector>, now: seq<Sector>, start: nat, length: nat)
    requires SameBeyond(inode, was, now) && OnDisk(start, length, was)
    requires inode.start + BytesToSectors(inode.length) <= start || start + BytesToSectors(length) <= inode.start
    ensures Content(now, start, length) == Content(was, start, length)
  {
    forall p | 0 <= p < length ensures ByteAt(now, start, p) == ByteAt(was, start, p) {
    }
  }

  lemma PatchedOtherFile(sectors: seq<Sector>, start: nat, length: nat, offset: nat, data: seq<Byte>,
                         start': nat, length': nat)
    requires OnDisk(start, length, sectors) && (data == [] || offset + |data| <= length)
    requires OnDisk(start', length', sectors)
    requires start + BytesToSectors(length) <= start' || start' + BytesToSectors(length') <= start
    ensures Content(Patched(sectors, start, offset, data), start', length') == Content(sectors, start', length')
  {
    var r := Patched(sectors, start, offset, data);
    forall p | 0 <= p < length' ensures ByteAt(r, start', p) == ByteAt(sectors, start', p) {
      PatchedElsewhere(sectors, start, length, offset, data, start' + p / 512);
    }
  }

  /** Reading back at the same place returns what was written, whatever the sector alignment. */
  lemma WriteThenRead(sectors: seq<Sector>, start: nat, length: nat, offset: nat, data: seq<Byte>)
    requires OnDisk(start, length, sectors) && (data == [] || offset + |data| <= length)
    ensures Slice(Content(Patched(sectors, start, offset, data), start, length), offset, |data|) == data
  {
    if data != [] {
      PatchedContent(sectors, start, length, offset, data);
    }
  }

  /** A transfer lies within the file, so a write's data always meets the conditions above. */
  lemma TransferInFile(size: int, offset: nat, length: nat, memory: bool)
    ensures var k := Transferred(size, offset, length, memory);
      && (k > 0 ==> offset + k <= length && k <= size)
      && (memory ==> k == if size <= 0 then 0 else Min(size, if offset < length then length - offset else 0))
  {
  }
}
