/** Bitmaps in files (the FILESYS part of lib/kernel/bitmap.c). */
module BitmapFile {
  import opened Bitmap
  import opened InodeIO

  /** bitmap_file_size. */
  function FileSize(bitCnt: nat): nat { 4 * ElemCnt(bitCnt) }

  function WordByte(word: bv32, j: nat): (b: bv32)
    requires j < 4
    ensures b < 256
  {
    (if j == 0 then word else if j == 1 then word >> 8 else if j == 2 then word >> 16 else word >> 24) & 0xff
  }

  function WordBytes(word: bv32): (s: seq<Byte>)
    ensures |s| == 4
  {
    seq(4, j requires 0 <= j < 4 => WordByte(word, j) as int)
  }

  /** The words' bytes in memory order. */
  function Image(words: seq<bv32>): (s: seq<Byte>)
    ensures |s| == 4 * |words|
  {
    seq(4 * |words|, i requires 0 <= i < 4 * |words| => WordBytes(words[i / 4])[i % 4])
  }

  lemma SameValue(a: bv32, b: bv32)
    requires a as nat == b as nat
    ensures a == b
  {
    assert (a as nat) as bv32 == a && (b as nat) as bv32 == b;
  }

  lemma SameWord(a: bv32, b: bv32)
    requires WordBytes(a) == WordBytes(b)
    ensures a == b
  {
    forall j: nat | j < 4 ensures WordByte(a, j) == WordByte(b, j) {
      assert WordBytes(a)[j] == WordBytes(b)[j];
      SameValue(WordByte(a, j), WordByte(b, j));
    }
    BytesOfWords(a, b);
  }

  lemma BytesOfWords(a: bv32, b: bv32)
    requires forall j: nat :: j < 4 ==> WordByte(a, j) == WordByte(b, j)
    ensures a == b
  {
    assert WordByte(a, 0) == WordByte(b, 0) && WordByte(a, 1) == WordByte(b, 1);
    assert WordByte(a, 2) == WordByte(b, 2) && WordByte(a, 3) == WordByte(b, 3);
  }

  lemma ImageOf(words: seq<bv32>, k: nat)
    requires k < |words|
    ensures Image(words)[4 * k..4 * k + 4] == WordBytes(words[k])
  {
    hide WordBytes;
    forall j | 0 <= j < 4 ensures Image(words)[4 * k..4 * k + 4][j] == WordBytes(words[k])[j] {
      Quarter(k, j);
    }
  }

  lemma Quarter(k: nat, j: nat)
    requires j < 4
    ensures (4 * k + j) / 4 == k && (4 * k + j) % 4 == j
  {
  }

  /** The file's bytes determine the map. */
  lemma ImageInjective(words: seq<bv32>, words': seq<bv32>)
    requires Image(words) == Image(words')
    ensures words == words'
  {
    hide WordBytes, Image;
    assert 4 * |words| == |Image(words)| == 4 * |words'|;
    forall k | 0 <= k < |words| ensures words[k] == words'[k] {
      ImageOf(words, k);
      ImageOf(words', k);
      SameWord(words[k], words'[k]);
    }
  }

  predicate BitSet(byte: Byte, k: nat)
    requires k < 8
  {
    (byte as bv32) & ((1 as bv32) << Position(k)) != 0
  }

  /** Bit i of the map is bit i % 8 of byte i / 8 of the file. */
  lemma BitInImage(words: seq<bv32>, i: nat)
    requires i < 32 * |words|
    ensures BitSet(Image(words)[i / 8], i % 8) <==> BitOf(words[i / 32], i)
  {
    var j, k := i % 32 / 8, i % 8;
    assert i % 32 == 8 * j + k && i / 8 == 4 * (i / 32) + j;
    Quarter(i / 32, j);
    hide WordBytes, BitSet, BitOf;
    assert Image(words)[i / 8] == WordBytes(words[i / 32])[j];
    BitOfWord(words[i / 32], i, j, k);
  }

  lemma BitOfWord(word: bv32, i: nat, j: nat, k: nat)
    requires j < 4 && k < 8 && i % 32 == 8 * j + k
    ensures BitSet(WordBytes(word)[j], k) <==> BitOf(word, i)
  {
    PositionInByte(k, j);
    BitInByte(word, j, Position(k));
    ByteBack(WordByte(word, j), WordBytes(word)[j]);
    hide WordByte, InWord, BitAt, Position;
  }

  lemma ByteBack(b: bv32, byte: Byte)
    requires b as int == byte
    ensures byte as bv32 == b
  {
    assert (b as nat) as bv32 == b;
  }

  /** Where in its word the bit at position a of byte j is. */
  function InWord(j: nat, a: bv6): bv6
    requires j < 4 && a < 8
  {
    (if j == 0 then 0 else if j == 1 then 8 else if j == 2 then 16 else 24) + a
  }

  lemma PositionInByte(k: nat, j: nat)
    requires k < 8 && j < 4
    ensures Position(k) < 8 && InWord(j, Position(k)) == Position(8 * j + k)
  {
  }

  lemma BitInByte(word: bv32, j: nat, a: bv6)
    requires j < 4 && a < 8
    ensures InWord(j, a) < 32
    ensures WordByte(word, j) & ((1 as bv32) << a) != 0 <==> BitAt(word, InWord(j, a))
  {
  }

  /** Whether the whole of a file can be written: without memory only if it ends with a sector. */
  predicate Writable(inode: Inode, memory: bool)
    reads inode`denyWriteCnt
  {
    inode.length == 0 || (inode.denyWriteCnt == 0 && (memory || inode.length % 512 == 0))
  }

  /** bitmap_write: true exactly if the whole map gets into the file. */
  method BitmapWrite(b: Bitmap, disk: Disk, inode: Inode, memory: bool) returns (ok: bool)
    requires b.Valid() && OnDisk(inode.start, inode.length, disk.sectors) && inode.length == FileSize(b.bitCnt)
    modifies disk
    ensures |disk.sectors| == |old(disk.sectors)| && SameBeyond(inode, old(disk.sectors), disk.sectors)
    ensures ok <==> Writable(inode, memory)
    ensures ok ==> Content(disk.sectors, inode.start, inode.length) == Image(b.bits[..])
  {
    hide Image, Content, Patched, Overwritten;
    ghost var was := disk.sectors;
    var size := FileSize(b.bitCnt);
    var words := b.bits[..];
    var image := Image(words);
    var buffer := new Byte[size](i requires 0 <= i < size => image[i]);
    assert buffer[..] == image;
    TransferInFile(size, 0, inode.length, memory);
    var n := WriteAt(disk, inode, buffer, size, 0, memory);
    ok := n == size;
    PatchedBeyond(was, inode, 0, buffer[..n]);
    if ok {
      assert buffer[..n] == image;
      PatchedContent(was, inode.start, inode.length, 0, image);
      OverwrittenEnds(Content(was, inode.start, inode.length), image);
    }
  }
}
