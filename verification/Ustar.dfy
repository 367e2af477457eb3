/**
 Headers of ustar-format archives (lib/ustar.c), after the "ustar Interchange Format" of
 the pax utility in IEEE Std 1003.1-2001.
 */
module Ustar {
  import opened CStrings
  import opened Integers
  import Format

  type Byte = c: char | c as int < 256

  const HEADER_SIZE: nat := 512
  const INT_MAX: int := 0x7fff_ffff
  const ULONG_MAX: int := 0xffff_ffff

  datatype FileType = Regular | Directory

  function TypeByte(t: FileType): Byte { if t.Regular? then '0' else '5' }

  datatype Parsed = EndOfArchive | File(name: seq<Byte>, ftype: FileType, size: nat) | Err(message: string)

  // ----- Octal fields

  predicate OctalDigit(c: char) { '0' <= c <= '7' }

  function Digit(d: nat): (c: Byte)
    requires d < 8
    ensures OctalDigit(c) && DigitValue(c) == d
  {
    ('0' as int + d) as char
  }

  /** What "%0<w>o" prints for a value of at most w octal digits. */
  function Octal(v: nat, w: nat): (s: seq<Byte>)
    requires v < Format.Pow8(w)
    ensures |s| == w && forall i :: 0 <= i < w ==> OctalDigit(s[i])
  {
    if w == 0 then [] else Octal(v / 8, w - 1) + [Digit(v % 8)]
  }

  function DigitValue(c: Byte): (d: nat)
    requires OctalDigit(c)
    ensures d < 8
  {
    c as int - '0' as int
  }

  /** It is what "%0<w>o" prints. */
  lemma OctalIsPrinted(v: nat, w: nat)
    requires v < Format.Pow8(w) && w > 0
    ensures Format.BaseOk(Format.BASE_O)
    ensures Format.IntegerText(v, false, false, Format.BASE_O, OctalConversion(w)) == Octal(v, w)
  {
    hide Format.Grouped, Format.BaseOk, Format.Repeated, Octal;
    Format.OctalOk();
    var s := Format.Grouped(v, Format.BASE_O, false, 0);
    PaddedGroups(v, w, 0);
    PlainDigits(v, w);
    ZerosJoin(w - |Format.Digits(v, Format.BASE_O, OctalConversion(w))|, Format.Missing(-1, |s|), s);
    PaddedText(v, w);
  }

  lemma PlainDigits(v: nat, w: nat)
    requires Format.BaseOk(Format.BASE_O)
    ensures var s := Format.Grouped(v, Format.BASE_O, false, 0);
      Format.Digits(v, Format.BASE_O, OctalConversion(w)) == Format.Repeated('0', Format.Missing(-1, |s|)) + s
  {
    hide Format.Grouped, Format.BaseOk, Format.Repeated;
  }

  lemma PaddedText(v: nat, w: nat)
    requires Format.BaseOk(Format.BASE_O)
    ensures var digits := Format.Digits(v, Format.BASE_O, OctalConversion(w));
      Format.IntegerText(v, false, false, Format.BASE_O, OctalConversion(w))
        == Format.Repeated('0', Format.PadCount(w, |digits|)) + digits
  {
    hide Format.Digits, Format.BaseOk;
  }

  lemma ZerosJoin(m: nat, n: nat, s: string)
    ensures Format.Repeated('0', m) + (Format.Repeated('0', n) + s) == Format.Repeated('0', m + n) + s
  {
  }

  function OctalConversion(w: nat): Format.Conversion {
    Format.Conversion(false, false, false, false, true, false, w, -1)
  }

  lemma {:induction false} PaddedGroups(v: nat, w: nat, k: nat)
    requires v < Format.Pow8(w) && Format.BaseOk(Format.BASE_O)
    ensures var s := Format.Grouped(v, Format.BASE_O, false, k);
      |s| <= w && Format.Repeated('0', w - |s|) + s == Octal(v, w)
  {
    if w > 0 {
      PaddedGroups(v / 8, w - 1, k + 1);
      OctalDigits(v % 8);
      if v == 0 {
        assert Format.Repeated('0', w) == Format.Repeated('0', w - 1) + ['0'];
      } else {
        var s := Format.Grouped(v / 8, Format.BASE_O, false, k + 1);
        assert Format.Grouped(v, Format.BASE_O, false, k) == s + [Digit(v % 8)];
        assert Format.Repeated('0', w - 1 - |s|) + (s + [Digit(v % 8)]) == Octal(v, w);
      }
    }
  }

  lemma OctalDigits(d: nat)
    requires d < 8
    ensures Format.BASE_O.digits[d] == Digit(d)
  {
  }

  function OctalValue(s: seq<Byte>): nat
    requires forall i :: 0 <= i < |s| ==> OctalDigit(s[i])
  {
    if s == [] then 0 else 8 * OctalValue(s[..|s| - 1]) + DigitValue(s[|s| - 1])
  }

  lemma {:induction false} OctalRoundTrip(v: nat, w: nat)
    requires v < Format.Pow8(w)
    ensures OctalValue(Octal(v, w)) == v
  {
    if w > 0 {
      OctalRoundTrip(v / 8, w - 1);
      assert Octal(v, w)[..w - 1] == Octal(v / 8, w - 1);
    }
  }

  /** The length of the octal digits that `s` begins with. */
  function OctalRun(s: seq<Byte>): (n: nat)
    ensures n <= |s| && forall i :: 0 <= i < n ==> OctalDigit(s[i])
    ensures n < |s| ==> !OctalDigit(s[n])
  {
    if s == [] || !OctalDigit(s[0]) then 0 else 1 + OctalRun(s[1..])
  }

  /** A field holds one or more octal digits, then a space or a null, and its value fits. */
  predicate OctalField(s: seq<Byte>) {
    var n := OctalRun(s);
    0 < n < |s| && (s[n] == ' ' || s[n] == '\0') && OctalValue(s[..n]) <= ULONG_MAX
  }

  function FieldValue(s: seq<Byte>): nat {
    OctalValue(s[..OctalRun(s)])
  }

  lemma {:induction false} OctalRunIs(s: seq<Byte>, n: nat)
    requires n <= |s| && forall i :: 0 <= i < n ==> OctalDigit(s[i])
    requires n < |s| ==> !OctalDigit(s[n])
    ensures OctalRun(s) == n
  {
    if n > 0 {
      OctalRunIs(s[1..], n - 1);
    }
  }

  /** More digits never make the value smaller. */
  lemma {:induction false} OctalPrefix(s: seq<Byte>, n: nat)
    requires n <= |s| && forall i :: 0 <= i < |s| ==> OctalDigit(s[i])
    ensures OctalValue(s[..n]) <= OctalValue(s)
  {
    if n < |s| {
      OctalPrefix(s[..|s| - 1], n);
      assert s[..|s| - 1][..n] == s[..n];
    } else {
      assert s[..n] == s;
    }
  }

  /** parse_octal_field accepts exactly the well-formed fields, with their value. */
  method ParseOctalField(s: seq<Byte>) returns (ok: bool, value: nat)
    ensures ok <==> OctalField(s)
    ensures ok ==> value == FieldValue(s) < 0x1_0000_0000
  {
    value := 0;
    for ofs := 0 to |s|
      invariant forall i :: 0 <= i < ofs ==> OctalDigit(s[i])
      invariant value == OctalValue(s[..ofs]) <= ULONG_MAX
    {
      var c := s[ofs];
      assert s[..ofs + 1][..ofs] == s[..ofs];
      if OctalDigit(c) {
        if value > ULONG_MAX / 8 {
          TooLong(s, ofs + 1);
          return false, value;
        }
        value := DigitValue(c) + value * 8;
      } else {
        OctalRunIs(s, ofs);
        return (c == ' ' || c == '\0') && ofs > 0, value;
      }
    }
    OctalRunIs(s, |s|);
    ok := false;
  }

  lemma TooLong(s: seq<Byte>, n: nat)
    requires n <= |s| && forall i :: 0 <= i < n ==> OctalDigit(s[i])
    requires OctalValue(s[..n]) > ULONG_MAX
    ensures !OctalField(s)
  {
    var k := OctalRun(s);
    if n <= k {
      OctalPrefix(s[..k], n);
      assert s[..k][..n] == s[..n];
    }
  }

  /** A printed field parses to the value printed. */
  lemma PrintedField(v: nat, w: nat)
    requires v < Format.Pow8(w) && v <= ULONG_MAX && w > 0
    ensures var s := Octal(v, w) + ['\0']; OctalField(s) && FieldValue(s) == v
  {
    var s := Octal(v, w) + ['\0'];
    OctalRunIs(s, w);
    assert s[..w] == Octal(v, w);
    OctalRoundTrip(v, w);
  }

  // ----- File names

  predicate Slashed(name: seq<Byte>): (r: bool)
    ensures r ==> '/' in name
  {
    assert "/" <= name ==> name[0] == "/"[0];
    assert "./" <= name ==> name[1] == "./"[1];
    assert "../" <= name ==> name[2] == "../"[2];
    "/" <= name || "./" <= name || "../" <= name
  }

  function AfterSlash(name: seq<Byte>): (r: seq<Byte>)
    requires '/' in name
    ensures |r| < |name|
  {
    if name[0] == '/' then name[1..] else AfterSlash(name[1..])
  }

  function Stripped(name: seq<Byte>): seq<Byte>
    decreases |name|
  {
    if Slashed(name) then Stripped(AfterSlash(name))
    else if name == [] || name == ".." then "."
    else name
  }

  lemma NotSlashed(name: seq<Byte>)
    requires !Slashed(name)
    ensures !("/" <= name) && !("./" <= name) && !("../" <= name)
  {
  }

  predicate Safe(name: seq<Byte>) {
    name != [] && !("/" <= name) && !("../" <= name) && name != ".."
  }

  /** A stripped name is never empty, absolute or a step up, and keeps no leading "./". */
  lemma {:induction false} StrippedIsSafe(name: seq<Byte>)
    ensures Safe(Stripped(name)) && !("./" <= Stripped(name))
    decreases |name|
  {
    if Slashed(name) {
      StrippedIsSafe(AfterSlash(name));
    } else {
      NotSlashed(name);
      var dot: seq<Byte> := ".";
      assert dot[0] != "/"[0];
      assert Safe(dot);
    }
  }

  /** Path components that go nowhere or up, each with its slash. */
  ghost predicate Dots(path: seq<Byte>)
    decreases |path|
  {
    path == [] || exists n :: 1 <= n <= 3 && n <= |path| && Dot(path[..n]) && Dots(path[n..])
  }

  predicate Dot(part: seq<Byte>) { part == "/" || part == "./" || part == "../" }

  /** Only such components are taken off the front, and all of them; nothing or ".." becomes ".". */
  lemma {:induction false} StrippedIsRest(name: seq<Byte>) returns (k: nat)
    ensures k <= |name| && Dots(name[..k])
    ensures var rest := name[k..]; NoneAhead(rest) && Stripped(name) == if rest == "" || rest == ".." then "." else rest
    decreases |name|
  {
    hide *;
    if Slashed(name) {
      var n := DotAhead(name);
      var more := StrippedIsRest(name[n..]);
      k := n + more;
      OneMoreDot(name, n, more);
      assert name[n..][more..] == name[k..];
    } else {
      k := 0;
      NoDots(name);
    }
  }

  predicate NoneAhead(rest: seq<Byte>) { !("/" <= rest) && !("./" <= rest) && !("../" <= rest) }

  lemma NoDots(name: seq<Byte>)
    requires !Slashed(name)
    ensures Dots(name[..0]) && name[0..] == name && NoneAhead(name)
    ensures Stripped(name) == if name == "" || name == ".." then "." else name
  {
    NotSlashed(name);
  }

  lemma OneMoreDot(name: seq<Byte>, n: nat, more: nat)
    requires 1 <= n <= 3 && n + more <= |name| && Dot(name[..n]) && Dots(name[n..][..more])
    ensures Dots(name[..n + more])
  {
    var path := name[..n + more];
    assert path[..n] == name[..n] && path[n..] == name[n..][..more];
  }

  lemma DotAhead(name: seq<Byte>) returns (n: nat)
    requires Slashed(name)
    ensures 1 <= n <= 3 && n <= |name| && Dot(name[..n])
    ensures AfterSlash(name) == name[n..] && Stripped(name) == Stripped(name[n..])
  {
    if "/" <= name {
      n := 1;
    } else if "./" <= name {
      n := 2;
      assert name[0] == "./"[0] && name[1] == "./"[1];
      assert AfterSlash(name) == AfterSlash(name[1..]) == name[1..][1..];
    } else {
      n := 3;
      assert name[0] == "../"[0] && name[1] == "../"[1] && name[2] == "../"[2];
      assert AfterSlash(name) == AfterSlash(name[1..]) == AfterSlash(name[1..][1..]) == name[1..][1..][1..];
    }
  }

  /** Stripping again changes nothing. */
  lemma StripIdempotent(name: seq<Byte>)
    ensures Stripped(Stripped(name)) == Stripped(name)
  {
    StrippedIsSafe(name);
  }

  /** Stripping only drops bytes at the front: no null byte appears. */
  lemma {:induction false} StrippedBytes(name: seq<Byte>)
    requires '\0' !in name
    ensures '\0' !in Stripped(name)
    decreases |name|
  {
    if Slashed(name) {
      AfterSlashBytes(name);
      StrippedBytes(AfterSlash(name));
    }
  }

  lemma {:induction false} AfterSlashBytes(name: seq<Byte>)
    requires '/' in name
    ensures forall c :: c in AfterSlash(name) ==> c in name
  {
    if name[0] != '/' {
      AfterSlashBytes(name[1..]);
    }
  }

  method StripAntisocialPrefixes(fileName: seq<Byte>) returns (r: seq<Byte>)
    ensures r == Stripped(fileName)
  {
    var name := fileName;
    while "/" <= name || "./" <= name || "../" <= name
      invariant Stripped(name) == Stripped(fileName)
      decreases |name|
    {
      name := AfterSlash(name);
    }
    r := if name == [] || name == ".." then "." else name;
  }

  // ----- The header

  function Zeros(n: nat): (s: seq<Byte>)
    ensures |s| == n && forall i :: 0 <= i < n ==> s[i] == '\0'
  {
    seq(n, _ => '\0')
  }

  /** The sum of header bytes [0, n), with the checksum field's counted as spaces. */
  function Sum(h: seq<Byte>, n: nat): (s: nat)
    requires n <= |h|
    ensures s <= 255 * n
  {
    if n == 0 then 0 else Sum(h, n - 1) + if 148 <= n - 1 < 156 then 32 else h[n - 1] as int
  }

  method CalculateChksum(header: array<Byte>) returns (chksum: nat)
    requires header.Length == HEADER_SIZE
    ensures chksum == Sum(header[..], HEADER_SIZE)
  {
    chksum := 0;
    for i := 0 to HEADER_SIZE
      invariant chksum == Sum(header[..], i)
    {
      var inChksumField := 148 <= i < 156;
      chksum := chksum + if inChksumField then ' ' as int else header[i] as int;
    }
  }

  /** The checksum does not depend on its own field. */
  lemma {:induction false} SumIgnoresField(h: seq<Byte>, g: seq<Byte>, n: nat)
    requires |h| == |g| == HEADER_SIZE && n <= HEADER_SIZE
    requires forall i :: 0 <= i < HEADER_SIZE && !(148 <= i < 156) ==> h[i] == g[i]
    ensures Sum(h, n) == Sum(g, n)
  {
    if n > 0 {
      SumIgnoresField(h, g, n - 1);
    }
  }

  ghost function PlainSum(h: seq<Byte>): nat {
    if h == [] then 0 else PlainSum(h[..|h| - 1]) + h[|h| - 1] as int
  }

  /** It is the sum of the bytes of the header with spaces in that field. */
  lemma {:induction false} SumOfSpaces(h: seq<Byte>, g: seq<Byte>, n: nat)
    requires |h| == |g| == HEADER_SIZE && n <= HEADER_SIZE
    requires forall i :: 0 <= i < HEADER_SIZE ==> g[i] == if 148 <= i < 156 then ' ' else h[i]
    ensures Sum(h, n) == PlainSum(g[..n])
  {
    if n > 0 {
      SumOfSpaces(h, g, n - 1);
      assert g[..n][..n - 1] == g[..n - 1];
    }
  }

  lemma {:induction false} SumChanged(h: seq<Byte>, k: nat, c: Byte, n: nat)
    requires |h| == HEADER_SIZE && k < HEADER_SIZE && !(148 <= k < 156) && n <= HEADER_SIZE
    ensures Sum(h[k := c], n) == Sum(h, n) + if k < n then c as int - h[k] as int else 0
  {
    if n > 0 {
      SumChanged(h, k, c, n - 1);
    }
  }

  predicate At(h: seq<Byte>, ofs: nat, bytes: seq<Byte>) {
    ofs + |bytes| <= |h| && forall i :: ofs <= i < ofs + |bytes| ==> h[i] == bytes[i - ofs]
  }

  function Unsigned(x: I32): nat { if x < 0 then x + 0x1_0000_0000 else x }

  lemma Pow8Values()
    ensures Format.Pow8(7) == 0x20_0000 && Format.Pow8(11) == 0x2_0000_0000
  {
    assert Format.Pow8(3) == 512;
    assert Format.Pow8(7) == 8 * (8 * (8 * (8 * Format.Pow8(3))));
    assert Format.Pow8(11) == 8 * (8 * (8 * (8 * Format.Pow8(7))));
  }

  /** The fields before the checksum. */
  ghost predicate FrontFilled(h: seq<Byte>, name: seq<Byte>, ftype: FileType, size: I32) {
    Pow8Values();
    && |h| == HEADER_SIZE && |name| <= 99
    && At(h, 0, name) && At(h, |name|, Zeros(100 - |name|))
    && At(h, 100, Octal(if ftype.Regular? then 420 else 493, 7) + ['\0'])
    && At(h, 108, "0000000\0") && At(h, 116, "0000000\0")
    && At(h, 124, Octal(Unsigned(size), 11) + ['\0'])
    && At(h, 136, Octal(1136102400, 11) + ['\0'])
  }

  /** The fields after it. */
  ghost predicate BackFilled(h: seq<Byte>, ftype: FileType) {
    && |h| == HEADER_SIZE
    && h[156] == TypeByte(ftype) && At(h, 157, Zeros(100))
    && At(h, 257, "ustar\0") && h[263] == h[264] == '0'
    && At(h, 265, "root") && At(h, 269, Zeros(28))
    && At(h, 297, "root") && At(h, 301, Zeros(211))
  }

  ghost predicate IsHeader(h: seq<Byte>, name: seq<Byte>, ftype: FileType, size: I32) {
    Pow8Values();
    FrontFilled(h, name, ftype, size) && BackFilled(h, ftype) && At(h, 148, Octal(Sum(h, HEADER_SIZE), 7) + ['\0'])
  }

  /** Copies BYTES into the header from OFS on. */
  method Put(h: array<Byte>, ofs: nat, bytes: seq<Byte>)
    requires h.Length == HEADER_SIZE && ofs + |bytes| <= HEADER_SIZE
    modifies h
    ensures forall i :: ofs <= i < ofs + |bytes| ==> h[i] == bytes[i - ofs]
    ensures forall i :: 0 <= i < HEADER_SIZE && !(ofs <= i < ofs + |bytes|) ==> h[i] == old(h[i])
  {
    for i := 0 to |bytes|
      invariant forall j :: ofs <= j < ofs + i ==> h[j] == bytes[j - ofs]
      invariant forall j :: 0 <= j < HEADER_SIZE && !(ofs <= j < ofs + i) ==> h[j] == old(h[j])
    {
      h[ofs + i] := bytes[i];
    }
  }

  /** Fails exactly for stripped names longer than 99 bytes, leaving the header as it was. */
  method MakeHeader(fileName: seq<Byte>, ftype: FileType, size: I32, h: array<Byte>) returns (ok: bool)
    requires h.Length == HEADER_SIZE
    modifies h
    ensures ok <==> |Stripped(fileName)| <= 99
    ensures ok ==> IsHeader(h[..], Stripped(fileName), ftype, size)
    ensures !ok ==> h[..] == old(h[..])
  {
    hide Stripped, Sum, FrontFilled, BackFilled;
    var name := StripAntisocialPrefixes(fileName);
    if |name| > 99 {
      return false;
    }
    FillFront(name, ftype, size, h);
    ghost var front := h[..];
    FillBack(ftype, h);
    ghost var filled := h[..];
    Pow8Values();
    hide Octal, Format.Pow8;
    var chksum := CalculateChksum(h);
    Put(h, 148, Octal(chksum, 7) + ['\0']);
    SumIgnoresField(filled, h[..], HEADER_SIZE);
    FrontKept(front, h[..], name, ftype, size);
    BackKept(filled, h[..], ftype);
    ok := true;
  }

  lemma FrontKept(h: seq<Byte>, g: seq<Byte>, name: seq<Byte>, ftype: FileType, size: I32)
    requires FrontFilled(h, name, ftype, size) && |g| == HEADER_SIZE && forall i :: 0 <= i < 148 ==> h[i] == g[i]
    ensures FrontFilled(g, name, ftype, size)
  {
    hide Octal, Format.Pow8;
  }

  lemma BackKept(h: seq<Byte>, g: seq<Byte>, ftype: FileType)
    requires BackFilled(h, ftype) && |g| == HEADER_SIZE && forall i :: 156 <= i < HEADER_SIZE ==> h[i] == g[i]
    ensures BackFilled(g, ftype)
  {
  }

  method FillFront(name: seq<Byte>, ftype: FileType, size: I32, h: array<Byte>)
    requires h.Length == HEADER_SIZE && |name| <= 99
    modifies h
    ensures FrontFilled(h[..], name, ftype, size)
    ensures forall i :: 148 <= i < HEADER_SIZE ==> h[i] == '\0'
  {
    Pow8Values();
    hide Octal, Format.Pow8;
    Put(h, 0, Zeros(HEADER_SIZE));
    Put(h, 0, name + ['\0']);
    Put(h, 100, Octal(if ftype.Regular? then 420 else 493, 7) + ['\0']);
    Put(h, 108, "0000000\0");
    Put(h, 116, "0000000\0");
    Put(h, 124, Octal(Unsigned(size), 11) + ['\0']);
    Put(h, 136, Octal(1136102400, 11) + ['\0']);
  }

  method FillBack(ftype: FileType, h: array<Byte>)
    requires h.Length == HEADER_SIZE
    requires forall i :: 148 <= i < HEADER_SIZE ==> h[i] == '\0'
    modifies h
    ensures BackFilled(h[..], ftype)
    ensures forall i :: 0 <= i < 156 ==> h[i] == old(h[i])
  {
    h[156] := TypeByte(ftype);
    Put(h, 257, "ustar\0");
    h[263], h[264] := '0', '0';
    Put(h, 297, "root\0");
    Put(h, 265, "root\0");
  }

  // ----- Parsing

  /** What ustar_parse_header finds in a header. */
  function Parse(h: seq<Byte>): Parsed
    requires |h| == HEADER_SIZE
  {
    if forall i :: 0 <= i < HEADER_SIZE ==> h[i] == '\0' then EndOfArchive
    else if h[257..263] != "ustar\0" then Err("not a ustar archive")
    else if h[263] != '0' || h[264] != '0' then Err("invalid ustar version")
    else if !OctalField(h[148..156]) then Err("corrupt chksum field")
    else if FieldValue(h[148..156]) != Sum(h, HEADER_SIZE) then Err("checksum mismatch")
    else if h[99] != '\0' || h[345] != '\0' then Err("file name too long")
    else if h[156] != '0' && h[156] != '5' then Err("unimplemented file type")
    else if h[156] == '5' then File(Stripped(CString<Byte>(h[..100], '\0')), Directory, 0)
    else if !OctalField(h[124..136]) then Err("corrupt file size field")
    else if FieldValue(h[124..136]) > INT_MAX then Err("file too large")
    else File(Stripped(CString<Byte>(h[..100], '\0')), Regular, FieldValue(h[124..136]))
  }

  method IsAllZeros(h: array<Byte>) returns (zeros: bool)
    ensures zeros <==> forall i :: 0 <= i < h.Length ==> h[i] == '\0'
  {
    for i := 0 to h.Length
      invariant forall j :: 0 <= j < i ==> h[j] == '\0'
    {
      if h[i] != '\0' {
        return false;
      }
    }
    return true;
  }

  method ParseHeader(h: array<Byte>) returns (r: Parsed)
    requires h.Length == HEADER_SIZE
    ensures r == Parse(h[..])
  {
    hide OctalField, FieldValue, Sum, Stripped, CString;
    var zeros := IsAllZeros(h);
    if zeros {
      return EndOfArchive;
    }
    assert h[..][257..263] == h[257..263] && h[..][148..156] == h[148..156];
    assert h[..][124..136] == h[124..136] && h[..][..100] == h[..100];
    if h[257..263] != "ustar\0" {
      return Err("not a ustar archive");
    } else if h[263] != '0' || h[264] != '0' {
      return Err("invalid ustar version");
    }
    var ok, chksum := ParseOctalField(h[148..156]);
    if !ok {
      return Err("corrupt chksum field");
    }
    var sum := CalculateChksum(h);
    if chksum != sum {
      return Err("checksum mismatch");
    } else if h[99] != '\0' || h[345] != '\0' {
      return Err("file name too long");
    } else if h[156] != '0' && h[156] != '5' {
      return Err("unimplemented file type");
    }
    var sizeUl := 0;
    if h[156] == '0' {
      ok, sizeUl := ParseOctalField(h[124..136]);
      if !ok {
        return Err("corrupt file size field");
      } else if sizeUl > INT_MAX {
        return Err("file too large");
      }
    }
    var fileName := StripAntisocialPrefixes(CString<Byte>(h[..100], '\0'));
    return File(fileName, if h[156] == '0' then Regular else Directory, sizeUl);
  }

  /** Parsing inverts making: the stripped name, the type and the size come back, a directory's
      size as 0; only a regular file of negative size is refused. */
  lemma RoundTrip(fileName: seq<Byte>, ftype: FileType, size: I32, h: seq<Byte>)
    requires '\0' !in fileName && |Stripped(fileName)| <= 99
    requires IsHeader(h, Stripped(fileName), ftype, size)
    ensures Parse(h) == if ftype.Directory? then File(Stripped(fileName), Directory, 0)
      else if size < 0 then Err("file too large")
      else File(Stripped(fileName), Regular, size)
  {
    hide Octal, Format.Pow8, Sum, Stripped, CString, OctalField, FieldValue;
    Pow8Values();
    var name := Stripped(fileName);
    StrippedBytes(fileName);
    StripIdempotent(fileName);
    assert h[..100] == name + Zeros(100 - |name|);
    CStringOf<Byte>(name, Zeros(100 - |name|), '\0');
    assert h[148..156] == Octal(Sum(h, HEADER_SIZE), 7) + ['\0'];
    PrintedField(Sum(h, HEADER_SIZE), 7);
    assert h[124..136] == Octal(Unsigned(size), 11) + ['\0'];
    PrintedField(Unsigned(size), 11);
    assert h[257..263] == "ustar\0";
    assert h[345] == '\0' && h[99] == '\0';
    assert h[257] != '\0';
  }

  /** Whatever the header, a parsed name is safe to extract to. */
  lemma ParsedNameIsSafe(h: seq<Byte>)
    requires |h| == HEADER_SIZE && Parse(h).File?
    ensures Safe(Parse(h).name) && Parse(h).size <= INT_MAX
  {
    StrippedIsSafe(CString<Byte>(h[..100], '\0'));
  }

  /** Changing any one byte outside the checksum field of an accepted header is detected. */
  lemma OneByteDetected(h: seq<Byte>, k: nat, c: Byte)
    requires |h| == HEADER_SIZE && Parse(h).File? && k < HEADER_SIZE && !(148 <= k < 156) && c != h[k]
    ensures Parse(h[k := c]).Err?
  {
    hide OctalField, FieldValue, Sum, Stripped, CString;
    var g := h[k := c];
    SumChanged(h, k, c, HEADER_SIZE);
    assert g[148..156] == h[148..156];
    assert h[257..263] == "ustar\0" ==> h[257] == 'u' && h[258] == 's';
    assert g[257] != '\0' || g[258] != '\0';
  }
}
