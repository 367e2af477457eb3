/**
 The two-level x86 page directory (userprog/pagedir.c, threads/pte.h, threads/vaddr.h), with
 entries as in section 3.7.6 of the IA-32 Software Developer's Manual, Volume 3A: a partial
 map from user pages to frames and their flags.
 */
module PageDirectory {
  import opened Options
  import opened Order

  const PHYS_BASE: bv32 := 0xc000_0000
  const PTE_ADDR: bv32 := 0xffff_f000
  const PTE_P: bv32 := 0x1
  const PTE_W: bv32 := 0x2
  const PTE_U: bv32 := 0x4
  const PTE_A: bv32 := 0x20
  const PTE_D: bv32 := 0x40

  // ----- Addresses

  function PgOfs(va: bv32): bv32 { va & 0xfff }

  function PgRoundDown(va: bv32): bv32 { va & !0xfff }

  function PdIndex(va: bv32): bv32 { va >> 22 }

  function PtIndex(va: bv32): bv32 { (va & 0x003f_f000) >> 12 }

  predicate IsUser(va: bv32) { va < PHYS_BASE }

  function PdNo(va: bv32): (i: nat)
    ensures i < 1024
    ensures IsUser(va) ==> i < 768
  {
    assert PdIndex(va) < 1024;
    assert va < PHYS_BASE ==> PdIndex(va) < 768;
    PdIndex(va) as nat
  }

  function PtNo(va: bv32): (j: nat)
    ensures j < 1024
  {
    assert PtIndex(va) < 1024;
    PtIndex(va) as nat
  }

  predicate IsUserPage(u: bv32) { IsUser(u) && PgOfs(u) == 0 }

  predicate IsKernelPage(p: bv32) { p >= PHYS_BASE && PgOfs(p) == 0 }

  function Vtop(p: bv32): bv32
    requires IsKernelPage(p)
  {
    p - PHYS_BASE
  }

  /** The three parts of an address determine it. */
  lemma AddressParts(va: bv32, wa: bv32)
    ensures va == wa <==> PdNo(va) == PdNo(wa) && PtNo(va) == PtNo(wa) && PgOfs(va) == PgOfs(wa)
  {
    assert (PdNo(va) as bv32) == PdIndex(va) && (PdNo(wa) as bv32) == PdIndex(wa);
    assert (PtNo(va) as bv32) == PtIndex(va) && (PtNo(wa) as bv32) == PtIndex(wa);
    PartsOfWords(va, wa);
  }

  lemma PartsOfWords(va: bv32, wa: bv32)
    ensures PdIndex(va) == PdIndex(wa) && PtIndex(va) == PtIndex(wa) && PgOfs(va) == PgOfs(wa) ==> va == wa
  {
  }

  /** An address and its page have the same table entry. */
  lemma PageOf(va: bv32)
    ensures PdNo(PgRoundDown(va)) == PdNo(va) && PtNo(PgRoundDown(va)) == PtNo(va)
    ensures PgOfs(PgRoundDown(va)) == 0 && (IsUser(va) ==> IsUserPage(PgRoundDown(va)))
  {
    assert PdIndex(PgRoundDown(va)) == PdIndex(va) && PtIndex(PgRoundDown(va)) == PtIndex(va);
  }

  // ----- Entries

  function PdeCreate(pt: bv32): bv32
    requires IsKernelPage(pt)
  {
    Vtop(pt) | PTE_U | PTE_P | PTE_W
  }

  function PteCreateUser(page: bv32, writable: bool): bv32
    requires IsKernelPage(page)
  {
    Vtop(page) | PTE_P | (if writable then PTE_W else 0) | PTE_U
  }

  function Bit(pte: bv32, flag: bv32): bool { pte & flag != 0 }

  function AddrOf(pte: bv32): bv32 { pte & PTE_ADDR }

  /** The physical address that an entry holds, and that of a kernel page, as numbers. */
  function Frame(pte: bv32): nat { AddrOf(pte) as nat }

  function Physical(page: bv32): nat
    requires IsKernelPage(page)
  {
    Vtop(page) as nat
  }

  function WithFlag(pte: bv32, flag: bv32, on: bool): bv32 {
    if on then pte | flag else pte & !flag
  }

  predicate Present(pte: bv32) { Bit(pte, PTE_P) }

  function Cleared(pte: bv32): bv32 { pte & !PTE_P }

  /** The present bit is off and every other bit is as it was. */
  predicate OnlyCleared(was: bv32, now: bv32) { !Present(now) && now | PTE_P == was | PTE_P }

  /** Kernel virtual address of byte pg_ofs (va) of a frame. The frame is below PHYS_BASE
      whenever it came from pagedir_set_page, and then ptov does not wrap. */
  function Byte(frame: bv32, va: bv32): bv32 {
    frame + PHYS_BASE + PgOfs(va)
  }

  datatype Mapping = Mapping(frame: bv32, writable: bool, user: bool, accessed: bool, dirty: bool)

  /** What a present entry says; `frame` is a physical address. */
  function Decode(pte: bv32): Option<Mapping> {
    if !Present(pte) then None
    else Some(Mapping(AddrOf(pte), Bit(pte, PTE_W), Bit(pte, PTE_U), Bit(pte, PTE_A), Bit(pte, PTE_D)))
  }

  /** Decoding inverts encoding. */
  lemma EntryRoundTrip(page: bv32, writable: bool)
    requires IsKernelPage(page)
    ensures Decode(PteCreateUser(page, writable)) == Some(Mapping(Vtop(page), writable, true, false, false))
    ensures Present(PdeCreate(page)) && PdeCreate(page) != 0 && Frame(PdeCreate(page)) == Physical(page)
  {
  }

  /** What is created is for the user. */
  lemma CreatedForUser(page: bv32, writable: bool)
    requires IsKernelPage(page)
    ensures OpenToUser(PdeCreate(page)) && ForUser(PteCreateUser(page, writable))
  {
    LowBits(Vtop(page), writable);
  }

  lemma LowBits(word: bv32, writable: bool)
    ensures OpenToUser(word | PTE_U | PTE_P | PTE_W)
    ensures ForUser(word | PTE_P | (if writable then PTE_W else 0) | PTE_U)
  {
  }

  /** The processor looks at bits 0 to 2 of an entry: present, writable, accessible to the user. */
  predicate OpenToUser(pde: bv32) { pde & 0x7 == 0x7 }

  /** Whether the processor lets user code read through the two entries, or write. */
  predicate Lets(pde: bv32, pte: bv32, write: bool) {
    && pde & 0x1 != 0 && pte & 0x1 != 0 && pde & 0x4 != 0 && pte & 0x4 != 0
    && (write ==> pde & 0x2 != 0 && pte & 0x2 != 0)
  }

  /** Access is what the table entry says, as the directory entry allows everything. */
  lemma LetsAsMapped(pde: bv32, pte: bv32, write: bool)
    requires OpenToUser(pde)
    ensures Lets(pde, pte, write) <==> match Decode(pte)
      case None => false
      case Some(m) => m.user && (write ==> m.writable)
  {
    OpenBits(pde);
    hide OpenToUser;
  }

  lemma NothingLets(pte: bv32, write: bool)
    ensures !Lets(0, pte, write)
  {
  }

  lemma OpenBits(pde: bv32)
    requires OpenToUser(pde)
    ensures pde & 0x1 != 0 && pde & 0x2 != 0 && pde & 0x4 != 0
  {
  }

  /** A lookup through an entry created for a kernel page leads to the byte at the same offset in that page. */
  lemma ByteOfPage(page: bv32, writable: bool, va: bv32)
    requires page >= 0xc000_0000 && page & 0xfff == 0
    ensures Decode(PteCreateUser(page, writable)).Some?
    ensures Byte(Decode(PteCreateUser(page, writable)).value.frame, va) == page + (va & 0xfff)
    ensures Decode(PteCreateUser(page, writable)).value.frame == page - 0xc000_0000
  {
    FrameOfPage(page);
    ByteIs(page - 0xc000_0000, va);
    AddBack(page, va & 0xfff);
    hide *;
    EntryRoundTrip(page, writable);
  }

  lemma FrameOfPage(page: bv32)
    requires page >= 0xc000_0000 && page & 0xfff == 0
    ensures IsKernelPage(page) && Vtop(page) == page - 0xc000_0000
  {
  }

  lemma ByteIs(frame: bv32, va: bv32)
    ensures Byte(frame, va) == frame + 0xc000_0000 + (va & 0xfff)
  {
    assert PgOfs(va) == va & 0xfff;
  }

  lemma AddBack(page: bv32, ofs: bv32)
    ensures page - 0xc000_0000 + 0xc000_0000 + ofs == page + ofs
  {
  }

  /** The bits of an entry that the processor keeps or obeys: section 3.7.6 of that manual. */
  lemma EntryLayout(pte: bv32)
    ensures Decode(pte) == if pte & 0x1 == 0 then None
      else Some(Mapping(pte & 0xffff_f000, pte & 0x2 != 0, pte & 0x4 != 0, pte & 0x20 != 0, pte & 0x40 != 0))
  {
  }

  lemma PresentCleared(pte: bv32)
    ensures Decode(Cleared(pte)) == None && OnlyCleared(pte, Cleared(pte)) && ForUser(Cleared(pte))
    ensures !Present(pte) ==> Decode(pte) == None && OnlyCleared(pte, pte)
  {
  }

  /** Bits apart from a flag do not notice it being set or cleared. */
  lemma SetApart(pte: bv32, flag: bv32, other: bv32)
    requires flag & other == 0
    ensures Bit(pte | flag, other) == Bit(pte, other)
  {
  }

  lemma ClearApart(pte: bv32, flag: bv32, other: bv32)
    requires flag & other == 0
    ensures Bit(pte & !flag, other) == Bit(pte, other)
  {
  }

  lemma FlagApart(pte: bv32, flag: bv32, on: bool, other: bv32)
    requires flag & other == 0
    ensures Bit(WithFlag(pte, flag, on), other) == Bit(pte, other)
  {
    hide Bit;
    SetApart(pte, flag, other);
    ClearApart(pte, flag, other);
    assert WithFlag(pte, flag, on) == if on then pte | flag else pte & !flag;
  }

  lemma AddressOfSet(pte: bv32)
    ensures AddrOf(pte | PTE_D) == AddrOf(pte)
    ensures AddrOf(pte | PTE_A) == AddrOf(pte)
  {
  }

  lemma AddressOfCleared(pte: bv32)
    ensures AddrOf(pte & !PTE_D) == AddrOf(pte)
    ensures AddrOf(pte & !PTE_A) == AddrOf(pte)
  {
  }

  lemma DirtyAddress(pte: bv32, on: bool)
    ensures AddrOf(WithFlag(pte, PTE_D, on)) == AddrOf(pte)
  {
    hide AddrOf;
    AddressOfSet(pte);
    AddressOfCleared(pte);
    assert WithFlag(pte, PTE_D, on) == if on then pte | PTE_D else pte & !PTE_D;
  }

  lemma AccessedAddress(pte: bv32, on: bool)
    ensures AddrOf(WithFlag(pte, PTE_A, on)) == AddrOf(pte)
  {
    hide AddrOf;
    AddressOfSet(pte);
    AddressOfCleared(pte);
    assert WithFlag(pte, PTE_A, on) == if on then pte | PTE_A else pte & !PTE_A;
  }

  lemma FlagItself(pte: bv32, flag: bv32)
    requires flag != 0
    ensures Bit(pte | flag, flag) && !Bit(pte & !flag, flag)
  {
  }

  lemma FlagSet(pte: bv32, flag: bv32, on: bool)
    requires flag != 0
    ensures Bit(WithFlag(pte, flag, on), flag) == on
  {
    hide Bit;
    FlagItself(pte, flag);
    assert WithFlag(pte, flag, on) == if on then pte | flag else pte & !flag;
  }

  lemma DirtyChanged(pte: bv32, dirty: bool)
    ensures Decode(WithFlag(pte, PTE_D, dirty))
      == match Decode(pte) case None => None case Some(m) => Some(m.(dirty := dirty))
    ensures ForUser(WithFlag(pte, PTE_D, dirty)) <==> ForUser(pte)
  {
    hide Bit, WithFlag, AddrOf;
    FlagSet(pte, PTE_D, dirty);
    DirtyAddress(pte, dirty);
    FlagApart(pte, PTE_D, dirty, PTE_P);
    FlagApart(pte, PTE_D, dirty, PTE_W);
    FlagApart(pte, PTE_D, dirty, PTE_A);
    FlagApart(pte, PTE_D, dirty, PTE_U);
  }

  lemma AccessedChanged(pte: bv32, accessed: bool)
    ensures Decode(WithFlag(pte, PTE_A, accessed))
      == match Decode(pte) case None => None case Some(m) => Some(m.(accessed := accessed))
    ensures ForUser(WithFlag(pte, PTE_A, accessed)) <==> ForUser(pte)
  {
    hide Bit, WithFlag, AddrOf;
    FlagSet(pte, PTE_A, accessed);
    AccessedAddress(pte, accessed);
    FlagApart(pte, PTE_A, accessed, PTE_P);
    FlagApart(pte, PTE_A, accessed, PTE_W);
    FlagApart(pte, PTE_A, accessed, PTE_D);
    FlagApart(pte, PTE_A, accessed, PTE_U);
  }

  lemma NoEntry()
    ensures Decode(0) == None && !Present(0) && !Bit(0, PTE_D) && !Bit(0, PTE_A) && ForUser(0)
  {
  }

  // ----- What destroying frees

  /** The frames that the first `n` entries of a page table map, in order. */
  function TableFrees(pt: seq<bv32>, n: nat): seq<nat>
    requires n <= |pt|
  {
    if n == 0 then []
    else TableFrees(pt, n - 1) + if Present(pt[n - 1]) then [Frame(pt[n - 1])] else []
  }

  /** The user part of a directory: each entry in use is present and has a page table of its own. */
  ghost predicate DirOk(dir: seq<bv32>, tables: map<nat, seq<bv32>>) {
    && (forall i :: 0 <= i < |dir| && dir[i] != 0 ==>
          Present(dir[i]) && Frame(dir[i]) in tables && |tables[Frame(dir[i])]| == 1024)
    && (forall i, k :: 0 <= i < k < |dir| && dir[i] != 0 && dir[k] != 0 ==> Frame(dir[i]) != Frame(dir[k]))
  }

  /** What is mapped is mapped for the user. */
  predicate ForUser(pte: bv32) { Present(pte) ==> Bit(pte, PTE_U) }

  /** Nothing in the user part of a directory is the kernel's alone. */
  ghost predicate AllForUser(dir: seq<bv32>, tables: map<nat, seq<bv32>>)
    requires DirOk(dir, tables)
  {
    && (forall i :: 0 <= i < |dir| && dir[i] != 0 ==> OpenToUser(dir[i]))
    && (forall i, j :: 0 <= i < |dir| && dir[i] != 0 && 0 <= j < 1024 ==> ForUser(tables[Frame(dir[i])][j]))
  }

  /** The frees for one directory entry: the frames its table maps, then the table. */
  ghost function EntryFrees(dir: seq<bv32>, tables: map<nat, seq<bv32>>, k: nat): seq<nat>
    requires DirOk(dir, tables) && k < |dir|
  {
    if dir[k] == 0 then [] else TableFrees(tables[Frame(dir[k])], 1024) + [Frame(dir[k])]
  }

  ghost function DirFrees(dir: seq<bv32>, tables: map<nat, seq<bv32>>, n: nat): seq<nat>
    requires DirOk(dir, tables) && n <= |dir|
  {
    if n == 0 then [] else DirFrees(dir, tables, n - 1) + EntryFrees(dir, tables, n - 1)
  }

  /** Entry j of table i maps a page. */
  ghost predicate Mapped(dir: seq<bv32>, tables: map<nat, seq<bv32>>, i: nat, j: nat)
    requires DirOk(dir, tables)
  {
    i < |dir| && j < 1024 && dir[i] != 0 && Present(tables[Frame(dir[i])][j])
  }

  ghost function MappedFrame(dir: seq<bv32>, tables: map<nat, seq<bv32>>, i: nat, j: nat): nat
    requires DirOk(dir, tables) && Mapped(dir, tables, i, j)
  {
    Frame(tables[Frame(dir[i])][j])
  }

  ghost predicate SameFrame(dir: seq<bv32>, tables: map<nat, seq<bv32>>, i: nat, j: nat, k: nat, l: nat)
    requires DirOk(dir, tables)
  {
    && Mapped(dir, tables, i, j) && Mapped(dir, tables, k, l)
    && MappedFrame(dir, tables, i, j) == MappedFrame(dir, tables, k, l)
  }

  /** x is the page table of directory entry k, or a frame mapped through it. */
  ghost predicate Under(dir: seq<bv32>, tables: map<nat, seq<bv32>>, k: nat, x: nat)
    requires DirOk(dir, tables)
  {
    && k < |dir| && dir[k] != 0
    && (x == Frame(dir[k]) || exists j: nat :: Mapped(dir, tables, k, j) && MappedFrame(dir, tables, k, j) == x)
  }

  ghost predicate Reached(dir: seq<bv32>, tables: map<nat, seq<bv32>>, x: nat)
    requires DirOk(dir, tables)
  {
    exists k: nat :: Under(dir, tables, k, x)
  }

  /** No frame is mapped twice, and none is a page table. */
  ghost predicate FramesApart(dir: seq<bv32>, tables: map<nat, seq<bv32>>)
    requires DirOk(dir, tables)
  {
    && (forall i: nat, j: nat, k: nat, l: nat :: SameFrame(dir, tables, i, j, k, l) ==> i == k && j == l)
    && (forall i: nat, j: nat, k: nat :: Mapped(dir, tables, i, j) && k < |dir| && dir[k] != 0 ==>
          MappedFrame(dir, tables, i, j) != Frame(dir[k]))
  }

  lemma {:induction false} TableFreesExactly(pt: seq<bv32>, n: nat)
    requires n <= |pt|
    ensures forall x: nat :: x in TableFrees(pt, n) <==> exists j :: 0 <= j < n && Present(pt[j]) && Frame(pt[j]) == x
    ensures (forall j, l :: 0 <= j < l < n && Present(pt[j]) && Present(pt[l]) ==> Frame(pt[j]) != Frame(pt[l])) ==>
      && Distinct(TableFrees(pt, n))
  {
    hide Present, Frame;
    if n > 0 {
      TableFreesExactly(pt, n - 1);
      if Distinct(TableFrees(pt, n - 1)) && Frame(pt[n - 1]) !in TableFrees(pt, n - 1) {
        DistinctJoin(TableFrees(pt, n - 1), [Frame(pt[n - 1])]);
      }
    }
  }

  lemma EntryFreesExactly(dir: seq<bv32>, tables: map<nat, seq<bv32>>, k: nat)
    requires DirOk(dir, tables) && k < |dir|
    ensures forall x: nat :: x in EntryFrees(dir, tables, k) <==> Under(dir, tables, k, x)
    ensures FramesApart(dir, tables) ==> Distinct(EntryFrees(dir, tables, k))
  {
    hide Present, Frame, TableFrees;
    if dir[k] != 0 {
      var pt, fs := tables[Frame(dir[k])], TableFrees(tables[Frame(dir[k])], 1024);
      TableFreesExactly(pt, 1024);
      forall x ensures x in fs <==> exists j: nat :: Mapped(dir, tables, k, j) && MappedFrame(dir, tables, k, j) == x {
        if j: nat :| Mapped(dir, tables, k, j) && MappedFrame(dir, tables, k, j) == x {
          assert Present(pt[j]) && Frame(pt[j]) == x;
        }
        if x in fs {
          var j :| 0 <= j < 1024 && Present(pt[j]) && Frame(pt[j]) == x;
          assert Mapped(dir, tables, k, j) && MappedFrame(dir, tables, k, j) == x;
        }
      }
      if FramesApart(dir, tables) {
        forall j, l | 0 <= j < l < 1024 && Present(pt[j]) && Present(pt[l]) ensures Frame(pt[j]) != Frame(pt[l]) {
          assert Mapped(dir, tables, k, j) && Mapped(dir, tables, k, l);
          assert !SameFrame(dir, tables, k, j, k, l);
        }
        DistinctJoin(fs, [Frame(dir[k])]);
      }
    }
  }

  lemma UnderApart(dir: seq<bv32>, tables: map<nat, seq<bv32>>, k: nat, l: nat, x: nat)
    requires DirOk(dir, tables) && FramesApart(dir, tables) && Under(dir, tables, k, x) && Under(dir, tables, l, x)
    ensures k == l
  {
    hide Present, Frame;
    if x == Frame(dir[k]) || x == Frame(dir[l]) {
    } else {
      var i: nat :| Mapped(dir, tables, k, i) && MappedFrame(dir, tables, k, i) == x;
      var j: nat :| Mapped(dir, tables, l, j) && MappedFrame(dir, tables, l, j) == x;
      assert SameFrame(dir, tables, k, i, l, j);
    }
  }

  /** Destroying frees every user page table and every frame mapped through one, and nothing
      else; each once, if no two pages share a frame. */
  lemma {:induction false} DirFreesExactly(dir: seq<bv32>, tables: map<nat, seq<bv32>>, n: nat)
    requires DirOk(dir, tables) && n <= |dir|
    ensures forall x: nat :: x in DirFrees(dir, tables, n) <==> exists k: nat :: k < n && Under(dir, tables, k, x)
    ensures FramesApart(dir, tables) ==> Distinct(DirFrees(dir, tables, n))
  {
    hide Present, Frame, TableFrees, EntryFrees, Under, FramesApart, DirOk;
    if n > 0 {
      var some, more := DirFrees(dir, tables, n - 1), EntryFrees(dir, tables, n - 1);
      DirFreesExactly(dir, tables, n - 1);
      EntryFreesExactly(dir, tables, n - 1);
      if FramesApart(dir, tables) {
        forall x | x in some ensures x !in more {
          var k: nat :| k < n - 1 && Under(dir, tables, k, x);
          if Under(dir, tables, n - 1, x) {
            UnderApart(dir, tables, k, n - 1, x);
          }
        }
        DistinctJoin(some, more);
      }
    }
  }

  lemma WholeFrees(dir: seq<bv32>, tables: map<nat, seq<bv32>>)
    requires DirOk(dir, tables)
    ensures forall x: nat :: x in DirFrees(dir, tables, |dir|) <==> Reached(dir, tables, x)
    ensures FramesApart(dir, tables) ==> Distinct(DirFrees(dir, tables, |dir|))
  {
    DirFreesExactly(dir, tables, |dir|);
    hide Present, Frame, DirFrees, FramesApart, DirOk;
    forall x, k: nat | Under(dir, tables, k, x) ensures k < |dir| {
    }
  }

  function Composed(a: bv32, b: bv32): bv32 { (a << 22) | (b << 12) }

  lemma PartsComposed(a: bv32, b: bv32)
    requires a < 768 && b < 1024
    ensures PdIndex(Composed(a, b)) == a && PtIndex(Composed(a, b)) == b && IsUserPage(Composed(a, b))
  {
  }

  lemma {:induction false} WordOf(i: nat) returns (a: bv32)
    requires i < 1024
    ensures a as nat == i
  {
    if i == 0 {
      a := 0;
    } else {
      a := WordOf(i - 1);
      assert a < 1024;
      NextWord(a);
      a := a + 1;
    }
  }

  lemma NextWord(a: bv32)
    requires a < 1024
    ensures (a + 1) as nat == a as nat + 1
  {
  }

  /** Each entry of the user part is the one of some user page. */
  lemma PageOfEntry(i: nat, j: nat) returns (u: bv32)
    requires i < 768 && j < 1024
    ensures IsUserPage(u) && PdNo(u) == i && PtNo(u) == j
  {
    var a := WordOf(i);
    var b := WordOf(j);
    assert a < 768 && b < 1024;
    u := Composed(a, b);
    hide Composed, PdIndex, PtIndex, IsUserPage;
    PartsComposed(a, b);
  }

  /** The inner loop of pagedir_destroy. */
  method TableDestroyed(pt: seq<bv32>) returns (freed: seq<nat>)
    requires |pt| == 1024
    ensures freed == TableFrees(pt, 1024)
  {
    freed := [];
    for j := 0 to 1024
      invariant freed == TableFrees(pt, j)
    {
      if Present(pt[j]) {
        freed := freed + [Frame(pt[j])];
      }
    }
  }

  // ----- The directory

  /** Where lookup_page finds an entry: a slot of a page table. */
  datatype Place = Place(table: nat, index: nat)

  class PageDir {
    const addr: bv32 // kernel virtual address of the directory's page
    const pd: array<bv32>
    var tables: map<nat, seq<bv32>> // the page tables in memory, by physical address

    predicate Here(i: nat)
      requires i < pd.Length
      reads pd
    {
      pd[i] != 0
    }

    function TableOf(i: nat): nat
      requires i < pd.Length
      reads pd
    {
      Frame(pd[i])
    }

    /** Every user entry in use is present, allows everything and has a page table of its own, whose
        entries are the user's. */
    ghost predicate Valid()
      reads this, pd
    {
      pd.Length == 1024 && DirOk(pd[..768], tables) && AllForUser(pd[..768], tables)
    }

    /** Whether the processor lets user code read at the address, or write. */
    ghost predicate Access(va: bv32, write: bool)
      requires Valid() && IsUser(va)
      reads this, pd
    {
      Lets(pd[PdNo(va)], Pte(va), write)
    }

    /** User code can read exactly the mapped pages, and write those mapped writable. */
    lemma AccessIsLookup(va: bv32, write: bool)
      requires Valid() && IsUser(va)
      ensures Access(va, write) <==> Lookup(va).Some? && (write ==> Lookup(va).value.writable)
    {
      var i := PdNo(va);
      assert pd[..768][i] == pd[i];
      hide PdNo, PtNo, Lets, Bit, OpenToUser;
      if pd[i] != 0 {
        assert ForUser(tables[TableOf(i)][PtNo(va)]);
        LetsAsMapped(pd[i], Pte(va), write);
      } else {
        NothingLets(Pte(va), write);
        NoEntry();
      }
    }

    /** The table entry of a user address, 0 if there is no table. */
    ghost function Pte(va: bv32): bv32
      requires Valid() && IsUser(va)
      reads this, pd
    {
      if Here(PdNo(va)) then tables[TableOf(PdNo(va))][PtNo(va)] else 0
    }

    /** The directory as a partial map from user pages. */
    ghost function Lookup(u: bv32): Option<Mapping>
      requires Valid() && IsUser(u)
      reads this, pd
    {
      Decode(Pte(u))
    }

    /** pagedir_create: the kernel's mappings are copied, the user's are empty. */
    constructor (addr: bv32, init: array<bv32>)
      requires init.Length == 1024 && forall i :: 0 <= i < 768 ==> init[i] == 0
      ensures Valid() && fresh(pd) && this.addr == addr && tables == map[]
      ensures forall u :: IsUser(u) ==> Lookup(u) == None
      ensures forall i :: 768 <= i < 1024 ==> pd[i] == init[i]
    {
      hide IsUser, Decode, Bit, PdIndex, PtIndex;
      NoEntry();
      this.addr := addr;
      tables := map[];
      pd := new bv32[1024](i requires 0 <= i < 1024 reads init => init[i]);
    }

    /** lookup_page without `create`: the place of the entry, if there is one. */
    method LookupPage(va: bv32) returns (place: Option<Place>)
      requires Valid() && IsUser(va)
      ensures place == if Here(PdNo(va)) then Some(Place(TableOf(PdNo(va)), PtNo(va))) else None
    {
      if pd[PdNo(va)] == 0 {
        return None;
      }
      return Some(Place(Frame(pd[PdNo(va)]), PtNo(va)));
    }

    /** lookup_page with `create`; `page` is what palloc_get_page would hand out. */
    method LookupOrCreate(va: bv32, page: Option<bv32>) returns (place: Option<Place>)
      requires Valid() && IsUser(va)
      requires page.Some? ==> IsKernelPage(page.value) && Physical(page.value) !in tables
      modifies this, pd
      ensures Valid()
      ensures place.None? <==> !old(Here(PdNo(va))) && page.None?
      ensures place.Some? ==> Here(PdNo(va)) && place.value == Place(TableOf(PdNo(va)), PtNo(va))
      ensures forall u :: IsUser(u) ==> Pte(u) == old(Pte(u))
      ensures forall i :: 768 <= i < 1024 ==> pd[i] == old(pd[i])
    {
      hide Decode, Present, Bit, PdNo, PtNo, PdIndex, PtIndex, PgOfs, PgRoundDown, PdeCreate, PteCreateUser, Vtop;
      hide Byte, AddrOf, Frame, Physical, WithFlag, IsUser, IsKernelPage, ForUser, OpenToUser, Lets;
      var i := PdNo(va);
      if pd[i] == 0 {
        if page.None? {
          return None;
        }
        EntryRoundTrip(page.value, true);
        CreatedForUser(page.value, true);
        NoEntry();
        tables := tables[Physical(page.value) := seq(1024, _ => 0)];
        pd[i] := PdeCreate(page.value);
      }
      place := Some(Place(Frame(pd[i]), PtNo(va)));
    }

    /** Stores an entry in place. */
    method Store(ghost va: bv32, place: Place, pte: bv32)
      requires Valid() && IsUser(va) && Here(PdNo(va)) && place == Place(TableOf(PdNo(va)), PtNo(va))
      requires ForUser(pte)
      modifies this`tables
      ensures Valid() && Pte(va) == pte
      ensures forall u :: IsUserPage(u) && u != PgRoundDown(va) ==> Pte(u) == old(Pte(u))
    {
      hide Decode, Present, Bit, PdNo, PtNo, PdIndex, PtIndex, PgOfs, PgRoundDown, PdeCreate, PteCreateUser, Vtop;
      hide Byte, AddrOf, Frame, Physical, WithFlag, IsUser, IsKernelPage, ForUser, OpenToUser, Lets;
      PageOf(va);
      forall u | IsUserPage(u) && PdNo(u) == PdNo(va) && PtNo(u) == PtNo(va) ensures u == PgRoundDown(va) {
        AddressParts(u, PgRoundDown(va));
      }
      tables := tables[place.table := tables[place.table][place.index := pte]];
    }

    /** Maps an unmapped page; fails only if a page table is needed and memory is out. */
    method SetPage(upage: bv32, kpage: bv32, writable: bool, page: Option<bv32>) returns (ok: bool)
      requires Valid() && IsUserPage(upage) && IsKernelPage(kpage) && Lookup(upage).None?
      requires page.Some? ==> IsKernelPage(page.value) && Physical(page.value) !in tables
      modifies this, pd
      ensures Valid() && (ok <==> old(Here(PdNo(upage))) || page.Some?)
      ensures Lookup(upage) == if ok then Some(Mapping(Vtop(kpage), writable, true, false, false)) else None
      ensures ok ==> Access(upage, false) && (Access(upage, true) <==> writable)
      ensures forall u :: IsUserPage(u) && u != upage ==> Pte(u) == old(Pte(u))
      ensures forall i :: 768 <= i < 1024 ==> pd[i] == old(pd[i])
    {
      RoundDownSame(upage);
      hide Decode, Present, Bit, PdNo, PtNo, PdIndex, PtIndex, PgOfs, PgRoundDown, PdeCreate, PteCreateUser, Vtop;
      hide Byte, AddrOf, Frame, Physical, WithFlag, IsUser, IsKernelPage, ForUser, OpenToUser, Lets;
      EntryRoundTrip(kpage, writable);
      CreatedForUser(kpage, writable);
      NoEntry();
      var place := LookupOrCreate(upage, page);
      if place.Some? {
        Store(upage, place.value, PteCreateUser(kpage, writable));
        AccessIsLookup(upage, false);
        AccessIsLookup(upage, true);
      }
      ok := place.Some?;
    }

    /** The kernel address of the byte that a user address maps to, if it is mapped. */
    method GetPage(uaddr: bv32) returns (p: Option<bv32>)
      requires Valid() && IsUser(uaddr)
      ensures Lookup(uaddr) == Lookup(PgRoundDown(uaddr))
      ensures p == match Lookup(PgRoundDown(uaddr)) case None => None case Some(m) => Some(Byte(m.frame, uaddr))
    {
      hide Bit, Present, PdNo, PtNo, PdIndex, PtIndex, PgOfs, PgRoundDown, PdeCreate, PteCreateUser, Vtop, Byte;
      hide AddrOf, Frame, Physical, WithFlag, IsUser, IsKernelPage;
      PageOf(uaddr);
      NoEntry();
      assert Lookup(uaddr) == Lookup(PgRoundDown(uaddr));
      var place := LookupPage(uaddr);
      if place.Some? {
        var pte := tables[place.value.table][place.value.index];
        if Present(pte) {
          return Some(Byte(AddrOf(pte), uaddr));
        }
      }
      return None;
    }

    method ClearEntry(ghost upage: bv32, place: Place)
      requires Valid() && IsUserPage(upage) && Here(PdNo(upage)) && place == Place(TableOf(PdNo(upage)), PtNo(upage))
      modifies this`tables
      ensures Valid() && Lookup(upage).None? && OnlyCleared(old(Pte(upage)), Pte(upage))
      ensures forall u :: IsUserPage(u) && u != upage ==> Pte(u) == old(Pte(u))
    {
      RoundDownSame(upage);
      hide Decode, Cleared, OnlyCleared, Present, Bit, PdNo, PtNo, PdIndex, PtIndex, PgOfs, PgRoundDown, PdeCreate;
      hide PteCreateUser, Vtop, Byte, AddrOf, Frame, Physical, WithFlag, IsUser, IsKernelPage, ForUser;
      hide OpenToUser, Lets;
      var pte := tables[place.table][place.index];
      PresentCleared(pte);
      if Present(pte) {
        Store(upage, place, Cleared(pte));
      }
    }

    /** Unmaps a page, keeping the other bits of its entry. */
    method ClearPage(upage: bv32)
      requires Valid() && IsUserPage(upage)
      modifies this`tables
      ensures Valid() && Lookup(upage).None? && OnlyCleared(old(Pte(upage)), Pte(upage))
      ensures forall u :: IsUserPage(u) && u != upage ==> Pte(u) == old(Pte(u))
    {
      hide Decode, Cleared, OnlyCleared, Present, Bit, PdNo, PtNo, PdIndex, PtIndex, PgOfs, PgRoundDown, PdeCreate;
      hide PteCreateUser, Vtop, Byte, AddrOf, Frame, Physical, WithFlag, IsUser, IsKernelPage, ForUser;
      hide OpenToUser, Lets;
      var place := LookupPage(upage);
      if place.Some? {
        ClearEntry(upage, place.value);
      } else {
        NoEntry();
        PresentCleared(0);
      }
    }

    method IsDirty(vpage: bv32) returns (dirty: bool)
      requires Valid() && IsUser(vpage)
      ensures dirty == Bit(Pte(vpage), PTE_D)
      ensures Lookup(vpage).Some? ==> dirty == Lookup(vpage).value.dirty
    {
      var place := LookupPage(vpage);
      dirty := place.Some? && Bit(tables[place.value.table][place.value.index], PTE_D);
    }

    method IsAccessed(vpage: bv32) returns (accessed: bool)
      requires Valid() && IsUser(vpage)
      ensures accessed == Bit(Pte(vpage), PTE_A)
      ensures Lookup(vpage).Some? ==> accessed == Lookup(vpage).value.accessed
    {
      var place := LookupPage(vpage);
      accessed := place.Some? && Bit(tables[place.value.table][place.value.index], PTE_A);
    }

    method SetDirty(vpage: bv32, dirty: bool)
      requires Valid() && IsUser(vpage)
      modifies this`tables
      ensures Valid()
      ensures Lookup(vpage) == match old(Lookup(vpage)) case None => None case Some(m) => Some(m.(dirty := dirty))
      ensures forall u :: IsUserPage(u) && u != PgRoundDown(vpage) ==> Pte(u) == old(Pte(u))
    {
      hide Decode, Present, Bit, PdNo, PtNo, PdIndex, PtIndex, PgOfs, PgRoundDown, PdeCreate, PteCreateUser, Vtop;
      hide Byte, AddrOf, Frame, Physical, WithFlag, IsUser, IsKernelPage, ForUser, OpenToUser, Lets;
      DirtyChanged(Pte(vpage), dirty);
      NoEntry();
      var place := LookupPage(vpage);
      if place.Some? {
        var pte := tables[place.value.table][place.value.index];
        Store(vpage, place.value, WithFlag(pte, PTE_D, dirty));
      }
    }

    method SetAccessed(vpage: bv32, accessed: bool)
      requires Valid() && IsUser(vpage)
      modifies this`tables
      ensures Valid()
      ensures Lookup(vpage) == match old(Lookup(vpage)) case None => None case Some(m) => Some(m.(accessed := accessed))
      ensures forall u :: IsUserPage(u) && u != PgRoundDown(vpage) ==> Pte(u) == old(Pte(u))
    {
      hide Decode, Present, Bit, PdNo, PtNo, PdIndex, PtIndex, PgOfs, PgRoundDown, PdeCreate, PteCreateUser, Vtop;
      hide Byte, AddrOf, Frame, Physical, WithFlag, IsUser, IsKernelPage, ForUser, OpenToUser, Lets;
      AccessedChanged(Pte(vpage), accessed);
      NoEntry();
      var place := LookupPage(vpage);
      if place.Some? {
        var pte := tables[place.value.table][place.value.index];
        Store(vpage, place.value, WithFlag(pte, PTE_A, accessed));
      }
    }

    /** pagedir_destroy: the pages passed to palloc_free_page, in order, as physical addresses. */
    method Destroy() returns (freed: seq<nat>)
      requires Valid() && IsKernelPage(addr)
      ensures forall x: nat :: x in freed <==> x == Physical(addr) || Reached(pd[..768], tables, x)
      ensures FramesApart(pd[..768], tables) && !Reached(pd[..768], tables, Physical(addr)) ==>
        && Distinct(freed)
    {
      hide Present, Frame, Physical, IsKernelPage, TableFrees, Reached, FramesApart, Distinct;
      NoEntry();
      ghost var dir := pd[..768];
      freed := [];
      for i := 0 to 768
        invariant freed == DirFrees(dir, tables, i)
      {
        var pde := pd[i];
        assert dir[i] == pde;
        if Present(pde) {
          var pt := tables[Frame(pde)];
          var fs := TableDestroyed(pt);
          freed := freed + fs;
          freed := freed + [Frame(pde)];
        }
      }
      WholeFrees(dir, tables);
      ghost var inner := freed;
      if Distinct(inner) && Physical(addr) !in inner {
        DistinctJoin(inner, [Physical(addr)]);
      }
      freed := freed + [Physical(addr)];
      assert forall x: nat :: x in freed <==> x in inner || x == Physical(addr);
    }

    /** The entries of the user part are the ones lookups see. */
    lemma MappedIsLookup(u: bv32)
      requires Valid() && IsUserPage(u)
      ensures var dir := pd[..768];
        && (Mapped(dir, tables, PdNo(u), PtNo(u)) <==> Lookup(u).Some?)
        && (Lookup(u).Some? ==> MappedFrame(dir, tables, PdNo(u), PtNo(u)) == Lookup(u).value.frame as nat)
    {
      NoEntry();
    }
  }

  lemma RoundDownSame(u: bv32)
    requires IsUserPage(u)
    ensures PgRoundDown(u) == u
  {
  }
}
