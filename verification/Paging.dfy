/** The page tables of paging.c and the two-level walk of 32-bit paging with 4 KB and 4 MB pages
    (Intel SDM volume 3A, sections 4.3 and 4.6). */
module Paging {
  import opened Bytes
  import Bits

  const TABLE_SIZE := 1024
  const PAGE_SIZE: word := 0x1000
  const FOUR_MB: word := 0x40_0000
  const EIGHT_MB: word := 0x80_0000
  const VIDMEM: word := 0xB8000
  const TEXT_TOP: word := 0xC_0000
  const STACKS: word := 0x7F_2000          // PCBs and kernel stacks, up to 8 MB
  const USER_BASE: word := 0x0800_0000     // 128 MB
  const USER_VIDEO: word := 0x0880_0000    // 136 MB
  const TERM_BASE: word := 0x0900_0000     // 144 MB
  const TERM_FRAMES: word := 0x0200_0000   // 32 MB

  // ------------------------------------------------- bit operations on entries

  // `v | BIT` for the single-bit masks of paging.h, and `v & ADDR_MASK`.
  function OrPresent(v: word): word { if v % 2 == 1 then v else v + 1 }
  function OrRw(v: word): word { if (v / 2) % 2 == 1 then v else v + 2 }
  function OrUser(v: word): word { if (v / 4) % 2 == 1 then v else v + 4 }
  function OrSize(v: word): word { if (v / 0x80) % 2 == 1 then v else v + 0x80 }
  function OrGlobal(v: word): word { if (v / 0x100) % 2 == 1 then v else v + 0x100 }
  function Frame(v: word): word { v - v % PAGE_SIZE }

  predicate Present(e: word) { e % 2 == 1 }
  predicate Writable(e: word) { (e / 2) % 2 == 1 }
  predicate UserMode(e: word) { (e / 4) % 2 == 1 }
  predicate BigPage(e: word) { (e / 0x80) % 2 == 1 }

  // ------------------------------------------------- the walk

  datatype Access = Kernel | UserRead | UserWrite

  predicate Allowed(e: word, access: Access) {
    Present(e) && (access != Kernel ==> UserMode(e)) && (access == UserWrite ==> Writable(e))
  }

  /** Physical memory seen as page tables: the 1024 entries of each table, by frame address. */
  type TableMemory = m: map<int, seq<word>> | forall a :: a in m ==> |m[a]| == TABLE_SIZE

  /** The physical address that `va` reaches through directory `cr3`, or None for a page fault. */
  function Walk(tm: TableMemory, cr3: int, va: word, access: Access): Option<word> {
    if cr3 !in tm then None else
    var pde := tm[cr3][va / FOUR_MB];
    if !Allowed(pde, access) then None
    else if BigPage(pde) then Some(pde / FOUR_MB * FOUR_MB + va % FOUR_MB)
    else if Frame(pde) !in tm then None else
    var pte := tm[Frame(pde)][va / PAGE_SIZE % TABLE_SIZE];
    if !Allowed(pte, access) then None else Some(Frame(pte) + va % PAGE_SIZE)
  }

  // ------------------------------------------------- what the loops build

  type Table = t: seq<word> | |t| == TABLE_SIZE witness seq(TABLE_SIZE, _ => 0)

  function Zeros(): (t: Table)
    ensures forall i :: 0 <= i < TABLE_SIZE ==> t[i] == 0
  {
    seq(TABLE_SIZE, _ => 0)
  }

  function UserPage(p: nat): word
    requires p < MAX_PROCESSES
  {
    EIGHT_MB + FOUR_MB * p
  }

  /** Page table of the first 4 MB: identity mapped for the kernel, page 0 left out. */
  function LowTable(): (t: Table)
    ensures forall i {:trigger t[i]} :: 0 <= i < TABLE_SIZE ==> t[i] == if i == 0 then 0 else PAGE_SIZE * i + 3
  {
    seq(TABLE_SIZE, i requires 0 <= i < TABLE_SIZE => if i == 0 then 0 else PAGE_SIZE * i + 3)
  }

  /** Page table of the terminal buffers at 144 MB. */
  function BufferTable(): (t: Table)
    ensures forall i {:trigger t[i]} :: 0 <= i < TABLE_SIZE ==> t[i] == TERM_FRAMES + PAGE_SIZE * i + 3
  {
    seq(TABLE_SIZE, i requires 0 <= i < TABLE_SIZE => TERM_FRAMES + PAGE_SIZE * i + 3)
  }

  function VideoTable(was: Table): Table {
    was[0 := VIDMEM + 7]
  }

  predicate Aligned(a: word) { a % PAGE_SIZE == 0 }

  function BootDirectory(was: Table, pt: word, vt: word): Table
    requires pt < EIGHT_MB && vt < EIGHT_MB
  {
    was[0 := pt + 3][1 := FOUR_MB + 0x183][32 := EIGHT_MB + 0x87][34 := vt + 7]
  }

  function ProgDirectory(was: Table, p: nat, pt: word, vt: word, term: word): Table
    requires p < MAX_PROCESSES && pt < EIGHT_MB && vt < EIGHT_MB && term < EIGHT_MB
  {
    was[0 := pt + 3][1 := FOUR_MB + 0x183][32 := UserPage(p) + 0x87][34 := vt + 7][36 := term + 3]
  }

  // ------------------------------------------------- the tables in kernel memory

  const BOOT_PD := 0
  const BOOT_PT := 1
  const BOOT_VT := 2
  function Pd(p: nat): nat { 3 + 4 * p }
  function Pt(p: nat): nat { 4 + 4 * p }
  function Vt(p: nat): nat { 5 + 4 * p }
  function Term(p: nat): nat { 6 + 4 * p }
  const TABLES := 27

  /** Where the linker put the 27 tables: 4 KB aligned, distinct, in the kernel's 8 MB below the PCBs and
      kernel stacks, and not in the adapter's text memory. */
  ghost predicate Placed(addr: seq<word>) {
    |addr| == TABLES &&
    (forall i :: 0 <= i < TABLES ==>
      Aligned(addr[i]) && PAGE_SIZE <= addr[i] < STACKS && (addr[i] + PAGE_SIZE <= VIDMEM || TEXT_TOP <= addr[i])) &&
    (forall i, j :: 0 <= i < j < TABLES ==> addr[i] != addr[j])
  }

  /** `n` bytes from `at` on share no byte with any table. */
  predicate OffTables(addr: seq<word>, at: nat, n: nat) {
    forall k :: 0 <= k < |addr| ==> at - addr[k] >= 0x1000 || addr[k] - at >= n
  }

  /** The file system image lies in the kernel's memory above text memory, apart from tables and stacks. */
  predicate ImagePlaced(addr: seq<word>, boot: nat, n: nat) {
    TEXT_TOP <= boot && boot + n <= STACKS && OffTables(addr, boot, n)
  }

  /** Process `p`'s four tables are what prog*_init builds from zeroed memory. */
  ghost predicate SpaceReady(tm: TableMemory, addr: seq<word>, p: nat)
    requires p < MAX_PROCESSES && Placed(addr)
  {
    addr[Pd(p)] in tm && addr[Pt(p)] in tm && addr[Vt(p)] in tm && addr[Term(p)] in tm &&
    tm[addr[Pd(p)]] == ProgDirectory(Zeros(), p, addr[Pt(p)], addr[Vt(p)], addr[Term(p)]) &&
    tm[addr[Pt(p)]] == LowTable() && tm[addr[Vt(p)]] == VideoTable(Zeros()) && tm[addr[Term(p)]] == BufferTable()
  }

  ghost predicate SpaceBlank(tm: TableMemory, addr: seq<word>, p: nat)
    requires p < MAX_PROCESSES && Placed(addr)
  {
    forall k :: Pd(p) <= k <= Term(p) ==> addr[k] in tm && tm[addr[k]] == Zeros()
  }

  ghost predicate BootReady(tm: TableMemory, addr: seq<word>)
    requires Placed(addr)
  {
    addr[BOOT_PD] in tm && addr[BOOT_PT] in tm && addr[BOOT_VT] in tm &&
    tm[addr[BOOT_PD]] == BootDirectory(Zeros(), addr[BOOT_PT], addr[BOOT_VT]) &&
    tm[addr[BOOT_PT]] == LowTable() && tm[addr[BOOT_VT]] == VideoTable(Zeros())
  }

  lemma RebuildDirectory(d: Table, p: nat, pt: word, vt: word, term: word)
    requires p < MAX_PROCESSES && pt < EIGHT_MB && vt < EIGHT_MB && term < EIGHT_MB
    requires d == Zeros() || d == ProgDirectory(Zeros(), p, pt, vt, term)
    ensures ProgDirectory(d, p, pt, vt, term) == ProgDirectory(Zeros(), p, pt, vt, term)
  {
  }

  lemma RebuildVideo(t: Table)
    requires t == Zeros() || t == VideoTable(Zeros())
    ensures VideoTable(t) == VideoTable(Zeros())
  {
  }

  // ------------------------------------------------- what a walk reaches

  /** All that user code of process `p` can reach: its own 4 MB page and the video page. */
  function UserMap(p: nat, va: word): Option<word>
    requires p < MAX_PROCESSES
  {
    if USER_BASE <= va < USER_BASE + FOUR_MB then Some(UserPage(p) + (va - USER_BASE))
    else if USER_VIDEO <= va < USER_VIDEO + PAGE_SIZE then Some(VIDMEM + (va - USER_VIDEO))
    else None
  }

  /** All that the kernel can reach through process `p`'s directory. */
  function KernelMap(p: nat, va: word): Option<word>
    requires p < MAX_PROCESSES
  {
    if PAGE_SIZE <= va < EIGHT_MB then Some(va)
    else if TERM_BASE <= va < TERM_BASE + FOUR_MB then Some(TERM_FRAMES + (va - TERM_BASE))
    else UserMap(p, va)
  }

  lemma SplitAddress(va: word)
    ensures 0 <= va / PAGE_SIZE % TABLE_SIZE < TABLE_SIZE && 0 <= va / FOUR_MB < TABLE_SIZE
    ensures va == va / FOUR_MB * FOUR_MB + va / PAGE_SIZE % TABLE_SIZE * PAGE_SIZE + va % PAGE_SIZE
    ensures va % FOUR_MB == va / PAGE_SIZE % TABLE_SIZE * PAGE_SIZE + va % PAGE_SIZE
  {
  }

  /** The flags of a kernel entry and of a user entry for a 4 KB frame. */
  lemma EntryFlags(a: word)
    requires Aligned(a) && a + PAGE_SIZE <= 0x1_0000_0000
    ensures Present(a + 3) && Writable(a + 3) && !UserMode(a + 3) && !BigPage(a + 3) && Frame(a + 3) == a
    ensures Present(a + 7) && Writable(a + 7) && UserMode(a + 7) && !BigPage(a + 7) && Frame(a + 7) == a
  {
    Bits.FlagBits(a + 3, a / PAGE_SIZE, 3);
    Bits.FlagBits(a + 7, a / PAGE_SIZE, 7);
  }

  /** The flags of a kernel entry and of a user entry for a 4 MB page. */
  lemma BigEntryFlags(a: word)
    requires a % FOUR_MB == 0 && a + FOUR_MB <= 0x1_0000_0000
    ensures Present(a + 0x183) && Writable(a + 0x183) && BigPage(a + 0x183) && !UserMode(a + 0x183)
    ensures Present(a + 0x87) && Writable(a + 0x87) && BigPage(a + 0x87) && UserMode(a + 0x87)
    ensures (a + 0x183) / FOUR_MB * FOUR_MB == a && (a + 0x87) / FOUR_MB * FOUR_MB == a
  {
    var q := a / FOUR_MB;
    Bits.FlagBits(a + 0x183, 0x400 * q, 0x183);
    Bits.FlagBits(a + 0x87, 0x400 * q, 0x87);
    Bits.BigFrame(a + 0x183, q, 0x183);
    Bits.BigFrame(a + 0x87, q, 0x87);
  }

  /** A directory entry that is absent, a 4 MB page, or a table. */
  lemma WalkAbsent(tm: TableMemory, cr3: int, va: word, access: Access)
    requires cr3 in tm && tm[cr3][va / FOUR_MB] == 0
    ensures Walk(tm, cr3, va, access) == None
  {
  }

  lemma WalkBigPage(tm: TableMemory, cr3: int, va: word, access: Access, base: word, user: bool)
    requires base % FOUR_MB == 0 && base + FOUR_MB <= 0x1_0000_0000
    requires cr3 in tm && (tm[cr3][va / FOUR_MB] == base + if user then 0x87 else 0x183)
    ensures Walk(tm, cr3, va, access) == if access == Kernel || user then Some(base + va % FOUR_MB) else None
  {
    BigEntryFlags(base);
    hide Present, Writable, BigPage, UserMode;
  }

  /** A 4 KB page: `pde` and `pte` are frame addresses with flags 3 (kernel) or 7 (user), or 0. */
  lemma WalkSmallPage(tm: TableMemory, cr3: int, va: word, access: Access, t: word, user: bool, frame: word,
                      present: bool)
    requires Aligned(t) && Aligned(frame) && t + PAGE_SIZE <= 0x1_0000_0000 && frame + PAGE_SIZE <= 0x1_0000_0000
    requires cr3 in tm && (tm[cr3][va / FOUR_MB] == t + if user then 7 else 3)
    requires t in tm && (tm[t][va / PAGE_SIZE % TABLE_SIZE] == if !present then 0 else frame + if user then 7 else 3)
    ensures Walk(tm, cr3, va, access) ==
            if present && (access == Kernel || user) then Some(frame + va % PAGE_SIZE) else None
  {
    EntryFlags(t);
    EntryFlags(frame);
    hide Writable, BigPage, UserMode, Frame;
  }

  /** The three directory slots that the boot directory and the process directories share. */
  lemma SharedWalk(tm: TableMemory, cr3: int, pt: word, vt: word, page: word, va: word, access: Access)
    requires page % FOUR_MB == 0 && page + FOUR_MB <= 0x1_0000_0000
    requires Aligned(pt) && Aligned(vt) && pt < EIGHT_MB && vt < EIGHT_MB && cr3 in tm && pt in tm && vt in tm
    requires tm[pt] == LowTable() && tm[vt] == VideoTable(Zeros())
    requires var d := tm[cr3]; d[0] == pt + 3 && d[1] == FOUR_MB + 0x183 && d[32] == page + 0x87 && d[34] == vt + 7
    requires va / FOUR_MB in {0, 1, 32, 34}
    ensures Walk(tm, cr3, va, access) ==
            if PAGE_SIZE <= va < EIGHT_MB then (if access == Kernel then Some(va) else None)
            else if USER_BASE <= va < USER_BASE + FOUR_MB then Some(page + (va - USER_BASE))
            else if USER_VIDEO <= va < USER_VIDEO + PAGE_SIZE then Some(VIDMEM + (va - USER_VIDEO))
            else None
  {
    SplitAddress(va);
    var k, i := va / FOUR_MB, va / PAGE_SIZE % TABLE_SIZE;
    hide Walk, LowTable, VideoTable;
    if k == 0 {
      WalkSmallPage(tm, cr3, va, access, pt, false, PAGE_SIZE * i, i != 0);
    } else if k == 1 {
      WalkBigPage(tm, cr3, va, access, FOUR_MB, false);
    } else if k == 32 {
      WalkBigPage(tm, cr3, va, access, page, true);
    } else {
      VideoEntry(i);
      WalkSmallPage(tm, cr3, va, access, vt, true, VIDMEM, i == 0);
    }
  }

  lemma VideoEntry(i: nat)
    requires i < TABLE_SIZE
    ensures VideoTable(Zeros())[i] == if i == 0 then VIDMEM + 7 else 0
  {
  }

  /** The walk through a process directory, for every 32-bit address and every kind of access. */
  lemma ProcessWalkExact(tm: TableMemory, addr: seq<word>, p: nat, va: word, access: Access)
    requires p < MAX_PROCESSES && Placed(addr) && SpaceReady(tm, addr, p)
    ensures Walk(tm, addr[Pd(p)], va, access) == if access == Kernel then KernelMap(p, va) else UserMap(p, va)
  {
    SplitAddress(va);
    var k, i := va / FOUR_MB, va / PAGE_SIZE % TABLE_SIZE;
    var cr3, pt, vt, term := addr[Pd(p)], addr[Pt(p)], addr[Vt(p)], addr[Term(p)];
    hide Walk, LowTable, VideoTable, BufferTable;
    if k in {0, 1, 32, 34} {
      SharedWalk(tm, cr3, pt, vt, UserPage(p), va, access);
    } else if k == 36 {
      WalkSmallPage(tm, cr3, va, access, term, false, TERM_FRAMES + PAGE_SIZE * i, true);
    } else {
      WalkAbsent(tm, cr3, va, access);
    }
  }

  /** The walk through the boot directory. */
  lemma BootWalkExact(tm: TableMemory, addr: seq<word>, va: word, access: Access)
    requires Placed(addr) && BootReady(tm, addr)
    ensures Walk(tm, addr[BOOT_PD], va, access) ==
            if PAGE_SIZE <= va < EIGHT_MB then (if access == Kernel then Some(va) else None) else UserMap(0, va)
  {
    SplitAddress(va);
    var k := va / FOUR_MB;
    hide Walk, LowTable, VideoTable;
    if k in {0, 1, 32, 34} {
      SharedWalk(tm, addr[BOOT_PD], addr[BOOT_PT], addr[BOOT_VT], EIGHT_MB, va, access);
    } else {
      WalkAbsent(tm, addr[BOOT_PD], va, access);
    }
  }

  // ------------------------------------------------- the processor's own marks

  /** An entry without the accessed and dirty bits (bits 5 and 6), which the processor sets in the
      entries it walks through (section 4.8). */
  function Unmarked(e: word): word {
    e - e / 0x20 % 4 * 0x20
  }

  lemma MarksIgnored(e: word)
    ensures Present(Unmarked(e)) == Present(e) && Writable(Unmarked(e)) == Writable(e)
    ensures UserMode(Unmarked(e)) == UserMode(e)
    ensures BigPage(Unmarked(e)) == BigPage(e) && Frame(Unmarked(e)) == Frame(e) && Unmarked(e) / FOUR_MB == e / FOUR_MB
  {
    var q, f := e / 0x1000, e % 0x1000;
    Bits.MarkBits(e, q, f);
    var u, g := Unmarked(e), f - f / 0x20 % 4 * 0x20;
    assert u == 0x1000 * q + g;
    hide Unmarked;
    Bits.Marks(f);
    Bits.FlagBits(e, q, f);
    Bits.FlagBits(u, q, g);
    Bits.BigFrame(e, q / 0x400, 0x1000 * (q % 0x400) + f);
    Bits.BigFrame(u, q / 0x400, 0x1000 * (q % 0x400) + g);
  }

  /** Two table memories that differ in those bits only translate every address alike. */
  lemma MarkedWalk(tm: TableMemory, tm': TableMemory, cr3: int, va: word, access: Access)
    requires tm'.Keys == tm.Keys
    requires forall a, i :: a in tm && 0 <= i < TABLE_SIZE ==> Unmarked(tm'[a][i]) == Unmarked(tm[a][i])
    ensures Walk(tm', cr3, va, access) == Walk(tm, cr3, va, access)
  {
    SplitAddress(va);
    if cr3 in tm {
      var pde, pde' := tm[cr3][va / FOUR_MB], tm'[cr3][va / FOUR_MB];
      SameMarks(pde, pde');
      hide Unmarked, Present, Writable, UserMode, BigPage, Frame;
      if Frame(pde) in tm {
        var i := va / PAGE_SIZE % TABLE_SIZE;
        SameMarks(tm[Frame(pde)][i], tm'[Frame(pde)][i]);
      }
    }
  }

  lemma SameMarks(e: word, e': word)
    requires Unmarked(e') == Unmarked(e)
    ensures Present(e') == Present(e) && Writable(e') == Writable(e) && UserMode(e') == UserMode(e)
    ensures BigPage(e') == BigPage(e) && Frame(e') == Frame(e) && e' / FOUR_MB == e / FOUR_MB
  {
    MarksIgnored(e);
    MarksIgnored(e');
    hide Unmarked, Present, Writable, UserMode, BigPage, Frame;
  }

  // ------------------------------------------------- isolation

  predicate VideoByte(pa: int) { VIDMEM <= pa < VIDMEM + PAGE_SIZE }

  predicate InUserPage(p: nat, pa: int)
    requires p < MAX_PROCESSES
  {
    UserPage(p) <= pa < UserPage(p) + FOUR_MB
  }

  /** User code reaches a physical byte exactly when it lies in its own page or the video page;
      different processes therefore meet only in the video page, and no user code reaches the rest
      of the kernel's 8 MB or the terminal buffers from 32 MB on. */
  lemma UserReach(tm: TableMemory, addr: seq<word>, p: nat, pa: int)
    requires p < MAX_PROCESSES && Placed(addr) && SpaceReady(tm, addr, p)
    ensures (exists va: word :: Walk(tm, addr[Pd(p)], va, UserRead) == Some(pa)) <==> InUserPage(p, pa) || VideoByte(pa)
  {
    hide Walk;
    if InUserPage(p, pa) {
      ProcessWalkExact(tm, addr, p, USER_BASE + (pa - UserPage(p)), UserRead);
    } else if VideoByte(pa) {
      ProcessWalkExact(tm, addr, p, USER_VIDEO + (pa - VIDMEM), UserRead);
    } else {
      forall va: word ensures Walk(tm, addr[Pd(p)], va, UserRead) != Some(pa) {
        ProcessWalkExact(tm, addr, p, va, UserRead);
      }
    }
  }

  lemma AddressSpacesIsolated(tm: TableMemory, addr: seq<word>, p: nat, q: nat, va: word, vb: word, a: Access,
                              b: Access)
    requires p < MAX_PROCESSES && q < MAX_PROCESSES && p != q && a != Kernel && b != Kernel
    requires Placed(addr) && SpaceReady(tm, addr, p) && SpaceReady(tm, addr, q)
    requires Walk(tm, addr[Pd(p)], va, a).Some? && Walk(tm, addr[Pd(p)], va, a) == Walk(tm, addr[Pd(q)], vb, b)
    ensures VideoByte(Walk(tm, addr[Pd(p)], va, a).value)
  {
    hide Walk;
    ProcessWalkExact(tm, addr, p, va, a);
    ProcessWalkExact(tm, addr, q, vb, b);
  }

  /** The directories cr3 may hold: the boot directory once built, and every built process directory. */
  ghost predicate GoodDirectory(tm: TableMemory, addr: seq<word>, cr3: int)
    requires Placed(addr)
  {
    (cr3 == addr[BOOT_PD] && BootReady(tm, addr)) ||
    exists p :: 0 <= p < MAX_PROCESSES && cr3 == addr[Pd(p)] && SpaceReady(tm, addr, p)
  }

  /** Changing cr3 from one directory to another never moves the kernel: page 0 stays unmapped and
      [4 KB, 8 MB) is the identity, for the kernel only; among process directories the buffer
      window at 144 MB is the same too. */
  lemma KernelWindowStable(tm: TableMemory, addr: seq<word>, cr3: int, va: word, access: Access)
    requires Placed(addr) && GoodDirectory(tm, addr, cr3)
    ensures va < PAGE_SIZE ==> Walk(tm, cr3, va, access) == None
    ensures PAGE_SIZE <= va < EIGHT_MB ==> Walk(tm, cr3, va, access) == if access == Kernel then Some(va) else None
    ensures cr3 != addr[BOOT_PD] && TERM_BASE <= va < TERM_BASE + FOUR_MB ==>
              Walk(tm, cr3, va, access) == if access == Kernel then Some(TERM_FRAMES + (va - TERM_BASE)) else None
  {
    hide Walk;
    if cr3 == addr[BOOT_PD] && BootReady(tm, addr) {
      BootWalkExact(tm, addr, va, access);
    } else {
      var p :| 0 <= p < MAX_PROCESSES && cr3 == addr[Pd(p)] && SpaceReady(tm, addr, p);
      ProcessWalkExact(tm, addr, p, va, access);
    }
  }
}
