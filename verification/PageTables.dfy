/** The 27 page directories and page tables in kernel memory, and the functions of paging.c that
    fill them in place. */
module PageTables {
  import opened Bytes
  import opened Paging
  import Bits

  class Tables {
    const tables: seq<array<word>>
    const addr: seq<word>

    ghost predicate Valid() {
      Placed(addr) && |tables| == TABLES &&
      (forall i :: 0 <= i < TABLES ==> tables[i].Length == TABLE_SIZE) &&
      (forall i, j :: 0 <= i < j < TABLES ==> tables[i] != tables[j])
    }

    /** The tables as the processor reads them. */
    ghost function Memory(): (tm: TableMemory)
      requires Valid()
      reads tables
      ensures forall k :: 0 <= k < TABLES ==> addr[k] in tm && tm[addr[k]] == tables[k][..]
    {
      map k | 0 <= k < TABLES :: addr[k] := tables[k][..]
    }

    constructor (addr: seq<word>)
      requires Placed(addr)
      ensures Valid() && fresh(tables) && this.addr == addr
      ensures forall k :: 0 <= k < TABLES ==> tables[k][..] == Zeros()
    {
      var ts: seq<array<word>> := [];
      while |ts| < TABLES
        invariant |ts| <= TABLES && fresh(ts)
        invariant forall i :: 0 <= i < |ts| ==> ts[i].Length == TABLE_SIZE && ts[i][..] == Zeros()
        invariant forall i, j :: 0 <= i < j < |ts| ==> ts[i] != ts[j]
      {
        var t := new word[TABLE_SIZE](_ => 0);
        assert t[..] == Zeros();
        ts := ts + [t];
      }
      this.addr, tables := addr, ts;
    }

    /** Identity-maps the first 4 MB for the kernel (page 0 is removed separately). */
    method FillLow(t: array<word>)
      requires t.Length == TABLE_SIZE
      modifies t
      ensures t[..] == LowTable()
    {
      var val: word := 0;
      var i := 0;
      while i < TABLE_SIZE
        invariant 0 <= i <= TABLE_SIZE && val == PAGE_SIZE * i
        invariant forall j :: 0 <= j < i ==> t[j] == PAGE_SIZE * j + 3
      {
        TableEntrySteps(val, val);
        t[i] := OrRw(OrPresent(val));
        val := val + PAGE_SIZE;
        i := i + 1;
      }
      t[0] := 0;
    }

    /** The steps `val = val & ADDR_MASK | PRESENT_BIT | RW_BIT`, and USER_BIT for user tables, from a
        frame address `a` that may still carry flag bits. */
    method TableEntry(from: word, ghost a: word, user: bool) returns (val: word)
      requires Aligned(a) && a + PAGE_SIZE <= 0x1_0000_0000 && a <= from <= a + 3
      ensures val == a + if user then 7 else 3
    {
      TableEntrySteps(from, a);
      hide Frame, OrPresent, OrRw, OrUser;
      val := Frame(from);
      val := OrPresent(val);
      val := OrRw(val);
      if user {
        val := OrUser(val);
      }
    }

    lemma TableEntrySteps(from: word, a: word)
      requires Aligned(a) && a + PAGE_SIZE <= 0x1_0000_0000 && a <= from <= a + 3
      ensures Frame(from) == a && OrPresent(a) == a + 1 && OrRw(a + 1) == a + 3 && OrUser(a + 3) == a + 7
    {
      var q := a / PAGE_SIZE;
      Bits.FlagBits(from, q, from - a);
      Bits.FlagBits(a, q, 0);
      Bits.FlagBits(a + 1, q, 1);
      Bits.FlagBits(a + 3, q, 3);
    }

    /** A 4 MB page: global for the kernel, user otherwise. */
    method BigEntry(a: word, user: bool) returns (val: word)
      requires a % FOUR_MB == 0 && a + FOUR_MB <= 0x1_0000_0000
      ensures val == a + if user then 0x87 else 0x183
    {
      BigEntrySteps(a);
      hide OrPresent, OrRw, OrSize, OrUser, OrGlobal;
      val := OrPresent(a);
      val := OrRw(val);
      val := OrSize(val);
      if user {
        val := OrUser(val);
      } else {
        val := OrGlobal(val);
      }
    }

    lemma BigEntrySteps(a: word)
      requires a % FOUR_MB == 0 && a + FOUR_MB <= 0x1_0000_0000
      ensures OrPresent(a) == a + 1 && OrRw(a + 1) == a + 3 && OrSize(a + 3) == a + 0x83
      ensures OrUser(a + 0x83) == a + 0x87 && OrGlobal(a + 0x83) == a + 0x183
    {
      var q := 0x400 * (a / FOUR_MB);
      Bits.FlagBits(a, q, 0);
      Bits.FlagBits(a + 1, q, 1);
      Bits.FlagBits(a + 3, q, 3);
      Bits.FlagBits(a + 0x83, q, 0x83);
    }

    /** Maps the terminal buffers; `val` keeps its flag bits from one round to the next and is masked. */
    method FillBuffers(t: array<word>)
      requires t.Length == TABLE_SIZE
      modifies t
      ensures t[..] == BufferTable()
    {
      var val: word := TERM_FRAMES;
      var i := 0;
      while i < TABLE_SIZE
        invariant 0 <= i <= TABLE_SIZE && val == TERM_FRAMES + PAGE_SIZE * i + if i == 0 then 0 else 3
        invariant forall j :: 0 <= j < i ==> t[j] == TERM_FRAMES + PAGE_SIZE * j + 3
      {
        val := TableEntry(val, TERM_FRAMES + PAGE_SIZE * i, false);
        t[i] := val;
        val := val + PAGE_SIZE;
        i := i + 1;
      }
    }

    /** The entries that the boot directory and every process directory share. */
    method FillShared(pd: array<word>, pt: array<word>, vt: array<word>, page: word, ptAddr: word, vtAddr: word)
      requires pd.Length == pt.Length == vt.Length == TABLE_SIZE && pd != pt && pd != vt && pt != vt
      requires Aligned(ptAddr) && Aligned(vtAddr) && ptAddr < EIGHT_MB && vtAddr < EIGHT_MB
      requires page % FOUR_MB == 0 && page < 0x8000_0000
      modifies pd, pt, vt
      ensures pd[..] == old(pd[..])[0 := ptAddr + 3][1 := FOUR_MB + 0x183][32 := page + 0x87][34 := vtAddr + 7]
      ensures pt[..] == LowTable() && vt[..] == VideoTable(old(vt[..]))
    {
      hide LowTable;
      pd[0] := TableEntry(ptAddr, ptAddr, false);
      pd[1] := BigEntry(FOUR_MB, false);
      FillLow(pt);
      pd[32] := BigEntry(page, true);
      vt[0] := TableEntry(VIDMEM, VIDMEM, true);
      pd[34] := TableEntry(vtAddr, vtAddr, true);
    }

    /** paging_init: the boot directory becomes current. */
    method PagingInit() returns (cr3: word)
      requires Valid() && tables[BOOT_PD][..] == tables[BOOT_VT][..] == Zeros()
      modifies tables[BOOT_PD], tables[BOOT_PT], tables[BOOT_VT]
      ensures cr3 == addr[BOOT_PD] && BootBuilt()
      ensures forall k :: 3 <= k < TABLES ==> tables[k][..] == old(tables[k][..])
    {
      hide LowTable, Zeros;
      FillShared(tables[BOOT_PD], tables[BOOT_PT], tables[BOOT_VT], EIGHT_MB, addr[BOOT_PT], addr[BOOT_VT]);
      cr3 := addr[BOOT_PD];
    }

    ghost predicate BootBuilt()
      requires Valid()
      reads tables
    {
      tables[BOOT_PD][..] == BootDirectory(Zeros(), addr[BOOT_PT], addr[BOOT_VT]) &&
      tables[BOOT_PT][..] == LowTable() && tables[BOOT_VT][..] == VideoTable(Zeros())
    }

    /** Process `p`'s four tables are still zero, as the kernel's bss is at boot. */
    ghost predicate Blank(p: nat)
      requires Valid() && p < MAX_PROCESSES
      reads tables
    {
      forall k :: Pd(p) <= k <= Term(p) ==> tables[k][..] == Zeros()
    }

    ghost predicate Ready(p: nat)
      requires Valid() && p < MAX_PROCESSES
      reads tables
    {
      tables[Pd(p)][..] == ProgDirectory(Zeros(), p, addr[Pt(p)], addr[Vt(p)], addr[Term(p)]) &&
      tables[Pt(p)][..] == LowTable() && tables[Vt(p)][..] == VideoTable(Zeros()) &&
      tables[Term(p)][..] == BufferTable()
    }

    lemma ReadyIsSpaceReady(p: nat)
      requires Valid() && p < MAX_PROCESSES
      ensures Ready(p) <==> SpaceReady(Memory(), addr, p)
    {
      hide LowTable, Zeros, BufferTable, VideoTable, ProgDirectory;
    }

    lemma BlankIsSpaceBlank(p: nat)
      requires Valid() && p < MAX_PROCESSES
      ensures Blank(p) <==> SpaceBlank(Memory(), addr, p)
    {
      hide Zeros;
    }

    lemma BootBuiltIsReady()
      requires Valid()
      ensures BootBuilt() <==> BootReady(Memory(), addr)
    {
      hide LowTable, Zeros, VideoTable, BootDirectory;
    }

    /** prog1_init to prog6_init, for process `p`. Building fresh tables and building them again over
        tables built before give the same result, and no other table changes. */
    method ProgInit(p: nat) returns (cr3: word)
      requires Valid() && p < MAX_PROCESSES && (Blank(p) || Ready(p))
      modifies tables[Pd(p)], tables[Pt(p)], tables[Vt(p)], tables[Term(p)]
      ensures cr3 == addr[Pd(p)] && Ready(p)
      ensures forall k :: 0 <= k < TABLES && !(Pd(p) <= k <= Term(p)) ==> tables[k][..] == old(tables[k][..])
    {
      hide LowTable, Zeros, BufferTable, VideoTable;
      var pd, pt, vt, term := tables[Pd(p)], tables[Pt(p)], tables[Vt(p)], tables[Term(p)];
      RebuildDirectory(pd[..], p, addr[Pt(p)], addr[Vt(p)], addr[Term(p)]);
      RebuildVideo(vt[..]);
      FillShared(pd, pt, vt, EIGHT_MB + FOUR_MB * p, addr[Pt(p)], addr[Vt(p)]);
      FillBuffers(term);
      pd[36] := TableEntry(addr[Term(p)], addr[Term(p)], false);
      cr3 := addr[Pd(p)];
    }

    /** The 27 tables as the kernel keeps them: the boot tables built, each process's tables built or blank. */
    ghost predicate Sound()
      requires Valid()
      reads tables
    {
      BootBuilt() && forall p :: 0 <= p < MAX_PROCESSES ==> Blank(p) || Ready(p)
    }

    /** The process directories built so far. */
    ghost function Loaded(): set<int>
      requires Valid()
      reads tables
    {
      set p | 0 <= p < MAX_PROCESSES && Ready(p)
    }

    /** Two-state form of "these four tables did not change". */
    twostate lemma SameSpace(q: nat)
      requires Valid() && q < MAX_PROCESSES
      requires forall k :: Pd(q) <= k <= Term(q) ==> tables[k][..] == old(tables[k][..])
      ensures Ready(q) <==> old(Ready(q))
      ensures Blank(q) <==> old(Blank(q))
    {
      hide LowTable, Zeros, BufferTable, VideoTable, ProgDirectory;
    }

    /** One process's tables are built and its directory address returned; all other tables keep
        their state, and building again over built tables changes nothing at all. */
    method Install(p: nat) returns (cr3: word)
      requires Valid() && Sound() && p < MAX_PROCESSES
      modifies tables
      ensures cr3 == addr[Pd(p)] && Sound() && Ready(p)
      ensures Loaded() == old(Loaded()) + {p}
      ensures p in old(Loaded()) ==> forall k :: 0 <= k < TABLES ==> tables[k][..] == old(tables[k][..])
    {
      hide LowTable, Zeros, BufferTable, VideoTable, ProgDirectory, BootDirectory, Blank;
      cr3 := ProgInit(p);
      forall q | 0 <= q < MAX_PROCESSES && q != p
        ensures (Ready(q) <==> old(Ready(q))) && (Blank(q) <==> old(Blank(q)))
      {
        assert if q < p then Term(q) < Pd(p) else Term(p) < Pd(q);
        SameSpace(q);
      }
      hide Ready;
    }
  }
}
