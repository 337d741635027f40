/** Stores through a page directory, on the physical memory that also holds the page tables: user
    code's own stores, and the kernel's stores through the pointers user code passes to read and
    getargs, which nothing checks. */
module Stores {
  import opened Bytes
  import opened Paging
  import Screens

  const MEMORY_TOP := Screens.MEMORY_TOP

  // ------------------------------------------------------------ tables as bytes

  /** The table whose 4096 bytes start at `a`. */
  function TableAt(m: seq<byte>, a: nat): (t: Table)
    requires a + PAGE_SIZE <= |m|
    ensures forall i {:trigger t[i]} :: 0 <= i < TABLE_SIZE ==> t[i] == Word(m, a + 4 * i)
  {
    seq(TABLE_SIZE, i requires 0 <= i < TABLE_SIZE => Word(m, a + 4 * i))
  }

  /** The 27 tables as they lie in physical memory. */
  ghost function TablesIn(m: seq<byte>, addr: seq<word>): (tm: TableMemory)
    requires Placed(addr) && |m| >= MEMORY_TOP
    ensures forall k :: 0 <= k < TABLES ==> addr[k] in tm && tm[addr[k]] == TableAt(m, addr[k])
  {
    map k | 0 <= k < TABLES :: addr[k] := TableAt(m, addr[k])
  }

  predicate InTable(addr: seq<word>, k: nat, pa: int)
    requires k < |addr|
  {
    addr[k] <= pa < addr[k] + PAGE_SIZE
  }

  predicate InTables(addr: seq<word>, pa: int) {
    exists k :: 0 <= k < |addr| && InTable(addr, k, pa)
  }

  /** A byte of one of process `p`'s four tables. */
  predicate InSpace(addr: seq<word>, p: nat, pa: int)
    requires p < MAX_PROCESSES && |addr| == TABLES
  {
    InTable(addr, Pd(p), pa) || InTable(addr, Pt(p), pa) || InTable(addr, Vt(p), pa) || InTable(addr, Term(p), pa)
  }

  /** Table `k` depends on its own bytes only. */
  lemma TableFrame(m: seq<byte>, m': seq<byte>, addr: seq<word>, k: nat)
    requires Placed(addr) && |m| >= MEMORY_TOP && |m'| >= MEMORY_TOP && k < TABLES
    requires forall pa :: 0 <= pa < MEMORY_TOP && InTable(addr, k, pa) ==> m'[pa] == m[pa]
    ensures TableAt(m', addr[k]) == TableAt(m, addr[k])
  {
    forall i | 0 <= i < TABLE_SIZE ensures Word(m', addr[k] + 4 * i) == Word(m, addr[k] + 4 * i) {
      var a := addr[k] + 4 * i;
      assert InTable(addr, k, a) && InTable(addr, k, a + 1) && InTable(addr, k, a + 2) && InTable(addr, k, a + 3);
    }
  }

  /** Memories that agree on the tables' bytes hold the same tables. */
  lemma SameTables(m: seq<byte>, m': seq<byte>, addr: seq<word>)
    requires Placed(addr) && |m| >= MEMORY_TOP && |m'| >= MEMORY_TOP
    requires forall pa :: 0 <= pa < MEMORY_TOP && InTables(addr, pa) ==> m'[pa] == m[pa]
    ensures TablesIn(m', addr) == TablesIn(m, addr)
  {
    forall k | 0 <= k < TABLES ensures TableAt(m', addr[k]) == TableAt(m, addr[k]) {
      TableFrame(m, m', addr, k);
    }
  }

  /** One changed byte changes its table. */
  lemma ChangedTable(m: seq<byte>, addr: seq<word>, pa: nat, b: byte)
    requires Placed(addr) && |m| >= MEMORY_TOP && pa < |m| && InTables(addr, pa) && b != m[pa]
    ensures TablesIn(m[pa := b], addr) != TablesIn(m, addr)
  {
    var k :| 0 <= k < |addr| && InTable(addr, k, pa);
    var i := (pa - addr[k]) / 4;
    var a := addr[k] + 4 * i;
    assert a <= pa < a + 4 && 0 <= i < TABLE_SIZE;
    assert Word(m[pa := b], a) != Word(m, a);
    assert TableAt(m[pa := b], addr[k])[i] != TableAt(m, addr[k])[i];
  }

  // ------------------------------------------------------------ building tables in memory

  /** The 4096 bytes of a table. */
  function TableBytes(t: Table): (bs: seq<byte>)
    ensures |bs| == PAGE_SIZE
    ensures forall k {:trigger bs[k]} :: 0 <= k < PAGE_SIZE ==> bs[k] == ByteOf(t[k / 4], k % 4)
  {
    seq(PAGE_SIZE, k requires 0 <= k < PAGE_SIZE => ByteOf(t[k / 4], k % 4))
  }

  function ByteOf(w: word, j: nat): byte
    requires j < 4
  {
    if j == 0 then w % 0x100 else if j == 1 then w / 0x100 % 0x100 else if j == 2 then w / 0x100 / 0x100 % 0x100
    else w / 0x100 / 0x100 / 0x100
  }

  lemma WordOfBytes(w: word)
    ensures ByteOf(w, 0) + 0x100 * ByteOf(w, 1) + 0x1_0000 * ByteOf(w, 2) + 0x100_0000 * ByteOf(w, 3) == w
  {
  }

  /** Memory with table `k` written. */
  ghost function WithTable(m: seq<byte>, addr: seq<word>, k: nat, t: Table): (r: seq<byte>)
    requires Placed(addr) && |m| >= MEMORY_TOP && k < TABLES
    ensures |r| == |m|
  {
    Splice(m, addr[k], TableBytes(t))
  }

  lemma TableWritten(m: seq<byte>, addr: seq<word>, k: nat, t: Table)
    requires Placed(addr) && |m| >= MEMORY_TOP && k < TABLES
    ensures TableAt(WithTable(m, addr, k, t), addr[k]) == t
  {
    var a, r := addr[k], WithTable(m, addr, k, t);
    assert r == Splice(m, a, TableBytes(t)) && a + PAGE_SIZE <= |m|;
    hide Splice, TableBytes, Placed, WithTable;
    forall i | 0 <= i < TABLE_SIZE ensures TableAt(r, a)[i] == t[i] {
      EntryWritten(m, a, t, i);
    }
  }

  lemma EntryWritten(m: seq<byte>, a: nat, t: Table, i: nat)
    requires a + PAGE_SIZE <= |m| && i < TABLE_SIZE
    ensures Word(Splice(m, a, TableBytes(t)), a + 4 * i) == t[i]
  {
    EntryBytes(t, i);
    WordOfBytes(t[i]);
    var bs := TableBytes(t);
    var r := Splice(m, a, bs);
    var at := a + 4 * i;
    hide TableBytes, ByteOf, Splice;
    assert r[at] == bs[4 * i];
    assert r[at + 1] == bs[4 * i + 1];
    assert r[at + 2] == bs[4 * i + 2];
    assert r[at + 3] == bs[4 * i + 3];
  }

  lemma EntryBytes(t: Table, i: nat)
    requires i < TABLE_SIZE
    ensures var bs := TableBytes(t);
            bs[4 * i] == ByteOf(t[i], 0) && bs[4 * i + 1] == ByteOf(t[i], 1) &&
            bs[4 * i + 2] == ByteOf(t[i], 2) && bs[4 * i + 3] == ByteOf(t[i], 3)
  {
  }

  lemma OthersWritten(m: seq<byte>, addr: seq<word>, k: nat, t: Table, j: nat)
    requires Placed(addr) && |m| >= MEMORY_TOP && k < TABLES && j < TABLES && j != k
    ensures TableAt(WithTable(m, addr, k, t), addr[j]) == TableAt(m, addr[j])
  {
    TablesApart(addr, k, j);
    TableFrame(m, WithTable(m, addr, k, t), addr, j);
  }

  lemma TablesApart(addr: seq<word>, k: nat, j: nat)
    requires Placed(addr) && k < TABLES && j < TABLES && j != k
    ensures addr[j] + PAGE_SIZE <= addr[k] || addr[k] + PAGE_SIZE <= addr[j]
  {
    assert addr[j] % PAGE_SIZE == 0 && addr[k] % PAGE_SIZE == 0 && addr[j] != addr[k];
  }

  /** prog*_init in physical memory: the directory and the video table are updated in place, the other
      two filled. */
  ghost function InstallSpace(m: seq<byte>, addr: seq<word>, p: nat): (r: seq<byte>)
    requires p < MAX_PROCESSES && Placed(addr) && |m| >= MEMORY_TOP
    ensures |r| == |m|
  {
    var d := ProgDirectory(TableAt(m, addr[Pd(p)]), p, addr[Pt(p)], addr[Vt(p)], addr[Term(p)]);
    var m1 := WithTable(m, addr, Pd(p), d);
    var m2 := WithTable(m1, addr, Pt(p), LowTable());
    var m3 := WithTable(m2, addr, Vt(p), VideoTable(TableAt(m, addr[Vt(p)])));
    WithTable(m3, addr, Term(p), BufferTable())
  }

  /** From zeroed tables, or from tables built before, it makes the process's tables ready and changes
      nothing else. */
  lemma InstallReady(m: seq<byte>, addr: seq<word>, p: nat)
    requires p < MAX_PROCESSES && Placed(addr) && |m| >= MEMORY_TOP
    requires SpaceReady(TablesIn(m, addr), addr, p) || SpaceBlank(TablesIn(m, addr), addr, p)
    ensures var r := InstallSpace(m, addr, p);
            SpaceReady(TablesIn(r, addr), addr, p) && forall j :: 0 <= j < TABLES && !(Pd(p) <= j <= Term(p)) ==>
              TableAt(r, addr[j]) == TableAt(m, addr[j])
  {
    var pd, vt := TableAt(m, addr[Pd(p)]), TableAt(m, addr[Vt(p)]);
    assert vt == Zeros() || vt == VideoTable(Zeros());
    RebuildDirectory(pd, p, addr[Pt(p)], addr[Vt(p)], addr[Term(p)]);
    RebuildVideo(vt);
    hide TableAt, WithTable, LowTable, BufferTable, VideoTable, ProgDirectory, Zeros;
    var d := ProgDirectory(pd, p, addr[Pt(p)], addr[Vt(p)], addr[Term(p)]);
    var m1 := WithTable(m, addr, Pd(p), d);
    var m2 := WithTable(m1, addr, Pt(p), LowTable());
    var m3 := WithTable(m2, addr, Vt(p), VideoTable(vt));
    TableWritten(m, addr, Pd(p), d);
    TableWritten(m1, addr, Pt(p), LowTable());
    TableWritten(m2, addr, Vt(p), VideoTable(vt));
    TableWritten(m3, addr, Term(p), BufferTable());
    OthersWritten(m1, addr, Pt(p), LowTable(), Pd(p));
    OthersWritten(m2, addr, Vt(p), VideoTable(vt), Pd(p));
    OthersWritten(m2, addr, Vt(p), VideoTable(vt), Pt(p));
    OthersWritten(m3, addr, Term(p), BufferTable(), Pd(p));
    OthersWritten(m3, addr, Term(p), BufferTable(), Pt(p));
    OthersWritten(m3, addr, Term(p), BufferTable(), Vt(p));
    forall j | 0 <= j < TABLES && !(Pd(p) <= j <= Term(p))
      ensures TableAt(InstallSpace(m, addr, p), addr[j]) == TableAt(m, addr[j])
    {
      OthersWritten(m, addr, Pd(p), d, j);
      OthersWritten(m1, addr, Pt(p), LowTable(), j);
      OthersWritten(m2, addr, Vt(p), VideoTable(vt), j);
      OthersWritten(m3, addr, Term(p), BufferTable(), j);
    }
  }

  lemma InstallElsewhere(m: seq<byte>, addr: seq<word>, p: nat, pa: nat)
    requires p < MAX_PROCESSES && Placed(addr) && |m| >= MEMORY_TOP && pa < |m| && !InSpace(addr, p, pa)
    ensures InstallSpace(m, addr, p)[pa] == m[pa]
  {
    hide LowTable, BufferTable, VideoTable, ProgDirectory, TableAt, TableBytes;
  }

  // ------------------------------------------------------------ stores

  /** The bytes `bs` stored from virtual address `va` on, one after the other, each through the tables
      as the stores before it left them. None is a page fault, which halts the machine. */
  ghost function StoreAll(m: seq<byte>, addr: seq<word>, cr3: int, va: nat, bs: seq<byte>,
                          access: Access): (r: Option<seq<byte>>)
    requires Placed(addr) && |m| >= MEMORY_TOP
    ensures r.Some? ==> |r.value| == |m|
    decreases |bs|
  {
    if bs == [] then Some(m) else
    match Walk(TablesIn(m, addr), cr3, va % 0x1_0000_0000, access)
    case None => None
    case Some(pa) => StoreAll(Poke(m, pa, bs[0]), addr, cr3, va + 1, bs[1..], access)
  }

  /** One byte stored at a physical address, if there is memory. */
  function Poke(m: seq<byte>, pa: nat, b: byte): (r: seq<byte>)
    ensures |r| == |m|
  {
    if pa < |m| then m[pa := b] else m
  }

  /** What process `p` reaches: all it may touch as user code, or all the kernel may on its behalf. */
  function MapOf(p: nat, access: Access, va: nat): Option<word>
    requires p < MAX_PROCESSES
  {
    if va >= 0x1_0000_0000 then None else if access == Kernel then KernelMap(p, va) else UserMap(p, va)
  }

  /** Every byte of the buffer is mapped. */
  predicate Mapped(p: nat, access: Access, va: nat, n: nat)
    requires p < MAX_PROCESSES
  {
    forall v :: va <= v < va + n ==> MapOf(p, access, v).Some?
  }

  /** A mapped buffer lies in one piece in physical memory, below 36 MB. */
  lemma {:induction false} InOnePiece(p: nat, access: Access, va: nat, n: nat, v: nat)
    requires p < MAX_PROCESSES && Mapped(p, access, va, n) && va <= v < va + n
    ensures MapOf(p, access, va).Some? && MapOf(p, access, v) == Some(MapOf(p, access, va).value + (v - va))
    ensures MapOf(p, access, va).value + (v - va) < MEMORY_TOP
    decreases v - va
  {
    assert MapOf(p, access, v).Some?;
    if v > va {
      assert MapOf(p, access, v - 1).Some?;
      InOnePiece(p, access, va, n, v - 1);
    }
  }

  lemma WalkReach(m: seq<byte>, addr: seq<word>, p: nat, va: nat, access: Access)
    requires p < MAX_PROCESSES && Placed(addr) && |m| >= MEMORY_TOP && SpaceReady(TablesIn(m, addr), addr, p)
    requires va < 0x1_0000_0000
    ensures Walk(TablesIn(m, addr), addr[Pd(p)], va, access) == MapOf(p, access, va)
  {
    ProcessWalkExact(TablesIn(m, addr), addr, p, va, access);
  }

  /** No byte that the buffer reaches belongs to a table. */
  ghost predicate Misses(addr: seq<word>, p: nat, access: Access, va: nat, n: nat)
    requires p < MAX_PROCESSES
  {
    forall v :: va <= v < va + n && MapOf(p, access, v).Some? ==> !InTables(addr, MapOf(p, access, v).value)
  }

  lemma FirstByte(p: nat, access: Access, va: nat, n: nat)
    requires p < MAX_PROCESSES && n > 0
    ensures Mapped(p, access, va, n) <==> MapOf(p, access, va).Some? && Mapped(p, access, va + 1, n - 1)
    ensures MapOf(p, access, va).Some? ==> MapOf(p, access, va).value < MEMORY_TOP && va + 1 < 0x1_0000_0000
    ensures Mapped(p, access, va, n) ==> MapOf(p, access, va).value + n <= MEMORY_TOP
    ensures Mapped(p, access, va, n) && n > 1 ==> MapOf(p, access, va + 1) == Some(MapOf(p, access, va).value + 1)
  {
    if Mapped(p, access, va, n) {
      InOnePiece(p, access, va, n, va + n - 1);
      if n > 1 {
        InOnePiece(p, access, va, n, va + 1);
      }
    }
  }

  lemma SpliceFirst(m: seq<byte>, at: nat, bs: seq<byte>)
    requires bs != [] && at + |bs| <= |m|
    ensures Splice(m, at, bs) == Splice(m[at := bs[0]], at + 1, bs[1..])
  {
  }

  /** What StoreExact says about a store's outcome. */
  ghost predicate Plain(m: seq<byte>, p: nat, access: Access, va: nat, bs: seq<byte>, r: Option<seq<byte>>)
    requires p < MAX_PROCESSES
  {
    (r.Some? <==> Mapped(p, access, va, |bs|)) &&
    (r.Some? && bs == [] ==> r.value == m) &&
    (r.Some? && bs != [] ==>
      var at := MapOf(p, access, va); at.Some? && at.value + |bs| <= |m| && r.value == Splice(m, at.value, bs))
  }

  /** A store that misses the tables is a plain copy into physical memory, or a page fault when part of
      the buffer is not mapped. */
  lemma {:induction false} StoreExact(m: seq<byte>, addr: seq<word>, p: nat, va: nat, bs: seq<byte>, access: Access)
    requires p < MAX_PROCESSES && Placed(addr) && |m| >= MEMORY_TOP && SpaceReady(TablesIn(m, addr), addr, p)
    requires va < 0x1_0000_0000
    requires Misses(addr, p, access, va, |bs|)
    ensures var r := StoreAll(m, addr, addr[Pd(p)], va, bs, access);
            Plain(m, p, access, va, bs, r) && (r.Some? ==> TablesIn(r.value, addr) == TablesIn(m, addr))
    decreases |bs|
  {
    hide SpaceReady, TablesIn, InTables, Walk, Splice, MapOf, Mapped;
    if bs == [] {
      assert Mapped(p, access, va, 0) by { NothingMapped(p, access, va); }
    } else {
      WalkReach(m, addr, p, va, access);
      FirstByte(p, access, va, |bs|);
      var at := MapOf(p, access, va);
      if at.Some? {
        assert !InTables(addr, at.value);
        var m1 := m[at.value := bs[0]];
        SameTables(m, m1, addr);
        StoreExact(m1, addr, p, va + 1, bs[1..], access);
        if Mapped(p, access, va, |bs|) {
          SpliceFirst(m, at.value, bs);
          LastSplice(m, at.value, bs);
        }
      }
    }
  }

  lemma NothingMapped(p: nat, access: Access, va: nat)
    requires p < MAX_PROCESSES
    ensures Mapped(p, access, va, 0)
  {
  }

  lemma LastSplice(m: seq<byte>, at: nat, bs: seq<byte>)
    requires bs != [] && at + |bs| <= |m|
    ensures |bs| == 1 ==> Splice(m, at, bs) == m[at := bs[0]]
  {
  }

  /** User code reaches no byte of any table: its own page lies above 8 MB, and the video page is not
      the tables' place. */
  lemma UserMissesTables(addr: seq<word>, p: nat, va: nat, n: nat, access: Access)
    requires p < MAX_PROCESSES && Placed(addr) && access != Kernel
    ensures Misses(addr, p, access, va, n)
  {
    forall v | va <= v < va + n && MapOf(p, access, v).Some? ensures !InTables(addr, MapOf(p, access, v).value) {
      forall k | 0 <= k < TABLES ensures !InTable(addr, k, MapOf(p, access, v).value) {
      }
    }
  }

  // ------------------------------------------------------------ which kernel buffers are harmless

  /** The caller's buffer of `n` bytes holds no byte of a table: the tables are identity mapped. */
  ghost predicate ClearOfTables(addr: seq<word>, va: nat, n: nat) {
    forall v :: va <= v < va + n ==> !InTables(addr, v)
  }

  /** The caller's buffer holds no byte of the kernel's 8 MB but those of the video page. */
  predicate ClearOfKernel(va: nat, n: nat) {
    forall v :: va <= v < va + n ==> v >= EIGHT_MB || VideoByte(v)
  }

  lemma ClearMisses(addr: seq<word>, p: nat, va: nat, n: nat)
    requires p < MAX_PROCESSES && Placed(addr)
    ensures ClearOfTables(addr, va, n) ==> Misses(addr, p, Kernel, va, n)
    ensures ClearOfKernel(va, n) ==> ClearOfTables(addr, va, n)
  {
    hide InTables, MapOf;
    if ClearOfKernel(va, n) {
      forall v | va <= v < va + n && InTables(addr, v) ensures false {
        TablesBelow8MB(addr, v);
      }
    }
    if ClearOfTables(addr, va, n) {
      forall v | va <= v < va + n && MapOf(p, Kernel, v).Some? ensures !InTables(addr, MapOf(p, Kernel, v).value) {
        KernelReach(addr, p, v);
      }
    }
  }

  /** In the kernel's 8 MB an address is its own physical address; elsewhere it reaches no table. */
  lemma KernelReach(addr: seq<word>, p: nat, v: nat)
    requires p < MAX_PROCESSES && Placed(addr) && MapOf(p, Kernel, v).Some?
    ensures var pa := MapOf(p, Kernel, v).value;
            if v < EIGHT_MB then pa == v else !InTables(addr, pa) && (pa >= EIGHT_MB || VideoByte(pa))
  {
    if v >= EIGHT_MB {
      forall k | 0 <= k < TABLES ensures !InTable(addr, k, MapOf(p, Kernel, v).value) {
      }
    }
  }

  /** The first byte of a store. */
  lemma StoreFirst(m: seq<byte>, addr: seq<word>, cr3: int, va: nat, bs: seq<byte>, access: Access)
    requires Placed(addr) && |m| >= MEMORY_TOP
    ensures bs == [] ==> StoreAll(m, addr, cr3, va, bs, access) == Some(m)
    ensures bs != [] ==>
      var w := Walk(TablesIn(m, addr), cr3, va % 0x1_0000_0000, access);
      StoreAll(m, addr, cr3, va, bs, access) ==
      if w.None? then None else StoreAll(Poke(m, w.value, bs[0]), addr, cr3, va + 1, bs[1..], access)
  {
    hide Walk, TablesIn;
  }

  /** Storing what is already there changes nothing, even in the tables. */
  lemma {:induction false} StoreSame(m: seq<byte>, addr: seq<word>, p: nat, va: nat, n: nat)
    requires p < MAX_PROCESSES && Placed(addr) && |m| >= MEMORY_TOP && SpaceReady(TablesIn(m, addr), addr, p)
    requires va + n <= EIGHT_MB && Mapped(p, Kernel, va, n)
    ensures StoreAll(m, addr, addr[Pd(p)], va, m[va..va + n], Kernel) == Some(m)
    decreases n
  {
    hide SpaceReady, TablesIn, Walk, MapOf, StoreAll;
    var bs := m[va..va + n];
    StoreFirst(m, addr, addr[Pd(p)], va, bs, Kernel);
    if n > 0 {
      WalkReach(m, addr, p, va, Kernel);
      KernelReach(addr, p, va);
      assert bs[1..] == m[va + 1..va + 1 + (n - 1)] && m[va := bs[0]] == m;
      StoreSame(m, addr, p, va + 1, n - 1);
    }
  }

  lemma {:induction false} StoreAppend(m: seq<byte>, addr: seq<word>, cr3: int, va: nat, a: seq<byte>,
                                       b: seq<byte>, access: Access)
    requires Placed(addr) && |m| >= MEMORY_TOP
    ensures var r := StoreAll(m, addr, cr3, va, a, access);
            StoreAll(m, addr, cr3, va, a + b, access) ==
            if r.None? then None else StoreAll(r.value, addr, cr3, va + |a|, b, access)
    decreases |a|
  {
    hide Walk, TablesIn, StoreAll, Placed;
    StoreFirst(m, addr, cr3, va, a, access);
    StoreFirst(m, addr, cr3, va, a + b, access);
    if a == [] {
      assert a + b == b;
    } else {
      assert (a + b)[0] == a[0] && (a + b)[1..] == a[1..] + b;
      var w := Walk(TablesIn(m, addr), cr3, va % 0x1_0000_0000, access);
      if w.Some? {
        StoreAppend(Poke(m, w.value, a[0]), addr, cr3, va + 1, a[1..], b, access);
      }
    }
  }

  /** A buffer that ends at `v`, filled so that just this one byte changes. */
  lemma OneByteChanged(m: seq<byte>, addr: seq<word>, p: nat, va: nat, v: nat, b: byte) returns (bs: seq<byte>)
    requires p < MAX_PROCESSES && Placed(addr) && |m| >= MEMORY_TOP && SpaceReady(TablesIn(m, addr), addr, p)
    requires va <= v < EIGHT_MB && Mapped(p, Kernel, va, v + 1 - va)
    ensures |bs| == v + 1 - va && StoreAll(m, addr, addr[Pd(p)], va, bs, Kernel) == Some(m[v := b])
  {
    hide SpaceReady, TablesIn, Walk, MapOf, StoreAll;
    var same := m[va..va + (v - va)];
    bs := same + [b];
    assert Mapped(p, Kernel, va, v - va) && MapOf(p, Kernel, v).Some?;
    StoreSame(m, addr, p, va, v - va);
    StoreAppend(m, addr, addr[Pd(p)], va, same, [b], Kernel);
    WalkReach(m, addr, p, v, Kernel);
    KernelReach(addr, p, v);
    StoreFirst(m, addr, addr[Pd(p)], v, [b], Kernel);
    StoreFirst(m[v := b], addr, addr[Pd(p)], v + 1, [], Kernel);
    assert [b][1..] == [] && va + |same| == v && v % 0x1_0000_0000 == v;
  }

  /** A kernel store of up to `n` bytes into the caller's mapped buffer succeeds with every page table
      as it was, whatever the bytes, exactly when the buffer holds no byte of a table. */
  lemma BufferKeepsTables(m: seq<byte>, addr: seq<word>, p: nat, va: nat, n: nat)
    requires p < MAX_PROCESSES && Placed(addr) && |m| >= MEMORY_TOP && SpaceReady(TablesIn(m, addr), addr, p)
    requires va < 0x1_0000_0000 && Mapped(p, Kernel, va, n)
    ensures ClearOfTables(addr, va, n) <==>
            forall bs: seq<byte> :: |bs| <= n ==>
              var r := StoreAll(m, addr, addr[Pd(p)], va, bs, Kernel);
              r.Some? && TablesIn(r.value, addr) == TablesIn(m, addr)
  {
    hide SpaceReady, TablesIn, InTables, MapOf;
    if ClearOfTables(addr, va, n) {
      forall bs: seq<byte> | |bs| <= n
        ensures var r := StoreAll(m, addr, addr[Pd(p)], va, bs, Kernel);
                r.Some? && TablesIn(r.value, addr) == TablesIn(m, addr)
      {
        ClearMisses(addr, p, va, |bs|);
        StoreExact(m, addr, p, va, bs, Kernel);
      }
    } else {
      var v :| va <= v < va + n && InTables(addr, v);
      TablesBelow8MB(addr, v);
      var b: byte := if m[v] == 0 then 1 else 0;
      var bs := OneByteChanged(m, addr, p, va, v, b);
      ChangedTable(m, addr, v, b);
    }
  }

  lemma TablesBelow8MB(addr: seq<word>, pa: int)
    requires Placed(addr) && InTables(addr, pa)
    ensures PAGE_SIZE <= pa < STACKS && !(VIDMEM <= pa < TEXT_TOP) && !VideoByte(pa)
  {
    var k :| 0 <= k < |addr| && InTable(addr, k, pa);
    assert addr[k] % PAGE_SIZE == 0 && addr[k] < STACKS;
  }

  /** It leaves the kernel's whole 8 MB as it was, but for the video page, exactly when the buffer holds
      no other byte of it. */
  lemma BufferKeepsKernel(m: seq<byte>, addr: seq<word>, p: nat, va: nat, n: nat)
    requires p < MAX_PROCESSES && Placed(addr) && |m| >= MEMORY_TOP && SpaceReady(TablesIn(m, addr), addr, p)
    requires va < 0x1_0000_0000 && Mapped(p, Kernel, va, n)
    ensures ClearOfKernel(va, n) <==>
            forall bs: seq<byte> :: |bs| <= n ==>
              var r := StoreAll(m, addr, addr[Pd(p)], va, bs, Kernel);
              r.Some? && forall k :: 0 <= k < EIGHT_MB && !VideoByte(k) ==> r.value[k] == m[k]
  {
    hide SpaceReady, TablesIn, InTables;
    if ClearOfKernel(va, n) {
      forall bs: seq<byte> | |bs| <= n
        ensures var r := StoreAll(m, addr, addr[Pd(p)], va, bs, Kernel);
                r.Some? && forall k :: 0 <= k < EIGHT_MB && !VideoByte(k) ==> r.value[k] == m[k]
      {
        StoreTouches(m, addr, p, va, bs);
      }
    } else {
      var v :| va <= v < va + n && v < EIGHT_MB && !VideoByte(v);
      var b: byte := if m[v] == 0 then 1 else 0;
      var bs := OneByteChanged(m, addr, p, va, v, b);
      assert m[v := b][v] != m[v];
    }
  }

  /** A kernel store into a buffer clear of the kernel changes only the caller's own page, the video
      page and the terminal buffers. */
  lemma StoreTouches(m: seq<byte>, addr: seq<word>, p: nat, va: nat, bs: seq<byte>)
    requires p < MAX_PROCESSES && Placed(addr) && |m| >= MEMORY_TOP && SpaceReady(TablesIn(m, addr), addr, p)
    requires va < 0x1_0000_0000 && ClearOfKernel(va, |bs|)
    ensures var r := StoreAll(m, addr, addr[Pd(p)], va, bs, Kernel);
            (r.Some? <==> Mapped(p, Kernel, va, |bs|)) &&
            (r.Some? ==> TablesIn(r.value, addr) == TablesIn(m, addr)) &&
            (r.Some? ==> forall k :: 0 <= k < |m| && r.value[k] != m[k] ==> Touchable(p, k))
  {
    hide SpaceReady, TablesIn, InTables, StoreAll, Touchable, MapOf;
    ClearMisses(addr, p, va, |bs|);
    StoreExact(m, addr, p, va, bs, Kernel);
    var r := StoreAll(m, addr, addr[Pd(p)], va, bs, Kernel);
    if r.Some? && bs != [] {
      forall k | 0 <= k < |m| && r.value[k] != m[k] ensures Touchable(p, k) {
        PlainTouches(m, p, va, bs, k);
      }
    }
  }

  /** What the kernel may change on behalf of process `p`. */
  predicate Touchable(p: nat, k: int)
    requires p < MAX_PROCESSES
  {
    InUserPage(p, k) || VideoByte(k) || TERM_FRAMES <= k < MEMORY_TOP
  }

  lemma PlainTouches(m: seq<byte>, p: nat, va: nat, bs: seq<byte>, k: nat)
    requires p < MAX_PROCESSES && bs != [] && Mapped(p, Kernel, va, |bs|) && ClearOfKernel(va, |bs|) && k < |m|
    requires MapOf(p, Kernel, va).Some? && MapOf(p, Kernel, va).value + |bs| <= |m|
    requires Splice(m, MapOf(p, Kernel, va).value, bs)[k] != m[k]
    ensures Touchable(p, k)
  {
    var v := va + (k - MapOf(p, Kernel, va).value);
    InOnePiece(p, Kernel, va, |bs|, v);
  }

  /** Where a mapped buffer clear of the kernel lies: in one piece, in the caller's page, the terminal
      buffers or the video page. */
  lemma BufferPlace(p: nat, va: word, n: nat)
    requires p < MAX_PROCESSES && n > 0 && Mapped(p, Kernel, va, n) && ClearOfKernel(va, n)
    ensures KernelMap(p, va).Some?
    ensures var at := KernelMap(p, va).value;
            at + n <= MEMORY_TOP && (at >= EIGHT_MB || at + n <= TEXT_TOP) &&
            forall v :: va <= v < va + n ==> MapOf(p, Kernel, v) == Some(at + (v - va))
  {
    var at := MapOf(p, Kernel, va).value;
    forall v | va <= v < va + n ensures MapOf(p, Kernel, v) == Some(at + (v - va)) {
      InOnePiece(p, Kernel, va, n, v);
    }
    InOnePiece(p, Kernel, va, n, va + n - 1);
    var v := if at <= TEXT_TOP < at + n then va + (TEXT_TOP - at) else va;
    InOnePiece(p, Kernel, va, n, v);
    assert v >= EIGHT_MB || VideoByte(v);
    assert va >= EIGHT_MB || VideoByte(va);
  }

  /** The bytes `bs` have been stored from virtual address `va` on, through the directory `cr3`, and no
      other byte has changed. */
  ghost predicate Delivers(tm: TableMemory, cr3: int, va: word, bs: seq<byte>, was: seq<byte>, now: seq<byte>) {
    |now| == |was| && va + |bs| <= 0x1_0000_0000 &&
    (forall v: word :: va <= v < va + |bs| ==>
      var pa := Walk(tm, cr3, v, Kernel); pa.Some? && pa.value < |now| && now[pa.value] == bs[v - va]) &&
    (forall k :: 0 <= k < |now| && now[k] != was[k] ==>
        exists v: word :: va <= v < va + |bs| && Walk(tm, cr3, v, Kernel) == Some(k))
  }

  lemma SpliceDelivers(tm: TableMemory, addr: seq<word>, p: nat, va: word, bs: seq<byte>, was: seq<byte>)
    requires p < MAX_PROCESSES && Placed(addr) && SpaceReady(tm, addr, p) && |was| >= MEMORY_TOP
    requires Mapped(p, Kernel, va, |bs|) && ClearOfKernel(va, |bs|) && bs != []
    ensures var at := KernelMap(p, va);
            at.Some? && at.value + |bs| <= |was| && Delivers(tm, addr[Pd(p)], va, bs, was, Splice(was, at.value, bs))
  {
    hide SpaceReady, Walk, KernelMap;
    BufferPlace(p, va, |bs|);
    var at := KernelMap(p, va).value;
    var now := Splice(was, at, bs);
    assert MapOf(p, Kernel, va + |bs| - 1).Some?;
    forall v: word | va <= v < va + |bs|
      ensures var pa := Walk(tm, addr[Pd(p)], v, Kernel); pa.Some? && pa.value < |now| && now[pa.value] == bs[v - va]
    {
      ProcessWalkExact(tm, addr, p, v, Kernel);
      assert MapOf(p, Kernel, v) == Some(at + (v - va));
    }
    forall k | 0 <= k < |now| && now[k] != was[k]
      ensures exists v: word :: va <= v < va + |bs| && Walk(tm, addr[Pd(p)], v, Kernel) == Some(k)
    {
      var v: word := va + (k - at);
      ProcessWalkExact(tm, addr, p, v, Kernel);
      assert MapOf(p, Kernel, v) == Some(at + (v - va));
    }
  }

  lemma NothingDelivered(tm: TableMemory, cr3: int, va: word, m: seq<byte>)
    ensures Delivers(tm, cr3, va, [], m, m)
  {
  }

  /** The byte-by-byte store of a read or getargs delivers its bytes, in that sense. */
  lemma StoreDelivers(m: seq<byte>, addr: seq<word>, p: nat, va: word, bs: seq<byte>)
    requires p < MAX_PROCESSES && Placed(addr) && |m| >= MEMORY_TOP && SpaceReady(TablesIn(m, addr), addr, p)
    requires Mapped(p, Kernel, va, |bs|) && ClearOfKernel(va, |bs|)
    ensures var r := StoreAll(m, addr, addr[Pd(p)], va, bs, Kernel);
            r.Some? && Delivers(TablesIn(m, addr), addr[Pd(p)], va, bs, m, r.value)
  {
    hide SpaceReady, TablesIn, StoreAll, Misses, Mapped, ClearOfKernel, Delivers, Splice;
    ClearMisses(addr, p, va, |bs|);
    StoreExact(m, addr, p, va, bs, Kernel);
    if bs == [] {
      NothingDelivered(TablesIn(m, addr), addr[Pd(p)], va, m);
    } else {
      SpliceDelivers(TablesIn(m, addr), addr, p, va, bs, m);
    }
  }

  // ------------------------------------------------------------ a buffer that is not harmless

  /** The three slots through which process `p`'s directory maps the kernel's own 8 MB. */
  ghost predicate WindowReady(tm: TableMemory, addr: seq<word>, p: nat)
    requires p < MAX_PROCESSES && Placed(addr)
  {
    addr[Pd(p)] in tm && addr[Pt(p)] in tm &&
    tm[addr[Pd(p)]][0] == addr[Pt(p)] + 3 && tm[addr[Pd(p)]][1] == FOUR_MB + 0x183 && tm[addr[Pt(p)]] == LowTable()
  }

  lemma WindowWalk(tm: TableMemory, addr: seq<word>, p: nat, va: word)
    requires p < MAX_PROCESSES && Placed(addr) && WindowReady(tm, addr, p) && PAGE_SIZE <= va < EIGHT_MB
    ensures Walk(tm, addr[Pd(p)], va, Kernel) == Some(va)
  {
    SplitAddress(va);
    var i := va / PAGE_SIZE % TABLE_SIZE;
    hide Walk, LowTable;
    if va < FOUR_MB {
      WalkSmallPage(tm, addr[Pd(p)], va, Kernel, addr[Pt(p)], false, PAGE_SIZE * i, true);
    } else {
      WalkBigPage(tm, addr[Pd(p)], va, Kernel, FOUR_MB, false);
    }
  }

  predicate SparesWindow(addr: seq<word>, p: nat, v: int)
    requires p < MAX_PROCESSES && |addr| == TABLES
  {
    !(0 <= v - addr[Pd(p)] < 8) && !InTable(addr, Pt(p), v)
  }

  /** A store into the kernel's 8 MB that spares those slots is a plain copy. */
  lemma {:induction false} WindowStore(m: seq<byte>, addr: seq<word>, p: nat, va: nat, bs: seq<byte>)
    requires p < MAX_PROCESSES && Placed(addr) && |m| >= MEMORY_TOP && WindowReady(TablesIn(m, addr), addr, p)
    requires PAGE_SIZE <= va && va + |bs| <= EIGHT_MB
    requires forall v :: va <= v < va + |bs| ==> SparesWindow(addr, p, v)
    ensures StoreAll(m, addr, addr[Pd(p)], va, bs, Kernel) == Some(Splice(m, va, bs))
    decreases |bs|
  {
    hide StoreAll, Walk, TablesIn, WindowReady;
    StoreFirst(m, addr, addr[Pd(p)], va, bs, Kernel);
    if bs == [] {
      assert Splice(m, va, bs) == m;
    } else {
      WindowWalk(TablesIn(m, addr), addr, p, va);
      assert SparesWindow(addr, p, va);
      WindowKept(m, addr, p, va, bs[0]);
      WindowStore(m[va := bs[0]], addr, p, va + 1, bs[1..]);
      SpliceFirst(m, va, bs);
    }
  }

  lemma WindowKept(m: seq<byte>, addr: seq<word>, p: nat, v: nat, b: byte)
    requires p < MAX_PROCESSES && Placed(addr) && |m| >= MEMORY_TOP && WindowReady(TablesIn(m, addr), addr, p)
    requires v < EIGHT_MB && SparesWindow(addr, p, v)
    ensures WindowReady(TablesIn(m[v := b], addr), addr, p)
  {
    hide LowTable, TableAt, InTable;
    TableKept(m, addr, Pt(p), v, b);
    EntryKept(m, addr[Pd(p)], 0, v, b);
    EntryKept(m, addr[Pd(p)], 1, v, b);
  }

  lemma TableKept(m: seq<byte>, addr: seq<word>, k: nat, v: nat, b: byte)
    requires Placed(addr) && |m| >= MEMORY_TOP && k < TABLES && v < |m| && !InTable(addr, k, v)
    ensures TableAt(m[v := b], addr[k]) == TableAt(m, addr[k])
  {
    TableFrame(m, m[v := b], addr, k);
  }

  lemma EntryKept(m: seq<byte>, a: nat, i: nat, v: nat, b: byte)
    requires a + PAGE_SIZE <= |m| && i < TABLE_SIZE && v < |m| && !(a + 4 * i <= v < a + 4 * i + 4)
    ensures TableAt(m[v := b], a)[i] == TableAt(m, a)[i]
  {
    assert TableAt(m[v := b], a)[i] == Word(m[v := b], a + 4 * i) == Word(m, a + 4 * i) == TableAt(m, a)[i];
  }

  /** The directory entry that maps the page of process `q`, as bytes. */
  function PageEntry(q: nat): (bs: seq<byte>)
    requires q < MAX_PROCESSES
    ensures |bs| == 4 && Word(bs, 0) == UserPage(q) + 0x87
  {
    [0x87, 0, (0x80 + 0x40 * q) % 0x100, (0x80 + 0x40 * q) / 0x100]
  }

  /** Without the condition the isolation of user code is lost: a read of these four bytes into the
      directory entry at addr[Pd(p)] + 4 * 32 succeeds, and from then on process `p`'s own stores to its
      4 MB at 128 MB go to the page of process `q`. */
  lemma DirectoryBufferRedirects(m: seq<byte>, addr: seq<word>, p: nat, q: nat, va: word)
    requires p < MAX_PROCESSES && q < MAX_PROCESSES && Placed(addr) && |m| >= MEMORY_TOP
    requires SpaceReady(TablesIn(m, addr), addr, p)
    requires USER_BASE <= va < USER_BASE + FOUR_MB
    ensures var r := StoreAll(m, addr, addr[Pd(p)], addr[Pd(p)] + 4 * 32, PageEntry(q), Kernel);
            r.Some? && Walk(TablesIn(r.value, addr), addr[Pd(p)], va, UserWrite) == Some(UserPage(q) + (va - USER_BASE))
    ensures !ClearOfTables(addr, addr[Pd(p)] + 4 * 32, 4)
  {
    hide SpaceReady, StoreAll, Walk, WindowReady, TablesIn, PageEntry, Splice, SparesWindow, InTables;
    var at := addr[Pd(p)] + 4 * 32;
    var r := Splice(m, at, PageEntry(q));
    EntrySpares(addr, p);
    ReadyWindow(TablesIn(m, addr), addr, p);
    WindowStore(m, addr, p, at, PageEntry(q));
    EntryStored(m, addr, p, q);
    hide Placed;
    WalkBigPage(TablesIn(r, addr), addr[Pd(p)], va, UserWrite, UserPage(q), true);
  }

  lemma ReadyWindow(tm: TableMemory, addr: seq<word>, p: nat)
    requires p < MAX_PROCESSES && Placed(addr) && SpaceReady(tm, addr, p)
    ensures WindowReady(tm, addr, p)
  {
  }

  lemma EntrySpares(addr: seq<word>, p: nat)
    requires p < MAX_PROCESSES && Placed(addr)
    ensures var at := addr[Pd(p)] + 4 * 32;
            PAGE_SIZE <= at && at + 4 <= EIGHT_MB && InTables(addr, at) &&
            forall v :: at <= v < at + 4 ==> SparesWindow(addr, p, v)
  {
    assert InTable(addr, Pd(p), addr[Pd(p)] + 4 * 32);
    assert addr[Pt(p)] % PAGE_SIZE == 0 && addr[Pd(p)] % PAGE_SIZE == 0 && addr[Pd(p)] != addr[Pt(p)];
  }

  lemma EntryStored(m: seq<byte>, addr: seq<word>, p: nat, q: nat)
    requires p < MAX_PROCESSES && q < MAX_PROCESSES && Placed(addr) && |m| >= MEMORY_TOP
    ensures var r := Splice(m, addr[Pd(p)] + 4 * 32, PageEntry(q));
            TablesIn(r, addr)[addr[Pd(p)]][32] == UserPage(q) + 0x87
  {
    var at, bs := addr[Pd(p)] + 4 * 32, PageEntry(q);
    var r := Splice(m, at, bs);
    assert r[at] == bs[0] && r[at + 1] == bs[1] && r[at + 2] == bs[2] && r[at + 3] == bs[3];
    assert TableAt(r, addr[Pd(p)])[32] == Word(r, at) == Word(bs, 0);
  }
}
