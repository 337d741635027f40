/** Whole runs of the machine: the process table together with physical memory, which holds the page
    tables, and every store that user code and the kernel make. */
module MachineRuns {
  import opened Bytes
  import opened Paging
  import opened Processes
  import opened ProcessTheory
  import opened FileSystem
  import opened Stores
  import Runs = ProcessRuns
  import Isolation
  import LineBuffer
  import Screens
  import Kernel

  const PROGADDR := Kernel.PROGADDR
  const MAX_IMAGE := Kernel.MAX_IMAGE

  /** The process table, and physical memory with the page tables in it. */
  datatype Machine = Machine(proc: State, mem: seq<byte>)

  /** Where things lie in the kernel's 8 MB: the tables, the mounted image, and the two arrays of
      keyboard.c that hold the lines typed (`keys`) and written (`text`), a row for each terminal. */
  datatype Layout = Layout(addr: seq<word>, boot: nat, imgLen: nat, keys: nat, text: nat)

  const ROW := LineBuffer.BUFFERSIZE
  const ROWS := NUM_TERMINALS * ROW

  ghost predicate Sensible(lay: Layout) {
    Placed(lay.addr) && ImagePlaced(lay.addr, lay.boot, lay.imgLen) && RowsPlaced(lay, lay.keys) &&
    RowsPlaced(lay, lay.text)
  }

  /** A variable of the kernel: on no table, not in text memory or the image, below the stacks. */
  predicate RowsPlaced(lay: Layout, at: nat) {
    PAGE_SIZE <= at && at + ROWS <= STACKS && OffTables(lay.addr, at, ROWS) &&
    (at + ROWS <= VIDMEM || TEXT_TOP <= at) && (at + ROWS <= lay.boot || lay.boot + lay.imgLen <= at)
  }

  predicate InImage(lay: Layout, k: int) { lay.boot <= k < lay.boot + lay.imgLen }

  /** The kernel's own memory: its variables, PCBs and stacks, and whatever else in its 8 MB is neither
      text memory nor table nor image. */
  predicate KernelOwn(lay: Layout, k: int) {
    PAGE_SIZE <= k < EIGHT_MB && !TextByte(k) && !InTables(lay.addr, k) && !InImage(lay, k)
  }

  /** All PCBs and kernel stacks are the kernel's own memory, and so are the two arrays of lines. */
  lemma OwnMemory(lay: Layout, k: int)
    requires Sensible(lay)
    ensures STACKS <= k < EIGHT_MB || lay.keys <= k < lay.keys + ROWS || lay.text <= k < lay.text + ROWS ==>
              KernelOwn(lay, k)
    ensures forall p :: 0 <= p < MAX_PROCESSES ==> STACKS <= PcbAddr(p) && PcbAddr(p) + MAX_STACK <= EIGHT_MB
  {
    if InTables(lay.addr, k) {
      TablesBelow8MB(lay.addr, k);
      var j :| 0 <= j < |lay.addr| && InTable(lay.addr, j, k);
    }
  }

  /** A kernel entry (execute brings the bytes of the file it loads); a read or getargs, which changes
      the descriptors and stores `bs` from the caller's address `va` on; terminal_write with the
      caller's text; Enter with `pending` characters in the shown terminal's line; a store by user
      code; a character printed by the kernel; any store of the kernel to its own memory, as every
      entry makes to variables, PCBs and stacks. */
  datatype Event =
    | Entry(op: Op, file: seq<byte>)
    | Call(fds: seq<Fd>, va: word, bs: seq<byte>)
    | Write(bs: seq<byte>)
    | EnterKey(pending: nat)
    | UserStore(va: word, b: byte)
    | Print(offset: nat, b: byte)
    | Own(at: nat, b: byte)

  /** What the event does to the process table. */
  function OpOf(e: Event): Option<Op> {
    match e
    case Entry(op, _) => Some(op)
    case Call(fds, _, _) => Some(Files(fds))
    case _ => None
  }

  /** The pid of the process whose user code runs. */
  function RunningPid(s: State): int
    requires TopReadable(s)
  {
    s.pcbs[s.pcbLoc[s.current]].pid
  }

  /** What the event's stores leave of memory, through the tables that lie in it; None for a page
      fault, which halts the machine. */
  ghost function Stored(lay: Layout, m: Machine, e: Event): (r: Option<seq<byte>>)
    requires Placed(lay.addr) && |m.mem| >= MEMORY_TOP && Shape(m.proc)
    ensures r.Some? ==> |r.value| == |m.mem|
  {
    match e
    case Entry(op, file) =>
      if Launches(m.proc, op) then Loaded(lay.addr, m.mem, NextPid(m.proc), file)
      else if op.Switch? && 0 <= op.to < 3 && op.to != m.proc.current then
        Some(Screens.Switched(m.mem, m.proc.current, op.to))
      else Some(m.mem)
    case Call(_, va, bs) => StoreAll(m.mem, lay.addr, m.proc.cr3, va, bs, Access.Kernel)
    case UserStore(va, b) => StoreAll(m.mem, lay.addr, m.proc.cr3, va, [b], UserWrite)
    case Write(bs) => StoreRow(m.mem, lay.text + ROW * m.proc.current, bs)
    case EnterKey(pending) => StoreRow(m.mem, lay.keys + ROW * m.proc.current + pending, [NEWLINE])
    case Print(offset, b) => Some(if offset < 0x8000 then m.mem[VIDMEM + offset := b] else m.mem)
    case Own(at, b) => Some(Poke(m.mem, at, b))
  }

  /** Stores through the kernel's identity mapping, which ends at 8 MB. */
  function StoreRow(m: seq<byte>, at: nat, bs: seq<byte>): (r: Option<seq<byte>>)
    requires |m| >= MEMORY_TOP
    ensures r.Some? ==> |r.value| == |m|
  {
    if at + |bs| <= EIGHT_MB then Some(Splice(m, at, bs)) else None
  }

  /** execute's stores: the page tables, and the file at PROGADDR through the new directory. */
  ghost function Loaded(addr: seq<word>, m: seq<byte>, p: nat, file: seq<byte>): (r: Option<seq<byte>>)
    requires p < MAX_PROCESSES && Placed(addr) && |m| >= MEMORY_TOP
    ensures r.Some? ==> |r.value| == |m|
  {
    StoreAll(InstallSpace(m, addr, p), addr, addr[Pd(p)], PROGADDR, file, Access.Kernel)
  }

  /** The event can happen and does not halt the machine. */
  ghost predicate Possible(lay: Layout, m: Machine, e: Event) {
    Sensible(lay) && |m.mem| >= MEMORY_TOP && Shape(m.proc) && Stored(lay, m, e).Some? &&
    (OpOf(e).Some? ==> Enabled(m.proc, OpOf(e).value)) &&
    match e
    case Entry(_, _) => true
    case Call(_, _, _) => true
    case Write(_) => Running(m.proc) && TopReadable(m.proc)
    case UserStore(_, _) => Running(m.proc) && TopReadable(m.proc)
    case EnterKey(pending) => pending <= ROW
    case Print(offset, _) => offset < 0x8000
    case Own(at, _) => KernelOwn(lay, at)
  }

  /** What the kernel does not check. The buffer of a read or getargs lies outside the kernel's memory
      (Stores.BufferKeepsKernel and Stores.BufferKeepsTables say why that is needed). The text of a write,
      and the newline of an Enter, do not run over the end of their array (Terminals.WriteInBounds and
      LineBuffer.EnterInBounds). */
  predicate Careful(m: Machine, e: Event) {
    (e.Call? ==> ClearOfKernel(e.va, |e.bs|)) &&
    (e.Write? ==> |e.bs| <= ROW * (NUM_TERMINALS - m.proc.current)) &&
    (e.EnterKey? ==> e.pending < ROW || m.proc.current < NUM_TERMINALS - 1)
  }

  ghost function Next(lay: Layout, m: Machine, e: Event): Machine
    requires Possible(lay, m, e)
  {
    Machine(if OpOf(e).Some? then Step(m.proc, OpOf(e).value) else m.proc, Stored(lay, m, e).value)
  }

  ghost predicate CanRunAll(lay: Layout, m: Machine, es: seq<Event>)
    decreases |es|
  {
    es == [] || (Possible(lay, m, es[0]) && Careful(m, es[0]) && CanRunAll(lay, Next(lay, m, es[0]), es[1..]))
  }

  ghost function RunAll(lay: Layout, m: Machine, es: seq<Event>): Machine
    requires CanRunAll(lay, m, es)
    decreases |es|
  {
    if es == [] then m else RunAll(lay, Next(lay, m, es[0]), es[1..])
  }

  // ------------------------------------------------------------ the invariant

  /** Process `p`'s tables in memory are built, or still zero. */
  ghost predicate SpaceState(tm: TableMemory, addr: seq<word>, p: nat, built: bool)
    requires p < MAX_PROCESSES && Placed(addr)
  {
    if built then SpaceReady(tm, addr, p) else SpaceBlank(tm, addr, p)
  }

  /** The tables in memory are those the process table counts on. */
  ghost predicate Sane(lay: Layout, m: Machine) {
    Sensible(lay) && |m.mem| >= MEMORY_TOP && Shape(m.proc) &&
    m.proc.dirs == Kernel.Dirs(lay.addr) && m.proc.boot == lay.addr[BOOT_PD] &&
    BootReady(TablesIn(m.mem, lay.addr), lay.addr) &&
    forall p :: 0 <= p < MAX_PROCESSES ==> SpaceState(TablesIn(m.mem, lay.addr), lay.addr, p, p in m.proc.loaded)
  }

  /** Every valid kernel, with the physical memory that holds its tables, is such a machine. */
  lemma KernelIsSane(k: Kernel.Kernel, lay: Layout, m: seq<byte>)
    requires k.Valid() && |m| >= MEMORY_TOP && TablesIn(m, k.tables.addr) == k.tables.Memory()
    requires lay.addr == k.tables.addr && lay.boot == k.boot && lay.imgLen == |k.img|
    requires RowsPlaced(lay, lay.keys) && RowsPlaced(lay, lay.text)
    ensures Sane(lay, Machine(k.Abs(), m)) && Invariant(k.Abs())
  {
    k.Pieces();
    hide Invariant, FileSystem.WellFormed, FileSystem.Mounted, Shape, SpaceReady, SpaceBlank, BootReady, OffTables;
    hide Kernel.AllHealthy, k.tables.Ready, k.tables.Blank, k.tables.BootBuilt;
    k.tables.BootBuiltIsReady();
    forall p | 0 <= p < MAX_PROCESSES
      ensures SpaceState(k.tables.Memory(), k.tables.addr, p, p in k.tables.Loaded())
    {
      k.tables.ReadyIsSpaceReady(p);
      k.tables.BlankIsSpaceBlank(p);
    }
  }

  lemma RunningTop(s: State, st: Stacks) returns (p: nat)
    requires Rep(s, st) && Running(s)
    ensures p < MAX_PROCESSES && TopReadable(s) && p == RunningPid(s) && InUse(st, p)
    ensures st[s.current] != [] && p == st[s.current][0]
    ensures |s.dirs| == MAX_PROCESSES && s.cr3 == s.dirs[p] && p in s.loaded
  {
    TopOfStack(s, st);
    p := st[s.current][0];
    hide Disjoint, Marks;
  }

  /** While user code runs, cr3 is the running process's directory and its tables are built. */
  lemma RunningSpace(lay: Layout, m: Machine, st: Stacks) returns (p: nat)
    requires Sane(lay, m) && Rep(m.proc, st) && Running(m.proc)
    ensures p < MAX_PROCESSES && TopReadable(m.proc) && p == RunningPid(m.proc) && InUse(st, p)
    ensures st[m.proc.current] != [] && p == st[m.proc.current][0]
    ensures m.proc.cr3 == lay.addr[Pd(p)] && SpaceReady(TablesIn(m.mem, lay.addr), lay.addr, p)
  {
    hide Rep, SpaceReady, BootReady, Placed, TopReadable;
    p := RunningTop(m.proc, st);
    assert SpaceState(TablesIn(m.mem, lay.addr), lay.addr, p, p in m.proc.loaded);
  }

  // ------------------------------------------------------------ what each event's stores do

  predicate TextByte(k: int) { VIDMEM <= k < TEXT_TOP }

  /** Bytes that are neither table nor process page: the screen and the terminal buffers. */
  predicate ScreenByte(k: int) { TextByte(k) || TERM_FRAMES <= k < MEMORY_TOP }

  /** Nothing changed but bytes of process `p`'s page, the screens and the kernel's own memory; all tables
      are as before. */
  ghost predicate OnlyPage(lay: Layout, m: seq<byte>, m': seq<byte>, p: int) {
    Placed(lay.addr) && |m| >= MEMORY_TOP && |m'| == |m| && TablesIn(m', lay.addr) == TablesIn(m, lay.addr) &&
    forall k :: 0 <= k < |m| && m'[k] != m[k] ==>
      ScreenByte(k) || KernelOwn(lay, k) || (0 <= p < MAX_PROCESSES && InUserPage(p, k))
  }

  lemma CallMemory(lay: Layout, m: seq<byte>, p: nat, va: word, bs: seq<byte>)
    requires p < MAX_PROCESSES && Placed(lay.addr) && |m| >= MEMORY_TOP
    requires SpaceReady(TablesIn(m, lay.addr), lay.addr, p)
    requires ClearOfKernel(va, |bs|)
    ensures var r := StoreAll(m, lay.addr, lay.addr[Pd(p)], va, bs, Access.Kernel);
            r.Some? ==> OnlyPage(lay, m, r.value, p)
  {
    StoreTouches(m, lay.addr, p, va, bs);
    hide SpaceReady, TablesIn, StoreAll;
  }

  lemma UserMemory(lay: Layout, m: seq<byte>, p: nat, va: word, b: byte)
    requires p < MAX_PROCESSES && Placed(lay.addr) && |m| >= MEMORY_TOP
    requires SpaceReady(TablesIn(m, lay.addr), lay.addr, p)
    ensures var r := StoreAll(m, lay.addr, lay.addr[Pd(p)], va, [b], UserWrite);
            r.Some? ==> OnlyPage(lay, m, r.value, p)
  {
    UserMissesTables(lay.addr, p, va, 1, UserWrite);
    StoreExact(m, lay.addr, p, va, [b], UserWrite);
    hide SpaceReady, TablesIn, StoreAll, Misses;
    assert Mapped(p, UserWrite, va, 1) ==> MapOf(p, UserWrite, va).Some?;
  }

  /** Stores into text memory or the kernel's own, or a switch of screens. */
  lemma ScreenMemory(lay: Layout, m: seq<byte>, m': seq<byte>)
    requires Placed(lay.addr) && |m| >= MEMORY_TOP && |m'| == |m|
    requires forall k :: 0 <= k < |m| && m'[k] != m[k] ==> ScreenByte(k) || KernelOwn(lay, k)
    ensures OnlyPage(lay, m, m', -1)
  {
    forall pa | 0 <= pa < MEMORY_TOP && InTables(lay.addr, pa) ensures m'[pa] == m[pa] {
      TablesBelow8MB(lay.addr, pa);
    }
    SameTables(m, m', lay.addr);
  }

  /** A store that stays in one of the two arrays of lines. */
  lemma RowMemory(lay: Layout, m: seq<byte>, base: nat, at: nat, bs: seq<byte>)
    requires Sensible(lay) && |m| >= MEMORY_TOP && (base == lay.keys || base == lay.text)
    requires base <= at && at + |bs| <= base + ROWS
    ensures StoreRow(m, at, bs).Some? && OnlyPage(lay, m, StoreRow(m, at, bs).value, -1)
  {
    var r := Splice(m, at, bs);
    hide KernelOwn, InTables, ScreenByte, OnlyPage;
    forall k | 0 <= k < |m| && r[k] != m[k] ensures KernelOwn(lay, k) {
      OwnMemory(lay, k);
    }
    ScreenMemory(lay, m, r);
  }

  /** A store of `n` bytes at `at`, in one of the two arrays, changes nothing else for all contents exactly
      when it ends inside the array. That is what Careful asks of a write and of an Enter. */
  lemma RowStoreStays(m: seq<byte>, base: nat, at: nat, n: nat)
    requires |m| >= MEMORY_TOP && base <= at <= base + ROWS && at + n <= EIGHT_MB
    ensures at + n <= base + ROWS <==>
            forall bs: seq<byte> :: |bs| == n ==>
              var r := StoreRow(m, at, bs);
              r.Some? && forall k :: 0 <= k < |m| && !(base <= k < base + ROWS) ==> r.value[k] == m[k]
  {
    if at + n > base + ROWS {
      var k := base + ROWS;
      var bs: seq<byte> := seq(n, _ => if m[k] == 0 then 1 else 0);
      assert StoreRow(m, at, bs).value[k] == bs[k - at];
    }
  }

  lemma SwitchMemory(lay: Layout, m: seq<byte>, from: int, to: int)
    requires Placed(lay.addr) && |m| >= MEMORY_TOP && 0 <= from < 3 && 0 <= to < 3
    ensures OnlyPage(lay, m, Screens.Switched(m, from, to), -1)
  {
    forall k | 0 <= k < |m| && Screens.Switched(m, from, to)[k] != m[k] ensures ScreenByte(k) {
      if !ScreenByte(k) {
        Screens.SwitchFrame(m, from, to, k);
      }
    }
    hide Screens.Switched;
    ScreenMemory(lay, m, Screens.Switched(m, from, to));
  }

  /** execute's stores: the new process's four tables become ready, the file lies at its place, and no
      other table or page changes. A file that does not fit the page faults. */
  lemma LoadMemory(addr: seq<word>, m: seq<byte>, p: nat, file: seq<byte>, built: bool)
    requires p < MAX_PROCESSES && Placed(addr) && |m| >= MEMORY_TOP && SpaceState(TablesIn(m, addr), addr, p, built)
    ensures var r := Loaded(addr, m, p, file);
            (r.Some? <==> |file| <= MAX_IMAGE) &&
            (r.Some? ==> r.value == Splice(InstallSpace(m, addr, p), Kernel.LoadAddress(p), file)) &&
            (r.Some? ==> TablesIn(r.value, addr) == TablesIn(InstallSpace(m, addr, p), addr))
  {
    hide TablesIn, InstallSpace, StoreAll, Misses, Placed, Mapped, SpaceReady, SpaceBlank;
    InstallReady(m, addr, p);
    var m1 := InstallSpace(m, addr, p);
    ClearMisses(addr, p, PROGADDR, |file|);
    StoreExact(m1, addr, p, PROGADDR, file, Access.Kernel);
    ImageMapped(p, |file|);
    assert file == [] ==> Splice(m1, Kernel.LoadAddress(p), file) == m1;
  }

  lemma ImageMapped(p: nat, n: nat)
    requires p < MAX_PROCESSES
    ensures Mapped(p, Access.Kernel, PROGADDR, n) <==> n <= MAX_IMAGE
    ensures MapOf(p, Access.Kernel, PROGADDR) == Some(Kernel.LoadAddress(p))
  {
    assert MapOf(p, Access.Kernel, PROGADDR + MAX_IMAGE).None?;
  }

  // ------------------------------------------------------------ runs

  predicate LaunchEvent(m: Machine, e: Event)
    requires |m.proc.progCount| == NUM_TERMINALS
  {
    e.Entry? && Launches(m.proc, e.op)
  }

  /** The call stacks after an event. */
  function EventStack(m: Machine, st: Stacks, e: Event): Stacks
    requires Shape(m.proc)
  {
    if OpOf(e).Some? then StackStep(m.proc, st, OpOf(e).value) else st
  }

  /** User code of process `q` does not run. */
  ghost predicate Waits(s: State, q: int)
    requires Shape(s)
  {
    Running(s) && TopReadable(s) ==> RunningPid(s) != q
  }

  /** The process table's part of an event. */
  lemma StepProc(lay: Layout, m: Machine, st: Stacks, e: Event)
    requires Possible(lay, m, e) && Rep(m.proc, st)
    ensures var s, r := m.proc, Next(lay, m, e).proc;
            Rep(r, EventStack(m, st, e)) && r.dirs == s.dirs && r.boot == s.boot &&
            r.loaded == if LaunchEvent(m, e) then s.loaded + {NextPid(s)} else s.loaded
    ensures forall q :: InUse(st, q) && (LaunchEvent(m, e) || Waits(m.proc, q)) ==> InUse(EventStack(m, st, e), q)
  {
    hide Stored;
    var s := m.proc;
    if OpOf(e).Some? {
      var op := OpOf(e).value;
      StepKeeps(s, st, op);
      if Running(s) {
        var _ := RunningTop(s, st);
      }
      assert Disjoint(st);
      if Launches(s, op) {
        PoolSound(s, st);
        PushDisjoint(st, s.current, NextPid(s));
      } else if op.Halt? {
        PopDisjoint(st, s.current);
      }
      hide Rep, NextPid, NewPcb, Disjoint;
    }
  }

  /** The memory part of an event that launches nothing. */
  lemma StepMemory(lay: Layout, m: Machine, st: Stacks, e: Event)
    requires Sane(lay, m) && Rep(m.proc, st) && Possible(lay, m, e) && Careful(m, e) && !LaunchEvent(m, e)
    ensures var p := if Running(m.proc) && TopReadable(m.proc) then RunningPid(m.proc) else -1;
            OnlyPage(lay, m.mem, Next(lay, m, e).mem, p)
  {
    hide Rep, SpaceReady, OnlyPage, Sane, TablesIn, StoreAll, Screens.Switched, ClearOfKernel;
    assert m.proc.current < 3;
    var p: int := -1;
    if Running(m.proc) {
      p := RunningSpace(lay, m, st);
    }
    OnlyPageGrows(lay, m.mem, Next(lay, m, e).mem, p);
    match e
    case Entry(op, _) =>
      if op.Switch? && op.to != m.proc.current {
        SwitchMemory(lay, m.mem, m.proc.current, op.to);
      } else {
        ScreenMemory(lay, m.mem, m.mem);
      }
    case Call(_, va, bs) => CallMemory(lay, m.mem, p, va, bs);
    case UserStore(va, b) => UserMemory(lay, m.mem, p, va, b);
    case Write(bs) => RowMemory(lay, m.mem, lay.text, lay.text + ROW * m.proc.current, bs);
    case EnterKey(pending) => RowMemory(lay, m.mem, lay.keys, lay.keys + ROW * m.proc.current + pending, [NEWLINE]);
    case Print(offset, b) => ScreenMemory(lay, m.mem, m.mem[VIDMEM + offset := b]);
    case Own(at, b) => ScreenMemory(lay, m.mem, Poke(m.mem, at, b));
  }

  lemma OnlyPageGrows(lay: Layout, m: seq<byte>, m': seq<byte>, p: int)
    ensures OnlyPage(lay, m, m', -1) ==> OnlyPage(lay, m, m', p)
  {
  }

  /** Every event keeps the machine sane. */
  lemma StepKeepsSane(lay: Layout, m: Machine, st: Stacks, e: Event)
    requires Sane(lay, m) && Rep(m.proc, st) && Possible(lay, m, e) && Careful(m, e)
    ensures Sane(lay, Next(lay, m, e)) && Rep(Next(lay, m, e).proc, EventStack(m, st, e))
    ensures forall q :: InUse(st, q) && (LaunchEvent(m, e) || Waits(m.proc, q)) ==> InUse(EventStack(m, st, e), q)
  {
    StepProc(lay, m, st, e);
    var m' := Next(lay, m, e);
    assert Shape(m'.proc);
    if LaunchEvent(m, e) {
      var p := NextPid(m.proc);
      assert SpaceState(TablesIn(m.mem, lay.addr), lay.addr, p, p in m.proc.loaded);
      LaunchTables(lay, m, p, e.file);
      hide Rep, SpaceReady, SpaceBlank, BootReady, TablesIn, Loaded, Shape;
      LaunchSane(lay, m, m', p);
    } else {
      StepMemory(lay, m, st, e);
      hide Rep, SpaceReady, SpaceBlank, BootReady, TablesIn, Shape, Next, Possible, Careful;
    }
  }

  /** After a launch the new process's tables are ready and all others as they were. */
  ghost predicate Installed(addr: seq<word>, m: seq<byte>, m': seq<byte>, p: nat)
    requires p < MAX_PROCESSES
  {
    Placed(addr) && |m| >= MEMORY_TOP && |m'| == |m| && SpaceReady(TablesIn(m', addr), addr, p) &&
    forall j :: 0 <= j < TABLES && !(Pd(p) <= j <= Term(p)) ==> TableSame(m, m', addr, j)
  }

  /** Table `j` is the same in both memories. */
  ghost predicate TableSame(m: seq<byte>, m': seq<byte>, addr: seq<word>, j: nat)
    requires Placed(addr) && |m| >= MEMORY_TOP && |m'| >= MEMORY_TOP && j < TABLES
  {
    TablesIn(m', addr)[addr[j]] == TablesIn(m, addr)[addr[j]]
  }

  lemma LaunchTables(lay: Layout, m: Machine, p: nat, file: seq<byte>)
    requires p < MAX_PROCESSES && Placed(lay.addr) && |m.mem| >= MEMORY_TOP && Loaded(lay.addr, m.mem, p, file).Some?
    requires SpaceState(TablesIn(m.mem, lay.addr), lay.addr, p, p in m.proc.loaded)
    ensures Installed(lay.addr, m.mem, Loaded(lay.addr, m.mem, p, file).value, p)
  {
    InstallReady(m.mem, lay.addr, p);
    LoadMemory(lay.addr, m.mem, p, file, p in m.proc.loaded);
    var r, m1 := Loaded(lay.addr, m.mem, p, file).value, InstallSpace(m.mem, lay.addr, p);
    hide Loaded, InstallSpace, SpaceReady, SpaceBlank;
    forall j | 0 <= j < TABLES && !(Pd(p) <= j <= Term(p)) ensures TableSame(m.mem, r, lay.addr, j) {
      assert TableAt(m1, lay.addr[j]) == TableAt(m.mem, lay.addr[j]);
    }
  }

  lemma LaunchSane(lay: Layout, m: Machine, m': Machine, p: nat)
    requires Sane(lay, m) && p < MAX_PROCESSES && Installed(lay.addr, m.mem, m'.mem, p)
    requires Shape(m'.proc) && m'.proc.dirs == m.proc.dirs && m'.proc.boot == m.proc.boot
    requires m'.proc.loaded == m.proc.loaded + {p}
    ensures Sane(lay, m')
  {
    hide Shape, SpaceReady, SpaceBlank, BootReady, TablesIn;
    forall q | 0 <= q < MAX_PROCESSES ensures SpaceState(TablesIn(m'.mem, lay.addr), lay.addr, q, q in m'.proc.loaded) {
      if q != p {
        assert SpaceState(TablesIn(m.mem, lay.addr), lay.addr, q, q in m.proc.loaded);
        OtherSpace(lay.addr, m.mem, m'.mem, p, q);
      }
    }
    BootSpace(lay.addr, m.mem, m'.mem, p);
    hide SpaceState, Installed;
  }

  lemma BootSpace(addr: seq<word>, m: seq<byte>, m': seq<byte>, p: nat)
    requires p < MAX_PROCESSES && Installed(addr, m, m', p)
    ensures BootReady(TablesIn(m', addr), addr) <==> BootReady(TablesIn(m, addr), addr)
  {
    hide BootDirectory, LowTable, VideoTable, BufferTable, Zeros, TablesIn, SpaceReady;
    assert TableSame(m, m', addr, BOOT_PD) && TableSame(m, m', addr, BOOT_PT) && TableSame(m, m', addr, BOOT_VT);
  }

  lemma OtherSpace(addr: seq<word>, m: seq<byte>, m': seq<byte>, p: nat, q: nat)
    requires p < MAX_PROCESSES && q < MAX_PROCESSES && q != p && Installed(addr, m, m', p)
    ensures SpaceReady(TablesIn(m', addr), addr, q) <==> SpaceReady(TablesIn(m, addr), addr, q)
    ensures SpaceBlank(TablesIn(m', addr), addr, q) <==> SpaceBlank(TablesIn(m, addr), addr, q)
  {
    hide ProgDirectory, LowTable, VideoTable, BufferTable, Zeros, TablesIn;
    assert TableSame(m, m', addr, Pd(q)) && TableSame(m, m', addr, Pt(q)) && TableSame(m, m', addr, Vt(q)) &&
           TableSame(m, m', addr, Term(q));
    var tm, tm' := TablesIn(m, addr), TablesIn(m', addr);
    assert forall k :: Pd(q) <= k <= Term(q) ==> tm'[addr[k]] == tm[addr[k]];
  }

  /** The table memory of every machine reached is what the process table counts on: user code always
      runs on its own built directory. */
  lemma {:induction false} RunKeepsSane(lay: Layout, m: Machine, st: Stacks, es: seq<Event>) returns (st': Stacks)
    requires Sane(lay, m) && Rep(m.proc, st) && CanRunAll(lay, m, es)
    ensures Sane(lay, RunAll(lay, m, es)) && Rep(RunAll(lay, m, es).proc, st')
    decreases |es|
  {
    if es == [] {
      st' := st;
    } else {
      StepKeepsSane(lay, m, st, es[0]);
      hide Rep, Sane, Next, Possible, Careful;
      st' := RunKeepsSane(lay, Next(lay, m, es[0]), EventStack(m, st, es[0]), es[1..]);
    }
  }

  /** What any one event may change: the screens, the kernel's own memory, the page of the running
      process, and, when a program is launched, the page and the four tables of the new process. */
  lemma StepTouches(lay: Layout, m: Machine, st: Stacks, e: Event, k: nat)
    requires Sane(lay, m) && Rep(m.proc, st) && Possible(lay, m, e) && Careful(m, e) && k < |m.mem|
    requires Next(lay, m, e).mem[k] != m.mem[k]
    ensures ScreenByte(k) || KernelOwn(lay, k) ||
            if LaunchEvent(m, e) then InUserPage(NextPid(m.proc), k) || InSpace(lay.addr, NextPid(m.proc), k)
            else
              Running(m.proc) && TopReadable(m.proc) && 0 <= RunningPid(m.proc) < MAX_PROCESSES &&
              InUserPage(RunningPid(m.proc), k)
  {
    if LaunchEvent(m, e) {
      var p := NextPid(m.proc);
      assert SpaceState(TablesIn(m.mem, lay.addr), lay.addr, p, p in m.proc.loaded);
      LoadMemory(lay.addr, m.mem, p, e.file, p in m.proc.loaded);
      hide Rep, Loaded, Sane, NextPid, SpaceState, TablesIn, InstallSpace, KernelOwn, InSpace;
      if !InSpace(lay.addr, p, k) {
        InstallElsewhere(m.mem, lay.addr, p, k);
      }
    } else {
      StepMemory(lay, m, st, e);
    }
  }

  /** At no point of the run is `q` the process whose user code runs. */
  ghost predicate Suspended(lay: Layout, m: Machine, es: seq<Event>, q: nat)
    requires CanRunAll(lay, m, es)
    decreases |es|
  {
    es == [] ||
    (Waits(m.proc, q) && Suspended(lay, Next(lay, m, es[0]), es[1..], q))
  }

  /** One event, for a live process that does not run, or any live process while another is launched. */
  lemma StepLeavesPage(lay: Layout, m: Machine, st: Stacks, e: Event, q: nat)
    requires Sane(lay, m) && Rep(m.proc, st) && Possible(lay, m, e) && Careful(m, e)
    requires q < MAX_PROCESSES && InUse(st, q) && (LaunchEvent(m, e) || Waits(m.proc, q))
    ensures Sane(lay, Next(lay, m, e)) && Rep(Next(lay, m, e).proc, EventStack(m, st, e))
    ensures InUse(EventStack(m, st, e), q)
    ensures PageKept(m.mem, Next(lay, m, e).mem, q)
  {
    StepKeepsSane(lay, m, st, e);
    var was, now := m.mem, Next(lay, m, e).mem;
    assert |now| == |was| && Placed(lay.addr);
    hide Rep, Sane, Next, Possible, Careful, InTables, Placed, InUse, Waits, EventStack, PageKept, LaunchEvent;
    forall k | UserPage(q) <= k < UserPage(q) + FOUR_MB ensures now[k] == was[k] {
      StepLeavesByte(lay, m, st, e, q, k);
    }
    SamePage(was, now, q);
  }

  lemma SamePage(m: seq<byte>, m': seq<byte>, q: nat)
    requires |m| == |m'| >= MEMORY_TOP && q < MAX_PROCESSES
    requires forall k :: UserPage(q) <= k < UserPage(q) + FOUR_MB ==> m'[k] == m[k]
    ensures PageKept(m, m', q)
  {
  }

  /** The 4 MB page of process `q` is the same, byte for byte. */
  ghost predicate PageKept(m: seq<byte>, m': seq<byte>, q: int) {
    0 <= q < MAX_PROCESSES && |m'| == |m| >= MEMORY_TOP && Isolation.PageOf(m', q) == Isolation.PageOf(m, q)
  }

  lemma PageKeptTrans(a: seq<byte>, b: seq<byte>, c: seq<byte>, q: int)
    requires PageKept(a, b, q) && PageKept(b, c, q)
    ensures PageKept(a, c, q)
  {
  }

  lemma StepLeavesByte(lay: Layout, m: Machine, st: Stacks, e: Event, q: nat, k: nat)
    requires Sane(lay, m) && Rep(m.proc, st) && Possible(lay, m, e) && Careful(m, e) && q < MAX_PROCESSES
    requires InUse(st, q)
    requires LaunchEvent(m, e) || Waits(m.proc, q)
    requires UserPage(q) <= k < UserPage(q) + FOUR_MB
    ensures Next(lay, m, e).mem[k] == m.mem[k]
  {
    assert LaunchEvent(m, e) ==> NextPid(m.proc) != q by {
      if LaunchEvent(m, e) {
        PoolSound(m.proc, st);
      }
    }
    hide Rep, Sane, Next, Careful, NextPid, InTables, ScreenByte, InUserPage, TopReadable;
    PageByte(lay, q, k);
    if Next(lay, m, e).mem[k] != m.mem[k] {
      StepTouches(lay, m, st, e, k);
    }
  }

  /** The pages lie apart from each other, from the kernel's 8 MB and from the screens. */
  lemma PageByte(lay: Layout, q: nat, k: nat)
    requires Placed(lay.addr) && q < MAX_PROCESSES && UserPage(q) <= k < UserPage(q) + FOUR_MB
    ensures !ScreenByte(k) && !KernelOwn(lay, k)
    ensures forall p :: 0 <= p < MAX_PROCESSES ==> !InSpace(lay.addr, p, k) && (p != q ==> !InUserPage(p, k))
  {
    forall p | 0 <= p < MAX_PROCESSES ensures !InSpace(lay.addr, p, k) {
      SpaceInTables(lay.addr, p, k);
      if InTables(lay.addr, k) {
        TablesBelow8MB(lay.addr, k);
      }
    }
  }

  lemma SpaceInTables(addr: seq<word>, p: nat, k: int)
    requires |addr| == TABLES && p < MAX_PROCESSES
    ensures InSpace(addr, p, k) ==> InTables(addr, k)
  {
  }

  /** However the kernel and the other processes run, as long as the unchecked calls are careful, the page
      of a live process that does not run keeps every byte. */
  lemma {:induction false} SuspendedPageUnchanged(lay: Layout, m: Machine, st: Stacks, es: seq<Event>, q: nat)
    requires Sane(lay, m) && Rep(m.proc, st) && CanRunAll(lay, m, es) && q < MAX_PROCESSES && InUse(st, q)
    requires Suspended(lay, m, es, q)
    ensures PageKept(m.mem, RunAll(lay, m, es).mem, q)
    decreases |es|
  {
    if es != [] {
      StepLeavesPage(lay, m, st, es[0], q);
      hide Rep, Next, Possible, PageKept;
      SuspendedPageUnchanged(lay, Next(lay, m, es[0]), EventStack(m, st, es[0]), es[1..], q);
      PageKeptTrans(m.mem, Next(lay, m, es[0]).mem, RunAll(lay, m, es).mem, q);
    }
  }

  /** Over any such run the mounted file system image keeps every byte. */
  lemma {:induction false} ImageUnchanged(lay: Layout, m: Machine, st: Stacks, es: seq<Event>, img: seq<byte>)
    requires Sane(lay, m) && Rep(m.proc, st) && CanRunAll(lay, m, es)
    requires |img| == lay.imgLen && Mounted(m.mem, lay.boot, img)
    ensures Mounted(RunAll(lay, m, es).mem, lay.boot, img)
    decreases |es|
  {
    if es != [] {
      var m1 := Next(lay, m, es[0]);
      StepKeepsSane(lay, m, st, es[0]);
      StepKeepsImage(lay, m, st, es[0], img);
      hide Rep, Next, Possible, Sane, Mounted;
      ImageUnchanged(lay, m1, EventStack(m, st, es[0]), es[1..], img);
    }
  }

  lemma StepKeepsImage(lay: Layout, m: Machine, st: Stacks, e: Event, img: seq<byte>)
    requires Sane(lay, m) && Rep(m.proc, st) && Possible(lay, m, e) && Careful(m, e)
    requires |img| == lay.imgLen && Mounted(m.mem, lay.boot, img)
    ensures Mounted(Next(lay, m, e).mem, lay.boot, img)
  {
    var was, now := m.mem, Next(lay, m, e).mem;
    hide Rep, Next, Careful, NextPid, InSpace, ScreenByte, InUserPage, TopReadable, KernelOwn, Possible, Sane;
    assert |now| == |was| && Sensible(lay) by { NextSize(lay, m, e); }
    forall k | lay.boot <= k < lay.boot + lay.imgLen ensures now[k] == was[k] {
      ImageByte(lay, k);
      if now[k] != was[k] {
        StepTouches(lay, m, st, e, k);
      }
    }
    Kernel.StillMounted(was, now, lay.boot, img);
  }

  lemma NextSize(lay: Layout, m: Machine, e: Event)
    requires Possible(lay, m, e)
    ensures |Next(lay, m, e).mem| == |m.mem| >= MEMORY_TOP && Sensible(lay)
  {
  }

  lemma ImageByte(lay: Layout, k: nat)
    requires Sensible(lay) && InImage(lay, k)
    ensures !ScreenByte(k) && !KernelOwn(lay, k)
    ensures forall p :: 0 <= p < MAX_PROCESSES ==> !InSpace(lay.addr, p, k) && !InUserPage(p, k)
  {
    forall p | 0 <= p < MAX_PROCESSES ensures !InSpace(lay.addr, p, k) {
    }
  }

  // ------------------------------------------------------------ a balanced run undoes itself

  /** What a run of events does to the process table. */
  function Ops(es: seq<Event>): seq<Op>
    decreases |es|
  {
    if es == [] then [] else (if OpOf(es[0]).Some? then [OpOf(es[0]).value] else []) + Ops(es[1..])
  }

  lemma {:induction false} RunOps(lay: Layout, m: Machine, es: seq<Event>)
    requires CanRunAll(lay, m, es)
    ensures CanRun(m.proc, Ops(es)) && Run(m.proc, Ops(es)) == RunAll(lay, m, es).proc
    decreases |es|
  {
    if es != [] {
      RunOps(lay, Next(lay, m, es[0]), es[1..]);
      FirstOp(es);
      hide Enabled, Step, Stored, Ops;
    }
  }

  lemma FirstOp(es: seq<Event>)
    requires es != []
    ensures if OpOf(es[0]).Some? then Ops(es) != [] && Ops(es)[0] == OpOf(es[0]).value && Ops(es)[1..] == Ops(es[1..])
            else Ops(es) == Ops(es[1..])
  {
  }

  /** Process `q` lies below level `d` of terminal `t`'s stack, or on another terminal. */
  predicate Below(st: Stacks, t: int, d: nat, q: int)
    requires 0 <= t < NUM_TERMINALS
  {
    d < |st[t]| && InUse(st, q) && (q in Runs.Bottom(st[t], d) || q !in st[t])
  }

  /** More than `d` processes are alive on terminal `t`. */
  ghost predicate More(s: State, t: int, d: nat) {
    Shape(s) && 0 <= t < NUM_TERMINALS && s.progCount[t] > d
  }

  /** As long as `t` is shown, such a process does not run. */
  lemma BelowWaits(s: State, st: Stacks, t: int, d: nat, q: int)
    requires Rep(s, st) && s.current == t && 0 <= t < NUM_TERMINALS && Below(st, t, d, q)
    ensures Waits(s, q) && 0 <= q < MAX_PROCESSES
  {
    var p := RunningTop(s, st) by { assert LinkedStack(s, t, st[t]); }
    assert Disjoint(st) && NoRepeat(st[t]);
    InUseInRange(s, st, q);
    hide Rep, Linked;
  }

  /** One event of the run in between, on the shown terminal and above level `d`. */
  lemma StepAbove(lay: Layout, m: Machine, st: Stacks, e: Event, t: int, d: nat, q: int)
    requires Sane(lay, m) && Rep(m.proc, st) && Possible(lay, m, e) && Careful(m, e)
    requires m.proc.current == t && 0 <= t < NUM_TERMINALS && Below(st, t, d, q)
    requires OpOf(e).Some? ==> !OpOf(e).value.Switch?
    requires More(Next(lay, m, e).proc, t, d)
    ensures var m1, st1 := Next(lay, m, e), EventStack(m, st, e);
            Sane(lay, m1) && Rep(m1.proc, st1) && m1.proc.current == t && Below(st1, t, d, q) &&
            PageKept(m.mem, m1.mem, q)
  {
    KeepsCurrent(lay, m, e);
    BelowInUse(st, t, d, q);
    hide Rep, Sane, Possible, Careful, PageKept, Below, Next, EventStack, InUse, Waits;
    BelowWaits(m.proc, st, t, d, q);
    StepLeavesPage(lay, m, st, e, q);
    StackAbove(lay, m, st, e, t, d, q);
  }

  lemma KeepsCurrent(lay: Layout, m: Machine, e: Event)
    requires Possible(lay, m, e) && (OpOf(e).Some? ==> !OpOf(e).value.Switch?)
    ensures Next(lay, m, e).proc.current == m.proc.current
    ensures Shape(m.proc) && |m.mem| >= MEMORY_TOP
  {
    hide Stored;
  }

  lemma StackAbove(lay: Layout, m: Machine, st: Stacks, e: Event, t: int, d: nat, q: int)
    requires Rep(m.proc, st) && Possible(lay, m, e) && m.proc.current == t && 0 <= t < NUM_TERMINALS
    requires Below(st, t, d, q)
    requires OpOf(e).Some? ==> !OpOf(e).value.Switch?
    requires Rep(Next(lay, m, e).proc, EventStack(m, st, e)) && InUse(EventStack(m, st, e), q)
    requires More(Next(lay, m, e).proc, t, d)
    ensures Below(EventStack(m, st, e), t, d, q)
  {
    var st1 := EventStack(m, st, e);
    assert LinkedStack(m.proc, t, st[t]) && LinkedStack(Next(lay, m, e).proc, t, st1[t]);
    if OpOf(e).Some? {
      Runs.StepKeepsDepth(m.proc, st, OpOf(e).value, t, d);
      if Launches(m.proc, OpOf(e).value) {
        PoolSound(m.proc, st);
      }
    }
    hide Rep, Linked, NextPid, Next, Possible;
  }

  /** Over such a run the pages of all processes below the level, and on other terminals, keep every byte. */
  lemma {:induction false} RunAbove(lay: Layout, m: Machine, st: Stacks, es: seq<Event>, t: int, d: nat, q: int)
    returns (st': Stacks)
    requires Sane(lay, m) && Rep(m.proc, st) && CanRunAll(lay, m, es) && CanRun(m.proc, Ops(es))
    requires m.proc.current == t && 0 <= t < NUM_TERMINALS && Below(st, t, d, q)
    requires Runs.NoSwitch(Ops(es)) && Runs.StaysAbove(m.proc, Ops(es), t, d)
    requires More(RunAll(lay, m, es).proc, t, d)
    ensures var r := RunAll(lay, m, es);
            Sane(lay, r) && Rep(r.proc, st') && r.proc.current == t && Below(st', t, d, q) &&
            PageKept(m.mem, r.mem, q)
    decreases |es|
  {
    if es == [] {
      st' := st;
      BelowWaits(m.proc, st, t, d, q);
    } else {
      var m1 := Next(lay, m, es[0]);
      FirstOp(es);
      RunOps(lay, m1, es[1..]);
      NextAbove(lay, m, es, t, d);
      hide Ops, Rep, Sane, Possible, Careful, Below, PageKept, Next;
      StepAbove(lay, m, st, es[0], t, d, q);
      st' := RunAbove(lay, m1, EventStack(m, st, es[0]), es[1..], t, d, q);
      PageKeptTrans(m.mem, m1.mem, RunAll(lay, m, es).mem, q);
    }
  }

  /** The first event of the run leaves more than `d` processes on the terminal, and the rest is such a run. */
  lemma NextAbove(lay: Layout, m: Machine, es: seq<Event>, t: int, d: nat)
    requires es != [] && CanRunAll(lay, m, es) && CanRun(m.proc, Ops(es)) && 0 <= t < NUM_TERMINALS
    requires Runs.NoSwitch(Ops(es)) && Runs.StaysAbove(m.proc, Ops(es), t, d)
    requires More(RunAll(lay, m, es).proc, t, d)
    ensures var m1 := Next(lay, m, es[0]);
            More(m1.proc, t, d) && CanRun(m1.proc, Ops(es[1..])) &&
            Runs.NoSwitch(Ops(es[1..])) && Runs.StaysAbove(m1.proc, Ops(es[1..]), t, d)
    ensures OpOf(es[0]).Some? ==> !OpOf(es[0]).value.Switch?
  {
    var m1, ops := Next(lay, m, es[0]), Ops(es[1..]);
    FirstOp(es);
    RunOps(lay, m1, es[1..]);
    hide Ops, Possible, Enabled, Stored, Shape;
    assert ops == [] ==> Run(m1.proc, ops) == m1.proc;
    assert forall i :: 0 <= i < |ops| ==> ops[i] == Ops(es)[if OpOf(es[0]).Some? then i + 1 else i];
  }

  /** A launch, a careful run on the same terminal that keeps the new process alive, and its halt. */
  ghost predicate Balanced(lay: Layout, m: Machine, st: Stacks, e: Event, es: seq<Event>, h: Event) {
    Sane(lay, m) && Rep(m.proc, st) && Running(m.proc) && Possible(lay, m, e) && LaunchEvent(m, e) && Careful(m, e) &&
    var m1, t, d := Next(lay, m, e), m.proc.current, |st[m.proc.current]|;
    CanRunAll(lay, m1, es) && CanRun(m1.proc, Ops(es)) &&
    Runs.NoSwitch(Ops(es)) && Runs.StaysAbove(m1.proc, Ops(es), t, d) &&
    var m2 := RunAll(lay, m1, es);
    Possible(lay, m2, h) && h.Entry? && h.op.Halt? && m2.proc.progCount[t] == d + 1
  }

  /** A balanced run restores the process table as BalancedRunRestores says, and leaves the 4 MB page of
      every process that was alive byte for byte as it was: that of the parent, of its ancestors, and of
      the processes on the other terminals. */
  lemma BalancedRunKeepsPages(lay: Layout, m: Machine, st: Stacks, e: Event, es: seq<Event>, h: Event, q: int)
    requires Balanced(lay, m, st, e, es, h) && InUse(st, q)
    ensures var m3 := Next(lay, RunAll(lay, Next(lay, m, e), es), h);
            Runs.Restored(m.proc, m3.proc, st) && m3.proc.esp == e.op.esp && m3.proc.ebp == e.op.ebp &&
            PageKept(m.mem, m3.mem, q)
  {
    BalancedTable(lay, m, st, e, es, h);
    BalancedMemory(lay, m, st, e, es, h, q);
    hide Rep, Sane, Possible, Next, PageKept, Runs.Restored;
  }

  lemma BalancedTable(lay: Layout, m: Machine, st: Stacks, e: Event, es: seq<Event>, h: Event)
    requires Balanced(lay, m, st, e, es, h)
    ensures var m3 := Next(lay, RunAll(lay, Next(lay, m, e), es), h);
            Runs.Restored(m.proc, m3.proc, st) && m3.proc.esp == e.op.esp && m3.proc.ebp == e.op.ebp
  {
    RunOps(lay, Next(lay, m, e), es);
    hide Rep, Sane, Runs.Restored, Runs.StaysAbove, Runs.NoSwitch, Ops, Stored, RunAll, CanRunAll, Run, CanRun;
    Runs.BalancedRunRestores(m.proc, st, e.op, Ops(es), h.op.status);
  }

  lemma BalancedMemory(lay: Layout, m: Machine, st: Stacks, e: Event, es: seq<Event>, h: Event, q: int)
    requires Balanced(lay, m, st, e, es, h) && InUse(st, q)
    ensures var m3 := Next(lay, RunAll(lay, Next(lay, m, e), es), h);
            PageKept(m.mem, m3.mem, q)
  {
    var t, d, m1 := m.proc.current, |st[m.proc.current]|, Next(lay, m, e);
    var m2 := RunAll(lay, m1, es);
    LaunchPart(lay, m, st, e, es, h, q);
    hide Rep, Sane, PageKept, Runs.StaysAbove, Runs.NoSwitch, Ops, Possible, Next, RunAll, CanRunAll, LaunchEvent;
    hide Waits, Below;
    hide InUse, EventStack;
    var st2 := RunAbove(lay, m1, EventStack(m, st, e), es, t, d, q);
    HaltPart(lay, m2, st2, h, t, d, q);
    PageKeptTrans(m.mem, m1.mem, m2.mem, q);
    PageKeptTrans(m.mem, m2.mem, Next(lay, m2, h).mem, q);
  }

  lemma LaunchPart(lay: Layout, m: Machine, st: Stacks, e: Event, es: seq<Event>, h: Event, q: int)
    requires Balanced(lay, m, st, e, es, h) && InUse(st, q)
    ensures var t, d, m1, st1 := m.proc.current, |st[m.proc.current]|, Next(lay, m, e), EventStack(m, st, e);
            0 <= t < NUM_TERMINALS && PageKept(m.mem, m1.mem, q) && Sane(lay, m1) && Rep(m1.proc, st1) &&
            m1.proc.current == t && Below(st1, t, d, q) && More(RunAll(lay, m1, es).proc, t, d) && h.Entry?
  {
    InUseInRange(m.proc, st, q);
    KeepsCurrent(lay, m, e);
    LaunchedAbove(m, st, e, q);
    hide Rep, Sane, PageKept, Runs.StaysAbove, Runs.NoSwitch, Ops, Next, RunAll, CanRunAll, Waits, Below, InUse;
    hide EventStack;
    StepLeavesPage(lay, m, st, e, q);
  }

  lemma HaltPart(lay: Layout, m: Machine, st: Stacks, h: Event, t: int, d: nat, q: int)
    requires Sane(lay, m) && Rep(m.proc, st) && Possible(lay, m, h) && h.Entry?
    requires m.proc.current == t && 0 <= t < NUM_TERMINALS && Below(st, t, d, q)
    ensures PageKept(m.mem, Next(lay, m, h).mem, q)
  {
    BelowWaits(m.proc, st, t, d, q);
    BelowInUse(st, t, d, q);
    hide Rep, Sane, PageKept, Below, Next, InUse, Waits;
    StepLeavesPage(lay, m, st, h, q);
  }

  lemma BelowInUse(st: Stacks, t: int, d: nat, q: int)
    requires 0 <= t < NUM_TERMINALS && Below(st, t, d, q)
    ensures InUse(st, q)
  {
  }

  /** Right after a launch every process that was alive lies below the new one. */
  lemma LaunchedAbove(m: Machine, st: Stacks, e: Event, q: int)
    requires Rep(m.proc, st) && LaunchEvent(m, e) && InUse(st, q)
    ensures Below(EventStack(m, st, e), m.proc.current, |st[m.proc.current]|, q)
  {
    var t := m.proc.current;
    PoolSound(m.proc, st);
    var st1 := EventStack(m, st, e);
    assert st1[t] == [NextPid(m.proc)] + st[t];
    assert Runs.Bottom(st1[t], |st[t]|) == st[t];
    hide Rep, NextPid;
  }
}
