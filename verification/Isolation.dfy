/** Memory isolation between live processes: the process table and the page tables together. */
module Isolation {
  import opened Bytes
  import opened Paging
  import opened Processes
  import opened ProcessTheory
  import opened FileSystem
  import opened Stores
  import Commands
  import Screens
  import Console
  import Kernel
  import Runs = ProcessRuns

  const PROGADDR := Kernel.PROGADDR
  const MAX_IMAGE := Kernel.MAX_IMAGE

  // ------------------------------------------------------------ loading

  /** After execute's copy, byte `k` of the file is what the new process reads at PROGADDR + k; an
      address one past the largest image is a page fault. */
  lemma LoadedImage(tm: TableMemory, addr: seq<word>, p: nat, m: seq<byte>, f: seq<byte>, k: nat, access: Access)
    requires p < MAX_PROCESSES && Placed(addr) && SpaceReady(tm, addr, p)
    requires |m| >= MEMORY_TOP && |f| <= MAX_IMAGE && k < |f|
    ensures var r, pa := Splice(m, Kernel.LoadAddress(p), f), Walk(tm, addr[Pd(p)], PROGADDR + k, access);
            pa.Some? && 0 <= pa.value < |r| && r[pa.value] == f[k]
    ensures Walk(tm, addr[Pd(p)], 0x804_8000 + k, access) == Some(0x80_0000 + 0x40_0000 * p + 0x4_8000 + k)
    ensures PROGADDR == 0x804_8000
    ensures Walk(tm, addr[Pd(p)], PROGADDR + MAX_IMAGE, access) == None
  {
    hide Walk, SpaceReady;
    ProcessWalkExact(tm, addr, p, PROGADDR + k, access);
    ProcessWalkExact(tm, addr, p, PROGADDR + MAX_IMAGE, access);
  }

  /** The copy of the program leaves the page of every live process, and every byte below 8 MB, as it was. */
  lemma LoadLeavesOthers(s: State, st: Stacks, m: seq<byte>, f: seq<byte>, q: nat)
    requires Rep(s, st) && Total(s) < MAX_PROCESSES && |m| >= MEMORY_TOP && |f| <= MAX_IMAGE
    requires q < MAX_PROCESSES && InUse(st, q)
    ensures PageOf(Splice(m, Kernel.LoadAddress(NextPid(s)), f), q) == PageOf(m, q)
    ensures Splice(m, Kernel.LoadAddress(NextPid(s)), f)[..EIGHT_MB] == m[..EIGHT_MB]
  {
    PoolSound(s, st);
    hide Rep, NextPid;
  }

  /** The bytes of `f`, in order, are what user code reads from PROGADDR on through directory `cr3`. */
  ghost predicate SeenAt(tm: TableMemory, cr3: int, m: seq<byte>, f: seq<byte>) {
    |f| <= MAX_IMAGE && forall k :: 0 <= k < |f| ==> ByteSeen(tm, cr3, m, k, f[k])
  }

  /** User code reads `b` at PROGADDR + k. */
  ghost predicate ByteSeen(tm: TableMemory, cr3: int, m: seq<byte>, k: nat, b: byte)
    requires k <= MAX_IMAGE
  {
    var pa := Walk(tm, cr3, PROGADDR + k, UserRead);
    pa.Some? && 0 <= pa.value < |m| && m[pa.value] == b
  }

  /** What a started execute did, on the level of the process table. */
  lemma ExecuteLoads(img: seq<byte>, s: State, m: seq<byte>, cmd: seq<byte>, esp: int, ebp: int, entry: word,
                     s': State, m': seq<byte>, tm: TableMemory, addr: seq<word>)
    requires WellFormed(img) && |cmd| == Commands.BUFFASIZE && Invariant(s) && Shape(s) && |m| >= MEMORY_TOP
    requires Kernel.Executed(img, s, m, cmd, esp, ebp, Kernel.Started(entry), s', m')
    requires Placed(addr) && s.dirs == Kernel.Dirs(addr) && SpaceReady(tm, addr, NextPid(s))
    ensures Kernel.Named(img, cmd) && SeenAt(tm, s'.cr3, m', File(img, Kernel.ProgramInode(img, cmd)))
    ensures |m'| == |m| && SameBytes(m, m', 0, EIGHT_MB)
    ensures LiveApart(s, m, s', m')
  {
    var st: Stacks :| Rep(s, st);
    var p := NextPid(s);
    hide WellFormed, File, Rep, NextPid, NewPcb, SpaceReady, Walk, Splice, PageOf, SeenAt, Kernel.Accepts;
    assert Total(s) < MAX_PROCESSES && s'.cr3 == addr[Pd(p)] by {
      StartedFacts(img, s, m, cmd, esp, ebp, entry, s', m');
    }
    var f := File(img, Kernel.ProgramInode(img, cmd));
    SeenAfterLoad(tm, addr, p, m, f);
    forall q | 0 <= q < MAX_PROCESSES && s.memoryspace[q] != 0
      ensures PageOf(m', q) == PageOf(m, q) && PcbAddr(q) in s.pcbs && PcbAddr(q) in s'.pcbs
      ensures s'.pcbs[PcbAddr(q)] == s.pcbs[PcbAddr(q)]
    {
      LiveUntouched(s, st, m, f, q);
    }
    LoadBelow(m, Kernel.LoadAddress(p), f);
  }

  /** The pages and PCBs of the processes marked in the first state are the same in the second. */
  ghost predicate LiveApart(s: State, m: seq<byte>, s': State, m': seq<byte>) {
    |s.memoryspace| == MAX_PROCESSES && |m'| == |m| >= MEMORY_TOP &&
    forall q :: 0 <= q < MAX_PROCESSES && s.memoryspace[q] != 0 ==>
      PageOf(m', q) == PageOf(m, q) &&
      PcbAddr(q) in s.pcbs && PcbAddr(q) in s'.pcbs && s'.pcbs[PcbAddr(q)] == s.pcbs[PcbAddr(q)]
  }

  lemma StartedFacts(img: seq<byte>, s: State, m: seq<byte>, cmd: seq<byte>, esp: int, ebp: int, entry: word,
                     s': State, m': seq<byte>)
    requires WellFormed(img) && |cmd| == Commands.BUFFASIZE && Shape(s)
    requires Kernel.Executed(img, s, m, cmd, esp, ebp, Kernel.Started(entry), s', m')
    ensures Total(s) < MAX_PROCESSES && s'.cr3 == s.dirs[NextPid(s)]
  {
  }

  lemma SeenAfterLoad(tm: TableMemory, addr: seq<word>, p: nat, m: seq<byte>, f: seq<byte>)
    requires p < MAX_PROCESSES && Placed(addr) && SpaceReady(tm, addr, p) && |m| >= MEMORY_TOP && |f| <= MAX_IMAGE
    ensures SeenAt(tm, addr[Pd(p)], Splice(m, Kernel.LoadAddress(p), f), f)
  {
    hide SpaceReady, Walk, Splice;
    var m' := Splice(m, Kernel.LoadAddress(p), f);
    forall k | 0 <= k < |f| ensures ByteSeen(tm, addr[Pd(p)], m', k, f[k]) {
      LoadedImage(tm, addr, p, m, f, k, UserRead);
    }
  }

  lemma LoadBelow(m: seq<byte>, at: nat, f: seq<byte>)
    requires EIGHT_MB <= at && at + |f| <= |m|
    ensures SameBytes(m, Splice(m, at, f), 0, EIGHT_MB)
  {
  }

  /** The same bytes from `from` up to `to`. */
  ghost predicate SameBytes(m: seq<byte>, m': seq<byte>, from: nat, to: nat) {
    to <= |m| && to <= |m'| && forall k :: from <= k < to ==> m'[k] == m[k]
  }

  lemma SameWithin(m: seq<byte>, m': seq<byte>, from: nat, to: nat, a: nat, b: nat)
    requires SameBytes(m, m', from, to) && from <= a && b <= to
    ensures SameBytes(m, m', a, b)
  {
  }

  lemma LiveUntouched(s: State, st: Stacks, m: seq<byte>, f: seq<byte>, q: nat)
    requires Rep(s, st) && Total(s) < MAX_PROCESSES && |m| >= MEMORY_TOP && |f| <= MAX_IMAGE
    requires q < MAX_PROCESSES && s.memoryspace[q] != 0
    ensures PageOf(Splice(m, Kernel.LoadAddress(NextPid(s)), f), q) == PageOf(m, q)
    ensures PcbAddr(q) in s.pcbs && PcbAddr(q) != PcbAddr(NextPid(s))
  {
    assert InUse(st, q);
    LoadLeavesOthers(s, st, m, f, q);
    PoolSound(s, st);
    InUseInRange(s, st, q);
    AddrInjective(q, NextPid(s));
  }

  /** The kernel has loaded the program that `cmd` names and kept everything else apart: user code reads
      the file byte for byte from PROGADDR on through the directory now in cr3, and text memory, the file
      system image, and the pages and PCBs of all processes live in the earlier state are as they were. */
  ghost predicate LoadedApart(k: Kernel.Kernel, cmd: seq<byte>, s: State, m: seq<byte>)
    requires k.Valid() && |cmd| == Commands.BUFFASIZE
    reads k, k.mem, k.tables.tables, k.memoryspace, k.progCount, k.pcbLoc
  {
    WellFormed(k.img) && Kernel.Named(k.img, cmd) &&
    SeenAt(k.tables.Memory(), k.cr3, k.mem[..], File(k.img, Kernel.ProgramInode(k.img, cmd))) &&
    SameBytes(m, k.mem[..], VIDMEM, TEXT_TOP) && SameBytes(m, k.mem[..], k.boot, k.boot + |k.img|) &&
    LiveApart(s, m, k.Abs(), k.mem[..])
  }

  /** Load isolation, from every valid kernel, the first launch after boot included. */
  method LoadIsolated(k: Kernel.Kernel, cmd: seq<byte>, esp: int, ebp: int, con: Console.Console,
                      ghost h: Console.History)
    returns (o: Kernel.Outcome)
    requires k.Valid() && |cmd| == Commands.BUFFASIZE && k.Screen(con) && 0 <= k.current < 3 && con.Shows(k.current, h)
    modifies k`pcbs, k`esp0, k`cr3, k.mem, k.memoryspace, k.progCount, k.pcbLoc, k.tables.tables, con.screenX
    modifies con.screenY
    ensures o.Started? ==> k.Valid() && LoadedApart(k, cmd, old(k.Abs()), old(k.mem[..]))
  {
    k.Pieces();
    ghost var s, m := k.Abs(), k.mem[..];
    hide k.Valid, k.Abs, k.Arrays, k.Image, Kernel.Executed, WellFormed, Invariant, Shape, LoadedApart;
    hide Console.Console.Shows, Rep, k.Screen, k.tables.Memory, k.tables.Sound, Placed, NextPid;
    o := k.Execute(cmd, esp, ebp, con, h);
    if o.Started? {
      AfterExecute(k, s, m, cmd, esp, ebp, o.entry);
    }
  }

  /** The state a started execute leaves, from the state `s` and memory `m` before it. */
  lemma AfterExecute(k: Kernel.Kernel, s: State, m: seq<byte>, cmd: seq<byte>, esp: int, ebp: int, entry: word)
    requires k.Valid() && WellFormed(k.img) && |cmd| == Commands.BUFFASIZE && Invariant(s) && Shape(s)
    requires |m| >= MEMORY_TOP
    requires Kernel.Executed(k.img, s, m, cmd, esp, ebp, Kernel.Started(entry), k.Abs(), k.mem[..])
    ensures LoadedApart(k, cmd, s, m)
  {
    k.Pieces();
    var p := StartedRuns(k, s, m, cmd, esp, ebp, entry);
    assert TEXT_TOP <= k.boot && k.boot + |k.img| <= STACKS;
    hide k.Valid, Kernel.Executed, WellFormed, SeenAt, PageOf, File, Kernel.Named, Kernel.ProgramInode, Walk;
    hide ImagePlaced, Mounted, k.tables.Sound, Kernel.AllHealthy, Placed, SameBytes, LiveApart, Shape, Invariant, k.Abs;
    ExecuteLoads(k.img, s, m, cmd, esp, ebp, entry, k.Abs(), k.mem[..], k.tables.Memory(), k.tables.addr);
    SameWithin(m, k.mem[..], 0, EIGHT_MB, VIDMEM, TEXT_TOP);
    SameWithin(m, k.mem[..], 0, EIGHT_MB, k.boot, k.boot + |k.img|);
  }

  lemma StartedRuns(k: Kernel.Kernel, s: State, m: seq<byte>, cmd: seq<byte>, esp: int, ebp: int, entry: word)
    returns (p: nat)
    requires k.Valid() && WellFormed(k.img) && |cmd| == Commands.BUFFASIZE && Invariant(s) && Shape(s)
    requires Kernel.Executed(k.img, s, m, cmd, esp, ebp, Kernel.Started(entry), k.Abs(), k.mem[..])
    ensures p == NextPid(s) && k.tables.Valid() && SpaceReady(k.tables.Memory(), k.tables.addr, p)
    ensures s.dirs == Kernel.Dirs(k.tables.addr)
  {
    k.Pieces();
    var st: Stacks :| Rep(s, st);
    hide k.Valid, WellFormed, File, Kernel.Accepts, Rep, NextPid, Splice, NewPcb;
    var q := k.RunningSpace();
    p := NextPid(s);
    AddrInjective(p, q);
    k.tables.ReadyIsSpaceReady(p);
  }

  /** The 4 MB page of process `q`. */
  function PageOf(m: seq<byte>, q: nat): seq<byte>
    requires |m| >= MEMORY_TOP && q < MAX_PROCESSES
  {
    m[UserPage(q)..UserPage(q) + FOUR_MB]
  }

  // ------------------------------------------------------------ the argument

  /** A started execute leaves a running process whose PCB holds the command's argument. */
  lemma StartedArguments(img: seq<byte>, s: State, m: seq<byte>, cmd: seq<byte>, esp: int, ebp: int, entry: word,
                         s': State, m': seq<byte>)
    requires WellFormed(img) && |cmd| == Commands.BUFFASIZE && Invariant(s) && Shape(s) && Invariant(s')
    requires Kernel.Executed(img, s, m, cmd, esp, ebp, Kernel.Started(entry), s', m')
    ensures Shape(s') && Running(s') && TopReadable(s') && Kernel.TopArgs(s') == Commands.Arguments(cmd)
  {
    var st: Stacks :| Rep(s, st);
    var exec := Exec(true, Commands.Arguments(cmd), esp, ebp);
    Runs.LaunchedPcb(s, st, exec);
    StepKeeps(s, st, exec);
    var st' := StackStep(s, st, exec);
    assert st'[s.current] != [];
    assert LinkedStack(s', s.current, st'[s.current]);
    hide Rep, LinkedStack, NextPid, NewPcb, Commands.Arguments, Kernel.Accepts;
    TopOfStack(s', st');
  }

  /** `bs` is what user code reads from `va` on through directory `cr3`. */
  ghost predicate ReadBack(tm: TableMemory, cr3: int, m: seq<byte>, va: word, bs: seq<byte>) {
    va + |bs| <= 0x1_0000_0000 &&
    forall v: word :: va <= v < va + |bs| ==>
      var pa := Walk(tm, cr3, v, UserRead); pa.Some? && pa.value < |m| && m[pa.value] == bs[v - va]
  }

  /** A command "name argument", as the shell passes it. */
  ghost predicate CommandLine(name: seq<byte>, arg: seq<byte>, cmd: seq<byte>) {
    name != [] && NoNul(name, |name|) && SPACE !in name && arg != [] && NoNul(arg, |arg|) && arg[0] != 0x25 &&
    |cmd| == Commands.BUFFASIZE && name + [SPACE] + arg + [0] <= cmd
  }

  /** The first `n` bytes of the argument, zero padded. */
  function PaddedArgument(arg: seq<byte>, n: nat): (r: seq<byte>)
    requires n <= 128
    ensures |r| == n && forall i {:trigger r[i]} :: 0 <= i < n ==> r[i] == if i < |arg| then arg[i] else 0
  {
    seq(n, i requires 0 <= i < n => if i < |arg| then arg[i] else 0)
  }

  lemma ArgumentFound(name: seq<byte>, arg: seq<byte>, cmd: seq<byte>, n: nat)
    requires CommandLine(name, arg, cmd) && 1 <= n <= 128
    ensures |Commands.Arguments(cmd)| == ARG_SIZE
    ensures Commands.GetArgs(Commands.Arguments(cmd), n) == Some(PaddedArgument(arg, n))
  {
    Commands.CommandRoundTrip(name, arg, cmd);
    hide Commands.Arguments, Commands.GetArgs;
    assert (arg + Commands.Zeros(128 - |arg|))[..n] == PaddedArgument(arg, n);
  }

  /** From the command line to the new program: after execute has started "name argument", getargs in that
      program stores exactly the argument, zero padded, where its user code reads it. */
  method ArgumentDelivered(k: Kernel.Kernel, ghost name: seq<byte>, ghost arg: seq<byte>, cmd: seq<byte>,
                           esp: int, ebp: int, con: Console.Console, ghost h: Console.History, va: word, n: nat)
    returns (o: Kernel.Outcome, r: int)
    requires k.Valid() && k.Screen(con) && 0 <= k.current < 3 && con.Shows(k.current, h)
    requires CommandLine(name, arg, cmd) && 1 <= n <= 128 && USER_BASE <= va && va + n <= USER_BASE + FOUR_MB
    modifies k`pcbs, k`esp0, k`cr3, k.mem, k.memoryspace, k.progCount, k.pcbLoc, k.tables.tables
    modifies con.screenX, con.screenY
    ensures o.Started? ==>
              r == 0 && k.Valid() && k.tables.Valid() &&
              ReadBack(k.tables.Memory(), k.cr3, k.mem[..], va, PaddedArgument(arg, n))
  {
    hide k.Valid, k.Abs, k.Arrays, k.Image, Kernel.Executed, WellFormed, Invariant, Shape, ReadBack;
    hide Console.Console.Shows, Rep, k.Screen, k.tables.Memory, k.tables.Sound, Placed, NextPid, k.Writable;
    hide Commands.Arguments, Commands.GetArgs, PaddedArgument, Delivers;
    r := -1;
    k.Pieces();
    ArgumentFound(name, arg, cmd, n);
    hide CommandLine;
    ghost var s, m := k.Abs(), k.mem[..];
    o := k.Execute(cmd, esp, ebp, con, h);
    if o.Started? {
      CallerReady(k, s, m, cmd, esp, ebp, o.entry, va, n);
      r := CallGetArgs(k, va, n, PaddedArgument(arg, n));
    }
  }

  /** getargs by a running program whose argument is known. */
  method CallGetArgs(k: Kernel.Kernel, va: word, n: nat, ghost bs: seq<byte>) returns (r: int)
    requires k.Valid() && Running(k.Abs()) && TopReadable(k.Abs()) && n <= 128 && k.Writable(va, n)
    requires |Kernel.TopArgs(k.Abs())| == ARG_SIZE && Commands.GetArgs(Kernel.TopArgs(k.Abs()), n) == Some(bs)
    requires |bs| == n && USER_BASE <= va && va + n <= USER_BASE + FOUR_MB
    modifies k.mem
    ensures r == 0 && k.Valid() && k.tables.Valid() && ReadBack(k.tables.Memory(), k.cr3, k.mem[..], va, bs)
  {
    hide k.Valid, k.Abs, TopReadable, k.Writable, Commands.GetArgs, Delivers, ReadBack, k.tables.Memory;
    ghost var before := k.mem[..];
    r := k.GetArgs(va, n);
    k.Pieces();
    DeliveredBack(k, va, before, bs);
  }

  lemma CallerReady(k: Kernel.Kernel, s: State, m: seq<byte>, cmd: seq<byte>, esp: int, ebp: int, entry: word,
                    va: word, n: nat)
    requires k.Valid() && WellFormed(k.img) && |cmd| == Commands.BUFFASIZE && Invariant(s) && Shape(s)
    requires Kernel.Executed(k.img, s, m, cmd, esp, ebp, Kernel.Started(entry), k.Abs(), k.mem[..])
    requires USER_BASE <= va && va + n <= USER_BASE + FOUR_MB
    ensures k.tables.Valid() && Running(k.Abs()) && TopReadable(k.Abs())
    ensures Kernel.TopArgs(k.Abs()) == Commands.Arguments(cmd) && k.Writable(va, n)
  {
    hide k.Valid, Kernel.Executed, WellFormed, Invariant, k.tables.Sound, k.Image, Mapped, ClearOfKernel, Kernel.Dirs;
    k.Pieces();
    StartedArguments(k.img, s, m, cmd, esp, ebp, entry, k.Abs(), k.mem[..]);
    UserBuffer(k.pcbs[k.pcbLoc[k.current]].pid, va, n);
  }

  lemma UserBuffer(p: nat, va: word, n: nat)
    requires p < MAX_PROCESSES && USER_BASE <= va && va + n <= USER_BASE + FOUR_MB
    ensures Mapped(p, Access.Kernel, va, n) && ClearOfKernel(va, n)
  {
  }

  lemma DeliveredBack(k: Kernel.Kernel, va: word, before: seq<byte>, bs: seq<byte>)
    requires k.Valid() && Running(k.Abs()) && USER_BASE <= va && va + |bs| <= USER_BASE + FOUR_MB
    requires Delivers(k.tables.Memory(), k.cr3, va, bs, before, k.mem[..])
    ensures ReadBack(k.tables.Memory(), k.cr3, k.mem[..], va, bs)
  {
    hide k.Valid, k.Abs, k.tables.Ready, k.tables.Memory, SpaceReady, Delivers, ReadBack;
    var p := k.RunningSpace();
    k.tables.ReadyIsSpaceReady(p);
    DeliveredSeen(k.tables.Memory(), k.tables.addr, p, va, bs, before, k.mem[..]);
  }

  lemma DeliveredSeen(tm: TableMemory, addr: seq<word>, p: nat, va: word, bs: seq<byte>, was: seq<byte>, now: seq<byte>)
    requires p < MAX_PROCESSES && Placed(addr) && SpaceReady(tm, addr, p)
    requires USER_BASE <= va && va + |bs| <= USER_BASE + FOUR_MB && Delivers(tm, addr[Pd(p)], va, bs, was, now)
    ensures ReadBack(tm, addr[Pd(p)], now, va, bs)
  {
    hide SpaceReady, Walk;
    forall v: word | va <= v < va + |bs|
      ensures var pa := Walk(tm, addr[Pd(p)], v, UserRead); pa.Some? && pa.value < |now| && now[pa.value] == bs[v - va]
    {
      ProcessWalkExact(tm, addr, p, v, UserRead);
      ProcessWalkExact(tm, addr, p, v, Access.Kernel);
    }
  }
}
