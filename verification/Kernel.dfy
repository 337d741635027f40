/** The kernel's own variables and the system calls that update them in place. Each call is proved to
    do to the variables what the matching function of Processes, Descriptors, Commands or FileSystem
    says, and to keep the invariant. */
module Kernel {
  import opened Bytes
  import opened Paging
  import opened PageTables
  import opened FileSystem
  import opened Commands
  import opened Descriptors
  import P = Processes
  import Theory = ProcessTheory
  import Screens
  import Stores
  import Console

  const PROGADDR: word := 0x0804_8000
  const LOAD_OFFSET := 0x4_8000
  const MAX_IMAGE := 0x3B_8000      // 4 MB minus the load offset
  const MEMORY_TOP := Screens.MEMORY_TOP

  /** What execute prints at the process limit. */
  const LIMIT_TEXT: seq<byte> := [0x4D, 0x41, 0x58, 0x20, 0x50, 0x52, 0x4F, 0x43, 0x45, 0x53, 0x53, 0x45, 0x53, 0x20,
                                  0x52, 0x45, 0x41, 0x43, 0x48, 0x45, 0x44, 0x21, 0x20, 0x0A]

  /** Rejected returns to the caller, Started runs the program at its entry point, Faulted is a page
      fault while the program is copied, which halts the machine. */
  datatype Outcome = Rejected(ret: int) | Started(entry: word) | Faulted

  class Kernel {
    const tables: Tables
    const mem: array<byte>            // physical memory
    const boot: nat                   // where the file system image is mounted
    ghost const img: seq<byte>
    const memoryspace: array<int>
    const progCount: array<int>
    const pcbLoc: array<int>
    var pcbs: map<int, P.Pcb>
    var current: int
    var esp0: int
    var cr3: int
    var esp: int                      // as last loaded by halt or terminal_switch
    var ebp: int

    ghost predicate Valid()
      reads this, mem, tables.tables, memoryspace, progCount, pcbLoc
    {
      tables.Valid() && tables.Sound() && Arrays() && Image() && P.Invariant(Abs()) && AllHealthy(img, Abs())
    }

    /** The file system image is in the kernel's memory, where no table, PCB or stack is. */
    ghost predicate Image()
      reads mem
    {
      mem.Length >= MEMORY_TOP && ImagePlaced(tables.addr, boot, |img|) && Mounted(mem[..], boot, img) &&
      WellFormed(img)
    }

    ghost predicate Arrays() {
      memoryspace.Length == MAX_PROCESSES && progCount.Length == pcbLoc.Length == 3 &&
      memoryspace != progCount && memoryspace != pcbLoc && progCount != pcbLoc
    }

    /** The variables as a state of the process table. */
    ghost function Abs(): (s: P.State)
      requires tables.Valid()
      reads this, tables.tables, memoryspace, progCount, pcbLoc
    {
      P.State(memoryspace[..], progCount[..], pcbLoc[..], pcbs, current, esp0, cr3, esp, ebp,
              Dirs(tables.addr), tables.addr[BOOT_PD], tables.Loaded())
    }

    lemma Pieces()
      ensures Valid() <==>
              tables.Valid() && tables.Sound() && Arrays() && Image() && P.Invariant(Abs()) && AllHealthy(img, Abs())
      ensures Valid() ==> P.Shape(Abs()) && WellFormed(img) && mem.Length >= MEMORY_TOP
    {
      if Valid() {
        ShapeFromInvariant(Abs());
      }
    }

    /** The kernel once paging_init and setup_fs have run, before the first shell. */
    constructor (tables: Tables, mem: array<byte>, boot: nat, ghost img: seq<byte>)
      requires tables.Valid() && tables.BootBuilt() && forall p :: 0 <= p < MAX_PROCESSES ==> tables.Blank(p)
      requires mem.Length >= MEMORY_TOP && ImagePlaced(tables.addr, boot, |img|)
      requires Mounted(mem[..], boot, img) && WellFormed(img)
      ensures Valid() && P.Boot(Abs())
      ensures this.tables == tables && this.mem == mem && this.boot == boot && this.img == img
    {
      this.tables, this.mem, this.boot, this.img := tables, mem, boot, img;
      memoryspace, progCount := new int[MAX_PROCESSES](_ => 0), new int[3](_ => 0);
      pcbLoc := new int[3](i => if i == 0 then P.PCB0_LOC else 0);
      pcbs := map p | 0 <= p < MAX_PROCESSES :: P.PcbAddr(p) := P.Pcb(0, 0, 0, 0, 0, 0, 0, 0, 0, 0, [], []);
      current, esp0, cr3, esp, ebp := 0, P.KERNEL_TOP, tables.addr[BOOT_PD], 0, 0;
      new;
      P.BootRep(Abs());
    }

    /** The search for a free pid. */
    method AllocatePid() returns (pid: nat)
      requires memoryspace.Length == MAX_PROCESSES
      modifies memoryspace
      ensures var f := P.LowestFree(old(memoryspace[..]));
              pid == (if f < MAX_PROCESSES then f else 0) &&
              memoryspace[..] == if f < MAX_PROCESSES then old(memoryspace[..])[f := 1] else old(memoryspace[..])
    {
      pid := 0;
      var pger := 0;
      while pger < MAX_PROCESSES
        invariant 0 <= pger <= MAX_PROCESSES && pid == 0 && memoryspace[..] == old(memoryspace[..])
        invariant P.LowestFree(memoryspace[..]) == P.LowestFree(memoryspace[..], pger)
      {
        if memoryspace[pger] == 0 {
          pid := pger;
          memoryspace[pger] := 1;
          return;
        }
        pger := pger + 1;
      }
    }

    /** The command's program name, looked up in the directory. */
    method LookupProgram(cmd: seq<byte>) returns (found: bool, inode: word)
      requires Image() && |cmd| == BUFFASIZE
      ensures found == Named(img, cmd)
      ensures found ==> inode == ProgramInode(img, cmd)
    {
      if cmd[0] == 0 {
        return false, 0;
      }
      var prgname, _ := ParseName(cmd);
      var r, d := ReadDentryByName(mem, boot, prgname, img);
      if r == -1 {
        return false, 0;
      }
      ImageEntry(img, Lookup(img, prgname).value);
      return true, DentryInode(d);
    }

    /** The checks execute makes before it changes anything: the inode of the program and its entry
        point, or -1. The local buffers start with whatever the stack holds, so the answer for a file
        of fewer than four bytes is open. */
    method FindProgram(cmd: seq<byte>) returns (inode: int, entry: word)
      requires Image() && |cmd| == BUFFASIZE
      ensures inode == -1 || (Named(img, cmd) && inode == ProgramInode(img, cmd) && inode <= MAX_DATA_NUM)
      ensures Loadable(img, cmd) ==> inode != -1
      ensures inode != -1 && |File(img, ProgramInode(img, cmd))| >= 4 ==> Loadable(img, cmd)
      ensures inode != -1 && |File(img, ProgramInode(img, cmd))| >= 28 ==>
                entry == Word(File(img, ProgramInode(img, cmd)), 24)
    {
      hide Image, WellFormed, Named, ProgramInode, File, HasMagic, Word, Mounted;
      var found, node := LookupProgram(cmd);
      if !found {
        return -1, 0;
      }
      var magic := CheckMagic(node);
      if !magic {
        return -1, 0;
      }
      var r, at := ReadEntry(node);
      if r == -1 {
        return -1, 0;
      }
      return node, at;
    }

    /** The first four bytes are read and are the ELF magic number. */
    method CheckMagic(inode: word) returns (ok: bool)
      requires Image() && inode < NumInodes(img)
      ensures inode <= MAX_DATA_NUM && |File(img, inode)| >= 4 ==> ok == HasMagic(File(img, inode))
    {
      var elfbuf := new byte[4];
      var r := ReadData(mem, boot, inode, 0, elfbuf, 0, 4, img);
      if r == -1 {
        return false;
      }
      MagicRead(img, inode, elfbuf[..]);
      ok := elfbuf[0] == 0x7F && elfbuf[1] == 0x45 && elfbuf[2] == 0x4C && elfbuf[3] == 0x46;
      assert ok <==> elfbuf[..] == [0x7F, 0x45, 0x4C, 0x46];
    }

    /** Bytes 24 to 27 give the entry point. */
    method ReadEntry(inode: word) returns (r: int, entry: word)
      requires Image() && inode < NumInodes(img)
      ensures r == -1 <==> inode > MAX_DATA_NUM
      ensures r != -1 && |File(img, inode)| >= 28 ==> entry == Word(File(img, inode), 24)
    {
      var addrbuf := new byte[BUFFASIZE];
      r := ReadData(mem, boot, inode, 0, addrbuf, 0, BUFFASIZE, img);
      entry := Word(addrbuf[..], 24);
      if r != -1 {
        EntryRead(img, inode, addrbuf[..]);
      }
    }

    /** pcb_init: descriptors cleared in a loop, then 0 and 1 set to the terminal; everything else zero. */
    method PcbInit() returns (pcb: P.Pcb)
      ensures pcb == P.Pcb(0, 0, 0, 0, 0, 0, 0, 0, 0, 0, Commands.Zeros(P.ARG_SIZE), P.FreshFds())
    {
      var fds: seq<P.Fd> := [];
      while |fds| < P.FOPS_NUM
        invariant |fds| <= P.FOPS_NUM && forall k :: 0 <= k < |fds| ==> fds[k] == P.Unused()
      {
        fds := fds + [P.Unused()];
      }
      fds := fds[0 := P.Fd(P.StdinOps, 0, 0, 1)];
      fds := fds[1 := P.Fd(P.StdoutOps, 0, 0, 1)];
      assert fds == P.FreshFds();
      pcb := P.Pcb(0, 0, 0, 0, 0, 0, 0, 0, 0, 0, Commands.Zeros(P.ARG_SIZE), fds);
    }

    /** execute from the counter increment to the stored argument: pid, PCB, parent link. */
    method Spawn(cmd: seq<byte>, esp: int, ebp: int) returns (pid: nat)
      requires tables.Valid() && Arrays() && P.Shape(Abs()) && |cmd| == BUFFASIZE
      modifies this`pcbs, memoryspace, progCount, pcbLoc
      ensures pid == P.NextPid(old(Abs())) && Abs() == Spawned(old(Abs()), Arguments(cmd), esp, ebp)
      ensures Image() <==> old(Image())
      ensures tables.Sound() <==> old(tables.Sound())
    {
      hide P.LowestFree, P.FreshFds, Arguments, Dirs, Image, tables.Sound, tables.Loaded;
      var t := current;
      progCount[t] := progCount[t] + 1;
      var pcb := PcbInit();
      pid := AllocatePid();
      pcb := pcb.(pid := pid);
      var temp := pcbLoc[t];
      pcbLoc[t] := P.PcbAddr(pid);
      var prev := if progCount[t] == 1 then pcbLoc[t] else temp;
      pcb := pcb.(last := prev, ebp := ebp, esp := esp, pagedir := cr3);
      var args := ParseArgs(cmd, NameLength(cmd));
      pcb := pcb.(args := args);
      pcbs := pcbs[pcbLoc[t] := pcb];
    }

    /** The copy to PROGADDR through the new directory. A file that does not fit the 4 MB page faults
        after the page is full. Every byte from PROGADDR on is reached through the directory just loaded. */
    method LoadProgram(inode: word, pid: nat) returns (ok: bool)
      requires pid < MAX_PROCESSES && tables.Valid() && tables.Ready(pid) && cr3 == tables.addr[Pd(pid)]
      requires Image() && inode < NumInodes(img) && inode <= MAX_DATA_NUM
      modifies mem
      ensures Image() && ok == (|File(img, inode)| <= MAX_IMAGE)
      ensures mem[..] == Splice(old(mem[..]), LoadAddress(pid), Fitting(File(img, inode)))
      ensures Abs() == old(Abs()) && (tables.Sound() <==> old(tables.Sound()))
    {
      hide Splice, Mounted, WellFormed, ImagePlaced, Dirs, tables.Sound, tables.Loaded, tables.Ready;
      var filelen := FileLength(inode);
      ok := filelen <= MAX_IMAGE;
      CopyFile(inode, LoadAddress(pid), if ok then filelen else MAX_IMAGE);
    }

    /** inode_length. */
    method FileLength(inode: word) returns (n: word)
      requires Image() && inode < NumInodes(img)
      ensures n == |File(img, inode)|
    {
      BlockListReadable(img, inode, 0);
      n := FetchWord(mem, boot, InodeAt(inode), img);
    }

    /** read_data with a destination in memory above the image. */
    method CopyFile(inode: word, base: nat, n: word)
      requires Image() && inode < NumInodes(img) && inode <= MAX_DATA_NUM
      requires n <= |File(img, inode)| && EIGHT_MB <= base && base + n <= mem.Length
      modifies mem
      ensures Image() && mem[..] == Splice(old(mem[..]), base, File(img, inode)[..n])
    {
      ReadInside(img, inode, 0, n);
      hide WellFormed, Mounted, Contents, ReadCount, File, Splice;
      var r := ReadData(mem, boot, inode, 0, mem, base, n, img);
      if r == -1 {
        SpliceNothing(mem[..], base);
      }
      StillMounted(old(mem[..]), mem[..], boot, img);
    }

    /** execute. A rejected call changes nothing, except that at the process limit it prints a line on
        the shown terminal; a started one is the launch step of the process table, leaves the file's
        bytes in the new process's page and changes no other byte. */
    method Execute(cmd: seq<byte>, esp: int, ebp: int, con: Console.Console, ghost h: Console.History)
      returns (o: Outcome)
      requires Valid() && |cmd| == BUFFASIZE && Screen(con) && 0 <= current < 3 && con.Shows(current, h)
      modifies this`pcbs, this`esp0, this`cr3, mem, memoryspace, progCount, pcbLoc, tables.tables, con.screenX
      modifies con.screenY
      ensures !o.Faulted? ==> Valid()
      ensures Executed(img, old(Abs()), old(mem[..]), cmd, esp, ebp, o, Abs(), mem[..])
      ensures o == Rejected(0) ==> con.Shows(current, Console.PutAll(h, LIMIT_TEXT))
      ensures o != Rejected(0) ==> con.screenX[..] == old(con.screenX[..]) && con.screenY[..] == old(con.screenY[..])
    {
      ShapeFromInvariant(Abs());
      hide WellFormed, P.Invariant, tables.Loaded, tables.Sound, Image, Console.Console.Shows, AllHealthy;
      if progCount[0] + progCount[1] + progCount[2] >= MAX_PROCESSES {
        PrintLimit(con, h);
        return Rejected(0);
      }
      o := FindAndEnter(cmd, esp, ebp);
    }

    /** The console writes to this kernel's text memory and keeps its cursors in arrays of its own. */
    ghost predicate Screen(con: Console.Console) {
      con.Valid() && con.mem == mem && {con.screenX, con.screenY} !! {memoryspace, progCount, pcbLoc}
    }

    /** The line printed at the process limit. */
    method PrintLimit(con: Console.Console, ghost h: Console.History)
      requires tables.Valid() && Image() && Arrays() && Screen(con) && 0 <= current < 3 && con.Shows(current, h)
      modifies mem, con.screenX, con.screenY
      ensures Image() && Console.SameElsewhere(old(mem[..]), mem[..]) && Abs() == old(Abs())
      ensures tables.Sound() <==> old(tables.Sound())
      ensures con.Shows(current, Console.PutAll(h, LIMIT_TEXT))
    {
      var s := LIMIT_TEXT + [0];
      LimitLine(s);
      hide WellFormed, tables.Sound, tables.Loaded, Dirs, Console.Console.Shows, CStr, Console.PutAll;
      hide Mounted, Console.SameElsewhere;
      var _ := con.Printk(s, current, h);
      PrintKeepsImage(old(mem[..]), mem[..]);
    }

    lemma PrintKeepsImage(was: seq<byte>, now: seq<byte>)
      requires Mounted(was, boot, img) && TEXT_TOP <= boot && Console.SameElsewhere(was, now)
      ensures Mounted(now, boot, img)
    {
      StillMounted(was, now, boot, img);
    }

    /** execute below the process limit. */
    method FindAndEnter(cmd: seq<byte>, esp: int, ebp: int) returns (o: Outcome)
      requires Valid() && |cmd| == BUFFASIZE && P.Shape(Abs()) && P.Total(Abs()) < MAX_PROCESSES
      modifies this`pcbs, this`esp0, this`cr3, mem, memoryspace, progCount, pcbLoc, tables.tables
      ensures !o.Faulted? ==> Valid()
      ensures o != Rejected(0) && Executed(img, old(Abs()), old(mem[..]), cmd, esp, ebp, o, Abs(), mem[..])
    {
      Pieces();
      hide Valid, Abs, Arrays, AllHealthy, Executed, P.Shape, P.Total, WellFormed, P.Invariant, P.NextPid, P.Launch;
      hide Arguments, tables.Sound, File, Image, Splice, Loadable, Named, ProgramInode, Word;
      ghost var s, m := Abs(), mem[..];
      LaunchInvariant(s, cmd, esp, ebp);
      LaunchHealthy(img, s, Arguments(cmd), esp, ebp);
      var inode, entry := FindProgram(cmd);
      if inode == -1 {
        o := Rejected(-1);
        ExecutedRejected(img, s, m, cmd, esp, ebp);
      } else {
        var ok := Enter(inode, cmd, esp, ebp);
        o := if ok then Started(entry) else Faulted;
        ExecutedEntered(img, s, m, cmd, esp, ebp, entry, ok, Abs(), mem[..]);
        Pieces();
      }
    }

    /** The switch of page directory. */
    method MapProcess(pid: nat)
      requires tables.Valid() && tables.Sound() && pid < MAX_PROCESSES
      modifies this`cr3, tables.tables
      ensures tables.Sound() && tables.Ready(pid) && cr3 == tables.addr[Pd(pid)]
      ensures Abs() == Mapped(old(Abs()), pid)
      ensures Image() <==> old(Image())
    {
      hide tables.Ready, tables.Loaded, tables.Sound;
      cr3 := tables.Install(pid);
    }

    /** The last stores of execute: the kernel stack pointer and the rest of the PCB. */
    method FinishPcb(pid: nat)
      requires tables.Valid() && Arrays() && pid < MAX_PROCESSES && LinkedTo(Abs(), pid)
      modifies this`pcbs, this`esp0
      ensures Abs() == Finished(old(Abs()), pid)
      ensures Image() <==> old(Image())
      ensures tables.Sound() <==> old(tables.Sound())
    {
      hide tables.Loaded;
      var kern := P.KernelStack(pid);
      esp0 := kern;
      var here := pcbLoc[current];
      pcbs := pcbs[here := pcbs[here].(currPd := cr3, currEsp := kern, currEbp := kern, termNum := current)];
    }

    /** execute once its checks have passed. */
    method Enter(inode: word, cmd: seq<byte>, esp: int, ebp: int) returns (ok: bool)
      requires tables.Valid() && tables.Sound() && Arrays() && Image() && P.Shape(Abs()) && |cmd| == BUFFASIZE
      requires inode < NumInodes(img) && inode <= MAX_DATA_NUM
      modifies this`pcbs, this`esp0, this`cr3, mem, memoryspace, progCount, pcbLoc, tables.tables
      ensures tables.Sound() && Image() && ok == (|File(img, inode)| <= MAX_IMAGE)
      ensures ok ==> Abs() == P.Launch(old(Abs()), Arguments(cmd), esp, ebp)
      ensures mem[..] == Splice(old(mem[..]), LoadAddress(P.NextPid(old(Abs()))), Fitting(File(img, inode)))
    {
      LaunchStages(Abs(), Arguments(cmd), esp, ebp);
      hide Abs, Image, tables.Ready, tables.Sound, WellFormed, P.Shape, P.NextPid, P.Launch, Arguments, File, Splice;
      hide Spawned, Mapped, Finished, LinkedTo;
      var pid := Spawn(cmd, esp, ebp);
      MapProcess(pid);
      ok := LoadProgram(inode, pid);
      if ok {
        FinishPcb(pid);
      }
    }

    /** close, on the running process's descriptor table. */
    method Close(fd: int) returns (r: int)
      requires tables.Valid() && Arrays() && P.TopReadable(Abs())
      modifies this`pcbs
      ensures var c := P.CloseFd(TopFds(old(Abs())), fd); r == c.1 && Abs() == SetFds(old(Abs()), c.0)
    {
      hide tables.Loaded, Dirs;
      var here := pcbLoc[current];
      var fds := pcbs[here].fds;
      assert pcbs == pcbs[here := pcbs[here].(fds := fds)];
      if fd < 2 || fd > 7 {
        return -1;
      }
      if fds[fd].flags == 0 {
        return -1;
      }
      pcbs := pcbs[here := pcbs[here].(fds := fds[fd := P.Unused()])];
      r := 0;
    }

    /** halt's first loop. */
    method CloseAll()
      requires tables.Valid() && Arrays() && P.TopReadable(Abs())
      modifies this`pcbs
      ensures Abs() == SetFds(old(Abs()), P.CloseAll(TopFds(old(Abs()))))
    {
      ghost var s := Abs();
      SetFdsLaws(s, TopFds(s), TopFds(s));
      hide Abs, P.TopReadable, P.CloseFd, SetFds, TopFds;
      var i := 2;
      while i < P.FOPS_NUM
        invariant 2 <= i <= P.FOPS_NUM && P.TopReadable(s) && P.TopReadable(Abs()) && |TopFds(Abs())| == P.FOPS_NUM
        invariant Abs() == SetFds(s, TopFds(Abs())) && P.CloseAll(TopFds(Abs()), i) == P.CloseAll(TopFds(s))
      {
        ghost var fds := TopFds(Abs());
        var _ := Close(i);
        SetFdsLaws(s, fds, P.CloseFd(fds, i).0);
        i := i + 1;
      }
    }

    /** halt, and the end of the parent's execute that it jumps to. */
    method Halt(status: byte) returns (ret: int)
      requires Valid() && P.Running(Abs())
      modifies this`pcbs, this`esp0, this`cr3, this`esp, this`ebp, memoryspace, progCount, pcbLoc
      ensures Valid() && ret == P.ReturnValue(status)
      ensures P.Enabled(old(Abs()), P.Halt(status)) && Abs() == P.Step(old(Abs()), P.Halt(status))
    {
      ghost var s := Abs();
      Pieces();
      HaltInvariant(img, s, status);
      CloseAll();
      HaltStages(s, status);
      hide Valid, Arrays, AllHealthy, P.Invariant, tables.Sound, Image, P.CloseAll, tables.Loaded, P.Terminate, Closed;
      ret := Leave(status);
      Pieces();
    }

    /** halt after its loop. */
    method Leave(status: byte) returns (ret: int)
      requires tables.Valid() && Arrays() && P.TopReadable(Abs())
      modifies this`pcbs, this`esp0, this`cr3, this`esp, this`ebp, memoryspace, progCount, pcbLoc
      ensures Abs() == Closed(old(Abs()), status) && ret == P.ReturnValue(status)
      ensures (Image() <==> old(Image())) && (tables.Sound() <==> old(tables.Sound()))
    {
      hide tables.Loaded, tables.Sound, Dirs, Image;
      progCount[current] := progCount[current] - 1;
      memoryspace[pcbs[pcbLoc[current]].pid] := 0;
      var here := pcbLoc[current];
      pcbs := pcbs[here := pcbs[here].(status := Signed(status))];
      esp0 := P.KERNEL_TOP - (pcbs[pcbs[here].last].pid + 1) * P.MAX_STACK;
      ebp := pcbs[here].ebp;
      esp := pcbs[here].esp;
      cr3 := pcbs[here].pagedir;
      ret := pcbs[here].status;
      if ret > 0 {
        ret := 0;
      }
      if progCount[current] != 0 {
        pcbLoc[current] := pcbs[here].last;
      }
    }

    /** The kernel window through the running process's directory: text memory and the terminal
        buffers are where terminal_switch's constant addresses say. */
    lemma SwitchAddresses(t: int, k: nat)
      requires Valid() && P.Running(Abs()) && 0 <= t < 3 && k < Screens.VID_MEM_SIZE
      ensures Walk(tables.Memory(), cr3, Screens.BufferVa(t) + k, Access.Kernel) == Some(Screens.BufferAt(t) + k)
      ensures Walk(tables.Memory(), cr3, VIDMEM + k, Access.Kernel) == Some(VIDMEM + k)
    {
      var p := RunningSpace();
      hide Valid, Abs, Walk, tables.Ready, tables.Sound, tables.Memory, SpaceReady;
      tables.ReadyIsSpaceReady(p);
      Screens.BufferWalk(tables.Memory(), tables.addr, p, t, k);
    }

    /** While user code runs, cr3 is the built directory of the running process. */
    lemma RunningSpace() returns (p: nat)
      requires Valid() && P.Running(Abs())
      ensures p < MAX_PROCESSES && tables.Valid() && tables.Ready(p) && cr3 == tables.addr[Pd(p)]
      ensures P.TopReadable(Abs()) && pcbLoc[current] == P.PcbAddr(p)
    {
      Pieces();
      var s := Abs();
      hide Abs, Valid, P.Rep, AllHealthy, Image, tables.Sound, tables.Ready;
      p := RunningPid(s);
      assert p in tables.Loaded();
    }

    /** Between calls cr3 always holds the boot directory or a built process directory, so the kernel
        window of Paging.KernelWindowStable is there whatever cr3 was last set to. */
    lemma CurrentDirectoryGood()
      requires Valid()
      ensures tables.Valid() && GoodDirectory(tables.Memory(), tables.addr, cr3)
    {
      ghost var s := Abs();
      Pieces();
      CurrentKnown(s);
      if s.cr3 == s.boot {
        tables.BootBuiltIsReady();
      } else {
        var p :| 0 <= p < MAX_PROCESSES && p in s.loaded && s.cr3 == s.dirs[p];
        tables.ReadyIsSpaceReady(p);
      }
    }

    /** terminal_switch, up to where it starts a shell on an empty terminal (`launch`). */
    method TerminalSwitch(to: int, esp: int, ebp: int) returns (launch: bool)
      requires Valid() && P.Running(Abs()) && 0 <= to < 3
      requires progCount[to] == 0 ==> P.Total(Abs()) < MAX_PROCESSES
      modifies this`pcbs, this`esp0, this`cr3, this`esp, this`ebp, this`current, mem
      ensures Valid() && P.Enabled(old(Abs()), P.Switch(to, esp, ebp))
      ensures Abs() == P.Step(old(Abs()), P.Switch(to, esp, ebp))
      ensures mem[..] == if to == old(current) then old(mem[..]) else Screens.Switched(old(mem[..]), old(current), to)
      ensures launch <==> to != old(current) && progCount[to] == 0
      ensures current == to
    {
      ghost var s := Abs();
      Pieces();
      SwitchInvariant(img, s, to, esp, ebp);
      if to == current {
        return false;
      }
      hide Valid, AllHealthy, P.Invariant, tables.Sound, tables.Loaded, P.Shape;
      ShowTerminal(to);
      launch := SwitchProcess(to, esp, ebp);
      Pieces();
    }

    /** The video part of terminal_switch. */
    method ShowTerminal(to: int)
      requires Image() && 0 <= current < 3 && 0 <= to < 3 && tables.Valid()
      modifies mem
      ensures Image() && mem[..] == Screens.Switched(old(mem[..]), current, to)
      ensures Abs() == old(Abs()) && (tables.Sound() <==> old(tables.Sound()))
    {
      hide tables.Sound, tables.Loaded, Dirs, WellFormed;
      Screens.SwitchVideo(mem, current, to, Screens.BufferAt(current), VIDMEM, Screens.BufferAt(to));
      ghost var was, now := old(mem[..]), mem[..];
      forall k | 0xC_0000 <= k < EIGHT_MB ensures now[k] == was[k] {
        Screens.SwitchFrame(was, current, to, k);
      }
      hide Screens.Switched;
      assert now[boot..boot + |img|] == was[boot..boot + |img|];
    }

    /** The process part of terminal_switch. */
    method SwitchProcess(to: int, esp: int, ebp: int) returns (launch: bool)
      requires tables.Valid() && Arrays() && P.Enabled(Abs(), P.Switch(to, esp, ebp)) && to != current
      modifies this`pcbs, this`esp0, this`cr3, this`esp, this`ebp, this`current
      ensures Abs() == P.Step(old(Abs()), P.Switch(to, esp, ebp)) && launch == (progCount[to] == 0)
      ensures (Image() <==> old(Image())) && (tables.Sound() <==> old(tables.Sound()))
    {
      hide tables.Loaded, tables.Sound, Dirs, Image;
      var here := pcbLoc[current];
      pcbs := pcbs[here := pcbs[here].(currEsp := esp, currEbp := ebp)];
      current := to;
      if progCount[current] == 0 {
        return true;
      }
      esp0 := P.KERNEL_TOP - (pcbs[pcbLoc[current]].pid + 1) * P.MAX_STACK;
      this.ebp := pcbs[pcbLoc[current]].currEbp;
      this.esp := pcbs[pcbLoc[current]].currEsp;
      cr3 := pcbs[pcbLoc[current]].currPd;
      return false;
    }

    /** open. `junk` is the value the uninitialised variable `empty` has when the search fails. */
    method Open(fname: seq<byte>, junk: int) returns (r: int)
      requires Valid() && P.Running(Abs()) && fname != [] && Readable(fname, NAME_SIZE - 1) && junk != P.FOPS_NUM
      modifies this`pcbs
      ensures Valid() && P.TopReadable(old(Abs())) && Healthy(img, TopFds(old(Abs())))
      ensures var o := OpenFd(img, TopFds(old(Abs())), fname);
              r == o.1 && |o.0| == P.FOPS_NUM && Abs() == P.Step(old(Abs()), P.Files(o.0))
    {
      ghost var s := Abs();
      Pieces();
      RunningHealthy(img, s);
      ghost var fds := TopFds(s);
      SetFdsLaws(s, fds, fds);
      OpenLowestFree(img, fds, fname);
      ghost var o := OpenFd(img, fds, fname);
      FilesInvariant(img, s, o.0);
      hide Valid, AllHealthy, P.Invariant, tables.Sound, tables.Loaded, Healthy;
      r := OpenTop(fname, junk);
      Pieces();
    }

    /** The body of open. */
    method OpenTop(fname: seq<byte>, junk: int) returns (r: int)
      requires tables.Valid() && Arrays() && Image() && P.TopReadable(Abs()) && Healthy(img, TopFds(Abs()))
      requires fname != [] && Readable(fname, NAME_SIZE - 1) && junk != P.FOPS_NUM
      modifies this`pcbs
      ensures var o := OpenFd(img, TopFds(old(Abs())), fname); r == o.1 && Abs() == SetFds(old(Abs()), o.0)
      ensures Image() && (tables.Sound() <==> old(tables.Sound()))
    {
      hide tables.Sound, tables.Loaded, Dirs, WellFormed, Lookup, Healthy, Word;
      var here := pcbLoc[current];
      var fds := pcbs[here].fds;
      assert pcbs == pcbs[here := pcbs[here].(fds := fds)];
      if fname[0] == 0 {
        return -1;
      }
      var i := FindFree(fds);
      var empty := if i < P.FOPS_NUM then i else junk;
      if empty != i {
        return -1;
      }
      var c, d := ReadDentryByName(mem, boot, fname, img);
      if c == -1 {
        return -1;
      }
      ImageEntry(img, 0);
      ImageEntry(img, Lookup(img, fname).value);
      assert |d| == ENTRY_SIZE;
      var fd := FdFor(d);
      if fd.None? {
        return -1;
      }
      pcbs := pcbs[here := pcbs[here].(fds := fds[empty := fd.value])];
      return empty;
    }

    /** open's search for a free descriptor. */
    method FindFree(fds: seq<P.Fd>) returns (i: nat)
      requires |fds| == P.FOPS_NUM
      ensures i == FirstFree(fds)
    {
      i := 2;
      while i < P.FOPS_NUM && fds[i].flags != 0
        invariant 2 <= i <= P.FOPS_NUM && FirstFree(fds) == FirstFree(fds, i)
      {
        i := i + 1;
      }
    }

    /** read on any descriptor but 0. The bytes are stored from the caller's address `va` on, through
        the directory in cr3, as the kernel may. That the running process has a healthy descriptor table
        follows from Valid(), by RunningHealthy. */
    method Read(fd: int, va: word, nbytes: int32) returns (r: int)
      requires Valid() && P.Running(Abs()) && fd != 0
      requires P.TopReadable(Abs()) && Healthy(img, TopFds(Abs()))
      requires Writable(va, |ReadBuf(img, TopFds(Abs()), fd, va == 0, nbytes).1|)
      modifies this`pcbs, mem
      ensures Valid()
      ensures var o := ReadBuf(img, TopFds(old(Abs())), fd, va == 0, nbytes);
              r == o.2 && |o.0| == P.FOPS_NUM && Abs() == P.Step(old(Abs()), P.Files(o.0)) &&
              Stores.Delivers(tables.Memory(), cr3, va, o.1, old(mem[..]), mem[..])
    {
      ReadFacts(fd, va, nbytes);
      Pieces();
      hide Valid, AllHealthy, P.Invariant, tables.Sound, tables.Loaded, Healthy, ReadBuf, Writable, Stores.Delivers;
      hide WellFormed, OffImage, Abs, P.TopReadable, Splice, SetFds, Image, Arrays, PlaceOf, Dirs;
      r := ReadMem(fd, va == 0, PlaceOf(pcbs[pcbLoc[current]].pid, va), nbytes);
      Pieces();
    }

    /** read into physical memory at `at`, or with a null buffer. */
    method ReadMem(fd: int, isNull: bool, at: nat, nbytes: int32) returns (r: int)
      requires tables.Valid() && Arrays() && Image() && P.TopReadable(Abs()) && Healthy(img, TopFds(Abs())) && fd != 0
      requires var n := |ReadBuf(img, TopFds(Abs()), fd, isNull, nbytes).1|;
               OffImage(mem, at, n) && at + n <= mem.Length
      modifies this`pcbs, mem
      ensures var o := ReadBuf(img, TopFds(old(Abs())), fd, isNull, nbytes);
              r == o.2 && Abs() == SetFds(old(Abs()), o.0) && mem[..] == Splice(old(mem[..]), at, o.1)
      ensures Image() && (tables.Sound() <==> old(tables.Sound())) && tables.Memory() == old(tables.Memory())
    {
      SpliceNothing(mem[..], at);
      hide Splice, WellFormed, tables.Sound, tables.Loaded, tables.Memory, Dirs, Mounted, Placed, Abs, P.TopReadable;
      hide Healthy, ReadBuf, SetFds, Image;
      if isNull {
        r := ReadTop(fd, null, at, nbytes);
      } else {
        r := ReadTop(fd, mem, at, nbytes);
      }
    }

    /** What read's contract needs of the state it starts in. */
    lemma ReadFacts(fd: int, va: word, nbytes: int32)
      requires Valid() && P.Running(Abs()) && fd != 0 && P.TopReadable(Abs()) && Healthy(img, TopFds(Abs()))
      requires Writable(va, |ReadBuf(img, TopFds(Abs()), fd, va == 0, nbytes).1|)
      ensures var s := Abs();
              var o, at := ReadBuf(img, TopFds(s), fd, va == 0, nbytes), PlaceOf(pcbs[pcbLoc[current]].pid, va);
              |o.0| == P.FOPS_NUM && P.Enabled(s, P.Files(o.0)) && P.Step(s, P.Files(o.0)) == SetFds(s, o.0) &&
              P.Invariant(SetFds(s, o.0)) && AllHealthy(img, SetFds(s, o.0)) &&
              at + |o.1| <= mem.Length && OffImage(mem, at, |o.1|) && Splice(mem[..], at, []) == mem[..] &&
              Stores.Delivers(tables.Memory(), cr3, va, o.1, mem[..], Splice(mem[..], at, o.1))
    {
      Pieces();
      var s := Abs();
      var fds := TopFds(s);
      var o := ReadBuf(img, fds, fd, va == 0, nbytes);
      SetFdsLaws(s, fds, fds);
      ReadFdHealthy(img, fds, fd, nbytes);
      FilesInvariant(img, s, o.0);
      BufferStored(va, o.1);
      SpliceNothing(mem[..], PlaceOf(pcbs[pcbLoc[current]].pid, va));
      hide Valid, AllHealthy, P.Invariant, tables.Sound, tables.Loaded, Healthy, Writable, Stores.Delivers, WellFormed;
      hide OffImage;
    }

    /** The `n` bytes from the caller's address `va` on are mapped, and are not the kernel's own. */
    ghost predicate Writable(va: word, n: nat)
      requires tables.Valid() && P.TopReadable(Abs())
      reads this, tables.tables, memoryspace, progCount, pcbLoc
    {
      Stores.Mapped(pcbs[pcbLoc[current]].pid, Access.Kernel, va, n) && Stores.ClearOfKernel(va, n)
    }

    /** A buffer the caller may pass lies in one piece, away from the file system image, and what is
        copied there is what the processor delivers through cr3. */
    lemma BufferStored(va: word, bs: seq<byte>)
      requires Valid() && P.Running(Abs()) && P.TopReadable(Abs()) && Writable(va, |bs|)
      ensures var at := PlaceOf(pcbs[pcbLoc[current]].pid, va);
              at + |bs| <= mem.Length && OffImage(mem, at, |bs|) &&
              Stores.Delivers(tables.Memory(), cr3, va, bs, mem[..], Splice(mem[..], at, bs))
    {
      hide Valid, Abs, P.TopReadable, P.Running, KernelMap, Splice, tables.Memory, SpaceReady, Placed;
      hide Stores.Delivers, Stores.Mapped, Stores.ClearOfKernel;
      var p := CallerSpace();
      PlaceInMemory(p, va);
      if bs == [] {
        SpliceNothing(mem[..], PlaceOf(p, va));
        Stores.NothingDelivered(tables.Memory(), cr3, va, mem[..]);
      } else {
        Stores.BufferPlace(p, va, |bs|);
        Stores.SpliceDelivers(tables.Memory(), tables.addr, p, va, bs, mem[..]);
      }
    }

    /** The running process's tables, and where the image lies. */
    lemma CallerSpace() returns (p: nat)
      requires Valid() && P.Running(Abs()) && P.TopReadable(Abs())
      ensures p < MAX_PROCESSES && p == pcbs[pcbLoc[current]].pid && tables.Valid() && Placed(tables.addr)
      ensures SpaceReady(tables.Memory(), tables.addr, p) && cr3 == tables.addr[Pd(p)]
      ensures mem.Length >= MEMORY_TOP && TEXT_TOP <= boot && boot + |img| <= STACKS
    {
      Pieces();
      p := RunningSpace();
      hide OffTables, Mounted, WellFormed, tables.Memory;
      RunningIsTop(Abs(), p);
      tables.ReadyIsSpaceReady(p);
      hide Valid, Abs, P.Invariant, AllHealthy, tables.Sound, tables.Loaded, tables.Ready, SpaceReady, WellFormed;
      hide Mounted;
    }

    /** `n` bytes from `at` on are not the image's. */
    predicate OffImage(buf: array?<byte>, at: nat, n: nat) {
      buf != mem || n == 0 || at + n <= boot || EIGHT_MB <= at
    }

    /** The body of read: the checks, then the call through the descriptor's jump table. */
    method ReadTop(fd: int, buf: array?<byte>, at: nat, nbytes: int32) returns (r: int)
      requires tables.Valid() && Arrays() && Image() && P.TopReadable(Abs()) && Healthy(img, TopFds(Abs())) && fd != 0
      requires var n := |ReadBuf(img, TopFds(Abs()), fd, buf == null, nbytes).1|;
               OffImage(buf, at, n) && (buf != null ==> at + n <= buf.Length)
      modifies this`pcbs, if buf == null then {} else {buf}
      ensures var o := ReadBuf(img, TopFds(old(Abs())), fd, buf == null, nbytes);
              r == o.2 && Abs() == SetFds(old(Abs()), o.0) &&
              if buf == null then o.1 == [] else buf[..] == Splice(old(buf[..]), at, o.1)
      ensures Image() && (tables.Sound() <==> old(tables.Sound())) && tables.Memory() == old(tables.Memory())
    {
      hide tables.Sound, tables.Loaded, tables.Memory, Dirs, WellFormed, Splice, ReadFile, ReadDir, Contents, Image;
      hide OffImage, HealthyFd;
      var here := pcbLoc[current];
      var fds := pcbs[here].fds;
      assert pcbs == pcbs[here := pcbs[here].(fds := fds)];
      if buf != null {
        SpliceNothing(buf[..], at);
      }
      if fd < 0 || fd > 7 || fds[fd].flags == 0 || fd == 1 {
        return -1;
      }
      var pos;
      hide ReadBuf;
      r, pos := CallRead(fds, fd, buf, at, nbytes);
      pcbs := pcbs[here := pcbs[here].(fds := fds[fd := fds[fd].(pos := pos)])];
    }

    /** The call through the jump table of an open descriptor. */
    method CallRead(fds: seq<P.Fd>, fd: int, buf: array?<byte>, at: nat, nbytes: int32) returns (r: int, pos: nat)
      requires Image() && Healthy(img, fds) && 2 <= fd <= 7 && fds[fd].flags != 0
      requires var n := |ReadBuf(img, fds, fd, buf == null, nbytes).1|;
               OffImage(buf, at, n) && (buf != null ==> at + n <= buf.Length)
      modifies if buf == null then {} else {buf}
      ensures var o := ReadBuf(img, fds, fd, buf == null, nbytes);
              r == o.2 && fds[fd := fds[fd].(pos := pos)] == o.0 &&
              if buf == null then o.1 == [] else buf[..] == Splice(old(buf[..]), at, o.1)
      ensures Image()
    {
      assert HealthyFd(img, fds[fd]);
      hide WellFormed, Splice, ReadFile, ReadDir, Contents, Image, OffImage, Healthy;
      if buf != null {
        SpliceNothing(buf[..], at);
      }
      pos := fds[fd].pos;
      match fds[fd].ops {
        case FileOps => r, pos := FsRead(fds[fd], buf, at, nbytes);
        case DirOps => r, pos := DirRead(fds[fd], buf, at, nbytes);
        case _ => r := 0;
      }
      assert pos == fds[fd].pos ==> fds[fd := fds[fd].(pos := pos)] == fds;
    }

    /** fs_read: the result and the new file position. */
    method FsRead(fd: P.Fd, buf: array?<byte>, at: nat, nbytes: int32) returns (r: int, pos: nat)
      requires Image() && HealthyFd(img, fd) && fd.flags == 1 && fd.ops == P.FileOps
      requires buf != null ==>
                 OffImage(buf, at, |ReadFile(img, fd, nbytes).1|) && at + |ReadFile(img, fd, nbytes).1| <= buf.Length
      modifies if buf == null then {} else {buf}
      ensures Image()
      ensures buf == null ==> r == -1 && pos == fd.pos
      ensures var o := ReadFile(img, fd, nbytes);
              buf != null ==> r == o.2 && fd.(pos := pos) == o.0 && buf[..] == Splice(old(buf[..]), at, o.1)
    {
      if buf == null {
        r, pos := -1, fd.pos;
      } else {
        r, pos := FsReadInto(fd, buf, at, nbytes);
      }
    }

    /** fs_read with a buffer. */
    method FsReadInto(fd: P.Fd, buf: array<byte>, at: nat, nbytes: int32) returns (r: int, pos: nat)
      requires Image() && HealthyFd(img, fd) && fd.flags == 1 && fd.ops == P.FileOps
      requires OffImage(buf, at, |ReadFile(img, fd, nbytes).1|) && at + |ReadFile(img, fd, nbytes).1| <= buf.Length
      modifies buf
      ensures Image()
      ensures var o := ReadFile(img, fd, nbytes);
              r == o.2 && fd.(pos := pos) == o.0 && buf[..] == Splice(old(buf[..]), at, o.1)
    {
      SpliceNothing(buf[..], at);
      hide WellFormed, Splice, Contents, ReadCount, Delivered;
      var inum: word := fd.inode;
      var check, _ := ReadDentryByIndex(mem, boot, inum, img);
      if check == -1 {
        return -1, fd.pos;
      }
      check := ReadData(mem, boot, inum, fd.pos, buf, at, nbytes % 0x1_0000_0000, img);
      if check == -1 {
        return -1, fd.pos;
      }
      StillMounted(old(mem[..]), mem[..], boot, img);
      return check, fd.pos + check;
    }

    /** dir_read: the result and the new position. */
    method DirRead(fd: P.Fd, buf: array?<byte>, at: nat, nbytes: int32) returns (r: int, pos: nat)
      requires Image() && HealthyFd(img, fd) && fd.flags == 1 && fd.ops == P.DirOps
      requires buf != null ==>
                 OffImage(buf, at, |ReadDir(img, fd, nbytes).1|) && at + |ReadDir(img, fd, nbytes).1| <= buf.Length
      modifies if buf == null then {} else {buf}
      ensures Image()
      ensures buf == null ==> r == -1 && pos == fd.pos
      ensures var o := ReadDir(img, fd, nbytes);
              buf != null ==> r == o.2 && fd.(pos := pos) == o.0 && buf[..] == Splice(old(buf[..]), at, o.1)
    {
      if buf == null {
        return -1, fd.pos;
      }
      SpliceNothing(buf[..], at);
      hide WellFormed, Splice, CStr;
      var check, d := ReadDentryByIndex(mem, boot, fd.pos, img);
      if check == -1 {
        return 0, fd.pos;
      }
      if d[0] == 0 {
        return 0, fd.pos;
      }
      var n := DirCount(d, nbytes);
      StoreBytes(buf, at, d[..n]);
      StillMounted(old(mem[..]), mem[..], boot, img);
      return n, fd.pos + 1;
    }

    method StoreBytes(buf: array<byte>, at: nat, bs: seq<byte>)
      requires at + |bs| <= buf.Length
      modifies buf
      ensures buf[..] == Splice(old(buf[..]), at, bs)
    {
      var i := 0;
      while i < |bs|
        invariant 0 <= i <= |bs| && buf[..] == Splice(old(buf[..]), at, bs[..i])
      {
        buf[at + i] := bs[i];
        i := i + 1;
      }
      assert bs[..i] == bs;
    }

    /** getargs for a request of up to 128 bytes, into the caller's buffer at `va`. That the running
        process has 128 bytes of arguments follows from Valid(), by RunningHealthy. */
    method GetArgs(va: word, nbytes: nat) returns (r: int)
      requires Valid() && P.Running(Abs()) && P.TopReadable(Abs()) && |TopArgs(Abs())| == P.ARG_SIZE
      requires nbytes <= P.ARG_SIZE
      requires Commands.GetArgs(TopArgs(Abs()), nbytes).Some? ==> Writable(va, nbytes)
      modifies mem
      ensures Valid() && Abs() == old(Abs())
      ensures match Commands.GetArgs(TopArgs(Abs()), nbytes)
              case None => r == -1 && mem[..] == old(mem[..])
              case Some(bs) => r == 0 && Stores.Delivers(tables.Memory(), cr3, va, bs, old(mem[..]), mem[..])
    {
      hide Valid, Writable;
      var args := pcbs[pcbLoc[current]].args;
      if nbytes == 0 {
        r := -1;
      } else if args[0] == 0 || args[0] == PERCENT {
        r := -1;
      } else {
        StoreForCaller(va, args[..nbytes]);
        r := 0;
      }
    }

    /** A copy into the caller's buffer. */
    method StoreForCaller(va: word, bs: seq<byte>)
      requires Valid() && P.Running(Abs()) && P.TopReadable(Abs()) && Writable(va, |bs|)
      modifies mem
      ensures Valid() && Abs() == old(Abs()) && Stores.Delivers(tables.Memory(), cr3, va, bs, old(mem[..]), mem[..])
    {
      BufferStored(va, bs);
      var at := PlaceOf(pcbs[pcbLoc[current]].pid, va);
      Pieces();
      hide Valid, Abs, AllHealthy, P.Invariant, P.TopReadable, tables.Sound, WellFormed, Splice, Stores.Delivers;
      hide Writable, PlaceOf, Image, Arrays;
      StoreAt(at, bs);
      Pieces();
    }

    method StoreAt(at: nat, bs: seq<byte>)
      requires tables.Valid() && Image() && at + |bs| <= mem.Length && OffImage(mem, at, |bs|)
      modifies mem
      ensures Image() && mem[..] == Splice(old(mem[..]), at, bs)
      ensures Abs() == old(Abs()) && (tables.Sound() <==> old(tables.Sound()))
      ensures tables.Memory() == old(tables.Memory())
    {
      hide Splice, WellFormed, tables.Sound, tables.Loaded, tables.Memory, Dirs, Mounted, Placed;
      SpliceOffImage(mem[..], at, bs);
      StoreBytes(mem, at, bs);
    }

    lemma SpliceOffImage(m: seq<byte>, at: nat, bs: seq<byte>)
      requires Mounted(m, boot, img) && boot + |img| <= EIGHT_MB && at + |bs| <= |m| && OffImage(mem, at, |bs|)
      ensures Mounted(Splice(m, at, bs), boot, img)
    {
      StillMounted(m, Splice(m, at, bs), boot, img);
    }
  }

  /** The physical address that a process's address reaches for the kernel, 0 when it is not mapped. */
  function PlaceOf(p: int, va: word): nat
    requires 0 <= p < MAX_PROCESSES
  {
    match KernelMap(p, va) case Some(pa) => pa case None => 0
  }

  lemma PlaceInMemory(p: int, va: word)
    requires 0 <= p < MAX_PROCESSES
    ensures PlaceOf(p, va) < MEMORY_TOP
  {
  }

  lemma LimitLine(s: seq<byte>)
    requires s == LIMIT_TEXT + [0]
    ensures 0 in s && CStr(s, |s|) == LIMIT_TEXT
  {
    CStrUnique(s, |s|, |LIMIT_TEXT|);
    assert s[..|LIMIT_TEXT|] == LIMIT_TEXT;
    assert s[|LIMIT_TEXT|] == 0;
  }

  function Dirs(addr: seq<word>): (d: seq<int>)
    requires |addr| == TABLES
    ensures |d| == MAX_PROCESSES && forall p :: 0 <= p < MAX_PROCESSES ==> d[p] == addr[Pd(p)]
  {
    seq(MAX_PROCESSES, p requires 0 <= p < MAX_PROCESSES => addr[Pd(p)])
  }

  /** The command names an entry of the directory. */
  predicate Named(img: seq<byte>, cmd: seq<byte>)
    requires WellFormed(img) && |cmd| == BUFFASIZE
  {
    cmd[0] != 0 && Lookup(img, ProgramName(cmd)).Some?
  }

  function ProgramInode(img: seq<byte>, cmd: seq<byte>): (inode: word)
    requires WellFormed(img) && |cmd| == BUFFASIZE && Named(img, cmd)
    ensures inode < NumInodes(img)
  {
    ImageEntry(img, Lookup(img, ProgramName(cmd)).value);
    DentryInode(Dentry(img, Lookup(img, ProgramName(cmd)).value))
  }

  predicate HasMagic(s: seq<byte>) {
    |s| >= 4 && s[..4] == [0x7F, 0x45, 0x4C, 0x46]
  }

  /** The command names a readable program of at least four bytes that starts with the ELF magic. */
  predicate Loadable(img: seq<byte>, cmd: seq<byte>)
    requires WellFormed(img) && |cmd| == BUFFASIZE
  {
    Named(img, cmd) && ProgramInode(img, cmd) <= MAX_DATA_NUM && |File(img, ProgramInode(img, cmd))| >= 4 &&
    HasMagic(File(img, ProgramInode(img, cmd)))
  }

  lemma MagicRead(img: seq<byte>, inode: nat, buf: seq<byte>)
    requires WellFormed(img) && inode < NumInodes(img) && |buf| == 4
    requires exists was: seq<byte> :: |was| == 4 && buf == Splice(was, 0, Delivered(img, inode, 0, 4))
    ensures InodeLength(img, inode) >= 4 ==> (HasMagic(File(img, inode)) <==> buf == [0x7F, 0x45, 0x4C, 0x46])
  {
    if InodeLength(img, inode) >= 4 {
      ReadInside(img, inode, 0, 4);
    }
  }

  lemma EntryRead(img: seq<byte>, inode: nat, buf: seq<byte>)
    requires WellFormed(img) && inode < NumInodes(img) && |buf| == BUFFASIZE
    requires exists was: seq<byte> :: |was| == BUFFASIZE && buf == Splice(was, 0, Delivered(img, inode, 0, BUFFASIZE))
    ensures InodeLength(img, inode) >= 28 ==> Word(buf, 24) == Word(File(img, inode), 24)
  {
    if InodeLength(img, inode) >= BUFFASIZE {
      ReadInside(img, inode, 0, BUFFASIZE);
    } else {
      ReadWhole(img, inode, BUFFASIZE);
    }
  }

  /** Physical address of PROGADDR in the page of process `pid`. */
  function LoadAddress(pid: nat): nat
    requires pid < MAX_PROCESSES
  {
    UserPage(pid) + LOAD_OFFSET
  }

  /** The image survives every change above it. */
  lemma StillMounted(was: seq<byte>, now: seq<byte>, boot: nat, img: seq<byte>)
    requires |was| == |now| && Mounted(was, boot, img)
    requires forall k :: boot <= k < boot + |img| ==> now[k] == was[k]
    ensures Mounted(now, boot, img)
  {
    assert now[boot..boot + |img|] == was[boot..boot + |img|];
  }

  /** What a call of execute did, from process table `s` and memory `m` to `s'` and `m'`. */
  ghost predicate Executed(img: seq<byte>, s: P.State, m: seq<byte>, cmd: seq<byte>, esp: int, ebp: int, o: Outcome,
                           s': P.State, m': seq<byte>)
    requires WellFormed(img) && |cmd| == BUFFASIZE && P.Shape(s)
  {
    match o
    case Rejected(ret) =>
      !Accepts(s, img, cmd, false) && s' == s &&
      if P.Total(s) >= MAX_PROCESSES then ret == 0 && Console.SameElsewhere(m, m') else ret == -1 && m' == m
    case Started(entry) =>
      Accepts(s, img, cmd, true) && s' == P.Launch(s, Arguments(cmd), esp, ebp) &&
      var f := File(img, ProgramInode(img, cmd));
      |f| <= MAX_IMAGE && |m| >= MEMORY_TOP && m' == Splice(m, LoadAddress(P.NextPid(s)), f) &&
      (|f| >= 28 ==> entry == Word(f, 24))
    case Faulted =>
      Accepts(s, img, cmd, true) && |File(img, ProgramInode(img, cmd))| > MAX_IMAGE && |m| >= MEMORY_TOP &&
      m' == Splice(m, LoadAddress(P.NextPid(s)), Fitting(File(img, ProgramInode(img, cmd))))
  }

  /** As much of a file as fits between PROGADDR and the end of the page. */
  function Fitting(f: seq<byte>): (r: seq<byte>)
    ensures |r| == Min(|f|, MAX_IMAGE) && (|f| <= MAX_IMAGE ==> r == f)
  {
    f[..Min(|f|, MAX_IMAGE)]
  }

  lemma ExecutedRejected(img: seq<byte>, s: P.State, m: seq<byte>, cmd: seq<byte>, esp: int, ebp: int)
    requires WellFormed(img) && |cmd| == BUFFASIZE && P.Shape(s)
    requires P.Total(s) < MAX_PROCESSES && !Loadable(img, cmd)
    ensures Executed(img, s, m, cmd, esp, ebp, Rejected(-1), s, m)
  {
  }

  lemma ExecutedEntered(img: seq<byte>, s: P.State, m: seq<byte>, cmd: seq<byte>, esp: int, ebp: int, entry: word,
                        ok: bool,
                        s': P.State, m': seq<byte>)
    requires WellFormed(img) && |cmd| == BUFFASIZE && P.Shape(s) && |m| >= MEMORY_TOP
    requires P.Total(s) < MAX_PROCESSES && Named(img, cmd)
    requires var f := File(img, ProgramInode(img, cmd));
             (|f| >= 4 ==> Loadable(img, cmd)) && (|f| >= 28 ==> entry == Word(f, 24)) && ok == (|f| <= MAX_IMAGE) &&
             (ok ==> s' == P.Launch(s, Arguments(cmd), esp, ebp)) &&
             m' == Splice(m, LoadAddress(P.NextPid(s)), Fitting(f))
    ensures Executed(img, s, m, cmd, esp, ebp, if ok then Started(entry) else Faulted, s', m')
  {
    hide File, Loadable, P.Launch, P.NextPid, Splice, Word, Named, ProgramInode;
  }

  /** When execute goes ahead: fewer than six processes and a loadable program. For a file of fewer
      than four bytes the test of the magic number reads stack contents, and `luck` decides. */
  predicate Accepts(s: P.State, img: seq<byte>, cmd: seq<byte>, luck: bool)
    requires WellFormed(img) && |cmd| == BUFFASIZE && |s.progCount| == 3
  {
    P.Total(s) < MAX_PROCESSES &&
    (Loadable(img, cmd) || (luck && Named(img, cmd) && |File(img, ProgramInode(img, cmd))| < 4))
  }

  /** execute goes ahead exactly when fewer than six processes are alive, the command does not start with
      a NUL, one of the 63 directory entries agrees with its first word on 31 bytes, that entry's inode is
      at most 1023, and the file starts with the four bytes of the ELF magic; a file of fewer than four
      bytes may be taken for a program, too. */
  lemma AcceptsExactly(s: P.State, img: seq<byte>, cmd: seq<byte>)
    requires WellFormed(img) && |cmd| == BUFFASIZE && |s.progCount| == 3
    ensures Accepts(s, img, cmd, false) <==>
            s.progCount[0] + s.progCount[1] + s.progCount[2] < 6 && cmd[0] != 0 &&
            exists k :: EntryFor(img, cmd, k) && MagicAt(img, k)
    ensures Accepts(s, img, cmd, true) && !Accepts(s, img, cmd, false) ==>
            exists k :: EntryFor(img, cmd, k) && InodeLength(img, EntryInode(img, k)) < 4
  {
    hide Accepts, Matches, MagicAt, WellFormed, File, ProgramName, Lookup, InodeLength, EntryInode, Loadable, Named;
    NamedExactly(img, cmd);
    forall k | EntryFor(img, cmd, k) && cmd[0] != 0
      ensures Named(img, cmd) && ProgramInode(img, cmd) == EntryInode(img, k)
      ensures Loadable(img, cmd) <==> MagicAt(img, k)
    {
      LoadableExactly(img, cmd, k);
    }
    AcceptsMeans(s, img, cmd);
  }

  lemma AcceptsMeans(s: P.State, img: seq<byte>, cmd: seq<byte>)
    requires WellFormed(img) && |cmd| == BUFFASIZE && |s.progCount| == 3
    ensures Accepts(s, img, cmd, false) <==>
            s.progCount[0] + s.progCount[1] + s.progCount[2] < 6 && Loadable(img, cmd)
    ensures Loadable(img, cmd) ==> Named(img, cmd)
    ensures Accepts(s, img, cmd, true) && !Accepts(s, img, cmd, false) ==>
            Named(img, cmd) && InodeLength(img, ProgramInode(img, cmd)) < 4
  {
    hide WellFormed, File, ProgramInode, HasMagic, InodeLength;
  }

  lemma NamedExactly(img: seq<byte>, cmd: seq<byte>)
    requires WellFormed(img) && |cmd| == BUFFASIZE
    ensures Named(img, cmd) <==> cmd[0] != 0 && exists k :: EntryFor(img, cmd, k)
  {
    assert |img| >= BLOCK_SIZE;
    hide WellFormed, ProgramName, Matches;
    if Lookup(img, ProgramName(cmd)).Some? {
      assert EntryFor(img, cmd, Lookup(img, ProgramName(cmd)).value);
    }
  }

  lemma LoadableExactly(img: seq<byte>, cmd: seq<byte>, k: int)
    requires WellFormed(img) && |cmd| == BUFFASIZE && EntryFor(img, cmd, k) && cmd[0] != 0
    ensures Named(img, cmd) && ProgramInode(img, cmd) == EntryInode(img, k) && (Loadable(img, cmd) <==> MagicAt(img, k))
  {
    FoundFirst(img, cmd, k);
    hide WellFormed, ProgramName, Matches, File, HasMagic, Lookup, EntryFor;
    MagicInFile(img, EntryInode(img, k));
  }

  lemma FoundFirst(img: seq<byte>, cmd: seq<byte>, k: int)
    requires WellFormed(img) && |cmd| == BUFFASIZE && EntryFor(img, cmd, k)
    ensures |img| >= BLOCK_SIZE && Lookup(img, ProgramName(cmd)) == Some(k) && 0 <= k < MAX_FILES
  {
    KeyFound(img, ProgramName(cmd), k);
    hide WellFormed, ProgramName, Matches, Lookup;
  }

  /** Entry `k` is the first whose name agrees with the command's first word on 31 bytes. */
  ghost predicate EntryFor(img: seq<byte>, cmd: seq<byte>, k: int)
    requires WellFormed(img) && |cmd| == BUFFASIZE
  {
    0 <= k < MAX_FILES && Matches(img, k, ProgramName(cmd)) &&
    forall j :: 0 <= j < k ==> !Matches(img, j, ProgramName(cmd))
  }

  function EntryInode(img: seq<byte>, k: nat): (i: word)
    requires WellFormed(img) && k < MAX_FILES
    ensures i < NumInodes(img)
  {
    ImageEntry(img, k);
    DentryInode(Dentry(img, k))
  }

  ghost predicate MagicAt(img: seq<byte>, k: int)
    requires WellFormed(img) && 0 <= k < MAX_FILES
  {
    var i := EntryInode(img, k);
    i <= 1023 && |File(img, i)| >= 4 &&
    File(img, i)[0] == 0x7F && File(img, i)[1] == 0x45 && File(img, i)[2] == 0x4C && File(img, i)[3] == 0x46
  }

  lemma MagicInFile(img: seq<byte>, i: nat)
    requires WellFormed(img) && i < NumInodes(img)
    ensures var f := File(img, i);
            HasMagic(f) <==> |f| >= 4 && f[0] == 0x7F && f[1] == 0x45 && f[2] == 0x4C && f[3] == 0x46
  {
  }

  // execute's stores in three stages: the PCB and counters, the page directory, the rest of the PCB.

  function Spawned(s: P.State, args: seq<byte>, esp: int, ebp: int): P.State
    requires P.Shape(s)
  {
    var r, p := P.Launch(s, args, esp, ebp), P.NextPid(s);
    s.(memoryspace := r.memoryspace, progCount := r.progCount, pcbLoc := r.pcbLoc,
       pcbs := s.pcbs[P.PcbAddr(p) :=
                        P.NewPcb(s, args, esp, ebp).(currEsp := 0, currEbp := 0, currPd := 0, termNum := 0)])
  }

  function Mapped(s: P.State, p: nat): P.State
    requires |s.dirs| == MAX_PROCESSES && p < MAX_PROCESSES
  {
    s.(cr3 := s.dirs[p], loaded := s.loaded + {p})
  }

  /** The current terminal's PCB is process `p`'s. */
  predicate LinkedTo(s: P.State, p: nat) {
    P.PcbAddr(p) in s.pcbs && |s.pcbLoc| == 3 && 0 <= s.current < 3 && s.pcbLoc[s.current] == P.PcbAddr(p)
  }

  function Finished(s: P.State, p: nat): P.State
    requires LinkedTo(s, p)
  {
    s.(esp0 := P.KernelStack(p),
       pcbs := s.pcbs[P.PcbAddr(p) := s.pcbs[P.PcbAddr(p)].(currPd := s.cr3, currEsp := P.KernelStack(p),
                                                          currEbp := P.KernelStack(p), termNum := s.current)])
  }

  lemma LaunchStages(s: P.State, args: seq<byte>, esp: int, ebp: int)
    requires P.Shape(s)
    ensures var s1, p := Spawned(s, args, esp, ebp), P.NextPid(s);
            |s1.dirs| == MAX_PROCESSES && LinkedTo(Mapped(s1, p), p) &&
            Finished(Mapped(s1, p), p) == P.Launch(s, args, esp, ebp)
  {
    hide P.NextPid, P.LowestFree, P.FreshFds;
    var r, p := P.Launch(s, args, esp, ebp), P.NextPid(s);
    assert Finished(Mapped(Spawned(s, args, esp, ebp), p), p).pcbs == r.pcbs;
  }

  lemma ShapeFromInvariant(s: P.State)
    requires P.Invariant(s)
    ensures P.Shape(s)
  {
    var st: P.Stacks :| P.Rep(s, st);
  }

  lemma LaunchInvariant(s: P.State, cmd: seq<byte>, esp: int, ebp: int)
    requires P.Invariant(s) && |cmd| == BUFFASIZE && P.Total(s) < MAX_PROCESSES
    ensures P.Shape(s) && P.Invariant(P.Launch(s, Arguments(cmd), esp, ebp))
  {
    var st: P.Stacks :| P.Rep(s, st);
    Theory.LaunchKeeps(s, st, Arguments(cmd), esp, ebp);
  }

  // ------------------------------------------------------------ descriptor tables in the PCBs

  /** Every live process's descriptor table is healthy. */
  ghost predicate AllHealthy(img: seq<byte>, s: P.State) {
    WellFormed(img) && P.Shape(s) &&
    forall p :: 0 <= p < MAX_PROCESSES && s.memoryspace[p] != 0 ==> Healthy(img, s.pcbs[P.PcbAddr(p)].fds)
  }

  lemma LaunchHealthy(img: seq<byte>, s: P.State, args: seq<byte>, esp: int, ebp: int)
    requires AllHealthy(img, s)
    ensures AllHealthy(img, P.Launch(s, args, esp, ebp))
  {
    FreshHealthy(img);
    hide WellFormed, Healthy, P.NextPid, P.FreshFds;
  }

  function TopFds(s: P.State): seq<P.Fd>
    requires P.TopReadable(s)
  {
    s.pcbs[s.pcbLoc[s.current]].fds
  }

  function TopArgs(s: P.State): seq<byte>
    requires P.TopReadable(s)
  {
    s.pcbs[s.pcbLoc[s.current]].args
  }

  function SetFds(s: P.State, fds: seq<P.Fd>): P.State
    requires P.TopReadable(s)
  {
    s.(pcbs := s.pcbs[s.pcbLoc[s.current] := s.pcbs[s.pcbLoc[s.current]].(fds := fds)])
  }

  lemma SetFdsLaws(s: P.State, a: seq<P.Fd>, b: seq<P.Fd>)
    requires P.TopReadable(s) && |a| == |b| == P.FOPS_NUM
    ensures P.TopReadable(SetFds(s, a)) && TopFds(SetFds(s, a)) == a
    ensures P.TopReadable(SetFds(s, b)) && TopFds(SetFds(s, b)) == b
    ensures SetFds(SetFds(s, a), b) == SetFds(s, b) && SetFds(s, TopFds(s)) == s
  {
    var here := s.pcbLoc[s.current];
    assert s.pcbs[here := s.pcbs[here].(fds := a)][here := s.pcbs[here].(fds := b)] ==
           s.pcbs[here := s.pcbs[here].(fds := b)];
    assert s.pcbs[here := s.pcbs[here].(fds := TopFds(s))] == s.pcbs;
  }

  /** halt's stores after its loop has closed the descriptors. */
  function Closed(s: P.State, status: byte): P.State
    requires P.TopReadable(s)
  {
    var t := s.current;
    var here := s.pcbLoc[t];
    var top := s.pcbs[here];
    var pcbs := s.pcbs[here := top.(status := Signed(status))];
    var count := s.progCount[t] - 1;
    s.(memoryspace := s.memoryspace[top.pid := 0], progCount := s.progCount[t := count], pcbs := pcbs,
       pcbLoc := s.pcbLoc[t := if count != 0 then top.last else here],
       esp0 := P.KernelStack(pcbs[top.last].pid), cr3 := top.pagedir, esp := top.esp, ebp := top.ebp)
  }

  lemma HaltStages(s: P.State, status: byte)
    requires P.TopReadable(s)
    ensures var fds := P.CloseAll(TopFds(s));
            P.TopReadable(SetFds(s, fds)) && Closed(SetFds(s, fds), status) == P.Terminate(s, status)
  {
    var fds := P.CloseAll(TopFds(s));
    SetFdsLaws(s, fds, fds);
    hide P.CloseAll;
    var here := s.pcbLoc[s.current];
    assert Closed(SetFds(s, fds), status).pcbs == P.Terminate(s, status).pcbs;
  }

  lemma HaltInvariant(img: seq<byte>, s: P.State, status: byte)
    requires P.Invariant(s) && AllHealthy(img, s) && P.Shape(s) && P.Running(s)
    ensures P.TopReadable(s) && P.Invariant(P.Terminate(s, status)) && AllHealthy(img, P.Terminate(s, status))
  {
    var st: P.Stacks :| P.Rep(s, st);
    Theory.TopOfStack(s, st);
    Theory.TerminateKeeps(s, st, status);
    hide Healthy, WellFormed, P.CloseAll, P.Rep;
  }

  lemma SwitchInvariant(img: seq<byte>, s: P.State, to: int, esp: int, ebp: int)
    requires P.Invariant(s) && AllHealthy(img, s) && P.Shape(s) && P.Running(s) && 0 <= to < 3
    requires s.progCount[to] == 0 ==> P.Total(s) < MAX_PROCESSES
    ensures P.Enabled(s, P.Switch(to, esp, ebp))
    ensures var r := P.Step(s, P.Switch(to, esp, ebp)); P.Invariant(r) && AllHealthy(img, r)
  {
    var st: P.Stacks :| P.Rep(s, st);
    Theory.TopOfStack(s, st);
    Theory.SwitchKeeps(s, st, to, esp, ebp);
    hide Healthy, WellFormed, P.Rep;
  }

  lemma CurrentKnown(s: P.State)
    requires P.Invariant(s)
    ensures |s.dirs| == MAX_PROCESSES && P.Known(s, s.cr3)
  {
    var st: P.Stacks :| P.Rep(s, st);
  }

  lemma RunningPid(s: P.State) returns (p: nat)
    requires P.Invariant(s) && P.Shape(s) && P.Running(s)
    ensures p < MAX_PROCESSES && p in s.loaded && s.cr3 == s.dirs[p] && P.TopReadable(s)
    ensures s.pcbLoc[s.current] == P.PcbAddr(p)
  {
    var st: P.Stacks :| P.Rep(s, st);
    Theory.TopOfStack(s, st);
    p := st[s.current][0];
  }

  lemma RunningIsTop(s: P.State, p: nat)
    requires P.Invariant(s) && P.Running(s) && P.TopReadable(s) && p < MAX_PROCESSES
    requires s.pcbLoc[s.current] == P.PcbAddr(p)
    ensures s.pcbs[s.pcbLoc[s.current]].pid == p
  {
    var st: P.Stacks :| P.Rep(s, st);
    Theory.TopOfStack(s, st);
  }

  lemma RunningHealthy(img: seq<byte>, s: P.State)
    requires P.Invariant(s) && AllHealthy(img, s) && P.Shape(s) && P.Running(s)
    ensures P.TopReadable(s) && Healthy(img, TopFds(s)) && |TopArgs(s)| == P.ARG_SIZE
  {
    var st: P.Stacks :| P.Rep(s, st);
    Theory.TopOfStack(s, st);
    assert P.Marks(s, st) && st[s.current][0] in st[s.current];
    hide Healthy, WellFormed;
  }

  lemma FilesInvariant(img: seq<byte>, s: P.State, fds: seq<P.Fd>)
    requires P.Invariant(s) && AllHealthy(img, s) && P.Shape(s) && P.Running(s) && |fds| == P.FOPS_NUM
    requires Healthy(img, fds)
    ensures P.Enabled(s, P.Files(fds))
    ensures var r := P.Step(s, P.Files(fds)); r == SetFds(s, fds) && P.Invariant(r) && AllHealthy(img, r)
  {
    var st: P.Stacks :| P.Rep(s, st);
    Theory.FilesKeeps(s, st, fds);
    hide Healthy, WellFormed, P.Rep;
  }

  lemma ReadFdHealthy(img: seq<byte>, fds: seq<P.Fd>, fd: int, nbytes: int32)
    requires WellFormed(img) && Healthy(img, fds) && fd != 0
    ensures Healthy(img, ReadFd(img, fds, fd, nbytes).0)
  {
    if 2 <= fd <= 7 && fds[fd].flags == 1 && fds[fd].ops == P.FileOps {
      var n, f := nbytes % 0x1_0000_0000, fds[fd];
      if n != 0 && f.inode <= MAX_DATA_NUM {
        DeliveredExtends(img, f.inode, f.pos, n);
      }
    }
    hide WellFormed, Contents, Delivered, DirEntry;
  }

  /** Boot: zeroed tables, paging_init, setup_fs, and the kernel's initialised variables. */
  method StartUp(addr: seq<word>, mem: array<byte>, boot: nat, ghost img: seq<byte>) returns (k: Kernel)
    requires Placed(addr)
    requires mem.Length >= MEMORY_TOP && ImagePlaced(addr, boot, |img|) && Mounted(mem[..], boot, img)
    requires WellFormed(img)
    ensures fresh(k) && k.Valid() && P.Boot(k.Abs()) && k.mem == mem && k.tables.addr == addr
  {
    hide WellFormed, Mounted, Paging.Zeros;
    var tables := new Tables(addr);
    var _ := tables.PagingInit();
    forall p | 0 <= p < MAX_PROCESSES ensures tables.Blank(p) {
    }
    k := new Kernel(tables, mem, boot, img);
  }
}
