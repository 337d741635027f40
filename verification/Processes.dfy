/** The process table of syscall.c, pcb.c and keyboard.c as a state machine: what execute, halt and
    terminal_switch do to the global variables, and the invariant they keep. */
module Processes {
  import opened Bytes

  const PCB0_LOC := 0x7F_E000
  const KERNEL_TOP := 0x80_0000
  const MAX_STACK := 0x2000
  const ARG_SIZE := 128
  const FOPS_NUM := 8

  // ------------------------------------------------------------ state

  /** The jump table that a descriptor's fops_ptr points to. */
  datatype Ops = NoOps | StdinOps | StdoutOps | FileOps | DirOps | RtcOps

  datatype Fd = Fd(ops: Ops, inode: nat, pos: nat, flags: int)

  datatype Pcb = Pcb(pid: int, esp: int, ebp: int, pagedir: int, currEsp: int, currEbp: int, currPd: int,
                     termNum: int, status: int, last: int, args: seq<byte>, fds: seq<Fd>)

  /** The kernel's globals. PCBs are found by address, as the C pointers do; `esp` and `ebp` are the
      stack registers as halt or terminal_switch last loaded them, `dirs` and `boot` are where the
      seven page directories lie, and `loaded` are the process directories built so far. */
  datatype State = State(memoryspace: seq<int>, progCount: seq<int>, pcbLoc: seq<int>, pcbs: map<int, Pcb>,
                         current: int, esp0: int, cr3: int, esp: int, ebp: int,
                         dirs: seq<int>, boot: int, loaded: set<int>)

  /** Where the PCB of process `p` lies, 8 KB apart below the first. */
  function PcbAddr(p: int): int { PCB0_LOC - p * MAX_STACK }

  function KernelStack(p: int): int { KERNEL_TOP - (p + 1) * MAX_STACK }

  function Unused(): Fd { Fd(NoOps, 0, 0, 0) }

  /** The descriptor table pcb_init sets up. */
  function FreshFds(): seq<Fd> {
    [Fd(StdinOps, 0, 0, 1), Fd(StdoutOps, 0, 0, 1)] + seq(FOPS_NUM - 2, _ => Unused())
  }

  /** close: the new table and the return value. */
  function CloseFd(fds: seq<Fd>, fd: int): (r: (seq<Fd>, int))
    requires |fds| == FOPS_NUM
    ensures |r.0| == FOPS_NUM
  {
    if fd < 2 || fd > 7 then (fds, -1)
    else if fds[fd].flags == 0 then (fds, -1)
    else (fds[fd := Unused()], 0)
  }

  /** halt's loop closing descriptors `i` to 7. */
  function CloseAll(fds: seq<Fd>, i: int := 2): (r: seq<Fd>)
    requires |fds| == FOPS_NUM && 2 <= i <= FOPS_NUM
    ensures |r| == FOPS_NUM && (forall k :: 0 <= k < i ==> r[k] == fds[k])
    ensures forall k :: i <= k < FOPS_NUM ==> r[k].flags == 0
    decreases FOPS_NUM - i
  {
    if i == FOPS_NUM then fds else CloseAll(CloseFd(fds, i).0, i + 1)
  }

  /** The arrays have their declared sizes and every PCB slot is there. */
  ghost predicate Shape(s: State) {
    |s.memoryspace| == MAX_PROCESSES && |s.progCount| == NUM_TERMINALS && |s.pcbLoc| == NUM_TERMINALS &&
    0 <= s.current < NUM_TERMINALS && |s.dirs| == MAX_PROCESSES &&
    (forall p :: 0 <= p < MAX_PROCESSES ==> PcbAddr(p) in s.pcbs)
  }

  function Total(s: State): int
    requires |s.progCount| == NUM_TERMINALS
  {
    s.progCount[0] + s.progCount[1] + s.progCount[2]
  }

  /** The first free pid, or 6. */
  function LowestFree(m: seq<int>, from: nat := 0): (p: nat)
    requires |m| == MAX_PROCESSES && from <= MAX_PROCESSES
    ensures from <= p <= MAX_PROCESSES && (p < MAX_PROCESSES ==> m[p] == 0)
    ensures forall j :: from <= j < p ==> m[j] != 0
    decreases MAX_PROCESSES - from
  {
    if from == MAX_PROCESSES || m[from] == 0 then from else LowestFree(m, from + 1)
  }

  // ------------------------------------------------------------ steps

  /** The pid execute gives the new process; pcb_init's 0 remains if the search finds nothing. */
  function NextPid(s: State): (p: nat)
    requires Shape(s)
    ensures p < MAX_PROCESSES
  {
    if LowestFree(s.memoryspace) < MAX_PROCESSES then LowestFree(s.memoryspace) else 0
  }

  function NewPcb(s: State, args: seq<byte>, esp: int, ebp: int): Pcb
    requires Shape(s)
  {
    var p := NextPid(s);
    var prev := if s.progCount[s.current] + 1 == 1 then PcbAddr(p) else s.pcbLoc[s.current];
    Pcb(p, esp, ebp, s.cr3, KernelStack(p), KernelStack(p), s.dirs[p], s.current, 0, prev, args, FreshFds())
  }

  /** execute, once the program has been found. */
  function Launch(s: State, args: seq<byte>, esp: int, ebp: int): (r: State)
    requires Shape(s)
  {
    var p, t := NextPid(s), s.current;
    s.(memoryspace := if LowestFree(s.memoryspace) < MAX_PROCESSES then s.memoryspace[p := 1] else s.memoryspace,
       progCount := s.progCount[t := s.progCount[t] + 1], pcbLoc := s.pcbLoc[t := PcbAddr(p)],
       pcbs := s.pcbs[PcbAddr(p) := NewPcb(s, args, esp, ebp)],
       esp0 := KernelStack(p), cr3 := s.dirs[p], loaded := s.loaded + {p})
  }

  /** The running process's PCB and its parent link can be followed. */
  ghost predicate TopReadable(s: State) {
    Shape(s) && s.pcbLoc[s.current] in s.pcbs &&
    var top := s.pcbs[s.pcbLoc[s.current]];
    top.last in s.pcbs && 0 <= top.pid < MAX_PROCESSES && |top.fds| == FOPS_NUM
  }

  /** halt, through to the return of the parent's execute call. */
  function Terminate(s: State, status: byte): (r: State)
    requires TopReadable(s)
  {
    var t := s.current;
    var here := s.pcbLoc[t];
    var top := s.pcbs[here];
    var pcbs := s.pcbs[here := top.(fds := CloseAll(top.fds), status := Signed(status))];
    var count := s.progCount[t] - 1;
    s.(memoryspace := s.memoryspace[top.pid := 0], progCount := s.progCount[t := count], pcbs := pcbs,
       pcbLoc := s.pcbLoc[t := if count != 0 then top.last else here],
       esp0 := KernelStack(pcbs[top.last].pid), cr3 := top.pagedir, esp := top.esp, ebp := top.ebp)
  }

  /** What the parent's execute returns: the int8_t status, or 0 when that is positive. */
  function ReturnValue(status: byte): (r: int)
    ensures status < 0x80 ==> r == 0
    ensures status >= 0x80 ==> r == status - 0x100 && r < 0
  {
    if Signed(status) > 0 then 0 else Signed(status)
  }

  /** terminal_switch, up to the point where an empty terminal gets its shell. */
  function SwitchTo(s: State, to: int, esp: int, ebp: int): State
    requires TopReadable(s) && 0 <= to < NUM_TERMINALS && (s.progCount[to] != 0 ==> s.pcbLoc[to] in s.pcbs)
  {
    if to == s.current then s else
    var here := s.pcbLoc[s.current];
    var s1 := s.(pcbs := s.pcbs[here := s.pcbs[here].(currEsp := esp, currEbp := ebp)], current := to);
    if s.progCount[to] == 0 then s1 else
    var pcb := s1.pcbs[s.pcbLoc[to]];
    s1.(esp0 := KernelStack(pcb.pid), cr3 := pcb.currPd, esp := pcb.currEsp, ebp := pcb.currEbp)
  }

  /** One kernel entry. `Exec` says whether the command named a loadable program; `Files` is any
      open, close or read by the running process, as a change of its descriptor table. */
  datatype Op =
    | Exec(ok: bool, args: seq<byte>, esp: int, ebp: int)
    | Halt(status: byte)
    | Switch(to: int, esp: int, ebp: int)
    | Files(fds: seq<Fd>)

  /** User code runs on the current terminal; otherwise the kernel is in its loop that starts a shell. */
  predicate Running(s: State)
    requires |s.progCount| == NUM_TERMINALS && 0 <= s.current < NUM_TERMINALS
  {
    s.progCount[s.current] > 0
  }

  /** The entries a run may contain. Left out is the switch to an empty terminal with six processes
      alive, which the code calls unrecoverable; without user code only execute can happen. */
  ghost predicate Enabled(s: State, op: Op) {
    Shape(s) &&
    match op
    case Exec(_, args, _, _) => |args| == ARG_SIZE
    case Halt(_) => Running(s) && TopReadable(s)
    case Switch(to, _, _) =>
      Running(s) && TopReadable(s) && 0 <= to < NUM_TERMINALS && (s.progCount[to] != 0 ==> s.pcbLoc[to] in s.pcbs) &&
      (s.progCount[to] == 0 ==> Total(s) < MAX_PROCESSES)
    case Files(fds) => Running(s) && TopReadable(s) && |fds| == FOPS_NUM
  }

  predicate Launches(s: State, op: Op)
    requires |s.progCount| == NUM_TERMINALS
  {
    op.Exec? && op.ok && Total(s) < MAX_PROCESSES
  }

  function Step(s: State, op: Op): State
    requires Enabled(s, op)
  {
    match op
    case Exec(_, args, esp, ebp) => if Launches(s, op) then Launch(s, args, esp, ebp) else s
    case Halt(status) => Terminate(s, status)
    case Switch(to, esp, ebp) => SwitchTo(s, to, esp, ebp)
    case Files(fds) =>
      var here := s.pcbLoc[s.current];
      s.(pcbs := s.pcbs[here := s.pcbs[here].(fds := fds)])
  }

  ghost predicate CanRun(s: State, ops: seq<Op>)
    decreases |ops|
  {
    ops == [] || (Enabled(s, ops[0]) && CanRun(Step(s, ops[0]), ops[1..]))
  }

  ghost function Run(s: State, ops: seq<Op>): State
    requires CanRun(s, ops)
    decreases |ops|
  {
    if ops == [] then s else Run(Step(s, ops[0]), ops[1..])
  }

  // ------------------------------------------------------------ the invariant

  /** One call stack of pids per terminal, running process first. */
  type Stacks = st: seq<seq<int>> | |st| == NUM_TERMINALS witness [[], [], []]

  predicate InUse(st: Stacks, p: int) {
    p in st[0] || p in st[1] || p in st[2]
  }

  /** cr3 values that name a directory some *_init has built. */
  predicate Known(s: State, c: int)
    requires |s.dirs| == MAX_PROCESSES
  {
    c == s.boot || exists p :: 0 <= p < MAX_PROCESSES && p in s.loaded && c == s.dirs[p]
  }

  /** Entry `i` of the stack of terminal `t` has its PCB in place, linked to its parent's. */
  ghost predicate Linked(s: State, t: int, q: seq<int>, i: int)
    requires Shape(s) && 0 <= i < |q|
  {
    0 <= q[i] < MAX_PROCESSES && q[i] in s.loaded &&
    var pcb := s.pcbs[PcbAddr(q[i])];
    pcb.pid == q[i] && pcb.termNum == t && pcb.currPd == s.dirs[q[i]] && Known(s, pcb.pagedir) &&
    |pcb.args| == ARG_SIZE && |pcb.fds| == FOPS_NUM &&
    (i + 1 == |q| ==> pcb.last == PcbAddr(q[i])) &&
    (i + 1 < |q| ==> pcb.last == PcbAddr(q[i + 1]) && 0 <= q[i + 1] < MAX_PROCESSES && pcb.pagedir == s.dirs[q[i + 1]])
  }

  ghost predicate LinkedStack(s: State, t: int, q: seq<int>)
    requires Shape(s) && 0 <= t < NUM_TERMINALS
  {
    s.progCount[t] == |q| && (q != [] ==> s.pcbLoc[t] == PcbAddr(q[0])) &&
    forall i :: 0 <= i < |q| ==> Linked(s, t, q, i)
  }

  predicate NoRepeat(q: seq<int>) {
    forall i, j :: 0 <= i < j < |q| ==> q[i] != q[j]
  }

  predicate Apart(q: seq<int>, r: seq<int>) {
    forall p :: p in q ==> p !in r
  }

  predicate Disjoint(st: Stacks) {
    NoRepeat(st[0]) && NoRepeat(st[1]) && NoRepeat(st[2]) &&
    Apart(st[0], st[1]) && Apart(st[0], st[2]) && Apart(st[1], st[2])
  }

  ghost predicate Marks(s: State, st: Stacks)
    requires Shape(s)
  {
    forall p :: 0 <= p < MAX_PROCESSES ==> s.memoryspace[p] == if InUse(st, p) then 1 else 0
  }

  /** The processor runs the process on top of the current terminal's stack. */
  predicate Context(s: State, q: seq<int>)
    requires |s.dirs| == MAX_PROCESSES
  {
    Known(s, s.cr3) &&
    (q != [] && 0 <= q[0] < MAX_PROCESSES ==> s.cr3 == s.dirs[q[0]] && s.esp0 == KernelStack(q[0]))
  }

  /** The kernel's linked PCBs, counters and pool represent the three stacks. */
  ghost predicate Rep(s: State, st: Stacks) {
    Shape(s) && LinkedStack(s, 0, st[0]) && LinkedStack(s, 1, st[1]) && LinkedStack(s, 2, st[2]) &&
    Disjoint(st) && Marks(s, st) && Context(s, st[s.current])
  }

  ghost predicate Invariant(s: State) {
    exists st: Stacks :: Rep(s, st)
  }

  /** The globals as the kernel starts its first shell. */
  ghost predicate Boot(s: State) {
    Shape(s) && s.memoryspace == [0, 0, 0, 0, 0, 0] && s.progCount == [0, 0, 0] && s.current == 0 &&
    s.pcbLoc == [PCB0_LOC, 0, 0] && s.esp0 == KERNEL_TOP && s.cr3 == s.boot
  }

  lemma BootRep(s: State)
    requires Boot(s)
    ensures Rep(s, [[], [], []])
  {
  }
}
