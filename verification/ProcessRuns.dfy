/** Properties of whole runs: the linked PCBs are call stacks, the processor always runs the top of
    the current one, and a balanced run undoes itself. */
module ProcessRuns {
  import opened Bytes
  import opened Processes
  import opened ProcessTheory

  /** Every run from boot, of any length, keeps the invariant. */
  lemma {:induction false} RunKeeps(s: State, st: Stacks, ops: seq<Op>) returns (st': Stacks)
    requires Rep(s, st) && CanRun(s, ops)
    ensures Rep(Run(s, ops), st')
    decreases |ops|
  {
    if ops == [] {
      st' := st;
    } else {
      StepKeeps(s, st, ops[0]);
      hide Rep, Step;
      st' := RunKeeps(Step(s, ops[0]), StackStep(s, st, ops[0]), ops[1..]);
    }
  }

  lemma ReachableInvariant(s: State, ops: seq<Op>)
    requires Boot(s) && CanRun(s, ops)
    ensures Invariant(Run(s, ops))
  {
    BootRep(s);
    var st := RunKeeps(s, [[], [], []], ops);
  }

  // ------------------------------------------------------------ what the invariant says

  /** The PCBs met from `a` on, following lastpcb_ptr until one points to itself (at most `fuel` links). */
  function Chain(pcbs: map<int, Pcb>, a: int, fuel: nat): seq<int>
    decreases fuel
  {
    if fuel == 0 || a !in pcbs || pcbs[a].last == a then [a] else [a] + Chain(pcbs, pcbs[a].last, fuel - 1)
  }

  function Addrs(q: seq<int>): (r: seq<int>)
    ensures |r| == |q| && forall i :: 0 <= i < |q| ==> r[i] == PcbAddr(q[i])
  {
    seq(|q|, i requires 0 <= i < |q| => PcbAddr(q[i]))
  }

  lemma {:induction false} ChainIsStack(s: State, t: int, q: seq<int>, i: nat, fuel: nat)
    requires Shape(s) && 0 <= t < NUM_TERMINALS && LinkedStack(s, t, q) && NoRepeat(q)
    requires i < |q| && fuel >= |q| - i
    ensures Chain(s.pcbs, PcbAddr(q[i]), fuel) == Addrs(q[i..])
    decreases |q| - i
  {
    assert Linked(s, t, q, i);
    if i + 1 < |q| {
      AddrInjective(q[i], q[i + 1]);
      ChainIsStack(s, t, q, i + 1, fuel - 1);
      assert q[i..] == [q[i]] + q[i + 1..];
    }
  }

  /** For each terminal with programs, following the parent links from its current PCB visits as many
      different PCBs as its counter says and ends at a root that links to itself. The chains of
      different terminals share no PCB, together they are exactly the pids marked in use, and the
      counters add up to at most six. */
  lemma ProcessTable(s: State, st: Stacks, t: int)
    requires Rep(s, st) && 0 <= t < NUM_TERMINALS && s.progCount[t] > 0
    ensures var c := Chain(s.pcbs, s.pcbLoc[t], MAX_PROCESSES);
            c == Addrs(st[t]) && |c| == s.progCount[t] && NoRepeat(c) &&
            c[|c| - 1] in s.pcbs && s.pcbs[c[|c| - 1]].last == c[|c| - 1]
    ensures Disjoint(st) && 0 <= Total(s) <= MAX_PROCESSES
    ensures forall p :: 0 <= p < MAX_PROCESSES ==> (s.memoryspace[p] == 1 <==> InUse(st, p))
  {
    PoolSound(s, st);
    var q := st[t];
    assert LinkedStack(s, t, q) && NoRepeat(q) && Marks(s, st);
    hide Linked, Disjoint, Context;
    assert |st[0]| <= 6 && |st[1]| <= 6 && |st[2]| <= 6 by {
      assert s.progCount[0] == |st[0]| && s.progCount[1] == |st[1]| && s.progCount[2] == |st[2]|;
    }
    ChainIsStack(s, t, q, 0, MAX_PROCESSES);
    assert q[0..] == q;
    assert Linked(s, t, q, |q| - 1);
  }

  /** The stacks are determined by the kernel's own data. */
  lemma StacksUnique(s: State, st: Stacks, st': Stacks)
    requires Rep(s, st) && Rep(s, st')
    ensures st == st'
  {
    forall t | 0 <= t < NUM_TERMINALS ensures st[t] == st'[t] {
      assert LinkedStack(s, t, st[t]) && LinkedStack(s, t, st'[t]);
      if s.progCount[t] > 0 {
        ProcessTable(s, st, t);
        ProcessTable(s, st', t);
        assert forall i :: 0 <= i < |st[t]| ==> Addrs(st[t])[i] == Addrs(st'[t])[i];
      }
    }
  }

  /** cr3 is the running process's directory and tss.esp0 the top of its kernel stack. */
  ghost predicate RunsItself(s: State) {
    Shape(s) && s.pcbLoc[s.current] in s.pcbs &&
    var pcb := s.pcbs[s.pcbLoc[s.current]];
    0 <= pcb.pid < MAX_PROCESSES && s.memoryspace[pcb.pid] == 1 && pcb.termNum == s.current &&
    s.cr3 == s.dirs[pcb.pid] == pcb.currPd && s.esp0 == KERNEL_TOP - (pcb.pid + 1) * MAX_STACK
  }

  /** Whenever user code runs, in any run from boot, the processor context is the running process's. */
  lemma ContextMatches(s: State, ops: seq<Op>)
    requires Boot(s) && CanRun(s, ops)
    ensures Shape(Run(s, ops))
    ensures Running(Run(s, ops)) ==> RunsItself(Run(s, ops))
  {
    BootRep(s);
    var st := RunKeeps(s, [[], [], []], ops);
    if Running(Run(s, ops)) {
      TopOfStack(Run(s, ops), st);
    }
  }

  /** When a terminal's root program halts, only execute can follow, and it is never refused for want
      of room: the relaunched program gets the lowest free pid and is a self-linked root again. */
  lemma RootHaltRelaunches(s: State, st: Stacks, status: byte, shell: Op)
    requires Rep(s, st) && Running(s) && s.progCount[s.current] == 1 && shell.Exec? && shell.ok
    requires |shell.args| == ARG_SIZE
    ensures Enabled(s, Halt(status))
    ensures var r := Step(s, Halt(status));
            Shape(r) && !Running(r) && r.current == s.current && Enabled(r, shell) && Launches(r, shell) &&
            var p, l := LowestFree(r.memoryspace), Step(r, shell);
            p < MAX_PROCESSES && l.memoryspace[p] == 1 && l.pcbLoc[s.current] == PcbAddr(p) &&
            PcbAddr(p) in l.pcbs && l.pcbs[PcbAddr(p)].last == PcbAddr(p) && l.progCount[s.current] == 1
  {
    TopOfStack(s, st);
    TerminateKeeps(s, st, status);
    var r := Step(s, Halt(status));
    assert Total(r) == Total(s) - 1;
    PoolSound(s, st);
    PoolSound(r, Pop(st, s.current));
    hide Rep, LowestFree, Linked;
  }

  // ------------------------------------------------------------ balanced runs

  /** Terminal `t` has more than `d` processes before every step of the run. */
  ghost predicate StaysAbove(s: State, ops: seq<Op>, t: int, d: nat)
    requires CanRun(s, ops) && 0 <= t < NUM_TERMINALS
    decreases |ops|
  {
    ops == [] || (Shape(s) && s.progCount[t] > d && StaysAbove(Step(s, ops[0]), ops[1..], t, d))
  }

  /** The `d` oldest entries of a stack. */
  function Bottom(q: seq<int>, d: nat): seq<int>
    requires d <= |q|
  {
    q[|q| - d..]
  }

  /** The PCBs of these processes are the same, field for field. */
  ghost predicate SamePcbs(s: State, r: State, q: seq<int>) {
    forall p :: p in q ==> PcbAddr(p) in s.pcbs && PcbAddr(p) in r.pcbs && s.pcbs[PcbAddr(p)] == r.pcbs[PcbAddr(p)]
  }

  /** A step touches the PCBs of no live process but the running one. */
  lemma StepTouchesTop(s: State, st: Stacks, op: Op, p: int)
    requires Rep(s, st) && Enabled(s, op) && InUse(st, p)
    requires st[s.current] != [] ==> p != st[s.current][0]
    ensures PcbAddr(p) in s.pcbs && PcbAddr(p) in Step(s, op).pcbs && s.pcbs[PcbAddr(p)] == Step(s, op).pcbs[PcbAddr(p)]
  {
    InUseInRange(s, st, p);
    if Launches(s, op) {
      PoolSound(s, st);
      AddrInjective(p, NextPid(s));
      hide LowestFree, Rep, NewPcb;
    } else if Running(s) {
      TopOfStack(s, st);
      AddrInjective(p, st[s.current][0]);
      hide Rep, Linked;
    }
  }

  /** As long as a terminal keeps more than `d` processes, its `d` oldest keep their place and PCBs. */
  lemma StepKeepsBottom(s: State, st: Stacks, op: Op, t: int, d: nat)
    requires Rep(s, st) && Enabled(s, op) && 0 <= t < NUM_TERMINALS && s.progCount[t] > d
    ensures |st[t]| > d && |StackStep(s, st, op)[t]| >= d
    ensures Bottom(StackStep(s, st, op)[t], d) == Bottom(st[t], d)
    ensures SamePcbs(s, Step(s, op), Bottom(st[t], d))
  {
    assert LinkedStack(s, t, st[t]) && Disjoint(st);
    forall p | p in Bottom(st[t], d)
      ensures PcbAddr(p) in s.pcbs && PcbAddr(p) in Step(s, op).pcbs
      ensures s.pcbs[PcbAddr(p)] == Step(s, op).pcbs[PcbAddr(p)]
    {
      NotTheTop(s, st, t, d, p);
      hide Rep, Step, StackStep, Disjoint, LinkedStack, Enabled;
      StepTouchesTop(s, st, op, p);
    }
  }

  lemma NotTheTop(s: State, st: Stacks, t: int, d: nat, p: int)
    requires Rep(s, st) && 0 <= t < NUM_TERMINALS && d < |st[t]| && p in Bottom(st[t], d)
    ensures InUse(st, p) && (st[s.current] != [] ==> p != st[s.current][0])
  {
    assert p in st[t];
    assert LinkedStack(s, t, st[t]) && Disjoint(st);
    assert st[s.current] != [] ==> st[s.current][0] in st[s.current];
  }

  lemma {:induction false} RunKeepsBottom(s: State, st: Stacks, ops: seq<Op>, t: int, d: nat) returns (st': Stacks)
    requires Rep(s, st) && CanRun(s, ops) && 0 <= t < NUM_TERMINALS && d <= |st[t]| && StaysAbove(s, ops, t, d)
    ensures Rep(Run(s, ops), st') && d <= |st'[t]| && Bottom(st'[t], d) == Bottom(st[t], d)
    ensures SamePcbs(s, Run(s, ops), Bottom(st[t], d))
    decreases |ops|
  {
    if ops == [] {
      st' := st;
      forall p | p in Bottom(st[t], d) ensures PcbAddr(p) in s.pcbs {
        assert p in st[t];
        InUseInRange(s, st, p);
      }
    } else {
      StepKeeps(s, st, ops[0]);
      StepKeepsBottom(s, st, ops[0], t, d);
      hide Rep, Step;
      st' := RunKeepsBottom(Step(s, ops[0]), StackStep(s, st, ops[0]), ops[1..], t, d);
    }
  }

  predicate NoSwitch(ops: seq<Op>) {
    forall i :: 0 <= i < |ops| ==> !ops[i].Switch?
  }

  /** Without terminal switches the other terminals, and all their PCBs, stay as they are. */
  lemma {:induction false} RunKeepsOthers(s: State, st: Stacks, ops: seq<Op>, u: int) returns (st': Stacks)
    requires Rep(s, st) && CanRun(s, ops) && NoSwitch(ops) && 0 <= u < NUM_TERMINALS && u != s.current
    ensures Rep(Run(s, ops), st') && st'[u] == st[u]
    ensures Run(s, ops).current == s.current && Run(s, ops).pcbLoc[u] == s.pcbLoc[u] && SamePcbs(s, Run(s, ops), st[u])
    ensures Run(s, ops).dirs == s.dirs && Run(s, ops).boot == s.boot
    decreases |ops|
  {
    if ops == [] {
      st' := st;
      forall p | p in st[u] ensures PcbAddr(p) in s.pcbs {
        InUseInRange(s, st, p);
      }
    } else {
      StepKeeps(s, st, ops[0]);
      StepKeepsOther(s, st, ops[0], u);
      hide Rep, Step, StackStep, SamePcbs;
      var s1 := Step(s, ops[0]);
      st' := RunKeepsOthers(s1, StackStep(s, st, ops[0]), ops[1..], u);
      SamePcbsTrans(s, s1, Run(s, ops), st[u]);
    }
  }

  lemma SamePcbsTrans(a: State, b: State, c: State, q: seq<int>)
    requires SamePcbs(a, b, q) && SamePcbs(b, c, q)
    ensures SamePcbs(a, c, q)
  {
  }

  /** One step that is not a terminal switch. */
  lemma StepKeepsOther(s: State, st: Stacks, op: Op, u: int)
    requires Rep(s, st) && Enabled(s, op) && !op.Switch? && 0 <= u < NUM_TERMINALS && u != s.current
    ensures StackStep(s, st, op)[u] == st[u] && SamePcbs(s, Step(s, op), st[u])
    ensures var r := Step(s, op);
            r.current == s.current && r.pcbLoc[u] == s.pcbLoc[u] && r.dirs == s.dirs && r.boot == s.boot
  {
    assert Disjoint(st);
    assert st[s.current] != [] ==> st[s.current][0] in st[s.current];
    forall p | p in st[u]
      ensures PcbAddr(p) in s.pcbs && PcbAddr(p) in Step(s, op).pcbs
      ensures s.pcbs[PcbAddr(p)] == Step(s, op).pcbs[PcbAddr(p)]
    {
      StepTouchesTop(s, st, op, p);
    }
    hide Rep, NextPid, NewPcb;
  }

  /** The whole kernel state that user code of a live process can tell apart. */
  ghost predicate Restored(s: State, r: State, st: Stacks) {
    r.memoryspace == s.memoryspace && r.progCount == s.progCount && r.pcbLoc == s.pcbLoc && r.current == s.current &&
    r.esp0 == s.esp0 && r.cr3 == s.cr3 && forall t :: 0 <= t < NUM_TERMINALS ==> SamePcbs(s, r, st[t])
  }

  lemma RestoredFrom(s: State, r: State, st: Stacks)
    requires Rep(s, st) && Rep(r, st) && Running(s) && r.current == s.current && r.dirs == s.dirs
    requires forall u :: 0 <= u < NUM_TERMINALS && u != s.current ==> r.pcbLoc[u] == s.pcbLoc[u]
    requires forall u :: 0 <= u < NUM_TERMINALS ==> SamePcbs(s, r, st[u])
    ensures Restored(s, r, st)
  {
    TopOfStack(s, st);
    TopOfStack(r, st);
    hide SamePcbs, Disjoint, Linked;
    assert forall t :: 0 <= t < NUM_TERMINALS ==> LinkedStack(s, t, st[t]) && LinkedStack(r, t, st[t]);
  }

  // ------------------------------------------------------------ where control resumes

  /** The fields of a PCB that nothing changes between its launch and its halt. */
  predicate SameSaved(a: Pcb, b: Pcb) {
    a.pid == b.pid && a.esp == b.esp && a.ebp == b.ebp && a.pagedir == b.pagedir && a.last == b.last && a.args == b.args
  }

  /** Every step leaves those fields of every process it does not end. */
  lemma StepKeepsSaved(s: State, st: Stacks, op: Op, p: int)
    requires Rep(s, st) && Enabled(s, op) && InUse(st, p) && InUse(StackStep(s, st, op), p)
    ensures PcbAddr(p) in s.pcbs && PcbAddr(p) in Step(s, op).pcbs
    ensures SameSaved(s.pcbs[PcbAddr(p)], Step(s, op).pcbs[PcbAddr(p)])
  {
    InUseInRange(s, st, p);
    if st[s.current] == [] || p != st[s.current][0] {
      StepTouchesTop(s, st, op, p);
    } else if Launches(s, op) {
      PoolSound(s, st);
      AddrInjective(p, NextPid(s));
      hide Rep, NextPid, NewPcb;
    } else {
      TopOfStack(s, st);
      hide Rep, Linked;
    }
  }

  /** As long as terminal `t` has at least `k` processes before and after, the `k` oldest are the same. */
  lemma StepKeepsDepth(s: State, st: Stacks, op: Op, t: int, k: nat)
    requires Rep(s, st) && Enabled(s, op) && 0 <= t < NUM_TERMINALS
    requires k <= |st[t]| && k <= |StackStep(s, st, op)[t]|
    ensures Bottom(StackStep(s, st, op)[t], k) == Bottom(st[t], k)
  {
  }

  lemma {:induction false} RunKeepsSaved(s: State, st: Stacks, ops: seq<Op>, t: int, d: nat, p: int)
    returns (st': Stacks)
    requires Rep(s, st) && CanRun(s, ops) && 0 <= t < NUM_TERMINALS && StaysAbove(s, ops, t, d)
    requires d < |st[t]| && p in Bottom(st[t], d + 1)
    requires Shape(Run(s, ops)) && Run(s, ops).progCount[t] > d
    ensures Rep(Run(s, ops), st') && d < |st'[t]| && Bottom(st'[t], d + 1) == Bottom(st[t], d + 1)
    ensures PcbAddr(p) in s.pcbs && PcbAddr(p) in Run(s, ops).pcbs
    ensures SameSaved(s.pcbs[PcbAddr(p)], Run(s, ops).pcbs[PcbAddr(p)])
    decreases |ops|
  {
    if ops == [] {
      st' := st;
      InUseInRange(s, st, p);
    } else {
      var s1, st1 := Step(s, ops[0]), StackStep(s, st, ops[0]);
      assert ops[1..] == [] || s1.progCount[t] > d;
      hide Rep, Step, StackStep, Bottom, Enabled;
      StepKeepsBase(s, st, ops[0], t, d, p);
      st' := RunKeepsSaved(s1, st1, ops[1..], t, d, p);
    }
  }

  /** One step of such a run. */
  lemma StepKeepsBase(s: State, st: Stacks, op: Op, t: int, d: nat, p: int)
    requires Rep(s, st) && Enabled(s, op) && 0 <= t < NUM_TERMINALS
    requires d < |st[t]| && p in Bottom(st[t], d + 1) && Shape(Step(s, op)) && Step(s, op).progCount[t] > d
    ensures var st1 := StackStep(s, st, op);
            Rep(Step(s, op), st1) && d < |st1[t]| && Bottom(st1[t], d + 1) == Bottom(st[t], d + 1)
    ensures PcbAddr(p) in s.pcbs && PcbAddr(p) in Step(s, op).pcbs
    ensures SameSaved(s.pcbs[PcbAddr(p)], Step(s, op).pcbs[PcbAddr(p)])
  {
    StepKeeps(s, st, op);
    assert LinkedStack(Step(s, op), t, StackStep(s, st, op)[t]);
    StepKeepsDepth(s, st, op, t, d + 1);
    hide Rep, Step, StackStep, LinkedStack;
    StepKeepsSaved(s, st, op, p);
  }

  // ------------------------------------------------------------ the two undo theorems

  /** A successful execute, any run on the same terminal that keeps the new process alive, and its
      halt put everything back: the pool, the counters, the current PCBs, the processor context and
      every live process's PCB, its descriptor table included. Control resumes on the stack that the
      execute call saved. */
  lemma BalancedRunRestores(s: State, st: Stacks, exec: Op, body: seq<Op>, status: byte)
    requires Rep(s, st) && Running(s) && Enabled(s, exec) && Launches(s, exec)
    requires CanRun(Step(s, exec), body) && NoSwitch(body)
    requires StaysAbove(Step(s, exec), body, s.current, |st[s.current]|)
    requires Enabled(Run(Step(s, exec), body), Halt(status))
    requires Run(Step(s, exec), body).progCount[s.current] == |st[s.current]| + 1
    ensures var r := Step(Run(Step(s, exec), body), Halt(status));
            Restored(s, r, st) && r.esp == exec.esp && r.ebp == exec.ebp
  {
    var t, s1, d, st1, p := s.current, Step(s, exec), |st[s.current]|, StackStep(s, st, exec), NextPid(s);
    LaunchFacts(s, st, exec);
    CountIs(s, st, t);
    hide Rep, Step, StackStep, NextPid, Restored, SamePcbs;
    var s2 := Run(s1, body);
    var st2 := RunKeepsSaved(s1, st1, body, t, d, p);
    var _ := RunKeepsOthers(s1, st1, body, if t == 0 then 1 else 0);
    CountIs(s2, st2, t);
    assert Bottom(st1[t], d + 1) == st1[t] && Bottom(st2[t], d + 1) == st2[t];
    HaltResumes(s2, st2, status);
    BalancedEnd(s, st, s1, st1, body, st2, status);
  }

  lemma CountIs(s: State, st: Stacks, t: int)
    requires Rep(s, st) && 0 <= t < NUM_TERMINALS
    ensures Shape(s) && s.progCount[t] == |st[t]|
  {
    assert LinkedStack(s, t, st[t]);
  }

  /** halt loads the stack registers saved in the PCB of the process it ends. */
  lemma HaltResumes(s: State, st: Stacks, status: byte)
    requires Rep(s, st) && Enabled(s, Halt(status))
    ensures var q, r := st[s.current], Step(s, Halt(status));
            q != [] && PcbAddr(q[0]) in s.pcbs && r.esp == s.pcbs[PcbAddr(q[0])].esp &&
            r.ebp == s.pcbs[PcbAddr(q[0])].ebp
  {
    TopOfStack(s, st);
  }

  /** What a successful execute leaves. */
  lemma LaunchFacts(s: State, st: Stacks, exec: Op)
    requires Rep(s, st) && Enabled(s, exec) && Launches(s, exec)
    ensures var s1, st1, p := Step(s, exec), StackStep(s, st, exec), NextPid(s);
            Rep(s1, st1) && st1[s.current] == [p] + st[s.current] && s1.current == s.current && s1.dirs == s.dirs &&
            PcbAddr(p) in s1.pcbs && s1.pcbs[PcbAddr(p)].esp == exec.esp && s1.pcbs[PcbAddr(p)].ebp == exec.ebp
    ensures forall u :: 0 <= u < NUM_TERMINALS ==> SamePcbs(s, Step(s, exec), st[u])
    ensures forall u :: 0 <= u < NUM_TERMINALS && u != s.current ==>
              Step(s, exec).pcbLoc[u] == s.pcbLoc[u] && StackStep(s, st, exec)[u] == st[u]
  {
    StepKeeps(s, st, exec);
    LaunchTouchesNew(s, st, exec);
    hide Rep, NextPid;
  }

  /** The end of a balanced run. */
  lemma BalancedEnd(s: State, st: Stacks, s1: State, st1: Stacks, body: seq<Op>, st2: Stacks, status: byte)
    requires Rep(s, st) && Running(s) && Rep(s1, st1) && s1.current == s.current && s1.dirs == s.dirs
    requires forall u :: 0 <= u < NUM_TERMINALS ==> SamePcbs(s, s1, st[u])
    requires forall u :: 0 <= u < NUM_TERMINALS && u != s.current ==> s1.pcbLoc[u] == s.pcbLoc[u] && st1[u] == st[u]
    requires CanRun(s1, body) && NoSwitch(body) && StaysAbove(s1, body, s.current, |st[s.current]|)
    requires st1[s.current] != [] && st1[s.current][1..] == st[s.current]
    requires Rep(Run(s1, body), st2) && st2[s.current] != [] && st2[s.current][1..] == st[s.current]
    requires Enabled(Run(s1, body), Halt(status))
    ensures Restored(s, Step(Run(s1, body), Halt(status)), st)
  {
    var t, s2, d := s.current, Run(s1, body), |st[s.current]|;
    var r := Step(s2, Halt(status));
    hide Rep, Restored, SamePcbs;
    var low := RunKeepsBottom(s1, st1, body, t, d);
    assert Bottom(st1[t], d) == st[t];
    forall u | 0 <= u < NUM_TERMINALS && u != t
      ensures st2[u] == st[u] && s2.pcbLoc[u] == s.pcbLoc[u] && s2.current == t && s2.dirs == s.dirs
      ensures SamePcbs(s1, s2, st[u])
    {
      var stu := RunKeepsOthers(s1, st1, body, u);
      StacksUnique(s2, st2, stu);
    }
    assert s2.current == t && s2.dirs == s.dirs by {
      var other := if t == 0 then 1 else 0;
      assert st2[other] == st[other];
    }
    StepKeeps(s2, st2, Halt(status));
    assert StackStep(s2, st2, Halt(status)) == st;
    forall u | 0 <= u < NUM_TERMINALS ensures SamePcbs(s, r, st[u]) {
      HaltTouchesTop(s2, st2, status, u, st[u]);
      SamePcbsTrans(s, s1, s2, st[u]);
      SamePcbsTrans(s, s2, r, st[u]);
    }
    assert forall u :: 0 <= u < NUM_TERMINALS && u != t ==> r.pcbLoc[u] == s.pcbLoc[u];
    RestoredFrom(s, r, st);
  }

  /** halt touches no PCB but that of the process it ends. */
  lemma HaltTouchesTop(s: State, st: Stacks, status: byte, u: int, q: seq<int>)
    requires Rep(s, st) && Enabled(s, Halt(status)) && 0 <= u < NUM_TERMINALS
    requires q == if u == s.current && st[u] != [] then st[u][1..] else st[u]
    ensures SamePcbs(s, Step(s, Halt(status)), q)
  {
    assert Disjoint(st);
    assert st[s.current] != [] ==> st[s.current][0] in st[s.current];
    forall p | p in q
      ensures PcbAddr(p) in s.pcbs && PcbAddr(p) in Step(s, Halt(status)).pcbs
      ensures s.pcbs[PcbAddr(p)] == Step(s, Halt(status)).pcbs[PcbAddr(p)]
    {
      assert p in st[u];
      StepTouchesTop(s, st, Halt(status), p);
    }
  }

  /** Terminal `t` is in the background before every step of the run. */
  ghost predicate InBackground(s: State, ops: seq<Op>, t: int)
    requires CanRun(s, ops)
    decreases |ops|
  {
    ops == [] || (s.current != t && InBackground(Step(s, ops[0]), ops[1..], t))
  }

  /** While a terminal is in the background, its stack and all its PCBs stay as they are. */
  lemma {:induction false} BackgroundFrozen(s: State, st: Stacks, ops: seq<Op>, t: int) returns (st': Stacks)
    requires Rep(s, st) && CanRun(s, ops) && 0 <= t < NUM_TERMINALS && InBackground(s, ops, t)
    ensures Rep(Run(s, ops), st') && st'[t] == st[t] && SamePcbs(s, Run(s, ops), st[t])
    decreases |ops|
  {
    if ops == [] {
      st' := st;
      forall p | p in st[t] ensures PcbAddr(p) in s.pcbs {
        InUseInRange(s, st, p);
      }
    } else {
      StepKeeps(s, st, ops[0]);
      assert Disjoint(st);
      assert st[s.current] != [] ==> st[s.current][0] in st[s.current];
      forall p | p in st[t]
        ensures PcbAddr(p) in s.pcbs && PcbAddr(p) in Step(s, ops[0]).pcbs &&
                s.pcbs[PcbAddr(p)] == Step(s, ops[0]).pcbs[PcbAddr(p)]
      {
        StepTouchesTop(s, st, ops[0], p);
      }
      var s1 := Step(s, ops[0]);
      assert StackStep(s, st, ops[0])[t] == st[t];
      hide Rep, Step, StackStep;
      st' := BackgroundFrozen(s1, StackStep(s, st, ops[0]), ops[1..], t);
      SamePcbsTrans(s, s1, Run(s, ops), st[t]);
    }
  }

  /** Switching away from a running terminal and, after any run elsewhere, back to it resumes the same
      process: its directory, its kernel stack, and the stack registers saved on leaving. */
  lemma SwitchAwayAndBack(s: State, st: Stacks, away: Op, ops: seq<Op>, back: Op)
    requires Rep(s, st) && Running(s) && away.Switch? && away.to != s.current && Enabled(s, away)
    requires CanRun(Step(s, away), ops) && InBackground(Step(s, away), ops, s.current)
    requires Run(Step(s, away), ops).current != s.current
    requires back.Switch? && back.to == s.current && Enabled(Run(Step(s, away), ops), back)
    ensures var r := Step(Run(Step(s, away), ops), back);
            r.current == s.current && r.pcbLoc[s.current] == s.pcbLoc[s.current] && r.cr3 == s.cr3 &&
            r.esp0 == s.esp0 &&
            r.esp == away.esp && r.ebp == away.ebp && r.progCount[s.current] == s.progCount[s.current]
  {
    var t, s1 := s.current, Step(s, away);
    SwitchSaves(s, st, away);
    StepKeeps(s, st, away);
    hide Rep, Step;
    var s2 := Run(s1, ops);
    var st2 := BackgroundFrozen(s1, st, ops, t);
    DirsFixed(s1, ops);
    SwitchResumes(s2, st2, back);
  }

  /** What terminal_switch saves in the PCB it leaves. */
  lemma SwitchSaves(s: State, st: Stacks, away: Op)
    requires Rep(s, st) && Running(s) && away.Switch? && away.to != s.current && Enabled(s, away)
    ensures var q, r := st[s.current], Step(s, away);
            q != [] && q[0] in q && 0 <= q[0] < MAX_PROCESSES && |s.dirs| == MAX_PROCESSES && r.dirs == s.dirs &&
            PcbAddr(q[0]) in r.pcbs && r.pcbs[PcbAddr(q[0])].currEsp == away.esp &&
            r.pcbs[PcbAddr(q[0])].currEbp == away.ebp &&
            s.cr3 == s.dirs[q[0]] && s.esp0 == KernelStack(q[0]) && s.pcbLoc[s.current] == PcbAddr(q[0]) &&
            s.progCount[s.current] == |q| &&
            r.pcbs == s.pcbs[PcbAddr(q[0]) := s.pcbs[PcbAddr(q[0])].(currEsp := away.esp, currEbp := away.ebp)]
  {
    TopOfStack(s, st);
    assert LinkedStack(s, s.current, st[s.current]);
    hide Rep, Linked, LinkedStack;
  }

  /** What terminal_switch loads from the PCB it comes back to. */
  lemma SwitchResumes(s: State, st: Stacks, back: Op)
    requires Rep(s, st) && back.Switch? && back.to != s.current && Enabled(s, back) && st[back.to] != []
    ensures var q, r := st[back.to], Step(s, back);
            0 <= q[0] < MAX_PROCESSES && |s.dirs| == MAX_PROCESSES && PcbAddr(q[0]) in s.pcbs &&
            r.current == back.to && r.pcbLoc[back.to] == PcbAddr(q[0]) && r.progCount[back.to] == |q| &&
            r.cr3 == s.dirs[q[0]] && r.esp0 == KernelStack(q[0]) &&
            r.esp == s.pcbs[PcbAddr(q[0])].currEsp && r.ebp == s.pcbs[PcbAddr(q[0])].currEbp
  {
    TopOfStack(s, st);
    var q := st[back.to];
    assert LinkedStack(s, back.to, q) && Linked(s, back.to, q, 0);
    assert q[0] in q && st[s.current][0] in st[s.current];
    assert Disjoint(st);
    AddrInjective(q[0], st[s.current][0]);
    hide Rep, LinkedStack;
  }

  lemma {:induction false} DirsFixed(s: State, ops: seq<Op>)
    requires CanRun(s, ops)
    ensures Run(s, ops).dirs == s.dirs
    decreases |ops|
  {
    if ops != [] {
      DirsFixed(Step(s, ops[0]), ops[1..]);
    }
  }

  /** execute touches no live PCB and only the current terminal's entries. */
  lemma LaunchTouchesNew(s: State, st: Stacks, exec: Op)
    requires Rep(s, st) && Enabled(s, exec) && Launches(s, exec)
    ensures forall u :: 0 <= u < NUM_TERMINALS ==> SamePcbs(s, Step(s, exec), st[u])
    ensures Step(s, exec).current == s.current && Step(s, exec).dirs == s.dirs
    ensures forall u :: 0 <= u < NUM_TERMINALS && u != s.current ==> Step(s, exec).pcbLoc[u] == s.pcbLoc[u]
  {
    PoolSound(s, st);
    hide Rep, NewPcb, NextPid, InUse, Enabled;
    forall u, p | 0 <= u < NUM_TERMINALS && p in st[u]
      ensures PcbAddr(p) in s.pcbs && PcbAddr(p) in Step(s, exec).pcbs
      ensures s.pcbs[PcbAddr(p)] == Step(s, exec).pcbs[PcbAddr(p)]
    {
      LaunchTouchesNot(s, st, exec, p);
    }
  }

  lemma LaunchTouchesNot(s: State, st: Stacks, exec: Op, p: int)
    requires Rep(s, st) && Enabled(s, exec) && Launches(s, exec) && InUse(st, p)
    ensures PcbAddr(p) in s.pcbs && PcbAddr(p) in Step(s, exec).pcbs
    ensures s.pcbs[PcbAddr(p)] == Step(s, exec).pcbs[PcbAddr(p)]
  {
    PoolSound(s, st);
    hide Rep, NewPcb, NextPid;
    InUseInRange(s, st, p);
    AddrInjective(p, NextPid(s));
  }

  // ------------------------------------------------------------ what a new process starts with

  /** The PCB of the process a launch creates, field by field: the argument that was passed, the saved
      stack registers and directory of the caller, its own directory and kernel stack, the parent link,
      the terminal, and a descriptor table with only the terminal open. */
  lemma LaunchedPcb(s: State, st: Stacks, exec: Op)
    requires Rep(s, st) && Enabled(s, exec) && Launches(s, exec)
    ensures var r, p, t := Step(s, exec), NextPid(s), s.current;
            p < MAX_PROCESSES && |s.dirs| == MAX_PROCESSES && PcbAddr(p) == 0x7F_E000 - 0x2000 * p &&
            PcbAddr(p) in r.pcbs && r.pcbLoc[t] == PcbAddr(p) &&
            var pcb := r.pcbs[PcbAddr(p)];
            pcb.args == exec.args && pcb.pid == p && pcb.termNum == t && pcb.status == 0 &&
            pcb.esp == exec.esp && pcb.ebp == exec.ebp && pcb.pagedir == s.cr3 && pcb.currPd == s.dirs[p] &&
            pcb.currEsp == pcb.currEbp == r.esp0 == 0x80_0000 - 0x2000 * (p + 1) && r.cr3 == s.dirs[p] &&
            pcb.last == PcbAddr(if st[t] == [] then p else st[t][0]) &&
            |pcb.fds| == 8 && pcb.fds[0] == Fd(StdinOps, 0, 0, 1) && pcb.fds[1] == Fd(StdoutOps, 0, 0, 1) &&
            forall k :: 2 <= k < 8 ==> pcb.fds[k].flags == 0
  {
    assert LinkedStack(s, s.current, st[s.current]);
    hide Rep, Linked, LowestFree;
  }

  /** The argument stays with the process over any run in which it lives. */
  lemma ArgsKept(s: State, st: Stacks, exec: Op, ops: seq<Op>)
    requires Rep(s, st) && Enabled(s, exec) && Launches(s, exec) && CanRun(Step(s, exec), ops)
    requires StaysAbove(Step(s, exec), ops, s.current, |st[s.current]|)
    requires Shape(Run(Step(s, exec), ops)) && Run(Step(s, exec), ops).progCount[s.current] > |st[s.current]|
    ensures var r, p := Run(Step(s, exec), ops), NextPid(s);
            PcbAddr(p) in r.pcbs && r.pcbs[PcbAddr(p)].args == exec.args && r.pcbs[PcbAddr(p)].pid == p
  {
    LaunchFacts(s, st, exec);
    LaunchedPcb(s, st, exec);
    var t, d, p := s.current, |st[s.current]|, NextPid(s);
    hide Rep, Step, StackStep, NextPid, SamePcbs;
    var _ := RunKeepsSaved(Step(s, exec), StackStep(s, st, exec), ops, t, d, p);
  }

  /** What halt leaves of the process: its pid free, its PCB with the int8 status and with descriptors 2 to
      7 closed, everything else in it as it was, and every other PCB untouched. */
  lemma HaltedPcb(s: State, st: Stacks, status: byte)
    requires Rep(s, st) && Running(s)
    ensures Enabled(s, Halt(status)) && st[s.current] != []
    ensures var p, r := st[s.current][0], Step(s, Halt(status));
            0 <= p < MAX_PROCESSES && r.memoryspace == s.memoryspace[p := 0] &&
            r.progCount == s.progCount[s.current := s.progCount[s.current] - 1] && PcbAddr(p) in s.pcbs &&
            var was, now := s.pcbs[PcbAddr(p)], r.pcbs[PcbAddr(p)];
            r.pcbs == s.pcbs[PcbAddr(p) := now] && now == was.(fds := now.fds, status := now.status) &&
            now.status == (if status < 0x80 then status else status - 0x100) && |now.fds| == 8 == |was.fds| &&
            now.fds[0] == was.fds[0] && now.fds[1] == was.fds[1] && forall k :: 2 <= k < 8 ==> now.fds[k].flags == 0
    ensures var q, r := st[s.current], Step(s, Halt(status));
            var parent := if |q| > 1 then q[1] else q[0];
            r.cr3 == s.pcbs[PcbAddr(q[0])].pagedir && r.esp == s.pcbs[PcbAddr(q[0])].esp &&
            r.ebp == s.pcbs[PcbAddr(q[0])].ebp && r.esp0 == 0x80_0000 - 0x2000 * (parent + 1) &&
            r.pcbLoc == s.pcbLoc[s.current := PcbAddr(parent)] && r.current == s.current
  {
    TopOfStack(s, st);
    assert LinkedStack(s, s.current, st[s.current]) && Linked(s, s.current, st[s.current], 0);
    assert |st[s.current]| > 1 ==> Linked(s, s.current, st[s.current], 1);
    hide Rep, LinkedStack, CloseAll, Disjoint;
  }

  // ------------------------------------------------------------ switching

  /** After any switch the terminal asked for is the current one, with or without a program. */
  lemma SwitchShows(s: State, st: Stacks, sw: Op)
    requires Rep(s, st) && sw.Switch? && Enabled(s, sw)
    ensures var r := Step(s, sw);
            Shape(r) && r.current == sw.to && r.progCount == s.progCount && r.pcbLoc == s.pcbLoc &&
            r.memoryspace == s.memoryspace && (Running(r) <==> st[sw.to] != []) &&
            (st[sw.to] == [] ==> r.cr3 == s.cr3 && r.esp0 == s.esp0)
  {
    assert LinkedStack(s, sw.to, st[sw.to]);
    hide Rep, LinkedStack;
  }

  /** A switch to an empty terminal: the program started next is pushed there, as a self-linked root, and
      nowhere else. */
  lemma SwitchLaunches(s: State, st: Stacks, sw: Op, shell: Op)
    requires Rep(s, st) && sw.Switch? && Enabled(s, sw) && st[sw.to] == []
    requires shell.Exec? && shell.ok && |shell.args| == ARG_SIZE
    ensures var r := Step(s, sw);
            Enabled(r, shell) && Launches(r, shell) && !Running(r) &&
            var p, l := NextPid(r), Step(r, shell);
            Rep(l, st[sw.to := [p]]) && l.current == sw.to && l.progCount == s.progCount[sw.to := 1] &&
            l.pcbLoc == s.pcbLoc[sw.to := PcbAddr(p)] && PcbAddr(p) in l.pcbs &&
            l.pcbs[PcbAddr(p)].last == PcbAddr(p) && l.pcbs[PcbAddr(p)].termNum == sw.to &&
            l.pcbs[PcbAddr(p)].args == shell.args
  {
    SwitchShows(s, st, sw);
    assert LinkedStack(s, sw.to, st[sw.to]);
    StepKeeps(s, st, sw);
    var r := Step(s, sw);
    assert StackStep(s, st, sw) == st;
    StepKeeps(r, st, shell);
    LaunchedPcb(r, st, shell);
    hide Rep, LowestFree, NewPcb, NextPid;
    assert [NextPid(r)] + st[sw.to] == [NextPid(r)];
  }
}
