/** What the process table keeps, for every run of execute, halt and terminal_switch. */
module ProcessTheory {
  import opened Bytes
  import opened Processes

  // ------------------------------------------------------------ counting

  function All(st: Stacks): seq<int> { st[0] + st[1] + st[2] }

  lemma ConcatNoRepeat(q: seq<int>, r: seq<int>)
    requires NoRepeat(q) && NoRepeat(r) && Apart(q, r)
    ensures NoRepeat(q + r) && forall p :: p in q + r <==> p in q || p in r
  {
    assert forall i :: 0 <= i < |q| ==> q[i] in q;
    assert forall j :: 0 <= j < |r| ==> r[j] in r;
  }

  lemma AllProperties(st: Stacks)
    requires Disjoint(st)
    ensures NoRepeat(All(st))
    ensures forall p :: p in All(st) <==> InUse(st, p)
  {
    ConcatNoRepeat(st[0], st[1]);
    ConcatNoRepeat(st[0] + st[1], st[2]);
  }

  /** A sequence of distinct numbers below `n` has at most `n` elements, and exactly `n` when it has them all. */
  lemma {:induction false} Pigeonhole(q: seq<int>, n: nat)
    requires NoRepeat(q) && forall p :: p in q ==> 0 <= p < n
    ensures |q| <= n
    ensures |q| == n <==> forall p :: 0 <= p < n ==> p in q
    decreases n
  {
    if q == [] {
      assert n > 0 ==> 0 !in q;
    } else if n - 1 in q {
      assert q[0] in q;
      var i :| 0 <= i < |q| && q[i] == n - 1;
      var r := q[..i] + q[i + 1..];
      assert forall j :: 0 <= j < |r| ==> r[j] == q[if j < i then j else j + 1];
      assert forall p :: p in q <==> p in r || p == n - 1;
      Pigeonhole(r, n - 1);
    } else {
      assert q[0] in q;
      Pigeonhole(q, n - 1);
    }
  }

  lemma StackPids(s: State, st: Stacks)
    requires Rep(s, st)
    ensures forall p :: p in All(st) ==> 0 <= p < MAX_PROCESSES
    ensures |All(st)| == Total(s)
  {
    forall p | p in All(st) ensures 0 <= p < MAX_PROCESSES {
      if i :| 0 <= i < |st[0]| && st[0][i] == p {
        assert Linked(s, 0, st[0], i);
      } else if i :| 0 <= i < |st[1]| && st[1][i] == p {
        assert Linked(s, 1, st[1], i);
      } else {
        var i :| 0 <= i < |st[2]| && st[2][i] == p;
        assert Linked(s, 2, st[2], i);
      }
    }
  }

  /** Pool soundness: never more than six processes, and below six the search finds a pid that no
      live process has; at six it finds none. */
  lemma PoolSound(s: State, st: Stacks)
    requires Rep(s, st)
    ensures 0 <= Total(s) <= MAX_PROCESSES
    ensures Total(s) < MAX_PROCESSES <==> LowestFree(s.memoryspace) < MAX_PROCESSES
    ensures Total(s) < MAX_PROCESSES ==> NextPid(s) == LowestFree(s.memoryspace) && !InUse(st, NextPid(s)) &&
                                         forall p :: 0 <= p < NextPid(s) ==> InUse(st, p)
  {
    AllProperties(st);
    StackPids(s, st);
    Pigeonhole(All(st), MAX_PROCESSES);
    hide LinkedStack, Disjoint, Context, All;
    var f := LowestFree(s.memoryspace);
    assert forall p :: 0 <= p < MAX_PROCESSES ==> (s.memoryspace[p] == 0 <==> p !in All(st));
  }

  // ------------------------------------------------------------ steps keep the invariant

  lemma AddrInjective(p: int, q: int)
    ensures PcbAddr(p) == PcbAddr(q) <==> p == q
  {
  }

  /** A stack none of whose PCBs changed in the linked fields stays linked. */
  lemma LinkedFrame(s: State, r: State, t: int, q: seq<int>)
    requires Shape(s) && Shape(r) && 0 <= t < NUM_TERMINALS && LinkedStack(s, t, q)
    requires r.progCount[t] == s.progCount[t] && r.pcbLoc[t] == s.pcbLoc[t] && r.dirs == s.dirs && r.boot == s.boot
    requires s.loaded <= r.loaded
    requires forall p :: p in q ==> SameLinks(s, r, p)
    ensures LinkedStack(r, t, q)
  {
    forall i | 0 <= i < |q| ensures Linked(r, t, q, i) {
      assert Linked(s, t, q, i) && q[i] in q;
    }
  }

  ghost predicate SameLinks(s: State, r: State, p: int)
    requires Shape(s) && Shape(r)
  {
    PcbAddr(p) in s.pcbs && PcbAddr(p) in r.pcbs &&
    var a, b := s.pcbs[PcbAddr(p)], r.pcbs[PcbAddr(p)];
    a.pid == b.pid && a.termNum == b.termNum && a.currPd == b.currPd && a.pagedir == b.pagedir && a.last == b.last &&
    a.args == b.args && |b.fds| == |a.fds|
  }

  function Push(st: Stacks, t: int, p: int): Stacks
    requires 0 <= t < NUM_TERMINALS
  {
    st[t := [p] + st[t]]
  }

  function Pop(st: Stacks, t: int): Stacks
    requires 0 <= t < NUM_TERMINALS && st[t] != []
  {
    st[t := st[t][1..]]
  }

  lemma PushDisjoint(st: Stacks, t: int, p: int)
    requires 0 <= t < NUM_TERMINALS && Disjoint(st) && !InUse(st, p)
    ensures Disjoint(Push(st, t, p))
    ensures forall x :: InUse(Push(st, t, p), x) <==> InUse(st, x) || x == p
  {
    var q := [p] + st[t];
    assert forall x :: x in q <==> x == p || x in st[t];
    assert forall i :: 0 <= i < |st[t]| ==> st[t][i] in st[t];
    assert forall i :: 0 < i < |q| ==> q[i] == st[t][i - 1];
  }

  lemma PopDisjoint(st: Stacks, t: int)
    requires 0 <= t < NUM_TERMINALS && Disjoint(st) && st[t] != []
    ensures Disjoint(Pop(st, t)) && !InUse(Pop(st, t), st[t][0])
    ensures forall x :: InUse(st, x) <==> InUse(Pop(st, t), x) || x == st[t][0]
  {
    var q, top := st[t][1..], st[t][0];
    assert top in st[t];
    assert forall x :: x in st[t] <==> x == top || x in q by {
      assert st[t] == [top] + q;
    }
    assert top !in q;
  }

  lemma PidInRange(s: State, t: int, q: seq<int>, p: int)
    requires Shape(s) && 0 <= t < NUM_TERMINALS && LinkedStack(s, t, q) && p in q
    ensures 0 <= p < MAX_PROCESSES && |s.pcbs[PcbAddr(p)].fds| == FOPS_NUM
  {
    var i :| 0 <= i < |q| && q[i] == p;
    assert Linked(s, t, q, i);
  }

  /** The stacks of the terminals other than `t` stay linked when no PCB of theirs is touched. */
  lemma OthersLinked(s: State, st: Stacks, r: State, t: int)
    requires Rep(s, st) && Shape(r) && 0 <= t < NUM_TERMINALS
    requires r.dirs == s.dirs && r.boot == s.boot && s.loaded <= r.loaded
    requires forall u :: 0 <= u < NUM_TERMINALS && u != t ==>
               r.progCount[u] == s.progCount[u] && r.pcbLoc[u] == s.pcbLoc[u]
    requires forall u, p :: 0 <= u < NUM_TERMINALS && u != t && p in st[u] ==> SameLinks(s, r, p)
    ensures forall u :: 0 <= u < NUM_TERMINALS && u != t ==> LinkedStack(r, u, st[u])
  {
    forall u | 0 <= u < NUM_TERMINALS && u != t ensures LinkedStack(r, u, st[u]) {
      LinkedFrame(s, r, u, st[u]);
    }
  }

  /** A new PCB on top of a linked stack. */
  lemma PushLinked(s: State, r: State, t: int, q: seq<int>, p: int)
    requires Shape(s) && Shape(r) && 0 <= t < NUM_TERMINALS && LinkedStack(s, t, q)
    requires r.progCount[t] == s.progCount[t] + 1 && r.pcbLoc[t] == PcbAddr(p) && r.dirs == s.dirs && r.boot == s.boot
    requires s.loaded <= r.loaded && forall x :: x in q ==> SameLinks(s, r, x)
    requires Linked(r, t, [p] + q, 0)
    ensures LinkedStack(r, t, [p] + q)
  {
    var q' := [p] + q;
    forall i | 0 <= i < |q'| ensures Linked(r, t, q', i) {
      if i > 0 {
        assert q'[i] == q[i - 1] && Linked(s, t, q, i - 1) && q[i - 1] in q;
        assert i + 1 < |q'| ==> q'[i + 1] == q[i];
      }
    }
  }

  /** The new PCB is linked on top of the stack. */
  lemma LaunchLinks(s: State, st: Stacks, args: seq<byte>, esp: int, ebp: int)
    requires Rep(s, st) && |args| == ARG_SIZE
    ensures Linked(Launch(s, args, esp, ebp), s.current, [NextPid(s)] + st[s.current], 0)
  {
    var t := s.current;
    var q := st[t];
    assert LinkedStack(s, t, q);
    assert q != [] ==> Linked(s, t, q, 0);
    assert Known(s, s.cr3);
    hide LowestFree, Marks, Disjoint, LinkedStack;
    var r, p := Launch(s, args, esp, ebp), NextPid(s);
    assert ([p] + q)[0] == p && (q != [] ==> ([p] + q)[1] == q[0]);
    assert Known(r, s.cr3);
  }

  lemma LaunchMarks(s: State, st: Stacks, args: seq<byte>, esp: int, ebp: int)
    requires Rep(s, st) && Total(s) < MAX_PROCESSES
    ensures Marks(Launch(s, args, esp, ebp), Push(st, s.current, NextPid(s)))
  {
    PoolSound(s, st);
    PushDisjoint(st, s.current, NextPid(s));
    hide LowestFree, Push, LinkedStack, Disjoint, Context;
  }

  lemma LaunchKeeps(s: State, st: Stacks, args: seq<byte>, esp: int, ebp: int)
    requires Rep(s, st) && Total(s) < MAX_PROCESSES && |args| == ARG_SIZE
    ensures Rep(Launch(s, args, esp, ebp), Push(st, s.current, NextPid(s)))
  {
    PoolSound(s, st);
    var r, t, p := Launch(s, args, esp, ebp), s.current, NextPid(s);
    PushDisjoint(st, t, p);
    LaunchLinks(s, st, args, esp, ebp);
    LaunchMarks(s, st, args, esp, ebp);
    assert LinkedStack(s, t, st[t]) && Context(r, [p] + st[t]);
    forall x | InUse(st, x) ensures 0 <= x < MAX_PROCESSES && SameLinks(s, r, x) {
      InUseInRange(s, st, x);
    }
    hide LinkedStack, Disjoint, Context, Marks, Linked, SameLinks, Known, NewPcb;
    OthersLinked(s, st, r, t);
    PushLinked(s, r, t, st[t], p);
  }

  lemma InUseInRange(s: State, st: Stacks, p: int)
    requires Rep(s, st) && InUse(st, p)
    ensures 0 <= p < MAX_PROCESSES && |s.pcbs[PcbAddr(p)].fds| == FOPS_NUM
  {
    if p in st[0] {
      PidInRange(s, 0, st[0], p);
    } else if p in st[1] {
      PidInRange(s, 1, st[1], p);
    } else {
      PidInRange(s, 2, st[2], p);
    }
  }

  /** What the running process's PCB looks like. */
  lemma TopOfStack(s: State, st: Stacks)
    requires Rep(s, st) && Running(s)
    ensures var q := st[s.current];
            q != [] && 0 <= q[0] < MAX_PROCESSES && s.pcbLoc[s.current] == PcbAddr(q[0]) &&
            Linked(s, s.current, q, 0) &&
            TopReadable(s)
  {
    var q := st[s.current];
    assert LinkedStack(s, s.current, q);
    assert Linked(s, s.current, q, 0);
  }

  /** A stack without its top entry. */
  lemma PopLinked(s: State, r: State, t: int, q: seq<int>)
    requires Shape(s) && Shape(r) && 0 <= t < NUM_TERMINALS && q != [] && LinkedStack(s, t, q)
    requires r.progCount[t] == s.progCount[t] - 1 && r.dirs == s.dirs && r.boot == s.boot && s.loaded <= r.loaded
    requires |q| > 1 ==> r.pcbLoc[t] == PcbAddr(q[1])
    requires forall x :: x in q ==> SameLinks(s, r, x)
    ensures LinkedStack(r, t, q[1..])
  {
    var q' := q[1..];
    forall i | 0 <= i < |q'| ensures Linked(r, t, q', i) {
      assert q'[i] == q[i + 1] && Linked(s, t, q, i + 1) && q[i + 1] in q;
      assert i + 1 < |q'| ==> q'[i + 1] == q[i + 2];
    }
  }

  lemma TerminateKeeps(s: State, st: Stacks, status: byte)
    requires Rep(s, st) && Running(s)
    ensures TopReadable(s) && Rep(Terminate(s, status), Pop(st, s.current))
  {
    TopOfStack(s, st);
    var r, t, q := Terminate(s, status), s.current, st[s.current];
    PopDisjoint(st, t);
    forall x | InUse(st, x) ensures 0 <= x < MAX_PROCESSES && SameLinks(s, r, x) {
      InUseInRange(s, st, x);
    }
    OthersLinked(s, st, r, t);
    assert LinkedStack(s, t, q) && Linked(s, t, q, 0);
    PopLinked(s, r, t, q);
    assert Marks(r, Pop(st, t));
    assert |q| > 1 ==> Linked(s, t, q, 1);
    assert Context(r, q[1..]);
    hide LinkedStack, Disjoint, Context, Marks;
  }

  lemma SwitchKeeps(s: State, st: Stacks, to: int, esp: int, ebp: int)
    requires Rep(s, st) && Running(s) && 0 <= to < NUM_TERMINALS
    ensures TopReadable(s) && (s.progCount[to] != 0 ==> s.pcbLoc[to] in s.pcbs)
    ensures Rep(SwitchTo(s, to, esp, ebp), st)
  {
    TopOfStack(s, st);
    assert LinkedStack(s, to, st[to]);
    assert st[to] != [] ==> Linked(s, to, st[to], 0);
    var r := SwitchTo(s, to, esp, ebp);
    if to != s.current {
      forall x | InUse(st, x) ensures 0 <= x < MAX_PROCESSES && SameLinks(s, r, x) {
        InUseInRange(s, st, x);
      }
      OthersLinked(s, st, r, s.current);
      LinkedFrame(s, r, s.current, st[s.current]);
      assert Marks(r, st);
      assert Context(r, st[to]);
      hide LinkedStack, Disjoint, Context, Marks;
    }
  }

  lemma FilesKeeps(s: State, st: Stacks, fds: seq<Fd>)
    requires Rep(s, st) && Running(s) && |fds| == FOPS_NUM
    ensures Enabled(s, Files(fds)) && Rep(Step(s, Files(fds)), st)
  {
    TopOfStack(s, st);
    var r := Step(s, Files(fds));
    forall x | InUse(st, x) ensures 0 <= x < MAX_PROCESSES && SameLinks(s, r, x) {
      InUseInRange(s, st, x);
    }
    OthersLinked(s, st, r, s.current);
    LinkedFrame(s, r, s.current, st[s.current]);
    hide LinkedStack, Disjoint;
  }

  /** The stacks after one step: execute pushes the lowest free pid, halt pops, the rest leave them. */
  function StackStep(s: State, st: Stacks, op: Op): Stacks
    requires Shape(s)
  {
    if Launches(s, op) then Push(st, s.current, NextPid(s))
    else if op.Halt? && st[s.current] != [] then Pop(st, s.current)
    else st
  }

  /** Every step keeps the invariant and does to the linked PCBs what `StackStep` does to the stacks. */
  lemma StepKeeps(s: State, st: Stacks, op: Op)
    requires Rep(s, st) && Enabled(s, op)
    ensures Rep(Step(s, op), StackStep(s, st, op))
  {
    hide Rep, Launch, Terminate, SwitchTo, TopReadable;
    match op
    case Exec(_, args, esp, ebp) => if Launches(s, op) { LaunchKeeps(s, st, args, esp, ebp); }
    case Halt(status) => TerminateKeeps(s, st, status); TopOfStack(s, st);
    case Switch(to, esp, ebp) => SwitchKeeps(s, st, to, esp, ebp);
    case Files(fds) => FilesKeeps(s, st, fds);
  }
}
