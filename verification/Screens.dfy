/** The virtual screens of terminal_switch: video memory and three background buffers. */
module Screens {
  import opened Bytes
  import opened Copying
  import opened Paging

  const CELLS := 2048
  const VID_MEM_SIZE := 0x1000
  const MEMORY_TOP := 0x240_0000   // the buffer frames end at 36 MB
  const LINEATTRIBUTE: byte := 0x07

  /** B_BUF_1 to B_BUF_3, and the frames behind them. */
  function BufferVa(t: int): word requires 0 <= t < 3 { TERM_BASE + 0x10_0000 * t }
  function BufferAt(t: int): nat requires 0 <= t < 3 { TERM_FRAMES + 0x10_0000 * t }

  /** Through any built process directory, text memory and the three buffers are where terminal_switch
      expects them. */
  lemma BufferWalk(tm: TableMemory, addr: seq<word>, p: nat, t: int, k: nat)
    requires p < MAX_PROCESSES && Placed(addr) && SpaceReady(tm, addr, p) && 0 <= t < 3 && k < VID_MEM_SIZE
    ensures Walk(tm, addr[Pd(p)], BufferVa(t) + k, Kernel) == Some(BufferAt(t) + k)
    ensures Walk(tm, addr[Pd(p)], VIDMEM + k, Kernel) == Some(VIDMEM + k)
  {
    hide Walk, SpaceReady;
    ProcessWalkExact(tm, addr, p, BufferVa(t) + k, Kernel);
    ProcessWalkExact(tm, addr, p, VIDMEM + k, Kernel);
  }

  /** Where the characters of terminal `t` are while terminal `current` is shown. */
  function ScreenBase(t: int, current: int): nat
    requires 0 <= t < 3
  {
    if t == current then VIDMEM else BufferAt(t)
  }

  /** The 2048 characters of terminal `t`; the odd bytes are attributes. */
  function Screen(m: seq<byte>, t: int, current: int): (r: seq<byte>)
    requires |m| >= MEMORY_TOP && 0 <= t < 3
    ensures |r| == CELLS
    ensures forall i {:trigger r[i]} :: 0 <= i < CELLS ==> r[i] == m[ScreenBase(t, current) + 2 * i]
  {
    seq(CELLS, i requires 0 <= i < CELLS => m[ScreenBase(t, current) + 2 * i])
  }

  /** The loop that sets the attribute of VID_MEM_SIZE cells, twice as many as were copied. */
  function WithAttributes(m: seq<byte>, n: int): (r: seq<byte>)
    requires |m| >= MEMORY_TOP && n <= VID_MEM_SIZE
    ensures |r| == |m|
    ensures forall k {:trigger r[k]} :: 0 <= k < |m| ==>
              r[k] == if VIDMEM <= k < VIDMEM + 2 * n && (k - VIDMEM) % 2 == 1 then LINEATTRIBUTE else m[k]
  {
    seq(|m|, k requires 0 <= k < |m| =>
      if VIDMEM <= k < VIDMEM + 2 * n && (k - VIDMEM) % 2 == 1 then LINEATTRIBUTE else m[k])
  }

  /** Memory after the screen has been switched from terminal `from` to terminal `to`. */
  function Switched(m: seq<byte>, from: int, to: int): (r: seq<byte>)
    requires |m| >= MEMORY_TOP && 0 <= from < 3 && 0 <= to < 3
    ensures |r| == |m|
  {
    var saved := Splice(m, BufferAt(from), m[VIDMEM..VIDMEM + VID_MEM_SIZE]);
    var shown := Splice(saved, VIDMEM, saved[BufferAt(to)..BufferAt(to) + VID_MEM_SIZE]);
    WithAttributes(shown, VID_MEM_SIZE)
  }

  method SetAttributes(mem: array<byte>)
    requires mem.Length >= MEMORY_TOP
    modifies mem
    ensures mem[..] == WithAttributes(old(mem[..]), VID_MEM_SIZE)
  {
    ghost var was := mem[..];
    var i := 0;
    while i < VID_MEM_SIZE
      invariant 0 <= i <= VID_MEM_SIZE && mem[..] == WithAttributes(was, i)
    {
      mem[VIDMEM + 2 * i + 1] := LINEATTRIBUTE;
      i := i + 1;
    }
  }

  /** The copying part of terminal_switch, once its three addresses are translated. */
  method SwitchVideo(mem: array<byte>, from: int, to: int, save: nat, vid: nat, load: nat)
    requires mem.Length >= MEMORY_TOP && 0 <= from < 3 && 0 <= to < 3
    requires save == BufferAt(from) && vid == VIDMEM && load == BufferAt(to)
    modifies mem
    ensures mem[..] == Switched(old(mem[..]), from, to)
  {
    Memcpy(mem, save, vid, VID_MEM_SIZE);
    Memcpy(mem, vid, load, VID_MEM_SIZE);
    SetAttributes(mem);
  }

  /** A switch moves screens about but changes no terminal's characters. */
  lemma SwitchKeepsScreens(m: seq<byte>, from: int, to: int, t: int)
    requires |m| >= MEMORY_TOP && 0 <= from < 3 && 0 <= to < 3 && 0 <= t < 3 && from != to
    ensures Screen(Switched(m, from, to), t, to) == Screen(m, t, from)
  {
    forall i | 0 <= i < CELLS ensures Screen(Switched(m, from, to), t, to)[i] == Screen(m, t, from)[i] {
      SwitchedCell(m, from, to, t, i);
    }
  }

  lemma SwitchedCell(m: seq<byte>, from: int, to: int, t: int, i: nat)
    requires |m| >= MEMORY_TOP && 0 <= from < 3 && 0 <= to < 3 && 0 <= t < 3 && from != to && i < CELLS
    ensures Switched(m, from, to)[ScreenBase(t, to) + 2 * i] == m[ScreenBase(t, from) + 2 * i]
  {
    var saved := Splice(m, BufferAt(from), m[VIDMEM..VIDMEM + VID_MEM_SIZE]);
    var shown := Splice(saved, VIDMEM, saved[BufferAt(to)..BufferAt(to) + VID_MEM_SIZE]);
    var a := ScreenBase(t, to) + 2 * i;
    assert Switched(m, from, to)[a] == WithAttributes(shown, VID_MEM_SIZE)[a] == shown[a];
    hide Splice, WithAttributes, Switched;
    if t == to {
      assert shown[a] == saved[BufferAt(to)..BufferAt(to) + VID_MEM_SIZE][2 * i] == m[BufferAt(to) + 2 * i];
    } else if t == from {
      assert shown[a] == saved[a] == m[VIDMEM..VIDMEM + VID_MEM_SIZE][2 * i];
    } else {
      assert shown[a] == saved[a] == m[a];
    }
  }

  /** Past the copied page of text memory a switch changes attributes only. */
  lemma SwitchedTail(m: seq<byte>, from: int, to: int, i: nat)
    requires |m| >= MEMORY_TOP && 0 <= from < 3 && 0 <= to < 3 && CELLS <= i < VID_MEM_SIZE
    ensures Switched(m, from, to)[VIDMEM + 2 * i] == m[VIDMEM + 2 * i]
  {
    var saved := Splice(m, BufferAt(from), m[VIDMEM..VIDMEM + VID_MEM_SIZE]);
    var shown := Splice(saved, VIDMEM, saved[BufferAt(to)..BufferAt(to) + VID_MEM_SIZE]);
    var a := VIDMEM + 2 * i;
    assert Switched(m, from, to)[a] == WithAttributes(shown, VID_MEM_SIZE)[a] == shown[a] == saved[a];
  }

  /** After a switch every attribute of the shown screen is the standard one, as far as the loop goes; the
      terminal left has its characters and its attributes in its buffer, and the third buffer is untouched. */
  lemma SwitchedAttributes(m: seq<byte>, from: int, to: int, k: nat)
    requires |m| >= MEMORY_TOP && 0 <= from < 3 && 0 <= to < 3 && from != to && k < 0x1000
    ensures Switched(m, from, to)[0xB_8000 + 2 * k + 1] == 0x07
    ensures Switched(m, from, to)[BufferAt(from) + k] == m[0xB_8000 + k]
    ensures forall u :: 0 <= u < 3 && u != from ==> Switched(m, from, to)[BufferAt(u) + k] == m[BufferAt(u) + k]
  {
    var saved := Splice(m, BufferAt(from), m[VIDMEM..VIDMEM + VID_MEM_SIZE]);
    var shown := Splice(saved, VIDMEM, saved[BufferAt(to)..BufferAt(to) + VID_MEM_SIZE]);
    var r := Switched(m, from, to);
    assert r == WithAttributes(shown, VID_MEM_SIZE);
    assert m[VIDMEM..VIDMEM + VID_MEM_SIZE][k] == m[VIDMEM + k];
    hide Switched;
  }

  /** Outside text memory and the buffer frames a switch changes nothing. */
  lemma SwitchFrame(m: seq<byte>, from: int, to: int, k: nat)
    requires |m| >= MEMORY_TOP && 0 <= from < 3 && 0 <= to < 3 && k < |m|
    requires !(VIDMEM <= k < VIDMEM + 0x2000) && !(TERM_FRAMES <= k < MEMORY_TOP)
    ensures Switched(m, from, to)[k] == m[k]
  {
  }

  // ------------------------------------------------------------ runs

  /** A switch, or a byte stored anywhere in the visible video page. */
  datatype ScreenOp = Show(to: int) | Store(offset: int, b: byte)

  predicate Sound(op: ScreenOp) {
    match op
    case Show(to) => 0 <= to < 3
    case Store(offset, _) => 0 <= offset < VID_MEM_SIZE
  }

  function Apply(m: seq<byte>, current: int, op: ScreenOp): (r: (seq<byte>, int))
    requires |m| >= MEMORY_TOP && 0 <= current < 3 && Sound(op)
    ensures |r.0| == |m| && 0 <= r.1 < 3
  {
    match op
    case Show(to) => if to == current then (m, current) else (Switched(m, current, to), to)
    case Store(offset, b) => (m[VIDMEM + offset := b], current)
  }

  function ApplyAll(m: seq<byte>, current: int, ops: seq<ScreenOp>): (r: (seq<byte>, int))
    requires |m| >= MEMORY_TOP && 0 <= current < 3 && forall i :: 0 <= i < |ops| ==> Sound(ops[i])
    ensures |r.0| == |m| && 0 <= r.1 < 3
    decreases |ops|
  {
    if ops == [] then (m, current) else
    var r := Apply(m, current, ops[0]);
    ApplyAll(r.0, r.1, ops[1..])
  }

  /** The same run on three independent screens: a store changes one character of the shown one. */
  type Pictures = p: seq<seq<byte>> | |p| == 3 && |p[0]| == |p[1]| == |p[2]| == CELLS
    witness [seq(CELLS, _ => 0), seq(CELLS, _ => 0), seq(CELLS, _ => 0)]

  function Draw(p: Pictures, current: int, op: ScreenOp): (r: (Pictures, int))
    requires 0 <= current < 3 && Sound(op)
    ensures 0 <= r.1 < 3
  {
    match op
    case Show(to) => (p, to)
    case Store(offset, b) =>
      var drawn: seq<byte> := if offset % 2 == 0 then p[current][offset / 2 := b] else p[current];
      (p[current := drawn], current)
  }

  function DrawAll(p: Pictures, current: int, ops: seq<ScreenOp>): (r: (Pictures, int))
    requires 0 <= current < 3 && forall i :: 0 <= i < |ops| ==> Sound(ops[i])
    ensures 0 <= r.1 < 3
    decreases |ops|
  {
    if ops == [] then (p, current) else
    var r := Draw(p, current, ops[0]);
    DrawAll(r.0, r.1, ops[1..])
  }

  function Pictured(m: seq<byte>, current: int): (p: Pictures)
    requires |m| >= MEMORY_TOP
  {
    [Screen(m, 0, current), Screen(m, 1, current), Screen(m, 2, current)]
  }

  lemma ApplyDraws(m: seq<byte>, current: int, op: ScreenOp)
    requires |m| >= MEMORY_TOP && 0 <= current < 3 && Sound(op)
    ensures var r, d := Apply(m, current, op), Draw(Pictured(m, current), current, op);
            r.1 == d.1 && Pictured(r.0, r.1) == d.0
  {
    match op
    case Show(to) =>
      if to != current {
        SwitchKeepsScreens(m, current, to, 0);
        SwitchKeepsScreens(m, current, to, 1);
        SwitchKeepsScreens(m, current, to, 2);
      }
      hide Screen, Switched;
    case Store(offset, b) =>
      forall t | 0 <= t < 3
        ensures Screen(m[VIDMEM + offset := b], t, current) ==
                if t == current && offset % 2 == 0 then Screen(m, t, current)[offset / 2 := b]
                  else Screen(m, t, current)
      {
        var p, q := Screen(m, t, current), Screen(m[VIDMEM + offset := b], t, current);
        assert forall i :: 0 <= i < CELLS ==> q[i] == if t == current && 2 * i == offset then b else p[i];
      }
      hide Screen;
  }

  /** Over any run of switches and stores to the visible screen, each terminal's 2048 characters are
      those of a screen of its own that only the stores made while it is shown can change. */
  lemma {:induction false} ScreensIndependent(m: seq<byte>, current: int, ops: seq<ScreenOp>)
    requires |m| >= MEMORY_TOP && 0 <= current < 3 && forall i :: 0 <= i < |ops| ==> Sound(ops[i])
    ensures var r, d := ApplyAll(m, current, ops), DrawAll(Pictured(m, current), current, ops);
            r.1 == d.1 && Pictured(r.0, r.1) == d.0
    decreases |ops|
  {
    if ops != [] {
      ApplyDraws(m, current, ops[0]);
      var r := Apply(m, current, ops[0]);
      hide Apply, Draw, Pictured;
      ScreensIndependent(r.0, r.1, ops[1..]);
    }
  }
}
