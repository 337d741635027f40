/** The line editor of keyboard.c: one 128-byte buffer per terminal, edited by the key handler and
    consumed by terminal_read. */
module LineBuffer {
  import opened Bytes

  const BUFFERSIZE := 128

  /** The pending line of each terminal. */
  type Pending = l: seq<seq<byte>> | |l| == NUM_TERMINALS witness [[], [], []]

  predicate Terminal(t: int) { 0 <= t < NUM_TERMINALS }

  /** Row `t` of the two-dimensional buffer. */
  function RowOf(b: seq<byte>, t: int): seq<byte>
    requires |b| == NUM_TERMINALS * BUFFERSIZE && Terminal(t)
  {
    b[BUFFERSIZE * t..BUFFERSIZE * t + BUFFERSIZE]
  }

  /** A line followed by zeros up to the end of the row. */
  function Padded(line: seq<byte>): (r: seq<byte>)
    requires |line| <= BUFFERSIZE
    ensures |r| == BUFFERSIZE
    ensures forall k {:trigger r[k]} :: 0 <= k < BUFFERSIZE ==> r[k] == if k < |line| then line[k] else 0
  {
    line + seq(BUFFERSIZE - |line|, _ => 0)
  }

  class Keyboard {
    const buffer: array<byte>          // keyboardbuffer[3][128]
    const index: array<int>            // bufferindex
    const enterFlag: array<bool>
    const readFlag: array<bool>

    ghost predicate Valid() {
      buffer.Length == NUM_TERMINALS * BUFFERSIZE &&
      index.Length == enterFlag.Length == readFlag.Length == NUM_TERMINALS && enterFlag != readFlag
    }

    /** The buffers hold these lines, zero padded, and the indices are their lengths. */
    ghost predicate Holds(lines: Pending)
      requires Valid()
      reads buffer, index
    {
      forall t :: 0 <= t < NUM_TERMINALS ==>
        |lines[t]| <= BUFFERSIZE && index[t] == |lines[t]| && RowOf(buffer[..], t) == Padded(lines[t])
    }

    constructor ()
      ensures Valid() && Holds([[], [], []])
      ensures fresh(buffer) && fresh(index) && fresh(enterFlag) && fresh(readFlag)
      ensures forall t :: 0 <= t < NUM_TERMINALS ==> !readFlag[t]
    {
      buffer := new byte[NUM_TERMINALS * BUFFERSIZE](_ => 0);
      index := new int[NUM_TERMINALS](_ => 0);
      enterFlag, readFlag := new bool[NUM_TERMINALS](_ => false), new bool[NUM_TERMINALS](_ => false);
    }

    /** One store into the buffer and the new index: the line of terminal `t` becomes `line`. */
    lemma Stored(was: seq<byte>, lines: Pending, t: int, line: seq<byte>)
      requires Valid() && Terminal(t) && |line| <= BUFFERSIZE && |was| == NUM_TERMINALS * BUFFERSIZE
      requires forall u :: 0 <= u < NUM_TERMINALS ==> |lines[u]| <= BUFFERSIZE && RowOf(was, u) == Padded(lines[u])
      requires forall u :: 0 <= u < NUM_TERMINALS ==> index[u] == if u == t then |line| else |lines[u]|
      requires RowOf(buffer[..], t) == Padded(line)
      requires forall k :: 0 <= k < |was| && !(BUFFERSIZE * t <= k < BUFFERSIZE * t + BUFFERSIZE) ==>
                 buffer[k] == was[k]
      ensures Holds(lines[t := line])
    {
      forall u | 0 <= u < NUM_TERMINALS && u != t ensures RowOf(buffer[..], u) == RowOf(was, u) {
      }
    }

    /** A printable key: appended, unless the line already has 128 characters. */
    method Key(c: byte, t: int, ghost lines: Pending)
      requires Valid() && Terminal(t) && Holds(lines) && c != 0
      modifies buffer, index
      ensures Holds(lines[t := Typed(lines[t], c)])
    {
      if index[t] >= BUFFERSIZE {
        assert lines[t := lines[t]] == lines;
        return;
      }
      ghost var was := buffer[..];
      buffer[BUFFERSIZE * t + index[t]] := c;
      index[t] := index[t] + 1;
      assert RowOf(buffer[..], t) == RowOf(was, t)[|lines[t]| := c];
      Stored(was, lines, t, lines[t] + [c]);
    }

    /** Backspace: the last character goes, and its place is cleared. */
    method Backspace(t: int, ghost lines: Pending)
      requires Valid() && Terminal(t) && Holds(lines)
      modifies buffer, index
      ensures Holds(lines[t := Erased(lines[t])])
    {
      ghost var was := buffer[..];
      if index[t] != 0 {
        index[t] := index[t] - 1;
      }
      buffer[BUFFERSIZE * t + index[t]] := 0;
      assert RowOf(buffer[..], t) == RowOf(was, t)[|Erased(lines[t])| := 0];
      Stored(was, lines, t, Erased(lines[t]));
    }

    /** clear_keyboard_buffer. */
    method Clear(t: int, ghost lines: Pending)
      requires Valid() && Terminal(t) && Holds(lines)
      modifies buffer, index
      ensures Holds(lines[t := []])
    {
      ghost var was := buffer[..];
      var i := 0;
      while i < BUFFERSIZE
        invariant 0 <= i <= BUFFERSIZE && index[..] == old(index[..])
        invariant forall k :: 0 <= k < buffer.Length ==>
                  buffer[k] == if BUFFERSIZE * t <= k < BUFFERSIZE * t + i then 0 else was[k]
        modifies buffer
      {
        buffer[BUFFERSIZE * t + i] := 0;
        i := i + 1;
      }
      index[t] := 0;
      Stored(was, lines, t, []);
    }

    /** Enter with room for the newline: it ends the line a reader waits for, or drops the line. */
    method Enter(t: int, ghost lines: Pending)
      requires Valid() && Terminal(t) && Holds(lines) && |lines[t]| < BUFFERSIZE
      modifies buffer, index, enterFlag
      ensures Holds(lines[t := if readFlag[t] then lines[t] + [NEWLINE] else []]) && enterFlag[t]
    {
      ghost var was := buffer[..];
      buffer[BUFFERSIZE * t + index[t]] := NEWLINE;
      index[t] := index[t] + 1;
      enterFlag[t] := true;
      assert RowOf(buffer[..], t) == RowOf(was, t)[|lines[t]| := NEWLINE];
      Stored(was, lines, t, lines[t] + [NEWLINE]);
      if !readFlag[t] {
        ghost var held: Pending := lines[t := lines[t] + [NEWLINE]];
        Clear(t, held);
        assert held[t := []] == lines[t := []];
      }
    }

    /** terminal_read up to its wait. */
    method StartRead(t: int)
      requires Valid() && Terminal(t)
      modifies enterFlag, readFlag
      ensures !enterFlag[t] && readFlag[t]
      ensures forall u :: 0 <= u < NUM_TERMINALS && u != t ==> readFlag[u] == old(readFlag[u])
    {
      enterFlag[t] := false;
      readFlag[t] := true;
    }

    /** terminal_read after Enter: as much of the line and its newline as was asked for, the rest of
        the request zeros, and the buffer emptied. */
    method FinishRead(t: int, buf: array<byte>, nbytes: nat, ghost lines: Pending, ghost line: seq<byte>)
      returns (r: int)
      requires Valid() && Terminal(t) && Holds(lines) && enterFlag[t]
      requires lines[t] == line + [NEWLINE] && NEWLINE !in line
      requires buf != buffer && nbytes <= buf.Length
      modifies buffer, index, readFlag, buf
      ensures r == Min(nbytes, |line| + 1) && buf[..r] == (line + [NEWLINE])[..r]
      ensures forall k :: r <= k < nbytes ==> buf[k] == 0
      ensures forall k :: nbytes <= k < buf.Length ==> buf[k] == old(buf[k])
      ensures Holds(lines[t := []]) && !readFlag[t]
      ensures forall u :: 0 <= u < NUM_TERMINALS && u != t ==> readFlag[u] == old(readFlag[u])
    {
      var i := 0;
      while i < nbytes
        invariant 0 <= i <= nbytes && forall k :: 0 <= k < i ==> buf[k] == 0
        invariant forall k :: nbytes <= k < buf.Length ==> buf[k] == old(buf[k])
        modifies buf
      {
        buf[i] := 0;
        i := i + 1;
      }
      r := CopyLine(t, buf, nbytes, lines, line);
      Clear(t, lines);
      readFlag[t] := false;
    }

    /** terminal_read's copying loop. */
    method CopyLine(t: int, buf: array<byte>, nbytes: nat, ghost lines: Pending, ghost line: seq<byte>) returns (r: int)
      requires Valid() && Terminal(t) && Holds(lines) && lines[t] == line + [NEWLINE] && NEWLINE !in line
      requires buf != buffer && nbytes <= buf.Length && forall k :: 0 <= k < nbytes ==> buf[k] == 0
      modifies buf
      ensures r == Min(nbytes, |line| + 1) && buf[..r] == (line + [NEWLINE])[..r]
      ensures forall k :: r <= k < nbytes ==> buf[k] == 0
      ensures forall k :: nbytes <= k < buf.Length ==> buf[k] == old(buf[k])
    {
      ghost var text := line + [NEWLINE];
      assert RowOf(buffer[..], t) == Padded(text);
      assert forall k :: 0 <= k < |text| ==> buffer[BUFFERSIZE * t + k] == RowOf(buffer[..], t)[k];
      r := 0;
      while r < nbytes
        invariant 0 <= r <= nbytes && r <= |line|
        invariant forall k :: 0 <= k < r ==> buf[k] == text[k]
        invariant forall k :: r <= k < nbytes ==> buf[k] == 0
        invariant forall k :: nbytes <= k < buf.Length ==> buf[k] == old(buf[k])
      {
        assert buffer[BUFFERSIZE * t + r] == RowOf(buffer[..], t)[r] == text[r];
        buf[r] := buffer[BUFFERSIZE * t + r];
        r := r + 1;
        if buffer[BUFFERSIZE * t + (r - 1)] == NEWLINE {
          break;
        }
      }
    }

    // -------------------------------------------------------- runs

    /** The buffers hold the pending texts, and the read flags say who waits. */
    ghost predicate Sees(vs: Views)
      requires Valid()
      reads buffer, index, readFlag
    {
      Holds(Texts(vs)) && forall t :: 0 <= t < NUM_TERMINALS ==> readFlag[t] == vs[t].waiting.Some?
    }

    /** Enter, and the waiting reader's terminal_read to its end. */
    method EnterAndRead(t: int, nbytes: nat, ghost lines: Pending) returns (line: Option<seq<byte>>)
      requires Valid() && Terminal(t) && Holds(lines) && |lines[t]| < BUFFERSIZE && NEWLINE !in lines[t]
      modifies buffer, index, enterFlag, readFlag
      ensures Holds(lines[t := []]) && !readFlag[t]
      ensures forall u :: 0 <= u < NUM_TERMINALS && u != t ==> readFlag[u] == old(readFlag[u])
      ensures line == if old(readFlag[t]) then Some(Answer(lines[t], nbytes)) else None
    {
      Enter(t, lines);
      line := None;
      if readFlag[t] {
        var buf := new byte[nbytes];
        ghost var held: Pending := lines[t := lines[t] + [NEWLINE]];
        var r := FinishRead(t, buf, nbytes, held, lines[t]);
        assert held[t := []] == lines[t := []];
        line := Some(buf[..r]);
      }
    }

    /** One event on the shown terminal `t`. A waiting reader takes its line before the next event, as
        the spinning terminal_read does; `line` is what it hands out. */
    method Handle(e: KeyEvent, t: int, nbytes: nat, ghost vs: Views) returns (line: Option<seq<byte>>)
      requires Valid() && Terminal(t) && Sees(vs) && Fits(vs[t], e) && NEWLINE !in vs[t].text
      requires vs[t].waiting.Some? ==> nbytes == vs[t].waiting.value
      modifies buffer, index, enterFlag, readFlag
      ensures Sees(Press(vs, t, e)) && NEWLINE !in Press(vs, t, e)[t].text
      ensures Press(vs, t, e)[t].got == if line.Some? then vs[t].got + [line.value] else vs[t].got
    {
      hide Holds;
      line := None;
      ghost var texts := Texts(vs);
      match e {
        case Type(c) => Key(c, t, texts);
        case Erase => Backspace(t, texts);
        case Return =>
          line := EnterAndRead(t, nbytes, texts);
        case Await(_) => StartRead(t);
        case Focus(_) =>
      }
      assert Texts(Press(vs, t, e)) == texts[t := Edit(vs[t], e).text];
      assert texts[t := texts[t]] == texts;
    }

    /** Any run of keys, reads and changes of terminal in which no Enter finds 128 characters pending:
        every terminal ends with the pending text, the waiting reader and the delivered lines that the
        pure editor gives for its own events alone. */
    method RunKeys(es: seq<KeyEvent>, start: int, ghost vs: Views) returns (current: int, got: seq<seq<seq<byte>>>)
      requires Valid() && Terminal(start) && Sees(vs) && RunFits(vs, start, es)
      requires forall t :: 0 <= t < NUM_TERMINALS ==> vs[t].waiting == None && vs[t].got == [] && NEWLINE !in vs[t].text
      modifies buffer, index, enterFlag, readFlag
      ensures current == Shown(start, es) && |got| == NUM_TERMINALS
      ensures Sees(Ends(vs, start, es))
      ensures forall t :: 0 <= t < NUM_TERMINALS ==> got[t] == Ends(vs, start, es)[t].got
    {
      hide Sees, RunFits, Press, Fits, Ends, Shown, Own, AllFit, EditAll;
      assert es[0..] == es;
      current, got := start, [[], [], []];
      var asked: seq<nat> := [0, 0, 0];
      var i := 0;
      ghost var now := vs;
      while i < |es|
        invariant 0 <= i <= |es| && Terminal(current) && |got| == |asked| == NUM_TERMINALS
        invariant Sees(now) && RunFits(now, current, es[i..])
        invariant Ends(now, current, es[i..]) == Ends(vs, start, es) && Shown(current, es[i..]) == Shown(start, es)
        invariant forall t :: 0 <= t < NUM_TERMINALS ==>
                  got[t] == now[t].got && NEWLINE !in now[t].text &&
                  (now[t].waiting.Some? ==> asked[t] == now[t].waiting.value)
      {
        var e := es[i];
        ghost var rest := es[i..];
        assert rest[0] == e && rest[1..] == es[i + 1..];
        EndsSplits(now, current, rest);
        RestFits(now, current, rest);
        PressFrame(now, current, e);
        var line := Handle(e, current, asked[current], now);
        now := Press(now, current, e);
        if line.Some? {
          got := got[current := got[current] + [line.value]];
        }
        match e {
          case Await(nbytes) => asked := asked[current := nbytes];
          case Focus(t) => current := t;
          case _ =>
        }
        i := i + 1;
      }
      RunOver(now, current, es[i..]);
    }
  }

  // ------------------------------------------------------------ one terminal's view

  function Typed(line: seq<byte>, c: byte): seq<byte> {
    if |line| < BUFFERSIZE then line + [c] else line
  }

  function Erased(line: seq<byte>): seq<byte> {
    if line == [] then [] else line[..|line| - 1]
  }

  /** A key pressed on the shown terminal, a call of terminal_read by its program (for `nbytes`
      bytes), or a change of the shown terminal. */
  datatype KeyEvent = Type(c: byte) | Erase | Return | Await(nbytes: nat) | Focus(t: int)

  /** What one terminal sees: its pending text, the reader waiting for it, and the lines handed out. */
  datatype View = View(text: seq<byte>, waiting: Option<nat>, got: seq<seq<byte>>)

  /** The bytes terminal_read hands out for a line. */
  function Answer(text: seq<byte>, nbytes: nat): (r: seq<byte>)
    ensures |r| == Min(nbytes, |text| + 1)
  {
    (text + [NEWLINE])[..Min(nbytes, |text| + 1)]
  }

  /** The pure line editor. */
  function Edit(v: View, e: KeyEvent): View {
    match e
    case Type(c) => v.(text := Typed(v.text, c))
    case Erase => v.(text := Erased(v.text))
    case Return =>
      if v.waiting.None? then v.(text := []) else View([], None, v.got + [Answer(v.text, v.waiting.value)])
    case Await(nbytes) => v.(waiting := Some(nbytes))
    case Focus(_) => v
  }

  function EditAll(v: View, es: seq<KeyEvent>): View
    decreases |es|
  {
    if es == [] then v else EditAll(Edit(v, es[0]), es[1..])
  }

  /** The events that terminal `t` itself sees, when `current` is shown first. */
  function Own(t: int, current: int, es: seq<KeyEvent>): seq<KeyEvent>
    decreases |es|
  {
    if es == [] then []
    else if es[0].Focus? then Own(t, es[0].t, es[1..])
    else (if current == t then [es[0]] else []) + Own(t, current, es[1..])
  }

  /** The terminal shown after the events. */
  function Shown(current: int, es: seq<KeyEvent>): int
    decreases |es|
  {
    if es == [] then current else Shown(if es[0].Focus? then es[0].t else current, es[1..])
  }

  /** Keys carry characters other than NUL and the newline, terminals exist, and the terminal that
      gets an Enter has at most 127 characters pending. */
  predicate Fits(v: View, e: KeyEvent) {
    match e
    case Type(c) => c != 0 && c != NEWLINE
    case Return => |v.text| < BUFFERSIZE
    case Await(_) => v.waiting.None?
    case Focus(t) => Terminal(t)
    case Erase => true
  }

  predicate AllFit(v: View, es: seq<KeyEvent>)
    decreases |es|
  {
    es == [] || (Fits(v, es[0]) && AllFit(Edit(v, es[0]), es[1..]))
  }

  type Views = vs: seq<View> | |vs| == NUM_TERMINALS witness seq(NUM_TERMINALS, _ => View([], None, []))

  /** Every terminal's own events fit, and only existing terminals are shown. */
  ghost predicate RunFits(vs: Views, current: int, es: seq<KeyEvent>) {
    (forall i :: 0 <= i < |es| ==> es[i].Focus? ==> Terminal(es[i].t)) &&
    forall t :: 0 <= t < NUM_TERMINALS ==> AllFit(vs[t], Own(t, current, es))
  }

  /** One event, seen by the shown terminal only. */
  function Press(vs: Views, current: int, e: KeyEvent): Views
    requires Terminal(current)
  {
    vs[current := Edit(vs[current], e)]
  }

  function Texts(vs: Views): (r: Pending)
    ensures forall t :: 0 <= t < NUM_TERMINALS ==> r[t] == vs[t].text
  {
    [vs[0].text, vs[1].text, vs[2].text]
  }

  /** Every terminal's view after a run: the pure editor applied to its own events. */
  function Ends(vs: Views, current: int, es: seq<KeyEvent>): (r: Views)
    ensures forall t :: 0 <= t < NUM_TERMINALS ==> r[t] == EditAll(vs[t], Own(t, current, es))
  {
    seq(NUM_TERMINALS, t requires 0 <= t < NUM_TERMINALS => EditAll(vs[t], Own(t, current, es)))
  }

  lemma EndsSplits(vs: Views, current: int, es: seq<KeyEvent>)
    requires Terminal(current) && es != [] && RunFits(vs, current, es)
    ensures var e := es[0];
            var next := if e.Focus? then e.t else current;
            Terminal(next) && Fits(vs[current], e) && Shown(current, es) == Shown(next, es[1..]) &&
            Ends(vs, current, es) == Ends(Press(vs, current, e), next, es[1..])
  {
    forall t | 0 <= t < NUM_TERMINALS
      ensures Ends(vs, current, es)[t] ==
              Ends(Press(vs, current, es[0]), if es[0].Focus? then es[0].t else current, es[1..])[t]
    {
      RunSplits(vs, current, es, t);
    }
    RunSplits(vs, current, es, current);
  }

  lemma RunOver(vs: Views, current: int, es: seq<KeyEvent>)
    requires es == []
    ensures Ends(vs, current, es) == vs && Shown(current, es) == current
  {
  }

  /** What a press leaves alone. */
  lemma PressFrame(vs: Views, t: int, e: KeyEvent)
    requires Terminal(t)
    ensures forall u :: 0 <= u < NUM_TERMINALS && u != t ==> Press(vs, t, e)[u] == vs[u]
    ensures var w := Press(vs, t, e)[t].waiting;
            w.Some? ==> if e.Await? then w.value == e.nbytes else vs[t].waiting == w
  {
  }

  /** The run's first event, and the rest of the run. */
  lemma RunSplits(vs: Views, current: int, es: seq<KeyEvent>, t: int)
    requires Terminal(current) && Terminal(t) && es != [] && RunFits(vs, current, es)
    ensures var e := es[0];
            var next := if e.Focus? then e.t else current;
            Terminal(next) && Fits(vs[current], e) && Shown(current, es) == Shown(next, es[1..]) &&
            EditAll(vs[t], Own(t, current, es)) == EditAll(Press(vs, current, e)[t], Own(t, next, es[1..])) &&
            AllFit(Press(vs, current, e)[t], Own(t, next, es[1..]))
  {
    var e := es[0];
    assert e.Focus? ==> Terminal(e.t);
    assert AllFit(vs[t], Own(t, current, es)) && AllFit(vs[current], Own(current, current, es));
    if !e.Focus? {
      var mine := Own(current, current, es);
      assert mine[0] == e && mine[1..] == Own(current, current, es[1..]);
      if t != current {
        assert Own(t, current, es) == Own(t, current, es[1..]);
      }
    }
  }

  lemma RestFits(vs: Views, current: int, es: seq<KeyEvent>)
    requires Terminal(current) && es != [] && RunFits(vs, current, es)
    ensures RunFits(Press(vs, current, es[0]), if es[0].Focus? then es[0].t else current, es[1..])
  {
    forall t | 0 <= t < NUM_TERMINALS
      ensures AllFit(Press(vs, current, es[0])[t], Own(t, if es[0].Focus? then es[0].t else current, es[1..]))
    {
      RunSplits(vs, current, es, t);
    }
  }

  function Typing(text: seq<byte>): (r: seq<KeyEvent>)
    ensures |r| == |text| && forall i {:trigger r[i]} :: 0 <= i < |text| ==> r[i] == Type(text[i])
  {
    seq(|text|, i requires 0 <= i < |text| => Type(text[i]))
  }

  /** As many Backspaces as characters take a typed text away again; one more takes the character before
      it, and on an empty line does nothing. */
  lemma {:induction false} BackspacesUndo(v: View, text: seq<byte>)
    requires |v.text| + |text| <= BUFFERSIZE
    ensures EditAll(v, Typing(text) + seq(|text|, _ => Erase)) == v
    ensures Edit(v, Erase).text == if v.text == [] then [] else v.text[..|v.text| - 1]
    decreases |text|
  {
    if text == [] {
      assert Typing(text) + seq(|text|, _ => Erase) == [];
    } else {
      var rest := text[1..];
      var all := Typing(text) + seq(|text|, _ => Erase);
      var inner := Typing(rest) + seq(|rest|, _ => Erase);
      assert all[1..] == inner + [Erase];
      var v1 := Edit(v, Type(text[0]));
      BackspacesUndo(v1, rest);
      EditsAppend(v1, inner, [Erase]);
      assert EditAll(v1, [Erase]) == EditAll(Edit(v1, Erase), [Erase][1..]) == Edit(v1, Erase);
    }
  }

  lemma {:induction false} EditsAppend(v: View, a: seq<KeyEvent>, b: seq<KeyEvent>)
    ensures EditAll(v, a + b) == EditAll(EditAll(v, a), b)
    decreases |a|
  {
    if a == [] {
      assert a + b == b;
    } else {
      assert (a + b)[1..] == a[1..] + b;
      EditsAppend(Edit(v, a[0]), a[1..], b);
    }
  }

  /** A reader that waits while up to 127 characters are typed and Enter is pressed gets exactly what
      was typed and the newline, cut to its request; the editor is then empty again. */
  lemma {:induction false} TypedLineDelivered(v: View, text: seq<byte>, nbytes: nat)
    requires |v.text| + |text| <= BUFFERSIZE && v.waiting == Some(nbytes)
    ensures EditAll(v, seq(|text|, i requires 0 <= i < |text| => Type(text[i])) + [Return]) ==
            View([], None, v.got + [Answer(v.text + text, nbytes)])
    decreases |text|
  {
    var es := seq(|text|, i requires 0 <= i < |text| => Type(text[i])) + [Return];
    if text == [] {
      assert es == [Return] && es[1..] == [] && v.text + text == v.text;
    } else {
      var rest := text[1..];
      assert es[1..] == seq(|rest|, i requires 0 <= i < |rest| => Type(rest[i])) + [Return];
      TypedLineDelivered(Edit(v, es[0]), rest, nbytes);
      assert v.text + [text[0]] + rest == v.text + text;
    }
  }

  /** Enter stores its newline at bufferindex. The newline stays in the terminal's own row exactly when
      fewer than 128 characters are pending; at 128 it lands in the first byte of the next terminal's
      row or, for the last terminal, behind the whole array. */
  lemma EnterInBounds(t: int, n: nat)
    requires Terminal(t) && n <= BUFFERSIZE
    ensures n < BUFFERSIZE <==>
            BUFFERSIZE * t + n < NUM_TERMINALS * BUFFERSIZE &&
            forall b: seq<byte>, u :: |b| == NUM_TERMINALS * BUFFERSIZE && Terminal(u) && u != t ==>
              RowOf(b[BUFFERSIZE * t + n := NEWLINE], u) == RowOf(b, u)
  {
    if n == BUFFERSIZE && t < 2 {
      var b: seq<byte> := seq(NUM_TERMINALS * BUFFERSIZE, _ => 0);
      var b' := b[BUFFERSIZE * t + n := NEWLINE];
      assert RowOf(b', t + 1)[0] == NEWLINE && RowOf(b, t + 1)[0] == 0;
      assert RowOf(b[BUFFERSIZE * t + n := NEWLINE], t + 1) != RowOf(b, t + 1);
    } else if n < BUFFERSIZE {
      forall b: seq<byte>, u | |b| == NUM_TERMINALS * BUFFERSIZE && Terminal(u) && u != t
        ensures RowOf(b[BUFFERSIZE * t + n := NEWLINE], u) == RowOf(b, u)
      {
      }
    }
  }
}
