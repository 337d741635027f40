/** The three terminals: terminal_write, term_putc on the shown terminal, and terminal_switch's exchange
    of screens, together. */
module Terminals {
  import opened Bytes
  import opened Paging
  import opened Console
  import Screens
  import LineBuffer

  const ROW := LineBuffer.BUFFERSIZE
  const MEMORY_TOP := Screens.MEMORY_TOP

  // ------------------------------------------------------------ characters

  /** Character `c` of row `r` of terminal `t`'s screen, row 25 being the one below it. Of that row the
      first 48 characters move with the terminal; the rest lie past what a switch copies. */
  function GlyphAt(m: seq<byte>, t: int, current: int, r: int, c: int): byte
    requires |m| >= MEMORY_TOP && 0 <= t < 3 && 0 <= r <= NUM_ROWS && 0 <= c < NUM_COLS
  {
    var i := NUM_COLS * r + c;
    if i < Screens.CELLS then m[Screens.ScreenBase(t, current) + 2 * i] else m[VIDMEM + 2 * i]
  }

  /** The character the history has there. */
  function WantedAt(h: History, r: int, c: int): byte
    requires Proper(h) && 0 <= r <= NUM_ROWS && 0 <= c < NUM_COLS
  {
    if r < NUM_ROWS then Window(h)[r][c].ch else h.below[c].ch
  }

  /** Terminal `t`'s characters and cursor are the end of the history. */
  ghost predicate TextShown(m: seq<byte>, t: int, current: int, x: int, y: int, h: History) {
    |m| >= MEMORY_TOP && 0 <= t < 3 && Proper(h) && x == h.x && y == h.y - (|h.rows| - NUM_ROWS) &&
    forall r, c :: 0 <= r <= NUM_ROWS && 0 <= c < NUM_COLS ==> GlyphAt(m, t, current, r, c) == WantedAt(h, r, c)
  }

  /** The same characters; attributes may differ. */
  ghost predicate SameText(g: History, h: History) {
    Proper(g) && Proper(h) && g.x == h.x && g.y == h.y && |g.rows| == |h.rows| &&
    (forall c :: 0 <= c < NUM_COLS ==> g.below[c].ch == h.below[c].ch) &&
    forall i, c :: 0 <= i < |g.rows| && 0 <= c < NUM_COLS ==> g.rows[i][c].ch == h.rows[i][c].ch
  }

  lemma PutSameText(g: History, h: History, c: byte)
    requires SameText(g, h)
    ensures SameText(Put(g, c), Put(h, c))
  {
  }

  /** terminal_write leaves out a line feed at the start of a line. */
  function WriteOne(h: History, c: byte): (r: History)
    requires Proper(h)
    ensures Proper(r)
  {
    if c == NEWLINE && h.x == 0 then h else Put(h, c)
  }

  function WriteAll(h: History, text: seq<byte>): (r: History)
    requires Proper(h)
    ensures Proper(r)
    decreases |text|
  {
    if text == [] then h else WriteOne(WriteAll(h, text[..|text| - 1]), text[|text| - 1])
  }

  lemma {:induction false} WriteSameText(g: History, h: History, text: seq<byte>)
    requires SameText(g, h)
    ensures SameText(WriteAll(g, text), WriteAll(h, text))
    decreases |text|
  {
    if text != [] {
      var before := text[..|text| - 1];
      WriteSameText(g, h, before);
      hide SameText, Put;
      TextCursor(WriteAll(g, before), WriteAll(h, before));
      PutSameText(WriteAll(g, before), WriteAll(h, before), text[|text| - 1]);
    }
  }

  lemma TextCursor(g: History, h: History)
    requires SameText(g, h)
    ensures g.x == h.x
  {
  }

  /** The column after a text that starts in column `x`. */
  function ColumnAfter(x: nat, text: seq<byte>): (c: nat)
    requires x < NUM_COLS
    ensures c < NUM_COLS
    decreases |text|
  {
    if text == [] then x else
    var c := ColumnAfter(x, text[..|text| - 1]);
    if Breaks(text[|text| - 1]) || c + 1 == NUM_COLS then 0 else c + 1
  }

  /** The text without the line feeds that fall on the start of a line. */
  function Kept(x: nat, text: seq<byte>): seq<byte>
    requires x < NUM_COLS
    decreases |text|
  {
    if text == [] then [] else
    var front, c := text[..|text| - 1], text[|text| - 1];
    if c == NEWLINE && ColumnAfter(x, front) == 0 then Kept(x, front) else Kept(x, front) + [c]
  }

  /** A written text is what term_putc prints of the text without those line feeds. */
  lemma {:induction false} WritePrints(h: History, text: seq<byte>)
    requires Proper(h)
    ensures WriteAll(h, text) == PutAll(h, Kept(h.x, text)) && WriteAll(h, text).x == ColumnAfter(h.x, text)
    decreases |text|
  {
    if text != [] {
      var front, c := text[..|text| - 1], text[|text| - 1];
      WritePrints(h, front);
      assert (Kept(h.x, front) + [c])[..|Kept(h.x, front)|] == Kept(h.x, front);
    }
  }

  /** On a cleared screen the written text appears wrapped at 80 columns. */
  lemma WriteWraps(text: seq<byte>, below: Row)
    requires |below| == NUM_COLS
    ensures WriteAll(Page(Lines([], []), below), text) == Page(Wrap(Kept(0, text)), below)
  {
    WritePrints(Page(Lines([], []), below), text);
    FromNothing(Kept(0, text), below);
    hide Wrap, WriteAll, PutAll;
  }

  // ------------------------------------------------------------ attributes

  /** The history with the cells that are really in memory. */
  function Recoloured(m: seq<byte>, h: History): History
    requires |m| >= MEMORY_TOP && Proper(h)
  {
    h.(rows := h.rows[..|h.rows| - NUM_ROWS] + ScreenRows(m), below := HiddenRow(m))
  }

  lemma RecolouredShows(m: seq<byte>, t: int, x: int, y: int, h: History)
    requires TextShown(m, t, t, x, y, h)
    ensures var g := Recoloured(m, h);
            SameText(g, h) && ScreenRows(m) == Window(g) && HiddenRow(m) == g.below
  {
    var g, n := Recoloured(m, h), |h.rows| - NUM_ROWS;
    forall i, c | 0 <= i < |g.rows| && 0 <= c < NUM_COLS ensures g.rows[i][c].ch == h.rows[i][c].ch {
      if i >= n {
        assert GlyphAt(m, t, t, i - n, c) == WantedAt(h, i - n, c);
      }
    }
    forall c | 0 <= c < NUM_COLS ensures g.below[c].ch == h.below[c].ch {
      assert GlyphAt(m, t, t, NUM_ROWS, c) == WantedAt(h, NUM_ROWS, c);
    }
    assert Window(g) == ScreenRows(m);
  }

  /** What the console shows is what is seen. */
  lemma ShownText(m: seq<byte>, t: int, x: int, y: int, g: History, h: History)
    requires |m| >= MEMORY_TOP && 0 <= t < 3 && SameText(g, h)
    requires ScreenRows(m) == Window(g) && HiddenRow(m) == g.below && x == g.x && y == g.y - (|g.rows| - NUM_ROWS)
    ensures TextShown(m, t, t, x, y, h)
  {
    forall r, c | 0 <= r <= NUM_ROWS && 0 <= c < NUM_COLS ensures GlyphAt(m, t, t, r, c) == WantedAt(h, r, c) {
      if r < NUM_ROWS {
        assert ScreenRows(m)[r][c].ch == Window(g)[r][c].ch == g.rows[|g.rows| - NUM_ROWS + r][c].ch;
      }
    }
  }

  /** Printing on the shown terminal leaves the others as they are. */
  lemma OthersShown(m: seq<byte>, m': seq<byte>, u: int, current: int, x: int, y: int, h: History)
    requires TextShown(m, u, current, x, y, h) && u != current && SameElsewhere(m, m')
    ensures TextShown(m', u, current, x, y, h)
  {
    forall r, c | 0 <= r <= NUM_ROWS && 0 <= c < NUM_COLS
      ensures GlyphAt(m', u, current, r, c) == GlyphAt(m, u, current, r, c) {
    }
  }

  /** A switch moves the screens about; every terminal keeps its characters, the row below included. */
  lemma SwitchKeepsText(m: seq<byte>, from: int, to: int, t: int, x: int, y: int, h: History)
    requires TextShown(m, t, from, x, y, h) && 0 <= from < 3 && 0 <= to < 3 && from != to
    ensures TextShown(Screens.Switched(m, from, to), t, to, x, y, h)
  {
    var m' := Screens.Switched(m, from, to);
    forall r, c | 0 <= r <= NUM_ROWS && 0 <= c < NUM_COLS
      ensures GlyphAt(m', t, to, r, c) == GlyphAt(m, t, from, r, c) {
      var i := NUM_COLS * r + c;
      if i < Screens.CELLS {
        Screens.SwitchedCell(m, from, to, t, i);
      } else {
        Screens.SwitchedTail(m, from, to, i);
      }
    }
  }

  // ------------------------------------------------------------ terminal_write

  /** Writing `bs` from the start of row `t` on leaves the other rows alone. */
  ghost predicate RowsKept(b: seq<byte>, t: int, bs: seq<byte>)
    requires LineBuffer.Terminal(t) && |b| == NUM_TERMINALS * ROW && ROW * t + |bs| <= |b|
  {
    forall u :: 0 <= u < NUM_TERMINALS && u != t ==>
        LineBuffer.RowOf(Splice(b, ROW * t, bs), u) == LineBuffer.RowOf(b, u)
  }

  /** The text of a write stays in its terminal's row exactly when it has at most 128 characters; a longer
      one runs into the next rows and, with more than 128 * (3 - t) characters, behind the array. */
  lemma WriteInBounds(t: int, n: nat)
    requires LineBuffer.Terminal(t)
    ensures n <= ROW <==>
            ROW * t + n <= NUM_TERMINALS * ROW &&
            forall b: seq<byte>, bs: seq<byte> :: |b| == NUM_TERMINALS * ROW && |bs| == n ==> RowsKept(b, t, bs)
    ensures n <= ROW * (NUM_TERMINALS - t) <==> ROW * t + n <= NUM_TERMINALS * ROW
  {
    if n <= ROW {
      forall b: seq<byte>, bs: seq<byte> | |b| == NUM_TERMINALS * ROW && |bs| == n ensures RowsKept(b, t, bs) {
      }
    } else if ROW * t + n <= NUM_TERMINALS * ROW {
      var b: seq<byte>, bs: seq<byte> := seq(NUM_TERMINALS * ROW, _ => 0), seq(n, _ => 1);
      assert LineBuffer.RowOf(Splice(b, ROW * t, bs), t + 1)[0] == 1 && LineBuffer.RowOf(b, t + 1)[0] == 0;
      assert !RowsKept(b, t, bs);
    }
  }

  /** A character printed, a text written, or a change of the shown terminal. */
  datatype TermOp = Putc(c: byte) | Write(text: seq<byte>) | Show(to: int)

  function Edit(h: History, op: TermOp): (r: History)
    requires Proper(h)
    ensures Proper(r)
  {
    match op
    case Putc(c) => Put(h, c)
    case Write(text) => WriteAll(h, text)
    case Show(_) => h
  }

  function EditAll(h: History, ops: seq<TermOp>): (r: History)
    requires Proper(h)
    ensures Proper(r)
    decreases |ops|
  {
    if ops == [] then h else EditAll(Edit(h, ops[0]), ops[1..])
  }

  /** The operations made while terminal `t` is shown. */
  function Own(t: int, current: int, ops: seq<TermOp>): seq<TermOp>
    decreases |ops|
  {
    if ops == [] then []
    else if ops[0].Show? then Own(t, ops[0].to, ops[1..])
    else (if current == t then [ops[0]] else []) + Own(t, current, ops[1..])
  }

  function Shown(current: int, ops: seq<TermOp>): int
    decreases |ops|
  {
    if ops == [] then current else Shown(if ops[0].Show? then ops[0].to else current, ops[1..])
  }

  /** Terminals exist, and every written text fits behind the start of its terminal's row. */
  predicate Fits(current: int, ops: seq<TermOp>)
    decreases |ops|
  {
    0 <= current < 3 &&
    (ops == [] ||
     ((ops[0].Write? ==> |ops[0].text| <= ROW * (NUM_TERMINALS - current)) &&
      Fits(if ops[0].Show? then ops[0].to else current, ops[1..])))
  }

  class Terminals {
    const con: Console
    const writebuffer: array<byte>     // writebuffer[3][128]
    const writeindex: array<int>
    var current: int

    ghost predicate Valid()
      reads this
    {
      con.Valid() && con.mem.Length >= MEMORY_TOP && 0 <= current < 3 &&
      writebuffer.Length == NUM_TERMINALS * ROW && writebuffer != con.mem &&
      writeindex.Length == NUM_TERMINALS && writeindex != con.screenX && writeindex != con.screenY
    }

    /** All three terminals show the ends of these histories. */
    ghost predicate Sees(hs: seq<History>)
      requires Valid()
      reads this, con.mem, con.screenX, con.screenY
    {
      |hs| == 3 && forall t :: 0 <= t < 3 ==> TextShown(con.mem[..], t, current, con.screenX[t], con.screenY[t], hs[t])
    }

    /** The console of a freshly mapped memory, every cursor at the upper left. */
    constructor (mem: array<byte>)
      requires mem.Length >= MEMORY_TOP
      ensures Valid() && con.mem == mem && current == 0 && fresh(con.screenX) && fresh(con.screenY)
      ensures fresh(writebuffer) && fresh(writeindex)
    {
      con := new Console(mem);
      writebuffer, writeindex := new byte[NUM_TERMINALS * ROW](_ => 0), new int[NUM_TERMINALS](_ => 0);
      current := 0;
    }

    /** terminal_write for a text that fits. It returns one more than the number of characters. */
    method TerminalWrite(isNull: bool, buf: seq<byte>, nbytes: int32, ghost g: History) returns (r: int)
      requires Valid() && con.Shows(current, g)
      requires !isNull && nbytes >= 0 ==> nbytes <= |buf| && nbytes <= ROW * (NUM_TERMINALS - current)
      modifies writebuffer, writeindex, con.mem, con.screenX, con.screenY
      ensures isNull || nbytes < 0 ==>
                r == -1 && con.Shows(current, g) && con.mem[..] == old(con.mem[..]) &&
                writebuffer[..] == old(writebuffer[..])
      ensures !isNull && nbytes >= 0 ==>
                r == nbytes + 1 && con.Shows(current, WriteAll(g, buf[..nbytes])) && writeindex[current] == nbytes &&
                writebuffer[..] == Splice(old(writebuffer[..]), ROW * current, buf[..nbytes])
      ensures SameElsewhere(old(con.mem[..]), con.mem[..])
      ensures forall u :: 0 <= u < 3 && u != current ==>
                con.screenX[u] == old(con.screenX[u]) && con.screenY[u] == old(con.screenY[u])
    {
      if isNull || nbytes < 0 {
        r := -1;
      } else {
        ClearRow(nbytes);
        WriteText(buf, nbytes, g);
        r := nbytes + 1;
      }
    }

    /** The clearing loop. */
    method ClearRow(n: nat)
      requires Valid() && n <= ROW * (NUM_TERMINALS - current)
      modifies writebuffer
      ensures writebuffer[..] == Splice(old(writebuffer[..]), ROW * current, seq(n, _ => 0))
    {
      ghost var was := writebuffer[..];
      var i := 0;
      while i < n
        invariant 0 <= i <= n
        invariant forall k :: 0 <= k < writebuffer.Length ==>
                  writebuffer[k] == if ROW * current <= k < ROW * current + i then 0 else was[k]
      {
        writebuffer[ROW * current + i] := 0;
        i := i + 1;
      }
    }

    /** The writing loop. */
    method WriteText(buf: seq<byte>, n: nat, ghost g: History)
      requires Valid() && con.Shows(current, g) && n <= |buf| && n <= ROW * (NUM_TERMINALS - current)
      modifies writebuffer, writeindex, con.mem, con.screenX, con.screenY
      ensures con.Shows(current, WriteAll(g, buf[..n])) && writeindex[current] == n
      ensures writebuffer[..] == Splice(old(writebuffer[..]), ROW * current, buf[..n])
      ensures SameElsewhere(old(con.mem[..]), con.mem[..])
      ensures forall u :: 0 <= u < 3 && u != current ==>
                con.screenX[u] == old(con.screenX[u]) && con.screenY[u] == old(con.screenY[u])
    {
      ghost var was, wasMem := writebuffer[..], con.mem[..];
      SameElsewhereTrans(wasMem, wasMem, wasMem);
      assert Proper(g);
      hide SameElsewhere, Splice;
      writeindex[current] := 0;
      var i := 0;
      SpliceNothing(was, ROW * current);
      assert buf[..0] == [];
      while i < n
        invariant 0 <= i <= n && writeindex[current] == i
        invariant con.Shows(current, WriteAll(g, buf[..i])) && SameElsewhere(wasMem, con.mem[..])
        invariant writebuffer[..] == Splice(was, ROW * current, buf[..i])
        invariant forall u :: 0 <= u < 3 && u != current ==>
                  con.screenX[u] == old(con.screenX[u]) && con.screenY[u] == old(con.screenY[u])
      {
        WriteChar(buf[i], i, was, buf[..i]);
        ghost var before := con.mem[..];
        assert buf[..i + 1] == buf[..i] + [buf[i]];
        PutChar(buf[i], WriteAll(g, buf[..i]));
        SameElsewhereTrans(wasMem, before, con.mem[..]);
        i := i + 1;
      }
    }

    /** One store into the row. */
    method WriteChar(c: byte, i: nat, ghost was: seq<byte>, ghost text: seq<byte>)
      requires Valid() && i == |text| && ROW * current + i < writebuffer.Length == |was| && writeindex[current] == i
      requires writebuffer[..] == Splice(was, ROW * current, text)
      modifies writebuffer, writeindex
      ensures writebuffer[..] == Splice(was, ROW * current, text + [c]) && writeindex[current] == i + 1
    {
      writebuffer[ROW * current + i] := c;
      writeindex[current] := writeindex[current] + 1;
    }

    /** term_putc handles everything but a line feed at the start of a line. */
    method PutChar(c: byte, ghost g: History)
      requires Valid() && con.Shows(current, g)
      modifies con.mem, con.screenX, con.screenY
      ensures con.Shows(current, WriteOne(g, c)) && SameElsewhere(old(con.mem[..]), con.mem[..])
      ensures forall u :: 0 <= u < 3 && u != current ==>
                con.screenX[u] == old(con.screenX[u]) && con.screenY[u] == old(con.screenY[u])
    {
      assert con.screenX[current] == g.x;
      SameElsewhereTrans(con.mem[..], con.mem[..], con.mem[..]);
      hide SameElsewhere, Console.Shows;
      if c != NEWLINE || con.screenX[current] != 0 {
        con.TermPutc(c, current, g);
      }
    }

    /** The screens' part of terminal_switch. */
    method Switch(to: int, ghost hs: seq<History>)
      requires Valid() && Sees(hs) && 0 <= to < 3
      modifies this`current, con.mem
      ensures Valid() && current == to && Sees(hs)
    {
      if to != current {
        ghost var was, from := con.mem[..], current;
        Screens.SwitchVideo(con.mem, current, to, Screens.BufferAt(current), VIDMEM, Screens.BufferAt(to));
        current := to;
        forall t | 0 <= t < 3
          ensures TextShown(con.mem[..], t, current, con.screenX[t], con.screenY[t], hs[t])
        {
          SwitchKeepsText(was, from, to, t, con.screenX[t], con.screenY[t], hs[t]);
        }
      }
    }

    /** Whatever was printed on the shown terminal, the other two are as before. */
    lemma AfterPrint(was: seq<byte>, hs: seq<History>, g: History, h: History)
      requires Valid() && |hs| == 3 && SameElsewhere(was, con.mem[..]) && con.Shows(current, g) && SameText(g, h)
      requires forall u :: 0 <= u < 3 && u != current ==>
                 TextShown(was, u, current, con.screenX[u], con.screenY[u], hs[u])
      ensures Sees(hs[current := h])
    {
      var now := con.mem[..];
      ShownText(now, current, con.screenX[current], con.screenY[current], g, h);
      forall u | 0 <= u < 3 && u != current ensures TextShown(now, u, current, con.screenX[u], con.screenY[u], hs[u]) {
        OthersShown(was, now, u, current, con.screenX[u], con.screenY[u], hs[u]);
      }
    }

    /** What is really in memory for the shown terminal. */
    lemma BeforePrint(hs: seq<History>) returns (g: History)
      requires Valid() && Sees(hs)
      ensures con.Shows(current, g) && SameText(g, hs[current])
    {
      var m, x, y := con.mem[..], con.screenX[current], con.screenY[current];
      g := Recoloured(m, hs[current]);
      RecolouredShows(m, current, x, y, hs[current]);
    }

    /** One operation. */
    method Perform(op: TermOp, ghost hs: seq<History>)
      requires Valid() && Sees(hs) && Fits(current, [op])
      modifies this`current, writebuffer, writeindex, con.mem, con.screenX, con.screenY
      ensures Valid() && current == (if op.Show? then op.to else old(current))
      ensures Proper(hs[old(current)]) && Sees(hs[old(current) := Edit(hs[old(current)], op)])
    {
      ghost var was, h := con.mem[..], hs[current];
      match op {
        case Show(to) =>
          assert hs[current := h] == hs && Fits(to, []);
          Switch(to, hs);
        case Putc(c) =>
          ghost var g := BeforePrint(hs);
          PutSameText(g, h, c);
          hide SameText, Console.Shows, SameElsewhere, TextShown;
          con.TermPutc(c, current, g);
          AfterPrint(was, hs, Put(g, c), Put(h, c));
        case Write(text) =>
          ghost var g := BeforePrint(hs);
          WriteSameText(g, h, text);
          hide SameText, Console.Shows, SameElsewhere, TextShown;
          WriteText(text, |text|, g);
          assert text[..|text|] == text;
          AfterPrint(was, hs, WriteAll(g, text), WriteAll(h, text));
      }
    }

    /** Over any run, every terminal's characters and cursor are the end of its own print history: what was
        printed while it was shown, whatever happened on the others in between. */
    method Run(ops: seq<TermOp>, ghost hs: seq<History>)
      requires Valid() && Sees(hs) && Fits(current, ops) && forall t :: 0 <= t < 3 ==> Proper(hs[t])
      modifies this`current, writebuffer, writeindex, con.mem, con.screenX, con.screenY
      ensures Valid() && current == Shown(old(current), ops)
      ensures forall t :: 0 <= t < 3 ==>
                var h := EditAll(hs[t], Own(t, old(current), ops));
                TextShown(con.mem[..], t, current, con.screenX[t], con.screenY[t], h)
    {
      ghost var start, now := current, hs;
      assert ops[0..] == ops;
      var i := 0;
      while i < |ops|
        invariant 0 <= i <= |ops| && Valid() && Sees(now) && Fits(current, ops[i..]) && |now| == 3
        invariant Shown(current, ops[i..]) == Shown(start, ops)
        invariant forall t :: 0 <= t < 3 ==>
                    Proper(now[t]) && Ending(now[t], t, current, ops[i..]) == Ending(hs[t], t, start, ops)
      {
        ghost var rest, at := ops[i..], current;
        assert rest[0] == ops[i] && rest[1..] == ops[i + 1..];
        FirstStep(now, at, rest);
        hide TextShown, Fits, Shown, Ending, Edit;
        Perform(ops[i], now);
        now := now[at := Edit(now[at], ops[i])];
        i := i + 1;
      }
      assert ops[i..] == [];
    }
  }

  /** The history terminal `t` ends with. */
  function Ending(h: History, t: int, current: int, ops: seq<TermOp>): History
    requires Proper(h)
  {
    EditAll(h, Own(t, current, ops))
  }

  /** The run's first operation, and the rest of the run. */
  lemma FirstStep(hs: seq<History>, current: int, ops: seq<TermOp>)
    requires |hs| == 3 && Fits(current, ops) && ops != [] && forall t :: 0 <= t < 3 ==> Proper(hs[t])
    ensures var next, hs' := if ops[0].Show? then ops[0].to else current, hs[current := Edit(hs[current], ops[0])];
            Fits(current, [ops[0]]) && Fits(next, ops[1..]) && Shown(next, ops[1..]) == Shown(current, ops) &&
            forall t :: 0 <= t < 3 ==>
              Proper(hs'[t]) && Ending(hs'[t], t, next, ops[1..]) == Ending(hs[t], t, current, ops)
  {
    var next, hs' := if ops[0].Show? then ops[0].to else current, hs[current := Edit(hs[current], ops[0])];
    assert Fits(next, []);
    forall t | 0 <= t < 3 ensures Ending(hs'[t], t, next, ops[1..]) == Ending(hs[t], t, current, ops) {
      FirstOwn(hs[t], t, current, ops);
    }
  }

  lemma FirstOwn(h: History, t: int, current: int, ops: seq<TermOp>)
    requires Proper(h) && ops != []
    ensures var next := if ops[0].Show? then ops[0].to else current;
            Ending(h, t, current, ops) == Ending(if t == current then Edit(h, ops[0]) else h, t, next, ops[1..])
  {
    hide Put, WriteAll;
    if !ops[0].Show? {
      var rest := Own(t, current, ops[1..]);
      if t == current {
        assert ([ops[0]] + rest)[0] == ops[0] && ([ops[0]] + rest)[1..] == rest;
      } else {
        assert [] + rest == rest;
      }
    }
  }
}
