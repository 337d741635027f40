/** The text console of lib.c: term_putc, setcoords, scroll, clear and printk on video memory. */
module Console {
  import opened Bytes

  const VIDEO := 0xB8000
  const NUM_COLS := 80
  const NUM_ROWS := 25
  const SCREEN_CELLS := 2000
  const ATTRIB: byte := 0x07
  const TEXT_TOP := 0xC_0000

  datatype Cell = Cell(ch: byte, attr: byte)

  const BLANK := Cell(SPACE, ATTRIB)

  /** Cell `i` of text memory: a character byte and an attribute byte. */
  function CellAt(m: seq<byte>, i: int): Cell
    requires |m| >= TEXT_TOP && 0 <= i < 0x1000
  {
    Cell(m[VIDEO + 2 * i], m[VIDEO + 2 * i + 1])
  }

  type Row = seq<Cell>

  function RowAt(m: seq<byte>, y: int): (r: Row)
    requires |m| >= TEXT_TOP && 0 <= y <= NUM_ROWS
    ensures |r| == NUM_COLS && forall c {:trigger r[c]} :: 0 <= c < NUM_COLS ==> r[c] == CellAt(m, NUM_COLS * y + c)
  {
    seq(NUM_COLS, c requires 0 <= c < NUM_COLS => CellAt(m, NUM_COLS * y + c))
  }

  /** The 25 visible rows. Row 25, just below them, is what scrolling moves in. */
  function ScreenRows(m: seq<byte>): (r: seq<Row>)
    requires |m| >= TEXT_TOP
    ensures |r| == NUM_ROWS && forall y {:trigger r[y]} :: 0 <= y < NUM_ROWS ==> r[y] == RowAt(m, y)
  {
    seq(NUM_ROWS, y requires 0 <= y < NUM_ROWS => RowAt(m, y))
  }

  function HiddenRow(m: seq<byte>): Row
    requires |m| >= TEXT_TOP
  {
    RowAt(m, NUM_ROWS)
  }

  /** The same bytes outside the visible cells. */
  ghost predicate SameElsewhere(was: seq<byte>, now: seq<byte>) {
    |now| == |was| && forall k :: 0 <= k < |was| && !(VIDEO <= k < VIDEO + 2 * SCREEN_CELLS) ==> now[k] == was[k]
  }

  /** The unbounded history: every row written or exposed so far, and the cursor in it. The screen
      is its last 25 rows; `below` is the row that appears whenever a new one is needed. */
  datatype History = History(rows: seq<Row>, y: int, x: int, below: Row)

  predicate Proper(h: History) {
    |h.rows| >= NUM_ROWS && |h.rows| - NUM_ROWS <= h.y < |h.rows| && 0 <= h.x < NUM_COLS && |h.below| == NUM_COLS &&
    forall i :: 0 <= i < |h.rows| ==> |h.rows[i]| == NUM_COLS
  }

  function NewLine(h: History): History
    requires Proper(h)
  {
    h.(rows := if h.y + 1 == |h.rows| then h.rows + [h.below] else h.rows, y := h.y + 1, x := 0)
  }

  function Put(h: History, c: byte): (r: History)
    requires Proper(h)
    ensures Proper(r)
  {
    if c == NEWLINE || c == RETURN then NewLine(h) else
    var row: Row := h.rows[h.y][h.x := Cell(c, ATTRIB)];
    var g := h.(rows := h.rows[h.y := row]);
    if h.x + 1 == NUM_COLS then NewLine(g) else g.(x := h.x + 1)
  }

  /** The last 25 rows. */
  function Window(h: History): seq<Row>
    requires Proper(h)
  {
    h.rows[|h.rows| - NUM_ROWS..]
  }

  class Console {
    const mem: array<byte>
    const screenX: array<int>
    const screenY: array<int>

    ghost predicate Valid() {
      mem.Length >= TEXT_TOP && screenX.Length == screenY.Length == 3 && screenX != screenY
    }

    /** Video memory and the cursor of terminal `t` show the end of the history. */
    ghost predicate Shows(t: int, h: History)
      requires Valid() && 0 <= t < 3
      reads mem, screenX, screenY
    {
      Proper(h) && ScreenRows(mem[..]) == Window(h) && HiddenRow(mem[..]) == h.below &&
      screenX[t] == h.x && screenY[t] == h.y - (|h.rows| - NUM_ROWS)
    }

    constructor (mem: array<byte>)
      requires mem.Length >= TEXT_TOP
      ensures Valid() && this.mem == mem && fresh(screenX) && fresh(screenY)
    {
      this.mem := mem;
      screenX, screenY := new int[3](_ => 0), new int[3](_ => 0);
    }

    /** clear: 2000 blank cells. */
    method Clear()
      requires Valid()
      modifies mem
      ensures SameElsewhere(old(mem[..]), mem[..]) && HiddenRow(mem[..]) == old(HiddenRow(mem[..]))
      ensures ScreenRows(mem[..]) == seq(NUM_ROWS, _ => BlankRow())
    {
      ghost var was := mem[..];
      var i := 0;
      while i < NUM_ROWS * NUM_COLS
        invariant 0 <= i <= SCREEN_CELLS
        invariant forall j :: 0 <= j < mem.Length ==>
                  mem[j] == if VIDEO <= j < VIDEO + 2 * i then (if (j - VIDEO) % 2 == 0 then SPACE else ATTRIB)
                    else was[j]
      {
        mem[VIDEO + 2 * i] := SPACE;
        mem[VIDEO + 2 * i + 1] := ATTRIB;
        i := i + 1;
      }
      ghost var now := mem[..];
      HiddenKept(was, now);
      forall y | 0 <= y < NUM_ROWS ensures RowAt(now, y) == BlankRow() {
      }
    }

    /** scroll: every row moves up by one, in place; the hidden row is read but not changed. */
    method Scroll(t: int)
      requires Valid() && 0 <= t < 3
      modifies mem, screenX, screenY
      ensures SameElsewhere(old(mem[..]), mem[..]) && HiddenRow(mem[..]) == old(HiddenRow(mem[..]))
      ensures ScreenRows(mem[..]) == old(ScreenRows(mem[..]))[1..] + [old(HiddenRow(mem[..]))]
      ensures screenX[..] == old(screenX[..])[t := 0] && screenY[..] == old(screenY[..])[t := NUM_ROWS - 1]
    {
      ghost var was := mem[..];
      var i := 0;
      while i < NUM_COLS * NUM_ROWS
        invariant 0 <= i <= SCREEN_CELLS && mem[..] == was
        modifies mem
      {
        mem[VIDEO + 2 * i] := mem[VIDEO + 2 * i];
        mem[VIDEO + 2 * i + 1] := mem[VIDEO + 2 * i + 1];
        i := i + 1;
      }
      i := 0;
      while i < NUM_COLS * NUM_ROWS
        invariant 0 <= i <= SCREEN_CELLS
        invariant forall j {:trigger mem[j]} :: 0 <= j < mem.Length ==>
                  mem[j] == if VIDEO <= j < VIDEO + 2 * i then was[j + 2 * NUM_COLS] else was[j]
        modifies mem
      {
        mem[VIDEO + 2 * i] := mem[VIDEO + 2 * (i + NUM_COLS)];
        mem[VIDEO + 2 * i + 1] := mem[VIDEO + 2 * (i + NUM_COLS) + 1];
        i := i + 1;
      }
      screenX[t] := 0;
      screenY[t] := NUM_ROWS - 1;
      ScrolledRows(was, mem[..]);
    }

    /** setcoords: a row past the bottom scrolls instead. */
    method SetCoords(x: int, y: int, t: int)
      requires Valid() && 0 <= t < 3
      modifies mem, screenX, screenY
      ensures SameElsewhere(old(mem[..]), mem[..]) && HiddenRow(mem[..]) == old(HiddenRow(mem[..]))
      ensures y < NUM_ROWS ==>
                mem[..] == old(mem[..]) && screenX[..] == old(screenX[..])[t := x] &&
                screenY[..] == old(screenY[..])[t := y]
      ensures y >= NUM_ROWS ==>
                ScreenRows(mem[..]) == old(ScreenRows(mem[..]))[1..] + [old(HiddenRow(mem[..]))] &&
                screenX[..] == old(screenX[..])[t := 0] && screenY[..] == old(screenY[..])[t := NUM_ROWS - 1]
    {
      screenX[t] := x;
      if y >= NUM_ROWS {
        Scroll(t);
      } else {
        screenY[t] := y;
      }
    }

    /** The step to a new line, with any pending scroll. */
    method NextLine(t: int, ghost h: History)
      requires Valid() && 0 <= t < 3 && Proper(h)
      requires ScreenRows(mem[..]) == Window(h) && HiddenRow(mem[..]) == h.below
      requires screenY[t] == h.y - (|h.rows| - NUM_ROWS)
      modifies mem, screenX, screenY
      ensures Shows(t, NewLine(h)) && SameElsewhere(old(mem[..]), mem[..])
      ensures forall u :: 0 <= u < 3 && u != t ==> screenX[u] == old(screenX[u]) && screenY[u] == old(screenY[u])
    {
      hide ScreenRows, HiddenRow;
      ghost var y := screenY[t];
      SetCoords(0, screenY[t] + 1, t);
      assert y + 1 >= NUM_ROWS <==> h.y + 1 == |h.rows|;
      if y + 1 >= NUM_ROWS {
        assert Window(NewLine(h)) == Window(h)[1..] + [h.below];
      }
    }

    /** The store of a character and its attribute at the cursor. */
    method StoreAtCursor(t: int, c: byte, ghost h: History) returns (ghost g: History)
      requires Valid() && 0 <= t < 3 && Shows(t, h)
      modifies mem
      ensures Proper(g) && g == h.(rows := h.rows[h.y := h.rows[h.y][h.x := Cell(c, ATTRIB)]])
      ensures ScreenRows(mem[..]) == Window(g) && HiddenRow(mem[..]) == h.below && SameElsewhere(old(mem[..]), mem[..])
    {
      ghost var was := mem[..];
      var cell := NUM_COLS * screenY[t] + screenX[t];
      mem[VIDEO + 2 * cell] := c;
      mem[VIDEO + 2 * cell + 1] := ATTRIB;
      g := h.(rows := h.rows[h.y := h.rows[h.y][h.x := Cell(c, ATTRIB)]]);
      CellStored(was, mem[..], screenY[t], screenX[t], c);
      hide ScreenRows, HiddenRow, CellAt;
      assert Window(g) == Window(h)[screenY[t] := Window(h)[screenY[t]][h.x := Cell(c, ATTRIB)]];
    }

    /** term_putc refines adding the character to the history. */
    method TermPutc(c: byte, t: int, ghost h: History)
      requires Valid() && 0 <= t < 3 && Shows(t, h)
      modifies mem, screenX, screenY
      ensures Shows(t, Put(h, c)) && SameElsewhere(old(mem[..]), mem[..])
      ensures forall u :: 0 <= u < 3 && u != t ==> screenX[u] == old(screenX[u]) && screenY[u] == old(screenY[u])
    {
      hide ScreenRows, HiddenRow;
      if c == NEWLINE || c == RETURN {
        NextLine(t, h);
      } else {
        ghost var g := StoreAtCursor(t, c, h);
        screenX[t] := screenX[t] + 1;
        if screenX[t] == NUM_COLS {
          NextLine(t, g);
        }
        WrapNeutral(screenX[t], screenY[t]);
        screenX[t] := screenX[t] % NUM_COLS;
        screenY[t] := (screenY[t] + screenX[t] / NUM_COLS) % NUM_ROWS;
      }
    }

    /** The remainders at the end of term_putc change nothing once setcoords has run. */
    static lemma WrapNeutral(x: int, y: int)
      requires 0 <= x < NUM_COLS && 0 <= y < NUM_ROWS
      ensures x % NUM_COLS == x && (y + x / NUM_COLS) % NUM_ROWS == y
    {
    }

    /** printk: the characters up to the NUL, and how many there were. */
    method Printk(s: seq<byte>, t: int, ghost h: History) returns (index: int)
      requires Valid() && 0 <= t < 3 && Shows(t, h) && 0 in s
      modifies mem, screenX, screenY
      ensures index == |CStr(s, |s|)| && Shows(t, PutAll(h, CStr(s, |s|))) && SameElsewhere(old(mem[..]), mem[..])
    {
      assert Proper(h);
      hide Shows, SameElsewhere;
      index := 0;
      ghost var text := CStr(s, |s|);
      SameElsewhereTrans(mem[..], mem[..], mem[..]);
      while s[index] != 0
        invariant 0 <= index <= |text| < |s| && Shows(t, PutAll(h, text[..index]))
        invariant SameElsewhere(old(mem[..]), mem[..])
        decreases |text| - index
      {
        ghost var before := mem[..];
        TermPutc(s[index], t, PutAll(h, text[..index]));
        SameElsewhereTrans(old(mem[..]), before, mem[..]);
        assert text[..index + 1][..index] == text[..index];
        index := index + 1;
      }
      assert text[..index] == text;
    }

    /** The kernel's first lines of output: clear, cursor home, print. The screen is the last 25 rows
        of the text wrapped at 80 columns. */
    method PrintOnClear(s: seq<byte>, t: int)
      requires Valid() && 0 <= t < 3 && 0 in s
      modifies mem, screenX, screenY
      ensures Shows(t, Page(Wrap(CStr(s, |s|)), old(HiddenRow(mem[..])))) && SameElsewhere(old(mem[..]), mem[..])
      ensures 0 <= screenX[t] < NUM_COLS && 0 <= screenY[t] < NUM_ROWS
    {
      ghost var m0 := mem[..];
      ghost var below := HiddenRow(m0);
      ClearHome(t);
      ghost var m1 := mem[..];
      hide Page, Wrap, HiddenRow, Shows, SameElsewhere;
      var _ := Printk(s, t, Page(Lines([], []), below));
      FromNothing(CStr(s, |s|), below);
      SameElsewhereTrans(m0, m1, mem[..]);
      CursorOnScreen(t, Page(Wrap(CStr(s, |s|)), below));
    }

    lemma CursorOnScreen(t: int, h: History)
      requires Valid() && 0 <= t < 3 && Shows(t, h)
      ensures 0 <= screenX[t] < NUM_COLS && 0 <= screenY[t] < NUM_ROWS
    {
    }

    /** clear and setcoords(0, 0): the empty page. */
    method ClearHome(t: int)
      requires Valid() && 0 <= t < 3
      modifies mem, screenX, screenY
      ensures Shows(t, Page(Lines([], []), old(HiddenRow(mem[..])))) && SameElsewhere(old(mem[..]), mem[..])
    {
      Clear();
      ghost var m1 := mem[..];
      SetCoords(0, 0, t);
      EmptyPage(HiddenRow(m1));
      hide ScreenRows, HiddenRow, Window, BlankRow, SameElsewhere;
    }
  }

  function BlankRow(): Row {
    seq(NUM_COLS, _ => BLANK)
  }

  lemma HiddenKept(was: seq<byte>, now: seq<byte>)
    requires |was| >= TEXT_TOP && SameElsewhere(was, now)
    ensures HiddenRow(now) == HiddenRow(was)
  {
    assert forall c :: 0 <= c < NUM_COLS ==> HiddenRow(now)[c] == HiddenRow(was)[c];
  }

  lemma ScrolledRows(was: seq<byte>, now: seq<byte>)
    requires |was| >= TEXT_TOP && SameElsewhere(was, now)
    requires forall j {:trigger now[j]} :: VIDEO <= j < VIDEO + 2 * SCREEN_CELLS ==> now[j] == was[j + 2 * NUM_COLS]
    ensures HiddenRow(now) == HiddenRow(was)
    ensures ScreenRows(now) == ScreenRows(was)[1..] + [HiddenRow(was)]
  {
    HiddenKept(was, now);
    forall y | 0 <= y < NUM_ROWS ensures RowAt(now, y) == RowAt(was, y + 1) {
      assert forall c :: 0 <= c < NUM_COLS ==> RowAt(now, y)[c] == RowAt(was, y + 1)[c];
    }
  }

  lemma SameElsewhereTrans(a: seq<byte>, b: seq<byte>, c: seq<byte>)
    requires (SameElsewhere(a, b) && SameElsewhere(b, c)) || a == b == c
    ensures SameElsewhere(a, c)
  {
  }

  lemma CellStored(was: seq<byte>, now: seq<byte>, y: int, x: int, c: byte)
    requires |was| >= TEXT_TOP && 0 <= y < NUM_ROWS && 0 <= x < NUM_COLS
    requires now == was[VIDEO + 2 * (NUM_COLS * y + x) := c][VIDEO + 2 * (NUM_COLS * y + x) + 1 := ATTRIB]
    ensures SameElsewhere(was, now) && HiddenRow(now) == HiddenRow(was)
    ensures ScreenRows(now) == ScreenRows(was)[y := ScreenRows(was)[y][x := Cell(c, ATTRIB)]]
  {
    HiddenKept(was, now);
    forall r | 0 <= r < NUM_ROWS
      ensures RowAt(now, r) == if r == y then RowAt(was, y)[x := Cell(c, ATTRIB)] else RowAt(was, r)
    {
      forall k | 0 <= k < NUM_COLS
        ensures RowAt(now, r)[k] == if r == y && k == x then Cell(c, ATTRIB) else RowAt(was, r)[k]
      {
        assert NUM_COLS * r + k == NUM_COLS * y + x <==> r == y && k == x;
      }
    }
  }

  // ------------------------------------------------------------ what the history is

  function PutAll(h: History, text: seq<byte>): (r: History)
    requires Proper(h)
    ensures Proper(r)
    decreases |text|
  {
    if text == [] then h else Put(PutAll(h, text[..|text| - 1]), text[|text| - 1])
  }

  predicate Breaks(c: byte) { c == NEWLINE || c == RETURN }

  /** A text laid out in lines: the finished ones, and the one the cursor is in. */
  datatype Lines = Lines(done: seq<seq<byte>>, last: seq<byte>)

  /** The text cut at its line breaks. */
  function Split(text: seq<byte>): Lines
    decreases |text|
  {
    if text == [] then Lines([], []) else
    var before, c := Split(text[..|text| - 1]), text[|text| - 1];
    if Breaks(c) then Lines(before.done + [before.last], []) else Lines(before.done, before.last + [c])
  }

  /** A line cut into pieces of 80; the last piece is shorter, and may be empty. */
  function Chunks(line: seq<byte>): (r: Lines)
    ensures |r.last| < NUM_COLS
  {
    var n := |line| / NUM_COLS;
    Lines(seq(n, k requires 0 <= k < n => line[NUM_COLS * k..NUM_COLS * k + NUM_COLS]), line[NUM_COLS * n..])
  }

  /** Finished lines, each cut into pieces. */
  function ChunkAll(lines: seq<seq<byte>>): seq<seq<byte>>
    decreases |lines|
  {
    if lines == [] then [] else
    var r := Chunks(lines[|lines| - 1]);
    ChunkAll(lines[..|lines| - 1]) + r.done + [r.last]
  }

  /** The text wrapped at 80 columns. */
  function Wrap(text: seq<byte>): (r: Lines)
    ensures |r.last| < NUM_COLS
  {
    var s := Split(text);
    var r := Chunks(s.last);
    Lines(ChunkAll(s.done) + r.done, r.last)
  }

  /** Line `i`, empty past the end. */
  function LineAt(lines: Lines, i: nat): seq<byte> {
    if i < |lines.done| then lines.done[i] else if i == |lines.done| then lines.last else []
  }

  /** Row `i` of a page: the line's characters, then what was there before. */
  function PageRow(lines: Lines, below: Row, i: nat): (r: Row)
    requires |below| == NUM_COLS
    ensures |r| == NUM_COLS
  {
    var line := LineAt(lines, i);
    var base := if i < NUM_ROWS then BlankRow() else below;
    seq(NUM_COLS, c requires 0 <= c < NUM_COLS => if c < |line| then Cell(line[c], ATTRIB) else base[c])
  }

  /** The history that shows exactly these lines, with the cursor after the last character. */
  function Page(lines: Lines, below: Row): (h: History)
    requires |lines.last| < NUM_COLS && |below| == NUM_COLS
    ensures Proper(h)
  {
    var n := if |lines.done| < NUM_ROWS then NUM_ROWS else |lines.done| + 1;
    History(seq(n, i requires 0 <= i < n => PageRow(lines, below, i)), |lines.done|, |lines.last|, below)
  }

  lemma EmptyPage(below: Row)
    requires |below| == NUM_COLS
    ensures var w := Window(Page(Lines([], []), below));
            |w| == NUM_ROWS && forall i :: 0 <= i < NUM_ROWS ==> w[i] == BlankRow()
  {
    hide LineAt;
    forall i | 0 <= i < NUM_ROWS ensures PageRow(Lines([], []), below, i) == BlankRow() {
      EmptyRow(below, i);
    }
  }

  lemma EmptyRow(below: Row, i: nat)
    requires |below| == NUM_COLS && i < NUM_ROWS
    ensures PageRow(Lines([], []), below, i) == BlankRow()
  {
    assert LineAt(Lines([], []), i) == [];
  }

  /** The laid-out text with one more character. */
  function Extend(lines: Lines, c: byte): (r: Lines)
    requires |lines.last| < NUM_COLS
    ensures |r.last| < NUM_COLS
  {
    if Breaks(c) then Lines(lines.done + [lines.last], [])
    else if |lines.last| + 1 == NUM_COLS then Lines(lines.done + [lines.last + [c]], [])
    else Lines(lines.done, lines.last + [c])
  }

  lemma ChunksSnoc(line: seq<byte>, c: byte)
    requires !Breaks(c)
    ensures Chunks(line + [c]) == Extend(Chunks(line), c)
  {
    var n, m := |line| / NUM_COLS, (|line| + 1) / NUM_COLS;
    var longer := line + [c];
    assert forall k :: 0 <= k < n ==>
      longer[NUM_COLS * k..NUM_COLS * k + NUM_COLS] == line[NUM_COLS * k..NUM_COLS * k + NUM_COLS];
    assert longer[NUM_COLS * n..] == line[NUM_COLS * n..] + [c];
    if m == n + 1 {
      assert longer[NUM_COLS * n..NUM_COLS * n + NUM_COLS] == line[NUM_COLS * n..] + [c];
      assert longer[NUM_COLS * m..] == [];
    }
  }

  lemma WrapSnoc(text: seq<byte>, c: byte)
    ensures Wrap(text + [c]) == Extend(Wrap(text), c)
  {
    var longer, s := text + [c], Split(text);
    assert longer[..|longer| - 1] == text;
    if Breaks(c) {
      assert (s.done + [s.last])[..|s.done|] == s.done;
      assert Chunks([]) == Lines([], []);
    } else {
      ChunksSnoc(s.last, c);
    }
  }

  /** Putting a character into the history of a page gives the page with the text extended. */
  lemma PutExtends(lines: Lines, below: Row, c: byte)
    requires |lines.last| < NUM_COLS && |below| == NUM_COLS
    ensures Put(Page(lines, below), c) == Page(Extend(lines, c), below)
  {
    var h, ext := Page(lines, below), Extend(lines, c);
    var r, p := Put(h, c), Page(ext, below);
    assert |r.rows| == |p.rows|;
    forall i | 0 <= i < |p.rows| ensures r.rows[i] == p.rows[i] {
      RowExtends(lines, below, c, i);
    }
  }

  lemma RowExtends(lines: Lines, below: Row, c: byte, i: nat)
    requires |lines.last| < NUM_COLS && |below| == NUM_COLS
    ensures PageRow(Extend(lines, c), below, i) ==
            if i == |lines.done| && !Breaks(c) then PageRow(lines, below, i)[|lines.last| := Cell(c, ATTRIB)]
              else PageRow(lines, below, i)
    ensures i >= NUM_ROWS && i > |lines.done| ==> PageRow(lines, below, i) == below
  {
  }

  lemma FromNothing(text: seq<byte>, below: Row)
    requires |below| == NUM_COLS
    ensures PutAll(Page(Lines([], []), below), text) == Page(Wrap(text), below)
  {
    PrintWraps([], text, below);
    assert [] + text == text;
    assert Chunks([]) == Lines([], []);
  }

  /** printk after clear: the history is the text wrapped at 80 columns. */
  lemma {:induction false} PrintWraps(done: seq<byte>, text: seq<byte>, below: Row)
    requires |below| == NUM_COLS
    ensures PutAll(Page(Wrap(done), below), text) == Page(Wrap(done + text), below)
    decreases |text|
  {
    if text == [] {
      assert done + text == done;
    } else {
      var init, c := text[..|text| - 1], text[|text| - 1];
      PrintWraps(done, init, below);
      assert done + text == done + init + [c];
      WrapSnoc(done + init, c);
      PutExtends(Wrap(done + init), below, c);
    }
  }
}
