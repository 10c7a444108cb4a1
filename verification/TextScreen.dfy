/** The 80x25 text console: cells, cursor, and the two cursor bytes of the CRTC. */
module TextScreen {
  import opened Bytes

  const WIDTH: nat := 80
  const HEIGHT: nat := 25
  const CELLS: nat := 2000

  /** `vga_entry`: a 16-bit cell.  A `char` of 0x80 and above is sign-extended over the attribute. */
  function Entry(ch: byte, attr: byte): (e: nat)
    ensures e % 256 == ch
    ensures e / 256 == if ch < 0x80 then attr else 0xFF
  {
    if ch < 0x80 then attr * 256 + ch else 0xFF00 + ch
  }

  datatype Screen = Screen(cells: seq<nat>, row: nat, col: nat, attr: byte, cursorLow: byte, cursorHigh: byte) {

    predicate Valid() {
      |cells| == CELLS && row < HEIGHT && col < WIDTH
    }

    /** The cursor as an index into the cell memory. */
    function Pos(): nat {
      row * WIDTH + col
    }

    /** The hardware cursor shows the software one. */
    predicate Synced() {
      cursorHigh * 256 + cursorLow == Pos()
    }
  }

  /** The low and high byte of `(uint16_t)pos` are written to the cursor registers. */
  function WriteCursor(s: Screen, pos: int): Screen {
    s.(cursorLow := pos % 256, cursorHigh := pos / 256 % 256)
  }

  lemma DropMultiples(k: int, x: int)
    ensures (256 * k + x) / 256 == k + x / 256 && (256 * k + x) % 256 == x % 256
  {
  }

  /** The two bytes of a 16-bit number, whatever it is reduced from. */
  lemma CursorBytes(pos: int)
    ensures pos % 0x1_0000 % 256 == pos % 256 && pos % 0x1_0000 / 256 % 256 == pos / 256 % 256
    ensures pos / 256 % 256 * 256 + pos % 256 == pos % 0x1_0000
  {
    var k, m := pos / 0x1_0000, pos % 0x1_0000;
    assert pos == 256 * (256 * k) + m;
    DropMultiples(256 * k, m);
    DropMultiples(k, m / 256);
  }

  /** `vga_update_cursor(vga_row, vga_col)`. */
  function UpdateCursor(s: Screen): Screen {
    WriteCursor(s, s.Pos())
  }

  function NextRow(row: nat): nat {
    if row + 1 >= HEIGHT then 0 else row + 1
  }

  function Backspace(s: Screen): Screen {
    if s.col > 0 then UpdateCursor(s.(col := s.col - 1)) else s
  }

  predicate IsControl(ch: byte) {
    ch == CR || ch == LF || ch == BACKSPACE
  }

  /** `vga_putc`. */
  function Putc(s: Screen, ch: byte): Screen
    requires s.Valid()
  {
    if ch == CR then UpdateCursor(s.(col := 0))
    else if ch == LF then UpdateCursor(s.(col := 0, row := NextRow(s.row)))
    else if ch == BACKSPACE then Backspace(s)
    else
      var t := s.(cells := s.cells[s.Pos() := Entry(ch, s.attr)]);
      UpdateCursor(if s.col + 1 >= WIDTH then t.(col := 0, row := NextRow(s.row)) else t.(col := s.col + 1))
  }

  /** `vga_write`. */
  function Write(s: Screen, text: seq<byte>): (t: Screen)
    requires s.Valid()
    ensures t.Valid()
  {
    if text == [] then s
    else
      var front := Write(s, text[..|text| - 1]);
      PutcKeeps(front, text[|text| - 1]);
      Putc(front, text[|text| - 1])
  }

  /** `vga_clear`. */
  function Clear(s: Screen): Screen {
    UpdateCursor(s.(cells := seq(CELLS, _ => Entry(SPACE, s.attr)), row := 0, col := 0))
  }

  lemma UpdateSyncs(s: Screen)
    requires s.Valid()
    ensures var t := UpdateCursor(s);
      t.Synced() && t.cells == s.cells && t.row == s.row && t.col == s.col && t.attr == s.attr
  {
    assert s.Pos() / 256 < 256;
  }

  /** The wrap from the last column, and from the last row, is a step on the tape. */
  lemma StepWraps(row: nat, col: nat)
    requires row < HEIGHT && col < WIDTH
    ensures (row * WIDTH + col + 1) % CELLS
         == if col + 1 >= WIDTH then NextRow(row) * WIDTH else row * WIDTH + (col + 1)
  {
  }

  /**
   One character keeps the cursor on the screen, moves it by at most the one
   step a tape would unless it is CR, LF or backspace, and after any of them but a
   backspace in column 0 the two hardware bytes rebuild `row*80 + col`.
   */
  lemma PutcKeeps(s: Screen, ch: byte)
    requires s.Valid()
    ensures var t := Putc(s, ch);
      && t.Valid() && t.attr == s.attr
      && (s.Synced() || ch != BACKSPACE || s.col > 0 ==> t.Synced())
      && (!IsControl(ch) ==> t.Pos() == (s.Pos() + 1) % CELLS && t.cells == s.cells[s.Pos() := Entry(ch, s.attr)])
      && (IsControl(ch) ==> t.cells == s.cells)
      && (ch == 0x0D ==> t.row == s.row && t.col == 0)
      && (ch == 0x0A ==> t.row == (s.row + 1) % 25 && t.col == 0)
      && (ch == 0x08 ==> t.row == s.row && t.col == if s.col > 0 then s.col - 1 else 0)
      && (IsControl(ch) <==> ch == 0x0D || ch == 0x0A || ch == 0x08)
  {
    hide UpdateCursor;
    if ch == CR {
      UpdateSyncs(s.(col := 0));
    } else if ch == LF {
      UpdateSyncs(s.(col := 0, row := NextRow(s.row)));
    } else if ch == BACKSPACE {
      if s.col > 0 { UpdateSyncs(s.(col := s.col - 1)); }
    } else {
      var u := s.(cells := s.cells[s.Pos() := Entry(ch, s.attr)]);
      StepWraps(s.row, s.col);
      UpdateSyncs(if s.col + 1 >= WIDTH then u.(col := 0, row := NextRow(s.row)) else u.(col := s.col + 1));
    }
  }

  lemma WriteAppend(s: Screen, text: seq<byte>, ch: byte)
    requires s.Valid()
    ensures Write(s, text + [ch]) == Putc(Write(s, text), ch)
  {
    assert (text + [ch])[..|text|] == text;
  }

  lemma {:induction false} WriteConcat(s: Screen, a: seq<byte>, b: seq<byte>)
    requires s.Valid()
    ensures Write(s, a + b) == Write(Write(s, a), b)
  {
    if b == [] {
      assert a + b == a;
    } else {
      var front := b[..|b| - 1];
      WriteConcat(s, a, front);
      assert a + b == (a + front) + [b[|b| - 1]];
      WriteAppend(s, a + front, b[|b| - 1]);
    }
  }

  /** In every reachable state the cursor is on screen, and synced once any update has run. */
  lemma {:induction false} WriteKeeps(s: Screen, text: seq<byte>)
    requires s.Valid()
    ensures Write(s, text).Valid() && Write(s, text).attr == s.attr
    ensures s.Synced() ==> Write(s, text).Synced()
    ensures !Write(s, text).Synced() ==> forall i :: 0 <= i < |text| ==> text[i] == BACKSPACE
  {
    if text != [] {
      var front := text[..|text| - 1];
      WriteKeeps(s, front);
      PutcKeeps(Write(s, front), text[|text| - 1]);
    }
  }

  lemma ClearSyncs(s: Screen)
    ensures Clear(s).Valid() && Clear(s).Synced() && Clear(s).Pos() == 0
    ensures forall q :: 0 <= q < CELLS ==> Clear(s).cells[q] == Entry(SPACE, s.attr)
  {
  }

  // ---------------------------------------------------------------------------
  // The screen as a circular tape

  /** The cell that the `i`-th character written from position `p` lands on. */
  function Slot(p: nat, i: nat): (q: nat)
    ensures q < CELLS
  {
    (p + i) % CELLS
  }

  lemma SlotsDiffer(p: nat, i: nat, j: nat)
    requires i < j < i + CELLS
    ensures Slot(p, i) != Slot(p, j)
  {
  }

  lemma SlotNext(p: nat, i: nat)
    ensures (Slot(p, i) + 1) % CELLS == Slot(p, i + 1)
  {
  }

  /** Character `i` is the last of `n` that lands on its cell. */
  predicate LastOn(i: nat, n: nat) {
    i < n <= i + CELLS
  }

  /**
   `t` is `s` after `text`: the cursor is past the text, each cell holds the last
   character that landed on it, and the cells that none landed on are unchanged.
   */
  ghost predicate OnTape(s: Screen, text: seq<byte>, t: Screen)
    requires s.Valid() && t.Valid()
  {
    && t.Pos() == Slot(s.Pos(), |text|)
    && (forall i: nat :: LastOn(i, |text|) ==> t.cells[Slot(s.Pos(), i)] == Entry(text[i], s.attr))
    && (forall i: nat :: |text| <= i < CELLS ==> t.cells[Slot(s.Pos(), i)] == s.cells[Slot(s.Pos(), i)])
  }

  /** Plain text, of any length, wraps around the screen like a circular tape. */
  lemma {:induction false} Tape(s: Screen, text: seq<byte>)
    requires s.Valid()
    requires forall i :: 0 <= i < |text| ==> !IsControl(text[i])
    ensures OnTape(s, text, Write(s, text))
  {
    hide OnTape, Putc, Write;
    TapeStart(s);
    if text != [] {
      var front, ch := text[..|text| - 1], text[|text| - 1];
      Tape(s, front);
      WriteKeeps(s, front);
      TapeStep(s, front, ch, Write(s, front));
      assert text == front + [ch];
      WriteAppend(s, front, ch);
    }
  }

  lemma TapeStart(s: Screen)
    requires s.Valid()
    ensures Write(s, []) == s && OnTape(s, [], s)
  {
  }

  lemma TapeStep(s: Screen, front: seq<byte>, ch: byte, u: Screen)
    requires s.Valid() && u.Valid() && u.attr == s.attr && OnTape(s, front, u) && !IsControl(ch)
    ensures Putc(u, ch).Valid() && OnTape(s, front + [ch], Putc(u, ch))
  {
    hide Slot, Entry, UpdateCursor, Putc;
    var p, n, text := s.Pos(), |front|, front + [ch];
    PutcKeeps(u, ch);
    SlotNext(p, n);
    var t := Putc(u, ch);
    assert t.cells == u.cells[Slot(p, n) := Entry(ch, s.attr)];
    forall i: nat | LastOn(i, n + 1)
      ensures t.cells[Slot(p, i)] == Entry(text[i], s.attr)
    {
      if i < n {
        SlotsDiffer(p, i, n);
        assert LastOn(i, n);
      }
    }
    forall i: nat | n + 1 <= i < CELLS
      ensures t.cells[Slot(p, i)] == s.cells[Slot(p, i)]
    {
      SlotsDiffer(p, n, i);
    }
  }

  /** Every cell is one of the tape's first 2000, so `Tape` speaks of all of them. */
  lemma TapeCoversScreen(p: nat, q: nat)
    requires q < CELLS
    ensures exists i: nat :: i < CELLS && Slot(p, i) == q
  {
    var i := (q - p) % CELLS;
    assert Slot(p, i) == q;
  }

  // ---------------------------------------------------------------------------
  // Text of many lines

  /** The rows that `lines` take, each followed by a newline, from column 0 on. */
  function RowsOf(lines: seq<seq<byte>>): nat {
    if lines == [] then 0 else RowsOf(lines[..|lines| - 1]) + |lines[|lines| - 1]| / WIDTH + 1
  }

  function Joined(lines: seq<seq<byte>>): seq<byte> {
    if lines == [] then [] else Joined(lines[..|lines| - 1]) + (lines[|lines| - 1] + [LF])
  }

  predicate IsPlainLine(l: seq<byte>) {
    forall i :: 0 <= i < |l| ==> !IsControl(l[i])
  }

  /** Character `j` of line `i` is still on the tape after all of `lines`. */
  predicate Shown(lines: seq<seq<byte>>, i: nat, j: nat) {
    i < |lines| && j < |lines[i]| && WIDTH * RowsOf(lines) <= WIDTH * RowsOf(lines[..i]) + j + CELLS
  }

  /**
   `t` is `s`, with the cursor in column 0, after `lines`: each line starts in
   column 0 of the row behind the one before, its characters follow one another
   on the tape, and rows not yet reached are unchanged.
   */
  ghost predicate LinesShown(s: Screen, lines: seq<seq<byte>>, t: Screen)
    requires s.Valid() && t.Valid()
  {
    && t.col == 0 && t.row == (s.row + RowsOf(lines)) % HEIGHT && t.attr == s.attr
    && CellsShown(s, lines, t)
  }

  ghost predicate CellsShown(s: Screen, lines: seq<seq<byte>>, t: Screen)
    requires s.Valid() && t.Valid()
  {
    && (forall i: nat, j: nat :: Shown(lines, i, j) ==>
          t.cells[Slot(s.Pos(), WIDTH * RowsOf(lines[..i]) + j)] == Entry(lines[i][j], s.attr))
    && (forall k: nat :: WIDTH * RowsOf(lines) <= k < CELLS ==>
          t.cells[Slot(s.Pos(), k)] == s.cells[Slot(s.Pos(), k)])
  }

  /** Any lines of plain text, each ended by a newline, of any length and number. */
  lemma {:induction false} LinesOnScreen(s: Screen, lines: seq<seq<byte>>)
    requires s.Valid() && s.col == 0
    requires forall l :: l in lines ==> IsPlainLine(l)
    ensures LinesShown(s, lines, Write(s, Joined(lines)))
  {
    hide LinesShown, Write;
    if lines == [] {
      NoLinesShown(s);
    } else {
      var front, l := lines[..|lines| - 1], lines[|lines| - 1];
      assert l in lines && forall k :: k in front ==> k in lines;
      LinesOnScreen(s, front);
      var u := Write(s, Joined(front));
      WriteConcat(s, Joined(front), l + [LF]);
      WriteAppend(u, l, LF);
      OneMoreLine(s, front, l, u);
      FrontAndLast(lines);
    }
  }

  lemma NoLinesShown(s: Screen)
    requires s.Valid() && s.col == 0
    ensures LinesShown(s, [], Write(s, Joined([])))
  {
  }

  lemma SlotShift(p: nat, b: nat, i: nat)
    ensures Slot(Slot(p, b), i) == Slot(p, b + i)
  {
    var k := (p + b) / CELLS;
    assert p + b + i == CELLS * k + (Slot(p, b) + i);
    DropScreens(k, Slot(p, b) + i);
  }

  lemma DropScreens(k: nat, x: nat)
    ensures (CELLS * k + x) % CELLS == x % CELLS
  {
  }

  lemma SlotWrap(p: nat, i: nat)
    ensures Slot(p, i + CELLS) == Slot(p, i)
  {
    assert p + (i + CELLS) == CELLS * 1 + (p + i);
    DropScreens(1, p + i);
  }

  /** Going `n` steps from column 0 of a row goes down one row for every 80 steps. */
  lemma RowOfSlot(row: nat, n: nat)
    ensures Slot(row * WIDTH, n) == (row + n / WIDTH) % HEIGHT * WIDTH + n % WIDTH
  {
    var r := row + n / WIDTH;
    assert row * WIDTH + n == CELLS * (r / HEIGHT) + (r % HEIGHT * WIDTH + n % WIDTH);
    DropScreens(r / HEIGHT, r % HEIGHT * WIDTH + n % WIDTH);
  }

  lemma RowsAppend(front: seq<seq<byte>>, l: seq<byte>)
    ensures RowsOf(front + [l]) == RowsOf(front) + |l| / WIDTH + 1
    ensures |l| < WIDTH * (|l| / WIDTH + 1)
    ensures forall i :: 0 <= i <= |front| ==> (front + [l])[..i] == front[..i]
  {
    assert (front + [l])[..|front|] == front;
  }

  /** A line ends before the rows after it begin. */
  lemma {:induction false} LineBefore(lines: seq<seq<byte>>, i: nat)
    requires i < |lines|
    ensures WIDTH * RowsOf(lines[..i]) + |lines[i]| < WIDTH * RowsOf(lines)
  {
    var front, l := lines[..|lines| - 1], lines[|lines| - 1];
    FrontAndLast(lines);
    RowsAppend(front, l);
    if i < |front| {
      LineBefore(front, i);
    }
  }

  lemma OneMoreLine(s: Screen, front: seq<seq<byte>>, l: seq<byte>, u: Screen)
    requires s.Valid() && u.Valid() && s.col == 0 && LinesShown(s, front, u) && IsPlainLine(l)
    ensures Putc(Write(u, l), LF).Valid()
    ensures LinesShown(s, front + [l], Putc(Write(u, l), LF))
  {
    hide Write, Putc, Slot, Entry, RowsOf, CellsShown;
    var v := Write(u, l);
    Tape(u, l);
    WriteKeeps(u, l);
    PutcKeeps(v, LF);
    LineCursor(s, front, l, u, v);
    LineCells(s, front, l, u, v);
    SameCells(s, front + [l], v, Putc(v, LF));
  }

  lemma SameCells(s: Screen, lines: seq<seq<byte>>, v: Screen, t: Screen)
    requires s.Valid() && v.Valid() && t.Valid() && t.cells == v.cells && CellsShown(s, lines, v)
    ensures CellsShown(s, lines, t)
  {
  }

  lemma LineCursor(s: Screen, front: seq<seq<byte>>, l: seq<byte>, u: Screen, v: Screen)
    requires s.Valid() && u.Valid() && v.Valid()
    requires u.col == 0 && u.row == (s.row + RowsOf(front)) % HEIGHT && v.Pos() == Slot(u.Pos(), |l|)
    ensures (v.row + 1) % 25 == (s.row + RowsOf(front + [l])) % HEIGHT
  {
    hide Slot, RowsOf;
    RowOfSlot(u.row, |l|);
    RowsAppend(front, l);
    ThenRow(v.row, v.col, (u.row + |l| / WIDTH) % HEIGHT, |l| % WIDTH);
    RowsAdd(s.row + RowsOf(front), |l| / WIDTH);
  }

  lemma ThenRow(row: nat, col: nat, row': nat, col': nat)
    requires col < WIDTH && col' < WIDTH && row * WIDTH + col == row' * WIDTH + col'
    ensures row == row'
  {
  }

  lemma RowsAdd(a: nat, b: nat)
    ensures ((a % HEIGHT + b) % HEIGHT + 1) % HEIGHT == (a + b + 1) % HEIGHT
  {
  }

  lemma LineCells(s: Screen, front: seq<seq<byte>>, l: seq<byte>, u: Screen, v: Screen)
    requires s.Valid() && u.Valid() && v.Valid() && s.col == 0
    requires LinesShown(s, front, u) && OnTape(u, l, v)
    ensures CellsShown(s, front + [l], v)
  {
    hide Slot, Entry, RowsOf, OnTape, CellsShown;
    var lines := front + [l];
    RowsAppend(front, l);
    RowOfSlot(s.row, WIDTH * RowsOf(front));
    assert u.Pos() == Slot(s.Pos(), WIDTH * RowsOf(front));
    forall i: nat, j: nat | Shown(lines, i, j)
      ensures v.cells[Slot(s.Pos(), WIDTH * RowsOf(lines[..i]) + j)] == Entry(lines[i][j], s.attr)
    {
      if i == |front| { LastLineCell(s, front, l, u, v, j); } else { EarlierCell(s, front, l, u, v, i, j); }
    }
    forall k: nat | WIDTH * RowsOf(lines) <= k < CELLS
      ensures v.cells[Slot(s.Pos(), k)] == s.cells[Slot(s.Pos(), k)]
    {
      UntouchedCell(s, front, l, u, v, k);
    }
    CellsAre(s, lines, v);
  }

  lemma CellsAre(s: Screen, lines: seq<seq<byte>>, t: Screen)
    requires s.Valid() && t.Valid()
    requires forall i: nat, j: nat :: Shown(lines, i, j) ==>
               t.cells[Slot(s.Pos(), WIDTH * RowsOf(lines[..i]) + j)] == Entry(lines[i][j], s.attr)
    requires forall k: nat :: WIDTH * RowsOf(lines) <= k < CELLS ==>
               t.cells[Slot(s.Pos(), k)] == s.cells[Slot(s.Pos(), k)]
    ensures CellsShown(s, lines, t)
  {
    hide Slot, Entry, RowsOf, Shown;
  }

  lemma LastLineCell(s: Screen, front: seq<seq<byte>>, l: seq<byte>, u: Screen, v: Screen, j: nat)
    requires s.Valid() && u.Valid() && v.Valid() && OnTape(u, l, v) && u.attr == s.attr
    requires u.Pos() == Slot(s.Pos(), WIDTH * RowsOf(front)) && Shown(front + [l], |front|, j)
    ensures v.cells[Slot(s.Pos(), WIDTH * RowsOf((front + [l])[..|front|]) + j)] == Entry(l[j], s.attr)
  {
    hide Slot, Entry, RowsOf;
    RowsAppend(front, l);
    SlotShift(s.Pos(), WIDTH * RowsOf(front), j);
    assert front[..|front|] == front;
    assert LastOn(j, |l|);
  }

  lemma EarlierCell(s: Screen, front: seq<seq<byte>>, l: seq<byte>, u: Screen, v: Screen, i: nat, j: nat)
    requires s.Valid() && u.Valid() && v.Valid() && CellsShown(s, front, u) && OnTape(u, l, v)
    requires u.Pos() == Slot(s.Pos(), WIDTH * RowsOf(front)) && i < |front| && Shown(front + [l], i, j)
    ensures v.cells[Slot(s.Pos(), WIDTH * RowsOf((front + [l])[..i]) + j)] == Entry((front + [l])[i][j], s.attr)
  {
    hide Slot, Entry, RowsOf, Shown, OnTape, CellsShown;
    EarlierPlace(front, l, i, j);
    var x, b := WIDTH * RowsOf(front[..i]) + j, WIDTH * RowsOf(front);
    CellShown(s, front, u, i, j);
    SlotShift(s.Pos(), b, x + CELLS - b);
    SlotWrap(s.Pos(), x);
    OffTape(u, l, v, x + CELLS - b);
  }

  lemma CellShown(s: Screen, lines: seq<seq<byte>>, t: Screen, i: nat, j: nat)
    requires s.Valid() && t.Valid() && CellsShown(s, lines, t) && Shown(lines, i, j)
    ensures t.cells[Slot(s.Pos(), WIDTH * RowsOf(lines[..i]) + j)] == Entry(lines[i][j], s.attr)
  {
    hide Slot, Entry, RowsOf;
  }

  lemma OffTape(s: Screen, text: seq<byte>, t: Screen, i: nat)
    requires s.Valid() && t.Valid() && OnTape(s, text, t) && |text| <= i < CELLS
    ensures t.cells[Slot(s.Pos(), i)] == s.cells[Slot(s.Pos(), i)]
  {
    hide Slot, Entry;
  }

  /** A character still on the tape after `l` is one that `l` did not reach. */
  lemma EarlierPlace(front: seq<seq<byte>>, l: seq<byte>, i: nat, j: nat)
    requires i < |front| && Shown(front + [l], i, j)
    ensures (front + [l])[i] == front[i] && (front + [l])[..i] == front[..i] && Shown(front, i, j)
    ensures var x, b := WIDTH * RowsOf(front[..i]) + j, WIDTH * RowsOf(front);
      |l| <= x + CELLS - b < CELLS
  {
    hide RowsOf;
    RowsAppend(front, l);
    LineBefore(front, i);
  }

  lemma UntouchedCell(s: Screen, front: seq<seq<byte>>, l: seq<byte>, u: Screen, v: Screen, k: nat)
    requires s.Valid() && u.Valid() && v.Valid() && CellsShown(s, front, u) && OnTape(u, l, v)
    requires u.Pos() == Slot(s.Pos(), WIDTH * RowsOf(front)) && WIDTH * RowsOf(front + [l]) <= k < CELLS
    ensures v.cells[Slot(s.Pos(), k)] == s.cells[Slot(s.Pos(), k)]
  {
    hide Slot, Entry, RowsOf;
    RowsAppend(front, l);
    SlotShift(s.Pos(), WIDTH * RowsOf(front), k - WIDTH * RowsOf(front));
  }

  // ---------------------------------------------------------------------------
  // The driver

  class Console {
    const cells: array<nat>
    var row: nat
    var col: nat
    var attr: byte
    var cursorLow: byte
    var cursorHigh: byte

    ghost predicate Valid()
      reads this
    {
      cells.Length == CELLS && row < HEIGHT && col < WIDTH
    }

    ghost function View(): (s: Screen)
      reads this, cells
      ensures Valid() <==> s.Valid()
    {
      Screen(cells[..], row, col, attr, cursorLow, cursorHigh)
    }

    /** The boot state: whatever is in the cell memory and in the cursor registers. */
    constructor (memory: array<nat>, low: byte, high: byte)
      requires memory.Length == CELLS
      ensures Valid() && cells == memory
      ensures View() == Screen(memory[..], 0, 0, 7, low, high)
    {
      cells := memory;
      row, col, attr := 0, 0, 7;
      cursorLow, cursorHigh := low, high;
    }

    method SetCursor(r: int, c: int)
      modifies this`cursorLow, this`cursorHigh
      ensures View() == WriteCursor(old(View()), r * WIDTH + c)
      ensures cursorHigh * 256 + cursorLow == (r * WIDTH + c) % 0x1_0000
    {
      var pos := (r * WIDTH + c) % 0x1_0000;
      CursorBytes(r * WIDTH + c);
      cursorLow := pos % 256;
      cursorHigh := pos / 256 % 256;
    }

    method ClearScreen()
      requires Valid()
      modifies this, cells
      ensures Valid()
      ensures View() == Clear(old(View()))
    {
      hide Entry;
      var blank := Entry(SPACE, attr);
      for r := 0 to HEIGHT
        modifies cells
        invariant forall k :: 0 <= k < r * WIDTH ==> cells[k] == blank
      {
        for c := 0 to WIDTH
          modifies cells
          invariant forall k :: 0 <= k < r * WIDTH + c ==> cells[k] == blank
        {
          cells[r * WIDTH + c] := blank;
        }
      }
      row, col := 0, 0;
      assert cells[..] == Clear(old(View())).cells;
      SetCursor(0, 0);
    }

    /** `vga_backspace`. */
    method StepBack()
      requires Valid()
      modifies this
      ensures Valid() && View() == Backspace(old(View()))
    {
      hide WriteCursor;
      if col > 0 {
        col := col - 1;
        SetCursor(row, col);
      }
    }

    method PutChar(ch: byte)
      requires Valid()
      modifies this, cells
      ensures Valid()
      ensures View() == Putc(old(View()), ch)
    {
      hide WriteCursor, Entry;
      PutcKeeps(View(), ch);
      if ch == CR {
        col := 0;
        SetCursor(row, col);
        return;
      }
      if ch == LF {
        col := 0;
        row := row + 1;
        if row >= HEIGHT { row := 0; }
        SetCursor(row, col);
        return;
      }
      if ch == BACKSPACE {
        StepBack();
        return;
      }
      cells[row * WIDTH + col] := Entry(ch, attr);
      col := col + 1;
      if col >= WIDTH {
        col := 0;
        row := row + 1;
        if row >= HEIGHT { row := 0; }
      }
      SetCursor(row, col);
    }

    method WriteText(text: seq<byte>)
      requires Valid()
      modifies this, cells
      ensures Valid()
      ensures View() == Write(old(View()), text)
    {
      assert text[..0] == [];
      for i := 0 to |text|
        invariant Valid()
        invariant View() == Write(old(View()), text[..i])
      {
        assert text[..i + 1] == text[..i] + [text[i]];
        WriteAppend(old(View()), text[..i], text[i]);
        PutChar(text[i]);
      }
      assert text[..|text|] == text;
    }
  }
}
