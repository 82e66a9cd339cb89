/** The text screen: 25 rows of 80 cells and a hardware cursor, showing the end of
    an endless sheet of 80 columns. */
module Terminal {
  import opened Ram

  const ROWS: nat := 25
  const COLS: nat := 80
  const CELLS: nat := 2000
  const SCREEN: nat := 4000
  const DEFAULT_COLOR: byte := 2
  const SPACE: byte := ' ' as int
  const NEWLINE: byte := 10
  const BACKSPACE: byte := 8

  datatype Glyph = Glyph(ch: byte, color: byte)

  const BLANK := Glyph(SPACE, DEFAULT_COLOR)

  /** What was written where, and where writing goes on. */
  datatype Sheet = Sheet(cells: map<nat, Glyph>, pos: nat)

  function Look(s: Sheet, i: nat): Glyph { if i in s.cells then s.cells[i] else BLANK }

  /** Writing one character on the endless sheet. */
  function Put(s: Sheet, g: Glyph): Sheet {
    if g.ch == NEWLINE then s.(pos := (s.pos / COLS + 1) * COLS)
    else if g.ch == BACKSPACE then
      if s.pos == 0 then s else Sheet(s.cells[s.pos - 1 := Glyph(SPACE, g.color)], s.pos - 1)
    else Sheet(s.cells[s.pos := g], s.pos + 1)
  }

  /** The sheet, and how many of its rows have left the screen. */
  datatype View = View(sheet: Sheet, rows: nat)

  const CLEAN := View(Sheet(map[], 0), 0)

  /** The screen moves on only when a character is to be written below its last row. */
  function Step(v: View, g: Glyph): View {
    View(Put(v.sheet, g), if v.sheet.pos == CELLS + COLS * v.rows then v.rows + 1 else v.rows)
  }

  function Run(v: View, gs: seq<Glyph>): View
    decreases |gs|
  {
    if gs == [] then v else Run(Step(v, gs[0]), gs[1..])
  }

  /** No backspace at the top left corner of the screen. */
  ghost predicate Allowed(v: View, g: Glyph) { g.ch == BACKSPACE ==> v.sheet.pos > COLS * v.rows }

  ghost predicate AllAllowed(v: View, gs: seq<Glyph>)
    decreases |gs|
  {
    gs == [] || (Allowed(v, gs[0]) && AllAllowed(Step(v, gs[0]), gs[1..]))
  }

  ghost predicate CellShown(vid: seq<byte>, s: Sheet, rows: nat, i: nat)
    requires |vid| == SCREEN && i < CELLS
  {
    Glyph(vid[2 * i], vid[2 * i + 1]) == Look(s, i + COLS * rows)
  }

  /** The screen shows the sheet from row `rows` on, the cursor stands at its position, and
      nothing was written below the screen. */
  ghost predicate Shows(vid: seq<byte>, offset: int, v: View) {
    && |vid| == SCREEN
    && offset == 2 * (v.sheet.pos - COLS * v.rows) && 0 <= offset <= SCREEN
    && (forall i: nat | i < CELLS :: CellShown(vid, v.sheet, v.rows, i))
    && (forall j: nat | j >= CELLS + COLS * v.rows :: Look(v.sheet, j) == BLANK)
  }

  // ----- the screen follows the sheet

  /** The cell at offset became g. */
  ghost predicate CellSet(vid: seq<byte>, vid': seq<byte>, offset: nat, g: Glyph) {
    && offset + 2 <= |vid| && SameOutside(vid, vid', offset, offset + 2)
    && vid'[offset] == g.ch && vid'[offset + 1] == g.color
  }

  lemma WriteShown(vid: seq<byte>, vid': seq<byte>, offset: nat, v: View, g: Glyph)
    requires Shows(vid, offset, v) && offset < SCREEN && CellSet(vid, vid', offset, g)
    ensures Shows(vid', offset, v.(sheet := v.sheet.(cells := v.sheet.cells[v.sheet.pos := g])))
  {
    var s := v.sheet.(cells := v.sheet.cells[v.sheet.pos := g]);
    forall i: nat | i < CELLS
      ensures CellShown(vid', s, v.rows, i)
    {
      assert CellShown(vid, v.sheet, v.rows, i);
    }
    forall j: nat | j >= CELLS + COLS * v.rows
      ensures Look(s, j) == BLANK
    {
      assert Look(v.sheet, j) == BLANK;
    }
  }

  /** vid' is vid moved up by one row, with an empty row below. */
  ghost predicate ShiftedUp(vid: seq<byte>, vid': seq<byte>) {
    && |vid| == |vid'| == SCREEN
    && (forall a | 0 <= a < SCREEN - 160 :: vid'[a] == vid[a + 160])
    && (forall c: nat | c < COLS :: Glyph(vid'[2 * c + 3840], vid'[2 * c + 3841]) == BLANK)
  }

  lemma ShiftShown(vid: seq<byte>, vid': seq<byte>, v: View)
    requires Shows(vid, SCREEN, v) && ShiftedUp(vid, vid')
    ensures Shows(vid', SCREEN - 160, v.(rows := v.rows + 1))
  {
    var rows := v.rows + 1;
    forall i: nat | i < CELLS
      ensures CellShown(vid', v.sheet, rows, i)
    {
      if i < CELLS - COLS {
        assert CellShown(vid, v.sheet, v.rows, i + COLS);
      } else {
        var c := i - (CELLS - COLS);
        assert Glyph(vid'[2 * c + 3840], vid'[2 * c + 3841]) == BLANK;
      }
    }
  }

  lemma MovedShown(vid: seq<byte>, offset: int, offset': int, v: View, pos: nat)
    requires Shows(vid, offset, v) && offset' == 2 * (pos - COLS * v.rows) && 0 <= offset' <= SCREEN
    ensures Shows(vid, offset', v.(sheet := v.sheet.(pos := pos)))
  {
    var s := v.sheet.(pos := pos);
    forall i: nat | i < CELLS
      ensures CellShown(vid, s, v.rows, i)
    {
      assert CellShown(vid, v.sheet, v.rows, i);
    }
    forall j: nat | j >= CELLS + COLS * v.rows
      ensures Look(s, j) == BLANK
    {
      assert Look(v.sheet, j) == BLANK;
    }
  }

  lemma PutShown(vid: seq<byte>, vid': seq<byte>, offset: nat, v: View, g: Glyph)
    requires Shows(vid, offset, v) && offset < SCREEN && CellSet(vid, vid', offset, g)
    requires g.ch != NEWLINE && g.ch != BACKSPACE
    ensures Shows(vid', offset + 2, v.(sheet := Put(v.sheet, g)))
  {
    WriteShown(vid, vid', offset, v, g);
    var w := v.(sheet := v.sheet.(cells := v.sheet.cells[v.sheet.pos := g]));
    MovedShown(vid', offset, offset + 2, w, v.sheet.pos + 1);
  }

  lemma EvenOffset(vid: seq<byte>, offset: int, v: View)
    requires Shows(vid, offset, v)
    ensures offset % 2 == 0
  {
  }

  lemma NextRow(offset: nat, v: View)
    requires offset == 2 * (v.sheet.pos - COLS * v.rows) && offset < SCREEN
    ensures var o := offset + 160 - (offset + 160) % 160;
            o == 2 * ((v.sheet.pos / COLS + 1) * COLS - COLS * v.rows) && o <= SCREEN
  {
    var q := v.sheet.pos / COLS;
    assert v.sheet.pos == COLS * q + v.sheet.pos % COLS;
    assert offset == 160 * (q - v.rows) + 2 * (v.sheet.pos % COLS);
  }

  lemma TwoRegisters(cell: nat)
    requires cell < 0x1_0000
    ensures 0x100 * (cell / 0x100 % 0x100) + cell % 0x100 == cell
  {
    assert cell / 0x100 < 0x100;
  }

  class Screen {
    const vid: array<byte>
    var high: byte
    var low: byte
    ghost var view: View

    function Offset(): int
      reads this
    {
      2 * (0x100 * high + low)
    }

    ghost predicate Valid()
      reads this, vid
    {
      vid.Length == SCREEN && Shows(vid[..], Offset(), view)
    }

    /** set_cursor: the cell number in two registers. */
    method SetCursor(offset: nat)
      requires offset < 0x2_0000
      modifies this`high, this`low
      ensures offset % 2 == 0 ==> 2 * (0x100 * high + low) == offset
    {
      var cell := if offset != 0 then offset / 2 else offset;
      TwoRegisters(cell);
      high := cell / 0x100 % 0x100;
      low := cell % 0x100;
    }

    method GetCursor() returns (offset: int)
      ensures offset == Offset()
    {
      offset := high * 0x100;
      offset := offset + low;
      offset := offset * 2;
    }

    method SetChar(ch: byte, offset: nat, color: int)
      requires vid.Length == SCREEN && offset < SCREEN && color < 0x100
      modifies vid
      ensures offset % 2 != 0 ==> vid[..] == old(vid[..])
      ensures offset % 2 == 0 ==>
                CellSet(old(vid[..]), vid[..], offset, Glyph(ch, if color < 0 then DEFAULT_COLOR else color))
    {
      if offset % 2 != 0 {
        return;
      }
      vid[offset] := ch;
      vid[offset + 1] := if color < 0 then DEFAULT_COLOR else color;
    }

    method ShiftUp()
      requires vid.Length == SCREEN
      modifies vid
      ensures ShiftedUp(old(vid[..]), vid[..])
    {
      for s := 0 to 3840
        invariant forall a | 0 <= a < s :: vid[a] == old(vid[a + 160])
        invariant forall a | s <= a < SCREEN :: vid[a] == old(vid[a])
      {
        vid[s] := vid[s + 160];
      }
      for s := 0 to COLS
        invariant forall a | 0 <= a < 3840 :: vid[a] == old(vid[a + 160])
        invariant forall c: nat | c < s :: Glyph(vid[2 * c + 3840], vid[2 * c + 3841]) == BLANK
      {
        vid[s * 2 + 3840] := SPACE;
        vid[s * 2 + 1 + 3840] := DEFAULT_COLOR;
      }
    }

    ghost predicate On(offset: int, v: View)
      reads vid
    {
      vid.Length == SCREEN && Shows(vid[..], offset, v)
    }

    /** An ordinary character. */
    method PutGlyph(offset: nat, g: Glyph, ghost v: View) returns (offset': nat)
      requires On(offset, v) && offset < SCREEN && g.ch != NEWLINE && g.ch != BACKSPACE
      modifies vid
      ensures On(offset', v.(sheet := Put(v.sheet, g)))
    {
      ghost var was := vid[..];
      SetChar(g.ch, offset, g.color);
      PutShown(was, vid[..], offset, v, g);
      offset' := offset + 2;
    }

    method NewLine(offset: nat, color: byte, ghost v: View) returns (offset': nat)
      requires On(offset, v) && offset < SCREEN
      ensures On(offset', v.(sheet := Put(v.sheet, Glyph(NEWLINE, color))))
    {
      NextRow(offset, v);
      offset' := offset + 160;
      offset' := offset' - offset' % 160;
      MovedShown(vid[..], offset, offset', v, (v.sheet.pos / COLS + 1) * COLS);
    }

    method Erase(offset: nat, color: byte, ghost v: View) returns (offset': nat)
      requires On(offset, v) && 0 < offset && v.sheet.pos > 0
      modifies vid
      ensures On(offset', v.(sheet := Put(v.sheet, Glyph(BACKSPACE, color))))
    {
      ghost var was, w := vid[..], v.(sheet := v.sheet.(pos := v.sheet.pos - 1));
      MovedShown(was, offset, offset - 2, v, v.sheet.pos - 1);
      offset' := offset - 2;
      SetChar(SPACE, offset', color);
      WriteShown(was, vid[..], offset', w, Glyph(SPACE, color));
    }

    /** A full screen moves up before anything is written. */
    method Scroll(offset: nat, ghost v: View) returns (offset': nat, ghost v': View)
      requires On(offset, v)
      modifies vid
      ensures On(offset', v') && offset' < SCREEN && v'.sheet == v.sheet
      ensures v'.rows == if v.sheet.pos == CELLS + COLS * v.rows then v.rows + 1 else v.rows
    {
      offset', v' := offset, v;
      if offset >= SCREEN {
        offset' := offset - 160;
        ghost var was := vid[..];
        ShiftUp();
        ShiftShown(was, vid[..], v);
        v' := v.(rows := v.rows + 1);
      }
    }

    method PrintChar(ch: byte, color: byte)
      requires Valid() && Allowed(view, Glyph(ch, color))
      modifies this, vid
      ensures Valid() && view == Step(old(view), Glyph(ch, color))
    {
      var offset := GetCursor();
      ghost var v;
      offset, v := Scroll(offset, view);
      if ch == NEWLINE {
        offset := NewLine(offset, color, v);
      } else if ch == BACKSPACE {
        offset := Erase(offset, color, v);
      } else {
        offset := PutGlyph(offset, Glyph(ch, color), v);
      }
      EvenOffset(vid[..], offset, Step(view, Glyph(ch, color)));
      SetCursor(offset);
      view := Step(view, Glyph(ch, color));
    }

    /** Every cell of the screen, row by row, is two bytes; the registers hold the number of the cell where
        the cursor is. */
    lemma CellIs(row: nat, col: nat)
      requires Valid() && row < 25 && col < 80
      ensures var at := 160 * row + 2 * col;
              at + 1 < vid.Length
              && Glyph(vid[at], vid[at + 1]) == Look(view.sheet, 80 * (view.rows + row) + col)
      ensures 80 * view.rows + 0x100 * high + low == view.sheet.pos <= 80 * (view.rows + 25)
    {
      var i := 80 * row + col;
      assert CellShown(vid[..], view.sheet, view.rows, i);
    }

    method PrintStr(m: Mem, str: nat, color: byte)
      requires Valid() && Terminated(m, str) && AllAllowed(view, Colored(CString(m, str), color))
      modifies this, vid
      ensures Valid() && view == Run(old(view), Colored(CString(m, str), color))
    {
      var index := 0;
      ghost var w := Run(view, Colored(CString(m, str), color));
      while m[str + index] != 0
        invariant Valid() && StringRemains(view, m, str + index, color, w)
        decreases |m| - index
      {
        StringStep(view, m, str + index, color, w);
        PrintChar(m[str + index], color);
        index := index + 1;
      }
    }

    method Clear()
      requires vid.Length == SCREEN
      modifies this, vid
      ensures Valid() && view == CLEAN
    {
      for i := 0 to CELLS
        invariant forall c: nat | c < i :: Glyph(vid[2 * c], vid[2 * c + 1]) == BLANK
      {
        vid[i * 2] := SPACE;
        vid[i * 2 + 1] := DEFAULT_COLOR;
      }
      SetCursor(0);
      view := CLEAN;
    }
  }

  // ----- strings in memory

  /** There is a NUL at or after p. */
  ghost predicate Terminated(m: Mem, p: nat)
    decreases |m| - p
  {
    p < |m| && (m[p] == 0 || Terminated(m, p + 1))
  }

  /** The characters from p up to the NUL. */
  function CString(m: Mem, p: nat): (text: seq<byte>)
    requires Terminated(m, p)
    ensures p + |text| < |m| && m[p..p + |text|] == text && m[p + |text|] == 0 && 0 !in text
    decreases |m| - p
  {
    if m[p] == 0 then [] else [m[p]] + CString(m, p + 1)
  }

  function Colored(text: seq<byte>, color: byte): (gs: seq<Glyph>)
    ensures |gs| == |text| && forall i | 0 <= i < |gs| :: gs[i] == Glyph(text[i], color)
  {
    if text == [] then [] else [Glyph(text[0], color)] + Colored(text[1..], color)
  }

  /** The rest of a string may be printed and leads to the view w. */
  ghost predicate StringRemains(v: View, m: Mem, q: nat, color: byte, w: View) {
    && Terminated(m, q) && AllAllowed(v, Colored(CString(m, q), color))
    && Run(v, Colored(CString(m, q), color)) == w
  }

  /** The first character of a string, and the rest. */
  lemma StringStep(v: View, m: Mem, q: nat, color: byte, w: View)
    requires StringRemains(v, m, q, color, w) && m[q] != 0
    ensures Allowed(v, Glyph(m[q], color)) && StringRemains(Step(v, Glyph(m[q], color)), m, q + 1, color, w)
  {
    var text := CString(m, q);
    assert text[1..] == CString(m, q + 1);
  }

  // ----- whole streams

  lemma {:induction false} RunConcat(v: View, a: seq<Glyph>, b: seq<Glyph>)
    ensures Run(v, a + b) == Run(Run(v, a), b)
    ensures AllAllowed(v, a + b) <==> AllAllowed(v, a) && AllAllowed(Run(v, a), b)
    decreases |a|
  {
    if a == [] {
      assert a + b == b;
    } else {
      assert (a + b)[1..] == a[1..] + b;
      RunConcat(Step(v, a[0]), a[1..], b);
    }
  }

  function PutAll(s: Sheet, gs: seq<Glyph>): Sheet
    decreases |gs|
  {
    if gs == [] then s else PutAll(Put(s, gs[0]), gs[1..])
  }

  ghost predicate NoBackspace(gs: seq<Glyph>) { forall i | 0 <= i < |gs| :: gs[i].ch != BACKSPACE }

  /** How many rows have left the screen when writing stands at pos. */
  function Scrolled(pos: nat): nat { if pos <= CELLS then 0 else (pos - CELLS + COLS - 1) / COLS }

  /** As few as possible, if writing is to stand on the screen or right behind it. */
  lemma ScrolledLeast(pos: nat, rows: nat)
    ensures pos <= 80 * (rows + 25) <==> rows >= Scrolled(pos)
  {
  }

  lemma StepScrolled(v: View, g: Glyph)
    requires v.rows == Scrolled(v.sheet.pos) && g.ch != BACKSPACE
    ensures Step(v, g).rows == Scrolled(Step(v, g).sheet.pos)
  {
    var pos, q := v.sheet.pos, v.sheet.pos / COLS;
    assert pos == COLS * q + pos % COLS;
  }

  /** A stream without backspaces may always be printed; the sheet does not depend on the screen,
      and the number of rows gone is a function of the position alone. */
  lemma {:induction false} RunIsSheet(v: View, gs: seq<Glyph>)
    requires v.rows == Scrolled(v.sheet.pos) && NoBackspace(gs)
    ensures AllAllowed(v, gs)
    ensures Run(v, gs).sheet == PutAll(v.sheet, gs)
    ensures Run(v, gs).rows == Scrolled(PutAll(v.sheet, gs).pos)
    decreases |gs|
  {
    if gs != [] {
      StepScrolled(v, gs[0]);
      RunIsSheet(Step(v, gs[0]), gs[1..]);
    }
  }

  predicate Printable(g: Glyph) { g.ch != NEWLINE && g.ch != BACKSPACE }

  lemma {:induction false} KeptBelow(s: Sheet, gs: seq<Glyph>, i: nat)
    requires NoBackspace(gs) && i < s.pos
    ensures Look(PutAll(s, gs), i) == Look(s, i) && i < PutAll(s, gs).pos
    decreases |gs|
  {
    if gs != [] {
      assert s.pos < Put(s, gs[0]).pos;
      KeptBelow(Put(s, gs[0]), gs[1..], i);
    }
  }

  /** Every printed character stays where it was put. */
  lemma {:induction false} PrintedStays(s: Sheet, gs: seq<Glyph>, k: nat)
    requires NoBackspace(gs) && k < |gs| && Printable(gs[k])
    ensures Look(PutAll(s, gs), PutAll(s, gs[..k]).pos) == gs[k]
    decreases |gs|
  {
    var t := Put(s, gs[0]);
    if k == 0 {
      KeptBelow(t, gs[1..], s.pos);
    } else {
      assert gs[..k][0] == gs[0] && gs[..k][1..] == gs[1..][..k - 1];
      PrintedStays(t, gs[1..], k - 1);
    }
  }

  /** And nothing else is on the sheet. */
  lemma {:induction false} NothingElse(s: Sheet, gs: seq<Glyph>, i: nat)
    requires NoBackspace(gs) && Look(PutAll(s, gs), i) != Look(s, i)
    ensures exists k :: 0 <= k < |gs| && Printable(gs[k]) && PutAll(s, gs[..k]).pos == i
    decreases |gs|
  {
    if gs != [] {
      var t := Put(s, gs[0]);
      if Look(t, i) != Look(s, i) {
        assert gs[..0] == [] && PutAll(s, gs[..0]).pos == i;
      } else {
        NothingElse(t, gs[1..], i);
        var k :| 0 <= k < |gs[1..]| && Printable(gs[1..][k]) && PutAll(t, gs[1..][..k]).pos == i;
        assert gs[..k + 1][0] == gs[0] && gs[..k + 1][1..] == gs[1..][..k];
        assert PutAll(s, gs[..k + 1]).pos == i && Printable(gs[k + 1]);
      }
    }
  }

  // ----- single characters, and lines

  /** A newline changes no cell; writing goes on at the start of the next row. */
  lemma NewLineIs(s: Sheet, color: byte)
    ensures var t := Put(s, Glyph(10, color));
            t.pos % 80 == 0 && s.pos < t.pos <= s.pos + 80 && forall i: nat :: Look(t, i) == Look(s, i)
  {
  }

  /** A backspace goes one cell back and leaves a space there in the given color. */
  lemma BackspaceIs(s: Sheet, color: byte)
    requires s.pos > 0
    ensures var t := Put(s, Glyph(8, color));
            t.pos == s.pos - 1 && Look(t, t.pos) == Glyph(0x20, color)
            && forall i: nat | i != t.pos :: Look(t, i) == Look(s, i)
  {
  }

  /** Any other character is put where writing stands, which moves one cell on. */
  lemma OrdinaryIs(s: Sheet, g: Glyph)
    requires g.ch != 10 && g.ch != 8
    ensures var t := Put(s, g);
            t.pos == s.pos + 1 && Look(t, s.pos) == g && forall i: nat | i != s.pos :: Look(t, i) == Look(s, i)
  {
  }

  /** A backspace takes back what was written before it. */
  lemma BackspaceUndoes(s: Sheet, g: Glyph, color: byte)
    requires g.ch != 10 && g.ch != 8
    ensures var t := Put(Put(s, g), Glyph(8, color));
            t.pos == s.pos && Look(t, s.pos) == Glyph(0x20, color)
            && forall i: nat | i != s.pos :: Look(t, i) == Look(s, i)
  {
    OrdinaryIs(s, g);
    BackspaceIs(Put(s, g), color);
  }

  /** A cleared screen is all spaces in the default color, with the cursor in the corner. */
  lemma CleanIs(i: nat)
    ensures Look(CLEAN.sheet, i) == Glyph(0x20, 0x02) && CLEAN.sheet.pos == 0 && CLEAN.rows == 0
  {
  }

  /** The lines with a newline behind each. */
  function Lines(lines: seq<seq<Glyph>>, color: byte): seq<Glyph> {
    if lines == [] then [] else lines[0] + [Glyph(10, color)] + Lines(lines[1..], color)
  }

  ghost predicate AllPrintable(gs: seq<Glyph>) { forall i | 0 <= i < |gs| :: gs[i].ch != 10 && gs[i].ch != 8 }

  /** The rows that the lines take: one, and one more for every 80 characters. */
  function RowsOf(lines: seq<seq<Glyph>>): nat {
    if lines == [] then 0 else |lines[0]| / 80 + 1 + RowsOf(lines[1..])
  }

  /** Lines of fewer than 80 characters take one row each. */
  lemma {:induction false} ShortLines(lines: seq<seq<Glyph>>)
    requires forall k | 0 <= k < |lines| :: |lines[k]| < 80
    ensures RowsOf(lines) == |lines|
  {
    if lines != [] {
      ShortLines(lines[1..]);
    }
  }

  lemma {:induction false} PutAllConcat(s: Sheet, a: seq<Glyph>, b: seq<Glyph>)
    ensures PutAll(s, a + b) == PutAll(PutAll(s, a), b)
    decreases |a|
  {
    if a == [] {
      assert a + b == b;
    } else {
      assert (a + b)[1..] == a[1..] + b;
      PutAllConcat(Put(s, a[0]), a[1..], b);
    }
  }

  /** Characters without newlines are put side by side. */
  lemma {:induction false} PutLine(s: Sheet, gs: seq<Glyph>)
    requires AllPrintable(gs)
    ensures PutAll(s, gs).pos == s.pos + |gs|
    ensures forall c: nat | c < |gs| :: Look(PutAll(s, gs), s.pos + c) == gs[c]
    decreases |gs|
  {
    if gs != [] {
      var t := Put(s, gs[0]);
      OrdinaryIs(s, gs[0]);
      PutLine(t, gs[1..]);
      KeptBelow(t, gs[1..], s.pos);
      forall c: nat | c < |gs|
        ensures Look(PutAll(s, gs), s.pos + c) == gs[c]
      {
        if c > 0 {
          assert Look(PutAll(t, gs[1..]), t.pos + (c - 1)) == gs[1..][c - 1];
        }
      }
    }
  }

  /** One line from the start of a row, and its newline. */
  lemma LineEnds(s: Sheet, gs: seq<Glyph>, color: byte)
    requires s.pos % 80 == 0 && AllPrintable(gs)
    ensures PutAll(s, gs + [Glyph(10, color)]).pos == s.pos + 80 * (|gs| / 80 + 1)
  {
    PutLine(s, gs);
    PutAllConcat(s, gs, [Glyph(10, color)]);
    NewLineIs(PutAll(s, gs), color);
    var t := PutAll(s, gs);
    assert PutAll(t, [Glyph(10, color)]) == Put(t, Glyph(10, color));
    RowStart(s.pos, |gs|, Put(t, Glyph(10, color)).pos);
  }

  lemma RowStart(p: nat, n: nat, q: nat)
    requires p % 80 == 0 && q % 80 == 0 && p + n < q <= p + n + 80
    ensures q == p + 80 * (n / 80 + 1)
  {
    var a, b := p / 80, q / 80;
    assert p == 80 * a && q == 80 * b;
  }

  /** Line k of a text starts as many rows below its beginning as the lines before it take, and its
      character c is c cells further. */
  lemma {:induction false} LineStarts(s: Sheet, lines: seq<seq<Glyph>>, color: byte, k: nat, c: nat)
    requires s.pos % 80 == 0 && (forall j | 0 <= j < |lines| :: AllPrintable(lines[j]))
    requires k < |lines| && c < |lines[k]|
    ensures Look(PutAll(s, Lines(lines, color)), s.pos + 80 * RowsOf(lines[..k]) + c) == lines[k][c]
    decreases |lines|
  {
    var line, rest := lines[0] + [Glyph(10, color)], Lines(lines[1..], color);
    var t := PutAll(s, line);
    PutAllConcat(s, line, rest);
    LineEnds(s, lines[0], color);
    if k == 0 {
      PutLine(s, lines[0]);
      PutAllConcat(s, lines[0], [Glyph(10, color)]);
      NewLineIs(PutAll(s, lines[0]), color);
      NoBackspaces(lines[1..], color);
      KeptBelow(t, rest, s.pos + c);
      assert Look(PutAll(s, lines[0]), s.pos + c) == lines[0][c];
    } else {
      assert lines[..k][1..] == lines[1..][..k - 1];
      LineStarts(t, lines[1..], color, k - 1, c);
    }
  }

  lemma {:induction false} NoBackspaces(lines: seq<seq<Glyph>>, color: byte)
    requires forall j | 0 <= j < |lines| :: AllPrintable(lines[j])
    ensures NoBackspace(Lines(lines, color))
  {
    if lines != [] {
      NoBackspaces(lines[1..], color);
    }
  }

  /** Lines of fewer than 80 characters: line k is row k. */
  lemma ShortLineStarts(lines: seq<seq<Glyph>>, color: byte, k: nat, c: nat)
    requires forall j | 0 <= j < |lines| :: AllPrintable(lines[j]) && |lines[j]| < 80
    requires k < |lines| && c < |lines[k]|
    ensures Look(Run(CLEAN, Lines(lines, color)).sheet, 80 * k + c) == lines[k][c]
  {
    ShortLines(lines[..k]);
    NoBackspaces(lines, color);
    RunIsSheet(CLEAN, Lines(lines, color));
    LineStarts(CLEAN.sheet, lines, color, k, c);
  }
}
