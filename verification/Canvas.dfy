/** The reference model of the console: a sheet of 80-column rows that only ever grows. Nothing on it
    scrolls; the screen is a 25-row window on its end. */
module Canvas {
  import opened MachineTypes
  import opened Screen

  datatype Canvas = Canvas(cells: seq<Cell>, pos: nat, style: byte)

  /** The sheet is whole rows, at least a screenful, and the cursor is within the last 25. */
  predicate Sized(c: Canvas) {
    |c.cells| >= CELLS && |c.cells| % WIDTH == 0 && Top(c) <= c.pos < |c.cells|
  }

  function Top(c: Canvas): int { |c.cells| - CELLS }

  /** A row is added when the cursor runs past the end of the sheet. */
  function Grown(cells: seq<Cell>, pos: nat, style: byte): Canvas {
    Canvas(if pos == |cells| then cells + Blanks(WIDTH, style) else cells, pos, style)
  }

  function Type(c: Canvas, ch: byte): (d: Canvas)
    requires Sized(c)
    ensures Sized(d) && d.style == c.style
  {
    if ch == NEWLINE then
      Grown(c.cells, (c.pos / WIDTH + 1) * WIDTH, c.style)
    else if ch == BACKSPACE then
      if c.pos == Top(c) then c else c.(cells := c.cells[c.pos - 1 := Blank(c.style)], pos := c.pos - 1)
    else
      Grown(c.cells[c.pos := Cell(ch, c.style)], c.pos + 1, c.style)
  }

  function TypeAll(c: Canvas, s: seq<byte>): (d: Canvas)
    requires Sized(c)
    ensures Sized(d) && d.style == c.style
    decreases |s|
  {
    if s == [] then c else TypeAll(Type(c, s[0]), s[1..])
  }

  lemma {:induction false} TypeAllSnoc(c: Canvas, s: seq<byte>, ch: byte)
    requires Sized(c)
    ensures TypeAll(c, s + [ch]) == Type(TypeAll(c, s), ch)
    decreases |s|
  {
    if s == [] {
      assert ([] + [ch])[1..] == [];
      assert TypeAll(Type(c, ch), []) == Type(c, ch);
    } else {
      assert (s + [ch])[1..] == s[1..] + [ch];
      TypeAllSnoc(Type(c, s[0]), s[1..], ch);
    }
  }

  /** The last 25 rows of the sheet, followed by the memory that is not on the screen. */
  function Window(c: Canvas, offScreen: seq<Cell>): View
    requires Sized(c) && |offScreen| == TEXT_CELLS - CELLS
  {
    View(c.cells[Top(c)..] + offScreen, c.pos - Top(c), c.style)
  }

  function CanvasOf(v: View): (c: Canvas)
    ensures Sized(c)
  {
    Canvas(Visible(v), v.pos, v.style)
  }

  lemma WindowOfCanvas(v: View)
    ensures Window(CanvasOf(v), v.cells[CELLS..]) == v
  {
    assert Visible(v) + v.cells[CELLS..] == v.cells;
  }

  /** A row added to the sheet is a scroll of the window. */
  lemma WindowGrows(cells: seq<Cell>, style: byte, off: seq<Cell>)
    requires |cells| >= CELLS && |cells| % WIDTH == 0 && |off| == TEXT_CELLS - CELLS
    ensures ScrolledCells(cells[|cells| - CELLS..] + off, style)
         == (cells + Blanks(WIDTH, style))[|cells| + WIDTH - CELLS..] + off
  {
  }

  lemma WindowWrite(cells: seq<Cell>, i: nat, c: Cell, off: seq<Cell>)
    requires CELLS <= |cells| <= i + CELLS && i < |cells|
    ensures var top := |cells| - CELLS;
      (cells[top..] + off)[i - top := c] == cells[i := c][top..] + off
  {
  }

  lemma WindowNewline(c: Canvas, off: seq<Cell>)
    requires Sized(c) && |off| == TEXT_CELLS - CELLS
    ensures Newline(Window(c, off)) == Window(Type(c, NEWLINE), off)
  {
    var next := (c.pos / WIDTH + 1) * WIDTH;
    assert next <= |c.cells| && (next == |c.cells| <==> c.pos - Top(c) >= LAST_ROW);
    if next == |c.cells| {
      WindowGrows(c.cells, c.style, off);
    } else {
      assert ((c.pos - Top(c)) / WIDTH + 1) * WIDTH == next - Top(c);
    }
  }

  lemma WindowAdvance(c: Canvas, off: seq<Cell>)
    requires Sized(c) && |off| == TEXT_CELLS - CELLS
    ensures Advance(Window(c, off)) == Window(Grown(c.cells, c.pos + 1, c.style), off)
  {
    WindowGrows(c.cells, c.style, off);
  }

  lemma WindowBackspace(c: Canvas, off: seq<Cell>)
    requires Sized(c) && |off| == TEXT_CELLS - CELLS
    ensures Backspace(Window(c, off)) == Window(Type(c, BACKSPACE), off)
  {
    if c.pos > Top(c) {
      WindowWrite(c.cells, c.pos - 1, Blank(c.style), off);
    }
  }

  lemma CellInWindow(c: Canvas, off: seq<Cell>, cell: Cell)
    requires Sized(c) && |off| == TEXT_CELLS - CELLS
    ensures var v := Window(c, off);
      v.(cells := v.cells[v.pos := cell]) == Window(c.(cells := c.cells[c.pos := cell]), off)
  {
    WindowWrite(c.cells, c.pos, cell, off);
  }

  lemma WindowPut(c: Canvas, off: seq<Cell>, ch: byte)
    requires Sized(c) && |off| == TEXT_CELLS - CELLS && Printable(ch)
    ensures Put(Window(c, off), ch) == Window(Type(c, ch), off)
  {
    CellInWindow(c, off, Cell(ch, c.style));
    WindowAdvance(c.(cells := c.cells[c.pos := Cell(ch, c.style)]), off);
  }

  /** One character does to the window what it does to the sheet. */
  lemma WindowStep(c: Canvas, off: seq<Cell>, ch: byte)
    requires Sized(c) && |off| == TEXT_CELLS - CELLS
    ensures PrintChr(Window(c, off), ch) == Window(Type(c, ch), off)
  {
    if ch == NEWLINE {
      WindowNewline(c, off);
    } else if ch == BACKSPACE {
      WindowBackspace(c, off);
    } else {
      WindowPut(c, off, ch);
    }
  }

  /** For every screen and every string, with any number of scrolls and backspaces, the screen is
      the last 25 rows of the sheet that never scrolls. */
  lemma {:induction false} ScreenIsWindow(c: Canvas, off: seq<Cell>, s: seq<byte>)
    requires Sized(c) && |off| == TEXT_CELLS - CELLS
    ensures PrintStr(Window(c, off), s) == Window(TypeAll(c, s), off)
    decreases |s|
  {
    if s != [] {
      WindowStep(c, off, s[0]);
      ScreenIsWindow(Type(c, s[0]), off, s[1..]);
    }
  }

  // ----- The transcript of a text -----

  /** The unbounded 80-column layout of a text: position i is column i % 80 of row i / 80, and a
      newline fills its row up with blanks. */
  function Layout(text: seq<byte>): seq<byte> {
    if text == [] then [] else
      var t := Layout(text[..|text| - 1]);
      var c := text[|text| - 1];
      if c == NEWLINE then t + seq(WIDTH - |t| % WIDTH, _ => SPACE) else t + [c]
  }

  /** The row of the layout that is at the top of the screen once it is n positions long. */
  function TopRow(n: nat): nat { Max(0, n / WIDTH - 24) }

  /** Position i of a layout as a cell; the rest of the sheet is blank. */
  function LayoutCell(t: seq<byte>, i: nat, style: byte): Cell {
    if i < |t| then Cell(t[i], style) else Blank(style)
  }

  /** The sheet that shows a layout. */
  predicate Shows(c: Canvas, t: seq<byte>) {
    && c.pos == |t|
    && |c.cells| == CELLS + WIDTH * TopRow(|t|)
    && forall i | 0 <= i < |c.cells| :: c.cells[i] == LayoutCell(t, i, c.style)
  }

  lemma {:induction false} TranscriptOnSheet(c: Canvas, text: seq<byte>)
    requires Sized(c) && Shows(c, []) && BACKSPACE !in text
    ensures Shows(TypeAll(c, text), Layout(text))
  {
    if text == [] {
    } else {
      var n := |text| - 1;
      var prev, ch := text[..n], text[n];
      assert text == prev + [ch];
      TranscriptOnSheet(c, prev);
      TypeAllSnoc(c, prev, ch);
      TranscriptStep(TypeAll(c, prev), Layout(prev), ch);
    }
  }

  lemma TranscriptStep(c: Canvas, t: seq<byte>, ch: byte)
    requires Sized(c) && Shows(c, t) && ch != BACKSPACE
    ensures Shows(Type(c, ch), if ch == NEWLINE then t + seq(WIDTH - |t| % WIDTH, _ => SPACE) else t + [ch])
  {
  }

  /** From a cleared screen, printing any text without backspaces, however long, shows exactly the
      last 25 rows of its layout, and the cursor is at the layout's end. */
  lemma ScreenShowsTranscript(v: View, text: seq<byte>)
    requires BACKSPACE !in text
    ensures var w, t := PrintStr(ClearScreen(v), text), Layout(text);
      var top := WIDTH * TopRow(|t|);
      && w.pos == |t| - top
      && w.cells[CELLS..] == v.cells[CELLS..]
      && forall i | 0 <= i < CELLS :: w.cells[i] == LayoutCell(t, top + i, v.style)
  {
    var cleared := ClearScreen(v);
    var off := cleared.cells[CELLS..];
    var c := CanvasOf(cleared);
    assert off == v.cells[CELLS..];
    WindowOfCanvas(cleared);
    ScreenIsWindow(c, off, text);
    TranscriptOnSheet(c, text);
    var w := PrintStr(cleared, text);
    var d := TypeAll(c, text);
    assert w == Window(d, off);
    assert w.cells[CELLS..] == off;
    forall i | 0 <= i < CELLS
      ensures w.cells[i] == LayoutCell(Layout(text), WIDTH * TopRow(|Layout(text)|) + i, v.style)
    {
      assert w.cells[i] == d.cells[Top(d) + i];
    }
  }

  // ----- Printable text and backspaces -----

  /** Rows the sheet grows by when k characters are typed at position p of an n-cell sheet. */
  function GrowthRows(n: nat, p: nat, k: nat): nat { Max(0, (p + k) / WIDTH - (n / WIDTH - 1)) }

  /** The sheet with the rows added that k more characters need. */
  function GrownFor(c: Canvas, k: nat): (cells: seq<Cell>)
    requires Sized(c)
    ensures |cells| == |c.cells| + WIDTH * GrowthRows(|c.cells|, c.pos, k) && c.pos + k < |cells|
  {
    c.cells + Blanks(WIDTH * GrowthRows(|c.cells|, c.pos, k), c.style)
  }

  /** The sheet after printable text is typed: rows added as needed, the text written over. */
  function Overwritten(c: Canvas, s: seq<byte>): seq<Cell>
    requires Sized(c)
  {
    Blit(GrownFor(c, |s|), c.pos, Styled(s, c.style))
  }

  lemma GrowthStep(c: Canvas, s: seq<byte>)
    requires Sized(c) && s != [] && Printable(s[0])
    ensures var c1 := Type(c, s[0]);
      |c1.cells| + WIDTH * GrowthRows(|c1.cells|, c1.pos, |s| - 1)
      == |c.cells| + WIDTH * GrowthRows(|c.cells|, c.pos, |s|)
  {
  }

  lemma OverwriteStep(c: Canvas, s: seq<byte>)
    requires Sized(c) && s != [] && Printable(s[0])
    ensures Overwritten(Type(c, s[0]), s[1..]) == Overwritten(c, s)
  {
    GrowthStep(c, s);
    var a, b := Overwritten(Type(c, s[0]), s[1..]), Overwritten(c, s);
    assert |a| == |b|;
    forall i | 0 <= i < |a|
      ensures a[i] == b[i]
    {
    }
  }

  /** Printable text lies on the sheet where it was typed, whatever rows it runs through. */
  lemma {:induction false} TypePrintable(c: Canvas, s: seq<byte>)
    requires Sized(c) && AllPrintable(s)
    ensures TypeAll(c, s) == Canvas(Overwritten(c, s), c.pos + |s|, c.style)
    decreases |s|
  {
    if s == [] {
      assert Overwritten(c, s) == c.cells;
    } else {
      OverwriteStep(c, s);
      TypePrintable(Type(c, s[0]), s[1..]);
    }
  }

  function Repeated(ch: byte, k: nat): (s: seq<byte>)
    ensures |s| == k && forall i | 0 <= i < k :: s[i] == ch
  {
    seq(k, _ => ch)
  }

  /** The sheet after k backspaces: the k cells before the cursor are blank, but nothing above the window. */
  function Backed(c: Canvas, k: nat): Canvas
    requires Sized(c)
  {
    var q := Max(Top(c), c.pos - k);
    Canvas(Blit(c.cells, q, Blanks(c.pos - q, c.style)), q, c.style)
  }

  lemma BackedStep(c: Canvas, k: nat)
    requires Sized(c) && k > 0
    ensures Backed(c, k) == Backed(Type(c, BACKSPACE), k - 1)
  {
    assert Backed(c, k).cells == Backed(Type(c, BACKSPACE), k - 1).cells;
  }

  lemma {:induction false} TypeBackspaces(c: Canvas, k: nat)
    requires Sized(c)
    ensures TypeAll(c, Repeated(BACKSPACE, k)) == Backed(c, k)
    decreases k
  {
    if k == 0 {
      assert Backed(c, 0).cells == c.cells;
    } else {
      assert Repeated(BACKSPACE, k)[1..] == Repeated(BACKSPACE, k - 1);
      TypeBackspaces(Type(c, BACKSPACE), k - 1);
      BackedStep(c, k);
    }
  }

  /** How often the screen scrolls while k characters are printed from cell p. */
  function Scrolls(p: nat, k: nat): nat { Max(0, (p + k) / WIDTH - 24) }

  /** Blanking the part of `s` from index q on leaves what spaces would have left there. */
  lemma BlankedTail(cells: seq<Cell>, p: nat, s: seq<byte>, q: nat, style: byte)
    requires p + |s| <= |cells| && p <= q <= p + |s|
    ensures Blit(Blit(cells, p, Styled(s, style)), q, Blanks(p + |s| - q, style))[q..]
         == Blit(cells, p, Styled(Repeated(SPACE, |s|), style))[q..]
  {
  }

  /** The sheet after the text and its backspaces. */
  function ErasedSheet(c: Canvas, s: seq<byte>): Canvas
    requires Sized(c)
  {
    var grown := GrownFor(c, |s|);
    var q := Max(|grown| - CELLS, c.pos);
    Canvas(Blit(Blit(grown, c.pos, Styled(s, c.style)), q, Blanks(c.pos + |s| - q, c.style)), q, c.style)
  }

  /** The sheet after as many spaces. */
  function SpacedSheet(c: Canvas, k: nat): Canvas
    requires Sized(c)
  {
    Canvas(Blit(GrownFor(c, k), c.pos, Styled(Repeated(SPACE, k), c.style)), c.pos + k, c.style)
  }

  lemma TypeAndErase(c: Canvas, s: seq<byte>)
    requires Sized(c) && AllPrintable(s)
    ensures TypeAll(TypeAll(c, s), Repeated(BACKSPACE, |s|)) == ErasedSheet(c, s)
    ensures TypeAll(c, Repeated(SPACE, |s|)) == SpacedSheet(c, |s|)
  {
    var grown := GrownFor(c, |s|);
    var d := Canvas(Blit(grown, c.pos, Styled(s, c.style)), c.pos + |s|, c.style);
    TypePrintable(c, s);
    assert TypeAll(c, s) == d;
    TypeBackspaces(d, |s|);
    TypePrintable(c, Repeated(SPACE, |s|));
  }

  lemma ErasedTops(v: View, s: seq<byte>)
    ensures var e, f := ErasedSheet(CanvasOf(v), s), SpacedSheet(CanvasOf(v), |s|);
      && Sized(e) && Sized(f) && Top(e) == Top(f) == WIDTH * Scrolls(v.pos, |s|)
      && e.pos == Max(Top(e), v.pos) && f.pos == v.pos + |s|
  {
    var rows := GrowthRows(CELLS, v.pos, |s|);
    assert rows == Scrolls(v.pos, |s|);
    assert |GrownFor(CanvasOf(v), |s|)| == CELLS + WIDTH * rows;
  }

  lemma ErasedWindow(c: Canvas, s: seq<byte>)
    requires Sized(c)
    ensures var e, f := ErasedSheet(c, s), SpacedSheet(c, |s|);
      |e.cells| == |f.cells| >= CELLS && e.cells[Top(e)..] == f.cells[Top(f)..]
  {
    var e, f := ErasedSheet(c, s), SpacedSheet(c, |s|);
    BlankedTail(GrownFor(c, |s|), c.pos, s, e.pos, c.style);
    forall i | Top(e) <= i < |e.cells|
      ensures e.cells[i] == f.cells[i]
    {
      if i >= e.pos {
        assert e.cells[e.pos..][i - e.pos] == f.cells[e.pos..][i - e.pos];
      }
    }
  }

  lemma WindowShows(c: Canvas, off: seq<Cell>)
    requires Sized(c) && |off| == TEXT_CELLS - CELLS
    ensures Visible(Window(c, off)) == c.cells[Top(c)..]
  {
  }

  /** Printable characters followed by as many backspaces: the screen shows what as many spaces
      would have left, through wraps and any number of scrolls. The cursor is back at its start if and
      only if that is still on the screen; otherwise it is at the top left. */
  lemma BackspacesErase(v: View, s: seq<byte>)
    requires AllPrintable(s)
    ensures var w, spaces := PrintStr(v, s + Repeated(BACKSPACE, |s|)), PrintStr(v, Repeated(SPACE, |s|));
      && Visible(w) == Visible(spaces)
      && w.pos == Max(0, v.pos - WIDTH * Scrolls(v.pos, |s|))
      && spaces.pos == v.pos + |s| - WIDTH * Scrolls(v.pos, |s|)
  {
    var k := |s|;
    var c, off := CanvasOf(v), v.cells[CELLS..];
    WindowOfCanvas(v);
    PrintStrConcat(v, s, Repeated(BACKSPACE, k));
    ScreenIsWindow(c, off, s);
    ScreenIsWindow(TypeAll(c, s), off, Repeated(BACKSPACE, k));
    ScreenIsWindow(c, off, Repeated(SPACE, k));
    TypeAndErase(c, s);
    ErasedTops(v, s);
    ErasedWindow(c, s);
    WindowShows(ErasedSheet(c, s), off);
    WindowShows(SpacedSheet(c, k), off);
  }
}
