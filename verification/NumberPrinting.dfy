/** What the decimal printers leave on the screen, compared with printing the numeral as a string. */
module NumberPrinting {
  import opened MachineTypes
  import opened Screen
  import opened Canvas
  import opened Numerals

  /** Longest numeral the printers are given (a u64). */
  const MAX_DIGITS := 20

  /** The screen once the m least significant digits of the numeral d have been written, last digit
      first, for a numeral that starts at the cursor of v. */
  function Written(v: View, d: seq<byte>, m: nat): View
    requires m <= |d| <= MAX_DIGITS
  {
    var p, n := v.pos, |d|;
    var k := CELLS - p;
    if m < k then
      View(Blit(v.cells, p + n - m, Styled(d[n - m..], v.style)), p + m, v.style)
    else
      var scrolled := Scroll(View(Blit(v.cells, p + n - k, Styled(d[n - k..], v.style)), p, v.style));
      View(Blit(scrolled.cells, p - WIDTH + n - m, Styled(d[n - m..n - k], v.style)), LAST_ROW + m - k, v.style)
  }

  /** The screen after a whole decimal numeral. */
  function PutNumber(v: View, d: seq<byte>): View
    requires |d| <= MAX_DIGITS
  {
    Written(v, d, |d|)
  }

  /** Where the numeral starts after m of its digits are written: a row up if that scrolled. */
  function StartCell(v: View, m: nat): (at: nat)
    requires m <= MAX_DIGITS
  {
    v.pos - if m >= CELLS - v.pos then WIDTH else 0
  }

  /** The cell of the digit that is written after m others. */
  function DigitCell(v: View, n: nat, m: nat): (at: nat)
    requires m < n <= MAX_DIGITS
    ensures at < CELLS + MAX_DIGITS
  {
    StartCell(v, m) + n - 1 - m
  }

  /** One round of the printers' digit loop: the next digit lands at its place, the cursor advances. */
  function DigitRound(v: View, at: nat, digit: byte): View
    requires at < TEXT_CELLS
  {
    Advance(v.(cells := v.cells[at := Cell(digit, v.style)]))
  }

  /** The digits written so far, as long as the end of the screen has not been reached. */
  function Front(v: View, d: seq<byte>, m: nat): View
    requires m <= |d| <= MAX_DIGITS && m <= CELLS - v.pos
  {
    var cells := Blit(v.cells, v.pos + |d| - m, Styled(d[|d| - m..], v.style));
    View(cells, if m == 0 then v.pos else v.pos + m - 1, v.style)
  }

  lemma FrontStep(v: View, d: seq<byte>, m: nat)
    requires m < |d| <= MAX_DIGITS && m < CELLS - v.pos
    ensures Written(v, d, m).cells[DigitCell(v, |d|, m) := Cell(d[|d| - 1 - m], v.style)] == Front(v, d, m + 1).cells
  {
  }

  lemma BlitNothing(cells: seq<Cell>, at: nat)
    requires at <= |cells|
    ensures Blit(cells, at, []) == cells
  {
  }

  /** The moment at which the written digits reach the end of the screen. */
  lemma WrittenAtEnd(v: View, d: seq<byte>)
    requires CELLS - v.pos <= |d| <= MAX_DIGITS
    ensures Written(v, d, CELLS - v.pos) == Scroll(Front(v, d, CELLS - v.pos))
  {
    var n, k := |d|, CELLS - v.pos;
    var front := Blit(v.cells, v.pos + n - k, Styled(d[n - k..], v.style));
    assert Styled(d[n - k..n - k], v.style) == [];
    BlitNothing(ScrolledCells(front, v.style), v.pos - WIDTH + n - k);
    assert Front(v, d, k) == View(front, CELLS - 1, v.style);
  }

  lemma FrontIsWritten(v: View, d: seq<byte>, m: nat)
    requires 0 < m <= |d| <= MAX_DIGITS && m <= CELLS - v.pos
    ensures Written(v, d, m) == Advance(Front(v, d, m))
  {
    if m == CELLS - v.pos {
      WrittenAtEnd(v, d);
    }
  }

  lemma WrittenBeforeEnd(v: View, d: seq<byte>, m: nat)
    requires m < |d| <= MAX_DIGITS && m < CELLS - v.pos
    ensures DigitRound(Written(v, d, m), DigitCell(v, |d|, m), d[|d| - 1 - m]) == Written(v, d, m + 1)
  {
    FrontStep(v, d, m);
    FrontIsWritten(v, d, m + 1);
    assert Written(v, d, m).(cells := Front(v, d, m + 1).cells) == Front(v, d, m + 1);
  }

  lemma BlitOneBefore(cells: seq<Cell>, at: nat, s: seq<Cell>)
    requires s != [] && at + |s| <= |cells|
    ensures Blit(cells, at + 1, s[1..])[at := s[0]] == Blit(cells, at, s)
  {
    var a, b := Blit(cells, at + 1, s[1..])[at := s[0]], Blit(cells, at, s);
    forall i | 0 <= i < |cells|
      ensures a[i] == b[i]
    {
    }
  }

  lemma StyledTail(text: seq<byte>, style: byte)
    requires text != []
    ensures Styled(text, style)[1..] == Styled(text[1..], style) && Styled(text, style)[0] == Cell(text[0], style)
  {
  }

  lemma WrittenAfterEnd(v: View, d: seq<byte>, m: nat)
    requires m < |d| <= MAX_DIGITS && m >= CELLS - v.pos
    ensures DigitRound(Written(v, d, m), DigitCell(v, |d|, m), d[|d| - 1 - m]) == Written(v, d, m + 1)
  {
    var p, n, k := v.pos, |d|, CELLS - v.pos;
    var cells := Scroll(View(Blit(v.cells, p + n - k, Styled(d[n - k..], v.style)), p, v.style)).cells;
    var text := d[n - m - 1..n - k];
    assert text[1..] == d[n - m..n - k] && text[0] == d[n - 1 - m];
    StyledTail(text, v.style);
    BlitOneBefore(cells, p - WIDTH + n - m - 1, Styled(text, v.style));
  }

  lemma WrittenStep(v: View, d: seq<byte>, m: nat)
    requires m < |d| <= MAX_DIGITS
    ensures DigitRound(Written(v, d, m), DigitCell(v, |d|, m), d[|d| - 1 - m]) == Written(v, d, m + 1)
  {
    if m < CELLS - v.pos {
      WrittenBeforeEnd(v, d, m);
    } else {
      WrittenAfterEnd(v, d, m);
    }
  }

  /** The screen after m rounds of the digit loop. */
  function DigitRounds(v: View, d: seq<byte>, m: nat): View
    requires m <= |d| <= MAX_DIGITS
  {
    if m == 0 then v else DigitRound(DigitRounds(v, d, m - 1), DigitCell(v, |d|, m - 1), d[|d| - m])
  }

  lemma {:induction false} RoundsWriteDigits(v: View, d: seq<byte>, m: nat)
    requires m <= |d| <= MAX_DIGITS
    ensures DigitRounds(v, d, m) == Written(v, d, m)
  {
    if m == 0 {
      NothingWritten(v, d);
    } else {
      RoundsWriteDigits(v, d, m - 1);
      WrittenStep(v, d, m - 1);
      assert DigitRounds(v, d, m) == DigitRound(Written(v, d, m - 1), DigitCell(v, |d|, m - 1), d[|d| - 1 - (m - 1)]);
    }
  }

  lemma NothingWritten(v: View, d: seq<byte>)
    requires |d| <= MAX_DIGITS
    ensures Written(v, d, 0) == v
  {
    assert Styled(d[|d|..], v.style) == [];
  }

  /** The digit loop, run to its end, puts the numeral on the screen. */
  lemma RoundsPutNumber(v: View, d: seq<byte>)
    requires |d| <= MAX_DIGITS
    ensures DigitRounds(v, d, |d|) == PutNumber(v, d)
  {
    RoundsWriteDigits(v, d, |d|);
  }

  lemma {:induction false} RoundsPos(v: View, d: seq<byte>, m: nat)
    requires m <= |d| <= MAX_DIGITS
    ensures DigitRounds(v, d, m).pos == v.pos + m - if m >= CELLS - v.pos then WIDTH else 0
    ensures DigitRounds(v, d, m).style == v.style
  {
    if m > 0 {
      RoundsPos(v, d, m - 1);
    }
  }

  /** How many characters are left to the end of the screen. */
  function Room(v: View): nat { CELLS - v.pos }

  /** A numeral (or any short printable text) that fits in front of the screen's end is printed by
      the decimal printers exactly as by print_str, including one that ends on the last cell. */
  lemma FittingNumber(v: View, d: seq<byte>)
    requires |d| <= MAX_DIGITS && AllPrintable(d) && |d| <= Room(v)
    ensures PutNumber(v, d) == PrintStr(v, d)
  {
    StringOnScreen(v, d);
    if |d| < Room(v) {
      assert PutNumber(v, d) == ShortText(v, d);
    } else {
      FittingExactly(v, d);
    }
  }

  /** Up to the last cell: digits written, then a scroll, or the other way round. */
  lemma FittingExactly(v: View, d: seq<byte>)
    requires |d| <= MAX_DIGITS && |d| == Room(v)
    ensures PutNumber(v, d) == ShortText(v, d)
  {
    var a, b := PutNumber(v, d), ShortText(v, d);
    assert d[0..0] == [] && d[0..] == d;
    forall i | 0 <= i < TEXT_CELLS
      ensures a.cells[i] == b.cells[i]
    {
    }
    assert a.cells == b.cells;
  }

  /** Printing at most a row of printable text: at most one scroll. */
  function ShortText(v: View, s: seq<byte>): View
    requires |s| <= MAX_DIGITS
  {
    if |s| < Room(v) then
      View(Blit(v.cells, v.pos, Styled(s, v.style)), v.pos + |s|, v.style)
    else
      View(Blit(Scroll(v).cells, v.pos - WIDTH, Styled(s, v.style)), v.pos - WIDTH + |s|, v.style)
  }

  /** The window of a sheet on which a short text was typed, in terms of the screen it was typed on. */
  lemma ShortTextWindow(v: View, s: seq<byte>)
    requires |s| <= MAX_DIGITS
    ensures Window(Canvas(Overwritten(CanvasOf(v), s), v.pos + |s|, v.style), v.cells[CELLS..]).cells
         == ShortText(v, s).cells
  {
    if |s| < Room(v) {
      TextInsideScreen(v, s);
    } else {
      TextOverTheEnd(v, s);
    }
  }

  lemma TextInsideScreen(v: View, s: seq<byte>)
    requires |s| <= MAX_DIGITS && |s| < Room(v)
    ensures Window(Canvas(Overwritten(CanvasOf(v), s), v.pos + |s|, v.style), v.cells[CELLS..]).cells
         == ShortText(v, s).cells
  {
    assert GrowthRows(CELLS, v.pos, |s|) == 0;
    assert Overwritten(CanvasOf(v), s) == Blit(Visible(v), v.pos, Styled(s, v.style));
  }

  lemma TextOverTheEnd(v: View, s: seq<byte>)
    requires Room(v) <= |s| <= MAX_DIGITS
    ensures Window(Canvas(Overwritten(CanvasOf(v), s), v.pos + |s|, v.style), v.cells[CELLS..]).cells
         == ShortText(v, s).cells
  {
    assert GrowthRows(CELLS, v.pos, |s|) == 1;
    assert Overwritten(CanvasOf(v), s) == Blit(Visible(v) + Blanks(WIDTH, v.style), v.pos, Styled(s, v.style));
  }

  lemma StringOnScreen(v: View, s: seq<byte>)
    requires |s| <= MAX_DIGITS && AllPrintable(s)
    ensures PrintStr(v, s) == ShortText(v, s)
  {
    var c, off := CanvasOf(v), v.cells[CELLS..];
    WindowOfCanvas(v);
    ScreenIsWindow(c, off, s);
    TypePrintable(c, s);
    ShortTextWindow(v, s);
    assert |TypeAll(c, s).cells| == CELLS + if |s| < Room(v) then 0 else WIDTH;
  }

  /** The cells of the screen that a straddling numeral of n characters leaves blank although it
      reaches them: its last min(k, n - k) characters, where k characters of room were left. */
  predicate Lost(k: nat, n: nat, i: nat) {
    LAST_ROW + n - k - Min(k, n - k) <= i < LAST_ROW + n - k
  }

  /** A numeral that runs over the screen's end: same cursor as print_str, and exactly the lost
      cells are blank where print_str shows digits. */
  lemma StraddlingNumber(v: View, d: seq<byte>)
    requires |d| <= MAX_DIGITS && AllPrintable(d) && |d| > Room(v)
    ensures var w, u := PutNumber(v, d), PrintStr(v, d);
      && w.pos == u.pos
      && forall i | 0 <= i < CELLS ::
        w.cells[i] == if Lost(Room(v), |d|, i) then Blank(v.style) else u.cells[i]
  {
    StringOnScreen(v, d);
    var w, u := PutNumber(v, d), ShortText(v, d);
    forall i | 0 <= i < CELLS
      ensures w.cells[i] == if Lost(Room(v), |d|, i) then Blank(v.style) else u.cells[i]
    {
      StraddlingCell(v, d, i);
    }
  }

  lemma StraddlingCell(v: View, d: seq<byte>, i: nat)
    requires Room(v) < |d| <= MAX_DIGITS && i < CELLS
    ensures PutNumber(v, d).cells[i] == if Lost(Room(v), |d|, i) then Blank(v.style) else ShortText(v, d).cells[i]
  {
  }

  /** The decimal printers agree with print_str about the cursor always, and about the picture
      if and only if the numeral fits in front of the screen's end. */
  lemma NumberAgreesIffItFits(v: View, n: u64)
    ensures var w, u := PutNumber(v, Numeral(n)), PrintStr(v, Decimal(n));
      && w.pos == u.pos
      && (Visible(w) == Visible(u) <==> |Decimal(n)| <= Room(v))
      && (w == u <==> |Decimal(n)| <= Room(v))
  {
    var d, k := Numeral(n), Room(v);
    if |d| <= k {
      FittingNumber(v, d);
    } else {
      StraddlingNumber(v, d);
      StringOnScreen(v, d);
      var i := LAST_ROW + |d| - k - 1;
      assert Lost(k, |d|, i);
      assert PrintStr(v, d).cells[i] == Cell(d[|d| - 1], v.style);
      assert Visible(PutNumber(v, d))[i] != Visible(PrintStr(v, d))[i];
    }
  }

  /** For example: at the last cell the number 10 has room for one digit. Its '1' ends up before the last row,
      and the first cell of the last row, where print_str shows its '0', stays blank. */
  lemma TenAtTheLastCell(v: View)
    requires v.pos == CELLS - 1
    ensures Decimal(10) == [ZERO + 1, ZERO]
    ensures PutNumber(v, Numeral(10)).cells[LAST_ROW - 1] == Cell(ZERO + 1, v.style)
    ensures PutNumber(v, Numeral(10)).cells[LAST_ROW] == Blank(v.style)
    ensures PrintStr(v, Decimal(10)).cells[LAST_ROW] == Cell(ZERO, v.style)
  {
    var d := Numeral(10);
    assert Decimal(1) == [ZERO + 1];
    StringOnScreen(v, d);
    StraddlingNumber(v, d);
    assert Lost(Room(v), 2, LAST_ROW) && !Lost(Room(v), 2, LAST_ROW - 1);
  }

  /** At most one scroll happens while a decimal is printed, fitting or not. */
  lemma NumberScrollsOnce(v: View, d: seq<byte>)
    requires |d| <= MAX_DIGITS && AllPrintable(d)
    ensures PutNumber(v, d).pos == StrPos(v.pos, d)
    ensures PutNumber(v, d).pos == v.pos + |d| - (if |d| >= Room(v) then WIDTH else 0)
  {
    StringOnScreen(v, d);
    PrintStrPos(v, d);
  }
}
