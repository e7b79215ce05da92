/** What the status part of a turn of kernel/kernel.c puts on the screen, as one text printed from the status cell. */
module StatusText {
  import opened MachineTypes
  import opened Screen
  import opened Numerals
  import opened Format
  import opened LostCells
  import opened Session

  /** What a piece of the status prints: the rendered text of a call, or the text of a code. */
  function PrintText(p: Print): seq<byte>
    requires PrintMatches(p)
  {
    match p
    case Call(fmt, args) => Render(Parse(fmt, args).value)
    case Interruption(code) => MarkText(code)
  }

  function PrintsText(prints: seq<Print>): seq<byte>
    requires Matched(prints)
  {
    if prints == [] then [] else PrintsText(prints[..|prints| - 1]) + PrintText(prints[|prints| - 1])
  }

  function CodesText(codes: seq<byte>): seq<byte> {
    if codes == [] then [] else CodesText(codes[..|codes| - 1]) + MarkText(codes[|codes| - 1])
  }

  /** No decimal number of the piece runs over the screen's end. */
  predicate PrintFits(cell: nat, p: Print)
    requires cell < CELLS && PrintMatches(p)
  {
    p.Call? ==> AllFit(cell, Parse(p.fmt, p.args).value)
  }

  predicate PrintsFit(cell: nat, prints: seq<Print>)
    requires cell < CELLS && Matched(prints)
  {
    prints == [] ||
    (var n := |prints| - 1;
     PrintsFit(cell, prints[..n]) && PrintFits(StrPos(cell, PrintsText(prints[..n])), prints[n]))
  }

  lemma PrintIsText(v: View, p: Print)
    requires PrintMatches(p)
    ensures ShowPrint(v, p).pos == StrPos(v.pos, PrintText(p)) && ShowPrint(v, p).style == v.style
    ensures PrintFits(v.pos, p) ==> ShowPrint(v, p) == PrintStr(v, PrintText(p))
  {
    PrintStrPos(v, PrintText(p));
    if p.Call? {
      var items := Parse(p.fmt, p.args).value;
      PrintfIsPrintStr(v, items);
      PrintfDiffers(v, items);
    }
  }

  /** Pieces printed one after the other: always the cursor of print_str of their text, and its screen if the
      numbers fit. */
  lemma {:induction false} PrintsAreText(v: View, prints: seq<Print>)
    requires Matched(prints)
    ensures ShowPrints(v, prints).pos == StrPos(v.pos, PrintsText(prints)) && ShowPrints(v, prints).style == v.style
    ensures PrintsFit(v.pos, prints) ==> ShowPrints(v, prints) == PrintStr(v, PrintsText(prints))
  {
    if prints != [] {
      var n := |prints| - 1;
      var w := ShowPrints(v, prints[..n]);
      PrintsAreText(v, prints[..n]);
      PrintIsText(w, prints[n]);
      StrPosConcat(v.pos, PrintsText(prints[..n]), PrintText(prints[n]));
      PrintStrConcat(v, PrintsText(prints[..n]), PrintText(prints[n]));
    }
  }

  lemma {:induction false} CodesAreText(v: View, codes: seq<byte>)
    ensures Interrupted(v, codes) == PrintStr(v, CodesText(codes))
  {
    if codes == [] {
      assert CodeActs(codes) == [];
    } else {
      var n := |codes| - 1;
      assert codes == codes[..n] + [codes[n]];
      CodesAreText(v, codes[..n]);
      OneMoreCode(v, codes[..n], codes[n]);
      PrintStrConcat(v, CodesText(codes[..n]), MarkText(codes[n]));
    }
  }

  // ----- Where the status goes -----

  /** The status starts at its own cell: without codes before that, the cursor of the screen does not matter. */
  lemma StatusIgnoresCursor(v: View, w: View, p: nat, input: TurnInput)
    requires p < CELLS && StatusMatches(input) && input.atStart == []
    requires v.cells == w.cells && v.style == w.style
    ensures StatusOf(v, p, input) == StatusOf(w, p, input)
  {
    assert CodeActs([]) == [];
    assert MoveTo(v, p) == MoveTo(w, p);
  }

  /** The text of a whole status, codes and newlines included. */
  function WholeText(input: TurnInput): seq<byte>
    requires StatusMatches(input)
  {
    PrintsText(input.report) + [10]
    + (CodesText(input.beforeFlags) + PrintsText(input.flags))
    + (CodesText(input.beforeLine) + [10] + CodesText(input.afterStatus))
  }

  /** The report is printed from the status cell on: the cursor, and the screen if the numbers fit. */
  lemma ReportIsText(v: View, p: nat, input: TurnInput)
    requires p < CELLS && StatusMatches(input)
    ensures ShowReport(v, p, input).pos == StrPos(p, PrintsText(input.report))
    ensures ShowReport(v, p, input).style == v.style
    ensures PrintsFit(p, input.report) ==>
      ShowReport(v, p, input) == PrintStr(MoveTo(PrintStr(v, CodesText(input.atStart)), p), PrintsText(input.report))
  {
    CodesAreText(v, input.atStart);
    PrintStrPos(v, CodesText(input.atStart));
    PrintsAreText(MoveTo(Interrupted(v, input.atStart), p), input.report);
  }

  /** The cleared row, when no code comes in meanwhile: the newline's cursor, and a blank row there. */
  lemma LineInNumbers(v: View, i: nat)
    requires i < 2000
    ensures var w, line := OntoClearRow(v, [], []), PrintChr(v, 10);
      && w.pos == line.pos && w.style == v.style && line.pos % 80 == 0 && line.pos <= 1920
      && w.cells[i] == if line.pos <= i < line.pos + 80 then Cell(32, v.style) else line.cells[i]
  {
    assert CodeActs([]) == [];
    var line := Newline(v);
    ClearedRowInNumbers(line, line.pos / WIDTH, i);
    CharactersInNumbers(v, 10);
    assert line.pos / 80 * 80 == line.pos;
  }

  lemma OneNewline(p: nat)
    requires p < CELLS
    ensures StrPos(p, [10]) == ChrPos(p, 10)
  {
    assert [10][1..] == [];
    assert StrPos(p, [10]) == StrPos(ChrPos(p, [10][0]), [10][1..]);
  }

  lemma FlagsPos(v: View, input: TurnInput)
    requires StatusMatches(input)
    ensures ShowFlags(v, input).pos == StrPos(v.pos, CodesText(input.beforeFlags) + PrintsText(input.flags))
    ensures ShowFlags(v, input).style == 15
  {
    var w := Interrupted(v, input.beforeFlags);
    CodesAreText(v, input.beforeFlags);
    PrintStrPos(v, CodesText(input.beforeFlags));
    PrintsAreText(w.(style := 7), input.flags);
    StrPosConcat(v.pos, CodesText(input.beforeFlags), PrintsText(input.flags));
  }

  lemma EndPos(v: View, input: TurnInput)
    ensures ShowEnd(v, input).pos == StrPos(v.pos, CodesText(input.beforeLine) + [10] + CodesText(input.afterStatus))
    ensures ShowEnd(v, input).style == v.style
  {
    var w := Interrupted(v, input.beforeLine);
    CodesPosition(v, input.beforeLine);
    CodesPosition(Newline(w), input.afterStatus);
    LineBetween(v, w, ShowEnd(v, input), CodesText(input.beforeLine), CodesText(input.afterStatus));
  }

  lemma LineBetween(v: View, w: View, end: View, a: seq<byte>, b: seq<byte>)
    requires w.pos == StrPos(v.pos, a) && end.pos == StrPos(Newline(w).pos, b)
    ensures end.pos == StrPos(v.pos, a + [10] + b)
  {
    LinePos(v.pos, a, b);
  }

  lemma CodesPosition(v: View, codes: seq<byte>)
    ensures Interrupted(v, codes).pos == StrPos(v.pos, CodesText(codes)) && Interrupted(v, codes).style == v.style
  {
    CodesAreText(v, codes);
    PrintStrPos(v, CodesText(codes));
  }

  lemma LinePos(p: nat, a: seq<byte>, b: seq<byte>)
    requires p < CELLS
    ensures StrPos(p, a + [10] + b) == StrPos(ChrPos(StrPos(p, a), 10), b)
  {
    StrPosConcat(p, a + [10], b);
    StrPosConcat(p, a, [10]);
    OneNewline(StrPos(p, a));
  }

  /** The cursor after the status is that of printing its whole text from the status cell, whatever was on the
      screen; it is in the typing style. */
  lemma StatusPos(v: View, p: nat, input: TurnInput)
    requires p < CELLS && StatusMatches(input) && input.afterReport == input.beforeClear == []
    ensures StatusOf(v, p, input).pos == StrPos(p, WholeText(input)) && StatusOf(v, p, input).style == 15
  {
    var report := ShowReport(v, p, input);
    var line := OntoClearRow(report, [], []);
    var flags := ShowFlags(line, input);
    var a, b, c := PrintsText(input.report), CodesText(input.beforeFlags) + PrintsText(input.flags),
      CodesText(input.beforeLine) + [10] + CodesText(input.afterStatus);
    ReportIsText(v, p, input);
    LineInNumbers(report, 0);
    OneNewline(report.pos);
    FlagsPos(line, input);
    EndPos(flags, input);
    StrPosConcat(p, a, [10]);
    StrPosConcat(p, a + [10], b);
    StrPosConcat(p, a + [10] + b, c);
  }

  // ----- The row of the flags -----

  /** Printable text that ends before the screen's end lies where it was printed. */
  lemma {:induction false} TextInPlace(v: View, s: seq<byte>)
    requires AllPrintable(s) && v.pos + |s| < CELLS
    ensures PrintStr(v, s) == View(Blit(v.cells, v.pos, Styled(s, v.style)), v.pos + |s|, v.style)
    decreases |s|
  {
    if s == [] {
      assert Blit(v.cells, v.pos, Styled(s, v.style)) == v.cells;
    } else {
      var rest := Styled(s[1..], v.style);
      PutInPlace(v, s[0]);
      TextInPlace(Put(v, s[0]), s[1..]);
      assert Styled(s, v.style) == [Cell(s[0], v.style)] + rest;
      BlitFirst(v.cells, v.pos, Cell(s[0], v.style), rest);
    }
  }

  lemma PutInPlace(v: View, c: byte)
    requires Printable(c) && v.pos + 1 < CELLS
    ensures PrintChr(v, c) == Put(v, c) == View(v.cells[v.pos := Cell(c, v.style)], v.pos + 1, v.style)
  {
  }

  lemma BlitFirst(cells: seq<Cell>, at: nat, first: Cell, rest: seq<Cell>)
    requires at + 1 + |rest| <= |cells|
    ensures Blit(cells[at := first], at + 1, rest) == Blit(cells, at, [first] + rest)
  {
  }

  lemma TextPos(v: View, s: seq<byte>)
    requires AllPrintable(s) && v.pos + |s| < CELLS
    ensures StrPos(v.pos, s) == v.pos + |s|
  {
    TextInPlace(v, s);
    PrintStrPos(v, s);
  }

  /** Numbers in such a text fit. */
  lemma {:induction false} ShortItemsFit(v: View, items: Items)
    requires AllPrintable(Render(items)) && v.pos + |Render(items)| < CELLS
    ensures AllFit(v.pos, items)
    decreases |items|
  {
    if items != [] {
      var item, text, rest := items[0], ItemText(items[0]), Render(items[1..]);
      assert Render(items) == text + rest;
      Halves(text, rest);
      ShortItemFits(v, item);
      TextPos(v, text);
      ShortItemsFit(MoveTo(v, v.pos + |text|), items[1..]);
    }
  }

  lemma Halves(a: seq<byte>, b: seq<byte>)
    requires AllPrintable(a + b)
    ensures AllPrintable(a) && AllPrintable(b)
  {
    assert forall i | 0 <= i < |a| :: a[i] == (a + b)[i];
    assert forall i | 0 <= i < |b| :: b[i] == (a + b)[|a| + i];
  }

  lemma ShortItemFits(v: View, item: Item)
    requires WellTyped(item) && AllPrintable(ItemText(item)) && v.pos + |ItemText(item)| < CELLS
    ensures Fits(v.pos, item)
  {
    if NumberOf(item).Some? {
      var Number(sign, n) := NumberOf(item).value;
      TextOfNumber(item);
      Halves(sign + Decimal(n), Tail(item));
      Halves(sign, Decimal(n));
      TextPos(v, sign);
    }
  }

  lemma {:induction false} ShortPrintsFit(v: View, prints: seq<Print>)
    requires Matched(prints) && AllPrintable(PrintsText(prints)) && v.pos + |PrintsText(prints)| < CELLS
    ensures PrintsFit(v.pos, prints)
  {
    if prints != [] {
      var n := |prints| - 1;
      assert PrintsText(prints) == PrintsText(prints[..n]) + PrintText(prints[n]);
      LastPrintFits(v, PrintsText(prints[..n]), prints[n]);
      ShortPrintsFit(v, prints[..n]);
    }
  }

  lemma LastPrintFits(v: View, text: seq<byte>, p: Print)
    requires PrintMatches(p) && AllPrintable(text + PrintText(p)) && v.pos + |text + PrintText(p)| < CELLS
    ensures AllPrintable(text) && PrintFits(StrPos(v.pos, text), p)
  {
    Halves(text, PrintText(p));
    TextPos(v, text);
    ShortPrintFits(MoveTo(v, v.pos + |text|), p);
  }

  lemma ShortPrintFits(v: View, p: Print)
    requires PrintMatches(p) && AllPrintable(PrintText(p)) && v.pos + |PrintText(p)| < CELLS
    ensures PrintFits(v.pos, p)
  {
    if p.Call? {
      ShortItemsFit(v, Parse(p.fmt, p.args).value);
    }
  }

  /** Flags that stay within their row, printed on a row that was just cleared. */
  lemma FlagsOnRow(v: View, input: TurnInput, i: nat)
    requires StatusMatches(input) && input.beforeFlags == []
    requires AllPrintable(PrintsText(input.flags)) && |PrintsText(input.flags)| < 80
    requires v.pos % 80 == 0 && v.pos <= 1920 && i < 80
    ensures var s, w := PrintsText(input.flags), ShowFlags(v, input);
      && w.cells[v.pos + i] == (if i < |s| then Cell(s[i], 7) else v.cells[v.pos + i])
      && w.pos == v.pos + |s| && w.style == 15
  {
    var s, styled := PrintsText(input.flags), v.(style := 7);
    assert CodeActs([]) == [];
    assert ShowFlags(v, input) == ShowPrints(styled, input.flags).(style := 15);
    ShortPrintsFit(styled, input.flags);
    PrintsAreText(styled, input.flags);
    TextInPlace(styled, s);
  }

  /** The newline that ends the status, without codes: in the last row it moves everything up by a row. */
  lemma EndInNumbers(v: View, input: TurnInput, i: nat)
    requires input.beforeLine == input.afterStatus == [] && i < 2000
    ensures var w := ShowEnd(v, input);
      && w == PrintChr(v, 10)
      && (v.pos < 1920 ==> w.cells[i] == v.cells[i])
      && (v.pos >= 1920 && i < 1920 ==> w.cells[i] == v.cells[i + 80])
  {
    assert CodeActs([]) == [];
    ScrollInNumbers(v, 10, i);
    CharactersInNumbers(v, 10);
  }

  /** In a turn without codes after the report, and with flags that stay within their row: that row shows exactly the
      text of these flags, in style 7, and blanks in the style that was set before, whatever was on the screen.
      It is the row after the report, or the last but one if that was the last row and has been scrolled up. */
  lemma FlagsRow(v: View, p: nat, input: TurnInput, i: nat)
    requires p < CELLS && StatusMatches(input) && i < 80
    requires input.afterReport == input.beforeClear == input.beforeFlags == input.beforeLine == input.afterStatus == []
    requires AllPrintable(PrintsText(input.flags)) && |PrintsText(input.flags)| < 80
    ensures var w, s := StatusOf(v, p, input), PrintsText(input.flags);
      var r := ChrPos(StrPos(p, PrintsText(input.report)), 10);
      && w.cells[if r == 1920 then 1840 + i else r + i] == (if i < |s| then Cell(s[i], 7) else Cell(32, v.style))
      && w.pos == (if r == 1920 then 1920 else r + 80) && w.style == 15
  {
    var report := ShowReport(v, p, input);
    ReportIsText(v, p, input);
    BlankLine(report, i);
    FlagsAndEnd(OntoClearRow(report, [], []), input, i);
  }

  lemma BlankLine(v: View, i: nat)
    requires i < 80
    ensures var line := OntoClearRow(v, [], []);
      && line.pos == ChrPos(v.pos, 10) && line.pos % 80 == 0 && line.pos <= 1920
      && line.cells[line.pos + i] == Cell(32, v.style)
  {
    LineInNumbers(v, 0);
    LineInNumbers(v, OntoClearRow(v, [], []).pos + i);
  }

  lemma FlagsAndEnd(line: View, input: TurnInput, i: nat)
    requires StatusMatches(input) && input.beforeFlags == input.beforeLine == input.afterStatus == []
    requires AllPrintable(PrintsText(input.flags)) && |PrintsText(input.flags)| < 80
    requires line.pos % 80 == 0 && line.pos <= 1920 && i < 80
    ensures var w, s, r := ShowEnd(ShowFlags(line, input), input), PrintsText(input.flags), line.pos;
      && w.cells[if r == 1920 then 1840 + i else r + i] == (if i < |s| then Cell(s[i], 7) else line.cells[r + i])
      && w.pos == (if r == 1920 then 1920 else r + 80) && w.style == 15
  {
    var flags := ShowFlags(line, input);
    FlagsOnRow(line, input, i);
    RowOf(line.pos, |PrintsText(input.flags)|);
    EndInNumbers(flags, input, if line.pos == 1920 then 1840 + i else line.pos + i);
    CharactersInNumbers(flags, 10);
  }

  lemma RowOf(r: nat, n: nat)
    requires r % 80 == 0 && r <= 1920 && n < 80
    ensures (r + n) / 80 == r / 80 && (r < 1920 ==> r + n < 1920)
  {
  }

  // ----- Turns -----

  /** A later turn does not depend on where the cursor is when it begins. */
  lemma TurnIgnoresCursor(v: View, w: View, p: nat, typed: nat, t: Turn)
    requires p < CELLS && typed < CELLS && StatusMatches(t.input) && t.input.atStart == []
    requires v.cells == w.cells && v.style == w.style
    ensures OneTurn(v, p, Some(typed), t) == OneTurn(w, p, Some(typed), t)
  {
    StatusIgnoresCursor(v, w, p, t.input);
  }

  /** The typist's cell after a turn, from the cell before it, or in the first turn from the end of the whole
      text of the status. */
  lemma TurnPos(v: View, p: nat, typed: Option<nat>, t: Turn)
    requires p < CELLS && StatusMatches(t.input) && (typed.Some? ==> typed.value < CELLS)
    ensures typed.Some? ==> OneTurn(v, p, typed, t).pos == ActsPos(typed.value, WindowActs(t))
    ensures typed == None && t.input.afterReport == t.input.beforeClear == [] ==>
      OneTurn(v, p, typed, t).pos == ActsPos(StrPos(p, WholeText(t.input)), WindowActs(t))
  {
    OneTurnPos(v, p, typed, t);
    if t.input.afterReport == t.input.beforeClear == [] {
      StatusPos(v, p, t.input);
    }
  }

  /** After a turn in which nothing else happens, the screen shows its status. */
  lemma IdleTurnShowsStatus(v: View, p: nat, typed: Option<nat>, t: Turn)
    requires p < CELLS && StatusMatches(t.input) && (typed.Some? ==> typed.value < CELLS)
    requires t.keys == [] && t.input.beforeTyping == [] && WindowCodes(t) == []
    ensures OneTurn(v, p, typed, t).cells == StatusOf(v, p, t.input).cells
  {
    assert CodeActs([]) == [];
    OnlyCodes(t);
  }

  lemma OnlyCodes(t: Turn)
    requires t.keys == [] && WindowCodes(t) == []
    ensures WindowActs(t) == []
  {
  }
}
