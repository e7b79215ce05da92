/** kernel/print_utils.c on its own state: the text memory as bytes, updated in place, and a cursor held
    as two byte offsets. Every operation is proved against its value-level counterpart. */
module Console {
  import opened MachineTypes
  import opened Screen
  import opened Numerals
  import opened NumberPrinting
  import opened Format

  /** Bytes of text memory, and of one row and of the whole picture in it. */
  const TEXT_BYTES := 2 * TEXT_CELLS
  const ROW_BYTES := 2 * WIDTH
  const SCREEN_BYTES := 2 * CELLS
  const LAST_ROW_OFFSET := SCREEN_BYTES - ROW_BYTES

  /** One step of the forward copy: `a` moved down by a row up to cell k, then one cell further. */
  lemma CopiedOne(a: seq<Cell>, k: nat)
    requires k + WIDTH < |a|
    ensures var s := a[WIDTH..WIDTH + k] + a[k..];
      s[k := s[k + WIDTH]] == a[WIDTH..WIDTH + (k + 1)] + a[k + 1..]
  {
  }

  lemma BlankedOne(front: seq<Cell>, n: nat, back: seq<Cell>, style: byte)
    requires back != []
    ensures (front + Blanks(n, style) + back)[|front| + n := Blank(style)]
         == front + Blanks(n + 1, style) + back[1..]
  {
  }

  lemma BlitOneMore(cells: seq<Cell>, at: nat, n: nat, style: byte)
    requires at + n < |cells|
    ensures Blit(cells, at, Blanks(n, style))[at + n := Blank(style)] == Blit(cells, at, Blanks(n + 1, style))
  {
  }

  /** The two byte offsets name one cell. */
  lemma CursorCell(rowOffset: nat, colOffset: nat)
    requires rowOffset % 2 == 0 && colOffset % ROW_BYTES == 0
    ensures (rowOffset + colOffset) / 2 == rowOffset / 2 + WIDTH * (colOffset / ROW_BYTES)
    ensures rowOffset + colOffset == 2 * ((rowOffset + colOffset) / 2)
  {
    var r, c := rowOffset / 2, colOffset / ROW_BYTES;
    assert rowOffset + colOffset == 2 * (r + WIDTH * c);
  }

  lemma CursorRow(rowOffset: nat, colOffset: nat)
    requires rowOffset < ROW_BYTES && colOffset % ROW_BYTES == 0
    ensures (rowOffset + colOffset) / 2 / WIDTH * WIDTH == colOffset / 2
  {
  }

  class Console {
    /** VIDEO_MEM. */
    const mem: array<byte>
    /** The cursor's byte offset within its row. */
    var rowOffset: u32
    /** The byte offset of the cursor's row. */
    var colOffset: u32
    var style: byte

    /** What `mem` holds, cell by cell. */
    ghost var cells: seq<Cell>

    ghost predicate Linked()
      reads this, mem
    {
      && mem.Length == TEXT_BYTES && |cells| == TEXT_CELLS
      && forall i | 0 <= i < TEXT_CELLS :: cells[i] == Cell(mem[2 * i], mem[2 * i + 1])
    }

    ghost predicate Valid()
      reads this, mem
    {
      && Linked()
      && rowOffset < ROW_BYTES && rowOffset % 2 == 0
      && colOffset < SCREEN_BYTES && colOffset % ROW_BYTES == 0
    }

    /** The abstract screen. */
    ghost function Shown(): View
      requires Valid()
      reads this, mem
    {
      View(cells, (rowOffset + colOffset) / 2, style)
    }

    constructor (memory: array<byte>)
      requires memory.Length == TEXT_BYTES
      ensures Valid() && mem == memory && style == 0x0f && rowOffset == colOffset == 0
    {
      mem := memory;
      rowOffset, colOffset, style := 0, 0, 0x0f;
      cells := seq(TEXT_CELLS, i requires 0 <= i < TEXT_CELLS reads memory => Cell(memory[2 * i], memory[2 * i + 1]));
    }

    /** One character and its style, at a byte offset: that of cell k. */
    method WriteCell(at: nat, c: byte, ghost k: nat)
      requires Linked() && at == 2 * k && k < TEXT_CELLS
      modifies this`cells, mem
      ensures Linked() && cells == old(cells)[k := Cell(c, style)]
    {
      mem[at] := c;
      mem[at + 1] := style;
      cells := cells[k := Cell(c, style)];
    }

    method CopyCell(to: nat, from: nat, ghost k: nat, ghost j: nat)
      requires Linked() && to == 2 * k && from == 2 * j && k < j < TEXT_CELLS
      modifies this`cells, mem
      ensures Linked() && cells == old(cells)[k := old(cells)[j]]
    {
      assert cells[j] == Cell(mem[from], mem[from + 1]);
      mem[to] := mem[from];
      mem[to + 1] := mem[from + 1];
      cells := cells[k := cells[j]];
    }

    method ClearScreen()
      requires Linked()
      modifies this`rowOffset, this`colOffset, this`cells, mem
      ensures Valid()
      ensures Shown() == View(Blanks(CELLS, style) + old(cells)[CELLS..], 0, style)
      ensures old(Valid()) ==> Shown() == Screen.ClearScreen(old(Shown()))
    {
      var i := 0;
      ghost var k := 0;
      while i < SCREEN_BYTES
        invariant 0 <= k <= CELLS && i == 2 * k && Linked()
        invariant cells == [] + Blanks(k, style) + old(cells)[k..]
      {
        BlankedOne([], k, old(cells)[k..], style);
        WriteCell(i, SPACE, k);
        i, k := i + 2, k + 1;
      }
      rowOffset, colOffset := 0, 0;
    }

    /** The first loop of scroll_up: a forward copy of rows 1 to 24 over rows 0 to 23. */
    method CopyRowsUp()
      requires Linked()
      modifies this`cells, mem
      ensures Linked() && cells == old(cells)[WIDTH..CELLS] + old(cells)[LAST_ROW..]
    {
      var i := 0;
      ghost var k := 0;
      while i < LAST_ROW_OFFSET
        invariant 0 <= k <= LAST_ROW && i == 2 * k && Linked()
        invariant cells == old(cells)[WIDTH..WIDTH + k] + old(cells)[k..]
      {
        CopiedOne(old(cells), k);
        CopyCell(i, i + ROW_BYTES, k, k + WIDTH);
        i, k := i + 2, k + 1;
      }
    }

    method ScrollUp()
      requires Linked()
      modifies this`rowOffset, this`colOffset, this`cells, mem
      ensures Valid()
      ensures Shown() == View(ScrolledCells(old(cells), style), LAST_ROW, style)
    {
      CopyRowsUp();
      ghost var kept, rest := old(cells)[WIDTH..CELLS], old(cells)[LAST_ROW..];
      var i := LAST_ROW_OFFSET;
      ghost var k := 0;
      while i < SCREEN_BYTES
        invariant 0 <= k <= WIDTH && i == 2 * (LAST_ROW + k) && Linked()
        invariant cells == kept + Blanks(k, style) + rest[k..]
      {
        BlankedOne(kept, k, rest[k..], style);
        WriteCell(i, SPACE, LAST_ROW + k);
        i, k := i + 2, k + 1;
      }
      assert rest[WIDTH..] == old(cells)[CELLS..];
      rowOffset := 0;
      colOffset := LAST_ROW_OFFSET;
    }

    method PrintNewline()
      requires Valid()
      modifies this`rowOffset, this`colOffset, this`cells, mem
      ensures Valid() && Shown() == Newline(old(Shown()))
    {
      CursorRow(rowOffset, colOffset);
      rowOffset := 0;
      colOffset := colOffset + ROW_BYTES;
      if colOffset >= SCREEN_BYTES {
        ScrollUp();
      }
    }

    /** The step after every character: wrap at the row's end, scroll at the screen's end. */
    method AdvanceCursor() returns (scrolled: bool)
      requires Valid()
      modifies this`rowOffset, this`colOffset, this`cells, mem
      ensures Valid() && Shown() == Advance(old(Shown()))
      ensures scrolled == (old(Shown()).pos + 1 == CELLS)
    {
      CursorCell(rowOffset, colOffset);
      scrolled := false;
      rowOffset := rowOffset + 2;
      if rowOffset >= ROW_BYTES {
        rowOffset := 0;
        colOffset := colOffset + ROW_BYTES;
      }
      if colOffset >= SCREEN_BYTES {
        ScrollUp();
        scrolled := true;
      }
    }

    method PutChr(c: byte)
      requires Valid()
      modifies this`rowOffset, this`colOffset, this`cells, mem
      ensures Valid() && Shown() == Put(old(Shown()), c)
    {
      WriteCell(colOffset + rowOffset, c, Shown().pos);
      var _ := AdvanceCursor();
    }

    method PrintChr(c: byte)
      requires Valid()
      modifies this`rowOffset, this`colOffset, this`cells, mem
      ensures Valid() && Shown() == Screen.PrintChr(old(Shown()), c)
    {
      if c == NEWLINE {
        PrintNewline();
        return;
      }
      if c == BACKSPACE {
        PrintBackspace();
        return;
      }
      PutChr(c);
    }

    /** The cursor one cell back, across row starts. */
    method StepBack()
      requires Valid() && Shown().pos > 0
      modifies this`rowOffset, this`colOffset
      ensures Valid() && Shown() == old(Shown()).(pos := old(Shown()).pos - 1)
    {
      CursorCell(rowOffset, colOffset);
      if rowOffset <= 0 {
        colOffset := colOffset - ROW_BYTES;
        rowOffset := ROW_BYTES - 2;
      } else {
        rowOffset := rowOffset - 2;
      }
    }

    method PrintBackspace()
      requires Valid()
      modifies this`rowOffset, this`colOffset, this`cells, mem
      ensures Valid() && Shown() == Backspace(old(Shown()))
    {
      CursorCell(rowOffset, colOffset);
      if colOffset <= 0 && rowOffset <= 0 {
        return;
      }
      StepBack();
      CursorCell(rowOffset, colOffset);
      WriteCell(colOffset + rowOffset, SPACE, Shown().pos);
    }

    method PrintStr(s: CString)
      requires Valid()
      modifies this`rowOffset, this`colOffset, this`cells, mem
      ensures Valid() && Shown() == Screen.PrintStr(old(Shown()), s)
    {
      var i := 0;
      while i < |s|
        invariant 0 <= i <= |s| && Valid()
        invariant Screen.PrintStr(old(Shown()), s) == Screen.PrintStr(Shown(), s[i..])
      {
        PrintChr(s[i]);
        assert s[i..][1..] == s[i + 1..];
        i := i + 1;
      }
    }

    // ----- Cursor moves -----

    method MoveCursorUp()
      requires Valid()
      modifies this`colOffset
      ensures Valid() && Shown() == old(Shown()).(pos := MovePos(old(Shown()).pos, Up))
    {
      if colOffset < ROW_BYTES {
        colOffset := LAST_ROW_OFFSET;
        return;
      }
      colOffset := colOffset - ROW_BYTES;
    }

    method MoveCursorDown()
      requires Valid()
      modifies this`colOffset
      ensures Valid() && Shown() == old(Shown()).(pos := MovePos(old(Shown()).pos, Down))
    {
      if colOffset >= LAST_ROW_OFFSET {
        colOffset := 0;
        return;
      }
      colOffset := colOffset + ROW_BYTES;
    }

    method MoveCursorRight()
      requires Valid()
      modifies this`rowOffset, this`colOffset
      ensures Valid() && Shown() == old(Shown()).(pos := MovePos(old(Shown()).pos, Right))
    {
      if rowOffset >= ROW_BYTES - 2 {
        rowOffset := 0;
        MoveCursorDown();
        return;
      }
      rowOffset := rowOffset + 2;
    }

    method MoveCursorLeft()
      requires Valid()
      modifies this`rowOffset, this`colOffset
      ensures Valid() && Shown() == old(Shown()).(pos := MovePos(old(Shown()).pos, Left))
    {
      if rowOffset <= 0 {
        rowOffset := ROW_BYTES - 2;
        MoveCursorUp();
        return;
      }
      rowOffset := rowOffset - 2;
    }

    /** Any coordinates are taken; the cursor is then on the screen exactly when they are. */
    method MoveCursorTo(x: byte, y: byte)
      requires Linked()
      modifies this`rowOffset, this`colOffset
      ensures Valid() <==> x < WIDTH && y < CELLS / WIDTH
      ensures Valid() ==> Shown() == View(old(cells), WIDTH * y + x, style)
    {
      colOffset := ROW_BYTES * y;
      rowOffset := x * 2;
    }

    method GetCursorCoord() returns (x: byte, y: byte)
      requires Valid()
      ensures x < WIDTH && y < CELLS / WIDTH && WIDTH * y + x == Shown().pos
    {
      x := rowOffset / 2;
      y := colOffset / ROW_BYTES;
    }

    /** Clears the row after row y. */
    /** The loop of clear_row: a row of text memory, on the screen or beyond it, becomes blank. */
    method BlankRow(row: nat)
      requires Linked() && ROW_BYTES * (row + 1) <= TEXT_BYTES
      modifies this`cells, mem
      ensures Linked() && cells == Blit(old(cells), WIDTH * row, Blanks(WIDTH, style))
    {
      var i := ROW_BYTES * row;
      ghost var n := 0;
      while i < ROW_BYTES * (row + 1)
        invariant 0 <= n <= WIDTH && i == 2 * (WIDTH * row + n) && Linked()
        invariant cells == Blit(old(cells), WIDTH * row, Blanks(n, style))
      {
        BlitOneMore(old(cells), WIDTH * row, n, style);
        WriteCell(i, SPACE, WIDTH * row + n);
        i, n := i + 2, n + 1;
      }
    }

    method ClearRow(y: byte)
      requires Valid() && ROW_BYTES * (y + 2) <= TEXT_BYTES
      modifies this`rowOffset, this`cells, mem
      ensures Valid() && Shown() == Screen.ClearRow(old(Shown()), y + 1)
      ensures forall i | 0 <= i < 16384 ::
        Shown().cells[i] == if 80 * y + 80 <= i < 80 * y + 160 then Cell(32, style) else old(Shown()).cells[i]
      ensures Shown().pos == old(Shown()).pos - old(Shown()).pos % 80
    {
      ghost var v := Shown();
      CursorRow(rowOffset, colOffset);
      BlankRow(y + 1);
      rowOffset := 0;
      forall i | 0 <= i < 16384
        ensures Shown().cells[i] == if 80 * y + 80 <= i < 80 * y + 160 then Cell(32, style) else v.cells[i]
      {
        ClearedRowInNumbers(v, y + 1, i);
      }
      ClearedRowInNumbers(v, y + 1, 0);
    }

    method SetPrintStyle(s: byte)
      modifies this`style
      ensures style == s
      ensures old(Valid()) ==> Valid() && Shown() == old(Shown()).(style := s)
    {
      style := s;
    }

    // ----- Numbers -----

    /** A digit is written away from the cursor, and the cursor advances: one more round for the
        numeral d that was begun on the screen v. */
    method WriteDigit(at: nat, digit: byte, ghost v: View, ghost d: seq<byte>, ghost m: nat) returns (scrolled: bool)
      requires m < |d| <= MAX_DIGITS && digit == d[|d| - 1 - m] && at == 2 * DigitCell(v, |d|, m)
      requires Valid() && Shown() == DigitRounds(v, d, m)
      modifies this`rowOffset, this`colOffset, this`cells, mem
      ensures Valid() && Shown() == DigitRounds(v, d, m + 1)
      ensures scrolled == (m + 1 == CELLS - v.pos)
    {
      RoundsPos(v, d, m);
      WriteCell(at, digit, DigitCell(v, |d|, m));
      scrolled := AdvanceCursor();
    }

    /** The digit loop of the decimal printers: the digits are written from the last to the first, straight
        into memory, and the screen may scroll on the way. */
    method WriteDigits(first: u32, len: nat, number: u64, ghost v: View, ghost d: seq<byte>)
      requires 1 <= |d| <= MAX_DIGITS && Remaining(d, 0, number)
      requires Valid() && Shown() == v && first == 2 * v.pos && len == 2 * (|d| - 1)
      modifies this`rowOffset, this`colOffset, this`cells, mem
      ensures Valid() && Shown() == DigitRounds(v, d, |d|)
    {
      var start, num, i := first, number, 0;
      ghost var m := 0;
      while num > 0 || i == 0
        invariant 0 <= m <= |d| && i == 2 * m
        invariant Valid() && Shown() == DigitRounds(v, d, m)
        invariant start == 2 * StartCell(v, m)
        invariant Remaining(d, m, num)
        decreases |d| - m
      {
        RemainingStep(d, m, num);
        var digit := num % 10;
        var scrolled := WriteDigit(start + len - i, ZERO + digit, v, d, m);
        num := num / 10;
        i, m := i + 2, m + 1;
        if scrolled {
          start := start - ROW_BYTES;
        }
      }
    }

    /** print_unum and print_u64, which differ only in the width of their argument. */
    method PrintUnum(number: u64)
      requires Valid()
      modifies this`rowOffset, this`colOffset, this`cells, mem
      ensures Valid() && Shown() == Format.PrintUnum(old(Shown()), number)
    {
      ghost var d := Numeral(number);
      var start: u32 := rowOffset + colOffset;
      var len := LastDigitOffset(number);
      assert d[..|d| - 0] == d;
      WriteDigits(start, len, number, Shown(), d);
      RoundsPutNumber(old(Shown()), d);
    }

    method PrintInum(w: u32)
      requires Valid() && w != INT_MIN
      modifies this`rowOffset, this`colOffset, this`cells, mem
      ensures Valid() && Shown() == Format.PrintInum(old(Shown()), w)
    {
      if w < INT_MIN {
        PrintUnum(w);
      } else {
        PutChr(MINUS);
        PrintUnum(0x1_0000_0000 - w);
      }
    }

    /** The loop that print_hex_byte, print_hex_u16, print_hex_u32 and print_hex_u64 share, with 2, 4, 8
        and 16 nibbles. */
    method PrintHex(num: u64, width: nat)
      requires Valid()
      modifies this`rowOffset, this`colOffset, this`cells, mem
      ensures Valid() && Shown() == Screen.PrintStr(old(Shown()), Hex(num, width))
    {
      ghost var v := Shown();
      PrintStr([ZERO, 120]);
      assert [ZERO, 120] + [] == [ZERO, 120];
      var i := width;
      while i > 0
        invariant 0 <= i <= width && Valid()
        invariant Shown() == Screen.PrintStr(v, [ZERO, 120] + Digits(Shifted(num, 16, i), 16, width - i))
      {
        i := i - 1;
        var part := Shifted(num, 16, i) % 16;
        PrintChr(DigitChar(part));
        PrintStrAppend(v, [ZERO, 120], Digits(Shifted(num, 16, i + 1), 16, width - i - 1), DigitChar(part));
      }
    }

    method PrintBinByte(num: byte)
      requires Valid()
      modifies this`rowOffset, this`colOffset, this`cells, mem
      ensures Valid() && Shown() == Screen.PrintStr(old(Shown()), Binary(num))
    {
      ghost var v := Shown();
      PrintStr([ZERO, 98]);
      assert [ZERO, 98] + [] == [ZERO, 98];
      var i := 8;
      while i > 0
        invariant 0 <= i <= 8 && Valid()
        invariant Shown() == Screen.PrintStr(v, [ZERO, 98] + Digits(Shifted(num, 2, i), 2, 8 - i))
      {
        i := i - 1;
        if Shifted(num, 2, i) % 2 == 0 {
          PrintOne(Shown(), ZERO);
          PrintStr([ZERO]);
        } else {
          PrintChr(ZERO + 1);
        }
        PrintStrAppend(v, [ZERO, 98], Digits(Shifted(num, 2, i + 1), 2, 7 - i), DigitChar(Shifted(num, 2, i) % 2));
      }
    }

    method PrintBool(b: bool)
      requires Valid()
      modifies this`rowOffset, this`colOffset, this`cells, mem
      ensures Valid() && Shown() == Screen.PrintStr(old(Shown()), if b then TRUE_TEXT else FALSE_TEXT)
    {
      if b {
        PrintStr(TRUE_TEXT);
      } else {
        PrintStr(FALSE_TEXT);
      }
    }

    // ----- printf -----

    method PrintField(conversion: byte, arg: Arg)
      requires Valid() && IsConversion(conversion) && Accepts(conversion, arg)
      modifies this`rowOffset, this`colOffset, this`cells, mem
      ensures Valid() && Shown() == Show(old(Shown()), Field(conversion, arg))
    {
      if conversion == CHR {
        PrintOne(Shown(), arg.w % 0x100);
        PrintChr(arg.w % 0x100);
      } else if conversion == STR {
        PrintStr(arg.s);
      } else if conversion == BIN {
        PrintBinByte(arg.w % 0x100);
      } else if conversion == INT {
        PrintInum(arg.w);
      } else if conversion == UNSIGNED {
        PrintUnum(arg.w);
      } else if conversion == FLOAT || conversion == DOUBLE {
        PrintUnum(arg.whole);
        PrintChr(POINT);
        PrintStr(arg.fraction);
      } else if conversion == HEX32 {
        PrintHex(arg.w, 8);
      } else if conversion == WIDE {
        PrintUnum(arg.q);
      } else if conversion == BOOL {
        PrintBool(arg.w % 0x100 != 0);
      } else {
        PrintHex(arg.w % 0x1_0000, 4);
      }
    }

    method Printf(fmt: CString, args: seq<Arg>)
      requires Valid() && Parse(fmt, args).Some?
      modifies this`rowOffset, this`colOffset, this`cells, mem
      ensures Valid() && Shown() == ShowAll(old(Shown()), Parse(fmt, args).value)
    {
      var i, a := 0, 0;
      ghost var items := Parse(fmt, args).value;
      ghost var done := ShowAll(Shown(), items);
      while i < |fmt|
        invariant 0 <= i <= |fmt| && 0 <= a <= |args| && Valid()
        invariant Parse(fmt[i..], args[a..]) == Some(items)
        invariant ShowAll(Shown(), items) == done
      {
        ghost var v := Shown();
        items := ParseAt(fmt, args, i, a, v);
        if fmt[i] != PERCENT {
          PrintChr(fmt[i]);
        } else if i + 1 < |fmt| {
          if IsConversion(fmt[i + 1]) {
            PrintField(fmt[i + 1], args[a]);
            a := a + 1;
          } else {
            PrintChr(PERCENT);
            PrintChr(fmt[i + 1]);
          }
          i := i + 1;
        } else {
          PrintChr(PERCENT);
        }
        i := i + 1;
      }
    }
  }

  /** What printf finds at offset i of the format, with a arguments consumed, and the items after it. */
  lemma ParseAt(fmt: seq<byte>, args: seq<Arg>, i: nat, a: nat, v: View) returns (rest: Items)
    requires i < |fmt| && a <= |args| && Parse(fmt[i..], args[a..]).Some?
    ensures var items := Parse(fmt[i..], args[a..]).value;
      if fmt[i] != PERCENT then
        Parse(fmt[i + 1..], args[a..]) == Some(rest)
        && ShowAll(v, items) == ShowAll(Screen.PrintChr(v, fmt[i]), rest)
      else if i + 1 == |fmt| then
        rest == [] && ShowAll(v, items) == Screen.PrintChr(v, PERCENT)
      else if IsConversion(fmt[i + 1]) then
        && a < |args| && Accepts(fmt[i + 1], args[a])
        && Parse(fmt[i + 2..], args[a + 1..]) == Some(rest)
        && ShowAll(v, items) == ShowAll(Show(v, Field(fmt[i + 1], args[a])), rest)
      else
        Parse(fmt[i + 2..], args[a..]) == Some(rest)
        && ShowAll(v, items) == ShowAll(Screen.PrintChr(Screen.PrintChr(v, PERCENT), fmt[i + 1]), rest)
  {
    var f := fmt[i..];
    assert f[1..] == fmt[i + 1..];
    if fmt[i] != PERCENT {
      rest := Parse(f[1..], args[a..]).value;
      ShowFirst(v, Literal(fmt[i]), rest);
    } else if i + 1 == |fmt| {
      rest := [];
      ShowFirst(v, Literal(PERCENT), rest);
      assert [Literal(PERCENT)] + rest == [Literal(PERCENT)];
    } else {
      assert f[2..] == fmt[i + 2..];
      if IsConversion(fmt[i + 1]) {
        assert args[a..][1..] == args[a + 1..];
        rest := Parse(f[2..], args[a + 1..]).value;
        ShowFirst(v, Field(fmt[i + 1], args[a]), rest);
      } else {
        rest := Parse(f[2..], args[a..]).value;
        ShowTwo(v, fmt[i + 1], rest);
      }
    }
  }

  /** The first loop of the decimal printers: how far the last digit is from the first, in bytes. */
  method LastDigitOffset(number: u64) returns (len: u32)
    ensures len == 2 * (|Decimal(number)| - 1)
  {
    ghost var n := |Numeral(number)|;
    var num := number;
    len := 0;
    while num > 0
      invariant 0 <= num <= number && len <= 2 * n
      invariant num > 0 ==> len + 2 * |Decimal(num)| == 2 * n
      invariant num == 0 ==> len == if number == 0 then 0 else 2 * n
      decreases num
    {
      num := num / 10;
      len := len + 2;
    }
    if number != 0 {
      len := len - 2;
    }
  }

  lemma DecimalSplits(n: nat)
    ensures var d := Decimal(n);
      && d[|d| - 1] == ZERO + n % 10
      && (|d| == 1 <==> n < 10)
      && (n >= 10 ==> d[..|d| - 1] == Decimal(n / 10))
  {
    if n >= 10 {
      assert (Decimal(n / 10) + [ZERO + n % 10])[..|Decimal(n / 10)|] == Decimal(n / 10);
    }
  }

  /** `num` is what is left of the numeral d when its last m digits are gone. */
  ghost predicate Remaining(d: seq<byte>, m: nat, num: nat) {
    && m <= |d|
    && (m < |d| ==> d[..|d| - m] == Decimal(num) && (num > 0 || m == 0))
    && (m == |d| ==> num == 0)
  }

  lemma RemainingStep(d: seq<byte>, m: nat, num: nat)
    requires Remaining(d, m, num) && m < |d|
    ensures d[|d| - 1 - m] == ZERO + num % 10
    ensures Remaining(d, m + 1, num / 10)
  {
    var front, k := d[..|d| - m], |d| - m - 1;
    DecimalSplits(num);
    assert d[k] == front[k] && d[..k] == front[..k];
  }

  lemma PrintStrAppend(v: View, prefix: seq<byte>, digits: seq<byte>, c: byte)
    ensures Screen.PrintChr(Screen.PrintStr(v, prefix + digits), c) == Screen.PrintStr(v, prefix + (digits + [c]))
  {
    PrintStrConcat(v, prefix + digits, [c]);
    PrintOne(Screen.PrintStr(v, prefix + digits), c);
    assert prefix + digits + [c] == prefix + (digits + [c]);
  }

  lemma ShowFirst(v: View, item: Item, rest: Items)
    requires WellTyped(item)
    ensures ShowAll(v, [item] + rest) == ShowAll(Show(v, item), rest)
  {
    assert ([item] + rest)[1..] == rest;
  }

  lemma ShowTwo(v: View, c: byte, rest: Items)
    ensures ShowAll(v, [Literal(PERCENT), Literal(c)] + rest)
         == ShowAll(Screen.PrintChr(Screen.PrintChr(v, PERCENT), c), rest)
  {
    ShowFirst(v, Literal(PERCENT), [Literal(c)] + rest);
    ShowFirst(Screen.PrintChr(v, PERCENT), Literal(c), rest);
    assert [Literal(PERCENT)] + ([Literal(c)] + rest) == [Literal(PERCENT), Literal(c)] + rest;
  }
}
