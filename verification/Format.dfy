/** printf of kernel/print_utils.c: a format and its arguments read as items, the text they stand for,
    and what printing them one by one does to the screen. */
module Format {
  import opened MachineTypes
  import opened Screen
  import opened Canvas
  import opened Numerals
  import opened NumberPrinting

  /** One variable argument, as it is passed on the stack. A floating-point number is the whole part
      and the digits that the float printers get out of it. */
  datatype Arg = Word(w: u32) | Wide(q: u64) | Text(s: CString) | Real(whole: u32, fraction: CString)

  datatype Item = Literal(c: byte) | Field(conversion: byte, arg: Arg)

  const CHR: byte := 99       // %c
  const STR: byte := 115      // %s
  const BIN: byte := 98       // %b
  const INT: byte := 110      // %n
  const UNSIGNED: byte := 117 // %u
  const FLOAT: byte := 102    // %f
  const DOUBLE: byte := 100   // %d
  const HEX32: byte := 120    // %x
  const WIDE: byte := 97      // %a
  const BOOL: byte := 66      // %B
  const HEX16: byte := 88     // %X

  const TRUE_TEXT: seq<byte> := [116, 114, 117, 101]
  const FALSE_TEXT: seq<byte> := [102, 97, 108, 115, 101]

  predicate IsConversion(c: byte) {
    c == CHR || c == STR || c == BIN || c == INT || c == UNSIGNED || c == FLOAT || c == DOUBLE || c == HEX32
    || c == WIDE || c == BOOL || c == HEX16
  }

  /** C leaves the negation of the least 32-bit integer undefined. */
  const INT_MIN: u32 := 0x8000_0000

  /** The argument is of the kind that the conversion takes from the stack. */
  predicate Accepts(conversion: byte, arg: Arg) {
    if conversion == STR then arg.Text?
    else if conversion == WIDE then arg.Wide?
    else if conversion == FLOAT || conversion == DOUBLE then arg.Real?
    else arg.Word? && (conversion == INT ==> arg.w != INT_MIN)
  }

  type Items = s: seq<Item> | forall i | 0 <= i < |s| && s[i].Field? :: WellTyped(s[i])

  predicate WellTyped(item: Item) {
    item.Field? ==> IsConversion(item.conversion) && Accepts(item.conversion, item.arg)
  }

  /** Splits a format into items; None when an argument is missing or of the wrong kind. A '%' before
      any other character stands for itself and takes that character with it. */
  function Parse(fmt: seq<byte>, args: seq<Arg>): Option<Items>
    decreases |fmt|
  {
    if fmt == [] then
      Some([])
    else if fmt[0] != PERCENT then
      Prepend([Literal(fmt[0])], Parse(fmt[1..], args))
    else if |fmt| == 1 then
      Some([Literal(PERCENT)])
    else if !IsConversion(fmt[1]) then
      Prepend([Literal(PERCENT), Literal(fmt[1])], Parse(fmt[2..], args))
    else if args == [] || !Accepts(fmt[1], args[0]) then
      None
    else
      Prepend([Field(fmt[1], args[0])], Parse(fmt[2..], args[1..]))
  }

  function Prepend(first: Items, rest: Option<Items>): Option<Items> {
    match rest
    case None => None
    case Some(items) => Some(first + items)
  }

  // ----- Text -----

  function SignedText(w: u32): seq<byte> {
    if w < INT_MIN then Decimal(w) else [MINUS] + Decimal(0x1_0000_0000 - w)
  }

  /** The value of a stack word taken as a signed integer. */
  function SignedValue(w: u32): int { if w < INT_MIN then w else w - 0x1_0000_0000 }

  function ReadSigned(text: seq<byte>): int {
    if text != [] && text[0] == MINUS then -ReadDecimal(text[1..]) else ReadDecimal(text)
  }

  /** The text of a signed integer reads back to its value. */
  lemma SignedReadsBack(w: u32)
    ensures ReadSigned(SignedText(w)) == SignedValue(w)
  {
    if w < INT_MIN {
      DecimalReadsBack(w);
      assert Decimal(w)[0] != MINUS;
    } else {
      DecimalReadsBack(0x1_0000_0000 - w);
      assert SignedText(w)[1..] == Decimal(0x1_0000_0000 - w);
    }
  }

  function ItemText(item: Item): seq<byte>
    requires WellTyped(item)
  {
    match item
    case Literal(c) => [c]
    case Field(k, arg) =>
      if k == CHR then [arg.w % 0x100]
      else if k == STR then arg.s
      else if k == BIN then Binary(arg.w % 0x100)
      else if k == INT then SignedText(arg.w)
      else if k == UNSIGNED then Decimal(arg.w)
      else if k == HEX32 then Hex(arg.w, 8)
      else if k == WIDE then Decimal(arg.q)
      else if k == BOOL then if arg.w % 0x100 != 0 then TRUE_TEXT else FALSE_TEXT
      else if k == HEX16 then Hex(arg.w % 0x1_0000, 4)
      else Decimal(arg.whole) + [POINT] + arg.fraction
  }

  function Render(items: Items): seq<byte> {
    if items == [] then [] else ItemText(items[0]) + Render(items[1..])
  }

  // ----- Effect on the screen -----

  function PrintUnum(v: View, n: u64): View { PutNumber(v, Numeral(n)) }

  function PrintInum(v: View, w: u32): View {
    if w < INT_MIN then PrintUnum(v, w) else PrintUnum(Put(v, MINUS), 0x1_0000_0000 - w)
  }

  function Show(v: View, item: Item): View
    requires WellTyped(item)
  {
    if item.Literal? then PrintChr(v, item.c)
    else if item.conversion == INT then PrintInum(v, item.arg.w)
    else if item.conversion == UNSIGNED then PrintUnum(v, item.arg.w)
    else if item.conversion == WIDE then PrintUnum(v, item.arg.q)
    else if item.arg.Real? then PrintStr(PrintChr(PrintUnum(v, item.arg.whole), POINT), item.arg.fraction)
    else PrintStr(v, ItemText(item))
  }

  function ShowAll(v: View, items: Items): View
    decreases |items|
  {
    if items == [] then v else ShowAll(Show(v, items[0]), items[1..])
  }

  lemma {:induction false} ShowAllConcat(v: View, a: Items, b: Items)
    ensures ShowAll(v, a + b) == ShowAll(ShowAll(v, a), b)
    decreases |a|
  {
    if a == [] {
      assert a + b == b;
    } else {
      assert (a + b)[1..] == a[1..] + b;
      ShowAllConcat(Show(v, a[0]), a[1..], b);
    }
  }

  // ----- Items with a decimal number -----

  /** The sign of an item's decimal number, and the number. */
  datatype Number = Number(sign: seq<byte>, n: u64)

  /** The decimal number that an item prints, if any. */
  function NumberOf(item: Item): Option<Number>
    requires WellTyped(item)
  {
    if item.Literal? then None
    else if item.conversion == INT && item.arg.w >= INT_MIN then Some(Number([MINUS], 0x1_0000_0000 - item.arg.w))
    else if item.conversion == INT || item.conversion == UNSIGNED then Some(Number([], item.arg.w))
    else if item.conversion == WIDE then Some(Number([], item.arg.q))
    else if item.arg.Real? then Some(Number([], item.arg.whole))
    else None
  }

  /** What an item prints after its number. */
  function Tail(item: Item): seq<byte> {
    if item.Field? && item.arg.Real? then [POINT] + item.arg.fraction else []
  }

  // ----- printf is print_str of the rendered text -----

  /** No decimal number of the item runs over the screen's end when printing starts at cell p. */
  predicate Fits(p: nat, item: Item)
    requires p < CELLS && WellTyped(item)
  {
    match NumberOf(item)
    case None => true
    case Some(Number(sign, n)) => |Decimal(n)| <= CELLS - StrPos(p, sign)
  }

  predicate AllFit(p: nat, items: Items)
    requires p < CELLS
    decreases |items|
  {
    items == [] || (Fits(p, items[0]) && AllFit(StrPos(p, ItemText(items[0])), items[1..]))
  }

  lemma PrintOne(v: View, c: byte)
    ensures PrintStr(v, [c]) == PrintChr(v, c)
  {
    assert [c][1..] == [];
    assert PrintStr(PrintChr(v, c), []) == PrintChr(v, c);
  }

  lemma UnumIsString(v: View, n: u64)
    ensures PrintUnum(v, n).pos == StrPos(v.pos, Decimal(n))
    ensures |Decimal(n)| <= CELLS - v.pos ==> PrintUnum(v, n) == PrintStr(v, Decimal(n))
  {
    NumberAgreesIffItFits(v, n);
    PrintStrPos(v, Decimal(n));
  }

  lemma TextOfReal(item: Item)
    requires WellTyped(item) && item.Field? && item.arg.Real?
    ensures ItemText(item) == [] + Decimal(item.arg.whole) + ([POINT] + item.arg.fraction)
  {
  }

  lemma TextOfNumber(item: Item)
    requires WellTyped(item) && NumberOf(item).Some?
    ensures var number := NumberOf(item).value; ItemText(item) == number.sign + Decimal(number.n) + Tail(item)
  {
    var number := NumberOf(item).value;
    if item.arg.Real? {
      TextOfReal(item);
    } else {
      assert Tail(item) == [];
      assert ItemText(item) == number.sign + Decimal(number.n);
    }
  }

  /** What an item with a decimal number does to the screen: its sign, the number, its tail. */
  function ShowNumber(v: View, number: Number, tail: seq<byte>): View {
    PrintStr(PrintUnum(PrintStr(v, number.sign), number.n), tail)
  }

  lemma ShowOfNumber(v: View, item: Item)
    requires WellTyped(item) && NumberOf(item).Some?
    ensures Show(v, item) == ShowNumber(v, NumberOf(item).value, Tail(item))
  {
    var number := NumberOf(item).value;
    if item.arg.Real? {
      var w := PrintUnum(v, number.n);
      PrintStrConcat(w, [POINT], item.arg.fraction);
      PrintOne(w, POINT);
    } else if number.sign == [MINUS] {
      PrintOne(v, MINUS);
    }
  }

  lemma ShowOfText(v: View, item: Item)
    requires WellTyped(item) && NumberOf(item).None?
    ensures Show(v, item) == PrintStr(v, ItemText(item))
  {
    if item.Literal? {
      PrintOne(v, item.c);
    }
  }

  lemma NumberIsString(v: View, number: Number, tail: seq<byte>)
    ensures var w, text := ShowNumber(v, number, tail), number.sign + Decimal(number.n) + tail;
      && w.pos == StrPos(v.pos, text)
      && (|Decimal(number.n)| <= CELLS - StrPos(v.pos, number.sign) ==> w == PrintStr(v, text))
  {
    var Number(sign, n) := number;
    var d := Decimal(n);
    var v1 := PrintStr(v, sign);
    PrintStrPos(v, sign);
    UnumIsString(v1, n);
    PrintStrPos(PrintUnum(v1, n), tail);
    StrPosConcat(v.pos, sign, d);
    StrPosConcat(v.pos, sign + d, tail);
    PrintStrConcat(v, sign, d);
    PrintStrConcat(v, sign + d, tail);
  }

  lemma ItemIsString(v: View, item: Item)
    requires WellTyped(item)
    ensures Show(v, item).pos == StrPos(v.pos, ItemText(item))
    ensures Fits(v.pos, item) ==> Show(v, item) == PrintStr(v, ItemText(item))
  {
    if NumberOf(item).Some? {
      ShowOfNumber(v, item);
      TextOfNumber(item);
      NumberIsString(v, NumberOf(item).value, Tail(item));
    } else {
      ShowOfText(v, item);
      PrintStrPos(v, ItemText(item));
    }
  }

  /** For every format and matching arguments: printf leaves the cursor where print_str of the rendered
      text would, and if no decimal number straddles the screen's end, the same screen and memory. */
  lemma {:induction false} PrintfIsPrintStr(v: View, items: Items)
    ensures ShowAll(v, items).pos == StrPos(v.pos, Render(items)) == PrintStr(v, Render(items)).pos
    ensures AllFit(v.pos, items) ==> ShowAll(v, items) == PrintStr(v, Render(items))
    decreases |items|
  {
    PrintStrPos(v, Render(items));
    if items != [] {
      var text := ItemText(items[0]);
      ItemIsString(v, items[0]);
      PrintfIsPrintStr(Show(v, items[0]), items[1..]);
      PrintStrConcat(v, text, Render(items[1..]));
      StrPosConcat(v.pos, text, Render(items[1..]));
    }
  }

  /** A whole session of formatted output on a cleared screen, one printf after the other: the screen shows
      the last 25 rows of the layout of everything that was rendered. */
  lemma PrintfShowsTranscript(v: View, items: Items)
    requires AllFit(0, items) && BACKSPACE !in Render(items)
    ensures var w, t := ShowAll(ClearScreen(v), items), Layout(Render(items));
      var top := WIDTH * TopRow(|t|);
      w.pos == |t| - top && forall i | 0 <= i < CELLS :: w.cells[i] == LayoutCell(t, top + i, v.style)
  {
    PrintfIsPrintStr(ClearScreen(v), items);
    ScreenShowsTranscript(v, Render(items));
  }

  lemma {:induction false} RenderConcat(a: Items, b: Items)
    ensures Render(a + b) == Render(a) + Render(b)
  {
    if a == [] {
      assert a + b == b;
    } else {
      assert (a + b)[1..] == a[1..] + b;
      RenderConcat(a[1..], b);
    }
  }

  /** How many '%' stand directly before index j. */
  function PercentsBefore(fmt: seq<byte>, j: nat): nat
    requires j <= |fmt|
  {
    if j == 0 || fmt[j - 1] != PERCENT then 0 else 1 + PercentsBefore(fmt, j - 1)
  }

  /** Every conversion character stands after an even number of '%', which pair up. */
  predicate TakesNoArgument(fmt: seq<byte>) {
    forall j | 0 <= j < |fmt| && IsConversion(fmt[j]) :: PercentsBefore(fmt, j) % 2 == 0
  }

  lemma {:induction false} PercentsAfterDrop(fmt: seq<byte>, n: nat, j: nat)
    requires n <= j <= |fmt| && PercentsBefore(fmt, n) % 2 == 0
    ensures PercentsBefore(fmt, j) % 2 == PercentsBefore(fmt[n..], j - n) % 2
  {
    if n < j {
      assert fmt[n..][j - n - 1] == fmt[j - 1];
      if fmt[j - 1] == PERCENT {
        PercentsAfterDrop(fmt, n, j - 1);
      }
    }
  }

  /** Where an even number of '%' ends, the rest of the format can be looked at alone. */
  lemma DropTakesNoArgument(fmt: seq<byte>, n: nat)
    requires n <= |fmt| && PercentsBefore(fmt, n) % 2 == 0
    requires forall j | 0 <= j < n && IsConversion(fmt[j]) :: PercentsBefore(fmt, j) % 2 == 0
    ensures TakesNoArgument(fmt) <==> TakesNoArgument(fmt[n..])
  {
    forall j: nat | n <= j < |fmt|
      ensures IsConversion(fmt[j]) && PercentsBefore(fmt, j) % 2 != 0 <==>
        IsConversion(fmt[n..][j - n]) && PercentsBefore(fmt[n..], j - n) % 2 != 0
    {
      PercentsAfterDrop(fmt, n, j);
    }
    if TakesNoArgument(fmt[n..]) {
      forall j: nat | j < |fmt| && IsConversion(fmt[j])
        ensures PercentsBefore(fmt, j) % 2 == 0
      {
        if n <= j {
          assert IsConversion(fmt[n..][j - n]);
        }
      }
    } else {
      var i: nat :| i < |fmt[n..]| && IsConversion(fmt[n..][i]) && PercentsBefore(fmt[n..], i) % 2 != 0;
      assert IsConversion(fmt[n + i]) && PercentsBefore(fmt, n + i) % 2 != 0;
    }
  }

  lemma RenderPrepend(first: Items, rest: Option<Items>, fmt: seq<byte>, n: nat)
    requires n <= |fmt| && Render(first) == fmt[..n]
    requires rest.Some? && Render(rest.value) == fmt[n..]
    ensures Prepend(first, rest).Some? && Render(Prepend(first, rest).value) == fmt
  {
    RenderConcat(first, rest.value);
    assert fmt[..n] + fmt[n..] == fmt;
  }

  /** Formats without arguments: such a format is accepted if and only if each conversion character stands after
      an even number of '%'; then it is printed as it is, its '%' included, whatever arguments come with it. */
  lemma {:induction false} LiteralFormat(fmt: seq<byte>, args: seq<Arg>)
    ensures Parse(fmt, []).Some? <==> TakesNoArgument(fmt)
    ensures TakesNoArgument(fmt) ==> Parse(fmt, args).Some? && Render(Parse(fmt, args).value) == fmt
    decreases |fmt|
  {
    if fmt == [] {
    } else if fmt[0] != PERCENT {
      LiteralFormat(fmt[1..], args);
      DropTakesNoArgument(fmt, 1);
      if TakesNoArgument(fmt) {
        RenderOne(fmt[0]);
        RenderPrepend([Literal(fmt[0])], Parse(fmt[1..], args), fmt, 1);
      }
    } else if |fmt| == 1 {
      RenderOne(PERCENT);
    } else if IsConversion(fmt[1]) {
      assert PercentsBefore(fmt, 1) == 1;
    } else {
      LiteralFormat(fmt[2..], args);
      assert PercentsBefore(fmt, 2) == if fmt[1] == PERCENT then 2 else 0;
      DropTakesNoArgument(fmt, 2);
      if TakesNoArgument(fmt) {
        RenderTwo(PERCENT, fmt[1]);
        RenderPrepend([Literal(PERCENT), Literal(fmt[1])], Parse(fmt[2..], args), fmt, 2);
      }
    }
  }

  lemma RenderOne(c: byte)
    ensures Render([Literal(c)]) == [c]
  {
    assert Render([Literal(c)][1..]) == [];
  }

  lemma RenderTwo(c: byte, d: byte)
    ensures Render([Literal(c), Literal(d)]) == [c, d]
  {
    assert [Literal(c), Literal(d)][1..] == [Literal(d)];
    RenderOne(d);
  }

  // ----- The conversions in numbers -----

  /** What printf prints for a '%' and one more character with one argument. */
  function Formatted(c: byte, arg: Arg): Option<seq<byte>> {
    match Parse([37, c], [arg])
    case None => None
    case Some(items) => Some(Render(items))
  }

  lemma FormattedIs(c: byte, arg: Arg)
    requires IsConversion(c) && Accepts(c, arg)
    ensures Formatted(c, arg) == Some(ItemText(Field(c, arg)))
  {
    var field: Items, none: Items := [Field(c, arg)], [];
    assert [37, c][2..] == [] && [arg][1..] == [] && field + none == field && field[1..] == none;
    assert Parse([37, c], [arg]) == Some(field);
    assert Render(field) == ItemText(field[0]) + [] == ItemText(field[0]);
  }

  /** %u, %n and %a: the text reads back to the word, to its value as a signed integer, to the wide word. */
  lemma DecimalConversions(w: u32, q: u64)
    ensures Formatted(117, Word(w)).Some? && ReadDecimal(Formatted(117, Word(w)).value) == w
    ensures w != 0x8000_0000 ==>
      && Formatted(110, Word(w)).Some?
      && ReadSigned(Formatted(110, Word(w)).value) == if w < 0x8000_0000 then w else w - 0x1_0000_0000
    ensures Formatted(97, Wide(q)).Some? && ReadDecimal(Formatted(97, Wide(q)).value) == q
  {
    FormattedIs(117, Word(w));
    DecimalReadsBack(w);
    if w != 0x8000_0000 {
      FormattedIs(110, Word(w));
      SignedReadsBack(w);
    }
    FormattedIs(97, Wide(q));
    DecimalReadsBack(q);
  }

  /** A text of this many characters that starts with "0" and the given letter. */
  predicate Prefixed(text: Option<seq<byte>>, letter: byte, length: nat) {
    text.Some? && |text.value| == length >= 2 && text.value[0] == 48 && text.value[1] == letter
  }

  lemma DigitsAreRead(text: seq<byte>, letter: byte, digits: seq<byte>, base: nat, n: nat)
    requires text == [48, letter] + digits && base == (if letter == 98 then 2 else 16) && ReadDigits(digits, base) == n
    ensures Prefixed(Some(text), letter, |digits| + 2) && ReadNumber(text) == n
  {
    assert text[2..] == digits;
  }

  /** %x, %X and %b: prefix, length, and the number that the digits read back to. */
  lemma FixedWidthConversions(w: u32)
    ensures Prefixed(Formatted(120, Word(w)), 120, 10) && ReadNumber(Formatted(120, Word(w)).value) == w
    ensures Prefixed(Formatted(88, Word(w)), 120, 6) && ReadNumber(Formatted(88, Word(w)).value) == w % 0x1_0000
    ensures Prefixed(Formatted(98, Word(w)), 98, 10) && ReadNumber(Formatted(98, Word(w)).value) == w % 0x100
  {
    PowersOf16();
    WordIsHex(w);
    HalfWordIsHex(w);
    ByteIsBinary(w);
  }

  lemma WordIsHex(w: u32)
    requires Pow(16, 8) == 0x1_0000_0000
    ensures Prefixed(Formatted(120, Word(w)), 120, 10) && ReadNumber(Formatted(120, Word(w)).value) == w
  {
    FormattedIs(120, Word(w));
    DigitsReadBack(w, 16, 8);
    DigitsAreRead(Hex(w, 8), 120, Digits(w, 16, 8), 16, w);
  }

  lemma HalfWordIsHex(w: u32)
    requires Pow(16, 4) == 0x1_0000
    ensures Prefixed(Formatted(88, Word(w)), 120, 6) && ReadNumber(Formatted(88, Word(w)).value) == w % 0x1_0000
  {
    FormattedIs(88, Word(w));
    DigitsReadBack(w % 0x1_0000, 16, 4);
    DigitsAreRead(Hex(w % 0x1_0000, 4), 120, Digits(w % 0x1_0000, 16, 4), 16, w % 0x1_0000);
  }

  lemma ByteIsBinary(w: u32)
    requires Pow(2, 8) == 0x100
    ensures Prefixed(Formatted(98, Word(w)), 98, 10) && ReadNumber(Formatted(98, Word(w)).value) == w % 0x100
  {
    FormattedIs(98, Word(w));
    DigitsReadBack(w % 0x100, 2, 8);
    DigitsAreRead(Binary(w % 0x100), 98, Digits(w % 0x100, 2, 8), 2, w % 0x100);
  }

  /** %c, %s and %B. */
  lemma TextConversions(w: u32, s: CString)
    ensures Formatted(99, Word(w)) == Some([w % 0x100]) && Formatted(115, Text(s)) == Some(s)
    ensures Formatted(66, Word(w)) ==
      Some(if w % 0x100 != 0 then [116, 114, 117, 101] else [102, 97, 108, 115, 101])
  {
    FormattedIs(99, Word(w));
    FormattedIs(115, Text(s));
    FormattedIs(66, Word(w));
  }

  /** %f and %d: the whole part, a point, and the fraction. */
  lemma FloatConversions(whole: u32, fraction: CString)
    ensures var text := Formatted(102, Real(whole, fraction));
      && text == Formatted(100, Real(whole, fraction)) && text.Some? && |text.value| > |fraction|
      && var n := |text.value| - |fraction| - 1;
         ReadDecimal(text.value[..n]) == whole && text.value[n] == 46 && text.value[n + 1..] == fraction
  {
    FormattedIs(102, Real(whole, fraction));
    FormattedIs(100, Real(whole, fraction));
    DecimalReadsBack(whole);
    PointBetween(Decimal(whole), fraction);
  }

  lemma PointBetween(a: seq<byte>, b: seq<byte>)
    ensures var s := a + [POINT] + b;
      |s| == |a| + 1 + |b| && s[..|a|] == a && s[|a|] == 46 && s[|a| + 1..] == b
  {
  }

  /** No other character takes an argument. */
  lemma ConversionLetters(c: byte)
    ensures IsConversion(c) <==>
      c == 99 || c == 115 || c == 98 || c == 110 || c == 117 || c == 102 || c == 100 || c == 120
      || c == 97 || c == 66 || c == 88
    ensures SignedText(0xFFFF_FFFF) == [45, 49]
  {
    assert Decimal(1) == [49];
  }
}
