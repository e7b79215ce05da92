/** The text console of kernel/print_utils.c as a value: one cell is a character byte and a style
    byte, and the cursor is a cell number. The in-place byte version is class `Console`. */
module Screen {
  import opened MachineTypes

  const WIDTH := 80
  const CELLS := 2000
  /** VGA text memory is 32 KB; only its first `CELLS` cells are on the screen. */
  const TEXT_CELLS := 16384
  const LAST_ROW := 1920

  datatype Cell = Cell(ch: byte, style: byte)

  datatype RawView = View(cells: seq<Cell>, pos: nat, style: byte)

  /** A screen whose cursor is on the screen. */
  type View = v: RawView | |v.cells| == TEXT_CELLS && v.pos < CELLS
    witness View(seq(TEXT_CELLS, _ => Cell(SPACE, 15)), 0, 15)

  function Blank(style: byte): Cell { Cell(SPACE, style) }

  function Blanks(n: nat, style: byte): (s: seq<Cell>)
    ensures |s| == n && forall i | 0 <= i < n :: s[i] == Blank(style)
  {
    seq(n, _ => Blank(style))
  }

  /** `text` as cells of one style. */
  function Styled(text: seq<byte>, style: byte): (s: seq<Cell>)
    ensures |s| == |text| && forall i | 0 <= i < |s| :: s[i] == Cell(text[i], style)
  {
    seq(|text|, i requires 0 <= i < |text| => Cell(text[i], style))
  }

  /** `cells` with `s` written over it from index `at` on. */
  function Blit(cells: seq<Cell>, at: nat, s: seq<Cell>): (r: seq<Cell>)
    requires at + |s| <= |cells|
    ensures |r| == |cells|
    ensures forall i | 0 <= i < |r| :: r[i] == if at <= i < at + |s| then s[i - at] else cells[i]
  {
    cells[..at] + s + cells[at + |s|..]
  }

  /** The 4000 bytes that are on the screen. */
  function Visible(v: View): seq<Cell> { v.cells[..CELLS] }

  function ClearScreen(v: View): View {
    v.(cells := Blanks(CELLS, v.style) + v.cells[CELLS..], pos := 0)
  }

  /** All rows move up by one, the last row becomes blank and gets the cursor. */
  function ScrolledCells(cells: seq<Cell>, style: byte): (r: seq<Cell>)
    requires |cells| == TEXT_CELLS
    ensures |r| == TEXT_CELLS
  {
    cells[WIDTH..CELLS] + Blanks(WIDTH, style) + cells[CELLS..]
  }

  function Scroll(v: View): View {
    v.(cells := ScrolledCells(v.cells, v.style), pos := LAST_ROW)
  }

  function Newline(v: View): View {
    if v.pos >= LAST_ROW then Scroll(v) else v.(pos := (v.pos / WIDTH + 1) * WIDTH)
  }

  /** The cursor steps one cell forward; leaving the screen scrolls it. */
  function Advance(v: View): View {
    if v.pos + 1 == CELLS then Scroll(v) else v.(pos := v.pos + 1)
  }

  function Put(v: View, c: byte): View {
    Advance(v.(cells := v.cells[v.pos := Cell(c, v.style)]))
  }

  function Backspace(v: View): View {
    if v.pos == 0 then v else v.(cells := v.cells[v.pos - 1 := Blank(v.style)], pos := v.pos - 1)
  }

  function PrintChr(v: View, c: byte): View {
    if c == NEWLINE then Newline(v) else if c == BACKSPACE then Backspace(v) else Put(v, c)
  }

  function PrintStr(v: View, s: seq<byte>): View
    decreases |s|
  {
    if s == [] then v else PrintStr(PrintChr(v, s[0]), s[1..])
  }

  lemma {:induction false} PrintStrConcat(v: View, a: seq<byte>, b: seq<byte>)
    ensures PrintStr(v, a + b) == PrintStr(PrintStr(v, a), b)
    decreases |a|
  {
    if a == [] {
      assert a + b == b;
    } else {
      assert (a + b)[1..] == a[1..] + b;
      PrintStrConcat(PrintChr(v, a[0]), a[1..], b);
    }
  }

  /** A character that occupies a cell. */
  predicate Printable(c: byte) { c != NEWLINE && c != BACKSPACE }

  predicate AllPrintable(s: seq<byte>) { forall i | 0 <= i < |s| :: Printable(s[i]) }

  // ----- The cursor alone -----

  /** Where a character takes the cursor: nothing but the cursor cell matters. */
  function ChrPos(p: nat, c: byte): (q: nat)
    requires p < CELLS
    ensures q < CELLS
  {
    if c == NEWLINE then Min((p / WIDTH + 1) * WIDTH, LAST_ROW)
    else if c == BACKSPACE then Max(p - 1, 0)
    else if p + 1 == CELLS then LAST_ROW else p + 1
  }

  function StrPos(p: nat, s: seq<byte>): (q: nat)
    requires p < CELLS
    ensures q < CELLS
    decreases |s|
  {
    if s == [] then p else StrPos(ChrPos(p, s[0]), s[1..])
  }

  lemma {:induction false} PrintStrPos(v: View, s: seq<byte>)
    ensures PrintStr(v, s).pos == StrPos(v.pos, s)
    ensures PrintStr(v, s).style == v.style
    ensures PrintStr(v, s).cells[CELLS..] == v.cells[CELLS..]
    decreases |s|
  {
    if s != [] {
      PrintStrPos(PrintChr(v, s[0]), s[1..]);
      assert PrintChr(v, s[0]).cells[CELLS..] == v.cells[CELLS..];
    }
  }

  lemma {:induction false} StrPosConcat(p: nat, a: seq<byte>, b: seq<byte>)
    requires p < CELLS
    ensures StrPos(p, a + b) == StrPos(StrPos(p, a), b)
    decreases |a|
  {
    if a == [] {
      assert a + b == b;
    } else {
      assert (a + b)[1..] == a[1..] + b;
      StrPosConcat(ChrPos(p, a[0]), a[1..], b);
    }
  }

  function MoveTo(v: View, p: nat): View
    requires p < CELLS
  {
    v.(pos := p)
  }

  /** Row r becomes blank and the cursor goes to the start of its own row. */
  function ClearRow(v: View, r: nat): View
    requires WIDTH * (r + 1) <= TEXT_CELLS
  {
    v.(cells := Blit(v.cells, WIDTH * r, Blanks(WIDTH, v.style)), pos := v.pos / WIDTH * WIDTH)
  }

  // ----- Toroidal cursor moves -----

  datatype Move = Up | Down | Left | Right

  /** The displacement in cells that a move stands for. */
  function Displacement(m: Move): int {
    match m
    case Up => -WIDTH
    case Down => WIDTH
    case Left => -1
    case Right => 1
  }

  function UpPos(p: nat): (q: nat)
    requires p < CELLS
    ensures q < CELLS
  {
    if p / WIDTH == 0 then p + LAST_ROW else p - WIDTH
  }

  function DownPos(p: nat): (q: nat)
    requires p < CELLS
    ensures q < CELLS
  {
    if p / WIDTH == 24 then p - LAST_ROW else p + WIDTH
  }

  /** What the four cursor functions do, with their tests for the screen's edges. */
  function MovePos(p: nat, m: Move): (q: nat)
    requires p < CELLS
    ensures q < CELLS
  {
    match m
    case Up => UpPos(p)
    case Down => DownPos(p)
    case Left => if p % WIDTH == 0 then UpPos(p + (WIDTH - 1)) else p - 1
    case Right => if p % WIDTH == WIDTH - 1 then DownPos(p - (WIDTH - 1)) else p + 1
  }

  function MovesPos(p: nat, ms: seq<Move>): (q: nat)
    requires p < CELLS
    ensures q < CELLS
    decreases |ms|
  {
    if ms == [] then p else MovesPos(MovePos(p, ms[0]), ms[1..])
  }

  /** Net displacement of a run of moves, from how often each move occurs in it. */
  function Net(ms: multiset<Move>): int {
    ms[Right] as int - ms[Left] as int + WIDTH * (ms[Down] as int - ms[Up] as int)
  }

  /** Each edge test amounts to arithmetic modulo the 2000 cells. */
  lemma MoveIsModular(p: nat, m: Move)
    requires p < CELLS
    ensures MovePos(p, m) == (p + Displacement(m)) % CELLS
  {
  }

  lemma NetCons(m: Move, rest: seq<Move>)
    ensures Net(multiset([m] + rest)) == Displacement(m) + Net(multiset(rest))
  {
    assert multiset([m] + rest) == multiset{m} + multiset(rest);
  }

  lemma ModAdd(p: int, d: int, n: int)
    ensures ((p + d) % CELLS + n) % CELLS == (p + (d + n)) % CELLS
  {
  }

  lemma NetTail(ms: seq<Move>)
    requires ms != []
    ensures Net(multiset(ms)) == Displacement(ms[0]) + Net(multiset(ms[1..]))
  {
    assert ms == [ms[0]] + ms[1..];
    NetCons(ms[0], ms[1..]);
  }

  /** Any run of moves ends at the net displacement, modulo the screen. */
  lemma {:induction false} MovesAreModular(p: nat, ms: seq<Move>)
    requires p < CELLS
    ensures MovesPos(p, ms) == (p + Net(multiset(ms))) % CELLS
    decreases |ms|
  {
    if ms != [] {
      NetTail(ms);
      MoveIsModular(p, ms[0]);
      MovesAreModular(MovePos(p, ms[0]), ms[1..]);
      ModAdd(p, Displacement(ms[0]), Net(multiset(ms[1..])));
    }
  }

  /** The order of moves is immaterial. */
  lemma MovesCommute(p: nat, a: seq<Move>, b: seq<Move>)
    requires p < CELLS && multiset(a) == multiset(b)
    ensures MovesPos(p, a) == MovesPos(p, b)
  {
    MovesAreModular(p, a);
    MovesAreModular(p, b);
  }

  /** A run of moves returns to its start if and only if its net displacement is a whole number of screens. */
  lemma MovesReturn(p: nat, ms: seq<Move>)
    requires p < CELLS
    ensures MovesPos(p, ms) == p <==> Net(multiset(ms)) % CELLS == 0
  {
    MovesAreModular(p, ms);
    BackAgain(p, Net(multiset(ms)));
  }

  lemma BackAgain(p: nat, d: int)
    requires p < CELLS
    ensures (p + d) % CELLS == p <==> d % CELLS == 0
  {
  }

  // ----- In numbers -----

  /** Newline, backspace and any other character, in numbers. */
  lemma CharactersInNumbers(v: View, c: byte)
    ensures PrintChr(v, 10).pos == if v.pos >= 1920 then 1920 else (v.pos / 80 + 1) * 80
    ensures v.pos < 1920 ==> PrintChr(v, 10).cells == v.cells
    ensures PrintChr(v, 8).pos == Max(v.pos - 1, 0)
    ensures PrintChr(v, 8).cells == if v.pos == 0 then v.cells else v.cells[v.pos - 1 := Cell(32, v.style)]
    ensures c != 8 && c != 10 ==> PrintChr(v, c).pos == if v.pos == 1999 then 1920 else v.pos + 1
    ensures c != 8 && c != 10 && v.pos < 1999 ==> PrintChr(v, c).cells == v.cells[v.pos := Cell(c, v.style)]
  {
  }

  /** Running off the screen, in numbers: rows move up by 80 cells, the last 80 become blank. */
  lemma ScrollInNumbers(v: View, c: byte, i: nat)
    requires i < 2000
    ensures v.pos >= 1920 ==>
      PrintChr(v, 10).cells[i] == if i < 1920 then v.cells[i + 80] else Cell(32, v.style)
    ensures v.pos == 1999 && c != 8 && c != 10 ==>
      PrintChr(v, c).cells[i]
        == if i == 1919 then Cell(c, v.style) else if i < 1920 then v.cells[i + 80] else Cell(32, v.style)
  {
  }

  /** A cleared screen: 2000 blanks in the current style, the cursor at the top left. */
  lemma ClearedInNumbers(v: View, i: nat)
    requires i < 16384
    ensures ClearScreen(v).cells[i] == if i < 2000 then Cell(32, v.style) else v.cells[i]
    ensures ClearScreen(v).pos == 0 && ClearScreen(v).style == v.style
  {
  }

  /** The moves, in numbers. */
  lemma MovesInNumbers(p: nat)
    requires p < 2000
    ensures MovePos(p, Up) == (p + 1920) % 2000 && MovePos(p, Down) == (p + 80) % 2000
    ensures MovePos(p, Left) == (p + 1999) % 2000 && MovePos(p, Right) == (p + 1) % 2000
  {
  }

  /** A cleared row: its 80 cells are blank in the current style, no other cell of text memory changes, and the
      cursor goes to the start of its own row. */
  lemma ClearedRowInNumbers(v: View, r: nat, i: nat)
    requires 80 * (r + 1) <= 16384 && i < 16384
    ensures ClearRow(v, r).cells[i] == if 80 * r <= i < 80 * r + 80 then Cell(32, v.style) else v.cells[i]
    ensures ClearRow(v, r).pos == v.pos - v.pos % 80 && ClearRow(v, r).style == v.style
  {
  }
}
