/** Where the screen after printf differs from the screen after print_str of the rendered text: in the cells of
    the digits that the decimal printers lose, as far as these are not overwritten, erased or scrolled away. */
module LostCells {
  import opened MachineTypes
  import opened Screen
  import opened Numerals
  import opened NumberPrinting
  import opened Format

  /** Same cursor and style, and the cells of the screen that differ are exactly these. */
  ghost predicate DifferOn(w: View, u: View, cells: set<nat>) {
    && w.pos == u.pos && w.style == u.style
    && forall i: nat | i < CELLS :: w.cells[i] != u.cells[i] <==> i in cells
  }

  predicate OnScreen(cells: set<nat>) { forall i | i in cells :: i < CELLS }

  // ----- What becomes of differing cells -----

  /** After so many scrolls: that many rows up, or off the screen. */
  function Raised(cells: set<nat>, scrolls: nat): (r: set<nat>)
    ensures OnScreen(r)
  {
    set i: nat | i < CELLS && Below(cells, scrolls, i)
  }

  /** The cell so many rows below is one of these. */
  predicate Below(cells: set<nat>, rows: nat, i: nat) { i + WIDTH * rows in cells }

  /** After a character that is printed at cell p. */
  function ChrDiff(cells: set<nat>, p: nat, c: byte): set<nat>
    requires p < CELLS
  {
    if c == NEWLINE then if p >= LAST_ROW then Raised(cells, 1) else cells
    else if c == BACKSPACE then if p == 0 then cells else cells - {p - 1}
    else if p + 1 == CELLS then Raised(cells - {p}, 1) else cells - {p}
  }

  function StrDiff(cells: set<nat>, p: nat, s: seq<byte>): set<nat>
    requires p < CELLS
    decreases |s|
  {
    if s == [] then cells else StrDiff(ChrDiff(cells, p, s[0]), ChrPos(p, s[0]), s[1..])
  }

  function LostSet(k: nat, n: nat): (r: set<nat>)
    ensures OnScreen(r)
  {
    set i: nat | i < CELLS && Lost(k, n, i)
  }

  /** After a decimal numeral: its lost cells join. */
  function NumberDiff(cells: set<nat>, p: nat, d: seq<byte>): set<nat>
    requires p < CELLS
  {
    StrDiff(cells, p, d) + if |d| > CELLS - p then LostSet(CELLS - p, |d|) else {}
  }

  function ItemDiff(cells: set<nat>, p: nat, item: Item): set<nat>
    requires p < CELLS && WellTyped(item)
  {
    match NumberOf(item)
    case None => StrDiff(cells, p, ItemText(item))
    case Some(Number(sign, n)) =>
      var at, d := StrPos(p, sign), Decimal(n);
      StrDiff(NumberDiff(StrDiff(cells, p, sign), at, d), StrPos(at, d), Tail(item))
  }

  /** After all items, from the first cell p on. */
  function AllDiff(cells: set<nat>, p: nat, items: Items): set<nat>
    requires p < CELLS
    decreases |items|
  {
    if items == [] then cells
    else AllDiff(ItemDiff(cells, p, items[0]), StrPos(p, ItemText(items[0])), items[1..])
  }

  lemma ScrollDiffers(w: View, u: View, cells: set<nat>)
    requires DifferOn(w, u, cells) && OnScreen(cells)
    ensures DifferOn(Scroll(w), Scroll(u), Raised(cells, 1))
  {
    forall i: nat | i < CELLS
      ensures Scroll(w).cells[i] != Scroll(u).cells[i] <==> i in Raised(cells, 1)
    {
      assert i in Raised(cells, 1) <==> i < CELLS && Below(cells, 1, i);
      if i < LAST_ROW {
        assert Scroll(w).cells[i] == w.cells[i + WIDTH] && Scroll(u).cells[i] == u.cells[i + WIDTH];
      }
    }
  }

  lemma AdvanceDiffers(w: View, u: View, cells: set<nat>)
    requires DifferOn(w, u, cells) && OnScreen(cells)
    ensures DifferOn(Advance(w), Advance(u), if w.pos + 1 == CELLS then Raised(cells, 1) else cells)
  {
    if w.pos + 1 == CELLS {
      ScrollDiffers(w, u, cells);
    }
  }

  lemma ChrDiffers(w: View, u: View, cells: set<nat>, c: byte)
    requires DifferOn(w, u, cells) && OnScreen(cells)
    ensures DifferOn(PrintChr(w, c), PrintChr(u, c), ChrDiff(cells, w.pos, c))
    ensures PrintChr(w, c).pos == ChrPos(w.pos, c) && OnScreen(ChrDiff(cells, w.pos, c))
  {
    if c == NEWLINE {
      if w.pos >= LAST_ROW {
        ScrollDiffers(w, u, cells);
      }
    } else if Printable(c) {
      var cell := Cell(c, w.style);
      AdvanceDiffers(w.(cells := w.cells[w.pos := cell]), u.(cells := u.cells[u.pos := cell]), cells - {w.pos});
    }
  }

  lemma {:induction false} StrDiffers(w: View, u: View, cells: set<nat>, s: seq<byte>)
    requires DifferOn(w, u, cells) && OnScreen(cells)
    ensures DifferOn(PrintStr(w, s), PrintStr(u, s), StrDiff(cells, w.pos, s)) && OnScreen(StrDiff(cells, w.pos, s))
    ensures PrintStr(w, s).pos == StrPos(w.pos, s)
    decreases |s|
  {
    if s != [] {
      ChrDiffers(w, u, cells, s[0]);
      StrDiffers(PrintChr(w, s[0]), PrintChr(u, s[0]), ChrDiff(cells, w.pos, s[0]), s[1..]);
    }
  }

  /** print_str shows a digit in each lost cell. */
  lemma LostAreDigits(v: View, n: u64, i: nat)
    requires |Decimal(n)| > Room(v) && Lost(Room(v), |Decimal(n)|, i)
    ensures i < CELLS && PrintStr(v, Decimal(n)).cells[i] != Blank(v.style)
  {
    var d := Numeral(n);
    StringOnScreen(v, d);
    assert PrintStr(v, d).cells[i] == Cell(d[i - (v.pos - WIDTH)], v.style);
  }

  lemma NumberKeepsStyle(v: View, d: seq<byte>)
    requires |d| <= MAX_DIGITS
    ensures PutNumber(v, d).style == v.style
  {
  }

  lemma FittingDiffers(w: View, u: View, cells: set<nat>, n: u64)
    requires DifferOn(w, u, cells) && OnScreen(cells) && |Decimal(n)| <= Room(w)
    ensures DifferOn(PrintUnum(w, n), PrintStr(u, Decimal(n)), StrDiff(cells, w.pos, Decimal(n)))
  {
    FittingNumber(w, Numeral(n));
    StrDiffers(w, u, cells, Numeral(n));
  }

  /** Cell i after a numeral that straddles the end. */
  lemma StraddlingDiffers(w: View, u: View, cells: set<nat>, n: u64, i: nat)
    requires DifferOn(w, u, cells) && OnScreen(cells) && |Decimal(n)| > Room(w) && i < CELLS
    ensures PrintUnum(w, n).cells[i] != PrintStr(u, Decimal(n)).cells[i] <==>
      i in StrDiff(cells, w.pos, Decimal(n)) || Lost(Room(w), |Decimal(n)|, i)
  {
    var d := Numeral(n);
    StrDiffers(w, u, cells, d);
    StraddlingNumber(w, d);
    if Lost(Room(w), |d|, i) {
      LostAreDigits(u, n, i);
    }
  }

  lemma NumberDiffers(w: View, u: View, cells: set<nat>, n: u64)
    requires DifferOn(w, u, cells) && OnScreen(cells)
    ensures DifferOn(PrintUnum(w, n), PrintStr(u, Decimal(n)), NumberDiff(cells, w.pos, Decimal(n)))
    ensures OnScreen(NumberDiff(cells, w.pos, Decimal(n)))
  {
    var d := Numeral(n);
    StrDiffers(w, u, cells, d);
    UnumIsString(w, n);
    NumberKeepsStyle(w, d);
    PrintStrPos(u, d);
    if |d| <= Room(w) {
      FittingDiffers(w, u, cells, n);
    } else {
      forall i: nat | i < CELLS
        ensures PrintUnum(w, n).cells[i] != PrintStr(u, d).cells[i] <==> i in NumberDiff(cells, w.pos, d)
      {
        StraddlingDiffers(w, u, cells, n, i);
      }
    }
  }

  lemma ItemDiffers(w: View, u: View, cells: set<nat>, item: Item)
    requires WellTyped(item) && DifferOn(w, u, cells) && OnScreen(cells)
    ensures DifferOn(Show(w, item), PrintStr(u, ItemText(item)), ItemDiff(cells, w.pos, item))
    ensures OnScreen(ItemDiff(cells, w.pos, item))
  {
    if NumberOf(item).None? {
      ShowOfText(w, item);
      StrDiffers(w, u, cells, ItemText(item));
    } else {
      var Number(sign, n) := NumberOf(item).value;
      var d, tail := Decimal(n), Tail(item);
      ShowOfNumber(w, item);
      TextOfNumber(item);
      var w1, u1, cells1 := PrintStr(w, sign), PrintStr(u, sign), StrDiff(cells, w.pos, sign);
      StrDiffers(w, u, cells, sign);
      var w2, u2, cells2 := PrintUnum(w1, n), PrintStr(u1, d), NumberDiff(cells1, w1.pos, d);
      NumberDiffers(w1, u1, cells1, n);
      UnumIsString(w1, n);
      StrDiffers(w2, u2, cells2, tail);
      PrintStrConcat(u, sign, d);
      PrintStrConcat(u, sign + d, tail);
    }
  }

  /** For every format and matching arguments, whatever of it fits: the screens after printf and after
      print_str of the rendered text differ exactly in the computed cells. */
  lemma {:induction false} AllDiffers(w: View, u: View, cells: set<nat>, items: Items)
    requires DifferOn(w, u, cells) && OnScreen(cells)
    ensures DifferOn(ShowAll(w, items), PrintStr(u, Render(items)), AllDiff(cells, w.pos, items))
    ensures OnScreen(AllDiff(cells, w.pos, items))
    decreases |items|
  {
    if items != [] {
      var item := items[0];
      ItemDiffers(w, u, cells, item);
      ItemIsString(w, item);
      AllDiffers(Show(w, item), PrintStr(u, ItemText(item)), ItemDiff(cells, w.pos, item), items[1..]);
      PrintStrConcat(u, ItemText(item), Render(items[1..]));
    }
  }

  // ----- Without backspaces, differing cells only go up -----

  predicate Behind(cells: set<nat>, p: nat) { forall i | i in cells :: i < p }

  function Scrolls(p: nat, c: byte): nat {
    if (c == NEWLINE && p >= LAST_ROW) || (Printable(c) && p + 1 == CELLS) then 1 else 0
  }

  /** How often a text that starts at cell p scrolls the screen. */
  function ScrollCount(p: nat, s: seq<byte>): nat
    requires p < CELLS
    decreases |s|
  {
    if s == [] then 0 else Scrolls(p, s[0]) + ScrollCount(ChrPos(p, s[0]), s[1..])
  }

  lemma RaisedByNone(cells: set<nat>)
    requires OnScreen(cells)
    ensures Raised(cells, 0) == cells
  {
    forall i: nat
      ensures i in Raised(cells, 0) <==> i in cells
    {
      assert i in Raised(cells, 0) <==> i < CELLS && Below(cells, 0, i);
    }
  }

  lemma RaisedTwice(cells: set<nat>, a: nat, b: nat)
    requires OnScreen(cells)
    ensures Raised(Raised(cells, a), b) == Raised(cells, a + b)
  {
    forall i: nat
      ensures i in Raised(Raised(cells, a), b) <==> i in Raised(cells, a + b)
    {
      assert Below(Raised(cells, a), b, i) <==> i + WIDTH * b < CELLS && Below(cells, a, i + WIDTH * b);
      assert i + WIDTH * b + WIDTH * a == i + WIDTH * (a + b);
    }
  }

  lemma RaisedJoin(a: set<nat>, b: set<nat>, scrolls: nat)
    ensures Raised(a + b, scrolls) == Raised(a, scrolls) + Raised(b, scrolls)
  {
    forall i: nat
      ensures i in Raised(a + b, scrolls) <==> i in Raised(a, scrolls) + Raised(b, scrolls)
    {
      assert Below(a + b, scrolls, i) <==> Below(a, scrolls, i) || Below(b, scrolls, i);
    }
  }

  lemma ChrRaises(cells: set<nat>, p: nat, c: byte)
    requires p < CELLS && Behind(cells, p) && c != BACKSPACE
    ensures ChrDiff(cells, p, c) == Raised(cells, Scrolls(p, c))
    ensures Behind(ChrDiff(cells, p, c), ChrPos(p, c))
  {
    RaisedByNone(cells);
    assert cells - {p} == cells;
    forall i | i in Raised(cells, 1)
      ensures i + WIDTH < p
    {
      assert Below(cells, 1, i);
    }
  }

  lemma {:induction false} StrRaises(cells: set<nat>, p: nat, s: seq<byte>)
    requires p < CELLS && Behind(cells, p) && BACKSPACE !in s
    ensures StrDiff(cells, p, s) == Raised(cells, ScrollCount(p, s))
    ensures Behind(StrDiff(cells, p, s), StrPos(p, s))
    decreases |s|
  {
    if s == [] {
      RaisedByNone(cells);
    } else {
      ChrRaises(cells, p, s[0]);
      StrRaises(ChrDiff(cells, p, s[0]), ChrPos(p, s[0]), s[1..]);
      RaisedTwice(cells, Scrolls(p, s[0]), ScrollCount(ChrPos(p, s[0]), s[1..]));
    }
  }

  lemma {:induction false} ScrollCountConcat(p: nat, a: seq<byte>, b: seq<byte>)
    requires p < CELLS
    ensures ScrollCount(p, a + b) == ScrollCount(p, a) + ScrollCount(StrPos(p, a), b)
    decreases |a|
  {
    if a == [] {
      assert a + b == b;
    } else {
      assert (a + b)[1..] == a[1..] + b;
      ScrollCountConcat(ChrPos(p, a[0]), a[1..], b);
    }
  }

  // ----- When printf's picture is print_str's -----

  /** The cells that the number of an item loses when the item is printed from cell p on. */
  function LostIn(p: nat, item: Item): (r: set<nat>)
    requires p < CELLS && WellTyped(item)
    ensures OnScreen(r)
  {
    match NumberOf(item)
    case None => {}
    case Some(Number(sign, n)) =>
      var at, d := StrPos(p, sign), Decimal(n);
      if |d| > CELLS - at then LostSet(CELLS - at, |d|) else {}
  }

  /** Where the number of an item ends. */
  function AfterNumber(p: nat, item: Item): (q: nat)
    requires p < CELLS && WellTyped(item)
    ensures q < CELLS
  {
    match NumberOf(item)
    case None => p
    case Some(Number(sign, n)) => StrPos(StrPos(p, sign), Decimal(n))
  }

  /** The lost cells are in the last row, before the cursor. */
  lemma LostInLastRow(v: View, n: u64)
    requires |Decimal(n)| > Room(v)
    ensures var lost := LostSet(Room(v), |Decimal(n)|);
      && (forall scrolls: nat :: Raised(lost, scrolls) == {} <==> scrolls >= 25)
      && Behind(lost, StrPos(v.pos, Decimal(n)))
  {
    var d := Numeral(n);
    var lost, last := LostSet(Room(v), |d|), LAST_ROW + |d| - Room(v) - 1;
    NumberScrollsOnce(v, d);
    assert Lost(Room(v), |d|, last);
    forall scrolls: nat
      ensures Raised(lost, scrolls) == {} <==> scrolls >= 25
    {
      if scrolls >= 25 {
        forall i: nat
          ensures i !in Raised(lost, scrolls)
        {
          assert Below(lost, scrolls, i) ==> i + WIDTH * scrolls < CELLS;
        }
      } else {
        assert Below(lost, scrolls, last - WIDTH * scrolls);
        assert last - WIDTH * scrolls in Raised(lost, scrolls);
      }
    }
  }

  lemma NumberRaises(v: View, cells: set<nat>, n: u64)
    requires Behind(cells, v.pos)
    ensures var d := Decimal(n);
      && NumberDiff(cells, v.pos, d) ==
        Raised(cells, ScrollCount(v.pos, d)) + (if |d| > Room(v) then LostSet(Room(v), |d|) else {})
      && Behind(NumberDiff(cells, v.pos, d), StrPos(v.pos, d))
  {
    var d := Numeral(n);
    StrRaises(cells, v.pos, d);
    if |d| > Room(v) {
      LostInLastRow(v, n);
    }
  }

  /** Cells that go up in three steps, and others that join before the last one. */
  lemma RaisedInSteps(cells: set<nat>, lost: set<nat>, a: nat, b: nat, c: nat, total: nat,
                      cells1: set<nat>, cells2: set<nat>, cells3: set<nat>)
    requires OnScreen(cells) && OnScreen(lost) && total == a + b + c
    requires cells1 == Raised(cells, a) && cells2 == Raised(cells1, b) + lost && cells3 == Raised(cells2, c)
    ensures cells3 == Raised(cells, total) + Raised(lost, c)
  {
    RaisedTwice(cells, a, b);
    RaisedJoin(Raised(cells, a + b), lost, c);
    RaisedTwice(cells, a + b, c);
  }

  lemma TextPosAndScrolls(p: nat, item: Item)
    requires p < CELLS && WellTyped(item) && NumberOf(item).Some?
    ensures var Number(sign, n) := NumberOf(item).value;
      var at, after := StrPos(p, sign), AfterNumber(p, item);
      && StrPos(p, ItemText(item)) == StrPos(after, Tail(item))
      && ScrollCount(p, ItemText(item))
        == ScrollCount(p, sign) + ScrollCount(at, Decimal(n)) + ScrollCount(after, Tail(item))
  {
    var Number(sign, n) := NumberOf(item).value;
    var d, tail := Decimal(n), Tail(item);
    TextOfNumber(item);
    ScrollCountConcat(p, sign, d);
    ScrollCountConcat(p, sign + d, tail);
    StrPosConcat(p, sign, d);
    StrPosConcat(p, sign + d, tail);
  }

  lemma NumberItemRaises(v: View, cells: set<nat>, item: Item)
    requires WellTyped(item) && NumberOf(item).Some?
    requires Behind(cells, v.pos) && BACKSPACE !in ItemText(item)
    ensures ItemDiff(cells, v.pos, item) ==
      Raised(cells, ScrollCount(v.pos, ItemText(item)))
      + Raised(LostIn(v.pos, item), ScrollCount(AfterNumber(v.pos, item), Tail(item)))
    ensures Behind(ItemDiff(cells, v.pos, item), StrPos(v.pos, ItemText(item)))
  {
    var p := v.pos;
    var Number(sign, n) := NumberOf(item).value;
    TextOfNumber(item);
    TextPosAndScrolls(p, item);
    var at, after := StrPos(p, sign), AfterNumber(p, item);
    var d, tail, lost := Decimal(n), Tail(item), LostIn(p, item);
    StrRaises(cells, p, sign);
    var cells1 := StrDiff(cells, p, sign);
    NumberRaises(MoveTo(v, at), cells1, n);
    var cells2 := NumberDiff(cells1, at, d);
    StrRaises(cells2, after, tail);
    RaisedInSteps(cells, lost, ScrollCount(p, sign), ScrollCount(at, d), ScrollCount(after, tail),
                  ScrollCount(p, ItemText(item)), cells1, cells2, ItemDiff(cells, p, item));
  }

  lemma ItemRaises(v: View, cells: set<nat>, item: Item)
    requires WellTyped(item) && Behind(cells, v.pos) && BACKSPACE !in ItemText(item)
    ensures ItemDiff(cells, v.pos, item) ==
      Raised(cells, ScrollCount(v.pos, ItemText(item)))
      + Raised(LostIn(v.pos, item), ScrollCount(AfterNumber(v.pos, item), Tail(item)))
    ensures Behind(ItemDiff(cells, v.pos, item), StrPos(v.pos, ItemText(item)))
  {
    if NumberOf(item).Some? {
      NumberItemRaises(v, cells, item);
    } else {
      StrRaises(cells, v.pos, ItemText(item));
    }
  }

  /** Every number fits in front of the screen's end or is followed by 25 scrolls, which take what it lost off
      the screen. */
  predicate AllFitOrGone(p: nat, items: Items)
    requires p < CELLS
    decreases |items|
  {
    items == [] ||
    (var item := items[0];
     && (Fits(p, item) || ScrollCount(AfterNumber(p, item), Tail(item) + Render(items[1..])) >= 25)
     && AllFitOrGone(StrPos(p, ItemText(item)), items[1..]))
  }

  lemma FitsLosesNothing(v: View, item: Item)
    requires WellTyped(item)
    ensures Fits(v.pos, item) <==> LostIn(v.pos, item) == {}
    ensures forall scrolls: nat :: Raised(LostIn(v.pos, item), scrolls) == {} <==> Fits(v.pos, item) || scrolls >= 25
  {
    if NumberOf(item).Some? {
      var Number(sign, n) := NumberOf(item).value;
      var at := MoveTo(v, StrPos(v.pos, sign));
      assert StrPos(v.pos, [MINUS]) == StrPos(ChrPos(v.pos, MINUS), [MINUS][1..]);
      if |Decimal(n)| > Room(at) {
        LostInLastRow(at, n);
        RaisedByNone(LostSet(Room(at), |Decimal(n)|));
      }
    }
  }

  lemma RaisedTogether(a: set<nat>, n: nat, b: set<nat>, k: nat, m: nat, joined: set<nat>, nm: nat, km: nat)
    requires OnScreen(a) && OnScreen(b) && nm == n + m && km == k + m
    requires joined == Raised(a, n) + Raised(b, k)
    ensures Raised(joined, m) == {} <==> Raised(a, nm) == {} && Raised(b, km) == {}
  {
    RaisedJoin(Raised(a, n), Raised(b, k), m);
    RaisedTwice(a, n, m);
    RaisedTwice(b, k, m);
  }

  lemma {:induction false} DifferencesGone(v: View, cells: set<nat>, items: Items)
    requires Behind(cells, v.pos) && BACKSPACE !in Render(items)
    ensures AllDiff(cells, v.pos, items) == {} <==>
      Raised(cells, ScrollCount(v.pos, Render(items))) == {} && AllFitOrGone(v.pos, items)
    decreases |items|
  {
    if items == [] {
      RaisedByNone(cells);
    } else {
      var p, item, rest := v.pos, items[0], items[1..];
      var text, more := ItemText(item), Render(rest);
      var q, after := StrPos(p, text), AfterNumber(p, item);
      ItemRaises(v, cells, item);
      DifferencesGone(MoveTo(v, q), ItemDiff(cells, p, item), rest);
      var n, m, k := ScrollCount(p, text), ScrollCount(q, more), ScrollCount(after, Tail(item));
      ScrollCountConcat(p, text, more);
      RaisedTogether(cells, n, LostIn(p, item), k, m, ItemDiff(cells, p, item), ScrollCount(p, text + more), k + m);
      FitsLosesNothing(v, item);
      if NumberOf(item).Some? {
        ScrollsAfterNumber(p, item, more);
      }
    }
  }

  lemma ScrollsAfterNumber(p: nat, item: Item, more: seq<byte>)
    requires p < CELLS && WellTyped(item) && NumberOf(item).Some?
    ensures ScrollCount(AfterNumber(p, item), Tail(item) + more)
      == ScrollCount(AfterNumber(p, item), Tail(item)) + ScrollCount(StrPos(p, ItemText(item)), more)
  {
    var Number(sign, n) := NumberOf(item).value;
    TextOfNumber(item);
    StrPosConcat(p, sign, Decimal(n));
    StrPosConcat(p, sign + Decimal(n), Tail(item));
    ScrollCountConcat(AfterNumber(p, item), Tail(item), more);
  }

  lemma EqualWhereNoneDiffer(w: View, u: View, cells: set<nat>)
    requires DifferOn(w, u, cells) && OnScreen(cells)
    ensures cells == {} <==> Visible(w) == Visible(u)
  {
    if cells == {} {
      assert Visible(w) == Visible(u);
    } else {
      var i :| i in cells;
      assert Visible(w)[i] != Visible(u)[i];
    }
  }

  /** printf and print_str of the rendered text, for every format, matching arguments and cursor: what differs
      is computed from the cursor and the format alone. */
  lemma PrintfDiffers(v: View, items: Items)
    ensures var w, u, cells := ShowAll(v, items), PrintStr(v, Render(items)), AllDiff({}, v.pos, items);
      && DifferOn(w, u, cells)
      && (Visible(w) == Visible(u) <==> cells == {})
  {
    AllDiffers(v, v, {}, items);
    EqualWhereNoneDiffer(ShowAll(v, items), PrintStr(v, Render(items)), AllDiff({}, v.pos, items));
  }

  /** After anything that fits, backspaces included, and without backspaces from then on: printf's picture is
      print_str's if and only if every later number fits or is followed by 25 scrolls. */
  lemma LostDigitsDecide(v: View, before: Items, rest: Items)
    requires AllFit(v.pos, before) && BACKSPACE !in Render(rest)
    ensures var all: Items := before + rest;
      Visible(ShowAll(v, all)) == Visible(PrintStr(v, Render(all)))
      <==> AllFitOrGone(StrPos(v.pos, Render(before)), rest)
  {
    var w := ShowAll(v, before);
    PrintfIsPrintStr(v, before);
    ShowAllConcat(v, before, rest);
    RenderConcat(before, rest);
    PrintStrConcat(v, Render(before), Render(rest));
    PrintfDiffers(w, rest);
    DifferencesGone(w, {}, rest);
    NoneRaised(ScrollCount(w.pos, Render(rest)));
  }

  lemma NoneRaised(scrolls: nat)
    ensures Raised({}, scrolls) == {}
  {
    forall i: nat
      ensures i !in Raised({}, scrolls)
    {
      assert !Below({}, scrolls, i);
    }
  }

  lemma NumberHasNoBackspace(item: Item)
    requires WellTyped(item) && NumberOf(item).Some? && BACKSPACE !in Tail(item)
    ensures BACKSPACE !in ItemText(item)
  {
    TextOfNumber(item);
    var digits := Numeral(NumberOf(item).value.n);
    assert BACKSPACE !in digits && BACKSPACE !in NumberOf(item).value.sign;
  }

  lemma OneItem(p: nat, item: Item)
    requires p < CELLS && WellTyped(item)
    ensures Render([item]) == ItemText(item)
    ensures AllFitOrGone(p, [item]) <==> Fits(p, item) || ScrollCount(AfterNumber(p, item), Tail(item)) >= 25
  {
    var items: Items := [item];
    assert items[1..] == [] && Render(items) == ItemText(item) + [] && Tail(item) + [] == Tail(item);
    assert AllFitOrGone(StrPos(p, ItemText(item)), items[1..]);
  }

  /** A decimal of any conversion that ends the format, when all before it fits: it has to fit too, unless it
      is a %f or %d whose fraction scrolls the screen away. */
  lemma LastNumberDecides(v: View, items: Items, last: Item)
    requires AllFit(v.pos, items) && WellTyped(last) && NumberOf(last).Some? && BACKSPACE !in Tail(last)
    ensures var all: Items, p := items + [last], StrPos(v.pos, Render(items));
      Visible(ShowAll(v, all)) == Visible(PrintStr(v, Render(all)))
      <==> Fits(p, last) || (last.arg.Real? && ScrollCount(AfterNumber(p, last), Tail(last)) >= 25)
  {
    NumberHasNoBackspace(last);
    OneItem(StrPos(v.pos, Render(items)), last);
    LostDigitsDecide(v, items, [last]);
  }
}
