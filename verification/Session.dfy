/** The main loop of kernel/kernel.c on values: what the interrupt stub prints between, the status text, and
    whole sessions of turns. */
module Session {
  import opened MachineTypes
  import opened Screen
  import opened Numerals
  import opened NumberPrinting
  import opened KeyRuns
  import opened Format
  import opened Typing

  // ----- What the interrupt stub prints -----

  /** The stub's format: a blank, an opening bracket, a blank, %x, a blank, a closing bracket, a blank. */
  const MARK: CString := [32, 91, 32, 37, 120, 32, 93, 32]

  function MarkItems(code: byte): Items {
    [Literal(32), Literal(91), Literal(32), Field(HEX32, Word(code)), Literal(32), Literal(93), Literal(32)]
  }

  function MarkText(code: byte): seq<byte> { [32, 91, 32] + Hex(code, 8) + [32, 93, 32] }

  /** The screen after the stub has printed a code. */
  function Marked(v: View, code: byte): View { PrintStr(v, MarkText(code)) }

  lemma ParseLiteral(c: byte, rest: seq<byte>, args: seq<Arg>)
    requires c != PERCENT
    ensures Parse([c] + rest, args) == Prepend([Literal(c)], Parse(rest, args))
  {
    assert ([c] + rest)[1..] == rest;
  }

  lemma ParseField(k: byte, rest: seq<byte>, arg: Arg, args: seq<Arg>)
    requires IsConversion(k) && Accepts(k, arg)
    ensures Parse([PERCENT, k] + rest, [arg] + args) == Prepend([Field(k, arg)], Parse(rest, args))
  {
    assert ([PERCENT, k] + rest)[2..] == rest && ([arg] + args)[1..] == args;
  }

  lemma ParseThree(a: byte, b: byte, c: byte, rest: seq<byte>, args: seq<Arg>)
    requires a != PERCENT && b != PERCENT && c != PERCENT
    ensures Parse([a, b, c] + rest, args) == Prepend([Literal(a), Literal(b), Literal(c)], Parse(rest, args))
  {
    assert [a, b, c] + rest == [a] + ([b] + ([c] + rest));
    ParseLiteral(a, [b] + ([c] + rest), args);
    ParseLiteral(b, [c] + rest, args);
    ParseLiteral(c, rest, args);
    if Parse(rest, args).Some? {
      var items := Parse(rest, args).value;
      assert [Literal(a)] + ([Literal(b)] + ([Literal(c)] + items)) == [Literal(a), Literal(b), Literal(c)] + items;
    }
  }

  lemma MarkParses(code: byte)
    ensures Parse(MARK, [Word(code)]) == Some(MarkItems(code))
  {
    var args, none: seq<Arg> := [Word(code)], [];
    var last: Items := [Literal(32), Literal(93), Literal(32)];
    assert MARK == [32, 91, 32] + ([PERCENT, HEX32] + ([32, 93, 32] + []));
    ParseThree(32, 91, 32, [PERCENT, HEX32] + ([32, 93, 32] + []), args);
    assert args == [Word(code)] + none;
    ParseField(HEX32, [32, 93, 32] + [], Word(code), none);
    ParseThree(32, 93, 32, [], none);
    assert last + [] == last;
    var first: Items, field: Items := [Literal(32), Literal(91), Literal(32)], [Field(HEX32, Word(code))];
    assert first + (field + last) == MarkItems(code);
  }

  lemma RenderThree(a: byte, b: byte, c: byte)
    ensures Render([Literal(a), Literal(b), Literal(c)]) == [a, b, c]
  {
    assert [Literal(a), Literal(b), Literal(c)][1..] == [Literal(b), Literal(c)];
    RenderTwo(b, c);
  }

  lemma MarkRenders(code: byte)
    ensures Render(MarkItems(code)) == MarkText(code)
  {
    var first: Items := [Literal(32), Literal(91), Literal(32)];
    var field: Items := [Field(HEX32, Word(code))];
    var last: Items := [Literal(32), Literal(93), Literal(32)];
    assert MarkItems(code) == (first + field) + last;
    RenderThree(32, 91, 32);
    RenderThree(32, 93, 32);
    assert field[1..] == [];
    assert Render(field) == Hex(code, 8);
    RenderConcat(first, field);
    RenderConcat(first + field, last);
  }

  lemma {:induction false} NoNumbersFit(p: nat, items: Items)
    requires p < CELLS && forall i | 0 <= i < |items| :: NumberOf(items[i]).None?
    ensures AllFit(p, items)
    decreases |items|
  {
    if items != [] {
      NoNumbersFit(StrPos(p, ItemText(items[0])), items[1..]);
    }
  }

  lemma {:induction false} DigitsPrintable(n: nat, width: nat)
    ensures AllPrintable(Digits(n, 16, width))
    decreases width
  {
    if width > 0 {
      DigitsPrintable(n / 16, width - 1);
    }
  }

  lemma MarkIsPrintable(code: byte)
    ensures AllPrintable(MarkText(code)) && |MarkText(code)| == 16
  {
    DigitsPrintable(code, 8);
  }

  lemma MarkIsText(v: View, code: byte)
    ensures Parse(MARK, [Word(code)]).Some?
    ensures ShowAll(v, Parse(MARK, [Word(code)]).value) == Marked(v, code)
  {
    MarkParses(code);
    MarkRenders(code);
    NoNumbersFit(v.pos, MarkItems(code));
    PrintfIsPrintStr(v, MarkItems(code));
  }

  /** A code that is printed moves the cursor by 16 cells; at the end of the screen that scrolls it. */
  function MarkPos(p: nat): (q: nat)
    requires p < CELLS
    ensures q < CELLS
  {
    if p + 16 < CELLS then p + 16 else p + 16 - WIDTH
  }

  lemma MarkMoves(v: View, code: byte)
    ensures Marked(v, code).pos == MarkPos(v.pos)
  {
    MarkIsPrintable(code);
    StringOnScreen(v, MarkText(code));
  }

  // ----- Keys and printed codes -----

  /** What happens to the screen while the ring is drained: a key is handled, or the stub prints a code. */
  datatype Act = Key(key: byte) | Code(code: byte)

  function ActOn(v: View, a: Act): View {
    match a
    case Key(key) => HandleKey(v, key)
    case Code(code) => Marked(v, code)
  }

  function ActAll(v: View, acts: seq<Act>): View {
    if acts == [] then v else ActOn(ActAll(v, acts[..|acts| - 1]), acts[|acts| - 1])
  }

  lemma OneMoreAct(v: View, acts: seq<Act>, a: Act)
    ensures ActAll(v, acts + [a]) == ActOn(ActAll(v, acts), a)
  {
    assert (acts + [a])[..|acts|] == acts;
  }

  lemma {:induction false} ActAllConcat(v: View, a: seq<Act>, b: seq<Act>)
    ensures ActAll(v, a + b) == ActAll(ActAll(v, a), b)
    decreases |b|
  {
    if b == [] {
      assert a + b == a;
    } else {
      var n := |b| - 1;
      assert a + b == (a + b[..n]) + [b[n]];
      ActAllConcat(v, a, b[..n]);
      OneMoreAct(v, a + b[..n], b[n]);
    }
  }

  function ActPos(p: nat, a: Act): (q: nat)
    requires p < CELLS
    ensures q < CELLS
  {
    match a
    case Key(key) => KeyPos(p, key)
    case Code(_) => MarkPos(p)
  }

  /** The cursor alone: neither the codes' digits nor anything on the screen matters. */
  function ActsPos(p: nat, acts: seq<Act>): (q: nat)
    requires p < CELLS
    ensures q < CELLS
  {
    if acts == [] then p else ActPos(ActsPos(p, acts[..|acts| - 1]), acts[|acts| - 1])
  }

  lemma {:induction false} ActAllPos(v: View, acts: seq<Act>)
    ensures ActAll(v, acts).pos == ActsPos(v.pos, acts)
  {
    if acts != [] {
      var n := |acts| - 1;
      ActAllPos(v, acts[..n]);
      ActOnPos(ActAll(v, acts[..n]), acts[n]);
    }
  }

  lemma ActOnPos(v: View, a: Act)
    ensures ActOn(v, a).pos == ActPos(v.pos, a)
  {
    if a.Code? {
      MarkMoves(v, a.code);
    }
  }

  lemma OneMoreActPos(p: nat, acts: seq<Act>, a: Act)
    requires p < CELLS
    ensures ActsPos(p, acts + [a]) == ActPos(ActsPos(p, acts), a)
  {
    assert (acts + [a])[..|acts|] == acts;
  }

  lemma {:induction false} ActsPosConcat(p: nat, a: seq<Act>, b: seq<Act>)
    requires p < CELLS
    ensures ActsPos(p, a + b) == ActsPos(ActsPos(p, a), b)
    decreases |b|
  {
    if b == [] {
      assert a + b == a;
    } else {
      var n := |b| - 1;
      assert a + b == (a + b[..n]) + [b[n]];
      ActsPosConcat(p, a, b[..n]);
      OneMoreActPos(p, a + b[..n], b[n]);
    }
  }

  /** Some codes, printed one after the other. */
  function CodeActs(codes: seq<byte>): (acts: seq<Act>)
    ensures |acts| == |codes| && forall i | 0 <= i < |codes| :: acts[i] == Code(codes[i])
  {
    seq(|codes|, i requires 0 <= i < |codes| => Code(codes[i]))
  }

  function Interrupted(v: View, codes: seq<byte>): View { ActAll(v, CodeActs(codes)) }

  lemma OneMoreCode(v: View, codes: seq<byte>, code: byte)
    ensures Interrupted(v, codes + [code]) == Marked(Interrupted(v, codes), code)
  {
    assert CodeActs(codes + [code]) == CodeActs(codes) + [Code(code)];
    OneMoreAct(v, CodeActs(codes), Code(code));
  }

  lemma CodeActsConcat(a: seq<byte>, b: seq<byte>)
    ensures CodeActs(a + b) == CodeActs(a) + CodeActs(b)
  {
  }

  lemma InterruptedTwice(v: View, a: seq<byte>, b: seq<byte>)
    ensures Interrupted(Interrupted(v, a), b) == Interrupted(v, a + b)
  {
    CodeActsConcat(a, b);
    ActAllConcat(v, CodeActs(a), CodeActs(b));
  }

  // ----- The typing window -----

  /** The codes that come in during one round of the drain: before the test whether a key waits, before the key is
      taken out, and before it is handled. */
  datatype Round = Round(beforeTest: seq<byte>, beforePop: seq<byte>, beforeKey: seq<byte>)

  /** There are finitely many codes. */
  function RoundAt(rounds: seq<Round>, i: nat): Round {
    if i < |rounds| then rounds[i] else Round([], [], [])
  }

  function RoundCodes(r: Round): seq<byte> { r.beforeTest + r.beforePop + r.beforeKey }

  function RoundActs(r: Round, key: byte): seq<Act> { CodeActs(RoundCodes(r)) + [Key(key)] }

  /** The rounds of a drain that took these keys out of the ring. */
  function DrainActs(keys: seq<byte>, rounds: seq<Round>): seq<Act> {
    if keys == [] then [] else
      var n := |keys| - 1;
      DrainActs(keys[..n], rounds) + RoundActs(RoundAt(rounds, n), keys[n])
  }

  /** The codes of the first n rounds. */
  function DrainCodes(rounds: seq<Round>, n: nat): seq<byte> {
    if n == 0 then [] else DrainCodes(rounds, n - 1) + RoundCodes(RoundAt(rounds, n - 1))
  }

  /** A drain up to the test of its next round. */
  function TestedActs(keys: seq<byte>, rounds: seq<Round>): seq<Act> {
    DrainActs(keys, rounds) + CodeActs(RoundAt(rounds, |keys|).beforeTest)
  }

  function TestedCodes(rounds: seq<Round>, n: nat): seq<byte> {
    DrainCodes(rounds, n) + RoundAt(rounds, n).beforeTest
  }

  lemma DrainOneMore(keys: seq<byte>, key: byte, rounds: seq<Round>)
    ensures DrainActs(keys + [key], rounds) == DrainActs(keys, rounds) + RoundActs(RoundAt(rounds, |keys|), key)
  {
    assert (keys + [key])[..|keys|] == keys;
  }

  /** What a round does to the screen, from one test to the next. */
  function RoundShown(v: View, r: Round, key: byte, next: Round): View {
    Interrupted(HandleKey(Interrupted(Interrupted(v, r.beforePop), r.beforeKey), key), next.beforeTest)
  }

  lemma RoundOnScreen(v: View, r: Round, key: byte)
    ensures ActAll(v, RoundActs(r, key))
      == HandleKey(Interrupted(Interrupted(Interrupted(v, r.beforeTest), r.beforePop), r.beforeKey), key)
  {
    InterruptedTwice(v, r.beforeTest, r.beforePop);
    InterruptedTwice(v, r.beforeTest + r.beforePop, r.beforeKey);
    OneMoreAct(v, CodeActs(RoundCodes(r)), Key(key));
  }

  lemma OneMoreRound(v: View, keys: seq<byte>, key: byte, rounds: seq<Round>)
    ensures var n := |keys|;
      ActAll(v, TestedActs(keys + [key], rounds))
      == RoundShown(ActAll(v, TestedActs(keys, rounds)), RoundAt(rounds, n), key, RoundAt(rounds, n + 1))
  {
    var r, next := RoundAt(rounds, |keys|), RoundAt(rounds, |keys| + 1);
    var before := ActAll(v, DrainActs(keys, rounds));
    DrainOneMore(keys, key, rounds);
    ActAllConcat(v, DrainActs(keys, rounds), RoundActs(r, key));
    ActAllConcat(v, DrainActs(keys + [key], rounds), CodeActs(next.beforeTest));
    ActAllConcat(v, DrainActs(keys, rounds), CodeActs(r.beforeTest));
    RoundOnScreen(before, r, key);
  }

  /** The codes of a round, before the test, the taking and the handling of its key, are all printed before the key
      is handled. */
  lemma CodesBeforeKey(p: nat, key: byte, a: byte, b: byte, c: byte)
    requires p < CELLS
    ensures ActsPos(p, DrainActs([key], [Round([a], [b], [c])])) == KeyPos(MarkPos(MarkPos(MarkPos(p))), key)
  {
    var codes: seq<byte> := [a, b, c];
    var acts := CodeActs(codes) + [Key(key)];
    var none: seq<Act> := [];
    assert [key][..0] == [] && [a] + [b] + [c] == codes;
    assert DrainActs([key], [Round([a], [b], [c])]) == none + acts == acts;
    OneMoreActPos(p, CodeActs(codes), Key(key));
    CodesPos(p, codes);
    assert MarksPos(p, 1) == MarkPos(p) && MarksPos(p, 2) == MarkPos(MarkPos(p));
  }

  /** Without codes a drain is its keys. */
  lemma {:induction false} KeysAlone(p: nat, keys: seq<byte>, rounds: seq<Round>)
    requires p < CELLS && DrainCodes(rounds, |keys|) == []
    ensures ActsPos(p, DrainActs(keys, rounds)) == KeysPos(p, keys)
  {
    if keys != [] {
      var n := |keys| - 1;
      var before, key := DrainActs(keys[..n], rounds), keys[n];
      KeysAlone(p, keys[..n], rounds);
      assert DrainActs(keys, rounds) == before + [Key(key)];
      assert (before + [Key(key)])[..|before|] == before;
      assert keys == keys[..n] + [key] && [key][1..] == [];
      KeysPosConcat(p, keys[..n], [key]);
    }
  }

  // ----- Codes alone -----

  /** The cursor after n printed codes. */
  function MarksPos(p: nat, n: nat): (q: nat)
    requires p < CELLS
    ensures q < CELLS
  {
    if n == 0 then p else MarkPos(MarksPos(p, n - 1))
  }

  lemma {:induction false} CodesPos(p: nat, codes: seq<byte>)
    requires p < CELLS
    ensures ActsPos(p, CodeActs(codes)) == MarksPos(p, |codes|)
  {
    if codes != [] {
      var n := |codes| - 1;
      CodesPos(p, codes[..n]);
      assert CodeActs(codes)[..n] == CodeActs(codes[..n]);
    }
  }

  lemma {:induction false} MarksGoOn(p: nat, n: nat)
    requires p < LAST_ROW && n > 0
    ensures MarksPos(p, n) > p
  {
    if n > 1 {
      MarksGoOn(p, n - 1);
    }
  }

  lemma {:induction false} MarksTurn(p: nat, n: nat)
    requires LAST_ROW <= p < CELLS
    ensures MarksPos(p, n) == LAST_ROW + (p - LAST_ROW + 16 * n) % WIDTH
  {
    if n > 0 {
      MarksTurn(p, n - 1);
      TurnStep(p - LAST_ROW + 16 * (n - 1));
    }
  }

  lemma TurnStep(x: nat)
    ensures (x + 16) % WIDTH == if x % WIDTH + 16 < WIDTH then x % WIDTH + 16 else x % WIDTH + 16 - WIDTH
  {
  }

  /** Printed codes bring the cursor back if and only if there are none, or it is in the last row and there are
      a multiple of five. */
  lemma MarksReturn(p: nat, n: nat)
    requires p < CELLS
    ensures MarksPos(p, n) == p <==> n == 0 || (p >= LAST_ROW && n % 5 == 0)
  {
    if p < LAST_ROW {
      if n > 0 {
        MarksGoOn(p, n);
      }
    } else {
      MarksTurn(p, n);
      FiveMarks(p - LAST_ROW, n);
    }
  }

  lemma FiveMarks(x: nat, n: nat)
    requires x < WIDTH
    ensures (x + 16 * n) % WIDTH == x <==> n % 5 == 0
  {
    var q, r := n / 5, n % 5;
    assert x + 16 * n == WIDTH * q + (x + 16 * r);
    assert (x + 16 * n) % WIDTH == (x + 16 * r) % WIDTH;
  }

  // ----- The status text -----

  /** One piece of the status: a call of printf, or a code that comes in and is printed by the stub. */
  datatype Print = Call(fmt: CString, args: seq<Arg>) | Interruption(code: byte)

  /** The arguments match the format. */
  predicate PrintMatches(p: Print) { p.Call? ==> Parse(p.fmt, p.args).Some? }

  predicate Matched(prints: seq<Print>) {
    forall i | 0 <= i < |prints| :: PrintMatches(prints[i])
  }

  function ShowPrint(v: View, p: Print): View
    requires PrintMatches(p)
  {
    match p
    case Call(fmt, args) => ShowAll(v, Parse(fmt, args).value)
    case Interruption(code) => Marked(v, code)
  }

  function ShowPrints(v: View, prints: seq<Print>): View
    requires Matched(prints)
  {
    if prints == [] then v else ShowPrint(ShowPrints(v, prints[..|prints| - 1]), prints[|prints| - 1])
  }

  /** The codes that come in among them. */
  function PrintCodes(prints: seq<Print>): seq<byte> {
    if prints == [] then [] else
      var p := prints[|prints| - 1];
      PrintCodes(prints[..|prints| - 1]) + if p.Interruption? then [p.code] else []
  }

  const STATUS_STYLE: byte := 7
  const TYPING_STYLE: byte := 15

  /** What comes from outside in one turn: codes at every point between two calls of the main loop, and the two
      parts of the status, with the codes that come in among their calls. */
  datatype TurnInput = TurnInput(
    atStart: seq<byte>, report: seq<Print>, afterReport: seq<byte>, beforeClear: seq<byte>,
    beforeFlags: seq<byte>, flags: seq<Print>, beforeLine: seq<byte>, afterStatus: seq<byte>,
    beforeTyping: seq<byte>, rounds: seq<Round>, afterDrain: seq<byte>)

  predicate StatusMatches(input: TurnInput) {
    Matched(input.report) && Matched(input.flags)
  }

  /** The report is printed from cell p on. */
  function ShowReport(v: View, p: nat, input: TurnInput): View
    requires p < CELLS && StatusMatches(input)
  {
    ShowPrints(MoveTo(Interrupted(v, input.atStart), p), input.report)
  }

  function ReportCodes(input: TurnInput): seq<byte> { input.atStart + PrintCodes(input.report) }

  /** A newline; then the row is read off and cleared, the cursor goes to the start of its own row. */
  function OntoClearRow(v: View, afterLine: seq<byte>, beforeClear: seq<byte>): View {
    var w := Interrupted(Newline(v), afterLine);
    Screen.ClearRow(Interrupted(w, beforeClear), w.pos / WIDTH)
  }

  function LineCodes(input: TurnInput): seq<byte> { input.afterReport + input.beforeClear }

  /** The keyboard flags in a style of their own. */
  function ShowFlags(v: View, input: TurnInput): View
    requires StatusMatches(input)
  {
    ShowPrints(Interrupted(v, input.beforeFlags).(style := STATUS_STYLE), input.flags).(style := TYPING_STYLE)
  }

  /** And a newline. */
  function ShowEnd(v: View, input: TurnInput): View {
    Interrupted(Newline(Interrupted(v, input.beforeLine)), input.afterStatus)
  }

  /** The screen when the status is printed, from cell p on. */
  function StatusOf(v: View, p: nat, input: TurnInput): View
    requires p < CELLS && StatusMatches(input)
  {
    ShowEnd(ShowFlags(OntoClearRow(ShowReport(v, p, input), input.afterReport, input.beforeClear), input), input)
  }

  function FlagsCodes(input: TurnInput): seq<byte> {
    input.beforeFlags + PrintCodes(input.flags) + (input.beforeLine + input.afterStatus)
  }

  function StatusCodes(input: TurnInput): seq<byte> {
    ReportCodes(input) + LineCodes(input) + FlagsCodes(input)
  }

  lemma {:induction false} MarksStayBelow(p: nat, n: nat)
    requires WIDTH <= p < CELLS
    ensures MarksPos(p, n) >= WIDTH
  {
    if n > 0 {
      MarksStayBelow(p, n - 1);
    }
  }

  /** The row that is cleared is never the top row and always on the screen; and it is the cursor's own row
      if no code comes in between reading the row off and clearing it. */
  lemma ClearedRowIsOnScreen(v: View, afterLine: seq<byte>)
    ensures var w := Interrupted(Newline(v), afterLine);
      && 1 <= w.pos / WIDTH < CELLS / WIDTH
      && OntoClearRow(v, afterLine, []) == Screen.ClearRow(w, w.pos / WIDTH)
  {
    BelowTheTop(Newline(v), afterLine);
    assert CodeActs([]) == [];
  }

  lemma BelowTheTop(v: View, codes: seq<byte>)
    requires v.pos >= WIDTH
    ensures WIDTH <= Interrupted(v, codes).pos < CELLS
  {
    ActAllPos(v, CodeActs(codes));
    CodesPos(v.pos, codes);
    MarksStayBelow(v.pos, |codes|);
  }

  // ----- Sessions -----

  /** One turn, with the keys that its drain took out of the ring. */
  datatype Turn = Turn(input: TurnInput, keys: seq<byte>)

  predicate AllMatched(turns: seq<Turn>) {
    forall i | 0 <= i < |turns| :: StatusMatches(turns[i].input)
  }

  /** What happens between the placing of the typing cursor and the saving of it. */
  function WindowActs(t: Turn): seq<Act> {
    TestedActs(t.keys, t.input.rounds) + CodeActs(t.input.afterDrain)
  }

  function WindowCodes(t: Turn): seq<byte> {
    TestedCodes(t.input.rounds, |t.keys|) + t.input.afterDrain
  }

  /** One turn; typing goes on at the given cell, or else where the status ends. */
  function OneTurn(v: View, p: nat, typed: Option<nat>, t: Turn): View
    requires p < CELLS && StatusMatches(t.input) && (typed.Some? ==> typed.value < CELLS)
  {
    var status := StatusOf(v, p, t.input);
    var start := if typed.Some? then typed.value else status.pos;
    ActAll(MoveTo(Interrupted(status, t.input.beforeTyping), start), WindowActs(t))
  }

  /** The turns of the main loop from its entry: typing goes on where it stopped in the turn before. */
  function ScreenOf(v: View, p: nat, turns: seq<Turn>): View
    requires p < CELLS && AllMatched(turns)
  {
    if turns == [] then v else
      var n := |turns| - 1;
      var w := ScreenOf(v, p, turns[..n]);
      OneTurn(w, p, if n == 0 then None else Some(w.pos), turns[n])
  }

  lemma OneMoreTurn(v: View, p: nat, turns: seq<Turn>, t: Turn)
    requires p < CELLS && AllMatched(turns) && StatusMatches(t.input)
    ensures AllMatched(turns + [t])
    ensures var w := ScreenOf(v, p, turns);
      ScreenOf(v, p, turns + [t]) == OneTurn(w, p, if turns == [] then None else Some(w.pos), t)
  {
    assert (turns + [t])[..|turns|] == turns;
  }

  /** Where typing starts: at the end of the first turn's status. */
  function TypingStart(v: View, p: nat, turns: seq<Turn>): (start: nat)
    requires p < CELLS && turns != [] && AllMatched(turns)
    ensures start < CELLS
  {
    StatusOf(v, p, turns[0].input).pos
  }

  function AllActs(turns: seq<Turn>): seq<Act> {
    if turns == [] then [] else AllActs(turns[..|turns| - 1]) + WindowActs(turns[|turns| - 1])
  }

  function AllKeys(turns: seq<Turn>): seq<byte> {
    if turns == [] then [] else AllKeys(turns[..|turns| - 1]) + turns[|turns| - 1].keys
  }

  /** All codes that come in on the wire in one turn, and in all. */
  function CodesOf(t: Turn): seq<byte> {
    StatusCodes(t.input) + t.input.beforeTyping + WindowCodes(t)
  }

  function AllCodes(turns: seq<Turn>): seq<byte> {
    if turns == [] then [] else AllCodes(turns[..|turns| - 1]) + CodesOf(turns[|turns| - 1])
  }

  lemma OneTurnPos(v: View, p: nat, typed: Option<nat>, t: Turn)
    requires p < CELLS && StatusMatches(t.input) && (typed.Some? ==> typed.value < CELLS)
    ensures OneTurn(v, p, typed, t).pos
      == ActsPos(if typed.Some? then typed.value else StatusOf(v, p, t.input).pos, WindowActs(t))
  {
    var status := StatusOf(v, p, t.input);
    var start := if typed.Some? then typed.value else status.pos;
    ActAllPos(MoveTo(Interrupted(status, t.input.beforeTyping), start), WindowActs(t));
  }

  /** Whatever status text is printed in whatever turns, and whatever codes come in outside the typing windows
      of the turns: the typist's cursor goes where the keys and the codes printed in the typing windows take
      it from the end of the first status. */
  lemma {:induction false} TypingIgnoresStatus(v: View, p: nat, turns: seq<Turn>)
    requires p < CELLS && turns != [] && AllMatched(turns)
    ensures ScreenOf(v, p, turns).pos == ActsPos(TypingStart(v, p, turns), AllActs(turns))
  {
    var n := |turns| - 1;
    if n == 0 {
      OnlyTurn(v, p, turns);
      OneTurnPos(v, p, None, turns[0]);
    } else {
      var w, start := ScreenOf(v, p, turns[..n]), TypingStart(v, p, turns);
      calc {
        ScreenOf(v, p, turns).pos;
        { LastTurn(v, p, turns); OneTurnPos(w, p, Some(w.pos), turns[n]); }
        ActsPos(w.pos, WindowActs(turns[n]));
        { TypingIgnoresStatus(v, p, turns[..n]); }
        ActsPos(ActsPos(start, AllActs(turns[..n])), WindowActs(turns[n]));
        { ActsPosConcat(start, AllActs(turns[..n]), WindowActs(turns[n])); }
        ActsPos(start, AllActs(turns));
      }
    }
  }

  lemma OnlyTurn(v: View, p: nat, turns: seq<Turn>)
    requires p < CELLS && |turns| == 1 && AllMatched(turns)
    ensures ScreenOf(v, p, turns) == OneTurn(v, p, None, turns[0]) && AllActs(turns) == WindowActs(turns[0])
  {
    var none: seq<Act> := [];
    assert turns[..0] == [] && AllActs(turns) == none + WindowActs(turns[0]);
  }

  lemma LastTurn(v: View, p: nat, turns: seq<Turn>)
    requires p < CELLS && |turns| > 1 && AllMatched(turns)
    ensures var n := |turns| - 1; var w := ScreenOf(v, p, turns[..n]);
      ScreenOf(v, p, turns) == OneTurn(w, p, Some(w.pos), turns[n])
  {
  }

  /** No code comes in during any typing window. */
  predicate QuietWindows(turns: seq<Turn>) {
    forall i | 0 <= i < |turns| :: WindowCodes(turns[i]) == []
  }

  lemma QuietWindow(p: nat, t: Turn)
    requires p < CELLS && WindowCodes(t) == []
    ensures ActsPos(p, WindowActs(t)) == KeysPos(p, t.keys)
  {
    KeysAlone(p, t.keys, t.input.rounds);
    assert WindowActs(t) == DrainActs(t.keys, t.input.rounds);
  }

  lemma {:induction false} KeysLead(p: nat, turns: seq<Turn>)
    requires p < CELLS && QuietWindows(turns)
    ensures ActsPos(p, AllActs(turns)) == KeysPos(p, AllKeys(turns))
  {
    if turns != [] {
      var n := |turns| - 1;
      KeysLead(p, turns[..n]);
      ActsPosConcat(p, AllActs(turns[..n]), WindowActs(turns[n]));
      QuietWindow(ActsPos(p, AllActs(turns[..n])), turns[n]);
      KeysPosConcat(p, AllKeys(turns[..n]), turns[n].keys);
    }
  }

  /** So, over any turns without codes in their typing windows, whose drains took the keys of a whole run of the
      keyboard out of the ring: the typist's cursor is where the decoded scan codes take it, if no key came
      while 128 were waiting. */
  lemma TypistFollowsScanCodes(v: View, p: nat, turns: seq<Turn>, events: seq<Event>)
    requires p < CELLS && turns != [] && AllMatched(turns) && QuietWindows(turns)
    requires AllKeys(turns) == Delivered(events) && Run(events).ring == [] && NeverFull(Arrivals(events))
    ensures ScreenOf(v, p, turns).pos == KeysPos(TypingStart(v, p, turns), Decoded(Codes(events)))
  {
    TypingIgnoresStatus(v, p, turns);
    KeysLead(TypingStart(v, p, turns), turns);
    NothingLostIffNeverFull(events);
    assert Delivered(events) + [] == Delivered(events);
  }

  /** When the codes of a typing window all come in after its last key: the typist is left where the keys take
      him if and only if there are no codes, or that is in the last row and there are a multiple of five. */
  lemma CodesMoveTypist(v: View, p: nat, typed: nat, t: Turn)
    requires p < CELLS && typed < CELLS && StatusMatches(t.input)
    requires DrainCodes(t.input.rounds, |t.keys|) == []
    ensures var q, n := KeysPos(typed, t.keys), |WindowCodes(t)|;
      OneTurn(v, p, Some(typed), t).pos == q <==> n == 0 || (q >= LAST_ROW && n % 5 == 0)
  {
    var codes := RoundAt(t.input.rounds, |t.keys|).beforeTest + t.input.afterDrain;
    var q := KeysPos(typed, t.keys);
    OneTurnPos(v, p, Some(typed), t);
    CodesLast(t);
    ActsPosConcat(typed, DrainActs(t.keys, t.input.rounds), CodeActs(codes));
    KeysAlone(typed, t.keys, t.input.rounds);
    CodesPos(q, codes);
    MarksReturn(q, |codes|);
  }

  lemma CodesLast(t: Turn)
    requires DrainCodes(t.input.rounds, |t.keys|) == []
    ensures var codes := RoundAt(t.input.rounds, |t.keys|).beforeTest + t.input.afterDrain;
      WindowActs(t) == DrainActs(t.keys, t.input.rounds) + CodeActs(codes) && WindowCodes(t) == codes
  {
    CodeActsConcat(RoundAt(t.input.rounds, |t.keys|).beforeTest, t.input.afterDrain);
  }

  /** For example: a release code that comes in while nobody types moves the typist by 16 cells, and the next
      turn goes on from there. */
  lemma ReleaseCodeMoves(v: View, p: nat, typed: nat, input: TurnInput)
    requires p < CELLS && typed + 16 < CELLS && StatusMatches(input)
    requires input.rounds == [] && input.afterDrain == [0x9E]
    ensures OneTurn(v, p, Some(typed), Turn(input, [])).pos == typed + 16
  {
    var t := Turn(input, []);
    OneTurnPos(v, p, Some(typed), t);
    CodesLast(t);
    assert WindowActs(t) == CodeActs([0x9E]);
    CodesPos(typed, [0x9E]);
    assert MarksPos(typed, 0) == typed;
  }

  /** The typist's cell after turns that started at the given cell: where their keys and the codes printed in
      their typing windows lead; and if there are no such codes, where the keys alone lead, and no key waits.
      If nothing was taken out of the ring before and no key came to a full ring, those keys and the waiting
      ones are the keys of all scan codes. */
  ghost predicate FollowsKeys(start: nat, turns: seq<Turn>, typed: nat, past: seq<Event>, now: seq<Event>)
    requires start < CELLS
  {
    && typed == ActsPos(start, AllActs(turns))
    && (QuietWindows(turns) ==> typed == KeysPos(start, AllKeys(turns)) && Run(now).ring == [])
    && (Delivered(past) == [] && NeverFull(Arrivals(now)) ==>
      AllKeys(turns) + Run(now).ring == Decoded(Codes(now)))
    && (QuietWindows(turns) && Delivered(past) == [] && NeverFull(Arrivals(now)) ==>
      typed == KeysPos(start, Decoded(Codes(now))))
  }

  lemma KeysOfCodes(past: seq<Event>, now: seq<Event>, keys: seq<byte>)
    requires Delivered(now) == Delivered(past) + keys
    ensures Delivered(past) == [] && NeverFull(Arrivals(now)) ==> keys + Run(now).ring == Decoded(Codes(now))
  {
    NothingLostIffNeverFull(now);
    NothingBefore(Delivered(past), keys);
  }

  lemma NothingBefore(a: seq<byte>, b: seq<byte>)
    ensures a == [] ==> a + b == b
  {
  }

  lemma ActsFollowKeys(start: nat, turns: seq<Turn>, past: seq<Event>, now: seq<Event>)
    requires start < CELLS && Delivered(now) == Delivered(past) + AllKeys(turns)
    requires QuietWindows(turns) ==> Run(now).ring == []
    ensures FollowsKeys(start, turns, ActsPos(start, AllActs(turns)), past, now)
  {
    if QuietWindows(turns) {
      KeysLead(start, turns);
      assert AllKeys(turns) + [] == AllKeys(turns);
    }
    KeysOfCodes(past, now, AllKeys(turns));
  }

  lemma SessionFollowsKeys(v: View, p: nat, turns: seq<Turn>, past: seq<Event>, now: seq<Event>)
    requires p < CELLS && turns != [] && AllMatched(turns)
    requires Delivered(now) == Delivered(past) + AllKeys(turns)
    requires QuietWindows(turns) ==> Run(now).ring == []
    ensures FollowsKeys(TypingStart(v, p, turns), turns, ScreenOf(v, p, turns).pos, past, now)
  {
    TypingIgnoresStatus(v, p, turns);
    ActsFollowKeys(TypingStart(v, p, turns), turns, past, now);
  }

  /** The loop made these turns after it was entered on screen v. */
  ghost predicate InSession(v: View, p: nat, turns: seq<Turn>, first: bool, screen: View, typed: nat) {
    && p < CELLS && AllMatched(turns) && screen == ScreenOf(v, p, turns)
    && (first <==> turns == []) && (!first ==> typed == screen.pos)
  }

  lemma SessionGoesOn(v: View, p: nat, turns: seq<Turn>, first: bool, screen: View, typed: nat, t: Turn)
    requires InSession(v, p, turns, first, screen, typed) && StatusMatches(t.input) && (!first ==> typed < CELLS)
    ensures var after := OneTurn(screen, p, if first then None else Some(typed), t);
      InSession(v, p, turns + [t], false, after, after.pos)
  {
    OneMoreTurn(v, p, turns, t);
  }
}
