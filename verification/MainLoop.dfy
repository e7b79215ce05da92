/** The main loop of kernel/kernel.c, with the interrupts of the keyboard, on the real console and keyboard. */
module MainLoop {
  import opened MachineTypes
  import opened Screen
  import opened ScanCodes
  import opened KeyRuns
  import opened Format
  import opened Wire
  import Typing
  import opened Session
  import opened StatusText
  import C = Console
  import K = Keyboard

  class Kernel {
    const console: C.Console
    const keyboard: K.Keyboard
    /** Where the status part starts. */
    var cx: byte
    var cy: byte
    /** Where the typing part goes on. */
    var tx: byte
    var ty: byte
    var ptx: byte
    var pty: byte
    var firstLoop: bool
    /** The cell that update_cursor last wrote to the cursor registers. */
    var hardwareCursor: u16
    var keyboardInterrupts: u32

    ghost function Repr(): set<object> {
      {this, console, console.mem, keyboard, keyboard.keyQueue, keyboard.keyQueue.queue}
    }

    ghost predicate Valid()
      reads this`cx, this`cy, this`firstLoop, this`tx, this`ty, this`ptx, this`pty, this`hardwareCursor
      reads console, console.mem, keyboard, keyboard.keyQueue
    {
      && console.Valid() && keyboard.Valid() && console.mem != keyboard.keyQueue.queue
      && cx < WIDTH && cy < CELLS / WIDTH
      && (!firstLoop ==> Placed())
    }

    /** The typist has a cell on the screen, and the hardware cursor is there. */
    ghost predicate Placed()
      reads this`tx, this`ty, this`ptx, this`pty, this`hardwareCursor
    {
      tx < WIDTH && ty < CELLS / WIDTH && ptx == tx && pty == ty && hardwareCursor == Typed()
    }

    ghost function StatusCell(): nat
      reads this`cx, this`cy
    {
      WIDTH * cy + cx
    }

    ghost function Typed(): nat
      reads this`tx, this`ty
    {
      WIDTH * ty + tx
    }

    /** The state in which the main loop is entered. */
    constructor (c: C.Console, k: K.Keyboard)
      requires c.Valid() && k.Valid() && c.mem != k.keyQueue.queue
      ensures Valid() && firstLoop && console == c && keyboard == k && StatusCell() == c.Shown().pos
    {
      console, keyboard := c, k;
      tx, ty, ptx, pty, firstLoop, hardwareCursor, keyboardInterrupts := 0, 0, 0, 0, true, 0, 0;
      var x, y := c.GetCursorCoord();
      cx, cy := x, y;
    }

    /** What the interrupt stub prints. */
    method PrintMark(code: byte)
      requires Valid()
      modifies console, console.mem
      ensures Valid() && keyboard.State() == old(keyboard.State())
      ensures console.Shown() == Marked(old(console.Shown()), code)
    {
      MarkIsText(console.Shown(), code);
      console.Printf(MARK, [Word(code)]);
    }

    /** The stub after its printf: three codes are kept back, all others are counted and handed to the decoder. */
    method HandOn(code: byte)
      requires Valid()
      modifies this`keyboardInterrupts, keyboard, keyboard.keyQueue, keyboard.keyQueue.queue
      ensures Valid() && console.Shown() == old(console.Shown())
      ensures code == 0xEE || code == 0xFA || code == 0xFE ==>
        keyboard.State() == old(keyboard.State()) && keyboardInterrupts == old(keyboardInterrupts)
      ensures code != 0xEE && code != 0xFA && code != 0xFE ==>
        && keyboard.State() == Step(old(keyboard.State()), Interrupt(code))
        && keyboardInterrupts == (old(keyboardInterrupts) + 1) % 0x1_0000_0000
    {
      if code == 0xEE || code == 0xFE || code == 0xFA {
        return;
      }
      keyboardInterrupts := (keyboardInterrupts + 1) % 0x1_0000_0000;
      keyboard.Interrupt(code);
    }

    /** ioapic_keyboard_int_stub: every code is printed; acknowledgements and the echo reply are not handed to
        the decoder. */
    method KeyboardInterrupt(code: byte)
      requires Valid()
      modifies this`keyboardInterrupts, console, console.mem, keyboard, keyboard.keyQueue, keyboard.keyQueue.queue
      ensures Valid() && keyboard.State() == Taken(old(keyboard.State()), code)
      ensures code == 0xEE || code == 0xFA || code == 0xFE ==>
        keyboard.State() == old(keyboard.State()) && keyboardInterrupts == old(keyboardInterrupts)
      ensures code != 0xEE && code != 0xFA && code != 0xFE ==>
        && keyboard.State() == Step(old(keyboard.State()), Interrupt(code))
        && keyboardInterrupts == (old(keyboardInterrupts) + 1) % 0x1_0000_0000
      ensures console.Shown() == Marked(old(console.Shown()), code)
    {
      PrintMark(code);
      HandOn(code);
    }

    /** An arrow key on the wire, the prefix and its code, ends up as the last key of a ring with room: 7 for up,
        6 for down, 5 for left, 4 for right. */
    method ArrowPressed(code: byte)
      requires Valid() && |keyboard.State().ring| < 128
      requires code == 0x48 || code == 0x50 || code == 0x4B || code == 0x4D
      modifies this`keyboardInterrupts, console, console.mem, keyboard, keyboard.keyQueue, keyboard.keyQueue.queue
      ensures Valid()
      ensures keyboard.State().ring == old(keyboard.State()).ring
        + [if code == 0x48 then 7 else if code == 0x50 then 6 else if code == 0x4B then 5 else 4]
    {
      ArrowIsPushed(keyboard.State(), code);
      KeyboardInterrupt(0xE0);
      KeyboardInterrupt(code);
    }

    /** A code comes in. */
    method DeliverOne(code: byte, ghost past: seq<Event>)
      requires Valid() && keyboard.State() == Run(past)
      modifies this`keyboardInterrupts, console, console.mem, keyboard, keyboard.keyQueue, keyboard.keyQueue.queue
      ensures Valid() && keyboard.State() == Run(WithCode(past, code))
      ensures |old(keyboard.State()).ring| <= |keyboard.State().ring|
      ensures console.Shown() == Marked(old(console.Shown()), code)
    {
      TakenKeepsWaiting(keyboard.State(), code);
      KeyboardInterrupt(code);
      CodeRun(past, code);
    }

    /** The codes of a batch come in, one interrupt after the other. */
    method DeliverAll(batch: seq<byte>, ghost past: seq<Event>)
      requires Valid() && keyboard.State() == Run(past)
      modifies this`keyboardInterrupts, console, console.mem, keyboard, keyboard.keyQueue, keyboard.keyQueue.queue
      ensures Valid() && keyboard.State() == Run(WithCodes(past, batch, |batch|))
      ensures |old(keyboard.State()).ring| <= |keyboard.State().ring|
      ensures console.Shown() == Interrupted(old(console.Shown()), batch)
    {
      for i := 0 to |batch|
        invariant Valid() && keyboard.State() == Run(WithCodes(past, batch, i))
        invariant |old(keyboard.State()).ring| <= |keyboard.State().ring|
        invariant console.Shown() == Interrupted(old(console.Shown()), batch[..i])
      {
        DeliverOne(batch[i], WithCodes(past, batch, i));
        OneMoreCode(old(console.Shown()), batch[..i], batch[i]);
        TakeOneMore(batch, i);
      }
      assert batch[..|batch|] == batch;
    }

    /** The same as a longer run. */
    method Deliver(batch: seq<byte>, ghost past: seq<Event>) returns (ghost now: seq<Event>)
      requires Valid() && keyboard.State() == Run(past)
      modifies this`keyboardInterrupts, console, console.mem, keyboard, keyboard.keyQueue, keyboard.keyQueue.queue
      ensures Valid() && keyboard.State() == Run(now) && Continues(past, now, [], batch)
      ensures |old(keyboard.State()).ring| <= |keyboard.State().ring| && (batch == [] ==> now == past)
      ensures console.Shown() == Interrupted(old(console.Shown()), batch)
    {
      now := WithCodes(past, batch, |batch|);
      DeliverAll(batch, past);
      CodesContinue(past, batch);
    }

    /** move_cursor_to, for coordinates of a cell on the screen. */
    method GoTo(x: byte, y: byte, ghost cell: nat, ghost past: seq<Event>)
      requires Valid() && x < WIDTH && y < CELLS / WIDTH && cell == WIDTH * y + x
      requires keyboard.State() == Run(past)
      modifies console`rowOffset, console`colOffset
      ensures Valid() && keyboard.State() == Run(past)
      ensures console.Shown() == MoveTo(old(console.Shown()), cell)
    {
      console.MoveCursorTo(x, y);
    }

    method HandleKey(key: byte)
      requires console.Valid()
      modifies console, console.mem
      ensures console.Valid() && console.Shown() == Typing.HandleKey(old(console.Shown()), key)
    {
      if key == KEY_UP {
        console.MoveCursorUp();
      } else if key == KEY_DOWN {
        console.MoveCursorDown();
      } else if key == KEY_RIGHT {
        console.MoveCursorRight();
      } else if key == KEY_LEFT {
        console.MoveCursorLeft();
      } else {
        console.PrintChr(key);
      }
    }

    /** The oldest key is taken out of the ring. */
    method TakeKey(ghost past: seq<Event>) returns (key: byte, ghost now: seq<Event>)
      requires Valid() && keyboard.State() == Run(past) && keyboard.State().ring != []
      modifies keyboard.keyQueue
      ensures Valid() && keyboard.State() == Run(now) && Continues(past, now, [key], [])
      ensures [key] + keyboard.State().ring == old(keyboard.State()).ring
    {
      OneMore(past, Pop);
      key := keyboard.PopKey();
      now := past + [Pop];
    }

    /** A key is taken out of the ring, with the codes that come in before and after that. */
    method TakeNext(round: Round, ghost past: seq<Event>) returns (key: byte, ghost now: seq<Event>)
      requires Valid() && keyboard.State() == Run(past) && keyboard.State().ring != []
      modifies this`keyboardInterrupts, console, console.mem, keyboard, keyboard.keyQueue, keyboard.keyQueue.queue
      ensures Valid() && keyboard.State() == Run(now)
      ensures Continues(past, now, [key], round.beforePop + round.beforeKey)
      ensures round.beforePop == round.beforeKey == [] ==>
        [key] + keyboard.State().ring == old(keyboard.State()).ring
      ensures console.Shown() == Interrupted(Interrupted(old(console.Shown()), round.beforePop), round.beforeKey)
    {
      ghost var a := Deliver(round.beforePop, past);
      ghost var b;
      key, b := TakeKey(a);
      now := Deliver(round.beforeKey, b);
      TakeContinues(past, a, b, now, round, key);
    }

    /** The key is handled, and codes come in before the next test. */
    method HandleThen(key: byte, next: Round, ghost past: seq<Event>) returns (ghost now: seq<Event>)
      requires Valid() && keyboard.State() == Run(past)
      modifies this`keyboardInterrupts, console, console.mem, keyboard, keyboard.keyQueue, keyboard.keyQueue.queue
      ensures Valid() && keyboard.State() == Run(now) && Continues(past, now, [], next.beforeTest)
      ensures next.beforeTest == [] ==> now == past
      ensures console.Shown() == Interrupted(Typing.HandleKey(old(console.Shown()), key), next.beforeTest)
    {
      HandleKey(key);
      now := Deliver(next.beforeTest, past);
    }

    /** One round of the drain after its test, and the codes that come in before the next test. */
    method DrainRound(round: Round, next: Round, ghost past: seq<Event>) returns (key: byte, ghost now: seq<Event>)
      requires Valid() && keyboard.State() == Run(past) && keyboard.State().ring != []
      modifies this`keyboardInterrupts, console, console.mem, keyboard, keyboard.keyQueue, keyboard.keyQueue.queue
      ensures Valid() && keyboard.State() == Run(now)
      ensures Continues(past, now, [key], round.beforePop + round.beforeKey + next.beforeTest)
      ensures round.beforePop == round.beforeKey == next.beforeTest == [] ==>
        [key] + keyboard.State().ring == old(keyboard.State()).ring
      ensures console.Shown() == RoundShown(old(console.Shown()), round, key, next)
    {
      ghost var a;
      key, a := TakeNext(round, past);
      now := HandleThen(key, next, a);
      KeyThenCodes(past, a, now, key, round.beforePop + round.beforeKey, next.beforeTest);
    }

    /** The drain of the key ring. It ends because there are finitely many codes and, without them, every round
        takes a key out of the ring. */
    method Drain(rounds: seq<Round>, ghost past: seq<Event>) returns (keys: seq<byte>, ghost now: seq<Event>)
      requires Valid() && keyboard.State() == Run(past)
      modifies this`keyboardInterrupts, console, console.mem, keyboard, keyboard.keyQueue, keyboard.keyQueue.queue
      ensures Valid() && keyboard.State() == Run(now) && keyboard.State().ring == []
      ensures Continues(past, now, keys, TestedCodes(rounds, |keys|))
      ensures console.Shown() == ActAll(old(console.Shown()), TestedActs(keys, rounds))
      ensures rounds == [] ==> keys == old(keyboard.State()).ring
    {
      ghost var shown, ring := console.Shown(), keyboard.State().ring;
      keys := [];
      now := Deliver(RoundAt(rounds, 0).beforeTest, past);
      FirstTest(rounds, past, shown, now);
      while !keyboard.keyQueue.IsEmpty()
        invariant Valid() && keyboard.State() == Run(now)
        invariant Drained(rounds, past, shown, ring, keys, now, console.Shown(), keyboard.State().ring)
        decreases Max(|rounds| - |keys|, 0), |keyboard.State().ring|
      {
        ghost var before, screen, waiting := now, console.Shown(), keyboard.State().ring;
        var key;
        key, now := DrainRound(RoundAt(rounds, |keys|), RoundAt(rounds, |keys| + 1), now);
        RoundDrained(rounds, past, shown, ring, keys, before, screen, waiting, key, now, keyboard.State().ring);
        keys := keys + [key];
      }
    }

    method UpdateCursor(x: byte, y: byte)
      requires x < WIDTH && y < CELLS / WIDTH
      modifies this`hardwareCursor
      ensures hardwareCursor == WIDTH * y + x
    {
      hardwareCursor := y * WIDTH + x;
    }

    /** In the first turn typing starts where the status part ended. */
    method PlaceTypist()
      requires Valid()
      modifies this`tx, this`ty, this`ptx, this`pty, this`hardwareCursor
      ensures Valid() && firstLoop == old(firstLoop) && StatusCell() == old(StatusCell())
      ensures Placed()
      ensures Typed() == if firstLoop then console.Shown().pos else old(Typed())
    {
      if firstLoop {
        tx, ty := console.GetCursorCoord();
        ptx, pty := tx, ty;
        UpdateCursor(tx, ty);
      }
    }

    /** The typing cursor is saved, and shown by the hardware if it moved. */
    method SaveTypist()
      requires Valid()
      requires Placed()
      modifies this
      ensures Valid() && !firstLoop && StatusCell() == old(StatusCell())
      ensures Typed() == hardwareCursor == console.Shown().pos
    {
      tx, ty := console.GetCursorCoord();
      if ptx != tx || pty != ty {
        ptx, pty := tx, ty;
        UpdateCursor(tx, ty);
      }
      firstLoop := false;
    }

    /** The calls of a part of the status, and the codes that come in among them. */
    method PrintAll(prints: seq<Print>, ghost past: seq<Event>) returns (ghost now: seq<Event>)
      requires Valid() && Matched(prints) && keyboard.State() == Run(past)
      modifies this`keyboardInterrupts, console, console.mem, keyboard, keyboard.keyQueue, keyboard.keyQueue.queue
      ensures Valid() && keyboard.State() == Run(now) && Continues(past, now, [], PrintCodes(prints))
      ensures console.Shown() == ShowPrints(old(console.Shown()), prints)
    {
      ghost var shown := console.Shown();
      now := past;
      NothingYet(past);
      for i := 0 to |prints|
        invariant Valid() && keyboard.State() == Run(now)
        invariant Printed(past, shown, prints[..i], now, console.Shown())
      {
        ghost var before, screen := now, console.Shown();
        match prints[i] {
          case Call(fmt, args) =>
            console.Printf(fmt, args);
          case Interruption(code) =>
            DeliverOne(code, now);
            now := WithCode(now, code);
        }
        OnePrinted(past, shown, prints, i, before, screen, now, console.Shown());
      }
      assert prints[..|prints|] == prints;
    }

    /** To the status cell, after some codes. */
    method GoToStatus(codes: seq<byte>, ghost past: seq<Event>) returns (ghost now: seq<Event>)
      requires Valid() && keyboard.State() == Run(past)
      modifies this`keyboardInterrupts, console, console.mem, keyboard, keyboard.keyQueue, keyboard.keyQueue.queue
      ensures Valid() && keyboard.State() == Run(now) && Continues(past, now, [], codes)
      ensures console.Shown() == MoveTo(Interrupted(old(console.Shown()), codes), StatusCell())
    {
      now := Deliver(codes, past);
      GoTo(cx, cy, StatusCell(), now);
    }

    /** The report, from the status cell on. */
    method PrintReport(input: TurnInput, ghost past: seq<Event>) returns (ghost now: seq<Event>)
      requires Valid() && StatusMatches(input) && keyboard.State() == Run(past)
      modifies this`keyboardInterrupts, console, console.mem, keyboard, keyboard.keyQueue, keyboard.keyQueue.queue
      ensures Valid() && keyboard.State() == Run(now) && Continues(past, now, [], ReportCodes(input))
      ensures console.Shown() == ShowReport(old(console.Shown()), StatusCell(), input)
      ensures console.Shown().pos == StrPos(StatusCell(), PrintsText(input.report))
    {
      ReportIsText(console.Shown(), StatusCell(), input);
      ghost var a := GoToStatus(input.atStart, past);
      now := PrintAll(input.report, a);
      HearsFurther(past, a, now, input.atStart, PrintCodes(input.report));
    }

    /** A newline; then the cursor's row is read off. */
    method StartRow(codes: seq<byte>, ghost past: seq<Event>) returns (y: byte, ghost now: seq<Event>)
      requires Valid() && keyboard.State() == Run(past)
      modifies this`keyboardInterrupts, console, console.mem, keyboard, keyboard.keyQueue, keyboard.keyQueue.queue
      ensures Valid() && keyboard.State() == Run(now) && Continues(past, now, [], codes)
      ensures console.Shown() == Interrupted(Newline(old(console.Shown())), codes)
      ensures 1 <= y == console.Shown().pos / WIDTH < CELLS / WIDTH
    {
      ClearedRowIsOnScreen(console.Shown(), codes);
      console.PrintNewline();
      now := Deliver(codes, past);
      var x;
      x, y := console.GetCursorCoord();
    }

    /** clear_row(y - 1). */
    method ClearThatRow(y: byte, codes: seq<byte>, ghost past: seq<Event>) returns (ghost now: seq<Event>)
      requires Valid() && keyboard.State() == Run(past) && 1 <= y < CELLS / WIDTH
      modifies this`keyboardInterrupts, console, console.mem, keyboard, keyboard.keyQueue, keyboard.keyQueue.queue
      ensures Valid() && keyboard.State() == Run(now) && Continues(past, now, [], codes)
      ensures console.Shown() == Screen.ClearRow(Interrupted(old(console.Shown()), codes), y)
    {
      now := Deliver(codes, past);
      ClearRow(y, now);
    }

    method ClearRow(y: byte, ghost past: seq<Event>)
      requires Valid() && keyboard.State() == Run(past) && 1 <= y < CELLS / WIDTH
      modifies console`rowOffset, console`cells, console.mem
      ensures Valid() && keyboard.State() == Run(past)
      ensures console.Shown() == Screen.ClearRow(old(console.Shown()), y)
    {
      console.ClearRow(y - 1);
    }

    /** A newline, and clear_row(y - 1) for the row y that was read off after it. */
    method ClearNewRow(input: TurnInput, ghost past: seq<Event>) returns (ghost now: seq<Event>)
      requires Valid() && keyboard.State() == Run(past)
      modifies this`keyboardInterrupts, console, console.mem, keyboard, keyboard.keyQueue, keyboard.keyQueue.queue
      ensures Valid() && keyboard.State() == Run(now) && Continues(past, now, [], LineCodes(input))
      ensures console.Shown() == OntoClearRow(old(console.Shown()), input.afterReport, input.beforeClear)
    {
      var y;
      ghost var a;
      y, a := StartRow(input.afterReport, past);
      now := ClearThatRow(y, input.beforeClear, a);
      HearsFurther(past, a, now, input.afterReport, input.beforeClear);
    }

    method SetStyle(style: byte, ghost past: seq<Event>)
      requires Valid() && keyboard.State() == Run(past)
      modifies console`style
      ensures Valid() && keyboard.State() == Run(past)
      ensures console.Shown() == old(console.Shown()).(style := style)
    {
      console.SetPrintStyle(style);
    }

    /** The keyboard flags, in a style of their own. */
    method PrintFlags(input: TurnInput, ghost past: seq<Event>) returns (ghost now: seq<Event>)
      requires Valid() && StatusMatches(input) && keyboard.State() == Run(past)
      modifies this`keyboardInterrupts, console, console.mem, keyboard, keyboard.keyQueue, keyboard.keyQueue.queue
      ensures Valid() && keyboard.State() == Run(now)
      ensures Continues(past, now, [], input.beforeFlags + PrintCodes(input.flags))
      ensures console.Shown() == ShowFlags(old(console.Shown()), input)
    {
      ghost var a := Deliver(input.beforeFlags, past);
      SetStyle(STATUS_STYLE, a);
      now := PrintAll(input.flags, a);
      SetStyle(TYPING_STYLE, now);
      HearsFurther(past, a, now, input.beforeFlags, PrintCodes(input.flags));
    }

    /** The newline after them. */
    method EndStatus(input: TurnInput, ghost past: seq<Event>) returns (ghost now: seq<Event>)
      requires Valid() && keyboard.State() == Run(past)
      modifies this`keyboardInterrupts, console, console.mem, keyboard, keyboard.keyQueue, keyboard.keyQueue.queue
      ensures Valid() && keyboard.State() == Run(now)
      ensures Continues(past, now, [], input.beforeLine + input.afterStatus)
      ensures console.Shown() == ShowEnd(old(console.Shown()), input)
    {
      ghost var a := Deliver(input.beforeLine, past);
      console.PrintNewline();
      now := Deliver(input.afterStatus, a);
      HearsFurther(past, a, now, input.beforeLine, input.afterStatus);
    }

    /** The report and its cleared row. */
    method PrintUpper(input: TurnInput, ghost past: seq<Event>) returns (ghost now: seq<Event>)
      requires Valid() && StatusMatches(input) && keyboard.State() == Run(past)
      modifies this`keyboardInterrupts, console, console.mem, keyboard, keyboard.keyQueue, keyboard.keyQueue.queue
      ensures Valid() && keyboard.State() == Run(now)
      ensures Continues(past, now, [], ReportCodes(input) + LineCodes(input))
      ensures console.Shown() ==
        OntoClearRow(ShowReport(old(console.Shown()), StatusCell(), input), input.afterReport, input.beforeClear)
    {
      ghost var a := PrintReport(input, past);
      now := ClearNewRow(input, a);
      HearsFurther(past, a, now, ReportCodes(input), LineCodes(input));
    }

    /** The flags and the newline after them. */
    method PrintLower(input: TurnInput, ghost past: seq<Event>) returns (ghost now: seq<Event>)
      requires Valid() && StatusMatches(input) && keyboard.State() == Run(past)
      modifies this`keyboardInterrupts, console, console.mem, keyboard, keyboard.keyQueue, keyboard.keyQueue.queue
      ensures Valid() && keyboard.State() == Run(now) && Continues(past, now, [], FlagsCodes(input))
      ensures console.Shown() == ShowEnd(ShowFlags(old(console.Shown()), input), input)
    {
      ghost var a := PrintFlags(input, past);
      now := EndStatus(input, a);
      HearsFurther(past, a, now, input.beforeFlags + PrintCodes(input.flags), input.beforeLine + input.afterStatus);
    }

    /** The whole status. */
    method PrintStatus(input: TurnInput, ghost past: seq<Event>) returns (ghost now: seq<Event>)
      requires Valid() && StatusMatches(input) && keyboard.State() == Run(past)
      modifies this`keyboardInterrupts, console, console.mem, keyboard, keyboard.keyQueue, keyboard.keyQueue.queue
      ensures Valid() && keyboard.State() == Run(now) && Continues(past, now, [], StatusCodes(input))
      ensures console.Shown() == StatusOf(old(console.Shown()), StatusCell(), input)
    {
      ghost var a := PrintUpper(input, past);
      now := PrintLower(input, a);
      HearsFurther(past, a, now, ReportCodes(input) + LineCodes(input), FlagsCodes(input));
    }

    /** The typing window, from the placed cursor v on: the ring is drained. */
    method Window(input: TurnInput, ghost v: View, ghost past: seq<Event>)
      returns (turn: Session.Turn, ghost now: seq<Event>)
      requires Valid() && keyboard.State() == Run(past) && console.Shown() == v
      modifies this`keyboardInterrupts, console, console.mem, keyboard, keyboard.keyQueue, keyboard.keyQueue.queue
      ensures Valid() && keyboard.State() == Run(now) && (input.afterDrain == [] ==> keyboard.State().ring == [])
      ensures turn.input == input && Continues(past, now, turn.keys, WindowCodes(turn))
      ensures console.Shown() == ActAll(v, WindowActs(turn))
    {
      var keys;
      ghost var a;
      keys, a := Drain(input.rounds, past);
      ghost var drained := console.Shown();
      now := Deliver(input.afterDrain, a);
      turn := Session.Turn(input, keys);
      WindowEnds(v, drained, console.Shown(), past, a, now, turn);
    }

    /** The typing part of a turn: the cursor is placed before the window and saved after it. */
    method TypeKeys(input: TurnInput, ghost past: seq<Event>) returns (turn: Session.Turn, ghost now: seq<Event>)
      requires Valid() && keyboard.State() == Run(past) && Placed()
      modifies Repr()
      ensures Valid() && !firstLoop && StatusCell() == old(StatusCell())
      ensures keyboard.State() == Run(now) && (input.afterDrain == [] ==> keyboard.State().ring == [])
      ensures turn.input == input && Continues(past, now, turn.keys, WindowCodes(turn))
      ensures console.Shown() == ActAll(MoveTo(old(console.Shown()), old(Typed())), WindowActs(turn))
      ensures Typed() == hardwareCursor == console.Shown().pos
    {
      GoTo(tx, ty, Typed(), past);
      turn, now := Window(input, console.Shown(), past);
      SaveTypist();
    }

    /** After the status: the typist gets a cell in the first turn. */
    method StartTyping(codes: seq<byte>, ghost past: seq<Event>) returns (ghost now: seq<Event>)
      requires Valid() && keyboard.State() == Run(past)
      modifies Repr()
      ensures Valid() && Placed() && firstLoop == old(firstLoop) && StatusCell() == old(StatusCell())
      ensures keyboard.State() == Run(now) && Continues(past, now, [], codes)
      ensures console.Shown() == Interrupted(old(console.Shown()), codes)
      ensures Typed() == if firstLoop then old(console.Shown()).pos else old(Typed())
    {
      PlaceTypist();
      now := Deliver(codes, past);
    }

    /** One turn of the main loop, for any status calls and any scan codes that come in between its calls. */
    method Turn(input: TurnInput, ghost past: seq<Event>) returns (turn: Session.Turn, ghost now: seq<Event>)
      requires Valid() && StatusMatches(input) && keyboard.State() == Run(past)
      modifies Repr()
      ensures Valid() && !firstLoop && StatusCell() == old(StatusCell())
      ensures keyboard.State() == Run(now) && (input.afterDrain == [] ==> keyboard.State().ring == [])
      ensures turn.input == input && Continues(past, now, turn.keys, CodesOf(turn))
      ensures console.Shown() ==
        OneTurn(old(console.Shown()), StatusCell(), if old(firstLoop) then None else Some(old(Typed())), turn)
      ensures Typed() == hardwareCursor == console.Shown().pos
      ensures !old(firstLoop) ==> Typed() == ActsPos(old(Typed()), WindowActs(turn))
      ensures old(firstLoop) && input.afterReport == input.beforeClear == [] ==>
        Typed() == ActsPos(StrPos(StatusCell(), WholeText(input)), WindowActs(turn))
    {
      ghost var v, p, typed := console.Shown(), StatusCell(), if firstLoop then None else Some(Typed());
      ghost var a := PrintStatus(input, past);
      ghost var status := console.Shown();
      ghost var b := StartTyping(input.beforeTyping, a);
      ghost var started, cell := console.Shown(), Typed();
      turn, now := TypeKeys(input, b);
      TurnContinues(turn, past, a, b, now);
      TurnShown(v, p, typed, status, started, cell, console.Shown(), turn);
      TurnPos(v, p, typed, turn);
    }

    method NextTurn(input: TurnInput, ghost v: View, ghost p: nat, turns: seq<Session.Turn>, ghost past: seq<Event>)
      returns (turn: Session.Turn, ghost now: seq<Event>)
      requires Valid() && StatusMatches(input) && keyboard.State() == Run(past)
      requires p == StatusCell() && InSession(v, p, turns, firstLoop, console.Shown(), Typed())
      modifies Repr()
      ensures Valid() && StatusCell() == old(StatusCell())
      ensures keyboard.State() == Run(now) && (input.afterDrain == [] ==> keyboard.State().ring == [])
      ensures turn.input == input && Continues(past, now, turn.keys, CodesOf(turn))
      ensures InSession(v, p, turns + [turn], firstLoop, console.Shown(), Typed())
    {
      ghost var screen, first, typed := console.Shown(), firstLoop, Typed();
      turn, now := Turn(input, past);
      SessionGoesOn(v, p, turns, first, screen, typed, turn);
    }

    /** The main loop for any number of turns after it is entered, with scan codes that come in at any point
        between two of its calls. The typist starts where the first status ends and then goes where the keys
        lead, and the codes that are printed while he types; all other codes and all status text do not move
        him. */
    method Loop(inputs: seq<TurnInput>, ghost past: seq<Event>)
      returns (turns: seq<Session.Turn>, ghost now: seq<Event>)
      requires Valid() && firstLoop && keyboard.State() == Run(past)
      requires inputs != [] && forall i | 0 <= i < |inputs| :: StatusMatches(inputs[i])
      modifies Repr()
      ensures Valid() && keyboard.State() == Run(now)
      ensures inputs[|inputs| - 1].afterDrain == [] ==> keyboard.State().ring == []
      ensures TurnsOf(inputs, turns) && Continues(past, now, AllKeys(turns), AllCodes(turns))
      ensures console.Shown() == ScreenOf(old(console.Shown()), old(StatusCell()), turns)
      ensures Typed() == hardwareCursor == console.Shown().pos
      ensures FollowsKeys(TypingStart(old(console.Shown()), old(StatusCell()), turns), turns, Typed(), past, now)
    {
      turns, now := [], past;
      ghost var v, p := console.Shown(), StatusCell();
      NothingYet(past);
      for i := 0 to |inputs|
        invariant Valid() && StatusCell() == p && keyboard.State() == Run(now)
        invariant Made(inputs, i, turns, past, now) && InSession(v, p, turns, firstLoop, console.Shown(), Typed())
        invariant i > 0 && inputs[i - 1].afterDrain == [] ==> keyboard.State().ring == []
      {
        ghost var before := now;
        var turn;
        turn, now := NextTurn(inputs[i], v, p, turns, now);
        TurnMade(inputs, turns, turn, past, before, now);
        turns := turns + [turn];
      }
      AllMade(inputs, turns, past, now);
      LastIsQuiet(inputs, turns);
      SessionFollowsKeys(v, p, turns, past, now);
    }
  }

  lemma ArrowIsPushed(s: Input, code: byte)
    requires |s.ring| < 128 && (code == 0x48 || code == 0x50 || code == 0x4B || code == 0x4D)
    ensures Step(Step(s, Interrupt(0xE0)), Interrupt(code)).ring
      == s.ring + [if code == 0x48 then 7 else if code == 0x50 then 6 else if code == 0x4B then 5 else 4]
  {
    KeysInNumbers(s.modifiers, 0xE0);
    KeysInNumbers(NextModifiers(s.modifiers, 0xE0), code);
  }

  lemma TakeContinues(past: seq<Event>, a: seq<Event>, b: seq<Event>, now: seq<Event>, round: Round, key: byte)
    requires Continues(past, a, [], round.beforePop) && Continues(a, b, [key], [])
    requires Continues(b, now, [], round.beforeKey)
    ensures Continues(past, now, [key], round.beforePop + round.beforeKey)
  {
    ContinuesFurther(past, a, b, [], round.beforePop, [key], []);
    assert [] + [key] == [key] && round.beforePop + [] == round.beforePop;
    KeyThenCodes(past, b, now, key, round.beforePop, round.beforeKey);
  }

  lemma KeyThenCodes(a: seq<Event>, b: seq<Event>, c: seq<Event>, key: byte, wire: seq<byte>, more: seq<byte>)
    requires Continues(a, b, [key], wire) && Continues(b, c, [], more)
    ensures Continues(a, c, [key], wire + more)
  {
    ContinuesFurther(a, b, c, [key], wire, [], more);
    assert [key] + [] == [key];
  }

  /** What a drain has done at the test after these keys: the screen, and what is left in the ring. */
  ghost predicate Drained(rounds: seq<Round>, past: seq<Event>, shown: View, ring: seq<byte>,
                          keys: seq<byte>, now: seq<Event>, screen: View, left: seq<byte>) {
    && Continues(past, now, keys, TestedCodes(rounds, |keys|))
    && screen == ActAll(shown, TestedActs(keys, rounds))
    && (rounds == [] ==> keys + left == ring)
  }

  lemma FirstTest(rounds: seq<Round>, past: seq<Event>, shown: View, now: seq<Event>)
    requires Continues(past, now, [], RoundAt(rounds, 0).beforeTest)
    requires rounds == [] ==> now == past
    ensures Drained(rounds, past, shown, Run(past).ring, [], now,
                    Interrupted(shown, RoundAt(rounds, 0).beforeTest), Run(now).ring)
  {
    var codes := RoundAt(rounds, 0).beforeTest;
    assert TestedCodes(rounds, 0) == codes && TestedActs([], rounds) == CodeActs(codes);
    assert [] + Run(now).ring == Run(now).ring;
  }

  lemma RoundDrained(rounds: seq<Round>, past: seq<Event>, shown: View, ring: seq<byte>,
                     keys: seq<byte>, before: seq<Event>, screen: View, waiting: seq<byte>,
                     key: byte, now: seq<Event>, left: seq<byte>)
    requires Drained(rounds, past, shown, ring, keys, before, screen, waiting)
    requires var round, next := RoundAt(rounds, |keys|), RoundAt(rounds, |keys| + 1);
      && Continues(before, now, [key], round.beforePop + round.beforeKey + next.beforeTest)
      && (round.beforePop == round.beforeKey == next.beforeTest == [] ==> [key] + left == waiting)
    ensures Drained(rounds, past, shown, ring, keys + [key], now,
      RoundShown(screen, RoundAt(rounds, |keys|), key, RoundAt(rounds, |keys| + 1)), left)
  {
    assert Continues(past, now, keys + [key], TestedCodes(rounds, |keys| + 1)) by {
      DrainContinues(rounds, past, keys, before, key, now);
    }
    OneMoreRound(shown, keys, key, rounds);
    KeyTaken(keys, key, left, waiting);
  }

  lemma DrainContinues(rounds: seq<Round>, past: seq<Event>, keys: seq<byte>, before: seq<Event>, key: byte,
                       now: seq<Event>)
    requires Continues(past, before, keys, TestedCodes(rounds, |keys|))
    requires var round, next := RoundAt(rounds, |keys|), RoundAt(rounds, |keys| + 1);
      Continues(before, now, [key], round.beforePop + round.beforeKey + next.beforeTest)
    ensures Continues(past, now, keys + [key], TestedCodes(rounds, |keys| + 1))
  {
    var n := |keys|;
    var round, next := RoundAt(rounds, n), RoundAt(rounds, n + 1);
    ContinuesFurther(past, before, now, keys, TestedCodes(rounds, n),
                     [key], round.beforePop + round.beforeKey + next.beforeTest);
    Regroup(DrainCodes(rounds, n), round.beforeTest, round.beforePop, round.beforeKey, next.beforeTest);
  }

  lemma Regroup(a: seq<byte>, b: seq<byte>, c: seq<byte>, d: seq<byte>, e: seq<byte>)
    ensures (a + b) + (c + d + e) == (a + (b + c + d)) + e
  {
  }

  lemma KeyTaken(keys: seq<byte>, key: byte, left: seq<byte>, waiting: seq<byte>)
    ensures [key] + left == waiting ==> keys + [key] + left == keys + waiting
  {
  }

  /** What a part of the status has done after these prints. */
  ghost predicate Printed(past: seq<Event>, shown: View, prints: seq<Print>, now: seq<Event>, screen: View) {
    Matched(prints) && Continues(past, now, [], PrintCodes(prints)) && screen == ShowPrints(shown, prints)
  }

  lemma OnePrinted(past: seq<Event>, shown: View, prints: seq<Print>, i: nat, before: seq<Event>, screen: View,
                   now: seq<Event>, after: View)
    requires i < |prints| && Matched(prints) && Printed(past, shown, prints[..i], before, screen)
    requires after == ShowPrint(screen, prints[i])
    requires now == if prints[i].Interruption? then WithCode(before, prints[i].code) else before
    ensures Printed(past, shown, prints[..i + 1], now, after)
  {
    var done, p := prints[..i], prints[i];
    TakeOneMore(prints, i);
    assert (done + [p])[..i] == done;
    if p.Interruption? {
      OneCodeContinues(before, p.code);
      HearsFurther(past, before, now, PrintCodes(done), [p.code]);
    } else {
      assert PrintCodes(done) + [] == PrintCodes(done);
    }
  }

  lemma OneCodeContinues(past: seq<Event>, code: byte)
    ensures Continues(past, WithCode(past, code), [], [code])
  {
    CodeAdded(past, code);
    CodeDeliversNothing(past, code);
    assert [code][..0] == [] && [] + Handed(code) == Handed(code);
    assert HandedIn([code]) == Handed(code);
  }

  lemma WindowEnds(v: View, drained: View, end: View, past: seq<Event>, a: seq<Event>, now: seq<Event>,
                   turn: Session.Turn)
    requires drained == ActAll(v, TestedActs(turn.keys, turn.input.rounds))
    requires end == Interrupted(drained, turn.input.afterDrain)
    requires Continues(past, a, turn.keys, TestedCodes(turn.input.rounds, |turn.keys|))
    requires Continues(a, now, [], turn.input.afterDrain)
    ensures Continues(past, now, turn.keys, WindowCodes(turn))
    ensures end == ActAll(v, WindowActs(turn))
  {
    ContinuesFurther(past, a, now, turn.keys, TestedCodes(turn.input.rounds, |turn.keys|), [], turn.input.afterDrain);
    assert turn.keys + [] == turn.keys;
    ActAllConcat(v, TestedActs(turn.keys, turn.input.rounds), CodeActs(turn.input.afterDrain));
  }

  lemma TurnContinues(turn: Session.Turn, past: seq<Event>, a: seq<Event>, b: seq<Event>, now: seq<Event>)
    requires Continues(past, a, [], StatusCodes(turn.input)) && Continues(a, b, [], turn.input.beforeTyping)
    requires Continues(b, now, turn.keys, WindowCodes(turn))
    ensures Continues(past, now, turn.keys, CodesOf(turn))
  {
    HearsFurther(past, a, b, StatusCodes(turn.input), turn.input.beforeTyping);
    ContinuesFurther(past, b, now, [], StatusCodes(turn.input) + turn.input.beforeTyping,
                     turn.keys, WindowCodes(turn));
    assert [] + turn.keys == turn.keys;
  }

  lemma TurnShown(v: View, p: nat, typed: Option<nat>, status: View, started: View, cell: nat, end: View,
                  turn: Session.Turn)
    requires p < CELLS && StatusMatches(turn.input) && (typed.Some? ==> typed.value < CELLS)
    requires status == StatusOf(v, p, turn.input) && started == Interrupted(status, turn.input.beforeTyping)
    requires cell == if typed.Some? then typed.value else status.pos
    requires end == ActAll(MoveTo(started, cell), WindowActs(turn))
    ensures end == OneTurn(v, p, typed, turn)
  {
  }

  /** A quiet last turn has no codes after its drain. */
  lemma LastIsQuiet(inputs: seq<TurnInput>, turns: seq<Session.Turn>)
    requires inputs != [] && TurnsOf(inputs, turns)
    ensures QuietWindows(turns) ==> inputs[|inputs| - 1].afterDrain == []
  {
    var t := turns[|turns| - 1];
    assert |WindowCodes(t)| >= |t.input.afterDrain|;
  }

  /** One turn for each input. */
  predicate TurnsOf(inputs: seq<TurnInput>, turns: seq<Session.Turn>) {
    |inputs| == |turns| && forall i | 0 <= i < |turns| :: turns[i].input == inputs[i]
  }

  /** The first n turns are made. */
  ghost predicate Made(inputs: seq<TurnInput>, n: nat, turns: seq<Session.Turn>, past: seq<Event>, now: seq<Event>) {
    && n == |turns| <= |inputs|
    && TurnsOf(inputs[..n], turns)
    && Continues(past, now, AllKeys(turns), AllCodes(turns))
  }

  lemma TurnsOneMore(inputs: seq<TurnInput>, turns: seq<Session.Turn>, turn: Session.Turn)
    requires |turns| < |inputs| && TurnsOf(inputs[..|turns|], turns) && turn.input == inputs[|turns|]
    ensures TurnsOf(inputs[..|turns| + 1], turns + [turn])
  {
  }

  lemma TurnMade(inputs: seq<TurnInput>, turns: seq<Session.Turn>, turn: Session.Turn,
                 past: seq<Event>, before: seq<Event>, now: seq<Event>)
    requires |turns| < |inputs| && Made(inputs, |turns|, turns, past, before) && turn.input == inputs[|turns|]
    requires Continues(before, now, turn.keys, CodesOf(turn))
    ensures Made(inputs, |turns| + 1, turns + [turn], past, now)
  {
    TurnsOneMore(inputs, turns, turn);
    assert (turns + [turn])[..|turns|] == turns;
    ContinuesFurther(past, before, now, AllKeys(turns), AllCodes(turns), turn.keys, CodesOf(turn));
  }

  lemma AllMade(inputs: seq<TurnInput>, turns: seq<Session.Turn>, past: seq<Event>, now: seq<Event>)
    requires Made(inputs, |inputs|, turns, past, now)
    ensures TurnsOf(inputs, turns)
  {
    assert inputs[..|inputs|] == inputs;
  }
}
