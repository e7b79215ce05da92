/** What the main loop of kernel/kernel.c does with keys, on values. */
module Typing {
  import opened MachineTypes
  import opened Screen
  import opened ScanCodes
  import opened KeyRuns

  /** The switch of the main loop: arrows move the cursor, any other key is printed. */
  function HandleKey(v: View, key: byte): View {
    if key == KEY_UP then MoveTo(v, MovePos(v.pos, Up))
    else if key == KEY_DOWN then MoveTo(v, MovePos(v.pos, Down))
    else if key == KEY_RIGHT then MoveTo(v, MovePos(v.pos, Right))
    else if key == KEY_LEFT then MoveTo(v, MovePos(v.pos, Left))
    else PrintChr(v, key)
  }

  function HandleKeys(v: View, keys: seq<byte>): View
    decreases |keys|
  {
    if keys == [] then v else HandleKeys(HandleKey(v, keys[0]), keys[1..])
  }

  lemma {:induction false} HandleKeysConcat(v: View, a: seq<byte>, b: seq<byte>)
    ensures HandleKeys(v, a + b) == HandleKeys(HandleKeys(v, a), b)
    decreases |a|
  {
    if a == [] {
      assert a + b == b;
    } else {
      assert (a + b)[1..] == a[1..] + b;
      HandleKeysConcat(HandleKey(v, a[0]), a[1..], b);
    }
  }

  lemma HandleOneMore(v: View, keys: seq<byte>, key: byte)
    ensures HandleKeys(v, keys + [key]) == HandleKey(HandleKeys(v, keys), key)
  {
    HandleKeysConcat(v, keys, [key]);
    var w := HandleKeys(v, keys);
    assert HandleKeys(w, [key]) == HandleKeys(HandleKey(w, key), [key][1..]);
  }

  // ----- Batching -----

  /** The screen after a run in which every popped key is handled at once. */
  function ScreenAfter(v: View, events: seq<Event>): View {
    if events == [] then v else
      var prev, e := events[..|events| - 1], events[|events| - 1];
      var w := ScreenAfter(v, prev);
      if e.Pop? && Run(prev).ring != [] then HandleKey(w, Front(Run(prev).ring)) else w
  }

  lemma {:induction false} ScreenHandlesDelivered(v: View, events: seq<Event>)
    ensures ScreenAfter(v, events) == HandleKeys(v, Delivered(events))
  {
    if events != [] {
      var prev, e := events[..|events| - 1], events[|events| - 1];
      ScreenHandlesDelivered(v, prev);
      if e.Pop? && Run(prev).ring != [] {
        HandleOneMore(v, Delivered(prev), Front(Run(prev).ring));
      } else {
        assert Delivered(events) == Delivered(prev);
      }
    }
  }

  /** About the keys alone: wherever the drains fall among the interrupts, the screen that is reached once the
      waiting keys are drained too is that of handling each accepted key on arrival; and each decoded key, if
      the ring was never full when a key came. */
  lemma BatchingIsInvisible(v: View, events: seq<Event>)
    ensures HandleKeys(ScreenAfter(v, events), Run(events).ring) == HandleKeys(v, Accepted(Arrivals(events)))
    ensures NeverFull(Arrivals(events)) ==>
      HandleKeys(ScreenAfter(v, events), Run(events).ring) == HandleKeys(v, Decoded(Codes(events)))
  {
    ScreenHandlesDelivered(v, events);
    HandleKeysConcat(v, Delivered(events), Run(events).ring);
    KeysAreConserved(events);
    NothingLostIffNeverFull(events);
  }

  // ----- The cursor of the typist -----

  function KeyPos(p: nat, key: byte): (q: nat)
    requires p < CELLS
    ensures q < CELLS
  {
    if key == KEY_UP then MovePos(p, Up)
    else if key == KEY_DOWN then MovePos(p, Down)
    else if key == KEY_RIGHT then MovePos(p, Right)
    else if key == KEY_LEFT then MovePos(p, Left)
    else ChrPos(p, key)
  }

  /** The keys in numbers: 7, 6, 5 and 4 move the cursor up, down, left and right around the screen's edges,
      all others are printed. */
  lemma HandledKeysInNumbers(v: View, key: byte)
    ensures HandleKey(v, 7) == MoveTo(v, (v.pos + 1920) % 2000) && HandleKey(v, 6) == MoveTo(v, (v.pos + 80) % 2000)
    ensures HandleKey(v, 5) == MoveTo(v, (v.pos + 1999) % 2000) && HandleKey(v, 4) == MoveTo(v, (v.pos + 1) % 2000)
    ensures !(4 <= key <= 7) ==> HandleKey(v, key) == PrintChr(v, key)
  {
    MovesInNumbers(v.pos);
  }

  /** The direction of an arrow's scan code. */
  function Direction(code: byte): Move
    requires Arrow(code) != 0
  {
    if code == 0x48 then Up else if code == 0x50 then Down else if code == 0x4B then Left else Right
  }

  /** An arrow code directly after the prefix byte moves the cursor by one cell or row in its direction, around
      the screen's edges; no other code makes a key that moves it without printing. */
  lemma ArrowCodesMove(codes: seq<byte>, i: nat, v: View)
    requires i < |codes|
    ensures i > 0 && codes[i - 1] == EXTENDED && Arrow(codes[i]) != 0 ==>
      HandleKey(v, KeyAt(codes, i)) == MoveTo(v, (v.pos + Displacement(Direction(codes[i]))) % CELLS)
    ensures !(i > 0 && codes[i - 1] == EXTENDED && Arrow(codes[i]) != 0) ==>
      HandleKey(v, KeyAt(codes, i)) == PrintChr(v, KeyAt(codes, i))
  {
    ArrowsNeedPrefix(codes, i);
    if Arrow(codes[i]) != 0 {
      MoveIsModular(v.pos, Direction(codes[i]));
    }
  }

  function KeysPos(p: nat, keys: seq<byte>): (q: nat)
    requires p < CELLS
    ensures q < CELLS
    decreases |keys|
  {
    if keys == [] then p else KeysPos(KeyPos(p, keys[0]), keys[1..])
  }

  lemma {:induction false} HandleKeysPos(v: View, keys: seq<byte>)
    ensures HandleKeys(v, keys).pos == KeysPos(v.pos, keys)
    decreases |keys|
  {
    if keys != [] {
      assert HandleKey(v, keys[0]).pos == KeyPos(v.pos, keys[0]);
      HandleKeysPos(HandleKey(v, keys[0]), keys[1..]);
    }
  }

  lemma {:induction false} KeysPosConcat(p: nat, a: seq<byte>, b: seq<byte>)
    requires p < CELLS
    ensures KeysPos(p, a + b) == KeysPos(KeysPos(p, a), b)
    decreases |a|
  {
    if a == [] {
      assert a + b == b;
    } else {
      assert (a + b)[1..] == a[1..] + b;
      KeysPosConcat(KeyPos(p, a[0]), a[1..], b);
    }
  }
}
