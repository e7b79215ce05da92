/** The key ring and the keyboard of kernel/keyboard.c, updated in place. */
module Keyboard {
  import opened MachineTypes
  import opened ScanCodes
  import opened KeyRuns

  class KeyQueue {
    const queue: array<byte>
    var start: u32
    var length: u32

    predicate Valid()
      reads this
    {
      queue.Length == KEYQUEUE_SIZE && start < KEYQUEUE_SIZE && length <= KEYQUEUE_SIZE
    }

    /** The queued keys, oldest first. */
    function Contents(): (keys: seq<byte>)
      requires Valid()
      reads this, queue
      ensures |keys| == length
    {
      seq(length, i requires 0 <= i < length reads this, queue requires Valid() =>
        queue[(start + i) % KEYQUEUE_SIZE])
    }

    constructor ()
      ensures Valid() && fresh(queue) && Contents() == []
    {
      queue := new byte[KEYQUEUE_SIZE](_ => 0);
      start, length := 0, 0;
    }

    method Clear()
      requires Valid()
      modifies this
      ensures Valid() && Contents() == []
    {
      start := 0;
      length := 0;
    }

    predicate IsFull()
      requires Valid()
      reads this
    {
      length >= KEYQUEUE_SIZE
    }

    predicate IsEmpty()
      requires Valid()
      reads this
    {
      length == 0
    }

    /** A key pushed into a full queue is dropped. */
    method Push(value: byte)
      requires Valid()
      modifies this, queue
      ensures Valid() && Contents() == Pushed(old(Contents()), value)
    {
      if IsFull() {
        return;
      }
      queue[(start + length) % KEYQUEUE_SIZE] := value;
      length := length + 1;
      assert forall i | 0 <= i < length - 1 :: Contents()[i] == old(Contents())[i];
    }

    /** The oldest key; NUL when there is none. */
    method Pop() returns (key: byte)
      requires Valid()
      modifies this
      ensures Valid()
      ensures Contents() == Popped(old(Contents()))
      ensures key == Front(old(Contents()))
    {
      if IsEmpty() {
        return NUL;
      }
      ghost var before := Contents();
      length := length - 1;
      key := queue[start];
      start := start + 1;
      start := start % KEYQUEUE_SIZE;
      assert before[0] == key;
      forall i | 0 <= i < length
        ensures Contents()[i] == before[i + 1]
      {
        RingStep(old(start), i);
      }
    }
  }

  lemma RingStep(start: nat, i: nat)
    ensures ((start + 1) % KEYQUEUE_SIZE + i) % KEYQUEUE_SIZE == (start + (i + 1)) % KEYQUEUE_SIZE
  {
  }

  class Keyboard {
    var shift: bool
    var ctrl: bool
    var numLock: bool
    var scrollLock: bool
    var capsLock: bool
    var extendedMode: bool
    const keyQueue: KeyQueue

    predicate Valid()
      reads this, keyQueue
    {
      keyQueue.Valid()
    }

    function Flags(): Modifiers
      reads this
    {
      Modifiers(shift, ctrl, numLock, scrollLock, capsLock, extendedMode)
    }

    function State(): Input
      requires Valid()
      reads this, keyQueue, keyQueue.queue
    {
      Input(Flags(), keyQueue.Contents())
    }

    constructor ()
      ensures Valid() && fresh(keyQueue) && fresh(keyQueue.queue) && State() == NO_INPUT
    {
      shift, ctrl, numLock, scrollLock, capsLock, extendedMode := false, false, false, false, false, false;
      keyQueue := new KeyQueue();
    }

    /** init_ps2_keyboard: a keyboard that is put back into its first state, ring and all. */
    method Init()
      requires Valid()
      modifies this, keyQueue, keyQueue.queue
      ensures Valid() && State() == NO_INPUT
      ensures forall i | 0 <= i < KEYQUEUE_SIZE :: keyQueue.queue[i] == 0
    {
      shift, ctrl, numLock, scrollLock, capsLock, extendedMode := false, false, false, false, false, false;
      keyQueue.start := 0;
      keyQueue.length := 0;
      for i := 0 to KEYQUEUE_SIZE
        invariant Valid() && State() == NO_INPUT
        invariant forall j | 0 <= j < i :: keyQueue.queue[j] == 0
      {
        keyQueue.queue[i] := 0;
      }
    }

    /** The switch of ps2_keyboard_int. Outside extended mode each arrow case falls through to the next and
        so to the table look-up; leaving extended mode is done by the caller. */
    method Decode(code: byte) returns (key: byte)
      modifies this
      ensures key == KeyOf(old(Flags()), code)
      ensures Flags() == NextModifiers(old(Flags()), code).(extended := code == EXTENDED || old(extendedMode))
    {
      key := 0;
      if code == 0x2A || code == 0x36 {
        shift := true;
      } else if code == 0xAA || code == 0xB6 {
        shift := false;
      } else if code == 0x3A {
        capsLock := !capsLock;
      } else if code == 0x45 {
        numLock := !numLock;
      } else if code == 0x1D {
        ctrl := true;
      } else if code == 0x9D {
        ctrl := false;
      } else if code == 0xE0 {
        extendedMode := true;
      } else if code == 0xC6 {
        scrollLock := !scrollLock;
      } else if code == 0x48 && extendedMode {
        key := 0x7;
      } else if code == 0x50 && extendedMode {
        key := 0x6;
      } else if code == 0x4B && extendedMode {
        key := 0x5;
      } else if code == 0x4D && extendedMode {
        key := 0x4;
      } else {
        key := CharOf(code, shift);
        if 97 <= key <= 122 {
          if shift || capsLock {
            key := key - 32;
          }
        }
      }
    }

    /** ps2_keyboard_int. */
    method Interrupt(code: byte)
      requires Valid()
      modifies this, keyQueue, keyQueue.queue
      ensures Valid() && State() == Step(old(State()), Event.Interrupt(code))
    {
      var key := Decode(code);
      if key != 0 {
        keyQueue.Push(key);
      }
      if code != 0xE0 && extendedMode {
        extendedMode := false;
      }
    }

    method PopKey() returns (key: byte)
      requires Valid()
      modifies keyQueue
      ensures Valid() && State() == Step(old(State()), Event.Pop)
      ensures key == Front(old(State()).ring)
    {
      key := keyQueue.Pop();
    }
  }
}
