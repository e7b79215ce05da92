/** Runs of the keyboard: any interleaving of scan-code interrupts and pops, each of them atomic. */
module KeyRuns {
  import opened MachineTypes
  import opened ScanCodes

  const KEYQUEUE_SIZE := 128

  datatype Event = Interrupt(code: byte) | Pop

  datatype Input = Input(modifiers: Modifiers, ring: seq<byte>)

  const NO_INPUT := Input(NO_MODIFIERS, [])

  function Pushed(ring: seq<byte>, key: byte): seq<byte> {
    if |ring| >= KEYQUEUE_SIZE then ring else ring + [key]
  }

  function Popped(ring: seq<byte>): seq<byte> {
    if ring == [] then [] else ring[1..]
  }

  function Front(ring: seq<byte>): byte {
    if ring == [] then NUL else ring[0]
  }

  function Step(s: Input, e: Event): Input {
    match e
    case Interrupt(code) =>
      var key := KeyOf(s.modifiers, code);
      Input(NextModifiers(s.modifiers, code), if key != 0 then Pushed(s.ring, key) else s.ring)
    case Pop => s.(ring := Popped(s.ring))
  }

  /** The state after a run. */
  function Run(events: seq<Event>): Input {
    if events == [] then NO_INPUT else Step(Run(events[..|events| - 1]), events[|events| - 1])
  }

  /** The keys that the pops of a run returned; a pop of an empty ring returns NUL, no key. */
  function Delivered(events: seq<Event>): seq<byte> {
    if events == [] then [] else
      var prev, e := events[..|events| - 1], events[|events| - 1];
      Delivered(prev) + if e.Pop? && Run(prev).ring != [] then [Front(Run(prev).ring)] else []
  }

  // ----- What a run should deliver, without a ring -----

  /** The scan codes of a run. */
  function Codes(events: seq<Event>): seq<byte> {
    if events == [] then [] else
      var e := events[|events| - 1];
      Codes(events[..|events| - 1]) + if e.Interrupt? then [e.code] else []
  }

  /** The keys that a stream of scan codes stands for. */
  function Decoded(codes: seq<byte>): seq<byte> {
    if codes == [] then [] else
      var key := KeyAt(codes, |codes| - 1);
      Decoded(codes[..|codes| - 1]) + if key != 0 then [key] else []
  }

  /** A decoded key and the number of keys that were waiting when it came. */
  datatype Arrival = Arrival(key: byte, backlog: nat)

  /** The waiting keys of a run as a mere count: up by one for a key unless 128 wait, down by one for a
      pop unless none waits. */
  function Backlog(events: seq<Event>): nat {
    if events == [] then 0 else
      var prev, e := events[..|events| - 1], events[|events| - 1];
      var n := Backlog(prev);
      if e.Pop? then (if n == 0 then 0 else n - 1)
      else if KeyOf(After(Codes(prev)), e.code) != 0 && n < KEYQUEUE_SIZE then n + 1
      else n
  }

  function Arrivals(events: seq<Event>): seq<Arrival> {
    if events == [] then [] else
      var prev, e := events[..|events| - 1], events[|events| - 1];
      var key := if e.Interrupt? then KeyOf(After(Codes(prev)), e.code) else 0;
      Arrivals(prev) + if key != 0 then [Arrival(key, Backlog(prev))] else []
  }

  /** The keys of all arrivals. */
  function Offered(arrivals: seq<Arrival>): seq<byte> {
    if arrivals == [] then [] else
      var a := arrivals[|arrivals| - 1];
      Offered(arrivals[..|arrivals| - 1]) + [a.key]
  }

  /** The keys of the arrivals that found room. */
  function Accepted(arrivals: seq<Arrival>): seq<byte> {
    if arrivals == [] then [] else
      var a := arrivals[|arrivals| - 1];
      Accepted(arrivals[..|arrivals| - 1]) + if a.backlog < KEYQUEUE_SIZE then [a.key] else []
  }

  lemma {:induction false} OfferedSnoc(arrivals: seq<Arrival>, a: Arrival)
    ensures Offered(arrivals + [a]) == Offered(arrivals) + [a.key]
    ensures Accepted(arrivals + [a]) == Accepted(arrivals) + if a.backlog < KEYQUEUE_SIZE then [a.key] else []
  {
    assert (arrivals + [a])[..|arrivals|] == arrivals;
  }

  lemma AfterSnoc(codes: seq<byte>, code: byte)
    ensures After(codes + [code]) == NextModifiers(After(codes), code)
    ensures Decoded(codes + [code]) ==
      Decoded(codes) + if KeyOf(After(codes), code) != 0 then [KeyOf(After(codes), code)] else []
  {
    assert (codes + [code])[..|codes|] == codes;
  }

  /** The decoder sees the scan codes and nothing of the pops between them. */
  lemma {:induction false} PopsDoNotDisturbDecoding(events: seq<Event>)
    ensures Run(events).modifiers == After(Codes(events))
    ensures Offered(Arrivals(events)) == Decoded(Codes(events))
  {
    if events != [] {
      var prev, e := events[..|events| - 1], events[|events| - 1];
      PopsDoNotDisturbDecoding(prev);
      if e.Interrupt? {
        AfterSnoc(Codes(prev), e.code);
        OfferedSnoc(Arrivals(prev), Arrival(KeyOf(After(Codes(prev)), e.code), Backlog(prev)));
        assert Arrivals(prev) + [] == Arrivals(prev);
      } else {
        assert Codes(prev) + [] == Codes(prev);
        assert Arrivals(prev) + [] == Arrivals(prev);
      }
    }
  }

  /** The ring never holds more than 128 keys, never a NUL, and as many as the count says. */
  lemma {:induction false} RingHoldsBacklog(events: seq<Event>)
    ensures |Run(events).ring| == Backlog(events) <= KEYQUEUE_SIZE
    ensures NUL !in Run(events).ring
  {
    if events != [] {
      var prev := events[..|events| - 1];
      RingHoldsBacklog(prev);
      PopsDoNotDisturbDecoding(prev);
    }
  }

  /** A code's effect on both sides. */
  lemma CodeStep(prev: seq<Event>, code: byte)
    ensures var events, key := prev + [Interrupt(code)], KeyOf(After(Codes(prev)), code);
      && Delivered(events) == Delivered(prev)
      && Run(events).ring == (if key != 0 then Pushed(Run(prev).ring, key) else Run(prev).ring)
      && Arrivals(events) == Arrivals(prev) + if key != 0 then [Arrival(key, Backlog(prev))] else []
  {
    assert (prev + [Interrupt(code)])[..|prev|] == prev;
    PopsDoNotDisturbDecoding(prev);
  }

  lemma PushConserves(prev: seq<Event>, code: byte)
    requires Delivered(prev) + Run(prev).ring == Accepted(Arrivals(prev))
    ensures var events := prev + [Interrupt(code)];
      Delivered(events) + Run(events).ring == Accepted(Arrivals(events))
  {
    var ring, key := Run(prev).ring, KeyOf(After(Codes(prev)), code);
    CodeStep(prev, code);
    RingHoldsBacklog(prev);
    if key != 0 {
      OfferedSnoc(Arrivals(prev), Arrival(key, Backlog(prev)));
      KeyLast(Delivered(prev), ring, key);
    } else {
      assert Arrivals(prev) + [] == Arrivals(prev);
    }
  }

  lemma KeyLast(delivered: seq<byte>, ring: seq<byte>, key: byte)
    ensures delivered + (ring + [key]) == delivered + ring + [key]
  {
  }

  lemma PopConserves(prev: seq<Event>)
    ensures var events := prev + [Pop];
      Delivered(events) + Run(events).ring == Delivered(prev) + Run(prev).ring
    ensures Arrivals(prev + [Pop]) == Arrivals(prev)
  {
    assert (prev + [Pop])[..|prev|] == prev;
    FrontFirst(Delivered(prev), Run(prev).ring);
  }

  lemma FrontFirst(delivered: seq<byte>, ring: seq<byte>)
    ensures delivered + (if ring != [] then [Front(ring)] else []) + Popped(ring) == delivered + ring
  {
  }

  /** In every interleaving: what was delivered and what waits is, in order, what was accepted. */
  lemma {:induction false} KeysAreConserved(events: seq<Event>)
    ensures Delivered(events) + Run(events).ring == Accepted(Arrivals(events))
  {
    if events != [] {
      var prev, e := events[..|events| - 1], events[|events| - 1];
      assert events == prev + [e];
      KeysAreConserved(prev);
      match e
      case Interrupt(code) => PushConserves(prev, code);
      case Pop => PopConserves(prev);
    }
  }

  lemma {:induction false} AcceptedLength(arrivals: seq<Arrival>)
    ensures |Offered(arrivals)| == |arrivals| && |Accepted(arrivals)| <= |arrivals|
    ensures Accepted(arrivals) == Offered(arrivals) <==> NeverFull(arrivals)
    ensures |Accepted(arrivals)| == |arrivals| <==> NeverFull(arrivals)
  {
    if arrivals != [] {
      var n := |arrivals| - 1;
      AcceptedLength(arrivals[..n]);
      assert NeverFull(arrivals) <==> NeverFull(arrivals[..n]) && arrivals[n].backlog < KEYQUEUE_SIZE;
    }
  }

  /** No key came while 128 others were waiting. */
  ghost predicate NeverFull(arrivals: seq<Arrival>) {
    forall i | 0 <= i < |arrivals| :: arrivals[i].backlog < KEYQUEUE_SIZE
  }

  /** Every decoded key is delivered or waiting, once and in order, if and only if none of them came
      while the ring was full. */
  lemma NothingLostIffNeverFull(events: seq<Event>)
    ensures Delivered(events) + Run(events).ring == Decoded(Codes(events)) <==> NeverFull(Arrivals(events))
  {
    KeysAreConserved(events);
    PopsDoNotDisturbDecoding(events);
    AcceptedLength(Arrivals(events));
  }

  /** A pop returns NUL exactly when nothing waits. */
  lemma NulMeansEmpty(events: seq<Event>)
    ensures Front(Run(events).ring) == NUL <==> Run(events).ring == []
  {
    RingHoldsBacklog(events);
  }

  // ----- An example -----

  /** The key a is pressed n times, and none is taken out. */
  function Presses(n: nat): seq<Event> {
    if n == 0 then [] else Presses(n - 1) + [Interrupt(0x1E)]
  }

  function Keys(n: nat): (keys: seq<byte>)
    ensures |keys| == n && forall i | 0 <= i < n :: keys[i] == 97
  {
    seq(n, _ => 97)
  }

  lemma PressOfA()
    ensures KeyOf(NO_MODIFIERS, 0x1E) == 97 && NextModifiers(NO_MODIFIERS, 0x1E) == NO_MODIFIERS
  {
  }

  lemma {:induction false} PressesFillTheRing(n: nat)
    ensures Run(Presses(n)) == Input(NO_MODIFIERS, Keys(if n < KEYQUEUE_SIZE then n else KEYQUEUE_SIZE))
    ensures Delivered(Presses(n)) == []
  {
    if n > 0 {
      var prev := Presses(n - 1);
      PressesFillTheRing(n - 1);
      PressOfA();
      assert (prev + [Interrupt(0x1E)])[..|prev|] == prev;
      if n <= KEYQUEUE_SIZE {
        assert Keys(n - 1) + [97] == Keys(n);
      }
    }
  }

  lemma PressDecodes(codes: seq<byte>)
    requires After(codes) == NO_MODIFIERS
    ensures After(codes + [0x1E]) == NO_MODIFIERS && Decoded(codes + [0x1E]) == Decoded(codes) + [97]
  {
    AfterSnoc(codes, 0x1E);
    PressOfA();
  }

  lemma OneKey(n: nat)
    ensures Keys(n) + [97] == Keys(n + 1)
  {
  }

  lemma {:induction false} CodesOfPresses(n: nat)
    ensures |Codes(Presses(n))| == n && forall i | 0 <= i < n :: Codes(Presses(n))[i] == 0x1E
  {
    if n > 0 {
      CodesOfPresses(n - 1);
      assert (Presses(n - 1) + [Interrupt(0x1E)])[..|Presses(n - 1)|] == Presses(n - 1);
    }
  }

  lemma {:induction false} PressesDecode(codes: seq<byte>)
    requires forall i | 0 <= i < |codes| :: codes[i] == 0x1E
    ensures Decoded(codes) == Keys(|codes|) && After(codes) == NO_MODIFIERS
  {
    if codes != [] {
      var prev := codes[..|codes| - 1];
      PressesDecode(prev);
      PressDecodes(prev);
      OneKey(|prev|);
      assert prev + [0x1E] == codes;
    }
  }

  /** 129 presses without a pop: the last key is lost. */
  lemma OnePressTooMany()
    ensures var events := Presses(129);
      && Delivered(events) == [] && Run(events).ring == Keys(128) && Decoded(Codes(events)) == Keys(129)
      && !NeverFull(Arrivals(events))
  {
    PressesFillTheRing(129);
    CodesOfPresses(129);
    PressesDecode(Codes(Presses(129)));
    NothingLostIffNeverFull(Presses(129));
    assert |[] + Keys(128)| != |Keys(129)|;
  }
}
