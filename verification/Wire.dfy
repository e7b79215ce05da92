/** Scan codes on the wire, as they continue a run of the keyboard: the interrupt stub of kernel/kernel.c hands
    all but the acknowledgements to the decoder. */
module Wire {
  import opened MachineTypes
  import opened KeyRuns

  /** An acknowledgement or the echo reply. */
  predicate Acknowledges(code: byte) { code == 0xEE || code == 0xFE || code == 0xFA }

  /** What a code on the wire brings the decoder: the interrupt stub keeps acknowledgements to itself. */
  function Handed(code: byte): seq<byte> {
    if Acknowledges(code) then [] else [code]
  }

  /** What some codes on the wire bring the decoder. */
  function HandedIn(codes: seq<byte>): seq<byte> {
    if codes == [] then [] else HandedIn(codes[..|codes| - 1]) + Handed(codes[|codes| - 1])
  }

  lemma HandedOneMore(codes: seq<byte>, code: byte)
    ensures HandedIn(codes + [code]) == HandedIn(codes) + Handed(code)
  {
    assert (codes + [code])[..|codes|] == codes;
  }

  lemma Assoc<T>(a: seq<T>, b: seq<T>, c: seq<T>)
    ensures (a + b) + c == a + (b + c)
  {
  }

  lemma {:induction false} HandedConcat(a: seq<byte>, b: seq<byte>)
    ensures HandedIn(a + b) == HandedIn(a) + HandedIn(b)
    decreases |b|
  {
    if b == [] {
      assert a + b == a;
    } else {
      var n := |b| - 1;
      assert a + b == (a + b[..n]) + [b[n]];
      HandedConcat(a, b[..n]);
      HandedOneMore(a + b[..n], b[n]);
      Assoc(HandedIn(a), HandedIn(b[..n]), Handed(b[n]));
    }
  }

  /** The keyboard after a code on the wire. */
  function Taken(s: Input, code: byte): Input {
    if Acknowledges(code) then s else Step(s, Interrupt(code))
  }

  lemma OneMore(past: seq<Event>, e: Event)
    ensures Run(past + [e]) == Step(Run(past), e)
    ensures Delivered(past + [e]) ==
      Delivered(past) + if e.Pop? && Run(past).ring != [] then [Front(Run(past).ring)] else []
    ensures Codes(past + [e]) == Codes(past) + if e.Interrupt? then [e.code] else []
  {
    assert (past + [e])[..|past|] == past;
  }

  /** A run goes on: so many more keys were delivered, and so many codes came in on the wire. */
  ghost predicate Continues(past: seq<Event>, now: seq<Event>, keys: seq<byte>, wire: seq<byte>) {
    past <= now && Delivered(now) == Delivered(past) + keys && Codes(now) == Codes(past) + HandedIn(wire)
  }

  lemma ContinuesFurther(a: seq<Event>, b: seq<Event>, c: seq<Event>, keys: seq<byte>, wire: seq<byte>,
                         moreKeys: seq<byte>, moreWire: seq<byte>)
    requires Continues(a, b, keys, wire) && Continues(b, c, moreKeys, moreWire)
    ensures Continues(a, c, keys + moreKeys, wire + moreWire)
  {
    HandedConcat(wire, moreWire);
    Assoc(Delivered(a), keys, moreKeys);
    Assoc(Codes(a), HandedIn(wire), HandedIn(moreWire));
  }

  /** Codes come in, and no key is taken out. */
  lemma HearsFurther(a: seq<Event>, b: seq<Event>, c: seq<Event>, wire: seq<byte>, more: seq<byte>)
    requires Continues(a, b, [], wire) && Continues(b, c, [], more)
    ensures Continues(a, c, [], wire + more)
  {
    ContinuesFurther(a, b, c, [], wire, [], more);
    var none: seq<byte> := [];
    assert none + none == none;
  }

  lemma NothingYet(past: seq<Event>)
    ensures Continues(past, past, [], [])
  {
  }

  // ----- A batch -----

  /** The run with a code on the wire added, and with the first n of a batch. */
  function WithCode(past: seq<Event>, code: byte): seq<Event> {
    if Acknowledges(code) then past else past + [Interrupt(code)]
  }

  function WithCodes(past: seq<Event>, batch: seq<byte>, n: nat): seq<Event>
    requires n <= |batch|
  {
    if n == 0 then past else WithCode(WithCodes(past, batch, n - 1), batch[n - 1])
  }

  lemma CodeRun(past: seq<Event>, code: byte)
    ensures Run(WithCode(past, code)) == Taken(Run(past), code)
  {
    if !Acknowledges(code) {
      OneMore(past, Interrupt(code));
    }
  }

  /** Keys that wait keep waiting. */
  lemma TakenKeepsWaiting(s: Input, code: byte)
    ensures |s.ring| <= |Taken(s, code).ring|
  {
  }

  lemma CodeAdded(past: seq<Event>, code: byte)
    ensures Codes(WithCode(past, code)) == Codes(past) + Handed(code)
  {
    if !Acknowledges(code) {
      OneMore(past, Interrupt(code));
    }
  }

  lemma CodeDeliversNothing(past: seq<Event>, code: byte)
    ensures past <= WithCode(past, code) && Delivered(WithCode(past, code)) == Delivered(past)
  {
    if !Acknowledges(code) {
      OneMore(past, Interrupt(code));
    }
  }

  lemma {:induction false} CodesExtend(past: seq<Event>, batch: seq<byte>, n: nat)
    requires n <= |batch|
    ensures past <= WithCodes(past, batch, n)
  {
    if n > 0 {
      CodesExtend(past, batch, n - 1);
      CodeDeliversNothing(WithCodes(past, batch, n - 1), batch[n - 1]);
    }
  }

  lemma {:induction false} CodesDeliverNothing(past: seq<Event>, batch: seq<byte>, n: nat)
    requires n <= |batch|
    ensures Delivered(WithCodes(past, batch, n)) == Delivered(past)
  {
    if n > 0 {
      var before, code := WithCodes(past, batch, n - 1), batch[n - 1];
      calc {
        Delivered(WithCodes(past, batch, n));
        Delivered(WithCode(before, code));
        { CodeDeliversNothing(before, code); }
        Delivered(before);
        { CodesDeliverNothing(past, batch, n - 1); }
        Delivered(past);
      }
    }
  }

  lemma CodesAddedStep(past: seq<Event>, before: seq<Event>, wire: seq<byte>, code: byte)
    requires Codes(before) == Codes(past) + HandedIn(wire)
    ensures Codes(WithCode(before, code)) == Codes(past) + HandedIn(wire + [code])
  {
    CodeAdded(before, code);
    HandedOneMore(wire, code);
    Assoc(Codes(past), HandedIn(wire), Handed(code));
  }

  lemma {:induction false} CodesAdded(past: seq<Event>, batch: seq<byte>, n: nat)
    requires n <= |batch|
    ensures Codes(WithCodes(past, batch, n)) == Codes(past) + HandedIn(batch[..n])
  {
    if n > 0 {
      CodesAdded(past, batch, n - 1);
      CodesAddedStep(past, WithCodes(past, batch, n - 1), batch[..n - 1], batch[n - 1]);
      TakeOneMore(batch, n - 1);
    }
  }

  lemma TakeOneMore<T>(s: seq<T>, n: nat)
    requires n < |s|
    ensures s[..n + 1] == s[..n] + [s[n]]
  {
  }

  lemma CodesContinue(past: seq<Event>, batch: seq<byte>)
    ensures Continues(past, WithCodes(past, batch, |batch|), [], batch)
  {
    CodesExtend(past, batch, |batch|);
    CodesDeliverNothing(past, batch, |batch|);
    CodesAdded(past, batch, |batch|);
    assert batch[..|batch|] == batch;
  }

  // ----- In numbers -----

  /** One code at a time: the codes 0xEE, 0xFA and 0xFE are kept back, every other one is handed on; and codes are
      handed on in the order in which they come in. */
  lemma HandedInNumbers(code: byte, a: seq<byte>, b: seq<byte>)
    ensures HandedIn([code]) == if code == 0xEE || code == 0xFA || code == 0xFE then [] else [code]
    ensures HandedIn(a + b) == HandedIn(a) + HandedIn(b)
  {
    assert [code][..0] == [] && [] + Handed(code) == Handed(code);
    HandedConcat(a, b);
  }

  /** So the decoder gets none of the three, every other code as often as it came in, and all codes as they came in
      if and only if none of the three was among them. */
  lemma HandedCounts(wire: seq<byte>, code: byte)
    ensures multiset(HandedIn(wire))[code] == if code in {0xEE, 0xFA, 0xFE} then 0 else multiset(wire)[code]
    ensures HandedIn(wire) == wire <==> 0xEE !in wire && 0xFA !in wire && 0xFE !in wire
  {
    HandedCount(wire, code);
    AllHanded(wire);
  }

  lemma {:induction false} HandedCount(wire: seq<byte>, code: byte)
    ensures multiset(HandedIn(wire))[code] == if code in {0xEE, 0xFA, 0xFE} then 0 else multiset(wire)[code]
  {
    if wire != [] {
      var prev, last := wire[..|wire| - 1], wire[|wire| - 1];
      HandedCount(prev, code);
      assert wire == prev + [last];
      assert HandedIn(wire) == HandedIn(prev) + Handed(last);
    }
  }

  lemma {:induction false} AllHanded(wire: seq<byte>)
    ensures HandedIn(wire) == wire <==> 0xEE !in wire && 0xFA !in wire && 0xFE !in wire
    ensures |HandedIn(wire)| <= |wire|
  {
    if wire != [] {
      var prev, last := wire[..|wire| - 1], wire[|wire| - 1];
      AllHanded(prev);
      assert wire == prev + [last];
      LastHanded(HandedIn(prev), prev, last);
    }
  }

  lemma LastHanded(handed: seq<byte>, prev: seq<byte>, last: byte)
    requires |handed| <= |prev|
    ensures handed + Handed(last) == prev + [last] <==> handed == prev && !Acknowledges(last)
  {
    if Acknowledges(last) {
      assert |handed + Handed(last)| < |prev + [last]|;
    } else if handed + [last] == prev + [last] {
      assert handed == (handed + [last])[..|handed|] == (prev + [last])[..|prev|] == prev;
    }
  }
}
