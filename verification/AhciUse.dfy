/** A port as kernel/kernel.c uses it: port_rebase, and then calls of read_bytes. */
module AhciUse {
  import opened MachineTypes
  import opened AhciLayout
  import opened AhciPort
  import opened AhciStop
  import opened AhciRebase
  import opened AhciCommand
  import opened AhciRead

  /** The accesses of one call of read_bytes: a whole conversation about a slot (16 for none) that ends with this
      result; and a command that it issues is the meant one, at the very store. */
  ghost predicate Answers(trace: seq<Access>, portno: nat, q: Request, result: Option<bool>, slot: nat)
    requires portno < PORTS
  {
    && slot <= COMMAND_SLOTS && Ends(PhaseOf(trace), result)
    && (slot == COMMAND_SLOTS ==> PhaseOf(trace) == NoSlot)
    && (slot < COMMAND_SLOTS ==>
      && PhaseOf(trace) in {Hung, Issued(slot), Complete(slot), Failed(slot)}
      && forall i | 0 <= i < |trace| :: CarriesCommand(trace[i], portno, slot, q))
  }

  /** One call of read_bytes, with its accesses. */
  method ReadOnce(port: Port, portno: nat, q: Request, patience: nat)
    returns (result: Option<bool>, ghost slot: nat, ghost trace: seq<Access>)
    requires KeepsList(port.device) && portno < PORTS && port.regs.clb == ListAt(portno)
    requires Configured(port.mem[..], portno)
    modifies port, port.mem
    ensures port.log == old(port.log) + trace && Answers(trace, portno, q, result, slot)
    ensures Configured(port.mem[..], portno) && port.regs.clb == ListAt(portno)
  {
    ghost var log := port.log;
    result, slot := ReadBytes(port, portno, q, patience);
    trace := port.log[|log|..];
    AnswersOf(log, port.log, portno, q, result, slot);
  }

  lemma AnswersOf(before: seq<Access>, after: seq<Access>, portno: nat, q: Request, result: Option<bool>, slot: nat)
    requires portno < PORTS && before <= after && slot <= COMMAND_SLOTS
    requires Ends(PhaseSince(after, |before|), result) && SlotOf(after, |before|, slot)
    requires slot < COMMAND_SLOTS ==> forall i | |before| <= i < |after| :: CarriesCommand(after[i], portno, slot, q)
    ensures after == before + after[|before|..] && Answers(after[|before|..], portno, q, result, slot)
  {
  }

  /** One conversation after the other. */
  function Joined(traces: seq<seq<Access>>): seq<Access> {
    if traces == [] then [] else Joined(traces[..|traces| - 1]) + traces[|traces| - 1]
  }

  lemma JoinedOneMore(log: seq<Access>, traces: seq<seq<Access>>, trace: seq<Access>)
    ensures log + Joined(traces) + trace == log + Joined(traces + [trace])
  {
    assert (traces + [trace])[..|traces|] == traces;
  }

  /** The requests, as far as they were made, are answered one by one. */
  ghost predicate AllAnswered(traces: seq<seq<Access>>, portno: nat, requests: seq<Request>,
                              results: seq<Option<bool>>, slots: seq<nat>)
    requires portno < PORTS
  {
    && |traces| == |results| == |slots| <= |requests|
    && forall i | 0 <= i < |results| :: Answers(traces[i], portno, requests[i], results[i], slots[i])
  }

  /** No request follows one that is still being waited for. */
  predicate Ended(results: seq<Option<bool>>) { results == [] || results[|results| - 1].Some? }

  /** port_rebase, with its accesses. */
  method Rebase(port: Port, portno: nat, patience: nat) returns (outcome: Outcome, ghost rebase: seq<Access>)
    requires WellBehaved(port.device) && portno < PORTS && port.mem.Length >= AHCI_END
    modifies port, port.mem
    ensures port.log == old(port.log) + rebase && forall i | 0 <= i < |rebase| :: Safe(rebase[i], portno)
    ensures StopPhaseOf(rebase) == if outcome == Started then Halted else Waiting(patience + 1)
    ensures outcome == StuckStopping ==> port.mem[..] == old(port.mem[..])
    ensures outcome == Started ==> Configured(port.mem[..], portno) && port.regs.clb == ListAt(portno)
  {
    ghost var log := port.log;
    outcome := PortRebase(port, portno, patience);
    rebase := port.log[|log|..];
    if outcome == Started {
      RebasedIsConfigured(port.mem[..], portno);
    }
  }

  /** A rebased port and any requests, one after the other, for every device that leaves the host's registers alone
      and starts nothing that is not enabled: no command is issued while the port is rebased, and then every
      request has a conversation of its own, in which any command that is issued is the one that it means. */
  method RebaseAndRead(port: Port, portno: nat, patience: nat, requests: seq<Request>)
    returns (outcome: Outcome, results: seq<Option<bool>>,
             ghost rebase: seq<Access>, ghost traces: seq<seq<Access>>, ghost slots: seq<nat>)
    requires WellBehaved(port.device) && portno < PORTS && port.mem.Length >= AHCI_END
    modifies port, port.mem
    ensures port.log == old(port.log) + rebase + Joined(traces)
    ensures StopPhaseOf(rebase) == if outcome == Started then Halted else Waiting(patience + 1)
    ensures forall i | 0 <= i < |rebase| :: Safe(rebase[i], portno)
    ensures AllAnswered(traces, portno, requests, results, slots)
    ensures outcome == StuckStopping ==> results == [] && port.mem[..] == old(port.mem[..])
    ensures outcome == Started ==> Configured(port.mem[..], portno) && port.regs.clb == ListAt(portno)
    ensures outcome == Started ==> |results| == |requests| || !Ended(results)
  {
    ghost var log := port.log;
    outcome, rebase := Rebase(port, portno, patience);
    results, traces, slots := [], [], [];
    assert log + rebase + Joined(traces) == log + rebase;
    if outcome == StuckStopping {
      return;
    }
    ListIsKept(port.device);
    while |results| < |requests| && Ended(results)
      invariant port.log == log + rebase + Joined(traces)
      invariant AllAnswered(traces, portno, requests, results, slots)
      invariant Configured(port.mem[..], portno) && port.regs.clb == ListAt(portno)
      decreases |requests| - |results|
    {
      var result;
      ghost var slot, trace;
      result, slot, trace := ReadOnce(port, portno, requests[|results|], patience);
      JoinedOneMore(log + rebase, traces, trace);
      results, traces, slots := results + [result], traces + [trace], slots + [slot];
    }
  }

  lemma ListIsKept(device: Device)
    requires WellBehaved(device)
    ensures KeepsList(device)
  {
  }

  /** At this access the meant command of the request is in memory, and it is a DMA read byte by byte. */
  ghost predicate AsksFor(a: Access, portno: nat, slot: nat, q: Request) {
    portno < PORTS && slot < COMMAND_SLOTS && CarriesCommand(a, portno, slot, q) && IssuesRead(a, portno, slot, q)
  }

  /** So every store that issues a command, from the start of port_rebase on, shows in the memory of that moment,
      byte by byte, a DMA read of one of the requests. */
  lemma {:induction false} EveryIssueIsMeant(rebase: seq<Access>, traces: seq<seq<Access>>, portno: nat,
                                             requests: seq<Request>, results: seq<Option<bool>>, slots: seq<nat>,
                                             i: nat)
    requires portno < PORTS && forall j | 0 <= j < |rebase| :: Safe(rebase[j], portno)
    requires AllAnswered(traces, portno, requests, results, slots)
    requires i < |rebase + Joined(traces)| && (rebase + Joined(traces))[i].StoreCi?
    ensures exists k: nat ::
      k < |results| && AsksFor((rebase + Joined(traces))[i], portno, slots[k], requests[k])
    decreases |traces|
  {
    IssueNeedsTrace(rebase, traces, portno, i);
    if traces != [] {
      var a, n := (rebase + Joined(traces))[i], |traces| - 1;
      var before := rebase + Joined(traces[..n]);
      assert rebase + Joined(traces) == before + traces[n];
      if i < |before| {
        EveryIssueIsMeant(rebase, traces[..n], portno, requests, results[..n], slots[..n], i);
        var k: nat :|
          k < n && AsksFor(a, portno, slots[..n][k], requests[k]);
        assert slots[..n][k] == slots[k];
      } else {
        assert a == traces[n][i - |before|];
        IssueNeedsSlot(traces[n], i - |before|);
        CarriedInNumbers(a, portno, slots[n], requests[n]);
        assert AsksFor(a, portno, slots[n], requests[n]);
      }
    }
  }

  lemma IssueNeedsTrace(rebase: seq<Access>, traces: seq<seq<Access>>, portno: nat, i: nat)
    requires portno < PORTS && forall j | 0 <= j < |rebase| :: Safe(rebase[j], portno)
    requires i < |rebase + Joined(traces)| && (rebase + Joined(traces))[i].StoreCi?
    ensures traces != []
  {
    NoIssueIsSafe(rebase, portno);
    assert rebase + [] == rebase;
  }

  lemma NoIssueIsSafe(rebase: seq<Access>, portno: nat)
    requires portno < PORTS && forall j | 0 <= j < |rebase| :: Safe(rebase[j], portno)
    ensures forall j | 0 <= j < |rebase| :: !rebase[j].StoreCi?
  {
    forall j | 0 <= j < |rebase|
      ensures !rebase[j].StoreCi?
    {
      assert Safe(rebase[j], portno);
    }
  }

  lemma IssueNeedsSlot(trace: seq<Access>, i: nat)
    requires PhaseOf(trace) != Violation && i < |trace| && trace[i].StoreCi?
    ensures PhaseOf(trace) != NoSlot
  {
    IssuesAtMostOnce(trace);
    IssueCounts(trace, i);
  }

  lemma {:induction false} IssueCounts(trace: seq<Access>, i: nat)
    requires i < |trace| && trace[i].StoreCi?
    ensures Issues(trace) > 0
  {
    if i < |trace| - 1 {
      IssueCounts(trace[..|trace| - 1], i);
    }
  }
}
