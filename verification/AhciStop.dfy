/** What stop_cmd of kernel/kernel.c asks of a port and what it sees, as a monitor of its accesses. */
module AhciStop {
  import opened AhciPort

  /** How far a stop has come: CMD was loaded, ST was cleared in it, CMD was loaded again, FRE was cleared in
      it; then rounds of waiting, each with FR seen set, or FR clear and after that CR set. */
  datatype StopPhase =
    | Unasked
    | Loaded(cmd: bv32)
    | StCleared
    | LoadedAgain(cmd: bv32)
    | Waiting(rounds: nat)
    | FrWasClear(rounds: nat)
    | Halted
    | Odd

  predicate LoadsCmd(a: Access) { a.Load? && a.reg == CMD }

  predicate StoresCmd(a: Access, cmd: bv32) { a.StoreCmd? && a.cmd == cmd }

  function StopNext(ph: StopPhase, a: Access): StopPhase {
    match ph
    case Unasked => if LoadsCmd(a) then Loaded(a.at.cmd) else Odd
    case Loaded(cmd) => if StoresCmd(a, cmd & !ST) then StCleared else Odd
    case StCleared => if LoadsCmd(a) then LoadedAgain(a.at.cmd) else Odd
    case LoadedAgain(cmd) => if StoresCmd(a, cmd & !FRE) then Waiting(0) else Odd
    case Waiting(n) =>
      if !LoadsCmd(a) then Odd else if a.at.cmd & FR != 0 then Waiting(n + 1) else FrWasClear(n)
    case FrWasClear(n) =>
      if !LoadsCmd(a) then Odd else if a.at.cmd & CR != 0 then Waiting(n + 1) else Halted
    case Halted => Halted
    case Odd => Odd
  }

  function StopPhaseOf(trace: seq<Access>): StopPhase {
    if trace == [] then Unasked else StopNext(StopPhaseOf(trace[..|trace| - 1]), trace[|trace| - 1])
  }

  /** What the accesses from the n-th on have come to. */
  function StopPhaseSince(log: seq<Access>, n: nat): StopPhase
    requires n <= |log|
  {
    StopPhaseOf(log[n..])
  }

  lemma ObserveStop(log: seq<Access>, n: nat, a: Access)
    requires n <= |log|
    ensures StopPhaseSince(log + [a], n) == StopNext(StopPhaseSince(log, n), a)
  {
    assert (log + [a])[n..] == log[n..] + [a];
    assert (log[n..] + [a])[..|log[n..]|] == log[n..];
  }

  /** Once halted, later accesses are not about stopping. */
  lemma {:induction false} HaltedStays(before: seq<Access>, after: seq<Access>, n: nat)
    requires n <= |before| && before <= after && StopPhaseSince(before, n) == Halted
    ensures StopPhaseSince(after, n) == Halted
    decreases |after|
  {
    if |after| == |before| {
      assert after == before;
    } else {
      var m := |after| - 1;
      assert before <= after[..m] && after == after[..m] + [after[m]];
      HaltedStays(before, after[..m], n);
      ObserveStop(after[..m], n, after[m]);
    }
  }

  predicate SawRunning(a: Access) { LoadsCmd(a) && (a.at.cmd & FR != 0 || a.at.cmd & CR != 0) }

  /** How many loads saw the engine running. */
  function RunningLoads(trace: seq<Access>): nat {
    if trace == [] then 0 else
      RunningLoads(trace[..|trace| - 1]) + if SawRunning(trace[|trace| - 1]) then 1 else 0
  }

  predicate Asked(trace: seq<Access>) {
    && |trace| >= 4
    && trace[1].StoreCmd? && trace[1].cmd & ST == 0
    && trace[3].StoreCmd? && trace[3].cmd & FRE == 0
  }

  lemma StBitCleared(v: bv32)
    ensures (v & !ST) & ST == 0 && (v & !FRE) & FRE == 0
  {
  }

  /** The accesses of a stop that has come so far. */
  predicate Begun(ph: StopPhase, trace: seq<Access>) {
    match ph
    case Unasked => trace == []
    case Loaded(_) => |trace| == 1
    case StCleared => |trace| == 2 && trace[1].StoreCmd? && trace[1].cmd & ST == 0
    case LoadedAgain(_) => |trace| == 3 && trace[1].StoreCmd? && trace[1].cmd & ST == 0
    case Waiting(n) => Asked(trace) && RunningLoads(trace) >= n
    case FrWasClear(n) => Asked(trace) && RunningLoads(trace) >= n
    case Halted => Asked(trace)
    case Odd => true
  }

  lemma OneMoreLook(prev: seq<Access>, a: Access)
    ensures StopPhaseOf(prev + [a]) == StopNext(StopPhaseOf(prev), a)
    ensures RunningLoads(prev + [a]) == RunningLoads(prev) + if SawRunning(a) then 1 else 0
  {
    assert (prev + [a])[..|prev|] == prev;
  }

  lemma AskingGoesOn(ph: StopPhase, prev: seq<Access>, a: Access)
    requires Begun(ph, prev) && (ph.Unasked? || ph.Loaded? || ph.StCleared? || ph.LoadedAgain?)
    ensures Begun(StopNext(ph, a), prev + [a])
  {
    if ph.Loaded? {
      StBitCleared(ph.cmd);
    } else if ph.LoadedAgain? {
      StBitCleared(ph.cmd);
    }
  }

  lemma WaitingGoesOn(ph: StopPhase, prev: seq<Access>, a: Access)
    requires Begun(ph, prev) && (ph.Waiting? || ph.FrWasClear? || ph.Halted? || ph.Odd?)
    ensures Begun(StopNext(ph, a), prev + [a])
  {
    OneMoreLook(prev, a);
  }

  lemma {:induction false} AllBegun(trace: seq<Access>)
    ensures Begun(StopPhaseOf(trace), trace)
  {
    if trace != [] {
      var n := |trace| - 1;
      var prev, ph := trace[..n], StopPhaseOf(trace[..n]);
      AllBegun(prev);
      assert prev + [trace[n]] == trace;
      OneMoreLook(prev, trace[n]);
      if ph.Unasked? || ph.Loaded? || ph.StCleared? || ph.LoadedAgain? {
        AskingGoesOn(ph, prev, trace[n]);
      } else {
        WaitingGoesOn(ph, prev, trace[n]);
      }
    }
  }

  /** A port that is waited for: ST and FRE were stored as clear, and in every round a load saw FR or CR set. */
  lemma WaitingMeans(trace: seq<Access>, rounds: nat)
    requires StopPhaseOf(trace) == Waiting(rounds)
    ensures Asked(trace) && RunningLoads(trace) >= rounds
    ensures trace[1].cmd & 0x1 == 0 && trace[3].cmd & 0x10 == 0
  {
    AllBegun(trace);
  }

  /** What it is to see the engine running, in numbers. */
  lemma RunningInNumbers(a: Access)
    ensures SawRunning(a) <==> a.Load? && a.reg == CMD && a.at.cmd & 0xC000 != 0
  {
    TwoBits(a.at.cmd);
  }

  lemma TwoBits(v: bv32)
    ensures v & 0xC000 != 0 <==> v & 0x4000 != 0 || v & 0x8000 != 0
  {
  }
}
