/** read_bytes and find_cmdslot of kernel/pci.c: the conversation between driver and port, for every
    behaviour of the device (AHCI 1.3.1, sections 3.3.14 and 10.3.1). */
module AhciRead {
  import opened MachineTypes
  import opened AhciLayout
  import opened AhciPort
  import opened AhciCommand

  const MAX_SPINS := 1000000
  /** ATA_DEV_BUSY | ATA_DEV_DRQ. */
  const BUSY: bv32 := 0x88
  const TASK_FILE_ERROR: bv32 := 0x4000_0000
  const COMMAND_SLOTS := 16

  // ----- The lowest free slot -----

  /** The command slot i is in use in neither map. */
  predicate SlotFree(sact: u32, ci: u32, i: nat) { !Bit(sact, i) && !Bit(ci, i) }

  /** The first free slot from i on; 16 if there is none. */
  function FirstFree(sact: u32, ci: u32, i: nat): (slot: nat)
    requires i <= COMMAND_SLOTS
    ensures i <= slot <= COMMAND_SLOTS
    ensures slot < COMMAND_SLOTS ==> SlotFree(sact, ci, slot)
    ensures forall j | i <= j < slot :: !SlotFree(sact, ci, j)
    decreases COMMAND_SLOTS - i
  {
    if i == COMMAND_SLOTS || SlotFree(sact, ci, i) then i else FirstFree(sact, ci, i + 1)
  }

  /** x shifted right by i bits. */
  function Halved(x: nat, i: nat): nat { if i == 0 then x else Halved(x, i - 1) / 2 }

  lemma {:induction false} HalvedShifts(x: nat, i: nat)
    ensures Halved(x / 2, i) == Halved(x, i + 1)
  {
    if i > 0 {
      HalvedShifts(x, i - 1);
    }
  }

  lemma {:induction false} HalvedBit(x: nat, i: nat)
    ensures Bit(x, i) <==> Halved(x, i) % 2 == 1
    decreases i
  {
    if i > 0 {
      HalvedBit(x / 2, i - 1);
      HalvedShifts(x, i - 1);
    }
  }

  /** find_cmdslot on what it sampled; 16 where the source returns -1. */
  method FindCmdslot(sact: u32, ci: u32) returns (slot: nat)
    ensures slot == FirstFree(sact, ci, 0)
  {
    var slots := Union(sact, ci);
    for i := 0 to COMMAND_SLOTS
      invariant slots == Halved(Union(sact, ci), i)
      invariant FirstFree(sact, ci, 0) == FirstFree(sact, ci, i)
    {
      HalvedBit(Union(sact, ci), i);
      UnionBits(sact, ci, i);
      if slots % 2 == 0 {
        return i;
      }
      slots := slots / 2;
    }
    return COMMAND_SLOTS;
  }

  // ----- The protocol, as a monitor of accesses -----

  /** How far a conversation has come. */
  datatype Phase =
    | Fresh
    | Acknowledged
    | HalfSampled(sact: u32)
    | NoSlot
    | Picked(slot: nat)
    | Receiving(slot: nat)
    | Spinning(slot: nat, spins: nat)
    | Hung
    | Ready(slot: nat)
    | Issued(slot: nat)
    | StillBusy(slot: nat)
    | Complete(slot: nat)
    | Failed(slot: nat)
    | Violation

  /** The accesses that the protocol admits in each phase. */
  function Next(ph: Phase, a: Access): Phase {
    match ph
    case Fresh => if a.StoreIrq? && a.mask == 0xFFFF then Acknowledged else Violation
    case Acknowledged => if a.Load? && a.reg == SACT then HalfSampled(a.at.sact) else Violation
    case HalfSampled(sact) =>
      if !(a.Load? && a.reg == CI) then Violation
      else
        var slot := FirstFree(sact, a.at.ci, 0);
        if slot == COMMAND_SLOTS then NoSlot else Picked(slot)
    case Picked(slot) =>
      if a.Load? && a.reg in {CLB, CMD} then ph
      else if a.StoreCmd? && a.cmd & FRE != 0 then Receiving(slot) else Violation
    case Receiving(slot) =>
      if a.Load? && a.reg == CMD then ph
      else if a.StoreCmd? && a.cmd & ST != 0 then Spinning(slot, 0) else Violation
    case Spinning(slot, spins) =>
      if !(a.Load? && a.reg == TFD) then Violation
      else if spins >= MAX_SPINS then Hung
      else if a.at.tfd & BUSY != 0 then Spinning(slot, spins + 1)
      else Ready(slot)
    case Ready(slot) => if a.StoreCi? && a.slots == Pow2(slot) then Issued(slot) else Violation
    case Issued(slot) =>
      if !(a.Load? && a.reg == CI) then Violation
      else if Bit(a.at.ci, slot) then StillBusy(slot) else Complete(slot)
    case StillBusy(slot) =>
      if !(a.Load? && a.reg == IRQ) then Violation
      else if a.at.irq & TASK_FILE_ERROR != 0 then Failed(slot) else Issued(slot)
    case _ => Violation
  }

  function PhaseOf(trace: seq<Access>): Phase {
    if trace == [] then Fresh else Next(PhaseOf(trace[..|trace| - 1]), trace[|trace| - 1])
  }

  /** The phase that the accesses from the n-th on lead to. */
  function PhaseSince(log: seq<Access>, n: nat): Phase
    requires n <= |log|
  {
    PhaseOf(log[n..])
  }

  lemma Observe(log: seq<Access>, n: nat, a: Access)
    requires n <= |log|
    ensures PhaseSince(log + [a], n) == Next(PhaseSince(log, n), a)
  {
    assert (log + [a])[n..] == log[n..] + [a];
    assert (log[n..] + [a])[..|log[n..]|] == log[n..];
  }

  // ----- The driver -----

  /** A device that leaves the command list address alone; otherwise it may do anything at any time. */
  ghost predicate KeepsList(device: Device) {
    forall t: nat, r: Regs :: device(t, r).clb == r.clb
  }

  /** The log got longer, without a command being issued. */
  ghost predicate Quiet(before: seq<Access>, after: seq<Access>) {
    before <= after && forall i | |before| <= i < |after| :: !after[i].StoreCi?
  }

  lemma QuietFurther(a: seq<Access>, b: seq<Access>, c: seq<Access>)
    requires Quiet(a, b) && Quiet(b, c)
    ensures Quiet(a, c)
  {
  }

  /** A load, as the monitor that watches from the n-th access on sees it. */
  method Look(port: Port, reg: Register, ghost n: nat) returns (seen: Regs)
    requires KeepsList(port.device) && n <= |port.log|
    modifies port
    ensures Quiet(old(port.log), port.log) && port.regs.clb == seen.clb == old(port.regs.clb)
    ensures PhaseSince(port.log, n) == Next(old(PhaseSince(port.log, n)), Load(reg, seen))
  {
    ghost var log := port.log;
    seen := port.Read(reg);
    Observe(log, n, Load(reg, seen));
  }

  /** A store to CMD, as the monitor sees it. */
  method Command(port: Port, cmd: bv32, ghost n: nat) returns (ghost at: Regs)
    requires KeepsList(port.device) && n <= |port.log|
    modifies port
    ensures Quiet(old(port.log), port.log) && port.regs.clb == old(port.regs.clb)
    ensures PhaseSince(port.log, n) == Next(old(PhaseSince(port.log, n)), StoreCmd(cmd, at, port.mem[..]))
  {
    ghost var log := port.log;
    at := port.WriteCmd(cmd);
    Observe(log, n, StoreCmd(cmd, at, port.mem[..]));
  }

  /** port->is = 0xffff. */
  method Acknowledge(port: Port, ghost n: nat)
    requires KeepsList(port.device) && n <= |port.log| && PhaseSince(port.log, n) == Fresh
    modifies port
    ensures Quiet(old(port.log), port.log) && port.regs.clb == old(port.regs.clb)
    ensures PhaseSince(port.log, n) == Acknowledged
  {
    ghost var log := port.log;
    ghost var at := port.WriteIrq(0xFFFF);
    Observe(log, n, StoreIrq(0xFFFF, at));
  }

  /** Picks a slot; 16 if there is none. */
  method PickSlot(port: Port, ghost n: nat) returns (slot: nat)
    requires KeepsList(port.device) && n <= |port.log| && PhaseSince(port.log, n) == Acknowledged
    modifies port
    ensures Quiet(old(port.log), port.log) && port.regs.clb == old(port.regs.clb)
    ensures PhaseSince(port.log, n) == if slot == COMMAND_SLOTS then NoSlot else Picked(slot)
    ensures slot <= COMMAND_SLOTS
  {
    var sact := Look(port, SACT, n);
    assert PhaseSince(port.log, n) == HalfSampled(sact.sact);
    var ci := Look(port, CI, n);
    slot := FindCmdslot(sact.sact, ci.ci);
  }

  /** port->cmd |= FRE. */
  method EnableReceiver(port: Port, slot: nat, ghost n: nat)
    requires KeepsList(port.device) && n <= |port.log| && PhaseSince(port.log, n) == Picked(slot)
    modifies port
    ensures Quiet(old(port.log), port.log) && port.regs.clb == old(port.regs.clb)
    ensures PhaseSince(port.log, n) == Receiving(slot)
  {
    var seen := Look(port, CMD, n);
    assert PhaseSince(port.log, n) == Picked(slot);
    BitsSet(seen.cmd);
    ghost var at := Command(port, seen.cmd | FRE, n);
  }

  /** port->cmd |= ST. */
  method EnableCommands(port: Port, slot: nat, ghost n: nat)
    requires KeepsList(port.device) && n <= |port.log| && PhaseSince(port.log, n) == Receiving(slot)
    modifies port
    ensures Quiet(old(port.log), port.log) && port.regs.clb == old(port.regs.clb)
    ensures PhaseSince(port.log, n) == Spinning(slot, 0)
  {
    var seen := Look(port, CMD, n);
    assert PhaseSince(port.log, n) == Receiving(slot);
    BitsSet(seen.cmd);
    ghost var at := Command(port, seen.cmd | ST, n);
  }

  lemma BitsSet(v: bv32)
    ensures (v | FRE) & FRE != 0 && (v | ST) & ST != 0
  {
  }

  /** The phase after the load that the busy loop tests with `spin` counted. */
  function SpinPhase(slot: nat, spin: nat, busy: bool): Phase {
    if spin == MAX_SPINS then Hung else if busy then Spinning(slot, spin + 1) else Ready(slot)
  }

  /** The busy loop. */
  method Spin(port: Port, slot: nat, ghost n: nat) returns (ready: bool)
    requires KeepsList(port.device) && n <= |port.log| && PhaseSince(port.log, n) == Spinning(slot, 0)
    modifies port
    ensures Quiet(old(port.log), port.log) && port.regs.clb == old(port.regs.clb)
    ensures PhaseSince(port.log, n) == if ready then Ready(slot) else Hung
  {
    ghost var start := port.log;
    var spin := 0;
    var seen := Look(port, TFD, n);
    while seen.tfd & BUSY != 0 && spin < MAX_SPINS
      invariant 0 <= spin <= MAX_SPINS && Quiet(start, port.log) && port.regs.clb == old(port.regs.clb)
      invariant PhaseSince(port.log, n) == SpinPhase(slot, spin, seen.tfd & BUSY != 0)
      decreases MAX_SPINS - spin
    {
      ghost var before := port.log;
      spin := spin + 1;
      seen := Look(port, TFD, n);
      QuietFurther(start, before, port.log);
    }
    return spin != MAX_SPINS;
  }

  /** 1 << slot. */
  function SlotMask(slot: nat): (mask: u32)
    requires slot < COMMAND_SLOTS
    ensures mask == Pow2(slot)
  {
    SlotBitFits(slot);
    Pow2(slot)
  }

  /** port->ci = 1 << slot. */
  method Issue(port: Port, slot: nat, ghost n: nat) returns (ghost at: Regs)
    requires KeepsList(port.device) && n <= |port.log| && PhaseSince(port.log, n) == Ready(slot)
    requires slot < COMMAND_SLOTS
    modifies port
    ensures port.log == old(port.log) + [StoreCi(SlotMask(slot), at, port.mem[..])]
    ensures at.clb == port.regs.clb == old(port.regs.clb)
    ensures PhaseSince(port.log, n) == Issued(slot)
  {
    ghost var log := port.log;
    at := port.WriteCi(SlotMask(slot));
    Observe(log, n, StoreCi(SlotMask(slot), at, port.mem[..]));
  }

  /** One round of the wait for an issued command; None if it is still being waited for. */
  method Poll(port: Port, slot: nat, ghost n: nat) returns (result: Option<bool>)
    requires KeepsList(port.device) && n <= |port.log| && PhaseSince(port.log, n) == Issued(slot)
    modifies port
    ensures Quiet(old(port.log), port.log) && port.regs.clb == old(port.regs.clb)
    ensures PhaseSince(port.log, n) in {Issued(slot), Complete(slot), Failed(slot)}
    ensures Ends(PhaseSince(port.log, n), result)
  {
    var seen := Look(port, CI, n);
    if !Bit(seen.ci, slot) {
      return Some(true);
    }
    seen := Look(port, IRQ, n);
    return if seen.irq & TASK_FILE_ERROR != 0 then Some(false) else None;
  }

  /** Waits for an issued command, for at most `patience` more rounds than one; None if it is still being
      waited for then. */
  method Await(port: Port, slot: nat, ghost n: nat, patience: nat) returns (result: Option<bool>)
    requires KeepsList(port.device) && n <= |port.log| && PhaseSince(port.log, n) == Issued(slot)
    modifies port
    ensures Quiet(old(port.log), port.log) && port.regs.clb == old(port.regs.clb)
    ensures PhaseSince(port.log, n) in {Issued(slot), Complete(slot), Failed(slot)}
    ensures Ends(PhaseSince(port.log, n), result)
  {
    ghost var start := port.log;
    result := Poll(port, slot, n);
    var left := patience;
    while result == None && left > 0
      invariant Quiet(start, port.log) && port.regs.clb == old(port.regs.clb)
      invariant PhaseSince(port.log, n) in {Issued(slot), Complete(slot), Failed(slot)}
      invariant Ends(PhaseSince(port.log, n), result)
      decreases left
    {
      ghost var before := port.log;
      result := Poll(port, slot, n);
      QuietFurther(start, before, port.log);
      left := left - 1;
    }
  }

  lemma SlotBitFits(slot: nat)
    requires slot < COMMAND_SLOTS
    ensures Pow2(slot) < 0x1_0000_0000
  {
    PowGrows(slot, COMMAND_SLOTS);
    PowersOf2();
  }

  lemma {:induction false} PowGrows(i: nat, j: nat)
    requires i <= j
    ensures Pow2(i) <= Pow2(j)
    decreases j - i
  {
    if i < j {
      PowGrows(i, j - 1);
    }
  }

  /** The result that goes with an end of the conversation: true only for a completed command, none while
      the issued command is still waited for. */
  predicate Ends(ph: Phase, result: Option<bool>) {
    match ph
    case Complete(_) => result == Some(true)
    case NoSlot => result == Some(false)
    case Hung => result == Some(false)
    case Failed(_) => result == Some(false)
    case Issued(_) => result == None
    case _ => false
  }

  /** Any command that is issued from the m-th access on is that of the slot, with this memory. */
  ghost predicate IssuesOnly(log: seq<Access>, m: nat, slot: nat, mem: seq<byte>, clb: u32) {
    forall i | m <= i < |log| && log[i].StoreCi? ::
      log[i].slots == Pow2(slot) && log[i].mem == mem && log[i].at.clb == clb
  }

  /** The engine is enabled, the device idle. */
  method GetReady(port: Port, slot: nat, ghost n: nat) returns (ready: bool)
    requires KeepsList(port.device) && n <= |port.log| && PhaseSince(port.log, n) == Picked(slot)
    modifies port
    ensures Quiet(old(port.log), port.log) && port.regs.clb == old(port.regs.clb)
    ensures PhaseSince(port.log, n) == if ready then Ready(slot) else Hung
  {
    EnableReceiver(port, slot, n);
    EnableCommands(port, slot, n);
    ready := Spin(port, slot, n);
  }

  /** The driver's part once the command is in memory. */
  method Transfer(port: Port, slot: nat, ghost n: nat, patience: nat)
    returns (result: Option<bool>)
    requires KeepsList(port.device) && n <= |port.log| && PhaseSince(port.log, n) == Picked(slot)
    requires slot < COMMAND_SLOTS
    modifies port
    ensures old(port.log) <= port.log && port.regs.clb == old(port.regs.clb)
    ensures PhaseSince(port.log, n) in {Hung, Issued(slot), Complete(slot), Failed(slot)}
    ensures Ends(PhaseSince(port.log, n), result)
    ensures IssuesOnly(port.log, |old(port.log)|, slot, port.mem[..], old(port.regs.clb))
  {
    var ready := GetReady(port, slot, n);
    if !ready {
      return Some(false);
    }
    ghost var beforeIssue := port.log;
    ghost var at := Issue(port, slot, n);
    ghost var issued := port.log;
    result := Await(port, slot, n, patience);
    OnlyIssue(old(port.log), beforeIssue, issued, port.log, slot, port.mem[..], at);
  }

  /** One command is issued between two quiet stretches. */
  lemma OnlyIssue(start: seq<Access>, ready: seq<Access>, issued: seq<Access>, end: seq<Access>, slot: nat,
                  mem: seq<byte>, at: Regs)
    requires Quiet(start, ready) && Quiet(issued, end) && slot < COMMAND_SLOTS
    requires issued == ready + [StoreCi(SlotMask(slot), at, mem)]
    ensures start <= end && IssuesOnly(end, |start|, slot, mem, at.clb)
  {
  }

  /** The conversation ended without a slot (16), or is about this one. */
  predicate SlotOf(log: seq<Access>, n: nat, slot: nat)
    requires n <= |log|
  {
    if slot == COMMAND_SLOTS then PhaseSince(log, n) == NoSlot
    else PhaseSince(log, n) in {Hung, Issued(slot), Complete(slot), Failed(slot)}
  }

  /** In the slot of the port's list, the controller finds the command that is meant. */
  ghost predicate HoldsCommand(mem: seq<byte>, portno: nat, slot: nat, q: Request)
    requires portno < PORTS && slot < SLOTS
  {
    && HeaderAt(portno, slot) + HEADER_BYTES <= |mem|
    && Load32(mem, HeaderAt(portno, slot) + 8) + COMMAND_BYTES <= |mem|
    && Decode(mem, HeaderAt(portno, slot)) == Meant(q, TableAt(portno, slot))
  }

  /** At an issued command: the list register points to the port's list, which holds the command in the
      slot that is issued. */
  ghost predicate CarriesCommand(a: Access, portno: nat, slot: nat, q: Request)
    requires portno < PORTS && slot < SLOTS
  {
    a.StoreCi? ==>
      a.slots == Pow2(slot) && a.at.clb == ListAt(portno) && HoldsCommand(a.mem, portno, slot, q)
  }

  /** The header and the table of the picked slot, at the address the list register gives. */
  method Prepare(port: Port, portno: nat, slot: nat, q: Request, ghost n: nat)
    requires KeepsList(port.device) && portno < PORTS && slot < SLOTS && port.regs.clb == ListAt(portno)
    requires Configured(port.mem[..], portno) && n <= |port.log| && PhaseSince(port.log, n) == Picked(slot)
    modifies port, port.mem
    ensures Quiet(old(port.log), port.log) && port.regs.clb == ListAt(portno)
    ensures PhaseSince(port.log, n) == Picked(slot) && Configured(port.mem[..], portno)
    ensures forall a | 0 <= a < port.mem.Length ::
      port.mem[a] == IssuedByte(portno, slot, q, RegionOf(a), old(port.mem[a]))
  {
    var seen := Look(port, CLB, n);
    assert seen.clb == ListAt(portno);
    WriteCommand(port.mem, portno, slot, q);
  }

  /** read_bytes, on a configured port and for every device: the conversation follows the protocol to one
      of its ends (or is still waiting for the issued command), the result says which, memory changes only
      for a picked slot and only in its header and table, and at the very store that issues a command the
      port's memory holds the one that is meant. */
  method ReadBytes(port: Port, portno: nat, q: Request, patience: nat)
    returns (result: Option<bool>, ghost slot: nat)
    requires KeepsList(port.device) && portno < PORTS && port.regs.clb == ListAt(portno)
    requires Configured(port.mem[..], portno)
    modifies port, port.mem
    ensures old(port.log) <= port.log && slot <= COMMAND_SLOTS
    ensures Ends(PhaseSince(port.log, |old(port.log)|), result) && SlotOf(port.log, |old(port.log)|, slot)
    ensures slot == COMMAND_SLOTS ==> port.mem[..] == old(port.mem[..])
    ensures slot < COMMAND_SLOTS ==> forall a | 0 <= a < port.mem.Length ::
      port.mem[a] == IssuedByte(portno, slot, q, RegionOf(a), old(port.mem[a]))
    ensures slot < COMMAND_SLOTS ==> forall i | |old(port.log)| <= i < |port.log| ::
      CarriesCommand(port.log[i], portno, slot, q)
    ensures Configured(port.mem[..], portno) && port.regs.clb == ListAt(portno)
  {
    ghost var n := |port.log|;
    assert port.log[n..] == [];
    Acknowledge(port, n);
    var picked := PickSlot(port, n);
    slot := picked;
    if picked == COMMAND_SLOTS {
      return Some(false), picked;
    }
    result := Execute(port, portno, picked, q, n, patience);
  }

  /** The part of read_bytes after a slot is picked. */
  method Execute(port: Port, portno: nat, slot: nat, q: Request, ghost n: nat, patience: nat)
    returns (result: Option<bool>)
    requires KeepsList(port.device) && portno < PORTS && slot < COMMAND_SLOTS && port.regs.clb == ListAt(portno)
    requires Configured(port.mem[..], portno) && n <= |port.log| && PhaseSince(port.log, n) == Picked(slot)
    requires forall i | n <= i < |port.log| :: !port.log[i].StoreCi?
    modifies port, port.mem
    ensures old(port.log) <= port.log && SlotOf(port.log, n, slot) && Ends(PhaseSince(port.log, n), result)
    ensures forall a | 0 <= a < port.mem.Length ::
      port.mem[a] == IssuedByte(portno, slot, q, RegionOf(a), old(port.mem[a]))
    ensures forall i | n <= i < |port.log| :: CarriesCommand(port.log[i], portno, slot, q)
    ensures Configured(port.mem[..], portno) && port.regs.clb == ListAt(portno)
  {
    ghost var before := port.mem[..];
    Prepare(port, portno, slot, q, n);
    ghost var m := |port.log|;
    ReadyCommand(before, port.mem[..], portno, slot, q);
    result := Transfer(port, slot, n, patience);
    AllCarry(port.log, n, m, portno, slot, q, port.mem[..]);
  }

  lemma ReadyCommand(before: seq<byte>, ready: seq<byte>, portno: nat, slot: nat, q: Request)
    requires portno < PORTS && slot < SLOTS && Configured(before, portno) && |before| == |ready|
    requires forall a | 0 <= a < |ready| :: ready[a] == IssuedByte(portno, slot, q, RegionOf(a), before[a])
    ensures HoldsCommand(ready, portno, slot, q)
  {
    assert Linked(before, portno, slot) && PlainAt(before, portno, slot);
    IssuedDecodes(before, ready, portno, slot, q);
  }

  lemma AllCarry(log: seq<Access>, n: nat, m: nat, portno: nat, slot: nat, q: Request, mem: seq<byte>)
    requires portno < PORTS && slot < SLOTS && n <= m <= |log| && HoldsCommand(mem, portno, slot, q)
    requires forall i | n <= i < m :: !log[i].StoreCi?
    requires ListAt(portno) < 0x1_0000_0000 && IssuesOnly(log, m, slot, mem, ListAt(portno))
    ensures forall i | n <= i < |log| :: CarriesCommand(log[i], portno, slot, q)
  {
  }

  // ----- What an admitted conversation contains -----

  function Issues(trace: seq<Access>): nat {
    if trace == [] then 0 else
      Issues(trace[..|trace| - 1]) + if trace[|trace| - 1].StoreCi? then 1 else 0
  }

  /** Loads of the task file. */
  function TaskFileLoads(trace: seq<Access>): nat {
    if trace == [] then 0 else
      var a := trace[|trace| - 1];
      TaskFileLoads(trace[..|trace| - 1]) + if a.Load? && a.reg == TFD then 1 else 0
  }

  predicate AfterIssue(ph: Phase) { ph.Issued? || ph.StillBusy? || ph.Complete? || ph.Failed? }

  /** An admitted conversation issues one command if it got that far, and none before. */
  lemma {:induction false} IssuesAtMostOnce(trace: seq<Access>)
    requires PhaseOf(trace) != Violation
    ensures Issues(trace) == if AfterIssue(PhaseOf(trace)) then 1 else 0
  {
    if trace != [] {
      IssuesAtMostOnce(trace[..|trace| - 1]);
    }
  }

  lemma {:induction false} PrefixAdmitted(trace: seq<Access>, i: nat)
    requires PhaseOf(trace) != Violation && i <= |trace|
    ensures PhaseOf(trace[..i]) != Violation
    decreases |trace|
  {
    if i == |trace| {
      assert trace[..i] == trace;
    } else {
      var prev := trace[..|trace| - 1];
      PrefixAdmitted(prev, i);
      assert prev[..i] == trace[..i];
    }
  }

  predicate IsLoad(a: Access, reg: Register) { a.Load? && a.reg == reg }

  /** The slot was the lowest that was clear in both maps when they were sampled, at a and b. */
  predicate Sampled(trace: seq<Access>, slot: nat, a: nat, b: nat) {
    && a < b < |trace| && IsLoad(trace[a], SACT) && IsLoad(trace[b], CI)
    && slot == FirstFree(trace[a].at.sact, trace[b].at.ci, 0) && slot < COMMAND_SLOTS
  }

  /** FRE was stored at c, after the sampling. */
  predicate ReceiverOn(trace: seq<Access>, b: nat, c: nat) {
    b < c < |trace| && trace[c].StoreCmd? && trace[c].cmd & FRE != 0
  }

  /** ST was stored at d, after FRE. */
  predicate EngineOn(trace: seq<Access>, c: nat, d: nat) {
    c < d < |trace| && trace[d].StoreCmd? && trace[d].cmd & ST != 0
  }

  /** What lies behind a conversation that is ready to issue. */
  predicate ReadyAfter(trace: seq<Access>, slot: nat, a: nat, b: nat, c: nat, d: nat) {
    && Sampled(trace, slot, a, b) && ReceiverOn(trace, b, c) && EngineOn(trace, c, d)
    && d < |trace| - 1 && IsLoad(trace[|trace| - 1], TFD) && trace[|trace| - 1].at.tfd & BUSY == 0
    && TaskFileLoads(trace) <= MAX_SPINS
  }

  /** The history of a conversation that has not issued yet, phase by phase. */
  predicate Explained(trace: seq<Access>, a: nat, b: nat, c: nat, d: nat) {
    match PhaseOf(trace)
    case Fresh => TaskFileLoads(trace) == 0
    case Acknowledged => TaskFileLoads(trace) == 0
    case HalfSampled(sact) =>
      a < |trace| && IsLoad(trace[a], SACT) && trace[a].at.sact == sact && TaskFileLoads(trace) == 0
    case Picked(slot) => Sampled(trace, slot, a, b) && TaskFileLoads(trace) == 0
    case Receiving(slot) => Sampled(trace, slot, a, b) && ReceiverOn(trace, b, c) && TaskFileLoads(trace) == 0
    case Spinning(slot, spins) =>
      && Sampled(trace, slot, a, b) && ReceiverOn(trace, b, c) && EngineOn(trace, c, d)
      && TaskFileLoads(trace) == spins <= MAX_SPINS
    case Ready(slot) => ReadyAfter(trace, slot, a, b, c, d)
    case _ => true
  }

  lemma PhaseSnoc(prev: seq<Access>, x: Access)
    ensures PhaseOf(prev + [x]) == Next(PhaseOf(prev), x)
    ensures TaskFileLoads(prev + [x]) == TaskFileLoads(prev) + if IsLoad(x, TFD) then 1 else 0
  {
    assert (prev + [x])[..|prev|] == prev;
  }

  lemma ExplainSampling(prev: seq<Access>, x: Access, a: nat, b: nat, c: nat, d: nat)
    returns (a': nat, b': nat, c': nat, d': nat)
    requires Explained(prev, a, b, c, d) && Next(PhaseOf(prev), x) != Violation
    requires PhaseOf(prev).Fresh? || PhaseOf(prev).Acknowledged? || PhaseOf(prev).HalfSampled?
    ensures Explained(prev + [x], a', b', c', d')
  {
    PhaseSnoc(prev, x);
    a', b', c', d' := a, b, c, d;
    if PhaseOf(prev).Acknowledged? {
      a' := |prev|;
    } else if PhaseOf(prev).HalfSampled? {
      b' := |prev|;
    }
  }

  lemma ExplainEnabling(prev: seq<Access>, x: Access, a: nat, b: nat, c: nat, d: nat)
    returns (a': nat, b': nat, c': nat, d': nat)
    requires Explained(prev, a, b, c, d) && Next(PhaseOf(prev), x) != Violation
    requires PhaseOf(prev).Picked? || PhaseOf(prev).Receiving?
    ensures Explained(prev + [x], a', b', c', d')
  {
    PhaseSnoc(prev, x);
    a', b', c', d' := a, b, c, d;
    if x.StoreCmd? && PhaseOf(prev).Picked? {
      c' := |prev|;
    } else if x.StoreCmd? {
      d' := |prev|;
    }
  }

  lemma ExplainSpinning(prev: seq<Access>, x: Access, a: nat, b: nat, c: nat, d: nat)
    requires Explained(prev, a, b, c, d) && Next(PhaseOf(prev), x) != Violation && PhaseOf(prev).Spinning?
    ensures Explained(prev + [x], a, b, c, d)
  {
    PhaseSnoc(prev, x);
  }

  lemma ExplainStep(prev: seq<Access>, x: Access, a: nat, b: nat, c: nat, d: nat)
    returns (a': nat, b': nat, c': nat, d': nat)
    requires Explained(prev, a, b, c, d) && Next(PhaseOf(prev), x) != Violation
    ensures Explained(prev + [x], a', b', c', d')
  {
    var ph := PhaseOf(prev);
    a', b', c', d' := a, b, c, d;
    if ph.Fresh? || ph.Acknowledged? || ph.HalfSampled? {
      a', b', c', d' := ExplainSampling(prev, x, a, b, c, d);
    } else if ph.Picked? || ph.Receiving? {
      a', b', c', d' := ExplainEnabling(prev, x, a, b, c, d);
    } else if ph.Spinning? {
      ExplainSpinning(prev, x, a, b, c, d);
    } else {
      ExplainIssued(prev, x, a, b, c, d);
    }
  }

  lemma IssuedStaysIssued(ph: Phase, x: Access)
    requires (ph.Ready? || AfterIssue(ph)) && Next(ph, x) != Violation
    ensures AfterIssue(Next(ph, x))
  {
  }

  lemma ExplainIssued(prev: seq<Access>, x: Access, a: nat, b: nat, c: nat, d: nat)
    requires Next(PhaseOf(prev), x) != Violation && (PhaseOf(prev).Ready? || AfterIssue(PhaseOf(prev)))
    ensures Explained(prev + [x], a, b, c, d)
  {
    PhaseSnoc(prev, x);
    IssuedStaysIssued(PhaseOf(prev), x);
  }

  lemma {:induction false} Explain(trace: seq<Access>) returns (a: nat, b: nat, c: nat, d: nat)
    requires PhaseOf(trace) != Violation
    ensures Explained(trace, a, b, c, d)
  {
    a, b, c, d := 0, 0, 0, 0;
    if trace != [] {
      var prev, x := trace[..|trace| - 1], trace[|trace| - 1];
      assert trace == prev + [x];
      PhaseSnoc(prev, x);
      a, b, c, d := Explain(prev);
      a, b, c, d := ExplainStep(prev, x, a, b, c, d);
    }
  }

  lemma IssueNeedsReady(ph: Phase, x: Access)
    requires Next(ph, x) != Violation && x.StoreCi?
    ensures ph.Ready? && x.slots == Pow2(ph.slot)
  {
  }

  lemma ReadyToIssue(prev: seq<Access>, x: Access)
    requires PhaseOf(prev + [x]) != Violation && x.StoreCi?
    ensures PhaseOf(prev).Ready? && x.slots == Pow2(PhaseOf(prev).slot)
  {
    PhaseSnoc(prev, x);
    IssueNeedsReady(PhaseOf(prev), x);
  }

  lemma ReadyBeforeIssue(trace: seq<Access>, i: nat)
    requires PhaseOf(trace) != Violation && i < |trace| && trace[i].StoreCi?
    ensures PhaseOf(trace[..i]).Ready? && trace[i].slots == Pow2(PhaseOf(trace[..i]).slot)
  {
    PrefixAdmitted(trace, i + 1);
    assert trace[..i + 1] == trace[..i] + [trace[i]];
    ReadyToIssue(trace[..i], trace[i]);
  }

  /** A command is issued only into the lowest slot of 0 to 15 that was clear in both maps when sampled,
      after FRE and then ST were set, and directly after the task file was seen idle within a million loads. */
  lemma IssueIsPrepared(trace: seq<Access>, i: nat)
    requires PhaseOf(trace) != Violation && i < |trace| && trace[i].StoreCi?
    ensures exists slot: nat, a: nat, b: nat, c: nat, d: nat ::
      ReadyAfter(trace[..i], slot, a, b, c, d) && trace[i].slots == Pow2(slot)
  {
    ReadyBeforeIssue(trace, i);
    var before := trace[..i];
    var slot := PhaseOf(before).slot;
    var a, b, c, d := Explain(before);
    ReadyIsExplained(before, slot, a, b, c, d);
    assert ReadyAfter(trace[..i], slot, a, b, c, d) && trace[i].slots == Pow2(slot);
  }

  lemma ReadyIsExplained(trace: seq<Access>, slot: nat, a: nat, b: nat, c: nat, d: nat)
    requires PhaseOf(trace) == Ready(slot) && Explained(trace, a, b, c, d)
    ensures ReadyAfter(trace, slot, a, b, c, d)
  {
  }

  /** What the result of read_bytes tells: true means that the one command was issued and then its bit was
      seen clear; false after a command was issued means that a task file error was seen. */
  lemma ResultMeans(trace: seq<Access>, result: Option<bool>)
    requires Ends(PhaseOf(trace), result)
    ensures Issues(trace) <= 1
    ensures result == Some(true) ==>
      && Issues(trace) == 1 && IsLoad(trace[|trace| - 1], CI)
      && !Bit(trace[|trace| - 1].at.ci, PhaseOf(trace).slot)
    ensures result == Some(false) && Issues(trace) == 1 ==>
      IsLoad(trace[|trace| - 1], IRQ) && trace[|trace| - 1].at.irq & TASK_FILE_ERROR != 0
    ensures result == None ==> Issues(trace) == 1
  {
    IssuesAtMostOnce(trace);
  }

  // ----- In numbers -----

  /** An admitted conversation starts with a store of 0xFFFF to the interrupt status. */
  lemma {:induction false} AcknowledgedFirst(trace: seq<Access>)
    requires PhaseOf(trace) != Violation && trace != []
    ensures trace[0].StoreIrq? && trace[0].mask == 0xFFFF
  {
    if |trace| > 1 {
      AcknowledgedFirst(trace[..|trace| - 1]);
    } else {
      assert trace[..0] == [];
    }
  }

  /** The slot was the lowest of 0 to 15 that was clear in both maps. */
  predicate LowestFree(slot: nat, sact: u32, ci: u32) {
    && slot < 16 && !Bit(sact, slot) && !Bit(ci, slot)
    && forall j: nat | j < slot :: Bit(sact, j) || Bit(ci, j)
  }

  /** What lies behind an issued command, in numbers. */
  predicate PreparedInNumbers(trace: seq<Access>, slot: nat, a: nat, b: nat, c: nat, d: nat) {
    && a < b < c < d < |trace| - 1
    && IsLoad(trace[a], SACT) && IsLoad(trace[b], CI) && LowestFree(slot, trace[a].at.sact, trace[b].at.ci)
    && trace[c].StoreCmd? && trace[c].cmd & 0x10 != 0
    && trace[d].StoreCmd? && trace[d].cmd & 0x1 != 0
    && IsLoad(trace[|trace| - 1], TFD) && trace[|trace| - 1].at.tfd & 0x88 == 0
    && TaskFileLoads(trace) <= 1000000
  }

  lemma ReadyInNumbers(trace: seq<Access>, slot: nat, a: nat, b: nat, c: nat, d: nat)
    requires ReadyAfter(trace, slot, a, b, c, d)
    ensures PreparedInNumbers(trace, slot, a, b, c, d)
  {
    var sact, ci := trace[a].at.sact, trace[b].at.ci;
    forall j: nat | j < slot
      ensures Bit(sact, j) || Bit(ci, j)
    {
      assert !SlotFree(sact, ci, j);
    }
  }

  /** IssueIsPrepared with the numbers of the source. */
  lemma IssueInNumbers(trace: seq<Access>, i: nat)
    requires PhaseOf(trace) != Violation && i < |trace| && trace[i].StoreCi?
    ensures exists slot: nat, a: nat, b: nat, c: nat, d: nat ::
      PreparedInNumbers(trace[..i], slot, a, b, c, d) && trace[i].slots == Pow2(slot)
  {
    IssueIsPrepared(trace, i);
    var slot: nat, a: nat, b: nat, c: nat, d: nat :|
      ReadyAfter(trace[..i], slot, a, b, c, d) && trace[i].slots == Pow2(slot);
    ReadyInNumbers(trace[..i], slot, a, b, c, d);
  }

  /** And the error that a false result after an issue goes back to. */
  lemma ErrorInNumbers(trace: seq<Access>, result: Option<bool>)
    requires Ends(PhaseOf(trace), result)
    ensures result == Some(false) && Issues(trace) == 1 ==>
      IsLoad(trace[|trace| - 1], IRQ) && trace[|trace| - 1].at.irq & 0x4000_0000 != 0
  {
    ResultMeans(trace, result);
  }

  /** What a conversation that picked no slot yet has seen, and one that waits for an idle task file. */
  predicate Seen(trace: seq<Access>) {
    match PhaseOf(trace)
    case Fresh => trace == []
    case Acknowledged => |trace| == 1
    case HalfSampled(sact) => |trace| == 2 && IsLoad(trace[1], SACT) && trace[1].at.sact == sact
    case Spinning(_, spins) => BusyFor(trace, spins)
    case _ => true
  }

  /** The last n accesses each saw the task file busy or asking for data. */
  predicate BusyFor(trace: seq<Access>, n: nat) {
    n <= |trace| && forall i | |trace| - n <= i < |trace| :: IsLoad(trace[i], TFD) && trace[i].at.tfd & 0x88 != 0
  }

  lemma OneMoreSeen(prev: seq<Access>, x: Access)
    requires Seen(prev) && Next(PhaseOf(prev), x) != Violation
    ensures Seen(prev + [x])
  {
    PhaseSnoc(prev, x);
  }

  lemma {:induction false} AllSeen(trace: seq<Access>)
    requires PhaseOf(trace) != Violation
    ensures Seen(trace)
  {
    if trace != [] {
      var prev, x := trace[..|trace| - 1], trace[|trace| - 1];
      AllSeen(prev);
      assert trace == prev + [x];
      OneMoreSeen(prev, x);
    }
  }

  /** Each of the slots 0 to 15 was taken in one of the two maps, which were loaded right after the first store. */
  predicate AllTaken(trace: seq<Access>) {
    && |trace| == 3 && IsLoad(trace[1], SACT) && IsLoad(trace[2], CI)
    && forall j: nat | j < 16 :: Bit(trace[1].at.sact, j) || Bit(trace[2].at.ci, j)
  }

  /** The port is given up after a million busy loads in a row, whatever one more load finds. */
  predicate BusyAMillionTimes(trace: seq<Access>) {
    && |trace| > 1000000 && BusyFor(trace[..|trace| - 1], 1000000) && IsLoad(trace[|trace| - 1], TFD)
  }

  lemma AfterTwo(prev: seq<Access>)
    requires |prev| == 2 && PhaseOf(prev) != Violation
    ensures PhaseOf(prev).HalfSampled?
  {
    var one := prev[..1];
    assert one[..0] == [] && PhaseOf(one) == Next(PhaseOf(one[..0]), one[0]);
    assert PhaseOf(prev) == Next(PhaseOf(one), prev[1]);
  }

  lemma NoneWasFree(prev: seq<Access>, x: Access)
    requires Seen(prev) && Next(PhaseOf(prev), x) == NoSlot
    ensures AllTaken(prev + [x])
  {
    var sact, ci := PhaseOf(prev).sact, x.at.ci;
    assert FirstFree(sact, ci, 0) == 16;
    forall j: nat | j < 16
      ensures Bit(sact, j) || Bit(ci, j)
    {
      assert !SlotFree(sact, ci, j);
    }
  }

  lemma NeverIdle(prev: seq<Access>, x: Access)
    requires Seen(prev) && Next(PhaseOf(prev), x) == Hung
    ensures BusyAMillionTimes(prev + [x])
  {
    assert (prev + [x])[..|prev|] == prev;
    assert BusyFor(prev, 1000000);
  }

  /** read_bytes returns false without having issued a command in these two cases only; and it always does when
      all slots are taken. */
  lemma GivesUp(trace: seq<Access>, result: Option<bool>)
    requires Ends(PhaseOf(trace), result)
    ensures result == Some(false) && Issues(trace) == 0 ==> AllTaken(trace) || BusyAMillionTimes(trace)
    ensures AllTaken(trace) ==> result == Some(false) && Issues(trace) == 0
  {
    IssuesAtMostOnce(trace);
    var prev, x := trace[..|trace| - 1], trace[|trace| - 1];
    assert trace == prev + [x];
    PhaseSnoc(prev, x);
    AllSeen(prev);
    if PhaseOf(trace) == NoSlot {
      NoneWasFree(prev, x);
    } else if PhaseOf(trace) == Hung {
      NeverIdle(prev, x);
    }
    if |prev| == 2 {
      AfterTwo(prev);
    }
  }

  /** A store that issues the command of a slot, in numbers: at that moment the list register holds the port's list,
      and the slot's header and table in memory are, byte by byte, a DMA read of the request. */
  predicate IssuesRead(a: Access, portno: nat, slot: nat, q: Request) {
    && a.StoreCi? && slot < 16 && a.slots == Pow2(slot) && a.at.clb == 0x40_0000 + 1024 * portno
    && ReadInBytes(a.mem, 0x40_0000 + 1024 * portno + 32 * slot, 0x40_A000 + 8192 * portno + 256 * slot, q)
  }

  lemma CarriedInNumbers(a: Access, portno: nat, slot: nat, q: Request)
    requires portno < PORTS && slot < COMMAND_SLOTS && a.StoreCi? && CarriesCommand(a, portno, slot, q)
    ensures IssuesRead(a, portno, slot, q)
  {
    LayoutInNumbers(portno, slot);
    MeantInBytes(a.mem, HeaderAt(portno, slot), TableAt(portno, slot), q);
  }
}
