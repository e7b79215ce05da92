/** Stopping, moving and starting a port's command engine: stop_cmd, start_cmd and port_rebase of
    kernel/kernel.c, against a device that may move between any two accesses of the host. */
module AhciRebase {
  import opened MachineTypes
  import opened AhciLayout
  import opened AhciPort
  import opened AhciStop

  predicate St(r: Regs) { r.cmd & ST != 0 }

  predicate Fre(r: Regs) { r.cmd & FRE != 0 }

  predicate Fr(r: Regs) { r.cmd & FR != 0 }

  predicate Cr(r: Regs) { r.cmd & CR != 0 }

  /** The engine is fully stopped: nothing is enabled and nothing is running. */
  predicate Stopped(r: Regs) { !St(r) && !Fre(r) && !Fr(r) && !Cr(r) }

  /** A device move that leaves the host's registers alone and starts nothing that is not enabled. */
  predicate Allowed(r: Regs, s: Regs) {
    && s.clb == r.clb && s.clbu == r.clbu && s.fb == r.fb && s.fbu == r.fbu
    && St(s) == St(r) && Fre(s) == Fre(r)
    && (Cr(s) ==> Cr(r) || St(r))
    && (Fr(s) ==> Fr(r) || Fre(r))
  }

  ghost predicate WellBehaved(device: Device) {
    forall t: nat, r: Regs :: Allowed(r, device(t, r))
  }

  lemma MovesAreAllowed(device: Device, r: Regs, s: Regs)
    requires WellBehaved(device) && Moved(device, r, s)
    ensures Allowed(r, s)
  {
  }

  lemma StWasCleared(at: Regs, v: bv32)
    ensures var r := WithCmd(at, v & !ST);
      !St(r) && Fre(r) == (v & FRE != 0) && Fr(r) == Fr(at) && Cr(r) == Cr(at)
    ensures (v & !ST) & ST == 0 && (v & !ST) & FRE == v & FRE
  {
  }

  lemma FreCleared(at: Regs, v: bv32)
    ensures var r := WithCmd(at, v & !FRE);
      !Fre(r) && St(r) == (v & ST != 0) && Fr(r) == Fr(at) && Cr(r) == Cr(at)
    ensures (v & !FRE) & FRE == 0 && (v & !FRE) & ST == v & ST
  {
  }

  lemma FreSet(at: Regs, v: bv32)
    ensures var r := WithCmd(at, v | FRE);
      Fre(r) && St(r) == (v & ST != 0) && Fr(r) == Fr(at) && Cr(r) == Cr(at)
    ensures (v | FRE) & ST == v & ST
  {
  }

  lemma StSet(at: Regs, v: bv32)
    ensures var r := WithCmd(at, v | ST);
      St(r) && Fre(r) == (v & FRE != 0) && Fr(r) == Fr(at) && Cr(r) == Cr(at)
    ensures (v | ST) & FRE == v & FRE
  {
  }

  /** What must hold of an access while a port is rebased: an address register changes only while the engine
      is fully stopped; the receiver is started only on a stopped engine; the command engine is started
      only after it, with CR clear; both only once all structures of the port are built; and no command is
      issued. */
  ghost predicate Safe(a: Access, portno: nat)
    requires portno < PORTS
  {
    match a
    case StoreAddress(_, _, at) => Stopped(at)
    case StoreCmd(v, at, mem) =>
      && (v & FRE != 0 && !Fre(at) ==> Stopped(at) && Rebased(mem, portno))
      && (v & ST != 0 && !St(at) ==> Fre(at) && !Cr(at) && Rebased(mem, portno))
    case StoreCi(_, _, _) => false
    case _ => true
  }

  /** Safety in numbers: bit 0 of CMD is ST, bit 4 FRE, bit 14 FR, bit 15 CR. */
  lemma SafeInNumbers(a: Access, portno: nat)
    requires portno < PORTS && Safe(a, portno)
    ensures a.StoreAddress? ==> a.at.cmd & 0xC011 == 0
    ensures a.StoreCmd? && a.cmd & 0x10 != 0 && a.at.cmd & 0x10 == 0 ==>
      a.at.cmd & 0xC011 == 0 && Rebased(a.mem, portno)
    ensures a.StoreCmd? && a.cmd & 0x1 != 0 && a.at.cmd & 0x1 == 0 ==>
      a.at.cmd & 0x10 != 0 && a.at.cmd & 0x8000 == 0 && Rebased(a.mem, portno)
    ensures !a.StoreCi?
  {
    FourBits(a.at.cmd);
  }

  lemma FourBits(v: bv32)
    ensures v & 0xC011 == 0 <==> v & 0x1 == 0 && v & 0x10 == 0 && v & 0x4000 == 0 && v & 0x8000 == 0
  {
  }

  /** The log got longer, by safe accesses only. */
  ghost predicate SafelyExtends(before: seq<Access>, after: seq<Access>, portno: nat)
    requires portno < PORTS
  {
    before <= after && forall i | |before| <= i < |after| :: Safe(after[i], portno)
  }

  predicate SameAddresses(r: Regs, s: Regs) {
    r.clb == s.clb && r.clbu == s.clbu && r.fb == s.fb && r.fbu == s.fbu
  }

  /** From its T-th move on, the device has FR and CR clear while ST and FRE are. */
  ghost predicate SettlesBy(device: Device, T: nat) {
    forall t: nat, r: Regs | t >= T && !St(r) && !Fre(r) :: !Fr(device(t, r)) && !Cr(device(t, r))
  }

  /** port->cmd &= ~ST. */
  method ClearSt(port: Port, ghost portno: nat, ghost n: nat)
    requires WellBehaved(port.device) && portno < PORTS
    requires n <= |port.log| && StopPhaseSince(port.log, n) == Unasked
    modifies port
    ensures SafelyExtends(old(port.log), port.log, portno) && port.time == old(port.time) + 2
    ensures !St(port.regs) && SameAddresses(port.regs, old(port.regs))
    ensures StopPhaseSince(port.log, n) == StCleared
  {
    ghost var log := port.log;
    var seen := port.Read(CMD);
    MovesAreAllowed(port.device, old(port.regs), seen);
    ObserveStop(log, n, Load(CMD, seen));
    log := port.log;
    ghost var at := port.WriteCmd(seen.cmd & !ST);
    MovesAreAllowed(port.device, seen, at);
    ObserveStop(log, n, StoreCmd(seen.cmd & !ST, at, port.mem[..]));
    StClearIsSafe(at, seen, port.mem[..], portno);
  }

  lemma StClearIsSafe(at: Regs, seen: Regs, mem: seq<byte>, portno: nat)
    requires portno < PORTS && Fre(at) == Fre(seen)
    ensures Safe(StoreCmd(seen.cmd & !ST, at, mem), portno)
    ensures var r := WithCmd(at, seen.cmd & !ST); !St(r) && SameAddresses(r, at)
  {
    StWasCleared(at, seen.cmd);
  }

  /** port->cmd &= ~FRE. */
  method ClearFre(port: Port, ghost portno: nat, ghost n: nat)
    requires WellBehaved(port.device) && portno < PORTS && !St(port.regs)
    requires n <= |port.log| && StopPhaseSince(port.log, n) == StCleared
    modifies port
    ensures SafelyExtends(old(port.log), port.log, portno) && port.time == old(port.time) + 2
    ensures !St(port.regs) && !Fre(port.regs) && SameAddresses(port.regs, old(port.regs))
    ensures StopPhaseSince(port.log, n) == Waiting(0)
  {
    ghost var log := port.log;
    var seen := port.Read(CMD);
    MovesAreAllowed(port.device, old(port.regs), seen);
    ObserveStop(log, n, Load(CMD, seen));
    log := port.log;
    ghost var at := port.WriteCmd(seen.cmd & !FRE);
    MovesAreAllowed(port.device, seen, at);
    ObserveStop(log, n, StoreCmd(seen.cmd & !FRE, at, port.mem[..]));
    FreClearIsSafe(at, seen, port.mem[..], portno);
  }

  lemma FreClearIsSafe(at: Regs, seen: Regs, mem: seq<byte>, portno: nat)
    requires portno < PORTS && !St(seen)
    ensures Safe(StoreCmd(seen.cmd & !FRE, at, mem), portno)
    ensures var r := WithCmd(at, seen.cmd & !FRE); !St(r) && !Fre(r) && SameAddresses(r, at)
  {
    FreCleared(at, seen.cmd);
  }

  /** A load of CMD while the engine is being stopped. */
  method LookStopping(port: Port, ghost portno: nat, ghost n: nat) returns (seen: Regs)
    requires WellBehaved(port.device) && portno < PORTS && !St(port.regs) && !Fre(port.regs) && n <= |port.log|
    modifies port
    ensures SafelyExtends(old(port.log), port.log, portno) && port.time == old(port.time) + 1
    ensures port.regs == seen && Allowed(old(port.regs), seen) && !St(seen) && !Fre(seen)
    ensures StopPhaseSince(port.log, n) == StopNext(old(StopPhaseSince(port.log, n)), Load(CMD, seen))
    ensures forall T: nat | SettlesBy(port.device, T) :: T <= old(port.time) ==> !Fr(seen) && !Cr(seen)
  {
    ghost var log := port.log;
    seen := port.Read(CMD);
    MovesAreAllowed(port.device, old(port.regs), seen);
    ObserveStop(log, n, Load(CMD, seen));
  }

  /** One round of the waiting loop of stop_cmd: CR is looked at only when FR was seen clear. */
  method CheckStopped(port: Port, ghost portno: nat, ghost n: nat, ghost rounds: nat) returns (stopped: bool)
    requires WellBehaved(port.device) && portno < PORTS && !St(port.regs) && !Fre(port.regs)
    requires n <= |port.log| && StopPhaseSince(port.log, n) == Waiting(rounds)
    modifies port
    ensures SafelyExtends(old(port.log), port.log, portno) && port.time > old(port.time)
    ensures !St(port.regs) && !Fre(port.regs) && SameAddresses(port.regs, old(port.regs))
    ensures stopped ==> Stopped(port.regs)
    ensures StopPhaseSince(port.log, n) == if stopped then Halted else Waiting(rounds + 1)
    ensures forall T: nat | SettlesBy(port.device, T) :: T <= old(port.time) ==> stopped
  {
    var first := LookStopping(port, portno, n);
    if first.cmd & FR != 0 {
      return false;
    }
    var second := LookStopping(port, portno, n);
    return second.cmd & CR == 0;
  }

  /** stop_cmd. Its loop need not end; `patience` is how many more rounds than one it is observed for, and the
      result is whether it ended within them: if not, ST and FRE were cleared and every round saw the engine
      running; and it does end for a device that settles before the last of them. */
  method StopCmd(port: Port, ghost portno: nat, patience: nat) returns (stopped: bool)
    requires WellBehaved(port.device) && portno < PORTS
    modifies port
    ensures SafelyExtends(old(port.log), port.log, portno)
    ensures !St(port.regs) && !Fre(port.regs) && SameAddresses(port.regs, old(port.regs))
    ensures stopped ==> Stopped(port.regs)
    ensures StopPhaseSince(port.log, |old(port.log)|) == if stopped then Halted else Waiting(patience + 1)
    ensures forall T: nat | SettlesBy(port.device, T) :: T <= old(port.time) + 4 + patience ==> stopped
  {
    ghost var n, start := |port.log|, port.time;
    assert port.log[n..] == [];
    ClearSt(port, portno, n);
    ClearFre(port, portno, n);
    var left := patience;
    stopped := CheckStopped(port, portno, n, 0);
    while !stopped && left > 0
      invariant 0 <= left <= patience && n <= |port.log|
      invariant SafelyExtends(old(port.log), port.log, portno)
      invariant !St(port.regs) && !Fre(port.regs) && SameAddresses(port.regs, old(port.regs))
      invariant stopped ==> Stopped(port.regs)
      invariant StopPhaseSince(port.log, n) == if stopped then Halted else Waiting(patience - left + 1)
      invariant port.time > start + 4 + patience - left
      invariant forall T: nat | SettlesBy(port.device, T) :: T <= start + 4 + patience - left ==> stopped
      decreases left
    {
      stopped := CheckStopped(port, portno, n, patience - left + 1);
      left := left - 1;
    }
  }

  /** start_cmd, for an engine that is not enabled; `patience` as in StopCmd. An engine that is stopped
      is not waited for. */
  method StartCmd(port: Port, ghost portno: nat, patience: nat) returns (started: bool)
    requires WellBehaved(port.device) && portno < PORTS && Rebased(port.mem[..], portno)
    requires !St(port.regs) && !Fre(port.regs) && !Fr(port.regs)
    modifies port
    ensures SafelyExtends(old(port.log), port.log, portno)
    ensures SameAddresses(port.regs, old(port.regs))
    ensures started ==> St(port.regs) && Fre(port.regs)
    ensures !Cr(old(port.regs)) ==> started
  {
    var seen := port.Read(CMD);
    MovesAreAllowed(port.device, old(port.regs), seen);
    var left := patience;
    while seen.cmd & CR != 0 && left > 0
      invariant SafelyExtends(old(port.log), port.log, portno)
      invariant seen == port.regs && SameAddresses(port.regs, old(port.regs))
      invariant !St(port.regs) && !Fre(port.regs) && !Fr(port.regs)
      invariant !Cr(old(port.regs)) ==> !Cr(port.regs)
      decreases left
    {
      ghost var before := port.regs;
      seen := port.Read(CMD);
      MovesAreAllowed(port.device, before, seen);
      left := left - 1;
    }
    if seen.cmd & CR != 0 {
      return false;
    }
    SetFre(port, portno);
    SetSt(port, portno);
    return true;
  }

  /** port->cmd |= FRE. */
  method SetFre(port: Port, ghost portno: nat)
    requires WellBehaved(port.device) && portno < PORTS && Rebased(port.mem[..], portno) && Stopped(port.regs)
    modifies port
    ensures SafelyExtends(old(port.log), port.log, portno)
    ensures !St(port.regs) && !Cr(port.regs) && Fre(port.regs) && SameAddresses(port.regs, old(port.regs))
  {
    var seen := port.Read(CMD);
    MovesAreAllowed(port.device, old(port.regs), seen);
    ghost var at := port.WriteCmd(seen.cmd | FRE);
    MovesAreAllowed(port.device, seen, at);
    FreSetIsSafe(seen, at, port.mem[..], portno);
  }

  lemma FreSetIsSafe(seen: Regs, at: Regs, mem: seq<byte>, portno: nat)
    requires portno < PORTS && Stopped(seen) && Allowed(seen, at) && Rebased(mem, portno)
    ensures Safe(StoreCmd(seen.cmd | FRE, at, mem), portno)
    ensures var r := WithCmd(at, seen.cmd | FRE); !St(r) && !Cr(r) && Fre(r) && SameAddresses(r, at)
  {
    FreSet(at, seen.cmd);
  }

  /** port->cmd |= ST. */
  method SetSt(port: Port, ghost portno: nat)
    requires WellBehaved(port.device) && portno < PORTS && Rebased(port.mem[..], portno)
    requires !St(port.regs) && !Cr(port.regs) && Fre(port.regs)
    modifies port
    ensures SafelyExtends(old(port.log), port.log, portno)
    ensures St(port.regs) && Fre(port.regs) && SameAddresses(port.regs, old(port.regs))
  {
    var seen := port.Read(CMD);
    MovesAreAllowed(port.device, old(port.regs), seen);
    ghost var at := port.WriteCmd(seen.cmd | ST);
    MovesAreAllowed(port.device, seen, at);
    StSetIsSafe(seen, at, port.mem[..], portno);
  }

  lemma StSetIsSafe(seen: Regs, at: Regs, mem: seq<byte>, portno: nat)
    requires portno < PORTS && !St(seen) && !Cr(seen) && Fre(seen) && Allowed(seen, at) && Rebased(mem, portno)
    ensures Safe(StoreCmd(seen.cmd | ST, at, mem), portno)
    ensures var r := WithCmd(at, seen.cmd | ST); St(r) && Fre(r) && SameAddresses(r, at)
  {
    StSet(at, seen.cmd);
  }

  // ----- Memory -----

  /** memset of this kernel: zeros from offset `first` to offset `end` of `data`. */
  method Memset(mem: array<byte>, data: nat, first: nat, end: nat)
    requires first <= end && data + end <= mem.Length
    modifies mem
    ensures forall a | 0 <= a < mem.Length :: mem[a] == if data + first <= a < data + end then 0 else old(mem[a])
  {
    for i := first to end
      invariant forall a | 0 <= a < mem.Length :: mem[a] == if data + first <= a < data + i then 0 else old(mem[a])
    {
      mem[data + i] := 0;
    }
  }

  method Store32(mem: array<byte>, at: nat, v: u32)
    requires at + 4 <= mem.Length
    modifies mem
    ensures forall a | 0 <= a < mem.Length :: mem[a] == if at <= a < at + 4 then LeByte(v, a - at) else old(mem[a])
  {
    mem[at] := LeByte(v, 0);
    mem[at + 1] := LeByte(v, 1);
    mem[at + 2] := LeByte(v, 2);
    mem[at + 3] := LeByte(v, 3);
  }

  /** mem[at..] as a 32-bit field. */
  method Fetch32(mem: array<byte>, at: nat) returns (v: u32)
    requires at + 4 <= mem.Length
    ensures v == Load32(mem[..], at)
  {
    v := Load32(mem[..], at);
  }

  /** What the loop of port_rebase does with header i of a port, and with its table. */
  function SlotByte(port: nat, i: nat, r: Region, before: byte): byte
    requires port < PORTS && i < SLOTS
  {
    LayoutIsAligned(port, i);
    match r
    case Header(p, s, o) =>
      if p != port || s != i then before
      else if o == 2 then 8 else if o == 3 then 0
      else if 8 <= o < 12 then LeByte(TableAt(port, i), o - 8) else if 12 <= o < 16 then 0
      else before
    case Table(p, s, o) => if p == port && s == i then 0 else before
    case Fis(_, _) => before
    case Elsewhere => before
  }

  lemma HeaderRegion(port: nat, i: nat, a: nat)
    requires port < PORTS && i < SLOTS
    ensures HeaderAt(port, i) <= a < HeaderAt(port, i) + HEADER_BYTES ==>
      RegionOf(a) == Header(port, i, a - HeaderAt(port, i))
    ensures RegionOf(a).Header? && RegionOf(a).port == port && RegionOf(a).slot == i ==>
      HeaderAt(port, i) <= a < HeaderAt(port, i) + HEADER_BYTES
  {
    if HeaderAt(port, i) <= a < HeaderAt(port, i) + HEADER_BYTES {
      AddressThere(Header(port, i, a - HeaderAt(port, i)));
    }
    if RegionOf(a).Header? {
      AddressBack(a);
    }
  }

  lemma TableRegion(port: nat, i: nat, a: nat)
    requires port < PORTS && i < SLOTS
    ensures TableAt(port, i) <= a < TableAt(port, i) + TABLE_BYTES
       <==> RegionOf(a).Table? && RegionOf(a).port == port && RegionOf(a).slot == i
  {
    if TableAt(port, i) <= a < TableAt(port, i) + TABLE_BYTES {
      AddressThere(Table(port, i, a - TableAt(port, i)));
    }
    if RegionOf(a).Table? {
      AddressBack(a);
    }
  }

  lemma ListRegion(port: nat, a: nat)
    requires port < PORTS
    ensures ListAt(port) <= a < ListAt(port) + LIST_BYTES <==> RegionOf(a).Header? && RegionOf(a).port == port
  {
  }

  lemma FisRegion(port: nat, a: nat)
    requires port < PORTS
    ensures FisAt(port) <= a < FisAt(port) + FIS_BYTES <==> RegionOf(a).Fis? && RegionOf(a).port == port
  {
  }

  /** The three field stores of one header. */
  method BuildHeader(mem: array<byte>, portno: nat, i: nat)
    requires portno < PORTS && i < SLOTS && mem.Length >= AHCI_END
    modifies mem
    ensures forall a | 0 <= a < mem.Length ::
      mem[a] == if RegionOf(a).Header? then SlotByte(portno, i, RegionOf(a), old(mem[a])) else old(mem[a])
    ensures HeaderAt(portno, i) + HEADER_BYTES <= AHCI_END
    ensures Load32(mem[..], HeaderAt(portno, i) + 8) == TableAt(portno, i)
  {
    LayoutIsAligned(portno, i);
    var h := HeaderAt(portno, i);
    AddressThere(Header(portno, i, 31));
    mem[h + 2] := 8;
    mem[h + 3] := 0;
    Store32(mem, h + 8, TableAt(portno, i));
    Store32(mem, h + 12, 0);
    LeBytesRead(mem[..], h + 8, TableAt(portno, i));
    forall a | 0 <= a < mem.Length
      ensures mem[a] == if RegionOf(a).Header? then SlotByte(portno, i, RegionOf(a), old(mem[a])) else old(mem[a])
    {
      HeaderRegion(portno, i, a);
    }
  }

  /** One round of the loop: the header, and its table zeroed at the address that the header now holds. */
  method BuildSlot(mem: array<byte>, portno: nat, i: nat)
    requires portno < PORTS && i < SLOTS && mem.Length >= AHCI_END
    modifies mem
    ensures forall a | 0 <= a < mem.Length :: mem[a] == SlotByte(portno, i, RegionOf(a), old(mem[a]))
  {
    BuildHeader(mem, portno, i);
    var table := Fetch32(mem, HeaderAt(portno, i) + 8);
    LayoutIsAligned(portno, i);
    Memset(mem, table, 0, TABLE_BYTES);
    forall a | 0 <= a < mem.Length
      ensures mem[a] == SlotByte(portno, i, RegionOf(a), old(mem[a]))
    {
      TableRegion(portno, i, a);
    }
  }

  lemma StageStep(port: nat, n: nat, r: Region, before: byte)
    requires port < PORTS && n < SLOTS
    ensures SlotByte(port, n, r, StageByte(port, n, r, before)) == StageByte(port, n + 1, r, before)
  {
  }

  /** The loop over the 32 command headers. */
  method BuildSlots(mem: array<byte>, portno: nat, ghost start: seq<byte>)
    requires portno < PORTS && mem.Length >= AHCI_END && |start| == mem.Length
    requires forall a | 0 <= a < mem.Length :: mem[a] == StageByte(portno, 0, RegionOf(a), start[a])
    modifies mem
    ensures mem[..] == RebasedMem(start, portno)
  {
    for i := 0 to SLOTS
      invariant forall a | 0 <= a < mem.Length :: mem[a] == StageByte(portno, i, RegionOf(a), start[a])
    {
      ghost var before := mem[..];
      BuildSlot(mem, portno, i);
      forall a | 0 <= a < mem.Length
        ensures mem[a] == StageByte(portno, i + 1, RegionOf(a), start[a])
      {
        StageStep(portno, i, RegionOf(a), start[a]);
        assert before[a] == StageByte(portno, i, RegionOf(a), start[a]);
      }
    }
  }

  /** A register that stays put is read back as it was stored. */
  method WriteAndReadBack(port: Port, low: Register, high: Register, address: u32, ghost portno: nat)
    returns (back: u32)
    requires WellBehaved(port.device) && portno < PORTS && Stopped(port.regs)
    requires (low == CLB && high == CLBU) || (low == FB && high == FBU)
    modifies port
    ensures SafelyExtends(old(port.log), port.log, portno) && Stopped(port.regs) && back == address
    ensures SameAddresses(port.regs, WithAddress(WithAddress(old(port.regs), low, address), high, 0))
  {
    ghost var at := port.WriteAddress(low, address);
    MovesAreAllowed(port.device, old(port.regs), at);
    ghost var r := port.regs;
    at := port.WriteAddress(high, 0);
    MovesAreAllowed(port.device, r, at);
    r := port.regs;
    var seen := port.Read(low);
    MovesAreAllowed(port.device, r, seen);
    back := if low == CLB then seen.clb else seen.fb;
  }

  datatype Outcome = Started | StuckStopping

  /** The command list and the FIS area: their registers are stored and read back, and they are zeroed. */
  method MoveAreas(port: Port, portno: nat)
    requires WellBehaved(port.device) && portno < PORTS && port.mem.Length >= AHCI_END && Stopped(port.regs)
    modifies port, port.mem
    ensures SafelyExtends(old(port.log), port.log, portno) && Stopped(port.regs)
    ensures AtHome(port.regs, portno)
    ensures forall a | 0 <= a < port.mem.Length ::
      port.mem[a] == StageByte(portno, 0, RegionOf(a), old(port.mem[a]))
  {
    LayoutIsAligned(portno, 0);
    var list := WriteAndReadBack(port, CLB, CLBU, ListAt(portno), portno);
    Memset(port.mem, list, 0, LIST_BYTES);
    var fis := WriteAndReadBack(port, FB, FBU, FisAt(portno), portno);
    Memset(port.mem, fis, 0, FIS_BYTES);
    forall a | 0 <= a < port.mem.Length
      ensures port.mem[a] == StageByte(portno, 0, RegionOf(a), old(port.mem[a]))
    {
      ListRegion(portno, a);
      FisRegion(portno, a);
    }
  }

  /** The address registers point to the port's own areas. */
  predicate AtHome(r: Regs, portno: nat) {
    r.clb == ListAt(portno) && r.fb == FisAt(portno) && r.clbu == r.fbu == 0
  }

  /** port_rebase, for any of the 32 ports: either the engine was asked to stop and seen running in each of
      patience + 1 rounds, and then nothing else was touched; or it halted and is restarted on freshly built
      structures, which is so for any device that settles in time. Every access on the way is safe, and the
      memory that a start shows is the port's memory at that very store. */
  method PortRebase(port: Port, portno: nat, patience: nat) returns (outcome: Outcome)
    requires WellBehaved(port.device) && portno < PORTS && port.mem.Length >= AHCI_END
    modifies port, port.mem
    ensures SafelyExtends(old(port.log), port.log, portno)
    ensures StopPhaseSince(port.log, |old(port.log)|) == if outcome == Started then Halted else Waiting(patience + 1)
    ensures outcome == StuckStopping ==>
      && port.mem[..] == old(port.mem[..]) && SameAddresses(port.regs, old(port.regs))
      && !St(port.regs) && !Fre(port.regs)
    ensures outcome == Started ==>
      && port.mem[..] == RebasedMem(old(port.mem[..]), portno) && Rebased(port.mem[..], portno)
      && AtHome(port.regs, portno) && St(port.regs) && Fre(port.regs)
      && port.regs.clb == 0x40_0000 + 1024 * portno && port.regs.fb == 0x40_8000 + 256 * portno
    ensures forall T: nat | SettlesBy(port.device, T) :: T <= old(port.time) + 4 + patience ==> outcome == Started
  {
    ghost var n := |port.log|;
    var stopped := StopCmd(port, portno, patience);
    if !stopped {
      return StuckStopping;
    }
    ghost var halted := port.log;
    BuildAndStart(port, portno, patience);
    HaltedStays(halted, port.log, n);
    return Started;
  }

  /** The part of port_rebase after stop_cmd. */
  method BuildAndStart(port: Port, portno: nat, patience: nat)
    requires WellBehaved(port.device) && portno < PORTS && port.mem.Length >= AHCI_END && Stopped(port.regs)
    modifies port, port.mem
    ensures SafelyExtends(old(port.log), port.log, portno)
    ensures port.mem[..] == RebasedMem(old(port.mem[..]), portno) && Rebased(port.mem[..], portno)
    ensures AtHome(port.regs, portno) && St(port.regs) && Fre(port.regs)
  {
    ghost var start := port.mem[..];
    MoveAreas(port, portno);
    BuildSlots(port.mem, portno, start);
    RebaseIsLocal(start, portno);
    var started := StartCmd(port, portno, patience);
  }
}
