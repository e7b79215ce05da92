/** Where port_rebase of kernel/kernel.c puts the AHCI structures of the 32 ports, and what it writes there
    (AHCI 1.3.1, sections 4.2.2 and 4.2.3). Memory is a sequence of bytes indexed by physical address. */
module AhciLayout {
  import opened MachineTypes

  const AHCI_BASE := 0x40_0000
  const PORTS := 32
  const SLOTS := 32
  const LIST_BYTES := 1024
  const HEADER_BYTES := 32
  const FIS_BYTES := 256
  const TABLE_BYTES := 256
  const FIS_BASE := AHCI_BASE + 0x8000
  const TABLES_BASE := AHCI_BASE + 0xA000
  const AHCI_END := TABLES_BASE + PORTS * SLOTS * TABLE_BYTES

  function ListAt(port: nat): nat { AHCI_BASE + LIST_BYTES * port }

  function HeaderAt(port: nat, slot: nat): nat { ListAt(port) + HEADER_BYTES * slot }

  function FisAt(port: nat): nat { FIS_BASE + FIS_BYTES * port }

  function TableAt(port: nat, slot: nat): nat { TABLES_BASE + SLOTS * TABLE_BYTES * port + TABLE_BYTES * slot }

  /** What a byte of memory belongs to: a command header, a received-FIS area, a command table, or none. */
  datatype Region =
    | Header(port: nat, slot: nat, off: nat)
    | Fis(port: nat, off: nat)
    | Table(port: nat, slot: nat, off: nat)
    | Elsewhere

  function RegionOf(a: int): Region {
    if AHCI_BASE <= a < FIS_BASE then
      var o := a - AHCI_BASE; Header(o / LIST_BYTES, o % LIST_BYTES / HEADER_BYTES, o % HEADER_BYTES)
    else if FIS_BASE <= a < TABLES_BASE then
      var o := a - FIS_BASE; Fis(o / FIS_BYTES, o % FIS_BYTES)
    else if TABLES_BASE <= a < AHCI_END then
      var o := a - TABLES_BASE; Table(o / 8192, o % 8192 / TABLE_BYTES, o % TABLE_BYTES)
    else Elsewhere
  }

  /** A byte of a structure that exists. */
  predicate Proper(r: Region) {
    match r
    case Header(p, s, o) => p < PORTS && s < SLOTS && o < HEADER_BYTES
    case Fis(p, o) => p < PORTS && o < FIS_BYTES
    case Table(p, s, o) => p < PORTS && s < SLOTS && o < TABLE_BYTES
    case Elsewhere => false
  }

  function AddressOf(r: Region): nat
    requires Proper(r)
  {
    match r
    case Header(p, s, o) => HeaderAt(p, s) + o
    case Fis(p, o) => FisAt(p) + o
    case Table(p, s, o) => TableAt(p, s) + o
  }

  lemma By32(p: nat, r: nat)
    requires r < 32
    ensures (32 * p + r) / 32 == p && (32 * p + r) % 32 == r
  {
  }

  lemma By256(p: nat, r: nat)
    requires r < 256
    ensures (256 * p + r) / 256 == p && (256 * p + r) % 256 == r
  {
  }

  lemma By1024(p: nat, r: nat)
    requires r < 1024
    ensures (1024 * p + r) / 1024 == p && (1024 * p + r) % 1024 == r
  {
  }

  lemma By8192(p: nat, r: nat)
    requires r < 8192
    ensures (8192 * p + r) / 8192 == p && (8192 * p + r) % 8192 == r
  {
  }

  lemma JoinList(p: nat, s: nat, o: nat)
    requires s < 32 && o < 32
    ensures var x := 1024 * p + 32 * s + o; x / 1024 == p && x % 1024 / 32 == s && x % 32 == o
  {
    var x := 1024 * p + 32 * s + o;
    By1024(p, 32 * s + o);
    By32(s, o);
    By32(32 * p + s, o);
    assert x == 1024 * p + (32 * s + o) == 32 * (32 * p + s) + o;
  }

  lemma JoinTables(p: nat, s: nat, o: nat)
    requires s < 32 && o < 256
    ensures var x := 8192 * p + 256 * s + o; x / 8192 == p && x % 8192 / 256 == s && x % 256 == o
  {
    var x := 8192 * p + 256 * s + o;
    By8192(p, 256 * s + o);
    By256(s, o);
    By256(32 * p + s, o);
    assert x == 8192 * p + (256 * s + o) == 256 * (32 * p + s) + o;
  }

  lemma SplitList(o: nat)
    ensures 1024 * (o / 1024) + 32 * (o % 1024 / 32) + o % 32 == o && o % 1024 / 32 < 32
  {
    var q, r := o / 1024, o % 1024;
    assert o == 1024 * q + r == 32 * (32 * q + r / 32) + r % 32;
    By32(32 * q + r / 32, r % 32);
  }

  lemma SplitTables(o: nat)
    ensures 8192 * (o / 8192) + 256 * (o % 8192 / 256) + o % 256 == o && o % 8192 / 256 < 32
  {
    var q, r := o / 8192, o % 8192;
    assert o == 8192 * q + r == 256 * (32 * q + r / 256) + r % 256;
    By256(32 * q + r / 256, r % 256);
  }

  lemma AddressThere(r: Region)
    requires Proper(r)
    ensures AHCI_BASE <= AddressOf(r) < AHCI_END && RegionOf(AddressOf(r)) == r
  {
    match r
    case Header(p, s, o) => JoinList(p, s, o);
    case Fis(p, o) =>
    case Table(p, s, o) => JoinTables(p, s, o);
  }

  lemma AddressBack(a: int)
    requires AHCI_BASE <= a < AHCI_END
    ensures Proper(RegionOf(a)) && AddressOf(RegionOf(a)) == a
  {
    if a < FIS_BASE {
      SplitList(a - AHCI_BASE);
    } else if a >= TABLES_BASE {
      SplitTables(a - TABLES_BASE);
    }
  }

  /** The structures of all ports tile the area: every byte of every structure has its own address, and
      every address of the area is a byte of one structure. So no two structures overlap. */
  lemma LayoutTiles(r: Region, a: int)
    ensures Proper(r) ==> AHCI_BASE <= AddressOf(r) < AHCI_END && RegionOf(AddressOf(r)) == r
    ensures AHCI_BASE <= a < AHCI_END ==> Proper(RegionOf(a)) && AddressOf(RegionOf(a)) == a
  {
    if Proper(r) {
      AddressThere(r);
    }
    if AHCI_BASE <= a < AHCI_END {
      AddressBack(a);
    }
  }

  /** The alignments that the controller asks for. */
  lemma LayoutIsAligned(port: nat, slot: nat)
    requires port < PORTS && slot < SLOTS
    ensures ListAt(port) % 1024 == 0 && FisAt(port) % 256 == 0 && TableAt(port, slot) % 128 == 0
    ensures TableAt(port, slot) + TABLE_BYTES <= AHCI_END < 0x1_0000_0000
  {
  }

  // ----- Little-endian fields -----

  function LeByte(v: u32, k: nat): byte {
    if k == 0 then v % 0x100 else if k == 1 then v / 0x100 % 0x100
    else if k == 2 then v / 0x1_0000 % 0x100 else v / 0x100_0000
  }

  function Load32(mem: seq<byte>, a: nat): u32
    requires a + 4 <= |mem|
  {
    mem[a] as int + 0x100 * mem[a + 1] as int + 0x1_0000 * mem[a + 2] as int + 0x100_0000 * mem[a + 3] as int
  }

  lemma LeSum(v: u32)
    ensures v == LeByte(v, 0) as int + 0x100 * LeByte(v, 1) as int + 0x1_0000 * LeByte(v, 2) as int
      + 0x100_0000 * LeByte(v, 3) as int
  {
    assert v == v % 0x100 + 0x100 * (v / 0x100);
    assert v / 0x100 == v / 0x100 % 0x100 + 0x100 * (v / 0x1_0000);
    assert v / 0x1_0000 == v / 0x1_0000 % 0x100 + 0x100 * (v / 0x100_0000);
  }

  lemma LeBytesRead(mem: seq<byte>, a: nat, v: u32)
    requires a + 4 <= |mem|
    requires mem[a] == LeByte(v, 0) && mem[a + 1] == LeByte(v, 1)
    requires mem[a + 2] == LeByte(v, 2) && mem[a + 3] == LeByte(v, 3)
    ensures Load32(mem, a) == v
  {
    LeSum(v);
  }

  // ----- What port_rebase leaves -----

  /** A command header as port_rebase leaves it: 8 table entries, the address of its own table, all else 0. */
  function HeaderByte(port: nat, slot: nat, off: nat): byte
    requires port < PORTS && slot < SLOTS
  {
    LayoutIsAligned(port, slot);
    if off == 2 then 8 else if 8 <= off < 12 then LeByte(TableAt(port, slot), off - 8) else 0
  }

  /** The byte of a region after port `port` was rebased with its first n command headers done. */
  function StageByte(port: nat, n: nat, r: Region, before: byte): byte
    requires port < PORTS
  {
    match r
    case Header(p, s, o) => if p != port then before else if s < n && s < SLOTS then HeaderByte(port, s, o) else 0
    case Fis(p, o) => if p != port then before else 0
    case Table(p, s, o) => if p == port && s < n then 0 else before
    case Elsewhere => before
  }

  function RebasedMem(mem: seq<byte>, port: nat): (after: seq<byte>)
    requires port < PORTS
    ensures |after| == |mem|
    ensures forall a | 0 <= a < |mem| :: after[a] == StageByte(port, SLOTS, RegionOf(a), mem[a])
  {
    seq(|mem|, a requires 0 <= a < |mem| => StageByte(port, SLOTS, RegionOf(a), mem[a]))
  }

  function PortOf(r: Region): int {
    match r
    case Header(p, s, o) => p
    case Fis(p, o) => p
    case Table(p, s, o) => p
    case Elsewhere => -1
  }

  /** Port `port` has all its structures in the state that port_rebase promises. */
  ghost predicate Rebased(mem: seq<byte>, port: nat)
    requires port < PORTS
  {
    && |mem| >= AHCI_END
    && forall a | AHCI_BASE <= a < AHCI_END && PortOf(RegionOf(a)) == port ::
      mem[a] == StageByte(port, SLOTS, RegionOf(a), 0)
  }

  function Load16(mem: seq<byte>, a: nat): int
    requires a + 2 <= |mem|
  {
    mem[a] as int + 0x100 * mem[a + 1] as int
  }

  lemma RebasedByte(mem: seq<byte>, port: nat, r: Region)
    requires port < PORTS && Rebased(mem, port) && Proper(r) && PortOf(r) == port
    ensures AHCI_BASE <= AddressOf(r) < AHCI_END && mem[AddressOf(r)] == StageByte(port, SLOTS, r, 0)
  {
    AddressThere(r);
  }

  /** What that means: every command header asks for up to 8 table entries and holds the address of its
      own table, with a zero upper half and no flags, and that table is empty. */
  lemma RebasedMeans(mem: seq<byte>, port: nat, slot: nat, k: nat)
    requires port < PORTS && slot < SLOTS && Rebased(mem, port)
    ensures var h := HeaderAt(port, slot);
      && h + HEADER_BYTES <= AHCI_END <= |mem|
      && Load16(mem, h) == 0 && Load16(mem, h + 2) == 8
      && Load32(mem, h + 8) == TableAt(port, slot) && Load32(mem, h + 12) == 0
    ensures k < TABLE_BYTES ==> TableAt(port, slot) + k < |mem| && mem[TableAt(port, slot) + k] == 0
    ensures k < FIS_BYTES ==> FisAt(port) + k < |mem| && mem[FisAt(port) + k] == 0
  {
    LayoutIsAligned(port, slot);
    RebasedHeader(mem, port, slot);
    RebasedTableAddress(mem, port, slot);
    RebasedTableUpper(mem, port, slot);
    RebasedZeros(mem, port, slot, k);
  }

  lemma RebasedZeros(mem: seq<byte>, port: nat, slot: nat, k: nat)
    requires port < PORTS && slot < SLOTS && Rebased(mem, port)
    ensures k < TABLE_BYTES ==> TableAt(port, slot) + k < |mem| && mem[TableAt(port, slot) + k] == 0
    ensures k < FIS_BYTES ==> FisAt(port) + k < |mem| && mem[FisAt(port) + k] == 0
  {
    if k < TABLE_BYTES {
      RebasedByte(mem, port, Table(port, slot, k));
    }
    if k < FIS_BYTES {
      RebasedByte(mem, port, Fis(port, k));
    }
  }

  lemma HeaderByteAt(mem: seq<byte>, port: nat, slot: nat, o: nat)
    requires port < PORTS && slot < SLOTS && o < HEADER_BYTES && Rebased(mem, port)
    ensures HeaderAt(port, slot) + o < AHCI_END && mem[HeaderAt(port, slot) + o] == HeaderByte(port, slot, o)
  {
    RebasedByte(mem, port, Header(port, slot, o));
  }

  lemma RebasedTableAddress(mem: seq<byte>, port: nat, slot: nat)
    requires port < PORTS && slot < SLOTS && Rebased(mem, port)
    ensures HeaderAt(port, slot) + HEADER_BYTES <= AHCI_END
    ensures Load32(mem, HeaderAt(port, slot) + 8) == TableAt(port, slot)
  {
    LayoutIsAligned(port, slot);
    HeaderByteAt(mem, port, slot, 8);
    HeaderByteAt(mem, port, slot, 9);
    HeaderByteAt(mem, port, slot, 10);
    HeaderByteAt(mem, port, slot, 11);
    LeBytesRead(mem, HeaderAt(port, slot) + 8, TableAt(port, slot));
  }

  lemma ZeroHeaderByte(mem: seq<byte>, port: nat, slot: nat, o: nat)
    requires port < PORTS && slot < SLOTS && Rebased(mem, port)
    requires o < HEADER_BYTES && o != 2 && !(8 <= o < 12)
    ensures HeaderAt(port, slot) + o < AHCI_END && mem[HeaderAt(port, slot) + o] == 0
  {
    HeaderByteAt(mem, port, slot, o);
  }

  lemma HeaderStarts(mem: seq<byte>, port: nat, slot: nat)
    requires port < PORTS && slot < SLOTS && Rebased(mem, port)
    ensures var h := HeaderAt(port, slot);
      && h + HEADER_BYTES <= AHCI_END <= |mem|
      && mem[h] == 0 && mem[h + 1] == 0 && mem[h + 2] == 8 && mem[h + 3] == 0
  {
    LayoutIsAligned(port, slot);
    ZeroHeaderByte(mem, port, slot, 0);
    ZeroHeaderByte(mem, port, slot, 1);
    HeaderByteAt(mem, port, slot, 2);
    ZeroHeaderByte(mem, port, slot, 3);
  }

  lemma RebasedHeader(mem: seq<byte>, port: nat, slot: nat)
    requires port < PORTS && slot < SLOTS && Rebased(mem, port)
    ensures var h := HeaderAt(port, slot);
      && h + HEADER_BYTES <= AHCI_END <= |mem|
      && Load16(mem, h) == 0 && Load16(mem, h + 2) == 8
  {
    HeaderStarts(mem, port, slot);
  }

  lemma RebasedTableUpper(mem: seq<byte>, port: nat, slot: nat)
    requires port < PORTS && slot < SLOTS && Rebased(mem, port)
    ensures HeaderAt(port, slot) + HEADER_BYTES <= AHCI_END && Load32(mem, HeaderAt(port, slot) + 12) == 0
  {
    LayoutIsAligned(port, slot);
    ZeroHeaderByte(mem, port, slot, 12);
    ZeroHeaderByte(mem, port, slot, 13);
    ZeroHeaderByte(mem, port, slot, 14);
    ZeroHeaderByte(mem, port, slot, 15);
  }

  /** Rebasing a port sets up its own structures whatever was in memory, and changes no other byte. */
  lemma RebaseIsLocal(mem: seq<byte>, port: nat)
    requires port < PORTS && |mem| >= AHCI_END
    ensures Rebased(RebasedMem(mem, port), port)
    ensures forall a | 0 <= a < |mem| && PortOf(RegionOf(a)) != port :: RebasedMem(mem, port)[a] == mem[a]
  {
    forall a | AHCI_BASE <= a < AHCI_END && PortOf(RegionOf(a)) == port
      ensures RebasedMem(mem, port)[a] == StageByte(port, SLOTS, RegionOf(a), 0)
    {
      AddressBack(a);
    }
  }

  lemma OtherPortKept(mem: seq<byte>, port: nat, other: nat)
    requires port < PORTS && other < PORTS && port != other && Rebased(mem, other)
    ensures Rebased(RebasedMem(mem, port), other)
  {
    RebaseIsLocal(mem, port);
  }

  function RebaseAll(mem: seq<byte>, ports: seq<nat>): (after: seq<byte>)
    requires forall i | 0 <= i < |ports| :: ports[i] < PORTS
    ensures |after| == |mem|
  {
    if ports == [] then mem else RebasedMem(RebaseAll(mem, ports[..|ports| - 1]), ports[|ports| - 1])
  }

  /** Ports rebased one after the other, in any order and any number of times, all have their structures in
      the end; and memory that belongs to none of them is as it was. */
  lemma {:induction false} AllPortsRebased(mem: seq<byte>, ports: seq<nat>)
    requires |mem| >= AHCI_END && forall i | 0 <= i < |ports| :: ports[i] < PORTS
    ensures forall i | 0 <= i < |ports| :: Rebased(RebaseAll(mem, ports), ports[i])
    ensures forall a | 0 <= a < |mem| && PortOf(RegionOf(a)) !in ports :: RebaseAll(mem, ports)[a] == mem[a]
  {
    if ports != [] {
      var n := |ports| - 1;
      var prev, p := ports[..n], ports[n];
      var before := RebaseAll(mem, prev);
      AllPortsRebased(mem, prev);
      RebaseIsLocal(before, p);
      forall i | 0 <= i < |ports|
        ensures Rebased(RebaseAll(mem, ports), ports[i])
      {
        if ports[i] != p {
          assert ports[i] == prev[i];
          OtherPortKept(before, p, ports[i]);
        }
      }
      forall a | 0 <= a < |mem| && PortOf(RegionOf(a)) !in ports
        ensures RebaseAll(mem, ports)[a] == mem[a]
      {
        assert p in ports;
        assert PortOf(RegionOf(a)) !in prev;
      }
    }
  }

  // ----- In numbers -----

  /** Where the structures are. */
  lemma LayoutInNumbers(port: nat, slot: nat)
    ensures ListAt(port) == 0x40_0000 + 1024 * port && HeaderAt(port, slot) == 0x40_0000 + 1024 * port + 32 * slot
    ensures FisAt(port) == 0x40_8000 + 256 * port
    ensures TableAt(port, slot) == 0x40_A000 + 8192 * port + 256 * slot
    ensures PORTS == SLOTS == 32 && AHCI_END == 0x44_A000
  {
  }

  /** The lowest byte comes first. */
  lemma FieldsInNumbers(mem: seq<byte>, a: nat)
    requires a + 4 <= |mem|
    ensures Load32(mem, a) ==
      mem[a] as int + 256 * mem[a + 1] as int + 65536 * mem[a + 2] as int + 16777216 * mem[a + 3] as int
    ensures Load16(mem, a) == mem[a] as int + 256 * mem[a + 1] as int
  {
  }
}
