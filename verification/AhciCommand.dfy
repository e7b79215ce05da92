/** The DMA read command that read_bytes of kernel/pci.c writes into a port's structures, and what a
    controller reads out of them (AHCI 1.3.1, sections 4.2.2 and 4.2.3; structures in
    kernel/headers/pci.h). */
module AhciCommand {
  import opened MachineTypes
  import opened AhciLayout
  import opened AhciRebase

  /** The arguments of read_bytes; the buffer is only an address. */
  datatype Request = Request(startl: u32, starth: u32, count: u32, buffer: u32)

  /** Bytes of a command table with one region descriptor. */
  const COMMAND_BYTES := 144
  const PRDT := 0x80
  const FIS_TYPE_REG_H2D: byte := 0x27
  const READ_DMA_EX: byte := 0x25
  const LBA_MODE: byte := 0x40

  /** A command header as the controller reads it. */
  datatype HeaderFields = HeaderFields(
    fisWords: nat, atapi: bool, write: bool, prefetchable: bool, reset: bool, bist: bool, clearBusy: bool,
    multiplier: nat, entries: nat, table: nat, tableUpper: nat)

  function DecodeHeader(mem: seq<byte>, h: nat): HeaderFields
    requires h + HEADER_BYTES <= |mem|
  {
    var b, c := mem[h], mem[h + 1];
    HeaderFields(b % 32, b / 32 % 2 == 1, b / 64 % 2 == 1, b / 128 == 1, c % 2 == 1, c / 2 % 2 == 1, c / 4 % 2 == 1,
      c / 16, Load16(mem, h + 2), Load32(mem, h + 8), Load32(mem, h + 12))
  }

  /** None of the fields that the driver never writes asks for anything else than a plain transfer. */
  predicate Plain(f: HeaderFields) {
    !f.atapi && !f.prefetchable && !f.reset && !f.bist && !f.clearBusy && f.multiplier == 0 && f.tableUpper == 0
  }

  /** Every command header of the port is plain and holds the address of its own table. */
  ghost predicate Configured(mem: seq<byte>, port: nat)
    requires port < PORTS
  {
    |mem| >= AHCI_END && forall s | 0 <= s < SLOTS :: Linked(mem, port, s) && PlainAt(mem, port, s)
  }

  predicate Linked(mem: seq<byte>, port: nat, slot: nat)
    requires port < PORTS && slot < SLOTS && |mem| >= AHCI_END
  {
    HeaderInArea(port, slot);
    DecodeHeader(mem, HeaderAt(port, slot)).table == TableAt(port, slot)
  }

  predicate PlainAt(mem: seq<byte>, port: nat, slot: nat)
    requires port < PORTS && slot < SLOTS && |mem| >= AHCI_END
  {
    HeaderInArea(port, slot);
    Plain(DecodeHeader(mem, HeaderAt(port, slot)))
  }

  lemma HeaderInArea(port: nat, slot: nat)
    requires port < PORTS && slot < SLOTS
    ensures HeaderAt(port, slot) + HEADER_BYTES <= FIS_BASE <= TABLES_BASE <= TableAt(port, slot)
    ensures TableAt(port, slot) + TABLE_BYTES <= AHCI_END
  {
  }

  /** port_rebase configures its port. */
  lemma RebasedIsConfigured(mem: seq<byte>, port: nat)
    requires port < PORTS && Rebased(mem, port)
    ensures Configured(mem, port)
  {
    forall s | 0 <= s < SLOTS
      ensures Linked(mem, port, s) && PlainAt(mem, port, s)
    {
      RebasedTableAddress(mem, port, s);
      RebasedTableUpper(mem, port, s);
      RebasedIsPlain(mem, port, s);
    }
  }

  lemma RebasedIsPlain(mem: seq<byte>, port: nat, slot: nat)
    requires port < PORTS && slot < SLOTS && Rebased(mem, port)
    requires HeaderAt(port, slot) + HEADER_BYTES <= AHCI_END && Load32(mem, HeaderAt(port, slot) + 12) == 0
    ensures Plain(DecodeHeader(mem, HeaderAt(port, slot)))
  {
    HeaderStarts(mem, port, slot);
    ZerosArePlain(mem, HeaderAt(port, slot));
  }

  lemma ZerosArePlain(mem: seq<byte>, h: nat)
    requires h + HEADER_BYTES <= |mem| && mem[h] == mem[h + 1] == 0 && Load32(mem, h + 12) == 0
    ensures Plain(DecodeHeader(mem, h))
  {
  }

  /** The region descriptor's 22-bit byte count, one less than the count, as 32-bit arithmetic gives it. */
  function ByteCountField(count: u32): u32 { (count * 512 - 1) % 0x1_0000_0000 % 0x40_0000 }

  /** The command table of a request, byte by byte. */
  function CommandByte(q: Request, off: nat): byte {
    if off == 0 then FIS_TYPE_REG_H2D
    else if off == 1 then 0x80
    else if off == 2 then READ_DMA_EX
    else if 4 <= off < 7 then LeByte(q.startl, off - 4)
    else if off == 7 then LBA_MODE
    else if off == 8 then LeByte(q.startl, 3)
    else if off == 9 then LeByte(q.starth, 0)
    else if off == 10 then LeByte(q.starth, 1)
    else if off == 12 then LeByte(q.count, 0)
    else if off == 13 then LeByte(q.count, 1)
    else if PRDT <= off < PRDT + 4 then LeByte(q.buffer, off - PRDT)
    else if PRDT + 12 <= off < PRDT + 16 then LeByte(ByteCountField(q.count), off - (PRDT + 12))
    else 0
  }

  /** The first byte of a header with a FIS of 5 double words that is not a write. */
  function ReadFlags(before: byte): byte {
    var b := before / 32 * 32 + 5;
    b - b / 64 % 2 * 64
  }

  /** What the command changes: three bytes of the slot's header and 144 bytes of its own table. */
  function IssuedByte(port: nat, slot: nat, q: Request, r: Region, before: byte): byte {
    match r
    case Header(p, s, o) =>
      if p != port || s != slot then before
      else if o == 0 then ReadFlags(before) else if o == 2 then 1 else if o == 3 then 0 else before
    case Table(p, s, o) =>
      if p == port && s == slot && o < COMMAND_BYTES then CommandByte(q, o) else before
    case Fis(_, _) => before
    case Elsewhere => before
  }

  function HeaderField(off: int, before: byte): byte {
    if off == 0 then ReadFlags(before) else if off == 2 then 1 else if off == 3 then 0 else before
  }

  /** The header fields of a slot. */
  method WriteHeader(mem: array<byte>, port: nat, slot: nat)
    requires port < PORTS && slot < SLOTS && mem.Length >= AHCI_END
    modifies mem
    ensures forall a | 0 <= a < mem.Length :: mem[a] == HeaderField(a - HeaderAt(port, slot), old(mem[a]))
  {
    HeaderInArea(port, slot);
    var h := HeaderAt(port, slot);
    mem[h] := mem[h] / 32 * 32 + 5;
    mem[h] := mem[h] - mem[h] / 64 % 2 * 64;
    mem[h + 2] := 1;
    mem[h + 3] := 0;
  }

  /** The byte of the table after the bytes from `first` up to `end` of the command were written. */
  function TableField(q: Request, off: int, first: nat, end: nat, before: byte): byte {
    if first <= off < end then CommandByte(q, off) else before
  }

  /** The region descriptor in a table that was just zeroed: address, byte count, no interrupt. */
  method WriteDescriptor(mem: array<byte>, table: nat, q: Request)
    requires table + COMMAND_BYTES <= mem.Length
    requires forall a | table <= a < table + COMMAND_BYTES :: mem[a] == 0
    modifies mem
    ensures forall a | 0 <= a < mem.Length ::
      mem[a] == TableField(q, a - table, PRDT, COMMAND_BYTES, old(mem[a]))
  {
    Store32(mem, table + PRDT, q.buffer);
    Store32(mem, table + PRDT + 12, ByteCountField(q.count));
  }

  /** The command FIS in a zeroed table, in two parts: type, command and the lower address bytes ... */
  method WriteFisStart(mem: array<byte>, table: nat, q: Request)
    requires table + COMMAND_BYTES <= mem.Length
    requires forall a | table <= a < table + 8 :: mem[a] == 0
    modifies mem
    ensures forall a | 0 <= a < mem.Length :: mem[a] == TableField(q, a - table, 0, 8, old(mem[a]))
  {
    mem[table] := FIS_TYPE_REG_H2D;
    mem[table + 1] := 0x80;
    mem[table + 2] := READ_DMA_EX;
    mem[table + 4] := q.startl % 0x100;
    mem[table + 5] := q.startl / 0x100 % 0x100;
    mem[table + 6] := q.startl / 0x1_0000 % 0x100;
    mem[table + 7] := LBA_MODE;
  }

  /** ... and the upper address bytes and the sector count. */
  method WriteFisRest(mem: array<byte>, table: nat, q: Request)
    requires table + COMMAND_BYTES <= mem.Length
    requires forall a | table + 8 <= a < table + PRDT :: mem[a] == 0
    modifies mem
    ensures forall a | 0 <= a < mem.Length :: mem[a] == TableField(q, a - table, 8, PRDT, old(mem[a]))
  {
    mem[table + 8] := q.startl / 0x100_0000 % 0x100;
    mem[table + 9] := q.starth % 0x100;
    mem[table + 10] := q.starth / 0x100 % 0x100;
    mem[table + 12] := q.count % 0x100;
    mem[table + 13] := q.count / 0x100 % 0x100;
  }

  /** The command table: zeroed, then descriptor and FIS. */
  method WriteTable(mem: array<byte>, table: nat, q: Request)
    requires table + COMMAND_BYTES <= mem.Length
    modifies mem
    ensures forall a | 0 <= a < mem.Length ::
      mem[a] == TableField(q, a - table, 0, COMMAND_BYTES, old(mem[a]))
  {
    Memset(mem, table, 0, COMMAND_BYTES);
    WriteDescriptor(mem, table, q);
    WriteFisStart(mem, table, q);
    WriteFisRest(mem, table, q);
  }

  /** The header, and the table at the address that the header holds. */
  method WriteFields(mem: array<byte>, port: nat, slot: nat, q: Request)
    requires port < PORTS && slot < SLOTS && mem.Length >= AHCI_END && Linked(mem[..], port, slot)
    modifies mem
    ensures forall a | 0 <= a < mem.Length ::
      mem[a] == TableField(q, a - TableAt(port, slot), 0, COMMAND_BYTES,
        HeaderField(a - HeaderAt(port, slot), old(mem[a])))
  {
    HeaderInArea(port, slot);
    WriteHeader(mem, port, slot);
    SameWord(old(mem[..]), mem[..], HeaderAt(port, slot) + 8);
    var table := Fetch32(mem, HeaderAt(port, slot) + 8);
    WriteTable(mem, table, q);
  }

  /** All memory writes of read_bytes. */
  method WriteCommand(mem: array<byte>, port: nat, slot: nat, q: Request)
    requires port < PORTS && slot < SLOTS && Configured(mem[..], port)
    modifies mem
    ensures forall a | 0 <= a < mem.Length :: mem[a] == IssuedByte(port, slot, q, RegionOf(a), old(mem[a]))
    ensures Configured(mem[..], port)
    ensures ReadInBytes(mem[..], 0x40_0000 + 1024 * port + 32 * slot, 0x40_A000 + 8192 * port + 256 * slot, q)
  {
    ghost var before := mem[..];
    WriteFields(mem, port, slot, q);
    FieldsByRegions(before, mem[..], port, slot, q);
    StillConfigured(before, mem[..], port, slot, q);
    IssuedInBytes(before, mem[..], port, slot, q);
  }

  lemma IssuedInBytes(before: seq<byte>, after: seq<byte>, port: nat, slot: nat, q: Request)
    requires port < PORTS && slot < SLOTS && |before| == |after| && Configured(before, port)
    requires forall a | 0 <= a < |after| :: after[a] == IssuedByte(port, slot, q, RegionOf(a), before[a])
    ensures ReadInBytes(after, 0x40_0000 + 1024 * port + 32 * slot, 0x40_A000 + 8192 * port + 256 * slot, q)
  {
    IssuedAtItsPlace(before, after, port, slot, q);
    LayoutInNumbers(port, slot);
  }

  lemma IssuedAtItsPlace(before: seq<byte>, after: seq<byte>, port: nat, slot: nat, q: Request)
    requires port < PORTS && slot < SLOTS && |before| == |after| && Configured(before, port)
    requires forall a | 0 <= a < |after| :: after[a] == IssuedByte(port, slot, q, RegionOf(a), before[a])
    ensures ReadInBytes(after, HeaderAt(port, slot), TableAt(port, slot), q)
  {
    assert Linked(before, port, slot) && PlainAt(before, port, slot);
    IssuedDecodes(before, after, port, slot, q);
    MeantInBytes(after, HeaderAt(port, slot), TableAt(port, slot), q);
  }

  lemma FieldsByRegions(before: seq<byte>, after: seq<byte>, port: nat, slot: nat, q: Request)
    requires port < PORTS && slot < SLOTS && |before| == |after|
    requires forall a | 0 <= a < |after| ::
      after[a] == TableField(q, a - TableAt(port, slot), 0, COMMAND_BYTES,
        HeaderField(a - HeaderAt(port, slot), before[a]))
    ensures forall a | 0 <= a < |after| :: after[a] == IssuedByte(port, slot, q, RegionOf(a), before[a])
  {
    forall a | 0 <= a < |after|
      ensures after[a] == IssuedByte(port, slot, q, RegionOf(a), before[a])
    {
      FieldsByRegion(port, slot, q, a, before[a]);
    }
  }

  /** The fields that are written, addressed by offset or by region. */
  lemma FieldsByRegion(port: nat, slot: nat, q: Request, a: nat, before: byte)
    requires port < PORTS && slot < SLOTS
    ensures TableField(q, a - TableAt(port, slot), 0, COMMAND_BYTES, HeaderField(a - HeaderAt(port, slot), before))
         == IssuedByte(port, slot, q, RegionOf(a), before)
  {
    HeaderInArea(port, slot);
    HeaderRegion(port, slot, a);
    TableRegion(port, slot, a);
    TableOffset(port, slot, a);
  }

  lemma TableOffset(port: nat, slot: nat, a: nat)
    requires port < PORTS && slot < SLOTS
    ensures TableAt(port, slot) <= a < TableAt(port, slot) + TABLE_BYTES ==>
      RegionOf(a) == Table(port, slot, a - TableAt(port, slot))
  {
    if TableAt(port, slot) <= a < TableAt(port, slot) + TABLE_BYTES {
      AddressThere(Table(port, slot, a - TableAt(port, slot)));
    }
  }

  /** The bytes of a header that no command writes stay, in every slot. */
  lemma HeaderByteKept(before: seq<byte>, after: seq<byte>, port: nat, slot: nat, q: Request, s: nat, o: nat)
    requires port < PORTS && s < SLOTS && o < HEADER_BYTES && |after| == |before| && |before| >= AHCI_END
    requires forall a | 0 <= a < |after| :: after[a] == IssuedByte(port, slot, q, RegionOf(a), before[a])
    requires s == slot ==> o != 0 && o != 2 && o != 3
    ensures HeaderAt(port, s) + o < |after| && after[HeaderAt(port, s) + o] == before[HeaderAt(port, s) + o]
  {
    HeaderInArea(port, s);
    AddressThere(Header(port, s, o));
  }

  lemma SameWord(before: seq<byte>, after: seq<byte>, a: nat)
    requires a + 4 <= |before| == |after|
    requires after[a] == before[a] && after[a + 1] == before[a + 1]
    requires after[a + 2] == before[a + 2] && after[a + 3] == before[a + 3]
    ensures Load32(after, a) == Load32(before, a)
  {
  }

  /** The header at h stays but, if it is the command's own, for bytes 0, 2 and 3. */
  predicate HeaderKept(before: seq<byte>, after: seq<byte>, h: nat, own: bool) {
    && h + HEADER_BYTES <= |before| == |after|
    && forall a | h <= a < h + HEADER_BYTES && !(own && (a == h || a == h + 2 || a == h + 3)) :: after[a] == before[a]
  }

  lemma HeadersKept(before: seq<byte>, after: seq<byte>, port: nat, slot: nat, q: Request, s: nat)
    requires port < PORTS && s < SLOTS && |after| == |before| && |before| >= AHCI_END
    requires forall a | 0 <= a < |after| :: after[a] == IssuedByte(port, slot, q, RegionOf(a), before[a])
    ensures HeaderKept(before, after, HeaderAt(port, s), s == slot)
  {
    var h := HeaderAt(port, s);
    HeaderInArea(port, s);
    forall a | h <= a < h + HEADER_BYTES && !(s == slot && (a == h || a == h + 2 || a == h + 3))
      ensures after[a] == before[a]
    {
      HeaderByteKept(before, after, port, slot, q, s, a - h);
    }
  }

  lemma TableFieldsKept(before: seq<byte>, after: seq<byte>, h: nat, own: bool)
    requires HeaderKept(before, after, h, own)
    ensures SameTable(before, after, h)
  {
    SameWord(before, after, h + 8);
    SameWord(before, after, h + 12);
  }

  /** A command changes three fields of its own slot's header and nothing in any other header. */
  lemma HeaderAfter(before: seq<byte>, after: seq<byte>, port: nat, slot: nat, q: Request, s: nat)
    requires port < PORTS && slot < SLOTS && s < SLOTS && |after| == |before| && |before| >= AHCI_END
    requires forall a | 0 <= a < |after| :: after[a] == IssuedByte(port, slot, q, RegionOf(a), before[a])
    ensures HeaderAt(port, s) + HEADER_BYTES <= |after|
    ensures var f := DecodeHeader(before, HeaderAt(port, s));
      DecodeHeader(after, HeaderAt(port, s)) ==
        if s == slot then f.(fisWords := 5, write := false, entries := 1) else f
  {
    HeadersKept(before, after, port, slot, q, s);
    if s == slot {
      IssuedHeader(before, after, port, slot, q);
      OwnHeader(before, after, HeaderAt(port, s));
    } else {
      OtherHeader(before, after, HeaderAt(port, s));
    }
  }

  predicate SameTable(before: seq<byte>, after: seq<byte>, h: nat) {
    && h + HEADER_BYTES <= |before| == |after| && after[h + 1] == before[h + 1]
    && Load32(after, h + 8) == Load32(before, h + 8) && Load32(after, h + 12) == Load32(before, h + 12)
  }

  lemma OwnHeader(before: seq<byte>, after: seq<byte>, h: nat)
    requires HeaderKept(before, after, h, true) && after[h] == ReadFlags(before[h]) && Load16(after, h + 2) == 1
    ensures DecodeHeader(after, h) == DecodeHeader(before, h).(fisWords := 5, write := false, entries := 1)
  {
    TableFieldsKept(before, after, h, true);
    ReadFlagsDecode(before[h]);
  }

  lemma OtherHeader(before: seq<byte>, after: seq<byte>, h: nat)
    requires HeaderKept(before, after, h, false)
    ensures DecodeHeader(after, h) == DecodeHeader(before, h)
  {
    TableFieldsKept(before, after, h, false);
  }

  /** A command keeps all headers linked and plain, so any number of reads can follow each other. */
  lemma StillConfigured(before: seq<byte>, after: seq<byte>, port: nat, slot: nat, q: Request)
    requires port < PORTS && slot < SLOTS && Configured(before, port) && |after| == |before|
    requires forall a | 0 <= a < |after| :: after[a] == IssuedByte(port, slot, q, RegionOf(a), before[a])
    ensures Configured(after, port)
  {
    forall s | 0 <= s < SLOTS
      ensures Linked(after, port, s) && PlainAt(after, port, s)
    {
      assert Linked(before, port, s) && PlainAt(before, port, s);
      HeaderAfter(before, after, port, slot, q, s);
    }
  }

  // ----- What the controller reads -----

  /** A command FIS as the device gets it (kernel/headers/pci.h declares its bytes). */
  datatype CommandFis = CommandFis(
    fisType: nat, multiplier: nat, isCommand: bool, opcode: nat, features: nat, device: nat,
    lba: int, sectors: int, completion: nat, control: nat)

  /** A region descriptor. */
  datatype Descriptor = Descriptor(address: nat, addressUpper: nat, bytes: nat, interrupt: bool)

  /** All that the controller acts on: every field but the reserved ones and the count it writes itself. */
  datatype Command = Command(header: HeaderFields, fis: CommandFis, descriptor: Descriptor)

  /** The sector address in a command FIS. */
  function LbaAt(mem: seq<byte>, t: nat): int
    requires t + COMMAND_BYTES <= |mem|
  {
    mem[t + 4] as int + 0x100 * mem[t + 5] as int + 0x1_0000 * mem[t + 6] as int
    + 0x100_0000 * mem[t + 8] as int + 0x1_0000_0000 * mem[t + 9] as int + 0x100_0000_0000 * mem[t + 10] as int
  }

  function DecodeFis(mem: seq<byte>, t: nat): CommandFis
    requires t + COMMAND_BYTES <= |mem|
  {
    CommandFis(mem[t], mem[t + 1] % 16, mem[t + 1] / 128 == 1, mem[t + 2],
      mem[t + 3] as int + 0x100 * mem[t + 11] as int, mem[t + 7],
      LbaAt(mem, t), Load16(mem, t + 12), mem[t + 14], mem[t + 15])
  }

  function DecodeDescriptor(mem: seq<byte>, d: nat): Descriptor
    requires d + 16 <= |mem|
  {
    var dw3 := Load32(mem, d + 12);
    Descriptor(Load32(mem, d), Load32(mem, d + 4), dw3 % 0x40_0000 + 1, dw3 / 0x8000_0000 == 1)
  }

  function Decode(mem: seq<byte>, header: nat): Command
    requires header + HEADER_BYTES <= |mem| && Load32(mem, header + 8) + COMMAND_BYTES <= |mem|
  {
    var t := Load32(mem, header + 8);
    Command(DecodeHeader(mem, header), DecodeFis(mem, t), DecodeDescriptor(mem, t + PRDT))
  }

  /** The table at t is that of the request. */
  ghost predicate CommandAt(mem: seq<byte>, t: nat, q: Request) {
    t + COMMAND_BYTES <= |mem| && forall a | t <= a < t + COMMAND_BYTES :: mem[a] == CommandByte(q, a - t)
  }

  lemma IssuedTable(before: seq<byte>, after: seq<byte>, port: nat, slot: nat, q: Request)
    requires port < PORTS && slot < SLOTS && |before| == |after| && |before| >= AHCI_END
    requires forall a | 0 <= a < |after| :: after[a] == IssuedByte(port, slot, q, RegionOf(a), before[a])
    ensures CommandAt(after, TableAt(port, slot), q)
  {
    HeaderInArea(port, slot);
    var t := TableAt(port, slot);
    forall a | t <= a < t + COMMAND_BYTES
      ensures after[a] == CommandByte(q, a - t)
    {
      TableOffset(port, slot, a);
    }
  }

  /** The FIS of a request: a DMA read in LBA mode of the low 16 bits of starth and of count. */
  function MeantFis(q: Request): CommandFis {
    CommandFis(FIS_TYPE_REG_H2D, 0, true, READ_DMA_EX, 0, LBA_MODE,
      q.startl + 0x1_0000_0000 * (q.starth % 0x1_0000), q.count % 0x1_0000, 0, 0)
  }

  /** Its descriptor: the buffer, and (512 count - 1) mod 2^22, plus one, bytes. */
  function MeantDescriptor(q: Request): Descriptor {
    Descriptor(q.buffer, 0, (512 * q.count - 1) % 0x40_0000 + 1, false)
  }

  /** The whole command: a plain read with a FIS of 5 words and one descriptor, in the given table. */
  function Meant(q: Request, table: nat): Command {
    Command(HeaderFields(5, false, false, false, false, false, false, 0, 1, table, 0), MeantFis(q), MeantDescriptor(q))
  }

  lemma AtLeastOnce(m: int, n: int)
    requires m > 0 && n > 0
    ensures m * n >= m
  {
  }

  /** A quotient and remainder, recognised. */
  lemma RemainderIs(v: int, m: int, q: int, r: int)
    requires 0 <= r < m && v == m * q + r
    ensures v % m == r
  {
    var k := v / m;
    if k < q {
      AtLeastOnce(m, q - k);
      assert false;
    } else if q < k {
      AtLeastOnce(m, k - q);
      assert false;
    }
  }

  lemma TwoBytes(v: u32)
    ensures LeByte(v, 0) as int + 0x100 * LeByte(v, 1) as int == v % 0x1_0000
  {
    var q, r := v / 0x100, v % 0x100;
    assert v == 0x1_0000 * (q / 0x100) + (0x100 * (q % 0x100) + r);
    RemainderIs(v, 0x1_0000, q / 0x100, 0x100 * (q % 0x100) + r);
  }

  lemma ByteCount(count: u32)
    ensures ByteCountField(count) == (512 * count - 1) % 0x40_0000
    ensures (512 * count - 1) % 0x40_0000 + 1 == 512 * count <==> 1 <= count <= 8192
  {
    var n := 512 * count - 1;
    var q, r := n / 0x1_0000_0000, n % 0x1_0000_0000;
    assert n == 0x40_0000 * (0x400 * q + r / 0x40_0000) + r % 0x40_0000;
    RemainderIs(n, 0x40_0000, 0x400 * q + r / 0x40_0000, r % 0x40_0000);
    if 1 <= count <= 8192 {
      RemainderIs(n, 0x40_0000, 0, n);
    }
  }

  lemma ReadFlagsDecode(b: byte)
    ensures ReadFlags(b) % 32 == 5 && ReadFlags(b) / 64 % 2 == 0
    ensures ReadFlags(b) / 32 % 2 == b / 32 % 2 && ReadFlags(b) / 128 == b / 128
  {
    var h := b / 32;
    assert b / 64 == h / 2 && b / 128 == h / 4;
    assert ReadFlags(b) == 32 * (h - h / 2 % 2 * 2) + 5;
  }

  lemma IssuedHeader(before: seq<byte>, after: seq<byte>, port: nat, slot: nat, q: Request)
    requires port < PORTS && slot < SLOTS && |before| == |after| && |before| >= AHCI_END
    requires forall a | 0 <= a < |after| :: after[a] == IssuedByte(port, slot, q, RegionOf(a), before[a])
    ensures HeaderAt(port, slot) + HEADER_BYTES <= |after|
    ensures after[HeaderAt(port, slot)] == ReadFlags(before[HeaderAt(port, slot)])
    ensures Load16(after, HeaderAt(port, slot) + 2) == 1
  {
    HeaderInArea(port, slot);
    AddressThere(Header(port, slot, 0));
    AddressThere(Header(port, slot, 2));
    AddressThere(Header(port, slot, 3));
  }

  lemma BufferField(mem: seq<byte>, t: nat, q: Request)
    requires CommandAt(mem, t, q)
    ensures Load32(mem, t + PRDT) == q.buffer
  {
    LeBytesRead(mem, t + PRDT, q.buffer);
  }

  lemma ByteCountInTable(mem: seq<byte>, t: nat, q: Request)
    requires CommandAt(mem, t, q)
    ensures Load32(mem, t + PRDT + 12) == (512 * q.count - 1) % 0x40_0000
  {
    LeBytesRead(mem, t + PRDT + 12, ByteCountField(q.count));
    ByteCount(q.count);
  }

  lemma LbaField(mem: seq<byte>, t: nat, q: Request)
    requires CommandAt(mem, t, q)
    ensures LbaAt(mem, t) == q.startl + 0x1_0000_0000 * (q.starth % 0x1_0000)
  {
    LeSum(q.startl);
    TwoBytes(q.starth);
    assert mem[t + 4] == LeByte(q.startl, 0) && mem[t + 5] == LeByte(q.startl, 1);
    assert mem[t + 6] == LeByte(q.startl, 2) && mem[t + 8] == LeByte(q.startl, 3);
    assert mem[t + 9] == LeByte(q.starth, 0) && mem[t + 10] == LeByte(q.starth, 1);
  }

  lemma FisOfCommand(mem: seq<byte>, t: nat, q: Request)
    requires CommandAt(mem, t, q)
    ensures DecodeFis(mem, t) == MeantFis(q)
  {
    FisBytes(mem, t, q);
    LbaField(mem, t, q);
    TwoBytes(q.count);
  }

  lemma FisBytes(mem: seq<byte>, t: nat, q: Request)
    requires CommandAt(mem, t, q)
    ensures mem[t] == FIS_TYPE_REG_H2D && mem[t + 1] == 0x80 && mem[t + 2] == READ_DMA_EX && mem[t + 3] == 0
    ensures mem[t + 7] == LBA_MODE && mem[t + 11] == mem[t + 14] == mem[t + 15] == 0
    ensures mem[t + 12] == LeByte(q.count, 0) && mem[t + 13] == LeByte(q.count, 1)
  {
  }

  lemma DescriptorOfCommand(mem: seq<byte>, t: nat, q: Request)
    requires CommandAt(mem, t, q)
    ensures DecodeDescriptor(mem, t + PRDT) == MeantDescriptor(q)
  {
    BufferField(mem, t, q);
    UpperIsZero(mem, t, q);
    ByteCountInTable(mem, t, q);
    assert Load32(mem, t + PRDT + 12) / 0x8000_0000 == 0;
  }

  lemma UpperIsZero(mem: seq<byte>, t: nat, q: Request)
    requires CommandAt(mem, t, q)
    ensures Load32(mem, t + PRDT + 4) == 0
  {
    assert mem[t + 0x84] == mem[t + 0x85] == mem[t + 0x86] == mem[t + 0x87] == 0;
  }

  /** A controller that reads the slot's header and the table it points to finds exactly the command that is
      meant if and only if the header was plain before: the driver does not write those fields. */
  lemma IssuedDecodes(before: seq<byte>, after: seq<byte>, port: nat, slot: nat, q: Request)
    requires port < PORTS && slot < SLOTS && |before| == |after| && |before| >= AHCI_END && Linked(before, port, slot)
    requires forall a | 0 <= a < |after| :: after[a] == IssuedByte(port, slot, q, RegionOf(a), before[a])
    ensures HeaderAt(port, slot) + HEADER_BYTES <= |after|
    ensures Load32(after, HeaderAt(port, slot) + 8) + COMMAND_BYTES <= |after|
    ensures Decode(after, HeaderAt(port, slot)) == Meant(q, TableAt(port, slot)) <==> PlainAt(before, port, slot)
  {
    var t := TableAt(port, slot);
    HeaderInArea(port, slot);
    HeaderAfter(before, after, port, slot, q, slot);
    IssuedTable(before, after, port, slot, q);
    FisOfCommand(after, t, q);
    DescriptorOfCommand(after, t, q);
  }

  /** The command asks for exactly the sectors and bytes of the request if and only if the sector address
      has at most 48 bits and the count is between 1 and 8192. */
  lemma CommandMeansRequest(q: Request)
    ensures MeantFis(q).lba == q.startl + 0x1_0000_0000 * q.starth && MeantFis(q).sectors == q.count
        && MeantDescriptor(q).bytes == 512 * q.count
      <==> q.starth < 0x1_0000 && 1 <= q.count <= 8192
    ensures var f := MeantFis(q);
      && f.fisType == 0x27 && f.isCommand && f.opcode == 0x25 && f.device == 0x40 && f.features == f.control == 0
      && MeantDescriptor(q).address == q.buffer
  {
    ByteCount(q.count);
  }

  /** For example: a count of 0 passes through, and asks for 4 MB. */
  lemma ZeroSectors(q: Request)
    requires q.count == 0
    ensures MeantFis(q).sectors == 0 && MeantDescriptor(q).bytes == 0x40_0000
  {
    RemainderIs(-1, 0x40_0000, -1, 0x3F_FFFF);
  }

  // ----- The command in bytes -----

  /** Four bytes, lowest first. */
  function Word(mem: seq<byte>, a: nat): int
    requires a + 4 <= |mem|
  {
    mem[a] as int + 256 * mem[a + 1] as int + 65536 * mem[a + 2] as int + 16777216 * mem[a + 3] as int
  }

  /** A command header of 32 bytes: 5 words of FIS, none of the flags ATAPI, write, prefetch, reset, BIST and
      clear, no port multiplier, one descriptor, and the table at t. */
  predicate HeaderInBytes(mem: seq<byte>, h: nat, t: nat)
    requires h + 32 <= |mem|
  {
    && mem[h] == 5 && mem[h + 1] % 8 == 0 && mem[h + 1] / 16 == 0
    && mem[h + 2] == 1 && mem[h + 3] == 0
    && Word(mem, h + 8) == t && Word(mem, h + 12) == 0
  }

  /** A host-to-device register FIS that is a command: READ DMA EXT in LBA mode, features and control 0, of the low
      48 bits of the sector address and the low 16 bits of the count. */
  predicate FisInBytes(mem: seq<byte>, t: nat, q: Request)
    requires t + 16 <= |mem|
  {
    && mem[t] == 0x27 && mem[t + 1] / 128 == 1 && mem[t + 1] % 16 == 0 && mem[t + 2] == 0x25
    && mem[t + 3] == 0 && mem[t + 11] == 0 && mem[t + 7] == 0x40 && mem[t + 14] == 0 && mem[t + 15] == 0
    && mem[t + 4] as int + 256 * mem[t + 5] as int + 65536 * mem[t + 6] as int + 16777216 * mem[t + 8] as int
       + 0x1_0000_0000 * (mem[t + 9] as int + 256 * mem[t + 10] as int)
       == q.startl + 0x1_0000_0000 * (q.starth % 0x1_0000)
    && mem[t + 12] as int + 256 * mem[t + 13] as int == q.count % 0x1_0000
  }

  /** One region descriptor: the buffer, 512 bytes a sector less one in 22 bits, no interrupt. */
  predicate DescriptorInBytes(mem: seq<byte>, d: nat, q: Request)
    requires d + 16 <= |mem|
  {
    && Word(mem, d) == q.buffer && Word(mem, d + 4) == 0
    && Word(mem, d + 12) % 0x40_0000 == (512 * q.count - 1) % 0x40_0000 && Word(mem, d + 12) / 0x8000_0000 == 0
  }

  /** The whole command, byte by byte: header at h, table at t. */
  predicate ReadInBytes(mem: seq<byte>, h: nat, t: nat, q: Request) {
    && h + 32 <= |mem| && t + 144 <= |mem|
    && HeaderInBytes(mem, h, t) && FisInBytes(mem, t, q) && DescriptorInBytes(mem, t + 128, q)
  }

  lemma HeaderBytes(mem: seq<byte>, h: nat, t: nat)
    requires h + 32 <= |mem|
    requires DecodeHeader(mem, h) == HeaderFields(5, false, false, false, false, false, false, 0, 1, t, 0)
    ensures HeaderInBytes(mem, h, t)
  {
    FirstByte(mem[h]);
    SecondByte(mem[h + 1]);
  }

  lemma FirstByte(b: byte)
    requires b % 32 == 5 && b / 32 % 2 == 0 && b / 64 % 2 == 0 && b / 128 == 0
    ensures b == 5
  {
    var q := b / 32;
    assert b / 64 == q / 2 && b / 128 == q / 4;
  }

  lemma SecondByte(c: byte)
    requires c % 2 == 0 && c / 2 % 2 == 0 && c / 4 % 2 == 0
    ensures c % 8 == 0
  {
    assert c / 4 == c / 2 / 2;
  }

  /** A controller that finds the meant command finds these bytes. */
  lemma MeantInBytes(mem: seq<byte>, h: nat, t: nat, q: Request)
    requires h + HEADER_BYTES <= |mem| && Load32(mem, h + 8) + COMMAND_BYTES <= |mem|
    requires Decode(mem, h) == Meant(q, t)
    ensures ReadInBytes(mem, h, t, q)
  {
    HeaderBytes(mem, h, t);
    FisInBytesOf(mem, t, q);
    DescriptorInBytesOf(mem, t + 128, q);
  }

  lemma FisInBytesOf(mem: seq<byte>, t: nat, q: Request)
    requires t + COMMAND_BYTES <= |mem| && DecodeFis(mem, t) == MeantFis(q)
    ensures FisInBytes(mem, t, q)
  {
  }

  lemma DescriptorInBytesOf(mem: seq<byte>, d: nat, q: Request)
    requires d + 16 <= |mem| && DecodeDescriptor(mem, d) == MeantDescriptor(q)
    ensures DescriptorInBytes(mem, d, q)
  {
    assert Word(mem, d + 12) == Load32(mem, d + 12) < 0x1_0000_0000;
  }
}
