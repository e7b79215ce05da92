/** PCI configuration access of kernel/pci.c: the packed address, and 16-bit accesses to 32-bit registers
    (PCI Local Bus Specification 3.0, section 3.2.2.3.2). */
module PciConfig {
  import opened MachineTypes

  /** Configuration registers by packed address; where there is no device there is no register. */
  type Space = bv32 -> Option<bv32>

  function Address(bus: bv8, slot: bv8, fn: bv8, offset: bv8): bv32 {
    ((offset as bv32) & 0xFC) | ((bus as bv32) << 16) | ((slot as bv32) << 11) | ((fn as bv32) << 8) | (1 << 31)
  }

  /** What the data port reads: all ones where nothing answers. */
  function Register(space: Space, address: bv32): bv32 {
    if space(address).Some? then space(address).value else 0xFFFF_FFFF
  }

  /** What a write to the data port does to memory-like registers; nothing where nothing answers. */
  function Stored(space: Space, address: bv32, value: bv32): Space {
    if space(address).Some? then (a: bv32) => if a == address then Some(value) else space(a) else space
  }

  /** The 16 bits of a register that an offset addresses: bit 1 of the offset picks the half. */
  function HalfOf(register: bv32, offset: bv8): bv16 {
    if offset & 2 == 0 then (register & 0xFFFF) as bv16 else (register >> 16) as bv16
  }

  function WithHalf(register: bv32, offset: bv8, value: bv16): bv32 {
    if offset & 2 == 0 then (register & 0xFFFF_0000) | (value as bv32)
    else (register & 0xFFFF) | ((value as bv32) << 16)
  }

  /** How the source finds the half: a shift by 0 or 16 bits. */
  function HalfShift(offset: bv8): (shift: bv8)
    ensures shift == if offset & 2 == 0 then 0 else 16
  {
    (offset & 2) * 8
  }

  lemma ShiftFindsHalf(register: bv32, offset: bv8)
    ensures ((register >> HalfShift(offset)) & 0xFFFF) as bv16 == HalfOf(register, offset)
  {
    if offset & 2 == 0 {
      assert register >> 0 == register;
    } else {
      assert (register >> 16) & 0xFFFF == register >> 16;
    }
  }

  lemma MaskReplacesHalf(register: bv32, offset: bv8, value: bv16)
    ensures (register & !(0xFFFF << HalfShift(offset))) | ((value as bv32) << HalfShift(offset))
         == WithHalf(register, offset, value)
  {
    if offset & 2 == 0 {
      assert !((0xFFFF as bv32) << 0) == 0xFFFF_0000;
      assert (value as bv32) << 0 == value as bv32;
    } else {
      assert !((0xFFFF as bv32) << 16) == 0xFFFF;
    }
  }

  lemma StoredRegister(space: Space, a: bv32, value: bv32, b: bv32)
    ensures Register(Stored(space, a, value), b) == if a == b && space(a).Some? then value else Register(space, b)
  {
  }

  function Read16(space: Space, bus: bv8, slot: bv8, fn: bv8, offset: bv8): bv16 {
    HalfOf(Register(space, Address(bus, slot, fn, offset)), offset)
  }

  function Write16(space: Space, bus: bv8, slot: bv8, fn: bv8, offset: bv8, value: bv16): Space {
    var address := Address(bus, slot, fn, offset);
    Stored(space, address, WithHalf(Register(space, address), offset, value))
  }

  /** The two configuration ports. */
  class Ports {
    var address: bv32
    var space: Space

    constructor (registers: Space)
      ensures space == registers
    {
      address, space := 0, registers;
    }

    method OutAddress(value: bv32)
      modifies this`address
      ensures address == value
    {
      address := value;
    }

    method InData() returns (value: bv32)
      ensures value == Register(space, address)
    {
      value := Register(space, address);
    }

    method OutData(value: bv32)
      modifies this`space
      ensures space == Stored(old(space), address, value)
    {
      space := Stored(space, address, value);
    }

    method ReadU32(bus: bv8, slot: bv8, fn: bv8, offset: bv8) returns (value: bv32)
      modifies this`address
      ensures value == Register(space, Address(bus, slot, fn, offset))
    {
      OutAddress(Address(bus, slot, fn, offset));
      value := InData();
    }

    method WriteU32(bus: bv8, slot: bv8, fn: bv8, offset: bv8, value: bv32)
      modifies this
      ensures space == Stored(old(space), Address(bus, slot, fn, offset), value)
    {
      OutAddress(Address(bus, slot, fn, offset));
      OutData(value);
    }

    method ReadU16(bus: bv8, slot: bv8, fn: bv8, offset: bv8) returns (value: bv16)
      modifies this`address
      ensures value == Read16(space, bus, slot, fn, offset)
    {
      OutAddress(Address(bus, slot, fn, offset));
      var data := InData();
      ShiftFindsHalf(data, offset);
      value := ((data >> HalfShift(offset)) & 0xFFFF) as bv16;
    }

    method WriteU16(bus: bv8, slot: bv8, fn: bv8, offset: bv8, value: bv16)
      modifies this
      ensures space == Write16(old(space), bus, slot, fn, offset, value)
    {
      var register := ReadU32(bus, slot, fn, offset);
      MaskReplacesHalf(register, offset, value);
      var cleared := register & !(0xFFFF << HalfShift(offset));
      var merged := cleared | ((value as bv32) << HalfShift(offset));
      assert merged == WithHalf(register, offset, value);
      OutAddress(Address(bus, slot, fn, offset));
      OutData(merged);
    }
  }

  // ----- The packed address -----

  /** The fields can be read off the address, and the enable bit. */
  lemma AddressFields(bus: bv8, slot: bv8, fn: bv8, offset: bv8)
    requires slot < 32 && fn < 8
    ensures var a := Address(bus, slot, fn, offset);
      && (a >> 16) & 0xFF == bus as bv32
      && (a >> 11) & 0x1F == slot as bv32
      && (a >> 8) & 7 == fn as bv32
      && a & 0xFF == (offset as bv32) & 0xFC
      && a >> 24 == 0x80
  {
  }

  lemma WideningIsInjective(a: bv8, b: bv8)
    ensures a as bv32 == b as bv32 <==> a == b
    ensures (a as bv32) & 0xFC == (b as bv32) & 0xFC <==> a & 0xFC == b & 0xFC
  {
  }

  /** Within 5-bit devices and 3-bit functions, different places have different addresses. */
  lemma AddressIsInjective(bus: bv8, slot: bv8, fn: bv8, offset: bv8, bus': bv8, slot': bv8, fn': bv8, offset': bv8)
    requires slot < 32 && slot' < 32 && fn < 8 && fn' < 8
    ensures Address(bus, slot, fn, offset) == Address(bus', slot', fn', offset')
       <==> bus == bus' && slot == slot' && fn == fn' && offset & 0xFC == offset' & 0xFC
  {
    if Address(bus, slot, fn, offset) == Address(bus', slot', fn', offset') {
      EqualAddresses(bus, slot, fn, offset, bus', slot', fn', offset');
    }
  }

  lemma EqualAddresses(bus: bv8, slot: bv8, fn: bv8, offset: bv8, bus': bv8, slot': bv8, fn': bv8, offset': bv8)
    requires slot < 32 && slot' < 32 && fn < 8 && fn' < 8
    requires Address(bus, slot, fn, offset) == Address(bus', slot', fn', offset')
    ensures bus == bus' && slot == slot' && fn == fn' && offset & 0xFC == offset' & 0xFC
  {
    AddressFields(bus, slot, fn, offset);
    AddressFields(bus', slot', fn', offset');
    WideningIsInjective(bus, bus');
    WideningIsInjective(slot, slot');
    WideningIsInjective(fn, fn');
    WideningIsInjective(offset, offset');
  }

  /** A slot number above the 5-bit field spills into the bus number. */
  lemma SlotSpillsIntoBus(bus: bv8, slot: bv8, fn: bv8, offset: bv8)
    ensures Address(bus, slot, fn, offset) == Address(bus | (slot >> 5), slot & 31, fn, offset)
  {
  }

  lemma HalvesAreIndependent(register: bv32, offset: bv8, value: bv16)
    ensures HalfOf(WithHalf(register, offset, value), offset) == value
    ensures HalfOf(WithHalf(register, offset, value), offset ^ 2) == HalfOf(register, offset ^ 2)
  {
    assert offset & 2 == 0 <==> (offset ^ 2) & 2 != 0;
    if offset & 2 == 0 {
      assert ((register & 0xFFFF_0000) | (value as bv32)) & 0xFFFF == value as bv32;
    } else {
      assert ((register & 0xFFFF) | ((value as bv32) << 16)) >> 16 == value as bv32;
    }
  }

  /** A 16-bit write is read back if and only if there is a register, or all ones were written; and the
      other half of the register is as before. */
  lemma WriteThenRead(space: Space, bus: bv8, slot: bv8, fn: bv8, offset: bv8, value: bv16)
    ensures var after := Write16(space, bus, slot, fn, offset, value);
      && (Read16(after, bus, slot, fn, offset) == value
          <==> space(Address(bus, slot, fn, offset)).Some? || value == 0xFFFF)
      && Read16(after, bus, slot, fn, offset ^ 2) == Read16(space, bus, slot, fn, offset ^ 2)
  {
    var address := Address(bus, slot, fn, offset);
    SameRegister(bus, slot, fn, offset);
    WriteOneRegister(space, address, offset, value);
  }

  lemma WriteOneRegister(space: Space, address: bv32, offset: bv8, value: bv16)
    ensures var before := Register(space, address);
      var after := Register(Stored(space, address, WithHalf(before, offset, value)), address);
      && (HalfOf(after, offset) == value <==> space(address).Some? || value == 0xFFFF)
      && HalfOf(after, offset ^ 2) == HalfOf(before, offset ^ 2)
  {
    var before := Register(space, address);
    var merged := WithHalf(before, offset, value);
    StoredRegister(space, address, merged, address);
    if space(address).Some? {
      HalvesAreIndependent(before, offset, value);
    } else {
      AllOnes(offset);
    }
  }

  lemma AllOnes(offset: bv8)
    ensures HalfOf(0xFFFF_FFFF, offset) == 0xFFFF
  {
  }

  lemma SameRegister(bus: bv8, slot: bv8, fn: bv8, offset: bv8)
    ensures Address(bus, slot, fn, offset ^ 2) == Address(bus, slot, fn, offset)
  {
    assert (((offset ^ 2) as bv32) & 0xFC) == (offset as bv32) & 0xFC;
  }

  /** A 16-bit write leaves every register at another place as it was. */
  lemma WriteLeavesOthers(space: Space, bus: bv8, slot: bv8, fn: bv8, offset: bv8, value: bv16,
      bus': bv8, slot': bv8, fn': bv8, offset': bv8)
    requires slot < 32 && fn < 8 && slot' < 32 && fn' < 8
    requires !(bus == bus' && slot == slot' && fn == fn' && offset & 0xFC == offset' & 0xFC)
    ensures Register(Write16(space, bus, slot, fn, offset, value), Address(bus', slot', fn', offset'))
         == Register(space, Address(bus', slot', fn', offset'))
  {
    var address, other := Address(bus, slot, fn, offset), Address(bus', slot', fn', offset');
    AddressIsInjective(bus, slot, fn, offset, bus', slot', fn', offset');
    StoredRegister(space, address, WithHalf(Register(space, address), offset, value), other);
  }
}
