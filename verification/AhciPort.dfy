/** The registers of an AHCI port, between a host that loads and stores them and a device that may change
    them at any time (AHCI 1.3.1, section 3.3). */
module AhciPort {
  import opened MachineTypes

  const ST: bv32 := 0x0001
  const FRE: bv32 := 0x0010
  const FR: bv32 := 0x4000
  const CR: bv32 := 0x8000

  /** The registers that the driver uses; sact and ci are bit maps of command slots. */
  datatype Regs = Regs(
    clb: u32, clbu: u32, fb: u32, fbu: u32, irq: bv32, cmd: bv32, tfd: bv32, sact: u32, ci: u32)

  datatype Register = CLB | CLBU | FB | FBU | IRQ | CMD | TFD | SACT | CI

  /** One access of the host, with the registers as they were at that moment. The stores that start
      something also show the memory of that moment. */
  datatype Access =
    | Load(reg: Register, at: Regs)
    | StoreAddress(reg: Register, address: u32, at: Regs)
    | StoreIrq(mask: bv32, at: Regs)
    | StoreCmd(cmd: bv32, at: Regs, mem: seq<byte>)
    | StoreCi(slots: u32, at: Regs, mem: seq<byte>)

  /** What a device does to the registers before the host's t-th access. */
  type Device = (nat, Regs) -> Regs

  /** Some device move leads from r to s. */
  ghost predicate Moved(device: Device, r: Regs, s: Regs) {
    exists t: nat :: s == device(t, r)
  }

  function WithAddress(r: Regs, reg: Register, address: u32): Regs {
    match reg
    case CLB => r.(clb := address)
    case CLBU => r.(clbu := address)
    case FB => r.(fb := address)
    case FBU => r.(fbu := address)
    case _ => r
  }

  /** A store to CMD: the bits FR and CR are the device's own. */
  function WithCmd(r: Regs, cmd: bv32): Regs {
    r.(cmd := (cmd & 0xFFFF_3FFF) | (r.cmd & 0xC000))
  }

  /** A store to IS clears the bits that are one. */
  function WithIrq(r: Regs, mask: bv32): Regs {
    r.(irq := r.irq & !mask)
  }

  /** The union of two bit maps. */
  function Union(x: u32, y: u32): (z: u32) {
    UnionBound(x, y);
    UnionInt(x, y)
  }

  function UnionInt(x: nat, y: nat): nat
    decreases x + y
  {
    if x == 0 && y == 0 then 0 else (if x % 2 == 1 || y % 2 == 1 then 1 else 0) + 2 * UnionInt(x / 2, y / 2)
  }

  function Pow2(n: nat): nat { if n == 0 then 1 else 2 * Pow2(n - 1) }

  lemma {:induction false} UnionSmall(x: nat, y: nat, n: nat)
    requires x < Pow2(n) && y < Pow2(n)
    ensures UnionInt(x, y) < Pow2(n)
    decreases n
  {
    if n > 0 && !(x == 0 && y == 0) {
      UnionSmall(x / 2, y / 2, n - 1);
    }
  }

  lemma UnionBound(x: u32, y: u32)
    ensures UnionInt(x, y) < 0x1_0000_0000
  {
    assert Pow2(8) == 0x100;
    assert Pow2(16) == 0x1_0000;
    assert Pow2(24) == 0x100_0000;
    assert Pow2(32) == 0x1_0000_0000;
    UnionSmall(x, y, 32);
  }

  lemma PowersOf2()
    ensures Pow2(8) == 0x100 && Pow2(16) == 0x1_0000
  {
    assert Pow2(8) == 0x100;
    assert Pow2(16) == 0x1_0000;
  }

  /** Bit i of a bit map. */
  predicate Bit(x: nat, i: nat) {
    if i == 0 then x % 2 == 1 else Bit(x / 2, i - 1)
  }

  lemma {:induction false} UnionBits(x: nat, y: nat, i: nat)
    ensures Bit(UnionInt(x, y), i) == (Bit(x, i) || Bit(y, i))
    decreases i
  {
    if x == 0 && y == 0 {
      NoBits(i);
    } else if i > 0 {
      UnionBits(x / 2, y / 2, i - 1);
    }
  }

  lemma {:induction false} NoBits(i: nat)
    ensures !Bit(0, i)
  {
    if i > 0 {
      NoBits(i - 1);
    }
  }

  class Port {
    const device: Device
    /** Physical memory, which the device reads when a store starts something. */
    const mem: array<byte>
    var regs: Regs
    var time: nat
    ghost var log: seq<Access>

    constructor (d: Device, memory: array<byte>, r: Regs)
      ensures device == d && mem == memory && regs == r && log == []
    {
      device, mem, regs, time, log := d, memory, r, 0, [];
    }

    /** The device moves. */
    method Tick()
      modifies this`regs, this`time
      ensures Moved(device, old(regs), regs)
      ensures regs == device(old(time), old(regs)) && time == old(time) + 1
    {
      ghost var t, before := time, regs;
      regs := device(time, regs);
      assert regs == device(t, before);
      time := time + 1;
    }

    method Read(reg: Register) returns (seen: Regs)
      modifies this
      ensures Moved(device, old(regs), seen) && seen == device(old(time), old(regs)) && time == old(time) + 1
      ensures regs == seen && log == old(log) + [Load(reg, seen)]
    {
      Tick();
      log := log + [Load(reg, regs)];
      seen := regs;
    }

    method WriteAddress(reg: Register, address: u32) returns (ghost at: Regs)
      modifies this
      ensures Moved(device, old(regs), at) && time == old(time) + 1
      ensures regs == WithAddress(at, reg, address) && log == old(log) + [StoreAddress(reg, address, at)]
    {
      Tick();
      at := regs;
      log := log + [StoreAddress(reg, address, at)];
      regs := WithAddress(regs, reg, address);
    }

    method WriteIrq(mask: bv32) returns (ghost at: Regs)
      modifies this
      ensures Moved(device, old(regs), at) && time == old(time) + 1
      ensures regs == WithIrq(at, mask) && log == old(log) + [StoreIrq(mask, at)]
    {
      Tick();
      at := regs;
      log := log + [StoreIrq(mask, at)];
      regs := WithIrq(regs, mask);
    }

    method WriteCmd(cmd: bv32) returns (ghost at: Regs)
      modifies this
      ensures Moved(device, old(regs), at) && time == old(time) + 1
      ensures regs == WithCmd(at, cmd) && log == old(log) + [StoreCmd(cmd, at, mem[..])]
    {
      Tick();
      at := regs;
      log := log + [StoreCmd(cmd, at, mem[..])];
      regs := WithCmd(regs, cmd);
    }

    /** A store to CI issues the commands of the slots that are one; zeros have no effect. */
    method WriteCi(slots: u32) returns (ghost at: Regs)
      modifies this
      ensures Moved(device, old(regs), at) && time == old(time) + 1
      ensures regs == at.(ci := Union(at.ci, slots)) && log == old(log) + [StoreCi(slots, at, mem[..])]
    {
      Tick();
      at := regs;
      log := log + [StoreCi(slots, at, mem[..])];
      regs := regs.(ci := Union(regs.ci, slots));
    }
  }

  /** The store of 0xFFFF to IS, with which read_bytes begins, clears the low half: an error in bit 30 stays. */
  lemma AcknowledgeKeepsErrors(r: Regs)
    ensures WithIrq(r, 0xFFFF) == r.(irq := r.irq & 0xFFFF_0000)
    ensures WithIrq(r, 0xFFFF).irq & 0x4000_0000 == r.irq & 0x4000_0000
  {
  }

  /** The bits of CMD in numbers. */
  lemma CmdBits(v: bv32)
    ensures (v & ST != 0 <==> v & 0x1 != 0) && (v & FRE != 0 <==> v & 0x10 != 0)
    ensures (v & FR != 0 <==> v & 0x4000 != 0) && (v & CR != 0 <==> v & 0x8000 != 0)
  {
  }

  /** A bit of a bit map, counted from the lowest. */
  lemma {:induction false} BitInNumbers(x: nat, i: nat)
    ensures Pow2(i) > 0 && (Bit(x, i) <==> x / Pow2(i) % 2 == 1)
    ensures i > 0 ==> Pow2(i) == 2 * Pow2(i - 1)
    decreases i
  {
    if i > 0 {
      BitInNumbers(x / 2, i - 1);
      HalvedTwice(x, Pow2(i - 1));
    }
  }

  lemma HalvedTwice(x: nat, d: nat)
    requires d > 0
    ensures x / 2 / d == x / (2 * d)
  {
    var q, r := x / 2 / d, x / 2 % d;
    assert x / 2 == q * d + r;
    assert x == q * (2 * d) + (2 * r + x % 2);
    QuotientIs(x, 2 * d, q, 2 * r + x % 2);
  }

  lemma QuotientIs(x: int, d: int, q: int, r: int)
    requires 0 <= r < d && x == q * d + r
    ensures x / d == q
  {
    var k := x / d;
    assert (k - q) * d == r - x % d;
    if k > q {
      AtLeastTimes(k - q, d);
      assert false;
    } else if k < q {
      AtLeastTimes(q - k, d);
      assert false;
    }
  }

  lemma AtLeastTimes(k: int, d: int)
    requires k >= 1 && d > 0
    ensures k * d >= d
  {
  }
}
