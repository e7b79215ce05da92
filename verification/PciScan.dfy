/** The search for a SATA controller in kernel/kernel.c, over 256 "slots" of 256 buses. */
module PciScan {
  import opened MachineTypes
  import opened PciConfig

  const CLASS_OFFSET: bv8 := 0xA
  const SATA_CLASS: bv16 := 0x0106

  /** pci_device_exists: function 0 answers. */
  predicate Exists(space: Space, bus: bv8, slot: bv8) {
    Read16(space, bus, slot, 0, 0) != 0xFFFF
  }

  /** The scan's test for one triple. */
  predicate Matches(space: Space, bus: bv8, slot: bv8, fn: bv8) {
    Exists(space, bus, slot) && Read16(space, bus, slot, fn, CLASS_OFFSET) == SATA_CLASS
  }

  /** A controller at its true place: a bus, one of 32 devices, one of 8 functions. */
  predicate Controller(space: Space, bus: bv8, device: bv8, fn: bv8) {
    device < 32 && fn < 8 && Matches(space, bus, device, fn)
  }

  /** In numbers: the vendor is not all ones, and class and subclass are 1 and 6. */
  lemma ControllerInNumbers(space: Space, bus: bv8, device: bv8, fn: bv8)
    requires device < 32 && fn < 8
    ensures var vendor := Register(space, Address(bus, device, 0, 0));
      var class_ := Register(space, Address(bus, device, fn, 8));
      Controller(space, bus, device, fn) <==> vendor & 0xFFFF != 0xFFFF && class_ >> 16 == 0x0106
  {
    var vendor, class_ := Register(space, Address(bus, device, 0, 0)), Register(space, Address(bus, device, fn, 8));
    HalvesInNumbers(vendor);
    HalvesInNumbers(class_);
    SameRegister(bus, device, fn, 8);
    assert (8 as bv8) ^ 2 == 0xA;
  }

  lemma HalvesInNumbers(register: bv32)
    ensures HalfOf(register, 0) == 0xFFFF <==> register & 0xFFFF == 0xFFFF
    ensures HalfOf(register, 0xA) == 0x0106 <==> register >> 16 == 0x0106
  {
    assert (0xA as bv8) & 2 == 2 && (0 as bv8) & 2 == 0;
  }

  datatype Place = Place(bus: bv8, slot: bv8, fn: bv8)

  /** The order in which the scan tries triples. */
  predicate Before(bus: bv8, slot: bv8, fn: bv8, l: bv16, i: bv16, n: bv16) {
    (bus as bv16) < l || ((bus as bv16) == l && ((slot as bv16) < i || ((slot as bv16) == i && (fn as bv16) < n)))
  }

  /** No triple that the scan tries before (l, i, n) matches. */
  ghost predicate NoneBefore(space: Space, l: bv16, i: bv16, n: bv16) {
    forall bus: bv8, slot: bv8, fn: bv8 | fn < 8 && Before(bus, slot, fn, l, i, n) :: !Matches(space, bus, slot, fn)
  }

  predicate Earlier(bus: bv8, slot: bv8, fn: bv8, p: Place) {
    bus < p.bus || (bus == p.bus && (slot < p.slot || (slot == p.slot && fn < p.fn)))
  }

  /** The first triple of the scan that matches. */
  ghost predicate First(space: Space, p: Place) {
    && p.fn < 8 && Matches(space, p.bus, p.slot, p.fn)
    && forall bus: bv8, slot: bv8, fn: bv8 | fn < 8 && Earlier(bus, slot, fn, p) :: !Matches(space, bus, slot, fn)
  }

  lemma TripleDone(space: Space, l: bv16, i: bv16, n: bv16)
    requires l < 256 && i < 256 && n < 8 && NoneBefore(space, l, i, n)
    requires !Matches(space, l as bv8, i as bv8, n as bv8)
    ensures NoneBefore(space, l, i, n + 1)
  {
    forall bus: bv8, slot: bv8, fn: bv8 | fn < 8 && Before(bus, slot, fn, l, i, n + 1)
      ensures !Matches(space, bus, slot, fn)
    {
      if !Before(bus, slot, fn, l, i, n) {
        assert bus == l as bv8 && slot == i as bv8 && fn == n as bv8;
      }
    }
  }

  lemma SlotDone(space: Space, l: bv16, i: bv16)
    requires i < 256 && NoneBefore(space, l, i, 8)
    ensures NoneBefore(space, l, i + 1, 0)
  {
    forall bus: bv8, slot: bv8, fn: bv8 | fn < 8 && Before(bus, slot, fn, l, i + 1, 0)
      ensures !Matches(space, bus, slot, fn)
    {
      assert Before(bus, slot, fn, l, i, 8);
    }
  }

  lemma BusDone(space: Space, l: bv16)
    requires l < 256 && NoneBefore(space, l, 256, 0)
    ensures NoneBefore(space, l + 1, 0, 0)
  {
    forall bus: bv8, slot: bv8, fn: bv8 | fn < 8 && Before(bus, slot, fn, l + 1, 0, 0)
      ensures !Matches(space, bus, slot, fn)
    {
      assert Before(bus, slot, fn, l, 256, 0);
    }
  }

  lemma AllDone(space: Space, bus: bv8, slot: bv8, fn: bv8)
    requires NoneBefore(space, 256, 0, 0) && fn < 8
    ensures !Matches(space, bus, slot, fn)
  {
    assert Before(bus, slot, fn, 256, 0, 0);
  }

  lemma WideningKeepsOrder(a: bv8, b: bv16)
    requires b < 256
    ensures a < b as bv8 ==> (a as bv16) < b
    ensures a == b as bv8 ==> (a as bv16) == b
  {
  }

  lemma EarlierIsBefore(bus: bv8, slot: bv8, fn: bv8, l: bv16, i: bv16, n: bv16)
    requires l < 256 && i < 256 && n < 8
    requires Earlier(bus, slot, fn, Place(l as bv8, i as bv8, n as bv8))
    ensures Before(bus, slot, fn, l, i, n)
  {
    WideningKeepsOrder(bus, l);
    WideningKeepsOrder(slot, i);
    WideningKeepsOrder(fn, n);
  }

  lemma IsFirst(space: Space, l: bv16, i: bv16, n: bv16)
    requires l < 256 && i < 256 && n < 8 && NoneBefore(space, l, i, n)
    requires Matches(space, l as bv8, i as bv8, n as bv8)
    ensures First(space, Place(l as bv8, i as bv8, n as bv8))
  {
    var p := Place(l as bv8, i as bv8, n as bv8);
    forall bus: bv8, slot: bv8, fn: bv8 | fn < 8 && Earlier(bus, slot, fn, p)
      ensures !Matches(space, bus, slot, fn)
    {
      EarlierIsBefore(bus, slot, fn, l, i, n);
    }
  }

  method Probe(ports: Ports, p: Place) returns (matches: bool)
    modifies ports`address
    ensures matches == Matches(ports.space, p.bus, p.slot, p.fn)
  {
    var vendor := ports.ReadU16(p.bus, p.slot, 0, 0);
    if vendor == 0xFFFF {
      return false;
    }
    var class_ := ports.ReadU16(p.bus, p.slot, p.fn, CLASS_OFFSET);
    return class_ == SATA_CLASS;
  }

  method Scan(ports: Ports) returns (found: Option<Place>)
    modifies ports`address
    ensures found.Some? ==> First(ports.space, found.value)
    ensures found.None? ==> NoneBefore(ports.space, 256, 0, 0)
  {
    var l: bv16 := 0;
    while l < 256
      invariant l <= 256 && NoneBefore(ports.space, l, 0, 0)
    {
      var i: bv16 := 0;
      while i < 256
        invariant i <= 256 && NoneBefore(ports.space, l, i, 0)
      {
        var n: bv16 := 0;
        while n < 8
          invariant n <= 8 && NoneBefore(ports.space, l, i, n)
        {
          var place := Place(l as bv8, i as bv8, n as bv8);
          var matches := Probe(ports, place);
          if matches {
            IsFirst(ports.space, l, i, n);
            return Some(place);
          }
          TripleDone(ports.space, l, i, n);
          n := n + 1;
        }
        SlotDone(ports.space, l, i);
        i := i + 1;
      }
      BusDone(ports.space, l);
      l := l + 1;
    }
    return None;
  }

  /** A triple whose slot spills over matches if and only if there is a controller at its true place. */
  lemma TruePlace(space: Space, bus: bv8, slot: bv8, fn: bv8)
    requires fn < 8
    ensures Matches(space, bus, slot, fn) <==> Controller(space, bus | (slot >> 5), slot & 31, fn)
  {
    SlotSpillsIntoBus(bus, slot, 0, 0);
    SlotSpillsIntoBus(bus, slot, fn, CLASS_OFFSET);
    assert slot & 31 < 32;
  }

  /** The scan finds something if and only if there is a controller anywhere. */
  lemma ScanFindsIffPresent(space: Space, found: Option<Place>)
    requires found.Some? ==> First(space, found.value)
    requires found.None? ==> NoneBefore(space, 256, 0, 0)
    ensures found.Some? <==> exists bus, device, fn :: Controller(space, bus, device, fn)
  {
    if found.Some? {
      var p := found.value;
      TruePlace(space, p.bus, p.slot, p.fn);
    } else {
      forall bus, device, fn
        ensures !Controller(space, bus, device, fn)
      {
        if device < 32 && fn < 8 {
          AllDone(space, bus, device, fn);
        }
      }
    }
  }

  lemma Spill(bus: bv8, slot: bv8)
    ensures var b, s := bus & 0xF8, (((bus & 7) | (slot >> 5)) << 5) | (slot & 31);
      && b | (s >> 5) == bus | (slot >> 5)
      && s & 31 == slot & 31
      && (b == bus || b < bus)
      && (bus | (slot >> 5)) & 0xF8 == b
  {
  }

  /** The same place with the three low bits of the bus in the slot number. */
  function Spilled(p: Place): Place {
    Place(p.bus & 0xF8, (((p.bus & 7) | (p.slot >> 5)) << 5) | (p.slot & 31), p.fn)
  }

  lemma SpilledMatches(space: Space, p: Place)
    requires p.fn < 8 && Matches(space, p.bus, p.slot, p.fn)
    ensures Matches(space, Spilled(p).bus, Spilled(p).slot, p.fn)
  {
    TruePlace(space, p.bus, p.slot, p.fn);
    TruePlace(space, Spilled(p).bus, Spilled(p).slot, p.fn);
    Spill(p.bus, p.slot);
  }

  lemma SpilledBus(p: Place)
    ensures Spilled(p).bus == p.bus || Spilled(p).bus < p.bus
  {
  }

  /** The reported bus is a multiple of 8: the spilled place matches too, and comes earlier. */
  lemma ReportedBus(space: Space, p: Place)
    requires First(space, p)
    ensures p.bus & 0xF8 == p.bus
  {
    SpilledMatches(space, p);
    SpilledBus(p);
    assert Earlier(Spilled(p).bus, Spilled(p).slot, p.fn, p) <== Spilled(p).bus < p.bus;
  }

  // ----- Which controller is reported, and under which coordinates -----

  /** Where a triple of the scan really is. */
  function TrueOf(p: Place): Place {
    Place(p.bus | (p.slot >> 5), p.slot & 31, p.fn)
  }

  /** The first triple under which the scan meets a true place: the three low bits of the bus are in the slot. */
  function ReportOf(c: Place): Place {
    Place(c.bus & 0xF8, ((c.bus & 7) << 5) | c.slot, c.fn)
  }

  /** The controller with the lowest bus, then device, then function. */
  ghost predicate Least(space: Space, c: Place) {
    && Controller(space, c.bus, c.slot, c.fn)
    && forall bus, device, fn :: Controller(space, bus, device, fn) ==> !Earlier(bus, device, fn, c)
  }

  lemma BusOrderKept(b: bv8, d: bv8, c: bv8, e: bv8)
    requires d < 32 && e < 32 && b < c
    ensures b & 0xF8 < c & 0xF8 || (b & 0xF8 == c & 0xF8 && ((b & 7) << 5) | d < ((c & 7) << 5) | e)
  {
  }

  lemma SlotOrderKept(b: bv8, d: bv8, e: bv8)
    requires d < e < 32
    ensures ((b & 7) << 5) | d < ((b & 7) << 5) | e
  {
  }

  lemma LaterBusKept(b: Place, c: Place)
    requires b.slot < 32 && c.slot < 32 && b.bus < c.bus
    ensures Earlier(ReportOf(b).bus, ReportOf(b).slot, b.fn, ReportOf(c))
  {
    BusOrderKept(b.bus, b.slot, c.bus, c.slot);
  }

  lemma LaterSlotKept(b: Place, c: Place)
    requires b.bus == c.bus && b.slot < c.slot < 32
    ensures Earlier(ReportOf(b).bus, ReportOf(b).slot, b.fn, ReportOf(c))
  {
    SlotOrderKept(b.bus, b.slot, c.slot);
  }

  /** The scan meets true places in their own order. */
  lemma ReportsKeepOrder(b: Place, c: Place)
    requires b.slot < 32 && c.slot < 32 && Earlier(b.bus, b.slot, b.fn, c)
    ensures Earlier(ReportOf(b).bus, ReportOf(b).slot, b.fn, ReportOf(c))
  {
    if b.bus < c.bus {
      LaterBusKept(b, c);
    } else if b.slot < c.slot {
      LaterSlotKept(b, c);
    } else {
      assert ReportOf(b).bus == ReportOf(c).bus && ReportOf(b).slot == ReportOf(c).slot;
    }
  }

  lemma TrueOfReport(c: Place)
    requires c.slot < 32
    ensures TrueOf(ReportOf(c)) == c
    ensures ReportOf(c) == c <==> c.bus & 7 == 0
  {
  }

  lemma ReportOfTrue(p: Place)
    requires p.bus & 0xF8 == p.bus
    ensures ReportOf(TrueOf(p)) == p && TrueOf(p).slot < 32
  {
  }

  lemma ReportMatches(space: Space, c: Place)
    requires Controller(space, c.bus, c.slot, c.fn)
    ensures Matches(space, ReportOf(c).bus, ReportOf(c).slot, c.fn)
  {
    TrueOfReport(c);
    var r := ReportOf(c);
    TruePlace(space, r.bus, r.slot, r.fn);
    assert Controller(space, TrueOf(r).bus, TrueOf(r).slot, r.fn);
  }

  /** What the scan finds first is really the least controller. */
  lemma FirstIsLeast(space: Space, p: Place)
    requires First(space, p)
    ensures Least(space, TrueOf(p)) && p == ReportOf(TrueOf(p))
  {
    var c := TrueOf(p);
    TruePlace(space, p.bus, p.slot, p.fn);
    ReportedBus(space, p);
    ReportOfTrue(p);
    forall bus, device, fn | Controller(space, bus, device, fn)
      ensures !Earlier(bus, device, fn, c)
    {
      var b := Place(bus, device, fn);
      ReportMatches(space, b);
      if Earlier(bus, device, fn, c) {
        ReportsKeepOrder(b, c);
      }
    }
  }

  lemma LeastIsUnique(space: Space, b: Place, c: Place)
    requires Least(space, b) && Least(space, c)
    ensures b == c
  {
    assert !Earlier(b.bus, b.slot, b.fn, c) && !Earlier(c.bus, c.slot, c.fn, b);
  }

  /** Of several controllers the scan reports the one with the lowest bus, device and function; and it reports
      it with the three low bits of the bus moved into the slot number, since it tries slots up to 255 on every
      bus. So the report is the controller's own place if and only if its bus is a multiple of 8. */
  lemma ReportedPlace(space: Space, p: Place, c: Place)
    requires First(space, p) && Least(space, c)
    ensures p == ReportOf(c)
    ensures p == c <==> c.bus & 7 == 0
  {
    FirstIsLeast(space, p);
    LeastIsUnique(space, c, TrueOf(p));
    TrueOfReport(c);
  }

  // ----- An example -----

  /** A space with one device: a controller that is function 0 of device 0 on bus 1. */
  function OneController(address: bv32): Option<bv32> {
    if address == 0x8001_0000 then Some(0x2922_8086)
    else if address == 0x8001_0008 then Some(0x0106_0102)
    else None
  }

  lemma PlaceOfExample(bus: bv8, device: bv8, fn: bv8)
    requires device < 32 && fn < 8
    ensures Address(bus, device, fn, CLASS_OFFSET) == 0x8001_0008 <==> bus == 1 && device == 0 && fn == 0
    ensures Address(bus, device, fn, CLASS_OFFSET) != 0x8001_0000
    ensures Address(1, 0, 0, 0) == 0x8001_0000
  {
    AddressIsInjective(bus, device, fn, CLASS_OFFSET, 1, 0, 0, CLASS_OFFSET);
    assert Address(1, 0, 0, CLASS_OFFSET) == 0x8001_0008;
    AddressFields(bus, device, fn, CLASS_OFFSET);
  }

  lemma ExampleClass(bus: bv8, device: bv8, fn: bv8)
    requires device < 32 && fn < 8
    ensures Read16(OneController, bus, device, fn, CLASS_OFFSET) == SATA_CLASS <==> bus == 1 && device == 0 && fn == 0
  {
    PlaceOfExample(bus, device, fn);
    assert HalfOf(0xFFFF_FFFF, CLASS_OFFSET) == 0xFFFF;
    assert HalfOf(0x0106_0102, CLASS_OFFSET) == SATA_CLASS;
  }

  /** That controller is reported as slot 32 of bus 0, which is not its place. */
  lemma ControllerOnBusOne(p: Place)
    requires First(OneController, p)
    ensures Least(OneController, Place(1, 0, 0)) && p == Place(0, 32, 0)
  {
    forall bus: bv8, device: bv8, fn: bv8
      ensures Controller(OneController, bus, device, fn) <==> bus == 1 && device == 0 && fn == 0
    {
      if device < 32 && fn < 8 {
        ExampleClass(bus, device, fn);
      }
      ExampleExists();
    }
    ReportedPlace(OneController, p, Place(1, 0, 0));
  }

  lemma ExampleExists()
    ensures Exists(OneController, 1, 0)
  {
    PlaceOfExample(1, 0, 0);
    assert HalfOf(0x2922_8086, 0) == 0x8086;
  }
}
