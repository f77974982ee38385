/** PCI configuration access through the address port 0xCF8 and the data port
    0xCFC (pawn/pci.h, pawn/pci.cc), against section 3.2.2.3.2 of the PCI Local
    Bus Specification 3.0. */
module PciConfig {
  import opened Bits
  import opened Fields
  import opened Memory

  /** A byte of configuration space. */
  datatype Location = Location(bus: nat, device: nat, func: nat, offset: nat) {
    predicate InRange() {
      bus < 0x100 && device < 32 && func < 8 && offset < 0x100
    }
  }

  // ---------------------------------------------------------------------
  // MakeConfigAddress
  // ---------------------------------------------------------------------

  function AddressFields(bus: int, device: int, func: int, offset: int): (r: seq<Field>)
    ensures Descending(r)
  {
    [Field(1, 31, 31), Field(bus, 23, 16), Field(device, 15, 11), Field(func, 10, 8), Field(offset, 7, 0)]
  }

  function MakeConfigAddress(bus: int, device: int, func: int, offset: int): word32 {
    AddressBound(bus, device, func, offset);
    Pack(AddressFields(bus, device, func, offset))
  }

  lemma AddressBound(bus: int, device: int, func: int, offset: int)
    ensures Pack(AddressFields(bus, device, func, offset)) < 0x1_0000_0000
  {
    hide Pack, Pow2;
    PackBound(AddressFields(bus, device, func, offset), 32);
    Pow2Table();
  }

  /** The address is the sum of its fields: arguments out of range wrap, and bits
      30..24 are zero. */
  lemma AddressValue(bus: int, device: int, func: int, offset: int)
    ensures MakeConfigAddress(bus, device, func, offset)
            == 0x8000_0000 + 0x1_0000 * (bus % 0x100) + 0x800 * (device % 32) + 0x100 * (func % 8) + offset % 0x100
  {
    hide Pack, Pow2, Descending, Value;
    var fs := AddressFields(bus, device, func, offset);
    var a := MakeConfigAddress(bus, device, func, offset);
    Pow2Table();
    PackedAt(fs, 0, 1, 31, 31, 0x8000_0000, 2);
    PackedAt(fs, 1, bus, 23, 16, 0x1_0000, 0x100);
    PackedAt(fs, 2, device, 15, 11, 0x800, 32);
    PackedAt(fs, 3, func, 10, 8, 0x100, 8);
    PackedAt(fs, 4, offset, 7, 0, 1, 0x100);
    GapOfPack(fs, 30, 24);
    ValueMeaning(a, 30, 24);
    assert a / 0x100_0000 % 128 == 0;
    AddressDigits(a);
  }

  lemma AddressDigits(a: word32)
    ensures a == 0x8000_0000 * (a / 0x8000_0000 % 2) + 0x100_0000 * (a / 0x100_0000 % 128)
                 + 0x1_0000 * (a / 0x1_0000 % 0x100) + 0x800 * (a / 0x800 % 32)
                 + 0x100 * (a / 0x100 % 8) + a % 0x100
  {
    Digit(a, 0x100, 8, 0x800);
    Digit(a, 0x800, 32, 0x1_0000);
    Digit(a, 0x1_0000, 0x100, 0x100_0000);
    Digit(a, 0x100_0000, 128, 0x8000_0000);
    Digit(a, 0x8000_0000, 2, 0x1_0000_0000);
  }

  /** The decoder of the enable bit's companion fields. */
  function DecodeAddress(a: word32): Location {
    Location(a / 0x1_0000 % 0x100, a / 0x800 % 32, a / 0x100 % 8, a % 0x100)
  }

  /** Decoding recovers every in-range location, so distinct locations get
      distinct addresses. */
  lemma AddressRoundTrip(l: Location)
    requires l.InRange()
    ensures DecodeAddress(MakeConfigAddress(l.bus, l.device, l.func, l.offset)) == l
  {
    hide MakeConfigAddress;
    AddressOfLocation(l);
    FieldsOfSum(l.bus, l.device, l.func, l.offset);
  }

  lemma FieldsOfSum(bus: nat, device: nat, func: nat, offset: nat)
    requires bus < 0x100 && device < 32 && func < 8 && offset < 0x100
    ensures var a := 0x8000_0000 + 0x1_0000 * bus + 0x800 * device + 0x100 * func + offset;
            a / 0x1_0000 % 0x100 == bus && a / 0x800 % 32 == device && a / 0x100 % 8 == func && a % 0x100 == offset
  {
    var low := 0x100 * func + offset;
    var a := 0x8000_0000 + 0x1_0000 * bus + 0x800 * device + low;
    DivModUnique(a, 0x1_0000, 0x8000 + bus, 0x800 * device + low);
    DivModUnique(0x8000 + bus, 0x100, 0x80, bus);
    DivModUnique(a, 0x800, 0x10_0000 + 32 * bus + device, low);
    DivModUnique(0x10_0000 + 32 * bus + device, 32, 0x8000 + bus, device);
    DivModUnique(a, 0x100, 0x80_0000 + 0x100 * bus + 8 * device + func, offset);
    DivModUnique(0x80_0000 + 0x100 * bus + 8 * device + func, 8, 0x10_0000 + 32 * bus + device, func);
  }

  lemma AddressInjective(l: Location, k: Location)
    requires l.InRange() && k.InRange()
    ensures MakeConfigAddress(l.bus, l.device, l.func, l.offset)
            == MakeConfigAddress(k.bus, k.device, k.func, k.offset)
            <==> l == k
  {
    hide MakeConfigAddress;
    AddressRoundTrip(l);
    AddressRoundTrip(k);
  }

  // ---------------------------------------------------------------------
  // The host bridge
  // ---------------------------------------------------------------------

  /** Configuration space as a flat array of 2^24 bytes. */
  type Space = nat -> byte

  function FlatIndex(l: Location): nat {
    0x1_0000 * l.bus + 0x800 * l.device + 0x100 * l.func + l.offset
  }

  /** n bytes from index `at`, little-endian. */
  function FlatRead(space: Space, at: nat, n: nat): nat
    decreases n
  {
    if n == 0 then 0 else space(at) as int + 0x100 * FlatRead(space, at + 1, n - 1)
  }

  /** An access width the processor can make on the data port. */
  predicate Width(n: nat) { n == 1 || n == 2 || n == 4 }

  /** x rounded down to a multiple of the access width. */
  function RoundDown(x: nat, n: nat): nat {
    if n == 4 then x - x % 4 else if n == 2 then x - x % 2 else x
  }

  /** The specification of an n-byte read: the flat space at the location, its
      offset rounded down to the access width. */
  function FlatValue(space: Space, l: Location, n: nat): nat {
    FlatRead(space, FlatIndex(l.(offset := RoundDown(l.offset, n))), n)
  }

  /** What the address port keeps of a write: bits 1..0 are hard-wired to zero. */
  function Latch(v: word32): word32 {
    v - v % 4
  }

  /** A data-port access of n bytes at 0xCFC + k: the bridge selects the doubleword
      named by bits 23..2 of the address port when bit 31 enables it. */
  function DataPort(space: Space, port: word32, k: nat, n: nat): nat {
    if port / 0x8000_0000 == 1 then FlatRead(space, port % 0x100_0000 / 4 * 4 + k, n)
    else Pow2(8 * n) - 1
  }

  /** The address port after a read: the reserved bits as they were, OR the address. */
  function NextPort(port: word32, config: word32): word32 {
    PortBound(port, config);
    Latch(Or(config, And(port, 0x7F00_0000)))
  }

  /** The byte lane of the data port for an n-byte access. */
  function Lane(config: word32, n: nat): nat
    requires n <= 4
  {
    And(config, 4 - n)
  }

  lemma PortBound(port: word32, config: word32)
    ensures Or(config, And(port, 0x7F00_0000)) < 0x1_0000_0000
  {
    hide And, Or, Pow2;
    Pow2Table();
    ReservedBits(port);
    OrBound(config, And(port, 0x7F00_0000), 32);
  }

  lemma ReservedBits(port: word32)
    ensures And(port, 0x7F00_0000) == 0x100_0000 * (port / 0x100_0000 % 128)
  {
    hide And, Pow2, Shl, Shr, Low;
    Pow2Table();
    ShlMeaning(0x7F, 24);
    AndShl(port, 0x7F, 24);
    AndMask(Shr(port, 24), 7);
    LowMeaning(Shr(port, 24), 7);
    ShrMeaning(port, 24);
    ShlMeaning(Low(Shr(port, 24), 7), 24);
  }

  /** The new port value for any address argument: its enable bit and bits 23..2, and
      between them the old reserved bits OR the address's own. */
  lemma NextPortBits(port: word32, config: word32)
    ensures var v := NextPort(port, config);
            && v / 0x8000_0000 == config / 0x8000_0000
            && v / 0x100_0000 % 128 == Or(config / 0x100_0000 % 128, port / 0x100_0000 % 128)
            && v % 0x100_0000 == config % 0x100_0000 - config % 4
  {
    hide And, Or, Pow2, Shr, Shl, Low;
    Pow2Table();
    var r := port / 0x100_0000 % 128;
    ReservedBits(port);
    var kept := 0x100_0000 * r;
    var v := Or(config, kept);
    OrLowHigh(config, kept, 24);
    LowMeaning(config, 24);
    LowMeaning(kept, 24);
    ShrMeaning(config, 24);
    ShrMeaning(kept, 24);
    OrZero(config % 0x100_0000);
    LowMeaning(v, 24);
    ShrMeaning(v, 24);
    TopByte(config / 0x100_0000, r);
    LatchDigits(v, config);
  }

  /** The reserved bits lie below the enable bit. */
  lemma TopByte(c: nat, r: nat)
    requires c < 0x100 && r < 128
    ensures Or(c, r) / 128 == c / 128 && Or(c, r) % 128 == Or(c % 128, r)
  {
    hide Or, Pow2, Shr, Low;
    Pow2Table();
    OrLowHigh(c, r, 7);
    LowMeaning(c, 7);
    LowMeaning(r, 7);
    ShrMeaning(c, 7);
    ShrMeaning(r, 7);
    OrZero(c / 128);
    LowMeaning(Or(c, r), 7);
    ShrMeaning(Or(c, r), 7);
  }

  lemma LowTwoBits(v: word32)
    ensures v % 4 == v % 0x100_0000 % 4
  {
    var low := v % 0x100_0000;
    DivModUnique(v, 4, 0x40_0000 * (v / 0x100_0000) + low / 4, low % 4);
  }

  lemma LatchDigits(v: word32, config: word32)
    requires v % 0x100_0000 == config % 0x100_0000
    ensures Latch(v) / 0x100_0000 == v / 0x100_0000
    ensures Latch(v) % 0x100_0000 == config % 0x100_0000 - config % 4
    ensures Latch(v) / 0x8000_0000 == v / 0x100_0000 / 128 && config / 0x8000_0000 == config / 0x100_0000 / 128
  {
    var k, c, low := v / 0x100_0000, config / 0x100_0000, v % 0x100_0000;
    LowTwoBits(v);
    LowTwoBits(config);
    DivModUnique(Latch(v), 0x100_0000, k, low - low % 4);
    DivModUnique(Latch(v), 0x8000_0000, k / 128, 0x100_0000 * (k % 128) + low - low % 4);
    DivModUnique(config, 0x8000_0000, c / 128, 0x100_0000 * (c % 128) + low);
  }

  lemma OrZero(x: nat)
    ensures Or(x, 0) == x && Or(0, x) == x
  {
  }

  /** The lane is the offset inside the doubleword, rounded down to the width. */
  lemma LaneValue(config: word32, n: nat)
    requires Width(n)
    ensures Lane(config, n) == RoundDown(config % 4, n)
  {
    Pow2Table();
    if n == 1 {
      hide And;
      AndMask(config, 2);
      LowMeaning(config, 2);
    } else if n == 2 {
      LaneOfWord(config);
    }
  }

  lemma LaneOfWord(config: word32)
    ensures And(config, 2) == config % 4 - config % 4 % 2
  {
    if config != 0 {
      assert And(config / 2, 1) == config / 2 % 2;
    }
  }

  // ---------------------------------------------------------------------
  // Reads refine the flat space
  // ---------------------------------------------------------------------

  /** The value an n-byte config read returns with the port in a given state. */
  function ReadValue(space: Space, port: word32, config: word32, n: nat): nat
    requires n <= 4
  {
    DataPort(space, NextPort(port, config), Lane(config, n), n)
  }

  /** An n-byte read of any address argument, whatever the port held: with the enable
      bit the flat space at bits 23..0 rounded down to the access width, without it all
      ones. The reserved bits of the port are kept exactly when the address's own
      reserved bits are among them. */
  lemma ReadOfAnyAddress(space: Space, port: word32, config: word32, n: nat)
    requires Width(n)
    ensures ReadValue(space, port, config, n)
            == if config / 0x8000_0000 == 1 then FlatRead(space, RoundDown(config % 0x100_0000, n), n)
               else Pow2(8 * n) - 1
    ensures NextPort(port, config) / 0x100_0000 % 128 == port / 0x100_0000 % 128
            <==> Or(config / 0x100_0000 % 128, port / 0x100_0000 % 128) == port / 0x100_0000 % 128
  {
    hide NextPort, Lane, FlatRead, Pow2, Or, RoundDown;
    NextPortBits(port, config);
    LaneValue(config, n);
    LowTwoBits(config);
    SelectedByte(config % 0x100_0000, n);
  }

  lemma SelectedByte(low: nat, n: nat)
    requires Width(n)
    ensures (low - low % 4) / 4 * 4 + RoundDown(low % 4, n) == RoundDown(low, n)
  {
    var q, d := low / 4, low % 4;
    DivModUnique(low - d, 4, q, 0);
    DivModUnique(low, 2, 2 * q + d / 2, d % 2);
  }

  /** An n-byte read returns the little-endian value of the flat space at the
      location, its offset rounded down to the access width; the reserved bits
      30..24 of the port keep their value. */
  lemma ReadRefinesFlat(space: Space, port: word32, l: Location, n: nat)
    requires l.InRange() && Width(n)
    ensures var config := MakeConfigAddress(l.bus, l.device, l.func, l.offset);
            && ReadValue(space, port, config, n) == FlatValue(space, l, n)
            && NextPort(port, config) / 0x100_0000 % 128 == port / 0x100_0000 % 128
  {
    hide MakeConfigAddress, NextPort, ReadValue, FlatRead, FlatIndex, RoundDown, Pow2, Or;
    var config := MakeConfigAddress(l.bus, l.device, l.func, l.offset);
    AddressOfLocation(l);
    ReadOfAnyAddress(space, port, config, n);
    DivModUnique(config, 0x100_0000, 128, FlatIndex(l));
    OrZero(port / 0x100_0000 % 128);
    RoundedOffset(l, n);
  }

  lemma AddressOfLocation(l: Location)
    requires l.InRange()
    ensures FlatIndex(l) < 0x100_0000
    ensures MakeConfigAddress(l.bus, l.device, l.func, l.offset) == 0x8000_0000 + FlatIndex(l)
  {
    hide MakeConfigAddress;
    AddressValue(l.bus, l.device, l.func, l.offset);
    assert l.bus % 0x100 == l.bus && l.device % 32 == l.device && l.func % 8 == l.func && l.offset % 0x100 == l.offset;
  }

  lemma RoundedOffset(l: Location, n: nat)
    requires l.InRange() && Width(n)
    ensures RoundDown(FlatIndex(l), n) == FlatIndex(l.(offset := RoundDown(l.offset, n)))
  {
    var page := 0x100 * l.bus + 8 * l.device + l.func;
    DivModUnique(FlatIndex(l), 4, 64 * page + l.offset / 4, l.offset % 4);
    DivModUnique(FlatIndex(l), 2, 128 * page + l.offset / 2, l.offset % 2);
  }

  /** The value of a read of the byte k after l, with the port holding `port`. */
  function ReadAt(space: Space, port: word32, l: Location, k: nat, n: nat): nat
    requires n <= 4
  {
    ReadValue(space, port, MakeConfigAddress(l.bus, l.device, l.func, l.offset + k), n)
  }

  /** One 32-bit read is two 16-bit reads or four 8-bit reads recombined, whatever
      the port held before each of them. */
  lemma ReadsRecombine(space: Space, l: Location, p: seq<word32>)
    requires l.InRange() && l.offset % 4 == 0 && |p| == 7
    ensures ReadAt(space, p[0], l, 0, 4)
            == ReadAt(space, p[1], l, 0, 2) + 0x1_0000 * ReadAt(space, p[2], l, 2, 2)
    ensures ReadAt(space, p[0], l, 0, 4)
            == ReadAt(space, p[3], l, 0, 1) + 0x100 * ReadAt(space, p[4], l, 1, 1)
               + 0x1_0000 * ReadAt(space, p[5], l, 2, 1) + 0x100_0000 * ReadAt(space, p[6], l, 3, 1)
  {
    hide ReadAt, FlatIndex, FlatRead;
    AlignedPart(space, p[0], l, 0, 4);
    AlignedPart(space, p[1], l, 0, 2);
    AlignedPart(space, p[2], l, 2, 2);
    AlignedPart(space, p[3], l, 0, 1);
    AlignedPart(space, p[4], l, 1, 1);
    AlignedPart(space, p[5], l, 2, 1);
    AlignedPart(space, p[6], l, 3, 1);
    FlatFour(space, FlatIndex(l));
  }

  /** A read that does not straddle its alignment returns the bytes it names. */
  lemma AlignedPart(space: Space, port: word32, l: Location, k: nat, n: nat)
    requires l.InRange() && l.offset % 4 == 0 && Width(n)
    requires k < 4 && RoundDown(k, n) == k
    ensures ReadAt(space, port, l, k, n) == FlatRead(space, FlatIndex(l) + k, n)
  {
    hide ReadValue, MakeConfigAddress, FlatRead, RoundDown;
    ReadRefinesFlat(space, port, l.(offset := l.offset + k), n);
    AlignedOffset(l.offset, k, n);
  }

  lemma AlignedOffset(offset: nat, k: nat, n: nat)
    requires offset % 4 == 0 && Width(n) && k < 4 && RoundDown(k, n) == k
    ensures RoundDown(offset + k, n) == offset + k
  {
    var q := offset / 4;
    if n == 2 {
      DivModUnique(offset + k, 2, 2 * q + k / 2, 0);
    } else if n == 4 {
      DivModUnique(offset + k, 4, q, 0);
    }
  }

  lemma FlatFour(space: Space, at: nat)
    ensures FlatRead(space, at, 4) == FlatRead(space, at, 2) + 0x1_0000 * FlatRead(space, at + 2, 2)
    ensures FlatRead(space, at, 4) == FlatRead(space, at, 1) + 0x100 * FlatRead(space, at + 1, 1)
              + 0x1_0000 * FlatRead(space, at + 2, 1) + 0x100_0000 * FlatRead(space, at + 3, 1)
  {
    assert FlatRead(space, at, 4) == space(at) as int + 0x100 * FlatRead(space, at + 1, 3);
    assert FlatRead(space, at + 1, 3) == space(at + 1) as int + 0x100 * FlatRead(space, at + 2, 2);
  }

  // ---------------------------------------------------------------------
  // Whole runs
  // ---------------------------------------------------------------------

  datatype Read = Read(location: Location, width: nat) {
    predicate Valid() {
      location.InRange() && Width(width)
    }
    function Config(): word32 {
      MakeConfigAddress(location.bus, location.device, location.func, location.offset)
    }
  }

  /** The port after a run of reads. */
  function PortAfter(port: word32, run: seq<Read>): word32 {
    if run == [] then port
    else NextPort(PortAfter(port, run[..|run| - 1]), run[|run| - 1].Config())
  }

  /** The values a run of reads returns. */
  function Values(space: Space, port: word32, run: seq<Read>): (r: seq<nat>)
    requires forall i :: 0 <= i < |run| ==> run[i].Valid()
    ensures |r| == |run|
  {
    if run == [] then []
    else
      var n := |run| - 1;
      assert run[n].Valid();
      Values(space, port, run[..n])
      + [ReadValue(space, PortAfter(port, run[..n]), run[n].Config(), run[n].width)]
  }

  /** Over any run of config reads the reserved bits of the address port keep
      their initial value, and every read returns what the flat space holds,
      independent of the reads before it. */
  lemma {:induction false} RunOfReads(space: Space, port: word32, run: seq<Read>)
    requires forall i :: 0 <= i < |run| ==> run[i].Valid()
    ensures PortAfter(port, run) / 0x100_0000 % 128 == port / 0x100_0000 % 128
    ensures forall i :: 0 <= i < |run| ==>
              Values(space, port, run)[i] == FlatValue(space, run[i].location, run[i].width)
    decreases |run|
  {
    hide NextPort, ReadValue, MakeConfigAddress, FlatValue;
    if run != [] {
      var n := |run| - 1;
      RunOfReads(space, port, run[..n]);
      ReadRefinesFlat(space, PortAfter(port, run[..n]), run[n].location, run[n].width);
    }
  }

  // ---------------------------------------------------------------------
  // The imperative access
  // ---------------------------------------------------------------------

  /** The two I/O ports and the space behind them. */
  class Pci {
    const space: Space
    var port: word32

    constructor (space: Space, port: word32)
      ensures this.space == space && this.port == port
    {
      this.space, this.port := space, port;
    }

    method ReadConfigUint8(config: word32) returns (r: byte)
      modifies this
      ensures r == ReadValue(space, old(port), config, 1)
      ensures r == if config / 0x8000_0000 == 1 then FlatRead(space, RoundDown(config % 0x100_0000, 1), 1)
                   else 0xFF
      ensures port == NextPort(old(port), config)
    {
      hide NextPort, FlatRead, Pow2, Lane;
      Pow2Table();
      ReadOfAnyAddress(space, port, config, 1);
      SelectAddress(config);
      r := InB(Lane(config, 1));
    }

    method ReadConfigUint16(config: word32) returns (r: word16)
      modifies this
      ensures r == ReadValue(space, old(port), config, 2)
      ensures r == if config / 0x8000_0000 == 1 then FlatRead(space, RoundDown(config % 0x100_0000, 2), 2)
                   else 0xFFFF
      ensures port == NextPort(old(port), config)
    {
      hide NextPort, FlatRead, Pow2, Lane;
      Pow2Table();
      ReadOfAnyAddress(space, port, config, 2);
      SelectAddress(config);
      r := InW(Lane(config, 2));
    }

    method ReadConfigUint32(config: word32) returns (r: word32)
      modifies this
      ensures r == ReadValue(space, old(port), config, 4)
      ensures r == if config / 0x8000_0000 == 1 then FlatRead(space, RoundDown(config % 0x100_0000, 4), 4)
                   else 0xFFFF_FFFF
      ensures port == NextPort(old(port), config)
    {
      hide NextPort, FlatRead, Pow2, Lane;
      Pow2Table();
      ReadOfAnyAddress(space, port, config, 4);
      SelectAddress(config);
      r := InL(Lane(config, 4));
    }

    method SelectAddress(config: word32)
      modifies this
      ensures port == NextPort(old(port), config)
    {
      PortBound(port, config);
      var reserved := And(port, 0x7F00_0000);
      port := Latch(Or(config, reserved));
    }

    method InB(k: nat) returns (r: byte)
      ensures r == DataPort(space, port, k, 1)
    {
      hide Pow2;
      Pow2Table();
      FlatBounds(space, port % 0x100_0000 / 4 * 4 + k);
      r := DataPort(space, port, k, 1);
    }

    method InW(k: nat) returns (r: word16)
      ensures r == DataPort(space, port, k, 2)
    {
      hide Pow2;
      Pow2Table();
      FlatBounds(space, port % 0x100_0000 / 4 * 4 + k);
      r := DataPort(space, port, k, 2);
    }

    method InL(k: nat) returns (r: word32)
      ensures r == DataPort(space, port, k, 4)
    {
      hide Pow2;
      Pow2Table();
      FlatBounds(space, port % 0x100_0000 / 4 * 4 + k);
      r := DataPort(space, port, k, 4);
    }
  }

  lemma FlatBounds(space: Space, at: nat)
    ensures FlatRead(space, at, 1) < 0x100
    ensures FlatRead(space, at, 2) < 0x1_0000
    ensures FlatRead(space, at, 4) < 0x1_0000_0000
  {
    assert FlatRead(space, at + 3, 1) < 0x100;
    assert FlatRead(space, at + 2, 2) < 0x1_0000;
    assert FlatRead(space, at + 1, 3) < 0x100_0000;
  }
}
