/** The 24-bit SSFC register: written as one byte and one 16-bit word, read as
    the low 24 bits of an unaligned 32-bit word. */
module SoftwareSequencing {
  import opened Bits
  import opened Fields
  import opened Memory
  import opened Registers

  function DecodeSsfc(w: word32): Ssfc {
    hide Value, Test;
    Pow2Table();
    ValueAt(w, 23, 19, 0x8_0000, 32);
    ValueAt(w, 18, 16, 0x1_0000, 8);
    ValueAt(w, 13, 8, 0x100, 64);
    ValueAt(w, 6, 4, 16, 8);
    Ssfc(Value(w, 23, 19), Value(w, 18, 16), Test(w, 15), Test(w, 14), Value(w, 13, 8), Test(w, 7),
         Value(w, 6, 4), Test(w, 3), Test(w, 2), Test(w, 1), Test(w, 0))
  }

  /** The first store. Its reserved bits come from the one-bit field reserved7,
      not from reserved23, as the source has it. */
  function TopFields(s: Ssfc): (r: seq<Field>)
    ensures Descending(r)
  {
    [Field(Flag(s.reserved7), 7, 3), Field(s.scf, 2, 0)]
  }

  function Top(s: Ssfc): byte {
    Pack(TopFields(s)) % 0x100
  }

  /** The second store. */
  function RestFields(s: Ssfc): (r: seq<Field>)
    ensures Descending(r)
  {
    [Field(Flag(s.sme), 15, 15), Field(Flag(s.ds), 14, 14), Field(s.dbc, 13, 8),
     Field(Flag(s.reserved7), 7, 7), Field(s.cop, 6, 4), Field(Flag(s.spop), 3, 3),
     Field(Flag(s.acs), 2, 2), Field(Flag(s.scgo), 1, 1), Field(Flag(s.reserved0), 0, 0)]
  }

  function Rest(s: Ssfc): word16 {
    Pack(RestFields(s)) % 0x1_0000
  }

  /** The 24-bit value the two stores carry. */
  function Assembled(s: Ssfc): nat {
    0x1_0000 * Top(s) as int + Rest(s)
  }

  /** WriteSsfcRegister: the byte at the register's address, then the word after it. */
  function WriteSsfc(m: seq<byte>, at: nat, s: Ssfc): (r: seq<byte>)
    requires at + 4 <= |m|
    ensures |r| == |m|
  {
    Store16(Store8(m, at, Top(s)), at + 1, Rest(s))
  }

  function Stored24(m: seq<byte>, at: nat): nat
    requires at + 4 <= |m|
  {
    Load32(m, at) % 0x100_0000
  }

  lemma TopBits(s: Ssfc)
    ensures Top(s) == 8 * Flag(s.reserved7) + s.scf
  {
    hide Pack, Value, Pow2, Descending;
    var fs := TopFields(s);
    Pow2Table();
    PackFits(fs, 8, 0x100);
    PackedAt(fs, 0, Flag(s.reserved7), 7, 3, 8, 32);
    PackedAt(fs, 1, s.scf, 2, 0, 1, 8);
  }

  lemma RestHighBits(s: Ssfc)
    ensures var w := Rest(s);
            && w / 0x8000 % 2 == Flag(s.sme) && w / 0x4000 % 2 == Flag(s.ds) && w / 0x100 % 64 == s.dbc
            && w / 128 % 2 == Flag(s.reserved7)
  {
    hide Pack, Value, Pow2, Descending;
    var fs := RestFields(s);
    Pow2Table();
    PackFits(fs, 16, 0x1_0000);
    PackedAt(fs, 0, Flag(s.sme), 15, 15, 0x8000, 2);
    PackedAt(fs, 1, Flag(s.ds), 14, 14, 0x4000, 2);
    PackedAt(fs, 2, s.dbc, 13, 8, 0x100, 64);
    PackedAt(fs, 3, Flag(s.reserved7), 7, 7, 128, 2);
  }

  lemma RestLowBits(s: Ssfc)
    ensures var w := Rest(s);
            && w / 16 % 8 == s.cop && w / 8 % 2 == Flag(s.spop)
            && w / 4 % 2 == Flag(s.acs) && w / 2 % 2 == Flag(s.scgo) && w % 2 == Flag(s.reserved0)
  {
    hide Pack, Value, Pow2, Descending;
    var fs := RestFields(s);
    Pow2Table();
    PackFits(fs, 16, 0x1_0000);
    PackedAt(fs, 4, s.cop, 6, 4, 16, 8);
    PackedAt(fs, 5, Flag(s.spop), 3, 3, 8, 2);
    PackedAt(fs, 6, Flag(s.acs), 2, 2, 4, 2);
    PackedAt(fs, 7, Flag(s.scgo), 1, 1, 2, 2);
    PackedAt(fs, 8, Flag(s.reserved0), 0, 0, 1, 2);
  }

  /** Reading back after the write gives the assembled value rotated left by one
      byte, and no other byte of the window changes. The value survives exactly
      when its three bytes are equal. */
  lemma SsfcRotates(m: seq<byte>, at: nat, s: Ssfc)
    requires at + 4 <= |m|
    ensures var m' := WriteSsfc(m, at, s);
            var a := Assembled(s);
            && Stored24(m', at) == a * 0x100 % 0x100_0000 + a / 0x1_0000
            && (Stored24(m', at) == a <==> a % 0x100 == a / 0x100 % 0x100 == a / 0x1_0000)
            && (forall i :: 0 <= i < |m| && !(at <= i < at + 3) ==> m'[i] == m[i])
  {
    hide Top, Rest;
    StoredBytes(m, at, s);
    var top: int, lo: int, hi: int := Top(s), Rest(s) % 0x100, Rest(s) / 0x100;
    var a := Assembled(s);
    assert a == 0x1_0000 * top + 0x100 * hi + lo;
    ThreeBytes(lo, hi, top);
  }

  lemma StoredBytes(m: seq<byte>, at: nat, s: Ssfc)
    requires at + 4 <= |m|
    ensures Stored24(WriteSsfc(m, at, s), at) == Top(s) as int + 0x100 * (Rest(s) as int)
  {
    hide Top, Rest;
    var m' := WriteSsfc(m, at, s);
    assert m'[at] == Top(s) && m'[at + 1] == Rest(s) % 0x100 && m'[at + 2] == Rest(s) / 0x100;
    var low := Top(s) as int + 0x100 * (Rest(s) as int);
    assert Load32(m', at) == low + 0x100_0000 * (m'[at + 3] as int);
  }

  lemma ThreeBytes(b0: nat, b1: nat, b2: nat)
    requires b0 < 0x100 && b1 < 0x100 && b2 < 0x100
    ensures var a := b0 + 0x100 * b1 + 0x1_0000 * b2;
            && a % 0x100 == b0 && a / 0x100 % 0x100 == b1 && a / 0x1_0000 == b2
            && a * 0x100 % 0x100_0000 == 0x100 * b0 + 0x1_0000 * b1
  {
    var a := b0 + 0x100 * b1 + 0x1_0000 * b2;
    assert a / 0x100 == b1 + 0x100 * b2;
    assert a * 0x100 == 0x100 * b0 + 0x1_0000 * b1 + 0x100_0000 * b2;
  }

  lemma DecodeSsfcBits(w: word32)
    ensures var s := DecodeSsfc(w);
            var r := w % 0x1_0000;
            && s.reserved23 == w / 0x8_0000 % 32 && s.scf == w / 0x1_0000 % 8
            && Flag(s.sme) == r / 0x8000 % 2 && Flag(s.ds) == r / 0x4000 % 2 && s.dbc == r / 0x100 % 64
            && Flag(s.reserved7) == r / 128 % 2 && s.cop == r / 16 % 8 && Flag(s.spop) == r / 8 % 2
            && Flag(s.acs) == r / 4 % 2 && Flag(s.scgo) == r / 2 % 2 && Flag(s.reserved0) == r % 2
  {
    hide Value, Test, Pow2;
    Pow2Table();
    ValueAt(w, 23, 19, 0x8_0000, 32);
    ValueAt(w, 18, 16, 0x1_0000, 8);
    LowField(w, 15, 15, 0x8000, 2);
    LowField(w, 14, 14, 0x4000, 2);
    LowField(w, 13, 8, 0x100, 64);
    LowField(w, 7, 7, 128, 2);
    LowField(w, 6, 4, 16, 8);
    LowField(w, 3, 3, 8, 2);
    LowField(w, 2, 2, 4, 2);
    LowField(w, 1, 1, 2, 2);
    LowField(w, 0, 0, 1, 2);
  }

  /** A field of the low half, taken from the low half alone. */
  lemma LowField(w: nat, msb: nat, lsb: nat, p: nat, q: nat)
    requires lsb <= msb < 16 && p == Pow2(lsb) && q == Pow2(msb - lsb + 1)
    ensures 0 < p && 0 < q && Value(w, msb, lsb) == w % 0x1_0000 / p % q
    ensures msb == lsb ==> Flag(Test(w, lsb)) == w % 0x1_0000 / p % q
  {
    hide Value, Test, Low;
    LowMeaning(w, 16);
    assert Pow2(16) == 0x1_0000 by { Pow2Table(); }
    ValueOfLow(w, 16, msb, lsb);
    ValueAt(w % 0x1_0000, msb, lsb, p, q);
    TestIsValue(w, lsb);
  }

  lemma RestDigits(w: word16)
    ensures w == 0x8000 * (w / 0x8000 % 2) + 0x4000 * (w / 0x4000 % 2) + 0x100 * (w / 0x100 % 64)
                 + 128 * (w / 128 % 2) + 16 * (w / 16 % 8) + 8 * (w / 8 % 2)
                 + 4 * (w / 4 % 2) + 2 * (w / 2 % 2) + w % 2
  {
    Digit(w, 2, 2, 4);
    Digit(w, 4, 2, 8);
    Digit(w, 8, 2, 16);
    Digit(w, 16, 8, 128);
    Digit(w, 128, 2, 0x100);
    Digit(w, 0x100, 64, 0x4000);
    Digit(w, 0x4000, 2, 0x8000);
    Digit(w, 0x8000, 2, 0x1_0000);
  }

  /** A stored value decodes to s exactly when its top byte is reserved23 and SCF
      of s and its low half is the second store. */
  lemma DecodesTo(w: word32, s: Ssfc)
    ensures DecodeSsfc(w) == s <==>
            w / 0x1_0000 % 0x100 == 8 * s.reserved23 + s.scf && w % 0x1_0000 == Rest(s)
  {
    hide DecodeSsfc, Rest;
    var d := DecodeSsfc(w);
    DecodeSsfcBits(w);
    RestHighBits(s);
    RestLowBits(s);
    Digit(w / 0x1_0000, 8, 32, 0x100);
    assert w / 0x1_0000 / 8 == w / 0x8_0000;
    if d == s {
      SameRest(w % 0x1_0000, Rest(s));
    }
  }

  lemma SameRest(v: word16, w: word16)
    requires v / 0x8000 % 2 == w / 0x8000 % 2 && v / 0x4000 % 2 == w / 0x4000 % 2
    requires v / 0x100 % 64 == w / 0x100 % 64 && v / 128 % 2 == w / 128 % 2
    requires v / 16 % 8 == w / 16 % 8 && v / 8 % 2 == w / 8 % 2
    requires v / 4 % 2 == w / 4 % 2 && v / 2 % 2 == w / 2 % 2 && v % 2 == w % 2
    ensures v == w
  {
    RestDigits(v);
    RestDigits(w);
  }

  /** Write then read returns the struct that was written exactly when reserved23
      equals the one-bit reserved7 and the three stored bytes are equal. */
  lemma SsfcReadBack(m: seq<byte>, at: nat, s: Ssfc)
    requires at + 4 <= |m|
    ensures DecodeSsfc(Load32(WriteSsfc(m, at, s), at)) == s
            <==> s.reserved23 == Flag(s.reserved7) && Top(s) == Rest(s) % 0x100 == Rest(s) / 0x100
  {
    hide DecodeSsfc, Top, Rest, WriteSsfc, Load32;
    StoredBytes(m, at, s);
    var w := Load32(WriteSsfc(m, at, s), at);
    TopBits(s);
    DecodesTo(w, s);
    RotatedHalves(w, Top(s), Rest(s));
    HalvesMatch(Top(s), Rest(s), s.reserved23, Flag(s.reserved7), s.scf);
  }

  /** SCGO reads back from the first store: it is bit 1 of the cycle frequency,
      whatever SCGO was written. */
  lemma SsfcGoBit(m: seq<byte>, at: nat, s: Ssfc)
    requires at + 4 <= |m|
    ensures Flag(DecodeSsfc(Load32(WriteSsfc(m, at, s), at)).scgo) == s.scf / 2 % 2
  {
    hide DecodeSsfc, Top, Rest, WriteSsfc, Load32;
    StoredBytes(m, at, s);
    var w := Load32(WriteSsfc(m, at, s), at);
    RotatedHalves(w, Top(s), Rest(s));
    ScgoBit(w);
    TopGoBit(s);
  }

  lemma ScgoBit(w: word32)
    ensures Flag(DecodeSsfc(w).scgo) == w % 0x1_0000 / 2 % 2
  {
    hide Value, Test, Pow2;
    Pow2Table();
    LowField(w, 1, 1, 2, 2);
  }

  lemma TopGoBit(s: Ssfc)
    ensures Top(s) / 2 % 2 == s.scf / 2 % 2
  {
    hide Top;
    TopBits(s);
    assert Top(s) / 2 == 4 * Flag(s.reserved7) + s.scf / 2;
  }

  lemma HalvesMatch(top: byte, rest: word16, reserved23: bits5, reserved7: nat, scf: bits3)
    requires reserved7 <= 1 && top == 8 * reserved7 + scf
    ensures rest / 0x100 == 8 * reserved23 + scf && top as int + 0x100 * (rest as int % 0x100) == rest
            <==> reserved23 == reserved7 && top == rest % 0x100 == rest / 0x100
  {
  }

  /** The halves of a word whose low 24 bits are top + 256 * rest. */
  lemma RotatedHalves(w: word32, top: byte, rest: word16)
    requires w % 0x100_0000 == top as int + 0x100 * (rest as int)
    ensures w / 0x1_0000 % 0x100 == rest / 0x100
    ensures w % 0x1_0000 == top as int + 0x100 * (rest as int % 0x100)
    ensures w % 0x1_0000 / 2 % 2 == top / 2 % 2
  {
    var hi, lo := rest as int / 0x100, rest as int % 0x100;
    var k := w / 0x100_0000;
    assert w == 0x100_0000 * k + top as int + 0x100 * lo + 0x1_0000 * hi;
    assert w / 0x1_0000 == 0x100 * k + hi;
    assert w % 0x1_0000 == top as int + 0x100 * lo;
    assert (top as int + 0x100 * lo) / 2 == top as int / 2 + 0x80 * lo;
  }
}
