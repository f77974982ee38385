/** The SPI register codecs of pawn/chipset_intel_ich8.cc, built from the
    helpers of pawn/bits.h exactly as written, over the register structs of
    pawn/chipset.h (each bit-field a subset type of its width). */
module Registers {
  import opened Bits
  import opened Fields
  import opened Memory

  type bits2 = x: nat | x < 4
  type bits3 = x: nat | x < 8
  type bits5 = x: nat | x < 32
  type bits6 = x: nat | x < 64
  type bits7 = x: nat | x < 128
  type bits13 = x: nat | x < 0x2000
  type bits25 = x: nat | x < 0x200_0000

  /** Hardware Sequencing Flash Status. */
  datatype Hsfs = Hsfs(
    flockdn: bool, fdv: bool, fdopss: bool, reserved12: bits7, scip: bool,
    berase: bits2, ael: bool, fcerr: bool, fdone: bool)

  /** Hardware Sequencing Flash Control; FCYCLE 0 is a read. */
  datatype Hsfc = Hsfc(
    fsmie: bool, reserved14: bool, fdbc: bits6, reserved7: bits5, fcycle: bits2, fgo: bool)

  const FCYCLE_READ: bits2 := 0

  /** Flash Address. */
  datatype Faddr = Faddr(reserved25: bits7, fla: bits25)

  /** Software Sequencing Flash Status. */
  datatype Ssfs = Ssfs(reserved7: bits3, ael: bool, fcerr: bool, done: bool, reserved1: bool, scip: bool)

  /** Software Sequencing Flash Control. */
  datatype Ssfc = Ssfc(
    reserved23: bits5, scf: bits3, sme: bool, ds: bool, dbc: bits6, reserved7: bool,
    cop: bits3, spop: bool, acs: bool, scgo: bool, reserved0: bool)

  /** Root Complex Base Address. */
  datatype Rcba = Rcba(baseAddress: word32, enable: bool)

  datatype Bfpr = Bfpr(reserved31: bits3, limit: word32, reserved15: bits3, base: word32)
  datatype Freg = Freg(reserved31: bits3, limit: bits13, reserved15: bits3, base: bits13)
  datatype Pr = Pr(writeProtect: bool, reserved30: bits2, limit: bits13,
                   readProtect: bool, reserved14: bits2, base: bits13)
  datatype Frap = Frap(bmwag: byte, bmrag: byte, brwa: byte, brra: byte)

  // ---------------------------------------------------------------------
  // HSFS
  // ---------------------------------------------------------------------

  function DecodeHsfs(w: word16): Hsfs {
    Pow2Table();
    ValueAt(w, 12, 6, 64, 128);
    ValueAt(w, 4, 3, 8, 4);
    Hsfs(Test(w, 15), Test(w, 14), Test(w, 13), Value(w, 12, 6), Test(w, 5),
         Value(w, 4, 3), Test(w, 2), Test(w, 1), Test(w, 0))
  }

  /** BERASE goes through Set<4>, one bit wide, although it is read as <4, 3>. */
  function HsfsFields(h: Hsfs): (r: seq<Field>)
    ensures Descending(r)
  {
    [Field(Flag(h.flockdn), 15, 15), Field(Flag(h.fdv), 14, 14), Field(Flag(h.fdopss), 13, 13),
     Field(h.reserved12, 12, 6), Field(Flag(h.scip), 5, 5), Field(h.berase, 4, 4),
     Field(Flag(h.ael), 2, 2), Field(Flag(h.fcerr), 1, 1), Field(Flag(h.fdone), 0, 0)]
  }

  function EncodeHsfs(h: Hsfs): word16 {
    Pack(HsfsFields(h)) % 0x1_0000
  }

  lemma DecodeHsfsBits(w: word16)
    ensures var h := DecodeHsfs(w);
            && Flag(h.flockdn) == w / 0x8000 % 2 && Flag(h.fdv) == w / 0x4000 % 2
            && Flag(h.fdopss) == w / 0x2000 % 2 && h.reserved12 == w / 64 % 128
            && Flag(h.scip) == w / 32 % 2 && h.berase == w / 8 % 4
            && Flag(h.ael) == w / 4 % 2 && Flag(h.fcerr) == w / 2 % 2 && Flag(h.fdone) == w % 2
  {
    hide Value, Test, Pow2;
    Pow2Table();
    ValueAt(w, 12, 6, 64, 128);
    ValueAt(w, 4, 3, 8, 4);
    TestAt(w, 15, 0x8000);
    TestAt(w, 14, 0x4000);
    TestAt(w, 13, 0x2000);
    TestAt(w, 5, 32);
    TestAt(w, 2, 4);
    TestAt(w, 1, 2);
    TestAt(w, 0, 1);
  }

  lemma EncodeHsfsHighBits(h: Hsfs)
    ensures var w := EncodeHsfs(h);
            && w / 0x8000 % 2 == Flag(h.flockdn) && w / 0x4000 % 2 == Flag(h.fdv)
            && w / 0x2000 % 2 == Flag(h.fdopss) && w / 64 % 128 == h.reserved12
            && w / 32 % 2 == Flag(h.scip)
  {
    hide Pack, Value, Pow2, Descending;
    var fs := HsfsFields(h);
    Pow2Table();
    PackFits(fs, 16, 0x1_0000);
    PackedAt(fs, 0, Flag(h.flockdn), 15, 15, 0x8000, 2);
    PackedAt(fs, 1, Flag(h.fdv), 14, 14, 0x4000, 2);
    PackedAt(fs, 2, Flag(h.fdopss), 13, 13, 0x2000, 2);
    PackedAt(fs, 3, h.reserved12, 12, 6, 64, 128);
    PackedAt(fs, 4, Flag(h.scip), 5, 5, 32, 2);
  }

  lemma EncodeHsfsLowBits(h: Hsfs)
    ensures var w := EncodeHsfs(h);
            && w / 16 % 2 == h.berase % 2 && w / 8 % 2 == 0
            && w / 4 % 2 == Flag(h.ael) && w / 2 % 2 == Flag(h.fcerr) && w % 2 == Flag(h.fdone)
  {
    hide Pack, Value, Pow2, Descending;
    var fs := HsfsFields(h);
    Pow2Table();
    PackFits(fs, 16, 0x1_0000);
    PackedAt(fs, 5, h.berase, 4, 4, 16, 2);
    PackedAt(fs, 6, Flag(h.ael), 2, 2, 4, 2);
    PackedAt(fs, 7, Flag(h.fcerr), 1, 1, 2, 2);
    PackedAt(fs, 8, Flag(h.fdone), 0, 0, 1, 2);
    GapOfPack(fs, 3, 3);
    ValueAt(Pack(fs), 3, 3, 8, 2);
  }

  /** Every HSFS field survives a write and a read except BERASE, which comes
      back as twice its low bit. */
  lemma HsfsReadBack(h: Hsfs)
    ensures DecodeHsfs(EncodeHsfs(h)) == h.(berase := 2 * (h.berase % 2))
  {
    hide DecodeHsfs, EncodeHsfs;
    EncodeHsfsHighBits(h);
    EncodeHsfsLowBits(h);
    DecodeHsfsBits(EncodeHsfs(h));
    BeraseDigits(EncodeHsfs(h));
  }

  /** Writing back what was read leaves the register as it was exactly when
      BERASE is zero. */
  lemma HsfsWriteBack(w: word16)
    ensures EncodeHsfs(DecodeHsfs(w)) == w <==> DecodeHsfs(w).berase == 0
  {
    hide DecodeHsfs, EncodeHsfs;
    var h := DecodeHsfs(w);
    var v := EncodeHsfs(h);
    DecodeHsfsBits(w);
    EncodeHsfsHighBits(h);
    EncodeHsfsLowBits(h);
    BeraseDigits(v);
    HsfsDifference(v, w);
  }

  /** Two words that agree on every field but BERASE differ by BERASE. */
  lemma HsfsDifference(v: word16, w: word16)
    requires v / 0x8000 % 2 == w / 0x8000 % 2 && v / 0x4000 % 2 == w / 0x4000 % 2
    requires v / 0x2000 % 2 == w / 0x2000 % 2 && v / 64 % 128 == w / 64 % 128
    requires v / 32 % 2 == w / 32 % 2 && v / 4 % 2 == w / 4 % 2
    requires v / 2 % 2 == w / 2 % 2 && v % 2 == w % 2
    ensures v - w == 8 * (v / 8 % 4 - w / 8 % 4)
  {
    HsfsDigits(v);
    HsfsDigits(w);
  }

  lemma BeraseDigits(w: word16)
    ensures w / 8 % 4 == w / 8 % 2 + 2 * (w / 16 % 2)
  {
    Digit(w / 8, 2, 2, 4);
    assert w / 8 / 2 == w / 16;
  }

  lemma HsfsDigits(w: word16)
    ensures w == 0x8000 * (w / 0x8000 % 2) + 0x4000 * (w / 0x4000 % 2) + 0x2000 * (w / 0x2000 % 2)
                 + 64 * (w / 64 % 128) + 32 * (w / 32 % 2) + 8 * (w / 8 % 4)
                 + 4 * (w / 4 % 2) + 2 * (w / 2 % 2) + w % 2
  {
    HsfsLowDigits(w);
    HsfsHighDigits(w);
  }

  lemma HsfsLowDigits(w: word16)
    ensures w % 64 == 32 * (w / 32 % 2) + 8 * (w / 8 % 4) + 4 * (w / 4 % 2) + 2 * (w / 2 % 2) + w % 2
  {
    Digit(w, 2, 2, 4);
    Digit(w, 4, 2, 8);
    Digit(w, 8, 4, 32);
    Digit(w, 32, 2, 64);
  }

  lemma HsfsHighDigits(w: word16)
    ensures w == 0x8000 * (w / 0x8000 % 2) + 0x4000 * (w / 0x4000 % 2) + 0x2000 * (w / 0x2000 % 2)
                 + 64 * (w / 64 % 128) + w % 64
  {
    Digit(w, 64, 128, 0x2000);
    Digit(w, 0x2000, 2, 0x4000);
    Digit(w, 0x4000, 2, 0x8000);
    Digit(w, 0x8000, 2, 0x1_0000);
  }

  // ---------------------------------------------------------------------
  // HSFC
  // ---------------------------------------------------------------------

  function DecodeHsfc(w: word16): Hsfc {
    Pow2Table();
    ValueAt(w, 13, 8, 0x100, 64);
    ValueAt(w, 7, 3, 8, 32);
    ValueAt(w, 2, 1, 2, 4);
    Hsfc(Test(w, 15), Test(w, 14), Value(w, 13, 8), Value(w, 7, 3), Value(w, 2, 1), Test(w, 0))
  }

  function HsfcFields(h: Hsfc): (r: seq<Field>)
    ensures Descending(r)
  {
    [Field(Flag(h.fsmie), 15, 15), Field(Flag(h.reserved14), 14, 14), Field(h.fdbc, 13, 8),
     Field(h.reserved7, 7, 3), Field(h.fcycle, 2, 1), Field(Flag(h.fgo), 0, 0)]
  }

  function EncodeHsfc(h: Hsfc): word16 {
    Pack(HsfcFields(h)) % 0x1_0000
  }

  lemma DecodeHsfcBits(w: word16)
    ensures var h := DecodeHsfc(w);
            && Flag(h.fsmie) == w / 0x8000 % 2 && Flag(h.reserved14) == w / 0x4000 % 2
            && h.fdbc == w / 0x100 % 64 && h.reserved7 == w / 8 % 32
            && h.fcycle == w / 2 % 4 && Flag(h.fgo) == w % 2
  {
    hide Value, Test, Pow2;
    Pow2Table();
    ValueAt(w, 13, 8, 0x100, 64);
    ValueAt(w, 7, 3, 8, 32);
    ValueAt(w, 2, 1, 2, 4);
    TestAt(w, 15, 0x8000);
    TestAt(w, 14, 0x4000);
    TestAt(w, 0, 1);
  }

  lemma EncodeHsfcBits(h: Hsfc)
    ensures var w := EncodeHsfc(h);
            && w / 0x8000 % 2 == Flag(h.fsmie) && w / 0x4000 % 2 == Flag(h.reserved14)
            && w / 0x100 % 64 == h.fdbc && w / 8 % 32 == h.reserved7
            && w / 2 % 4 == h.fcycle && w % 2 == Flag(h.fgo)
  {
    hide Pack, Value, Pow2, Descending;
    var fs := HsfcFields(h);
    Pow2Table();
    PackFits(fs, 16, 0x1_0000);
    PackedAt(fs, 0, Flag(h.fsmie), 15, 15, 0x8000, 2);
    PackedAt(fs, 1, Flag(h.reserved14), 14, 14, 0x4000, 2);
    PackedAt(fs, 2, h.fdbc, 13, 8, 0x100, 64);
    PackedAt(fs, 3, h.reserved7, 7, 3, 8, 32);
    PackedAt(fs, 4, h.fcycle, 2, 1, 2, 4);
    PackedAt(fs, 5, Flag(h.fgo), 0, 0, 1, 2);
  }

  /** HSFC encode and decode are mutual inverses. */
  lemma HsfcRoundTrip(h: Hsfc, w: word16)
    ensures DecodeHsfc(EncodeHsfc(h)) == h
    ensures EncodeHsfc(DecodeHsfc(w)) == w
  {
    hide DecodeHsfc, EncodeHsfc;
    EncodeHsfcBits(h);
    DecodeHsfcBits(EncodeHsfc(h));
    DecodeHsfcBits(w);
    EncodeHsfcBits(DecodeHsfc(w));
    HsfcDigits(w);
    HsfcDigits(EncodeHsfc(DecodeHsfc(w)));
  }

  lemma HsfcDigits(w: word16)
    ensures w == 0x8000 * (w / 0x8000 % 2) + 0x4000 * (w / 0x4000 % 2) + 0x100 * (w / 0x100 % 64)
                 + 8 * (w / 8 % 32) + 2 * (w / 2 % 4) + w % 2
  {
    Digit(w, 2, 4, 8);
    Digit(w, 8, 32, 0x100);
    Digit(w, 0x100, 64, 0x4000);
    Digit(w, 0x4000, 2, 0x8000);
    Digit(w, 0x8000, 2, 0x1_0000);
  }

  // ---------------------------------------------------------------------
  // FADDR
  // ---------------------------------------------------------------------

  function DecodeFaddr(w: word32): Faddr {
    Pow2Table();
    ValueAt(w, 31, 25, 0x200_0000, 128);
    ValueAt(w, 24, 0, 1, 0x200_0000);
    Faddr(Value(w, 31, 25), Value(w, 24, 0))
  }

  function FaddrFields(f: Faddr): (r: seq<Field>)
    ensures Descending(r)
  {
    [Field(f.reserved25, 31, 25), Field(f.fla, 24, 0)]
  }

  function EncodeFaddr(f: Faddr): word32 {
    Pack(FaddrFields(f)) % 0x1_0000_0000
  }

  lemma DecodeFaddrBits(w: word32)
    ensures DecodeFaddr(w) == Faddr(w / 0x200_0000, w % 0x200_0000)
  {
    hide Value, Pow2;
    Pow2Table();
    ValueAt(w, 31, 25, 0x200_0000, 128);
    ValueAt(w, 24, 0, 1, 0x200_0000);
  }

  lemma EncodeFaddrBits(f: Faddr)
    ensures EncodeFaddr(f) == 0x200_0000 * f.reserved25 + f.fla
  {
    hide Pack, Value, Pow2, Descending;
    var fs := FaddrFields(f);
    Pow2Table();
    PackFits(fs, 32, 0x1_0000_0000);
    PackedAt(fs, 0, f.reserved25, 31, 25, 0x200_0000, 128);
    PackedAt(fs, 1, f.fla, 24, 0, 1, 0x200_0000);
  }

  /** FADDR encode and decode are mutual inverses. */
  lemma FaddrRoundTrip(f: Faddr, w: word32)
    ensures DecodeFaddr(EncodeFaddr(f)) == f
    ensures EncodeFaddr(DecodeFaddr(w)) == w
  {
    hide DecodeFaddr, EncodeFaddr;
    EncodeFaddrBits(f);
    DecodeFaddrBits(EncodeFaddr(f));
    DecodeFaddrBits(w);
    EncodeFaddrBits(DecodeFaddr(w));
  }

  // ---------------------------------------------------------------------
  // SSFS
  // ---------------------------------------------------------------------

  function DecodeSsfs(w: byte): Ssfs {
    Pow2Table();
    ValueAt(w, 7, 5, 32, 8);
    Ssfs(Value(w, 7, 5), Test(w, 4), Test(w, 3), Test(w, 2), Test(w, 1), Test(w, 0))
  }

  function SsfsFields(s: Ssfs): (r: seq<Field>)
    ensures Descending(r)
  {
    [Field(s.reserved7, 7, 5), Field(Flag(s.ael), 4, 4), Field(Flag(s.fcerr), 3, 3),
     Field(Flag(s.done), 2, 2), Field(Flag(s.reserved1), 1, 1), Field(Flag(s.scip), 0, 0)]
  }

  function EncodeSsfs(s: Ssfs): byte {
    Pack(SsfsFields(s)) % 0x100
  }

  lemma DecodeSsfsBits(w: byte)
    ensures var s := DecodeSsfs(w);
            && s.reserved7 == w / 32 && Flag(s.ael) == w / 16 % 2 && Flag(s.fcerr) == w / 8 % 2
            && Flag(s.done) == w / 4 % 2 && Flag(s.reserved1) == w / 2 % 2 && Flag(s.scip) == w % 2
  {
    hide Value, Test, Pow2;
    Pow2Table();
    ValueAt(w, 7, 5, 32, 8);
    TestAt(w, 4, 16);
    TestAt(w, 3, 8);
    TestAt(w, 2, 4);
    TestAt(w, 1, 2);
    TestAt(w, 0, 1);
  }

  lemma EncodeSsfsBits(s: Ssfs)
    ensures var w := EncodeSsfs(s);
            && w / 32 == s.reserved7 && w / 16 % 2 == Flag(s.ael) && w / 8 % 2 == Flag(s.fcerr)
            && w / 4 % 2 == Flag(s.done) && w / 2 % 2 == Flag(s.reserved1) && w % 2 == Flag(s.scip)
  {
    hide Pack, Value, Pow2, Descending;
    var fs := SsfsFields(s);
    Pow2Table();
    PackFits(fs, 8, 0x100);
    PackedAt(fs, 0, s.reserved7, 7, 5, 32, 8);
    PackedAt(fs, 1, Flag(s.ael), 4, 4, 16, 2);
    PackedAt(fs, 2, Flag(s.fcerr), 3, 3, 8, 2);
    PackedAt(fs, 3, Flag(s.done), 2, 2, 4, 2);
    PackedAt(fs, 4, Flag(s.reserved1), 1, 1, 2, 2);
    PackedAt(fs, 5, Flag(s.scip), 0, 0, 1, 2);
  }

  /** SSFS encode and decode are mutual inverses. */
  lemma SsfsRoundTrip(s: Ssfs, w: byte)
    ensures DecodeSsfs(EncodeSsfs(s)) == s
    ensures EncodeSsfs(DecodeSsfs(w)) == w
  {
    hide DecodeSsfs, EncodeSsfs;
    EncodeSsfsBits(s);
    DecodeSsfsBits(EncodeSsfs(s));
    DecodeSsfsBits(w);
    EncodeSsfsBits(DecodeSsfs(w));
    SsfsDigits(w);
    SsfsDigits(EncodeSsfs(DecodeSsfs(w)));
  }

  lemma SsfsDigits(w: byte)
    ensures w == 32 * (w / 32) + 16 * (w / 16 % 2) + 8 * (w / 8 % 2) + 4 * (w / 4 % 2)
                 + 2 * (w / 2 % 2) + w % 2
  {
    Digit(w, 2, 2, 4);
    Digit(w, 4, 2, 8);
    Digit(w, 8, 2, 16);
    Digit(w, 16, 2, 32);
    Digit(w, 32, 8, 0x100);
  }
}
