/** The read-only decodes the tool reports: RCBA, BFPR, FREG, PR and FRAP. Each
    lemma gives the value the code stores and exactly when it is the value the
    register means. */
module Regions {
  import opened Bits
  import opened Fields
  import opened Memory
  import opened Registers

  // ---------------------------------------------------------------------
  // RCBA and the mapped window
  // ---------------------------------------------------------------------

  function DecodeRcba(w: word32): Rcba {
    RcbaBase(w);
    Rcba(RawBase(w), Test(w, 0))
  }

  function RawBase(w: word32): nat {
    Pow2Table();
    Raw(w, 31, 14, 32)
  }

  lemma RcbaBase(w: word32)
    ensures RawBase(w) == 0x4000 * (w / 0x4000)
  {
    hide Raw, Value, Pow2;
    Pow2Table();
    RawAgrees(w, 31, 14, 32);
    ShlMeaning(Value(w, 31, 14), 14);
    ValueAt(w, 31, 14, 0x4000, 0x4_0000);
  }

  datatype MapResult = Mapped(base: word32, length: nat) | NotEnabled

  /** MapRootComplex up to the mmap call. */
  function MapRootComplex(rcba: Rcba): MapResult {
    if !rcba.enable then NotEnabled else Mapped(rcba.baseAddress, WINDOW_SIZE)
  }

  /** The reported base is the register with its low 14 bits cleared, enabled or
      not. The window is mapped exactly when EN (bit 0) is set; it then starts there,
      is aligned to its own size, and ends inside the 32-bit address space. */
  lemma WindowIsMapped(w: word32)
    ensures var d := DecodeRcba(w);
            d.baseAddress == 0x4000 * (w / 0x4000) && (d.enable <==> w % 2 == 1)
    ensures var r := MapRootComplex(DecodeRcba(w));
            && (r.Mapped? <==> w % 2 == 1)
            && (r.Mapped? ==> r.base <= w < r.base + r.length && r.base % r.length == 0
                              && r.length == 0x4000 && r.base + r.length <= 0x1_0000_0000)
  {
    hide Raw, Test, Pow2;
    RcbaBase(w);
    Pow2Table();
    TestAt(w, 0, 1);
  }

  // ---------------------------------------------------------------------
  // BFPR
  // ---------------------------------------------------------------------

  function DecodeBfpr(w: word32): Bfpr {
    hide Value, Set;
    Pow2Table();
    ValueAt(w, 31, 29, 0x2000_0000, 8);
    ValueAt(w, 15, 13, 0x2000, 8);
    ShiftedField(w, 28, 16);
    ShiftedField(w, 12, 0);
    Bfpr(Value(w, 31, 29), Set(Value(w, 28, 16), 24, 12), Value(w, 15, 13), Set(Value(w, 12, 0), 24, 12))
  }

  /** A 13-bit field moved to bit 12. */
  lemma ShiftedField(w: word32, msb: nat, lsb: nat)
    requires lsb <= msb && msb - lsb == 12
    ensures Value(w, msb, lsb) < 0x2000
    ensures Set(Value(w, msb, lsb), 24, 12) == 0x1000 * Value(w, msb, lsb)
  {
    hide Value, Set, Pow2;
    Pow2Table();
    ValueBound(w, msb, lsb);
    SetAt(Value(w, msb, lsb), 24, 12, 0x1000, 0x2000);
  }

  /** The BFPR decode loses no bit: base and limit are the fields times 4096, so
      the register is a function of the struct. */
  lemma BfprLosesNothing(w: word32)
    ensures var d := DecodeBfpr(w);
            && d.limit == 0x1000 * (w / 0x1_0000 % 0x2000) && d.base == 0x1000 * (w % 0x2000)
            && w == 0x2000_0000 * d.reserved31 + 0x1_0000 * (d.limit / 0x1000)
                    + 0x2000 * d.reserved15 + d.base / 0x1000
  {
    hide Value, Set, Pow2;
    Pow2Table();
    ValueAt(w, 31, 29, 0x2000_0000, 8);
    ValueAt(w, 15, 13, 0x2000, 8);
    ShiftedField(w, 28, 16);
    ValueAt(w, 28, 16, 0x1_0000, 0x2000);
    ShiftedField(w, 12, 0);
    ValueAt(w, 12, 0, 1, 0x2000);
    Digit(w, 0x2000, 8, 0x1_0000);
    Digit(w, 0x1_0000, 0x2000, 0x2000_0000);
    Digit(w, 0x2000_0000, 8, 0x1_0000_0000);
  }

  // ---------------------------------------------------------------------
  // FREG and PR: 13-bit struct fields for 25-bit addresses
  // ---------------------------------------------------------------------

  /** Set<24, 12>(Value<msb, lsb>(w)) | 0xFFF, stored in 13 bits. */
  function LimitField(w: word32): bits13 {
    Or(Set(Value(w, 28, 16), 24, 12), 0xFFF) % 0x2000
  }

  function DecodeFreg(w: word32): Freg {
    hide Value, Set, LimitField;
    Pow2Table();
    ValueAt(w, 31, 29, 0x2000_0000, 8);
    ValueAt(w, 15, 13, 0x2000, 8);
    ValueAt(w, 12, 0, 1, 0x2000);
    Freg(Value(w, 31, 29), LimitField(w), Value(w, 15, 13), Value(w, 12, 0))
  }

  function DecodePr(w: word32): Pr {
    hide Value, Set, LimitField;
    Pow2Table();
    ValueAt(w, 30, 29, 0x2000_0000, 4);
    ValueAt(w, 14, 13, 0x2000, 4);
    Pr(Test(w, 31), Value(w, 30, 29), LimitField(w), Test(w, 15), Value(w, 14, 13),
       Set(Value(w, 12, 0), 24, 12) % 0x2000)
  }

  lemma LimitFieldValue(w: word32)
    ensures LimitField(w) == (0x1000 * (w / 0x1_0000 % 0x2000) + 0xFFF) % 0x2000
  {
    hide Value, Set, Or, Low, Pow2;
    Pow2Table();
    ShiftedField(w, 28, 16);
    ValueAt(w, 28, 16, 0x1_0000, 0x2000);
    var high := Set(Value(w, 28, 16), 24, 12);
    SetExtent(Value(w, 28, 16), 24, 12, 32);
    OrAppend(high, 0xFFF, 12);
  }

  /** The stored region limit is the last byte address cut to 13 bits: it is the
      address itself exactly when the field is at most 1. The stored region base
      is the field, not 4096 times it, so it is the base address only for 0. */
  lemma FregTruncation(w: word32)
    ensures var d := DecodeFreg(w);
            var limit := w / 0x1_0000 % 0x2000;
            var base := w % 0x2000;
            && d.limit == (0x1000 * limit + 0xFFF) % 0x2000
            && (d.limit == 0x1000 * limit + 0xFFF <==> limit <= 1)
            && d.base == base
            && (d.base == 0x1000 * base <==> base == 0)
            && d.reserved31 == w / 0x2000_0000 && d.reserved15 == w / 0x2000 % 8
  {
    hide Value, LimitField, Pow2;
    LimitFieldValue(w);
    Pow2Table();
    ValueAt(w, 31, 29, 0x2000_0000, 8);
    ValueAt(w, 15, 13, 0x2000, 8);
    ValueAt(w, 12, 0, 1, 0x2000);
  }

  /** Both protected range bounds are cut to 13 bits; the enables are bits 31 and 15. */
  lemma PrTruncation(w: word32)
    ensures var d := DecodePr(w);
            var limit := w / 0x1_0000 % 0x2000;
            var base := w % 0x2000;
            && d.limit == (0x1000 * limit + 0xFFF) % 0x2000
            && (d.limit == 0x1000 * limit + 0xFFF <==> limit <= 1)
            && d.base == 0x1000 * base % 0x2000
            && (d.base == 0x1000 * base <==> base <= 1)
            && Flag(d.writeProtect) == w / 0x8000_0000 && Flag(d.readProtect) == w / 0x8000 % 2
            && d.reserved30 == w / 0x2000_0000 % 4 && d.reserved14 == w / 0x2000 % 4
  {
    hide Value, Set, Test, LimitField, Pow2;
    LimitFieldValue(w);
    Pow2Table();
    TestAt(w, 31, 0x8000_0000);
    TestAt(w, 15, 0x8000);
    ValueAt(w, 30, 29, 0x2000_0000, 4);
    ValueAt(w, 14, 13, 0x2000, 4);
    ShiftedField(w, 12, 0);
    ValueAt(w, 12, 0, 1, 0x2000);
  }

  // ---------------------------------------------------------------------
  // FRAP printed through a reinterpreted struct
  // ---------------------------------------------------------------------

  function DecodeFrap(w: word32): Frap {
    hide Value;
    Pow2Table();
    ValueAt(w, 31, 24, 0x100_0000, 0x100);
    ValueAt(w, 23, 16, 0x1_0000, 0x100);
    ValueAt(w, 15, 8, 0x100, 0x100);
    ValueAt(w, 7, 0, 1, 0x100);
    Frap(Value(w, 31, 24), Value(w, 23, 16), Value(w, 15, 8), Value(w, 7, 0))
  }

  /** The struct viewed as a 32-bit word, bit-fields allocated from the low bit. */
  function FrapAsWord(f: Frap): word32 {
    Load32([f.bmwag, f.bmrag, f.brwa, f.brra], 0)
  }

  /** The printed FRAP is the byte reversal of the register; it is the register
      exactly when its bytes read the same both ways. */
  lemma FrapIsReversed(w: word32)
    ensures var b := Bytes32(w);
            && Bytes32(FrapAsWord(DecodeFrap(w))) == [b[3], b[2], b[1], b[0]]
            && (FrapAsWord(DecodeFrap(w)) == w <==> b[0] == b[3] && b[1] == b[2])
  {
    hide Value, Pow2;
    Pow2Table();
    ValueAt(w, 31, 24, 0x100_0000, 0x100);
    ValueAt(w, 23, 16, 0x1_0000, 0x100);
    ValueAt(w, 15, 8, 0x100, 0x100);
    ValueAt(w, 7, 0, 1, 0x100);
    var f := DecodeFrap(w);
    var m := [f.bmwag, f.bmrag, f.brwa, f.brra];
    Bytes32OfLoad(m, 0);
    assert m[0..4] == m;
    Bytes32Injective(FrapAsWord(f), w);
  }

  lemma Bytes32Injective(v: word32, w: word32)
    ensures Bytes32(v) == Bytes32(w) <==> v == w
  {
    assert forall x: word32 {:trigger Bytes32(x)} :: Load32(Bytes32(x), 0) == x by {
      forall x: word32
        ensures Load32(Bytes32(x), 0) == x
      {
        Digit(x, 0x100, 0x100, 0x1_0000);
        Digit(x, 0x1_0000, 0x100, 0x100_0000);
      }
    }
  }
}
