/** Where the SPI registers lie in the window (pawn/chipset_intel_ich8.h), and
    that no write to one of them is visible in another. */
module RegisterMap {
  import opened Memory
  import opened Registers
  import SoftwareSequencing

  /** SpiBar(0): 0x3020 on ICH8, 0x3800 on every later chipset. */
  type SpiBase = b: nat | b == 0x3020 || b == 0x3800 witness 0x3800

  datatype Reg = BFPR | HSFS | HSFC | FADDR | FDATA(index: int) | FRAP | FREG(index: int) | PR(index: int) | SSFS | SSFC

  /** Indices the tool uses: 16 data words and five regions. */
  predicate InRange(r: Reg) {
    && (r.FDATA? ==> 0 <= r.index < 16)
    && (r.FREG? || r.PR? ==> 0 <= r.index < 5)
  }

  function Offset(r: Reg): int {
    match r
    case BFPR => 0x00
    case HSFS => 0x04
    case HSFC => 0x06
    case FADDR => 0x08
    case FDATA(i) => 0x10 + i * 4
    case FRAP => 0x50
    case FREG(i) => 0x54 + i * 4
    case PR(i) => 0x74 + i * 4
    case SSFS => 0x90
    case SSFC => 0x91
  }

  /** Bytes read; SSFC is read as 32 bits. */
  function Width(r: Reg): nat {
    match r
    case HSFS => 2
    case HSFC => 2
    case SSFS => 1
    case _ => 4
  }

  function RegisterBytes(m: seq<byte>, bar: SpiBase, r: Reg): seq<byte>
    requires |m| == WINDOW_SIZE && InRange(r)
  {
    m[bar + Offset(r)..bar + Offset(r) + Width(r)]
  }

  /** The five register writes of the source. */
  datatype Put = PutHsfs(hsfs: Hsfs) | PutHsfc(hsfc: Hsfc) | PutFaddr(faddr: Faddr)
               | PutSsfs(ssfs: Ssfs) | PutSsfc(ssfc: Ssfc)

  function Target(p: Put): Reg {
    match p
    case PutHsfs(_) => HSFS
    case PutHsfc(_) => HSFC
    case PutFaddr(_) => FADDR
    case PutSsfs(_) => SSFS
    case PutSsfc(_) => SSFC
  }

  function Apply(m: seq<byte>, bar: SpiBase, p: Put): (r: seq<byte>)
    requires |m| == WINDOW_SIZE
    ensures |r| == |m|
  {
    var at := bar + Offset(Target(p));
    match p
    case PutHsfs(h) => Store16(m, at, EncodeHsfs(h))
    case PutHsfc(h) => Store16(m, at, EncodeHsfc(h))
    case PutFaddr(f) => Store32(m, at, EncodeFaddr(f))
    case PutSsfs(s) => Store8(m, at, EncodeSsfs(s))
    case PutSsfc(s) => SoftwareSequencing.WriteSsfc(m, at, s)
  }

  /** The map is one run of words: FRAP follows the last data word, FREG0 follows FRAP,
      PR0 follows eight FREG words, SSFS follows seven PR words and SSFC is the byte
      after it. */
  lemma Layout()
    ensures Offset(BFPR) == 0 && Offset(HSFS) == Offset(BFPR) + Width(BFPR)
    ensures Offset(HSFC) == Offset(HSFS) + Width(HSFS) && Offset(FADDR) == Offset(HSFC) + Width(HSFC)
    ensures Offset(FDATA(0)) == Offset(FADDR) + 2 * Width(FADDR)
    ensures Offset(FRAP) == Offset(FDATA(15)) + Width(FDATA(15)) && Offset(FREG(0)) == Offset(FRAP) + Width(FRAP)
    ensures Offset(PR(0)) == Offset(FREG(7)) + Width(FREG(7)) && Offset(SSFS) == Offset(PR(6)) + Width(PR(6))
    ensures Offset(SSFC) == Offset(SSFS) + Width(SSFS)
    ensures forall i :: Offset(FDATA(i + 1)) == Offset(FDATA(i)) + Width(FDATA(i))
    ensures forall i :: Offset(FREG(i + 1)) == Offset(FREG(i)) + Width(FREG(i))
    ensures forall i :: Offset(PR(i + 1)) == Offset(PR(i)) + Width(PR(i))
  {
  }

  /** Every in-range register lies inside the window, and different registers
      share no byte. */
  lemma RegistersDisjoint(bar: SpiBase, r: Reg, s: Reg)
    requires InRange(r) && InRange(s)
    ensures 0 <= bar + Offset(r) && bar + Offset(r) + Width(r) <= WINDOW_SIZE
    ensures r != s ==> Offset(r) + Width(r) <= Offset(s) || Offset(s) + Width(s) <= Offset(r)
  {
  }

  /** A write changes no byte outside its own register. */
  lemma ApplyFrame(m: seq<byte>, bar: SpiBase, p: Put)
    requires |m| == WINDOW_SIZE
    ensures var m', at := Apply(m, bar, p), bar + Offset(Target(p));
            forall i :: 0 <= i < |m| && !(at <= i < at + Width(Target(p))) ==> m'[i] == m[i]
  {
    hide EncodeHsfs, EncodeHsfc, EncodeFaddr, EncodeSsfs, SoftwareSequencing.Top, SoftwareSequencing.Rest;
  }

  /** A write changes only its own register. */
  lemma WriteFrame(m: seq<byte>, bar: SpiBase, p: Put, r: Reg)
    requires |m| == WINDOW_SIZE && InRange(r) && r != Target(p)
    ensures RegisterBytes(Apply(m, bar, p), bar, r) == RegisterBytes(m, bar, r)
  {
    hide Apply, Offset, Width;
    RegistersDisjoint(bar, r, Target(p));
    RegistersDisjoint(bar, r, r);
    ApplyFrame(m, bar, p);
  }

  /** The register reads as it was written, HSFS but for BERASE. */
  predicate ReadsAsWritten(m: seq<byte>, bar: SpiBase, p: Put)
    requires |m| == WINDOW_SIZE && !p.PutSsfc?
  {
    hide DecodeHsfs, DecodeHsfc, DecodeFaddr, DecodeSsfs, Load16, Load32;
    match p
    case PutHsfs(h) => DecodeHsfs(Load16(m, bar + Offset(HSFS))) == h.(berase := 2 * (h.berase % 2))
    case PutHsfc(h) => DecodeHsfc(Load16(m, bar + Offset(HSFC))) == h
    case PutFaddr(f) => DecodeFaddr(Load32(m, bar + Offset(FADDR))) == f
    case PutSsfs(s) => DecodeSsfs(Load8(m, bar + Offset(SSFS))) == s
  }

  /** What reading a register back after its own write returns: HSFC, FADDR and SSFS
      exactly what was written, HSFS all but BERASE. */
  lemma ReadBack(m: seq<byte>, bar: SpiBase, p: Put)
    requires |m| == WINDOW_SIZE && !p.PutSsfc?
    ensures ReadsAsWritten(Apply(m, bar, p), bar, p)
  {
    hide EncodeHsfs, EncodeHsfc, EncodeFaddr, EncodeSsfs, DecodeHsfs, DecodeHsfc, DecodeFaddr, DecodeSsfs;
    var at := bar + Offset(Target(p));
    match p
    case PutHsfs(h) =>
      LoadAfterStore16(m, at, EncodeHsfs(h));
      HsfsReadBack(h);
    case PutHsfc(h) =>
      LoadAfterStore16(m, at, EncodeHsfc(h));
      HsfcRoundTrip(h, 0);
    case PutFaddr(f) =>
      LoadAfterStore32(m, at, EncodeFaddr(f));
      FaddrRoundTrip(f, 0);
    case PutSsfs(s) =>
      SsfsRoundTrip(s, 0);
  }

  /** The guard of ReadFdataNRegister admits index 16 although it promises 0..15:
      the guarded indices stay clear of FRAP exactly below 16. */
  lemma FdataGuard(bar: SpiBase, i: int)
    requires 0 <= i <= 16
    ensures InRange(FDATA(i)) <==> Offset(FDATA(i)) != Offset(FRAP)
    ensures bar + Offset(FDATA(i)) + Width(FDATA(i)) <= WINDOW_SIZE
  {
  }
}
