/** The hardware-sequencing read of pawn/chipset.cc as a function of the device
    and the callbacks, step by step, and what each step does to the registers. */
module Protocol {
  import opened Memory
  import opened Bits
  import opened Registers
  import opened Controller

  /** The C++ int. */
  type int32 = x: int | INT_MIN <= x <= INT_MAX

  const INT_MIN: int := -0x8000_0000
  const INT_MAX: int := 0x7FFF_FFFF

  datatype Status = Ok | InvalidArgument | Unavailable

  /** One callback invocation. */
  datatype Event = Error(address: int) | Block(address: int, data: seq<byte>) | Done

  /** block_read is always present; the other two are optional. `answer` gives the
      boolean a callback returns, as a function of everything called so far. */
  datatype Callbacks = Callbacks(onError: bool, onDone: bool, answer: seq<Event> -> bool)

  /** What one block produced: the error flag, the delivered bytes and how often
      the status register was polled. */
  datatype Outcome = Outcome(error: bool, data: seq<byte>, polls: nat)

  predicate BlockSize(b: int) { 4 <= b <= 64 }

  // ---------------------------------------------------------------------
  // The words the driver writes
  // ---------------------------------------------------------------------

  /** The status word as read, with AEL, FCERR and FDONE written as 0. */
  function StatusWord(h: word16): word16 {
    EncodeHsfs(DecodeHsfs(h).(ael := false, fcerr := false, fdone := false))
  }

  /** The address word as read, with the address assigned to a 25-bit field. */
  function AddressWord(w: word32, cur: int): word32 {
    EncodeFaddr(DecodeFaddr(w).(fla := cur % 0x200_0000))
  }

  /** The control word as read, with byte count, read cycle and go bit. */
  function ControlWord(w: word16, b: int): word16 {
    EncodeHsfc(DecodeHsfc(w).(fdbc := (b - 1) % 64, fcycle := FCYCLE_READ, fgo := true))
  }

  /** The status word is fully determined by the word read: zeros in the status bits,
      bits 15..5 as read, and the low bit of BERASE moved up to bit 4. */
  lemma StatusWordBits(h: word16)
    ensures var v := StatusWord(h);
            && v % 8 == 0 && v / 8 % 2 == 0 && v / 16 % 2 == h / 8 % 4 % 2 && v / 32 == h / 32
  {
    hide DecodeHsfs, EncodeHsfs;
    var d := DecodeHsfs(h).(ael := false, fcerr := false, fdone := false);
    DecodeHsfsBits(h);
    EncodeHsfsHighBits(d);
    EncodeHsfsLowBits(d);
    var v := EncodeHsfs(d);
    HighDigits(h);
    HighDigits(v);
    Digit(v, 2, 2, 4);
    Digit(v, 4, 2, 8);
  }

  lemma HighDigits(w: word16)
    ensures w / 32 == 0x400 * (w / 0x8000 % 2) + 0x200 * (w / 0x4000 % 2) + 0x100 * (w / 0x2000 % 2)
                      + 2 * (w / 64 % 128) + w / 32 % 2
  {
    Digit(w, 32, 2, 64);
    Digit(w, 64, 128, 0x2000);
    Digit(w, 0x2000, 2, 0x4000);
    Digit(w, 0x4000, 2, 0x8000);
    Digit(w, 0x8000, 2, 0x1_0000);
  }

  lemma AddressWordBits(w: word32, cur: int)
    ensures AddressWord(w, cur) % 0x200_0000 == cur % 0x200_0000
    ensures AddressWord(w, cur) / 0x200_0000 == w / 0x200_0000
  {
    hide DecodeFaddr, EncodeFaddr;
    DecodeFaddrBits(w);
    EncodeFaddrBits(DecodeFaddr(w).(fla := cur % 0x200_0000));
  }

  lemma ControlWordBits(w: word16, b: int)
    requires BlockSize(b)
    ensures var v := ControlWord(w, b);
            && v % 2 == 1 && v / 2 % 4 == READ_CYCLE && v / 0x100 % 64 + 1 == b
            && v / 0x8000 % 2 == w / 0x8000 % 2 && v / 0x4000 % 2 == w / 0x4000 % 2
            && v / 8 % 32 == w / 8 % 32
  {
    hide DecodeHsfc, EncodeHsfc;
    DecodeHsfcBits(w);
    EncodeHsfcBits(DecodeHsfc(w).(fdbc := (b - 1) % 64, fcycle := FCYCLE_READ, fgo := true));
  }

  /** What the controller keeps of the driver's status write: SCIP and every bit
      above it as they were, BERASE as twice its low bit; on a store-as-written device
      FDONE, FCERR and AEL are clear, on a write-1-to-clear device all three are as
      before. */
  lemma StatusAfterClear(policy: Policy, h: word16)
    ensures var w := WrittenStatus(policy, h, StatusWord(h));
            && w / 32 == h / 32 && (Scip(w) <==> Scip(h))
            && w / 8 % 4 == 2 * (h / 8 % 4 % 2)
            && (Fdone(w) <==> policy.WriteOneToClear? && Fdone(h))
            && (Fcerr(w) <==> policy.WriteOneToClear? && Fcerr(h))
            && (Ael(w) <==> policy.WriteOneToClear? && Ael(h))
  {
    hide StatusWord;
    StatusWordBits(h);
    var v := StatusWord(h);
    var k := v / 8;
    BeraseDigits(v);
    StatusDigits(k, 0, 0, 0, v);
    if policy.WriteOneToClear? {
      StatusDigits(k, h % 2, h / 2 % 2, h / 4 % 2, WrittenStatus(policy, h, v));
    }
  }

  lemma StatusDigits(k: nat, d0: nat, d1: nat, d2: nat, w: nat)
    requires d0 < 2 && d1 < 2 && d2 < 2 && w == 8 * k + d0 + 2 * d1 + 4 * d2
    ensures w / 8 == k && w / 32 == k / 4 && w % 2 == d0 && w / 2 % 2 == d1 && w / 4 % 2 == d2
  {
    DivModUnique(w, 2, 4 * k + d1 + 2 * d2, d0);
    DivModUnique(4 * k + d1 + 2 * d2, 2, 2 * k + d2, d1);
    DivModUnique(w, 4, 2 * k + d2, d0 + 2 * d1);
    DivModUnique(2 * k + d2, 2, k, d2);
    DivModUnique(w, 8, k, d0 + 2 * d1 + 4 * d2);
    DivModUnique(w, 32, k / 4, 8 * (k % 4) + d0 + 2 * d1 + 4 * d2);
  }

  // ---------------------------------------------------------------------
  // The steps of one block (pawn/chipset.cc:136-165)
  // ---------------------------------------------------------------------

  /** Read HSFS, write it back with the status bits zero. */
  function ClearStatus(p: Profile, s: Device): (r: Device)
    requires |s.window| == WINDOW_SIZE
    ensures |r.window| == WINDOW_SIZE
  {
    var (t, h) := Read16(p, s, p.bar + 0x04);
    Write16(p, t, p.bar + 0x04, StatusWord(h))
  }

  /** Read FADDR, write it back with the block's address. */
  function ProgramAddress(p: Profile, s: Device, cur: int): (r: Device)
    requires |s.window| == WINDOW_SIZE
    ensures |r.window| == WINDOW_SIZE
  {
    var (t, w) := Read32(p, s, p.bar + 0x08);
    Write32(p, t, p.bar + 0x08, AddressWord(w, cur))
  }

  /** Read HSFC, write it back with byte count, read cycle and go. */
  function StartCycle(p: Profile, s: Device, b: int): (r: Device)
    requires |s.window| == WINDOW_SIZE
    ensures |r.window| == WINDOW_SIZE
  {
    var (t, w) := Read16(p, s, p.bar + 0x06);
    Write16(p, t, p.bar + 0x06, ControlWord(w, b))
  }

  function Prepare(p: Profile, s: Device, cur: int, b: int): (r: Device)
    requires |s.window| == WINDOW_SIZE
    ensures |r.window| == WINDOW_SIZE
  {
    StartCycle(p, ProgramAddress(p, ClearStatus(p, s), cur), b)
  }

  /** The busy-wait ends: a cycle is in flight or FDONE is already set. */
  predicate WillFinish(p: Profile, s: Device)
    requires |s.window| == WINDOW_SIZE
  {
    s.busy.Some? || Fdone(View(s.window, p.bar).hsfs)
  }

  /** Read HSFS until FDONE is set; the last status word and the number of reads. */
  function Poll(p: Profile, s: Device): (r: (Device, word16, nat))
    requires |s.window| == WINDOW_SIZE && WillFinish(p, s)
    ensures |r.0.window| == WINDOW_SIZE
    decreases if s.busy.Some? then s.remaining + 1 else 0
  {
    var (t, h) := Read16(p, s, p.bar + 0x04);
    PollStep(p, s);
    if DecodeHsfs(h).fdone then (t, h, 1)
    else
      var (u, h', n) := Poll(p, t);
      (u, h', n + 1)
  }

  /** One poll: it sees FDONE, or the cycle in flight came one step closer. */
  lemma PollStep(p: Profile, s: Device)
    requires |s.window| == WINDOW_SIZE && WillFinish(p, s)
    ensures var (t, h) := Read16(p, s, p.bar + 0x04);
            && h == View(t.window, p.bar).hsfs
            && (DecodeHsfs(h).fdone <==> Fdone(h))
            && (!Fdone(h) ==> s.busy.Some? && s.remaining > 0 && t.busy == s.busy
                              && t.remaining == s.remaining - 1 && t.window == s.window)
  {
    hide View, DecodeHsfs, CompletedWindow, CompletedStatus;
    var t := Tick(p, s);
    ViewHsfs(t.window, p.bar);
    DecodeHsfsBits(Load16(t.window, p.bar + 0x04));
    if s.busy.Some? && s.remaining == 0 {
      ViewOfCompleted(p, s.window, s.flash, s.busy.value);
      StatusBits(View(s.window, p.bar).hsfs, p.fails(s.busy.value));
    }
  }

  /** Read the first m FDATA words. */
  function Drain(p: Profile, s: Device, m: nat): (r: (Device, seq<word32>))
    requires |s.window| == WINDOW_SIZE && m <= 16
    ensures |r.0.window| == WINDOW_SIZE && |r.1| == m
  {
    if m == 0 then (s, [])
    else
      var (t, words) := Drain(p, s, m - 1);
      var (u, w) := Read32(p, t, p.bar + 0x10 + (m - 1) * 4);
      (u, words + [w])
  }

  /** After programming, a cycle is in flight: this block's or an earlier one. */
  lemma PrepareFinishes(p: Profile, s: Device, cur: int, b: int)
    requires |s.window| == WINDOW_SIZE && BlockSize(b)
    ensures Prepare(p, s, cur, b).busy.Some? && WillFinish(p, Prepare(p, s, cur, b))
  {
    hide ClearStatus, ProgramAddress, View, ControlWord;
    var t := ProgramAddress(p, ClearStatus(p, s), cur);
    var (u, w) := Read16(p, t, p.bar + 0x06);
    ControlWordBits(w, b);
  }

  /** Program and run one cycle. */
  function Fetch(p: Profile, s: Device, cur: int, b: int): (r: (Device, word16, nat))
    requires |s.window| == WINDOW_SIZE && BlockSize(b)
    ensures |r.0.window| == WINDOW_SIZE
  {
    PrepareFinishes(p, s, cur, b);
    Poll(p, Prepare(p, s, cur, b))
  }

  /** One whole block with callbacks that continue. */
  function ReadBlock(p: Profile, s: Device, cur: int, b: int): (r: (Device, Outcome))
    requires |s.window| == WINDOW_SIZE && BlockSize(b)
    ensures |r.0.window| == WINDOW_SIZE && |r.1.data| == b / 4 * 4
  {
    var (t, h, n) := Fetch(p, s, cur, b);
    var (u, words) := Drain(p, t, b / 4);
    (u, Outcome(DecodeHsfs(h).fcerr, Bytes(words), n))
  }

  // ---------------------------------------------------------------------
  // The whole call (pawn/chipset.cc:118-174)
  // ---------------------------------------------------------------------

  /** C++ remainder: truncates towards zero. */
  function Remainder(a: int, b: int): int
    requires b > 0
  {
    if a >= 0 then a % b else -(-a % b)
  }

  /** The block loop from `cur`, with the callbacks made so far. */
  function RunBlocks(p: Profile, s: Device, cur: int, end: int, b: int, cb: Callbacks, trace: seq<Event>)
    : (r: (Device, seq<Event>))
    requires |s.window| == WINDOW_SIZE && BlockSize(b)
    ensures |r.0.window| == WINDOW_SIZE
    decreases end - cur
  {
    if cur >= end then (s, if cb.onDone then trace + [Done] else trace)
    else
      var (t, h, n) := Fetch(p, s, cur, b);
      var failed := DecodeHsfs(h).fcerr && cb.onError;
      var trace1 := if failed then trace + [Error(cur)] else trace;
      if failed && !cb.answer(trace1) then (t, trace1)
      else
        var (u, words) := Drain(p, t, b / 4);
        var trace2 := trace1 + [Block(cur, Bytes(words))];
        if !cb.answer(trace2) then (u, trace2)
        else RunBlocks(p, u, cur + b, end, b, cb, trace2)
  }

  /** ReadSpiWithHardwareSequencing: the device afterwards, the status and the
      callbacks made. */
  function Run(p: Profile, s: Device, address: int, size: int, b: int, cb: Callbacks)
    : (Device, Status, seq<Event>)
    requires |s.window| == WINDOW_SIZE
  {
    if b < 4 || b > 64 then (s, InvalidArgument, [])
    else if Remainder(size, b) != 0 then (s, InvalidArgument, [])
    else
      var (t, h) := Read16(p, s, p.bar + 0x04);
      if DecodeHsfs(h).scip then (t, Unavailable, [])
      else
        var (u, trace) := RunBlocks(p, t, address, address + size, b, cb, []);
        (u, Ok, trace)
  }
}
