/** Runs on a device that may hand out data early, in any state and with any
    latencies: where the data of a block can come from, and what sticks. */
module StaleRuns {
  import opened Memory
  import opened Registers
  import opened Controller
  import opened Protocol
  import opened BlockRead
  import opened Trace

  // ---------------------------------------------------------------------
  // FDONE and FCERR stick
  // ---------------------------------------------------------------------

  /** FDONE is set whenever a poll loop has ended, and the status it returns is the
      one in the register. */
  lemma {:induction false} PollEnds(p: Profile, s: Device)
    requires |s.window| == WINDOW_SIZE && WillFinish(p, s)
    ensures var (t, h, n) := Poll(p, s);
            && h == Regs(p, t).hsfs && Fdone(h)
            && (Fcerr(Regs(p, s).hsfs) ==> Fcerr(h))
    decreases if s.busy.Some? then s.remaining + 1 else 0
  {
    hide View, DecodeHsfs, Fdone, Fcerr, CompletedWindow;
    var (t, h) := Read16(p, s, p.bar + 0x04);
    PollStep(p, s);
    TickKeepsError(p, s);
    if !Fdone(h) {
      PollEnds(p, t);
    }
  }

  lemma TickKeepsError(p: Profile, s: Device)
    requires |s.window| == WINDOW_SIZE
    ensures Fcerr(Regs(p, s).hsfs) ==> Fcerr(Regs(p, Tick(p, s)).hsfs)
  {
    hide View, CompletedWindow, CompletedRegs, Fcerr;
    if s.busy.Some? && s.remaining == 0 {
      ViewOfCompleted(p, s.window, s.flash, s.busy.value);
      CompletedIsDone(p, Regs(p, s), s.flash, s.busy.value);
    }
  }

  /** After any block FDONE is set, and FCERR is what the block reported. */
  lemma BlockEnds(p: Profile, s: Device, cur: int, b: int)
    requires |s.window| == WINDOW_SIZE && BlockSize(b)
    ensures var (t, o) := ReadBlock(p, s, cur, b);
            Fdone(Regs(p, t).hsfs) && (o.error <==> Fcerr(Regs(p, t).hsfs))
  {
    hide View, DecodeHsfs, Fdone, Fcerr, Prepare, Poll, Drain;
    var t := Prepare(p, s, cur, b);
    PrepareFinishes(p, s, cur, b);
    PollEnds(p, t);
    DrainEffect(p, Poll(p, t).0, b / 4);
    StatusFlags(Poll(p, t).1);
  }

  /** On a write-1-to-clear device in any state a set FCERR survives every block and
      is reported by it. */
  lemma ErrorForever(p: Profile, s: Device, cur: int, b: int)
    requires |s.window| == WINDOW_SIZE && BlockSize(b)
    requires p.policy.WriteOneToClear? && Fcerr(Regs(p, s).hsfs)
    ensures ReadBlock(p, s, cur, b).1.error
  {
    hide View, Tick, ClearStatus, ProgramAddress, StartCycle, Drain, Poll, Bytes, Fdone, Scip, Fcerr, DecodeHsfs,
      WrittenStatus, StatusWord, AddressWord, ControlWord, StartedStatus;
    var s1 := ClearStatus(p, s);
    var s2 := ProgramAddress(p, s1, cur);
    TickKeepsError(p, s);
    ClearStatusEffect(p, s);
    StatusAfterClear(p.policy, Regs(p, Tick(p, s)).hsfs);
    ProgramAddressEffect(p, s1, cur);
    StartCycleEffect(p, s2, b);
    StatusBits(Regs(p, s2).hsfs, false);
    PrepareFinishes(p, s, cur, b);
    PollEnds(p, Prepare(p, s, cur, b));
    StatusFlags(Fetch(p, s, cur, b).1);
  }

  /** On a write-1-to-clear device in any state FDONE stays set after the first
      block, so every later poll loop ends on its first read. */
  lemma {:induction false} LaterBlocksPollOnce(p: Profile, s: Device, a: int, b: int, i: nat)
    requires |s.window| == WINDOW_SIZE && BlockSize(b) && p.policy.WriteOneToClear? && i > 0
    ensures OutcomeAt(p, s, a, b, i).polls == 1
    ensures StaleDone(p, AfterBlocks(p, s, a, b, i))
    decreases i
  {
    hide ReadBlock, View, Fdone, Fcerr, Addr;
    var t := AfterBlocks(p, s, a, b, i - 1);
    BlockEnds(p, t, Addr(a, b, i - 1), b);
    DoneForever(p, AfterBlocks(p, s, a, b, i), Addr(a, b, i), b);
  }

  /** FCERR is never cleared on a write-1-to-clear device: in any state and for any
      latencies, after one block that reports an error every later block does too. */
  lemma {:induction false} ErrorsStick(p: Profile, s: Device, a: int, b: int, i: nat, j: nat)
    requires |s.window| == WINDOW_SIZE && BlockSize(b) && p.policy.WriteOneToClear? && i <= j
    ensures OutcomeAt(p, s, a, b, i).error ==> OutcomeAt(p, s, a, b, j).error
    decreases j
  {
    hide ReadBlock, View, Fdone, Fcerr, Addr;
    if i < j && OutcomeAt(p, s, a, b, i).error {
      ErrorsStick(p, s, a, b, i, j - 1);
      BlockEnds(p, AfterBlocks(p, s, a, b, j - 1), Addr(a, b, j - 1), b);
      ErrorForever(p, AfterBlocks(p, s, a, b, j), Addr(a, b, j), b);
    }
  }

  // ---------------------------------------------------------------------
  // Where the data comes from
  // ---------------------------------------------------------------------

  /** From s to t the device did nothing but, possibly, complete the cycle in flight;
      the first l bytes of FDATA are as before or were delivered by that cycle. */
  predicate Advances(p: Profile, s: Device, t: Device, l: nat)
    requires |s.window| == WINDOW_SIZE && |t.window| == WINDOW_SIZE && l <= 64
  {
    && t.started == s.started && t.flash == s.flash
    && (t.busy == s.busy || t.busy.None?)
    && (Regs(p, t).fdata[..l] == Regs(p, s).fdata[..l]
        || (s.busy.Some? && t.busy.None? && Brought(p, s.busy.value, s.flash, Regs(p, t).fdata, l)))
  }

  /** The first l bytes of FDATA are those of the successful cycle c. */
  predicate Brought(p: Profile, c: Cycle, flash: seq<byte>, fdata: seq<byte>, l: nat)
    requires l <= |fdata|
  {
    !p.fails(c) && fdata[..l] == FlashSlice(flash, c.address, l)
  }

  /** The cycle in flight, if any, is a read of at least l bytes. */
  predicate ReadsAtLeast(s: Device, l: nat) {
    s.busy.Some? ==> s.busy.value.kind == READ_CYCLE && l <= s.busy.value.count <= 64
  }

  lemma TickAdvances(p: Profile, s: Device, l: nat)
    requires |s.window| == WINDOW_SIZE && l <= 64 && ReadsAtLeast(s, l)
    ensures Advances(p, s, Tick(p, s), l)
  {
    hide View, CompletedWindow, CompletedStatus, FlashSlice;
    if s.busy.Some? && s.remaining == 0 {
      var c := s.busy.value;
      ViewOfCompleted(p, s.window, s.flash, c);
      FilledPrefix(Regs(p, s).fdata, s.flash, c, l);
    }
  }

  lemma FilledPrefix(fdata: seq<byte>, flash: seq<byte>, c: Cycle, l: nat)
    requires |fdata| == 64 && l <= c.count <= 64
    ensures Filled(fdata, FlashSlice(flash, c.address, c.count))[..l] == FlashSlice(flash, c.address, l)
  {
  }

  lemma AdvancesTransitive(p: Profile, s: Device, t: Device, u: Device, l: nat)
    requires |s.window| == WINDOW_SIZE && |t.window| == WINDOW_SIZE && |u.window| == WINDOW_SIZE && l <= 64
    requires Advances(p, s, t, l) && Advances(p, t, u, l)
    ensures Advances(p, s, u, l)
  {
    hide View, FlashSlice;
  }

  lemma {:induction false} PollAdvances(p: Profile, s: Device, l: nat)
    requires |s.window| == WINDOW_SIZE && WillFinish(p, s) && l <= 64 && ReadsAtLeast(s, l)
    ensures Advances(p, s, Poll(p, s).0, l)
    decreases if s.busy.Some? then s.remaining + 1 else 0
  {
    hide View, DecodeHsfs, Fdone, CompletedWindow, FlashSlice, Brought;
    var (t, h) := Read16(p, s, p.bar + 0x04);
    PollStep(p, s);
    TickAdvances(p, s, l);
    assert Advances(p, s, t, l);
    if !Fdone(h) {
      PollAdvances(p, t, l);
      AdvancesTransitive(p, s, t, Poll(p, t).0, l);
    }
  }

  /** Clearing the status and programming the address move the device by one step. */
  lemma ProgramAdvances(p: Profile, s: Device, cur: int, l: nat)
    requires |s.window| == WINDOW_SIZE && l <= 64 && ReadsAtLeast(s, l)
    ensures var t := ProgramAddress(p, ClearStatus(p, s), cur);
            Advances(p, s, t, l) && Regs(p, t).faddr % 0x200_0000 == cur % 0x200_0000
  {
    hide View, Tick, ClearStatus, ProgramAddress, FlashSlice, WrittenStatus, StatusWord, AddressWord, Brought;
    TickAdvances(p, s, l);
    ClearStatusEffect(p, s);
    ProgramAddressEffect(p, ClearStatus(p, s), cur);
    AddressWordBits(Regs(p, ClearStatus(p, s)).faddr, cur);
  }

  /** One block on any device in any state in which at most an earlier block's read is
      in flight. Either its go bit was ignored and the device at most completed the
      earlier cycle, or it launched its own cycle after the earlier one was done. The
      data handed out is what FDATA held, or what one of these two cycles brought. */
  lemma BlockSource(p: Profile, s: Device, cur: int, b: int)
    requires |s.window| == WINDOW_SIZE && BlockSize(b)
    requires s.busy.Some? ==> s.busy.value.kind == READ_CYCLE && s.busy.value.count == b
    ensures var (t, o) := ReadBlock(p, s, cur, b);
            var c, l, f := CycleFor(s, cur, b), b / 4 * 4, Regs(p, t).fdata;
            && t.flash == s.flash && o.data == f[..l]
            && (t.started == s.started || t.started == s.started + 1)
            && (t.busy.None? || (t.started == s.started && t.busy == s.busy)
                || (t.started > s.started && t.busy == Some(c)))
            && (|| f[..l] == Regs(p, s).fdata[..l]
                || (s.busy.Some? && Brought(p, s.busy.value, s.flash, f, l))
                || (t.started > s.started && Brought(p, c, s.flash, f, l)))
  {
    hide View, Tick, ClearStatus, ProgramAddress, StartCycle, Poll, Drain, Bytes, FlashSlice, ControlWord,
      StartedStatus, DecodeHsfs;
    var l := b / 4 * 4;
    var s2 := ProgramAddress(p, ClearStatus(p, s), cur);
    var s3 := Prepare(p, s, cur, b);
    ProgramAdvances(p, s, cur, l);
    StartCycleEffect(p, s2, b);
    PrepareFinishes(p, s, cur, b);
    PollAdvances(p, s3, l);
    DrainEffect(p, Poll(p, s3).0, b / 4);
  }

  /** Block g launched its own cycle. */
  predicate Launched(p: Profile, s: Device, a: int, b: int, g: nat)
    requires |s.window| == WINDOW_SIZE && BlockSize(b)
  {
    AfterBlocks(p, s, a, b, g + 1).started == AfterBlocks(p, s, a, b, g).started + 1
  }

  /** The cycle block g launches, if it does. */
  function CycleOf(p: Profile, s: Device, a: int, b: int, g: nat): Cycle
    requires |s.window| == WINDOW_SIZE && BlockSize(b)
  {
    CycleFor(AfterBlocks(p, s, a, b, g), Addr(a, b, g), b)
  }

  /** The first l bytes of FDATA are the initial ones, or those of a block before i
      that launched its cycle and whose cycle succeeded. */
  predicate HasSource(p: Profile, s: Device, a: int, b: int, i: nat, fdata: seq<byte>)
    requires |s.window| == WINDOW_SIZE && BlockSize(b) && |fdata| == 64
  {
    var l := b / 4 * 4;
    || fdata[..l] == Regs(p, s).fdata[..l]
    || exists g {:trigger Launched(p, s, a, b, g)} ::
         0 <= g < i && Launched(p, s, a, b, g) && Brought(p, CycleOf(p, s, a, b, g), s.flash, fdata, l)
  }

  /** What holds after i blocks. */
  predicate Sourced(p: Profile, s: Device, a: int, b: int, i: nat)
    requires |s.window| == WINDOW_SIZE && BlockSize(b)
  {
    var t := AfterBlocks(p, s, a, b, i);
    && t.flash == s.flash && HasSource(p, s, a, b, i, Regs(p, t).fdata)
    && (t.busy.Some? ==> exists g {:trigger Launched(p, s, a, b, g)} ::
                           0 <= g < i && Launched(p, s, a, b, g) && t.busy.value == CycleOf(p, s, a, b, g))
  }

  lemma {:induction false} RunIsSourced(p: Profile, s: Device, a: int, b: int, i: nat)
    requires |s.window| == WINDOW_SIZE && BlockSize(b) && s.busy.None?
    ensures Sourced(p, s, a, b, i)
    decreases i
  {
    hide ReadBlock, View, Addr, FlashSlice;
    if i != 0 {
      RunIsSourced(p, s, a, b, i - 1);
      var t, u := AfterBlocks(p, s, a, b, i - 1), AfterBlocks(p, s, a, b, i);
      BlockSource(p, t, Addr(a, b, i - 1), b);
      assert u.started > t.started ==> Launched(p, s, a, b, i - 1);
      assert CycleFor(t, Addr(a, b, i - 1), b) == CycleOf(p, s, a, b, i - 1);
    }
  }

  /** On any device, with any latencies and failures and whatever it does with the
      status bits, block i holds the initial FDATA, or the flash at the address of some
      block up to i whose cycle was really started and succeeded. */
  lemma DataHasSource(p: Profile, s: Device, a: int, b: int, i: nat)
    requires |s.window| == WINDOW_SIZE && BlockSize(b) && s.busy.None?
    ensures var l, d := b / 4 * 4, OutcomeAt(p, s, a, b, i).data;
            || d == Regs(p, s).fdata[..l]
            || exists g {:trigger Launched(p, s, a, b, g)} ::
                 0 <= g <= i && Launched(p, s, a, b, g) && !p.fails(CycleOf(p, s, a, b, g))
                 && d == FlashSlice(s.flash, Addr(a, b, g) % 0x200_0000, l)
  {
    hide ReadBlock, View, Addr, FlashSlice;
    RunIsSourced(p, s, a, b, i);
    RunIsSourced(p, s, a, b, i + 1);
    BlockSource(p, AfterBlocks(p, s, a, b, i), Addr(a, b, i), b);
  }

  /** While an earlier cycle needs more than two further status reads, a block on a
      device whose FDONE is still set launches nothing and repeats FDATA. */
  lemma BlockIgnored(p: Profile, s: Device, cur: int, b: int)
    requires |s.window| == WINDOW_SIZE && BlockSize(b) && StaleDone(p, s)
    requires s.busy.Some? && s.remaining > 1
    ensures var (t, o) := ReadBlock(p, s, cur, b);
            && t.started == s.started && t.busy == s.busy && t.remaining == s.remaining - 2
            && o.polls == 1 && o.data == Regs(p, s).fdata[..b / 4 * 4] && StaleDone(p, t)
  {
    hide View, ClearStatus, ProgramAddress, StartCycle, Drain, Poll, Bytes, Fdone, Scip, Fcerr, DecodeHsfs,
      WrittenStatus, StatusWord, AddressWord, ControlWord, StartedStatus;
    var s1 := ClearStatus(p, s);
    var s2 := ProgramAddress(p, s1, cur);
    var s3 := Prepare(p, s, cur, b);
    PrepareFinishes(p, s, cur, b);
    TickKeepsDone(p, s);
    ClearStatusEffect(p, s);
    StatusAfterClear(p.policy, Regs(p, Tick(p, s)).hsfs);
    ProgramAddressEffect(p, s1, cur);
    StartCycleEffect(p, s2, b);
    PollOnce(p, s3);
    DrainEffect(p, Poll(p, s3).0, b / 4);
  }
}
