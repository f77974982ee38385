/** What reading one block does, in closed form: the steps of the protocol
    composed over the register view. */
module BlockRead {
  import opened Memory
  import opened Registers
  import opened RegisterMap
  import opened Controller
  import opened Protocol

  function Regs(p: Profile, s: Device): (r: RegView)
    requires |s.window| == WINDOW_SIZE
    ensures |r.fdata| == 64
  {
    View(s.window, p.bar)
  }

  /** The device apart from its window and log. */
  predicate SameCycle(s: Device, t: Device) {
    t.flash == s.flash && t.busy == s.busy && t.remaining == s.remaining
    && t.last == s.last && t.started == s.started
  }

  /** No cycle in flight, and SCIP says so. */
  predicate Idle(p: Profile, s: Device) {
    Wf(p, s) && s.busy.None?
  }

  /** The cycle a block programs. */
  function CycleFor(s: Device, cur: int, b: int): Cycle
    requires BlockSize(b)
  {
    Cycle(s.started, READ_CYCLE, cur % 0x200_0000, b)
  }

  // ---------------------------------------------------------------------
  // Register steps
  // ---------------------------------------------------------------------

  /** Clearing the status: one device step, then only HSFS changes, to what the
      device keeps of a write of zeros. */
  lemma ClearStatusEffect(p: Profile, s: Device)
    requires |s.window| == WINDOW_SIZE
    ensures var t, u := ClearStatus(p, s), Tick(p, s);
            && SameCycle(u, t)
            && Regs(p, t) == Regs(p, u).(hsfs := WrittenStatus(p.policy, Regs(p, u).hsfs, StatusWord(Regs(p, u).hsfs)))
  {
    hide View, Tick, Store16, StatusWord, WrittenStatus;
    var u := Tick(p, s);
    var h := Load16(u.window, p.bar + 0x04);
    ViewHsfs(u.window, p.bar);
    ViewOfHsfs(u.window, p.bar, WrittenStatus(p.policy, h, StatusWord(h)));
  }

  lemma ProgramAddressEffect(p: Profile, s: Device, cur: int)
    requires |s.window| == WINDOW_SIZE
    ensures var t := ProgramAddress(p, s, cur);
            && SameCycle(s, t)
            && Regs(p, t) == Regs(p, s).(faddr := AddressWord(Regs(p, s).faddr, cur))
  {
    hide View, Store32, AddressWord;
    ViewHsfs(s.window, p.bar);
    ViewOfFaddr(s.window, p.bar, AddressWord(Load32(s.window, p.bar + 0x08), cur));
  }

  /** Starting the cycle on an idle device latches the programmed address and the
      block size as a read cycle. */
  lemma StartCycleEffect(p: Profile, s: Device, b: int)
    requires |s.window| == WINDOW_SIZE && BlockSize(b)
    ensures var t, r := StartCycle(p, s, b), Regs(p, s);
            var r' := r.(hsfc := ControlWord(r.hsfc, b));
            && t.flash == s.flash && t.last == s.last
            && (s.busy.Some? ==> SameCycle(s, t) && Regs(p, t) == r')
            && (s.busy.None? ==>
                  && t.busy == Some(CycleFor(s, r.faddr, b))
                  && t.remaining == p.latency(s.started) && t.started == s.started + 1
                  && Regs(p, t) == r'.(hsfs := StartedStatus(r.hsfs)))
  {
    hide View, Store16, ControlWord, StartedStatus;
    var v := ControlWord(Load16(s.window, p.bar + 0x06), b);
    ControlWordBits(Load16(s.window, p.bar + 0x06), b);
    ViewHsfs(s.window, p.bar);
    ViewOfHsfc(s.window, p.bar, v);
    var w := Store16(s.window, p.bar + 0x06, v);
    ViewHsfs(w, p.bar);
    ViewOfHsfs(w, p.bar, StartedStatus(Load16(w, p.bar + 0x04)));
  }

  /** Programming a block on an idle device: its cycle is in flight, FDATA and the
      flash are untouched, and FDONE and FCERR are set exactly if the device does
      not clear on a write of zero and they were set before. */
  lemma PrepareIdle(p: Profile, s: Device, cur: int, b: int)
    requires Idle(p, s) && BlockSize(b)
    ensures var t := Prepare(p, s, cur, b);
            && t.busy == Some(CycleFor(s, cur, b))
            && t.remaining == p.latency(s.started) && t.started == s.started + 1
            && t.flash == s.flash && t.last == s.last
            && Regs(p, t).fdata == Regs(p, s).fdata
            && Regs(p, t).faddr % 0x200_0000 == cur % 0x200_0000
            && Scip(Regs(p, t).hsfs)
            && (Fdone(Regs(p, t).hsfs) <==> p.policy.WriteOneToClear? && Fdone(Regs(p, s).hsfs))
            && (Fcerr(Regs(p, t).hsfs) <==> p.policy.WriteOneToClear? && Fcerr(Regs(p, s).hsfs))
  {
    hide View, ClearStatus, ProgramAddress, StartCycle, WrittenStatus, StatusWord, AddressWord, ControlWord,
      StartedStatus, Scip, Fdone, Fcerr, Regs;
    var s1 := ClearStatus(p, s);
    var s2 := ProgramAddress(p, s1, cur);
    ClearStatusEffect(p, s);
    StatusAfterClear(p.policy, Regs(p, s).hsfs);
    ProgramAddressEffect(p, s1, cur);
    AddressWordBits(Regs(p, s1).faddr, cur);
    StartCycleEffect(p, s2, b);
    StatusBits(Regs(p, s2).hsfs, false);
  }

  // ---------------------------------------------------------------------
  // Polling
  // ---------------------------------------------------------------------

  /** The device after the cycle in flight has completed. */
  predicate Completed(p: Profile, s: Device, t: Device)
    requires |s.window| == WINDOW_SIZE && s.busy.Some?
  {
    && |t.window| == WINDOW_SIZE
    && t.busy.None? && t.last == Some(s.busy.value) && t.started == s.started
    && t.flash == (if s.busy.value.kind == READ_CYCLE || p.fails(s.busy.value) then s.flash
                   else p.mutate(s.busy.value, s.flash))
    && Regs(p, t) == CompletedRegs(p, Regs(p, s), s.flash, s.busy.value)
  }

  /** With FDONE clear, polling ends exactly when the cycle completes: one read per
      unit of latency and one more. */
  lemma {:induction false} PollWaits(p: Profile, s: Device)
    requires |s.window| == WINDOW_SIZE && s.busy.Some? && !Fdone(Regs(p, s).hsfs)
    ensures var (t, h, n) := Poll(p, s);
            && Completed(p, s, t) && n == s.remaining + 1 && h == Regs(p, t).hsfs
    decreases s.remaining
  {
    hide View, DecodeHsfs, CompletedWindow, CompletedRegs, CompletedStatus, Fdone;
    var (t, h) := Read16(p, s, p.bar + 0x04);
    PollStep(p, s);
    if s.remaining == 0 {
      ViewOfCompleted(p, s.window, s.flash, s.busy.value);
      CompletedIsDone(p, Regs(p, s), s.flash, s.busy.value);
    } else {
      ViewHsfs(s.window, p.bar);
      PollWaits(p, t);
    }
  }

  lemma CompletedIsDone(p: Profile, r: RegView, flash: seq<byte>, c: Cycle)
    requires |r.fdata| == 64
    ensures var h := CompletedRegs(p, r, flash, c).hsfs;
            Fdone(h) && !Scip(h) && (Fcerr(h) <==> p.fails(c) || Fcerr(r.hsfs))
  {
    hide CompletedStatus, FlashSlice;
    StatusBits(r.hsfs, p.fails(c));
  }

  /** With FDONE already set, the first read ends the loop: the device has made one
      step, whether or not the cycle is complete. */
  lemma PollOnce(p: Profile, s: Device)
    requires |s.window| == WINDOW_SIZE && Fdone(Regs(p, s).hsfs)
    ensures var (t, h, n) := Poll(p, s);
            && n == 1 && SameCycle(Tick(p, s), t) && t.window == Tick(p, s).window
            && h == Regs(p, t).hsfs && Fdone(h)
  {
    hide View, DecodeHsfs, CompletedWindow, CompletedRegs, CompletedStatus, Fdone;
    PollStep(p, s);
    ViewHsfs(s.window, p.bar);
  }

  // ---------------------------------------------------------------------
  // Draining FDATA
  // ---------------------------------------------------------------------

  /** Draining delivers the FDATA bytes and changes nothing but the log. */
  lemma {:induction false} DrainEffect(p: Profile, s: Device, m: nat)
    requires |s.window| == WINDOW_SIZE && m <= 16
    ensures var (t, words) := Drain(p, s, m);
            && SameCycle(s, t) && t.window == s.window
            && Bytes(words) == Regs(p, s).fdata[..4 * m]
    decreases m
  {
    if m != 0 {
      DrainEffect(p, s, m - 1);
      var (t, words) := Drain(p, s, m - 1);
      var at := p.bar + 0x10 + (m - 1) * 4;
      var w := Load32(s.window, at);
      assert Drain(p, s, m).1 == words + [w];
      BytesAppend(words, w);
      Bytes32OfLoad(s.window, at);
      FdataWord(s.window, p.bar, m - 1);
    }
  }

  lemma BytesAppend(words: seq<word32>, w: word32)
    ensures Bytes(words + [w]) == Bytes(words) + Bytes32(w)
  {
    hide Bytes32;
    assert (words + [w])[..|words|] == words;
  }

  lemma FdataWord(w: seq<byte>, bar: SpiBase, i: nat)
    requires |w| == WINDOW_SIZE && i < 16
    ensures View(w, bar).fdata[..4 * i] + w[bar + 0x10 + i * 4..bar + 0x10 + i * 4 + 4]
            == View(w, bar).fdata[..4 * (i + 1)]
  {
    hide Load16, Load32;
    NextFour(w, bar + 0x10, 4 * i);
  }

  lemma NextFour(w: seq<byte>, f: nat, j: nat)
    requires f + 64 <= |w| && j <= 60
    ensures w[f..f + 64][..j] + w[f + j..f + j + 4] == w[f..f + 64][..j + 4]
  {
    var left, right := w[f..f + 64][..j] + w[f + j..f + j + 4], w[f..f + 64][..j + 4];
    assert |left| == |right| == j + 4;
    forall i | 0 <= i < j + 4
      ensures left[i] == right[i]
    {
      assert right[i] == w[f + i];
      assert i < j ==> left[i] == w[f + i];
      assert i >= j ==> left[i] == w[f + j + (i - j)];
    }
  }

  // ---------------------------------------------------------------------
  // One block
  // ---------------------------------------------------------------------

  /** The driver's write of zeros leaves FDONE set. */
  predicate StaleDone(p: Profile, s: Device)
    requires |s.window| == WINDOW_SIZE
  {
    p.policy.WriteOneToClear? && Fdone(Regs(p, s).hsfs)
  }

  /** FDATA after the cycle c. */
  function Delivered(p: Profile, fdata: seq<byte>, flash: seq<byte>, c: Cycle): (r: seq<byte>)
    requires |fdata| == 64 && c.count <= 64
    ensures |r| == 64
  {
    if p.fails(c) then fdata else Filled(fdata, FlashSlice(flash, c.address, c.count))
  }

  /** A block read on an idle device whose FDONE was really cleared, or whose cycle
      takes no time: the data handed out is what this block's own cycle left in
      FDATA, and the loop polled once per unit of latency and once more. */
  lemma BlockCompletes(p: Profile, s: Device, cur: int, b: int)
    requires Idle(p, s) && BlockSize(b)
    requires StaleDone(p, s) ==> p.latency(s.started) == 0
    ensures var (t, o) := ReadBlock(p, s, cur, b);
            var c := CycleFor(s, cur, b);
            && Idle(p, t) && Fdone(Regs(p, t).hsfs)
            && t.flash == s.flash && t.last == Some(c) && t.started == s.started + 1
            && Regs(p, t).fdata == Delivered(p, Regs(p, s).fdata, s.flash, c)
            && o.data == Regs(p, t).fdata[..b / 4 * 4]
            && o.polls == p.latency(s.started) + 1
            && (Fcerr(Regs(p, t).hsfs) <==> o.error)
            && (o.error <==> p.fails(c) || (p.policy.WriteOneToClear? && Fcerr(Regs(p, s).hsfs)))
  {
    hide View, Prepare, Drain, Poll, Tick, Bytes, Fdone, Scip, Fcerr, DecodeHsfs, Filled, FlashSlice, CompletedStatus;
    var s1 := Prepare(p, s, cur, b);
    PrepareFinishes(p, s, cur, b);
    PrepareIdle(p, s, cur, b);
    var (s2, h, n) := Poll(p, s1);
    if Fdone(Regs(p, s1).hsfs) {
      PollOnce(p, s1);
      TickCompletes(p, s1);
    } else {
      PollWaits(p, s1);
    }
    CompletedIsDone(p, Regs(p, s1), s1.flash, s1.busy.value);
    DrainEffect(p, s2, b / 4);
    StatusFlags(h);
  }

  lemma TickCompletes(p: Profile, s: Device)
    requires |s.window| == WINDOW_SIZE && s.busy.Some? && s.remaining == 0
    ensures Completed(p, s, Tick(p, s))
  {
    hide View, CompletedWindow, CompletedRegs;
    ViewOfCompleted(p, s.window, s.flash, s.busy.value);
  }

  lemma StatusFlags(h: word16)
    ensures DecodeHsfs(h).fcerr == Fcerr(h) && DecodeHsfs(h).fdone == Fdone(h) && DecodeHsfs(h).scip == Scip(h)
  {
    hide DecodeHsfs;
    DecodeHsfsBits(h);
  }

  /** A block read on an idle device that kept FDONE set, with a cycle that takes
      time: the first poll ends the wait, the cycle is still in flight, and the
      data handed out is whatever FDATA held before. */
  lemma BlockPremature(p: Profile, s: Device, cur: int, b: int)
    requires Idle(p, s) && BlockSize(b)
    requires StaleDone(p, s) && p.latency(s.started) > 0
    ensures var (t, o) := ReadBlock(p, s, cur, b);
            && t.busy == Some(CycleFor(s, cur, b)) && t.remaining == p.latency(s.started) - 1
            && t.flash == s.flash && Regs(p, t).fdata == Regs(p, s).fdata
            && o.data == Regs(p, s).fdata[..b / 4 * 4] && o.polls == 1
  {
    hide View, Prepare, Drain, Poll, Bytes, Fdone, Scip, Fcerr, DecodeHsfs;
    var s1 := Prepare(p, s, cur, b);
    PrepareFinishes(p, s, cur, b);
    PrepareIdle(p, s, cur, b);
    PollOnce(p, s1);
    DrainEffect(p, Poll(p, s1).0, b / 4);
  }

  // ---------------------------------------------------------------------
  // A write-1-to-clear device in any state
  // ---------------------------------------------------------------------

  lemma TickKeepsDone(p: Profile, s: Device)
    requires |s.window| == WINDOW_SIZE && Fdone(Regs(p, s).hsfs)
    ensures Fdone(Regs(p, Tick(p, s)).hsfs)
  {
    hide View, CompletedWindow, CompletedRegs, Fdone;
    if s.busy.Some? && s.remaining == 0 {
      ViewOfCompleted(p, s.window, s.flash, s.busy.value);
      CompletedIsDone(p, Regs(p, s), s.flash, s.busy.value);
    }
  }

  /** Once FDONE is set on a write-1-to-clear device it stays set, and every poll
      loop ends on its first read, whatever the device is doing. */
  lemma DoneForever(p: Profile, s: Device, cur: int, b: int)
    requires |s.window| == WINDOW_SIZE && BlockSize(b) && StaleDone(p, s)
    ensures var (t, o) := ReadBlock(p, s, cur, b);
            StaleDone(p, t) && o.polls == 1
  {
    hide View, Tick, ClearStatus, ProgramAddress, StartCycle, Drain, Poll, Bytes, Fdone, Scip, Fcerr, DecodeHsfs,
      WrittenStatus, StatusWord, AddressWord, ControlWord, StartedStatus;
    var s1 := ClearStatus(p, s);
    var s2 := ProgramAddress(p, s1, cur);
    var s3 := Prepare(p, s, cur, b);
    PrepareFinishes(p, s, cur, b);
    TickKeepsDone(p, s);
    ClearStatusEffect(p, s);
    StatusAfterClear(p.policy, Regs(p, Tick(p, s)).hsfs);
    ProgramAddressEffect(p, s1, cur);
    StartCycleEffect(p, s2, b);
    StatusBits(Regs(p, s2).hsfs, false);
    assert Fdone(Regs(p, s3).hsfs);
    PollOnce(p, s3);
    DrainEffect(p, Poll(p, s3).0, b / 4);
  }
}
