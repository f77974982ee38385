/** Any number of calls on the same device, one after the other, with any arguments
    and any callbacks. */
module Sessions {
  import opened Memory
  import opened Registers
  import opened Controller
  import opened Protocol
  import opened BlockRead
  import opened Trace
  import opened Dump
  import opened DumpTheorems
  import opened BusSafety

  datatype Call = Call(address: int, size: int, block: int, callbacks: Callbacks)

  function RunCall(p: Profile, s: Device, c: Call): (Device, Status, seq<Event>)
    requires |s.window| == WINDOW_SIZE
  {
    Run(p, s, c.address, c.size, c.block, c.callbacks)
  }

  /** The device after the first i calls. */
  function After(p: Profile, s: Device, calls: seq<Call>, i: nat): (r: Device)
    requires |s.window| == WINDOW_SIZE && i <= |calls|
    ensures |r.window| == WINDOW_SIZE
  {
    if i == 0 then s
    else
      var t := After(p, s, calls, i - 1);
      WindowStays(p, t, calls[i - 1]);
      RunCall(p, t, calls[i - 1]).0
  }

  lemma WindowStays(p: Profile, s: Device, c: Call)
    requires |s.window| == WINDOW_SIZE
    ensures |RunCall(p, s, c).0.window| == WINDOW_SIZE
  {
  }

  // ---------------------------------------------------------------------
  // SCIP keeps its meaning
  // ---------------------------------------------------------------------

  lemma TickKeepsWf(p: Profile, s: Device)
    requires Wf(p, s)
    ensures Wf(p, Tick(p, s))
  {
    hide View, CompletedWindow, CompletedRegs, Scip;
    if s.busy.Some? && s.remaining == 0 {
      ViewOfCompleted(p, s.window, s.flash, s.busy.value);
      CompletedIsDone(p, Regs(p, s), s.flash, s.busy.value);
    }
  }

  lemma OpenedKeepsWf(p: Profile, s: Device)
    requires Wf(p, s)
    ensures Wf(p, Opened(p, s))
  {
    hide View, Tick, Scip;
    TickKeepsWf(p, s);
  }

  lemma PrepareKeepsWf(p: Profile, s: Device, cur: int, b: int)
    requires Wf(p, s) && BlockSize(b)
    ensures Wf(p, Prepare(p, s, cur, b))
  {
    hide View, Tick, ClearStatus, ProgramAddress, StartCycle, Scip,
      WrittenStatus, StatusWord, AddressWord, ControlWord, StartedStatus;
    var s1 := ClearStatus(p, s);
    var s2 := ProgramAddress(p, s1, cur);
    TickKeepsWf(p, s);
    ClearStatusEffect(p, s);
    StatusAfterClear(p.policy, Regs(p, Tick(p, s)).hsfs);
    ProgramAddressEffect(p, s1, cur);
    StartCycleEffect(p, s2, b);
    StatusBits(Regs(p, s2).hsfs, false);
  }

  lemma {:induction false} PollKeepsWf(p: Profile, s: Device)
    requires Wf(p, s) && WillFinish(p, s)
    ensures Wf(p, Poll(p, s).0)
    decreases if s.busy.Some? then s.remaining + 1 else 0
  {
    hide View, DecodeHsfs, Fdone, Tick, Scip;
    var (t, h) := Read16(p, s, p.bar + 0x04);
    PollStep(p, s);
    OpenedKeepsWf(p, s);
    if !Fdone(h) {
      PollKeepsWf(p, t);
    }
  }

  lemma FetchKeepsWf(p: Profile, s: Device, cur: int, b: int)
    requires Wf(p, s) && BlockSize(b)
    ensures Wf(p, Fetch(p, s, cur, b).0)
  {
    hide Prepare, Poll, View;
    PrepareFinishes(p, s, cur, b);
    PrepareKeepsWf(p, s, cur, b);
    PollKeepsWf(p, Prepare(p, s, cur, b));
  }

  lemma {:induction false} BlocksKeepWf(p: Profile, s: Device, a: int, b: int, i: nat)
    requires Wf(p, s) && BlockSize(b)
    ensures Wf(p, AfterBlocks(p, s, a, b, i))
  {
    hide Fetch, Drain, Bytes, DecodeHsfs, View, Addr, Scip;
    if i != 0 {
      var t, cur := AfterBlocks(p, s, a, b, i - 1), Addr(a, b, i - 1);
      BlocksKeepWf(p, s, a, b, i - 1);
      FetchKeepsWf(p, t, cur, b);
      DrainEffect(p, Fetch(p, t, cur, b).0, b / 4);
    }
  }

  lemma CallKeepsWf(p: Profile, s: Device, c: Call)
    requires Wf(p, s)
    ensures Wf(p, RunCall(p, s, c).0)
  {
    hide Run, Fetch, AfterBlocks, View, Opened, Addresses, Scip;
    var a, b, t := c.address, c.block, Opened(p, s);
    var k := |Addresses(RunCall(p, s, c).2)|;
    RunEnds(p, s, a, c.size, b, c.callbacks);
    OpenedKeepsWf(p, s);
    if BlockSize(b) {
      BlocksKeepWf(p, t, a, b, k);
      FetchKeepsWf(p, AfterBlocks(p, t, a, b, k), Addr(a, b, k), b);
    }
  }

  /** A call with valid arguments goes ahead exactly if no cycle is in flight or the one
      in flight has its latency behind it. */
  lemma GoesAheadIff(p: Profile, s: Device, c: Call)
    requires Wf(p, s) && BlockSize(c.block) && c.size % c.block == 0
    ensures RunCall(p, s, c).1 == Ok <==> s.busy.None? || s.remaining == 0
  {
    hide Run, View, Scip, CompletedWindow;
    ProceedsIffIdle(p, s, c.address, c.size, c.block, c.callbacks);
    OpenedKeepsWf(p, s);
  }

  /** Over any calls, whatever the device does, SCIP stays set exactly while a cycle is
      in flight, and the flash stays as it was unless a cycle that changes it was in
      flight before the first call. */
  lemma {:induction false} SessionIsSafe(p: Profile, s: Device, calls: seq<Call>, i: nat)
    requires Wf(p, s) && i <= |calls|
    ensures Wf(p, After(p, s, calls, i))
    ensures ReadOnly(s) ==> After(p, s, calls, i).flash == s.flash && ReadOnly(After(p, s, calls, i))
    decreases i
  {
    hide Run, View, Scip, ReadOnly;
    if i != 0 {
      var t, c := After(p, s, calls, i - 1), calls[i - 1];
      SessionIsSafe(p, s, calls, i - 1);
      CallKeepsWf(p, t, c);
      RunIsReadOnly(p, t, c.address, c.size, c.block, c.callbacks);
    }
  }

  // ---------------------------------------------------------------------
  // The device the driver was written for
  // ---------------------------------------------------------------------

  /** A call leaves an idle store-as-written device idle, even if a callback stopped it
      half-way. */
  lemma CallLeavesIdle(p: Profile, s: Device, c: Call)
    requires Idle(p, s) && p.policy.StoreAsWritten?
    ensures Idle(p, RunCall(p, s, c).0)
  {
    hide Run, Fetch, AfterBlocks, View, Opened, Addresses, Scip, Timely, Held;
    var a, b, t := c.address, c.block, Opened(p, s);
    var k := |Addresses(RunCall(p, s, c).2)|;
    RunEnds(p, s, a, c.size, b, c.callbacks);
    OpenedIdle(p, s);
    if BlockSize(b) {
      AlwaysTimely(p, t, k);
      TimelyState(p, t, a, b, k, k);
      FetchRests(p, AfterBlocks(p, t, a, b, k), Addr(a, b, k), b);
    }
  }

  lemma AlwaysTimely(p: Profile, s: Device, n: nat)
    requires |s.window| == WINDOW_SIZE && p.policy.StoreAsWritten?
    ensures Timely(p, s, n)
  {
  }

  lemma {:induction false} SessionStaysIdle(p: Profile, s: Device, calls: seq<Call>, i: nat)
    requires Idle(p, s) && p.policy.StoreAsWritten? && i <= |calls|
    ensures Idle(p, After(p, s, calls, i)) && After(p, s, calls, i).flash == s.flash
    decreases i
  {
    hide Run, View, Scip;
    if i != 0 {
      SessionStaysIdle(p, s, calls, i - 1);
      CallLeavesIdle(p, After(p, s, calls, i - 1), calls[i - 1]);
    }
    SessionIsSafe(p, s, calls, i);
  }

  /** No read fails. */
  ghost predicate Reliable(p: Profile) {
    forall c: Cycle :: c.kind == READ_CYCLE ==> !p.fails(c)
  }

  /** On an idle store-as-written device no call with valid arguments is ever turned
      away, whatever calls came before and wherever callbacks stopped them. If no read
      fails, every call over a range that can be dumped has delivered the flash, as it
      was at the start of the session, over exactly the blocks it handed out. */
  lemma SessionDump(p: Profile, s: Device, calls: seq<Call>, i: nat)
    requires Idle(p, s) && p.policy.StoreAsWritten? && i < |calls|
    ensures var c := calls[i];
            var (u, status, trace) := RunCall(p, After(p, s, calls, i), c);
            && (status == Ok <==> BlockSize(c.block) && c.size % c.block == 0)
            && (Reliable(p) && InRange(c.address, c.size, c.block) ==>
                  var k := |Addresses(trace)|;
                  && k <= BlockCount(c.size, c.block) && 0 <= Addr(0, c.block, k)
                  && Contents(trace) == FlashSlice(s.flash, c.address, Addr(0, c.block, k)))
  {
    hide Run, View, Opened, Addresses, Scip, Timely, Contents, FlashSlice, Addr, Events, Outcomes, Cut, After;
    var t, c := After(p, s, calls, i), calls[i];
    SessionStaysIdle(p, s, calls, i);
    OpenedIdle(p, t);
    RunRefines(p, t, c.address, c.size, c.block, c.callbacks);
    if BlockSize(c.block) && c.size % c.block == 0 {
      IdleProceeds(p, t, c.address, c.size, c.block, c.callbacks);
    }
    if Reliable(p) && InRange(c.address, c.size, c.block) {
      AlwaysTimely(p, Opened(p, t), BlockCount(c.size, c.block));
      PartialDump(p, t, c.address, c.size, c.block, c.callbacks);
    }
  }

  // ---------------------------------------------------------------------
  // A write-1-to-clear device
  // ---------------------------------------------------------------------

  /** Here a call can leave its last cycle in flight. After a call for one block on an
      idle device that kept FDONE, the next call goes ahead exactly if the latency of
      that cycle is at most one. */
  lemma NextCallGoesAheadIff(p: Profile, s: Device, c: Call, d: Call)
    requires Idle(p, s) && p.policy.WriteOneToClear? && Fdone(Regs(p, s).hsfs)
    requires BlockSize(c.block) && c.size == c.block && Continuing(c.callbacks)
    requires BlockSize(d.block) && d.size % d.block == 0
    ensures RunCall(p, s, c).1 == Ok
    ensures |RunCall(p, s, c).0.window| == WINDOW_SIZE
    ensures RunCall(p, RunCall(p, s, c).0, d).1 == Ok <==> p.latency(s.started) <= 1
  {
    hide Run, View, Opened, Scip, Fdone, ReadBlock;
    var u := RunCall(p, s, c).0;
    OneBlock(p, s, c);
    CallKeepsWf(p, s, c);
    GoesAheadIff(p, u, d);
  }

  /** The cycle of a one-block call that did not wait. */
  lemma OneBlock(p: Profile, s: Device, c: Call)
    requires Idle(p, s) && p.policy.WriteOneToClear? && Fdone(Regs(p, s).hsfs)
    requires BlockSize(c.block) && c.size == c.block && Continuing(c.callbacks)
    ensures var (u, status, trace) := RunCall(p, s, c);
            && status == Ok && (u.busy.Some? <==> p.latency(s.started) > 0)
            && (u.busy.Some? ==> u.remaining == p.latency(s.started) - 1)
  {
    hide Run, View, Opened, Addresses, Scip, Fdone, ReadBlock, Fetch, Addr, Events, Outcomes, Contents, Joined;
    var a, b, t := c.address, c.block, Opened(p, s);
    OpenedIdle(p, s);
    IdleProceeds(p, s, a, b, b, c.callbacks);
    RunEnds(p, s, a, b, b, c.callbacks);
    RunDump(p, s, a, b, b, c.callbacks);
    EventAddresses(Outcomes(p, t, a, b, 1), a, b, c.callbacks, 0);
    EndsWell(Outcomes(p, t, a, b, 1), a, b, c.callbacks);
    assert AfterBlocks(p, t, a, b, 1) == ReadBlock(p, t, Addr(a, b, 0), b).0;
    if p.latency(s.started) > 0 {
      BlockPremature(p, t, Addr(a, b, 0), b);
    } else {
      BlockCompletes(p, t, Addr(a, b, 0), b);
    }
  }

  /** An uninterrupted run does not end in an error. */
  lemma EndsWell(outs: seq<Outcome>, a: int, b: int, cb: Callbacks)
    ensures !EndsInError(Events(outs, a, b, cb, 0))
  {
    hide Events;
    var e := Events(outs, a, b, cb, 0);
    EventsShape(outs, a, b, cb, 0);
    assert EndsInError(e) ==> BlockFollows(e, |e| - 1);
  }
}
