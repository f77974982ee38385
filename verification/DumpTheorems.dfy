/** The main results about the dump: when it is the flash, what it is otherwise. */
module DumpTheorems {
  import opened Memory
  import opened Controller
  import opened Protocol
  import opened BlockRead
  import opened Trace
  import opened Dump

  /** None of the cycles of blocks 0 to n - 1 fails; others may. */
  predicate Readable(p: Profile, started: nat, a: int, b: int, n: nat)
    requires BlockSize(b)
  {
    forall i :: 0 <= i < n ==> !p.fails(CycleAt(started, a, b, i))
  }

  /** A request that can be dumped faithfully: whole blocks of whole words, inside the
      25-bit address space. */
  predicate InRange(a: int, size: int, b: int) {
    BlockSize(b) && b % 4 == 0 && size >= 0 && size % b == 0 && 0 <= a && a + size <= 0x200_0000
  }

  // ---------------------------------------------------------------------
  // The dump is the flash
  // ---------------------------------------------------------------------

  lemma SliceAppend(flash: seq<byte>, a: nat, m: nat, n: nat)
    ensures FlashSlice(flash, a, m) + FlashSlice(flash, a + m, n) == FlashSlice(flash, a, m + n)
  {
  }

  lemma {:induction false} AddrShift(a: int, b: int, k: nat)
    ensures Addr(a, b, k) == a + Addr(0, b, k)
  {
    if k != 0 {
      AddrShift(a, b, k - 1);
    }
  }

  lemma {:induction false} JoinedFlash(outs: seq<Outcome>, flash: seq<byte>, a: nat, b: nat, k: nat)
    requires k <= |outs|
    requires forall i :: 0 <= i < k ==> 0 <= Addr(a, b, i) && outs[i].data == FlashSlice(flash, Addr(a, b, i), b)
    ensures 0 <= Addr(0, b, k) && Joined(outs, k) == FlashSlice(flash, a, Addr(0, b, k))
    decreases k
  {
    hide FlashSlice, FlashByte, Addr;
    if k == 0 {
      AddrMeaning(0, b, 0);
      EmptySlice(flash, a);
    } else {
      JoinedFlash(outs, flash, a, b, k - 1);
      AddrShift(a, b, k - 1);
      AddrNext(0, b, k - 1);
      assert outs[k - 1].data == FlashSlice(flash, Addr(a, b, k - 1), b);
      SliceAppend(flash, a, Addr(0, b, k - 1), b);
    }
  }

  lemma EmptySlice(flash: seq<byte>, a: nat)
    ensures FlashSlice(flash, a, 0) == []
  {
  }

  /** A block of a timely run whose cycle succeeded holds the flash at its address, as
      far as the 25-bit address register reaches. */
  lemma GoodBlock(p: Profile, s: Device, a: int, b: int, n: nat, i: nat)
    requires Idle(p, s) && BlockSize(b) && Timely(p, s, n) && i < n
    requires !p.fails(CycleAt(s.started, a, b, i))
    ensures OutcomeAt(p, s, a, b, i).data == FlashSlice(s.flash, Addr(a, b, i) % 0x200_0000, b / 4 * 4)
  {
    hide OutcomeAt, Held, Addr, View, Timely, FlashSlice;
    TimelyOutcome(p, s, a, b, n, i);
    HeldIsLastGood(p, s, a, b, i);
  }

  /** Blocks that end inside the 25-bit address space are addressed exactly. */
  lemma InReach(a: int, b: int, n: nat, i: nat)
    requires 0 <= a && 0 < b && i < n && Addr(a, b, n) <= 0x200_0000
    ensures 0 <= Addr(a, b, i) && Addr(a, b, i) % 0x200_0000 == Addr(a, b, i)
  {
    AddrOrder(a, b, i, n);
    AddrOrder(a, b, 0, i);
  }

  /** End to end: if none of its own cycles fails and the callbacks continue, the dump
      of a timely run over a range that can be dumped is exactly the flash there. The
      device may have had a cycle in flight that the first status read completes. */
  lemma DumpIsFlash(p: Profile, s: Device, a: int, size: int, b: int, cb: Callbacks)
    requires |s.window| == WINDOW_SIZE && Idle(p, Opened(p, s)) && InRange(a, size, b) && Continuing(cb)
    requires Timely(p, Opened(p, s), BlockCount(size, b))
    requires Readable(p, Opened(p, s).started, a, b, BlockCount(size, b))
    ensures var (u, status, trace) := Run(p, s, a, size, b, cb);
            var flash := Opened(p, s).flash;
            && status == Ok && Contents(trace) == FlashSlice(flash, a, size)
            && (a + size <= |flash| ==> Contents(trace) == flash[a..a + size])
  {
    hide Run, OutcomeAt, Addr, Contents, Joined, View, Timely, FlashSlice, Opened, Events;
    var t, n := Opened(p, s), BlockCount(size, b);
    IdleProceeds(p, s, a, size, b, cb);
    RunDump(p, s, a, size, b, cb);
    EndAddress(a, size, b);
    AddrShift(a, b, n);
    var outs := Outcomes(p, t, a, b, n);
    forall i | 0 <= i < n
      ensures 0 <= Addr(a, b, i) && outs[i].data == FlashSlice(t.flash, Addr(a, b, i), b)
    {
      GoodBlock(p, t, a, b, n, i);
      InReach(a, b, n, i);
    }
    JoinedFlash(outs, t.flash, a, b, n);
    SliceInside(t.flash, a, size);
  }

  lemma SliceInside(flash: seq<byte>, a: nat, n: nat)
    ensures a + n <= |flash| ==> FlashSlice(flash, a, n) == flash[a..a + n]
  {
    if a + n <= |flash| {
      var left, right := FlashSlice(flash, a, n), flash[a..a + n];
      assert forall i :: 0 <= i < n ==> left[i] == right[i];
    }
  }

  /** For the device the driver was written for: started idle, it dumps exactly the
      requested range of the flash, however long its cycles take. */
  lemma StoreAsWrittenDump(p: Profile, s: Device, a: int, size: int, b: int, cb: Callbacks)
    requires Idle(p, s) && p.policy.StoreAsWritten? && InRange(a, size, b) && Continuing(cb)
    requires a + size <= |s.flash| && Readable(p, s.started, a, b, BlockCount(size, b))
    ensures var (u, status, trace) := Run(p, s, a, size, b, cb);
            status == Ok && Contents(trace) == s.flash[a..a + size]
  {
    hide Run, Contents, Opened, View, Readable;
    OpenedIdle(p, s);
    DumpIsFlash(p, s, a, size, b, cb);
  }

  // ---------------------------------------------------------------------
  // Stopped runs
  // ---------------------------------------------------------------------

  /** Every block event carries l bytes. */
  predicate Uniform(t: seq<Event>, l: nat) {
    forall j :: 0 <= j < |t| && t[j].Block? ==> |t[j].data| == l
  }

  lemma {:induction false} ContentsLength(t: seq<Event>, l: nat)
    requires Uniform(t, l)
    ensures |Contents(t)| == Addr(0, l, |Addresses(t)|)
    decreases |t|
  {
    if t != [] {
      ContentsLength(t[..|t| - 1], l);
    }
  }

  lemma {:induction false} EventsUniform(outs: seq<Outcome>, a: int, b: int, cb: Callbacks, l: nat, i: nat)
    requires i <= |outs| && (forall k :: 0 <= k < |outs| ==> |outs[k].data| == l)
    ensures Uniform(Events(outs, a, b, cb, i), l)
    decreases |outs| - i
  {
    hide Addr;
    if i < |outs| {
      EventsUniform(outs, a, b, cb, l, i + 1);
    }
  }

  /** The callbacks may stop the run at any point: what has been dumped by then is the
      flash over exactly the blocks handed out. */
  lemma PartialDump(p: Profile, s: Device, a: int, size: int, b: int, cb: Callbacks)
    requires |s.window| == WINDOW_SIZE && Idle(p, Opened(p, s)) && InRange(a, size, b)
    requires Timely(p, Opened(p, s), BlockCount(size, b))
    requires Readable(p, Opened(p, s).started, a, b, BlockCount(size, b))
    ensures var trace := Run(p, s, a, size, b, cb).2;
            var k := |Addresses(trace)|;
            && k <= BlockCount(size, b) && 0 <= Addr(0, b, k)
            && Contents(trace) == FlashSlice(Opened(p, s).flash, a, Addr(0, b, k))
  {
    hide Run, OutcomeAt, Addr, Contents, Joined, View, Timely, FlashSlice, Opened, Events, Scip, Addresses,
      Readable, Cut;
    var t, n := Opened(p, s), BlockCount(size, b);
    var outs := Outcomes(p, t, a, b, n);
    IdleProceeds(p, s, a, size, b, cb);
    RunRefines(p, s, a, size, b, cb);
    // The same device under callbacks that never stop.
    var on := Callbacks(cb.onError, cb.onDone, _ => true);
    DumpIsFlash(p, s, a, size, b, on);
    RunDump(p, s, a, size, b, on);
    ContentsOfEvents(outs, a, b, cb, 0);
    NothingJoined(outs);
    assert Contents(Events(outs, a, b, cb, 0)) == FlashSlice(t.flash, a, size);
    CutContents(outs, a, b, cb, Run(p, s, a, size, b, cb).2, t.flash, size);
  }

  lemma CutContents(outs: seq<Outcome>, a: nat, b: nat, cb: Callbacks, t: seq<Event>, flash: seq<byte>, size: nat)
    requires Cut(Events(outs, a, b, cb, 0), t, cb, []) && (forall k :: 0 <= k < |outs| ==> |outs[k].data| == b)
    requires Contents(Events(outs, a, b, cb, 0)) == FlashSlice(flash, a, size)
    ensures var k := |Addresses(t)|;
            && k <= |outs| && 0 <= Addr(0, b, k)
            && Contents(t) == FlashSlice(flash, a, Addr(0, b, k))
  {
    hide Contents, Addr, Addresses, Events, Uniform, FlashSlice;
    var full := Events(outs, a, b, cb, 0);
    CutAddresses(outs, a, b, cb, t);
    assert t + full[|t|..] == full;
    ContentsAppend(t, full[|t|..]);
    EventsUniform(outs, a, b, cb, b, 0);
    UniformPrefix(full, t, b);
    ContentsLength(t, b);
    SlicePrefix(flash, a, |Contents(t)|, size);
  }

  lemma UniformPrefix(full: seq<Event>, t: seq<Event>, l: nat)
    requires Uniform(full, l) && t <= full
    ensures Uniform(t, l)
  {
  }

  lemma SlicePrefix(flash: seq<byte>, a: nat, k: nat, n: nat)
    ensures k <= n ==> FlashSlice(flash, a, n)[..k] == FlashSlice(flash, a, k)
  {
  }

  lemma NothingJoined(outs: seq<Outcome>)
    ensures Joined(outs, 0) == []
  {
  }

  // ---------------------------------------------------------------------
  // Block k delivers old data
  // ---------------------------------------------------------------------

  /** The first block whose cycle takes time although FDONE is still set is handed
      out early: it polls once and repeats what FDATA held. */
  lemma StaleBlock(p: Profile, s: Device, a: int, b: int, k: nat)
    requires Idle(p, s) && BlockSize(b) && Timely(p, s, k) && Early(p, s, k)
    ensures var o := OutcomeAt(p, s, a, b, k);
            && o.polls == 1
            && o.data == Held(p, s, a, b, k)[..b / 4 * 4]
            && (k > 0 ==> o.data == OutcomeAt(p, s, a, b, k - 1).data)
  {
    hide ReadBlock, Held, Addr, View, Fdone, Fcerr, Scip;
    TimelyState(p, s, a, b, k, k);
    BlockPremature(p, AfterBlocks(p, s, a, b, k), Addr(a, b, k), b);
    if k > 0 {
      TimelyOutcome(p, s, a, b, k, k - 1);
    }
  }

  /** Block k finds FDONE still set and its cycle takes time. */
  predicate Early(p: Profile, s: Device, k: nat)
    requires |s.window| == WINDOW_SIZE
  {
    p.policy.WriteOneToClear? && (k > 0 || Fdone(Regs(p, s).hsfs)) && !Instant(p, s, k)
  }

  /** On a write-1-to-clear device with a second cycle that takes any time at all,
      the second block handed out is the first block's data. */
  lemma SecondBlockRepeatsFirst(p: Profile, s: Device, a: int, b: int)
    requires Idle(p, s) && BlockSize(b) && p.policy.WriteOneToClear?
    requires !Fdone(Regs(p, s).hsfs) && p.latency(s.started + 1) > 0
    ensures OutcomeAt(p, s, a, b, 1).data == OutcomeAt(p, s, a, b, 0).data
  {
    hide OutcomeAt, Held, View, Fdone;
    StaleBlock(p, s, a, b, 1);
  }

  // ---------------------------------------------------------------------
  // Exactly when the dump is right
  // ---------------------------------------------------------------------

  /** The dump the device gives when its flash holds `flash`. */
  function DumpOf(p: Profile, s: Device, flash: seq<byte>, a: int, size: int, b: int, cb: Callbacks): seq<byte>
    requires |s.window| == WINDOW_SIZE
  {
    Contents(Run(p, s.(flash := flash), a, size, b, cb).2)
  }

  /** The dump is right for every flash contents if and only if the run is timely and
      none of its own cycles fails. Timely is no condition on a store-as-written
      device; on a write-1-to-clear device every block after the first (and the first,
      if FDONE was set) has to complete on its first status read. */
  lemma DumpRightIffTimelyAndReadable(p: Profile, s: Device, a: int, size: int, b: int, cb: Callbacks)
    requires Idle(p, s) && InRange(a, size, b) && Continuing(cb)
    ensures (forall flash: seq<byte> :: |flash| >= a + size ==>
               DumpOf(p, s, flash, a, size, b, cb) == flash[a..a + size])
            <==> Timely(p, s, BlockCount(size, b)) && Readable(p, s.started, a, b, BlockCount(size, b))
  {
    hide Run, Contents, View, Timely, Addr, Opened, Readable;
    var n := BlockCount(size, b);
    if Timely(p, s, n) && Readable(p, s.started, a, b, n) {
      forall flash: seq<byte> | |flash| >= a + size
        ensures DumpOf(p, s, flash, a, size, b, cb) == flash[a..a + size]
      {
        var s' := s.(flash := flash);
        OpenedIdle(p, s');
        TimelyIgnoresFlash(p, s, flash, n);
        TimelyIgnoresLog(p, s', Opened(p, s'), n);
        DumpIsFlash(p, s', a, size, b, cb);
      }
    } else {
      var k := FirstBad(p, s, a, b, n);
      var flash := Contrast(p, s, a, size, b, k);
      ContrastIsMissed(p, s, a, size, b, cb, k);
      assert DumpOf(p, s, flash, a, size, b, cb) != flash[a..a + size];
    }
  }

  lemma TimelyIgnoresFlash(p: Profile, s: Device, flash: seq<byte>, n: nat)
    requires |s.window| == WINDOW_SIZE
    ensures Timely(p, s.(flash := flash), n) <==> Timely(p, s, n)
  {
    hide View, Fdone;
    assert forall i: nat :: Instant(p, s, i) == Instant(p, s.(flash := flash), i);
  }

  /** Block k is handed out early or its cycle fails. */
  predicate Bad(p: Profile, s: Device, a: int, b: int, k: nat)
    requires |s.window| == WINDOW_SIZE && BlockSize(b)
  {
    Early(p, s, k) || p.fails(CycleAt(s.started, a, b, k))
  }

  /** The first such block. */
  lemma FirstBad(p: Profile, s: Device, a: int, b: int, n: nat) returns (k: nat)
    requires |s.window| == WINDOW_SIZE && BlockSize(b)
    requires !(Timely(p, s, n) && Readable(p, s.started, a, b, n))
    ensures k < n && Bad(p, s, a, b, k) && Timely(p, s, k) && Readable(p, s.started, a, b, k)
  {
    hide View, Fdone, Addr;
    k := 0;
    while !Bad(p, s, a, b, k)
      invariant k < n && Timely(p, s, k) && Readable(p, s.started, a, b, k)
      decreases n - k
    {
      assert Timely(p, s, k + 1) && Readable(p, s.started, a, b, k + 1);
      k := k + 1;
    }
  }

  /** The first bad block repeats what FDATA held before it. */
  lemma BadBlock(p: Profile, s: Device, a: int, b: int, k: nat)
    requires Idle(p, s) && BlockSize(b) && Timely(p, s, k) && Bad(p, s, a, b, k)
    ensures OutcomeAt(p, s, a, b, k).data == Held(p, s, a, b, k)[..b / 4 * 4]
  {
    hide OutcomeAt, View, Fdone, Addr;
    if Early(p, s, k) {
      StaleBlock(p, s, a, b, k);
    } else {
      assert Timely(p, s, k + 1);
      TimelyOutcome(p, s, a, b, k + 1, k);
    }
  }

  /** Flash contents on which block k differs from what is handed out instead. */
  function Contrast(p: Profile, s: Device, a: int, size: int, b: int, k: nat): (flash: seq<byte>)
    requires |s.window| == WINDOW_SIZE && BlockSize(b) && 0 <= a && 0 <= size
    ensures |flash| == a + size
    ensures forall j :: 0 <= j < |flash| ==> flash[j] == ContrastByte(Before(p, s, k), Addr(a, b, k), j)
  {
    seq<byte>(a + size, j requires 0 <= j => ContrastByte(Before(p, s, k), Addr(a, b, k), j))
  }

  function ContrastByte(x: byte, from: int, j: int): byte {
    if j >= from then OtherThan(x) else x
  }

  function OtherThan(x: byte): byte { if x == 0 then 1 else 0 }

  /** The byte handed out in place of the first byte of block k. */
  function Before(p: Profile, s: Device, k: nat): byte
    requires |s.window| == WINDOW_SIZE
  {
    if k == 0 then Regs(p, s).fdata[0] else 0
  }

  lemma ContrastIsMissed(p: Profile, s: Device, a: int, size: int, b: int, cb: Callbacks, k: nat)
    requires Idle(p, s) && InRange(a, size, b) && Continuing(cb)
    requires k < BlockCount(size, b) && Timely(p, s, k) && Readable(p, s.started, a, b, k) && Bad(p, s, a, b, k)
    ensures var flash := Contrast(p, s, a, size, b, k);
            DumpOf(p, s, flash, a, size, b, cb) != flash[a..a + size]
  {
    hide Run, Contents, View, Timely, Readable, Addr, Held, OutcomeAt, Fdone, Scip, Opened, Joined, Events, FlashSlice;
    var flash := Contrast(p, s, a, size, b, k);
    var s' := s.(flash := flash);
    var t, n := Opened(p, s'), BlockCount(size, b);
    OpenedIdle(p, s');
    IdleProceeds(p, s', a, size, b, cb);
    RunDump(p, s', a, size, b, cb);
    TimelyIgnoresFlash(p, s, flash, k);
    TimelyIgnoresLog(p, s', t, k);
    BadBlock(p, t, a, b, k);
    var o := OutcomeAt(p, t, a, b, k);
    MissedByte(p, t, a, size, b, k, flash);
    assert o.data[0] == Before(p, s, k);
    JoinedBlock(Outcomes(p, t, a, b, n), b, k, n);
    var at := Addr(0, b, k);
    AddrShift(a, b, k);
    EndAddress(a, size, b);
    AddrShift(a, b, n);
    AddrOrder(0, b, k, n);
    var d := DumpOf(p, s, flash, a, size, b, cb);
    assert d[at..at + b][0] == d[at];
    assert flash[a..a + size][at] == flash[a + at];
  }

  /** The first byte block k hands out is the byte just before the contrast. */
  lemma MissedByte(p: Profile, t: Device, a: int, size: int, b: int, k: nat, flash: seq<byte>)
    requires Idle(p, t) && InRange(a, size, b) && t.flash == flash
    requires k < BlockCount(size, b) && Timely(p, t, k) && Readable(p, t.started, a, b, k)
    requires |flash| == a + size
    requires forall j :: 0 <= j < |flash| && j < Addr(a, b, k) ==> flash[j] == Before(p, t, k)
    ensures Held(p, t, a, b, k)[0] == Before(p, t, k)
  {
    hide View, Timely, Addr, OutcomeAt, Delivered, Held;
    if k == 0 {
      HeldAtStart(p, t, a, b);
    } else {
      var l := b / 4 * 4;
      HeldIsLastGood(p, t, a, b, k - 1);
      assert !p.fails(CycleAt(t.started, a, b, k - 1));
      EndAddress(a, size, b);
      InReach(a, b, BlockCount(size, b), k - 1);
      AddrOrder(a, b, k - 1, k);
      AddrOrder(a, b, k, BlockCount(size, b));
      var h := Held(p, t, a, b, k);
      assert h[..l][0] == h[0];
      assert FlashSlice(flash, Addr(a, b, k - 1), l)[0] == flash[Addr(a, b, k - 1)];
    }
  }

  lemma HeldAtStart(p: Profile, s: Device, a: int, b: int)
    requires |s.window| == WINDOW_SIZE && BlockSize(b)
    ensures Held(p, s, a, b, 0) == Regs(p, s).fdata
  {
  }

  // ---------------------------------------------------------------------
  // Failing blocks
  // ---------------------------------------------------------------------

  /** With any set of failing cycles block k of a store-as-written dump stays in its
      place and holds the last successful block's bytes, or the initial FDATA. */
  lemma FailedBlocksRepeat(p: Profile, s: Device, a: int, size: int, b: int, cb: Callbacks, k: nat)
    requires |s.window| == WINDOW_SIZE && Idle(p, Opened(p, s)) && p.policy.StoreAsWritten?
    requires BlockSize(b) && size % b == 0 && Continuing(cb) && k < BlockCount(size, b)
    ensures var t, d, l := Opened(p, s), Contents(Run(p, s, a, size, b, cb).2), b / 4 * 4;
            var g := LastGood(p, t.started, a, b, k);
            && |d| == Addr(0, l, BlockCount(size, b))
            && 0 <= Addr(0, l, k) && Addr(0, l, k) + l <= |d|
            && d[Addr(0, l, k)..Addr(0, l, k) + l]
               == if g < 0 then Regs(p, t).fdata[..l] else FlashSlice(t.flash, Addr(a, b, g) % 0x200_0000, l)
  {
    hide Run, Contents, View, Held, Addr, FlashSlice, Opened, Joined, Outcomes, Events;
    IdleProceeds(p, s, a, size, b, cb);
    RunDump(p, s, a, size, b, cb);
    TimelyDump(p, s, a, size, b, cb, k);
    HeldIsLastGood(p, Opened(p, s), a, b, k);
  }

  /** The constants of the command-line tool. */
  const BLOCK_SIZE: int := 64
  const MAX_FLASH: int := 0x100_0000

  /** The tool's own call: from 0, 16 MiB in blocks of 64, no error handler. If the
      call goes ahead the file is exactly 16 MiB, whatever the device does. */
  lemma ToolDumpSize(p: Profile, s: Device, cb: Callbacks)
    requires |s.window| == WINDOW_SIZE && Continuing(cb)
    ensures var (u, status, trace) := Run(p, s, 0, MAX_FLASH, BLOCK_SIZE, cb);
            |Contents(trace)| == if status == Ok then MAX_FLASH else 0
  {
    hide Run, Contents, View, Addr, Opened, Joined, Outcomes, Events, Scip, Cut;
    RunRefines(p, s, 0, MAX_FLASH, BLOCK_SIZE, cb);
    ContentsOfOne(Done);
    if Run(p, s, 0, MAX_FLASH, BLOCK_SIZE, cb).1 == Ok {
      RunDump(p, s, 0, MAX_FLASH, BLOCK_SIZE, cb);
      assert BlockCount(MAX_FLASH, BLOCK_SIZE) == 0x4_0000;
      AddrMeaning(0, 64, 0x4_0000);
    }
  }

  /** The events of a run without an error handler: every block in order, then done. */
  lemma {:induction false} PlainEvents(outs: seq<Outcome>, a: int, b: int, cb: Callbacks, i: nat)
    requires i <= |outs| && !cb.onError && cb.onDone
    ensures var e, m := Events(outs, a, b, cb, i), |outs| - i;
            && |e| == m + 1 && e[m] == Done
            && forall j :: 0 <= j < m ==> e[j] == Block(Addr(a, b, i + j), outs[i + j].data)
    decreases |outs| - i
  {
    hide Addr;
    if i < |outs| {
      PlainEvents(outs, a, b, cb, i + 1);
      var e, rest := Events(outs, a, b, cb, i), Events(outs, a, b, cb, i + 1);
      assert e == [Block(Addr(a, b, i), outs[i].data)] + rest;
      forall j | 0 <= j < |outs| - i
        ensures e[j] == Block(Addr(a, b, i + j), outs[i + j].data)
      {
        if j > 0 {
          assert e[j] == rest[j - 1];
          assert i + 1 + (j - 1) == i + j;
        }
      }
    }
  }

  /** The tool's call on any device: turned away exactly when the first status read
      shows SCIP, after that read and without a callback; otherwise every block of the
      16 MiB is reported once, in order, with what the device delivered for it, then
      done, and the device has read exactly these blocks. */
  lemma ToolTrace(p: Profile, s: Device, cb: Callbacks)
    requires |s.window| == WINDOW_SIZE && Continuing(cb) && !cb.onError && cb.onDone
    ensures var t, (u, status, trace) := Opened(p, s), Run(p, s, 0, MAX_FLASH, BLOCK_SIZE, cb);
            if Scip(Read16(p, s, p.bar + 0x04).1) then
              status == Unavailable && u == t && trace == []
            else
              && status == Ok && u == AfterBlocks(p, t, 0, BLOCK_SIZE, 0x4_0000)
              && |trace| == 0x4_0001 && trace[0x4_0000] == Done
              && forall k :: 0 <= k < 0x4_0000 ==> trace[k] == Block(64 * k, OutcomeAt(p, t, 0, BLOCK_SIZE, k).data)
  {
    hide Run, View, Addr, Opened, Events, Scip, Addresses, Cut, OutcomeAt, AfterBlocks, Read16, Contents, Joined;
    RunRefines(p, s, 0, MAX_FLASH, BLOCK_SIZE, cb);
    RunEnds(p, s, 0, MAX_FLASH, BLOCK_SIZE, cb);
    var (u, status, trace) := Run(p, s, 0, MAX_FLASH, BLOCK_SIZE, cb);
    if status == Ok {
      var outs := Outcomes(p, Opened(p, s), 0, BLOCK_SIZE, 0x4_0000);
      assert BlockCount(MAX_FLASH, BLOCK_SIZE) == 0x4_0000;
      RunDump(p, s, 0, MAX_FLASH, BLOCK_SIZE, cb);
      PlainEvents(outs, 0, BLOCK_SIZE, cb, 0);
      EventAddresses(outs, 0, BLOCK_SIZE, cb, 0);
      forall k | 0 <= k < 0x4_0000
        ensures trace[k] == Block(64 * k, OutcomeAt(p, Opened(p, s), 0, BLOCK_SIZE, k).data)
      {
        ToolAddress(k);
        assert trace[k] == Block(Addr(0, BLOCK_SIZE, 0 + k), outs[0 + k].data);
      }
    }
  }

  /** On any device bytes 64k to 64k + 63 of the file are what block k delivered. */
  lemma ToolBlock(p: Profile, s: Device, cb: Callbacks, k: nat)
    requires |s.window| == WINDOW_SIZE && Continuing(cb) && k < 0x4_0000
    ensures var (u, status, trace) := Run(p, s, 0, MAX_FLASH, BLOCK_SIZE, cb);
            status == Ok ==>
              && |Contents(trace)| == MAX_FLASH
              && Contents(trace)[64 * k..64 * k + 64] == OutcomeAt(p, Opened(p, s), 0, BLOCK_SIZE, k).data
  {
    hide Run, Contents, View, Addr, Opened, Joined, OutcomeAt, Events;
    ToolDumpSize(p, s, cb);
    if Run(p, s, 0, MAX_FLASH, BLOCK_SIZE, cb).1 == Ok {
      RunDump(p, s, 0, MAX_FLASH, BLOCK_SIZE, cb);
      assert BlockCount(MAX_FLASH, BLOCK_SIZE) == 0x4_0000;
      JoinedBlock(Outcomes(p, Opened(p, s), 0, BLOCK_SIZE, 0x4_0000), 64, k, 0x4_0000);
      ToolAddress(k);
    }
  }

  /** On a store-as-written device bytes 64k to 64k + 63 of the file are those of the
      last block up to k that could be read, or the initial FDATA. */
  lemma ToolDump(p: Profile, s: Device, cb: Callbacks, k: nat)
    requires |s.window| == WINDOW_SIZE && Idle(p, Opened(p, s)) && p.policy.StoreAsWritten? && Continuing(cb)
    requires k < 0x4_0000
    ensures var t, (u, status, trace) := Opened(p, s), Run(p, s, 0, MAX_FLASH, BLOCK_SIZE, cb);
            var d, g := Contents(trace), LastGood(p, t.started, 0, BLOCK_SIZE, k);
            && status == Ok && |d| == MAX_FLASH
            && d[64 * k..64 * k + 64] == if g < 0 then Regs(p, t).fdata else FlashSlice(t.flash, 64 * g, 64)
  {
    hide Run, Contents, View, Held, Addr, FlashSlice, Opened, Joined, Outcomes, Events;
    IdleProceeds(p, s, 0, MAX_FLASH, BLOCK_SIZE, cb);
    ToolDumpSize(p, s, cb);
    FailedBlocksRepeat(p, s, 0, MAX_FLASH, BLOCK_SIZE, cb, k);
    ToolAddress(k);
    var g := LastGood(p, Opened(p, s).started, 0, BLOCK_SIZE, k);
    if g >= 0 {
      ToolAddress(g);
    }
    assert Regs(p, Opened(p, s)).fdata[..64] == Regs(p, Opened(p, s)).fdata;
  }

  lemma ToolAddress(k: nat)
    requires k < 0x4_0000
    ensures Addr(0, 64, k) == 64 * k == Addr(0, 64, k) % 0x200_0000
  {
    AddrMeaning(0, 64, k);
  }
}
