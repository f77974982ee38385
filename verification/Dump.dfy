/** What the dump contains: the blocks a run hands out, laid end to end, against
    the flash. */
module Dump {
  import opened Memory
  import opened Controller
  import opened Protocol
  import opened BlockRead
  import opened Trace

  // ---------------------------------------------------------------------
  // The dump file: every block_read appends its data
  // ---------------------------------------------------------------------

  function Contents(t: seq<Event>): seq<byte> {
    if t == [] then []
    else Contents(t[..|t| - 1]) + if t[|t| - 1].Block? then t[|t| - 1].data else []
  }

  lemma {:induction false} ContentsAppend(t: seq<Event>, u: seq<Event>)
    ensures Contents(t + u) == Contents(t) + Contents(u)
    decreases |u|
  {
    if u == [] {
      assert t + u == t;
    } else {
      var u' := u[..|u| - 1];
      ContentsAppend(t, u');
      assert (t + u)[..|t + u| - 1] == t + u' && (t + u)[|t + u| - 1] == u[|u| - 1];
      var d := if u[|u| - 1].Block? then u[|u| - 1].data else [];
      assert Contents(t) + Contents(u') + d == Contents(t) + (Contents(u') + d);
    }
  }

  lemma ContentsOfOne(e: Event)
    ensures Contents([e]) == if e.Block? then e.data else []
    ensures Contents([]) == []
  {
    assert [e][..0] == [];
  }

  lemma ContentsOfBlock(o: Outcome, address: int, onError: bool)
    ensures Contents(BlockEvents(o, address, onError)) == o.data
  {
    hide Contents;
    var last := Block(address, o.data);
    ContentsOfOne(last);
    if o.error && onError {
      ContentsOfOne(Error(address));
      ContentsAppend([Error(address)], [last]);
      assert BlockEvents(o, address, onError) == [Error(address)] + [last];
    } else {
      assert BlockEvents(o, address, onError) == [last];
    }
  }

  /** The data of the first k outcomes. */
  function Joined(outs: seq<Outcome>, k: nat): seq<byte>
    requires k <= |outs|
  {
    if k == 0 then [] else Joined(outs, k - 1) + outs[k - 1].data
  }

  lemma {:induction false} ContentsOfEvents(outs: seq<Outcome>, a: int, b: int, cb: Callbacks, i: nat)
    requires i <= |outs|
    ensures Joined(outs, i) + Contents(Events(outs, a, b, cb, i)) == Joined(outs, |outs|)
    decreases |outs| - i
  {
    hide Contents, BlockEvents;
    if i == |outs| {
      ContentsOfOne(Done);
    } else {
      ContentsOfEvents(outs, a, b, cb, i + 1);
      ContentsAppend(BlockEvents(outs[i], Addr(a, b, i), cb.onError), Events(outs, a, b, cb, i + 1));
      ContentsOfBlock(outs[i], Addr(a, b, i), cb.onError);
    }
  }

  /** Blocks of equal length lie at multiples of it. */
  lemma {:induction false} JoinedLength(outs: seq<Outcome>, l: nat, k: nat)
    requires k <= |outs| && (forall i :: 0 <= i < |outs| ==> |outs[i].data| == l)
    ensures |Joined(outs, k)| == Addr(0, l, k)
  {
    if k != 0 {
      JoinedLength(outs, l, k - 1);
    }
  }

  lemma {:induction false} JoinedBlock(outs: seq<Outcome>, l: nat, k: nat, n: nat)
    requires k < n <= |outs| && (forall i :: 0 <= i < |outs| ==> |outs[i].data| == l)
    ensures 0 <= Addr(0, l, k) && Addr(0, l, k) + l <= |Joined(outs, n)|
    ensures Joined(outs, n)[Addr(0, l, k)..Addr(0, l, k) + l] == outs[k].data
    decreases n
  {
    JoinedLength(outs, l, n - 1);
    if k == n - 1 {
      assert Joined(outs, n)[Addr(0, l, k)..] == outs[k].data;
    } else {
      JoinedBlock(outs, l, k, n - 1);
    }
  }

  // ---------------------------------------------------------------------
  // Runs in which every block waits for its own cycle
  // ---------------------------------------------------------------------

  /** The cycle of block i, when `started` cycles were started before block 0. */
  function CycleAt(started: nat, a: int, b: int, i: nat): Cycle
    requires BlockSize(b)
  {
    Cycle(started + i, READ_CYCLE, Addr(a, b, i) % 0x200_0000, b)
  }

  /** FDATA after i blocks: each successful cycle overwrites its start. */
  function Held(p: Profile, s: Device, a: int, b: int, i: nat): (r: seq<byte>)
    requires |s.window| == WINDOW_SIZE && BlockSize(b)
    ensures |r| == 64
  {
    if i == 0 then Regs(p, s).fdata
    else Delivered(p, Held(p, s, a, b, i - 1), s.flash, CycleAt(s.started, a, b, i - 1))
  }

  /** Whether block i reports an error: its cycle failed, or the device kept FCERR
      from before. */
  predicate ErrorAt(p: Profile, s: Device, a: int, b: int, i: nat)
    requires |s.window| == WINDOW_SIZE && BlockSize(b)
  {
    || p.fails(CycleAt(s.started, a, b, i))
    || (p.policy.WriteOneToClear? && if i == 0 then Fcerr(Regs(p, s).hsfs) else ErrorAt(p, s, a, b, i - 1))
  }

  /** The cycle of block i takes no time: it completes on the first status read. */
  predicate Instant(p: Profile, s: Device, i: nat) {
    p.latency(s.started + i) == 0
  }

  /** On a write-1-to-clear device only the first block can wait, and only if FDONE
      was clear; every cycle after it has to take no time. */
  predicate Timely(p: Profile, s: Device, n: nat)
    requires |s.window| == WINDOW_SIZE
  {
    p.policy.WriteOneToClear? ==>
      forall i :: 0 <= i < n && (i > 0 || Fdone(Regs(p, s).hsfs)) ==> Instant(p, s, i)
  }

  /** After i blocks of a timely run the device is idle, has run exactly the i
      cycles of those blocks, and FDATA holds what they left. */
  lemma {:induction false} TimelyState(p: Profile, s: Device, a: int, b: int, n: nat, i: nat)
    requires Idle(p, s) && BlockSize(b) && Timely(p, s, n) && i <= n
    ensures var t := AfterBlocks(p, s, a, b, i);
            && Idle(p, t) && t.flash == s.flash && t.started == s.started + i
            && Regs(p, t).fdata == Held(p, s, a, b, i)
            && (i > 0 ==> Fdone(Regs(p, t).hsfs) && t.last == Some(CycleAt(s.started, a, b, i - 1)))
            && (i > 0 ==> (Fcerr(Regs(p, t).hsfs) <==> ErrorAt(p, s, a, b, i - 1)))
    decreases i
  {
    hide ReadBlock, View, Fdone, Fcerr, Scip, Delivered, Addr;
    if i != 0 {
      TimelyState(p, s, a, b, n, i - 1);
      assert p.policy.WriteOneToClear? && (i - 1 > 0 || Fdone(Regs(p, s).hsfs)) ==> Instant(p, s, i - 1);
      BlockCompletes(p, AfterBlocks(p, s, a, b, i - 1), Addr(a, b, i - 1), b);
    }
  }

  /** Block i of a timely run, in closed form. */
  lemma TimelyOutcome(p: Profile, s: Device, a: int, b: int, n: nat, i: nat)
    requires Idle(p, s) && BlockSize(b) && Timely(p, s, n) && i < n
    ensures var o := OutcomeAt(p, s, a, b, i);
            && o.data == Held(p, s, a, b, i + 1)[..b / 4 * 4]
            && o.polls == p.latency(s.started + i) + 1
            && (o.error <==> ErrorAt(p, s, a, b, i))
  {
    hide ReadBlock, View, Fdone, Fcerr, Scip, Delivered, Addr;
    TimelyState(p, s, a, b, n, i);
    TimelyState(p, s, a, b, n, i + 1);
    assert p.policy.WriteOneToClear? && (i > 0 || Fdone(Regs(p, s).hsfs)) ==> Instant(p, s, i);
    BlockCompletes(p, AfterBlocks(p, s, a, b, i), Addr(a, b, i), b);
  }

  // ---------------------------------------------------------------------
  // Which flash bytes a block holds
  // ---------------------------------------------------------------------

  /** The last block up to i whose cycle succeeded, or -1. */
  function LastGood(p: Profile, started: nat, a: int, b: int, i: nat): (g: int)
    requires BlockSize(b)
    ensures -1 <= g <= i
    ensures g >= 0 ==> !p.fails(CycleAt(started, a, b, g))
    ensures forall j :: g < j <= i ==> p.fails(CycleAt(started, a, b, j))
  {
    if !p.fails(CycleAt(started, a, b, i)) then i
    else if i == 0 then -1
    else LastGood(p, started, a, b, i - 1)
  }

  /** A block holds the bytes of the last successful block, or of the initial FDATA. */
  lemma {:induction false} HeldIsLastGood(p: Profile, s: Device, a: int, b: int, i: nat)
    requires |s.window| == WINDOW_SIZE && BlockSize(b)
    ensures var l, g := b / 4 * 4, LastGood(p, s.started, a, b, i);
            Held(p, s, a, b, i + 1)[..l]
            == if g < 0 then Regs(p, s).fdata[..l] else FlashSlice(s.flash, Addr(a, b, g) % 0x200_0000, l)
  {
    hide Addr, View, Delivered, FlashSlice;
    DeliveredPrefix(p, Held(p, s, a, b, i), s.flash, CycleAt(s.started, a, b, i), b / 4 * 4);
    if p.fails(CycleAt(s.started, a, b, i)) && i > 0 {
      HeldIsLastGood(p, s, a, b, i - 1);
    }
  }

  lemma DeliveredPrefix(p: Profile, fdata: seq<byte>, flash: seq<byte>, c: Cycle, l: nat)
    requires |fdata| == 64 && l <= c.count <= 64
    ensures Delivered(p, fdata, flash, c)[..l] == if p.fails(c) then fdata[..l] else FlashSlice(flash, c.address, l)
  {
    if !p.fails(c) {
      assert forall i :: 0 <= i < l ==> Delivered(p, fdata, flash, c)[i] == FlashSlice(flash, c.address, c.count)[i];
    }
  }

  // ---------------------------------------------------------------------
  // The call on an idle device with callbacks that continue
  // ---------------------------------------------------------------------

  ghost predicate Continuing(cb: Callbacks) {
    forall t: seq<Event> :: cb.answer(t)
  }

  /** On an idle device that read changes nothing but the log. */
  lemma OpenedIdle(p: Profile, s: Device)
    requires Idle(p, s)
    ensures var t := Opened(p, s);
            SameCycle(s, t) && t.window == s.window && Idle(p, t)
  {
    hide Scip;
    ViewHsfs(s.window, p.bar);
  }

  /** The call goes ahead exactly when its first status read leaves the device idle:
      a cycle that completes on that very read does not stop it. */
  lemma ProceedsIffIdle(p: Profile, s: Device, a: int, size: int, b: int, cb: Callbacks)
    requires Wf(p, s) && BlockSize(b) && size % b == 0
    ensures Run(p, s, a, size, b, cb).1 == Ok <==> Idle(p, Opened(p, s))
  {
    hide Run, View, Scip, Fdone, CompletedWindow, CompletedRegs, Events, Outcomes;
    RunRefines(p, s, a, size, b, cb);
    ViewHsfs(Tick(p, s).window, p.bar);
    if s.busy.Some? && s.remaining == 0 {
      ViewOfCompleted(p, s.window, s.flash, s.busy.value);
      CompletedIsDone(p, Regs(p, s), s.flash, s.busy.value);
    }
  }

  /** A device that is idle after the first status read is not turned away. */
  lemma IdleProceeds(p: Profile, s: Device, a: int, size: int, b: int, cb: Callbacks)
    requires |s.window| == WINDOW_SIZE && Idle(p, Opened(p, s)) && BlockSize(b) && size % b == 0
    ensures Run(p, s, a, size, b, cb).1 == Ok
  {
    hide Run, Scip, Events, Outcomes, Tick, View;
    RunRefines(p, s, a, size, b, cb);
    ViewHsfs(Opened(p, s).window, p.bar);
  }

  /** Whatever the device does, a call that goes ahead with callbacks that continue
      dumps the blocks' data laid end to end, all of one length. */
  lemma RunDump(p: Profile, s: Device, a: int, size: int, b: int, cb: Callbacks)
    requires |s.window| == WINDOW_SIZE && BlockSize(b) && size % b == 0 && Continuing(cb)
    requires Run(p, s, a, size, b, cb).1 == Ok
    ensures var trace, n := Run(p, s, a, size, b, cb).2, BlockCount(size, b);
            var outs := Outcomes(p, Opened(p, s), a, b, n);
            && trace == Events(outs, a, b, cb, 0)
            && Contents(trace) == Joined(outs, n)
            && |Contents(trace)| == Addr(0, b / 4 * 4, n)
  {
    hide Run, OutcomeAt, Addr, Contents, Scip, View, Events, Read16;
    var n := BlockCount(size, b);
    RunRefines(p, s, a, size, b, cb);
    var outs := Outcomes(p, Opened(p, s), a, b, n);
    ContentsOfEvents(outs, a, b, cb, 0);
    assert Joined(outs, 0) == [];
    JoinedLength(outs, b / 4 * 4, n);
  }

  /** Block k of the dump of a timely run lies at k times the delivered length and
      holds what FDATA held after the cycle of block k. */
  lemma TimelyDump(p: Profile, s: Device, a: int, size: int, b: int, cb: Callbacks, k: nat)
    requires |s.window| == WINDOW_SIZE && Idle(p, Opened(p, s))
    requires BlockSize(b) && size % b == 0 && Continuing(cb)
    requires Timely(p, Opened(p, s), BlockCount(size, b)) && k < BlockCount(size, b)
    ensures var d, l := Contents(Run(p, s, a, size, b, cb).2), b / 4 * 4;
            && 0 <= Addr(0, l, k) && Addr(0, l, k) + l <= |d|
            && d[Addr(0, l, k)..Addr(0, l, k) + l] == Held(p, Opened(p, s), a, b, k + 1)[..l]
  {
    hide Run, OutcomeAt, Held, Addr, Contents, Joined, Scip, Fdone, View, Opened, Events;
    var t, n := Opened(p, s), BlockCount(size, b);
    IdleProceeds(p, s, a, size, b, cb);
    RunDump(p, s, a, size, b, cb);
    JoinedBlock(Outcomes(p, t, a, b, n), b / 4 * 4, k, n);
    TimelyOutcome(p, t, a, b, n, k);
  }

  /** What a run yields does not depend on the log so far. */
  lemma TimelyIgnoresLog(p: Profile, s: Device, t: Device, n: nat)
    requires |s.window| == WINDOW_SIZE && SameCycle(s, t) && t.window == s.window
    ensures Timely(p, t, n) <==> Timely(p, s, n)
  {
    hide View, Fdone;
    assert forall i: nat :: Instant(p, s, i) == Instant(p, t, i);
  }
}
