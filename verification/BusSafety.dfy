/** What the driver puts on the bus over a whole run, for every device and every
    answer of the callbacks. */
module BusSafety {
  import opened Memory
  import opened Registers
  import opened RegisterMap
  import opened Controller
  import opened Protocol
  import opened BlockRead
  import opened Trace

  // ---------------------------------------------------------------------
  // Read-only safety
  // ---------------------------------------------------------------------

  /** v, stored at `at` right after `w` was loaded from there, changes only what the
      driver may change: in HSFS the low five bits, with zeros in the status bits and
      the low bit of BERASE in bit 4; in FADDR the low 25 bits; in HSFC the byte count,
      the cycle and the go bit, which say: read b bytes. Nothing else is ever stored. */
  predicate WriteBack(bar: SpiBase, at: nat, w: nat, v: nat, b: int) {
    if at == bar + 0x04 then
      v % 8 == 0 && v / 8 % 2 == 0 && v / 16 % 2 == w / 8 % 4 % 2 && v / 32 == w / 32
    else if at == bar + 0x06 then
      && v % 2 == 1 && v / 2 % 4 == READ_CYCLE && v / 0x100 % 64 + 1 == b
      && v / 0x8000 % 2 == w / 0x8000 % 2 && v / 0x4000 % 2 == w / 0x4000 % 2 && v / 8 % 32 == w / 8 % 32
    else at == bar + 0x08 && v / 0x200_0000 == w / 0x200_0000
  }

  /** Access i of the log: a load of a protocol register or of an FDATA word that
      belongs to the block, or a store that writes back what was just loaded. */
  predicate SafeAccess(bar: SpiBase, log: seq<Access>, i: nat, b: int)
    requires i < |log|
  {
    match log[i]
    case Load(at, v, _, _, _, _) =>
      at == bar + 0x04 || at == bar + 0x06 || at == bar + 0x08 || bar + 0x10 <= at <= bar + 0x10 + b - 4
    case Store(at, v) =>
      i > 0 && log[i - 1].Load? && log[i - 1].at == at && WriteBack(bar, at, log[i - 1].value, v, b)
  }

  predicate SafeFrom(bar: SpiBase, log: seq<Access>, from: nat, b: int) {
    forall i {:trigger SafeAccess(bar, log, i, b)} :: from <= i < |log| ==> SafeAccess(bar, log, i, b)
  }

  /** No cycle in flight changes the flash. */
  predicate ReadOnly(s: Device) {
    s.busy.Some? ==> s.busy.value.kind == READ_CYCLE
  }

  /** What every step of a run that started in s0 keeps: the discipline on the bus,
      and the flash unless a cycle that changes it was in flight from the start. */
  predicate Safe(p: Profile, s0: Device, s: Device, b: int) {
    && |s.window| == WINDOW_SIZE
    && s0.log <= s.log && SafeFrom(p.bar, s.log, |s0.log|, b)
    && (ReadOnly(s0) ==> s.flash == s0.flash && ReadOnly(s))
  }

  lemma AppendLoad(bar: SpiBase, log: seq<Access>, x: Access, from: nat, b: int)
    requires SafeFrom(bar, log, from, b) && x.Load?
    requires x.at == bar + 0x04 || x.at == bar + 0x06 || x.at == bar + 0x08
             || bar + 0x10 <= x.at <= bar + 0x10 + b - 4
    ensures SafeFrom(bar, log + [x], from, b)
  {
    var log' := log + [x];
    forall i | from <= i < |log'|
      ensures SafeAccess(bar, log', i, b)
    {
      if i < |log| {
        assert SafeAccess(bar, log, i, b);
      }
    }
  }

  lemma AppendWriteBack(bar: SpiBase, log: seq<Access>, x: Access, v: nat, from: nat, b: int)
    requires SafeFrom(bar, log, from, b) && x.Load? && WriteBack(bar, x.at, x.value, v, b)
    ensures SafeFrom(bar, log + [x] + [Store(x.at, v)], from, b)
  {
    var log' := log + [x] + [Store(x.at, v)];
    AppendLoad(bar, log, x, from, b);
    forall i | from <= i < |log'|
      ensures SafeAccess(bar, log', i, b)
    {
      if i <= |log| {
        assert SafeAccess(bar, log + [x], i, b);
      }
    }
  }

  lemma SafeClearStatus(p: Profile, s0: Device, s: Device, b: int)
    requires Safe(p, s0, s, b)
    ensures Safe(p, s0, ClearStatus(p, s), b)
  {
    hide View, StatusWord, Store16, CompletedWindow, WrittenStatus, SafeFrom;
    var (t, h) := Read16(p, s, p.bar + 0x04);
    StatusWordBits(h);
    AppendWriteBack(p.bar, s.log, t.log[|s.log|], StatusWord(h), |s0.log|, b);
  }

  lemma SafeProgramAddress(p: Profile, s0: Device, s: Device, cur: int, b: int)
    requires Safe(p, s0, s, b)
    ensures Safe(p, s0, ProgramAddress(p, s, cur), b)
  {
    hide View, AddressWord, Store32, SafeFrom;
    var (t, w) := Read32(p, s, p.bar + 0x08);
    AddressWordBits(w, cur);
    AppendWriteBack(p.bar, s.log, t.log[|s.log|], AddressWord(w, cur), |s0.log|, b);
  }

  lemma SafeStartCycle(p: Profile, s0: Device, s: Device, b: int)
    requires Safe(p, s0, s, b) && BlockSize(b)
    ensures Safe(p, s0, StartCycle(p, s, b), b)
  {
    hide View, ControlWord, Store16, StartedStatus, SafeFrom;
    var (t, w) := Read16(p, s, p.bar + 0x06);
    ControlWordBits(w, b);
    AppendWriteBack(p.bar, s.log, t.log[|s.log|], ControlWord(w, b), |s0.log|, b);
  }

  lemma SafeStatusRead(p: Profile, s0: Device, s: Device, b: int)
    requires Safe(p, s0, s, b)
    ensures Safe(p, s0, Read16(p, s, p.bar + 0x04).0, b)
  {
    hide View, CompletedWindow, SafeFrom;
    var t := Read16(p, s, p.bar + 0x04).0;
    AppendLoad(p.bar, s.log, t.log[|s.log|], |s0.log|, b);
  }

  lemma {:induction false} SafePoll(p: Profile, s0: Device, s: Device, b: int)
    requires Safe(p, s0, s, b) && WillFinish(p, s)
    ensures Safe(p, s0, Poll(p, s).0, b)
    decreases if s.busy.Some? then s.remaining + 1 else 0
  {
    hide View, CompletedWindow, SafeFrom, DecodeHsfs, Fdone;
    var (t, h) := Read16(p, s, p.bar + 0x04);
    PollStep(p, s);
    SafeStatusRead(p, s0, s, b);
    if !Fdone(h) {
      SafePoll(p, s0, t, b);
    }
  }

  lemma {:induction false} SafeDrain(p: Profile, s0: Device, s: Device, m: nat, b: int)
    requires Safe(p, s0, s, b) && BlockSize(b) && m <= b / 4
    ensures Safe(p, s0, Drain(p, s, m).0, b)
    decreases m
  {
    hide View, SafeFrom;
    if m != 0 {
      SafeDrain(p, s0, s, m - 1, b);
      var t := Drain(p, s, m - 1).0;
      var u := Read32(p, t, p.bar + 0x10 + (m - 1) * 4).0;
      AppendLoad(p.bar, t.log, u.log[|t.log|], |s0.log|, b);
    }
  }

  lemma SafeFetch(p: Profile, s0: Device, s: Device, cur: int, b: int)
    requires Safe(p, s0, s, b) && BlockSize(b)
    ensures Safe(p, s0, Fetch(p, s, cur, b).0, b)
  {
    hide View, SafeFrom, ClearStatus, ProgramAddress, StartCycle, Poll;
    PrepareFinishes(p, s, cur, b);
    SafeClearStatus(p, s0, s, b);
    SafeProgramAddress(p, s0, ClearStatus(p, s), cur, b);
    SafeStartCycle(p, s0, ProgramAddress(p, ClearStatus(p, s), cur), b);
    SafePoll(p, s0, Prepare(p, s, cur, b), b);
  }

  lemma {:induction false} SafeLoop(
    p: Profile, s0: Device, s: Device, cur: int, end: int, b: int, cb: Callbacks, trace: seq<Event>)
    requires Safe(p, s0, s, b) && BlockSize(b)
    ensures Safe(p, s0, RunBlocks(p, s, cur, end, b, cb, trace).0, b)
    decreases end - cur
  {
    hide Fetch, Drain, DecodeHsfs, Bytes, SafeFrom, View;
    if cur < end {
      SafeFetch(p, s0, s, cur, b);
      var (t, h, n) := Fetch(p, s, cur, b);
      SafeDrain(p, s0, t, b / 4, b);
      var (u, words) := Drain(p, t, b / 4);
      var failed := DecodeHsfs(h).fcerr && cb.onError;
      var trace1 := if failed then trace + [Error(cur)] else trace;
      var trace2 := trace1 + [Block(cur, Bytes(words))];
      SafeLoop(p, s0, u, cur + b, end, b, cb, trace2);
    }
  }

  /** Over the whole call, whatever the device does and whatever the callbacks answer,
      every go bit is stored together with a read cycle of exactly the block size, and
      every store writes back the reserved and lock bits it has just read. The flash
      does not change unless a write or erase was in flight before the call. */
  lemma RunIsReadOnly(p: Profile, s: Device, a: int, size: int, b: int, cb: Callbacks)
    requires |s.window| == WINDOW_SIZE
    ensures var u := Run(p, s, a, size, b, cb).0;
            && s.log <= u.log && SafeFrom(p.bar, u.log, |s.log|, b)
            && (ReadOnly(s) ==> u.flash == s.flash && ReadOnly(u))
  {
    hide RunBlocks, DecodeHsfs, View;
    if BlockSize(b) {
      SafeStatusRead(p, s, s, b);
      SafeLoop(p, s, Read16(p, s, p.bar + 0x04).0, a, a + size, b, cb, []);
    }
  }

  // ---------------------------------------------------------------------
  // Data is read only after its own cycle has completed
  // ---------------------------------------------------------------------

  predicate IsFdata(bar: SpiBase, x: Access) {
    x.Load? && bar + 0x10 <= x.at < bar + 0x50
  }

  /** At this load no cycle is in flight, and the last one completed is the last one
      started: a read at the address FADDR holds. */
  predicate Settled(x: Access)
    requires x.Load?
  {
    && !x.busy && x.source.Some?
    && x.source.value.kind == READ_CYCLE && x.source.value.address == x.fla
    && x.source.value.serial + 1 == x.started
  }

  predicate SoundFrom(bar: SpiBase, log: seq<Access>, from: nat) {
    forall i :: from <= i < |log| && IsFdata(bar, log[i]) ==> Settled(log[i])
  }

  /** The log grew without an FDATA load. */
  predicate Quiet(bar: SpiBase, before: seq<Access>, log: seq<Access>) {
    before <= log && forall i :: |before| <= i < |log| ==> !IsFdata(bar, log[i])
  }

  lemma QuietStep(p: Profile, s: Device, at: int, b: int)
    requires |s.window| == WINDOW_SIZE
    ensures Quiet(p.bar, s.log, Read16(p, s, p.bar + 0x04).0.log)
    ensures Quiet(p.bar, s.log, ClearStatus(p, s).log)
    ensures Quiet(p.bar, s.log, StartCycle(p, s, b).log)
    ensures Quiet(p.bar, s.log, ProgramAddress(p, s, at).log)
  {
    hide View, StatusWord, AddressWord, ControlWord, Store16, Store32, CompletedWindow, WrittenStatus, StartedStatus;
  }

  lemma {:induction false} QuietPoll(p: Profile, s: Device)
    requires |s.window| == WINDOW_SIZE && WillFinish(p, s)
    ensures Quiet(p.bar, s.log, Poll(p, s).0.log)
    decreases if s.busy.Some? then s.remaining + 1 else 0
  {
    hide View, CompletedWindow, DecodeHsfs, Fdone, Read16, StartCycle, ClearStatus, ProgramAddress;
    var (t, h) := Read16(p, s, p.bar + 0x04);
    PollStep(p, s);
    QuietStep(p, s, 0, 4);
    if !Fdone(h) {
      QuietPoll(p, t);
    }
  }

  lemma QuietFetch(p: Profile, s: Device, cur: int, b: int)
    requires |s.window| == WINDOW_SIZE && BlockSize(b)
    ensures Quiet(p.bar, s.log, Fetch(p, s, cur, b).0.log)
  {
    hide View, Poll, StartCycle, ClearStatus, ProgramAddress, Read16;
    var s1 := ClearStatus(p, s);
    var s2 := ProgramAddress(p, s1, cur);
    QuietStep(p, s, cur, b);
    QuietStep(p, s1, cur, b);
    QuietStep(p, s2, cur, b);
    PrepareFinishes(p, s, cur, b);
    QuietPoll(p, Prepare(p, s, cur, b));
  }

  /** The cycle c has completed, it is the last one started, and FADDR names it. */
  predicate Rested(p: Profile, s: Device, c: Cycle) {
    && |s.window| == WINDOW_SIZE && s.busy.None? && s.last == Some(c)
    && c.kind == READ_CYCLE && c.serial + 1 == s.started
    && c.address == Regs(p, s).faddr % 0x200_0000
  }

  /** On an idle store-as-written device every fetch starts one cycle, for its own
      address and size, and ends with that cycle complete. */
  lemma FetchRests(p: Profile, s: Device, cur: int, b: int)
    requires Idle(p, s) && BlockSize(b) && p.policy.StoreAsWritten?
    ensures var t := Fetch(p, s, cur, b).0;
            Rested(p, t, CycleFor(s, cur, b)) && t.started == s.started + 1 && Idle(p, t)
  {
    hide View, Prepare, Poll, Fdone, Scip, Fcerr, CompletedStatus, FlashSlice, Filled;
    var t := Prepare(p, s, cur, b);
    PrepareFinishes(p, s, cur, b);
    PrepareIdle(p, s, cur, b);
    PollWaits(p, t);
    CompletedIsDone(p, Regs(p, t), t.flash, t.busy.value);
  }

  /** The load of FDATA word i after the cycle c. */
  predicate DataLoad(bar: SpiBase, x: Access, c: Cycle, i: nat) {
    x.Load? && x.at == bar + 0x10 + 4 * i && x.source == Some(c) && Settled(x)
  }

  /** The loads of one block: each of its FDATA words once and in order. */
  predicate BlockLoads(bar: SpiBase, xs: seq<Access>, c: Cycle, m: nat) {
    |xs| == m && forall i :: 0 <= i < m ==> DataLoad(bar, xs[i], c, i)
  }

  /** The FDATA loads of a log, in order. */
  function DataLoads(bar: SpiBase, log: seq<Access>): seq<Access> {
    if log == [] then []
    else DataLoads(bar, log[..|log| - 1]) + if IsFdata(bar, log[|log| - 1]) then [log[|log| - 1]] else []
  }

  /** xs is what blocks 0 to k - 1 load from FDATA, block after block, each after the
      cycle for the address it is reported under. */
  predicate Grouped(bar: SpiBase, xs: seq<Access>, started: nat, a: int, b: int, k: nat)
    requires BlockSize(b)
  {
    if k == 0 then xs == []
    else
      var m := b / 4;
      && |xs| >= m
      && BlockLoads(bar, xs[|xs| - m..], Cycle(started + k - 1, READ_CYCLE, Addr(a, b, k - 1) % 0x200_0000, b), m)
      && Grouped(bar, xs[..|xs| - m], started, a, b, k - 1)
  }

  lemma {:induction false} DataLoadsAppend(bar: SpiBase, x: seq<Access>, y: seq<Access>)
    ensures DataLoads(bar, x + y) == DataLoads(bar, x) + DataLoads(bar, y)
    decreases |y|
  {
    hide IsFdata;
    if y == [] {
      assert x + y == x;
    } else {
      var y', n := y[..|y| - 1], |y| - 1;
      DataLoadsAppend(bar, x, y');
      assert (x + y)[..|x + y| - 1] == x + y' && (x + y)[|x + y| - 1] == y[n];
      var d := if IsFdata(bar, y[n]) then [y[n]] else [];
      assert DataLoads(bar, x) + DataLoads(bar, y') + d == DataLoads(bar, x) + (DataLoads(bar, y') + d);
    }
  }

  lemma {:induction false} NoDataLoads(bar: SpiBase, x: seq<Access>)
    requires forall i :: 0 <= i < |x| ==> !IsFdata(bar, x[i])
    ensures DataLoads(bar, x) == []
    decreases |x|
  {
    hide IsFdata;
    if x != [] {
      NoDataLoads(bar, x[..|x| - 1]);
    }
  }

  lemma QuietLoads(bar: SpiBase, before: seq<Access>, log: seq<Access>, from: nat)
    requires Quiet(bar, before, log) && from <= |before|
    ensures DataLoads(bar, log[from..]) == DataLoads(bar, before[from..])
  {
    hide IsFdata, DataLoads;
    var tail := log[|before|..];
    assert log[from..] == before[from..] + tail;
    DataLoadsAppend(bar, before[from..], tail);
    NoDataLoads(bar, tail);
  }

  /** Draining after the cycle c loads FDATA words 0 to m - 1, and nothing else. */
  lemma {:induction false} DrainLoads(p: Profile, s: Device, c: Cycle, m: nat)
    requires Rested(p, s, c) && m <= 16
    ensures var log := Drain(p, s, m).0.log;
            && s.log <= log && BlockLoads(p.bar, log[|s.log|..], c, m)
            && DataLoads(p.bar, log[|s.log|..]) == log[|s.log|..]
    decreases m
  {
    hide View, DataLoads, DataLoad, IsFdata, Regs, Read32;
    if m == 0 {
      NoDataLoads(p.bar, []);
    } else {
      DrainLoads(p, s, c, m - 1);
      var t := Drain(p, s, m - 1).0;
      RestedAfterDrain(p, s, c, m - 1);
      var x := OneLoad(p, t, c, m - 1);
      NextLoad(p.bar, t.log[|s.log|..], x, c, m - 1);
      assert (t.log + [x])[|s.log|..] == t.log[|s.log|..] + [x];
    }
  }

  lemma NextLoad(bar: SpiBase, xs: seq<Access>, x: Access, c: Cycle, m: nat)
    requires BlockLoads(bar, xs, c, m) && DataLoads(bar, xs) == xs
    requires DataLoad(bar, x, c, m) && IsFdata(bar, x)
    ensures BlockLoads(bar, xs + [x], c, m + 1) && DataLoads(bar, xs + [x]) == xs + [x]
  {
    hide DataLoad, IsFdata, DataLoads;
    DataLoadsAppend(bar, xs, [x]);
    OneDataLoad(bar, x);
  }

  lemma RestedAfterDrain(p: Profile, s: Device, c: Cycle, m: nat)
    requires Rested(p, s, c) && m <= 16
    ensures Rested(p, Drain(p, s, m).0, c)
  {
    hide View, Drain;
    DrainEffect(p, s, m);
  }

  /** The access one FDATA read leaves in the log. */
  lemma OneLoad(p: Profile, s: Device, c: Cycle, i: nat) returns (x: Access)
    requires Rested(p, s, c) && i < 16
    ensures Read32(p, s, p.bar + 0x10 + i * 4).0.log == s.log + [x]
    ensures DataLoad(p.bar, x, c, i) && IsFdata(p.bar, x)
  {
    hide View;
    x := Read32(p, s, p.bar + 0x10 + i * 4).0.log[|s.log|];
  }

  lemma OneDataLoad(bar: SpiBase, x: Access)
    requires IsFdata(bar, x)
    ensures DataLoads(bar, [x]) == [x]
  {
    assert [x][..0] == [];
  }

  /** One more block. */
  lemma GroupedAppend(bar: SpiBase, xs: seq<Access>, ys: seq<Access>, started: nat, a: int, b: int, k: nat)
    requires BlockSize(b) && Grouped(bar, xs, started, a, b, k)
    requires BlockLoads(bar, ys, Cycle(started + k, READ_CYCLE, Addr(a, b, k) % 0x200_0000, b), b / 4)
    ensures Grouped(bar, xs + ys, started, a, b, k + 1)
  {
    hide BlockLoads, Addr;
    var m := b / 4;
    assert |ys| == m by { BlockLoadsCount(bar, ys, Cycle(started + k, READ_CYCLE, Addr(a, b, k) % 0x200_0000, b), m); }
    assert (xs + ys)[|xs + ys| - m..] == ys && (xs + ys)[..|xs + ys| - m] == xs;
  }

  lemma BlockLoadsCount(bar: SpiBase, xs: seq<Access>, c: Cycle, m: nat)
    requires BlockLoads(bar, xs, c, m)
    ensures |xs| == m
  {
  }

  /** Delivering block i extends the loads by its own. */
  lemma BlockExtends(p: Profile, s: Device, a: int, b: int, i: nat, started: nat, from: nat)
    requires Idle(p, s) && BlockSize(b) && p.policy.StoreAsWritten?
    requires s.started == started + i && from <= |s.log|
    requires Grouped(p.bar, DataLoads(p.bar, s.log[from..]), started, a, b, i)
    ensures var t := Fetch(p, s, Addr(a, b, i), b).0;
            var u := Drain(p, t, b / 4).0;
            && s.log <= t.log && s.log <= u.log
            && DataLoads(p.bar, t.log[from..]) == DataLoads(p.bar, s.log[from..])
            && Grouped(p.bar, DataLoads(p.bar, u.log[from..]), started, a, b, i + 1)
            && Idle(p, t) && Idle(p, u) && u.started == started + i + 1
  {
    hide Fetch, Drain, DataLoads, Grouped, BlockLoads, Quiet, View, Scip, Addr, IsFdata;
    var cur := Addr(a, b, i);
    var t := Fetch(p, s, cur, b).0;
    var u := Drain(p, t, b / 4).0;
    QuietFetch(p, s, cur, b);
    QuietGrows(p.bar, s.log, t.log);
    QuietLoads(p.bar, s.log, t.log, from);
    FetchRests(p, s, cur, b);
    DrainLoads(p, t, CycleFor(s, cur, b), b / 4);
    DrainEffect(p, t, b / 4);
    assert u.log[from..] == t.log[from..] + u.log[|t.log|..];
    DataLoadsAppend(p.bar, t.log[from..], u.log[|t.log|..]);
    GroupedAppend(p.bar, DataLoads(p.bar, t.log[from..]), u.log[|t.log|..], started, a, b, i);
  }

  lemma QuietGrows(bar: SpiBase, before: seq<Access>, log: seq<Access>)
    requires Quiet(bar, before, log)
    ensures before <= log
  {
  }

  lemma {:induction false} LoadsOfLoop(p: Profile, s: Device, a: int, b: int, n: nat, i: nat, cb: Callbacks,
                                       trace: seq<Event>, started: nat, from: nat)
    requires Idle(p, s) && BlockSize(b) && p.policy.StoreAsWritten? && i <= n
    requires s.started == started + i && from <= |s.log| && |Addresses(trace)| == i
    requires Grouped(p.bar, DataLoads(p.bar, s.log[from..]), started, a, b, i)
    ensures var (u, r) := RunBlocks(p, s, Addr(a, b, i), Addr(a, b, n), b, cb, trace);
            from <= |u.log| && Grouped(p.bar, DataLoads(p.bar, u.log[from..]), started, a, b, |Addresses(r)|)
    decreases n - i
  {
    hide Fetch, Drain, DecodeHsfs, Bytes, DataLoads, Grouped, View, Scip, Addr, Addresses;
    var cur := Addr(a, b, i);
    AddrOrder(a, b, i, n);
    AddressesGrow(trace, Done);
    if i < n {
      BlockExtends(p, s, a, b, i, started, from);
      AddrNext(a, b, i);
      var (t, h, polls) := Fetch(p, s, cur, b);
      var (u, words) := Drain(p, t, b / 4);
      var failed := DecodeHsfs(h).fcerr && cb.onError;
      var trace1 := if failed then trace + [Error(cur)] else trace;
      var trace2 := trace1 + [Block(cur, Bytes(words))];
      AddressesGrow(trace, Error(cur));
      AddressesGrow(trace1, Block(cur, Bytes(words)));
      LoadsOfLoop(p, u, a, b, n, i + 1, cb, trace2, started, from);
    }
  }

  /** The first status read leaves the device idle or SCIP set. */
  lemma FirstStatus(p: Profile, s: Device)
    requires Wf(p, s)
    ensures var (t, h) := Read16(p, s, p.bar + 0x04);
            && t.started == s.started && Quiet(p.bar, s.log, t.log)
            && (DecodeHsfs(h).scip <==> Scip(h)) && (Scip(h) <==> !Idle(p, t))
  {
    hide View, Scip, Fdone, CompletedWindow, CompletedRegs, DecodeHsfs;
    var (t, h) := Read16(p, s, p.bar + 0x04);
    ViewHsfs(Tick(p, s).window, p.bar);
    StatusFlags(h);
    if s.busy.Some? && s.remaining == 0 {
      ViewOfCompleted(p, s.window, s.flash, s.busy.value);
      CompletedIsDone(p, Regs(p, s), s.flash, s.busy.value);
    }
  }

  /** A load in the log is among its FDATA loads. */
  lemma {:induction false} InDataLoads(bar: SpiBase, log: seq<Access>, i: nat)
    requires i < |log| && IsFdata(bar, log[i])
    ensures log[i] in DataLoads(bar, log)
    decreases |log|
  {
    hide IsFdata;
    if i < |log| - 1 {
      InDataLoads(bar, log[..|log| - 1], i);
    }
  }

  lemma {:induction false} GroupedIsSettled(bar: SpiBase, xs: seq<Access>, started: nat, a: int, b: int, k: nat, j: nat)
    requires BlockSize(b) && Grouped(bar, xs, started, a, b, k) && j < |xs|
    ensures xs[j].Load? && Settled(xs[j])
    decreases k
  {
    hide Addr, Settled;
    var m := b / 4;
    var c := Cycle(started + k - 1, READ_CYCLE, Addr(a, b, k - 1) % 0x200_0000, b);
    if j < |xs| - m {
      GroupedIsSettled(bar, xs[..|xs| - m], started, a, b, k - 1, j);
    } else {
      assert DataLoad(bar, xs[|xs| - m..][j - (|xs| - m)], c, j - (|xs| - m));
    }
  }

  lemma GroupedIsSound(bar: SpiBase, log: seq<Access>, started: nat, a: int, b: int, k: nat, from: nat)
    requires BlockSize(b) && from <= |log| && Grouped(bar, DataLoads(bar, log[from..]), started, a, b, k)
    ensures SoundFrom(bar, log, from)
  {
    hide Settled, Grouped, DataLoads;
    forall i | from <= i < |log| && IsFdata(bar, log[i])
      ensures Settled(log[i])
    {
      var xs := DataLoads(bar, log[from..]);
      assert log[from..][i - from] == log[i];
      InDataLoads(bar, log[from..], i - from);
      var j :| 0 <= j < |xs| && xs[j] == log[i];
      GroupedIsSettled(bar, xs, started, a, b, k, j);
    }
  }

  /** On a store-as-written device in any consistent state, over the whole call: FDATA
      is read only while no cycle is in flight and the last one completed is the last
      one started, a read at the address in FADDR; and the loads come block by block,
      block k reported to block_read having loaded exactly its words, in order, after
      the read of b bytes at the very address it is reported under. This holds for
      all latencies, failures and answers of the callbacks. */
  lemma PollIsSound(p: Profile, s: Device, a: int, size: int, b: int, cb: Callbacks)
    requires Wf(p, s) && p.policy.StoreAsWritten?
    ensures var (u, status, trace) := Run(p, s, a, size, b, cb);
            && |s.log| <= |u.log| && SoundFrom(p.bar, u.log, |s.log|)
            && (BlockSize(b) ==>
                  Grouped(p.bar, DataLoads(p.bar, u.log[|s.log|..]), s.started, a, b, |Addresses(trace)|))
  {
    hide RunBlocks, DecodeHsfs, View, Scip, Read16, DataLoads, Settled, IsFdata, Grouped, Quiet, Idle;
    NoDataLoads(p.bar, []);
    NoAddresses();
    if BlockSize(b) {
      var from := |s.log|;
      var (t, h) := Read16(p, s, p.bar + 0x04);
      FirstStatus(p, s);
      QuietGrows(p.bar, s.log, t.log);
      QuietLoads(p.bar, s.log, t.log, from);
      assert s.log[from..] == [];
      NothingGrouped(p.bar, s.started, a, b);
      RemainderZero(size, b);
      var (u, status, trace) := Run(p, s, a, size, b, cb);
      if status == Ok {
        LoopBound(p, t, a, size, b, cb);
        AddrMeaning(a, b, 0);
        LoadsOfLoop(p, t, a, b, BlockCount(size, b), 0, cb, [], s.started, from);
      } else if status == InvalidArgument {
        assert u.log[from..] == [];
      }
      GroupedIsSound(p.bar, u.log, s.started, a, b, |Addresses(trace)|, from);
    }
  }

  lemma NothingGrouped(bar: SpiBase, started: nat, a: int, b: int)
    requires BlockSize(b)
    ensures Grouped(bar, [], started, a, b, 0)
  {
  }
}
