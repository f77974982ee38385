/** The exact sequence of bus accesses of a whole call, against a transcript written
    down from the register map alone. */
module BusTranscript {
  import opened Memory
  import opened Registers
  import opened RegisterMap
  import opened Controller
  import opened Protocol
  import opened Trace

  /** An access: a load or a store at an offset from the SPI base. A store to FADDR
      shows the flash address it carries. */
  datatype Op = Get(offset: int) | Put(offset: int) | Aim(address: nat)

  function OpOf(bar: SpiBase, x: Access): Op {
    match x
    case Load(at, _, _, _, _, _) => Get(at - bar)
    case Store(at, v) => if at == bar + Offset(FADDR) then Aim(v % 0x200_0000) else Put(at - bar)
  }

  function Ops(bar: SpiBase, log: seq<Access>): (r: seq<Op>)
    ensures |r| == |log|
  {
    seq(|log|, i requires 0 <= i < |log| => OpOf(bar, log[i]))
  }

  // ---------------------------------------------------------------------
  // The transcript
  // ---------------------------------------------------------------------

  /** Clear the status, set the address, go. */
  function Programming(cur: int): seq<Op> {
    [Get(Offset(HSFS)), Put(Offset(HSFS)), Get(Offset(FADDR)), Aim(cur % 0x200_0000),
     Get(Offset(HSFC)), Put(Offset(HSFC))]
  }

  function Polling(n: nat): seq<Op> {
    seq(n, _ => Get(Offset(HSFS)))
  }

  function Draining(m: nat): seq<Op> {
    seq(m, i => Get(Offset(FDATA(i))))
  }

  function Fetching(cur: int, polls: nat): seq<Op> {
    Programming(cur) + Polling(polls)
  }

  /** The first k blocks. */
  function Blocks(outs: seq<Outcome>, a: int, b: int, k: nat): seq<Op>
    requires k <= |outs| && BlockSize(b)
  {
    if k == 0 then []
    else Blocks(outs, a, b, k - 1) + (Fetching(Addr(a, b, k - 1), outs[k - 1].polls) + Draining(b / 4))
  }

  /** The blocks handed out, and the fetch of one more if its error handler stopped
      the run. */
  function Transcript(outs: seq<Outcome>, a: int, b: int, t: seq<Event>): seq<Op>
    requires Fetched(t) <= |outs| && BlockSize(b)
  {
    var k := |Addresses(t)|;
    Blocks(outs, a, b, k) + if EndsInError(t) then Fetching(Addr(a, b, k), outs[k].polls) else []
  }

  // ---------------------------------------------------------------------
  // Every step adds its part
  // ---------------------------------------------------------------------

  /** `after` is `before` and then the accesses `ops`. */
  predicate Adds(bar: SpiBase, before: seq<Access>, after: seq<Access>, ops: seq<Op>) {
    before <= after && Ops(bar, after[|before|..]) == ops
  }

  lemma AddsNothing(bar: SpiBase, log: seq<Access>)
    ensures Adds(bar, log, log, [])
  {
  }

  lemma AddsOne(bar: SpiBase, log: seq<Access>, x: Access)
    ensures Adds(bar, log, log + [x], [OpOf(bar, x)])
  {
    assert (log + [x])[|log|..] == [x];
  }

  lemma AddsTwo(bar: SpiBase, log: seq<Access>, x: Access, y: Access)
    ensures Adds(bar, log, log + [x] + [y], [OpOf(bar, x), OpOf(bar, y)])
  {
    assert (log + [x] + [y])[|log|..] == [x, y];
  }

  lemma AddsChain(bar: SpiBase, x: seq<Access>, y: seq<Access>, z: seq<Access>, o: seq<Op>, q: seq<Op>)
    requires Adds(bar, x, y, o) && Adds(bar, y, z, q)
    ensures Adds(bar, x, z, o + q)
  {
    hide OpOf;
    var l, r := y[|x|..], z[|y|..];
    assert z[|x|..] == l + r;
    assert forall i :: 0 <= i < |l + r| ==> (l + r)[i] == if i < |l| then l[i] else r[i - |l|];
  }

  lemma TickKeepsLog(p: Profile, s: Device)
    requires |s.window| == WINDOW_SIZE
    ensures Tick(p, s).log == s.log
  {
  }

  lemma StatusLoad(p: Profile, s: Device)
    requires |s.window| == WINDOW_SIZE
    ensures Adds(p.bar, s.log, Opened(p, s).log, [Get(Offset(HSFS))])
  {
    hide View, CompletedWindow, Adds;
    AddsOne(p.bar, s.log, Opened(p, s).log[|s.log|]);
  }

  lemma ClearStatusOps(p: Profile, s: Device)
    requires |s.window| == WINDOW_SIZE
    ensures Adds(p.bar, s.log, ClearStatus(p, s).log, [Get(Offset(HSFS)), Put(Offset(HSFS))])
  {
    hide View, Tick, StatusWord, Store16, WrittenStatus, Adds;
    TickKeepsLog(p, s);
    var u := ClearStatus(p, s);
    AddsTwo(p.bar, s.log, u.log[|s.log|], u.log[|s.log| + 1]);
  }

  lemma ProgramAddressOps(p: Profile, s: Device, cur: int)
    requires |s.window| == WINDOW_SIZE
    ensures Adds(p.bar, s.log, ProgramAddress(p, s, cur).log, [Get(Offset(FADDR)), Aim(cur % 0x200_0000)])
  {
    hide View, AddressWord, Store32, Adds;
    var (t, w) := Read32(p, s, p.bar + 0x08);
    var u := ProgramAddress(p, s, cur);
    AddressWordBits(w, cur);
    AddsTwo(p.bar, s.log, u.log[|s.log|], u.log[|s.log| + 1]);
  }

  lemma StartCycleOps(p: Profile, s: Device, b: int)
    requires |s.window| == WINDOW_SIZE
    ensures Adds(p.bar, s.log, StartCycle(p, s, b).log, [Get(Offset(HSFC)), Put(Offset(HSFC))])
  {
    hide View, ControlWord, Store16, StartedStatus, Adds;
    var u := StartCycle(p, s, b);
    AddsTwo(p.bar, s.log, u.log[|s.log|], u.log[|s.log| + 1]);
  }

  lemma PrepareOps(p: Profile, s: Device, cur: int, b: int)
    requires |s.window| == WINDOW_SIZE
    ensures Adds(p.bar, s.log, Prepare(p, s, cur, b).log, Programming(cur))
  {
    hide ClearStatus, ProgramAddress, StartCycle, Adds;
    var s1 := ClearStatus(p, s);
    var s2 := ProgramAddress(p, s1, cur);
    var s3 := StartCycle(p, s2, b);
    ClearStatusOps(p, s);
    ProgramAddressOps(p, s1, cur);
    StartCycleOps(p, s2, b);
    var status := [Get(Offset(HSFS)), Put(Offset(HSFS))];
    var address := [Get(Offset(FADDR)), Aim(cur % 0x200_0000)];
    AddsChain(p.bar, s.log, s1.log, s2.log, status, address);
    AddsChain(p.bar, s.log, s2.log, s3.log, status + address, [Get(Offset(HSFC)), Put(Offset(HSFC))]);
    assert status + address + [Get(Offset(HSFC)), Put(Offset(HSFC))] == Programming(cur);
  }

  lemma {:induction false} PollOps(p: Profile, s: Device)
    requires |s.window| == WINDOW_SIZE && WillFinish(p, s)
    ensures Adds(p.bar, s.log, Poll(p, s).0.log, Polling(Poll(p, s).2))
    decreases if s.busy.Some? then s.remaining + 1 else 0
  {
    hide View, DecodeHsfs, Fdone, Tick, Adds;
    var (t, h) := Read16(p, s, p.bar + 0x04);
    PollStep(p, s);
    StatusLoad(p, s);
    if Fdone(h) {
      assert Polling(1) == [Get(Offset(HSFS))];
    } else {
      PollOps(p, t);
      var (u, h', n) := Poll(p, t);
      AddsChain(p.bar, s.log, t.log, u.log, [Get(Offset(HSFS))], Polling(n));
      assert [Get(Offset(HSFS))] + Polling(n) == Polling(n + 1);
    }
  }

  lemma {:induction false} DrainOps(p: Profile, s: Device, m: nat)
    requires |s.window| == WINDOW_SIZE && m <= 16
    ensures Adds(p.bar, s.log, Drain(p, s, m).0.log, Draining(m))
    decreases m
  {
    hide View, Adds;
    if m == 0 {
      AddsNothing(p.bar, s.log);
      assert Draining(0) == [];
    } else {
      DrainOps(p, s, m - 1);
      var t, u := Drain(p, s, m - 1).0, Drain(p, s, m).0;
      AddsOne(p.bar, t.log, u.log[|t.log|]);
      AddsChain(p.bar, s.log, t.log, u.log, Draining(m - 1), [Get(Offset(FDATA(m - 1)))]);
      assert Draining(m - 1) + [Get(Offset(FDATA(m - 1)))] == Draining(m);
    }
  }

  lemma FetchOps(p: Profile, s: Device, cur: int, b: int)
    requires |s.window| == WINDOW_SIZE && BlockSize(b)
    ensures Adds(p.bar, s.log, Fetch(p, s, cur, b).0.log, Fetching(cur, Fetch(p, s, cur, b).2))
  {
    hide Prepare, Poll, Adds, Programming, Polling;
    var t := Prepare(p, s, cur, b);
    PrepareFinishes(p, s, cur, b);
    PrepareOps(p, s, cur, b);
    PollOps(p, t);
    AddsChain(p.bar, s.log, t.log, Poll(p, t).0.log, Programming(cur), Polling(Poll(p, t).2));
  }

  lemma {:induction false} BlocksOps(p: Profile, s: Device, a: int, b: int, n: nat, k: nat)
    requires |s.window| == WINDOW_SIZE && BlockSize(b) && k <= n
    ensures Adds(p.bar, s.log, AfterBlocks(p, s, a, b, k).log, Blocks(Outcomes(p, s, a, b, n), a, b, k))
    decreases k
  {
    hide Fetch, Drain, Bytes, DecodeHsfs, Adds, Fetching, Draining, Addr;
    if k == 0 {
      AddsNothing(p.bar, s.log);
    } else {
      var outs, t, cur := Outcomes(p, s, a, b, n), AfterBlocks(p, s, a, b, k - 1), Addr(a, b, k - 1);
      BlocksOps(p, s, a, b, n, k - 1);
      var (u, h, polls) := Fetch(p, t, cur, b);
      var v := Drain(p, u, b / 4).0;
      FetchOps(p, t, cur, b);
      DrainOps(p, u, b / 4);
      AddsChain(p.bar, t.log, u.log, v.log, Fetching(cur, polls), Draining(b / 4));
      AddsChain(p.bar, s.log, t.log, v.log, Blocks(outs, a, b, k - 1), Fetching(cur, polls) + Draining(b / 4));
    }
  }

  lemma DeviceOps(p: Profile, s: Device, a: int, b: int, n: nat, t: seq<Event>)
    requires |s.window| == WINDOW_SIZE && BlockSize(b) && Fetched(t) <= n
    ensures Adds(p.bar, s.log, DeviceAfter(p, s, a, b, t).log, Transcript(Outcomes(p, s, a, b, n), a, b, t))
  {
    hide Fetch, Drain, Bytes, DecodeHsfs, Adds, Fetching, Blocks, AfterBlocks, Addr, Addresses;
    var outs, k := Outcomes(p, s, a, b, n), |Addresses(t)|;
    var u, cur := AfterBlocks(p, s, a, b, k), Addr(a, b, k);
    BlocksOps(p, s, a, b, n, k);
    if EndsInError(t) {
      FetchOps(p, u, cur, b);
      AddsChain(p.bar, s.log, u.log, Fetch(p, u, cur, b).0.log, Blocks(outs, a, b, k), Fetching(cur, outs[k].polls));
    } else {
      assert Blocks(outs, a, b, k) + [] == Blocks(outs, a, b, k);
    }
  }

  // ---------------------------------------------------------------------
  // The whole call
  // ---------------------------------------------------------------------

  /** Every access of every call, for every device and every oracle, in order. Bad
      arguments: none. A cycle in progress: one load of HSFS. Otherwise that load, then
      for each fetched block HSFS, FADDR and HSFC loaded and stored in this order with
      the block's own address, one load of HSFS per poll, and for each block handed out
      its data words from first to last. */
  lemma BusOfRun(p: Profile, s: Device, a: int, size: int, b: int, cb: Callbacks)
    requires |s.window| == WINDOW_SIZE
    ensures var (u, status, trace) := Run(p, s, a, size, b, cb);
            match status
            case InvalidArgument => u.log == s.log
            case Unavailable => Adds(p.bar, s.log, u.log, [Get(Offset(HSFS))])
            case Ok =>
              && BlockSize(b) && Fetched(trace) <= BlockCount(size, b)
              && var outs := Outcomes(p, Opened(p, s), a, b, BlockCount(size, b));
                 Adds(p.bar, s.log, u.log, [Get(Offset(HSFS))] + Transcript(outs, a, b, trace))
  {
    hide Run, Adds, Transcript, Outcomes, Opened, DeviceAfter, Fetched;
    RunEnds(p, s, a, size, b, cb);
    StatusLoad(p, s);
    var (u, status, trace) := Run(p, s, a, size, b, cb);
    if status == Ok {
      var t, n := Opened(p, s), BlockCount(size, b);
      DeviceOps(p, t, a, b, n, trace);
      AddsChain(p.bar, s.log, t.log, u.log, [Get(Offset(HSFS))], Transcript(Outcomes(p, t, a, b, n), a, b, trace));
    }
  }
}
