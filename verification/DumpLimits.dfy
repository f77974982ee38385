/** The limits of a run: which addresses the delivered bytes cover, which addresses
    the device is given, and how often the status register is read. */
module DumpLimits {
  import opened Memory
  import opened RegisterMap
  import opened Controller
  import opened Protocol
  import opened BlockRead
  import opened Trace
  import opened Dump
  import opened BusTranscript
  import StaleRuns

  // ---------------------------------------------------------------------
  // Coverage
  // ---------------------------------------------------------------------

  /** Event e delivers the byte of address x. */
  predicate Delivers(e: Event, x: int) {
    e.Block? && e.address <= x < e.address + |e.data|
  }

  /** Some event delivers x. */
  predicate Covers(t: seq<Event>, x: int) {
    exists j :: 0 <= j < |t| && Delivers(t[j], x)
  }

  /** No two events deliver the same address. */
  ghost predicate NoOverlap(t: seq<Event>) {
    forall j, k, x {:trigger Delivers(t[j], x), Delivers(t[k], x)} ::
      0 <= j < k < |t| ==> !(Delivers(t[j], x) && Delivers(t[k], x))
  }

  /** The delivered intervals tile [lo, hi): each address in it is delivered, no other
      is, and none twice. */
  ghost predicate Tiles(t: seq<Event>, lo: int, hi: int) {
    NoOverlap(t) && forall x :: Covers(t, x) <==> lo <= x < hi
  }

  lemma CoversAppend(t: seq<Event>, u: seq<Event>, x: int)
    ensures Covers(t + u, x) <==> Covers(t, x) || Covers(u, x)
  {
    var w := t + u;
    if Covers(t, x) {
      var j :| 0 <= j < |t| && Delivers(t[j], x);
      assert w[j] == t[j];
    }
    if Covers(u, x) {
      var j :| 0 <= j < |u| && Delivers(u[j], x);
      assert w[|t| + j] == u[j];
    }
    if Covers(w, x) {
      var j :| 0 <= j < |w| && Delivers(w[j], x);
      assert if j < |t| then w[j] == t[j] else w[j] == u[j - |t|];
    }
  }

  /** A block's events deliver the block's bytes. */
  lemma CoversBlock(o: Outcome, address: int, onError: bool, x: int)
    ensures Covers(BlockEvents(o, address, onError), x) <==> address <= x < address + |o.data|
  {
    var head := BlockEvents(o, address, onError);
    assert Delivers(head[|head| - 1], x) <==> address <= x < address + |o.data|;
  }

  /** The events from block i on deliver nothing outside their blocks, and everything
      inside if the blocks are as long as the distance between them. */
  lemma {:induction false} EventsCover(outs: seq<Outcome>, a: int, b: int, cb: Callbacks, l: nat, i: nat, x: int)
    requires i <= |outs| && 0 < b && l <= b && (forall k :: 0 <= k < |outs| ==> |outs[k].data| == l)
    ensures Covers(Events(outs, a, b, cb, i), x) ==> Addr(a, b, i) <= x < Addr(a, b, |outs|)
    ensures l == b && Addr(a, b, i) <= x < Addr(a, b, |outs|) ==> Covers(Events(outs, a, b, cb, i), x)
    decreases |outs| - i
  {
    hide BlockEvents, Addr, Delivers;
    if i == |outs| {
      CoversEnd(cb, x);
    } else {
      EventsCover(outs, a, b, cb, l, i + 1, x);
      CoversAppend(BlockEvents(outs[i], Addr(a, b, i), cb.onError), Events(outs, a, b, cb, i + 1), x);
      CoversBlock(outs[i], Addr(a, b, i), cb.onError, x);
      AddrNext(a, b, i);
      AddrOrder(a, b, i, |outs|);
    }
  }

  lemma CoversEnd(cb: Callbacks, x: int)
    ensures !Covers(if cb.onDone then [Done] else [], x)
  {
  }

  /** Blocks no longer than the distance between them do not overlap. */
  lemma {:induction false} EventsDoNotOverlap(outs: seq<Outcome>, a: int, b: int, cb: Callbacks, l: nat, i: nat)
    requires i <= |outs| && 0 < b && l <= b && (forall k :: 0 <= k < |outs| ==> |outs[k].data| == l)
    ensures NoOverlap(Events(outs, a, b, cb, i))
    decreases |outs| - i
  {
    hide Addr;
    if i < |outs| {
      EventsDoNotOverlap(outs, a, b, cb, l, i + 1);
      var head, rest := BlockEvents(outs[i], Addr(a, b, i), cb.onError), Events(outs, a, b, cb, i + 1);
      forall x | Covers(rest, x)
        ensures x >= Addr(a, b, i) + l
      {
        EventsCover(outs, a, b, cb, l, i + 1, x);
        AddrNext(a, b, i);
      }
      HeadApart(head, rest, Addr(a, b, i), outs[i].data);
    }
  }

  lemma HeadApart(head: seq<Event>, rest: seq<Event>, address: int, data: seq<byte>)
    requires head == [Block(address, data)] || head == [Error(address), Block(address, data)]
    requires NoOverlap(rest) && forall x :: Covers(rest, x) ==> x >= address + |data|
    ensures NoOverlap(head + rest)
  {
    var t, n := head + rest, |head|;
    forall j, k, x | 0 <= j < k < |t|
      ensures !(Delivers(t[j], x) && Delivers(t[k], x))
    {
      if j >= n {
        assert t[j] == rest[j - n] && t[k] == rest[k - n];
        assert !(Delivers(rest[j - n], x) && Delivers(rest[k - n], x));
      } else if k >= n {
        assert t[k] == rest[k - n];
        assert Delivers(rest[k - n], x) ==> Covers(rest, x);
      }
    }
  }

  /** Whatever the device does, the delivered address intervals tile the requested
      range if and only if the block size is a multiple of four: each block delivers
      4 * floor(b / 4) bytes while the address advances by b. */
  lemma CoverageIffMultipleOfFour(p: Profile, s: Device, a: int, size: int, b: int, cb: Callbacks)
    requires |s.window| == WINDOW_SIZE && BlockSize(b) && size > 0 && size % b == 0 && Continuing(cb)
    ensures var (u, status, trace) := Run(p, s, a, size, b, cb);
            status == Ok ==>
              && (Tiles(trace, a, a + size) <==> b % 4 == 0)
              && (|Contents(trace)| == size <==> b % 4 == 0)
              && NoOverlap(trace)
  {
    hide Run, Contents, View, Addr, Opened, Joined, OutcomeAt, Events, Covers, NoOverlap;
    if Run(p, s, a, size, b, cb).1 == Ok {
      var n, l := BlockCount(size, b), b / 4 * 4;
      var outs := Outcomes(p, Opened(p, s), a, b, n);
      RunDump(p, s, a, size, b, cb);
      EndAddress(a, size, b);
      EndAddress(0, size, b);
      AddrMeaning(a, b, 0);
      EventsDoNotOverlap(outs, a, b, cb, l, 0);
      if b % 4 == 0 {
        forall x: int
          ensures Covers(Events(outs, a, b, cb, 0), x) <==> a <= x < a + size
        {
          EventsCover(outs, a, b, cb, l, 0, x);
        }
      } else {
        Shortfall(l, b, n);
        GapAfterFirst(outs, a, b, cb, l);
        assert a <= a + l < a + size by { AddrOrder(0, b, 1, n); AddrMeaning(0, b, 1); }
      }
    }
  }

  /** With shorter blocks the byte right after the first block is not delivered. */
  lemma GapAfterFirst(outs: seq<Outcome>, a: int, b: int, cb: Callbacks, l: nat)
    requires outs != [] && 0 < b && l < b && (forall k :: 0 <= k < |outs| ==> |outs[k].data| == l)
    ensures !Covers(Events(outs, a, b, cb, 0), a + l)
  {
    hide BlockEvents, Covers, Addr;
    AddrMeaning(a, b, 0);
    AddrMeaning(a, b, 1);
    EventsCover(outs, a, b, cb, l, 1, a + l);
    CoversAppend(BlockEvents(outs[0], Addr(a, b, 0), cb.onError), Events(outs, a, b, cb, 1), a + l);
    CoversBlock(outs[0], Addr(a, b, 0), cb.onError, a + l);
  }

  lemma {:induction false} Shortfall(l: int, b: int, n: nat)
    requires l < b
    ensures Addr(0, l, n) + n <= Addr(0, b, n)
    decreases n
  {
    if n != 0 {
      Shortfall(l, b, n - 1);
    }
  }

  // ---------------------------------------------------------------------
  // Addresses given to the device
  // ---------------------------------------------------------------------

  /** FADDR as programmed for a block, on any device in any state. */
  lemma ProgrammedAddress(p: Profile, s: Device, cur: int, b: int)
    requires |s.window| == WINDOW_SIZE && BlockSize(b)
    ensures Regs(p, Prepare(p, s, cur, b)).faddr % 0x200_0000 == cur % 0x200_0000
  {
    hide View, Tick, ClearStatus, ProgramAddress, StartCycle, WrittenStatus, StatusWord, AddressWord, ControlWord,
      StartedStatus;
    var s1 := ClearStatus(p, s);
    var s2 := ProgramAddress(p, s1, cur);
    ProgramAddressEffect(p, s1, cur);
    AddressWordBits(Regs(p, s1).faddr, cur);
    StartCycleEffect(p, s2, b);
  }

  /** The address the device is given is the one reported to the callbacks, for every
      block, exactly when the last block starts inside the 25-bit address space. */
  lemma AddressingIffInReach(p: Profile, s: Device, a: int, b: int, n: nat)
    requires |s.window| == WINDOW_SIZE && BlockSize(b) && a >= 0 && n > 0
    ensures (forall i :: 0 <= i < n ==>
               Regs(p, Prepare(p, AfterBlocks(p, s, a, b, i), Addr(a, b, i), b)).faddr % 0x200_0000 == Addr(a, b, i))
            <==> Addr(a, b, n - 1) < 0x200_0000
  {
    hide View, Prepare, AfterBlocks, Addr;
    forall i | 0 <= i < n
      ensures Regs(p, Prepare(p, AfterBlocks(p, s, a, b, i), Addr(a, b, i), b)).faddr % 0x200_0000
              == Addr(a, b, i) % 0x200_0000
      ensures 0 <= Addr(a, b, i) <= Addr(a, b, n - 1)
    {
      ProgrammedAddress(p, AfterBlocks(p, s, a, b, i), Addr(a, b, i), b);
      AddrOrder(a, b, i, n - 1);
      AddrOrder(a, b, 0, i);
      AddrMeaning(a, b, 0);
    }
  }

  // ---------------------------------------------------------------------
  // How often the status register is read
  // ---------------------------------------------------------------------

  /** Loads of HSFS among the accesses. */
  function StatusReads(ops: seq<Op>): nat {
    multiset(ops)[Get(Offset(HSFS))]
  }

  lemma StatusReadsAppend(x: seq<Op>, y: seq<Op>)
    ensures StatusReads(x + y) == StatusReads(x) + StatusReads(y)
  {
  }

  lemma {:induction false} PollingReads(n: nat)
    ensures StatusReads(Polling(n)) == n
  {
    if n != 0 {
      PollingReads(n - 1);
      assert Polling(n) == Polling(n - 1) + [Get(Offset(HSFS))];
    }
  }

  lemma {:induction false} DrainingReads(m: nat)
    ensures StatusReads(Draining(m)) == 0
  {
    if m != 0 {
      DrainingReads(m - 1);
      assert Draining(m) == Draining(m - 1) + [Get(Offset(FDATA(m - 1)))];
    }
  }

  /** A fetch reads the status once to clear it and once per poll. */
  lemma FetchingReads(cur: int, polls: nat)
    ensures StatusReads(Fetching(cur, polls)) == 1 + polls
  {
    hide Polling;
    PollingReads(polls);
    StatusReadsAppend(Programming(cur), Polling(polls));
  }

  function TotalPolls(outs: seq<Outcome>, k: nat): nat
    requires k <= |outs|
  {
    if k == 0 then 0 else TotalPolls(outs, k - 1) + outs[k - 1].polls
  }

  lemma {:induction false} BlocksReads(outs: seq<Outcome>, a: int, b: int, k: nat)
    requires k <= |outs| && BlockSize(b)
    ensures StatusReads(Blocks(outs, a, b, k)) == k + TotalPolls(outs, k)
    decreases k
  {
    hide StatusReads, Fetching, Draining;
    if k == 0 {
      NoReads();
    } else {
      var fetch := Fetching(Addr(a, b, k - 1), outs[k - 1].polls);
      BlocksReads(outs, a, b, k - 1);
      FetchingReads(Addr(a, b, k - 1), outs[k - 1].polls);
      DrainingReads(b / 4);
      StatusReadsAppend(fetch, Draining(b / 4));
      StatusReadsAppend(Blocks(outs, a, b, k - 1), fetch + Draining(b / 4));
    }
  }

  lemma NoReads()
    ensures StatusReads([]) == 0 && StatusReads([Get(Offset(HSFS))]) == 1
  {
  }

  lemma TranscriptReads(outs: seq<Outcome>, a: int, b: int, t: seq<Event>)
    requires Fetched(t) <= |outs| && BlockSize(b)
    ensures StatusReads(Transcript(outs, a, b, t)) == Fetched(t) + TotalPolls(outs, Fetched(t))
  {
    hide StatusReads, Fetching, Blocks, Addresses, Addr;
    var k := |Addresses(t)|;
    BlocksReads(outs, a, b, k);
    NoReads();
    FetchingReads(Addr(a, b, k), if k < |outs| then outs[k].polls else 0);
    StatusReadsAppend(Blocks(outs, a, b, k), if EndsInError(t) then Fetching(Addr(a, b, k), outs[k].polls) else []);
  }

  /** For every device and every oracle, stopped or not: a call that goes ahead reads
      the status register once at the start and, for each block it fetches, once to
      clear it and once per poll. */
  lemma StatusReadsOfRun(p: Profile, s: Device, a: int, size: int, b: int, cb: Callbacks)
    requires |s.window| == WINDOW_SIZE && Run(p, s, a, size, b, cb).1 == Ok
    ensures var (u, status, trace) := Run(p, s, a, size, b, cb);
            var k := Fetched(trace);
            && BlockSize(b) && k <= BlockCount(size, b) && |s.log| <= |u.log| && s.log <= u.log
            && StatusReads(Ops(p.bar, u.log[|s.log|..]))
               == 1 + k + TotalPolls(Outcomes(p, Opened(p, s), a, b, BlockCount(size, b)), k)
  {
    hide Run, Outcomes, StatusReads, Fetched, Opened, TotalPolls, Transcript, Ops;
    BusOfRun(p, s, a, size, b, cb);
    var outs, trace := Outcomes(p, Opened(p, s), a, b, BlockCount(size, b)), Run(p, s, a, size, b, cb).2;
    TranscriptReads(outs, a, b, trace);
    NoReads();
    StatusReadsAppend([Get(Offset(HSFS))], Transcript(outs, a, b, trace));
  }

  lemma NoPolls(outs: seq<Outcome>)
    ensures TotalPolls(outs, 0) == 0
  {
  }

  function TotalLatency(p: Profile, started: nat, k: nat): nat {
    if k == 0 then 0 else TotalLatency(p, started, k - 1) + p.latency(started + k - 1)
  }

  /** Polls of a timely run: one per unit of latency and one more per block. */
  lemma {:induction false} PollsOfRun(p: Profile, s: Device, a: int, b: int, n: nat, k: nat)
    requires Idle(p, s) && BlockSize(b) && Timely(p, s, n) && k <= n
    ensures TotalPolls(Outcomes(p, s, a, b, n), k) == TotalLatency(p, s.started, k) + k
    decreases k
  {
    hide View, OutcomeAt, Timely, Idle, Held;
    if k != 0 {
      PollsOfRun(p, s, a, b, n, k - 1);
      TimelyOutcome(p, s, a, b, n, k - 1);
    }
  }

  /** Polls of a run on a write-1-to-clear device: only the first block can wait. */
  lemma {:induction false} PollsWhenStale(p: Profile, s: Device, a: int, b: int, n: nat, k: nat)
    requires Idle(p, s) && BlockSize(b) && p.policy.WriteOneToClear? && 0 < k <= n
    ensures TotalPolls(Outcomes(p, s, a, b, n), k) <= p.latency(s.started) + k
    decreases k
  {
    hide View, ReadBlock, Addr, Fdone;
    if k == 1 {
      NoPolls(Outcomes(p, s, a, b, n));
      if StaleDone(p, s) && p.latency(s.started) > 0 {
        BlockPremature(p, s, Addr(a, b, 0), b);
      } else {
        BlockCompletes(p, s, Addr(a, b, 0), b);
      }
    } else {
      PollsWhenStale(p, s, a, b, n, k - 1);
      StaleRuns.LaterBlocksPollOnce(p, s, a, b, k - 1);
    }
  }

  /** The cost of every run, stopped or not, in status reads on the bus: on a
      store-as-written device exactly the latencies of the fetched blocks plus two per
      block and one; on a write-1-to-clear device at most the first block's latency
      plus two per block and one. */
  lemma StatusReadsBounded(p: Profile, s: Device, a: int, size: int, b: int, cb: Callbacks)
    requires Wf(p, s) && Run(p, s, a, size, b, cb).1 == Ok
    ensures var (u, status, trace) := Run(p, s, a, size, b, cb);
            var t, k := Opened(p, s), Fetched(trace);
            && |s.log| <= |u.log|
            && var count := StatusReads(Ops(p.bar, u.log[|s.log|..]));
               && (p.policy.StoreAsWritten? ==> count == 1 + 2 * k + TotalLatency(p, t.started, k))
               && (p.policy.WriteOneToClear? && k > 0 ==> count <= 1 + 2 * k + p.latency(t.started))
               && (k == 0 ==> count == 1)
  {
    hide Run, View, Outcomes, StatusReads, Fetched, Opened, TotalPolls, TotalLatency, Idle, Ops;
    RunRefines(p, s, a, size, b, cb);
    var t, n, k := Opened(p, s), BlockCount(size, b), Fetched(Run(p, s, a, size, b, cb).2);
    StatusReadsOfRun(p, s, a, size, b, cb);
    ProceedsIffIdle(p, s, a, size, b, cb);
    NoPolls(Outcomes(p, t, a, b, n));
    if p.policy.StoreAsWritten? {
      PollsOfRun(p, t, a, b, n, k);
    } else if k > 0 {
      PollsWhenStale(p, t, a, b, n, k);
    }
  }
}
