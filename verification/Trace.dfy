/** The callbacks of a whole run against a specification that knows nothing of
    registers: the uninterrupted list of events, cut at the first answer of
    false. */
module Trace {
  import opened Bits
  import opened Memory
  import opened Registers
  import opened RegisterMap
  import opened Controller
  import opened Protocol

  /** Address of block i. */
  function Addr(a: int, b: int, i: nat): int {
    if i == 0 then a else Addr(a, b, i - 1) + b
  }

  lemma AddrNext(a: int, b: int, i: nat)
    ensures Addr(a, b, i + 1) == Addr(a, b, i) + b
  {
  }

  lemma {:induction false} AddrMeaning(a: int, b: int, i: nat)
    ensures Addr(a, b, i) == a + i * b
  {
    if i != 0 {
      AddrMeaning(a, b, i - 1);
      assert i * b == (i - 1) * b + b;
    }
  }

  lemma {:induction false} AddrOrder(a: int, b: int, i: nat, n: nat)
    requires i <= n && b > 0
    ensures Addr(a, b, i) + (n - i) <= Addr(a, b, n)
    ensures i < n ==> Addr(a, b, i) + b <= Addr(a, b, n)
    decreases n
  {
    if i < n {
      AddrOrder(a, b, i, n - 1);
    }
  }

  /** The device after i blocks of an uninterrupted run. */
  function AfterBlocks(p: Profile, s: Device, a: int, b: int, i: nat): (r: Device)
    requires |s.window| == WINDOW_SIZE && BlockSize(b)
    ensures |r.window| == WINDOW_SIZE
  {
    if i == 0 then s else ReadBlock(p, AfterBlocks(p, s, a, b, i - 1), Addr(a, b, i - 1), b).0
  }

  /** What block i of an uninterrupted run yields. */
  function OutcomeAt(p: Profile, s: Device, a: int, b: int, i: nat): (r: Outcome)
    requires |s.window| == WINDOW_SIZE && BlockSize(b)
    ensures |r.data| == b / 4 * 4
  {
    ReadBlock(p, AfterBlocks(p, s, a, b, i), Addr(a, b, i), b).1
  }

  function Outcomes(p: Profile, s: Device, a: int, b: int, n: nat): (r: seq<Outcome>)
    requires |s.window| == WINDOW_SIZE && BlockSize(b)
    ensures |r| == n
  {
    seq(n, i requires 0 <= i < n => OutcomeAt(p, s, a, b, i))
  }

  // ---------------------------------------------------------------------
  // The specification
  // ---------------------------------------------------------------------

  /** A failing block reports an error first, if there is a handler; the block is
      delivered in any case. */
  function BlockEvents(o: Outcome, address: int, onError: bool): (r: seq<Event>)
    ensures 1 <= |r| <= 2 && r[|r| - 1] == Block(address, o.data)
    ensures |r| == 2 <==> o.error && onError
    ensures |r| == 2 ==> r[0] == Error(address)
  {
    (if o.error && onError then [Error(address)] else []) + [Block(address, o.data)]
  }

  /** All events from block i on, if nobody stops the run. */
  function Events(outs: seq<Outcome>, a: int, b: int, cb: Callbacks, i: nat): seq<Event>
    requires i <= |outs|
    decreases |outs| - i
  {
    if i == |outs| then (if cb.onDone then [Done] else [])
    else BlockEvents(outs[i], Addr(a, b, i), cb.onError) + Events(outs, a, b, cb, i + 1)
  }

  /** t is `full` cut right after the first event that is answered false: a prefix
      whose proper parts were all answered true, and which is all of `full` or
      ends in an event answered false. */
  predicate Cut(full: seq<Event>, t: seq<Event>, cb: Callbacks, before: seq<Event>) {
    && t <= full
    && (forall i :: 0 < i < |t| ==> cb.answer(before + t[..i]))
    && (t == full || (t != [] && !cb.answer(before + t)))
  }

  /** The events and the answers determine the cut. */
  lemma CutUnique(full: seq<Event>, t: seq<Event>, u: seq<Event>, cb: Callbacks, before: seq<Event>)
    requires Cut(full, t, cb, before) && Cut(full, u, cb, before)
    ensures t == u
  {
    var m := if |t| <= |u| then |t| else |u|;
    assert t[..m] == full[..m] == u[..m];
    assert t[..|t|] == t && u[..|u|] == u;
  }

  // ---------------------------------------------------------------------
  // Refinement
  // ---------------------------------------------------------------------

  /** Nothing to cut. */
  lemma CutAll(full: seq<Event>, cb: Callbacks, before: seq<Event>)
    requires |full| <= 1
    ensures Cut(full, full, cb, before)
  {
  }

  /** Went past the first events. */
  lemma CutTail(head: seq<Event>, rest: seq<Event>, t: seq<Event>, cb: Callbacks, before: seq<Event>)
    requires forall i :: 0 < i <= |head| ==> cb.answer(before + head[..i])
    requires Cut(rest, t, cb, before + head)
    ensures Cut(head + rest, head + t, cb, before)
  {
    var full, u := head + rest, head + t;
    assert u <= full by {
      assert forall i :: 0 <= i < |t| ==> rest[i] == t[i];
    }
    forall i | 0 < i < |u|
      ensures cb.answer(before + u[..i])
    {
      if i <= |head| {
        assert u[..i] == head[..i];
      } else {
        var j := i - |head|;
        assert u[..i] == head + t[..j];
        assert before + u[..i] == before + head + t[..j];
      }
    }
    assert before + u == before + head + t;
  }

  /** For every device, every latency, every failure and every answer, the callbacks
      of the block loop are the uninterrupted events of the device's outcomes cut at
      the first answer of false. */
  lemma {:induction false} LoopRefines(
    p: Profile, s: Device, a: int, b: int, n: nat, i: nat, cb: Callbacks, before: seq<Event>)
    requires |s.window| == WINDOW_SIZE && BlockSize(b) && i <= n
    ensures var r := RunBlocks(p, AfterBlocks(p, s, a, b, i), Addr(a, b, i), Addr(a, b, n), b, cb, before).1;
            && before <= r
            && Cut(Events(Outcomes(p, s, a, b, n), a, b, cb, i), r[|before|..], cb, before)
    decreases n - i
  {
    hide ReadBlock, Fetch, Drain, Bytes, DecodeHsfs, Addr, BlockEvents, RunBlocks;
    var outs := Outcomes(p, s, a, b, n);
    AddrOrder(a, b, i, n);
    var t := AfterBlocks(p, s, a, b, i);
    var r := RunBlocks(p, t, Addr(a, b, i), Addr(a, b, n), b, cb, before).1;
    if i == n {
      LoopEnd(p, t, Addr(a, b, n), b, cb, before);
      CutAll(Events(outs, a, b, cb, i), cb, before);
      assert r[|before|..] == Events(outs, a, b, cb, i);
    } else {
      LoopStep(p, t, Addr(a, b, i), Addr(a, b, n), b, cb, before);
      AddrNext(a, b, i);
      assert outs[i] == ReadBlock(p, t, Addr(a, b, i), b).1;
      assert AfterBlocks(p, s, a, b, i + 1) == ReadBlock(p, t, Addr(a, b, i), b).0;
      var head := BlockEvents(outs[i], Addr(a, b, i), cb.onError);
      var rest := Events(outs, a, b, cb, i + 1);
      if Continues(head, cb, before) {
        LoopRefines(p, s, a, b, n, i + 1, cb, before + head);
        assert r[|before|..] == head + r[|before + head|..];
        CutTail(head, rest, r[|before + head|..], cb, before);
      } else {
        StoppedCuts(head, rest, cb, before);
        assert r[|before|..] == Stopped(head, cb, before);
      }
    }
  }

  lemma LoopEnd(p: Profile, s: Device, end: int, b: int, cb: Callbacks, before: seq<Event>)
    requires |s.window| == WINDOW_SIZE && BlockSize(b)
    ensures RunBlocks(p, s, end, end, b, cb, before).1 == before + if cb.onDone then [Done] else []
  {
  }

  /** All of a block's events are answered true. */
  predicate Continues(head: seq<Event>, cb: Callbacks, before: seq<Event>) {
    forall i :: 0 < i <= |head| ==> cb.answer(before + head[..i])
  }

  /** A block's events up to the one answered false. */
  function Stopped(head: seq<Event>, cb: Callbacks, before: seq<Event>): seq<Event>
    requires 1 <= |head| <= 2 && !Continues(head, cb, before)
  {
    if !cb.answer(before + head[..1]) then head[..1] else head
  }

  lemma StoppedCuts(head: seq<Event>, rest: seq<Event>, cb: Callbacks, before: seq<Event>)
    requires 1 <= |head| <= 2 && !Continues(head, cb, before)
    ensures Cut(head + rest, Stopped(head, cb, before), cb, before)
  {
    assert head[..|head|] == head;
  }

  /** One turn of the loop. */
  lemma LoopStep(p: Profile, s: Device, cur: int, end: int, b: int, cb: Callbacks, before: seq<Event>)
    requires |s.window| == WINDOW_SIZE && BlockSize(b) && cur < end
    ensures var (t, o) := ReadBlock(p, s, cur, b);
            var head := BlockEvents(o, cur, cb.onError);
            RunBlocks(p, s, cur, end, b, cb, before).1
            == if Continues(head, cb, before) then RunBlocks(p, t, cur + b, end, b, cb, before + head).1
               else before + Stopped(head, cb, before)
  {
    hide Fetch, Drain, Bytes, DecodeHsfs;
    var (t, o) := ReadBlock(p, s, cur, b);
    var head := BlockEvents(o, cur, cb.onError);
    if |head| == 2 {
      assert head[..1] == [Error(cur)] && head[..2] == head;
      assert before + head == before + [Error(cur)] + [Block(cur, o.data)];
    } else {
      assert head[..1] == head == [Block(cur, o.data)];
    }
  }

  // ---------------------------------------------------------------------
  // The whole call
  // ---------------------------------------------------------------------

  /** Blocks a call asks for; a negative size asks for none. */
  function BlockCount(size: int, b: int): nat
    requires b > 0
  {
    if size <= 0 then 0 else size / b
  }

  /** The device after the status read at the start of the call. */
  function Opened(p: Profile, s: Device): (t: Device)
    requires |s.window| == WINDOW_SIZE
    ensures |t.window| == WINDOW_SIZE
  {
    Read16(p, s, p.bar + 0x04).0
  }

  /** Every outcome of the call, for every device and every oracle. Bad arguments are
      reported without touching the device, a cycle in progress after one status read,
      both without a callback; otherwise the call succeeds and the callbacks are the
      specified events, cut. */
  lemma RunRefines(p: Profile, s: Device, a: int, size: int, b: int, cb: Callbacks)
    requires |s.window| == WINDOW_SIZE
    ensures var (u, status, trace) := Run(p, s, a, size, b, cb);
            && (status == InvalidArgument <==> !BlockSize(b) || size % b != 0)
            && (status == Unavailable <==> BlockSize(b) && size % b == 0 && Scip(Read16(p, s, p.bar + 0x04).1))
            && (status != Ok ==> trace == [])
            && (status == InvalidArgument ==> u == s)
            && (status == Unavailable ==> u == Opened(p, s))
            && (status == Ok ==>
                  Cut(Events(Outcomes(p, Opened(p, s), a, b, BlockCount(size, b)), a, b, cb, 0), trace, cb, []))
  {
    hide RunBlocks, DecodeHsfs, Outcomes, Events, Cut;
    var (t, h) := Read16(p, s, p.bar + 0x04);
    DecodeHsfsBits(h);
    if BlockSize(b) {
      RemainderZero(size, b);
      var n := BlockCount(size, b);
      if size % b == 0 {
        LoopBound(p, t, a, size, b, cb);
        LoopRefines(p, t, a, b, n, 0, cb, []);
        var r := RunBlocks(p, t, a, Addr(a, b, n), b, cb, []).1;
        assert r[0..] == r;
      }
    }
  }

  /** A call that is turned away starts nothing and stores nothing: with bad arguments
      the device is as it was, with a cycle in progress it has made the one step of the
      one status load. */
  lemma RefusedCall(p: Profile, s: Device, a: int, size: int, b: int, cb: Callbacks)
    requires |s.window| == WINDOW_SIZE
    ensures var (u, status, trace) := Run(p, s, a, size, b, cb);
            && (status == InvalidArgument ==> u == s)
            && (status == Unavailable ==>
                  && |u.log| == |s.log| + 1 && s.log <= u.log
                  && u.log[|s.log|].Load? && u.log[|s.log|].at == p.bar + Offset(HSFS)
                  && u.started == s.started && u.(log := s.log) == Tick(p, s))
  {
    hide RunBlocks, DecodeHsfs, CompletedWindow, View;
  }

  lemma RemainderZero(size: int, b: int)
    requires b > 0
    ensures Remainder(size, b) == 0 <==> size % b == 0
  {
    if size < 0 {
      var q, r := -size / b, -size % b;
      assert -size == b * q + r;
      if r == 0 {
        assert size == b * -q + 0;
        DivModUnique(size, b, -q, 0);
      } else {
        assert b * (-q - 1) == -(b * q) - b;
        DivModUnique(size, b, -q - 1, b - r);
      }
    }
  }

  /** The loop runs as if its bound were the address after the last block. */
  lemma LoopBound(p: Profile, s: Device, a: int, size: int, b: int, cb: Callbacks)
    requires |s.window| == WINDOW_SIZE && BlockSize(b) && size % b == 0
    ensures RunBlocks(p, s, a, a + size, b, cb, []) == RunBlocks(p, s, a, Addr(a, b, BlockCount(size, b)), b, cb, [])
  {
    hide Fetch, Drain;
    if size > 0 {
      EndAddress(a, size, b);
    }
  }

  lemma EndAddress(a: int, size: int, b: int)
    requires b > 0 && size >= 0 && size % b == 0
    ensures Addr(a, b, BlockCount(size, b)) == a + size
  {
    AddrMeaning(a, b, BlockCount(size, b));
  }

  // ---------------------------------------------------------------------
  // What the events look like
  // ---------------------------------------------------------------------

  /** The event after the error at j is the block at the same address. */
  predicate BlockFollows(e: seq<Event>, j: nat)
    requires j < |e| && e[j].Error?
  {
    j + 1 < |e| && e[j + 1].Block? && e[j + 1].address == e[j].address
  }

  /** Done is last and present exactly when there is a done callback; an error is
      followed at once by the block at the same address. */
  predicate Shape(e: seq<Event>, cb: Callbacks) {
    && (forall j :: 0 <= j < |e| ==> (e[j] == Done <==> cb.onDone && j == |e| - 1))
    && (cb.onDone ==> e != [])
    && (forall j {:trigger BlockFollows(e, j)} :: 0 <= j < |e| && e[j].Error? ==> cb.onError && BlockFollows(e, j))
  }

  lemma {:induction false} EventsShape(outs: seq<Outcome>, a: int, b: int, cb: Callbacks, i: nat)
    requires i <= |outs|
    ensures Shape(Events(outs, a, b, cb, i), cb)
    decreases |outs| - i
  {
    hide Shape, BlockEvents;
    if i < |outs| {
      EventsShape(outs, a, b, cb, i + 1);
      ShapeOfBlock(BlockEvents(outs[i], Addr(a, b, i), cb.onError), Addr(a, b, i), outs[i].data,
                   Events(outs, a, b, cb, i + 1), cb);
    } else {
      ShapeOfEnd(cb);
    }
  }

  lemma ShapeOfEnd(cb: Callbacks)
    ensures Shape(if cb.onDone then [Done] else [], cb)
  {
  }

  lemma ShapeOfBlock(head: seq<Event>, address: int, data: seq<byte>, rest: seq<Event>, cb: Callbacks)
    requires head == [Block(address, data)] || (cb.onError && head == [Error(address), Block(address, data)])
    requires Shape(rest, cb)
    ensures Shape(head + rest, cb)
  {
    var e, n := head + rest, |head|;
    forall j | 0 <= j < |e|
      ensures e[j] == Done <==> cb.onDone && j == |e| - 1
    {
      assert j >= n ==> e[j] == rest[j - n];
    }
    forall j | 0 <= j < |e| && e[j].Error?
      ensures cb.onError && BlockFollows(e, j)
    {
      if j >= n {
        assert e[j] == rest[j - n];
        assert BlockFollows(rest, j - n);
      }
    }
  }

  /** The documented contract of a run's callbacks, for every device and oracle:
      done comes at most once, last, and exactly when there is a done callback and
      every answer was true; an error is followed by its block unless the handler
      stopped the run; nothing follows an answer of false. */
  lemma TraceContract(outs: seq<Outcome>, a: int, b: int, cb: Callbacks, t: seq<Event>)
    requires Cut(Events(outs, a, b, cb, 0), t, cb, [])
    ensures forall j :: 0 <= j < |t| && t[j] == Done ==> j == |t| - 1
    ensures Done in t <==> cb.onDone && t == Events(outs, a, b, cb, 0)
    ensures forall j :: 0 < j < |t| ==> cb.answer(t[..j])
    ensures forall j {:trigger BlockFollows(t, j)} :: 0 <= j < |t| && t[j].Error? ==>
              cb.onError && (BlockFollows(t, j) || (j == |t| - 1 && !cb.answer(t)))
  {
    var e := Events(outs, a, b, cb, 0);
    hide Events;
    EventsShape(outs, a, b, cb, 0);
    assert [] + t == t;
    forall j | 0 < j < |t|
      ensures cb.answer(t[..j])
    {
      assert [] + t[..j] == t[..j];
    }
    assert t == e[..|t|];
    forall j | 0 <= j < |t| && t[j].Error?
      ensures cb.onError && (BlockFollows(t, j) || (j == |t| - 1 && !cb.answer(t)))
    {
      assert BlockFollows(e, j);
    }
    if cb.onDone && t == e {
      assert t[|t| - 1] == Done;
    }
  }

  /** Addresses handed to block_read, in order. */
  function Addresses(t: seq<Event>): seq<int> {
    if t == [] then []
    else Addresses(t[..|t| - 1]) + if t[|t| - 1].Block? then [t[|t| - 1].address] else []
  }

  lemma {:induction false} AddressesAppend(t: seq<Event>, u: seq<Event>)
    ensures Addresses(t + u) == Addresses(t) + Addresses(u)
    decreases |u|
  {
    if u == [] {
      assert t + u == t;
    } else {
      var u' := u[..|u| - 1];
      AddressesAppend(t, u');
      assert (t + u)[..|t + u| - 1] == t + u';
    }
  }

  /** The addresses a, a + b, a + 2b and so on, each once and in order. */
  lemma {:induction false} EventAddresses(outs: seq<Outcome>, a: int, b: int, cb: Callbacks, i: nat)
    requires i <= |outs|
    ensures Addresses(Events(outs, a, b, cb, i)) == AddressList(a, b, i, |outs| - i)
    decreases |outs| - i
  {
    hide Addresses, BlockEvents;
    if i == |outs| {
      AddressOfOne(Done);
      NoAddresses();
    } else {
      EventAddresses(outs, a, b, cb, i + 1);
      var head, rest := BlockEvents(outs[i], Addr(a, b, i), cb.onError), Events(outs, a, b, cb, i + 1);
      AddressesAppend(head, rest);
      BlockAddress(outs[i], Addr(a, b, i), cb.onError);
    }
  }

  /** The addresses of n blocks from block i on. */
  function AddressList(a: int, b: int, i: nat, n: nat): (r: seq<int>)
    ensures |r| == n
    ensures forall j :: 0 <= j < n ==> r[j] == Addr(a, b, i + j)
    decreases n
  {
    if n == 0 then [] else [Addr(a, b, i)] + AddressList(a, b, i + 1, n - 1)
  }

  lemma NoAddresses()
    ensures Addresses([]) == []
  {
  }

  lemma AddressOfOne(e: Event)
    ensures Addresses([e]) == if e.Block? then [e.address] else []
  {
    assert [e][..0] == [];
  }

  lemma BlockAddress(o: Outcome, address: int, onError: bool)
    ensures Addresses(BlockEvents(o, address, onError)) == [address]
  {
    var last := Block(address, o.data);
    AddressOfOne(last);
    if o.error && onError {
      AddressOfOne(Error(address));
      AddressesAppend([Error(address)], [last]);
    } else {
      assert BlockEvents(o, address, onError) == [last];
    }
  }

  /** A stopped run has handed out an initial part of the addresses. */
  lemma CutAddresses(outs: seq<Outcome>, a: int, b: int, cb: Callbacks, t: seq<Event>)
    requires Cut(Events(outs, a, b, cb, 0), t, cb, [])
    ensures |Addresses(t)| <= |outs|
    ensures forall j :: 0 <= j < |Addresses(t)| ==> Addresses(t)[j] == Addr(a, b, j)
  {
    var e := Events(outs, a, b, cb, 0);
    EventAddresses(outs, a, b, cb, 0);
    AddressesAppend(t, e[|t|..]);
    assert t + e[|t|..] == e;
    forall j | 0 <= j < |Addresses(t)|
      ensures Addresses(t)[j] == Addr(a, b, j)
    {
      assert Addresses(e)[j] == Addr(a, b, 0 + j);
    }
  }

  lemma AddressesGrow(t: seq<Event>, e: Event)
    ensures |Addresses(t + [e])| == |Addresses(t)| + if e.Block? then 1 else 0
  {
    hide Addresses;
    AddressesAppend(t, [e]);
    AddressOfOne(e);
  }

  // ---------------------------------------------------------------------
  // The device after a run
  // ---------------------------------------------------------------------

  /** The error handler stopped the run. */
  predicate EndsInError(t: seq<Event>) {
    t != [] && t[|t| - 1].Error?
  }

  /** Blocks whose cycle was run: those handed out, and one more if its error handler
      stopped the run. */
  function Fetched(t: seq<Event>): nat {
    |Addresses(t)| + if EndsInError(t) then 1 else 0
  }

  /** The device after the callbacks t: it has read the blocks handed out, and fetched
      one more if its error handler stopped the run. */
  function DeviceAfter(p: Profile, s: Device, a: int, b: int, t: seq<Event>): Device
    requires |s.window| == WINDOW_SIZE && BlockSize(b)
  {
    var k := |Addresses(t)|;
    var u := AfterBlocks(p, s, a, b, k);
    if EndsInError(t) then Fetch(p, u, Addr(a, b, k), b).0 else u
  }

  lemma {:induction false} LoopEnds(
    p: Profile, s: Device, a: int, b: int, n: nat, i: nat, cb: Callbacks, before: seq<Event>)
    requires |s.window| == WINDOW_SIZE && BlockSize(b) && i <= n
    requires |Addresses(before)| == i && !EndsInError(before)
    ensures var (u, r) := RunBlocks(p, AfterBlocks(p, s, a, b, i), Addr(a, b, i), Addr(a, b, n), b, cb, before);
            u == DeviceAfter(p, s, a, b, r) && Fetched(r) <= n
    decreases n - i
  {
    hide Fetch, Drain, DecodeHsfs, Bytes, Addr, Addresses;
    var cur, t := Addr(a, b, i), AfterBlocks(p, s, a, b, i);
    AddrOrder(a, b, i, n);
    AddressesGrow(before, Done);
    if i < n {
      AddrNext(a, b, i);
      var (u, h, polls) := Fetch(p, t, cur, b);
      var (v, words) := Drain(p, u, b / 4);
      var failed := DecodeHsfs(h).fcerr && cb.onError;
      var trace1 := if failed then before + [Error(cur)] else before;
      var trace2 := trace1 + [Block(cur, Bytes(words))];
      AddressesGrow(before, Error(cur));
      AddressesGrow(trace1, Block(cur, Bytes(words)));
      assert AfterBlocks(p, s, a, b, i + 1) == v;
      LoopEnds(p, s, a, b, n, i + 1, cb, trace2);
    }
  }

  /** The device after any call, for every device and every oracle: untouched, after
      one status read, or after exactly the blocks the callbacks tell of. */
  lemma RunEnds(p: Profile, s: Device, a: int, size: int, b: int, cb: Callbacks)
    requires |s.window| == WINDOW_SIZE
    ensures var (u, status, trace) := Run(p, s, a, size, b, cb);
            match status
            case InvalidArgument => u == s
            case Unavailable => u == Opened(p, s)
            case Ok => BlockSize(b) && u == DeviceAfter(p, Opened(p, s), a, b, trace)
                       && Fetched(trace) <= BlockCount(size, b)
  {
    hide RunBlocks, DecodeHsfs, Addresses, DeviceAfter;
    if Run(p, s, a, size, b, cb).1 == Ok {
      RemainderZero(size, b);
      LoopBound(p, Opened(p, s), a, size, b, cb);
      AddrMeaning(a, b, 0);
      NoAddresses();
      LoopEnds(p, Opened(p, s), a, b, BlockCount(size, b), 0, cb, []);
    }
  }
}
