/** The documented promise of pawn/chipset.h:232-238, that block_read is called for
    successful blocks, against what the code does: exactly which runs keep it. */
module CallbackContract {
  import opened Memory
  import opened Controller
  import opened Protocol
  import opened BlockRead
  import opened Trace
  import opened Dump

  /** All events of blocks 0 to i - 1. */
  function EventsUpTo(outs: seq<Outcome>, a: int, b: int, cb: Callbacks, i: nat): seq<Event>
    requires i <= |outs|
  {
    if i == 0 then []
    else EventsUpTo(outs, a, b, cb, i - 1) + BlockEvents(outs[i - 1], Addr(a, b, i - 1), cb.onError)
  }

  /** All events that come before block k is handed to block_read: those of the
      earlier blocks, and its own error if there is a handler. */
  function EventsBefore(outs: seq<Outcome>, a: int, b: int, cb: Callbacks, k: nat): seq<Event>
    requires k < |outs|
  {
    EventsUpTo(outs, a, b, cb, k) + if outs[k].error && cb.onError then [Error(Addr(a, b, k))] else []
  }

  lemma {:induction false} EventsFrom(outs: seq<Outcome>, a: int, b: int, cb: Callbacks, i: nat)
    requires i <= |outs|
    ensures EventsUpTo(outs, a, b, cb, i) + Events(outs, a, b, cb, i) == Events(outs, a, b, cb, 0)
    ensures |Addresses(EventsUpTo(outs, a, b, cb, i))| == i
    decreases i
  {
    hide BlockEvents, Addr, Addresses;
    if i == 0 {
      NoAddresses();
    } else {
      EventsFrom(outs, a, b, cb, i - 1);
      var head := BlockEvents(outs[i - 1], Addr(a, b, i - 1), cb.onError);
      AddressesAppend(EventsUpTo(outs, a, b, cb, i - 1), head);
      BlockAddress(outs[i - 1], Addr(a, b, i - 1), cb.onError);
    }
  }

  /** Block k is handed out right after the events before it. */
  lemma EventsAround(outs: seq<Outcome>, a: int, b: int, cb: Callbacks, k: nat)
    requires k < |outs|
    ensures var before, full := EventsBefore(outs, a, b, cb, k), Events(outs, a, b, cb, 0);
            && before + [Block(Addr(a, b, k), outs[k].data)] <= full
            && |Addresses(before)| == k
            && |Addresses(before + [Block(Addr(a, b, k), outs[k].data)])| == k + 1
  {
    hide Addr, Addresses;
    var upTo, before := EventsUpTo(outs, a, b, cb, k), EventsBefore(outs, a, b, cb, k);
    var block := Block(Addr(a, b, k), outs[k].data);
    EventsFrom(outs, a, b, cb, k);
    assert before + [block] == upTo + BlockEvents(outs[k], Addr(a, b, k), cb.onError);
    NoAddresses();
    AddressOfOne(Error(Addr(a, b, k)));
    AddressOfOne(block);
    AddressesAppend(upTo, before[|upTo|..]);
    assert upTo + before[|upTo|..] == before;
    AddressesAppend(before, [block]);
  }

  /** A cut goes past a proper initial part exactly when all of it was answered true. */
  lemma CutReaches(full: seq<Event>, head: seq<Event>, t: seq<Event>, cb: Callbacks)
    requires head <= full && |head| < |full| && Cut(full, t, cb, [])
    ensures |t| > |head| <==> Continues(head, cb, [])
  {
    assert t == full[..|t|] && head == full[..|head|];
    if |t| > |head| {
      forall i | 0 < i <= |head|
        ensures cb.answer([] + head[..i])
      {
        assert t[..i] == head[..i];
      }
    } else {
      assert head[..|t|] == t;
    }
  }

  /** Block k is handed to block_read exactly when every callback before it was
      answered true. */
  lemma HandedOutIff(outs: seq<Outcome>, a: int, b: int, cb: Callbacks, t: seq<Event>, k: nat)
    requires Cut(Events(outs, a, b, cb, 0), t, cb, []) && k < |outs|
    ensures k < |Addresses(t)| <==> Continues(EventsBefore(outs, a, b, cb, k), cb, [])
  {
    hide Events, EventsBefore, Addresses, Addr, Continues;
    var full, before := Events(outs, a, b, cb, 0), EventsBefore(outs, a, b, cb, k);
    var block := Block(Addr(a, b, k), outs[k].data);
    EventsAround(outs, a, b, cb, k);
    CutReaches(full, before, t, cb);
    if |t| > |before| {
      assert t == (before + [block]) + t[|before| + 1..];
      AddressesAppend(before + [block], t[|before| + 1..]);
    } else {
      assert before == t + before[|t|..];
      AddressesAppend(t, before[|t|..]);
    }
  }

  /** g is the first block that reports an error. */
  predicate FirstError(outs: seq<Outcome>, g: nat) {
    g < |outs| && outs[g].error && forall k :: 0 <= k < g ==> !outs[k].error
  }

  /** Only successful blocks were handed to block_read. */
  predicate OnlySuccessful(outs: seq<Outcome>, t: seq<Event>)
    requires |Addresses(t)| <= |outs|
  {
    forall k :: 0 <= k < |Addresses(t)| ==> !outs[k].error
  }

  /** The documented promise holds of a run if and only if no block fails or some
      callback before the first failing block is handed out, its own error handler
      included, answers false. Without a handler nothing else can stop it. */
  lemma PromiseKeptIff(outs: seq<Outcome>, a: int, b: int, cb: Callbacks, t: seq<Event>)
    requires Cut(Events(outs, a, b, cb, 0), t, cb, [])
    ensures |Addresses(t)| <= |outs|
    ensures OnlySuccessful(outs, t)
            <==> forall g {:trigger FirstError(outs, g)} ::
                   FirstError(outs, g) ==> !Continues(EventsBefore(outs, a, b, cb, g), cb, [])
  {
    hide Events, EventsBefore, Addresses, Continues, Addr;
    CutAddresses(outs, a, b, cb, t);
    if OnlySuccessful(outs, t) {
      forall g: nat | FirstError(outs, g)
        ensures !Continues(EventsBefore(outs, a, b, cb, g), cb, [])
      {
        HandedOutIff(outs, a, b, cb, t, g);
      }
    } else {
      var k: nat :| k < |Addresses(t)| && outs[k].error;
      var g := EarliestError(outs, k);
      HandedOutIff(outs, a, b, cb, t, g);
    }
  }

  lemma {:induction false} EarliestError(outs: seq<Outcome>, k: nat) returns (g: nat)
    requires k < |outs| && outs[k].error
    ensures g <= k && FirstError(outs, g)
    decreases k
  {
    if j: nat :| j < k && outs[j].error {
      g := EarliestError(outs, j);
    } else {
      g := k;
    }
  }

  /** What a caller can do: a handler that answers false to every error keeps the
      promise, whatever the device does. */
  lemma StoppingHandlerKeepsPromise(outs: seq<Outcome>, a: int, b: int, cb: Callbacks, t: seq<Event>)
    requires Cut(Events(outs, a, b, cb, 0), t, cb, []) && cb.onError
    requires forall e: seq<Event> :: e != [] && e[|e| - 1].Error? ==> !cb.answer(e)
    ensures |Addresses(t)| <= |outs| && OnlySuccessful(outs, t)
  {
    hide Events, Addresses, Addr, EventsUpTo;
    PromiseKeptIff(outs, a, b, cb, t);
    forall g: nat | FirstError(outs, g)
      ensures !Continues(EventsBefore(outs, a, b, cb, g), cb, [])
    {
      var before := EventsBefore(outs, a, b, cb, g);
      assert before[..|before|] == before && [] + before == before;
      assert !cb.answer([] + before[..|before|]);
    }
  }

  /** The promise for a whole call, for every device and every oracle. */
  lemma PromiseOfRun(p: Profile, s: Device, a: int, size: int, b: int, cb: Callbacks)
    requires |s.window| == WINDOW_SIZE && Run(p, s, a, size, b, cb).1 == Ok
    ensures var t, trace := Opened(p, s), Run(p, s, a, size, b, cb).2;
            && BlockSize(b)
            && var outs := Outcomes(p, t, a, b, BlockCount(size, b));
               && |Addresses(trace)| <= |outs|
               && (OnlySuccessful(outs, trace)
                   <==> forall g {:trigger FirstError(outs, g)} ::
                          FirstError(outs, g) ==> !Continues(EventsBefore(outs, a, b, cb, g), cb, []))
  {
    hide Run, Read16, Outcomes, Events, EventsBefore, Continues, Addresses, OnlySuccessful, FirstError, Cut;
    RunRefines(p, s, a, size, b, cb);
    var t := Opened(p, s);
    PromiseKeptIff(Outcomes(p, t, a, b, BlockCount(size, b)), a, b, cb, Run(p, s, a, size, b, cb).2);
  }

  // ---------------------------------------------------------------------
  // A run that breaks the promise
  // ---------------------------------------------------------------------

  /** A device on which no cycle succeeds. */
  function Unreadable(): Profile {
    Profile(0x3800, StoreAsWritten, _ => 0, _ => true, (c, flash) => flash)
  }

  function Blank(): Device {
    Device(seq<byte>(WINDOW_SIZE, _ => 0), [], None, 0, None, 0, [])
  }

  /** One block of 64 bytes, no error handler: the read fails, and block_read is
      called all the same. */
  lemma FailedBlockIsHandedOut()
    ensures var cb := Callbacks(false, false, _ => true);
            var (u, status, trace) := Run(Unreadable(), Blank(), 0, 64, 64, cb);
            && status == Ok && Addresses(trace) == [0]
            && OutcomeAt(Unreadable(), Opened(Unreadable(), Blank()), 0, 64, 0).error
  {
    hide Run, Read16, OutcomeAt, Events, Addresses, Addr, Fdone, Scip;
    var p, s, cb := Unreadable(), Blank(), Callbacks(false, false, _ => true);
    var t := Opened(p, s);
    BlankIsIdle();
    OpenedIdle(p, s);
    IdleProceeds(p, s, 0, 64, 64, cb);
    TimelyOutcome(p, t, 0, 64, 1, 0);
    RunRefines(p, s, 0, 64, 64, cb);
    var outs := Outcomes(p, t, 0, 64, 1);
    EventAddresses(outs, 0, 64, cb, 0);
    AddrMeaning(0, 64, 0);
    assert AddressList(0, 64, 0, 1) == [0];
  }

  lemma BlankIsIdle()
    ensures Idle(Unreadable(), Blank())
  {
  }
}
