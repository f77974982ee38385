/** The register accessors and the read loop of pawn/chipset.cc and
    pawn/chipset_intel_ich8.cc, run against the mapped window. */
module Chipset {
  import opened Bits
  import opened Memory
  import opened Registers
  import opened RegisterMap
  import opened Controller
  import opened Protocol
  import opened PhysicalMemory
  import opened Regions
  import opened SoftwareSequencing
  import BlockRead
  import BusSafety
  import Trace
  import Dump
  import opened DumpTheorems

  lemma WholeBlocksLeft(x: int, b: int)
    requires b > 0 && x > 0 && x % b == 0
    ensures x >= b && (x - b) % b == 0
  {
    var q := x / b;
    assert x == b * q;
    MulMagnitude(b, q);
    assert x - b == b * (q - 1) + 0;
    DivModUnique(x - b, b, q - 1, 0);
  }

  /** Region i as the window holds it. */
  function FlashRegion(w: seq<byte>, bar: SpiBase, i: nat): (Freg, Pr)
    requires |w| == WINDOW_SIZE && i < 5
  {
    hide DecodeFreg, DecodePr, Load32;
    (DecodeFreg(Load32(w, bar + Offset(FREG(i)))), DecodePr(Load32(w, bar + Offset(PR(i)))))
  }

  class IntelChipset {
    const rcrb: MappedWindow

    constructor (rcrb: MappedWindow)
      ensures this.rcrb == rcrb
    {
      this.rcrb := rcrb;
    }

    ghost predicate Valid() {
      rcrb.Valid()
    }

    ghost function State(): (s: Device)
      requires Valid()
      reads rcrb, rcrb.mem
      ensures |s.window| == WINDOW_SIZE
    {
      rcrb.State()
    }

    /** SpiBar(offset), 0x3020 or 0x3800 plus the offset. */
    function SpiBar(offset: int): int {
      rcrb.profile.bar + offset
    }

    method ReadHsfsRegister() returns (h: Hsfs)
      requires Valid()
      modifies rcrb, rcrb.mem
      ensures var r := Read16(rcrb.profile, old(State()), rcrb.profile.bar + Offset(HSFS));
              State() == r.0 && h == DecodeHsfs(r.1)
    {
      hide View, Tick, Load16, DecodeHsfs;
      var w := rcrb.ReadUint16(SpiBar(0x04));
      h := DecodeHsfs(w);
    }

    method WriteHsfsRegister(h: Hsfs)
      requires Valid()
      modifies rcrb, rcrb.mem
      ensures State() == Write16(rcrb.profile, old(State()), rcrb.profile.bar + Offset(HSFS), EncodeHsfs(h))
      ensures rcrb.profile.policy.StoreAsWritten? ==>
                State().window == Apply(old(State()).window, rcrb.profile.bar, PutHsfs(h))
    {
      hide EncodeHsfs, Apply, Write16;
      WritesMatchMap(rcrb.profile, State(), h, DecodeHsfc(0), DecodeFaddr(0));
      rcrb.WriteUint16(SpiBar(0x04), EncodeHsfs(h));
    }

    method ReadHsfcRegister() returns (h: Hsfc)
      requires Valid()
      modifies rcrb, rcrb.mem
      ensures var r := Read16(rcrb.profile, old(State()), rcrb.profile.bar + Offset(HSFC));
              State() == r.0 && h == DecodeHsfc(r.1)
    {
      hide View, Tick, Load16, DecodeHsfc;
      var w := rcrb.ReadUint16(SpiBar(0x06));
      h := DecodeHsfc(w);
    }

    method WriteHsfcRegister(h: Hsfc)
      requires Valid()
      modifies rcrb, rcrb.mem
      ensures State() == Write16(rcrb.profile, old(State()), rcrb.profile.bar + Offset(HSFC), EncodeHsfc(h))
      ensures !h.fgo || old(State()).busy.Some? ==>
                State().window == Apply(old(State()).window, rcrb.profile.bar, PutHsfc(h))
    {
      hide EncodeHsfc, Apply, Write16;
      WritesMatchMap(rcrb.profile, State(), DecodeHsfs(0), h, DecodeFaddr(0));
      rcrb.WriteUint16(SpiBar(0x06), EncodeHsfc(h));
    }

    method ReadFaddrRegister() returns (f: Faddr)
      requires Valid()
      modifies rcrb, rcrb.mem
      ensures var r := Read32(rcrb.profile, old(State()), rcrb.profile.bar + Offset(FADDR));
              State() == r.0 && f == DecodeFaddr(r.1)
    {
      hide View, Load32, DecodeFaddr;
      var w := rcrb.ReadUint32(SpiBar(0x08));
      f := DecodeFaddr(w);
    }

    method WriteFaddrRegister(f: Faddr)
      requires Valid()
      modifies rcrb, rcrb.mem
      ensures State() == Write32(rcrb.profile, old(State()), rcrb.profile.bar + Offset(FADDR), EncodeFaddr(f))
      ensures State().window == Apply(old(State()).window, rcrb.profile.bar, PutFaddr(f))
    {
      hide EncodeFaddr, Apply, Write32;
      WritesMatchMap(rcrb.profile, State(), DecodeHsfs(0), DecodeHsfc(0), f);
      rcrb.WriteUint32(SpiBar(0x08), EncodeFaddr(f));
    }

    /** The source aborts for other indices; it lets 16 through. */
    method ReadFdataNRegister(i: int) returns (w: word32)
      requires Valid() && 0 <= i <= 16
      modifies rcrb, rcrb.mem
      ensures (State(), w) == Read32(rcrb.profile, old(State()), rcrb.profile.bar + Offset(FDATA(i)))
    {
      hide View, Load32;
      w := rcrb.ReadUint32(SpiBar(0x10 + i * 4));
    }

    method WriteSsfsRegister(s: Ssfs)
      requires Valid()
      modifies rcrb, rcrb.mem
      ensures State().window == Apply(old(State()).window, rcrb.profile.bar, PutSsfs(s))
      ensures State().log == old(State()).log + [Store(rcrb.profile.bar + Offset(SSFS), EncodeSsfs(s))]
    {
      hide EncodeSsfs;
      rcrb.WriteUint8(SpiBar(0x90), EncodeSsfs(s));
    }

    method ReadSsfsRegister() returns (s: Ssfs)
      requires Valid()
      ensures s == DecodeSsfs(Load8(State().window, rcrb.profile.bar + Offset(SSFS)))
    {
      hide DecodeSsfs;
      var w := rcrb.ReadUint8(SpiBar(0x90));
      s := DecodeSsfs(w);
    }

    /** One byte, then one word: the stores in the source's order. */
    method WriteSsfcRegister(s: Ssfc)
      requires Valid()
      modifies rcrb, rcrb.mem
      ensures State().window == Apply(old(State()).window, rcrb.profile.bar, PutSsfc(s))
      ensures State().log == old(State()).log + [Store(rcrb.profile.bar + Offset(SSFC), Top(s)),
                                                 Store(rcrb.profile.bar + Offset(SSFC) + 1, Rest(s))]
    {
      hide Top, Rest;
      rcrb.WriteUint8(SpiBar(0x91), Top(s));
      rcrb.WriteUint16(SpiBar(0x91 + 1), Rest(s));
    }

    method ReadSsfcRegister() returns (s: Ssfc)
      requires Valid()
      modifies rcrb`log
      ensures State().window == old(State()).window
      ensures s == DecodeSsfc(Load32(State().window, rcrb.profile.bar + Offset(SSFC)))
    {
      hide DecodeSsfc, View, Load32;
      var w := rcrb.ReadUint32(SpiBar(0x91));
      s := DecodeSsfc(w);
    }

    method ReadBfprRegister() returns (b: Bfpr)
      requires Valid()
      modifies rcrb`log
      ensures State().window == old(State()).window
      ensures b == DecodeBfpr(Load32(State().window, rcrb.profile.bar + Offset(BFPR)))
    {
      hide DecodeBfpr, View, Load32;
      var w := rcrb.ReadUint32(SpiBar(0x00));
      b := DecodeBfpr(w);
    }

    method ReadFrapRegister() returns (f: Frap)
      requires Valid()
      modifies rcrb`log
      ensures State().window == old(State()).window
      ensures f == DecodeFrap(Load32(State().window, rcrb.profile.bar + Offset(FRAP)))
    {
      hide DecodeFrap, View, Load32;
      var w := rcrb.ReadUint32(SpiBar(0x50));
      f := DecodeFrap(w);
    }

    /** Any index whose word lies in the window: the source does not check it. */
    method ReadFregNRegister(i: int) returns (f: Freg)
      requires Valid() && 0 <= rcrb.profile.bar + Offset(FREG(i)) <= WINDOW_SIZE - 4
      modifies rcrb`log
      ensures State().window == old(State()).window
      ensures f == DecodeFreg(Load32(State().window, rcrb.profile.bar + Offset(FREG(i))))
    {
      hide DecodeFreg, View, Load32;
      var w := rcrb.ReadUint32(SpiBar(0x54 + i * 4));
      f := DecodeFreg(w);
    }

    method ReadPrNRegister(i: int) returns (r: Pr)
      requires Valid() && 0 <= rcrb.profile.bar + Offset(PR(i)) <= WINDOW_SIZE - 4
      modifies rcrb`log
      ensures State().window == old(State()).window
      ensures r == DecodePr(Load32(State().window, rcrb.profile.bar + Offset(PR(i))))
    {
      hide DecodePr, View, Load32;
      var w := rcrb.ReadUint32(SpiBar(0x74 + i * 4));
      r := DecodePr(w);
    }

    /** The five flash regions and protected ranges the tool reports, filled in order. */
    method ReadRegions() returns (regions: array<(Freg, Pr)>)
      requires Valid()
      modifies rcrb`log
      ensures fresh(regions) && regions.Length == 5 && State().window == old(State()).window
      ensures forall i :: 0 <= i < 5 ==>
                regions[i] == FlashRegion(State().window, rcrb.profile.bar, i)
    {
      hide DecodeFreg, DecodePr, Load32, View;
      ghost var window := State().window;
      regions := new (Freg, Pr)[5](_ => (DecodeFreg(0), DecodePr(0)));
      for i := 0 to 5
        invariant State().window == window
        invariant forall j :: 0 <= j < i ==>
                    regions[j] == FlashRegion(window, rcrb.profile.bar, j)
      {
        var freg := ReadFregNRegister(i);
        var pr := ReadPrNRegister(i);
        regions[i] := (freg, pr);
      }
    }

    /** The read loop. The device afterwards, the status and the callbacks made are
        those of Protocol.Run; no intermediate address leaves the range of int. Bad
        arguments leave the device alone, and a cycle in progress costs one status load. */
    method ReadSpiWithHardwareSequencing(flashAddress: int32, size: int32, blockSize: int32, cb: Callbacks)
      returns (status: Status, trace: seq<Event>)
      requires Valid() && INT_MIN <= flashAddress + size <= INT_MAX
      modifies rcrb, rcrb.mem
      ensures (State(), status, trace) == Run(rcrb.profile, old(State()), flashAddress, size, blockSize, cb)
      ensures status == InvalidArgument ==> State() == old(State())
      ensures status == Unavailable ==>
                && |State().log| == |old(State()).log| + 1 && old(State()).log <= State().log
                && State().log[|old(State()).log|].Load?
                && State().log[|old(State()).log|].at == rcrb.profile.bar + Offset(HSFS)
                && State().(log := old(State()).log) == Tick(rcrb.profile, old(State()))
      ensures BusSafety.ReadOnly(old(State())) ==> State().flash == old(State()).flash
    {
      hide Read16, RunBlocks, DecodeHsfs, Tick;
      ghost var s := State();
      Trace.RefusedCall(rcrb.profile, s, flashAddress, size, blockSize, cb);
      if BusSafety.ReadOnly(s) {
        BusSafety.RunIsReadOnly(rcrb.profile, s, flashAddress, size, blockSize, cb);
      }
      trace := [];
      if blockSize < 4 || blockSize > 64 {
        return InvalidArgument, trace;
      }
      if Remainder(size, blockSize) != 0 {
        return InvalidArgument, trace;
      }
      var hsfs := ReadHsfsRegister();
      if hsfs.scip {
        return Unavailable, trace;
      }
      trace := ReadBlocks(flashAddress, size, blockSize, cb);
      status := Ok;
    }

    /** The loop over the blocks. */
    method ReadBlocks(flashAddress: int32, size: int32, blockSize: int32, cb: Callbacks)
      returns (trace: seq<Event>)
      requires Valid() && BlockSize(blockSize) && Remainder(size, blockSize) == 0
      requires INT_MIN <= flashAddress + size <= INT_MAX
      modifies rcrb, rcrb.mem
      ensures (State(), trace)
              == RunBlocks(rcrb.profile, old(State()), flashAddress, flashAddress + size, blockSize, cb, [])
    {
      hide Fetch, Drain, DecodeHsfs, Bytes, Remainder;
      trace := [];
      var buf := new word32[blockSize / 4](_ => 0);
      var cur: int32, end: int32 := flashAddress, flashAddress + size;
      Trace.RemainderZero(size, blockSize);
      while cur < end
        invariant cur <= end ==> (end - cur) % blockSize == 0
        invariant fresh(buf)
        invariant RunBlocks(rcrb.profile, State(), cur, end, blockSize, cb, trace)
                  == RunBlocks(rcrb.profile, old(State()), flashAddress, end, blockSize, cb, [])
        decreases end - cur
      {
        WholeBlocksLeft(end - cur, blockSize);
        var hsfs := FetchBlock(cur, blockSize);
        if hsfs.fcerr && cb.onError {
          trace := trace + [Error(cur)];
          if !cb.answer(trace) {
            return;
          }
        }
        ReadData(buf);
        trace := trace + [Block(cur, Bytes(buf[..]))];
        if !cb.answer(trace) {
          return;
        }
        cur := cur + blockSize;
      }
      if cb.onDone {
        trace := trace + [Done];
      }
    }

    /** Clear the status, program the address, start the cycle, wait for FDONE. */
    method FetchBlock(cur: int32, blockSize: int32) returns (hsfs: Hsfs)
      requires Valid() && BlockSize(blockSize)
      modifies rcrb, rcrb.mem
      ensures var r := Fetch(rcrb.profile, old(State()), cur, blockSize);
              State() == r.0 && hsfs == DecodeHsfs(r.1)
    {
      hide Read16, Read32, Write16, Write32, Poll,
        DecodeHsfs, EncodeHsfs, DecodeHsfc, EncodeHsfc, DecodeFaddr, EncodeFaddr;
      ghost var s := State();
      hsfs := ReadHsfsRegister();
      hsfs := hsfs.(ael := false, fcerr := false, fdone := false);
      WriteHsfsRegister(hsfs);
      assert State() == ClearStatus(rcrb.profile, s);
      var faddr := ReadFaddrRegister();
      faddr := faddr.(fla := cur % 0x200_0000);
      WriteFaddrRegister(faddr);
      assert State() == ProgramAddress(rcrb.profile, ClearStatus(rcrb.profile, s), cur);
      var hsfc := ReadHsfcRegister();
      hsfc := hsfc.(fdbc := (blockSize - 1) % 64, fcycle := FCYCLE_READ, fgo := true);
      WriteHsfcRegister(hsfc);
      assert State() == Prepare(rcrb.profile, s, cur, blockSize);
      PrepareFinishes(rcrb.profile, s, cur, blockSize);
      hsfs := WaitForDone();
    }

    /** do { read HSFS } while FDONE is clear. It ends because the cycle in flight has
        a finite latency. */
    method WaitForDone() returns (hsfs: Hsfs)
      requires Valid() && WillFinish(rcrb.profile, State())
      modifies rcrb, rcrb.mem
      ensures var r := Poll(rcrb.profile, old(State()));
              State() == r.0 && hsfs == DecodeHsfs(r.1)
    {
      hide View, DecodeHsfs, Read16;
      ghost var p, s := rcrb.profile, State();
      PollStep(p, s);
      hsfs := ReadHsfsRegister();
      while !hsfs.fdone
        invariant hsfs.fdone ==> State() == Poll(p, s).0 && hsfs == DecodeHsfs(Poll(p, s).1)
        invariant !hsfs.fdone ==> State().busy.Some?
        invariant !hsfs.fdone ==> Poll(p, State()).0 == Poll(p, s).0 && Poll(p, State()).1 == Poll(p, s).1
        decreases !hsfs.fdone, State().remaining
      {
        PollStep(p, State());
        hsfs := ReadHsfsRegister();
      }
    }

    /** Fill the buffer from the data registers, in place. */
    method ReadData(buf: array<word32>)
      requires Valid() && buf.Length <= 16
      modifies rcrb, rcrb.mem, buf
      ensures (State(), buf[..]) == Drain(rcrb.profile, old(State()), buf.Length)
    {
      hide Read32;
      ghost var s := State();
      for i := 0 to buf.Length
        invariant (State(), buf[..i]) == Drain(rcrb.profile, s, i)
      {
        var w := ReadFdataNRegister(i);
        buf[i] := w;
        assert buf[..i + 1] == buf[..i] + [w];
      }
      assert buf[..buf.Length] == buf[..];
    }

    /** The tool's dump: 16 MiB from 0 in blocks of 64, errors ignored, every block
        appended to the file. It is turned away, with an empty file and after one status
        read, exactly when that read shows SCIP. Otherwise the file is exactly 16 MiB and
        holds, block by block, what the device delivered: on a store-as-written device
        what could be read last, on any device the flash if the run is timely and
        readable. */
    method DumpFlash() returns (status: Status, file: seq<byte>)
      requires Valid()
      modifies rcrb, rcrb.mem
      ensures status == if Scip(Read16(rcrb.profile, old(State()), rcrb.profile.bar + Offset(HSFS)).1) then Unavailable
                        else Ok
      ensures |file| == if status == Ok then MAX_FLASH else 0
      ensures BusSafety.ReadOnly(old(State())) ==> State().flash == old(State()).flash
      ensures var p, t := rcrb.profile, Trace.Opened(rcrb.profile, old(State()));
              && State() == (if status == Ok then Trace.AfterBlocks(p, t, 0, BLOCK_SIZE, 0x4_0000) else t)
              && (status == Ok ==>
                    forall k {:trigger Trace.OutcomeAt(p, t, 0, BLOCK_SIZE, k)} :: 0 <= k < 0x4_0000 ==>
                      file[64 * k..64 * k + 64] == Trace.OutcomeAt(p, t, 0, BLOCK_SIZE, k).data)
      ensures var p, t := rcrb.profile, Trace.Opened(rcrb.profile, old(State()));
              BlockRead.Idle(p, t) ==>
                && status == Ok
                && (p.policy.StoreAsWritten? ==>
                      forall k {:trigger LastReadable(p, t, k)} :: 0 <= k < 0x4_0000 ==>
                        file[64 * k..64 * k + 64] == LastReadable(p, t, k))
                && (Dump.Timely(p, t, 0x4_0000) && Readable(p, t.started, 0, BLOCK_SIZE, 0x4_0000) ==>
                      file == FlashSlice(t.flash, 0, MAX_FLASH))
    {
      hide Run, FlashSlice, View, Trace.Opened, BlockRead.Idle, Dump.Timely, Readable, Read16, Scip, LastReadable,
        Trace.OutcomeAt, Trace.AfterBlocks, Tick, Dump.Contents;
      ghost var p, s := rcrb.profile, State();
      var cb := Callbacks(false, true, (t: seq<Event>) => true);
      var trace;
      status, trace := ReadSpiWithHardwareSequencing(0, MAX_FLASH, BLOCK_SIZE, cb);
      file := Dump.Contents(trace);
      ghost var t := Trace.Opened(p, s);
      ToolDumpSize(p, s, cb);
      ToolTrace(p, s, cb);
      forall k | 0 <= k < 0x4_0000 && status == Ok
        ensures file[64 * k..64 * k + 64] == Trace.OutcomeAt(p, t, 0, BLOCK_SIZE, k).data
      {
        ToolBlock(p, s, cb, k);
      }
      if BlockRead.Idle(p, t) {
        IdleDump(p, s, cb);
      }
    }
  }

  /** The tool's dump of a device that is idle after the first status read. */
  lemma IdleDump(p: Profile, s: Device, cb: Callbacks)
    requires |s.window| == WINDOW_SIZE && BlockRead.Idle(p, Trace.Opened(p, s)) && Dump.Continuing(cb)
    ensures var t, (u, status, trace) := Trace.Opened(p, s), Run(p, s, 0, MAX_FLASH, BLOCK_SIZE, cb);
            var file := Dump.Contents(trace);
            && status == Ok && |file| == MAX_FLASH
            && (p.policy.StoreAsWritten? ==>
                  forall k {:trigger LastReadable(p, t, k)} :: 0 <= k < 0x4_0000 ==>
                    file[64 * k..64 * k + 64] == LastReadable(p, t, k))
            && (Dump.Timely(p, t, 0x4_0000) && Readable(p, t.started, 0, BLOCK_SIZE, 0x4_0000) ==>
                  file == FlashSlice(t.flash, 0, MAX_FLASH))
  {
    hide Run, Dump.LastGood, FlashSlice, View, Trace.Opened, BlockRead.Idle, Dump.Timely, Readable, Dump.Contents;
    var t := Trace.Opened(p, s);
    Dump.IdleProceeds(p, s, 0, MAX_FLASH, BLOCK_SIZE, cb);
    ToolDumpSize(p, s, cb);
    if p.policy.StoreAsWritten? {
      forall k | 0 <= k < 0x4_0000
        ensures Dump.Contents(Run(p, s, 0, MAX_FLASH, BLOCK_SIZE, cb).2)[64 * k..64 * k + 64] == LastReadable(p, t, k)
      {
        ToolDump(p, s, cb, k);
      }
    }
    if Dump.Timely(p, t, 0x4_0000) && Readable(p, t.started, 0, BLOCK_SIZE, 0x4_0000) {
      assert Trace.BlockCount(MAX_FLASH, BLOCK_SIZE) == 0x4_0000;
      DumpIsFlash(p, s, 0, MAX_FLASH, BLOCK_SIZE, cb);
    }
  }

  /** The bytes of the last of the tool's blocks up to k that could be read, or the
      initial FDATA. */
  ghost function LastReadable(p: Profile, t: Device, k: nat): seq<byte>
    requires |t.window| == WINDOW_SIZE
  {
    var g := Dump.LastGood(p, t.started, 0, BLOCK_SIZE, k);
    if g < 0 then BlockRead.Regs(p, t).fdata else FlashSlice(t.flash, 64 * g, 64)
  }
}
