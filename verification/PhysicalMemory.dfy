/** The mapped window as the program sees it: bytes read and written in place,
    with the flash controller behind them. */
module PhysicalMemory {
  import opened Memory
  import opened Controller

  class MappedWindow {
    const profile: Profile
    const mem: array<byte>
    var flash: seq<byte>
    var busy: Option<Cycle>
    var remaining: nat
    var last: Option<Cycle>
    var started: nat
    var log: seq<Access>

    ghost predicate Valid() {
      mem.Length == WINDOW_SIZE
    }

    /** The device as a value. */
    ghost function State(): (s: Device)
      requires Valid()
      reads this, mem
      ensures |s.window| == WINDOW_SIZE
    {
      Device(mem[..], flash, busy, remaining, last, started, log)
    }

    /** A freshly mapped window over an idle device. */
    constructor (profile: Profile, flash: seq<byte>)
      ensures Valid() && fresh(mem) && this.profile == profile
      ensures State() == Device(seq(WINDOW_SIZE, _ => 0), flash, None, 0, None, 0, [])
    {
      this.profile := profile;
      this.flash := flash;
      mem := new byte[WINDOW_SIZE](_ => 0);
      busy, remaining, last, started, log := None, 0, None, 0, [];
      new;
      assert mem[..] == seq(WINDOW_SIZE, _ => 0);
    }

    method ReadUint8(at: nat) returns (v: byte)
      requires Valid() && at < WINDOW_SIZE
      ensures v == Load8(State().window, at)
    {
      v := mem[at];
    }

    method ReadUint16(at: nat) returns (v: word16)
      requires Valid() && at + 2 <= WINDOW_SIZE
      modifies this, mem
      ensures (State(), v) == Read16(profile, old(State()), at)
    {
      if at == profile.bar + 0x04 {
        Step();
      }
      v := mem[at] as int + 0x100 * (mem[at + 1] as int);
      Record(at, v);
    }

    method ReadUint32(at: nat) returns (v: word32)
      requires Valid() && at + 4 <= WINDOW_SIZE
      modifies this`log
      ensures (State(), v) == Read32(profile, old(State()), at)
    {
      v := mem[at] as int + 0x100 * (mem[at + 1] as int)
        + 0x1_0000 * (mem[at + 2] as int) + 0x100_0000 * (mem[at + 3] as int);
      Record(at, v);
    }

    method WriteUint8(at: nat, v: byte)
      requires Valid() && at < WINDOW_SIZE
      modifies this`log, mem
      ensures State() == Write8(old(State()), at, v)
    {
      mem[at] := v;
      log := log + [Store(at, v)];
      assert mem[..] == Store8(old(mem[..]), at, v);
    }

    method WriteUint16(at: nat, v: word16)
      requires Valid() && at + 2 <= WINDOW_SIZE
      modifies this, mem
      ensures State() == Write16(profile, old(State()), at, v)
    {
      var stored := v;
      if at == profile.bar + 0x04 {
        stored := WrittenStatus(profile.policy, mem[at] as int + 0x100 * (mem[at + 1] as int), v);
      }
      PutWord(at, stored);
      log := log + [Store(at, v)];
      if at == profile.bar + 0x06 {
        Start(v);
      }
    }

    method WriteUint32(at: nat, v: word32)
      requires Valid() && at + 4 <= WINDOW_SIZE
      modifies this`log, mem
      ensures State() == Write32(profile, old(State()), at, v)
    {
      mem[at], mem[at + 1] := v % 0x100, v / 0x100 % 0x100;
      mem[at + 2], mem[at + 3] := v / 0x1_0000 % 0x100, v / 0x100_0000;
      log := log + [Store(at, v)];
      assert mem[..] == Store32(old(mem[..]), at, v);
    }

    // ---- the device's side ----

    method PutWord(at: nat, v: word16)
      requires Valid() && at + 2 <= WINDOW_SIZE
      modifies mem
      ensures mem[..] == Store16(old(mem[..]), at, v)
    {
      mem[at], mem[at + 1] := v % 0x100, v / 0x100;
    }

    method Record(at: nat, v: nat)
      requires Valid()
      modifies this`log
      ensures State() == Logged(profile, old(State()), at, v)
    {
      var w := mem[..];
      log := log + [Load(at, v, busy.Some?, last, View(w, profile.bar).faddr % 0x200_0000, started)];
    }

    /** One step of the controller. */
    method Step()
      requires Valid()
      modifies this, mem
      ensures State() == Tick(profile, old(State()))
    {
      if busy.Some? {
        if remaining > 0 {
          remaining := remaining - 1;
        } else {
          Finish();
        }
      }
    }

    /** The cycle in flight completes: status, data, flash. */
    method Finish()
      requires Valid() && busy.Some? && remaining == 0
      modifies this, mem
      ensures State() == Tick(profile, old(State()))
    {
      hide CompletedStatus, FlashSlice, Store16, SetFdata, FlashByte;
      var c, f := busy.value, profile.bar + 0x04;
      PutWord(f, CompletedStatus(mem[f] as int + 0x100 * (mem[f + 1] as int), profile.fails(c)));
      if c.kind == READ_CYCLE && !profile.fails(c) && c.count <= 64 {
        Fill(c.address, c.count);
      }
      if c.kind != READ_CYCLE && !profile.fails(c) {
        flash := profile.mutate(c, flash);
      }
      busy, last := None, Some(c);
    }

    /** Flash bytes arrive in the data registers, in place. */
    method Fill(address: nat, count: nat)
      requires Valid() && count <= 64
      modifies mem
      ensures mem[..] == SetFdata(old(mem[..]), profile.bar, FlashSlice(flash, address, count))
    {
      var f := profile.bar + 0x10;
      ghost var w := mem[..];
      for i := 0 to count
        invariant mem[..f] == w[..f]
        invariant forall j :: f <= j < f + i ==> mem[j] == FlashByte(flash, address + (j - f))
        invariant mem[f + i..] == w[f + i..]
      {
        mem[f + i] := FlashByte(flash, address + i);
      }
      var data := FlashSlice(flash, address, count);
      assert forall i :: 0 <= i < count ==> mem[f..f + count][i] == mem[f + i] == data[i];
      assert mem[..] == mem[..f] + mem[f..f + count] + mem[f + count..];
    }

    /** A control word arrives. */
    method Start(v: word16)
      requires Valid()
      modifies this, mem
      ensures State() == Go(profile, old(State()), v)
    {
      hide StartedStatus;
      if v % 2 == 1 && busy.None? {
        var w, f := mem[..], profile.bar + 0x04;
        busy := Some(Cycle(started, v / 2 % 4, Load32(w, profile.bar + 0x08) % 0x200_0000, v / 0x100 % 64 + 1));
        PutWord(f, StartedStatus(Load16(w, f)));
        remaining := profile.latency(started);
        started := started + 1;
      }
    }
  }
}
