/** The hardware-sequencing flash controller behind the mapped window: a state
    machine whose steps are the driver's register accesses. Its decoding of the
    registers is written in plain arithmetic, independent of the driver's codecs. */
module Controller {
  import Bits
  import opened Memory
  import opened Registers
  import opened RegisterMap

  datatype Option<T> = None | Some(value: T)

  /** What a write does to the status bits FDONE, FCERR and AEL. */
  datatype Policy = StoreAsWritten | WriteOneToClear

  /** A flash cycle, as the controller latched it. */
  datatype Cycle = Cycle(serial: nat, kind: nat, address: nat, count: nat)

  const READ_CYCLE: nat := 0

  /** Everything about a device that the driver cannot know: how long each cycle
      takes (in status reads), which cycles fail, and what a cycle other than a
      read does to the flash. */
  datatype Profile = Profile(
    bar: SpiBase,
    policy: Policy,
    latency: nat -> nat,
    fails: Cycle -> bool,
    mutate: (Cycle, seq<byte>) -> seq<byte>)

  /** One access on the bus. A load records what the device was doing then: whether
      a cycle was in flight, the last completed cycle, the address in FADDR and how
      many cycles had been started. */
  datatype Access =
    | Load(at: nat, value: nat, busy: bool, source: Option<Cycle>, fla: nat, started: nat)
    | Store(at: nat, value: nat)

  datatype Device = Device(
    window: seq<byte>,
    flash: seq<byte>,
    busy: Option<Cycle>,
    remaining: nat,
    last: Option<Cycle>,
    started: nat,
    log: seq<Access>)

  /** The registers of the read protocol, as words and bytes. */
  datatype RegView = RegView(hsfs: word16, hsfc: word16, faddr: word32, fdata: seq<byte>)

  function View(w: seq<byte>, bar: SpiBase): (r: RegView)
    requires |w| == WINDOW_SIZE
    ensures |r.fdata| == 64
  {
    RegView(Load16(w, bar + 0x04), Load16(w, bar + 0x06), Load32(w, bar + 0x08), w[bar + 0x10..bar + 0x50])
  }

  /** SCIP is set exactly while a cycle is in flight. */
  predicate Wf(p: Profile, s: Device) {
    && |s.window| == WINDOW_SIZE
    && (s.busy.Some? <==> Scip(View(s.window, p.bar).hsfs))
  }

  predicate Fdone(hsfs: word16) { hsfs % 2 == 1 }
  predicate Fcerr(hsfs: word16) { hsfs / 2 % 2 == 1 }
  predicate Ael(hsfs: word16) { hsfs / 4 % 2 == 1 }
  predicate Scip(hsfs: word16) { hsfs / 32 % 2 == 1 }

  // ---------------------------------------------------------------------
  // Flash contents
  // ---------------------------------------------------------------------

  /** Past the end of the chip the bus reads all ones. */
  function FlashByte(flash: seq<byte>, a: nat): byte {
    if a < |flash| then flash[a] else 0xFF
  }

  function FlashSlice(flash: seq<byte>, a: nat, n: nat): (r: seq<byte>)
    ensures |r| == n && forall i :: 0 <= i < n ==> r[i] == FlashByte(flash, a + i)
  {
    seq<byte>(n, i requires 0 <= i => FlashByte(flash, a + i))
  }

  // ---------------------------------------------------------------------
  // Device steps
  // ---------------------------------------------------------------------

  /** The status word when a cycle completes: SCIP clear, FDONE set, and FCERR set
      if it failed. */
  function CompletedStatus(hsfs: word16, failed: bool): word16 {
    hsfs - 32 * (hsfs as int / 32 % 2) + (1 - hsfs as int % 2)
    + if failed then 2 * (1 - hsfs as int / 2 % 2) else 0
  }

  /** The status word when a cycle starts: SCIP set. */
  function StartedStatus(hsfs: word16): word16 {
    hsfs + 32 * (1 - hsfs as int / 32 % 2)
  }

  /** What a write of v to the status register stores. */
  function WrittenStatus(policy: Policy, hsfs: word16, v: word16): word16 {
    match policy
    case StoreAsWritten => v
    case WriteOneToClear =>
      v - v % 8 + Cleared(hsfs as int % 2, v as int % 2) + 2 * Cleared(hsfs as int / 2 % 2, v as int / 2 % 2)
      + 4 * Cleared(hsfs as int / 4 % 2, v as int / 4 % 2)
  }

  function Cleared(bit: nat, written: nat): nat {
    if written == 1 then 0 else bit
  }

  /** The FDATA bytes overwritten from the start by `data`. */
  function SetFdata(w: seq<byte>, bar: SpiBase, data: seq<byte>): (r: seq<byte>)
    requires |w| == WINDOW_SIZE && |data| <= 64
    ensures |r| == |w|
  {
    w[..bar + 0x10] + data + w[bar + 0x10 + |data|..]
  }

  /** A successful read delivers its bytes; any other cycle leaves FDATA alone. */
  function CompletedWindow(p: Profile, w: seq<byte>, flash: seq<byte>, c: Cycle): (r: seq<byte>)
    requires |w| == WINDOW_SIZE
    ensures |r| == |w|
  {
    var w' := Store16(w, p.bar + 0x04, CompletedStatus(Load16(w, p.bar + 0x04), p.fails(c)));
    if c.kind == READ_CYCLE && !p.fails(c) && c.count <= 64
    then SetFdata(w', p.bar, FlashSlice(flash, c.address, c.count))
    else w'
  }

  /** One step of the device: it idles, waits, or completes the cycle in flight. */
  function Tick(p: Profile, s: Device): (r: Device)
    requires |s.window| == WINDOW_SIZE
    ensures |r.window| == WINDOW_SIZE
  {
    if s.busy.None? then s
    else if s.remaining > 0 then s.(remaining := s.remaining - 1)
    else
      var c := s.busy.value;
      s.(window := CompletedWindow(p, s.window, s.flash, c),
         flash := if c.kind == READ_CYCLE || p.fails(c) then s.flash else p.mutate(c, s.flash),
         busy := None, last := Some(c))
  }

  /** A control word with FGO set starts a cycle unless one is in flight. */
  function Go(p: Profile, s: Device, v: word16): (r: Device)
    requires |s.window| == WINDOW_SIZE
    ensures |r.window| == WINDOW_SIZE
  {
    if v % 2 == 0 || s.busy.Some? then s
    else
      var c := Cycle(s.started, v / 2 % 4, Load32(s.window, p.bar + 0x08) % 0x200_0000, v / 0x100 % 64 + 1);
      s.(window := Store16(s.window, p.bar + 0x04, StartedStatus(Load16(s.window, p.bar + 0x04))),
         busy := Some(c), remaining := p.latency(s.started), started := s.started + 1)
  }

  // ---------------------------------------------------------------------
  // Bus accesses: ReadUint16 and friends against the device
  // ---------------------------------------------------------------------

  function Logged(p: Profile, s: Device, at: nat, v: nat): (r: Device)
    requires |s.window| == WINDOW_SIZE
    ensures |r.window| == WINDOW_SIZE
  {
    s.(log := s.log + [Load(at, v, s.busy.Some?, s.last, View(s.window, p.bar).faddr % 0x200_0000, s.started)])
  }

  /** Each 16-bit read of HSFS is one step of the device. */
  function Read16(p: Profile, s: Device, at: nat): (r: (Device, word16))
    requires |s.window| == WINDOW_SIZE && at + 2 <= WINDOW_SIZE
    ensures |r.0.window| == WINDOW_SIZE
  {
    var t := if at == p.bar + 0x04 then Tick(p, s) else s;
    (Logged(p, t, at, Load16(t.window, at)), Load16(t.window, at))
  }

  function Read32(p: Profile, s: Device, at: nat): (r: (Device, word32))
    requires |s.window| == WINDOW_SIZE && at + 4 <= WINDOW_SIZE
    ensures |r.0.window| == WINDOW_SIZE
  {
    (Logged(p, s, at, Load32(s.window, at)), Load32(s.window, at))
  }

  function Write16(p: Profile, s: Device, at: nat, v: word16): (r: Device)
    requires |s.window| == WINDOW_SIZE && at + 2 <= WINDOW_SIZE
    ensures |r.window| == WINDOW_SIZE
  {
    var stored := if at == p.bar + 0x04 then WrittenStatus(p.policy, Load16(s.window, at), v) else v;
    var t := s.(window := Store16(s.window, at, stored), log := s.log + [Store(at, v)]);
    if at == p.bar + 0x06 then Go(p, t, v) else t
  }

  function Write32(p: Profile, s: Device, at: nat, v: word32): (r: Device)
    requires |s.window| == WINDOW_SIZE && at + 4 <= WINDOW_SIZE
    ensures |r.window| == WINDOW_SIZE
  {
    s.(window := Store32(s.window, at, v), log := s.log + [Store(at, v)])
  }

  function Write8(s: Device, at: nat, v: byte): (r: Device)
    requires |s.window| == WINDOW_SIZE && at < WINDOW_SIZE
    ensures |r.window| == WINDOW_SIZE
  {
    s.(window := Store8(s.window, at, v), log := s.log + [Store(at, v)])
  }

  // ---------------------------------------------------------------------
  // The same steps on the register view
  // ---------------------------------------------------------------------

  lemma ViewOfHsfs(w: seq<byte>, bar: SpiBase, v: word16)
    requires |w| == WINDOW_SIZE
    ensures View(Store16(w, bar + 0x04, v), bar) == View(w, bar).(hsfs := v)
  {
    LoadAfterStore16(w, bar + 0x04, v);
  }

  lemma ViewOfHsfc(w: seq<byte>, bar: SpiBase, v: word16)
    requires |w| == WINDOW_SIZE
    ensures View(Store16(w, bar + 0x06, v), bar) == View(w, bar).(hsfc := v)
  {
    LoadAfterStore16(w, bar + 0x06, v);
  }

  lemma ViewOfFaddr(w: seq<byte>, bar: SpiBase, v: word32)
    requires |w| == WINDOW_SIZE
    ensures View(Store32(w, bar + 0x08, v), bar) == View(w, bar).(faddr := v)
  {
    LoadAfterStore32(w, bar + 0x08, v);
  }

  /** FDATA with its first bytes replaced. */
  function Filled(fdata: seq<byte>, data: seq<byte>): seq<byte>
    requires |data| <= |fdata|
  {
    data + fdata[|data|..]
  }

  lemma ViewOfFdata(w: seq<byte>, bar: SpiBase, data: seq<byte>)
    requires |w| == WINDOW_SIZE && |data| <= 64
    ensures View(SetFdata(w, bar, data), bar)
            == View(w, bar).(fdata := Filled(View(w, bar).fdata, data))
  {
    Splice(w, bar + 0x10, data, 64);
  }

  /** Overwriting the bytes at `f` changes nothing before them, and what follows
      them inside the next n bytes stays. */
  lemma Splice(w: seq<byte>, f: nat, data: seq<byte>, n: nat)
    requires |data| <= n && f + n <= |w|
    ensures var w' := w[..f] + data + w[f + |data|..];
            && (forall i {:trigger w'[i]} :: 0 <= i < f ==> w'[i] == w[i])
            && w'[f..f + n] == data + w[f..f + n][|data|..]
  {
    var w' := w[..f] + data + w[f + |data|..];
    var left, right := w'[f..f + n], data + w[f..f + n][|data|..];
    forall i | 0 <= i < n
      ensures left[i] == right[i]
    {
      assert left[i] == w'[f + i];
      if i >= |data| {
        assert w'[f + i] == w[f + i];
      } else {
        assert w'[f + i] == data[i];
      }
    }
    assert left == right;
  }

  /** The registers after the cycle c completes. */
  function CompletedRegs(p: Profile, r: RegView, flash: seq<byte>, c: Cycle): RegView
    requires |r.fdata| == 64
  {
    RegView(CompletedStatus(r.hsfs, p.fails(c)), r.hsfc, r.faddr,
         if c.kind == READ_CYCLE && !p.fails(c) && c.count <= 64
         then Filled(r.fdata, FlashSlice(flash, c.address, c.count)) else r.fdata)
  }

  lemma ViewOfCompleted(p: Profile, w: seq<byte>, flash: seq<byte>, c: Cycle)
    requires |w| == WINDOW_SIZE
    ensures View(CompletedWindow(p, w, flash, c), p.bar) == CompletedRegs(p, View(w, p.bar), flash, c)
  {
    hide View, Store16, SetFdata, CompletedStatus, FlashSlice;
    var h := CompletedStatus(Load16(w, p.bar + 0x04), p.fails(c));
    ViewHsfs(w, p.bar);
    ViewOfHsfs(w, p.bar, h);
    if c.count <= 64 {
      ViewOfFdata(Store16(w, p.bar + 0x04, h), p.bar, FlashSlice(flash, c.address, c.count));
    }
  }

  lemma ViewHsfs(w: seq<byte>, bar: SpiBase)
    requires |w| == WINDOW_SIZE
    ensures View(w, bar).hsfs == Load16(w, bar + 0x04)
    ensures View(w, bar).hsfc == Load16(w, bar + 0x06)
    ensures View(w, bar).faddr == Load32(w, bar + 0x08)
  {
  }

  /** The controller's registers are those of the driver's map. */
  lemma ViewMatchesMap(w: seq<byte>, bar: SpiBase, i: nat)
    requires |w| == WINDOW_SIZE && i < 16
    ensures var v := View(w, bar);
            && v.hsfs == Load16(w, bar + Offset(HSFS)) && v.hsfc == Load16(w, bar + Offset(HSFC))
            && v.faddr == Load32(w, bar + Offset(FADDR))
            && v.fdata[4 * i..4 * i + 4] == RegisterBytes(w, bar, FDATA(i))
  {
    var fdata, f := View(w, bar).fdata, bar + 0x10;
    forall j | 4 * i <= j < 4 * i + 4
      ensures fdata[j] == w[f + j]
    {
    }
    assert fdata[4 * i..4 * i + 4] == w[f + 4 * i..f + 4 * i + 4];
  }

  /** What the driver's register writes do to the window, against the map: a status
      write is stored as it is where the device stores it so, a control word where it
      starts no cycle, an address always. */
  lemma WritesMatchMap(p: Profile, s: Device, h: Hsfs, c: Hsfc, f: Faddr)
    requires |s.window| == WINDOW_SIZE
    ensures p.policy.StoreAsWritten? ==>
              Write16(p, s, p.bar + Offset(HSFS), EncodeHsfs(h)).window == Apply(s.window, p.bar, PutHsfs(h))
    ensures !c.fgo || s.busy.Some? ==>
              Write16(p, s, p.bar + Offset(HSFC), EncodeHsfc(c)).window == Apply(s.window, p.bar, PutHsfc(c))
    ensures Write32(p, s, p.bar + Offset(FADDR), EncodeFaddr(f)).window == Apply(s.window, p.bar, PutFaddr(f))
  {
    hide EncodeHsfs, EncodeHsfc, EncodeFaddr, Store16, Store32;
    EncodeHsfcBits(c);
  }

  /** The status changes touch no bit but the ones they name. */
  lemma StatusBits(h: word16, failed: bool)
    ensures !Scip(CompletedStatus(h, failed)) && Fdone(CompletedStatus(h, failed))
    ensures Fcerr(CompletedStatus(h, failed)) <==> failed || Fcerr(h)
    ensures Scip(StartedStatus(h)) && (Fdone(StartedStatus(h)) <==> Fdone(h))
    ensures Fcerr(StartedStatus(h)) <==> Fcerr(h)
    ensures CompletedStatus(h, failed) / 64 == StartedStatus(h) / 64 == h / 64
    ensures CompletedStatus(h, failed) / 4 % 8 == StartedStatus(h) / 4 % 8 == h / 4 % 8
  {
    var a: int := h;
    Bits.Digit(a, 2, 2, 4);
    Bits.Digit(a, 4, 8, 32);
    Bits.Digit(a, 32, 2, 64);
    var x, m, e, d := a / 64, a / 4 % 8, a / 2 % 2, a % 2;
    assert a == 64 * x + 32 * (a / 32 % 2) + 4 * m + 2 * e + d;
    FromDigits(x, 0, m, if failed then 1 else e, 1, CompletedStatus(h, failed));
    FromDigits(x, 1, m, e, d, StartedStatus(h));
  }

  lemma FromDigits(x: nat, s: nat, m: nat, e: nat, d: nat, v: nat)
    requires s < 2 && m < 8 && e < 2 && d < 2
    requires v == 64 * x + 32 * s + 4 * m + 2 * e + d
    ensures v % 2 == d && v / 2 % 2 == e && v / 4 % 8 == m && v / 32 % 2 == s && v / 64 == x
  {
    assert v / 2 == 32 * x + 16 * s + 2 * m + e;
    assert v / 4 == 16 * x + 8 * s + m;
    assert v / 32 == 2 * x + s;
  }
}
