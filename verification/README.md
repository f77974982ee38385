# Pawn: reading SPI flash through Intel's hardware sequencer, in Dafny

Pawn dumps a machine's firmware by driving the flash controller of an Intel
chipset through memory-mapped registers. This project models that path from the
bit helpers up to the dump file and proves what it delivers: the shift-and-mask
helpers, the register codecs over a 16 KiB little-endian window, the read
protocol against a flash controller, the callbacks, the dump, and the PCI
configuration reads that locate the window.

Verify everything with `dafny verify dfyconfig.toml`.

## Layout

| file | contents |
|---|---|
| `Bits.dfy`, `Fields.dfy` | shifts, AND, OR, `Raw`, `Value`, `Test`, `Set` for words of any width; the algebra of field partitions |
| `Memory.dfy`, `Registers.dfy`, `SoftwareSequencing.dfy`, `Regions.dfy`, `RegisterMap.dfy` | little-endian access, the codecs as the source writes them, where the registers lie |
| `Controller.dfy` | the flash controller as a state machine; its steps are bus accesses |
| `Protocol.dfy` | the read loop as a function of the device and the callbacks |
| `BlockRead.dfy`, `Trace.dfy`, `CallbackContract.dfy` | closed form of one block; the callbacks of a run; when they keep the documented promise |
| `Dump.dfy`, `DumpTheorems.dfy`, `DumpLimits.dfy`, `StaleRuns.dfy` | contents of the dump; coverage, addressing and cost; runs that hand out data early |
| `BusSafety.dfy`, `BusTranscript.dfy`, `Sessions.dfy` | what may reach the bus; the exact sequence of accesses; several calls on one device |
| `PhysicalMemory.dfy`, `Chipset.dfy` | the imperative program: a window updated in place, the register accessors, the nested loops, the dump |
| `PciConfig.dfy` | the address and data ports against a flat configuration space |

## The device

The controller is not part of the repository, so its behaviour is an assumption
of this model. It is kept as arbitrary as the results allow.

- Each 16-bit read of HSFS is one step. A cycle completes on the step after
  `latency(serial)` waiting steps, for an arbitrary function `latency`. An
  arbitrary predicate decides which cycles fail; a failing cycle sets FCERR and
  leaves FDATA alone. A cycle that is not a read changes the flash by an
  arbitrary function.
- Storing a control word with FGO set latches FCYCLE, the 25-bit address and the
  byte count, and sets SCIP; it is ignored while a cycle is in flight.
- A write to HSFS either stores the status bits as written (`StoreAsWritten`), as
  the driver's comment at `pawn/chipset.cc:136` takes for granted, or clears the
  bits written as 1 (`WriteOneToClear`), as the HSFS section of the Intel datasheet
  328904-003 named at `pawn/chipset.h:30-33` describes FDONE, FCERR and AEL. The
  repository itself does not say which, so every result names the policy it
  needs.
- The controller decodes the registers by its own arithmetic, so a wrong codec in
  the driver shows up as a wrong cycle.
- Callback answers are an arbitrary function of all callbacks made so far.
- The address port keeps what is written with bits 1..0 hard-wired to zero, and the
  data port returns ones when bit 31 is clear (section 3.2.2.3.2 of the PCI Local
  Bus Specification 3.0).

## Where code and documentation disagree

The model follows the code.

- `pawn/chipset.h:232-238` promises `block_read` for successful blocks. The code
  calls it for failing blocks too, after the error callback, with stale data:
  `FailedBlockIsHandedOut` is such a call, `PromiseKeptIff` and `PromiseOfRun` say
  exactly which runs keep the promise, and `StoppingHandlerKeepsPromise` what a
  caller can do about it.
- `Raw` keeps `msb - 1` bits, not `msb - lsb + 1` (`RawCharacterisation`).
- WriteHsfsRegister writes the two-bit BERASE through `Set<4>` (`HsfsReadBack`).
- WriteSsfcRegister stores the top byte at the lowest address and fills its reserved
  bits from `reserved7` (`SsfcRotates`, `SsfcReadBack`).
- ReadFdataNRegister says 0..15 and admits 16, which is FRAP (`FdataGuard`).
- FREG and PR limits go into 13-bit fields, and the FREG base is not shifted
  (`FregTruncation`, `PrTruncation`).
- The printed FRAP is byte-reversed (`FrapIsReversed`).
- On a write-1-to-clear device the driver's "clearing" of the status clears nothing;
  `DumpRightIffTimelyAndReadable` says exactly when the dump is still right.

## Model

| member | source | states |
|---|---|---|
| `DumpTheorems.DumpIsFlash` | pawn/chipset.cc:118-174 | end to end through the register encodings: none of the run's own cycles fails, callbacks continue, 4 divides the block size, range inside 2^25, timely run: the delivered blocks concatenate to exactly flash[a..a+n], even if the first status read completes a cycle already in flight |
| `DumpTheorems.DumpRightIffTimelyAndReadable` | pawn/chipset.cc:136-165 | on either kind of device the dump is right for every flash contents if and only if every block that finds FDONE still set completes on its first status read and no cycle of the run fails |
| `DumpTheorems.PartialDump` | pawn/chipset.cc:154-170 | if the callbacks stop the run anywhere, what was dumped is the flash over exactly the blocks handed out |
| `DumpTheorems.StoreAsWrittenDump` | pawn/chipset.cc:118-174 | on an idle store-as-written device the dump is flash[a..a+n], whatever the latencies |
| `DumpTheorems.StaleBlock` | pawn/chipset.cc:151-165 | the first block whose wait ends early polls once and repeats the previous block's bytes |
| `DumpTheorems.SecondBlockRepeatsFirst` | pawn/chipset.cc:136-165 | on a write-1-to-clear device with a second cycle that takes any time, block two is block one's data |
| `StaleRuns.LaterBlocksPollOnce` | pawn/chipset.cc:136-153 | on a write-1-to-clear device in any state FDONE stays set after the first block and every later poll loop ends on its first read |
| `StaleRuns.ErrorsStick` | pawn/chipset.cc:136-159 | on a write-1-to-clear device in any state and for any latencies, one block that reports an error makes every later block report one |
| `StaleRuns.DataHasSource` | pawn/chipset.cc:136-167 | on any device with no cycle in flight at the start, for all latencies and failures, block i holds the initial FDATA or the flash at the address of a block up to i whose cycle was really started and succeeded |
| `StaleRuns.BlockSource` | pawn/chipset.cc:136-167 | one block in any state: its go bit was ignored, or it launched its own cycle after the earlier one was done; its data is FDATA as it was or what one of these two cycles brought |
| `StaleRuns.BlockIgnored` | pawn/chipset.cc:136-165 | while an earlier cycle is still far from done, a block on a device with FDONE set launches nothing and repeats FDATA |
| `StaleRuns.BlockEnds` | pawn/chipset.cc:151-159 | after any block FDONE is set and FCERR is what the block reported |
| `DumpTheorems.FailedBlocksRepeat` | pawn/chipset.cc:154-169 | with any failing cycles block k stays at its offset and holds the last successful block's bytes, or the initial FDATA |
| `DumpTheorems.ToolDump` | pawn/pawn.cc:173-199 | on a store-as-written device bytes 64k..64k+63 of the tool's file are those of the last readable block up to k |
| `DumpTheorems.ToolDumpSize` | pawn/pawn.cc:173-199 | the tool's own call yields exactly 2^24 bytes if it goes ahead and none otherwise, on any device |
| `DumpTheorems.ToolTrace` | pawn/pawn.cc:185-199 | the tool's call on any device: turned away exactly when the first status read shows SCIP; otherwise each of its 2^18 blocks is reported once, in order, with what the device delivered, then done |
| `DumpTheorems.ToolBlock` | pawn/pawn.cc:185-199 | on any device bytes 64k..64k+63 of the file are what block k delivered |
| `DumpLimits.CoverageIffMultipleOfFour` | pawn/chipset.cc:132-167 | the delivered address intervals tile [a, a+n) if and only if 4 divides the block size; they never overlap; the byte count agrees under the same condition; on any device |
| `DumpLimits.AddressingIffInReach` | pawn/chipset.cc:143-145 | the programmed address is the reported one for every block if and only if the last block starts below 2^25 |
| `DumpLimits.StatusReadsOfRun` | pawn/chipset.cc:127-153 | for every device and oracle, stopped or not: the HSFS loads on the bus are one, plus one per fetched block, plus one per poll |
| `DumpLimits.StatusReadsBounded` | pawn/chipset.cc:127-153 | those loads in terms of latencies: exact on a store-as-written device, bounded by the first latency on a write-1-to-clear device |
| `DumpLimits.PollsOfRun` | pawn/chipset.cc:151-153 | a timely run polls exactly the sum of its latencies plus once per block |
| `DumpTheorems.GoodBlock` | pawn/chipset.cc:136-167 | a block of a timely run whose own cycle succeeded holds the flash at its address modulo 2^25 |
| `Dump.TimelyState` | pawn/chipset.cc:133-170 | after i blocks the device is idle, has run exactly those i cycles, and FDATA holds what they left |
| `Dump.TimelyOutcome` | pawn/chipset.cc:133-170 | data, error flag and number of polls of block i in closed form |
| `Dump.HeldIsLastGood` | pawn/chipset.cc:161-165 | FDATA holds the last successful block, or its initial bytes |
| `Dump.RunDump` | pawn/chipset.cc:133-174 | the dump is the blocks' data end to end, each 4*floor(b/4) bytes, on any device the call goes ahead with |
| `Dump.ProceedsIffIdle` | pawn/chipset.cc:127-130 | with valid arguments the call goes ahead if and only if its first status read leaves the device idle |
| `Dump.ContentsOfEvents` | pawn/pawn.cc:188-198 | appending every block to a file yields the blocks' data in order and nothing else |
| `Trace.RunRefines` | pawn/chipset.cc:118-174 | for every device and every oracle: when each status is returned; bad arguments leave the device as it was, a cycle in progress leaves it after one status read; otherwise the callbacks are the uninterrupted events of the device's outcomes cut at the first answer of false |
| `Trace.RefusedCall` | pawn/chipset.cc:119-130 | a call that is turned away stores nothing and starts nothing: no access for bad arguments, one load of HSFS and one device step for a cycle in progress |
| `Trace.RunEnds` | pawn/chipset.cc:118-174 | the device after any call, stopped or not: it has read exactly the blocks handed out, and fetched one more if its error handler stopped the run |
| `BusTranscript.BusOfRun` | pawn/chipset.cc:118-174 | every access of every call in order, for every device and oracle: one HSFS load, then per fetched block HSFS, FADDR and HSFC loaded and stored with the block's own address, one HSFS load per poll, and the data words of each block handed out, all at the offsets of the register map |
| `Sessions.SessionIsSafe` | pawn/chipset.cc:98-175 | over any sequence of calls on any device SCIP stays set exactly while a cycle is in flight, and the flash stays as it was unless a write or erase was in flight before |
| `Sessions.SessionDump` | pawn/chipset.cc:98-175 | on an idle store-as-written device no call with valid arguments is ever turned away, whatever came before; if no read fails each call has delivered the flash over exactly the blocks it handed out |
| `Sessions.CallLeavesIdle` | pawn/chipset.cc:132-174 | a call leaves such a device idle even if a callback stopped it half-way |
| `Sessions.GoesAheadIff` | pawn/chipset.cc:127-130 | a call with valid arguments goes ahead if and only if no cycle is in flight or the one in flight has its latency behind it |
| `Sessions.NextCallGoesAheadIff` | pawn/chipset.cc:127-153 | on a write-1-to-clear device that kept FDONE, a call after a one-block call goes ahead if and only if the latency of that block's cycle is at most one |
| `Trace.LoopRefines` | pawn/chipset.cc:133-173 | the loop from block i on refines the same specification |
| `Trace.CutUnique` | pawn/chipset.h:236-238 | the events and the answers determine the trace |
| `Trace.TraceContract` | pawn/chipset.h:229-243 | done at most once, last, exactly when present and nobody stopped; an error is followed by its block unless the handler stopped; nothing follows a false answer |
| `Trace.EventAddresses` | pawn/chipset.cc:133-135 | an uninterrupted run hands out a, a+b, a+2b and so on, each once and in order |
| `Trace.CutAddresses` | pawn/chipset.cc:133-169 | a stopped run hands out an initial part of those addresses |
| `CallbackContract.HandedOutIff` | pawn/chipset.cc:154-169 | block k is handed to block_read if and only if every callback before it, its own error included, was answered true |
| `CallbackContract.PromiseKeptIff` | pawn/chipset.h:232-238 | only successful blocks are handed out if and only if none fails or a callback before the first failing block is handed out answers false |
| `CallbackContract.PromiseOfRun` | pawn/chipset.h:229-243 | the same for a whole call, for every device and oracle |
| `CallbackContract.StoppingHandlerKeepsPromise` | pawn/chipset.h:234-238 | an error handler that always answers false keeps the promise |
| `CallbackContract.FailedBlockIsHandedOut` | pawn/chipset.cc:154-169 | a concrete call without a handler hands a failed block to block_read |
| `BusSafety.RunIsReadOnly` | pawn/chipset.cc:127-165 | over every run every go bit comes with a read cycle of b bytes in the same store; reserved and lock bits are written back as just read, BERASE as its low bit in bit 4; nothing else is stored; FDATA loads stay inside the block's words; the flash does not change unless a write or erase was in flight before |
| `BusSafety.PollIsSound` | pawn/chipset.cc:151-167 | on a store-as-written device in any consistent state FDATA is only read with no cycle in flight, and the loads come block by block, block k's after the read of b bytes at the very address it is reported under |
| `BusSafety.FetchRests` | pawn/chipset.cc:136-153 | each fetch starts exactly one cycle, for its own address and size, and ends with that cycle complete |
| `BlockRead.PrepareIdle` | pawn/chipset.cc:136-150 | programming a block latches exactly one read cycle of b bytes at the address modulo 2^25 and leaves FDATA and flash alone |
| `BlockRead.BlockCompletes` | pawn/chipset.cc:136-165 | closed form of a block that waits for its own cycle |
| `BlockRead.BlockPremature` | pawn/chipset.cc:136-165 | closed form of a block whose wait ends at once with the cycle still in flight |
| `BlockRead.DoneForever` | pawn/chipset.cc:136-153 | on a write-1-to-clear device a set FDONE survives any block |
| `BlockRead.PollWaits` | pawn/chipset.cc:151-153 | polling ends exactly when the cycle completes, after latency plus one reads |
| `BlockRead.DrainEffect` | pawn/chipset.cc:161-167 | the words read into the buffer are, byte for byte, the start of FDATA |
| `Protocol.PrepareFinishes` | pawn/chipset.cc:146-153 | after programming, a cycle is in flight (this block's or an earlier one), so the busy-wait ends |
| `Protocol.PollStep` | pawn/chipset.cc:151-153 | each poll sees FDONE or brings the cycle one step closer |
| `Protocol.StatusWordBits` | pawn/chipset.cc:136-141 | every bit of the status write: zeros in the status bits and bit 3, the low bit of BERASE in bit 4, bits 15..5 as read |
| `Protocol.StatusAfterClear` | pawn/chipset.cc:136-141 | what each kind of device keeps of that write: FDONE, FCERR and AEL cleared or all as before, BERASE as twice its low bit, bits 15..5 as before |
| `Protocol.AddressWordBits` | pawn/chipset.cc:143-145 | FADDR gets the address modulo 2^25 and keeps its upper seven bits |
| `Protocol.ControlWordBits` | pawn/chipset.cc:146-150 | HSFC gets go, read and b-1 in one word and keeps FSMIE and the reserved bits |
| `Chipset.IntelChipset.ReadSpiWithHardwareSequencing` | pawn/chipset.cc:98-175 | the imperative loops compute device, status and callbacks of Protocol.Run, with every address inside int; a refused call touches nothing or makes one status load; the flash is unchanged unless a write or erase was in flight before |
| `Chipset.IntelChipset.ReadBlocks` | pawn/chipset.cc:132-173 | the block loop, including early returns and the done callback |
| `Chipset.IntelChipset.FetchBlock` | pawn/chipset.cc:136-153 | the register sequence of one block in order |
| `Chipset.IntelChipset.WaitForDone` | pawn/chipset.cc:151-153 | the busy-wait terminates and ends in the state of Protocol.Poll |
| `Chipset.IntelChipset.ReadData` | pawn/chipset.cc:163-165 | the buffer is filled in place with the FDATA words |
| `Chipset.IntelChipset.ReadHsfsRegister` | pawn/chipset_intel_ich8.cc:61-75 | one device step, then the decoded word at the map's HSFS |
| `Chipset.IntelChipset.WriteHsfsRegister` | pawn/chipset_intel_ich8.cc:77-89 | one 16-bit store of the encoded word at the map's HSFS; on a store-as-written device the window is the map's own write |
| `Chipset.IntelChipset.ReadHsfcRegister` | pawn/chipset_intel_ich8.cc:91-101 | the decoded word at the map's HSFC; the device does not move |
| `Chipset.IntelChipset.WriteHsfcRegister` | pawn/chipset_intel_ich8.cc:103-112 | one 16-bit store at the map's HSFC, which may start a cycle; if it starts none the window is the map's own write |
| `Chipset.IntelChipset.ReadFaddrRegister` | pawn/chipset_intel_ich8.cc:114-117 | the decoded word at the map's FADDR |
| `Chipset.IntelChipset.WriteFaddrRegister` | pawn/chipset_intel_ich8.cc:119-124 | one 32-bit store; the window is the map's own write |
| `Chipset.IntelChipset.ReadFdataNRegister` | pawn/chipset_intel_ich8.cc:156-162 | the word at the index, for the indices the guard admits |
| `Chipset.IntelChipset.WriteSsfcRegister` | pawn/chipset_intel_ich8.cc:136-154 | two stores in the source's order, at the map's SSFC and the byte after it; the window is the map's own write |
| `Chipset.IntelChipset.ReadSsfcRegister` | pawn/chipset_intel_ich8.cc:211-227 | the decoded word at the map's SSFC |
| `Chipset.IntelChipset.WriteSsfsRegister` | pawn/chipset_intel_ich8.cc:126-134 | one byte stored; the window is the map's own write |
| `Chipset.IntelChipset.ReadSsfsRegister` | pawn/chipset_intel_ich8.cc:199-209 | the decoded byte at the map's SSFS |
| `Chipset.IntelChipset.ReadBfprRegister` | pawn/chipset_intel_ich8.cc:51-59 | the decoded word at the map's BFPR |
| `Chipset.IntelChipset.ReadFrapRegister` | pawn/chipset_intel_ich8.cc:164-172 | the decoded word at the map's FRAP |
| `Chipset.IntelChipset.ReadFregNRegister` | pawn/chipset_intel_ich8.cc:174-183 | the decoded word at the map's FREG, for any index whose word lies in the window |
| `Chipset.IntelChipset.ReadPrNRegister` | pawn/chipset_intel_ich8.cc:185-197 | the decoded word at the map's PR, for any such index |
| `Chipset.IntelChipset.ReadRegions` | pawn/pawn.cc:119-129 | the five regions and protected ranges, each decoded from the word at its own place in the register map |
| `Chipset.IntelChipset.DumpFlash` | pawn/pawn.cc:173-199 | on any device: Unavailable and an empty file exactly when the first status read shows SCIP, otherwise Ok and 2^24 bytes that are block by block what the device delivered; what could be read last on a store-as-written device; the flash itself on a timely and readable run |
| `PhysicalMemory.MappedWindow.ReadUint8` | pawn/physical_memory.cc:72-75 | the byte at the offset |
| `PhysicalMemory.MappedWindow.ReadUint16` | pawn/physical_memory.cc:77-80 | little-endian, against the device |
| `PhysicalMemory.MappedWindow.ReadUint32` | pawn/physical_memory.cc:82-85 | little-endian |
| `PhysicalMemory.MappedWindow.WriteUint8` | pawn/physical_memory.cc:92-95 | one byte changes |
| `PhysicalMemory.MappedWindow.WriteUint16` | pawn/physical_memory.cc:97-100 | two bytes change, and the device reacts to HSFS and HSFC |
| `PhysicalMemory.MappedWindow.WriteUint32` | pawn/physical_memory.cc:102-105 | four bytes change |
| `Memory.Bytes32OfLoad` | pawn/chipset.cc:163-167 | the bytes of a loaded word are the bytes in memory, in order |
| `Fields.ValueOfSet` | pawn/bits.h:45-69 | Value after Set on the same field is the input modulo 2^width, for any word width |
| `Fields.ValueOfOtherSet` | pawn/bits.h:45-69 | Set on one field leaves every disjoint field zero |
| `Fields.SplitOfJoin` | pawn/bits.h:45-69 | for any list of adjacent fields, decoding the OR of all Sets gives each field its own truncated value |
| `Fields.JoinOfSplit` | pawn/bits.h:45-69 | OR-ing Set of each Value of a partition rebuilds the word |
| `Fields.FieldOfPack` | pawn/bits.h:63-69 | every field of an OR-assembled register, with or without gaps, reads back as its value |
| `Fields.GapOfPack` | pawn/bits.h:63-69 | bits that belong to no field are zero |
| `Bits.ValueMeaning` | pawn/bits.h:45-49 | Value is a quotient and a remainder |
| `Bits.TestMeaning` | pawn/bits.h:52-56 | Test is one binary digit |
| `Bits.SetMeaning` | pawn/bits.h:63-69 | Set is a remainder and a product; negative inputs wrap |
| `Bits.RawCharacterisation` | pawn/bits.h:32-37 | Raw is Value moved back in place for every w-bit word if and only if lsb is 2, or msb is the top bit and lsb at least 2 |
| `Bits.RawAsLow` | pawn/bits.h:32-37 | what Raw computes for any bit range: the bits it keeps and where |
| `Registers.HsfsReadBack` | pawn/chipset_intel_ich8.cc:61-89 | every HSFS field round-trips except BERASE, which reads back as twice its low bit |
| `Registers.HsfsWriteBack` | pawn/chipset_intel_ich8.cc:61-89 | write-after-read is the identity if and only if BERASE is 0 |
| `Registers.HsfcRoundTrip` | pawn/chipset_intel_ich8.cc:91-112 | HSFC encode and decode are mutual inverses |
| `Registers.FaddrRoundTrip` | pawn/chipset_intel_ich8.cc:114-124 | FADDR encode and decode are mutual inverses |
| `Registers.SsfsRoundTrip` | pawn/chipset_intel_ich8.cc:126-134 | SSFS encode and decode (lines 199-209) are mutual inverses |
| `RegisterMap.ReadBack` | pawn/chipset_intel_ich8.cc:61-134 | the same round trips through the byte window |
| `RegisterMap.RegistersDisjoint` | pawn/chipset_intel_ich8.h:40-51 | for both SPI bases every register lies in the window and no two share a byte |
| `RegisterMap.Layout` | pawn/chipset_intel_ich8.h:40-51 | the map is one run of words from BFPR at 0 on: which register follows which |
| `Controller.ViewMatchesMap` | pawn/chipset_intel_ich8.h:40-51 | the registers the controller works on are those of the map |
| `Controller.WritesMatchMap` | pawn/chipset_intel_ich8.cc:77-124 | a store to HSFS, HSFC or FADDR on the device is the map's own write, where the device stores the word as it is and starts no cycle |
| `RegisterMap.WriteFrame` | pawn/chipset_intel_ich8.cc:77-154 | a register write is invisible in every other register |
| `RegisterMap.FdataGuard` | pawn/chipset_intel_ich8.cc:156-162 | of the admitted indices exactly 16 aliases FRAP |
| `SoftwareSequencing.SsfcRotates` | pawn/chipset_intel_ich8.cc:136-154 | reading SSFC back gives the assembled 24 bits rotated left by eight; they survive if and only if the three bytes are equal; no other byte changes |
| `SoftwareSequencing.SsfcReadBack` | pawn/chipset_intel_ich8.cc:136-154 | the struct survives if and only if, besides, reserved23 equals reserved7 |
| `SoftwareSequencing.SsfcGoBit` | pawn/chipset_intel_ich8.cc:211-227 | the bit read as SCGO is bit 1 of the frequency, from the first store |
| `Regions.WindowIsMapped` | pawn/chipset.cc:77-91 | the reported base is the register rounded down to 16 KiB, enabled or not; the window is mapped there exactly when EN is set, inside 32 bits |
| `Regions.RcbaBase` | pawn/chipset_intel_ich8.cc:36-39 | Raw is exact for RCBA |
| `Regions.BfprLosesNothing` | pawn/chipset_intel_ich8.cc:51-59 | the BFPR decode determines the register |
| `Regions.FregTruncation` | pawn/chipset_intel_ich8.cc:174-183 | the stored limit is the last byte address modulo 2^13, right if and only if the field is at most 1; the stored base is an address only for 0 |
| `Regions.PrTruncation` | pawn/chipset_intel_ich8.cc:185-197 | limit and base are cut to 13 bits, each right if and only if its field is at most 1; the enables are bits 31 and 15 |
| `Regions.FrapIsReversed` | pawn/pawn.cc:116-117 | the printed word is the byte reversal of FRAP, equal to it if and only if its bytes are a palindrome |
| `PciConfig.AddressValue` | pawn/pci.h:31-42 | the address is the sum of its fields; out-of-range arguments wrap; bits 30..24 are zero |
| `PciConfig.AddressRoundTrip` | pawn/pci.h:31-42 | a total decoder recovers every in-range location |
| `PciConfig.AddressInjective` | pawn/pci.h:31-42 | distinct locations get distinct addresses |
| `PciConfig.ReadRefinesFlat` | pawn/pci.cc:62-81 | an 8, 16 or 32-bit read returns the little-endian value of the flat space at the offset rounded down to the width, whatever the port held; bits 30..24 of the port are kept |
| `PciConfig.ReadOfAnyAddress` | pawn/pci.cc:62-72 | the same for any 32-bit address argument: ones without the enable bit; the port keeps its reserved bits if and only if the address's own are among them |
| `PciConfig.NextPortBits` | pawn/pci.cc:64-66 | every bit the address port holds after a read |
| `PciConfig.ReadsRecombine` | pawn/pci.cc:67-72 | one 32-bit read is its two 16-bit or four 8-bit reads recombined |
| `PciConfig.RunOfReads` | pawn/pci.cc:62-81 | over any run of reads the reserved port bits keep their initial value and every read returns the flat value |
| `PciConfig.Pci.ReadConfigUint8` | pawn/pci.cc:79 | the port sequence of an 8-bit read, and its value for any address argument |
| `PciConfig.Pci.ReadConfigUint16` | pawn/pci.cc:80 | the port sequence of a 16-bit read, and its value for any address argument |
| `PciConfig.Pci.ReadConfigUint32` | pawn/pci.cc:81 | the port sequence of a 32-bit read, and its value for any address argument |

## Left out

- `open`, `mmap`, `munmap`, `iopl`, destructors and moves: foreign calls. The window is a byte array, the ports are state.
- Mapping failures after EN has been checked, and the fatal exits of a missing window, an FDATA index outside 0..16 or a null `block_read`: they end the process.
- Command line, printing, progress dots, file handling and the descriptor-mode and SSFS checks of `pawn/pawn.cc`; a failed `fwrite` aborts the tool.
- Device-id tables and `Chipset::Create`: constant lookups. The SPI base is a parameter.
- GCS and BIOS_CNTL decoding: one table lookup each.
- 64-bit accessors and `GetAt`: unused by the modelled code.
- Accesses to part of HSFS or HSFC: the code only ever makes the 16-bit accesses the device reacts to.
- Wide `Value` fields: the source's mask is a signed `1 << width`, undefined from width 31 on; the modelled fields are at most 25 bits, and the algebra here has no such limit.
- Signed overflow of `flash_address + size`: undefined in C++, so the imperative method requires the sum to fit; the functional model needs no such condition.
