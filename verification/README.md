# handyarm device core in Dafny

A functional model of the memory-mapped devices of the handyarm emulator. These are:

- the flash and its programmer;
- the memory bus;
- the DMA controller;
- the Thumb CPU engine;
- GPIO;
- the receive and transmit block windows;
- RAM, ROM and the UART.

Each JavaScript class is a Dafny module. The class's fields become an immutable datatype, and every `read`/`write` becomes a pure function of the old state (`BlockOutput.Write`, which loops, is a method). Its result is a `Result` or an `Outcome` when the code can throw, and otherwise the value read, or the new state plus any emitted event:

- a thrown exception is `Err(kind)`;
- a throw that happens after some state has already changed is `Aborted(stateLeft, kind)`;
- `undefined` is `None`.

Words are `bv32` and bytes are `bv8`. JavaScript numbers are modelled as unbounded integers, and each conversion the code performs is written out:

- `Common.Wrap` is ToUint32;
- `Common.Signed` is the signed number a bitwise operator yields;
- `Common.JsRem` is the truncating `%`;
- `Common.Has` is the bit test `x & bit`.

| module | file | source |
|---|---|---|
| `Common` | common.dfy | shared result types, error kinds, number conversions, little-endian packing |
| `FlashMemory` | flash.dfy | src/flash.js |
| `MemoryBus` | bus.dfy | src/bus.js |
| `DmaController` | dma.dfy | src/dma.js |
| `CpuCore` | cpu.dfy | src/cpu.js, src/arm_thumb_cpu.js |
| `GpioPort` | gpio.dfy | src/GPIO.js |
| `BlockInput` | block_input.dfy | src/block_input.js |
| `BlockOutput` | block_output.dfy | src/block_output.js |
| `RamDevice` | ram.dfy | src/ram.js |
| `RomDevice` | rom.dfy | src/rom.js |
| `UartDevice` | uart.dfy | src/uart.js |

Collaborators the code calls are parameters:

- the bus is a generic device table with read/write functions;
- the DMA engine, the CPU and the transmit block see the bus as a read function, plus a write function for the DMA engine;
- events (GPIO `data`, Block_Output `data`, the UART transmit callback) are returned as outputs.

The DMA engine records a trace of its bus accesses, so that its properties can speak about what was read and written, in order.

The model follows the code as written, including where it does not do what its own comments or tests describe:

- **Bus attach.** The comment at src/bus.js:11 says attaching checks that no ranges overlap. The check compares the entry properties `start`/`end`, which no entry has, so it never fires (`MemoryBus.NeverOverlapping`). Overlapping ranges therefore attach, which is also what test/bus.test.js:117-121 expects (`MemoryBus.OverlappingRangesAttach`).
- **Bus reads.** The comment at src/bus.js:38 says `read` finds the first device that covers the address. The range filter reads `devStart`/`devEnd`, which no entry has either, so ranges play no part in reads (`MemoryBus.ReadIgnoresRanges`). The first device whose four reads succeed answers. Those reads are at absolute offsets a, a+4, a+8, a+12, packed most significant first (`MemoryBus.ReadWordOffsets`).
- **Bus writes.** `write` visits every covering entry, not only the first (`MemoryBus.WriteVisitsEveryEntry`).
- **Flash layout.** The flash buffer has one 32-bit slot per byte of its size. The constructor therefore puts one data byte in each slot (`FlashMemory.FreshRead`). The comment on `erasePage` (src/flash.js:211) says it sets all bits to 1, but it stores 0xFF into slots indexed by byte number (`FlashMemory.EraseThenRead`).
- **Flash with bounds off.** The comment at src/flash.js:164 says programming only changes 1 bits to 0 bits. With bounds checking off, a value write past the end can turn 0 bits back to 1 (`FlashMemory.BoundsOffRestoresBits`).
- **DMA status bit.** The comment at src/dma.js:9-12 calls control bit 0 a status bit that is 1 while a transfer runs. The transfer runs to the end inside the control write, which then clears the bit. A failing bus read ends the transfer with the bit still set and the in-progress addresses and length.
- **CPU instructions.** Decode accepts exactly one instruction, 0xBF00, which is the NOP of the ARMv7-M Architecture Reference Manual, encoding T1. The test at test/cpu.test.js:41-43 runs `MOVS r0, #1` (0x2001). In the code that step fails in decode with "unknown opcode" (`CpuCore.StepUnknown`). The NOP test at test/cpu.test.js:27-39 fails the same way. `bus.read(0)` packs the RAM words at 0, 4, 8 and 12 with the first most significant, so only the low byte of 0xBF00 survives, shifted to the top (`MemoryBus.PackDropsHighBytes`). The fetched word is 0, not 0xBF00.
- **GPIO BSRR.** The comment at src/GPIO.js:103-104 says the low 16 bits set and the high 16 bits reset. For address 16 the code complements both halves, so any write whose upper half is clear drives the whole latch to 0 (`GpioPort.BsrrSetClearsAll`). This is unlike section 9.2.5 of the STM32 reference manual RM0008.
- **Receive block size.** The receive block stores each byte by a read-modify-write of the RAM word holding it. If its size is not a multiple of 4, that word can run past the RAM, and `appendData` throws a RangeError midway (`BlockInput.RaggedTailAborts`).

## Model

| member | source | states |
|---|---|---|
| Common.JsRem | src/block_input.js:63 | JavaScript's `%` on integers: the result differs from a by a multiple of n. It lies in [0, n) for non-negative a and in (-n, 0] for negative a. |
| FlashMemory.New | src/flash.js:15-34 | Construction fails exactly when the initial data is longer than the size. Otherwise slot i holds data byte i, zero-extended, below the data's length, and 0xFFFFFFFF from there up to the size; bounds checking starts on. |
| FlashMemory.Read | src/flash.js:43-65 | A size-0 flash reads undefined. The bounds check comes before alignment: out of range fails with bounds on and reads 0xFFFFFFFF with bounds off. An in-range unaligned offset fails, and an aligned in-range offset reads slot offset/4. |
| FlashMemory.Write | src/flash.js:74-76 | A direct write always fails. |
| FlashMemory.Snapshot | src/flash.js:89-103 | The snapshot has exactly `size` bytes. |
| FlashMemory.NewProgrammer | src/flash.js:126-131 | A new programmer has control and offset 0. |
| FlashMemory.ProgRead | src/flash.js:142-155 | Control at 0x00 and offset at 0x04 read back. 0x08 and 0x20 are write-only and fail, and every other address fails. |
| FlashMemory.StoreSlot | src/flash.js:189 | A typed-array store changes only the addressed slot, and only when it is a valid index; otherwise it is ignored. |
| FlashMemory.ProgramWord | src/flash.js:174-196 | A value write fails when write enable is clear, or with the flash read's error when the current offset is rejected. It succeeds exactly when both checks pass. It then keeps control and the flash size, and the offset grows by 4 iff control bit 1 is set. |
| FlashMemory.ErasePage | src/flash.js:213-225 | Erase fails exactly when the page starts below 0 or ends past the size. Otherwise slots [4096p, 4096p+4096) become 0xFF and every other slot is unchanged. |
| FlashMemory.ProgWrite | src/flash.js:166-206 | Control (0x00) and offset (0x04) are stored verbatim. 0x08 is the value write on the number modulo 2^32, as ProgramWord states. A page erase (0x20) succeeds exactly when write enable is set and the page fits, and then erases it. Any address other than 0x00, 0x04, 0x08 and 0x20 fails. |
| FlashMemory.FreshRead | src/flash.js:18-64 | A fresh flash reads, at aligned offset o, initial data BYTE o/4 zero-extended, or the erased word past the data's end. |
| FlashMemory.SnapshotMatchesRead | src/flash.js:89-103 | Snapshot bytes o..o+3 are the little-endian bytes of the word `read(o)` returns, and they decode back to it. |
| FlashMemory.ProgramInRange | src/flash.js:174-196 | At an aligned in-range offset with write enable set, the slot becomes old AND value and the other slots are unchanged. The offset grows by 4 iff control bit 1 is set. |
| FlashMemory.ProgramOnlyClearsBits | src/flash.js:183-189 | With bounds on, a value write never turns a 0 bit into 1 in any slot. |
| FlashMemory.ProgramWordIdempotent | src/flash.js:184-189 | Without auto-increment, programming the same word twice equals programming it once. |
| FlashMemory.ProgramIdempotent | src/flash.js:174-196 | Without auto-increment, writing the same number twice to the value register equals writing it once. |
| FlashMemory.BoundsOffRestoresBits | src/flash.js:174-189 | With bounds off, an offset past the end reads all ones, so the store puts back bits that were 0 in a slot the buffer does have. |
| FlashMemory.EraseThenRead | src/flash.js:213-225 | After an erase, aligned reads whose slot lies in the page give 0xFF and all other reads are unchanged. |
| FlashMemory.RegistersReadBack | src/flash.js:142-173 | Control and offset read back the value last written to them. |
| MemoryBus.New | src/bus.js:2-4 | A new bus has no entries. |
| MemoryBus.Attach | src/bus.js:6-29 | A device without read or write fails. An inverted range fails. Otherwise exactly one entry is appended and the earlier entries are kept. |
| MemoryBus.ReadFrom | src/bus.js:46-67 | The entry loop yields a word exactly when some remaining entry's four device reads succeed; otherwise it fails with "no device". |
| MemoryBus.Read | src/bus.js:31-68 | A read fails only with "no device", and always fails on a bus without entries. |
| MemoryBus.Store | src/bus.js:93-107 | A DataView store fails with a RangeError unless the bytes fit. Otherwise it places them at the offset and keeps the rest of the buffer. |
| MemoryBus.ComposeWord | src/bus.js:93-109 | Composition fails exactly for a sub-word store that does not fit in the word. Size 2 at byte offset 3 is such a store. |
| MemoryBus.Visit | src/bus.js:80-115 | One loop turn leaves the bus unchanged if the entry does not cover the address or the pre-read fails. It only ever changes the device of that entry. |
| MemoryBus.WriteFrom | src/bus.js:79-116 | The loop from entry k keeps the entries and the device count, and changes nothing when no remaining entry covers the address. |
| MemoryBus.Write | src/bus.js:70-117 | A write fails exactly for sizes other than 1, 2 and 4, before any device access. Otherwise the entries and the device table's shape are kept. |
| MemoryBus.NeverOverlapping | src/bus.js:12-18 | The overlap test never detects an overlap. |
| MemoryBus.OverlappingRangesAttach | src/bus.js:6-29 | [0,10] and then [5,15] of one device both attach, and the entries appear in attach order. |
| MemoryBus.NeverSkipped | src/bus.js:46-50 | The range filter of `read` never skips an entry. |
| MemoryBus.ReadFirstSuccess | src/bus.js:46-65 | A read returns what the first entry whose four device reads succeed yields; failing devices before it are passed over. |
| MemoryBus.ReadFailsIffAllFail | src/bus.js:46-67 | A read fails iff every entry's device fails one of its reads, and then with "no device". |
| MemoryBus.ReadIgnoresRanges | src/bus.js:46-50 | Two buses with the same devices attached in the same order read alike, whatever their ranges. |
| MemoryBus.ReadWordOffsets | src/bus.js:54-61 | The device is read at absolute offsets a, a+4, a+8 and a+12, with a the aligned address. The result is their packing, first read most significant, and it succeeds iff all four reads do. |
| MemoryBus.PackBytes | src/bus.js:61 | When each read is a byte, the packed word's little-endian bytes are the four reads in reverse order. |
| MemoryBus.PackDropsHighBytes | src/bus.js:61 | Only the low byte of the first read survives the packing. |
| MemoryBus.ComposeFull | src/bus.js:104-109 | A 4-byte write passes the value modulo 2^32, whatever the byte offset. |
| MemoryBus.ComposeSigned | src/bus.js:104-109 | A word read from the bus and written back with size 4 as its signed number composes to the same word. |
| MemoryBus.ComposeByte | src/bus.js:98-109 | A 1-byte write puts the value's low byte at the byte offset, with zeros elsewhere. |
| MemoryBus.ComposeHalf | src/bus.js:101-109 | A 2-byte write at byte offset 0, 1 or 2 puts the low half-word there little-endian, with zeros elsewhere. |
| MemoryBus.WriteUncovered | src/bus.js:79-82 | A write to an address no entry covers changes nothing. |
| MemoryBus.WriteSingleEntry | src/bus.js:79-116 | With one covering entry, let d be the aligned address minus the entry's start. The device is pre-read at 4*floor(d/4). If that read and the composition succeed, the composed word is written at d; otherwise nothing changes. |
| MemoryBus.WriteVisitsEveryEntry | src/bus.js:79-116 | A device attached through two covering entries is visited through each in turn, the earlier entry first, for any size and any device reads. Each visit pre-reads the device as the previous visit left it and writes the composed word only when that read succeeds. A word that cannot be composed writes nothing. |
| MemoryBus.WriteVisitsEveryEntryWord | src/bus.js:79-116 | For a 4-byte write to a device whose reads all succeed, both visits write the value modulo 2^32. |
| MemoryBus.WriteFrame | src/bus.js:79-116 | A device reached through no covering entry keeps its state. |
| MemoryBus.WriteIgnoresPreRead | src/bus.js:89-112 | The pre-read word never contributes: devices whose reads succeed and fail alike receive the same writes. |
| DmaController.New | src/dma.js:3-19 | All registers start at 0, except the data size, which is 4; the completion flag is false. |
| DmaController.Read | src/dma.js:30-45 | The five registers read back at 0x00, 0x04, 0x08, 0x0C and 0x10. Every other offset fails. |
| DmaController.ClearBit0Bits | src/dma.js:111 | `control &= 0xFFFFFFFE` keeps every bit of the 32-bit pattern except bit 0, which ends clear. |
| DmaController.Iterate | src/dma.js:92-107 | One iteration fails iff the source read fails. Otherwise it advances the addresses whose increment bit is set and counts the length down by the data size. |
| DmaController.Loop | src/dma.js:86-108 | The loop keeps control, data size and the completion flag, and completes only with length <= 0. |
| DmaController.PerformTransfer | src/dma.js:83-113 | On completion the flag is set and control has bit 0 cleared. On a fault, control and the flag are as before. |
| DmaController.Start | src/dma.js:72-81 | A zero length fails before any bus access. With bit 0 clear nothing happens. |
| DmaController.Write | src/dma.js:47-70 | Each register write stores the value verbatim. A control write starts a transfer iff bit 0 of the value is set. Any other offset fails. |
| DmaController.Iterations | src/dma.js:86-108 | The iteration count is the least n with L - n*ds <= 0, that is ceil(L/ds), and 0 for L <= 0. |
| DmaController.IterationsExact | src/dma.js:107 | When the data size divides the length, the loop runs L/ds times and the length ends at exactly 0. |
| DmaController.LoopCompleted | src/dma.js:86-108 | A completed loop made exactly Iterations(L, ds) read/write pairs. Pair k reads at the k-th source address and writes that value to the k-th destination address. The bus state is the replay of the writes, and the registers are advanced that many times. |
| DmaController.LoopAborted | src/dma.js:86-108 | An aborted loop made fewer pairs, k. The read at iteration k's source address failed with the reported error, and the registers are as k iterations left them. |
| DmaController.LoopRun | src/dma.js:86-108 | The loop either completes after Iterations(L, ds) pairs or aborts at the first failing read, as in the two cases above. |
| DmaController.RegistersReadBack | src/dma.js:30-66 | Source, destination, length and data size read back what was last written. Other registers, the bus and the trace are unchanged. |
| DmaController.ControlWithoutStart | src/dma.js:58-63 | A control write with bit 0 clear is stored and touches no bus. |
| DmaController.StartZeroLength | src/dma.js:72-75 | Starting with length 0 fails before any bus access, after the control value has been stored. |
| DmaController.Transfer | src/dma.js:58-113 | Completion: the pairs as in LoopCompleted, length L - n*ds <= 0, bit 0 of control cleared and the flag set. Fault: the error propagates with the in-progress addresses and length, control still holding the written value and the flag false. |
| DmaController.TransferExactLength | src/dma.js:86-112 | When the data size divides the length, the length is exactly 0 after a completed transfer. |
| CpuCore.New | src/arm_thumb_cpu.js:4-11 | Construction fails iff no bus is given. A Thumb CPU starts with sixteen zero registers and zero pc, sp, lr and apsr. |
| CpuCore.Fetch | src/arm_thumb_cpu.js:13-15 | Fetch fails iff the bus read at pc fails, with its error; the base class always fails. |
| CpuCore.Decode | src/arm_thumb_cpu.js:17-24 | Decode fails with "unknown opcode" unless it accepts; the base class always fails. |
| CpuCore.Execute | src/arm_thumb_cpu.js:26-34 | Execute succeeds iff the decoded opcode is `nop`; the base class always fails. |
| CpuCore.Reset | src/arm_thumb_cpu.js:36-45 | A Thumb reset succeeds and keeps the fetched word and opcode; the base class fails. |
| CpuCore.Step | src/cpu.js:22-26 | The base class aborts with "not implemented". A Thumb step completes iff the bus yields 0xBF00 at pc. Only pc can change: by 2 on completion, not at all on a fault. |
| CpuCore.Steps | src/cpu.js:22-26 | n steps never change a register other than pc. pc moves by an even amount, at most 2n, and by exactly 2n iff all n steps complete. The base class aborts on its first step. |
| CpuCore.ResetMatchesFresh | src/arm_thumb_cpu.js:36-45 | A reset CPU has the same all-zero registers as a fresh one. |
| CpuCore.ResetIdempotent | src/arm_thumb_cpu.js:36-45 | Resetting twice is resetting once. |
| CpuCore.FetchOnlyCurrent | src/arm_thumb_cpu.js:13-15 | Fetch changes only the current instruction, to the word the bus returns at pc. |
| CpuCore.DecodeExactlyNop | src/arm_thumb_cpu.js:17-24 | Decode accepts exactly the fetched word 0xBF00, as `nop`. |
| CpuCore.StepNop | src/cpu.js:22-26 | A step over 0xBF00 completes, advances pc by 2 and changes no register. |
| CpuCore.StepUnknown | src/cpu.js:22-26 | Any other word fails the step in decode: execute does not run and no register changes. |
| CpuCore.StepFetchFault | src/cpu.js:22-26 | A failing bus read fails the step in fetch, with nothing changed. |
| CpuCore.GenericStepFails | src/cpu.js:10-30 | The base class fails its first phase and its reset. |
| CpuCore.NopSled | src/cpu.js:22-26 | Over memory that is all NOPs, n steps advance pc by 2n and change no register. |
| GpioPort.New | src/GPIO.js:28-33 | Pins 0..7 have a floating (0) drive; output and input words are 0. |
| GpioPort.PinBit | src/GPIO.js:59-64 | The bit index `1 << pin+16` addresses is congruent to pin + 16 modulo 32, because JavaScript masks the shift count to 5 bits. |
| GpioPort.SetExternalDrive | src/GPIO.js:54-66 | The drive is recorded at the pin. The output is unchanged, and a floating drive leaves the input word alone. |
| GpioPort.Read | src/GPIO.js:71-86 | Address 8 reads the input word. 0, 4, 10, 16, 20 and 24 read 0, and every other address fails. |
| GpioPort.Write | src/GPIO.js:88-127 | Only 16 and 20 change the state, and only the output latch, which they emit. Every other address changes and emits nothing and does not fail. |
| GpioPort.SetExternalDriveBits | src/GPIO.js:54-66 | A negative drive clears the pin's input bit and a positive drive sets it. No other input bit changes. |
| GpioPort.PinBitUpperHalf | src/GPIO.js:59-64 | For pins 0..15 the drive lands in bit pin+16. |
| GpioPort.BrrWrite | src/GPIO.js:100-119 | A write to 20 updates each low output bit j: reset bit j+16 wins, else set bit j sets it, else the bit is kept. The upper half is untouched and the latch is emitted. |
| GpioPort.BsrrWrite | src/GPIO.js:100-119 | After a write to 16, low output bit j is set iff value bit j+16 is set and (value bit j is clear or the bit was set). The upper half is cleared and the latch is emitted. |
| GpioPort.BsrrSetClearsAll | src/GPIO.js:106-114 | A write to 16 with a clear upper half drives the whole latch to 0. |
| GpioPort.WriteIdempotent | src/GPIO.js:100-119 | Repeating any write leaves the state and emission of the first. |
| BlockInput.New | src/block_input.js:9-17 | A new block has both markers 0 and a zeroed RAM of the given size. |
| BlockInput.SpliceByte | src/block_input.js:29-36 | The read-modify-write replaces exactly one byte of the RAM. It fails with a RangeError iff the word runs past the RAM. |
| BlockInput.PutByte | src/block_input.js:28-40 | One loop step stores the byte at the end marker and moves the marker to the next position round the buffer. It fails iff the marker's word does not fit. |
| BlockInput.Fill | src/block_input.js:26-40 | The append loop keeps size and start. It can abort only with a RangeError, and only when the size is not a multiple of 4. |
| BlockInput.Append | src/block_input.js:19-41 | Data longer than the buffer fails with nothing changed. Size and start marker are always kept. |
| BlockInput.Read | src/block_input.js:43-58 | 0x00, 0x04 and 0x08 read start, end and size. A buffer address whose word fits reads the RAM's word at address-0x100. The last three buffer addresses throw a RangeError from the RAM, and any other address fails with "invalid address". |
| BlockInput.Write | src/block_input.js:60-72 | 0x00 changes only the start marker, to the truncating remainder of start + value by the size. That is the value congruent to the sum modulo the size, in [0, size) for a non-negative sum and in (-size, 0] for a negative one. 0x04 is ignored, and every other address fails. |
| BlockInput.SpliceBytes | src/block_input.js:34-35 | The masking and or-ing replace exactly the addressed byte of the word and keep the other three. |
| BlockInput.SpliceInPlace | src/block_input.js:32-36 | Writing the spliced word back changes only the addressed byte of the RAM. |
| BlockInput.NextMod | src/block_input.js:38 | The marker step equals (end + 1) mod size. |
| BlockInput.AheadMod | src/block_input.js:29-38 | The distance of a position ahead of the end marker equals (p - end) mod size. |
| BlockInput.EndWordFits | src/block_input.js:29-36 | With a size that is a multiple of 4, the word holding the end marker fits in the RAM. |
| BlockInput.FillEnd | src/block_input.js:28-40 | Whenever the loop completes, whatever the size, it has moved the end marker on by the data length, round the buffer. |
| BlockInput.FillPlacement | src/block_input.js:28-40 | In a completed loop, whatever the size, position p receives data byte (p - end) mod size if the data reaches it, and otherwise keeps its byte. Every position written lies in a word that fits in the RAM. |
| BlockInput.AppendEnd | src/block_input.js:19-41 | Any completed append of n bytes, whatever the size, had n <= size and leaves end = (old end + n) mod size. |
| BlockInput.AppendCompletes | src/block_input.js:19-41 | With a size that is a multiple of 4, every append of data that fits completes. |
| BlockInput.AppendPlacement | src/block_input.js:19-41 | After any completed append, whatever the size, position p holds data byte (p - end) mod size when the data reaches it, and its old byte otherwise. Every position written lies in a word that fits in the RAM. |
| BlockInput.AppendedByteVisible | src/block_input.js:19-58 | After any completed append, whatever the size, each appended byte is visible to firmware. It is byte p mod 4 of the little-endian word read at 0x100 + 4*floor(p/4). |
| BlockInput.ByteThroughWindow | src/block_input.js:52-53 | The window read at the word boundary of buffer byte p succeeds iff that word fits in the buffer. Then byte p is byte p mod 4 of the word it shows; otherwise the read throws a RangeError. |
| BlockInput.ReadBufferWord | src/block_input.js:52-53 | A buffer word read through the window is the RAM's little-endian word. |
| BlockInput.RaggedTailAborts | src/block_input.js:29-38 | In a 6-byte buffer with end 4, the next byte's word runs past the RAM, and the append throws a RangeError with nothing changed. |
| BlockInput.AdvanceTwice | src/block_input.js:62-63 | For any integers, advancing the start marker by a and then by c lands on a position congruent, modulo the size, to advancing by a + c. When the marker and both amounts are non-negative, the two are equal. |
| BlockInput.AdvanceMixedSigns | src/block_input.js:62-63 | With mixed signs the two can differ. In a 4-byte buffer from start 0, advancing by 6 then -5 gives -3, and advancing by 1 gives 1. |
| BlockOutput.New | src/block_output.js:4-10 | A new block has no stored values and start address 0. |
| BlockOutput.SetValue | src/block_output.js:12-14 | After `setValue(a, v)`, `read(a)` is v and every other address reads as before. |
| BlockOutput.Read | src/block_output.js:16-18 | A read yields a value iff one was set at that address, and undefined otherwise. |
| BlockOutput.WordCount | src/block_output.js:32 | ceil(L/4): the fewest words covering L bytes. |
| BlockOutput.StoreWord | src/block_output.js:39-41 | The inner loop puts byte k mod 4 of the word at buffer positions 4i..4i+3, as far as the buffer reaches, and keeps the rest. |
| BlockOutput.Transmit | src/block_output.js:28-44 | It succeeds iff all ceil(L/4) reads succeed, made in order at start, start+4, and so on, and then yields the L serialised bytes. Otherwise it fails with the first failing read's error, after reading up to it. |
| BlockOutput.Write | src/block_output.js:20-50 | 0x00 sets only the start address. 0x04 with L >= 0 emits exactly L bytes, serialised from the words read from the start address, and keeps the state, so a repeat emits from the same start. A negative length throws, and so does any other address. |
| BlockOutput.SerialisedByte | src/block_output.js:39-41 | Emitted byte k is byte k mod 4 of the word read at start + 4*floor(k/4). |
| BlockOutput.SerialisedRoundTrip | src/block_output.js:39-41 | Emitted bytes 4i..4i+3, packed little-endian, give back word i. |
| RamDevice.New | src/ram.js:3-7 | A new RAM has `size` zero bytes. |
| RamDevice.Read | src/ram.js:9-15 | Out of range reads 0. In range, a word that runs past the end throws a RangeError. |
| RamDevice.WriteWord | src/ram.js:17-23 | Out of range changes nothing. A word that runs past the end throws. Otherwise bytes o..o+3 become the word's little-endian bytes and the rest are kept. |
| RamDevice.Write | src/ram.js:17-23 | Out of range changes nothing. A word that runs past the end throws a RangeError. Otherwise bytes o..o+3 become the little-endian bytes of the number modulo 2^32, and the rest are kept. |
| RamDevice.FreshReadsZero | src/ram.js:3-15 | A fresh RAM reads 0 wherever a word fits, and out of range. |
| RamDevice.WriteThenRead | src/ram.js:9-23 | A word written where it fits reads back as the value modulo 2^32. |
| RamDevice.WriteLittleEndian | src/ram.js:22 | Byte o+j of the RAM is byte j of the written value. |
| RamDevice.WriteOtherWord | src/ram.js:17-23 | A write leaves non-overlapping words as they were. |
| RamDevice.OutOfRange | src/ram.js:10-21 | Out of range, a read yields 0 and a write changes nothing; neither fails. |
| RamDevice.TailRangeError | src/ram.js:14-22 | The last three offsets throw a RangeError for reads and writes alike. |
| RomDevice.New | src/rom.js:3-6 | Word i of the ROM is data item i modulo 2^32. |
| RomDevice.Read | src/rom.js:8-24 | An empty ROM reads undefined. An offset out of range or off a word boundary reads 0; otherwise word offset/4 is read. |
| RomDevice.Write | src/rom.js:26-29 | A write changes no word and no read. |
| RomDevice.ReadsConstructorData | src/rom.js:3-23 | The size is 4 times the word count, and each constructor item reads back, modulo 2^32, at 4 times its index. |
| RomDevice.ReadZeroes | src/rom.js:12-20 | In a non-empty ROM, unaligned or out-of-range offsets read 0. |
| RomDevice.WriteInvisible | src/rom.js:26-29 | After a write, every offset reads as before. |
| UartDevice.LowByte | src/uart.js:12 | `x & 0xFF` is a byte congruent to x modulo 256, also for negative x. |
| UartDevice.New | src/uart.js:3-8 | Received and transmitted bytes start at 0, and the status at 0x02. |
| UartDevice.Receive | src/uart.js:11-13 | Receive stores the low byte and leaves the transmit side and the status alone. |
| UartDevice.Read | src/uart.js:15-24 | Offset 0 reads the received byte and 4 the status; every other offset reads 0. |
| UartDevice.Write | src/uart.js:26-38 | Offset 0 records the low byte and hands that same byte to the callback when one is installed. Any other offset changes and calls nothing. |
| UartDevice.StatusNeverChanges | src/uart.js:7-38 | The status reads 0x02 initially and after every operation. |
| UartDevice.ReceiveThenRead | src/uart.js:11-17 | Offset 0 reads a byte congruent to the received data modulo 256, which is the data itself when that is a byte. |
| UartDevice.TransmitMatchesRecord | src/uart.js:26-32 | The byte handed to the callback is the byte recorded as transmitted, and a write never disturbs the receive side. |

## Left out

- Console output (`dump`, `console.warn`, `console.error`, `console.log`) is not modelled. It has no effect on state.
- src/io.js (a key-value bag that forwards writes as events) and index.js (module wiring) are not part of this model.
- `new RAM` in the receive block. src/block_input.js:2 destructures `{ RAM }` from a module whose export is the class itself (src/ram.js:26), so in the code as written the constructor would fail. The model builds the receive block over the RAM model as intended.
- The DMA `bus.onBusFault` hook, `interruptHandler` and `bytesTransferred` are not modelled: the bus never calls the hook, and the other two are never used.
- JavaScript number quirks are not modelled: every register value is an integer. NaN, fractional values, `undefined` written to a register, and non-integer or negative typed-array indices are outside the model.
- DmaController.Loop, DmaController.PerformTransfer, DmaController.Start and DmaController.Write require a positive data size whenever a transfer would run. Without it the JavaScript loop never ends unless a bus read throws, and a terminating function cannot decide which.
- BlockInput.Write requires a non-empty buffer for a write to 0x00. With size 0 the code computes `x % 0`, which is NaN.
- BlockInput.Append takes the data as bytes (a Uint8Array). Wider elements would be shifted into more than one byte of the word.
- FlashMemory.New takes the initial data as bytes (a Uint8Array), which is what the constructor documents.
- MemoryBus.Read returns the 32-bit pattern of the number `read` returns. The number itself is `Common.Signed` of it.
- MemoryBus device objects are a table of states reached by index, with `read`/`write` passed as functions. Attaching checks only whether the object has both functions.
- MemoryBus.Write passes device write failures to the device function. That function yields the state the device is left in, because the bus swallows the exception.
- Events (GPIO `data`, Block_Output `data`) and the UART transmit callback are returned as output values. The UART's callback is a boolean saying whether one is installed.
- BlockOutput `_bus` and `_length` are not state: the bus is the read function passed to `write`, and `_length` is never used after construction.
- CpuCore.Reset keeps the fetched word and the opcode, as the code does. The base-class CPU has no registers.
- CpuCore.Fetch: the word the bus returns is the bit pattern. 0xBF00 is positive, so comparing patterns is the same as the code's number comparison.
- DmaController.New takes no bus. `new DMA()` without a bus throws a TypeError at src/dma.js:22, where the constructor installs `bus.onBusFault`, and the model does not include that failure.
- DmaController.Loop sees the bus only through its read and write functions. A DMA attached to the bus it copies over, with a destination inside its own register window, would re-enter its own `write`/`start` in the middle of the loop. The model does not express that re-entry.
- FlashMemory.FlashUnit pairs one programmer with one flash. `getProgrammer` (src/flash.js:111-113) can hand out several programmers sharing one flash, each with its own control and offset. The model covers one of them at a time.
