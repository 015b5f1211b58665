# bowshock core, modelled in Dafny

This project models bowshock, a bare-metal runtime and hardware abstraction layer for the NXP LPC1100 (Cortex-M0). It models the parts of the runtime that decide behaviour and proves properties of each:

- **Register algebra.** `rtl::mmio` (`clear`, `set`, `toggle`, `write<mask>`, `safe_write`, `read`, and the `any`/`all`/`none`/`*_bit` forms the hardware test uses) is a class holding one 32-bit value. The class also keeps a ghost record of every store. The `spec/lpc1100/mmio` test board is modelled with its operation codes, its binary formatter and its expected 32-bit vectors.
- **Assertions and startup.** `rtl::assert`, whose message survives a reset in `.nvram`. The reset-reason decoder of `hal::lpc1100::system`. `rtl_startup`, which hands the saved message to it.
- **The asynchronous I/O core.**
  - The tri-state waitable predicates and the staged `sequence` fiber combinator.
  - The `interrupt_context` bridge and the `linear_reader`/`linear_writer` buffer cursors.
  - The UART `send_waitable` and `recv_waitable` state machines, run against an abstract peripheral. The peripheral has a transmit log, a receive FIFO, the line-status error bits and the interrupt-enable register, and interrupts are explicit method calls.
- **Serialisers and framing.**
  - The `format_str`/`format_int` fibers and `format(...)`, and the `write_str`/`write_int` writers with `debug(...)`.
  - The simple JSON values with their `size()` and `dump()`.
  - The three test-session protocols: event list, JSON driver and standard. Each has its `byte`/`buffer` reader fibers.
- **Arithmetic.**
  - `rtl::rational`: modular inverses, `gcd`, `normalize`, the four compound operators and the comparisons, for the instances r16/q16 and r32/q32 the header defines, in both normalisation modes.
  - `rtl::frequency`, `rtl::resource` reference counting and `rtl::bitflags`.
- **Clocks and pins.**
  - The IRC, PLL, main and UART clock controls. The divisor computation of the UART configuration.
  - The IOCON pin configuration tables of `physical_io.hpp` and the GPIO `digital_input`/`digital_output` drivers. The generic `hal::digital_output::drive`.
- **Application code.**
  - `memcpy`.
  - The flash access-time selection, in `src/main.cpp:19-35`. `src/app/control/lpc1100.cpp:35-51` holds a copy with the same thresholds and the same read-modify-write, and the same model covers it.
  - The `read_until`/`read_any` reader closures.
  - The command dispatcher of the control application.

Every operation that changes state in place is a method with a `modifies` clause, stated against a specification function: a class method where the source updates an object's fields, a module-level method where it pokes registers or memory it is given. A C++ fiber lambda with captured state becomes a pure step function over its capture. Where the source keeps that state in an object (the `sequence` combinators, `format_str`, `read_until`), a class holds it and its `Call` method updates it. Hardware side effects are registers of an explicit register file.

## Model

| member | source | states |
|---|---|---|
| Assert.Trace | src/rtl/assert.hpp:16-23 | null exactly under NO_ASSERT; otherwise the site, then ": ", then the literal |
| Assert.Nv.constructor | src/rtl/cortex-m0/startup.cpp:15 | `nv::assert_message` starts out holding whatever the memory kept across the reset, since it is never default-initialised |
| Assert.Nv.AssertTripped | src/rtl/assert.hpp:31-34 | the message is stored in `nv::assert_message` before abort() |
| Assert.Nv.Check | src/rtl/assert.hpp:38-50 | aborts exactly when assertions are enabled and the condition is false; the message is stored only then, otherwise the state is unchanged |
| Startup.ClearAssertMessage | src/rtl/cortex-m0/startup.cpp:19-23 | returns the message held before the call and leaves the pointer null |
| Startup.RtlStartup | src/rtl/cortex-m0/startup.cpp:25-29 | hal::startup receives exactly the cleared message, and the message word is left null |
| Startup.AssertSurvivesReset | src/rtl/cortex-m0/startup.cpp:19-29 | after the software reset a failed assertion causes, startup reports an assertion failure that carries the stored message |
| System.LowestBitWins | src/hal/lpc1100/system.cpp:13-22 | the lowest set bit among RSTSTAT bits 0-4 names the event: power-on, external, watchdog, brownout, software |
| System.UnknownIffNoBit | src/hal/lpc1100/system.cpp:13-25 | the event is unknown exactly when none of bits 0-4 is set |
| System.DecodeSeesStatusBits | src/hal/lpc1100/system.cpp:10 | reading under the mask 0b11111 loses nothing the decoder looks at |
| System.DecodeNeverAssert | src/hal/lpc1100/system.cpp:13-25 | the decoder never yields assert, abort or fault |
| System.DetermineResetEvent | src/hal/lpc1100/system.cpp:8-26 | the event decoded from RSTSTAT under the mask, with a null message; the five status bits are then set (cleared in hardware) in one store |
| System.Promote | src/hal/lpc1100/system.cpp:31-36 | the result is an assertion exactly when the event was software and a message is present; otherwise the context is unchanged |
| System.PromoteCarriesMessage | src/hal/lpc1100/system.cpp:33-34 | a promoted context carries exactly the message given |
| System.Startup | src/hal/lpc1100/system.cpp:28-38 | main receives the decoded context after promotion, and RSTSTAT is written once |
| Mmio.Cleared | src/rtl/mmio.hpp:40-42 | the mask's bits become 0 and every other bit keeps its value |
| Mmio.Raised | src/rtl/mmio.hpp:52-54 | the mask's bits become 1 and every other bit keeps its value |
| Mmio.ClearedAfterRaised | src/rtl/mmio.hpp:40-54 | clear<M> after set<M> is the same as clear<M> alone |
| Mmio.ClearedTwice | src/rtl/mmio.hpp:40-42 | clear<M> is idempotent |
| Mmio.Toggled | src/rtl/mmio.hpp:62-64 | the mask's bits are inverted and every other bit keeps its value |
| Mmio.ToggleTwice | src/rtl/mmio.hpp:62-64 | toggling twice with one mask restores the register |
| Mmio.Written | src/rtl/mmio.hpp:73 | under the mask the register holds the argument's bits; outside it the old bits, ORed with any argument bits there |
| Mmio.WrittenKeeps | src/rtl/mmio.hpp:66-74 | when the argument lies within the mask, every bit outside the mask keeps its value |
| Mmio.Masked | src/rtl/mmio.hpp:92-94 | the register's bits under the mask, and 0 everywhere else |
| Mmio.BitMask | spec/lpc1100/mmio/board.cpp:92-102 | the mask of the single-bit operations has exactly one bit set |
| Mmio.Register.constructor | src/rtl/mmio.hpp:35 | a wrapped register holds its initial contents and has seen no store |
| Mmio.Register.ClearMasked | src/rtl/mmio.hpp:40-42 | one store of `old & ~mask` |
| Mmio.Register.Clear | src/rtl/mmio.hpp:45-47 | one store of 0, whatever the register held |
| Mmio.Register.SetMasked | src/rtl/mmio.hpp:52-54 | one store of `old \| mask` |
| Mmio.Register.Set | src/rtl/mmio.hpp:57-59 | one store of all ones, whatever the register held |
| Mmio.Register.Toggle | src/rtl/mmio.hpp:62-64 | one store of `old ^ mask` |
| Mmio.Register.WriteMasked | src/rtl/mmio.hpp:70-74 | aborts exactly when assertions are enabled and a bit lies outside the mask, storing the traced message and leaving the register alone; otherwise one store of `bits \| (old & ~mask)` |
| Mmio.Register.SafeWrite | src/rtl/mmio.hpp:76-82 | the documented behaviour: never aborts, writes the masked argument under the mask and keeps every other bit |
| Mmio.Register.SafeWriteAsWritten | src/rtl/mmio.hpp:80-82 | the code as written: `write(bits & mask)` calls the unmasked overload, so every bit outside the mask becomes 0 |
| Mmio.Register.Write | src/rtl/mmio.hpp:85-87 | one store of the argument over the whole register |
| Mmio.Register.Read | src/rtl/mmio.hpp:92-94 | the register's bits under the mask; nothing changes |
| Mmio.Register.Any | spec/lpc1100/mmio/board.cpp:83-85 | true exactly when some bit of the mask is set |
| Mmio.Register.All | spec/lpc1100/mmio/board.cpp:86-88 | true exactly when every bit of the mask is set |
| Mmio.Register.None | spec/lpc1100/mmio/board.cpp:89-91 | true exactly when no bit of the mask is set |
| Mmio.Register.ClearBit | spec/lpc1100/mmio/board.cpp:92-94 | clear<M> with M the single bit n |
| Mmio.Register.SetBit | spec/lpc1100/mmio/board.cpp:95-97 | set<M> with M the single bit n |
| Mmio.Register.ToggleBit | spec/lpc1100/mmio/board.cpp:98-100 | toggle<M> with M the single bit n |
| Mmio.Register.ReadBit | spec/lpc1100/mmio/board.cpp:101-103 | true exactly when bit n is set |
| MmioBoard.Code | spec/lpc1100/mmio/board.cpp:11-28 | every operation has a wire value below 16 |
| MmioBoard.Decode | spec/lpc1100/mmio/board.cpp:55-104 | a wire value selects an operation exactly when it is below 16, and the operation's code is that value |
| MmioBoard.DecodeCode | spec/lpc1100/mmio/board.cpp:11-28 | decoding an operation's code gives the operation back |
| MmioBoard.LowDigitsValue | spec/lpc1100/mmio/board.cpp:43-46 | the digits written so far and the bits not yet shifted out add back up to the value |
| MmioBoard.BinaryTextShape | spec/lpc1100/mmio/board.cpp:41-48 | the text is 34 bytes: "0b" and then 32 digits |
| MmioBoard.BinaryTextDigit | spec/lpc1100/mmio/board.cpp:44 | the digit at index 2+k is '1' exactly when bit 31-k is set |
| MmioBoard.BinaryTextValue | spec/lpc1100/mmio/board.cpp:40-49 | read in base 2, the 32 digits give back the 32-bit value |
| MmioBoard.ToBinaryString | spec/lpc1100/mmio/board.cpp:40-49 | the static buffer holds "0b", the 32 digits of the value, and its terminating NUL |
| MmioBoard.FillBinary | spec/lpc1100/mmio/board.cpp:43-46 | the loop writes index 33 down to 2 with the digits of the value, leaving "0b" and the NUL in place |
| MmioBoard.Apply | spec/lpc1100/mmio/board.cpp:55-104 | each case applies its register operation with MASK or BIT, as the firmware is written (safe_write stores exactly `argument & MASK`); the outcome is the stored value, the yes/no answer, or the abort of write<MASK> |
| MmioBoard.RunSpec | spec/lpc1100/mmio/board.cpp:51-107 | the report is the event the firmware as written sends for the session: the register in binary, "true"/"false", or the abort; a value above 15 reports the initial value |
| MmioBoard.HardwareVectors | spec/lpc1100/mmio/board_spec.rb:21-290 | the firmware as written gives every result the hardware test expects (both any, all three all, both none and both read_bit answers, the abort of write<MASK> with an uncovered argument, write with the test's own argument), except safe_write's |
| MmioBoard.SafeWriteAsWrittenDiffers | spec/lpc1100/mmio/board_spec.rb:106-116 | for safe_write the firmware as written reports 0x85912A09, not the 0x8795EAED the hardware test expects; the documented masked write gives the expected value |
| Waitable.WaitAllMeaning | src/rtl/waitable.hpp:62-70 | wait_all_inner holds exactly when no waitable of the list is pending |
| Waitable.WaitAnyMeaning | src/rtl/waitable.hpp:72-80 | wait_any_inner holds exactly when some waitable of the list is not pending |
| Waitable.SingleWaitable | src/rtl/waitable.hpp:62-75 | for one waitable, both tests are "not pending" |
| Waitable.AllImpliesAny | src/rtl/waitable.hpp:52-59 | whenever wait_all may return, wait_any may too |
| Waitable.WaitExit | src/rtl/waitable.hpp:43-46 | wait() returns exactly when the waitable is complete or failed |
| Fiber.Run | src/rtl/fiber/algorithm.hpp:7-12 | calling a fiber once per input yields one status per call |
| Fiber.RunFirst | src/rtl/fiber/algorithm.hpp:7-12 | the first call is one step, and the rest runs from the state it leaves |
| Fiber.Sequence0Completes | src/rtl/fiber/algorithm.hpp:16-18 | sequence() completes on its first call, whatever the argument |
| Fiber.Sequence1.constructor | src/rtl/fiber/algorithm.hpp:20-22 | sequence(g1) holds the fiber g1 built at construction |
| Fiber.Sequence1.Call | src/rtl/fiber/algorithm.hpp:21 | each call is exactly one call of that fiber |
| Fiber.Sequence2.constructor | src/rtl/fiber/algorithm.hpp:27-33 | the closure starts in stage 0 with g1's fiber in the storage |
| Fiber.Sequence2.Call | src/rtl/fiber/algorithm.hpp:33-49 | one call follows the switch on n: stage 0 passes on pending and failed, and a completing call builds g2's fiber and calls it with the same argument |
| Fiber.FirstStageForwards | src/rtl/fiber/algorithm.hpp:36-40 | a pending or failed result of the first fiber is returned and the stage stays 0, so failure is not latched |
| Fiber.FirstStageCompletes | src/rtl/fiber/algorithm.hpp:41-47 | a completing first fiber hands the same argument to the new second fiber, whose answer is returned |
| Fiber.SecondStageRuns | src/rtl/fiber/algorithm.hpp:46-47 | from stage 1 on, the sequence runs exactly as the second fiber does |
| Fiber.CompletesAtOnce | src/rtl/fiber/algorithm.hpp:24-26 | a fiber that completes after one call answered that call with complete |
| Fiber.CompletesLater | src/rtl/fiber/algorithm.hpp:24-26 | a fiber that completes after k > 1 calls answers pending, and then completes after k - 1 more |
| Fiber.Sequence2Completes | src/rtl/fiber/algorithm.hpp:24-50 | if the first fiber completes on its k1-th call and the second on its k2-th, counted from that same call, the sequence completes after k1 + k2 - 1 calls |
| Fiber.Sequence3.constructor | src/rtl/fiber/algorithm.hpp:52-59 | the closure starts in stage 0 with g1's fiber in the storage |
| Fiber.Sequence3.Call | src/rtl/fiber/algorithm.hpp:59-86 | one call follows the switch on n with its fall-through from stage 0 to 1 to 2 |
| Fiber.NestStep | src/rtl/fiber/algorithm.hpp:52-86 | one call of sequence(g1, g2, g3) is one call of sequence(g1, sequence(g2, g3)) |
| Fiber.NestRuns | src/rtl/fiber/algorithm.hpp:52-86 | over any inputs, sequence(g1, g2, g3) returns the statuses of sequence(g1, sequence(g2, g3)) |
| Fiber.Sequence3Completes | src/rtl/fiber/algorithm.hpp:52-86 | with fibers completing on their k1-th, k2-th and k3-th calls, the sequence completes after k1 + k2 + k3 - 2 calls |
| Functional.InterruptContext.Empty | src/rtl/functional.hpp:34-53 | both pointers start null, so the context is not valid |
| Functional.InterruptContext.constructor | src/rtl/functional.hpp:33 | the function and context pointers are stored; valid exactly when the context is not null |
| Functional.InterruptContext.Reset | src/rtl/functional.hpp:36-39 | the context pointer is replaced and the function pointer kept; valid exactly when the new context is not null |
| Functional.InterruptContext.Call | src/rtl/functional.hpp:46-49 | the stored function is called with the stored context |
| Buffer.ConsecutiveOnlyForBytes | src/rtl/buffer.hpp:51-53 | the cursors reach successive elements exactly when the element is one byte wide |
| Buffer.CursorOverruns | src/rtl/buffer.hpp:51-57 | with elements two or more bytes wide, the position before the end is not the end, yet its index lies past the last element |
| Buffer.BeforeEndInRange | src/rtl/buffer.hpp:55-57 | when the memory holds the buffer's size, a position short of the end, counted in elements, indexes an element of the memory |
| Buffer.UnalignedNeverEnds | src/rtl/buffer.hpp:55-57 | end_reached() tests equality, so when the size is not a whole number of elements (3 bytes read as u16) no position reaches the end |
| Buffer.AlignedStepWithin | src/rtl/buffer.hpp:55-57 | when the size is a whole number of elements, one step from a position short of the end stays within the size |
| Buffer.Buffer.constructor | src/rtl/buffer.hpp:25 | the memory and the byte size are stored exactly as the caller gives them, with no check of one against the other |
| Buffer.Buffer.Put | src/rtl/buffer.hpp:32-34 | only element `index` changes |
| Buffer.LinearReader.constructor | src/rtl/buffer.hpp:48 | the reader starts at position 0 |
| Buffer.LinearReader.Read | src/rtl/buffer.hpp:51-53 | as written: element position * width is read, and the position advances by one |
| Buffer.LinearReader.ReadIntended | src/rtl/buffer.hpp:51-57 | as intended: element `position`, in range whenever the end is not reached and the memory holds the size; the position then advances by one and stays within the size when the size is a whole number of elements |
| Buffer.LinearWriter.constructor | src/rtl/buffer.hpp:67 | the writer starts at position 0 |
| Buffer.LinearWriter.Write | src/rtl/buffer.hpp:70-72 | as written: element position * width is stored, and the position advances by one |
| Buffer.LinearWriter.WriteIntended | src/rtl/buffer.hpp:70-76 | as intended: element `position` is stored, in range whenever the end is not reached and the memory holds the size; the position then advances by one and stays within the size when the size is a whole number of elements |
| Format.StrlenFirst | src/sys/format.hpp:16 | before the first NUL no byte is NUL, and the bytes there are the string's |
| Format.StrFiber.constructor | src/sys/format.hpp:14-15 | the closure starts at index 0 of the string |
| Format.StrFiber.Call | src/sys/format.hpp:15-22 | at the NUL it completes without writing; otherwise it writes the byte at the index, advances, and reports pending |
| Format.StrEmits | src/sys/format.hpp:14-23 | over k calls a string of length L writes its characters in order on the first L, reporting pending, and completes on every later call without writing |
| Format.FormatInt | src/sys/format.hpp:25-48 | the static buffer holds, from the returned start, the decimal digits of the value as an unsigned 64-bit number and the NUL; the bytes before it are untouched |
| Format.IntegerFiberText | src/sys/format.hpp:62-80 | the integer formatters' fiber walks exactly the decimal digits |
| Format.StrlenOfText | src/sys/format.hpp:16 | a C string followed by its NUL has strlen equal to its length |
| Format.Texts | src/sys/format.hpp:84-93 | one text per fragment, in order |
| Format.FormatStart | src/sys/format.hpp:91-93 | the fiber starts in stage 0 at index 0 |
| Format.FormatStep | src/sys/format.hpp:91-93 | one call of format's fiber keeps every stage's index within its text |
| Format.OutputStep | src/sys/format.hpp:91-93 | the first k + 1 fragments write what the first k do, then fragment k's text |
| Format.OutputPrefix | src/sys/format.hpp:91-93 | what the first k fragments write begins what all of them write |
| Format.FormatStepAt | src/sys/format.hpp:91-93 | short of the end of the output, a call writes the byte at the position reached and moves one on; at the end it completes without writing |
| Format.FormatRun | src/sys/format.hpp:91-93 | k calls keep every stage's index within its text |
| Format.FormatRunAt | src/sys/format.hpp:91-93 | k calls short of the end advance the position by k |
| Format.FormatRunPending | src/sys/format.hpp:91-93 | k calls short of the end all report pending |
| Format.FormatRunWrites | src/sys/format.hpp:91-93 | k calls short of the end write the next k bytes of the output |
| Format.SequenceEmits | src/sys/format.hpp:91-93 | a sequence of string fibers writes the strings one after another, one byte per pending call, and then completes without writing |
| Format.FormatEmits | src/sys/format.hpp:55-93 | format(fragments...) writes the fragments' texts left to right, strings as they are and integers as decimal digits, and then completes |
| Decimal.ToI64 | src/rtl/base.hpp:30 | a value converted to `rtl::i64`, which is a `uint64_t`: below 2^64, unchanged when it already fits, and a negative value gains 2^64 |
| Decimal.SignificantShape | src/sys/format.hpp:38-41 | the division loop emits digits only, none for 0, and never a leading '0' |
| Decimal.SignificantValue | src/sys/format.hpp:38-41 | the emitted digits read back as the number |
| Decimal.DigitsRoundTrip | src/sys/format.hpp:36-41 | the decimal text is non-empty, all digits, has no leading zero unless it is "0", and reads back as the number |
| Decimal.CanonicalIsDigits | src/sys/format.hpp:36-41 | conversely, canonical decimal text is the text of the number it denotes |
| Decimal.AtMost20Digits | src/sys/format.hpp:26-41 | a 64-bit value has 1 to 20 digits, so the 32-byte buffer never underflows |
| Debug.WriteStrStep | src/sys/debug.hpp:13-22 | at the NUL (or outside the string) the closure reports done and does not advance; otherwise it yields the byte at the index and advances by one |
| Debug.FillFromString | src/sys/debug.hpp:13-22 | filling the TX FIFO from a C string queues the next min(n, remaining) characters in order, and is exhausted on the NUL exactly when fewer than n were left |
| Debug.StartOnString | src/sys/debug.hpp:75 | the send's first fill queues a prefix of the string and leaves a send in progress |
| Debug.InterruptOnString | src/sys/debug.hpp:75 | each THRE interrupt while pending queues the next characters in order and strictly shortens the remaining work; from finishing it completes |
| Debug.Wait | src/sys/debug.hpp:75 | wait() ends complete with every character not yet queued transmitted in order, THRE cleared, and the receive side untouched |
| Debug.Open | src/sys/debug.hpp:75 | write(write_str(buf)) flushes the TX FIFO, queues the first characters and enables THRE |
| Debug.SendString | src/sys/debug.hpp:75 | a blocking string write sends a flush and then exactly the string's characters, and leaves THRE disabled with no send context |
| Debug.WriteInt | src/sys/debug.hpp:24-47 | write_int leaves the decimal text of the value (as an `rtl::i64`) and a NUL in its 32-byte buffer |
| Debug.DebugFormatter | src/sys/debug.hpp:54-71 | a string fragment is walked as itself, an integer fragment as its decimal digits; either way a C string |
| Debug.Debug | src/sys/debug.hpp:73-83 | debug(output, fragments...) performs one blocking write per fragment, in argument order, and ends with THRE disabled |
| Debug.DebugSendsFormatOutput | src/sys/debug.hpp:73-83 | the characters debug sends, flushes left out, are exactly those format produces for the same fragments |
| Uart.Peripheral.constructor | src/hal/lpc1100/uart.hpp:25-31 | the peripheral starts with no FIFO or THR writes and with neither static context installed |
| Uart.FillBounds | src/hal/lpc1100/uart.hpp:87-99 | a fill keeps what was written before, adds at most 16 bytes, and adds fewer only when the context reports exhaustion |
| Uart.SendNeverFails | src/hal/lpc1100/uart.hpp:109-153 | no transition of the send waitable enters the failed status |
| Uart.SendCompletesFromFinishing | src/hal/lpc1100/uart.hpp:144-153 | an interrupt completes the send exactly when it was finishing, and that interrupt writes nothing |
| Uart.SendWaitable.constructor | src/hal/lpc1100/uart.hpp:109-120 | installs send_context, flushes the TX FIFO, fills it, becomes finishing when the context is exhausted, and enables THRE |
| Uart.SendWaitable.FillTxQueue | src/hal/lpc1100/uart.hpp:87-99 | at most 16 THR writes, in the order the context yields them; an exhausted context's byte is not written |
| Uart.SendWaitable.Interrupt | src/hal/lpc1100/uart.hpp:144-153 | finishing becomes complete and disables THRE; any other status refills the FIFO and becomes finishing when the context runs out |
| Uart.SendWaitable.Destroy | src/hal/lpc1100/uart.hpp:127-130 | disables the THRE interrupt and resets send_context, touching nothing else |
| Uart.FillFromBytes | src/hal/lpc1100/uart.hpp:87-99 | a fill from a byte sequence writes its first min(16, length) bytes and is exhausted exactly when fewer than 16 were left |
| Uart.RefillFromBytes | src/hal/lpc1100/uart.hpp:144-153 | an interrupt of a pending byte send writes the next 16 bytes, or all that are left and becomes finishing |
| Uart.SendStep | src/hal/lpc1100/uart.hpp:144-153 | one interrupt after the first j bytes were written leaves the send at the next block |
| Uart.StartFromBytes | src/hal/lpc1100/uart.hpp:109-120 | the constructor writes the first 16 bytes, or all of them |
| Uart.PendingBlock | src/hal/lpc1100/uart.hpp:87-99 | short of the last block, the send is pending with 16k bytes written |
| Uart.SendProgress | src/hal/lpc1100/uart.hpp:109-153 | after the constructor and k interrupts with 16 or more bytes left each time, exactly the first 16k bytes are written |
| Uart.Blocks | src/hal/lpc1100/uart.hpp:88 | the number of whole 16-byte refills, in terms of n / 16 |
| Uart.SendCompletion | src/hal/lpc1100/uart.hpp:109-153 | a send of n bytes is pending for the first n/16 interrupts, finishing with every byte written in order after interrupt n/16, and complete after interrupt n/16 + 1 and never before |
| Uart.Drain | src/hal/lpc1100/uart.hpp:212-218 | the drain loop pops a suffix of the FIFO; when the context is not satisfied it empties the FIFO |
| Uart.DrainCollects | src/hal/lpc1100/uart.hpp:212-218 | a collector short of n bytes takes exactly the bytes it still needs and leaves the rest in the FIFO, or takes everything and stays unsatisfied |
| Uart.RecvWaitable.constructor | src/hal/lpc1100/uart.hpp:173-179 | installs recv_context, flushes the RX FIFO and enables the RDA and RLS interrupts |
| Uart.RecvWaitable.Interrupt | src/hal/lpc1100/uart.hpp:202-220 | RLS with a flagged line error fails the waitable; RDA and CTI drain the FIFO into the context and complete it, disabling the receive interrupts, once satisfied; other codes change nothing |
| Uart.RecvWaitable.Destroy | src/hal/lpc1100/uart.hpp:186-188 | resets recv_context and leaves the receive interrupts enabled |
| Uart.Route | src/hal/lpc1100/uart.hpp:230-239 | the handler masks IIR with 0b1110 and sends exactly THRE to send_context, every other code to recv_context |
| Uart.Handler | src/hal/lpc1100/uart.hpp:230-239 | a THRE interrupt runs send_context: the send waitable's new state, the THR writes and IER are those of its interrupt(), and the receive side is untouched; every other code runs recv_context: RLS fails on a line error, RDA and CTI drain the FIFO into the context and complete once satisfied, disabling the receive interrupts, other codes change nothing, and the send side and the writes are untouched; LSR never changes |
| Uart.ConfigureDivisor | src/hal/lpc1100/uart.hpp:60-72 | DLL receives Fdiv modulo 256 |
| Uart.DivisorRoundTrip | src/hal/lpc1100/uart.hpp:69-72 | DLM and DLL together hold Fdiv whenever it fits in 16 bits |
| Uart.Divisor9600 | src/hal/lpc1100/uart.hpp:69-72 | at the hard-coded 48 MHz clock, 9600 baud gives Fdiv 312: DLM 1 and DLL 56 |
| Session.FormatStepOnText | src/sys/format.hpp:84-93 | format(pair{"", m}) sends the next character of m on every call short of its end, and completes at the end |
| Session.SentTransmitted | spec/support/protocols/event_list.hpp:35-41 | the bytes of a trace built from sent characters read back as those characters |
| Session.ByteOneShot | spec/support/protocols/event_list.hpp:43-53 | byte(b) writes b on its first call, reporting pending, and then reports complete on every later call without writing |
| Session.CompleteForever | spec/support/protocols/event_list.hpp:45-46 | once written, byte(b) only ever reports complete and writes nothing |
| Session.ByteFiber.constructor | spec/support/protocols/event_list.hpp:43-44 | the closure captures b with `written` false |
| Session.ByteFiber.Call | spec/support/protocols/event_list.hpp:44-52 | one call of byte(b)'s closure |
| Session.Decrement | spec/support/protocols/event_list.hpp:57 | `length--` on a 32-bit size_t stays below 2^32 and is exact above 0 |
| Session.BufferCountdown | spec/support/protocols/event_list.hpp:55-66 | with length >= 1, the first length - 1 bytes report pending and byte number `length` completes |
| Session.BufferOfZeroWraps | spec/support/protocols/event_list.hpp:57-63 | buffer(ptr, 0) wraps its count to 2^32 - 1, so its first byte reports pending |
| Session.BufferFiber.constructor | spec/support/protocols/event_list.hpp:55-56 | the closure captures the pointer and the length |
| Session.BufferFiber.Call | spec/support/protocols/event_list.hpp:56-65 | counts down, stores the byte at the pointer and advances it; complete exactly when the count reaches 0 |
| Session.Link.constructor | spec/support/protocols/event_list.hpp:12 | nothing has been sent or handled yet |
| Session.Link.Handle | spec/support/protocols/event_list.hpp:18 | the handler call is logged, and the incoming bytes are untouched |
| Session.Link.WriteFormat | spec/support/protocols/event_list.hpp:35-37 | write(format(pair{"", m})).wait() sends exactly the characters of m, in order |
| Session.Link.WriteByte | spec/support/protocols/event_list.hpp:39-41 | write(byte(b)).wait() sends b exactly once |
| Session.Link.ReadInto | spec/support/protocols/event_list.hpp:17 | read(buffer(dest, n)).wait() stores the next n bytes to arrive in dest, in arrival order, and consumes only those |
| EventList.WriteEvent | spec/support/protocols/event_list.hpp:35-37 | write_event(m) sends exactly the characters of m |
| EventList.TerminateSession | spec/support/protocols/event_list.hpp:39-41 | the session ends with exactly one 0x00 byte |
| EventList.Run | spec/support/protocols/event_list.hpp:14-20 | the next sizeof(Params) bytes become the parameters, the handler is called once with them, then 0x00 is sent |
| EventList.Fail | spec/support/protocols/event_list.hpp:23-27 | sends the message, a newline and 0x00 |
| EventList.Event | spec/support/protocols/event_list.hpp:29-32 | sends the message and a newline, and does not end the session |
| JsonDriver.WriteJson | spec/support/json_driver.hpp:30-34 | the JSON text dumped into the 256-byte buffer is NUL-terminated there and sent exactly |
| JsonDriver.NulEnds | spec/support/json_driver.hpp:33 | a buffer holding a C string followed by a NUL reads back as that string |
| JsonDriver.TerminateSession | spec/support/json_driver.hpp:40-42 | the session ends with exactly one 0x00 byte |
| JsonDriver.Run | spec/support/json_driver.hpp:14-21 | parameters read, one handler call, the handler's result sent as JSON text, then 0x00 |
| JsonDriver.Fail | spec/support/json_driver.hpp:23-27 | sends the message and then 0x00, with no newline |
| StandardProtocol.Run | src/sys/spec/standard.hpp:18-25 | parameters read, one handler call, then "ok" and 0x00 |
| StandardProtocol.Fail | src/sys/spec/standard.hpp:28-32 | sends the message, "\nfail" and 0x00 |
| StandardProtocol.Event | src/sys/spec/standard.hpp:34-37 | sends the message and a newline |
| StandardProtocol.Until | src/sys/spec/standard.hpp:52-60 | until(b) never reports failure |
| StandardProtocol.UntilMatches | src/sys/spec/standard.hpp:52-60 | over any input, call i of until(b) completes exactly when byte i is b |
| StandardProtocol.UntilCompletesAtFirst | src/sys/spec/standard.hpp:52-60 | fed bytes that end with their first b, until(b) is pending up to that byte and completes on it |
| SimpleJson.NumberOf | spec/support/simple_json.hpp:184 | number(value) holds the value cast to `rtl::i64`: below 2^64, and unchanged when it already fits |
| SimpleJson.SizeIsLength | spec/support/simple_json.hpp:30-201 | every value's size() is exactly the number of characters its dump() writes |
| SimpleJson.MembersLength | spec/support/simple_json.hpp:68-74 | each member adds its key, two quotes, a colon and a comma to an object's size |
| SimpleJson.ElementsLength | spec/support/simple_json.hpp:89-91 | each element adds its text and a comma to an array's size |
| SimpleJson.NumberRoundTrip | spec/support/simple_json.hpp:203-221 | a number's text has no leading zero and reads back as its value |
| SimpleJson.EmptyContainers | spec/support/simple_json.hpp:46-105 | an empty object is written `{}` and an empty array `[]`, each of size 2 |
| SimpleJson.ListedJoin | spec/support/simple_json.hpp:43-47 | writing a comma after every part and then overwriting the last one leaves the parts joined by commas |
| SimpleJson.NumberSize | spec/support/simple_json.hpp:186-201 | number::size()'s loop counts exactly the decimal digits of the value |
| SimpleJson.DumpNumber | spec/support/simple_json.hpp:203-221 | number::dump writes the decimal digits ending at buffer + size(), puts the NUL there and returns that position |
| SimpleJson.WriteDigits | spec/support/simple_json.hpp:214-217 | the do-while loop writes the digits right to left into exactly their slot |
| SimpleJson.FirstDigit | spec/support/simple_json.hpp:214-217 | the first pass of the loop writes the last digit and leaves the digits of v / 10 |
| SimpleJson.NextDigit | spec/support/simple_json.hpp:214-217 | every later pass writes one more digit to the left |
| SimpleJson.DumpBoolean | spec/support/simple_json.hpp:135-151 | boolean::dump writes `true` or `false` and a NUL, and returns the NUL's position |
| SimpleJson.CopyString | spec/support/simple_json.hpp:76-82 | the characters of a C string up to its NUL are copied, and nothing else is touched |
| SimpleJson.DumpString | spec/support/simple_json.hpp:165-176 | string::dump writes the characters between quotes, unescaped, then a NUL |
| SimpleJson.Dump | spec/support/simple_json.hpp:34-221 | dump() of any value writes its JSON text, exactly size() characters, then a NUL, and nothing outside |
| SimpleJson.DumpMember | spec/support/simple_json.hpp:38-42 | one member is written as `"key":value` |
| SimpleJson.DumpKey | spec/support/simple_json.hpp:38-41 | a key is written as `"key":` |
| SimpleJson.DumpObject | spec/support/simple_json.hpp:34-54 | object::dump writes the members joined by commas inside braces, then a NUL |
| SimpleJson.DumpMembersListed | spec/support/simple_json.hpp:37-44 | object::dump's loop writes every member's text followed by a comma, in order |
| SimpleJson.CloseList | spec/support/simple_json.hpp:46-53 | with parts the trailing comma becomes the closing bracket; without, the bracket follows the opening one; then the NUL |
| SimpleJson.DumpArray | spec/support/simple_json.hpp:93-109 | array::dump writes the elements joined by commas inside brackets, then a NUL |
| SimpleJson.DumpElementsListed | spec/support/simple_json.hpp:96-99 | array::dump's loop writes every element's text followed by a comma, in order |
| SimpleJson.DumpMemberComma | spec/support/simple_json.hpp:38-43 | one pass of object::dump's loop appends the member's text and a comma |
| SimpleJson.DumpElementComma | spec/support/simple_json.hpp:97-98 | one pass of array::dump's loop appends the element's text and a comma |
| SimpleJson.TextIsCString | spec/support/simple_json.hpp:52-53 | the text of a valid value holds no NUL, so the terminated dump reads back as exactly that text |
| SimpleJson.JoinIsCString | spec/support/simple_json.hpp:43-47 | parts that hold no NUL, joined by commas, hold no NUL |
| Rational.ToUnsigned | src/rtl/cortex-m0/math/rational.hpp:159-160 | a conversion to an unsigned type lands in its range |
| Rational.ToSigned | src/rtl/cortex-m0/math/rational.hpp:144-159 | a conversion to a signed two's-complement type lands in its range |
| Rational.SignedCongruent | src/rtl/cortex-m0/math/rational.hpp:144-159 | the signed reading is congruent to the value converted |
| Rational.NewtonStep | src/rtl/cortex-m0/math/rational.hpp:29-90 | one refinement line of modinv, with the factor reduced to the cast's width and the product to x's width |
| Rational.TableInverse | src/rtl/cortex-m0/math/rational.hpp:22-34 | the table entry picked for an odd a is its inverse modulo 16 |
| Rational.SquareVanishes | src/rtl/cortex-m0/math/rational.hpp:36 | if v is 1 modulo m0, then (2 - v) * v is 1 modulo every n dividing m0 * m0 |
| Rational.NewtonFactor | src/rtl/cortex-m0/math/rational.hpp:36 | the factor of a refinement line is 2 - x * a modulo the cast's width |
| Rational.NewtonCorrect | src/rtl/cortex-m0/math/rational.hpp:29-90 | each refinement line turns an inverse modulo m0 into one modulo a width n with n dividing m0 * m0 |
| Rational.Modinv8Inverse | src/rtl/cortex-m0/math/rational.hpp:29-39 | for odd a, a * modinv<u8>(a) is 1 modulo 2^8 |
| Rational.Modinv16Inverse | src/rtl/cortex-m0/math/rational.hpp:44-55 | for odd a, a * modinv<u16>(a) is 1 modulo 2^16 |
| Rational.Modinv32Inverse | src/rtl/cortex-m0/math/rational.hpp:60-72 | for odd a, a * modinv<u32>(a) is 1 modulo 2^32 |
| Rational.Modinv64Inverse | src/rtl/cortex-m0/math/rational.hpp:77-90 | for odd a, a * modinv<u64>(a) is 1 modulo 2^64 |
| Rational.ModinvDInverse | src/rtl/cortex-m0/math/rational.hpp:334 | the double-width modinv that normalize calls inverts every odd argument |
| Rational.Gcd | src/rtl/cortex-m0/math/rational.hpp:303-313 | Euclid's loop gives the greatest common divisor when b is not 0, and 1 (its initial value) when b is 0 |
| Rational.OddPart | src/rtl/cortex-m0/math/rational.hpp:329-332 | a positive value with every factor of two removed is odd and positive |
| Rational.RemoveTwos | src/rtl/cortex-m0/math/rational.hpp:329-332 | the halving loop stops with one of the two odd and does not change the lowest-terms pair |
| Rational.OddDivisor | src/rtl/cortex-m0/math/rational.hpp:329-334 | after that loop the gcd is odd, so modinv applies |
| Rational.DivideByOddGcd | src/rtl/cortex-m0/math/rational.hpp:334-340 | multiplying both by the inverse of their odd gcd modulo 2^(2W) gives the lowest-terms pair |
| Rational.ExactInverse | src/rtl/cortex-m0/math/rational.hpp:334-340 | multiplying by the inverse of an exact odd divisor divides exactly, with the wrap-around of UD and SD |
| Rational.UnitInverse | src/rtl/cortex-m0/math/rational.hpp:337 | skipping the multiplication when the inverse is at most 1 happens only for a gcd of 1 |
| Rational.Halve | src/rtl/cortex-m0/math/rational.hpp:351-354 | the range loop halves both until the numerator fits S and the denominator fits U |
| Rational.Magnitude | src/rtl/cortex-m0/math/rational.hpp:328-354 | reduce in best mode, keep in fast mode, then halve into range |
| Rational.Normalize | src/rtl/cortex-m0/math/rational.hpp:315-363 | zero becomes 0/1; otherwise the magnitude is reduced and halved and gets its sign back, and a denominator halved to 0 becomes 1 |
| Rational.HalvedBounds | src/rtl/cortex-m0/math/rational.hpp:351-354 | the halved pair fits both limits and is no larger than before |
| Rational.NormalizedRange | src/rtl/cortex-m0/math/rational.hpp:315-363 | normalize always yields a numerator that fits S and a denominator in 1..max(U); zero gives 0/1 and the sign is never flipped |
| Rational.NormalizedExact | src/rtl/cortex-m0/math/rational.hpp:315-363 | when nothing must be halved the value is kept; best mode leaves lowest terms and fast mode the pair itself |
| Rational.NormalizedValue | src/rtl/cortex-m0/math/rational.hpp:315-363 | when nothing must be halved, normalize keeps the value exactly |
| Rational.CrossProductsFit | src/rtl/cortex-m0/math/rational.hpp:272-288 | the cross products of in-range operands fit SD, so the comparisons cannot overflow |
| Rational.ComparisonsOrderValues | src/rtl/cortex-m0/math/rational.hpp:272-300 | ==, !=, <, >, <= and >= agree with the values of their operands, in both directions |
| Rational.ProductsFit | src/rtl/cortex-m0/math/rational.hpp:214-216 | the products *= forms fit SD and UD |
| Rational.WidthProducts | src/rtl/cortex-m0/math/rational.hpp:153-155 | the product of two S values or two U values fits the double-width type |
| Rational.Rational.constructor | src/rtl/cortex-m0/math/rational.hpp:100 | the default rational is 0/1 |
| Rational.Rational.Pair | src/rtl/cortex-m0/math/rational.hpp:120-124 | rational(p, q) stores both, a zero denominator included |
| Rational.Rational.FromSigned | src/rtl/cortex-m0/math/rational.hpp:126 | rational(S x) is x/1 |
| Rational.Rational.FromUnsigned | src/rtl/cortex-m0/math/rational.hpp:128-130 | rational(U x) and rational(unsigned long long x) are static_cast<S>(x)/1 |
| Rational.Rational.AddAssign | src/rtl/cortex-m0/math/rational.hpp:152-163 | += stores the normalized cross sum over the product of denominators |
| Rational.Rational.AddAssignInt | src/rtl/cortex-m0/math/rational.hpp:165-176 | += S stores normalize(p + q * rhs, q) |
| Rational.Rational.SubAssign | src/rtl/cortex-m0/math/rational.hpp:183-194 | -= stores the normalized cross difference |
| Rational.Rational.SubAssignInt | src/rtl/cortex-m0/math/rational.hpp:196-207 | -= S stores normalize(p - q * rhs, q) |
| Rational.Rational.MulAssign | src/rtl/cortex-m0/math/rational.hpp:214-224 | *= stores the normalized products |
| Rational.Rational.MulAssignInt | src/rtl/cortex-m0/math/rational.hpp:226-236 | *= S stores normalize(p * rhs, q) |
| Rational.Rational.DivAssign | src/rtl/cortex-m0/math/rational.hpp:243-253 | /= as written: the denominator q * rhs.p is formed in UD, so a negative rhs.p wraps |
| Rational.Rational.DivAssignInt | src/rtl/cortex-m0/math/rational.hpp:255-265 | /= S as written: q * rhs is reduced modulo 2^(2W) |
| Rational.Rational.DivAssignSigned | src/rtl/cortex-m0/math/rational.hpp:243-253 | division with the divisor's sign moved to the numerator, as the operator evidently intends |
| Rational.Rational.Add | src/rtl/cortex-m0/math/rational.hpp:178-181 | operator+ returns what += would store, and leaves *this alone |
| Rational.Rational.Sub | src/rtl/cortex-m0/math/rational.hpp:209-212 | operator- returns what -= would store |
| Rational.Rational.Mul | src/rtl/cortex-m0/math/rational.hpp:238-241 | operator* returns what *= would store |
| Rational.Rational.Div | src/rtl/cortex-m0/math/rational.hpp:267-270 | operator/ returns what /= would store |
| Rational.SignedQuotientFits | src/rtl/cortex-m0/math/rational.hpp:244-245 | with the sign moved, the quotient's numerator fits SD and its denominator UD |
| Rational.SumValue | src/rtl/cortex-m0/math/rational.hpp:152-163 | when normalize need not halve, += adds exactly |
| Rational.DifferenceValue | src/rtl/cortex-m0/math/rational.hpp:183-194 | when normalize need not halve, -= subtracts exactly |
| Rational.ProductValue | src/rtl/cortex-m0/math/rational.hpp:214-224 | when normalize need not halve, *= multiplies exactly |
| Rational.QuotientValue | src/rtl/cortex-m0/math/rational.hpp:243-253 | as written, /= divides exactly by a positive divisor |
| Rational.QuotientDenominatorPositive | src/rtl/cortex-m0/math/rational.hpp:245 | for a positive divisor the UD denominator product does not wrap |
| Rational.DivideByNegativeLosesSign | src/rtl/cortex-m0/math/rational.hpp:243-253 | as written, a positive value divided by a negative one comes out non-negative, while the true quotient is negative |
| Rational.DivideByMinusOne | src/rtl/cortex-m0/math/rational.hpp:243-253 | r16 1 /= -1 forms the denominator 2^32 - 1 and normalizes to 0/65535 instead of -1 |
| Rational.SignedQuotientValue | src/rtl/cortex-m0/math/rational.hpp:243-253 | with the sign moved to the numerator, division is exact for every nonzero divisor |
| Bitflags.Or | src/rtl/bitflags.hpp:14-19 | the enumerator operator\| returns includes every bit of both operands |
| Bitflags.OrLeast | src/rtl/bitflags.hpp:14-19 | and it is the least value that does |
| Bitflags.OrCommutes | src/rtl/bitflags.hpp:14-19 | the operands can be swapped |
| Bitflags.OrAssociates | src/rtl/bitflags.hpp:14-19 | the grouping of a chain of \| does not matter |
| Bitflags.OrIdempotent | src/rtl/bitflags.hpp:14-19 | a flag ORed with itself is unchanged |
| Bitflags.OrAbsorbs | src/rtl/bitflags.hpp:21-24 | ORing in a flag already present changes nothing, so a repeated \|= is idempotent |
| Bitflags.FlagsVar.constructor | src/rtl/bitflags.hpp:22 | a variable of an opted-in enumeration holds its value |
| Bitflags.FlagsVar.OrAssign | src/rtl/bitflags.hpp:21-24 | operator\|= assigns lhs \| rhs and returns the new value |
| Memory.Copied | src/rtl/cortex-m0/stdlib.cpp:8-10 | the forward copy changes no byte count of memory |
| Memory.CopiedDisjoint | src/rtl/cortex-m0/stdlib.cpp:3-13 | for regions that do not overlap, the destination holds the old source bytes and nothing else changes |
| Memory.CopiedSmears | src/rtl/cortex-m0/stdlib.cpp:8-10 | copying to one past the source smears the first source byte over the whole destination |
| Memory.CopiedKeepsBelow | src/rtl/cortex-m0/stdlib.cpp:8-10 | bytes below the destination are never touched |
| Memory.Memcpy | src/rtl/cortex-m0/stdlib.cpp:3-13 | the loop leaves memory as n forward byte steps do, and returns the destination |
| Registers.RegisterFile.constructor | src/rtl/mmio.hpp:35 | the bank holds the given words |
| Registers.RegisterFile.WriteMasked | src/rtl/mmio.hpp:66-74 | write<mask>(bits) on one word: aborts with the assertion trace exactly when asserts are on and bits stray outside the mask, otherwise replaces the masked bits and changes no other word |
| Registers.RegisterFile.ClearMasked | src/rtl/mmio.hpp:40-42 | clear<mask>() clears exactly the masked bits of one word |
| Registers.RegisterFile.SetMasked | src/rtl/mmio.hpp:52-54 | set<mask>() sets exactly the masked bits of one word |
| Registers.RegisterFile.Store | src/rtl/mmio.hpp:45-59 | clear() and set() store a whole word and nothing else |
| Registers.RegisterFile.Read | src/rtl/mmio.hpp:92-94 | read() returns the word and changes nothing |
| HalDigitalIo.Drive | src/hal/digital_io.hpp:39-45 | drive(level) makes exactly one call: drive_low exactly for low, drive_high exactly for high |
| HalDigitalIo.DriveRequestsLevel | src/hal/digital_io.hpp:31-45 | the call drive makes establishes the level asked for |
| DigitalIo.PortOf | src/hal/lpc1100/digital_io.hpp:91-132 | every pin of the table sits in one of the four GPIO ports |
| DigitalIo.PortNumber | src/hal/lpc1100/digital_io.hpp:91-132 | every pin's port_no is below 12 |
| DigitalIo.TableFollowsNames | src/hal/lpc1100/digital_io.hpp:91-132 | PIOn_k uses port n's block at 0x50000000 + n * 0x10000 and port_no k |
| DigitalIo.PortMaskBound | src/hal/lpc1100/digital_io.hpp:43-46 | port_mask = 1 << port_no lies between 1 and 2048 |
| DigitalIo.DataInBlock | src/hal/lpc1100/digital_io.hpp:45-46 | a pin's data register lies inside its port's block, below the DIR register at +0x8000 |
| DigitalIo.DataDistinct | src/hal/lpc1100/digital_io.hpp:45-46 | distinct pins have distinct data registers, and two pins share a DIR register exactly when they share a port |
| DigitalIo.GpioNotIocon | src/hal/lpc1100/digital_io.hpp:45-46 | no GPIO register coincides with an IOCON register |
| DigitalIo.DriveReadsBack | src/hal/lpc1100/digital_io.hpp:38-70 | reading a pin after driving it gives the level driven |
| DigitalIo.DigitalInput.constructor | src/hal/lpc1100/digital_io.hpp:33-36 | configures the pin as a GPIO input and then clears only its DIR bit; an I2C pin asked for hysteresis trips the IOCON write's assertion and changes nothing |
| DigitalIo.DigitalInput.State | src/hal/lpc1100/digital_io.hpp:38-40 | state() is high exactly when the data register reads nonzero |
| DigitalIo.DigitalOutput.constructor | src/hal/lpc1100/digital_io.hpp:58-62 | for every pin but the input-only I2C pins: IOCON set to the GPIO function, the initial level driven, then only the pin's DIR bit set |
| DigitalIo.DigitalOutput.DriveLow | src/hal/lpc1100/digital_io.hpp:64-66 | drive_low() clears the data register and nothing else |
| DigitalIo.DigitalOutput.DriveHigh | src/hal/lpc1100/digital_io.hpp:68-70 | drive_high() sets every bit of the data register and nothing else |
| DigitalIo.DigitalOutput.Drive | src/hal/digital_io.hpp:39-45 | drive(level) stores what drive_low or drive_high stores for that level |
| PhysicalIo.Index | src/hal/lpc1100/physical_io.hpp:12-55 | each pin's enumerator value is below 42 |
| PhysicalIo.IndexRoundTrip | src/hal/lpc1100/physical_io.hpp:12-55 | the enumerator value identifies its pin |
| PhysicalIo.IndexInjective | src/hal/lpc1100/physical_io.hpp:12-55 | no two pins share an enumerator value |
| PhysicalIo.IoconOffset | src/hal/lpc1100/physical_io.hpp:77-1489 | each pin's IOCON register is at a word offset no higher than 0xAC |
| PhysicalIo.IoconAddress | src/hal/lpc1100/physical_io.hpp:108 | iocon_ptr is word-aligned within 0x40044000-0x400440AC |
| PhysicalIo.IoconRoundTrip | src/hal/lpc1100/physical_io.hpp:77-1489 | the IOCON offset identifies its pin |
| PhysicalIo.IoconDistinct | src/hal/lpc1100/physical_io.hpp:77-1489 | no two pins share an IOCON register |
| PhysicalIo.GpioFunction | src/hal/lpc1100/physical_io.hpp:79-81 | the gpio function code of every pin is 0b000 or 0b001 |
| PhysicalIo.TerminationBits | src/hal/lpc1100/physical_io.hpp:60-65 | the termination values occupy only bits 4:3 |
| PhysicalIo.InputOptionBits | src/hal/lpc1100/physical_io.hpp:67-70 | the hysteresis option occupies only bit 5 |
| PhysicalIo.InputFits | src/hal/lpc1100/physical_io.hpp:88-96 | on every pin but the I2C pins the input write lies within 0b111111, so its assertion cannot fire |
| PhysicalIo.I2cInputFits | src/hal/lpc1100/physical_io.hpp:228-236 | on the I2C pins the write lies within 0b1100000111 exactly when hysteresis is not asked for |
| PhysicalIo.I2cInputMode | src/hal/lpc1100/physical_io.hpp:228-236 | that write sets the I2C mode field to 0b01 and keeps every bit outside the mask |
| PhysicalIo.OutputFits | src/hal/lpc1100/physical_io.hpp:98-105 | the output write lies within 0b111 and changes only bits 2:0 |
| PhysicalIo.ConfigureInput | src/hal/lpc1100/physical_io.hpp:88-96 | one masked write to the pin's IOCON register and nothing else; it aborts exactly on an I2C pin with hysteresis and asserts enabled |
| PhysicalIo.ConfigureOutput | src/hal/lpc1100/physical_io.hpp:98-105 | the function code is written under mask 0b111 to the pin's IOCON register, and no assertion fires |
| PhysicalIo.ConfigureIsolated | src/hal/lpc1100/physical_io.hpp:77-1489 | configuring one pin leaves every other pin's IOCON register as it was |
| Clock.IrcEnable | src/hal/lpc1100/clock.hpp:42-44 | PDRUNCFG bits 1:0 cleared, powering the IRC, and no other bit changed |
| Clock.IrcDisable | src/hal/lpc1100/clock.hpp:38-40 | PDRUNCFG bits 1:0 set, and no other bit changed |
| Clock.PllInHz | src/hal/lpc1100/clock.hpp:51-62 | the PLL input has a frequency exactly when SYSPLLCLKSEL bit 0 is 0, and then it is the IRC's 12 MHz |
| Clock.Latch | src/hal/lpc1100/clock.hpp:79-80 | the update register receives bit 0 written 0 and then 1, in that order |
| Clock.PllInSetSource | src/hal/lpc1100/clock.hpp:64-81 | irc or system goes into SYSPLLCLKSEL bit 0 and the latch follows; any other source trips the assertion exactly when asserts are on, and then nothing more is written |
| Clock.PllInSelectsIrc | src/hal/lpc1100/clock.hpp:51-81 | after set_source(irc), frequency() is 12 MHz |
| Clock.PllInSystemUnreachable | src/hal/lpc1100/clock.hpp:51-81 | after set_source(system), frequency() reaches unreachable |
| Clock.PllOutHz | src/hal/lpc1100/clock.hpp:86-92 | the PLL output is (MSEL + 1) times its input: a multiple of 12 MHz between 12 and 384 MHz |
| Clock.DoublingsLeast | src/hal/lpc1100/clock.hpp:105-108 | the search stops at the least p with fcco * 2^p at or above 156 MHz |
| Clock.PllSearch | src/hal/lpc1100/clock.hpp:103-108 | the loop returns that p and the doubled fcco, which is at least 156 MHz and, after any doubling, below 312 MHz |
| Clock.ControlFits | src/hal/lpc1100/clock.hpp:114 | (m - 1) \| p << 5 lies within the mask 0b111111 exactly when m - 1 < 64 and p <= 1 |
| Clock.ControlWordFits | src/hal/lpc1100/clock.hpp:114 | the same for the 32-bit value written |
| Clock.PllOutEnable | src/hal/lpc1100/clock.hpp:94-116 | m = f / 12 MHz; the P search never ends when m is 0; otherwise SYSPLLCTRL gets (m - 1) \| p << 5, aborting exactly when that strays outside 0b111111 with asserts on, and the PLL is powered up |
| Clock.PllFor48MHz | src/hal/lpc1100/clock.hpp:100-114 | for 48 MHz the search gives m = 4 and p = 1, and SYSPLLCTRL receives 0x23 within its mask |
| Clock.PllOutDisable | src/hal/lpc1100/clock.hpp:120-123 | PDRUNCFG bit 7 set, powering the PLL down |
| Clock.MainSource | src/hal/lpc1100/clock.hpp:131-146 | MAINCLKSEL[1:0] selects the IRC, the PLL input or the PLL output, with 0b10 falling through to the PLL output |
| Clock.MainSelectionReadsBack | src/hal/lpc1100/clock.hpp:131-171 | selecting irc, pll_in or pll_out reads back as that source; selecting the watchdog oscillator reads back as pll_out |
| Clock.MainSetSource | src/hal/lpc1100/clock.hpp:148-171 | the four accepted sources go into MAINCLKSEL[1:0] and the latch follows; any other trips the assertion exactly when asserts are on |
| Clock.UartHz | src/hal/lpc1100/clock.hpp:181-184 | the UART clock is the main clock divided by UARTCLKDIV[7:0], defined exactly when the divider is nonzero and the main clock has a frequency, and never above it |
| Clock.UartSetDivider | src/hal/lpc1100/clock.hpp:186-189 | a zero divider trips the assertion exactly when asserts are on and writes nothing; otherwise UARTCLKDIV[7:0] receives it |
| Clock.DividerReadsBack | src/hal/lpc1100/clock.hpp:181-189 | after set_divider(d) with d nonzero, the UART clock is the main clock divided by d |
| Clock.UartEnable | src/hal/lpc1100/clock.hpp:191-194 | the divider is set and then only SYSAHBCLKCTRL bit 12 is raised; a tripped assertion leaves both registers alone |
| Clock.UartDisable | src/hal/lpc1100/clock.hpp:196-198 | exactly SYSAHBCLKCTRL bit 12 is cleared |
| Units.TicksOfConstructed | src/rtl/units.hpp:16-20 | ticks_per_second() returns the hertz the frequency was constructed with |
| Units.NanosecondsPerTick | src/rtl/units.hpp:22-24 | the result is the period rounded down to whole nanoseconds: r * hertz <= 10^9 < (r + 1) * hertz; a zero frequency is refused, since the division would be by zero |
| Units.NoFrequency | src/rtl/units.hpp:26-28 | none() is the frequency of 0 Hz |
| Units.TimesExact | src/rtl/units.hpp:30-32 | the product of two frequencies is exact while it fits in 32 bits |
| Units.TimesWraps | src/rtl/units.hpp:30-32 | 65536 Hz times 65536 Hz wraps around to none() |
| Units.TimesCommutes | src/rtl/units.hpp:30-32 | a * b == b * a |
| Units.TimesIdentity | src/rtl/units.hpp:26-32 | 1 Hz is the identity of the product and none() absorbs it |
| Units.TimesAssociates | src/rtl/units.hpp:30-32 | the wrapped product is associative |
| Refcount.Repeat | src/rtl/refcount.hpp:10-20 | n copies of one call, as a sequence of calls |
| Refcount.ReplayConcat | src/rtl/refcount.hpp:10-20 | replaying two call sequences one after the other gives the count and the effects of replaying their concatenation |
| Refcount.AcquireMany | src/rtl/refcount.hpp:10-14 | n acquires from a count c >= 0 raise it to c + n and run Acquire once exactly when c was 0 and n > 0 |
| Refcount.ReleaseMany | src/rtl/refcount.hpp:16-20 | n releases from a count c >= n lower it to c - n and run Release once exactly when c == n and n > 0 |
| Refcount.Balanced | src/rtl/refcount.hpp:10-20 | from 0, n acquires then n releases run Acquire and then Release, once each, and return the count to 0 |
| Refcount.ReleaseUnderflows | src/rtl/refcount.hpp:16-20 | a release at count 0 leaves -1 and does not run Release |
| Refcount.Resource.constructor | src/rtl/refcount.hpp:23 | the count starts at the given value and nothing has run |
| Refcount.Resource.Acquire | src/rtl/refcount.hpp:10-14 | the count is incremented and Acquire runs exactly when it was 0 before |
| Refcount.Resource.Release | src/rtl/refcount.hpp:16-20 | the count is decremented and Release runs exactly when it is 0 after |
| Flash.ForFrequency | src/main.cpp:23-28 | below 20 MHz one clock, from 20 up to 40 MHz two clocks, from 40 MHz three clocks, each exactly on its range |
| Flash.ForFrequencyMonotonic | src/main.cpp:23-28 | a higher frequency never gets fewer access clocks |
| Flash.CodeFits | src/main.cpp:32-33 | the shifted access time lies within the FLASHTIM field |
| Flash.WithFieldKeepsOthers | src/main.cpp:31-34 | the read-modify-write keeps every bit outside FLASHTIM and puts the code inside it |
| Flash.SetAccessTime | src/main.cpp:19-35 | FLASHCFG is read once and written once, with the access time for the frequency in FLASHTIM and its other bits kept |
| Readers.FirstIndex | src/main.cpp:65-70 | the position of the first pattern byte: it holds the pattern and no earlier byte does |
| Readers.ReadAny | src/main.cpp:72-76 | every byte completes the read |
| Readers.ReadUntil.constructor | src/main.cpp:65-66 | the closure captures the buffer, the caller's counter and the pattern |
| Readers.ReadUntil.Call | src/main.cpp:66-69 | the byte is stored at buffer[length], length grows by one, and the read completes exactly when the byte is the pattern |
| Readers.ReadUntil.Drain | src/main.cpp:65-70 | over a stream holding the pattern, exactly the bytes up to and including the first pattern byte are appended at the old length, and the rest of the buffer is kept |
| Control.MatchesBytewise | src/app/control/lpc1100.cpp:61-77 | memcmp over the word's length matches exactly when each of the word's bytes equals the keyword's (NUL included) at the same position |
| Control.EmptyMatches | src/app/control/lpc1100.cpp:61-77 | a zero-length word matches every keyword |
| Control.AbbreviatedLow | src/app/control/lpc1100.cpp:60-66 | the word "lo" drives the output low |
| Control.LowTakesPrecedence | src/app/control/lpc1100.cpp:60-66 | a word matching both "low" and "high" drives low |
| Control.BothOnlyEmpty | src/app/control/lpc1100.cpp:60-66 | only the empty word matches both "low" and "high" |
| Control.EmptyCommandInits | src/app/control/lpc1100.cpp:68-80 | a command whose first two words are empty stops at "init" and has no effect |
| Control.EmptyLevelDrivesLow | src/app/control/lpc1100.cpp:60-66 | an empty level word drives low |
| Control.HandlerCommands | src/app/control/lpc1100.cpp:60-80 | a command drives low exactly when its words match "digital_output", "drive" (not "init") and "low"; it drives high exactly when the last matches "high" and not "low"; otherwise it has no effect |
| Control.CountIgnored | src/app/control/lpc1100.cpp:60-80 | the word count never changes the outcome |
| Control.Handle | src/app/control/lpc1100.cpp:58-80 | the global PIO0_8 output's data register gets the level the command selects, and nothing changes when the command selects none |

## Left out

- Wait loops: the `wfi` loops of `waitable.hpp` (`src/rtl/waitable.hpp:52-59`) and the PLL lock spin (`src/hal/lpc1100/clock.hpp:117`). A wait is modelled as a sequence of explicit interrupt calls until the waitable leaves pending.
- Interrupt control: `cpsie`/`cpsid`/`non_preemptible`, NVIC enabling and DSB/ISB, and the vector table. These are assembly and concurrency. Interrupts are sequential method calls here, and the UART constructors' and destructors' NVIC enabling is not modelled.
- Register volatility, access ordering and hardware side effects. Registers are plain cells, the peripheral is abstract, and the `LPC_SYSCON`/`LPC_UART` pokes of `configure_uart` keep only their arithmetic.
- UART pin members (`src/hal/lpc1100/uart.hpp:20-23`): they name pin options that `physical_io.hpp` never defines.
- The `FLASHCFG_*` constants come from a header that is not part of this model. They are parameters: a field mask and three field codes.
- GPIO masked-address aliasing: the LPC1100 maps many addresses onto the same data register, but each data address here is its own cell.
- `rtl::quantity` is not part of this model. Clock frequencies are exact, unbounded counts of hertz.
- Clock.UartHz: `clock<uart>::frequency()` divides by UARTCLKDIV[7:0] (`src/hal/lpc1100/clock.hpp:183`), and a zero divider is undefined behaviour in C++. The model reports no frequency for it instead.
- The system oscillator and `rtl::unreachable`. A clock source that reaches `unreachable` is reported as having no frequency.
- `member_function<T>` (`src/rtl/functional.hpp:27-30`): it is a cast of the context back to an object pointer. The bridge calls any function value of the caller's choosing instead.
- `is_bitflags` is a compile-time opt-in. The model applies the operators to any flag type.
- Floating point in `rtl::rational`: the float and double constructors and `convergent_approximation` (`src/rtl/cortex-m0/math/rational.hpp:102-118, 365-395`). The width-converting constructor's shift loop is also left out.
- Signed overflow in `rtl::rational` is undefined behaviour in C++. The operators require that the double-width products fit (unsigned arithmetic wraps explicitly).
- Refcount.Resource.Acquire: the `int` count is unbounded here, so the overflow after 2^31 - 1 acquires is not modelled.
- Control.Matches: a word longer than the keyword and its NUL makes `memcmp` read past the literal, which is undefined. The model counts it as no match.
- Session: the transport `T` of the three test drivers is an abstract byte stream (reads from a list, writes to a log), and the test handler's own effect is not modelled.
- The UART send side needs n/16 + 1 interrupts for n bytes, counting in integers: 16 bytes take 2 and 0 bytes take 1. This follows the code of `src/hal/lpc1100/uart.hpp:144-153`. The one-extra-interrupt "finishing" step holds on every input, including when the last block fills the FIFO exactly.
- Format and Debug: `rtl::i64` is `uint64_t` (`src/rtl/base.hpp:30`), so the negative branch of `format_int`/`write_int` is dead. A negative argument is taken modulo 2^64.
- SimpleJson: the destination buffer needs `size() + 1` bytes, and the JSON driver's 256-byte buffer is an explicit precondition, since nothing in the code checks it.
- Application entry points: the `main()` bodies, `assert_signal`, the `#if 0` tokenizer of `src/app/control/lpc1100.cpp:96-133`, the LED-matrix application and the breadboard test board. They are bring-up glue, dead code or depend on electrical behaviour.
- The host-side Ruby test scripts: serial-port and YAML plumbing. Only the hardware test's expected vectors for the register algebra are restated, as `MmioBoard.HardwareVectors`.

## Findings

| source | as written | input that shows it | evidently intended | confidence | as-written member | corrected member |
|---|---|---|---|---|---|---|
| src/rtl/mmio.hpp:80-82 | `safe_write<M>(b)` calls `write(b & M)`; with one argument that is the unmasked overload `write(T)`, which overwrites the whole register | register 0xFFFFFFFF, mask 0x0000FFFF, b = 0: as written the result is 0 | `write<M>(b & M)`: bits outside M kept, giving 0xFFFF0000 | not executed | Mmio.Register.SafeWriteAsWritten, MmioBoard.SafeWriteAsWrittenDiffers | Mmio.Register.SafeWrite |
| src/rtl/buffer.hpp:51-72 | the cursors pass the byte offset `position * sizeof(T)` to `get<T>`/`put<T>`, which index in elements of T | a buffer of two 2-byte elements: after one read, position 1 is not the end, yet the next read indexes element 2, past the last | element index `position` | not executed | Buffer.LinearReader.Read, Buffer.CursorOverruns | Buffer.LinearReader.ReadIntended, Buffer.LinearWriter.WriteIntended |
| src/rtl/cortex-m0/math/rational.hpp:243-253 | `/=` forms the new denominator as `UD(q) * UD(rhs.p)`, so a negative `rhs.p` wraps to a large unsigned value and the sign is lost | 16-bit rational 1 /= -1: the denominator becomes 2^32 - 1 and the result normalizes to 0/65535 | move the divisor's sign to the numerator: 1 / -1 = -1 | not executed | Rational.Rational.DivAssign, Rational.DivideByNegativeLosesSign, Rational.DivideByMinusOne | Rational.Rational.DivAssignSigned, Rational.SignedQuotientValue |
