# Seven cores, modelled and proved

This project models seven parts of the repository in Dafny and proves what they are for. Each part
has its own modules, in the form of the source: code that updates state is a class or a method over
arrays, proved against specification functions; the theorems are lemmas about those functions.

- **Timers** (`NaiveScheduler`, `PcSystem`, `Timer*`). Bochs hides up to 64 timers behind one 32-bit
  countdown that registration and activation skew and each event rebuilds.
  `NaiveScheduler` is the obvious scheduler that scans every slot at every tick. `PcSystem` is
  Bochs's, with its wrapping arithmetic written out, and every operation is proved to do what the
  naive one does, also when callbacks register, re-arm, deactivate or unregister timers while an
  event is being delivered. `TimerRuns` is about whole runs of calls and time: firing order, no
  drift, no lost or repeated firing. `TimerCalls` says what each call of the interface means for the
  run after it, `TimerDevices` what the calls that handlers make bring about, and
  `TimerRegistration` which slots are in use.
- **Peephole optimiser** (`Words`, `Machine`, `MachineMeaning`, `Peephole*`). `Machine` is a 32-bit
  register machine whose stack words below esp have no value. `Peephole` is the rule table of one six-record window in the order
  in which the code tries its rules; `PeepholeRules` and `PeepholeSound` prove each rule and then
  every window; `PeepholePass` lifts this to a pass over a trace of any length, `PeepholeTermination`
  gives the measure, `PeepholeCode` is the code in place. `PeepholeTable` states the rules a second
  time, each by itself, and proves that the code applies the first one that matches;
  `PeepholeNormal` draws the conclusions for a round and for the loop. "Preserves" means: whenever
  the original runs, the result runs and agrees on registers, esp and every stack word that has a value. Some
  rules need a condition that the code does not test; `Peephole.Safe` states it, and
  `PeepholeExact.RewriteIsExact`, over `PeepholeExactMoves` and `PeepholeExactStack`, proves it exact
  on every window whose records the machine can run.
- **CRC-32** (`Words`, `Crc32`, `CrcErrors`, `CrcPolynomial`, `CrcMessage`). The lazily built byte
  table against bit-serial division, and the algebra: linearity, burst detection, residue, and the
  checksum as the unique remainder of polynomial division by the generator of section 3.2.9 of
  IEEE 802.3, which is written out; `CrcMessage` says what is divided in the bits of the message.
- **Intrusive queues** (`LinkCells`, `TailQueue`, `SimpleQueue`). A link cell stands for a head as well as for an
  element's link field, which is the layout pun of the reverse traversal.
- **BIOS checksum fixer** (`Bios*`). Five in-place repairs and the image checksum on one 64 KiB array;
  when they do, and do not, disturb each other. `BiosLayout` states the results on the bytes of the
  image, with the layout of the five structures written out.
- **Argz vectors** (`Argz`, `ArgzMeaning`, `ArgzOrder`). Split, iterate, join and ordered insertion on
  packed bytes, and the laws that determine them.
- **Virtual time** (`Clocks`, `SmpClock`). Sequential microseconds, SMP tick accounting, clock widening.

`Wrappers`, `Arithmetic` and `Sequences` hold what several parts share. `dafny verify dfyconfig.toml`
checks everything.

## What turned out false of the code

- Fifteen peephole rules are applied in cases in which they change what the trace does
  (`PeepholeExact.ConditionsMatter` has a window for each); the exact conditions are
  `PeepholeExact.RewriteIsExact`. Notably the displacement of `[esp+d]` is not tested when a push or a
  reservation absorbs the store behind it (xvmdebugframe.cpp:1302-1304, 1814-1815), and of the
  constant in `sub esp, n` only 16 bits are (1813).
- The removal of `xchg a, a` is not counted, so the clean-up loop can stop before its fixpoint
  (`PeepholeCode.LoopCanStopEarly`).
- `register_timer_ticks` fails whenever the bound is 64, even if an earlier slot is free
  (`TimerRegistration.FreeSlotIsNotFound`).
- A timer that is due in the same tick as an earlier slot is still called when the handler of that slot
  deactivates it (`TimerDevices.DeactivationIsTooLate`), but, if it is one-shot, not when it
  unregisters it (`TimerDevices.RemovalIsNot`).
- `activate_timer_ticks` accepts a slot that is not in use, and then an active slot need not be in use
  (`TimerRegistration.CarefulExactly`, `TimerRegistration.UnusedSlotActivated`).
- `argz_create_sep` stores an extra empty entry for a string that is empty or ends in the delimiter
  (`Argz.EmptyEntryExactly`), against its comment that folds delimiters; `argz_stringify` leaves the
  vector when it has fewer than two bytes (`Argz.Stringify`).
- `biossums` can undo its own repair when one structure's checksum byte lies inside another that was
  repaired earlier (`BiosOverlap.RepairInsideUndoes`; exactly when: `BiosExact.StructureSumsToDrift`);
  a second run can then change the file, or stop with an error (`BiosOverlap.SecondRunRepairsAgain`,
  `BiosOverlap.SecondRunStops`; exactly when: `BiosExact.SecondRunExactly`,
  `BiosExact.SecondRunSucceedsExactly`).
- The SMP loop loses instructions when its 32-bit counter wraps (`SmpClock.CounterWraps`; exactly when:
  `SmpClock.LosesNothingExactly`) and when a trace's own count does not fit its cast to 32 bits
  (`SmpClock.CastDropsInstructions`; exactly when: `SmpClock.CastLosesNothingExactly`).
- The widened Windows clock falls behind when it is not read for 2^32 ms (`Clocks.RealtimeIsExact`).

## Model

| member | source | states |
|---|---|---|
| `PcSystem.Scheduler.TickN` | bochs/bochs-20171124/pc_system.h:111-121 | `tickn(n)` ends in the state the naive scheduler reaches by scanning every timer at each of the n ticks: same table, clock, device state and log of handler calls |
| `PcSystem.Scheduler.Tick1` | bochs/bochs-20171124/pc_system.h:106-110 | `tick1` is one naive tick |
| `PcSystem.Scheduler.RunDown` | bochs/bochs-20171124/pc_system.h:112-117 | exhausting the countdown and delivering the event equals that many naive ticks; the countdown is positive again, so the loop of `tickn` ends |
| `PcSystem.Scheduler.SpendRest` | bochs/bochs-20171124/pc_system.h:118-120 | lowering a countdown that stays positive equals that many naive ticks |
| `PcSystem.Scheduler.CountdownEvent` | bochs/bochs-20171124/pc_system.cc:321-385 | one event equals the naive scan of all 64 slots and delivery in slot order, although callbacks re-enter the interface and skew the rebuilt countdown |
| `PcSystem.Scheduler.ScanTimers` | bochs/bochs-20171124/pc_system.cc:337-374 | the scan advances exactly the due timers, marks them, and rebuilds a countdown that no active timer is due before |
| `PcSystem.Scheduler.ScanSlot` | bochs/bochs-20171124/pc_system.cc:341-367 | one slot: fired and advanced, fired and deactivated, or kept, and the running minimum |
| `PcSystem.Scheduler.DeliverSlot` | bochs/bochs-20171124/pc_system.cc:376-384 | one slot of the delivery loop, reading the handler at call time |
| `PcSystem.Scheduler.CallHandler` | bochs/bochs-20171124/pc_system.cc:380-382 | a handler that performs any legal sequence of calls does to the fast form what it does to the naive one |
| `PcSystem.Scheduler.RegisterTimerTicks` | bochs/bochs-20171124/pc_system.cc:261-319 | registration is the naive registration: clamped period, first free slot, -1 exactly when the bound is 64; the clock is not disturbed by the skew |
| `PcSystem.Scheduler.FindFreeSlot` | bochs/bochs-20171124/pc_system.cc:274-278 | the search loop finds the first slot not in use below the bound, or the bound |
| `PcSystem.Scheduler.Skew` | bochs/bochs-20171124/pc_system.cc:302-310 | the countdown becomes the smaller of itself and the new delay while elapsed time stays the same |
| `PcSystem.Scheduler.ActivateTimerTicks` | bochs/bochs-20171124/pc_system.cc:473-505 | activation is the naive activation and never changes what `time_ticks` reads |
| `PcSystem.Scheduler.DeactivateTimer` | bochs/bochs-20171124/pc_system.cc:562-572 | deactivation is the naive one and keeps the invariant |
| `PcSystem.Scheduler.UnregisterTimer` | bochs/bochs-20171124/pc_system.cc:574-602 | fails exactly on an active timer; otherwise frees the slot and lowers the bound when it was the last |
| `PcSystem.Scheduler.SetTimerParam` | bochs/bochs-20171124/pc_system.cc:604-611 | only the parameter of the slot changes |
| `PcSystem.Scheduler.constructor` | bochs/bochs-20171124/pc_system.cc:41-76 | the initial state is that of the naive scheduler |
| `PcSystem.Scheduler.CountdownIsSafe` | bochs/bochs-20171124/pc_system.h:61-70 | in every state: no active timer is due before the end of the countdown, every active or used slot is below the bound, the null timer is active and due within 2^32 - 1 ticks |
| `PcSystem.Scheduler.TimeIsExact` | bochs/bochs-20171124/pc_system.h:130-133 | the wrapping arithmetic of `time_ticks` loses nothing under the invariant |
| `NaiveScheduler.ApplyKeepsValid` | bochs/bochs-20171124/pc_system.cc:261-319 | every legal interface call keeps the timer table in order and the clock unchanged |
| `NaiveScheduler.ApplyAllKeepsValid` | bochs/bochs-20171124/pc_system.cc:376-384 | so does any sequence of calls made by a callback |
| `NaiveScheduler.TicksCompose` | bochs/bochs-20171124/pc_system.h:111-121 | a + b ticks are a ticks and then b ticks: same state, same log |
| `NaiveScheduler.QuietTicks` | bochs/bochs-20171124/pc_system.h:118-120 | while no timer is due, ticks change nothing but the clock |
| `NaiveScheduler.EventAfterQuiet` | bochs/bochs-20171124/pc_system.h:111-117 | c ticks of which only the last can have timers due are one event at the time of the last |
| `TimerRuns.Drive` | bochs/bochs-20171124/pc_system.cc:261-385 | over every run of interface calls and stretches of time the two schedulers stay in step |
| `TimerRegistration.RegistrationIsFresh` | bochs/bochs-20171124/pc_system.cc:274-283 | registration never hands out a slot in use, and fails exactly when the bound is 64 |
| `TimerRegistration.FreeSlotIsNotFound` | bochs/bochs-20171124/pc_system.cc:280-283 | 63 registrations and the removal of the fifth are a legal run that ends with slot 5 free and registration failing |
| `TimerRegistration.CarefulExactly` | bochs/bochs-20171124/pc_system.cc:473-505 | a call keeps every active slot in use if and only if it does not activate a slot that is not in use, which the interface accepts |
| `TimerRegistration.ActiveImpliesInUse` | bochs/bochs-20171124/pc_system.cc:473-505 | in every run in which neither the caller nor a callback does that, active implies in use |
| `TimerRegistration.UnusedSlotActivated` | bochs/bochs-20171124/pc_system.cc:473-505 | a timer unregistered and then activated is active without being in use, and registration hands out its slot |
| `TimerRuns.InitialIsValid` | bochs/bochs-20171124/pc_system.cc:50-66 | the initial table satisfies the invariant |
| `TimerRuns.RunFiresInOrder` | bochs/bochs-20171124/pc_system.cc:376-384 | over any run of interface calls and stretches of time handlers are called in strictly increasing (time, slot) order, and the clock advances by exactly the ticks requested |
| `TimerRuns.FromTheStart` | bochs/bochs-20171124/pc_system.cc:376-384 | in particular over every run from the initial state |
| `TimerRuns.LeftAloneInRun` | bochs/bochs-20171124/pc_system.cc:347-359 | state and firing times of a continuous timer that a run leaves alone, while other timers are registered, re-armed and removed between and during events |
| `TimerRuns.ContinuousTimerNeverDrifts` | bochs/bochs-20171124/pc_system.cc:355-359 | it fires exactly at its due time and every period after, as often as fits, with no drift |
| `TimerRuns.ActivatedTimerFiresOnSchedule` | bochs/bochs-20171124/pc_system.cc:493-496 | activated at t with period p it has fired exactly n / p times when a run has taken n ticks, at t + p, t + 2p, ... |
| `TimerRuns.OneShotTimerFiresOnce` | bochs/bochs-20171124/pc_system.cc:351-353 | a one-shot timer that a run leaves alone fires once, on time, and is then inactive |
| `TimerDevices.LoneTimerTick` | bochs/bochs-20171124/pc_system.cc:376-384 | a tick at which one timer is due: it is re-armed or disarmed, its device is shown that state with the timer as the triggered one, and the calls it returns are performed |
| `TimerDevices.CallsCompose` | bochs/bochs-20171124/pc_system.cc:376-384 | the calls of a handler are performed one after the other |
| `TimerDevices.SelfRearmingTimer` | bochs/bochs-20171124/pc_system.cc:376-384 | a one-shot timer activated with q whose handler, told which timer has triggered, activates that timer again with q after any other calls fires q, 2q, 3q, ... ticks later, n / q times when a run has taken n ticks |
| `TimerDevices.LaterTimerIsStopped` | bochs/bochs-20171124/pc_system.cc:376-384 | a handler that deactivates a timer due later stops it: over a run it never fires, and it is inactive once the first timer has fired |
| `TimerDevices.DeactivationIsTooLate` | bochs/bochs-20171124/pc_system.cc:341-384 | of two timers due at the same tick the later slot is called although the handler of the earlier one deactivates it |
| `TimerDevices.RemovalIsNot` | bochs/bochs-20171124/pc_system.cc:376-384 | a one-shot timer is not called if that handler unregisters it, which takes its function away before the delivery loop reads it |
| `TimerDevices.SuchDevicesExist` | bochs/bochs-20171124/pc_system.cc:376-384 | devices as the rows above ask for exist for any two slots other than 0 |
| `TimerDevices.DevicesActInTurn` | bochs/bochs-20171124/pc_system.cc:380-382 | when every device appends its number, the slot it is told has triggered and the time it is shown to the device state, that state lists over any run exactly what the log says was called |
| `TimerCalls.RegistrationTakesFirstFree` | bochs/bochs-20171124/pc_system.cc:261-319 | registration takes the first slot that is not in use and writes there exactly what was asked for, 0 ticks counting as 1; nothing happens at bound 64 |
| `TimerCalls.RegisteredTimerFires` | bochs/bochs-20171124/pc_system.cc:261-319 | from its registration on, a timer left alone over a run of n ticks has fired n / q times if continuous, once if one-shot and q ticks have passed, never if inactive, at the stated times |
| `TimerCalls.ActivatedTimerFires` | bochs/bochs-20171124/pc_system.cc:473-505 | the same from an activation, continuous or one-shot |
| `TimerCalls.DeactivatedTimerIsSilent` | bochs/bochs-20171124/pc_system.cc:562-572 | a deactivated timer left alone does not fire over any run and stays inactive and in use |
| `TimerCalls.OneSlotChanges` | bochs/bochs-20171124/pc_system.cc:473-611 | activation, deactivation and setting a parameter change nothing but the stated fields of one slot |
| `TimerCalls.RemovalFreesTheSlot` | bochs/bochs-20171124/pc_system.cc:574-602 | removal is refused while the timer is active; otherwise the slot is free, has no function, and the bound drops by one exactly when it was the last slot |
| `TimerCalls.RemovalUndoesRegistration` | bochs/bochs-20171124/pc_system.cc:261-602 | registering and removing leaves the slots in use as they were, and the next registration gets the same slot; the bound drops if the slot was the last one below it |
| `TimerCalls.RemovedTimerIsGone` | bochs/bochs-20171124/pc_system.cc:574-602 | a removed timer never fires again as long as nothing is registered, even if its slot is activated |
| `TimerCalls.NullTimerNeverStops` | bochs/bochs-20171124/pc_system.cc:38-66 | over every run from the initial state that does not set its parameter, the null timer fires exactly every 4294967295 ticks |
| `Crc32.Crc32Code.Crc32` | bochs/bochs-20171124/crc.cc:53-65 | the table-driven loop returns the complement of bit-serial division by 0x04C11DB7 started at all ones, on every buffer and from every lazily built state |
| `Crc32.Crc32Code.InitCrc32` | bochs/bochs-20171124/crc.cc:41-51 | the nested loops fill entry i with eight register shifts of i << 24 |
| `Crc32.EntryOneIsSet` | bochs/bochs-20171124/crc.cc:58-59 | entry 1 of the built table is not zero, so the lazy test never rebuilds and never skips |
| `Crc32.ByteStepIsFeed` | bochs/bochs-20171124/crc.cc:63 | one table step equals eight bit-serial steps |
| `Crc32.ShiftNInjective` | bochs/bochs-20171124/crc.cc:46-49 | register shifts are injective |
| `Crc32.RegisterConcat` | bochs/bochs-20171124/crc.cc:61-63 | the register after a concatenation is the register of the second part started from that of the first |
| `CrcErrors.RegisterIsInjective` | bochs/bochs-20171124/crc.cc:61-63 | for a fixed message different registers never meet |
| `CrcErrors.BurstIsDetected` | bochs/bochs-20171124/crc.cc:61-64 | messages that differ only within four consecutive bytes always have different checksums |
| `CrcErrors.BitBurstIsDetected` | bochs/bochs-20171124/crc.cc:61-64 | so does every error pattern that is confined to 32 consecutive bits, wherever they lie |
| `CrcErrors.ChecksumOfChecked` | bochs/bochs-20171124/crc.cc:61-64 | a message followed by its checksum, most significant byte first, has one fixed checksum: that of four zero bytes |
| `CrcErrors.RegisterIsLinear` | bochs/bochs-20171124/crc.cc:46-49 | the register is linear in start value and message together |
| `CrcErrors.DetectionDependsOnThePattern` | bochs/bochs-20171124/crc.cc:61-64 | an error goes undetected exactly when its pattern alone leaves a zero register |
| `CrcPolynomial.StepIsReduction` | bochs/bochs-20171124/crc.cc:48 | a register step is multiplication by x, with x^32 + x^26 + x^23 + x^22 + x^16 + x^12 + x^11 + x^10 + x^8 + x^7 + x^5 + x^4 + x^2 + x + 1 subtracted when x^32 appears |
| `CrcPolynomial.GeneratorExactly` | bochs/bochs-20171124/crc.cc:39-39 | the constant of the source is that polynomial, exponent by exponent |
| `CrcPolynomial.RegisterIsARemainder` | bochs/bochs-20171124/crc.cc:61-63 | message polynomial times x^32 plus the shifted start value equals quotient times generator plus register |
| `CrcPolynomial.RemainderIsUnique` | bochs/bochs-20171124/crc.cc:39-39 | a remainder of degree below 32 is unique |
| `CrcPolynomial.CrcIsTheRemainder` | bochs/bochs-20171124/crc.cc:61-64 | the checksum is the complement of the one remainder there is |
| `CrcMessage.MessageBitsAt` | bochs/bochs-20171124/crc.cc:62-63 | the message is taken in byte by byte, most significant bit first |
| `CrcMessage.DividendExactly` | bochs/bochs-20171124/crc.cc:61-63 | what is divided, bit by bit: the message and 32 zero bits, with the first 32 bits complemented |
| `CrcMessage.ChecksumExactly` | bochs/bochs-20171124/crc.cc:61-64 | a word is the checksum if and only if its complement, put at the end of that, makes it a multiple of the generator |
| `CrcMessage.ProductOfPower` | bochs/bochs-20171124/crc.cc:39-39 | the multiples are sums of shifts of the fifteen exponents |
| `CrcMessage.KnownChecksum` | bochs/bochs-20171124/crc.cc:53-65 | the checksum of the one byte 0xFE is 0x04C11D48 |
| `PeepholeSound.WindowSound` | 32076/第5章/相关源代码/xvmdebugframe.cpp:1163-2261 | for every window and whichever rule matches first, the patched records do at least what the original ones did: same registers, esp and live stack words, under the rule's side condition |
| `PeepholeTable.RewriteByTable` | 32076/第5章/相关源代码/xvmdebugframe.cpp:1163-2261 | independent of the order of the code: a table gives for each rule the instructions it looks for and the records it leaves; on every window the first rule of the table that matches is applied, and none exactly when none matches |
| `PeepholeNormal.FoldsExactly` | 32076/第5章/相关源代码/xvmdebugframe.cpp:1890-2006 | the folded constants: sums, differences, negation, and for and, or, xor, not every bit by itself |
| `PeepholeNormal.FoldedAnd` | 32076/第5章/相关源代码/xvmdebugframe.cpp:1927-1939 | mov eax, 6; and eax, 3 becomes mov eax, 2 |
| `Words.BitsOfAnd` | 32076/第5章/相关源代码/xvmdebugframe.cpp:1927-1939 | bit i of a and b is set if and only if it is set in both |
| `Words.BitsOfOr` | 32076/第5章/相关源代码/xvmdebugframe.cpp:1941-1953 | bit i of a or b is set if and only if it is set in one of them |
| `Words.BitsOfXor` | 32076/第5章/相关源代码/xvmdebugframe.cpp:1899-1911 | bit i of a xor b is set if and only if it is set in exactly one of them |
| `Words.BitsOfNot` | 32076/第5章/相关源代码/xvmdebugframe.cpp:1981-1992 | each of the 32 bits is complemented |
| `Words.BitIsDigit` | 32076/第5章/相关源代码/xvmdebugframe.cpp:1899-1992 | these bits are the binary digits of the number |
| `MachineMeaning.BitsExactly` | 32076/第5章/相关源代码/xvmdebugframe.cpp:1899-1992 | so the bitwise instructions of the machine work on each bit |
| `MachineMeaning.SumsExactly` | 32076/第5章/相关源代码/xvmdebugframe.cpp:1913-2005 | and its sums and differences wrap at 2^32 |
| `MachineMeaning.ByteSwapExactly` | 32076/第5章/相关源代码/xvmdebugframe.cpp:1163-1172 | bswap exchanges the outer and the inner bytes |
| `MachineMeaning.OperationExactly` | 32076/第5章/相关源代码/xvmdebugframe.cpp:1163-2261 | an operation writes what it computes to its first operand and nothing else |
| `MachineMeaning.UnaryExactly` | 32076/第5章/相关源代码/xvmdebugframe.cpp:1163-2261 | so does an operation with one operand |
| `MachineMeaning.AddressExactly` | 32076/第5章/相关源代码/xvmdebugframe.cpp:2132-2170 | lea takes the address modulo 2^32 and reads no memory |
| `MachineMeaning.ConstantsWrap` | 32076/第5章/相关源代码/xvmdebugframe.cpp:1899-2005 | constants are read modulo 2^32 |
| `MachineMeaning.ExchangeExactly` | 32076/第5章/相关源代码/xvmdebugframe.cpp:1173-1262 | an exchange swaps its operands and nothing else |
| `MachineMeaning.PushExactly` | 32076/第5章/相关源代码/xvmdebugframe.cpp:1263-1762 | push puts the value on top, moves every other word one place away and lowers esp by 4 |
| `MachineMeaning.PreservationMeans` | 32076/第5章/相关源代码/xvmdebugframe.cpp:1163-2261 | what preserving a trace means for a reader of operands: the same esp, the same depth, and every register and stack word that has a value |
| `MachineMeaning.PopToStack` | 32076/第5章/相关源代码/xvmdebugframe.cpp:1263-1762 | the address of a popped memory word is computed after the stack pointer has moved |
| `MachineMeaning.DroppedWords` | 32076/第5章/相关源代码/xvmdebugframe.cpp:1766-1829 | adding to esp drops words |
| `MachineMeaning.RoomForWords` | 32076/第5章/相关源代码/xvmdebugframe.cpp:1797-1829 | subtracting from esp makes room for words without a value |
| `MachineMeaning.PopExactly` | 32076/第5章/相关源代码/xvmdebugframe.cpp:1263-1762 | a pop into a register takes the value and undoes what the push did to the stack |
| `PeepholePass.StepPreserves` | 32076/第5章/相关源代码/xvmdebugframe.cpp:1136-1158 | one round, on a trace with flagged records, preserves the live instructions' meaning; no rule reaches across a flagged record |
| `PeepholeNormal.WindowExactly` | 32076/第5章/相关源代码/xvmdebugframe.cpp:1136-1157 | a window is the next six records, or all that are left if two to five; there is none when one of them is flagged |
| `PeepholeNormal.RoundByTable` | 32076/第5章/相关源代码/xvmdebugframe.cpp:1136-2264 | a round writes and flags exactly the records that the first matching rule of the table says, and counts it unless it removes an exchange of an operand with itself |
| `PeepholePass.PassPreserves` | 32076/第5章/相关源代码/xvmdebugframe.cpp:1121-2266 | one pass over a trace of any length preserves what it does |
| `PeepholePass.SweepKeepsLive` | 32076/第5章/相关源代码/xvmdebugcpu.cpp:492-505 | deleting the flagged records keeps exactly the live instructions |
| `PeepholeTermination.PatchLowers` | 32076/第5章/相关源代码/xvmdebugframe.cpp:1677-1690 | every patch lowers (records, lea and mov, push before non-push) lexicographically, and in any context |
| `PeepholeTermination.CountedPassLowers` | 32076/第5章/相关源代码/xvmdebugframe.cpp:2754-2770 | a pass that counts a rewrite lowers the measure of the live trace, so the loop ends |
| `PeepholeCode.InstSequence.Gather` | 32076/第5章/相关源代码/xvmdebugframe.cpp:1136-1157 | the decoding loop delivers the window, or none when a record is flagged or fewer than two are left |
| `PeepholeCode.InstSequence.MatchAt` | 32076/第5章/相关源代码/xvmdebugframe.cpp:1136-2264 | one round in place equals the functional round |
| `PeepholeCode.InstSequence.DoDeobfuscateNormal` | 32076/第5章/相关源代码/xvmdebugframe.cpp:1121-2266 | the pass in place equals the functional pass and returns its count |
| `PeepholeCode.InstSequence.DeleteFlagged` | 32076/第5章/相关源代码/xvmdebugcpu.cpp:492-505 | the sweep removes exactly the flagged records, in order |
| `PeepholeCode.InstSequence.DobCurrentSequenceAll` | 32076/第5章/相关源代码/xvmdebugframe.cpp:2754-2770 | the loop of passes and sweeps ends and equals the functional fixpoint |
| `PeepholeCode.FixpointPreserves` | 32076/第5章/相关源代码/xvmdebugframe.cpp:2754-2770 | the whole clean-up preserves what the trace does when every side condition held, and leaves no flagged record |
| `PeepholeCode.StopsAtAFixpoint` | 32076/第5章/相关源代码/xvmdebugframe.cpp:2758-2766 | the loop ends with the trace of its last pass stripped of self-exchanges, apart from one in last place; without one no rule applies any more; in any case none applies if and only if another clean-up changes nothing |
| `PeepholeCode.LoopIsIdleExactly` | 32076/第5章/相关源代码/xvmdebugframe.cpp:2758-2766 | the loop leaves an unflagged trace as it is if and only if no rule applies to it, and otherwise lowers the measure |
| `PeepholeNormal.QuietByTable` | 32076/第5章/相关源代码/xvmdebugframe.cpp:2758-2766 | no rule applies to a trace if and only if no window of it shows a pattern of the table |
| `PeepholeNormal.LoopRemovesEveryPattern` | 32076/第5章/相关源代码/xvmdebugframe.cpp:2754-2770 | the loop changes every trace that shows a pattern, and leaves one that shows none, unless its last pass removes a self-exchange |
| `PeepholeCode.LoopCanStopEarly` | 32076/第5章/相关源代码/xvmdebugframe.cpp:1184-1187 | removing a self-exchange is not counted, so the loop can stop although a rule has come to apply: a concrete trace |
| `PeepholeExactMoves.DeadMovIsExact` | 32076/第5章/相关源代码/xvmdebugframe.cpp:1890-1897 | for every operand kind that runs: the rewrite preserves the window if and only if the second load does not read the register, or the first was a self-move |
| `PeepholeExactMoves.MovZeroAddIsExact` | 32076/第5章/相关源代码/xvmdebugframe.cpp:1879-1888 | for every operand kind that runs: if and only if the added operand is not the register itself |
| `PeepholeExactMoves.XorPairIsExact` | 32076/第5章/相关源代码/xvmdebugframe.cpp:2093-2097 | for every operand kind that runs: if and only if the operands differ |
| `PeepholeExactMoves.LeaLeaIsExact` | 32076/第5章/相关源代码/xvmdebugframe.cpp:2132-2136 | for every operand kind that runs: if and only if the second lea is not based on the overwritten register or stack pointer, or the first moved it by 0 |
| `PeepholeExactMoves.MovOpCancelIsExact` | 32076/第5章/相关源代码/xvmdebugframe.cpp:2036-2085 | for every operand kind that runs: if and only if the target is a register, the constant is 0, the middle leaves esp where it is, or it moves esp so far down that the last instruction does not run |
| `PeepholeExactMoves.AddOpSubIsExact` | 32076/第5章/相关源代码/xvmdebugframe.cpp:1777-1796 | for every operand kind that runs: if and only if neither other operand is the target, or both are and the middle subtracts, or the amount is 0 modulo 2^32 |
| `PeepholeExactStack.PushMovTopIsExact` | 32076/第5章/相关源代码/xvmdebugframe.cpp:1302-1317 | for every operand kind that runs: if and only if the displacement, which is not tested, is 0 |
| `PeepholeExactStack.SubMovTopIsExact` | 32076/第5章/相关源代码/xvmdebugframe.cpp:1808-1829 | for every operand kind that runs: if and only if the amount is 4, of which only the low half is tested, and the displacement is 0 |
| `PeepholeExactStack.SaveMovMovRestoreIsExact` | 32076/第5章/相关源代码/xvmdebugframe.cpp:1418-1432 | for every operand kind that runs: if and only if the copy does not go to the saved register |
| `PeepholeExactStack.NegBySubIsExact` | 32076/第5章/相关源代码/xvmdebugframe.cpp:1472-1510 | for every operand kind that runs: if and only if the operands are distinct registers |
| `PeepholeExactStack.DeadStackOpIsExact` | 32076/第5章/相关源代码/xvmdebugframe.cpp:2250-2261 | for every operand kind that runs: if and only if the dead operation is not an exchange |
| `PeepholeExactStack.SwapPushIsExact` | 32076/第5章/相关源代码/xvmdebugframe.cpp:1677-1690 | for every operand kind that runs: if and only if the moved operation does not write what is pushed, or is the identity |
| `PeepholeExactStack.PushAddPopIsExact` | 32076/第5章/相关源代码/xvmdebugframe.cpp:1571-1582 | for every operand kind that runs: if and only if the addend is not esp and not overwritten by the new mov, and that mov is not from memory to memory |
| `PeepholeExactStack.SaveOpRestoreIsExact` | 32076/第5章/相关源代码/xvmdebugframe.cpp:1697-1735 | for every operand kind that runs: if and only if esp is not an operand value, the result is not discarded by the pop, and no other stack word comes under the operand |
| `PeepholeExactStack.PushOpPopIsExact` | 32076/第5章/相关源代码/xvmdebugframe.cpp:1736-1754 | for every operand kind that runs: if and only if the operand is not the one popped into, or the pushed constant absorbs it, and the new mov is not from memory to memory |
| `PeepholeExact.RewriteIsExact` | 32076/第5章/相关源代码/xvmdebugframe.cpp:1163-2261 | for every window whose records run, whichever rule fires: the rewrite preserves it if and only if the side condition holds |
| `PeepholeExact.ConditionsMatter` | 32076/第5章/相关源代码/xvmdebugframe.cpp:1163-2261 | fifteen rules have a concrete window on which they change what the trace does; the other rules are right on every window |
| `PeepholeFaithful.RunsExactly` | 32076/第5章/相关源代码/xvmdebugframe.cpp:1136-1155 | which instructions run on some state, by their operands |
| `BiosSums.RepairImage` | bochs/bochs-20171124/bios/biossums.c:130-255 | the in-place run of `main` equals the specified run, and stops with an error exactly when that one does |
| `BiosSums.RepairKind` | bochs/bochs-20171124/bios/biossums.c:130-150 | one block repairs the structure exactly when its signature is found once, and fails exactly when some hit has a bad header |
| `BiosSums.ScanHits` | bochs/bochs-20171124/bios/biossums.c:130-140 | the search loop finds every hit; with one hit, it and its correct checksum are returned |
| `BiosSums.GetOffset` | bochs/bochs-20171124/bios/biossums.c:334-351 | the first paragraph after the one given that carries the signature, or -1 when there is none; paragraph 0 is never looked at |
| `BiosSums.CalcValue` | bochs/bochs-20171124/bios/biossums.c:314-331 | the byte that makes the structure sum to zero, or failure exactly when a bound check fails |
| `BiosSums.SumStructure` | bochs/bochs-20171124/bios/biossums.c:323-328 | the byte-wide sum without the checksum byte |
| `BiosSums.BiosCalcValue` | bochs/bochs-20171124/bios/biossums.c:288-299 | the byte that makes the whole image sum to zero |
| `BiosTheorems.ImageSumsToZero` | bochs/bochs-20171124/bios/biossums.c:244-254 | after an error-free run all 65536 bytes sum to 0 modulo 256 |
| `BiosExact.StructureSumsToZero` | bochs/bochs-20171124/bios/biossums.c:130-255 | so does every structure found exactly once whose length covers its checksum byte and in which no checksum written later lies |
| `BiosLayout.DirectorySumsToZero` | bochs/bochs-20171124/bios/biossums.c:312-331 | in the bytes of the image alone: "_32_" found once at o, with 16 * d[o+9] bytes, checksum at 10 and no later checksum inside, sums to zero after the run |
| `BiosLayout.PointerSumsToZero` | bochs/bochs-20171124/bios/biossums.c:367-386 | the same for "_MP_", 16 * d[o+8] bytes, checksum at 10 |
| `BiosLayout.ConfigurationSumsToZero` | bochs/bochs-20171124/bios/biossums.c:422-447 | the same for "PCMP", d[o+4] + 256 * d[o+5] bytes, checksum at 7 |
| `BiosLayout.RoutingSumsToZero` | bochs/bochs-20171124/bios/biossums.c:483-503 | the same for "$PIR", d[o+6] + 256 * d[o+7] bytes, checksum at 31 |
| `BiosLayout.PlugAndPlaySumsToZero` | bochs/bochs-20171124/bios/biossums.c:539-558 | the same for "$PnP", d[o+5] bytes, checksum at 8 |
| `BiosLayout.OnlyChecksumsChange` | bochs/bochs-20171124/bios/biossums.c:130-255 | a byte that a run changes is one of these checksum bytes or the last byte of the image |
| `BiosLayout.RunSucceedsExactly` | bochs/bochs-20171124/bios/biossums.c:312-558 | a run stops with an error if and only if some structure, by these bytes, does not end below 0xFFFF or a PCMP table says that it is extended |
| `BiosLayout.ExtensionByte` | bochs/bochs-20171124/bios/biossums.c:430-434 | its third byte is the one the run starts from unless a PCI32 or MP checksum lies there |
| `BiosLayout.SumExactly` | bochs/bochs-20171124/bios/biossums.c:273-284 | a sum over a range adds up its bytes |
| `BiosExact.StructureSumsToDrift` | bochs/bochs-20171124/bios/biossums.c:130-255 | in general such a structure sums to what later repairs change inside it, modulo 256, so it is right if and only if those changes cancel |
| `BiosExact.SettledExactly` | bochs/bochs-20171124/bios/biossums.c:130-255 | whether or not its length covers the checksum byte, that byte is the right one if and only if they cancel |
| `BiosExact.OneIntruder` | bochs/bochs-20171124/bios/biossums.c:130-255 | with one later checksum byte inside: if and only if the run leaves that byte as it was |
| `BiosExact.OneIntruderExactly` | bochs/bochs-20171124/bios/biossums.c:130-255 | that is, if and only if the inner structure was right before the run, when nothing written earlier lies in it |
| `BiosExact.StructureSumsToKnownDrift` | bochs/bochs-20171124/bios/biossums.c:130-255 | with any number of intruders in which nothing written earlier lies, the sum is read from the image before the run |
| `BiosExact.WrittenOnce` | bochs/bochs-20171124/bios/biossums.c:130-255 | after any number of stages a byte has its first value or already its last |
| `BiosExact.SecondRunSucceedsExactly` | bochs/bochs-20171124/bios/biossums.c:130-255 | after an error-free run a second run succeeds if and only if the bytes the PCMP check looks at are then zero |
| `BiosExact.SecondRunExactly` | bochs/bochs-20171124/bios/biossums.c:130-267 | two runs give the same file as one if and only if a run stops with an error or the later changes in every structure cancel |
| `BiosExact.SecondRunChangesNothing` | bochs/bochs-20171124/bios/biossums.c:130-267 | a second run changes no byte when no structure contains a checksum written after its own |
| `BiosTheorems.StructuresStayPut` | bochs/bochs-20171124/bios/biossums.c:141-144 | a run creates, destroys and moves no signature and changes no structure's length |
| `BiosTheorems.WritesMissSignatures` | bochs/bochs-20171124/bios/biossums.c:361-365 | no write reaches the first four bytes of a paragraph |
| `BiosTheorems.LengthByteIsSafe` | bochs/bochs-20171124/bios/biossums.c:361-365 | no write reaches the length bytes of a structure that is found |
| `BiosTheorems.WritesAreApart` | bochs/bochs-20171124/bios/biossums.c:361-365 | two structures never share a checksum byte |
| `BiosOverlap.RepairInsideUndoes` | bochs/bochs-20171124/bios/biossums.c:153-168 | an image on which the MP repair falls inside a repaired PCI32 directory, which then sums to 0xA4 |
| `BiosOverlap.SecondRunRepairsAgain` | bochs/bochs-20171124/bios/biossums.c:130-168 | on that image a second run succeeds and changes the file |
| `BiosOverlap.SecondRunStops` | bochs/bochs-20171124/bios/biossums.c:130-255 | an image on which the first run succeeds and the second stops with an error |
| `BiosOverlap.RoutingIsRepaired` | bochs/bochs-20171124/bios/biossums.c:483-503 | an image with a "$PIR" table of 32 bytes at 0x10 and a byte 1 at 0x40: the run writes 0xD1 at 0x2F |
| `Argz.CreateSep` | bochs/bochs-20171124/ltdl.c:486-522 | the buffer holds the stored pieces packed, and the reported length is exactly the number of bytes in use, for every string |
| `Argz.ArgzNext` | bochs/bochs-20171124/ltdl.c:596-629 | the next entry, the first for no entry, or none at the end |
| `Argz.Iterate` | bochs/bochs-20171124/ltdl.c:596-629 | stepping with `argz_next` yields precisely the packed entries in order |
| `Argz.Stringify` | bochs/bochs-20171124/ltdl.c:641-657 | exactly the inner NULs become separators; the loop leaves the buffer if and only if there is a separator and the vector has fewer than two bytes |
| `Argz.SplitThenStringify` | bochs/bochs-20171124/ltdl.c:486-657 | for a string not ending in the delimiter: exactly its non-empty pieces are stored, and the string comes back with leading delimiters dropped and runs folded |
| `Argz.EmptyEntryExactly` | bochs/bochs-20171124/ltdl.c:510-523 | an extra empty entry is stored if and only if the string is empty or ends in the delimiter |
| `Argz.StringifiedPacked` | bochs/bochs-20171124/ltdl.c:641-657 | stringifying a packed list gives its entries joined by the separator |
| `Argz.UnpackedPacked` | bochs/bochs-20171124/ltdl.c:486-522 | unpacking undoes packing |
| `Argz.PiecesOfJoined` | bochs/bochs-20171124/ltdl.c:498-508 | splitting undoes joining |
| `Argz.JoinedPiecesAreFolded` | bochs/bochs-20171124/ltdl.c:498-508 | splitting and joining folds runs of delimiters |
| `Argz.NormalFormIsIdempotent` | bochs/bochs-20171124/ltdl.c:486-657 | splitting and joining a second time changes nothing |
| `ArgzMeaning.PiecesExactly` | bochs/bochs-20171124/ltdl.c:498-508 | splitting at a delimiter splits both sides, a string without delimiters is one piece and the empty string none |
| `ArgzMeaning.StoredExactly` | bochs/bochs-20171124/ltdl.c:510-523 | what is stored beyond the pieces |
| `ArgzMeaning.JoinedExactly` | bochs/bochs-20171124/ltdl.c:641-657 | one delimiter stands between joined lists |
| `ArgzMeaning.FoldedExactly` | bochs/bochs-20171124/ltdl.c:498-508 | the folded string has the same pieces and the same last character, does not begin with a delimiter and has no two in a row |
| `ArgzMeaning.StringifiedExactly` | bochs/bochs-20171124/ltdl.c:641-657 | every NUL but those at the first byte and at the last becomes the separator, and nothing else changes |
| `ArgzOrder.Vector.InsertInOrder` | bochs/bochs-20171124/ltdl.c:3123-3145 | taking `argz_insert` as insertion at an entry boundary: the vector then holds the sorted insertion of the entry, or is unchanged when it was there |
| `ArgzOrder.InsertAll` | bochs/bochs-20171124/ltdl.c:3123-3145 | any sequence of calls leaves the vector holding sorted insertion folded over the entries, which InsertionsSortTheEntries describes |
| `ArgzOrder.Vector.FindPlace` | bochs/bochs-20171124/ltdl.c:3135-3142 | the search finds the byte position before which the entry belongs, or that it is present |
| `ArgzOrder.InsertedStaysSorted` | bochs/bochs-20171124/ltdl.c:3135-3144 | insertion keeps the vector strictly sorted and so free of duplicates |
| `ArgzOrder.CompareExactly` | bochs/bochs-20171124/ltdl.c:3138-3140 | the comparison is negative if and only if the strings agree up to some k where the first ends before the second or has the smaller character, zero if and only if they are equal |
| `ArgzOrder.InsertedExactly` | bochs/bochs-20171124/ltdl.c:3135-3144 | in any vector, sorted or not, the entry goes before the first one that is not less, unless that is the entry itself |
| `ArgzOrder.InsertedMembers` | bochs/bochs-20171124/ltdl.c:3135-3144 | it adds exactly the entry |
| `ArgzOrder.InsertionsSortTheEntries` | bochs/bochs-20171124/ltdl.c:3123-3145 | any sequence of insertions gives the sorted set of the entries, whatever their order and repetition |
| `TailQueue.Queue.constructor` | bochs/bochs-20171124/qemu-queue.h:339-342 | an initialised tail queue is empty |
| `TailQueue.Queue.InsertHead` | bochs/bochs-20171124/qemu-queue.h:344-352 | prepends |
| `TailQueue.Queue.InsertTail` | bochs/bochs-20171124/qemu-queue.h:354-359 | appends |
| `TailQueue.Queue.InsertAfter` | bochs/bochs-20171124/qemu-queue.h:361-369 | inserts behind the given element |
| `TailQueue.Queue.InsertBefore` | bochs/bochs-20171124/qemu-queue.h:371-376 | inserts before the given element, without the head |
| `TailQueue.Queue.Remove` | bochs/bochs-20171124/qemu-queue.h:378-385 | removes the element and leaves its own links as they were |
| `TailQueue.Queue.Forwards` | bochs/bochs-20171124/qemu-queue.h:387-390 | visits the elements in order |
| `TailQueue.Queue.Backwards` | bochs/bochs-20171124/qemu-queue.h:397-400 | visits exactly the reverse, through the layout pun |
| `TailQueue.Queue.BeforeIs` | bochs/bochs-20171124/qemu-queue.h:411-412 | one cell back twice and forward once is the element before, or null at the front |
| `TailQueue.LinkedAfterInsert` | bochs/bochs-20171124/qemu-queue.h:344-376 | the link changes an insertion makes give the linked sequence with the cell spliced in |
| `TailQueue.LinkedAfterRemove` | bochs/bochs-20171124/qemu-queue.h:378-385 | the link changes a removal makes give the linked sequence without the cell |
| `TailQueue.InsertThenRemove` | bochs/bochs-20171124/qemu-queue.h:344-385 | inserting in any of the four ways and removing again restores the queue |
| `LinkCells.ForwardAfterInsert` | bochs/bochs-20171124/qemu-queue.h:248-264 | the same for the forward links alone |
| `LinkCells.ForwardAfterRemove` | bochs/bochs-20171124/qemu-queue.h:266-282 | the same for a removal |
| `LinkCells.Visit` | bochs/bochs-20171124/qemu-queue.h:387-390 | the traversal loop visits the linked cells in order |
| `SimpleQueue.Queue.Init` | bochs/bochs-20171124/qemu-queue.h:243-246 | makes any queue empty |
| `SimpleQueue.Queue.InsertHead` | bochs/bochs-20171124/qemu-queue.h:248-252 | prepends, keeping the tail pointer right |
| `SimpleQueue.Queue.InsertTail` | bochs/bochs-20171124/qemu-queue.h:254-258 | appends |
| `SimpleQueue.Queue.InsertAfter` | bochs/bochs-20171124/qemu-queue.h:260-264 | inserts behind the given element |
| `SimpleQueue.Queue.RemoveHead` | bochs/bochs-20171124/qemu-queue.h:266-269 | drops the first element |
| `SimpleQueue.Queue.Remove` | bochs/bochs-20171124/qemu-queue.h:271-282 | removes the given element |
| `SimpleQueue.Queue.FindBefore` | bochs/bochs-20171124/qemu-queue.h:275-277 | the search loop ends at the cell before the element |
| `SimpleQueue.Queue.Forwards` | bochs/bochs-20171124/qemu-queue.h:284-287 | visits the elements in order |
| `SimpleQueue.Queue.Concat` | bochs/bochs-20171124/qemu-queue.h:294-300 | concatenates and leaves the other queue empty |
| `Clocks.SequentialClock.TimeUsecSequential` | bochs/bochs-20171124/pc_system.cc:445-459 | the result is max(previous result, current time) + 1 |
| `Clocks.DriveSequential` | bochs/bochs-20171124/pc_system.cc:445-459 | a run of calls at non-decreasing times returns the results that the next row is about |
| `Clocks.ResultsStrictlyIncrease` | bochs/bochs-20171124/pc_system.cc:445-459 | over any run results strictly increase, stay ahead of emulated time, and lead it by a bounded amount |
| `SmpClock.SmpLoop` | bochs/bochs-20171124/main.cc:1077-1098 | the loop computes the specified tick requests and carried count; processors times ticks plus what is carried over equals every instruction the traces ran if and only if the counter never wraps and no trace has 2^32 instructions or more |
| `SmpClock.EndRound` | bochs/bochs-20171124/main.cc:1090-1094 | quotient and remainder split the count exactly |
| `SmpClock.LosesNothingExactly` | bochs/bochs-20171124/main.cc:1088-1094 | the 32-bit counter loses nothing if and only if, after every trace, the remainder of the rounds before plus the counts of this round is below 2^32 |
| `SmpClock.ShortTracesFit` | bochs/bochs-20171124/main.cc:1088-1094 | which holds when a round of the longest traces fits |
| `SmpClock.HaltedRunsItsQuantum` | bochs/bochs-20171124/main.cc:1086-1087 | a trace without instructions counts as the quantum |
| `SmpClock.CastLosesNothingExactly` | bochs/bochs-20171124/main.cc:1086-1087 | casting the counts of the traces loses instructions if and only if one of them is 2^32 or more |
| `SmpClock.CounterWraps` | bochs/bochs-20171124/main.cc:1088-1094 | counts 2^32 - 1 and 1 on two processors: no tick is delivered and nothing carried over |
| `SmpClock.CastDropsInstructions` | bochs/bochs-20171124/main.cc:1086-1087 | a trace of 2^32 + 5 instructions delivers five ticks |
| `Clocks.RealtimeClock.GetRealtime64Usec` | bochs/bochs-20171124/osdep.cc:350-361 | from whatever time the clock has followed, it goes on with, and returns, the widening of what the counter shows |
| `Clocks.DriveRealtime` | bochs/bochs-20171124/osdep.cc:347-361 | a run of calls returns the results that the next rows are about |
| `Clocks.RealtimeIsExact` | bochs/bochs-20171124/osdep.cc:347-361 | over a whole run the results are 1000 times the true milliseconds if and only if successive samples, the first against the start, are less than 2^32 ms apart |
| `Clocks.WideningIsExact` | bochs/bochs-20171124/osdep.cc:352-359 | one widening is right if and only if less than 2^32 ms have passed |

## Left out

Timers:

- Overflow of 64-bit time: the clock stays below 2^63 and requested ticks are at most `BX_MAX_BIT64S`, as for the callers.
- Callbacks are functions of what they can observe (the timer table, the clock, the triggered slot, their own state) that return the calls they make; a callback that itself advances time (`isa_bus_delay`, pc_system.cc:613-619) is not modelled, nor one that reads `getNumCpuTicksLeftNextEvent`.
- PcSystem.Scheduler.CallHandler: a callback that advances time or asks for the ticks left in the countdown is not covered, as said above.
- Callers make only the calls the `BX_TIMER_DEBUG` checks allow: no operation on timer 0 or beyond the bound, no removal of a slot that is not in use; a handler is passed at registration or is absent as after unregistration.
- Conversion between microseconds and ticks through the floating-point `m_ips`, and with it `activate_timer`, `activate_timer_nsec`, `time_usec`.
- Timer id strings, logging, save and restore, reset and exit.

Peephole optimiser:

- CPU flags, operand sizes other than 32 bits, memory operands not relative to esp, and esp written other than by adding a constant: traces that need them do not run on the machine, so nothing is claimed about them.
- The rules that only apply to such instructions, or whose result needs them: those that end in pop esp or mov esp, [esp] (xvmdebugframe.cpp:1295-1301, 1342-1363, 1608-1621, 1644-1660), general memory copies (1433-1458), add esp, 4 with a read below esp (1766-1776), and lea from [esp] between a push and its pop (1713-1722 for lea).
- Control-flow rules (1663-1675, 2123-2131), rdtsc removal, shl and shr folding, and the rule for three exchanges (1200-1231), whose emitted operands do not give the same permutation. Where such a rule would match first, the model's window applies no rule or a later one.
- Decoding and encoding of instructions: udis86 and NASM_I386 are not part of this model; two operands are the same when they denote the same register, constant or stack word, and re-encoding is exact. Constants are mathematical integers read modulo 2^32.
- `IsEffectESP` is taken as false for the operations on [esp] that the rules pass to it, none of which moves esp on this machine.
- PeepholeCode.InstSequence.DobCurrentSequenceAll: `doDeobfuscateTempPushPop`, which the loop calls between its sweeps, is not part of it; nor are mark-only passes and pattern scripts.
- PeepholeCode.FixpointPreserves: for the loop without that matcher.

CRC, queues, BIOS, argz, clocks:

- Buffers are sequences of bytes; a negative length of `crc32` acts as the empty buffer and has no separate case.
- TailQueue.Queue.Remove: positions are passed as ghost arguments that say which element is meant; callers remove only elements of the queue, as the macros require. QSIMPLEQ_LAST, the list macros and the `_SAFE` loops are not modelled.
- `biossums` with `-pad`, file input and output, and its messages; the bound checks of `get_value` and `set_value`, which the header checks before them imply.
- ArgzOrder.Vector.InsertInOrder: `argz_insert` is one update of the bytes at an entry boundary, with allocation that does not fail. The fallback in ltdl.c is not modelled: its boundary search reads before the buffer at the first entry (557), and its assertion (546-547) stops the program when the entry belongs behind a vector that is not empty.
- `strcmp` compares characters as unsigned bytes.
- SmpClock.SmpLoop: instruction counts of the traces are an input; executing a trace, the shutdown request and what the ticks trigger are not part of it.
- Clocks.SequentialClock.TimeUsecSequential: `time_usec` is an argument that does not decrease.
- All OllyDbg table, menu and window code, breakpoints, xApiWatch, the VM block code, dlopen and file search in ltdl.c, and option, plugin and logging plumbing: easy members or foreign calls.
