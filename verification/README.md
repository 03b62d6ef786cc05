# Moonlight for Scarlet: a verified model

This project models the parts of the Moonlight client for Scarlet in which an
error would be hard to see, and proves what they are for. It is written in
Dafny 4.11; `dafny verify dfyconfig.toml` checks all of it.

**Locks.** `FutexMutex`, `MutexProgress`, `FutexCalls`, `ConditionVariable` and
`ConditionProgress` model the futex lock and the sequence-counter condition
variable as interleaved atomic steps of any number of threads. Ownership and the absence of lost wake-ups
hold in every reachable state, spurious returns included; without spurious
returns every schedule of finitely many lock/unlock rounds ends, within an
explicit bound, with everybody finished; and the lock enters the kernel exactly
when it has to. Each signal sent under the lock
releases a waiter, and a schedule of finitely many waits and signals ends with
every woken waiter back from its wait.

**The C allocator.** `Bits` and `AllocationGeometry` prove the masked
round-up; `CHeap` is the allocator as a class over a byte memory in which each
payload hides a header, with the invariant that all live blocks are disjoint, each
header says exactly what must be given back, and no block is ever lost.

**The C library.** `Numerals`, `StringToNumber`, `Formatting` and `Vsnprintf`
relate the number parsers to the printers, and the bounded formatter to an
unbounded one, and `PrintAndRead` takes a number through a buffer and back.
`NumberTexts` and `FormatTexts` say what the parsers and the formatter make of
every text and every format, in terms of the parts it is made of, down to
literal alphabets and bases. `Tokenizer` is `strtok_r` in place.

**Gamepads.** `ButtonSwap`, `GamepadPlan` and `Gamepads` are the two-table
synchroniser, with a host that replays what it is sent and a session whose
sends may fail anywhere, any number of times.

**The connection's lifecycle.** `Lifecycle` is the protocol of start, stop,
stale-handle stop requests, input sends and the core's termination callback
under the two locks, for every interleaving: the calls into the core are safe,
nothing gets stuck, and by `LifecycleCalls` each operation has made exactly the
calls that are due by the time it returns.

**Held input.** `RemoteHost`, `Touch`, `Keyboard` and `Input` track what the
host was told is held down, through any pattern of failed sends.

**Smaller algorithms.** `FrameCopy` (a linked chain into one buffer),
`TextWords`, `WrapText` and `TextParts` (greedy line filling), and `AspectFit` (integer
aspect fit, which `Touch` uses to place a contact in the picture).
`Options`, `Arithmetic`, `Sequences` and `Sums` hold what several of them share.

Code that changes state in place is modelled by methods on classes and arrays,
each proved against a specification function or predicate; the lemmas then say
what the specification is worth. Protocols between threads are modelled as
labelled state machines, and their theorems are about all runs. Proofs by
induction are explicit; the automatic kind is switched off. An outside
party is represented by what it may answer: the Rust allocator by an optional
base address that satisfies its documented promise, the send functions by an
outcome that may be a failure at any time, the kernel by the choice of the
sleeper it wakes, the argument area of `vsnprintf` by a total function.

Some promises do not hold without a condition; the exact one is proved:

- `strtol` reads back every printed `long` but the minimum, whose negation it
  cannot represent (`Numerals.SignedRoundTrip`, `Numerals.NegationFitsExactly`).
- After its own sign `strtol` hands the rest to `strtoul`, so it also reads
  numbers with more white space and a second sign there, which the C standard
  would not; what it reads then is exact (`NumberTexts.StrtolReads`). Where `0x`
  is followed by no digit, neither function reads anything.
- A pending condition wait that missed signals still goes to sleep exactly when
  their number is a multiple of 2^32 (`ConditionVariable.StaleWaitSleepsExactlyOnWrap`).
- `release_to` forgets its contacts even when the host could not be told; the
  tracking agrees with the host afterwards exactly when the send succeeded or
  the contact was standing in for the mouse (`Touch.TouchInput.ReleaseTo`).
  After `release_all` what stays held is exactly what failed to be released
  (`Input.RemoteInput.ReleaseAll`).
- `release_mouse` forgets the buttons whatever fails; the exact condition under
  which the tracking agrees with the host afterwards is a clause of
  `Input.RemoteInput.ReleaseMouse`.
- Wrapping an output row again returns it, unless it is the empty row of a blank
  line, which gives no row (`WrapText.RewrappingARow`).
- Fitting a size into its own fit is stable exactly when the division was exact
  or a side is one pixel (`AspectFit.RefitWhenWidthLimited`).

## Model

| member | source | states |
|---|---|---|
| FutexMutex.StepKeepsOwnership | moonlight-sys/src/scarlet.rs:132-176 | every atomic step of `lock` and `unlock` keeps at most one owner, and the word zero exactly when there is none |
| FutexMutex.StepKeepsSleepersCovered | moonlight-sys/src/scarlet.rs:146-176 | no step forgets a sleeper: the word is contended, a wake is owed, or an awake contender will mark the word |
| FutexMutex.EveryReachableStateIsSafe | moonlight-sys/src/scarlet.rs:132-176 | exclusion and no lost wake-up in every reachable state, for any number of threads and with spurious returns |
| FutexCalls.AloneIsQuiet | moonlight-sys/src/scarlet.rs:132-176 | a thread that is alone locks and unlocks by one atomic access each and never enters the kernel |
| FutexCalls.EveryFailureBacksOff | moonlight-sys/src/scarlet.rs:150-162 | in every run a thread sleeps its millisecond once for each of its waits that failed and for no other |
| FutexCalls.EveryContendedUnlockWakes | moonlight-sys/src/scarlet.rs:165-176 | in every run a thread calls the wake once for each unlock that found the lock contended and for no other |
| MutexProgress.UnlockLowersMeasure | moonlight-sys/src/scarlet.rs:165-176 | an unlock pays for every retry it can cause |
| MutexProgress.WakeLowersMeasure | moonlight-sys/src/scarlet.rs:165-176 | a wake pays for the sleeper it sets going |
| MutexProgress.StepLowersMeasure | moonlight-sys/src/scarlet.rs:132-176 | every step without spurious return lowers one measure |
| MutexProgress.StuckExactlyWhenFinished | moonlight-sys/src/scarlet.rs:132-176 | no step is possible exactly when all threads have finished their rounds, and then the lock is free |
| MutexProgress.EveryScheduleFinishes | moonlight-sys/src/scarlet.rs:132-176 | every schedule of finitely many rounds is shorter than an explicit bound and can be extended until everybody is done |
| ConditionVariable.InvariantIsKept | moonlight-sys/src/scarlet.rs:190-215 | in every run the lock stays safe and each stage of `wait` and `signal` holds or does not hold the lock as it should |
| ConditionVariable.WaitReturnsOwning | moonlight-sys/src/scarlet.rs:202-215 | whatever step ends a wait, its thread then is the only owner of the mutex |
| ConditionVariable.OthersKeepMidSignal | moonlight-sys/src/scarlet.rs:190-215 | between increment and wake no thread joins the blocked set, whatever the others do |
| ConditionVariable.SignalReleasesAWaiter | moonlight-sys/src/scarlet.rs:190-215 | a signal sent under the lock strictly shrinks a non-empty set of blocked waiters |
| ConditionVariable.StaleWaitSleepsExactlyOnWrap | moonlight-sys/src/scarlet.rs:202-213 | a wait that missed signals sleeps if and only if their number is a multiple of 2^32 |
| ConditionVariable.WaitSleepsExactlyUnlessSignalled | moonlight-sys/src/scarlet.rs:202-213 | a whole wait, from the load of the sequence on, sleeps when nobody signals meanwhile; in general, if and only if a multiple of 2^32 signals came |
| ConditionVariable.IncrementBlocksExactlyOnWrap | moonlight-sys/src/scarlet.rs:190-213 | a signal blocks a thread that was not blocked exactly when it completes a multiple of 2^32 signals since that thread loaded the sequence |
| ConditionVariable.WrapAroundBlocksAgain | moonlight-sys/src/scarlet.rs:190-213 | a run of two threads from the start leads to a signal that leaves a waiter blocked that was not before |
| ConditionProgress.MoveLowersMeasure | moonlight-sys/src/scarlet.rs:132-215 | every move of the lock, of `wait` or of `signal` without spurious return lowers one measure |
| ConditionProgress.StuckExactlyWhenSettled | moonlight-sys/src/scarlet.rs:132-215 | no move is possible exactly when each thread is done or asleep in a wait that no signal has ended; then no woken waiter is still on its way back |
| ConditionProgress.EveryScheduleSettles | moonlight-sys/src/scarlet.rs:132-215 | every schedule of finitely many rounds, waits and signals is shorter than an explicit bound and can be extended until that is so |
| Bits.PowerOfTwoExactly | moonlight-sys/src/scarlet.rs:253-257 | the alignment test accepts every power of two and nothing else |
| Bits.MaskRoundsDown | moonlight-sys/src/scarlet.rs:276-277 | and-ing with the complement of a power of two less one rounds down to its multiple |
| AllocationGeometry.LayoutExistsExactly | moonlight-sys/src/scarlet.rs:253-262 | the requests that get a layout: power-of-two alignment and a total clear of the `isize` limit |
| AllocationGeometry.NoSumOverflows | moonlight-sys/src/scarlet.rs:275-278 | no sum of the address computation leaves the machine word |
| AllocationGeometry.Geometry | moonlight-sys/src/scarlet.rs:253-291 | the payload is the least aligned address past the header; header and payload lie in the block; the header is 16-aligned |
| CHeap.InstallIsSound | moonlight-sys/src/scarlet.rs:264-291 | writing a header into an unused block leaves every live block as it was |
| CHeap.InstallLeaksNothing | moonlight-sys/src/scarlet.rs:264-291 | a new block is owned by a live pointer, and every other block still is |
| CHeap.ReleaseLeaksNothing | moonlight-sys/src/scarlet.rs:520-541 | giving a block back leaves no block without a live pointer |
| CHeap.LiveBlocksAreDisjoint | moonlight-sys/src/scarlet.rs:264-291 | two live blocks share no byte, headers included |
| CHeap.LiveHeader | moonlight-sys/src/scarlet.rs:524-538 | the header in front of a live pointer reads back as the base, layout and size the block was made with |
| CHeap.Heap.AllocateWithAlignment | moonlight-sys/src/scarlet.rs:264-291 | null and ENOMEM exactly when there is no layout or no memory; else a fresh aligned block, all others untouched |
| CHeap.Heap.Malloc | moonlight-sys/src/scarlet.rs:489-492 | a fresh 16-aligned block of the requested size, taken from the Rust allocator and recorded as handed out, or null with the heap unchanged |
| CHeap.Heap.AlignedAlloc | moonlight-sys/src/scarlet.rs:495-502 | EINVAL exactly for an illegal alignment or size; else as requested and aligned |
| CHeap.Heap.Calloc | moonlight-sys/src/scarlet.rs:505-517 | an overflowing product is refused; the payload is all zero |
| CHeap.Heap.Free | moonlight-sys/src/scarlet.rs:520-541 | the block goes back under the very base and layout it was handed out with; no other block changes; null is ignored |
| CHeap.Heap.Realloc | moonlight-sys/src/scarlet.rs:544-585 | null exactly when the request has no layout or there is no memory, or for size zero, which gives the block back; success keeps the shared bytes, the alignment and `errno`, takes one block from the Rust allocator and gives the old one back; failure leaves everything |
| Numerals.UnsignedRoundTrip | moonlight-sys/platform/scarlet/compat.c:357-385 | `strtoul` reads back every printed 64-bit value: base 8, 10, 16, either case, any padding, and consumes it all |
| Numerals.SignedRoundTrip | moonlight-sys/platform/scarlet/compat.c:387-399 | `strtol` reads back every printed `long` but the minimum, any width, padding and plus sign |
| Numerals.NegationFitsExactly | moonlight-sys/platform/scarlet/compat.c:394-398 | the negation stays within `long` unless the text is negative and its magnitude parses to 2^63 |
| Numerals.NumeralReadsBack | moonlight-sys/platform/scarlet/compat.c:451-465 | the digits printed denote the value |
| NumberTexts.ValueIsPlaceValue | moonlight-sys/platform/scarlet/compat.c:374-380 | the running value is the sum of the digits times the powers of the base |
| NumberTexts.StrtoulReads | moonlight-sys/platform/scarlet/compat.c:349-385 | any text, any base: after white space and a sign, the signed value of the digits modulo 2^64, in base 16 after `0x`, and for base 0 in 8 after a leading 0 and else in 10; whatever follows, the end is just past the digits, or the start without any |
| NumberTexts.StrtolReads | moonlight-sys/platform/scarlet/compat.c:387-399 | likewise, the word taken as a `long` and negated after a minus sign of its own |
| NumberTexts.EveryTextHasParts | moonlight-sys/platform/scarlet/compat.c:349-380 | every text has the parts that the two results above are about |
| StringToNumber.SkipSpace | moonlight-sys/platform/scarlet/compat.c:349-355 | the loop stops at the end of the run of white space |
| StringToNumber.ReadDigits | moonlight-sys/platform/scarlet/compat.c:374-380 | the wrapping loop computes the unbounded value reduced once to the machine word |
| StringToNumber.Strtoul | moonlight-sys/platform/scarlet/compat.c:357-385 | value and end position are those of the specification that the round trips are about |
| StringToNumber.Strtol | moonlight-sys/platform/scarlet/compat.c:387-399 | likewise for the signed parser |
| Formatting.UnsignedConversionReadsBack | moonlight-sys/platform/scarlet/compat.c:565-570 | every unsigned conversion prints what `strtoul` reads back, `%u` in base 10, `%o` in 8, `%x` and `%X` in 16, as 32 bits or, with a length modifier, 64 |
| Formatting.SignedConversionReadsBack | moonlight-sys/platform/scarlet/compat.c:551-564 | every signed conversion prints what `strtol` reads back in base 10, as 32 bits or, with a length modifier, 64, the minimum excepted |
| Formatting.NumeralIsShort | moonlight-sys/platform/scarlet/compat.c:442-459 | no 64-bit value has more than 22 digits in any base from 8 up |
| FormatTexts.ReadsSpec | moonlight-sys/platform/scarlet/compat.c:482-538 | a specification put together from flags, width, precision, length modifier and conversion is read as just these, stars taking their arguments |
| FormatTexts.ExpandPrints | moonlight-sys/platform/scarlet/compat.c:539-583 | every conversion, without reference to the code: the digits of `%d %u %o %x %X %p` by value, base and letter case, sign and padding, the field as wide as asked or as its body, `%s` cut at the precision and padded on the side the flag says, `%c` one character |
| FormatTexts.RenderPrints | moonlight-sys/platform/scarlet/compat.c:467-592 | whatever items a format is made of, the output is what they print, in order, each with its own arguments |
| FormatTexts.EveryFormatHasItems | moonlight-sys/platform/scarlet/compat.c:472-538 | every format is made of such items, one that ends too soon included |
| Vsnprintf.OutputBuffer.OutputCharacter | moonlight-sys/platform/scarlet/compat.c:420-426 | the text grows by the character, kept only where it leaves room for the terminator |
| Vsnprintf.OutputBuffer.OutputRepeat | moonlight-sys/platform/scarlet/compat.c:428-432 | the text grows by the repeated character, none for a negative count |
| Vsnprintf.OutputBuffer.OutputString | moonlight-sys/platform/scarlet/compat.c:434-440 | the text grows by the string, or by its first `maximum` characters |
| Vsnprintf.OutputBuffer.OutputUnsigned | moonlight-sys/platform/scarlet/compat.c:451-465 | the text grows by the padded numeral that the round trips are about |
| Vsnprintf.OutputBuffer.Terminate | moonlight-sys/platform/scarlet/compat.c:587-590 | the buffer is the longest prefix that fits, a NUL, and the bytes it had before |
| Vsnprintf.UnsignedLength | moonlight-sys/platform/scarlet/compat.c:442-449 | the length of the numeral |
| Vsnprintf.DigitArray | moonlight-sys/platform/scarlet/compat.c:453-460 | the backward fill leaves the numeral in the 32-byte array, which is never overrun |
| Vsnprintf.ReadDirective | moonlight-sys/platform/scarlet/compat.c:482-538 | flags, width, precision, length modifier and conversion as the specification reads them |
| Vsnprintf.OutputText | moonlight-sys/platform/scarlet/compat.c:539-547 | strings: truncated to the precision, padded on the side the flag says |
| Vsnprintf.OutputSigned | moonlight-sys/platform/scarlet/compat.c:551-564 | signed numbers: spaces before the sign, zeros after it, the minimum included |
| Vsnprintf.OutputConversion | moonlight-sys/platform/scarlet/compat.c:539-583 | each conversion prints what its specification says |
| Vsnprintf.Vsnprintf | moonlight-sys/platform/scarlet/compat.c:467-592 | returns the length of the unbounded output; the buffer holds its longest prefix that fits, then NUL; nothing else is written |
| PrintAndRead.PrintsOneConversion | moonlight-sys/platform/scarlet/compat.c:467-592 | a format that is one conversion prints that conversion and nothing else |
| PrintAndRead.LongFormats | moonlight-sys/platform/scarlet/compat.c:482-538 | `%lu` and `%ld` are such formats, for `long` arguments |
| PrintAndRead.TextIn | moonlight-sys/platform/scarlet/compat.c:223-229 | the text in a buffer ends at its first NUL |
| PrintAndRead.Print | moonlight-sys/platform/scarlet/compat.c:467-592 | returns the length of the conversion; when it fits, it is the text in the buffer |
| PrintAndRead.PrintAndReadUnsigned | moonlight-sys/platform/scarlet/compat.c:357-592 | any one unsigned conversion, printed by `vsnprintf` into a buffer it fits, is read back by `strtoul` in the base the C standard gives it and consumed whole |
| PrintAndRead.PrintAndReadSigned | moonlight-sys/platform/scarlet/compat.c:387-592 | likewise signed conversions and `strtol`, the minimum excepted |
| Tokenizer.StrtokR | moonlight-sys/platform/scarlet/compat.c:306-325 | one call, in place: the token found, the position saved and the text left are the specification's |
| Tokenizer.FirstRun | moonlight-sys/platform/scarlet/compat.c:306-325 | a call finds the first maximal delimiter-free run at or after its cursor, or none if there is none |
| Tokenizer.RepeatedCallsTokenise | moonlight-sys/platform/scarlet/compat.c:306-325 | repeated calls return exactly the maximal runs, in order, and change only the delimiter after each |
| Tokenizer.Tokenise | moonlight-sys/platform/scarlet/compat.c:306-325 | the loop of calls on an array returns where exactly the maximal runs begin, in order, and changes only the delimiter after each, to NUL |
| Tokenizer.NoTokenForEver | moonlight-sys/platform/scarlet/compat.c:308-314 | after the last token every call returns none and changes nothing |
| ButtonSwap.SwapPutsBUnderA | moonlight/src/gamepad.rs:109-116 | A is reported exactly when B is pressed |
| ButtonSwap.SwapPutsAUnderB | moonlight/src/gamepad.rs:109-116 | B is reported exactly when A is pressed |
| ButtonSwap.SwapKeepsTheRest | moonlight/src/gamepad.rs:109-116 | no other button changes |
| ButtonSwap.SwapExchanges | moonlight/src/gamepad.rs:109-116 | all three at once: the two words differ by the exchange of A and B alone |
| ButtonSwap.SwapTwice | moonlight/src/gamepad.rs:109-116 | swapping twice restores the word |
| GamepadPlan.RetryIsExact | moonlight/src/gamepad.rs:86-137 | packets owed by one synchronisation and then by another are together a beginning of the undisturbed one, and all of it exactly when nothing is owed any more |
| GamepadPlan.CleanSyncIsShort | moonlight/src/gamepad.rs:86-137 | an undisturbed synchronisation ends, after three packets a slot at most |
| GamepadPlan.QueuedIsABeginning | moonlight/src/gamepad.rs:86-137 | what was queued determines the packet owed next: the next one of the undisturbed synchronisation |
| GamepadPlan.NothingOwedExactlyWhenInSync | moonlight/src/gamepad.rs:86-137 | nothing is owed if and only if the acknowledged table is the swapped device table |
| GamepadPlan.NextIsAcceptable | moonlight/src/gamepad.rs:92-144 | each packet fits the host: arrivals for free slots only, the mask is the occupied set after it, removals are neutral, identities stay distinct |
| GamepadPlan.OwedPacketsAreAcceptable | moonlight/src/gamepad.rs:86-144 | replaying any prefix of a synchronisation leaves the host the image of the acknowledged table |
| Gamepads.SlotOf | moonlight/src/gamepad.rs:68-71 | the first slot that holds the device, if any |
| Gamepads.RemoteGamepads.Observe | moonlight/src/gamepad.rs:67-84 | a known device is updated in place, a new one takes the first free slot, a reset frees its slot, nobody else moves |
| Gamepads.RemoteGamepads.SetSwapAb | moonlight/src/gamepad.rs:166-168 | the toggle changes no table and keeps the host's image |
| Gamepads.RemoteGamepads.RemoveStale | moonlight/src/gamepad.rs:92-104 | a slot whose identity changed is removed before it is reused, and committed only once queued |
| Gamepads.RemoteGamepads.Announce | moonlight/src/gamepad.rs:117-126 | a device unknown to the host is announced neutral, and committed only once queued |
| Gamepads.RemoteGamepads.Update | moonlight/src/gamepad.rs:127-134 | a differing state is reported, and committed only once queued |
| Gamepads.RemoteGamepads.Sync | moonlight/src/gamepad.rs:86-137 | succeeds with exactly the undisturbed packets, or stops because the send of the next one of them failed; the host stays the image of the acknowledged table |
| Gamepads.RemoteGamepads.SyncUntilQueued | moonlight/src/gamepad.rs:86-137 | exact retry: however often and wherever synchronisations fail, all attempts together queue each undisturbed packet once, in order |
| Gamepads.RemoteGamepads.SyncAgain | moonlight/src/gamepad.rs:86-137 | once everything is queued a further synchronisation sends nothing and cannot fail |
| Gamepads.RemoteGamepads.HostIsInSync | moonlight/src/gamepad.rs:86-137 | after a success the host holds, slot for slot, the very states of the devices; with the toggle on, A and B are exchanged and nothing else differs |
| Gamepads.RemoteGamepads.ReleaseAll | moonlight/src/gamepad.rs:174-186 | with a live connection it is a synchronisation to no devices: it fails only by a failed send, and success leaves the host empty; without a connection the next session starts anew |
| Gamepads.RemoteGamepads.ResetSession | moonlight/src/gamepad.rs:189-191 | nothing counts as announced to the next session |
| Lifecycle.StepKeepsInvariant | moonlight-sys/src/connection.rs:886-945 | every step of every operation keeps the locks, the singleton, the core and the registration consistent |
| Lifecycle.CallsAreSafe | moonlight-sys/src/connection.rs:557-565 | a queue wake, an input send and a core stop find the live core of their own connection, under the right lock |
| Lifecycle.RegistrationIsKept | moonlight-sys/src/connection.rs:46-54 | the registered connection is active whenever the gate is free, so a termination callback wakes a live queue |
| Lifecycle.EveryReachableStateIsSafe | moonlight-sys/src/connection.rs:1086-1109 | over all interleavings: one active connection at most, all calls reach its live core, a finished stop stopped the core once |
| Lifecycle.SomebodyCanAdvance | moonlight-sys/src/connection.rs:34-54 | the two locks cannot deadlock, even while a stop joins workers that are in the callback |
| Lifecycle.PendingOperationsFinish | moonlight-sys/src/connection.rs:1086-1103 | from every reachable state the operations under way end within a bound, and only then is nobody able to step |
| Lifecycle.EveryStartIsStoppedOnce | moonlight-sys/src/connection.rs:1086-1103 | over a run, core stops equal successful starts, less the one connection still running |
| LifecycleCalls.EveryRequestWakes | moonlight-sys/src/connection.rs:557-565 | a stop request takes the gate once and wakes the queue once if its connection is active then, else not; the stop is requested before the wake and when it returns |
| LifecycleCalls.EverySendCalls | moonlight-sys/src/connection.rs:780-798 | a send takes the core lock once and calls the core once if its connection is active then, else not |
| LifecycleCalls.EveryCallbackWakes | moonlight-sys/src/connection.rs:46-54 | a termination callback takes the gate once and wakes the queue once if a connection is registered then, else not |
| LifecycleCalls.EveryStopStops | moonlight-sys/src/connection.rs:1086-1103 | a stop takes each lock once, stops the core once and clears the singleton once; afterwards the connection is stopped, inactive and not registered |
| LifecycleCalls.EveryStartOpensOrGivesUp | moonlight-sys/src/connection.rs:886-945 | a start finds the singleton claimed, or claims it and calls the core once; on success a handle of an active, registered connection exists, on failure the singleton is cleared again |
| AspectFit.NothingOverflows | moonlight/src/video.rs:315-324 | the 64-bit products do not overflow and the casts lose nothing |
| AspectFit.FitIsTheClosedForm | moonlight/src/video.rs:305-326 | the branching fit is a symmetric closed form of two minima |
| AspectFit.FitKeepsTheAspect | moonlight/src/video.rs:305-326 | the limiting side is filled and the other is the longest in whole pixels that the aspect allows, or one |
| AspectFit.FitStaysInside | moonlight/src/video.rs:305-326 | neither side exceeds the destination, one side fills it, and zero only comes from zero |
| AspectFit.FitIsMonotone | moonlight/src/video.rs:305-326 | a larger destination never yields a smaller picture |
| AspectFit.FitCommutesWithTurning | moonlight/src/video.rs:305-326 | swapping the axes of both sizes swaps those of the fit |
| AspectFit.RefitWhenWidthLimited | moonlight/src/video.rs:317-320 | fitting into the fit is stable exactly when the division was exact, rounded up to one, or the width is one |
| AspectFit.RefitWhenHeightLimited | moonlight/src/video.rs:321-325 | likewise when the height limits |
| AspectFit.RefitCanShrink | moonlight/src/video.rs:305-326 | so fitting is not idempotent |
| RemoteHost.Control.Send | moonlight-sys/src/connection.rs:780-798 | a send either reaches the host or fails without effect |
| RemoteHost.FirstErrorIsFirst | moonlight/src/input.rs:216-230 | the error reported is that of the earliest try that failed |
| Touch.PositionExactlyOnThePicture | moonlight/src/touch.rs:160-177 | in exact arithmetic a new contact has a position exactly on the picture, borders included; the position is the place across and down the picture, or the border it is beyond; the letterbox subtraction cannot underflow |
| Touch.IdsRunOutAtTen | moonlight/src/touch.rs:91-94 | no free identifier if and only if ten contacts are held |
| Touch.TouchInput.Route | moonlight/src/touch.rs:55-141 | whatever sends fail: distinct ids below ten, one fallback contact at most, the mode fixed, the host's native contacts the tracked ones, the mouse button minded |
| Touch.TouchInput.EventsAreTold | moonlight/src/touch.rs:73-141 | what is sent is the event itself, down, move, up or cancel, or the mouse in its stead, for the right identifier and position, all of it once handled; the table then is what it should be |
| Touch.TouchInput.Begin | moonlight/src/touch.rs:73-108 | the host is asked about touch exactly when the mode is unknown, and only its failing to answer fails the contact unsent; a native contact is refused exactly when ten are held, a fallback one exactly when one is; else it is tracked exactly when the host has it |
| Touch.TouchInput.Continue | moonlight/src/touch.rs:109-141 | a contact is dropped only once its end has been sent, else moved |
| Touch.TouchInput.Follow | moonlight/src/touch.rs:115-134 | the packets of each phase and mode; the button is released even after a failed final position; the first error counts |
| Touch.TouchInput.ReleaseTo | moonlight/src/touch.rs:145-157 | everything is forgotten; the host agrees exactly when it could be told or the contact was a fallback |
| Keyboard.KeycodeToVk | moonlight/src/input.rs:268-290 | every virtual key fits one byte |
| Keyboard.NamedKeysAreNumbered | moonlight/src/input.rs:13-33 | control keys have the codes of their characters, the cursor block and F1 to F24 are numbered in order |
| Keyboard.CharIsOnItsKey | moonlight/src/input.rs:292-324 | a character is sent as the letter, digit or OEM key of the US layout that makes it, plain, shifted or with the control key, and as no other of these keys; a character that none of them makes is not sent |
| Keyboard.NamedKeyIsAlone | moonlight/src/input.rs:268-324 | a named key shares its virtual key with no other name, function key or character |
| Keyboard.WireKeepsKeysApart | moonlight-sys/src/connection.rs:1242-1244 | two keys share a wire code only if they are one virtual key |
| Input.UpdatesOneBit | moonlight/src/input.rs:172-178 | setting or clearing a button's bit changes that button only |
| Input.Ascending | moonlight/src/input.rs:249-255 | the tracked keys, each once, in ascending order |
| Input.LettingGo | moonlight/src/input.rs:248-264 | after a series of releases what is held is exactly what was held and not successfully released |
| Input.NothingStaysHeld | moonlight/src/input.rs:233-265 | if no release failed, a host the tracking agreed with holds nothing |
| Input.RemoteInput.SendKey | moonlight/src/input.rs:118-143 | a key event is tracked exactly when it was queued, so the host's keys are the tracked ones |
| Input.RemoteInput.SendMouseButton | moonlight/src/input.rs:159-180 | likewise for buttons |
| Input.RemoteInput.SendTouch | moonlight/src/input.rs:73-83 | touch input keeps the tracking of keys and buttons in agreement |
| Input.RemoteInput.ReleaseMouse | moonlight/src/input.rs:209-231 | the pressed buttons, in order, every one tried, first error reported; keys and touches stay; the tracking agrees with the host afterwards if and only if no pressed middle or right button failed to be released, and a left one the host still holds stands in for a fallback contact |
| Input.RemoteInput.ReleaseAll | moonlight/src/input.rs:233-265 | touches, ascending keys, buttons, every one tried; what failed is exactly what stays held; without failure the host holds nothing |
| Input.RemoteInput.Reset | moonlight/src/input.rs:85-87 | nothing is tracked, which agrees with a new host, and nothing is sent |
| TextWords.WordsOfRow | moonlight/src/licenses.rs:141-153 | splitting a joined row gives its words back |
| TextParts.WhiteSpaceIs | moonlight/src/licenses.rs:141 | the 25 characters that split words |
| TextParts.WordsOfWoven | moonlight/src/licenses.rs:141 | a line put together from words and any white space between them is split into these words |
| TextParts.EveryLineIsWoven | moonlight/src/licenses.rs:141 | every line is put together in that way |
| TextParts.RowIsJoined | moonlight/src/licenses.rs:142-153 | a row is its words with one blank between each two |
| TextParts.LinesOfText | moonlight/src/licenses.rs:134 | a text put together from lines ended by a newline, with or without a carriage return, is split into these lines |
| TextParts.EveryTextHasLines | moonlight/src/licenses.rs:134 | every text is put together in that way |
| WrapText.FillRows | moonlight/src/licenses.rs:140-154 | the inner loop produces the greedy split of the words |
| WrapText.WrapText | moonlight/src/licenses.rs:131-157 | the rows of each source line, in order; a blank line becomes one blank row; a width of zero counts as one |
| WrapText.FewestRows | moonlight/src/licenses.rs:140-154 | no other split into rows that fit has fewer rows |
| WrapText.OnlyOneGreedySplit | moonlight/src/licenses.rs:140-154 | the rows of a line are uniquely determined |
| WrapText.RowsCarryTheWords | moonlight/src/licenses.rs:141-153 | the rows carry the words of the line in order |
| WrapText.WrappingIsFaithfulAndOptimal | moonlight/src/licenses.rs:131-157 | same words in order, each row fits or is one word, and no fewer rows are possible |
| WrapText.TextIsFaithful | moonlight/src/licenses.rs:132-157 | the rows of a whole text have its words in order, and each fits the width asked for, or is one word or no wider than one character |
| WrapText.RewrappingARow | moonlight/src/licenses.rs:131-157 | wrapping an output row of a non-blank line again returns it; the empty row of a blank line is wrapped to no row |
| FrameCopy.OnePath | moonlight-sys/platform/common_bridge.c:255-256 | a chain determines its path |
| FrameCopy.NoCompletion | moonlight-sys/platform/common_bridge.c:258-264 | where the walk meets a bad or too long entry no complete chain exists |
| FrameCopy.CopyChain | moonlight-sys/platform/common_bridge.c:255-269 | the walk ends, even on a cyclic chain; it succeeds exactly for a good chain of the advertised total and writes nothing past it |
| FrameCopy.CopyVideoFrame | moonlight-sys/platform/common_bridge.c:241-270 | success if and only if such a chain exists; then the destination starts with the concatenated bytes |

## Left out

- HTTP, TLS, XML, certificates and pairing: library calls and an unseen server.
- The user interface, video presentation and diagnostics: no algorithm to speak of.
- Socket, poll, address and thread shims of `scarlet.rs`: thin wrappers around system calls.
- The streaming core, ENet, Opus, mbedTLS and the kernel: a start or a send succeeds or fails, a wake needs a live queue.
- Weak memory ordering: atomics are sequentially consistent steps.
- Fairness: the progress theorems bound the steps of operations under way; a kernel that never schedules a thread is not excluded. Spurious returns are excluded from termination, not from safety.
- The core lock and the gate in `Lifecycle`: acquired in one step, poisoning ignored as the source does; the audio renderer, the host strings and the reported error stages are left out. A `stop` or drop of a connection already stopped does nothing and is not a step.
- Memory in `CHeap`: a total function from addresses to cells; a header is stored as its own kind of cell, so its byte layout is not modelled, and programs write only inside the payload they asked for.
- `errno`: kept for the allocator only.
- C `int` limits in `vsnprintf`: widths, precisions and the total are unbounded integers, as if they fit. Floating-point conversions appear as the fixed text the source prints for them.
- `strtoul` with a base of one or above 36, or a null end pointer: bases are whatever the caller passes, the end position is always returned.
- `translate` and `trigger` of the gamepad code: table lookups and one scaling. Slot masks are sets of bit positions, of which there are sixteen.
- Touch.PositionExactlyOnThePicture: positions are exact reals, because the rounding of 32-bit floats is not modelled; on a border of the picture the source may round either way. Pressure and contact area are not sent by the source.
- Keyboard.KeycodeToVk: states the range only; the character keys are stated by `Keyboard.CharIsOnItsKey`, and the codes of the named keys by `Keyboard.NamedKeysAreNumbered`, and that no named key shares its code by `Keyboard.NamedKeyIsAlone`. The space bar, Tab, Enter, Backspace and Escape keys make characters too, but the source sends those characters as other keys or not at all.
- Keyboard modifiers, wheel and relative motion: they leave nothing held. Shortcut classification and click suppression: local flags that are never sent.
- The mutex around the input and gamepad trackers: their operations are modelled one after the other.
- The Rust standard library: `lines`, `split_whitespace` and `Layout::from_size_align` are specified after their documentation.
