# Verification of the Sterialize kernel's algorithms

A Dafny model of the parts of this x86-64 kernel that hold real algorithms, with proofs of what they
promise. `dafny verify dfyconfig.toml` checks all of it.

| files | component |
|---|---|
| `IntegerStandard`, `PrintfFlags`, `PrintfInteger`, `PrintfFormat`, `PrintfText`, `PrintfReads`, `PrintfSink`, `PrintfEngine`, `PrintfDecimal`, `PrintfResults`, `PrintfWhole`, `Numerals` | formatted output (`src/rtl/printf.c`) |
| `Scheduler`, `SchedulerRuns`, `RoundRobin`, `ContextSwitch`, `ConcurrentLoads`, `Interrupts`, `TrapFrame` | pre-emptive scheduling (`src/ps`, `src/hal`) |
| `BumpHeap`, `Threads`, `PhysicalMemory` | allocators and thread memory (`src/mm`, `src/ps/ps.c`) |
| `Mouse`, `Strings`, `Video` | mouse decoder, string routines, text drawing |
| `Util` | sequences, powers, machine words |

The code changes buffers, tables and counters in place, so it is modelled by classes, arrays and loops.
Each method is proved against a function of its inputs or old state, and lemmas then prove what that
function means: against section 7.21.6.1 of ISO/IEC 9899:2011 for formatted output, over whole runs for
the scheduler and the allocators, against a batch decoder for the mouse.

Machine arithmetic is written out where it matters: 64-bit negation, 32-bit digit reading and stack
addresses, byte and pixel arithmetic. Characters are Dafny `char`s; a C string is the sequence before
its terminator.

## Main results

- Integer conversions. `PrintfResults.DirectiveMeetsStandardIff` says exactly when a d, i, u, x, X or o
  directive prints what the standard asks for: when sign, prefix and zeros fit the 32-byte scratch buffer
  (with one curious exception, a space sign that padding replaces), and when a negative `*` precision,
  which the code takes for zero, would not show.
- Formats. Scanning and printing formats are inverse in both directions (`PrintfFormat.ScanPrint`,
  `PrintfFormat.PrintScan`), so formats concatenate (`PrintfText.FormatConcat`).
- Whole formats. From the characters of a format to those of its output: `PrintfWhole.FormatMeetsStandardIff`
  is the integer result with any text around the directive, `PrintfWhole.ItemPrintsFrom` says which arguments
  each item prints from.
- Output. Every path hands the sink its characters with the indices 0, 1, 2, ... once each
  (`PrintfEngine.Vsnprintf`), so bounded output is a truncation of unbounded output
  (`PrintfEngine.Snprintf`).
- Decimal output. What fits the scratch buffer is printed whole (`PrintfDecimal.DecimalPrinted`). A reader
  that knows only digits and points gets the number back from the emitted field, padding and sign included,
  exactly when `PrintfDecimal.FieldDenotesIff` says.
- Scheduling. Invariants over all runs (`SchedulerRuns.Safety`), the cyclic order of ticks and its
  fairness (`RoundRobin.TickRotates`, `RoundRobin.Fairness`), and transparency of context switches under
  every interleaving, other threads' terminations included (`ContextSwitch.Transparent`). A loaded slot runs
  within 63 ticks while threads come and go, if no running thread is terminated (`RoundRobin.WaitsAtMost`).
  The classes that model the code carry out exactly those runs (`Interrupts.Execute`). Loads and
  terminations that interrupt one another are right exactly when none of three races happens
  (`ConcurrentLoads.AlwaysRightIff`).
- Memory, mouse and screen. Stack pointers in the table are the ends of stacks that share no byte with
  anything on the heap (`Threads.SlotsSeparate`). A packet moves the cursor as near to where it was sent as
  the screen allows (`Mouse.SentMoves`). Glyphs stand where `Video.GlyphsIff` says, with the bits of their
  font bytes (`Video.RowIsFontByte`).

## Where the code falls short

Each line names the member that says exactly when, and one with an input or a run that fails.

- A tick takes slot 0 unchecked, so it can resume a terminated thread: `RoundRobin.DispatchesLoadedIff`,
  `RoundRobin.RevivesDeadSlot`.
- Terminating the running thread sends the next tick back to slot 0, so others can wait for ever:
  `RoundRobin.WaitsAtMost` holds without that, `RoundRobin.Starves` is the run.
- The real-time clock's handler ends its interrupt itself and the dispatcher ends it again, so PIC1 gets two
  bytes for it: `ContextSwitch.OneEndPerInterruptIff`, `Interrupts.ClockInterrupt`.
- `PspTerminateThread` compares the instruction pointer saved last, so it misses a thread that has moved on
  from its start address: `ContextSwitch.TerminatesIff`, `ContextSwitch.TerminationMissed`.
- `PsLoadTask` runs with interrupts enabled and tests a slot before it takes it, so two loads can lose a
  record: `ConcurrentLoads.AllLoadedIff`, `ConcurrentLoads.TwoLoadsOneSlot`. A termination that comes before a
  load has stored the status is undone: `ConcurrentLoads.AlwaysRightIff`, `ConcurrentLoads.TerminationUndone`.
- `MiLastAddress` zero is taken for none, so a range that ends at a wrapped zero is followed by one that
  starts over: `PhysicalMemory.BlockMap.EndsRightIff`, `PhysicalMemory.SameEndTwice`. The end pointer of a
  descriptor is never the end of its block: `PhysicalMemory.DescriptorCovers`.
- `%s` looks at one character past its precision, and with precision zero at all up to the terminator, so it
  can read outside of a buffer that the standard allows: `PrintfReads.StaysInsideIff`,
  `PrintfReads.ReadsOutside`. Strings of 2^32 characters are padded wrongly:
  `PrintfResults.StringMeetsStandardIff`, `PrintfResults.LongStringPadded`.
- Precisions above 17 put zeros in the buffer before `sprint_broken_up_decimal` runs. In its `%g` mode that
  prints no point for a zero fraction but keeps those zeros, which multiplies the number:
  `PrintfDecimal.FieldDenotesIff`, `PrintfDecimal.ZerosMultiply`.
- `%llb` prints the low 32 bits of a wider number only: `PrintfWhole.BinaryReadsBack`.
- A negative `*` precision is taken for zero: `PrintfResults.DirectiveMeetsStandardIff`,
  `PrintfResults.NegativeStarShows`.
- `string_to_int` overflows above INT_MAX - 48: `Strings.StringToIntUndoesPrintf`,
  `Strings.OverflowsBelowLimit`. A mouse movement of -256 is decoded as none: `Mouse.MovementIsNineBit`,
  `Mouse.FarthestLost`.

## Model

| member | source | states |
|---|---|---|
| PrintfInteger.MeetsStandardIff | src/rtl/printf.c:298-419 | for every 64-bit argument, flags, width and precision the emitted text is the standard's if and only if sign, prefix and zeros fit 32 bytes, or padding supplies the one space sign that does not |
| PrintfInteger.MeetsStandardInRange | src/rtl/printf.c:298-419 | precisions up to 30, and widths up to 32 under zero padding, are always right |
| PrintfInteger.NtoaAbsIsMagnitude | src/rtl/printf.c:144-147 | unsigned negation yields the magnitude of every signed word, the minimum included |
| PrintfInteger.BodyShape | src/rtl/printf.c:298-382 | the scratch buffer holds digits, zeros, prefix and sign in reverse, given room |
| PrintfInteger.HexPrefix | src/rtl/printf.c:328-363 | the prefix replaces at most two zeros that only filled the field and none a precision asked for |
| PrintfInteger.SpaceStands | src/rtl/printf.c:365-379 | with precision 32 and a wider field a dropped space sign does not show |
| PrintfInteger.MissesOtherwise | src/rtl/printf.c:310-379 | in all other overflowing cases the text differs from the standard's |
| Numerals.LsdDigitsDenote | src/rtl/printf.c:408-416 | the generated digits denote the value modulo base^32, in every base |
| Numerals.LsdDigitsAreNumeral | src/rtl/printf.c:408-416 | a value below base^cap comes out as its usual numeral reversed |
| Numerals.NumeralDenotes | src/rtl/printf.c:408-416 | a numeral reads back to its number |
| Numerals.NumeralDigits | src/rtl/printf.c:412-413 | a numeral has only digits of its base and alphabet case, and no leading zero |
| Numerals.DigitCharIs | src/rtl/printf.c:412-413 | the digits are those of 0123456789abcdef, or of the capital alphabet |
| Numerals.ValueOfCons | src/rtl/printf.c:408-416 | the first digit of a numeral counts most |
| Numerals.WordLength | src/rtl/printf.c:53-57 | 64-bit words have at most 22, 20 or 16 digits, so the scratch buffer holds them |
| PrintfFormat.ScanPrint | src/rtl/printf.c:883-1208 | scanning the text of any well-formed literals and directives recovers exactly those, in order |
| PrintfFormat.PrintScan | src/rtl/printf.c:883-1208 | a complete format prints back to itself and everything scanned is well formed |
| PrintfFormat.ScanConcat | src/rtl/printf.c:883-1208 | a concatenation of complete formats scans to the concatenation of their items |
| PrintfFormat.OrdinaryDirectives | src/rtl/printf.c:899-1206 | every conversion of the switch is well formed with any flags, width, precision and length |
| PrintfFormat.FlagRunExact | src/rtl/printf.c:899-912 | the flag loop takes exactly the run of flag characters |
| PrintfText.FormatConcat | src/rtl/printf.c:872-1215 | output of a concatenation of complete formats is the concatenation of outputs, the argument list split |
| PrintfWhole.PlainText | src/rtl/printf.c:886-894 | text without '%' is printed as it stands and takes no argument |
| PrintfWhole.DirectiveInText | src/rtl/printf.c:883-1208 | literal text around a directive comes out as written, and the directive as it does alone |
| PrintfWhole.FormatMeetsStandardIff | src/rtl/printf.c:883-1083 | an integer directive as the standard spells it, with any text around it, prints that text around the standard's if and only if it fits and no negative '*' precision shows |
| PrintfWhole.OthersPrintThemselves | src/rtl/printf.c:1198-1206 | a character that is no conversion prints itself |
| PrintfWhole.PercentPrintsPercent | src/rtl/printf.c:1198-1201 | "%%" prints "%" and takes no argument |
| PrintfWhole.ItemTakes | src/rtl/printf.c:917-1207 | an item leaves the arguments shortened by one for each '*' and one for each of the conversions diouxXbfFeEgGcsp |
| PrintfWhole.ArgumentAfterStars | src/rtl/printf.c:917-951 | a conversion finds the arguments after those of its '*' fields |
| PrintfWhole.ItemPrintsFrom | src/rtl/printf.c:883-1208 | the k-th item of a format prints from the arguments left by as many as the items before it take |
| PrintfText.AtoiDenotes | src/rtl/printf.c:253-261 | width and precision digits denote their value modulo 2^32 |
| PrintfText.AtoiReadsNumeral | src/rtl/printf.c:253-261 | the decimal numeral of a number below 2^32 is read as that number |
| PrintfResults.DirectiveMeetsStandardIff | src/rtl/printf.c:899-1083 | a scanned integer directive with its arguments, '*' included, prints the standard's text if and only if it fits and no negative '*' precision shows |
| PrintfResults.NegativeStarShows | src/rtl/printf.c:945-950 | "%.*d" of -1 and 0 does not print the zero the standard asks for |
| PrintfResults.ResolvedSpec | src/rtl/printf.c:899-951 | scanned flags, width and precision are those the standard reads, but for a negative '*' precision |
| PrintfResults.ResolvedValue | src/rtl/printf.c:953-990 | the argument narrowed by the code is the one the standard converts to the type the length modifier names |
| Util.SignedUnique | src/rtl/printf.c:1041-1060 | the signed argument is the only number of its range congruent to the word passed |
| PrintfResults.ZeroForNoneIff | src/rtl/printf.c:945-950 | precision zero in place of none goes unnoticed exactly for non-zero values, or octal with '#', without a zero-filled gap |
| PrintfResults.SignedReadsBack | src/rtl/printf.c:1041-1049 | %lld of every 64-bit value reads back to it |
| PrintfResults.PointerReadsBack | src/rtl/printf.c:1168-1196 | a plain %p of a non-null pointer is "0x" and exactly 16 hexadecimal digits that read back to it |
| PrintfResults.NullTexts | src/rtl/printf.c:1131-1177 | for all flags, widths and precisions: null strings are (null), padded with spaces unless zero padding is asked for, and null pointers (nil), padded to 18 with a minus only |
| PrintfWhole.CharacterInField | src/rtl/printf.c:1104-1126 | %c is the low byte of its argument at the end of a field of blanks that the minus flag chooses, max(1, width) columns |
| PrintfWhole.PointerField | src/rtl/printf.c:1168-1196 | %p with a precision up to 30, or a minus: zeros after the prefix, blanks after the digits, and no give-back |
| PrintfWhole.FrontIsGiven | src/rtl/printf.c:1085-1102 | a floating conversion hands on the argument's low 32 bits as an int, its case, style and notation, and the scanned width, precision and flags |
| PrintfWhole.BinaryReadsBack | src/rtl/printf.c:1010-1013 | %llb prints ones and zeros that denote the low 32 bits of its argument |
| PrintfWhole.BinaryPrefix | src/rtl/printf.c:353-363 | %#llb of a number of at most 30 bits is its binary numeral after 0b |
| PrintfResults.StringMeetsStandardIff | src/rtl/printf.c:1128-1166 | %s prints the standard's text exactly when the 32-bit column count is right or does not matter, terminated or not |
| PrintfResults.LongStringPadded | src/rtl/printf.c:240-240 | 2^32 characters at width 1 are padded |
| PrintfSink.Sink.constructor | src/rtl/printf.c:877-881 | a null buffer selects the null output function |
| PrintfSink.Sink.Out | src/rtl/printf.c:195-231 | memory and callback hold exactly what the calls so far put there, whichever output function |
| PrintfSink.Sink.Put | src/rtl/printf.c:890-890 | one character at the next index |
| PrintfEngine.OutRev | src/rtl/printf.c:265-294 | emits the reversed buffer forwards, padded to the width on the side the flags say |
| PrintfEngine.GenerateDigits | src/rtl/printf.c:408-416 | leaves the digits of the value in the buffer, least significant first |
| PrintfEngine.FormatBuffer | src/rtl/printf.c:298-379 | turns digits into the whole reversed field body and adjusts the width |
| PrintfEngine.NtoaFormat | src/rtl/printf.c:298-382 | emits the padded field of the formatted body |
| PrintfEngine.Ntoa | src/rtl/printf.c:386-419 | emits the text of one integer |
| PrintfReads.Strnlen | src/rtl/printf.c:236-241 | bounded string length in 32 bits, and how many characters it looks at, in memory with or without a terminator |
| PrintfReads.ReadString | src/rtl/printf.c:1138-1156 | both loops of %s: the columns, the characters put out and how many are looked at |
| PrintfReads.StaysInsideIff | src/rtl/printf.c:1138-1156 | for memory the standard allows, the reads stay inside if and only if it is terminated or the precision is neither zero nor its size |
| PrintfReads.ReadsWithinPrecisionIff | src/rtl/printf.c:1138-1156 | nothing past the precision is read if and only if the text is shorter than it |
| PrintfReads.ReadsOutside | src/rtl/printf.c:1137-1151 | two characters without a terminator are read past at precisions two and zero |
| PrintfEngine.ScanFlags | src/rtl/printf.c:899-912 | consumes the flag run and sets exactly its flags |
| PrintfEngine.ReadNumber | src/rtl/printf.c:253-261 | consumes the digit run and returns its value modulo 2^32 |
| PrintfEngine.ReadDirective | src/rtl/printf.c:899-990 | stops at the conversion character having consumed just the printed directive, with fields resolved |
| PrintfEngine.Convert | src/rtl/printf.c:993-1207 | emits the conversion's text and takes its argument, as `PrintfWhole` and `PrintfResults` pin them |
| PrintfEngine.Vsnprintf | src/rtl/printf.c:872-1215 | the calls to the sink are the format's text at indices 0, 1, 2, ... and one terminator; the result is its length as an int |
| PrintfEngine.Snprintf | src/rtl/printf.c:1241-1248 | for every count, if the buffer has space for the first min(n, count - 1) characters and a NUL, it holds them and nothing else changed; the result is n, for a null buffer too |
| PrintfEngine.Sprintf | src/rtl/printf.c:1231-1238 | the whole text and a NUL, nothing else changed |
| PrintfEngine.Vfctprintf | src/rtl/printf.c:1277-1281 | the callback receives the text without its NUL characters |
| PrintfEngine.Vprintf | src/rtl/printf.c:1251-1255 | the result is the length of the text |
| PrintfEngine.StreamTruncates | src/rtl/printf.c:195-201 | storing an indexed stream and its terminator under a bound is truncation |
| PrintfWhole.TruncatedReads | src/rtl/printf.c:1241-1248 | the buffer read as a string is the longest prefix of the text that leaves room for the NUL |
| PrintfEngine.InBoundsIff | src/rtl/printf.c:195-201 | no store leaves the memory if and only if the cut text and its terminator fit it |
| PrintfEngine.StreamDelivered | src/rtl/printf.c:223-231 | the callback is given an indexed stream with NUL characters dropped |
| PrintfWhole.WithoutNulSame | src/rtl/printf.c:223-231 | a text without NUL characters is delivered whole |
| PrintfWhole.OnlyNulDropped | src/rtl/printf.c:223-231 | only the NUL characters are dropped |
| PrintfDecimal.SprintBrokenUpDecimal | src/rtl/printf.c:574-679 | emits the field of the decimal body, whatever the buffer held on entry |
| PrintfDecimal.LimitPrecision | src/rtl/printf.c:857-862 | a precision above 17 becomes zeros in the buffer and as many places fewer, 17 whenever at most 32 zeros suffice |
| PrintfDecimal.StripZeros | src/rtl/printf.c:584-600 | drops the trailing zeros of the fraction and terminates |
| PrintfDecimal.DecimalPrinted | src/rtl/printf.c:574-679 | what fits 32 bytes is printed whole: sign, integral part, fraction and what the buffer held on entry, padded to the width with zeros or spaces |
| PrintfDecimal.DecimalExact | src/rtl/printf.c:578-626 | with z zeros on entry the printed number is the integral part, the point and exactly `precision` + z places, and its digits denote (integral * 10^precision + fractional) * 10^z |
| PrintfDecimal.DecimalStripped | src/rtl/printf.c:584-605 | %g without '#': the printed number has no point for a zero fraction, so z zeros on entry multiply the integral part by 10^z; otherwise its last place kept is not zero and it reads as the same value |
| PrintfDecimal.DenotesIff | src/rtl/printf.c:578-643 | the printed number reads as the one given if and only if a point is printed, the buffer held no zeros on entry, or the integral part is zero |
| PrintfDecimal.FieldDenotesIff | src/rtl/printf.c:574-679 | so it is with the whole emitted field, padded to any width that fits, and it has a minus sign exactly for negative numbers |
| PrintfDecimal.ZerosMultiply | src/rtl/printf.c:584-605 | three zeros on entry print 3 with no fraction as 3000 in %g mode |
| PrintfDecimal.StripExact | src/rtl/printf.c:587-598 | stripping divides by ten once per place dropped |
| Scheduler.Table.PsScheduleThreads | src/ps/sched.c:15-69 | the new table and the registers resumed, as a function of the old table and the interrupted registers |
| Scheduler.Table.PickNext | src/ps/sched.c:23-62 | the nested searches find the first running slot, save it, and name the slot to run |
| Scheduler.Table.PsLoadTask | src/ps/sched.c:71-88 | loads into the first free slot and counts it, or changes nothing |
| Scheduler.Table.PspTerminateThread | src/ps/ps.c:26-38 | clears exactly the slots whose saved instruction pointer matches |
| Scheduler.TerminatedIs | src/ps/ps.c:31-35 | a cleared slot keeps its pid and flags and has all registers zero |
| SchedulerRuns.Safety | src/ps/sched.c:15-99 | after any creates, terminations and ticks, each one step: at most one slot running, loaded pids distinct and below the next pid, the count equals accepted loads and bounds the loaded slots |
| SchedulerRuns.CountsExactly | src/ps/sched.c:71-88 | without terminations the loaded slots are exactly the first `iTaskCount` |
| SchedulerRuns.FullTable | src/ps/sched.c:75-87 | a load into a full table changes no slot |
| ConcurrentLoads.AllLoadedIff | src/ps/sched.c:71-88 | for any interleaving of the steps of loads and ticks, every load that found a slot ends with its record in the table if and only if no slot is found free twice |
| ConcurrentLoads.AlwaysRightIff | src/ps/ps.c:26-38 | with terminations among the steps, slot by slot: at every moment each record copied stands in its slot or was terminated, not both, if and only if no load overwrites a live record or marks a terminated one, and no tick revives one |
| ConcurrentLoads.VisitsTerminate | src/ps/ps.c:26-38 | the visits of all slots left alone are the atomic termination |
| ConcurrentLoads.TerminationUndone | src/ps/sched.c:79-80 | a record terminated between its copy and the store of its status ends up loaded with zero registers |
| ConcurrentLoads.ApartIff | src/ps/sched.c:77-80 | two loads share a slot if and only if one found it free after the other did |
| ConcurrentLoads.OnlyInWindow | src/ps/sched.c:77-80 | that can only happen between another load's test of the slot and its store of the status, or after the other's record was terminated |
| ConcurrentLoads.CountsDones | src/ps/sched.c:81-81 | the count grows by every load that found a slot, those that were overwritten included |
| ConcurrentLoads.Alone | src/ps/sched.c:71-88 | a load left alone is the atomic load |
| ConcurrentLoads.TwoLoadsOneSlot | src/ps/sched.c:77-80 | a load preempted after its test shares slot 0 with the next |
| SchedulerRuns.TickShape | src/ps/sched.c:62-68 | a tick keeps all pids, changes no loaded slot to a free one, and only slot 0 from free to running |
| RoundRobin.TickRotates | src/ps/sched.c:24-69 | with slot 0 loaded a tick moves the running slot to the cyclically next loaded one, saving the one it stops |
| RoundRobin.ReachableRotates | src/ps/sched.c:15-99 | every reachable table with slot 0 loaded and some slot running is one the rotation applies to |
| RoundRobin.RankAdvances | src/ps/sched.c:37-57 | going to the next loaded slot adds one to its rank, round the number of loaded slots |
| RoundRobin.Fairness | src/ps/sched.c:15-69 | with L loaded slots every one of them runs after exactly one of any L consecutive ticks |
| RoundRobin.WaitsAtMost | src/ps/sched.c:15-69 | in any run since boot a loaded slot runs within 63 ticks, whatever is created and terminated, if no termination hits it or a running slot |
| RoundRobin.Starves | src/ps/sched.c:62-67 | with slots 0, 1 and 2 loaded, terminating slot 1 whenever it runs keeps slot 2 waiting for any number of ticks |
| RoundRobin.StarvingReached | src/ps/sched.c:71-88 | three creates and a tick lead there |
| RoundRobin.PrefixRotates | src/ps/sched.c:15-69 | without terminations the step is (i + 1) mod `iTaskCount` |
| RoundRobin.DispatchesLoadedIff | src/ps/sched.c:23-65 | the dispatched slot was loaded if and only if slot 0 is, or a slot below 63 was running among two or more loads |
| RoundRobin.RevivesDeadSlot | src/ps/sched.c:62-67 | create, terminate, tick: the cleared slot 0 is resumed with zero registers |
| ContextSwitch.Transparent | src/ps/sched.c:32-69 | under every interleaving of own steps, interrupts, creates and terminations that spare it, the registers of a loaded slot are those its own steps alone produce |
| ContextSwitch.TransparentSinceSpawn | src/ps/ps.c:6-24 | in any run since boot in which nothing terminates it, k own steps of a thread are k applications of its step function to the registers it was created with |
| ContextSwitch.SpawnedContext | src/ps/ps.c:11-23 | a created thread gets the first free slot, the next pid and its initial registers |
| ContextSwitch.OneEndPerInterruptIff | src/hal/idt.c:91-107 | over any run PIC1 gets as many end-of-interrupt bytes as there were interrupts if and only if the real-time clock never interrupts; `Interrupts.Execute` shows the dispatcher sends those bytes |
| ContextSwitch.TickContext | src/ps/sched.c:34-67 | a tick loses no context, whatever is loaded: the stopped one is saved, the resumed one taken up, all others kept |
| ContextSwitch.SeenSameIff | src/ps/sched.c:35-35 | the registers compared are all but the two words only a frame has |
| ContextSwitch.TerminatesIff | src/ps/ps.c:26-38 | terminating a waiting or running thread by its start address clears it if and only if its own steps had brought it back there when its registers were last saved |
| ContextSwitch.WaitingTerminatesIff | src/ps/ps.c:26-38 | for a waiting thread: after all its steps so far |
| ContextSwitch.TerminationMissed | src/ps/ps.c:31-31 | a thread stopped after one step outlives its termination |
| Interrupts.Kernel.constructor | src/ke/init.c:49-61 | after start-up vectors 32, 33, 40 and 44 have the tick, keyboard, clock and mouse handlers, the other lines up to 47 the empty one, and all else none |
| Interrupts.Kernel.HalRegisterInterrupt | src/hal/idt.c:60-67 | replaces one handler |
| Interrupts.Kernel.KiUpdateTick | src/hal/pit.c:32-39 | counts the tick and schedules |
| Interrupts.Kernel.HalIRQHandler | src/hal/idt.c:91-107 | PIC1 gets one end-of-interrupt byte whether the scheduler switches or returns, but two from the clock handler; PIC2 gets one for its lines unless the handler switched tasks |
| Interrupts.Kernel.KiUpdateClock | src/ke/clock.c:42-58 | sends PIC1 an end-of-interrupt byte of its own |
| Interrupts.ClockInterrupt | src/ke/clock.c:73-75 | an interrupt at vector 40 ends twice at PIC1 and once at PIC2 |
| Interrupts.TimerInterrupt | src/hal/pit.c:32-39 | a whole timer interrupt through the dispatcher is the tick step of the transition system |
| Interrupts.DeviceInterrupt | src/hal/idt.c:91-107 | an interrupt on any other line leaves tasks and registers alone; PIC2 gets one byte for its own |
| Interrupts.Execute | src/ps/sched.c:15-99 | any run of the table and dispatcher methods is the run of the transition system, end-of-interrupt bytes included |
| TrapFrame.Cpu.PushAll | src/hal/idt.asm:1-17 | fifteen registers in frame order, nothing else written |
| TrapFrame.Cpu.PopAll | src/hal/idt.asm:19-35 | takes the fifteen registers back from their places |
| TrapFrame.Cpu.EnterIrq | src/hal/idt.asm:50-54 | the pushed words read as the interrupted registers with the line's numbers |
| TrapFrame.Cpu.LeaveIrq | src/hal/idt.asm:56-58 | restores every register from the frame at the stack pointer |
| TrapFrame.Cpu.PopRegs | src/ps/ps.asm:3-31 | restores every register from the frame at an address |
| TrapFrame.Switch | src/ps/sched.c:34-67 | frame, copy to a slot and `pop_regs` restore every register of the interrupted thread on any processor state |
| TrapFrame.NoSwitch | src/hal/idt.asm:50-58 | the exit that does not switch restores every register and the stack pointer |
| BumpHeap.AndMask | src/mm/heap.c:11-11 | a mask of k ones keeps the remainder modulo 2^k |
| BumpHeap.AndHighMask | src/mm/heap.c:12-12 | its complement takes the remainder away |
| BumpHeap.AlignUpLeast | src/mm/heap.c:10-14 | rounding up yields the least multiple not below |
| BumpHeap.Heap.BallocAligned | src/mm/heap.c:9-19 | the mask arithmetic is rounding up, for every power of two |
| BumpHeap.Heap.Malloc | src/mm/heap.c:21-25 | the next 4-aligned address, the base moved past the block |
| BumpHeap.BlocksOrdered | src/mm/heap.c:9-29 | whatever is freed, blocks are 4-aligned and follow one another, and the base grows by the total and less than 4 bytes a call |
| Threads.ThreadKernel.PspCreateThread | src/ps/ps.c:6-24 | a record and a stack from the heap, and the create step; the slot taken has the next pid, rip, cs 0x28, ss 0x30, rflags 0x202, rsp the end of the stack in 32 bits, and all else as the memory held it |
| Threads.StacksSeparate | src/ps/ps.c:11-23 | while the base stays below 2^32 each stack is the block below its stack pointer, and disjoint from every other block |
| Threads.SlotsSeparate | src/ps/ps.c:21-23 | the 64 KiB below the stack pointer of a slot are the stack allocated for it and share no byte with another slot's or with any block |
| Threads.ThreadKernel.Perform | src/ps/ps.c:6-24 | over any run of creates and other allocations that stays below 2^32 the stacks of all slots are disjoint |
| PhysicalMemory.BlockMap.MiInitializeBlocks | src/mm/pmm.c:3-32 | descriptor k is that of the k-th block after the start address, unused, pointers included |
| PhysicalMemory.UsableAdds | src/mm/pmm.c:13-22 | usable bytes add up over a concatenation of memory maps, modulo 2^32 |
| PhysicalMemory.UsableOne | src/mm/pmm.c:16-20 | only entries of kind 1 count |
| PhysicalMemory.BlocksFit | src/mm/pmm.c:12-31 | as many descriptors as whole blocks of 4096 bytes, and one where there is none |
| PhysicalMemory.DescriptorCovers | src/mm/pmm.c:9-31 | it covers that block by its plain addresses modulo 2^32; its end pointer is four blocks past the begin and never the end |
| PhysicalMemory.BlockMap.MmAllocPhysicalMemory | src/mm/pmm.c:55-82 | takes the next blocks in order and returns the address that many blocks past the base modulo 2^32; leaves the table exactly when too few are left |
| PhysicalMemory.BlockMap.EndsRightIff | src/mm/pmm.c:57-57 | the address is the end of the blocks taken if and only if the last one was not a wrapped zero |
| PhysicalMemory.BlockMap.Allocations | src/mm/pmm.c:55-82 | call k returns start + 4096 * (b1 + ... + bk) modulo 2^32 for all k if and only if no range but the last ends at a wrapped zero; below 2^32 the returned addresses tile the memory; the used descriptors are exactly the first sum of all |
| PhysicalMemory.WrapRestarts | src/mm/pmm.c:57-57 | from one block below 2^32 the first range ends at a wrapped zero and the second should end at 4096 |
| PhysicalMemory.SameEndTwice | src/mm/pmm.c:57-57 | there, two calls for one block each return the same address, the end of the first |
| PhysicalMemory.BelowLimit | src/mm/pmm.c:55-82 | ranges that end below 2^32 meet that condition and their addresses are exact |
| PhysicalMemory.AddressesTile | src/mm/pmm.c:72-81 | below 2^32 the ranges between the returned addresses have the sizes asked for, follow on and never overlap |
| PhysicalMemory.BlockMap.MiAccessBlock | src/mm/pmm.c:34-53 | the lowest unused descriptor for every argument, or the slot past the table when all are used |
| PhysicalMemory.BlockMap.NextBlock | src/mm/pmm.c:34-53 | after allocations short of the block count, the block numbered by their total |
| Mouse.Driver.Handle | src/i8042prt/mouse.c:52-91 | the cursor is the batch decoder's over the packets complete before this byte; a packet is ready exactly when this byte completed one |
| Mouse.Driver.HandleAll | src/i8042prt/mouse.c:52-91 | after any bytes: drop the first, group the rest, fold the packets completed before the last byte |
| Mouse.Driver.Process | src/i8042prt/mouse.c:93-182 | a waiting packet is applied and none is waiting afterwards, so the ready checks of the switch never fire; `MovedNearest` says what applying means |
| Mouse.MovedNearest | src/i8042prt/mouse.c:123-161 | each coordinate goes to the place on the screen nearest to the old one plus the movement, and exactly there when it is inside |
| Mouse.SentMoves | src/i8042prt/mouse.c:93-182 | a packet encoded for a movement right and up moves the cursor by it, up to the nearest place on the screen; left, middle and right buttons give 1, 2 and 3, in that order |
| Mouse.ClampTiny | src/i8042prt/mouse.c:151-161 | a size of one pins the coordinate to zero, a size of zero counts as 2^32 |
| Mouse.StreamDecodes | src/i8042prt/mouse.c:64-90 | a stream of sent packets decodes to those packets |
| Mouse.Driver.HandlePackets | src/i8042prt/mouse.c:52-91 | between any first and last byte every packet sent moves the cursor, in order |
| Mouse.OneMore | src/i8042prt/mouse.c:64-90 | one more byte completes, extends, starts or skips a packet of the batch decoder |
| Mouse.MovementIsNineBit | src/i8042prt/mouse.c:123-149 | the movement is the nine-bit two's complement number, moved 255 further on overflow, except at -256 |
| Mouse.FarthestLost | src/i8042prt/mouse.c:131-131 | the movement -256 is decoded as 0 |
| Mouse.CursorInside | src/i8042prt/mouse.c:151-161 | the cursor stays on the screen, off its first row and column |
| Strings.Strlen | src/rtl/rtl.c:3-12 | the number of characters before the terminator |
| Strings.Strstr | src/rtl/rtl.c:111-120 | the least offset of the substring, and nothing exactly when it occurs nowhere |
| Strings.StringToInt | src/rtl/rtl.c:193-201 | the number read, or nothing where int arithmetic would overflow |
| Strings.ParsesNumeralIff | src/rtl/rtl.c:193-201 | a decimal numeral is read without overflow exactly up to INT_MAX - 48 |
| Strings.ParsesSum | src/rtl/rtl.c:193-201 | of any characters the number read is the sum of their distances from '0', each times its power of ten |
| Strings.OverflowsBelowLimit | src/rtl/rtl.c:193-201 | 2147483600 overflows |
| Strings.StringToIntUndoesPrintf | src/rtl/rtl.c:193-201 | reading the %d text of n returns n exactly for those n |
| Video.OffsetExact | src/hal/vid.c:134-135 | no pixel offset wraps in 32 bits and every slot lies inside pitch * height |
| Video.SlotsDisjoint | src/hal/vid.c:134-135 | distinct on-screen pixels have disjoint slots |
| Video.BytesDenote | src/hal/vid.c:135-135 | the four bytes of a pixel denote the colour, least significant first |
| Video.InSlotIff | src/hal/vid.c:134-135 | the bytes that belong to a pixel are those within 4 * width of the start of a row |
| Video.Display.DisplayChar | src/hal/vid.c:112-146 | adds exactly the on-screen pixels its glyph covers; bytes of no pixel keep their value |
| Video.RowIsFontByte | src/hal/vid.c:130-133 | the eight pixels of a glyph row, read from left to right, are the bits of its font byte, highest first |
| Video.CoversInside | src/hal/vid.c:126-133 | nothing is drawn outside eight columns and sixteen rows |
| Video.Display.DisplayString | src/hal/vid.c:44-64 | a pixel has the text colour if some glyph of the string covers it and is unchanged otherwise, as are the bytes between rows; 16 lines down per newline |
| Video.GlyphsIff | src/hal/vid.c:44-64 | without carriage returns exactly the characters other than newlines are drawn that start left of the right edge, each eight columns right of the one before and sixteen lines down per newline |
| Video.GlyphsAfterReturn | src/hal/vid.c:50-51 | after a carriage return the rest is drawn from the first column, on the line reached |

## Left out

- The floating-point front end of printf (`src/rtl/printf.c:422-571`, `681-867`): its doubles were replaced by ints, its scaling reads an exponent that is never set and its sign test reads undefined bits. `%f`, `%e` and `%g` directives are scanned and take their argument, and what they print is a parameter of the model; `SprintBrokenUpDecimal` is modelled on its own.
- Base 2 (`%b`): the standard has no such conversion to compare with; `BinaryReadsBack` and `BinaryPrefix` are about directives without width and precision.
- Formats that end inside a directive: the code reads past their terminator, so `Complete` is a precondition.
- Convert: the text of a floating conversion is the parameter named above.
- Vsnprintf: that text's characters are assumed to come at consecutive indices, as all others are proved to.
- Snprintf: a store outside of the buffer is undefined in C and dropped in the model; `InBoundsIff` says when there is none.
- A `*` width of INT_MIN is read as 2^31; its negation is undefined in C (`src/rtl/printf.c:925`).
- Arguments that are missing or of another type are undefined in C; the model reads zero or a null pointer.
- DirectiveMeetsStandardIff: widths and precisions written in digits are below 2^32, the range `_atoi` keeps.
- Indices, lengths and the pid and thread counts are unbounded: 2^64 output characters or 2^31 creates are out of reach.
- `snprintf` with memory that overlaps its own arguments.
- MmAllocPhysicalMemory: a search past the last descriptor reads memory outside of this model, so it ends with no address; the table is kept apart from the memory it describes.
- DisplayString: stated for ASCII text and lines below 2^31; the font is an arbitrary table of 4096 bytes.
- PspCreateThread: the registers a new thread does not set are whatever the allocated memory held, a parameter of the model.
- Switch: stack words are addressed one by one; the processor's alignment of the stack before it pushes a frame is not modelled.
- Safety: creates and terminations are single steps, although the code runs them with interrupts enabled; the status a new record holds before it is marked stopped is whatever its memory held. `ConcurrentLoads` models the steps of loads and terminations, with ticks; there a visit of `PspTerminateThread` to one slot, and the copy of a record, are one step each.
- CountsExactly: for the same single steps.
- Transparent: for the same single steps; a tick between the copy of a new record and the store of its status could resume it by the status its memory held.
- Memory shared by threads: `Transparent` is about registers; a step function sees only its own.
- `src/ke/mutex.c`: the lock is passed by value, so no mutual exclusion holds.
- Port programming, the descriptor tables, keyboard and clock translation, bugcheck screens, debug prints, `Sleep`, boot sequencing: hardware effects or small tables without an algorithm.
- `VidSolidColorFill`, `SetPixel`, `VidDisplayStringXY`: unclipped or a simpler loop over the same glyphs.
- `int_to_string`, `strtok_r` and the copy and case helpers: no clean promise, or easy members.
