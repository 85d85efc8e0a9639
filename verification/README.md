# gxtest core in Dafny

This project models the core of gxtest, a test harness for Sega Mega Drive
programs built on the Genesis Plus GX emulator, and proves properties of it:

- **the 68k cycle profiler** (`src/profiler.cpp`, `include/profiler.h`):
  - a sorted table of function address ranges, with insertion, binary-search
    lookup, the two symbol loaders and the end-address fix-up;
  - the per-instruction `OnExecute` step as a pure function on a state record,
    covering the 1-in-N sampling gate, the grand total, the per-address
    histogram, exclusive-cycle attribution, entry counting and the
    CallStack-mode call stack capped at 256 frames;
  - `Start`, `Stop` and `Reset`;
  - the rows `PrintReport` prints and the entries `WriteAddressHistogram`
    writes.
- **the harness's view of the 68k bus** (`src/gxtest.cpp`):
  - 24-bit address decoding onto work RAM, Z80 RAM and the cartridge, with
    the byte-swapped storage of the little-endian build;
  - big-endian word and long access;
  - the ROM loader's size check and byteswap;
  - controller input: pad bits, `SetInput`/`GetInput`/`PressButton`;
  - `GetRomName` and `RunUntilMemoryEquals`.
- **the symbol-header generator** (`tools/elf2sym.py`):
  - nm-line parsing and the work-RAM filter;
  - linker-symbol exclusion and name sanitising;
  - the address-ordered, de-duplicated constants of the header.
- **the test-ROM builder** (`tools/gen_prime_rom.py`):
  - big-endian packing and the two-pass label assembler;
  - branch displacements;
  - the vector table, the header's ROM-end field, 512-byte padding and the
    word-sum checksum.
- **the two test programs**:
  - the prime sieve (`roms/prime_sieve/main.c`);
  - the small game of `roms/symbol_example/main.c`.

Modules:

| file | module | models |
|---|---|---|
| wrappers.dfy | Wrappers | `Option` |
| machine.dfy | Machine | unsigned widths, `^ 1`, 32-bit wrap-around addition |
| hex.dfy | Hex | hex rendering (`std::hex`/`setw`, `{:06X}`) and reading (`int(s, 16)`) |
| keys.dfy | OrderedKeys | the ascending order of a set of addresses (the sorted copy of an unordered map) |
| symbols.dfy | SymbolTable | `FunctionDef`, sorted insert, `LookupFunction`, end saturation and fix-up |
| profiler.dfy | CycleProfiler | class `Profiler`: state, loaders, control, `OnExecute`, traces |
| report.dfy | Report | `PrintReport` row selection, `WriteAddressHistogram` entries |
| megadrive.dfy | MegaDrive | `gxtest.cpp`: bus, ROM loading, input, ROM name, frame loop |
| elf2sym.dfy | SymbolHeader | `elf2sym.py` |
| promgen.dfy | PrimeRom | `gen_prime_rom.py` |
| sieve.dfy | PrimeSieve | `roms/prime_sieve/main.c` |
| game.dfy | GameLoop | `roms/symbol_example/main.c` |

The emulator core is outside the model. It enters only as parameters:

- the CPU's cycle counter value at each executed instruction;
- the cartridge buffer;
- a `Core` function that maps the memories and pad words before a frame to
  the memories after it.

The build with `LSB_FIRST` defined is the one modelled. The cartridge buffer
and work RAM hold every 16-bit pair swapped, and byte accesses go through
`Machine.Flip` (`address ^ 1`). The profiler's opcode fetch goes through the
same convention.

## Model

| member | source | states |
|---|---|---|
| Machine.Flip | src/gxtest.cpp:322 | `a ^ 1` keeps every bit but the lowest and toggles that one |
| Machine.FlipInvolutive | src/gxtest.cpp:171-177 | swapping a pair twice restores it: `Flip(Flip(x)) == x` |
| Machine.FlipInjective | src/gxtest.cpp:366 | distinct byte addresses stay distinct after `^ 1`, so two RAM cells never share storage |
| Machine.Add32 | src/gxtest.cpp:351 | `address + 1` on `uint32_t`: the exact sum when it fits below 2^32, the sum minus 2^32 when it overflows, congruent to the sum modulo 2^32 |
| Hex.ToHex | src/profiler.cpp:411-412 | zero-padded rendering: all hex digits, at least `width` of them, in the requested case |
| Hex.ToHexValue | src/profiler.cpp:411-412 | reading a rendered number back gives the number |
| Hex.ToHexWidth | src/profiler.cpp:411-412 | a number below 16^width renders in exactly `width` digits |
| Hex.DigitsValue | src/profiler.cpp:411-412 | the digits of a number read back as the number |
| Hex.DigitsLength | src/profiler.cpp:411-412 | a number below 16^w needs at most w digits |
| OrderedKeys.SortedKeys | src/profiler.cpp:403-405 | strictly ascending, and holding exactly the keys of the map |
| SymbolTable.LowerBound | src/profiler.cpp:55-58 | the `lower_bound` position: every entry before it starts below the new start, none after it does |
| SymbolTable.UpperBound | src/profiler.cpp:215-218 | the `upper_bound` position: entries before it start at or below the address, entries after it above |
| SymbolTable.UpperBoundUnique | src/profiler.cpp:215-218 | a sorted table has only one such split point |
| SymbolTable.Insert | src/profiler.cpp:54-59 | the table stays sorted by start and gains exactly the new entry (as a multiset); entries starting earlier were already there |
| SymbolTable.InsertPosition | src/profiler.cpp:54-59 | the `lower_bound` position: the new entry goes after every entry with a smaller start and before every entry with an equal or larger one |
| SymbolTable.InsertBeforeEqualStart | src/profiler.cpp:54-59 | a function added at an existing start goes in front of it, and lookup then finds the entry added first |
| SymbolTable.Lookup | src/profiler.cpp:211-227 | a found entry satisfies `start <= addr < end`; an empty table finds nothing |
| SymbolTable.LookupExact | src/profiler.cpp:211-227 | in a table without overlaps, lookup returns entry `i` exactly when `i` contains the address |
| SymbolTable.LookupNoneExact | src/profiler.cpp:211-227 | in a table without overlaps, lookup returns nothing exactly when no entry contains the address |
| SymbolTable.LookupBinary | src/profiler.cpp:211-227 | the binary-search loop returns the same answer as the specification `Lookup` |
| SymbolTable.SaturatingEnd | src/profiler.cpp:96 | `addr + size` when it fits in 32 bits, otherwise `UINT32_MAX`; never below `addr` |
| SymbolTable.FixUpEnds | src/profiler.cpp:113-118 | starts and names are kept; ends only shrink; each end is at most the next start; a changed end equals the next start |
| SymbolTable.FixUpEndsInPlace | src/profiler.cpp:113-118 | the sequential in-place loop equals the entry-wise clamp |
| SymbolTable.FixUpMakesDisjoint | src/profiler.cpp:113-118 | after the fix-up a sorted table is sorted and free of overlaps |
| CycleProfiler.FreshIsValid | include/profiler.h:211-221 | a new profiler satisfies the class invariant, holds no symbols and is not running |
| CycleProfiler.GetSymbolCount | include/profiler.h:125 | the number of registered functions |
| CycleProfiler.IsRunning | include/profiler.h:151 | whether a session is running |
| CycleProfiler.GetTotalCycles | include/profiler.h:177 | the cycles counted since construction or the last Reset |
| CycleProfiler.GetSampleRate | include/profiler.h:182 | the sample rate in force |
| CycleProfiler.GetStats | src/profiler.cpp:206-209 | present exactly for addresses with a statistics entry, and then that entry |
| CycleProfiler.AddFunction | src/profiler.cpp:46-63 | an empty or inverted range changes nothing; otherwise the table stays sorted, gains exactly one entry, and the start's statistics become all zero; nothing else changes |
| CycleProfiler.AddFunctionCovers | src/profiler.cpp:59-62 | after an insertion every function still has a statistics entry |
| CycleProfiler.AddFunctionKeepsValid | src/profiler.cpp:46-63 | AddFunction keeps the class invariant |
| CycleProfiler.SixFunctionsGiveSix | tests/profiler_test.cpp:50-86 | the six registrations of the profiler tests give a symbol count of 6 |
| CycleProfiler.ClearSymbols | src/profiler.cpp:156-159 | the table and the statistics are empty; nothing else changes |
| CycleProfiler.ScanName | src/profiler.cpp:92 | `%255s` stores a prefix of the token of at most 255 characters, the whole token when it is short enough |
| CycleProfiler.NmEntry | src/profiler.cpp:92-108 | only `T`/`t` lines of either nm shape propose a function; it starts at the address and ends at the saturated `addr + size` or `addr + 0x100` |
| CycleProfiler.PlainEntry | src/profiler.cpp:145-150 | every well-formed plain line proposes a function with the saturated end |
| CycleProfiler.AddEntry | src/profiler.cpp:100-108 | one proposal handed to AddFunction: the table stays sorted and gains exactly the kept entry, every function keeps its statistics, nothing else changes |
| CycleProfiler.AddAll | src/profiler.cpp:86-109 | the table gains exactly the proposals AddFunction keeps and stays sorted; the count includes every proposal, even ones AddFunction ignores |
| CycleProfiler.LoadSymbolsFromELF | src/profiler.cpp:65-121 | -1 and no change when nm cannot run; otherwise the count of text symbols, a sorted table without overlaps, and one entry more per kept proposal |
| CycleProfiler.AddAllStats | src/profiler.cpp:46-62 | every kept proposal's start gets zero statistics; other statistics entries are unchanged |
| CycleProfiler.LoadSymbolsFromELFContents | src/profiler.cpp:65-121 | the table is the old functions plus the kept text symbols in start order, each end at most its proposed end; zero statistics for loaded starts, others unchanged; every function still has statistics |
| CycleProfiler.LoadSymbolsFromFileStats | src/profiler.cpp:123-154 | zero statistics for loaded starts, others unchanged; every function still has statistics |
| CycleProfiler.LoadSymbolsFromFile | src/profiler.cpp:123-154 | -1 and no change when the file cannot be opened; otherwise the count of parsed lines and exactly the kept proposals added, sorted |
| CycleProfiler.Start | src/profiler.cpp:168-182 | no-op while running; otherwise takes the mode and histogram flag, maps rate 0 to 1, clears counter, parked cycles, stack and last PC, and keeps statistics, histogram and total |
| CycleProfiler.StartMode | src/profiler.cpp:161-166 | Start with the given mode, rate 1 and no histogram |
| CycleProfiler.Stop | src/profiler.cpp:184-190 | only the running flag is cleared |
| CycleProfiler.StartStopIdempotent | src/profiler.cpp:168-190 | Start on a running profiler and Stop on a stopped one change nothing; Start runs and Stop stops |
| CycleProfiler.StartKeepsValid | src/profiler.cpp:168-190 | Start and Stop keep the class invariant |
| CycleProfiler.Reset | src/profiler.cpp:192-204 | every statistics entry is zero with keys kept; histogram and stack empty; total, parked cycles and last PC zero; the counter is re-read only while running; the table and the sampling counter are untouched |
| CycleProfiler.ResetKeepsValid | src/profiler.cpp:192-204 | Reset keeps the class invariant and leaves a histogram summing to zero |
| CycleProfiler.CodeWord | src/profiler.cpp:229-239 | 0 unless `addr < 0x400000` and `addr + 1 < romsize` |
| CycleProfiler.CodeWordIsRomWord | src/profiler.cpp:229-239 | inside the loaded image the profiler's fetch equals the harness's `ReadWord` and the file's big-endian word |
| CycleProfiler.IsCallOpcode | src/profiler.cpp:421-425 | true exactly for 0x4E80..0x4EBF (JSR) and 0x6100..0x61FF (BSR) |
| CycleProfiler.IsReturnOpcode | src/profiler.cpp:427-431 | a return opcode is never a call opcode |
| CycleProfiler.Attribute | src/profiler.cpp:272-286 | without a containing function the statistics are unchanged; otherwise only that function's entry changes: exclusive cycles grow by delta, the call count by one exactly when the previous PC was non-zero and outside the function, inclusive cycles stay |
| CycleProfiler.TrackCalls | src/profiler.cpp:291-312 | a call pushes the current function's frame only if there is one and the stack holds fewer than 256 frames; a return pops a non-empty stack and adds the elapsed cycles to inclusive time only when positive; anything else changes nothing; the depth stays at most 256 |
| CycleProfiler.Account | src/profiler.cpp:267-314 | a sampled instruction: histogram cell bumped when enabled, attribution, call tracking only in CallStack mode with a previous PC, and the last PC set |
| CycleProfiler.OnExecute | src/profiler.cpp:241-315 | the last counter value is always updated; with a non-positive delta nothing else changes; with a positive one the total grows by exactly delta whatever the rate, and the last PC becomes `pc` |
| CycleProfiler.SamplingGate | src/profiler.cpp:251-265 | rate 1 accounts every instruction with its own delta; with a higher rate an instruction is parked until the counter reaches the rate, and that one is accounted with all parked cycles |
| CycleProfiler.EveryInstructionSampled | src/profiler.cpp:252-270 | at rate 1 an executed instruction is accounted with its own delta |
| CycleProfiler.InstructionSkipped | src/profiler.cpp:252-260 | below the rate the instruction's cycles are parked and only the last PC follows it |
| CycleProfiler.InstructionSampled | src/profiler.cpp:252-265 | the instruction reaching the rate is accounted with every parked cycle, and the counter and parked cycles return to 0 |
| CycleProfiler.HistogramSumBump | src/profiler.cpp:269 | `address_cycles_[pc] += delta` adds exactly delta to the histogram sum |
| CycleProfiler.AccountKeepsValid | src/profiler.cpp:267-314 | accounting keeps the invariant and adds exactly delta to the histogram sum when it is collected |
| CycleProfiler.TickKeepsValid | src/profiler.cpp:243-249 | growing the total keeps the invariant and leaves room for the new cycles |
| CycleProfiler.ParkKeepsValid | src/profiler.cpp:252-260 | parking below the rate keeps the counter below the rate and the histogram plus parked cycles within the total |
| CycleProfiler.ReleaseKeepsValid | src/profiler.cpp:261-264 | releasing the parked cycles keeps the invariant |
| CycleProfiler.AccountedStep | src/profiler.cpp:241-315 | at rate 1 a step keeps the invariant, the parked cycles, and the exact histogram balance |
| CycleProfiler.ParkedStep | src/profiler.cpp:252-260 | a skipped step keeps the invariant and the exact histogram balance |
| CycleProfiler.ReleasedStep | src/profiler.cpp:252-270 | a sampled step at a higher rate keeps the invariant and the exact histogram balance |
| CycleProfiler.OnExecuteCases | src/profiler.cpp:241-315 | every step keeps the invariant, the exact histogram balance, and no parked cycles at rate 1 |
| CycleProfiler.OnExecuteKeepsValid | src/profiler.cpp:241-315 | the class invariant: sorted table with statistics for every function, counter below the rate, at most 256 frames, positive histogram cells, histogram plus parked cycles within the total |
| CycleProfiler.OnExecuteKeepsHistogramExact | src/profiler.cpp:249-270 | while the histogram is collected, histogram plus parked cycles stay equal to the total; at rate 1 nothing is parked |
| CycleProfiler.OnExecuteCallStack | src/profiler.cpp:291-312 | depth stays at most 256; a push happens only after a call opcode at the previous PC, with the current PC inside a function, and pushes that function's frame; a pop only after a return opcode |
| CycleProfiler.Run | src/profiler.cpp:241-315 | a trace of hook calls keeps table, rate, mode and histogram flag, and ends with the last counter value |
| CycleProfiler.RunTotal | src/profiler.cpp:243-249 | the total grows by the sum of the positive counter increments of the trace, whatever the rate, mode or histogram setting |
| CycleProfiler.RunKeepsValid | src/profiler.cpp:241-315 | a whole trace keeps the class invariant |
| CycleProfiler.RunKeepsHistogramExact | src/profiler.cpp:249-270 | a whole trace keeps histogram plus parked cycles equal to the total, and at rate 1 the histogram alone equals it |
| CycleProfiler.HistogramSumsToTotal | tests/profiler_test.cpp:384-403 | after Reset and a Start with the histogram on, histogram plus parked cycles equal the total; at rate 1 the histogram sum equals the total |
| CycleProfiler.TwoFunctionScenario | src/profiler.cpp:273-286 | 500 then 300 cycles in two adjacent functions give 500 and 300 exclusive cycles, one entry into the second, and a total of 800 |
| CycleProfiler.RunThree | src/profiler.cpp:241-315 | a three-step trace is three hook calls in a row |
| CycleProfiler.ScenarioFromStart | src/profiler.cpp:273-286 | the same three steps from any profiler started with the two functions |
| CycleProfiler.SimpleStep | src/profiler.cpp:272-286 | in Simple mode at rate 1 a step's statistics are exactly the attribution, and the total grows by the delta |
| Report.Candidates | src/profiler.cpp:327-339 | a row for every function with statistics and a positive exclusive count, and only rows of such functions |
| Report.CandidatesSelect | src/profiler.cpp:327-339 | the rows are, in table order, one per reported function: each row is its function's name, start and statistics |
| Report.CandidatesExact | src/profiler.cpp:327-339 | such a one-row-per-reported-function selection exists |
| Report.InsertDesc | src/profiler.cpp:341-344 | insertion keeps the order by exclusive cycles, largest first, and adds exactly the row |
| Report.SortDesc | src/profiler.cpp:341-344 | a permutation of the rows sorted by exclusive cycles, largest first |
| Report.ReportRows | src/profiler.cpp:317-348 | sorted largest first; `max_functions` rows when that is non-zero and smaller than the candidates, all candidates otherwise; drawn from the candidates |
| Report.ReportRowsAreTop | src/profiler.cpp:341-348 | every candidate left out by the truncation has no more exclusive cycles than any row shown |
| Report.CyclesPerCall | src/profiler.cpp:370 | 0 for a function never entered, otherwise the integer quotient of cycles by calls |
| Report.AddressKey | src/profiler.cpp:411-412 | eight lower-case hex digits that read back as the address |
| Report.HistogramEntries | src/profiler.cpp:402-413 | one entry per histogram address, in ascending address order, each with that address's cycles |
| Report.WriteAddressHistogram | src/profiler.cpp:389-419 | nothing when the file cannot be opened; otherwise the rate, the total, the number of addresses and the entries |
| Report.HistogramKeysAscending | src/profiler.cpp:402-413 | the keys are 8 hex digits whose values strictly ascend |
| Report.HistogramEntriesRoundTrip | src/profiler.cpp:389-419 | reading the written entries back gives the histogram: every entry is a cell, and every cell has an entry |
| MegaDrive.Mask24 | src/gxtest.cpp:316 | the address reduced to 24 bits |
| MegaDrive.ReadByte | src/gxtest.cpp:315-346 | an address outside work RAM, Z80 RAM and the ROM window reads `0xFF` |
| MegaDrive.WriteByte | src/gxtest.cpp:359-381 | a write to the ROM window or an unmapped address changes nothing; the cartridge is never written |
| MegaDrive.AddressesAlias24 | src/gxtest.cpp:316 | reads and writes depend only on the low 24 bits of the address |
| MegaDrive.WriteThenReadByte | src/gxtest.cpp:359-377 | a byte written to work RAM or Z80 RAM reads back, and every other 24-bit address reads as before |
| MegaDrive.WriteThenReadSame | src/gxtest.cpp:363-377 | a byte written to work RAM or Z80 RAM reads back |
| MegaDrive.WriteKeepsOther | src/gxtest.cpp:359-381 | a byte write leaves every other 24-bit address unchanged |
| MegaDrive.ReadWord | src/gxtest.cpp:348-352 | the high byte is the byte at the address, the low byte the byte at the next address |
| MegaDrive.ReadLong | src/gxtest.cpp:354-357 | the high word is the word at the address, the low word the word two bytes on |
| MegaDrive.WriteWord | src/gxtest.cpp:383-386 | the memories keep their sizes and the cartridge is untouched |
| MegaDrive.WriteLong | src/gxtest.cpp:388-391 | the memories keep their sizes and the cartridge is untouched |
| MegaDrive.WriteWordThenReadWord | src/gxtest.cpp:383-386 | a word written where both bytes are RAM reads back |
| MegaDrive.Mask24Plus | src/gxtest.cpp:351 | a small offset that stays inside the 24-bit space moves the 24-bit address by the same amount |
| MegaDrive.WordWriteAtTopOfWorkRam | src/gxtest.cpp:383-386 | a word written at 0xFFFFFF keeps its high byte and drops the low byte, which wraps to ROM address 0 |
| MegaDrive.WriteWordKeepsOthers | src/gxtest.cpp:383-386 | a word write touches only its own two bytes |
| MegaDrive.WriteLongThenReadLong | src/gxtest.cpp:388-391 | a long written inside work RAM reads back |
| MegaDrive.SwappedImage | src/gxtest.cpp:160-177 | the buffer has the cartridge capacity |
| MegaDrive.SwappedImageAt | src/gxtest.cpp:160-177 | each buffer byte is the zero-padded file byte at the partner position of its pair |
| MegaDrive.LoadRomData | src/gxtest.cpp:143-196 | succeeds exactly for a size in 1..MAXROMSIZE with audio ready; the buffer is the zero-filled copy with every pair swapped, and the size is recorded |
| MegaDrive.LoadedRomReadsBack | src/gxtest.cpp:334-341 | after loading, a byte read below the image size in the ROM window returns the file's byte |
| MegaDrive.Buttons | include/gxtest.h:67-79 | the twelve buttons of an Input |
| MegaDrive.PadState | src/gxtest.cpp:221-238 | no bit above the twelve button bits is set |
| MegaDrive.DecodePad | src/gxtest.cpp:225-236 | a button reads as pressed exactly when its bit is set |
| MegaDrive.FromButtons | include/gxtest.h:67-79 | builds the Input whose buttons are the given list |
| MegaDrive.PadStateBits | src/gxtest.cpp:225-236 | each pad bit is set exactly when its button is pressed |
| MegaDrive.PadStateRoundTrip | src/gxtest.cpp:225-236 | the pad word determines the input: decoding it gives the input back |
| MegaDrive.UpdateInputState | src/gxtest.cpp:216-240 | both pad words are rebuilt, each decoding to its player's input |
| MegaDrive.RunFrame | src/gxtest.cpp:198-214 | nothing without a ROM; otherwise the pads are rebuilt from the inputs and the frame counter advances by one |
| MegaDrive.Frames | src/gxtest.cpp:285-289 | frames keep the emulator's shape |
| MegaDrive.RunUntilMemoryEquals | src/gxtest.cpp:291-299 | the first frame index below `max_frames` at which the byte matches, checked before that frame runs, or -1 when none does; the emulator has run that many frames |
| MegaDrive.ButtonIndex | src/gxtest.cpp:454-465 | a recognised button name selects one of the twelve buttons |
| MegaDrive.Press | src/gxtest.cpp:452-465 | an unknown name changes nothing; a known one presses exactly its button |
| MegaDrive.SetInput | src/gxtest.cpp:435-439 | only players 0 and 1 are stored; other numbers change nothing |
| MegaDrive.GetInput | src/gxtest.cpp:441-447 | a released input for players other than 0 and 1 |
| MegaDrive.SetThenGetInput | src/gxtest.cpp:435-447 | a stored input reads back, and other players are unaffected |
| MegaDrive.HoldFrame | src/gxtest.cpp:467-471 | one frame runs with the given pad input, then the player's input is cleared |
| MegaDrive.PressButton | src/gxtest.cpp:449-472 | players outside 0..1 change nothing; otherwise one frame runs and the player's input ends fully cleared |
| MegaDrive.PressButtonPad | src/gxtest.cpp:449-472 | during that frame the player's pad carries the pressed button on top of the buttons already held |
| MegaDrive.TrimTrailingSpaces | src/gxtest.cpp:510-512 | a prefix of the name, not ending in a space, with only spaces removed |
| MegaDrive.UpToNul | src/gxtest.cpp:514 | the characters before the first NUL |
| MegaDrive.GetRomName | src/gxtest.cpp:502-515 | as written: empty without a ROM; otherwise at most 48 characters and no NUL |
| MegaDrive.GetRomNameCorrected | src/gxtest.cpp:502-515 | empty without a ROM; otherwise the name read in the 68k's byte order |
| MegaDrive.HeaderOfLoadedImage | src/gxtest.cpp:505-507 | read through the bus, the name field of a loaded image is the file's own 48 bytes |
| MegaDrive.CorrectedNameIsHeaderName | src/gxtest.cpp:505-514 | for a name field without NUL, the corrected name is that field with its trailing spaces removed |
| MegaDrive.RomNameComesBackSwapped | src/gxtest.cpp:505-514 | a field holding "AB" and 46 spaces gives "BA" as written and "AB" corrected |
| MegaDrive.TrimSpacesOff | src/gxtest.cpp:510-512 | trimming a name followed by spaces gives the name |
| SymbolHeader.StripLeft | tools/elf2sym.py:29 | a suffix of the line that does not start with whitespace |
| SymbolHeader.StripRight | tools/elf2sym.py:29 | a prefix of the line that does not end with whitespace |
| SymbolHeader.Strip | tools/elf2sym.py:29 | neither end of the result is whitespace, where whitespace is the blank, 0x09-0x0D and 0x1C-0x1F |
| SymbolHeader.StripSlice | tools/elf2sym.py:29 | the result is a slice of the line, and only whitespace was removed on either side |
| SymbolHeader.StripIdentity | tools/elf2sym.py:29 | a line without surrounding whitespace is unchanged |
| SymbolHeader.Run | tools/elf2sym.py:25 | a greedy `+`: the longest prefix in the character class |
| SymbolHeader.RunExact | tools/elf2sym.py:25 | the greedy match stops exactly after a class prefix followed by a character outside it |
| SymbolHeader.MatchNm | tools/elf2sym.py:25 | a match yields a letter type and a non-empty name without blanks |
| SymbolHeader.MatchKind | tools/elf2sym.py:25 | `\s+([a-zA-Z])\s+(\S+)` yields a letter and a non-empty name without blanks |
| SymbolHeader.MatchName | tools/elf2sym.py:25 | `\s+(\S+)` yields a non-empty name without blanks |
| SymbolHeader.MatchNmFields | tools/elf2sym.py:25-35 | the pattern splits hex digits, type letter and name, and the address is the hex value |
| SymbolHeader.ParseLine | tools/elf2sym.py:28-40 | a parsed line is always a well-formed symbol |
| SymbolHeader.ParseNmLineRoundTrip | tools/elf2sym.py:25-40 | the line nm prints for a symbol parses back to that symbol |
| SymbolHeader.ParseNmOutput | tools/elf2sym.py:20-41 | at most one symbol per line, each well-formed |
| SymbolHeader.ParseNmOutputAppend | tools/elf2sym.py:28-40 | parsing is line by line: two chunks give their outputs one after the other |
| SymbolHeader.ParseNmOutputRoundTrip | tools/elf2sym.py:20-41 | the lines nm prints for a list of symbols parse back to the list |
| SymbolHeader.FilterRam | tools/elf2sym.py:44-46 | a symbol is kept exactly when it is in the input and its address lies in the range, both ends included |
| SymbolHeader.FilterRamAppend | tools/elf2sym.py:46 | filtering a concatenation filters each part in turn, so kept symbols keep their order and repetitions |
| SymbolHeader.FilterRamOne | tools/elf2sym.py:46 | a single symbol is kept exactly when its address is in range |
| SymbolHeader.FilterRamMultiset | tools/elf2sym.py:46 | filtering never duplicates a symbol |
| SymbolHeader.IsLinkerSymbolExact | tools/elf2sym.py:49-61 | a linker marker is exactly a name starting with `__`, or `_etext`, `_edata`, `_end` |
| SymbolHeader.Sanitize | tools/elf2sym.py:64-78 | the result is an identifier not starting with a digit, as long as the name after one leading `_` is dropped, or one longer exactly when that rest starts with a digit |
| SymbolHeader.SanitizeContents | tools/elf2sym.py:64-78 | one leading `_` removed; every other character outside `[A-Za-z0-9_]` becomes `_` in place; a `_` is prefixed exactly when the rest starts with a digit |
| SymbolHeader.SanitizeKeepsIdentifiers | tools/elf2sym.py:64-78 | a name that is already an identifier without a leading `_` comes through unchanged |
| SymbolHeader.InsertByAddress | tools/elf2sym.py:99 | insertion keeps the address order and adds exactly the symbol |
| SymbolHeader.SortByAddress | tools/elf2sym.py:99 | a permutation of the symbols in address order |
| SymbolHeader.InsertByAddressAt | tools/elf2sym.py:99 | insertion puts the new symbol before the symbols at its address |
| SymbolHeader.SortByAddressStable | tools/elf2sym.py:99 | the sort is stable: the symbols at any one address keep their input order |
| SymbolHeader.Emit | tools/elf2sym.py:101-115 | at most one entry per input symbol |
| SymbolHeader.EmitUnfold | tools/elf2sym.py:104-124 | the first symbol is written exactly when it is eligible and its clean name is new |
| SymbolHeader.EmitFresh | tools/elf2sym.py:101-115 | no name written was seen before, and no name is written twice |
| SymbolHeader.EmitComplete | tools/elf2sym.py:104-115 | the clean name of every eligible symbol is written, unless it was seen before |
| SymbolHeader.EmitFromInput | tools/elf2sym.py:104-124 | every entry is the entry of an eligible input symbol |
| SymbolHeader.EmitFirst | tools/elf2sym.py:104-115 | every entry comes from the first eligible symbol with that clean name, and that name was not seen before |
| SymbolHeader.EmitAscending | tools/elf2sym.py:99-124 | address-sorted symbols give entries in address order |
| SymbolHeader.FormatEntry | tools/elf2sym.py:118-124 | the line is the constant declaration, followed by more text exactly when the clean name differs from the original |
| SymbolHeader.FormatEntryAddress | tools/elf2sym.py:124 | the address digits are upper-case hex reading back as the address, exactly six below 0x1000000 |
| SymbolHeader.SymbolLines | tools/elf2sym.py:99-124 | one constant line per written entry, line k being the formatted k-th entry of the address-sorted, de-duplicated symbols |
| SymbolHeader.SymbolLinesFromInput | tools/elf2sym.py:99-124 | every line is the formatted entry of an eligible input symbol, and every eligible input symbol's clean name has a line |
| SymbolHeader.HeaderEntries | tools/elf2sym.py:99-124 | the header's entries ascend by address, carry distinct names, exclude linker markers, name every eligible symbol, and each is the entry (name and address) of an eligible input symbol |
| SymbolHeader.HeaderFirstWins | tools/elf2sym.py:99-124 | when clean names clash, the entry written has the lowest address among the clashing symbols |
| PrimeRom.Word | tools/gen_prime_rom.py:51-53 | two bytes that read back big-endian as `v mod 2^16` |
| PrimeRom.Long | tools/gen_prime_rom.py:55-57 | four bytes that read back big-endian as `v mod 2^32` |
| PrimeRom.Signed16 | tools/gen_prime_rom.py:59-62 | the two's-complement reading of a word, congruent to it modulo 2^16 |
| PrimeRom.CollectLabelsSpec | tools/gen_prime_rom.py:21-29 | the first pass defines exactly the labels present and maps each to the pc of its last definition |
| PrimeRom.LabelsAreOffsets | tools/gen_prime_rom.py:21-29 | a label's value is the sum of the sizes of the items before it |
| PrimeRom.UndefinedLabel | tools/gen_prime_rom.py:21-29 | a label no item defines is not in the table |
| PrimeRom.EmitFromLength | tools/gen_prime_rom.py:31-47 | when every item fits its size, the second pass succeeds with the total size |
| PrimeRom.EmitFromAt | tools/gen_prime_rom.py:31-47 | item `j`'s bytes sit at its offset in the second pass's output |
| PrimeRom.Assemble | tools/gen_prime_rom.py:16-49 | when every item's bytes have its declared size the output has the total size; a failing generator fails the whole assembly |
| PrimeRom.AssembleLayout | tools/gen_prime_rom.py:16-49 | the output is the items' bytes in order, each at the sum of the sizes before it |
| PrimeRom.FailingItemFails | tools/gen_prime_rom.py:39-44 | a failing generator, such as a missing label, makes the assembly fail |
| PrimeRom.BranchDisplacement | tools/gen_prime_rom.py:59-62 | defined exactly for known labels, and then `word(labels[t] - (pc + 2))` |
| PrimeRom.BranchReachesTarget | tools/gen_prime_rom.py:59-62 | a displacement in the signed 16-bit range leads from `pc + 2` to the target |
| PrimeRom.Pad | tools/gen_prime_rom.py:277-279 | the image followed by zeros up to the first multiple of 512 that is at least 512 |
| PrimeRom.Checksum | tools/gen_prime_rom.py:281-285 | the sum of the big-endian words from 0x200 to the end, modulo 0x10000 |
| PrimeRom.WordsFromSuffix | tools/gen_prime_rom.py:283-284 | bytes below the start do not affect the word sum |
| PrimeRom.Vectors | tools/gen_prime_rom.py:216-223 | 256 bytes: SSP 0x00FFFFFE, PC 0x200, and the hang address in the other 62 vectors |
| PrimeRom.Header | tools/gen_prime_rom.py:225-270 | each field at the offset the source writes it: console, copyright, both names, serial, zero checksum, I/O, ROM start 0 and end `0x200 + len - 1`, RAM range, blank SRAM and notes, region `JUE`, zeros elsewhere |
| PrimeRom.Image | tools/gen_prime_rom.py:214-275 | vectors, then the header, then the program at 0x200 |
| PrimeRom.PutChecksum | tools/gen_prime_rom.py:286 | only the two bytes at 0x18E change, and they hold the sum |
| PrimeRom.PatchedImage | tools/gen_prime_rom.py:286 | writing the checksum keeps the vectors, the ROM-end field and everything from 0x200 on |
| PrimeRom.GenerateRom | tools/gen_prime_rom.py:213-288 | the length is at least 512 and a multiple of 512; program at 0x200, zeros after it; SSP 0x00FFFFFE, PC 0x200 and the hang loop in the other vectors; ROM end `0x200 + len - 1`; the checksum matches the final image; every other header byte is `Header`'s |
| PrimeRom.RomContents | tools/gen_prime_rom.py:274-279 | the finished ROM's length and program bytes, with zeros after the program |
| PrimeRom.RomVectors | tools/gen_prime_rom.py:216-223 | the finished ROM's vector table |
| PrimeRom.RomEndField | tools/gen_prime_rom.py:254-257 | the finished ROM's ROM-end field |
| PrimeRom.RomChecksum | tools/gen_prime_rom.py:281-286 | the stored checksum is the word sum of the finished ROM itself |
| PrimeRom.VectorsAt | tools/gen_prime_rom.py:216-223 | SSP, PC and the 62 hang vectors read back from the table |
| PrimeRom.ImageRomEnd | tools/gen_prime_rom.py:254-257 | the ROM-end field is the address of the program's last byte |
| PrimeRom.RomHeader | tools/gen_prime_rom.py:225-270 | the finished ROM keeps every header byte at 0x100-0x1FF except the checksum word |
| PrimeSieve.LeastDivisor | roms/prime_sieve/main.c:55-70 | the least divisor of `n` from `d` on |
| PrimeSieve.LeastDivisorIsPrime | roms/prime_sieve/main.c:55-70 | the least divisor above 1 is prime |
| PrimeSieve.SmallPrimeFactor | roms/prime_sieve/main.c:58-59 | a composite number has a prime factor whose square is at most the number, which is why stopping at 24 suffices |
| PrimeSieve.MarkedBelowLimit | roms/prime_sieve/main.c:58-59 | below 600, being marked by the primes up to 24 is the same as not being prime |
| PrimeSieve.MarkedAtItself | roms/prime_sieve/main.c:61-63 | when the outer loop reaches `p`, cell `p` is set exactly when `p` is not prime |
| PrimeSieve.MarkedNext | roms/prime_sieve/main.c:59-69 | what one round of the outer loop adds to the marking |
| PrimeSieve.ClearSieve | roms/prime_sieve/main.c:33-39 | every cell is 0 |
| PrimeSieve.MarkTrivialComposites | roms/prime_sieve/main.c:44-49 | cells 0 and 1 are 1 and nothing else changes |
| PrimeSieve.MarkMultiples | roms/prime_sieve/main.c:66-68 | exactly the multiples of `p` from `2p` below 600 become 1 |
| PrimeSieve.NoMultipleBetween | roms/prime_sieve/main.c:66 | consecutive multiples are `p` apart, so stepping by `p` skips none |
| PrimeSieve.RunSieve | roms/prime_sieve/main.c:55-70 | cells 0 and 1 kept; only 1s written, only at proper multiples of some `p <= 24`; from a cleared sieve cell `n` (2..599) ends 0 exactly when `n` is prime |
| PrimeSieve.Unmarked | roms/prime_sieve/main.c:80-81 | the unmarked numbers of the range, strictly ascending, none missing |
| PrimeSieve.CollectPrimes | roms/prime_sieve/main.c:75-90 | the count is the number of unmarked cells from 2, at most 100; the table starts with them in order; later entries are untouched |
| PrimeSieve.UnmarkedArePrimes | roms/prime_sieve/main.c:80-84 | on an exactly sieved array the unmarked numbers are the primes |
| PrimeSieve.UnmarkedPrefix | roms/prime_sieve/main.c:80-84 | scanning further only appends to the numbers found |
| PrimeSieve.PrimesPrefix | tests/prime_sieve_test.cpp:79-99 | the primes below a smaller bound are a prefix of those below a larger one |
| PrimeSieve.Primes | tests/prime_sieve_test.cpp:79-99 | the reference list: primes of the range, strictly ascending |
| PrimeSieve.RunMain | roms/prime_sieve/main.c:95-110 | the done flag is 0xDEAD; the count is the number of primes below 600, at most 100; the table holds them in ascending order, starting 2, 3, 5, 7 |
| PrimeSieve.StartsWithSmallPrimes | tests/prime_sieve_test.cpp:101-121 | a table holding the leading entries of a list that begins 2, 3, 5, 7 (all of them, or 100) begins 2, 3, 5, 7 |
| PrimeSieve.FirstPrimes | tests/prime_sieve_test.cpp:101-121 | the primes below 8 are 2, 3, 5, 7 |
| GameLoop.GameInit | roms/symbol_example/main.c:71-89 | score 0, lives 3, level 1, playing, flags clear, init sentinel 0xBEEF, enemy active |
| GameLoop.LevelFor | roms/symbol_example/main.c:98-102 | between 1 and 5; exactly `score / 1000 + 1` whenever that is at most 5, and 5 exactly from 4000 points on |
| GameLoop.LevelForMonotone | roms/symbol_example/main.c:98-105 | a higher score never earns a lower level |
| GameLoop.UpdateScore | roms/symbol_example/main.c:94-106 | ten points with 16-bit wrap-around; the level becomes the larger of the old level and the earned one; nothing else changes |
| GameLoop.UpdateEnemy | roms/symbol_example/main.c:111-120 | an inactive enemy stays put; an active one moves to `50 + frame % 200`, `50 + (frame / 2) % 150` |
| GameLoop.CheckCollision | roms/symbol_example/main.c:126-140 | true exactly when the enemy is active and both distances are below 32 |
| GameLoop.SamePlaceCollides | roms/symbol_example/main.c:126-140 | an active enemy at the player's position collides |
| GameLoop.CollisionSymmetric | roms/symbol_example/main.c:133-139 | swapping the player's and the enemy's positions gives the same answer |
| GameLoop.PlayerHit | roms/symbol_example/main.c:145-159 | one life lost, never below 0; with none left the game is over with the done sentinel; the enemy is always deactivated |
| GameLoop.LastLifeEndsGame | tests/symbol_example_test.cpp:177-198 | a hit on the last life ends the game |
| GameLoop.EndGame | roms/symbol_example/main.c:183-185 | game over, state GAME_OVER, done sentinel set |
| GameLoop.AfterScore | roms/symbol_example/main.c:174-191 | score, level and frame count kept; a win sets game over and the done sentinel |
| GameLoop.GameUpdate | roms/symbol_example/main.c:164-192 | a no-op unless playing; otherwise one more frame, ten more points, a level that never drops |
| GameLoop.GameUpdateKeepsConsistent | roms/symbol_example/main.c:164-192 | the flags stay consistent: playing with no done flag until game over, and game over always with the done sentinel |
| GameLoop.GameUpdateKeepsLevel | tests/symbol_example_test.cpp:120-137 | without wrap-around the level keeps matching the score |
| GameLoop.OneFrameToWin | tests/symbol_example_test.cpp:203-217 | at level 5 with 4990 points the next frame wins |
| GameLoop.LoopStep | roms/symbol_example/main.c:203-205 | one loop round keeps the loop invariant and adds exactly one frame |
| GameLoop.RunGame | roms/symbol_example/main.c:197-210 | the loop ends with the done sentinel set, either on game over or at frame 1000, with the score ten times the frames and the level matching it |

## Left out

- The Genesis Plus GX core is not part of this model: CPU, VDP, audio, `system_init`/`system_reset`, the frame functions, `getrominfo`/`get_region`, register access and save states. A frame is a parameter `Core`, and the cycle counter is a parameter of each step.
- MegaDrive.RunFrame: the choice between the Mega-CD, Genesis and Master System frame functions is not modelled; the one `Core` stands for whichever runs.
- MegaDrive.LoadRomData: returns the loaded cartridge only; setting `rom_loaded`, clearing the frame count and the core's initialisation are left to the caller. `audio_init`'s outcome is a parameter.
- `MAXROMSIZE` and the `INPUT_*` bit values come from the emulator core's headers, which are not part of this model; the values of Genesis Plus GX (10 MiB; the pad bits in `MegaDrive.ButtonBits`) are used.
- The global active-profiler slot and the CPU hook registration: only the running flag is modelled.
- Running `nm` through `popen`, shell quoting and file reading: the loaders take already tokenised lines (`NmLine`, `PlainLine`), and `None` stands for a source that cannot be opened.
- CycleProfiler.NmEntry: the prefix-matching quirks of `sscanf` (a type letter such as `D` read as a hex size, `%x` accepting a `0x` prefix) are not modelled; a line is taken to be in exactly one of the two nm shapes or neither.
- CycleProfiler.IsReturnOpcode: the contract states only that return and call opcodes are disjoint; that the return opcodes are exactly 0x4E75 and 0x4E77 is its definition.
- The header's member list lacks `pending_cycles_`, `address_cycles_` and `collect_address_histogram_`, and `ProfileOptions` there lacks `collect_address_histogram`; the model follows the implementation, which uses all of them.
- The 64-bit counters are unbounded here: `uint64_t` wrap-around of the total and of the statistics is not modelled.
- PrintReport's text: column widths, the floating-point percentage column and the header lines. Only the selected rows and the integer cycles-per-call column are modelled.
- Report.WriteAddressHistogram: a write error after opening (`out.good()`) is not modelled, and neither is the JSON punctuation; the document is a record of its fields.
- `str.strip`, `\s`, `\S` and `str.isdigit` also accept non-ASCII whitespace and digits in Python (U+0085, U+00A0, the Unicode space separators, non-ASCII decimal digits); the model's whitespace class is Python's ASCII one: the blank, 0x09-0x0D and the separators 0x1C-0x1F.
- elf2sym's command line, input reading, the `datetime` stamp, the fixed text around the constants, and its messages on standard error (the duplicate-name warning, the file errors and the "no symbols in RAM range" warning); the skipping they report is modelled.
- gen_prime_rom's hand-written opcode constants and the program they form (`tools/gen_prime_rom.py:64-211`): the builder is modelled around any program, with the hang-loop offset as a parameter. The C++ array emission and file writing are left out.
- PrimeSieve.RunMain: proves that the table holds the primes below 600 in ascending order, as many as 100, beginning 2, 3, 5, 7. It does not prove that there are at least 100 of them or which primes sit at positions 10, 25, 50 and 100, because that needs the primality of every number up to 541.
- The test files are used only as a source of properties; the timing and benchmark tests are not modelled.

## Findings

| source | as written | input that shows it | evidently intended | confidence | as-written member | corrected member |
|---|---|---|---|---|---|---|
| src/gxtest.cpp:507 | `GetRomName` copies the 48 name bytes straight out of `cart.rom`, which the little-endian build has just byte-swapped in pairs (src/gxtest.cpp:171-177), so every pair of characters comes back reversed | a ROM whose name field at 0x120 is "AB" followed by 46 spaces: the name returned is "BA" (`MegaDrive.RomNameComesBackSwapped`) | the name as stored in the ROM header, "AB", as the 68k reads it | not executed | MegaDrive.GetRomName | MegaDrive.GetRomNameCorrected |
