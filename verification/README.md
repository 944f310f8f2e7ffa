# Quarry: verified core

This project models the algorithmic core of Quarry, a memory scanner and assembler, in Dafny and proves what
its parts promise. `Wrappers`, `Bytes`, `Texts`, `Numbers`, `Sequences`, `Ordering` and `ProcessMemory` are shared; the
rest falls into five parts that do not depend on one another, except that table import uses the value types of the scans.

- **Assembler.** `X86Encoder` builds instruction bytes on a code buffer, as the source does. `X86Decoder` is an
  independent decoder written from volume 2 of the Intel 64 and IA-32 Architectures Software Developer's Manual
  (sections 2.1.3, 2.1.5, 2.2.1 and the opcode map). `X86Parser` is the operand-level parser, `X86Syntax` which
  statements it accepts. `X86RoundTrip`, `X86Meaning` and `X86Program` connect them: what the parser accepts decodes to
  what was written, exactly when a stated condition holds. `Expressions`, `Assembler`, `Branches`, `SectionLines`,
  `Sections` and `AnchoredRuns` are the four passes of a script section, the state they share, what its lines ask for,
  and what is then found in memory.
- **Pointer scanner.** `Pointers` is the reverse depth-first search with its shared offset stack, `PointerChains`
  the declarative chains it must enumerate, `StaticAddresses` the search for the module of an address, `PointerMaps`
  the map read from memory and the final statements about memory itself. `Ordering` holds the partition search and the
  stable sort that the source takes from its library.
- **Scans.** `Chunks` reads memory in overlapping blocks and compares that with one contiguous scan; `Scans`,
  `ValueScans`, `TextScans` and `UnknownScans` are the scan jobs, `FirstScans` and `UnknownHistories` what they return
  over all regions and after any history of scans; `Values` holds the integer decoding, the rounding to f64 and the two
  comparison functions, `ScanMeaning` what these decide about the integers whose bytes are in memory.
- **Table import.** `CeImport` is the tokenizer, the entity decoder and the stack machine. `CeMarkup` says how each
  construct of the text is read; `CePrinting` and `CeRoundTrip` hold a specification printer and the proof that
  importing inverts it, `CeForms` other forms of an address and the elements that are ignored.
- **Packets and base64.** `Redirect` rewrites packets and their replies, `Capture` aggregates conversations, `Packets`
  holds the header fields both read. `Datagrams` writes packets field by field after section 3.1 of RFC 791, and
  `CaptureMeaning` and `RedirectMeaning` say what the two make of them. `Base64` is the codec and its decoder after
  section 4 of RFC 4648.

Code that updates state in place is written as methods and classes, each proved equal to a function of the old
state; the theorems are about these functions, over all inputs, runs and histories. The memory of the target is a
map from addresses to bytes, or, where reads may fail or return short, a reader that answers every request. What
the operating system grants (allocations, the moments a scan is cancelled, process tables) is a parameter.
Integers are unbounded and reduced explicitly where the source's width matters; sums that overflow in the source
wrap, as they do in its release builds.

## What the proofs found

- `movzx`/`movsx` from `spl`, `bpl`, `sil` or `dil` emit no REX prefix for them and so read `ah`..`bh`
  (`X86Program.MovzxSilReadsDh`). Size keywords on memory operands are ignored, `imul` does not compare operand sizes,
  32-bit immediates of 64-bit operations above 2^31-1 are sign-extended, and `movd`/`movq` and the integer
  conversions accept registers of another size or kind. `X86Meaning.Faithful` is the exact condition on
  classified operands; what the reading of operand text does before that (`[ebx]` read as `[rbx]`, a scale cut to a byte)
  is not part of this model.
- The README of the repository calls numbers without a prefix decimal; the code reads them as hexadecimal
  (src/assembler.rs:181-201), and so does the model.
- An `Unchanged` next scan drops an unchanged 64-bit integer exactly when it is not representable as an f64
  (`Values.UnchangedKeepsIffRepresentable`).
- A pattern longer than one block is never found (`Chunks.TooWideFindsNothing`), and the duplicate guard `last_match`
  never rejects anything (`Chunks.HitsIncreaseAcrossBlocks`).
- A comparison scan after an unknown first scan takes bytes it cannot read for zero, and reports addresses that are not
  readable (`UnknownHistories.UnreadableIsReported`). It reports only readable ones if and only if every window it tests
  was read (`UnknownHistories.OnlyReadableIsReportedIff`); without alignment, if and only if every read was complete.
- A reply with an IP header length of 0, 8, 12 or 16 is not restored for every endpoint
  (`Redirect.RestoresIffPortsOutsideAddresses`).
- A comment may end in its own beginning: `<!-->` is a whole comment (`CeMarkup.CommentMayEndAtOnce`).
- A module name containing `+`, or with white space at an end, does not survive the address syntax
  (`CeRoundTrip.ModuleAddressRoundTrip`).

## Model

| member | source | states |
|---|---|---|
| X86Encoder.Build | src/asm_x86.rs:99-141 | Building on the buffer gives exactly the encoding of the form, or its error |
| X86Encoder.CodeBuffer.PushRex | src/asm_x86.rs:145-149 | A REX byte is appended exactly when W or some extension bit is needed |
| X86Encoder.CodeBuffer.EmitRm | src/asm_x86.rs:152-171 | REX, opcode, ModRM, SIB and displacement are appended for every operand that can be encoded; otherwise the error is returned |
| X86Encoder.CodeBuffer.EmitSse | src/asm_x86.rs:175-206 | The legacy prefix comes before REX and 0F, then as for one-byte opcodes |
| X86Encoder.CodeBuffer.AppendImm | src/asm_x86.rs:253-272 | The low bytes of the immediate are appended, or it is refused for its range or width |
| X86Encoder.PackFieldsIsBitwise | src/asm_x86.rs:163-163 | The packed ModRM or SIB byte of the model is the shift-and-or of the source, for all fields |
| X86Encoder.RexIsBitwise | src/asm_x86.rs:145-149 | So is the REX byte, present exactly when one of its bits is set |
| X86Encoder.EncodeMemFailsExactly | src/asm_x86.rs:209-250 | A memory operand is refused if and only if its displacement exceeds 32 bits, or, when a SIB byte is needed, its index ends in 100 or its scale is not 1, 2, 4, 8 |
| X86Encoder.EncodesIff | src/asm_x86.rs:99-141 | A form is encoded if and only if its operand can be, and its immediate fits a byte or 32 bits, signed or unsigned, where it is not of 64 |
| X86Encoder.EncodingLengthIndependent | src/asm_x86.rs:94-97 | If an instruction encodes with some immediate it encodes with zero, and its length is the one the size function gives |
| X86RoundTrip.EncodeMemAvoidsSpecialForms | src/asm_x86.rs:215-249 | The RIP-relative and no-base encodings are never produced |
| X86RoundTrip.MemRoundTrip | src/asm_x86.rs:209-250 | Decoding mod, r/m, SIB and displacement gives back base, index, scale and displacement, and leaves exactly the suffix |
| X86RoundTrip.FormRoundTrip | src/asm_x86.rs:152-206 | For every opcode with a ModRM byte, prefix, REX, registers, memory operand and immediate (modulo 2^(8*width)) come back, whatever follows |
| X86RoundTrip.RmRRoundTrip | src/asm_x86.rs:102-102 | The register/memory form decodes to the opcode map's instruction on the same operands |
| X86RoundTrip.RmIRoundTrip | src/asm_x86.rs:103-112 | The same for the form with an opcode extension digit and an immediate |
| X86RoundTrip.SseRoundTrip | src/asm_x86.rs:122-124 | The same for the two-byte opcodes with an optional legacy prefix |
| X86RoundTrip.MovRIRoundTrip | src/asm_x86.rs:113-121 | mov to a register brings back the register and the whole 4- or 8-byte immediate |
| X86RoundTrip.PushPopRoundTrip | src/asm_x86.rs:125-136 | push and pop decode to the same register, with REX.B above 7 |
| X86Meaning.AluTable | src/asm_x86.rs:439-452 | Row, digit and both directions of the arithmetic table agree with the opcode map |
| X86Meaning.SseTable | src/asm_x86.rs:498-535 | The load and store opcodes of the SSE table agree with the opcode map, and conversions have no store form |
| X86Meaning.ShiftTable | src/asm_x86.rs:808-843 | Every shift name has the digit the opcode map gives its operation |
| X86Meaning.ImmediateIsKept | src/asm_x86.rs:607-920 | The text of an instruction's immediate is that of its immediate operand, for every accepted statement; there is none for cl of a shift, a byte or word register of movzx and movsx, and statements without an immediate operand |
| X86Syntax.ParserAccepts | src/asm_x86.rs:457-920 | A mnemonic and its operands are accepted if and only if they are one of the listed combinations, which name kinds, sizes and keywords of operands only |
| X86Syntax.RegistersAreNamed | src/asm_x86.rs:789-806 | A text names byte or word register n if and only if, in lower case, it is that register's name |
| X86Meaning.MovReads | src/asm_x86.rs:607-641 | Every accepted mov decodes to one instruction, the written one exactly when keywords agree and the immediate survives sign extension |
| X86Meaning.AluReads | src/asm_x86.rs:643-684 | The same for the eight arithmetic operations |
| X86Meaning.TestReads | src/asm_x86.rs:686-722 | The same for test, whose memory operand moves to the r/m side |
| X86Meaning.XchgReads | src/asm_x86.rs:864-882 | The same for xchg |
| X86Meaning.LeaReads | src/asm_x86.rs:724-733 | Every accepted lea decodes to the written one |
| X86Meaning.ImulReads | src/asm_x86.rs:846-862 | imul decodes to the written one exactly when the sizes of its operands agree |
| X86Meaning.MovxReads | src/asm_x86.rs:885-920 | movzx and movsx decode to the written ones exactly when spl..dil do not appear without another cause for REX |
| X86Meaning.MovdqReads | src/asm_x86.rs:569-587 | movd and movq decode to the written ones exactly when the general register and keyword have the mnemonic's size |
| X86Meaning.SseReads | src/asm_x86.rs:539-567 | SSE instructions decode to the written ones exactly when keyword and register kinds fit the operation |
| X86Meaning.ShiftReads | src/asm_x86.rs:808-843 | Shifts by an immediate or by cl decode to the written ones |
| X86Meaning.AssembledMeansWritten | src/asm_x86.rs:457-492 | For every mnemonic and operand list the parser accepts, the bytes decode to one instruction, nothing of the suffix is consumed, and it is the written instruction if and only if `Faithful` holds |
| X86Program.SweepRecoversProgram | src/asm_x86.rs:99-141 | A linear sweep over the code of any program followed by any decodable suffix finds its instructions one for one, then the suffix |
| X86Program.DisassembleInvertsAssemble | src/asm_x86.rs:99-141 | Disassembling the code of a program gives the written instructions if and only if every statement is faithful |
| X86Program.ProgramsAreUnambiguous | src/asm_x86.rs:99-141 | Faithful programs with the same bytes have the same instructions |
| X86Program.CodeIsPrefixFree | src/asm_x86.rs:99-141 | No instruction's bytes are a proper prefix of another's |
| X86Program.EffectiveAddressPreserved | src/asm_x86.rs:209-250 | Every accepted memory operand accesses the address base + index * scale + displacement modulo 2^64, for all register contents |
| X86Program.MovzxSilReadsDh | src/asm_x86.rs:885-920 | The concrete case: movzx eax, sil becomes 0F B6 C6, which reads dh |
| Expressions.PlainNameEvaluates | src/assembler.rs:203-234 | A bound name without sign or float prefix evaluates to its address, even when it reads as a number |
| Numbers.FromRadixExact | src/assembler.rs:184-201 | A digit string, with at most one plus sign before it, has the value of its digits by position, and is refused for a digit outside the radix or a value beyond 64 bits |
| Numbers.DigitValueTable | src/assembler.rs:184-201 | The digits are 0 to 9 and A to F in either case |
| Expressions.NumberConventions | src/assembler.rs:184-201 | After `#` a number is decimal; after `0x`, `0X`, `$` or nothing it is hexadecimal |
| Expressions.UnboundTextEvaluates | src/assembler.rs:203-214 | A text that is no symbol evaluates to its number, or to an unknown symbol |
| Expressions.SumEvaluates | src/assembler.rs:216-234 | Two operands joined by a sign, with any white space around them, evaluate to the wrapped sum or difference, or to the error of the first operand that does not evaluate |
| Assembler.Process.Alloc | src/assembler.rs:275-300 | A granted block was no block before and lies apart from every mapped byte; its bytes are mapped and zero, and every old byte stays |
| Assembler.Process.Free | src/inject.rs:246-249 | Exactly the bytes of the block leave memory and exactly the block leaves the list; an address that is no block changes only the count of bad frees |
| Assembler.Process.WriteCode | src/inject.rs:190-216 | A write succeeds if and only if all its bytes are mapped; then they read back, and every other byte, the mapping and the blocks stay |
| Assembler.AsmState.ExecuteCommands | src/assembler.rs:351-453 | Pass 1: the state after each command and the gathered items and deferred commands are those of the specification, also when a line stops with an error; SectionLines says what they are in terms of the lines |
| Assembler.AsmState.PlaceItems | src/assembler.rs:455-478 | Pass 2: anchors bind or move the cursor, emissions advance it by their size |
| Assembler.AsmState.WritePlaced | src/assembler.rs:480-487 | Pass 3: placements are resolved and written in order up to the first error |
| Assembler.AsmState.RunDeferredCommands | src/assembler.rs:489-504 | Pass 4: each dealloc removes the first allocation of that name, frees it and forgets the symbol |
| Assembler.AsmState.Run | src/assembler.rs:332-507 | A whole section leaves exactly the state and error of the four passes in sequence; Sections says what that is in terms of the lines |
| Branches.ResolveHasLayoutSize | src/assembler.rs:99-147 | Layout independence: whatever the symbols, address and immediate, a resolved emission has exactly the size reserved for it |
| Branches.RelBranchExact | src/assembler.rs:116-130 | A branch resolves if and only if the distance from its end fits 32 signed bits, and then address + length + displacement is the target modulo 2^64 |
| Branches.BranchResolvesIff | src/assembler.rs:112-130 | jmp, call and conditional jumps resolve if and only if the target evaluates and the distance from the end of the branch fits |
| Branches.InstrResolvesIff | src/assembler.rs:137-145 | An instruction resolves if and only if it is accepted, the text of its immediate operand evaluates, and it can be encoded with that value |
| Branches.DataResolves | src/assembler.rs:112-147 | db gives its bytes and nop that many 90; dd and dq give the low 4 or all 8 bytes of their value, least significant first, whenever it evaluates |
| Branches.DistanceWithoutOverflow | src/assembler.rs:150-160 | Where the 64-bit sums do not overflow that distance is the plain difference |
| Branches.JccNamesMeanComparisons | src/assembler.rs:76-96 | Every conditional jump name, synonyms included, is taken after a comparison exactly when its name says so, at every operand width |
| Branches.ListBranch | src/assembler.rs:150-160 | A written jump, call or conditional jump disassembles to a branch to its absolute target |
| Branches.ListEmit | src/assembler.rs:112-147 | Every code emission disassembles to what its operands say, immediates by the value of the written text, whatever follows |
| Branches.JmpAbsReadsTarget | src/assembler.rs:131-136 | jmp64 resolves whenever its target evaluates, and then is an indirect jump through the eight bytes right after it, which hold the target |
| SectionLines.ExecutionStopsAtFailure | src/assembler.rs:351-453 | A section goes on exactly while nothing is wrong with its lines; the first line at fault ends it with its error, changes nothing, and nothing after it is executed |
| SectionLines.ExecuteGathers | src/assembler.rs:351-453 | When pass 1 ends well, the items are, in order, one anchor for each anchor line and one emission for each instruction line, and nothing else; the deferred commands are the dealloc and unregister lines; the allocations are those of the alloc lines |
| SectionLines.ExecuteBinds | src/assembler.rs:366-430 | Every name is bound to the answer of its last alloc or scan line, and every other name keeps its value |
| SectionLines.ExecuteAddsBlocks | src/assembler.rs:366-404 | Pass 1 keeps every byte, stopped by an error or not, and adds only zero bytes in the blocks of its alloc lines |
| SectionLines.DeferredTakesOldest | src/assembler.rs:489-504 | A dealloc frees the oldest allocation of its name and forgets the name, or does nothing when there is none; an unregister forgets its name; all else stays |
| SectionLines.DeferredIsExact | src/assembler.rs:489-504 | After any deferred commands, of every name as many of the oldest allocations are gone as deallocs name it |
| Sections.LabelIsItsAddress | src/assembler.rs:455-478 | A label not bound beforehand is bound, for good, to the cursor at its first anchor, where the next emission is placed |
| Sections.BoundAnchorMovesCursor | src/assembler.rs:461-462 | An anchor bound beforehand moves the cursor and keeps its address |
| Sections.RunIsContiguous | src/assembler.rs:470-476 | The items of one run are laid out one after the other from the cursor |
| Sections.LayoutSucceedsIff | src/assembler.rs:455-478 | Layout succeeds if and only if the first item is an anchor that is bound before, or there is no item; otherwise it stops at once with the error of an unbound label or of code before any anchor |
| Sections.WriteFailsAtFirst | src/assembler.rs:480-487 | The first placement that does not resolve or is not mapped ends the section with its error |
| Sections.SectionSucceedsIff | src/assembler.rs:332-507 | A section ends well if and only if all its lines are executed, its items can be laid out, and every placement resolves and lies in mapped memory |
| Sections.LabelStands | src/assembler.rs:455-478 | A label of the lines stands at the cursor before its anchor line, where the emission after it is placed |
| Sections.WriteAllExact | src/assembler.rs:480-487 | Writing disjoint placements leaves the bytes of every one in memory and changes no byte outside them |
| Sections.PlacementIsWritten | src/assembler.rs:480-507 | After a successful section every placement that is still mapped holds what its emission resolves to, data included |
| Sections.RunLeavesState | src/assembler.rs:332-507 | After a successful section the allocations and symbols are those its lines ask for, without what its dealloc and unregister lines take away |
| Sections.SectionEndToEnd | src/assembler.rs:332-507 | Every contiguous stretch of faithful instructions of the lines disassembles from the final memory to what was written, and bytes outside the placements are as they were before the section, or zero in a block it allocated |
| AnchoredRuns.RunIsPlaced | src/assembler.rs:455-478 | The emissions of a run are placed contiguously, each once and in source order |
| AnchoredRuns.ApartRunsAreDisjoint | src/assembler.rs:455-478 | If no two runs overlap, no byte belongs to two placements |
| AnchoredRuns.AnchorsDivide | src/assembler.rs:455-478 | Cutting at every anchor divides the items of any section that could be laid out into anchored runs, if and only if no run reaches the end of the address space |
| AnchoredRuns.SectionRunsAsWritten | src/assembler.rs:332-507 | Whole-section correctness, in terms of the lines: if the anchors and emissions they give divide into anchored runs that do not overlap, decoding the final memory from each anchor gives exactly the instructions of that run, in order, and every byte outside the runs is what it was before the section, or zero in a block it allocated |
| Sections.BranchReachesLabel | src/assembler.rs:116-117 | jmp and call, forward or backward, go to where the emission after the label's anchor was placed |
| Sections.ConditionalReachesLabel | src/assembler.rs:118-130 | Conditional jumps, forward or backward, go to where the emission after the label's anchor was placed |
| Sections.RunKeepsLedger | src/assembler.rs:332-507 | Every run of a section, finished or stopped by an error, keeps the ledger: recorded allocations are distinct and exactly the live blocks, granted is freed plus recorded, nothing is freed twice |
| Sections.HistoryKeepsLedger | src/assembler.rs:332-507 | The ledger holds after any sequence of enable and disable runs, also with reused names |
| Sections.HistoryHasLedger | src/assembler.rs:53-57 | Starting from an empty script state and a target that has granted nothing, the ledger holds after any sequence of runs |
| Ordering.PartitionPoint | src/pointer.rs:70-70 | On partitioned input the binary search returns the first position where the test fails |
| Ordering.SortBySorts | src/pointer.rs:148-148 | Sorting by key gives a sorted permutation |
| Ordering.SortByIsStable | src/pointer.rs:148-148 | Elements with equal keys keep their order |
| Pointers.CollectSlots | src/pointer.rs:129-144 | Stepping through one region collects its slots in order |
| Pointers.BuildPointerMap | src/pointer.rs:110-150 | The map is the value-sorted list of slots of the regions walked, all of them unless cancelled |
| Pointers.Search.Explore | src/pointer.rs:171-196 | One entry adds a prefix of what lies below it, all of it up to the cap without cancellation; the offset stack is restored |
| Pointers.Search.SearchRec | src/pointer.rs:154-197 | The search restores the offset stack on every exit, adds a prefix of the pure enumeration in every case, and exactly its first elements up to the cap when not cancelled |
| Pointers.PointerScan | src/pointer.rs:200-221 | Without cancellation the scan returns the first `max_results` of the pure enumeration |
| Pointers.ResolvePath | src/pointer.rs:225-235 | The dereference loop computes the recursive meaning of a path, for 4- and 8-byte pointers |
| Pointers.ResolveByLevels | src/pointer.rs:225-235 | A path is followed level by level: a pointer is read at the base and the first distance, each offset but the last leads to the next one, and the last is added; without offsets there is no result |
| ScanMeaning.PointerIsRead | src/memory.rs:120-129 | A pointer is 4 bytes in a 32-bit target and 8 otherwise, least significant first, and is read if and only if all of them can be |
| PointerChains.Index.ExtendsDeclaratively | src/pointer.rs:171-196 | Chains built step by step are exactly those with bounded gaps, bounded length, a static last entry and no other static one |
| PointerChains.ChainsAreExact | src/pointer.rs:154-197 | The enumeration lists every chain and nothing else |
| PointerChains.ChainsAreDistinct | src/pointer.rs:154-197 | It lists no chain twice |
| PointerChains.EnumerateListsChains | src/pointer.rs:154-197 | The paths reported are, one for one and in order, the paths of the enumerated chains |
| PointerChains.EnumerationIsExact | src/pointer.rs:154-197 | A path is enumerated if and only if it is the path of some chain |
| PointerChains.NoPathTwice | src/pointer.rs:154-197 | With distinct slot addresses and unique module names no path is reported twice |
| PointerChains.ChainFollowsToTarget | src/pointer.rs:225-235 | Following the reversed offsets from the static entry of a chain reads successfully at every step and arrives at the target |
| PointerChains.PathsResolveToTarget | src/pointer.rs:154-235 | Every reported path resolves, in the memory it was found in and from its module's base, to exactly the target |
| PointerMaps.InCommittedIsMembership | src/pointer.rs:61-77 | Binary search over the sorted spans is membership in some region |
| StaticAddresses.ModuleOfIsContainment | src/pointer.rs:80-107 | For modules that do not overlap, the binary search in the sorted ranges names a module if and only if that module contains the address |
| StaticAddresses.StaticIsInSomeModule | src/pointer.rs:80-107 | An address counts as static if and only if it lies in some listed module |
| PointerMaps.PointerMapIsExact | src/pointer.rs:110-150 | The map is sorted by value and contains exactly the aligned addresses of readable regions that hold a nonzero pointer into committed memory |
| PointerMaps.AllSlotsDistinct | src/pointer.rs:123-146 | Over disjoint regions no address is a slot twice |
| PointerMaps.ScanFindsExactlyTheChains | src/pointer.rs:80-221 | Uncapped, the scan reports a path if and only if memory holds a chain of slots whose last one lies in a listed module and no other does, with that module's name and offset and the distances of the chain |
| PointerMaps.ScanIsSoundAndDuplicateFree | src/pointer.rs:80-235 | With unique module names no path is reported twice, and every one resolves to the target from the base of a listed module of its name |
| Values.RoundExactIffRepresentable | src/value.rs:136-153 | Conversion to f64 keeps an integer if and only if nothing lies below its 53-bit significand |
| Values.RoundIsNearestEven | src/value.rs:136-153 | The conversion gives a multiple of the last place that no other one beats, and the even one of two equally near |
| Values.RepresentableIsScaled | src/value.rs:136-153 | The integers kept are exactly those of the form m * 2^e with m below 2^53 |
| Values.SignificandFits | src/value.rs:136-153 | What the rounding keeps is at most 53 bits wide |
| Values.SmallIsRepresentable | src/value.rs:136-153 | Every integer of magnitude up to 2^53 is kept |
| Values.CompareAgreesWithPair | src/scan.rs:372-430 | The comparison with the kept f64 agrees with the exact comparison, for all kinds and current values, if and only if the old value is representable |
| Values.UnchangedKeepsIffRepresentable | src/scan.rs:403-430 | An unchanged value survives an Unchanged scan if and only if it is representable |
| Values.TwoTo53Plus1IsRounded | src/value.rs:136-153 | The concrete case: 2^53 + 1 becomes 2^53 |
| Values.NarrowTypesAreExact | src/value.rs:48-63 | Values of types of up to four bytes are always representable |
| ScanMeaning.StoredIsRead | src/value.rs:48-75 | The bytes of every integer of every type, least significant first and in two's complement, are read back as that integer, and kept as its rounding |
| ScanMeaning.NothingElseIsRead | src/value.rs:48-75 | Short input, floats and texts are no integer; short input and texts have no kept value |
| ScanMeaning.CompareMeans | src/scan.rs:403-430 | The comparison of the bytes of v with a kept integer p is that of v and p; one that was not a number counts as 0 |
| ScanMeaning.NextScanMeans | src/scan.rs:176-207 | A match that kept p and whose address holds the bytes of v is kept under Increased if and only if v > p, Decreased v < p, Changed v != p, Unchanged v = p, and by the bounds for the other kinds; it then keeps the rounding of v |
| ScanMeaning.PairMeans | src/scan.rs:372-398 | The same for the comparison of two readings |
| ScanMeaning.FirstScanMeans | src/scan.rs:146-163 | A first scan accepts the bytes of v by the bounds, and keeps the rounding of v |
| ScanMeaning.FloatsAreCompared | src/scan.rs:372-430 | Floats are handed to the comparison of floats with the value kept, or with the bytes before |
| ScanMeaning.FixedPatternMatches | src/inject.rs:92-100 | A pattern without wildcards matches exactly where its bytes stand |
| ScanMeaning.WildcardMatchesAnyByte | src/inject.rs:92-100 | A wildcard matches exactly what some byte in its place matches |
| Chunks.ReadChunked | src/memory.rs:54-91 | The loop ends under any reads and delivers exactly the specified blocks |
| Chunks.HitsExact | src/inject.rs:92-100 | A position is a hit if and only if it is on the grid, fits and matches |
| Chunks.ChunkedIsNaive | src/memory.rs:54-91 | With complete reads and a window of 1 to `CHUNK` bytes, the matches of the overlapping, realigned blocks are those of one contiguous scan: in order, each once, none lost at a border |
| Chunks.ChunkedIsNaiveIff | src/memory.rs:54-91 | On complete reads that equality holds if and only if the window fits a block or does not occur |
| Chunks.TooWideFindsNothing | src/memory.rs:54-91 | A window wider than a block is never found, under any reads |
| Chunks.HitsIncreaseAcrossBlocks | src/inject.rs:118-138 | Under any reads the matches of a block lie below the start of all later ones, so the duplicate guard never rejects |
| Chunks.HitsWereDelivered | src/memory.rs:54-91 | An offset is reported if and only if some delivered block matches there |
| Scans.ScanBlock | src/inject.rs:119-138 | The callback adds the matches of a block up to the limit |
| Scans.ScanRegion | src/inject.rs:118-138 | One region adds its matches up to the limit |
| Scans.AobScan | src/inject.rs:103-141 | The scan returns the first `limit` matches over all regions; an empty pattern finds nothing |
| Scans.AobScanJob | src/inject.rs:145-186 | The same with cancellation between regions |
| Scans.AobScanIsNaive | src/inject.rs:103-141 | With complete reads these are the naive matches of every region, in order |
| Scans.ScanHitsWereDelivered | src/inject.rs:103-141 | Under arbitrary short or failed reads, and for every pattern, text or value and every stride, an address is reported if and only if some delivered block matches there |
| ValueScans.CollectBlock | src/scan.rs:146-168 | The callback adds exactly the matches of a realigned block with their values, the guard rejecting none |
| ValueScans.CollectRegion | src/scan.rs:144-168 | One region adds exactly the matches of its blocks |
| ValueScans.FirstScanJob | src/scan.rs:124-173 | The first scan returns the matches of all regions walked |
| ValueScans.FirstScanStringJob | src/scan.rs:210-249 | The same for text |
| ValueScans.RegionMatchesAreNaive | src/scan.rs:124-173 | On complete reads the realigned scan of a region is the contiguous one with the same stride |
| ValueScans.NaiveMatchesExact | src/scan.rs:124-173 | It reports strictly increasing addresses, exactly those at multiples of the stride from the region base whose window satisfies the comparison, with the value seen |
| FirstScans.ScanMatchAddresses | src/scan.rs:124-249 | Under any reads the value and text scans report, in order, the same addresses as the pattern scan with the same window test and stride |
| FirstScans.ScanMatchesWereDelivered | src/scan.rs:124-249 | Under arbitrary short or failed reads a match is reported if and only if a successful read delivered bytes that match there, with the value delivered |
| FirstScans.ScanMatchesAreNaive | src/scan.rs:124-249 | On complete reads of all regions the first scans, for values and for text, are the contiguous scans of the regions in order |
| FirstScans.NaiveMatchesAllExact | src/scan.rs:124-249 | These report an address if and only if its window in some region is accepted at a multiple of the stride |
| FirstScans.FirstScanRemembers | src/scan.rs:160-163 | Whatever could be read, every match of a first scan over all regions remembers the value of its address |
| ValueScans.NextScanJob | src/scan.rs:176-207 | A next scan filters the matches in place; when cancelled it keeps the rest untouched |
| ValueScans.RunKeepsExactlyTheSurvivors | src/scan.rs:176-207 | From matches that remember a memory, any number of next scans leaves, in order, exactly those whose address was readable and whose comparison with the previous value held every time |
| FirstScans.HistoryKeepsExactlyTheSurvivors | src/scan.rs:124-207 | The same from the first scan over all regions on, whatever it could read |
| FirstScans.HistoryIsExact | src/scan.rs:124-207 | When the first scan could read everything, an address is left after any next scans if and only if it was accepted by the first scan and readable and accepted by each later one |
| FirstScans.IntegerHistoryIsExact | src/scan.rs:124-207 | While an address holds integers that an f64 keeps, each later comparison is the exact one of the integers before and after |
| FirstScans.NarrowHistoryIsExact | src/scan.rs:124-207 | For integer types of up to four bytes every history is exact |
| TextScans.NextScanStringJob | src/scan.rs:252-277 | A next text scan keeps the matches that still hold the text; an empty text keeps all |
| TextScans.RunTextKeepsExactlyThose | src/scan.rs:252-277 | After any number of next text scans the matches are, in order, those that held the text every time |
| FirstScans.TextHistoryIsExact | src/scan.rs:210-277 | From the first text scan over all regions on, an address is left if and only if the text occurred there and was there every later time |
| UnknownScans.CopyIsRegion | src/scan.rs:309-317 | On complete reads the copy of a region is the region |
| UnknownScans.CopiedBytesWereDelivered | src/scan.rs:309-317 | Under arbitrary reads every copied byte is zero or was delivered for that place |
| UnknownScans.UnknownFirstJob | src/scan.rs:291-325 | The snapshot holds the writable regions within the limits, a prefix of them when cancelled |
| UnknownScans.SnapshotIsExact | src/scan.rs:285-325 | The snapshot takes every writable, non-empty region of at most 256 MiB from which something was read, up to the first one that does not fit into 2 GiB with those before it |
| UnknownScans.SnapshotIsBounded | src/scan.rs:306-308 | The snapshot never exceeds its total limit |
| UnknownScans.UnknownNextJob | src/scan.rs:328-368 | The job returns the matches of all saved regions walked |
| UnknownScans.PairMatchesExact | src/scan.rs:354-363 | A match is reported if and only if its offset is on the grid and the exact comparison of old and new value holds; it keeps the new value |
| UnknownScans.PairMatchesIncrease | src/scan.rs:354-363 | In increasing order of address, each once |
| UnknownHistories.OnlyReadableIsReportedIff | src/scan.rs:343-366 | A comparison scan of a saved region reports only integers whose every byte was read, whatever is compared, if and only if every window on its grid was read |
| UnknownHistories.OnlyReadableFloatIsReportedIff | src/scan.rs:343-366 | The same for floats, over all comparisons of floats |
| UnknownHistories.AllDeliveredIffComplete | src/memory.rs:67-90 | Every byte of a region is delivered if and only if every read of the loop succeeds and is complete |
| UnknownHistories.GridDeliveredIffComplete | src/scan.rs:343-366 | So a scan of every offset is right if and only if every read was complete |
| UnknownHistories.UnreadableIsReported | src/scan.rs:343-366 | The concrete case: a byte that held 1 and can no longer be read is reported as changed, with the value 0, though no read delivered it |
| UnknownHistories.DeliveredWindowIsMemory | src/scan.rs:347-353 | A window that was read is copied as memory holds it |
| UnknownHistories.UnknownHistoryKeepsExactlyTheSurvivors | src/scan.rs:176-368 | After an unknown first scan of disjoint regions, its comparison, whatever that could read, and any next scans, what is left are, in order, exactly the matches for which every later comparison held, the first with the value as copied |
| UnknownHistories.UnknownHistoryIsExact | src/scan.rs:176-368 | From the snapshot on, address by address: an address is left if and only if the comparison of its two copies held and every next scan could read it and held |
| UnknownHistories.CompleteComparisonIsExact | src/scan.rs:291-368 | When both readings were complete and the limit was not reached, the comparison is exact on what memory held both times in the regions that may be saved |
| UnknownScans.SnapshotPairIsExact | src/scan.rs:343-366 | With complete reads before and after these are the values memory held at both times |
| CeImport.UnescapeText | src/ce_import.rs:107-145 | The decoding loop computes the recursive meaning of entities, unknown ones kept |
| CeImport.Tokenize | src/ce_import.rs:46-95 | The tokenizer computes the tokens of the text, stopping at an unclosed construct |
| CeImport.ParseTable | src/ce_import.rs:160-218 | The parser loop computes the run of the stack machine, or the error when there is no entry |
| CePrinting.UnescapeEscape | src/ce_import.rs:107-145 | Decoding inverts the escaping of section 4.6 of XML 1.0, for every text |
| CeMarkup.NumericReferences | src/ce_import.rs:128-138 | Numeric references, decimal and hexadecimal, stand for the Unicode scalar value of their number; any other number stays as it is written |
| CeMarkup.OtherEntitiesAreKept | src/ce_import.rs:119-138 | Other entity names stay as they are written |
| CeMarkup.LoneAmpersandIsKept | src/ce_import.rs:139-142 | An ampersand without a semicolon stays |
| CeMarkup.DeclarationIsSkipped | src/ce_import.rs:61-68 | A declaration, processing instruction or document type is skipped up to the first `>`, and what follows is read |
| CeMarkup.CommentIsSkipped | src/ce_import.rs:53-60 | A comment is skipped up to its end mark, which is searched from its very beginning |
| CeMarkup.StartTagTokens | src/ce_import.rs:69-83 | A start tag opens its element, whatever its attributes and the case of its name |
| CeMarkup.SelfClosingTagTokens | src/ce_import.rs:76-82 | A tag that ends in a slash opens its element and closes it |
| CeMarkup.UnclosedEndsTheTokens | src/ce_import.rs:53-70 | Nothing is read from a tag or comment that is not closed |
| CeMarkup.GapHasNoTokens | src/ce_import.rs:50-92 | White space, comments and declarations before a tag, in any number, have no tokens |
| CeRoundTrip.NumeralRoundTrip | src/ce_import.rs:309-313 | Printed 64-bit numbers are read back, in radix 10 and 16 |
| CeRoundTrip.ModuleAddressRoundTrip | src/ce_import.rs:280-307 | A quoted module with an offset is read back if and only if its name is not empty, trimmed and free of plus signs |
| CeForms.BareModuleAddress | src/ce_import.rs:280-292 | Without quotes a module name and any form of a hexadecimal offset are read back too |
| CeForms.AddressWithoutOffset | src/ce_import.rs:293-306 | Without a plus sign an address is a hexadecimal number if it can be read as one, with or without prefix, and a module's base otherwise |
| CeForms.HexForms | src/ce_import.rs:309-313 | Hexadecimal numbers are read with and without prefix and in lower case |
| CeForms.PaddedHex | src/ce_import.rs:309-313 | White space around a number does not matter |
| CeRoundTrip.RunNode | src/ce_import.rs:174-215 | Text ownership: running a printed entry, with its nested entries before, between or after its fields and whatever entries are open, adds exactly its usable entries and leaves the open ones as they were |
| CeRoundTrip.FinalizeNode | src/ce_import.rs:221-257 | Finishing an entry gives its description, type, address, base-to-target offsets and text length, or nothing when it is not usable |
| CeRoundTrip.ImportInvertsPrint | src/ce_import.rs:46-257 | Importing any printed forest, with an XML declaration, comments, declarations, white space and attributes wherever they may stand, returns the post-order list of its usable entries, or the error when there is no entry |
| CeForms.ElementIsIgnored | src/ce_import.rs:197-213 | Text outside of an entry, elements that are no field, offsets outside of an offset list and offsets that are no number change nothing |
| CeForms.UnknownElementIsIgnored | src/ce_import.rs:160-218 | An element that is no field may stand anywhere in a table without changing what is imported |
| Redirect.Redirector.RewritePacket | src/redirect.rs:306-350 | The packet bytes, flags, table and counter after the call are those of the specification |
| Redirect.WriteIp | src/redirect.rs:352-354 | Four bytes are overwritten and no other |
| Redirect.Redirector.Lookup | src/redirect.rs:375-378 | The listener gets the destination of the latest redirected packet from the client's port, or nothing when there was none |
| Redirect.RedirectedFlow | src/redirect.rs:334-349 | A redirected packet goes to the listener at the client's address; only destination address and port bytes change |
| Redirect.ReplyFlow | src/redirect.rs:319-332 | A reply comes from the remembered endpoint as an inbound packet; only source address and port bytes change |
| RedirectMeaning.TargetPacketGoesToListener | src/redirect.rs:334-349 | A TCP packet written with the target's port, not the listener's, and a destination outside 127.0.0.0/8 becomes the same packet to the listener at the sender's address; its destination is remembered and it is counted |
| RedirectMeaning.ListenerPacketComesFromServer | src/redirect.rs:319-332 | A TCP packet written with the listener's port to a known client port becomes the same packet from the remembered endpoint, injected as inbound |
| RedirectMeaning.OthersPassUnchanged | src/redirect.rs:314-341 | Packets of other protocols, those too short for a TCP header, loopback ones, those of other processes and replies to unknown ports stay as they are, and nothing is remembered |
| Redirect.InboundClearsOneBit | src/redirect.rs:77-83 | Clearing the outbound flag leaves all other flag bits |
| Redirect.TableIsLatest | src/redirect.rs:339-343 | After any packets the table holds, for every port, the destination of the latest redirected packet from it, and nothing else |
| Redirect.CounterCounts | src/redirect.rs:344-344 | The counter counts the redirected packets modulo 2^64 |
| Redirect.ReplyMirrorsRequest | src/redirect.rs:306-350 | NAT inversion: in every run, a reply to a redirected client carries the mirrored 4-tuple of the client's latest packet, and the listener's lookup gives the same destination |
| Redirect.RestoresIffPortsOutsideAddresses | src/redirect.rs:314-332 | Replies are restored for every endpoint if and only if the header length is not 0, 8, 12 or 16 |
| Capture.Shared.Ingest | src/capture.rs:303-403 | One packet changes conversations, rings and totals exactly as the specification says |
| Datagrams.EveryPacketHasFields | src/capture.rs:303-314 | The packets that are dissected are exactly those that some fields and a legal header length lay out |
| CaptureMeaning.SegmentIsSeen | src/capture.rs:315-337 | A TCP or UDP packet written from fields is seen with its protocol, addresses, length and direction and the ports its sender wrote; outbound packets are filed under the sender's port, inbound ones under the receiver's |
| CaptureMeaning.OthersAreSeen | src/capture.rs:320-325 | Packets of other protocols, or too short for ports, are seen with ports 0 |
| CaptureMeaning.OnlyDatagramsAreSeen | src/capture.rs:303-314 | Only IPv4 packets with a whole header are seen |
| CaptureMeaning.AnswerJoinsRequest | src/capture.rs:328-337 | A request of this machine and the answer to it, with ports exchanged, have one key: that of the local port |
| CaptureMeaning.OwnerIsFound | src/capture.rs:406-430 | The owner is for TCP that of the whole tuple, else of the local port, for UDP that of the local port, and nobody otherwise, under its process name or its pid |
| CaptureMeaning.TimesMatchHistory | src/capture.rs:346-351 | After any packets every conversation shows the time of its last packet |
| Capture.DirectionsShareConversation | src/capture.rs:328-337 | Both directions of a connection have one key, except when the machine talks to itself between different ports |
| Capture.TablesMatchHistory | src/capture.rs:346-403 | After any packets the conversations are the first 4000 distinct ones, each once and in order, and the rings belong to exactly these and hold their last 200 records |
| Capture.CountersMatchHistory | src/capture.rs:339-383 | After any packets each conversation counts its whole history, and the totals are both the volume of all packets and the conversations' sums plus the refused packets, modulo 2^64 |
| Capture.OwnersMatchHistory | src/capture.rs:352-381 | After any packets each conversation is attributed to the first process found with a pid, else to the last one found |
| Base64.EncodeText | src/lcu.rs:497-520 | The chunk loop computes the encoding |
| Base64.DecodeInvertsEncode | src/lcu.rs:497-520 | Decoding by section 4 of RFC 4648 gives back every byte string |
| Base64.EncodeInvertsDecode | src/lcu.rs:497-520 | The decoder accepts nothing but encodings: the codec is a bijection |
| Base64.LengthAndPadding | src/lcu.rs:497-520 | The length is 4 * ceil(n / 3), and the characters that are padding are exactly the last (3 - n mod 3) mod 3 |

## Left out

- The graphical interface, hotkeys, scripting, the debugger, process lists, table files, the proxy, the installer and the HTTP and WebSocket clients.
- The operating system: `VirtualAllocEx`, `ReadProcessMemory`, the packet driver and the socket tables are parameters. Where `alloc_near` places a block is not modelled, only that a granted block is fresh.
- Threads: locks and atomic counters are plain fields, and each method runs without interference except for the cancel flag.
- Callbacks: the blocks `read_chunked` hands to its callback are returned as a list and consumed afterwards.
- Reading assembly text: operands are data, so the splitting of lines, the bracket syntax of `parse_mem`, register names and float literals are not part of this model. Script lines are data as well (`section_lines` is left out).
- Expressions.SumEvaluates: float and double literals, which the source recognises before it looks for a sign, are not modelled.
- Three-register memory operands and operand sizes of 8 and 16 bits, which the encoder does not produce except as movzx and movsx sources.
- Branches.RelBranchExact: overflow of the 64-bit sums wraps; that debug builds of the source panic there is not modelled.
- AnchoredRuns.SectionRunsAsWritten: covers runs of instructions, branches and nops; data emitted by db, dd, dq and jmp64 ends a decodable run, and its bytes are covered by Sections.WriteAllExact.
- Sections.LabelIsItsAddress: speaks of labels that are not bound beforehand; on a second enable the label is bound and Sections.BoundAnchorMovesCursor applies.
- Sections.HistoryKeepsLedger: frees of recorded blocks succeed.
- Chunks.ChunkedIsNaive: speaks of complete reads; over partly unreadable regions only soundness and termination are proved, because the skip of an unreadable page can pass readable bytes.
- Values.CompareAgreesWithPair: float comparison and NaN are abstract; only the rounding of integers is modelled.
- Scans.AobScanIsNaive: regions do not wrap around the end of the address space.
- StaticAddresses.ModuleOfIsContainment: modules do not overlap, start at different addresses and end below 2^64.
- UnknownHistories.UnknownHistoryIsExact: regions are disjoint.
- FirstScans.HistoryKeepsExactlyTheSurvivors: successful reads deliver the bytes of one memory, which does not change during the first scan.
- PointerMaps.PointerMapIsExact: regions are non-empty, disjoint and end below 2^64.
- Pointers.PointerScan: the memory does not change during the scan.
- CeRoundTrip.ImportInvertsPrint: `char` stands for a Unicode scalar.
- The text of error and log messages, and the description strings of the interface.
- Checksums: the driver recomputes them after `rewrite_packet`.
- Redirect.ReplyMirrorsRequest: packets are IPv4 with at least 20 bytes; the loop passes all others on before it calls `rewrite_packet`.
