# libunwind-kern, verified

A Dafny model of the unwinding core of libunwind-kern (local x86-64 unwinding), with
proofs of the properties that its fast and in-place structures are there to keep. Code
that works by updating state is modelled as classes, arrays and methods with loops, each
proved against a specification function; the properties are then proved about the
specification.

`dafny verify dfyconfig.toml` checks everything.

| files | component |
|---|---|
| `Words`, `Rules` | 64-bit words as integers with explicit wrap-around, little-endian memory, the row of register rules |
| `Leb128`, `Pointers` | LEB128 (section 7.6 of DWARF v3) and encoded pointers |
| `FrameInfo`, `FrameParser`, `FrameRoundTrip`, `FrameSearch` | CIE and FDE records: specification, imperative parser, serialiser, linear scan and binary-search index |
| `Cfi`, `CfiMachine`, `CfiAssembler`, `Unwinding` | the call-frame machine (sections 6.4.1 to 6.4.3 of DWARF v3), its imperative form on a memory pool, an assembler, and the two ends joined |
| `Expr`, `ExprMachine`, `ExprCompiler`, `ExprStack` | the expression machine (section 2.5 of DWARF v3), its imperative form, a compiler from expression trees with conditionals, the stack operations |
| `RsCache`, `CachedUnwind` | the register-state cache and the lazy flush |
| `Trace`, `TraceCache`, `FastTrace`, `CallChain` | slow unwinding, the packed frame summary, the trace hash table, `tdep_trace` and `unw_backtrace`; and the stack that nested calls leave |
| `Mempool`, `DynInfo`, `TwoPhase` | the pool allocator, the dynamic-info list, two-phase exception handling |

## Main results

1. **The fast trace is the slow walk.** Whatever truthful table it runs on, `tdep_trace`
   records the addresses of the slow walk less one, for as long as the frames are regular,
   and leaves the table truthful (`FastTrace.TdepTrace`). If the table is also complete,
   the trace misses no traceable frame, and the table stays complete as long as the frames
   looked up are regular, or the last one has no plain info. If the frames that tracing
   comes to are regular, the trace gives up exactly if it meets one that is neither of the
   standard form nor the last; that decides whether `unw_backtrace`
   stores the addresses less one or as they are (`FastTrace.Backtrace`). Truth is an
   invariant of every lookup; a slot is filled completely exactly if the step that fills it
   is telling (`Trace.FillComplete`): one made by a rejected step stays, and stops later
   traces that could go on. The 30-bit and 15-bit packing is lossless except for the offset
   -2^63, and the sentinel -1 is never hit; exactly the rows whose offsets the fields take
   are summarised (`Trace.StandardExactly`), so that frames of moderate size are all
   recorded. Nested calls of functions with the usual prologue leave such frames, and the
   walk over them undoes the calls (`CallChain.WalkUndoesCalls`).
2. **The register-state cache is a bounded FIFO map**, whatever the hints say, on three
   index structures that every operation keeps well formed, over any interleaving of steps
   and flushes. A hit gives the row, column and bit of an uncached computation, for every
   CIE without a signal mark, exactly if looking the ip up at the previous instruction and
   at the ip itself gives the same row (`CachedUnwind.HitsAgree`,
   `CachedUnwind.ConsultedMeans`).
3. **From bytes to rows.** Parsing a serialised CIE and FDE and running what was parsed
   yields, for every ip, the row that the assembled instructions mean
   (`Unwinding.EndToEnd`), whatever the format and application of the pointers in the
   records, indirect ones included (`Pointers.PointerRead`). A run up to an ip yields the row of the call-frame table that
   covers it; remember and restore nest; each column has the rule given to it last; the
   pool has the same objects outstanding at every exit, and a run ends for lack of memory
   only if the emergency area is exhausted, never if enough objects were free. An instruction of section 6.4.2 is decoded as the standard means it exactly
   if it does not describe a value, its register has a column, and its target is not lost
   (`CfiAssembler.DecodeAssembled`).
4. **The expression evaluator runs compiled trees** to the tree's 64-bit value above an
   untouched stack, conditionals included, and overflows exactly when the need exceeds the
   room. Every run keeps
   the stack bounds; a run that executes no backward jump halts, and so does every program
   with none among its instructions, whatever its operand bytes look like; jump-free code
   composes.
5. **Index lookup agrees with the linear scan**, and a section of n bytes has at most
   n / 8 records, so the scan is never cut short.
6. **Two-phase agreement**: the handler-frame action reaches at most one personality, at
   the frame where the search stopped.

## Where the code and its documentation disagree

The code is followed; each line names the lemma that pins the difference down.

- `deref_size` with size 5 to 7 keeps the high bytes (`ExprCompiler.DerefSizeKeepsHighPart`).
- The ordering comparisons take their operands in the reverse order of DWARF v3
  (`ExprCompiler.ComparisonsReversed`).
- `constu` and `consts` have no operand entry and push a stale operand
  (`ExprCompiler.ConstuPushesStale`).
- A pc-relative pointer to its own address is stored as zero and reads as null
  (`Pointers.LostPointer`).
- `DW_EH_PE_sleb128` pointers are read by the unsigned reader, which is right exactly if
  bit 6 of the last byte is clear or all ten bytes are there (`Pointers.SlebPointer`,
  `Pointers.SlebBackwards`).
- `DW_CFA_val_offset`, `DW_CFA_val_offset_sf` and `DW_CFA_val_expression` have no case: the
  opcode is a no-op and the operands are executed as instructions
  (`CfiAssembler.DecodeAssembled`, `CfiAssembler.ValOffsetMisread`).
- Instructions about registers from 17 up, which the standard allows, are errors, and a
  program ends at the first of them (`CfiAssembler.DecodeAssembled`,
  `CfiAssembler.AssembledBehaves`).
- A pc-relative `DW_CFA_set_loc` to the address of its own operand sets the location to 0
  (`CfiAssembler.DecodeAssembled`, `CfiAssembler.LostLocs`).
- A linear search whose proc-info already covers the ip takes a leading CIE for a match
  (`FrameSearch.StaleMatch`, `Unwinding.StaleInput`). Lookups by ip pass the caller's proc-info on as it is, and
  Unwind.c:74-77 does not clear it.
- An offset of -2^63, of the CFA, of RBP or of RSP, passes the range test and is packed as 0
  (`Trace.LossyOffset`).
- The fast trace stores return addresses less one and the slow loop stores them as they
  are (`FastTrace.Backtrace`).
- The panic after the personality call is reached on every "continue" answer, not only on
  that of the handler frame (`TwoPhase.CodeFollowsProtocol`, `TwoPhase.CodeReaches`,
  `TwoPhase.CleanupPanics`).
- The cache files rows by ip alone, although the record is looked up at the previous
  instruction or at the ip, as the cursor says: where the two differ, a hit may give the
  wrong one (`CachedUnwind.HitsAgree`).
- A flush is missed if exactly a multiple of 2^32 flushes were requested since the cache
  was last consulted (`CachedUnwind.AddressSpace.GetRsCache`).

## Model

| member | source | states |
|---|---|---|
| `Leb128.DwarfReadUleb128` | include/dwarf_i.h:164-184 | the loop computes the unsigned reading and consumes exactly its bytes |
| `Leb128.DwarfReadSleb128` | include/dwarf_i.h:189-213 | the loop computes the signed reading, sign extension included |
| `Leb128.SecondReadUleb` | _ReadULEB.c:6-23 | the second unsigned decoder is the same function |
| `Leb128.SecondReadSleb` | _ReadSLEB.c:6-28 | the second signed decoder is the same function |
| `Leb128.GroupMeaning` | include/dwarf_i.h:164-213 | every group of at most ten bytes reads as its base-128 value, or its signed value, modulo 2^64 |
| `Leb128.EncodedUnsigned` | include/dwarf_i.h:164-184 | the standard unsigned encoding, padded to any length that holds the value, denotes the value |
| `Leb128.EncodedSigned` | include/dwarf_i.h:189-213 | the same for the signed encoding |
| `Leb128.UnsignedRoundTrip` | include/dwarf_i.h:164-184 | reading undoes unsigned encoding, canonical or padded, up to ten bytes |
| `Leb128.SignedRoundTrip` | include/dwarf_i.h:189-213 | reading undoes signed encoding |
| `Leb128.TenBytesSuffice` | include/dwarf_i.h:164-213 | ten bytes hold every 64-bit value, so the round trips cover them all |
| `Leb128.OrGroup` | include/dwarf_i.h:177-178 | or-ing seven bits in at their shift adds them modulo 2^64; bits past 63 are lost |
| `Leb128.SignFill` | include/dwarf_i.h:207-209 | or-ing the shifted all-ones word in subtracts the sign weight |
| `Words.LittleRoundTrip` | include/dwarf_i.h:87-131 | the fixed-width readers undo little-endian writing |
| `Pointers.PointerRoundTrip` | include/dwarf_i.h:215-358 | reading undoes writing for every fixed-size absolute or pc-relative encoding, null kept null |
| `Pointers.LostPointer` | include/dwarf_i.h:303-317 | the one pointer that does not survive is a pc-relative one to its own address |
| `Pointers.SlebPointer` | include/dwarf_i.h:274-277 | the unsigned reader gives the signed value exactly if bit 6 of the last byte is clear or all ten bytes are there |
| `Pointers.SlebBackwards` | include/dwarf_i.h:274-277 | a pc-relative signed pointer four bytes back is read as one 124 bytes on |
| `Pointers.LittleSigned` | include/dwarf_i.h:279-295 | the low bytes of a negative word read back as its two's complement |
| `Pointers.PointerRead` | include/dwarf_i.h:215-358 | a pointer in any format and application, direct, indirect or aligned, reads as its target and is stepped over |
| `Pointers.IndirectRoundTrip` | include/dwarf_i.h:348-354 | a written pointer to a slot, with the indirect bit set, reads as the word in the slot |
| `Pointers.PointerRejected` | include/dwarf_i.h:297-337 | the other formats, and a non-null number under the other applications, are errors |
| `Pointers.DirectMeans` | include/dwarf_i.h:303-317 | every written direct pointer but the lost one points to its target |
| `FrameParser.ParseCieRecord` | Gfde.c:45-124 | the imperative header parser computes the specified CIE or error, which `FrameRoundTrip` pins down |
| `FrameParser.ParseCieFields` | Gfde.c:116-213 | version, augmentation string, factors and return column, step by step as specified |
| `FrameParser.ParseAugOperands` | Gfde.c:155-209 | the loop over the augmentation string, unknown characters included |
| `FrameParser.ExtractProcInfo` | Gfde.c:220-357 | fields, next address and error of the extraction are those specified, whatever the record |
| `FrameParser.FillProcInfo` | Gfde.c:304-356 | the part from the initial location on |
| `FrameRoundTrip.CieRoundTrip` | Gfde.c:45-213 | parsing undoes serialising for every CIE, 32-bit or 64-bit, version 1 or 3, with a sized or an unsized augmentation of at most four characters, and a personality pointer of any kind |
| `FrameRoundTrip.FdeRoundTrip` | Gfde.c:220-357 | range, handler, LSDA, factors and both instruction ranges come back, from pointers of any kind, and the address moves to the next record |
| `FrameRoundTrip.AugOperandsRead` | Gfde.c:155-209 | the augmentation loop recovers encodings, handler and signal mark, and stops where the operands end |
| `FrameRoundTrip.RecordRead` | Gfde.c:71-114 | length, id width and end of a record in either format |
| `FrameRoundTrip.UnknownAug` | Gfde.c:198-206 | a character without a meaning ends a sized augmentation where it stands and is an error in an unsized one |
| `FrameRoundTrip.CieRejected` | Gfde.c:74-124 | another id or another version than 1 and 3 is rejected, each with its error |
| `FrameRoundTrip.CieSkipped` | Gfde.c:257-259 | a CIE is passed over, in .eh_frame and in .debug_frame, and the proc-info is left alone |
| `FrameSearch.RecordsBounded` | Gfind_proc_info-lsb.c:263-265 | a well-formed section of n bytes has at most n / 8 records |
| `FrameSearch.LinearSearch` | Gfind_proc_info-lsb.c:115-148 | the scan returns the first record that covers the ip, with its proc-info, or reports no info; a stale proc-info and a leading CIE included |
| `FrameSearch.StaleMatch` | Gfind_proc_info-lsb.c:127-135 | the scan is the lookup exactly if the proc-info did not cover the ip before or the section does not begin with a CIE |
| `FrameSearch.LookupIsFirst` | Gfind_proc_info-lsb.c:127-148 | the lookup is the first FDE whose half-open range has the ip, none only if there is none |
| `FrameSearch.UnwLookup` | Gfind_proc_info-lsb.c:329-351 | binary search finds the last entry that starts at or before the ip, and nothing only if there is none |
| `FrameSearch.SearchTable` | Gfind_proc_info-lsb.c:354-456 | the index gives the answer of the linear scan, on every ip within reach of a 32-bit offset |
| `FrameSearch.OnlyCandidate` | Gfind_proc_info-lsb.c:329-351 | in a section of disjoint ranges only the record of that entry can cover the ip |
| `FrameSearch.NoneCovers` | Gfind_proc_info-lsb.c:421-428 | without such an entry no record covers the ip |
| `FrameSearch.WrittenCieReads` | Gfde.c:257-259 | a serialised CIE is a record that the scan passes over |
| `FrameSearch.WrittenFdeReads` | Gfde.c:220-357 | a serialised FDE is a record of a section, whatever range the proc-info of the scan comes with |
| `Cfi.RunYieldsRow` | Gparser.c:86-375 | a run to an ip yields the row of the denotational table that covers it; later rows and errors play no part |
| `Cfi.SameRow` | Gparser.c:86-375 | ips that no location separates get the same row |
| `Cfi.CoversInterval` | Gparser.c:86-89 | with increasing locations the covering row is the one whose interval contains the ip |
| `Cfi.RunExecutes` | Gparser.c:89-375 | without an early stop the loop executes its listing |
| `Cfi.NestingKeepsBeneath` | Gparser.c:239-266 | nested code does not touch the states remembered beneath it |
| `Cfi.RememberRestore` | Gparser.c:239-266 | remember, well-nested code, restore: rules, CFA columns and stack are as before |
| `Cfi.RunRememberRestore` | Gparser.c:239-266 | the same about the bytes |
| `Cfi.RestoreYieldsInitial` | Gparser.c:178-203 | restore gives the initial rule, whatever ran before |
| `Cfi.AmountsTo` | Gparser.c:99-375 | without remembered states every program succeeds, each column has the rule given to it last, and the location is the last one set plus the factored advances |
| `Cfi.CieRunsToEnd` | Gparser.c:477-480 | the run of the CIE program is never cut short |
| `CfiMachine.Edit` | Gparser.c:99-375 | the in-place edits of the rules are the specified step, and leave the initial rules alone |
| `CfiMachine.RunCfiProgram` | Gparser.c:89-387 | rules, args size and error are those of the specification; at every exit the pool has the same objects outstanding as at entry; it fails for lack of memory only if the emergency area is exhausted, and asks for none if reserve plus nesting depth are free |
| `CfiMachine.FreeSaved` | Gparser.c:378-385 | the states left on the stack are all given back, one free object each |
| `CfiMachine.ParseFde` | Gparser.c:467-489 | CIE program, copy of its rules, FDE program: the specified row, and restore goes back to the CIE's rules; lack of memory as for one program |
| `CfiAssembler.DecodeAssembled` | Gparser.c:91-373 | what every instruction of section 6.4.2 decodes to, in every form and with any register; it is what the standard means exactly if the instruction does not describe a value, its register has a column and its target is not lost |
| `CfiAssembler.LostLocs` | Gparser.c:208-215 | the lost targets are exactly the pc-relative ones of their own operand |
| `CfiAssembler.AssembledAsMeant` | Gparser.c:89-373 | a program is decoded as meant exactly if the code understands every instruction of it |
| `CfiAssembler.AssembledBehaves` | Gparser.c:89-386 | what running any assembled program without value descriptions does, for every ip: it ends with an error at the first register without a column |
| `CfiAssembler.ValOffsetMisread` | Gparser.c:99-99 | running a val_offset of register 6 resets register 10 |
| `CfiAssembler.FactoredSigned` | Gparser.c:155-173 | the unsigned 64-bit product is that of the signed numbers |
| `CfiAssembler.AssembledListing` | Gparser.c:89-99 | an assembled program that the code understands decodes to its meanings, one after the other, up to its end |
| `CfiAssembler.AssembledRuns` | Gparser.c:89-375 | the machine executes assembled programs that it understands as section 6.4.2 of DWARF v3 says |
| `Unwinding.RunListing` | Gparser.c:86-375 | the loop over bytes is the loop over the listed instructions, for any ip |
| `Unwinding.UntilMax` | Gparser.c:477-480 | with the largest ip every instruction is executed |
| `Unwinding.CieInstructions` | Gfde.c:207-209 | the operands of the augmentation end where the instructions of the CIE begin |
| `Unwinding.FdeInstructions` | Gfde.c:348-352 | the FDE's instruction range is the end of its record |
| `Unwinding.CompiledRuns` | Gparser.c:467-489 | running two assembled programs is executing the CIE's instructions, then the FDE's up to the ip |
| `Unwinding.EndToEnd` | Gparser.c:650-675 | parsing a serialised CIE and FDE and running them yields the row that their instructions mean, for every ip |
| `Unwinding.OrdinaryFunction` | Gparser.c:467-489 | end to end for a function with the usual prologue, at any address: CFA at RSP+8 on entry, at RSP+16 with RBP saved past the push |
| `Unwinding.StaleInput` | Gfind_proc_info-lsb.c:127-144 | a section of one CIE in which the scan finds a match and no record covers the ip |
| `Expr.StepBounded` | Gexpr.c:204-231 | no step leaves the 64 slots |
| `Expr.RunBounded` | Gexpr.c:244-643 | no run does, backward jumps included |
| `Expr.ForwardHalts` | Gexpr.c:615-625 | a run that executes no backward jump halts within its length |
| `Expr.ForwardProgramHalts` | Gexpr.c:615-625 | a program with no backward jump among its instructions halts within its length; operand bytes do not matter |
| `Expr.OperandIsNoJump` | Gexpr.c:251-262 | a constant whose operand bytes look like a backward jump is jump-free code |
| `Expr.StaysOnStarts` | Gexpr.c:244-262 | execution stays on a set of instruction starts closed under fall-through and jump targets |
| `Expr.FuelMonotone` | Gexpr.c:244-647 | the result does not depend on the bound on iterations |
| `Expr.RunSplit` | Gexpr.c:244-643 | runs of one program add up |
| `Expr.Sequential` | Gexpr.c:244-643 | jump-free code in front of other code does what it does alone, and the rest runs from the state it left |
| `ExprMachine.Evaluator.Pop` | Gexpr.c:204-212 | the wrapped unsigned test fails exactly on an empty stack |
| `ExprMachine.Evaluator.Pick` | Gexpr.c:222-231 | the wrapped index is in range exactly if the element exists, and gives it |
| `ExprMachine.Evaluator.PushWord` | Gexpr.c:213-221 | a push appends or reports overflow |
| `ExprMachine.Evaluator.Iterate` | Gexpr.c:244-646 | one iteration on the array is one specified step |
| `ExprMachine.EvalExpr` | Gexpr.c:189-647 | the evaluator computes the specified run |
| `ExprCompiler.CodeRuns` | Gexpr.c:244-643 | postfix code of any tree, conditionals included, leaves exactly the tree's value above the untouched stack, if it has room |
| `ExprCompiler.CodeOverflows` | Gexpr.c:213-221 | the room needed is exact: with less, the run ends in stack overflow |
| `ExprCompiler.EvaluatesTree` | Gexpr.c:189-647 | evaluating the block of a tree yields its value, if it fits in the 63 slots above the CFA |
| `ExprCompiler.BinaryMeaning` | Gexpr.c:473-571 | the two-operand operations compute the meaning of section 2.5.1.4 of DWARF v3, quotient and remainder by zero taken as 0 |
| `ExprCompiler.DivMeaning` | Gexpr.c:480-487 | div is the signed quotient with a remainder smaller than the divisor and of the dividend's sign, 0 for a zero divisor |
| `ExprCompiler.JumpStep` | Gexpr.c:615-625 | skip jumps by its signed offset, bra exactly if the value popped is not 0 |
| `ExprCompiler.Conditional` | Gexpr.c:620-625 | behind a condition and a bra, a jump-free block is run exactly if the condition is 0, and the rest follows |
| `ExprCompiler.DerefSizedMeans` | Gexpr.c:373-424 | deref_size of 1 to 4 and of 8 bytes reads the little-endian number in that many bytes |
| `ExprCompiler.CfaBeneath` | Gexpr.c:242-242 | the CFA lies beneath what an expression pushes; an empty one yields it |
| `ExprCompiler.ConstExtended` | Gexpr.c:344-363 | the signed constants undo the truncation to their operand size |
| `ExprCompiler.ComparisonsReversed` | Gexpr.c:573-606 | the ordering comparisons agree with the standard exactly on equal operands, and are the standard's with the operands exchanged |
| `ExprCompiler.DerefSizeKeepsHighPart` | Gexpr.c:408-421 | sizes 5 to 7 give the low bytes only if the word is 0 |
| `ExprCompiler.ConstuPushesStale` | Gexpr.c:75-108 | a step on constu or consts is never the standard's; the value is right only if the operand read last is the same |
| `ExprStack.Moves` | Gexpr.c:427-463 | dup, drop, over, swap, rot and nop: what each leaves of any values above any stack |
| `ExprStack.Picks` | Gexpr.c:437-440 | pick copies the value with the given number above it |
| `ExprStack.Refused` | Gexpr.c:204-231 | too few values, or a full stack for a copy, end the run |
| `ExprStack.RotThrice` | Gexpr.c:455-463 | three rotations restore the stack |
| `ExprStack.SwapTwice` | Gexpr.c:447-453 | two exchanges restore the stack |
| `ExprStack.NamesRegister` | Gexpr.c:310-330 | reg0 to reg31 and regx end the evaluation with the mapped register |
| `ExprStack.Unknown` | Gexpr.c:631-642 | every other opcode is an error |
| `RsCache.LruRotate` | Gparser.c:602-608 | moving the head of the LRU list to its tail rotates the order |
| `RsCache.LruVisitsAll` | Gparser.c:602-608 | the LRU list visits every bucket |
| `RsCache.OneChain` | Gparser.c:635-638 | a bucket is on no collision chain but that of its ip |
| `RsCache.UnlinkChains` | Gparser.c:610-633 | unlinking takes a bucket off its chain and leaves all others as they were |
| `RsCache.PushChains` | Gparser.c:635-638 | entering puts a free bucket in front of the chain of its ip |
| `RsCache.Cache.Flush` | Gparser.c:491-509 | any shape of the cache becomes well formed and empty |
| `RsCache.Cache.SearchChain` | Gparser.c:575-592 | the chain walk ends, and finds the ip exactly if a valid bucket has it |
| `RsCache.Cache.Lookup` | Gparser.c:563-593 | a hit exactly if the ip is cached, whatever the hint; contents and order are not changed |
| `RsCache.Cache.Unlink` | Gparser.c:610-633 | the old bucket is found on its chain and removed |
| `RsCache.Cache.Enter` | Gparser.c:635-645 | the recycled bucket is linked under its new ip |
| `RsCache.Cache.Detach` | Gparser.c:602-633 | the oldest bucket becomes the last of the LRU list and leaves its chain |
| `RsCache.Cache.RsNew` | Gparser.c:595-648 | insertion keeps all three structures; the oldest of 128 entries makes room for the newest |
| `RsCache.Inserted` | Gparser.c:595-648 | both halves of an insertion keep the structure and make the entries a FIFO |
| `RsCache.Cache.Insert` | Gparser.c:869-870 | an insertion and the copy of the row append one entry |
| `RsCache.Cache.CopyRow` | Gparser.c:870-870 | the copy fills in the newest entry's row and nothing else |
| `RsCache.Cache.SetHint` | Gparser.c:871-871 | a hint write changes no entry and no thread |
| `RsCache.HasIpIff` | Gparser.c:555-560 | some valid bucket matches the ip exactly if an entry has it |
| `CachedUnwind.RecentPush` | Gparser.c:602-648 | recycling the oldest bucket is appending to a FIFO of 128 |
| `CachedUnwind.HitsAgree` | Gparser.c:410-411 | every entry that may be cached for an ip gives what the uncached function gives, whichever the bit, exactly if the lookup at the previous instruction does not differ |
| `CachedUnwind.ConsultedMeans` | Gparser.c:836-877 | what hit and miss leave of row, column and bit: a fetch for an unmarked CIE sets the bit on a hit, a miss and a failed program alike, a failed fetch changes nothing |
| `CachedUnwind.RecentAgree` | Gparser.c:853-859 | what a hit returns was computed since the last flush |
| `CachedUnwind.AddressSpace.FlushCache` | flush_cache.c:44-49 | a request only counts up |
| `CachedUnwind.AddressSpace.GetRsCache` | Gparser.c:511-533 | the cache is emptied exactly if a flush was requested since the last access, counted modulo 2^32 |
| `CachedUnwind.AddressSpace.Remember` | Gparser.c:869-874 | the insertion after a miss |
| `CachedUnwind.AddressSpace.FindSaveLocs` | Gparser.c:836-887 | hit or miss as the FIFO of insertions since the last flush says; for an unmarked CIE row, column and bit are those of the info either way, if its two lookups do not differ |
| `CachedUnwind.AddressSpace.Consult` | Gparser.c:853-877 | a hit gives the entry and sets the bit, a miss is the uncached function, failed fetches and programs included |
| `Trace.PackingLossless` | Gstash_frame.c:56-76 | the range tests make 30-bit and 15-bit packing lossless exactly off -2^63 |
| `Trace.SentinelFree` | Gstash_frame.c:60-67 | no packed offset is -1 |
| `Trace.LossyOffset` | Gstash_frame.c:56-76 | rows with an offset of -2^63 of the CFA, of RBP or of RSP are classified standard, and the offset is packed as 0 |
| `Trace.FieldMeaning` | Gstash_frame.c:70-74 | a bit-field holds the number of its range congruent to what was assigned |
| `Trace.StandardExactly` | Gstash_frame.c:52-67 | exactly these rows are standard: CFA off RBP or RSP, return address at CFA - 8, every offset -2^63 or one that its field holds, but for the least and, for RBP and RSP, -1 |
| `Trace.StandardByRow` | Gstash_frame.c:52-67 | whether a plain frame is standard depends on its row alone |
| `Trace.FillAgrees` | Gtrace.c:202-255 | filling a slot for a return address tells the truth, whatever the registers |
| `Trace.FillComplete` | Gtrace.c:202-255 | a slot is filled completely exactly if the filling step is not rejected and does not find RBP saved at address 0, or has nothing to tell |
| `Trace.RoundAgrees` | Gtrace.c:467-479 | replaying a truthful standard summary is taking the slow step |
| `TraceCache.OccupiedUpdate` | Gtrace.c:316-317 | filling an empty slot raises the occupancy by one |
| `TraceCache.InsertKeepsProbing` | Gtrace.c:279-319 | filling the first empty slot of a probe keeps every entry reachable and addresses unique |
| `TraceCache.NotElsewhere` | Gtrace.c:279-298 | an address not met before an empty slot is nowhere in the table |
| `TraceCache.NotPresent` | Gtrace.c:279-298 | a probe that ends without meeting the address shows that it is absent, and whether a slot within reach is free |
| `TraceCache.EmptyProbing` | Gtrace.c:74-86 | an emptied table is well formed |
| `TraceCache.Table.constructor` | Gtrace.c:88-124 | a new cache has 2^14 empty buckets |
| `TraceCache.Table.Expand` | Gtrace.c:126-149 | four times the buckets, all empty, or no change |
| `TraceCache.Table.Lookup` | Gtrace.c:261-320 | the slot returned is that of the address; a hit changes nothing, a miss fills a free slot within reach of a table less than half full, and expands any other; none is returned exactly if there is no memory for that |
| `TraceCache.Table.SearchSlot` | Gtrace.c:279-303 | the probing loop meets the address exactly if it is in the table, and ends at a free slot exactly if one is within reach |
| `TraceCache.Table.FillExpanded` | Gtrace.c:305-319 | the home slot of the expanded table is filled, all others are empty |
| `FastTrace.WalkOn` | Gtrace.c:425-515 | one recorded round is one step of the walk |
| `FastTrace.SummaryDecides` | Gtrace.c:452-511 | at a regular cursor a truthful and complete summary tells whether the trace goes on, ends or gives up |
| `FastTrace.FirstDecides` | Gtrace.c:425-515 | the first frame that is not traceable decides whether an untraceable one is met |
| `FastTrace.LookupKeeps` | Gtrace.c:436-436 | a lookup keeps the table truthful, and at a regular cursor complete |
| `FastTrace.FrameFor` | Gtrace.c:427-450 | the lookup of a round: a truthful frame for the decremented address, complete if the table was; none only without memory |
| `FastTrace.Advance` | Gtrace.c:461-504 | the switch over the frame type: the registers of the next frame, which reads must succeed, and why it fails |
| `FastTrace.RoundOnWalk` | Gtrace.c:425-515 | one round keeps the registers on the walk and the entry right |
| `FastTrace.Round` | Gtrace.c:425-511 | one round: what it keeps, why it stops, and at a regular cursor of a complete table exactly whether it goes on |
| `FastTrace.TdepTrace` | Gtrace.c:385-522 | every recorded address is that of the slow walk less one as long as the walk is regular; the table stays truthful; on a complete table traceable frames are all recorded, those of moderate size in particular, the table stays complete if the frames looked up were regular or the last had no plain info, and if the frames that tracing comes to are regular no others are recorded and the trace gives up exactly if it meets an untraceable frame |
| `FastTrace.ModerateFrames` | Gtrace.c:425-515 | frames whose offsets are within the fields' ranges, with slots outside the first page, are traceable |
| `CallChain.EntryUndone` | Gparser.c:701-806 | the slow step with the row of a function entry undoes a call |
| `CallChain.PushUndone` | Gparser.c:701-806 | with the row past the push of RBP it undoes the call and the push |
| `CallChain.WalkUndoesCalls` | Gparser.c:701-806 | inside nested calls of functions with a frame pointer the j-th step stands at the j-th return address, with that caller's stack pointer and RBP |
| `CallChain.CallsAreModerate` | Gtrace.c:425-515 | all frames of such calls are of moderate size |
| `FastTrace.SlowBacktrace` | backtrace.c:31-52 | the loop records the addresses of the walk, and stops short of the size only where the walk ends |
| `FastTrace.NullReturnRecorded` | Gget_reg.c:33-38 | a null return-address slot does not end the loop: ip 0 is recorded |
| `FastTrace.Backtrace` | backtrace.c:54-73 | which way filled the buffer, that its entries are the addresses of the walk, less one or as they are accordingly, and exactly when it was which if the frames that tracing comes to are regular; the table is fit for the next call |
| `TwoPhase.SearchFinds` | Unwind.c:263-297 | the search finds exactly the first personality that claims, if all before it pass |
| `TwoPhase.SearchStops` | Unwind.c:263-297 | the search ends at the end of the stack exactly if every personality passes; any other failure is a fatal error |
| `TwoPhase.Agreement` | Unwind.c:299-315 | a personality is told that it is the handler frame at most once, and only where the search stopped, even with recursive frames |
| `TwoPhase.ProtocolFrames` | unwind-internal.h:74-157 | calls follow the stack, and the handler-frame action goes with the marker's ip |
| `TwoPhase.ProtocolStops` | unwind-internal.h:151-155 | the protocol does not get past the handler frame |
| `TwoPhase.ProtocolReaches` | unwind-internal.h:121-155 | under the protocol every frame on the way cleans up in order, and then the handler frame is named |
| `TwoPhase.FirstCallOnly` | unwind-internal.h:126-155 | the code makes the protocol's first personality call and no other |
| `TwoPhase.CodeReaches` | unwind-internal.h:151-155 | the code names the handler frame exactly if no frame before it has a personality |
| `TwoPhase.FirstCalledIs` | unwind-internal.h:113-129 | the first personality called is that of the first frame that has one |
| `TwoPhase.CodeOutcome` | unwind-internal.h:113-155 | it is told that its frame is the handler's exactly if that has the marker's ip, and its answer alone decides the outcome |
| `TwoPhase.CodeFollowsProtocol` | unwind-internal.h:129-155 | the code is the protocol exactly if the first personality called is the handler frame's or does not answer "continue" |
| `TwoPhase.CleanupPanics` | unwind-internal.h:151-155 | a frame that only cleans up stands in the way of the handler: a concrete stack |
| `TwoPhase.ForcedCalls` | unwind-internal.h:96-107 | a forced unwind asks the stop function about every frame in turn and names no handler frame |
| `TwoPhase.ForcedOutcome` | unwind-internal.h:82-157 | where a forced unwind ends and how: past the last frame with one more question, or at the first frame that stops it |
| `TwoPhase.CleanupFrame` | unwind-internal.h:84-156 | one round of the loop |
| `TwoPhase.CleanupLoop` | unwind-internal.h:54-161 | outcome and calls of the loop are those specified |
| `TwoPhase.RaiseException` | Unwind.c:238-316 | the exception object is marked exactly if a handler was found, and phase 2 agrees with phase 1 |
| `Mempool.Store.SosAlloc` | mempool.c:46-79 | emergency memory is aligned and overlaps nothing handed out |
| `Mempool.Pool.constructor` | mempool.c:124-149 | a new pool has no object outstanding; the default reserve is what fits a quarter of a page, or 16; the chunk is the least number of pages that hold twice the reserve |
| `Mempool.Pool.FreeObject` | mempool.c:83-91 | the object becomes the first of the free list |
| `Mempool.Pool.Carve` | mempool.c:98-99 | one object is made and freed, apart from all others |
| `Mempool.Pool.AddMemory` | mempool.c:93-100 | a region is carved into as many disjoint aligned objects as fit |
| `Mempool.Pool.Acquire` | mempool.c:105-120 | the chunk is asked for first, then one page-rounded object, then emergency memory, and no more once memory was had; it is aligned, handed out, and holds no object |
| `Mempool.Pool.Expand` | mempool.c:102-122 | expansion asks in that order, adds free objects, at least twice the reserve if the chunk was had, and fails only on an exhausted emergency area |
| `Mempool.Pool.Alloc` | mempool.c:151-169 | the object was not outstanding and overlaps none that is; memory is asked for exactly if no more than the reserve is free, and there is no object only if the emergency area is exhausted |
| `Mempool.Pool.Free` | mempool.c:171-179 | the object is no longer outstanding, and nothing else changes |
| `Mempool.FittingAtLeast` | mempool.c:146-146 | the chunk size holds twice the reserve |
| `DynInfo.NewestFirst` | dyn-register.c:31-43 | the list is what the history of operations says: membership by the last operation on a node, order by registration, newest first |
| `DynInfo.RemoveAt` | dyn-cancel.c:35-41 | removal keeps the order of the others |
| `DynInfo.InfoList.PushFront` | dyn-register.c:37-41 | the links spell the list with the node in front |
| `DynInfo.InfoList.Unlink` | dyn-cancel.c:35-45 | the links spell the list without the node, and its own are cleared |
| `DynInfo.InfoList.Register` | dyn-register.c:30-44 | links mutually inverse, the node first, the generation counted |
| `DynInfo.InfoList.Cancel` | dyn-cancel.c:28-46 | links mutually inverse, the node gone, the generation counted |
| `DynInfo.InfoList.Find` | Gfind_dynamic_proc_info.c:41-46 | the newest registered node whose half-open range has the address, or no info exactly if there is none |

## Left out

- ExprMachine.EvalExpr: runs for at most `fuel` iterations, because a backward jump may
  loop forever; `Expr.FuelMonotone` shows that the bound does not change a result.
- CfiMachine.RunCfiProgram: instruction addresses are mathematical integers, so a block
  skip that wraps around the address space is not modelled; nor is the early return on a
  failed byte read that leaks the saved states (readers of local memory never fail).
- CachedUnwind.AddressSpace.FindSaveLocs: models the body behind the short-circuit at
  Gparser.c:840. Unwind info is a function of the lookup address and the ip between
  flushes, and ip 0 has none. A hit always asks for the previous instruction, which agrees
  with the uncached function only for CIEs without a signal mark; the contract says so. The
  proc-info that a failed fetch leaves in the cursor is not modelled.
- CfiAssembler.DecodeAssembled: `DW_CFA_set_loc` operands in fixed-size formats, absolute
  or pc-relative; `DW_CFA_GNU_window_save` and `DW_CFA_MIPS_advance_loc8` are errors in
  `Cfi.DecodePlain` and not assembled.
- FastTrace.TdepTrace: the initial ip is not 1 (its decremented form would read as an
  empty slot). Steps without plain DWARF info (PLT stubs, guessed frames) are an opaque
  function of the registers; claims stop where they begin. The branch for signal-return
  frames is modelled in `FastTrace.Advance` and never taken, because nothing in the
  repository classifies a frame so. The writes that `trace_init_addr` makes to the saved
  context are not modelled.
- FastTrace.SlowBacktrace: `unw_step` on a cursor without plain info is opaque.
- CallChain.WalkUndoesCalls: the machine knows `call`, `push rbp` and the setting up of a frame;
  function bodies write nothing but the frames they call into.
- TraceCache.Table.Expand: the table size is a power of two without the 32-bit width of
  `1u << log_size`; whether memory is to be had is a parameter.
- TwoPhase.RaiseException: the stack is finite and stepping deterministic; what the
  landing pad does after a resume, and `_Unwind_Resume`, are not followed.
- Leb128.GroupMeaning: groups longer than ten bytes, where the shift count exceeds 63 and
  C gives no meaning; the model masks the count as x86-64 does.
- FrameRoundTrip.FdeRoundTrip: LEB128 pointers of at most ten bytes; values of the ABI
  marker and tag are not kept; exhaustion of the pool that holds the CIE info is not
  modelled.
- FrameRoundTrip.CieRoundTrip: augmentations of at most four characters, `z` included; the
  parser keeps four and reads operands for no more.
- FrameSearch.SearchTable: remote-table format in the local address space; the debug-frame
  base and remote lookup are not modelled.
- Reads outside the mapped bytes are the outcome `Fault`; the original would trap. So is
  the division of the least 64-bit number by -1.
- `dwarf_to_unw_regnum` and register access are environment functions.
- Liveness of the pool when even the emergency area is exhausted: the failed assertion is
  the outcome None.
- The register rules other than CFA, RBP and the return address in slow unwinding: the
  call chain does not depend on them. The return-address column is 16. Rows with
  expressions for other registers are plain if these evaluate whatever the registers
  are; if one may fail, the ip counts as one without plain info.
- Locks, thread-local storage, signal masks and reference counts: locked sections are
  atomic steps.
- Memory validation beyond the first page, and its page cache; ELF, linker and symbol lookup; setjmp; register
  accessors; MIPS, SPARC, IA-64 and remote unwinding; printing.
