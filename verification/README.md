# A verified model of PolyglotCompiler's algorithmic cores

This Dafny project models eight parts of PolyglotCompiler and proves what each of them is for:

- **Instruction scheduling.** `MachineIR`, `Meaning`, `Dags`, `DependencyGraph`, `GreedyOrder` and `Scheduler` model the
  x86-64 list scheduler: the dependency graph, the critical path metrics and the greedy choice from a ready list, which
  `TieBreaking` describes without the list.
  A block is given a meaning over registers, memory and the exit taken, for any machine; a schedule keeps it wherever
  the graph orders every conflicting pair. `Exchanges` shows that conflicts are exactly what some machine notices,
  `MeaningCoverage` that only covered blocks are safe on all machines, and `Hazards` shows blocks the graph gets wrong.
  `Pipeliner` models the software pipeliner, and `PipelineMeaning` says when its schedule computes what the body does.
- **Unification.** `Types`, `Terms`, `Unification` and `TypeUnifiers` model the first-order unifier as an object with a
  triangular substitution and as a function. `UnifierTheorems`, `UnifierCompleteness` and `UnifierLinearity` prove
  soundness, most general results, and when exactly a call succeeds; `UnifierLeftovers` says when exactly it binds,
  and `UnifierImages` to which terms, literally.
- **Identifiers.** `IdentifierTables` models the open-addressing table with growth, rebuilding and rollback against a
  plain list of distinct names.
- **Debug information.** `ByteStreams`, `LinePrograms`, `LineUnits`, `FileTables` and `DebugLines` model LEB128 and the
  DWARF 5 line-number unit, read back by the state machine of the standard. `Msf` models the multi-stream file of the
  PDB writer.
- **Object files.** `ObjectFiles` and the `Coff…` and `MachO…` modules model the COFF and Mach-O builders, which compute
  a layout first and emit bytes second; readers written from the formats get everything back, and `CoffContents` and
  `MachOContents` say field by field what that is.
- **Type equivalence and layout.** `Equivalences` models the registry's merged lists against chains of registered pairs.
  `Layouts` models sizes, alignments and layout compatibility.
- **String literals.** `NativeStrings` models the decoder for native string interfaces in both dialects, and
  `StringSpellings` an escaper that it undoes.
- **Plugins.** `Plugins` models the life of plugin libraries as a trace of calls, and the failure breaker.

`Arithmetic`, `Options` and `Sequences` hold what several of them share. Methods that change state are proved against
functions or predicates of the old state; the theorems are stated about those. `dafny verify dfyconfig.toml` checks the
whole project.

Memory accesses, machine semantics, plugin libraries and the answers of plugins are parameters. Where a field of the
program has a width, the model truncates as the program does.

## Model

| member | source | states |
|---|---|---|
| Scheduler.BuildDependencyGraph | backends/x86_64/src/optimizations.cpp:162-207 | the successor and predecessor lists are exactly the edges of the block's graph, in block order: read after write, memory order, terminators |
| Scheduler.ComputeDepths | backends/x86_64/src/optimizations.cpp:210-267 | every depth becomes the largest latency sum over the paths that reach the node; the queue hands out every node, none before one of its predecessors |
| Scheduler.ComputeHeights | backends/x86_64/src/optimizations.cpp:269-293 | every height becomes the largest latency sum over the paths that leave the node, its own latency included |
| Scheduler.ComputeCriticalPath | backends/x86_64/src/optimizations.cpp:209-294 | both metrics together, over any acyclic graph and any latencies |
| Scheduler.SelectNext | backends/x86_64/src/optimizations.cpp:353-381 | null exactly for an empty list; else the first of the best entries: no entry is higher, or equally high with a higher latency, and all earlier entries are worse |
| Scheduler.UpdateReadyList | backends/x86_64/src/optimizations.cpp:397-420 | the list gains exactly the unlisted successors whose predecessors have all been issued |
| Scheduler.ListScheduling | backends/x86_64/src/optimizations.cpp:296-351 | the output is the block in a greedy order, which TieBreaking.GreedyIsExact pins down to every tie; every node is issued once, in cycle 0 |
| Scheduler.ScheduleBlock | backends/x86_64/src/optimizations.cpp:149-156 | the three phases together: the block becomes a list schedule of itself by longest remaining path, which is the only one (TieBreaking.ScheduleIsUnique) |
| Scheduler.Schedule | backends/x86_64/src/optimizations.cpp:141-160 | every block of a function is scheduled on its own; empty blocks, names and the number of blocks stay |
| GreedyOrder.ReadyListIsExact | backends/x86_64/src/optimizations.cpp:314-348 | at every moment the ready list holds each unissued position whose predecessors are issued, once, and nothing else |
| GreedyOrder.SomethingIsReady | backends/x86_64/src/optimizations.cpp:316-333 | while instructions remain, the ready list is not empty, so the branch that advances the cycle is never taken |
| GreedyOrder.GreedyIsLegal | backends/x86_64/src/optimizations.cpp:296-351 | a greedy order lists every position once and reverses no edge of the graph |
| TieBreaking.GreedyIsExact | backends/x86_64/src/optimizations.cpp:296-420 | an order is greedy exactly if at each moment the pick is, among the positions whose predecessors are issued, the one with the longest way to go, then the highest latency, then the earliest moment of becoming ready, then the smallest position |
| TieBreaking.ScheduleIsUnique | backends/x86_64/src/optimizations.cpp:141-160 | a block has one schedule only |
| TieBreaking.UnrelatedBlockStays | backends/x86_64/src/optimizations.cpp:304-381 | a block without edges whose instructions have one latency is its own schedule |
| Meaning.Commute | backends/x86_64/src/optimizations.cpp:92-135 | two instructions that do not conflict give the same state in both orders, whatever they compute |
| Exchanges.CommutingIsExact | backends/x86_64/src/optimizations.cpp:92-135 | two instructions conflict exactly when some machine with the same memory accesses, in some state, tells their two orders apart |
| Meaning.AgreeingOrdersRunAlike | backends/x86_64/src/optimizations.cpp:141-160 | two orders of a block that keep every conflicting pair in order run to the same state |
| DependencyGraph.LegalOrderKeepsMeaning | backends/x86_64/src/optimizations.cpp:162-207 | if the graph orders every conflicting pair, every order that respects the graph computes what the block computes |
| DependencyGraph.CoverageIsExact | backends/x86_64/src/optimizations.cpp:162-207 | the graph orders every conflicting pair exactly when all orders that respect it keep every conflicting pair in order |
| MeaningCoverage.MeaningIsKeptExactly | backends/x86_64/src/optimizations.cpp:162-207 | in a block that defines no register twice, all orders that respect the graph keep the meaning on all machines of the same memory accesses exactly when the graph orders every conflicting pair |
| DependencyGraph.SingleAssignmentIsCovered | backends/x86_64/src/optimizations.cpp:92-207 | the graph orders every conflicting pair of a single-assignment block in which only loads and stores reach memory |
| DependencyGraph.EdgesAreNeeded | backends/x86_64/src/optimizations.cpp:92-207 | where exactly loads read and stores write memory, the two instructions of every edge interfere |
| GreedyOrder.ScheduleKeepsMeaning | backends/x86_64/src/optimizations.cpp:141-160 | the schedule of a covered block has the same instructions and leaves the same registers, memory and exit, for every machine and every state |
| GreedyOrder.SingleAssignmentScheduleKeepsMeaning | backends/x86_64/src/optimizations.cpp:141-160 | in particular the schedule of a single-assignment block in which only loads and stores reach memory |
| Hazards.SlowerInstructionGoesFirst | backends/x86_64/src/optimizations.cpp:353-381 | two unrelated instructions of which the second is slower are always exchanged |
| Hazards.WriteAfterReadIsBroken | backends/x86_64/src/optimizations.cpp:93-112 | r1 := r0 + r2; r0 := r2 * r2 with r0 = 5 and r2 = 7: the schedule computes another r1 |
| Hazards.CallThenLoadIsBroken | backends/x86_64/src/optimizations.cpp:115-135 | a call that stores, then a load, single assignment: the schedule loads before the call and reads another value |
| Hazards.FreePairIsExact | backends/x86_64/src/optimizations.cpp:162-207 | an exchanged pair keeps its meaning on all machines of the same memory accesses exactly when its two instructions do not conflict |
| Pipeliner.ComputeMII | backends/x86_64/src/optimizations.cpp:426-503 | the least interval, at least 1, at which the port groups keep up and no latency is longer |
| Pipeliner.SustainableByCounts | backends/x86_64/src/optimizations.cpp:426-503 | an interval is sustainable exactly if it is as long as every latency and the counts of memory, floating-point, branch and all other instructions, of which slow ones count three times, fit two, two, one and four ports |
| Pipeliner.ModuloScheduling | backends/x86_64/src/optimizations.cpp:505-564 | position i has stage i / interval and the last stage is the last position's; prologue, kernel and epilogue are the steps in which a stage has started and not yet finished, at multiples of the interval |
| Pipeliner.PipelineLoop | backends/x86_64/src/optimizations.cpp:566-588 | loops known to run fewer than four times stay as they are; the others are pipelined by these stages at the least sustainable interval, at least 2 with side effects; an empty body gives no steps |
| Pipeliner.ScheduleIssues | backends/x86_64/src/optimizations.cpp:529-563 | the first k steps of the schedule hold exactly the instructions at the positions issued by k steps, in order |
| Pipeliner.EveryPositionIssuedEquallyOften | backends/x86_64/src/optimizations.cpp:529-563 | over prologue, kernel and epilogue every body position occurs exactly once more than the last stage number |
| Pipeliner.EarlierPositionsLead | backends/x86_64/src/optimizations.cpp:529-563 | at every moment an earlier position has been issued at least as often as a later one, so n-th occurrences keep body order |
| Pipeliner.CyclesIncrease | backends/x86_64/src/optimizations.cpp:529-563 | the cycles of the steps strictly increase from the first to the last |
| PipelineMeaning.PipelineOrderIsExact | backends/x86_64/src/optimizations.cpp:505-564 | against as many rounds of the body as there are stages, the schedule keeps every conflicting pair in order exactly when conflicting positions are in one stage |
| PipelineMeaning.PipelineKeepsMeaning | backends/x86_64/src/optimizations.cpp:505-564 | where conflicting positions are in one stage, the schedule computes what those rounds compute, for every machine and every state |
| PipelineMeaning.SummingLoopIsBroken | backends/x86_64/src/optimizations.cpp:505-564 | r0 := r0 + r1; r2 := r2 + r0 with r1 = 1: the schedule at the least interval computes another r2 than two rounds of the body |
| Unification.ImageIsLower | common/include/core/types.h:448-460 | the image of a bound variable mentions only variables bound later or not at all, which is why applying ends |
| Unification.ApplyResolves | common/include/core/types.h:448-460 | no bound variable is left in a term after the substitution is applied |
| Unification.ApplyIdempotent | common/include/core/types.h:448-460 | applying a second time changes nothing |
| Unification.ApplyAbsorbs | common/include/core/types.h:448-460 | applying a longer substitution absorbs having applied a shorter one |
| Unification.FewerUnbound | common/include/core/types.h:419-446 | a substitution that grew leaves fewer variables unbound or did not grow at all: the measure by which unifying ends |
| Terms.OccursMeansNoSolution | common/include/core/types.h:506-523 | the occurs check is justified: no assignment makes a variable equal to a larger term around it |
| TypeUnifiers.TypeUnifier.Occurs | common/include/core/types.h:506-514 | true exactly if the variable is in the term |
| TypeUnifiers.TypeUnifier.Apply | common/include/core/types.h:448-460 | gives what the substitution makes of the term, and ends |
| TypeUnifiers.TypeUnifier.Bind | common/include/core/types.h:516-523 | binds the variable to the applied value unless it occurs there; the substitution stays acyclic either way |
| TypeUnifiers.TypeUnifier.UnifyTerms | common/include/core/types.h:419-446 | has the outcome and the new bindings of the specification, failed calls with their partial bindings included, and ends |
| TypeUnifiers.TypeUnifier.Unify | common/include/core/types.h:419-446 | the same for a call from outside, which first takes in the variables of both terms |
| UnifierTheorems.UnifySound | common/include/core/types.h:419-446 | after a success both terms are equal once the bindings are applied, primitives compared by kind |
| UnifierTheorems.UnifyMostGeneral | common/include/core/types.h:419-446 | no binding excludes a unifier that satisfied the old ones, not even those that a failing call leaves behind |
| UnifierTheorems.UnifiersAreTheInstances | common/include/core/types.h:419-446 | after a success the assignments that satisfy the substitution are exactly the unifiers that satisfied the old one |
| UnifierImages.VariableGetsOtherSide | common/include/core/types.h:419-446 | after a success an open variable on one side, once applied, is the other side as it was, every field of it; the left side goes first |
| UnifierImages.ImagesArePartsOfTheTerms | common/include/core/types.h:419-523 | whatever a call binds, failed or not, is once applied literally a part of one of its two terms |
| UnifierTheorems.UniverseIrrelevant | common/include/core/types.h:419-446 | the outcome depends on the substitution and the two terms only |
| UnifierCompleteness.SuccessIsExact | common/include/core/types.h:419-446 | for all terms, a call succeeds exactly if a unifier exists and the run meets no pair that the occurs check refuses needlessly |
| UnifierLinearity.UnifyConfined | common/include/core/types.h:419-446 | a call binds variables of its two applied terms only, to terms over those variables |
| UnifierLinearity.LinearSuccessIsExact | common/include/core/types.h:419-446 | where the two applied terms share no variable and one of them repeats none, a call succeeds exactly if a unifier exists |
| UnifierCompleteness.VariableFailsWithItself | common/include/core/types.h:516-523 | unifying an unbound variable with itself fails although every assignment is a unifier |
| UnifierCompleteness.RepeatedVariablesFail | common/include/core/types.h:419-446 | a pair of one variable twice and a pair of another twice do not unify although a unifier exists |
| UnifierCompleteness.HiddenOccurrenceFails | common/include/core/types.h:506-523 | a variable does not unify with an int that has it for an argument although a unifier exists, since equality of ints looks at no arguments |
| UnifierLeftovers.BindingIsExact | common/include/core/types.h:419-446 | a call changes the substitution exactly if the applied terms bind: left to right, before the first pair that neither binds nor is the same, some pair meets an unbound variable that does not occur on the other side |
| UnifierLeftovers.FailureIsCleanExactly | common/include/core/types.h:439-442 | a call fails and leaves the substitution as it was exactly if the applied terms neither bind nor are the same |
| UnifierLeftovers.FailedCallLeavesBinding | common/include/core/types.h:439-442 | a pair of a fresh variable and bool against a pair of ints fails and leaves the variable bound |
| TypeUnifiers.SuccessLasts | common/include/core/types.h:419-446 | in every run, whatever is unified later or fails to unify, both sides of a success stay equal |
| TypeUnifiers.RunsAgree | common/include/core/types.h:419-446 | two runs of the same calls from the same substitution end in the same substitution |
| IdentifierTables.IdentifierTable.ProbeFor | frontends/common/src/identifier_table.cpp:31-47 | probing ends within one round: at the name's bucket, or at a free bucket that proves the name absent |
| IdentifierTables.InsertKeepsIndex | frontends/common/src/identifier_table.cpp:86-93 | putting a new name into the free bucket its probe ended at keeps every name reachable |
| IdentifierTables.FreeBucketMeansAbsent | frontends/common/src/identifier_table.cpp:31-47 | a free bucket reached without a match means that the name is not in the table |
| IdentifierTables.IdentifierTable.GrowIfNeeded | frontends/common/src/identifier_table.cpp:49-55 | afterwards one more name keeps at most three quarters of the buckets full, and the index is intact |
| IdentifierTables.IdentifierTable.Rehash | frontends/common/src/identifier_table.cpp:57-75 | the rebuilt index reaches every name, in the least power of two of buckets that is large enough |
| IdentifierTables.IdentifierTable.Intern | frontends/common/src/identifier_table.cpp:77-94 | the id is the place of the name in the list of distinct names; a new name goes to its end, across any growth; the counters tell hits from misses; from 2^32 - 1 names on a new name's id is the invalid one and the index does not cover it |
| IdentifierTables.IdentifierTable.Find | frontends/common/src/identifier_table.cpp:96-104 | the place of the name, or the invalid id exactly if the list lacks it |
| IdentifierTables.IdentifierTable.Lookup | frontends/common/src/identifier_table.cpp:106-111 | the name with that id, or the empty name beyond the list |
| IdentifierTables.IdentifierTable.RestoreSnapshot | frontends/common/src/identifier_table.cpp:121-132 | the list is cut to the snapshot's length and every remaining name is reachable again; longer snapshots change nothing |
| IdentifierTables.IdentifierTable.Reset | frontends/common/src/identifier_table.cpp:134-142 | the table is as new: no names, no counts, the initial number of buckets |
| IdentifierTables.RunKeepsDistinct | frontends/common/src/identifier_table.cpp:77-132 | names stay distinct over every run of interning, restoring and resetting, so ids and names determine each other |
| IdentifierTables.EveryCallIsCounted | frontends/common/src/identifier_table.cpp:77-94 | without rollback hits and misses add up to the calls, and the misses are the names that were new |
| IdentifierTables.MissesNumberTheNames | frontends/common/src/identifier_table.cpp:77-132 | on every run from an empty table, rollbacks to snapshots of such tables included, the misses number the names |
| IdentifierTables.RestoreIsExact | frontends/common/src/identifier_table.cpp:113-132 | restoring recovers the table of the snapshot exactly if the names of that moment still head the list |
| IdentifierTables.RollbackBelowSnapshot | frontends/common/src/identifier_table.cpp:113-132 | a snapshot of one name, a rollback to none, another name: restoring the snapshot gives the other name |
| IdentifierTables.RollbackIsTransactional | frontends/common/src/identifier_table.cpp:113-132 | whatever was interned and rolled back in between, nested snapshots included, restoring gives back names and counters of the snapshot |
| ByteStreams.WriteULEB128 | backends/common/src/debug_emitter.cpp:256-265 | appends the unsigned LEB128 form of the value |
| ByteStreams.ReadsULEB | backends/common/src/debug_emitter.cpp:256-265 | reading an unsigned LEB128 number gives back the value and its length, whatever follows |
| ByteStreams.WriteSLEB128 | backends/common/src/debug_emitter.cpp:268-281 | appends the signed LEB128 form of the value |
| ByteStreams.ReadsSLEB | backends/common/src/debug_emitter.cpp:268-281 | reading a signed LEB128 number gives back the value and its length, for both signs |
| ByteStreams.WriteLE | backends/common/src/debug_emitter.cpp:284-288 | appends the little-endian bytes of the value, truncated to the width |
| ByteStreams.FromLEIsRemainder | backends/common/src/debug_emitter.cpp:284-288 | reading little-endian bytes gives back the value modulo the width's range |
| ByteStreams.Patch32 | backends/common/src/debug_emitter.cpp:291-295 | overwrites the four bytes at the offset and nothing else |
| FileTables.SplitPathJoins | backends/common/src/debug_emitter.cpp:305-311 | directory, one separator and name make up the path again, and the name has no separator |
| DebugLines.DwarfSectionBuilder.GetOrAddFile | backends/common/src/debug_emitter.cpp:396-423 | a known path keeps its number; a new one gets the next, with a directory entry that is added at most once |
| LinePrograms.DecodesToItsRows | backends/common/src/debug_emitter.cpp:758-834 | the state machine of section 6.2 of the DWARF 5 standard turns the bytes of any encodable instruction list into that list's rows |
| LinePrograms.OperandsAreCounted | backends/common/src/debug_emitter.cpp:702-714 | each standard instruction takes as many LEB128 operands as the header counts for it, the two bytes of fixed_advance_pc aside |
| DebugLines.DwarfSectionBuilder.EncodeLineStatements | backends/common/src/debug_emitter.cpp:758-834 | the bytes appended decode to one row for each entry and one row that ends the sequence |
| DebugLines.RowsStandForEntries | backends/common/src/debug_emitter.cpp:780-833 | each row has its entry's line and file number, its column exactly if that is not negative, and an address at or past the entry's and past all earlier rows |
| DebugLines.IncreasingAddressesAreKept | backends/common/src/debug_emitter.cpp:792-802 | the rows carry the entries' own addresses exactly when those strictly increase |
| DebugLines.DwarfSectionBuilder.EncodeLineHeader | backends/common/src/debug_emitter.cpp:681-756 | appends the fixed fields and both tables in the form of section 6.2.4 of the DWARF 5 standard |
| LineUnits.ReadsHeader | backends/common/src/debug_emitter.cpp:716-755 | a reader that takes the fields one by one, then as many operand counts as the opcode base announces, then the tables, gets back the state machine's constants and both tables |
| LineUnits.FieldsRead | backends/common/src/debug_emitter.cpp:681-714 | read one by one, the fields are the instruction length, default_is_stmt, line base, line range, opcode base and operand counts that the state machine works with |
| DebugLines.DwarfSectionBuilder.BuildDebugLine | backends/common/src/debug_emitter.cpp:836-880 | a unit below 4 GB reads back, through both patched lengths, as the fields that the state machine works with, its tables and one row for each entry |
| DebugLines.RowsNameTheirFiles | backends/common/src/debug_emitter.cpp:396-423 | counted from 1, the file number of a row leads through the unit's own tables to the entry's path |
| DebugLines.CountedFromZero | backends/common/src/debug_emitter.cpp:417-420 | counted from 0, a path's number leads to the path exactly when the next file has the same two parts |
| Msf.AssignBlocks | backends/common/src/debug_emitter.cpp:1444-1461 | each stream gets as many consecutive blocks as it needs, from block 4 on |
| Msf.BlocksAreDisjoint | backends/common/src/debug_emitter.cpp:1444-1461 | no block has two uses, and all lie between the reserved blocks and the block total |
| Msf.BuildDirectory | backends/common/src/debug_emitter.cpp:1463-1478 | the directory is the stream count, the sizes and all block numbers in order |
| Msf.Scatter | backends/common/src/debug_emitter.cpp:1512-1524 | every stream's bytes lie in its blocks and the reserved blocks are untouched |
| Msf.Build | backends/common/src/debug_emitter.cpp:1444-1527 | for any directory, every stream lies in its blocks and block 3 holds the directory's first 4096 bytes; with a directory of at most one block, following header and directory gives back every stream |
| Msf.CutDirectoryIsLost | backends/common/src/debug_emitter.cpp:1507-1510 | a directory beyond one block is found again exactly if the bytes of the first stream blocks happen to be its remainder |
| Msf.ManyStreamsAreUnreadable | backends/common/src/debug_emitter.cpp:1507-1510 | from 1024 empty streams on, the file is too short for its own directory and reads back as nothing |
| Msf.DirectoryBlockIsTheCount | backends/common/src/debug_emitter.cpp:1505-1510 | the block the header names begins with the stream count, which a reader of the MSF format takes for the directory's block number |
| CoffBuilders.COFFBuilder.Build | backends/common/src/object_file.cpp:738-915 | a file below 4 GB reads back, through its own headers, as FileRead says, and whatever reads back holds the machine and, in order, each section's and symbol's added fields |
| CoffContents.FileReadHoldsInputs | backends/common/src/object_file.cpp:749-856 | section i has the bytes of its data unless it is named .bss or __bss, the flags of its name, and relocations with the added offset, the machine's type and the last symbol of the name; symbols have name, offset below 2^32, type, storage class and section number; something reads back if no short name begins with a slash |
| CoffLayout.FileReadIsExact | backends/common/src/object_file.cpp:749-763 | the file reads back as what was added exactly when every short section name with a slash in front leads to itself |
| CoffFormat.SlashNameReads | backends/common/src/object_file.cpp:754-763 | such a name reads back exactly when digits follow the slash and the string table holds the name at their value |
| CoffLayout.SlashNameIsLost | backends/common/src/object_file.cpp:754-763 | behind a first section with a long name, a section named /4 reads back under that name |
| CoffLayout.SymbolIndexIsLast | backends/common/src/object_file.cpp:832-833 | a symbol name is numbered by the last record with that name, and by 0 exactly if there is none |
| CoffLayout.RelocationsNameTheirSymbols | backends/common/src/object_file.cpp:840-856 | a relocation's index leads to a record of the requested name exactly if such a symbol was added or the first section has that name |
| CoffFormat.SymbolNameReads | backends/common/src/object_file.cpp:815-825 | a symbol's name reads back from its field or, when long, from the string table |
| CoffBuilders.PlaceRawData | backends/common/src/object_file.cpp:858-870 | the raw data offsets are where the bytes will be, one part behind the other after the headers, and 0 for a section without raw data |
| CoffBuilders.PlaceTables | backends/common/src/object_file.cpp:871-878 | the relocation offsets and counts are those of tables laid out behind the raw data |
| CoffBuilders.Serialise | backends/common/src/object_file.cpp:888-914 | the bytes are the file header, section headers, raw data, relocation tables, symbol records and string table in this order |
| MachOFormat.RegionsAreOrdered | backends/common/src/object_file.cpp:355-408 | the announced regions follow each other without overlap, data at multiples of 16, tables at multiples of 8, so aligning lands on the announced symbol table |
| MachOBuilders.MachOBuilder.Emit | backends/common/src/object_file.cpp:410-633 | header, segment command with its section headers, symbol table and build version commands, data, relocation tables, strings and symbols are emitted at the places announced for them, the header announcing the commands' total size |
| MachOBuilders.MachOBuilder.Build | backends/common/src/object_file.cpp:336-634 | a file below 4 GB reads back, through its load commands, as FileOf says, and holds the processor and, in order, each section's and symbol's added fields |
| MachOContents.FileHoldsInputs | backends/common/src/object_file.cpp:443-633 | section i has its mapped name and segment, all bytes of its data, its flags, and relocations with the added offset, the fields of their kind and the last symbol of the name; symbols have their prefixed name, value, kind and first section of the name |
| MachORecords.UnpacksPacked | backends/common/src/object_file.cpp:579-582 | the five packed fields of a relocation read back from its 32-bit word |
| MachORecords.RelocationsNameTheirSymbols | backends/common/src/object_file.cpp:535-553 | a relocation's symbol number leads to the requested name exactly if such a symbol was added |
| MachORecords.NameIsKept | backends/common/src/object_file.cpp:446-466 | a section keeps its name exactly if it is not one of the five renamed ones and has at most 15 bytes |
| MachORecords.StringReads | backends/common/src/object_file.cpp:395-402 | every symbol's offset leads to its name behind an underscore in the string table |
| Equivalences.ClassesJoin | common/src/core/type_system.cpp:1240-1266 | registering a pair joins the classes of its two keys and leaves all others alone |
| Equivalences.TypeRegistry.RegisterEquivalence | common/src/core/type_system.cpp:1235-1267 | afterwards every key's list holds all other members of its class, once each, for any history of registrations |
| Equivalences.TypeRegistry.AreEquivalent | common/src/core/type_system.cpp:1285-1299 | true exactly for equal types and for different keys that registered pairs connect; without colons in language names, exactly the reflexive, symmetric and transitive closure |
| Equivalences.TypeRegistry.GetEquivalences | common/src/core/type_system.cpp:1269-1283 | lists exactly the other types of the class among those whose language has no colon, each once, and no type whose language has one |
| Equivalences.KeysDiffer | common/src/core/type_system.cpp:1237-1238 | without colons in language names, different types have different keys |
| Equivalences.KeysCoincide | common/src/core/type_system.cpp:1237-1238 | language a:b with type c and language a with type b:c have one key, which every history connects with itself |
| Layouts.RoundUpIsTight | common/src/core/type_system.cpp:838 | the masked sum is the least multiple of the alignment that is not below the total |
| Layouts.SizeIsMultipleOfAlignment | common/src/core/type_system.cpp:795-943 | alignments are 1, 2, 4, 8 or 16 and every size is a multiple of its alignment, for every nesting of documented widths |
| Layouts.NumbersHoldTheirWidth | common/src/core/type_system.cpp:802-810 | a number of documented width takes that many bits |
| Layouts.ArrayElementsFillTheArray | common/src/core/type_system.cpp:825-830 | the elements of a sized array lie at multiples of their size, aligned, one behind the other, and fill it |
| Layouts.OptionalHasAFlag | common/src/core/type_system.cpp:832-841 | an optional is the least multiple of its payload's alignment with a byte behind the payload |
| Layouts.TupleIsTight | common/src/core/type_system.cpp:847-864 | a tuple covers its elements and ends less than one alignment behind the last |
| Layouts.TupleElementsAreAligned | common/src/core/type_system.cpp:846-862 | every tuple element lies inside the tuple at a multiple of its own alignment, which divides the tuple's |
| Layouts.TupleElementsAreDisjoint | common/src/core/type_system.cpp:846-862 | tuple elements lie one behind the other without overlap |
| Layouts.NumbersShareTheirLayout | common/src/core/type_system.cpp:1007-1012 | compatible numbers have one size, and one alignment exactly if they are of one kind or narrower than 72 bits |
| Layouts.CompatibleTypesShareTheirLayout | common/src/core/type_system.cpp:1002-1043 | compatible types of any nesting agree in size and alignment, in all their parts, exactly if no integer is matched with a float of 72 bits or more |
| Layouts.WideNumbersDiffer | common/src/core/type_system.cpp:894-906 | a 128-bit integer and a 128-bit float are compatible and differ in alignment |
| NativeStrings.ReadUnicodeEscape | frontends/common/include/native_string_literal.h:39-62 | refuses missing digits and values that are no scalar, else appends the scalar's UTF-8 form |
| NativeStrings.ReadByteEscape | frontends/common/include/native_string_literal.h:63-79 | reads octal and hexadecimal byte escapes with the limits of both dialects |
| NativeStrings.DecodeNativeString | frontends/common/include/native_string_literal.h:9-85 | decodes step by step to what the specification says, or fails with its error |
| NativeStrings.ReadsUtf8 | frontends/common/include/native_string_literal.h:47-60 | decoding the UTF-8 form of a scalar, as section 3 of RFC 3629 defines it, gives back the scalar |
| NativeStrings.UnicodeEscapeIsUtf8 | frontends/common/include/native_string_literal.h:39-62 | wherever it stands, an escape is accepted exactly for a scalar value, and its bytes decode to that value |
| NativeStrings.ScalarsAreDecoded | frontends/common/include/native_string_literal.h:39-62 | the digits of a scalar, in either case, become its UTF-8 form; those of any other value are refused |
| NativeStrings.OctalRoundTrip | frontends/common/include/native_string_literal.h:63-85 | three-digit octal escapes of all bytes decode to the string exactly if it has no zero byte, in both dialects |
| StringSpellings.SpelledRoundTrip | frontends/common/include/native_string_literal.h:21-38 | bytes 7 to 13, quotation marks and backslashes by their letters and all others as they are decode to the string exactly if it has no zero byte, in both dialects |
| StringSpellings.RawIsItself | frontends/common/include/native_string_literal.h:21-24 | a raw body decodes to itself, in Go without its carriage returns, exactly if it has no zero byte |
| StringSpellings.OtherEscapesAreRefused | frontends/common/include/native_string_literal.h:25-66 | a backslash at the end, before an unknown letter or, in Go, before an apostrophe or question mark is refused with its error |
| StringSpellings.EscapedQuoteIsItself | frontends/common/include/native_string_literal.h:35-38 | outside Go an escaped apostrophe or question mark is that character |
| NativeStrings.HexRunIsOneByte | frontends/common/include/native_string_literal.h:63-79 | outside Go a hexadecimal escape takes every digit there is and is one byte, refused without digits and for values beyond 255 |
| NativeStrings.GoHexIsTwoDigits | frontends/common/include/native_string_literal.h:63-79 | in Go a hexadecimal escape is two digits, whatever follows, and refused with fewer |
| NativeStrings.HexRoundTrip | frontends/common/include/native_string_literal.h:63-85 | two-digit hexadecimal escapes of all bytes decode to the string exactly if it has no zero byte, in both dialects |
| NativeStrings.DecodedIsShortAndNulFree | frontends/common/include/native_string_literal.h:82-84 | a decoded string is never longer than the literal's body and has no zero byte |
| Plugins.PluginManager.LoadPlugin | common/src/plugins/plugin_manager.cpp:296-380 | a library is kept exactly if it answers all mandatory questions and its id is new; otherwise it is closed again |
| Plugins.PluginManager.ActivatePlugin | common/src/plugins/plugin_manager.cpp:419-463 | succeeds exactly if the plugin is active already or gets an instance and its hook returns 0; providers are cached only then, a refusing hook leaves no instance, and an existing hook is called once for an inactive plugin with an instance |
| Plugins.PluginManager.DeactivatePlugin | common/src/plugins/plugin_manager.cpp:465-494 | the plugin is inactive without cached providers and keeps its instance; an active plugin's hook, if it has one, is called once and otherwise never |
| Plugins.PluginManager.UnloadPlugin | common/src/plugins/plugin_manager.cpp:382-413 | the plugin is gone, its library's life is closed, and the hook of an active plugin was called once |
| Plugins.PluginManager.UnloadAll | common/src/plugins/plugin_manager.cpp:876-895 | no plugin is left and every library ever opened is closed |
| Plugins.PluginManager.RecordPluginFailure | common/src/plugins/plugin_manager.cpp:1161-1178 | counts one more failure and opens the breaker at the threshold in force |
| Plugins.PluginManager.IsCircuitOpen | common/src/plugins/plugin_manager.cpp:1188-1192 | tells whether a failure reached the threshold since the last reset or load |
| Plugins.OpenBreakerStaysOpen | common/src/plugins/plugin_manager.cpp:1161-1203 | an open breaker stays open whatever succeeds or fails, until a reset or a new load |
| Plugins.NothingIsBroken | common/src/plugins/plugin_manager.cpp:382-494 | on every run hooks get a live instance, deactivating starts from active, providers are asked only while active, and nothing is called outside the library's open time |
| Plugins.NothingAfterClose | common/src/plugins/plugin_manager.cpp:382-413 | in a sequence of calls that keeps the protocol, as that of every run does, no call names a library after it was closed |
| Plugins.CreatedAreDestroyed | common/src/plugins/plugin_manager.cpp:382-494 | at every moment each instance has been destroyed as often as created, but for the one that is live |
| Plugins.NoInstanceIsLeaked | common/src/plugins/plugin_manager.cpp:876-895 | once everything is unloaded, every instance ever created has been destroyed exactly as often |

## Findings

What the modelled code does not do, each with an input that shows it and the condition under which it does.

- **Write after read is not ordered.** `r1 := r0 + r2; r0 := r2 * r2` is exchanged because the product is slower, and r1
  is then computed from the new r0 (`Hazards.WriteAfterReadIsBroken`). Two unrelated instructions of which the second is
  slower are always exchanged, and this keeps the meaning on all machines of the same memory accesses exactly if the two
  do not conflict (`Hazards.FreePairIsExact`). Blocks whose conflicting pairs are all ordered by the graph are safe
  (`GreedyOrder.ScheduleKeepsMeaning`), and of the blocks that define no register twice only those are: otherwise some
  order that respects the graph changes the meaning on some machine (`MeaningCoverage.MeaningIsKeptExactly`).
- **Calls are not ordered against loads and stores.** A call that stores, followed by a load, is exchanged even in a
  single-assignment block (`Hazards.CallThenLoadIsBroken`); the same conditions decide.
- **Pipelining ignores dependences.** Stages come from places in the body alone, and the second round of an earlier
  stage is issued before the first round of a later one. `r0 := r0 + r1; r2 := r2 + r0` adds up too much
  (`PipelineMeaning.SummingLoopIsBroken`). Conflicting pairs keep their order exactly if conflicting positions are in
  one stage (`PipelineMeaning.PipelineOrderIsExact`), and then the meaning is kept
  (`PipelineMeaning.PipelineKeepsMeaning`).
- **A variable does not unify with itself.** The occurs check rejects a variable paired with itself
  (`UnifierCompleteness.VariableFailsWithItself`), which also makes a pair of one variable twice fail against a pair of
  another twice (`UnifierCompleteness.RepeatedVariablesFail`). It also rejects a variable hidden in the arguments of a
  primitive type or of another variable, which equality does not look at (`UnifierCompleteness.HiddenOccurrenceFails`).
  A call succeeds exactly if a unifier exists and the run meets no pair refused for these reasons
  (`UnifierCompleteness.SuccessIsExact`); no run meets one if the terms share no variable and one of them repeats none
  (`UnifierLinearity.LinearSuccessIsExact`), and each of the first two failures breaks one half of that.
- **A failed call keeps its bindings.** `Pair(t, bool)` against `Pair(int, int)` fails and leaves `t` bound to `int`
  (`UnifierLeftovers.FailedCallLeavesBinding`). A failed call leaves the substitution as it was exactly if the applied
  terms do not bind (`UnifierLeftovers.FailureIsCleanExactly`), which is decided on the terms alone. What is left behind
  excludes no unifier of that call (`UnifierTheorems.UnifyMostGeneral`), and earlier successes last
  (`TypeUnifiers.SuccessLasts`).
- **A snapshot survives rollbacks above it only.** After rolling back below a snapshot and interning another name,
  restoring it gives the other name (`IdentifierTables.RollbackBelowSnapshot`); it is exact if and only if the names of
  that moment still head the list (`IdentifierTables.RestoreIsExact`).
- **Ids run out at 2^32 - 1.** A new name in a table of that many gets the invalid id, and the index does not cover it;
  below that number every name keeps a valid one (`IdentifierTables.IdentifierTable.Intern`).
- **Rows do not keep addresses that do not increase.** An address at or below the previous row's becomes one more than
  that row's; all addresses are kept exactly if they strictly increase (`DebugLines.IncreasingAddressesAreKept`).
- **Negative columns come out as large numbers.** The column of a row is the entry's exactly if that is not negative
  (`DebugLines.RowsStandForEntries`).
- **DWARF 5 counts files from 0, the writer from 1.** Read as section 6.2.4 of the standard says, a path's number leads
  to the next file or past the end; it leads to the path exactly if the next file has the same two parts
  (`DebugLines.CountedFromZero`).
- **The PDB directory stands where a list of its blocks belongs.** A reader of the MSF format takes the stream count for
  the number of the directory's block (`Msf.DirectoryBlockIsTheCount`), which is right only if that number is 3.
- **A PDB directory beyond 4096 bytes is cut off.** With 1024 or more empty streams the file reads back as nothing
  (`Msf.ManyStreamsAreUnreadable`). A larger directory is found again exactly if the stream bytes behind block 3 happen
  to be its remainder (`Msf.CutDirectoryIsLost`); one of at most one block always is (`Msf.Build`).
- **COFF section names like `/4` are lost.** Short names are written into the field even if they begin with a slash,
  which a reader takes for an offset. Sections named `abcdefghi` and `/4` both read back as `abcdefghi`
  (`CoffLayout.SlashNameIsLost`). Such a name reads back exactly if digits follow the slash and the string table holds
  the name at their value (`CoffFormat.SlashNameReads`), and the file exactly if all of them do
  (`CoffLayout.FileReadIsExact`).
- **Relocations against unknown symbols name record 0.** In COFF that is the first section's symbol
  (`CoffLayout.RelocationsNameTheirSymbols`), in Mach-O the first symbol (`MachORecords.RelocationsNameTheirSymbols`);
  both lemmas say exactly when the requested name is met.
- **Mach-O section names are mapped or cut.** `.rodata` and `.const` share a name and names beyond 15 bytes are cut; a
  section keeps its name exactly if it is not one of five and short enough (`MachORecords.NameIsKept`).
- **Compatible numbers can differ in alignment.** A 128-bit integer and a 128-bit float are layout-compatible, with
  alignments 8 and 16 (`Layouts.WideNumbersDiffer`). Compatible numbers agree exactly if they are of one kind or
  narrower than 72 bits (`Layouts.NumbersShareTheirLayout`), and compatible types of any nesting agree in all their
  parts exactly if all numbers in them do (`Layouts.CompatibleTypesShareTheirLayout`).
- **Types with one key count as equivalent or not by accident.** Language `a:b` with type `c` and language `a` with type
  `b:c` have one key (`Equivalences.KeysCoincide`); the query then says no although every history connects the key with
  itself. Without colons in language names it is exact (`Equivalences.TypeRegistry.AreEquivalent`).

## Left out

- Processor flags, physical registers, spill slots and widths of values in blocks: an instruction is an opcode, a
  defined virtual register, uses, operands and a terminator mark, and a register holds an integer.
- Scheduler.ListScheduling: the branch for an empty ready list is not written out, because
  `GreedyOrder.SomethingIsReady` shows that no run enters it.
- Scheduler.ComputeCriticalPath: latency sums are unbounded integers; a sum beyond 31 bits is not modelled.
- The latest cycle of a node, which nothing reads.
- PipelineMeaning.PipelineKeepsMeaning: only the sufficient condition is stated for the meaning, because a value that
  nothing reads again can hide a reversed pair; for the order of conflicting pairs the condition is exact. The number of
  iterations of the loop does not enter the schedule.
- RegisterRenamer, InstructionFusion, BranchOptimizer, port balancing and cache routines: they do not keep operands,
  live-outs and condition codes consistent, so the code decides no claim about meaning.
- Trait constraints of the unifier, which unification records and never consults.
- The arena that stores interned names: it is taken to return equal bytes.
- IdentifierTables.IdentifierTable.Intern: calls after a name has got the invalid id are outside the contract.
- The bucket mask is written as the remainder by the size, a power of two; the load factor is compared in integers.
- DebugLines.DwarfSectionBuilder.BuildDebugLine: neighbouring lines further apart than 32 bits, addresses beyond 64 bits
  and paths with a zero byte are outside the contract, the reader's line register is an unbounded integer, and a unit of
  4 GB or more is not read back.
- The other DWARF sections, the contents of the PDB streams, and source maps.
- Msf.CutDirectoryIsLost: stream sizes and block numbers beyond 32 bits are outside the contract.
- CoffBuilders.COFFBuilder.Build: empty names, names with a zero byte, 32768 or more sections, 65536 or more relocations
  of a section and string tables beyond seven decimal digits of section names or 4 GB are outside the contract; the
  contents of auxiliary records are not read back.
- MachOBuilders.MachOBuilder.Build: names with a zero byte and 256 or more sections are outside the contract.
- ELF objects: their section name offsets are off by one, so a round trip would not hold.
- Equivalences.TypeRegistry.GetEquivalences: the order of the list is not stated, because it is that of a hash set.
- Plugins.PluginManager.LoadPlugin: each opening gets a library number of its own; that opening one file twice gives one
  shared handle is not modelled.
- Plugin handles are values in a map, since each is owned by its entry; locks, callbacks into the manager from a plugin,
  host services, logging and event subscriptions are not modelled.
- File output, random identifiers, wall-clock statistics, the tables of relocation numbers and target triples.
